# gamble.exchange — a verified model of the casino core

gamble.exchange is a Next.js casino with points, a spinner roulette, a
5 × 5 mines game and an admin area for opinion events.  This project models
its core in Dafny and proves what the code promises.

- **Server routes.** The state is one `Database.Db` object: users keyed by
  lowercased wallet, mines games, events and an append-only transaction
  ledger.  Each API route is a method on that object.  It returns the HTTP
  status and writes only on success, with one exception: revealing a mine
  stores the lost game and answers 400.  Read-only routes are functions over a
  snapshot of the table they query.  The routes modelled are points,
  roulette spin, mines start / reveal / cashout / history, transactions,
  admin users, events, sync and login.
- **Identity.** `PrivyAuth.ValidatePrivyAuth` maps the `x-wallet-address`
  header to an authentication result.  `toLowerCase` is ASCII lowering
  (`Text.Lower`), proved idempotent.
- **Client store.** `Store.CasinoStore` is the zustand store as a class.
  Its setters keep the top-level `points`, `walletAddress` and
  `cryptoBalance` equal to the user's own fields.
- **Pure client helpers.** They cover:
  - time splitting and the weighted spinner draw (`Utils`, over
    `Constants.SPINNER_SECTIONS`);
  - the promotion countdown and the carousel index;
  - bet clamping and auto-cash-out parsing;
  - mine risk levels and the header's address abbreviation;
  - the two admin pages' search and filtering.
- **Rotten oranges.** `RottenOranges.MinTimeToRottenOranges` is the
  breadth-first search of `src/store/main.py`.  It runs in place on an
  `array2`.

Inputs that the source reads from the outside world are parameters:
- the clock (`now`);
- `Math.random()` (`draw`, or a nondeterministic choice of a free cell);
- the prize the client reports;
- the server's answer to a client request.

## Model

| member | source | states |
|---|---|---|
| PrivyAuth.ValidatePrivyAuth | src/lib/privyAuth.ts:13-27 | authenticated iff the header is present and non-empty; the address is absent exactly when unauthenticated, else the lowercased header, already in lower case (lowering again changes nothing) and non-empty |
| PrivyAuth.CaseInsensitive | src/lib/privyAuth.ts:26 | headers equal up to case authenticate the same wallet |
| Text.LowerIdempotent | src/lib/privyAuth.ts:26 | lowering twice equals lowering once |
| Text.LowerAt | src/app/api/user/points/route.ts:46 | lowering keeps the length and lowers each character in place |
| Text.ContainsIffOccurs | src/app/admin/opinions/edit/page.tsx:68-70 | `includes` holds iff the term occurs at some position |
| Text.TrimEmptyIffAllSpace | src/app/admin/users/page.tsx:59 | a string trims to empty iff it is all white space, white space being the full set JavaScript trims |
| Text.VerticalTabAndFormFeedAreSpace | src/app/admin/users/page.tsx:59 | a vertical tab, or a form feed with a no-break space, trims to empty |
| PointsRoute.Get | src/app/api/user/points/route.ts:5-32 | 400 iff no wallet, 404 iff the lowercased wallet is unknown, else 200 with the stored points |
| PointsRoute.GetIgnoresCase | src/app/api/user/points/route.ts:18 | wallets equal up to case read the same record |
| PointsRoute.ApplyOperation | src/app/api/user/points/route.ts:53-67 | add adds the amount; subtract gives max(0, old − amount), never negative; set or any other operation overwrites |
| PointsRoute.Put | src/app/api/user/points/route.ts:34-77 | 400 iff no wallet or `points` undefined, 404 iff unknown; 500 iff `points` is null and the operation is set or another non-arithmetic one; no writes on any of these; otherwise only that user's points change, to ApplyOperation's value with null counted as 0, which is echoed |
| PointsRoute.NullAmountKeepsBalance | src/app/api/user/points/route.ts:56-61 | a null amount added or subtracted leaves a non-negative balance unchanged |
| RouletteRoute.Prize | src/app/api/games/roulette/spin/route.ts:52 | the credit is the prize when positive, else 0 |
| RouletteRoute.SpinEntries | src/app/api/games/roulette/spin/route.ts:40-70 | a −100 POINTS_WITHDRAWAL entry, then a REWARD entry of the prize only when it is positive |
| RouletteRoute.SpinEntriesSum | src/app/api/games/roulette/spin/route.ts:77-86 | the appended entries add up to prize − 100 |
| RouletteRoute.Spin | src/app/api/games/roulette/spin/route.ts:7-88 | 400 for no wallet or fewer than 100 points, 404 for unknown, no writes; else points − 100 + prize, ledger extended by SpinEntries, netChange equal to the appended sum, points stay ≥ 0 |
| Database.WinAmount | src/app/api/games/mines/cashout/route.ts:43 | floor(bet × multiplier): w ≤ bet·m < w + 1 |
| MinesStart.FreshCellExists | src/app/api/games/mines/start/route.ts:9-10 | while fewer than gridSize distinct cells are drawn, a cell not drawn yet exists |
| MinesStart.GenerateMinePositions | src/app/api/games/mines/start/route.ts:6-14 | for count ≤ gridSize: exactly max(count, 0) distinct cells, each in [0, gridSize) |
| MinesStart.PositionsNeverReachCount | src/app/api/games/mines/start/route.ts:6-14 | with count > 25, any set of distinct board cells stays below count, so the loop never exits |
| MinesStart.NewGame | src/app/api/games/mines/start/route.ts:63-73 | a new game is active, nothing revealed, multiplier 1.0, no cash-out multiplier or win amount |
| MinesStart.Start | src/app/api/games/mines/start/route.ts:16-102 | 400 without userId, 404 unknown, 400 unless points ≥ bet, 10 ≤ bet ≤ 10000 and mines (default 5) in 0..25 (the corrected check, see Findings), all without writes; a known user whose points, bet or count fail these checks always gets 400; on success the game is added with distinct in-grid mines, points drop by the bet, one MINES_BET entry of −bet is logged, points stay ≥ 0 |
| MinesReveal.CalculateMultiplier | src/app/api/games/mines/reveal/route.ts:11 | 1.0 when no safe cell is revealed, else the payout curve's value for the safe count |
| MinesReveal.SafeCellsMembers | src/app/api/games/mines/reveal/route.ts:87-89 | the filtered cells are exactly the revealed non-mine cells, without repeats |
| MinesReveal.SafeCountIsSize | src/app/api/games/mines/reveal/route.ts:87-89 | the safe count is the number of distinct revealed safe cells |
| MinesReveal.SafeBoardSize | src/app/api/games/mines/reveal/route.ts:96 | a board with k distinct mines has 25 − k safe cells |
| MinesReveal.OutOfGridRevealWins | src/app/api/games/mines/reveal/route.ts:56-100 | counterexample: a cell index off the board counts as safe and can win with a safe cell still covered |
| MinesReveal.NegativeMinesNeverWin | src/app/api/games/mines/reveal/route.ts:87-100 | counterexample: a game stored with a negative mine count and no mines is not well formed, and no safe reveal on the board ever wins it |
| MinesReveal.WinIffBoardCleared | src/app/api/games/mines/reveal/route.ts:87-100 | with off-board cells rejected, a safe reveal wins iff every safe board cell is uncovered |
| MinesReveal.AfterSafeReveal | src/app/api/games/mines/reveal/route.ts:86-111 | the cell is appended; won iff the board is cleared, else still active; multiplier recomputed; win amount written only when won; nothing else changes; the game stays well formed |
| MinesReveal.Reveal | src/app/api/games/mines/reveal/route.ts:29-125 | 500 without a game id, 404 unknown; 400 without writes for a game not active, an off-board cell (the corrected check, see Findings), or one already revealed; a mine appends the cell and sets lost only, answering 400 with the mines; a safe cell stores AfterSafeReveal; mines are sent only once the game is over; points and ledger untouched |
| MinesCashout.Cashout | src/app/api/games/mines/cashout/route.ts:5-71 | 400 without ids, 404 unknown, 403 unless the game belongs to userId, 400 unless active with a non-zero bet, all without writes; on success the game is cashed out with multiplier and win amount recorded, owner's points grow by floor(bet × multiplier), profit = win − bet |
| MinesCashout.CashoutTwice | src/app/api/games/mines/cashout/route.ts:29-49 | a second cashout after a successful one is refused with 400 |
| MinesHistory.Finished | src/app/api/games/mines/history/route.ts:19-25 | exactly the user's games that are not active |
| MinesHistory.ToItem | src/app/api/games/mines/history/route.ts:79-83 | profit = (winAmount or 0) − bet; revealedCount = number of revealed cells |
| MinesHistory.WinsAtMostFinished | src/app/api/games/mines/history/route.ts:69-76 | won and cashed-out games never outnumber the finished games |
| MinesHistory.ProfitsSum | src/app/api/games/mines/history/route.ts:81-93 | the per-game profits add up to total won − total bet |
| MinesHistory.WinRate | src/app/api/games/mines/history/route.ts:94 | the win rate is a percentage in [0, 100] |
| MinesHistory.ComputeStats | src/app/api/games/mines/history/route.ts:53-95 | totals over finished games only: totalBet and totalWon are the sums of their bets and wins; netProfit = totalWon − totalBet = sum of profits; winRate 0 without finished games, else wins / games × 100, in [0, 100] |
| MinesHistory.OtherGamesIgnored | src/app/api/games/mines/history/route.ts:53-58 | another user's game or an active one leaves the stats unchanged |
| MinesHistory.PageShape | src/app/api/games/mines/history/route.ts:19-30 | item i of a page is the game at position offset + i of the user's finished games ordered newest first; the page holds min(limit, total − offset) items, none when offset ≥ total |
| MinesHistory.PageKeepsUniqueIds | src/app/api/games/mines/history/route.ts:19-30 | with distinct stored ids, no game appears twice on a page |
| MinesHistory.History | src/app/api/games/mines/history/route.ts:5-96 | 400 iff no userId; else item i is the game at position offset + i of the user's finished games ordered newest first, min(limit, total − offset) items (none when offset ≥ total), no game twice, with the total count and stats |
| TransactionsRoute.Skip | src/app/api/user/transactions/route.ts:19 | (page − 1) × limit, non-negative iff page ≥ 1, 0 on page 1 |
| TransactionsRoute.TotalPages | src/app/api/user/transactions/route.ts:76 | the ceiling of totalCount / limit: the fewest pages that hold all entries; 0 iff no entries |
| TransactionsRoute.Paginate | src/app/api/user/transactions/route.ts:80-87 | hasNextPage iff page < totalPages, hasPrevPage iff page > 1; no next page when nothing matched |
| TransactionsRoute.PagesCoverResult | src/app/api/user/transactions/route.ts:19-76 | each page 1..totalPages starts inside the result; a later page starts past its end |
| TransactionsRoute.Matching | src/app/api/user/transactions/route.ts:22-36 | exactly the user's entries, narrowed by type only when given and by currency only when non-empty |
| TransactionsRoute.Transactions | src/app/api/user/transactions/route.ts:5-88 | 400 iff no wallet; 500 for page < 1; else entry i is the one at position skip + i of the lowercased wallet's matching entries ordered newest first, min(limit, total − skip) of them (none when skip ≥ total), no entry more often than it is stored, non-empty iff page ≤ totalPages |
| Sorting.SortBy | src/app/api/admin/users/route.ts:85 | the ordered result is a permutation of the input, sorted by the key |
| Sorting.Window | src/app/api/user/transactions/route.ts:45-46 | `skip`/`take`: at most `limit` elements, the ones from `offset` on |
| Sorting.WindowSubMultiset | src/app/api/user/transactions/route.ts:45-46 | a page holds each element at most as often as the input does |
| Sorting.SortByKeepsDistinctBy | src/app/api/admin/users/route.ts:85 | ordering keeps ids distinct when they were |
| Sorting.WindowOfSorted | src/app/api/games/mines/history/route.ts:26-30 | a page of a sorted result holds input elements, still sorted |
| AdminUsersRoute.AdminCheck | src/app/api/admin/users/route.ts:8-21 | 401 iff no header; 200 iff the caller's lowercased wallet is a stored admin; else 403 |
| AdminUsersRoute.Put | src/app/api/admin/users/route.ts:6-52 | the admin check's status when it fails; 400 without target or flag; 403 for the caller's own wallet; 500 for an unknown target; else only the target's isAdmin changes; no write on failure |
| AdminUsersRoute.AllUsers | src/app/api/admin/users/route.ts:76 | one row per stored user: as many rows as users, and exactly the stored records |
| AdminUsersRoute.Get | src/app/api/admin/users/route.ts:60-94 | admin check; then every user exactly once, createdAt descending |
| EventsRoute.ListedRows | src/app/api/events/route.ts:9-14 | exactly the OPEN or TRADING_CLOSED events |
| EventsRoute.ListedKeepsDistinctIds | src/app/api/events/route.ts:9-14 | the listed rows keep ids distinct |
| EventsRoute.Get | src/app/api/events/route.ts:7-23 | only OPEN / TRADING_CLOSED events, never SETTLED, each as stored and each once, eventDateTime ascending |
| EventsRoute.NewEvent | src/app/api/events/route.ts:58-77 | open, outcomes exactly "Yes" then "No", prices 0.5 / 0.5 summing to 1, shares 0 / 0 |
| EventsRoute.Post | src/app/api/events/route.ts:33-87 | 401 iff no header (admin flag never consulted); 400 iff no title or date; else 201 and a NewEvent created by the lowercased caller |
| SyncRoute.Sync | src/app/api/user/sync/route.ts:5-49 | 400 iff no wallet; a new lowercased wallet gets 1000 points, 0 crypto, isFirstLogin; an existing user keeps points and balance, isFirstLogin false; no other user changes |
| LoginRoute.Login | src/app/api/auth/login/route.ts:5-51 | 400 iff no wallet; new wallet gets 1000 points with id = wallet = lowercased input, isNewUser iff new, bonus message iff new; existing user's points unchanged |
| Constants.TableShape | src/constants/index.ts:8-15 | six sections, weights positive and summing to 100, prizes strictly rising, weights non-increasing |
| Constants.PrefixWeightMonotone | src/constants/index.ts:9-14 | with positive weights, running sums strictly grow |
| Utils.JsRem | src/lib/utils.ts:13-14 | JavaScript `%`: sign of the dividend, magnitude below the divisor |
| Utils.FormatTimeRemaining | src/lib/utils.ts:10-17 | for ms ≥ 0: hours·3600 + minutes·60 + seconds = floor(ms / 1000), minutes and seconds in [0, 60) |
| Utils.PastDeadlineParts | src/lib/utils.ts:10-17 | a negative duration gives negative parts (−1 s → −1, −1, −1) |
| Utils.WeightedIndex | src/lib/utils.ts:27-36 | for r ≤ total: the smallest index whose running weight reaches r; index 0 when r exceeds the total |
| Utils.GetWeightedRandomSection | src/lib/utils.ts:19-37 | index in range with section = SPINNER_SECTIONS[index]; smallest covering index; any scaled draw ≤ 40 picks section 0 |
| Utils.DrawStaysBelowTotal | src/lib/utils.ts:27 | a draw in [0, 1) scales to [0, 100), so the fallback is never reached |
| PromotionBanner.Tick | src/components/home/promotion-banner.tsx:27-36 | seconds down; else minutes down with seconds 59; else hours down with 59:59; 0:00:00 becomes 23:59:59 |
| PromotionBanner.TickKeepsRange | src/components/home/promotion-banner.tsx:27-36 | valid times stay valid; every tick but the reset removes exactly one second; the reset happens exactly at 0:00:00 |
| PromotionBanner.TicksCountDown | src/components/home/promotion-banner.tsx:28-33 | n ticks without passing 0:00:00 remove exactly n seconds |
| PromotionBanner.DailyCycle | src/components/home/promotion-banner.tsx:10-35 | 23:59:59 is 86399 s, and 86400 ticks return to it |
| HeroCarousel.NextSlide | src/components/home/hero-carousel.tsx:50-57 | the forward arrow and the five-second timer: keeps the index in [0, 3), advancing by one and wrapping from 2 to 0 |
| HeroCarousel.PrevSlide | src/components/home/hero-carousel.tsx:61 | keeps the index in [0, 3), stepping back by one and wrapping from 0 to 2 |
| HeroCarousel.NextPrevInverse | src/components/home/hero-carousel.tsx:57-61 | prev(next(i)) = i and next(prev(i)) = i |
| HeroCarousel.AdvanceIsRemainder | src/components/home/hero-carousel.tsx:50-57 | n forward steps from i land on (i + n) mod 3 |
| HeroCarousel.FullTurn | src/components/home/hero-carousel.tsx:9-57 | slides.length forward steps return to the start |
| BettingPanel.HandleBetChange | src/components/games/mines/betting-panel.tsx:28-31 | with minBet ≤ maxBet the bet is in [minBet, maxBet]; an in-range value passes unchanged; NaN acts as 0, so it gives minBet when minBet > 0 |
| BettingPanel.ClampIdempotent | src/components/games/mines/betting-panel.tsx:30 | clamping a clamped bet changes nothing |
| BettingPanel.HandleAutoCashOutChange | src/components/games/mines/betting-panel.tsx:33-40 | stored iff a number above 1, and then as given; NaN or ≤ 1 becomes null |
| BettingPanel.QuickBetDisabled | src/components/games/mines/betting-panel.tsx:83 | enabled iff the game is not active and the amount is within the points |
| BettingPanel.QuickBetsOnOffer | src/components/games/mines/betting-panel.tsx:42-83 | none enabled during a game or below 100 points; all enabled outside a game with 5000 points or more |
| GameControls.GetRiskLevel | src/components/games/mines/game-controls.tsx:30-35 | Low iff ≤ 5, Medium iff 6..10, High iff 11..15, Extreme iff > 15 |
| GameControls.RiskMonotone | src/components/games/mines/game-controls.tsx:30-35 | more mines never give a lower risk |
| GameControls.SafeCellsShownIsSafeBoard | src/components/games/mines/game-controls.tsx:80 | for a stored game, 25 − mines is the number of mine-free board cells |
| GameControls.StartDisabled | src/components/games/mines/game-controls.tsx:111 | start is enabled iff no game is active and none is starting |
| Header.SliceTo | src/components/layout/header.tsx:121 | `slice(0, n)`: a prefix of length min(n, length) |
| Header.SliceLast | src/components/layout/header.tsx:121 | `slice(-n)`: a suffix of length min(n, length) |
| Header.FormatAddressShape | src/components/layout/header.tsx:120-122 | the first 6 characters, then "...", then the last 4; 13 characters for any address of 10 or more |
| Header.ShouldAutoLogin | src/components/layout/header.tsx:100-104 | fires only when authenticated, a wallet is connected and no address is stored |
| OpinionsEdit.FilteredEvents | src/app/admin/opinions/edit/page.tsx:67-71 | fails iff some event has no description and a title without the term; otherwise an event is kept iff the lowercased term occurs in its lowercased title, description or status |
| OpinionsEdit.MissingDescriptionThrows | src/app/admin/opinions/edit/page.tsx:68-69 | an event without a description fails the search unless its title already matches |
| OpinionsEdit.FilteredIsSubsequence | src/app/admin/opinions/edit/page.tsx:67 | a filtered list is an order-preserving subsequence |
| OpinionsEdit.FilterAppend | src/app/admin/opinions/edit/page.tsx:67 | filtering a concatenation fails iff a part does; otherwise it is the parts filtered, in order |
| OpinionsEdit.EmptySearchKeepsAll | src/app/admin/opinions/edit/page.tsx:67-71 | an empty term never fails and keeps every event |
| OpinionsEdit.SearchIgnoresCase | src/app/admin/opinions/edit/page.tsx:68-70 | terms equal up to case filter alike, failing alike |
| OpinionsEdit.OpenAndSettledWithinTotal | src/app/admin/opinions/edit/page.tsx:263-275 | open count + settled count ≤ total |
| AdminUsersPage.FirstMatch | src/app/admin/users/page.tsx:71-72 | the first user whose wallet or id equals the untrimmed term up to case; none before it matches |
| AdminUsersPage.FindUser | src/app/admin/users/page.tsx:72 | absent iff no user matches; a found user is listed and matches |
| AdminUsersPage.FindIgnoresCase | src/app/admin/users/page.tsx:71 | terms equal up to case find the same user |
| AdminUsersPage.ManageUsersPage.HandleSearch | src/app/admin/users/page.tsx:57-82 | an all-space term leaves no user found with the "enter an address" message and `loading` untouched; else the first match, or none with 'User not found.', and loading ends |
| AdminUsersPage.ManageUsersPage.HandleUpdateRole | src/app/admin/users/page.tsx:84-128 | no request without a wallet or for one's own wallet (up to case); on success only the found user's isAdmin changes, and only when its id equals the target up to case |
| Store.CasinoStore.constructor | src/store/useStore.ts:55-64 | the initial state: not entered, no user, 0 points, balance "0.0" |
| Store.CasinoStore.CheckRecentEntry | src/store/useStore.ts:79-87 | true iff an entry time is set (non-zero) and now − entry < 180000 ms |
| Store.CasinoStore.IsAdmin | src/store/useStore.ts:214 | the user's flag; false without a user |
| Store.CasinoStore.EnterCasino | src/store/useStore.ts:69-73 | entered at now; recent for exactly the next 180000 ms |
| Store.CasinoStore.ResetEntry | src/store/useStore.ts:74-78 | no entry, so checkRecentEntry is false at any time |
| Store.CasinoStore.SetUser | src/store/useStore.ts:90-96 | user, address, points and balance all from the user, so the store is in sync and auto-login stops |
| Store.CasinoStore.SetPoints | src/store/useStore.ts:97-107 | points set, and the user's copy too when a user is present; sync preserved |
| Store.CasinoStore.SetCryptoBalance | src/store/useStore.ts:146-156 | balance set, and the user's copy too when a user is present; sync preserved |
| Store.CasinoStore.ClearUser | src/store/useStore.ts:137-142 | no user, address or points; balance and entry fields kept |
| Store.Session | src/store/useStore.ts:90-142 | sign in, set points and balance, sign out: in sync, not admin, 0 points, balance kept |
| RottenOranges.Scan | src/store/main.py:8-13 | the queue holds every rotten cell at minute 0 and nothing else; the count equals the number of fresh cells |
| RottenOranges.RotCell | src/store/main.py:24-25 | only that cell changes, from 1 to 2, and the fresh count drops by one |
| RottenOranges.RotNeighbour | src/store/main.py:22-26 | the neighbour in one direction rots and is queued a minute later iff it is a fresh in-grid cell; no other cell changes |
| RottenOranges.Spread | src/store/main.py:21-26 | exactly the fresh in-grid neighbours rot and nothing else changes; each one is queued once, a minute later, and removed from the count |
| RottenOranges.MinTimeToRottenOranges | src/store/main.py:3-28 | cells only go from 1 to 2; at the end no fresh orange is next to a rotten one, so those left can never rot; the result is −1 iff a fresh orange remains, never below −1, and 0 when none was fresh |

## Left out

- I/O and transport: Prisma, `fetch`, `NextResponse`, React state and effects, zustand `persist`, toasts and markup.  Requests are taken one at a time, so the read-then-write races between route steps are not modelled.
- The 500 answers of the routes' `catch` blocks for database or JSON failures are not modelled.  The exceptions are the two a request can cause here: an absent game id in reveal, and an update of an unknown target in the admin route.
- Database ids are `nat` and game ids are allocated by a counter; Prisma's generated string ids are not modelled.
- EventsRoute.Post: the two dates are taken as numbers (`Option<int>`, present and non-zero counting as given).  The source accepts any JSON value, usually a date string, checks only that it is truthy and converts it with `new Date(...)`.  Date parsing and invalid dates are not modelled.
- Schema defaults are assumed where the routes do not write a field: `cryptoBalance` 0, `isAdmin` false, event status OPEN.
- MinesReveal.CalculateMultiplier: only the zero case is modelled.  The floating-point formula with `toFixed(4)` is the `curve` parameter.
- MinesReveal.Reveal: the 500 for a stored game whose bet is null is not modelled, because bets are always integers here.  The game-has-no-user 404 cannot happen, because every stored game's owner is stored.
- PointsRoute.Put: `points` values that are not integers (strings, fractions, booleans) are not modelled.
- MinesStart.Start: `minesCount: null` is not distinguished from a missing count.
- MinesStart.GenerateMinePositions: `Math.random` becomes a choice among the cells not drawn yet.  A draw that hits a cell already in the set changes nothing, so such draws are not modelled.
- MinesHistory.History: `limit` and `offset` are taken as already-parsed naturals.  `parseInt` NaN and negative `take` values are not modelled.
- TransactionsRoute.Transactions: requires a limit of at least 1.  A limit of 0 or below (division by zero, negative `take`) and `parseInt` NaN are not modelled.  The related trade, event title and outcome name joined into each entry are not modelled.
- Utils.WeightedIndex: requires a non-empty table with positive weights, which the one table it is used with has (`Constants.TableShape`).
- Reals stand in for JavaScript numbers: no rounding and no NaN, except where NaN is a parse result (`None`).
- Store: `updatePoints` and `updateCryptoBalance` are network actions and are not modelled.  `setHasEnteredCasino`, `setIsLoading` and `setShouldPlayMusic` are modelled as plain setters.
- AdminUsersPage.ManageUsersPage.HandleUpdateRole: the refresh of the user list after a successful update (`fetchAllUsers`) is a network read and is not modelled.  The server's answer is a parameter.
- RottenOranges.MinTimeToRottenOranges: states safety and the −1 / 0 cases, not that the answer is the minimum number of minutes.  Reading the grid from standard input and printing the answer are not modelled.
- Text.Lower: lowers ASCII letters only.  Wallet addresses are hexadecimal, so this matches `toLowerCase` on them; the event search does not lower non-ASCII letters in titles, descriptions or terms.

## Findings

| source | as written | input that shows it | evidently intended | confidence | as-written member | corrected member |
|---|---|---|---|---|---|---|
| src/app/api/games/mines/start/route.ts:6-58 | `minesCount` from the request is passed to `generateMinePositions` unchecked; the loop adds cells until the set reaches `count` | `minesCount: 26` (anything above 25): the set of board cells can never reach 26, so the request never completes | reject mine counts outside 0..25 with 400 before drawing | not executed | MinesStart.PositionsNeverReachCount | MinesStart.Start |
| src/app/api/games/mines/reveal/route.ts:56-100 | any `cellIndex` that is neither revealed nor a mine counts as a safe cell | 24 mines on cells 0..23, reveal `cellIndex: 99`: the safe count reaches 25 − 24 and the game is won while cell 24 is still covered | reject indices outside 0..24; a game is won only when every safe board cell is uncovered | not executed | MinesReveal.OutOfGridRevealWins | MinesReveal.WinIffBoardCleared |
| src/app/api/games/mines/start/route.ts:6-58 | a negative `minesCount` passes: the loop stops at once and the game is stored with no mines | `minesCount: -1`: the game starts with no mines, the safe count needs 26 cells, and no reveal on the board can win it | reject negative mine counts with 400 | not executed | MinesReveal.NegativeMinesNeverWin | MinesStart.Start |
