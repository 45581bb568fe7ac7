/**
 * The client's persisted store: casino entry, the signed-in user and the
 * copies of the user's points, address and balance kept beside it.  The
 * setters keep those copies equal to the user's own fields whenever a user
 * is present.  The clock reading the source takes with `Date.now()` is a
 * parameter.
 */
module Store {
  import opened Wrappers
  import Header

  /** The user record the store holds; `cryptoBalance` is a decimal string. */
  datatype User = User(id: string, walletAddress: string, points: int, cryptoBalance: string, isAdmin: bool)

  /** An entry counts as recent for three minutes. */
  const RECENT_ENTRY_MS: int := 3 * 60 * 1000

  class CasinoStore {
    var hasEnteredCasino: bool
    var lastEntryTime: Option<int>
    var isLoading: bool
    var user: Option<User>
    var walletAddress: Option<string>
    var points: int
    var cryptoBalance: string
    var shouldPlayMusic: bool

    /** While a user is present, the top-level copies agree with it. */
    predicate Synced()
      reads this
    {
      user.Some? ==>
        && walletAddress == Some(user.value.walletAddress)
        && points == user.value.points
        && cryptoBalance == user.value.cryptoBalance
    }

    /** The store's initial state. */
    constructor ()
      ensures Synced()
      ensures !hasEnteredCasino && lastEntryTime.None? && isLoading
      ensures user.None? && walletAddress.None? && points == 0 && cryptoBalance == "0.0"
      ensures !shouldPlayMusic
    {
      hasEnteredCasino, lastEntryTime, isLoading := false, None, true;
      user, walletAddress, points, cryptoBalance := None, None, 0, "0.0";
      shouldPlayMusic := false;
    }

    /** `checkRecentEntry`: an entry time is set (and not 0) and lies less than three minutes before `now`. */
    function CheckRecentEntry(now: int): (recent: bool)
      reads this
      ensures recent ==> lastEntryTime.Some? && now - lastEntryTime.value < RECENT_ENTRY_MS
      ensures lastEntryTime.None? ==> !recent
      ensures lastEntryTime.Some? && lastEntryTime.value != 0 ==>
        (recent <==> now - lastEntryTime.value < 180000)
    {
      if lastEntryTime.None? || lastEntryTime.value == 0 then false
      else now - lastEntryTime.value < RECENT_ENTRY_MS
    }

    /** The derived `isAdmin`: the user's flag, false without a user. */
    function IsAdmin(): (admin: bool)
      reads this
      ensures user.None? ==> !admin
      ensures admin <==> user.Some? && user.value.isAdmin
    {
      match user
      case Some(u) => u.isAdmin
      case None => false
    }

    method SetHasEnteredCasino(value: bool)
      modifies this
      ensures hasEnteredCasino == value
      ensures lastEntryTime == old(lastEntryTime) && isLoading == old(isLoading) && shouldPlayMusic == old(shouldPlayMusic)
      ensures user == old(user) && walletAddress == old(walletAddress) && points == old(points)
      ensures cryptoBalance == old(cryptoBalance)
    {
      hasEnteredCasino := value;
    }

    method SetIsLoading(value: bool)
      modifies this
      ensures isLoading == value
      ensures hasEnteredCasino == old(hasEnteredCasino) && lastEntryTime == old(lastEntryTime)
      ensures shouldPlayMusic == old(shouldPlayMusic)
      ensures user == old(user) && walletAddress == old(walletAddress) && points == old(points)
      ensures cryptoBalance == old(cryptoBalance)
    {
      isLoading := value;
    }

    method SetShouldPlayMusic(value: bool)
      modifies this
      ensures shouldPlayMusic == value
      ensures hasEnteredCasino == old(hasEnteredCasino) && lastEntryTime == old(lastEntryTime)
      ensures isLoading == old(isLoading)
      ensures user == old(user) && walletAddress == old(walletAddress) && points == old(points)
      ensures cryptoBalance == old(cryptoBalance)
    {
      shouldPlayMusic := value;
    }

    /** `enterCasino`: entered, at `now`; the entry is recent for the next three minutes. */
    method EnterCasino(now: int)
      modifies this
      ensures hasEnteredCasino && lastEntryTime == Some(now)
      ensures isLoading == old(isLoading) && shouldPlayMusic == old(shouldPlayMusic)
      ensures user == old(user) && walletAddress == old(walletAddress) && points == old(points)
      ensures cryptoBalance == old(cryptoBalance)
      ensures now != 0 ==> forall later :: CheckRecentEntry(later) <==> later - now < RECENT_ENTRY_MS
    {
      hasEnteredCasino, lastEntryTime := true, Some(now);
    }

    /** `resetEntry`: not entered and no entry time, so no entry is recent. */
    method ResetEntry()
      modifies this
      ensures !hasEnteredCasino && lastEntryTime.None?
      ensures isLoading == old(isLoading) && shouldPlayMusic == old(shouldPlayMusic)
      ensures user == old(user) && walletAddress == old(walletAddress) && points == old(points)
      ensures cryptoBalance == old(cryptoBalance)
      ensures forall now :: !CheckRecentEntry(now)
    {
      hasEnteredCasino, lastEntryTime := false, None;
    }

    /**
     * `setUser`: the user and its address, points and balance.  Once an
     * address is stored the header no longer logs in by itself.
     */
    method SetUser(u: User)
      modifies this
      ensures Synced()
      ensures user == Some(u) && walletAddress == Some(u.walletAddress)
      ensures points == u.points && cryptoBalance == u.cryptoBalance
      ensures IsAdmin() == u.isAdmin
      ensures hasEnteredCasino == old(hasEnteredCasino) && lastEntryTime == old(lastEntryTime)
      ensures isLoading == old(isLoading) && shouldPlayMusic == old(shouldPlayMusic)
      ensures u.walletAddress != "" ==>
        forall authenticated, current :: !Header.ShouldAutoLogin(authenticated, current, walletAddress)
    {
      user, walletAddress, points, cryptoBalance := Some(u), Some(u.walletAddress), u.points, u.cryptoBalance;
    }

    /** `setPoints`: the points, and the user's own copy when a user is present. */
    method SetPoints(p: int)
      modifies this
      requires Synced()
      ensures Synced()
      ensures points == p
      ensures user == if old(user).Some? then Some(old(user).value.(points := p)) else None
      ensures walletAddress == old(walletAddress) && cryptoBalance == old(cryptoBalance)
      ensures hasEnteredCasino == old(hasEnteredCasino) && lastEntryTime == old(lastEntryTime)
      ensures isLoading == old(isLoading) && shouldPlayMusic == old(shouldPlayMusic)
    {
      if user.Some? {
        points, user := p, Some(user.value.(points := p));
      } else {
        points := p;
      }
    }

    /** `setCryptoBalance`: the balance, and the user's own copy when a user is present. */
    method SetCryptoBalance(balance: string)
      modifies this
      requires Synced()
      ensures Synced()
      ensures cryptoBalance == balance
      ensures user == if old(user).Some? then Some(old(user).value.(cryptoBalance := balance)) else None
      ensures walletAddress == old(walletAddress) && points == old(points)
      ensures hasEnteredCasino == old(hasEnteredCasino) && lastEntryTime == old(lastEntryTime)
      ensures isLoading == old(isLoading) && shouldPlayMusic == old(shouldPlayMusic)
    {
      if user.Some? {
        cryptoBalance, user := balance, Some(user.value.(cryptoBalance := balance));
      } else {
        cryptoBalance := balance;
      }
    }

    /**
     * `clearUser`: no user, no address and no points; the balance and the
     * entry fields stay as they were.
     */
    method ClearUser()
      modifies this
      ensures Synced()
      ensures user.None? && walletAddress.None? && points == 0 && !IsAdmin()
      ensures cryptoBalance == old(cryptoBalance)
      ensures hasEnteredCasino == old(hasEnteredCasino) && lastEntryTime == old(lastEntryTime)
      ensures isLoading == old(isLoading) && shouldPlayMusic == old(shouldPlayMusic)
    {
      user, walletAddress, points := None, None, 0;
    }
  }

  /**
   * A session of setter calls: after signing in, changing points and
   * balance and signing out, the store's copies have stayed in step and
   * nobody is an admin any longer.
   */
  method Session(u: User, p: int, balance: string) returns (store: CasinoStore)
    ensures store.Synced() && !store.IsAdmin() && store.points == 0 && store.cryptoBalance == balance
  {
    store := new CasinoStore();
    store.SetUser(u);
    store.SetPoints(p);
    assert store.user.value.points == p;
    store.SetCryptoBalance(balance);
    store.ClearUser();
  }
}
