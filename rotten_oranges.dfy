/**
 * `minTimeToRottenOranges`: a grid of empty cells (0), fresh oranges (1)
 * and rotten oranges (2); each minute every rotten orange rots its fresh
 * neighbours above, below, left and right.  A breadth-first search from
 * all rotten oranges at once marks the grid in place and answers the
 * minutes the last orange took to rot, or -1 when some orange never rots.
 */
module RottenOranges {

  type Cell = (int, int)

  /** A queue entry: a rotten cell and the minute it rotted. */
  type Entry = (int, int, int)

  /** Up, down, left and right. */
  const DIRS: seq<Cell> := [(-1, 0), (1, 0), (0, -1), (0, 1)]

  /** The cells of the grid that hold a fresh orange. */
  ghost function FreshCells(grid: array2<int>): set<Cell>
    reads grid
  {
    set i, j | 0 <= i < grid.Length0 && 0 <= j < grid.Length1 && grid[i, j] == 1 :: (i, j)
  }

  /** The fresh cells that come before row `r`, column `c` in row-major order. */
  ghost function FreshBefore(grid: array2<int>, r: int, c: int): set<Cell>
    reads grid
  {
    set i, j | 0 <= i < grid.Length0 && 0 <= j < grid.Length1 && grid[i, j] == 1
                 && (i < r || (i == r && j < c)) :: (i, j)
  }

  /** Every cell either kept its value or went from fresh to rotten. */
  twostate predicate OnlyRots(grid: array2<int>)
    reads grid
  {
    forall i, j :: 0 <= i < grid.Length0 && 0 <= j < grid.Length1 ==>
      grid[i, j] == old(grid[i, j]) || (old(grid[i, j]) == 1 && grid[i, j] == 2)
  }

  /** Moving to the next column adds the cell just passed when it is fresh. */
  lemma ScanStep(grid: array2<int>, i: int, j: int)
    requires 0 <= i < grid.Length0 && 0 <= j < grid.Length1
    ensures |FreshBefore(grid, i, j + 1)| == |FreshBefore(grid, i, j)| + (if grid[i, j] == 1 then 1 else 0)
  {
    var before := FreshBefore(grid, i, j);
    assert (i, j) !in before;
    if grid[i, j] == 1 {
      assert FreshBefore(grid, i, j + 1) == before + {(i, j)};
    } else {
      assert FreshBefore(grid, i, j + 1) == before;
    }
  }

  /** The end of a row is the start of the next one. */
  lemma RowEnd(grid: array2<int>, i: int)
    ensures |FreshBefore(grid, i + 1, 0)| == |FreshBefore(grid, i, grid.Length1)|
  {
    assert FreshBefore(grid, i + 1, 0) == FreshBefore(grid, i, grid.Length1);
  }

  /** Past the last row, every fresh cell has been passed. */
  lemma AllRows(grid: array2<int>)
    ensures |FreshBefore(grid, grid.Length0, 0)| == |FreshCells(grid)|
  {
    assert FreshBefore(grid, grid.Length0, 0) == FreshCells(grid);
  }

  /**
   * The first pass: every rotten cell enters the queue at minute 0, and the
   * fresh oranges are counted.  The queue holds the rotten cells and
   * nothing else.
   */
  method Scan(grid: array2<int>) returns (q: seq<Entry>, countNew: int)
    ensures countNew == |FreshCells(grid)|
    ensures forall k :: 0 <= k < |q| ==> q[k].2 == 0
    ensures forall k :: 0 <= k < |q| ==>
      0 <= q[k].0 < grid.Length0 && 0 <= q[k].1 < grid.Length1 && grid[q[k].0, q[k].1] == 2
    ensures forall i, j :: 0 <= i < grid.Length0 && 0 <= j < grid.Length1 && grid[i, j] == 2 ==>
      (i, j, 0) in q
  {
    q, countNew := [], 0;
    for i := 0 to grid.Length0
      invariant countNew == |FreshBefore(grid, i, 0)|
      invariant forall k :: 0 <= k < |q| ==> q[k].2 == 0
      invariant forall k :: 0 <= k < |q| ==>
        0 <= q[k].0 < grid.Length0 && 0 <= q[k].1 < grid.Length1 && grid[q[k].0, q[k].1] == 2
      invariant forall a, b :: 0 <= a < i && 0 <= b < grid.Length1 && grid[a, b] == 2 ==> (a, b, 0) in q
    {
      for j := 0 to grid.Length1
        invariant countNew == |FreshBefore(grid, i, j)|
        invariant forall k :: 0 <= k < |q| ==> q[k].2 == 0
        invariant forall k :: 0 <= k < |q| ==>
          0 <= q[k].0 < grid.Length0 && 0 <= q[k].1 < grid.Length1 && grid[q[k].0, q[k].1] == 2
        invariant forall a, b :: 0 <= a < i && 0 <= b < grid.Length1 && grid[a, b] == 2 ==> (a, b, 0) in q
        invariant forall b :: 0 <= b < j && grid[i, b] == 2 ==> (i, b, 0) in q
      {
        ScanStep(grid, i, j);
        if grid[i, j] == 2 {
          q := q + [(i, j, 0)];
        } else if grid[i, j] == 1 {
          countNew := countNew + 1;
        }
      }
      RowEnd(grid, i);
    }
    AllRows(grid);
  }

  /** `grid[nx][ny] = 2` on a fresh cell: that cell, and only it, stops being fresh. */
  method RotCell(grid: array2<int>, nx: int, ny: int)
    requires 0 <= nx < grid.Length0 && 0 <= ny < grid.Length1 && grid[nx, ny] == 1
    modifies grid
    ensures grid[nx, ny] == 2
    ensures forall i, j :: 0 <= i < grid.Length0 && 0 <= j < grid.Length1 && (i, j) != (nx, ny) ==>
      grid[i, j] == old(grid[i, j])
    ensures FreshCells(grid) == old(FreshCells(grid)) - {(nx, ny)}
    ensures |FreshCells(grid)| == |old(FreshCells(grid))| - 1
  {
    ghost var before := FreshCells(grid);
    assert (nx, ny) in before;
    grid[nx, ny] := 2;
    assert FreshCells(grid) == before - {(nx, ny)};
  }

  /** `(i, j)` is the cell above, below, left or right of `(x, y)`. */
  predicate Adjacent(i: int, j: int, x: int, y: int) {
    || (i == x - 1 && j == y)
    || (i == x + 1 && j == y)
    || (i == x && j == y - 1)
    || (i == x && j == y + 1)
  }

  /** Each of the four directions leads to an adjacent cell. */
  lemma StepIsAdjacent(x: int, y: int, d: int)
    requires 0 <= d < |DIRS|
    ensures Adjacent(x + DIRS[d].0, y + DIRS[d].1, x, y)
  {
  }

  /** Some entry of `q` from index `from` on is the cell `(a, b)`. */
  ghost predicate QueuedFrom(q: seq<Entry>, from: nat, a: int, b: int) {
    exists k :: from <= k < |q| && q[k].0 == a && q[k].1 == b
  }

  /** No fresh orange is left next to the cell `(a, b)`. */
  ghost predicate Settled(grid: array2<int>, a: int, b: int)
    reads grid
  {
    forall i, j :: 0 <= i < grid.Length0 && 0 <= j < grid.Length1 && Adjacent(i, j, a, b) ==> grid[i, j] != 1
  }

  /**
   * One turn of the loop over the directions: the neighbour that way rots
   * and is queued a minute later when it is a fresh orange on the board;
   * otherwise nothing changes.
   */
  method RotNeighbour(grid: array2<int>, x: int, y: int, d: int, t: int, q0: seq<Entry>, count0: int)
    returns (q: seq<Entry>, countNew: int)
    requires 0 <= d < |DIRS|
    requires count0 == |FreshCells(grid)|
    modifies grid
    ensures countNew == |FreshCells(grid)|
    ensures FreshCells(grid) <= old(FreshCells(grid))
    ensures var (nx, ny) := (x + DIRS[d].0, y + DIRS[d].1);
      if 0 <= nx < grid.Length0 && 0 <= ny < grid.Length1 && old(grid[nx, ny]) == 1 then
        && q == q0 + [(nx, ny, t + 1)] && countNew == count0 - 1 && grid[nx, ny] == 2
        && forall i, j :: 0 <= i < grid.Length0 && 0 <= j < grid.Length1 && (i, j) != (nx, ny) ==>
             grid[i, j] == old(grid[i, j])
      else
        && q == q0 && countNew == count0
        && forall i, j :: 0 <= i < grid.Length0 && 0 <= j < grid.Length1 ==> grid[i, j] == old(grid[i, j])
  {
    var (dx, dy) := DIRS[d];
    var nx, ny := x + dx, y + dy;
    q, countNew := q0, count0;
    if 0 <= nx < grid.Length0 && 0 <= ny < grid.Length1 && grid[nx, ny] == 1 {
      RotCell(grid, nx, ny);
      countNew := countNew - 1;
      q := q + [(nx, ny, t + 1)];
    }
  }

  /**
   * One dequeued cell rots its fresh neighbours, each entering the queue
   * one minute later; every rotted cell costs one fresh orange.
   */
  method Spread(grid: array2<int>, x: int, y: int, t: int, q0: seq<Entry>, count0: int)
    returns (q: seq<Entry>, countNew: int)
    requires count0 == |FreshCells(grid)|
    modifies grid
    ensures OnlyRots(grid)
    ensures countNew == |FreshCells(grid)|
    ensures |q| - |q0| == count0 - countNew
    ensures |q| >= |q0| && q[..|q0|] == q0
    ensures forall k :: |q0| <= k < |q| ==> q[k].2 == t + 1
    ensures FreshCells(grid) <= old(FreshCells(grid))
    ensures forall k :: |q0| <= k < |q| ==>
      && 0 <= q[k].0 < grid.Length0 && 0 <= q[k].1 < grid.Length1
      && Adjacent(q[k].0, q[k].1, x, y)
      && old(grid[q[k].0, q[k].1]) == 1 && grid[q[k].0, q[k].1] == 2
    ensures forall k, l :: |q0| <= k < l < |q| ==> (q[k].0, q[k].1) != (q[l].0, q[l].1)
    ensures forall i, j :: 0 <= i < grid.Length0 && 0 <= j < grid.Length1 && grid[i, j] != old(grid[i, j]) ==>
      Adjacent(i, j, x, y)
    ensures forall i, j :: 0 <= i < grid.Length0 && 0 <= j < grid.Length1 && Adjacent(i, j, x, y) && old(grid[i, j]) == 1 ==>
      grid[i, j] == 2
    ensures forall i, j :: 0 <= i < grid.Length0 && 0 <= j < grid.Length1 && old(grid[i, j]) == 1 && grid[i, j] == 2 ==>
      QueuedFrom(q, |q0|, i, j)
  {
    q, countNew := q0, count0;
    ghost var added: seq<Cell> := [];
    for d := 0 to |DIRS|
      invariant countNew == |FreshCells(grid)|
      invariant |q| == |q0| + |added| && |added| == count0 - countNew
      invariant q[..|q0|] == q0
      invariant forall k :: 0 <= k < |added| ==> q[|q0| + k] == (added[k].0, added[k].1, t + 1)
      invariant forall k :: 0 <= k < |added| ==>
        && 0 <= added[k].0 < grid.Length0 && 0 <= added[k].1 < grid.Length1
        && Adjacent(added[k].0, added[k].1, x, y) && old(grid[added[k].0, added[k].1]) == 1
      invariant forall k, l :: 0 <= k < l < |added| ==> added[k] != added[l]
      invariant forall i, j :: 0 <= i < grid.Length0 && 0 <= j < grid.Length1 ==>
        grid[i, j] == (if (i, j) in added then 2 else old(grid[i, j]))
      invariant forall e :: 0 <= e < d ==>
        (0 <= x + DIRS[e].0 < grid.Length0 && 0 <= y + DIRS[e].1 < grid.Length1
         && old(grid[x + DIRS[e].0, y + DIRS[e].1]) == 1) ==> (x + DIRS[e].0, y + DIRS[e].1) in added
    {
      StepIsAdjacent(x, y, d);
      ghost var before := q;
      q, countNew := RotNeighbour(grid, x, y, d, t, q, countNew);
      if |q| > |before| {
        added := added + [(x + DIRS[d].0, y + DIRS[d].1)];
      }
    }
    forall k | |q0| <= k < |q|
      ensures q[k] == (added[k - |q0|].0, added[k - |q0|].1, t + 1)
    {
    }
    forall i, j | 0 <= i < grid.Length0 && 0 <= j < grid.Length1 && (i, j) in added
      ensures QueuedFrom(q, |q0|, i, j) && Adjacent(i, j, x, y) && old(grid[i, j]) == 1
    {
      var k :| 0 <= k < |added| && added[k] == (i, j);
      assert q[|q0| + k] == (i, j, t + 1);
    }
    assert FreshCells(grid) <= old(FreshCells(grid)) by {
      forall c | c in FreshCells(grid) ensures c in old(FreshCells(grid)) {
        assert grid[c.0, c.1] == 1;
      }
    }
    forall i, j | 0 <= i < grid.Length0 && 0 <= j < grid.Length1 && Adjacent(i, j, x, y) && old(grid[i, j]) == 1
      ensures grid[i, j] == 2
    {
      var e := if i == x - 1 then 0 else if i == x + 1 then 1 else if j == y - 1 then 2 else 3;
      assert (i, j) == (x + DIRS[e].0, y + DIRS[e].1);
    }
  }

  /**
   * The search.  It rots only fresh oranges and runs until no fresh orange
   * is left next to a rotten one, so the oranges still fresh can never rot;
   * the answer is -1 exactly when such an orange is left, never below -1,
   * and 0 when there was no fresh orange to begin with.
   */
  method MinTimeToRottenOranges(grid: array2<int>) returns (result: int)
    modifies grid
    ensures OnlyRots(grid)
    ensures result == -1 <==> FreshCells(grid) != {}
    ensures result >= -1
    ensures old(FreshCells(grid)) == {} ==> result == 0
    ensures forall i, j, a, b ::
      && 0 <= i < grid.Length0 && 0 <= j < grid.Length1 && 0 <= a < grid.Length0 && 0 <= b < grid.Length1
      && grid[a, b] == 2 && Adjacent(i, j, a, b)
      ==> grid[i, j] != 1
  {
    var q, countNew := Scan(grid);
    forall a, b | 0 <= a < grid.Length0 && 0 <= b < grid.Length1 && grid[a, b] == 2
      ensures QueuedFrom(q, 0, a, b)
    {
      var k :| 0 <= k < |q| && q[k] == (a, b, 0);
    }
    var maxiT := 0;
    while q != []
      invariant countNew == |FreshCells(grid)|
      invariant maxiT >= 0
      invariant OnlyRots(grid)
      invariant FreshCells(grid) <= old(FreshCells(grid))
      invariant old(FreshCells(grid)) == {} ==> maxiT == 0 && forall k :: 0 <= k < |q| ==> q[k].2 == 0
      invariant forall a, b :: 0 <= a < grid.Length0 && 0 <= b < grid.Length1 && grid[a, b] == 2 ==>
        QueuedFrom(q, 0, a, b) || Settled(grid, a, b)
      decreases |FreshCells(grid)|, |q|
    {
      var (x, y, t) := q[0];
      ghost var waiting := q;
      q := q[1..];
      maxiT := if maxiT < t then t else maxiT;
      ghost var rest := q;
      label Dequeued:
      q, countNew := Spread(grid, x, y, t, q, countNew);
      forall a, b | 0 <= a < grid.Length0 && 0 <= b < grid.Length1 && grid[a, b] == 2
        ensures QueuedFrom(q, 0, a, b) || Settled(grid, a, b)
      {
        if old@Dequeued(grid[a, b]) == 1 {
          var k :| |rest| <= k < |q| && q[k].0 == a && q[k].1 == b;
        } else if (a, b) == (x, y) {
          forall i, j | 0 <= i < grid.Length0 && 0 <= j < grid.Length1 && Adjacent(i, j, a, b)
            ensures grid[i, j] != 1
          {
          }
        } else if old@Dequeued(Settled(grid, a, b)) {
          forall i, j | 0 <= i < grid.Length0 && 0 <= j < grid.Length1 && Adjacent(i, j, a, b)
            ensures grid[i, j] != 1
          {
          }
        } else {
          var k :| 0 <= k < |waiting| && waiting[k].0 == a && waiting[k].1 == b;
          assert k != 0;
          assert q[k - 1] == rest[k - 1] == waiting[k];
        }
      }
    }
    result := if countNew == 0 then maxiT else -1;
  }
}
