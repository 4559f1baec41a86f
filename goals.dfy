/** Goal placements: `GameState::generate_goal_states` enumerates every run
    of N consecutive cells along a row or a column, each followed by its
    reverse; `calculate_possible_positions` counts the wall-free ones.
    The functions here follow the loops' scan order so that the methods in
    `GameStates` can be proved equal to them. */
module Goals {
  import opened Seqs
  import opened Grid

  /** `x` clamped at zero: how many times `for (i = 0; i < x; ++i)` runs. */
  function Count(x: int): nat {
    if x < 0 then 0 else x
  }

  /** How many start cells `for (s = 0; s <= len - n; ++s)` visits. */
  function Starts(len: int, n: nat): nat {
    Count(len - n + 1)
  }

  /** The `n` cells of row `row` starting at column `col`, left to right. */
  function HRun(row: int, col: int, n: nat): (r: seq<Position>)
    ensures |r| == n
    ensures forall i :: 0 <= i < n ==> r[i] == Position(row, col + i)
  {
    if n == 0 then [] else HRun(row, col, n - 1) + [Position(row, col + n - 1)]
  }

  /** The `n` cells of column `col` starting at row `row`, top to bottom. */
  function VRun(row: int, col: int, n: nat): (r: seq<Position>)
    ensures |r| == n
    ensures forall i :: 0 <= i < n ==> r[i] == Position(row + i, col)
  {
    if n == 0 then [] else VRun(row, col, n - 1) + [Position(row + n - 1, col)]
  }

  /** The horizontal placements of row `row` for the first `starts` start columns. */
  function RowGoals(row: int, n: nat, starts: nat): seq<seq<Position>> {
    if starts == 0 then []
    else RowGoals(row, n, starts - 1) + [HRun(row, starts - 1, n), Reverse(HRun(row, starts - 1, n))]
  }

  /** The horizontal placements of the first `rowCount` rows. */
  function HorizontalGoals(rowCount: nat, cols: int, n: nat): seq<seq<Position>> {
    if rowCount == 0 then []
    else HorizontalGoals(rowCount - 1, cols, n) + RowGoals(rowCount - 1, n, Starts(cols, n))
  }

  /** The vertical placements of column `col` for the first `starts` start rows. */
  function ColGoals(col: int, n: nat, starts: nat): seq<seq<Position>> {
    if starts == 0 then []
    else ColGoals(col, n, starts - 1) + [VRun(starts - 1, col, n), Reverse(VRun(starts - 1, col, n))]
  }

  /** The vertical placements of the first `colCount` columns. */
  function VerticalGoals(colCount: nat, rows: int, n: nat): seq<seq<Position>> {
    if colCount == 0 then []
    else VerticalGoals(colCount - 1, rows, n) + ColGoals(colCount - 1, n, Starts(rows, n))
  }

  /** What `generate_goal_states` returns for a grid of `rows` x `cols` and
      `n` words: every placement has `n` cells, all inside the grid. The wall
      list is not an argument: walls are never consulted. */
  function GoalPlacements(rows: int, cols: int, n: nat): (r: seq<seq<Position>>)
    ensures forall k :: 0 <= k < |r| ==>
              && |r[k]| == n
              && forall i :: 0 <= i < n ==> !IsOutOfBounds(Position(rows, cols), r[k][i])
  {
    var g := HorizontalGoals(Count(rows), cols, n) + VerticalGoals(Count(cols), rows, n);
    ScanShape(rows, cols, n, g);
    g
  }

  // ---------------------------------------------------------------------
  // How many placements there are

  lemma {:induction false} RowGoalsCount(row: int, n: nat, starts: nat)
    ensures |RowGoals(row, n, starts)| == 2 * starts
  {
    if starts > 0 {
      RowGoalsCount(row, n, starts - 1);
    }
  }

  lemma MulSucc(a: nat, b: nat)
    ensures 2 * ((a + 1) * b) == 2 * (a * b) + 2 * b
  {
  }

  lemma {:induction false} HorizontalGoalsCount(rowCount: nat, cols: int, n: nat)
    ensures |HorizontalGoals(rowCount, cols, n)| == 2 * (rowCount * Starts(cols, n))
  {
    if rowCount > 0 {
      var s := Starts(cols, n);
      HorizontalGoalsCount(rowCount - 1, cols, n);
      RowGoalsCount(rowCount - 1, n, s);
      MulSucc(rowCount - 1, s);
    }
  }

  lemma {:induction false} ColGoalsCount(col: int, n: nat, starts: nat)
    ensures |ColGoals(col, n, starts)| == 2 * starts
  {
    if starts > 0 {
      ColGoalsCount(col, n, starts - 1);
    }
  }

  lemma {:induction false} VerticalGoalsCount(colCount: nat, rows: int, n: nat)
    ensures |VerticalGoals(colCount, rows, n)| == 2 * (colCount * Starts(rows, n))
  {
    if colCount > 0 {
      var s := Starts(rows, n);
      VerticalGoalsCount(colCount - 1, rows, n);
      ColGoalsCount(colCount - 1, n, s);
      MulSucc(colCount - 1, s);
    }
  }

  /** The number of goal placements: two per horizontal run and two per
      vertical run of `n` cells, whatever the walls. */
  lemma GoalCount(rows: int, cols: int, n: nat)
    ensures |GoalPlacements(rows, cols, n)|
            == 2 * (Count(rows) * Starts(cols, n) + Count(cols) * Starts(rows, n))
  {
    var h := HorizontalGoals(Count(rows), cols, n);
    var v := VerticalGoals(Count(cols), rows, n);
    HorizontalGoalsCount(Count(rows), cols, n);
    VerticalGoalsCount(Count(cols), rows, n);
    assert |h + v| == |h| + |v|;
  }

  /** The usual case: with 1 <= n <= rows and n <= cols there are
      2 * (rows * (cols - n + 1) + cols * (rows - n + 1)) placements. */
  lemma GoalCountFitting(rows: int, cols: int, n: nat)
    requires 1 <= n <= rows && n <= cols
    ensures |GoalPlacements(rows, cols, n)| == 2 * (rows * (cols - n + 1) + cols * (rows - n + 1))
  {
    GoalCount(rows, cols, n);
  }

  /** Two words on a 4 x 4 grid: 4 rows of 3 runs and 4 columns of 3 runs,
      each in both orders. */
  lemma GoalCountFourByFourTwoWords()
    ensures |GoalPlacements(4, 4, 2)| == 48
  {
    GoalCount(4, 4, 2);
  }

  // ---------------------------------------------------------------------
  // Each odd-indexed placement mirrors the one before it

  /** Placements come in pairs: a run and then the same run reversed. */
  ghost predicate Paired(g: seq<seq<Position>>) {
    |g| % 2 == 0 && forall k :: 0 <= k < |g| && k % 2 == 1 ==> g[k] == Reverse(g[k - 1])
  }

  lemma PairedAppend(g: seq<seq<Position>>, run: seq<Position>)
    requires Paired(g)
    ensures Paired(g + [run, Reverse(run)])
  {
    var h := g + [run, Reverse(run)];
    forall k | 0 <= k < |h| && k % 2 == 1 ensures h[k] == Reverse(h[k - 1]) {
      if k < |g| {
        assert h[k] == g[k] && h[k - 1] == g[k - 1];
      }
    }
  }

  lemma OddAfterEven(k: int, m: int)
    requires m % 2 == 0 && k % 2 == 1
    ensures (k - m) % 2 == 1
  {
    assert k - m == 2 * (k / 2 - m / 2) + 1;
  }

  lemma {:induction false} PairedConcat(a: seq<seq<Position>>, b: seq<seq<Position>>)
    requires Paired(a) && Paired(b)
    ensures Paired(a + b)
  {
    var h := a + b;
    forall k | 0 <= k < |h| && k % 2 == 1 ensures h[k] == Reverse(h[k - 1]) {
      if k < |a| {
        assert h[k] == a[k] && h[k - 1] == a[k - 1];
      } else {
        var j := k - |a|;
        OddAfterEven(k, |a|);
        assert h[k] == b[j] && h[k - 1] == b[j - 1];
      }
    }
    assert |h| % 2 == 0 by {
      assert |h| == |a| + |b|;
    }
  }

  lemma {:induction false} RowGoalsPaired(row: int, n: nat, starts: nat)
    ensures Paired(RowGoals(row, n, starts))
  {
    if starts > 0 {
      RowGoalsPaired(row, n, starts - 1);
      PairedAppend(RowGoals(row, n, starts - 1), HRun(row, starts - 1, n));
    }
  }

  lemma {:induction false} HorizontalGoalsPaired(rowCount: nat, cols: int, n: nat)
    ensures Paired(HorizontalGoals(rowCount, cols, n))
  {
    if rowCount > 0 {
      HorizontalGoalsPaired(rowCount - 1, cols, n);
      RowGoalsPaired(rowCount - 1, n, Starts(cols, n));
      PairedConcat(HorizontalGoals(rowCount - 1, cols, n), RowGoals(rowCount - 1, n, Starts(cols, n)));
    }
  }

  lemma {:induction false} ColGoalsPaired(col: int, n: nat, starts: nat)
    ensures Paired(ColGoals(col, n, starts))
  {
    if starts > 0 {
      ColGoalsPaired(col, n, starts - 1);
      PairedAppend(ColGoals(col, n, starts - 1), VRun(starts - 1, col, n));
    }
  }

  lemma {:induction false} VerticalGoalsPaired(colCount: nat, rows: int, n: nat)
    ensures Paired(VerticalGoals(colCount, rows, n))
  {
    if colCount > 0 {
      VerticalGoalsPaired(colCount - 1, rows, n);
      ColGoalsPaired(colCount - 1, n, Starts(rows, n));
      PairedConcat(VerticalGoals(colCount - 1, rows, n), ColGoals(colCount - 1, n, Starts(rows, n)));
    }
  }

  /** Every odd-indexed goal placement is the reverse of the one before it. */
  lemma GoalsMirrored(rows: int, cols: int, n: nat)
    ensures var g := GoalPlacements(rows, cols, n);
            |g| % 2 == 0 && forall k :: 0 <= k < |g| && k % 2 == 1 ==> g[k] == Reverse(g[k - 1])
  {
    HorizontalGoalsPaired(Count(rows), cols, n);
    VerticalGoalsPaired(Count(cols), rows, n);
    PairedConcat(HorizontalGoals(Count(rows), cols, n), VerticalGoals(Count(cols), rows, n));
  }

  // ---------------------------------------------------------------------
  // Each placement is a run of in-grid cells along one row or one column

  /** `s` is one of the runs the enumeration visits, in scan order or reversed. */
  ghost predicate IsLineRun(rows: int, cols: int, n: nat, s: seq<Position>) {
    (exists r, c :: 0 <= r < rows && 0 <= c && c + n <= cols && (s == HRun(r, c, n) || s == Reverse(HRun(r, c, n))))
    || (exists r, c :: 0 <= c < cols && 0 <= r && r + n <= rows && (s == VRun(r, c, n) || s == Reverse(VRun(r, c, n))))
  }

  lemma {:induction false} RowGoalsShape(rows: int, cols: int, n: nat, row: int, starts: nat)
    requires 0 <= row < rows && starts <= Starts(cols, n)
    ensures forall k :: 0 <= k < |RowGoals(row, n, starts)| ==> IsLineRun(rows, cols, n, RowGoals(row, n, starts)[k])
  {
    if starts > 0 {
      RowGoalsShape(rows, cols, n, row, starts - 1);
      var g := RowGoals(row, n, starts);
      var prev := RowGoals(row, n, starts - 1);
      var run := HRun(row, starts - 1, n);
      forall k | 0 <= k < |g| ensures IsLineRun(rows, cols, n, g[k]) {
        if k < |prev| {
          assert g[k] == prev[k];
        } else {
          assert g[k] == run || g[k] == Reverse(run);
        }
      }
    }
  }

  lemma {:induction false} HorizontalGoalsShape(rows: int, cols: int, n: nat, rowCount: nat)
    requires rowCount <= Count(rows)
    ensures forall k :: 0 <= k < |HorizontalGoals(rowCount, cols, n)|
              ==> IsLineRun(rows, cols, n, HorizontalGoals(rowCount, cols, n)[k])
  {
    if rowCount > 0 {
      HorizontalGoalsShape(rows, cols, n, rowCount - 1);
      RowGoalsShape(rows, cols, n, rowCount - 1, Starts(cols, n));
      var prev := HorizontalGoals(rowCount - 1, cols, n);
      var last := RowGoals(rowCount - 1, n, Starts(cols, n));
      var g := HorizontalGoals(rowCount, cols, n);
      forall k | 0 <= k < |g| ensures IsLineRun(rows, cols, n, g[k]) {
        if k < |prev| {
          assert g[k] == prev[k];
        } else {
          assert g[k] == last[k - |prev|];
        }
      }
    }
  }

  lemma {:induction false} ColGoalsShape(rows: int, cols: int, n: nat, col: int, starts: nat)
    requires 0 <= col < cols && starts <= Starts(rows, n)
    ensures forall k :: 0 <= k < |ColGoals(col, n, starts)| ==> IsLineRun(rows, cols, n, ColGoals(col, n, starts)[k])
  {
    if starts > 0 {
      ColGoalsShape(rows, cols, n, col, starts - 1);
      var g := ColGoals(col, n, starts);
      var prev := ColGoals(col, n, starts - 1);
      var run := VRun(starts - 1, col, n);
      forall k | 0 <= k < |g| ensures IsLineRun(rows, cols, n, g[k]) {
        if k < |prev| {
          assert g[k] == prev[k];
        } else {
          assert g[k] == run || g[k] == Reverse(run);
        }
      }
    }
  }

  lemma {:induction false} VerticalGoalsShape(rows: int, cols: int, n: nat, colCount: nat)
    requires colCount <= Count(cols)
    ensures forall k :: 0 <= k < |VerticalGoals(colCount, rows, n)|
              ==> IsLineRun(rows, cols, n, VerticalGoals(colCount, rows, n)[k])
  {
    if colCount > 0 {
      VerticalGoalsShape(rows, cols, n, colCount - 1);
      ColGoalsShape(rows, cols, n, colCount - 1, Starts(rows, n));
      var prev := VerticalGoals(colCount - 1, rows, n);
      var last := ColGoals(colCount - 1, n, Starts(rows, n));
      var g := VerticalGoals(colCount, rows, n);
      forall k | 0 <= k < |g| ensures IsLineRun(rows, cols, n, g[k]) {
        if k < |prev| {
          assert g[k] == prev[k];
        } else {
          assert g[k] == last[k - |prev|];
        }
      }
    }
  }

  lemma HorizontalRunInGrid(rows: int, cols: int, n: nat, s: seq<Position>, r: int, c: int)
    requires 0 <= r < rows && 0 <= c && c + n <= cols
    requires s == HRun(r, c, n) || s == Reverse(HRun(r, c, n))
    ensures |s| == n
    ensures forall i :: 0 <= i < |s| ==> !IsOutOfBounds(Position(rows, cols), s[i])
  {
    var run := HRun(r, c, n);
    forall i | 0 <= i < |s| ensures !IsOutOfBounds(Position(rows, cols), s[i]) {
      assert s[i] == run[i] || s[i] == run[n - 1 - i];
    }
  }

  lemma VerticalRunInGrid(rows: int, cols: int, n: nat, s: seq<Position>, r: int, c: int)
    requires 0 <= c < cols && 0 <= r && r + n <= rows
    requires s == VRun(r, c, n) || s == Reverse(VRun(r, c, n))
    ensures |s| == n
    ensures forall i :: 0 <= i < |s| ==> !IsOutOfBounds(Position(rows, cols), s[i])
  {
    var run := VRun(r, c, n);
    forall i | 0 <= i < |s| ensures !IsOutOfBounds(Position(rows, cols), s[i]) {
      assert s[i] == run[i] || s[i] == run[n - 1 - i];
    }
  }

  /** A run the enumeration visits has `n` cells, all inside the grid. */
  lemma LineRunInGrid(rows: int, cols: int, n: nat, s: seq<Position>)
    requires IsLineRun(rows, cols, n, s)
    ensures |s| == n
    ensures forall i :: 0 <= i < |s| ==> !IsOutOfBounds(Position(rows, cols), s[i])
  {
    if exists r, c :: 0 <= r < rows && 0 <= c && c + n <= cols && (s == HRun(r, c, n) || s == Reverse(HRun(r, c, n))) {
      var r, c :| 0 <= r < rows && 0 <= c && c + n <= cols && (s == HRun(r, c, n) || s == Reverse(HRun(r, c, n)));
      HorizontalRunInGrid(rows, cols, n, s, r, c);
    } else {
      var r, c :| 0 <= c < cols && 0 <= r && r + n <= rows && (s == VRun(r, c, n) || s == Reverse(VRun(r, c, n)));
      VerticalRunInGrid(rows, cols, n, s, r, c);
    }
  }

  /** The shape of the two scans together, before they are named
      `GoalPlacements`. */
  lemma ScanShape(rows: int, cols: int, n: nat, g: seq<seq<Position>>)
    requires g == HorizontalGoals(Count(rows), cols, n) + VerticalGoals(Count(cols), rows, n)
    ensures forall k :: 0 <= k < |g| ==>
              && IsLineRun(rows, cols, n, g[k])
              && |g[k]| == n
              && forall i :: 0 <= i < n ==> !IsOutOfBounds(Position(rows, cols), g[k][i])
  {
    HorizontalGoalsShape(rows, cols, n, Count(rows));
    VerticalGoalsShape(rows, cols, n, Count(cols));
    var h := HorizontalGoals(Count(rows), cols, n);
    var v := VerticalGoals(Count(cols), rows, n);
    forall k | 0 <= k < |g|
      ensures IsLineRun(rows, cols, n, g[k]) && |g[k]| == n
      ensures forall i :: 0 <= i < n ==> !IsOutOfBounds(Position(rows, cols), g[k][i])
    {
      if k < |h| {
        assert g[k] == h[k];
      } else {
        assert g[k] == v[k - |h|];
      }
      LineRunInGrid(rows, cols, n, g[k]);
    }
  }

  /** Every placement is a run of `n` consecutive cells along a row or a
      column, in either order, inside the grid. */
  lemma GoalShape(rows: int, cols: int, n: nat)
    ensures forall k :: 0 <= k < |GoalPlacements(rows, cols, n)| ==>
              && IsLineRun(rows, cols, n, GoalPlacements(rows, cols, n)[k])
              && |GoalPlacements(rows, cols, n)[k]| == n
              && forall i :: 0 <= i < n ==> !IsOutOfBounds(Position(rows, cols), GoalPlacements(rows, cols, n)[k][i])
  {
    ScanShape(rows, cols, n, GoalPlacements(rows, cols, n));
  }

  // ---------------------------------------------------------------------
  // Every run is enumerated, in both orders

  lemma {:induction false} RowGoalsContain(row: int, n: nat, starts: nat, c: int)
    requires 0 <= c < starts
    ensures HRun(row, c, n) in RowGoals(row, n, starts)
    ensures Reverse(HRun(row, c, n)) in RowGoals(row, n, starts)
  {
    if c < starts - 1 {
      RowGoalsContain(row, n, starts - 1, c);
    }
  }

  lemma {:induction false} HorizontalGoalsContain(rowCount: nat, cols: int, n: nat, r: int, c: int)
    requires 0 <= r < rowCount && 0 <= c < Starts(cols, n)
    ensures HRun(r, c, n) in HorizontalGoals(rowCount, cols, n)
    ensures Reverse(HRun(r, c, n)) in HorizontalGoals(rowCount, cols, n)
  {
    if r < rowCount - 1 {
      HorizontalGoalsContain(rowCount - 1, cols, n, r, c);
    } else {
      RowGoalsContain(r, n, Starts(cols, n), c);
    }
  }

  lemma {:induction false} ColGoalsContain(col: int, n: nat, starts: nat, r: int)
    requires 0 <= r < starts
    ensures VRun(r, col, n) in ColGoals(col, n, starts)
    ensures Reverse(VRun(r, col, n)) in ColGoals(col, n, starts)
  {
    if r < starts - 1 {
      ColGoalsContain(col, n, starts - 1, r);
    }
  }

  lemma {:induction false} VerticalGoalsContain(colCount: nat, rows: int, n: nat, r: int, c: int)
    requires 0 <= c < colCount && 0 <= r < Starts(rows, n)
    ensures VRun(r, c, n) in VerticalGoals(colCount, rows, n)
    ensures Reverse(VRun(r, c, n)) in VerticalGoals(colCount, rows, n)
  {
    if c < colCount - 1 {
      VerticalGoalsContain(colCount - 1, rows, n, r, c);
    } else {
      ColGoalsContain(c, n, Starts(rows, n), r);
    }
  }

  /** Conversely to `GoalShape`, every run of `n` cells inside a row or a
      column of the grid is a goal placement, in both orders. */
  lemma GoalsComplete(rows: int, cols: int, n: nat, s: seq<Position>)
    requires IsLineRun(rows, cols, n, s)
    ensures s in GoalPlacements(rows, cols, n)
  {
    var h := HorizontalGoals(Count(rows), cols, n);
    var v := VerticalGoals(Count(cols), rows, n);
    if exists r, c :: 0 <= r < rows && 0 <= c && c + n <= cols && (s == HRun(r, c, n) || s == Reverse(HRun(r, c, n))) {
      var r, c :| 0 <= r < rows && 0 <= c && c + n <= cols && (s == HRun(r, c, n) || s == Reverse(HRun(r, c, n)));
      HorizontalGoalsContain(Count(rows), cols, n, r, c);
      assert s in h;
    } else {
      var r, c :| 0 <= c < cols && 0 <= r && r + n <= rows && (s == VRun(r, c, n) || s == Reverse(VRun(r, c, n)));
      VerticalGoalsContain(Count(cols), rows, n, r, c);
      assert s in v;
    }
  }

  // ---------------------------------------------------------------------
  // Counting the wall-free placements

  /** No cell of `s` is a wall. */
  predicate WallFree(walls: seq<Position>, s: seq<Position>) {
    forall i :: 0 <= i < |s| ==> !IsWall(walls, s[i])
  }

  /** How many of the placements `g` are wall-free. */
  function CountWallFree(walls: seq<Position>, g: seq<seq<Position>>): nat {
    if g == [] then 0
    else CountWallFree(walls, g[..|g| - 1]) + (if WallFree(walls, g[|g| - 1]) then 1 else 0)
  }

  /** The wall-free count of a concatenation is the sum of the counts. */
  lemma {:induction false} CountWallFreeConcat(walls: seq<Position>, a: seq<seq<Position>>, b: seq<seq<Position>>)
    ensures CountWallFree(walls, a + b) == CountWallFree(walls, a) + CountWallFree(walls, b)
    decreases |b|
  {
    if b == [] {
      assert a + b == a;
    } else {
      assert (a + b)[..|a + b| - 1] == a + b[..|b| - 1];
      CountWallFreeConcat(walls, a, b[..|b| - 1]);
    }
  }

  /** The runs in scan order: the even-indexed placements. */
  function Forward(g: seq<seq<Position>>): seq<seq<Position>> {
    seq(|g| / 2, j requires 0 <= j < |g| / 2 => g[2 * j])
  }

  lemma WallFreeReverse(walls: seq<Position>, s: seq<Position>)
    ensures WallFree(walls, Reverse(s)) <==> WallFree(walls, s)
  {
    var r := Reverse(s);
    if WallFree(walls, s) {
      forall i | 0 <= i < |r| ensures !IsWall(walls, r[i]) {
        assert r[i] == s[|s| - 1 - i];
      }
    }
    if WallFree(walls, r) {
      forall i | 0 <= i < |s| ensures !IsWall(walls, s[i]) {
        assert r[|s| - 1 - i] == s[i];
      }
    }
  }

  /** In paired placements each wall-free run is counted twice, once per
      reading direction. */
  lemma {:induction false} PairedCount(walls: seq<Position>, g: seq<seq<Position>>)
    requires Paired(g)
    ensures CountWallFree(walls, g) == 2 * CountWallFree(walls, Forward(g))
    decreases |g|
  {
    if g != [] {
      var m := |g| - 2;
      var prefix := g[..m];
      PairedPrefix(g);
      PairedCount(walls, prefix);
      CountLastPair(walls, g);
      ForwardLastPair(g);
      var f := Forward(g);
      assert f[..|f| - 1] == Forward(prefix);
    }
  }

  /** Dropping the last run and its reverse keeps the pairing. */
  lemma PairedPrefix(g: seq<seq<Position>>)
    requires Paired(g) && g != []
    ensures Paired(g[..|g| - 2])
    ensures g[|g| - 1] == Reverse(g[|g| - 2])
  {
    var prefix := g[..|g| - 2];
    forall k | 0 <= k < |prefix| && k % 2 == 1 ensures prefix[k] == Reverse(prefix[k - 1]) {
      assert prefix[k] == g[k] && prefix[k - 1] == g[k - 1];
    }
  }

  /** The last run and its reverse add 2 to the count when the run is
      wall-free and 0 otherwise. */
  lemma CountLastPair(walls: seq<Position>, g: seq<seq<Position>>)
    requires |g| >= 2 && g[|g| - 1] == Reverse(g[|g| - 2])
    ensures CountWallFree(walls, g)
            == CountWallFree(walls, g[..|g| - 2]) + (if WallFree(walls, g[|g| - 2]) then 2 else 0)
  {
    var m := |g| - 2;
    WallFreeReverse(walls, g[m]);
    assert g[..|g| - 1][..m] == g[..m];
  }

  /** The forward runs of a paired list end with its second-to-last run. */
  lemma ForwardLastPair(g: seq<seq<Position>>)
    requires |g| >= 2 && |g| % 2 == 0
    ensures Forward(g) == Forward(g[..|g| - 2]) + [g[|g| - 2]]
  {
  }

  /** `calculate_possible_positions`, as a function of the goal placements:
      twice the number of wall-free runs, hence even, at most the number of
      goal placements, and equal to it when there are no walls. */
  lemma PossiblePositionsBounds(walls: seq<Position>, rows: int, cols: int, n: nat)
    ensures var g := GoalPlacements(rows, cols, n);
            && CountWallFree(walls, g) == 2 * CountWallFree(walls, Forward(g))
            && CountWallFree(walls, g) % 2 == 0
            && CountWallFree(walls, g) <= |g|
            && (walls == [] ==> CountWallFree(walls, g) == |g|)
  {
    var g := GoalPlacements(rows, cols, n);
    GoalsMirrored(rows, cols, n);
    PairedCount(walls, g);
    CountWallFreeAtMost(walls, g);
  }

  lemma {:induction false} CountWallFreeAtMost(walls: seq<Position>, g: seq<seq<Position>>)
    ensures CountWallFree(walls, g) <= |g|
    ensures walls == [] ==> CountWallFree(walls, g) == |g|
  {
    if g != [] {
      CountWallFreeAtMost(walls, g[..|g| - 1]);
    }
  }
}
