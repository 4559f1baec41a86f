/** The solved check of `GameState::is_solved`: each row, then each column,
    is scanned in increasing index; the words met are collected until the
    first empty cell after a non-empty run, joined with single spaces and
    compared with the target sentence and with its word-reversed form. */
module Solved {
  import opened Seqs
  import opened Grid
  import opened Goals
  import opened Sentence

  /** The word of the first entry of `positions` that sits on `pos`. */
  function WordAt(positions: seq<Position>, words: seq<string>, pos: Position): string
    requires |positions| <= |words|
    requires HasWord(positions, pos)
  {
    words[Find(positions, pos)]
  }

  /** The loop over one line exactly as written: `acc` holds the words
      collected so far; an empty cell ends the scan once `acc` is non-empty. */
  function ScanLine(positions: seq<Position>, words: seq<string>, cells: seq<Position>, acc: seq<string>): (r: seq<string>)
    requires |positions| <= |words|
    ensures |acc| <= |r| && r[..|acc|] == acc
    ensures forall k :: |acc| <= k < |r| ==> r[k] in words
    decreases |cells|
  {
    if cells == [] then acc
    else if HasWord(positions, cells[0]) then ScanLine(positions, words, cells[1..], acc + [WordAt(positions, words, cells[0])])
    else if acc != [] then acc
    else ScanLine(positions, words, cells[1..], acc)
  }

  /** The line with its leading empty cells removed. */
  function DropGaps(positions: seq<Position>, cells: seq<Position>): (r: seq<Position>)
    ensures |r| <= |cells| && r == cells[|cells| - |r|..]
    ensures r != [] ==> HasWord(positions, r[0])
  {
    if cells == [] || HasWord(positions, cells[0]) then cells else DropGaps(positions, cells[1..])
  }

  /** The words of the leading run of occupied cells of `cells`. */
  function Run(positions: seq<Position>, words: seq<string>, cells: seq<Position>): seq<string>
    requires |positions| <= |words|
  {
    if cells == [] || !HasWord(positions, cells[0]) then []
    else [WordAt(positions, words, cells[0])] + Run(positions, words, cells[1..])
  }

  /** The first contiguous block of words along a line. */
  function FirstBlock(positions: seq<Position>, words: seq<string>, cells: seq<Position>): seq<string>
    requires |positions| <= |words|
  {
    Run(positions, words, DropGaps(positions, cells))
  }

  /** Joined, the first block of the line equals the target or its reverse. */
  predicate LineMatches(positions: seq<Position>, words: seq<string>, cells: seq<Position>,
                        target: string, reversedTarget: string)
    requires |positions| <= |words|
  {
    var joined := Join(FirstBlock(positions, words, cells));
    joined == target || joined == reversedTarget
  }

  /** What `is_solved` decides: some row (cells `(r, 0) .. (r, cols - 1)`) or
      some column (cells `(0, c) .. (rows - 1, c)`) has a matching first block. */
  ghost predicate IsSolvedState(positions: seq<Position>, words: seq<string>, gridSize: Position,
                                target: string, reversedTarget: string)
    requires |positions| <= |words|
  {
    || (exists r :: 0 <= r < gridSize.row &&
          LineMatches(positions, words, HRun(r, 0, Count(gridSize.col)), target, reversedTarget))
    || (exists c :: 0 <= c < gridSize.col &&
          LineMatches(positions, words, VRun(0, c, Count(gridSize.row)), target, reversedTarget))
  }

  // ---------------------------------------------------------------------
  // The scan as written collects exactly the first block

  lemma {:induction false} ScanLineAfterWords(positions: seq<Position>, words: seq<string>,
                                              cells: seq<Position>, acc: seq<string>)
    requires |positions| <= |words|
    requires acc != []
    ensures ScanLine(positions, words, cells, acc) == acc + Run(positions, words, cells)
    decreases |cells|
  {
    if cells != [] && HasWord(positions, cells[0]) {
      var w := WordAt(positions, words, cells[0]);
      ScanLineAfterWords(positions, words, cells[1..], acc + [w]);
      assert acc + [w] + Run(positions, words, cells[1..]) == acc + ([w] + Run(positions, words, cells[1..]));
    }
  }

  /** The loop of `is_solved` over one line yields the line's first
      contiguous block of words (`[]` when the line is empty). */
  lemma {:induction false} ScanLineIsFirstBlock(positions: seq<Position>, words: seq<string>, cells: seq<Position>)
    requires |positions| <= |words|
    ensures ScanLine(positions, words, cells, []) == FirstBlock(positions, words, cells)
    decreases |cells|
  {
    if cells != [] {
      if HasWord(positions, cells[0]) {
        var w := WordAt(positions, words, cells[0]);
        assert [] + [w] == [w];
        ScanLineAfterWords(positions, words, cells[1..], [w]);
      } else {
        ScanLineIsFirstBlock(positions, words, cells[1..]);
      }
    }
  }

  // ---------------------------------------------------------------------
  // Properties of the first block

  lemma {:induction false} RunStopsAtGap(positions: seq<Position>, words: seq<string>, cells: seq<Position>, i: nat)
    requires |positions| <= |words|
    requires i < |cells| && !HasWord(positions, cells[i])
    ensures Run(positions, words, cells) == Run(positions, words, cells[..i])
  {
    if i > 0 && HasWord(positions, cells[0]) {
      assert cells[..i][1..] == cells[1..][..i - 1];
      RunStopsAtGap(positions, words, cells[1..], i - 1);
    }
  }

  /** Words after the first empty cell that follows a word are never
      looked at: the first block of the line is that of its prefix. */
  lemma {:induction false} FirstBlockIgnoresRest(positions: seq<Position>, words: seq<string>,
                                                 cells: seq<Position>, j: nat, i: nat)
    requires |positions| <= |words|
    requires j < i < |cells|
    requires HasWord(positions, cells[j]) && !HasWord(positions, cells[i])
    ensures FirstBlock(positions, words, cells) == FirstBlock(positions, words, cells[..i])
  {
    if HasWord(positions, cells[0]) {
      RunStopsAtGap(positions, words, cells, i);
    } else {
      assert cells[..i][1..] == cells[1..][..i - 1];
      FirstBlockIgnoresRest(positions, words, cells[1..], j - 1, i - 1);
    }
  }

  /** A line without words is compared as the empty string. */
  lemma {:induction false} EmptyLineJoinsToEmpty(positions: seq<Position>, words: seq<string>, cells: seq<Position>)
    requires |positions| <= |words|
    requires forall i :: 0 <= i < |cells| ==> !HasWord(positions, cells[i])
    ensures FirstBlock(positions, words, cells) == []
    ensures Join(FirstBlock(positions, words, cells)) == ""
  {
    if cells != [] {
      EmptyLineJoinsToEmpty(positions, words, cells[1..]);
    }
  }

  lemma {:induction false} RunOfPrefix(positions: seq<Position>, words: seq<string>, cells: seq<Position>, m: nat)
    requires |positions| <= |words|
    requires m <= |cells|
    requires forall i :: 0 <= i < m ==> HasWord(positions, cells[i])
    requires m < |cells| ==> !HasWord(positions, cells[m])
    ensures Run(positions, words, cells) == seq(m, i requires 0 <= i < m => WordAt(positions, words, cells[i]))
  {
    if m > 0 {
      RunOfPrefix(positions, words, cells[1..], m - 1);
    }
  }

  lemma {:induction false} DropLeadingGaps(positions: seq<Position>, cells: seq<Position>, k: nat)
    requires k <= |cells|
    requires forall i :: 0 <= i < k ==> !HasWord(positions, cells[i])
    requires k < |cells| ==> HasWord(positions, cells[k])
    ensures DropGaps(positions, cells) == cells[k..]
  {
    if k > 0 {
      DropLeadingGaps(positions, cells[1..], k - 1);
    }
  }

  /** A line whose first `k` cells are empty, whose next `m` cells hold
      words and whose following cell (if any) is empty has those `m` words
      as its first block. */
  lemma FirstBlockOfSlice(positions: seq<Position>, words: seq<string>, cells: seq<Position>, k: nat, m: nat)
    requires |positions| <= |words|
    requires 0 < m && k + m <= |cells|
    requires forall i :: 0 <= i < k ==> !HasWord(positions, cells[i])
    requires forall i :: k <= i < k + m ==> HasWord(positions, cells[i])
    requires k + m < |cells| ==> !HasWord(positions, cells[k + m])
    ensures FirstBlock(positions, words, cells) == seq(m, i requires 0 <= i < m => WordAt(positions, words, cells[k + i]))
  {
    DropLeadingGaps(positions, cells, k);
    var rest := cells[k..];
    assert forall i :: 0 <= i < |rest| ==> rest[i] == cells[k + i];
    RunOfPrefix(positions, words, rest, m);
  }

  // ---------------------------------------------------------------------
  // Goal placements spell the sentence

  /** Only the cells of the slice hold words. */
  lemma OutsideSliceIsEmpty(positions: seq<Position>, cells: seq<Position>, k: nat, j: nat)
    requires k + |positions| <= |cells| && j < |cells| && !(k <= j < k + |positions|)
    requires Distinct(cells)
    requires forall x :: 0 <= x < |positions| ==> positions[x] in cells[k..k + |positions|]
    ensures !HasWord(positions, cells[j])
  {
    var slice := cells[k..k + |positions|];
    forall x | 0 <= x < |positions| ensures positions[x] != cells[j] {
      var y :| 0 <= y < |slice| && slice[y] == positions[x];
      assert cells[k + y] == positions[x];
    }
  }

  /** Inside the slice, the word on a cell is the one whose position it is. */
  lemma WordOnSliceCell(positions: seq<Position>, words: seq<string>, cells: seq<Position>, j: nat, i: nat)
    requires |positions| <= |words| && j < |cells|
    requires i < |positions| && positions[i] == cells[j] && Distinct(positions)
    ensures HasWord(positions, cells[j]) && WordAt(positions, words, cells[j]) == words[i]
  {
    var x := Find(positions, cells[j]);
    assert x <= i;
  }

  /** Words placed in sentence order on `cells[k .. k + n)` are the line's first block. */
  lemma ForwardSliceBlock(positions: seq<Position>, words: seq<string>, cells: seq<Position>, k: nat)
    requires |positions| == |words| >= 1 && k + |words| <= |cells|
    requires Distinct(cells)
    requires positions == cells[k..k + |words|]
    ensures FirstBlock(positions, words, cells) == words
  {
    var n := |words|;
    assert Distinct(positions) by {
      forall a, b | 0 <= a < b < n ensures positions[a] != positions[b] {
        assert positions[a] == cells[k + a] && positions[b] == cells[k + b];
      }
    }
    forall j | 0 <= j < |cells| && !(k <= j < k + n) ensures !HasWord(positions, cells[j]) {
      OutsideSliceIsEmpty(positions, cells, k, j);
    }
    forall j | k <= j < k + n
      ensures HasWord(positions, cells[j]) && WordAt(positions, words, cells[j]) == words[j - k]
    {
      WordOnSliceCell(positions, words, cells, j, j - k);
    }
    FirstBlockOfSlice(positions, words, cells, k, n);
  }

  /** Words placed in reverse order on `cells[k .. k + n)` give the reversed
      word list as the line's first block. */
  lemma ReverseSliceBlock(positions: seq<Position>, words: seq<string>, cells: seq<Position>, k: nat)
    requires |positions| == |words| >= 1 && k + |words| <= |cells|
    requires Distinct(cells)
    requires positions == Reverse(cells[k..k + |words|])
    ensures FirstBlock(positions, words, cells) == Reverse(words)
  {
    var n := |words|;
    ReverseSliceOccupancy(positions, words, cells, k);
    FirstBlockOfSlice(positions, words, cells, k, n);
    ReversedSliceWords(positions, words, cells, k);
  }

  lemma ReverseSliceOccupancy(positions: seq<Position>, words: seq<string>, cells: seq<Position>, k: nat)
    requires |positions| == |words| >= 1 && k + |words| <= |cells|
    requires Distinct(cells)
    requires positions == Reverse(cells[k..k + |words|])
    ensures forall j :: 0 <= j < k ==> !HasWord(positions, cells[j])
    ensures k + |words| < |cells| ==> !HasWord(positions, cells[k + |words|])
    ensures forall j :: k <= j < k + |words| ==>
              HasWord(positions, cells[j]) && WordAt(positions, words, cells[j]) == words[k + |words| - 1 - j]
  {
    var n := |words|;
    ReversedSliceCells(positions, cells, k);
    forall j | 0 <= j < |cells| && !(k <= j < k + n) ensures !HasWord(positions, cells[j]) {
      OutsideSliceIsEmpty(positions, cells, k, j);
    }
    forall j | k <= j < k + n
      ensures HasWord(positions, cells[j]) && WordAt(positions, words, cells[j]) == words[k + n - 1 - j]
    {
      WordOnSliceCell(positions, words, cells, j, k + n - 1 - j);
    }
  }

  /** A reversed slice of distinct cells has distinct cells, each in the
      slice at the mirrored index. */
  lemma ReversedSliceCells(positions: seq<Position>, cells: seq<Position>, k: nat)
    requires k + |positions| <= |cells|
    requires Distinct(cells)
    requires positions == Reverse(cells[k..k + |positions|])
    ensures Distinct(positions)
    ensures forall x :: 0 <= x < |positions| ==> positions[x] in cells[k..k + |positions|]
    ensures forall x :: 0 <= x < |positions| ==> positions[x] == cells[k + |positions| - 1 - x]
  {
    var n := |positions|;
    var slice := cells[k..k + n];
    forall x | 0 <= x < n ensures positions[x] in slice && positions[x] == cells[k + n - 1 - x] {
      assert positions[x] == slice[n - 1 - x];
    }
  }

  lemma ReversedSliceWords(positions: seq<Position>, words: seq<string>, cells: seq<Position>, k: nat)
    requires |positions| <= |words| && k + |words| <= |cells|
    requires forall j :: k <= j < k + |words| ==>
               HasWord(positions, cells[j]) && WordAt(positions, words, cells[j]) == words[k + |words| - 1 - j]
    ensures seq(|words|, i requires 0 <= i < |words| => WordAt(positions, words, cells[k + i])) == Reverse(words)
  {
  }

  /** Words placed, in order or reversed, on the consecutive cells
      `cells[k .. k + n)` of a line of distinct cells make the line's first
      block spell the sentence or its reverse. */
  lemma SliceMatches(positions: seq<Position>, words: seq<string>, cells: seq<Position>, k: nat)
    requires |positions| == |words| >= 1 && k + |words| <= |cells|
    requires Distinct(cells)
    requires positions == cells[k..k + |words|] || positions == Reverse(cells[k..k + |words|])
    requires forall i :: 0 <= i < |words| ==> IsWord(words[i])
    ensures LineMatches(positions, words, cells, Join(words), ReversedWords(Join(words)))
  {
    if positions == cells[k..k + |words|] {
      ForwardSliceBlock(positions, words, cells, k);
    } else {
      ReverseSliceBlock(positions, words, cells, k);
      ReversedWordsOfJoin(words);
    }
  }

  /** Every horizontal goal placement, with the words in sentence order,
      is a state that `is_solved` accepts. */
  lemma HorizontalPlacementIsSolved(positions: seq<Position>, words: seq<string>, gridSize: Position, r: int, c: int)
    requires |positions| == |words| >= 1
    requires 0 <= r < gridSize.row && 0 <= c && c + |words| <= gridSize.col
    requires positions == HRun(r, c, |words|) || positions == Reverse(HRun(r, c, |words|))
    requires forall i :: 0 <= i < |words| ==> IsWord(words[i])
    ensures IsSolvedState(positions, words, gridSize, Join(words), ReversedWords(Join(words)))
  {
    var cells := HRun(r, 0, Count(gridSize.col));
    assert HRun(r, c, |words|) == cells[c..c + |words|];
    SliceMatches(positions, words, cells, c);
  }

  /** Every vertical goal placement, with the words in sentence order,
      is a state that `is_solved` accepts. */
  lemma VerticalPlacementIsSolved(positions: seq<Position>, words: seq<string>, gridSize: Position, r: int, c: int)
    requires |positions| == |words| >= 1
    requires 0 <= c < gridSize.col && 0 <= r && r + |words| <= gridSize.row
    requires positions == VRun(r, c, |words|) || positions == Reverse(VRun(r, c, |words|))
    requires forall i :: 0 <= i < |words| ==> IsWord(words[i])
    ensures IsSolvedState(positions, words, gridSize, Join(words), ReversedWords(Join(words)))
  {
    var cells := VRun(0, c, Count(gridSize.row));
    assert VRun(r, c, |words|) == cells[r..r + |words|];
    SliceMatches(positions, words, cells, r);
  }

  /** The row scan of `is_solved` visits exactly the in-grid cells of its
      row, and the column scan those of its column. */
  lemma RowScanCells(gridSize: Position, r: int, pos: Position)
    requires 0 <= r < gridSize.row
    ensures pos in HRun(r, 0, Count(gridSize.col)) <==> pos.row == r && !IsOutOfBounds(gridSize, pos)
  {
    if pos.row == r && !IsOutOfBounds(gridSize, pos) {
      assert HRun(r, 0, Count(gridSize.col))[pos.col] == pos;
    }
  }

  lemma ColumnScanCells(gridSize: Position, c: int, pos: Position)
    requires 0 <= c < gridSize.col
    ensures pos in VRun(0, c, Count(gridSize.row)) <==> pos.col == c && !IsOutOfBounds(gridSize, pos)
  {
    if pos.col == c && !IsOutOfBounds(gridSize, pos) {
      assert VRun(0, c, Count(gridSize.row))[pos.row] == pos;
    }
  }
}
