/** The puzzle grid: positions, the four slide directions, the occupancy
    predicates of `GameState` and the slide performed by `move_word`.
    The predicates are written over the values they read (the word positions,
    the wall list and the grid size), so that the specification of a slide
    can be stated and proved without the heap. */
module Grid {
  import opened Seqs

  /** A grid cell; the grid size is also carried as a `Position`
      (rows in `row`, columns in `col`). */
  datatype Position = Position(row: int, col: int)

  /** One slide step: a word index and a direction name. */
  datatype Step = Step(wordIndex: int, direction: string)

  /** The cell `d` away from `p`. */
  function Add(p: Position, d: Position): Position {
    Position(p.row + d.row, p.col + d.col)
  }

  /** A single-cell step along a row or a column. */
  predicate IsUnit(d: Position) {
    (d.row == 0 && (d.col == 1 || d.col == -1)) || (d.col == 0 && (d.row == 1 || d.row == -1))
  }

  /** The direction table: an unordered map from name to unit step. */
  const DIRECTIONS: map<string, Position> :=
    map["up" := Position(-1, 0), "down" := Position(1, 0), "left" := Position(0, -1), "right" := Position(0, 1)]

  /** The table has exactly the four names of the C++ initializer. */
  lemma DirectionNames()
    ensures DIRECTIONS.Keys == {"up", "down", "left", "right"}
  {
  }

  /** The step of a direction name; every entry of the table is a unit step. */
  function Delta(name: string): (d: Position)
    requires name in DIRECTIONS
    ensures IsUnit(d)
    ensures name == "up" || name == "down" || name == "left" || name == "right"
  {
    DIRECTIONS[name]
  }

  /** `std::find` over a vector of positions: the index of the first
      occurrence of `p`, or `|s|` (the end iterator) when there is none. */
  function Find(s: seq<Position>, p: Position): (k: nat)
    ensures k <= |s|
    ensures k < |s| ==> s[k] == p
    ensures forall j :: 0 <= j < k ==> s[j] != p
  {
    if s == [] then 0 else if s[0] == p then 0 else 1 + Find(s[1..], p)
  }

  /** `GameState::is_wall`: a linear search of the wall list. */
  function IsWall(walls: seq<Position>, pos: Position): (b: bool)
    ensures b <==> exists i :: 0 <= i < |walls| && walls[i] == pos
  {
    Find(walls, pos) != |walls|
  }

  /** Some word sits on `pos`: `std::find` over the word positions stops
      before the end. */
  predicate HasWord(positions: seq<Position>, pos: Position) {
    Find(positions, pos) < |positions|
  }

  /** `GameState::is_position_occupied`: some word or some wall sits on `pos`. */
  function IsPositionOccupied(positions: seq<Position>, walls: seq<Position>, pos: Position): (b: bool)
    ensures b <==> (exists i :: 0 <= i < |positions| && positions[i] == pos) || IsWall(walls, pos)
  {
    HasWord(positions, pos) || IsWall(walls, pos)
  }

  /** `GameState::is_out_of_bounds` for a grid of `gridSize.row` rows and
      `gridSize.col` columns. */
  predicate IsOutOfBounds(gridSize: Position, pos: Position) {
    pos.row < 0 || pos.row >= gridSize.row || pos.col < 0 || pos.col >= gridSize.col
  }

  /** The condition that stops a slide at the cell before `pos`. */
  predicate Blocked(walls: seq<Position>, gridSize: Position, positions: seq<Position>, pos: Position) {
    IsOutOfBounds(gridSize, pos) || IsPositionOccupied(positions, walls, pos)
  }

  /** The number of in-grid cells that a slide from `p` along `d` could
      still enter: the termination measure of the slide. */
  function Room(gridSize: Position, p: Position, d: Position): nat {
    var x :=
      if d.row == 1 then gridSize.row - 1 - p.row
      else if d.row == -1 then p.row
      else if d.col == 1 then gridSize.col - 1 - p.col
      else p.col;
    if x < 0 then 0 else x
  }

  /** From an in-grid cell, the next cell along a unit step leaves the grid
      exactly when `Room` is spent, so every slide stops at the edge at the
      latest. */
  lemma EdgeIsOutOfBounds(gridSize: Position, p: Position, d: Position)
    requires IsUnit(d)
    requires !IsOutOfBounds(gridSize, p)
    ensures IsOutOfBounds(gridSize, Add(p, d)) <==> Room(gridSize, p, d) == 0
  {
  }

  /** `q` lies on the ray that starts at `p` and heads along the unit step `d`. */
  predicate OnRay(p: Position, q: Position, d: Position) {
    if d.row == 0 then q.row == p.row && (if d.col > 0 then q.col >= p.col else q.col <= p.col)
    else q.col == p.col && (if d.row > 0 then q.row >= p.row else q.row <= p.row)
  }

  /** Where a word that starts on `from` comes to rest when it slides along
      `d`: the loop of `move_word`, as a function of the state it reads. */
  function SlideTarget(walls: seq<Position>, gridSize: Position, positions: seq<Position>,
                       from: Position, d: Position): (r: Position)
    requires IsUnit(d)
    ensures Blocked(walls, gridSize, positions, Add(r, d))
    ensures r == from || !Blocked(walls, gridSize, positions, r)
    ensures OnRay(from, r, d)
    ensures forall q :: OnRay(from, q, d) && q != from && OnRay(q, r, d) ==> !Blocked(walls, gridSize, positions, q)
    decreases Room(gridSize, from, d)
  {
    var next := Add(from, d);
    if Blocked(walls, gridSize, positions, next) then from
    else SlideTarget(walls, gridSize, positions, next, d)
  }

  /** The word positions after `move_word(i, d)`: only entry `i` changes,
      and the cell past its new place was blocked in the state it read. */
  function Move(walls: seq<Position>, gridSize: Position, positions: seq<Position>, i: int, d: Position): (r: seq<Position>)
    requires 0 <= i < |positions|
    requires IsUnit(d)
    ensures |r| == |positions|
    ensures forall j :: 0 <= j < |r| && j != i ==> r[j] == positions[j]
    ensures Blocked(walls, gridSize, positions, Add(r[i], d))
  {
    positions[i := SlideTarget(walls, gridSize, positions, positions[i], d)]
  }

  /** A cell strictly ahead of `p` on the ray along `d` is never `p` itself. */
  lemma AheadIsNotStart(p: Position, r: Position, d: Position)
    requires IsUnit(d)
    requires OnRay(p, r, d)
    ensures Add(r, d) != p
  {
  }

  /** A cell that blocked the slide still blocks it once the word has moved. */
  lemma {:induction false} BlockedAfterMove(walls: seq<Position>, gridSize: Position, positions: seq<Position>,
                                            i: int, d: Position)
    requires 0 <= i < |positions|
    requires IsUnit(d)
    ensures var r := SlideTarget(walls, gridSize, positions, positions[i], d);
            Blocked(walls, gridSize, positions[i := r], Add(r, d))
  {
    var r := SlideTarget(walls, gridSize, positions, positions[i], d);
    var next := Add(r, d);
    AheadIsNotStart(positions[i], r, d);
    if !IsOutOfBounds(gridSize, next) && !IsWall(walls, next) {
      var j :| 0 <= j < |positions| && positions[j] == next;
      assert j != i;
      assert positions[i := r][j] == next;
    }
  }

  /** The slide result: for an in-grid, wall-free start among pairwise
      distinct words, the word rests in the grid, on no wall and on no other
      word; the next cell along `d` is out of the grid or occupied; the other
      words are where they were; and the words stay pairwise distinct. */
  lemma {:induction false} SlideResult(walls: seq<Position>, gridSize: Position, positions: seq<Position>,
                                       i: int, d: Position)
    requires 0 <= i < |positions|
    requires IsUnit(d)
    requires !IsOutOfBounds(gridSize, positions[i]) && !IsWall(walls, positions[i])
    requires Distinct(positions)
    ensures var after := Move(walls, gridSize, positions, i, d);
            && |after| == |positions|
            && !IsOutOfBounds(gridSize, after[i])
            && !IsWall(walls, after[i])
            && (forall j :: 0 <= j < |after| && j != i ==> after[j] == positions[j] && after[j] != after[i])
            && Blocked(walls, gridSize, after, Add(after[i], d))
            && Distinct(after)
  {
    BlockedAfterMove(walls, gridSize, positions, i, d);
    var r := SlideTarget(walls, gridSize, positions, positions[i], d);
    var after := positions[i := r];
    forall j | 0 <= j < |after| && j != i ensures after[j] != r {
      if r != positions[i] {
        assert positions[j] == after[j];
      }
    }
  }

  /** Sliding a word a second time in the same direction changes nothing:
      the cell past its resting place is still blocked. */
  lemma {:induction false} SlideIdempotent(walls: seq<Position>, gridSize: Position, positions: seq<Position>,
                                           i: int, d: Position)
    requires 0 <= i < |positions|
    requires IsUnit(d)
    ensures var once := Move(walls, gridSize, positions, i, d);
            Move(walls, gridSize, once, i, d) == once
  {
    BlockedAfterMove(walls, gridSize, positions, i, d);
  }

  /** A word whose first step is blocked does not move: the state is unchanged. */
  lemma SlideBlockedIsNoop(walls: seq<Position>, gridSize: Position, positions: seq<Position>,
                           i: int, d: Position)
    requires 0 <= i < |positions|
    requires IsUnit(d)
    requires Blocked(walls, gridSize, positions, Add(positions[i], d))
    ensures Move(walls, gridSize, positions, i, d) == positions
  {
  }
}
