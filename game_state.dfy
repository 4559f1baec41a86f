/** `GameState`: one level of the puzzle. The word positions are the only
    field the solver ever updates (`move_word`); the rest is fixed when the
    level is built and is declared `const`. */
module GameStates {
  import opened Seqs
  import opened Grid
  import opened Goals
  import opened Sentence
  import opened Solved

  class GameState {
    const level: int
    const targetSentence: string
    var wordPositions: seq<Position>
    const walls: seq<Position>
    /** Rows in `gridSize.row`, columns in `gridSize.col`. */
    const gridSize: Position
    const words: seq<string>
    const reversedTargetSentence: string

    /** The level constructor: the words are the whitespace-separated words
        of the sentence, and the reversed target is `reverse_sentence` of it. */
    constructor (lvl: int, sentence: string, wordPos: seq<Position>, wallPos: seq<Position>, gridSz: Position)
      ensures level == lvl && targetSentence == sentence
      ensures wordPositions == wordPos && walls == wallPos && gridSize == gridSz
      ensures words == Split(sentence)
      ensures reversedTargetSentence == ReversedWords(sentence)
    {
      var reversed := ReverseSentence(sentence);
      level := lvl;
      targetSentence := sentence;
      wordPositions := wordPos;
      walls := wallPos;
      gridSize := gridSz;
      words := Split(sentence);
      reversedTargetSentence := reversed;
    }

    /** A copy of `other` (the implicit copy constructor) whose word
        positions are then set to `positions`. */
    constructor Copy(other: GameState, positions: seq<Position>)
      ensures level == other.level && targetSentence == other.targetSentence
      ensures walls == other.walls && gridSize == other.gridSize
      ensures words == other.words && reversedTargetSentence == other.reversedTargetSentence
      ensures wordPositions == positions
    {
      level := other.level;
      targetSentence := other.targetSentence;
      wordPositions := positions;
      walls := other.walls;
      gridSize := other.gridSize;
      words := other.words;
      reversedTargetSentence := other.reversedTargetSentence;
    }

    /** `move_word`: slide word `wordIndex` along `direction` until the next
        cell is outside the grid, a wall or another word; only entry
        `wordIndex` of the word positions is written. */
    method MoveWord(wordIndex: int, direction: Position)
      requires 0 <= wordIndex < |wordPositions|
      requires IsUnit(direction)
      modifies this
      ensures wordPositions == Move(walls, gridSize, old(wordPositions), wordIndex, direction)
    {
      var current := wordPositions[wordIndex];
      var next := Add(current, direction);
      while !IsOutOfBounds(gridSize, next) && !IsPositionOccupied(wordPositions, walls, next)
        invariant next == Add(current, direction)
        invariant SlideTarget(walls, gridSize, wordPositions, current, direction)
                  == SlideTarget(walls, gridSize, wordPositions, wordPositions[wordIndex], direction)
        decreases Room(gridSize, current, direction)
      {
        current := next;
        next := Add(current, direction);
      }
      wordPositions := wordPositions[wordIndex := current];
    }

    /** `is_solved`: rows first, then columns; in each line the words are
        collected up to the first empty cell after a word, and the joined
        block is compared with the target sentence and its reverse. */
    method IsSolved() returns (solved: bool)
      requires |wordPositions| <= |words|
      ensures solved <==> IsSolvedState(wordPositions, words, gridSize, targetSentence, reversedTargetSentence)
    {
      var ps := wordPositions;
      var row := 0;
      while row < gridSize.row
        invariant 0 <= row
        invariant forall r :: 0 <= r < row ==>
                    !LineMatches(ps, words, HRun(r, 0, Count(gridSize.col)), targetSentence, reversedTargetSentence)
      {
        var cells := HRun(row, 0, Count(gridSize.col));
        var rowWords := ScanRow(cells);
        var joined := JoinWords(rowWords);
        if joined == targetSentence || joined == reversedTargetSentence {
          return true;
        }
        row := row + 1;
      }
      var col := 0;
      while col < gridSize.col
        invariant 0 <= col
        invariant forall c :: 0 <= c < col ==>
                    !LineMatches(ps, words, VRun(0, c, Count(gridSize.row)), targetSentence, reversedTargetSentence)
      {
        var cells := VRun(0, col, Count(gridSize.row));
        var colWords := ScanRow(cells);
        var joined := JoinWords(colWords);
        if joined == targetSentence || joined == reversedTargetSentence {
          return true;
        }
        col := col + 1;
      }
      return false;
    }

    /** The inner loop of `is_solved` over the cells of one line. */
    method ScanRow(cells: seq<Position>) returns (lineWords: seq<string>)
      requires |wordPositions| <= |words|
      ensures lineWords == FirstBlock(wordPositions, words, cells)
    {
      ScanLineIsFirstBlock(wordPositions, words, cells);
      lineWords := [];
      var i := 0;
      while i < |cells|
        invariant 0 <= i <= |cells|
        invariant ScanLine(wordPositions, words, cells[i..], lineWords) == ScanLine(wordPositions, words, cells, [])
      {
        var k := Find(wordPositions, cells[i]);
        assert cells[i..][1..] == cells[i + 1..];
        if k != |wordPositions| {
          lineWords := lineWords + [words[k]];
        } else {
          if lineWords != [] {
            break;
          }
        }
        i := i + 1;
      }
    }

    /** `generate_goal_states`: for every row and every start column, the
        run of `|words|` cells and then its reverse; then the same for every
        column. The walls are not consulted. */
    method GenerateGoalStates() returns (goalStates: seq<seq<Position>>)
      ensures goalStates == GoalPlacements(gridSize.row, gridSize.col, |words|)
    {
      var n := |words|;
      goalStates := [];
      var row := 0;
      while row < gridSize.row
        invariant 0 <= row <= Count(gridSize.row)
        invariant goalStates == HorizontalGoals(row, gridSize.col, n)
      {
        goalStates := PushRowGoals(goalStates, row, gridSize.col, n);
        row := row + 1;
      }
      ghost var horizontal := goalStates;
      var col := 0;
      while col < gridSize.col
        invariant 0 <= col <= Count(gridSize.col)
        invariant goalStates == horizontal + VerticalGoals(col, gridSize.row, n)
      {
        goalStates := PushColumnGoals(goalStates, col, gridSize.row, n);
        col := col + 1;
      }
    }
  }

  /** One row of the horizontal scan of `generate_goal_states`: for each
      start column, push the run and then its reverse. */
  method PushRowGoals(goals: seq<seq<Position>>, row: int, cols: int, n: nat) returns (goalStates: seq<seq<Position>>)
    ensures goalStates == goals + RowGoals(row, n, Starts(cols, n))
  {
    goalStates := goals;
    var col := 0;
    while col <= cols - n
      invariant 0 <= col <= Starts(cols, n)
      invariant goalStates == goals + RowGoals(row, n, col)
    {
      var goalState := [];
      for i := 0 to n
        invariant goalState == HRun(row, col, i)
      {
        goalState := goalState + [Position(row, col + i)];
      }
      goalStates := goalStates + [goalState];
      goalState := Reverse(goalState);
      goalStates := goalStates + [goalState];
      col := col + 1;
    }
  }

  /** One column of the vertical scan of `generate_goal_states`. */
  method PushColumnGoals(goals: seq<seq<Position>>, col: int, rows: int, n: nat) returns (goalStates: seq<seq<Position>>)
    ensures goalStates == goals + ColGoals(col, n, Starts(rows, n))
  {
    goalStates := goals;
    var row := 0;
    while row <= rows - n
      invariant 0 <= row <= Starts(rows, n)
      invariant goalStates == goals + ColGoals(col, n, row)
    {
      var goalState := [];
      for i := 0 to n
        invariant goalState == VRun(row, col, i)
      {
        goalState := goalState + [Position(row + i, col)];
      }
      goalStates := goalStates + [goalState];
      goalState := Reverse(goalState);
      goalStates := goalStates + [goalState];
      row := row + 1;
    }
  }

  /** `calculate_possible_positions`: the same scan as the goal enumeration,
      adding 2 for each run with no wall on it. */
  method CalculatePossiblePositions(state: GameState) returns (count: int)
    ensures count == CountWallFree(state.walls, GoalPlacements(state.gridSize.row, state.gridSize.col, |state.words|))
  {
    var n := |state.words|;
    var walls, rows, cols := state.walls, state.gridSize.row, state.gridSize.col;
    count := 0;
    var row := 0;
    while row < rows
      invariant 0 <= row <= Count(rows)
      invariant count == CountWallFree(walls, HorizontalGoals(row, cols, n))
    {
      HorizontalCountStep(walls, row, cols, n);
      count := CountRowRuns(walls, count, row, cols, n);
      row := row + 1;
    }
    ghost var horizontal := CountWallFree(walls, HorizontalGoals(Count(rows), cols, n));
    var col := 0;
    while col < cols
      invariant 0 <= col <= Count(cols)
      invariant count == horizontal + CountWallFree(walls, VerticalGoals(col, rows, n))
    {
      VerticalCountStep(walls, col, rows, n);
      count := CountColumnRuns(walls, count, col, rows, n);
      col := col + 1;
    }
    CountWallFreeConcat(walls, HorizontalGoals(Count(rows), cols, n), VerticalGoals(Count(cols), rows, n));
  }

  /** One row of the horizontal scan of `calculate_possible_positions`:
      add 2 to `count` for each wall-free run of the row. */
  method CountRowRuns(walls: seq<Position>, count: int, row: int, cols: int, n: nat) returns (total: int)
    ensures total == count + CountWallFree(walls, RowGoals(row, n, Starts(cols, n)))
  {
    total := count;
    var col := 0;
    while col <= cols - n
      invariant 0 <= col <= Starts(cols, n)
      invariant total == count + CountWallFree(walls, RowGoals(row, n, col))
    {
      RowGoalsCountStep(walls, row, n, col);
      var valid := RunHasNoWall(walls, HRun(row, col, n));
      if valid {
        total := total + 2;
      }
      col := col + 1;
    }
  }

  /** One column of the vertical scan of `calculate_possible_positions`. */
  method CountColumnRuns(walls: seq<Position>, count: int, col: int, rows: int, n: nat) returns (total: int)
    ensures total == count + CountWallFree(walls, ColGoals(col, n, Starts(rows, n)))
  {
    total := count;
    var row := 0;
    while row <= rows - n
      invariant 0 <= row <= Starts(rows, n)
      invariant total == count + CountWallFree(walls, ColGoals(col, n, row))
    {
      ColGoalsCountStep(walls, col, n, row);
      var valid := RunHasNoWall(walls, VRun(row, col, n));
      if valid {
        total := total + 2;
      }
      row := row + 1;
    }
  }

  /** The inner loop of `calculate_possible_positions`: `is_wall` on each
      cell of the run, stopping at the first wall. */
  method RunHasNoWall(walls: seq<Position>, run: seq<Position>) returns (valid: bool)
    ensures valid == WallFree(walls, run)
  {
    valid := true;
    var i := 0;
    while i < |run|
      invariant 0 <= i <= |run|
      invariant valid <==> forall j :: 0 <= j < i ==> !IsWall(walls, run[j])
    {
      if IsWall(walls, run[i]) {
        valid := false;
        break;
      }
      i := i + 1;
    }
  }

  lemma HorizontalCountStep(walls: seq<Position>, row: nat, cols: int, n: nat)
    ensures CountWallFree(walls, HorizontalGoals(row + 1, cols, n))
            == CountWallFree(walls, HorizontalGoals(row, cols, n)) + CountWallFree(walls, RowGoals(row, n, Starts(cols, n)))
  {
    CountWallFreeConcat(walls, HorizontalGoals(row, cols, n), RowGoals(row, n, Starts(cols, n)));
  }

  lemma VerticalCountStep(walls: seq<Position>, col: nat, rows: int, n: nat)
    ensures CountWallFree(walls, VerticalGoals(col + 1, rows, n))
            == CountWallFree(walls, VerticalGoals(col, rows, n)) + CountWallFree(walls, ColGoals(col, n, Starts(rows, n)))
  {
    CountWallFreeConcat(walls, VerticalGoals(col, rows, n), ColGoals(col, n, Starts(rows, n)));
  }

  lemma RowGoalsCountStep(walls: seq<Position>, row: int, n: nat, col: nat)
    ensures CountWallFree(walls, RowGoals(row, n, col + 1))
            == CountWallFree(walls, RowGoals(row, n, col)) + (if WallFree(walls, HRun(row, col, n)) then 2 else 0)
  {
    WallFreePairCount(walls, RowGoals(row, n, col), HRun(row, col, n));
  }

  lemma ColGoalsCountStep(walls: seq<Position>, col: int, n: nat, row: nat)
    ensures CountWallFree(walls, ColGoals(col, n, row + 1))
            == CountWallFree(walls, ColGoals(col, n, row)) + (if WallFree(walls, VRun(row, col, n)) then 2 else 0)
  {
    WallFreePairCount(walls, ColGoals(col, n, row), VRun(row, col, n));
  }

  /** Appending a run and its reverse adds 2 to the wall-free count when
      the run is wall-free and 0 otherwise. */
  lemma WallFreePairCount(walls: seq<Position>, g: seq<seq<Position>>, run: seq<Position>)
    ensures CountWallFree(walls, g + [run, Reverse(run)])
            == CountWallFree(walls, g) + (if WallFree(walls, run) then 2 else 0)
  {
    var h := g + [run, Reverse(run)];
    assert h[..|h| - 1] == g + [run];
    assert (g + [run])[..|g|] == g;
    WallFreeReverse(walls, run);
  }
}
