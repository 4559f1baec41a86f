/** `solve_game`: the breadth-first search over word positions. The
    registries of visited states are sets of position sequences, the queues
    are sequences, and a queued state is its word positions together with
    the moves that produced it (the other fields of every queued
    `GameState` are those of the initial state). */
module Search {
  import opened Seqs
  import opened Grid
  import opened Goals
  import opened Sentence
  import opened Solved
  import opened GameStates

  /** Paths longer than this are dropped when dequeued. */
  const MAX_PATH_LENGTH: int := 59
  /** The iteration budget of the search loop. */
  const MAX_PATHS_TRAVERSED: int := 10000000

  /** A queued state: word positions and the path that led to them. */
  datatype Entry = Entry(positions: seq<Position>, path: seq<Step>)

  /** A move the search can make: an existing word and a named direction. */
  predicate ValidStep(s: Step, n: int) {
    0 <= s.wordIndex < n && s.direction in DIRECTIONS
  }

  predicate ValidPath(path: seq<Step>, n: int) {
    forall k :: 0 <= k < |path| ==> ValidStep(path[k], n)
  }

  /** The word positions after the move `s`. */
  function MoveBy(walls: seq<Position>, gridSize: Position, positions: seq<Position>, s: Step): (r: seq<Position>)
    requires ValidStep(s, |positions|)
    ensures |r| == |positions|
  {
    Move(walls, gridSize, positions, s.wordIndex, Delta(s.direction))
  }

  /** The word positions reached by making the moves of `path` in order,
      each one a `move_word` call. */
  function Replay(walls: seq<Position>, gridSize: Position, start: seq<Position>, path: seq<Step>): (r: seq<Position>)
    requires ValidPath(path, |start|)
    ensures |r| == |start|
    decreases |path|
  {
    if path == [] then start
    else MoveBy(walls, gridSize, Replay(walls, gridSize, start, path[..|path| - 1]), path[|path| - 1])
  }

  /** `e` is reached from `start` by replaying its path. */
  predicate Reaches(walls: seq<Position>, gridSize: Position, start: seq<Position>, e: Entry) {
    ValidPath(e.path, |start|) && Replay(walls, gridSize, start, e.path) == e.positions
  }

  /** `e` is one move away from the state `cur` reached by `path`: its path
      extends `path` by that move and its positions are the result. */
  predicate Successor(walls: seq<Position>, gridSize: Position, cur: seq<Position>, path: seq<Step>, e: Entry) {
    && |e.path| == |path| + 1
    && e.path[..|path|] == path
    && ValidStep(e.path[|path|], |cur|)
    && e.positions == MoveBy(walls, gridSize, cur, e.path[|path|])
  }

  function Positions(q: seq<Entry>): (r: seq<seq<Position>>)
    ensures |r| == |q|
    ensures forall k :: 0 <= k < |q| ==> r[k] == q[k].positions
  {
    seq(|q|, k requires 0 <= k < |q| => q[k].positions)
  }

  /** The effect of expanding `cur`: the queue grows by successors of
      `cur` that were not visited, no two alike, and exactly their
      positions join the visited set. */
  predicate Extends(walls: seq<Position>, gridSize: Position, cur: seq<Position>, path: seq<Step>,
                    visited: set<seq<Position>>, queue: seq<Entry>,
                    visited': set<seq<Position>>, queue': seq<Entry>)
  {
    && |queue| <= |queue'|
    && queue'[..|queue|] == queue
    && Distinct(Positions(queue'[|queue|..]))
    && visited' == visited + Elems(Positions(queue'[|queue|..]))
    && (forall k :: |queue| <= k < |queue'| ==>
          queue'[k].positions !in visited && Successor(walls, gridSize, cur, path, queue'[k]))
  }

  /** Replaying one more move is one more `move_word` call. */
  lemma ReplayExtend(walls: seq<Position>, gridSize: Position, start: seq<Position>, path: seq<Step>, s: Step)
    requires ValidPath(path, |start|) && ValidStep(s, |start|)
    ensures ValidPath(path + [s], |start|)
    ensures Replay(walls, gridSize, start, path + [s]) == MoveBy(walls, gridSize, Replay(walls, gridSize, start, path), s)
  {
    assert (path + [s])[..|path|] == path;
  }

  /** A successor of a reached state is reached by the extended path. */
  lemma SuccessorReaches(walls: seq<Position>, gridSize: Position, start: seq<Position>,
                         cur: seq<Position>, path: seq<Step>, e: Entry)
    requires Reaches(walls, gridSize, start, Entry(cur, path))
    requires Successor(walls, gridSize, cur, path, e)
    ensures Reaches(walls, gridSize, start, e)
  {
    var s := e.path[|path|];
    assert e.path == path + [s];
    ReplayExtend(walls, gridSize, start, path, s);
  }

  /** Words in the grid, off the walls and pairwise apart stay so along
      any replayed path. */
  lemma {:induction false} ReplayKeepsPlacement(walls: seq<Position>, gridSize: Position, start: seq<Position>, path: seq<Step>)
    requires ValidPath(path, |start|)
    requires Distinct(start)
    requires forall i :: 0 <= i < |start| ==> !IsOutOfBounds(gridSize, start[i]) && !IsWall(walls, start[i])
    ensures var r := Replay(walls, gridSize, start, path);
            && Distinct(r)
            && forall i :: 0 <= i < |r| ==> !IsOutOfBounds(gridSize, r[i]) && !IsWall(walls, r[i])
  {
    if path != [] {
      var prefix := path[..|path| - 1];
      var s := path[|path| - 1];
      ReplayKeepsPlacement(walls, gridSize, start, prefix);
      var before := Replay(walls, gridSize, start, prefix);
      SlideResult(walls, gridSize, before, s.wordIndex, Delta(s.direction));
    }
  }

  /** Expansion results compose: two successive batches of successors of
      the same state form one batch. */
  lemma ExtendsTrans(walls: seq<Position>, gridSize: Position, cur: seq<Position>, path: seq<Step>,
                     v0: set<seq<Position>>, q0: seq<Entry>,
                     v1: set<seq<Position>>, q1: seq<Entry>,
                     v2: set<seq<Position>>, q2: seq<Entry>)
    requires Extends(walls, gridSize, cur, path, v0, q0, v1, q1)
    requires Extends(walls, gridSize, cur, path, v1, q1, v2, q2)
    ensures Extends(walls, gridSize, cur, path, v0, q0, v2, q2)
  {
    var a := Positions(q1[|q0|..]);
    var b := Positions(q2[|q1|..]);
    assert Positions(q2[|q0|..]) == a + b;
    forall x | x in b ensures x !in Elems(a) {
      var k :| 0 <= k < |b| && b[k] == x;
      assert q2[|q1| + k].positions == x;
    }
    DistinctAppend(a, b);
    forall k | |q0| <= k < |q2| ensures q2[k].positions !in v0 {
      if k >= |q1| {
        assert q2[k].positions !in v1;
      } else {
        assert q2[k] == q1[k];
      }
    }
  }

  /** Nothing pushed is an expansion. */
  lemma ExtendsNothing(walls: seq<Position>, gridSize: Position, cur: seq<Position>, path: seq<Step>,
                       visited: set<seq<Position>>, queue: seq<Entry>)
    ensures Extends(walls, gridSize, cur, path, visited, queue, visited, queue)
  {
    assert queue[|queue|..] == [];
    assert Elems(Positions(queue[|queue|..])) == {};
  }

  /** The forward search's bookkeeping: every queued state is reached
      from `start` by its path, which is at most one move over the length
      limit; `pushed` lists, in order, every state ever queued, with no
      repeats; the visited set is exactly those states; and the queue holds
      the most recently pushed ones, in order. */
  ghost predicate Queued(walls: seq<Position>, gridSize: Position, start: seq<Position>,
                         queue: seq<Entry>, visited: set<seq<Position>>, pushed: seq<seq<Position>>)
  {
    && (forall k :: 0 <= k < |queue| ==>
          Reaches(walls, gridSize, start, queue[k]) && |queue[k].path| <= MAX_PATH_LENGTH + 1)
    && Distinct(pushed)
    && visited == Elems(pushed)
    && |queue| <= |pushed|
    && Positions(queue) == pushed[|pushed| - |queue|..]
  }

  lemma QueuedStart(walls: seq<Position>, gridSize: Position, start: seq<Position>)
    ensures Queued(walls, gridSize, start, [Entry(start, [])], {start}, [start])
  {
    var q := [Entry(start, [])];
    assert Reaches(walls, gridSize, start, q[0]);
    assert Positions(q) == [start] == [start][0..];
    assert Elems([start]) == {start};
  }

  lemma QueuedPop(walls: seq<Position>, gridSize: Position, start: seq<Position>,
                  queue: seq<Entry>, visited: set<seq<Position>>, pushed: seq<seq<Position>>)
    requires Queued(walls, gridSize, start, queue, visited, pushed)
    requires |queue| > 0
    ensures Reaches(walls, gridSize, start, queue[0])
    ensures Queued(walls, gridSize, start, queue[1..], visited, pushed)
  {
    var q := queue[1..];
    assert Positions(q) == Positions(queue)[1..];
  }

  /** The successors queued by an expansion of a reached state are
      reached, within one move of the length limit. */
  lemma ExpandReaches(walls: seq<Position>, gridSize: Position, start: seq<Position>,
                      cur: seq<Position>, path: seq<Step>,
                      queue: seq<Entry>, visited: set<seq<Position>>,
                      queue': seq<Entry>, visited': set<seq<Position>>)
    requires forall k :: 0 <= k < |queue| ==>
               Reaches(walls, gridSize, start, queue[k]) && |queue[k].path| <= MAX_PATH_LENGTH + 1
    requires Reaches(walls, gridSize, start, Entry(cur, path)) && |path| <= MAX_PATH_LENGTH
    requires Extends(walls, gridSize, cur, path, visited, queue, visited', queue')
    ensures forall k :: 0 <= k < |queue'| ==>
              Reaches(walls, gridSize, start, queue'[k]) && |queue'[k].path| <= MAX_PATH_LENGTH + 1
  {
    forall k | 0 <= k < |queue'|
      ensures Reaches(walls, gridSize, start, queue'[k]) && |queue'[k].path| <= MAX_PATH_LENGTH + 1
    {
      if k >= |queue| {
        SuccessorReaches(walls, gridSize, start, cur, path, queue'[k]);
      } else {
        assert queue'[k] == queue[k];
      }
    }
  }

  /** The states queued by an expansion extend the push history without
      repeats, and the visited set stays the set of pushed states. */
  lemma ExpandPushes(walls: seq<Position>, gridSize: Position, cur: seq<Position>, path: seq<Step>,
                     queue: seq<Entry>, visited: set<seq<Position>>, pushed: seq<seq<Position>>,
                     queue': seq<Entry>, visited': set<seq<Position>>)
    requires Distinct(pushed) && visited == Elems(pushed)
    requires |queue| <= |pushed| && Positions(queue) == pushed[|pushed| - |queue|..]
    requires Extends(walls, gridSize, cur, path, visited, queue, visited', queue')
    ensures var pushed' := pushed + Positions(queue'[|queue|..]);
            && Distinct(pushed') && visited' == Elems(pushed')
            && |queue'| <= |pushed'| && Positions(queue') == pushed'[|pushed'| - |queue'|..]
  {
    var added := Positions(queue'[|queue|..]);
    forall x | x in added ensures x !in Elems(pushed) {
      var k :| 0 <= k < |added| && added[k] == x;
      assert queue'[|queue| + k].positions == x;
    }
    DistinctAppend(pushed, added);
    assert Positions(queue') == Positions(queue) + added;
  }

  /** Expanding a dequeued state that is within the length limit keeps the
      bookkeeping, with the newly queued states appended to `pushed`. */
  lemma QueuedExpand(walls: seq<Position>, gridSize: Position, start: seq<Position>,
                     cur: seq<Position>, path: seq<Step>,
                     queue: seq<Entry>, visited: set<seq<Position>>, pushed: seq<seq<Position>>,
                     queue': seq<Entry>, visited': set<seq<Position>>)
    requires Queued(walls, gridSize, start, queue, visited, pushed)
    requires Reaches(walls, gridSize, start, Entry(cur, path)) && |path| <= MAX_PATH_LENGTH
    requires Extends(walls, gridSize, cur, path, visited, queue, visited', queue')
    ensures Queued(walls, gridSize, start, queue', visited', pushed + Positions(queue'[|queue|..]))
  {
    ExpandReaches(walls, gridSize, start, cur, path, queue, visited, queue', visited');
    ExpandPushes(walls, gridSize, cur, path, queue, visited, pushed, queue', visited');
  }

  /** One step of the inner loop of `solve_game`: copy the state, slide the
      word, and queue the result with the extended path unless its word
      positions were already visited. */
  method TryStep(initial: GameState, cur: seq<Position>, path: seq<Step>, step: Step,
                 visited: set<seq<Position>>, queue: seq<Entry>)
    returns (visited': set<seq<Position>>, queue': seq<Entry>)
    requires ValidStep(step, |cur|)
    ensures Extends(initial.walls, initial.gridSize, cur, path, visited, queue, visited', queue')
    ensures MoveBy(initial.walls, initial.gridSize, cur, step) in visited'
    ensures var r := MoveBy(initial.walls, initial.gridSize, cur, step);
            if r in visited then visited' == visited && queue' == queue
            else visited' == visited + {r} && queue' == queue + [Entry(r, path + [step])]
  {
    var newState := new GameState.Copy(initial, cur);
    newState.MoveWord(step.wordIndex, DIRECTIONS[step.direction]);
    var positions := newState.wordPositions;
    if positions !in visited {
      visited' := visited + {positions};
      var newPath := path + [step];
      queue' := queue + [Entry(positions, newPath)];
      assert queue'[|queue|..] == [Entry(positions, newPath)];
      assert Positions(queue'[|queue|..]) == [positions];
      assert Elems(Positions(queue'[|queue|..])) == {positions};
      assert newPath[..|path|] == path;
    } else {
      visited', queue' := visited, queue;
      ExtendsNothing(initial.walls, initial.gridSize, cur, path, visited, queue);
    }
  }

  /** The loop over `DIRECTIONS` for one word. The map is unordered, so a
      direction is picked from those not yet tried, in no particular order. */
  method ExpandWord(initial: GameState, cur: seq<Position>, path: seq<Step>, wordIndex: int,
                    visited: set<seq<Position>>, queue: seq<Entry>)
    returns (visited': set<seq<Position>>, queue': seq<Entry>)
    requires 0 <= wordIndex < |cur|
    ensures Extends(initial.walls, initial.gridSize, cur, path, visited, queue, visited', queue')
    ensures forall name :: name in DIRECTIONS ==>
              MoveBy(initial.walls, initial.gridSize, cur, Step(wordIndex, name)) in visited'
    ensures forall k :: |queue| <= k < |queue'| ==> queue'[k].path[|path|].wordIndex == wordIndex
  {
    visited', queue' := visited, queue;
    ExtendsNothing(initial.walls, initial.gridSize, cur, path, visited, queue);
    var remaining := DIRECTIONS.Keys;
    while remaining != {}
      invariant remaining <= DIRECTIONS.Keys
      invariant Extends(initial.walls, initial.gridSize, cur, path, visited, queue, visited', queue')
      invariant forall name :: name in DIRECTIONS && name !in remaining ==>
                  MoveBy(initial.walls, initial.gridSize, cur, Step(wordIndex, name)) in visited'
      invariant forall k :: |queue| <= k < |queue'| ==> queue'[k].path[|path|].wordIndex == wordIndex
      decreases |remaining|
    {
      var name :| name in remaining;
      var v, q := TryStep(initial, cur, path, Step(wordIndex, name), visited', queue');
      ExtendsTrans(initial.walls, initial.gridSize, cur, path, visited, queue, visited', queue', v, q);
      assert visited' <= v;
      visited', queue' := v, q;
      remaining := remaining - {name};
    }
  }

  /** The expansion of `solve_game`: every word in every direction. Each
      successor ends up visited, and the unvisited ones are queued once. */
  method Expand(initial: GameState, cur: seq<Position>, path: seq<Step>,
                visited: set<seq<Position>>, queue: seq<Entry>)
    returns (visited': set<seq<Position>>, queue': seq<Entry>)
    ensures Extends(initial.walls, initial.gridSize, cur, path, visited, queue, visited', queue')
    ensures forall i, name :: 0 <= i < |cur| && name in DIRECTIONS ==>
              MoveBy(initial.walls, initial.gridSize, cur, Step(i, name)) in visited'
  {
    visited', queue' := visited, queue;
    ExtendsNothing(initial.walls, initial.gridSize, cur, path, visited, queue);
    for wordIndex := 0 to |cur|
      invariant visited <= visited'
      invariant Extends(initial.walls, initial.gridSize, cur, path, visited, queue, visited', queue')
      invariant forall i, name :: 0 <= i < wordIndex && name in DIRECTIONS ==>
                  MoveBy(initial.walls, initial.gridSize, cur, Step(i, name)) in visited'
    {
      var v, q := ExpandWord(initial, cur, path, wordIndex, visited', queue');
      ExtendsTrans(initial.walls, initial.gridSize, cur, path, visited, queue, visited', queue', v, q);
      SuccessorsStayVisited(initial.walls, initial.gridSize, cur, wordIndex, visited', v);
      visited', queue' := v, q;
    }
  }

  /** The successors by the first `wordIndex` words stay visited as the set
      grows, and those by word `wordIndex` have just been added. */
  lemma SuccessorsStayVisited(walls: seq<Position>, gridSize: Position, cur: seq<Position>, wordIndex: nat,
                              visited: set<seq<Position>>, visited': set<seq<Position>>)
    requires wordIndex < |cur|
    requires forall i, name :: 0 <= i < wordIndex && name in DIRECTIONS ==>
               MoveBy(walls, gridSize, cur, Step(i, name)) in visited
    requires forall name :: name in DIRECTIONS ==>
               MoveBy(walls, gridSize, cur, Step(wordIndex, name)) in visited'
    requires visited <= visited'
    ensures forall i, name :: 0 <= i < wordIndex + 1 && name in DIRECTIONS ==>
              MoveBy(walls, gridSize, cur, Step(i, name)) in visited'
  {
  }

  /** `solve_game`. The result path is at most `MAX_PATH_LENGTH` moves of
      existing words in named directions, and when it is non-empty its
      replay from the initial positions is a goal placement; an initial
      state that is already a goal placement gives the empty path after one
      iteration; no goal placements means no iteration at all. */
  method SolveGame(initial: GameState) returns (path: seq<Step>, traversed: int)
    ensures 0 <= traversed <= MAX_PATHS_TRAVERSED
    ensures |path| <= MAX_PATH_LENGTH
    ensures ValidPath(path, |initial.wordPositions|)
    ensures path != [] ==>
              Replay(initial.walls, initial.gridSize, initial.wordPositions, path)
              in GoalPlacements(initial.gridSize.row, initial.gridSize.col, |initial.words|)
    ensures initial.wordPositions in GoalPlacements(initial.gridSize.row, initial.gridSize.col, |initial.words|) ==>
              path == [] && traversed == 1
    ensures GoalPlacements(initial.gridSize.row, initial.gridSize.col, |initial.words|) == [] ==>
              path == [] && traversed == 0
  {
    var walls, gridSize, start := initial.walls, initial.gridSize, initial.wordPositions;
    var forwardQueue := [Entry(start, [])];
    var forwardVisited := {start};
    ghost var pushed := [start];
    QueuedStart(walls, gridSize, start);

    var goalStates := initial.GenerateGoalStates();
    var backwardQueue: seq<Entry> := [];
    var backwardVisited: set<seq<Position>> := {};
    for k := 0 to |goalStates|
      invariant |backwardQueue| == k
      invariant backwardVisited == Elems(goalStates[..k])
    {
      assert goalStates[..k + 1] == goalStates[..k] + [goalStates[k]];
      backwardQueue := backwardQueue + [Entry(goalStates[k], [])];
      backwardVisited := backwardVisited + {goalStates[k]};
    }
    assert goalStates[..|goalStates|] == goalStates;

    traversed := 0;
    var forward := true;
    while |forwardQueue| > 0 && |backwardQueue| > 0 && traversed < MAX_PATHS_TRAVERSED
      invariant 0 <= traversed <= MAX_PATHS_TRAVERSED
      invariant forward
      invariant |backwardQueue| == |goalStates|
      invariant backwardVisited == Elems(goalStates)
      invariant goalStates == [] ==> traversed == 0
      invariant traversed == 0 ==> forwardQueue == [Entry(start, [])]
      invariant traversed > 0 ==> start !in backwardVisited
      invariant Queued(walls, gridSize, start, forwardQueue, forwardVisited, pushed)
      decreases MAX_PATHS_TRAVERSED - traversed
    {
      traversed := traversed + 1;
      var current: seq<Position> := [];
      var currentPath: seq<Step> := [];
      if |forwardQueue| > 0 {
        QueuedPop(walls, gridSize, start, forwardQueue, forwardVisited, pushed);
        current, currentPath := forwardQueue[0].positions, forwardQueue[0].path;
        forwardQueue := forwardQueue[1..];
      } else {
        // The loop guard keeps the forward queue non-empty: the backward
        // queue is never dequeued and `forward` stays true.
        assert false;
      }

      if |currentPath| > MAX_PATH_LENGTH {
        continue;
      }

      if forward {
        if current in backwardVisited {
          return currentPath, traversed;
        }
      } else {
        assert false;
      }

      ghost var before, visitedBefore := forwardQueue, forwardVisited;
      forwardVisited, forwardQueue := Expand(initial, current, currentPath, forwardVisited, forwardQueue);
      QueuedExpand(walls, gridSize, start, current, currentPath, before, visitedBefore, pushed, forwardQueue, forwardVisited);
      pushed := pushed + Positions(forwardQueue[|before|..]);
    }
    return [], traversed;
  }

  /** A goal placement is a run of `n` cells along a row or a column. */
  lemma GoalIsLineRun(rows: int, cols: int, n: nat, positions: seq<Position>)
    requires positions in GoalPlacements(rows, cols, n)
    ensures |positions| == n && IsLineRun(rows, cols, n, positions)
  {
    GoalShape(rows, cols, n);
    var k :| 0 <= k < |GoalPlacements(rows, cols, n)| && GoalPlacements(rows, cols, n)[k] == positions;
  }

  /** Every goal placement of a list of words passes the `is_solved` test
      against the words joined by single spaces and against the reversed
      list joined the same way. */
  lemma GoalIsSolved(words: seq<string>, gridSize: Position, positions: seq<Position>)
    requires |words| >= 1
    requires forall i :: 0 <= i < |words| ==> IsWord(words[i])
    requires positions in GoalPlacements(gridSize.row, gridSize.col, |words|)
    ensures |positions| == |words|
    ensures IsSolvedState(positions, words, gridSize, Join(words), Join(Reverse(words)))
  {
    var n := |words|;
    var rows, cols := gridSize.row, gridSize.col;
    GoalIsLineRun(rows, cols, n, positions);
    ReversedWordsOfJoin(words);
    if exists r, c :: 0 <= r < rows && 0 <= c && c + n <= cols && (positions == HRun(r, c, n) || positions == Reverse(HRun(r, c, n))) {
      var r, c :| 0 <= r < rows && 0 <= c && c + n <= cols && (positions == HRun(r, c, n) || positions == Reverse(HRun(r, c, n)));
      HorizontalPlacementIsSolved(positions, words, gridSize, r, c);
    } else {
      var r, c :| 0 <= c < cols && 0 <= r && r + n <= rows && (positions == VRun(r, c, n) || positions == Reverse(VRun(r, c, n)));
      VerticalPlacementIsSolved(positions, words, gridSize, r, c);
    }
  }

  /** The same for a level's sentence: its goal placements pass `is_solved`
      with the level's reversed target, and with the sentence itself as the
      target when it is written with single spaces. */
  lemma GoalPlacementIsSolved(sentence: string, gridSize: Position, positions: seq<Position>)
    requires |Split(sentence)| >= 1
    requires positions in GoalPlacements(gridSize.row, gridSize.col, |Split(sentence)|)
    ensures |positions| == |Split(sentence)|
    ensures IsSolvedState(positions, Split(sentence), gridSize, Join(Split(sentence)), ReversedWords(sentence))
    ensures Join(Split(sentence)) == sentence ==>
              IsSolvedState(positions, Split(sentence), gridSize, sentence, ReversedWords(sentence))
  {
    GoalIsSolved(Split(sentence), gridSize, positions);
  }
}
