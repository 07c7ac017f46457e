/** Grid helpers and simple strategies of the snake AI (ai.py): neighbours,
    the grid shortest path, the flood-fill distance and navigation score,
    the largest free area of 2x2 blocks, and three direction choosers. */
module Ai {
  import opened Common
  import opened Game
  import opened Search

  // ---------------------------------------------------------------------
  // adjacent

  /** `pos + d` for each of the four directions, in `VALID_DIRECTIONS` order. */
  function Neighbours(position: Point): (r: seq<Point>)
    ensures |r| == 4
    ensures forall i :: 0 <= i < 4 ==> r[i] == Shift(position, ValidDirections[i])
  {
    [Shift(position, North), Shift(position, South), Shift(position, West), Shift(position, East)]
  }

  /** The cells of `cs` on the board, in order. */
  function OnBoard(width: int, height: int, cs: seq<Point>): (r: seq<Point>)
  {
    if |cs| == 0 then []
    else if InBounds(cs[0], [width, height]) then [cs[0]] + OnBoard(width, height, cs[1..])
    else OnBoard(width, height, cs[1..])
  }

  lemma {:induction false} OnBoardMembers(width: int, height: int, cs: seq<Point>)
    ensures forall c :: c in OnBoard(width, height, cs) <==> c in cs && InBounds(c, [width, height])
    ensures |OnBoard(width, height, cs)| <= |cs|
  {
    if |cs| > 0 {
      OnBoardMembers(width, height, cs[1..]);
      assert cs == [cs[0]] + cs[1..];
    }
  }

  /** `adjacent`: the on-board cells among the four neighbours, in direction order. */
  function Adjacent(width: int, height: int, position: Point): seq<Point>
  {
    OnBoard(width, height, Neighbours(position))
  }

  /** The four neighbours are exactly the cells one step away. */
  lemma NeighbourIff(position: Point, c: Point)
    ensures c in Neighbours(position) <==> GridDistance(position, c) == 1
  {
    GridDistance2(position, c);
    assert c == [c[0], c[1]];
    var n := Neighbours(position);
    assert n == [[position[0], position[1] - 1], [position[0], position[1] + 1],
                 [position[0] - 1, position[1]], [position[0] + 1, position[1]]];
  }

  /** A cell is adjacent exactly when it is on the board and one step away;
      there are at most four. */
  lemma AdjacentCells(width: int, height: int, position: Point, c: Point)
    ensures c in Adjacent(width, height, position) <==>
      InBounds(c, [width, height]) && GridDistance(position, c) == 1
    ensures |Adjacent(width, height, position)| <= 4
  {
    OnBoardMembers(width, height, Neighbours(position));
    NeighbourIff(position, c);
  }

  // ---------------------------------------------------------------------
  // shortest_path

  /** `apply_move` of `shortest_path`: the move is added to the position. */
  function Step(position: Point, move: Point): Option<Point>
  {
    Some(Shift(position, move))
  }

  /** Where the moves lead from `start`. */
  function Position(start: Point, moves: seq<Point>): Point
    decreases |moves|
  {
    if |moves| == 0 then start else Position(Shift(start, moves[0]), moves[1..])
  }

  /** Replaying moves with `Step` never fails and ends at their position. */
  lemma {:induction false} ReplayStep(start: Point, moves: seq<Point>)
    ensures Replay(Step, start, moves) == Some(Position(start, moves))
    decreases |moves|
  {
    if |moves| > 0 {
      ReplayStep(Shift(start, moves[0]), moves[1..]);
    }
  }

  lemma {:induction false} PositionSnoc(start: Point, moves: seq<Point>, m: Point)
    ensures Position(start, moves + [m]) == Shift(Position(start, moves), m)
    decreases |moves|
  {
    if |moves| > 0 {
      assert (moves + [m])[1..] == moves[1..] + [m];
      PositionSnoc(Shift(start, moves[0]), moves[1..], m);
    }
  }

  /** The cells of `cs` neither checked nor blocked, in order. */
  function Unchecked(cs: seq<Point>, checked: set<Point>, blocked: set<Point>): seq<Point>
  {
    if |cs| == 0 then []
    else if cs[0] !in checked && cs[0] !in blocked then [cs[0]] + Unchecked(cs[1..], checked, blocked)
    else Unchecked(cs[1..], checked, blocked)
  }

  lemma {:induction false} UncheckedMembers(cs: seq<Point>, checked: set<Point>, blocked: set<Point>)
    ensures forall c :: c in Unchecked(cs, checked, blocked) <==> c in cs && c !in checked && c !in blocked
  {
    if |cs| > 0 {
      UncheckedMembers(cs[1..], checked, blocked);
      assert cs == [cs[0]] + cs[1..];
    }
  }

  /** `subtract_elements(x, position)` for each cell. */
  function Offsets(cs: seq<Point>, position: Point): (r: seq<Point>)
    ensures |r| == |cs| && forall i :: 0 <= i < |cs| ==> r[i] == Diff(cs[i], position)
  {
    seq(|cs|, i requires 0 <= i < |cs| => Diff(cs[i], position))
  }

  /** `list_moves` of `shortest_path`, with the `checked` set it updates made
      explicit: the adjacent cells neither checked nor blocked are marked
      checked and offered as moves. */
  function ListMoves(width: int, height: int, blocked: set<Point>, checked: set<Point>, position: Point)
    : (set<Point>, seq<Point>)
  {
    var possible := Unchecked(Adjacent(width, height, position), checked, blocked);
    (checked + Elements(possible), Offsets(possible, position))
  }

  /** An offered move is a unit step to an unchecked, unblocked cell on the board. */
  lemma ListedMove(width: int, height: int, blocked: set<Point>, checked: set<Point>, position: Point, m: Point)
    requires m in ListMoves(width, height, blocked, checked, position).1
    ensures m in ValidDirections
    ensures InBounds(Shift(position, m), [width, height])
    ensures Shift(position, m) !in blocked && Shift(position, m) !in checked
  {
    var possible := Unchecked(Adjacent(width, height, position), checked, blocked);
    UncheckedMembers(Adjacent(width, height, position), checked, blocked);
    var i :| 0 <= i < |possible| && Offsets(possible, position)[i] == m;
    var c := possible[i];
    assert m == Diff(c, position);
    assert Shift(position, m) == c by {
      assert c == [c[0], c[1]];
    }
    AdjacentCells(width, height, position, c);
    GridDistance2(position, c);
    ValidDirectionsAreUnitSteps(m);
    assert SumAbs(m) == Abs(m[0]) + Abs(m[1]) by {
      assert m[1..][1..] == [];
    }
  }

  /** A cell a path of `shortest_path` may enter: on the board, and not
      blocked unless it is the start or the end. */
  predicate Enterable(width: int, height: int, start: Point, end: Point, blocked: seq<Point>, c: Point)
  {
    InBounds(c, [width, height]) && (c in blocked ==> c == start || c == end)
  }

  /** A move offered at the `k`-th position of a path enters a cell the
      path may enter. */
  lemma PathStep(width: int, height: int, start: Point, end: Point, blocked: seq<Point>,
                 moves: seq<Point>, k: nat, checked: set<Point>)
    requires k < |moves|
    requires moves[k] in ListMoves(width, height, Elements(blocked) - {start, end}, checked, Position(start, moves[..k])).1
    ensures moves[k] in ValidDirections
    ensures Enterable(width, height, start, end, blocked, Position(start, moves[..k + 1]))
  {
    ListedMove(width, height, Elements(blocked) - {start, end}, checked, Position(start, moves[..k]), moves[k]);
    assert moves[..k + 1] == moves[..k] + [moves[k]];
    PositionSnoc(start, moves[..k], moves[k]);
  }

  /** `shortest_path`: A* over positions from `start` to `end`, never
      entering a cell of `blocked` other than `start` and `end`. A cell is
      offered as a target only until it has been offered once. `fuel`
      bounds the number of expansions, which the source leaves unbounded. */
  method ShortestPath(width: int, height: int, start: Point, end: Point, blocked: seq<Point>, fuel: nat)
    returns (r: SearchResult<seq<Point>>)
    ensures r.Found? ==> |r.value| > 0 && Position(start, r.value) == end
    ensures r.Found? ==> forall k :: 0 <= k < |r.value| ==>
      r.value[k] in ValidDirections && Enterable(width, height, start, end, blocked, Position(start, r.value[..k + 1]))
  {
    var blockedSet := Elements(blocked) - {start, end};
    var heuristic := (p: Point) => GridDistance(p, end);
    var listMoves := (checked: set<Point>, p: Point) => ListMoves(width, height, blockedSet, checked, p);
    var moveKey: Point -> seq<int> := (m: Point) => m;
    ghost var dequeued: nat;
    r, dequeued := OriginalAStarSearch(start, heuristic, listMoves, Step, moveKey, {}, -1, 0, fuel);
    if r.Found? {
      var moves := r.value;
      ReplayStep(start, moves);
      DistanceZeroIff(Position(start, moves), end);
      forall k | 0 <= k < |moves|
        ensures moves[k] in ValidDirections && Enterable(width, height, start, end, blocked, Position(start, moves[..k + 1]))
      {
        ReplayStep(start, moves[..k]);
        var c: set<Point> :| moves[k] in listMoves(c, Replay(Step, start, moves[..k]).value).1;
        PathStep(width, height, start, end, blocked, moves, k, c);
      }
    }
  }

  // ---------------------------------------------------------------------
  // flood_distance, navigation_factor

  function Max(a: int, b: int): int { if a >= b then a else b }

  /** `snake.index`: the first position of `x` in `s`. */
  function IndexOf(s: seq<Point>, x: Point): (r: nat)
    requires x in s
    ensures r < |s| && s[r] == x
    ensures forall j :: 0 <= j < r ==> s[j] != x
  {
    if s[0] == x then 0 else 1 + IndexOf(s[1..], x)
  }

  /** A `defaultdict(list)` lookup. */
  function Get(fringe: map<int, seq<Point>>, k: int): seq<Point>
  {
    if k in fringe then fringe[k] else []
  }

  /** No cell sits in a bucket smaller than its distance from the head. */
  ghost predicate Bounded(head: Point, fringe: map<int, seq<Point>>)
  {
    forall k, c :: k in fringe && c in fringe[k] ==> GridDistance(head, c) <= k
  }

  /** Every cell of bucket `steps` is at most `steps` away from the head. */
  lemma BoundedFront(head: Point, fringe: map<int, seq<Point>>, steps: int, i: int)
    requires Bounded(head, fringe)
    requires 0 <= i < |Get(fringe, steps)|
    ensures GridDistance(head, Get(fringe, steps)[i]) <= steps
  {
    assert Get(fringe, steps)[i] in fringe[steps];
  }

  /** Appending a cell to a bucket at least its distance keeps the buckets bounded. */
  lemma BoundedPush(head: Point, fringe: map<int, seq<Point>>, k: int, c: Point)
    requires Bounded(head, fringe)
    requires GridDistance(head, c) <= k
    ensures Bounded(head, fringe[k := Get(fringe, k) + [c]])
  {
    var f := fringe[k := Get(fringe, k) + [c]];
    forall k', c' | k' in f && c' in f[k'] ensures GridDistance(head, c') <= k' {
      if k' == k && c' != c {
        assert c' in Get(fringe, k);
      }
    }
  }

  /** A neighbour of a cell in bucket `steps` is far enough from the head
      for any bucket from `steps + 1` on. */
  lemma NeighbourBound(width: int, height: int, head: Point, from: Point, next: Point, steps: int)
    requires GridDistance(head, from) <= steps
    requires next in Adjacent(width, height, from)
    ensures GridDistance(head, next) <= steps + 1
  {
    AdjacentCells(width, height, from, next);
    DistanceTriangle(head, from, next);
  }

  /** `flood_distance`: a flood fill from the head in which a body cell is
      entered no earlier than the turn it is vacated; it answers the bucket
      in which the target is first reached. The target must be on the board,
      and the head must exist. */
  method FloodDistance(width: int, height: int, target: Point, snake: seq<Point>) returns (r: Result<int>)
    ensures !InBounds(target, [width, height]) || |snake| == 0 ==> r.Err?
    ensures InBounds(target, [width, height]) && |snake| > 0 && snake[0] == target ==> r == Ok(0)
    ensures r.Ok? ==> |snake| > 0 && (r.value == 0 <==> snake[0] == target)
    ensures r.Ok? && |snake| > 0 ==> GridDistance(snake[0], target) <= r.value <= |snake| + width + height + 1
    ensures r.Ok? && target in snake && snake[0] != target ==> r.value >= |snake| - IndexOf(snake, target) - 1
  {
    if !InBounds(target, [width, height]) {
      return Err("AssertionError");
    }
    if |snake| == 0 {
      return Err("IndexError");
    }
    InBounds2(target, width, height);
    var head := snake[0];
    if head == target {
      return Ok(0);
    }
    var bound := |snake| + width + height;
    var steps := 0;
    var fringe: map<int, seq<Point>> := map[0 := [head]];
    var explored: set<Point> := {head};
    while true
      invariant 0 <= steps <= bound
      invariant Bounded(head, fringe)
      decreases bound - steps
    {
      var front := Get(fringe, steps);
      for i := 0 to |front|
        invariant Bounded(head, fringe)
        invariant Get(fringe, steps) == front
      {
        var from := front[i];
        BoundedFront(head, fringe, steps, i);
        var adj := Adjacent(width, height, from);
        for j := 0 to |adj|
          invariant Bounded(head, fringe)
          invariant Get(fringe, steps) == front
        {
          var next := adj[j];
          if next in explored {
            continue;
          }
          explored := explored + {next};
          var nextSteps := steps + 1;
          if next in snake {
            nextSteps := Max(nextSteps, |snake| - IndexOf(snake, next) - 1);
          }
          assert steps + 1 <= nextSteps <= bound + 1;
          NeighbourBound(width, height, head, from, next, steps);
          if next == target {
            return Ok(nextSteps);
          }
          BoundedPush(head, fringe, nextSteps, next);
          fringe := fringe[nextSteps := Get(fringe, nextSteps) + [next]];
        }
      }
      steps := steps + 1;
      if steps > bound {
        return Err("Could not reach");
      }
    }
  }

  function Sum(xs: seq<int>): int
  {
    if |xs| == 0 then 0 else Sum(xs[..|xs| - 1]) + xs[|xs| - 1]
  }

  /** The cells of a `width` x `height` board. */
  ghost function Board(width: int, height: int): set<Point>
  {
    set x: int, y: int | 0 <= x < width && 0 <= y < height :: [x, y]
  }

  ghost function Column(x: int, height: int): set<Point>
  {
    set y: int | 0 <= y < height :: [x, y]
  }

  lemma {:induction false} ColumnSize(x: int, height: nat)
    ensures |Column(x, height)| == height
  {
    if height > 0 {
      ColumnSize(x, height - 1);
      assert Column(x, height) == Column(x, height - 1) + {[x, height - 1]};
    }
  }

  /** The board minus its last column is the narrower board. */
  lemma BoardSplit(width: int, height: int)
    requires width > 0
    ensures Board(width, height) == Board(width - 1, height) + Column(width - 1, height)
    ensures Board(width - 1, height) * Column(width - 1, height) == {}
  {
    var left, right := Board(width - 1, height), Column(width - 1, height);
    forall c | c in Board(width, height) ensures c in left + right {
      assert c == [c[0], c[1]];
      if c[0] < width - 1 {
        assert c in left;
      } else {
        assert c in right;
      }
    }
    forall c | c in left ensures c !in right {
      assert c[0] < width - 1;
    }
  }

  /** A board has `width * height` cells. */
  lemma {:induction false} BoardSize(width: nat, height: nat)
    ensures |Board(width, height)| == width * height
  {
    if width > 0 {
      BoardSize(width - 1, height);
      ColumnSize(width - 1, height);
      BoardSplit(width, height);
      var left, right := Board(width - 1, height), Column(width - 1, height);
      assert |left + right| == |left| + |right|;
      assert (width - 1) * height + height == width * height;
    }
  }

  lemma BoardMembers(width: int, height: int, c: Point)
    ensures c in Board(width, height) <==> InBounds(c, [width, height])
  {
    if InBounds(c, [width, height]) {
      assert c == [c[0], c[1]];
    }
  }

  /** A set of board cells at least as large as the board is the board. */
  lemma FillsBoard(explored: set<Point>, width: nat, height: nat)
    requires forall c :: c in explored ==> InBounds(c, [width, height])
    requires |explored| >= width * height
    ensures forall c: Point :: InBounds(c, [width, height]) ==> c in explored
  {
    BoardSize(width, height);
    forall c | c in explored ensures c in Board(width, height) {
      BoardMembers(width, height, c);
    }
    forall c: Point | InBounds(c, [width, height]) ensures c in explored {
      BoardMembers(width, height, c);
      if c !in explored {
        SubsetCard(explored, Board(width, height) - {c});
      }
    }
  }

  /** A cell first seen in bucket `t`: on the board, not the head, and in a
      bucket no smaller than one turn, than its distance from the head, or
      than the turn its body segment is vacated. */
  ghost predicate ArrivalOk(width: int, height: int, snake: seq<Point>, head: Point, c: Point, t: int)
  {
    InBounds(c, [width, height]) && c != head &&
    t >= 1 && t >= GridDistance(head, c) &&
    (c in snake ==> t >= |snake| - IndexOf(snake, c) - 1)
  }

  /** A new neighbour of a cell of bucket `steps`, put in a bucket after
      `steps` and after its segment is vacated, arrives correctly. */
  lemma NeighbourArrival(width: int, height: int, snake: seq<Point>, head: Point,
                         from: Point, steps: int, next: Point, nextSteps: int)
    requires GridDistance(head, from) <= steps
    requires next in Adjacent(width, height, from) && next != head
    requires steps >= 0 && nextSteps >= steps + 1
    requires next in snake ==> nextSteps >= |snake| - IndexOf(snake, next) - 1
    ensures ArrivalOk(width, height, snake, head, next, nextSteps)
  {
    NeighbourBound(width, height, head, from, next, steps);
    OnBoardMembers(width, height, Neighbours(from));
  }

  /** What `navigation_factor` knows of the cells it has reached: `explored`
      is the head and the cells of `order`, each reached once, at the buckets
      `times`. */
  ghost predicate Reached(width: int, height: int, snake: seq<Point>, head: Point,
                          explored: set<Point>, order: seq<Point>, times: seq<int>)
  {
    |order| == |times| &&
    |explored| == |order| + 1 &&
    (forall c :: c in explored <==> c == head || c in order) &&
    (forall i, j :: 0 <= i < j < |order| ==> order[i] != order[j]) &&
    forall i :: 0 <= i < |order| ==> ArrivalOk(width, height, snake, head, order[i], times[i])
  }

  lemma ReachedPush(width: int, height: int, snake: seq<Point>, head: Point,
                    explored: set<Point>, order: seq<Point>, times: seq<int>, next: Point, nextSteps: int)
    requires Reached(width, height, snake, head, explored, order, times)
    requires next !in explored
    requires ArrivalOk(width, height, snake, head, next, nextSteps)
    ensures Reached(width, height, snake, head, explored + {next}, order + [next], times + [nextSteps])
  {
    var order', times' := order + [next], times + [nextSteps];
    forall i | 0 <= i < |order'| ensures ArrivalOk(width, height, snake, head, order'[i], times'[i]) {
      if i < |order| {
        assert order'[i] == order[i] && times'[i] == times[i];
      }
    }
  }

  /** One neighbour `next` of `from`, handled by the inner loop of
      `navigation_factor`: when not yet explored, it is explored, put in its
      bucket and added to the result. */
  method Visit(width: int, height: int, snake: seq<Point>, head: Point, steps: int, from: Point, next: Point,
               fringe: map<int, seq<Point>>, explored: set<Point>, result: int,
               ghost order: seq<Point>, ghost times: seq<int>)
    returns (fringe': map<int, seq<Point>>, explored': set<Point>, result': int,
             ghost order': seq<Point>, ghost times': seq<int>)
    requires steps >= 0 && GridDistance(head, from) <= steps
    requires next in Adjacent(width, height, from)
    requires Bounded(head, fringe)
    requires Reached(width, height, snake, head, explored, order, times) && result == Sum(times)
    ensures Bounded(head, fringe') && Get(fringe', steps) == Get(fringe, steps)
    ensures Reached(width, height, snake, head, explored', order', times') && result' == Sum(times')
  {
    fringe', explored', result', order', times' := fringe, explored, result, order, times;
    if next !in explored {
      var nextSteps := steps + 1;
      if next in snake {
        nextSteps := Max(nextSteps, |snake| - IndexOf(snake, next) - 1);
      }
      assert next != head;
      NeighbourArrival(width, height, snake, head, from, steps, next, nextSteps);
      NeighbourBound(width, height, head, from, next, steps);
      BoundedPush(head, fringe, nextSteps, next);
      ReachedPush(width, height, snake, head, explored, order, times, next, nextSteps);
      fringe' := fringe[nextSteps := Get(fringe, nextSteps) + [next]];
      explored' := explored + {next};
      result' := result + nextSteps;
      order', times' := order + [next], times + [nextSteps];
      assert times'[..|times'| - 1] == times;
    }
  }

  /** The inner loop of `navigation_factor`: every neighbour of `from` not
      yet explored is explored, put in its bucket and added to the result.
      Only buckets after `steps` change, so the bucket being scanned does not. */
  method ExpandFrom(width: int, height: int, snake: seq<Point>, head: Point, steps: int, from: Point,
                    fringe: map<int, seq<Point>>, explored: set<Point>, result: int,
                    ghost order: seq<Point>, ghost times: seq<int>)
    returns (fringe': map<int, seq<Point>>, explored': set<Point>, result': int,
             ghost order': seq<Point>, ghost times': seq<int>)
    requires steps >= 0 && GridDistance(head, from) <= steps
    requires Bounded(head, fringe)
    requires Reached(width, height, snake, head, explored, order, times) && result == Sum(times)
    ensures Bounded(head, fringe') && Get(fringe', steps) == Get(fringe, steps)
    ensures Reached(width, height, snake, head, explored', order', times') && result' == Sum(times')
  {
    fringe', explored', result', order', times' := fringe, explored, result, order, times;
    var adj := Adjacent(width, height, from);
    for j := 0 to |adj|
      invariant Bounded(head, fringe') && Get(fringe', steps) == Get(fringe, steps)
      invariant Reached(width, height, snake, head, explored', order', times') && result' == Sum(times')
    {
      fringe', explored', result', order', times' :=
        Visit(width, height, snake, head, steps, from, adj[j], fringe', explored', result', order', times');
    }
  }

  /** `navigation_factor`: the flood fill of `flood_distance` run until every
      cell has been reached, summing the bucket of each cell as it is first
      seen, less the `(n*n + n) // 2` that the body cells owe for being
      vacated one by one (n = `len(snake) - 1`). `order` and `times` are the
      cells reached, in order, and their buckets. */
  /** Expand every cell of the fringe at distance `steps`, in order. */
  method ExpandLevel(width: int, height: int, snake: seq<Point>, head: Point, steps: int,
                     fringe: map<int, seq<Point>>, explored: set<Point>, result: int,
                     ghost order: seq<Point>, ghost times: seq<int>)
    returns (fringe': map<int, seq<Point>>, explored': set<Point>, result': int,
             ghost order': seq<Point>, ghost times': seq<int>)
    requires steps >= 0 && Bounded(head, fringe)
    requires Reached(width, height, snake, head, explored, order, times) && result == Sum(times)
    ensures Bounded(head, fringe')
    ensures Reached(width, height, snake, head, explored', order', times') && result' == Sum(times')
  {
    fringe', explored', result', order', times' := fringe, explored, result, order, times;
    var front := Get(fringe, steps);
    for i := 0 to |front|
      invariant Bounded(head, fringe')
      invariant Get(fringe', steps) == front
      invariant Reached(width, height, snake, head, explored', order', times')
      invariant result' == Sum(times')
    {
      BoundedFront(head, fringe', steps, i);
      fringe', explored', result', order', times' :=
        ExpandFrom(width, height, snake, head, steps, front[i], fringe', explored', result', order', times');
    }
  }

  /** `(n * n + n) // 2`, which the score subtracts for a body of `n + 1`
      cells; `n * n + n` is never negative, so floor division and Dafny's
      division agree. */
  function Triangle(n: int): int
  {
    (n * n + n) / 2
  }

  method NavigationFactor(width: int, height: int, snake: seq<Point>)
    returns (r: Result<int>, ghost order: seq<Point>, ghost times: seq<int>)
    ensures |snake| == 0 ==> r.Err?
    ensures r.Ok? ==> |snake| > 0 && |order| == |times| && |order| + 1 >= width * height
    ensures r.Ok? ==> r.value == Sum(times) - Triangle(|snake| - 1)
    ensures |snake| > 0 && |order| == |times| ==>
      forall i :: 0 <= i < |order| ==> ArrivalOk(width, height, snake, snake[0], order[i], times[i])
    ensures forall i, j :: 0 <= i < j < |order| ==> order[i] != order[j]
    ensures r.Ok? && InBounds(snake[0], [width, height]) ==>
      forall c: Point :: InBounds(c, [width, height]) ==> c == snake[0] || c in order
  {
    order, times := [], [];
    if |snake| == 0 {
      r := Err("IndexError");
    } else {
      var head := snake[0];
      var bound := |snake| + width + height;
      var steps := 0;
      var fringe: map<int, seq<Point>> := map[0 := [head]];
      var explored: set<Point> := {head};
      var result := 0;
      var failed := false;
      while |explored| < width * height
        invariant 0 <= steps <= Max(bound, 0)
        invariant Bounded(head, fringe)
        invariant Reached(width, height, snake, head, explored, order, times)
        invariant result == Sum(times)
        decreases Max(bound, 0) - steps
      {
        fringe, explored, result, order, times :=
          ExpandLevel(width, height, snake, head, steps, fringe, explored, result, order, times);
        steps := steps + 1;
        if steps > bound {
          failed := true;
          break;
        }
      }
      r := if failed then Err("Could not reach all tiles") else Ok(result - Triangle(|snake| - 1));
      ReachedFacts(width, height, snake, head, explored, order, times);
    }
  }

  /** What the search has established once it stops: every cell reached is
      reached once, no sooner than it can be entered, and a search that
      explored as many cells as the board has reached the whole board. */
  lemma ReachedFacts(width: int, height: int, snake: seq<Point>, head: Point,
                     explored: set<Point>, order: seq<Point>, times: seq<int>)
    requires Reached(width, height, snake, head, explored, order, times)
    ensures |order| == |times| && |order| + 1 == |explored|
    ensures forall i :: 0 <= i < |order| ==> ArrivalOk(width, height, snake, head, order[i], times[i])
    ensures forall i, j :: 0 <= i < j < |order| ==> order[i] != order[j]
    ensures |explored| >= width * height && InBounds(head, [width, height]) ==>
      forall c: Point :: InBounds(c, [width, height]) ==> c == head || c in order
  {
    if |explored| >= width * height && InBounds(head, [width, height]) {
      InBounds2(head, width, height);
      forall c | c in explored ensures InBounds(c, [width, height]) {
        if c != head {
          var i :| 0 <= i < |order| && order[i] == c;
          assert ArrivalOk(width, height, snake, head, order[i], times[i]);
        }
      }
      FillsBoard(explored, width, height);
    }
  }

  // ---------------------------------------------------------------------
  // supergrid_factor

  /** `supercell_valid`: the 2x2 block whose top-left cell is `b` lies on the
      board and none of its four cells is covered by the body. */
  predicate BlockFree(width: int, height: int, body: set<Point>, b: Point)
  {
    0 <= b[0] && b[0] + 1 < width && 0 <= b[1] && b[1] + 1 < height &&
    b !in body && [b[0] + 1, b[1]] !in body && [b[0], b[1] + 1] !in body && [b[0] + 1, b[1] + 1] !in body
  }

  /** The blocks two cells away, in the order the search pushes them. */
  function BlockNeighbours(b: Point): seq<Point>
  {
    [[b[0] + 2, b[1]], [b[0] - 2, b[1]], [b[0], b[1] + 2], [b[0], b[1] - 2]]
  }

  /** Neighbouring is symmetric. */
  lemma NeighbourSymmetric(b: Point, n: Point)
    ensures n in BlockNeighbours(b) <==> b in BlockNeighbours(n)
  {
    assert b == [b[0], b[1]] && n == [n[0], n[1]];
  }

  /** Every free neighbour of a block of `s` is in `s`. */
  ghost predicate Closed(width: int, height: int, body: set<Point>, s: set<Point>)
  {
    forall c, n :: c in s && n in BlockNeighbours(c) && BlockFree(width, height, body, n) ==> n in s
  }

  /** The connected component of the free block `start`: free blocks, closed
      under free neighbours, and contained in every closed set holding `start`. */
  ghost predicate IsComponent(width: int, height: int, body: set<Point>, comp: set<Point>, start: Point)
  {
    start in comp &&
    (forall c :: c in comp ==> BlockFree(width, height, body, c)) &&
    Closed(width, height, body, comp) &&
    forall t {:trigger Closed(width, height, body, t), start in t} ::
      Closed(width, height, body, t) && start in t ==> comp <= t
  }

  /** The component of a block is the component of each of its members. */
  lemma ComponentOfMember(width: int, height: int, body: set<Point>, comp: set<Point>, start: Point, b: Point)
    requires IsComponent(width, height, body, comp, start) && b in comp
    ensures IsComponent(width, height, body, comp, b)
  {
    forall t | Closed(width, height, body, t) && b in t ensures comp <= t {
      var rest := comp - t;
      forall c, n | c in rest && n in BlockNeighbours(c) && BlockFree(width, height, body, n)
        ensures n in rest
      {
        NeighbourSymmetric(c, n);
        assert n in comp && n !in t;
      }
      assert Closed(width, height, body, rest);
      assert start !in rest;
    }
  }

  /** Free blocks lie on the board. */
  lemma FreeOnBoard(width: int, height: int, body: set<Point>, b: Point)
    requires BlockFree(width, height, body, b)
    ensures b in Board(width, height)
  {
    BoardMembers(width, height, b);
  }

  /** What the depth-first search from the free block `start` keeps: the
      component so far holds free blocks; `start` is in it or still pending; every free
      neighbour of a block taken is taken or pending; and every closed set
      holding `start` holds the blocks taken and the free blocks pending. */
  ghost predicate Searching(width: int, height: int, body: set<Point>, start: Point,
                            comp: set<Point>, fringe: seq<Point>)
  {
    BlockFree(width, height, body, start) &&
    (forall c :: c in comp ==> BlockFree(width, height, body, c)) &&
    (start in comp || start in fringe) &&
    (forall c, n :: c in comp && n in BlockNeighbours(c) && BlockFree(width, height, body, n) ==>
      n in comp || n in fringe) &&
    forall t :: Closed(width, height, body, t) && start in t ==>
      comp <= t && forall i :: 0 <= i < |fringe| && BlockFree(width, height, body, fringe[i]) ==> fringe[i] in t
  }

  /** Popping a block already taken, or not free, keeps the search state. */
  lemma SearchSkip(width: int, height: int, body: set<Point>, start: Point, comp: set<Point>, fringe: seq<Point>)
    requires |fringe| > 0 && Searching(width, height, body, start, comp, fringe)
    requires fringe[|fringe| - 1] in comp || !BlockFree(width, height, body, fringe[|fringe| - 1])
    ensures Searching(width, height, body, start, comp, fringe[..|fringe| - 1])
  {
    var rest := fringe[..|fringe| - 1];
    assert forall i :: 0 <= i < |rest| ==> rest[i] == fringe[i];
    forall x | x in fringe && x != fringe[|fringe| - 1] ensures x in rest {
      var i :| 0 <= i < |fringe| && fringe[i] == x;
    }
  }

  /** Taking a new free block and pushing its neighbours keeps the search state. */
  lemma SearchAdd(width: int, height: int, body: set<Point>, start: Point, comp: set<Point>, fringe: seq<Point>)
    requires |fringe| > 0 && Searching(width, height, body, start, comp, fringe)
    requires fringe[|fringe| - 1] !in comp && BlockFree(width, height, body, fringe[|fringe| - 1])
    ensures Searching(width, height, body, start, comp + {fringe[|fringe| - 1]},
                      fringe[..|fringe| - 1] + BlockNeighbours(fringe[|fringe| - 1]))
  {
    var val := fringe[|fringe| - 1];
    var rest := fringe[..|fringe| - 1];
    var fringe' := rest + BlockNeighbours(val);
    forall x | x in fringe && x != val ensures x in fringe' {
      var i :| 0 <= i < |fringe| && fringe[i] == x;
      assert fringe'[i] == x;
    }
    forall t | Closed(width, height, body, t) && start in t
      ensures comp + {val} <= t
      ensures forall i :: 0 <= i < |fringe'| && BlockFree(width, height, body, fringe'[i]) ==> fringe'[i] in t
    {
      assert val in t;
      forall i | 0 <= i < |fringe'| && BlockFree(width, height, body, fringe'[i]) ensures fringe'[i] in t {
        if i < |rest| {
          assert fringe'[i] == fringe[i];
        } else {
          assert fringe'[i] in BlockNeighbours(val);
        }
      }
    }
    forall c, n | c in comp + {val} && n in BlockNeighbours(c) && BlockFree(width, height, body, n)
      ensures n in comp + {val} || n in fringe'
    {
      if c == val {
        assert n in BlockNeighbours(val);
      }
    }
  }

  /** An exhausted search has found the component. */
  lemma SearchDone(width: int, height: int, body: set<Point>, start: Point, comp: set<Point>)
    requires Searching(width, height, body, start, comp, [])
    ensures IsComponent(width, height, body, comp, start)
  {
  }

  /** The depth-first search of `supergrid_factor` from one free block: pop
      a block, and when it is free and new add it and push its four
      neighbours. */
  method Component(width: int, height: int, body: set<Point>, start: Point) returns (comp: set<Point>)
    requires BlockFree(width, height, body, start)
    ensures IsComponent(width, height, body, comp, start)
  {
    comp := {};
    var fringe := [start];
    ghost var universe := Board(width, height);
    while |fringe| > 0
      invariant comp <= universe
      invariant Searching(width, height, body, start, comp, fringe)
      decreases |universe - comp|, |fringe|
    {
      var val := fringe[|fringe| - 1];
      if val !in comp && BlockFree(width, height, body, val) {
        SearchAdd(width, height, body, start, comp, fringe);
        FreeOnBoard(width, height, body, val);
        StrictSubsetSmaller(universe, comp, comp + {val});
        comp := comp + {val};
        fringe := fringe[..|fringe| - 1] + BlockNeighbours(val);
      } else {
        SearchSkip(width, height, body, start, comp, fringe);
        fringe := fringe[..|fringe| - 1];
      }
    }
    SearchDone(width, height, body, start, comp);
  }

  /** `set(...)` of a list of cells. */
  function Elements(cs: seq<Point>): set<Point>
  {
    set c | c in cs
  }

  /** `range(0, n, 2)` scans the even blocks column by column: `b` comes
      before the block at `(x, y)`. */
  ghost predicate EvenBefore(b: Point, x: int, y: int)
  {
    b[0] % 2 == 0 && b[1] % 2 == 0 && (b[0] < x || (b[0] == x && b[1] < y))
  }

  /** Block `b`, when it has an owner, is mapped to its component, which is
      no larger than `largest`. */
  ghost predicate Owned(width: int, height: int, body: set<Point>, owner: map<Point, set<Point>>, largest: int, b: Point)
  {
    b in owner ==> IsComponent(width, height, body, owner[b], b) && |owner[b]| <= largest
  }

  /** Every block of `owner` is on the even grid and mapped to its
      component, no component is larger than `largest`, and a nonzero
      `largest` is some component's size. */
  ghost predicate Owners(width: int, height: int, body: set<Point>, owner: map<Point, set<Point>>, largest: int)
  {
    (forall b :: b in owner ==> b[0] % 2 == 0 && b[1] % 2 == 0) &&
    (forall b {:trigger Owned(width, height, body, owner, largest, b)} :: Owned(width, height, body, owner, largest, b)) &&
    (largest == 0 || exists b :: b in owner && |owner[b]| == largest)
  }

  /** The owner map after the component `comp` has been explored. */
  ghost function Merge(owner: map<Point, set<Point>>, comp: set<Point>): map<Point, set<Point>>
  {
    map c | c in owner.Keys + comp :: if c in owner then owner[c] else comp
  }

  lemma MergeKeys(owner: map<Point, set<Point>>, comp: set<Point>)
    ensures Merge(owner, comp).Keys == owner.Keys + comp
    ensures forall c :: c in owner ==> Merge(owner, comp)[c] == owner[c]
    ensures forall c :: c in comp && c !in owner ==> Merge(owner, comp)[c] == comp
  {
  }

  /** After the merge every block is still mapped to its component. */
  lemma MergeComponents(width: int, height: int, body: set<Point>, owner: map<Point, set<Point>>, largest: int,
                        comp: set<Point>, start: Point)
    requires Owners(width, height, body, owner, largest)
    requires IsComponent(width, height, body, comp, start)
    ensures forall b :: Owned(width, height, body, Merge(owner, comp), Max(largest, |comp|), b)
  {
    MergeKeys(owner, comp);
    forall b
      ensures Owned(width, height, body, Merge(owner, comp), Max(largest, |comp|), b)
    {
      if b in owner {
        assert Owned(width, height, body, owner, largest, b);
        assert Merge(owner, comp)[b] == owner[b];
      } else if b in comp {
        assert Merge(owner, comp)[b] == comp;
        ComponentOfMember(width, height, body, comp, start, b);
      }
    }
  }

  /** After the merge a nonzero maximum is still some component's size. */
  lemma MergeLargest(owner: map<Point, set<Point>>, largest: int, comp: set<Point>, start: Point)
    requires largest == 0 || exists b :: b in owner && |owner[b]| == largest
    requires start in comp && start !in owner
    ensures Max(largest, |comp|) == 0 || exists b :: b in Merge(owner, comp) && |Merge(owner, comp)[b]| == Max(largest, |comp|)
  {
    MergeKeys(owner, comp);
    if |comp| < largest {
      var b :| b in owner && |owner[b]| == largest;
      assert b in Merge(owner, comp);
    } else {
      assert start in Merge(owner, comp);
    }
  }

  lemma OwnersMerge(width: int, height: int, body: set<Point>, owner: map<Point, set<Point>>, largest: int,
                    comp: set<Point>, start: Point)
    requires Owners(width, height, body, owner, largest)
    requires IsComponent(width, height, body, comp, start) && start !in owner
    requires start[0] % 2 == 0 && start[1] % 2 == 0
    ensures Owners(width, height, body, Merge(owner, comp), Max(largest, |comp|))
    ensures Merge(owner, comp).Keys == owner.Keys + comp
  {
    MergeKeys(owner, comp);
    EvenComponent(width, height, body, comp, start);
    MergeComponents(width, height, body, owner, largest, comp, start);
    MergeLargest(owner, largest, comp, start);
  }

  /** The component of a block on the even grid holds blocks on the even
      grid only: its even members already form a closed set. */
  lemma EvenComponent(width: int, height: int, body: set<Point>, comp: set<Point>, start: Point)
    requires IsComponent(width, height, body, comp, start) && start[0] % 2 == 0 && start[1] % 2 == 0
    ensures forall c :: c in comp ==> c[0] % 2 == 0 && c[1] % 2 == 0
  {
    var even := set c | c in comp && c[0] % 2 == 0 && c[1] % 2 == 0;
    forall c, n | c in even && n in BlockNeighbours(c) && BlockFree(width, height, body, n) ensures n in even {
      assert n in comp;
      EvenNeighbour(c, n);
    }
    assert Closed(width, height, body, even) && start in even;
    assert comp <= even;
  }

  /** The neighbours of a block on the even grid are on the even grid. */
  lemma EvenNeighbour(c: Point, n: Point)
    requires c[0] % 2 == 0 && c[1] % 2 == 0 && n in BlockNeighbours(c)
    ensures n[0] % 2 == 0 && n[1] % 2 == 0
  {
    var k :| 0 <= k < 4 && BlockNeighbours(c)[k] == n;
  }

  /** Every even free block scanned before `(x, y)` has an owner. */
  ghost predicate Covered(width: int, height: int, body: set<Point>, owner: map<Point, set<Point>>, x: int, y: int)
  {
    forall b: Point {:trigger EvenBefore(b, x, y)} :: EvenBefore(b, x, y) && BlockFree(width, height, body, b) ==> b in owner
  }

  lemma CoveredGrows(width: int, height: int, body: set<Point>, owner: map<Point, set<Point>>,
                     owner': map<Point, set<Point>>, x: int, y: int)
    requires Covered(width, height, body, owner, x, y) && owner.Keys <= owner'.Keys
    ensures Covered(width, height, body, owner', x, y)
  {
  }

  lemma CoveredNext(width: int, height: int, body: set<Point>, owner: map<Point, set<Point>>, x: int, y: int)
    requires x % 2 == 0 && y % 2 == 0 && Covered(width, height, body, owner, x, y)
    requires BlockFree(width, height, body, [x, y]) ==> [x, y] in owner
    ensures Covered(width, height, body, owner, x, y + 2)
  {
    forall c: Point | EvenBefore(c, x, y + 2) && BlockFree(width, height, body, c) ensures c in owner {
      if !EvenBefore(c, x, y) {
        assert c == [x, y];
      }
    }
  }

  lemma CoveredColumn(width: int, height: int, body: set<Point>, owner: map<Point, set<Point>>, x: int, y: int)
    requires x % 2 == 0 && y >= height && Covered(width, height, body, owner, x, y)
    ensures Covered(width, height, body, owner, x + 2, 0)
  {
    forall c: Point | EvenBefore(c, x + 2, 0) && BlockFree(width, height, body, c) ensures c in owner {
      assert EvenBefore(c, x, y);
    }
  }

  lemma EvenStep(x: int)
    requires x % 2 == 0
    ensures (x + 2) % 2 == 0
  {
  }

  /** The body of the inner loop of `supergrid_factor` for a free block not
      yet explored: search its component and record it. */
  method ExploreBlock(width: int, height: int, body: set<Point>, b: Point, explored: set<Point>, largest: nat,
                      ghost owner: map<Point, set<Point>>)
    returns (explored': set<Point>, largest': nat, ghost owner': map<Point, set<Point>>)
    requires b[0] % 2 == 0 && b[1] % 2 == 0
    requires BlockFree(width, height, body, b) && b !in explored && explored == owner.Keys
    requires Owners(width, height, body, owner, largest)
    ensures explored' == owner'.Keys && owner.Keys <= owner'.Keys && b in owner'
    ensures Owners(width, height, body, owner', largest')
  {
    var comp := Component(width, height, body, b);
    OwnersMerge(width, height, body, owner, largest, comp, b);
    largest' := Max(largest, |comp|);
    explored' := explored + comp;
    owner' := Merge(owner, comp);
    assert b in comp;
  }

  /** One step of the inner loop of `supergrid_factor`: the block at
      `(x, y)`, explored when it is free and new. */
  method ScanBlock(width: int, height: int, body: set<Point>, x: int, y: int, explored: set<Point>, largest: nat,
                   ghost owner: map<Point, set<Point>>)
    returns (explored': set<Point>, largest': nat, ghost owner': map<Point, set<Point>>)
    requires x % 2 == 0 && y % 2 == 0 && explored == owner.Keys
    requires Owners(width, height, body, owner, largest) && Covered(width, height, body, owner, x, y)
    ensures explored' == owner'.Keys
    ensures Owners(width, height, body, owner', largest') && Covered(width, height, body, owner', x, y + 2)
  {
    explored', largest', owner' := explored, largest, owner;
    var b: Point := [x, y];
    if BlockFree(width, height, body, b) && b !in explored {
      explored', largest', owner' := ExploreBlock(width, height, body, b, explored, largest, owner);
      CoveredGrows(width, height, body, owner, owner', x, y);
    }
    CoveredNext(width, height, body, owner', x, y);
  }

  /** The inner loop of `supergrid_factor`: the column of blocks at `x`,
      from the top. */
  method ScanColumn(width: int, height: int, body: set<Point>, x: int, explored: set<Point>, largest: nat,
                    ghost owner: map<Point, set<Point>>)
    returns (explored': set<Point>, largest': nat, ghost owner': map<Point, set<Point>>)
    requires x % 2 == 0 && explored == owner.Keys
    requires Owners(width, height, body, owner, largest) && Covered(width, height, body, owner, x, 0)
    ensures explored' == owner'.Keys
    ensures Owners(width, height, body, owner', largest') && Covered(width, height, body, owner', x + 2, 0)
  {
    explored', largest', owner' := explored, largest, owner;
    var y := 0;
    while y < height
      invariant y >= 0 && y % 2 == 0
      invariant explored' == owner'.Keys
      invariant Owners(width, height, body, owner', largest') && Covered(width, height, body, owner', x, y)
      decreases height - y
    {
      explored', largest', owner' := ScanBlock(width, height, body, x, y, explored', largest', owner');
      EvenStep(y);
      y := y + 2;
    }
    CoveredColumn(width, height, body, owner', x, y);
  }

  /** Once the scan has passed the last column, every even free block has
      an owner. */
  lemma OwnersFinal(width: int, height: int, body: set<Point>, owner: map<Point, set<Point>>, largest: nat, x: int)
    requires x >= width
    requires Owners(width, height, body, owner, largest) && Covered(width, height, body, owner, x, 0)
    ensures forall b :: b in owner ==> b[0] % 2 == 0 && b[1] % 2 == 0
    ensures forall b :: b in owner ==> IsComponent(width, height, body, owner[b], b) && |owner[b]| <= largest
    ensures forall b: Point :: b[0] % 2 == 0 && b[1] % 2 == 0 && BlockFree(width, height, body, b) ==> b in owner
    ensures largest == 0 || exists b :: b in owner && |owner[b]| == largest
  {
    forall b | b in owner ensures IsComponent(width, height, body, owner[b], b) && |owner[b]| <= largest {
      assert Owned(width, height, body, owner, largest, b);
    }
    forall c: Point | c[0] % 2 == 0 && c[1] % 2 == 0 && BlockFree(width, height, body, c) ensures c in owner {
      assert EvenBefore(c, x, 0);
    }
  }

  /** `supergrid_factor`: the size of the largest connected area of free
      2x2 blocks on the even grid. `owner` gives each even free block its
      component. */
  method SupergridFactor(width: int, height: int, snake: seq<Point>)
    returns (largest: nat, ghost owner: map<Point, set<Point>>)
    ensures forall b :: b in owner ==> b[0] % 2 == 0 && b[1] % 2 == 0
    ensures forall b :: b in owner ==>
      IsComponent(width, height, Elements(snake), owner[b], b) && |owner[b]| <= largest
    ensures forall b: Point :: b[0] % 2 == 0 && b[1] % 2 == 0 && BlockFree(width, height, Elements(snake), b) ==>
      b in owner
    ensures largest == 0 || exists b :: b in owner && |owner[b]| == largest
  {
    var body := Elements(snake);
    var explored: set<Point> := {};
    largest := 0;
    owner := map[];
    var x := 0;
    while x < width
      invariant x >= 0 && x % 2 == 0
      invariant explored == owner.Keys
      invariant Owners(width, height, body, owner, largest) && Covered(width, height, body, owner, x, 0)
      decreases width - x
    {
      explored, largest, owner := ScanColumn(width, height, body, x, explored, largest, owner);
      EvenStep(x);
      x := x + 2;
    }
    OwnersFinal(width, height, body, owner, largest, x);
  }

  // ---------------------------------------------------------------------
  // ai_towards_goal, ai_smarter_towards_goal, ai_hamiltonian

  /** `ai_towards_goal`: close the x gap first, then the y gap. A missing
      goal (indexing `None`) and a goal under the head both raise. */
  function TowardsGoal(game: Snake): (r: Result<Point>)
    reads game
    requires game.Valid()
  {
    match game.goal
    case None => Err("TypeError")
    case Some(goal) =>
      var pos := game.Head();
      if goal[0] < pos[0] then Ok(West)
      else if goal[0] > pos[0] then Ok(East)
      else if goal[1] < pos[1] then Ok(North)
      else if goal[1] > pos[1] then Ok(South)
      else Err("Goal at same place as head?")
  }

  /** The chosen direction brings the head exactly one step closer to the
      goal, moving along x while the x coordinates differ; it fails exactly
      when there is no goal or the goal is the head. */
  lemma TowardsGoalCloser(game: Snake)
    requires game.Valid()
    ensures TowardsGoal(game).Err? <==> game.goal.None? || game.goal.value == game.Head()
    ensures TowardsGoal(game).Ok? ==>
      TowardsGoal(game).value in ValidDirections &&
      GridDistance(Shift(game.Head(), TowardsGoal(game).value), game.goal.value) + 1 ==
        GridDistance(game.Head(), game.goal.value)
    ensures TowardsGoal(game).Ok? && game.goal.value[0] != game.Head()[0] ==> TowardsGoal(game).value[1] == 0
  {
    if game.goal.Some? {
      var goal := game.goal.value;
      var pos := game.Head();
      assert goal == [goal[0], goal[1]] && pos == [pos[0], pos[1]];
      GridDistance2(pos, goal);
      if TowardsGoal(game).Ok? {
        GridDistance2(Shift(pos, TowardsGoal(game).value), goal);
      }
    }
  }

  /** The first direction of `ds` that is safe, or `None`. */
  function FirstSafe(game: Snake, ds: seq<Point>): (r: Option<Point>)
    reads game
    requires game.Valid()
  {
    if |ds| == 0 then None
    else if game.IsDirectionSafe(ds[0]) then Some(ds[0])
    else FirstSafe(game, ds[1..])
  }

  /** The first safe direction is one of `ds`, it is safe, and every direction of `ds` before it is unsafe. */
  lemma {:induction false} FirstSafeIsFirst(game: Snake, ds: seq<Point>)
    requires game.Valid()
    ensures FirstSafe(game, ds).None? <==> forall i :: 0 <= i < |ds| ==> !game.IsDirectionSafe(ds[i])
    ensures FirstSafe(game, ds).Some? ==>
      exists k :: 0 <= k < |ds| && ds[k] == FirstSafe(game, ds).value && game.IsDirectionSafe(ds[k]) &&
        forall i :: 0 <= i < k ==> !game.IsDirectionSafe(ds[i])
  {
    if |ds| > 0 && !game.IsDirectionSafe(ds[0]) {
      FirstSafeIsFirst(game, ds[1..]);
      if FirstSafe(game, ds).Some? {
        var k :| 0 <= k < |ds[1..]| && ds[1..][k] == FirstSafe(game, ds).value &&
          game.IsDirectionSafe(ds[1..][k]) && forall i :: 0 <= i < k ==> !game.IsDirectionSafe(ds[1..][i]);
        assert ds[k + 1] == ds[1..][k];
        forall i | 0 <= i < k + 1 ensures !game.IsDirectionSafe(ds[i]) {
          if i > 0 {
            assert ds[i] == ds[1..][i - 1];
          }
        }
      }
    } else if |ds| > 0 {
      assert ds[0] == FirstSafe(game, ds).value;
    }
  }

  /** `ai_smarter_towards_goal`: the direction towards the goal when it is
      safe, otherwise the first safe direction in `VALID_DIRECTIONS` order,
      otherwise north. */
  function SmarterTowardsGoal(game: Snake): (r: Result<Point>)
    reads game
    requires game.Valid()
  {
    match TowardsGoal(game)
    case Err(e) => Err(e)
    case Ok(idea) =>
      if game.IsDirectionSafe(idea) then Ok(idea)
      else match FirstSafe(game, ValidDirections)
        case Some(backup) => Ok(backup)
        case None => Ok(North)
  }

  /** The smarter choice fails exactly when the simple one does; it keeps a
      safe idea; otherwise it is safe whenever some direction is, and it is
      north when nothing is safe. */
  lemma SmarterTowardsGoalChoice(game: Snake)
    requires game.Valid()
    ensures SmarterTowardsGoal(game).Err? <==> TowardsGoal(game).Err?
    ensures TowardsGoal(game).Ok? && game.IsDirectionSafe(TowardsGoal(game).value) ==>
      SmarterTowardsGoal(game) == TowardsGoal(game)
    ensures SmarterTowardsGoal(game).Ok? ==> SmarterTowardsGoal(game).value in ValidDirections
    ensures SmarterTowardsGoal(game).Ok? && (exists d :: d in ValidDirections && game.IsDirectionSafe(d)) ==>
      game.IsDirectionSafe(SmarterTowardsGoal(game).value)
    ensures SmarterTowardsGoal(game).Ok? && (forall d :: d in ValidDirections ==> !game.IsDirectionSafe(d)) ==>
      SmarterTowardsGoal(game).value == North
  {
    TowardsGoalCloser(game);
    FirstSafeIsFirst(game, ValidDirections);
    if FirstSafe(game, ValidDirections).None? {
      forall d | d in ValidDirections ensures !game.IsDirectionSafe(d) {
        var i :| 0 <= i < 4 && ValidDirections[i] == d;
      }
    }
  }

  /** `ai_hamiltonian`: a fixed tour of the board, which needs an even height. */
  function Hamiltonian(game: Snake): (r: Result<Point>)
    reads game
    requires game.Valid()
  {
    var width := game.width as int;
    var height := game.height as int;
    var x := game.Head()[0];
    var y := game.Head()[1];
    if height % 2 != 0 then Err("Invalid height for hamiltonian snake")
    else if x == 0 && y == 0 then Ok(South)
    else if y == 0 then Ok(West)
    else if x == width - 1 then Ok(North)
    else if y == height - 1 then Ok(East)
    else if y % 2 == 1 then (if x == width - 2 then Ok(South) else Ok(East))
    else if x == 0 then Ok(South)
    else Ok(West)
  }

  /** The tour fails exactly on an odd height, and from any head on the
      board it moves to a cell on the board. */
  lemma HamiltonianStaysOnBoard(game: Snake)
    requires game.Valid()
    ensures Hamiltonian(game).Err? <==> game.height % 2 != 0
    ensures Hamiltonian(game).Ok? && InBounds(game.Head(), [game.width, game.height]) ==>
      Hamiltonian(game).value in ValidDirections &&
      InBounds(Shift(game.Head(), Hamiltonian(game).value), [game.width, game.height])
  {
    InBounds2(game.Head(), game.width, game.height);
    if Hamiltonian(game).Ok? {
      InBounds2(Shift(game.Head(), Hamiltonian(game).value), game.width, game.height);
    }
  }
}
