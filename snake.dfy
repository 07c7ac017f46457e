/** The game of snake on a `width` x `height` board (snake.py).
    The body is the deque `snake_position`, head first; it is a sequence
    that `advance` replaces by the deque after `appendleft` and `pop`. */
module Game {
  import opened Common

  datatype GameState = Playing | Won | Died

  const North: Point := [0, -1]
  const South: Point := [0, 1]
  const West: Point := [-1, 0]
  const East: Point := [1, 0]

  /** `VALID_DIRECTIONS`, in the order every caller tries them. */
  const ValidDirections: seq<Point> := [North, South, West, East]

  /** The four directions are exactly the unit steps of the grid. */
  lemma ValidDirectionsAreUnitSteps(d: Point)
    ensures d in ValidDirections <==> SumAbs(d) == 1
  {
    assert SumAbs(d) == Abs(d[0]) + Abs(d[1]) by {
      assert d[1..][1..] == [];
      assert SumAbs(d[1..]) == Abs(d[1]) + SumAbs(d[1..][1..]);
    }
    assert d == [d[0], d[1]];
  }

  /** `is_direction_safe` on the board, body and direction it reads: the cell
      ahead is on the board and is not part of the body once the tail has moved. */
  predicate DirectionSafe(width: int, height: int, body: seq<Point>, d: Point)
    requires |body| > 0
  {
    var next := Shift(body[0], d);
    next !in body[..|body| - 1] && InBounds(next, [width, height])
  }

  /** `generate_goal` scans the board column by column, and each column from
      the top: `c` comes before `(x, y)` in that order. */
  ghost predicate ScannedBefore(c: Point, x: int, y: int)
  {
    c[0] < x || (c[0] == x && c[1] < y)
  }

  /** A free cell: on the board and not covered by the body. */
  ghost predicate Free(width: int, height: int, body: seq<Point>, c: Point)
  {
    InBounds(c, [width, height]) && c !in body
  }

  class Snake {
    var width: nat
    var height: nat
    var state: GameState
    var body: seq<Point>
    var goal: Option<Point>
    var moves: nat
    var points: nat
    var movesSincePoint: nat
    /** The slot `get_ai_data` / `set_ai_data` read and write; the only
        strategy modelled here keeps its supercell cycle in it. */
    var aiData: Option<seq<Point>>

    ghost predicate Valid()
      reads this
    {
      |body| > 0
    }

    /** Every body cell is on the board. */
    ghost predicate OnBoard()
      reads this
    {
      forall i :: 0 <= i < |body| ==> InBounds(body[i], [width, height])
    }

    /** While the game is being played the goal lies off the body. */
    ghost predicate GoalOffBody()
      reads this
    {
      state == Playing && goal.Some? ==> goal.value !in body
    }

    /** `generate_goal`: some free cell, chosen by the caller's randomness,
        or `None` when the body covers the whole board. */
    method GenerateGoal() returns (g: Option<Point>)
      ensures g.Some? ==> Free(width, height, body, g.value)
      ensures g.None? <==> forall c: Point :: !Free(width, height, body, c)
    {
      forall c: Point ensures InBounds(c, [width, height]) <==> 0 <= c[0] < width && 0 <= c[1] < height {
        InBounds2(c, width, height);
      }
      var possibilities: seq<Point> := [];
      var x := 0;
      while x < width
        invariant 0 <= x <= width
        invariant forall c: Point :: c in possibilities <==> Free(width, height, body, c) && c[0] < x
      {
        var y := 0;
        while y < height
          invariant 0 <= y <= height
          invariant forall c: Point :: c in possibilities <==>
            Free(width, height, body, c) && ScannedBefore(c, x, y)
        {
          forall c: Point | c[0] == x && c[1] == y ensures c == [x, y] {
            assert c == [c[0], c[1]];
          }
          if [x, y] !in body {
            possibilities := possibilities + [[x, y]];
          }
          y := y + 1;
        }
        x := x + 1;
      }
      if |possibilities| > 0 {
        assert possibilities[0] in possibilities;
        var c :| c in possibilities;
        g := Some(c);
      } else {
        g := None;
      }
    }

    /** A new game: three body segments stacked on the centre cell. */
    constructor (w: nat, h: nat)
      ensures Valid() && width == w && height == h && state == Playing
      ensures body == [[w / 2, h / 2], [w / 2, h / 2], [w / 2, h / 2]]
      ensures moves == 0 && points == 0 && movesSincePoint == 0
      ensures goal.Some? ==> Free(w, h, body, goal.value)
      ensures aiData == None
      ensures w > 0 && h > 0 ==> OnBoard()
      ensures GoalOffBody()
    {
      width := w;
      height := h;
      state := Playing;
      body := [[w / 2, h / 2], [w / 2, h / 2], [w / 2, h / 2]];
      moves := 0;
      points := 0;
      movesSincePoint := 0;
      aiData := None;
      new;
      goal := GenerateGoal();
    }

    /** `copy`: the dimensions, body, goal and counters, always in play, and
        without the AI slot. The body is a value, so the copy's body is
        independent of the original's. */
    method Copy() returns (other: Snake)
      requires Valid()
      ensures fresh(other) && other.Valid()
      ensures other.width == width && other.height == height
      ensures other.state == Playing && other.body == body && other.goal == goal
      ensures other.moves == moves && other.points == points
      ensures other.movesSincePoint == movesSincePoint
      ensures other.aiData == None
    {
      other := new Snake(width, height);
      other.state := Playing;
      other.body := body;
      other.goal := goal;
      other.moves := moves;
      other.points := points;
      other.movesSincePoint := movesSincePoint;
    }

    function Head(): Point
      reads this
      requires Valid()
    {
      body[0]
    }

    /** `is_direction_safe` on this game. */
    predicate IsDirectionSafe(d: Point)
      reads this
      requires Valid()
    {
      DirectionSafe(width, height, body, d)
    }

    /** `advance`: one tick of the game. */
    method Advance(d: Point)
      requires Valid()
      modifies this
      ensures Valid()
      ensures width == old(width) && height == old(height) && aiData == old(aiData)
      // A finished game does not move.
      ensures old(state) != Playing ==>
        (state == old(state) && body == old(body) &&
         goal == old(goal) && moves == old(moves) && points == old(points) &&
         movesSincePoint == old(movesSincePoint))
      // Every tick of a game in play counts as a move.
      ensures old(state) == Playing ==> moves == old(moves) + 1
      // An unknown or unsafe direction ends the game and leaves the body alone.
      ensures old(state) == Playing && (d !in ValidDirections || !old(IsDirectionSafe(d))) ==>
        (state == Died && body == old(body) && goal == old(goal) && points == old(points) &&
         movesSincePoint == old(movesSincePoint) + 1)
      // A safe step off the goal moves the whole body one cell.
      ensures (old(state) == Playing && d in ValidDirections && old(IsDirectionSafe(d)) &&
               old(goal) != Some(Shift(old(body)[0], d))) ==>
        (state == Playing && body == [Shift(old(body)[0], d)] + old(body)[..|old(body)| - 1] &&
         goal == old(goal) && points == old(points) && movesSincePoint == old(movesSincePoint) + 1)
      // A safe step onto the goal grows the body, scores, and places a new goal or wins.
      ensures (old(state) == Playing && d in ValidDirections && old(IsDirectionSafe(d)) &&
               old(goal) == Some(Shift(old(body)[0], d))) ==>
        (body == [Shift(old(body)[0], d)] + old(body) && points == old(points) + 1 &&
         movesSincePoint == 0 &&
         if state == Won then goal == old(goal) && forall c: Point :: !Free(width, height, body, c)
         else state == Playing && goal.Some? && Free(width, height, body, goal.value))
      ensures old(OnBoard()) ==> OnBoard()
      ensures old(GoalOffBody()) ==> GoalOffBody()
    {
      if state == Playing {
        moves := moves + 1;
        movesSincePoint := movesSincePoint + 1;
        if d !in ValidDirections || !IsDirectionSafe(d) {
          state := Died;
        } else {
          Step(d);
        }
      }
    }

    /** The part of `advance` after a known, safe direction: the head moves
        onto the next cell; the tail follows unless the goal was eaten, in
        which case a new goal is placed, or the game is won. */
    method Step(d: Point)
      requires Valid() && state == Playing && d in ValidDirections && IsDirectionSafe(d)
      modifies this
      ensures Valid()
      ensures width == old(width) && height == old(height) && aiData == old(aiData)
      ensures moves == old(moves)
      ensures old(goal) != Some(Shift(old(body)[0], d)) ==>
        (state == Playing && body == [Shift(old(body)[0], d)] + old(body)[..|old(body)| - 1] &&
         goal == old(goal) && points == old(points) && movesSincePoint == old(movesSincePoint))
      ensures old(goal) == Some(Shift(old(body)[0], d)) ==>
        (body == [Shift(old(body)[0], d)] + old(body) && points == old(points) + 1 &&
         movesSincePoint == 0 &&
         if state == Won then goal == old(goal) && forall c: Point :: !Free(width, height, body, c)
         else state == Playing && goal.Some? && Free(width, height, body, goal.value))
      ensures old(OnBoard()) ==> OnBoard()
      ensures old(GoalOffBody()) ==> GoalOffBody()
    {
      var next := Shift(body[0], d);
      body := [next] + body;
      if Some(next) == goal {
        points := points + 1;
        movesSincePoint := 0;
        var g := GenerateGoal();
        if g.None? {
          state := Won;
        } else {
          goal := g;
        }
      } else {
        body := body[..|body| - 1];
      }
    }
  }
}
