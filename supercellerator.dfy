/** The supercell strategy (supercellerator.py). A supercell is a 2x2 block
    of the board named by its even-coordinate corner. The strategy keeps a
    closed cycle of supercells that covers the snake, walks the snake
    clockwise around each supercell of the cycle, and splices a detour to the
    goal's supercell into the cycle when a new goal appears. */
module Supercellerator {
  import opened Common
  import opened Game
  import opened Search

  // ---------------------------------------------------------------------
  // Supercell coordinates.

  /** `supercell`: the even corner of the 2x2 block holding a position. */
  function Supercell(p: Point): Point
  {
    [p[0] - p[0] % 2, p[1] - p[1] % 2]
  }

  /** `subcell`: the position inside its block, each coordinate 0 or 1. */
  function Subcell(p: Point): Point
  {
    [p[0] % 2, p[1] % 2]
  }

  /** A position splits into its block's corner plus its place inside the block. */
  lemma SupercellSplit(p: Point)
    ensures Supercell(p)[0] % 2 == 0 && Supercell(p)[1] % 2 == 0
    ensures 0 <= Subcell(p)[0] <= 1 && 0 <= Subcell(p)[1] <= 1
    ensures Shift(Supercell(p), Subcell(p)) == p
    ensures Supercell(Supercell(p)) == Supercell(p)
  {
  }

  /** `SUPERCELL_DIRECTIONS`: the steps between neighbouring blocks. */
  const SupercellDirections: set<Point> := {[2, 0], [-2, 0], [0, 2], [0, -2]}

  /** The same four steps in the order they are written out. */
  const DirectionOrder: seq<Point> := [[2, 0], [-2, 0], [0, 2], [0, -2]]

  /** Neighbouring blocks: the first minus the second is a block step. */
  predicate Adj(a: Point, b: Point)
  {
    Diff(a, b) in SupercellDirections
  }

  lemma AdjSymmetric(a: Point, b: Point)
    ensures Adj(a, b) <==> Adj(b, a)
  {
    assert Diff(b, a) == [-Diff(a, b)[0], -Diff(a, b)[1]];
  }

  /** A block is never its own neighbour. */
  lemma AdjIrreflexive(a: Point)
    ensures !Adj(a, a)
  {
    assert Diff(a, a) == [0, 0];
  }

  // ---------------------------------------------------------------------
  // The clockwise walk inside a block.

  /** `CLOCKWISE_IN_TABLE`: the step to the next position clockwise inside the block. */
  const ClockwiseInTable: map<Point, Point> :=
    map[[0, 0] := [1, 0], [1, 0] := [1, 1], [1, 1] := [0, 1], [0, 1] := [0, 0]]

  /** `CLOCKWISE_OUT_TABLE`: the step out of the block from each position. */
  const ClockwiseOutTable: map<Point, Point> :=
    map[[0, 0] := [0, -1], [1, 0] := [2, 0], [1, 1] := [1, 2], [0, 1] := [-1, 1]]

  lemma SubcellInTables(p: Point)
    ensures Subcell(p) in ClockwiseInTable && Subcell(p) in ClockwiseOutTable
  {
    var s := Subcell(p);
    assert s == [s[0], s[1]];
  }

  /** `clockwise_in`: the next position clockwise inside the same block. */
  function ClockwiseIn(pos: Point): Point
  {
    SubcellInTables(pos);
    Shift(Supercell(pos), ClockwiseInTable[Subcell(pos)])
  }

  /** `clockwise_out`: the position just outside the block, ahead of `pos`. */
  function ClockwiseOut(pos: Point): Point
  {
    SubcellInTables(pos);
    Shift(Supercell(pos), ClockwiseOutTable[Subcell(pos)])
  }

  /** A block corner plus an offset inside the block splits back into the two. */
  lemma CornerPlusSubcell(c: Point, t: Point)
    requires c[0] % 2 == 0 && c[1] % 2 == 0 && 0 <= t[0] <= 1 && 0 <= t[1] <= 1
    ensures Supercell(Shift(c, t)) == c && Subcell(Shift(c, t)) == t
  {
    assert c == [c[0], c[1]] && t == [t[0], t[1]];
  }

  /** The next position clockwise keeps the block and follows the table. */
  lemma ClockwiseInParts(p: Point)
    ensures Supercell(ClockwiseIn(p)) == Supercell(p)
    ensures Subcell(ClockwiseIn(p)) == ClockwiseInTable[Subcell(p)]
  {
    SupercellSplit(p);
    SubcellInTables(p);
    var s := Subcell(p);
    assert s == [s[0], s[1]];
    CornerPlusSubcell(Supercell(p), ClockwiseInTable[s]);
  }

  /** Stepping clockwise moves one cell and stays in the block. */
  lemma ClockwiseInStep(p: Point)
    ensures GridDistance(p, ClockwiseIn(p)) == 1
    ensures Supercell(ClockwiseIn(p)) == Supercell(p)
  {
    ClockwiseInParts(p);
    SupercellSplit(p);
    var s := Subcell(p);
    assert s == [s[0], s[1]];
    GridDistance2(p, ClockwiseIn(p));
  }

  /** Each step out of the table moves one cell, into a neighbouring block. */
  lemma OutTableSteps(s: Point)
    requires s in ClockwiseOutTable
    ensures Abs(s[0] - ClockwiseOutTable[s][0]) + Abs(s[1] - ClockwiseOutTable[s][1]) == 1
    ensures Supercell(ClockwiseOutTable[s]) in SupercellDirections
  {
  }

  /** Stepping out moves one cell into a neighbouring block. */
  lemma ClockwiseOutStep(p: Point)
    ensures GridDistance(p, ClockwiseOut(p)) == 1
    ensures Adj(Supercell(ClockwiseOut(p)), Supercell(p))
  {
    SupercellSplit(p);
    SubcellInTables(p);
    var s := Subcell(p);
    var c := Supercell(p);
    var t := ClockwiseOutTable[s];
    var o := ClockwiseOut(p);
    OutTableSteps(s);
    assert o == [c[0] + t[0], c[1] + t[1]];
    assert p == [c[0] + s[0], c[1] + s[1]];
    GridDistance2(p, o);
    CornerShift(c, t);
    assert Diff(Supercell(o), c) == Supercell(t);
  }

  /** Shifting a block corner by an offset lands in the corner shifted by the
      offset's block. */
  lemma CornerShift(c: Point, t: Point)
    requires c[0] % 2 == 0 && c[1] % 2 == 0
    ensures Supercell(Shift(c, t)) == Shift(c, Supercell(t))
  {
    assert (c[0] + t[0]) % 2 == t[0] % 2;
    assert (c[1] + t[1]) % 2 == t[1] % 2;
  }

  /** Four clockwise steps go once round the block. */
  lemma ClockwiseInCycle(p: Point)
    ensures ClockwiseIn(ClockwiseIn(ClockwiseIn(ClockwiseIn(p)))) == p
  {
    var p1 := ClockwiseIn(p);
    var p2 := ClockwiseIn(p1);
    var p3 := ClockwiseIn(p2);
    ClockwiseInParts(p);
    ClockwiseInParts(p1);
    ClockwiseInParts(p2);
    ClockwiseInParts(p3);
    var s := Subcell(p);
    assert s == [s[0], s[1]];
    SupercellSplit(p);
    SupercellSplit(ClockwiseIn(p3));
  }

  /** `clockwise_step`: leave for the block `next` when the step out leads
      there, otherwise go on clockwise inside the block. */
  function ClockwiseStep(start: Point, next: Point): Point
  {
    var inNext := ClockwiseIn(start);
    var outNext := ClockwiseOut(start);
    if Supercell(outNext) == next then outNext else inNext
  }

  /** The step is one of the four unit moves, and it lands in `next` exactly
      when the step out leads there; otherwise it stays in the block. */
  lemma ClockwiseStepMoves(start: Point, next: Point)
    ensures Diff(ClockwiseStep(start, next), start) in ValidDirections
    ensures Supercell(ClockwiseStep(start, next)) == next <==>
      Supercell(ClockwiseOut(start)) == next || Supercell(start) == next
    ensures Supercell(ClockwiseStep(start, next)) != next ==>
      Supercell(ClockwiseStep(start, next)) == Supercell(start)
  {
    ClockwiseInStep(start);
    ClockwiseOutStep(start);
    UnitStepDirection(start, ClockwiseStep(start, next));
    AdjIrreflexive(Supercell(start));
  }

  /** A move to a cell one away is one of the four directions. */
  lemma UnitStepDirection(a: Point, b: Point)
    requires GridDistance(a, b) == 1
    ensures Diff(b, a) in ValidDirections
  {
    var d := Diff(b, a);
    GridDistance2(a, b);
    ValidDirectionsAreUnitSteps(d);
    assert SumAbs(d) == Abs(d[0]) + Abs(d[1]) by {
      assert d[1..][1..] == [];
      assert SumAbs(d[1..]) == Abs(d[1]) + SumAbs(d[1..][1..]);
    }
  }

  // ---------------------------------------------------------------------
  // Rotation of block steps.

  /** `clockwise_rotate`: a quarter turn clockwise (y grows downwards). */
  function Rotate(v: Point): Point
  {
    [-v[1], v[0]]
  }

  function RotateTimes(d: Point, k: nat): Point
  {
    if k == 0 then d else Rotate(RotateTimes(d, k - 1))
  }

  /** Four quarter turns are the identity. */
  lemma RotateFourTimes(v: Point)
    ensures RotateTimes(v, 4) == v
  {
    assert RotateTimes(v, 1) == [-v[1], v[0]];
    assert RotateTimes(v, 2) == [-v[0], -v[1]];
    assert RotateTimes(v, 3) == [v[1], -v[0]];
    assert RotateTimes(v, 4) == [v[0], v[1]];
  }

  /** Rotation permutes the block steps. */
  lemma RotatePermutesDirections(d: Point)
    ensures d in SupercellDirections <==> Rotate(d) in SupercellDirections
  {
    assert d == [d[0], d[1]];
  }

  /** The number of quarter turns clockwise from `b` to `a`, 4 when they are equal. */
  function Turns(b: Point, a: Point): (r: nat)
    ensures 1 <= r <= 4
  {
    if RotateTimes(b, 1) == a then 1
    else if RotateTimes(b, 2) == a then 2
    else if RotateTimes(b, 3) == a then 3
    else 4
  }

  /** Between two block steps lie at most three quarter turns before the
      second is reached again. */
  lemma TurnsReach(b: Point, a: Point)
    requires b in SupercellDirections && a in SupercellDirections
    ensures 1 <= Turns(b, a) <= 4 && RotateTimes(b, Turns(b, a)) == a
    ensures forall k :: 1 <= k < Turns(b, a) ==> RotateTimes(b, k) != a
  {
    RotateFourTimes(b);
  }

  /** The block steps strictly clockwise after `b` and before `a`. */
  function Between(b: Point, a: Point): seq<Point>
  {
    seq(Turns(b, a) - 1, i requires 0 <= i => RotateTimes(b, i + 1))
  }

  /** `current + d` for each step `d`, in order. */
  function Offsets(current: Point, ds: seq<Point>): (r: seq<Point>)
    ensures |r| == |ds|
    ensures forall i :: 0 <= i < |ds| ==> r[i] == Shift(current, ds[i])
  {
    seq(|ds|, i requires 0 <= i < |ds| => Shift(current, ds[i]))
  }

  // ---------------------------------------------------------------------
  // Valid cycles.

  /** A cell of a cycle: a block corner on the board. */
  predicate CellOk(width: int, height: int, c: Point)
  {
    Supercell(c) == c && InBounds(c, [width, height])
  }

  /** Consecutive entries are neighbouring blocks. */
  predicate Chain(p: seq<Point>)
  {
    forall i :: 1 <= i < |p| ==> Adj(p[i - 1], p[i])
  }

  /** Every entry a block on the board and, for more than one entry, every
      cyclic neighbour pair (the last entry before the first) one block step apart. */
  predicate CycleShape(width: int, height: int, path: seq<Point>)
  {
    (forall c :: c in path ==> CellOk(width, height, c)) &&
    (|path| > 1 ==> Chain(path) && Adj(path[|path| - 1], path[0]))
  }

  /** `assert_path_valid` with its checks enabled: even dimensions and a
      cycle of blocks on the board. */
  predicate PathValid(width: int, height: int, path: seq<Point>)
  {
    width % 2 == 0 && height % 2 == 0 && CycleShape(width, height, path)
  }

  /** The entry before `idx`, wrapping round like Python's `path[idx - 1]`. */
  function Before(path: seq<Point>, idx: nat): Point
    requires idx < |path|
  {
    if idx == 0 then path[|path| - 1] else path[idx - 1]
  }

  /** The entry after `idx`, wrapping round like `path[(idx + 1) % len(path)]`. */
  function After(path: seq<Point>, idx: nat): Point
    requires idx < |path|
  {
    if idx + 1 == |path| then path[0] else path[idx + 1]
  }

  /** In a valid cycle of two or more blocks, each block neighbours the
      blocks before and after it. */
  lemma ValidNeighbours(width: int, height: int, path: seq<Point>, idx: nat)
    requires PathValid(width, height, path) && |path| > 1 && idx < |path|
    ensures Adj(Before(path, idx), path[idx]) && Adj(After(path, idx), path[idx])
  {
    if idx + 1 < |path| {
      assert Adj(path[idx], path[idx + 1]);
      AdjSymmetric(path[idx], path[idx + 1]);
    } else {
      AdjSymmetric(path[idx], path[0]);
    }
    if idx > 0 {
      assert Adj(path[idx - 1], path[idx]);
    }
  }

  // ---------------------------------------------------------------------
  // clockwise_reachable

  /** The cells `clockwise_reachable` yields, or `None` where it fails an
      assertion: on a single block its four neighbours; otherwise the
      neighbours strictly clockwise after the previous block and before the
      next one. */
  function Reachable(path: seq<Point>, idx: nat): Option<seq<Point>>
    requires idx < |path|
  {
    var current := path[idx];
    if |path| == 1 then Some(Offsets(current, DirectionOrder))
    else
      var db := Diff(Before(path, idx), current);
      var da := Diff(After(path, idx), current);
      if db in SupercellDirections && da in SupercellDirections then Some(Offsets(current, Between(db, da)))
      else None
  }

  /** The steps strictly between two block steps: at most three, each a
      block step, neither of the two ends. */
  lemma BetweenSteps(db: Point, da: Point)
    requires db in SupercellDirections && da in SupercellDirections
    ensures |Between(db, da)| <= 3
    ensures forall k :: 0 <= k < |Between(db, da)| ==>
      Between(db, da)[k] in SupercellDirections && Between(db, da)[k] != db && Between(db, da)[k] != da
  {
    TurnsReach(db, da);
    forall k | 0 <= k < |Between(db, da)|
      ensures Between(db, da)[k] in SupercellDirections && Between(db, da)[k] != db && Between(db, da)[k] != da
    {
      RotationsStayDirections(db, k + 1);
      OnlyFullTurnIsIdentity(db, k + 1);
    }
  }

  /** What the reachable cells are: at most three; each a neighbour of the
      block, never the previous or the next block of the cycle. */
  lemma ReachableCells(path: seq<Point>, idx: nat)
    requires idx < |path| && |path| > 1 && Reachable(path, idx).Some?
    ensures |Reachable(path, idx).value| <= 3
    ensures forall c :: c in Reachable(path, idx).value ==>
      Adj(c, path[idx]) && c != Before(path, idx) && c != After(path, idx)
  {
    var current := path[idx];
    var db := Diff(Before(path, idx), current);
    var da := Diff(After(path, idx), current);
    BetweenSteps(db, da);
    var ds := Between(db, da);
    forall c | c in Reachable(path, idx).value
      ensures Adj(c, path[idx]) && c != Before(path, idx) && c != After(path, idx)
    {
      var i :| 0 <= i < |ds| && c == Shift(current, ds[i]);
      ShiftedCell(current, ds[i], Before(path, idx));
      ShiftedCell(current, ds[i], After(path, idx));
    }
  }

  /** A block step from `current` is a neighbouring block, and is not the
      block `other` unless the step is the one to `other`. */
  lemma ShiftedCell(current: Point, d: Point, other: Point)
    requires d in SupercellDirections
    ensures Adj(Shift(current, d), current)
    ensures d != Diff(other, current) ==> Shift(current, d) != other
  {
    assert Diff(Shift(current, d), current) == d;
  }

  lemma {:induction false} RotationsStayDirections(d: Point, k: nat)
    requires d in SupercellDirections
    ensures RotateTimes(d, k) in SupercellDirections
  {
    if k > 0 {
      RotationsStayDirections(d, k - 1);
      RotatePermutesDirections(RotateTimes(d, k - 1));
    }
  }

  /** One, two or three quarter turns always change a block step. */
  lemma OnlyFullTurnIsIdentity(d: Point, k: nat)
    requires d in SupercellDirections && 1 <= k <= 3
    ensures RotateTimes(d, k) != d
  {
  }

  /** `clockwise_reachable`, with its rotation loop: turns from the previous
      block's direction until the next block's direction comes round. */
  method ClockwiseReachable(path: seq<Point>, idx: nat) returns (r: Option<seq<Point>>)
    requires idx < |path|
    ensures r == Reachable(path, idx)
  {
    var current := path[idx];
    if |path| == 1 {
      return Some(Offsets(current, DirectionOrder));
    }
    var before := Before(path, idx);
    var after := After(path, idx);
    var dirBefore := Diff(before, current);
    var dirAfter := Diff(after, current);
    if dirBefore !in SupercellDirections || dirAfter !in SupercellDirections {
      return None;
    }
    TurnsReach(dirBefore, dirAfter);
    var possible: seq<Point> := [];
    var attempt := Rotate(dirBefore);
    while attempt != dirAfter
      invariant |possible| < Turns(dirBefore, dirAfter)
      invariant attempt == RotateTimes(dirBefore, |possible| + 1)
      invariant possible == seq(|possible|, i requires 0 <= i => RotateTimes(dirBefore, i + 1))
      decreases Turns(dirBefore, dirAfter) - |possible|
    {
      possible := possible + [attempt];
      attempt := Rotate(attempt);
    }
    return Some(Offsets(current, possible));
  }

  // ---------------------------------------------------------------------
  // Chains of blocks.

  lemma ChainAppend(x: seq<Point>, y: seq<Point>)
    requires Chain(x) && Chain(y)
    requires |x| > 0 && |y| > 0 ==> Adj(x[|x| - 1], y[0])
    ensures Chain(x + y)
  {
    var z := x + y;
    forall i | 1 <= i < |z| ensures Adj(z[i - 1], z[i]) {
      if i < |x| {
        assert z[i - 1] == x[i - 1] && z[i] == x[i];
      } else if i == |x| {
        assert z[i - 1] == x[|x| - 1] && z[i] == y[0];
      } else {
        assert z[i - 1] == y[i - 1 - |x|] && z[i] == y[i - |x|];
      }
    }
  }

  lemma ChainReversed(a: seq<Point>)
    requires Chain(a)
    ensures Chain(Reversed(a))
  {
    var r := Reversed(a);
    forall i | 1 <= i < |r| ensures Adj(r[i - 1], r[i]) {
      assert Adj(a[|a| - 1 - i], a[|a| - i]);
      AdjSymmetric(a[|a| - 1 - i], a[|a| - i]);
    }
  }

  // ---------------------------------------------------------------------
  // add_to_path

  /** The cycle after the detour `additions` (which starts at `cycle[idx]`) is
      walked out and back: everything before `idx`, the detour up to its
      last block, the detour in reverse, then everything after `idx`. */
  function Spliced(cycle: seq<Point>, additions: seq<Point>, idx: nat): (r: seq<Point>)
    requires idx < |cycle| && |additions| > 0
    ensures |r| == |cycle| + 2 * |additions| - 2
    ensures r[..idx] == cycle[..idx]
    ensures forall j :: idx <= j < idx + |additions| - 1 ==> r[j] == additions[j - idx]
    ensures forall j :: idx + |additions| - 1 <= j < idx + 2 * |additions| - 1 ==>
      r[j] == additions[idx + 2 * |additions| - 2 - j]
    ensures r[idx + 2 * |additions| - 1..] == cycle[idx + 1..]
  {
    var r := cycle[..idx] + additions[..|additions| - 1] + Reversed(additions) + cycle[idx + 1..];
    assert r[idx + 2 * |additions| - 1..] == cycle[idx + 1..];
    r
  }

  /** `add_to_path`: the spliced cycle, or an error when the index is out of
      range, the detour does not start at `cycle[idx]`, has no second block,
      or its second block is not clockwise-reachable from `cycle[idx]`. */
  method AddToPath(cycle: seq<Point>, additions: seq<Point>, idx: int) returns (r: Result<seq<Point>>)
    ensures r.Ok? <==>
      (0 <= idx < |cycle| && |additions| >= 2 && cycle[idx] == additions[0] &&
       Reachable(cycle, idx).Some? && additions[1] in Reachable(cycle, idx).value)
    ensures r.Ok? ==> r.value == Spliced(cycle, additions, idx)
  {
    var sliceable := cycle;
    if !(0 <= idx < |cycle|) {
      return Err("assertion failed: index out of range");
    }
    if |additions| == 0 {
      return Err("IndexError");
    }
    if sliceable[idx] != additions[0] {
      return Err("assertion failed: detour does not start at the index");
    }
    if |additions| < 2 {
      return Err("IndexError");
    }
    var reachable := ClockwiseReachable(cycle, idx);
    if reachable.None? {
      return Err("assertion failed: not a valid cycle");
    }
    if additions[1] !in reachable.value {
      return Err("assertion failed: detour not clockwise-reachable");
    }
    var newPath: seq<Point> := [];
    newPath := newPath + sliceable[0..idx];
    assert newPath == cycle[..idx];
    newPath := newPath + additions[..|additions| - 1];
    newPath := newPath + Reversed(additions);
    newPath := newPath + sliceable[idx + 1..];
    return Ok(newPath);
  }

  /** Splicing a chain of blocks on the board, starting at `cycle[idx]`, into a
      valid cycle of two or more blocks gives a valid cycle. */
  lemma SplicedValid(width: int, height: int, cycle: seq<Point>, additions: seq<Point>, idx: nat)
    requires PathValid(width, height, cycle) && |cycle| >= 2 && idx < |cycle|
    requires |additions| >= 2 && additions[0] == cycle[idx] && Chain(additions)
    requires forall c :: c in additions ==> CellOk(width, height, c)
    ensures PathValid(width, height, Spliced(cycle, additions, idx))
  {
    SplicedChain(cycle, additions, idx);
    SplicedCells(width, height, cycle, additions, idx);
    SplicedEnds(cycle, additions, idx);
    assert Adj(cycle[|cycle| - 1], cycle[0]);
  }

  lemma SplicedChain(cycle: seq<Point>, additions: seq<Point>, idx: nat)
    requires Chain(cycle) && idx < |cycle|
    requires |additions| >= 2 && additions[0] == cycle[idx] && Chain(additions)
    ensures Chain(Spliced(cycle, additions, idx))
  {
    var n := |additions|;
    var pre := cycle[..idx];
    var out := additions[..n - 1];
    var back := Reversed(additions);
    var post := cycle[idx + 1..];
    assert Spliced(cycle, additions, idx) == pre + out + back + post;
    if idx > 0 {
      assert Adj(cycle[idx - 1], cycle[idx]);
    }
    ChainAppend(pre, out);
    assert back[0] == additions[n - 1];
    assert Adj(additions[n - 2], additions[n - 1]);
    ChainReversed(additions);
    ChainAppend(pre + out, back);
    if idx + 1 < |cycle| {
      assert Adj(cycle[idx], cycle[idx + 1]);
    }
    ChainAppend(pre + out + back, post);
  }

  lemma SplicedCells(width: int, height: int, cycle: seq<Point>, additions: seq<Point>, idx: nat)
    requires idx < |cycle| && |additions| >= 2
    requires forall c :: c in cycle ==> CellOk(width, height, c)
    requires forall c :: c in additions ==> CellOk(width, height, c)
    ensures forall c :: c in Spliced(cycle, additions, idx) ==> CellOk(width, height, c)
  {
    var n := |additions|;
    var back := Reversed(additions);
    var r := Spliced(cycle, additions, idx);
    assert r == cycle[..idx] + additions[..n - 1] + back + cycle[idx + 1..];
    forall c | c in r ensures CellOk(width, height, c) {
      if c in back {
        var k :| 0 <= k < |back| && back[k] == c;
        assert additions[n - 1 - k] == c;
      }
    }
  }

  lemma SplicedEnds(cycle: seq<Point>, additions: seq<Point>, idx: nat)
    requires idx < |cycle| && |additions| >= 2 && additions[0] == cycle[idx]
    ensures Spliced(cycle, additions, idx)[0] == cycle[0]
    ensures Spliced(cycle, additions, idx)[|Spliced(cycle, additions, idx)| - 1] == cycle[|cycle| - 1]
  {
    var n := |additions|;
    var back := Reversed(additions);
    var post := cycle[idx + 1..];
    var r := Spliced(cycle, additions, idx);
    assert r == cycle[..idx] + additions[..n - 1] + back + post;
    if idx + 1 == |cycle| {
      assert r[|r| - 1] == back[n - 1] == additions[0];
    } else {
      assert r[|r| - 1] == post[|post| - 1];
    }
    if idx == 0 {
      assert r[0] == additions[0];
    }
  }

  /** On a one-block cycle the splice is not a cycle: the detour `[A, B]`
      becomes `[A, B, A]`, whose last block is its first. */
  lemma SplicedSingletonNotValid()
    ensures Reachable([[0, 0]], 0).Some? && [2, 0] in Reachable([[0, 0]], 0).value
    ensures Spliced([[0, 0]], [[0, 0], [2, 0]], 0) == [[0, 0], [2, 0], [0, 0]]
    ensures PathValid(4, 4, [[0, 0]]) && !PathValid(4, 4, Spliced([[0, 0]], [[0, 0], [2, 0]], 0))
  {
    assert Offsets([0, 0], DirectionOrder)[0] == [2, 0];
    var r := Spliced([[0, 0]], [[0, 0], [2, 0]], 0);
    assert r == [[0, 0], [2, 0], [0, 0]];
    AdjIrreflexive([0, 0]);
  }

  // ---------------------------------------------------------------------
  // find_discardable and reduce_path

  predicate Increasing(ks: seq<nat>)
  {
    forall a, b :: 0 <= a < b < |ks| ==> ks[a] < ks[b]
  }

  /** The entries of `path` at the indices `ks`, in order. */
  function Pick(path: seq<Point>, ks: seq<nat>): (r: seq<Point>)
    requires forall k :: 0 <= k < |ks| ==> ks[k] < |path|
    ensures |r| == |ks| && forall k :: 0 <= k < |ks| ==> r[k] == path[ks[k]]
  {
    seq(|ks|, k requires 0 <= k < |ks| => path[ks[k]])
  }

  /** The state of `find_discardable` after the first `idx` entries: the
      indices yielded so far are distinct and below `idx`; `kept` lists the
      others in order; the stack is the top of `kept`, with only its bottom
      entry allowed to hold a `keep` block; the last kept entry equals the
      last entry seen; every `keep` block seen so far survives; and kept
      entries of a chain still form a chain. */
  ghost predicate Discarding(path: seq<Point>, keep: set<Point>, idx: nat,
                             drops: seq<nat>, kept: seq<nat>, stack: seq<(Point, nat)>)
  {
    idx <= |path| && IndicesOk(idx, drops, kept) &&
    StackOk(path, keep, idx, kept, stack) && KeptOk(path, keep, idx, kept)
  }

  /** The dropped and the kept indices split `0 .. idx - 1`. */
  ghost predicate IndicesOk(idx: nat, drops: seq<nat>, kept: seq<nat>)
  {
    (forall k :: 0 <= k < |drops| ==> drops[k] < idx) &&
    (forall a, b :: 0 <= a < b < |drops| ==> drops[a] != drops[b]) &&
    Increasing(kept) && (forall k :: 0 <= k < |kept| ==> kept[k] < idx) &&
    (forall i :: 0 <= i < idx ==> (i in drops <==> i !in kept))
  }

  /** The stack is the top of the kept indices with their blocks. */
  ghost predicate StackOk(path: seq<Point>, keep: set<Point>, idx: nat, kept: seq<nat>, stack: seq<(Point, nat)>)
  {
    idx <= |path| &&
    (forall k :: 0 <= k < |kept| ==> kept[k] < |path|) &&
    |stack| <= |kept| &&
    (forall k :: 0 <= k < |stack| ==>
      stack[k].1 == kept[|kept| - |stack| + k] && stack[k].0 == path[stack[k].1]) &&
    (idx > 0 ==> |stack| > 0 && kept[0] == 0 && path[kept[|kept| - 1]] == path[idx - 1]) &&
    (forall k :: 1 <= k < |stack| ==> stack[k].0 !in keep)
  }

  /** Every `keep` block seen survives, and a chain stays a chain. */
  ghost predicate KeptOk(path: seq<Point>, keep: set<Point>, idx: nat, kept: seq<nat>)
  {
    idx <= |path| && (forall k :: 0 <= k < |kept| ==> kept[k] < |path|) &&
    (forall i :: 0 <= i < idx && path[i] in keep ==> path[i] in Pick(path, kept)) &&
    (Chain(path) ==> Chain(Pick(path, kept)))
  }

  /** An entry equal to the one below the stack top drops the top and itself. */
  lemma PopStep(path: seq<Point>, keep: set<Point>, idx: nat,
                drops: seq<nat>, kept: seq<nat>, stack: seq<(Point, nat)>)
    requires Discarding(path, keep, idx, drops, kept, stack) && idx < |path|
    requires |stack| >= 2 && stack[|stack| - 2].0 == path[idx]
    ensures |kept| >= 2
    ensures Discarding(path, keep, idx + 1, drops + [stack[|stack| - 1].1, idx],
                       kept[..|kept| - 1], stack[..|stack| - 1])
  {
    assert stack[|stack| - 1].1 == kept[|kept| - 1];
    assert kept[0] < idx;
    DropIndices(idx, drops, kept, drops + [kept[|kept| - 1], idx], kept[..|kept| - 1]);
    PopStack(path, keep, idx, kept, stack);
    PopKept(path, keep, idx, kept, stack);
  }

  lemma PopStack(path: seq<Point>, keep: set<Point>, idx: nat, kept: seq<nat>, stack: seq<(Point, nat)>)
    requires StackOk(path, keep, idx, kept, stack) && 0 < idx < |path|
    requires |stack| >= 2 && stack[|stack| - 2].0 == path[idx]
    ensures StackOk(path, keep, idx + 1, kept[..|kept| - 1], stack[..|stack| - 1])
  {
    var kept', stack' := kept[..|kept| - 1], stack[..|stack| - 1];
    assert stack[|stack| - 2].1 == kept[|kept| - 2];
    assert kept'[|kept'| - 1] == kept[|kept| - 2];
    forall k | 0 <= k < |stack'|
      ensures stack'[k].1 == kept'[|kept'| - |stack'| + k] && stack'[k].0 == path[stack'[k].1]
    {
      assert stack'[k] == stack[k];
      assert kept'[|kept'| - |stack'| + k] == kept[|kept| - |stack| + k];
    }
  }

  lemma PopKept(path: seq<Point>, keep: set<Point>, idx: nat, kept: seq<nat>, stack: seq<(Point, nat)>)
    requires KeptOk(path, keep, idx, kept) && Increasing(kept) && 0 < idx < |path|
    requires StackOk(path, keep, idx, kept, stack)
    requires |stack| >= 2 && stack[|stack| - 2].0 == path[idx]
    ensures KeptOk(path, keep, idx + 1, kept[..|kept| - 1])
  {
    assert stack[|stack| - 2].1 == kept[|kept| - 2];
    assert stack[|stack| - 1].1 == kept[|kept| - 1];
    DropLastKept(path, kept, keep, path[idx]);
  }

  /** Moving the last kept index and the current one to the dropped indices
      keeps the two lists disjoint and the dropped ones distinct. */
  lemma DropIndices(idx: nat, drops: seq<nat>, kept: seq<nat>, drops': seq<nat>, kept': seq<nat>)
    requires |kept| > 0 && IndicesOk(idx, drops, kept)
    requires drops' == drops + [kept[|kept| - 1], idx] && kept' == kept[..|kept| - 1]
    ensures IndicesOk(idx + 1, drops', kept')
  {
    var t := kept[|kept| - 1];
    assert t !in drops;
    forall a, b | 0 <= a < b < |drops'| ensures drops'[a] != drops'[b] {
      if b >= |drops| {
        assert drops'[|drops|] == t && drops'[|drops| + 1] == idx;
      }
    }
    forall i | 0 <= i < idx + 1 ensures (i in drops' <==> i !in kept') {
      if i == t {
        assert i in drops';
        assert i !in kept';
      } else if i < idx {
        assert i in kept' <==> i in kept;
      }
    }
  }

  /** Any other entry is pushed, after clearing the stack if it is kept. */
  lemma PushStep(path: seq<Point>, keep: set<Point>, idx: nat,
                 drops: seq<nat>, kept: seq<nat>, stack: seq<(Point, nat)>)
    requires Discarding(path, keep, idx, drops, kept, stack) && idx < |path|
    ensures Discarding(path, keep, idx + 1, drops, kept + [idx],
                       (if path[idx] in keep then [] else stack) + [(path[idx], idx)])
  {
    PushIndices(idx, drops, kept);
    PushStack(path, keep, idx, kept, stack);
    PushKeptOk(path, keep, idx, kept, stack);
  }

  lemma PushIndices(idx: nat, drops: seq<nat>, kept: seq<nat>)
    requires IndicesOk(idx, drops, kept)
    ensures IndicesOk(idx + 1, drops, kept + [idx])
  {
    var kept' := kept + [idx];
    forall i | 0 <= i < idx + 1 ensures (i in drops <==> i !in kept') {
      if i < idx {
        assert i in kept' <==> i in kept;
      }
    }
  }

  lemma PushStack(path: seq<Point>, keep: set<Point>, idx: nat, kept: seq<nat>, stack: seq<(Point, nat)>)
    requires StackOk(path, keep, idx, kept, stack) && idx < |path|
    requires forall k :: 0 <= k < |kept| ==> kept[k] < idx
    ensures StackOk(path, keep, idx + 1, kept + [idx],
                    (if path[idx] in keep then [] else stack) + [(path[idx], idx)])
  {
    var kept' := kept + [idx];
    var stack' := (if path[idx] in keep then [] else stack) + [(path[idx], idx)];
    forall k | 0 <= k < |stack'|
      ensures stack'[k].1 == kept'[|kept'| - |stack'| + k] && stack'[k].0 == path[stack'[k].1]
    {
      if k < |stack'| - 1 {
        assert stack'[k] == stack[k];
        assert kept'[|kept'| - |stack'| + k] == kept[|kept| - |stack| + k];
      }
    }
    FirstBelow(kept, idx);
    if idx == 0 {
      assert kept == [];
    } else {
      assert kept'[0] == kept[0];
    }
  }

  /** The first of indices all below `n` is below `n`. */
  lemma FirstBelow(ks: seq<nat>, n: nat)
    requires forall k :: 0 <= k < |ks| ==> ks[k] < n
    ensures |ks| > 0 ==> ks[0] < n
  {
  }

  lemma PushKeptOk(path: seq<Point>, keep: set<Point>, idx: nat, kept: seq<nat>, stack: seq<(Point, nat)>)
    requires KeptOk(path, keep, idx, kept) && Increasing(kept) && idx < |path|
    requires StackOk(path, keep, idx, kept, stack)
    requires forall k :: 0 <= k < |kept| ==> kept[k] < idx
    ensures KeptOk(path, keep, idx + 1, kept + [idx])
  {
    PushKept(path, kept, idx);
    if Chain(path) {
      if idx > 0 {
        assert Adj(path[idx - 1], path[idx]);
      }
      ChainAppend(Pick(path, kept), [path[idx]]);
    }
  }

  /** The invariant on a state of the scan. */
  ghost predicate ScanOk(path: seq<Point>, keep: set<Point>, idx: nat, st: Scan)
  {
    Discarding(path, keep, idx, st.drops, st.kept, st.stack)
  }

  /** One entry of the scan keeps the scan's invariant. */
  lemma ScanStep(path: seq<Point>, keep: set<Point>, idx: nat, st: Scan)
    requires ScanOk(path, keep, idx, st) && idx < |path|
    ensures ScanOk(path, keep, idx + 1, ScanOne(path, keep, st, idx))
  {
    if |st.stack| >= 2 && st.stack[|st.stack| - 2].0 == path[idx] {
      PopScan(path, keep, idx, st);
    } else {
      PushScan(path, keep, idx, st);
    }
  }

  lemma PopScan(path: seq<Point>, keep: set<Point>, idx: nat, st: Scan)
    requires ScanOk(path, keep, idx, st) && idx < |path|
    requires |st.stack| >= 2 && st.stack[|st.stack| - 2].0 == path[idx]
    ensures ScanOk(path, keep, idx + 1, ScanOne(path, keep, st, idx))
  {
    PopStep(path, keep, idx, st.drops, st.kept, st.stack);
    PopOne(path, keep, st, idx);
  }

  lemma PopOne(path: seq<Point>, keep: set<Point>, st: Scan, idx: nat)
    requires idx < |path| && |st.kept| > 0
    requires |st.stack| >= 2 && st.stack[|st.stack| - 2].0 == path[idx]
    ensures ScanOne(path, keep, st, idx) ==
      Scan(st.stack[..|st.stack| - 1], st.drops + [st.stack[|st.stack| - 1].1, idx], st.kept[..|st.kept| - 1])
  {
  }

  lemma PushScan(path: seq<Point>, keep: set<Point>, idx: nat, st: Scan)
    requires ScanOk(path, keep, idx, st) && idx < |path|
    requires !(|st.stack| >= 2 && st.stack[|st.stack| - 2].0 == path[idx])
    ensures ScanOk(path, keep, idx + 1, ScanOne(path, keep, st, idx))
  {
    PushStep(path, keep, idx, st.drops, st.kept, st.stack);
    assert ScanOne(path, keep, st, idx) ==
      Scan((if path[idx] in keep then [] else st.stack) + [(path[idx], idx)], st.drops, st.kept + [idx]);
  }

  lemma DiscardingDone(path: seq<Point>, keep: set<Point>, drops: seq<nat>, kept: seq<nat>, st: Scan)
    requires ScanOk(path, keep, |path|, st) && drops == st.drops && kept == st.kept
    ensures forall k :: 0 <= k < |drops| ==> drops[k] < |path|
    ensures forall a, b :: 0 <= a < b < |drops| ==> drops[a] != drops[b]
    ensures Increasing(kept) && forall k :: 0 <= k < |kept| ==> kept[k] < |path|
    ensures forall i :: 0 <= i < |path| ==> (i in drops <==> i !in kept)
    ensures |path| > 0 ==> |kept| > 0 && kept[0] == 0 && path[kept[|kept| - 1]] == path[|path| - 1]
    ensures forall i :: 0 <= i < |path| && path[i] in keep ==> path[i] in Pick(path, kept)
    ensures Chain(path) ==> Chain(Pick(path, kept))
  {
  }

  /** The scan's state: the stack, the indices yielded and the indices kept. */
  datatype Scan = Scan(stack: seq<(Point, nat)>, drops: seq<nat>, kept: seq<nat>)

  /** One entry of `find_discardable`: a block equal to the one below the
      stack top closes an out-and-back step, so the top and the current index
      are yielded; any other block is pushed, after the stack is cleared when
      the block is in `keep`. */
  function ScanOne(path: seq<Point>, keep: set<Point>, st: Scan, idx: nat): Scan
    requires idx < |path|
  {
    var location := path[idx];
    if |st.stack| >= 2 && st.stack[|st.stack| - 2].0 == location then
      Scan(st.stack[..|st.stack| - 1], st.drops + [st.stack[|st.stack| - 1].1, idx],
           if |st.kept| > 0 then st.kept[..|st.kept| - 1] else [])
    else
      Scan((if location in keep then [] else st.stack) + [(location, idx)], st.drops, st.kept + [idx])
  }

  /** The scan after the first `n` entries. */
  function ScanUpTo(path: seq<Point>, keep: set<Point>, n: nat): Scan
    requires n <= |path|
  {
    if n == 0 then Scan([], [], []) else ScanOne(path, keep, ScanUpTo(path, keep, n - 1), n - 1)
  }

  lemma ScanStart(path: seq<Point>, keep: set<Point>)
    ensures ScanOk(path, keep, 0, Scan([], [], []))
  {
    assert Pick(path, []) == [];
  }

  /** Every state of the scan satisfies the scan's invariant. */
  lemma {:induction false} ScanUpToOk(path: seq<Point>, keep: set<Point>, n: nat)
    requires n <= |path|
    ensures ScanOk(path, keep, n, ScanUpTo(path, keep, n))
  {
    if n == 0 {
      ScanStart(path, keep);
    } else {
      var m := n - 1;
      ScanUpToOk(path, keep, m);
      ScanStep(path, keep, m, ScanUpTo(path, keep, m));
      assert ScanUpTo(path, keep, n) == ScanOne(path, keep, ScanUpTo(path, keep, m), m);
    }
  }

  /** What `find_discardable` yields over the whole path: distinct indices,
      the complement of the kept indices, which start at the first entry,
      end at the last, keep every entry in `keep`, and keep a chain a chain. */
  lemma DiscardableFacts(path: seq<Point>, keep: set<Point>, drops: seq<nat>, kept: seq<nat>)
    requires drops == ScanUpTo(path, keep, |path|).drops && kept == ScanUpTo(path, keep, |path|).kept
    ensures forall k :: 0 <= k < |drops| ==> drops[k] < |path|
    ensures forall a, b :: 0 <= a < b < |drops| ==> drops[a] != drops[b]
    ensures Increasing(kept) && forall k :: 0 <= k < |kept| ==> kept[k] < |path|
    ensures forall i :: 0 <= i < |path| ==> (i in drops <==> i !in kept)
    ensures |path| > 0 ==> |kept| > 0 && kept[0] == 0 && path[kept[|kept| - 1]] == path[|path| - 1]
    ensures forall i :: 0 <= i < |path| && path[i] in keep ==> path[i] in Pick(path, kept)
    ensures Chain(path) ==> Chain(Pick(path, kept))
  {
    ScanUpToOk(path, keep, |path|);
    DiscardingDone(path, keep, drops, kept, ScanUpTo(path, keep, |path|));
  }

  /** `find_discardable`: the indices it yields, in order, and (as `kept`)
      the indices it does not yield, which is the scan over the whole path. */
  method FindDiscardable(path: seq<Point>, keep: set<Point>) returns (drops: seq<nat>, ghost kept: seq<nat>)
    ensures drops == ScanUpTo(path, keep, |path|).drops && kept == ScanUpTo(path, keep, |path|).kept
  {
    var stack: seq<(Point, nat)> := [];
    drops := [];
    kept := [];
    for idx := 0 to |path|
      invariant Scan(stack, drops, kept) == ScanUpTo(path, keep, idx)
    {
      var location := path[idx];
      if |stack| >= 2 && stack[|stack| - 2].0 == location {
        var top := stack[|stack| - 1];
        stack := stack[..|stack| - 1];
        drops := drops + [top.1, idx];
        kept := if |kept| > 0 then kept[..|kept| - 1] else [];
      } else {
        if location in keep {
          stack := [];
        }
        stack := stack + [(location, idx)];
        kept := kept + [idx];
      }
    }
  }

  /** Removing the last kept index shortens the picked entries by one. */
  lemma DropLastKept(path: seq<Point>, kept: seq<nat>, keep: set<Point>, location: Point)
    requires |kept| >= 2 && forall k :: 0 <= k < |kept| ==> kept[k] < |path|
    requires Increasing(kept)
    requires path[kept[|kept| - 1]] !in keep && path[kept[|kept| - 2]] == location
    ensures Pick(path, kept[..|kept| - 1]) == Pick(path, kept)[..|kept| - 1]
    ensures forall i :: i in kept[..|kept| - 1] <==> i in kept && i != kept[|kept| - 1]
    ensures forall c :: c in Pick(path, kept) && c in keep ==> c in Pick(path, kept[..|kept| - 1])
    ensures location in Pick(path, kept[..|kept| - 1])
  {
    var p := Pick(path, kept);
    forall c | c in p && c in keep ensures c in Pick(path, kept[..|kept| - 1]) {
      var k :| 0 <= k < |p| && p[k] == c;
      assert k < |kept| - 1;
      assert Pick(path, kept[..|kept| - 1])[k] == c;
    }
    assert Pick(path, kept[..|kept| - 1])[|kept| - 2] == location;
  }

  /** Appending a fresh kept index appends its entry. */
  lemma PushKept(path: seq<Point>, kept: seq<nat>, idx: nat)
    requires idx < |path| && forall k :: 0 <= k < |kept| ==> kept[k] < idx
    ensures Pick(path, kept + [idx]) == Pick(path, kept) + [path[idx]]
    ensures Increasing(kept) ==> Increasing(kept + [idx])
  {
    assert Pick(path, kept + [idx]) == Pick(path, kept) + [path[idx]];
  }

  /** The blocks `reduce_path` must not lose: those holding part of the
      snake, and the goal's block. */
  function Occupied(snake: seq<Point>, goal: Point): (r: set<Point>)
    ensures forall c :: c in snake ==> Supercell(c) in r
    ensures Supercell(goal) in r
    ensures forall b :: b in r ==> b == Supercell(goal) || exists c :: c in snake && Supercell(c) == b
  {
    (set c | c in snake :: Supercell(c)) + {Supercell(goal)}
  }

  /** The loop at the top of `reduce_path` that collects the blocks to keep. */
  method OccupiedBlocks(snake: seq<Point>, goal: Point) returns (occupied: set<Point>)
    ensures occupied == Occupied(snake, goal)
  {
    occupied := {};
    for i := 0 to |snake|
      invariant occupied == set c | c in snake[..i] :: Supercell(c)
    {
      TakeSnoc(snake, i + 1);
      assert (set c | c in snake[..i + 1] :: Supercell(c)) ==
        (set c | c in snake[..i] :: Supercell(c)) + {Supercell(snake[i])};
      occupied := occupied + {Supercell(snake[i])};
    }
    assert snake[..|snake|] == snake;
    occupied := occupied + {Supercell(goal)};
  }

  /** `reduce_path`: drop the indices `find_discardable` reports for the
      blocks of the snake and the goal. `kept` lists the surviving indices
      and `dropped` the reported ones; the result keeps every block holding
      part of the snake or the goal, the path's ends and a cycle's validity. */
  method ReducePath(path: seq<Point>, snake: seq<Point>, goal: Point)
    returns (r: seq<Point>, ghost kept: seq<nat>, ghost dropped: set<nat>)
    ensures kept == ScanUpTo(path, Occupied(snake, goal), |path|).kept
    ensures dropped == set k | k in ScanUpTo(path, Occupied(snake, goal), |path|).drops
    ensures Increasing(kept) && forall k :: 0 <= k < |kept| ==> kept[k] < |path|
    ensures forall i :: 0 <= i < |path| ==> (i in dropped <==> i !in kept)
    ensures r == Pick(path, kept)
    ensures dropped == {} ==> r == path
    ensures forall c :: c in snake && Supercell(c) in path ==> Supercell(c) in r
    ensures Supercell(goal) in path ==> Supercell(goal) in r
    ensures |path| > 0 ==> |r| > 0 && r[0] == path[0] && r[|r| - 1] == path[|path| - 1]
    ensures forall width, height ::
      PathValid(width, height, path) ==> PathValid(width, height, r) && (|path| >= 2 ==> |r| >= 2)
  {
    var occupied := OccupiedBlocks(snake, goal);
    var drops;
    drops, kept := FindDiscardable(path, occupied);
    var drop: set<nat> := set k | k in drops;
    dropped := drop;
    KeptIndices(path, occupied, kept, drop);
    r := WithoutIndices(path, drop, kept);
    ReducedFacts(path, snake, goal, kept, r);
  }

  /** The indices the scan keeps for `reduce_path` are increasing, lie on
      the path, and are exactly those it does not report. */
  lemma KeptIndices(path: seq<Point>, keep: set<Point>, kept: seq<nat>, drop: set<nat>)
    requires kept == ScanUpTo(path, keep, |path|).kept
    requires drop == set k | k in ScanUpTo(path, keep, |path|).drops
    ensures Increasing(kept) && forall k :: 0 <= k < |kept| ==> kept[k] < |path|
    ensures forall i :: 0 <= i < |path| ==> (i in drop <==> i !in kept)
  {
    var drops := ScanUpTo(path, keep, |path|).drops;
    DiscardableFacts(path, keep, drops, kept);
  }

  /** The entries the scan keeps hold every block of the snake and the
      goal's block that is on the path, start and end where the path does,
      and keep a cycle valid. */
  lemma ReducedFacts(path: seq<Point>, snake: seq<Point>, goal: Point, kept: seq<nat>, r: seq<Point>)
    requires kept == ScanUpTo(path, Occupied(snake, goal), |path|).kept
    requires forall k :: 0 <= k < |kept| ==> kept[k] < |path|
    requires r == Pick(path, kept)
    ensures forall c :: c in snake && Supercell(c) in path ==> Supercell(c) in r
    ensures Supercell(goal) in path ==> Supercell(goal) in r
    ensures |path| > 0 ==> |r| > 0 && r[0] == path[0] && r[|r| - 1] == path[|path| - 1]
    ensures forall width, height ::
      PathValid(width, height, path) ==> PathValid(width, height, r) && (|path| >= 2 ==> |r| >= 2)
  {
    var keep := Occupied(snake, goal);
    var drops := ScanUpTo(path, keep, |path|).drops;
    DiscardableFacts(path, keep, drops, kept);
    KeepSurvives(path, kept, keep);
    ReducedValid(path, kept);
  }

  /** With nothing reported, `reduce_path` returns the path itself. */
  lemma NothingDropped(path: seq<Point>, kept: seq<nat>, drop: set<nat>)
    requires Increasing(kept) && forall k :: 0 <= k < |kept| ==> kept[k] < |path|
    requires forall i :: 0 <= i < |path| ==> (i in drop <==> i !in kept)
    requires |drop| == 0
    ensures Pick(path, kept) == path
  {
    assert drop == {};
    forall i | 0 <= i < |path| ensures i in kept {
      assert i !in drop;
    }
    AllKept(path, kept);
  }

  /** The blocks kept for a two-cell snake in block (0, 0), with the goal
      in that block or in block (4, 0). */
  lemma OccupiedExample()
    ensures Occupied([[0, 0], [1, 0]], [0, 0]) == {[0, 0]}
    ensures Occupied([[0, 0], [1, 0]], [4, 0]) == {[0, 0], [4, 0]}
  {
    assert Supercell([1, 0]) == [0, 0] && Supercell([0, 0]) == [0, 0] && Supercell([4, 0]) == [4, 0];
  }

  /** The out-and-back spur (2, 0), (4, 0), (2, 0), (0, 0) holds no block
      to keep, so both of its steps are dropped and only the ends survive. */
  lemma ReduceScanExample(path: seq<Point>, keep: set<Point>)
    requires path == [[0, 0], [2, 0], [4, 0], [2, 0], [0, 0], [0, 2]] && keep == {[0, 0]}
    ensures ScanUpTo(path, keep, |path|).drops == [2, 3, 1, 4]
    ensures ScanUpTo(path, keep, |path|).kept == [0, 5]
    ensures Pick(path, ScanUpTo(path, keep, |path|).kept) == [[0, 0], [0, 2]]
  {
    SpurScanPrefix(path, keep);
    assert ScanUpTo(path, keep, 4) == Scan([([0, 0], 0), ([2, 0], 1)], [2, 3], [0, 1]);
    assert ScanUpTo(path, keep, 5) == Scan([([0, 0], 0)], [2, 3, 1, 4], [0]);
    assert ScanUpTo(path, keep, 6) == Scan([([0, 0], 0), ([0, 2], 5)], [2, 3, 1, 4], [0, 5]);
  }

  /** The scan of the spur up to its tip: three entries pushed. */
  lemma SpurScanPrefix(path: seq<Point>, keep: set<Point>)
    requires path == [[0, 0], [2, 0], [4, 0], [2, 0], [0, 0], [0, 2]] && keep == {[0, 0]}
    ensures ScanUpTo(path, keep, 3) == Scan([([0, 0], 0), ([2, 0], 1), ([4, 0], 2)], [], [0, 1, 2])
  {
    assert ScanUpTo(path, keep, 1) == Scan([([0, 0], 0)], [], [0]);
    assert ScanUpTo(path, keep, 2) == Scan([([0, 0], 0), ([2, 0], 1)], [], [0, 1]);
  }

  /** With the spur's tip (4, 0) to keep, the scan restarts there and
      nothing is dropped. */
  lemma KeepScanExample(path: seq<Point>, keep: set<Point>)
    requires path == [[0, 0], [2, 0], [4, 0], [2, 0], [0, 0], [0, 2]] && keep == {[0, 0], [4, 0]}
    ensures ScanUpTo(path, keep, |path|).drops == []
  {
    assert ScanUpTo(path, keep, 1) == Scan([([0, 0], 0)], [], [0]);
    assert ScanUpTo(path, keep, 2) == Scan([([0, 0], 0), ([2, 0], 1)], [], [0, 1]);
    assert ScanUpTo(path, keep, 3) == Scan([([4, 0], 2)], [], [0, 1, 2]);
    assert ScanUpTo(path, keep, 4) == Scan([([4, 0], 2), ([2, 0], 3)], [], [0, 1, 2, 3]);
    assert ScanUpTo(path, keep, 5) == Scan([([0, 0], 4)], [], [0, 1, 2, 3, 4]);
  }

  /** The second test of `reduce_path`, for a snake on (0, 0) and (1, 0):
      with the goal at (0, 0) the spur is cut away, leaving (0, 0), (0, 2);
      with the goal at (4, 0) nothing is dropped, so `reduce_path` returns
      the path itself (see `ReducePath`). */
  lemma ReducedSpur(path: seq<Point>, snake: seq<Point>)
    requires path == [[0, 0], [2, 0], [4, 0], [2, 0], [0, 0], [0, 2]] && snake == [[0, 0], [1, 0]]
    ensures ScanUpTo(path, Occupied(snake, [0, 0]), |path|).kept == [0, 5]
    ensures Pick(path, ScanUpTo(path, Occupied(snake, [0, 0]), |path|).kept) == [[0, 0], [0, 2]]
    ensures (set k | k in ScanUpTo(path, Occupied(snake, [4, 0]), |path|).drops) == {}
  {
    OccupiedExample();
    ReduceScanExample(path, Occupied(snake, [0, 0]));
    KeepScanExample(path, Occupied(snake, [4, 0]));
  }

  lemma KeepSurvives(path: seq<Point>, kept: seq<nat>, keep: set<Point>)
    requires forall k :: 0 <= k < |kept| ==> kept[k] < |path|
    requires forall i :: 0 <= i < |path| && path[i] in keep ==> path[i] in Pick(path, kept)
    ensures forall c :: c in keep && c in path ==> c in Pick(path, kept)
  {
    forall c | c in keep && c in path ensures c in Pick(path, kept) {
      var i :| 0 <= i < |path| && path[i] == c;
    }
  }

  /** The entries of `path` whose index is not in `drop`, in order: the
      path itself when `drop` is empty, otherwise the `filter` over
      `enumerate(path)` in `reduce_path`. */
  method WithoutIndices(path: seq<Point>, drop: set<nat>, ghost kept: seq<nat>) returns (r: seq<Point>)
    requires Increasing(kept) && forall k :: 0 <= k < |kept| ==> kept[k] < |path|
    requires forall i :: 0 <= i < |path| ==> (i in drop <==> i !in kept)
    ensures r == Pick(path, kept)
    ensures drop == {} ==> r == path
  {
    if |drop| == 0 {
      NothingDropped(path, kept, drop);
      r := path;
    } else {
      r := FilterIndices(path, drop, kept);
    }
  }

  /** The `filter` over `enumerate(path)` in `reduce_path`: the entries of
      `path` whose index is not in `drop`, in order. */
  method FilterIndices(path: seq<Point>, drop: set<nat>, ghost kept: seq<nat>) returns (r: seq<Point>)
    requires Increasing(kept) && forall k :: 0 <= k < |kept| ==> kept[k] < |path|
    requires forall i :: 0 <= i < |path| ==> (i in drop <==> i !in kept)
    ensures r == Pick(path, kept)
  {
    r := [];
    ghost var j := 0;
    for i := 0 to |path|
      invariant 0 <= j <= |kept|
      invariant forall k :: 0 <= k < j ==> kept[k] < i
      invariant forall k :: j <= k < |kept| ==> kept[k] >= i
      invariant r == Pick(path, kept[..j])
    {
      if i !in drop {
        assert i in kept;
        ghost var k :| 0 <= k < |kept| && kept[k] == i;
        assert kept[j] <= i;
        r := r + [path[i]];
        assert kept[..j + 1] == kept[..j] + [i];
        j := j + 1;
      } else {
        assert i !in kept;
      }
    }
    FirstAtLeast(kept, j, |path|);
    assert kept[..j] == kept;
  }

  /** The first of the indices from `j` on, all at least `n`, is at least `n`. */
  lemma FirstAtLeast(ks: seq<nat>, j: nat, n: nat)
    requires j <= |ks| && forall k :: j <= k < |ks| ==> ks[k] >= n
    ensures j < |ks| ==> ks[j] >= n
  {
  }

  /** When every index is kept, the picked entries are the whole path. */
  lemma AllKept(path: seq<Point>, kept: seq<nat>)
    requires Increasing(kept) && forall k :: 0 <= k < |kept| ==> kept[k] < |path|
    requires forall i :: 0 <= i < |path| ==> i in kept
    ensures Pick(path, kept) == path
  {
    for k := 0 to |path|
      invariant k <= |kept| && forall j :: 0 <= j < k ==> kept[j] == j
    {
      assert k in kept;
      var m :| 0 <= m < |kept| && kept[m] == k;
      if k > 0 {
        assert kept[k - 1] < kept[k];
      }
    }
  }

  /** What `find_discardable` promises about the kept indices is enough to
      keep a cycle valid, and a cycle of two or more blocks keeps two. */
  lemma ReducedValid(path: seq<Point>, kept: seq<nat>)
    requires Increasing(kept) && forall k :: 0 <= k < |kept| ==> kept[k] < |path|
    requires |path| > 0 ==> |kept| > 0 && kept[0] == 0 && path[kept[|kept| - 1]] == path[|path| - 1]
    requires Chain(path) ==> Chain(Pick(path, kept))
    ensures |path| > 0 ==>
      |Pick(path, kept)| > 0 && Pick(path, kept)[0] == path[0] &&
      Pick(path, kept)[|kept| - 1] == path[|path| - 1]
    ensures forall width, height ::
      PathValid(width, height, path) ==> PathValid(width, height, Pick(path, kept)) && (|path| >= 2 ==> |kept| >= 2)
  {
    var r := Pick(path, kept);
    forall width, height | PathValid(width, height, path)
      ensures PathValid(width, height, r) && (|path| >= 2 ==> |kept| >= 2)
    {
      forall c | c in r ensures CellOk(width, height, c) {
        var k :| 0 <= k < |r| && r[k] == c;
        assert path[kept[k]] in path;
      }
      if |path| >= 2 {
        AdjIrreflexive(path[0]);
      }
    }
  }

  // ---------------------------------------------------------------------
  // find_path_to_goal: the walk out of the head's block.

  /** The block the head walk looks at from `pos`: the block of `pos` moved
      by the block of `pos`'s exit. */
  function OutCell(pos: Point): Point
  {
    SubcellInTables(pos);
    Shift(Supercell(ClockwiseOutTable[Subcell(pos)]), Supercell(pos))
  }

  /** The exit block is a neighbouring block. */
  lemma OutCellNeighbour(pos: Point)
    ensures Supercell(OutCell(pos)) == OutCell(pos) && Adj(OutCell(pos), Supercell(pos))
  {
    SupercellSplit(pos);
    SubcellInTables(pos);
    var s := Subcell(pos);
    OutTableSteps(s);
    var c := Supercell(pos);
    var st := Supercell(ClockwiseOutTable[s]);
    assert OutCell(pos) == Shift(c, st);
    CornerShift(c, st);
    assert Supercell(st) == st;
    assert Diff(Shift(c, st), c) == st;
  }

  /** The position `j` steps clockwise from `pos` inside its block. */
  function InTimes(pos: Point, j: nat): Point
  {
    if j == 0 then pos else ClockwiseIn(InTimes(pos, j - 1))
  }

  /** The block step of the exit from each position inside a block. */
  function ExitStep(s: Point): Point
    requires s in ClockwiseOutTable
  {
    Supercell(ClockwiseOutTable[s])
  }

  /** Going once round a block, some exit leads to each of the four neighbours. */
  lemma ExitsCoverDirections(s: Point, d: Point)
    requires s in ClockwiseInTable && d in SupercellDirections
    ensures var s1 := ClockwiseInTable[s];
            var s2 := ClockwiseInTable[s1];
            var s3 := ClockwiseInTable[s2];
            d == ExitStep(s) || d == ExitStep(s1) || d == ExitStep(s2) || d == ExitStep(s3)
  {
    assert ExitStep([0, 0]) == [0, -2] && ExitStep([1, 0]) == [2, 0];
    assert ExitStep([1, 1]) == [0, 2] && ExitStep([0, 1]) == [-2, 0];
  }

  /** Going round a block keeps the block. */
  lemma {:induction false} InTimesBlock(pos: Point, j: nat)
    ensures Supercell(InTimes(pos, j)) == Supercell(pos)
  {
    if j > 0 {
      InTimesBlock(pos, j - 1);
      ClockwiseInParts(InTimes(pos, j - 1));
    }
  }

  /** The exit block is the block moved by the exit step. */
  lemma OutCellAsStep(pos: Point)
    ensures Subcell(pos) in ClockwiseOutTable
    ensures OutCell(pos) == Shift(Supercell(pos), ExitStep(Subcell(pos)))
  {
    SubcellInTables(pos);
  }

  /** Some position of the first four clockwise from `head` has its exit
      into any given neighbouring block, so the head walk stops. */
  lemma OutCoverage(head: Point, end: Point) returns (k: nat)
    requires Adj(end, Supercell(head))
    ensures k < 4 && OutCell(InTimes(head, k)) == end
  {
    var q1 := InTimes(head, 1);
    var q2 := InTimes(head, 2);
    var q3 := InTimes(head, 3);
    assert InTimes(head, 0) == head;
    assert q1 == ClockwiseIn(head) && q2 == ClockwiseIn(q1) && q3 == ClockwiseIn(q2);
    ClockwiseInParts(head);
    ClockwiseInParts(q1);
    ClockwiseInParts(q2);
    OutCellAsStep(head);
    OutCellAsStep(q1);
    OutCellAsStep(q2);
    OutCellAsStep(q3);
    k := ExitIndex(Supercell(head), end, Subcell(head), Subcell(q1), Subcell(q2), Subcell(q3),
                   OutCell(head), OutCell(q1), OutCell(q2), OutCell(q3));
    assert InTimes(head, k) == [head, q1, q2, q3][k];
  }

  /** The pure bookkeeping behind `OutCoverage`: which of the four positions
      round the block exits into `end`. */
  lemma ExitIndex(c: Point, end: Point, s0: Point, s1: Point, s2: Point, s3: Point,
                  o0: Point, o1: Point, o2: Point, o3: Point) returns (k: nat)
    requires Adj(end, c) && s0 in ClockwiseInTable
    requires s1 == ClockwiseInTable[s0] && s2 == ClockwiseInTable[s1] && s3 == ClockwiseInTable[s2]
    requires o0 == Shift(c, ExitStep(s0)) && o1 == Shift(c, ExitStep(s1))
    requires o2 == Shift(c, ExitStep(s2)) && o3 == Shift(c, ExitStep(s3))
    ensures k < 4 && [o0, o1, o2, o3][k] == end
  {
    var d := Diff(end, c);
    ExitsCoverDirections(s0, d);
    if d == ExitStep(s0) {
      ShiftDiff(end, c);
      k := 0;
    } else if d == ExitStep(s1) {
      ShiftDiff(end, c);
      k := 1;
    } else if d == ExitStep(s2) {
      ShiftDiff(end, c);
      k := 2;
    } else {
      ShiftDiff(end, c);
      k := 3;
    }
  }

  /** The blocks the head walk offers from `pos` within `n` steps: the exit
      block of each position clockwise from `pos`, until an exit leads to `end`. */
  function WalkOut(pos: Point, end: Point, n: nat): seq<Point>
    decreases n
  {
    if n == 0 || OutCell(pos) == end then [] else [OutCell(pos)] + WalkOut(ClockwiseIn(pos), end, n - 1)
  }

  /** Every block the head walk offers neighbours the head's block and is not `end`. */
  lemma {:induction false} WalkOutNeighbours(pos: Point, end: Point, n: nat)
    ensures forall c :: c in WalkOut(pos, end, n) ==>
      Supercell(c) == c && Adj(c, Supercell(pos)) && c != end
    decreases n
  {
    if n > 0 && OutCell(pos) != end {
      var next := ClockwiseIn(pos);
      WalkOutNeighbours(next, end, n - 1);
      ClockwiseInParts(pos);
      OutCellNeighbour(pos);
      assert Supercell(next) == Supercell(pos);
      var rest := WalkOut(next, end, n - 1);
      assert WalkOut(pos, end, n) == [OutCell(pos)] + rest;
      forall c | c in WalkOut(pos, end, n)
        ensures Supercell(c) == c && Adj(c, Supercell(pos)) && c != end
      {
        if c != OutCell(pos) {
          assert c in rest;
        }
      }
    }
  }

  /** `test_position`: a block off the old cycle and on the board. */
  predicate Open(blocked: set<Point>, width: int, height: int, c: Point)
  {
    c !in blocked && InBounds(c, [width, height])
  }

  /** `filter(test_position, cs)`. */
  function FilterOpen(blocked: set<Point>, width: int, height: int, cs: seq<Point>): seq<Point>
  {
    if |cs| == 0 then []
    else (if Open(blocked, width, height, cs[0]) then [cs[0]] else []) + FilterOpen(blocked, width, height, cs[1..])
  }

  /** The filter keeps exactly the open blocks. */
  lemma {:induction false} FilterOpenMembers(blocked: set<Point>, width: int, height: int, cs: seq<Point>)
    ensures forall c :: c in FilterOpen(blocked, width, height, cs) <==> c in cs && Open(blocked, width, height, c)
  {
    if |cs| > 0 {
      FilterOpenMembers(blocked, width, height, cs[1..]);
      assert cs == [cs[0]] + cs[1..];
    }
  }

  lemma FilterOpenCons(blocked: set<Point>, width: int, height: int, c: Point, cs: seq<Point>)
    ensures FilterOpen(blocked, width, height, [c] + cs) ==
      (if Open(blocked, width, height, c) then [c] else []) + FilterOpen(blocked, width, height, cs)
  {
    assert ([c] + cs)[1..] == cs;
  }

  /** One step of the head walk moves the exit block, when open, from the
      blocks still to come to the blocks collected. */
  lemma WalkStep(blocked: set<Point>, width: int, height: int, pos: Point, end: Point, n: nat,
                 cells: seq<Point>, all: seq<Point>)
    requires n > 0 && OutCell(pos) != end
    requires cells + FilterOpen(blocked, width, height, WalkOut(pos, end, n)) == all
    ensures Open(blocked, width, height, OutCell(pos)) ==>
      (cells + [OutCell(pos)]) + FilterOpen(blocked, width, height, WalkOut(ClockwiseIn(pos), end, n - 1)) == all
    ensures !Open(blocked, width, height, OutCell(pos)) ==>
      cells + FilterOpen(blocked, width, height, WalkOut(ClockwiseIn(pos), end, n - 1)) == all
  {
    var rest := WalkOut(ClockwiseIn(pos), end, n - 1);
    assert WalkOut(pos, end, n) == [OutCell(pos)] + rest;
    FilterOpenCons(blocked, width, height, OutCell(pos), rest);
  }

  /** Before the position whose exit leads to `end`, the walk goes on. */
  lemma NotYetOut(head: Point, end: Point, i: nat, k: nat)
    requires i <= k && OutCell(InTimes(head, k)) == end && OutCell(InTimes(head, i)) != end
    ensures i < k && InTimes(head, i + 1) == ClockwiseIn(InTimes(head, i))
  {
  }

  /** The head walk of `list_adjacent`: from the head, go clockwise round its
      block collecting the open exit blocks until the exit leads to `end`. */
  method HeadWalk(head: Point, end: Point, blocked: set<Point>, width: int, height: int) returns (cells: seq<Point>)
    requires Adj(end, Supercell(head))
    ensures cells == FilterOpen(blocked, width, height, WalkOut(head, end, 4))
  {
    ghost var k := OutCoverage(head, end);
    ghost var rounds: nat := 4;
    ghost var all := FilterOpen(blocked, width, height, WalkOut(head, end, rounds));
    var pos := head;
    ghost var i := 0;
    cells := [];
    while OutCell(pos) != end
      invariant 0 <= i <= k < rounds && pos == InTimes(head, i)
      invariant cells + FilterOpen(blocked, width, height, WalkOut(pos, end, rounds - i)) == all
      decreases rounds - i
    {
      NotYetOut(head, end, i, k);
      cells, pos := HeadStep(blocked, width, height, pos, end, cells, rounds - i, all);
      i := i + 1;
    }
    assert WalkOut(pos, end, rounds - i) == [];
  }

  /** One position of the head walk: collect its exit block when open and
      move clockwise. */
  method HeadStep(blocked: set<Point>, width: int, height: int, pos: Point, end: Point,
                  cells: seq<Point>, ghost n: nat, ghost all: seq<Point>)
    returns (cells': seq<Point>, pos': Point)
    requires n > 0 && OutCell(pos) != end
    requires cells + FilterOpen(blocked, width, height, WalkOut(pos, end, n)) == all
    ensures pos' == ClockwiseIn(pos)
    ensures cells' + FilterOpen(blocked, width, height, WalkOut(pos', end, n - 1)) == all
  {
    WalkStep(blocked, width, height, pos, end, n, cells, all);
    var outCell := OutCell(pos);
    cells' := cells;
    if Open(blocked, width, height, outCell) {
      cells' := cells + [outCell];
    }
    pos' := ClockwiseIn(pos);
  }

  // ---------------------------------------------------------------------
  // find_path_to_goal: the search.

  /** The search states: `Forward(k)` stands at entry `k` of the old cycle,
      `Raw(c)` at the block `c` off it. */
  datatype SearchState = Forward(steps: nat) | Raw(cell: Point)

  /** The blocks `cs` as search states. */
  function Raws(cs: seq<Point>): (r: seq<SearchState>)
    ensures |r| == |cs| && forall i :: 0 <= i < |cs| ==> r[i] == Raw(cs[i])
  {
    seq(|cs|, i requires 0 <= i < |cs| => Raw(cs[i]))
  }

  lemma InRaws(cs: seq<Point>, t: SearchState)
    requires t in Raws(cs)
    ensures t.Raw? && t.cell in cs
  {
    var i :| 0 <= i < |cs| && Raws(cs)[i] == t;
  }

  /** `list_adjacent`, with the head walk already done: `headCells` is what
      it yields from `Forward(0)` after the next cycle entry. A cycle entry
      whose neighbours are not a cycle yields nothing more (the source fails
      an assertion there; it cannot happen on a valid cycle). */
  function Successors(cycle: seq<Point>, blocked: set<Point>, width: int, height: int,
                      headCells: seq<Point>, s: SearchState): seq<SearchState>
  {
    match s
    case Forward(k) =>
      (if k + 1 < |cycle| then [Forward(k + 1)] else []) +
      (if k == 0 then Raws(headCells)
       else if k < |cycle| && Reachable(cycle, k).Some? then
         Raws(FilterOpen(blocked, width, height, Reachable(cycle, k).value))
       else [])
    case Raw(c) => Raws(FilterOpen(blocked, width, height, Offsets(c, DirectionOrder)))
  }

  /** `heuristic`: half the grid distance to `goal`, rounded down. */
  function Estimate(cycle: seq<Point>, goal: Point, s: SearchState): nat
  {
    match s
    case Forward(k) => if k < |cycle| then GridDistance(cycle[k], goal) / 2 else 0
    case Raw(c) => GridDistance(c, goal) / 2
  }

  /** The block a search state stands for. */
  function CellOf(cycle: seq<Point>, s: SearchState): Point
  {
    match s
    case Forward(k) => if k < |cycle| then cycle[k] else [0, 0]
    case Raw(c) => c
  }

  /** The blocks of a sequence of search states, in order. */
  function CellsOf(cycle: seq<Point>, p: seq<SearchState>): (r: seq<Point>)
    ensures |r| == |p| && forall i :: 0 <= i < |p| ==> r[i] == CellOf(cycle, p[i])
  {
    seq(|p|, i requires 0 <= i < |p| => CellOf(cycle, p[i]))
  }

  /** The states the search can reach: the cycle entries and the board's cells. */
  ghost function Universe(cycle: seq<Point>, width: int, height: int): set<SearchState>
  {
    (set k | 0 <= k < |cycle| :: Forward(k)) +
    (set x, y | 0 <= x < width && 0 <= y < height :: Raw([x, y]))
  }

  /** One search state per cycle entry and one per cell of the board: a
      bound on the states the search can expand. */
  function SearchFuel(cycle: seq<Point>, width: int, height: int): nat
  {
    |cycle| + if width > 0 && height > 0 then width * height else 0
  }

  /** The raw states of the cells in column `x`. */
  ghost function Column(x: int, height: nat): (r: seq<SearchState>)
    ensures |r| == height && forall y :: 0 <= y < height ==> r[y] == Raw([x, y])
  {
    seq(height, y requires 0 <= y < height => Raw([x, y]))
  }

  /** The raw states of the cells of the first `width` columns. */
  ghost function Cells(width: nat, height: nat): (r: seq<SearchState>)
    ensures |r| == width * height
  {
    if width == 0 then []
    else
      assert width * height == (width - 1) * height + height;
      Cells(width - 1, height) + Column(width - 1, height)
  }

  lemma {:induction false} InCells(width: nat, height: nat, x: int, y: int)
    requires 0 <= x < width && 0 <= y < height
    ensures Raw([x, y]) in Cells(width, height)
  {
    if x == width - 1 {
      assert Column(x, height)[y] == Raw([x, y]);
    } else {
      InCells(width - 1, height, x, y);
    }
  }

  /** The search universe has no more states than `SearchFuel` counts. */
  lemma UniverseSize(cycle: seq<Point>, width: int, height: int)
    ensures |Universe(cycle, width, height)| <= SearchFuel(cycle, width, height)
  {
    var forwards := seq(|cycle|, k requires 0 <= k < |cycle| => Forward(k));
    var all := forwards + if width > 0 && height > 0 then Cells(width, height) else [];
    forall t | t in Universe(cycle, width, height) ensures t in all {
      if t.Forward? {
        assert forwards[t.steps] == t;
      } else {
        var x, y :| 0 <= x < width && 0 <= y < height && t == Raw([x, y]);
        InCells(width, height, x, y);
      }
    }
    SubsetCard(Universe(cycle, width, height), set t | t in all);
    SeqSetCard(all);
  }

  /** What a step of the search is: from a raw block to an open neighbouring
      block; along the cycle to the next entry; from the first entry to a
      block the head walk offers; from a later entry to an open
      clockwise-reachable block. */
  ghost predicate Step(cycle: seq<Point>, blocked: set<Point>, width: int, height: int,
                       headCells: seq<Point>, s: SearchState, t: SearchState)
  {
    (s.Raw? ==> t.Raw? && t.cell in Offsets(s.cell, DirectionOrder) && Open(blocked, width, height, t.cell)) &&
    (s.Forward? && t.Forward? ==> t.steps == s.steps + 1 && t.steps < |cycle|) &&
    (s.Forward? && t.Raw? && s.steps == 0 ==> t.cell in headCells) &&
    (s.Forward? && t.Raw? && s.steps > 0 ==>
      s.steps < |cycle| && Reachable(cycle, s.steps).Some? &&
      t.cell in Reachable(cycle, s.steps).value && Open(blocked, width, height, t.cell))
  }

  /** Every successor is a step. */
  lemma SuccessorFacts(cycle: seq<Point>, blocked: set<Point>, width: int, height: int,
                       headCells: seq<Point>, s: SearchState, t: SearchState)
    requires t in Successors(cycle, blocked, width, height, headCells, s)
    ensures Step(cycle, blocked, width, height, headCells, s, t)
  {
    match s
    case Forward(k) =>
      ForwardSuccessor(cycle, blocked, width, height, headCells, k, t);
    case Raw(c) =>
      InRaws(FilterOpen(blocked, width, height, Offsets(c, DirectionOrder)), t);
      FilterOpenMembers(blocked, width, height, Offsets(c, DirectionOrder));
  }

  /** From entry `k` of the cycle: the next entry, or an open block off it. */
  lemma ForwardSuccessor(cycle: seq<Point>, blocked: set<Point>, width: int, height: int,
                         headCells: seq<Point>, k: nat, t: SearchState)
    requires t in Successors(cycle, blocked, width, height, headCells, Forward(k))
    ensures Step(cycle, blocked, width, height, headCells, Forward(k), t)
  {
    var fs := if k + 1 < |cycle| then [Forward(k + 1)] else [];
    var rest := if k == 0 then Raws(headCells)
      else if k < |cycle| && Reachable(cycle, k).Some? then
        Raws(FilterOpen(blocked, width, height, Reachable(cycle, k).value))
      else [];
    assert Successors(cycle, blocked, width, height, headCells, Forward(k)) == fs + rest;
    if t !in fs {
      assert t in rest;
      if k == 0 {
        InRaws(headCells, t);
      } else {
        var cs := FilterOpen(blocked, width, height, Reachable(cycle, k).value);
        InRaws(cs, t);
        FilterOpenMembers(blocked, width, height, Reachable(cycle, k).value);
      }
    }
  }

  /** A sequence of distinct states from `Forward(0)`, each a step from the one before. */
  ghost predicate Steps(cycle: seq<Point>, blocked: set<Point>, width: int, height: int,
                        headCells: seq<Point>, p: seq<SearchState>)
  {
    |p| > 0 && p[0] == Forward(0) &&
    (forall i :: 0 <= i < |p| - 1 ==> Step(cycle, blocked, width, height, headCells, p[i], p[i + 1])) &&
    (forall i, j :: 0 <= i < j < |p| ==> p[i] != p[j])
  }

  /** A walk of the search is a sequence of steps. */
  lemma WalkSteps(cycle: seq<Point>, blocked: set<Point>, width: int, height: int,
                  headCells: seq<Point>, succ: SearchState -> seq<SearchState>, p: seq<SearchState>)
    requires forall s :: succ(s) == Successors(cycle, blocked, width, height, headCells, s)
    requires IsWalk(succ, Forward(0), p)
    ensures Steps(cycle, blocked, width, height, headCells, p)
  {
    forall i | 0 <= i < |p| - 1 ensures Step(cycle, blocked, width, height, headCells, p[i], p[i + 1]) {
      assert p[i + 1] in succ(p[i]);
      SuccessorFacts(cycle, blocked, width, height, headCells, p[i], p[i + 1]);
    }
  }

  /** The search stays among the cycle entries and the board's cells. */
  lemma UniverseClosed(cycle: seq<Point>, blocked: set<Point>, width: int, height: int,
                       headCells: seq<Point>, succ: SearchState -> seq<SearchState>)
    requires |cycle| > 0
    requires forall c :: c in headCells ==> Open(blocked, width, height, c)
    requires forall s :: succ(s) == Successors(cycle, blocked, width, height, headCells, s)
    ensures Forward(0) in Universe(cycle, width, height)
    ensures forall s, t :: s in Universe(cycle, width, height) && t in succ(s) ==> t in Universe(cycle, width, height)
  {
    forall s, t | s in Universe(cycle, width, height) && t in succ(s)
      ensures t in Universe(cycle, width, height)
    {
      SuccessorFacts(cycle, blocked, width, height, headCells, s, t);
      if t.Raw? {
        var c := t.cell;
        InBounds2(c, width, height);
        assert t == Raw([c[0], c[1]]);
      }
    }
  }

  /** A walk of the search from `Forward(0)` follows the cycle for `split`
      entries and then stays off it. */
  lemma WalkShape(cycle: seq<Point>, blocked: set<Point>, width: int, height: int,
                  headCells: seq<Point>, p: seq<SearchState>)
    returns (split: nat)
    requires |cycle| > 0 && Steps(cycle, blocked, width, height, headCells, p)
    ensures 1 <= split <= |p| && split <= |cycle|
    ensures forall i :: 0 <= i < split ==> p[i] == Forward(i)
    ensures forall i :: split <= i < |p| ==> p[i].Raw?
  {
    split := 1;
    while split < |p| && p[split].Forward?
      invariant 1 <= split <= |p| && split <= |cycle|
      invariant forall i :: 0 <= i < split ==> p[i] == Forward(i)
    {
      assert Step(cycle, blocked, width, height, headCells, p[split - 1], p[split]);
      split := split + 1;
    }
    var i := split;
    while i < |p|
      invariant split <= i <= |p|
      invariant forall j :: split <= j < i ==> p[j].Raw?
    {
      if i > split {
        assert Step(cycle, blocked, width, height, headCells, p[i - 1], p[i]);
      }
      i := i + 1;
    }
  }

  /** A neighbour of a block corner is a block corner. */
  lemma AdjAligned(a: Point, b: Point)
    requires Adj(a, b) && Supercell(b) == b
    ensures Supercell(a) == a
  {
    var d := Diff(a, b);
    assert a == Shift(b, d);
    CornerShift(b, d);
  }

  /** Two block corners at most one cell apart are the same corner. */
  lemma AlignedNear(a: Point, b: Point)
    requires Supercell(a) == a && Supercell(b) == b && GridDistance(a, b) <= 1
    ensures a == b
  {
    GridDistance2(a, b);
    assert a[0] % 2 == 0 && a[1] % 2 == 0 && b[0] % 2 == 0 && b[1] % 2 == 0;
    EvenNear(a[0], b[0]);
    EvenNear(a[1], b[1]);
    assert a == [a[0], a[1]] && b == [b[0], b[1]];
  }

  /** Two even numbers at most one apart are equal. */
  lemma EvenNear(x: int, y: int)
    requires x % 2 == 0 && y % 2 == 0 && -1 <= x - y <= 1
    ensures x == y
  {
    assert x == 2 * (x / 2) && y == 2 * (y / 2);
  }

  /** What `find_path_to_goal` promises of the blocks it returns: the first
      `split` are the first entries of the old cycle; the rest are distinct
      blocks on the board and off the cycle; each block is a block step from
      the one before; the last is within one cell of `goal`, and is `goal`
      itself, off the cycle, when `goal` is a block corner; and when the walk
      leaves the cycle after a later entry than the first, its first block off
      the cycle is clockwise-reachable from that entry. */
  ghost predicate Detour(width: int, height: int, cycle: seq<Point>, goal: Point, p: seq<Point>, split: nat)
  {
    |p| >= 2 && 1 <= split <= |p| && split <= |cycle| &&
    p[..split] == cycle[..split] &&
    (forall i :: split <= i < |p| ==> p[i] !in cycle && CellOk(width, height, p[i])) &&
    (forall i, j :: split <= i < j < |p| ==> p[i] != p[j]) &&
    Chain(p) &&
    GridDistance(p[|p| - 1], goal) <= 1 &&
    (Supercell(goal) == goal ==> split < |p| && p[|p| - 1] == goal) &&
    (2 <= split < |p| ==>
      Reachable(cycle, split - 1).Some? && p[split] in Reachable(cycle, split - 1).value)
  }

  /** The assumptions under which the search runs: the blocked cells are the
      cycle's, and the head walk offers open block corners next to `cycle[0]`. */
  ghost predicate SearchSetup(width: int, height: int, cycle: seq<Point>, blocked: set<Point>,
                              headCells: seq<Point>)
  {
    CycleShape(width, height, cycle) && |cycle| > 0 &&
    (forall c :: c in blocked <==> c in cycle) &&
    (forall c :: c in headCells ==> Open(blocked, width, height, c) && Supercell(c) == c && Adj(c, cycle[0]))
  }

  /** Every block after the first `split` of the walk is an open block corner,
      a block step from the one before. */
  lemma {:induction false} WalkOffCycle(width: int, height: int, cycle: seq<Point>, blocked: set<Point>,
                     headCells: seq<Point>, p: seq<SearchState>, split: nat, i: nat)
    requires CycleShape(width, height, cycle) && |cycle| > 0
    requires forall c :: c in headCells ==> Open(blocked, width, height, c) && Supercell(c) == c && Adj(c, cycle[0])
    requires Steps(cycle, blocked, width, height, headCells, p) && 1 <= split <= |p| && split <= |cycle|
    requires forall j :: 0 <= j < split ==> p[j] == Forward(j)
    requires forall j :: split <= j < |p| ==> p[j].Raw?
    requires split <= i < |p|
    ensures Open(blocked, width, height, p[i].cell) && Supercell(p[i].cell) == p[i].cell
    ensures Adj(CellOf(cycle, p[i - 1]), p[i].cell)
    ensures i == split && split >= 2 ==>
      Reachable(cycle, split - 1).Some? && p[i].cell in Reachable(cycle, split - 1).value
    decreases i
  {
    var c := p[i].cell;
    assert Step(cycle, blocked, width, height, headCells, p[i - 1], p[i]);
    if i == split {
      LeaveCycle(width, height, cycle, headCells, split - 1, c);
    } else {
      WalkOffCycle(width, height, cycle, blocked, headCells, p, split, i - 1);
      RawStep(p[i - 1].cell, c);
    }
  }

  /** The first block off the cycle is a block corner next to the entry left. */
  lemma LeaveCycle(width: int, height: int, cycle: seq<Point>, headCells: seq<Point>, k: nat, c: Point)
    requires CycleShape(width, height, cycle) && k < |cycle|
    requires forall c :: c in headCells ==> Supercell(c) == c && Adj(c, cycle[0])
    requires k == 0 ==> c in headCells
    requires k > 0 ==> Reachable(cycle, k).Some? && c in Reachable(cycle, k).value
    ensures Supercell(c) == c && Adj(cycle[k], c)
  {
    if k == 0 {
      AdjSymmetric(c, cycle[0]);
    } else {
      assert cycle[k] in cycle;
      ReachableCells(cycle, k);
      AdjSymmetric(c, cycle[k]);
      AdjAligned(c, cycle[k]);
    }
  }

  /** A step between raw states is a block step between block corners. */
  lemma RawStep(b: Point, c: Point)
    requires Supercell(b) == b && c in Offsets(b, DirectionOrder)
    ensures Supercell(c) == c && Adj(b, c)
  {
    var j :| 0 <= j < |DirectionOrder| && c == Shift(b, DirectionOrder[j]);
    assert Diff(c, b) == DirectionOrder[j];
    AdjAligned(c, b);
    AdjSymmetric(c, b);
  }

  /** A cycle entry is never within one cell of a block corner off the cycle. */
  lemma EntryFarFromGoal(width: int, height: int, cycle: seq<Point>, k: nat, goal: Point)
    requires CycleShape(width, height, cycle) && k < |cycle|
    requires Supercell(goal) == goal && goal !in cycle
    ensures GridDistance(cycle[k], goal) > 1
  {
    assert cycle[k] in cycle;
    if GridDistance(cycle[k], goal) <= 1 {
      AlignedNear(cycle[k], goal);
    }
  }

  /** The blocks of a walk the search can return form a detour to the goal. */
  lemma WalkDetour(width: int, height: int, cycle: seq<Point>, goal: Point, blocked: set<Point>,
                   headCells: seq<Point>, p: seq<SearchState>, split: nat)
    requires SearchSetup(width, height, cycle, blocked, headCells)
    requires Steps(cycle, blocked, width, height, headCells, p)
    requires |p| >= 2 && Estimate(cycle, goal, p[|p| - 1]) == 0
    requires 1 <= split <= |p| && split <= |cycle|
    requires forall j :: 0 <= j < split ==> p[j] == Forward(j)
    requires forall j :: split <= j < |p| ==> p[j].Raw?
    requires Supercell(goal) !in cycle
    ensures Detour(width, height, cycle, goal, CellsOf(cycle, p), split)
  {
    WalkCells(width, height, cycle, blocked, headCells, p, split);
    DetourOf(width, height, cycle, goal, CellsOf(cycle, p), split);
  }

  /** The blocks of the walk: the first `split` are cycle entries, the rest
      distinct open block corners, each a block step from the block before. */
  lemma WalkCells(width: int, height: int, cycle: seq<Point>, blocked: set<Point>,
                  headCells: seq<Point>, p: seq<SearchState>, split: nat)
    requires SearchSetup(width, height, cycle, blocked, headCells)
    requires Steps(cycle, blocked, width, height, headCells, p)
    requires 1 <= split <= |p| && split <= |cycle|
    requires forall j :: 0 <= j < split ==> p[j] == Forward(j)
    requires forall j :: split <= j < |p| ==> p[j].Raw?
    ensures forall j :: 0 <= j < split ==> CellsOf(cycle, p)[j] == cycle[j]
    ensures forall i :: split <= i < |p| ==>
      CellsOf(cycle, p)[i] !in cycle && CellOk(width, height, CellsOf(cycle, p)[i]) &&
      Adj(CellsOf(cycle, p)[i - 1], CellsOf(cycle, p)[i])
    ensures 2 <= split < |p| ==>
      Reachable(cycle, split - 1).Some? && CellsOf(cycle, p)[split] in Reachable(cycle, split - 1).value
    ensures forall i, j :: split <= i < j < |p| ==> CellsOf(cycle, p)[i] != CellsOf(cycle, p)[j]
  {
    var q := CellsOf(cycle, p);
    forall i | split <= i < |p|
      ensures q[i] !in cycle && CellOk(width, height, q[i]) && Adj(q[i - 1], q[i])
    {
      WalkOffCycle(width, height, cycle, blocked, headCells, p, split, i);
    }
    if 2 <= split < |p| {
      WalkOffCycle(width, height, cycle, blocked, headCells, p, split, split);
    }
    DistinctCells(cycle, p, split);
  }

  /** Distinct raw states stand for distinct blocks. */
  lemma DistinctCells(cycle: seq<Point>, p: seq<SearchState>, split: nat)
    requires forall i, j :: 0 <= i < j < |p| ==> p[i] != p[j]
    requires forall j :: split <= j < |p| ==> p[j].Raw?
    ensures forall i, j :: split <= i < j < |p| ==> CellsOf(cycle, p)[i] != CellsOf(cycle, p)[j]
  {
    forall i, j | split <= i < j < |p| ensures CellsOf(cycle, p)[i] != CellsOf(cycle, p)[j] {
      assert p[i] != p[j];
    }
  }

  /** The facts about the blocks of a walk that make up a detour. */
  lemma DetourOf(width: int, height: int, cycle: seq<Point>, goal: Point, q: seq<Point>, split: nat)
    requires CycleShape(width, height, cycle)
    requires |q| >= 2 && 1 <= split <= |q| && split <= |cycle|
    requires forall j :: 0 <= j < split ==> q[j] == cycle[j]
    requires forall i :: split <= i < |q| ==> q[i] !in cycle && CellOk(width, height, q[i]) && Adj(q[i - 1], q[i])
    requires 2 <= split < |q| ==> Reachable(cycle, split - 1).Some? && q[split] in Reachable(cycle, split - 1).value
    requires forall i, j :: split <= i < j < |q| ==> q[i] != q[j]
    requires GridDistance(q[|q| - 1], goal) <= 1
    requires Supercell(goal) !in cycle
    ensures Detour(width, height, cycle, goal, q, split)
  {
    assert q[..split] == cycle[..split];
    DetourChain(width, height, cycle, q, split);
    DetourEnd(width, height, cycle, goal, q, split);
  }

  /** Entries of the cycle followed by block steps form a chain. */
  lemma DetourChain(width: int, height: int, cycle: seq<Point>, q: seq<Point>, split: nat)
    requires CycleShape(width, height, cycle)
    requires 1 <= split <= |q| && split <= |cycle|
    requires forall j :: 0 <= j < split ==> q[j] == cycle[j]
    requires forall i :: split <= i < |q| ==> Adj(q[i - 1], q[i])
    ensures Chain(q)
  {
    forall i | 1 <= i < |q| ensures Adj(q[i - 1], q[i]) {
      if i < split {
        assert q[i - 1] == cycle[i - 1] && q[i] == cycle[i];
      }
    }
  }

  /** A walk ending within one cell of a block corner off the cycle ends on it. */
  lemma DetourEnd(width: int, height: int, cycle: seq<Point>, goal: Point, q: seq<Point>, split: nat)
    requires CycleShape(width, height, cycle)
    requires 1 <= split <= |q| && split <= |cycle|
    requires forall j :: 0 <= j < split ==> q[j] == cycle[j]
    requires forall i :: split <= i < |q| ==> CellOk(width, height, q[i])
    requires GridDistance(q[|q| - 1], goal) <= 1
    requires Supercell(goal) !in cycle
    ensures Supercell(goal) == goal ==> split < |q| && q[|q| - 1] == goal
  {
    var last := |q| - 1;
    if Supercell(goal) == goal {
      if last < split {
        EntryFarFromGoal(width, height, cycle, last, goal);
      }
      AlignedNear(q[last], goal);
    }
  }

  /** The loop at the top of `find_path_to_goal`: the blocks of the cycle
      as a set, and whether the goal's block is one of them. */
  method BlockedSet(cycle: seq<Point>, goalCell: Point) returns (blocked: set<Point>, alreadyContained: bool)
    ensures forall c :: c in blocked <==> c in cycle
    ensures alreadyContained <==> goalCell in cycle
  {
    blocked, alreadyContained := {}, false;
    for i := 0 to |cycle|
      invariant forall c :: c in blocked <==> c in cycle[..i]
      invariant alreadyContained <==> goalCell in cycle[..i]
    {
      TakeSnoc(cycle, i + 1);
      blocked := blocked + {cycle[i]};
      if cycle[i] == goalCell {
        alreadyContained := true;
      }
    }
    assert cycle[..|cycle|] == cycle;
  }

  /** `find_path_to_goal`: A* over the search states from `Forward(0)` with
      the heuristic half the grid distance to `goal`; the blocks of the walk
      found. Errors where the source fails: odd dimensions, a goal block
      already on the cycle, or a search that finds nothing. `split` is the
      number of cycle entries the detour starts with. */
  method FindPathToGoal(width: int, height: int, cycle: seq<Point>, goal: Point, head: Option<Point>)
    returns (r: Result<seq<Point>>, ghost split: nat)
    requires CycleShape(width, height, cycle) && |cycle| > 0
    requires head.Some? ==> |cycle| >= 2 && Supercell(head.value) == cycle[0]
    ensures (width % 2 != 0 || height % 2 != 0 || Supercell(goal) in cycle) ==> r.Err?
    ensures r.Ok? ==> Detour(width, height, cycle, goal, r.value, split)
  {
    split := 0;
    if width % 2 != 0 || height % 2 != 0 {
      return Err("assertion failed: odd board"), split;
    }
    var blocked, alreadyContained := BlockedSet(cycle, Supercell(goal));
    if alreadyContained {
      return Err("assertion failed: goal already on the cycle"), split;
    }
    var headCells: seq<Point> := [];
    if head.Some? {
      var end := cycle[1 % |cycle|];
      assert Adj(end, Supercell(head.value)) by {
        assert Adj(cycle[0], cycle[1]);
        AdjSymmetric(cycle[0], cycle[1]);
      }
      headCells := HeadWalk(head.value, end, blocked, width, height);
      FilterOpenMembers(blocked, width, height, WalkOut(head.value, end, 4));
      WalkOutNeighbours(head.value, end, 4);
    }
    r, split := SearchDetour(width, height, cycle, goal, blocked, headCells);
  }

  /** The search of `find_path_to_goal` once the blocked cells and the head
      walk are known: the blocks of the walk A* finds, or the error raised
      when it finds none. */
  method SearchDetour(width: int, height: int, cycle: seq<Point>, goal: Point, blocked: set<Point>,
                      headCells: seq<Point>)
    returns (r: Result<seq<Point>>, ghost split: nat)
    requires SearchSetup(width, height, cycle, blocked, headCells)
    requires Supercell(goal) !in cycle
    ensures r.Ok? ==> Detour(width, height, cycle, goal, r.value, split)
  {
    split := 0;
    var succ := s => Successors(cycle, blocked, width, height, headCells, s);
    var estimate := s => Estimate(cycle, goal, s);
    UniverseClosed(cycle, blocked, width, height, headCells, succ);
    UniverseSize(cycle, width, height);
    var found, outOfFuel := AStarSearch(Forward(0), estimate, succ, SearchFuel(cycle, width, height),
                                        Universe(cycle, width, height));
    assert !outOfFuel;
    if found.None? {
      return Err("TypeError: the search found no path"), split;
    }
    var states := found.value;
    WalkSteps(cycle, blocked, width, height, headCells, succ, states);
    split := WalkShape(cycle, blocked, width, height, headCells, states);
    WalkDetour(width, height, cycle, goal, blocked, headCells, states, split);
    r := Ok(CellsOf(cycle, states));
  }

  // ---------------------------------------------------------------------
  // update_path

  /** The scan in `update_path` for the first entry where the detour leaves
      the cycle: the index just past the common prefix, or the IndexError
      raised when the detour runs out first. */
  method LeavingIndex(cycle: seq<Point>, detour: seq<Point>, ghost split: nat) returns (r: Result<nat>)
    requires split <= |cycle| && split <= |detour|
    requires forall j :: 0 <= j < split ==> detour[j] == cycle[j]
    requires split < |detour| ==> detour[split] !in cycle
    ensures r.Ok? <==> split < |detour| || split == |cycle|
    ensures r.Ok? ==> r.value == split
  {
    var idx := 0;
    while idx < |cycle| && (idx >= |detour| || cycle[idx] == detour[idx])
      invariant 0 <= idx <= split
    {
      if idx >= |detour| {
        return Err("IndexError");
      }
      if idx == split {
        NotOnCycle(cycle, detour[idx], idx);
        assert false;
      }
      idx := idx + 1;
    }
    return Ok(idx);
  }

  /** A cell off the cycle is none of its entries. */
  lemma NotOnCycle(cycle: seq<Point>, c: Point, i: nat)
    requires c !in cycle && i < |cycle|
    ensures cycle[i] != c
  {
  }

  /** The detour (0, 0), (2, 0), …, (8, 0), which leaves the cycle
      (0, 0), (2, 0) after its second entry, is walked out to (8, 0) and back. */
  lemma SplicedExample(cycle: seq<Point>, detour: seq<Point>)
    requires cycle == [[0, 0], [2, 0]] && detour == [[0, 0], [2, 0], [4, 0], [6, 0], [8, 0]]
    ensures Spliced(cycle, detour[1..], 1) ==
      [[0, 0], [2, 0], [4, 0], [6, 0], [8, 0], [6, 0], [4, 0], [2, 0]]
  {
    assert detour[1..] == [[2, 0], [4, 0], [6, 0], [8, 0]];
    assert Reversed(detour[1..]) == [[8, 0], [6, 0], [4, 0], [2, 0]];
  }

  /** `update_path`: find the detour to `goal`, find where it leaves the old
      cycle, and splice it in there. A success is the old cycle with a
      detour to `goal` walked out and back from the entry before the one
      where the detour leaves the cycle; a cycle of two or more blocks stays
      a valid cycle, keeps its first entry, and, when `goal` is a block
      corner, now contains it. */
  method UpdatePath(width: int, height: int, cycle: seq<Point>, goal: Point, head: Option<Point>)
    returns (r: Result<seq<Point>>, ghost detour: seq<Point>, ghost split: nat)
    requires PathValid(width, height, cycle) && |cycle| > 0
    requires head.Some? ==> |cycle| >= 2 && Supercell(head.value) == cycle[0]
    ensures Supercell(goal) in cycle ==> r.Err?
    ensures r.Ok? ==>
      Detour(width, height, cycle, goal, detour, split) && split < |detour| &&
      r.value == Spliced(cycle, detour[split - 1..], split - 1)
    ensures r.Ok? ==> |r.value| >= |cycle| + 2 && r.value[0] == cycle[0]
    ensures r.Ok? && |cycle| >= 2 ==> PathValid(width, height, r.value)
    ensures r.Ok? && Supercell(goal) == goal ==> goal in r.value
  {
    var found;
    found, split := FindPathToGoal(width, height, cycle, goal, head);
    detour := [];
    if found.Err? {
      r := Err(found.error);
    } else {
      detour := found.value;
      r := SpliceDetour(width, height, cycle, goal, found.value, split);
    }
  }

  /** A detour to a block corner ends at it. */
  lemma DetourGoal(width: int, height: int, cycle: seq<Point>, goal: Point, q: seq<Point>, split: nat)
    requires Detour(width, height, cycle, goal, q, split)
    ensures Supercell(goal) == goal ==> q[|q| - 1] == goal
  {
  }

  /** The rest of `update_path`: scan for where the detour leaves the cycle
      and splice it in from the entry before. The scan stops at the first
      entry off the cycle, so the source's `idx > 0` always holds. A success
      is the cycle with the detour from entry `split - 1` on walked out and
      back. */
  method SpliceDetour(width: int, height: int, cycle: seq<Point>, ghost goal: Point, detour: seq<Point>,
                      ghost split: nat)
    returns (r: Result<seq<Point>>)
    requires PathValid(width, height, cycle)
    requires Detour(width, height, cycle, goal, detour, split)
    ensures r.Ok? ==> split < |detour|
    ensures r.Ok? ==> r.value == Spliced(cycle, detour[split - 1..], split - 1)
    ensures r.Ok? ==> |r.value| >= |cycle| + 2 && r.value[0] == cycle[0]
    ensures r.Ok? ==> detour[|detour| - 1] in r.value
    ensures r.Ok? && |cycle| >= 2 ==> PathValid(width, height, r.value)
    ensures r.Ok? && Supercell(goal) == goal ==> goal in r.value
  {
    DetourPrefix(width, height, cycle, goal, detour, split);
    var leaving := LeavingIndex(cycle, detour, split);
    if leaving.Err? {
      r := Err(leaving.error);
    } else {
      var idx := leaving.value;
      r := AddToPath(cycle, detour[idx - 1..], idx - 1);
      SpliceFacts(width, height, cycle, goal, detour, split);
    }
  }

  /** Once a detour to `goal` leaves the cycle, splicing it in from entry
      `split - 1` gives a longer cycle that keeps its first entry, holds the
      detour's last block (`goal` itself when that is a block corner) and,
      for a cycle of two or more blocks, is valid. */
  lemma SpliceFacts(width: int, height: int, cycle: seq<Point>, goal: Point, detour: seq<Point>, split: nat)
    requires PathValid(width, height, cycle)
    requires Detour(width, height, cycle, goal, detour, split)
    ensures split < |detour| ==>
      var r := Spliced(cycle, detour[split - 1..], split - 1);
      |r| >= |cycle| + 2 && r[0] == cycle[0] && detour[|detour| - 1] in r &&
      (Supercell(goal) == goal ==> goal in r) &&
      (|cycle| >= 2 ==> PathValid(width, height, r))
  {
    DetourPrefix(width, height, cycle, goal, detour, split);
    DetourGoal(width, height, cycle, goal, detour, split);
    if split < |detour| {
      DetourTail(width, height, cycle, goal, detour, split);
      SpliceAt(width, height, cycle, detour, split);
    }
  }

  /** Splicing in a chain of blocks on the board that leaves the cycle after
      entry `split - 1` gives a longer cycle that keeps its first entry,
      holds the chain's last block and, for a cycle of two or more blocks,
      is valid. */
  lemma SpliceAt(width: int, height: int, cycle: seq<Point>, detour: seq<Point>, split: nat)
    requires PathValid(width, height, cycle)
    requires 1 <= split <= |cycle| && split < |detour| && detour[split - 1] == cycle[split - 1]
    requires Chain(detour[split - 1..])
    requires forall c :: c in detour[split - 1..] ==> CellOk(width, height, c)
    ensures var r := Spliced(cycle, detour[split - 1..], split - 1);
      |r| >= |cycle| + 2 && r[0] == cycle[0] && detour[|detour| - 1] in r &&
      (|cycle| >= 2 ==> PathValid(width, height, r))
  {
    var additions := detour[split - 1..];
    assert additions[0] == cycle[split - 1];
    assert additions[|additions| - 1] == detour[|detour| - 1];
    SplicedFacts(width, height, cycle, additions, split - 1);
  }

  /** The detour starts with the cycle's first `split` entries and then leaves it. */
  lemma DetourPrefix(width: int, height: int, cycle: seq<Point>, goal: Point, q: seq<Point>, split: nat)
    requires Detour(width, height, cycle, goal, q, split)
    ensures 1 <= split <= |cycle| && split <= |q|
    ensures forall j :: 0 <= j < split ==> q[j] == cycle[j]
    ensures split < |q| ==> q[split] !in cycle
  {
    forall j | 0 <= j < split ensures q[j] == cycle[j] {
      assert q[j] == q[..split][j];
    }
  }

  /** The detour from entry `split - 1` on is a chain of blocks on the board
      that ends where the detour does. */
  lemma DetourTail(width: int, height: int, cycle: seq<Point>, goal: Point, q: seq<Point>, split: nat)
    requires PathValid(width, height, cycle)
    requires Detour(width, height, cycle, goal, q, split) && 1 <= split < |q|
    ensures Chain(q[split - 1..])
    ensures forall c :: c in q[split - 1..] ==> CellOk(width, height, c)
  {
    assert q[split - 1] == q[..split][split - 1] == cycle[split - 1];
    ChainSuffix(q, split - 1);
    TailCells(width, height, cycle, q, split);
  }

  /** A suffix of a chain is a chain. */
  lemma ChainSuffix(p: seq<Point>, k: nat)
    requires Chain(p) && k <= |p|
    ensures Chain(p[k..])
  {
    var t := p[k..];
    forall i | 1 <= i < |t| ensures Adj(t[i - 1], t[i]) {
      assert t[i - 1] == p[k + i - 1] && t[i] == p[k + i];
    }
  }

  /** The detour from its cycle entry on holds blocks on the board only. */
  lemma TailCells(width: int, height: int, cycle: seq<Point>, q: seq<Point>, split: nat)
    requires 1 <= split < |q| && split <= |cycle| && q[split - 1] == cycle[split - 1]
    requires forall c :: c in cycle ==> CellOk(width, height, c)
    requires forall i :: split <= i < |q| ==> CellOk(width, height, q[i])
    ensures forall c :: c in q[split - 1..] ==> CellOk(width, height, c)
  {
    var additions := q[split - 1..];
    forall c | c in additions ensures CellOk(width, height, c) {
      var i :| 0 <= i < |additions| && additions[i] == c;
      if i == 0 {
        assert cycle[split - 1] in cycle;
      } else {
        assert c == q[split - 1 + i];
      }
    }
  }

  /** The spliced cycle is longer, keeps its first entry, holds the detour's
      last block and, for a cycle of two or more blocks, is valid. */
  lemma SplicedFacts(width: int, height: int, cycle: seq<Point>, additions: seq<Point>, idx: nat)
    requires PathValid(width, height, cycle) && idx < |cycle|
    requires |additions| >= 2 && additions[0] == cycle[idx] && Chain(additions)
    requires forall c :: c in additions ==> CellOk(width, height, c)
    ensures |Spliced(cycle, additions, idx)| >= |cycle| + 2
    ensures Spliced(cycle, additions, idx)[0] == cycle[0]
    ensures additions[|additions| - 1] in Spliced(cycle, additions, idx)
    ensures |cycle| >= 2 ==> PathValid(width, height, Spliced(cycle, additions, idx))
  {
    var r := Spliced(cycle, additions, idx);
    var n := |additions|;
    assert r[idx + n - 1] == additions[n - 1];
    if idx == 0 {
      assert r[0] == additions[0];
    } else {
      assert r[0] == r[..idx][0];
    }
    if |cycle| >= 2 {
      SplicedValid(width, height, cycle, additions, idx);
    }
  }

  // ---------------------------------------------------------------------
  // supercellerate

  /** One run of consecutive body cells in the same block: the block's
      corner and the cells, most recent first. */
  datatype Group = Group(cell: Point, members: seq<Point>)

  /** The groups `supercellerate` has built after the first `n` body cells:
      it starts with an empty group for the head's block, puts a cell in
      front of the last group's cells when it lies in that group's block,
      and opens a new group otherwise. */
  function GroupsUpTo(snake: seq<Point>, n: nat): (r: seq<Group>)
    requires 0 < |snake| && n <= |snake|
    ensures |r| > 0
    decreases n
  {
    if n == 0 then [Group(Supercell(snake[0]), [])]
    else
      var g := GroupsUpTo(snake, n - 1);
      var last := g[|g| - 1];
      var x := snake[n - 1];
      if Supercell(x) == last.cell then g[|g| - 1 := Group(last.cell, [x] + last.members)]
      else g + [Group(Supercell(x), [x])]
  }

  /** The body the groups stand for: each group's cells back in body order, one group after another. */
  function Ungrouped(gs: seq<Group>): seq<Point>
  {
    if |gs| == 0 then [] else Ungrouped(gs[..|gs| - 1]) + Reversed(gs[|gs| - 1].members)
  }

  /** Groups that are runs of blocks: every cell lies in its group's
      block, neighbouring groups lie in different blocks, and the first
      group is the block `first`. */
  ghost predicate Runs(gs: seq<Group>, first: Point)
  {
    |gs| > 0 && gs[0].cell == first &&
    (forall i, c :: 0 <= i < |gs| && c in gs[i].members ==> Supercell(c) == gs[i].cell) &&
    (forall i :: 1 <= i < |gs| ==> gs[i - 1].cell != gs[i].cell)
  }

  /** Reading back a group appended at the end. */
  lemma UngroupedSnoc(gs: seq<Group>, g: Group)
    ensures Ungrouped(gs + [g]) == Ungrouped(gs) + Reversed(g.members)
  {
    assert (gs + [g])[..|gs|] == gs;
  }

  /** Reading back after a cell is put in front of the last group's cells. */
  lemma UngroupedGrow(init: seq<Group>, last: Group, x: Point)
    ensures Ungrouped(init + [Group(last.cell, [x] + last.members)]) == Ungrouped(init + [last]) + [x]
  {
    UngroupedSnoc(init, last);
    UngroupedSnoc(init, Group(last.cell, [x] + last.members));
    assert ([x] + last.members)[1..] == last.members;
  }

  /** Reading back after a new group of one cell. */
  lemma UngroupedOpen(gs: seq<Group>, c: Point, x: Point)
    ensures Ungrouped(gs + [Group(c, [x])]) == Ungrouped(gs) + [x]
  {
    UngroupedSnoc(gs, Group(c, [x]));
    assert [x][1..] == [];
  }

  /** Reading back after either step of `supercellerate` adds the new cell at the end. */
  lemma ReadBackStep(g: seq<Group>, x: Point)
    requires |g| > 0
    ensures Ungrouped(g[|g| - 1 := Group(g[|g| - 1].cell, [x] + g[|g| - 1].members)]) == Ungrouped(g) + [x]
    ensures Ungrouped(g + [Group(Supercell(x), [x])]) == Ungrouped(g) + [x]
  {
    var init, last := g[..|g| - 1], g[|g| - 1];
    assert g == init + [last];
    assert g[|g| - 1 := Group(last.cell, [x] + last.members)] == init + [Group(last.cell, [x] + last.members)];
    UngroupedGrow(init, last, x);
    UngroupedOpen(g, Supercell(x), x);
  }

  /** Reading back the groups after one more cell adds that cell at the end. */
  lemma GroupsUpToStep(snake: seq<Point>, n: nat)
    requires 0 < n <= |snake|
    ensures Ungrouped(GroupsUpTo(snake, n)) == Ungrouped(GroupsUpTo(snake, n - 1)) + [snake[n - 1]]
  {
    ReadBackStep(GroupsUpTo(snake, n - 1), snake[n - 1]);
  }

  /** Read back, the groups after `n` cells are those cells in order. */
  lemma {:induction false} GroupsReadBack(snake: seq<Point>, n: nat)
    requires 0 < |snake| && n <= |snake|
    ensures Ungrouped(GroupsUpTo(snake, n)) == snake[..n]
  {
    if n == 0 {
      var r := GroupsUpTo(snake, n);
      assert r == [] + [r[0]];
      UngroupedSnoc([], r[0]);
    } else {
      GroupsReadBack(snake, n - 1);
      GroupsUpToStep(snake, n);
      TakeSnoc(snake, n);
    }
  }

  /** The groups after `n` cells are runs from the head's block, and none is
      empty once a cell has been read. */
  lemma {:induction false} GroupsAreRuns(snake: seq<Point>, n: nat)
    requires 0 < |snake| && n <= |snake|
    ensures Runs(GroupsUpTo(snake, n), Supercell(snake[0]))
    ensures n > 0 ==> forall i :: 0 <= i < |GroupsUpTo(snake, n)| ==> |GroupsUpTo(snake, n)[i].members| > 0
  {
    if n == 0 {
      return;
    }
    GroupsAreRuns(snake, n - 1);
    var g := GroupsUpTo(snake, n - 1);
    var r := GroupsUpTo(snake, n);
    if n == 1 {
      assert g == [Group(Supercell(snake[0]), [])];
      assert [snake[0]] + g[0].members == [snake[0]];
    }
  }

  /** `supercellerate`: the body split into runs of cells sharing a block,
      or the IndexError the empty body raises. */
  method Supercellerate(snake: seq<Point>) returns (r: Result<seq<Group>>)
    ensures r.Err? <==> |snake| == 0
    ensures r.Ok? ==> r.value == GroupsUpTo(snake, |snake|)
  {
    if |snake| == 0 {
      return Err("IndexError");
    }
    var current := Group(Supercell(snake[0]), []);
    var result := [current];
    for i := 0 to |snake|
      invariant result == GroupsUpTo(snake, i) && current == result[|result| - 1]
    {
      var x := snake[i];
      if Supercell(x) == current.cell {
        // `current[1].insert(0, x)` changes the group already in the result.
        current := Group(current.cell, [x] + current.members);
        result := result[|result| - 1 := current];
      } else {
        current := Group(Supercell(x), [x]);
        result := result + [current];
      }
    }
    return Ok(result);
  }

  /** Three cells, two in the first block: the head's block holds the
      second cell before the head, the third opens a new group. */
  lemma SupercellerateExample()
    ensures GroupsUpTo([[0, 0], [1, 0], [2, 0]], 3) ==
      [Group([0, 0], [[1, 0], [0, 0]]), Group([2, 0], [[2, 0]])]
  {
    var s: seq<Point> := [[0, 0], [1, 0], [2, 0]];
    assert Supercell([1, 0]) == [0, 0] && Supercell([2, 0]) == [2, 0];
    assert GroupsUpTo(s, 0) == [Group([0, 0], [])];
    assert [s[0]] + [] == [[0, 0]] && [s[1]] + [[0, 0]] == [[1, 0], [0, 0]];
    assert GroupsUpTo(s, 1) == [Group([0, 0], [[0, 0]])];
    assert GroupsUpTo(s, 2) == [Group([0, 0], [[1, 0], [0, 0]])];
    assert GroupsUpTo(s, 3) == [Group([0, 0], [[1, 0], [0, 0]]), Group([2, 0], [[2, 0]])];
  }

  // ---------------------------------------------------------------------
  // ai_supercellerator_v1

  /** `occupying.append(occupying.popleft())`: the cycle turned one place to the left. */
  function RotateLeft(p: seq<Point>): seq<Point>
    requires |p| > 0
  {
    p[1..] + [p[0]]
  }

  /** Turning a valid cycle keeps it valid and keeps its blocks: the second
      entry comes first and the first goes last. */
  lemma RotatedValid(width: int, height: int, p: seq<Point>)
    requires PathValid(width, height, p) && |p| >= 2
    ensures PathValid(width, height, RotateLeft(p))
    ensures |RotateLeft(p)| == |p| && RotateLeft(p)[0] == p[1] && RotateLeft(p)[|p| - 1] == p[0]
    ensures multiset(RotateLeft(p)) == multiset(p)
  {
    var r := RotateLeft(p);
    var n := |p|;
    forall i | 1 <= i < n ensures Adj(r[i - 1], r[i]) {
      if i < n - 1 {
        assert r[i - 1] == p[i] && r[i] == p[i + 1];
      } else {
        assert r[i - 1] == p[n - 1] && r[i] == p[0];
      }
    }
    assert Adj(p[0], p[1]);
    assert p == [p[0]] + p[1..];
  }

  /** The cycle a game starts from: the head's block, the block to its
      right, the one below that, and back. */
  function Seed(position: Point): seq<Point>
  {
    [position, Shift(position, [2, 0]), Shift(position, [2, 2]), Shift(position, [2, 0])]
  }

  /** The seed cycle fits on the board: even dimensions, and the head's block
      and the block diagonally after it on the board. */
  ghost predicate SeedFits(width: int, height: int, head: Point)
  {
    width % 2 == 0 && height % 2 == 0 &&
    InBounds(Supercell(head), [width, height]) && InBounds(Shift(Supercell(head), [2, 2]), [width, height])
  }

  /** A seed that fits is a valid cycle starting at the head's block. */
  lemma SeedValid(width: int, height: int, head: Point)
    requires SeedFits(width, height, head)
    ensures PathValid(width, height, Seed(Supercell(head)))
    ensures |Seed(Supercell(head))| == 4 && Seed(Supercell(head))[0] == Supercell(head)
  {
    var p := Supercell(head);
    SupercellSplit(head);
    InBounds2(p, width, height);
    InBounds2(Shift(p, [2, 2]), width, height);
    InBounds2(Shift(p, [2, 0]), width, height);
    var s := Seed(p);
    assert Diff(s[1], s[0]) == [2, 0] && Diff(s[2], s[1]) == [0, 2];
    assert Diff(s[3], s[2]) == [0, -2] && Diff(s[0], s[3]) == [-2, 0];
    CornerShift(p, [2, 0]);
    CornerShift(p, [2, 2]);
    assert Supercell([2, 0]) == [2, 0] && Supercell([2, 2]) == [2, 2];
    assert CellOk(width, height, s[1]) && CellOk(width, height, s[2]);
  }

  /** What the strategy keeps between moves: before the first move, room
      for the seed; afterwards a valid cycle of at least two blocks that
      starts at the head's block. */
  ghost predicate CycleReady(width: int, height: int, aiData: Option<seq<Point>>, head: Point)
  {
    match aiData
    case None => SeedFits(width, height, head)
    case Some(q) => PathValid(width, height, q) && |q| >= 2 && q[0] == Supercell(head)
  }

  /** The retargeting in `ai_supercellerator_v1`: reduce the cycle, splice
      in the detour to the goal's block, and reduce again. The result is
      still a valid cycle of two or more blocks from the head's block, and
      now holds the goal's block. */
  method Retarget(width: int, height: int, cycle: seq<Point>, snake: seq<Point>, goal: Point)
    returns (r: Result<seq<Point>>)
    requires PathValid(width, height, cycle) && |cycle| >= 2
    requires |snake| > 0 && cycle[0] == Supercell(snake[0]) && Supercell(goal) == goal
    ensures r.Ok? ==> PathValid(width, height, r.value) && |r.value| >= 2
    ensures r.Ok? ==> r.value[0] == cycle[0] && goal in r.value
    ensures goal in cycle ==> r.Err?
  {
    var reduced;
    ghost var kept, dropped;
    reduced, kept, dropped := ReducePath(cycle, snake, goal);
    if goal in cycle {
      assert goal in reduced;
    }
    var updated;
    ghost var detour, split;
    updated, detour, split := UpdatePath(width, height, reduced, goal, Some(snake[0]));
    if updated.Err? {
      return Err(updated.error);
    }
    var again;
    again, kept, dropped := ReducePath(updated.value, snake, goal);
    return Ok(again);
  }

  /** The move in `ai_supercellerator_v1`: one clockwise step from the head,
      towards the cycle's second block, turning the cycle when the step
      enters that block. The cycle stays valid and again starts at the
      head's block. */
  method StepAlong(width: int, height: int, cycle: seq<Point>, head: Point)
    returns (d: Point, turned: seq<Point>)
    requires PathValid(width, height, cycle) && |cycle| >= 2 && cycle[0] == Supercell(head)
    ensures d in ValidDirections
    ensures turned == if Supercell(Shift(head, d)) == Supercell(head) then cycle else RotateLeft(cycle)
    ensures PathValid(width, height, turned) && |turned| >= 2 && turned[0] == Supercell(Shift(head, d))
    ensures multiset(turned) == multiset(cycle)
  {
    var next := ClockwiseStep(head, cycle[1]);
    ClockwiseStepMoves(head, cycle[1]);
    assert Supercell(cycle[1]) == cycle[1] by {
      assert cycle[1] in cycle;
    }
    AdjIrreflexive(cycle[0]);
    assert Adj(cycle[0], cycle[1]);
    if Supercell(next) == Supercell(cycle[1]) {
      RotatedValid(width, height, cycle);
      turned := RotateLeft(cycle);
    } else {
      turned := cycle;
    }
    d := Diff(next, head);
    ShiftDiff(next, head);
  }

  /** The cycle a move starts from: the stored one, or the seed at the
      head's block before the first move. */
  function StartCycle(aiData: Option<seq<Point>>, head: Point): seq<Point>
  {
    if aiData.Some? then aiData.value else Seed(Supercell(head))
  }

  /** `ai_supercellerator_v1` on the game's values: seed the cycle on the
      first move, bring the goal's block onto the cycle when it is not
      already there, then take one clockwise step along the cycle, turning
      the cycle when the step enters its next block. `stored` is what the
      game's AI slot holds afterwards, on the error paths too. */
  method PlanMove(width: int, height: int, aiData: Option<seq<Point>>, body: seq<Point>, goal: Option<Point>)
    returns (r: Result<Point>, stored: Option<seq<Point>>)
    requires |body| > 0 && CycleReady(width, height, aiData, body[0])
    // A body longer than four cells cannot be seeded.
    ensures aiData.None? && |body| > 4 ==> r.Err? && stored == aiData
    ensures aiData.Some? || |body| <= 4 ==> stored.Some?
    // Without a goal there is no block to aim for.
    ensures goal.None? ==> r.Err?
    // A failed retarget, or a missing goal, leaves the starting cycle stored.
    ensures r.Err? && (aiData.Some? || |body| <= 4) ==> stored == Some(StartCycle(aiData, body[0]))
    // The move is one of the four directions, and the cycle stays ready for the head after it.
    ensures r.Ok? ==> r.value in ValidDirections
    ensures r.Ok? ==> stored.Some? && CycleReady(width, height, stored, Shift(body[0], r.value))
    // The goal's block is on the cycle.
    ensures r.Ok? ==> goal.Some? && stored.Some? && Supercell(goal.value) in stored.value
    // A starting cycle (the seed included) that already holds the goal's
    // block only turns, and only when the move leaves the head's block.
    ensures r.Ok? && Supercell(goal.value) in StartCycle(aiData, body[0]) ==>
      stored == Some(if Supercell(Shift(body[0], r.value)) == Supercell(body[0])
        then StartCycle(aiData, body[0]) else RotateLeft(StartCycle(aiData, body[0])))
  {
    var head := body[0];
    var occupying: seq<Point>;
    if aiData.None? {
      if |body| > 4 {
        return Err("assertion failed: body too long to seed"), aiData;
      }
      SeedValid(width, height, head);
      occupying := Seed(Supercell(head));
    } else {
      occupying := aiData.value;
    }
    stored := Some(occupying);
    if goal.None? {
      return Err("TypeError"), stored;
    }
    SupercellSplit(goal.value);
    var target := Supercell(goal.value);
    if target !in occupying {
      var retargeted := Retarget(width, height, occupying, body, target);
      if retargeted.Err? {
        return Err(retargeted.error), stored;
      }
      occupying := retargeted.value;
      stored := Some(occupying);
    }
    var d, turned := StepAlong(width, height, occupying, head);
    assert target in turned by {
      assert target in multiset(occupying);
    }
    stored := Some(turned);
    r := Ok(d);
  }

  /** `ai_supercellerator_v1` on a game: only the AI slot changes, to what
      the plan stores. */
  method AiSupercelleratorV1(game: Snake) returns (r: Result<Point>)
    requires game.Valid() && CycleReady(game.width, game.height, game.aiData, game.Head())
    modifies game`aiData
    ensures game.width == old(game.width) && game.height == old(game.height)
    ensures game.state == old(game.state) && game.body == old(game.body) && game.goal == old(game.goal)
    ensures game.moves == old(game.moves) && game.points == old(game.points)
    ensures game.movesSincePoint == old(game.movesSincePoint)
    ensures old(game.aiData).None? && |game.body| > 4 ==> r.Err? && game.aiData == old(game.aiData)
    ensures game.goal.None? ==> r.Err?
    ensures r.Ok? ==> r.value in ValidDirections
    ensures r.Ok? ==>
      game.aiData.Some? && CycleReady(game.width, game.height, game.aiData, Shift(game.Head(), r.value))
    ensures r.Ok? ==> game.goal.Some? && game.aiData.Some? && Supercell(game.goal.value) in game.aiData.value
    ensures r.Err? && (old(game.aiData).Some? || |game.body| <= 4) ==>
      game.aiData == Some(StartCycle(old(game.aiData), game.Head()))
    ensures r.Ok? && Supercell(game.goal.value) in StartCycle(old(game.aiData), game.Head()) ==>
      game.aiData == Some(if Supercell(Shift(game.Head(), r.value)) == Supercell(game.Head())
        then StartCycle(old(game.aiData), game.Head()) else RotateLeft(StartCycle(old(game.aiData), game.Head())))
  {
    var stored;
    r, stored := PlanMove(game.width, game.height, game.aiData, game.body, game.goal);
    game.aiData := stored;
  }
}
