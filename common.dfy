/** Tuple arithmetic shared by every other module (common.py).
    Python tuples of integers are sequences of `int`; every operation
    walks the two tuples in lock-step like `zip`, so it stops at the end of
    the shorter one. */
module Common {

  datatype Option<T> = None | Some(value: T)

  /** A value, or the exception the source raises instead. */
  datatype Result<T> = Ok(value: T) | Err(error: string)

  /** A grid position or offset: a Python 2-tuple. */
  type Point = v: seq<int> | |v| == 2 witness [0, 0]

  function Min(a: int, b: int): int { if a <= b then a else b }

  /** A prefix one longer is the shorter prefix and the next element. */
  lemma TakeSnoc<T>(s: seq<T>, n: nat)
    requires 0 < n <= |s|
    ensures s[..n] == s[..n - 1] + [s[n - 1]]
  {
  }

  function Abs(x: int): nat { if x < 0 then -x else x }

  /** add_elements: the componentwise sum of the zipped coordinates. */
  function Add(a: seq<int>, b: seq<int>): (r: seq<int>)
    ensures |r| == Min(|a|, |b|)
    ensures forall i :: 0 <= i < |r| ==> r[i] == a[i] + b[i]
  {
    if |a| == 0 || |b| == 0 then [] else [a[0] + b[0]] + Add(a[1..], b[1..])
  }

  /** subtract_elements: the componentwise difference of the zipped coordinates. */
  function Sub(a: seq<int>, b: seq<int>): (r: seq<int>)
    ensures |r| == Min(|a|, |b|)
    ensures forall i :: 0 <= i < |r| ==> r[i] == a[i] - b[i]
  {
    if |a| == 0 || |b| == 0 then [] else [a[0] - b[0]] + Sub(a[1..], b[1..])
  }

  /** `add_elements` on two 2-tuples, as a 2-tuple. */
  function Shift(p: Point, d: Point): Point
  {
    [p[0] + d[0], p[1] + d[1]]
  }

  /** `subtract_elements` on two 2-tuples, as a 2-tuple. */
  function Diff(a: Point, b: Point): Point
  {
    [a[0] - b[0], a[1] - b[1]]
  }

  /** Stepping by the difference of two points goes from one to the other. */
  lemma ShiftDiff(a: Point, b: Point)
    ensures Shift(b, Diff(a, b)) == a
  {
    assert Shift(b, Diff(a, b)) == [a[0], a[1]];
  }

  /** On 2-tuples the general sum is the 2-tuple sum. */
  lemma ShiftIsAdd(p: Point, d: Point)
    ensures Shift(p, d) == Add(p, d)
  {
    assert Add(p, d) == [p[0] + d[0], p[1] + d[1]];
  }

  /** On 2-tuples the general difference is the 2-tuple difference. */
  lemma DiffIsSub(a: Point, b: Point)
    ensures Diff(a, b) == Sub(a, b)
  {
    assert Sub(a, b) == [a[0] - b[0], a[1] - b[1]];
  }

  /** The sum of the absolute values of the coordinates. */
  function SumAbs(d: seq<int>): nat
  {
    if |d| == 0 then 0 else Abs(d[0]) + SumAbs(d[1..])
  }

  /** grid_distance: the Manhattan distance over the zipped coordinates. */
  function GridDistance(a: seq<int>, b: seq<int>): (r: nat)
    ensures r == SumAbs(Sub(a, b))
  {
    if |a| == 0 || |b| == 0 then 0 else Abs(a[0] - b[0]) + GridDistance(a[1..], b[1..])
  }

  /** in_bounds: every zipped coordinate lies in [0, dimension). */
  function InBounds(v: seq<int>, dims: seq<int>): (r: bool)
    ensures r <==> forall i :: 0 <= i < Min(|v|, |dims|) ==> 0 <= v[i] < dims[i]
  {
    if |v| == 0 || |dims| == 0 then true
    else 0 <= v[0] < dims[0] && InBounds(v[1..], dims[1..])
  }

  /** Subtracting what was added gives back the original tuple. */
  lemma AddSubRoundTrip(a: seq<int>, b: seq<int>)
    requires |a| == |b|
    ensures Sub(Add(a, b), b) == a
  {
    assert forall i :: 0 <= i < |a| ==> Sub(Add(a, b), b)[i] == a[i];
  }

  /** Adding what was subtracted gives back the original tuple. */
  lemma SubAddRoundTrip(a: seq<int>, b: seq<int>)
    requires |a| == |b|
    ensures Add(b, Sub(a, b)) == a
  {
    assert forall i :: 0 <= i < |a| ==> Add(b, Sub(a, b))[i] == a[i];
  }

  /** The distance is zero exactly when the two tuples are equal. */
  lemma {:induction false} DistanceZeroIff(a: seq<int>, b: seq<int>)
    requires |a| == |b|
    ensures GridDistance(a, b) == 0 <==> a == b
  {
    if |a| > 0 {
      DistanceZeroIff(a[1..], b[1..]);
      if a[1..] == b[1..] && a[0] == b[0] {
        assert a == [a[0]] + a[1..] && b == [b[0]] + b[1..];
      }
    }
  }

  /** The distance does not depend on the order of its arguments. */
  lemma {:induction false} DistanceSymmetric(a: seq<int>, b: seq<int>)
    ensures GridDistance(a, b) == GridDistance(b, a)
  {
    if |a| > 0 && |b| > 0 {
      DistanceSymmetric(a[1..], b[1..]);
    }
  }

  /** The triangle inequality. */
  lemma {:induction false} DistanceTriangle(a: seq<int>, b: seq<int>, c: seq<int>)
    requires |a| == |b| == |c|
    ensures GridDistance(a, c) <= GridDistance(a, b) + GridDistance(b, c)
  {
    if |a| > 0 {
      DistanceTriangle(a[1..], b[1..], c[1..]);
    }
  }

  /** Moving by an offset changes the position by the offset's size. */
  lemma {:induction false} DistanceOfStep(a: seq<int>, d: seq<int>)
    requires |a| == |d|
    ensures GridDistance(a, Add(a, d)) == SumAbs(d)
  {
    if |a| > 0 {
      DistanceOfStep(a[1..], d[1..]);
      assert Add(a, d)[1..] == Add(a[1..], d[1..]);
    }
  }

  /** A one-coordinate change moves a 2-D point by the size of that change. */
  lemma DistanceOfAxisStep(p: Point, dx: int, dy: int)
    requires dx == 0 || dy == 0
    ensures GridDistance(p, Add(p, [dx, dy])) == Abs(dx) + Abs(dy)
  {
    DistanceOfStep(p, [dx, dy]);
    assert SumAbs([dx, dy]) == Abs(dx) + SumAbs([dy]);
  }

  /** Two-dimensional distance written out. */
  lemma GridDistance2(a: Point, b: Point)
    ensures GridDistance(a, b) == Abs(a[0] - b[0]) + Abs(a[1] - b[1])
  {
    assert a[1..][1..] == [] && b[1..][1..] == [];
  }

  /** Two-dimensional bounds check written out. */
  lemma InBounds2(v: Point, w: int, h: int)
    ensures InBounds(v, [w, h]) <==> 0 <= v[0] < w && 0 <= v[1] < h
  {
  }
}
