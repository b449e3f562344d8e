/**
 * The periodic-domain helpers of corona_simulation.py: the minimal-image
 * displacement between two points of the torus, the position wrap, and the
 * threshold profiles that give transmission and susceptibility by distance.
 * Coordinates and box lengths are integers; the Euclidean length (a square root)
 * is not modelled, its square is.
 */
module Geometry {

  function Abs(x: int): int {
    if x < 0 then -x else x
  }

  /** x and y differ by a whole number of box lengths l. */
  predicate Congruent(x: int, y: int, l: int)
    requires l > 0
  {
    (x - y) % l == 0
  }

  // ---------------------------------------------------------------------------
  // Euclidean division facts
  // ---------------------------------------------------------------------------

  lemma DivModUnique(x: int, l: int, q: int, r: int)
    requires l > 0 && 0 <= r < l && x == q * l + r
    ensures x / l == q && x % l == r
  {
    var q' := x / l;
    if q' < q {
      MulAtLeast(q - q', l);
    } else if q < q' {
      MulAtLeast(q' - q, l);
    }
  }

  lemma MulAtLeast(m: int, l: int)
    requires m >= 1 && l > 0
    ensures m * l >= l
  {
    assert (m - 1) * l >= 0;
  }

  lemma MultipleOf(x: int, l: int)
    requires l > 0 && x % l == 0
    ensures x == (x / l) * l
  {
  }

  /** The only multiple of l strictly between -l and l is 0. */
  lemma SmallMultipleIsZero(x: int, l: int)
    requires l > 0 && x % l == 0 && -l < x < l
    ensures x == 0
  {
    MultipleOf(x, l);
    var m := x / l;
    if m >= 1 {
      MulAtLeast(m, l);
    } else if m <= -1 {
      MulAtLeast(-m, l);
    }
  }

  lemma CongruentTransitive(x: int, y: int, z: int, l: int)
    requires l > 0 && Congruent(x, y, l) && Congruent(y, z, l)
    ensures Congruent(x, z, l)
  {
    MultipleOf(x - y, l);
    MultipleOf(y - z, l);
    DivModUnique(x - z, l, (x - y) / l + (y - z) / l, 0);
  }

  lemma CongruentSymmetric(x: int, y: int, l: int)
    requires l > 0 && Congruent(x, y, l)
    ensures Congruent(y, x, l)
  {
    MultipleOf(x - y, l);
    DivModUnique(y - x, l, -((x - y) / l), 0);
  }

  lemma CongruentShift(x: int, l: int)
    requires l > 0
    ensures Congruent(x + l, x, l)
  {
    DivModUnique(l, l, 1, 0);
  }

  lemma CongruentNegate(x: int, y: int, l: int)
    requires l > 0 && Congruent(x, y, l)
    ensures Congruent(-x, -y, l)
  {
    MultipleOf(x - y, l);
    DivModUnique(-x - -y, l, -((x - y) / l), 0);
  }

  /** x % l differs from x by a multiple of l. */
  lemma ModCongruent(x: int, l: int)
    requires l > 0
    ensures Congruent(x % l, x, l)
  {
    DivModUnique(x % l - x, l, -(x / l), 0);
  }

  // ---------------------------------------------------------------------------
  // Minimal-image displacement along one axis
  // ---------------------------------------------------------------------------

  /**
   * One component of vector_difference: the forward distance from a to b modulo l
   * if it is the shorter way round, otherwise minus the backward distance.
   * The result is the representative of b - a modulo l in [-l/2, l/2).
   */
  function AxisDifference(a: int, b: int, l: int): (d: int)
    requires l > 0
    ensures Congruent(d, b - a, l)
    ensures -l <= 2 * d < l
  {
    var x1 := (b - a) % l;
    var x2 := (a - b) % l;
    OppositeResidues(a, b, l);
    if x1 < x2 then x1 else -x2
  }

  /** The forward and backward residues of a and b add up to l, or are both 0. */
  lemma OppositeResidues(a: int, b: int, l: int)
    requires l > 0
    ensures (a - b) % l == if (b - a) % l == 0 then 0 else l - (b - a) % l
    ensures Congruent((b - a) % l, b - a, l)
    ensures Congruent(-((a - b) % l), b - a, l)
  {
    var x1 := (b - a) % l;
    ModCongruent(b - a, l);
    ModCongruent(a - b, l);
    var q := (b - a) / l;
    if x1 == 0 {
      DivModUnique(a - b, l, -q, 0);
    } else {
      DivModUnique(a - b, l, -q - 1, l - x1);
    }
    CongruentNegate((a - b) % l, a - b, l);
  }

  /** Within its range, the displacement is the only value congruent to b - a. */
  lemma AxisDifferenceUnique(a: int, b: int, l: int, e: int)
    requires l > 0 && Congruent(e, b - a, l) && -l <= 2 * e < l
    ensures e == AxisDifference(a, b, l)
  {
    var d := AxisDifference(a, b, l);
    CongruentSymmetric(d, b - a, l);
    CongruentTransitive(e, b - a, d, l);
    SmallMultipleIsZero(e - d, l);
  }

  /** The displacement is the shortest of all the ways from a to b round the torus. */
  lemma AxisDifferenceMinimal(a: int, b: int, l: int, e: int)
    requires l > 0 && Congruent(e, b - a, l)
    ensures Abs(AxisDifference(a, b, l)) <= Abs(e)
  {
    var d := AxisDifference(a, b, l);
    CongruentSymmetric(d, b - a, l);
    CongruentTransitive(e, b - a, d, l);
    MultipleOf(e - d, l);
    var m := (e - d) / l;
    if m >= 1 {
      MulAtLeast(m, l);
      assert e >= d + l;
    } else if m <= -1 {
      MulAtLeast(-m, l);
      assert e <= d - l;
    } else {
      assert e == d;
    }
  }

  /** Swapping the two points changes at most the sign of the displacement. */
  lemma AxisDifferenceSymmetric(a: int, b: int, l: int)
    requires l > 0
    ensures Abs(AxisDifference(b, a, l)) == Abs(AxisDifference(a, b, l))
  {
    var d1 := AxisDifference(a, b, l);
    var d2 := AxisDifference(b, a, l);
    CongruentNegate(d2, a - b, l);
    CongruentNegate(d1, b - a, l);
    AxisDifferenceMinimal(a, b, l, -d2);
    AxisDifferenceMinimal(b, a, l, -d1);
  }

  /** Moving b by a whole box length does not change the displacement. */
  lemma AxisDifferencePeriodic(a: int, b: int, l: int)
    requires l > 0
    ensures AxisDifference(a, b + l, l) == AxisDifference(a, b, l)
  {
    var d := AxisDifference(a, b + l, l);
    CongruentShift(b - a, l);
    CongruentSymmetric(b + l - a, b - a, l);
    CongruentTransitive(d, b + l - a, b - a, l);
    AxisDifferenceUnique(a, b, l, d);
  }

  // ---------------------------------------------------------------------------
  // Two-dimensional displacement and squared distance
  // ---------------------------------------------------------------------------

  /** A periodic box: two positive side lengths. */
  predicate ValidBox(box: seq<int>) {
    |box| == 2 && box[0] > 0 && box[1] > 0
  }

  /** vector_difference: the minimal-image displacement from u to v, axis by axis. */
  function VectorDifference(u: seq<int>, v: seq<int>, box: seq<int>): (d: seq<int>)
    requires ValidBox(box) && |u| == 2 && |v| == 2
    ensures |d| == 2
    ensures forall i :: 0 <= i < 2 ==> Congruent(d[i], v[i] - u[i], box[i]) && -box[i] <= 2 * d[i] < box[i]
  {
    [AxisDifference(u[0], v[0], box[0]), AxisDifference(u[1], v[1], box[1])]
  }

  /** The displacement from a point to itself is zero. */
  lemma VectorDifferenceSelf(u: seq<int>, box: seq<int>)
    requires ValidBox(box) && |u| == 2
    ensures VectorDifference(u, u, box) == [0, 0]
  {
    DivModUnique(0, box[0], 0, 0);
    DivModUnique(0, box[1], 0, 0);
    AxisDifferenceUnique(u[0], u[0], box[0], 0);
    AxisDifferenceUnique(u[1], u[1], box[1], 0);
  }

  /** Shifting the second point by a box length on either axis does not change the displacement. */
  lemma VectorDifferencePeriodic(u: seq<int>, v: seq<int>, box: seq<int>)
    requires ValidBox(box) && |u| == 2 && |v| == 2
    ensures VectorDifference(u, [v[0] + box[0], v[1]], box) == VectorDifference(u, v, box)
    ensures VectorDifference(u, [v[0], v[1] + box[1]], box) == VectorDifference(u, v, box)
  {
    AxisDifferencePeriodic(u[0], v[0], box[0]);
    AxisDifferencePeriodic(u[1], v[1], box[1]);
  }

  /** The square of the periodic distance between u and v (the square of norm in the simulation). */
  function SquaredDistance(u: seq<int>, v: seq<int>, box: seq<int>): (r: int)
    requires ValidBox(box) && |u| == 2 && |v| == 2
    ensures 0 <= r
    ensures 4 * r <= box[0] * box[0] + box[1] * box[1]
  {
    var d := VectorDifference(u, v, box);
    var a, b := d[0], d[1];
    HalfSquareBound(a, box[0]);
    HalfSquareBound(b, box[1]);
    a * a + b * b
  }

  /** A component at most half an axis long has a square at most a quarter of the axis squared. */
  lemma HalfSquareBound(x: int, l: int)
    requires -l <= 2 * x <= l
    ensures 0 <= x * x && 4 * (x * x) <= l * l
  {
    var y := 2 * x;
    if y >= 0 {
      assert y * y <= l * y <= l * l;
    } else {
      assert y * y == (-y) * (-y) <= l * (-y) <= l * l;
    }
    assert y * y == 4 * (x * x);
  }

  /** The periodic distance does not depend on the order of the two points. */
  lemma SquaredDistanceSymmetric(u: seq<int>, v: seq<int>, box: seq<int>)
    requires ValidBox(box) && |u| == 2 && |v| == 2
    ensures SquaredDistance(u, v, box) == SquaredDistance(v, u, box)
  {
    AxisDifferenceSymmetric(u[0], v[0], box[0]);
    AxisDifferenceSymmetric(u[1], v[1], box[1]);
    var a, b := AxisDifference(u[0], v[0], box[0]), AxisDifference(v[0], u[0], box[0]);
    var c, e := AxisDifference(u[1], v[1], box[1]), AxisDifference(v[1], u[1], box[1]);
    assert a * a == b * b by { assert a == b || a == -b; }
    assert c * c == e * e by { assert c == e || c == -e; }
  }

  // ---------------------------------------------------------------------------
  // Boundary condition
  // ---------------------------------------------------------------------------

  /** The box has a positive length on each of the first n axes. */
  predicate PositiveUpTo(box: seq<int>, n: nat) {
    n <= |box| && forall i :: 0 <= i < n ==> box[i] > 0
  }

  /** Each coordinate reduced modulo its axis length. */
  function Wrap(p: seq<int>, box: seq<int>): (w: seq<int>)
    requires PositiveUpTo(box, |p|)
    ensures |w| == |p|
    ensures forall i :: 0 <= i < |p| ==> 0 <= w[i] < box[i] && Congruent(w[i], p[i], box[i])
  {
    var w := seq(|p|, i requires 0 <= i < |p| => p[i] % box[i]);
    assert forall i :: 0 <= i < |p| ==> Congruent(w[i], p[i], box[i]) by {
      forall i | 0 <= i < |p| ensures Congruent(w[i], p[i], box[i]) {
        ModCongruent(p[i], box[i]);
      }
    }
    w
  }

  /** A position already inside the box is left where it is. */
  lemma WrapInside(p: seq<int>, box: seq<int>)
    requires PositiveUpTo(box, |p|)
    requires forall i :: 0 <= i < |p| ==> 0 <= p[i] < box[i]
    ensures Wrap(p, box) == p
  {
    forall i | 0 <= i < |p| ensures Wrap(p, box)[i] == p[i] {
      DivModUnique(p[i], box[i], 0, p[i]);
    }
  }

  /** Wrapping twice is wrapping once. */
  lemma WrapIdempotent(p: seq<int>, box: seq<int>)
    requires PositiveUpTo(box, |p|)
    ensures Wrap(Wrap(p, box), box) == Wrap(p, box)
  {
    WrapInside(Wrap(p, box), box);
  }

  /**
   * boundary_condition: wraps the position array in place, coordinate by
   * coordinate, and hands back the same array with the velocity untouched.
   */
  method BoundaryCondition<V>(position: array<int>, velocity: V, box: seq<int>) returns (p: array<int>, v: V)
    requires PositiveUpTo(box, position.Length)
    modifies position
    ensures p == position && v == velocity
    ensures position[..] == Wrap(old(position[..]), box)
  {
    for index := 0 to position.Length
      invariant forall k :: 0 <= k < index ==> position[k] == old(position[k]) % box[k]
      invariant forall k :: index <= k < position.Length ==> position[k] == old(position[k])
    {
      position[index] := position[index] % box[index];
    }
    return position, velocity;
  }

  // ---------------------------------------------------------------------------
  // Threshold profiles
  // ---------------------------------------------------------------------------

  /** Transmission probability of a source at distance r: p within r0, nothing beyond. */
  function DiseaseProfile(r: real, r0: real, p: real): (q: real)
    ensures r < r0 ==> q == p
    ensures r0 <= r ==> q == 0.0
    ensures 0.0 <= p <= 1.0 ==> 0.0 <= q <= 1.0
  {
    if r < r0 then p else 0.0
  }

  /** Susceptibility of a target at distance r: p within r0, nothing beyond. */
  function InfectionProfile(r: real, r0: real, p: real): (q: real)
    ensures r < r0 ==> q == p
    ensures r0 <= r ==> q == 0.0
    ensures 0.0 <= p <= 1.0 ==> 0.0 <= q <= 1.0
  {
    if r < r0 then p else 0.0
  }
}
