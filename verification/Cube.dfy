/** cube: boxes of any dimension, corners in any order, absent dimensions read as zero. */
module Cube {

  datatype NDBox = NDBox(dim: nat, x: seq<real>)

  type Box = b: NDBox | |b.x| == 2 * b.dim witness NDBox(0, [])

  function Min(a: real, b: real): real { if a < b then a else b }
  function Max(a: real, b: real): real { if a > b then a else b }
  function MinDim(a: Box, b: Box): nat { if a.dim < b.dim then a.dim else b.dim }
  function MaxDim(a: Box, b: Box): nat { if a.dim < b.dim then b.dim else a.dim }

  /** The lower and the upper bound in dimension i. */
  function Lo(b: Box, i: nat): real { if i < b.dim then Min(b.x[i], b.x[i + b.dim]) else 0.0 }
  function Hi(b: Box, i: nat): real { if i < b.dim then Max(b.x[i], b.x[i + b.dim]) else 0.0 }

  lemma LoBelowHi(b: Box, i: nat)
    ensures Lo(b, i) <= Hi(b, i)
  {
  }

  // ---------------------------------------------------------------- union

  /** The least box around both, its corners in order. */
  ghost predicate IsUnion(r: Box, a: Box, b: Box) {
    && r.dim == MaxDim(a, b)
    && (forall i: nat :: Lo(r, i) == Min(Lo(a, i), Lo(b, i)) && Hi(r, i) == Max(Hi(a, i), Hi(b, i)))
    && (forall i: nat :: i < r.dim ==> r.x[i] <= r.x[i + r.dim])
  }

  lemma BoundsIn(b: Box, i: nat)
    requires i < b.dim
    ensures Lo(b, i) == Min(b.x[i], b.x[i + b.dim]) && Hi(b, i) == Max(b.x[i], b.x[i + b.dim])
  {
  }

  lemma BoundsOut(b: Box, i: nat)
    requires i >= b.dim
    ensures Lo(b, i) == 0.0 == Hi(b, i)
  {
  }

  /** The smaller box fills the result, padded with zeroes. */
  method Pad(b: Box, n: nat) returns (x: array<real>)
    requires b.dim <= n
    ensures fresh(x) && x.Length == 2 * n
    ensures forall k: nat :: k < n ==> x[k] == Lo(b, k) && x[k + n] == Hi(b, k)
  {
    hide Lo, Hi, Min, Max;
    x := new real[2 * n](_ => 0.0);
    for i := 0 to b.dim
      invariant forall k: nat :: k < i ==> x[k] == Lo(b, k) && x[k + n] == Hi(b, k)
    {
      BoundsIn(b, i);
      x[i] := Min(b.x[i], b.x[i + b.dim]);
      x[i + n] := Max(b.x[i], b.x[i + b.dim]);
    }
    for i := b.dim to n
      invariant forall k: nat :: k < i ==> x[k] == Lo(b, k) && x[k + n] == Hi(b, k)
    {
      BoundsOut(b, i);
      x[i] := 0.0;
      x[i + n] := 0.0;
    }
  }

  /** cube_union_v0 */
  method Union(a0: Box, b0: Box) returns (r: Box)
    ensures IsUnion(r, a0, b0)
  {
    hide Lo, Hi, Min, Max, IsUnion;
    var a, b := a0, b0;
    if a0.dim < b0.dim {
      a, b := b0, a0;
    }
    var n := a.dim;
    var x := Pad(b, n);
    for i := 0 to n
      invariant forall k: nat :: k < i ==> x[k] == Min(Lo(a, k), Lo(b, k)) && x[k + n] == Max(Hi(a, k), Hi(b, k))
      invariant forall k: nat :: i <= k < n ==> x[k] == Lo(b, k) && x[k + n] == Hi(b, k)
    {
      BoundsIn(a, i);
      x[i] := Min(Min(a.x[i], a.x[i + n]), x[i]);
      x[i + n] := Max(Max(a.x[i], a.x[i + n]), x[i + n]);
    }
    r := NDBox(n, x[..]);
    UnionStored(r, a, b);
  }

  lemma UnionStored(r: Box, a: Box, b: Box)
    requires a.dim >= b.dim && r.dim == a.dim
    requires forall k: nat :: k < r.dim ==>
               r.x[k] == Min(Lo(a, k), Lo(b, k)) && r.x[k + r.dim] == Max(Hi(a, k), Hi(b, k))
    ensures IsUnion(r, a, b) && IsUnion(r, b, a)
  {
    forall i: nat
      ensures Lo(r, i) == Min(Lo(a, i), Lo(b, i)) && Hi(r, i) == Max(Hi(a, i), Hi(b, i))
      ensures i < r.dim ==> r.x[i] <= r.x[i + r.dim]
    {
      LoBelowHi(a, i);
      LoBelowHi(b, i);
    }
  }

  // ---------------------------------------------------------------- intersection and size, for the split heuristic

  /** cube_inter: bounds may cross where the boxes do not meet. */
  method Inter(a0: Box, b0: Box) returns (r: Box)
    ensures r.dim == MaxDim(a0, b0)
    ensures forall i: nat :: i < r.dim ==>
              r.x[i] == Max(Lo(a0, i), Lo(b0, i)) && r.x[i + r.dim] == Min(Hi(a0, i), Hi(b0, i))
  {
    hide Lo, Hi, Min, Max;
    var a, b := a0, b0;
    if a0.dim < b0.dim {
      a, b := b0, a0;
    }
    var n := a.dim;
    var x := Pad(b, n);
    for i := 0 to n
      invariant forall k: nat :: k < i ==> x[k] == Max(Lo(a, k), Lo(b, k)) && x[k + n] == Min(Hi(a, k), Hi(b, k))
      invariant forall k: nat :: i <= k < n ==> x[k] == Lo(b, k) && x[k + n] == Hi(b, k)
    {
      BoundsIn(a, i);
      x[i] := Max(Min(a.x[i], a.x[i + n]), x[i]);
      x[i + n] := Min(Max(a.x[i], a.x[i + n]), x[i + n]);
    }
    r := NDBox(n, x[..]);
    MinMaxCommute();
  }

  lemma MinMaxCommute()
    ensures forall u, v :: Min(u, v) == Min(v, u) && Max(u, v) == Max(v, u)
  {
  }

  // ---------------------------------------------------------------- contains, overlaps, equals

  /** What cube_contains_v0 tests: dimensions of a that b lacks do not count. */
  ghost predicate Contains(a: Box, b: Box) {
    forall i: nat :: i < b.dim || a.dim <= i ==> Lo(a, i) <= Lo(b, i) && Hi(b, i) <= Hi(a, i)
  }

  /** cube_contains_v0 */
  method ContainsV0(a: Box, b: Box) returns (res: bool)
    ensures res <==> Contains(a, b)
  {
    if a.dim < b.dim {
      for i := a.dim to b.dim
        invariant forall k: nat :: a.dim <= k < i ==> Lo(b, k) == 0.0 == Hi(b, k)
      {
        if b.x[i] != 0.0 || b.x[i + b.dim] != 0.0 {
          assert Lo(a, i) == 0.0 == Hi(a, i);
          return false;
        }
      }
    }
    for i := 0 to MinDim(a, b)
      invariant forall k: nat :: k < i ==> Lo(a, k) <= Lo(b, k) && Hi(b, k) <= Hi(a, k)
    {
      if Min(a.x[i], a.x[a.dim + i]) > Min(b.x[i], b.x[b.dim + i])
         || Max(a.x[i], a.x[a.dim + i]) < Max(b.x[i], b.x[b.dim + i]) {
        assert !(Lo(a, i) <= Lo(b, i) && Hi(b, i) <= Hi(a, i));
        return false;
      }
    }
    res := true;
  }

  /** The boxes meet in every dimension. */
  ghost predicate Overlaps(a: Box, b: Box) {
    forall i: nat :: Lo(a, i) <= Hi(b, i) && Lo(b, i) <= Hi(a, i)
  }

  /** cube_overlap_v0 */
  method OverlapV0(a0: Box, b0: Box) returns (res: bool)
    ensures res <==> Overlaps(a0, b0)
  {
    var a, b := a0, b0;
    if a.dim < b.dim {
      a, b := b0, a0;
    }
    for i := 0 to b.dim
      invariant forall k: nat :: k < i ==> Lo(a, k) <= Hi(b, k) && Lo(b, k) <= Hi(a, k)
    {
      if Min(a.x[i], a.x[a.dim + i]) > Max(b.x[i], b.x[b.dim + i])
         || Max(a.x[i], a.x[a.dim + i]) < Min(b.x[i], b.x[b.dim + i]) {
        assert !(Lo(a, i) <= Hi(b, i) && Lo(b, i) <= Hi(a, i));
        return false;
      }
    }
    for i := b.dim to a.dim
      invariant forall k: nat :: k < i ==> Lo(a, k) <= Hi(b, k) && Lo(b, k) <= Hi(a, k)
    {
      if Min(a.x[i], a.x[a.dim + i]) > 0.0 || Max(a.x[i], a.x[a.dim + i]) < 0.0 {
        assert !(Lo(a, i) <= Hi(b, i) && Lo(b, i) <= Hi(a, i));
        return false;
      }
    }
    res := true;
  }

  ghost predicate Same(a: Box, b: Box) {
    a.dim == b.dim && forall i: nat :: Lo(a, i) == Lo(b, i) && Hi(a, i) == Hi(b, i)
  }

  /** What is compared k-th: lower bounds and upper bounds of the common dimensions, then those of the others. */
  function At(b: Box, d: nat, n: nat, k: nat): real
    requires d <= n
  {
    if k < d then Lo(b, k)
    else if k < 2 * d then Hi(b, k - d)
    else if k < d + n then Lo(b, k - d)
    else Hi(b, k - n)
  }

  function Decide(u: real, v: real, rest: int): int { if u > v then 1 else if u < v then -1 else rest }

  /** The sign of the first difference from place k on; boxes with more dimensions come after equal ones. */
  function OrderFrom(a: Box, b: Box, k: nat): int
    requires k <= 2 * MaxDim(a, b)
    decreases 2 * MaxDim(a, b) - k
  {
    var d, n := MinDim(a, b), MaxDim(a, b);
    if k == 2 * n then (if a.dim > b.dim then 1 else if a.dim < b.dim then -1 else 0)
    else Decide(At(a, d, n, k), At(b, d, n, k), OrderFrom(a, b, k + 1))
  }

  /** cube_cmp_v0 */
  method CompareV0(a: Box, b: Box) returns (r: int)
    ensures r == OrderFrom(a, b, 0)
    ensures r == 0 <==> Same(a, b)
  {
    OrderZero(a, b, 0);
    OrderEnd(a, b);
    hide Same, OrderFrom;
    r := CompareCommon(a, b);
    if r == 0 {
      if a.dim > b.dim {
        r := CompareExtra(a, b);
      } else if a.dim < b.dim {
        r := CompareExtra(b, a);
        OrderAntisymmetric(a, b, 2 * MinDim(a, b));
        r := -r;
      }
    }
  }

  /** The common dimensions; zero if they do not decide. */
  method CompareCommon(a: Box, b: Box) returns (r: int)
    ensures OrderFrom(a, b, 0) == if r != 0 then r else OrderFrom(a, b, 2 * MinDim(a, b))
  {
    hide Lo, Hi, OrderFrom;
    var dim := MinDim(a, b);
    for i := 0 to dim
      invariant OrderFrom(a, b, 0) == OrderFrom(a, b, i)
    {
      OrderStep(a, b, i);
      if Lo(a, i) > Lo(b, i) { return 1; }
      if Lo(a, i) < Lo(b, i) { return -1; }
    }
    for i := 0 to dim
      invariant OrderFrom(a, b, 0) == OrderFrom(a, b, dim + i)
    {
      OrderStep(a, b, i);
      if Hi(a, i) > Hi(b, i) { return 1; }
      if Hi(a, i) < Hi(b, i) { return -1; }
    }
    return 0;
  }

  /** The dimensions only a has, compared to zero; if they do not decide, the box with more dimensions wins. */
  method CompareExtra(a: Box, b: Box) returns (r: int)
    requires a.dim > b.dim
    ensures r == OrderFrom(a, b, 2 * b.dim)
  {
    hide Lo, Hi, OrderFrom;
    for i := b.dim to a.dim
      invariant OrderFrom(a, b, 2 * b.dim) == OrderFrom(a, b, b.dim + i)
    {
      OrderStep(a, b, i);
      BoundsOut(b, i);
      if Lo(a, i) > 0.0 { return 1; }
      if Lo(a, i) < 0.0 { return -1; }
    }
    for i := b.dim to a.dim
      invariant OrderFrom(a, b, 2 * b.dim) == OrderFrom(a, b, a.dim + i)
    {
      OrderStep(a, b, i);
      BoundsOut(b, i);
      if Hi(a, i) > 0.0 { return 1; }
      if Hi(a, i) < 0.0 { return -1; }
    }
    OrderEnd(a, b);
    return 1;
  }

  lemma OrderStep(a: Box, b: Box, i: nat)
    requires i < MaxDim(a, b)
    ensures var d, n := MinDim(a, b), MaxDim(a, b);
            && (i < d ==> OrderFrom(a, b, i) == Decide(Lo(a, i), Lo(b, i), OrderFrom(a, b, i + 1)))
            && (i < d ==> OrderFrom(a, b, d + i) == Decide(Hi(a, i), Hi(b, i), OrderFrom(a, b, d + i + 1)))
            && (i >= d ==> OrderFrom(a, b, d + i) == Decide(Lo(a, i), Lo(b, i), OrderFrom(a, b, d + i + 1)))
            && (i >= d ==> OrderFrom(a, b, n + i) == Decide(Hi(a, i), Hi(b, i), OrderFrom(a, b, n + i + 1)))
  {
    hide Lo, Hi;
  }

  lemma OrderEnd(a: Box, b: Box)
    ensures OrderFrom(a, b, 2 * MaxDim(a, b)) == if a.dim > b.dim then 1 else if a.dim < b.dim then -1 else 0
  {
  }

  /** Only the same box compares equal, up to the order of its corners. */
  lemma {:induction false} OrderZero(a: Box, b: Box, k: nat)
    requires k <= 2 * MaxDim(a, b)
    requires k > 0 ==>
               forall j: nat :: j < k ==>
                 At(a, MinDim(a, b), MaxDim(a, b), j) == At(b, MinDim(a, b), MaxDim(a, b), j)
    ensures OrderFrom(a, b, k) == 0 <==> Same(a, b)
    decreases 2 * MaxDim(a, b) - k
  {
    var d, n := MinDim(a, b), MaxDim(a, b);
    if k == 2 * n {
      if a.dim == b.dim {
        forall i: nat ensures Lo(a, i) == Lo(b, i) && Hi(a, i) == Hi(b, i) {
          if i < d {
            assert At(a, d, n, i) == Lo(a, i) && At(b, d, n, i) == Lo(b, i);
            assert At(a, d, n, d + i) == Hi(a, i) && At(b, d, n, d + i) == Hi(b, i);
          }
        }
      }
    } else if At(a, d, n, k) == At(b, d, n, k) {
      OrderZero(a, b, k + 1);
    } else {
      hide Lo, Hi;
    }
  }

  lemma {:induction false} OrderAntisymmetric(a: Box, b: Box, k: nat)
    requires k <= 2 * MaxDim(a, b)
    ensures OrderFrom(a, b, k) == -OrderFrom(b, a, k)
    decreases 2 * MaxDim(a, b) - k
  {
    hide At;
    if k < 2 * MaxDim(a, b) { OrderAntisymmetric(a, b, k + 1); }
  }

  // ---------------------------------------------------------------- points and distance

  type Point = seq<real>

  /** The point lies in the zero-padded box. */
  ghost predicate In(p: Point, b: Box) { |p| >= b.dim && Inside(p, b) }

  ghost predicate Inside(p: Point, b: Box) {
    forall i :: 0 <= i < |p| ==> Lo(b, i) <= p[i] <= Hi(b, i)
  }

  function Sqr(d: real): real { d * d }

  lemma SqrSign(d: real)
    ensures Sqr(d) >= 0.0 && (Sqr(d) == 0.0 <==> d == 0.0)
  {
    if d != 0.0 {
      var h := 1.0 / d;
      assert d * h == 1.0;
      assert Sqr(d) * (h * h) == 1.0;
    }
  }

  /** The squared Euclidean distance of two points, over their first n coordinates. */
  function PointDistance(p: Point, q: Point, n: nat): real
    requires n <= |p| && n <= |q|
  {
    if n == 0 then 0.0 else PointDistance(p, q, n - 1) + Sqr(p[n - 1] - q[n - 1])
  }

  /** distance_1D */
  function Distance1D(a1: real, a2: real, b1: real, b2: real): real {
    if a1 <= b1 && a2 <= b1 && a1 <= b2 && a2 <= b2 then Min(b1, b2) - Max(a1, a2)
    else if a1 > b1 && a2 > b1 && a1 > b2 && a2 > b2 then Min(a1, a2) - Max(b1, b2)
    else 0.0
  }

  /** How far apart two intervals are. */
  function Gap(a: Box, b: Box, i: nat): real { Max(0.0, Max(Lo(b, i) - Hi(a, i), Lo(a, i) - Hi(b, i))) }

  lemma Distance1DIsGap(a1: real, a2: real, b1: real, b2: real)
    ensures Distance1D(a1, a2, b1, b2) ==
            Max(0.0, Max(Min(b1, b2) - Max(a1, a2), Min(a1, a2) - Max(b1, b2)))
  {
  }

  /** The squared distance of two boxes, over the first n dimensions. */
  function BoxDistance(a: Box, b: Box, n: nat): real {
    if n == 0 then 0.0 else BoxDistance(a, b, n - 1) + Sqr(Gap(a, b, n - 1))
  }

  /** cube_distance, before the square root. */
  method SquaredDistance(a0: Box, b0: Box) returns (distance: real)
    ensures distance == BoxDistance(a0, b0, MaxDim(a0, b0))
  {
    hide Gap, Distance1D, Sqr;
    var a, b := a0, b0;
    if a.dim < b.dim {
      a, b := b0, a0;
    }
    distance := 0.0;
    for i := 0 to b.dim
      invariant distance == BoxDistance(a, b, i)
    {
      var d := Distance1D(a.x[i], a.x[i + a.dim], b.x[i], b.x[i + b.dim]);
      GapIn(a, b, i);
      distance := distance + Sqr(d);
    }
    for i := b.dim to a.dim
      invariant distance == BoxDistance(a, b, i)
    {
      var d := Distance1D(a.x[i], a.x[i + a.dim], 0.0, 0.0);
      GapIn(a, b, i);
      distance := distance + Sqr(d);
    }
    DistanceSymmetric(a0, b0, a.dim);
  }

  lemma GapIn(a: Box, b: Box, i: nat)
    requires i < a.dim
    ensures i < b.dim ==> Gap(a, b, i) == Distance1D(a.x[i], a.x[i + a.dim], b.x[i], b.x[i + b.dim])
    ensures i >= b.dim ==> Gap(a, b, i) == Distance1D(a.x[i], a.x[i + a.dim], 0.0, 0.0)
  {
    if i < b.dim {
      Distance1DIsGap(a.x[i], a.x[i + a.dim], b.x[i], b.x[i + b.dim]);
    } else {
      Distance1DIsGap(a.x[i], a.x[i + a.dim], 0.0, 0.0);
    }
  }

  lemma {:induction false} DistanceSymmetric(a: Box, b: Box, n: nat)
    ensures BoxDistance(a, b, n) == BoxDistance(b, a, n)
  {
    if n > 0 {
      DistanceSymmetric(a, b, n - 1);
      assert Gap(a, b, n - 1) == Gap(b, a, n - 1);
    }
  }

  lemma SqrGrows(d: real, e: real)
    requires 0.0 <= d && (d <= e || d <= -e)
    ensures Sqr(d) <= Sqr(e)
  {
    var f := if e < 0.0 then -e else e;
    assert Sqr(e) == f * f;
    assert f * f - d * d == (f - d) * (f + d);
    Product(f - d, f + d);
  }

  lemma Product(u: real, v: real)
    requires u >= 0.0 && v >= 0.0
    ensures u * v >= 0.0
    ensures u > 0.0 && v > 0.0 ==> u * v > 0.0
  {
  }

  /** No two points of the boxes are closer. */
  lemma {:induction false} DistanceIsBound(a: Box, b: Box, p: Point, q: Point, n: nat)
    requires In(p, a) && In(q, b) && n <= |p| && n <= |q|
    ensures BoxDistance(a, b, n) <= PointDistance(p, q, n)
  {
    if n > 0 {
      hide Sqr;
      DistanceIsBound(a, b, p, q, n - 1);
      SqrGrows(Gap(a, b, n - 1), p[n - 1] - q[n - 1]);
    }
  }

  /** Some two points are exactly as close. */
  lemma {:induction false} DistanceIsAttained(a: Box, b: Box, n: nat) returns (p: Point, q: Point)
    ensures |p| == |q| == n && PointDistance(p, q, n) == BoxDistance(a, b, n)
    ensures forall i: nat :: i < n ==> Lo(a, i) <= p[i] <= Hi(a, i) && Lo(b, i) <= q[i] <= Hi(b, i)
  {
    if n == 0 {
      p, q := [], [];
    } else {
      var i := n - 1;
      var p0, q0 := DistanceIsAttained(a, b, i);
      var u, v := Closest(a, b, i);
      p, q := p0 + [u], q0 + [v];
      SamePrefix(p0, q0, u, v, i);
    }
  }

  lemma Closest(a: Box, b: Box, i: nat) returns (u: real, v: real)
    ensures Lo(a, i) <= u <= Hi(a, i) && Lo(b, i) <= v <= Hi(b, i) && Sqr(u - v) == Sqr(Gap(a, b, i))
  {
    if Hi(a, i) < Lo(b, i) {
      u, v := Hi(a, i), Lo(b, i);
      assert u - v == -Gap(a, b, i);
    } else if Hi(b, i) < Lo(a, i) {
      u, v := Lo(a, i), Hi(b, i);
    } else {
      u := Max(Lo(a, i), Lo(b, i));
      v := u;
    }
  }

  lemma {:induction false} SamePrefix(p: Point, q: Point, u: real, v: real, n: nat)
    requires n <= |p| && n <= |q|
    ensures PointDistance(p + [u], q + [v], n) == PointDistance(p, q, n)
  {
    if n > 0 { SamePrefix(p, q, u, v, n - 1); }
  }

  /** The distance of two boxes is the least distance of their points. */
  lemma DistanceIsLeast(a: Box, b: Box) returns (p: Point, q: Point)
    ensures |p| == |q| == MaxDim(a, b) && In(p, a) && In(q, b)
    ensures PointDistance(p, q, |p|) == BoxDistance(a, b, |p|)
    ensures forall p': Point, q': Point :: |p'| == |q'| == |p| && In(p', a) && In(q', b) ==>
              BoxDistance(a, b, |p|) <= PointDistance(p', q', |p|)
  {
    p, q := DistanceIsAttained(a, b, MaxDim(a, b));
    forall p': Point, q': Point | |p'| == |q'| == |p| && In(p', a) && In(q', b)
      ensures BoxDistance(a, b, |p|) <= PointDistance(p', q', |p|)
    {
      DistanceIsBound(a, b, p', q', |p|);
    }
  }

  /** Distance zero is overlap. */
  lemma ZeroIffOverlap(a: Box, b: Box)
    ensures BoxDistance(a, b, MaxDim(a, b)) == 0.0 <==> Overlaps(a, b)
  {
    var n := MaxDim(a, b);
    ZeroIffMeet(a, b, n);
    forall i: nat | i >= n ensures Lo(a, i) <= Hi(b, i) && Lo(b, i) <= Hi(a, i) {
    }
  }

  lemma {:induction false} ZeroIffMeet(a: Box, b: Box, n: nat)
    ensures BoxDistance(a, b, n) >= 0.0
    ensures BoxDistance(a, b, n) == 0.0 <==> forall i: nat :: i < n ==> Lo(a, i) <= Hi(b, i) && Lo(b, i) <= Hi(a, i)
  {
    if n > 0 {
      ZeroIffMeet(a, b, n - 1);
      SqrSign(Gap(a, b, n - 1));
    }
  }

  /** Boxes overlap exactly when they have a point in common. */
  lemma OverlapIffCommonPoint(a: Box, b: Box)
    ensures Overlaps(a, b) <==> exists p: Point :: In(p, a) && In(p, b)
  {
    if Overlaps(a, b) {
      var p := CommonPoint(a, b, MaxDim(a, b));
      assert In(p, a) && In(p, b);
    }
    if p: Point :| In(p, a) && In(p, b) {
      forall i: nat ensures Lo(a, i) <= Hi(b, i) && Lo(b, i) <= Hi(a, i) {
        if i < |p| { assert Lo(a, i) <= p[i] <= Hi(a, i); }
      }
    }
  }

  /** A box contains another exactly when no point of the other, as far as its dimensions go, is outside. */
  lemma ContainsIffPoints(a: Box, b: Box)
    ensures Contains(a, b) <==> forall p: Point :: |p| == b.dim && In(p, b) ==> Inside(p, a)
  {
    if forall p: Point :: |p| == b.dim && In(p, b) ==> Inside(p, a) {
      var lo, hi := Corners(b);
      hide Lo, Hi;
      assert Inside(lo, a) && Inside(hi, a);
      forall i: nat | i < b.dim || a.dim <= i ensures Lo(a, i) <= Lo(b, i) && Hi(b, i) <= Hi(a, i) {
        if i < b.dim {
          assert Lo(a, i) <= lo[i] && hi[i] <= Hi(a, i);
        } else {
          BoundsOut(a, i);
          BoundsOut(b, i);
        }
      }
    }
  }

  lemma Corners(b: Box) returns (lo: Point, hi: Point)
    ensures |lo| == |hi| == b.dim && In(lo, b) && In(hi, b)
    ensures forall i: nat :: i < b.dim ==> lo[i] == Lo(b, i) && hi[i] == Hi(b, i)
  {
    lo := seq(b.dim, i requires 0 <= i => Lo(b, i));
    hi := seq(b.dim, i requires 0 <= i => Hi(b, i));
    forall i | 0 <= i < b.dim ensures Lo(b, i) <= lo[i] <= Hi(b, i) && Lo(b, i) <= hi[i] <= Hi(b, i) {
      LoBelowHi(b, i);
    }
  }

  lemma {:induction false} CommonPoint(a: Box, b: Box, n: nat) returns (p: Point)
    requires Overlaps(a, b)
    ensures |p| == n && forall i: nat :: i < n ==> Lo(a, i) <= p[i] <= Hi(a, i) && Lo(b, i) <= p[i] <= Hi(b, i)
  {
    if n == 0 {
      p := [];
    } else {
      var p0 := CommonPoint(a, b, n - 1);
      assert Lo(a, n - 1) <= Hi(b, n - 1);
      p := p0 + [Max(Lo(a, n - 1), Lo(b, n - 1))];
    }
  }
}
