/** Which boxes cube_cmp_v0 orders: it compares bounds in an order that depends on the two dimensions. */
module CubeOrder {
  import opened Cube

  /** The comparison with the order of bounds fixed: d leading dimensions out of n. */
  function Ranked(a: Box, b: Box, d: nat, n: nat, k: nat): int
    requires d <= n && k <= 2 * n
    decreases 2 * n - k
  {
    if k == 2 * n then (if a.dim > b.dim then 1 else if a.dim < b.dim then -1 else 0)
    else Decide(At(a, d, n, k), At(b, d, n, k), Ranked(a, b, d, n, k + 1))
  }

  lemma {:induction false} OrderIsRanked(a: Box, b: Box, k: nat)
    requires k <= 2 * MaxDim(a, b)
    ensures OrderFrom(a, b, k) == Ranked(a, b, MinDim(a, b), MaxDim(a, b), k)
    decreases 2 * MaxDim(a, b) - k
  {
    hide At;
    if k < 2 * MaxDim(a, b) { OrderIsRanked(a, b, k + 1); }
  }

  lemma {:induction false} RankedTransitive(a: Box, b: Box, c: Box, d: nat, n: nat, k: nat)
    requires d <= n && k <= 2 * n && Ranked(a, b, d, n, k) <= 0 && Ranked(b, c, d, n, k) <= 0
    ensures Ranked(a, c, d, n, k) <= 0
    decreases 2 * n - k
  {
    hide At;
    if k < 2 * n && At(a, d, n, k) == At(b, d, n, k) == At(c, d, n, k) { RankedTransitive(a, b, c, d, n, k + 1); }
  }

  /** Between boxes of dimension p, more dimensions change nothing. */
  lemma {:induction false} MoreDimensions(a: Box, b: Box, p: nat, r: nat, k: nat)
    requires a.dim == b.dim == p <= r && k <= 2 * r
    ensures k <= 2 * p ==> Ranked(a, b, p, r, k) == Ranked(a, b, p, p, k)
    ensures k > 2 * p ==> Ranked(a, b, p, r, k) == 0
    decreases 2 * r - k
  {
    if k < 2 * r {
      MoreDimensions(a, b, p, r, k + 1);
      if k >= 2 * p { BeyondIsZero(a, b, p, r, k); }
    }
  }

  lemma BeyondIsZero(a: Box, b: Box, p: nat, r: nat, k: nat)
    requires a.dim == b.dim == p <= r && 2 * p <= k < 2 * r
    ensures At(a, p, r, k) == At(b, p, r, k)
  {
  }

  /** Against the box without dimensions, the bounds come as they do between two boxes of dimension r. */
  lemma {:induction false} NoLeading(a: Box, b: Box, r: nat, k: nat)
    requires k <= 2 * r
    ensures Ranked(a, b, 0, r, k) == Ranked(a, b, r, r, k)
    decreases 2 * r - k
  {
    if k < 2 * r { NoLeading(a, b, r, k + 1); }
  }

  /** Three boxes of dimensions p, q and r, in some order. */
  ghost predicate DimsAre(a: Box, b: Box, c: Box, p: nat, q: nat, r: nat) {
    multiset{a.dim, b.dim, c.dim} == multiset{p, q, r}
  }

  function Order(a: Box, b: Box): int { OrderFrom(a, b, 0) }

  ghost predicate TransitiveOn(p: nat, q: nat, r: nat) {
    forall a: Box, b: Box, c: Box ::
      DimsAre(a, b, c, p, q, r) && Order(a, b) <= 0 && Order(b, c) <= 0 ==> Order(a, c) <= 0
  }

  lemma OneOf(a: Box, b: Box, c: Box, p: nat, q: nat, r: nat)
    requires DimsAre(a, b, c, p, q, r) && p <= q <= r
    ensures a.dim == p || a.dim == q || a.dim == r
    ensures p == q ==>
              || (a.dim == p && b.dim == p && c.dim == r)
              || (a.dim == p && b.dim == r && c.dim == p)
              || (a.dim == r && b.dim == p && c.dim == p)
    ensures q == r ==>
              || (a.dim == p && b.dim == r && c.dim == r)
              || (a.dim == r && b.dim == p && c.dim == r)
              || (a.dim == r && b.dim == r && c.dim == p)
  {
    var m, m' := multiset{a.dim, b.dim, c.dim}, multiset{p, q, r};
    assert a.dim in m && b.dim in m && c.dim in m;
    assert m[p] == m'[p] && m[r] == m'[r];
  }

  /** The order of bounds that all comparisons among p, p and r use. */
  lemma TwoSmall(a: Box, b: Box, p: nat, r: nat)
    requires p <= r && (a.dim == p || b.dim == p) && (a.dim == p || a.dim == r) && (b.dim == p || b.dim == r)
    ensures Order(a, b) == Ranked(a, b, p, r, 0)
  {
    hide At;
    OrderIsRanked(a, b, 0);
    if a.dim == b.dim { MoreDimensions(a, b, p, r, 0); }
  }

  /** The order of bounds that all comparisons among 0, r and r use. */
  lemma OneEmpty(a: Box, b: Box, r: nat)
    requires (a.dim == 0 || a.dim == r) && (b.dim == 0 || b.dim == r) && (a.dim == r || b.dim == r)
    ensures Order(a, b) == Ranked(a, b, r, r, 0)
  {
    hide At;
    OrderIsRanked(a, b, 0);
    if a.dim != b.dim { NoLeading(a, b, r, 0); }
  }

  lemma Transitive(p: nat, q: nat, r: nat)
    requires p <= q <= r && (p == q || (p == 0 && q == r))
    ensures TransitiveOn(p, q, r)
  {
    hide OrderFrom, Ranked;
    forall a: Box, b: Box, c: Box | DimsAre(a, b, c, p, q, r) && Order(a, b) <= 0 && Order(b, c) <= 0
      ensures Order(a, c) <= 0
    {
      OneOf(a, b, c, p, q, r);
      if p == q {
        TwoSmall(a, b, p, r);
        TwoSmall(b, c, p, r);
        TwoSmall(a, c, p, r);
        RankedTransitive(a, b, c, p, r, 0);
      } else {
        OneEmpty(a, b, r);
        OneEmpty(b, c, r);
        OneEmpty(a, c, r);
        RankedTransitive(a, b, c, r, r, 0);
      }
    }
  }

  // ---------------------------------------------------------------- cycles

  /** A box that is zero except for the lower bound in dimension j and the upper bound in dimension 0. */
  lemma Spike(dim: nat, j: nat, lo: real, hi: real) returns (b: Box)
    requires lo <= 0.0 <= hi
    ensures b.dim == dim
    ensures forall i: nat ::
              && Lo(b, i) == (if i == j && j < dim then lo else 0.0)
              && Hi(b, i) == (if i == 0 && 0 < dim then hi else 0.0)
  {
    var x := seq(2 * dim, k => if k == j < dim then lo else if k == dim then hi else 0.0);
    b := NDBox(dim, x);
    forall i: nat
      ensures Lo(b, i) == (if i == j && j < dim then lo else 0.0) && Hi(b, i) == (if i == 0 && 0 < dim then hi else 0.0)
    {
      if i < dim {
        assert x[i] == (if i == j then lo else 0.0) && x[i + dim] == (if i == 0 then hi else 0.0);
      }
    }
  }

  lemma {:induction false} FirstDifference(a: Box, b: Box, k: nat, j: nat)
    requires j <= k < 2 * MaxDim(a, b)
    requires var d, n := MinDim(a, b), MaxDim(a, b);
             At(a, d, n, k) < At(b, d, n, k) && forall i: nat :: i < k ==> At(a, d, n, i) == At(b, d, n, i)
    ensures OrderFrom(a, b, j) == -1
    decreases k - j
  {
    hide At;
    if j < k { FirstDifference(a, b, k, j + 1); }
  }

  ghost predicate Cycle(a: Box, b: Box, c: Box) { Order(a, b) == -1 && Order(b, c) == -1 && Order(c, a) == -1 }

  /** Boxes with 0 < p < q <= r dimensions: the bound in dimension p comes before the upper bounds only between the
      second and the third. */
  lemma CycleAbove(p: nat, q: nat, r: nat) returns (a: Box, b: Box, c: Box)
    requires 0 < p < q <= r
    ensures a.dim == p && b.dim == q && c.dim == r && Cycle(a, b, c)
  {
    a := Spike(p, p, 0.0, 2.0);
    b := Spike(q, p, -5.0, 3.0);
    c := Spike(r, p, -4.0, 1.0);
    hide Lo, Hi, OrderFrom;
    FirstDifference(a, b, p, 0);
    FirstDifference(b, c, p, 0);
    FirstDifference(c, a, p, 0);
  }

  /** Boxes with 0 < q < r dimensions and none. */
  lemma CycleAtZero(q: nat, r: nat) returns (a: Box, b: Box, c: Box)
    requires 0 < q < r
    ensures a.dim == 0 && b.dim == q && c.dim == r && Cycle(a, b, c)
  {
    a := Spike(0, 0, 0.0, 0.0);
    b := Spike(q, q, 0.0, 2.0);
    c := Spike(r, q, -1.0, 3.0);
    hide Lo, Hi, OrderFrom;
    FirstDifference(a, b, q, 0);
    FirstDifference(b, c, q, 0);
    FirstDifference(c, a, q, 0);
  }

  /** cube_cmp_v0 is transitive among boxes of three dimensions if and only if the smaller two are equal, or the
      smallest is zero and the others are equal. */
  lemma TransitiveIff(p: nat, q: nat, r: nat)
    requires p <= q <= r
    ensures TransitiveOn(p, q, r) <==> p == q || (p == 0 && q == r)
  {
    if p == q || (p == 0 && q == r) {
      Transitive(p, q, r);
    } else {
      var a, b, c;
      if p == 0 { a, b, c := CycleAtZero(q, r); } else { a, b, c := CycleAbove(p, q, r); }
      OrderAntisymmetric(c, a, 0);
      assert DimsAre(a, b, c, p, q, r) && Order(a, b) <= 0 && Order(b, c) <= 0 && Order(a, c) == 1;
    }
  }

  /** Such a cycle. */
  lemma ConcreteCycle()
    ensures Cycle(NDBox(1, [0.0, 2.0]), NDBox(2, [0.0, -5.0, 3.0, 0.0]), NDBox(2, [0.0, -4.0, 1.0, 0.0]))
  {
    var a: Box, b: Box := NDBox(1, [0.0, 2.0]), NDBox(2, [0.0, -5.0, 3.0, 0.0]);
    var c: Box := NDBox(2, [0.0, -4.0, 1.0, 0.0]);
    FirstDifference(a, b, 1, 0);
    FirstDifference(b, c, 1, 0);
    FirstDifference(c, a, 1, 0);
  }
}
