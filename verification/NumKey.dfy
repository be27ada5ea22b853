/** btree_gist for fixed-width types: keys are ranges over any totally ordered type. */
module NumKey {
  import opened Options
  import opened Order
  import opened PageOffsets

  datatype Key<T> = Key(lower: T, upper: T)

  predicate Lt<T>(cmp: Comparison<T>, a: T, b: T) { cmp(a, b) < 0 }
  predicate Le<T>(cmp: Comparison<T>, a: T, b: T) { cmp(a, b) <= 0 }
  predicate Eq<T>(cmp: Comparison<T>, a: T, b: T) { cmp(a, b) == 0 }

  /** The range spans the keys. */
  ghost predicate Spans<T>(cmp: Comparison<T>, r: Key<T>, keys: seq<Key<T>>) {
    forall i :: 0 <= i < |keys| ==> Le(cmp, r.lower, keys[i].lower) && Le(cmp, keys[i].upper, r.upper)
  }

  /** The range spans the keys and no narrower one does: each bound is some key's. */
  ghost predicate Hull<T>(cmp: Comparison<T>, r: Key<T>, keys: seq<Key<T>>) {
    && Spans(cmp, r, keys)
    && (exists i :: 0 <= i < |keys| && keys[i].lower == r.lower)
    && (exists i :: 0 <= i < |keys| && keys[i].upper == r.upper)
  }

  /** The hull of the keys put in so far; none before the first. */
  ghost predicate HullSoFar<T>(cmp: Comparison<T>, u: Option<Key<T>>, keys: seq<Key<T>>) {
    if keys == [] then u.None? else u.Some? && Hull(cmp, u.value, keys)
  }

  function Widen<T>(cmp: Comparison<T>, u: Key<T>, e: Key<T>): Key<T> {
    Key(if Lt(cmp, e.lower, u.lower) then e.lower else u.lower, if Lt(cmp, u.upper, e.upper) then e.upper else u.upper)
  }

  lemma WidenHull<T(!new)>(cmp: Comparison<T>, u: Key<T>, e: Key<T>, keys: seq<Key<T>>)
    requires TotalOrder(cmp) && Hull(cmp, u, keys)
    ensures Hull(cmp, Widen(cmp, u, e), keys + [e])
  {
    var r, all := Widen(cmp, u, e), keys + [e];
    forall i | 0 <= i < |all| ensures Le(cmp, r.lower, all[i].lower) && Le(cmp, all[i].upper, r.upper) {
      if i < |keys| {
        Below(cmp, r.lower, u.lower, keys[i].lower);
        Below(cmp, keys[i].upper, u.upper, r.upper);
      }
    }
    var lo :| 0 <= lo < |keys| && keys[lo].lower == u.lower;
    var up :| 0 <= up < |keys| && keys[up].upper == u.upper;
    assert all[lo] == keys[lo] && all[up] == keys[up] && all[|keys|] == e;
  }

  /** gbt_num_union */
  method Union<T(!new)>(cmp: Comparison<T>, entries: seq<Key<T>>) returns (out: Key<T>)
    requires TotalOrder(cmp) && entries != []
    ensures Hull(cmp, out, entries)
  {
    hide TotalOrder;
    out := entries[0];
    OneHull(cmp, out);
    assert entries[..1] == [out];
    for i := 1 to |entries|
      invariant Hull(cmp, out, entries[..i])
    {
      var cur := entries[i];
      WidenHull(cmp, out, cur, entries[..i]);
      assert entries[..i + 1] == entries[..i] + [cur];
      var lower, upper := out.lower, out.upper;
      if Lt(cmp, cur.lower, lower) {
        lower := cur.lower;
      }
      if Lt(cmp, upper, cur.upper) {
        upper := cur.upper;
      }
      out := Key(lower, upper);
    }
    assert entries[..|entries|] == entries;
  }

  lemma OneHull<T(!new)>(cmp: Comparison<T>, e: Key<T>)
    requires TotalOrder(cmp)
    ensures Hull(cmp, e, [e])
  {
    assert Le(cmp, e.lower, e.lower) && Le(cmp, e.upper, e.upper);
    assert [e][0] == e;
  }

  /** gbt_num_bin_union */
  method BinUnion<T(!new)>(cmp: Comparison<T>, u: Option<Key<T>>, e: Key<T>, ghost keys: seq<Key<T>>)
      returns (r: Option<Key<T>>)
    requires TotalOrder(cmp) && HullSoFar(cmp, u, keys)
    ensures HullSoFar(cmp, r, keys + [e])
  {
    if u.None? {
      OneHull(cmp, e);
      assert keys + [e] == [e];
      return Some(e);
    }
    WidenHull(cmp, u.value, e, keys);
    var lower, upper := u.value.lower, u.value.upper;
    if Lt(cmp, e.lower, lower) {
      lower := e.lower;
    }
    if Lt(cmp, upper, e.upper) {
      upper := e.upper;
    }
    return Some(Key(lower, upper));
  }

  // ---------------------------------------------------------------- splitting a page

  /** What the sort leaves: all offsets, by lower bounds and, where these agree, by upper bounds. */
  ghost predicate Sorted<T>(cmp: Comparison<T>, vector: seq<Key<T>>, order: seq<nat>) {
    && Arranged(order, |vector|)
    && forall j, k :: 0 <= j < k < |order| && order[j] < |vector| && order[k] < |vector| ==>
         var a, b := vector[order[j]], vector[order[k]];
         Lt(cmp, a.lower, b.lower) || (Eq(cmp, a.lower, b.lower) && Le(cmp, a.upper, b.upper))
  }

  /** No lower bound on the left exceeds one on the right. */
  ghost predicate LowerHalf<T>(cmp: Comparison<T>, vector: seq<Key<T>>, left: seq<nat>, right: seq<nat>) {
    forall j, k :: 0 <= j < |left| && 0 <= k < |right| && left[j] < |vector| && right[k] < |vector| ==>
      Le(cmp, vector[left[j]].lower, vector[right[k]].lower)
  }

  /** The datum is the hull of the keys at the offsets; none if there are none. */
  ghost predicate Datum<T>(cmp: Comparison<T>, vector: seq<Key<T>>, offs: seq<nat>, datum: Option<Key<T>>) {
    InVector(vector, offs) && HullSoFar(cmp, datum, Select(vector, offs))
  }

  /** gbt_num_picksplit, the order after sorting given. Both halves are nonempty if there are two entries. */
  method PickSplit<T(!new)>(cmp: Comparison<T>, vector: seq<Key<T>>, order: seq<nat>)
      returns (left: seq<nat>, right: seq<nat>, ldatum: Option<Key<T>>, rdatum: Option<Key<T>>)
    requires TotalOrder(cmp) && Sorted(cmp, vector, order)
    ensures Arranged(left + right, |vector|) && |left| == |order| / 2
    ensures |order| >= 2 ==> Splits(left, right, |vector|)
    ensures LowerHalf(cmp, vector, left, right)
    ensures Datum(cmp, vector, left, ldatum) && Datum(cmp, vector, right, rdatum)
  {
    hide TotalOrder, Sorted, Datum, LowerHalf, Arranged;
    var maxoff := |order|;
    var half := (maxoff - 1 + 1) / 2;
    left, right, ldatum, rdatum := [], [], None, None;
    NothingYet(cmp, vector);
    for i := 1 to maxoff + 1
      invariant left + right == order[..i - 1] && |left| == if i - 1 < half then i - 1 else half
      invariant Datum(cmp, vector, left, ldatum) && Datum(cmp, vector, right, rdatum)
    {
      var o := order[i - 1];
      SortedInRange(cmp, vector, order, i - 1);
      assert order[..i] == order[..i - 1] + [o];
      if i <= half {
        ldatum := AddTo(cmp, vector, left, ldatum, o);
        left := left + [o];
      } else {
        rdatum := AddTo(cmp, vector, right, rdatum, o);
        right := right + [o];
      }
    }
    assert left + right == order;
    HalvesInOrder(cmp, vector, order, left, right);
  }

  method AddTo<T(!new)>(cmp: Comparison<T>, vector: seq<Key<T>>, ghost offs: seq<nat>, datum: Option<Key<T>>, o: nat)
      returns (r: Option<Key<T>>)
    requires TotalOrder(cmp) && Datum(cmp, vector, offs, datum) && o < |vector|
    ensures Datum(cmp, vector, offs + [o], r)
  {
    hide TotalOrder, HullSoFar;
    r := BinUnion(cmp, datum, vector[o], Select(vector, offs));
    SelectNext(vector, offs, o);
  }

  lemma NothingYet<T>(cmp: Comparison<T>, vector: seq<Key<T>>)
    ensures Datum(cmp, vector, [], None)
  {
  }

  lemma SortedInRange<T>(cmp: Comparison<T>, vector: seq<Key<T>>, order: seq<nat>, i: nat)
    requires Sorted(cmp, vector, order) && i < |order|
    ensures order[i] < |vector|
  {
    InRange(order, |vector|, i);
  }

  lemma HalvesInOrder<T>(cmp: Comparison<T>, vector: seq<Key<T>>, order: seq<nat>, left: seq<nat>, right: seq<nat>)
    requires Sorted(cmp, vector, order) && left + right == order
    ensures Arranged(left + right, |vector|) && LowerHalf(cmp, vector, left, right)
  {
    forall j, k | 0 <= j < |left| && 0 <= k < |right| && left[j] < |vector| && right[k] < |vector|
      ensures Le(cmp, vector[left[j]].lower, vector[right[k]].lower)
    {
      assert order[j] == left[j] && order[|left| + k] == right[k];
    }
  }

  // ---------------------------------------------------------------- searching

  const LESS := 1
  const LESS_EQUAL := 2
  const EQUAL := 3
  const GREATER_EQUAL := 4
  const GREATER := 5
  const NOT_EQUAL := 6

  /** The operator of a strategy; there are no others. */
  predicate Satisfies<T>(cmp: Comparison<T>, x: T, strategy: nat, query: T) {
    match strategy
    case 1 => cmp(x, query) < 0
    case 2 => cmp(x, query) <= 0
    case 3 => cmp(x, query) == 0
    case 4 => cmp(x, query) >= 0
    case 5 => cmp(x, query) > 0
    case 6 => cmp(x, query) != 0
    case _ => false
  }

  /** gbt_num_consistent */
  predicate Consistent<T>(cmp: Comparison<T>, key: Key<T>, query: T, strategy: nat, isLeaf: bool) {
    if strategy == LESS_EQUAL then Le(cmp, key.lower, query)
    else if strategy == LESS then (if isLeaf then Lt(cmp, key.lower, query) else Le(cmp, key.lower, query))
    else if strategy == EQUAL then
      (if isLeaf then Eq(cmp, query, key.lower) else Le(cmp, key.lower, query) && Le(cmp, query, key.upper))
    else if strategy == GREATER then (if isLeaf then Lt(cmp, query, key.upper) else Le(cmp, query, key.upper))
    else if strategy == GREATER_EQUAL then Le(cmp, query, key.upper)
    else strategy == NOT_EQUAL && !(Eq(cmp, query, key.lower) && Eq(cmp, query, key.upper))
  }

  /** On a row's own key the test is the operator. */
  lemma LeafExact<T(!new)>(cmp: Comparison<T>, x: T, query: T, strategy: nat)
    requires TotalOrder(cmp)
    ensures Consistent(cmp, Key(x, x), query, strategy, true) <==> Satisfies(cmp, x, strategy, query)
  {
    assert Lt(cmp, x, query) <==> cmp(query, x) > 0;
    assert Lt(cmp, query, x) <==> cmp(x, query) > 0;
  }

  /** The strict strategies of an inner key count the query itself. */
  function Loosened(strategy: nat): nat {
    if strategy == 1 then 2 else if strategy == 5 then 4 else strategy
  }

  ghost predicate Inside<T>(cmp: Comparison<T>, key: Key<T>, x: T) { Le(cmp, key.lower, x) && Le(cmp, x, key.upper) }

  /** An inner key is pruned exactly if no value in its range is asked for. */
  lemma NodeExact<T(!new)>(cmp: Comparison<T>, key: Key<T>, query: T, strategy: nat)
    requires TotalOrder(cmp) && Le(cmp, key.lower, key.upper)
    ensures Consistent(cmp, key, query, strategy, false) <==>
              exists x :: Inside(cmp, key, x) && Satisfies(cmp, x, Loosened(strategy), query)
  {
    assert cmp(key.lower, key.lower) == 0 && cmp(key.upper, key.upper) == 0 && cmp(query, query) == 0;
    assert Inside(cmp, key, key.lower) && Inside(cmp, key, key.upper);
    assert forall x, y :: cmp(x, y) == 0 <==> cmp(y, x) == 0;
    if Consistent(cmp, key, query, strategy, false) {
      var x := if strategy == EQUAL then query
               else if strategy == LESS || strategy == LESS_EQUAL then key.lower
               else if strategy == NOT_EQUAL && !Eq(cmp, query, key.lower) then key.lower
               else key.upper;
      assert Inside(cmp, key, x) && Satisfies(cmp, x, Loosened(strategy), query);
    }
    if x :| Inside(cmp, key, x) && Satisfies(cmp, x, Loosened(strategy), query) {
      if strategy == NOT_EQUAL || strategy == EQUAL {
        assert Within(cmp, Key(x, x), key) by { assert cmp(x, x) == 0; }
        WithinConsistent(cmp, key, x, query, strategy);
      } else if strategy == LESS || strategy == LESS_EQUAL {
        Below(cmp, key.lower, x, query);
      } else {
        Below(cmp, query, x, key.upper);
      }
    }
  }

  /** A distance that grows away from the query, in either direction. */
  ghost predicate Growing<T(!new)>(cmp: Comparison<T>, dist: (T, T) -> real) {
    && (forall q, a :: dist(q, a) >= 0.0)
    && (forall q, a, b :: Le(cmp, q, a) && Le(cmp, a, b) ==> dist(q, a) <= dist(q, b))
    && (forall q, a, b :: Le(cmp, b, a) && Le(cmp, a, q) ==> dist(q, a) <= dist(q, b))
  }

  /** gbt_num_distance */
  function Distance<T>(cmp: Comparison<T>, dist: (T, T) -> real, key: Key<T>, query: T): real {
    if Le(cmp, query, key.lower) then dist(query, key.lower)
    else if Le(cmp, key.upper, query) then dist(query, key.upper)
    else 0.0
  }

  function CompareReals(a: real, b: real): int { if a < b then -1 else if a > b then 1 else 0 }

  /** GET_FLOAT_DISTANCE */
  function FloatDistance(a: real, b: real): real { if a - b < 0.0 then b - a else a - b }

  lemma FloatDistanceGrows()
    ensures TotalOrder(CompareReals) && Growing(CompareReals, FloatDistance)
    ensures forall a, b :: FloatDistance(a, b) == a - b || FloatDistance(a, b) == b - a
  {
  }

  // ---------------------------------------------------------------- every way a key comes about

  /** A row's key, or a key made by gbt_num_union or as a datum of gbt_num_picksplit from the keys of its parts. */
  datatype History<T> = Row(x: T) | Made(key: Key<T>, parts: seq<History<T>>)

  function KeyOf<T>(h: History<T>): Key<T> { if h.Row? then Key(h.x, h.x) else h.key }

  function KeysOf<T>(hs: seq<History<T>>): (keys: seq<Key<T>>)
    ensures |keys| == |hs| && forall i :: 0 <= i < |hs| ==> keys[i] == KeyOf(hs[i])
  {
    if hs == [] then [] else KeysOf(hs[..|hs| - 1]) + [KeyOf(hs[|hs| - 1])]
  }

  ghost predicate WellBuilt<T>(cmp: Comparison<T>, h: History<T>) {
    h.Row? || (Hull(cmp, h.key, KeysOf(h.parts)) && forall p :: p in h.parts ==> WellBuilt(cmp, p))
  }

  /** The node is in the tree. */
  ghost predicate Holds<T>(h: History<T>, node: History<T>) {
    h == node || (h.Made? && exists p :: p in h.parts && Holds(p, node))
  }

  ghost predicate Within<T>(cmp: Comparison<T>, inner: Key<T>, outer: Key<T>) {
    Le(cmp, outer.lower, inner.lower) && Le(cmp, inner.lower, inner.upper) && Le(cmp, inner.upper, outer.upper)
  }

  lemma WithinTransitive<T(!new)>(cmp: Comparison<T>, a: Key<T>, b: Key<T>, c: Key<T>)
    requires TotalOrder(cmp) && Within(cmp, a, b) && Within(cmp, b, c)
    ensures Within(cmp, a, c)
  {
    Below(cmp, c.lower, b.lower, a.lower);
    Below(cmp, a.upper, b.upper, c.upper);
  }

  lemma WithinItself<T(!new)>(cmp: Comparison<T>, a: Key<T>, b: Key<T>)
    requires TotalOrder(cmp) && Within(cmp, a, b)
    ensures Within(cmp, b, b)
  {
    Below(cmp, b.lower, a.lower, a.upper);
    Below(cmp, b.lower, a.upper, b.upper);
    assert cmp(b.lower, b.lower) == 0 && cmp(b.upper, b.upper) == 0;
  }

  /** Every part's key lies within its key. */
  lemma {:induction false} PartWithin<T(!new)>(cmp: Comparison<T>, h: History<T>, i: nat)
    requires TotalOrder(cmp) && h.Made? && WellBuilt(cmp, h) && i < |h.parts|
    ensures Within(cmp, KeyOf(h.parts[i]), h.key)
    decreases h, 0
  {
    hide TotalOrder, Le;
    OwnWithin(cmp, h.parts[i]);
    assert KeysOf(h.parts)[i] == KeyOf(h.parts[i]);
  }

  /** No key is empty. */
  lemma {:induction false} OwnWithin<T(!new)>(cmp: Comparison<T>, h: History<T>)
    requires TotalOrder(cmp) && WellBuilt(cmp, h)
    ensures Within(cmp, KeyOf(h), KeyOf(h))
    decreases h, 1
  {
    if h.Row? {
      assert cmp(h.x, h.x) == 0;
    } else {
      hide TotalOrder, Le, Within;
      assert |KeysOf(h.parts)| > 0;
      PartWithin(cmp, h, 0);
      WithinItself(cmp, KeyOf(h.parts[0]), h.key);
    }
  }

  /** Every node lies within the nodes above it. */
  lemma {:induction false} NodeWithin<T(!new)>(cmp: Comparison<T>, h: History<T>, node: History<T>)
    requires TotalOrder(cmp) && WellBuilt(cmp, h) && Holds(h, node)
    ensures Within(cmp, KeyOf(node), KeyOf(h))
    decreases h
  {
    hide TotalOrder, Le, Within;
    if h == node {
      OwnWithin(cmp, h);
    } else {
      var p :| p in h.parts && Holds(p, node);
      var i :| 0 <= i < |h.parts| && h.parts[i] == p;
      NodeWithin(cmp, p, node);
      PartWithin(cmp, h, i);
      WithinTransitive(cmp, KeyOf(node), KeyOf(p), h.key);
    }
  }

  /** No search prunes a matching row, whatever history of unions and splits the keys have. */
  lemma NoRowLost<T(!new)>(cmp: Comparison<T>, h: History<T>, x: T, query: T, strategy: nat)
    requires TotalOrder(cmp) && WellBuilt(cmp, h) && Holds(h, Row(x)) && Satisfies(cmp, x, strategy, query)
    ensures Consistent(cmp, KeyOf(h), query, strategy, h.Row?)
  {
    NodeWithin(cmp, h, Row(x));
    if h.Row? {
      LeafExact(cmp, x, query, strategy);
    } else {
      WithinConsistent(cmp, h.key, x, query, strategy);
    }
  }

  lemma WithinConsistent<T(!new)>(cmp: Comparison<T>, key: Key<T>, x: T, query: T, strategy: nat)
    requires TotalOrder(cmp) && Within(cmp, Key(x, x), key) && Satisfies(cmp, x, strategy, query)
    ensures Consistent(cmp, key, query, strategy, false)
  {
    if strategy == LESS || strategy == LESS_EQUAL || strategy == EQUAL {
      Below(cmp, key.lower, x, query);
    }
    if strategy == GREATER || strategy == GREATER_EQUAL || strategy == EQUAL {
      assert cmp(query, x) <= 0;
      Below(cmp, query, x, key.upper);
    }
    if strategy == NOT_EQUAL && Eq(cmp, query, key.lower) && Eq(cmp, query, key.upper) {
      Below(cmp, query, key.lower, x);
      Below(cmp, x, key.upper, query);
    }
  }

  /** Distances never exceed those further down, so nearest-neighbour search may go by them. */
  lemma NodeDistance<T(!new)>(cmp: Comparison<T>, dist: (T, T) -> real, h: History<T>, node: History<T>, query: T)
    requires TotalOrder(cmp) && Growing(cmp, dist) && WellBuilt(cmp, h) && Holds(h, node)
    ensures Distance(cmp, dist, KeyOf(h), query) <= Distance(cmp, dist, KeyOf(node), query)
  {
    NodeWithin(cmp, h, node);
    WithinDistance(cmp, dist, KeyOf(node), KeyOf(h), query);
  }

  lemma WithinDistance<T(!new)>(cmp: Comparison<T>, dist: (T, T) -> real, inner: Key<T>, outer: Key<T>, query: T)
    requires TotalOrder(cmp) && Growing(cmp, dist) && Within(cmp, inner, outer)
    ensures Distance(cmp, dist, outer, query) <= Distance(cmp, dist, inner, query)
  {
    if Le(cmp, query, outer.lower) {
      Below(cmp, query, outer.lower, inner.lower);
    } else if Le(cmp, outer.upper, query) {
      Below(cmp, inner.upper, outer.upper, query);
      Below(cmp, inner.lower, inner.upper, outer.upper);
      if Le(cmp, query, inner.lower) {
        Below(cmp, outer.upper, query, inner.lower);
        Below(cmp, query, inner.lower, outer.upper);
      }
    }
  }

  /** The distance of a range is that of its nearest value, and nothing if the query lies strictly inside. */
  lemma NodeDistanceExact<T(!new)>(cmp: Comparison<T>, dist: (T, T) -> real, key: Key<T>, query: T)
    requires TotalOrder(cmp) && Growing(cmp, dist) && Le(cmp, key.lower, key.upper)
    ensures if Lt(cmp, key.lower, query) && Lt(cmp, query, key.upper) then Distance(cmp, dist, key, query) == 0.0
            else IsNearest(cmp, dist, key, query, Distance(cmp, dist, key, query))
  {
    assert cmp(key.lower, key.lower) == 0 && cmp(key.upper, key.upper) == 0;
    var nearest := if Le(cmp, query, key.lower) then key.lower else key.upper;
    if !(Lt(cmp, key.lower, query) && Lt(cmp, query, key.upper)) {
      assert Inside(cmp, key, nearest) && dist(query, nearest) == Distance(cmp, dist, key, query);
    }
  }

  /** Some value of the range is that far from the query, and none is nearer. */
  ghost predicate IsNearest<T(!new)>(cmp: Comparison<T>, dist: (T, T) -> real, key: Key<T>, query: T, d: real) {
    && (exists x :: Inside(cmp, key, x) && dist(query, x) == d)
    && (forall x :: Inside(cmp, key, x) ==> d <= dist(query, x))
  }

  /** On a row's own key the distance is the row's. */
  lemma LeafDistance<T(!new)>(cmp: Comparison<T>, dist: (T, T) -> real, x: T, query: T)
    requires TotalOrder(cmp)
    ensures Distance(cmp, dist, Key(x, x), query) == dist(query, x)
  {
    assert Le(cmp, query, x) || Lt(cmp, x, query);
  }
}
