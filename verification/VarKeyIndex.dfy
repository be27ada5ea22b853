/** gbt_var_union, gbt_var_picksplit and gbt_var_consistent. */
module VarKeyIndex {
  import opened Bytes
  import opened Options
  import opened PageOffsets
  import opened VarKey

  // ---------------------------------------------------------------- the loops

  /** gbt_var_node_cp_len for an encoding of single bytes. */
  method NodePrefixLen(k: Key) returns (len: nat)
    ensures len == PrefixLen(k)
  {
    var l, u := Lower(k), Upper(k);
    var ml := Min(|l|, |u|);
    if ml == 0 {
      return 0;
    }
    var i := 0;
    while i < ml
      invariant 0 <= i <= ml && l[..i] == u[..i]
    {
      if l[i] != u[i] {
        PartUnique(l, u, i);
        return i;
      }
      i := i + 1;
    }
    PartUnique(l, u, ml);
    return ml;
  }

  /** gbt_var_bin_union: *u is replaced only when a bound moves. */
  method BinUnion(u: Option<Key>, e: Key) returns (r: Key)
    requires u.Some? ==> u.value.Node?
    ensures r == if u.None? then AsNode(e) else Widen(u.value, e)
  {
    if u.Some? {
      var nr := u.value;
      var update := false;
      if !Leq(Lower(u.value), Lower(e)) {
        nr := nr.(lo := Lower(e));
        update := true;
      }
      if !Leq(Upper(e), Upper(u.value)) {
        nr := nr.(up := Upper(e));
        update := true;
      }
      r := if update then AsNode(nr) else u.value;
    } else {
      r := AsNode(e);
    }
  }

  /** gbt_var_union */
  method UnionLoop(entries: seq<Key>) returns (r: Key)
    requires entries != []
    ensures r == Union(entries)
  {
    var out := AsNode(entries[0]);
    for i := 1 to |entries|
      invariant out.Node? && out == Fold(entries[..i])
    {
      out := BinUnion(Some(out), entries[i]);
      assert entries[..i + 1][..i] == entries[..i];
    }
    assert entries[..|entries|] == entries;
    var plen := NodePrefixLen(out);
    r := CutKey(out, plen + 1 + 1);
  }

  /** gbt_vsrt_cmp(a, b) <= 0 */
  predicate KeyLeq(a: Key, b: Key) {
    Bytes.Less(Lower(a), Lower(b)) || (Lower(a) == Lower(b) && Leq(Upper(a), Upper(b)))
  }

  ghost predicate SortedKeys(keys: seq<Key>) {
    forall j, k :: 0 <= j < k < |keys| ==> KeyLeq(keys[j], keys[k])
  }

  /** What qsort_arg leaves: all offsets, in the order of their keys. */
  ghost predicate Sorted(vector: seq<Key>, order: seq<nat>) {
    Arranged(order, |vector|) && InVector(vector, order) && SortedKeys(Select(vector, order))
  }

  /** The data of the two halves of a split, both cut at the same length. */
  ghost predicate SplitKeys(l: seq<Key>, r: seq<Key>, ldatum: Key, rdatum: Key) {
    && l != [] && r != []
    && ldatum == CutKey(Fold(l), SplitLen(l, r)) && rdatum == CutKey(Fold(r), SplitLen(l, r))
  }

  /** gbt_var_picksplit, the order after sorting given: the first half of the entries goes left. */
  method PickSplit(vector: seq<Key>, order: seq<nat>)
    returns (left: seq<nat>, right: seq<nat>, ldatum: Key, rdatum: Key)
    requires |vector| >= 3 && Sorted(vector, order)
    ensures left + right == order && |left| == |order| / 2 && Splits(left, right, |vector|)
    ensures InVector(vector, left) && InVector(vector, right)
    ensures SplitKeys(Select(vector, left), Select(vector, right), ldatum, rdatum)
    ensures forall a, b :: a in left && b in right ==> LowerThenUpper(vector[a], vector[b])
  {
    hide Fold, Select, Leq, Common, SortedKeys, Arranged, LowerThenUpper;
    TwoOffsets(order, |vector|);
    var l, r;
    l, r, left, right := Divide(vector, order);
    var ll := NodePrefixLen(l);
    var lr := NodePrefixLen(r);
    ll := Max(ll, lr);
    ll := ll + 1;
    ldatum, rdatum := CutKey(l, ll + 1), CutKey(r, ll + 1);
    HalvesInOrder(vector, order, left, right);
  }

  /** No greater lower bound and, if the lower bounds are equal, no greater upper bound. */
  ghost predicate LowerThenUpper(a: Key, b: Key) {
    Leq(Lower(a), Lower(b)) && (Lower(a) == Lower(b) ==> Leq(Upper(a), Upper(b)))
  }

  lemma HalvesInOrder(vector: seq<Key>, order: seq<nat>, left: seq<nat>, right: seq<nat>)
    requires InVector(vector, order) && SortedKeys(Select(vector, order)) && left + right == order
    ensures forall a, b :: a in left && b in right ==>
              a < |vector| && b < |vector| && LowerThenUpper(vector[a], vector[b])
  {
    forall a, b | a in left && b in right
      ensures a < |vector| && b < |vector| && LowerThenUpper(vector[a], vector[b])
    {
      var j :| 0 <= j < |left| && left[j] == a;
      var k :| 0 <= k < |right| && right[k] == b;
      assert order[j] == a && order[|left| + k] == b;
      var keys := Select(vector, order);
      assert KeyLeq(keys[j], keys[|left| + k]);
      LowerFirst(vector[a], vector[b]);
    }
  }

  lemma LowerFirst(a: Key, b: Key)
    requires KeyLeq(a, b)
    ensures LowerThenUpper(a, b)
  {
    hide Leq;
    LeqTotal(Lower(a), Lower(b));
  }

  lemma TwoOffsets(order: seq<nat>, n: nat)
    requires Arranged(order, n) && n >= 3
    ensures |order| >= 2
  {
    There(order, n, 1);
    There(order, n, 2);
  }

  method Divide(vector: seq<Key>, order: seq<nat>) returns (lkey: Key, rkey: Key, left: seq<nat>, right: seq<nat>)
    requires |order| >= 2 && InVector(vector, order)
    ensures left + right == order && |left| == |order| / 2 && InVector(vector, left) && InVector(vector, right)
    ensures lkey == Fold(Select(vector, left)) && rkey == Fold(Select(vector, right))
  {
    hide Fold, Select, Leq, Common;
    var maxoff := |order|;
    var half := (maxoff - 1 + 1) / 2;
    var l: Option<Key>, r: Option<Key> := None, None;
    left, right := [], [];
    for i := 1 to maxoff + 1
      invariant left + right == order[..i - 1] && |left| == Min(i - 1, half)
      invariant IsFold(l, vector, left) && IsFold(r, vector, right)
    {
      var o := order[i - 1];
      assert order[..i] == order[..i - 1] + [o];
      if i <= half {
        l := AddTo(l, vector, left, o);
        left := left + [o];
      } else {
        r := AddTo(r, vector, right, o);
        right := right + [o];
      }
    }
    return l.value, r.value, left, right;
  }

  method AddTo(u: Option<Key>, vector: seq<Key>, ghost offs: seq<nat>, o: nat) returns (r: Option<Key>)
    requires IsFold(u, vector, offs) && o < |vector|
    ensures IsFold(r, vector, offs + [o])
  {
    var k := BinUnion(u, vector[o]);
    SelectNext(vector, offs, o);
    FoldSnoc(u, Select(vector, offs), vector[o]);
    return Some(k);
  }

  /** The union of the keys at the offsets; none if there are none. */
  ghost predicate IsFold(u: Option<Key>, vector: seq<Key>, offs: seq<nat>) {
    InVector(vector, offs) && FoldOrNone(u, Select(vector, offs))
  }

  ghost predicate FoldOrNone(u: Option<Key>, keys: seq<Key>) {
    if keys == [] then u.None? else u.Some? && u.value == Fold(keys)
  }

  lemma FoldSnoc(u: Option<Key>, keys: seq<Key>, e: Key)
    requires FoldOrNone(u, keys)
    ensures Fold(keys + [e]) == if u.None? then AsNode(e) else Widen(u.value, e)
  {
    assert (keys + [e])[..|keys|] == keys;
  }

  // ---------------------------------------------------------------- searching

  datatype Strategy = Less | LessEqual | Equal | GreaterEqual | Greater | NotEqual | Unknown

  /** The rows a strategy asks for. */
  predicate Satisfies(x: Bytea, q: Bytea, s: Strategy) {
    match s
    case Less => Leq(x, q) && x != q
    case LessEqual => Leq(x, q)
    case Equal => x == q
    case GreaterEqual => Leq(q, x)
    case Greater => Leq(q, x) && x != q
    case NotEqual => x != q
    case Unknown => false
  }

  /** gbt_bytea_pf_match on either bound */
  predicate PrefixMatch(k: Key, q: Bytea) { Lower(k) <= q || Upper(k) <= q }

  /** gbt_var_consistent */
  predicate Consistent(k: Key, q: Bytea, s: Strategy, isLeaf: bool) {
    match s
    case LessEqual => if isLeaf then Leq(Lower(k), q) else Leq(Lower(k), q) || PrefixMatch(k, q)
    case Less => if isLeaf then Bytes.Less(Lower(k), q) else Leq(Lower(k), q) || PrefixMatch(k, q)
    case Equal => if isLeaf then q == Lower(k)
                  else (Leq(Lower(k), q) && Leq(q, Upper(k))) || PrefixMatch(k, q)
    case Greater => if isLeaf then Bytes.Less(q, Upper(k)) else Leq(q, Upper(k)) || PrefixMatch(k, q)
    case GreaterEqual => if isLeaf then Leq(q, Upper(k)) else Leq(q, Upper(k)) || PrefixMatch(k, q)
    case NotEqual => !(q == Lower(k) && q == Upper(k))
    case Unknown => false
  }

  /** On a leaf the answer is exact. */
  lemma LeafExact(x: Bytea, q: Bytea, s: Strategy)
    ensures Consistent(Leaf(x), q, s, true) <==> Satisfies(x, q, s)
  {
    LeqTotal(x, q);
    LeqReflexive(x);
  }

  /** Values reached are those an equality search descends to. */
  lemma ReachesIsEqual(k: Key, x: Bytea)
    ensures Reaches(k, x) <==> Consistent(k, x, Equal, false)
  {
  }

  /** A node is descended into for every row that its key reaches; equal bounds must cover it. */
  lemma ReachedIsConsistent(k: Key, x: Bytea, q: Bytea, s: Strategy)
    requires Ordered(k) && Reaches(k, x) && (Lower(k) == Upper(k) ==> Covers(k, x)) && Satisfies(x, q, s)
    ensures Consistent(k, q, s, false)
  {
    if Lower(k) <= x { PrefixLeq(Lower(k), x); }
    if Upper(k) <= x {
      PrefixLeq(Upper(k), x);
      LeqTransitive(Lower(k), Upper(k), x);
    }
    match s {
      case Less =>
        LeqTransitive(Lower(k), x, q);
      case LessEqual =>
        LeqTransitive(Lower(k), x, q);
      case Equal =>
      case NotEqual =>
        if Lower(k) == Upper(k) { EqualBounds(k, x); }
      case _ =>
        UpTo(k, x, q);
    }
  }

  /** What an inner key is asked for: the strict strategies count the query itself. */
  function Loosened(s: Strategy): Strategy {
    match s
    case Less => LessEqual
    case Greater => GreaterEqual
    case _ => s
  }

  /** An inner key is pruned exactly if no value it reaches is asked for; the strict strategies count the query itself,
      and a search for other values than the query only looks at the bounds. */
  lemma NodeExact(k: Key, q: Bytea, s: Strategy)
    requires Ordered(k)
    ensures s != NotEqual ==>
              (Consistent(k, q, s, false) <==> exists x :: Reaches(k, x) && Satisfies(x, q, Loosened(s)))
    ensures s == NotEqual ==> (Consistent(k, q, s, false) <==> Lower(k) != q || Upper(k) != q)
  {
    LeqReflexive(Lower(k));
    LeqReflexive(Upper(k));
    assert Reaches(k, Lower(k)) && Reaches(k, Upper(k));
    hide Leq;
    if Consistent(k, q, s, false) && s != NotEqual { NodeWitness(k, q, s); }
    if s != NotEqual {
      if x :| Reaches(k, x) && Satisfies(x, q, Loosened(s)) { NodeAsked(k, x, q, s); }
    }
  }

  lemma NodeWitness(k: Key, q: Bytea, s: Strategy)
    requires Ordered(k) && Consistent(k, q, s, false) && s != NotEqual && Reaches(k, Lower(k)) && Reaches(k, Upper(k))
    ensures exists x :: Reaches(k, x) && Satisfies(x, q, Loosened(s))
  {
    if Lower(k) <= q { PrefixLeq(Lower(k), q); }
    if Upper(k) <= q {
      PrefixLeq(Upper(k), q);
      LeqTransitive(Lower(k), Upper(k), q);
    }
    LeqReflexive(q);
    hide Leq;
    if s == Less || s == LessEqual {
      assert Satisfies(Lower(k), q, Loosened(s));
    } else if s != Equal && Leq(q, Upper(k)) {
      assert Satisfies(Upper(k), q, Loosened(s));
    } else {
      assert Reaches(k, q) && Satisfies(q, q, Loosened(s));
    }
  }

  lemma NodeAsked(k: Key, x: Bytea, q: Bytea, s: Strategy)
    requires Ordered(k) && Reaches(k, x) && Satisfies(x, q, Loosened(s)) && s != NotEqual
    ensures Consistent(k, q, s, false)
  {
    if Lower(k) <= x { PrefixLeq(Lower(k), x); }
    if Upper(k) <= x {
      PrefixLeq(Upper(k), x);
      LeqTransitive(Lower(k), Upper(k), x);
    }
    hide Leq;
    match s {
      case Less => LeqTransitive(Lower(k), x, q);
      case LessEqual => LeqTransitive(Lower(k), x, q);
      case Equal =>
      case _ => UpTo(k, x, q);
    }
  }

  lemma EqualBounds(k: Key, x: Bytea)
    requires Lower(k) == Upper(k) && Covers(k, x)
    ensures x == Lower(k)
  {
    PartUnique(Lower(k), Lower(k), |Lower(k)|);
    LeqTotal(x, Lower(k));
  }

  lemma UpTo(k: Key, x: Bytea, q: Bytea)
    requires Ordered(k) && Reaches(k, x) && Leq(q, x)
    ensures Leq(q, Upper(k)) || PrefixMatch(k, q)
  {
    LeqTotal(q, Upper(k));
    LeqTotal(q, Lower(k));
    if Leq(Lower(k), x) && Leq(x, Upper(k)) {
      LeqTransitive(q, x, Upper(k));
    } else if Lower(k) <= x {
      if Leq(q, Lower(k)) {
        LeqTransitive(q, Lower(k), Upper(k));
      } else {
        Between(Lower(k), q, x, Lower(k));
      }
    } else if !Leq(q, Upper(k)) {
      Between(Upper(k), q, x, Upper(k));
    }
  }
}
