/** btree_gist keys of variable length for bytea: ranges whose bounds are cut to a common prefix plus two. */
module VarKey {
  import opened Bytes

  type Bytea = seq<byte>

  /** GBT_VARKEY: a leaf key holds one value, a node key a lower and an upper bound. */
  datatype Key = Leaf(value: Bytea) | Node(lo: Bytea, up: Bytea)

  /** gbt_var_key_readable */
  function Lower(k: Key): Bytea { if k.Leaf? then k.value else k.lo }
  function Upper(k: Key): Bytea { if k.Leaf? then k.value else k.up }

  /** gbt_var_key_copy with force_node */
  function AsNode(k: Key): Key { Node(Lower(k), Upper(k)) }

  function Min(a: nat, b: nat): nat { if a < b then a else b }
  function Max(a: nat, b: nat): nat { if a < b then b else a }

  // ---------------------------------------------------------------- union and truncation

  /** gbt_var_bin_union on an existing union. */
  function Widen(u: Key, e: Key): Key {
    Node(if Leq(Lower(u), Lower(e)) then Lower(u) else Lower(e),
         if Leq(Upper(e), Upper(u)) then Upper(u) else Upper(e))
  }

  function Fold(keys: seq<Key>): Key
    requires keys != []
  {
    if |keys| == 1 then AsNode(keys[0]) else Widen(Fold(keys[..|keys| - 1]), keys[|keys| - 1])
  }

  function Cut(b: Bytea, n: nat): Bytea { b[..Min(|b|, n)] }

  function CutKey(k: Key, n: nat): Key { Node(Cut(Lower(k), n), Cut(Upper(k), n)) }

  /** The common prefix of a node's bounds. */
  function PrefixLen(k: Key): nat { Common(Lower(k), Upper(k)) }

  /** gbt_var_union: truncation to cpf_length + 1 with cpf_length one more than the common prefix. */
  function Union(keys: seq<Key>): Key
    requires keys != []
  {
    CutKey(Fold(keys), PrefixLen(Fold(keys)) + 2)
  }

  /** gbt_var_picksplit cuts both halves at one length, given by the longer common prefix. */
  function SplitLen(left: seq<Key>, right: seq<Key>): nat
    requires left != [] && right != []
  {
    Max(PrefixLen(Fold(left)), PrefixLen(Fold(right))) + 2
  }

  // ---------------------------------------------------------------- the invariant

  /** The upper bound may have been cut, so that values under the key may extend it. It is then two bytes or more past
      the common prefix; and if it is no longer than that while the lower bound is, there is room for another lower
      bound that was cut along with it. */
  predicate Open(k: Key) { |Upper(k)| >= PrefixLen(k) + 2 && !NoRoom(Lower(k), Upper(k)) }

  /** No string as short as u lies above the longer l and parts from u where l does. */
  predicate NoRoom(l: Bytea, u: Bytea) {
    var c := Common(l, u);
    |u| == c + 2 < |l| && l[c + 1] == 255 && Follows(u[c], l[c])
  }

  predicate Follows(b: int, a: int) { b == a + 1 }

  /** Values that may lie under a key: within its bounds, or extending an upper bound that may have been cut. */
  ghost predicate Covers(k: Key, x: Bytea) {
    Leq(Lower(k), x) && (Leq(x, Upper(k)) || (Open(k) && Upper(k) <= x))
  }

  /** Values that a search descends to: within the bounds, or extending one of them. */
  ghost predicate Reaches(k: Key, x: Bytea) {
    (Leq(Lower(k), x) && Leq(x, Upper(k))) || Lower(k) <= x || Upper(k) <= x
  }

  ghost predicate Ordered(k: Key) { Leq(Lower(k), Upper(k)) }

  lemma LeafCovers(x: Bytea)
    ensures Covers(Leaf(x), x) && Ordered(Leaf(x))
  {
    LeqReflexive(x);
  }

  /** A lower bound that moves down and an upper bound that moves up never share more. */
  lemma PrefixShrinks(l: Bytea, l': Bytea, u: Bytea)
    requires Leq(l', l) && Leq(l, u)
    ensures Common(l', u) <= Common(l, u)
  {
    CommonParts(l', u);
    var p := l'[..Common(l', u)];
    Between(l', l, u, p);
    SharedPrefix(l, u, p);
  }

  /** Whatever extends a bound past the common prefix shares that prefix. */
  lemma ExtensionKeepsPrefix(l: Bytea, u: Bytea, u': Bytea)
    requires |u| > Common(l, u) && u <= u'
    ensures Common(l, u') == Common(l, u)
  {
    CommonParts(l, u);
    var c := Common(l, u);
    assert u[..c] == u'[..c] && u[c] == u'[c];
    PartUnique(l, u', c);
  }

  /** Lowering the lower bound keeps a key open. */
  lemma LowerKeepsOpen(l: Bytea, l': Bytea, u: Bytea)
    requires Leq(l', l) && Leq(l, u) && Open(Node(l, u))
    ensures Open(Node(l', u))
  {
    PrefixShrinks(l, l', u);
    if NoRoom(l', u) { NoRoomBetween(l', l, u); }
  }

  lemma NoRoomBetween(l': Bytea, l: Bytea, u: Bytea)
    requires Leq(l', l) && Leq(l, u) && NoRoom(l', u) && Common(l, u) == Common(l', u)
    ensures NoRoom(l, u)
  {
    var c, d := Common(l', u), Common(l', l);
    CommonParts(l, u);
    CommonParts(l', u);
    CommonParts(l', l);
    LeqAt(l, u, c);
    LeqAt(l', l, d);
    SharedPrefix(l', l, u[..c]);
    hide Common, Leq;
    assert d >= c + 2;
    assert l'[..d][c + 1] == l[..d][c + 1] && l'[..d][c] == l[..d][c];
  }

  /** Cutting the bounds beyond their common prefix keeps the common prefix. */
  lemma CutPrefix(k: Key, n: nat)
    requires Ordered(k) && n >= PrefixLen(k) + 2
    ensures PrefixLen(CutKey(k, n)) == PrefixLen(k) && Ordered(CutKey(k, n))
  {
    var l, u := Lower(k), Upper(k);
    var c := Common(l, u);
    CommonParts(l, u);
    var l', u' := Cut(l, n), Cut(u, n);
    assert l'[..c] == l[..c] && u'[..c] == u[..c];
    PartUnique(l', u', c);
    LeqAt(l, u, c);
    LeqAt(l', u', c);
  }

  /** A value up to an upper bound is up to the cut bound or extends it. */
  lemma CutUpper(u: Bytea, n: nat, x: Bytea)
    requires Leq(x, u) || Cut(u, n) <= x
    ensures Leq(x, Cut(u, n)) || Cut(u, n) <= x
  {
    var u' := Cut(u, n);
    if !Leq(x, u') && !(u' <= x) {
      var k := AboveAt(u', x);
      assert u[..k] == u'[..k];
      LeqAt(x, u, k);
    }
  }

  // ---------------------------------------------------------------- folding many keys

  lemma WidenBounds(u: Key, e: Key)
    ensures var w := Widen(u, e);
            && Leq(Lower(w), Lower(u)) && Leq(Upper(u), Upper(w))
            && Leq(Lower(w), Lower(e)) && Leq(Upper(e), Upper(w))
  {
    LeqTotal(Lower(u), Lower(e));
    LeqTotal(Upper(u), Upper(e));
    LeqReflexive(Lower(u));
    LeqReflexive(Lower(e));
    LeqReflexive(Upper(u));
    LeqReflexive(Upper(e));
  }

  /** The union's bounds enclose the bounds of every key in it. */
  lemma {:induction false} FoldBounds(keys: seq<Key>, i: nat)
    requires i < |keys|
    ensures Leq(Lower(Fold(keys)), Lower(keys[i])) && Leq(Upper(keys[i]), Upper(Fold(keys)))
    decreases |keys|
  {
    if |keys| == 1 {
      LeqReflexive(Lower(keys[0]));
      LeqReflexive(Upper(keys[0]));
    } else {
      var init := keys[..|keys| - 1];
      var f := Fold(init);
      WidenBounds(f, keys[|keys| - 1]);
      assert Fold(keys) == Widen(f, keys[|keys| - 1]);
      if i < |init| {
        FoldBounds(init, i);
        LeqTransitive(Lower(Fold(keys)), Lower(f), Lower(keys[i]));
        LeqTransitive(Upper(keys[i]), Upper(f), Upper(Fold(keys)));
      }
    }
  }

  /** The union's bounds are bounds of keys in it. */
  lemma {:induction false} FoldAttained(keys: seq<Key>)
    requires keys != []
    ensures exists i :: 0 <= i < |keys| && Lower(keys[i]) == Lower(Fold(keys))
    ensures exists i :: 0 <= i < |keys| && Upper(keys[i]) == Upper(Fold(keys))
    decreases |keys|
  {
    if |keys| > 1 {
      var init := keys[..|keys| - 1];
      FoldAttained(init);
      var i :| 0 <= i < |init| && Lower(init[i]) == Lower(Fold(init));
      var j :| 0 <= j < |init| && Upper(init[j]) == Upper(Fold(init));
      assert keys[i] == init[i] && keys[j] == init[j];
    } else {
      assert Lower(keys[0]) == Lower(Fold(keys)) && Upper(keys[0]) == Upper(Fold(keys));
    }
  }

  // ---------------------------------------------------------------- what a truncated union keeps

  /** An entry that can hold values lost by the upper bound u: its own bound may have been cut, and u goes on past it,
      not only with bytes that nothing exceeds. */
  predicate Loose(e: Key, u: Bytea) {
    && Open(e)
    && Upper(e) < u
    && exists k :: |Upper(e)| <= k < |u| && u[k] < 255
  }

  /** A value that extends the entry's bound is up to u or extends it, unless the entry is loose. */
  lemma TightBound(e: Key, u: Bytea, x: Bytea)
    requires Open(e) && Upper(e) <= x && Upper(e) <= u && !Loose(e, u)
    ensures Leq(x, u) || u <= x
  {
    var k := Common(x, u);
    SharedPrefix(x, u, Upper(e));
    CommonParts(x, u);
    LeqAt(x, u, k);
    assert k < |u| ==> u[k] == 255;
  }

  /** The union of a page's keys, cut beyond its common prefix, covers what its entries cover, except for what
      exceeds both the union's bound and a loose entry's. */
  lemma {:induction false} CutUnionCovers(keys: seq<Key>, n: nat, i: nat, x: Bytea)
    requires i < |keys| && Ordered(keys[i]) && Covers(keys[i], x) && n >= PrefixLen(Fold(keys)) + 2
    requires !Loose(keys[i], Cut(Upper(Fold(keys)), n))
    ensures var k := CutKey(Fold(keys), n); Ordered(k) && Covers(k, x)
  {
    hide Fold, Loose;
    var e, f := keys[i], Fold(keys);
    var l, u := Lower(f), Upper(f);
    FoldBounds(keys, i);
    LeqTransitive(l, Lower(e), Upper(e));
    LeqTransitive(l, Upper(e), u);
    CutPrefix(f, n);
    PrefixLeq(Cut(l, n), l);
    LeqTransitive(Cut(l, n), l, Lower(e));
    LeqTransitive(Cut(l, n), Lower(e), x);
    if Leq(x, Upper(e)) { LeqTransitive(x, Upper(e), u); }
    if Leq(x, u) {
      CutUpper(u, n, x);
      assert |u| <= n ==> Cut(u, n) == u;
    } else {
      LeqTotal(x, u);
      Between(Upper(e), u, x, Upper(e));
      ExtensionKeepsOpen(e, f, n, x);
    }
  }

  /** What lies within the bounds of an entry is covered whether or not the entry is loose. */
  lemma {:induction false} CutUnionCoversWithin(keys: seq<Key>, n: nat, i: nat, x: Bytea)
    requires i < |keys| && Leq(Lower(keys[i]), x) && Leq(x, Upper(keys[i])) && n >= PrefixLen(Fold(keys)) + 2
    ensures var k := CutKey(Fold(keys), n); Ordered(k) && Covers(k, x)
  {
    hide Fold;
    var e, f := keys[i], Fold(keys);
    var l, u := Lower(f), Upper(f);
    FoldBounds(keys, i);
    LeqTransitive(l, Lower(e), x);
    LeqTransitive(x, Upper(e), u);
    LeqTransitive(l, x, u);
    CutPrefix(f, n);
    PrefixLeq(Cut(l, n), l);
    LeqTransitive(Cut(l, n), l, x);
    CutUpper(u, n, x);
    assert |u| <= n ==> Cut(u, n) == u;
  }

  lemma ExtensionKeepsOpen(e: Key, f: Key, n: nat, x: Bytea)
    requires Ordered(e) && Ordered(f) && Open(e) && Leq(Lower(f), Lower(e)) && Upper(e) <= Upper(f) && Upper(e) <= x
    requires n >= PrefixLen(f) + 2 && PrefixLen(CutKey(f, n)) == PrefixLen(f)
    requires !Loose(e, Cut(Upper(f), n)) && !Leq(x, Upper(f))
    ensures Leq(x, Cut(Upper(f), n)) || (Open(CutKey(f, n)) && Cut(Upper(f), n) <= x)
  {
    hide Loose;
    var l, u, u' := Lower(f), Upper(f), Cut(Upper(f), n);
    ExtensionKeepsPrefix(Lower(e), Upper(e), u);
    PrefixLeq(Upper(e), u);
    LeqTransitive(Lower(e), Upper(e), u);
    PrefixShrinks(Lower(e), l, u);
    if |u| > n {
      if |u'| <= |Upper(e)| {
        assert u' == Upper(e)[..n];
      } else {
        TightBound(e, u', x);
      }
    } else if u == Upper(e) {
      LowerKeepsOpen(Lower(e), l, u);
      assert Cut(l, n) <= l && |l| <= n ==> Cut(l, n) == l;
      PrefixLeq(Cut(l, n), l);
      LowerKeepsOpen(l, Cut(l, n), u);
    } else {
      TightBound(e, u', x);
    }
  }

  /** gbt_var_union leaves no entry loose: it cuts two past the common prefix. */
  lemma {:induction false} UnionNeverLoose(keys: seq<Key>, i: nat)
    requires i < |keys| && Ordered(keys[i])
    ensures !Loose(keys[i], Upper(Union(keys)))
  {
    var e, f := keys[i], Fold(keys);
    var u' := Upper(Union(keys));
    if Loose(e, u') {
      FoldBounds(keys, i);
      assert Upper(e) <= u' <= Upper(f);
      ExtensionKeepsPrefix(Lower(e), Upper(e), Upper(f));
      LeqTransitive(Lower(e), Upper(e), Upper(f));
      PrefixShrinks(Lower(e), Lower(f), Upper(f));
    }
  }

  /** Leaf keys are never loose: splitting a leaf page is always safe. */
  lemma LeafNeverLoose(x: Bytea, u: Bytea)
    ensures !Loose(Leaf(x), u)
  {
    PartUnique(x, x, |x|);
  }

  /** The least value that parts from u at k and is above it. */
  function Above(u: Bytea, k: nat): Bytea
    requires k < |u| && u[k] < 255
  {
    u[..k] + [u[k] + 1]
  }

  lemma AboveIsAbove(u: Bytea, k: nat)
    requires k < |u| && u[k] < 255
    ensures !Leq(Above(u, k), u) && !(u <= Above(u, k)) && PartAt(Above(u, k), u, k)
  {
    LeqAt(Above(u, k), u, k);
  }
}
