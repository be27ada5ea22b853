/** Every way a key comes about by gbt_var_union and gbt_var_picksplit, and which rows a search then finds. */
module VarKeyHistory {
  import opened Bytes
  import opened VarKey
  import opened VarKeyIndex

  /** How a key was made: a row's own key, the union of the keys of its parts, or the datum of one half of a page split;
      the sibling is the other half. The level is that of the page below the key, leaf pages being at level one. */
  datatype History =
    | Row(x: Bytea)
    | United(level: nat, key: Key, parts: seq<History>)
    | Half(level: nat, key: Key, parts: seq<History>, sibling: seq<History>, isLeft: bool)

  function Level(h: History): nat { if h.Row? then 0 else h.level }

  function KeyOf(h: History): Key { if h.Row? then Leaf(h.x) else h.key }

  function KeysOf(hs: seq<History>): (keys: seq<Key>)
    ensures |keys| == |hs| && forall i :: 0 <= i < |hs| ==> keys[i] == KeyOf(hs[i])
  {
    seq(|hs|, i requires 0 <= i < |hs| => KeyOf(hs[i]))
  }

  /** Where the key was cut. */
  function CutAt(h: History): nat
    requires !h.Row? && h.parts != [] && (h.Half? ==> h.sibling != [])
  {
    if h.United? then PrefixLen(Fold(KeysOf(h.parts))) + 2 else SplitLen(KeysOf(h.parts), KeysOf(h.sibling))
  }

  /** The two halves are those of a sorted page, the first half of its entries on the left. */
  ghost predicate FromPage(h: History)
    requires h.Half?
  {
    var left, right := if h.isLeft then h.parts else h.sibling, if h.isLeft then h.sibling else h.parts;
    && left != [] && right != [] && |left| == (|left| + |right|) / 2
    && SortedKeys(KeysOf(left + right))
  }

  /** All entries of a split page are one level down. A union is of a page's entries, or adds an entry of the page to
      the key that the page has already. */
  ghost predicate LevelsFit(h: History)
    requires !h.Row?
  {
    && h.level > 0
    && (forall p :: p in h.parts ==> Level(p) + 1 == h.level || (h.United? && Level(p) == h.level))
    && (h.Half? ==> forall p :: p in h.sibling ==> Level(p) + 1 == h.level)
  }

  /** The key was made by gbt_var_union or gbt_var_picksplit from the keys of its parts. */
  ghost predicate MadeFromParts(h: History)
    requires !h.Row?
  {
    && h.parts != [] && LevelsFit(h) && (h.Half? ==> FromPage(h))
    && h.key == CutKey(Fold(KeysOf(h.parts)), CutAt(h))
  }

  ghost predicate WellBuilt(h: History) {
    || h.Row?
    || (&& MadeFromParts(h) && (forall p :: p in h.parts ==> WellBuilt(p))
        && (h.Half? ==> forall p :: p in h.sibling ==> WellBuilt(p)))
  }

  ghost predicate Holds(h: History, x: Bytea) {
    if h.Row? then x == h.x else exists p :: p in h.parts && Holds(p, x)
  }

  lemma Built(h: History)
    requires !h.Row?
    ensures WellBuilt(h) <==> && MadeFromParts(h) && (forall p :: p in h.parts ==> WellBuilt(p))
                              && (h.Half? ==> forall p :: p in h.sibling ==> WellBuilt(p))
  {
    hide MadeFromParts;
  }

  lemma HeldBelow(h: History, x: Bytea) returns (i: nat)
    requires !h.Row? && Holds(h, x)
    ensures i < |h.parts| && h.parts[i] in h.parts && Holds(h.parts[i], x)
  {
    var p :| p in h.parts && Holds(p, x);
    i :| 0 <= i < |h.parts| && h.parts[i] == p;
  }

  lemma HeldAbove(h: History, p: History, x: Bytea)
    requires !h.Row? && p in h.parts && Holds(p, x)
    ensures Holds(h, x)
  {
  }

  /** Only zero bytes. */
  predicate Zeros(b: Bytea) { forall i :: 0 <= i < |b| ==> b[i] == 0 }

  predicate Highest(b: Bytea) { forall i :: 0 <= i < |b| ==> b[i] == 255 }

  /** Rows beside the page, all above it or all below it, never share as much as the length of the cut shows. */
  predicate NoSibling(l: Bytea, u: Bytea) {
    |u| > Common(l, u) + 2 && Highest(u[..|u| - 1]) && Zeros(l) && |l| < |u| - 2
  }

  /** The upper bound of a key of this level may have been cut. A leaf page has whole rows: if its upper bound was cut
      then its lower bound is no longer, and the cut was made for its own rows or for rows beside them. */
  predicate OpenAt(k: Key, level: nat) {
    Open(k) && (level <= 1 ==> |Lower(k)| <= |Upper(k)| && !NoSibling(Lower(k), Upper(k)))
  }

  /** The entry can hold values lost by the upper bound u. */
  predicate LooseAt(e: Key, level: nat, u: Bytea) { OpenAt(e, level) && Loose(e, u) }

  /** The split keeps every row that its entries may hold within reach, here and further up: no entry is loose below the
      half's upper bound, or the lower bound is a prefix of the upper one and no string but its prefixes lies below. */
  ghost predicate SafeSplit(h: History)
    requires h.Half?
  {
    || (forall p :: p in h.parts ==> !LooseAt(KeyOf(p), Level(p), Upper(h.key)))
    || (Zeros(Lower(h.key)) && Lower(h.key) <= Upper(h.key))
  }

  /** Every split along the way is safe. */
  ghost predicate Safe(h: History) {
    || h.Row?
    || ((forall p :: p in h.parts ==> Safe(p)) && (h.Half? ==> SafeSplit(h)))
  }

  lemma SafeParts(h: History)
    requires !h.Row?
    ensures Safe(h) <==> (forall p :: p in h.parts ==> Safe(p)) && (h.Half? ==> SafeSplit(h))
  {
    hide SafeSplit;
  }

  /** Splits of leaf pages are safe. */
  lemma LeafSplitSafe(h: History)
    requires h.Half? && forall p :: p in h.parts ==> p.Row?
    ensures Safe(h)
  {
    forall p | p in h.parts ensures Safe(p) && !LooseAt(KeyOf(p), Level(p), Upper(h.key)) {
      LeafNeverLoose(p.x, Upper(h.key));
    }
  }

  // ---------------------------------------------------------------- keys of leaf pages

  /** What a key of a leaf page covers. */
  ghost predicate CoversRows(k: Key, x: Bytea) {
    Leq(Lower(k), x) && (Leq(x, Upper(k)) || (OpenAt(k, 1) && Upper(k) <= x))
  }

  lemma HighestAbove(p: Bytea, u: Bytea, y: Bytea)
    requires Highest(p) && p <= u && Leq(u, y)
    ensures p <= y
  {
    var c := Common(u, y);
    CommonParts(u, y);
    LeqAt(u, y, c);
    assert forall k :: 0 <= k < |p| ==> u[k] == p[k] == 255;
    assert c >= |p| && p == u[..c][..|p|];
  }

  lemma RowsInOrder(h: History, i: nat, j: nat)
    requires h.Half? && FromPage(h) && i < |h.parts| && j < |h.sibling|
    requires KeyOf(h.parts[i]).Leaf? && KeyOf(h.sibling[j]).Leaf?
    ensures var x, y := Lower(KeyOf(h.parts[i])), Lower(KeyOf(h.sibling[j])); if h.isLeft then Leq(x, y) else Leq(y, x)
  {
    var left, right := if h.isLeft then h.parts else h.sibling, if h.isLeft then h.sibling else h.parts;
    var a, b := if h.isLeft then i else j, if h.isLeft then j else i;
    var keys := KeysOf(left + right);
    assert keys[a] == KeyOf(left[a]) && keys[|left| + b] == KeyOf(right[b]);
    assert KeyLeq(keys[a], keys[|left| + b]);
    LeqTotal(Lower(keys[a]), Lower(keys[|left| + b]));
    LeqReflexive(Lower(keys[a]));
  }

  ghost predicate AllRows(hs: seq<History>) { forall i :: 0 <= i < |hs| ==> hs[i].Row? }

  /** Rows above the page share every prefix of highest bytes that the page's upper bound has. */
  lemma SharedAbove(h: History, p: Bytea)
    requires h.Half? && h.isLeft && MadeFromParts(h) && AllRows(h.parts) && AllRows(h.sibling)
    requires Highest(p) && p <= Upper(Fold(KeysOf(h.parts)))
    ensures |p| <= PrefixLen(Fold(KeysOf(h.sibling)))
  {
    var f, g := Fold(KeysOf(h.parts)), Fold(KeysOf(h.sibling));
    FoldAttained(KeysOf(h.parts));
    FoldAttained(KeysOf(h.sibling));
    hide Fold, FromPage, CutAt, Highest, LevelsFit, Leq, Common;
    var a :| 0 <= a < |h.parts| && Upper(KeysOf(h.parts)[a]) == Upper(f);
    var b :| 0 <= b < |h.sibling| && Lower(KeysOf(h.sibling)[b]) == Lower(g);
    var d :| 0 <= d < |h.sibling| && Upper(KeysOf(h.sibling)[d]) == Upper(g);
    RowsInOrder(h, a, b);
    RowsInOrder(h, a, d);
    HighestAbove(p, Upper(f), Lower(g));
    HighestAbove(p, Upper(f), Upper(g));
    SharedPrefix(Lower(g), Upper(g), p);
  }

  /** Rows below a lower bound of zero bytes are no longer than it. */
  lemma SharedBelow(h: History)
    requires h.Half? && !h.isLeft && MadeFromParts(h) && AllRows(h.parts) && AllRows(h.sibling)
    requires Zeros(Lower(Fold(KeysOf(h.parts))))
    ensures PrefixLen(Fold(KeysOf(h.sibling))) <= |Lower(Fold(KeysOf(h.parts)))|
  {
    var f, g := Fold(KeysOf(h.parts)), Fold(KeysOf(h.sibling));
    FoldAttained(KeysOf(h.parts));
    FoldAttained(KeysOf(h.sibling));
    CommonParts(Lower(g), Upper(g));
    hide Fold, FromPage, CutAt, LevelsFit, Leq, Common, Zeros;
    var a :| 0 <= a < |h.parts| && Lower(KeysOf(h.parts)[a]) == Lower(f);
    var b :| 0 <= b < |h.sibling| && Lower(KeysOf(h.sibling)[b]) == Lower(g);
    RowsInOrder(h, a, b);
    ZerosBelow(Lower(f), Lower(g), Lower(f));
  }

  /** Where a cut longer than the half's own rows ask for comes from. */
  lemma CutLengths(h: History)
    requires h.Half? && MadeFromParts(h) && Ordered(Fold(KeysOf(h.parts)))
    requires |Upper(h.key)| == CutAt(h) && NoSibling(Lower(h.key), Upper(h.key))
    ensures PrefixLen(Fold(KeysOf(h.sibling))) + 2 == CutAt(h)
    ensures Upper(h.key) <= Upper(Fold(KeysOf(h.parts))) && Lower(h.key) == Lower(Fold(KeysOf(h.parts)))
  {
    CutAtLeast(h);
    CutPrefix(Fold(KeysOf(h.parts)), CutAt(h));
    hide Fold, FromPage, Common, Highest, Zeros, LevelsFit, Leq;
  }

  /** The half of a leaf page had rows beside it for which it was cut. */
  lemma SiblingWas(h: History)
    requires h.Half? && MadeFromParts(h) && AllRows(h.parts) && AllRows(h.sibling) && Ordered(Fold(KeysOf(h.parts)))
    requires |Upper(h.key)| == CutAt(h)
    ensures !NoSibling(Lower(h.key), Upper(h.key))
  {
    hide Fold, FromPage, CutAt, LevelsFit, Leq, Common, AllRows, MadeFromParts, Highest, Zeros;
    var u := Upper(h.key);
    if NoSibling(Lower(h.key), u) {
      CutLengths(h);
      if h.isLeft { SharedAbove(h, u[..|u| - 1]); } else { SharedBelow(h); }
      assert false;
    }
  }

  lemma LeafHalfCovers(h: History, i: nat)
    requires h.Half? && MadeFromParts(h) && AllRows(h.parts) && AllRows(h.sibling) && i < |h.parts|
    ensures Ordered(h.key) && CoversRows(h.key, h.parts[i].x)
  {
    var keys, n, x := KeysOf(h.parts), CutAt(h), h.parts[i].x;
    assert keys[i] == Leaf(x);
    LeqReflexive(x);
    CutAtLeast(h);
    CutUnionCoversWithin(keys, n, i, x);
    var f := Fold(keys);
    FoldBounds(keys, i);
    LeqTransitive(Lower(f), x, Upper(f));
    CutUpper(Upper(f), n, x);
    assert |Upper(h.key)| == n || Upper(h.key) == Upper(f);
    hide Fold, CutAt, FromPage, Leq, NoSibling, LevelsFit;
    if !Leq(x, Upper(h.key)) {
      SiblingWas(h);
    }
  }

  lemma LeafUnionCovers(h: History, x: Bytea)
    requires h.United? && MadeFromParts(h) && Ordered(Fold(KeysOf(h.parts))) && Covers(h.key, x)
    ensures CoversRows(h.key, x)
  {
    CutPrefix(Fold(KeysOf(h.parts)), CutAt(h));
    hide Fold, Common, Highest, Zeros, LevelsFit, Leq;
  }

  /** Keys of leaf pages cover their rows. */
  lemma {:induction false} LeafPageCovers(h: History, x: Bytea)
    requires WellBuilt(h) && Level(h) == 1 && Holds(h, x)
    ensures Ordered(h.key) && CoversRows(h.key, x)
    decreases h
  {
    hide WellBuilt, Holds, FromPage, Leq, Common, Fold, CutAt, OpenAt, Loose;
    Built(h);
    var i := HeldBelow(h, x);
    var p := h.parts[i];
    if h.Half? {
      forall q | q in h.parts + h.sibling ensures q.Row? { RowAtZero(q); }
      RowHolds(p, x);
      LeafHalfCovers(h, i);
    } else {
      if Level(p) == 0 {
        RowAtZero(p);
        RowHolds(p, x);
        LeafCovers(x);
      } else {
        LeafPageCovers(p, x);
        RowsAreCovered(KeyOf(p), x);
      }
      UnionCovers(h, i, x);
      FoldOrdered(KeysOf(h.parts), i);
      LeafUnionCovers(h, x);
    }
  }

  lemma RowHolds(h: History, x: Bytea)
    requires h.Row?
    ensures Holds(h, x) <==> x == h.x
  {
  }

  lemma RowsAreCovered(k: Key, x: Bytea)
    requires CoversRows(k, x)
    ensures Covers(k, x)
  {
  }

  lemma UnionCovers(h: History, i: nat, x: Bytea)
    requires h.United? && MadeFromParts(h) && i < |h.parts|
    requires Ordered(KeyOf(h.parts[i])) && Covers(KeyOf(h.parts[i]), x)
    ensures Ordered(h.key) && Covers(h.key, x)
  {
    hide Fold, Loose, Open, Leq;
    UnionNeverLoose(KeysOf(h.parts), i);
    CutUnionCovers(KeysOf(h.parts), CutAt(h), i, x);
  }

  lemma FoldOrdered(keys: seq<Key>, i: nat)
    requires i < |keys| && Ordered(keys[i])
    ensures Ordered(Fold(keys))
  {
    hide Fold;
    var e, f := keys[i], Fold(keys);
    FoldBounds(keys, i);
    LeqTransitive(Lower(f), Lower(e), Upper(e));
    LeqTransitive(Lower(f), Upper(e), Upper(f));
  }

  lemma RowAtZero(h: History)
    requires WellBuilt(h) && Level(h) == 0
    ensures h.Row?
  {
  }

  // ---------------------------------------------------------------- no row is lost

  /** What every key keeps of the rows below it. */
  ghost predicate Keeps(k: Key, x: Bytea) {
    Covers(k, x) || (Zeros(Lower(k)) && Lower(k) <= x && Lower(k) != Upper(k))
  }

  lemma CutAtLeast(h: History)
    requires !h.Row? && h.parts != [] && (h.Half? ==> h.sibling != [])
    ensures CutAt(h) >= PrefixLen(Fold(KeysOf(h.parts))) + 2
  {
  }

  lemma ZerosBelow(l: Bytea, l': Bytea, x: Bytea)
    requires Zeros(l) && l <= x && Leq(l', l)
    ensures Zeros(l') && l' <= x
  {
    CommonParts(l', l);
    var k := Common(l', l);
    LeqAt(l', l, k);
    assert l' == l'[..k] == l[..k];
  }

  /** Bounds that differ still differ when they are widened and cut. */
  lemma StillApart(f: Key, e: Key, n: nat)
    requires Ordered(e) && Lower(e) != Upper(e) && Leq(Lower(f), Lower(e)) && Leq(Upper(e), Upper(f))
    requires n >= PrefixLen(f) + 2
    ensures Ordered(CutKey(f, n)) && Lower(CutKey(f, n)) != Upper(CutKey(f, n))
  {
    LeqTransitive(Lower(f), Lower(e), Upper(e));
    LeqTransitive(Lower(f), Upper(e), Upper(f));
    LeqTotal(Lower(e), Upper(e));
    if Lower(f) == Upper(f) {
      LeqTransitive(Upper(e), Upper(f), Lower(e));
    }
    CutPrefix(f, n);
    CommonParts(Lower(f), Upper(f));
  }

  /** One step up: a safely made key keeps what its parts keep. */
  lemma {:induction false} StepUp(h: History, i: nat, x: Bytea)
    requires !h.Row? && MadeFromParts(h) && i < |h.parts| && (h.Half? ==> SafeSplit(h))
    requires Ordered(KeyOf(h.parts[i])) && Keeps(KeyOf(h.parts[i]), x)
    requires Level(h.parts[i]) == 1 ==> CoversRows(KeyOf(h.parts[i]), x)
    requires Level(h.parts[i]) == 0 ==> h.parts[i].Row?
    ensures Ordered(h.key) && Keeps(h.key, x)
  {
    var keys, n := KeysOf(h.parts), CutAt(h);
    var e, f := keys[i], Fold(keys);
    CutAtLeast(h);
    assert h.parts[i] in h.parts && KeyOf(h.parts[i]) == e;
    if h.United? {
      UnionNeverLoose(keys, i);
      assert h.key == Union(keys);
    }
    hide Fold, CutAt, Leq, Loose, Open, Zeros, Common, FromPage, LevelsFit, OpenAt, CoversRows;
    if h.Half? && Covers(e, x) && !Leq(x, Upper(e)) { NotLooseAt(h.parts[i], Upper(h.key), x); }
    hide LooseAt;
    if !Covers(e, x) {
      FoldBounds(keys, i);
      StillApart(f, e, n);
      PrefixLeq(Lower(h.key), Lower(f));
      LeqTransitive(Lower(h.key), Lower(f), Lower(e));
      ZerosBelow(Lower(e), Lower(h.key), x);
    } else if Leq(x, Upper(e)) {
      CutUnionCoversWithin(keys, n, i, x);
    } else if !Loose(e, Upper(h.key)) {
      CutUnionCovers(keys, n, i, x);
    } else {
      LooseButZero(keys, n, i, x);
    }
  }

  /** Where a value extends the bound of an entry, the entry's bound may have been cut, also judging by its level. */
  lemma NotLooseAt(p: History, u: Bytea, x: Bytea)
    requires Covers(KeyOf(p), x) && !Leq(x, Upper(KeyOf(p))) && (Level(p) == 1 ==> CoversRows(KeyOf(p), x))
    requires Level(p) == 0 ==> p.Row?
    ensures !LooseAt(KeyOf(p), Level(p), u) ==> !Loose(KeyOf(p), u)
  {
    if p.Row? { PartUnique(p.x, p.x, |p.x|); }
  }

  lemma LooseButZero(keys: seq<Key>, n: nat, i: nat, x: Bytea)
    requires i < |keys| && Ordered(keys[i]) && Covers(keys[i], x) && n >= PrefixLen(Fold(keys)) + 2
    requires var k := CutKey(Fold(keys), n); Loose(keys[i], Upper(k)) && Zeros(Lower(k)) && Lower(k) <= Upper(k)
    ensures var k := CutKey(Fold(keys), n); Ordered(k) && Keeps(k, x)
  {
    hide Fold;
    var e, f := keys[i], Fold(keys);
    var l, u := Lower(CutKey(f, n)), Upper(CutKey(f, n));
    FoldBounds(keys, i);
    OpenApart(e);
    StillApart(f, e, n);
    PrefixLeq(l, Lower(f));
    LeqTransitive(l, Lower(f), Lower(e));
    LeqTransitive(l, Lower(e), x);
    LeqTransitive(l, Lower(e), Upper(e));
    PrefixLeq(u, Upper(f));
    PrefixLeq(Upper(e), u);
    if Leq(x, Upper(e)) {
      LeqTransitive(x, Upper(e), u);
      Between(l, x, u, l);
    } else {
      Between(l, Upper(e), u, l);
    }
  }

  lemma OpenApart(e: Key)
    requires Open(e)
    ensures Lower(e) != Upper(e)
  {
    PartUnique(Upper(e), Upper(e), |Upper(e)|);
  }

  /** Every key keeps every row below it. */
  lemma {:induction false} KeyKeepsRow(h: History, x: Bytea)
    requires WellBuilt(h) && Safe(h) && Holds(h, x)
    ensures Ordered(KeyOf(h)) && Keeps(KeyOf(h), x)
    decreases h
  {
    if h.Row? {
      LeafCovers(x);
    } else {
      hide Keeps, Ordered;
      hide WellBuilt, Safe, Holds, MadeFromParts, CoversRows;
      Built(h);
      SafeParts(h);
      var i := HeldBelow(h, x);
      var p := h.parts[i];
      KeyKeepsRow(p, x);
      if Level(p) == 1 { LeafPageCovers(p, x); }
      if Level(p) == 0 { RowAtZero(p); }
      StepUp(h, i, x);
    }
  }

  lemma KeptIsReached(k: Key, x: Bytea)
    requires Keeps(k, x)
    ensures Reaches(k, x) && (Lower(k) == Upper(k) ==> Covers(k, x))
  {
  }

  /** An index search loses no row, whatever history of unions and safe splits its keys have. */
  lemma {:induction false} NoRowLost(h: History, x: Bytea, q: Bytea, s: Strategy)
    requires WellBuilt(h) && Safe(h) && !h.Row? && Holds(h, x)
    requires Consistent(Leaf(x), q, s, true)
    ensures Consistent(h.key, q, s, false)
  {
    LeafExact(x, q, s);
    KeyKeepsRow(h, x);
    KeptIsReached(h.key, x);
    ReachedIsConsistent(h.key, x, q, s);
  }
}
