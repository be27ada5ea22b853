/** Splits that are not safe lose rows: the condition under which an index search finds every row is exact. */
module VarKeyLoss {
  import opened Bytes
  import opened PageOffsets
  import opened VarKey
  import opened VarKeyIndex
  import opened VarKeyHistory

  // ---------------------------------------------------------------- small histories

  lemma FoldTwo(a: Key, b: Key)
    requires Leq(Lower(a), Lower(b)) && Leq(Upper(a), Upper(b))
    ensures Fold([a, b]) == Node(Lower(a), Upper(b))
  {
    assert [a, b][..1] == [a];
    LeqTotal(Upper(a), Upper(b));
  }

  /** The key of a page of two rows. */
  function TwoRows(a: Bytea, b: Bytea): History { United(1, Union([Leaf(a), Leaf(b)]), [Row(a), Row(b)]) }

  lemma TwoRowsBuilt(a: Bytea, b: Bytea, c: nat)
    requires PartAt(a, b, c) && Leq(a, b)
    ensures KeyOf(TwoRows(a, b)) == Node(Cut(a, c + 2), Cut(b, c + 2)) && Level(TwoRows(a, b)) == 1
    ensures WellBuilt(TwoRows(a, b)) && Safe(TwoRows(a, b)) && Holds(TwoRows(a, b), b)
  {
    FoldTwo(Leaf(a), Leaf(b));
    PartUnique(a, b, c);
    hide Fold, Common;
    assert KeysOf([Row(a), Row(b)]) == [Leaf(a), Leaf(b)];
    assert MadeFromParts(TwoRows(a, b));
    assert Row(b) in TwoRows(a, b).parts && Holds(Row(b), b);
  }

  /** The bounds are no longer than gbt_var_union leaves them. */
  predicate Trim(k: Key) { k.Node? && |k.lo| <= PrefixLen(k) + 2 && |k.up| <= PrefixLen(k) + 2 }

  /** The key of a page that has only this entry. */
  function Up(h: History): History { United(Level(h) + 1, KeyOf(h), [h]) }

  lemma UpBuilt(h: History, x: Bytea)
    requires WellBuilt(h) && Safe(h) && Trim(KeyOf(h))
    ensures WellBuilt(Up(h)) && Safe(Up(h)) && (Holds(h, x) ==> Holds(Up(h), x))
  {
    var k := KeyOf(h);
    hide Common, WellBuilt, Safe, Holds;
    assert KeysOf([h]) == [k] && Fold([k]) == k && CutKey(k, PrefixLen(k) + 2) == k;
    assert h in Up(h).parts;
    assert MadeFromParts(Up(h));
    Built(Up(h));
    SafeParts(Up(h));
    if Holds(h, x) { HeldAbove(Up(h), h, x); }
  }

  /** The same key n levels up. */
  function Lift(h: History, n: nat): (g: History)
    ensures Level(g) == Level(h) + n && KeyOf(g) == KeyOf(h)
  {
    if n == 0 then h else Up(Lift(h, n - 1))
  }

  lemma {:induction false} LiftBuilt(h: History, n: nat, x: Bytea)
    requires WellBuilt(h) && Safe(h) && Trim(KeyOf(h))
    ensures WellBuilt(Lift(h, n)) && Safe(Lift(h, n)) && (Holds(h, x) ==> Holds(Lift(h, n), x))
  {
    hide WellBuilt, Safe, Holds, Up, Trim;
    if n > 0 {
      LiftBuilt(h, n - 1, x);
      UpBuilt(Lift(h, n - 1), x);
    }
  }

  /** The key of pages that hold one value. */
  function OneRow(a: Bytea, level: nat): History
    requires level > 0
  {
    Lift(TwoRows(a, a), level - 1)
  }

  lemma OneRowBuilt(a: Bytea, level: nat)
    requires level > 0
    ensures var h := OneRow(a, level); KeyOf(h) == Node(a, a) && WellBuilt(h) && Safe(h) && Level(h) == level
    ensures PrefixLen(Node(a, a)) == |a|
  {
    hide TwoRows, WellBuilt, Safe, Holds, Common, Leq, Lift;
    LeqReflexive(a);
    PartUnique(a, a, |a|);
    TwoRowsBuilt(a, a, |a|);
    assert Cut(a, |a| + 2) == a;
    LiftBuilt(TwoRows(a, a), level - 1, a);
  }

  /** The left half of a page of four, whose right half has a common prefix so long that nothing is cut. */
  function LeftHalf(a: Bytea, h: History, y: Bytea): History
    requires Level(h) > 0
  {
    Half(Level(h) + 1, Node(a, Upper(KeyOf(h))), [OneRow(a, Level(h)), h],
         [OneRow(y, Level(h)), OneRow(y, Level(h))], true)
  }

  lemma LeftHalfBuilt(a: Bytea, h: History, y: Bytea)
    requires WellBuilt(h) && Level(h) > 0
    requires Leq(a, Lower(KeyOf(h))) && Ordered(KeyOf(h)) && Upper(KeyOf(h)) <= y && |a| <= |y| + 2
    ensures WellBuilt(LeftHalf(a, h, y)) && SafeSplit(LeftHalf(a, h, y)) && h in LeftHalf(a, h, y).parts
    ensures Safe(h) ==> Safe(LeftHalf(a, h, y))
  {
    hide OneRow, WellBuilt, Safe;
    OneRowBuilt(a, Level(h));
    OneRowBuilt(y, Level(h));
    LeftHalfKeys(a, h, y);
    LeftHalfTight(a, h);
    MadeHalf(LeftHalf(a, h, y), OneRow(a, Level(h)), h, OneRow(y, Level(h)));
  }

  lemma MadeHalf(g: History, p: History, q: History, r: History)
    requires g.Half? && g.parts == [p, q] && g.sibling == [r, r]
    requires WellBuilt(p) && WellBuilt(q) && WellBuilt(r) && Safe(p)
    requires g.level == Level(p) + 1 == Level(q) + 1 == Level(r) + 1
    requires FromPage(g) && g.key == CutKey(Fold(KeysOf(g.parts)), CutAt(g))
    requires !Loose(KeyOf(p), Upper(g.key)) && !Loose(KeyOf(q), Upper(g.key))
    ensures WellBuilt(g) && SafeSplit(g) && q in g.parts && (Safe(q) ==> Safe(g))
  {
    hide WellBuilt, Safe, FromPage, Fold, CutAt, Loose, OpenAt, CutKey, Zeros, Level;
    assert g.parts[1] == q;
    assert forall e :: e in g.parts ==> e == p || e == q;
    assert forall e :: e in g.sibling ==> e == r;
    assert LevelsFit(g);
    assert SafeSplit(g);
    hide LevelsFit, SafeSplit;
    assert MadeFromParts(g);
    Built(g);
    SafeParts(g);
  }

  lemma LeftHalfKeys(a: Bytea, h: History, y: Bytea)
    requires Level(h) > 0
    requires Leq(a, Lower(KeyOf(h))) && Ordered(KeyOf(h)) && Upper(KeyOf(h)) <= y && |a| <= |y| + 2
    requires KeyOf(OneRow(a, Level(h))) == Node(a, a) && KeyOf(OneRow(y, Level(h))) == Node(y, y)
    requires PrefixLen(Node(y, y)) == |y|
    ensures FromPage(LeftHalf(a, h, y))
    ensures var g := LeftHalf(a, h, y); g.key == CutKey(Fold(KeysOf(g.parts)), CutAt(g))
  {
    hide OneRow, Fold, Common;
    var g, k := LeftHalf(a, h, y), KeyOf(h);
    LeqTransitive(a, Lower(k), Upper(k));
    PrefixLeq(Upper(k), y);
    LeqTransitive(Lower(k), Upper(k), y);
    LeqReflexive(y);
    assert KeysOf(g.parts) == [Node(a, a), k] && KeysOf(g.sibling) == [Node(y, y), Node(y, y)];
    FoldTwo(Node(a, a), k);
    FoldTwo(Node(y, y), Node(y, y));
    assert KeysOf(g.parts + g.sibling) == [Node(a, a), k, Node(y, y), Node(y, y)];
    SortedFour(Node(a, a), k, Node(y, y), Node(y, y));
  }

  lemma KeyLeqBy(a: Key, b: Key)
    requires Leq(Lower(a), Lower(b)) && Leq(Upper(a), Upper(b))
    ensures KeyLeq(a, b)
  {
    LeqTotal(Lower(a), Lower(b));
  }

  /** Four keys with rising bounds are sorted. */
  lemma SortedFour(a: Key, b: Key, c: Key, d: Key)
    requires Leq(Lower(a), Lower(b)) && Leq(Lower(b), Lower(c)) && Leq(Lower(c), Lower(d))
    requires Leq(Upper(a), Upper(b)) && Leq(Upper(b), Upper(c)) && Leq(Upper(c), Upper(d))
    ensures SortedKeys([a, b, c, d])
  {
    hide Leq, KeyLeq;
    LeqTransitive(Lower(a), Lower(b), Lower(c));
    LeqTransitive(Lower(b), Lower(c), Lower(d));
    LeqTransitive(Lower(a), Lower(c), Lower(d));
    LeqTransitive(Upper(a), Upper(b), Upper(c));
    LeqTransitive(Upper(b), Upper(c), Upper(d));
    LeqTransitive(Upper(a), Upper(c), Upper(d));
    KeyLeqBy(a, b);
    KeyLeqBy(a, c);
    KeyLeqBy(a, d);
    KeyLeqBy(b, c);
    KeyLeqBy(b, d);
    KeyLeqBy(c, d);
  }

  lemma LeftHalfTight(a: Bytea, h: History)
    requires PrefixLen(Node(a, a)) == |a|
    ensures var u := Upper(KeyOf(h)); !Loose(Node(a, a), u) && !Loose(KeyOf(h), u)
  {
  }

  // ---------------------------------------------------------------- an open key may hold any extension of its bound

  /** A short lower bound above l that parts from u two bytes before its end. */
  lemma Room(l: Bytea, u: Bytea) returns (b: Bytea)
    requires Leq(l, u) && Open(Node(l, u)) && !(|u| == Common(l, u) + 2 && |l| <= |u|)
    ensures Leq(l, b) && Leq(b, u) && |b| <= |u| && |u| >= 2 && PartAt(b, u, |u| - 2)
  {
    var c := Common(l, u);
    CommonParts(l, u);
    LeqAt(l, u, c);
    if |u| > c + 2 {
      b := u[..|u| - 2];
      PrefixLeq(b, u);
      assert PartAt(l, b, c);
      LeqAt(l, b, c);
    } else if l[c + 1] < 255 {
      b := l[..c + 1] + [l[c + 1] + 1];
      assert b[..c] == l[..c];
      LeqAt(b, u, c);
      assert PartAt(l, b, c + 1);
      LeqAt(l, b, c + 1);
    } else {
      b := l[..c] + [l[c] + 1];
      LeqAt(b, u, c);
      assert PartAt(l, b, c);
      LeqAt(l, b, c);
    }
  }

  /** Some history makes the key, at its level, with a given extension of its upper bound below it. */
  lemma Realise(l: Bytea, u: Bytea, level: nat, x: Bytea) returns (p: History)
    requires Leq(l, u) && level > 0 && OpenAt(Node(l, u), level) && u <= x
    ensures WellBuilt(p) && Safe(p) && Level(p) == level && KeyOf(p) == Node(l, u) && Holds(p, x)
  {
    if |u| == Common(l, u) + 2 && |l| <= |u| {
      p := PairUnder(l, u, level, x);
    } else if level == 1 {
      p := LeafPageUnder(l, u, x);
    } else {
      var b := Room(l, u);
      PartUnique(b, u, |u| - 2);
      var q := PairUnder(b, u, level - 1, x);
      hide TwoRows, WellBuilt, Safe, SafeSplit, Common, Leq;
      LeftHalfBuilt(l, q, u + l);
      p := LeftHalf(l, q, u + l);
    }
  }

  lemma PairUnder(b: Bytea, u: Bytea, level: nat, x: Bytea) returns (p: History)
    requires Leq(b, u) && |b| <= |u| && |u| >= 2 && Common(b, u) == |u| - 2 && level > 0 && u <= x
    ensures WellBuilt(p) && Safe(p) && Level(p) == level && KeyOf(p) == Node(b, u) && Holds(p, x)
  {
    hide TwoRows, Common, Leq, WellBuilt, Safe, Holds, PartAt, KeyOf;
    ExtensionKeepsPrefix(b, u, x);
    CommonParts(b, x);
    PrefixLeq(u, x);
    LeqTransitive(b, u, x);
    TwoRowsBuilt(b, x, |u| - 2);
    assert Cut(b, |u|) == b && Cut(x, |u|) == u;
    LiftBuilt(TwoRows(b, x), level - 1, x);
    p := Lift(TwoRows(b, x), level - 1);
  }

  // ---------------------------------------------------------------- the same for a leaf page

  /** The half of a leaf page with the rows l and x, and the rows y and z beside it. */
  function LeafHalf(l: Bytea, u: Bytea, x: Bytea, y: Bytea, z: Bytea, isLeft: bool): History {
    Half(1, Node(l, u), [Row(l), Row(x)], [Row(y), Row(z)], isLeft)
  }

  /** The rows beside the page share all but two of the bytes that the bound is cut to. */
  ghost predicate Beside(l: Bytea, u: Bytea, x: Bytea, y: Bytea, z: Bytea, isLeft: bool) {
    |u| >= 2 && Leq(y, z) && Common(y, z) == |u| - 2 && if isLeft then Leq(x, y) else Leq(z, l)
  }

  lemma LeafHalfBuilt(l: Bytea, u: Bytea, x: Bytea, y: Bytea, z: Bytea, isLeft: bool)
    requires |l| <= |u| && Leq(l, x) && u <= x && Common(l, x) <= |u| - 2 && Beside(l, u, x, y, z, isLeft)
    ensures var h := LeafHalf(l, u, x, y, z, isLeft); WellBuilt(h) && Safe(h) && Holds(h, x)
  {
    var h := LeafHalf(l, u, x, y, z, isLeft);
    LeafHalfSorted(l, u, x, y, z, isLeft);
    LeafHalfKey(l, u, x, y, z, isLeft);
    hide Fold, FromPage, CutAt, Leq, Common, Loose, Safe, WellBuilt, Holds;
    assert MadeFromParts(h);
    RowsBuilt(h);
    LeafSplitSafe(h);
    assert h.parts[1] == Row(x) && Row(x) in h.parts;
    RowHolds(Row(x), x);
    HeldAbove(h, Row(x), x);
  }

  lemma RowsBuilt(h: History)
    requires !h.Row? && MadeFromParts(h) && (forall p :: p in h.parts ==> p.Row?)
    requires h.Half? ==> forall p :: p in h.sibling ==> p.Row?
    ensures WellBuilt(h)
  {
    hide MadeFromParts;
  }

  lemma LeafHalfSorted(l: Bytea, u: Bytea, x: Bytea, y: Bytea, z: Bytea, isLeft: bool)
    requires Leq(l, x) && Leq(y, z) && if isLeft then Leq(x, y) else Leq(z, l)
    ensures FromPage(LeafHalf(l, u, x, y, z, isLeft))
  {
    hide Leq, SortedKeys;
    var h := LeafHalf(l, u, x, y, z, isLeft);
    if isLeft {
      SortedFour(Leaf(l), Leaf(x), Leaf(y), Leaf(z));
      assert KeysOf(h.parts + h.sibling) == [Leaf(l), Leaf(x), Leaf(y), Leaf(z)];
    } else {
      SortedFour(Leaf(y), Leaf(z), Leaf(l), Leaf(x));
      assert KeysOf(h.sibling + h.parts) == [Leaf(y), Leaf(z), Leaf(l), Leaf(x)];
    }
  }

  lemma LeafHalfKey(l: Bytea, u: Bytea, x: Bytea, y: Bytea, z: Bytea, isLeft: bool)
    requires |l| <= |u| && Leq(l, x) && u <= x && Common(l, x) <= |u| - 2 && Leq(y, z) && Common(y, z) == |u| - 2
    ensures var h := LeafHalf(l, u, x, y, z, isLeft); h.key == CutKey(Fold(KeysOf(h.parts)), CutAt(h))
  {
    var h := LeafHalf(l, u, x, y, z, isLeft);
    FoldTwo(Leaf(l), Leaf(x));
    FoldTwo(Leaf(y), Leaf(z));
    hide Fold, Leq, Common;
    assert KeysOf(h.parts) == [Leaf(l), Leaf(x)] && KeysOf(h.sibling) == [Leaf(y), Leaf(z)];
    assert Cut(l, |u|) == l && Cut(x, |u|) == u;
  }

  function Zeroes(n: nat): (b: Bytea)
    ensures |b| == n
  {
    seq(n, i => 0)
  }

  /** Rows beside a leaf page for which its bound is cut where it is. */
  lemma FindBeside(l: Bytea, u: Bytea, x: Bytea) returns (y: Bytea, z: Bytea, isLeft: bool)
    requires |u| > Common(l, u) + 2 && |l| <= |u| && !NoSibling(l, u) && u <= x
    ensures Beside(l, u, x, y, z, isLeft)
  {
    var n := |u|;
    if u[n - 2] < 255 {
      y, z, isLeft := x, u[..n - 2] + [255], true;
      assert PartAt(y, z, n - 2);
      PartUnique(y, z, n - 2);
      LeqAt(y, z, n - 2);
      LeqReflexive(x);
    } else if !Highest(u[..n - 1]) {
      var j :| 0 <= j < n - 1 && u[..n - 1][j] != 255;
      y, isLeft := u[..j] + [u[j] + 1] + Zeroes(n - 3 - j), true;
      z := y;
      assert PartAt(x, y, j);
      LeqAt(x, y, j);
      SameTwice(y);
    } else if |l| >= n - 2 {
      y, isLeft := l[..n - 2], false;
      z := y;
      PrefixLeq(y, l);
      SameTwice(y);
    } else {
      var j :| 0 <= j < |l| && l[j] != 0;
      y, isLeft := l[..j] + [l[j] - 1] + Zeroes(n - 3 - j), false;
      z := y;
      assert PartAt(y, l, j);
      LeqAt(y, l, j);
      SameTwice(y);
    }
  }

  lemma SameTwice(y: Bytea)
    ensures Leq(y, y) && Common(y, y) == |y|
  {
    LeqReflexive(y);
    PartUnique(y, y, |y|);
  }

  lemma LeafPageUnder(l: Bytea, u: Bytea, x: Bytea) returns (p: History)
    requires Leq(l, u) && |u| > Common(l, u) + 2 && |l| <= |u| && !NoSibling(l, u) && u <= x
    ensures WellBuilt(p) && Safe(p) && Level(p) == 1 && KeyOf(p) == Node(l, u) && Holds(p, x)
  {
    hide WellBuilt, Safe, Holds, Leq, NoSibling, Common;
    ExtensionKeepsPrefix(l, u, x);
    PrefixLeq(u, x);
    LeqTransitive(l, u, x);
    var y, z, isLeft := FindBeside(l, u, x);
    LeafHalfBuilt(l, u, x, y, z, isLeft);
    p := LeafHalf(l, u, x, y, z, isLeft);
  }

  // ---------------------------------------------------------------- the condition is exact

  /** A half that looks the same: the same keys on the page and the same datum. */
  ghost predicate SameKeys(h': History, h: History)
    requires h.Half?
  {
    && h'.Half? && h'.level == h.level && h'.key == h.key && h'.isLeft == h.isLeft
    && KeysOf(h'.parts) == KeysOf(h.parts) && KeysOf(h'.sibling) == KeysOf(h.sibling)
  }

  /** A way to come by these keys in which everything below the split is safe. */
  ghost predicate Realises(h': History, h: History)
    requires h.Half?
  {
    SameKeys(h', h) && WellBuilt(h') && forall p :: p in h'.parts ==> Safe(p)
  }

  /** The half itself, or a key safely made from it. */
  ghost predicate OnTop(g: History, h: History) {
    g == h || (!g.Row? && WellBuilt(g) && h in g.parts && (g.Half? ==> SafeSplit(g)))
  }

  /** Whatever rows its keys stand for, they are found at the half and at every key made from it. */
  ghost predicate FindsAll(h: History)
    requires h.Half?
  {
    forall h': History, g: History, x: Bytea :: Realises(h', h) && Holds(h', x) && OnTop(g, h') ==> Reaches(KeyOf(g), x)
  }

  /** A page split is harmless if and only if it is safe. */
  lemma SplitExact(h: History)
    requires h.Half? && WellBuilt(h) && forall p :: p in h.parts ==> Safe(p)
    ensures FindsAll(h) <==> SafeSplit(h)
  {
    hide WellBuilt, Safe, Holds, Reaches, SameKeys, Zeros;
    if SafeSplit(h) {
      forall h': History, g: History, x: Bytea | Realises(h', h) && Holds(h', x) && OnTop(g, h')
        ensures Reaches(KeyOf(g), x)
      {
        SafeFinds(h, h', g, x);
      }
    } else {
      var h', g, x := UnsafeLoses(h);
      assert !(Realises(h', h) && Holds(h', x) && OnTop(g, h') ==> Reaches(KeyOf(g), x));
    }
  }

  lemma SafeFinds(h: History, h': History, g: History, x: Bytea)
    requires h.Half? && WellBuilt(h) && SafeSplit(h) && Realises(h', h) && Holds(h', x) && OnTop(g, h')
    ensures Reaches(KeyOf(g), x)
  {
    hide Loose, Zeros, Fold, Leq, Common, Holds, OpenAt, CoversRows;
    SameKeysSafe(h, h');
    if h'.level == 1 { LeafPageCovers(h', x); }
    KeyKeepsRow(h', x);
    if g == h' {
      KeptIsReached(h'.key, x);
    } else {
      var i :| 0 <= i < |g.parts| && g.parts[i] == h';
      StepUp(g, i, x);
      KeptIsReached(g.key, x);
    }
  }

  lemma SameKeysSafe(h: History, h': History)
    requires h.Half? && WellBuilt(h) && SafeSplit(h) && Realises(h', h)
    ensures Safe(h')
  {
    hide LooseAt, Zeros, Fold;
    if forall p :: p in h.parts ==> !LooseAt(KeyOf(p), Level(p), Upper(h.key)) {
      forall p | p in h'.parts ensures !LooseAt(KeyOf(p), Level(p), Upper(h'.key)) {
        var i :| 0 <= i < |h'.parts| && h'.parts[i] == p;
        assert KeysOf(h'.parts)[i] == KeysOf(h.parts)[i] && h.parts[i] in h.parts;
      }
    }
  }

  lemma {:induction false} OrderedKey(h: History)
    requires WellBuilt(h)
    ensures Ordered(KeyOf(h)) && (!h.Row? ==> h.key.Node?)
    decreases h
  {
    if h.Row? {
      LeqReflexive(h.x);
    } else {
      hide Fold, CutAt, FromPage, Common, Leq;
      var keys := KeysOf(h.parts);
      assert h.parts[0] in h.parts;
      OrderedKey(h.parts[0]);
      FoldBounds(keys, 0);
      CutAtLeast(h);
      var f, e := Fold(keys), keys[0];
      LeqTransitive(Lower(f), Lower(e), Upper(e));
      LeqTransitive(Lower(f), Upper(e), Upper(f));
      CutPrefix(f, CutAt(h));
    }
  }

  lemma UnsafeLoses(h: History) returns (h': History, g: History, x: Bytea)
    requires h.Half? && WellBuilt(h) && !SafeSplit(h) && forall p :: p in h.parts ==> Safe(p)
    ensures Realises(h', h) && Holds(h', x) && OnTop(g, h') && !Reaches(KeyOf(g), x)
  {
    var p :| p in h.parts && LooseAt(KeyOf(p), Level(p), Upper(h.key));
    var i :| 0 <= i < |h.parts| && h.parts[i] == p;
    var k :| |Upper(KeyOf(p))| <= k < |Upper(h.key)| && Upper(h.key)[k] < 255;
    hide WellBuilt, Safe, Holds, Loose, Zeros, Realises, OnTop, Reaches;
    x := Above(Upper(h.key), k);
    Below(h, i);
    MissesAbove(h.key, KeyOf(p), k);
    h' := Replace(h, i, x);
    g := MissingKey(h, h', k);
  }

  /** The half misses the value just above its bound, or a key made from it does. */
  lemma MissingKey(h: History, h': History, k: nat) returns (g: History)
    requires h.Half? && Realises(h', h) && k < |Upper(h.key)| && Upper(h.key)[k] < 255
    requires Lower(h.key) <= Upper(h.key) || !Reaches(h.key, Above(Upper(h.key), k))
    requires Lower(h.key) <= Upper(h.key) ==> |Lower(h.key)| <= k && !Zeros(Lower(h.key))
    ensures OnTop(g, h') && !Reaches(KeyOf(g), Above(Upper(h.key), k))
  {
    if Lower(h.key) <= Upper(h.key) {
      OrderedKey(h');
      hide WellBuilt, Safe, SafeSplit, Zeros, Reaches, Leq;
      var a, j := NotAPrefix(Lower(h.key));
      LeftHalfBuilt(a, h', Upper(h.key) + a);
      g := LeftHalf(a, h', Upper(h.key) + a);
      MissesHigher(h.key, a, j, k);
    } else {
      g := h';
    }
  }

  /** The same page with another history of entry i, in which it holds x. */
  lemma Replace(h: History, i: nat, x: Bytea) returns (h': History)
    requires h.Half? && WellBuilt(h) && (forall p :: p in h.parts ==> Safe(p)) && i < |h.parts|
    requires OpenAt(KeyOf(h.parts[i]), Level(h.parts[i])) && Upper(KeyOf(h.parts[i])) <= x
    ensures Realises(h', h) && Holds(h', x)
  {
    var e := KeyOf(h.parts[i]);
    assert h.parts[i] in h.parts;
    OrderedKey(h.parts[i]);
    LeafNeverOpen(h.parts[i]);
    var p := Realise(Lower(e), Upper(e), Level(h.parts[i]), x);
    h' := Half(h.level, h.key, h.parts[i := p], h.sibling, h.isLeft);
    assert KeysOf(h'.parts) == KeysOf(h.parts);
    assert h'.parts[i] == p && p in h'.parts;
    forall q | q in h'.parts ensures q == p || q in h.parts {
      var j :| 0 <= j < |h'.parts| && h'.parts[j] == q;
      assert j != i ==> q == h.parts[j] && h.parts[j] in h.parts;
    }
    hide OpenAt, Fold, CutAt, Holds;
    Replaced(h, h', p);
    HeldAbove(h', p, x);
  }

  lemma Replaced(h: History, h': History, p: History)
    requires h.Half? && WellBuilt(h) && (forall q :: q in h.parts ==> Safe(q)) && SameKeys(h', h)
    requires h'.sibling == h.sibling && forall q :: q in h'.parts ==> q == p || q in h.parts
    requires WellBuilt(p) && Safe(p) && Level(p) + 1 == h.level
    ensures Realises(h', h)
  {
    hide WellBuilt, Safe, Fold, CutAt;
    Built(h);
    assert h.sibling != [];
    hide FromPage;
    SamePage(h, h');
    SameCut(h, h');
    assert MadeFromParts(h');
    Built(h');
  }

  lemma LeafNeverOpen(h: History)
    requires WellBuilt(h)
    ensures h.Row? || Level(h) == 0 ==> !Open(KeyOf(h))
  {
    if h.Row? { PartUnique(h.x, h.x, |h.x|); }
  }

  lemma SameCut(h: History, h': History)
    requires h.Half? && SameKeys(h', h) && h.parts != [] && h.sibling != []
    ensures h'.parts != [] && h'.sibling != [] && CutAt(h') == CutAt(h)
  {
  }

  lemma SamePage(h: History, h': History)
    requires h.Half? && SameKeys(h', h) && FromPage(h)
    ensures FromPage(h')
  {
    hide SortedKeys;
    var l, r := if h.isLeft then h.parts else h.sibling, if h.isLeft then h.sibling else h.parts;
    var l', r' := if h.isLeft then h'.parts else h'.sibling, if h.isLeft then h'.sibling else h'.parts;
    assert KeysOf(l) == KeysOf(l') && KeysOf(r) == KeysOf(r');
    assert KeysOf(l + r) == KeysOf(l) + KeysOf(r) && KeysOf(l' + r') == KeysOf(l') + KeysOf(r');
  }

  /** The lower bound of the half lies below the entry's. */
  lemma Below(h: History, i: nat)
    requires !h.Row? && WellBuilt(h) && i < |h.parts|
    ensures Leq(Lower(h.key), Lower(KeyOf(h.parts[i]))) && Ordered(KeyOf(h.parts[i]))
  {
    hide Fold, CutAt, FromPage;
    assert h.parts[i] in h.parts;
    OrderedKey(h.parts[i]);
    var f := Fold(KeysOf(h.parts));
    FoldBounds(KeysOf(h.parts), i);
    PrefixLeq(Lower(h.key), Lower(f));
    LeqTransitive(Lower(h.key), Lower(f), Lower(KeyOf(h.parts[i])));
  }

  /** A value just above the bound is missed unless the lower bound is a prefix of the upper one. */
  lemma MissesAbove(key: Key, e: Key, k: nat)
    requires Ordered(e) && Open(e) && Leq(Lower(key), Lower(e)) && Upper(e) <= Upper(key)
    requires |Upper(e)| <= k < |Upper(key)| && Upper(key)[k] < 255
    ensures Upper(e) <= Above(Upper(key), k)
    ensures Lower(key) <= Upper(key) || !Reaches(key, Above(Upper(key), k))
    ensures Lower(key) <= Upper(key) ==> |Lower(key)| <= k
  {
    var l, u, x := Lower(key), Upper(key), Above(Upper(key), k);
    AboveIsAbove(u, k);
    assert Upper(e) == u[..k][..|Upper(e)|] == x[..|Upper(e)|];
    PrefixShrinks(Lower(e), l, Upper(e));
    var d := Common(l, Upper(e));
    CommonParts(l, Upper(e));
    assert d < |Upper(e)| <= k;
    if d < |l| {
      assert l[d] != Upper(e)[d] && Upper(e)[d] == u[d] == x[d];
    } else {
      assert l == Upper(e)[..d] == u[..d];
    }
  }

  /** A string below l that parts from it before its end. */
  lemma NotAPrefix(l: Bytea) returns (a: Bytea, j: nat)
    requires !Zeros(l)
    ensures Leq(a, l) && |a| == j + 1 <= |l| && a[j] != l[j]
  {
    j :| 0 <= j < |l| && l[j] != 0;
    a := l[..j] + [l[j] - 1];
    LeqAt(a, l, j);
  }

  lemma MissesHigher(key: Key, a: Bytea, j: nat, k: nat)
    requires Lower(key) <= Upper(key) && |Lower(key)| <= k < |Upper(key)| && Upper(key)[k] < 255
    requires j < |a| && j < |Lower(key)| && a[j] != Lower(key)[j]
    ensures !Reaches(Node(a, Upper(key)), Above(Upper(key), k))
  {
    var u, x := Upper(key), Above(Upper(key), k);
    AboveIsAbove(u, k);
    assert Lower(key)[j] == u[j] == x[j];
  }

  // ---------------------------------------------------------------- a split that loses a row

  const LOSING_KEYS: seq<Key> :=
    [Node([0], [1, 1]), Node([1, 1, 4], [1, 1, 5]),
     Node([2, 0, 0, 0, 0], [2, 0, 0, 0, 1]), Node([2, 0, 0, 0, 2], [2, 0, 0, 0, 3])]

  const LOST: Bytea := [1, 1, 9]

  /** The four pages that have these keys. The first one holds the row that is lost. */
  function LosingPage(): seq<History> {
    [TwoRows([0], LOST), TwoRows([1, 1, 4], [1, 1, 5]),
     TwoRows([2, 0, 0, 0, 0], [2, 0, 0, 0, 1]), TwoRows([2, 0, 0, 0, 2], [2, 0, 0, 0, 3])]
  }

  ghost predicate MadeAs(h: History, key: Key) { WellBuilt(h) && Safe(h) && Level(h) == 1 && KeyOf(h) == key }

  lemma PageOf(a: Bytea, b: Bytea, c: nat)
    requires PartAt(a, b, c) && c < |a| <= c + 2 && c < |b| && a[c] < b[c]
    ensures MadeAs(TwoRows(a, b), Node(a, Cut(b, c + 2))) && Holds(TwoRows(a, b), b)
  {
    hide TwoRows, WellBuilt, Safe, Holds;
    LeqAt(a, b, c);
    TwoRowsBuilt(a, b, c);
    assert Cut(a, c + 2) == a;
  }

  lemma LosingPageBuilt()
    ensures forall i :: 0 <= i < 4 ==> MadeAs(LosingPage()[i], LOSING_KEYS[i])
    ensures Holds(LosingPage()[0], LOST)
  {
    hide TwoRows, MadeAs, Holds;
    PageOf([0], LOST, 0);
    assert Cut(LOST, 2) == [1, 1] && Cut([1, 1, 5], 4) == [1, 1, 5];
    assert Cut([2, 0, 0, 0, 1], 6) == [2, 0, 0, 0, 1] && Cut([2, 0, 0, 0, 3], 6) == [2, 0, 0, 0, 3];
    PageOf([1, 1, 4], [1, 1, 5], 2);
    PageOf([2, 0, 0, 0, 0], [2, 0, 0, 0, 1], 4);
    PageOf([2, 0, 0, 0, 2], [2, 0, 0, 0, 3], 4);
  }

  lemma Rises(a: Key, b: Key, i: nat, j: nat)
    requires PartAt(Lower(a), Lower(b), i) && i < |Lower(a)| && i < |Lower(b)| && Lower(a)[i] < Lower(b)[i]
    requires PartAt(Upper(a), Upper(b), j) && j < |Upper(b)| && (j < |Upper(a)| ==> Upper(a)[j] < Upper(b)[j])
    ensures Leq(Lower(a), Lower(b)) && Leq(Upper(a), Upper(b))
  {
    LeqAt(Lower(a), Lower(b), i);
    LeqAt(Upper(a), Upper(b), j);
  }

  lemma LosingKeysRise()
    ensures var k := LOSING_KEYS;
            forall i :: 0 <= i < 3 ==> Leq(Lower(k[i]), Lower(k[i + 1])) && Leq(Upper(k[i]), Upper(k[i + 1]))
  {
    hide Leq;
    var k := LOSING_KEYS;
    Rises(k[0], k[1], 0, 2);
    Rises(k[1], k[2], 0, 0);
    Rises(k[2], k[3], 4, 4);
  }

  lemma LosingPageSorted()
    ensures |LosingPage()| == 4 && KeysOf(LosingPage()) == LOSING_KEYS && SortedKeys(LOSING_KEYS)
  {
    hide TwoRows, Leq;
    LosingPageBuilt();
    LosingKeysRise();
    var k := LOSING_KEYS;
    assert k == [k[0], k[1], k[2], k[3]];
    assert Leq(Lower(k[0]), Lower(k[0 + 1])) && Leq(Lower(k[1]), Lower(k[1 + 1])) && Leq(Lower(k[2]), Lower(k[2 + 1]));
    SortedFour(k[0], k[1], k[2], k[3]);
    forall i | 0 <= i < 4 ensures KeysOf(LosingPage())[i] == k[i] {
      assert MadeAs(LosingPage()[i], k[i]);
    }
  }

  lemma PrefixOfNode(l: Bytea, u: Bytea)
    ensures PrefixLen(Node(l, u)) == Common(l, u)
  {
  }

  /** The datum of the left half of a page of four with rising bounds. */
  lemma LeftDatum(k: seq<Key>)
    requires |k| == 4
    requires forall i :: 0 <= i < 3 ==> Leq(Lower(k[i]), Lower(k[i + 1])) && Leq(Upper(k[i]), Upper(k[i + 1]))
    ensures var l, u := Lower(k[0]), Upper(k[1]);
            CutKey(Fold(k[..2]), SplitLen(k[..2], k[2..])) ==
            CutKey(Node(l, u), Max(Common(l, u), Common(Lower(k[2]), Upper(k[3]))) + 2)
  {
    hide Fold, Leq, Common, Lower, Upper, CutKey;
    assert k[..2] == [k[0], k[1]] && k[2..] == [k[2], k[3]];
    assert Leq(Lower(k[0]), Lower(k[0 + 1])) && Leq(Lower(k[2]), Lower(k[2 + 1]));
    FoldTwo(k[0], k[1]);
    FoldTwo(k[2], k[3]);
    PrefixOfNode(Lower(k[0]), Upper(k[1]));
    PrefixOfNode(Lower(k[2]), Upper(k[3]));
  }

  lemma LostValue()
    ensures !Consistent(Node([0], [1, 1, 5]), LOST, Equal, false) && Consistent(Leaf(LOST), LOST, Equal, true)
  {
    LeqAt(LOST, [1, 1, 5], 2);
  }

  lemma LosingDatum()
    ensures CutKey(Fold(LOSING_KEYS[..2]), SplitLen(LOSING_KEYS[..2], LOSING_KEYS[2..])) == Node([0], [1, 1, 5])
  {
    hide Fold, SplitLen, Leq, Common;
    LosingKeysRise();
    LeftDatum(LOSING_KEYS);
    PartUnique([0], [1, 1, 5], 0);
    PartUnique([2, 0, 0, 0, 0], [2, 0, 0, 0, 3], 4);
  }

  /** gbt_var_picksplit on the four pages' keys, with what its left datum stands for. */
  method SplitPage(page: seq<History>) returns (left: seq<nat>, ldatum: Key, h: History)
    requires |page| == 4 && (forall i :: 0 <= i < 4 ==> WellBuilt(page[i]) && Level(page[i]) == 1)
    requires SortedKeys(KeysOf(page))
    ensures left == [1, 2] && h == Half(2, ldatum, page[..2], page[2..], true) && WellBuilt(h)
    ensures ldatum == CutKey(Fold(KeysOf(page)[..2]), SplitLen(KeysOf(page)[..2], KeysOf(page)[2..]))
  {
    hide Fold, SplitLen, Leq, Common, SortedKeys, KeyOf, KeysOf, Select, Arranged, WellBuilt;
    var keys := KeysOf(page);
    var vector: seq<Key> := [keys[0]] + keys;
    var order: seq<nat> := [1, 2, 3, 4];
    AlreadyInOrder(vector, keys, order);
    SelectHalves(vector, order, 2);
    var right, rdatum;
    left, right, ldatum, rdatum := PickSplit(vector, order);
    assert left == order[..2] && right == order[2..];
    h := Half(2, ldatum, page[..2], page[2..], true);
    HalfBuilt(page, h);
  }

  /** A page whose entries are in order already. */
  lemma AlreadyInOrder(vector: seq<Key>, keys: seq<Key>, order: seq<nat>)
    requires keys != [] && vector == [keys[0]] + keys
    requires |order| == |keys| && forall i :: 0 <= i < |order| ==> order[i] == i + 1
    ensures Arranged(order, |vector|) && InVector(vector, order) && Select(vector, order) == keys
  {
    forall o: nat ensures o in order <==> 1 <= o < |vector| {
      if 1 <= o < |vector| { assert order[o - 1] == o; }
    }
    assert forall i :: 0 <= i < |keys| ==> vector[i + 1] == keys[i];
  }

  lemma SelectHalves(vector: seq<Key>, order: seq<nat>, n: nat)
    requires InVector(vector, order) && n <= |order|
    ensures InVector(vector, order[..n]) && Select(vector, order[..n]) == Select(vector, order)[..n]
    ensures InVector(vector, order[n..]) && Select(vector, order[n..]) == Select(vector, order)[n..]
  {
  }

  lemma HalfBuilt(page: seq<History>, h: History)
    requires |page| == 4 && (forall i :: 0 <= i < 4 ==> WellBuilt(page[i]) && Level(page[i]) == 1)
    requires SortedKeys(KeysOf(page))
    requires h.Half? && h.level == 2 && h.parts == page[..2] && h.sibling == page[2..] && h.isLeft
    requires h.key == CutKey(Fold(KeysOf(page)[..2]), SplitLen(KeysOf(page)[..2], KeysOf(page)[2..]))
    ensures WellBuilt(h)
  {
    hide Fold, SplitLen, SortedKeys, KeyOf;
    assert KeysOf(page)[..2] == KeysOf(page[..2]) && KeysOf(page)[2..] == KeysOf(page[2..]);
    assert page[..2] + page[2..] == page;
    assert MadeFromParts(h);
  }

  /** A page of four inner keys: the datum of its left half leads an equality search away from a row that lies under
      the first entry. */
  method InnerSplitLosesRow() returns (left: seq<nat>, ldatum: Key, h: History)
    ensures left == [1, 2] && h == Half(2, ldatum, LosingPage()[..2], LosingPage()[2..], true)
    ensures WellBuilt(h) && (forall p :: p in h.parts ==> Safe(p)) && Holds(h, LOST)
    ensures Consistent(Leaf(LOST), LOST, Equal, true) && !Consistent(ldatum, LOST, Equal, false)
  {
    LosingPageBuilt();
    LosingPageSorted();
    LosingDatum();
    LostValue();
    hide TwoRows, Fold, SplitLen, Leq, Common, Consistent, SortedKeys, LosingPage;
    left, ldatum, h := SplitPage(LosingPage());
    assert h.parts[0] == LosingPage()[0] && h.parts[0] in h.parts;
    forall p | p in h.parts ensures Safe(p) {
      var i :| 0 <= i < 2 && h.parts[i] == p;
      assert MadeAs(LosingPage()[i], LOSING_KEYS[i]);
    }
  }
}
