/** hstore_gist: distances, page splits and what a search reaches. */
module HstoreGistIndex {
  import opened HstoreFormat
  import opened HstoreQuery
  import opened HstoreGist
  import opened PageOffsets
  import opened Options

  // ---------------------------------------------------------------- distance

  /** In how many of the first n bits two keys differ. */
  function Hamming(a: Key, b: Key, n: nat): nat
    requires n <= SIGLENBIT
  {
    if n == 0 then 0 else Hamming(a, b, n - 1) + if HasBit(a, n - 1) != HasBit(b, n - 1) then 1 else 0
  }

  function Ones(s: Signature, n: nat): nat
    requires n <= SIGLENBIT
  {
    if n == 0 then 0 else Ones(s, n - 1) + if Bit(s, n - 1) then 1 else 0
  }

  /** SUMBIT */
  function SumBit(b: bv8, n: nat): nat
    requires n <= 8
  {
    if n == 0 then 0 else SumBit(b, n - 1) + if ByteBit(b, n - 1) then 1 else 0
  }

  lemma {:induction false} OnesOfByte(s: Signature, j: nat, n: nat)
    requires j < 16 && n <= 8
    ensures Ones(s, 8 * j + n) == Ones(s, 8 * j) + SumBit(s[j], n)
    decreases n
  {
    hide ByteBit;
    if n > 0 {
      OnesOfByte(s, j, n - 1);
      assert (8 * j + n - 1) / 8 == j && (8 * j + n - 1) % 8 == n - 1;
    }
  }

  lemma {:induction false} HammingToAllTrue(s: Signature, n: nat)
    requires n <= SIGLENBIT
    ensures Hamming(AllTrue, Signed(s), n) == n - Ones(s, n) == Hamming(Signed(s), AllTrue, n)
  {
    hide Bit;
    if n > 0 { HammingToAllTrue(s, n - 1); }
  }

  lemma {:induction false} HammingSelf(n: nat)
    requires n <= SIGLENBIT
    ensures Hamming(AllTrue, AllTrue, n) == 0
  {
    if n > 0 { HammingSelf(n - 1); }
  }

  /** sizebitvec */
  method SizeBitVec(s: Signature) returns (size: nat)
    ensures size == Ones(s, SIGLENBIT)
  {
    hide Ones, SumBit;
    size := 0;
    OnesOfNone(s);
    for i := 0 to SIGLEN
      invariant size == Ones(s, 8 * i)
    {
      OnesOfByte(s, i, 8);
      size := size + SumBit(s[i], 8);
    }
  }

  lemma OnesOfNone(s: Signature)
    ensures Ones(s, 0) == 0
  {
  }

  /** hemdist: with its shortcuts for all-true keys, the Hamming distance of the bits the keys stand for. */
  method HemDist(a: Key, b: Key) returns (d: nat)
    ensures d == Hamming(a, b, SIGLENBIT)
  {
    hide Bit, Ones;
    if a.AllTrue? {
      if b.AllTrue? {
        HammingSelf(SIGLENBIT);
        return 0;
      }
      HammingToAllTrue(b.sign, SIGLENBIT);
      var size := SizeBitVec(b.sign);
      return SIGLENBIT - size;
    } else if b.AllTrue? {
      HammingToAllTrue(a.sign, SIGLENBIT);
      var size := SizeBitVec(a.sign);
      return SIGLENBIT - size;
    }
    d := 0;
    for i := 0 to SIGLENBIT
      invariant d == Hamming(a, b, i)
    {
      if Bit(a.sign, i) != Bit(b.sign, i) {
        d := d + 1;
      }
    }
  }

  // ---------------------------------------------------------------- splitting a page

  /** One pair of offsets comes before another. */
  predicate Earlier(k: nat, j: nat, seed1: nat, seed2: nat) { k < seed1 || (k == seed1 && j < seed2) }

  /** A pair is no farther apart than the seeds, and less far if it comes before them. */
  ghost predicate Loses(vector: seq<Key>, k: nat, j: nat, seed1: nat, seed2: nat)
    requires k < |vector| && j < |vector| && seed1 < |vector| && seed2 < |vector|
  {
    var w, waste := Hamming(vector[k], vector[j], SIGLENBIT), Hamming(vector[seed1], vector[seed2], SIGLENBIT);
    w <= waste && (Earlier(k, j, seed1, seed2) ==> w < waste)
  }

  ghost predicate FirstFarthest(vector: seq<Key>, seed1: nat, seed2: nat, n: nat, maxoff: nat)
    requires maxoff < |vector| && seed1 < |vector| && seed2 < |vector|
  {
    forall k, j :: 1 <= k < n && k < j <= maxoff ==> Loses(vector, k, j, seed1, seed2)
  }

  /** The first of the pairs farthest apart, the last entry aside; the first two entries if there is no choice. */
  ghost predicate AreSeeds(vector: seq<Key>, seed1: nat, seed2: nat)
    requires |vector| >= 3
  {
    && 1 <= seed1 < seed2 < |vector|
    && (|vector| == 3 ==> seed1 == 1 && seed2 == 2)
    && (|vector| > 3 ==> seed2 <= |vector| - 2 && FirstFarthest(vector, seed1, seed2, |vector| - 2, |vector| - 2))
  }

  /** A pair farther apart makes every pair lose that lost to the one before. */
  lemma FartherYet(vector: seq<Key>, seed1: nat, seed2: nat, k: nat, j: nat)
    requires seed1 < |vector| && seed2 < |vector| && k < |vector| && j < |vector|
    requires Hamming(vector[seed1], vector[seed2], SIGLENBIT) < Hamming(vector[k], vector[j], SIGLENBIT)
    ensures forall k', j' | 0 <= k' < |vector| && 0 <= j' < |vector| && Loses(vector, k', j', seed1, seed2) ::
              Loses(vector, k', j', k, j)
  {
    hide Hamming;
  }

  method Seeds(vector: seq<Key>) returns (seed1: nat, seed2: nat)
    requires |vector| >= 3
    ensures AreSeeds(vector, seed1, seed2)
  {
    hide Hamming;
    var maxoff := |vector| - 2;
    var waste: int := -1;
    seed1, seed2 := 0, 0;
    var k := 1;
    while k < maxoff
      invariant 1 <= k <= maxoff
      invariant if waste == -1 then seed1 == seed2 == 0 && k == 1
                else 1 <= seed1 < seed2 <= maxoff && waste == Hamming(vector[seed1], vector[seed2], SIGLENBIT)
      invariant waste != -1 ==> seed1 < k && FirstFarthest(vector, seed1, seed2, k, maxoff)
    {
      var j := k + 1;
      while j <= maxoff
        invariant k < j <= maxoff + 1
        invariant if waste == -1 then seed1 == seed2 == 0 && k == 1 && j == 2
                  else 1 <= seed1 < seed2 <= maxoff && waste == Hamming(vector[seed1], vector[seed2], SIGLENBIT)
        invariant waste != -1 ==> Earlier(seed1, seed2, k, j) && FirstFarthest(vector, seed1, seed2, k, maxoff)
        invariant waste != -1 ==> forall j' :: k < j' < j ==> Loses(vector, k, j', seed1, seed2)
      {
        var w := HemDist(vector[k], vector[j]);
        if w > waste {
          if waste != -1 { FartherYet(vector, seed1, seed2, k, j); }
          waste, seed1, seed2 := w, k, j;
        }
        j := j + 1;
      }
      k := k + 1;
    }
    if seed1 == 0 || seed2 == 0 {
      seed1, seed2 := 1, 2;
    }
  }

  /** Bit i is set in the key of some entry of the list. */
  ghost predicate SomeAt(vector: seq<Key>, offsets: seq<nat>, i: nat)
    requires i < SIGLENBIT
  {
    exists o :: o in offsets && o < |vector| && HasBit(vector[o], i)
  }

  /** The datum has exactly the bits of the entries in the list. */
  ghost predicate IsUnionAt(k: Key, vector: seq<Key>, offsets: seq<nat>) {
    forall i: nat :: i < SIGLENBIT ==> (HasBit(k, i) <==> SomeAt(vector, offsets, i))
  }

  /** A datum under construction: its flag and its signature in memory. */
  function DatumOf(all: bool, sign: array<bv8>): Key
    requires sign.Length == 16
    reads sign
  {
    if all then AllTrue else Signed(sign[..])
  }

  method CopySeed(seed: Key) returns (all: bool, sign: array<bv8>)
    ensures fresh(sign) && sign.Length == 16 && DatumOf(all, sign) == seed
  {
    all := seed.AllTrue?;
    sign := new bv8[16](i => if seed.Signed? && 0 <= i < 16 then seed.sign[i] else 0);
    assert seed.Signed? ==> sign[..] == seed.sign;
  }

  /** Adding an entry to a half: all-true entries fill the signature, others are ORed into it. */
  method Absorb(all: bool, sign: array<bv8>, e: Key)
    requires sign.Length == 16
    modifies sign
    ensures forall i: nat :: i < SIGLENBIT ==>
              (HasBit(DatumOf(all, sign), i) <==> HasBit(old(DatumOf(all, sign)), i) || HasBit(e, i))
  {
    if all || e.AllTrue? {
      if !all {
        for j := 0 to SIGLEN
          invariant forall k :: 0 <= k < j ==> sign[k] == 0xff
        {
          sign[j] := 0xff;
        }
        forall i: nat | i < SIGLENBIT ensures Bit(sign[..], i) { FullByte(i % 8); }
      }
    } else {
      var _ := UnionKey(sign, e);
    }
  }

  lemma SomeAtSnoc(vector: seq<Key>, offsets: seq<nat>, o: nat, i: nat)
    requires i < SIGLENBIT && o < |vector|
    ensures SomeAt(vector, offsets + [o], i) <==> SomeAt(vector, offsets, i) || HasBit(vector[o], i)
  {
    hide HasBit;
    if HasBit(vector[o], i) { assert o in offsets + [o]; }
    if SomeAt(vector, offsets, i) {
      var p :| p in offsets && p < |vector| && HasBit(vector[p], i);
      assert p in offsets + [o];
    }
  }

  /** The datum has the bits of the seed and of the entries placed so far. */
  ghost predicate Grown(k: Key, vector: seq<Key>, seed: nat, offsets: seq<nat>)
    requires seed < |vector|
  {
    IsUnionAt(k, vector, [seed] + offsets)
  }

  lemma {:induction false} GrowOne(k: Key, k': Key, vector: seq<Key>, seed: nat, offsets: seq<nat>, o: nat)
    requires seed < |vector| && o < |vector| && Grown(k, vector, seed, offsets)
    requires forall i: nat :: i < SIGLENBIT ==> (HasBit(k', i) <==> HasBit(k, i) || HasBit(vector[o], i))
    ensures Grown(k', vector, seed, offsets + [o])
  {
    hide HasBit, SomeAt;
    assert [seed] + (offsets + [o]) == ([seed] + offsets) + [o];
    forall i: nat | i < SIGLENBIT ensures HasBit(k', i) <==> SomeAt(vector, ([seed] + offsets) + [o], i) {
      SomeAtSnoc(vector, [seed] + offsets, o, i);
    }
  }

  lemma SeedsApart(vector: seq<Key>, seed1: nat, seed2: nat)
    requires |vector| >= 3 && AreSeeds(vector, seed1, seed2)
    ensures 1 <= seed1 < seed2 < |vector|
  {
  }

  lemma GrowStart(vector: seq<Key>, seed: nat)
    requires seed < |vector|
    ensures Grown(vector[seed], vector, seed, [])
  {
    hide HasBit;
    assert [seed] + [] == [seed];
    forall i: nat | i < SIGLENBIT ensures HasBit(vector[seed], i) <==> SomeAt(vector, [seed], i) {
      if HasBit(vector[seed], i) { assert seed in [seed]; }
    }
  }

  /** Once the seed itself is placed, the datum is the union of the placed entries. */
  lemma GrownIsUnion(k: Key, vector: seq<Key>, seed: nat, offsets: seq<nat>)
    requires seed < |vector| && Grown(k, vector, seed, offsets) && seed in offsets
    ensures IsUnionAt(k, vector, offsets)
  {
    hide HasBit;
    forall i: nat | i < SIGLENBIT ensures SomeAt(vector, [seed] + offsets, i) <==> SomeAt(vector, offsets, i) {
      if SomeAt(vector, offsets, i) {
        var p :| p in offsets && p < |vector| && HasBit(vector[p], i);
        assert p in [seed] + offsets;
      }
    }
  }

  lemma SeedThere(k: Key, vector: seq<Key>, seed: nat, offsets: seq<nat>)
    requires seed < |vector| && Grown(k, vector, seed, offsets)
    ensures forall i: nat :: i < SIGLENBIT ==> (HasBit(k, i) <==> HasBit(k, i) || HasBit(vector[seed], i))
  {
    hide HasBit;
    forall i: nat | i < SIGLENBIT && HasBit(vector[seed], i) ensures HasBit(k, i) {
      assert seed in [seed] + offsets;
      assert SomeAt(vector, [seed] + offsets, i);
    }
  }

  /** An entry is placed in the half that starts from the seed; the seed itself is already in the datum. */
  method Place(all: bool, sign: array<bv8>, vector: seq<Key>, seed: nat, ghost offsets: seq<nat>, j: nat)
    requires sign.Length == 16 && seed < |vector| && j < |vector| && Grown(DatumOf(all, sign), vector, seed, offsets)
    modifies sign
    ensures Grown(DatumOf(all, sign), vector, seed, offsets + [j])
  {
    hide HasBit, SomeAt, Grown;
    ghost var was := DatumOf(all, sign);
    if j == seed {
      SeedThere(was, vector, seed, offsets);
    } else {
      Absorb(all, sign, vector[j]);
    }
    GrowOne(was, DatumOf(all, sign), vector, seed, offsets, j);
  }

  /** In how many of the first n bits an entry differs from a half with these entries. */
  ghost function Apart(vector: seq<Key>, offsets: seq<nat>, o: nat, n: nat): nat
    requires o < |vector| && n <= SIGLENBIT
  {
    if n == 0 then 0
    else Apart(vector, offsets, o, n - 1) + if SomeAt(vector, offsets, n - 1) != HasBit(vector[o], n - 1) then 1 else 0
  }

  lemma {:induction false} GrownApart(k: Key, vector: seq<Key>, seed: nat, offsets: seq<nat>, o: nat, n: nat)
    requires seed < |vector| && o < |vector| && n <= SIGLENBIT && Grown(k, vector, seed, offsets)
    ensures Hamming(k, vector[o], n) == Apart(vector, [seed] + offsets, o, n)
  {
    hide HasBit, SomeAt;
    if n > 0 { GrownApart(k, vector, seed, offsets, o, n - 1); }
  }

  /** The left half takes an entry that is nearer to it, where every half pays for the cube of its head start. */
  predicate GoesLeft(alpha: nat, beta: nat, nleft: nat, nright: nat) {
    var ahead := nleft as real - nright as real;
    alpha as real + ahead * ahead * ahead / 10000.0 < beta as real
  }

  /** The halves after the first n entries of the order: seeds in their own half, all others by their distances. */
  ghost function Halves(vector: seq<Key>, seed1: nat, seed2: nat, order: seq<nat>, n: nat): (seq<nat>, seq<nat>)
    requires n <= |order| && forall i :: 0 <= i < |order| ==> order[i] < |vector|
  {
    if n == 0 then ([], [])
    else
      var (left, right) := Halves(vector, seed1, seed2, order, n - 1);
      var o := order[n - 1];
      if o == seed1 || (o != seed2 && Nearer(vector, [seed1] + left, [seed2] + right, o, |left|, |right|))
      then (left + [o], right)
      else (left, right + [o])
  }

  ghost predicate Nearer(vector: seq<Key>, left: seq<nat>, right: seq<nat>, o: nat, nleft: nat, nright: nat)
    requires o < |vector|
  {
    GoesLeft(Apart(vector, left, o, 128), Apart(vector, right, o, 128), nleft, nright)
  }

  /** WISH_F */
  function Wish(a: int, b: int, c: real): real { -(((a - b) * (a - b) * (a - b)) as real) * c }

  lemma WishIs(alpha: nat, beta: nat, nleft: nat, nright: nat)
    ensures alpha as real < beta as real + Wish(nleft, nright, 0.0001) <==> GoesLeft(alpha, beta, nleft, nright)
  {
    CubeAsReal(nleft - nright);
    assert (nleft - nright) as real == nleft as real - nright as real;
  }

  lemma CubeAsReal(x: int)
    ensures (x * x * x) as real == x as real * x as real * x as real
  {
    ProductAsReal(x, x);
    ProductAsReal(x * x, x);
  }

  lemma {:induction false} ProductAsReal(x: int, y: int)
    ensures (x * y) as real == x as real * y as real
    decreases if y < 0 then -y else y
  {
    if y > 0 {
      ProductAsReal(x, y - 1);
      assert x * y == x * (y - 1) + x;
    } else if y < 0 {
      ProductAsReal(x, y + 1);
      assert x * y == x * (y + 1) - x;
    }
  }

  /** ghstore_picksplit, for any order that the cost sort leaves. */
  method PickSplit(vector: seq<Key>, order: seq<nat>)
    returns (left: seq<nat>, right: seq<nat>, ldatum: Key, rdatum: Key, ghost seed1: nat, ghost seed2: nat)
    requires |vector| >= 3 && Arranged(order, |vector|)
    ensures AreSeeds(vector, seed1, seed2)
    ensures forall i :: 0 <= i < |order| ==> order[i] < |vector|
    ensures (left, right) == Halves(vector, seed1, seed2, order, |order|)
    ensures Splits(left, right, |vector|)
    ensures IsUnionAt(ldatum, vector, left) && IsUnionAt(rdatum, vector, right)
  {
    hide Grown, IsUnionAt, Hamming, Apart, Arranged, Placed, DatumOf, Wish, GoesLeft, AreSeeds;
    var seedL, seedR := Seeds(vector);
    SeedsApart(vector, seedL, seedR);
    seed1, seed2 := seedL, seedR;
    forall i | 0 <= i < |order| ensures order[i] < |vector| { InRange(order, |vector|, i); }
    var lall, lsign := CopySeed(vector[seedL]);
    var rall, rsign := CopySeed(vector[seedR]);
    GrowStart(vector, seed1);
    GrowStart(vector, seed2);
    left, right := [], [];
    assert Placed([], [], order, 0) by { NothingPlaced(order); }
    for k := 0 to |order|
      invariant fresh(lsign) && fresh(rsign) && lsign != rsign && lsign.Length == rsign.Length == 16
      invariant Placed(left, right, order, k)
      invariant (left, right) == Halves(vector, seed1, seed2, order, k)
      invariant seed1 in order[..k] ==> seed1 in left
      invariant seed2 in order[..k] ==> seed2 in right
      invariant Grown(DatumOf(lall, lsign), vector, seed1, left)
      invariant Grown(DatumOf(rall, rsign), vector, seed2, right)
    {
      var j := order[k];
      PlaceNext(left, right, order, k);
      var toLeft := j == seedL;
      if j != seedL && j != seedR {
        var alpha := HemDist(DatumOf(lall, lsign), vector[j]);
        var beta := HemDist(DatumOf(rall, rsign), vector[j]);
        GrownApart(DatumOf(lall, lsign), vector, seed1, left, j, SIGLENBIT);
        GrownApart(DatumOf(rall, rsign), vector, seed2, right, j, SIGLENBIT);
        WishIs(alpha, beta, |left|, |right|);
        toLeft := alpha as real < beta as real + Wish(|left|, |right|, 0.0001);
      }
      if toLeft {
        Place(lall, lsign, vector, seedL, left, j);
        left := left + [j];
      } else {
        Place(rall, rsign, vector, seedR, right, j);
        right := right + [j];
      }
    }
    assert order[..|order|] == order;
    AllPlaced(left, right, order, |vector|);
    There(order, |vector|, seed1);
    There(order, |vector|, seed2);
    ldatum, rdatum := DatumOf(lall, lsign), DatumOf(rall, rsign);
    GrownIsUnion(ldatum, vector, seed1, left);
    GrownIsUnion(rdatum, vector, seed2, right);
  }

  // ---------------------------------------------------------------- searching

  /** The bits a query looks for. */
  ghost predicate Admits(k: Key, q: Query, hash: Str -> nat) {
    match q
    case Contains(tmpl) => forall i :: 0 <= i < |tmpl| ==> AdmitsItem(k, tmpl[i], hash)
    case Exists(key) => AdmitsText(k, key, hash)
    case ExistsAll(keys) => forall i :: 0 <= i < |keys| && keys[i].Some? ==> AdmitsText(k, keys[i].value, hash)
    case ExistsAny(keys) =>
      k.AllTrue? || exists i :: 0 <= i < |keys| && keys[i].Some? && AdmitsText(k, keys[i].value, hash)
  }

  predicate AdmitsText(k: Key, t: Str, hash: Str -> nat) {
    HasBit(k, hash(t) % 128)
  }

  predicate AdmitsItem(k: Key, item: Item, hash: Str -> nat) {
    AdmitsText(k, item.key, hash) && (item.val.Some? ==> AdmitsText(k, item.val.value, hash))
  }

  /** ghstore_consistent */
  method Consistent(k: Key, q: Query, hash: Str -> nat) returns (res: bool, recheck: bool)
    ensures res <==> Admits(k, q, hash)
    ensures recheck
  {
    hide HasBit;
    res, recheck := true, true;
    if k.AllTrue? {
      AllTrueAdmits(q, hash);
      return;
    }
    match q {
      case Contains(tmpl) =>
        var i := 0;
        while res && i < |tmpl|
          invariant 0 <= i <= |tmpl|
          invariant if res then forall j :: 0 <= j < i ==> AdmitsItem(k, tmpl[j], hash)
                    else exists j :: 0 <= j < |tmpl| && !AdmitsItem(k, tmpl[j], hash)
        {
          if AdmitsText(k, tmpl[i].key, hash) {
            if tmpl[i].val.Some? && !AdmitsText(k, tmpl[i].val.value, hash) {
              res := false;
            }
          } else {
            res := false;
          }
          assert res <==> AdmitsItem(k, tmpl[i], hash);
          i := i + 1;
        }
      case Exists(key) =>
        res := AdmitsText(k, key, hash);
      case ExistsAll(keys) =>
        var i := 0;
        while res && i < |keys|
          invariant 0 <= i <= |keys|
          invariant if res then forall j :: 0 <= j < i && keys[j].Some? ==> AdmitsText(k, keys[j].value, hash)
                    else exists j :: 0 <= j < |keys| && keys[j].Some? && !AdmitsText(k, keys[j].value, hash)
        {
          if keys[i].Some? && !AdmitsText(k, keys[i].value, hash) {
            res := false;
          }
          i := i + 1;
        }
      case ExistsAny(keys) =>
        res := false;
        var i := 0;
        while !res && i < |keys|
          invariant 0 <= i <= |keys|
          invariant if !res then forall j :: 0 <= j < i && keys[j].Some? ==> !AdmitsText(k, keys[j].value, hash)
                    else exists j :: 0 <= j < |keys| && keys[j].Some? && AdmitsText(k, keys[j].value, hash)
        {
          if keys[i].Some? && AdmitsText(k, keys[i].value, hash) {
            res := true;
          }
          i := i + 1;
        }
    }
  }

  lemma AllTrueAdmits(q: Query, hash: Str -> nat)
    ensures Admits(AllTrue, q, hash)
  {
  }

  // ---------------------------------------------------------------- every way a key comes about

  /** A row's signature, or a key made from the keys of its parts: by ghstore_union, as a datum of
      ghstore_picksplit, or from one part by compression. Each of these has exactly the bits of its parts. */
  datatype History = Row(items: seq<Item>, leafKey: Key) | Made(key: Key, parts: seq<History>)

  function KeyOf(h: History): Key { if h.Row? then h.leafKey else h.key }

  ghost predicate WellBuilt(h: History, hash: Str -> nat) {
    match h
    case Row(items, k) => forall i: nat :: i < SIGLENBIT ==> (HasBit(k, i) <==> SomeHashed(hash, items, i))
    case Made(k, parts) =>
      && (forall p :: p in parts ==> WellBuilt(p, hash))
      && (forall i: nat :: i < SIGLENBIT ==> (HasBit(k, i) <==> exists p :: p in parts && HasBit(KeyOf(p), i)))
  }

  ghost predicate Holds(h: History, row: seq<Item>) {
    if h.Row? then row == h.items else exists p :: p in h.parts && Holds(p, row)
  }

  /** Every bit of a row below is set in the key. */
  lemma {:induction false} RowBitsSet(h: History, hash: Str -> nat, row: seq<Item>, i: nat)
    requires WellBuilt(h, hash) && Holds(h, row) && i < SIGLENBIT && SomeHashed(hash, row, i)
    ensures HasBit(KeyOf(h), i)
    decreases h
  {
    hide HasBit, SomeHashed;
    if h.Made? {
      var p :| p in h.parts && Holds(p, row);
      RowBitsSet(p, hash, row, i);
    }
  }

  lemma RowTextSet(h: History, hash: Str -> nat, row: seq<Item>, item: Item, t: Str)
    requires WellBuilt(h, hash) && Holds(h, row) && item in row && (item.key == t || item.val == Some(t))
    ensures AdmitsText(KeyOf(h), t, hash)
  {
    hide WellBuilt, Holds, HasBit;
    assert Hashed(hash, item, HashVal(hash, t));
    RowBitsSet(h, hash, row, HashVal(hash, t));
  }

  /** The signature index has no false negatives, for any hash function and any history of its keys. */
  lemma {:induction false} NoRowLost(h: History, hash: Str -> nat, row: seq<Item>, q: Query)
    requires WellBuilt(h, hash) && Holds(h, row) && Satisfies(row, q)
    ensures Admits(KeyOf(h), q, hash)
  {
    hide WellBuilt, Holds, AdmitsText;
    match q {
      case Contains(tmpl) =>
        forall i | 0 <= i < |tmpl| ensures AdmitsItem(KeyOf(h), tmpl[i], hash) {
          RowTextSet(h, hash, row, tmpl[i], tmpl[i].key);
          if tmpl[i].val.Some? { RowTextSet(h, hash, row, tmpl[i], tmpl[i].val.value); }
        }
      case Exists(key) =>
        KeySet(h, hash, row, key);
      case ExistsAll(keys) =>
        forall i | 0 <= i < |keys| && keys[i].Some? ensures AdmitsText(KeyOf(h), keys[i].value, hash) {
          KeySet(h, hash, row, keys[i].value);
        }
      case ExistsAny(keys) =>
        var i :| 0 <= i < |keys| && keys[i].Some? && HasKey(row, keys[i].value);
        KeySet(h, hash, row, keys[i].value);
    }
  }

  lemma KeySet(h: History, hash: Str -> nat, row: seq<Item>, key: Str)
    requires WellBuilt(h, hash) && Holds(h, row) && HasKey(row, key)
    ensures AdmitsText(KeyOf(h), key, hash)
  {
    hide WellBuilt, Holds, AdmitsText;
    var i :| 0 <= i < |row| && row[i].key == key;
    RowTextSet(h, hash, row, row[i], key);
  }
}
