/** hstore_gist: signatures of 128 bits, their unions, splits and searches. */
module HstoreGist {
  import opened HstoreFormat

  const SIGLEN := 16
  const SIGLENBIT := 128

  type Signature = s: seq<bv8> | |s| == 16 witness seq(16, _ => 0)

  /** GISTTYPE: a signature, or the flag that every bit is set. */
  datatype Key = AllTrue | Signed(sign: Signature)

  /** GETBITBYTE */
  predicate ByteBit(b: bv8, k: nat)
    requires k < 8
  {
    (b >> k) & 1 == 1
  }

  /** GETBIT */
  predicate Bit(s: Signature, i: nat)
    requires i < SIGLENBIT
  {
    ByteBit(s[i / 8], i % 8)
  }

  /** The bits a key stands for. */
  predicate HasBit(k: Key, i: nat)
    requires i < SIGLENBIT
  {
    k.AllTrue? || Bit(k.sign, i)
  }

  /** k has exactly the bits that some key of the list has. */
  ghost predicate IsUnion(k: Key, keys: seq<Key>) {
    forall i: nat :: i < SIGLENBIT ==> (HasBit(k, i) <==> SomeHas(keys, i))
  }

  ghost predicate SomeHas(keys: seq<Key>, i: nat)
    requires i < SIGLENBIT
  {
    exists e :: e in keys && HasBit(e, i)
  }

  // ---------------------------------------------------------------- single bytes

  lemma OrByte(a: bv8, b: bv8, k: nat)
    requires k < 8
    ensures ByteBit(a | b, k) <==> ByteBit(a, k) || ByteBit(b, k)
  {
    if k == 0 { assert ((a | b) >> 0) & 1 == ((a >> 0) & 1) | ((b >> 0) & 1); }
    else if k == 1 { assert ((a | b) >> 1) & 1 == ((a >> 1) & 1) | ((b >> 1) & 1); }
    else if k == 2 { assert ((a | b) >> 2) & 1 == ((a >> 2) & 1) | ((b >> 2) & 1); }
    else if k == 3 { assert ((a | b) >> 3) & 1 == ((a >> 3) & 1) | ((b >> 3) & 1); }
    else if k == 4 { assert ((a | b) >> 4) & 1 == ((a >> 4) & 1) | ((b >> 4) & 1); }
    else if k == 5 { assert ((a | b) >> 5) & 1 == ((a >> 5) & 1) | ((b >> 5) & 1); }
    else if k == 6 { assert ((a | b) >> 6) & 1 == ((a >> 6) & 1) | ((b >> 6) & 1); }
    else { assert ((a | b) >> 7) & 1 == ((a >> 7) & 1) | ((b >> 7) & 1); }
  }

  /** SETBIT on a byte */
  function WithBit(b: bv8, k: nat): bv8
    requires k < 8
  {
    b | (1 << k)
  }

  lemma WithBitSets(b: bv8, k: nat, j: nat)
    requires k < 8 && j < 8
    ensures ByteBit(WithBit(b, k), j) <==> j == k || ByteBit(b, j)
  {
    OrByte(b, 1 << k, j);
    assert ByteBit(1 << k, j) <==> j == k;
  }

  lemma FullByte(k: nat)
    requires k < 8
    ensures ByteBit(0xff, k)
  {
  }

  lemma FullByteOnly(b: bv8)
    requires forall k: nat :: k < 8 ==> ByteBit(b, k)
    ensures b == 0xff
  {
    assert ByteBit(b, 0) && ByteBit(b, 1) && ByteBit(b, 2) && ByteBit(b, 3);
    assert ByteBit(b, 4) && ByteBit(b, 5) && ByteBit(b, 6) && ByteBit(b, 7);
  }

  // ---------------------------------------------------------------- compression

  /** HASH: one bit of the signature is set in place. */
  method SetBit(sign: array<bv8>, i: nat)
    requires sign.Length == 16 && i < SIGLENBIT
    modifies sign
    ensures forall j: nat :: j < SIGLENBIT ==> (Bit(sign[..], j) <==> j == i || Bit(old(sign[..]), j))
  {
    ghost var was := sign[..];
    sign[i / 8] := WithBit(sign[i / 8], i % 8);
    forall j: nat | j < SIGLENBIT ensures Bit(sign[..], j) <==> j == i || Bit(was, j) {
      if j / 8 == i / 8 {
        WithBitSets(was[i / 8], i % 8, j % 8);
      }
    }
  }

  /** The bit a string hashes to; crc32_sz may be any function. */
  function HashVal(hash: Str -> nat, k: Str): nat { hash(k) % SIGLENBIT }

  /** Bit i stands for the key or the value of some pair. */
  ghost predicate Hashed(hash: Str -> nat, item: Item, i: nat) {
    hash(item.key) % 128 == i || (item.val.Some? && hash(item.val.value) % 128 == i)
  }

  ghost predicate SomeHashed(hash: Str -> nat, items: seq<Item>, i: nat) {
    exists item :: item in items && Hashed(hash, item, i)
  }

  /** ghstore_compress of a leaf: exactly the bits of the row's keys and non-null values. */
  method CompressLeaf(hash: Str -> nat, items: seq<Item>) returns (k: Key)
    ensures k.Signed? && forall i: nat :: i < SIGLENBIT ==> (HasBit(k, i) <==> SomeHashed(hash, items, i))
  {
    hide Bit;
    var sign := new bv8[16](_ => 0);
    ZeroSignature(sign[..]);
    for n := 0 to |items|
      invariant forall i: nat :: i < SIGLENBIT ==> (Bit(sign[..], i) <==> SomeHashed(hash, items[..n], i))
    {
      var item := items[n];
      assert items[..n + 1] == items[..n] + [item];
      HashInRange(hash, item.key);
      SetBit(sign, HashVal(hash, item.key));
      if item.val.Some? {
        HashInRange(hash, item.val.value);
        SetBit(sign, HashVal(hash, item.val.value));
      }
      forall i: nat | i < SIGLENBIT ensures Bit(sign[..], i) <==> SomeHashed(hash, items[..n + 1], i) {
        SomeHashedSnoc(hash, items[..n], item, i);
      }
    }
    assert items[..|items|] == items;
    return Signed(sign[..]);
  }

  lemma SomeHashedSnoc(hash: Str -> nat, items: seq<Item>, item: Item, i: nat)
    ensures SomeHashed(hash, items + [item], i) <==> SomeHashed(hash, items, i) || Hashed(hash, item, i)
  {
    if Hashed(hash, item, i) { assert item in items + [item]; }
    if SomeHashed(hash, items, i) {
      var e :| e in items && Hashed(hash, e, i);
      assert e in items + [item];
    }
  }

  lemma HashInRange(hash: Str -> nat, k: Str)
    ensures HashVal(hash, k) < SIGLENBIT
  {
  }

  lemma ZeroSignature(s: Signature)
    requires forall j :: 0 <= j < 16 ==> s[j] == 0
    ensures forall i: nat :: i < SIGLENBIT ==> !Bit(s, i)
  {
  }

  /** ghstore_compress of an inner key: a full signature becomes the flag, the bits stay. */
  method CompressInner(k: Key) returns (r: Key)
    ensures forall i: nat :: i < SIGLENBIT ==> (HasBit(r, i) <==> HasBit(k, i))
    ensures r.AllTrue? <==> forall i: nat :: i < SIGLENBIT ==> HasBit(k, i)
  {
    if k.AllTrue? {
      return k;
    }
    var i := 0;
    while i < SIGLEN
      invariant 0 <= i <= 16 && forall j :: 0 <= j < i ==> k.sign[j] == 0xff
    {
      if k.sign[i] != 0xff {
        ghost var b := MissingBit(k.sign, i);
        assert !HasBit(k, b);
        return k;
      }
      i := i + 1;
    }
    forall b: nat | b < SIGLENBIT ensures HasBit(k, b) { FullByte(b % 8); }
    return AllTrue;
  }

  lemma MissingBit(s: Signature, j: nat) returns (b: nat)
    requires j < 16 && s[j] != 0xff
    ensures b < SIGLENBIT && !Bit(s, b)
  {
    if k: nat :| k < 8 && !ByteBit(s[j], k) {
      b := 8 * j + k;
    } else {
      FullByteOnly(s[j]);
    }
  }

  // ---------------------------------------------------------------- union

  /** unionkey: ORs a signature into the base in place, unless it is all true. */
  method UnionKey(base: array<bv8>, add: Key) returns (all: bool)
    requires base.Length == 16
    modifies base
    ensures all == add.AllTrue?
    ensures all ==> base[..] == old(base[..])
    ensures !all ==> forall i: nat :: i < SIGLENBIT ==> (Bit(base[..], i) <==> Bit(old(base[..]), i) || HasBit(add, i))
  {
    if add.AllTrue? {
      return true;
    }
    ghost var was := base[..];
    for i := 0 to SIGLEN
      invariant forall j :: 0 <= j < i ==> base[j] == was[j] | add.sign[j]
      invariant forall j :: i <= j < 16 ==> base[j] == was[j]
    {
      base[i] := base[i] | add.sign[i];
    }
    forall i: nat | i < SIGLENBIT ensures Bit(base[..], i) <==> Bit(was, i) || HasBit(add, i) {
      OrByte(was[i / 8], add.sign[i / 8], i % 8);
    }
    return false;
  }

  lemma SomeHasSnoc(keys: seq<Key>, e: Key, i: nat)
    requires i < SIGLENBIT
    ensures SomeHas(keys + [e], i) <==> SomeHas(keys, i) || HasBit(e, i)
  {
    hide HasBit;
    if HasBit(e, i) { assert e in keys + [e]; }
    if SomeHas(keys, i) {
      var k :| k in keys && HasBit(k, i);
      assert k in keys + [e];
    }
  }

  /** ghstore_union */
  method Union(entries: seq<Key>) returns (r: Key)
    ensures IsUnion(r, entries)
  {
    hide Bit;
    var base := new bv8[16](_ => 0);
    ZeroSignature(base[..]);
    var i := 0;
    while i < |entries|
      invariant 0 <= i <= |entries| && IsUnion(Signed(base[..]), entries[..i])
    {
      assert entries[..i + 1] == entries[..i] + [entries[i]];
      var all := UnionKey(base, entries[i]);
      if all {
        forall b: nat | b < SIGLENBIT ensures SomeHas(entries, b) { assert HasBit(entries[i], b); }
        return AllTrue;
      }
      forall b: nat | b < SIGLENBIT ensures HasBit(Signed(base[..]), b) <==> SomeHas(entries[..i + 1], b) {
        SomeHasSnoc(entries[..i], entries[i], b);
      }
      i := i + 1;
    }
    assert entries[..|entries|] == entries;
    return Signed(base[..]);
  }
}
