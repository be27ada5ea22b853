/** Hstores that are stored and written without complaint and cannot be read back, for their number of pairs. */
module HstoreLimits {
  import opened Bytes
  import opened HstoreBinary
  import opened HstoreFormat
  import opened HstorePairs
  import opened HstoreRoundTrip
  import opened HstoreText
  import opened Options

  // ---------------------------------------------------------------- numbered keys

  const BASE := 80
  const NUMBERS := BASE * BASE * BASE * BASE

  function Digit(n: nat): byte
    requires n < BASE
  {
    40 + n
  }

  /** The number i as four printable characters, the most significant first. */
  function NumberKey(i: nat): (k: Str)
    requires i < NUMBERS
    ensures |k| == 4 && NulFree(k)
  {
    var i1 := i / BASE;
    var i2 := i1 / BASE;
    [Digit(i2 / BASE), Digit(i2 % BASE), Digit(i1 % BASE), Digit(i % BASE)]
  }

  function DigitValue(c: int): int { c - 40 }

  /** The number that the digits of a key stand for. */
  function Number(k: Str): int
    requires |k| == 4
  {
    BASE * (BASE * (BASE * DigitValue(k[0]) + DigitValue(k[1])) + DigitValue(k[2])) + DigitValue(k[3])
  }

  lemma NumberOfKey(i: nat)
    requires i < NUMBERS
    ensures Number(NumberKey(i)) == i
  {
    var i1 := i / BASE;
    var i2 := i1 / BASE;
    assert BASE * (i2 / BASE) + i2 % BASE == i2;
    assert BASE * i2 + i1 % BASE == i1;
  }

  lemma KeysInOrder(i: nat, j: nat)
    requires i < j < NUMBERS
    ensures KeyLess(NumberKey(i), NumberKey(j))
  {
    var a, b := NumberKey(i), NumberKey(j);
    NumberOfKey(i);
    NumberOfKey(j);
    hide NumberKey;
    var k := if a[0] != b[0] then 0 else if a[1] != b[1] then 1 else if a[2] != b[2] then 2 else 3;
    assert a[k] < b[k];
    assert PartAt(a, b, k);
    LeqAt(a, b, k);
  }

  /** Pair i of a large hstore: a numbered key with a null value. */
  function NumberedPair(i: nat): Pair
    requires i < NUMBERS
  {
    Pair(NumberKey(i), [], true, false)
  }

  ghost predicate Numbered(pairs: seq<Pair>) {
    |pairs| <= NUMBERS && forall i :: 0 <= i < |pairs| ==> pairs[i] == NumberedPair(i)
  }

  method NumberedPairs(n: nat) returns (pairs: seq<Pair>)
    requires n <= NUMBERS
    ensures |pairs| == n && Numbered(pairs) && BufLen(pairs) == 4 * n
  {
    hide NumberKey;
    pairs := [];
    for i := 0 to n
      invariant |pairs| == i && Numbered(pairs) && BufLen(pairs) == 4 * i
    {
      BufLenStep(pairs, NumberedPair(i));
      pairs := pairs + [NumberedPair(i)];
    }
  }

  lemma {:induction false} NumberedStrict(pairs: seq<Pair>)
    requires Numbered(pairs)
    ensures StrictItems(Items(pairs))
  {
    hide KeyLess, NumberKey;
    var items := Items(pairs);
    forall i, j | 0 <= i < j < |items| ensures KeyLess(items[i].key, items[j].key) {
      KeysInOrder(i, j);
    }
  }

  lemma {:induction false} NumberedNulFree(items: seq<Item>)
    requires forall i :: 0 <= i < |items| ==> items[i].val.None? && NulFree(items[i].key)
    ensures NulFree(Data(items))
    decreases |items|
  {
    if items != [] { NumberedNulFree(items[..|items| - 1]); }
  }

  /** An hstore of n numbered pairs. */
  method NumberedStore(n: nat) returns (h: HStore)
    requires n <= NUMBERS
    ensures WellFormed(h) && NulFree(h.str) && StrictItems(Decode(h))
    ensures Count(h) == n && h.varsize == 12 * n + 8 && ReservedAll(Decode(h)) <= 18 * n
  {
    hide WellFormed, Layout, Decode, Packs, Items, BufLen, StrictItems, Numbered, Data, ReservedAll, NulFree, Count;
    var pairs := NumberedPairs(n);
    var packed := PackPairs(pairs, 4 * n);
    h := packed.value;
    ghost var items := Items(pairs);
    PackedWellFormed(h, items);
    PackedSize(h, items);
    BufLenIsData(pairs);
    NumberedStrict(pairs);
    ReservedIs(items);
    NumberedItems(pairs);
    NumberedNulFree(items);
    StrOf(h, items);
  }

  lemma NumberedItems(pairs: seq<Pair>)
    requires Numbered(pairs)
    ensures forall i :: 0 <= i < |pairs| ==> Items(pairs)[i].val.None? && NulFree(Items(pairs)[i].key)
  {
    hide NumberKey, NulFree, Items;
  }

  lemma StrOf(h: HStore, items: seq<Item>)
    requires Packs(h, items)
    ensures h.str == Data(items) && Count(h) == |items|
  {
  }

  // ---------------------------------------------------------------- values that do not come back

  /** An hstore with one pair more than parse_hstore can hold is stored and written as text with room to spare, and
      hstore_in refuses the text. */
  method RefusedByIn(qsort: seq<Pair> -> seq<Pair>) returns (h: HStore, text: Result<Str>, r: Result<HStore>)
    requires forall ps :: SortOf(qsort(ps), ps)
    ensures WellFormed(h) && NulFree(h.str) && StrictItems(Decode(h))
    ensures Count(h) == PAIRS_MAX + 1 && h.varsize <= MAX_ALLOC_SIZE
    ensures text == Ok(Print(Decode(h))) && r.Err?
  {
    hide SortOf, Layout, Decode, StrictItems, ReservedAll, NulFree, Count, Print, Parse;
    h := NumberedStore(PAIRS_MAX + 1);
    text := Out(h);
    r := In(text.value, qsort);
    ParsePrinted(h);
  }

  /** An hstore with one pair more than hstore_recv accepts is stored and sent with room to spare, and hstore_recv
      refuses the message. */
  method RefusedByRecv(qsort: seq<Pair> -> seq<Pair>) returns (h: HStore, message: Result<Str>, r: Result<HStore>)
    requires forall ps :: SortOf(qsort(ps), ps)
    ensures WellFormed(h) && NulFree(h.str) && StrictItems(Decode(h))
    ensures Count(h) == MAX_PAIRS + 1 && h.varsize <= MAX_ALLOC_SIZE
    ensures message.Ok? && r.Err?
  {
    hide SortOf, Layout, Decode, StrictItems, ReservedAll, NulFree, Count, Wire, Received, Int32;
    h := NumberedStore(MAX_PAIRS + 1);
    message := Send(h);
    WellFormedPacks(h);
    PackedSize(h, Decode(h));
    WireLength(Decode(h));
    r := Recv(message.value, qsort);
    SentIsReceived(message.value, Decode(h));
  }
}
