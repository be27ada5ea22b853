/** The packed hstore: two 32-bit words per pair that give where its key and its value end. */
module HstoreFormat {
  import opened Bytes
  import opened Options

  type Str = seq<byte>
  type word = w: int | 0 <= w < 0x1_0000_0000

  /** One key with its value, or null. */
  datatype Item = Item(key: Str, val: Option<Str>)

  // ---------------------------------------------------------------- HEntry words

  const HENTRY_ISFIRST := 0x8000_0000
  const HENTRY_ISNULL := 0x4000_0000
  const POS_LIMIT := 0x4000_0000    // HENTRY_POSMASK + 1
  const HS_FLAG_NEWVERSION := 0x8000_0000
  const HSTORE_MAX_LEN := 0x3FFF_FFFF
  const MAX_ALLOC_SIZE := 0x3FFF_FFFF

  predicate IsFirst(e: word) { e >= HENTRY_ISFIRST }
  predicate IsNull(e: word) { e / HENTRY_ISNULL % 2 == 1 }
  function EndPos(e: word): nat { e % POS_LIMIT }

  function Entry(first: bool, isnull: bool, end: nat): (e: word)
    requires end < POS_LIMIT
    ensures IsFirst(e) == first && IsNull(e) == isnull && EndPos(e) == end
  {
    (if first then HENTRY_ISFIRST else 0) + (if isnull then HENTRY_ISNULL else 0) + end
  }

  /** The three fields determine the word. */
  lemma EntryUnique(e: word)
    ensures e == Entry(IsFirst(e), IsNull(e), EndPos(e))
  {
  }

  // ---------------------------------------------------------------- HStore

  /** The varlena size, the count word with its flags, the entries and the string area. */
  datatype HStore = HStore(varsize: nat, size: word, entries: seq<word>, str: Str)

  /** HS_COUNT */
  function Count(h: HStore): nat { h.size % 0x1000_0000 }

  /** CALCDATASIZE */
  function DataSize(count: nat, lenstr: nat): nat { count * 2 * 4 + 8 + lenstr }

  /** HSE_OFF */
  function Off(entries: seq<word>, k: nat): nat
    requires k < |entries|
  {
    if IsFirst(entries[k]) || k == 0 then 0 else EndPos(entries[k - 1])
  }

  /** HSE_LEN */
  function Len(entries: seq<word>, k: nat): int
    requires k < |entries|
  {
    EndPos(entries[k]) - Off(entries, k)
  }

  /** The layout every macro relies on. */
  ghost predicate Layout(h: HStore) {
    && |h.entries| == 2 * Count(h)
    && (forall k :: 0 <= k < |h.entries| ==> (IsFirst(h.entries[k]) <==> k == 0))
    && (forall k: nat :: k < |h.entries| ==> 0 <= Len(h.entries, k) && EndPos(h.entries[k]) <= |h.str|)
  }

  /** The string that entry k delimits. */
  function Text(h: HStore, k: nat): Str
    requires Layout(h) && k < |h.entries|
  {
    h.str[Off(h.entries, k)..EndPos(h.entries[k])]
  }

  /** HS_KEY, HS_VAL and HS_VALISNULL of pair i. */
  function ItemAt(h: HStore, i: nat): Item
    requires Layout(h) && i < Count(h)
  {
    Item(Text(h, 2 * i), if IsNull(h.entries[2 * i + 1]) then None else Some(Text(h, 2 * i + 1)))
  }

  function Decode(h: HStore): (items: seq<Item>)
    requires Layout(h)
    ensures |items| == Count(h)
  {
    seq(Count(h), i requires 0 <= i < Count(h) => ItemAt(h, i))
  }

  // ---------------------------------------------------------------- what a list of pairs packs to

  function ValLen(item: Item): nat { if item.val.None? then 0 else |item.val.value| }

  function ItemText(item: Item): Str { item.key + if item.val.None? then [] else item.val.value }

  /** The string area: keys and values in order. */
  function Data(items: seq<Item>): Str {
    if items == [] then [] else Data(items[..|items| - 1]) + ItemText(items[|items| - 1])
  }

  /** Where pair i starts in the string area. */
  function Start(items: seq<Item>, i: nat): nat
    requires i <= |items|
  {
    if i == 0 then 0 else Start(items, i - 1) + |items[i - 1].key| + ValLen(items[i - 1])
  }

  /** The two words of pair i. */
  ghost predicate WordsAt(entries: seq<word>, items: seq<Item>, i: nat)
    requires i < |items| && 2 * i + 1 < |entries|
  {
    && Start(items, i + 1) < POS_LIMIT
    && entries[2 * i] == Entry(i == 0, false, Start(items, i) + |items[i].key|)
    && entries[2 * i + 1] == Entry(false, items[i].val.None?, Start(items, i + 1))
  }

  /** h is the exact packing of the items. */
  ghost predicate Packs(h: HStore, items: seq<Item>) {
    && |items| < 0x1000_0000 && h.size == HS_FLAG_NEWVERSION + |items|
    && |h.entries| == 2 * |items|
    && (forall i: nat :: i < |items| ==> WordsAt(h.entries, items, i))
    && h.str == Data(items)
    && h.varsize == DataSize(|items|, |h.str|)
  }

  /** How many bytes the keys and values of the first n pairs take. */
  function TextLength(items: seq<Item>, n: nat): nat
    requires n <= |items|
  {
    if n == 0 then 0
    else
      var item := items[n - 1];
      TextLength(items, n - 1) + |item.key| + if item.val.Some? then |item.val.value| else 0
  }

  lemma {:induction false} StartIs(items: seq<Item>, n: nat)
    requires n <= |items|
    ensures Start(items, n) == TextLength(items, n)
  {
    if n > 0 { StartIs(items, n - 1); }
  }

  /** The words of a packed value bit by bit: the end of each text, bit 31 on the first word, bit 30 on null values. */
  lemma PackedWords(h: HStore, items: seq<Item>, i: nat)
    requires Packs(h, items) && i < |items|
    ensures h.size == 2147483648 + |items| && h.varsize == 8 + 8 * |items| + TextLength(items, |items|)
    ensures h.entries[2 * i] == TextLength(items, i) + |items[i].key| + if i == 0 then 2147483648 else 0
    ensures h.entries[2 * i + 1] == TextLength(items, i + 1) + if items[i].val.None? then 1073741824 else 0
  {
    assert WordsAt(h.entries, items, i);
    StartIs(items, i);
    StartIs(items, i + 1);
    StartIs(items, |items|);
    DataLength(items);
  }

  lemma {:induction false} StartMonotone(items: seq<Item>, i: nat, j: nat)
    requires i <= j <= |items|
    ensures Start(items, i) <= Start(items, j)
    decreases j
  {
    if i < j { StartMonotone(items, i, j - 1); }
  }

  lemma {:induction false} StartOfPrefix(items: seq<Item>, n: nat, i: nat)
    requires i <= n <= |items|
    ensures Start(items[..n], i) == Start(items, i)
  {
    if i > 0 { StartOfPrefix(items, n, i - 1); }
  }

  /** The string area is as long as the last pair's end, and pair i sits at its start. */
  lemma {:induction false} DataAt(items: seq<Item>, i: nat)
    requires i < |items|
    ensures |Data(items)| == Start(items, |items|) && Start(items, i + 1) <= |Data(items)|
    ensures Start(items, i + 1) == Start(items, i) + |ItemText(items[i])|
    ensures Data(items)[Start(items, i)..Start(items, i + 1)] == ItemText(items[i])
    decreases |items|
  {
    var n := |items| - 1;
    var init := items[..n];
    DataLength(items);
    DataLength(init);
    StartOfPrefix(items, n, n);
    StartMonotone(items, i + 1, |items|);
    assert Start(items, i + 1) == Start(items, i) + |ItemText(items[i])|;
    assert Data(items) == Data(init) + ItemText(items[n]);
    hide Data, Start, ItemText;
    if i < n {
      DataAt(init, i);
      StartOfPrefix(items, n, i);
      StartOfPrefix(items, n, i + 1);
      SliceOfLeft(Data(init), ItemText(items[n]), Start(items, i), Start(items, i + 1));
    } else {
      SliceOfRight(Data(init), ItemText(items[n]));
    }
  }

  lemma SliceOfLeft(a: Str, b: Str, i: nat, j: nat)
    requires i <= j <= |a|
    ensures (a + b)[i..j] == a[i..j]
  {
  }

  lemma SliceOfRight(a: Str, b: Str)
    ensures (a + b)[|a|..|a + b|] == b
  {
  }

  lemma DataSnoc(items: seq<Item>, i: nat)
    requires i < |items|
    ensures Data(items[..i + 1]) == Data(items[..i]) + ItemText(items[i])
  {
    assert items[..i + 1][..i] == items[..i];
  }

  lemma {:induction false} DataLength(items: seq<Item>)
    ensures |Data(items)| == Start(items, |items|)
  {
    if items != [] {
      DataLength(items[..|items| - 1]);
      StartOfPrefix(items, |items| - 1, |items| - 1);
    }
  }

  /** A packing reads back as the pairs it was made from. */
  lemma {:induction false} PackedReadsBack(h: HStore, items: seq<Item>)
    requires Packs(h, items)
    ensures Layout(h) && Decode(h) == items
  {
    assert |h.entries| == 2 * Count(h) == 2 * |items|;
    hide IsFirst, IsNull, EndPos, Count, Packs, Start;
    forall k: nat | k < |h.entries|
      ensures (IsFirst(h.entries[k]) <==> k == 0) && 0 <= Len(h.entries, k) && EndPos(h.entries[k]) <= |h.str|
    {
      PackedEntry(h, items, k / 2);
    }
    forall i | 0 <= i < |items| ensures ItemAt(h, i) == items[i] {
      PackedItem(h, items, i);
    }
  }

  lemma {:induction false} PackedItem(h: HStore, items: seq<Item>, i: nat)
    requires Packs(h, items) && Layout(h) && i < |items| == Count(h)
    ensures ItemAt(h, i) == items[i]
  {
    hide IsFirst, IsNull, EndPos, Count, Layout, Start, Packs, Data;
    PackedEntry(h, items, i);
    DataAt(items, i);
    var t := h.str[Start(items, i)..Start(items, i + 1)];
    assert Text(h, 2 * i) == t[..|items[i].key|];
    assert Text(h, 2 * i + 1) == t[|items[i].key|..];
  }

  /** Offsets and ends of the two entries of pair i. */
  lemma {:induction false} PackedEntry(h: HStore, items: seq<Item>, i: nat)
    requires Packs(h, items) && i < |items|
    ensures 2 * i + 1 < |h.entries|
    ensures IsFirst(h.entries[2 * i]) <==> i == 0
    ensures !IsFirst(h.entries[2 * i + 1])
    ensures Off(h.entries, 2 * i) == Start(items, i)
    ensures EndPos(h.entries[2 * i]) == Off(h.entries, 2 * i + 1) == Start(items, i) + |items[i].key|
    ensures EndPos(h.entries[2 * i + 1]) == Start(items, i + 1) <= |h.str|
    ensures IsNull(h.entries[2 * i + 1]) == items[i].val.None? && h.str == Data(items)
  {
    assert WordsAt(h.entries, items, i);
    DataAt(items, i);
    if i > 0 { assert WordsAt(h.entries, items, i - 1); }
  }

  /** Layout without slack: flags and sizes are exactly those of a packing. */
  ghost predicate WellFormed(h: HStore) {
    && Layout(h)
    && h.size == HS_FLAG_NEWVERSION + Count(h)
    && |h.str| == (if Count(h) == 0 then 0 else EndPos(h.entries[2 * Count(h) - 1]))
    && h.varsize == DataSize(Count(h), |h.str|)
    && (forall i: nat :: i < Count(h) ==> !IsNull(h.entries[2 * i]))
    && (forall i: nat :: i < Count(h) && IsNull(h.entries[2 * i + 1]) ==> Len(h.entries, 2 * i + 1) == 0)
  }

  /** What the two entries of pair i say about the decoded pair. */
  lemma {:induction false} DecodedEntry(h: HStore, i: nat)
    requires WellFormed(h) && i < Count(h)
    ensures 2 * i + 1 < |h.entries|
    ensures var e, item := h.entries, Decode(h)[i];
            var start := if i == 0 then 0 else EndPos(e[2 * i - 1]);
            && item.key == h.str[start..EndPos(e[2 * i])]
            && item.val == (if IsNull(e[2 * i + 1]) then None else Some(h.str[EndPos(e[2 * i])..EndPos(e[2 * i + 1])]))
            && start <= EndPos(e[2 * i]) <= EndPos(e[2 * i + 1]) <= |h.str|
            && (IsNull(e[2 * i + 1]) ==> EndPos(e[2 * i + 1]) == EndPos(e[2 * i]))
            && (IsFirst(e[2 * i]) <==> i == 0) && !IsFirst(e[2 * i + 1]) && !IsNull(e[2 * i])
  {
    hide IsFirst, IsNull, EndPos, Count;
    assert Len(h.entries, 2 * i) >= 0 && Len(h.entries, 2 * i + 1) >= 0;
    assert Decode(h)[i] == ItemAt(h, i);
  }

  lemma {:induction false} StartOfDecoded(h: HStore, i: nat)
    requires WellFormed(h) && i <= Count(h)
    ensures Start(Decode(h), i) == if i == 0 then 0 else EndPos(h.entries[2 * i - 1])
  {
    hide WellFormed, Decode, IsFirst, IsNull, EndPos, Count;
    if i > 0 {
      StartOfDecoded(h, i - 1);
      DecodedEntry(h, i - 1);
    }
  }

  lemma {:induction false} DecodedWords(h: HStore, i: nat)
    requires WellFormed(h) && i < Count(h)
    ensures WordsAt(h.entries, Decode(h), i)
  {
    hide WellFormed, Decode, IsFirst, IsNull, EndPos, Entry, Count, Start;
    StartOfDecoded(h, i);
    StartOfDecoded(h, i + 1);
    DecodedEntry(h, i);
    EntryUnique(h.entries[2 * i]);
    EntryUnique(h.entries[2 * i + 1]);
    EndPosBound(h.entries[2 * i + 1]);
  }

  lemma EndPosBound(e: word)
    ensures EndPos(e) < POS_LIMIT
  {
  }

  /** A well-formed hstore is the packing of the pairs it decodes to. */
  lemma {:induction false} WellFormedPacks(h: HStore)
    requires WellFormed(h)
    ensures Packs(h, Decode(h))
  {
    hide Layout, Decode, IsFirst, IsNull, EndPos, Entry, WordsAt, Data, Start;
    var items := Decode(h);
    LayoutCount(h);
    forall i: nat | i < |items| ensures WordsAt(h.entries, items, i) {
      DecodedWords(h, i);
    }
    DecodedStr(h);
  }

  lemma LayoutCount(h: HStore)
    requires Layout(h)
    ensures |h.entries| == 2 * Count(h)
  {
  }

  lemma DecodedStr(h: HStore)
    requires WellFormed(h)
    ensures h.str == Data(Decode(h))
  {
    hide Layout, Decode, IsFirst, IsNull, EndPos, Count, Data, Start;
    DecodedData(h, Count(h));
    StartOfDecoded(h, Count(h));
    assert Decode(h)[..Count(h)] == Decode(h);
  }

  lemma DecodedText(h: HStore, i: nat)
    requires WellFormed(h) && i < Count(h)
    ensures Start(Decode(h), i) <= Start(Decode(h), i + 1) <= |h.str|
    ensures ItemText(Decode(h)[i]) == h.str[Start(Decode(h), i)..Start(Decode(h), i + 1)]
  {
    hide Layout, Decode, IsFirst, IsNull, EndPos, Count, Start;
    StartOfDecoded(h, i);
    StartOfDecoded(h, i + 1);
    DecodedEntry(h, i);
  }

  lemma {:induction false} DecodedData(h: HStore, n: nat)
    requires WellFormed(h) && n <= Count(h)
    ensures Start(Decode(h), n) <= |h.str| && Data(Decode(h)[..n]) == h.str[..Start(Decode(h), n)]
  {
    hide Layout, Decode, Count, ItemText;
    if n > 0 {
      hide Data, Start;
      DecodedData(h, n - 1);
      DecodedText(h, n - 1);
      DataSnoc(Decode(h), n - 1);
    }
  }

  /** And every packing is well formed. */
  lemma PackedWellFormed(h: HStore, items: seq<Item>)
    requires Packs(h, items)
    ensures WellFormed(h) && Decode(h) == items
  {
    PackedReadsBack(h, items);
    PackedEnd(h, items);
    hide IsFirst, IsNull, EndPos, Count, Layout, Start, Decode, Data, Packs, Len;
    forall i: nat | i < |items|
      ensures !IsNull(h.entries[2 * i]) && (IsNull(h.entries[2 * i + 1]) ==> Len(h.entries, 2 * i + 1) == 0)
    {
      PackedNulls(h, items, i);
    }
  }

  lemma PackedEnd(h: HStore, items: seq<Item>)
    requires Packs(h, items)
    ensures |items| == Count(h) && h.size == HS_FLAG_NEWVERSION + Count(h) && |h.entries| == 2 * |items|
    ensures h.varsize == DataSize(Count(h), |h.str|)
    ensures |h.str| == if items == [] then 0 else EndPos(h.entries[2 * |items| - 1])
  {
    DataLength(items);
    assert |items| == Count(h);
    hide IsFirst, IsNull, EndPos, Count, Data;
    if items != [] { PackedEntry(h, items, |items| - 1); }
  }

  lemma PackedNulls(h: HStore, items: seq<Item>, i: nat)
    requires Packs(h, items) && i < |items|
    ensures 2 * i + 1 < |h.entries| && !IsNull(h.entries[2 * i])
    ensures IsNull(h.entries[2 * i + 1]) ==> Len(h.entries, 2 * i + 1) == 0
  {
    PackedEntry(h, items, i);
    assert WordsAt(h.entries, items, i);
  }

  /** Packings of the same pairs are the same hstore. */
  lemma PacksUnique(g: HStore, h: HStore, items: seq<Item>)
    requires Packs(g, items) && Packs(h, items)
    ensures g == h
  {
    forall k | 0 <= k < |g.entries| ensures g.entries[k] == h.entries[k] {
      assert WordsAt(g.entries, items, k / 2) && WordsAt(h.entries, items, k / 2);
    }
  }
}
