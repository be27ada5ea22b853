/** Reading back what hstore_out writes. */
module HstoreRoundTrip {
  import opened Bytes
  import opened HstoreFormat
  import opened HstoreGrammar
  import opened HstorePairs
  import opened HstoreText
  import opened Options

  ghost predicate NulFree(k: Str) { NUL !in k }

  /** A C string can carry the key and the value. */
  ghost predicate Printable(item: Item) { NulFree(item.key) && (item.val.Some? ==> NulFree(item.val.value)) }

  ghost predicate AllPrintable(items: seq<Item>) { forall k :: 0 <= k < |items| ==> Printable(items[k]) }

  /** The longest of the key and the value fits the largest word buffer. */
  predicate Short(item: Item) { |item.key| <= WORD_MAX && (item.val.Some? ==> |item.val.value| <= WORD_MAX) }

  predicate AllShort(items: seq<Item>) { forall k :: 0 <= k < |items| ==> Short(items[k]) }

  /** The pair that parse_hstore makes of a printed item. */
  function ReadBack(item: Item): Pair {
    Pair(item.key, if item.val.None? then NULLTEXT else item.val.value, item.val.None?, true)
  }

  function ReadBackAll(items: seq<Item>): (ps: seq<Pair>)
    ensures |ps| == |items| && forall i :: 0 <= i < |items| ==> ps[i] == ReadBack(items[i])
  {
    if items == [] then [] else [ReadBack(items[0])] + ReadBackAll(items[1..])
  }

  // ---------------------------------------------------------------- the sentence that hstore_out writes

  function UnitOf(c: byte): Unit { if Special(c) then Esc(c) else Plain(c) }

  function UnitsOf(k: Str): seq<Unit> { if k == [] then [] else [UnitOf(k[0])] + UnitsOf(k[1..]) }

  const NULL_UNITS: seq<Unit> := [Plain(78), Plain(85), Plain(76), Plain(76)]

  function ValueOf(v: Option<Str>): Token { if v.None? then Bare(NULL_UNITS) else InQuotes(UnitsOf(v.value)) }

  function EntryOf(lead: Str, item: Item): Entry {
    KeyValue(lead, InQuotes(UnitsOf(item.key)), [], [], ValueOf(item.val), [])
  }

  function DocOf(lead: Str, items: seq<Item>): Doc
    decreases |items|
  {
    if items == [] then Nothing([])
    else if |items| == 1 then Last(EntryOf(lead, items[0]))
    else More(EntryOf(lead, items[0]), DocOf([SPACE], items[1..]))
  }

  lemma {:induction false} UnitsOfText(k: Str)
    ensures SpellUnits(UnitsOf(k)) == Escaped(k) && Chars(UnitsOf(k)) == k && QuotedUnits(UnitsOf(k))
  {
    if k != [] {
      var more := UnitsOf(k[1..]);
      UnitsOfText(k[1..]);
      assert UnitsOf(k)[1..] == more && [k[0]] + k[1..] == k;
      assert SpellUnit(UnitOf(k[0])) == if Special(k[0]) then [BACKSLASH, k[0]] else [k[0]];
    }
  }

  lemma NullUnits()
    ensures SpellUnits(NULL_UNITS) == NULLTEXT && Chars(NULL_UNITS) == NULLTEXT && ValidToken(Bare(NULL_UNITS), false)
  {
    var last: seq<Unit> := [Plain(76)];
    var two: seq<Unit> := [Plain(76), Plain(76)];
    var three: seq<Unit> := [Plain(85), Plain(76), Plain(76)];
    assert two[1..] == last && three[1..] == two && NULL_UNITS[1..] == three;
    assert SpellUnits(last) == [76] && SpellUnits(two) == [76, 76] && SpellUnits(three) == [85, 76, 76];
    assert Chars(last) == [76] && Chars(two) == [76, 76] && Chars(three) == [85, 76, 76];
  }

  lemma ValueOfText(v: Option<Str>)
    ensures SpellToken(ValueOf(v)) == PrintValue(v) && ValidToken(ValueOf(v), false)
    ensures Chars(ValueOf(v).units) == if v.None? then NULLTEXT else v.value
  {
    if v.None? { NullUnits(); } else { UnitsOfText(v.value); }
    hide SpellUnits, Chars, Escaped, UnitsOf;
  }

  lemma EntryOfItem(lead: Str, item: Item)
    requires Spaces(lead)
    ensures ValidEntry(EntryOf(lead, item)) && SpellEntry(EntryOf(lead, item)) == lead + PrintItem(item)
    ensures EntryPair(EntryOf(lead, item)) == ReadBack(item) && (EntryFits(EntryOf(lead, item)) <==> Short(item))
  {
    UnitsOfText(item.key);
    ValueOfText(item.val);
    hide SpellUnits, Chars, Escaped, UnitsOf, ValueOf;
    assert SpellToken(InQuotes(UnitsOf(item.key))) == Quoted(item.key);
    hide SpellToken, Quoted;
    NullIsNull(item);
  }

  lemma NullIsNull(item: Item)
    ensures ValueOf(item.val).Bare? <==> item.val.None?
    ensures SpellsNull(NULLTEXT) && |NULLTEXT| <= WORD_MAX
  {
  }

  /** What hstore_out writes is a sentence of the grammar that means the items. */
  lemma {:induction false} DocOfItems(lead: Str, items: seq<Item>, n: nat)
    requires Spaces(lead) && items != []
    ensures ValidDoc(DocOf(lead, items)) && SpellDoc(DocOf(lead, items)) == lead + Print(items)
    ensures Meaning(DocOf(lead, items)) == ReadBackAll(items)
    ensures Fits(DocOf(lead, items), n) <==> n + |items| <= PAIRS_MAX && AllShort(items)
    decreases |items|
  {
    hide EntryOf, PrintItem, ReadBack, Short, EntryFits, ValidEntry, SpellEntry, EntryPair;
    EntryOfItem(lead, items[0]);
    if |items| > 1 {
      var rest := items[1..];
      DocOfItems([SPACE], rest, n + 1);
      ShortStep(items);
      assert lead + PrintItem(items[0]) + [COMMA] + ([SPACE] + Print(rest)) == lead + Print(items);
    }
  }

  lemma ShortStep(items: seq<Item>)
    requires items != []
    ensures AllShort(items) <==> Short(items[0]) && AllShort(items[1..])
  {
    hide Short;
    if Short(items[0]) && AllShort(items[1..]) {
      forall k | 0 <= k < |items| ensures Short(items[k]) {
        if k > 0 { assert items[1..][k - 1] == items[k]; }
      }
    }
  }

  lemma {:induction false} EscapedNulFree(k: Str)
    requires NulFree(k)
    ensures NulFree(Escaped(k))
  {
    if k != [] { EscapedNulFree(k[1..]); }
  }

  lemma ItemNulFree(item: Item)
    requires Printable(item)
    ensures NulFree(PrintItem(item))
  {
    EscapedNulFree(item.key);
    if item.val.Some? { EscapedNulFree(item.val.value); }
    hide Escaped;
  }

  lemma {:induction false} PrintNulFree(items: seq<Item>)
    requires AllPrintable(items)
    ensures NulFree(Print(items))
  {
    if items != [] {
      ItemNulFree(items[0]);
      hide PrintItem, Printable;
      PrintNulFree(items[1..]);
    }
  }

  /** The text that hstore_out writes is read back as its pairs, unless there are too many or a word is too long. */
  lemma {:induction false} PrintedIsRead(items: seq<Item>)
    requires AllPrintable(items)
    ensures Parse(Print(items))
         == if |items| <= PAIRS_MAX && AllShort(items) then Pairs(ReadBackAll(items)) else Failed
  {
    hide Parse, ValidDoc, Short, Printable;
    var d := DocOf([], items);
    PrintNulFree(items);
    if items != [] {
      NoSpaces();
      DocOfItems([], items, 0);
      assert [] + Print(items) == Print(items);
    }
    hide Print, ReadBackAll, Fits;
    EmptyDoc();
    SpelledIsRead(d);
  }

  lemma EmptyDoc()
    ensures ValidDoc(Nothing([])) && SpellDoc(Nothing([])) == [] == Print([]) && Fits(Nothing([]), 0)
    ensures Meaning(Nothing([])) == [] == ReadBackAll([])
  {
  }

  // ---------------------------------------------------------------- hstores

  /** Keys strictly increasing, as hstoreUniquePairs leaves them. */
  ghost predicate StrictItems(items: seq<Item>) {
    forall i, j :: 0 <= i < j < |items| ==> KeyLess(items[i].key, items[j].key)
  }

  lemma {:induction false} DecodedPrintable(h: HStore, i: nat)
    requires WellFormed(h) && i < Count(h) && NulFree(h.str)
    ensures Printable(Decode(h)[i])
  {
    hide WellFormed, Decode, Count, EndPos, IsNull, IsFirst;
    DecodedEntry(h, i);
  }

  lemma {:induction false} ParsePrinted(h: HStore)
    requires WellFormed(h) && NulFree(h.str)
    ensures Parse(Print(Decode(h)))
         == if Count(h) <= PAIRS_MAX && AllShort(Decode(h)) then Pairs(ReadBackAll(Decode(h))) else Failed
  {
    hide ParseFrom, Print, Layout, Decode, Printable, ReadBackAll, Short;
    var items := Decode(h);
    forall k | 0 <= k < |items| ensures Printable(items[k]) { DecodedPrintable(h, k); }
    PrintedIsRead(items);
  }

  lemma ItemsReadBack(items: seq<Item>)
    ensures Items(ReadBackAll(items)) == items
    ensures StrictItems(items) ==> StrictKeys(ReadBackAll(items))
  {
    hide Items, ReadBackAll, KeyLess;
    var ps := ReadBackAll(items);
    forall k | 0 <= k < |items| ensures Items(ps)[k] == items[k] { assert ps[k] == ReadBack(items[k]); }
  }

  /** Where hstore_in reads what hstore_out wrote, it rebuilds the same hstore, whatever order qsort leaves ties in. */
  lemma {:induction false} TextRoundTrip(h: HStore, sorted: seq<Pair>, g: HStore)
    requires WellFormed(h) && NulFree(h.str) && StrictItems(Decode(h))
    requires var p := Parse(Print(Decode(h)));
             p.Pairs? ==> SortOf(sorted, p.pairs) && Packs(g, Items(Dedup(sorted)))
    ensures Parse(Print(Decode(h))).Pairs? <==> Count(h) <= PAIRS_MAX && AllShort(Decode(h))
    ensures Parse(Print(Decode(h))).Pairs? ==> g == h
  {
    hide Parse, Print, Layout, Decode, Packs, Dedup, Items, ReadBackAll, StrictItems, StrictKeys, SortOf, AllShort;
    var items := Decode(h);
    ParsePrinted(h);
    if Parse(Print(items)).Pairs? {
      ItemsReadBack(items);
      StrictIsFixed(ReadBackAll(items), sorted);
      WellFormedPacks(h);
      PacksUnique(g, h, items);
    }
  }

  /** hstore_in, with qsort as a parameter. */
  method In(text: Str, qsort: seq<Pair> -> seq<Pair>) returns (r: Result<HStore>)
    requires forall ps :: SortOf(qsort(ps), ps)
    ensures match Parse(text)
            case Failed => r.Err?
            case Pairs(ps) =>
              var kept := Dedup(qsort(ps));
              && (r.Err? <==> DataSize(|kept|, BufLen(kept)) > MAX_ALLOC_SIZE)
              && (r.Ok? ==> Packs(r.value, Items(kept)))
    ensures r.Ok? ==> WellFormed(r.value) && LengthThenBytes(Decode(r.value))
  {
    hide Parse, Dedup, BufLen, Packs, Items, SortOf, WellFormed, LengthThenBytes, Decode;
    var state := new HSParser(text);
    var error := state.Run();
    if error {
      return Err;
    }
    var n, ps := |state.pairs|, state.pairs;
    var a := new Pair[n](i requires 0 <= i < n => ps[i]);
    assert a[..] == ps;
    var pcur, buflen := UniquePairs(a, qsort(ps));
    r := PackPairs(a[..pcur], buflen);
    if r.Ok? { PackedInOrder(ps, qsort(ps), r.value); }
  }

  /** A value written by hstore_out and read by hstore_in comes back unchanged exactly if hstore_out can write it and
      it has no more pairs than hstore_in can hold. */
  method OutThenIn(h: HStore, qsort: seq<Pair> -> seq<Pair>) returns (r: Result<HStore>)
    requires WellFormed(h) && NulFree(h.str) && StrictItems(Decode(h))
    requires forall ps :: SortOf(qsort(ps), ps)
    ensures r == if ReservedAll(Decode(h)) > MAX_ALLOC_SIZE || h.varsize > MAX_ALLOC_SIZE || Count(h) > PAIRS_MAX
                 then Err else Ok(h)
  {
    hide Parse, Print, Layout, Decode, Packs, Items, SortOf, ReservedAll, NulFree, StrictItems, Dedup, BufLen, AllShort;
    NothingReserved();
    var text := Out(h);
    if text.Err? {
      return Err;
    }
    r := In(text.value, qsort);
    ghost var items := Decode(h);
    ReservedIsShort(items);
    ParsePrinted(h);
    if Count(h) <= PAIRS_MAX {
      ItemsReadBack(items);
      StrictIsFixed(ReadBackAll(items), qsort(ReadBackAll(items)));
      BufLenIsData(ReadBackAll(items));
      WellFormedPacks(h);
      PackedSize(h, items);
      if r.Ok? {
        PacksUnique(r.value, h, items);
      }
    }
  }

  /** No word that hstore_out can write is too long for hstore_in. */
  lemma {:induction false} ReservedIsShort(items: seq<Item>)
    requires ReservedAll(items) <= MAX_ALLOC_SIZE
    ensures AllShort(items)
    decreases |items|
  {
    if items != [] {
      ReservedIsShort(items[1..]);
      hide AllShort;
      ShortStep(items);
    }
  }

  lemma NothingReserved()
    ensures ReservedAll([]) == 0
  {
  }

  lemma PackedSize(h: HStore, items: seq<Item>)
    requires Packs(h, items)
    ensures h.varsize == DataSize(|items|, |Data(items)|)
  {
  }

  // ---------------------------------------------------------------- sizes

  function Nulls(items: seq<Item>): (n: nat)
    ensures n <= |items|
  {
    if items == [] then 0
    else Nulls(items[..|items| - 1]) + if items[|items| - 1].val.None? then 1 else 0
  }

  /** What hstore_out reserves: eight bytes a pair, two more for a null, and two for each byte of the strings. */
  lemma {:induction false} ReservedIs(items: seq<Item>)
    ensures ReservedAll(items) == 8 * |items| + 2 * Nulls(items) + 2 * |Data(items)|
    decreases |items|
  {
    if items != [] {
      var n := |items| - 1;
      ReservedIs(items[..n]);
      ReservedSnoc(items[..n], items[n]);
      assert items[..n] + [items[n]] == items;
    }
  }

  lemma {:induction false} ReservedSnoc(items: seq<Item>, item: Item)
    ensures ReservedAll(items + [item]) == ReservedAll(items) + Reserved(item)
  {
    if items == [] {
      assert items + [item] == [item] && [item][1..] == [];
    } else {
      ReservedSnoc(items[1..], item);
      assert (items + [item])[1..] == items[1..] + [item];
    }
  }

  /** For every hstore that palloc could have held, the size hstore_out computes fits a C int. */
  lemma ReservedFitsInt(h: HStore)
    requires WellFormed(h) && h.varsize <= MAX_ALLOC_SIZE
    ensures ReservedAll(Decode(h)) < 0x8000_0000
  {
    WellFormedPacks(h);
    ReservedIs(Decode(h));
  }
}
