/** hstore_in and hstore_out: the text form of an hstore. */
module HstoreText {
  import opened Bytes
  import opened HstoreFormat
  import opened HstorePairs
  import opened Options

  const NUL: byte := 0
  const SPACE: byte := 32
  const QUOTE: byte := 34
  const COMMA: byte := 44
  const EQUALS: byte := 61
  const GREATER: byte := 62
  const BACKSLASH: byte := 92
  const NULLTEXT: Str := [78, 85, 76, 76]

  predicate IsSpace(c: byte) { c == SPACE || 9 <= c <= 13 }

  /** The character at i of a C string. */
  function At(s: Str, i: nat): byte
    requires i <= |s|
  {
    if i < |s| then s[i] else NUL
  }

  // ---------------------------------------------------------------- reading one word

  datatype Mode = WaitVal | InVal | InEscVal | WaitEscIn | WaitEscEscIn

  /** The outcome of get_val. The scan goes on at next. */
  datatype Scan = NoWord | Word(next: nat, text: Str, escaped: bool) | Bad

  /** What get_val does with a character: go on, with the character stored or not; end the word, on this character or
      before it; find no word; or fail. */
  datatype Move = Go(mode: Mode, put: bool) | Done(back: bool) | NoMore | Wrong

  function Step(mode: Mode, c: byte, ignoreEq: bool): Move {
    match mode
    case WaitVal =>
      if c == QUOTE then Go(InEscVal, false)
      else if c == NUL then NoMore
      else if c == EQUALS && !ignoreEq then Wrong
      else if c == BACKSLASH then Go(WaitEscIn, false)
      else if !IsSpace(c) then Go(InVal, true)
      else Go(WaitVal, false)
    case InVal =>
      if c == BACKSLASH then Go(WaitEscIn, false)
      else if c == EQUALS && !ignoreEq then Done(true)
      else if c == COMMA && ignoreEq then Done(true)
      else if IsSpace(c) then Done(false)
      else if c == NUL then Done(true)
      else Go(InVal, true)
    case InEscVal =>
      if c == BACKSLASH then Go(WaitEscEscIn, false)
      else if c == QUOTE then Done(false)
      else if c == NUL then Wrong
      else Go(InEscVal, true)
    case WaitEscIn => if c == NUL then Wrong else Go(InVal, true)
    case WaitEscEscIn => if c == NUL then Wrong else Go(InEscVal, true)
  }

  function ScanWord(s: Str, i: nat, ignoreEq: bool, mode: Mode, acc: Str, escaped: bool): (r: Scan)
    requires i <= |s|
    ensures r.Word? ==> i <= r.next <= |s| && |acc| <= |r.text| && (mode == WaitVal ==> i < r.next)
    ensures mode != WaitVal ==> !r.NoWord?
    decreases |s| - i
  {
    var c := At(s, i);
    match Step(mode, c, ignoreEq)
    case Go(next, put) =>
      ScanWord(s, i + 1, ignoreEq, next, if put then acc + [c] else acc,
               escaped || (mode == WaitVal && next == InEscVal))
    case Done(back) => Word(if back then i else i + 1, acc, escaped)
    case NoMore => NoWord
    case Wrong => Bad
  }

  // ---------------------------------------------------------------- buffers that double

  /** The size is the first one or twice a size. */
  predicate Doubled(size: nat, first: nat) {
    size == first || (size > first && size % 2 == 0 && Doubled(size / 2, first))
  }

  lemma {:induction false} LargestSize(size: nat, top: nat, first: nat)
    requires Doubled(size, first) && Doubled(top, first) && size <= top < 2 * size
    ensures size == top
  {
    if size > first {
      LargestSize(size / 2, top / 2, first);
    }
  }

  lemma {:induction false} AtLeastFirst(size: nat, first: nat)
    requires Doubled(size, first)
    ensures size >= first
  {
  }

  lemma DoubleOnce(size: nat, first: nat)
    requires Doubled(size, first) && first > 0
    ensures Doubled(size * 2, first)
  {
    AtLeastFirst(size, first);
  }

  /** The word buffer starts with 32 bytes and doubles as long as an allocation allows; it keeps one byte spare. */
  const WORD_BUFFER := 0x2000_0000
  const WORD_MAX := WORD_BUFFER - 1

  /** The array of pairs, 40 bytes each, starts with 16 and doubles as long as an allocation allows. */
  const PAIR_SIZE := 40
  const PAIRS_MAX := 0x100_0000

  lemma WordLimit()
    ensures Doubled(WORD_BUFFER, 32) && WORD_BUFFER <= MAX_ALLOC_SIZE < 2 * WORD_BUFFER
  {
    assert Doubled(0x2_0000, 32);
  }

  lemma PairsLimit()
    ensures Doubled(PAIRS_MAX, 16) && PAIR_SIZE * PAIRS_MAX <= MAX_ALLOC_SIZE < PAIR_SIZE * (2 * PAIRS_MAX)
  {
    assert Doubled(0x1000, 16);
  }

  lemma FirstSize(first: nat)
    ensures Doubled(first, first)
  {
  }

  // ---------------------------------------------------------------- reading all pairs

  datatype State = WKey | WEq | WGt | WVal | WDel

  datatype Parsed = Pairs(pairs: seq<Pair>) | Failed

  function Lowered(c: byte): byte { if 65 <= c <= 90 then c + 32 else c }

  /** pg_strcasecmp(word, "null") == 0 */
  predicate SpellsNull(w: Str) {
    |w| == 4 && Lowered(w[0]) == 110 && Lowered(w[1]) == 117 && Lowered(w[2]) == 108 && Lowered(w[3]) == 108
  }

  function PairRead(key: Str, text: Str, escaped: bool): Pair {
    Pair(key, text, |text| == 4 && !escaped && SpellsNull(text), true)
  }

  function ParseFrom(s: Str, i: nat, st: State, key: Str, pairs: seq<Pair>): Parsed
    requires i <= |s|
    decreases |s| - i
  {
    var c := At(s, i);
    match st
    case WKey =>
      (match ScanWord(s, i, false, WaitVal, [], false)
       case NoWord => Pairs(pairs)
       case Bad => Failed
       case Word(next, text, _) =>
         if |text| > WORD_MAX || |pairs| >= PAIRS_MAX then Failed else ParseFrom(s, next, WEq, text, pairs))
    case WEq =>
      if c == EQUALS then ParseFrom(s, i + 1, WGt, key, pairs)
      else if c != NUL && IsSpace(c) then ParseFrom(s, i + 1, WEq, key, pairs)
      else Failed
    case WGt =>
      if c == GREATER then ParseFrom(s, i + 1, WVal, key, pairs) else Failed
    case WVal =>
      (match ScanWord(s, i, true, WaitVal, [], false)
       case Word(next, text, escaped) =>
         if |text| > WORD_MAX then Failed
         else ParseFrom(s, next, WDel, [], pairs + [PairRead(key, text, escaped)])
       case _ => Failed)
    case WDel =>
      if c == COMMA then ParseFrom(s, i + 1, WKey, [], pairs)
      else if c == NUL then Pairs(pairs)
      else if IsSpace(c) then ParseFrom(s, i + 1, WDel, [], pairs)
      else Failed
  }

  function Parse(s: Str): Parsed { ParseFrom(s, 0, WKey, [], []) }

  /** The scan goes on only past a character of the text, and not without a word once one has begun. */
  lemma StepInside(mode: Mode, c: byte, ignoreEq: bool)
    ensures Step(mode, c, ignoreEq).Go? || (Step(mode, c, ignoreEq).Done? && !Step(mode, c, ignoreEq).back) ==> c != NUL
    ensures Step(mode, c, ignoreEq).Go? && Step(mode, c, ignoreEq).put ==> Step(mode, c, ignoreEq).mode != WaitVal
  {
  }

  // ---------------------------------------------------------------- HSParser

  class HSParser {
    const begin: Str
    var ptr: int
    var word: Str
    var wordlen: nat
    var pairs: seq<Pair>

    constructor (text: Str)
      ensures begin == text
    {
      begin := text;
      ptr, word, wordlen, pairs := 0, [], 0, [];
    }

    /** RESIZEPRSBUF, then the store at cur; it fails exactly if the word would not fit the largest buffer. */
    method Append(c: byte) returns (error: bool)
      requires Doubled(wordlen, 32) && |word| < wordlen <= WORD_BUFFER
      modifies this`word, this`wordlen
      ensures error <==> |old(word)| >= WORD_MAX
      ensures !error ==> word == old(word) + [c] && Doubled(wordlen, 32) && |word| < wordlen <= WORD_BUFFER
    {
      WordLimit();
      if |word| + 1 >= wordlen {
        if wordlen * 2 > MAX_ALLOC_SIZE {
          LargestSize(wordlen, WORD_BUFFER, 32);
          return true;
        }
        if wordlen * 2 > WORD_BUFFER {
          LargestSize(wordlen, WORD_BUFFER, 32);
        }
        wordlen := wordlen * 2;
      }
      word := word + [c];
      return false;
    }

    /** get_val: found and a word, not found at the end of the text, or an error. */
    method GetVal(ignoreEq: bool) returns (found: bool, escaped: bool, error: bool)
      requires 0 <= ptr <= |begin|
      modifies this`ptr, this`word, this`wordlen
      ensures var r := ScanWord(begin, old(ptr), ignoreEq, WaitVal, [], false);
              && (error <==> r.Bad? || (r.Word? && |r.text| > WORD_MAX)) && (found <==> r.Word? && !error)
              && (found ==> ptr == r.next - 1 && word == r.text && escaped == r.escaped && |word| < wordlen)
    {
      hide Doubled;
      FirstSize(32);
      var st := WaitVal;
      wordlen, word, escaped := 32, [], false;
      ghost var r := ScanWord(begin, ptr, ignoreEq, WaitVal, [], false);
      while true
        invariant 0 <= ptr <= |begin| && Doubled(wordlen, 32) && |word| < wordlen <= WORD_BUFFER
        invariant r == ScanWord(begin, ptr, ignoreEq, st, word, escaped)
        decreases |begin| - ptr
      {
        var c := At(begin, ptr);
        var move := Step(st, c, ignoreEq);
        StepInside(st, c, ignoreEq);
        hide Step;
        match move {
          case NoMore => return false, escaped, false;
          case Wrong => return false, escaped, true;
          case Done(back) =>
            if back { ptr := ptr - 1; }
            return true, escaped, false;
          case Go(next, put) =>
            if put {
              error := Append(c);
              if error { return false, escaped, true; }
            }
            escaped := escaped || (st == WaitVal && next == InEscVal);
            st := next;
        }
        ptr := ptr + 1;
      }
    }

    /** parse_hstore */
    method Run() returns (error: bool)
      modifies this
      ensures error <==> Parse(begin).Failed?
      ensures !error ==> pairs == Parse(begin).pairs
    {
      hide Doubled, ScanWord;
      var st, key, escaped, found := WKey, [], false, false;
      var plen: nat := 16;
      ptr, pairs := 0, [];
      FirstSize(16);
      while true
        invariant 0 <= ptr <= |begin| && Doubled(plen, 16) && |pairs| <= plen <= PAIRS_MAX
        invariant st == WEq || st == WGt || st == WVal ==> |pairs| < plen
        invariant Parse(begin) == ParseFrom(begin, ptr, st, key, pairs)
        invariant st != WEq && st != WGt && st != WVal ==> key == []
        decreases |begin| - ptr
      {
        match st {
          case WKey =>
            found, escaped, error := GetVal(false);
            if error { return true; }
            if !found { return false; }
            if |pairs| >= plen {
              PlenLimit(plen);
              if PAIR_SIZE * (plen * 2) > MAX_ALLOC_SIZE { return true; }
              plen := plen * 2;
            }
            key, st := word, WEq;
          case WEq =>
            if At(begin, ptr) == EQUALS {
              st := WGt;
            } else if At(begin, ptr) == NUL || !IsSpace(At(begin, ptr)) {
              return true;
            }
          case WGt =>
            if At(begin, ptr) != GREATER { return true; }
            st := WVal;
          case WVal =>
            found, escaped, error := GetVal(true);
            if error || !found { return true; }
            var isnull := |word| == 4 && !escaped && SpellsNull(word);
            pairs := pairs + [Pair(key, word, isnull, true)];
            key, st := [], WDel;
          case WDel =>
            if At(begin, ptr) == COMMA {
              st := WKey;
            } else if At(begin, ptr) == NUL {
              return false;
            } else if !IsSpace(At(begin, ptr)) {
              return true;
            }
        }
        ptr := ptr + 1;
      }
    }
  }

  /** The array can be doubled exactly until it has its largest size. */
  lemma PlenLimit(plen: nat)
    requires Doubled(plen, 16) && plen <= PAIRS_MAX
    ensures PAIR_SIZE * (plen * 2) > MAX_ALLOC_SIZE <==> plen == PAIRS_MAX
    ensures plen > 0
    ensures plen < PAIRS_MAX ==> Doubled(plen * 2, 16) && plen * 2 <= PAIRS_MAX
  {
    PairsLimit();
    AtLeastFirst(plen, 16);
    DoubleOnce(plen, 16);
    hide Doubled;
    if plen * 2 > PAIRS_MAX {
      LargestSize(plen, PAIRS_MAX, 16);
    }
  }

  // ---------------------------------------------------------------- writing

  predicate Special(c: byte) { c == QUOTE || c == BACKSLASH }

  /** A string with quotes and backslashes escaped. */
  function Escaped(k: Str): Str {
    if k == [] then [] else EscapedOne(k[0]) + Escaped(k[1..])
  }

  function EscapedOne(c: byte): Str { if Special(c) then [BACKSLASH, c] else [c] }

  function PrintValue(v: Option<Str>): Str {
    if v.None? then NULLTEXT else Quoted(v.value)
  }

  function PrintItem(item: Item): Str {
    Quoted(item.key) + [EQUALS, GREATER] + PrintValue(item.val)
  }

  function Print(items: seq<Item>): Str {
    if items == [] then []
    else if |items| == 1 then PrintItem(items[0])
    else PrintItem(items[0]) + [COMMA, SPACE] + Print(items[1..])
  }

  /** What hstore_out reserves for one pair, and for all. */
  function Reserved(item: Item): nat {
    6 + 2 * |item.key| + 2 + if item.val.None? then 2 else 2 * |item.val.value|
  }

  function ReservedAll(items: seq<Item>): nat {
    if items == [] then 0 else Reserved(items[0]) + ReservedAll(items[1..])
  }

  /** Escaping works byte by byte. */
  lemma {:induction false} EscapedJoin(k: Str, k': Str)
    ensures Escaped(k + k') == Escaped(k) + Escaped(k')
  {
    hide Escaped, EscapedOne;
    EscapedNone();
    if k == [] {
      assert k + k' == k';
    } else {
      EscapedJoin(k[1..], k');
      assert (k + k')[1..] == k[1..] + k';
      EscapedHead(k + k');
      EscapedHead(k);
      Regroup(EscapedOne(k[0]), Escaped(k[1..]), Escaped(k'));
    }
  }

  lemma EscapedNone()
    ensures Escaped([]) == []
  {
  }

  lemma EscapedHead(k: Str)
    requires k != []
    ensures Escaped(k) == EscapedOne(k[0]) + Escaped(k[1..])
  {
  }

  lemma Regroup(a: Str, b: Str, c: Str)
    ensures a + (b + c) == (a + b) + c
  {
  }

  /** Exactly quotes and backslashes are escaped. */
  lemma EscapedByte(c: byte)
    ensures Escaped([c]) == if c == 34 || c == 92 then [92, c] else [c]
  {
    assert Escaped([c][1..]) == [];
  }

  /** How many quotes and backslashes there are. */
  function Marks(k: Str): nat { if k == [] then 0 else Marks(k[1..]) + if k[0] == 34 || k[0] == 92 then 1 else 0 }

  lemma {:induction false} EscapedMarks(k: Str)
    ensures |Escaped(k)| == |k| + Marks(k) && (Marks(k) == 0 ==> Escaped(k) == k)
  {
    if k != [] { EscapedMarks(k[1..]); }
  }

  /** The printed form of one pair: the key in quotes, an arrow, and the value in quotes or NULL. */
  lemma PrintedPair(key: Str, val: Option<Str>)
    ensures val.Some? ==>
              PrintItem(Item(key, val)) == [34] + Escaped(key) + [34, 61, 62, 34] + Escaped(val.value) + [34]
    ensures val.None? ==> PrintItem(Item(key, val)) == [34] + Escaped(key) + [34, 61, 62, 78, 85, 76, 76]
  {
    hide Escaped;
  }

  /** Printed pairs are separated by a comma and a blank. */
  lemma {:induction false} PrintJoin(items: seq<Item>, more: seq<Item>)
    requires items != [] && more != []
    ensures Print(items + more) == Print(items) + [44, 32] + Print(more)
  {
    hide PrintItem;
    assert (items + more)[1..] == items[1..] + more;
    if |items| == 1 {
      assert items[1..] + more == more;
    } else {
      PrintJoin(items[1..], more);
    }
  }

  lemma {:induction false} EscapedLength(k: Str)
    ensures |k| <= |Escaped(k)| <= 2 * |k|
  {
    if k != [] { EscapedLength(k[1..]); }
  }

  /** cpw */
  method CopyEscaped(out: array<byte>, dst0: nat, src: Str) returns (dst: nat)
    requires dst0 + 2 * |src| <= out.Length
    modifies out
    ensures dst == dst0 + |Escaped(src)| <= out.Length && out[..dst] == old(out[..dst0]) + Escaped(src)
  {
    hide Escaped;
    dst := dst0;
    EscapedLength(src);
    EscapedNone();
    var p := 0;
    assert src[p..] == src;
    while p < |src|
      invariant 0 <= p <= |src| && dst0 <= dst <= dst0 + 2 * p
      invariant out[..dst] + Escaped(src[p..]) == old(out[..dst0]) + Escaped(src)
    {
      ghost var done := out[..dst];
      assert src[p..][0] == src[p] && src[p..][1..] == src[p + 1..];
      EscapedHead(src[p..]);
      Regroup(done, EscapedOne(src[p]), Escaped(src[p + 1..]));
      if Special(src[p]) {
        out[dst] := BACKSLASH;
        dst := dst + 1;
        assert out[..dst] == done + [BACKSLASH];
      }
      ghost var done' := out[..dst];
      out[dst] := src[p];
      dst := dst + 1;
      assert out[..dst] == done' + [src[p]] == done + EscapedOne(src[p]);
      p := p + 1;
    }
    assert src[p..] == [];
    assert |out[..dst]| == |old(out[..dst0]) + Escaped(src)|;
  }

  function Quoted(k: Str): Str { [QUOTE] + Escaped(k) + [QUOTE] }

  method WriteQuoted(out: array<byte>, ptr0: nat, k: Str) returns (ptr: nat)
    requires ptr0 + 2 * |k| + 2 <= out.Length
    modifies out
    ensures ptr == ptr0 + |Quoted(k)| <= ptr0 + 2 * |k| + 2 && out[..ptr] == old(out[..ptr0]) + Quoted(k)
  {
    hide Escaped;
    EscapedLength(k);
    CopyInto(out, ptr0, [QUOTE]);
    ptr := CopyEscaped(out, ptr0 + 1, k);
    CopyInto(out, ptr, [QUOTE]);
    ptr := ptr + 1;
  }

  /** One pair of hstore_out's second loop. */
  method WriteItem(out: array<byte>, ptr0: nat, item: Item) returns (ptr: nat)
    requires ptr0 + Reserved(item) <= out.Length
    modifies out
    ensures ptr == ptr0 + |PrintItem(item)| && ptr + 2 <= ptr0 + Reserved(item)
    ensures out[..ptr] == old(out[..ptr0]) + PrintItem(item)
  {
    hide Escaped;
    ptr := WriteQuoted(out, ptr0, item.key);
    CopyInto(out, ptr, [EQUALS, GREATER]);
    ptr := ptr + 2;
    ghost var head := Quoted(item.key) + [EQUALS, GREATER];
    assert out[..ptr] == old(out[..ptr0]) + head;
    if item.val.None? {
      CopyInto(out, ptr, NULLTEXT);
      ptr := ptr + 4;
    } else {
      ptr := WriteQuoted(out, ptr, item.val.value);
    }
    assert PrintItem(item) == head + PrintValue(item.val);
  }

  /** hstore_out: the first loop sizes the buffer, the second never leaves it and keeps room for the final NUL. */
  method Out(h: HStore) returns (r: Result<Str>)
    requires Layout(h)
    ensures r == if Count(h) > 0 && ReservedAll(Decode(h)) > MAX_ALLOC_SIZE then Err else Ok(Print(Decode(h)))
  {
    var count := Count(h);
    if count == 0 {
      return Ok([]);
    }
    hide Layout, Count, Print;
    ghost var items := Decode(h);
    var buflen := 0;
    for i := 0 to count
      invariant buflen + ReservedAll(items[i..]) == ReservedAll(items)
    {
      assert items[i..][1..] == items[i + 1..];
      var item := ItemAt(h, i);
      buflen := buflen + 6 + 2 * |item.key|;
      buflen := buflen + 2 + if item.val.None? then 2 else 2 * |item.val.value|;
    }
    if buflen > MAX_ALLOC_SIZE {
      return Err;
    }
    var text := WriteAll(h, count, buflen);
    return Ok(text);
  }

  lemma PrintStep(items: seq<Item>, i: nat)
    requires i < |items|
    ensures Print(items[i..]) ==
            PrintItem(items[i]) + (if i + 1 < |items| then [COMMA, SPACE] else []) + Print(items[i + 1..])
    ensures ReservedAll(items[i..]) == Reserved(items[i]) + ReservedAll(items[i + 1..])
  {
    assert items[i..][1..] == items[i + 1..];
  }

  method WriteAll(h: HStore, count: nat, buflen: nat) returns (text: Str)
    requires Layout(h) && count == Count(h) > 0 && buflen == ReservedAll(Decode(h))
    ensures text == Print(Decode(h)) && |text| < buflen
  {
    hide Layout, Count, Print, ReservedAll, PrintItem, Reserved;
    ghost var items := Decode(h);
    var out := new byte[buflen];
    var ptr := 0;
    assert items[0..] == items;
    for i := 0 to count
      invariant 0 <= ptr <= ptr + ReservedAll(items[i..]) <= buflen && (i == count ==> ptr < buflen)
      invariant out[..ptr] + Print(items[i..]) == Print(items)
    {
      PrintStep(items, i);
      ptr := WriteItem(out, ptr, ItemAt(h, i));
      if i + 1 != count {
        CopyInto(out, ptr, [COMMA, SPACE]);
        ptr := ptr + 2;
      }
    }
    PrintNothing();
    assert items[count..] == [];
    out[ptr] := NUL;
    return out[..ptr];
  }

  lemma PrintNothing()
    ensures Print([]) == []
  {
  }
}
