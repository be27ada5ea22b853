/** hstore_send and hstore_recv: the binary form of an hstore on the wire. */
module HstoreBinary {
  import opened HstoreFormat
  import opened HstorePairs
  import opened HstoreRoundTrip
  import opened Options

  type int32 = n: int | -0x8000_0000 <= n < 0x8000_0000

  /** hstore_recv takes at most as many pairs as fit an allocation, at 40 bytes each. */
  const MAX_PAIRS := MAX_ALLOC_SIZE / 40

  // ---------------------------------------------------------------- integers

  /** pq_sendint with four bytes, most significant first. */
  function Int32(n: int32): (s: Str)
    ensures |s| == 4
  {
    var u := if n < 0 then n + 0x1_0000_0000 else n;
    [u / 0x100_0000, u / 0x1_0000 % 0x100, u / 0x100 % 0x100, u % 0x100]
  }

  function Unsigned(b3: int, b2: int, b1: int, b0: int): int { 0x100_0000 * b3 + 0x1_0000 * b2 + 0x100 * b1 + b0 }

  /** pq_getmsgint with four bytes. */
  function GetInt32(b: Str, at: nat): int32
    requires at + 4 <= |b|
  {
    var u := Unsigned(b[at], b[at + 1], b[at + 2], b[at + 3]);
    if u >= 0x8000_0000 then u - 0x1_0000_0000 else u
  }

  /** The bytes of an integer, most significant first, make up its value modulo 2^32. */
  lemma Int32Value(n: int32)
    ensures var s := Int32(n);
            var b3: int, b2: int, b1: int, b0: int := s[0], s[1], s[2], s[3];
            b3 * 16777216 + b2 * 65536 + b1 * 256 + b0 == if n < 0 then n + 4294967296 else n
  {
    Digits(if n < 0 then n + 0x1_0000_0000 else n);
  }

  lemma Digits(u: nat)
    requires u < 0x1_0000_0000
    ensures Unsigned(u / 0x100_0000, u / 0x1_0000 % 0x100, u / 0x100 % 0x100, u % 0x100) == u
  {
  }

  lemma IntReadsBack(b: Str, at: nat, n: int32)
    requires at <= |b| && Int32(n) <= b[at..]
    ensures at + 4 <= |b| && GetInt32(b, at) == n
  {
    Digits(if n < 0 then n + 0x1_0000_0000 else n);
    hide Unsigned;
    var s := Int32(n);
    assert s[0] == b[at] && s[1] == b[at + 1] && s[2] == b[at + 2] && s[3] == b[at + 3];
  }

  // ---------------------------------------------------------------- sending

  ghost predicate Sendable(item: Item) {
    |item.key| <= HSTORE_MAX_LEN && (item.val.Some? ==> |item.val.value| <= HSTORE_MAX_LEN)
  }

  function WireText(t: Str): Str
    requires |t| <= HSTORE_MAX_LEN
  {
    Int32(|t|) + t
  }

  function WireItem(item: Item): Str
    requires Sendable(item)
  {
    WireText(item.key) + if item.val.None? then Int32(-1) else WireText(item.val.value)
  }

  ghost predicate AllSendable(items: seq<Item>) { forall i :: 0 <= i < |items| ==> Sendable(items[i]) }

  ghost function Wire(items: seq<Item>): Str
    requires AllSendable(items)
  {
    if items == [] then [] else WireItem(items[0]) + Wire(items[1..])
  }

  lemma DecodedSendable(h: HStore, i: nat)
    requires Layout(h) && i < Count(h)
    ensures Sendable(ItemAt(h, i)) && Count(h) < 0x1000_0000
  {
    EndPosBound(h.entries[2 * i]);
    EndPosBound(h.entries[2 * i + 1]);
    hide EndPos, IsFirst, IsNull;
  }

  /** pq_begintypsend reserves the length word of the message. */
  const HEADER := 4

  /** appendBinaryStringInfo: the buffer has to stay below the largest allocation. */
  function Append(buf: Result<Str>, data: Str): Result<Str> {
    if buf.Err? || HEADER + |buf.value| + |data| >= MAX_ALLOC_SIZE then Err else Ok(buf.value + data)
  }

  /** It does not matter in how many pieces the data is appended. */
  lemma AppendTwice(buf: Result<Str>, u: Str, v: Str)
    ensures Append(Append(buf, u), v) == Append(buf, u + v)
  {
    if buf.Ok? { assert buf.value + u + v == buf.value + (u + v); }
  }

  lemma AppendNothing(buf: Result<Str>, u: Str)
    ensures Append(Append(buf, u), []) == Append(buf, u)
  {
    AppendTwice(buf, u, []);
    assert u + [] == u;
  }

  /** hstore_send: the message, unless it is too long for the buffer. */
  method Send(h: HStore) returns (r: Result<Str>)
    requires Layout(h)
    ensures AllSendable(Decode(h)) && Count(h) < 0x1000_0000
    ensures var message := Int32(Count(h)) + Wire(Decode(h));
            r == if HEADER + |message| >= MAX_ALLOC_SIZE then Err else Ok(message)
  {
    hide Append, Sendable, AllSendable, Int32, Wire, WireItem;
    ghost var items := Decode(h);
    DecodedAllSendable(h);
    var count := Count(h);
    hide Layout, Count, Decode;
    ghost var message := Int32(count) + Wire(items);
    assert items[0..] == items;
    r := Append(Ok([]), Int32(count));
    AppendTwice(Ok([]), Int32(count), Wire(items));
    AppendNothing(Ok([]), Int32(count));
    for i := 0 to count
      invariant AllSendable(items[i..]) && Append(r, Wire(items[i..])) == Append(Ok([]), message)
      invariant Append(r, []) == r
    {
      var item := ItemAt(h, i);
      DecodeAt(h, i);
      WireStep(items, i);
      AppendTwice(r, WireItem(item), Wire(items[i + 1..]));
      AppendNothing(r, WireItem(item));
      r := SendItem(r, item);
    }
    assert items[count..] == [];
    NothingSent();
    SentWhole(message);
  }

  lemma DecodedAllSendable(h: HStore)
    requires Layout(h)
    ensures AllSendable(Decode(h)) && Count(h) < 0x1000_0000
  {
    hide Sendable;
    var items := Decode(h);
    forall i | 0 <= i < |items| ensures Sendable(items[i]) {
      DecodedSendable(h, i);
    }
  }

  lemma DecodeAt(h: HStore, i: nat)
    requires Layout(h) && i < Count(h)
    ensures Decode(h)[i] == ItemAt(h, i)
  {
  }

  lemma NothingSent()
    ensures AllSendable([]) && Wire([]) == []
  {
  }

  lemma SentWhole(message: Str)
    ensures Append(Ok([]), message) == if HEADER + |message| >= MAX_ALLOC_SIZE then Err else Ok(message)
  {
    assert [] + message == message;
  }

  method SendItem(buf: Result<Str>, item: Item) returns (r: Result<Str>)
    requires Sendable(item)
    ensures r == Append(buf, WireItem(item))
  {
    hide Int32, Append;
    r := Append(buf, Int32(|item.key|));
    r := Append(r, item.key);
    AppendTwice(buf, Int32(|item.key|), item.key);
    var key := WireText(item.key);
    if item.val.None? {
      r := Append(r, Int32(-1));
      AppendTwice(buf, key, Int32(-1));
    } else {
      var len, val := Int32(|item.val.value|), item.val.value;
      r := Append(r, len);
      r := Append(r, val);
      AppendTwice(buf, key, len);
      AppendTwice(buf, key + len, val);
      assert key + len + val == WireItem(item);
    }
  }

  lemma WireStep(items: seq<Item>, i: nat)
    requires i < |items| && AllSendable(items)
    ensures Sendable(items[i]) && AllSendable(items[i..]) && AllSendable(items[i + 1..])
    ensures Wire(items[i..]) == WireItem(items[i]) + Wire(items[i + 1..])
  {
    assert items[i..][1..] == items[i + 1..];
  }

  // ---------------------------------------------------------------- receiving

  /** What one text on the wire gives: nothing if the message is too short or the copy with its final NUL too long. */
  datatype Piece = Text(text: Str, next: nat) | Null(next: nat) | Bad

  function GetText(b: Str, at: nat): Piece {
    if at + 4 > |b| then Bad
    else
      var rawlen := GetInt32(b, at);
      if rawlen < 0 then Null(at + 4)
      else if at + 4 + rawlen > |b| || rawlen >= MAX_ALLOC_SIZE then Bad
      else Text(b[at + 4..at + 4 + rawlen], at + 4 + rawlen)
  }

  /** The loop of hstore_recv; a null key is an error. */
  function RecvFrom(b: Str, at: nat, n: nat, pairs: seq<Pair>): Option<seq<Pair>>
    decreases n
  {
    if n == 0 then Some(pairs)
    else
      var key := GetText(b, at);
      if !key.Text? then None
      else
        var val := GetText(b, key.next);
        match val
        case Bad => None
        case Null(next) => RecvFrom(b, next, n - 1, pairs + [Pair(key.text, [], true, true)])
        case Text(text, next) => RecvFrom(b, next, n - 1, pairs + [Pair(key.text, text, false, true)])
  }

  function FromWire(item: Item): Pair {
    Pair(item.key, if item.val.None? then [] else item.val.value, item.val.None?, true)
  }

  function FromWireAll(items: seq<Item>): (ps: seq<Pair>)
    ensures |ps| == |items| && forall i :: 0 <= i < |items| ==> ps[i] == FromWire(items[i])
  {
    if items == [] then [] else [FromWire(items[0])] + FromWireAll(items[1..])
  }

  lemma TextReadsBack(b: Str, at: nat, t: Str)
    requires |t| <= HSTORE_MAX_LEN && at <= |b| < MAX_ALLOC_SIZE && WireText(t) <= b[at..]
    ensures GetText(b, at) == Text(t, at + 4 + |t|)
  {
    assert Int32(|t|) <= b[at..];
    IntReadsBack(b, at, |t|);
    hide Int32, GetInt32;
    assert b[at + 4..at + 4 + |t|] == b[at..][4..4 + |t|] == t;
  }

  lemma NullReadsBack(b: Str, at: nat)
    requires at <= |b| && Int32(-1) <= b[at..]
    ensures GetText(b, at) == Null(at + 4)
  {
    IntReadsBack(b, at, -1);
  }

  lemma ItemReadsBack(b: Str, at: nat, item: Item, n: nat, pairs: seq<Pair>)
    requires Sendable(item) && at <= |b| < MAX_ALLOC_SIZE && WireItem(item) <= b[at..] && n > 0
    ensures RecvFrom(b, at, n, pairs) == RecvFrom(b, at + |WireItem(item)|, n - 1, pairs + [FromWire(item)])
  {
    hide Int32, GetInt32;
    var key := WireText(item.key);
    assert key <= b[at..];
    TextReadsBack(b, at, item.key);
    var next := at + |key|;
    assert b[next..] == b[at..][|key|..];
    if item.val.None? {
      assert Int32(-1) <= b[next..];
      NullReadsBack(b, next);
    } else {
      assert WireText(item.val.value) <= b[next..];
      TextReadsBack(b, next, item.val.value);
    }
  }

  /** What was sent is received: every pair, null or not, in order. */
  lemma {:induction false} WireReadsBack(b: Str, at: nat, items: seq<Item>, pairs: seq<Pair>)
    requires AllSendable(items) && at <= |b| < MAX_ALLOC_SIZE && b[at..] == Wire(items)
    ensures RecvFrom(b, at, |items|, pairs) == Some(pairs + FromWireAll(items))
    decreases |items|
  {
    hide RecvFrom, WireItem, Sendable, Wire, FromWireAll, FromWire, AllSendable;
    if items == [] {
      NoneReceived(b, at, pairs);
    } else {
      var item, rest := items[0], items[1..];
      WireHead(items);
      DropPrefix(b, at, WireItem(item), Wire(rest));
      ItemReadsBack(b, at, item, |items|, pairs);
      WireReadsBack(b, at + |WireItem(item)|, rest, pairs + [FromWire(item)]);
      FromWireStep(items, pairs);
    }
  }

  lemma NoneReceived(b: Str, at: nat, pairs: seq<Pair>)
    ensures RecvFrom(b, at, 0, pairs) == Some(pairs + FromWireAll([]))
  {
    assert pairs + [] == pairs;
  }

  lemma WireHead(items: seq<Item>)
    requires items != [] && AllSendable(items)
    ensures Sendable(items[0]) && AllSendable(items[1..]) && Wire(items) == WireItem(items[0]) + Wire(items[1..])
  {
  }

  lemma DropPrefix(b: Str, at: nat, u: Str, v: Str)
    requires at <= |b| && b[at..] == u + v
    ensures at + |u| <= |b| && u <= b[at..] && b[at + |u|..] == v
  {
    assert b[at + |u|..] == b[at..][|u|..];
  }

  lemma FromWireStep(items: seq<Item>, pairs: seq<Pair>)
    requires items != []
    ensures pairs + [FromWire(items[0])] + FromWireAll(items[1..]) == pairs + FromWireAll(items)
  {
  }

  /** The pairs in a message, or none if it is malformed. */
  function Received(b: Str): Option<seq<Pair>> {
    if |b| < 4 then None
    else
      var pcount := GetInt32(b, 0);
      if pcount < 0 || pcount > MAX_PAIRS then None else RecvFrom(b, 4, pcount, [])
  }

  /** hstore_recv, with qsort as a parameter. */
  method Recv(b: Str, qsort: seq<Pair> -> seq<Pair>) returns (r: Result<HStore>)
    requires forall ps :: SortOf(qsort(ps), ps)
    ensures Received(b).None? ==> r.Err?
    ensures Received(b).Some? ==> var kept := Dedup(qsort(Received(b).value));
                                  && (r.Err? <==> DataSize(|kept|, BufLen(kept)) > MAX_ALLOC_SIZE)
                                  && (r.Ok? ==> Packs(r.value, Items(kept)))
    ensures r.Ok? ==> WellFormed(r.value) && LengthThenBytes(Decode(r.value))
  {
    hide Dedup, BufLen, Packs, Items, SortOf, GetInt32, WellFormed, LengthThenBytes, Decode;
    if |b| < 4 {
      return Err;
    }
    var pcount := GetInt32(b, 0);
    if pcount < 0 || pcount > MAX_PAIRS {
      return Err;
    }
    var pairs, at, i := [], 4, 0;
    while i < pcount
      invariant 0 <= i <= pcount && 0 <= at && Received(b) == RecvFrom(b, at, pcount - i, pairs)
    {
      var key := GetText(b, at);
      if !key.Text? {
        return Err;
      }
      var val := GetText(b, key.next);
      match val {
        case Bad => return Err;
        case Null(next) => pairs, at := pairs + [Pair(key.text, [], true, true)], next;
        case Text(text, next) => pairs, at := pairs + [Pair(key.text, text, false, true)], next;
      }
      i := i + 1;
    }
    var n := |pairs|;
    var a := new Pair[n](k requires 0 <= k < n => pairs[k]);
    assert a[..] == pairs;
    var pcur, buflen := UniquePairs(a, qsort(pairs));
    r := PackPairs(a[..pcur], buflen);
    if r.Ok? { PackedInOrder(pairs, qsort(pairs), r.value); }
  }

  lemma ItemsFromWire(items: seq<Item>)
    ensures Items(FromWireAll(items)) == items
    ensures StrictItems(items) ==> StrictKeys(FromWireAll(items))
  {
    hide Items, FromWireAll, KeyLess;
    var ps := FromWireAll(items);
    forall k | 0 <= k < |items| ensures Items(ps)[k] == items[k] { assert ps[k] == FromWire(items[k]); }
  }

  /** A message is as long as the packed hstore, less the length word. */
  lemma {:induction false} WireLength(items: seq<Item>)
    requires AllSendable(items)
    ensures |Wire(items)| == 8 * |items| + |Data(items)|
  {
    hide Data;
    if items == [] {
      NoData();
    } else {
      WireLength(items[1..]);
      DataHead(items);
    }
  }

  lemma NoData()
    ensures Data([]) == []
  {
  }

  lemma {:induction false} DataHead(items: seq<Item>)
    requires items != []
    ensures |Data(items)| == |ItemText(items[0])| + |Data(items[1..])|
    decreases |items|
  {
    var n := |items| - 1;
    if n > 0 {
      DataHead(items[..n]);
      assert items[..n][1..] == items[1..][..n - 1];
    }
  }

  /** A value sent by hstore_send is received unchanged by hstore_recv exactly when it is shorter than the largest
      allocation and has no more pairs than hstore_recv accepts. */
  method SendThenRecv(h: HStore, qsort: seq<Pair> -> seq<Pair>) returns (r: Result<HStore>)
    requires WellFormed(h) && StrictItems(Decode(h))
    requires forall ps :: SortOf(qsort(ps), ps)
    ensures r == if Count(h) > MAX_PAIRS || h.varsize >= MAX_ALLOC_SIZE then Err else Ok(h)
  {
    hide Layout, Decode, Packs, Items, SortOf, StrictItems, Dedup, BufLen, Wire, Int32, GetInt32, AllSendable;
    var message := Send(h);
    ghost var items := Decode(h);
    WellFormedPacks(h);
    PackedSize(h, items);
    WireLength(items);
    if message.Err? {
      return Err;
    }
    r := Recv(message.value, qsort);
    SentIsReceived(message.value, items);
    if |items| <= MAX_PAIRS {
      ItemsFromWire(items);
      StrictIsFixed(FromWireAll(items), qsort(FromWireAll(items)));
      BufLenIsData(FromWireAll(items));
      if r.Ok? {
        PacksUnique(r.value, h, items);
      }
    }
  }

  lemma SentIsReceived(buf: Str, items: seq<Item>)
    requires AllSendable(items) && |items| < 0x1000_0000
    requires buf == Int32(|items|) + Wire(items) && |buf| < MAX_ALLOC_SIZE
    ensures Received(buf) == if |items| > MAX_PAIRS then None else Some(FromWireAll(items))
  {
    hide Int32, GetInt32, RecvFrom, Wire;
    assert buf[0..] == buf && Int32(|items|) <= buf[0..];
    IntReadsBack(buf, 0, |items|);
    assert buf[4..] == Wire(items);
    WireReadsBack(buf, 4, items, []);
    assert [] + FromWireAll(items) == FromWireAll(items);
  }
}
