/** hstoreUniquePairs and hstorePairs: sorting out duplicate keys and packing the rest. */
module HstorePairs {
  import opened Bytes
  import opened HstoreFormat
  import opened Options

  /** Pairs: a decompressed pair. A null pair may still carry the text of its value. */
  datatype Pair = Pair(key: Str, val: Str, isnull: bool, needfree: bool)

  function ItemOf(p: Pair): Item { Item(p.key, if p.isnull then None else Some(p.val)) }

  function Items(ps: seq<Pair>): (items: seq<Item>)
    ensures |items| == |ps| && forall i :: 0 <= i < |ps| ==> items[i] == ItemOf(ps[i])
  {
    if ps == [] then [] else Items(ps[..|ps| - 1]) + [ItemOf(ps[|ps| - 1])]
  }

  /** Keys are ordered by length first. */
  predicate KeyLess(a: Str, b: Str) { |a| < |b| || (|a| == |b| && Less(a, b)) }

  /** comparePairs(a, b) <= 0: by key, and with pairs that need no freeing first. */
  predicate PairLeq(a: Pair, b: Pair) {
    KeyLess(a.key, b.key) || (a.key == b.key && (a.needfree ==> b.needfree))
  }

  lemma KeyLessTotal(a: Str, b: Str)
    ensures a != b ==> KeyLess(a, b) != KeyLess(b, a)
    ensures !KeyLess(a, a)
  {
    LeqTotal(a, b);
    LeqReflexive(a);
  }

  lemma KeyLessTransitive(a: Str, b: Str, c: Str)
    requires KeyLess(a, b) && KeyLess(b, c)
    ensures KeyLess(a, c)
  {
    if |a| == |b| == |c| {
      LeqTotal(a, b);
      LeqTotal(b, c);
      if Leq(c, a) { LeqTransitive(b, c, a); }
    }
  }

  /** Whatever qsort leaves: the same pairs, in order, ties in any order. */
  ghost predicate SortOf(t: seq<Pair>, s: seq<Pair>) {
    multiset(t) == multiset(s) && Sorted(t)
  }

  ghost predicate Sorted(t: seq<Pair>) {
    forall i, j :: 0 <= i < j < |t| ==> PairLeq(t[i], t[j])
  }

  ghost predicate StrictKeys(t: seq<Pair>) {
    forall i, j :: 0 <= i < j < |t| ==> KeyLess(t[i].key, t[j].key)
  }

  // ---------------------------------------------------------------- removing duplicates

  /** The first pair of every run of equal keys. */
  function Dedup(s: seq<Pair>): (d: seq<Pair>)
    ensures |d| <= |s| && (s != [] ==> d != [] && d[|d| - 1].key == s[|s| - 1].key)
  {
    if |s| <= 1 then s
    else
      var d := Dedup(s[..|s| - 1]);
      if s[|s| - 1].key == d[|d| - 1].key then d else d + [s[|s| - 1]]
  }

  /** q is a pair that may stand for p: same key, and no worse about freeing. */
  ghost predicate StandsFor(q: Pair, p: Pair) { q.key == p.key && (q.needfree ==> p.needfree) }

  lemma {:induction false} DedupFrom(s: seq<Pair>, p: Pair)
    requires p in Dedup(s)
    ensures p in s
  {
    if |s| > 1 && p in Dedup(s[..|s| - 1]) { DedupFrom(s[..|s| - 1], p); }
  }

  /** Every pair has a representative, namely the first of its run. */
  lemma {:induction false} DedupCovers(s: seq<Pair>, i: nat) returns (q: Pair)
    requires Sorted(s) && i < |s|
    ensures q in Dedup(s) && StandsFor(q, s[i])
    ensures i == |s| - 1 ==> q == Dedup(s)[|Dedup(s)| - 1]
    decreases |s|
  {
    var n := |s| - 1;
    if n > 0 {
      assert PairLeq(s[n - 1], s[n]);
      KeyLessTotal(s[n].key, s[n].key);
    }
    hide KeyLess, PairLeq;
    if n == 0 {
      q := s[0];
    } else if i < n {
      q := DedupCovers(s[..n], i);
    } else {
      var d := Dedup(s[..n]);
      q := DedupCovers(s[..n], n - 1);
      if s[n].key != d[|d| - 1].key {
        q := s[n];
      }
    }
  }

  lemma {:induction false} DedupStrict(s: seq<Pair>)
    requires Sorted(s)
    ensures StrictKeys(Dedup(s))
  {
    hide KeyLess, PairLeq, StrictKeys;
    if |s| <= 1 {
      OneIsStrict(s);
    } else {
      var n := |s| - 1;
      var d := Dedup(s[..n]);
      DedupStrict(s[..n]);
      var last := d[|d| - 1];
      if last.key != s[n].key {
        DedupFrom(s[..n], last);
        var k :| 0 <= k < n && s[..n][k] == last;
        assert PairLeq(s[k], s[n]);
        OneMoreStrict(d, s[n]);
      }
    }
  }

  lemma OneIsStrict(s: seq<Pair>)
    requires |s| <= 1
    ensures StrictKeys(s)
  {
  }

  lemma OneMoreStrict(d: seq<Pair>, p: Pair)
    requires d != [] && StrictKeys(d) && PairLeq(d[|d| - 1], p) && d[|d| - 1].key != p.key
    ensures StrictKeys(d + [p])
  {
    var last := d[|d| - 1];
    assert KeyLess(last.key, p.key);
    hide KeyLess, PairLeq;
    forall i | 0 <= i < |d| ensures KeyLess(d[i].key, p.key) {
      if i < |d| - 1 { KeyLessTransitive(d[i].key, last.key, p.key); }
    }
  }

  /** Shorter keys come first, and keys of the same length in the order of their bytes. */
  ghost predicate LengthThenBytes(items: seq<Item>) {
    forall i, j :: 0 <= i < j < |items| ==>
      && |items[i].key| <= |items[j].key|
      && (|items[i].key| == |items[j].key| ==> Less(items[i].key, items[j].key))
  }

  lemma StrictIsLengthThenBytes(ps: seq<Pair>)
    requires StrictKeys(ps)
    ensures LengthThenBytes(Items(ps))
  {
    hide Less;
    var items := Items(ps);
    forall i, j | 0 <= i < j < |items|
      ensures |items[i].key| <= |items[j].key|
      ensures |items[i].key| == |items[j].key| ==> Less(items[i].key, items[j].key)
    {
      assert KeyLess(ps[i].key, ps[j].key);
    }
  }

  /** What is packed after sorting and removing duplicates is well formed and in order. */
  lemma PackedInOrder(s: seq<Pair>, t: seq<Pair>, h: HStore)
    requires SortOf(t, s) && Packs(h, Items(Dedup(t)))
    ensures WellFormed(h) && LengthThenBytes(Decode(h))
  {
    hide Dedup, Items, Packs, LengthThenBytes, Sorted, WellFormed, StrictKeys;
    DedupStrict(t);
    StrictIsLengthThenBytes(Dedup(t));
    PackedWellFormed(h, Items(Dedup(t)));
  }

  /** Sorting and removing duplicates keeps exactly the keys, in strict order, each with a pair of the input;
      a pair that needs no freeing is preferred. */
  lemma {:induction false} DedupKeeps(s: seq<Pair>, t: seq<Pair>)
    requires SortOf(t, s)
    ensures LengthThenBytes(Items(Dedup(t)))
    ensures forall p :: p in Dedup(t) ==> p in s
    ensures forall p :: p in s ==> exists q :: q in Dedup(t) && StandsFor(q, p)
  {
    DedupStrict(t);
    StrictIsLengthThenBytes(Dedup(t));
    forall p | p in Dedup(t) ensures p in s {
      DedupFrom(t, p);
      assert p in multiset(t);
    }
    forall p | p in s ensures exists q :: q in Dedup(t) && StandsFor(q, p) {
      assert p in multiset(s) && p in multiset(t);
      var i :| 0 <= i < |t| && t[i] == p;
      var q := DedupCovers(t, i);
    }
  }

  /** Strictly sorted pairs are already as qsort and the removal of duplicates leave them. */
  lemma {:induction false} StrictIsFixed(s: seq<Pair>, t: seq<Pair>)
    requires StrictKeys(s) && SortOf(t, s)
    ensures t == s && Dedup(s) == s
  {
    StrictDedup(s);
    StrictSortUnique(s, t);
  }

  lemma {:induction false} StrictDedup(s: seq<Pair>)
    requires StrictKeys(s)
    ensures Dedup(s) == s
  {
    if |s| > 1 {
      var n := |s| - 1;
      StrictDedup(s[..n]);
      KeyLessTotal(s[n].key, s[n].key);
      assert KeyLess(s[n - 1].key, s[n].key);
      assert s[..n] + [s[n]] == s;
    }
  }

  lemma {:induction false} StrictSortUnique(s: seq<Pair>, t: seq<Pair>)
    requires StrictKeys(s) && SortOf(t, s)
    ensures t == s
  {
    hide KeyLess, PairLeq;
    assert |s| == |multiset(s)| == |multiset(t)| == |t|;
    if s != [] {
      var n := |s| - 1;
      LastAgrees(s, t);
      DropLast(s, t);
      StrictSortUnique(s[..n], t[..n]);
      assert s == s[..n] + [s[n]] && t == t[..n] + [t[n]];
    }
  }

  lemma DropLast(s: seq<Pair>, t: seq<Pair>)
    requires |s| == |t| > 0 && multiset(s) == multiset(t) && s[|s| - 1] == t[|t| - 1]
    ensures multiset(s[..|s| - 1]) == multiset(t[..|t| - 1])
  {
    var n := |s| - 1;
    assert s == s[..n] + [s[n]] && t == t[..n] + [t[n]];
    assert multiset(s[..n]) == multiset(s) - multiset{s[n]};
    assert multiset(t[..n]) == multiset(t) - multiset{t[n]};
  }

  lemma {:induction false} LastAgrees(s: seq<Pair>, t: seq<Pair>)
    requires StrictKeys(s) && SortOf(t, s) && |s| == |t| > 0
    ensures s[|s| - 1] == t[|t| - 1]
  {
    hide KeyLess;
    var n := |s| - 1;
    assert s[n] in multiset(t) && t[n] in multiset(s);
    var i :| 0 <= i <= n && t[i] == s[n];
    var j :| 0 <= j <= n && s[j] == t[n];
    if j < n && i < n {
      assert KeyLess(s[j].key, s[n].key) && PairLeq(t[i], t[n]);
      KeyLessTotal(s[j].key, s[n].key);
      KeyLessTotal(s[j].key, s[j].key);
    }
  }

  // ---------------------------------------------------------------- the loops

  function PairLen(p: Pair): nat { |p.key| + if p.isnull then 0 else |p.val| }

  /** The bytes the pairs need in the string area. */
  function BufLen(ps: seq<Pair>): nat {
    if ps == [] then 0 else BufLen(ps[..|ps| - 1]) + PairLen(ps[|ps| - 1])
  }

  lemma {:induction false} BufLenIsData(ps: seq<Pair>)
    ensures BufLen(ps) == |Data(Items(ps))|
  {
    if ps != [] {
      BufLenIsData(ps[..|ps| - 1]);
      assert Items(ps)[..|ps| - 1] == Items(ps[..|ps| - 1]);
    }
  }

  /** hstoreUniquePairs. qsort leaves its result, the parameter sorted, in the array; the loop then compacts it. */
  method UniquePairs(a: array<Pair>, sorted: seq<Pair>) returns (count: nat, buflen: nat)
    requires SortOf(sorted, a[..])
    modifies a
    ensures count <= a.Length && a[..count] == Dedup(sorted) && buflen == BufLen(a[..count])
  {
    var l := a.Length;
    assert |sorted| == |multiset(sorted)| == |multiset(a[..])| == l;
    buflen := 0;
    if l < 2 {
      StrictIsFixed(a[..], sorted);
      if l == 1 {
        buflen := |a[0].key| + if a[0].isnull then 0 else |a[0].val|;
      }
      return l, buflen;
    }
    hide SortOf, Dedup;
    for k := 0 to l
      invariant forall k' :: 0 <= k' < k ==> a[k'] == sorted[k']
    {
      a[k] := sorted[k];
    }
    count, buflen := Compact(a, sorted);
  }

  lemma DedupStep(s: seq<Pair>, n: nat, d: seq<Pair>)
    requires 1 <= n < |s| && d == Dedup(s[..n])
    ensures d != [] && Dedup(s[..n + 1]) == if s[n].key == d[|d| - 1].key then d else d + [s[n]]
  {
    assert s[..n + 1][..n] == s[..n];
  }

  lemma DedupOne(s: seq<Pair>)
    requires |s| == 1
    ensures Dedup(s) == s && BufLen(s) == PairLen(s[0])
  {
    assert BufLen(s[..0]) == 0;
  }

  lemma BufLenStep(ps: seq<Pair>, p: Pair)
    ensures BufLen(ps + [p]) == BufLen(ps) + PairLen(p)
  {
    assert (ps + [p])[..|ps|] == ps;
  }

  /** The scan that keeps the first pair of every run, in place. */
  method Compact(a: array<Pair>, ghost sorted: seq<Pair>) returns (count: nat, buflen: nat)
    requires a.Length >= 2 && a[..] == sorted
    modifies a
    ensures count <= a.Length && a[..count] == Dedup(sorted) && buflen == BufLen(a[..count])
  {
    hide Dedup, BufLen, PairLen, KeyLess;
    var ptr, res := 1, 0;
    buflen := 0;
    ghost var kept := sorted[..1];
    DedupOne(kept);
    while ptr < a.Length
      invariant 0 <= res < ptr <= a.Length && |kept| == res + 1 && kept == Dedup(sorted[..ptr])
      invariant forall k :: 0 <= k <= res ==> a[k] == kept[k]
      invariant buflen + PairLen(kept[res]) == BufLen(kept)
      invariant forall k :: ptr <= k < a.Length ==> a[k] == sorted[k]
    {
      DedupStep(sorted, ptr, kept);
      assert a[res] == kept[res] && a[ptr] == sorted[ptr];
      if a[ptr].key != a[res].key {
        BufLenStep(kept, sorted[ptr]);
        buflen := buflen + PairLen(a[res]);
        res := res + 1;
        a[res] := a[ptr];
        kept := kept + [sorted[ptr]];
      }
      ptr := ptr + 1;
    }
    assert sorted[..a.Length] == sorted && a[..res + 1] == kept;
    return res + 1, buflen + PairLen(a[res]);
  }

  datatype Result<T> = Ok(value: T) | Err

  /** memcpy into the string area */
  method CopyInto(buf: array<byte>, at: nat, src: Str)
    requires at + |src| <= buf.Length
    modifies buf
    ensures buf[..at + |src|] == old(buf[..at]) + src
  {
    for k := 0 to |src|
      invariant buf[..at + k] == old(buf[..at]) + src[..k]
    {
      buf[at + k] := src[k];
      assert buf[..at + k + 1] == buf[..at + k] + [src[k]];
    }
    assert src[..|src|] == src;
  }

  /** The two words of pair i before HS_FINALIZE marks the first entry. */
  ghost predicate RawWordsAt(entries: seq<word>, items: seq<Item>, i: nat)
    requires i < |items| && 2 * i + 1 < |entries|
  {
    && Start(items, i + 1) < POS_LIMIT
    && entries[2 * i] == Entry(false, false, Start(items, i) + |items[i].key|)
    && entries[2 * i + 1] == Entry(false, items[i].val.None?, Start(items, i + 1))
  }

  ghost predicate RawWords(entries: seq<word>, items: seq<Item>, n: nat)
    requires n <= |items| && 2 * |items| == |entries|
  {
    forall k: nat :: k < n ==> RawWordsAt(entries, items, k)
  }

  /** hstorePairs: fails only where palloc refuses the size; otherwise packs the pairs into exactly buflen bytes. */
  method PackPairs(pairs: seq<Pair>, buflen: nat) returns (r: Result<HStore>)
    requires buflen == BufLen(pairs)
    ensures r.Err? <==> DataSize(|pairs|, buflen) > MAX_ALLOC_SIZE
    ensures r.Ok? ==> Packs(r.value, Items(pairs)) && |r.value.str| == buflen
  {
    hide Items, BufLen, RawWords, WordsAt, Packs, Start, Data;
    var pcount := |pairs|;
    var len := DataSize(pcount, buflen);
    if len > MAX_ALLOC_SIZE {
      return Err;
    }
    ghost var items := Items(pairs);
    BufLenIsData(pairs);
    var entry, buf := new word[2 * pcount], new byte[buflen];
    if pcount == 0 {
      NoneMeasured(pairs);
      r := Ok(HStore(len, HS_FLAG_NEWVERSION, entry[..], buf[..]));
      NothingPacked(r.value);
      return;
    }
    var ptr := AddItems(entry, buf, pairs, items);
    var first := MarkFirst(entry[..], items);
    entry[0] := entry[0] + HENTRY_ISFIRST;
    assert entry[..] == first;
    r := Ok(HStore(DataSize(pcount, ptr), HS_FLAG_NEWVERSION + pcount, entry[..], buf[..ptr]));
    AllPacked(r.value, items);
  }

  /** The loop of hstorePairs fills the string area to its end. */
  method AddItems(entry: array<word>, buf: array<byte>, pairs: seq<Pair>, ghost items: seq<Item>) returns (ptr: nat)
    requires items == Items(pairs) && entry.Length == 2 * |pairs| && |Data(items)| == buf.Length < POS_LIMIT
    modifies entry, buf
    ensures ptr == buf.Length && buf[..ptr] == Data(items) && RawWords(entry[..], items, |items|)
  {
    hide Items, RawWords, Start, Data;
    ptr := 0;
    NothingAdded(entry[..], items);
    for i := 0 to |pairs|
      invariant ptr == Start(items, i) <= buf.Length && buf[..ptr] == Data(items[..i])
      invariant RawWords(entry[..], items, i)
    {
      ptr := AddItem(entry, buf, ptr, pairs, i, items);
    }
    assert items[..|pairs|] == items;
    DataLength(items);
  }

  lemma NothingAdded(entries: seq<word>, items: seq<Item>)
    requires |entries| == 2 * |items|
    ensures Start(items, 0) == 0 && Data(items[..0]) == [] && RawWords(entries, items, 0)
  {
  }

  lemma NoneMeasured(pairs: seq<Pair>)
    requires pairs == []
    ensures BufLen(pairs) == 0 && Items(pairs) == []
  {
  }

  lemma NothingPacked(h: HStore)
    requires h == HStore(DataSize(0, 0), HS_FLAG_NEWVERSION, [], [])
    ensures Packs(h, [])
  {
  }

  lemma AllPacked(h: HStore, items: seq<Item>)
    requires |items| < 0x1000_0000 && |h.entries| == 2 * |items| && h.size == HS_FLAG_NEWVERSION + |items|
    requires h.str == Data(items) && h.varsize == DataSize(|items|, |h.str|)
    requires forall i: nat :: i < |items| ==> WordsAt(h.entries, items, i)
    ensures Packs(h, items)
  {
    hide WordsAt, Data;
  }

  /** HS_FINALIZE sets the first-entry bit of the first word. */
  lemma MarkFirst(raw: seq<word>, items: seq<Item>) returns (entries: seq<word>)
    requires 0 < |items| && |raw| == 2 * |items| && RawWords(raw, items, |items|)
    ensures raw[0] + HENTRY_ISFIRST < 0x1_0000_0000 && entries == raw[0 := raw[0] + HENTRY_ISFIRST]
    ensures forall i: nat :: i < |items| ==> WordsAt(entries, items, i)
  {
    hide Start;
    assert RawWordsAt(raw, items, 0);
    entries := raw[0 := raw[0] + HENTRY_ISFIRST];
    forall i: nat | i < |items| ensures WordsAt(entries, items, i) {
      assert RawWordsAt(raw, items, i);
    }
  }

  /** HS_ADDITEM */
  method AddItem(entry: array<word>, buf: array<byte>, ptr0: nat, pairs: seq<Pair>, i: nat, ghost items: seq<Item>)
    returns (ptr: nat)
    requires items == Items(pairs) && i < |pairs| && entry.Length == 2 * |pairs|
    requires |Data(items)| == buf.Length < POS_LIMIT
    requires ptr0 == Start(items, i) <= buf.Length && buf[..ptr0] == Data(items[..i])
    requires RawWords(entry[..], items, i)
    modifies entry, buf
    ensures ptr == Start(items, i + 1) <= buf.Length && buf[..ptr] == Data(items[..i + 1])
    ensures RawWords(entry[..], items, i + 1)
  {
    hide Data, Start, Items, RawWords;
    DataAt(items, i);
    DataSnoc(items, i);
    var keyEnd;
    keyEnd, ptr := CopyPair(buf, ptr0, pairs[i]);
    ghost var before := entry[..];
    entry[2 * i] := keyEnd % POS_LIMIT;
    entry[2 * i + 1] := ptr % POS_LIMIT + if pairs[i].isnull then HENTRY_ISNULL else 0;
    RawWordsGrow(before, entry[..], items, i);
  }

  /** Appends the key and, unless it is null, the value. */
  method CopyPair(buf: array<byte>, at: nat, p: Pair) returns (keyEnd: nat, end: nat)
    requires at + PairLen(p) <= buf.Length
    modifies buf
    ensures keyEnd == at + |p.key| && end == at + PairLen(p)
    ensures buf[..end] == old(buf[..at]) + ItemText(ItemOf(p))
  {
    CopyInto(buf, at, p.key);
    keyEnd := at + |p.key|;
    end := keyEnd;
    if !p.isnull {
      CopyInto(buf, end, p.val);
      end := end + |p.val|;
    }
  }

  lemma RawWordsGrow(before: seq<word>, after: seq<word>, items: seq<Item>, i: nat)
    requires i < |items| && |before| == |after| == 2 * |items| && RawWords(before, items, i)
    requires after[..2 * i] == before[..2 * i] && RawWordsAt(after, items, i)
    ensures RawWords(after, items, i + 1)
  {
    hide Start;
    forall k: nat | k < i ensures RawWordsAt(after, items, k) {
      assert RawWordsAt(before, items, k);
      assert after[..2 * i][2 * k] == before[..2 * i][2 * k] && after[..2 * i][2 * k + 1] == before[..2 * i][2 * k + 1];
    }
  }
}
