/** hstore_compat: telling old values from new ones and rewriting old ones in place. */
module HstoreCompat {
  import opened HstoreFormat
  import opened Options

  /** A stored value as raw memory: size, count word, the words of the entry area, the bytes after it. If the entries do
      not fit the size, these words are whatever follows in memory, and zero beyond. The two validity tests refuse
      such a value whatever the words are; the fast path of the upgrade reads the first of them. */
  function Peek(e: seq<word>, k: nat): word { if k < |e| then e[k] else 0 }

  /** The memory holds as many entry words and string bytes as the size says, if the entries fit at all. */
  ghost predicate Sized(h: HStore) {
    && h.varsize <= MAX_ALLOC_SIZE
    && (DataSize(Count(h), 0) <= h.varsize ==>
          |h.entries| == 2 * Count(h) && |h.str| == h.varsize - DataSize(Count(h), 0))
  }

  predicate NewVersion(h: HStore) { h.size >= HS_FLAG_NEWVERSION }

  // ---------------------------------------------------------------- HOldEntry

  function OldKeyLen(e: seq<word>, i: nat): nat { Peek(e, 2 * i) % 0x1_0000 }
  function OldValLen(e: seq<word>, i: nat): nat { Peek(e, 2 * i) / 0x1_0000 }
  predicate OldIsNull(e: seq<word>, i: nat) { Peek(e, 2 * i + 1) % 2 == 1 }
  function OldPos(e: seq<word>, i: nat): nat { Peek(e, 2 * i + 1) / 2 }

  /** The bytes of the first n pairs. */
  function OldEnd(e: seq<word>, n: nat): nat {
    if n == 0 then 0
    else OldEnd(e, n - 1) + OldKeyLen(e, n - 1) + if OldIsNull(e, n - 1) then 0 else OldValLen(e, n - 1)
  }

  /** What an old value means. */
  function OldItem(h: HStore, i: nat): Item
    requires OldPos(h.entries, i) + OldKeyLen(h.entries, i) <= |h.str|
    requires !OldIsNull(h.entries, i) ==>
               OldPos(h.entries, i) + OldKeyLen(h.entries, i) + OldValLen(h.entries, i) <= |h.str|
  {
    var k := OldPos(h.entries, i) + OldKeyLen(h.entries, i);
    Item(h.str[OldPos(h.entries, i)..k],
         if OldIsNull(h.entries, i) then None else Some(h.str[k..k + OldValLen(h.entries, i)]))
  }

  /** The checks hstoreValidOldFormat makes, in one formula. */
  ghost predicate OldShape(h: HStore) {
    && h.size <= 0xFFF_FFFF
    && (h.size > 0 ==>
          && DataSize(h.size, 0) <= h.varsize
          && OldPos(h.entries, 0) == 0
          && (forall i: nat :: 1 <= i < h.size ==> OldKeyLen(h.entries, i) >= OldKeyLen(h.entries, i - 1))
          && (forall i: nat :: i < h.size ==> OldPos(h.entries, i) == OldEnd(h.entries, i))
          && DataSize(h.size, OldEnd(h.entries, h.size)) <= h.varsize)
  }

  /** The first loop of hstoreValidOldFormat. */
  method KeysRise(e: seq<word>, count: nat) returns (ok: bool)
    requires count > 0
    ensures ok <==> forall k: nat :: 1 <= k < count ==> OldKeyLen(e, k) >= OldKeyLen(e, k - 1)
  {
    hide OldKeyLen;
    for i := 1 to count
      invariant forall k: nat :: 1 <= k < i ==> OldKeyLen(e, k) >= OldKeyLen(e, k - 1)
    {
      if OldKeyLen(e, i) < OldKeyLen(e, i - 1) {
        return false;
      }
    }
    return true;
  }

  /** The second loop of hstoreValidOldFormat. */
  method Contiguous(e: seq<word>, count: nat) returns (ok: bool, lastpos: nat)
    ensures ok <==> forall k: nat :: k < count ==> OldPos(e, k) == OldEnd(e, k)
    ensures ok ==> lastpos == OldEnd(e, count)
  {
    hide OldKeyLen, OldValLen, OldPos, OldIsNull;
    lastpos := 0;
    for i := 0 to count
      invariant lastpos == OldEnd(e, i)
      invariant forall k: nat :: k < i ==> OldPos(e, k) == OldEnd(e, k)
    {
      if OldPos(e, i) != lastpos {
        return false, lastpos;
      }
      lastpos := lastpos + OldKeyLen(e, i) + if OldIsNull(e, i) then 0 else OldValLen(e, i);
    }
    return true, lastpos;
  }

  /** hstoreValidOldFormat */
  method ValidOld(h: HStore) returns (v: nat)
    ensures v <= 2 && (v > 0 <==> OldShape(h))
    ensures v == 2 <==> OldShape(h) && (h.size > 0 ==> DataSize(h.size, OldEnd(h.entries, h.size)) == h.varsize)
  {
    hide OldKeyLen, OldValLen, OldPos, OldIsNull;
    if NewVersion(h) {
      return 0;
    }
    var count := h.size;
    if count == 0 {
      return 2;
    }
    if count > 0xFFF_FFFF || DataSize(count, 0) > h.varsize || OldPos(h.entries, 0) != 0 {
      return 0;
    }
    hide DataSize;
    var rise := KeysRise(h.entries, count);
    if !rise {
      return 0;
    }
    var contiguous, lastpos := Contiguous(h.entries, count);
    if !contiguous {
      return 0;
    }
    var vsize := DataSize(count, lastpos);
    if vsize > h.varsize {
      return 0;
    }
    return if vsize != h.varsize then 1 else 2;
  }

  // ---------------------------------------------------------------- new format

  function KeyLen(e: seq<word>, i: nat): int {
    if IsFirst(Peek(e, 2 * i)) || i == 0 then EndPos(Peek(e, 2 * i))
    else EndPos(Peek(e, 2 * i)) - EndPos(Peek(e, 2 * i - 1))
  }

  function NewLen(h: HStore): nat { if Count(h) > 0 then EndPos(Peek(h.entries, 2 * Count(h) - 1)) else 0 }

  ghost predicate EndsInOrder(e: seq<word>, n: nat) {
    forall i: nat :: 1 <= i < n ==> !IsFirst(Peek(e, i)) && EndPos(Peek(e, i)) >= EndPos(Peek(e, i - 1))
  }

  ghost predicate KeysInOrder(e: seq<word>, n: nat) {
    forall i: nat :: 1 <= i < n ==> KeyLen(e, i) >= KeyLen(e, i - 1) && !IsNull(Peek(e, 2 * i))
  }

  /** The checks hstoreValidNewFormat makes on a value without the version flag. */
  ghost predicate NewShape(h: HStore) {
    && IsFirst(Peek(h.entries, 0)) && DataSize(Count(h), NewLen(h)) <= h.varsize
    && EndsInOrder(h.entries, 2 * Count(h)) && KeysInOrder(h.entries, Count(h))
  }

  /** hstoreValidNewFormat */
  method ValidNew(h: HStore) returns (v: nat)
    ensures v <= 2 && (v > 0 <==> NewVersion(h) || Count(h) == 0 || NewShape(h))
    ensures v == 1 <==> !NewVersion(h) && Count(h) > 0 && NewShape(h) && DataSize(Count(h), NewLen(h)) != h.varsize
  {
    hide IsFirst, IsNull, EndPos, Peek, EndsInOrder, KeysInOrder;
    var count := Count(h);
    var vsize := DataSize(count, NewLen(h));
    if NewVersion(h) || count == 0 {
      return 2;
    }
    if !IsFirst(Peek(h.entries, 0)) || vsize > h.varsize {
      return 0;
    }
    var ends := CheckEnds(h.entries, 2 * count);
    if !ends {
      return 0;
    }
    var keys := CheckKeys(h.entries, count);
    if !keys {
      return 0;
    }
    return if vsize != h.varsize then 1 else 2;
  }

  /** The first loop of hstoreValidNewFormat. */
  method CheckEnds(e: seq<word>, n: nat) returns (ok: bool)
    requires n > 0
    ensures ok <==> EndsInOrder(e, n)
  {
    hide IsFirst, EndPos, Peek;
    for i := 1 to n
      invariant EndsInOrder(e, i)
    {
      if IsFirst(Peek(e, i)) || EndPos(Peek(e, i)) < EndPos(Peek(e, i - 1)) {
        return false;
      }
    }
    return true;
  }

  /** The second loop of hstoreValidNewFormat. */
  method CheckKeys(e: seq<word>, n: nat) returns (ok: bool)
    requires n > 0
    ensures ok <==> KeysInOrder(e, n)
  {
    hide IsNull, KeyLen, Peek;
    for i := 1 to n
      invariant KeysInOrder(e, i)
    {
      if KeyLen(e, i) < KeyLen(e, i - 1) || IsNull(Peek(e, 2 * i)) {
        return false;
      }
    }
    return true;
  }

  // ---------------------------------------------------------------- hstoreUpgrade

  /** Values returned as they are: flagged as new, empty, or short with the first-entry bit set. */
  predicate FastPath(h: HStore) {
    NewVersion(h) || h.size == 0 || (h.varsize < 32768 && IsFirst(Peek(h.entries, 0)))
  }

  /** A short old value takes the fast path if and only if its first value is null yet carries a length of 32768 or
      more. */
  lemma FastPathOnOld(h: HStore)
    requires OldShape(h) && h.size > 0 && h.varsize < 32768
    ensures FastPath(h) <==> OldIsNull(h.entries, 0) && OldValLen(h.entries, 0) >= 32768
  {
    var w := Peek(h.entries, 0);
    assert IsFirst(w) <==> OldValLen(h.entries, 0) >= 32768;
    if !OldIsNull(h.entries, 0) {
      assert OldEnd(h.entries, 1) >= OldValLen(h.entries, 0);
      OldEndMonotone(h.entries, 1, h.size);
    }
  }

  /** The old value {"a" => null} with a stale length of 32768: it is returned as it is, and read as {"a" => ""}. */
  lemma MisreadOld(h: HStore)
    requires h == HStore(17, 1, [0x8000_0001, 1], [97])
    ensures Sized(h) && OldShape(h) && FastPath(h) && Layout(h)
    ensures OldItems(h) == [Item([97], None)] && Decode(h) == [Item([97], Some([]))]
  {
    hide Peek, IsFirst, IsNull, EndPos, OldKeyLen, OldValLen, OldPos, OldIsNull, OldEnd;
    hide Count, Layout, Decode, OldShape, OldItems;
    MisreadFields(h);
    MisreadAsNew(h);
    MisreadWas(h);
  }

  lemma MisreadFields(h: HStore)
    requires h == HStore(17, 1, [0x8000_0001, 1], [97])
    ensures Count(h) == 1 && IsFirst(Peek(h.entries, 0))
    ensures OldKeyLen(h.entries, 0) == 1 && OldPos(h.entries, 0) == 0 && OldIsNull(h.entries, 0)
    ensures IsFirst(h.entries[0]) && EndPos(h.entries[0]) == 1
    ensures !IsFirst(h.entries[1]) && !IsNull(h.entries[1]) && EndPos(h.entries[1]) == 1
  {
  }

  lemma MisreadAsNew(h: HStore)
    requires Count(h) == 1 && |h.entries| == 2 && h.str == [97]
    requires IsFirst(h.entries[0]) && EndPos(h.entries[0]) == 1
    requires !IsFirst(h.entries[1]) && !IsNull(h.entries[1]) && EndPos(h.entries[1]) == 1
    ensures Layout(h) && Decode(h) == [Item([97], Some([]))]
  {
    hide IsFirst, IsNull, EndPos, Count;
    assert Off(h.entries, 0) == 0 && Off(h.entries, 1) == 1;
    assert h.str[0..1] == [97] && h.str[1..1] == [];
    assert Layout(h);
    assert Decode(h)[0] == ItemAt(h, 0);
  }

  lemma MisreadWas(h: HStore)
    requires h.varsize == 17 && h.size == Count(h) == 1 && |h.entries| == 2 && h.str == [97]
    requires OldKeyLen(h.entries, 0) == 1 && OldPos(h.entries, 0) == 0 && OldIsNull(h.entries, 0)
    ensures Sized(h) && OldShape(h) && OldItems(h) == [Item([97], None)]
  {
    hide Peek, OldKeyLen, OldValLen, OldPos, OldIsNull, Count;
    assert OldEnd(h.entries, 0) == 0 && OldEnd(h.entries, 1) == 1;
    assert h.str[0..1] == [97];
    assert OldItems(h)[0] == OldItem(h, 0);
  }

  lemma {:induction false} OldEndMonotone(e: seq<word>, i: nat, j: nat)
    requires i <= j
    ensures OldEnd(e, i) <= OldEnd(e, j)
    decreases j
  {
    if i < j { OldEndMonotone(e, i, j - 1); }
  }

  /** Every pair of a valid old value lies inside the string area. */
  lemma {:induction false} OldInBounds(h: HStore, i: nat)
    requires OldShape(h) && Sized(h) && i < h.size
    ensures OldPos(h.entries, i) == OldEnd(h.entries, i)
    ensures OldPos(h.entries, i) + OldKeyLen(h.entries, i) <= OldEnd(h.entries, i + 1) <= |h.str|
    ensures !OldIsNull(h.entries, i) ==>
              OldPos(h.entries, i) + OldKeyLen(h.entries, i) + OldValLen(h.entries, i) == OldEnd(h.entries, i + 1)
    ensures OldIsNull(h.entries, i) ==> OldPos(h.entries, i) + OldKeyLen(h.entries, i) == OldEnd(h.entries, i + 1)
    ensures OldEnd(h.entries, i + 1) < POS_LIMIT
  {
    assert Count(h) == h.size;
    hide OldKeyLen, OldValLen, OldPos, OldIsNull, Count;
    OldEndMonotone(h.entries, i + 1, h.size);
  }

  function OldItems(h: HStore): (items: seq<Item>)
    requires OldShape(h) && Sized(h)
    ensures |items| == h.size
  {
    seq(h.size, i requires 0 <= i < h.size => OldInBounds(h, i); OldItem(h, i))
  }

  /** Where the old pair i lies. */
  lemma {:induction false} OldItemAt(h: HStore, i: nat)
    requires OldShape(h) && Sized(h) && i < h.size
    ensures var item, start, end := OldItems(h)[i], OldEnd(h.entries, i), OldEnd(h.entries, i + 1);
            && start <= end <= |h.str| && ItemText(item) == h.str[start..end]
            && start + |item.key| == OldPos(h.entries, i) + OldKeyLen(h.entries, i)
            && end == start + |item.key| + ValLen(item) < POS_LIMIT
            && item.val.None? == OldIsNull(h.entries, i) && |item.key| == OldKeyLen(h.entries, i)
  {
    OldInBounds(h, i);
    assert OldItems(h)[i] == OldItem(h, i);
    hide OldShape, Sized, OldItems, OldKeyLen, OldValLen, OldPos, OldIsNull;
  }

  /** The upgrade keeps key lengths nondecreasing. */
  lemma OldKeysInOrder(h: HStore, i: nat)
    requires OldShape(h) && Sized(h) && 1 <= i < h.size
    ensures |OldItems(h)[i - 1].key| <= |OldItems(h)[i].key|
  {
    hide Sized, OldItems, OldEnd, OldKeyLen, OldValLen, OldPos, OldIsNull, ItemText;
    OldItemAt(h, i - 1);
    OldItemAt(h, i);
    assert OldKeyLen(h.entries, i) >= OldKeyLen(h.entries, i - 1);
  }

  /** The string area of an old value is laid out as that of a new one. */
  lemma {:induction false} OldData(h: HStore, n: nat)
    requires OldShape(h) && Sized(h) && n <= h.size
    ensures Start(OldItems(h), n) == OldEnd(h.entries, n) <= |h.str|
    ensures Data(OldItems(h)[..n]) == h.str[..OldEnd(h.entries, n)]
  {
    hide OldItems, Sized, OldShape, OldEnd;
    if n > 0 {
      OldData(h, n - 1);
      OldItemAt(h, n - 1);
      DataSnoc(OldItems(h), n - 1);
      hide Data;
    } else {
      OldStart(h.entries);
    }
  }

  lemma OldStart(e: seq<word>)
    ensures OldEnd(e, 0) == 0
  {
  }

  /** The words the upgrade writes for pair i; the first-entry bit is added last. */
  ghost predicate Rewritten(e: seq<word>, h: HStore, i: nat, first: bool)
    requires OldShape(h) && Sized(h) && i < h.size && 2 * i + 1 < |e|
  {
    OldInBounds(h, i);
    && e[2 * i] == Entry(first, false, OldPos(h.entries, i) + OldKeyLen(h.entries, i))
    && e[2 * i + 1] == Entry(false, OldIsNull(h.entries, i), OldEnd(h.entries, i + 1))
  }

  lemma {:induction false} RewrittenWords(e: seq<word>, h: HStore, i: nat)
    requires OldShape(h) && Sized(h) && i < h.size && 2 * i + 1 < |e| && Rewritten(e, h, i, i == 0)
    ensures WordsAt(e, OldItems(h), i)
  {
    hide OldShape, Sized, OldItems, Data, Start, OldEnd, OldKeyLen, OldValLen, OldPos, OldIsNull, Entry;
    OldItemAt(h, i);
    OldData(h, i);
    OldData(h, i + 1);
  }

  ghost predicate RewrittenUpTo(e: seq<word>, h: HStore, n: nat)
    requires OldShape(h) && Sized(h) && n <= h.size && |e| == 2 * h.size
  {
    forall i: nat :: i < n ==> Rewritten(e, h, i, false)
  }

  /** Marking the first entry and setting the exact sizes completes a packing of the old pairs. */
  lemma {:induction false} UpgradedPacks(e: seq<word>, h: HStore)
    requires OldShape(h) && Sized(h) && h.size > 0 && |e| == 2 * h.size && RewrittenUpTo(e, h, h.size)
    ensures OldEnd(h.entries, h.size) <= |h.str| && e[0] + HENTRY_ISFIRST < 0x1_0000_0000
    ensures var n := OldEnd(h.entries, h.size);
            var e' := e[0 := e[0] + HENTRY_ISFIRST];
            var g := HStore(DataSize(h.size, n), HS_FLAG_NEWVERSION + h.size, e', h.str[..n]);
            Packs(g, OldItems(h)) && EndPos(g.entries[2 * h.size - 1]) == n
  {
    assert Rewritten(e, h, 0, false) && Rewritten(e, h, h.size - 1, false);
    OldInBounds(h, 0);
    OldInBounds(h, h.size - 1);
    UpgradedWords(e, e[0 := e[0] + HENTRY_ISFIRST], h);
    OldData(h, h.size);
    hide Rewritten, RewrittenUpTo, OldShape, Sized, OldItems, OldEnd, OldPos, OldKeyLen, OldIsNull, WordsAt;
    assert OldItems(h)[..h.size] == OldItems(h);
  }

  lemma {:induction false} UpgradedWords(e: seq<word>, e': seq<word>, h: HStore)
    requires OldShape(h) && Sized(h) && h.size > 0 && |e| == 2 * h.size && RewrittenUpTo(e, h, h.size)
    requires e[0] + HENTRY_ISFIRST < 0x1_0000_0000 && e' == e[0 := e[0] + HENTRY_ISFIRST]
    ensures forall i: nat :: i < h.size ==> WordsAt(e', OldItems(h), i)
  {
    hide OldShape, Sized, OldItems, OldEnd, OldPos, OldKeyLen, OldIsNull, WordsAt;
    forall i: nat | i < h.size ensures WordsAt(e', OldItems(h), i) {
      assert Rewritten(e, h, i, false);
      assert Rewritten(e', h, i, i == 0);
      RewrittenWords(e', h, i);
    }
  }

  // ---------------------------------------------------------------- new values that are kept

  /** The new-format value with the version flag and its exact size. */
  function Trimmed(h: HStore): HStore
    requires NewLen(h) <= |h.str|
  {
    var n := NewLen(h);
    HStore(DataSize(Count(h), n), HS_FLAG_NEWVERSION + Count(h), h.entries, h.str[..n])
  }

  /** What hstoreValidNewFormat leaves untested: the null flag of the first key, and null values that have a length. */
  ghost predicate NullsClean(e: seq<word>, n: nat)
    requires 2 * n <= |e|
  {
    && (n > 0 ==> !IsNull(e[0]))
    && forall i: nat :: i < n && IsNull(e[2 * i + 1]) ==> EndPos(e[2 * i + 1]) == EndPos(e[2 * i])
  }

  ghost predicate Kept(h: HStore) { DataSize(0, 0) <= h.varsize && (Count(h) == 0 || NewShape(h)) }

  lemma KeptSize(h: HStore)
    requires Sized(h) && Kept(h)
    ensures |h.entries| == 2 * Count(h) && NewLen(h) <= |h.str|
    ensures Count(h) > 0 ==> NewLen(h) == EndPos(h.entries[2 * Count(h) - 1])
  {
    hide EndsInOrder, KeysInOrder, IsFirst;
  }

  lemma {:induction false} EndsBelow(e: seq<word>, k: nat, n: nat)
    requires EndsInOrder(e, n) && k < n <= |e|
    ensures EndPos(e[k]) <= EndPos(e[n - 1])
    decreases n - k
  {
    hide IsFirst, EndPos;
    if k + 1 < n {
      EndsBelow(e, k + 1, n);
      assert EndPos(Peek(e, k + 1)) >= EndPos(Peek(e, k));
    }
  }

  lemma EntryInOrder(e: seq<word>, k: nat, n: nat)
    requires EndsInOrder(e, n) && IsFirst(Peek(e, 0)) && k < n == |e|
    ensures (IsFirst(e[k]) <==> k == 0) && 0 <= Len(e, k) && EndPos(e[k]) <= EndPos(e[n - 1])
  {
    EndsBelow(e, k, n);
    hide IsFirst, EndPos;
    if k > 0 { assert !IsFirst(Peek(e, k)) && EndPos(Peek(e, k)) >= EndPos(Peek(e, k - 1)); }
  }

  /** Every key is at least as long as the one before, and no key but the first can be null. */
  ghost predicate KeysGrow(h: HStore)
    requires Layout(h)
  {
    forall i: nat :: 1 <= i < Count(h) ==>
      |Decode(h)[i - 1].key| <= |Decode(h)[i].key| && !IsNull(h.entries[2 * i])
  }

  /** The checks of hstoreValidNewFormat, on what the value means rather than on its words. */
  lemma NewShapeIs(h: HStore)
    requires Sized(h) && Count(h) > 0
    ensures NewShape(h) <==> DataSize(Count(h), NewLen(h)) <= h.varsize && Layout(h) && KeysGrow(h)
  {
    if NewShape(h) {
      KeptLayout(h);
      ShapeGrows(h);
    } else if DataSize(Count(h), NewLen(h)) <= h.varsize && Layout(h) && KeysGrow(h) {
      GrownKeys(h);
      LaidEnds(h);
      assert false;
    }
  }

  lemma ShapeGrows(h: HStore)
    requires Layout(h) && KeysInOrder(h.entries, Count(h))
    ensures KeysGrow(h)
  {
    hide Layout, IsFirst, EndPos, IsNull, KeyLen, Decode, Count;
    LaidCount(h);
    forall i: nat | 1 <= i < Count(h)
      ensures |Decode(h)[i - 1].key| <= |Decode(h)[i].key| && !IsNull(h.entries[2 * i])
    {
      assert KeyLen(h.entries, i) >= KeyLen(h.entries, i - 1) && !IsNull(Peek(h.entries, 2 * i));
      KeyLenIs(h, i);
      KeyLenIs(h, i - 1);
    }
  }

  lemma GrownKeys(h: HStore)
    requires Layout(h) && KeysGrow(h)
    ensures KeysInOrder(h.entries, Count(h))
  {
    hide Layout, IsFirst, EndPos, IsNull, KeyLen, Decode, Count;
    LaidCount(h);
    forall i: nat | 1 <= i < Count(h)
      ensures KeyLen(h.entries, i) >= KeyLen(h.entries, i - 1) && !IsNull(Peek(h.entries, 2 * i))
    {
      KeyLenIs(h, i);
      KeyLenIs(h, i - 1);
      assert |Decode(h)[i - 1].key| <= |Decode(h)[i].key| && !IsNull(h.entries[2 * i]);
    }
  }

  lemma LaidEnds(h: HStore)
    requires Layout(h) && Count(h) > 0
    ensures IsFirst(Peek(h.entries, 0)) && EndsInOrder(h.entries, 2 * Count(h))
  {
    hide IsFirst, EndPos, Count;
    var e := h.entries;
    forall i: nat | 1 <= i < 2 * Count(h)
      ensures !IsFirst(Peek(e, i)) && EndPos(Peek(e, i)) >= EndPos(Peek(e, i - 1))
    {
      assert 0 <= Len(e, i);
    }
  }

  lemma LaidCount(h: HStore)
    requires Layout(h)
    ensures |h.entries| == 2 * Count(h)
  {
  }

  lemma KeyLenIs(h: HStore, i: nat)
    requires Layout(h) && i < Count(h)
    ensures KeyLen(h.entries, i) == |Decode(h)[i].key|
  {
    hide IsFirst, EndPos, Count;
    assert 0 <= Len(h.entries, 2 * i);
  }

  /** A kept value is laid out as a new one and means the same when it is trimmed. */
  lemma KeptLayout(h: HStore)
    requires Sized(h) && Kept(h)
    ensures NewLen(h) <= |h.str| && Layout(h) && Layout(Trimmed(h)) && Decode(Trimmed(h)) == Decode(h)
  {
    KeptSize(h);
    TrimmedCount(h);
    hide Sized, EndsInOrder, KeysInOrder, IsFirst, EndPos, Count, Len;
    var g := Trimmed(h);
    forall k: nat | k < |h.entries|
      ensures (IsFirst(h.entries[k]) <==> k == 0) && 0 <= Len(h.entries, k) && EndPos(h.entries[k]) <= NewLen(h)
    {
      EntryInOrder(h.entries, k, 2 * Count(h));
    }
    hide NewLen, Trimmed;
    forall i: nat | i < Count(h) ensures ItemAt(g, i) == ItemAt(h, i) {
      SameText(h, g, 2 * i);
      SameText(h, g, 2 * i + 1);
    }
  }

  lemma TrimmedCount(h: HStore)
    requires NewLen(h) <= |h.str|
    ensures var g := Trimmed(h);
            Count(g) == Count(h) && g.entries == h.entries && g.str <= h.str && |g.str| == NewLen(h)
  {
  }

  lemma SameText(h: HStore, g: HStore, k: nat)
    requires Layout(h) && Layout(g) && h.entries == g.entries && g.str <= h.str && k < |h.entries|
    ensures Text(g, k) == Text(h, k)
  {
  }

  ghost predicate PairClean(e: seq<word>, i: nat)
    requires 2 * i + 1 < |e|
  {
    !IsNull(e[2 * i]) && (IsNull(e[2 * i + 1]) ==> Len(e, 2 * i + 1) == 0)
  }

  /** It is then well formed exactly if the null flags that were not tested are clean. */
  lemma KeptWellFormedIff(h: HStore)
    requires Sized(h) && Kept(h)
    ensures NewLen(h) <= |h.str| && |h.entries| == 2 * Count(h)
    ensures WellFormed(Trimmed(h)) <==> NullsClean(h.entries, Count(h))
  {
    KeptSize(h);
    hide Sized, Kept, WellFormed, Trimmed, Count, NewLen, NullsClean, PairClean;
    TrimmedWellFormedIff(h);
    CleanIff(h);
  }

  lemma TrimmedWellFormedIff(h: HStore)
    requires Sized(h) && Kept(h) && NewLen(h) <= |h.str| && |h.entries| == 2 * Count(h)
    ensures WellFormed(Trimmed(h)) <==> forall i: nat :: i < Count(h) ==> PairClean(h.entries, i)
  {
    KeptSize(h);
    KeptLayout(h);
    TrimmedCount(h);
    hide Sized, Kept, Layout, IsFirst, EndPos, IsNull, Count, NewLen, Len;
    var g, e := Trimmed(h), h.entries;
    if WellFormed(g) {
      forall i: nat | i < Count(h) ensures PairClean(e, i) { assert !IsNull(g.entries[2 * i]); }
    }
    if forall i: nat :: i < Count(h) ==> PairClean(e, i) {
      forall i: nat | i < Count(g) ensures !IsNull(g.entries[2 * i]) { assert PairClean(e, i); }
      forall i: nat | i < Count(g) && IsNull(g.entries[2 * i + 1]) ensures Len(g.entries, 2 * i + 1) == 0 {
        assert PairClean(e, i);
      }
      NoEntriesNoText(h);
      hide NullsClean, PairClean;
    }
  }

  lemma NoEntriesNoText(h: HStore)
    requires NewLen(h) <= |h.str|
    ensures Trimmed(h).size == HS_FLAG_NEWVERSION + Count(h) && Trimmed(h).varsize == DataSize(Count(h), NewLen(h))
    ensures Count(h) == 0 ==> NewLen(h) == 0
  {
  }

  lemma CleanIff(h: HStore)
    requires Kept(h) && |h.entries| == 2 * Count(h)
    ensures NullsClean(h.entries, Count(h)) <==> forall i: nat :: i < Count(h) ==> PairClean(h.entries, i)
  {
    hide Kept, Count, IsNull, EndPos, Len;
    var e, n := h.entries, Count(h);
    forall i: nat | i < n
      ensures PairClean(e, i) <==>
              (i == 0 ==> !IsNull(e[0])) && (IsNull(e[2 * i + 1]) ==> EndPos(e[2 * i + 1]) == EndPos(e[2 * i]))
    {
      KeptPair(h, i);
    }
    hide PairClean;
    if n > 0 && forall i: nat :: i < n ==> PairClean(e, i) { assert PairClean(e, 0); }
  }

  lemma KeptPair(h: HStore, i: nat)
    requires Kept(h) && |h.entries| == 2 * Count(h) && i < Count(h)
    ensures i > 0 ==> !IsNull(h.entries[2 * i])
    ensures Len(h.entries, 2 * i + 1) == 0 <==> EndPos(h.entries[2 * i + 1]) == EndPos(h.entries[2 * i])
  {
    hide IsFirst, EndPos, IsNull, Count, KeyLen;
    if i > 0 { assert !IsNull(Peek(h.entries, 2 * i)); }
    assert !IsFirst(Peek(h.entries, 2 * i + 1));
  }

  /** A value with a null flag on its first key, whatever its bytes, is kept as new and is then not well formed. */
  lemma KeptNullKey(h: HStore)
    requires h.varsize == 32768 && h.size == 1 && h.entries == [0xC000_0001, 2] && |h.str| == 32752
    ensures Sized(h) && !FastPath(h) && !OldShape(h) && Kept(h)
    ensures NewLen(h) <= |h.str| && !WellFormed(Trimmed(h))
  {
    assert Count(h) == 1 && Peek(h.entries, 0) == 0xC000_0001 && Peek(h.entries, 1) == 2;
    assert OldPos(h.entries, 0) == 1 && NewLen(h) == 2;
    KeptWellFormedIff(h);
    hide WellFormed, Trimmed;
    assert IsNull(h.entries[0]);
  }

  /** A value kept as new: it means what it meant, and a writable one is, up to its exact size, the trimmed value. */
  ghost predicate KeepsNew(was: HStore, now: HStore, writable: bool) {
    && NewLen(was) <= |was.str| && Layout(was) && Layout(now) && Decode(now) == Decode(was) && now.str == was.str
    && (writable ==> HStore(now.varsize, now.size, now.entries, now.str[..NewLen(was)]) == Trimmed(was))
  }

  lemma KeptStored(was: HStore, now: HStore, writable: bool)
    requires Sized(was) && Kept(was) && was.entries == now.entries && was.str == now.str
    requires if writable
             then now.size == HS_FLAG_NEWVERSION + Count(was) && now.varsize == DataSize(Count(was), NewLen(was))
             else now == was
    ensures KeepsNew(was, now, writable)
  {
    KeptLayout(was);
    assert Count(now) == Count(was);
    hide NewShape, Sized, Count, NewLen, IsFirst, EndPos, Len;
    forall i: nat | i < Count(was) ensures ItemAt(now, i) == ItemAt(was, i) {
      SameText(was, now, 2 * i);
      SameText(was, now, 2 * i + 1);
    }
  }

  // ---------------------------------------------------------------- which old values keep their meaning

  /** Read as a new value, it gives the pairs that the old value meant. */
  ghost predicate MeansOld(now: HStore, was: HStore)
    requires OldShape(was) && Sized(was)
  {
    Layout(now) && Decode(now) == OldItems(was)
  }

  /** A short value whose first value is null and carries a length of 32768 or more. */
  ghost predicate Stale(h: HStore) {
    h.size > 0 && h.varsize < 32768 && OldIsNull(h.entries, 0) && OldValLen(h.entries, 0) >= 32768
  }

  /** Every old value that takes the fast path is misread: its first value is null and is read as a string. */
  lemma MisreadAlways(h: HStore)
    requires OldShape(h) && Sized(h) && h.size > 0 && FastPath(h)
    ensures Stale(h) && !MeansOld(h, h)
  {
    FastPathOnOld(h);
    OldItemAt(h, 0);
    StaleWord(h);
    hide OldItems, OldShape, OldEnd, OldPos, OldKeyLen, OldValLen, OldIsNull, IsNull;
    if Layout(h) {
      assert Decode(h)[0] == ItemAt(h, 0);
    }
  }

  lemma StaleWord(h: HStore)
    requires OldShape(h) && Sized(h) && h.size > 0 && OldIsNull(h.entries, 0)
    ensures Count(h) == h.size && |h.entries| >= 2 && !IsNull(h.entries[1])
  {
    assert Count(h) == h.size;
    assert Peek(h.entries, 1) == 1;
  }

  lemma StaleTakesFastPath(h: HStore)
    ensures OldShape(h) && Stale(h) ==> FastPath(h) && h.size > 0
    ensures Stale(h) ==> h.size > 0
  {
    if OldShape(h) && Stale(h) { FastPathOnOld(h); }
  }

  /** A rewritten value means what the old one meant, also with slack behind the strings. */
  lemma RewrittenMeansOld(now: HStore, was: HStore, n: nat)
    requires OldShape(was) && Sized(was) && n <= |now.str|
    requires Packs(HStore(now.varsize, now.size, now.entries, now.str[..n]), OldItems(was))
    ensures MeansOld(now, was)
  {
    var g, items := HStore(now.varsize, now.size, now.entries, now.str[..n]), OldItems(was);
    hide OldShape, Sized, OldItems, Packs, Layout, Decode;
    PackedWellFormed(g, items);
    SlackKept(now, g);
  }

  /** Bytes behind the last text change nothing. */
  lemma SlackKept(h: HStore, g: HStore)
    requires Layout(g) && h.size == g.size && h.entries == g.entries && g.str <= h.str
    ensures Layout(h) && Decode(h) == Decode(g)
  {
    assert Count(g) == Count(h);
    hide Count, EndPos, IsFirst, IsNull;
    forall i: nat | i < Count(h) ensures ItemAt(g, i) == ItemAt(h, i) {
      SameText(h, g, 2 * i);
      SameText(h, g, 2 * i + 1);
    }
  }

  lemma EmptyMeansOld(h: HStore)
    requires OldShape(h) && Sized(h) && h.size == 0 && DataSize(0, 0) <= h.varsize
    ensures MeansOld(h, h)
  {
    assert Count(h) == 0;
  }

  /** A stored value that may be rewritten in place. */
  class Stored {
    var varsize: nat
    var size: word
    const entries: array<word>
    const str: Str

    constructor (varsize: nat, size: word, entries: array<word>, str: Str)
      ensures this.varsize == varsize && this.size == size && this.entries == entries && this.str == str
    {
      this.varsize, this.size, this.entries, this.str := varsize, size, entries, str;
    }

    ghost function Value(): HStore
      reads this, entries
    {
      HStore(varsize, size, entries[..], str)
    }

    /** hstoreUpgrade, with the ambiguous case resolved as old. */
    method Upgrade(writable: bool) returns (ok: bool)
      requires Sized(Value())
      modifies this, entries
      ensures FastPath(old(Value())) ==> ok && Value() == old(Value())
      ensures var was := old(Value());
              !FastPath(was) && OldShape(was) ==>
                var n := OldEnd(was.entries, was.size);
                && ok && n <= |str| && Packs(HStore(varsize, size, entries[..], str[..n]), OldItems(was))
                && varsize == DataSize(was.size, n) <= was.varsize
      ensures var was := old(Value());
              OldShape(was) && DataSize(0, 0) <= was.varsize ==> ok && (MeansOld(Value(), was) <==> !Stale(was))
      ensures var was := old(Value());
              !FastPath(was) && !OldShape(was) ==>
                && ok == (Count(was) == 0 || NewShape(was)) && entries[..] == was.entries
                && (ok && writable ==>
                      size == HS_FLAG_NEWVERSION + Count(was) && varsize == DataSize(Count(was), NewLen(was)))
                && (!ok || !writable ==> Value() == was)
                && (ok && DataSize(0, 0) <= was.varsize ==> KeepsNew(was, Value(), writable))
    {
      hide OldShape, NewShape, KeepsNew, NewLen, MeansOld, Stale;
      var now := HStore(varsize, size, entries[..], str);
      StaleTakesFastPath(now);
      if FastPath(now) {
        if OldShape(now) && now.size > 0 { MisreadAlways(now); }
        if OldShape(now) && now.size == 0 && DataSize(0, 0) <= varsize { EmptyMeansOld(now); }
        return true;
      }
      var validNew := ValidNew(now);
      var validOld := ValidOld(now);
      if validOld == 0 {
        if validNew == 0 {
          return false;
        }
        if writable {
          size := HS_FLAG_NEWVERSION + Count(now);
          varsize := DataSize(Count(now), NewLen(now));
        }
        if DataSize(0, 0) <= now.varsize { KeptStored(now, Value(), writable); }
        return true;
      }
      assert now.size > 0 && !NewVersion(now);
      Rewrite(now);
      RewrittenMeansOld(Value(), now, OldEnd(now.entries, now.size));
      return true;
    }

    /** The loop that overwrites each old entry with the two new words in its place. */
    method Rewrite(ghost was: HStore)
      requires was == Value() && OldShape(was) && Sized(was) && was.size > 0
      modifies this, entries
      ensures var n := OldEnd(was.entries, was.size);
              && n <= |str| && Packs(HStore(varsize, size, entries[..], str[..n]), OldItems(was))
              && varsize == DataSize(was.size, n) <= was.varsize
    {
      OldExtent(was);
      hide OldShape, Sized, OldItems, OldEnd, Packs, EndPos, Rewritten, Count;
      var count := size;
      ghost var e := entries[..];
      for i := 0 to count
        invariant size == count && RewrittenUpTo(entries[..], was, i)
        invariant entries[2 * i..] == was.entries[2 * i..]
      {
        RewriteEntry(i, was);
      }
      UpgradedPacks(entries[..], was);
      entries[0] := entries[0] + HENTRY_ISFIRST;
      size := HS_FLAG_NEWVERSION + count;
      varsize := DataSize(count, EndPos(entries[2 * count - 1]));
    }

    method RewriteEntry(i: nat, ghost was: HStore)
      requires OldShape(was) && Sized(was) && i < was.size && entries.Length == |was.entries| == 2 * was.size
      requires RewrittenUpTo(entries[..], was, i) && entries[2 * i..] == was.entries[2 * i..]
      modifies entries
      ensures RewrittenUpTo(entries[..], was, i + 1) && entries[2 * i + 2..] == was.entries[2 * i + 2..]
    {
      hide OldShape, Sized, OldPos, OldKeyLen, OldValLen, OldIsNull, OldEnd, RewrittenUpTo;
      ghost var before := entries[..];
      assert entries[2 * i] == entries[2 * i..][0] == was.entries[2 * i];
      assert entries[2 * i + 1] == entries[2 * i..][1] == was.entries[2 * i + 1];
      OldFields(was.entries, i);
      OldInBounds(was, i);
      var pos, keylen := entries[2 * i + 1] / 2, entries[2 * i] % 0x1_0000;
      var vallen, isnull := entries[2 * i] / 0x1_0000, entries[2 * i + 1] % 2 == 1;
      if isnull {
        vallen := 0;
      }
      entries[2 * i] := (pos + keylen) % POS_LIMIT;
      entries[2 * i + 1] := (pos + keylen + vallen) % POS_LIMIT + if isnull then HENTRY_ISNULL else 0;
      assert Rewritten(entries[..], was, i, false);
      RewrittenGrows(before, entries[..], was, i);
    }
  }

  lemma OldExtent(h: HStore)
    requires OldShape(h) && Sized(h) && h.size > 0
    ensures |h.entries| == 2 * h.size && DataSize(h.size, OldEnd(h.entries, h.size)) <= h.varsize
  {
  }

  lemma OldFields(e: seq<word>, i: nat)
    requires 2 * i + 1 < |e|
    ensures OldPos(e, i) == e[2 * i + 1] / 2 && OldIsNull(e, i) == (e[2 * i + 1] % 2 == 1)
    ensures OldKeyLen(e, i) == e[2 * i] % 0x1_0000 && OldValLen(e, i) == e[2 * i] / 0x1_0000
  {
  }

  lemma RewrittenGrows(before: seq<word>, after: seq<word>, h: HStore, i: nat)
    requires OldShape(h) && Sized(h) && i < h.size && |before| == |after| == 2 * h.size
    requires RewrittenUpTo(before, h, i) && after[..2 * i] == before[..2 * i] && Rewritten(after, h, i, false)
    ensures RewrittenUpTo(after, h, i + 1)
  {
    hide OldShape, Sized, OldPos, OldKeyLen, OldIsNull, OldEnd, Entry;
    forall k: nat | k < i ensures Rewritten(after, h, k, false) {
      assert Rewritten(before, h, k, false);
      assert after[2 * k] == after[..2 * i][2 * k] == before[2 * k];
      assert after[2 * k + 1] == after[..2 * i][2 * k + 1] == before[2 * k + 1];
    }
  }
}
