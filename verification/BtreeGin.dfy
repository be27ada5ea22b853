/** btree_gin: comparison operators answered by one partial-match scan over the sorted keys of a GIN index. */
module BtreeGin {
  import opened Options
  import opened Order

  const LESS := 1
  const LESS_EQUAL := 2
  const EQUAL := 3
  const GREATER_EQUAL := 4
  const GREATER := 5

  /** The keys of an index: each once, in increasing order. */
  ghost predicate Increasing<T(!new)>(cmp: Comparison<T>, keys: seq<T>) {
    forall i, j :: 0 <= i < j < |keys| ==> cmp(keys[i], keys[j]) < 0
  }

  /** The operator of a strategy. */
  predicate Satisfies<T>(cmp: Comparison<T>, strategy: nat, key: T, datum: T) {
    match strategy
    case 1 => cmp(key, datum) < 0
    case 2 => cmp(key, datum) <= 0
    case 3 => cmp(key, datum) == 0
    case 4 => cmp(key, datum) >= 0
    case 5 => cmp(key, datum) > 0
    case _ => false
  }

  predicate FromLeft(strategy: nat) { strategy == LESS || strategy == LESS_EQUAL }

  /** GIN_EXTRACT_QUERY: where the scan starts and whether it goes on from there; other strategies are an error. */
  function ExtractQuery<T>(strategy: nat, datum: T, leftmost: T): Option<(T, bool)> {
    if FromLeft(strategy) then Some((leftmost, true))
    else if strategy == GREATER_EQUAL || strategy == GREATER then Some((datum, true))
    else if strategy == EQUAL then Some((datum, false))
    else None
  }

  /** GIN_COMPARE_PREFIX: zero to take the key, negative to skip it, positive to stop. */
  function ComparePrefix<T>(cmp: Comparison<T>, strategy: nat, datum: T, entry: T, key: T): int
    requires LESS <= strategy <= GREATER
  {
    var c := cmp(if FromLeft(strategy) then datum else entry, key);
    if strategy == LESS then (if c > 0 then 0 else 1)
    else if strategy == LESS_EQUAL then (if c >= 0 then 0 else 1)
    else if strategy == EQUAL then (if c != 0 then 1 else 0)
    else if strategy == GREATER_EQUAL then (if c <= 0 then 0 else 1)
    else if c < 0 then 0 else if c == 0 then -1 else 1
  }

  /** entryLocateLeafEntry: the first key not below the entry, and whether it equals it. */
  method FindItem<T(!new)>(cmp: Comparison<T>, keys: seq<T>, entry: T) returns (off: nat, equal: bool)
    requires TotalOrder(cmp) && Increasing(cmp, keys)
    ensures off <= |keys|
    ensures forall i :: 0 <= i < off ==> cmp(keys[i], entry) < 0
    ensures forall i :: off <= i < |keys| ==> cmp(entry, keys[i]) <= 0
    ensures equal <==> off < |keys| && cmp(entry, keys[off]) == 0
  {
    hide TotalOrder;
    var low, high := 0, |keys|;
    while high > low
      invariant 0 <= low <= high <= |keys|
      invariant forall i :: 0 <= i < low ==> cmp(keys[i], entry) < 0
      invariant forall i :: high <= i < |keys| ==> cmp(entry, keys[i]) < 0
    {
      var mid := low + (high - low) / 2;
      var result := cmp(entry, keys[mid]);
      Around(cmp, keys, entry, mid);
      if result == 0 {
        return mid, true;
      } else if result > 0 {
        low := mid + 1;
      } else {
        high := mid;
      }
    }
    return high, false;
  }

  /** What one comparison says about the keys on either side. */
  lemma Around<T(!new)>(cmp: Comparison<T>, keys: seq<T>, entry: T, mid: nat)
    requires TotalOrder(cmp) && Increasing(cmp, keys) && mid < |keys|
    ensures cmp(entry, keys[mid]) >= 0 ==> forall i :: 0 <= i < mid ==> cmp(keys[i], entry) < 0
    ensures cmp(entry, keys[mid]) > 0 ==> cmp(keys[mid], entry) < 0
    ensures cmp(entry, keys[mid]) <= 0 ==> forall i :: mid < i < |keys| ==> cmp(entry, keys[i]) < 0
  {
    forall i | 0 <= i < mid && cmp(entry, keys[mid]) >= 0 ensures cmp(keys[i], entry) < 0 {
      Below(cmp, keys[i], keys[mid], entry);
    }
    forall i | mid < i < |keys| && cmp(entry, keys[mid]) <= 0 ensures cmp(entry, keys[i]) < 0 {
      Below(cmp, entry, keys[mid], keys[i]);
    }
  }

  /** What a search finds of the keys that satisfy its operator. */
  predicate Found<T>(cmp: Comparison<T>, strategy: nat, datum: T, leftmost: T, key: T) {
    Satisfies(cmp, strategy, key, datum) && (strategy < 3 ==> cmp(leftmost, key) <= 0)
  }

  /** The offsets of exactly the found keys among the first n, in order. */
  ghost predicate Collected<T>(offs: seq<nat>, cmp: Comparison<T>, strategy: nat, datum: T, leftmost: T, keys: seq<T>,
                               n: nat)
    requires n <= |keys|
  {
    && (forall i: nat :: i in offs <==> i < n && Found(cmp, strategy, datum, leftmost, keys[i]))
    && (forall j, k :: 0 <= j < k < |offs| ==> offs[j] < offs[k])
  }

  lemma CollectedNext<T>(offs: seq<nat>, cmp: Comparison<T>, strategy: nat, datum: T, leftmost: T, keys: seq<T>, n: nat)
    requires n < |keys| && Collected(offs, cmp, strategy, datum, leftmost, keys, n)
    ensures Collected(if Found(cmp, strategy, datum, leftmost, keys[n]) then offs + [n] else offs,
                      cmp, strategy, datum, leftmost, keys, n + 1)
  {
    hide Found;
    var next := if Found(cmp, strategy, datum, leftmost, keys[n]) then offs + [n] else offs;
    forall i: nat ensures i in next <==> i < n + 1 && Found(cmp, strategy, datum, leftmost, keys[i]) {
      assert i in offs <==> i < n && Found(cmp, strategy, datum, leftmost, keys[i]);
    }
    forall j, k | 0 <= j < k < |next| ensures next[j] < next[k] {
      assert offs[j] in offs;
    }
  }

  /** A scan by startScanEntry and collectMatchBitmap; gin_btree_consistent takes what it collects without recheck. */
  method Search<T(!new)>(cmp: Comparison<T>, keys: seq<T>, strategy: nat, datum: T, leftmost: T)
      returns (r: Option<seq<nat>>)
    requires TotalOrder(cmp) && Increasing(cmp, keys)
    ensures r.Some? <==> 1 <= strategy <= 5
    ensures r.Some? ==> Collected(r.value, cmp, strategy, datum, leftmost, keys, |keys|)
  {
    var query := ExtractQuery(strategy, datum, leftmost);
    if query.None? {
      return None;
    }
    var (entry, partialMatch) := query.value;
    var off, equal := FindItem(cmp, keys, entry);
    if partialMatch {
      var offs := Collect(cmp, keys, strategy, datum, leftmost, entry, off);
      return Some(offs);
    } else if equal {
      Around(cmp, keys, entry, off);
      return Some([off]);
    } else {
      return Some([]);
    }
  }

  /** collectMatchBitmap, from the first key not below the entry. */
  method Collect<T(!new)>(cmp: Comparison<T>, keys: seq<T>, strategy: nat, datum: T, leftmost: T, entry: T, start: nat)
      returns (offs: seq<nat>)
    requires TotalOrder(cmp) && Increasing(cmp, keys)
    requires LESS <= strategy <= GREATER && ExtractQuery(strategy, datum, leftmost) == Some((entry, true))
    requires start <= |keys|
    requires forall i :: 0 <= i < start ==> cmp(keys[i], entry) < 0
    requires forall i :: start <= i < |keys| ==> cmp(entry, keys[i]) <= 0
    ensures Collected(offs, cmp, strategy, datum, leftmost, keys, |keys|)
  {
    hide Increasing, ComparePrefix;
    offs := [];
    assert Collected(offs, cmp, strategy, datum, leftmost, keys, start);
    var off := start;
    while off < |keys|
      invariant start <= off <= |keys|
      invariant Collected(offs, cmp, strategy, datum, leftmost, keys, off)
    {
      var c := ComparePrefix(cmp, strategy, datum, entry, keys[off]);
      PrefixDecides(cmp, strategy, datum, leftmost, entry, keys, off);
      CollectedNext(offs, cmp, strategy, datum, leftmost, keys, off);
      if c > 0 {
        return;
      } else if c == 0 {
        offs := offs + [off];
      }
      off := off + 1;
    }
  }

  /** The comparison takes exactly the found keys, and once it stops no found key follows. */
  lemma PrefixDecides<T(!new)>(cmp: Comparison<T>, strategy: nat, datum: T, leftmost: T, entry: T, keys: seq<T>,
                               off: nat)
    requires TotalOrder(cmp) && Increasing(cmp, keys)
    requires LESS <= strategy <= GREATER && ExtractQuery(strategy, datum, leftmost).value.0 == entry
    requires off < |keys| && cmp(entry, keys[off]) <= 0
    ensures ExtractQuery(strategy, datum, leftmost).value.1 <==> strategy != 3
    ensures ComparePrefix(cmp, strategy, datum, entry, keys[off]) == 0 <==>
              Found(cmp, strategy, datum, leftmost, keys[off])
    ensures ComparePrefix(cmp, strategy, datum, entry, keys[off]) > 0 ==>
              forall i :: off <= i < |keys| ==> !Found(cmp, strategy, datum, leftmost, keys[i])
  {
    if ComparePrefix(cmp, strategy, datum, entry, keys[off]) > 0 {
      forall i | off <= i < |keys| ensures !Found(cmp, strategy, datum, leftmost, keys[i]) {
        if off < i { Below(cmp, datum, keys[off], keys[i]); }
      }
    }
  }

  /** Searches miss nothing, whatever is stored and asked, exactly when the leftmost value is least. */
  lemma ExactIffLeast<T(!new)>(cmp: Comparison<T>, leftmost: T)
    requires TotalOrder(cmp)
    ensures (forall strategy: nat, datum: T, key: T ::
               Satisfies(cmp, strategy, key, datum) ==> Found(cmp, strategy, datum, leftmost, key))
            <==> (forall key: T :: cmp(leftmost, key) <= 0)
  {
    if forall strategy: nat, datum: T, key: T ::
         Satisfies(cmp, strategy, key, datum) ==> Found(cmp, strategy, datum, leftmost, key) {
      forall key: T ensures cmp(leftmost, key) <= 0 {
        assert cmp(key, key) == 0;
        assert Satisfies(cmp, LESS_EQUAL, key, key);
        assert Found(cmp, LESS_EQUAL, key, leftmost, key);
      }
    }
  }

  // ---------------------------------------------------------------- bigint

  function CompareInts(a: int, b: int): int { if a < b then -1 else if a > b then 1 else 0 }

  const INT64_MIN: int := -0x8000_0000_0000_0000
  const INT64_MAX: int := 0x7FFF_FFFF_FFFF_FFFF

  /** leftmostvalue_int8, and leftmostvalue_money too: SEQ_MINVALUE, one above the least bigint. */
  const LEFTMOST_INT8: int := -0x7FFF_FFFF_FFFF_FFFF

  /** A bigint that satisfies its operator is missed exactly when it is the least one and the operator is < or <=. */
  lemma Int8Misses(strategy: nat, datum: int, key: int)
    requires INT64_MIN <= key <= INT64_MAX && Satisfies(CompareInts, strategy, key, datum)
    ensures TotalOrder(CompareInts)
    ensures !Found(CompareInts, strategy, datum, LEFTMOST_INT8, key) <==> key == INT64_MIN && FromLeft(strategy)
  {
  }

  lemma Inhabited(offs: seq<nat>)
    ensures offs == [] || exists i: nat :: i in offs
  {
    if offs != [] { assert offs[0] in offs; }
  }

  /** Such a miss: the least bigint is stored and satisfies < 0, and the search returns nothing. */
  lemma Int8LosesLeast(offs: seq<nat>)
    requires Collected(offs, CompareInts, LESS, 0, LEFTMOST_INT8, [INT64_MIN], 1)
    ensures Satisfies(CompareInts, LESS, INT64_MIN, 0) && offs == []
  {
    Inhabited(offs);
    assert !Found(CompareInts, LESS, 0, LEFTMOST_INT8, [INT64_MIN][0]);
  }

  // ---------------------------------------------------------------- "char"

  /** btcharcmp compares signed characters as unsigned ones. */
  function AsUnsigned(a: int): int { a % 256 }

  function CompareChars(a: int, b: int): int { AsUnsigned(a) - AsUnsigned(b) }

  const SCHAR_MIN: int := -128
  const SCHAR_MAX: int := 127

  /** leftmostvalue_char: 128 as an unsigned character. */
  const LEFTMOST_CHAR: int := SCHAR_MIN

  /** A "char" that satisfies its operator is missed exactly when it is not negative and the operator is < or <=. */
  lemma CharMisses(strategy: nat, datum: int, key: int)
    requires SCHAR_MIN <= key <= SCHAR_MAX && Satisfies(CompareChars, strategy, key, datum)
    ensures TotalOrder(CompareChars)
    ensures !Found(CompareChars, strategy, datum, LEFTMOST_CHAR, key) <==> 0 <= key && FromLeft(strategy)
  {
    assert AsUnsigned(LEFTMOST_CHAR) == 128;
    assert AsUnsigned(key) == if key < 0 then key + 256 else key;
    hide AsUnsigned;
  }

  /** Such a miss: "a" is stored and is less than "b", and the search returns nothing. */
  lemma CharLosesLetter(offs: seq<nat>)
    requires Collected(offs, CompareChars, LESS, 98, LEFTMOST_CHAR, [97], 1)
    ensures Satisfies(CompareChars, LESS, 97, 98) && offs == []
  {
    Inhabited(offs);
    CharMisses(LESS, 98, 97);
    assert !Found(CompareChars, LESS, 98, LEFTMOST_CHAR, [97][0]);
  }

  // ---------------------------------------------------------------- numeric

  /** gin_numeric_cmp: None stands for the null pointer that serves as leftmost value. */
  function NumericCmp<T>(cmp: Comparison<T>, a: Option<T>, b: Option<T>): int {
    if a.None? then (if b.None? then 0 else -1)
    else if b.None? then 1
    else cmp(a.value, b.value)
  }

  /** It orders the numerics and the null pointer totally, the null pointer strictly below every numeric. */
  lemma NumericOrder<T(!new)>(cmp: Comparison<T>)
    requires TotalOrder(cmp)
    ensures TotalOrder((a: Option<T>, b: Option<T>) => NumericCmp(cmp, a, b))
    ensures forall a: Option<T> :: NumericCmp(cmp, None, a) <= 0
    ensures forall a: Option<T> :: NumericCmp(cmp, None, a) == 0 <==> a == None
  {
    var numeric := (a: Option<T>, b: Option<T>) => NumericCmp(cmp, a, b);
    forall a: Option<T>, b: Option<T>, c: Option<T>
      ensures numeric(a, b) < 0 <==> numeric(b, a) > 0
      ensures numeric(a, b) <= 0 && numeric(b, c) <= 0 ==> numeric(a, c) <= 0
    {
      if a.Some? && b.Some? && c.Some? && numeric(a, b) <= 0 && numeric(b, c) <= 0 {
        Below(cmp, a.value, b.value, c.value);
      }
    }
  }
}
