/** What the hstore operators ask of a row, and hstore_contains with its narrowing search. */
module HstoreQuery {
  import opened HstoreFormat
  import opened HstorePairs
  import opened HstoreRoundTrip
  import opened Options

  /** The right operand of @>, ?, ?& and ?|. Null array elements are ignored. */
  datatype Query =
    | Contains(tmpl: seq<Item>)
    | Exists(key: Str)
    | ExistsAll(keys: seq<Option<Str>>)
    | ExistsAny(keys: seq<Option<Str>>)

  ghost predicate HasKey(row: seq<Item>, key: Str) { exists i :: 0 <= i < |row| && row[i].key == key }

  ghost predicate Satisfies(row: seq<Item>, q: Query) {
    match q
    case Contains(tmpl) => forall i :: 0 <= i < |tmpl| ==> tmpl[i] in row
    case Exists(key) => HasKey(row, key)
    case ExistsAll(keys) => forall i :: 0 <= i < |keys| && keys[i].Some? ==> HasKey(row, keys[i].value)
    case ExistsAny(keys) => exists i :: 0 <= i < |keys| && keys[i].Some? && HasKey(row, keys[i].value)
  }

  /** Every key from low on lies above the key. */
  ghost predicate AboveFrom(items: seq<Item>, low: nat, key: Str) {
    forall j :: low <= j < |items| ==> KeyLess(key, items[j].key)
  }

  /** Every key before low lies below the key. */
  ghost predicate BelowUpTo(items: seq<Item>, low: nat, key: Str) {
    forall j :: 0 <= j < low && j < |items| ==> KeyLess(items[j].key, key)
  }

  /** hstoreFindKey: the index of the key at or after low, or -1; the next search may start at next. */
  method FindKey(h: HStore, low: nat, key: Str) returns (idx: int, next: nat)
    requires Layout(h) && StrictItems(Decode(h)) && low <= Count(h) && BelowUpTo(Decode(h), low, key)
    ensures -1 <= idx < Count(h) && next <= Count(h)
    ensures idx >= 0 ==> Decode(h)[idx].key == key && next == idx + 1
    ensures idx < 0 ==> BelowUpTo(Decode(h), next, key) && AboveFrom(Decode(h), next, key)
  {
    hide Layout, KeyLess, Count;
    ghost var items := Decode(h);
    var stopLow, stopHigh := low, Count(h);
    while stopLow < stopHigh
      invariant low <= stopLow <= stopHigh <= |items|
      invariant BelowUpTo(items, stopLow, key) && AboveFrom(items, stopHigh, key)
    {
      var mid := stopLow + (stopHigh - stopLow) / 2;
      var midKey := ItemAt(h, mid).key;
      assert items[mid].key == midKey;
      KeyLessTotal(midKey, key);
      if midKey == key {
        return mid, mid + 1;
      } else if KeyLess(midKey, key) {
        forall j | 0 <= j < mid + 1 ensures KeyLess(items[j].key, key) {
          if j < mid { KeyLessTransitive(items[j].key, midKey, key); }
        }
        stopLow := mid + 1;
      } else {
        forall j | mid <= j < |items| ensures KeyLess(key, items[j].key) {
          if mid < j { KeyLessTransitive(key, midKey, items[j].key); }
        }
        stopHigh := mid;
      }
    }
    return -1, stopLow;
  }

  lemma KeyAbsent(items: seq<Item>, low: nat, item: Item)
    requires BelowUpTo(items, low, item.key) && AboveFrom(items, low, item.key)
    ensures item !in items
  {
    KeyLessTotal(item.key, item.key);
  }

  /** Keys that narrow one search narrow the next. */
  lemma Narrowed(items: seq<Item>, next: nat, key: Str, later: Str)
    requires next <= |items| && KeyLess(key, later)
    requires BelowUpTo(items, next, key) || (0 < next && StrictItems(items) && items[next - 1].key == key)
    ensures BelowUpTo(items, next, later)
  {
    hide KeyLess;
    forall j | 0 <= j < next ensures KeyLess(items[j].key, later) {
      if items[j].key != key { KeyLessTransitive(items[j].key, key, later); }
    }
  }

  lemma SameKeySameItem(items: seq<Item>, i: nat, item: Item)
    requires StrictItems(items) && i < |items| && items[i].key == item.key
    ensures item in items <==> items[i] == item
  {
    hide KeyLess;
    if item in items {
      var j :| 0 <= j < |items| && items[j] == item;
      KeyLessTotal(item.key, item.key);
    }
  }

  /** hstore_contains: each search starts where the last one ended, and the answer is that of the definition. */
  method ContainsAll(val: HStore, tmpl: HStore) returns (res: bool)
    requires Layout(val) && StrictItems(Decode(val)) && Layout(tmpl) && StrictItems(Decode(tmpl))
    ensures res <==> Satisfies(Decode(val), Contains(Decode(tmpl)))
  {
    hide Layout, KeyLess, Count;
    ghost var v, t := Decode(val), Decode(tmpl);
    res := true;
    var lastidx, i := 0, 0;
    while res && i < Count(tmpl)
      invariant 0 <= i <= |t| && 0 <= lastidx <= |v|
      invariant i < |t| ==> BelowUpTo(v, lastidx, t[i].key)
      invariant res ==> forall k :: 0 <= k < i ==> t[k] in v
      invariant !res ==> exists k :: 0 <= k < |t| && t[k] !in v
      decreases res, |t| - i
    {
      var item := ItemAt(tmpl, i);
      assert item == t[i];
      var idx;
      idx, lastidx := FindKey(val, lastidx, item.key);
      if idx >= 0 {
        SameKeySameItem(v, idx, item);
        assert ItemAt(val, idx) == v[idx];
        if ItemAt(val, idx).val != item.val {
          res := false;
        }
      } else {
        KeyAbsent(v, lastidx, item);
        res := false;
      }
      if i + 1 < |t| {
        Narrowed(v, lastidx, item.key, t[i + 1].key);
      }
      i := i + 1;
    }
  }
}
