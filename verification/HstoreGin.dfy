/** hstore_gin: tagged items, the queries over them, and whether the answers are exact. */
module HstoreGin {
  import opened Bytes
  import opened HstoreFormat
  import opened HstoreQuery
  import opened Options

  const KEYFLAG: byte := 75
  const VALFLAG: byte := 86
  const NULLFLAG: byte := 78

  /** makeitem */
  function MakeItem(text: Str, flag: byte): Str { [flag] + text }

  function ValueItem(v: Option<Str>): Str {
    if v.None? then MakeItem([], NULLFLAG) else MakeItem(v.value, VALFLAG)
  }

  /** The tags keep key, value and null items apart, so an item tells what it stands for. */
  lemma ItemsDisjoint(k: Str, k': Str, v: Option<Str>, v': Option<Str>)
    ensures MakeItem(k, KEYFLAG) == MakeItem(k', KEYFLAG) <==> k == k'
    ensures ValueItem(v) == ValueItem(v') <==> v == v'
    ensures MakeItem(k, KEYFLAG) != ValueItem(v)
  {
    assert MakeItem(k, KEYFLAG)[1..] == k && MakeItem(k', KEYFLAG)[1..] == k';
    assert v.Some? ==> ValueItem(v)[1..] == v.value;
    assert v'.Some? ==> ValueItem(v')[1..] == v'.value;
    assert MakeItem(k, KEYFLAG)[0] == KEYFLAG && ValueItem(v)[0] != KEYFLAG;
    assert ValueItem(v)[0] == (if v.None? then NULLFLAG else VALFLAG);
    assert ValueItem(v')[0] == (if v'.None? then NULLFLAG else VALFLAG);
  }

  /** The entries of a row: its keys at even places, its values at odd ones. */
  ghost predicate Extracted(entries: seq<Str>, items: seq<Item>) {
    && |entries| == 2 * |items|
    && forall i :: 0 <= i < |items| ==>
         && entries[2 * i] == [75] + items[i].key
         && entries[2 * i + 1] == if items[i].val.None? then [78] else [86] + items[i].val.value
  }

  /** gin_extract_hstore */
  method Extract(items: seq<Item>) returns (entries: seq<Str>)
    ensures Extracted(entries, items)
  {
    var count := |items|;
    var out := new Str[2 * count](_ => []);
    for i := 0 to count
      invariant forall k :: 0 <= k < i ==>
                  out[2 * k] == MakeItem(items[k].key, KEYFLAG) && out[2 * k + 1] == ValueItem(items[k].val)
    {
      out[2 * i] := MakeItem(items[i].key, KEYFLAG);
      out[2 * i + 1] := ValueItem(items[i].val);
    }
    return out[..];
  }

  /** What a row's entries contain. */
  lemma EntriesOf(entries: seq<Str>, items: seq<Item>, k: Str, v: Option<Str>)
    requires Extracted(entries, items)
    ensures MakeItem(k, KEYFLAG) in entries <==> HasKey(items, k)
    ensures ValueItem(v) in entries <==> HasValue(items, v)
  {
    var kk, vv := MakeItem(k, KEYFLAG), ValueItem(v);
    if i :| 0 <= i < |items| && items[i].key == k { assert entries[2 * i] == kk; }
    if i :| 0 <= i < |items| && items[i].val == v { assert entries[2 * i + 1] == vv; }
    forall n | 0 <= n < |entries|
      ensures entries[n] == kk ==> HasKey(items, k)
      ensures entries[n] == vv ==> HasValue(items, v)
    {
      var i := n / 2;
      assert n == 2 * i || n == 2 * i + 1;
      ItemsDisjoint(items[i].key, k, items[i].val, v);
      ItemsDisjoint(k, k, items[i].val, v);
      ItemsDisjoint(items[i].key, k, v, v);
    }
  }

  /** The non-null keys of an array operand, tagged. */
  function KeyItems(keys: seq<Option<Str>>): (e: seq<Str>)
    ensures |e| <= |keys|
    ensures forall i :: 0 <= i < |keys| && keys[i].Some? ==> MakeItem(keys[i].value, KEYFLAG) in e
    ensures forall x :: x in e ==> exists i :: 0 <= i < |keys| && keys[i].Some? && x == MakeItem(keys[i].value, KEYFLAG)
  {
    if keys == [] then []
    else
      var init, last := keys[..|keys| - 1], keys[|keys| - 1];
      var e := KeyItems(init);
      assert forall i :: 0 <= i < |init| ==> init[i] == keys[i];
      if last.None? then e else e + [MakeItem(last.value, KEYFLAG)]
  }

  /** What is looked up for a query, and whether every row must be looked at. */
  ghost predicate QueryItems(q: Query, entries: seq<Str>, searchAll: bool) {
    match q
    case Contains(tmpl) => Extracted(entries, tmpl) && searchAll == (tmpl == [])
    case Exists(key) => entries == [[75] + key] && !searchAll
    case ExistsAny(keys) => entries == KeyItems(keys) && !searchAll
    case ExistsAll(keys) => entries == KeyItems(keys) && searchAll == (entries == [])
  }

  /** gin_extract_hstore_query: the items to look up and whether the whole index must be scanned. */
  method ExtractQuery(q: Query) returns (entries: seq<Str>, searchAll: bool)
    ensures QueryItems(q, entries, searchAll)
  {
    hide KeyItems;
    searchAll := false;
    match q {
      case Contains(tmpl) =>
        entries := Extract(tmpl);
        if entries == [] { searchAll := true; }
      case Exists(key) =>
        entries := [MakeItem(key, KEYFLAG)];
      case ExistsAny(keys) =>
        entries := ExtractKeys(keys);
      case ExistsAll(keys) =>
        entries := ExtractKeys(keys);
        if |entries| == 0 { searchAll := true; }
    }
  }

  method ExtractKeys(keys: seq<Option<Str>>) returns (entries: seq<Str>)
    ensures entries == KeyItems(keys)
  {
    entries := [];
    for i := 0 to |keys|
      invariant entries == KeyItems(keys[..i])
    {
      assert keys[..i + 1][..i] == keys[..i];
      if keys[i].Some? {
        entries := entries + [MakeItem(keys[i].value, KEYFLAG)];
      }
    }
    assert keys[..|keys|] == keys;
  }

  /** gin_consistent_hstore on the flags that say which query items the row has. */
  method Consistent(check: seq<bool>, q: Query) returns (res: bool, recheck: bool)
    ensures recheck == q.Contains?
    ensures res <==> (q.Contains? || q.ExistsAll? ==> forall i :: 0 <= i < |check| ==> check[i])
  {
    res, recheck := true, q.Contains?;
    if q.Contains? || q.ExistsAll? {
      for i := 0 to |check|
        invariant res && forall k :: 0 <= k < i ==> check[k]
      {
        if !check[i] {
          return false, recheck;
        }
      }
    }
  }

  /** Which query items a row's entries contain. */
  function Flags(queryEntries: seq<Str>, rowEntries: seq<Str>): (check: seq<bool>)
    ensures |check| == |queryEntries|
    ensures forall i :: 0 <= i < |check| ==> check[i] == (queryEntries[i] in rowEntries)
  {
    if queryEntries == [] then []
    else Flags(queryEntries[..|queryEntries| - 1], rowEntries) + [queryEntries[|queryEntries| - 1] in rowEntries]
  }

  /** Every query key and every query value occurs in the row, not necessarily together. */
  ghost predicate PartsOccur(row: seq<Item>, tmpl: seq<Item>) {
    forall i :: 0 <= i < |tmpl| ==> HasKey(row, tmpl[i].key) && HasValue(row, tmpl[i].val)
  }

  ghost predicate HasValue(row: seq<Item>, val: Option<Str>) { exists i :: 0 <= i < |row| && row[i].val == val }

  /** An index search of one row: a row comes up if it has some query item, or always in full-scan mode,
      and is then put to the consistent function. */
  method Search(row: seq<Item>, q: Query) returns (found: bool, recheck: bool)
    ensures recheck == q.Contains?
    ensures !q.Contains? ==> (found <==> Satisfies(row, q))
    ensures q.Contains? ==> (found <==> PartsOccur(row, q.tmpl))
    ensures Satisfies(row, q) ==> found
  {
    var rowEntries := Extract(row);
    var entries, searchAll := ExtractQuery(q);
    var check := Flags(entries, rowEntries);
    var res;
    res, recheck := Consistent(check, q);
    var candidate := searchAll || exists i :: 0 <= i < |check| && check[i];
    found := candidate && res;
    FoundIff(row, q, rowEntries, entries, searchAll, check, res);
  }

  lemma FoundIff(row: seq<Item>, q: Query, rowEntries: seq<Str>, entries: seq<Str>, searchAll: bool,
                 check: seq<bool>, res: bool)
    requires Extracted(rowEntries, row) && check == Flags(entries, rowEntries)
    requires QueryItems(q, entries, searchAll)
    requires res <==> (q.Contains? || q.ExistsAll? ==> forall i :: 0 <= i < |check| ==> check[i])
    ensures var found := (searchAll || exists i :: 0 <= i < |check| && check[i]) && res;
            && (!q.Contains? ==> (found <==> Satisfies(row, q)))
            && (q.Contains? ==> (found <==> PartsOccur(row, q.tmpl)))
            && (Satisfies(row, q) ==> found)
  {
    match q {
      case Contains(tmpl) => ContainsFound(row, tmpl, rowEntries, entries, check);
      case Exists(key) =>
        EntriesOf(rowEntries, row, key, None);
        assert check[0] == HasKey(row, key);
      case ExistsAny(keys) => AnyFound(row, keys, rowEntries, check);
      case ExistsAll(keys) => AllFound(row, keys, rowEntries, check);
    }
  }

  lemma ContainsFound(row: seq<Item>, tmpl: seq<Item>, rowEntries: seq<Str>, entries: seq<Str>, check: seq<bool>)
    requires Extracted(rowEntries, row) && Extracted(entries, tmpl) && check == Flags(entries, rowEntries)
    ensures (forall i :: 0 <= i < |check| ==> check[i]) <==> PartsOccur(row, tmpl)
    ensures tmpl != [] && PartsOccur(row, tmpl) ==> exists i :: 0 <= i < |check| && check[i]
    ensures Satisfies(row, Contains(tmpl)) ==> PartsOccur(row, tmpl)
  {
    hide MakeItem, ValueItem, Flags, HasKey, HasValue;
    forall n | 0 <= n < |check| ensures PartsOccur(row, tmpl) ==> check[n] {
      FlagsOf(row, tmpl, rowEntries, entries, check, n / 2);
      assert n == 2 * (n / 2) || n == 2 * (n / 2) + 1;
    }
    if tmpl != [] && PartsOccur(row, tmpl) { assert check[0]; }
    if forall i :: 0 <= i < |check| ==> check[i] {
      forall i | 0 <= i < |tmpl| ensures HasKey(row, tmpl[i].key) && HasValue(row, tmpl[i].val) {
        FlagsOf(row, tmpl, rowEntries, entries, check, i);
      }
    }
    if Satisfies(row, Contains(tmpl)) {
      forall i | 0 <= i < |tmpl| ensures HasKey(row, tmpl[i].key) && HasValue(row, tmpl[i].val) {
        HasBoth(row, tmpl[i]);
      }
    }
  }

  lemma FlagsOf(row: seq<Item>, tmpl: seq<Item>, rowEntries: seq<Str>, entries: seq<Str>, check: seq<bool>, i: nat)
    requires Extracted(rowEntries, row) && Extracted(entries, tmpl) && check == Flags(entries, rowEntries)
    requires i < |tmpl|
    ensures check[2 * i] <==> HasKey(row, tmpl[i].key)
    ensures check[2 * i + 1] <==> HasValue(row, tmpl[i].val)
  {
    hide HasKey, HasValue;
    EntriesOf(rowEntries, row, tmpl[i].key, tmpl[i].val);
    assert entries[2 * i] == MakeItem(tmpl[i].key, KEYFLAG) && entries[2 * i + 1] == ValueItem(tmpl[i].val);
  }

  lemma HasBoth(row: seq<Item>, item: Item)
    requires item in row
    ensures HasKey(row, item.key) && HasValue(row, item.val)
  {
    var j :| 0 <= j < |row| && row[j] == item;
  }

  lemma AnyFound(row: seq<Item>, keys: seq<Option<Str>>, rowEntries: seq<Str>, check: seq<bool>)
    requires Extracted(rowEntries, row) && check == Flags(KeyItems(keys), rowEntries)
    ensures (exists i :: 0 <= i < |check| && check[i]) <==> Satisfies(row, ExistsAny(keys))
  {
    hide MakeItem, Flags, HasKey, Extracted;
    var e := KeyItems(keys);
    if i :| 0 <= i < |check| && check[i] {
      assert e[i] in e;
      var k :| 0 <= k < |keys| && keys[k].Some? && e[i] == MakeItem(keys[k].value, KEYFLAG);
      EntriesOf(rowEntries, row, keys[k].value, None);
    }
    if k :| 0 <= k < |keys| && keys[k].Some? && HasKey(row, keys[k].value) {
      EntriesOf(rowEntries, row, keys[k].value, None);
      var i :| 0 <= i < |e| && e[i] == MakeItem(keys[k].value, KEYFLAG);
      assert check[i];
    }
  }

  lemma AllFound(row: seq<Item>, keys: seq<Option<Str>>, rowEntries: seq<Str>, check: seq<bool>)
    requires Extracted(rowEntries, row) && check == Flags(KeyItems(keys), rowEntries)
    ensures (forall i :: 0 <= i < |check| ==> check[i]) <==> Satisfies(row, ExistsAll(keys))
    ensures check != [] && Satisfies(row, ExistsAll(keys)) ==> exists i :: 0 <= i < |check| && check[i]
  {
    hide MakeItem, Flags, HasKey, Extracted;
    var e := KeyItems(keys);
    if Satisfies(row, ExistsAll(keys)) {
      forall i | 0 <= i < |check| ensures check[i] {
        assert e[i] in e;
        var k :| 0 <= k < |keys| && keys[k].Some? && e[i] == MakeItem(keys[k].value, KEYFLAG);
        EntriesOf(rowEntries, row, keys[k].value, None);
      }
      if check != [] { assert check[0]; }
    }
    if forall i :: 0 <= i < |check| ==> check[i] {
      forall k | 0 <= k < |keys| && keys[k].Some? ensures HasKey(row, keys[k].value) {
        EntriesOf(rowEntries, row, keys[k].value, None);
        var i :| 0 <= i < |e| && e[i] == MakeItem(keys[k].value, KEYFLAG);
        assert check[i];
      }
    }
  }
}
