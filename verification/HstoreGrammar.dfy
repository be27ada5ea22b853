/** The grammar of the hstore text format, and that parse_hstore accepts exactly its sentences, with their meaning. */
module HstoreGrammar {
  import opened Bytes
  import opened HstoreFormat
  import opened HstorePairs
  import opened HstoreText

  // ---------------------------------------------------------------- the grammar

  /** A character that stands for itself, or any character after a backslash. */
  datatype Unit = Plain(c: byte) | Esc(c: byte)

  datatype Token = InQuotes(units: seq<Unit>) | Bare(units: seq<Unit>)

  /** key => value, with white space in the four places that allow it. */
  datatype Entry = KeyValue(lead: Str, key: Token, before: Str, after: Str, val: Token, trail: Str)

  /** Entries separated by commas; a comma may also end the list. */
  datatype Doc = Nothing(blank: Str) | Last(entry: Entry) | More(entry: Entry, rest: Doc)

  function Ch(c: char): byte
    requires c < 256 as char
  {
    c as int
  }

  /** Blank, tabulators, line feed, form feed and carriage return. */
  predicate White(c: byte) { c in [Ch(' '), Ch('\t'), Ch('\n'), 11, 12, Ch('\r')] }

  ghost predicate Spaces(ws: Str) { forall c :: c in ws ==> White(c) }

  predicate QuotedUnit(u: Unit) { u.Plain? ==> u.c != Ch('"') && u.c != Ch('\\') }

  /** A bare key goes on to the next = sign, a bare value to the next comma. */
  function Delimiter(isKey: bool): byte { if isKey then Ch('=') else Ch(',') }

  predicate BareUnit(u: Unit, isKey: bool) {
    u.Plain? ==> u.c != Ch('\\') && !White(u.c) && u.c != Delimiter(isKey)
  }

  /** A bare word does not begin with a quote, but a bare value may begin with a comma. */
  predicate BareFirst(u: Unit, isKey: bool) {
    u.Plain? ==> u.c != Ch('\\') && !White(u.c) && u.c != Ch('"') && (isKey ==> u.c != Ch('='))
  }

  ghost predicate QuotedUnits(us: seq<Unit>) { forall u :: u in us ==> QuotedUnit(u) }

  ghost predicate BareUnits(us: seq<Unit>, isKey: bool) { forall u :: u in us ==> BareUnit(u, isKey) }

  ghost predicate ValidToken(t: Token, isKey: bool) {
    match t
    case InQuotes(us) => QuotedUnits(us)
    case Bare(us) => us != [] && BareFirst(us[0], isKey) && BareUnits(us[1..], isKey)
  }

  ghost predicate ValidEntry(e: Entry) {
    && Spaces(e.lead) && ValidToken(e.key, true) && Spaces(e.before)
    && Spaces(e.after) && ValidToken(e.val, false) && Spaces(e.trail)
  }

  ghost predicate ValidDoc(d: Doc) {
    match d
    case Nothing(blank) => Spaces(blank)
    case Last(e) => ValidEntry(e)
    case More(e, rest) => ValidEntry(e) && ValidDoc(rest)
  }

  // ---------------------------------------------------------------- how it is spelled

  function SpellUnit(u: Unit): (w: Str)
    ensures |w| > 0
  {
    if u.Plain? then [u.c] else [Ch('\\'), u.c]
  }

  function SpellUnits(us: seq<Unit>): Str { if us == [] then [] else SpellUnit(us[0]) + SpellUnits(us[1..]) }

  function SpellToken(t: Token): Str {
    if t.Bare? then SpellUnits(t.units) else [Ch('"')] + SpellUnits(t.units) + [Ch('"')]
  }

  function SpellValue(e: Entry): Str { e.after + SpellToken(e.val) + e.trail }

  function SpellEntry(e: Entry): Str {
    e.lead + SpellToken(e.key) + e.before + [Ch('='), Ch('>')] + SpellValue(e)
  }

  function SpellDoc(d: Doc): Str {
    match d
    case Nothing(blank) => blank
    case Last(e) => SpellEntry(e)
    case More(e, rest) => SpellEntry(e) + [Ch(',')] + SpellDoc(rest)
  }

  // ---------------------------------------------------------------- what it means

  function Chars(us: seq<Unit>): Str { if us == [] then [] else [us[0].c] + Chars(us[1..]) }

  /** The word null, each letter in either case. */
  predicate NullWord(w: Str) {
    && |w| == 4 && w[0] in [Ch('N'), Ch('n')] && w[1] in [Ch('U'), Ch('u')]
    && w[2] in [Ch('L'), Ch('l')] && w[3] in [Ch('L'), Ch('l')]
  }

  /** A bare word that spells null, in any case, is the null value. */
  function EntryPair(e: Entry): Pair {
    var text := Chars(e.val.units);
    Pair(Chars(e.key.units), text, e.val.Bare? && NullWord(text), true)
  }

  function Meaning(d: Doc): seq<Pair> {
    match d
    case Nothing(_) => []
    case Last(e) => [EntryPair(e)]
    case More(e, rest) => [EntryPair(e)] + Meaning(rest)
  }

  predicate EntryFits(e: Entry) { |Chars(e.key.units)| < 0x2000_0000 && |Chars(e.val.units)| < 0x2000_0000 }

  /** Every word fits the largest word buffer, and n pairs with those of the document the largest array of pairs. */
  predicate Fits(d: Doc, n: nat) {
    match d
    case Nothing(_) => true
    case Last(e) => EntryFits(e) && n < 0x100_0000
    case More(e, rest) => EntryFits(e) && n < 0x100_0000 && Fits(rest, n + 1)
  }

  ghost predicate Derives(d: Doc, s: Str, ps: seq<Pair>) {
    ValidDoc(d) && SpellDoc(d) == s && Fits(d, 0) && Meaning(d) == ps
  }

  /** The parser's notions are those of the grammar. */
  lemma SameNotions(c: byte, w: Str)
    ensures IsSpace(c) <==> White(c)
    ensures SpellsNull(w) <==> NullWord(w)
    ensures QUOTE == Ch('"') && BACKSLASH == Ch('\\') && EQUALS == Ch('=') && GREATER == Ch('>') && COMMA == Ch(',')
  {
  }

  // ---------------------------------------------------------------- every sentence is read with its meaning

  lemma Cut(s: Str, i: nat, u: Str, v: Str)
    requires i <= |s| && s[i..] == u + v
    ensures i + |u| <= |s| && s[i + |u|..] == v
    ensures forall k :: 0 <= k < |u| ==> s[i + k] == u[k]
  {
    assert s[i..][|u|..] == s[i + |u|..];
    forall k | 0 <= k < |u| ensures s[i + k] == u[k] { assert s[i..][k] == s[i + k]; }
  }

  /** White space is skipped in every state but between = and >. */
  lemma SkipOne(s: Str, i: nat, st: State, key: Str, pairs: seq<Pair>)
    requires i < |s| && IsSpace(s[i]) && st != WGt && (st == WKey || st == WDel ==> key == [])
    ensures ParseFrom(s, i, st, key, pairs) == ParseFrom(s, i + 1, st, key, pairs)
  {
    var ig := st == WVal;
    assert ScanWord(s, i, ig, WaitVal, [], false) == ScanWord(s, i + 1, ig, WaitVal, [], false);
    hide ScanWord;
  }

  lemma {:induction false} SkipSpaces(s: Str, i: nat, st: State, key: Str, pairs: seq<Pair>, ws: Str, rest: Str)
    requires i <= |s| && s[i..] == ws + rest && Spaces(ws) && st != WGt && (st == WKey || st == WDel ==> key == [])
    ensures i + |ws| <= |s| && s[i + |ws|..] == rest
    ensures ParseFrom(s, i, st, key, pairs) == ParseFrom(s, i + |ws|, st, key, pairs)
    decreases |ws|
  {
    hide ParseFrom;
    Cut(s, i, ws, rest);
    if ws != [] {
      assert s[i + 0] == ws[0] && White(ws[0]);
      SameNotions(s[i], []);
      SkipOne(s, i, st, key, pairs);
      assert s[i..][1..] == s[i + 1..] && s[i + 1..] == ws[1..] + rest;
      SkipSpaces(s, i + 1, st, key, pairs, ws[1..], rest);
    }
  }

  /** Inside a word, a unit is stored as its character. */
  lemma UnitRead(s: Str, i: nat, ig: bool, mode: Mode, acc: Str, escaped: bool, u: Unit)
    requires (mode == InVal || mode == InEscVal) && i + |SpellUnit(u)| <= |s| && u.c != NUL
    requires s[i] == SpellUnit(u)[0] && s[i + |SpellUnit(u)| - 1] == u.c
    requires u.Plain? ==> Step(mode, u.c, ig) == Go(mode, true)
    ensures ScanWord(s, i, ig, mode, acc, escaped) == ScanWord(s, i + |SpellUnit(u)|, ig, mode, acc + [u.c], escaped)
  {
    if u.Esc? { EscapeRead(s, i, ig, mode, acc, escaped); }
  }

  /** A backslash takes the next character as it is. */
  lemma EscapeRead(s: Str, i: nat, ig: bool, mode: Mode, acc: Str, escaped: bool)
    requires i + 1 < |s| && s[i] == BACKSLASH && s[i + 1] != NUL
    requires (mode == InVal || mode == InEscVal || mode == WaitVal)
    ensures ScanWord(s, i, ig, mode, acc, escaped)
         == ScanWord(s, i + 2, ig, if mode == InEscVal then InEscVal else InVal, acc + [s[i + 1]], escaped)
  {
    var wait := if mode == InEscVal then WaitEscEscIn else WaitEscIn;
    assert ScanWord(s, i, ig, mode, acc, escaped) == ScanWord(s, i + 1, ig, wait, acc, escaped);
  }

  /** The first of some units, where the text spells them. */
  lemma FirstUnit(s: Str, i: nat, us: seq<Unit>, rest: Str)
    requires i <= |s| && us != [] && s[i..] == SpellUnits(us) + rest && NUL !in s
    ensures var w := |SpellUnit(us[0])|;
            && i + w <= |s| && s[i] == SpellUnit(us[0])[0] && s[i + w - 1] == us[0].c != NUL
            && s[i + w..] == SpellUnits(us[1..]) + rest
  {
    UnitParts(us, rest);
    hide SpellUnits, SpellUnit;
    var u, w := us[0], |SpellUnit(us[0])|;
    UnitEnds(u);
    Cut(s, i, SpellUnit(u), SpellUnits(us[1..]) + rest);
    assert s[i + 0] == SpellUnit(u)[0] && s[i + (w - 1)] == SpellUnit(u)[w - 1] && s[i + (w - 1)] in s;
  }

  lemma UnitParts(us: seq<Unit>, rest: Str)
    requires us != []
    ensures SpellUnits(us) + rest == SpellUnit(us[0]) + (SpellUnits(us[1..]) + rest)
  {
    hide SpellUnit;
  }

  lemma UnitEnds(u: Unit)
    ensures SpellUnit(u)[|SpellUnit(u)| - 1] == u.c
  {
  }

  lemma UnitsStep(us: seq<Unit>, acc: Str)
    requires us != []
    ensures |SpellUnits(us)| == |SpellUnit(us[0])| + |SpellUnits(us[1..])|
    ensures acc + Chars(us) == acc + [us[0].c] + Chars(us[1..])
  {
  }

  lemma NoUnits(acc: Str)
    ensures SpellUnits([]) == [] && acc + Chars([]) == acc
  {
  }

  lemma QuoteEnds(s: Str, i: nat, ig: bool, acc: Str)
    requires i < |s| && s[i] == QUOTE
    ensures ScanWord(s, i, ig, InEscVal, acc, true) == Word(i + 1, acc, true)
  {
  }

  lemma {:induction false} QuotedUnitsRead(s: Str, i: nat, ig: bool, acc: Str, us: seq<Unit>, rest: Str)
    requires i <= |s| && s[i..] == SpellUnits(us) + ([QUOTE] + rest) && QuotedUnits(us) && NUL !in s
    ensures ScanWord(s, i, ig, InEscVal, acc, true) == Word(i + |SpellUnits(us)| + 1, acc + Chars(us), true)
    decreases |us|
  {
    hide ScanWord, SpellUnits, Chars;
    if us == [] {
      NoUnits(acc);
      Cut(s, i, [QUOTE], rest);
      assert s[i + 0] == QUOTE;
      QuoteEnds(s, i, ig, acc);
    } else {
      var u := us[0];
      FirstUnit(s, i, us, [QUOTE] + rest);
      assert QuotedUnit(u);
      UnitRead(s, i, ig, InEscVal, acc, true, u);
      hide SpellUnit, Step;
      UnitsStep(us, acc);
      QuotedUnitsRead(s, i + |SpellUnit(u)|, ig, acc + [u.c], us[1..], rest);
    }
  }

  ghost predicate Stops(rest: Str, isKey: bool) { rest == [] || IsSpace(rest[0]) || rest[0] == Delimiter(isKey) }

  /** A bare word takes the space after it along. */
  function Gap(rest: Str): nat { if rest != [] && IsSpace(rest[0]) then 1 else 0 }

  lemma DelimiterEnds(s: Str, i: nat, isKey: bool, acc: Str)
    requires i <= |s| && NUL !in s && Stops(s[i..], isKey)
    ensures ScanWord(s, i, !isKey, InVal, acc, false) == Word(i + Gap(s[i..]), acc, false)
  {
    if i < |s| { assert s[i] == s[i..][0] && s[i] in s; }
  }

  lemma {:induction false} BareUnitsRead(s: Str, i: nat, isKey: bool, acc: Str, us: seq<Unit>, rest: Str)
    requires i <= |s| && s[i..] == SpellUnits(us) + rest && BareUnits(us, isKey) && NUL !in s && Stops(rest, isKey)
    ensures ScanWord(s, i, !isKey, InVal, acc, false)
         == Word(i + |SpellUnits(us)| + Gap(rest), acc + Chars(us), false)
    decreases |us|
  {
    hide ScanWord, SpellUnits, Chars, Gap, Stops;
    if us == [] {
      NoUnits(acc);
      assert s[i..] == rest;
      DelimiterEnds(s, i, isKey, acc);
    } else {
      var u := us[0];
      FirstUnit(s, i, us, rest);
      assert BareUnit(u, isKey);
      UnitRead(s, i, !isKey, InVal, acc, false, u);
      hide SpellUnit, Step;
      UnitsStep(us, acc);
      BareUnitsRead(s, i + |SpellUnit(u)|, isKey, acc + [u.c], us[1..], rest);
    }
  }

  /** A bare word begins with its first unit. */
  lemma BareBegins(s: Str, i: nat, isKey: bool, u: Unit)
    requires i + |SpellUnit(u)| <= |s| && u.c != NUL && BareFirst(u, isKey)
    requires s[i] == SpellUnit(u)[0] && s[i + |SpellUnit(u)| - 1] == u.c
    ensures ScanWord(s, i, !isKey, WaitVal, [], false)
         == ScanWord(s, i + |SpellUnit(u)|, !isKey, InVal, [u.c], false)
  {
    assert [] + [u.c] == [u.c];
    if u.Esc? { EscapeRead(s, i, !isKey, WaitVal, [], false); }
  }

  lemma QuoteBegins(s: Str, i: nat, ig: bool)
    requires i < |s| && s[i] == QUOTE
    ensures ScanWord(s, i, ig, WaitVal, [], false) == ScanWord(s, i + 1, ig, InEscVal, [], true)
  {
  }

  lemma {:induction false} TokenRead(s: Str, i: nat, isKey: bool, t: Token, rest: Str)
    requires i <= |s| && s[i..] == SpellToken(t) + rest && ValidToken(t, isKey) && NUL !in s
    requires t.Bare? ==> Stops(rest, isKey)
    ensures ScanWord(s, i, !isKey, WaitVal, [], false)
         == Word(i + |SpellToken(t)| + (if t.Bare? then Gap(rest) else 0), Chars(t.units), t.InQuotes?)
  {
    hide ScanWord, SpellUnits, SpellUnit, Chars, Gap, Stops, BareFirst, QuotedUnits, BareUnits;
    var us := t.units;
    if t.InQuotes? {
      var inner := SpellUnits(us) + ([QUOTE] + rest);
      assert s[i..] == [QUOTE] + inner;
      Cut(s, i, [QUOTE], inner);
      assert s[i + 0] == QUOTE;
      QuoteBegins(s, i, !isKey);
      QuotedUnitsRead(s, i + 1, !isKey, [], us, rest);
      assert [] + Chars(us) == Chars(us);
    } else {
      var u := us[0];
      FirstUnit(s, i, us, rest);
      BareBegins(s, i, isKey, u);
      UnitsStep(us, []);
      BareUnitsRead(s, i + |SpellUnit(u)|, isKey, [u.c], us[1..], rest);
      assert [] + Chars(us) == Chars(us) && [] + [u.c] == [u.c];
    }
  }

  lemma KeyRead(s: Str, i: nat, t: Token, pairs: seq<Pair>, rest: Str)
    requires i <= |s| && s[i..] == SpellToken(t) + rest && ValidToken(t, true) && NUL !in s && Stops(rest, true)
    ensures i + |SpellToken(t)| <= |s| && s[i + |SpellToken(t)|..] == rest
    ensures ParseFrom(s, i, WKey, [], pairs)
         == if |Chars(t.units)| > WORD_MAX || |pairs| >= PAIRS_MAX then Failed
            else ParseFrom(s, i + |SpellToken(t)|, WEq, Chars(t.units), pairs)
  {
    TokenRead(s, i, true, t, rest);
    hide ScanWord, SpellToken, Chars;
    var j := i + |SpellToken(t)|;
    Cut(s, i, SpellToken(t), rest);
    if t.Bare? && Gap(rest) == 1 {
      assert s[j] == s[j..][0];
      SkipOne(s, j, WEq, Chars(t.units), pairs);
    }
  }

  lemma ValueRead(s: Str, i: nat, key: Str, t: Token, pairs: seq<Pair>, rest: Str)
    requires i <= |s| && s[i..] == SpellToken(t) + rest && ValidToken(t, false) && NUL !in s && Stops(rest, false)
    ensures i + |SpellToken(t)| <= |s| && s[i + |SpellToken(t)|..] == rest
    ensures ParseFrom(s, i, WVal, key, pairs)
         == if |Chars(t.units)| > WORD_MAX then Failed
            else ParseFrom(s, i + |SpellToken(t)|, WDel, [], pairs + [PairRead(key, Chars(t.units), t.InQuotes?)])
  {
    TokenRead(s, i, false, t, rest);
    hide ScanWord, SpellToken, Chars, PairRead;
    var j := i + |SpellToken(t)|;
    Cut(s, i, SpellToken(t), rest);
    if t.Bare? && Gap(rest) == 1 {
      assert s[j] == s[j..][0];
      SkipOne(s, j, WDel, [], pairs + [PairRead(key, Chars(t.units), t.InQuotes?)]);
    }
  }

  lemma ArrowRead(s: Str, i: nat, key: Str, pairs: seq<Pair>, rest: Str)
    requires i <= |s| && s[i..] == [EQUALS, GREATER] + rest
    ensures i + 2 <= |s| && s[i + 2..] == rest
    ensures ParseFrom(s, i, WEq, key, pairs) == ParseFrom(s, i + 2, WVal, key, pairs)
  {
    var arrow: Str := [EQUALS, GREATER];
    Cut(s, i, arrow, rest);
    assert s[i + 0] == arrow[0] && s[i + 1] == arrow[1];
    assert ParseFrom(s, i, WEq, key, pairs) == ParseFrom(s, i + 1, WGt, key, pairs);
  }

  lemma {:induction false} ValuePartRead(s: Str, i: nat, e: Entry, pairs: seq<Pair>, rest: Str)
    requires i <= |s| && s[i..] == SpellValue(e) + rest && ValidEntry(e) && NUL !in s
    requires rest == [] || rest[0] == COMMA
    ensures i + |SpellValue(e)| <= |s| && s[i + |SpellValue(e)|..] == rest
    ensures ParseFrom(s, i, WVal, Chars(e.key.units), pairs)
         == if |Chars(e.val.units)| > WORD_MAX then Failed
            else ParseFrom(s, i + |SpellValue(e)|, WDel, [], pairs + [EntryPair(e)])
  {
    hide ParseFrom, SpellToken, ValidToken, Chars, Spaces, Stops, PairRead;
    var key, word, tail := Chars(e.key.units), SpellToken(e.val), e.trail + rest;
    var next := pairs + [EntryPair(e)];
    assert PairRead(key, Chars(e.val.units), e.val.InQuotes?) == EntryPair(e) by { SamePair(e); }
    ValueParts(e, rest);
    hide EntryPair, SpellValue;
    SkipSpaces(s, i, WVal, key, pairs, e.after, word + tail);
    SpacesStop(e.trail, rest, false);
    var j := i + |e.after|;
    ValueRead(s, j, key, e.val, pairs, tail);
    SkipSpaces(s, j + |word|, WDel, [], next, e.trail, rest);
  }

  lemma ValueParts(e: Entry, rest: Str)
    ensures |SpellValue(e)| == |e.after| + |SpellToken(e.val)| + |e.trail|
    ensures SpellValue(e) + rest == e.after + (SpellToken(e.val) + (e.trail + rest))
  {
    hide SpellToken;
  }

  lemma SamePair(e: Entry)
    ensures PairRead(Chars(e.key.units), Chars(e.val.units), e.val.InQuotes?) == EntryPair(e)
  {
  }

  /** White space and then a delimiter, or the end, stops a bare word. */
  lemma SpacesStop(ws: Str, rest: Str, isKey: bool)
    requires Spaces(ws) && (rest == [] || rest[0] == Delimiter(isKey))
    ensures Stops(ws + rest, isKey)
  {
    if ws == [] {
      assert ws + rest == rest;
    } else {
      assert ws[0] in ws && (ws + rest)[0] == ws[0];
    }
  }

  lemma {:induction false} KeyPartRead(s: Str, i: nat, e: Entry, pairs: seq<Pair>, tail: Str)
    requires i <= |s| && s[i..] == e.lead + (SpellToken(e.key) + (e.before + ([EQUALS, GREATER] + tail)))
    requires ValidEntry(e) && NUL !in s
    ensures var j := i + |e.lead| + |SpellToken(e.key)| + |e.before| + 2;
            && j <= |s| && s[j..] == tail
            && ParseFrom(s, i, WKey, [], pairs)
            == if |Chars(e.key.units)| > WORD_MAX || |pairs| >= PAIRS_MAX then Failed
               else ParseFrom(s, j, WVal, Chars(e.key.units), pairs)
  {
    hide ParseFrom, SpellToken, ValidToken, Chars, Spaces, Stops;
    var key, word, next := Chars(e.key.units), SpellToken(e.key), e.before + ([EQUALS, GREATER] + tail);
    SkipSpaces(s, i, WKey, [], pairs, e.lead, word + next);
    SpacesStop(e.before, [EQUALS, GREATER] + tail, true);
    KeyRead(s, i + |e.lead|, e.key, pairs, next);
    BeforeRead(s, i + |e.lead| + |word|, e, key, pairs, tail);
  }

  lemma BeforeRead(s: Str, i: nat, e: Entry, key: Str, pairs: seq<Pair>, tail: Str)
    requires i <= |s| && s[i..] == e.before + ([EQUALS, GREATER] + tail) && Spaces(e.before)
    ensures var j := i + |e.before| + 2;
            && j <= |s| && s[j..] == tail && ParseFrom(s, i, WEq, key, pairs) == ParseFrom(s, j, WVal, key, pairs)
  {
    hide ParseFrom, Spaces;
    SkipSpaces(s, i, WEq, key, pairs, e.before, [EQUALS, GREATER] + tail);
    ArrowRead(s, i + |e.before|, key, pairs, tail);
  }

  lemma {:induction false} EntryRead(s: Str, i: nat, e: Entry, pairs: seq<Pair>, rest: Str)
    requires i <= |s| && s[i..] == SpellEntry(e) + rest && ValidEntry(e) && NUL !in s
    requires rest == [] || rest[0] == COMMA
    ensures i + |SpellEntry(e)| <= |s| && s[i + |SpellEntry(e)|..] == rest
    ensures ParseFrom(s, i, WKey, [], pairs)
         == if EntryFits(e) && |pairs| < PAIRS_MAX
            then ParseFrom(s, i + |SpellEntry(e)|, WDel, [], pairs + [EntryPair(e)])
            else Failed
  {
    hide ParseFrom, SpellToken, ValidEntry, Chars, SpellValue, SpellEntry, EntryPair;
    EntryParts(e, rest);
    KeyPartRead(s, i, e, pairs, SpellValue(e) + rest);
    ValuePartRead(s, i + |e.lead| + |SpellToken(e.key)| + |e.before| + 2, e, pairs, rest);
  }

  lemma EntryParts(e: Entry, rest: Str)
    ensures |SpellEntry(e)| == |e.lead| + |SpellToken(e.key)| + |e.before| + 2 + |SpellValue(e)|
    ensures SpellEntry(e) + rest
         == e.lead + (SpellToken(e.key) + (e.before + ([EQUALS, GREATER] + (SpellValue(e) + rest))))
  {
    hide SpellToken, SpellValue;
  }

  lemma AtEnd(s: Str, i: nat, pairs: seq<Pair>)
    requires i == |s|
    ensures ParseFrom(s, i, WDel, [], pairs) == Pairs(pairs) == ParseFrom(s, i, WKey, [], pairs)
  {
  }

  lemma AtComma(s: Str, i: nat, pairs: seq<Pair>, rest: Str)
    requires i <= |s| && s[i..] == [COMMA] + rest
    ensures i + 1 <= |s| && s[i + 1..] == rest
    ensures ParseFrom(s, i, WDel, [], pairs) == ParseFrom(s, i + 1, WKey, [], pairs)
  {
    Cut(s, i, [COMMA], rest);
    assert s[i + 0] == COMMA;
  }

  lemma {:induction false} DocRead(s: Str, i: nat, d: Doc, pairs: seq<Pair>)
    requires i <= |s| && s[i..] == SpellDoc(d) && ValidDoc(d) && NUL !in s
    ensures ParseFrom(s, i, WKey, [], pairs) == if Fits(d, |pairs|) then Pairs(pairs + Meaning(d)) else Failed
    decreases d
  {
    hide ParseFrom, SpellEntry, ValidEntry, EntryFits, EntryPair;
    match d
    case Nothing(blank) =>
      assert s[i..] == blank + [] && pairs + [] == pairs;
      SkipSpaces(s, i, WKey, [], pairs, blank, []);
      AtEnd(s, |s|, pairs);
    case Last(e) =>
      assert s[i..] == SpellEntry(e) + [];
      EntryRead(s, i, e, pairs, []);
      AtEnd(s, |s|, pairs + [EntryPair(e)]);
    case More(e, rest) =>
      var tail := [COMMA] + SpellDoc(rest);
      assert s[i..] == SpellEntry(e) + tail;
      EntryRead(s, i, e, pairs, tail);
      var next := pairs + [EntryPair(e)];
      AtComma(s, i + |SpellEntry(e)|, next, SpellDoc(rest));
      DocRead(s, i + |SpellEntry(e)| + 1, rest, next);
      assert next + Meaning(rest) == pairs + Meaning(d);
  }

  /** A document is read as its meaning, or refused because it is too large. */
  lemma SpelledIsRead(d: Doc)
    requires ValidDoc(d) && NUL !in SpellDoc(d)
    ensures Parse(SpellDoc(d)) == if Fits(d, 0) then Pairs(Meaning(d)) else Failed
  {
    assert SpellDoc(d)[0..] == SpellDoc(d) && [] + Meaning(d) == Meaning(d);
    DocRead(SpellDoc(d), 0, d, []);
  }

  // ---------------------------------------------------------------- whatever is read is a sentence

  lemma Join(s: Str, i: nat, j: nat, k: nat)
    requires i <= j <= k <= |s|
    ensures s[i..j] + s[j..k] == s[i..k]
  {
  }

  /** The unit where the text goes on. */
  function UnitAt(s: Str, i: nat): (u: Unit)
    requires i < |s| && (s[i] == BACKSLASH ==> i + 1 < |s|)
    ensures i + |SpellUnit(u)| <= |s| && s[i] == SpellUnit(u)[0] && s[i + |SpellUnit(u)| - 1] == u.c
    ensures s[i..i + |SpellUnit(u)|] == SpellUnit(u)
  {
    if s[i] == BACKSLASH then Esc(s[i + 1]) else Plain(s[i])
  }

  /** A backslash at the end is an error. */
  lemma EscapeNeedsMore(s: Str, i: nat, ig: bool, mode: Mode, acc: Str, escaped: bool)
    requires i < |s| && s[i] == BACKSLASH && (mode == InVal || mode == InEscVal || mode == WaitVal)
    requires ScanWord(s, i, ig, mode, acc, escaped).Word?
    ensures i + 1 < |s|
  {
    var wait := if mode == InEscVal then WaitEscEscIn else WaitEscIn;
    assert ScanWord(s, i, ig, mode, acc, escaped) == ScanWord(s, i + 1, ig, wait, acc, escaped);
  }

  /** Either the word ends here or a unit of it is next. */
  lemma QuotedNext(s: Str, i: nat, ig: bool, acc: Str)
    requires i <= |s| && NUL !in s && ScanWord(s, i, ig, InEscVal, acc, true).Word?
    ensures i < |s| && (s[i] == BACKSLASH ==> i + 1 < |s|)
    ensures s[i] == QUOTE ==> ScanWord(s, i, ig, InEscVal, acc, true) == Word(i + 1, acc, true)
    ensures s[i] != QUOTE ==> var u := UnitAt(s, i);
            && QuotedUnit(u)
            && ScanWord(s, i, ig, InEscVal, acc, true)
            == ScanWord(s, i + |SpellUnit(u)|, ig, InEscVal, acc + [u.c], true)
  {
    if s[i] == BACKSLASH { EscapeNeedsMore(s, i, ig, InEscVal, acc, true); }
    if s[i] != QUOTE {
      var u := UnitAt(s, i);
      assert u.c in s;
      UnitRead(s, i, ig, InEscVal, acc, true, u);
    }
  }

  lemma BareNext(s: Str, i: nat, isKey: bool, acc: Str)
    requires i <= |s| && NUL !in s && ScanWord(s, i, !isKey, InVal, acc, false).Word?
    ensures Stops(s[i..], isKey) ==> ScanWord(s, i, !isKey, InVal, acc, false) == Word(i + Gap(s[i..]), acc, false)
    ensures !Stops(s[i..], isKey) ==>
            && i < |s| && (s[i] == BACKSLASH ==> i + 1 < |s|) && BareUnit(UnitAt(s, i), isKey)
            && ScanWord(s, i, !isKey, InVal, acc, false)
            == ScanWord(s, i + |SpellUnit(UnitAt(s, i))|, !isKey, InVal, acc + [UnitAt(s, i).c], false)
  {
    if Stops(s[i..], isKey) {
      DelimiterEnds(s, i, isKey, acc);
    } else {
      assert s[i] == s[i..][0];
      if s[i] == BACKSLASH { EscapeNeedsMore(s, i, !isKey, InVal, acc, false); }
      var u := UnitAt(s, i);
      assert u.c in s;
      UnitRead(s, i, !isKey, InVal, acc, false, u);
    }
  }

  /** One unit more before those found. */
  lemma UnitsJoin(s: Str, i: nat, j: nat, us: seq<Unit>, tail: Str)
    requires us != [] && i + |SpellUnit(us[0])| <= j <= |s| && s[i..i + |SpellUnit(us[0])|] == SpellUnit(us[0])
    requires s[i + |SpellUnit(us[0])|..j] == SpellUnits(us[1..]) + tail
    ensures s[i..j] == SpellUnits(us) + tail
  {
    Join(s, i, i + |SpellUnit(us[0])|, j);
  }

  lemma {:induction false} QuotedFound(s: Str, i: nat, ig: bool, acc: Str) returns (us: seq<Unit>)
    requires i <= |s| && NUL !in s && ScanWord(s, i, ig, InEscVal, acc, true).Word?
    ensures var r := ScanWord(s, i, ig, InEscVal, acc, true);
            && r.escaped && s[i..r.next] == SpellUnits(us) + [QUOTE] && r.text == acc + Chars(us)
    ensures QuotedUnits(us)
    decreases |s| - i
  {
    hide ScanWord, SpellUnits, SpellUnit, Chars, UnitAt, QuotedUnit;
    var r := ScanWord(s, i, ig, InEscVal, acc, true);
    QuotedNext(s, i, ig, acc);
    if s[i] == QUOTE {
      NoUnits(acc);
      assert s[i..i + 1] == [QUOTE];
      return [];
    }
    var u := UnitAt(s, i);
    var more := QuotedFound(s, i + |SpellUnit(u)|, ig, acc + [u.c]);
    us := [u] + more;
    assert us[1..] == more;
    UnitsJoin(s, i, r.next, us, [QUOTE]);
    UnitsStep(us, acc);
  }

  lemma {:induction false} BareFound(s: Str, i: nat, isKey: bool, acc: Str) returns (us: seq<Unit>, gap: Str)
    requires i <= |s| && NUL !in s && ScanWord(s, i, !isKey, InVal, acc, false).Word?
    ensures var r := ScanWord(s, i, !isKey, InVal, acc, false);
            && !r.escaped && s[i..r.next] == SpellUnits(us) + gap && r.text == acc + Chars(us)
    ensures BareUnits(us, isKey) && Spaces(gap)
    decreases |s| - i
  {
    hide ScanWord, SpellUnits, SpellUnit, Chars, UnitAt, BareUnit, Stops, Gap, Spaces;
    var r := ScanWord(s, i, !isKey, InVal, acc, false);
    BareNext(s, i, isKey, acc);
    if Stops(s[i..], isKey) {
      NoUnits(acc);
      GapIsSpace(s, i);
      assert [] + s[i..r.next] == s[i..r.next];
      return [], s[i..r.next];
    }
    var u := UnitAt(s, i);
    var more;
    more, gap := BareFound(s, i + |SpellUnit(u)|, isKey, acc + [u.c]);
    us := [u] + more;
    assert us[1..] == more;
    UnitsJoin(s, i, r.next, us, gap);
    UnitsStep(us, acc);
  }

  lemma GapIsSpace(s: Str, i: nat)
    requires i <= |s|
    ensures i + Gap(s[i..]) <= |s| && Spaces(s[i..i + Gap(s[i..])])
  {
  }

  /** A word that get_val finds, with the white space around it that it takes. */
  lemma {:induction false} TokenFound(s: Str, i: nat, isKey: bool) returns (lead: Str, t: Token, gap: Str)
    requires i <= |s| && NUL !in s && ScanWord(s, i, !isKey, WaitVal, [], false).Word?
    ensures var r := ScanWord(s, i, !isKey, WaitVal, [], false);
            && r.escaped == t.InQuotes? && s[i..r.next] == lead + SpellToken(t) + gap && r.text == Chars(t.units)
    ensures Spaces(lead) && ValidToken(t, isKey) && Spaces(gap)
    decreases |s| - i
  {
    hide ScanWord, SpellToken, ValidToken, Chars;
    var r := ScanWord(s, i, !isKey, WaitVal, [], false);
    if IsSpace(At(s, i)) {
      SpaceBefore(s, i, !isKey);
      lead, t, gap := TokenFound(s, i + 1, isKey);
      hide IsSpace;
      Join(s, i, i + 1, r.next);
      var c: Str := [s[i]];
      assert s[i..i + 1] == c;
      assert c + (lead + SpellToken(t) + gap) == (c + lead) + SpellToken(t) + gap;
      lead := c + lead;
    } else {
      t, gap := WordFound(s, i, isKey);
      lead := [];
      assert lead + SpellToken(t) + gap == SpellToken(t) + gap;
    }
  }

  lemma SpaceBefore(s: Str, i: nat, ig: bool)
    requires i <= |s| && IsSpace(At(s, i))
    ensures i < |s| && ScanWord(s, i, ig, WaitVal, [], false) == ScanWord(s, i + 1, ig, WaitVal, [], false)
  {
  }

  lemma WordFirst(s: Str, i: nat, isKey: bool)
    requires i <= |s| && !IsSpace(At(s, i)) && ScanWord(s, i, !isKey, WaitVal, [], false).Word?
    ensures i < |s| && (isKey ==> s[i] != EQUALS) && (s[i] == BACKSLASH ==> i + 1 < |s|)
  {
    if i < |s| && s[i] == BACKSLASH { EscapeNeedsMore(s, i, !isKey, WaitVal, [], false); }
  }

  /** A word begins with a quote or with its first unit. */
  lemma WordNext(s: Str, i: nat, isKey: bool)
    requires i <= |s| && NUL !in s && !IsSpace(At(s, i)) && ScanWord(s, i, !isKey, WaitVal, [], false).Word?
    ensures i < |s| && (s[i] == BACKSLASH ==> i + 1 < |s|)
    ensures s[i] != QUOTE ==> var u := UnitAt(s, i);
            && BareFirst(u, isKey)
            && ScanWord(s, i, !isKey, WaitVal, [], false)
            == ScanWord(s, i + |SpellUnit(u)|, !isKey, InVal, [u.c], false)
  {
    hide ScanWord, SpellUnit;
    WordFirst(s, i, isKey);
    if s[i] != QUOTE {
      var u := UnitAt(s, i);
      assert u.c in s;
      BareBegins(s, i, isKey, u);
    }
  }

  lemma NoSpaces()
    ensures Spaces([])
  {
  }

  lemma {:induction false} WordFound(s: Str, i: nat, isKey: bool) returns (t: Token, gap: Str)
    requires i <= |s| && NUL !in s && !IsSpace(At(s, i)) && ScanWord(s, i, !isKey, WaitVal, [], false).Word?
    ensures var r := ScanWord(s, i, !isKey, WaitVal, [], false);
            && r.escaped == t.InQuotes? && s[i..r.next] == SpellToken(t) + gap && r.text == Chars(t.units)
    ensures ValidToken(t, isKey) && Spaces(gap)
  {
    hide ScanWord, SpellUnits, SpellUnit, Chars, UnitAt, IsSpace, BareFirst, QuotedUnits, BareUnits, Spaces;
    var r := ScanWord(s, i, !isKey, WaitVal, [], false);
    WordNext(s, i, isKey);
    var us;
    if s[i] == QUOTE {
      QuoteBegins(s, i, !isKey);
      us := QuotedFound(s, i + 1, !isKey, []);
      t, gap := InQuotes(us), [];
      NoSpaces();
      Join(s, i, i + 1, r.next);
      assert s[i..i + 1] == [QUOTE] && [] + Chars(us) == Chars(us);
      assert [QUOTE] + (SpellUnits(us) + [QUOTE]) == SpellToken(t) + [];
    } else {
      var u := UnitAt(s, i);
      us, gap := BareFound(s, i + |SpellUnit(u)|, isKey, [u.c]);
      t := Bare([u] + us);
      assert t.units[1..] == us;
      UnitsJoin(s, i, r.next, t.units, gap);
      UnitsStep(t.units, []);
      assert [] + Chars(t.units) == Chars(t.units) && [] + [u.c] == [u.c];
    }
  }

  lemma {:induction false} BlankFound(s: Str, i: nat)
    requires i <= |s| && NUL !in s && ScanWord(s, i, false, WaitVal, [], false).NoWord?
    ensures Spaces(s[i..])
    decreases |s| - i
  {
    if i < |s| {
      assert s[i] in s && IsSpace(s[i]);
      BlankFound(s, i + 1);
      assert s[i..] == [s[i]] + s[i + 1..];
    }
  }

  lemma {:induction false} ArrowFound(s: Str, i: nat, key: Str, pairs: seq<Pair>) returns (ws: Str, j: nat)
    requires i <= |s| && ParseFrom(s, i, WEq, key, pairs).Pairs?
    ensures i <= j <= |s| && Spaces(ws) && s[i..j] == ws + [EQUALS, GREATER]
    ensures ParseFrom(s, j, WVal, key, pairs) == ParseFrom(s, i, WEq, key, pairs)
    decreases |s| - i
  {
    if At(s, i) == EQUALS {
      assert ParseFrom(s, i, WEq, key, pairs) == ParseFrom(s, i + 1, WGt, key, pairs);
      assert At(s, i + 1) == GREATER && s[i..i + 2] == [EQUALS, GREATER];
      return [], i + 2;
    }
    ws, j := ArrowFound(s, i + 1, key, pairs);
    Join(s, i, i + 1, j);
    assert s[i..i + 1] == [s[i]];
    ws := [s[i]] + ws;
  }

  lemma {:induction false} CommaFound(s: Str, i: nat, pairs: seq<Pair>) returns (j: nat)
    requires i <= |s| && NUL !in s && ParseFrom(s, i, WDel, [], pairs).Pairs?
    ensures i <= j <= |s| && Spaces(s[i..j])
    ensures j == |s| ==> ParseFrom(s, i, WDel, [], pairs) == Pairs(pairs)
    ensures j < |s| ==> s[j] == COMMA && ParseFrom(s, i, WDel, [], pairs) == ParseFrom(s, j + 1, WKey, [], pairs)
    decreases |s| - i
  {
    j := i;
    if i < |s| && s[i] != COMMA {
      assert s[i] in s;
      j := CommaFound(s, i + 1, pairs);
      assert s[i..j] == [s[i]] + s[i + 1..j];
    }
  }

  /** The value, once the arrow is read. */
  lemma {:induction false} ValueFound(s: Str, i: nat, key: Str, pairs: seq<Pair>)
    returns (after: Str, t: Token, trail: Str, j: nat)
    requires i <= |s| && NUL !in s && ParseFrom(s, i, WVal, key, pairs).Pairs?
    ensures i <= j <= |s| && s[i..j] == after + SpellToken(t) + trail
    ensures Spaces(after) && ValidToken(t, false) && Spaces(trail) && |Chars(t.units)| <= WORD_MAX
    ensures var next := pairs + [PairRead(key, Chars(t.units), t.InQuotes?)];
            && (j == |s| ==> ParseFrom(s, i, WVal, key, pairs) == Pairs(next))
            && (j < |s| ==> s[j] == COMMA && ParseFrom(s, i, WVal, key, pairs) == ParseFrom(s, j + 1, WKey, [], next))
  {
    hide ScanWord, SpellToken, ValidToken, Chars, PairRead;
    var r := ScanWord(s, i, true, WaitVal, [], false);
    after, t, trail := TokenFound(s, i, false);
    var next := pairs + [PairRead(key, Chars(t.units), t.InQuotes?)];
    assert ParseFrom(s, i, WVal, key, pairs) == ParseFrom(s, r.next, WDel, [], next);
    hide ParseFrom;
    j := CommaFound(s, r.next, next);
    Join(s, i, r.next, j);
    assert s[i..j] == after + SpellToken(t) + (trail + s[r.next..j]);
    trail := trail + s[r.next..j];
  }

  lemma {:induction false} EntryFound(s: Str, i: nat, pairs: seq<Pair>) returns (e: Entry, j: nat)
    requires i <= |s| && NUL !in s && ParseFrom(s, i, WKey, [], pairs).Pairs?
    requires ScanWord(s, i, false, WaitVal, [], false).Word?
    ensures i < j <= |s| && s[i..j] == SpellEntry(e) && ValidEntry(e) && EntryFits(e) && |pairs| < PAIRS_MAX
    ensures var next := pairs + [EntryPair(e)];
            && (j == |s| ==> ParseFrom(s, i, WKey, [], pairs) == Pairs(next))
            && (j < |s| ==> s[j] == COMMA && ParseFrom(s, i, WKey, [], pairs) == ParseFrom(s, j + 1, WKey, [], next))
  {
    hide ScanWord, SpellToken, ValidToken, Chars;
    var r := ScanWord(s, i, false, WaitVal, [], false);
    var lead, key, gap := TokenFound(s, i, true);
    assert ParseFrom(s, i, WKey, [], pairs) == ParseFrom(s, r.next, WEq, r.text, pairs);
    hide ParseFrom;
    var ws, k := ArrowFound(s, r.next, r.text, pairs);
    var after, val, trail, m := ValueFound(s, k, r.text, pairs);
    j := m;
    e := KeyValue(lead, key, gap + ws, after, val, trail);
    Join(s, i, r.next, k);
    Join(s, i, k, j);
    assert s[i..j] == SpellEntry(e);
  }

  lemma {:induction false} DocFound(s: Str, i: nat, pairs: seq<Pair>) returns (d: Doc)
    requires i <= |s| && NUL !in s && ParseFrom(s, i, WKey, [], pairs).Pairs?
    ensures ValidDoc(d) && s[i..] == SpellDoc(d) && Fits(d, |pairs|)
    ensures ParseFrom(s, i, WKey, [], pairs) == Pairs(pairs + Meaning(d))
    decreases |s| - i
  {
    hide ScanWord, SpellEntry, ValidEntry, EntryFits, EntryPair;
    if ScanWord(s, i, false, WaitVal, [], false).NoWord? {
      BlankFound(s, i);
      assert pairs + [] == pairs;
      return Nothing(s[i..]);
    }
    var e, j := EntryFound(s, i, pairs);
    hide ParseFrom;
    var next := pairs + [EntryPair(e)];
    if j == |s| {
      assert s[i..] == s[i..j];
      return Last(e);
    }
    var rest := DocFound(s, j + 1, next);
    d := More(e, rest);
    assert s[i..] == s[i..j] + [s[j]] + s[j + 1..];
    assert next + Meaning(rest) == pairs + Meaning(d);
  }

  // ---------------------------------------------------------------- the parser decides the grammar

  /** parse_hstore reads the pairs ps from a C string exactly if the string is a sentence that means ps. */
  lemma ParsesIffDerives(s: Str, ps: seq<Pair>)
    requires 0 !in s
    ensures Parse(s) == Pairs(ps) <==> exists d :: Derives(d, s, ps)
  {
    hide ParseFrom, ValidDoc, SpellDoc, Meaning, Fits;
    if Parse(s).Pairs? {
      var d := DocFound(s, 0, []);
      assert s[0..] == s && [] + Meaning(d) == Meaning(d);
      assert Derives(d, s, Parse(s).pairs);
    }
    forall d | Derives(d, s, ps) ensures Parse(s) == Pairs(ps) { SpelledIsRead(d); }
  }

  /** It refuses exactly the strings that are no sentence, or one too large. */
  lemma RefusedIffNothingDerives(s: Str)
    requires 0 !in s
    ensures Parse(s).Failed? <==> forall d, ps :: !Derives(d, s, ps)
  {
    hide Parse, Derives;
    if Parse(s).Pairs? { ParsesIffDerives(s, Parse(s).pairs); }
    forall d, ps | Derives(d, s, ps) ensures Parse(s) == Pairs(ps) { ParsesIffDerives(s, ps); }
  }

  /** The grammar is unambiguous in meaning. */
  lemma OneMeaning(d: Doc, d': Doc)
    requires ValidDoc(d) && ValidDoc(d') && SpellDoc(d) == SpellDoc(d') && 0 !in SpellDoc(d)
    ensures Fits(d, 0) <==> Fits(d', 0)
    ensures Fits(d, 0) ==> Meaning(d) == Meaning(d')
  {
    hide Parse, ValidDoc, SpellDoc, Meaning, Fits;
    SpelledIsRead(d);
    SpelledIsRead(d');
  }
}
