/** levenshtein_internal and levenshtein_less_equal_internal. */
module Levenshtein {
  import opened Bytes
  import opened MultibyteText
  import opened EditDistance
  import opened EditBand
  import opened BandRun
  import opened EditSigns

  const MAX_LEVENSHTEIN_STRLEN := 255

  datatype Outcome = Distance(d: int) | TooLong

  /** The case the source refuses: both strings nonempty and one of them over the limit. */
  ghost predicate Refused(s: seq<Glyph>, t: seq<Glyph>) {
    s != [] && t != [] && (|s| > MAX_LEVENSHTEIN_STRLEN || |t| > MAX_LEVENSHTEIN_STRLEN)
  }

  // ---------------------------------------------------------------- characters

  /** rest_of_char_same */
  method RestOfCharSame(a: seq<byte>, x: nat, b: seq<byte>, y: nat, len: nat) returns (same: bool)
    requires x + len <= |a| && y + len <= |b|
    ensures same == (a[x..x + len] == b[y..y + len])
  {
    ghost var p, q := a[x..x + len], b[y..y + len];
    var l := len;
    while l > 0
      invariant 0 <= l <= len && p[l..] == q[l..]
    {
      l := l - 1;
      assert a[x + l] == p[l] && b[y + l] == q[l];
      if a[x + l] != b[y + l] {
        return false;
      }
      assert p[l..] == [p[l]] + p[l + 1..] && q[l..] == [q[l]] + q[l + 1..];
    }
    return true;
  }

  /** Whether the multibyte characters at x and y are equal, trying their last bytes first. */
  method SameGlyph(a: seq<byte>, x: nat, xLen: nat, b: seq<byte>, y: nat, yLen: nat) returns (same: bool)
    requires 0 < xLen && x + xLen <= |a| && 0 < yLen && y + yLen <= |b|
    ensures same == (a[x..x + xLen] == b[y..y + yLen])
  {
    ghost var p, q := a[x..x + xLen], b[y..y + yLen];
    assert p[xLen - 1] == a[x + xLen - 1] && q[yLen - 1] == b[y + yLen - 1];
    same := a[x + xLen - 1] == b[y + yLen - 1] && xLen == yLen;
    if same && xLen != 1 {
      same := RestOfCharSame(a, x, b, y, xLen);
    }
  }

  /** The character lengths of s, cached only when either string holds a multibyte character. */
  datatype Cache = NoCache | Cached(len: seq<nat>)

  ghost predicate CacheOk(cache: Cache, s: seq<Glyph>) {
    cache.Cached? ==> |cache.len| == |s| + 1 && forall k :: 0 <= k < |s| ==> cache.len[k] == |s[k]|
  }

  method CacheLengths(mblen: MbLen, data: seq<byte>, m: nat, ghost g: seq<Glyph>) returns (cache: Cache)
    requires WellEncoded(mblen, data) && g == Glyphs(mblen, data) && m == |g|
    ensures cache.Cached? && CacheOk(cache, g) && cache.len[m] == 0
  {
    var len := new nat[m + 1];
    var at := 0;
    for i := 0 to m
      invariant at == Offset(g, i) <= |data|
      invariant forall k :: 0 <= k < i ==> len[k] == |g[k]|
    {
      LengthAt(mblen, data, i);
      GlyphsLaidOut(mblen, data);
      assert LiesAt(g, data, i);
      len[i] := mblen(data[at..]);
      at := at + len[i];
    }
    len[m] := 0;
    return Cached(len[..]);
  }

  // ---------------------------------------------------------------- one row

  ghost predicate CellFilled(prev: array<int>, curr: array<int>, g: seq<Glyph>, y: Glyph, c: Costs, i: nat)
    requires prev.Length == curr.Length == |g| + 1 && 1 <= i <= |g|
    reads prev, curr
  {
    curr[i] == Min3(prev[i] + c.ins, curr[i - 1] + c.del, prev[i - 1] + SubCost(g[i - 1], y, c))
  }

  lemma RowFilled(prev: array<int>, curr: array<int>, g: seq<Glyph>, y: Glyph, c: Costs, lo: nat, hi: nat)
    requires prev.Length == curr.Length == |g| + 1 && 1 <= lo <= hi <= |g| + 1
    requires forall k: nat :: lo <= k < hi ==> CellFilled(prev, curr, g, y, c, k)
    ensures FilledAll(prev[..], curr[..], g, y, c, lo, hi)
  {
    forall k: nat | lo <= k < hi ensures Filled(prev[..], curr[..], g, y, c, k) {
      assert CellFilled(prev, curr, g, y, c, k);
    }
  }

  /** The inner loop over columns lo..hi when some character takes several bytes. */
  method FillRowMultibyte(prev: array<int>, curr: array<int>, lo: nat, hi: nat, sData: seq<byte>, x0: nat,
                          len: seq<nat>, tData: seq<byte>, y: nat, yLen: nat, c: Costs,
                          ghost g: seq<Glyph>, ghost yGlyph: Glyph)
    requires prev != curr && prev.Length == curr.Length == |g| + 1 && 1 <= lo <= hi <= |g| + 1
    requires LaidOut(g, sData) && x0 == Offset(g, lo - 1)
    requires 0 < yLen && y + yLen <= |tData| && yGlyph == tData[y..y + yLen]
    requires |len| == |g| + 1 && forall k :: 0 <= k < |g| ==> len[k] == |g[k]|
    modifies curr
    ensures forall i :: 0 <= i < curr.Length && (i < lo || hi <= i) ==> curr[i] == old(curr[i])
    ensures FilledAll(prev[..], curr[..], g, yGlyph, c, lo, hi)
  {
    var i, x := lo, x0;
    while i < hi
      invariant lo <= i <= hi && x == Offset(g, i - 1)
      invariant forall k :: 0 <= k < curr.Length && (k < lo || i <= k) ==> curr[k] == old(curr[k])
      invariant forall k: nat :: lo <= k < i ==> CellFilled(prev, curr, g, yGlyph, c, k)
    {
      label Cell:
      assert LiesAt(g, sData, i - 1);
      var xLen := len[i - 1];
      var ins, del := prev[i] + c.ins, curr[i - 1] + c.del;
      var same := SameGlyph(sData, x, xLen, tData, y, yLen);
      var sub := if same then prev[i - 1] else prev[i - 1] + c.sub;
      curr[i] := Min3(ins, del, sub);
      forall k: nat | lo <= k < i ensures CellFilled(prev, curr, g, yGlyph, c, k) {
        assert old@Cell(CellFilled(prev, curr, g, yGlyph, c, k));
      }
      x := x + xLen;
      i := i + 1;
    }
    RowFilled(prev, curr, g, yGlyph, c, lo, hi);
  }

  /** The inner loop over columns lo..hi when every character of both strings is one byte. */
  method FillRowSingleByte(prev: array<int>, curr: array<int>, lo: nat, hi: nat, sData: seq<byte>, x0: nat,
                           tData: seq<byte>, y: nat, c: Costs, ghost g: seq<Glyph>, ghost yGlyph: Glyph)
    requires prev != curr && prev.Length == curr.Length == |g| + 1 && 1 <= lo <= hi <= |g| + 1
    requires LaidOut(g, sData) && x0 == Offset(g, lo - 1)
    requires y < |tData| && yGlyph == [tData[y]] && forall k :: 0 <= k < |g| ==> |g[k]| == 1
    modifies curr
    ensures forall i :: 0 <= i < curr.Length && (i < lo || hi <= i) ==> curr[i] == old(curr[i])
    ensures FilledAll(prev[..], curr[..], g, yGlyph, c, lo, hi)
  {
    var i, x := lo, x0;
    while i < hi
      invariant lo <= i <= hi && x == Offset(g, i - 1)
      invariant forall k :: 0 <= k < curr.Length && (k < lo || i <= k) ==> curr[k] == old(curr[k])
      invariant forall k: nat :: lo <= k < i ==> CellFilled(prev, curr, g, yGlyph, c, k)
    {
      label Cell:
      assert LiesAt(g, sData, i - 1);
      assert g[i - 1] == [sData[x]] && (g[i - 1] == yGlyph <==> g[i - 1][0] == yGlyph[0]);
      var ins, del := prev[i] + c.ins, curr[i - 1] + c.del;
      var sub := prev[i - 1] + if sData[x] == tData[y] then 0 else c.sub;
      curr[i] := Min3(ins, del, sub);
      forall k: nat | lo <= k < i ensures CellFilled(prev, curr, g, yGlyph, c, k) {
        assert old@Cell(CellFilled(prev, curr, g, yGlyph, c, k));
      }
      x := x + 1;
      i := i + 1;
    }
    RowFilled(prev, curr, g, yGlyph, c, lo, hi);
  }

  /** Row zero up to the stop column: deletions only. */
  method FirstRow(prev: array<int>, stop: nat, c: Costs, ghost s: seq<Glyph>, ghost t: seq<Glyph>)
    requires prev.Length == |s| + 1 && stop <= |s| + 1
    modifies prev
    ensures forall k: nat :: k < stop ==> prev[k] == EditDistance.Dist(s, t, c, k, 0)
  {
    for i := 0 to stop
      invariant forall k: nat :: k < i ==> prev[k] == EditDistance.Dist(s, t, c, k, 0)
    {
      EdgeCosts(s, t, c, i, 0);
      TimesIsProduct(i, c.del);
      prev[i] := i * c.del;
    }
  }

  // ---------------------------------------------------------------- unbounded distance

  /** levenshtein_internal: two rows, swapped after each character of t. */
  method Unbounded(mblen: MbLen, sData: seq<byte>, tData: seq<byte>, c: Costs) returns (r: Outcome)
    requires WellEncoded(mblen, sData) && WellEncoded(mblen, tData)
    ensures r.TooLong? <==> Refused(Glyphs(mblen, sData), Glyphs(mblen, tData))
    ensures r.Distance? ==> IsLeastScriptCost(r.d, Glyphs(mblen, sData), Glyphs(mblen, tData), c)
  {
    ghost var s, t := Glyphs(mblen, sData), Glyphs(mblen, tData);
    DistanceIsLeast(s, t, c);
    var m := CountGlyphs(mblen, sData);
    var n := CountGlyphs(mblen, tData);
    if m == 0 || n == 0 {
      EdgeCosts(s, t, c, m, n);
      TimesIsProduct(n, c.ins);
      TimesIsProduct(m, c.del);
      return Distance(if m == 0 then n * c.ins else m * c.del);
    }
    if m > MAX_LEVENSHTEIN_STRLEN || n > MAX_LEVENSHTEIN_STRLEN {
      return TooLong;
    }
    var cache := NoCache;
    if m != |sData| || n != |tData| {
      cache := CacheLengths(mblen, sData, m, s);
    }
    var d := Rows(mblen, sData, m, cache, tData, n, c, s, t);
    return Distance(d);
  }

  /** The outer loop over the characters of t. */
  method Rows(mblen: MbLen, sData: seq<byte>, m: nat, cache: Cache, tData: seq<byte>, n: nat, c: Costs,
              ghost s: seq<Glyph>, ghost t: seq<Glyph>) returns (d: int)
    requires WellEncoded(mblen, sData) && s == Glyphs(mblen, sData) && m == |s| > 0
    requires WellEncoded(mblen, tData) && t == Glyphs(mblen, tData) && n == |t|
    requires CacheOk(cache, s) && (cache.NoCache? ==> m == |sData| && n == |tData|)
    ensures d == EditDistance.Distance(s, t, c)
  {
    var prev, curr := new int[m + 1], new int[m + 1];
    FirstRow(prev, m + 1, c, s, t);
    var y := 0;
    for j := 1 to n + 1
      invariant prev != curr && prev.Length == curr.Length == m + 1 && fresh(prev) && fresh(curr)
      invariant y == Offset(t, j - 1) && Full(prev[..], s, t, c, j - 1)
    {
      var yLen := NextGlyph(mblen, tData, y, n, j - 1, t);
      EdgeCosts(s, t, c, 0, j);
      TimesIsProduct(j, c.ins);
      curr[0] := j * c.ins;
      FillRow(prev, curr, 1, m + 1, sData, 0, cache, mblen, tData, y, yLen, c, s, t, j);
      NextFull(prev[..], curr[..], s, t, c, j, t[j - 1], m + 1);
      prev, curr := curr, prev;
      y := y + yLen;
    }
    return prev[m];
  }

  /** The length of the character of t at offset y; one when t is all single bytes. */
  method NextGlyph(mblen: MbLen, data: seq<byte>, y: nat, n: nat, k: nat, ghost g: seq<Glyph>) returns (len: nat)
    requires WellEncoded(mblen, data) && g == Glyphs(mblen, data) && n == |g|
    requires k < |g| && y == Offset(g, k)
    ensures 0 < len == |g[k]| && y + len <= |data| && data[y..y + len] == g[k]
  {
    GlyphsLaidOut(mblen, data);
    assert LiesAt(g, data, k);
    if n != |data| {
      LengthAt(mblen, data, k);
      len := mblen(data[y..]);
    } else {
      SingleBytes(g, data, k);
      len := 1;
    }
  }

  /** One row in the form the strings call for. */
  method FillRow(prev: array<int>, curr: array<int>, lo: nat, hi: nat, sData: seq<byte>, x0: nat, cache: Cache,
                 mblen: MbLen, tData: seq<byte>, y: nat, yLen: nat, c: Costs,
                 ghost s: seq<Glyph>, ghost t: seq<Glyph>, ghost j: nat)
    requires WellEncoded(mblen, sData) && s == Glyphs(mblen, sData)
    requires WellEncoded(mblen, tData) && t == Glyphs(mblen, tData)
    requires prev != curr && prev.Length == curr.Length == |s| + 1 && 1 <= lo <= hi <= |s| + 1
    requires x0 == Offset(s, lo - 1)
    requires 1 <= j <= |t| && y + yLen <= |tData| && 0 < yLen && tData[y..y + yLen] == t[j - 1]
    requires CacheOk(cache, s) && (cache.NoCache? ==> |s| == |sData| && |t| == |tData|)
    modifies curr
    ensures forall i :: 0 <= i < curr.Length && (i < lo || hi <= i) ==> curr[i] == old(curr[i])
    ensures FilledAll(prev[..], curr[..], s, t[j - 1], c, lo, hi)
  {
    GlyphsLaidOut(mblen, sData);
    if cache.Cached? {
      FillRowMultibyte(prev, curr, lo, hi, sData, x0, cache.len, tData, y, yLen, c, s, t[j - 1]);
    } else {
      GlyphsLaidOut(mblen, tData);
      SingleBytes(t, tData, j - 1);
      forall k | 0 <= k < |s| ensures |s[k]| == 1 { SingleBytes(s, sData, k); }
      FillRowSingleByte(prev, curr, lo, hi, sData, x0, tData, y, c, s, t[j - 1]);
    }
  }

  // ---------------------------------------------------------------- bounded distance

  /** The initial stop column. */
  function StopColumn(m: nat, n: nat, c: Costs, maxD: int): (stop: nat)
    requires m > 0 && Residual(m, n, c, 0, 0) <= maxD
    ensures 1 <= stop <= m + 1
  {
    if c.ins + c.del <= 0 then m + 1
    else
      var stop := (if n < m then m - n else 0) + (maxD - Residual(m, n, c, 0, 0)) / (c.ins + c.del) + 1;
      if stop > m then m + 1 else stop
  }

  /** What is returned for nonempty strings and a bound, whatever the costs: the bound is given up at once, dropped, or
      used to keep the computation within a band. */
  ghost predicate Answers(d: int, s: seq<Glyph>, t: seq<Glyph>, costs: Costs, maxD: int)
    requires s != [] && t != []
  {
    var c, low := Clamped(costs), Residual(|s|, |t|, costs, 0, 0);
    if low > maxD then d == maxD + 1
    else if maxD >= low + c.sub * Min(|s|, |t|) then d == EditDistance.Distance(s, t, costs)
    else BandAnswer(d, s, t, c, maxD, StopColumn(|s|, |t|, c, maxD))
  }

  /** levenshtein_less_equal_internal */
  method Bounded(mblen: MbLen, sData: seq<byte>, tData: seq<byte>, costs: Costs, maxD: int) returns (r: Outcome)
    requires WellEncoded(mblen, sData) && WellEncoded(mblen, tData)
    ensures r.TooLong? <==> Refused(Glyphs(mblen, sData), Glyphs(mblen, tData))
    ensures var s, t := Glyphs(mblen, sData), Glyphs(mblen, tData);
            var d := EditDistance.Distance(s, t, costs);
            r.Distance? ==>
              && (s == [] || t == [] || maxD < 0 ==> r.d == d)
              && (s != [] && t != [] && maxD >= 0 && Sound(costs) ==> r.d == if d <= maxD then d else maxD + 1)
              && (s != [] && t != [] && maxD >= 0 ==> Answers(r.d, s, t, costs, maxD))
  {
    ghost var s, t := Glyphs(mblen, sData), Glyphs(mblen, tData);
    var m := CountGlyphs(mblen, sData);
    var n := CountGlyphs(mblen, tData);
    if m == 0 || n == 0 {
      EdgeCosts(s, t, costs, m, n);
      TimesIsProduct(n, costs.ins);
      TimesIsProduct(m, costs.del);
      return Distance(if m == 0 then n * costs.ins else m * costs.del);
    }
    if m > MAX_LEVENSHTEIN_STRLEN || n > MAX_LEVENSHTEIN_STRLEN {
      return TooLong;
    }
    var hopeless, c, bound, stop := Tighten(m, n, costs, maxD, s, t);
    if hopeless {
      return Distance(maxD + 1);
    }
    var cache := NoCache;
    if m != |sData| || n != |tData| {
      cache := CacheLengths(mblen, sData, m, s);
    }
    var d := BandedRows(mblen, sData, m, cache, tData, n, c, bound, stop, s, t);
    return Distance(d);
  }

  /** The bound against the least and greatest possible distance, and the first stop column. */
  method Tighten(m: nat, n: nat, costs: Costs, maxD: int, ghost s: seq<Glyph>, ghost t: seq<Glyph>)
    returns (hopeless: bool, c: Costs, bound: int, stop: nat)
    requires m == |s| > 0 && n == |t|
    ensures hopeless <==> maxD >= 0 && Residual(m, n, costs, 0, 0) > maxD
    ensures hopeless ==> (Sound(costs) ==> EditDistance.Distance(s, t, costs) > maxD)
    ensures !hopeless ==>
              && EditDistance.Distance(s, t, c) == EditDistance.Distance(s, t, costs)
              && 1 <= stop <= m + 1
              && (bound < 0 ==> stop == m + 1)
              && (maxD < 0 ==> bound < 0)
              && (maxD >= 0 && bound < 0 && Sound(costs) ==> EditDistance.Distance(s, t, costs) <= maxD)
              && (bound >= 0 && Sound(costs) ==> Nonnegative(c))
              && (bound >= 0 && Nonnegative(c) ==>
                    forall i: nat :: stop <= i <= m ==> Forecast(s, t, c, i, 0) > bound)
    ensures !hopeless && maxD >= 0 ==>
              && c == Clamped(costs)
              && bound == (if maxD >= Residual(m, n, costs, 0, 0) + c.sub * Min(m, n) then -1 else maxD)
              && (bound >= 0 ==> stop == StopColumn(m, n, c, maxD))
  {
    hide Sound, Nonnegative, Forecast, EditDistance.Distance;
    hopeless, c, bound, stop := false, costs, maxD, m + 1;
    if maxD >= 0 {
      if Sound(costs) { SoundBounds(s, t, costs, maxD); }
      var net := n - m;
      var least := if net < 0 then -net * c.del else net * c.ins;
      assert least == Residual(m, n, costs, 0, 0) by { ResidualIsProduct(m, n, costs, 0, 0); }
      hide Residual;
      if least > maxD {
        return true, c, bound, stop;
      }
      if c.ins + c.del < c.sub {
        c := c.(sub := c.ins + c.del);
      }
      ClampKeepsDistance(s, t, costs);
      var most := least + c.sub * Min(m, n);
      if bound >= most {
        bound := -1;
      } else {
        SameResidual(m, n, costs);
        if c.ins + c.del > 0 {
          stop := FirstStop(m, n, c, maxD, least, s, t);
        }
      }
    }
  }

  lemma ClampKeepsDistance(s: seq<Glyph>, t: seq<Glyph>, costs: Costs)
    ensures EditDistance.Distance(s, t, Clamped(costs)) == EditDistance.Distance(s, t, costs)
    ensures Nonnegative(costs) ==> Nonnegative(Clamped(costs))
  {
    ClampKeepsDist(s, t, costs, |s|, |t|);
  }

  lemma SameResidual(m: nat, n: nat, costs: Costs)
    ensures Residual(m, n, Clamped(costs), 0, 0) == Residual(m, n, costs, 0, 0)
  {
  }

  /** How much of row zero is needed. */
  method FirstStop(m: nat, n: nat, c: Costs, bound: int, least: int, ghost s: seq<Glyph>, ghost t: seq<Glyph>)
    returns (stop: nat)
    requires m == |s| > 0 && n == |t| && c.ins + c.del > 0 && least == Residual(m, n, c, 0, 0) <= bound
    ensures stop == StopColumn(m, n, c, bound)
    ensures Nonnegative(c) ==> forall i: nat :: stop <= i <= m ==> Forecast(s, t, c, i, 0) > bound
  {
    var slack := bound - least;
    var best := if n < m then m - n else 0;
    stop := best + slack / (c.ins + c.del) + 1;
    if Nonnegative(c) {
      forall i: nat | stop <= i <= m ensures Forecast(s, t, c, i, 0) > bound {
        BeyondStopColumn(s, t, c, bound, i);
      }
    }
    if stop > m {
      stop := m + 1;
    }
  }

  /** The outer loop inside the band. */
  method BandedRows(mblen: MbLen, sData: seq<byte>, m: nat, cache: Cache, tData: seq<byte>, n: nat, c: Costs,
                    bound: int, stop0: nat, ghost s: seq<Glyph>, ghost t: seq<Glyph>) returns (d: int)
    requires WellEncoded(mblen, sData) && s == Glyphs(mblen, sData) && m == |s| > 0
    requires WellEncoded(mblen, tData) && t == Glyphs(mblen, tData) && n == |t| > 0
    requires CacheOk(cache, s) && (cache.NoCache? ==> m == |sData| && n == |tData|)
    requires 1 <= stop0 <= m + 1 && (bound < 0 ==> stop0 == m + 1)
    requires bound >= 0 && Nonnegative(c) ==> forall i: nat :: stop0 <= i <= m ==> Forecast(s, t, c, i, 0) > bound
    ensures var dist := EditDistance.Distance(s, t, c);
            && (bound < 0 ==> d == dist)
            && (bound >= 0 && Nonnegative(c) ==> d == if dist <= bound then dist else bound + 1)
    ensures bound >= 0 ==> BandAnswer(d, s, t, c, bound, stop0)
  {
    hide AtRow, Forecast, WellEncoded, Glyphs, CacheOk, Nonnegative, After, BandAnswer, EditDistance.Distance;
    hide EditDistance.Dist, Proper, Residual;
    var prev, curr := new int[m + 1], new int[m + 1];
    FirstRow(prev, stop0, c, s, t);
    var start, stop, sAt, y := 0, stop0, 0, 0;
    AtFirst(prev, curr, s, t, c, bound, stop0);
    for j := 1 to n + 1
      invariant fresh(prev) && fresh(curr) && AtRow(prev, curr, s, t, c, bound, stop0, j - 1, start, stop, sAt, y)
    {
      start, stop, sAt, y :=
        NextRow(mblen, sData, m, cache, tData, n, c, bound, prev, curr, j, start, stop, sAt, y, s, t, stop0);
      if start >= stop {
        StaysCrossed(s, t, c, bound, stop0, j, n);
        CrossedAnswer(s, t, c, bound, stop0);
        return bound + 1;
      }
      prev, curr := curr, prev;
    }
    LastState(prev, curr, s, t, c, bound, stop0, start, stop, sAt, y);
    return prev[m];
  }

  /** Between rows: row j is in prev, valid inside the band, and both pointers stand where the band and the row say. */
  ghost predicate AtRow(prev: array<int>, curr: array<int>, s: seq<Glyph>, t: seq<Glyph>, c: Costs, bound: int,
                        first: nat, j: nat, start: nat, stop: nat, sAt: nat, y: nat)
    requires 1 <= first <= |s| + 1
    reads prev, curr
  {
    && prev != curr && prev.Length == curr.Length == |s| + 1 && start < stop <= |s| + 1 && j <= |t|
    && y == Offset(t, j) && sAt == Offset(s, if start == 0 then 0 else start - 1)
    && RowState(prev[..], s, t, c, bound, j, start, stop) && Sentinels(prev, curr, bound, start)
    && (j > 0 && bound >= 0 ==> prev[start] + Residual(|s|, |t|, c, start, j) <= bound)
    && (bound >= 0 ==> Stored(prev[..], After(s, t, c, bound, first, j), start, stop))
  }

  lemma AtFirst(prev: array<int>, curr: array<int>, s: seq<Glyph>, t: seq<Glyph>, c: Costs, bound: int, first: nat)
    requires prev != curr && prev.Length == curr.Length == |s| + 1
    requires 1 <= first <= |s| + 1 && (bound < 0 ==> first == |s| + 1)
    requires forall k: nat :: k < first ==> prev[k] == EditDistance.Dist(s, t, c, k, 0)
    requires bound >= 0 && Nonnegative(c) ==> forall i: nat :: first <= i <= |s| ==> Forecast(s, t, c, i, 0) > bound
    ensures AtRow(prev, curr, s, t, c, bound, first, 0, 0, first, 0, 0)
  {
    hide After, Forecast, Nonnegative, EditDistance.Dist;
    FirstState(prev[..], s, t, c, bound, first);
    AfterNone(prev[..], s, t, c, bound, first);
  }

  /** Row j: filled from the one above, then the band slides; an empty band means the bound is passed. */
  method NextRow(mblen: MbLen, sData: seq<byte>, m: nat, cache: Cache, tData: seq<byte>, n: nat, c: Costs, bound: int,
                 prev: array<int>, curr: array<int>, j: nat, start0: nat, stop0: nat, sAt0: nat, y0: nat,
                 ghost s: seq<Glyph>, ghost t: seq<Glyph>, ghost first: nat)
    returns (start: nat, stop: nat, sAt: nat, y: nat)
    requires WellEncoded(mblen, sData) && s == Glyphs(mblen, sData) && m == |s|
    requires WellEncoded(mblen, tData) && t == Glyphs(mblen, tData) && n == |t|
    requires CacheOk(cache, s) && (cache.NoCache? ==> m == |sData| && n == |tData|)
    requires 1 <= first <= |s| + 1 && 1 <= j <= n
    requires AtRow(prev, curr, s, t, c, bound, first, j - 1, start0, stop0, sAt0, y0)
    modifies prev, curr
    ensures start < stop ==> AtRow(curr, prev, s, t, c, bound, first, j, start, stop, sAt, y)
    ensures start >= stop ==> bound >= 0 && (Nonnegative(c) ==> EditDistance.Distance(s, t, c) > bound)
    ensures start >= stop ==> After(s, t, c, bound, first, j).Crossed?
  {
    hide RowState, Residual, Glyphs, WellEncoded, CacheOk, Nonnegative, Stored, After, Filling, Slid;
    ghost var row := prev[..];
    if bound >= 0 { AfterNext(row, s, t, c, bound, first, j, start0, stop0); }
    var yLen := NextGlyph(mblen, tData, y0, n, j - 1, t);
    start, sAt, y := start0, sAt0, y0 + yLen;
    stop := BandedRow(prev, curr, start, stop0, sData, sAt, cache, mblen, tData, y0, yLen, c, bound, s, t, j);
    if bound >= 0 {
      start, stop, sAt := Slide(curr, prev, m, n, j, c, bound, start, stop, mblen, sData, sAt, cache, s, t);
    }
  }

  lemma FirstState<T>(row: seq<int>, s: seq<T>, t: seq<T>, c: Costs, bound: int, stop: nat)
    requires |row| == |s| + 1 && stop <= |s| + 1 && (bound < 0 ==> stop == |s| + 1)
    requires forall k: nat :: k < stop ==> row[k] == EditDistance.Dist(s, t, c, k, 0)
    requires bound >= 0 && Nonnegative(c) ==> forall i: nat :: stop <= i <= |s| ==> Forecast(s, t, c, i, 0) > bound
    ensures RowState(row, s, t, c, bound, 0, 0, stop)
  {
    hide Forecast, EditDistance.Dist;
    if bound >= 0 && Nonnegative(c) { assert Band(row, s, t, c, bound, 0, 0, stop); }
  }

  lemma CrossedAnswer(s: seq<Glyph>, t: seq<Glyph>, c: Costs, bound: int, first: nat)
    requires 1 <= first <= |s| + 1 && After(s, t, c, bound, first, |t|).Crossed?
    ensures BandAnswer(bound + 1, s, t, c, bound, first)
  {
  }

  lemma LastState(prev: array<int>, curr: array<int>, s: seq<Glyph>, t: seq<Glyph>, c: Costs, bound: int,
                  first: nat, start: nat, stop: nat, sAt: nat, y: nat)
    requires 1 <= first <= |s| + 1 && t != [] && AtRow(prev, curr, s, t, c, bound, first, |t|, start, stop, sAt, y)
    ensures prev.Length == |s| + 1
    ensures var dist := EditDistance.Distance(s, t, c);
            && (bound < 0 ==> prev[|s|] == dist)
            && (bound >= 0 && Nonnegative(c) ==> prev[|s|] == if dist <= bound then dist else bound + 1)
    ensures bound >= 0 ==> BandAnswer(prev[|s|], s, t, c, bound, first)
  {
    hide After;
    if bound >= 0 && Nonnegative(c) {
      LastBand(prev[..], s, t, c, bound, start, stop);
    }
  }

  /** Columns left of the band read as beyond the bound in both rows. */
  ghost predicate Sentinels(prev: array<int>, curr: array<int>, bound: int, start: nat)
    requires prev.Length == curr.Length && start <= prev.Length
    reads prev, curr
  {
    bound >= 0 ==> forall i :: 0 <= i < start ==> prev[i] == bound + 1 && curr[i] == bound + 1
  }

  /** Row j inside the band, which grows one column to the right unless it is at the edge. */
  method BandedRow(prev: array<int>, curr: array<int>, start: nat, stop0: nat, sData: seq<byte>, sAt: nat,
                   cache: Cache, mblen: MbLen, tData: seq<byte>, y: nat, yLen: nat, c: Costs, bound: int,
                   ghost s: seq<Glyph>, ghost t: seq<Glyph>, j: nat) returns (stop: nat)
    requires WellEncoded(mblen, sData) && s == Glyphs(mblen, sData)
    requires WellEncoded(mblen, tData) && t == Glyphs(mblen, tData)
    requires prev != curr && prev.Length == curr.Length == |s| + 1 && start < stop0 <= |s| + 1
    requires sAt == Offset(s, if start == 0 then 0 else start - 1)
    requires 1 <= j <= |t| && y + yLen <= |tData| && 0 < yLen && tData[y..y + yLen] == t[j - 1]
    requires CacheOk(cache, s) && (cache.NoCache? ==> |s| == |sData| && |t| == |tData|)
    requires RowState(prev[..], s, t, c, bound, j - 1, start, stop0) && Sentinels(prev, curr, bound, start)
    modifies prev, curr
    ensures start < stop0 <= stop <= |s| + 1
    ensures RowState(curr[..], s, t, c, bound, j, start, stop) && Sentinels(prev, curr, bound, start)
    ensures stop == Widened(stop0, |s|)
    ensures bound >= 0 ==>
              curr[..stop] == Filling(old(prev[..]), start, stop0, s, t[j - 1], c, bound, j, stop)
  {
    hide RowState, Filling, FilledAll;
    ghost var row := prev[..];
    stop := stop0;
    if stop < prev.Length {
      prev[stop] := bound + 1;
      stop := stop + 1;
    }
    var i := start;
    if start == 0 {
      EdgeCosts(s, t, c, 0, j);
      TimesIsProduct(j, c.ins);
      curr[0] := j * c.ins;
      i := 1;
    }
    FillRow(prev, curr, i, stop, sData, sAt, cache, mblen, tData, y, yLen, c, s, t, j);
    NextState(row, prev[..], curr[..], s, t, c, bound, j, start, stop0, stop);
    if bound >= 0 { FilledIsFilling(row, prev[..], curr[..], s, t[j - 1], c, bound, j, start, stop0, stop); }
  }

  /** What the inner loop works on when it fills the band. */
  ghost predicate InBand(row: seq<int>, prev: seq<int>, curr: seq<int>, s: seq<Glyph>, y: Glyph, c: Costs, bound: int,
                         j: nat, start: nat, stop0: nat)
  {
    && |row| == |prev| == |curr| == |s| + 1 && start < stop0 <= |s| + 1
    && prev == (if stop0 <= |s| then row[stop0 := bound + 1] else row)
    && (forall i :: 0 <= i < start ==> curr[i] == bound + 1)
    && (start == 0 ==> curr[0] == j * c.ins)
    && FilledAll(prev, curr, s, y, c, if start == 0 then 1 else start, Widened(stop0, |s|))
  }

  lemma FilledIsNext(row: seq<int>, prev: seq<int>, curr: seq<int>, s: seq<Glyph>, y: Glyph, c: Costs, bound: int,
                     j: nat, start: nat, stop0: nat, i: nat)
    requires InBand(row, prev, curr, s, y, c, bound, j, start, stop0) && i < Widened(stop0, |s|)
    ensures curr[i] == NextCell(curr[..i], row, start, stop0, s, y, c, bound, j)
  {
    hide SubCost, Min3;
    if i >= start && i > 0 { assert Filled(prev, curr, s, y, c, i); }
  }

  /** The inner loop stores the cells of the banded computation. */
  lemma {:induction false} FilledIsFilling(row: seq<int>, prev: seq<int>, curr: seq<int>, s: seq<Glyph>, y: Glyph,
                                           c: Costs, bound: int, j: nat, start: nat, stop0: nat, n: nat)
    requires InBand(row, prev, curr, s, y, c, bound, j, start, stop0) && n <= Widened(stop0, |s|)
    ensures curr[..n] == Filling(row, start, stop0, s, y, c, bound, j, n)
  {
    assert |curr| == |s| + 1 == |row| && stop0 <= |s| + 1;
    hide InBand, NextCell;
    if n > 0 {
      FilledIsFilling(row, prev, curr, s, y, c, bound, j, start, stop0, n - 1);
      FilledIsNext(row, prev, curr, s, y, c, bound, j, start, stop0, n - 1);
      assert curr[..n] == curr[..n - 1] + [curr[n - 1]];
    }
  }

  lemma NextState(row: seq<int>, prev: seq<int>, curr: seq<int>, s: seq<Glyph>, t: seq<Glyph>, c: Costs, bound: int,
                  j: nat, start: nat, oldStop: nat, stop: nat)
    requires |row| == |prev| == |curr| == |s| + 1 && 0 < j <= |t| && start < oldStop <= stop <= |s| + 1
    requires stop == if oldStop <= |s| then oldStop + 1 else oldStop
    requires RowState(row, s, t, c, bound, j - 1, start, oldStop)
    requires prev == if oldStop <= |s| then row[oldStop := bound + 1] else row
    requires bound >= 0 && start > 0 ==> prev[start - 1] == bound + 1 && curr[start - 1] == bound + 1
    requires start == 0 ==> curr[0] == EditDistance.Dist(s, t, c, 0, j)
    requires FilledAll(prev, curr, s, t[j - 1], c, if start == 0 then 1 else start, stop)
    ensures RowState(curr, s, t, c, bound, j, start, stop)
  {
    if bound < 0 {
      NextFull(prev, curr, s, t, c, j, t[j - 1], |s| + 1);
    } else if Nonnegative(c) {
      assert Band(prev, s, t, c, bound, j - 1, start, oldStop);
      NextBand(prev, curr, s, t, c, bound, j, t[j - 1], start, oldStop, stop);
    }
  }

  /** Both ends of the band slide inwards; if they cross, the bound is exceeded. */
  method Slide(prev: array<int>, curr: array<int>, m: nat, n: nat, j: nat, c: Costs, bound: int, start0: nat,
               stop0: nat, mblen: MbLen, sData: seq<byte>, sAt0: nat, cache: Cache,
               ghost s: seq<Glyph>, ghost t: seq<Glyph>)
    returns (start: nat, stop: nat, sAt: nat)
    requires WellEncoded(mblen, sData) && s == Glyphs(mblen, sData) && (cache.NoCache? ==> m == |sData|)
    requires prev != curr && prev.Length == curr.Length == m + 1 && m == |s| && n == |t| && 0 < j <= n
    requires bound >= 0 && start0 <= m && stop0 <= m + 1 && CacheOk(cache, s)
    requires RowState(prev[..], s, t, c, bound, j, start0, stop0) && Sentinels(prev, curr, bound, start0)
    requires sAt0 == Offset(s, if start0 == 0 then 0 else start0 - 1)
    modifies prev, curr
    ensures stop <= stop0
    ensures start < stop ==>
              && RowState(prev[..], s, t, c, bound, j, start, stop)
              && Sentinels(prev, curr, bound, start)
              && sAt == Offset(s, if start == 0 then 0 else start - 1)
              && prev[start] + Residual(m, n, c, start, j) <= bound
    ensures stop <= start && Nonnegative(c) ==> EditDistance.Distance(s, t, c) > bound
    ensures var p := Slid(old(prev[..])[..stop0], m, n, c, bound, j, start0);
            if start < stop then Stored(prev[..], p, start, stop) else p.Crossed?
  {
    ghost var row := prev[..];
    stop := SlideStop(prev, m, n, j, c, bound, start0, stop0, s, t);
    start, sAt := SlideStart(prev, curr, m, n, j, c, bound, start0, stop, mblen, sData, sAt0, cache, s, t);
    SlidIsStored(row, prev[..], stop0, m, n, c, bound, j, start0, start, stop);
    if stop <= start && Nonnegative(c) {
      EmptyBand(prev[..], s, t, c, bound, j, start, stop);
    }
  }

  /** The stop column slides left over columns whose forecast is beyond the bound. */
  method SlideStop(prev: array<int>, m: nat, n: nat, j: nat, c: Costs, bound: int, start: nat, stop0: nat,
                   ghost s: seq<Glyph>, ghost t: seq<Glyph>) returns (stop: nat)
    requires prev.Length == m + 1 && m == |s| && n == |t| && 0 < j <= n && bound >= 0 && stop0 <= m + 1
    requires RowState(prev[..], s, t, c, bound, j, start, stop0)
    ensures stop <= stop0 && RowState(prev[..], s, t, c, bound, j, start, stop)
    ensures stop == StopOf(prev[..], m, n, c, bound, j, stop0)
  {
    stop := stop0;
    var zp := j - (n - m);
    while stop > 0
      invariant stop <= stop0 && RowState(prev[..], s, t, c, bound, j, start, stop)
      invariant StopOf(prev[..], m, n, c, bound, j, stop) == StopOf(prev[..], m, n, c, bound, j, stop0)
    {
      var ii := stop - 1;
      var net := ii - zp;
      ResidualIsProduct(m, n, c, ii, j);
      if prev[ii] + (if net > 0 then net * c.ins else -net * c.del) <= bound {
        break;
      }
      DropColumn(prev[..], s, t, c, bound, j, start, stop, ii);
      stop := stop - 1;
    }
  }

  /** A column stored beyond the bound is hopeless. */
  lemma DropColumn(row: seq<int>, s: seq<Glyph>, t: seq<Glyph>, c: Costs, bound: int, j: nat, start: nat, stop: nat,
                   i: nat)
    requires |row| == |s| + 1 && j <= |t| && stop <= |s| + 1 && i <= |s| && bound >= 0
    requires RowState(row, s, t, c, bound, j, start, stop)
    requires row[i] + Residual(|s|, |t|, c, i, j) > bound
    ensures Nonnegative(c) ==> Forecast(s, t, c, i, j) > bound
  {
    if Nonnegative(c) && start <= i < stop {
      assert Tracks(s, t, c, bound, i, j, row[i]);
    }
  }

  /** The start column slides right, leaving sentinels behind. */
  method SlideStart(prev: array<int>, curr: array<int>, m: nat, n: nat, j: nat, c: Costs, bound: int, start0: nat,
                    stop: nat, mblen: MbLen, sData: seq<byte>, sAt0: nat, cache: Cache,
                    ghost s: seq<Glyph>, ghost t: seq<Glyph>)
    returns (start: nat, sAt: nat)
    requires WellEncoded(mblen, sData) && s == Glyphs(mblen, sData) && (cache.NoCache? ==> m == |sData|)
    requires prev != curr && prev.Length == curr.Length == m + 1 && m == |s| && n == |t| && 0 < j <= n
    requires bound >= 0 && start0 <= m && stop <= m + 1 && CacheOk(cache, s)
    requires RowState(prev[..], s, t, c, bound, j, start0, stop) && Sentinels(prev, curr, bound, start0)
    requires sAt0 == Offset(s, if start0 == 0 then 0 else start0 - 1)
    modifies prev, curr
    ensures RowState(prev[..], s, t, c, bound, j, start, stop)
    ensures start < stop ==>
              && Sentinels(prev, curr, bound, start)
              && sAt == Offset(s, if start == 0 then 0 else start - 1)
              && prev[start] + Residual(m, n, c, start, j) <= bound
    ensures start == StartOf(old(prev[..]), m, n, c, bound, j, start0, stop)
    ensures start < stop ==> prev[start..] == old(prev[start..])
  {
    hide RowState, Residual, Forecast, Offset, Glyphs, WellEncoded, CacheOk, Nonnegative, StartOf;
    ghost var was := prev[..];
    start, sAt := start0, sAt0;
    var zp := j - (n - m);
    while start < stop
      invariant start <= m + 1 && RowState(prev[..], s, t, c, bound, j, start, stop)
      invariant Sentinels(prev, curr, bound, start) && prev[start..] == was[start..]
      invariant StartOf(was, m, n, c, bound, j, start, stop) == StartOf(was, m, n, c, bound, j, start0, stop)
      invariant sAt == Offset(s, if start == 0 then 0 else start - 1)
    {
      var net := start - zp;
      assert was[start] == was[start..][0] == prev[start..][0] == prev[start];
      StartStep(was, m, n, c, bound, j, start, stop);
      ResidualIsProduct(m, n, c, start, j);
      if prev[start] + (if net > 0 then net * c.ins else -net * c.del) <= bound {
        break;
      }
      DropColumn(prev[..], s, t, c, bound, j, start, stop, start);
      ghost var row := prev[..];
      prev[start] := bound + 1;
      curr[start] := bound + 1;
      if start != 0 {
        NextOffset(mblen, sData, cache, s, start - 1);
        sAt := sAt + if cache.Cached? then cache.len[start - 1] else 1;
      }
      start := start + 1;
      NarrowBand(row, prev[..], s, t, c, bound, j, start, stop);
    }
    StartStep(was, m, n, c, bound, j, start, stop);
  }

  lemma NextOffset(mblen: MbLen, sData: seq<byte>, cache: Cache, s: seq<Glyph>, i: nat)
    requires WellEncoded(mblen, sData) && s == Glyphs(mblen, sData) && (cache.NoCache? ==> |s| == |sData|)
    requires i < |s| && CacheOk(cache, s)
    ensures cache.Cached? ==> i < |cache.len|
    ensures Offset(s, i + 1) == Offset(s, i) + if cache.Cached? then cache.len[i] else 1
  {
    if cache.NoCache? {
      GlyphsLaidOut(mblen, sData);
      SingleBytes(s, sData, i);
    }
  }

  lemma NarrowBand(row: seq<int>, next: seq<int>, s: seq<Glyph>, t: seq<Glyph>, c: Costs, bound: int, j: nat,
                   start: nat, stop: nat)
    requires |row| == |next| == |s| + 1 && j <= |t| && 0 < start <= stop <= |s| + 1 && bound >= 0
    requires RowState(row, s, t, c, bound, j, start - 1, stop) && next[start..] == row[start..]
    requires Nonnegative(c) ==> Forecast(s, t, c, start - 1, j) > bound
    ensures RowState(next, s, t, c, bound, j, start, stop)
  {
    if Nonnegative(c) {
      forall i: nat | start <= i < stop ensures Tracks(s, t, c, bound, i, j, next[i]) {
        assert next[i] == next[start..][i - start] == row[start..][i - start] == row[i];
      }
      assert Band(next, s, t, c, bound, j, start, stop);
    }
  }
}
