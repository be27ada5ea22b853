/** For which costs levenshtein_less_equal_internal is right. */
module LevenshteinCosts {
  import opened BandRun
  import opened Bytes
  import opened EditBand
  import opened EditDistance
  import opened EditSigns
  import opened Levenshtein
  import opened MultibyteText

  /** The distance if it is within the bound, and one more than the bound otherwise. */
  ghost predicate IsRight(d: int, s: seq<Glyph>, t: seq<Glyph>, costs: Costs, maxD: int) {
    d == var dist := EditDistance.Distance(s, t, costs); if dist <= maxD then dist else maxD + 1
  }

  const A: Glyph := [97]
  const B: Glyph := [98]

  // ---------------------------------------------------------------- giving up too early

  /** Evening out the lengths costs an insertion, but a replacement or a deletion with an insertion gains. */
  lemma GivesUpGrowing(s: seq<Glyph>, t: seq<Glyph>, costs: Costs, d: int)
    requires |s| == 1 && |t| == 2 && s[0] != t[0]
    requires costs.ins >= 1 && (costs.sub < 0 || costs.ins + costs.del < 0)
    requires Answers(d, s, t, costs, costs.ins - 1)
    ensures d == costs.ins && EditDistance.Distance(s, t, costs) < costs.ins
  {
    ResidualIsProduct(1, 2, costs, 0, 0);
    LastStep(s, t, costs, 1, 0);
    LastStep(s, t, costs, 1, 1);
    LastStep(s, t, costs, 1, 2);
    EdgeCosts(s, t, costs, 0, 0);
    hide EditDistance.Dist, Residual, BandAnswer;
  }

  lemma WrongAbove(d: int, s: seq<Glyph>, t: seq<Glyph>, costs: Costs, maxD: int)
    requires d > maxD >= EditDistance.Distance(s, t, costs)
    ensures !IsRight(d, s, t, costs, maxD)
  {
  }

  /** The same with a deletion. */
  lemma GivesUpShrinking(s: seq<Glyph>, t: seq<Glyph>, costs: Costs, d: int)
    requires |s| == 2 && |t| == 1 && s[0] != t[0]
    requires costs.del >= 1 && (costs.sub < 0 || costs.ins + costs.del < 0)
    requires Answers(d, s, t, costs, costs.del - 1)
    ensures d == costs.del && EditDistance.Distance(s, t, costs) < costs.del
  {
    ResidualIsProduct(2, 1, costs, 0, 0);
    LastStep(s, t, costs, 0, 1);
    LastStep(s, t, costs, 1, 1);
    LastStep(s, t, costs, 2, 1);
    EdgeCosts(s, t, costs, 0, 0);
    hide EditDistance.Dist, Residual, BandAnswer;
  }

  // ---------------------------------------------------------------- sentinels that are too cheap

  /** The bound is neither given up nor dropped for strings of the same length, and row zero is one column. */
  lemma NarrowBand(costs: Costs, s: seq<Glyph>, t: seq<Glyph>, d: int)
    requires |s| == |t| > 0 && costs.sub >= 1 && costs.ins + costs.del >= 1 && Answers(d, s, t, costs, 0)
    ensures BandAnswer(d, s, t, Clamped(costs), 0, 1)
  {
    var c, m := Clamped(costs), |s|;
    assert Residual(m, m, costs, 0, 0) == 0 && Residual(m, m, c, 0, 0) == 0;
    assert c.sub * Min(m, m) > 0 by { Positive(c.sub, m); }
    hide Residual, BandAnswer;
    assert StopColumn(m, m, c, 0) == 1 by { assert 0 / (c.ins + c.del) == 0; }
  }

  lemma Positive(a: int, b: int)
    requires a > 0 && b > 0
    ensures a * b > 0
  {
  }

  /** The values of row 1 of a band that starts with one column. */
  lemma FirstFilling(s: seq<Glyph>, y: Glyph, c: Costs)
    requires s != []
    ensures Filling(FirstCells(c, 1), 0, 1, s, y, c, 0, 1, 2)
         == [c.ins, Min3(1 + c.ins, c.ins + c.del, SubCost(s[0], y, c))]
  {
    var above := FirstCells(c, 1);
    assert above == [0];
    assert Filling(above, 0, 1, s, y, c, 0, 1, 0) == [];
    assert Filling(above, 0, 1, s, y, c, 0, 1, 1) == [c.ins];
  }

  lemma Residuals(m: nat, c: Costs)
    ensures Residual(m, m, c, 1, 1) == 0 && Residual(m, m, c, 2, 2) == 0
    ensures Residual(m, m, c, 0, 1) == c.del && Residual(m, m, c, 1, 2) == c.del
  {
    TimesIsProduct(1, c.del);
  }

  /** In row 1 only the second column stays in the band. */
  lemma FirstSlide(v: int, m: nat, c: Costs)
    requires m > 0 && v <= 0 && c.ins + c.del > 0
    ensures Slid([c.ins, v], m, m, c, 0, 1, 0) == Row([1, v], 1, 2)
  {
    var cells := [c.ins, v];
    Residuals(m, c);
    hide Residual;
    assert StopOf(cells, m, m, c, 0, 1, 2) == 2;
    assert StartOf(cells, m, m, c, 0, 1, 1, 2) == 1 && StartOf(cells, m, m, c, 0, 1, 0, 2) == 1;
    assert Sentinel(1, 0) + cells[1..] == [1, v];
  }

  lemma AfterOne(s: seq<Glyph>, t: seq<Glyph>, c: Costs)
    requires |s| == |t| > 0 && c.ins + c.del > 0
    requires Min3(1 + c.ins, c.ins + c.del, SubCost(s[0], t[0], c)) <= 0
    ensures After(s, t, c, 0, 1, 1) == Row([1, Min3(1 + c.ins, c.ins + c.del, SubCost(s[0], t[0], c))], 1, 2)
  {
    FirstFilling(s, t[0], c);
    FirstSlide(Min3(1 + c.ins, c.ins + c.del, SubCost(s[0], t[0], c)), |s|, c);
    hide Filling, Slid, Min3, SubCost;
    assert After(s, t, c, 0, 1, 0) == Row(FirstCells(c, 1), 0, 1);
  }

  /** A negative insertion cost lets the sentinel right of the band into the answer. */
  lemma SentinelInserted(costs: Costs, d: int)
    requires costs.ins < 0 && costs.sub >= 1 && costs.ins + costs.del >= 1 && Answers(d, [A], [B], costs, 0)
    ensures !IsRight(d, [A], [B], costs, 0)
  {
    var s: seq<Glyph>, t: seq<Glyph>, c := [A], [B], Clamped(costs);
    NarrowBand(costs, s, t, d);
    AfterOne(s, t, c);
    hide After, Answers;
    assert d <= 0;
    assert EditDistance.Dist(s, t, costs, 1, 0) == costs.del && EditDistance.Dist(s, t, costs, 0, 1) == costs.ins;
  }

  lemma SecondFilling(s: seq<Glyph>, y: Glyph, c: Costs)
    requires |s| == 2 && s[0] == s[1] == y && c.del < 0 && c.ins + c.del > 0
    ensures Filling([1, 0], 1, 2, s, y, c, 0, 2, 3) == [1, 1 + c.del, 1 + 2 * c.del]
  {
    var above := [1, 0];
    assert Filling(above, 1, 2, s, y, c, 0, 2, 0) == [];
    assert Filling(above, 1, 2, s, y, c, 0, 2, 1) == [1];
    assert Filling(above, 1, 2, s, y, c, 0, 2, 2) == [1, 1 + c.del];
  }

  lemma SecondSlide(c: Costs)
    requires c.del < 0
    ensures Slid([1, 1 + c.del, 1 + 2 * c.del], 2, 2, c, 0, 2, 1) == Row([1, 1 + c.del, 1 + 2 * c.del], 1, 3)
  {
    var cells := [1, 1 + c.del, 1 + 2 * c.del];
    Residuals(2, c);
    hide Residual;
    assert StopOf(cells, 2, 2, c, 0, 2, 3) == 3;
    assert StartOf(cells, 2, 2, c, 0, 2, 1, 3) == 1;
    assert Sentinel(1, 0) + cells[1..] == cells;
  }

  /** A negative deletion cost lets the sentinel left of the band into the answer. */
  lemma SentinelDeleted(costs: Costs, d: int)
    requires costs.del < 0 && costs.sub >= 1 && costs.ins + costs.del >= 1 && Answers(d, [A, A], [A, A], costs, 0)
    ensures !IsRight(d, [A, A], [A, A], costs, 0)
  {
    var s: seq<Glyph>, c := [A, A], Clamped(costs);
    NarrowBand(costs, s, s, d);
    AfterOne(s, s, c);
    SecondFilling(s, A, c);
    SecondSlide(c);
    LengthsForce(s, s, costs, 2, 2);
    hide Filling, Slid, Answers, EditDistance.Dist;
    assert After(s, s, c, 0, 1, 1) == Row([1, 0], 1, 2);
    assert After(s, s, c, 0, 1, 2) == Row([1, 1 + c.del, 1 + 2 * c.del], 1, 3);
    assert d < 0;
  }

  // ---------------------------------------------------------------- the exact condition

  lemma {:induction false} OneByteGlyphs(mblen: MbLen, data: seq<byte>)
    requires forall b :: mblen(b) == 1
    ensures WellEncoded(mblen, data) && |Glyphs(mblen, data)| == |data|
    ensures forall k :: 0 <= k < |data| ==> Glyphs(mblen, data)[k] == [data[k]]
  {
    if data != [] {
      OneByteGlyphs(mblen, data[1..]);
      assert data[..1] == [data[0]];
    }
  }

  /** For costs that are not sound some strings and bound get a wrong answer; for sound costs Bounded states that
      none do. */
  method WrongUnlessSound(costs: Costs) returns (sData: seq<byte>, tData: seq<byte>, maxD: nat, r: Outcome)
    requires !Sound(costs)
    ensures r.Distance? && 1 <= |sData| <= 2 && 1 <= |tData| <= 2
    ensures !IsRight(r.d, seq(|sData|, i requires 0 <= i < |sData| => [sData[i]]),
                     seq(|tData|, i requires 0 <= i < |tData| => [tData[i]]), costs, maxD)
  {
    var gains := costs.sub < 0 || costs.ins + costs.del < 0;
    if gains && costs.ins >= 1 {
      sData, tData, maxD := [97], [98, 98], costs.ins - 1;
    } else if gains {
      sData, tData, maxD := [97, 97], [98], costs.del - 1;
    } else if costs.ins < 0 {
      sData, tData, maxD := [97], [98], 0;
    } else {
      sData, tData, maxD := [97, 97], [97, 97], 0;
    }
    var mblen: MbLen := b => 1;
    ghost var s: seq<Glyph> := seq(|sData|, i requires 0 <= i < |sData| => [sData[i]]);
    ghost var t: seq<Glyph> := seq(|tData|, i requires 0 <= i < |tData| => [tData[i]]);
    OneByteGlyphs(mblen, sData);
    OneByteGlyphs(mblen, tData);
    assert Glyphs(mblen, sData) == s && Glyphs(mblen, tData) == t;
    hide Glyphs, WellEncoded, Answers, IsRight, EditDistance.Distance;
    r := Bounded(mblen, sData, tData, costs, maxD);
    if gains && costs.ins >= 1 {
      assert s == [A] && t == [B, B];
      GivesUpGrowing(s, t, costs, r.d);
      WrongAbove(r.d, s, t, costs, maxD);
    } else if gains {
      assert s == [A, A] && t == [B];
      GivesUpShrinking(s, t, costs, r.d);
      WrongAbove(r.d, s, t, costs, maxD);
    } else if costs.ins < 0 {
      assert s == [A] && t == [B];
      SentinelInserted(costs, r.d);
    } else {
      assert s == [A, A] && t == [A, A];
      SentinelDeleted(costs, r.d);
    }
  }

  /** Such an answer: from "a" to "bc" with insertions at 1 and deletions at -5 the distance is within the bound 0,
      and the answer is 1. */
  method NegativeCostFails() returns (r: Outcome)
    ensures r == Distance(1) && EditDistance.Distance([[97]], [[98], [99]], Costs(1, -5, 1)) <= 0
  {
    var mblen: MbLen := b => 1;
    OneByteGlyphs(mblen, [97]);
    OneByteGlyphs(mblen, [98, 99]);
    assert Glyphs(mblen, [97]) == [[97]] && Glyphs(mblen, [98, 99]) == [[98], [99]];
    hide Glyphs, WellEncoded, Answers, EditDistance.Distance;
    r := Bounded(mblen, [97], [98, 99], Costs(1, -5, 1), 0);
    GivesUpGrowing([[97]], [[98], [99]], Costs(1, -5, 1), r.d);
  }
}
