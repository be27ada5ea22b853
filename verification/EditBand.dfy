/** The moving band of matrix columns that can still lead to a distance within a bound. */
module EditBand {
  import opened EditDistance

  /** A stored value is exact where the bound can still be met, and stays hopeless elsewhere. */
  ghost predicate Tracks<T>(s: seq<T>, t: seq<T>, c: Costs, bound: int, i: nat, j: nat, v: int)
    requires i <= |s| && j <= |t|
  {
    StandsFor(v, Dist(s, t, c, i, j), Residual(|s|, |t|, c, i, j), bound)
  }

  /** Row j is tracked inside [start, stop) and hopeless outside. */
  ghost predicate Band<T>(row: seq<int>, s: seq<T>, t: seq<T>, c: Costs, bound: int, j: nat, start: nat, stop: nat)
    requires |row| == |s| + 1 && j <= |t| && stop <= |s| + 1
  {
    && TracksAll(row, s, t, c, bound, j, start, stop)
    && (forall i: nat :: i <= |s| && (i < start || stop <= i) ==> Forecast(s, t, c, i, j) > bound)
  }

  /** Row j is stored in full. */
  ghost predicate Full<T>(row: seq<int>, s: seq<T>, t: seq<T>, c: Costs, j: nat)
    requires |row| == |s| + 1 && j <= |t|
  {
    forall i: nat :: i <= |s| ==> row[i] == Dist(s, t, c, i, j)
  }

  /** What a row holds: everything when there is no bound, the band otherwise. */
  ghost predicate RowState<T>(row: seq<int>, s: seq<T>, t: seq<T>, c: Costs, bound: int, j: nat, start: nat, stop: nat)
    requires |row| == |s| + 1 && j <= |t| && stop <= |s| + 1
  {
    if bound < 0 then start == 0 && stop == |s| + 1 && Full(row, s, t, c, j)
    else Nonnegative(c) ==> Band(row, s, t, c, bound, j, start, stop)
  }

  /** curr[i] is the cheapest way into cell (i, j) from its three stored neighbours. */
  ghost predicate Filled<T>(prev: seq<int>, curr: seq<int>, s: seq<T>, y: T, c: Costs, i: nat)
    requires |prev| == |curr| == |s| + 1 && 1 <= i <= |s|
  {
    curr[i] == Min3(prev[i] + c.ins, curr[i - 1] + c.del, prev[i - 1] + SubCost(s[i - 1], y, c))
  }

  lemma {:induction false} SentinelTracks<T>(s: seq<T>, t: seq<T>, c: Costs, bound: int, i: nat, j: nat)
    requires i <= |s| && j <= |t| && Nonnegative(c) && Forecast(s, t, c, i, j) > bound
    ensures Tracks(s, t, c, bound, i, j, bound + 1)
  {
    ResidualSteps(|s|, |t|, c, i, j);
  }

  /** v stands for the value d of a cell with residual r. */
  ghost predicate StandsFor(v: int, d: int, r: int, bound: int) {
    if d + r <= bound then v == d else v + r > bound
  }

  lemma StepStands(v: int, d: int, r: int, cost: int, next: int, bound: int)
    requires StandsFor(v, d, r, bound) && r <= cost + next
    ensures d + cost + next <= bound ==> v + cost == d + cost
    ensures d + cost + next > bound ==> v + cost + next > bound
  {
  }

  /** Tracked neighbours give a tracked cell. */
  lemma {:induction false} CellTracks<T>(s: seq<T>, t: seq<T>, c: Costs, bound: int, i: nat, j: nat,
                                         up: int, left: int, diagonal: int)
    requires 0 < i <= |s| && 0 < j <= |t| && Nonnegative(c)
    requires Tracks(s, t, c, bound, i, j - 1, up)
    requires Tracks(s, t, c, bound, i - 1, j, left)
    requires Tracks(s, t, c, bound, i - 1, j - 1, diagonal)
    ensures Tracks(s, t, c, bound, i, j, Min3(up + c.ins, left + c.del, diagonal + SubCost(s[i - 1], t[j - 1], c)))
  {
    var m, n, r := |s|, |t|, Residual(|s|, |t|, c, i, j);
    ResidualSteps(m, n, c, i, j - 1);
    ResidualSteps(m, n, c, i - 1, j);
    ResidualSteps(m, n, c, i - 1, j - 1);
    StepStands(up, Dist(s, t, c, i, j - 1), Residual(m, n, c, i, j - 1), c.ins, r, bound);
    StepStands(left, Dist(s, t, c, i - 1, j), Residual(m, n, c, i - 1, j), c.del, r, bound);
    StepStands(diagonal, Dist(s, t, c, i - 1, j - 1), Residual(m, n, c, i - 1, j - 1),
               SubCost(s[i - 1], t[j - 1], c), r, bound);
  }

  ghost predicate TracksAll<T>(row: seq<int>, s: seq<T>, t: seq<T>, c: Costs, bound: int, j: nat, lo: nat, hi: nat)
    requires |row| == |s| + 1 && j <= |t| && hi <= |s| + 1
  {
    forall i: nat :: lo <= i < hi ==> Tracks(s, t, c, bound, i, j, row[i])
  }

  ghost predicate FilledAll<T>(prev: seq<int>, curr: seq<int>, s: seq<T>, y: T, c: Costs, lo: nat, hi: nat)
    requires |prev| == |curr| == |s| + 1 && 1 <= lo && hi <= |s| + 1
  {
    forall i: nat :: lo <= i < hi ==> Filled(prev, curr, s, y, c, i)
  }

  /** Values tracked in the row above and at the left end give tracked values all along the row. */
  lemma {:induction false} RowTracks<T>(prev: seq<int>, curr: seq<int>, s: seq<T>, t: seq<T>, c: Costs, bound: int,
                                        j: nat, y: T, lo: nat, hi: nat, i: nat)
    requires |prev| == |curr| == |s| + 1 && 0 < j <= |t| && y == t[j - 1] && Nonnegative(c) && lo <= i < hi <= |s| + 1
    requires TracksAll(prev, s, t, c, bound, j - 1, lo, hi)
    requires Tracks(s, t, c, bound, lo, j, curr[lo])
    requires FilledAll(prev, curr, s, y, c, lo + 1, hi)
    ensures Tracks(s, t, c, bound, i, j, curr[i])
    decreases i
  {
    if lo < i {
      RowTracks(prev, curr, s, t, c, bound, j, y, lo, hi, i - 1);
      assert Filled(prev, curr, s, y, c, i);
      CellTracks(s, t, c, bound, i, j, prev[i], curr[i - 1], prev[i - 1]);
    }
  }

  /** The band moves down one row and one column to the right. */
  lemma {:induction false} HopelessBelow<T>(s: seq<T>, t: seq<T>, c: Costs, bound: int, j: nat, start: nat, stop: nat,
                                            i: nat)
    requires j < |t| && Nonnegative(c) && i <= |s|
    requires forall k: nat :: k <= |s| && (k < start || stop <= k) ==> Forecast(s, t, c, k, j) > bound
    requires i < start || stop < i
    ensures Forecast(s, t, c, i, j + 1) > bound
  {
    ForecastRises(s, t, c, i, j + 1);
  }

  lemma {:induction false} NextBand<T>(prev: seq<int>, curr: seq<int>, s: seq<T>, t: seq<T>, c: Costs, bound: int,
                                       j: nat, y: T, start: nat, oldStop: nat, stop: nat)
    requires |prev| == |curr| == |s| + 1 && 0 < j <= |t| && y == t[j - 1] && Nonnegative(c)
    requires start < oldStop <= stop <= |s| + 1
    requires stop == if oldStop <= |s| then oldStop + 1 else oldStop
    requires Band(prev, s, t, c, bound, j - 1, start, oldStop)
    requires oldStop <= |s| ==> prev[oldStop] == bound + 1
    requires start > 0 ==> prev[start - 1] == bound + 1 && curr[start - 1] == bound + 1
    requires start == 0 ==> curr[0] == Dist(s, t, c, 0, j)
    requires FilledAll(prev, curr, s, y, c, if start == 0 then 1 else start, stop)
    ensures Band(curr, s, t, c, bound, j, start, stop)
  {
    forall i: nat | i <= |s| && (i < start || stop <= i) ensures Forecast(s, t, c, i, j) > bound {
      HopelessBelow(s, t, c, bound, j - 1, start, oldStop, i);
    }
    var lo := if start == 0 then 0 else start - 1;
    if start > 0 {
      SentinelTracks(s, t, c, bound, lo, j - 1);
      SentinelTracks(s, t, c, bound, lo, j);
    }
    if oldStop <= |s| {
      SentinelTracks(s, t, c, bound, oldStop, j - 1);
    }
    forall i: nat | lo <= i < stop ensures Tracks(s, t, c, bound, i, j, curr[i]) {
      RowTracks(prev, curr, s, t, c, bound, j, y, lo, stop, i);
    }
  }

  lemma {:induction false} NextFull<T>(prev: seq<int>, curr: seq<int>, s: seq<T>, t: seq<T>, c: Costs, j: nat, y: T,
                                       hi: nat)
    requires |prev| == |curr| == |s| + 1 && 0 < j <= |t| && y == t[j - 1] && 1 <= hi <= |s| + 1
    requires Full(prev, s, t, c, j - 1) && curr[0] == Dist(s, t, c, 0, j)
    requires FilledAll(prev, curr, s, y, c, 1, hi)
    ensures forall i: nat :: i < hi ==> curr[i] == Dist(s, t, c, i, j)
    decreases hi
  {
    if hi > 1 {
      NextFull(prev, curr, s, t, c, j, y, hi - 1);
      assert Filled(prev, curr, s, y, c, hi - 1);
    }
  }

  /** A surviving band in the last row reaches the last column, which then holds the distance. */
  lemma {:induction false} LastBand<T>(row: seq<int>, s: seq<T>, t: seq<T>, c: Costs, bound: int, start: nat, stop: nat)
    requires |row| == |s| + 1 && Nonnegative(c) && start < stop <= |s| + 1
    requires Band(row, s, t, c, bound, |t|, start, stop)
    requires row[start] + Residual(|s|, |t|, c, start, |t|) <= bound
    ensures row[|s|] == Distance(s, t, c) <= bound
  {
    var m := |s|;
    assert Tracks(s, t, c, bound, start, |t|, row[start]);
    DeleteRest(s, t, c, start);
    assert Residual(m, |t|, c, m, |t|) == 0;
    assert Forecast(s, t, c, m, |t|) <= bound;
    assert Tracks(s, t, c, bound, m, |t|, row[m]);
  }

  lemma {:induction false} DeleteRest<T>(s: seq<T>, t: seq<T>, c: Costs, i: nat)
    requires i <= |s|
    ensures Distance(s, t, c) <= Dist(s, t, c, i, |t|) + Residual(|s|, |t|, c, i, |t|)
    decreases |s| - i
  {
    if i < |s| {
      DeleteRest(s, t, c, i + 1);
      LastStep(s, t, c, i + 1, |t|);
      assert Times(|s| - i, c.del) == Times(|s| - i - 1, c.del) + c.del;
    }
  }

  /** An empty band in any row puts the distance above the bound. */
  lemma {:induction false} EmptyBand<T>(row: seq<int>, s: seq<T>, t: seq<T>, c: Costs, bound: int, j: nat,
                                        start: nat, stop: nat)
    requires |row| == |s| + 1 && Nonnegative(c) && j <= |t| && stop <= |s| + 1 && stop <= start
    requires Band(row, s, t, c, bound, j, start, stop)
    ensures Distance(s, t, c) > bound
  {
    HopelessRowStays(s, t, c, bound, j, |t|);
    assert Forecast(s, t, c, |s|, |t|) > bound;
  }

  /** The residual as the sliding loops compute it, from the column where the remainders have equal length. */
  lemma ResidualIsProduct(m: nat, n: nat, c: Costs, i: int, j: int)
    ensures var net := i - (j - (n - m));
            Residual(m, n, c, i, j) == if net > 0 then net * c.ins else -net * c.del
  {
    var net := (n - j) - (m - i);
    if net > 0 { TimesIsProduct(net, c.ins); } else { TimesIsProduct(-net, c.del); }
  }
}
