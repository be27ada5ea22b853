/** The banded computation as a function, for costs of any sign: which cells it stores and where the band lies. */
module BandRun {
  import opened EditDistance

  /** After some rows: the stored cells up to where the last row was filled and the band within them, or no band. */
  datatype Progress = Crossed | Row(cells: seq<int>, start: nat, stop: nat)

  predicate Proper(p: Progress, m: nat) {
    p.Row? ==> p.start < p.stop <= |p.cells| <= m + 1
  }

  /** The band grows one column to the right unless it is at the edge. */
  function Widened(stop: nat, m: nat): nat { if stop <= m then stop + 1 else stop }

  /** The cell after some cells of row j. */
  function NextCell<T(==)>(cells: seq<int>, above: seq<int>, start: nat, stop: nat, s: seq<T>, y: T, c: Costs,
                           bound: int, j: nat): int
    requires |cells| <= stop <= |above| && |cells| <= |s|
  {
    var i := |cells|;
    if i < start then bound + 1
    else if i == 0 then j * c.ins
    else
      Min3((if i < stop then above[i] else bound + 1) + c.ins, cells[i - 1] + c.del,
           above[i - 1] + SubCost(s[i - 1], y, c))
  }

  /** The first n cells of row j: beyond the bound left of the band and right of the row above. */
  function Filling<T(==)>(above: seq<int>, start: nat, stop: nat, s: seq<T>, y: T, c: Costs, bound: int, j: nat, n: nat)
      : (cells: seq<int>)
    requires stop <= |above| && n <= |s| + 1 && n <= stop + 1
    ensures |cells| == n
  {
    if n == 0 then []
    else
      var cells := Filling(above, start, stop, s, y, c, bound, j, n - 1);
      cells + [NextCell(cells, above, start, stop, s, y, c, bound, j)]
  }

  /** A column from which the bound may still be met, judging by the residual. */
  predicate Live(cells: seq<int>, m: nat, n: nat, c: Costs, bound: int, j: nat, i: nat)
    requires i < |cells|
  {
    cells[i] + Residual(m, n, c, i, j) <= bound
  }

  /** The stop column slides left to a live column. */
  function StopOf(cells: seq<int>, m: nat, n: nat, c: Costs, bound: int, j: nat, stop: nat): (r: nat)
    requires stop <= |cells|
    ensures r <= stop && (r > 0 ==> Live(cells, m, n, c, bound, j, r - 1))
  {
    if stop > 0 && !Live(cells, m, n, c, bound, j, stop - 1) then StopOf(cells, m, n, c, bound, j, stop - 1) else stop
  }

  /** The start column slides right to a live column. */
  function StartOf(cells: seq<int>, m: nat, n: nat, c: Costs, bound: int, j: nat, start: nat, stop: nat): (r: nat)
    requires stop <= |cells|
    ensures start <= r && (r < stop ==> Live(cells, m, n, c, bound, j, r))
    decreases stop - start
  {
    if start < stop && !Live(cells, m, n, c, bound, j, start) then StartOf(cells, m, n, c, bound, j, start + 1, stop)
    else start
  }

  lemma StartStep(cells: seq<int>, m: nat, n: nat, c: Costs, bound: int, j: nat, start: nat, stop: nat)
    requires stop <= |cells|
    ensures start >= stop || Live(cells, m, n, c, bound, j, start) ==>
              StartOf(cells, m, n, c, bound, j, start, stop) == start
    ensures start < stop && !Live(cells, m, n, c, bound, j, start) ==>
              StartOf(cells, m, n, c, bound, j, start, stop) == StartOf(cells, m, n, c, bound, j, start + 1, stop)
  {
  }

  function Sentinel(n: nat, bound: int): (cells: seq<int>)
    ensures |cells| == n && forall i :: 0 <= i < n ==> cells[i] == bound + 1
  {
    seq(n, i => bound + 1)
  }

  /** The band slides within a filled row. */
  function Slid(cells: seq<int>, m: nat, n: nat, c: Costs, bound: int, j: nat, start: nat): (p: Progress)
    requires |cells| <= m + 1
    ensures Proper(p, m)
  {
    var stop := StopOf(cells, m, n, c, bound, j, |cells|);
    var start' := StartOf(cells, m, n, c, bound, j, start, stop);
    if start' < stop then Row(Sentinel(start', bound) + cells[start'..], start', stop) else Crossed
  }

  function FirstCells(c: Costs, stop: nat): (cells: seq<int>)
    ensures |cells| == stop
  {
    seq(stop, i => i * c.del)
  }

  /** Where the computation stands after j characters of t. */
  function After<T(==)>(s: seq<T>, t: seq<T>, c: Costs, bound: int, stop0: nat, j: nat): (p: Progress)
    requires 1 <= stop0 <= |s| + 1 && j <= |t|
    ensures Proper(p, |s|)
  {
    if j == 0 then Row(FirstCells(c, stop0), 0, stop0)
    else
      match After(s, t, c, bound, stop0, j - 1)
      case Crossed => Crossed
      case Row(above, start, stop) =>
        var cells := Filling(above, start, stop, s, t[j - 1], c, bound, j, Widened(stop, |s|));
        Slid(cells, |s|, |t|, c, bound, j, start)
  }

  /** What the banded computation returns; a last cell that the last row did not fill may hold anything. */
  ghost predicate BandAnswer<T>(d: int, s: seq<T>, t: seq<T>, c: Costs, bound: int, stop0: nat)
    requires 1 <= stop0 <= |s| + 1
  {
    match After(s, t, c, bound, stop0, |t|)
    case Crossed => d == bound + 1
    case Row(cells, _, _) => |cells| == |s| + 1 ==> d == cells[|s|]
  }

  lemma {:induction false} StaysCrossed<T>(s: seq<T>, t: seq<T>, c: Costs, bound: int, stop0: nat, j: nat, k: nat)
    requires 1 <= stop0 <= |s| + 1 && j <= k <= |t| && After(s, t, c, bound, stop0, j).Crossed?
    ensures After(s, t, c, bound, stop0, k).Crossed?
    decreases k
  {
    hide Filling, Slid;
    if j < k { StaysCrossed(s, t, c, bound, stop0, j, k - 1); }
  }

  // ---------------------------------------------------------------- rows longer than the cells that count

  /** The row stores the cells, and the band is where the computation says. */
  ghost predicate Stored(row: seq<int>, p: Progress, start: nat, stop: nat) {
    p.Row? && p.start == start && p.stop == stop && p.cells <= row
  }

  lemma {:induction false} FillingPrefix<T>(above: seq<int>, row: seq<int>, start: nat, stop: nat, s: seq<T>, y: T,
                                            c: Costs, bound: int, j: nat, n: nat)
    requires stop <= |above| && above <= row && n <= |s| + 1 && n <= stop + 1
    ensures Filling(above, start, stop, s, y, c, bound, j, n) == Filling(row, start, stop, s, y, c, bound, j, n)
  {
    if n > 0 { FillingPrefix(above, row, start, stop, s, y, c, bound, j, n - 1); }
  }

  lemma {:induction false} StopPrefix(row: seq<int>, k: nat, m: nat, n: nat, c: Costs, bound: int, j: nat, stop: nat)
    requires stop <= k <= |row|
    ensures StopOf(row[..k], m, n, c, bound, j, stop) == StopOf(row, m, n, c, bound, j, stop)
  {
    if stop > 0 { StopPrefix(row, k, m, n, c, bound, j, stop - 1); }
  }

  lemma {:induction false} StartPrefix(row: seq<int>, k: nat, m: nat, n: nat, c: Costs, bound: int, j: nat,
                                       start: nat, stop: nat)
    requires stop <= k <= |row|
    ensures StartOf(row[..k], m, n, c, bound, j, start, stop) == StartOf(row, m, n, c, bound, j, start, stop)
    decreases stop - start
  {
    if start < stop { StartPrefix(row, k, m, n, c, bound, j, start + 1, stop); }
  }

  lemma SentinelsThenCells(row: seq<int>, next: seq<int>, k: nat, bound: int, start: nat)
    requires start <= k <= |row| == |next| && next[start..] == row[start..]
    requires forall i :: 0 <= i < start ==> next[i] == bound + 1
    ensures next[..k] == Sentinel(start, bound) + row[..k][start..]
  {
    forall i | start <= i < k ensures row[i] == next[i] {
      assert row[i] == row[start..][i - start] == next[start..][i - start] == next[i];
    }
  }

  /** A row whose cells left of the new band became sentinels stores what sliding leaves. */
  lemma SlidIsStored(row: seq<int>, next: seq<int>, k: nat, m: nat, n: nat, c: Costs, bound: int, j: nat,
                     start0: nat, start: nat, stop: nat)
    requires |row| == |next| == m + 1 && k <= m + 1 && stop == StopOf(row, m, n, c, bound, j, k)
    requires start == StartOf(row, m, n, c, bound, j, start0, stop)
    requires start < stop ==> next[start..] == row[start..] && forall i :: 0 <= i < start ==> next[i] == bound + 1
    ensures var p := Slid(row[..k], m, n, c, bound, j, start0);
            if start < stop then Stored(next, p, start, stop) else p.Crossed?
  {
    hide StopOf, StartOf;
    StopPrefix(row, k, m, n, c, bound, j, k);
    StartPrefix(row, k, m, n, c, bound, j, start0, stop);
    if start < stop {
      SentinelsThenCells(row, next, k, bound, start);
    }
  }

  lemma AfterNext<T>(row: seq<int>, s: seq<T>, t: seq<T>, c: Costs, bound: int, first: nat, j: nat, start: nat,
                     stop: nat)
    requires 1 <= first <= |s| + 1 && 0 < j <= |t| && |row| == |s| + 1
    requires Stored(row, After(s, t, c, bound, first, j - 1), start, stop)
    ensures start < stop <= |s| + 1
    ensures After(s, t, c, bound, first, j)
         == Slid(Filling(row, start, stop, s, t[j - 1], c, bound, j, Widened(stop, |s|)), |s|, |t|, c, bound, j, start)
  {
    hide Filling, Slid;
    var p := After(s, t, c, bound, first, j - 1);
    FillingPrefix(p.cells, row, start, stop, s, t[j - 1], c, bound, j, Widened(stop, |s|));
  }

  lemma AfterNone<T>(row: seq<int>, s: seq<T>, t: seq<T>, c: Costs, bound: int, first: nat)
    requires 1 <= first <= |s| + 1 && |row| == |s| + 1 && forall k: nat :: k < first ==> row[k] == Dist(s, t, c, k, 0)
    ensures Stored(row, After(s, t, c, bound, first, 0), 0, first)
  {
    forall k: nat | k < first ensures row[k] == k * c.del {
      EdgeCosts(s, t, c, k, 0);
      TimesIsProduct(k, c.del);
    }
    assert row[..first] == FirstCells(c, first);
  }
}
