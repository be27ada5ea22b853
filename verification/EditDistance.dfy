/** Weighted edit distance: what a script of edits costs, and the matrix of least costs. */
module EditDistance {

  datatype Costs = Costs(ins: int, del: int, sub: int)

  /** One edit of a script read from left to right. A replacement changes its character. */
  datatype Edit<T> = Keep(c: T) | Insert(c: T) | Delete(c: T) | Replace(from: T, to: T)

  function Source<T>(e: seq<Edit<T>>): seq<T> {
    if e == [] then [] else
      Source(e[..|e| - 1]) +
      match e[|e| - 1] {
        case Keep(c) => [c]
        case Insert(_) => []
        case Delete(c) => [c]
        case Replace(from, _) => [from]
      }
  }

  function Target<T>(e: seq<Edit<T>>): seq<T> {
    if e == [] then [] else
      Target(e[..|e| - 1]) +
      match e[|e| - 1] {
        case Keep(c) => [c]
        case Insert(c) => [c]
        case Delete(_) => []
        case Replace(_, to) => [to]
      }
  }

  function EditCost<T>(e: Edit<T>, c: Costs): int {
    match e
    case Keep(_) => 0
    case Insert(_) => c.ins
    case Delete(_) => c.del
    case Replace(_, _) => c.sub
  }

  function ScriptCost<T>(e: seq<Edit<T>>, c: Costs): int {
    if e == [] then 0 else ScriptCost(e[..|e| - 1], c) + EditCost(e[|e| - 1], c)
  }

  ghost predicate Genuine<T>(e: seq<Edit<T>>) {
    forall k :: 0 <= k < |e| && e[k].Replace? ==> e[k].from != e[k].to
  }

  /** The script turns s into t. */
  ghost predicate Turns<T>(e: seq<Edit<T>>, s: seq<T>, t: seq<T>) {
    Genuine(e) && Source(e) == s && Target(e) == t
  }

  /** The cost of k equal edits. */
  function Times(k: nat, cost: int): int { if k == 0 then 0 else Times(k - 1, cost) + cost }

  lemma {:induction false} TimesIsProduct(k: nat, cost: int)
    ensures Times(k, cost) == k * cost
  {
    if k > 0 { TimesIsProduct(k - 1, cost); }
  }

  lemma {:induction false} TimesSign(k: nat, cost: nat)
    ensures 0 <= Times(k, cost)
  {
    if k > 0 { TimesSign(k - 1, cost); }
  }

  function Min(a: int, b: int): int { if a < b then a else b }

  function Min3(a: int, b: int, c: int): int { Min(Min(a, b), c) }

  /** Cost of putting y where x stands. */
  function SubCost<T(==)>(x: T, y: T, c: Costs): int { if x == y then 0 else c.sub }

  /** Cell (i, j) of the notional matrix: turning the first i characters of s into the first j of t. */
  function Dist<T(==)>(s: seq<T>, t: seq<T>, c: Costs, i: nat, j: nat): int
    requires i <= |s| && j <= |t|
    decreases i + j
  {
    if i == 0 && j == 0 then 0
    else if i == 0 then Dist(s, t, c, 0, j - 1) + c.ins
    else if j == 0 then Dist(s, t, c, i - 1, 0) + c.del
    else Min3(Dist(s, t, c, i, j - 1) + c.ins,
              Dist(s, t, c, i - 1, j) + c.del,
              Dist(s, t, c, i - 1, j - 1) + SubCost(s[i - 1], t[j - 1], c))
  }

  function Distance<T(==)>(s: seq<T>, t: seq<T>, c: Costs): int {
    Dist(s, t, c, |s|, |t|)
  }

  // ---------------------------------------------------------------- least cost of a script

  lemma PrefixSnoc<T>(a: seq<T>, x: T, s: seq<T>, i: nat)
    requires i <= |s| && s[..i] == a + [x]
    ensures 0 < i && a == s[..i - 1] && x == s[i - 1]
  {
    assert |s[..i]| == |a| + 1;
    assert s[..i][i - 1] == x && s[..i][..i - 1] == a;
  }

  lemma {:induction false} NoScriptIsCheaper<T>(e: seq<Edit<T>>, s: seq<T>, t: seq<T>, c: Costs, i: nat, j: nat)
    requires i <= |s| && j <= |t| && Turns(e, s[..i], t[..j])
    ensures Dist(s, t, c, i, j) <= ScriptCost(e, c)
  {
    if e != [] {
      var p, last := e[..|e| - 1], e[|e| - 1];
      if !last.Insert? {
        PrefixSnoc(Source(p), if last.Replace? then last.from else last.c, s, i);
      } else {
        assert Source(p) + [] == s[..i];
      }
      if !last.Delete? {
        PrefixSnoc(Target(p), if last.Replace? then last.to else last.c, t, j);
      } else {
        assert Target(p) + [] == t[..j];
      }
      var i', j' := if last.Insert? then i else i - 1, if last.Delete? then j else j - 1;
      NoScriptIsCheaper(p, s, t, c, i', j');
      LastStep(s, t, c, i, j);
    }
  }

  /** Each way to reach a cell from a neighbour bounds the cell. */
  lemma {:induction false} LastStep<T>(s: seq<T>, t: seq<T>, c: Costs, i: nat, j: nat)
    requires i <= |s| && j <= |t|
    ensures 0 < i ==> Dist(s, t, c, i, j) <= Dist(s, t, c, i - 1, j) + c.del
    ensures 0 < j ==> Dist(s, t, c, i, j) <= Dist(s, t, c, i, j - 1) + c.ins
    ensures 0 < i && 0 < j ==>
              Dist(s, t, c, i, j) <= Dist(s, t, c, i - 1, j - 1) + SubCost(s[i - 1], t[j - 1], c)
  {
  }

  lemma Append<T>(e: seq<Edit<T>>, last: Edit<T>, c: Costs)
    ensures ScriptCost(e + [last], c) == ScriptCost(e, c) + EditCost(last, c)
    ensures Source(e + [last]) ==
            Source(e) + (if last.Insert? then [] else if last.Replace? then [last.from] else [last.c])
    ensures Target(e + [last]) ==
            Target(e) + (if last.Delete? then [] else if last.Replace? then [last.to] else [last.c])
  {
    assert (e + [last])[..|e + [last]| - 1] == e;
  }

  /** Whether the last edit leads from cell (i', j') to cell (i, j). */
  ghost predicate LeadsTo<T>(last: Edit<T>, s: seq<T>, t: seq<T>, i': nat, j': nat, i: nat, j: nat) {
    && i' <= i <= |s| && j' <= j <= |t|
    && match last {
         case Keep(x) => i == i' + 1 && j == j' + 1 && x == s[i'] == t[j']
         case Insert(x) => i == i' && j == j' + 1 && x == t[j']
         case Delete(x) => i == i' + 1 && j == j' && x == s[i']
         case Replace(x, y) => i == i' + 1 && j == j' + 1 && x == s[i'] && y == t[j'] && x != y
       }
  }

  lemma {:induction false} Extend<T>(e: seq<Edit<T>>, last: Edit<T>, s: seq<T>, t: seq<T>, i': nat, j': nat, i: nat,
                                     j: nat)
    requires LeadsTo(last, s, t, i', j', i, j) && Turns(e, s[..i'], t[..j'])
    ensures Turns(e + [last], s[..i], t[..j])
  {
    Append(e, last, Costs(0, 0, 0));
  }

  ghost predicate Attains<T>(e: seq<Edit<T>>, s: seq<T>, t: seq<T>, c: Costs, i: nat, j: nat)
    requires i <= |s| && j <= |t|
  {
    Turns(e, s[..i], t[..j]) && ScriptCost(e, c) == Dist(s, t, c, i, j)
  }

  lemma {:induction false} SomeScriptAttains<T>(s: seq<T>, t: seq<T>, c: Costs, i: nat, j: nat)
    returns (e: seq<Edit<T>>)
    requires i <= |s| && j <= |t|
    ensures Attains(e, s, t, c, i, j)
    decreases i + j
  {
    if i == 0 && j == 0 {
      e := [];
    } else {
      var i', j', last := CheapestStep(s, t, c, i, j);
      e := SomeScriptAttains(s, t, c, i', j');
      Extend(e, last, s, t, i', j', i, j);
      Append(e, last, c);
      e := e + [last];
    }
  }

  lemma {:induction false} CheapestStep<T>(s: seq<T>, t: seq<T>, c: Costs, i: nat, j: nat)
    returns (i': nat, j': nat, last: Edit<T>)
    requires i <= |s| && j <= |t| && i + j > 0
    ensures LeadsTo(last, s, t, i', j', i, j)
    ensures Dist(s, t, c, i, j) == Dist(s, t, c, i', j') + EditCost(last, c)
  {
    var d := Dist(s, t, c, i, j);
    if j > 0 && d == Dist(s, t, c, i, j - 1) + c.ins {
      return i, j - 1, Insert(t[j - 1]);
    } else if i > 0 && d == Dist(s, t, c, i - 1, j) + c.del {
      return i - 1, j, Delete(s[i - 1]);
    } else {
      return i - 1, j - 1, if s[i - 1] == t[j - 1] then Keep(s[i - 1]) else Replace(s[i - 1], t[j - 1]);
    }
  }

  /** d is what the cheapest script from s to t costs. */
  ghost predicate IsLeastScriptCost<T(!new)>(d: int, s: seq<T>, t: seq<T>, c: Costs) {
    && (exists e: seq<Edit<T>> :: Turns(e, s, t) && ScriptCost(e, c) == d)
    && (forall e: seq<Edit<T>> :: Turns(e, s, t) ==> d <= ScriptCost(e, c))
  }

  /** The matrix computes the least script cost, for costs of any sign. */
  lemma {:induction false} DistanceIsLeast<T(!new)>(s: seq<T>, t: seq<T>, c: Costs)
    ensures IsLeastScriptCost(Distance(s, t, c), s, t, c)
  {
    assert s[..|s|] == s && t[..|t|] == t;
    var e := SomeScriptAttains(s, t, c, |s|, |t|);
    forall f: seq<Edit<T>> | Turns(f, s, t) ensures Distance(s, t, c) <= ScriptCost(f, c) {
      NoScriptIsCheaper(f, s, t, c, |s|, |t|);
    }
  }

  /** The first row holds only deletions, the first column only insertions. */
  lemma {:induction false} EdgeCosts<T>(s: seq<T>, t: seq<T>, c: Costs, i: nat, j: nat)
    requires i <= |s| && j <= |t|
    ensures Dist(s, t, c, i, 0) == Times(i, c.del)
    ensures Dist(s, t, c, 0, j) == Times(j, c.ins)
    decreases i + j
  {
    if i > 0 {
      EdgeCosts(s, t, c, i - 1, j);
    } else if j > 0 {
      EdgeCosts(s, t, c, 0, j - 1);
    }
  }

  // ---------------------------------------------------------------- shape of the matrix

  ghost predicate Nonnegative(c: Costs) { c.ins >= 0 && c.del >= 0 && c.sub >= 0 }

  /** A substitution never costs more than a deletion and an insertion. */
  function Clamped(c: Costs): Costs {
    if c.ins + c.del < c.sub then c.(sub := c.ins + c.del) else c
  }

  ghost predicate ClampKeepsCell<T>(s: seq<T>, t: seq<T>, c: Costs, i: nat, j: nat)
    requires i <= |s| && j <= |t|
  {
    Dist(s, t, Clamped(c), i, j) == Dist(s, t, c, i, j)
  }

  /** Clamping the substitution cost does not change the matrix. */
  lemma {:induction false} ClampKeepsDist<T>(s: seq<T>, t: seq<T>, c: Costs, i: nat, j: nat)
    requires i <= |s| && j <= |t|
    ensures ClampKeepsCell(s, t, c, i, j)
    decreases i + j
  {
    if j > 0 { ClampKeepsDist(s, t, c, i, j - 1); }
    if i > 0 { ClampKeepsDist(s, t, c, i - 1, j); }
    if i > 0 && j > 0 {
      ClampKeepsDist(s, t, c, i - 1, j - 1);
      var left, up, diagonal := Dist(s, t, c, i, j - 1), Dist(s, t, c, i - 1, j), Dist(s, t, c, i - 1, j - 1);
      assert left <= diagonal + c.del by { LastStep(s, t, c, i, j - 1); }
      ClampStep(left, up, diagonal, c);
    }
  }

  lemma ClampStep(left: int, up: int, diagonal: int, c: Costs)
    requires left <= diagonal + c.del
    ensures Min3(left + c.ins, up + c.del, diagonal + c.sub) ==
              Min3(left + c.ins, up + c.del, diagonal + Clamped(c).sub)
  {
  }

  /** Dropping the last character of the target costs at most one deletion. */
  lemma {:induction false} DropTarget<T>(s: seq<T>, t: seq<T>, c: Costs, i: nat, j: nat)
    requires i <= |s| && j < |t| && Nonnegative(c)
    ensures Dist(s, t, c, i, j) <= Dist(s, t, c, i, j + 1) + c.del
    decreases i
  {
    if i == 0 {
    } else {
      DropTarget(s, t, c, i - 1, j);
      LastStep(s, t, c, i, j);
    }
  }

  /** Dropping the last character of the source costs at most one insertion. */
  lemma {:induction false} DropSource<T>(s: seq<T>, t: seq<T>, c: Costs, i: nat, j: nat)
    requires i < |s| && j <= |t| && Nonnegative(c)
    ensures Dist(s, t, c, i, j) <= Dist(s, t, c, i + 1, j) + c.ins
    decreases j
  {
    if j == 0 {
    } else {
      DropSource(s, t, c, i, j - 1);
      LastStep(s, t, c, i, j);
    }
  }

  /** Costs never fall along a diagonal. */
  lemma {:induction false} DiagonalRises<T>(s: seq<T>, t: seq<T>, c: Costs, i: nat, j: nat)
    requires i < |s| && j < |t| && Nonnegative(c)
    ensures Dist(s, t, c, i, j) <= Dist(s, t, c, i + 1, j + 1)
  {
    DropTarget(s, t, c, i, j);
    DropSource(s, t, c, i, j);
  }

  // ---------------------------------------------------------------- residual distance

  /** Least cost of bringing remainders of m - i and n - j characters to equal length. */
  function Residual(m: nat, n: nat, c: Costs, i: int, j: int): int {
    var net := (n - j) - (m - i);
    if net > 0 then Times(net, c.ins) else Times(-net, c.del)
  }

  /** Cost so far plus the least that can still follow. */
  function Forecast<T(==)>(s: seq<T>, t: seq<T>, c: Costs, i: nat, j: nat): int
    requires i <= |s| && j <= |t|
  {
    Dist(s, t, c, i, j) + Residual(|s|, |t|, c, i, j)
  }

  lemma ResidualSteps(m: nat, n: nat, c: Costs, i: int, j: int)
    requires Nonnegative(c)
    ensures 0 <= Residual(m, n, c, i, j)
    ensures Residual(m, n, c, i, j) <= c.ins + Residual(m, n, c, i, j + 1)
    ensures Residual(m, n, c, i, j) <= c.del + Residual(m, n, c, i + 1, j)
    ensures Residual(m, n, c, i, j) == Residual(m, n, c, i + 1, j + 1)
  {
    var net := (n - j) - (m - i);
    if net > 0 {
      TimesSign(net - 1, c.ins);
    } else {
      TimesSign(-net, c.del);
      TimesSign(1, c.ins);
      assert net < 0 ==> Times(-net, c.del) == Times(-net - 1, c.del) + c.del;
    }
  }

  /** Forecasts never fall from a cell to the one below it on the diagonal, or below it in column 0. */
  lemma {:induction false} ForecastRises<T>(s: seq<T>, t: seq<T>, c: Costs, i: nat, j: nat)
    requires i <= |s| && 0 < j <= |t| && Nonnegative(c)
    ensures Forecast(s, t, c, i, j) >= Forecast(s, t, c, if i == 0 then 0 else i - 1, j - 1)
  {
    if i == 0 {
      ResidualSteps(|s|, |t|, c, 0, j - 1);
    } else {
      ResidualSteps(|s|, |t|, c, i - 1, j - 1);
      DiagonalRises(s, t, c, i - 1, j - 1);
    }
  }

  /** If every cell of row j is forecast above the bound, so is every cell of every later row. */
  lemma {:induction false} HopelessRowStays<T>(s: seq<T>, t: seq<T>, c: Costs, bound: int, j: nat, k: nat)
    requires j <= k <= |t| && Nonnegative(c)
    requires forall i: nat :: i <= |s| ==> Forecast(s, t, c, i, j) > bound
    ensures forall i: nat :: i <= |s| ==> Forecast(s, t, c, i, k) > bound
    decreases k
  {
    if j < k {
      HopelessRowStays(s, t, c, bound, j, k - 1);
      forall i: nat | i <= |s| ensures Forecast(s, t, c, i, k) > bound {
        ForecastRises(s, t, c, i, k);
      }
    }
  }

  /** Going k cells down a diagonal costs at most k substitutions. */
  lemma {:induction false} DiagonalCost<T>(s: seq<T>, t: seq<T>, c: Costs, i: nat, j: nat, k: nat)
    requires i + k <= |s| && j + k <= |t| && c.sub >= 0
    ensures Dist(s, t, c, i + k, j + k) <= Dist(s, t, c, i, j) + Times(k, c.sub)
    decreases k
  {
    if k > 0 {
      DiagonalCost(s, t, c, i + 1, j + 1, k - 1);
      LastStep(s, t, c, i + 1, j + 1);
    }
  }

  /** The distance is at most the forced cost plus a substitution for each remaining pair. */
  lemma {:induction false} TheoreticalMaximum<T>(s: seq<T>, t: seq<T>, c: Costs)
    requires c.sub >= 0
    ensures Distance(s, t, c) <= Residual(|s|, |t|, c, 0, 0) + Times(Min(|s|, |t|), c.sub)
  {
    var k := Min(|s|, |t|);
    DiagonalCost(s, t, c, |s| - k, |t| - k, k);
    EdgeCosts(s, t, c, |s| - k, |t| - k);
  }

  /** Columns at or beyond the initial stop column cannot lead to a result within the bound. */
  lemma {:induction false} BeyondStopColumn<T>(s: seq<T>, t: seq<T>, c: Costs, bound: int, i: nat)
    requires i <= |s| && Nonnegative(c) && c.ins + c.del > 0
    requires Residual(|s|, |t|, c, 0, 0) <= bound
    requires var best := if |t| < |s| then |s| - |t| else 0;
             i >= best + (bound - Residual(|s|, |t|, c, 0, 0)) / (c.ins + c.del) + 1
    ensures Forecast(s, t, c, i, 0) > bound
  {
    var m, n := |s|, |t|;
    var low := Residual(m, n, c, 0, 0);
    var best := if n < m then m - n else 0;
    var k := i - best;
    EdgeCosts(s, t, c, i, 0);
    TimesIsProduct(i, c.del);
    TimesIsProduct(if n < m then k else n - m + k, c.ins);
    TimesIsProduct(best, c.del);
    TimesIsProduct(if n < m then 0 else n - m, c.ins);
    DivisionBound(bound - low, c.ins + c.del, k);
    SplitProducts(if n < m then 0 else n - m, best, k, c.ins, c.del);
  }

  lemma SplitProducts(a: nat, b: nat, k: nat, x: nat, y: nat)
    ensures (a + k) * x + (b + k) * y == a * x + b * y + k * (x + y)
  {
  }

  lemma DivisionBound(slack: nat, unit: nat, k: int)
    requires unit > 0 && k >= slack / unit + 1
    ensures k * unit > slack
  {
    var q := slack / unit;
    assert slack == q * unit + slack % unit;
    MulMonotone(q + 1, k, unit);
  }

  lemma MulMonotone(a: int, b: int, x: nat)
    requires a <= b
    ensures a * x <= b * x
  {
  }
}
