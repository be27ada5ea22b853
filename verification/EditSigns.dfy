/** Edit costs of any sign: what the lengths of the strings force on the distance. */
module EditSigns {
  import opened EditDistance

  /** The costs for which the bounded distance is right: none is negative; neither an insertion nor a deletion costs
      anything; or no replacement, nor a deletion with an insertion, gains anything and one of the two is free. */
  ghost predicate Sound(c: Costs) {
    || Nonnegative(c)
    || (c.ins <= 0 && c.del <= 0)
    || (c.sub >= 0 && c.ins + c.del >= 0 && Clamped(c).sub == 0)
  }

  /** The cost of a net number of equal edits. */
  function Net(k: int, cost: int): int { k * cost }

  lemma NetSteps(k: int, cost: int)
    ensures Net(k + 1, cost) == Net(k, cost) + cost && Net(k - 1, cost) == Net(k, cost) - cost && Net(0, cost) == 0
  {
  }

  /** If neither a replacement nor a deletion with an insertion gains anything, the distance is at least the cost of
      evening out the lengths. */
  lemma {:induction false} LengthsForce<T>(s: seq<T>, t: seq<T>, c: Costs, i: nat, j: nat)
    requires i <= |s| && j <= |t| && c.sub >= 0 && c.ins + c.del >= 0
    ensures Dist(s, t, c, i, j) >= Net(j - i, c.ins) && Dist(s, t, c, i, j) >= Net(i - j, c.del)
    decreases i + j
  {
    hide Net;
    NetSteps(j - i, c.ins);
    NetSteps(i - j, c.del);
    if i + j > 0 {
      var i', j', last := CheapestStep(s, t, c, i, j);
      LengthsForce(s, t, c, i', j');
      hide Dist;
    }
  }

  lemma LeastForced<T>(s: seq<T>, t: seq<T>, c: Costs)
    requires c.sub >= 0 && c.ins + c.del >= 0
    ensures Distance(s, t, c) >= Residual(|s|, |t|, c, 0, 0)
  {
    LengthsForce(s, t, c, |s|, |t|);
    var net := |t| - |s|;
    if net > 0 { TimesIsProduct(net, c.ins); } else { TimesIsProduct(-net, c.del); }
  }

  lemma {:induction false} TimesNegative(k: nat, cost: int)
    requires cost <= 0
    ensures Times(k, cost) <= 0
  {
    if k > 0 { TimesNegative(k - 1, cost); }
  }

  lemma {:induction false} DeleteAndInsert<T>(s: seq<T>, t: seq<T>, c: Costs, i: nat, j: nat)
    requires i <= |s| && j <= |t| && c.ins <= 0 && c.del <= 0
    ensures Dist(s, t, c, i, j) <= 0
    decreases i + j
  {
    LastStep(s, t, c, i, j);
    if i > 0 {
      DeleteAndInsert(s, t, c, i - 1, j);
    } else if j > 0 {
      DeleteAndInsert(s, t, c, i, j - 1);
    }
  }

  /** The bounds that the source computes are bounds, or too loose to be used, for all sound costs. */
  lemma SoundBounds<T>(s: seq<T>, t: seq<T>, costs: Costs, maxD: nat)
    requires Sound(costs)
    ensures var c, low := Clamped(costs), Residual(|s|, |t|, costs, 0, 0);
            var high := low + c.sub * Min(|s|, |t|);
            && (low > maxD ==> Distance(s, t, costs) > maxD)
            && (low <= maxD && maxD >= high ==> Distance(s, t, costs) <= maxD)
            && (low <= maxD && maxD < high ==> Nonnegative(costs))
  {
    var c, low, k := Clamped(costs), Residual(|s|, |t|, costs, 0, 0), Min(|s|, |t|);
    ClampKeepsDist(s, t, costs, |s|, |t|);
    if costs.ins <= 0 && costs.del <= 0 {
      NothingCosts(s, t, costs);
    } else {
      LeastForced(s, t, costs);
      TheoreticalMaximum(s, t, c);
      TimesIsProduct(k, c.sub);
    }
  }

  lemma NothingCosts<T>(s: seq<T>, t: seq<T>, costs: Costs)
    requires costs.ins <= 0 && costs.del <= 0
    ensures Distance(s, t, costs) <= 0 && Residual(|s|, |t|, costs, 0, 0) <= 0
    ensures Clamped(costs).sub * Min(|s|, |t|) <= 0
  {
    DeleteAndInsert(s, t, costs, |s|, |t|);
    var net := |t| - |s|;
    if net > 0 { TimesNegative(net, costs.ins); } else { TimesNegative(-net, costs.del); }
    TimesNegative(Min(|s|, |t|), Clamped(costs).sub);
    TimesIsProduct(Min(|s|, |t|), Clamped(costs).sub);
  }
}
