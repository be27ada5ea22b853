/** hdfs_fdw scheduling: the table of work per datanode and the choice of a node for one split. */
module Scheduler {
  type Oid = nat
  datatype Split = Split(filePath: string, objectSize: nat)
  type Work = map<Oid, seq<Split>>

  const MAX_ROUNDROBIN_AVAILABLE_DN_NUM := 256
  const MAX_UINT32 := 0xFFFF_FFFF

  /** A node's to-do list; a node without an entry has no work. */
  function ListOf(w: Work, o: Oid): seq<Split> { if o in w then w[o] else [] }

  function Load(w: Work, o: Oid): nat { |ListOf(w, o)| }

  ghost predicate SameLists(w: Work, w': Work) { forall o: Oid :: ListOf(w', o) == ListOf(w, o) }

  /** The split went to the end of one node's list, and no other list changed. */
  ghost predicate Added(w: Work, w': Work, node: Oid, split: Split) {
    forall o: Oid :: ListOf(w', o) == if o == node then ListOf(w, o) + [split] else ListOf(w, o)
  }

  /** The node is one of the candidates and none of them has less work. */
  ghost predicate LeastLoaded(w: Work, candidates: seq<Oid>, node: Oid) {
    node in candidates && forall o :: o in candidates ==> Load(w, node) <= Load(w, o)
  }

  /** The datanodes among the nodes. */
  function DataNodes(oids: seq<Oid>, isCoordinator: Oid -> bool): (d: seq<Oid>)
    ensures forall o :: o in d <==> o in oids && !isCoordinator(o)
  {
    if oids == [] then []
    else
      var rest, last := oids[..|oids| - 1], oids[|oids| - 1];
      assert oids == rest + [last];
      if isCoordinator(last) then DataNodes(rest, isCoordinator) else DataNodes(rest, isCoordinator) + [last]
  }

  /** How much work each node has. */
  type Loads = Oid -> nat

  function LoadsOf(w: Work): Loads { (o: Oid) => Load(w, o) }

  /** The locations that have this much work, in order. */
  function AtLoad(load: Loads, locations: seq<Oid>, n: nat): (least: seq<Oid>)
    ensures forall o :: o in least <==> o in locations && load(o) == n
  {
    if locations == [] then []
    else
      var rest, last := locations[..|locations| - 1], locations[|locations| - 1];
      assert locations == rest + [last];
      if load(last) == n then AtLoad(load, rest, n) + [last] else AtLoad(load, rest, n)
  }

  /** The node is the one that the random number picks from the least-loaded locations; for analyze the last of them. */
  ghost predicate PickedLocation(load: Loads, locations: seq<Oid>, isAnalyze: bool, random: nat, node: Oid) {
    && (forall o :: o in locations ==> load(node) <= load(o))
    && var least := AtLoad(load, locations, load(node));
       least != [] && node == if isAnalyze then least[|least| - 1] else least[random % |least|]
  }

  /** The nodes as they are gone round from a start. */
  function Rotated(dnOids: seq<Oid>, start: nat): seq<Oid>
    requires start <= |dnOids|
  {
    dnOids[start..] + dnOids[..start]
  }

  /** Where the round starts: at a random node, for analyze always at the first. */
  function RoundStart(dnOids: seq<Oid>, isAnalyze: bool, random: nat): (start: nat)
    requires dnOids != []
    ensures start < |dnOids|
  {
    if isAnalyze then 0 else random % |dnOids|
  }

  /** The node is the first datanode of the round with the least work. */
  ghost predicate FirstLeast(load: Loads, isCoordinator: Oid -> bool, round: seq<Oid>, node: Oid) {
    exists i :: 0 <= i < |round| && round[i] == node && FirstLeastAt(load, isCoordinator, round, i)
  }

  ghost predicate FirstLeastAt(load: Loads, isCoordinator: Oid -> bool, round: seq<Oid>, i: nat)
    requires i < |round|
  {
    && !isCoordinator(round[i])
    && forall j :: 0 <= j < |round| && !isCoordinator(round[j]) ==>
         load(round[i]) <= load(round[j]) && (j < i ==> load(round[i]) < load(round[j]))
  }

  /** The choices depend on nothing but how much work the nodes have. */
  lemma {:induction false} SameAtLoad(load: Loads, load': Loads, locations: seq<Oid>, n: nat)
    requires forall o :: load(o) == load'(o)
    ensures AtLoad(load, locations, n) == AtLoad(load', locations, n)
  {
    if locations != [] { SameAtLoad(load, load', locations[..|locations| - 1], n); }
  }

  lemma SameChoices(load: Loads, load': Loads, locations: seq<Oid>, isAnalyze: bool, random: nat,
                    isCoordinator: Oid -> bool, round: seq<Oid>, node: Oid)
    requires forall o :: load(o) == load'(o)
    ensures PickedLocation(load, locations, isAnalyze, random, node) ==>
              PickedLocation(load', locations, isAnalyze, random, node)
    ensures FirstLeast(load, isCoordinator, round, node) ==> FirstLeast(load', isCoordinator, round, node)
  {
    SameAtLoad(load, load', locations, load(node));
    hide AtLoad;
    if i :| 0 <= i < |round| && round[i] == node && FirstLeastAt(load, isCoordinator, round, i) {
      assert FirstLeastAt(load', isCoordinator, round, i);
    }
  }

  /** dnWork entries, by node. */
  class Table {
    var toDo: Work

    constructor ()
      ensures toDo == map[]
    {
      toDo := map[];
    }

    /** A hash search that enters the node, with an empty list if it is new. */
    method Enter(o: Oid) returns (found: bool)
      modifies this
      ensures found <==> o in old(toDo)
      ensures o in toDo && old(toDo).Keys <= toDo.Keys && SameLists(old(toDo), toDo)
    {
      found := o in toDo;
      if !found {
        toDo := toDo[o := []];
      }
    }

    method Append(o: Oid, split: Split)
      requires o in toDo
      modifies this
      ensures o in toDo && Added(old(toDo), toDo, o, split)
    {
      toDo := toDo[o := toDo[o] + [split]];
    }

    /** AssignLocalNode: a least-loaded node of the locations takes the split, a random one or for analyze the last. */
    method AssignLocalNode(locations: seq<Oid>, split: Split, isAnalyze: bool, random: nat) returns (node: Oid)
      requires 0 < |locations| <= MAX_ROUNDROBIN_AVAILABLE_DN_NUM
      requires forall o :: o in locations ==> Load(toDo, o) < MAX_UINT32
      modifies this
      ensures LeastLoaded(old(toDo), locations, node) && Added(old(toDo), toDo, node, split)
      ensures PickedLocation(LoadsOf(old(toDo)), locations, isAnalyze, random, node)
    {
      hide LeastOf, LeastLoaded, Added, PickedLocation;
      ghost var w := toDo;
      var minWl: nat := MAX_UINT32;
      var minWorkload: seq<Oid> := [];
      for k := 0 to |locations|
        invariant SameLists(w, toDo)
        invariant if k == 0 then minWl == MAX_UINT32 else LeastOf(w, locations[..k], minWl, minWorkload)
        invariant forall o :: o in minWorkload ==> o in toDo
      {
        var o := locations[k];
        assert o in locations;
        var _ := Enter(o);
        var taskLength := |toDo[o]|;
        assert taskLength == Load(w, o) by { assert ListOf(toDo, o) == ListOf(w, o); }
        assert locations[..k + 1] == locations[..k] + [o];
        LeastNext(w, locations[..k], minWl, minWorkload, o);
        if taskLength < minWl {
          minWorkload, minWl := [o], taskLength;
        } else if taskLength == minWl {
          minWorkload := minWorkload + [o];
        }
      }
      assert locations[..|locations|] == locations;
      var nextIdx := |minWorkload|;
      LeastPick(w, locations, minWl, minWorkload, isAnalyze, random);
      node := if isAnalyze then minWorkload[nextIdx - 1] else minWorkload[random % nextIdx];
      assert node in minWorkload;
      ghost var full := toDo;
      Append(node, split);
      AddedToSame(w, full, toDo, node, split);
    }

    /** AssignRemoteNode: the first least-loaded datanode from the start on takes the split; fails only if there is no
        datanode. */
    method AssignRemoteNode(dnOids: seq<Oid>, isCoordinator: Oid -> bool, split: Split, isAnalyze: bool, random: nat)
        returns (ok: bool, node: Oid)
      requires dnOids != []
      modifies this
      ensures ok <==> DataNodes(dnOids, isCoordinator) != []
      ensures ok ==>
                LeastLoaded(old(toDo), DataNodes(dnOids, isCoordinator), node) && Added(old(toDo), toDo, node, split)
      ensures ok ==> FirstLeast(LoadsOf(old(toDo)), isCoordinator,
                                Rotated(dnOids, RoundStart(dnOids, isAnalyze, random)), node)
      ensures !ok ==> SameLists(old(toDo), toDo)
    {
      hide LeastLoaded, Added, BestYet, FirstLeast;
      ghost var w := toDo;
      var totalDnNum := |dnOids|;
      var dnIdx := if isAnalyze then 0 else random % totalDnNum;
      ghost var round := dnOids[dnIdx..] + dnOids[..dnIdx];
      ghost var start := dnIdx;
      var nodeNum := totalDnNum;
      var taskLength: nat, recordDn: Oid := 0, 0;
      NothingYet(w, isCoordinator, recordDn);
      while nodeNum > 0
        invariant 0 <= nodeNum <= totalDnNum && 0 <= dnIdx < totalDnNum
        invariant nodeNum > 0 ==> dnIdx == Wrap(start + totalDnNum - nodeNum, totalDnNum)
        invariant SameLists(w, toDo) && (taskLength > 0 ==> recordDn in toDo)
        invariant BestYet(w, isCoordinator, round[..totalDnNum - nodeNum], taskLength, recordDn)
      {
        ghost var k := totalDnNum - nodeNum;
        nodeNum := nodeNum - 1;
        var nodeOid := dnOids[dnIdx];
        assert round[k] == nodeOid && round[..k + 1] == round[..k] + [nodeOid];
        BestNext(w, isCoordinator, round[..k], taskLength, recordDn, nodeOid);
        if !isCoordinator(nodeOid) {
          var _ := Enter(nodeOid);
          assert ListOf(toDo, nodeOid) == ListOf(w, nodeOid);
          if |toDo[nodeOid]| == 0 {
            IdleIsLeast(w, dnOids, isCoordinator, nodeOid);
            IdleIsFirst(w, isCoordinator, round, k, taskLength, recordDn);
            ghost var same := toDo;
            Append(nodeOid, split);
            AddedToSame(w, same, toDo, nodeOid, split);
            return true, nodeOid;
          } else if taskLength == 0 || taskLength > |toDo[nodeOid]| {
            taskLength, recordDn := |toDo[nodeOid]|, nodeOid;
          }
        }
        dnIdx := dnIdx + 1;
        if dnIdx == totalDnNum {
          dnIdx := 0;
        }
      }
      assert round[..totalDnNum] == round;
      BestOfAll(w, isCoordinator, dnOids, round, taskLength, recordDn);
      if taskLength != 0 {
        ghost var same := toDo;
        Append(recordDn, split);
        AddedToSame(w, same, toDo, recordDn, split);
        return true, recordDn;
      }
      return false, 0;
    }
  }

  function Wrap(i: nat, n: nat): int { if i < n then i else i - n }

  /** All datanodes visited have work, and the recorded one the least, before the others; there is none while the length
      is zero. */
  ghost predicate BestYet(w: Work, isCoordinator: Oid -> bool, visited: seq<Oid>, taskLength: nat, recordDn: Oid) {
    && (taskLength > 0 ==> Load(w, recordDn) == taskLength && FirstLeast(LoadsOf(w), isCoordinator, visited, recordDn))
    && (forall o :: o in visited && !isCoordinator(o) ==> 0 < taskLength <= Load(w, o))
  }

  lemma IdleIsFirst(w: Work, isCoordinator: Oid -> bool, round: seq<Oid>, k: nat, taskLength: nat, recordDn: Oid)
    requires k < |round| && BestYet(w, isCoordinator, round[..k], taskLength, recordDn)
    requires !isCoordinator(round[k]) && Load(w, round[k]) == 0
    ensures FirstLeast(LoadsOf(w), isCoordinator, round, round[k])
  {
    hide Load;
    forall j | 0 <= j < k && !isCoordinator(round[j]) ensures Load(w, round[j]) > 0 {
      assert round[..k][j] == round[j] && round[j] in round[..k];
    }
    assert FirstLeastAt(LoadsOf(w), isCoordinator, round, k);
  }

  lemma NothingYet(w: Work, isCoordinator: Oid -> bool, recordDn: Oid)
    ensures BestYet(w, isCoordinator, [], 0, recordDn)
  {
  }

  lemma BestNext(w: Work, isCoordinator: Oid -> bool, visited: seq<Oid>, taskLength: nat, recordDn: Oid, o: Oid)
    requires BestYet(w, isCoordinator, visited, taskLength, recordDn)
    ensures isCoordinator(o) ==> BestYet(w, isCoordinator, visited + [o], taskLength, recordDn)
    ensures !isCoordinator(o) && Load(w, o) > 0 ==>
              if taskLength == 0 || taskLength > Load(w, o) then BestYet(w, isCoordinator, visited + [o], Load(w, o), o)
              else BestYet(w, isCoordinator, visited + [o], taskLength, recordDn)
  {
    hide Load, FirstLeast;
    assert o in visited + [o];
    if taskLength > 0 && (isCoordinator(o) || taskLength <= Load(w, o)) {
      StillFirst(LoadsOf(w), isCoordinator, visited, recordDn, o);
    }
    if !isCoordinator(o) && Load(w, o) > 0 && (taskLength == 0 || taskLength > Load(w, o)) {
      NowFirst(LoadsOf(w), isCoordinator, visited, o);
    }
  }

  lemma StillFirst(load: Loads, isCoordinator: Oid -> bool, visited: seq<Oid>, node: Oid, o: Oid)
    requires FirstLeast(load, isCoordinator, visited, node) && (isCoordinator(o) || load(node) <= load(o))
    ensures FirstLeast(load, isCoordinator, visited + [o], node)
  {
    var i :| 0 <= i < |visited| && visited[i] == node && FirstLeastAt(load, isCoordinator, visited, i);
    assert (visited + [o])[i] == node && FirstLeastAt(load, isCoordinator, visited + [o], i);
  }

  lemma NowFirst(load: Loads, isCoordinator: Oid -> bool, visited: seq<Oid>, o: Oid)
    requires !isCoordinator(o) && forall v :: v in visited && !isCoordinator(v) ==> load(o) < load(v)
    ensures FirstLeast(load, isCoordinator, visited + [o], o)
  {
    var all := visited + [o];
    assert forall j :: 0 <= j < |visited| ==> all[j] in visited;
    assert all[|visited|] == o && FirstLeastAt(load, isCoordinator, all, |visited|);
  }

  lemma IdleIsLeast(w: Work, dnOids: seq<Oid>, isCoordinator: Oid -> bool, o: Oid)
    requires o in dnOids && !isCoordinator(o) && Load(w, o) == 0
    ensures DataNodes(dnOids, isCoordinator) != [] && LeastLoaded(w, DataNodes(dnOids, isCoordinator), o)
  {
  }

  lemma BestOfAll(w: Work, isCoordinator: Oid -> bool, dnOids: seq<Oid>, round: seq<Oid>, taskLength: nat,
                  recordDn: Oid)
    requires BestYet(w, isCoordinator, round, taskLength, recordDn) && forall o :: o in round <==> o in dnOids
    ensures taskLength > 0 <==> DataNodes(dnOids, isCoordinator) != []
    ensures taskLength > 0 ==> LeastLoaded(w, DataNodes(dnOids, isCoordinator), recordDn)
    ensures taskLength > 0 ==> FirstLeast(LoadsOf(w), isCoordinator, round, recordDn)
  {
    hide Load;
    var d := DataNodes(dnOids, isCoordinator);
    assert d != [] ==> d[0] in d;
  }

  lemma LeastNext(w: Work, locations: seq<Oid>, minWl: nat, kept: seq<Oid>, o: Oid)
    requires if locations == [] then minWl > Load(w, o) else LeastOf(w, locations, minWl, kept)
    ensures Load(w, o) < minWl ==> LeastOf(w, locations + [o], Load(w, o), [o])
    ensures Load(w, o) == minWl ==> LeastOf(w, locations + [o], minWl, kept + [o])
    ensures Load(w, o) > minWl ==> LeastOf(w, locations + [o], minWl, kept)
  {
    hide Load;
    var all := locations + [o];
    assert all[..|locations|] == locations && all[|locations|] == o;
    if Load(w, o) < minWl { NoneAtLoad(LoadsOf(w), locations, Load(w, o)); }
  }

  lemma {:induction false} NoneAtLoad(load: Loads, locations: seq<Oid>, n: nat)
    requires forall o :: o in locations ==> load(o) != n
    ensures AtLoad(load, locations, n) == []
  {
    if locations != [] { NoneAtLoad(load, locations[..|locations| - 1], n); }
  }

  lemma LeastPick(w: Work, locations: seq<Oid>, minWl: nat, kept: seq<Oid>, isAnalyze: bool, random: nat)
    requires locations != [] && LeastOf(w, locations, minWl, kept)
    ensures kept != [] && forall o :: o in kept ==> LeastLoaded(w, locations, o)
    ensures PickedLocation(LoadsOf(w), locations, isAnalyze, random,
                           if isAnalyze then kept[|kept| - 1] else kept[random % |kept|])
  {
    hide AtLoad;
    var node := if isAnalyze then kept[|kept| - 1] else kept[random % |kept|];
    assert node in kept;
  }

  lemma AddedToSame(w: Work, same: Work, w': Work, node: Oid, split: Split)
    requires SameLists(w, same) && Added(same, w', node, split)
    ensures Added(w, w', node, split)
  {
    hide ListOf;
    forall o: Oid ensures ListOf(w', o) == if o == node then ListOf(w, o) + [split] else ListOf(w, o) {
      assert ListOf(same, o) == ListOf(w, o);
    }
  }

  /** The nodes kept are the least-loaded of the locations, in order. */
  ghost predicate LeastOf(w: Work, locations: seq<Oid>, minWl: nat, kept: seq<Oid>) {
    && kept != [] && kept == AtLoad(LoadsOf(w), locations, minWl)
    && (forall o :: o in locations ==> minWl <= Load(w, o))
  }
}
