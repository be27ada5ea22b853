/** hdfsFileScheduling: files go to a least-loaded node at one of their replicas, or else to a least-loaded datanode. */
module SchedulerHdfs {
  import opened Options
  import opened Scheduler
  import opened SchedulerLocation
  import opened SchedulerRun

  /** What the catalog and the file system say. */
  datatype Cluster = Cluster(dnOids: seq<Oid>, ipOf: Oid -> Ip, isCoordinator: Oid -> bool, replicas: Split -> seq<Ip>)

  /** GetDnIpAddrByOid */
  function InfosOf(oids: seq<Oid>, ipOf: Oid -> Ip): (infos: seq<DnInfo>)
    ensures forall d :: d in infos <==> d.oid in oids && d.ip == ipOf(d.oid)
  {
    if oids == [] then []
    else
      var rest, last := oids[..|oids| - 1], oids[|oids| - 1];
      assert oids == rest + [last];
      InfosOf(rest, ipOf) + [DnInfo(last, ipOf(last))]
  }

  /** The nodes whose address is one of the file's replicas'. */
  function AtReplicas(oids: seq<Oid>, ipOf: Oid -> Ip, ips: seq<Ip>): (local: seq<Oid>)
    ensures forall o :: o in local <==> o in oids && ipOf(o) in ips
  {
    if oids == [] then []
    else
      var rest, last := oids[..|oids| - 1], oids[|oids| - 1];
      assert oids == rest + [last];
      if ipOf(last) in ips then AtReplicas(rest, ipOf, ips) + [last] else AtReplicas(rest, ipOf, ips)
  }

  function Local(c: Cluster, f: Split): seq<Oid> { AtReplicas(c.dnOids, c.ipOf, c.replicas(f)) }

  /** How many of the first n files have a node at a replica. */
  function LocalCount(c: Cluster, files: seq<Split>, n: nat): nat
    requires n <= |files|
  {
    if n == 0 then 0 else LocalCount(c, files, n - 1) + if Local(c, files[n - 1]) != [] then 1 else 0
  }

  /** Replicas are looked up for the first 256 files, and further if at least 25 of those were local. */
  predicate Looks(c: Cluster, files: seq<Split>, i: nat)
    requires i <= |files|
  {
    i < MAX_ROUNDROBIN_AVAILABLE_DN_NUM
    || LocalCount(c, files, MAX_ROUNDROBIN_AVAILABLE_DN_NUM) >= MAX_ROUNDROBIN_AVAILABLE_DN_NUM / 10
  }

  /** The nodes that file i may go to. */
  function Candidates(c: Cluster, files: seq<Split>, i: nat): seq<Oid>
    requires i < |files|
  {
    if Looks(c, files, i) && Local(c, files[i]) != [] then Local(c, files[i]) else DataNodes(c.dnOids, c.isCoordinator)
  }

  /** The node chosen for file i has the least work of the candidates at that time. */
  ghost predicate GoodChoice(c: Cluster, files: seq<Split>, nodes: seq<Oid>, i: nat)
    requires i < |nodes| <= |files|
  {
    && nodes[i] in Candidates(c, files, i)
    && forall o :: o in Candidates(c, files, i) ==> multiset(nodes[..i])[nodes[i]] <= multiset(nodes[..i])[o]
  }

  /** How often each node was chosen. */
  ghost function Counts(nodes: seq<Oid>): Loads { (o: Oid) => multiset(nodes)[o] }

  /** The nodes at the file's replicas as the run finds them, none if replicas are no longer looked up. */
  function Found(c: Cluster, infos: seq<DnInfo>, files: seq<Split>, i: nat): seq<Oid>
    requires i < |files|
  {
    if Looks(c, files, i) then Located(infos, c.replicas(files[i])) else []
  }

  /** What else decides a choice: whether it is for analyze, and a random number for each file. */
  datatype Mode = Mode(isAnalyze: bool, random: nat -> nat)

  /** The node for file i is picked from the least-loaded at its replicas or, if there are none, is the first
      least-loaded datanode of the round. */
  ghost predicate ExactChoice(c: Cluster, infos: seq<DnInfo>, files: seq<Split>, mode: Mode, nodes: seq<Oid>, i: nat)
    requires i < |nodes| <= |files| && c.dnOids != []
  {
    var load, found, random := Counts(nodes[..i]), Found(c, infos, files, i), mode.random(i);
    if found != [] then PickedLocation(load, found, mode.isAnalyze, random, nodes[i])
    else FirstLeast(load, c.isCoordinator, Rotated(c.dnOids, RoundStart(c.dnOids, mode.isAnalyze, random)), nodes[i])
  }

  ghost predicate ExactRun(c: Cluster, infos: seq<DnInfo>, files: seq<Split>, mode: Mode, nodes: seq<Oid>) {
    && |nodes| <= |files| && c.dnOids != []
    && forall i: nat :: i < |nodes| ==> ExactChoice(c, infos, files, mode, nodes, i)
  }

  lemma ExactFirst(c: Cluster, infos: seq<DnInfo>, files: seq<Split>, mode: Mode)
    requires c.dnOids != []
    ensures ExactRun(c, infos, files, mode, [])
  {
  }

  lemma ExactNext(c: Cluster, infos: seq<DnInfo>, files: seq<Split>, mode: Mode, nodes: seq<Oid>, node: Oid)
    requires ExactRun(c, infos, files, mode, nodes) && |nodes| < |files|
    requires var next := nodes + [node]; ExactChoice(c, infos, files, mode, next, |nodes|)
    ensures ExactRun(c, infos, files, mode, nodes + [node])
  {
    hide Found, FirstLeast, PickedLocation;
    var next := nodes + [node];
    forall i: nat | i < |next| ensures ExactChoice(c, infos, files, mode, next, i) {
      if i < |nodes| {
        assert next[..i] == nodes[..i] && next[i] == nodes[i] && ExactChoice(c, infos, files, mode, nodes, i);
      }
    }
  }

  ghost predicate GoodRun(c: Cluster, files: seq<Split>, nodes: seq<Oid>) {
    |nodes| <= |files| && forall i: nat :: i < |nodes| ==> GoodChoice(c, files, nodes, i)
  }

  lemma GoodNext(c: Cluster, files: seq<Split>, nodes: seq<Oid>, w: Work, node: Oid)
    requires GoodRun(c, files, nodes) && |nodes| < |files| && Placed(w, files[..|nodes|], nodes)
    requires LeastLoaded(w, Candidates(c, files, |nodes|), node)
    ensures GoodRun(c, files, nodes + [node])
  {
    hide Candidates, LocalCount, Placed;
    var next := nodes + [node];
    forall i: nat | i < |next| ensures GoodChoice(c, files, next, i) {
      assert next[..i] == nodes[..i];
      if i < |nodes| {
        assert GoodChoice(c, files, nodes, i);
      } else {
        assert nodes[..i] == nodes;
        forall o | o in Candidates(c, files, i) ensures multiset(nodes)[node] <= multiset(nodes)[o] {
          PlacedLoad(w, files[..i], nodes, node);
          PlacedLoad(w, files[..i], nodes, o);
        }
      }
    }
  }

  /** The nodes found through the table are the nodes at the replicas. */
  lemma LocatedIsLocal(c: Cluster, infos: seq<DnInfo>, f: Split, local: seq<Oid>)
    requires multiset(infos) == multiset(InfosOf(c.dnOids, c.ipOf)) && AreLocated(local, infos, c.replicas(f))
    ensures forall o :: o in local <==> o in Local(c, f)
    ensures local == [] <==> Local(c, f) == []
  {
    forall o: Oid ensures o in local <==> o in Local(c, f) {
      SameInfos(infos, InfosOf(c.dnOids, c.ipOf));
      if o in Local(c, f) { assert DnInfo(o, c.ipOf(o)) in infos; }
    }
    assert local != [] ==> local[0] in local;
    assert Local(c, f) != [] ==> Local(c, f)[0] in Local(c, f);
  }

  lemma SameInfos(a: seq<DnInfo>, b: seq<DnInfo>)
    requires multiset(a) == multiset(b)
    ensures forall d :: d in a <==> d in b
  {
    assert forall d :: d in a <==> d in multiset(a);
    assert forall d :: d in b <==> d in multiset(b);
  }

  datatype Outcome = Done | TooManyLocations | NoDatanode

  /** The replica buffer is too small for file i. */
  ghost predicate Overflows(c: Cluster, infos: seq<DnInfo>, files: seq<Split>, i: nat)
    requires i < |files|
  {
    Looks(c, files, i) && CountIps(infos, c.replicas(files[i])) > MAX_ROUNDROBIN_AVAILABLE_DN_NUM
  }

  /** Where the run stands: the first |nodes| files are placed, each by a good choice. */
  ghost predicate AtFile(w: Work, c: Cluster, infos: seq<DnInfo>, files: seq<Split>, nodes: seq<Oid>) {
    && GoodRun(c, files, nodes) && Placed(w, files[..|nodes|], nodes)
    && forall i: nat :: i < |nodes| ==> !Overflows(c, infos, files, i)
  }

  lemma AtFirst(w: Work, c: Cluster, infos: seq<DnInfo>, files: seq<Split>)
    requires w == map[]
    ensures AtFile(w, c, infos, files, [])
  {
    NothingPlaced(w);
  }

  lemma LooksFirst(c: Cluster, files: seq<Split>)
    ensures Looks(c, files, 0) && LocalCount(c, files, 0) == 0
  {
  }

  lemma LooksNext(c: Cluster, files: seq<Split>, i: nat)
    requires i < |files|
    ensures i + 1 < MAX_ROUNDROBIN_AVAILABLE_DN_NUM ==> Looks(c, files, i) && Looks(c, files, i + 1)
    ensures i + 1 == MAX_ROUNDROBIN_AVAILABLE_DN_NUM ==>
              && Looks(c, files, i)
              && (Looks(c, files, i + 1) <==> LocalCount(c, files, i + 1) >= MAX_ROUNDROBIN_AVAILABLE_DN_NUM / 10)
    ensures i + 1 > MAX_ROUNDROBIN_AVAILABLE_DN_NUM ==> (Looks(c, files, i + 1) <==> Looks(c, files, i))
    ensures LocalCount(c, files, i + 1) == LocalCount(c, files, i) + if Local(c, files[i]) != [] then 1 else 0
  {
  }

  /** The local nodes for file i are in hand, none if replicas are no longer looked up. */
  ghost predicate Ready(c: Cluster, infos: seq<DnInfo>, files: seq<Split>, i: nat, local: seq<Oid>)
    requires i < |files|
  {
    && !Overflows(c, infos, files, i) && |local| <= MAX_ROUNDROBIN_AVAILABLE_DN_NUM
    && local == Found(c, infos, files, i)
    && (local == [] <==> !(Looks(c, files, i) && Local(c, files[i]) != []))
    && (local != [] ==> forall o :: o in local <==> o in Local(c, files[i]))
  }

  lemma IsReady(c: Cluster, infos: seq<DnInfo>, files: seq<Split>, i: nat, local: seq<Oid>)
    requires i < |files|
    requires local == Found(c, infos, files, i)
    requires if Looks(c, files, i) then
               && CountIps(infos, c.replicas(files[i])) == |local| <= MAX_ROUNDROBIN_AVAILABLE_DN_NUM
               && (forall o :: o in local <==> o in Local(c, files[i])) && (local == [] <==> Local(c, files[i]) == [])
             else local == []
    ensures Ready(c, infos, files, i, local)
  {
    hide CountIps, LocalCount, Local;
  }

  /** What one good choice adds. */
  lemma AtNext(w: Work, w': Work, c: Cluster, infos: seq<DnInfo>, files: seq<Split>, nodes: seq<Oid>, node: Oid)
    requires |nodes| < |files| && AtFile(w, c, infos, files, nodes) && !Overflows(c, infos, files, |nodes|)
    requires LeastLoaded(w, Candidates(c, files, |nodes|), node) && Added(w, w', node, files[|nodes|])
    ensures AtFile(w', c, infos, files, nodes + [node])
  {
    hide Candidates, Placed, LeastLoaded, Added, Overflows;
    var n := |nodes|;
    GoodNext(c, files, nodes, w, node);
    PlacedNext(w, w', files[..n], nodes, files[n], node);
    assert files[..n] + [files[n]] == files[..n + 1];
  }

  lemma LocalLeast(w: Work, c: Cluster, infos: seq<DnInfo>, files: seq<Split>, i: nat, local: seq<Oid>, node: Oid)
    requires i < |files| && Ready(c, infos, files, i, local)
    ensures local != [] && LeastLoaded(w, local, node) ==> LeastLoaded(w, Candidates(c, files, i), node)
    ensures local == [] ==> Candidates(c, files, i) == DataNodes(c.dnOids, c.isCoordinator)
  {
    hide Looks, Local, DataNodes;
  }

  lemma LoadsBounded(w: Work, c: Cluster, infos: seq<DnInfo>, files: seq<Split>, nodes: seq<Oid>)
    requires AtFile(w, c, infos, files, nodes) && |files| <= INT_MAX
    ensures forall o: Oid :: Load(w, o) < MAX_UINT32
  {
    forall o: Oid ensures Load(w, o) < MAX_UINT32 {
      PlacedLoad(w, files[..|nodes|], nodes, o);
    }
  }

  /** One file: to a local node if there is one, else to a remote one. */
  method AssignOne(t: Table, files: seq<Split>, c: Cluster, ghost infos: seq<DnInfo>, mode: Mode,
                   ghost nodes: seq<Oid>, i: nat, local: seq<Oid>) returns (ok: bool, node: Oid)
    requires c.dnOids != [] && i == |nodes| < |files| <= INT_MAX && AtFile(t.toDo, c, infos, files, nodes)
    requires Ready(c, infos, files, i, local)
    modifies t
    ensures ok ==> AtFile(t.toDo, c, infos, files, nodes + [node])
    ensures ok ==> var next := nodes + [node]; ExactChoice(c, infos, files, mode, next, i)
    ensures !ok ==> AtFile(t.toDo, c, infos, files, nodes) && Candidates(c, files, i) == []
  {
    assert |local| <= MAX_ROUNDROBIN_AVAILABLE_DN_NUM && !Overflows(c, infos, files, i);
    hide AtFile, Ready, Overflows, LeastLoaded, Added, Candidates, LocalCount, ExactChoice, PickedLocation, FirstLeast;
    ghost var w := t.toDo;
    if |local| != 0 {
      LoadsBounded(w, c, infos, files, nodes);
      node := t.AssignLocalNode(local, files[i], mode.isAnalyze, mode.random(i));
      IsExact(w, c, infos, files, mode, nodes, local, node);
      LocalLeast(w, c, infos, files, i, local, node);
      AtNext(w, t.toDo, c, infos, files, nodes, node);
      ok := true;
    } else {
      ok, node := t.AssignRemoteNode(c.dnOids, c.isCoordinator, files[i], mode.isAnalyze, mode.random(i));
      if ok { IsExact(w, c, infos, files, mode, nodes, local, node); }
      LocalLeast(w, c, infos, files, i, local, node);
      if ok {
        AtNext(w, t.toDo, c, infos, files, nodes, node);
      } else {
        StillAt(w, t.toDo, c, infos, files, nodes);
      }
    }
  }

  lemma IsExact(w: Work, c: Cluster, infos: seq<DnInfo>, files: seq<Split>, mode: Mode, nodes: seq<Oid>,
                local: seq<Oid>, node: Oid)
    requires c.dnOids != [] && |nodes| < |files| && AtFile(w, c, infos, files, nodes)
    requires Ready(c, infos, files, |nodes|, local)
    requires var random := mode.random(|nodes|);
             if local != [] then PickedLocation(LoadsOf(w), local, mode.isAnalyze, random, node)
             else FirstLeast(LoadsOf(w), c.isCoordinator,
                             Rotated(c.dnOids, RoundStart(c.dnOids, mode.isAnalyze, random)), node)
    ensures var next := nodes + [node]; ExactChoice(c, infos, files, mode, next, |nodes|)
  {
    hide PickedLocation, FirstLeast, GoodRun, Overflows, Found, Rotated, Placed;
    var n := |nodes|;
    forall o: Oid ensures LoadsOf(w)(o) == Counts(nodes)(o) { PlacedLoad(w, files[..n], nodes, o); }
    var round := Rotated(c.dnOids, RoundStart(c.dnOids, mode.isAnalyze, mode.random(n)));
    SameChoices(LoadsOf(w), Counts(nodes), local, mode.isAnalyze, mode.random(n), c.isCoordinator, round, node);
    assert (nodes + [node])[..n] == nodes;
  }

  lemma StillAt(w: Work, w': Work, c: Cluster, infos: seq<DnInfo>, files: seq<Split>, nodes: seq<Oid>)
    requires AtFile(w, c, infos, files, nodes) && SameLists(w, w')
    ensures AtFile(w', c, infos, files, nodes)
  {
    hide Overflows;
    PlacedSame(w, w', files[..|nodes|], nodes);
  }

  /** The flags of file i's cached replicas are written inside the buffer of flags. */
  ghost predicate FileFlagsInside(c: Cluster, infos: seq<DnInfo>, files: seq<Split>, cached: Split -> nat -> bool,
                                  i: nat)
    requires i < |files|
  {
    var ips := c.replicas(files[i]);
    Looks(c, files, i) ==> FlagsInside(infos, ips, cached(files[i]), |ips|)
  }

  ghost predicate AllFlagsInside(c: Cluster, infos: seq<DnInfo>, files: seq<Split>, cached: Split -> nat -> bool,
                                 n: nat)
    requires n <= |files|
  {
    forall i: nat :: i < n ==> FileFlagsInside(c, infos, files, cached, i)
  }

  lemma FlagsNext(c: Cluster, infos: seq<DnInfo>, files: seq<Split>, cached: Split -> nat -> bool, n: nat)
    requires n < |files|
    ensures AllFlagsInside(c, infos, files, cached, n + 1)
       <==> AllFlagsInside(c, infos, files, cached, n) && FileFlagsInside(c, infos, files, cached, n)
  {
    hide FileFlagsInside;
  }

  lemma NoFlags(c: Cluster, infos: seq<DnInfo>, files: seq<Split>, cached: Split -> nat -> bool)
    ensures AllFlagsInside(c, infos, files, cached, 0)
  {
  }

  /** The local nodes of file i, unless there are too many; none once replicas are no longer looked up. */
  method LocateFile(table: seq<Stat>, infos: seq<DnInfo>, c: Cluster, files: seq<Split>, cached: Split -> nat -> bool,
                    i: nat, needPredicate: bool) returns (fits: bool, local: seq<Oid>, inside: bool)
    requires IsTable(table, infos, |infos|) && multiset(infos) == multiset(InfosOf(c.dnOids, c.ipOf))
    requires i < |files| && (needPredicate <==> Looks(c, files, i))
    ensures fits <==> !Overflows(c, infos, files, i)
    ensures fits ==> Ready(c, infos, files, i, local) && (inside <==> FileFlagsInside(c, infos, files, cached, i))
  {
    hide IsTable, FlagsInside, CountIps, Looks, Local, Ready;
    local, inside := [], true;
    if needPredicate {
      var located, _, flagsInside := Locate(table, infos, c.replicas(files[i]), cached(files[i]));
      if located.None? {
        return false, local, inside;
      }
      local, inside := located.value, flagsInside;
      LocatedIsLocal(c, infos, files[i], local);
      LocatedCount(local, infos, c.replicas(files[i]));
    }
    IsReady(c, infos, files, i, local);
    return true, local, inside;
  }

  lemma ReadyLocal(c: Cluster, infos: seq<DnInfo>, files: seq<Split>, i: nat, local: seq<Oid>)
    requires i < |files| && Ready(c, infos, files, i, local)
    ensures local == [] <==> !(Looks(c, files, i) && Local(c, files[i]) != [])
  {
  }

  /** hdfsFileScheduling, the sorted addresses and the random numbers given. */
  method HdfsFileScheduling(t: Table, files: seq<Split>, c: Cluster, infos: seq<DnInfo>, cached: Split -> nat -> bool,
                            mode: Mode)
      returns (outcome: Outcome, inside: bool, ghost nodes: seq<Oid>)
    requires t.toDo == map[] && c.dnOids != [] && |files| <= INT_MAX
    requires ByIp(infos) && multiset(infos) == multiset(InfosOf(c.dnOids, c.ipOf))
    modifies t
    ensures AtFile(t.toDo, c, infos, files, nodes) && ExactRun(c, infos, files, mode, nodes)
    ensures outcome.Done? <==> |nodes| == |files|
    ensures outcome.TooManyLocations? ==> |nodes| < |files| && Overflows(c, infos, files, |nodes|)
    ensures outcome.NoDatanode? ==> |nodes| < |files| && Candidates(c, files, |nodes|) == []
    ensures outcome.Done? ==> (inside <==> AllFlagsInside(c, infos, files, cached, |files|))
  {
    hide AtFile, Candidates, LocalCount, ByIp, IsTable, FileFlagsInside, AllFlagsInside, Ready, Overflows, Looks, Local;
    hide ExactRun, ExactChoice;
    ExactFirst(c, infos, files, mode);
    LooksFirst(c, files);
    NoFlags(c, infos, files, cached);
    var table := StatDn(infos);
    var needPredicate, localFileCount := true, 0;
    nodes, inside := [], true;
    AtFirst(t.toDo, c, infos, files);
    for fileCount := 0 to |files|
      invariant |nodes| == fileCount && AtFile(t.toDo, c, infos, files, nodes)
      invariant ExactRun(c, infos, files, mode, nodes)
      invariant needPredicate <==> Looks(c, files, fileCount)
      invariant needPredicate ==> localFileCount == LocalCount(c, files, fileCount)
      invariant inside <==> AllFlagsInside(c, infos, files, cached, fileCount)
    {
      var fits, local, flagsInside := LocateFile(table, infos, c, files, cached, fileCount, needPredicate);
      if !fits {
        return TooManyLocations, inside, nodes;
      }
      inside := inside && flagsInside;
      FlagsNext(c, infos, files, cached, fileCount);
      LooksNext(c, files, fileCount);
      ReadyLocal(c, infos, files, fileCount, local);
      var ok, node := AssignOne(t, files, c, infos, mode, nodes, fileCount, local);
      if !ok {
        return NoDatanode, inside, nodes;
      }
      ExactNext(c, infos, files, mode, nodes, node);
      nodes := nodes + [node];
      if |local| != 0 {
        localFileCount := localFileCount + 1;
      }
      if fileCount + 1 == MAX_ROUNDROBIN_AVAILABLE_DN_NUM && localFileCount < MAX_ROUNDROBIN_AVAILABLE_DN_NUM / 10 {
        needPredicate := false;
      }
    }
    return Done, inside, nodes;
  }

  // ---------------------------------------------------------------- conservation and balance

  /** No split is lost or doubled: the loads of the nodes add up to the number of files. */
  lemma RunConserves(c: Cluster, files: seq<Split>, nodes: seq<Oid>)
    requires GoodRun(c, files, nodes) && Distinct(c.dnOids)
    ensures TotalLoad(nodes, c.dnOids) == |nodes|
  {
    hide TotalLoad, LocalCount, Looks;
    forall o | o in nodes ensures o in c.dnOids {
      var i :| 0 <= i < |nodes| && nodes[i] == o;
      assert GoodChoice(c, files, nodes, i);
    }
    Conserved(nodes, c.dnOids);
  }

  /** Choice i is a least-loaded one of all the nodes. */
  ghost predicate Greedy(nodes: seq<Oid>, all: seq<Oid>, i: nat)
    requires i < |nodes|
  {
    nodes[i] in all && forall o :: o in all ==> multiset(nodes[..i])[nodes[i]] <= multiset(nodes[..i])[o]
  }

  /** Choosing a least-loaded node every time keeps the nodes balanced. */
  lemma {:induction false} GreedyBalances(nodes: seq<Oid>, all: seq<Oid>)
    requires forall i: nat :: i < |nodes| ==> Greedy(nodes, all, i)
    ensures Balanced(nodes, all)
  {
    if nodes != [] {
      var n := |nodes| - 1;
      var init, last := nodes[..n], nodes[n];
      assert Greedy(nodes, all, n);
      forall i: nat | i < |init| ensures Greedy(init, all, i) {
        assert Greedy(nodes, all, i) && init[..i] == nodes[..i];
      }
      hide Greedy;
      GreedyBalances(init, all);
      assert nodes == init + [last];
      forall o, o' | o in all && o' in all ensures multiset(nodes)[o] <= multiset(nodes)[o'] + 1 {
        assert multiset(init)[o] <= multiset(init)[o'] + 1;
        assert multiset(init)[last] <= multiset(init)[o'];
      }
    }
  }

  /** A run in which no file is local leaves all datanodes balanced. */
  lemma RemoteRunBalanced(c: Cluster, files: seq<Split>, nodes: seq<Oid>)
    requires GoodRun(c, files, nodes) && forall i: nat :: i < |nodes| ==> Local(c, files[i]) == []
    ensures Balanced(nodes, DataNodes(c.dnOids, c.isCoordinator))
  {
    hide DataNodes, Local, Balanced, LocalCount;
    var all := DataNodes(c.dnOids, c.isCoordinator);
    forall i: nat | i < |nodes| ensures Greedy(nodes, all, i) {
      assert GoodChoice(c, files, nodes, i);
    }
    GreedyBalances(nodes, all);
  }
}
