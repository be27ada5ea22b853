/** Whole scheduling runs: obsFileScheduling deals files round, hdfsFileScheduling sends each to a least-loaded node. */
module SchedulerRun {
  import opened Scheduler

  const INT_MAX := 0x7FFF_FFFF

  // ---------------------------------------------------------------- runs

  /** The splits that a run sends to a node, in order: split i goes to nodes[i]. */
  function PlaceOf(files: seq<Split>, nodes: seq<Oid>, o: Oid): seq<Split>
    requires |files| == |nodes|
  {
    if files == [] then []
    else
      var n := |files| - 1;
      PlaceOf(files[..n], nodes[..n], o) + if nodes[n] == o then [files[n]] else []
  }

  /** Every split is on the list of its node, and on no other. */
  ghost predicate Placed(w: Work, files: seq<Split>, nodes: seq<Oid>) {
    |files| == |nodes| && forall o: Oid :: ListOf(w, o) == PlaceOf(files, nodes, o)
  }

  lemma NothingPlaced(w: Work)
    requires w == map[]
    ensures Placed(w, [], [])
  {
  }

  lemma PlacedNext(w: Work, w': Work, files: seq<Split>, nodes: seq<Oid>, split: Split, node: Oid)
    requires Placed(w, files, nodes) && Added(w, w', node, split)
    ensures Placed(w', files + [split], nodes + [node])
  {
    hide ListOf;
    assert (files + [split])[..|files|] == files && (nodes + [node])[..|nodes|] == nodes;
  }

  lemma PlacedSame(w: Work, w': Work, files: seq<Split>, nodes: seq<Oid>)
    requires Placed(w, files, nodes) && SameLists(w, w')
    ensures Placed(w', files, nodes)
  {
    hide ListOf, PlaceOf;
  }

  /** A node's load is how often the run chose it; so the loads of all nodes add up to the number of files. */
  lemma {:induction false} LoadIsCount(files: seq<Split>, nodes: seq<Oid>, o: Oid)
    requires |files| == |nodes|
    ensures |PlaceOf(files, nodes, o)| == multiset(nodes)[o] <= |files|
  {
    if files != [] {
      var n := |files| - 1;
      LoadIsCount(files[..n], nodes[..n], o);
      assert nodes == nodes[..n] + [nodes[n]];
    }
  }

  lemma PlacedLoad(w: Work, files: seq<Split>, nodes: seq<Oid>, o: Oid)
    requires Placed(w, files, nodes)
    ensures Load(w, o) == multiset(nodes)[o] <= |files|
  {
    LoadIsCount(files, nodes, o);
  }

  /** The loads of the nodes taken together. */
  function TotalLoad(nodes: seq<Oid>, all: seq<Oid>): nat {
    if all == [] then 0 else TotalLoad(nodes, all[..|all| - 1]) + multiset(nodes)[all[|all| - 1]]
  }

  lemma {:induction false} TotalNext(nodes: seq<Oid>, node: Oid, all: seq<Oid>)
    requires Distinct(all)
    ensures TotalLoad(nodes + [node], all) == TotalLoad(nodes, all) + if node in all then 1 else 0
  {
    if all != [] {
      var n := |all| - 1;
      assert all == all[..n] + [all[n]];
      TotalNext(nodes, node, all[..n]);
    }
  }

  ghost predicate Distinct(all: seq<Oid>) { forall j, k :: 0 <= j < k < |all| ==> all[j] != all[k] }

  /** Conservation: over distinct nodes that hold every choice, the loads add up to the number of files. */
  lemma {:induction false} Conserved(nodes: seq<Oid>, all: seq<Oid>)
    requires Distinct(all) && forall o :: o in nodes ==> o in all
    ensures TotalLoad(nodes, all) == |nodes|
  {
    if nodes == [] {
      NoLoad(all);
    } else {
      var n := |nodes| - 1;
      assert nodes == nodes[..n] + [nodes[n]];
      Conserved(nodes[..n], all);
      TotalNext(nodes[..n], nodes[n], all);
    }
  }

  lemma {:induction false} NoLoad(all: seq<Oid>)
    ensures TotalLoad([], all) == 0
  {
    if all != [] { NoLoad(all[..|all| - 1]); }
  }

  /** No two of the nodes differ by more than one. */
  ghost predicate Balanced(nodes: seq<Oid>, all: seq<Oid>) {
    forall o, o' :: o in all && o' in all ==> multiset(nodes)[o] <= multiset(nodes)[o'] + 1
  }

  // ---------------------------------------------------------------- OBS

  /** AssignReplicaNode: the first node gets all the files, the others an empty list. */
  method AssignReplicaNode(t: Table, dnOids: seq<Oid>, files: seq<Split>)
    requires Distinct(dnOids)
    modifies t
    ensures forall k :: 0 <= k < |dnOids| ==> ListOf(t.toDo, dnOids[k]) == if k == 0 then files else []
    ensures forall o: Oid :: o !in dnOids ==> ListOf(t.toDo, o) == ListOf(old(t.toDo), o)
  {
    for dnIdx := 0 to |dnOids|
      invariant forall k :: 0 <= k < dnIdx ==> ListOf(t.toDo, dnOids[k]) == if k == 0 then files else []
      invariant forall o: Oid :: o !in dnOids ==> ListOf(t.toDo, o) == ListOf(old(t.toDo), o)
    {
      var nodeOid := dnOids[dnIdx];
      assert nodeOid in dnOids;
      var _ := t.Enter(nodeOid);
      t.toDo := t.toDo[nodeOid := if dnIdx == 0 then files else []];
    }
  }

  /** After n files dealt round over taskCnt nodes: q full rounds and one node more for each place below r. */
  ghost predicate Rounds(nodes: seq<Oid>, dnOids: seq<Oid>, taskCnt: nat, q: nat, r: nat) {
    && 0 < taskCnt <= |dnOids| && r == |nodes| % taskCnt
    && (|nodes| < taskCnt ==> q == 0 && r == |nodes|) && (|nodes| == taskCnt ==> q == 1 && r == 0)
    && forall k :: 0 <= k < |dnOids| ==>
         multiset(nodes)[dnOids[k]] == if k < taskCnt then q + (if k < r then 1 else 0) else 0
  }

  lemma RoundNext(nodes: seq<Oid>, dnOids: seq<Oid>, taskCnt: nat, q: nat, r: nat)
    requires Rounds(nodes, dnOids, taskCnt, q, r) && Distinct(dnOids)
    ensures if r + 1 < taskCnt then Rounds(nodes + [dnOids[r]], dnOids, taskCnt, q, r + 1)
            else Rounds(nodes + [dnOids[r]], dnOids, taskCnt, q + 1, 0)
  {
    ModNext(|nodes|, taskCnt);
    var next := nodes + [dnOids[r]];
    forall k | 0 <= k < |dnOids|
      ensures multiset(next)[dnOids[k]] == multiset(nodes)[dnOids[k]] + if k == r then 1 else 0
    {
    }
  }

  lemma ModNext(n: nat, t: nat)
    requires t > 0
    ensures (n + 1) % t == if n % t + 1 < t then n % t + 1 else 0
  {
    var q, r := n / t, n % t;
    assert n == t * q + r;
    if r + 1 < t {
      ModOf(n + 1, t, q, r + 1);
    } else {
      assert n + 1 == t * (q + 1);
      ModOf(n + 1, t, q + 1, 0);
    }
  }

  lemma ModOf(n: nat, t: nat, q: nat, r: nat)
    requires t > 0 && r < t && n == t * q + r
    ensures n % t == r
  {
    var q', r' := n / t, n % t;
    assert n == t * q' + r';
    if q < q' {
      ProductGrows(t, q + 1, q');
    } else if q' < q {
      ProductGrows(t, q' + 1, q);
    }
  }

  lemma ProductGrows(t: nat, a: nat, b: nat)
    requires a <= b
    ensures t * a <= t * b
  {
  }

  /** obsFileScheduling */
  method ObsFileScheduling(t: Table, files: seq<Split>, dnOids: seq<Oid>, replicated: bool)
      returns (ghost nodes: seq<Oid>)
    requires t.toDo == map[] && dnOids != [] && Distinct(dnOids)
    modifies t
    ensures replicated ==> forall k :: 0 <= k < |dnOids| ==> ListOf(t.toDo, dnOids[k]) == if k == 0 then files else []
    ensures !replicated ==>
              Placed(t.toDo, files, nodes) && (forall o :: o in nodes ==> o in dnOids) && Balanced(nodes, dnOids)
    ensures !replicated ==>
              forall i :: 0 <= i < |nodes| ==>
                nodes[i] == dnOids[i % if |files| < |dnOids| then |files| else |dnOids|]
  {
    hide Placed, Rounds, Balanced;
    nodes := [];
    if replicated {
      AssignReplicaNode(t, dnOids, files);
    } else {
      var fileCnt := |files|;
      var taskCnt := if fileCnt < |dnOids| then fileCnt else |dnOids|;
      if taskCnt == 0 {
        taskCnt := 1;
      }
      ghost var q, r;
      nodes, q, r := DealRound(t, files, dnOids, taskCnt);
      RoundsBalanced(nodes, dnOids, taskCnt, q, r);
    }
  }

  method DealRound(t: Table, files: seq<Split>, dnOids: seq<Oid>, taskCnt: nat)
      returns (ghost nodes: seq<Oid>, ghost q: nat, ghost r: nat)
    requires t.toDo == map[] && 0 < taskCnt <= |dnOids| && Distinct(dnOids)
    modifies t
    ensures Placed(t.toDo, files, nodes) && Rounds(nodes, dnOids, taskCnt, q, r) && |nodes| == |files|
    ensures forall o :: o in nodes ==> o in dnOids
    ensures forall i :: 0 <= i < |nodes| ==> nodes[i] == dnOids[i % taskCnt]
  {
    hide Placed, ListOf, Rounds, Distinct, Added, SameLists;
    nodes, q, r := [], 0, 0;
    NothingPlaced(t.toDo);
    FirstRound(dnOids, taskCnt);
    for numProcessed := 0 to |files|
      invariant |nodes| == numProcessed && Placed(t.toDo, files[..numProcessed], nodes)
      invariant Rounds(nodes, dnOids, taskCnt, q, r) && forall o :: o in nodes ==> o in dnOids
      invariant forall i :: 0 <= i < |nodes| ==> nodes[i] == dnOids[i % taskCnt]
    {
      var split := files[numProcessed];
      RoundBounds(nodes, dnOids, taskCnt, q, r);
      var nodeOid := dnOids[numProcessed % taskCnt];
      ghost var w := t.toDo;
      var _ := t.Enter(nodeOid);
      PlacedSame(w, t.toDo, files[..numProcessed], nodes);
      w := t.toDo;
      t.Append(nodeOid, split);
      PlacedNext(w, t.toDo, files[..numProcessed], nodes, split, nodeOid);
      RoundNext(nodes, dnOids, taskCnt, q, r);
      assert files[..numProcessed + 1] == files[..numProcessed] + [split];
      nodes := nodes + [nodeOid];
      if r + 1 < taskCnt {
        r := r + 1;
      } else {
        q, r := q + 1, 0;
      }
    }
    assert files[..|files|] == files;
  }

  lemma FirstRound(dnOids: seq<Oid>, taskCnt: nat)
    requires 0 < taskCnt <= |dnOids|
    ensures Rounds([], dnOids, taskCnt, 0, 0)
  {
  }

  lemma RoundBounds(nodes: seq<Oid>, dnOids: seq<Oid>, taskCnt: nat, q: nat, r: nat)
    requires Rounds(nodes, dnOids, taskCnt, q, r)
    ensures r < taskCnt <= |dnOids| && r == |nodes| % taskCnt
  {
  }

  lemma RoundsBalanced(nodes: seq<Oid>, dnOids: seq<Oid>, taskCnt: nat, q: nat, r: nat)
    requires Rounds(nodes, dnOids, taskCnt, q, r) && (taskCnt < |dnOids| ==> |nodes| <= taskCnt)
    ensures Balanced(nodes, dnOids)
  {
    forall o, o' | o in dnOids && o' in dnOids ensures multiset(nodes)[o] <= multiset(nodes)[o'] + 1 {
      var k :| 0 <= k < |dnOids| && dnOids[k] == o;
      var k' :| 0 <= k' < |dnOids| && dnOids[k'] == o';
    }
  }
}
