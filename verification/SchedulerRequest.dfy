/** AssignRequestFilesToDn: one node for analyze, with a requested number of files, local ones if possible. */
module SchedulerRequest {
  import opened Options
  import opened Scheduler

  /** The files that are local to the node, and those that are not. */
  function Locals(files: seq<Split>, local: (Oid, Split) -> bool, o: Oid): seq<Split> {
    if files == [] then []
    else Locals(files[..|files| - 1], local, o) + if local(o, files[|files| - 1]) then [files[|files| - 1]] else []
  }

  function Remotes(files: seq<Split>, local: (Oid, Split) -> bool, o: Oid): seq<Split> {
    if files == [] then []
    else Remotes(files[..|files| - 1], local, o) + if local(o, files[|files| - 1]) then [] else [files[|files| - 1]]
  }

  /** Together they are the files, each once. */
  lemma {:induction false} LocalsAndRemotes(files: seq<Split>, local: (Oid, Split) -> bool, o: Oid)
    ensures |Locals(files, local, o)| + |Remotes(files, local, o)| == |files|
    ensures multiset(Locals(files, local, o)) + multiset(Remotes(files, local, o)) == multiset(files)
  {
    if files != [] {
      var n := |files| - 1;
      var init, last := files[..n], files[n];
      LocalsAndRemotes(init, local, o);
      Joined(Locals(init, local, o), Remotes(init, local, o), init, last);
      assert files == init + [last];
      assert Remotes(init, local, o) + [] == Remotes(init, local, o);
      assert Locals(init, local, o) + [] == Locals(init, local, o);
    }
  }

  lemma Joined(a: seq<Split>, b: seq<Split>, all: seq<Split>, x: Split)
    requires multiset(a) + multiset(b) == multiset(all)
    ensures multiset(a + [x]) + multiset(b) == multiset(a) + multiset(b + [x]) == multiset(all + [x])
  {
  }

  lemma FilesNext(files: seq<Split>, local: (Oid, Split) -> bool, o: Oid, k: nat)
    requires k < |files|
    ensures Locals(files[..k + 1], local, o) ==
              Locals(files[..k], local, o) + if local(o, files[k]) then [files[k]] else []
    ensures Remotes(files[..k + 1], local, o) ==
              Remotes(files[..k], local, o) + if local(o, files[k]) then [] else [files[k]]
  {
    assert files[..k + 1][..k] == files[..k];
  }

  lemma {:induction false} LocalsPrefix(files: seq<Split>, local: (Oid, Split) -> bool, o: Oid, k: nat)
    requires k <= |files|
    ensures Locals(files[..k], local, o) <= Locals(files, local, o)
    ensures Remotes(files[..k], local, o) <= Remotes(files, local, o)
    decreases |files| - k
  {
    if k == |files| {
      assert files[..k] == files;
    } else {
      FilesNext(files, local, o, k);
      LocalsPrefix(files, local, o, k + 1);
    }
  }

  function LocalNum(files: seq<Split>, local: (Oid, Split) -> bool, o: Oid): nat { |Locals(files, local, o)| }

  /** What the chosen node is given: its first local files if it has enough; otherwise it has the most local files of
      all nodes, and the first others fill up the number. */
  ghost predicate Fulfils(given: seq<Split>, files: seq<Split>, num: int, dnOids: seq<Oid>,
                          local: (Oid, Split) -> bool, o: Oid) {
    var own := Locals(files, local, o);
    && |given| == num && o in dnOids
    && (|own| >= num ==> given == own[..num])
    && (|own| < num ==>
          && (forall o' :: o' in dnOids ==> LocalNum(files, local, o') <= |own|)
          && num - |own| <= |Remotes(files, local, o)|
          && given == own + Remotes(files, local, o)[..num - |own|])
  }

  /** The node is the first of the round with enough local files or, if none has enough, the first with the most. */
  ghost predicate FirstMost(files: seq<Split>, num: int, local: (Oid, Split) -> bool, round: seq<Oid>, o: Oid) {
    exists i :: 0 <= i < |round| && round[i] == o && FirstMostAt(files, num, local, round, i)
  }

  ghost predicate FirstMostAt(files: seq<Split>, num: int, local: (Oid, Split) -> bool, round: seq<Oid>, i: nat)
    requires i < |round|
  {
    var most := LocalNum(files, local, round[i]);
    if 1 <= num <= most then forall j :: 0 <= j < i ==> LocalNum(files, local, round[j]) < num
    else
      forall j :: 0 <= j < |round| ==>
        LocalNum(files, local, round[j]) <= most && (j < i ==> LocalNum(files, local, round[j]) < most)
  }

  /** No file is given more often than it is listed. */
  lemma GivenFromFiles(given: seq<Split>, files: seq<Split>, num: int, dnOids: seq<Oid>, local: (Oid, Split) -> bool,
                       o: Oid)
    requires num >= 1 && Fulfils(given, files, num, dnOids, local, o)
    ensures multiset(given) <= multiset(files)
  {
    LocalsAndRemotes(files, local, o);
    var own, others := Locals(files, local, o), Remotes(files, local, o);
    hide Locals, Remotes;
    if |own| >= num {
      assert own == own[..num] + own[num..];
    } else {
      var k := num - |own|;
      assert others == others[..k] + others[k..];
    }
  }

  /** Nonlocal files are given only if no node has enough local ones. */
  lemma RemoteOnlyIfNeeded(given: seq<Split>, files: seq<Split>, num: int, dnOids: seq<Oid>,
                           local: (Oid, Split) -> bool, o: Oid)
    requires num >= 1 && Fulfils(given, files, num, dnOids, local, o)
    requires exists f :: f in given && !local(o, f)
    ensures forall o' :: o' in dnOids ==> LocalNum(files, local, o') < num
  {
    LocalsAreLocal(files, local, o);
  }

  lemma {:induction false} LocalsAreLocal(files: seq<Split>, local: (Oid, Split) -> bool, o: Oid)
    ensures forall f :: f in Locals(files, local, o) ==> local(o, f)
  {
    if files != [] { LocalsAreLocal(files[..|files| - 1], local, o); }
  }

  /** The local files in hand, until there are as many as requested. */
  method GatherLocal(t: Table, o: Oid, files: seq<Split>, num: int, local: (Oid, Split) -> bool)
    returns (cnt: nat, full: bool)
    modifies t
    ensures full <==> 1 <= num <= LocalNum(files, local, o)
    ensures full ==> o in t.toDo && t.toDo[o] == Locals(files, local, o)[..num]
    ensures !full ==> cnt == LocalNum(files, local, o)
    ensures !full && cnt > 0 ==> o in t.toDo && t.toDo[o] == Locals(files, local, o)
    ensures t.toDo - {o} == old(t.toDo) - {o}
  {
    hide Locals, SameLists, Added;
    ghost var w := t.toDo;
    var taken := false;
    cnt := 0;
    NoFiles(files, local, o);
    for k := 0 to |files|
      invariant cnt == |Locals(files[..k], local, o)| && (num >= 1 ==> cnt < num) && (taken <==> cnt > 0)
      invariant taken ==> o in t.toDo && t.toDo[o] == Locals(files[..k], local, o)
      invariant t.toDo - {o} == w - {o}
    {
      FilesNext(files, local, o, k);
      if local(o, files[k]) {
        if !taken {
          taken := true;
          t.toDo := t.toDo[o := []];
        }
        cnt := cnt + 1;
        t.toDo := t.toDo[o := t.toDo[o] + [files[k]]];
        if cnt == num {
          LocalsPrefix(files, local, o, k + 1);
          return cnt, true;
        }
      }
    }
    assert files[..|files|] == files;
    return cnt, false;
  }

  lemma NoFiles(files: seq<Split>, local: (Oid, Split) -> bool, o: Oid)
    ensures Locals(files[..0], local, o) == [] && Remotes(files[..0], local, o) == []
  {
  }

  /** Nonlocal files fill up the number, if there are enough of them. */
  method FillRemote(t: Table, o: Oid, files: seq<Split>, num: int, local: (Oid, Split) -> bool, max: nat)
    returns (ok: bool)
    requires o in t.toDo && t.toDo[o] == Locals(files, local, o) && max == LocalNum(files, local, o)
    requires !(1 <= num <= max)
    modifies t
    ensures ok <==> 1 <= num <= |files|
    ensures ok ==> o in t.toDo && num - max <= |Remotes(files, local, o)|
    ensures ok ==> t.toDo[o] == Locals(files, local, o) + Remotes(files, local, o)[..num - max]
  {
    ghost var own := Locals(files, local, o);
    LocalsAndRemotes(files, local, o);
    NoFiles(files, local, o);
    hide Locals, Remotes;
    var taken := max;
    for k := 0 to |files|
      invariant taken == max + |Remotes(files[..k], local, o)| && (num >= 1 ==> taken < num)
      invariant o in t.toDo && t.toDo[o] == own + Remotes(files[..k], local, o)
    {
      FilesNext(files, local, o, k);
      if !local(o, files[k]) {
        taken := taken + 1;
        t.toDo := t.toDo[o := t.toDo[o] + [files[k]]];
        if taken == num {
          LocalsPrefix(files, local, o, k + 1);
          return true;
        }
      }
    }
    assert files[..|files|] == files;
    return false;
  }

  /** The nodes tried so far have too few local files, and the recorded one has the most of them on its list. */
  ghost predicate MostYet(w: Work, files: seq<Split>, local: (Oid, Split) -> bool, visited: seq<Oid>, num: int,
                          max: nat, rec: Option<Oid>)
  {
    && (forall o :: o in visited ==> LocalNum(files, local, o) <= max && !(1 <= num <= LocalNum(files, local, o)))
    && (rec.None? ==> max == 0)
    && (rec.Some? ==> && FirstMost(files, num, local, visited, rec.value)
                      && LocalNum(files, local, rec.value) == max > 0
                      && rec.value in w && w[rec.value] == Locals(files, local, rec.value))
  }

  lemma NoneYet(w: Work, files: seq<Split>, local: (Oid, Split) -> bool, num: int)
    ensures MostYet(w, files, local, [], num, 0, None)
  {
  }

  lemma MostNext(w: Work, w': Work, files: seq<Split>, local: (Oid, Split) -> bool, visited: seq<Oid>, num: int,
                 max: nat, rec: Option<Oid>, o: Oid)
    requires MostYet(w, files, local, visited, num, max, rec) && w' - {o} == w - {o}
    requires !(1 <= num <= LocalNum(files, local, o))
    requires LocalNum(files, local, o) > 0 ==> o in w' && w'[o] == Locals(files, local, o)
    ensures if LocalNum(files, local, o) > max
            then MostYet(w', files, local, visited + [o], num, LocalNum(files, local, o), Some(o))
            else MostYet(w', files, local, visited + [o], num, max, rec)
  {
    hide LocalNum, FirstMost;
    assert o in visited + [o];
    if rec.Some? && rec.value != o {
      assert rec.value in w - {o} && (w - {o})[rec.value] == (w' - {o})[rec.value];
    }
    MostGrows(files, num, local, visited, max, rec, o);
  }

  lemma MostGrows(files: seq<Split>, num: int, local: (Oid, Split) -> bool, visited: seq<Oid>, max: nat,
                  rec: Option<Oid>, o: Oid)
    requires forall v :: v in visited ==> LocalNum(files, local, v) <= max && !(1 <= num <= LocalNum(files, local, v))
    requires rec.Some? ==> FirstMost(files, num, local, visited, rec.value) && LocalNum(files, local, rec.value) == max
    requires !(1 <= num <= LocalNum(files, local, o))
    ensures LocalNum(files, local, o) > max ==> FirstMost(files, num, local, visited + [o], o)
    ensures LocalNum(files, local, o) <= max && rec.Some? ==> FirstMost(files, num, local, visited + [o], rec.value)
  {
    hide LocalNum;
    var all := visited + [o];
    assert forall j :: 0 <= j < |visited| ==> all[j] in visited;
    if LocalNum(files, local, o) > max {
      assert all[|visited|] == o && FirstMostAt(files, num, local, all, |visited|);
    } else if rec.Some? {
      var i :| 0 <= i < |visited| && visited[i] == rec.value && FirstMostAt(files, num, local, visited, i);
      assert all[i] == rec.value && FirstMostAt(files, num, local, all, i);
    }
  }

  /** AssignRequestFilesToDn */
  method AssignRequestFilesToDn(t: Table, files: seq<Split>, num: int, dnOids: seq<Oid>, random: nat,
                                local: (Oid, Split) -> bool)
      returns (r: Option<Oid>)
    requires dnOids != []
    modifies t
    ensures r.Some? <==> 1 <= num <= |files|
    ensures r.Some? ==> r.value in t.toDo && Fulfils(t.toDo[r.value], files, num, dnOids, local, r.value)
    ensures r.Some? ==> FirstMost(files, num, local, Rotated(dnOids, random % |dnOids|), r.value)
  {
    hide Locals, Remotes, MostYet, Fulfils, FirstMost;
    var totalDnNum := |dnOids|;
    var startNode := random % totalDnNum;
    var dnIdx := startNode;
    ghost var round := Rotated(dnOids, startNode);
    var max: nat, rec: Option<Oid> := 0, None;
    NoneYet(t.toDo, files, local, num);
    for k := 0 to totalDnNum
      invariant 0 <= dnIdx < totalDnNum && (k < totalDnNum ==> dnIdx == Wrap(startNode + k, totalDnNum))
      invariant MostYet(t.toDo, files, local, round[..k], num, max, rec)
    {
      var nodeOid := dnOids[dnIdx];
      assert round[k] == nodeOid && round[..k + 1] == round[..k] + [nodeOid];
      ghost var w := t.toDo;
      var cnt, full := GatherLocal(t, nodeOid, files, num, local);
      if full {
        EnoughLocal(t.toDo[nodeOid], files, num, dnOids, local, nodeOid);
        FirstEnough(w, files, local, round, num, max, rec, k);
        return Some(nodeOid);
      }
      MostNext(w, t.toDo, files, local, round[..k], num, max, rec, nodeOid);
      if cnt > max {
        max, rec := cnt, Some(nodeOid);
      }
      dnIdx := dnIdx + 1;
      if dnIdx == totalDnNum {
        dnIdx := 0;
      }
    }
    assert round[..totalDnNum] == round;
    r := TakeRemote(t, files, num, dnOids, startNode, local, round, max, rec);
  }

  lemma FirstEnough(w: Work, files: seq<Split>, local: (Oid, Split) -> bool, round: seq<Oid>, num: int,
                    max: nat, rec: Option<Oid>, k: nat)
    requires k < |round| && MostYet(w, files, local, round[..k], num, max, rec)
    requires 1 <= num <= LocalNum(files, local, round[k])
    ensures FirstMost(files, num, local, round, round[k])
  {
    hide LocalNum;
    forall j | 0 <= j < k ensures LocalNum(files, local, round[j]) < num {
      assert round[..k][j] == round[j] && round[j] in round[..k];
    }
    assert FirstMostAt(files, num, local, round, k);
  }

  lemma EnoughLocal(given: seq<Split>, files: seq<Split>, num: int, dnOids: seq<Oid>, local: (Oid, Split) -> bool,
                    o: Oid)
    requires 1 <= num <= LocalNum(files, local, o) && given == Locals(files, local, o)[..num] && o in dnOids
    ensures num <= |files| && Fulfils(given, files, num, dnOids, local, o)
  {
    LocalsAndRemotes(files, local, o);
  }

  /** No node had enough: the recorded one, or the first if none has any, also takes nonlocal files. */
  method TakeRemote(t: Table, files: seq<Split>, num: int, dnOids: seq<Oid>, startNode: nat,
                    local: (Oid, Split) -> bool,
                    ghost round: seq<Oid>, max: nat, rec: Option<Oid>) returns (r: Option<Oid>)
    requires startNode < |dnOids| && round == Rotated(dnOids, startNode)
    requires MostYet(t.toDo, files, local, round, num, max, rec)
    modifies t
    ensures r.Some? <==> 1 <= num <= |files|
    ensures r.Some? ==> r.value in t.toDo && Fulfils(t.toDo[r.value], files, num, dnOids, local, r.value)
    ensures r.Some? ==> FirstMost(files, num, local, round, r.value)
  {
    hide Locals, Remotes, FirstMost;
    assert forall o :: o in round <==> o in dnOids;
    var node;
    if rec.None? {
      node := dnOids[startNode];
      assert round[0] == node && node in round;
      FirstOfNone(files, num, local, round);
      t.toDo := t.toDo[node := []];
    } else {
      node := rec.value;
      FirstIsOne(files, num, local, round, node);
    }
    var ok := FillRemote(t, node, files, num, local, max);
    r := if ok then Some(node) else None;
  }

  lemma FirstOfNone(files: seq<Split>, num: int, local: (Oid, Split) -> bool, round: seq<Oid>)
    requires round != [] && forall o :: o in round ==> LocalNum(files, local, o) == 0
    ensures FirstMost(files, num, local, round, round[0])
  {
    hide LocalNum;
    assert FirstMostAt(files, num, local, round, 0);
  }

  lemma FirstIsOne(files: seq<Split>, num: int, local: (Oid, Split) -> bool, round: seq<Oid>, o: Oid)
    requires FirstMost(files, num, local, round, o)
    ensures o in round
  {
  }
}
