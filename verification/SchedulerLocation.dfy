/** Which datanodes sit at the addresses of a file's replicas: StatDn's table and the search in it. */
module SchedulerLocation {
  import opened Options
  import opened Scheduler

  type Ip = ip: int | 0 <= ip <= MAX_UINT32

  /** A node and its address, one 64-bit word in the source. */
  datatype DnInfo = DnInfo(oid: Oid, ip: Ip)

  /** dnInfoStat: the nodes at one address. */
  datatype Stat = Stat(ip: Ip, start: nat, cnt: nat)

  /** Sorted by address. */
  ghost predicate ByIp(infos: seq<DnInfo>) { forall j, k :: 0 <= j < k < |infos| ==> infos[j].ip <= infos[k].ip }

  /** The entry spans exactly the nodes at its address among the first n. */
  ghost predicate IsRun(e: Stat, infos: seq<DnInfo>, n: nat)
    requires n <= |infos|
  {
    e.start + e.cnt <= n && forall k :: 0 <= k < n ==> (infos[k].ip == e.ip <==> e.start <= k < e.start + e.cnt)
  }

  /** One entry per address among the first n, by address. */
  ghost predicate IsTable(table: seq<Stat>, infos: seq<DnInfo>, n: nat)
    requires n <= |infos|
  {
    && (forall i :: 0 <= i < |table| ==> IsRun(table[i], infos, n) && (n > 0 ==> table[i].cnt > 0))
    && (forall i, j :: 0 <= i < j < |table| ==> table[i].ip < table[j].ip)
    && (forall k :: 0 <= k < n ==> exists i :: 0 <= i < |table| && table[i].ip == infos[k].ip)
  }

  /** StatDn. Without nodes it reports one entry, which is still zero. */
  method StatDn(infos: seq<DnInfo>) returns (table: seq<Stat>)
    requires ByIp(infos)
    ensures IsTable(table, infos, |infos|) && (infos == [] ==> table == [Stat(0, 0, 0)])
  {
    if infos == [] {
      return [Stat(0, 0, 0)];
    }
    hide IsTable, IsRun;
    table := [];
    var tmp, cnt, start := infos[0], 1, 0;
    FirstRun(infos);
    for loop := 1 to |infos|
      invariant 0 <= start < loop && cnt == loop - start && infos[loop - 1].ip == tmp.ip
      invariant IsTable(table + [Stat(tmp.ip, start, cnt)], infos, loop)
    {
      if tmp.ip == infos[loop].ip {
        SameRun(table, infos, loop, tmp.ip, start, cnt);
        cnt := cnt + 1;
      } else {
        table := table + [Stat(tmp.ip, start, cnt)];
        NextRun(table, infos, loop);
        tmp, start, cnt := infos[loop], loop, 1;
      }
    }
    table := table + [Stat(tmp.ip, start, cnt)];
  }

  lemma FirstRun(infos: seq<DnInfo>)
    requires infos != []
    ensures IsTable([] + [Stat(infos[0].ip, 0, 1)], infos, 1)
  {
    var table := [] + [Stat(infos[0].ip, 0, 1)];
    assert table[0] == Stat(infos[0].ip, 0, 1);
    forall k | 0 <= k < 1 ensures exists i :: 0 <= i < |table| && table[i].ip == infos[k].ip {
      assert table[0].ip == infos[k].ip;
    }
  }

  lemma SameRun(table: seq<Stat>, infos: seq<DnInfo>, n: nat, ip: Ip, start: nat, cnt: nat)
    requires 0 < n < |infos| && cnt == n - start && infos[n].ip == ip
    requires IsTable(table + [Stat(ip, start, cnt)], infos, n)
    ensures IsTable(table + [Stat(ip, start, cnt + 1)], infos, n + 1)
  {
    var was, now := table + [Stat(ip, start, cnt)], table + [Stat(ip, start, cnt + 1)];
    forall i | 0 <= i < |now| ensures IsRun(now[i], infos, n + 1) && now[i].cnt > 0 {
      assert IsRun(was[i], infos, n);
      if i < |table| { assert was[i].ip < was[|table|].ip; }
    }
    forall i, j | 0 <= i < j < |now| ensures now[i].ip < now[j].ip {
      assert was[i].ip < was[j].ip;
    }
    forall k | 0 <= k < n + 1 ensures exists i :: 0 <= i < |now| && now[i].ip == infos[k].ip {
      if k < n {
        var i :| 0 <= i < |was| && was[i].ip == infos[k].ip;
        assert now[i].ip == infos[k].ip;
      } else {
        assert now[|table|].ip == infos[k].ip;
      }
    }
  }

  lemma NextRun(table: seq<Stat>, infos: seq<DnInfo>, n: nat)
    requires 0 < n < |infos| && ByIp(infos) && infos[n - 1].ip != infos[n].ip && IsTable(table, infos, n)
    ensures IsTable(table + [Stat(infos[n].ip, n, 1)], infos, n + 1)
  {
    var now := table + [Stat(infos[n].ip, n, 1)];
    forall i | 0 <= i < |table| ensures table[i].ip < infos[n].ip {
      assert IsRun(table[i], infos, n);
      assert infos[table[i].start].ip == table[i].ip;
    }
    forall i | 0 <= i < |now| ensures IsRun(now[i], infos, n + 1) {
      if i < |table| { assert IsRun(table[i], infos, n); }
    }
    forall k | 0 <= k < n + 1 ensures exists i :: 0 <= i < |now| && now[i].ip == infos[k].ip {
      if k < n {
        var i :| 0 <= i < |table| && table[i].ip == infos[k].ip;
        assert now[i].ip == infos[k].ip;
      } else {
        assert now[|table|].ip == infos[k].ip;
      }
    }
  }

  /** bsearch with CompareByIp. */
  method FindIp(table: seq<Stat>, ip: Ip) returns (r: Option<nat>)
    requires forall i, j :: 0 <= i < j < |table| ==> table[i].ip < table[j].ip
    ensures r.Some? ==> r.value < |table| && table[r.value].ip == ip
    ensures r.None? ==> forall i :: 0 <= i < |table| ==> table[i].ip != ip
  {
    var lo, hi := 0, |table|;
    while lo < hi
      invariant 0 <= lo <= hi <= |table|
      invariant forall i :: 0 <= i < lo ==> table[i].ip < ip
      invariant forall i :: hi <= i < |table| ==> table[i].ip > ip
    {
      var mid := (lo + hi) / 2;
      if table[mid].ip == ip {
        return Some(mid);
      } else if table[mid].ip < ip {
        lo := mid + 1;
      } else {
        hi := mid;
      }
    }
    return None;
  }

  /** How many of the first n nodes are at the address. */
  function CountIp(infos: seq<DnInfo>, ip: Ip, n: nat): nat
    requires n <= |infos|
  {
    if n == 0 then 0 else CountIp(infos, ip, n - 1) + if infos[n - 1].ip == ip then 1 else 0
  }

  /** How many nodes the addresses name, one address after the other. */
  function CountIps(infos: seq<DnInfo>, ips: seq<Ip>): nat {
    if ips == [] then 0 else CountIps(infos, ips[..|ips| - 1]) + CountIp(infos, ips[|ips| - 1], |infos|)
  }

  lemma {:induction false} RunCount(e: Stat, infos: seq<DnInfo>, n: nat)
    requires IsRun(e, infos, |infos|) && n <= |infos|
    ensures CountIp(infos, e.ip, n) == if n <= e.start then 0 else if n <= e.start + e.cnt then n - e.start else e.cnt
  {
    if n > 0 { RunCount(e, infos, n - 1); }
  }

  lemma {:induction false} AbsentCount(infos: seq<DnInfo>, ip: Ip, n: nat)
    requires n <= |infos| && forall k :: 0 <= k < |infos| ==> infos[k].ip != ip
    ensures CountIp(infos, ip, n) == 0
  {
    if n > 0 { AbsentCount(infos, ip, n - 1); }
  }

  lemma {:induction false} AbsentOids(infos: seq<DnInfo>, ip: Ip)
    requires forall k :: 0 <= k < |infos| ==> infos[k].ip != ip
    ensures OidsAt(infos, ip) == []
  {
    if infos != [] { AbsentOids(infos[..|infos| - 1], ip); }
  }

  lemma {:induction false} RunOids(e: Stat, infos: seq<DnInfo>, n: nat)
    requires IsRun(e, infos, |infos|) && n <= |infos|
    ensures OidsAt(infos[..n], e.ip) ==
              if n <= e.start then [] else Oids(infos[e.start..if n <= e.start + e.cnt then n else e.start + e.cnt])
  {
    hide Oids;
    if n > 0 {
      RunOids(e, infos, n - 1);
      var init := infos[..n - 1];
      assert infos[..n][..n - 1] == init && infos[..n][n - 1] == infos[n - 1];
      if e.start < n <= e.start + e.cnt {
        OidsNext(infos, e.start, n);
      }
    }
  }

  lemma OidsNext(infos: seq<DnInfo>, start: nat, n: nat)
    requires start < n <= |infos|
    ensures Oids(infos[start..n]) == (if n - 1 <= start then [] else Oids(infos[start..n - 1])) + [infos[n - 1].oid]
  {
    var run := infos[start..n];
    assert run[..|run| - 1] == infos[start..n - 1] && run[|run| - 1] == infos[n - 1];
  }

  lemma {:induction false} CountGrows(infos: seq<DnInfo>, ips: seq<Ip>, k: nat)
    requires k <= |ips|
    ensures CountIps(infos, ips[..k]) <= CountIps(infos, ips)
    decreases |ips| - k
  {
    if k == |ips| {
      assert ips[..k] == ips;
    } else {
      CountGrows(infos, ips, k + 1);
      assert ips[..k + 1][..k] == ips[..k];
    }
  }

  /** The nodes at an address, in the order of the list. */
  function OidsAt(infos: seq<DnInfo>, ip: Ip): seq<Oid> {
    if infos == [] then []
    else OidsAt(infos[..|infos| - 1], ip) + if infos[|infos| - 1].ip == ip then [infos[|infos| - 1].oid] else []
  }

  /** The nodes at the addresses, one address after the other. */
  function Located(infos: seq<DnInfo>, ips: seq<Ip>): seq<Oid> {
    if ips == [] then [] else Located(infos, ips[..|ips| - 1]) + OidsAt(infos, ips[|ips| - 1])
  }

  /** Exactly the nodes at the addresses, once for each address that names them. */
  ghost predicate AreLocated(local: seq<Oid>, infos: seq<DnInfo>, ips: seq<Ip>) {
    && |local| == CountIps(infos, ips)
    && forall o: Oid :: o in local <==> AtIps(o, infos, ips)
  }

  ghost predicate AtIps(o: Oid, infos: seq<DnInfo>, ips: seq<Ip>) {
    exists d :: d in infos && d.oid == o && d.ip in ips
  }

  /** The flags of a cached replica are written behind its nodes; they stay inside the buffer of flags. */
  ghost predicate FlagInside(infos: seq<DnInfo>, ips: seq<Ip>, k: nat)
    requires k < |ips|
  {
    CountIps(infos, ips[..k + 1]) + CountIp(infos, ips[k], |infos|) <= MAX_ROUNDROBIN_AVAILABLE_DN_NUM
  }

  /** So do those of the first n replicas. */
  ghost predicate FlagsInside(infos: seq<DnInfo>, ips: seq<Ip>, cached: nat -> bool, n: nat)
    requires n <= |ips|
  {
    forall k: nat :: k < n && cached(k) ==> FlagInside(infos, ips, k)
  }

  /** The replica loop of hdfsFileScheduling: the nodes at the replicas' addresses, unless the buffer is too small.
      It has copied the nodes of done replicas, and tells whether it wrote their flags inside the buffer. */
  method Locate(table: seq<Stat>, infos: seq<DnInfo>, ips: seq<Ip>, cached: nat -> bool)
      returns (r: Option<seq<Oid>>, done: nat, inside: bool)
    requires IsTable(table, infos, |infos|)
    ensures r.None? <==> CountIps(infos, ips) > MAX_ROUNDROBIN_AVAILABLE_DN_NUM
    ensures r.Some? ==> AreLocated(r.value, infos, ips) && r.value == Located(infos, ips)
    ensures done <= |ips| && (r.Some? <==> done == |ips|) && (inside <==> FlagsInside(infos, ips, cached, done))
    ensures r.None? ==> CountIps(infos, ips[..done + 1]) > MAX_ROUNDROBIN_AVAILABLE_DN_NUM
  {
    hide IsTable, AreLocated, CountIps, CountIp, OidsAt;
    NoneLocated(infos);
    TableOrdered(table, infos);
    var local: seq<Oid> := [];
    inside := true;
    for k := 0 to |ips|
      invariant AreLocated(local, infos, ips[..k]) && |local| <= MAX_ROUNDROBIN_AVAILABLE_DN_NUM
      invariant local == Located(infos, ips[..k])
      invariant inside <==> FlagsInside(infos, ips, cached, k)
    {
      var i := FindIp(table, ips[k]);
      assert ips[..k + 1][..k] == ips[..k];
      if i.None? {
        LocateMiss(local, infos, table, ips, k);
        LocatedCount(local, infos, ips[..k + 1]);
      } else {
        var e := table[i.value];
        LocateHit(local, infos, table, ips, k, e);
        if e.cnt > MAX_ROUNDROBIN_AVAILABLE_DN_NUM - |local| {
          CountGrows(infos, ips, k + 1);
          return None, k, inside;
        }
        local := local + Oids(infos[e.start..e.start + e.cnt]);
        if cached(k) && |local| + e.cnt > MAX_ROUNDROBIN_AVAILABLE_DN_NUM {
          inside := false;
        }
      }
    }
    assert ips[..|ips|] == ips;
    LocatedCount(local, infos, ips);
    return Some(local), |ips|, inside;
  }

  lemma {:induction false} AllAtOne(infos: seq<DnInfo>, ip: Ip, n: nat)
    requires n <= |infos| && forall k :: 0 <= k < |infos| ==> infos[k].ip == ip
    ensures CountIp(infos, ip, n) == n
  {
    if n > 0 { AllAtOne(infos, ip, n - 1); }
  }

  /** With 129 nodes at the address of one cached replica the nodes fit, and the flags pass the end of their buffer. */
  lemma FlagsPassBuffer(infos: seq<DnInfo>, ips: seq<Ip>)
    requires infos == seq(129, (o: nat) => DnInfo(o, 7)) && ips == [7]
    ensures ByIp(infos) && CountIps(infos, ips) <= MAX_ROUNDROBIN_AVAILABLE_DN_NUM && !FlagInside(infos, ips, 0)
  {
    AllAtOne(infos, 7, |infos|);
    assert ips[..0] == [] && ips[..1] == ips;
    assert CountIps(infos, ips) == CountIps(infos, []) + CountIp(infos, 7, |infos|);
  }

  lemma NoneLocated(infos: seq<DnInfo>)
    ensures AreLocated([], infos, [])
  {
  }

  lemma TableOrdered(table: seq<Stat>, infos: seq<DnInfo>)
    requires IsTable(table, infos, |infos|)
    ensures forall i, j :: 0 <= i < j < |table| ==> table[i].ip < table[j].ip
  {
  }

  lemma LocatedCount(local: seq<Oid>, infos: seq<DnInfo>, ips: seq<Ip>)
    requires AreLocated(local, infos, ips)
    ensures |local| == CountIps(infos, ips)
  {
  }

  /** One more address that no entry has adds nothing. */
  lemma LocateMiss(local: seq<Oid>, infos: seq<DnInfo>, table: seq<Stat>, ips: seq<Ip>, k: nat)
    requires IsTable(table, infos, |infos|) && k < |ips| && AreLocated(local, infos, ips[..k])
    requires forall i :: 0 <= i < |table| ==> table[i].ip != ips[k]
    ensures AreLocated(local, infos, ips[..k + 1]) && CountIp(infos, ips[k], |infos|) == 0
    ensures OidsAt(infos, ips[k]) == []
  {
    hide AreLocated, IsTable, CountIps, CountIp;
    assert ips[..k + 1] == ips[..k] + [ips[k]];
    TableMisses(table, infos, ips[k]);
    AbsentCount(infos, ips[k], |infos|);
    AbsentOids(infos, ips[k]);
    NothingMore(local, infos, ips[..k], ips[k]);
  }

  /** One more address adds the nodes of its entry. */
  lemma LocateHit(local: seq<Oid>, infos: seq<DnInfo>, table: seq<Stat>, ips: seq<Ip>, k: nat, e: Stat)
    requires IsTable(table, infos, |infos|) && k < |ips| && AreLocated(local, infos, ips[..k])
    requires e in table && e.ip == ips[k]
    ensures e.start + e.cnt <= |infos| && CountIp(infos, ips[k], |infos|) == e.cnt
    ensures CountIps(infos, ips[..k + 1]) == |local| + e.cnt
    ensures AreLocated(local + Oids(infos[e.start..e.start + e.cnt]), infos, ips[..k + 1])
    ensures OidsAt(infos, ips[k]) == Oids(infos[e.start..e.start + e.cnt])
  {
    hide AreLocated, IsTable, IsRun, CountIps, CountIp, Oids, OidsAt;
    var before := ips[..k];
    assert ips[..k + 1] == before + [e.ip];
    TableRun(table, infos, e);
    RunCount(e, infos, |infos|);
    RunOids(e, infos, |infos|);
    assert infos[..|infos|] == infos;
    RunMembers(local, infos, before, e);
  }

  lemma TableMisses(table: seq<Stat>, infos: seq<DnInfo>, ip: Ip)
    requires IsTable(table, infos, |infos|) && forall i :: 0 <= i < |table| ==> table[i].ip != ip
    ensures forall j :: 0 <= j < |infos| ==> infos[j].ip != ip
  {
    forall j | 0 <= j < |infos| ensures infos[j].ip != ip {
      var e :| 0 <= e < |table| && table[e].ip == infos[j].ip;
    }
  }

  lemma TableRun(table: seq<Stat>, infos: seq<DnInfo>, e: Stat)
    requires IsTable(table, infos, |infos|) && e in table
    ensures IsRun(e, infos, |infos|) && e.start + e.cnt <= |infos|
  {
    var i :| 0 <= i < |table| && table[i] == e;
    assert IsRun(table[i], infos, |infos|);
  }

  lemma NothingMore(local: seq<Oid>, infos: seq<DnInfo>, ips: seq<Ip>, ip: Ip)
    requires AreLocated(local, infos, ips) && forall j :: 0 <= j < |infos| ==> infos[j].ip != ip
    ensures AreLocated(local, infos, ips + [ip])
  {
    AbsentCount(infos, ip, |infos|);
    assert (ips + [ip])[..|ips|] == ips;
    forall o: Oid ensures AtIps(o, infos, ips + [ip]) <==> AtIps(o, infos, ips) {
    }
  }

  lemma RunMembers(local: seq<Oid>, infos: seq<DnInfo>, ips: seq<Ip>, e: Stat)
    requires AreLocated(local, infos, ips) && IsRun(e, infos, |infos|)
    ensures CountIps(infos, ips + [e.ip]) == |local| + e.cnt
    ensures AreLocated(local + Oids(infos[e.start..e.start + e.cnt]), infos, ips + [e.ip])
  {
    var run := infos[e.start..e.start + e.cnt];
    assert (ips + [e.ip])[..|ips|] == ips;
    RunCount(e, infos, |infos|);
    forall o: Oid ensures o in local + Oids(run) <==> AtIps(o, infos, ips + [e.ip]) {
      RunMember(infos, ips, e, o);
    }
  }

  lemma RunMember(infos: seq<DnInfo>, ips: seq<Ip>, e: Stat, o: Oid)
    requires IsRun(e, infos, |infos|)
    ensures AtIps(o, infos, ips + [e.ip]) <==> AtIps(o, infos, ips) || o in Oids(infos[e.start..e.start + e.cnt])
  {
    var run := infos[e.start..e.start + e.cnt];
    if o in Oids(run) {
      var k :| 0 <= k < |run| && run[k].oid == o;
      assert infos[e.start + k] == run[k];
    }
    if d :| d in infos && d.oid == o && d.ip in ips + [e.ip] {
      if d.ip !in ips {
        var k :| 0 <= k < |infos| && infos[k] == d;
        assert Oids(run)[k - e.start] == o;
      }
    }
  }

  function Oids(infos: seq<DnInfo>): (oids: seq<Oid>)
    ensures |oids| == |infos| && forall k :: 0 <= k < |infos| ==> oids[k] == infos[k].oid
  {
    if infos == [] then [] else Oids(infos[..|infos| - 1]) + [infos[|infos| - 1].oid]
  }
}
