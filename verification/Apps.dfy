/**
 The association of processes with applications in collectors/application/apps_status.c: a table
 from pids to association objects, a list of applications, and in each application the number of
 table entries that point to it.  An application is freed when that number is zero, which is safe
 only because the numbers are exact.
 */
module Apps {

  type Pid = nat

  class App {
    const name: string
    const pid: Pid
    var processCount: int

    constructor (name: string, pid: Pid)
      ensures this.name == name && this.pid == pid && processCount == 0
    {
      this.name, this.pid, processCount := name, pid, 0;
    }
  }

  class Assoc {
    const target: App
    var update: bool

    constructor (target: App)
      ensures this.target == target && !update
    {
      this.target, update := target, false;
    }
  }

  // The pids whose table entry points to `a`.
  ghost function Owned(table: map<Pid, Assoc>, a: App): set<Pid> {
    set p | p in table && table[p].target == a
  }

  lemma OwnedAdd(table: map<Pid, Assoc>, p: Pid, x: Assoc, a: App)
    requires p !in table
    ensures |Owned(table[p := x], a)| == |Owned(table, a)| + (if x.target == a then 1 else 0)
  {
    assert Owned(table[p := x], a) == if x.target == a then Owned(table, a) + {p} else Owned(table, a);
  }

  lemma OwnedDrop(table: map<Pid, Assoc>, p: Pid, a: App)
    requires p in table
    ensures |Owned(table - {p}, a)| == |Owned(table, a)| - (if table[p].target == a then 1 else 0)
  {
    assert Owned(table - {p}, a) == if table[p].target == a then Owned(table, a) - {p} else Owned(table, a);
  }

  // The tables agree on what they say about `p`.
  ghost predicate SameEntry(t: map<Pid, Assoc>, u: map<Pid, Assoc>, p: Pid) {
    (p in t <==> p in u) && (p in t ==> t[p] == u[p])
  }

  ghost predicate Has(table: map<Pid, Assoc>, p: Pid, a: App) {
    p in table && table[p].target == a
  }

  // Some request for `p` was given memory.
  ghost predicate Granted(pids: seq<Pid>, grants: seq<bool>, p: Pid)
    requires |pids| == |grants|
  {
    exists i :: 0 <= i < |pids| && pids[i] == p && grants[i]
  }

  // What binding `p` to `a` comes to: an entry that is right stays; otherwise there is one if memory
  // is given, and none if it is not.
  ghost predicate Outcome(before: map<Pid, Assoc>, after: map<Pid, Assoc>, a: App, p: Pid, given: bool) {
    if Has(before, p, a) then SameEntry(before, after, p) else if given then Has(after, p, a) else p !in after
  }

  // What binding `pids` to `a` comes to for any `p`.
  ghost predicate Bound(before: map<Pid, Assoc>, after: map<Pid, Assoc>, a: App, pids: seq<Pid>, grants: seq<bool>, p: Pid)
    requires |pids| == |grants|
  {
    if p in pids then Outcome(before, after, a, p, Granted(pids, grants, p)) else SameEntry(before, after, p)
  }

  ghost predicate AllBound(before: map<Pid, Assoc>, after: map<Pid, Assoc>, a: App, pids: seq<Pid>, grants: seq<bool>)
    requires |pids| == |grants|
  {
    forall p :: Bound(before, after, a, pids, grants, p)
  }

  lemma GrantedEither(ps: seq<Pid>, gs: seq<bool>, qs: seq<Pid>, hs: seq<bool>, p: Pid)
    requires |ps| == |gs| && |qs| == |hs|
    ensures Granted(ps + qs, gs + hs, p) <==> Granted(ps, gs, p) || Granted(qs, hs, p)
  {
    if Granted(ps, gs, p) {
      var i :| 0 <= i < |ps| && ps[i] == p && gs[i];
      assert (ps + qs)[i] == p && (gs + hs)[i];
    }
    if Granted(qs, hs, p) {
      var i :| 0 <= i < |qs| && qs[i] == p && hs[i];
      assert (ps + qs)[|ps| + i] == p && (gs + hs)[|ps| + i];
    }
  }

  // Binding some and then others is binding all of them.
  lemma BoundTwice(t0: map<Pid, Assoc>, t1: map<Pid, Assoc>, t2: map<Pid, Assoc>, a: App,
                   ps: seq<Pid>, gs: seq<bool>, qs: seq<Pid>, hs: seq<bool>, p: Pid)
    requires |ps| == |gs| && |qs| == |hs|
    requires Bound(t0, t1, a, ps, gs, p) && Bound(t1, t2, a, qs, hs, p)
    ensures Bound(t0, t2, a, ps + qs, gs + hs, p)
  {
    GrantedEither(ps, gs, qs, hs, p);
    assert p !in ps ==> !Granted(ps, gs, p);
    assert p !in qs ==> !Granted(qs, hs, p);
  }

  lemma AllBoundTwice(t0: map<Pid, Assoc>, t1: map<Pid, Assoc>, t2: map<Pid, Assoc>, a: App,
                      ps: seq<Pid>, gs: seq<bool>, qs: seq<Pid>, hs: seq<bool>)
    requires |ps| == |gs| && |qs| == |hs|
    requires AllBound(t0, t1, a, ps, gs) && AllBound(t1, t2, a, qs, hs)
    ensures AllBound(t0, t2, a, ps + qs, gs + hs)
  {
    forall p
      ensures Bound(t0, t2, a, ps + qs, gs + hs, p)
    {
      BoundTwice(t0, t1, t2, a, ps, gs, qs, hs, p);
    }
  }

  lemma BoundOne(before: map<Pid, Assoc>, after: map<Pid, Assoc>, a: App, q: Pid, given: bool, p: Pid)
    requires if p == q then Outcome(before, after, a, q, given) else SameEntry(before, after, p)
    ensures Bound(before, after, a, [q], [given], p)
  {
    assert [q][0] == q && [given][0] == given;
    assert Granted([q], [given], q) <==> given;
  }

  // An application of this name and pid is on the list.
  ghost predicate Known(apps: seq<App>, name: string, pid: Pid) {
    exists a :: a in apps && a.name == name && a.pid == pid
  }

  ghost predicate NameTaken(apps: seq<App>, name: string) {
    exists a :: a in apps && a.name == name
  }

  // Dropping an application no entry points to leaves no entry dangling.
  lemma KeepsTargets(apps: seq<App>, i: nat, table: map<Pid, Assoc>)
    requires i < |apps| && Owned(table, apps[i]) == {} && forall p :: p in table ==> table[p].target in apps
    ensures forall p :: p in table ==> table[p].target in apps[..i] + apps[i + 1..]
  {
    forall p | p in table
      ensures table[p].target in apps[..i] + apps[i + 1..]
    {
      assert p !in Owned(table, apps[i]);
      var k :| 0 <= k < |apps| && apps[k] == table[p].target;
      assert (apps[..i] + apps[i + 1..])[if k < i then k else k - 1] == apps[k];
    }
  }

  ghost function Only(table: map<Pid, Assoc>, keep: set<Pid>): map<Pid, Assoc> {
    map p | p in table && p in keep :: table[p]
  }

  lemma OnlyNext(table: map<Pid, Assoc>, todo: set<Pid>, marked: set<Pid>, p: Pid)
    requires p in todo && p in table
    ensures p in Only(table, todo + marked) && Only(table, todo + marked)[p] == table[p]
    ensures p in marked ==> Only(table, todo + marked) == Only(table, todo - {p} + marked)
    ensures p !in marked ==> Only(table, todo + marked) - {p} == Only(table, todo - {p} + marked)
  {
  }

  // What the rest of the program asks of the collector, in any order.
  datatype Call =
    | CallBind(pid: Pid, name: string, tree: bool, descendants: seq<Pid>,
               made: bool, registered: bool, memory: bool, grants: seq<bool>)
    | CallCollect(alive: set<Pid>)

  class Collector {
    var apps: seq<App>
    var table: map<Pid, Assoc>

    ghost predicate ListOk()
      reads this`apps
    {
      forall i, j :: 0 <= i < j < |apps| ==> apps[i] != apps[j] && apps[i].name != apps[j].name
    }

    // No entry points to an application that is not on the list, that is, to a freed one.
    ghost predicate NoneDangling()
      reads this
    {
      forall p :: p in table ==> table[p].target in apps
    }

    ghost predicate CountsExact()
      reads this, apps`processCount
    {
      forall a :: a in apps ==> a.processCount == |Owned(table, a)|
    }

    // Each entry has its own association object.
    ghost predicate Separate()
      reads this`table
    {
      forall p, q :: p in table && q in table && p != q ==> table[p] != table[q]
    }

    ghost predicate Valid()
      reads this, apps`processCount
    {
      ListOk() && NoneDangling() && CountsExact() && Separate()
    }

    // Applications and entries that have joined are new.
    twostate predicate OldOrFresh()
      reads this
    {
      && (forall a :: a in apps ==> a in old(apps) || fresh(a))
      && (forall p :: p in table ==> (p in old(table) && table[p] == old(table)[p]) || fresh(table[p]))
    }

    constructor ()
      ensures Valid() && apps == [] && table == map[]
    {
      apps, table := [], map[];
    }

    // __get_app_status: an application name is bound to one pid; `memory` tells whether the pool can
    // give a new object and `registered` whether its metrics collector can be registered.
    method GetAppStatus(pid: Pid, name: string, memory: bool, registered: bool) returns (r: App?)
      requires Valid()
      modifies this`apps
      ensures Valid() && table == old(table)
      ensures r != null ==> r in apps && r.name == name && r.pid == pid
      ensures r != null && r !in old(apps) ==> fresh(r) && apps == old(apps) + [r]
      ensures r == null || r in old(apps) ==> apps == old(apps)
      ensures r != null <==> Known(old(apps), name, pid) || (!NameTaken(old(apps), name) && memory && registered)
      ensures r != null ==> (r in old(apps) <==> Known(old(apps), name, pid))
      ensures OldOrFresh()
    {
      for i := 0 to |apps|
        invariant forall j :: 0 <= j < i ==> apps[j].name != name
      {
        var a := apps[i];
        if a.name == name && a.pid == pid {
          return a;
        } else if a.name == name {
          return null;
        }
      }
      if !memory || !registered {
        return null;
      }
      r := new App(name, pid);
      apps := apps + [r];
      assert Owned(table, r) == {};
    }

    // __del_app_assoc_process
    method Delete(p: Pid)
      requires Valid() && p in table
      modifies this`table, apps`processCount
      ensures Valid() && table == old(table) - {p}
    {
      var x := table[p];
      forall a | a in apps
        ensures |Owned(table - {p}, a)| == |Owned(table, a)| - (if x.target == a then 1 else 0)
      {
        OwnedDrop(table, p, a);
      }
      table := table - {p};
      x.target.processCount := x.target.processCount - 1;
    }

    method Insert(p: Pid, a: App) returns (x: Assoc)
      requires Valid() && a in apps && p !in table
      modifies this`table, a`processCount
      ensures Valid() && fresh(x) && x.target == a && table == old(table)[p := x]
    {
      x := new Assoc(a);
      forall b | b in apps
        ensures |Owned(table[p := x], b)| == |Owned(table, b)| + (if b == a then 1 else 0)
      {
        OwnedAdd(table, p, x, b);
      }
      table := table[p := x];
      a.processCount := a.processCount + 1;
    }

    // __get_app_assoc_process: afterwards the pid is bound to the application, unless the pool has no
    // memory; a binding to another application is undone first.
    method GetAssoc(a: App, p: Pid, memory: bool) returns (x: Assoc?)
      requires Valid() && a in apps
      modifies this`table, apps`processCount
      ensures Valid()
      ensures forall q :: q != p ==> SameEntry(old(table), table, q)
      ensures x != null ==> p in table && table[p] == x && x.target == a
      ensures x == null ==> p !in table
      ensures x == null <==> !memory && !(p in old(table) && old(table)[p].target == a)
      ensures p in old(table) && old(table)[p].target == a ==> table == old(table)
      ensures AllBound(old(table), table, a, [p], [memory])
      ensures OldOrFresh()
    {
      var keep := Evict(p, a);
      if keep {
        x := table[p];
      } else {
        x := Enter(p, a, memory);
      }
      forall q
        ensures Bound(old(table), table, a, [p], [memory], q)
      {
        BoundOne(old(table), table, a, p, memory, q);
      }
    }

    // An entry that points to another application is deleted.
    method Evict(p: Pid, a: App) returns (keep: bool)
      requires Valid() && a in apps
      modifies this`table, apps`processCount
      ensures Valid() && (keep <==> p in old(table) && old(table)[p].target == a)
      ensures table == if keep then old(table) else old(table) - {p}
    {
      if p !in table {
        return false;
      }
      var x := table[p];
      if x.target.pid == a.pid && x.target.name == a.name {
        SameApp(x.target, a);
        return true;
      }
      Delete(p);
      keep := false;
    }

    // Names are unique on the list.
    lemma SameApp(a: App, b: App)
      requires ListOk() && a in apps && b in apps && a.name == b.name
      ensures a == b
    {
    }

    method Enter(p: Pid, a: App, memory: bool) returns (x: Assoc?)
      requires Valid() && a in apps && p !in table
      modifies this`table, a`processCount
      ensures Valid() && (x == null <==> !memory)
      ensures x == null ==> table == old(table)
      ensures x != null ==> fresh(x) && x.target == a && table == old(table)[p := x]
    {
      if !memory {
        return null;
      }
      x := Insert(p, a);
    }

    // Bind each of `pids` to `a`; `grants` are the answers of the pool, used where they are needed.
    method BindAll(a: App, pids: seq<Pid>, grants: seq<bool>)
      requires Valid() && a in apps && |pids| == |grants|
      modifies this`table, apps`processCount
      ensures Valid()
      ensures AllBound(old(table), table, a, pids, grants)
      ensures OldOrFresh()
    {
      for i := 0 to |pids|
        invariant Valid() && OldOrFresh()
        invariant AllBound(old(table), table, a, pids[..i], grants[..i])
      {
        assert pids[..i + 1] == pids[..i] + [pids[i]] && grants[..i + 1] == grants[..i] + [grants[i]];
        BindNext(a, pids[i], grants[i], old(table), pids[..i], grants[..i]);
      }
      assert pids[..|pids|] == pids && grants[..|pids|] == grants;
    }

    method BindNext(a: App, p: Pid, given: bool, ghost before: map<Pid, Assoc>, ghost pids: seq<Pid>, ghost grants: seq<bool>)
      requires Valid() && a in apps && |pids| == |grants| && AllBound(before, table, a, pids, grants)
      modifies this`table, apps`processCount
      ensures Valid() && OldOrFresh() && AllBound(before, table, a, pids + [p], grants + [given])
    {
      ghost var t := table;
      var x := GetAssoc(a, p, given);
      AllBoundTwice(before, t, table, a, pids, grants, [p], [given]);
    }

    // The application can be had: it is on the list, or its name is free and a new one can be made.
    ghost predicate Available(name: string, pid: Pid, made: bool)
      reads this`apps
    {
      Known(apps, name, pid) || (!NameTaken(apps, name) && made)
    }

    // The process has an entry for the application.
    ghost predicate Served(name: string, pid: Pid)
      reads this`table
    {
      pid in table && table[pid].target.name == name && table[pid].target.pid == pid
    }

    // The second half of __match_app_process: bind a process, and under a process-tree rule also its
    // descendants, to the application of the rule that matched.  The pools and the registry answer
    // `made`, `registered`, `memory` and `grants`.
    method Bind(pid: Pid, name: string, tree: bool, descendants: seq<Pid>,
                made: bool, registered: bool, memory: bool, grants: seq<bool>) returns (rc: int)
      requires Valid() && |descendants| == |grants|
      modifies this, apps`processCount
      ensures Valid() && OldOrFresh() && (rc == 0 || rc == -1)
      ensures rc == 0 <==> old(Available(name, pid, made && registered)) && (memory || old(Served(name, pid)))
      ensures rc == 0 ==> Served(name, pid)
      ensures rc == 0 ==> AllBound(old(table), table, table[pid].target,
                                   [pid] + (if tree then descendants else []), [memory] + (if tree then grants else []))
      ensures rc == -1 ==> if old(Available(name, pid, made && registered)) then table == old(table) - {pid} else table == old(table)
      ensures old(apps) <= apps && |apps| == |old(apps)| + if !old(Known(apps, name, pid)) && old(Available(name, pid, made && registered)) then 1 else 0
      ensures old(Available(name, pid, made && registered)) ==> Known(apps, name, pid)
    {
      var a := GetAppStatus(pid, name, made, registered);
      if a == null {
        return -1;
      }
      SameAsServed(a);
      var x := GetAssoc(a, pid, memory);
      if x == null {
        NoneLeft(old(table), table, pid);
        return -1;
      }
      ghost var t := table;
      if tree {
        BindAll(a, descendants, grants);
        AllBoundTwice(old(table), t, table, a, [pid], [memory], descendants, grants);
        assert Bound(t, table, a, descendants, grants, pid);
      } else {
        assert [pid] + [] == [pid] && [memory] + [] == [memory];
      }
      rc := 0;
    }

    lemma SameAsServed(a: App)
      requires Valid() && a in apps
      ensures forall p :: p in table && table[p].target.name == a.name ==> table[p].target == a
    {
    }

    static lemma NoneLeft(before: map<Pid, Assoc>, after: map<Pid, Assoc>, pid: Pid)
      requires pid !in after && forall p :: p != pid ==> SameEntry(before, after, p)
      ensures after == before - {pid}
    {
      forall p | p != pid
        ensures (p in before <==> p in after) && (p in before ==> before[p] == after[p])
      {
        assert SameEntry(before, after, p);
      }
    }

    // The first pass of collecting_apps_usage: `alive` are the pids whose usage could be read and
    // still belongs to their application.
    method MarkAlive(alive: set<Pid>)
      requires Valid()
      modifies table.Values`update
      ensures Valid() && forall p :: p in table ==> (table[p].update <==> p in alive)
    {
      var todo := table.Keys;
      while todo != {}
        invariant todo <= table.Keys
        invariant forall p :: p in table && p !in todo ==> (table[p].update <==> p in alive)
        decreases todo
      {
        var p :| p in todo;
        table[p].update := p in alive;
        todo := todo - {p};
      }
    }

    method DropIfStale(p: Pid)
      requires Valid() && p in table
      modifies this`table, apps`processCount
      ensures Valid() && table == if old(table[p].update) then old(table) else old(table) - {p}
    {
      if !table[p].update {
        Delete(p);
      }
    }

    // The second pass: entries not marked are deleted.
    method DropStale()
      requires Valid()
      modifies this`table, apps`processCount
      ensures Valid()
      ensures forall p :: p in table <==> p in old(table) && old(table)[p].update
      ensures forall p :: p in table ==> table[p] == old(table)[p]
    {
      var todo := table.Keys;
      ghost var t, marked := table, set p | p in table && table[p].update;
      assert table == Only(t, todo + marked);
      while todo != {}
        invariant Valid() && todo <= t.Keys && table == Only(t, todo + marked)
        decreases todo
      {
        var p :| p in todo;
        OnlyNext(t, todo, marked, p);
        DropIfStale(p);
        todo := todo - {p};
      }
    }

    // Free an application that no entry points to.
    method DropAt(i: nat)
      requires Valid() && i < |apps| && apps[i].processCount == 0
      modifies this`apps
      ensures Valid() && apps == old(apps)[..i] + old(apps)[i + 1..]
      ensures forall a :: a in apps ==> a in old(apps)
    {
      assert Owned(table, apps[i]) == {};
      KeepsTargets(apps, i, table);
      apps := apps[..i] + apps[i + 1..];
    }

    // The third pass: applications without processes are freed.
    method DropEmpty()
      requires Valid()
      modifies this`apps
      ensures Valid() && table == old(table)
      ensures apps == WithProcesses(old(apps), table)
      ensures forall a :: a in apps ==> a in old(apps)
    {
      ghost var all := WithProcesses(apps, table);
      WithProcessesStart(apps, table);
      var i := 0;
      while i < |apps|
        invariant i <= |apps| && Valid() && forall a :: a in apps ==> a in old(apps)
        invariant apps[..i] + WithProcesses(apps[i..], table) == all
        decreases |apps| - i
      {
        WithProcessesStep(apps, i, table);
        assert apps[i].processCount == |Owned(table, apps[i])|;
        if apps[i].processCount == 0 {
          DropAt(i);
        } else {
          i := i + 1;
        }
      }
      assert apps[..i] == apps;
    }

    // The cleanup of collecting_apps_usage.
    method CollectUsage(alive: set<Pid>)
      requires Valid()
      modifies this, apps`processCount, table.Values`update
      ensures Valid()
      ensures forall p :: p in table <==> p in old(table) && p in alive
      ensures forall p :: p in table ==> table[p] == old(table)[p]
      ensures apps == WithProcesses(old(apps), table)
      ensures forall a :: a in apps ==> a in old(apps)
    {
      if apps == [] {
        assert forall p :: p !in table;
        return;
      }
      MarkAlive(alive);
      DropStale();
      DropEmpty();
    }

    // free_apps_collector
    method FreeAll()
      requires Valid()
      modifies this, apps`processCount
      ensures Valid() && apps == [] && table == map[]
    {
      var todo := table.Keys;
      while todo != {}
        invariant Valid() && todo == table.Keys && apps == old(apps)
        decreases todo
      {
        var p :| p in todo;
        Delete(p);
        todo := todo - {p};
      }
      while apps != []
        invariant Valid() && table == map[]
        decreases |apps|
      {
        apps := apps[1..];
      }
    }

    // One of these calls.
    method ServeOne(c: Call)
      requires Valid()
      modifies this, apps`processCount, table.Values`update
      ensures Valid() && OldOrFresh()
    {
      match c {
        case CallBind(pid, name, tree, descendants, made, registered, memory, grants) =>
          if |grants| == |descendants| {
            var rc := Bind(pid, name, tree, descendants, made, registered, memory, grants);
          }
        case CallCollect(alive) => CollectUsage(alive);
      }
    }

    // Any sequence of them; what the pools can give is open in each.
    method Serve(calls: seq<Call>)
      requires Valid()
      modifies this, apps`processCount, table.Values`update
      ensures Valid() && OldOrFresh()
    {
      for i := 0 to |calls|
        invariant Valid() && OldOrFresh()
      {
        assert forall k :: 0 <= k < |apps| ==> apps[k] in old(apps) || fresh(apps[k]);
        assert forall x :: x in table.Values ==> x in old(table).Values || fresh(x);
        ServeOne(calls[i]);
      }
    }
  }

  // A run: at every point the counts are exact and no entry points to a freed application.
  method RunProgram(calls: seq<Call>) returns (collector: Collector)
    ensures fresh(collector) && collector.Valid()
  {
    collector := new Collector();
    collector.Serve(calls);
  }

  // The applications some table entry points to, in list order.
  ghost function WithProcesses(apps: seq<App>, table: map<Pid, Assoc>): seq<App> {
    if apps == [] then []
    else (if Owned(table, apps[0]) == {} then [] else [apps[0]]) + WithProcesses(apps[1..], table)
  }

  lemma WithProcessesStart(apps: seq<App>, table: map<Pid, Assoc>)
    ensures apps[..0] + WithProcesses(apps[0..], table) == WithProcesses(apps, table)
  {
    assert apps[0..] == apps;
  }

  lemma WithProcessesStep(apps: seq<App>, i: nat, table: map<Pid, Assoc>)
    requires i < |apps|
    ensures var all, without := apps[..i] + WithProcesses(apps[i..], table), apps[..i] + apps[i + 1..];
            && (|Owned(table, apps[i])| == 0 ==> all == without[..i] + WithProcesses(without[i..], table))
            && (|Owned(table, apps[i])| != 0 ==> all == apps[..i + 1] + WithProcesses(apps[i + 1..], table))
  {
    var without := apps[..i] + apps[i + 1..];
    assert apps[i..][1..] == apps[i + 1..] == without[i..];
    assert without[..i] == apps[..i];
    assert apps[..i + 1] == apps[..i] + [apps[i]];
  }
}
