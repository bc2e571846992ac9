/**
 The cgroup manager of plugin_cgroups/cgroups_mgr.c: a discovery thread and a collector thread that
 share two lists under one mutex.  Every statement that touches shared state is one step, and the
 steps of the two threads interleave freely.  The directory walk, the filter, the registration and
 the C allocator are inputs of the steps.
 */
module Cgroups {
  import opened Seqs

  type Obj = nat // the address of a cgroup object

  datatype Cgroup = Cgroup(id: string, flag: bool)

  datatype Holder = Nobody | Discovery | Collector

  // Where the discovery thread is in __cgroups_discovery_routine.
  datatype DPc =
    | Top              // the loop test
    | WantTest         // before the first lock
    | Test             // holding the mutex: is there anything to do?
    | Waiting          // in the condition wait
    | Clear            // holding the mutex: about to reset the request
    | Release          // holding the mutex: about to release it
    | Decide           // is it time to leave?
    | Unset(at: nat)   // clearing the find flags
    | Walk             // walking the directories
    | WantSweep        // before the second lock
    | Sweep(at: nat)   // holding the mutex: dropping objects not found
    | Copy(at: nat)    // holding the mutex: rebuilding the collection list
    | Left             // the thread has returned

  // Where the collector thread is: in start_discovery, collect_metrics or fini, or between calls.
  datatype CPc =
    | Idle
    | WantStart | Start
    | WantCollect | Visit(at: nat)
    | RaiseExit | RaiseRequest | Join | FreeAll | Gone

  datatype State = State(
    heap: map<Obj, Cgroup>,   // the allocated objects
    discovery: seq<Obj>,
    collection: seq<Obj>,
    count: int,
    request: bool,            // do_discovery
    exit: bool,               // exit_flag
    mutex: Holder,
    d: DPc,
    c: CPc,
    // what the current or latest round has seen
    before: set<string>,      // ids listed when it began
    reported: set<string>,    // ids its walk reported
    admitted: set<string>)    // ids it put on the list

  // ----- Steps

  function Initial(): State {
    State(map[], [], [], 0, false, false, Nobody, Top, Idle, {}, {}, {})
  }

  function Ids(s: State): set<string> {
    set o | o in s.heap :: s.heap[o].id
  }

  function Flagged(s: State, o: Obj, value: bool): map<Obj, Cgroup>
    requires o in s.heap
  {
    s.heap[o := s.heap[o].(flag := value)]
  }

  // The objects whose memory the next statement of a thread reads or writes.
  function Touched(s: State): set<Obj> {
    (match s.d
     case Unset(k) => if k < |s.discovery| then {s.discovery[k]} else {}
     case Walk => set o | o in s.discovery
     case Sweep(_) => set o | o in s.discovery
     case Copy(k) => (if k < |s.discovery| then {s.discovery[k]} else {}) + (set o | o in s.collection)
     case _ => {})
    +
    (match s.c
     case Visit(k) => if k < |s.collection| then {s.collection[k]} else {}
     case FreeAll => set o | o in s.discovery
     case _ => {})
  }

  predicate Allocated(s: State) {
    forall o :: o in Touched(s) ==> o in s.heap
  }

  // A lock or a wake-up has to wait for the mutex, and joining for the thread to have returned.
  predicate DEnabled(s: State) {
    match s.d
    case WantTest => s.mutex == Nobody
    case Waiting => s.mutex == Nobody
    case WantSweep => s.mutex == Nobody
    case Walk => false
    case Left => false
    case _ => true
  }

  function DStep(s: State): State
    requires DEnabled(s) && Allocated(s)
  {
    match s.d
    case Top => s.(d := if s.exit then Left else WantTest)
    case WantTest => s.(mutex := Discovery, d := Test)
    case Test => if s.request then s.(d := Clear) else s.(mutex := Nobody, d := Waiting)
    case Waiting => s.(mutex := Discovery, d := Test)
    case Clear => s.(request := false, d := Release)
    case Release => s.(mutex := Nobody, d := Decide)
    case Decide => if s.exit then s.(d := Left) else s.(d := Unset(0), before := Ids(s), reported := {}, admitted := {})
    case Unset(k) =>
      if k < |s.discovery| then
        assert s.discovery[k] in Touched(s);
        s.(heap := Flagged(s, s.discovery[k], false), d := Unset(k + 1))
      else s.(d := Walk)
    case WantSweep => s.(mutex := Discovery, d := Sweep(0))
    case Sweep(k) =>
      if k < |s.discovery| then
        assert s.discovery[k] in Touched(s);
        if s.heap[s.discovery[k]].flag then s.(d := Sweep(k + 1))
        else s.(heap := s.heap - {s.discovery[k]}, discovery := Remove(s.discovery, k), count := s.count - 1)
      else s.(collection := [], d := Copy(0))
    case Copy(k) =>
      if k < |s.discovery| then s.(collection := s.collection + [s.discovery[k]], d := Copy(k + 1))
      else s.(mutex := Nobody, d := Top)
    case Walk => s
    case Left => s
  }

  // __find_cgroup_obj: the position of the object with the given id.
  function Find(heap: map<Obj, Cgroup>, q: seq<Obj>, id: string): (i: nat)
    requires forall o :: o in q ==> o in heap
    ensures i <= |q|
    ensures i < |q| ==> heap[q[i]].id == id
    ensures forall j :: 0 <= j < i ==> heap[q[j]].id != id
  {
    if q == [] || heap[q[0]].id == id then 0 else 1 + Find(heap, q[1..], id)
  }

  // One directory reported by the walk.  A new id is listed if the cap, the filter and the
  // registration all let it; `addr` is the address the C allocator gives its object.
  function Found(s: State, max: int, id: string, enabled: bool, registered: bool, addr: Obj): State
    requires s.d == Walk && Allocated(s)
  {
    assert forall o :: o in s.discovery ==> o in Touched(s);
    var t := s.(reported := s.reported + {id});
    var i := Find(s.heap, s.discovery, id);
    if i < |s.discovery| then t.(heap := Flagged(s, s.discovery[i], true))
    else if s.count > max || !enabled || !registered then t
    else t.(heap := s.heap[addr := Cgroup(id, true)], discovery := s.discovery + [addr],
            count := s.count + 1, admitted := s.admitted + {id})
  }

  predicate CEnabled(s: State) {
    match s.c
    case Idle => false
    case WantStart => s.mutex == Nobody
    case WantCollect => s.mutex == Nobody
    case Join => s.d == Left
    case Gone => false
    case _ => true
  }

  function CStep(s: State): State
    requires CEnabled(s) && Allocated(s)
  {
    match s.c
    case WantStart => s.(mutex := Collector, c := Start)
    case Start => s.(request := true, mutex := Nobody, c := Idle)
    case WantCollect => s.(mutex := Collector, c := Visit(0))
    case Visit(k) => if k < |s.collection| then s.(c := Visit(k + 1)) else s.(mutex := Nobody, c := Idle)
    case RaiseExit => s.(exit := true, c := RaiseRequest)
    case RaiseRequest => s.(request := true, c := Join)
    case Join => s.(c := FreeAll)
    case FreeAll =>
      if s.discovery == [] then s.(c := Gone)
      else s.(heap := s.heap - {s.discovery[0]}, discovery := s.discovery[1..], count := s.count - 1)
    case Idle => s
    case Gone => s
  }

  datatype Action =
    | ActDiscovery
    | ActFound(id: string, enabled: bool, registered: bool, addr: Obj)
    | ActWalkEnd
    | ActCall(call: CPc) // the collector thread starts one of its three calls
    | ActCollector

  predicate Enabled(s: State, a: Action) {
    match a
    case ActDiscovery => DEnabled(s)
    case ActFound(_, _, _, addr) => s.d == Walk && addr !in s.heap
    case ActWalkEnd => s.d == Walk
    case ActCall(call) => s.c == Idle && (call == WantStart || call == WantCollect || call == RaiseExit)
    case ActCollector => CEnabled(s)
  }

  function Next(s: State, max: int, a: Action): State
    requires Enabled(s, a) && Allocated(s)
  {
    match a
    case ActDiscovery => DStep(s)
    case ActFound(id, enabled, registered, addr) => Found(s, max, id, enabled, registered, addr)
    case ActWalkEnd => s.(d := WantSweep)
    case ActCall(call) => s.(c := call)
    case ActCollector => CStep(s)
  }

  // ----- The invariant

  predicate DHolds(d: DPc) {
    d == Test || d == Clear || d == Release || d.Sweep? || d.Copy?
  }

  predicate CHolds(c: CPc) {
    c == Start || c.Visit?
  }

  // Who is inside a critical section holds the mutex.
  ghost predicate MutexOk(s: State) {
    && (s.mutex == Discovery <==> DHolds(s.d))
    && (s.mutex == Collector <==> CHolds(s.c))
  }

  // The discovery list holds every allocated object once, with distinct ids, and is counted.
  ghost predicate ListOk(s: State) {
    && Distinct(s.discovery)
    && (forall o :: o in s.heap <==> o in s.discovery)
    && (forall o, p :: o in s.heap && p in s.heap && o != p ==> s.heap[o].id != s.heap[p].id)
    && s.count == |s.discovery|
  }

  predicate Closing(c: CPc) {
    c == FreeAll || c == Gone
  }

  // The collection list: a front of the discovery list while new objects are being found, all of it
  // between rounds, anything while the list is swept, and the part copied so far after that.
  ghost predicate CollectionOk(s: State) {
    match s.d
    case Unset(_) => s.collection <= s.discovery
    case Walk => s.collection <= s.discovery
    case WantSweep => s.collection <= s.discovery
    case Sweep(k) => k <= |s.discovery|
    case Copy(k) => k <= |s.discovery| && s.collection == s.discovery[..k]
    case _ => Closing(s.c) || s.collection == s.discovery
  }

  ghost predicate FlagsAreReports(s: State) {
    forall o :: o in s.heap ==> (s.heap[o].flag <==> s.heap[o].id in s.reported)
  }

  // The ids the round may keep and the ids it must keep.
  ghost predicate RoundOk(s: State) {
    match s.d
    case Unset(k) =>
      && k <= |s.discovery| && s.reported == {} && s.admitted == {} && Ids(s) == s.before
      && forall i :: 0 <= i < k && s.discovery[i] in s.heap ==> !s.heap[s.discovery[i]].flag
    case Walk => FlagsAreReports(s) && s.admitted <= s.reported && Ids(s) == s.before + s.admitted
    case WantSweep => FlagsAreReports(s) && s.admitted <= s.reported && Ids(s) == s.before + s.admitted
    case Sweep(k) =>
      && FlagsAreReports(s) && s.admitted <= s.reported && k <= |s.discovery|
      && Ids(s) <= s.before + s.admitted
      && (forall id :: id in s.before + s.admitted && id in s.reported ==> id in Ids(s))
      && (forall i :: 0 <= i < k && s.discovery[i] in s.heap ==> s.heap[s.discovery[i]].flag)
    case Left => true
    case _ => s.admitted <= s.reported && Ids(s) == (s.before * s.reported) + s.admitted
  }

  ghost predicate Inv(s: State, max: int) {
    && MutexOk(s)
    && ListOk(s)
    && (s.count <= max + 1 || s.count <= 0)
    && CollectionOk(s)
    && RoundOk(s)
    && (Closing(s.c) ==> s.d == Left)
  }

  // ----- Safety

  // In every state that satisfies the invariant, both threads only touch allocated objects.
  lemma InvIsSafe(s: State, max: int)
    requires Inv(s, max)
    ensures Allocated(s)
  {
    forall o | o in Touched(s)
      ensures o in s.heap
    {
      match s.c {
        case Visit(k) => assert s.d != Left ==> !DHolds(s.d);
        case _ =>
      }
      assert forall x :: x in s.collection && s.collection <= s.discovery ==> x in s.discovery;
    }
  }

  lemma FlagKeepsList(s: State, o: Obj, value: bool)
    requires ListOk(s) && o in s.heap
    ensures var t := s.(heap := Flagged(s, o, value));
            ListOk(t) && Ids(t) == Ids(s)
  {
    var t := s.(heap := Flagged(s, o, value));
    assert forall p :: p in s.heap ==> t.heap[p].id == s.heap[p].id;
    assert Ids(t) == Ids(s);
  }

  lemma UnsetOne(s: State)
    requires ListOk(s) && RoundOk(s) && s.d.Unset? && s.d.at < |s.discovery| && Allocated(s)
    ensures ListOk(DStep(s)) && RoundOk(DStep(s))
  {
    var k := s.d.at;
    FlagKeepsList(s, s.discovery[k], false);
    var t := s.(heap := Flagged(s, s.discovery[k], false));
    assert forall i :: 0 <= i < k ==> s.discovery[i] != s.discovery[k];
    assert forall i :: 0 <= i <= k && s.discovery[i] in t.heap ==> !t.heap[s.discovery[i]].flag;
  }

  lemma UnsetDone(s: State)
    requires ListOk(s) && RoundOk(s) && s.d.Unset? && s.d.at == |s.discovery| && Allocated(s)
    ensures RoundOk(DStep(s))
  {
    forall o | o in s.heap
      ensures !s.heap[o].flag
    {
      assert o in s.discovery;
      var i :| 0 <= i < |s.discovery| && s.discovery[i] == o;
      assert s.discovery[i] in s.heap;
    }
    assert s.before + s.admitted == s.before;
  }

  lemma UnsetKeeps(s: State, max: int)
    requires Inv(s, max) && s.d.Unset? && Allocated(s)
    ensures Inv(DStep(s), max)
  {
    if s.d.at < |s.discovery| {
      UnsetOne(s);
    } else {
      UnsetDone(s);
    }
  }

  function Dropped(s: State, k: nat): State
    requires k < |s.discovery|
  {
    s.(heap := s.heap - {s.discovery[k]}, discovery := Remove(s.discovery, k), count := s.count - 1)
  }

  lemma DropKeepsList(s: State, k: nat)
    requires ListOk(s) && k < |s.discovery|
    ensures s.discovery[k] in s.heap
    ensures ListOk(Dropped(s, k)) && Ids(Dropped(s, k)) == Ids(s) - {s.heap[s.discovery[k]].id}
  {
    var o := s.discovery[k];
    var t := Dropped(s, k);
    assert o in s.discovery;
    RemoveDistinct(s.discovery, k);
    assert forall p :: p in t.heap <==> p in s.heap && p != o;
    assert forall p :: p in t.heap ==> t.heap[p] == s.heap[p];
    DropIds(s.heap, o);
  }

  lemma DropIds(heap: map<Obj, Cgroup>, o: Obj)
    requires o in heap && forall p, q :: p in heap && q in heap && p != q ==> heap[p].id != heap[q].id
    ensures (set p | p in heap - {o} :: (heap - {o})[p].id) == (set p | p in heap :: heap[p].id) - {heap[o].id}
  {
    var rest, ids := heap - {o}, set p | p in heap :: heap[p].id;
    forall id | id in ids && id != heap[o].id
      ensures id in (set p | p in rest :: rest[p].id)
    {
      var p :| p in heap && heap[p].id == id;
      assert p in rest;
    }
  }

  lemma SweepOne(s: State)
    requires ListOk(s) && RoundOk(s) && s.d.Sweep? && s.d.at < |s.discovery| && Allocated(s)
    ensures ListOk(DStep(s)) && RoundOk(DStep(s))
  {
    var k := s.d.at;
    DropKeepsList(s, k);
    var o := s.discovery[k];
    if !s.heap[o].flag {
      var t := DStep(s);
      assert t == Dropped(s, k);
      assert forall i :: 0 <= i < k ==> t.discovery[i] == s.discovery[i];
    }
  }

  lemma SweepDone(s: State)
    requires ListOk(s) && RoundOk(s) && s.d.Sweep? && s.d.at == |s.discovery| && Allocated(s)
    ensures RoundOk(DStep(s))
  {
    forall id | id in Ids(s)
      ensures id in s.reported
    {
      var o :| o in s.heap && s.heap[o].id == id;
      assert o in s.discovery;
      var i :| 0 <= i < |s.discovery| && s.discovery[i] == o;
      assert s.heap[s.discovery[i]].flag;
    }
    assert Ids(s) == (s.before * s.reported) + s.admitted;
  }

  lemma SweepKeeps(s: State, max: int)
    requires Inv(s, max) && s.d.Sweep? && Allocated(s)
    ensures Inv(DStep(s), max)
  {
    if s.d.at < |s.discovery| {
      SweepOne(s);
    } else {
      SweepDone(s);
    }
  }

  lemma CopyKeeps(s: State, max: int)
    requires Inv(s, max) && s.d.Copy? && Allocated(s)
    ensures Inv(DStep(s), max)
  {
    var k := s.d.at;
    if k < |s.discovery| {
      assert s.discovery[..k] + [s.discovery[k]] == s.discovery[..k + 1];
    }
  }

  lemma DStepKeeps(s: State, max: int)
    requires Inv(s, max) && DEnabled(s) && Allocated(s)
    ensures Inv(DStep(s), max)
  {
    if s.d.Unset? {
      UnsetKeeps(s, max);
    } else if s.d.Sweep? {
      SweepKeeps(s, max);
    } else if s.d.Copy? {
      CopyKeeps(s, max);
    } else if s.d != Decide {
      SameData(s, DStep(s));
    }
  }

  lemma FoundKnown(s: State, i: nat)
    requires ListOk(s) && RoundOk(s) && s.d == Walk && i < |s.discovery| && s.discovery[i] in s.heap
    ensures var o := s.discovery[i];
            var t := s.(heap := Flagged(s, o, true), reported := s.reported + {s.heap[o].id});
            ListOk(t) && RoundOk(t)
  {
    FlagKeepsList(s, s.discovery[i], true);
  }

  lemma FoundRejected(s: State, id: string)
    requires RoundOk(s) && s.d == Walk && (forall o :: o in s.heap ==> s.heap[o].id != id)
    ensures RoundOk(s.(reported := s.reported + {id}))
  {
  }

  // A new object with this id joins.
  function Joined(s: State, id: string, addr: Obj): State {
    s.(heap := s.heap[addr := Cgroup(id, true)], discovery := s.discovery + [addr],
       count := s.count + 1, reported := s.reported + {id}, admitted := s.admitted + {id})
  }

  lemma JoinedList(s: State, id: string, addr: Obj)
    requires ListOk(s) && addr !in s.heap && forall o :: o in s.heap ==> s.heap[o].id != id
    ensures ListOk(Joined(s, id, addr)) && Ids(Joined(s, id, addr)) == Ids(s) + {id}
  {
    var t := Joined(s, id, addr);
    assert forall o :: o in t.discovery <==> o in s.discovery || o == addr;
    assert forall o :: o in s.heap ==> t.heap[o] == s.heap[o];
    assert t.heap[addr].id == id;
  }

  lemma FoundNew(s: State, id: string, addr: Obj)
    requires ListOk(s) && RoundOk(s) && s.d == Walk && addr !in s.heap
    requires forall o :: o in s.heap ==> s.heap[o].id != id
    ensures ListOk(Joined(s, id, addr)) && RoundOk(Joined(s, id, addr))
  {
    JoinedList(s, id, addr);
  }

  lemma FoundKeeps(s: State, max: int, id: string, enabled: bool, registered: bool, addr: Obj)
    requires Inv(s, max) && s.d == Walk && addr !in s.heap && Allocated(s)
    ensures Inv(Found(s, max, id, enabled, registered, addr), max)
  {
    var i := Find(s.heap, s.discovery, id);
    if i < |s.discovery| {
      FoundKnown(s, i);
    } else {
      assert forall o :: o in s.heap ==> o in s.discovery && s.heap[o].id != id;
      FoundRejected(s, id);
      FoundNew(s, id, addr);
    }
  }

  // Taking or releasing the mutex, raising a flag or moving on changes no list.
  lemma SameData(s: State, t: State)
    requires t == s.(mutex := t.mutex, d := t.d, c := t.c, request := t.request, exit := t.exit) && ListOk(s)
    ensures ListOk(t) && Ids(t) == Ids(s)
    ensures t.d == s.d && RoundOk(s) ==> RoundOk(t)
  {
  }

  lemma FreeOneKeeps(s: State, max: int)
    requires Inv(s, max) && s.c == FreeAll && s.discovery != [] && Allocated(s)
    ensures Inv(CStep(s), max)
  {
    DropKeepsList(s, 0);
    assert CStep(s) == Dropped(s, 0);
  }

  lemma CStepKeeps(s: State, max: int)
    requires Inv(s, max) && CEnabled(s) && Allocated(s)
    ensures Inv(CStep(s), max)
  {
    if s.c == FreeAll && s.discovery != [] {
      FreeOneKeeps(s, max);
    } else {
      SameData(s, CStep(s));
    }
  }

  lemma NextKeeps(s: State, max: int, a: Action)
    requires Inv(s, max) && Enabled(s, a) && Allocated(s)
    ensures Inv(Next(s, max, a), max)
  {
    match a {
      case ActDiscovery => DStepKeeps(s, max);
      case ActFound(id, enabled, registered, addr) => FoundKeeps(s, max, id, enabled, registered, addr);
      case ActWalkEnd =>
      case ActCall(_) =>
      case ActCollector => CStepKeeps(s, max);
    }
  }

  // ----- Every interleaving

  ghost predicate Follows(s: State, max: int, a: Action, t: State) {
    Enabled(s, a) && (Allocated(s) ==> t == Next(s, max, a))
  }

  // `ss` are the states of a run and `acts` the actions between them; a step that touches freed
  // memory may lead anywhere.
  ghost predicate IsRun(max: int, ss: seq<State>, acts: seq<Action>) {
    && |ss| == |acts| + 1 && ss[0] == Initial()
    && forall k :: 0 <= k < |acts| ==> Follows(ss[k], max, acts[k], ss[k + 1])
  }

  // In every interleaving, every object either thread touches is still allocated; in particular the
  // ones the collector visits while it holds the mutex.
  lemma {:induction false} EveryRunIsSafe(max: int, ss: seq<State>, acts: seq<Action>, k: nat)
    requires IsRun(max, ss, acts) && k < |ss|
    ensures Inv(ss[k], max) && Allocated(ss[k])
  {
    if k == 0 {
      assert Ids(ss[0]) == (ss[0].before * ss[0].reported) + ss[0].admitted;
    } else {
      EveryRunIsSafe(max, ss, acts, k - 1);
      assert Follows(ss[k - 1], max, acts[k - 1], ss[k]);
      NextKeeps(ss[k - 1], max, acts[k - 1]);
    }
    InvIsSafe(ss[k], max);
  }

  // The collector, holding the mutex in the middle of a collection, visits an allocated object.
  lemma CollectorVisitsAllocated(max: int, ss: seq<State>, acts: seq<Action>, k: nat)
    requires IsRun(max, ss, acts) && k < |ss| && ss[k].c.Visit? && ss[k].c.at < |ss[k].collection|
    ensures ss[k].mutex == Collector && ss[k].collection[ss[k].c.at] in ss[k].heap
  {
    EveryRunIsSafe(max, ss, acts, k);
    assert ss[k].collection[ss[k].c.at] in Touched(ss[k]);
  }

  // A round is over when the collection list has been rebuilt.
  ghost predicate RoundOver(s: State) {
    s.d.Copy? && s.d.at == |s.discovery|
  }

  // An object with this id is on the list.
  ghost predicate Listed(s: State, id: string) {
    exists i :: 0 <= i < |s.discovery| && s.discovery[i] in s.heap && s.heap[s.discovery[i]].id == id
  }

  lemma ListedIds(s: State, id: string)
    requires ListOk(s)
    ensures Listed(s, id) <==> id in Ids(s)
  {
    if id in Ids(s) {
      var o :| o in s.heap && s.heap[o].id == id;
      var i :| 0 <= i < |s.discovery| && s.discovery[i] == o;
      assert s.heap[s.discovery[i]].id == id;
    }
  }

  // ----- What a round has to do with its walk

  // The discovery thread begins a round.
  ghost predicate Begins(s: State, a: Action) {
    a == ActDiscovery && s.d == Decide && !s.exit
  }

  // Action `b` began the round that goes on in state `k`.
  ghost predicate RoundFrom(ss: seq<State>, acts: seq<Action>, b: nat, k: nat) {
    && b < k <= |acts| < |ss| && Begins(ss[b], acts[b])
    && forall i :: b < i < k ==> !Begins(ss[i], acts[i])
  }

  // The walk reports a directory with this id.
  ghost predicate Reports(a: Action, id: string) {
    a.ActFound? && a.id == id
  }

  // It does, the id is new, and the cap, the filter and the registration let it in.
  ghost predicate Admits(max: int, s: State, a: Action, id: string) {
    Reports(a, id) && !Listed(s, id) && s.count <= max && a.enabled && a.registered
  }

  ghost predicate Reported(acts: seq<Action>, b: nat, k: nat, id: string)
    requires k <= |acts|
  {
    exists j :: b < j < k && Reports(acts[j], id)
  }

  ghost predicate Admitted(max: int, ss: seq<State>, acts: seq<Action>, b: nat, k: nat, id: string)
    requires k <= |acts| < |ss|
  {
    exists j :: b < j < k && Admits(max, ss[j], acts[j], id)
  }

  // The history variables say of `id` what happened to it in the round.
  ghost predicate History(max: int, ss: seq<State>, acts: seq<Action>, b: nat, k: nat, id: string)
    requires b < k <= |acts| < |ss|
  {
    && (id in ss[k].before <==> Listed(ss[b], id))
    && (id in ss[k].reported <==> Reported(acts, b, k, id))
    && (id in ss[k].admitted <==> Admitted(max, ss, acts, b, k, id))
  }

  // What an action does to the history variables.
  ghost predicate Tracks(max: int, s: State, a: Action, t: State, id: string) {
    if Begins(s, a) then (id in t.before <==> Listed(s, id)) && t.reported == {} && t.admitted == {}
    else
      && t.before == s.before
      && (id in t.reported <==> id in s.reported || Reports(a, id))
      && (id in t.admitted <==> id in s.admitted || Admits(max, s, a, id))
  }

  lemma FoundTracks(s: State, max: int, a: Action, id: string)
    requires Inv(s, max) && a.ActFound? && Enabled(s, a) && Allocated(s)
    ensures Tracks(max, s, a, Next(s, max, a), id)
  {
    assert forall o :: o in s.discovery ==> o in Touched(s);
    var i := Find(s.heap, s.discovery, a.id);
    assert i < |s.discovery| ==> s.discovery[i] in s.discovery;
    assert Listed(s, a.id) <==> i < |s.discovery|;
  }

  lemma DStepTracks(s: State, max: int, id: string)
    requires Inv(s, max) && DEnabled(s) && Allocated(s)
    ensures Tracks(max, s, ActDiscovery, DStep(s), id)
  {
    ListedIds(s, id);
  }

  lemma NextTracks(s: State, max: int, a: Action, id: string)
    requires Inv(s, max) && Enabled(s, a) && Allocated(s)
    ensures Tracks(max, s, a, Next(s, max, a), id)
  {
    if a.ActFound? {
      FoundTracks(s, max, a, id);
    } else if a == ActDiscovery {
      DStepTracks(s, max, id);
    }
  }

  lemma RunTracks(max: int, ss: seq<State>, acts: seq<Action>, k: nat, id: string)
    requires IsRun(max, ss, acts) && k < |acts|
    ensures Tracks(max, ss[k], acts[k], ss[k + 1], id)
  {
    EveryRunIsSafe(max, ss, acts, k);
    assert Follows(ss[k], max, acts[k], ss[k + 1]);
    NextTracks(ss[k], max, acts[k], id);
  }

  lemma NextReported(acts: seq<Action>, b: nat, k: nat, id: string)
    requires b < k < |acts|
    ensures Reported(acts, b, k + 1, id) <==> Reported(acts, b, k, id) || Reports(acts[k], id)
  {
  }

  lemma NextAdmitted(max: int, ss: seq<State>, acts: seq<Action>, b: nat, k: nat, id: string)
    requires b < k < |acts| < |ss|
    ensures Admitted(max, ss, acts, b, k + 1, id) <==> Admitted(max, ss, acts, b, k, id) || Admits(max, ss[k], acts[k], id)
  {
  }

  // What the history of the round says, in terms of its actions.
  lemma {:induction false} RoundHistory(max: int, ss: seq<State>, acts: seq<Action>, b: nat, k: nat, id: string)
    requires RoundFrom(ss, acts, b, k)
    requires forall j :: b <= j < k ==> Tracks(max, ss[j], acts[j], ss[j + 1], id)
    ensures History(max, ss, acts, b, k, id)
    decreases k
  {
    assert Tracks(max, ss[k - 1], acts[k - 1], ss[k], id);
    if b < k - 1 {
      RoundHistory(max, ss, acts, b, k - 1, id);
      NextReported(acts, b, k - 1, id);
      NextAdmitted(max, ss, acts, b, k - 1, id);
    }
  }

  lemma RunHistory(max: int, ss: seq<State>, acts: seq<Action>, b: nat, k: nat, id: string)
    requires IsRun(max, ss, acts) && RoundFrom(ss, acts, b, k)
    ensures History(max, ss, acts, b, k, id)
  {
    forall j | b <= j < k
      ensures Tracks(max, ss[j], acts[j], ss[j + 1], id)
    {
      RunTracks(max, ss, acts, j, id);
    }
    RoundHistory(max, ss, acts, b, k, id);
  }

  ghost predicate InRound(d: DPc) {
    d.Unset? || d == Walk || d == WantSweep || d.Sweep? || d.Copy?
  }

  lemma {:induction false} RoundHasBegun(max: int, ss: seq<State>, acts: seq<Action>, k: nat) returns (b: nat)
    requires IsRun(max, ss, acts) && k < |ss| && InRound(ss[k].d)
    ensures RoundFrom(ss, acts, b, k)
  {
    EveryRunIsSafe(max, ss, acts, k - 1);
    assert Follows(ss[k - 1], max, acts[k - 1], ss[k]);
    if Begins(ss[k - 1], acts[k - 1]) {
      b := k - 1;
    } else {
      b := RoundHasBegun(max, ss, acts, k - 1);
    }
  }

  // When a round is over the two lists agree and hold, once each, exactly the ids its walk reported
  // that were listed when it began and those it admitted; the count is their number, within the cap.
  lemma RoundResult(max: int, ss: seq<State>, acts: seq<Action>, k: nat) returns (b: nat)
    requires IsRun(max, ss, acts) && k < |ss| && RoundOver(ss[k])
    ensures RoundFrom(ss, acts, b, k)
    ensures var s := ss[k];
            && s.collection == s.discovery && Distinct(s.discovery)
            && (forall i :: 0 <= i < |s.discovery| ==> s.discovery[i] in s.heap)
            && (forall i, j :: 0 <= i < j < |s.discovery| ==> s.heap[s.discovery[i]].id != s.heap[s.discovery[j]].id)
            && (forall id :: Listed(s, id) <==>
                               (Listed(ss[b], id) && Reported(acts, b, k, id)) || Admitted(max, ss, acts, b, k, id))
            && s.count == |s.discovery| && (s.count <= max + 1 || s.count == 0)
  {
    EveryRunIsSafe(max, ss, acts, k);
    b := RoundHasBegun(max, ss, acts, k);
    forall id
      ensures Listed(ss[k], id) <==> (Listed(ss[b], id) && Reported(acts, b, k, id)) || Admitted(max, ss, acts, b, k, id)
    {
      ListedIds(ss[k], id);
      RunHistory(max, ss, acts, b, k, id);
    }
  }

  // ----- What a collection has to do with its list

  // The collector takes the mutex to collect.
  ghost predicate Takes(s: State, a: Action) {
    a == ActCollector && s.c == WantCollect
  }

  // It reads the metrics of object `i` of the collection list.
  ghost predicate Reads(s: State, a: Action, i: nat) {
    a == ActCollector && s.c == Visit(i) && i < |s.collection|
  }

  // It gives the mutex back.
  ghost predicate GivesBack(s: State, a: Action, t: State) {
    a == ActCollector && s.mutex == Collector && t.mutex != Collector
  }

  // Action `b` takes the mutex for a collection that goes on in state `k`.
  ghost predicate Collecting(ss: seq<State>, acts: seq<Action>, b: nat, k: nat) {
    && b < k <= |acts| < |ss| && Takes(ss[b], acts[b])
    && forall j :: b <= j < k ==> !GivesBack(ss[j], acts[j], ss[j + 1])
  }

  ghost predicate HasRead(ss: seq<State>, acts: seq<Action>, b: nat, k: nat, i: nat)
    requires k <= |acts| < |ss|
  {
    exists j :: b < j < k && Reads(ss[j], acts[j], i)
  }

  // Under way: the list is the one the collection found, and the objects in front of the one in turn
  // have been read.
  ghost predicate UnderWay(ss: seq<State>, acts: seq<Action>, b: nat, k: nat)
    requires b < k <= |acts| < |ss|
  {
    var s := ss[k];
    && s.mutex == Collector && s.c.Visit? && s.c.at <= |s.collection| && s.collection == ss[b].collection
    && forall i: nat :: i < s.c.at ==> HasRead(ss, acts, b, k, i)
  }

  // What an action does to a collection that is under way and does not end by it.
  ghost predicate CarriesOn(s: State, a: Action, t: State) {
    && s.c.Visit? && t.mutex == Collector && t.c.Visit? && t.collection == s.collection
    && if a == ActCollector then s.c.at < |s.collection| && t.c.at == s.c.at + 1 else t.c == s.c
  }

  lemma NextCarriesOn(s: State, max: int, a: Action)
    requires Inv(s, max) && Enabled(s, a) && Allocated(s) && s.c.Visit? && s.c.at <= |s.collection|
    ensures var t := Next(s, max, a); CarriesOn(s, a, t) || (GivesBack(s, a, t) && s.c.at == |s.collection|)
  {
  }

  lemma RunCarriesOn(max: int, ss: seq<State>, acts: seq<Action>, k: nat)
    requires IsRun(max, ss, acts) && k < |acts| && ss[k].c.Visit? && ss[k].c.at <= |ss[k].collection|
    ensures CarriesOn(ss[k], acts[k], ss[k + 1]) || (GivesBack(ss[k], acts[k], ss[k + 1]) && ss[k].c.at == |ss[k].collection|)
  {
    EveryRunIsSafe(max, ss, acts, k);
    assert Follows(ss[k], max, acts[k], ss[k + 1]);
    NextCarriesOn(ss[k], max, acts[k]);
  }

  lemma RunTakes(max: int, ss: seq<State>, acts: seq<Action>, b: nat)
    requires IsRun(max, ss, acts) && b < |acts| && Takes(ss[b], acts[b])
    ensures var t := ss[b + 1]; t.mutex == Collector && t.c == Visit(0) && t.collection == ss[b].collection
  {
    EveryRunIsSafe(max, ss, acts, b);
    assert Follows(ss[b], max, acts[b], ss[b + 1]);
  }

  lemma ReadNext(ss: seq<State>, acts: seq<Action>, b: nat, k: nat)
    requires b < k < |acts| < |ss| && UnderWay(ss, acts, b, k) && CarriesOn(ss[k], acts[k], ss[k + 1])
    ensures UnderWay(ss, acts, b, k + 1)
  {
    var e := k + 1;
    forall i: nat | i < ss[e].c.at
      ensures HasRead(ss, acts, b, e, i)
    {
      if i < ss[k].c.at {
        assert HasRead(ss, acts, b, k, i);
      } else {
        assert Reads(ss[k], acts[k], i);
      }
    }
  }

  // While it goes on, nobody changes the list it goes through.
  lemma {:induction false} CollectionUnderWay(max: int, ss: seq<State>, acts: seq<Action>, b: nat, k: nat)
    requires IsRun(max, ss, acts) && Collecting(ss, acts, b, k)
    ensures UnderWay(ss, acts, b, k)
    decreases k
  {
    if k == b + 1 {
      RunTakes(max, ss, acts, b);
    } else {
      CollectionUnderWay(max, ss, acts, b, k - 1);
      RunCarriesOn(max, ss, acts, k - 1);
      assert !GivesBack(ss[k - 1], acts[k - 1], ss[k]);
      ReadNext(ss, acts, b, k - 1);
    }
  }

  // The reads of a collection go forward through the list, one object each.
  lemma {:induction false} ReadsGoForward(max: int, ss: seq<State>, acts: seq<Action>, b: nat, j: nat, k: nat)
    requires IsRun(max, ss, acts) && Collecting(ss, acts, b, k) && b < j < k && acts[j] == ActCollector
    ensures ss[j].c.Visit? && ss[k].c.Visit? && ss[j].c.at < ss[k].c.at
    decreases k
  {
    assert Collecting(ss, acts, b, j);
    CollectionUnderWay(max, ss, acts, b, k - 1);
    RunCarriesOn(max, ss, acts, k - 1);
    assert !GivesBack(ss[k - 1], acts[k - 1], ss[k]);
    if j < k - 1 {
      ReadsGoForward(max, ss, acts, b, j, k - 1);
    }
  }

  // Of two steps of the collector the later one reads a later object.
  ghost predicate InOrder(ss: seq<State>, acts: seq<Action>, j: int, j': int)
    requires 0 <= j < j' < |acts| < |ss|
  {
    acts[j] == ActCollector && acts[j'] == ActCollector ==> ss[j].c.Visit? && ss[j'].c.Visit? && ss[j].c.at < ss[j'].c.at
  }

  // Between taking the mutex for a collection and giving it back, the collector reads every object of
  // the list, each once, in the order of the list, and the list stays as it was.
  lemma CollectionReadsAll(max: int, ss: seq<State>, acts: seq<Action>, b: nat, e: nat)
    requires IsRun(max, ss, acts) && e < |acts| && Collecting(ss, acts, b, e) && GivesBack(ss[e], acts[e], ss[e + 1])
    ensures forall j :: b < j <= e ==> ss[j].mutex == Collector && ss[j].collection == ss[b].collection
    ensures forall i: nat :: i < |ss[b].collection| ==> HasRead(ss, acts, b, e, i)
    ensures forall j, j' :: b < j < j' < e ==> InOrder(ss, acts, j, j')
  {
    forall j | b < j <= e
      ensures ss[j].mutex == Collector && ss[j].collection == ss[b].collection
    {
      assert Collecting(ss, acts, b, j);
      CollectionUnderWay(max, ss, acts, b, j);
    }
    CollectionUnderWay(max, ss, acts, b, e);
    RunCarriesOn(max, ss, acts, e);
    forall j, j' | b < j < j' < e
      ensures InOrder(ss, acts, j, j')
    {
      assert Collecting(ss, acts, b, j');
      if acts[j] == ActCollector {
        ReadsGoForward(max, ss, acts, b, j, j');
      }
    }
  }

  // ----- What the rounds and the end have to do with the calls

  // A call asks for a round.
  predicate Requests(s: State, a: Action) {
    a == ActCollector && (s.c == Start || s.c == RaiseRequest)
  }

  ghost function RoundsBegun(ss: seq<State>, acts: seq<Action>, k: nat): nat
    requires k <= |acts| < |ss|
  {
    if k == 0 then 0 else RoundsBegun(ss, acts, k - 1) + if Begins(ss[k - 1], acts[k - 1]) then 1 else 0
  }

  ghost function RoundsRequested(ss: seq<State>, acts: seq<Action>, k: nat): nat
    requires k <= |acts| < |ss|
  {
    if k == 0 then 0 else RoundsRequested(ss, acts, k - 1) + if Requests(ss[k - 1], acts[k - 1]) then 1 else 0
  }

  // Requests not yet turned into a round.
  function Pending(s: State): nat {
    (if s.request then 1 else 0) + if s.d == Release || s.d == Decide then 1 else 0
  }

  // An action turns at most what is pending, or what it asks for itself, into a round.
  ghost predicate Balanced(s: State, a: Action, t: State) {
    && (t.d == Clear ==> t.request)
    && Pending(t) + (if Begins(s, a) then 1 else 0) <= Pending(s) + if Requests(s, a) then 1 else 0
  }

  lemma DStepBalanced(s: State)
    requires DEnabled(s) && Allocated(s) && (s.d == Clear ==> s.request)
    ensures Balanced(s, ActDiscovery, DStep(s))
  {
  }

  lemma CStepBalanced(s: State)
    requires CEnabled(s) && Allocated(s) && (s.d == Clear ==> s.request)
    ensures Balanced(s, ActCollector, CStep(s))
  {
  }

  lemma StepBalanced(s: State, max: int, a: Action)
    requires Enabled(s, a) && Allocated(s) && (s.d == Clear ==> s.request)
    ensures Balanced(s, a, Next(s, max, a))
  {
    if a == ActDiscovery {
      DStepBalanced(s);
    } else if a == ActCollector {
      CStepBalanced(s);
    }
  }

  lemma {:induction false} PendingRequests(max: int, ss: seq<State>, acts: seq<Action>, k: nat)
    requires IsRun(max, ss, acts) && k <= |acts|
    ensures ss[k].d == Clear ==> ss[k].request
    ensures RoundsBegun(ss, acts, k) + Pending(ss[k]) <= RoundsRequested(ss, acts, k)
  {
    if k > 0 {
      PendingRequests(max, ss, acts, k - 1);
      EveryRunIsSafe(max, ss, acts, k - 1);
      assert Follows(ss[k - 1], max, acts[k - 1], ss[k]);
      StepBalanced(ss[k - 1], max, acts[k - 1]);
    }
  }

  // No round begins without a request of its own.
  lemma RoundsAreRequested(max: int, ss: seq<State>, acts: seq<Action>, k: nat)
    requires IsRun(max, ss, acts) && k <= |acts|
    ensures RoundsBegun(ss, acts, k) <= RoundsRequested(ss, acts, k)
  {
    PendingRequests(max, ss, acts, k);
  }

  // The discovery thread has left only when it was told to, and the collector is gone only when no
  // object is left.
  ghost predicate CleanEnd(s: State) {
    && (s.d == Left ==> s.exit)
    && (s.c == Gone ==> s.d == Left && s.heap == map[] && s.discovery == [] && s.count == 0)
  }

  lemma StepEnds(s: State, max: int, a: Action)
    requires Inv(s, max) && Enabled(s, a) && Allocated(s) && CleanEnd(s)
    ensures CleanEnd(Next(s, max, a))
  {
    if a == ActCollector {
      CStepEnds(s, max);
    } else if a == ActDiscovery {
      DStepEnds(s);
    }
  }

  lemma DStepEnds(s: State)
    requires DEnabled(s) && Allocated(s) && CleanEnd(s)
    ensures CleanEnd(DStep(s))
  {
  }

  lemma CStepEnds(s: State, max: int)
    requires Inv(s, max) && CEnabled(s) && Allocated(s) && CleanEnd(s)
    ensures CleanEnd(CStep(s))
  {
    assert s.discovery == [] ==> forall o :: o !in s.heap;
  }

  lemma {:induction false} EndIsClean(max: int, ss: seq<State>, acts: seq<Action>, k: nat)
    requires IsRun(max, ss, acts) && k < |ss|
    ensures CleanEnd(ss[k])
  {
    if k > 0 {
      EndIsClean(max, ss, acts, k - 1);
      EveryRunIsSafe(max, ss, acts, k - 1);
      assert Follows(ss[k - 1], max, acts[k - 1], ss[k]);
      StepEnds(ss[k - 1], max, acts[k - 1]);
    }
  }
}
