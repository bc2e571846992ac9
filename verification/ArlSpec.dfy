/**
 The adaptive resortable list of utils/adaptive_resortable_list.c/.h as a machine over values: the
 keyword list as a sequence and the cursor as a position in it.  The linked list in module Arl
 refines this machine; what a whole pass over a source does is proved here.
 */
module ArlSpec {
  import opened Seqs
  import opened Wrappers

  type Dst = nat

  // Where the processor of a keyword puts its result, and how it makes it from the source text.
  datatype Action = Action(dst: Dst, process: string -> int)

  // An entry is either expected by the program or dynamic, created from the source.
  datatype Entry = Entry(name: string, action: Option<Action>, expected: bool, found: bool)

  datatype Arl = Arl(rechecks: nat, iteration: nat, found: nat, expected: nat, wanted: nat,
                     relinkings: nat, allocations: nat, frees: nat, added: nat,
                     entries: seq<Entry>, cursor: nat, store: map<Dst, int>)

  const FAKE := "a-really-not-existing-source-keyword"

  // ----- Operations

  function Create(rechecks: nat, store: map<Dst, int>): Arl {
    Arl(rechecks, 0, 0, 0, 0, 0, 0, 0, 0, [], 0, store)
  }

  function Expect(v: Arl, name: string, action: Option<Action>): Arl {
    v.(entries := [Entry(name, action, true, false)] + v.entries,
       cursor := if v.entries == [] then 0 else v.cursor + 1,
       expected := v.expected + 1, allocations := v.allocations + 1, wanted := v.expected + 1)
  }

  // One turn of the cleaning loop: `kept` entries stay in front, `rest` is still to be looked at.  A
  // dynamic entry not found is dropped unless it is the only one left on the list.
  function Kept(kept: seq<Entry>, rest: seq<Entry>): seq<Entry>
    requires rest != []
  {
    if rest[0].found then kept + [rest[0].(found := false)]
    else if !rest[0].expected && !(kept == [] && |rest| == 1) then kept
    else kept + [rest[0]]
  }

  function Sweep(kept: seq<Entry>, rest: seq<Entry>): (r: seq<Entry>)
    ensures |r| <= |kept| + |rest|
    decreases |rest|
  {
    if rest == [] then kept else Sweep(Kept(kept, rest), rest[1..])
  }

  function CountFound(s: seq<Entry>): nat {
    if s == [] then 0 else (if s[0].found && s[0].expected then 1 else 0) + CountFound(s[1..])
  }

  predicate Rechecks(v: Arl)
    requires v.rechecks > 0
  {
    v.iteration > 0 && v.iteration % v.rechecks == 0
  }

  function Cleaned(v: Arl): Arl
    requires v.rechecks > 0
  {
    if v.iteration > 0 && (v.added > 0 || v.iteration % v.rechecks == 0) then
      var kept := Sweep([], v.entries);
      v.(added := 0,
         wanted := if v.iteration % v.rechecks == 0 then v.expected else CountFound(v.entries),
         entries := kept,
         frees := v.frees + (|v.entries| - |kept|))
    else v
  }

  function Begin(v: Arl): Arl
    requires v.rechecks > 0
  {
    var c := Cleaned(v);
    var d := if c.entries == [] then Expect(c, FAKE, None) else c;
    d.(iteration := d.iteration + 1, cursor := 0, found := 0)
  }

  function Find(s: seq<Entry>, name: string): (j: nat)
    ensures j <= |s|
    ensures j < |s| ==> s[j].name == name
    ensures forall k :: 0 <= k < j ==> s[k].name != name
  {
    if s == [] || s[0].name == name then 0 else 1 + Find(s[1..], name)
  }

  // Run the processor, if the keyword has one, and count it.
  function Process(v: Arl, e: Entry, value: string): Arl {
    match e.action
    case None => v
    case Some(a) => v.(store := v.store[a.dst := a.process(value)], found := v.found + 1)
  }

  function CheckFast(v: Arl, value: string): Arl
    requires v.cursor < |v.entries|
  {
    var e := v.entries[v.cursor];
    Process(v, e, value).(entries := v.entries[v.cursor := e.(found := true)],
                          cursor := if v.cursor + 1 < |v.entries| then v.cursor + 1 else 0)
  }

  // The keyword is elsewhere on the list: it moves in front of the cursor.
  function CheckRelink(v: Arl, j: nat, value: string): Arl
    requires v.cursor < |v.entries| && j < |v.entries| && j != v.cursor
  {
    var e := v.entries[j];
    var c := if j < v.cursor then v.cursor - 1 else v.cursor;
    Process(v, e, value).(entries := Insert(Remove(v.entries, j), c, e.(found := true)),
                          cursor := c + 1, relinkings := v.relinkings + 1)
  }

  function CheckCreate(v: Arl, name: string): Arl
    requires v.cursor < |v.entries|
  {
    v.(entries := Insert(v.entries, v.cursor, Entry(name, None, false, true)),
       cursor := v.cursor + 1, allocations := v.allocations + 1, added := v.added + 1)
  }

  predicate IsFast(v: Arl, name: string)
    requires v.cursor < |v.entries|
  {
    v.entries[v.cursor].name == name
  }

  // arl_check; the flag tells the caller to stop, everything wanted has been found.
  function Check(v: Arl, name: string, value: string): (Arl, bool)
    requires v.cursor < |v.entries|
  {
    var w :=
      if IsFast(v, name) then CheckFast(v, value)
      else
        var j := Find(v.entries, name);
        if j < |v.entries| then CheckRelink(v, j, value) else CheckCreate(v, name);
    (w, w.found == w.wanted)
  }

  // ----- The invariant

  ghost predicate DistinctNames(s: seq<Entry>) {
    forall i, j :: 0 <= i < j < |s| ==> s[i].name != s[j].name
  }

  // What the program registered: the expected keywords with their actions.
  ghost function Registered(s: seq<Entry>): set<(string, Option<Action>)> {
    set e | e in s && e.expected :: (e.name, e.action)
  }

  ghost predicate Ok(v: Arl) {
    && v.rechecks > 0
    && DistinctNames(v.entries)
    && v.allocations == v.frees + |v.entries|
    && v.expected == |Registered(v.entries)|
    && (forall e :: e in v.entries && e.action.Some? ==> e.expected)
    && (v.entries == [] || v.cursor < |v.entries|)
  }

  lemma InsertDistinct(s: seq<Entry>, i: nat, x: Entry)
    requires i <= |s| && DistinctNames(s) && forall e :: e in s ==> e.name != x.name
    ensures DistinctNames(Insert(s, i, x))
  {
  }

  lemma RemoveMembers(s: seq<Entry>, i: nat)
    requires i < |s| && DistinctNames(s)
    ensures DistinctNames(Remove(s, i))
    ensures forall y :: y in Remove(s, i) <==> y in s && y.name != s[i].name
  {
    assert s == s[..i] + [s[i]] + s[i + 1..];
  }

  // ----- Every call keeps the invariant and what was registered

  lemma ExpectKeeps(v: Arl, name: string, action: Option<Action>)
    requires Ok(v) && forall e :: e in v.entries ==> e.name != name
    ensures var w := Expect(v, name, action);
            && Ok(w) && w.wanted == w.expected && w.entries != []
            && Registered(w.entries) == Registered(v.entries) + {(name, action)}
  {
    var x := Entry(name, action, true, false);
    var w := Expect(v, name, action);
    assert forall e :: e in w.entries <==> e == x || e in v.entries;
    assert Registered(w.entries) == Registered(v.entries) + {(name, action)};
  }

  // A registered keyword goes in front, and the cursor stays on its entry.
  lemma ExpectPlaces(v: Arl, name: string, action: Option<Action>)
    requires v.entries != [] ==> v.cursor < |v.entries|
    ensures var w := Expect(v, name, action);
            && w.entries == [Entry(name, action, true, false)] + v.entries
            && w.cursor < |w.entries| && w.entries[w.cursor] == if v.entries == [] then w.entries[0] else v.entries[v.cursor]
  {
  }

  lemma KeptStep(kept: seq<Entry>, rest: seq<Entry>)
    requires rest != [] && DistinctNames(kept + rest)
    requires forall e :: e in kept + rest && e.action.Some? ==> e.expected
    ensures var all' := Kept(kept, rest) + rest[1..];
            && DistinctNames(all') && |all'| <= |kept + rest| && all' != []
            && (forall e :: e in all' && e.action.Some? ==> e.expected)
            && Registered(all') == Registered(kept + rest)
  {
    var kept' := Kept(kept, rest);
    var all, all' := kept + rest, kept' + rest[1..];
    assert forall j :: 0 <= j < |all'| ==> all'[j].name == all[if |kept'| == |kept| && j >= |kept| then j + 1 else j].name;
    assert rest == [rest[0]] + rest[1..];
    assert forall e :: e in all <==> e in kept || e == rest[0] || e in rest[1..];
    assert forall e :: e in all' <==> e in kept' || e in rest[1..];
    assert kept' == kept + kept'[|kept|..];
    assert forall e :: e in kept' <==> e in kept || (|kept'| > |kept| && e == kept'[|kept|]);
    assert Registered(all') == Registered(all);
  }

  // Cleaning keeps every expected entry and at least one entry.
  lemma {:induction false} SweepKeeps(kept: seq<Entry>, rest: seq<Entry>)
    requires DistinctNames(kept + rest)
    requires forall e :: e in kept + rest && e.action.Some? ==> e.expected
    ensures var s := Sweep(kept, rest);
            && DistinctNames(s) && |s| <= |kept + rest|
            && (kept + rest != [] ==> s != [])
            && (forall e :: e in s && e.action.Some? ==> e.expected)
            && Registered(s) == Registered(kept + rest)
    decreases |rest|
  {
    if rest == [] {
      assert kept + rest == kept;
    } else {
      KeptStep(kept, rest);
      SweepKeeps(Kept(kept, rest), rest[1..]);
    }
  }

  lemma SweptKeeps(s: seq<Entry>)
    requires DistinctNames(s) && forall e :: e in s && e.action.Some? ==> e.expected
    ensures var t := Sweep([], s);
            && DistinctNames(t) && |t| <= |s| && (t == [] <==> s == [])
            && (forall e :: e in t && e.action.Some? ==> e.expected)
            && Registered(t) == Registered(s)
  {
    assert [] + s == s;
    SweepKeeps([], s);
  }

  lemma CleanedKeeps(v: Arl)
    requires Ok(v)
    ensures var c := Cleaned(v);
            && Ok(c.(cursor := 0)) && (c.entries == [] <==> v.entries == [])
            && Registered(c.entries) == Registered(v.entries)
  {
    SweptKeeps(v.entries);
  }

  // A pass can start: the cursor is on the first entry, nothing the program registered is lost.
  lemma BeginKeeps(v: Arl)
    requires Ok(v)
    ensures var w := Begin(v);
            && Ok(w) && w.entries != [] && w.cursor == 0 && w.found == 0
            && Registered(v.entries) <= Registered(w.entries)
            && (v.entries != [] ==> Registered(w.entries) == Registered(v.entries) && w.expected == v.expected)
            && (Rechecks(v) ==> w.wanted == w.expected)
            && (v.iteration == 0 && v.wanted == v.expected ==> w.wanted == w.expected)
            && w.store == v.store
  {
    CleanedKeeps(v);
    BeginWants(v);
    var c := Cleaned(v);
    if c.entries == [] {
      ExpectKeeps(c.(cursor := 0), FAKE, None);
    }
  }

  lemma BeginCounts(v: Arl)
    requires Ok(v) && v.entries != []
    ensures Begin(v).relinkings == v.relinkings && Begin(v).allocations == v.allocations
  {
    CleanedKeeps(v);
  }

  lemma BeginWants(v: Arl)
    requires v.rechecks > 0
    ensures Rechecks(v) ==> Begin(v).wanted == Begin(v).expected
    ensures v.iteration == 0 && v.wanted == v.expected ==> Begin(v).wanted == Begin(v).expected
  {
  }

  lemma FindNone(s: seq<Entry>, name: string)
    requires Find(s, name) == |s|
    ensures forall e :: e in s ==> e.name != name
  {
  }

  lemma MoveKeeps(s: seq<Entry>, j: nat, c: nat)
    requires j < |s| && c < |s| && DistinctNames(s)
    requires forall e :: e in s && e.action.Some? ==> e.expected
    ensures var t := Insert(Remove(s, j), c, s[j].(found := true));
            && DistinctNames(t) && Registered(t) == Registered(s)
            && (forall e :: e in t && e.action.Some? ==> e.expected)
  {
    var x := s[j].(found := true);
    var t := Insert(Remove(s, j), c, x);
    RemoveMembers(s, j);
    InsertMembers(Remove(s, j), c, x);
    InsertDistinct(Remove(s, j), c, x);
    assert forall e :: e in t <==> e == x || (e in s && e.name != x.name);
    assert forall e :: e in s ==> e == s[j] || e.name != x.name;
    assert Registered(t) == Registered(s);
  }
  // `w` keeps the invariant, what was registered and what is wanted.
  ghost predicate KeepsAll(v: Arl, w: Arl) {
    && Ok(w) && w.entries != []
    && Registered(w.entries) == Registered(v.entries)
    && w.wanted == v.wanted && w.expected == v.expected
  }

  lemma CheckFastKeeps(v: Arl, value: string)
    requires Ok(v) && v.entries != []
    ensures KeepsAll(v, CheckFast(v, value))
  {
    var e := v.entries[v.cursor];
    assert v.entries[v.cursor := e.(found := true)] == Insert(Remove(v.entries, v.cursor), v.cursor, e.(found := true));
    MoveKeeps(v.entries, v.cursor, v.cursor);
  }

  lemma CheckRelinkKeeps(v: Arl, j: nat, value: string)
    requires Ok(v) && v.entries != [] && j < |v.entries| && j != v.cursor
    ensures KeepsAll(v, CheckRelink(v, j, value))
  {
    var c := if j < v.cursor then v.cursor - 1 else v.cursor;
    MoveKeeps(v.entries, j, c);
    assert CheckRelink(v, j, value).entries == Insert(Remove(v.entries, j), c, v.entries[j].(found := true));
  }

  lemma CheckCreateKeeps(v: Arl, name: string)
    requires Ok(v) && v.entries != [] && Find(v.entries, name) == |v.entries|
    ensures KeepsAll(v, CheckCreate(v, name))
  {
    FindNone(v.entries, name);
    var x := Entry(name, None, false, true);
    InsertMembers(v.entries, v.cursor, x);
    InsertDistinct(v.entries, v.cursor, x);
    assert Registered(CheckCreate(v, name).entries) == Registered(v.entries);
  }

  // Checking any keyword keeps the invariant and what was registered.
  lemma CheckKeeps(v: Arl, name: string, value: string)
    requires Ok(v) && v.entries != []
    ensures KeepsAll(v, Check(v, name, value).0)
  {
    var j := Find(v.entries, name);
    if IsFast(v, name) {
      CheckFastKeeps(v, value);
    } else if j < |v.entries| {
      CheckRelinkKeeps(v, j, value);
    } else {
      CheckCreateKeeps(v, name);
    }
  }

  // ----- A whole pass over a source

  type Source = seq<(string, string)>

  ghost predicate DistinctKeys(src: Source) {
    forall i, j :: 0 <= i < j < |src| ==> src[i].0 != src[j].0
  }

  // A caller feeds the source from line `n` on and stops when told to; the result also says how many
  // lines have been read in all.
  ghost function Pass(v: Arl, src: Source, n: nat): (r: (Arl, nat))
    requires Ok(v) && v.entries != [] && n <= |src|
    ensures Ok(r.0) && r.0.entries != [] && n <= r.1 <= |src|
    decreases |src| - n
  {
    if n == |src| then (v, n)
    else
      CheckKeeps(v, src[n].0, src[n].1);
      var (w, stop) := Check(v, src[n].0, src[n].1);
      if stop then (w, n + 1) else Pass(w, src, n + 1)
  }

  // A check at line `k` keeps `inv`, or else it is the last one and establishes `done`.
  ghost predicate Keeps(src: Source, inv: (Arl, nat) -> bool, done: (Arl, nat) -> bool, v: Arl, k: nat) {
    && Ok(v) && v.entries != [] && k <= |src|
    && (k == |src| ==> done(v, k))
    && (k < |src| ==> var (w, stop) := Check(v, src[k].0, src[k].1); if stop then done(w, k + 1) else inv(w, k + 1))
  }

  // What every check keeps holds until the pass ends.
  lemma {:induction false} PassRule(src: Source, inv: (Arl, nat) -> bool, done: (Arl, nat) -> bool, v: Arl, n: nat)
    requires forall w: Arl, k: nat {:trigger Keeps(src, inv, done, w, k)} :: inv(w, k) ==> Keeps(src, inv, done, w, k)
    requires inv(v, n)
    ensures Ok(v) && v.entries != [] && n <= |src| && done(Pass(v, src, n).0, Pass(v, src, n).1)
    decreases |src| - n
  {
    assert Keeps(src, inv, done, v, n);
    if n < |src| {
      var (w, stop) := Check(v, src[n].0, src[n].1);
      if !stop {
        PassRule(src, inv, done, w, n + 1);
      }
    }
  }

  // The keywords of the first `n` lines.
  ghost function Keys(src: Source, n: nat): set<string>
    requires n <= |src|
  {
    set i | 0 <= i < n :: src[i].0
  }

  lemma KeysNext(src: Source, n: nat)
    requires n < |src| && DistinctKeys(src)
    ensures src[n].0 !in Keys(src, n)
    ensures Keys(src, n + 1) == Keys(src, n) + {src[n].0}
  {
  }

  // A lookup in the dictionary made of the first `n` lines.
  function Lookup(src: Source, n: nat, name: string): Option<string>
    requires n <= |src|
  {
    if n == 0 then None
    else if src[n - 1].0 == name then Some(src[n - 1].1)
    else Lookup(src, n - 1, name)
  }

  // What storing the value looked up, if any, makes of the destination.
  ghost predicate Stores(a: Action, found: Option<string>, before: map<Dst, int>, after: map<Dst, int>) {
    match found
    case Some(value) => a.dst in after && after[a.dst] == a.process(value)
    case None => (a.dst in after <==> a.dst in before) && (a.dst in before ==> after[a.dst] == before[a.dst])
  }

  ghost predicate DistinctDsts(reg: set<(string, Option<Action>)>) {
    forall p, q :: p in reg && q in reg && p != q && p.1.Some? && q.1.Some? ==> p.1.value.dst != q.1.value.dst
  }

  // The registered keywords with an action among the names in `done`.
  ghost function Hits(reg: set<(string, Option<Action>)>, done: set<string>): set<(string, Option<Action>)> {
    set p | p in reg && p.1.Some? && p.0 in done
  }

  // The entry a check acts on, if the keyword is on the list.
  lemma CheckedEntry(v: Arl, name: string, value: string)
    requires Ok(v) && v.entries != []
    ensures var w := Check(v, name, value).0;
            var j := Find(v.entries, name);
            && (j < |v.entries| ==> w.store == Process(v, v.entries[j], value).store && w.found == Process(v, v.entries[j], value).found)
            && (j == |v.entries| ==> w.store == v.store && w.found == v.found)
  {
    var j := Find(v.entries, name);
    if IsFast(v, name) {
      assert j <= v.cursor && v.entries[j].name == name;
      assert j == v.cursor;
    }
  }

  // A check runs the action registered for its keyword, and counts it; otherwise nothing happens.
  lemma CheckRuns(v: Arl, name: string, value: string)
    requires Ok(v) && v.entries != []
    ensures var w := Check(v, name, value).0;
            && (forall a: Action :: (name, Some(a)) in Registered(v.entries) ==>
                  w.store == v.store[a.dst := a.process(value)] && w.found == v.found + 1)
            && ((forall a: Action :: (name, Some(a)) !in Registered(v.entries)) ==> w.store == v.store && w.found == v.found)
  {
    CheckedEntry(v, name, value);
    var j := Find(v.entries, name);
    forall a: Action | (name, Some(a)) in Registered(v.entries)
      ensures j < |v.entries| && v.entries[j].action == Some(a)
    {
      var e :| e in v.entries && e.expected && e.name == name && e.action == Some(a);
      var k :| 0 <= k < |v.entries| && v.entries[k] == e;
      assert j <= k;
    }
    if j < |v.entries| && v.entries[j].action.Some? {
      assert v.entries[j] in v.entries;
      assert (name, v.entries[j].action) in Registered(v.entries);
    }
  }

  lemma RegisteredOnce(s: seq<Entry>, name: string, a: Option<Action>, b: Option<Action>)
    requires DistinctNames(s) && (name, a) in Registered(s) && (name, b) in Registered(s)
    ensures a == b
  {
  }

  // `found` counts the registered keywords met so far.
  lemma CheckCounts(v: Arl, name: string, value: string, done: set<string>)
    requires Ok(v) && v.entries != [] && name !in done
    requires v.found == |Hits(Registered(v.entries), done)|
    ensures Check(v, name, value).0.found == |Hits(Registered(v.entries), done + {name})|
  {
    CheckRuns(v, name, value);
    var reg := Registered(v.entries);
    if a: Action :| (name, Some(a)) in reg {
      forall b | (name, b) in reg
        ensures b == Some(a)
      {
        RegisteredOnce(v.entries, name, Some(a), b);
      }
      assert Hits(reg, done + {name}) == Hits(reg, done) + {(name, Some(a))};
    } else {
      assert Hits(reg, done + {name}) == Hits(reg, done);
    }
  }

  lemma {:induction false} LookupStays(src: Source, n: nat, m: nat, name: string)
    requires n <= m <= |src| && forall k :: n <= k < m ==> src[k].0 != name
    ensures Lookup(src, m, name) == Lookup(src, n, name)
  {
    if n < m {
      LookupStays(src, n, m - 1, name);
    }
  }

  // When everything wanted has been found, all of it has been met.
  lemma AllHit(reg: set<(string, Option<Action>)>, want: set<(string, Option<Action>)>, src: Source, n: nat)
    requires n <= |src| && Hits(reg, Keys(src, |src|)) <= want
    requires |Hits(reg, Keys(src, n))| == |want|
    ensures Hits(reg, Keys(src, n)) == want
  {
    assert Keys(src, n) <= Keys(src, |src|);
    SubsetCard(Hits(reg, Keys(src, n)), want);
  }

  // A keyword that has been met does not come again.
  lemma MetOnce(src: Source, n: nat, name: string)
    requires n <= |src| && DistinctKeys(src) && name in Keys(src, n)
    ensures Lookup(src, |src|, name) == Lookup(src, n, name)
  {
    LookupStays(src, n, |src|, name);
  }

  // Halfway through a pass that wants `want`, among it all that the source has for the registered
  // keywords.
  ghost predicate Counting(v: Arl, want: set<(string, Option<Action>)>, src: Source, n: nat) {
    && Ok(v) && v.entries != [] && n <= |src| && DistinctKeys(src)
    && v.wanted == |want| && Hits(Registered(v.entries), Keys(src, |src|)) <= want
    && v.found == |Hits(Registered(v.entries), Keys(src, n))|
  }

  lemma CountingStep(v: Arl, want: set<(string, Option<Action>)>, src: Source, n: nat)
    requires Counting(v, want, src, n) && n < |src|
    ensures var (w, stop) := Check(v, src[n].0, src[n].1);
            && Counting(w, want, src, n + 1) && Registered(w.entries) == Registered(v.entries)
            && (stop <==> Hits(Registered(v.entries), Keys(src, n + 1)) == want)
  {
    KeysNext(src, n);
    CheckKeeps(v, src[n].0, src[n].1);
    CheckCounts(v, src[n].0, src[n].1, Keys(src, n));
    var (w, stop) := Check(v, src[n].0, src[n].1);
    if stop {
      AllHit(Registered(v.entries), want, src, n + 1);
    }
  }

  // The destination of `a` belongs to the keyword `name` alone.
  ghost predicate HasDst(reg: set<(string, Option<Action>)>, name: string, a: Action) {
    && (name, Some(a)) in reg
    && forall q :: q in reg && q.1.Some? && q.1.value.dst == a.dst ==> q.0 == name
  }

  // A check does to a destination what a dictionary of the one line would.
  lemma CheckStores(v: Arl, key: string, value: string, name: string, a: Action)
    requires Ok(v) && v.entries != [] && HasDst(Registered(v.entries), name, a)
    ensures Stores(a, if key == name then Some(value) else None, v.store, Check(v, key, value).0.store)
  {
    CheckRuns(v, key, value);
    var reg := Registered(v.entries);
    if key != name {
      if b: Action :| (key, Some(b)) in reg {
        assert b.dst != a.dst;
      }
    }
  }

  // When everything has been found, the rest of the source has nothing for a registered keyword.
  lemma StoppedHasAll(reg: set<(string, Option<Action>)>, want: set<(string, Option<Action>)>, src: Source, n: nat, name: string, a: Action)
    requires n <= |src| && DistinctKeys(src) && HasDst(reg, name, a)
    requires Hits(reg, Keys(src, |src|)) <= want && Hits(reg, Keys(src, n)) == want
    ensures Lookup(src, |src|, name) == Lookup(src, n, name)
  {
    var p := (name, Some(a));
    if p.0 in Keys(src, n) {
      MetOnce(src, n, name);
    } else {
      assert p !in Hits(reg, Keys(src, |src|));
      forall k | n <= k < |src|
        ensures src[k].0 != name
      {
        assert src[k].0 in Keys(src, |src|);
      }
      LookupStays(src, n, |src|, name);
    }
  }

  // After `n` lines the destination of `a` is as a dictionary of these lines leaves it.
  ghost predicate Following(w: Arl, want: set<(string, Option<Action>)>, before: map<Dst, int>, src: Source, n: nat, name: string, a: Action) {
    && Counting(w, want, src, n) && HasDst(Registered(w.entries), name, a)
    && Stores(a, Lookup(src, n, name), before, w.store)
  }

  // A pass begins that wants `want`.
  ghost predicate Wants(v: Arl, want: set<(string, Option<Action>)>, src: Source) {
    && Ok(v) && v.entries != [] && v.found == 0 && DistinctKeys(src)
    && v.wanted == |want| && Hits(Registered(v.entries), Keys(src, |src|)) <= want
  }

  lemma FollowingStarts(v: Arl, want: set<(string, Option<Action>)>, src: Source, name: string, a: Action)
    requires Wants(v, want, src)
    requires DistinctDsts(Registered(v.entries)) && (name, Some(a)) in Registered(v.entries)
    ensures Following(v, want, v.store, src, 0, name, a)
  {
    assert Hits(Registered(v.entries), Keys(src, 0)) == {};
  }

  lemma FollowingStep(v: Arl, want: set<(string, Option<Action>)>, before: map<Dst, int>, src: Source, n: nat, name: string, a: Action)
    requires Following(v, want, before, src, n, name, a) && n < |src|
    ensures var (w, stop) := Check(v, src[n].0, src[n].1);
            && Following(w, want, before, src, n + 1, name, a)
            && (stop ==> Followed(w, before, src, name, a))
  {
    var (w, stop) := Check(v, src[n].0, src[n].1);
    CountingStep(v, want, src, n);
    CheckStores(v, src[n].0, src[n].1, name, a);
    if stop {
      StoppedHasAll(Registered(v.entries), want, src, n + 1, name, a);
    }
  }

  // The dictionary of the whole source.
  ghost predicate Followed(w: Arl, before: map<Dst, int>, src: Source, name: string, a: Action) {
    Stores(a, Lookup(src, |src|, name), before, w.store)
  }

  lemma FollowingKeeps(v: Arl, want: set<(string, Option<Action>)>, before: map<Dst, int>, src: Source, n: nat, name: string, a: Action,
                       inv: (Arl, nat) -> bool, done: (Arl, nat) -> bool)
    requires Following(v, want, before, src, n, name, a)
    requires forall w: Arl, k: nat {:trigger inv(w, k)} :: Following(w, want, before, src, k, name, a) ==> inv(w, k)
    requires forall w: Arl, k: nat {:trigger done(w, k)} :: Followed(w, before, src, name, a) ==> done(w, k)
    ensures Keeps(src, inv, done, v, n)
  {
    if n < |src| {
      FollowingStep(v, want, before, src, n, name, a);
    }
  }

  lemma PassFollows(v: Arl, want: set<(string, Option<Action>)>, before: map<Dst, int>, src: Source, name: string, a: Action)
    requires Following(v, want, before, src, 0, name, a)
    ensures Followed(Pass(v, src, 0).0, before, src, name, a)
  {
    var inv := (w: Arl, k: nat) => Following(w, want, before, src, k, name, a);
    var done := (w: Arl, k: nat) => Followed(w, before, src, name, a);
    forall w: Arl, k: nat | inv(w, k)
      ensures Keeps(src, inv, done, w, k)
    {
      FollowingKeeps(w, want, before, src, k, name, a, inv, done);
    }
    PassRule(src, inv, done, v, 0);
  }

  // A pass that wants all that its source has for the registered keywords leaves each registered
  // destination as a dictionary lookup of the source would, whether it stops early or reads everything.
  lemma WantedPassIsDictionary(v: Arl, want: set<(string, Option<Action>)>, src: Source, name: string, a: Action)
    requires Wants(v, want, src) && DistinctDsts(Registered(v.entries)) && (name, Some(a)) in Registered(v.entries)
    ensures Stores(a, Lookup(src, |src|, name), v.store, Pass(v, src, 0).0.store)
  {
    FollowingStarts(v, want, src, name, a);
    PassFollows(v, want, v.store, src, name, a);
  }

  // So does one that wants everything registered.
  lemma PassIsDictionary(v: Arl, src: Source, name: string, a: Action)
    requires Ok(v) && v.entries != [] && v.wanted == v.expected && v.found == 0
    requires DistinctKeys(src) && DistinctDsts(Registered(v.entries))
    requires (name, Some(a)) in Registered(v.entries)
    ensures Stores(a, Lookup(src, |src|, name), v.store, Pass(v, src, 0).0.store)
  {
    WantedPassIsDictionary(v, Registered(v.entries), src, name, a);
  }

  // ----- Where a pass stops

  // All that is wanted has been met after `k` lines.
  ghost predicate Complete(reg: set<(string, Option<Action>)>, want: set<(string, Option<Action>)>, src: Source, k: nat) {
    k <= |src| && Hits(reg, Keys(src, k)) == want
  }

  // After `n` lines without a stop.
  ghost predicate GoingOn(w: Arl, reg: set<(string, Option<Action>)>, want: set<(string, Option<Action>)>, src: Source, n: nat) {
    && Counting(w, want, src, n) && Registered(w.entries) == reg
    && forall k: nat :: 1 <= k <= n ==> !Complete(reg, want, src, k)
  }

  // A pass ends behind the first line that makes it complete, or at the end of the source.
  ghost predicate StopsAt(reg: set<(string, Option<Action>)>, want: set<(string, Option<Action>)>, src: Source, m: nat) {
    && m <= |src| && (m < |src| ==> m >= 1 && Complete(reg, want, src, m))
    && forall k: nat :: 1 <= k < m ==> !Complete(reg, want, src, k)
  }

  lemma StopStep(v: Arl, reg: set<(string, Option<Action>)>, want: set<(string, Option<Action>)>, src: Source, n: nat)
    requires GoingOn(v, reg, want, src, n) && n < |src|
    ensures var (w, stop) := Check(v, src[n].0, src[n].1);
            if stop then StopsAt(reg, want, src, n + 1) else GoingOn(w, reg, want, src, n + 1)
  {
    CountingStep(v, want, src, n);
  }

  lemma StopKeeps(v: Arl, reg: set<(string, Option<Action>)>, want: set<(string, Option<Action>)>, src: Source, n: nat, inv: (Arl, nat) -> bool, done: (Arl, nat) -> bool)
    requires GoingOn(v, reg, want, src, n)
    requires forall w: Arl, k: nat {:trigger inv(w, k)} :: GoingOn(w, reg, want, src, k) ==> inv(w, k)
    requires forall w: Arl, k: nat {:trigger done(w, k)} :: StopsAt(reg, want, src, k) ==> done(w, k)
    ensures Keeps(src, inv, done, v, n)
  {
    if n < |src| {
      StopStep(v, reg, want, src, n);
    }
  }

  lemma PassStops(v: Arl, want: set<(string, Option<Action>)>, src: Source)
    requires Wants(v, want, src)
    ensures StopsAt(Registered(v.entries), want, src, Pass(v, src, 0).1)
  {
    var reg := Registered(v.entries);
    assert Hits(reg, Keys(src, 0)) == {};
    var inv := (w: Arl, k: nat) => GoingOn(w, reg, want, src, k);
    var done := (w: Arl, k: nat) => StopsAt(reg, want, src, k);
    forall w: Arl, k: nat | inv(w, k)
      ensures Keeps(src, inv, done, w, k)
    {
      StopKeeps(w, reg, want, src, k, inv, done);
    }
    PassRule(src, inv, done, v, 0);
  }

  // ----- The list takes the order of the source

  // The list begins with the first `n` keywords of the source.
  ghost predicate Sorted(s: seq<Entry>, src: Source, n: nat) {
    n <= |s| && n <= |src| && forall i :: 0 <= i < n ==> s[i].name == src[i].0
  }

  ghost function Names(s: seq<Entry>): set<string> {
    set e | e in s :: e.name
  }

  // Every registered keyword has a destination.
  ghost predicate AllStored(reg: set<(string, Option<Action>)>) {
    forall p :: p in reg ==> p.1.Some?
  }

  // The keywords of all lines but the last.
  ghost function EarlyKeys(src: Source): set<string> {
    Keys(src, if src == [] then 0 else |src| - 1)
  }

  // What a pass needs to put the list into the order of the source: every registered keyword has a
  // destination, or the list has an entry that is not among the lines in front of the last.
  ghost predicate Sortable(v: Arl, src: Source) {
    AllStored(Registered(v.entries)) || !(Names(v.entries) <= EarlyKeys(src))
  }

  // The state in the middle of a pass, `n` lines in.
  ghost predicate Midway(v: Arl, src: Source, n: nat) {
    && Ok(v) && v.entries != [] && (n < |src| ==> v.cursor == n)
    && Sorted(v.entries, src, n)
    && v.found == |Hits(Registered(v.entries), Keys(src, n))|
  }

  // When every entry of the list is one of the first keywords and more are to come, all wanted are found.
  lemma AllListed(w: Arl, src: Source, n: nat)
    requires Ok(w) && Sortable(w, src) && w.wanted == w.expected && n < |src|
    requires Sorted(w.entries, src, n) && n == |w.entries|
    requires w.found == |Hits(Registered(w.entries), Keys(src, n))|
    ensures w.found == w.wanted
  {
    var reg := Registered(w.entries);
    ListedNames(w.entries, src, n);
    assert Keys(src, n) <= EarlyKeys(src);
    forall p | p in reg
      ensures p in Hits(reg, Keys(src, n))
    {
      assert p.0 in Names(w.entries);
    }
    assert Hits(reg, Keys(src, n)) == reg;
  }

  lemma ListedNames(s: seq<Entry>, src: Source, n: nat)
    requires Sorted(s, src, n) && n == |s|
    ensures Names(s) == Keys(src, n)
  {
    forall e | e in s
      ensures e.name in Keys(src, n)
    {
      var i :| 0 <= i < |s| && s[i] == e;
      assert e.name == src[i].0;
    }
    forall i | 0 <= i < n
      ensures src[i].0 in Names(s)
    {
      assert s[i] in s && s[i].name == src[i].0;
    }
  }

  // The list without the entry called `name`.
  function Others(s: seq<Entry>, name: string): seq<Entry> {
    if s == [] then [] else (if s[0].name == name then [] else [s[0]]) + Others(s[1..], name)
  }

  // The entry in front of the cursor, going round.
  function Behind(v: Arl): Entry
    requires v.cursor < |v.entries|
  {
    v.entries[if v.cursor > 0 then v.cursor - 1 else |v.entries| - 1]
  }

  lemma {:induction false} OthersConcat(s: seq<Entry>, t: seq<Entry>, name: string)
    ensures Others(s + t, name) == Others(s, name) + Others(t, name)
  {
    if s == [] {
      assert s + t == t;
    } else {
      assert (s + t)[1..] == s[1..] + t;
      OthersConcat(s[1..], t, name);
    }
  }

  lemma OthersSkip(x: Entry, t: seq<Entry>)
    ensures Others([x] + t, x.name) == Others(t, x.name)
  {
    assert ([x] + t)[1..] == t;
  }

  lemma OthersBetween(front: seq<Entry>, x: Entry, back: seq<Entry>)
    ensures Others(front + ([x] + back), x.name) == Others(front + back, x.name)
  {
    OthersConcat(front, [x] + back, x.name);
    OthersConcat(front, back, x.name);
    OthersSkip(x, back);
  }

  lemma InsertBetween(s: seq<Entry>, c: nat, x: Entry)
    requires c <= |s|
    ensures Insert(s, c, x) == s[..c] + ([x] + s[c..]) && s == s[..c] + s[c..]
  {
  }

  lemma OthersInsert(s: seq<Entry>, c: nat, x: Entry)
    requires c <= |s|
    ensures Others(Insert(s, c, x), x.name) == Others(s, x.name)
  {
    InsertBetween(s, c, x);
    OthersBetween(s[..c], x, s[c..]);
  }

  lemma OthersMove(s: seq<Entry>, j: nat, c: nat)
    requires j < |s| && c < |s|
    ensures Others(Insert(Remove(s, j), c, s[j].(found := true)), s[j].name) == Others(s, s[j].name)
  {
    OthersInsert(Remove(s, j), c, s[j].(found := true));
    OthersInsert(Remove(s, j), j, s[j]);
    PutBack(s, j);
  }

  // Wherever the cursor is, a check leaves the other entries as they are and in their order, and puts
  // its own entry just behind the cursor.
  ghost predicate Placed(v: Arl, w: Arl, key: string) {
    && w.cursor < |w.entries| && Behind(w).name == key && Behind(w).found
    && Others(w.entries, key) == Others(v.entries, key)
  }

  lemma FastPlaces(v: Arl, value: string)
    requires v.cursor < |v.entries|
    ensures Placed(v, CheckFast(v, value), v.entries[v.cursor].name)
  {
    OthersMove(v.entries, v.cursor, v.cursor);
    MarkIsMove(v.entries, v.cursor);
  }

  lemma RelinkPlaces(v: Arl, j: nat, value: string)
    requires v.cursor < |v.entries| && j < |v.entries| && j != v.cursor
    ensures Placed(v, CheckRelink(v, j, value), v.entries[j].name)
  {
    OthersMove(v.entries, j, if j < v.cursor then v.cursor - 1 else v.cursor);
  }

  lemma CreatePlaces(v: Arl, key: string)
    requires v.cursor < |v.entries|
    ensures Placed(v, CheckCreate(v, key), key)
  {
    OthersInsert(v.entries, v.cursor, Entry(key, None, false, true));
  }

  lemma CheckPlaces(v: Arl, key: string, value: string)
    requires Ok(v) && v.entries != []
    ensures Placed(v, Check(v, key, value).0, key)
  {
    var j := Find(v.entries, key);
    if IsFast(v, key) {
      FastPlaces(v, value);
    } else if j < |v.entries| {
      RelinkPlaces(v, j, value);
    } else {
      CreatePlaces(v, key);
    }
  }

  // It counts whether it moved the entry or made it.
  lemma CheckTallies(v: Arl, key: string, value: string)
    requires Ok(v) && v.entries != []
    ensures var w := Check(v, key, value).0;
            && w.relinkings == v.relinkings + (if key in Names(v.entries) && v.entries[v.cursor].name != key then 1 else 0)
            && w.allocations == v.allocations + (if key in Names(v.entries) then 0 else 1)
            && w.added == v.added + (if key in Names(v.entries) then 0 else 1)
  {
    FindInNames(v.entries, key);
  }

  lemma FindInNames(s: seq<Entry>, name: string)
    ensures Find(s, name) < |s| <==> name in Names(s)
    ensures forall k :: 0 <= k < |s| ==> s[k].name in Names(s)
  {
    forall k | 0 <= k < |s|
      ensures s[k].name in Names(s)
    {
      assert s[k] in s;
    }
    if Find(s, name) == |s| {
      FindNone(s, name);
    }
  }

  // A check adds its keyword to the names on the list and removes none.
  lemma CheckNames(v: Arl, key: string, value: string)
    requires Ok(v) && v.entries != []
    ensures Names(Check(v, key, value).0.entries) == Names(v.entries) + {key}
  {
    var s, c, j := v.entries, v.cursor, Find(v.entries, key);
    if IsFast(v, key) {
      MarkNames(s, c);
    } else if j < |s| {
      MoveNames(s, j, if j < c then c - 1 else c);
    } else {
      InsertNames(s, c, Entry(key, None, false, true));
    }
  }

  lemma InsertNames(s: seq<Entry>, c: nat, x: Entry)
    requires c <= |s|
    ensures Names(Insert(s, c, x)) == Names(s) + {x.name}
  {
    InsertMembers(s, c, x);
    assert x in Insert(s, c, x);
  }

  lemma MoveNames(s: seq<Entry>, j: nat, c: nat)
    requires j < |s| && c < |s|
    ensures Names(Insert(Remove(s, j), c, s[j].(found := true))) == Names(s)
    ensures s[j].name in Names(s)
  {
    var rest := Remove(s, j);
    InsertNames(rest, c, s[j].(found := true));
    InsertNames(rest, j, s[j]);
    PutBack(s, j);
  }

  lemma MarkIsMove(s: seq<Entry>, c: nat)
    requires c < |s|
    ensures s[c := s[c].(found := true)] == Insert(Remove(s, c), c, s[c].(found := true))
  {
  }

  lemma PutBack(s: seq<Entry>, j: nat)
    requires j < |s|
    ensures Insert(Remove(s, j), j, s[j]) == s
  {
  }

  lemma MarkNames(s: seq<Entry>, c: nat)
    requires c < |s|
    ensures Names(s[c := s[c].(found := true)]) == Names(s)
    ensures s[c].name in Names(s)
  {
    MoveNames(s, c, c);
    MarkIsMove(s, c);
  }

  lemma NotEarlier(s: seq<Entry>, src: Source, n: nat)
    requires Sorted(s, src, n) && n < |src| && DistinctKeys(src)
    ensures Find(s, src[n].0) >= n
  {
    assert forall i :: 0 <= i < n ==> s[i].name == src[i].0 && src[i].0 != src[n].0;
  }

  lemma CheckShape(v: Arl, src: Source, n: nat)
    requires Ok(v) && v.entries != [] && v.cursor == n && Sorted(v.entries, src, n) && n < |src| && DistinctKeys(src)
    ensures var w := Check(v, src[n].0, src[n].1).0;
            && Sorted(w.entries, src, n + 1)
            && w.entries[n].found
            && (forall i :: 0 <= i < n ==> w.entries[i] == v.entries[i])
            && w.cursor == (if n + 1 == |w.entries| then 0 else n + 1)
  {
    var (key, value) := src[n];
    var w := Check(v, key, value).0;
    var j := Find(v.entries, key);
    NotEarlier(v.entries, src, n);
    if IsFast(v, key) {
    } else if j < |v.entries| {
      assert w.entries == Insert(Remove(v.entries, j), n, v.entries[j].(found := true));
    } else {
      assert w.entries == Insert(v.entries, n, Entry(key, None, false, true));
    }
  }

  // One line further: the list begins with one more keyword of the source, and the cursor is behind
  // it, except when the list is used up, which only happens when the pass ends.
  lemma CheckSorts(v: Arl, src: Source, n: nat)
    requires Midway(v, src, n) && n < |src| && DistinctKeys(src) && Sortable(v, src) && v.wanted == v.expected
    ensures var (w, stop) := Check(v, src[n].0, src[n].1);
            && KeepsAll(v, w) && Sortable(w, src)
            && Sorted(w.entries, src, n + 1)
            && w.entries[n].found
            && (forall i :: 0 <= i < n ==> w.entries[i] == v.entries[i])
            && w.found == |Hits(Registered(w.entries), Keys(src, n + 1))|
            && (!stop && n + 1 < |src| ==> w.cursor == n + 1)
  {
    var (key, value) := src[n];
    var w := Check(v, key, value).0;
    KeysNext(src, n);
    CheckKeeps(v, key, value);
    CheckCounts(v, key, value, Keys(src, n));
    CheckShape(v, src, n);
    CheckNames(v, key, value);
    if n + 1 == |w.entries| && n + 1 < |src| {
      AllListed(w, src, n + 1);
    }
  }

  // The list after a pass: it begins with the lines read, all marked found; and if the pass stopped
  // early, everything registered is among them.
  ghost predicate Learned(w: Arl, src: Source, n: nat) {
    && Ok(w) && w.entries != [] && w.wanted == w.expected
    && Sorted(w.entries, src, n)
    && (forall i :: 0 <= i < n ==> w.entries[i].found)
    && (n < |src| ==> Hits(Registered(w.entries), Keys(src, n)) == Registered(w.entries))
  }

  // Halfway through such a pass.
  ghost predicate Learning(v: Arl, src: Source, n: nat) {
    && Midway(v, src, n) && DistinctKeys(src) && Sortable(v, src) && v.wanted == v.expected
    && forall i :: 0 <= i < n ==> v.entries[i].found
  }

  lemma LearningStep(v: Arl, src: Source, n: nat)
    requires Learning(v, src, n) && n < |src|
    ensures var (w, stop) := Check(v, src[n].0, src[n].1);
            if stop then Learned(w, src, n + 1) else Learning(w, src, n + 1)
  {
    CheckSorts(v, src, n);
    var (w, stop) := Check(v, src[n].0, src[n].1);
    assert forall i :: 0 <= i < n ==> w.entries[i] == v.entries[i];
    if stop {
      SubsetCard(Hits(Registered(w.entries), Keys(src, n + 1)), Registered(w.entries));
    }
  }

  lemma LearningKeeps(v: Arl, src: Source, n: nat, inv: (Arl, nat) -> bool, done: (Arl, nat) -> bool)
    requires Learning(v, src, n)
    requires forall w: Arl, k: nat {:trigger inv(w, k)} :: Learning(w, src, k) ==> inv(w, k)
    requires forall w: Arl, k: nat {:trigger done(w, k)} :: Learned(w, src, k) ==> done(w, k)
    ensures Keeps(src, inv, done, v, n)
  {
    if n < |src| {
      LearningStep(v, src, n);
    }
  }

  // A pass that starts with everything wanted, on a sortable list, sorts it.
  lemma PassSorts(v: Arl, src: Source)
    requires Learning(v, src, 0)
    ensures Learned(Pass(v, src, 0).0, src, Pass(v, src, 0).1)
  {
    var inv := (w: Arl, k: nat) => Learning(w, src, k);
    var done := (w: Arl, k: nat) => Learned(w, src, k);
    forall w: Arl, k: nat | inv(w, k)
      ensures Keeps(src, inv, done, w, k)
    {
      LearningKeeps(w, src, k, inv, done);
    }
    PassRule(src, inv, done, v, 0);
  }

  // ----- Where the order is lost

  // An entry without destination keeps the pass from ever finding all it wants.
  lemma NeverComplete(reg: set<(string, Option<Action>)>, src: Source, k: nat)
    requires !AllStored(reg) && k <= |src|
    ensures Hits(reg, Keys(src, k)) != reg
  {
    var p :| p in reg && p.1.None?;
    assert p !in Hits(reg, Keys(src, k));
  }

  // The list still takes the order of the source.
  ghost predicate InStep(s: seq<Entry>, cursor: nat, src: Source, n: nat) {
    cursor == n < |s| && Sorted(s, src, n) && Names(s) <= EarlyKeys(src) + Keys(src, n)
  }

  // The list is used up and the cursor is back at its head.
  ghost predicate UsedUp(s: seq<Entry>, cursor: nat, src: Source, n: nat) {
    cursor == 0 && 1 <= n < |src| && |s| == n && Sorted(s, src, n)
  }

  // A later keyword is at the head, and all others go behind it.
  ghost predicate Displaced(s: seq<Entry>, cursor: nat, src: Source, n: nat) {
    && 1 <= cursor < |s| && 2 <= n <= |src| && Names(s) <= Keys(src, n)
    && s[0].found && s[0].name != src[0].0
  }

  // Halfway through a pass that loses the order.
  ghost predicate Losing(v: Arl, src: Source, n: nat) {
    && Counting(v, Registered(v.entries), src, n) && !AllStored(Registered(v.entries))
    && (|| InStep(v.entries, v.cursor, src, n)
        || UsedUp(v.entries, v.cursor, src, n)
        || Displaced(v.entries, v.cursor, src, n))
  }

  // A list in step has an entry that is still to come, so the next line is not the last one.
  lemma InStepGoesOn(v: Arl, src: Source, n: nat)
    requires Ok(v) && InStep(v.entries, v.cursor, src, n) && DistinctKeys(src)
    ensures n + 1 < |src|
  {
    var s := v.entries;
    assert s[n] in s && s[n].name in Names(s);
    assert forall i :: 0 <= i < n ==> src[i].0 == s[i].name != s[n].name;
  }

  lemma StepInStep(v: Arl, src: Source, n: nat)
    requires Ok(v) && v.entries != [] && DistinctKeys(src) && n < |src| && InStep(v.entries, v.cursor, src, n)
    ensures var w := Check(v, src[n].0, src[n].1).0;
            InStep(w.entries, w.cursor, src, n + 1) || UsedUp(w.entries, w.cursor, src, n + 1)
  {
    InStepGoesOn(v, src, n);
    CheckShape(v, src, n);
    CheckNames(v, src[n].0, src[n].1);
    KeysNext(src, n);
  }

  // A new keyword goes in front of the cursor.
  lemma StepNew(v: Arl, key: string, value: string)
    requires Ok(v) && v.entries != [] && key !in Names(v.entries)
    ensures var w := Check(v, key, value).0;
            w.entries == Insert(v.entries, v.cursor, Entry(key, None, false, true)) && w.cursor == v.cursor + 1
  {
    NotListed(v.entries, key);
    assert v.entries[v.cursor].name in Names(v.entries);
  }

  lemma {:induction false} NotListed(s: seq<Entry>, name: string)
    requires name !in Names(s)
    ensures Find(s, name) == |s|
  {
    if s != [] {
      assert s[0] in s;
      assert Names(s[1..]) <= Names(s);
      NotListed(s[1..], name);
    }
  }

  lemma StepUsedUp(v: Arl, src: Source, n: nat)
    requires Ok(v) && v.entries != [] && DistinctKeys(src) && UsedUp(v.entries, v.cursor, src, n)
    ensures var w := Check(v, src[n].0, src[n].1).0;
            Displaced(w.entries, w.cursor, src, n + 1)
  {
    ListedNames(v.entries, src, n);
    KeysNext(src, n);
    StepNew(v, src[n].0, src[n].1);
    CheckNames(v, src[n].0, src[n].1);
  }

  lemma StepDisplaced(v: Arl, src: Source, n: nat)
    requires Ok(v) && v.entries != [] && DistinctKeys(src) && n < |src| && Displaced(v.entries, v.cursor, src, n)
    ensures var w := Check(v, src[n].0, src[n].1).0;
            Displaced(w.entries, w.cursor, src, n + 1)
  {
    KeysNext(src, n);
    StepNew(v, src[n].0, src[n].1);
    CheckNames(v, src[n].0, src[n].1);
  }

  // The list after such a pass: it does not begin as the source does.
  ghost predicate Lost(w: Arl, src: Source, n: nat) {
    Ok(w) && w.entries != [] && src != [] && n == |src| && w.entries[0].found && w.entries[0].name != src[0].0
  }

  lemma LosingStep(v: Arl, src: Source, n: nat)
    requires Losing(v, src, n) && n < |src|
    ensures var (w, stop) := Check(v, src[n].0, src[n].1);
            !stop && Losing(w, src, n + 1)
  {
    var reg := Registered(v.entries);
    CountingStep(v, reg, src, n);
    NeverComplete(reg, src, n + 1);
    if InStep(v.entries, v.cursor, src, n) {
      StepInStep(v, src, n);
    } else if UsedUp(v.entries, v.cursor, src, n) {
      StepUsedUp(v, src, n);
    } else {
      StepDisplaced(v, src, n);
    }
  }

  lemma LosingEnds(v: Arl, src: Source)
    requires Losing(v, src, |src|)
    ensures Lost(v, src, |src|)
  {
    if InStep(v.entries, v.cursor, src, |src|) {
      InStepGoesOn(v, src, |src|);
    }
  }

  lemma LosingKeeps(v: Arl, src: Source, n: nat, inv: (Arl, nat) -> bool, done: (Arl, nat) -> bool)
    requires Losing(v, src, n)
    requires forall w: Arl, k: nat {:trigger inv(w, k)} :: Losing(w, src, k) ==> inv(w, k)
    requires forall w: Arl, k: nat {:trigger done(w, k)} :: Lost(w, src, k) ==> done(w, k)
    ensures Keeps(src, inv, done, v, n)
  {
    if n < |src| {
      LosingStep(v, src, n);
    } else {
      LosingEnds(v, src);
    }
  }

  // A pass over a list that is not sortable loses the order.
  lemma PassLoses(v: Arl, src: Source)
    requires Losing(v, src, 0)
    ensures Lost(Pass(v, src, 0).0, src, Pass(v, src, 0).1)
  {
    var inv := (w: Arl, k: nat) => Losing(w, src, k);
    var done := (w: Arl, k: nat) => Lost(w, src, k);
    forall w: Arl, k: nat | inv(w, k)
      ensures Keeps(src, inv, done, w, k)
    {
      LosingKeeps(w, src, k, inv, done);
    }
    PassRule(src, inv, done, v, 0);
  }

  // The state in which a pass that wants everything begins.
  ghost predicate Ready(v: Arl) {
    Ok(v) && v.entries != [] && v.cursor == 0 && v.found == 0 && v.wanted == v.expected
  }

  lemma LosingStarts(v: Arl, src: Source)
    requires Ready(v) && DistinctKeys(src) && !Sortable(v, src)
    ensures Losing(v, src, 0)
  {
    assert Hits(Registered(v.entries), Keys(src, 0)) == {};
  }

  lemma LearningStarts(v: Arl, src: Source)
    requires Ready(v) && DistinctKeys(src) && Sortable(v, src)
    ensures Learning(v, src, 0)
  {
    assert Hits(Registered(v.entries), Keys(src, 0)) == {};
  }

  // A pass that wants everything leaves the lines it read at the front of the list, in their order,
  // exactly when the list is sortable.
  lemma SortsExactlyWhenSortable(v: Arl, src: Source)
    requires Ready(v) && DistinctKeys(src)
    ensures var (w, m) := Pass(v, src, 0);
            Sorted(w.entries, src, m) <==> Sortable(v, src)
  {
    if Sortable(v, src) {
      LearningStarts(v, src);
      PassSorts(v, src);
    } else {
      LosingStarts(v, src);
      PassLoses(v, src);
    }
  }

  // ----- The next pass over the same source

  // Every check of the pass takes the fast path.
  ghost predicate AllFast(v: Arl, src: Source, n: nat)
    requires Ok(v) && v.entries != [] && n <= |src|
    decreases |src| - n
  {
    n == |src| ||
    (CheckKeeps(v, src[n].0, src[n].1);
     && IsFast(v, src[n].0)
     && var (w, stop) := Check(v, src[n].0, src[n].1);
        stop || AllFast(w, src, n + 1))
  }

  // A list that begins with found entries begins with the same names after cleaning.
  lemma {:induction false} SweepKeepsFront(kept: seq<Entry>, rest: seq<Entry>, n: nat)
    requires |kept| <= n <= |kept| + |rest| && forall i :: 0 <= i < n - |kept| ==> rest[i].found
    ensures var s := Sweep(kept, rest);
            && n <= |s|
            && forall i :: 0 <= i < n ==> s[i].name == (kept + rest)[i].name
    decreases |rest|
  {
    if rest == [] {
    } else if n == |kept| {
      SweepExtends(kept, rest);
    } else {
      SweepKeepsFront(kept + [rest[0].(found := false)], rest[1..], n);
      assert forall i :: 0 <= i < n ==> (kept + [rest[0].(found := false)] + rest[1..])[i].name == (kept + rest)[i].name;
    }
  }

  lemma {:induction false} SweepExtends(kept: seq<Entry>, rest: seq<Entry>)
    ensures kept <= Sweep(kept, rest)
    decreases |rest|
  {
    if rest != [] {
      SweepExtends(Kept(kept, rest), rest[1..]);
      assert kept <= Kept(kept, rest);
    }
  }

  lemma {:induction false} CountFoundAll(s: seq<Entry>)
    requires DistinctNames(s) && forall e :: e in s && e.expected ==> e.found
    ensures CountFound(s) == |Registered(s)|
  {
    if s != [] {
      var t := s[1..];
      assert s == [s[0]] + t;
      CountFoundAll(t);
      if s[0].expected {
        assert Registered(s) == Registered(t) + {(s[0].name, s[0].action)};
      } else {
        assert Registered(s) == Registered(t);
      }
    }
  }

  // If everything registered is among the first keywords, all of them found, nothing expected is
  // left unfound.
  lemma ExpectedAreFound(w: Arl, src: Source, n: nat)
    requires Learned(w, src, n) && n < |src|
    ensures forall e :: e in w.entries && e.expected ==> e.found
  {
    forall e | e in w.entries && e.expected
      ensures e.found
    {
      var p := (e.name, e.action);
      assert p in Registered(w.entries);
      assert p in Hits(Registered(w.entries), Keys(src, n));
      var i :| 0 <= i < n && src[i].0 == e.name;
      var k :| 0 <= k < |w.entries| && w.entries[k] == e;
      assert w.entries[i].name == w.entries[k].name;
      assert i == k;
    }
  }

  lemma BeginKeepsOrder(w: Arl, src: Source, n: nat)
    requires Learned(w, src, n)
    ensures var v := Begin(w);
            && Ok(v) && v.entries != [] && v.cursor == 0 && v.found == 0
            && Sorted(v.entries, src, n)
            && Registered(v.entries) == Registered(w.entries)
            && (n < |src| ==> v.wanted == v.expected)
  {
    BeginKeeps(w);
    assert [] + w.entries == w.entries;
    SweepKeepsFront([], w.entries, n);
    if n < |src| {
      ExpectedAreFound(w, src, n);
      CountFoundAll(w.entries);
    }
  }

  // The list begins with the first `m` keywords of the source and the pass has met `n` of them.
  ghost predicate Known(v: Arl, src: Source, n: nat, m: nat) {
    && Midway(v, src, n) && n < m && Sorted(v.entries, src, m) && DistinctKeys(src)
    && (m < |src| ==> v.wanted == v.expected && Hits(Registered(v.entries), Keys(src, m)) == Registered(v.entries))
  }

  lemma KnownStep(v: Arl, src: Source, n: nat, m: nat)
    requires Known(v, src, n, m)
    ensures var (w, stop) := Check(v, src[n].0, src[n].1);
            && IsFast(v, src[n].0) && KeepsAll(v, w)
            && (stop || n + 1 == |src| || Known(w, src, n + 1, m))
  {
    var (key, value) := src[n];
    var (w, stop) := Check(v, key, value);
    KeysNext(src, n);
    CheckKeeps(v, key, value);
    CheckCounts(v, key, value, Keys(src, n));
    assert IsFast(v, key);
    assert w.entries == v.entries[n := v.entries[n].(found := true)];
  }

  lemma {:induction false} FastFrom(v: Arl, src: Source, n: nat, m: nat)
    requires Known(v, src, n, m)
    ensures AllFast(v, src, n)
    decreases m - n
  {
    KnownStep(v, src, n, m);
    var (w, stop) := Check(v, src[n].0, src[n].1);
    if !stop && n + 1 < |src| {
      FastFrom(w, src, n + 1, m);
    }
  }

  // On a sortable list the next pass over the same source takes the fast path throughout.
  lemma NextIsFast(v: Arl, src: Source)
    requires Ready(v) && DistinctKeys(src) && Sortable(v, src)
    ensures var b := Begin(Pass(v, src, 0).0);
            Ok(b) && b.entries != [] && AllFast(b, src, 0)
  {
    LearningStarts(v, src);
    PassSorts(v, src);
    var (w, m) := Pass(v, src, 0);
    BeginKeepsOrder(w, src, m);
    var b := Begin(w);
    assert Hits(Registered(b.entries), Keys(src, 0)) == {};
    if src != [] {
      FastFrom(b, src, 0, m);
    }
  }

  // On any other list it fails to on its very first check.
  lemma NextIsSlow(v: Arl, src: Source)
    requires Ready(v) && DistinctKeys(src) && !Sortable(v, src)
    ensures var b := Begin(Pass(v, src, 0).0);
            Ok(b) && b.entries != [] && !AllFast(b, src, 0)
  {
    LosingStarts(v, src);
    PassLoses(v, src);
    FoundHeadStays(Pass(v, src, 0).0);
  }

  lemma FoundHeadStays(w: Arl)
    requires Ok(w) && w.entries != [] && w.entries[0].found
    ensures var b := Begin(w);
            Ok(b) && b.entries != [] && b.cursor == 0 && b.entries[0].name == w.entries[0].name
  {
    BeginKeeps(w);
    assert [] + w.entries == w.entries;
    SweepKeepsFront([], w.entries, 1);
  }

  // After a pass that wants everything, the next pass over the same source takes the fast path on
  // every check exactly when the list was sortable; then it relinks nothing, creates nothing and
  // leaves the order alone.
  lemma NextPassIsFast(v: Arl, src: Source)
    requires Ready(v) && DistinctKeys(src)
    ensures var w := Pass(v, src, 0).0;
            var b := Begin(w);
            && Ok(b) && b.entries != []
            && (AllFast(b, src, 0) <==> Sortable(v, src))
            && (Sortable(v, src) ==>
                  var u := Pass(b, src, 0).0;
                  u.relinkings == w.relinkings && u.allocations == w.allocations && SameNames(u.entries, b.entries))
  {
    if Sortable(v, src) {
      NextIsFast(v, src);
      BeginCounts(Pass(v, src, 0).0);
      FastChangesNothing(Begin(Pass(v, src, 0).0), src, 0);
    } else {
      NextIsSlow(v, src);
    }
  }

  // The smallest list that is not sortable: the cursor wraps on its only keyword and the next one
  // goes in front.
  lemma OneKeywordLosesOrder()
    ensures var v := Begin(Expect(Create(1, map[]), "A", None));
            var src := [("A", "1"), ("B", "2")];
            && Ready(v) && !Sortable(v, src)
            && !Sorted(Pass(v, src, 0).0.entries, src, Pass(v, src, 0).1)
  {
    var w := Expect(Create(1, map[]), "A", None);
    ExpectKeeps(Create(1, map[]), "A", None);
    BeginKeeps(w);
    var v := Begin(w);
    var src := [("A", "1"), ("B", "2")];
    assert v.entries == [Entry("A", None, true, false)];
    assert ("A", None) in Registered(v.entries) by {
      assert v.entries[0] in v.entries;
    }
    assert src[0].0 in EarlyKeys(src);
    SortsExactlyWhenSortable(v, src);
  }

  ghost predicate SameNames(s: seq<Entry>, t: seq<Entry>) {
    |s| == |t| && forall i :: 0 <= i < |s| ==> s[i].name == t[i].name
  }

  // A pass on the fast path relinks nothing, creates nothing and leaves the order alone.
  lemma {:induction false} FastChangesNothing(v: Arl, src: Source, n: nat)
    requires Ok(v) && v.entries != [] && n <= |src| && AllFast(v, src, n)
    ensures var w := Pass(v, src, n).0;
            && w.relinkings == v.relinkings && w.allocations == v.allocations && w.added == v.added
            && SameNames(w.entries, v.entries)
    decreases |src| - n
  {
    if n < |src| {
      CheckKeeps(v, src[n].0, src[n].1);
      var (w, stop) := Check(v, src[n].0, src[n].1);
      if !stop {
        FastChangesNothing(w, src, n + 1);
      }
    }
  }

  // ----- What the next pass wants and where it starts

  ghost function FoundNames(s: seq<Entry>): set<string> {
    set e | e in s && e.found :: e.name
  }

  ghost function RegisteredNames(reg: set<(string, Option<Action>)>): set<string> {
    set p | p in reg :: p.0
  }

  // The registered keywords among `names`.
  ghost function Among(reg: set<(string, Option<Action>)>, names: set<string>): set<(string, Option<Action>)> {
    set p | p in reg && p.0 in names
  }

  lemma InsertFound(s: seq<Entry>, c: nat, x: Entry)
    requires c <= |s|
    ensures FoundNames(Insert(s, c, x)) == FoundNames(s) + if x.found then {x.name} else {}
  {
    InsertMembers(s, c, x);
    assert x in Insert(s, c, x);
  }

  lemma MoveFound(s: seq<Entry>, j: nat, c: nat)
    requires j < |s| && c < |s|
    ensures FoundNames(Insert(Remove(s, j), c, s[j].(found := true))) == FoundNames(s) + {s[j].name}
  {
    var rest := Remove(s, j);
    InsertFound(rest, c, s[j].(found := true));
    InsertFound(rest, j, s[j]);
    PutBack(s, j);
  }

  lemma MarkFound(s: seq<Entry>, c: nat)
    requires c < |s|
    ensures FoundNames(s[c := s[c].(found := true)]) == FoundNames(s) + {s[c].name}
  {
    MoveFound(s, c, c);
    MarkIsMove(s, c);
  }

  // A check marks its keyword found and no other.
  lemma CheckFound(v: Arl, key: string, value: string)
    requires Ok(v) && v.entries != []
    ensures FoundNames(Check(v, key, value).0.entries) == FoundNames(v.entries) + {key}
  {
    var s, c, j := v.entries, v.cursor, Find(v.entries, key);
    if IsFast(v, key) {
      MarkFound(s, c);
    } else if j < |s| {
      MoveFound(s, j, if j < c then c - 1 else c);
    } else {
      InsertFound(s, c, Entry(key, None, false, true));
    }
  }

  // The state after `n` lines of a pass that began with `v`.
  ghost predicate Marked(w: Arl, v: Arl, src: Source, n: nat) {
    && Ok(w) && w.entries != [] && n <= |src|
    && Registered(w.entries) == Registered(v.entries) && w.expected == v.expected
    && w.iteration == v.iteration && w.rechecks == v.rechecks && w.wanted == v.wanted
    && FoundNames(w.entries) == FoundNames(v.entries) + Keys(src, n)
    && Names(w.entries) == Names(v.entries) + Keys(src, n)
  }

  lemma MarkedStep(w: Arl, v: Arl, src: Source, n: nat)
    requires Marked(w, v, src, n) && n < |src|
    ensures Marked(Check(w, src[n].0, src[n].1).0, v, src, n + 1)
  {
    CheckKeeps(w, src[n].0, src[n].1);
    CheckNames(w, src[n].0, src[n].1);
    CheckFound(w, src[n].0, src[n].1);
    MarkedNext(w, Check(w, src[n].0, src[n].1).0, v, src, n);
  }

  lemma MarkedNext(w: Arl, x: Arl, v: Arl, src: Source, n: nat)
    requires Marked(w, v, src, n) && n < |src| && KeepsAll(w, x) && x.iteration == w.iteration && x.rechecks == w.rechecks
    requires Names(x.entries) == Names(w.entries) + {src[n].0} && FoundNames(x.entries) == FoundNames(w.entries) + {src[n].0}
    ensures Marked(x, v, src, n + 1)
  {
    assert Keys(src, n + 1) == Keys(src, n) + {src[n].0};
  }

  lemma MarkedKeeps(w: Arl, v: Arl, src: Source, n: nat, inv: (Arl, nat) -> bool)
    requires Marked(w, v, src, n)
    requires forall x: Arl, k: nat {:trigger inv(x, k)} :: Marked(x, v, src, k) ==> inv(x, k)
    ensures Keeps(src, inv, inv, w, n)
  {
    if n < |src| {
      MarkedStep(w, v, src, n);
    }
  }

  // A pass marks the keywords it reads and adds them to the list.
  lemma PassMarks(v: Arl, src: Source)
    requires Ok(v) && v.entries != []
    ensures Marked(Pass(v, src, 0).0, v, src, Pass(v, src, 0).1)
  {
    var inv := (w: Arl, k: nat) => Marked(w, v, src, k);
    forall w: Arl, k: nat | inv(w, k)
      ensures Keeps(src, inv, inv, w, k)
    {
      MarkedKeeps(w, v, src, k, inv);
    }
    PassRule(src, inv, inv, v, 0);
  }

  // The names of the entries that a cleaning leaves.
  ghost function StayNames(s: seq<Entry>): set<string> {
    set e | e in s && (e.found || e.expected) :: e.name
  }

  lemma {:induction false} SweepNames(kept: seq<Entry>, rest: seq<Entry>)
    requires kept != [] || exists e :: e in rest && (e.found || e.expected)
    ensures Names(Sweep(kept, rest)) == Names(kept) + StayNames(rest)
    ensures FoundNames(Sweep(kept, rest)) == FoundNames(kept)
    decreases |rest|
  {
    if rest != [] {
      var e, tail := rest[0], rest[1..];
      assert rest == [e] + tail;
      assert StayNames(rest) == StayNames(tail) + if e.found || e.expected then {e.name} else {};
      if e.found || e.expected {
        AppendNames(kept, e.(found := false));
        assert Kept(kept, rest) == kept + [e.(found := false)] by {
          assert !e.found ==> e.(found := false) == e;
        }
      } else {
        assert Kept(kept, rest) == kept;
      }
      SweepNames(Kept(kept, rest), tail);
    }
  }

  lemma AppendNames(s: seq<Entry>, e: Entry)
    requires !e.found
    ensures Names(s + [e]) == Names(s) + {e.name} && FoundNames(s + [e]) == FoundNames(s)
  {
    assert forall x :: x in s + [e] <==> x in s || x == e;
  }

  lemma StayIs(s: seq<Entry>)
    ensures StayNames(s) == RegisteredNames(Registered(s)) + FoundNames(s)
  {
    forall e | e in s && e.expected
      ensures e.name in RegisteredNames(Registered(s))
    {
      assert (e.name, e.action) in Registered(s);
    }
  }

  lemma {:induction false} CountFoundIs(s: seq<Entry>)
    requires DistinctNames(s)
    ensures CountFound(s) == |Among(Registered(s), FoundNames(s))|
  {
    if s != [] {
      var e, t := s[0], s[1..];
      assert s == [e] + t;
      CountFoundIs(t);
      AmongCons(e, t);
    }
  }

  lemma AmongCons(e: Entry, t: seq<Entry>)
    requires forall x :: x in t ==> x.name != e.name
    ensures var before, p := Among(Registered(t), FoundNames(t)), (e.name, e.action);
            && p !in before
            && Among(Registered([e] + t), FoundNames([e] + t)) == if e.found && e.expected then before + {p} else before
  {
    assert forall x :: x in [e] + t <==> x == e || x in t;
    assert forall p :: p in Registered(t) ==> p.0 != e.name;
    assert Registered([e] + t) == Registered(t) + if e.expected then {(e.name, e.action)} else {};
    assert FoundNames([e] + t) == FoundNames(t) + if e.found then {e.name} else {};
    assert e.name !in FoundNames(t);
  }

  // The beginning of a pass cleans the list after one that created entries, and every so often.
  ghost predicate Cleans(v: Arl)
    requires v.rechecks > 0
  {
    v.iteration > 0 && (v.added > 0 || Rechecks(v))
  }

  // What the beginning of a pass leaves: nothing marked, exactly the entries registered or found, and
  // wanted what is registered on a recheck, else what of it was found; or, without a cleaning, all as
  // it was.
  lemma BeginLeaves(v: Arl)
    requires Ok(v) && v.entries != []
    ensures var b := Begin(v);
            && b.cursor == 0 && b.found == 0 && b.iteration == v.iteration + 1
            && if Cleans(v) then
                 && b.added == 0
                 && b.wanted == (if Rechecks(v) then |Registered(v.entries)| else |Among(Registered(v.entries), FoundNames(v.entries))|)
                 && (StayNames(v.entries) != {} ==>
                       && Names(b.entries) == RegisteredNames(Registered(v.entries)) + FoundNames(v.entries)
                       && FoundNames(b.entries) == {})
               else
                 b.entries == v.entries && b.wanted == v.wanted && b.added == v.added
  {
    BeginKeeps(v);
    CleanedKeeps(v);
    if Cleans(v) {
      CountFoundIs(v.entries);
      if StayNames(v.entries) != {} {
        StayIs(v.entries);
        SweptNames(v.entries);
      }
    }
  }

  lemma SweptNames(s: seq<Entry>)
    requires StayNames(s) != {}
    ensures Names(Sweep([], s)) == StayNames(s) && FoundNames(Sweep([], s)) == {}
  {
    var n :| n in StayNames(s);
    var e :| e in s && (e.found || e.expected) && e.name == n;
    SweepNames([], s);
  }

  // The placeholder keeps an empty list from staying empty.
  lemma BeginOnEmpty(v: Arl)
    requires Ok(v) && v.entries == []
    ensures Begin(v).entries == [Entry("a-really-not-existing-source-keyword", None, true, false)]
    ensures Begin(v).wanted == Begin(v).expected == v.expected + 1
  {
    assert Sweep([], v.entries) == [];
  }

  // A pass over `src` has just ended that began without marks and created entries, and the next pass
  // is not a recheck.
  ghost predicate JustLearned(v: Arl, src: Source)
    requires Ok(v) && v.entries != []
  {
    && v.iteration > 0 && FoundNames(v.entries) == {} && src != []
    && var w := Pass(v, src, 0).0;
       w.added > 0 && !Rechecks(w)
  }

  // The next pass wants exactly the registered keywords that were read; its list holds what is
  // registered and what was read, and nothing on it is marked.
  lemma NextPassWants(v: Arl, src: Source)
    requires Ok(v) && v.entries != [] && JustLearned(v, src)
    ensures var (w, m) := Pass(v, src, 0);
            var reg := Registered(v.entries);
            var b := Begin(w);
            && Ok(b) && b.entries != [] && b.cursor == 0 && b.found == 0 && Registered(b.entries) == reg && b.store == w.store
            && b.wanted == |Among(reg, Keys(src, m))|
            && Names(b.entries) == RegisteredNames(reg) + Keys(src, m)
            && FoundNames(b.entries) == {}
  {
    PassMarks(v, src);
    PassReads(v, src);
    BeginAfter(Pass(v, src, 0).0, v, src, Pass(v, src, 0).1);
  }

  lemma BeginAfter(w: Arl, v: Arl, src: Source, m: nat)
    requires Marked(w, v, src, m) && FoundNames(v.entries) == {} && m >= 1
    requires w.iteration > 0 && w.added > 0 && !Rechecks(w)
    ensures var reg := Registered(v.entries);
            var b := Begin(w);
            && Ok(b) && b.entries != [] && b.cursor == 0 && b.found == 0 && Registered(b.entries) == reg && b.store == w.store
            && b.wanted == |Among(reg, Keys(src, m))|
            && Names(b.entries) == RegisteredNames(reg) + Keys(src, m)
            && FoundNames(b.entries) == {}
  {
    assert FoundNames(w.entries) == Keys(src, m);
    assert src[0].0 in Keys(src, m);
    BeginKeeps(w);
    StayIs(w.entries);
    BeginLeaves(w);
  }

  lemma PassReads(v: Arl, src: Source)
    requires Ok(v) && v.entries != [] && src != []
    ensures Pass(v, src, 0).1 >= 1
  {
  }

  // And over a source with the same registered keywords it leaves each destination as a dictionary
  // lookup would, and ends behind the last of them, if all of them have destinations, or at the end.
  lemma NextPassIsDictionary(v: Arl, src: Source, next: Source, name: string, a: Action)
    requires Ok(v) && v.entries != [] && JustLearned(v, src)
    requires DistinctKeys(next) && DistinctDsts(Registered(v.entries)) && (name, Some(a)) in Registered(v.entries)
    requires Among(Registered(v.entries), Keys(next, |next|)) == Among(Registered(v.entries), Keys(src, Pass(v, src, 0).1))
    ensures var b := Begin(Pass(v, src, 0).0);
            var reg := Registered(v.entries);
            && Ok(b) && b.entries != []
            && var (w, m) := Pass(b, next, 0);
               && Stores(a, Lookup(next, |next|, name), b.store, w.store)
               && StopsAt(reg, Among(reg, Keys(next, |next|)), next, m)
  {
    NextPassWants(v, src);
    var b := Begin(Pass(v, src, 0).0);
    var want := Among(Registered(v.entries), Keys(next, |next|));
    assert Wants(b, want, next);
    WantedPassIsDictionary(b, want, next, name, a);
    PassStops(b, want, next);
  }

  // When all that is wanted has destinations, being complete is having read all of it.
  lemma CompleteIsRead(reg: set<(string, Option<Action>)>, src: Source, k: nat)
    requires k <= |src| && AllStored(Among(reg, Keys(src, |src|)))
    ensures Complete(reg, Among(reg, Keys(src, |src|)), src, k) <==>
            forall p :: p in reg && p.0 in Keys(src, |src|) ==> p.0 in Keys(src, k)
  {
    var want := Among(reg, Keys(src, |src|));
    assert Keys(src, k) <= Keys(src, |src|);
    if forall p :: p in reg && p.0 in Keys(src, |src|) ==> p.0 in Keys(src, k) {
      assert Hits(reg, Keys(src, k)) == want;
    }
    if Hits(reg, Keys(src, k)) == want {
      forall p | p in reg && p.0 in Keys(src, |src|)
        ensures p.0 in Keys(src, k)
      {
        assert p in want;
      }
    }
  }

  // ----- Every run

  datatype Call = CallExpect(name: string, action: Option<Action>) | CallBegin | CallCheck(name: string, value: string)

  // Keywords are registered once; a source is only read after the pass has begun.
  ghost predicate Allowed(v: Arl, c: Call) {
    match c
    case CallExpect(name, _) => forall e :: e in v.entries ==> e.name != name
    case CallBegin => true
    case CallCheck(_, _) => v.entries != []
  }

  function Apply(v: Arl, c: Call): Arl
    requires v.rechecks > 0 && (c.CallCheck? ==> v.cursor < |v.entries|)
  {
    match c
    case CallExpect(name, action) => Expect(v, name, action)
    case CallBegin => Begin(v)
    case CallCheck(name, value) => Check(v, name, value).0
  }

  ghost predicate Follows(v: Arl, c: Call, w: Arl) {
    v.rechecks > 0 && (c.CallCheck? ==> v.cursor < |v.entries|) && Allowed(v, c) && w == Apply(v, c)
  }

  // `vs` lists states, one more than there are calls between them.
  ghost predicate IsTrace(vs: seq<Arl>, cs: seq<Call>) {
    |vs| == |cs| + 1 && forall k :: 0 <= k < |cs| ==> Follows(vs[k], cs[k], vs[k + 1])
  }

  ghost predicate IsRun(rechecks: nat, store: map<Dst, int>, vs: seq<Arl>, cs: seq<Call>) {
    rechecks > 0 && IsTrace(vs, cs) && vs[0] == Create(rechecks, store)
  }

  // What the caller of a check is told.
  ghost predicate Answers(v: Arl, c: Call, stop: bool) {
    c.CallCheck? ==> v.cursor < |v.entries| && stop == Check(v, c.name, c.value).1
  }

  // Before the first pass everything registered is wanted.
  ghost predicate WantsAll(v: Arl) {
    v.iteration == 0 ==> v.wanted == v.expected
  }

  lemma ApplyKeeps(v: Arl, c: Call, w: Arl)
    requires Ok(v) && WantsAll(v) && Follows(v, c, w)
    ensures Ok(w) && WantsAll(w) && Registered(v.entries) <= Registered(w.entries)
  {
    match c {
      case CallExpect(name, action) => ExpectKeeps(v, name, action);
      case CallBegin => BeginKeeps(v);
      case CallCheck(name, value) => CheckKeeps(v, name, value);
    }
  }

  // In every run the books balance, names stay distinct, and nothing registered is ever lost.
  lemma {:induction false} EveryRunIsOk(rechecks: nat, store: map<Dst, int>, vs: seq<Arl>, cs: seq<Call>, j: nat, k: nat)
    requires IsRun(rechecks, store, vs, cs) && j <= k < |vs|
    ensures Ok(vs[k]) && Registered(vs[j].entries) <= Registered(vs[k].entries)
    ensures WantsAll(vs[k])
    decreases k
  {
    if k == 0 {
      assert Registered(vs[0].entries) == {};
    } else {
      EveryRunIsOk(rechecks, store, vs, cs, if j < k then j else k - 1, k - 1);
      ApplyKeeps(vs[k - 1], cs[k - 1], vs[k]);
    }
  }

  // In every run, the first pass and every `rechecks`-th one leave each registered destination as a
  // dictionary lookup of the source would.
  lemma FullPassIsDictionary(rechecks: nat, store: map<Dst, int>, vs: seq<Arl>, cs: seq<Call>, k: nat,
                             src: Source, name: string, a: Action)
    requires IsRun(rechecks, store, vs, cs) && k < |vs| && vs[k].rechecks > 0
    requires vs[k].iteration == 0 || Rechecks(vs[k])
    requires DistinctKeys(src) && DistinctDsts(Registered(vs[k].entries)) && (name, Some(a)) in Registered(vs[k].entries)
    ensures var v := Begin(vs[k]);
            && Ok(v) && v.entries != []
            && Stores(a, Lookup(src, |src|, name), vs[k].store, Pass(v, src, 0).0.store)
  {
    EveryRunIsOk(rechecks, store, vs, cs, k, k);
    BeginKeeps(vs[k]);
    assert vs[k].entries != [];
    PassIsDictionary(Begin(vs[k]), src, name, a);
  }

  // And in every run such a pass takes the order of the source, and makes the next one fast, exactly
  // when the list it begins with is sortable.
  lemma FullPassSorts(rechecks: nat, store: map<Dst, int>, vs: seq<Arl>, cs: seq<Call>, k: nat, src: Source)
    requires IsRun(rechecks, store, vs, cs) && k < |vs| && vs[k].rechecks > 0
    requires vs[k].iteration == 0 || Rechecks(vs[k])
    requires DistinctKeys(src)
    ensures var v := Begin(vs[k]);
            && Ok(v) && v.entries != []
            && var (w, m) := Pass(v, src, 0);
               && (Sorted(w.entries, src, m) <==> Sortable(v, src))
               && Ok(Begin(w)) && Begin(w).entries != []
               && (AllFast(Begin(w), src, 0) <==> Sortable(v, src))
  {
    EveryRunIsOk(rechecks, store, vs, cs, k, k);
    BeginKeeps(vs[k]);
    SortsExactlyWhenSortable(Begin(vs[k]), src);
    NextPassIsFast(Begin(vs[k]), src);
  }
}
