/**
 The adaptive resortable list of utils/adaptive_resortable_list.c/.h on the heap: a doubly linked
 list of keywords with a moving cursor.  Each operation is proved to keep the links consistent and to
 act on the list's view as ArlSpec says.
 */
module Arl {
  import opened ArlSpec
  import opened Seqs
  import opened Wrappers

  class Node {
    const name: string
    const action: Option<Action>
    const expected: bool
    var found: bool
    var prev: Node?
    var next: Node?

    constructor (name: string, action: Option<Action>, expected: bool, found: bool)
      ensures this.name == name && this.action == action && this.expected == expected && this.found == found
    {
      this.name, this.action, this.expected, this.found := name, action, expected, found;
      prev, next := null, null;
    }

    ghost function View(): Entry
      reads this`found
    {
      Entry(name, action, expected, found)
    }
  }

  // The counters of ARL_BASE.
  datatype Counters = Counters(iteration: nat, found: nat, expected: nat, wanted: nat,
                               relinkings: nat, allocations: nat, frees: nat, added: nat)

  ghost function CountersOf(v: ArlSpec.Arl): Counters {
    Counters(v.iteration, v.found, v.expected, v.wanted, v.relinkings, v.allocations, v.frees, v.added)
  }

  // One turn of the cleaning loop: does it drop entry `k`, what does it leave, and where does it go on?
  ghost predicate Drops(es: seq<Entry>, k: nat)
    requires k < |es|
  {
    !es[k].found && !es[k].expected && |es| > 1
  }

  ghost function AfterTurn(es: seq<Entry>, k: nat): seq<Entry>
    requires k < |es|
  {
    if Drops(es, k) then Seqs.Remove(es, k) else es[k := es[k].(found := false)]
  }

  ghost function NextTurn(es: seq<Entry>, k: nat): nat
    requires k < |es|
  {
    if Drops(es, k) then k else k + 1
  }

  lemma SweepTurn(es: seq<Entry>, k: nat)
    requires k < |es|
    ensures var after, next := AfterTurn(es, k), NextTurn(es, k);
            && next <= |after|
            && Sweep(after[..next], after[next..]) == Sweep(es[..k], es[k..])
            && CountFound(es[k..]) == CountFound(after[next..]) + (if es[k].found && es[k].expected then 1 else 0)
  {
    var after, next := AfterTurn(es, k), NextTurn(es, k);
    assert es[k..][1..] == es[k + 1..] == after[next..];
    assert after[..next] == if Drops(es, k) then es[..k] else es[..k] + [es[k].(found := false)];
    assert after[..next] == Kept(es[..k], es[k..]) by {
      assert !es[k].found ==> es[k].(found := false) == es[k];
    }
  }

  class Base {
    const rechecks: nat
    var count: Counters
    var head: Node?
    var nextKeyword: Node?
    var store: map<Dst, int>      // the memory the destinations point into
    ghost var nodes: seq<Node>    // the list from `head` on
    ghost var view: ArlSpec.Arl   // the whole list as a value

    // From `head` the links run through `nodes`, without repetition, and back.
    ghost predicate Linked()
      reads this`head, this`nodes, nodes`prev, nodes`next
    {
      && Distinct(nodes)
      && head == (if nodes == [] then null else nodes[0])
      && (forall i {:trigger nodes[i].next} :: 0 <= i < |nodes| ==> nodes[i].next == if i + 1 < |nodes| then nodes[i + 1] else null)
      && (forall i {:trigger nodes[i].prev} :: 0 <= i < |nodes| ==> nodes[i].prev == if i > 0 then nodes[i - 1] else null)
    }

    // Nodes that have joined the list are new.
    twostate predicate OldOrFresh()
      reads this`nodes
    {
      forall n :: n in nodes ==> n in old(nodes) || fresh(n)
    }

    static ghost predicate Shows(ns: seq<Node>, es: seq<Entry>)
      reads ns`found
    {
      && |es| == |ns|
      && forall i :: 0 <= i < |ns| ==> es[i] == ns[i].View()
    }

    static lemma ShowsInsert(ns: seq<Node>, es: seq<Entry>, c: nat, n: Node)
      requires Shows(ns, es) && c <= |ns|
      ensures Shows(Insert(ns, c, n), Insert(es, c, n.View()))
    {
    }

    static lemma ShowsRemove(ns: seq<Node>, es: seq<Entry>, j: nat)
      requires Shows(ns, es) && j < |ns|
      ensures Shows(Seqs.Remove(ns, j), Seqs.Remove(es, j))
    {
    }

    // Everything but the cursor is in order.
    ghost predicate ListOk()
      reads this, nodes
    {
      && rechecks == view.rechecks > 0
      && Linked() && Shows(nodes, view.entries)
      && count == CountersOf(view) && store == view.store
    }

    ghost predicate Valid()
      reads this, nodes
    {
      && ListOk()
      && (nodes != [] ==> view.cursor < |nodes| && nextKeyword == nodes[view.cursor])
    }

    constructor (rechecks: nat, store: map<Dst, int>)
      requires rechecks > 0
      ensures Valid() && nodes == [] && view == Create(rechecks, store)
    {
      this.rechecks, this.store := rechecks, store;
      count := Counters(0, 0, 0, 0, 0, 0, 0, 0);
      head, nextKeyword, nodes, view := null, null, [], Create(rechecks, store);
    }

    method Unlink(e: Node, ghost j: nat)
      requires Linked() && j < |nodes| && nodes[j] == e
      modifies this`head, this`nodes, nodes`prev, nodes`next
      ensures Linked() && nodes == Seqs.Remove(old(nodes), j)
    {
      if e.next != null {
        e.next.prev := e.prev;
      }
      if e.prev != null {
        e.prev.next := e.next;
      }
      if head == e {
        head := e.next;
      }
      RemoveDistinct(nodes, j);
      nodes := Seqs.Remove(nodes, j);
    }

    method LinkBefore(e: Node, at: Node, ghost c: nat)
      requires Linked() && c < |nodes| && nodes[c] == at && e !in nodes
      modifies this`head, this`nodes, nodes`prev, nodes`next, e`prev, e`next
      ensures Linked() && nodes == Insert(old(nodes), c, e)
    {
      Seqs.InsertDistinct(nodes, c, e);
      e.next := at;
      e.prev := at.prev;
      at.prev := e;
      if e.prev != null {
        e.prev.next := e;
      }
      if head == at {
        head := e;
      }
      nodes := Insert(nodes, c, e);
    }

    method LinkFirst(e: Node)
      requires Linked() && e !in nodes
      modifies this`head, this`nodes, nodes`prev, e`prev, e`next
      ensures Linked() && nodes == Insert(old(nodes), 0, e)
    {
      e.prev := null;
      e.next := head;
      if head != null {
        head.prev := e;
      }
      Seqs.InsertDistinct(nodes, 0, e);
      head, nodes := e, Insert(nodes, 0, e);
    }

    // Put a new expected keyword in front of the list.
    method AddFirst(name: string, action: Option<Action>, ghost es: seq<Entry>)
      requires Linked() && Shows(nodes, es)
      requires nodes != [] ==> nextKeyword != null
      modifies this`head, this`nodes, this`nextKeyword, nodes`prev
      ensures Linked() && Shows(nodes, [Entry(name, action, true, false)] + es)
      ensures |nodes| == |old(nodes)| + 1 && nodes[1..] == old(nodes) && fresh(nodes[0])
      ensures nextKeyword == if old(nodes) == [] then nodes[0] else old(nextKeyword)
    {
      var e := new Node(name, action, true, false);
      if head == null {
        nextKeyword := e;
      }
      ShowsInsert(nodes, es, 0, e);
      assert Insert(es, 0, e.View()) == [e.View()] + es;
      LinkFirst(e);
    }

    // arl_expect_custom
    method Expect(name: string, action: Option<Action>)
      requires Valid()
      modifies this, nodes`prev
      ensures Valid() && view == ArlSpec.Expect(old(view), name, action)
      ensures OldOrFresh()
    {
      AddFirst(name, action, view.entries);
      count := count.(expected := count.expected + 1, allocations := count.allocations + 1, wanted := count.expected + 1);
      view := ArlSpec.Expect(view, name, action);
    }

    method SetFound(e: Node, ghost j: nat, value: bool, ghost es: seq<Entry>)
      requires Linked() && Shows(nodes, es) && j < |nodes| && nodes[j] == e
      modifies e`found
      ensures Linked() && Shows(nodes, es[j := es[j].(found := value)])
    {
      e.found := value;
    }

    // Take entry `k` off the list.
    method TakeOut(e: Node, ghost k: nat, ghost es: seq<Entry>)
      requires Linked() && Shows(nodes, es) && k < |nodes| && nodes[k] == e
      modifies this`head, this`nodes, nodes`prev, nodes`next
      ensures Linked() && Shows(nodes, Seqs.Remove(es, k))
      ensures nodes == Seqs.Remove(old(nodes), k) && e !in nodes
    {
      ShowsRemove(nodes, es, k);
      Unlink(e, k);
    }

    // Link a node that is not on the list in front of the cursor, marked found.
    method PutIn(e: Node, ghost c: nat, ghost es: seq<Entry>)
      requires Linked() && Shows(nodes, es) && e !in nodes
      requires c < |nodes| && nextKeyword == nodes[c]
      modifies this`head, this`nodes, nodes`prev, nodes`next, e
      ensures Linked() && Shows(nodes, Insert(es, c, e.View()))
      ensures nodes == Insert(old(nodes), c, e) && e.found
    {
      e.found := true;
      ShowsInsert(nodes, es, c, e);
      LinkBefore(e, nextKeyword, c);
    }

    // A found entry is kept, and is found no more.
    method Forget(e: Node, ghost k: nat, all: bool, ghost es: seq<Entry>)
      requires Linked() && Shows(nodes, es) && k < |nodes| && nodes[k] == e
      modifies this`count, e`found
      ensures Linked() && Shows(nodes, es[k := es[k].(found := false)])
      ensures count == old(count).(wanted := old(count).wanted + (if !all && es[k].expected then 1 else 0))
    {
      if !all && e.expected {
        count := count.(wanted := count.wanted + 1);
      }
      SetFound(e, k, false, es);
    }

    // An entry that is neither found nor expected goes.
    method Drop(e: Node, ghost k: nat, ghost es: seq<Entry>)
      requires Linked() && Shows(nodes, es) && k < |nodes| && nodes[k] == e
      modifies this`count, this`head, this`nodes, nodes`prev, nodes`next
      ensures Linked() && Shows(nodes, Seqs.Remove(es, k)) && nodes == Seqs.Remove(old(nodes), k)
      ensures count == old(count).(frees := old(count).frees + 1)
    {
      TakeOut(e, k, es);
      count := count.(frees := count.frees + 1);
    }

    // One turn of the cleaning loop, at entry `k`; the result is the entry to look at next.
    method CleanOne(e: Node, ghost k: nat, all: bool, ghost es: seq<Entry>) returns (t: Node?)
      requires Linked() && Shows(nodes, es) && k < |nodes| && nodes[k] == e
      modifies this`count, this`head, this`nodes, nodes
      ensures Linked() && Shows(nodes, AfterTurn(es, k))
      ensures forall n :: n in nodes ==> n in old(nodes)
      ensures var next := NextTurn(es, k);
              t == if next < |nodes| then nodes[next] else null
      ensures count == old(count).(
                frees := old(count).frees + (if Drops(es, k) then 1 else 0),
                wanted := old(count).wanted + (if !all && es[k].found && es[k].expected then 1 else 0))
    {
      t := e.next;
      if e.found {
        Forget(e, k, all, es);
      } else if !e.expected && !(head == e && e.next == null) {
        Drop(e, k, es);
      }
    }

    // The cleaning loop of arl_begin.
    method Clean(all: bool, ghost before: seq<Entry>)
      requires Linked() && Shows(nodes, before)
      modifies this`count, this`head, this`nodes, nodes
      ensures Linked() && Shows(nodes, Sweep([], before))
      ensures |nodes| <= |old(nodes)| && count == old(count).(
                frees := old(count).frees + (|old(nodes)| - |nodes|),
                wanted := old(count).wanted + (if all then 0 else CountFound(before)))
      ensures forall n :: n in nodes ==> n in old(nodes)
    {
      var e := head;
      ghost var k: nat, es := 0, before;
      assert es[0..] == es;
      while e != null
        invariant Linked() && Shows(nodes, es)
        invariant k <= |nodes|
        invariant forall n :: n in nodes ==> n in old(nodes)
        invariant e == if k < |nodes| then nodes[k] else null
        invariant Sweep(es[..k], es[k..]) == Sweep([], before)
        invariant count == old(count).(frees := count.frees, wanted := count.wanted)
        invariant count.wanted + (if all then 0 else CountFound(es[k..])) == old(count).wanted + (if all then 0 else CountFound(before))
        invariant count.frees + |nodes| == old(count).frees + |old(nodes)| && |nodes| <= |old(nodes)|
        decreases |nodes| - k
      {
        SweepTurn(es, k);
        assert forall i :: 0 <= i < |nodes| ==> nodes[i] in old(nodes);
        e := CleanOne(e, k, all, es);
        k, es := NextTurn(es, k), AfterTurn(es, k);
      }
      assert es[..k] == es;
    }

    // The first half of arl_begin; the cursor may be left on a dropped entry.
    method CleanUp()
      requires ListOk()
      modifies this, nodes
      ensures ListOk() && view == Cleaned(old(view))
      ensures forall n :: n in nodes ==> n in old(nodes)
    {
      if count.iteration > 0 && (count.added > 0 || count.iteration % rechecks == 0) {
        var all := count.iteration % rechecks == 0;
        count := count.(added := 0, wanted := if all then count.expected else 0);
        Clean(all, view.entries);
        view := Cleaned(view);
      }
    }

    // arl_begin
    method Begin()
      requires Valid()
      modifies this, nodes
      ensures Valid() && view == ArlSpec.Begin(old(view))
      ensures nodes != [] && nextKeyword == nodes[0]
      ensures OldOrFresh()
    {
      CleanUp();
      if head == null {
        Expect(FAKE, None);
      }
      count := count.(iteration := count.iteration + 1, found := 0);
      nextKeyword := head;
      view := view.(iteration := view.iteration + 1, cursor := 0, found := 0);
    }

    // Run the processor of entry `e`, if it has one, and count it.
    method Process(e: Node, value: string)
      requires ListOk()
      modifies this`store, this`count, this`view
      ensures ListOk() && view == ArlSpec.Process(old(view), e.View(), value)
    {
      if e.action.Some? {
        store := store[e.action.value.dst := e.action.value.process(value)];
        count := count.(found := count.found + 1);
        view := ArlSpec.Process(view, e.View(), value);
      }
    }

    // Mark entry `j` found.
    method Mark(e: Node, ghost j: nat)
      requires ListOk() && j < |nodes| && nodes[j] == e
      modifies this`view, e`found
      ensures ListOk() && view == old(view).(entries := old(view).entries[j := old(view).entries[j].(found := true)])
    {
      SetFound(e, j, true, view.entries);
      view := view.(entries := view.entries[j := view.entries[j].(found := true)]);
    }

    // Move the cursor behind entry `j`, or back to the head after the last.
    method Advance(e: Node, ghost j: nat)
      requires ListOk() && j < |nodes| && nodes[j] == e
      modifies this`view, this`nextKeyword
      ensures Valid() && view == old(view).(cursor := if j + 1 < |nodes| then j + 1 else 0)
    {
      nextKeyword := e.next;
      if nextKeyword == null {
        nextKeyword := head;
      }
      view := view.(cursor := if j + 1 < |nodes| then j + 1 else 0);
    }

    // The fast path of arl_check.
    method CheckFast(value: string)
      requires Valid() && nodes != []
      modifies this, nodes`found
      ensures Valid() && view == ArlSpec.CheckFast(old(view), value)
      ensures nodes == old(nodes)
    {
      var e := nextKeyword;
      ghost var c := view.cursor;
      Mark(e, c);
      Process(e, value);
      Advance(e, c);
    }

    // Change counters only.
    method Tally(counters: Counters, ghost v: ArlSpec.Arl)
      requires ListOk() && counters == CountersOf(v)
      requires v.rechecks == view.rechecks && v.entries == view.entries && v.store == view.store
      modifies this`count, this`view
      ensures ListOk() && view == v
    {
      count := counters;
      view := v;
    }

    method Remove(e: Node, ghost j: nat)
      requires ListOk() && j < |nodes| && nodes[j] == e
      modifies this`head, this`nodes, this`view, nodes`prev, nodes`next
      ensures ListOk() && nodes == Seqs.Remove(old(nodes), j) && e !in nodes
      ensures view == old(view).(entries := Seqs.Remove(old(view).entries, j))
    {
      TakeOut(e, j, view.entries);
      view := view.(entries := Seqs.Remove(view.entries, j));
    }

    // Link a node that is not on the list in front of the cursor, which moves on behind it.
    method Place(e: Node, ghost c: nat)
      requires ListOk() && e !in nodes && c < |nodes| && nextKeyword == nodes[c]
      modifies this`head, this`nodes, this`view, this`nextKeyword, nodes`prev, nodes`next, e
      ensures Valid() && nodes == Insert(old(nodes), c, e)
      ensures view == old(view).(entries := Insert(old(view).entries, c, old(e.View()).(found := true)), cursor := c + 1)
    {
      PutIn(e, c, view.entries);
      view := view.(entries := Insert(view.entries, c, e.View()));
      Advance(e, c);
    }

    method Move(e: Node, ghost j: nat)
      requires Valid() && j < |nodes| && nodes[j] == e && j != view.cursor
      modifies this`head, this`nodes, this`view, this`nextKeyword, nodes
      ensures Valid() && forall n :: n in nodes ==> n in old(nodes)
      ensures var v := old(view);
              var c := if j < v.cursor then v.cursor - 1 else v.cursor;
              view == v.(entries := Insert(Seqs.Remove(v.entries, j), c, v.entries[j].(found := true)), cursor := c + 1)
    {
      ghost var c := if j < view.cursor then view.cursor - 1 else view.cursor;
      Remove(e, j);
      Place(e, c);
    }

    // Move entry `j` in front of the cursor, which is on another entry, and mark it found.
    method Relink(e: Node, ghost j: nat, value: string)
      requires Valid() && j < |nodes| && nodes[j] == e && j != view.cursor
      modifies this, nodes
      ensures Valid() && view == ArlSpec.CheckRelink(old(view), j, value)
      ensures forall n :: n in nodes ==> n in old(nodes)
    {
      Tally(count.(relinkings := count.relinkings + 1), view.(relinkings := view.relinkings + 1));
      Process(e, value);
      Move(e, j);
    }

    // Create a dynamic entry in front of the cursor.
    method Add(name: string)
      requires Valid() && nodes != []
      modifies this, nodes
      ensures Valid() && view == ArlSpec.CheckCreate(old(view), name)
      ensures OldOrFresh()
    {
      var e := new Node(name, None, false, false);
      Tally(count.(allocations := count.allocations + 1, added := count.added + 1),
            view.(allocations := view.allocations + 1, added := view.added + 1));
      Place(e, view.cursor);
    }

    // The entry with the given name, and its position.
    method FindNode(name: string) returns (e: Node?, ghost j: nat)
      requires ListOk()
      ensures j == Find(view.entries, name)
      ensures e == if j < |nodes| then nodes[j] else null
    {
      e, j := head, 0;
      while e != null && e.name != name
        invariant j <= |nodes|
        invariant e == if j < |nodes| then nodes[j] else null
        invariant forall i :: 0 <= i < j ==> view.entries[i].name != name
        decreases |nodes| - j
      {
        e, j := e.next, j + 1;
      }
    }

    // arl_check with arl_find_or_create_and_relink
    method Check(name: string, value: string) returns (stop: bool)
      requires Valid() && nodes != []
      modifies this, nodes
      ensures Valid() && (view, stop) == ArlSpec.Check(old(view), name, value)
      ensures OldOrFresh()
    {
      if nextKeyword.name == name {
        CheckFast(value);
      } else {
        var e, j := FindNode(name);
        if e != null {
          Relink(e, j, value);
        } else {
          Add(name);
        }
      }
      stop := count.found == count.wanted;
    }

    // One call of a program; `stop` is what a check answers.
    method ServeOne(c: Call, ghost w: ArlSpec.Arl) returns (stop: bool)
      requires Valid() && Follows(view, c, w)
      modifies this, nodes
      ensures Valid() && view == w && Answers(old(view), c, stop)
      ensures OldOrFresh()
    {
      stop := false;
      match c {
        case CallExpect(name, action) => Expect(name, action);
        case CallBegin => Begin();
        case CallCheck(name, value) => stop := Check(name, value);
      }
    }

    method ServeNext(cs: seq<Call>, ghost vs: seq<ArlSpec.Arl>, n: nat) returns (stop: bool)
      requires IsTrace(vs, cs) && n < |cs| && Valid() && view == vs[n]
      modifies this, nodes
      ensures Valid() && view == vs[n + 1] && Answers(vs[n], cs[n], stop)
      ensures OldOrFresh()
    {
      assert Follows(vs[n], cs[n], vs[n + 1]);
      stop := ServeOne(cs[n], vs[n + 1]);
    }

    // A run of a program on the linked list: it goes through the states of the run and gives the
    // answers they say.
    method Serve(cs: seq<Call>, ghost vs: seq<ArlSpec.Arl>) returns (stops: seq<bool>)
      requires IsTrace(vs, cs) && Valid() && view == vs[0]
      modifies this, nodes
      ensures Valid() && view == vs[|cs|] && OldOrFresh()
      ensures |stops| == |cs| && forall k :: 0 <= k < |cs| ==> Answers(vs[k], cs[k], stops[k])
    {
      stops := [];
      for n := 0 to |cs|
        invariant Valid() && view == vs[n] && OldOrFresh()
        invariant |stops| == n && forall k :: 0 <= k < n ==> Answers(vs[k], cs[k], stops[k])
      {
        assert forall i :: 0 <= i < |nodes| ==> nodes[i] in old(nodes) || fresh(nodes[i]);
        var stop := ServeNext(cs, vs, n);
        stops := stops + [stop];
      }
    }
  }

  // A program that makes a list and runs on it.
  method RunProgram(rechecks: nat, store: map<Dst, int>, cs: seq<Call>, ghost vs: seq<ArlSpec.Arl>)
    returns (base: Base, stops: seq<bool>)
    requires IsRun(rechecks, store, vs, cs)
    ensures fresh(base) && base.Valid() && base.view == vs[|cs|]
    ensures |stops| == |cs| && forall k :: 0 <= k < |cs| ==> Answers(vs[k], cs[k], stops[k])
  {
    base := new Base(rechecks, store);
    stops := base.Serve(cs, vs);
  }
}
