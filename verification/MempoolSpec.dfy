/**
 The unit pool of utils/mempool.c at the level its clients see: a list of blocks, each with the
 order in which its free units will be handed out.  The heap-level pool in module Mempool refines
 this machine; what holds over whole runs is proved here.
 */
module MempoolSpec {
  import opened Integers
  import opened Seqs

  // A block: address of its unit 0, number of units, free units in hand-out order.
  datatype BlockView = BlockView(base: nat, units: nat, free: seq<nat>)

  datatype PoolView = PoolView(unitSize: nat, initUnits: nat, growUnits: nat, blocks: seq<BlockView>)

  const NULL: nat := 0
  const WORD_BYTES := 4

  // ----- Operations

  function Addr(unitSize: nat, b: BlockView, u: nat): nat {
    b.base + u * unitSize
  }

  predicate Owns(unitSize: nat, b: BlockView, a: nat) {
    b.base <= a < b.base + b.units * unitSize
  }

  // The first unit of a new block goes straight to the caller.
  function NewBlock(base: nat, units: nat): BlockView
    requires units >= 1
  {
    BlockView(base, units, seq(units - 1, i requires i >= 0 => i + 1))
  }

  function FirstRoomy(bs: seq<BlockView>): (i: nat)
    ensures i <= |bs|
    ensures i < |bs| ==> bs[i].free != []
    ensures forall j :: 0 <= j < i ==> bs[j].free == []
  {
    if bs == [] || bs[0].free != [] then 0 else 1 + FirstRoomy(bs[1..])
  }

  function FirstOwner(unitSize: nat, bs: seq<BlockView>, a: nat): (i: nat)
    ensures i <= |bs|
    ensures i < |bs| ==> Owns(unitSize, bs[i], a)
    ensures forall j :: 0 <= j < i ==> !Owns(unitSize, bs[j], a)
  {
    if bs == [] || Owns(unitSize, bs[0], a) then 0 else 1 + FirstOwner(unitSize, bs[1..], a)
  }

  lemma FirstRoomyIs(bs: seq<BlockView>, i: nat)
    requires i <= |bs| && (i < |bs| ==> bs[i].free != [])
    requires forall j :: 0 <= j < i ==> bs[j].free == []
    ensures FirstRoomy(bs) == i
  {
    var k := FirstRoomy(bs);
    assert k < |bs| ==> bs[k].free != [];
  }

  lemma FirstOwnerIs(unitSize: nat, bs: seq<BlockView>, a: nat, i: nat)
    requires i <= |bs| && (i < |bs| ==> Owns(unitSize, bs[i], a))
    requires forall j :: 0 <= j < i ==> !Owns(unitSize, bs[j], a)
    ensures FirstOwner(unitSize, bs, a) == i
  {
    var k := FirstOwner(unitSize, bs, a);
    assert k < |bs| ==> Owns(unitSize, bs[k], a);
  }

  // `sys` is the address the C allocator would return for a new block; NULL when it fails.
  function Malloc(p: PoolView, sys: nat): (PoolView, nat)
    requires p.initUnits >= 1 && p.growUnits >= 1
  {
    if p.blocks == [] then
      if sys == NULL then (p, NULL) else (p.(blocks := [NewBlock(sys, p.initUnits)]), sys)
    else
      var i := FirstRoomy(p.blocks);
      if i < |p.blocks| then
        var b := p.blocks[i];
        (p.(blocks := p.blocks[i := b.(free := b.free[1..])]), Addr(p.unitSize, b, b.free[0]))
      else if sys == NULL then (p, NULL)
      else (p.(blocks := [NewBlock(sys, p.growUnits)] + p.blocks), sys)
  }

  function Recycle(p: PoolView, i: nat, u: nat): seq<BlockView>
    requires i < |p.blocks|
  {
    var b := p.blocks[i].(free := [u] + p.blocks[i].free);
    var bs := p.blocks[i := b];
    if |b.free| == b.units then
      if |bs| > 1 && bs[0].free != [] then Remove(bs, i) else bs
    else if bs[0].free == [] then [b] + Remove(bs, i)
    else bs
  }

  // The result is false when no block owns the address.
  function Free(p: PoolView, a: nat): (PoolView, bool)
    requires p.unitSize >= 1
  {
    var i := FirstOwner(p.unitSize, p.blocks, a);
    if i == |p.blocks| then (p, false)
    else (p.(blocks := Recycle(p, i, (a - p.blocks[i].base) / p.unitSize)), true)
  }

  // ----- The invariant

  ghost predicate BlockOk(b: BlockView) {
    && b.base != NULL
    && b.units >= 1
    && Distinct(b.free)
    && (forall i :: 0 <= i < |b.free| ==> b.free[i] < b.units)
  }

  ghost predicate Apart(unitSize: nat, b: BlockView, c: BlockView) {
    b.base + b.units * unitSize <= c.base || c.base + c.units * unitSize <= b.base
  }

  ghost predicate AllApart(unitSize: nat, bs: seq<BlockView>) {
    forall i, j :: 0 <= i < |bs| && 0 <= j < |bs| && i != j ==> Apart(unitSize, bs[i], bs[j])
  }

  ghost predicate Ok(p: PoolView) {
    && p.unitSize >= 1 && p.initUnits >= 1 && p.growUnits >= 1
    && (forall i :: 0 <= i < |p.blocks| ==> BlockOk(p.blocks[i]))
    && AllApart(p.unitSize, p.blocks)
  }

  // Unit `u` of block `i` is in a client's hands and starts at address `a`.
  ghost predicate LiveAt(unitSize: nat, bs: seq<BlockView>, i: nat, u: nat, a: nat) {
    i < |bs| && u < bs[i].units && u !in bs[i].free && a == Addr(unitSize, bs[i], u)
  }

  ghost predicate LiveIn(unitSize: nat, bs: seq<BlockView>, a: nat) {
    exists i: nat, u: nat :: LiveAt(unitSize, bs, i, u, a)
  }

  ghost predicate IsLive(p: PoolView, a: nat) {
    LiveIn(p.unitSize, p.blocks, a)
  }

  // What the C allocator promises about an address it returns for `units` units.
  ghost predicate SysOk(p: PoolView, sys: nat, units: nat) {
    sys == NULL || forall i :: 0 <= i < |p.blocks| ==> Apart(p.unitSize, BlockView(sys, units, []), p.blocks[i])
  }

  ghost function GrowBy(p: PoolView): nat {
    if p.blocks == [] then p.initUnits else p.growUnits
  }

  // A block is added when none has a free unit.
  lemma MallocGrows(p: PoolView, sys: nat)
    requires p.initUnits >= 1 && p.growUnits >= 1 && FirstRoomy(p.blocks) == |p.blocks|
    ensures Malloc(p, sys) == (if sys == NULL then p else p.(blocks := [NewBlock(sys, GrowBy(p))] + p.blocks), sys)
  {
    assert p.blocks == [] ==> [NewBlock(sys, p.initUnits)] + p.blocks == [NewBlock(sys, p.initUnits)];
  }

  // ----- Address arithmetic

  lemma UnitFits(u: nat, units: nat, size: nat)
    requires u < units
    ensures u * size + size <= units * size
  {
    assert (u + 1) * size <= units * size;
  }

  lemma UnitOfAddr(u: nat, size: nat)
    requires size >= 1
    ensures (u * size) / size == u
  {
    assert u * size == u * size + 0;
    Quotient(u * size, size, u, 0);
  }

  lemma LiveIsOwned(unitSize: nat, bs: seq<BlockView>, i: nat, u: nat, a: nat)
    requires unitSize >= 1 && LiveAt(unitSize, bs, i, u, a)
    ensures Owns(unitSize, bs[i], a)
    ensures (a - bs[i].base) / unitSize == u
  {
    UnitFits(u, bs[i].units, unitSize);
    UnitOfAddr(u, unitSize);
  }

  lemma OneOwner(p: PoolView, i: nat, j: nat, a: nat)
    requires Ok(p) && i < |p.blocks| && j < |p.blocks|
    requires Owns(p.unitSize, p.blocks[i], a) && Owns(p.unitSize, p.blocks[j], a)
    ensures i == j
  {
  }

  // The range search of the free operation finds the one block and unit behind a live address.
  lemma OwnerOfLive(p: PoolView, i: nat, u: nat, a: nat)
    requires Ok(p) && LiveAt(p.unitSize, p.blocks, i, u, a)
    ensures FirstOwner(p.unitSize, p.blocks, a) == i
    ensures (a - p.blocks[i].base) / p.unitSize == u
    ensures forall j: nat, v: nat :: LiveAt(p.unitSize, p.blocks, j, v, a) ==> j == i && v == u
  {
    LiveIsOwned(p.unitSize, p.blocks, i, u, a);
    OneOwner(p, i, FirstOwner(p.unitSize, p.blocks, a), a);
    forall j: nat, v: nat | LiveAt(p.unitSize, p.blocks, j, v, a)
      ensures j == i && v == u
    {
      LiveIsOwned(p.unitSize, p.blocks, j, v, a);
      OneOwner(p, i, j, a);
    }
  }

  // The address of a unit is live exactly when the unit is not on its block's free list.
  lemma HeldIsLive(p: PoolView, i: nat, u: nat)
    requires Ok(p) && i < |p.blocks| && u < p.blocks[i].units
    ensures IsLive(p, Addr(p.unitSize, p.blocks[i], u)) <==> u !in p.blocks[i].free
  {
    var a := Addr(p.unitSize, p.blocks[i], u);
    UnitFits(u, p.blocks[i].units, p.unitSize);
    UnitOfAddr(u, p.unitSize);
    if u !in p.blocks[i].free {
      assert LiveAt(p.unitSize, p.blocks, i, u, a);
    }
    if IsLive(p, a) {
      var j: nat, v: nat :| LiveAt(p.unitSize, p.blocks, j, v, a);
      LiveIsOwned(p.unitSize, p.blocks, j, v, a);
      OneOwner(p, i, j, a);
    }
  }

  // No two units start at the same address.
  lemma OneUnit(p: PoolView, i: nat, u: nat, j: nat, v: nat)
    requires Ok(p) && i < |p.blocks| && j < |p.blocks| && u < p.blocks[i].units && v < p.blocks[j].units
    requires Addr(p.unitSize, p.blocks[i], u) == Addr(p.unitSize, p.blocks[j], v)
    ensures i == j && u == v
  {
    UnitFits(u, p.blocks[i].units, p.unitSize);
    UnitFits(v, p.blocks[j].units, p.unitSize);
    UnitOfAddr(u, p.unitSize);
    UnitOfAddr(v, p.unitSize);
    OneOwner(p, i, j, Addr(p.unitSize, p.blocks[i], u));
  }

  lemma LiveHasOwner(p: PoolView, a: nat)
    requires Ok(p) && IsLive(p, a)
    ensures FirstOwner(p.unitSize, p.blocks, a) < |p.blocks|
  {
    var j: nat, u: nat :| LiveAt(p.unitSize, p.blocks, j, u, a);
    OwnerOfLive(p, j, u, a);
  }

  // The unit behind a live address starts there.
  lemma LiveStartsUnit(p: PoolView, i: nat, a: nat)
    requires Ok(p) && IsLive(p, a) && i == FirstOwner(p.unitSize, p.blocks, a) < |p.blocks|
    ensures a >= p.blocks[i].base && a == Addr(p.unitSize, p.blocks[i], (a - p.blocks[i].base) / p.unitSize)
  {
    var j: nat, u: nat :| LiveAt(p.unitSize, p.blocks, j, u, a);
    OwnerOfLive(p, j, u, a);
  }

  // A unit of a new block at an address that was live before is not the one handed out.
  lemma NewBlockHoldsNothing(p: PoolView, q: PoolView, i: nat, u: nat, r: nat)
    requires Ok(q) && Gains(p, q, r) && i < |q.blocks| && u < q.blocks[i].units
    requires q.blocks[i] == NewBlock(r, q.blocks[i].units)
    ensures !IsLive(p, Addr(q.unitSize, q.blocks[i], u))
  {
    HeldIsLive(q, i, u);
    assert u > 0 ==> q.blocks[i].free[u - 1] == u;
  }

  // ----- What allocation does

  ghost predicate HasRoom(p: PoolView) {
    exists i :: 0 <= i < |p.blocks| && p.blocks[i].free != []
  }

  // Exactly the address `a` becomes live.
  ghost predicate Gains(p: PoolView, q: PoolView, a: nat) {
    && !IsLive(p, a)
    && forall x: nat :: IsLive(q, x) <==> IsLive(p, x) || x == a
  }

  // Exactly the address `a` stops being live.
  ghost predicate Loses(p: PoolView, q: PoolView, a: nat) {
    && IsLive(p, a)
    && forall x: nat :: IsLive(q, x) <==> IsLive(p, x) && x != a
  }

  lemma UpdateOk(p: PoolView, i: nat, b: BlockView)
    requires Ok(p) && i < |p.blocks| && BlockOk(b) && b.base == p.blocks[i].base && b.units == p.blocks[i].units
    ensures Ok(p.(blocks := p.blocks[i := b]))
  {
    var bs := p.blocks[i := b];
    forall j, k | 0 <= j < |bs| && 0 <= k < |bs| && j != k
      ensures Apart(p.unitSize, bs[j], bs[k])
    {
      assert Apart(p.unitSize, p.blocks[j], p.blocks[k]);
    }
  }

  lemma PrependOk(p: PoolView, b: BlockView)
    requires Ok(p) && BlockOk(b)
    requires forall i :: 0 <= i < |p.blocks| ==> Apart(p.unitSize, b, p.blocks[i])
    ensures Ok(p.(blocks := [b] + p.blocks))
  {
    var bs := [b] + p.blocks;
    forall j, k | 0 <= j < k < |bs|
      ensures Apart(p.unitSize, bs[j], bs[k]) && Apart(p.unitSize, bs[k], bs[j])
    {
      assert bs[k] == p.blocks[k - 1];
      assert j > 0 ==> bs[j] == p.blocks[j - 1];
    }
  }

  lemma NewBlockOk(p: PoolView, sys: nat, units: nat)
    requires Ok(p) && sys != NULL && units >= 1 && SysOk(p, sys, units)
    ensures Ok(p.(blocks := [NewBlock(sys, units)] + p.blocks))
  {
    var b := NewBlock(sys, units);
    assert forall i :: 0 <= i < |p.blocks| ==> Apart(p.unitSize, BlockView(sys, units, []), p.blocks[i]);
    PrependOk(p, b);
  }

  lemma MallocKeepsOk(p: PoolView, sys: nat)
    requires Ok(p) && SysOk(p, sys, GrowBy(p))
    ensures Ok(Malloc(p, sys).0)
  {
    var i := FirstRoomy(p.blocks);
    if i < |p.blocks| {
      var b := p.blocks[i];
      assert BlockOk(b);
      UpdateOk(p, i, b.(free := b.free[1..]));
    } else if sys != NULL {
      NewBlockOk(p, sys, GrowBy(p));
      assert p.blocks == [] ==> [NewBlock(sys, p.initUnits)] + p.blocks == [NewBlock(sys, p.initUnits)];
    }
  }

  // Taking unit `u` = the head of the free list of block `i`.
  lemma TakeGains(p: PoolView, i: nat)
    requires Ok(p) && i < |p.blocks| && p.blocks[i].free != []
    ensures var b := p.blocks[i];
            var q := p.(blocks := p.blocks[i := b.(free := b.free[1..])]);
            Gains(p, q, Addr(p.unitSize, b, b.free[0]))
  {
    var b := p.blocks[i];
    var u := b.free[0];
    var a := Addr(p.unitSize, b, u);
    var q := p.(blocks := p.blocks[i := b.(free := b.free[1..])]);
    assert BlockOk(b);
    assert forall v :: v in b.free <==> v == u || v in b.free[1..];
    assert u !in b.free[1..];
    assert LiveAt(p.unitSize, q.blocks, i, u, a);
    forall j: nat, v: nat, x: nat
      ensures LiveAt(p.unitSize, q.blocks, j, v, x) <==> LiveAt(p.unitSize, p.blocks, j, v, x) || (j == i && v == u && x == a)
    {
    }
    assert Ok(q) by {
      assert forall j :: 0 <= j < |p.blocks| ==> q.blocks[j].base == p.blocks[j].base && q.blocks[j].units == p.blocks[j].units;
    }
    OwnerOfLive(q, i, u, a);
    forall x: nat
      ensures IsLive(q, x) <==> IsLive(p, x) || x == a
    {
      if IsLive(p, x) {
        var j: nat, v: nat :| LiveAt(p.unitSize, p.blocks, j, v, x);
        assert LiveAt(p.unitSize, q.blocks, j, v, x);
      }
      if IsLive(q, x) {
        var j: nat, v: nat :| LiveAt(p.unitSize, q.blocks, j, v, x);
        assert LiveAt(p.unitSize, p.blocks, j, v, x) || x == a;
      }
    }
  }

  lemma NewBlockGains(p: PoolView, sys: nat, units: nat)
    requires Ok(p) && sys != NULL && units >= 1 && SysOk(p, sys, units)
    ensures Gains(p, p.(blocks := [NewBlock(sys, units)] + p.blocks), sys)
  {
    var b := NewBlock(sys, units);
    var q := p.(blocks := [b] + p.blocks);
    assert forall v :: v < units && v !in b.free ==> v <= 0 by {
      forall v | 1 <= v < units ensures v in b.free { assert b.free[v - 1] == v; }
    }
    assert LiveAt(p.unitSize, q.blocks, 0, 0, sys);
    forall x: nat
      ensures IsLive(q, x) <==> IsLive(p, x) || x == sys
    {
      if IsLive(p, x) {
        var j: nat, v: nat :| LiveAt(p.unitSize, p.blocks, j, v, x);
        assert LiveAt(p.unitSize, q.blocks, j + 1, v, x);
      }
      if IsLive(q, x) {
        var j: nat, v: nat :| LiveAt(p.unitSize, q.blocks, j, v, x);
        assert j == 0 || LiveAt(p.unitSize, p.blocks, j - 1, v, x);
      }
    }
    forall j: nat, v: nat
      ensures !LiveAt(p.unitSize, p.blocks, j, v, sys)
    {
      if j < |p.blocks| && v < p.blocks[j].units {
        UnitFits(v, p.blocks[j].units, p.unitSize);
        UnitFits(0, units, p.unitSize);
        assert Apart(p.unitSize, BlockView(sys, units, []), p.blocks[j]);
      }
    }
  }

  // A block of `units` units at `base` with its first unit handed out and the others waiting in order.
  ghost predicate MadeFor(b: BlockView, base: nat, units: nat) {
    && b.base == base && b.units == units && |b.free| + 1 == units
    && forall k :: 0 <= k < |b.free| ==> b.free[k] == k + 1
  }

  // The first free unit of block `i`, the first block to have one, is handed out, and nothing else changes.
  ghost predicate TakesHead(p: PoolView, i: nat, q: PoolView, r: nat) {
    && i < |p.blocks| && p.blocks[i].free != [] && (forall j :: 0 <= j < i ==> p.blocks[j].free == [])
    && r == p.blocks[i].base + p.blocks[i].free[0] * p.unitSize
    && q == p.(blocks := p.blocks[i := p.blocks[i].(free := p.blocks[i].free[1..])])
  }

  // Allocation returns a unit nobody holds and disturbs no other; it fails only when the pool is
  // full and the C allocator refuses, and it adds a block exactly when no block has a free unit.
  lemma MallocCorrect(p: PoolView, sys: nat)
    requires Ok(p) && SysOk(p, sys, GrowBy(p))
    ensures var (q, r) := Malloc(p, sys);
            && Ok(q)
            && (r == NULL <==> !HasRoom(p) && sys == NULL)
            && (r == NULL ==> q == p)
            && (r != NULL ==> Gains(p, q, r))
            && |q.blocks| == |p.blocks| + (if HasRoom(p) || sys == NULL then 0 else 1)
            && (q.blocks == [] ==> r == NULL)
            && (HasRoom(p) ==> exists i: nat :: TakesHead(p, i, q, r))
            && (!HasRoom(p) && sys != NULL ==>
                  && r == sys && q.blocks[1..] == p.blocks
                  && MadeFor(q.blocks[0], sys, if p.blocks == [] then p.initUnits else p.growUnits))
  {
    MallocKeepsOk(p, sys);
    var i := FirstRoomy(p.blocks);
    if p.blocks != [] && i < |p.blocks| {
      assert BlockOk(p.blocks[i]);
      TakeGains(p, i);
      assert TakesHead(p, i, Malloc(p, sys).0, Malloc(p, sys).1);
    } else {
      assert !HasRoom(p);
      assert [NewBlock(sys, p.initUnits)] + [] == [NewBlock(sys, p.initUnits)];
      if sys != NULL { NewBlockGains(p, sys, GrowBy(p)); }
    }
  }

  // ----- What freeing does

  ghost function UpTo(n: nat): (r: set<nat>)
    ensures |r| == n
    ensures forall u: nat :: u in r <==> u < n
  {
    if n == 0 then {} else UpTo(n - 1) + {n - 1}
  }

  // Pigeonhole: a duplicate-free list drawn from `pool` is no longer than `pool` is large.
  lemma {:induction false} DistinctFits(s: seq<nat>, pool: set<nat>)
    requires Distinct(s) && forall i :: 0 <= i < |s| ==> s[i] in pool
    ensures |s| <= |pool|
  {
    if s != [] {
      DistinctFits(s[1..], pool - {s[0]});
    }
  }

  lemma FullListHasAll(s: seq<nat>, n: nat)
    requires Distinct(s) && |s| == n && forall i :: 0 <= i < |s| ==> s[i] < n
    ensures forall u: nat :: u < n ==> u in s
  {
    forall u: nat | u < n && u !in s
      ensures false
    {
      DistinctFits(s, UpTo(n) - {u});
    }
  }

  ghost predicate FullyFree(b: BlockView) {
    forall u: nat :: u < b.units ==> u in b.free
  }

  // Every block of `bs` that holds a live unit is on `cs`.
  lemma LiveCarriesOver(unitSize: nat, bs: seq<BlockView>, cs: seq<BlockView>, a: nat)
    requires forall b :: b in bs ==> b in cs || FullyFree(b)
    requires LiveIn(unitSize, bs, a)
    ensures LiveIn(unitSize, cs, a)
  {
    var i: nat, u: nat :| LiveAt(unitSize, bs, i, u, a);
    assert bs[i] in bs;
    var k: nat :| k < |cs| && cs[k] == bs[i];
    assert LiveAt(unitSize, cs, k, u, a);
  }

  // The pool right after the unit went back on its block's free list.
  function Pushed(p: PoolView, i: nat, u: nat): PoolView
    requires i < |p.blocks|
  {
    p.(blocks := p.blocks[i := p.blocks[i].(free := [u] + p.blocks[i].free)])
  }

  lemma PushLoses(p: PoolView, i: nat, u: nat, a: nat)
    requires Ok(p) && LiveAt(p.unitSize, p.blocks, i, u, a)
    ensures Ok(Pushed(p, i, u)) && Loses(p, Pushed(p, i, u), a)
  {
    var q := Pushed(p, i, u);
    assert BlockOk(p.blocks[i]);
    assert forall j :: 0 <= j < |p.blocks| ==> q.blocks[j].base == p.blocks[j].base && q.blocks[j].units == p.blocks[j].units;
    assert Ok(q);
    OwnerOfLive(p, i, u, a);
    forall j: nat, v: nat, x: nat
      ensures LiveAt(p.unitSize, q.blocks, j, v, x) <==> LiveAt(p.unitSize, p.blocks, j, v, x) && (j != i || v != u)
    {
    }
    forall x: nat
      ensures IsLive(q, x) <==> IsLive(p, x) && x != a
    {
      if IsLive(p, x) && x != a {
        var j: nat, v: nat :| LiveAt(p.unitSize, p.blocks, j, v, x);
        assert LiveAt(p.unitSize, q.blocks, j, v, x);
      }
      if IsLive(q, x) {
        var j: nat, v: nat :| LiveAt(p.unitSize, q.blocks, j, v, x);
        assert LiveAt(p.unitSize, p.blocks, j, v, x);
      }
    }
  }

  // `bs` is `cs` unchanged, or with block `i` moved to the front, or without block `i`, of which
  // then no unit is live and which is not the only block.
  ghost predicate KeepsOthers(cs: seq<BlockView>, i: nat, bs: seq<BlockView>)
    requires i < |cs|
  {
    || bs == cs
    || bs == [cs[i]] + Remove(cs, i)
    || (FullyFree(cs[i]) && |cs| > 1 && bs == Remove(cs, i))
  }

  // Any choice of blocks at distinct positions keeps the invariant.
  lemma PickOk(p: PoolView, at: seq<nat>, bs: seq<BlockView>)
    requires Ok(p) && |at| == |bs| && Distinct(at)
    requires forall j :: 0 <= j < |at| ==> at[j] < |p.blocks| && bs[j] == p.blocks[at[j]]
    ensures Ok(p.(blocks := bs))
  {
    forall j, k | 0 <= j < |bs| && 0 <= k < |bs| && j != k
      ensures Apart(p.unitSize, bs[j], bs[k])
    {
      assert at[j] != at[k];
      assert Apart(p.unitSize, p.blocks[at[j]], p.blocks[at[k]]);
    }
  }

  lemma FrontOk(p: PoolView, i: nat)
    requires Ok(p) && i < |p.blocks|
    ensures Ok(p.(blocks := [p.blocks[i]] + Remove(p.blocks, i)))
  {
    var at := seq(|p.blocks|, j requires j >= 0 => if j == 0 then i else if j <= i then j - 1 else j);
    PickOk(p, at, [p.blocks[i]] + Remove(p.blocks, i));
  }

  lemma RemoveOk(p: PoolView, i: nat)
    requires Ok(p) && i < |p.blocks|
    ensures Ok(p.(blocks := Remove(p.blocks, i)))
  {
    PickOk(p, seq(|p.blocks| - 1, j requires j >= 0 => if j < i then j else j + 1), Remove(p.blocks, i));
  }

  lemma KeepsOthersOk(p: PoolView, i: nat, bs: seq<BlockView>)
    requires Ok(p) && i < |p.blocks| && KeepsOthers(p.blocks, i, bs)
    ensures Ok(p.(blocks := bs))
  {
    FrontOk(p, i);
    RemoveOk(p, i);
  }

  lemma KeepsOthersLive(p: PoolView, i: nat, bs: seq<BlockView>, x: nat)
    requires i < |p.blocks| && KeepsOthers(p.blocks, i, bs)
    ensures IsLive(p, x) <==> IsLive(p.(blocks := bs), x)
  {
    var cs := p.blocks;
    assert cs == cs[..i] + [cs[i]] + cs[i + 1..];
    assert forall b :: b in cs ==> b in bs || FullyFree(b);
    assert forall b :: b in bs ==> b in cs;
    if IsLive(p, x) { LiveCarriesOver(p.unitSize, cs, bs, x); }
    if IsLive(p.(blocks := bs), x) { LiveCarriesOver(p.unitSize, bs, cs, x); }
  }

  // Freeing a live unit finds its block by range search, makes exactly that unit free again, drops
  // a block only when none of its units is live and never the last one, keeps every other block,
  // and, if the unit's block is still partly used, leaves a free unit in the first block.
  lemma FreeCorrect(p: PoolView, i: nat, u: nat, a: nat)
    requires Ok(p) && LiveAt(p.unitSize, p.blocks, i, u, a)
    ensures var (q, ok) := Free(p, a);
            var pushed := Pushed(p, i, u).blocks;
            && ok && Ok(q)
            && Loses(p, q, a)
            && KeepsOthers(pushed, i, q.blocks)
            && q.blocks != []
            && (q.blocks[0].free != [] || FullyFree(pushed[i]))
  {
    OwnerOfLive(p, i, u, a);
    PushLoses(p, i, u, a);
    var q := Free(p, a).0;
    var pushed := Pushed(p, i, u);
    assert BlockOk(pushed.blocks[i]);
    if |pushed.blocks[i].free| == pushed.blocks[i].units {
      FullListHasAll(pushed.blocks[i].free, pushed.blocks[i].units);
    }
    KeepsOthersOk(pushed, i, q.blocks);
    forall x: nat
      ensures IsLive(q, x) <==> IsLive(pushed, x)
    {
      KeepsOthersLive(pushed, i, q.blocks, x);
    }
  }

  // No unit of block `i` but `u` is live.
  ghost predicate LastUnit(p: PoolView, i: nat, u: nat)
    requires i < |p.blocks|
  {
    forall v: nat :: v < p.blocks[i].units && v != u ==> !IsLive(p, Addr(p.unitSize, p.blocks[i], v))
  }

  // When a unit of block `i` has come free the first block has a free unit.
  ghost predicate RoomInFront(p: PoolView, i: nat)
    requires i < |p.blocks|
  {
    i == 0 || p.blocks[0].free != []
  }

  lemma LastUnitFills(p: PoolView, i: nat, u: nat)
    requires Ok(p) && i < |p.blocks| && u < p.blocks[i].units && u !in p.blocks[i].free
    ensures LastUnit(p, i, u) <==> |p.blocks[i].free| + 1 == p.blocks[i].units
  {
    var b := p.blocks[i];
    assert BlockOk(b);
    LastUnitIs(p, i, u);
    FullExactly([u] + b.free, b.units);
  }

  lemma LastUnitIs(p: PoolView, i: nat, u: nat)
    requires Ok(p) && i < |p.blocks| && u < p.blocks[i].units
    ensures LastUnit(p, i, u) <==> HasAll([u] + p.blocks[i].free, p.blocks[i].units)
  {
    var b := p.blocks[i];
    var free := [u] + b.free;
    assert forall v :: v in free <==> v == u || v in b.free;
    forall v: nat | v < b.units
      ensures IsLive(p, Addr(p.unitSize, b, v)) <==> v !in b.free
    {
      HeldIsLive(p, i, v);
    }
    if LastUnit(p, i, u) {
      forall v: nat | v < b.units
        ensures v in free
      {
        assert v != u ==> !IsLive(p, Addr(p.unitSize, b, v));
      }
    }
  }

  ghost predicate HasAll(s: seq<nat>, n: nat) {
    forall v: nat :: v < n ==> v in s
  }

  lemma FullExactly(s: seq<nat>, n: nat)
    requires Distinct(s) && forall i :: 0 <= i < |s| ==> s[i] < n
    ensures HasAll(s, n) <==> |s| == n
  {
    if |s| == n {
      FullListHasAll(s, n);
    } else if HasAll(s, n) {
      AllUnitsFill(s, n);
    }
  }

  lemma AllUnitsFill(s: seq<nat>, n: nat)
    requires Distinct(s) && (forall i :: 0 <= i < |s| ==> s[i] < n) && HasAll(s, n)
    ensures |s| == n
  {
    DistinctFits(s, UpTo(n));
    SetOfSeq(s);
    SubsetCardLe(UpTo(n), set v | v in s);
  }

  // What becomes of the list: the unit's block goes exactly when no other unit of it is live, it is not
  // the only block and the first block has room; it comes to the front exactly when it stays partly
  // used and the first block has no room; otherwise the order is unchanged.  No other block changes.
  lemma FreeSettles(p: PoolView, i: nat, u: nat, a: nat)
    requires Ok(p) && LiveAt(p.unitSize, p.blocks, i, u, a)
    ensures var b := p.blocks[i].(free := [u] + p.blocks[i].free);
            var others := p.blocks[..i] + p.blocks[i + 1..];
            Free(p, a).0 == p.(blocks :=
              if LastUnit(p, i, u) && |p.blocks| > 1 && RoomInFront(p, i) then others
              else if !LastUnit(p, i, u) && !RoomInFront(p, i) then [b] + others
              else p.blocks[i := b])
  {
    OwnerOfLive(p, i, u, a);
    LastUnitFills(p, i, u);
    var b := p.blocks[i].(free := [u] + p.blocks[i].free);
    assert Remove(p.blocks[i := b], i) == p.blocks[..i] + p.blocks[i + 1..];
  }

  // In terms of the list before and after: the block is gone exactly in the first case.
  lemma FreeReleases(p: PoolView, i: nat, u: nat, a: nat)
    requires Ok(p) && LiveAt(p.unitSize, p.blocks, i, u, a)
    ensures (exists c :: c in Free(p, a).0.blocks && c.base == p.blocks[i].base) <==>
            !(LastUnit(p, i, u) && |p.blocks| > 1 && RoomInFront(p, i))
  {
    FreeSettles(p, i, u, a);
    var cs, qs := p.blocks, Free(p, a).0.blocks;
    var b := cs[i].(free := [u] + cs[i].free);
    if LastUnit(p, i, u) && |cs| > 1 && RoomInFront(p, i) {
      forall c | c in qs
        ensures c.base != cs[i].base
      {
        var j :| 0 <= j < |cs| && j != i && cs[j] == c;
        DifferentBases(p, i, j);
      }
    } else {
      assert cs[i := b][i] in cs[i := b] && b in qs;
    }
  }

  lemma DifferentBases(p: PoolView, i: nat, j: nat)
    requires Ok(p) && i < |p.blocks| && j < |p.blocks| && i != j
    ensures p.blocks[i].base != p.blocks[j].base
  {
    if p.blocks[i].base == p.blocks[j].base {
      assert BlockOk(p.blocks[i]) && BlockOk(p.blocks[j]);
      OneUnit(p, i, 0, j, 0);
    }
  }

  // A unit that went back is the next one its block hands out.
  lemma FreedIsNext(p: PoolView, i: nat, u: nat, a: nat, sys: nat)
    requires Ok(p) && LiveAt(p.unitSize, p.blocks, i, u, a)
    requires var q := Free(p, a).0;
             var k := FirstRoomy(q.blocks);
             k < |q.blocks| && q.blocks[k].base == p.blocks[i].base
    ensures Malloc(Free(p, a).0, sys).1 == a
  {
    FreeSettles(p, i, u, a);
    var q := Free(p, a).0;
    var k := FirstRoomy(q.blocks);
    var b := p.blocks[i].(free := [u] + p.blocks[i].free);
    assert q.blocks[k] in q.blocks;
    if q.blocks[k] != b {
      var j :| 0 <= j < |p.blocks| && j != i && p.blocks[j] == q.blocks[k];
      DifferentBases(p, i, j);
    }
  }

  // No block owns the address.
  ghost predicate Foreign(p: PoolView, a: nat) {
    forall i :: 0 <= i < |p.blocks| ==> !Owns(p.unitSize, p.blocks[i], a)
  }

  lemma NullIsForeign(p: PoolView)
    requires Ok(p)
    ensures Foreign(p, NULL)
  {
    assert forall i :: 0 <= i < |p.blocks| ==> BlockOk(p.blocks[i]);
  }

  // What the range search of the code leads to: a foreign address is reported and changes nothing,
  // a live one goes back to its block.
  lemma FreeFound(p: PoolView, i: nat, a: nat)
    requires Ok(p) && (IsLive(p, a) || Foreign(p, a)) && i == FirstOwner(p.unitSize, p.blocks, a)
    ensures i == |p.blocks| <==> Foreign(p, a)
    ensures i == |p.blocks| ==> Free(p, a) == (p, false)
    ensures i < |p.blocks| ==>
            && a >= p.blocks[i].base
            && var u := (a - p.blocks[i].base) / p.unitSize;
            && 0 <= u < p.blocks[i].units && u !in p.blocks[i].free
            && Free(p, a) == (p.(blocks := Recycle(p, i, u)), true)
  {
    if i < |p.blocks| {
      var j: nat, u: nat :| LiveAt(p.unitSize, p.blocks, j, u, a);
      OwnerOfLive(p, j, u, a);
    }
  }

  // ----- Whole runs

  // What a program may do with the pool: allocate, free, and store into word `k` of a unit it holds.
  datatype Op = OpMalloc(sys: nat) | OpFree(a: nat) | OpWrite(a: nat, k: nat, value: int)

  // The pool together with the addresses the program believes it holds and what it stored there.
  datatype Session = Session(pool: PoolView, held: set<nat>, data: map<(nat, nat), int>)

  function NewPool(unitSize: nat, initUnits: nat, growUnits: nat): PoolView {
    PoolView(unitSize, initUnits, growUnits, [])
  }

  // A program frees and writes only what it holds; the C allocator keeps its blocks apart.
  ghost predicate Allowed(s: Session, op: Op)
  {
    match op
    case OpMalloc(sys) => SysOk(s.pool, sys, GrowBy(s.pool))
    case OpFree(a) => a in s.held
    case OpWrite(a, k, _) => a in s.held && (k + 1) * WORD_BYTES <= s.pool.unitSize
  }

  // What was stored in other units than the one at `a`.
  function Forget(data: map<(nat, nat), int>, a: nat): map<(nat, nat), int> {
    map key | key in data && key.0 != a :: data[key]
  }

  function Step(s: Session, op: Op): Session
    requires s.pool.unitSize >= 1 && s.pool.initUnits >= 1 && s.pool.growUnits >= 1
  {
    match op
    case OpMalloc(sys) =>
      var (q, r) := Malloc(s.pool, sys);
      s.(pool := q, held := if r == NULL then s.held else s.held + {r})
    case OpFree(a) =>
      Session(Free(s.pool, a).0, s.held - {a}, Forget(s.data, a))
    case OpWrite(a, k, value) => s.(data := s.data[(a, k) := value])
  }

  ghost predicate Follows(s: Session, op: Op, t: Session) {
    && s.pool.unitSize >= 1 && s.pool.initUnits >= 1 && s.pool.growUnits >= 1
    && Allowed(s, op) && t == Step(s, op)
  }

  // `ss` lists sessions, one more than there are operations between them.
  ghost predicate IsTrace(ss: seq<Session>, ops: seq<Op>) {
    |ss| == |ops| + 1 && forall k :: 0 <= k < |ops| ==> Follows(ss[k], ops[k], ss[k + 1])
  }

  // A run begins with an empty pool.
  ghost predicate IsRun(unitSize: nat, initUnits: nat, growUnits: nat, ss: seq<Session>, ops: seq<Op>) {
    && unitSize >= 1 && initUnits >= 1 && growUnits >= 1
    && IsTrace(ss, ops)
    && ss[0] == Session(NewPool(unitSize, initUnits, growUnits), {}, map[])
  }

  // The allocations got the addresses `rs` say.
  ghost predicate Answered(ss: seq<Session>, ops: seq<Op>, rs: seq<nat>) {
    |rs| == |ops| < |ss| && forall k :: 0 <= k < |ops| && ops[k].OpMalloc? ==> Got(ss[k].pool, ops[k].sys, rs[k])
  }

  lemma AnsweredNext(ss: seq<Session>, ops: seq<Op>, n: nat, rs: seq<nat>, r: nat)
    requires n < |ops| < |ss| && Answered(ss, ops[..n], rs)
    requires ops[n].OpMalloc? ==> Got(ss[n].pool, ops[n].sys, r)
    ensures Answered(ss, ops[..n + 1], rs + [r])
  {
  }

  ghost predicate Got(p: PoolView, sys: nat, r: nat) {
    p.initUnits >= 1 && p.growUnits >= 1 && Malloc(p, sys).1 == r
  }

  // Units handed out and not returned.
  function InUse(bs: seq<BlockView>): int {
    if bs == [] then 0 else bs[0].units - |bs[0].free| + InUse(bs[1..])
  }

  ghost predicate SessionOk(s: Session) {
    && Ok(s.pool)
    && (forall a: nat :: a in s.held <==> IsLive(s.pool, a))
    && |s.held| == InUse(s.pool.blocks)
    && forall key :: key in s.data ==> key.0 in s.held && (key.1 + 1) * WORD_BYTES <= s.pool.unitSize
  }

  lemma {:induction false} InUseConcat(bs: seq<BlockView>, cs: seq<BlockView>)
    ensures InUse(bs + cs) == InUse(bs) + InUse(cs)
  {
    if bs == [] {
      assert bs + cs == cs;
    } else {
      assert (bs + cs)[1..] == bs[1..] + cs;
      InUseConcat(bs[1..], cs);
    }
  }

  lemma InUseAround(bs: seq<BlockView>, i: nat)
    requires i < |bs|
    ensures InUse(bs) == InUse(Remove(bs, i)) + bs[i].units - |bs[i].free|
  {
    assert bs == bs[..i] + ([bs[i]] + bs[i + 1..]);
    InUseConcat(bs[..i], [bs[i]] + bs[i + 1..]);
    InUseConcat([bs[i]], bs[i + 1..]);
    InUseConcat(bs[..i], bs[i + 1..]);
  }

  lemma InUseUpdate(bs: seq<BlockView>, i: nat, b: BlockView)
    requires i < |bs|
    ensures InUse(bs[i := b]) == InUse(bs) - (bs[i].units - |bs[i].free|) + b.units - |b.free|
  {
    InUseAround(bs, i);
    InUseAround(bs[i := b], i);
    assert Remove(bs, i) == Remove(bs[i := b], i);
  }

  lemma MallocInUse(p: PoolView, sys: nat)
    requires Ok(p)
    ensures var (q, r) := Malloc(p, sys);
            r != NULL ==> InUse(q.blocks) == InUse(p.blocks) + 1
  {
    var i := FirstRoomy(p.blocks);
    if p.blocks != [] && i < |p.blocks| {
      InUseUpdate(p.blocks, i, p.blocks[i].(free := p.blocks[i].free[1..]));
    } else if p.blocks != [] && sys != NULL {
      InUseConcat([NewBlock(sys, p.growUnits)], p.blocks);
    }
  }

  lemma FreeInUse(p: PoolView, i: nat, u: nat, a: nat)
    requires Ok(p) && LiveAt(p.unitSize, p.blocks, i, u, a)
    ensures InUse(Free(p, a).0.blocks) == InUse(p.blocks) - 1
  {
    OwnerOfLive(p, i, u, a);
    var b := p.blocks[i].(free := [u] + p.blocks[i].free);
    var bs := p.blocks[i := b];
    InUseUpdate(p.blocks, i, b);
    InUseAround(bs, i);
    InUseConcat([b], Remove(bs, i));
  }

  lemma MallocStepKeeps(s: Session, sys: nat)
    requires SessionOk(s) && Allowed(s, OpMalloc(sys))
    ensures SessionOk(Step(s, OpMalloc(sys)))
    ensures s.pool.blocks != [] ==> Step(s, OpMalloc(sys)).pool.blocks != []
  {
    MallocCorrect(s.pool, sys);
    MallocInUse(s.pool, sys);
  }

  lemma FreeStepKeeps(s: Session, a: nat)
    requires SessionOk(s) && Allowed(s, OpFree(a))
    ensures SessionOk(Step(s, OpFree(a))) && Step(s, OpFree(a)).pool.blocks != []
  {
    var i: nat, u: nat :| LiveAt(s.pool.unitSize, s.pool.blocks, i, u, a);
    FreeCorrect(s.pool, i, u, a);
    FreeInUse(s.pool, i, u, a);
  }

  lemma StepKeeps(s: Session, op: Op)
    requires SessionOk(s) && Allowed(s, op)
    ensures SessionOk(Step(s, op))
    ensures s.pool.blocks != [] ==> Step(s, op).pool.blocks != []
  {
    match op {
      case OpMalloc(sys) => MallocStepKeeps(s, sys);
      case OpFree(a) => FreeStepKeeps(s, a);
      case OpWrite(_, _, _) =>
    }
  }

  // In every run, at every point, what the program believes it holds is exactly what the pool has
  // handed out, and the pool's books balance.
  lemma {:induction false} EveryRunIsOk(unitSize: nat, initUnits: nat, growUnits: nat, ss: seq<Session>, ops: seq<Op>, k: nat)
    requires IsRun(unitSize, initUnits, growUnits, ss, ops) && k < |ss|
    ensures SessionOk(ss[k])
  {
    if k == 0 {
      assert forall i: nat, u: nat, a: nat :: !LiveAt(unitSize, [], i, u, a);
    } else {
      EveryRunIsOk(unitSize, initUnits, growUnits, ss, ops, k - 1);
      assert Follows(ss[k - 1], ops[k - 1], ss[k]);
      StepKeeps(ss[k - 1], ops[k - 1]);
    }
  }

  // In every run no allocation ever returns an address that is still held.
  lemma NoDoubleAllocation(unitSize: nat, initUnits: nat, growUnits: nat, ss: seq<Session>, ops: seq<Op>, k: nat)
    requires IsRun(unitSize, initUnits, growUnits, ss, ops) && k < |ops| && ops[k].OpMalloc?
    ensures Follows(ss[k], ops[k], ss[k + 1])
    ensures var r := Malloc(ss[k].pool, ops[k].sys).1;
            r != NULL ==> r !in ss[k].held && ss[k + 1].held == ss[k].held + {r}
  {
    EveryRunIsOk(unitSize, initUnits, growUnits, ss, ops, k);
    assert Follows(ss[k], ops[k], ss[k + 1]);
    MallocCorrect(ss[k].pool, ops[k].sys);
  }

  // Once it has a block, the pool always has one.
  lemma {:induction false} NeverEmptyAgain(unitSize: nat, initUnits: nat, growUnits: nat, ss: seq<Session>, ops: seq<Op>, j: nat, k: nat)
    requires IsRun(unitSize, initUnits, growUnits, ss, ops) && j <= k < |ss| && ss[j].pool.blocks != []
    ensures ss[k].pool.blocks != []
    decreases k - j
  {
    if j < k {
      EveryRunIsOk(unitSize, initUnits, growUnits, ss, ops, j);
      assert Follows(ss[j], ops[j], ss[j + 1]);
      StepKeeps(ss[j], ops[j]);
      NeverEmptyAgain(unitSize, initUnits, growUnits, ss, ops, j + 1, k);
    }
  }
}
