/**
 The unit pool of utils/mempool.c on the heap: a singly linked list of blocks whose free units hold,
 in their own first word, the number of the next free unit.  Each operation is proved to act on the
 pool's view as MempoolSpec says.  Operations run under one spin lock, so each is one atomic step.
 */
module Mempool {
  import opened MempoolSpec
  import opened Seqs

  const ALIGNMENT := 8

  function RoundUp(bytes: nat): (r: nat)
    ensures r >= bytes && r < bytes + ALIGNMENT && r % ALIGNMENT == 0
  {
    (bytes + (ALIGNMENT - 1)) / ALIGNMENT * ALIGNMENT
  }

  class Block {
    const base: nat               // address of unit 0
    const units: nat
    const unitSize: nat           // in bytes
    const blockSize: nat := units * unitSize
    const words: array2<int>      // words[u, k] is word k of unit u
    var freeUnitCount: nat
    var freeUnitPos: int
    var next: Block?
    ghost var free: seq<nat>      // the free units in list order

    function AddrOf(u: nat): nat {
      base + u * unitSize
    }

    // The units met when following the stored links from unit `pos` for `n` steps.
    ghost function Follow(pos: int, n: nat): seq<int>
      reads words
      decreases n
    {
      if n == 0 || pos < 0 || words.Length0 <= pos || words.Length1 == 0 then []
      else [pos] + Follow(words[pos, 0], n - 1)
    }

    // The free list lives in the free units: `freeUnitPos` starts it, each first word continues it,
    // and the number one past the last unit ends it.
    ghost predicate Valid()
      reads this`free, this`freeUnitCount, this`freeUnitPos, words
    {
      && BlockOk(View())
      && words.Length0 == units && words.Length1 >= 1 && unitSize == words.Length1 * WORD_BYTES
      && freeUnitCount == |free|
      && freeUnitPos == NextOf(0)
      && forall i {:trigger words[free[i], 0]} :: 0 <= i < |free| ==> words[free[i], 0] == NextOf(i + 1)
    }

    ghost function NextOf(i: nat): int
      reads this`free
    {
      if i < |free| then free[i] else units
    }

    ghost function View(): BlockView
      reads this`free
    {
      BlockView(base, units, free)
    }

    // xm_memblock_create: unit 0 is handed out at once, the others are linked in order.
    constructor (unitWords: nat, unitCount: nat, sys: nat)
      requires unitWords >= 1 && unitCount >= 1 && sys != NULL
      ensures Valid() && fresh(words) && next == null
      ensures unitSize == unitWords * WORD_BYTES
      ensures View() == NewBlock(sys, unitCount)
    {
      var w := new int[unitCount, unitWords];
      for i := 1 to unitCount + 1
        invariant forall j :: 0 <= j < i - 1 ==> w[j, 0] == j + 1
      {
        w[i - 1, 0] := i;
      }
      base, units, unitSize, words := sys, unitCount, unitWords * WORD_BYTES, w;
      next := null;
      freeUnitPos := 1;
      freeUnitCount := unitCount - 1;
      free := seq(unitCount - 1, i requires i >= 0 => i + 1);
    }

    // No unit but `u` has changed its contents.
    twostate predicate OthersKept(u: nat)
      reads words
    {
      forall v, k :: 0 <= v < words.Length0 && 0 <= k < words.Length1 && v != u ==> words[v, k] == old(words[v, k])
    }

    // No unit but the one at address `a` has changed its contents.
    twostate predicate DataKept(a: nat)
      reads words
    {
      forall v: nat, k :: v < words.Length0 && 0 <= k < words.Length1 && AddrOf(v) != a ==> words[v, k] == old(words[v, k])
    }

    // Unlink the first free unit; its whole memory is now the caller's.
    method Take() returns (u: nat)
      requires Valid() && freeUnitCount > 0
      modifies this`freeUnitPos, this`freeUnitCount, this`free
      ensures Valid()
      ensures u == old(free)[0] && free == old(free)[1..]
    {
      u := freeUnitPos;
      freeUnitPos := words[u, 0];
      freeUnitCount := freeUnitCount - 1;
      free := free[1..];
    }

    // Link a returned unit in front of the free list, overwriting its first word.
    method Put(u: nat)
      requires Valid() && u < units && u !in free
      modifies this`freeUnitPos, this`freeUnitCount, this`free, words
      ensures Valid()
      ensures free == [u] + old(free)
      ensures forall k :: 0 < k < words.Length1 ==> words[u, k] == old(words[u, k])
      ensures OthersKept(u)
    {
      freeUnitCount := freeUnitCount + 1;
      words[u, 0] := freeUnitPos;
      freeUnitPos := u;
      free := [u] + free;
    }

    // The holder of a unit may store anything anywhere in it.
    method Write(u: nat, k: nat, value: int)
      requires Valid() && u < units && u !in free && k < words.Length1
      modifies words
      ensures Valid() && words[u, k] == value
      ensures forall v, j :: 0 <= v < units && 0 <= j < words.Length1 && (v != u || j != k) ==> words[v, j] == old(words[v, j])
    {
      words[u, k] := value;
    }
  }

  class Pool {
    const unitWords: nat
    const unitSize: nat           // in bytes
    const initUnits: nat
    const growUnits: nat
    var blockCount: nat
    var root: Block?
    ghost var blocks: seq<Block>

    // Blocks that have joined the list are new, and so is their memory.
    twostate predicate OldOrFresh()
      reads this`blocks
    {
      forall b :: b in blocks ==> b in old(blocks) || (fresh(b) && fresh(b.words))
    }

    ghost predicate Linked()
      reads this, blocks
    {
      && root == (if blocks == [] then null else blocks[0])
      && forall i {:trigger blocks[i].next} :: 0 <= i < |blocks| ==> blocks[i].next == (if i + 1 < |blocks| then blocks[i + 1] else null)
    }

    ghost predicate Separate()
      reads this
    {
      forall i, j :: 0 <= i < j < |blocks| ==> blocks[i] != blocks[j] && blocks[i].words != blocks[j].words
    }

    ghost predicate Valid()
      reads this, blocks, set b: Block | b in blocks :: b.words
    {
      && unitSize == unitWords * WORD_BYTES && unitWords >= 1 && initUnits >= 1 && growUnits >= 1
      && Linked()
      && Separate()
      && blockCount == |blocks|
      && AllValid(blocks, unitSize)
    }

    static ghost predicate AllValid(bs: seq<Block>, unitSize: nat)
      reads bs`free, bs`freeUnitCount, bs`freeUnitPos, set b: Block | b in bs :: b.words
    {
      forall b :: b in bs ==> b.Valid() && b.unitSize == unitSize
    }

    static lemma AllValidCons(b: Block, bs: seq<Block>, unitSize: nat)
      requires b.Valid() && b.unitSize == unitSize && AllValid(bs, unitSize)
      ensures AllValid([b] + bs, unitSize)
    {
    }

    ghost function View(): PoolView
      reads this, blocks`free
    {
      PoolView(unitSize, initUnits, growUnits, Views(blocks))
    }

    static ghost function Views(bs: seq<Block>): (r: seq<BlockView>)
      reads bs`free
      ensures |r| == |bs|
      ensures forall i :: 0 <= i < |bs| ==> r[i] == bs[i].View()
    {
      if bs == [] then [] else [bs[0].View()] + Views(bs[1..])
    }

    // xm_mempool_init: nothing comes back for a count that is not positive; `memory` tells whether the
    // C allocator has room for the pool.
    static method Init(unitBytes: nat, init: int, grow: int, memory: bool) returns (pool: Pool?)
      requires unitBytes >= 1
      ensures pool == null <==> init <= 0 || grow <= 0 || !memory
      ensures pool != null ==>
                && fresh(pool) && pool.blocks == [] && pool.Valid() && Ok(pool.View()) && pool.View() == NewPool(pool.unitSize, init, grow)
                && unitBytes <= pool.unitSize < unitBytes + ALIGNMENT && pool.unitSize % ALIGNMENT == 0
    {
      if init <= 0 || grow <= 0 || !memory {
        return null;
      }
      pool := new Pool(unitBytes, init, grow);
    }

    constructor (unitBytes: nat, init: nat, grow: nat)
      requires unitBytes >= 1 && init >= 1 && grow >= 1
      ensures Valid() && blocks == [] && Ok(View()) && View() == NewPool(unitSize, init, grow)
      ensures unitSize >= unitBytes && unitSize % ALIGNMENT == 0 && unitSize < unitBytes + ALIGNMENT
    {
      unitSize, unitWords := RoundUp(unitBytes), RoundUp(unitBytes) / WORD_BYTES;
      initUnits, growUnits := init, grow;
      blockCount, root, blocks := 0, null, [];
    }

    // What an update of the one block `i` does to the view of the list.
    twostate lemma OneBlockChanged(i: nat)
      requires i < |blocks| && blocks == old(blocks) && Separate()
      requires forall j :: 0 <= j < |blocks| && j != i ==> unchanged(blocks[j])
      ensures Views(blocks) == old(Views(blocks))[i := blocks[i].View()]
    {
    }

    method Take(block: Block, ghost i: nat) returns (r: nat)
      requires Valid() && i < |blocks| && block == blocks[i] && block.free != []
      modifies block
      ensures Valid() && blocks == old(blocks)
      ensures View() == old(View()).(blocks := old(Views(blocks))[i := old(block.View()).(free := old(block.free)[1..])])
      ensures r == Addr(unitSize, old(block.View()), old(block.free)[0])
    {
      var u := block.Take();
      r := block.base + u * unitSize;
      OneBlockChanged(i);
      forall b | b in blocks
        ensures b.Valid()
      {
        assert b != block ==> old(b.Valid());
      }
    }

    // Make `b` the first block of the list.
    method Prepend(b: Block)
      requires Linked() && Separate()
      requires forall i :: 0 <= i < |blocks| ==> blocks[i] != b && blocks[i].words != b.words
      modifies this`root, this`blocks, b`next
      ensures Linked() && Separate()
      ensures blocks == [b] + old(blocks)
    {
      b.next := root;
      root, blocks := b, [b] + blocks;
    }

    // A block just made for an allocation that returned `r`.
    static ghost predicate IsNew(b: Block, r: nat)
      reads b`free
    {
      b.units >= 1 && b.View() == NewBlock(r, b.units)
    }

    method Grow(count: nat, sys: nat) returns (b: Block)
      requires Valid() && sys != NULL && count >= 1 && unitWords >= 1
      modifies this
      ensures Valid() && b.View() == NewBlock(sys, count)
      ensures blocks == [b] + old(blocks)
      ensures OldOrFresh()
    {
      b := new Block(unitWords, count, sys);
      assert forall i :: 0 <= i < |blocks| ==> blocks[i].words != b.words;
      Prepend(b);
      blockCount := blockCount + 1;
      AllValidCons(b, old(blocks), unitSize);
    }

    // What that does to the view.
    method GrowView(count: nat, sys: nat) returns (b: Block)
      requires Valid() && sys != NULL && count >= 1
      modifies this
      ensures Valid() && b.base == sys && IsNew(b, sys)
      ensures View() == old(View()).(blocks := [NewBlock(sys, count)] + old(View()).blocks)
      ensures forall c :: c in blocks ==> c == b || c in old(blocks)
      ensures OldOrFresh()
    {
      b := Grow(count, sys);
      ViewsCons(b, old(blocks));
    }

    // The first block with a free unit, and its position.
    method FindRoomy() returns (block: Block?, ghost i: nat)
      requires Valid()
      ensures i == FirstRoomy(Views(blocks))
      ensures block == if i < |blocks| then blocks[i] else null
    {
      block, i := root, 0;
      while block != null && block.freeUnitCount == 0
        invariant i <= |blocks|
        invariant block == if i < |blocks| then blocks[i] else null
        invariant forall j :: 0 <= j < i ==> blocks[j].free == []
        decreases |blocks| - i
      {
        assert block in blocks;
        block := block.next;
        i := i + 1;
      }
      assert block != null ==> block in blocks;
      FirstRoomyIs(Views(blocks), i);
    }

    // A new block; its first unit goes to the caller.
    method GrowAndTake(count: nat, sys: nat) returns (r: nat)
      requires Valid() && count >= 1
      modifies this
      ensures Valid() && r == sys
      ensures View() == if sys == NULL then old(View()) else old(View()).(blocks := [NewBlock(sys, count)] + old(View()).blocks)
      ensures forall b :: b in blocks ==> b in old(blocks) || IsNew(b, r)
      ensures OldOrFresh()
    {
      if sys == NULL {
        return NULL;
      }
      var b := GrowView(count, sys);
      r := b.base;
    }

    // xm_mempool_malloc; `sys` is the address the C allocator gives for a new block, NULL if it fails.
    method Malloc(sys: nat) returns (r: nat)
      requires Valid()
      modifies this, blocks
      ensures Valid() && (View(), r) == MempoolSpec.Malloc(old(View()), sys)
      ensures forall b :: b in blocks ==> b in old(blocks) || IsNew(b, r)
      ensures OldOrFresh()
    {
      if root == null {
        MallocGrows(View(), sys);
        r := GrowAndTake(initUnits, sys);
        return;
      }
      var block, i := FindRoomy();
      if block != null {
        r := Take(block, i);
      } else {
        MallocGrows(View(), sys);
        r := GrowAndTake(growUnits, sys);
      }
    }

    // Take block `i` off the list; `prev` is the block before it.
    method Unlink(prev: Block?, block: Block, ghost i: nat)
      requires Linked() && Separate()
      requires i < |blocks| && block == blocks[i] && (i > 0 ==> prev == blocks[i - 1])
      modifies this`root, this`blocks, (if i > 0 then {blocks[i - 1]} else {})`next
      ensures Linked() && Separate()
      ensures blocks == Remove(old(blocks), i)
    {
      if block == root {
        root := block.next;
      } else {
        prev.next := block.next;
      }
      ghost var rest := Remove(blocks, i);
      assert forall j :: 0 <= j < |rest| ==> rest[j] == blocks[if j < i then j else j + 1];
      blocks := rest;
    }

    lemma AllFree(b: Block)
      requires Valid() && b in blocks && unitSize >= 1
      ensures b.blockSize == b.freeUnitCount * unitSize <==> |b.free| == b.units
    {
      assert b.freeUnitCount < b.units ==> (b.freeUnitCount + 1) * unitSize <= b.units * unitSize;
      assert b.freeUnitCount > b.units ==> (b.units + 1) * unitSize <= b.freeUnitCount * unitSize;
    }

    method Put(block: Block, ghost i: nat, u: nat)
      requires Valid() && i < |blocks| && block == blocks[i] && u < block.units && u !in block.free
      modifies block`freeUnitPos, block`freeUnitCount, block`free, block.words
      ensures Valid()
      ensures View() == Pushed(old(View()), i, u)
      ensures block.OthersKept(u)
    {
      block.Put(u);
      OneBlockChanged(i);
      forall b | b in blocks
        ensures b.Valid()
      {
        assert b != block ==> old(b.Valid()) && b.words != block.words;
      }
    }

    static lemma ViewsCons(b: Block, bs: seq<Block>)
      ensures Views([b] + bs) == [b.View()] + Views(bs)
    {
    }

    static lemma ViewsRemove(bs: seq<Block>, i: nat)
      requires i < |bs|
      ensures Views(Remove(bs, i)) == Remove(Views(bs), i)
    {
      var rest := Remove(bs, i);
      forall j | 0 <= j < |rest|
        ensures Views(rest)[j] == Remove(Views(bs), i)[j]
      {
        assert rest[j] == bs[if j < i then j else j + 1];
      }
    }

    static lemma AllValidSome(bs: seq<Block>, cs: seq<Block>, unitSize: nat)
      requires AllValid(bs, unitSize) && forall b :: b in cs ==> b in bs
      ensures AllValid(cs, unitSize)
    {
    }

    // Give the block back to the C allocator.
    method Release(prev: Block?, block: Block, ghost i: nat)
      requires Valid() && i < |blocks| && block == blocks[i] && (i > 0 ==> prev == blocks[i - 1])
      modifies this, blocks`next
      ensures Valid() && blocks == Remove(old(blocks), i)
      ensures forall b :: b in blocks ==> b in old(blocks)
    {
      Unlink(prev, block, i);
      blockCount := blockCount - 1;
      AllValidSome(old(blocks), blocks, unitSize);
    }

    method MoveToFront(prev: Block?, block: Block, ghost i: nat)
      requires Valid() && i < |blocks| && block == blocks[i] && (i > 0 ==> prev == blocks[i - 1])
      modifies this, blocks`next
      ensures Valid() && blocks == [block] + Remove(old(blocks), i)
      ensures forall b :: b in blocks ==> b in old(blocks)
    {
      Unlink(prev, block, i);
      Prepend(block);
      AllValidSome(old(blocks), blocks, unitSize);
    }

    // After a unit went back: release the block if it is unused, or bring it to the front if the
    // first block is full.
    method Settle(prev: Block?, block: Block, ghost i: nat)
      requires Valid() && unitSize >= 1
      requires i < |blocks| && block == blocks[i] && (i > 0 ==> prev == blocks[i - 1])
      modifies this, blocks`next
      ensures Valid()
      ensures forall b :: b in blocks ==> b in old(blocks)
      ensures Views(blocks) ==
              var bs := old(Views(blocks));
              if |bs[i].free| == bs[i].units then
                if |bs| > 1 && bs[0].free != [] then Remove(bs, i) else bs
              else if bs[0].free == [] then [bs[i]] + Remove(bs, i)
              else bs
    {
      AllFree(block);
      assert root in blocks;
      if block.blockSize == block.freeUnitCount * unitSize {
        if blockCount > 1 && root.freeUnitCount > 0 {
          Release(prev, block, i);
          ViewsRemove(old(blocks), i);
        }
      } else if root.freeUnitCount == 0 {
        MoveToFront(prev, block, i);
        ViewsRemove(old(blocks), i);
        ViewsCons(block, Remove(old(blocks), i));
      }
    }

    // The first block whose address range holds `a`, the block before it, and its position.
    method FindOwner(a: nat) returns (block: Block?, prev: Block?, ghost i: nat)
      requires Valid()
      ensures i == FirstOwner(unitSize, Views(blocks), a)
      ensures block == if i < |blocks| then blocks[i] else null
      ensures i > 0 ==> prev == blocks[i - 1]
    {
      block, prev, i := root, null, 0;
      while block != null && (block.base > a || a >= block.base + block.blockSize)
        invariant i <= |blocks|
        invariant block == if i < |blocks| then blocks[i] else null
        invariant i > 0 ==> prev == blocks[i - 1]
        invariant forall j :: 0 <= j < i ==> !Owns(unitSize, blocks[j].View(), a)
        decreases |blocks| - i
      {
        assert block in blocks;
        prev := block;
        block := block.next;
        i := i + 1;
      }
      assert block != null ==> block in blocks;
      FirstOwnerIs(unitSize, Views(blocks), a, i);
    }

    method Return(prev: Block?, block: Block, ghost i: nat, u: nat)
      requires Valid() && unitSize >= 1 && u < block.units && u !in block.free
      requires i < |blocks| && block == blocks[i] && (i > 0 ==> prev == blocks[i - 1])
      modifies this, blocks, block.words
      ensures Valid() && View() == old(View()).(blocks := Recycle(old(View()), i, u))
      ensures forall b :: b in blocks ==> b in old(blocks)
      ensures block.OthersKept(u)
    {
      Put(block, i, u);
      Settle(prev, block, i);
    }

    // Only the memory of the unit, at address `a`, changes.
    method ReturnAt(prev: Block?, block: Block, ghost i: nat, u: nat, ghost a: nat)
      requires Valid() && unitSize >= 1 && u < block.units && u !in block.free && block.AddrOf(u) == a
      requires i < |blocks| && block == blocks[i] && (i > 0 ==> prev == blocks[i - 1])
      modifies this, blocks, block.words
      ensures Valid() && View() == old(View()).(blocks := Recycle(old(View()), i, u))
      ensures forall b :: b in blocks ==> b in old(blocks)
      ensures forall b :: b in old(blocks) ==> b.DataKept(a)
    {
      OwnMemory(block);
      Return(prev, block, i, u);
    }

    lemma OwnMemory(block: Block)
      requires Separate() && block in blocks
      ensures forall b :: b in blocks && b != block ==> b.words != block.words
    {
    }

    // The unit behind a live address.
    lemma FoundUnit(block: Block, i: nat, a: nat) returns (u: nat)
      requires Valid() && Ok(View()) && (IsLive(View(), a) || Foreign(View(), a))
      requires i == FirstOwner(unitSize, Views(blocks), a) && i < |blocks| && block == blocks[i]
      ensures a >= block.base && u == (a - block.base) / unitSize
      ensures u < block.units && u !in block.free && block.AddrOf(u) == a
      ensures MempoolSpec.Free(View(), a) == (View().(blocks := Recycle(View(), i, u)), true)
    {
      FreeFound(View(), i, a);
      LiveStartsUnit(View(), i, a);
      u := (a - block.base) / unitSize;
    }

    method ReturnTo(prev: Block?, block: Block, ghost i: nat, a: nat)
      requires Valid() && Ok(View()) && (IsLive(View(), a) || Foreign(View(), a))
      requires i == FirstOwner(unitSize, Views(blocks), a)
      requires i < |blocks| && block == blocks[i] && (i > 0 ==> prev == blocks[i - 1])
      modifies this, blocks, block.words
      ensures Valid() && (View(), true) == MempoolSpec.Free(old(View()), a)
      ensures forall b :: b in blocks ==> b in old(blocks)
      ensures forall b :: b in old(blocks) ==> b.DataKept(a)
    {
      ghost var u := FoundUnit(block, i, a);
      ReturnAt(prev, block, i, (a - block.base) / unitSize, a);
    }

    lemma FreeNull()
      requires Valid() && Ok(View())
      ensures MempoolSpec.Free(View(), NULL) == (View(), false)
    {
      NullIsForeign(View());
      FreeFound(View(), FirstOwner(unitSize, Views(blocks), NULL), NULL);
    }

    // xm_mempool_free: 0 when the unit went back, -1 when no block owns the address.
    method Free(a: nat) returns (rc: int)
      requires Valid() && Ok(View())
      requires IsLive(View(), a) || Foreign(View(), a)
      modifies this, blocks, set b: Block | b in blocks :: b.words
      ensures Valid() && (View(), rc == 0) == MempoolSpec.Free(old(View()), a)
      ensures rc == 0 || rc == -1
      ensures forall b :: b in blocks ==> b in old(blocks)
      ensures forall b :: b in old(blocks) ==> b.DataKept(a)
    {
      if a == NULL {
        FreeNull();
        return -1;
      }
      var block, prev, i := FindOwner(a);
      if block == null {
        FreeFound(View(), i, a);
        return -1;
      }
      ReturnTo(prev, block, i, a);
      rc := 0;
    }

    // The holder of a unit stores into it: the pool does not notice.
    method Write(block: Block, ghost i: nat, u: nat, k: nat, value: int)
      requires Valid() && i < |blocks| && block == blocks[i] && block.Valid() && u < block.units && u !in block.free && k < block.words.Length1
      modifies block.words
      ensures Valid() && View() == old(View())
      ensures block.Valid() && block.words[u, k] == value
      ensures block.OthersKept(u) && forall j :: 0 <= j < block.words.Length1 && j != k ==> block.words[u, j] == old(block.words[u, j])
    {
      block.Write(u, k, value);
      forall b | b in blocks
        ensures b.Valid()
      {
        assert b != block ==> old(b.Valid()) && b.words != block.words;
      }
    }

    // ----- Runs

    // The links of block `i` visit its unit `u` exactly when the program does not hold it.
    ghost predicate FreeExactly(s: Session, i: nat, u: nat)
      requires i < |blocks|
      reads this, blocks, set b: Block | b in blocks :: b.words
    {
      var b := blocks[i];
      u in b.Follow(b.freeUnitPos, b.freeUnitCount) <==> b.AddrOf(u) !in s.held
    }

    // What the program stored in the units it holds is there.
    ghost predicate Carries(data: map<(nat, nat), int>)
      reads this, blocks, set b: Block | b in blocks :: b.words
    {
      forall b, u: nat, k: nat {:trigger (b.AddrOf(u), k) in data} ::
        b in blocks && u < b.words.Length0 && k < b.words.Length1 && (b.AddrOf(u), k) in data ==>
          b.words[u, k] == data[(b.AddrOf(u), k)]
    }

    ghost predicate Serves(s: Session)
      reads this, blocks, set b: Block | b in blocks :: b.words
    {
      Valid() && View() == s.pool && SessionOk(s) && Carries(s.data)
    }

    // Storing in a new block cannot be what the program remembers.
    method MallocCarries(sys: nat, ghost data: map<(nat, nat), int>) returns (r: nat)
      requires Valid() && Ok(View()) && SysOk(View(), sys, GrowBy(View())) && Carries(data)
      requires forall key :: key in data ==> IsLive(View(), key.0)
      modifies this, blocks
      ensures Valid() && (View(), r) == MempoolSpec.Malloc(old(View()), sys) && Carries(data)
      ensures OldOrFresh()
    {
      ghost var p := View();
      MallocCorrect(p, sys);
      r := Malloc(sys);
      forall b, u: nat, k: nat | b in blocks && u < b.words.Length0 && k < b.words.Length1 && (b.AddrOf(u), k) in data
        ensures b.words[u, k] == data[(b.AddrOf(u), k)]
      {
        assert (b.AddrOf(u), k).0 == b.AddrOf(u);
        if b !in old(blocks) {
          NewHoldsNothing(b, p, u, r);
        }
      }
    }

    // A new block has no unit at an address that was live.
    lemma NewHoldsNothing(b: Block, p: PoolView, u: nat, r: nat)
      requires Valid() && b in blocks && IsNew(b, r) && u < b.units
      requires Ok(View()) && View().unitSize == p.unitSize && (r != NULL ==> Gains(p, View(), r))
      ensures !IsLive(p, b.AddrOf(u))
    {
      var i :| 0 <= i < |blocks| && blocks[i] == b;
      assert BlockOk(View().blocks[i]);
      NewBlockHoldsNothing(p, View(), i, u, r);
    }

    method FreeCarries(a: nat, ghost data: map<(nat, nat), int>)
      requires Valid() && Ok(View()) && IsLive(View(), a) && Carries(data)
      modifies this, blocks, set b: Block | b in blocks :: b.words
      ensures Valid() && View() == MempoolSpec.Free(old(View()), a).0 && Carries(Forget(data, a))
      ensures forall b :: b in blocks ==> b in old(blocks)
    {
      var rc := Free(a);
    }

    // Different units have different addresses.
    lemma OnePlace(b: Block, u: nat, c: Block, v: nat)
      requires Valid() && Ok(View()) && b in blocks && c in blocks && u < b.units && v < c.units
      requires b.AddrOf(u) == c.AddrOf(v)
      ensures b == c && u == v
    {
      var i :| 0 <= i < |blocks| && blocks[i] == b;
      var j :| 0 <= j < |blocks| && blocks[j] == c;
      OneUnit(View(), i, u, j, v);
    }

    method StoreAt(block: Block, ghost i: nat, u: nat, k: nat, value: int, ghost data: map<(nat, nat), int>)
      requires Valid() && Ok(View()) && i < |blocks| && block == blocks[i] && block.Valid()
      requires u < block.units && u !in block.free && k < block.words.Length1 && Carries(data)
      modifies block.words
      ensures Valid() && View() == old(View()) && Carries(data[(block.AddrOf(u), k) := value])
    {
      Write(block, i, u, k, value);
      ghost var a, after := block.AddrOf(u), data[(block.AddrOf(u), k) := value];
      forall b, v: nat, j: nat | b in blocks && v < b.words.Length0 && j < b.words.Length1 && (b.AddrOf(v), j) in after
        ensures b.words[v, j] == after[(b.AddrOf(v), j)]
      {
        if b.AddrOf(v) == a {
          OnePlace(b, v, block, u);
        } else {
          assert (b.AddrOf(v), j) in data && b != block ==> b.words != block.words;
        }
      }
    }

    // A store to the address `a` of a unit the program holds.
    method WriteCarries(a: nat, k: nat, value: int, ghost data: map<(nat, nat), int>)
      requires Valid() && Ok(View()) && IsLive(View(), a) && (k + 1) * WORD_BYTES <= unitSize && Carries(data)
      modifies set b: Block | b in blocks :: b.words
      ensures Valid() && View() == old(View()) && Carries(data[(a, k) := value])
    {
      LiveHasOwner(View(), a);
      var block, prev, i := FindOwner(a);
      ghost var u := FoundUnit(block, i, a);
      StoreAt(block, i, (a - block.base) / unitSize, k, value, data);
    }

    // What a program stored in a unit it still holds reads back.
    method Load(a: nat, k: nat, ghost s: Session) returns (value: int)
      requires Serves(s) && (a, k) in s.data
      ensures value == s.data[(a, k)]
    {
      assert (a, k).0 in s.held && (a, k).1 == k;
      LiveHasOwner(View(), a);
      var block, prev, i := FindOwner(a);
      ghost var u := FoundUnit(block, i, a);
      assert block in blocks && (block.AddrOf(u), k) in s.data;
      value := block.words[(a - block.base) / unitSize, k];
    }

    // One operation of a program.
    method ServeOne(op: Op, ghost s: Session) returns (r: nat)
      requires Serves(s) && Allowed(s, op)
      modifies this, blocks, set b: Block | b in blocks :: b.words
      ensures Serves(Step(s, op)) && (op.OpMalloc? ==> r == MempoolSpec.Malloc(s.pool, op.sys).1)
      ensures OldOrFresh()
    {
      StepKeeps(s, op);
      r := NULL;
      match op {
        case OpMalloc(sys) => r := MallocCarries(sys, s.data);
        case OpFree(a) => FreeCarries(a, s.data);
        case OpWrite(a, k, value) => WriteCarries(a, k, value, s.data);
      }
    }

    method ServeNext(ops: seq<Op>, ghost ss: seq<Session>, n: nat) returns (r: nat)
      requires IsTrace(ss, ops) && n < |ops| && Serves(ss[n])
      modifies this, blocks, set b: Block | b in blocks :: b.words
      ensures Serves(ss[n + 1]) && (ops[n].OpMalloc? ==> Got(ss[n].pool, ops[n].sys, r))
      ensures OldOrFresh()
    {
      assert Follows(ss[n], ops[n], ss[n + 1]);
      r := ServeOne(ops[n], ss[n]);
    }

    // A run of a program on the heap: the pool goes through the sessions of the run, gives the
    // answers they say, and at every point carries what the program stored.
    method Serve(ops: seq<Op>, ghost ss: seq<Session>) returns (rs: seq<nat>)
      requires IsTrace(ss, ops) && Serves(ss[0])
      modifies this, blocks, set b: Block | b in blocks :: b.words
      ensures Serves(ss[|ops|]) && OldOrFresh()
      ensures Answered(ss, ops, rs)
    {
      rs := [];
      for n := 0 to |ops|
        invariant Serves(ss[n]) && OldOrFresh()
        invariant Answered(ss, ops[..n], rs)
      {
        var r := ServeNext(ops, ss, n);
        AnsweredNext(ss, ops, n, rs, r);
        rs := rs + [r];
      }
    }
  }

  // A program that makes a pool and runs on it.
  method RunProgram(unitBytes: nat, init: nat, grow: nat, ops: seq<Op>, ghost ss: seq<Session>) returns (pool: Pool, rs: seq<nat>)
    requires unitBytes >= 1 && IsRun(RoundUp(unitBytes), init, grow, ss, ops)
    ensures fresh(pool) && IsTrace(ss, ops) && pool.Serves(ss[|ops|])
    ensures Answered(ss, ops, rs)
    ensures forall i, u :: 0 <= i < |pool.blocks| && 0 <= u < pool.blocks[i].units ==> pool.FreeExactly(ss[|ops|], i, u)
  {
    EveryRunIsOk(RoundUp(unitBytes), init, grow, ss, ops, 0);
    pool := new Pool(unitBytes, init, grow);
    rs := pool.Serve(ops, ss);
    forall i, u | 0 <= i < |pool.blocks| && 0 <= u < pool.blocks[i].units
      ensures pool.FreeExactly(ss[|ops|], i, u)
    {
      LinksVisitNotHeld(pool, ss[|ops|], i, u, pool.blocks[i].freeUnitCount);
    }
  }

  // Following the stored links from `freeUnitPos` visits the free units, each once, and stops after
  // `freeUnitCount` steps on the number one past the last unit.
  lemma LinksVisitFreeUnits(b: Block, n: nat)
    requires b.Valid() && BlockOk(b.View()) && n >= b.freeUnitCount
    ensures b.Follow(b.freeUnitPos, n) == b.free && Distinct(b.free) && |b.free| == b.freeUnitCount
  {
    LinksVisitFrom(b, 0, n);
  }

  // With `s` what the program holds: the links of a block visit exactly its units that are not held.
  lemma LinksVisitNotHeld(pool: Pool, s: Session, i: nat, u: nat, n: nat)
    requires pool.Valid() && SessionOk(s) && s.pool == pool.View()
    requires i < |pool.blocks| && u < pool.blocks[i].units && n >= pool.blocks[i].freeUnitCount
    ensures var b := pool.blocks[i];
            u in b.Follow(b.freeUnitPos, n) <==> b.AddrOf(u) !in s.held
  {
    var b, p := pool.blocks[i], pool.View();
    assert b in pool.blocks && p.blocks[i] == b.View();
    LinksVisitFreeUnits(b, n);
    HeldIsLive(p, i, u);
  }

  lemma {:induction false} LinksVisitFrom(b: Block, i: nat, n: nat)
    requires b.Valid() && i <= |b.free| && n >= |b.free| - i
    ensures b.Follow(b.NextOf(i), n) == b.free[i..]
    decreases |b.free| - i
  {
    if i < |b.free| {
      assert b.words[b.free[i], 0] == b.NextOf(i + 1);
      LinksVisitFrom(b, i + 1, n - 1);
    }
  }
}
