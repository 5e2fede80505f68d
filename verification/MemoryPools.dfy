/** The memory pools as they run: a sorted vector of blocks in each, changed in place, and the vector of
    pools of the virtual machine. */
module MemoryPools {
  import opened Basics
  import opened VmStatus
  import opened MemoryBlocks
  import opened MemoryAccounting
  import opened NestedPools

  /** The width of a gap is a 32-bit number, so the cast of the pointer difference is exact. */
  lemma GapWidth(p: Pool, k: nat)
    requires Wf(p) && k <= |p.blocks|
    ensures U32(LimitAt(p.blocks, p.End(), k) - StartAt(p.start, p.blocks, k))
         == LimitAt(p.blocks, p.End(), k) - StartAt(p.start, p.blocks, k)
  {
    OrderedFacts(p.start, p.blocks, p.End());
  }

  lemma AllocateAt(p: Pool, n: nat, k: nat)
    requires k <= |p.blocks| && FirstGap(p, n, 0) == FirstGap(p, n, k)
    ensures var a := StartAt(p.start, p.blocks, k);
            var found := a + n <= LimitAt(p.blocks, p.End(), k);
            && (found ==> MemoryBlocks.Allocate(p, n) == (p.(blocks := Insert(p.blocks, k, Block(a, n))), a))
            && (!found && k == |p.blocks| ==> MemoryBlocks.Allocate(p, n) == (p, 0))
            && (!found && k < |p.blocks| ==> FirstGap(p, n, 0) == FirstGap(p, n, k + 1))
  {
  }

  lemma RemoveKeepsWf(h: Heap, i: nat)
    requires HeapWf(h) && i < |h.pools|
    ensures HeapWf(h.(pools := h.pools[..i] + h.pools[i + 1..]))
  {
    hide Wf;
  }

  class MPCB {
    const id: nat
    const start: nat
    const size: uint32
    var blocks: seq<Block>

    constructor (poolId: nat, base: nat, bytes: uint32)
      ensures Value() == Pool(poolId, base, bytes, [])
    {
      id, start, size, blocks := poolId, base, bytes, [];
    }

    function Value(): Pool
      reads this
    {
      Pool(id, start, size, blocks)
    }

    /** Returns the start of the new block, or 0. */
    method Allocate(spaceSize: uint32) returns (address: nat)
      requires Wf(Value())
      modifies this`blocks
      ensures (Value(), address) == MemoryBlocks.Allocate(old(Value()), spaceSize)
    {
      address := 0;
      ghost var p := Value();
      GapWidth(p, 0);
      AllocateAt(p, spaceSize, 0);
      hide MemoryBlocks.Allocate, FirstGap, Ordered, Wf, U32;
      var candidateStart := start;
      if blocks == [] {
        if spaceSize <= size {
          blocks := blocks + [Block(candidateStart, spaceSize)];
          assert blocks == Insert(p.blocks, 0, Block(candidateStart, spaceSize));
          return blocks[|blocks| - 1].start;
        }
        return;
      }
      var itr := 0;
      while itr < |blocks|
        invariant 0 <= itr <= |blocks| && blocks == p.blocks
        invariant candidateStart == StartAt(start, blocks, itr)
        invariant FirstGap(p, spaceSize, 0) == FirstGap(p, spaceSize, itr)
      {
        GapWidth(p, itr);
        AllocateAt(p, spaceSize, itr);
        if spaceSize <= U32(blocks[itr].start - candidateStart) {
          blocks := blocks[..itr] + [Block(candidateStart, spaceSize)] + blocks[itr..];
          return blocks[itr].start;
        }
        candidateStart := blocks[itr].start + blocks[itr].size;
        itr := itr + 1;
      }
      GapWidth(p, itr);
      AllocateAt(p, spaceSize, itr);
      if spaceSize <= U32(start + size - candidateStart) {
        blocks := blocks + [Block(candidateStart, spaceSize)];
        assert blocks == Insert(p.blocks, itr, Block(candidateStart, spaceSize));
        return blocks[|blocks| - 1].start;
      }
    }

    /** Removes the first block that starts at the address. */
    method Deallocate(strt: nat) returns (found: bool)
      modifies this`blocks
      ensures (Value(), found) == MemoryBlocks.Deallocate(old(Value()), strt)
    {
      var itr := 0;
      while itr < |blocks|
        invariant 0 <= itr <= |blocks| && blocks == old(blocks)
        invariant forall i :: 0 <= i < itr ==> blocks[i].start != strt
      {
        if blocks[itr].start == strt {
          blocks := blocks[..itr] + blocks[itr + 1..];
          return true;
        }
        itr := itr + 1;
      }
      return false;
    }

    method FullyFree() returns (r: bool)
      ensures r <==> blocks == []
    {
      r := |blocks| == 0;
    }

    /** The sum and the difference, both in 32 bits, are the number of addresses that no block covers. */
    method CountFree() returns (free: uint32)
      requires Wf(Value())
      ensures free == |FreeAddresses(Value())|
    {
      var numAllocated: uint32 := 0;
      var itr := 0;
      SizeIsFreeAndGiven(Value());
      assert blocks[0..] == blocks;
      while itr < |blocks|
        invariant 0 <= itr <= |blocks|
        invariant numAllocated + Total(blocks[itr..]) == Total(blocks)
      {
        assert blocks[itr..][1..] == blocks[itr + 1..];
        numAllocated := U32(numAllocated + blocks[itr].size);
        itr := itr + 1;
      }
      free := U32(size - numAllocated);
    }
  }

  class VirtualMemory {
    var pools: seq<MPCB>
    var idInc: nat
    ghost var heap: Heap

    ghost predicate Valid()
      reads this, pools
    {
      && HeapWf(heap) && idInc == heap.next && |pools| == |heap.pools|
      && (forall i :: 0 <= i < |pools| ==> pools[i].Value() == heap.pools[i])
      && forall i, j :: 0 <= i < j < |pools| ==> pools[i] != pools[j]
    }

    constructor ()
      ensures Valid() && heap == Heap([], 0)
    {
      pools, idInc, heap := [], 0, Heap([], 0);
    }

    /** The index of the pool with this id, for the pointer that is null when there is none. */
    method FindMemPool(id: nat) returns (index: Option<nat>)
      requires Valid()
      ensures index == FindPool(heap.pools, id)
    {
      var itr := 0;
      while itr < |pools|
        invariant 0 <= itr <= |pools|
        invariant forall i :: 0 <= i < itr ==> heap.pools[i].id != id
      {
        assert pools[itr].Value() == heap.pools[itr];
        if pools[itr].id == id { return Some(itr); }
        itr := itr + 1;
      }
      return None;
    }

    method VMMemoryPoolAllocate(memory: nat, size: uint32, hasPointer: bool) returns (status: Status, pointer: nat)
      requires Valid()
      modifies this, pools
      ensures Valid() && Outcome(heap, status, pointer) == PoolAllocate(old(heap), memory, size, hasPointer)
      ensures status == InvalidParameter <==>
                !hasPointer || size == 0 || forall p :: p in old(heap).pools ==> p.id != memory
    {
      pointer := 0;
      var sz := RoundUp(size);
      if !hasPointer || size == 0 { return InvalidParameter, 0; }
      var found := FindMemPool(memory);
      if found.None? { return InvalidParameter, 0; }
      var i := found.value;
      assert pools[i].Value() == heap.pools[i] && Wf(heap.pools[i]);
      AllocateKeepsWf(heap.pools[i], sz);
      hide RoundUp, MemoryBlocks.Allocate, Wf;
      var allocatedStart := pools[i].Allocate(sz);
      heap := heap.(pools := heap.pools[i := pools[i].Value()]);
      if allocatedStart == 0 { return InsufficientResources, 0; }
      return Success, allocatedStart;
    }

    method VMMemoryPoolDeallocate(memory: nat, pointer: nat) returns (status: Status)
      requires Valid()
      modifies this, pools
      ensures Valid() && Outcome(heap, status, 0) == PoolDeallocate(old(heap), memory, pointer)
      ensures status != Success ==> status == InvalidParameter && heap == old(heap)
    {
      if pointer == 0 { return InvalidParameter; }
      var found := FindMemPool(memory);
      if found.None? { return InvalidParameter; }
      var i := found.value;
      assert pools[i].Value() == heap.pools[i] && Wf(heap.pools[i]);
      DeallocateKeepsWf(heap.pools[i], pointer);
      hide MemoryBlocks.Deallocate, Wf;
      var ok := pools[i].Deallocate(pointer);
      heap := heap.(pools := heap.pools[i := pools[i].Value()]);
      if !ok { return InvalidParameter; }
      return Success;
    }

    /** The memory from `base` on exists. */
    method VMMemoryPoolCreate(base: nat, size: uint32, hasRef: bool) returns (status: Status, memory: nat)
      requires Valid() && base + size <= ADDRESSES
      modifies this
      ensures Valid() && fresh(set p | p in pools && p !in old(pools))
      ensures Outcome(heap, status, memory) == PoolCreate(old(heap), base, size, hasRef)
      ensures base == 0 || !hasRef ==> status == InvalidParameter && heap == old(heap)
      ensures base != 0 && hasRef ==>
                && status == Success && heap.pools == old(heap).pools + [Pool(memory, base, size, [])]
                && forall p :: p in old(heap).pools ==> p.id < memory
    {
      memory := 0;
      if base == 0 || !hasRef { return InvalidParameter, 0; }
      var pool := new MPCB(idInc, base, size);
      pools := pools + [pool];
      idInc := idInc + 1;
      heap := Heap(heap.pools + [pool.Value()], heap.next + 1);
      return Success, pools[|pools| - 1].id;
    }

    method EraseAt(itr: nat)
      requires Valid() && itr < |pools|
      modifies this`pools, this`heap
      ensures Valid() && heap == old(heap).(pools := old(heap).pools[..itr] + old(heap).pools[itr + 1..])
    {
      RemoveKeepsWf(heap, itr);
      hide HeapWf;
      pools := pools[..itr] + pools[itr + 1..];
      heap := heap.(pools := heap.pools[..itr] + heap.pools[itr + 1..]);
    }

    method VMMemoryPoolDelete(memory: nat) returns (status: Status)
      requires Valid()
      modifies this
      ensures Valid() && Outcome(heap, status, 0) == PoolDelete(old(heap), memory)
      ensures (forall p :: p in old(heap).pools ==> p.id != memory) ==> status == InvalidParameter
      ensures forall i {:trigger old(heap).pools[i]} ::
                0 <= i < |old(heap).pools| && old(heap).pools[i].id == memory ==>
                if old(heap).pools[i].blocks == []
                then status == Success && heap.pools == RemoveAt(old(heap).pools, i) && heap.next == old(heap).next
                else status == InvalidState
      ensures status != Success ==> heap == old(heap)
    {
      var itr := 0;
      while itr < |pools|
        invariant 0 <= itr <= |pools| && Valid() && pools == old(pools) && heap == old(heap)
        invariant forall i :: 0 <= i < itr ==> heap.pools[i].id != memory
      {
        assert pools[itr].Value() == heap.pools[itr];
        if pools[itr].id == memory {
          assert FindPool(heap.pools, memory) == Some(itr);
          hide FindPool, HeapWf, Valid;
          var free := pools[itr].FullyFree();
          if !free { return InvalidState; }
          EraseAt(itr);
          return Success;
        }
        itr := itr + 1;
      }
      return InvalidParameter;
    }

    method VMMemoryPoolQuery(memory: nat, hasBytesleft: bool) returns (status: Status, bytesleft: nat)
      requires Valid()
      ensures Outcome(heap, status, bytesleft) == PoolQuery(heap, memory, hasBytesleft)
      ensures status == if hasBytesleft && exists p :: p in heap.pools && p.id == memory then Success
                        else InvalidParameter
    {
      if !hasBytesleft { return InvalidParameter, 0; }
      var found := FindMemPool(memory);
      if found.None? { return InvalidParameter, 0; }
      assert pools[found.value].Value() == heap.pools[found.value];
      var free := pools[found.value].CountFree();
      return Success, free;
    }
  }
}
