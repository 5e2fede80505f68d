/** What creating and deleting a pool means for the calls that follow. */
module PoolCalls {
  import opened Basics
  import opened VmStatus
  import opened MemoryBlocks
  import opened MemoryAccounting
  import opened NestedPools

  /** Both heaps have no pool with this id, or the same one. */
  predicate SamePool(h: Heap, g: Heap, id: nat) {
    match FindPool(h.pools, id)
    case None => FindPool(g.pools, id).None?
    case Some(i) => FindPool(g.pools, id).Some? && g.pools[FindPool(g.pools, id).value] == h.pools[i]
  }

  /** The calls on a pool have the same outcome in both heaps. */
  predicate AnswersAlike(h: Heap, g: Heap, id: nat, bytes: uint32, address: nat, hasRef: bool) {
    var (a, b) := (PoolAllocate(h, id, bytes, hasRef), PoolAllocate(g, id, bytes, hasRef));
    var (c, d) := (PoolDeallocate(h, id, address), PoolDeallocate(g, id, address));
    var (e, f) := (PoolQuery(h, id, hasRef), PoolQuery(g, id, hasRef));
    && (a.status, a.value, c.status, e.status, e.value) == (b.status, b.value, d.status, f.status, f.value)
    && PoolDelete(h, id).status == PoolDelete(g, id).status
  }

  lemma SamePoolAnswersAlike(h: Heap, g: Heap, id: nat, bytes: uint32, address: nat, hasRef: bool)
    requires SamePool(h, g, id)
    ensures AnswersAlike(h, g, id, bytes, address, hasRef)
  {
    hide RoundUp, Allocate, Deallocate, FreeAddresses;
  }

  lemma FoundAt(pools: seq<Pool>, i: nat)
    requires i < |pools| && forall j, k :: 0 <= j < k < |pools| ==> pools[j].id != pools[k].id
    ensures FindPool(pools, pools[i].id) == Some(i)
  {
  }

  // ---------- Creation ----------

  lemma FreshPool(id: nat, base: nat, size: uint32, n: uint32)
    requires 0 < base && base + size <= ADDRESSES && 0 < n <= 0xFFFF_FFC0
    ensures var p := Pool(id, base, size, []);
            && |FreeAddresses(p)| == size
            && (if (n + 63) / 64 * 64 <= size
                then Allocate(p, RoundUp(n)) == (p.(blocks := [Block(base, (n + 63) / 64 * 64)]), base)
                else Allocate(p, RoundUp(n)) == (p, 0))
  {
    var p := Pool(id, base, size, []);
    SizeIsFreeAndGiven(p);
    assert RoundUp(n) == (n + 63) / 64 * 64;
    hide RoundUp, FreeAddresses;
    assert Insert([], 0, Block(base, RoundUp(n))) == [Block(base, RoundUp(n))];
  }

  /** A new pool has an id of its own and the size asked for, all of it free.  Its first request of n bytes is
      granted at the base if and only if n, rounded up to 64, is at most the size. */
  lemma NewPoolAnswers(h: Heap, base: nat, size: uint32, n: uint32)
    requires HeapWf(h) && 0 < base && base + size <= ADDRESSES && 0 < n <= 0xFFFF_FFC0
    ensures var r := PoolCreate(h, base, size, true);
            var id := r.value;
            && r.status == Success && (forall i :: 0 <= i < |h.pools| ==> h.pools[i].id != id)
            && PoolQuery(r.heap, id, true) == Outcome(r.heap, Success, size)
            && var a := PoolAllocate(r.heap, id, n, true);
               if (n + 63) / 64 * 64 <= size
               then a.status == Success && a.value == base
                    && a.heap.pools == h.pools + [Pool(id, base, size, [Block(base, (n + 63) / 64 * 64)])]
               else a == Outcome(r.heap, InsufficientResources, 0)
  {
    var r := PoolCreate(h, base, size, true);
    var p := Pool(r.value, base, size, []);
    assert r.heap.pools == h.pools + [p];
    FoundAt(r.heap.pools, |h.pools|);
    FreshPool(r.value, base, size, n);
    hide RoundUp, Allocate, FreeAddresses, FindPool, Wf;
    assert forall q :: (h.pools + [p])[|h.pools| := q] == h.pools + [q];
  }

  /** Every other pool answers as before. */
  lemma CreationLeavesOthers(h: Heap, base: nat, size: uint32, id: nat, bytes: uint32, address: nat, hasRef: bool)
    requires HeapWf(h) && base > 0 && id != PoolCreate(h, base, size, true).value
    ensures AnswersAlike(h, PoolCreate(h, base, size, true).heap, id, bytes, address, hasRef)
  {
    var g := PoolCreate(h, base, size, true).heap;
    assert g.pools[..|h.pools|] == h.pools && |g.pools| == |h.pools| + 1 && g.pools[|h.pools|].id != id;
    assert forall i :: 0 <= i < |h.pools| ==> g.pools[i] == h.pools[i];
    hide Wf;
    assert SamePool(h, g, id);
    hide *;
    SamePoolAnswersAlike(h, g, id, bytes, address, hasRef);
  }

  // ---------- Deletion ----------

  /** The deletion of an empty pool, the one at index i, takes away that pool alone: the others keep their
      order, every call on the deleted id is refused, and calls on other ids are answered as before. */
  lemma DeletionTakesOne(h: Heap, i: nat, id: nat, bytes: uint32, address: nat, hasRef: bool)
    requires HeapWf(h) && i < |h.pools|
    ensures var p := h.pools[i]; var r := PoolDelete(h, p.id);
            if p.blocks != [] then r == Outcome(h, InvalidState, 0)
            else
              && r == Outcome(Heap(RemoveAt(h.pools, i), h.next), Success, 0)
              && PoolQuery(r.heap, p.id, hasRef) == Outcome(r.heap, InvalidParameter, 0)
              && PoolAllocate(r.heap, p.id, bytes, hasRef) == Outcome(r.heap, InvalidParameter, 0)
              && PoolDeallocate(r.heap, p.id, address) == Outcome(r.heap, InvalidParameter, 0)
              && PoolDelete(r.heap, p.id) == Outcome(r.heap, InvalidParameter, 0)
              && (id != p.id ==> AnswersAlike(h, r.heap, id, bytes, address, hasRef))
  {
    var p := h.pools[i];
    FoundAt(h.pools, i);
    if p.blocks == [] {
      var g := PoolDelete(h, p.id).heap;
      Removed(h.pools, i, id);
      assert g.pools == RemoveAt(h.pools, i);
      assert FindPool(g.pools, p.id) == None;
      if id != p.id {
        hide *;
        SamePoolAnswersAlike(h, g, id, bytes, address, hasRef) by { assert SamePool(h, g, id); }
      }
    }
  }

  lemma RestShape(pools: seq<Pool>, i: nat, rest: seq<Pool>)
    requires i < |pools| && rest == RemoveAt(pools, i)
    requires forall j, k :: 0 <= j < k < |pools| ==> pools[j].id != pools[k].id
    ensures forall j :: 0 <= j < |rest| ==> rest[j] == pools[if j < i then j else j + 1]
    ensures forall j, k :: 0 <= j < k < |rest| ==> rest[j].id != rest[k].id
    ensures |rest| == |pools| - 1
  {
  }

  lemma Removed(pools: seq<Pool>, i: nat, id: nat)
    requires i < |pools| && forall j, k :: 0 <= j < k < |pools| ==> pools[j].id != pools[k].id
    ensures FindPool(RemoveAt(pools, i), pools[i].id) == None
    ensures id != pools[i].id ==> SamePool(Heap(pools, 0), Heap(RemoveAt(pools, i), 0), id)
  {
    var rest := RemoveAt(pools, i);
    RestShape(pools, i, rest);
    hide RemoveAt, FindPool;
    var found := FindPool(pools, id);
    if id != pools[i].id && found.Some? {
      var l := if found.value < i then found.value else found.value - 1;
      assert rest[l] == pools[found.value];
      FoundAt(rest, l);
    }
  }
}
