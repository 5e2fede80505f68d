/** All memory pools of the virtual machine as a value, the calls on them, and what their runs keep when
    pools are created over blocks of other pools. */
module NestedPools {
  import opened Basics
  import opened VmStatus
  import opened MemoryBlocks
  import opened MemoryAccounting

  /** The pools in order of creation, and the id of the next one. */
  datatype Heap = Heap(pools: seq<Pool>, next: nat)

  predicate HeapWf(h: Heap) {
    && (forall i :: 0 <= i < |h.pools| ==> Wf(h.pools[i]) && h.pools[i].id < h.next)
    && forall i, j :: 0 <= i < j < |h.pools| ==> h.pools[i].id != h.pools[j].id
  }

  /** The first pool with an id. */
  function FindPool(pools: seq<Pool>, id: nat): (r: Option<nat>)
    ensures r.Some? ==> r.value < |pools| && pools[r.value].id == id
                        && forall i :: 0 <= i < r.value ==> pools[i].id != id
    ensures r.None? ==> forall i :: 0 <= i < |pools| ==> pools[i].id != id
  {
    if pools == [] then None
    else if pools[0].id == id then Some(0)
    else match FindPool(pools[1..], id)
      case None => None
      case Some(i) => Some(i + 1)
  }

  // ---------- The calls ----------

  datatype Outcome = Outcome(heap: Heap, status: Status, value: nat)

  function Failing(h: Heap, status: Status): Outcome {
    Outcome(h, status, 0)
  }

  /** `VMMemoryPoolCreate`; the value is the id of the new pool. */
  function PoolCreate(h: Heap, base: nat, size: uint32, hasRef: bool): Outcome {
    if base == 0 || !hasRef then Failing(h, InvalidParameter)
    else Outcome(Heap(h.pools + [Pool(h.next, base, size, [])], h.next + 1), Success, h.next)
  }

  /** `VMMemoryPoolDelete` */
  function PoolDelete(h: Heap, id: nat): Outcome {
    match FindPool(h.pools, id)
    case None => Failing(h, InvalidParameter)
    case Some(i) =>
      if h.pools[i].blocks != [] then Failing(h, InvalidState)
      else Outcome(h.(pools := h.pools[..i] + h.pools[i + 1..]), Success, 0)
  }

  /** `VMMemoryPoolAllocate`; the value is the address of the new block. */
  function PoolAllocate(h: Heap, id: nat, size: uint32, hasRef: bool): Outcome {
    if !hasRef || size == 0 then Failing(h, InvalidParameter)
    else match FindPool(h.pools, id)
      case None => Failing(h, InvalidParameter)
      case Some(i) =>
        var (p, a) := Allocate(h.pools[i], RoundUp(size));
        if a == 0 then Failing(h, InsufficientResources)
        else Outcome(h.(pools := h.pools[i := p]), Success, a)
  }

  /** `VMMemoryPoolDeallocate` */
  function PoolDeallocate(h: Heap, id: nat, address: nat): Outcome {
    if address == 0 then Failing(h, InvalidParameter)
    else match FindPool(h.pools, id)
      case None => Failing(h, InvalidParameter)
      case Some(i) =>
        var (p, found) := Deallocate(h.pools[i], address);
        if !found then Failing(h, InvalidParameter)
        else Outcome(h.(pools := h.pools[i := p]), Success, 0)
  }

  /** `VMMemoryPoolQuery`; the value is the number of free bytes. */
  function PoolQuery(h: Heap, id: nat, hasRef: bool): Outcome {
    if !hasRef then Failing(h, InvalidParameter)
    else match FindPool(h.pools, id)
      case None => Failing(h, InvalidParameter)
      case Some(i) => Outcome(h, Success, |FreeAddresses(h.pools[i])|)
  }

  // ---------- One call on one pool ----------

  /** A request that is granted holds the bytes asked for, at the least free address, exactly when its
      size does not wrap to 0; a request that wraps gets the start of the pool, however full it is. */
  lemma AllocateGivesRoomIff(h: Heap, id: nat, size: uint32)
    requires HeapWf(h) && FindPool(h.pools, id).Some? && size > 0
    ensures var p := h.pools[FindPool(h.pools, id).value];
            var r := PoolAllocate(h, id, size, true);
            && (size <= 0xFFFF_FFC0 ==>
                  (if r.status == Success
                   then Fits(p, r.value, RoundUp(size)) && size <= RoundUp(size)
                        && (forall a :: Fits(p, a, RoundUp(size)) ==> r.value <= a)
                   else r == Failing(h, InsufficientResources) && forall a :: !Fits(p, a, RoundUp(size))))
            && (size > 0xFFFF_FFC0 ==> r.status == Success && r.value == p.start)
  {
    RoundUpIff(size);
    var p := h.pools[FindPool(h.pools, id).value];
    if size <= 0xFFFF_FFC0 {
      hide RoundUp, FirstGap, Fits, Wf;
      assert Wf(p);
      FirstFit(p, RoundUp(size));
    } else {
      ZeroSizeBlock(p);
    }
  }

  /** A pool that is full grants a request for 0xFFFFFFFF bytes. */
  lemma FullPoolGrantsWrappedRequest()
    ensures var p := Pool(0, 64, 64, [Block(64, 64)]); var h := Heap([p], 1);
            && HeapWf(h) && (forall a :: !Fits(p, a, 1))
            && PoolAllocate(h, 0, 0xFFFF_FFFF, true).status == Success
            && PoolAllocate(h, 0, 0xFFFF_FFFF, true).value == 64
  {
    var p := Pool(0, 64, 64, [Block(64, 64)]);
    var h := Heap([p], 1);
    assert Ordered(128, [Block(64, 64)][1..], 128);
    assert Wf(p);
    assert forall a: nat :: 64 <= a < 128 ==> Covers(p.blocks[0], a);
    forall a: nat ensures !Fits(p, a, 1) {
      assert 64 <= a < 128 ==> Covered(p.blocks, a);
    }
    assert FindPool(h.pools, 0) == Some(0);
    hide Wf, RoundUp, Fits, PoolAllocate;
    AllocateGivesRoomIff(h, 0, 0xFFFF_FFFF);
  }

  /** A block allocated and given back leaves the heap as it was, if the pool has no block of size zero
      and the size does not wrap. */
  lemma DeallocateUndoesPoolAllocate(h: Heap, id: nat, size: uint32)
    requires HeapWf(h) && 0 < size <= 0xFFFF_FFC0
    requires forall i :: 0 <= i < |h.pools| ==> Positive(h.pools[i].blocks)
    requires PoolAllocate(h, id, size, true).status == Success
    ensures var r := PoolAllocate(h, id, size, true);
            PoolDeallocate(r.heap, id, r.value) == Outcome(h, Success, 0)
  {
    RoundUpIff(size);
    var i := FindPool(h.pools, id).value;
    var p := h.pools[i];
    PositiveBlocksRestored(p, RoundUp(size));
    var r := PoolAllocate(h, id, size, true);
    hide RoundUp, Allocate, Deallocate;
    var (q, a) := Allocate(p, RoundUp(size));
    AllocateKeepsPlace(p, RoundUp(size));
    assert r.heap.pools == h.pools[i := q];
    assert FindPool(r.heap.pools, id) == Some(i) by { SamePlace(h.pools, i, q); }
    assert h.pools[i := q][i := p] == h.pools;
  }

  lemma AllocateKeepsPlace(p: Pool, n: nat)
    ensures var q := Allocate(p, n).0; q.id == p.id && q.start == p.start && q.size == p.size
  {
  }

  lemma SamePlace(pools: seq<Pool>, i: nat, q: Pool)
    requires i < |pools| && q.id == pools[i].id
    ensures FindPool(pools[i := q], q.id) == FindPool(pools, q.id)
  {
    var qs := pools[i := q];
    assert forall k :: 0 <= k < |pools| ==> qs[k].id == pools[k].id;
    var a, b := FindPool(pools, q.id), FindPool(qs, q.id);
    assert qs[i].id == q.id;
  }

  // ---------- Nesting ----------

  predicate Apart(p: Pool, q: Pool) {
    p.End() <= q.start || q.End() <= p.start
  }

  /** A pool lies inside block k of another. */
  predicate InBlock(p: Pool, q: Pool, k: nat) {
    k < |q.blocks| && q.blocks[k].start <= p.start && p.End() <= q.blocks[k].End()
  }

  predicate Inside(p: Pool, q: Pool) {
    exists k :: 0 <= k < |q.blocks| && InBlock(p, q, k)
  }

  predicate Related(p: Pool, q: Pool) {
    Apart(p, q) || Inside(p, q) || Inside(q, p)
  }

  /** Any two pools are apart, or one lies inside a block of the other. */
  predicate Laminar(h: Heap) {
    forall i, j :: 0 <= i < |h.pools| && 0 <= j < |h.pools| && i != j ==> Related(h.pools[i], h.pools[j])
  }

  predicate BlocksApart(a: Block, b: Block) {
    a.End() <= b.start || b.End() <= a.start
  }

  predicate BlockWithin(a: Block, b: Block) {
    b.start <= a.start && a.End() <= b.End()
  }

  datatype Call =
    | Create(base: nat, size: uint32, hasRef: bool)
    | Delete(id: nat)
    | Alloc(id: nat, bytes: uint32, hasRef: bool)
    | Free(id: nat, address: nat)
    | Query(id: nat, hasRef: bool)

  function Perform(h: Heap, c: Call): Outcome {
    match c
    case Create(base, size, hasRef) => PoolCreate(h, base, size, hasRef)
    case Delete(id) => PoolDelete(h, id)
    case Alloc(id, bytes, hasRef) => PoolAllocate(h, id, bytes, hasRef)
    case Free(id, address) => PoolDeallocate(h, id, address)
    case Query(id, hasRef) => PoolQuery(h, id, hasRef)
  }

  /** What the callers owe: memory for a new pool exists and is either outside all pools or inside a
      block of one pool that no other pool there overlaps; and a block is not given back while a pool
      lies inside it. */
  predicate Careful(h: Heap, c: Call) {
    match c
    case Create(base, size, _) =>
      base + size <= ADDRESSES
      && var n := Pool(h.next, base, size, []);
         ((forall i :: 0 <= i < |h.pools| ==> Apart(n, h.pools[i]))
          || exists i, k :: 0 <= i < |h.pools| && 0 <= k < |h.pools[i].blocks| && InBlock(n, h.pools[i], k)
                            && forall j :: 0 <= j < |h.pools| && j != i && InBlock(h.pools[j], h.pools[i], k) ==>
                                             Apart(n, h.pools[j]))
    case Free(id, address) =>
      (match FindPool(h.pools, id)
       case None => true
       case Some(i) =>
         match IndexOfStart(h.pools[i].blocks, address)
         case None => true
         case Some(k) => forall j :: 0 <= j < |h.pools| && j != i ==> !InBlock(h.pools[j], h.pools[i], k))
    case _ => true
  }

  /** In a laminar heap any two live blocks are apart, or one lies within the other; and it does so
      because the pool of the inner block lies inside the outer block. */
  lemma LiveBlocksNest(h: Heap, i: nat, j: nat, k: nat, l: nat)
    requires HeapWf(h) && Laminar(h)
    requires i < |h.pools| && j < |h.pools| && k < |h.pools[i].blocks| && l < |h.pools[j].blocks|
    requires (i, k) != (j, l)
    ensures var (p, q) := (h.pools[i], h.pools[j]);
            || BlocksApart(p.blocks[k], q.blocks[l])
            || (i != j && BlockWithin(p.blocks[k], q.blocks[l]) && InBlock(p, q, l))
            || (i != j && BlockWithin(q.blocks[l], p.blocks[k]) && InBlock(q, p, k))
  {
    var (p, q) := (h.pools[i], h.pools[j]);
    OrderedFacts(p.start, p.blocks, p.End());
    OrderedFacts(q.start, q.blocks, q.End());
    if i != j {
      assert Related(p, q);
    }
  }

  lemma PerformKeepsWf(h: Heap, c: Call)
    requires HeapWf(h) && Careful(h, c)
    ensures HeapWf(Perform(h, c).heap)
  {
    match c {
      case Create(base, size, _) =>
      case Delete(id) => hide Wf;
      case Alloc(id, bytes, _) =>
        var i := FindPool(h.pools, id);
        if i.Some? {
          AllocateKeepsWf(h.pools[i.value], RoundUp(bytes));
          hide Wf, RoundUp, Allocate, FindPool;
          UpdateKeepsWf(h, i.value, Allocate(h.pools[i.value], RoundUp(bytes)).0);
        }
      case Free(id, address) =>
        var i := FindPool(h.pools, id);
        if i.Some? {
          DeallocateKeepsWf(h.pools[i.value], address);
          hide Wf, FindPool;
          UpdateKeepsWf(h, i.value, Deallocate(h.pools[i.value], address).0);
        }
      case Query(_, _) =>
    }
  }

  lemma UpdateKeepsWf(h: Heap, i: nat, q: Pool)
    requires HeapWf(h) && i < |h.pools| && Wf(q) && q.id == h.pools[i].id
    ensures HeapWf(h.(pools := h.pools[i := q]))
  {
    hide Wf;
  }

  /** A new block moves the others up by at most one place. */
  lemma InsertKeepsRelated(p: Pool, q: Pool, g: nat, b: Block)
    requires g <= |q.blocks| && Related(p, q)
    ensures Related(p, q.(blocks := Insert(q.blocks, g, b)))
  {
    InsertedAt(q.blocks, g, b);
    hide Insert;
    var r := q.(blocks := Insert(q.blocks, g, b));
    if Inside(p, q) {
      var k :| 0 <= k < |q.blocks| && InBlock(p, q, k);
      assert r.blocks[if k < g then k else k + 1] == q.blocks[k];
      assert InBlock(p, r, if k < g then k else k + 1);
    }
    if Inside(q, p) {
      var k :| 0 <= k < |p.blocks| && InBlock(q, p, k);
      assert InBlock(r, p, k);
    }
  }

  lemma AllocateKeepsRelated(p: Pool, q: Pool, n: nat)
    requires Related(p, q)
    ensures Related(p, Allocate(q, n).0)
  {
    FirstGapIsFirst(q, n, 0);
    var g := FirstGap(q, n, 0);
    if g.Some? {
      InsertKeepsRelated(p, q, g.value, Block(StartAt(q.start, q.blocks, g.value), n));
      hide Related;
    }
  }

  lemma FreeKeepsRelated(p: Pool, q: Pool, address: nat)
    requires Related(p, q)
    requires IndexOfStart(q.blocks, address).Some? ==> !InBlock(p, q, IndexOfStart(q.blocks, address).value)
    ensures Related(p, Deallocate(q, address).0)
  {
    var i := IndexOfStart(q.blocks, address);
    if i.Some? {
      var r := Deallocate(q, address).0;
      if Inside(p, q) {
        var k :| 0 <= k < |q.blocks| && InBlock(p, q, k);
        assert InBlock(p, r, if k < i.value then k else k - 1);
      }
      if Inside(q, p) {
        var k :| 0 <= k < |p.blocks| && InBlock(q, p, k);
        assert InBlock(r, p, k);
      }
    }
  }

  lemma RelatedSymmetric(p: Pool, q: Pool)
    requires Related(p, q)
    ensures Related(q, p)
  {
  }

  /** A new pool inside block k of p is related to every pool that p is related to. */
  lemma NewPoolRelated(n: Pool, p: Pool, k: nat, q: Pool)
    requires Wf(p) && Wf(q) && InBlock(n, p, k) && Related(p, q)
    requires InBlock(q, p, k) ==> Apart(n, q)
    ensures Related(n, q)
  {
    OrderedFacts(p.start, p.blocks, p.End());
    if Inside(p, q) {
      var l :| 0 <= l < |q.blocks| && InBlock(p, q, l);
      assert InBlock(n, q, l);
    } else if Inside(q, p) {
      var l :| 0 <= l < |p.blocks| && InBlock(q, p, l);
      assert l < k ==> p.blocks[l].End() <= p.blocks[k].start;
      assert k < l ==> p.blocks[k].End() <= p.blocks[l].start;
    }
  }

  lemma CreateKeepsLaminar(h: Heap, base: nat, size: uint32)
    requires HeapWf(h) && Laminar(h) && base > 0 && Careful(h, Create(base, size, true))
    ensures Laminar(PoolCreate(h, base, size, true).heap)
  {
    var n := Pool(h.next, base, size, []);
    var g := PoolCreate(h, base, size, true).heap;
    forall j | 0 <= j < |h.pools| ensures Related(n, h.pools[j]) {
      if !forall i :: 0 <= i < |h.pools| ==> Apart(n, h.pools[i]) {
        var i, k :| 0 <= i < |h.pools| && 0 <= k < |h.pools[i].blocks| && InBlock(n, h.pools[i], k)
                    && forall j :: 0 <= j < |h.pools| && j != i && InBlock(h.pools[j], h.pools[i], k) ==>
                                     Apart(n, h.pools[j]);
        if j == i {
          assert Inside(n, h.pools[i]);
        } else {
          assert Related(h.pools[i], h.pools[j]);
          NewPoolRelated(n, h.pools[i], k, h.pools[j]);
        }
      }
    }
    forall i, j | 0 <= i < |g.pools| && 0 <= j < |g.pools| && i != j
      ensures Related(g.pools[i], g.pools[j])
    {
      if i == |h.pools| {
        assert g.pools[j] == h.pools[j];
      } else if j == |h.pools| {
        RelatedSymmetric(n, h.pools[i]);
      } else {
        assert Related(h.pools[i], h.pools[j]);
      }
    }
  }

  lemma UpdateKeepsLaminar(h: Heap, i: nat, q: Pool)
    requires Laminar(h) && i < |h.pools|
    requires forall j :: 0 <= j < |h.pools| && j != i ==> Related(h.pools[j], q)
    ensures Laminar(h.(pools := h.pools[i := q]))
  {
    forall j | 0 <= j < |h.pools| && j != i ensures Related(q, h.pools[j]) {
      RelatedSymmetric(h.pools[j], q);
    }
    hide Related;
  }

  lemma PerformKeepsLaminar(h: Heap, c: Call)
    requires HeapWf(h) && Laminar(h) && Careful(h, c)
    ensures Laminar(Perform(h, c).heap)
  {
    match c {
      case Create(base, size, hasRef) =>
        if base > 0 && hasRef { CreateKeepsLaminar(h, base, size); }
      case Delete(id) =>
        hide Related, Wf;
      case Alloc(id, bytes, hasRef) =>
        var i := FindPool(h.pools, id);
        if i.Some? {
          var q := h.pools[i.value];
          forall j | 0 <= j < |h.pools| && j != i.value ensures Related(h.pools[j], Allocate(q, RoundUp(bytes)).0) {
            AllocateKeepsRelated(h.pools[j], q, RoundUp(bytes));
          }
          UpdateKeepsLaminar(h, i.value, Allocate(q, RoundUp(bytes)).0);
          hide Laminar, RoundUp, Allocate;
        }
      case Free(id, address) =>
        var i := FindPool(h.pools, id);
        if i.Some? {
          var q := h.pools[i.value];
          forall j | 0 <= j < |h.pools| && j != i.value ensures Related(h.pools[j], Deallocate(q, address).0) {
            FreeKeepsRelated(h.pools[j], q, address);
          }
          UpdateKeepsLaminar(h, i.value, Deallocate(q, address).0);
          hide Laminar, Deallocate;
        }
      case Query(_, _) =>
    }
  }

  // ---------- Runs ----------

  /** A run: each heap follows from the one before by the call made there. */
  predicate HeapRun(heaps: seq<Heap>, calls: seq<Call>) {
    && |heaps| == |calls| + 1
    && heaps[0] == Heap([], 0)
    && forall i :: 0 <= i < |calls| ==> Careful(heaps[i], calls[i]) && heaps[i + 1] == Perform(heaps[i], calls[i]).heap
  }

  /** Every heap of every careful run is well formed and laminar; with LiveBlocksNest, any two live blocks
      are apart or nested. */
  lemma {:induction false} EveryHeapIsLaminar(heaps: seq<Heap>, calls: seq<Call>, i: nat)
    requires HeapRun(heaps, calls) && i < |heaps|
    ensures HeapWf(heaps[i]) && Laminar(heaps[i])
  {
    if i > 0 {
      EveryHeapIsLaminar(heaps, calls, i - 1);
      assert Careful(heaps[i - 1], calls[i - 1]);
      PerformKeepsWf(heaps[i - 1], calls[i - 1]);
      PerformKeepsLaminar(heaps[i - 1], calls[i - 1]);
    }
  }

  /** Over every careful run, any two live blocks are apart or one lies within the other. */
  lemma LiveBlocksNestInEveryRun(heaps: seq<Heap>, calls: seq<Call>, t: nat, i: nat, j: nat, k: nat, l: nat)
    requires HeapRun(heaps, calls) && t < |heaps|
    requires var h := heaps[t];
             i < |h.pools| && j < |h.pools| && k < |h.pools[i].blocks| && l < |h.pools[j].blocks| && (i, k) != (j, l)
    ensures var (p, q) := (heaps[t].pools[i], heaps[t].pools[j]);
            || BlocksApart(p.blocks[k], q.blocks[l])
            || (BlockWithin(p.blocks[k], q.blocks[l]) && InBlock(p, q, l))
            || (BlockWithin(q.blocks[l], p.blocks[k]) && InBlock(q, p, k))
  {
    EveryHeapIsLaminar(heaps, calls, t);
    LiveBlocksNest(heaps[t], i, j, k, l);
  }

  /** A run in which no size wraps. */
  predicate NoWrap(calls: seq<Call>) {
    forall i :: 0 <= i < |calls| && calls[i].Alloc? ==> calls[i].bytes <= 0xFFFF_FFC0
  }

  predicate AllGrained(h: Heap) {
    forall i :: 0 <= i < |h.pools| ==> Grained(h.pools[i])
  }

  /** When no size wraps, every pool has at most a 64th of its size of blocks, all at multiples of 64. */
  lemma {:induction false} EveryHeapIsGrained(heaps: seq<Heap>, calls: seq<Call>, i: nat)
    requires HeapRun(heaps, calls) && NoWrap(calls) && i < |heaps|
    ensures AllGrained(heaps[i])
    ensures forall j :: 0 <= j < |heaps[i].pools| ==> |heaps[i].pools[j].blocks| <= heaps[i].pools[j].size / GRAIN
  {
    if i > 0 {
      EveryHeapIsGrained(heaps, calls, i - 1);
      EveryHeapIsLaminar(heaps, calls, i - 1);
      PerformKeepsGrained(heaps[i - 1], calls[i - 1]);
    }
    EveryHeapIsLaminar(heaps, calls, i);
    forall j | 0 <= j < |heaps[i].pools| ensures |heaps[i].pools[j].blocks| <= heaps[i].pools[j].size / GRAIN {
      FewBlocks(heaps[i].pools[j]);
    }
  }

  lemma PerformKeepsGrained(h: Heap, c: Call)
    requires HeapWf(h) && AllGrained(h) && (c.Alloc? ==> c.bytes <= 0xFFFF_FFC0)
    ensures AllGrained(Perform(h, c).heap)
  {
    match c {
      case Create(_, _, _) =>
      case Delete(_) =>
      case Alloc(id, bytes, hasRef) =>
        var i := FindPool(h.pools, id);
        if i.Some? && bytes > 0 {
          RoundUpIff(bytes);
          AllocateKeepsGrained(h.pools[i.value], RoundUp(bytes));
          hide Grained, RoundUp, Allocate;
        }
      case Free(id, address) =>
        var i := FindPool(h.pools, id);
        if i.Some? {
          DeallocateKeepsGrained(h.pools[i.value], address);
          hide Grained;
        }
      case Query(_, _) =>
    }
  }
}
