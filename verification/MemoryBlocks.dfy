/** One memory pool as a value: its addresses, and the list of blocks given out of them. */
module MemoryBlocks {
  import opened Basics

  const WORD: nat := 0x1_0000_0000
  const ADDRESSES: nat := 0x1_0000_0000_0000_0000
  const GRAIN: nat := 64

  datatype Block = Block(start: nat, size: nat)
  {
    function End(): nat {
      start + size
    }
  }

  datatype Pool = Pool(id: nat, start: nat, size: nat, blocks: seq<Block>)
  {
    function End(): nat {
      start + size
    }
  }

  /** Blocks in order, without overlap, between two addresses. */
  predicate Ordered(from: nat, blocks: seq<Block>, end: nat)
    decreases |blocks|
  {
    if blocks == [] then from <= end
    else from <= blocks[0].start && Ordered(blocks[0].End(), blocks[1..], end)
  }

  /** A pool starts at a real address and lies in the address space; its blocks are in order inside it,
      and only at its very start can there be blocks of size zero. */
  predicate Wf(p: Pool) {
    && 0 < p.start && p.size < WORD && p.End() <= ADDRESSES
    && Ordered(p.start, p.blocks, p.End())
    && forall i :: 0 <= i < |p.blocks| && p.blocks[i].size == 0 ==> p.blocks[i].start == p.start
  }

  predicate Covers(b: Block, x: nat) {
    b.start <= x < b.End()
  }

  predicate Covered(blocks: seq<Block>, x: nat) {
    exists i :: 0 <= i < |blocks| && Covers(blocks[i], x)
  }

  /** n free addresses of the pool from address a on. */
  predicate Fits(p: Pool, a: nat, n: nat) {
    p.start <= a && a + n <= p.End() && forall x :: a <= x < a + n ==> !Covered(p.blocks, x)
  }

  lemma {:induction false} OrderedFacts(from: nat, blocks: seq<Block>, end: nat)
    requires Ordered(from, blocks, end)
    ensures from <= end
    ensures forall i :: 0 <= i < |blocks| ==> from <= blocks[i].start && blocks[i].End() <= end
    ensures forall i, j :: 0 <= i < j < |blocks| ==> blocks[i].End() <= blocks[j].start
    decreases |blocks|
  {
    if blocks != [] {
      OrderedFacts(blocks[0].End(), blocks[1..], end);
      assert forall i :: 0 < i < |blocks| ==> blocks[i] == blocks[1..][i - 1];
    }
  }

  // ---------- First fit ----------

  function StartAt(from: nat, blocks: seq<Block>, k: nat): nat
    requires k <= |blocks|
  {
    if k == 0 then from else blocks[k - 1].End()
  }

  function LimitAt(blocks: seq<Block>, end: nat, k: nat): nat
    requires k <= |blocks|
  {
    if k == |blocks| then end else blocks[k].start
  }

  /** The first gap, counted from k on, that holds n bytes: gap k lies before block k. */
  function FirstGap(p: Pool, n: nat, k: nat): Option<nat>
    requires k <= |p.blocks|
    decreases |p.blocks| - k
  {
    if StartAt(p.start, p.blocks, k) + n <= LimitAt(p.blocks, p.End(), k) then Some(k)
    else if k == |p.blocks| then None
    else FirstGap(p, n, k + 1)
  }

  lemma {:induction false} FirstGapIsFirst(p: Pool, n: nat, k: nat)
    requires k <= |p.blocks|
    ensures match FirstGap(p, n, k)
            case Some(j) =>
              && k <= j <= |p.blocks|
              && StartAt(p.start, p.blocks, j) + n <= LimitAt(p.blocks, p.End(), j)
              && forall i :: k <= i < j ==> StartAt(p.start, p.blocks, i) + n > LimitAt(p.blocks, p.End(), i)
            case None =>
              forall i :: k <= i <= |p.blocks| ==> StartAt(p.start, p.blocks, i) + n > LimitAt(p.blocks, p.End(), i)
    decreases |p.blocks| - k
  {
    if k < |p.blocks| { FirstGapIsFirst(p, n, k + 1); }
  }

  function Insert(blocks: seq<Block>, k: nat, b: Block): seq<Block>
    requires k <= |blocks|
  {
    blocks[..k] + [b] + blocks[k..]
  }

  /** The pool after a request for n bytes, and the address given; 0 is the null pointer. */
  function Allocate(p: Pool, n: nat): (r: (Pool, nat)) {
    FirstGapIsFirst(p, n, 0);
    match FirstGap(p, n, 0)
    case None => (p, 0)
    case Some(k) =>
      var a := StartAt(p.start, p.blocks, k);
      (p.(blocks := Insert(p.blocks, k, Block(a, n))), a)
  }

  predicate StartsBlock(blocks: seq<Block>, a: nat) {
    exists i :: 0 <= i < |blocks| && blocks[i].start == a
  }

  predicate Positive(blocks: seq<Block>) {
    forall i :: 0 <= i < |blocks| ==> blocks[i].size > 0
  }

  function IndexOfStart(blocks: seq<Block>, a: nat): (r: Option<nat>)
    ensures r.Some? ==> r.value < |blocks| && blocks[r.value].start == a
                        && forall i :: 0 <= i < r.value ==> blocks[i].start != a
    ensures r.Some? <==> StartsBlock(blocks, a)
  {
    if blocks == [] then None
    else if blocks[0].start == a then Some(0)
    else match IndexOfStart(blocks[1..], a)
      case None => None
      case Some(i) => Some(i + 1)
  }

  /** The pool after the block at address a is given back, and whether there was one. */
  function Deallocate(p: Pool, a: nat): (Pool, bool) {
    match IndexOfStart(p.blocks, a)
    case None => (p, false)
    case Some(i) => (p.(blocks := RemoveAt(p.blocks, i)), true)
  }

  /** A gap holds no covered address, and a run of free addresses lies in one gap. */
  lemma GapIsFree(p: Pool, k: nat, n: nat)
    requires Wf(p) && k <= |p.blocks|
    requires StartAt(p.start, p.blocks, k) + n <= LimitAt(p.blocks, p.End(), k)
    ensures Fits(p, StartAt(p.start, p.blocks, k), n)
  {
    OrderedFacts(p.start, p.blocks, p.End());
    var a := StartAt(p.start, p.blocks, k);
    forall x, i | a <= x < a + n && 0 <= i < |p.blocks|
      ensures !Covers(p.blocks[i], x)
    {
      if i < k { assert p.blocks[i].End() <= a; } else { assert LimitAt(p.blocks, p.End(), k) <= p.blocks[i].start; }
    }
  }

  lemma {:induction false} FitLiesInGap(p: Pool, a: nat, n: nat, k: nat) returns (j: nat)
    requires Wf(p) && Fits(p, a, n) && n > 0 && k <= |p.blocks| && StartAt(p.start, p.blocks, k) <= a
    ensures k <= j <= |p.blocks|
    ensures StartAt(p.start, p.blocks, j) <= a && a + n <= LimitAt(p.blocks, p.End(), j)
    decreases |p.blocks| - k
  {
    if k == |p.blocks| || a + n <= p.blocks[k].start {
      j := k;
    } else {
      var b := p.blocks[k];
      OrderedFacts(p.start, p.blocks, p.End());
      assert forall x :: a <= x < a + n ==> !Covers(b, x) by {
        assert forall x :: Covers(b, x) ==> Covered(p.blocks, x);
      }
      assert !Covers(b, a) && (a <= b.start ==> !Covers(b, b.start));
      j := FitLiesInGap(p, a, n, k + 1);
    }
  }

  /** First fit is sound and complete: the address returned is the least at which n bytes fit, and the
      null pointer is returned exactly when they fit nowhere. */
  lemma FirstFit(p: Pool, n: nat)
    requires Wf(p) && n > 0
    ensures var r := Allocate(p, n).1;
            && (r != 0 ==> Fits(p, r, n))
            && (forall a :: Fits(p, a, n) ==> 0 != r <= a)
  {
    FirstGapIsFirst(p, n, 0);
    OrderedFacts(p.start, p.blocks, p.End());
    var g := FirstGap(p, n, 0);
    if g.Some? { GapIsFree(p, g.value, n); }
    forall a | Fits(p, a, n)
      ensures 0 != Allocate(p, n).1 <= a
    {
      var j := FitLiesInGap(p, a, n, 0);
      assert g.Some? && g.value <= j;
    }
  }

  /** A request for no bytes is always granted, at the start of the pool. */
  lemma ZeroSizeBlock(p: Pool)
    requires Wf(p)
    ensures Allocate(p, 0) == (p.(blocks := [Block(p.start, 0)] + p.blocks), p.start)
  {
    OrderedFacts(p.start, p.blocks, p.End());
    assert FirstGap(p, 0, 0) == Some(0);
    assert Insert(p.blocks, 0, Block(p.start, 0)) == [Block(p.start, 0)] + p.blocks;
  }

  // ---------- The invariant ----------

  lemma {:induction false} OrderedInsert(from: nat, blocks: seq<Block>, end: nat, k: nat, b: Block)
    requires Ordered(from, blocks, end) && k <= |blocks|
    requires StartAt(from, blocks, k) <= b.start && b.End() <= LimitAt(blocks, end, k)
    ensures Ordered(from, Insert(blocks, k, b), end)
    decreases k
  {
    var r := Insert(blocks, k, b);
    if k == 0 {
      assert r == [b] + blocks && r[1..] == blocks;
    } else {
      assert r[1..] == Insert(blocks[1..], k - 1, b);
      OrderedInsert(blocks[0].End(), blocks[1..], end, k - 1, b);
    }
  }

  lemma {:induction false} OrderedRemove(from: nat, blocks: seq<Block>, end: nat, i: nat)
    requires Ordered(from, blocks, end) && i < |blocks|
    ensures Ordered(from, RemoveAt(blocks, i), end)
    decreases i
  {
    if i == 0 {
      assert RemoveAt(blocks, 0) == blocks[1..];
      OrderedFrom(from, blocks[0].End(), blocks[1..], end);
    } else {
      assert RemoveAt(blocks, i)[1..] == RemoveAt(blocks[1..], i - 1);
      OrderedRemove(blocks[0].End(), blocks[1..], end, i - 1);
    }
  }

  lemma OrderedFrom(from: nat, later: nat, blocks: seq<Block>, end: nat)
    requires Ordered(later, blocks, end) && from <= later
    ensures Ordered(from, blocks, end)
  {
  }

  lemma InsertedAt(blocks: seq<Block>, k: nat, b: Block)
    requires k <= |blocks|
    ensures var q := Insert(blocks, k, b);
            && |q| == |blocks| + 1 && q[k] == b && RemoveAt(q, k) == blocks
            && (forall i :: 0 <= i < k ==> q[i] == blocks[i])
            && (forall i :: k <= i < |blocks| ==> q[i + 1] == blocks[i])
            && (forall i :: k < i < |q| ==> q[i] == blocks[i - 1])
  {
  }

  lemma InsertKeepsWf(p: Pool, k: nat, b: Block)
    requires Wf(p) && k <= |p.blocks| && (b.size == 0 ==> b.start == p.start)
    requires StartAt(p.start, p.blocks, k) <= b.start && b.End() <= LimitAt(p.blocks, p.End(), k)
    ensures Wf(p.(blocks := Insert(p.blocks, k, b)))
  {
    OrderedInsert(p.start, p.blocks, p.End(), k, b);
    InsertedAt(p.blocks, k, b);
    hide Insert, Ordered, StartAt, LimitAt;
  }

  lemma AllocateKeepsWf(p: Pool, n: nat)
    requires Wf(p)
    ensures Wf(Allocate(p, n).0)
    ensures Allocate(p, n).1 == 0 ==> Allocate(p, n).0 == p
  {
    FirstGapIsFirst(p, n, 0);
    OrderedFacts(p.start, p.blocks, p.End());
    var g := FirstGap(p, n, 0);
    if n == 0 { ZeroSizeBlock(p); }
    if g.Some? {
      InsertKeepsWf(p, g.value, Block(StartAt(p.start, p.blocks, g.value), n));
    }
  }

  lemma DeallocateKeepsWf(p: Pool, a: nat)
    requires Wf(p)
    ensures Wf(Deallocate(p, a).0)
  {
    var i := IndexOfStart(p.blocks, a);
    if i.Some? {
      OrderedRemove(p.start, p.blocks, p.End(), i.value);
    }
  }

  /** The starts of the blocks before and after the gap that was found. */
  lemma AroundGap(p: Pool, n: nat) returns (k: nat, a: nat)
    requires Wf(p) && n > 0 && Allocate(p, n).1 != 0
    ensures k <= |p.blocks| && a == StartAt(p.start, p.blocks, k) && (k > 0 ==> a == p.blocks[k - 1].End())
    ensures Allocate(p, n) == (p.(blocks := Insert(p.blocks, k, Block(a, n))), a)
    ensures forall i :: 0 <= i < k ==> p.blocks[i].start <= a
    ensures forall i :: 0 <= i < k && p.blocks[i].size > 0 ==> p.blocks[i].start < a
    ensures forall i :: k <= i < |p.blocks| ==> a < p.blocks[i].start
  {
    FirstGapIsFirst(p, n, 0);
    OrderedFacts(p.start, p.blocks, p.End());
    k := FirstGap(p, n, 0).value;
    a := StartAt(p.start, p.blocks, k);
    assert forall i :: 0 <= i < k ==> p.blocks[i].End() <= a;
  }

  predicate DistinctStarts(blocks: seq<Block>) {
    forall i, j :: 0 <= i < j < |blocks| ==> blocks[i].start != blocks[j].start
  }

  lemma DistinctInsert(blocks: seq<Block>, k: nat, b: Block)
    requires k <= |blocks| && DistinctStarts(blocks)
    ensures DistinctStarts(Insert(blocks, k, b)) <==> !StartsBlock(blocks, b.start)
  {
    InsertedAt(blocks, k, b);
    var q := Insert(blocks, k, b);
    hide Insert;
    if StartsBlock(blocks, b.start) {
      var i :| 0 <= i < |blocks| && blocks[i].start == b.start;
      assert q[if i < k then i else i + 1].start == b.start == q[k].start;
    } else {
      forall i, j | 0 <= i < j < |q| ensures q[i].start != q[j].start {
        assert i < k ==> q[i] == blocks[i];
        assert j > k ==> q[j] == blocks[j - 1];
        assert j < k ==> q[j] == blocks[j];
        assert i > k ==> q[i] == blocks[i - 1];
      }
    }
  }

  /** Block starts stay distinct exactly when the request is for some bytes, or no block starts the pool. */
  lemma DistinctStartsKeptIff(p: Pool, n: nat)
    requires Wf(p) && DistinctStarts(p.blocks) && Positive(p.blocks)
    ensures DistinctStarts(Allocate(p, n).0.blocks) <==> n > 0 || !StartsBlock(p.blocks, p.start)
  {
    if n == 0 {
      ZeroSizeBlock(p);
      DistinctInsert(p.blocks, 0, Block(p.start, 0));
      assert Insert(p.blocks, 0, Block(p.start, 0)) == [Block(p.start, 0)] + p.blocks;
    } else if Allocate(p, n).1 != 0 {
      var k, a := AroundGap(p, n);
      DistinctInsert(p.blocks, k, Block(a, n));
    } else {
      AllocateKeepsWf(p, n);
    }
  }

  /** Giving back the address just received restores the exact list of blocks, unless another block, of
      size zero, starts at that address. */
  lemma DeallocateUndoesAllocateIff(p: Pool, n: nat)
    requires Wf(p) && Allocate(p, n).1 != 0
    ensures Deallocate(Allocate(p, n).0, Allocate(p, n).1) == (p, true)
            <==> n == 0 || !StartsBlock(p.blocks, Allocate(p, n).1)
  {
    if n == 0 {
      ZeroSizeBlock(p);
      var q := [Block(p.start, 0)] + p.blocks;
      assert IndexOfStart(q, p.start) == Some(0) && RemoveAt(q, 0) == p.blocks;
    } else {
      var k, a := AroundGap(p, n);
      var q := Insert(p.blocks, k, Block(a, n));
      InsertedAt(p.blocks, k, Block(a, n));
      hide Wf, Allocate, Insert, StartAt;
      assert q[k].start == a;
      var i := IndexOfStart(q, a).value;
      assert i <= k;
      if i < k {
        assert p.blocks[i].start == a;
        assert RemoveAt(q, i)[k - 1] == q[k];
        assert p.blocks[k - 1].End() == a;
      } else {
        assert forall j :: 0 <= j < k ==> p.blocks[j].start != a;
      }
    }
  }

  /** A pool without blocks of size zero is restored by every pair of calls. */
  lemma PositiveBlocksRestored(p: Pool, n: nat)
    requires Wf(p) && Allocate(p, n).1 != 0 && n > 0 && Positive(p.blocks)
    ensures Deallocate(Allocate(p, n).0, Allocate(p, n).1) == (p, true)
  {
    var k, a := AroundGap(p, n);
    DeallocateUndoesAllocateIff(p, n);
  }
}
