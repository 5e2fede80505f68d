/** How much of a pool is free, and the rounding of requests to multiples of 64. */
module MemoryAccounting {
  import opened Basics
  import opened MemoryBlocks

  function Total(blocks: seq<Block>): nat {
    if blocks == [] then 0 else blocks[0].size + Total(blocks[1..])
  }

  function Interval(lo: nat, hi: nat): (s: set<nat>)
    requires lo <= hi
    ensures forall x :: x in s <==> lo <= x < hi
    ensures |s| == hi - lo
    decreases hi
  {
    if lo == hi then {} else Interval(lo, hi - 1) + {hi - 1}
  }

  /** The addresses between two bounds that no block covers. */
  function FreeBetween(from: nat, blocks: seq<Block>, end: nat): set<nat>
    requires from <= end
  {
    set x | x in Interval(from, end) && !Covered(blocks, x)
  }

  function FreeAddresses(p: Pool): set<nat> {
    FreeBetween(p.start, p.blocks, p.End())
  }

  lemma {:induction false} FreeSize(from: nat, blocks: seq<Block>, end: nat)
    requires from <= end && Ordered(from, blocks, end)
    ensures |FreeBetween(from, blocks, end)| == end - from - Total(blocks)
    decreases |blocks|
  {
    if blocks == [] {
      assert FreeBetween(from, blocks, end) == Interval(from, end);
    } else {
      var b, rest := blocks[0], blocks[1..];
      OrderedFacts(b.End(), rest, end);
      FreeSize(b.End(), rest, end);
      SplitFree(from, blocks, end);
      assert Interval(from, b.start) !! FreeBetween(b.End(), rest, end);
    }
  }

  lemma SplitFree(from: nat, blocks: seq<Block>, end: nat)
    requires Ordered(from, blocks, end) && blocks != [] && from <= end && blocks[0].End() <= end
    ensures FreeBetween(from, blocks, end)
         == Interval(from, blocks[0].start) + FreeBetween(blocks[0].End(), blocks[1..], end)
  {
    var b, rest := blocks[0], blocks[1..];
    OrderedFacts(from, blocks, end);
    OrderedFacts(b.End(), rest, end);
    assert forall x :: Covered(blocks, x) <==> Covers(b, x) || Covered(rest, x) by {
      forall x ensures Covered(blocks, x) <==> Covers(b, x) || Covered(rest, x) { CoveredSplit(blocks, x); }
    }
    assert forall x :: Covered(rest, x) ==> b.End() <= x;
  }

  lemma CoveredSplit(blocks: seq<Block>, x: nat)
    requires blocks != []
    ensures Covered(blocks, x) <==> Covers(blocks[0], x) || Covered(blocks[1..], x)
  {
    if Covered(blocks[1..], x) {
      var i :| 0 <= i < |blocks[1..]| && Covers(blocks[1..][i], x);
      assert Covers(blocks[i + 1], x);
    }
    if Covered(blocks, x) && !Covers(blocks[0], x) {
      var i :| 0 <= i < |blocks| && Covers(blocks[i], x);
      assert Covers(blocks[1..][i - 1], x);
    }
  }

  /** The size of a pool is its free addresses and its blocks together. */
  lemma SizeIsFreeAndGiven(p: Pool)
    requires Wf(p)
    ensures |FreeAddresses(p)| + Total(p.blocks) == p.size
  {
    FreeSize(p.start, p.blocks, p.End());
  }

  lemma {:induction false} TotalInsert(blocks: seq<Block>, k: nat, b: Block)
    requires k <= |blocks|
    ensures Total(Insert(blocks, k, b)) == Total(blocks) + b.size
    decreases k
  {
    var q := Insert(blocks, k, b);
    if k == 0 {
      assert q[1..] == blocks;
    } else {
      assert q[1..] == Insert(blocks[1..], k - 1, b);
      TotalInsert(blocks[1..], k - 1, b);
    }
  }

  /** A granted request takes exactly its size from the free addresses. */
  lemma AllocateTakes(p: Pool, n: nat)
    requires Wf(p)
    ensures |FreeAddresses(Allocate(p, n).0)| == |FreeAddresses(p)| - if Allocate(p, n).1 != 0 then n else 0
  {
    AllocateKeepsWf(p, n);
    SizeIsFreeAndGiven(p);
    SizeIsFreeAndGiven(Allocate(p, n).0);
    FirstGapIsFirst(p, n, 0);
    var g := FirstGap(p, n, 0);
    if g.Some? {
      TotalInsert(p.blocks, g.value, Block(StartAt(p.start, p.blocks, g.value), n));
      OrderedFacts(p.start, p.blocks, p.End());
    }
  }

  // ---------- Rounding ----------

  /** The rounding of a request to a multiple of 64, in 32 bits. */
  function RoundUp(size: uint32): uint32 {
    var raised := U32(size + 0x3F);
    raised - raised % GRAIN
  }

  /** Rounding reaches 0 exactly for no bytes or for the last 63 sizes, where the addition wraps; all other
      sizes are raised by less than 64. */
  lemma RoundUpIff(size: uint32)
    ensures RoundUp(size) % GRAIN == 0
    ensures RoundUp(size) == 0 <==> size == 0 || size > 0xFFFF_FFC0
    ensures size <= RoundUp(size) < size + GRAIN <==> size <= 0xFFFF_FFC0
  {
    var raised := U32(size + 0x3F);
    assert raised % 64 == raised - 64 * (raised / 64);
  }

  predicate GrainedBlock(start: nat, b: Block) {
    b.size >= GRAIN && b.size % GRAIN == 0 && (b.start - start) % GRAIN == 0
  }

  /** All blocks have a positive multiple of 64 bytes, at a multiple of 64 from the start. */
  predicate Grained(p: Pool) {
    forall i :: 0 <= i < |p.blocks| ==> GrainedBlock(p.start, p.blocks[i])
  }

  lemma NextGrain(start: nat, blocks: seq<Block>, k: nat, n: nat)
    requires k <= |blocks| && (k > 0 ==> GrainedBlock(start, blocks[k - 1])) && n % GRAIN == 0 && n > 0
    ensures GrainedBlock(start, Block(StartAt(start, blocks, k), n))
  {
    if k > 0 {
      var b := blocks[k - 1];
      assert b.End() - start == (b.start - start) + b.size;
    }
  }

  lemma AllocateKeepsGrained(p: Pool, n: nat)
    requires Wf(p) && Grained(p) && n % GRAIN == 0 && n > 0
    ensures Grained(Allocate(p, n).0)
  {
    hide GrainedBlock, StartAt, LimitAt, Ordered;
    FirstGapIsFirst(p, n, 0);
    var g := FirstGap(p, n, 0);
    if g.Some? {
      NextGrain(p.start, p.blocks, g.value, n);
      InsertedAt(p.blocks, g.value, Block(StartAt(p.start, p.blocks, g.value), n));
      hide Insert;
    }
  }

  lemma DeallocateKeepsGrained(p: Pool, a: nat)
    requires Grained(p)
    ensures Grained(Deallocate(p, a).0)
  {
    hide GrainedBlock;
  }

  lemma {:induction false} ManyGrains(blocks: seq<Block>)
    requires forall i :: 0 <= i < |blocks| ==> blocks[i].size >= GRAIN
    ensures Total(blocks) >= GRAIN * |blocks|
  {
    if blocks != [] {
      assert forall i :: 0 <= i < |blocks| - 1 ==> blocks[1..][i] == blocks[i + 1];
      ManyGrains(blocks[1..]);
    }
  }

  /** A pool of rounded blocks never has more than a 64th of its size of them. */
  lemma FewBlocks(p: Pool)
    requires Wf(p) && Grained(p)
    ensures |p.blocks| <= p.size / GRAIN
  {
    SizeIsFreeAndGiven(p);
    ManyGrains(p.blocks);
  }
}
