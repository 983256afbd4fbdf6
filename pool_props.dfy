/** Properties of the small-object pool that relate several of its steps,
    and the defects of the source set side by side with their corrections
    (the `corrected` flag of PoolSpec). */
module PoolProperties {
  import opened SizeClass
  import opened PoolSpec

  /** The pool-wide statics before any allocation: every bin empty, no link
      words, a null window and heap_size 0. */
  function InitialState(binCount: nat): (s: PoolState)
    requires binCount <= FREELIST_SIZE
    ensures WellFormed(s) && |s.bins| == binCount
    ensures forall i :: 0 <= i < binCount ==> s.bins[i] == 0
  {
    PoolState(seq(binCount, _ => 0), map[], 0, 0, 0)
  }

  // ---------------------------------------------------------------------------
  // chunk_alloc and refill

  /** When at least one block fits, chunk_alloc returns the old cursor,
      hands out all nobj blocks if they fit and otherwise as many as fit
      (at least one, fewer than asked), and only the cursor moves. */
  lemma ChunkAllocCarves(s: PoolState, n: nat, nobj: nat, sys: nat, corrected: bool)
    requires WellFormed(s) && 0 < n <= MAX_BYTES && nobj >= 1 && BytesLeft(s) >= n
    ensures ChunkAllocSpec(s, n, nobj, sys, corrected).1 == Chunk(s.startFree, ChunkAllocSpec(s, n, nobj, sys, corrected).1.count)
    ensures var count := ChunkAllocSpec(s, n, nobj, sys, corrected).1.count;
      && (count == nobj <==> BytesLeft(s) >= n * nobj)
      && (count < nobj ==> count == BytesLeft(s) / n)
      && 1 <= count && n * count <= BytesLeft(s)
      && ChunkAllocSpec(s, n, nobj, sys, corrected).0 == s.(startFree := s.startFree + n * count)
  {
    var left := BytesLeft(s);
    MulIsProduct(n, nobj);
    if left < n * nobj {
      CountBelowRequest(left, n, nobj);
      QuotientIsDivision(left, n);
      MulIsProduct(n, left / n);
    }
  }

  /** When not even one block fits and the leftover is donated without
      fault, the window is replaced by GrowthBytes fresh bytes at `sys`,
      heap_size grows by the same amount, and the retry carves all nobj
      blocks from the front of the fresh window. */
  lemma ChunkAllocGrows(s: PoolState, n: nat, nobj: nat, sys: nat, corrected: bool)
    requires s.startFree <= s.endFree && 0 < n <= MAX_BYTES && nobj >= 1 && BytesLeft(s) < n
    requires Donate(s, corrected).1 == Done
    ensures var (s1, ch) := ChunkAllocSpec(s, n, nobj, sys, corrected);
      && ch == Chunk(sys, nobj)
      && s1.endFree == sys + GrowthBytes(n, nobj, s.heapSize)
      && s1.heapSize == s.heapSize + GrowthBytes(n, nobj, s.heapSize)
      && s1.startFree == sys + n * nobj
      && s1.link == Donate(s, corrected).0.link && s1.bins == Donate(s, corrected).0.bins
  {
    ChunkAllocRetries(s, n, nobj, sys, corrected);
    MulIsProduct(n, nobj);
  }

  /** Once chunk_alloc has carved count blocks at addr, refill installs
      every block but the first in n's bin, in address order, the last one
      with a null link, and returns the first; with a single block carved it
      returns it and installs nothing. */
  lemma {:induction false} RefillInstallsChain(s1: PoolState, addr: nat, count: nat, n: nat)
    requires WellFormed(s1) && 0 < n <= MAX_BYTES && FreelistIndex(n) < |s1.bins| && count >= 1
    ensures var (s2, r) := RefillFrom(s1, Chunk(addr, count), n);
      var i := FreelistIndex(n);
      && r == Block(addr)
      && (count == 1 ==> s2 == s1)
      && (count > 1 ==>
            && s2.bins == s1.bins[i := addr + n]
            && Walk(s2.link, s2.bins[i], count - 1) == Blocks(addr, n, 1, count)
            && addr + Mul(n, count - 1) in s2.link
            && s2.link[addr + Mul(n, count - 1)] == 0)
  {
    if count > 1 {
      RefillWalk(s1.link, addr, n, count, 1);
      RefillLinkAt(s1.link, addr, n, count, count - 1);
      assert Mul(n, 1) == n;
    }
  }

  /** The first small request on a fresh pool (before initializer, or in a
      pool whose window is used up at heap_size 0) grows the window by
      2 * ROUND_UP(n) * 20 bytes, returns the fresh address and leaves
      block sys + ROUND_UP(n) at the head of n's bin. */
  lemma FirstRequestGrowsByTwoBatches(n: nat, sys: nat, corrected: bool)
    requires 1 <= n <= MAX_BYTES
    ensures var (s1, r) := AllocateSpec(InitialState(FREELIST_SIZE), n, sys, corrected);
      && r == Block(sys)
      && s1.startFree == sys + RoundUp(n) * REFILL_BATCH
      && s1.endFree == sys + 2 * RoundUp(n) * REFILL_BATCH
      && s1.heapSize == 2 * RoundUp(n) * REFILL_BATCH
      && s1.bins[FreelistIndex(n)] == sys + RoundUp(n)
  {
    var s0 := InitialState(FREELIST_SIZE);
    FreelistIndexOfRoundUp(n);
    var rn := RoundUp(n);
    ChunkAllocGrows(s0, rn, REFILL_BATCH, sys, corrected);
    MulIsProduct(rn, REFILL_BATCH);
  }

  /** After that first request the block at the head of n's bin links to
      the next block of the batch. */
  lemma FirstRequestLinksNext(n: nat, sys: nat, corrected: bool)
    requires 1 <= n <= MAX_BYTES
    ensures var s1 := AllocateSpec(InitialState(FREELIST_SIZE), n, sys, corrected).0;
      sys + RoundUp(n) in s1.link && s1.link[sys + RoundUp(n)] == sys + 2 * RoundUp(n)
  {
    var s0 := InitialState(FREELIST_SIZE);
    FreelistIndexOfRoundUp(n);
    var rn := RoundUp(n);
    var (c1, ch) := ChunkAllocSpec(s0, rn, REFILL_BATCH, sys, corrected);
    ChunkAllocGrows(s0, rn, REFILL_BATCH, sys, corrected);
    assert AllocateSpec(s0, n, sys, corrected) == RefillFrom(c1, ch, rn);
    assert RefillFrom(c1, ch, rn).0.link == RefillLinks(c1.link, sys, rn, REFILL_BATCH);
    RefillLinkAt(c1.link, sys, rn, REFILL_BATCH, 1);
    MulIsProduct(rn, 1);
    MulIsProduct(rn, 2);
  }

  /** Every request of 1..MAX_BYTES bytes meets only bins in range in a pool
      with FREELIST_SIZE bins. */
  lemma {:induction false} FullPoolStaysInBounds(s: PoolState, n: nat, sys: nat, corrected: bool)
    requires WellFormed(s) && |s.bins| == FREELIST_SIZE && 1 <= n <= MAX_BYTES
    ensures AllocateSpec(s, n, sys, corrected).1 != Undefined(BinOutOfBounds)
  {
    var i := FreelistIndex(n);
    if s.bins[i] == 0 {
      var rn := RoundUp(n);
      FreelistIndexOfRoundUp(n);
      if BytesLeft(s) < rn && BytesLeft(s) > 0 {
        assert FreelistIndex(BytesLeft(s)) < FREELIST_SIZE;
      }
    }
  }

  /** A zero-byte request underflows FREELIST_INDEX and indexes past the
      bins. */
  lemma ZeroByteRequestOutOfBounds(s: PoolState, sys: nat, corrected: bool)
    requires WellFormed(s)
    ensures AllocateSpec(s, 0, sys, corrected) == (s, Undefined(BinOutOfBounds))
  {
  }

  /** allocate's routing: above MAX_BYTES the request goes to operator new,
      which hands back sys, and the pool is left alone; from 1 to MAX_BYTES
      it is the pool's small allocation, which hands out a block of the
      request's bin (the head when the bin is stocked). */
  lemma AllocateRoutes(s: PoolState, n: nat, sys: nat, corrected: bool)
    requires WellFormed(s)
    ensures n > MAX_BYTES ==> AllocateSpec(s, n, sys, corrected) == (s, Block(sys))
    ensures n <= MAX_BYTES ==> AllocateSpec(s, n, sys, corrected) == SmallAllocSpec(s, n, sys, corrected)
    ensures 1 <= n <= MAX_BYTES && FreelistIndex(n) < |s.bins| && s.bins[FreelistIndex(n)] != 0 ==>
      AllocateSpec(s, n, sys, corrected).1 == Block(s.bins[FreelistIndex(n)])
  {
  }

  /** deallocate of a size that rounds above MAX_BYTES hands p to operator
      delete and leaves the pool alone. A size among the last ALIGN - 1
      values of size_t rounds to 0 instead, and FREELIST_INDEX(0) lies past
      the bins. */
  lemma DeallocLargeLeavesPool(s: PoolState, p: nat, size: nat, corrected: bool)
    requires IsSizeT(size) && p != 0 && |s.bins| == FREELIST_SIZE
    ensures MAX_BYTES < size <= SIZE_T_MOD - ALIGN ==> DeallocSpec(s, p, size, corrected) == (s, Done)
    ensures size > SIZE_T_MOD - ALIGN ==> DeallocSpec(s, p, size, corrected) == (s, Failed(BinOutOfBounds))
  {
  }

  /** deallocate(nullptr, size) does nothing. */
  lemma DeallocNullIsNoOp(s: PoolState, size: nat, corrected: bool)
    requires IsSizeT(size)
    ensures DeallocSpec(s, 0, size, corrected) == (s, Done)
  {
  }

  // ---------------------------------------------------------------------------
  // Bin pop and push: as written and corrected

  /** As written the bin never advances: allocating twice from a stocked bin
      hands out the same block twice and leaves the pool as it was. */
  lemma AsWrittenAllocationRepeats(s: PoolState, n: nat, sys: nat)
    requires WellFormed(s) && 1 <= n <= MAX_BYTES
    requires FreelistIndex(n) < |s.bins| && s.bins[FreelistIndex(n)] != 0
    ensures var (s1, r1) := SmallAllocSpec(s, n, sys, false);
      var (s2, r2) := SmallAllocSpec(s1, n, sys, false);
      && s1 == s && s2 == s
      && r1 == r2 == Block(s.bins[FreelistIndex(n)])
  {
  }

  /** As written, freeing the block just allocated points its link at
      itself: the bin's chain now loops on that block. */
  lemma AsWrittenFreeMakesSelfLoop(s: PoolState, n: nat, sys: nat)
    requires WellFormed(s) && 1 <= n <= MAX_BYTES
    requires FreelistIndex(n) < |s.bins| && s.bins[FreelistIndex(n)] != 0
    ensures var (s1, r) := SmallAllocSpec(s, n, sys, false);
      var (s2, st) := DeallocSpec(s1, r.addr, n, false);
      && st == Done && s2.bins == s.bins
      && r.addr in s2.link && s2.link[r.addr] == r.addr
  {
    FreelistIndexOfRoundUp(n);
  }

  /** As written, a freed block never reaches its bin: the bin keeps its
      head, so the next request of the same size is not served with it. */
  lemma AsWrittenFreeIsLost(s: PoolState, p: nat, n: nat, sys: nat)
    requires WellFormed(s) && p != 0 && 1 <= n <= MAX_BYTES && FreelistIndex(n) < |s.bins|
    ensures var (s1, st) := DeallocSpec(s, p, n, false);
      && st == Done && s1.bins == s.bins
      && (s.bins[FreelistIndex(n)] != 0 && s.bins[FreelistIndex(n)] != p ==>
            SmallAllocSpec(s1, n, sys, false).1 != Block(p))
  {
    FreelistIndexOfRoundUp(n);
  }

  /** Corrected, a freed block is the next one handed out for its size, and
      the bins are as they were before the free (LIFO reuse). */
  lemma FreeThenAllocateReuses(s: PoolState, p: nat, n: nat, sys: nat)
    requires WellFormed(s) && p != 0 && 1 <= n <= MAX_BYTES && FreelistIndex(n) < |s.bins|
    ensures var (s1, st) := DeallocSpec(s, p, n, true);
      var (s2, r) := SmallAllocSpec(s1, n, sys, true);
      && st == Done && r == Block(p)
      && s2.bins == s.bins && s2.link == s.link[p := s.bins[FreelistIndex(n)]]
  {
    FreelistIndexOfRoundUp(n);
    var i := FreelistIndex(n);
    var s1 := DeallocSpec(s, p, n, true).0;
    assert s1.bins[i] == p;
  }

  /** Corrected, allocating from a stocked bin and freeing the block again
      restores the pool exactly. */
  lemma AllocateThenFreeRestores(s: PoolState, n: nat, sys: nat)
    requires WellFormed(s) && 1 <= n <= MAX_BYTES
    requires FreelistIndex(n) < |s.bins| && s.bins[FreelistIndex(n)] != 0
    ensures var (s1, r) := SmallAllocSpec(s, n, sys, true);
      var (s2, st) := DeallocSpec(s1, r.addr, n, true);
      && r == Block(s.bins[FreelistIndex(n)]) && st == Done && s2 == s
  {
    FreelistIndexOfRoundUp(n);
    var i := FreelistIndex(n);
    var h := s.bins[i];
    var s1 := SmallAllocSpec(s, n, sys, true).0;
    var s2 := DeallocSpec(s1, h, n, true).0;
    assert s2.bins == s.bins;
    assert s2.link == s.link;
  }

  /** Three 8-byte requests on a fresh pool, as written: the second and the
      third get the same block. */
  lemma AsWrittenThreeRequests(sys: nat)
    ensures var (s1, r1) := AllocateSpec(InitialState(FREELIST_SIZE), 8, sys, false);
      var (s2, r2) := AllocateSpec(s1, 8, sys, false);
      var (s3, r3) := AllocateSpec(s2, 8, sys, false);
      r1 == Block(sys) && r2 == Block(sys + 8) && r3 == Block(sys + 8)
  {
    FirstRequestGrowsByTwoBatches(8, sys, false);
  }

  /** The same three requests with the pop corrected get three adjacent
      blocks. */
  lemma CorrectedThreeRequests(sys: nat)
    ensures var (s1, r1) := AllocateSpec(InitialState(FREELIST_SIZE), 8, sys, true);
      var (s2, r2) := AllocateSpec(s1, 8, sys, true);
      var (s3, r3) := AllocateSpec(s2, 8, sys, true);
      r1 == Block(sys) && r2 == Block(sys + 8) && r3 == Block(sys + 16)
  {
    FirstRequestGrowsByTwoBatches(8, sys, true);
    FirstRequestLinksNext(8, sys, true);
  }

  // ---------------------------------------------------------------------------
  // Donation of the leftover: as written and corrected

  /** As written, a leftover whose bin is empty is written through the null
      head. */
  lemma AsWrittenDonationWritesThroughNull(s: PoolState)
    requires WellFormed(s) && 0 < BytesLeft(s) < MAX_BYTES
    requires FreelistIndex(BytesLeft(s)) < |s.bins| && s.bins[FreelistIndex(BytesLeft(s))] == 0
    ensures Donate(s, false).1 == Failed(NullHeadWrite)
  {
  }

  /** As written, a leftover whose bin is stocked forms a two-block cycle
      with the head; the bin is not changed, so the leftover is never handed
      out and the head's old successors are cut off. */
  lemma AsWrittenDonationMakesCycle(s: PoolState)
    requires WellFormed(s) && 0 < BytesLeft(s) < MAX_BYTES
    requires FreelistIndex(BytesLeft(s)) < |s.bins| && s.bins[FreelistIndex(BytesLeft(s))] != 0
    ensures var (d, st) := Donate(s, false);
      var head := s.bins[FreelistIndex(BytesLeft(s))];
      && st == Done && d.bins == s.bins
      && head in d.link && d.link[head] == s.startFree
      && (head != s.startFree ==> s.startFree in d.link && d.link[s.startFree] == head)
  {
  }

  /** Corrected, the leftover becomes the head of its bin and links to the
      old head; the other bins keep their heads. */
  lemma CorrectedDonationPushes(s: PoolState)
    requires WellFormed(s) && 0 < BytesLeft(s) < MAX_BYTES
    requires FreelistIndex(BytesLeft(s)) < |s.bins|
    ensures var (d, st) := Donate(s, true);
      var i := FreelistIndex(BytesLeft(s));
      && st == Done && d.bins == s.bins[i := s.startFree]
      && d.link == s.link[s.startFree := s.bins[i]]
  {
  }

  // ---------------------------------------------------------------------------
  // Scavenging: as written and corrected

  /** FirstStockedSize finds a stocked bin whenever one of block size
      from + j * ALIGN (up to MAX_BYTES) is stocked, and what it finds is no
      larger. */
  lemma {:induction false} FirstStockedSizeIsFirst(s: PoolState, n: nat, from: nat, j: nat)
    requires from + j * ALIGN <= MAX_BYTES
    requires FreelistIndex(from + j * ALIGN) < |s.bins| && s.bins[FreelistIndex(from + j * ALIGN)] != 0
    ensures FirstStockedSize(s, n, from).Some? && FirstStockedSize(s, n, from).value <= from + j * ALIGN
    decreases j
  {
    if j > 0 && !(FreelistIndex(from) < |s.bins| && s.bins[FreelistIndex(from)] != 0) {
      assert from + ALIGN + (j - 1) * ALIGN == from + j * ALIGN;
      FirstStockedSizeIsFirst(s, n, from + ALIGN, j - 1);
    }
  }

  /** As written, scavenging for n with n's bin empty reads through the null
      head on its first round, whatever the other bins hold. */
  lemma AsWrittenScavengeReadsNull(s: PoolState, n: nat)
    requires WellFormed(s) && 0 < n <= MAX_BYTES
    requires FreelistIndex(n) < |s.bins| && s.bins[FreelistIndex(n)] == 0
    ensures ScavengeAsWritten(s, n).1 == Undefined(NullHeadRead)
  {
  }

  /** The intended scavenge finds a stocked bin whenever a bin of block size
      n + j * ALIGN (up to MAX_BYTES) is stocked, and the window it makes is
      no larger than that block. */
  lemma CorrectedScavengeFindsStockedBin(s: PoolState, n: nat, j: nat)
    requires WellFormed(s) && 0 < n && n + j * ALIGN <= MAX_BYTES
    requires FreelistIndex(n + j * ALIGN) < |s.bins| && s.bins[FreelistIndex(n + j * ALIGN)] != 0
    ensures ScavengeSpec(s, n).1
    ensures ScavengeSpec(s, n).0.endFree - ScavengeSpec(s, n).0.startFree <= n + j * ALIGN
  {
    FirstStockedSizeIsFirst(s, n, n, j);
  }

  // ---------------------------------------------------------------------------
  // The early copy's single bin

  /** With EARLY_FREELIST_SIZE bins every small request above ALIGN bytes
      indexes past the bin array before anything else happens. */
  lemma EarlyPoolOutOfBounds(s: PoolState, n: nat, sys: nat, corrected: bool)
    requires WellFormed(s) && |s.bins| == EARLY_FREELIST_SIZE && ALIGN < n <= MAX_BYTES
    ensures AllocateSpec(s, n, sys, corrected) == (s, Undefined(BinOutOfBounds))
  {
    EarlyBinInBounds(n);
  }
}
