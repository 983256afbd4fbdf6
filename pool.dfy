/** The small-object allocator my_malloc_allocator as an object whose fields
    are the pool-wide statics of the source: the bin array free_list, the
    link word of every block, the arena window and the heap total. Each
    method changes the fields exactly as the matching function of PoolSpec
    says, and keeps the pool well formed.

    One class covers the four copies of the allocator: the number of bins is
    a constructor argument (FREELIST_SIZE for the templated and the
    non-templated pools, EARLY_FREELIST_SIZE for the early copy), and
    `corrected` selects, at each of the defects the source has, between the
    step as written and the step as intended. */
module Allocator {
  import opened SizeClass
  import opened PoolSpec

  class Pool {
    /** free_list: the head of every bin, 0 when the bin is empty. */
    const bins: array<nat>
    /** Whether the defective steps run as intended rather than as written. */
    const corrected: bool
    /** free_list_link of every block that carries one. */
    var link: map<nat, nat>
    var startFree: nat
    var endFree: nat
    var heapSize: nat
    var pageSize: nat
    /** memoryPoolPtr: the first page, 0 until the pool is initialised. */
    var poolPtr: nat

    /** The fields the spec functions work on. */
    function State(): (s: PoolState)
      reads this, bins
      ensures |s.bins| == bins.Length
    {
      PoolState(bins[..], link, startFree, endFree, heapSize)
    }

    ghost predicate Valid()
      reads this, bins
    {
      WellFormed(State())
    }

    /** The static initial state: every bin empty, the window null/null,
        heap_size 0 and no page yet. */
    constructor (binCount: nat, corrected: bool)
      requires binCount <= FREELIST_SIZE
      ensures Valid() && this.corrected == corrected
      ensures bins.Length == binCount && forall i :: 0 <= i < binCount ==> bins[i] == 0
      ensures link == map[] && startFree == 0 && endFree == 0 && heapSize == 0
      ensures pageSize == 0 && poolPtr == 0
    {
      bins := new nat[binCount](_ => 0);
      this.corrected := corrected;
      link := map[];
      startFree := 0;
      endFree := 0;
      heapSize := 0;
      pageSize := 0;
      poolPtr := 0;
    }

    /** The constructors of the templated and the early copy: a page from
        operator new (at `sys`) becomes the whole window, and heap_size is
        reset to the page size. */
    method Construct(page: nat, sys: nat)
      requires Valid()
      modifies this
      ensures Valid()
      ensures pageSize == page && poolPtr == sys
      ensures State() == old(State()).(startFree := sys, endFree := sys + page, heapSize := page)
    {
      pageSize := page;
      poolPtr := sys;
      startFree := poolPtr;
      endFree := startFree + pageSize;
      heapSize := pageSize;
    }

    /** initializer of the non-templated pool: the same first page, but only
        once; while memoryPoolPtr is set nothing changes. */
    method Initializer(page: nat, sys: nat)
      requires Valid() && sys != 0
      modifies this
      ensures Valid()
      ensures old(poolPtr) != 0 ==> unchanged(this)
      ensures old(poolPtr) == 0 ==>
        && pageSize == page && poolPtr == sys
        && State() == old(State()).(startFree := sys, endFree := sys + page, heapSize := page)
    {
      if poolPtr != 0 {
        return;
      }
      pageSize := page;
      poolPtr := sys;
      startFree := poolPtr;
      endFree := startFree + pageSize;
      heapSize := pageSize;
    }

    /** The leftover step of chunk_alloc: fewer than one block's bytes are
        left at the front of the window and are handed to their bin. */
    method DonateLeftover() returns (st: Status)
      requires Valid() && endFree < startFree + MAX_BYTES
      modifies this, bins
      ensures Valid()
      ensures (State(), st) == Donate(old(State()), corrected)
      ensures pageSize == old(pageSize) && poolPtr == old(poolPtr)
    {
      var left := endFree - startFree;
      if left > 0 {
        var i := FreelistIndex(left);
        if i >= bins.Length {
          return Failed(BinOutOfBounds);
        }
        var head := bins[i];
        if corrected {
          link := link[startFree := head];
          bins[i] := startFree;
        } else {
          link := link[startFree := head];
          if head == 0 {
            return Failed(NullHeadWrite);
          }
          link := link[head := startFree];
        }
      }
      st := Done;
    }

    /** chunk_alloc(n, nobj); the by-reference nobj comes back as the chunk's
        count, and `sys` is what operator new returns on growth. While at
        least one block is left the window is carved; otherwise the
        leftover is donated, the window grows and chunk_alloc calls itself. */
    method ChunkAlloc(n: nat, nobj: nat, sys: nat) returns (chunk: Chunk)
      requires Valid() && 0 < n <= MAX_BYTES && nobj >= 1
      modifies this, bins
      ensures Valid()
      ensures (State(), chunk) == ChunkAllocSpec(old(State()), n, nobj, sys, corrected)
      ensures pageSize == old(pageSize) && poolPtr == old(poolPtr)
      decreases if endFree - startFree >= n then 0 else 1
    {
      if endFree - startFree >= n {
        chunk := Carve(n, nobj, sys);
      } else {
        var st := DonateLeftover();
        if st.Failed? {
          return ChunkUb(st.ub);
        }
        ChunkAllocRetries(old(State()), n, nobj, sys, corrected);
        Grow(n, nobj, sys);
        chunk := ChunkAlloc(n, nobj, sys);
      }
    }

    /** The carving branches of chunk_alloc: the whole request when it
        fits, else as many whole blocks as are left. */
    method Carve(n: nat, nobj: nat, sys: nat) returns (chunk: Chunk)
      requires Valid() && 0 < n <= MAX_BYTES && nobj >= 1 && endFree - startFree >= n
      modifies this`startFree
      ensures Valid()
      ensures (State(), chunk) == ChunkAllocSpec(old(State()), n, nobj, sys, corrected)
    {
      var total := n * nobj;
      MulIsProduct(n, nobj);
      var left := endFree - startFree;
      if left >= total {
        chunk := Chunk(startFree, nobj);
        startFree := startFree + total;
      } else {
        var k := left / n;
        QuotientIsDivision(left, n);
        MulIsProduct(n, k);
        chunk := Chunk(startFree, k);
        startFree := startFree + n * k;
      }
    }

    /** The growth step of chunk_alloc: bytes_to_get fresh bytes at `sys`
        become the window and are added to heap_size. */
    method Grow(n: nat, nobj: nat, sys: nat)
      requires Valid()
      modifies this`startFree, this`endFree, this`heapSize
      ensures Valid() && State() == Grown(old(State()), n, nobj, sys)
    {
      var bytesToGet := n * nobj * 2 + heapSize / 16;
      MulIsProduct(n, nobj);
      startFree := sys;
      endFree := startFree + bytesToGet;
      heapSize := heapSize + bytesToGet;
    }

    /** refill's loop: block j of the chunk gets a link to block j + 1, and
        the last block's link is nulled in the last round. */
    method LinkChunk(chunk: nat, n: nat, nobj: nat)
      requires nobj >= 1
      modifies this
      ensures link == RefillLinks(old(link), chunk, n, nobj)
      ensures startFree == old(startFree) && endFree == old(endFree)
      ensures heapSize == old(heapSize) && pageSize == old(pageSize) && poolPtr == old(poolPtr)
    {
      var j := 0;
      while j <= nobj - 1
        invariant 0 <= j <= nobj
        invariant j < nobj ==> link == ChainLinks(old(link), chunk, n, j)
        invariant j == nobj ==> link == RefillLinks(old(link), chunk, n, nobj)
        invariant startFree == old(startFree) && endFree == old(endFree)
        invariant heapSize == old(heapSize) && pageSize == old(pageSize) && poolPtr == old(poolPtr)
      {
        MulIsProduct(n, j);
        MulIsProduct(n, j + 1);
        link := link[chunk + j * n := chunk + (j + 1) * n];
        if j == nobj - 1 {
          link := link[chunk + j * n := 0];
        }
        j := j + 1;
      }
    }

    /** refill(n): carve REFILL_BATCH blocks of n bytes and install them. */
    method Refill(n: nat, sys: nat) returns (r: Outcome)
      requires Valid() && 0 < n <= MAX_BYTES
      modifies this, bins
      ensures Valid()
      ensures (State(), r) == RefillSpec(old(State()), n, sys, corrected)
      ensures pageSize == old(pageSize) && poolPtr == old(poolPtr)
    {
      var ch := ChunkAlloc(n, REFILL_BATCH, sys);
      r := InstallChunk(ch, n);
    }

    /** The rest of refill: chain the chunk's blocks, install the chain in
        n's bin and pop its first block. */
    method InstallChunk(ch: Chunk, n: nat) returns (r: Outcome)
      requires Valid() && 0 < n <= MAX_BYTES
      requires ch.Chunk? ==> ch.count >= 1
      modifies this, bins
      ensures Valid()
      ensures (State(), r) == RefillFrom(old(State()), ch, n)
      ensures pageSize == old(pageSize) && poolPtr == old(poolPtr)
    {
      if ch.ChunkUb? {
        return Undefined(ch.ub);
      }
      var chunk, nobj := ch.addr, ch.count;
      var i := FreelistIndex(n);
      if nobj == 1 {
        return Block(chunk);
      }
      ghost var s1 := State();
      ghost var link0 := link;
      LinkChunk(chunk, n, nobj);
      RefillLinksClosed(link0, chunk, n, nobj);
      if i >= bins.Length {
        return Undefined(BinOutOfBounds);
      }
      bins[i] := chunk;
      var result := bins[i];
      RefillLinkAt(link0, chunk, n, nobj, 0);
      RefillLinkAt(link0, chunk, n, nobj, 1);
      assert Mul(n, 0) == 0 && Mul(n, 1) == n;
      bins[i] := link[bins[i]];
      r := Block(result);
      assert bins[..] == s1.bins[i := chunk + n];
    }

    /** small_mem_allocate(n): the head of n's bin, or a refill when the bin
        is empty. As written the bin keeps its head; corrected it is popped. */
    method SmallMemAllocate(n: nat, sys: nat) returns (r: Outcome)
      requires Valid() && n <= MAX_BYTES
      modifies this, bins
      ensures Valid()
      ensures (State(), r) == SmallAllocSpec(old(State()), n, sys, corrected)
      ensures pageSize == old(pageSize) && poolPtr == old(poolPtr)
    {
      var i := FreelistIndex(n);
      if i >= bins.Length {
        return Undefined(BinOutOfBounds);
      }
      var temp := bins[i];
      if temp == 0 {
        r := Refill(RoundUp(n), sys);
        return;
      }
      var result := temp;
      if corrected {
        bins[i] := link[result];
      } else {
        temp := link[result];
      }
      r := Block(result);
    }

    /** allocate(n): above MAX_BYTES the block comes from operator new
        (big_mem_allocate, which never sees null because operator new throws
        instead), otherwise from the pool. */
    method Allocate(n: nat, sys: nat) returns (r: Outcome)
      requires Valid()
      modifies this, bins
      ensures Valid()
      ensures (State(), r) == AllocateSpec(old(State()), n, sys, corrected)
      ensures pageSize == old(pageSize) && poolPtr == old(poolPtr)
    {
      if n > MAX_BYTES {
        r := Block(sys);
      } else {
        r := SmallMemAllocate(n, sys);
      }
    }

    /** deallocate(p, size): a null pointer is ignored; a block whose rounded
        size is pooled gets the bin head as its link (and, corrected, becomes
        the head); larger blocks go back to operator delete. */
    method Deallocate(p: nat, size: nat) returns (st: Status)
      requires Valid() && IsSizeT(size)
      modifies this, bins
      ensures Valid()
      ensures (State(), st) == DeallocSpec(old(State()), p, size, corrected)
      ensures pageSize == old(pageSize) && poolPtr == old(poolPtr)
    {
      if p == 0 {
        return Done;
      }
      var rounded := RoundUp(size);
      if rounded <= MAX_BYTES {
        var i := FreelistIndex(rounded);
        if i >= bins.Length {
          return Failed(BinOutOfBounds);
        }
        var myFreeList := bins[i];
        link := link[p := myFreeList];
        if corrected {
          bins[i] := p;
        } else {
          myFreeList := p;
        }
        return Done;
      }
      st := Done;
    }
  
    /** The scavenge loop of chunk_alloc as intended: look through the bins
        of block sizes n, n + ALIGN, ... up to MAX_BYTES and turn the first
        free block found into the new window. */
    method Scavenge(n: nat) returns (found: bool)
      requires Valid()
      modifies this, bins
      ensures Valid()
      ensures (State(), found) == ScavengeSpec(old(State()), n)
      ensures pageSize == old(pageSize) && poolPtr == old(poolPtr)
    {
      ghost var s0 := State();
      var i := n;
      while i <= MAX_BYTES
        invariant FirstStockedSize(s0, n, n) == FirstStockedSize(s0, n, i)
        invariant link == s0.link && startFree == s0.startFree && endFree == s0.endFree
        invariant heapSize == s0.heapSize && bins[..] == s0.bins
        invariant pageSize == old(pageSize) && poolPtr == old(poolPtr)
        decreases MAX_BYTES + ALIGN - i
      {
        var j := FreelistIndex(i);
        if j < bins.Length && bins[j] != 0 {
          assert FirstStockedSize(s0, n, i) == Some(i);
          var head := bins[j];
          startFree := head;
          endFree := head + i;
          bins[j] := link[head];
          return true;
        }
        i := i + ALIGN;
      }
      found := false;
    }
  }
}
