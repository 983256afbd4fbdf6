/** The small-object pool as a function of its state: the steps of
    small_mem_allocate, deallocate, refill and chunk_alloc written as pure
    functions on a PoolState value. The Pool class (module Allocator) is proved to
    change its fields exactly as these functions say.

    Addresses are naturals and 0 is the null pointer. The free_list_link word
    that a free block carries in its first bytes is the entry of the block's
    address in `link`. Every step the source takes that is undefined behaviour
    (an out-of-bounds bin, a write through a null head) ends the step with
    an Undefined outcome and the state reached at that point. */
module PoolSpec {
  import opened SizeClass

  /** Undefined behaviour the source runs into. */
  datatype Ub =
    | BinOutOfBounds   // free_list[i] with i past the last bin
    | NullHeadWrite    // free_list_link written through a null bin head
    | NullHeadRead     // free_list_link read through a null bin head

  datatype Option<T> = None | Some(value: T)

  /** What allocate hands back: a block address, or undefined behaviour. */
  datatype Outcome = Block(addr: nat) | Undefined(ub: Ub)

  /** What deallocate and the donation step end in. */
  datatype Status = Done | Failed(ub: Ub)

  /** What chunk_alloc returns: the first byte of `count` adjacent blocks
      (count is the by-reference nobj), or undefined behaviour. */
  datatype Chunk = Chunk(addr: nat, count: nat) | ChunkUb(ub: Ub)

  /** The pool-wide static state: the bin heads (free_list), the link word of
      every block that has one, the arena window [startFree, endFree) and the
      running total heapSize. */
  datatype PoolState = PoolState(
    bins: seq<nat>,
    link: map<nat, nat>,
    startFree: nat,
    endFree: nat,
    heapSize: nat)

  /** Default batch size refill asks chunk_alloc for. */
  const REFILL_BATCH: nat := 20

  /** The window is well ordered and every block reachable from a bin has a
      link word. */
  ghost predicate WellFormed(s: PoolState) {
    && s.startFree <= s.endFree
    && |s.bins| <= FREELIST_SIZE
    && (forall i :: 0 <= i < |s.bins| ==> s.bins[i] == 0 || s.bins[i] in s.link)
    && (forall a :: a in s.link ==> s.link[a] == 0 || s.link[a] in s.link)
  }

  /** Bytes still uncommitted in the arena window. */
  function BytesLeft(s: PoolState): nat
    requires s.startFree <= s.endFree
  {
    s.endFree - s.startFree
  }

  /** n * k, as k additions of n. It is recursive so that the solver
      unfolds it a step at a time; MulIsProduct ties it to `*`. */
  function Mul(n: nat, k: nat): nat {
    if k == 0 then 0 else Mul(n, k - 1) + n
  }

  /** left / n for n > 0, as the number of times n can be taken from left;
      QuotientIsDivision ties it to `/`. */
  function Quotient(left: nat, n: nat): nat
    requires n > 0
    decreases left
  {
    if left < n then 0 else Quotient(left - n, n) + 1
  }

  lemma {:induction false} MulIsProduct(n: nat, k: nat)
    ensures Mul(n, k) == n * k
  {
    if k > 0 {
      MulIsProduct(n, k - 1);
      assert n * k == n * (k - 1) + n;
    }
  }

  lemma QuotientIsDivision(left: nat, n: nat)
    requires n > 0
    ensures Quotient(left, n) == left / n
  {
    var q, d := Quotient(left, n), left / n;
    QuotientBounds(left, n);
    DivisionBounds(left, n);
    if q < d {
      MulGrows(n, q + 1, d);
    } else if d < q {
      MulGrows(n, d + 1, q);
    }
  }

  /** left / n whole blocks fit into left bytes, one more does not. */
  lemma DivisionBounds(left: nat, n: nat)
    requires n > 0
    ensures Mul(n, left / n) <= left < Mul(n, left / n + 1)
  {
    var d := left / n;
    MulIsProduct(n, d);
    MulIsProduct(n, d + 1);
    assert left == n * d + left % n;
    assert n * (d + 1) == n * d + n;
  }  /** Taking k blocks of n bytes takes no fewer bytes than taking j <= k. */
  lemma {:induction false} MulGrows(n: nat, j: nat, k: nat)
    requires j <= k
    ensures Mul(n, j) <= Mul(n, k)
    decreases k
  {
    if j < k {
      MulGrows(n, j, k - 1);
    }
  }

  /** Quotient(left, n) whole blocks fit into left bytes, one more does not. */
  lemma {:induction false} QuotientBounds(left: nat, n: nat)
    requires n > 0
    ensures Mul(n, Quotient(left, n)) <= left < Mul(n, Quotient(left, n) + 1)
    decreases left
  {
    if left >= n {
      QuotientBounds(left - n, n);
    }
  }

  /** bytes_to_get: twice the request plus a sixteenth of everything acquired so far. */
  function GrowthBytes(n: nat, nobj: nat, heapSize: nat): nat {
    Mul(n, nobj) * 2 + heapSize / 16
  }

  // ---------------------------------------------------------------------------
  // Bin steps, as written and corrected

  /** As written at my_list/include/memoryPool.h:114-115: the head is read
      and its successor is stored into a local, so the bin keeps its head. */
  function TakeAsWritten(s: PoolState, i: nat): (r: (PoolState, nat))
    requires i < |s.bins| && s.bins[i] != 0
    ensures WellFormed(s) ==> WellFormed(r.0)
    ensures r.0.bins == s.bins && r.0.link == s.link
    ensures r.1 != 0 && r.0.bins[i] == r.1
  {
    (s, s.bins[i])
  }

  /** Corrected pop: the bin advances to the head's link. */
  function Pop(s: PoolState, i: nat): (r: (PoolState, nat))
    requires WellFormed(s) && i < |s.bins| && s.bins[i] != 0
    ensures WellFormed(r.0)
    ensures r.1 == s.bins[i] && r.0 == s.(bins := s.bins[i := s.link[r.1]])
  {
    (s.(bins := s.bins[i := s.link[s.bins[i]]]), s.bins[i])
  }

  /** As written at my_list/include/memoryPool.h:202-204: p's link is set to
      the head, and the new head is stored into a local only. */
  function PutAsWritten(s: PoolState, i: nat, p: nat): (r: PoolState)
    requires i < |s.bins|
    ensures WellFormed(s) ==> WellFormed(r)
    ensures r.bins == s.bins && p in r.link && r.link[p] == s.bins[i]
  {
    s.(link := s.link[p := s.bins[i]])
  }

  /** Corrected push: p becomes the head and links to the old head. */
  function Push(s: PoolState, i: nat, p: nat): (r: PoolState)
    requires i < |s.bins|
    ensures WellFormed(s) ==> WellFormed(r)
    ensures |r.bins| == |s.bins| && r.bins[i] == p && p in r.link && r.link[p] == s.bins[i]
  {
    s.(link := s.link[p := s.bins[i]], bins := s.bins[i := p])
  }

  /** The leftover of fewer than n bytes at the front of the window is handed
      to the bin of its own length. As written (my_list/include/memoryPool.h:306-310)
      the head goes into the leftover's link and the leftover into the head's
      link, through a null head when the bin is empty; corrected, the leftover
      is pushed onto the bin. */
  function Donate(s: PoolState, corrected: bool): (r: (PoolState, Status))
    requires s.startFree <= s.endFree < s.startFree + MAX_BYTES
    ensures WellFormed(s) ==> WellFormed(r.0)
    ensures r.0.startFree == s.startFree && r.0.endFree == s.endFree && r.0.heapSize == s.heapSize
    ensures !corrected ==> r.0.bins == s.bins
    ensures |r.0.bins| == |s.bins|
    ensures BytesLeft(s) == 0 ==> r == (s, Done)
  {
    var left := BytesLeft(s);
    if left == 0 then (s, Done)
    else
      var i := FreelistIndex(left);
      if i >= |s.bins| then (s, Failed(BinOutOfBounds))
      else if corrected then (Push(s, i, s.startFree), Done)
      else
        var head := s.bins[i];
        var s1 := s.(link := s.link[s.startFree := head]);
        if head == 0 then (s1, Failed(NullHeadWrite))
        else (s1.(link := s1.link[head := s.startFree]), Done)
  }

  // ---------------------------------------------------------------------------
  // chunk_alloc

  /** chunk_alloc(n, nobj) with `sys` the address operator new returns:
      carve n*nobj bytes when they fit, as many whole blocks as fit when at
      least one does, and otherwise donate the leftover, install a fresh
      window of GrowthBytes bytes and carve from it (the recursive retry). */
  function ChunkAllocSpec(s: PoolState, n: nat, nobj: nat, sys: nat, corrected: bool): (r: (PoolState, Chunk))
    requires s.startFree <= s.endFree && 0 < n <= MAX_BYTES && nobj >= 1
    decreases if BytesLeft(s) >= n then 0 else 1
    ensures WellFormed(s) ==> WellFormed(r.0)
    ensures |r.0.bins| == |s.bins| && (!corrected ==> r.0.bins == s.bins)
    ensures r.1.Chunk? ==> 1 <= r.1.count <= nobj && r.0.startFree == r.1.addr + Mul(n, r.1.count)
    ensures r.1.Chunk? && BytesLeft(s) >= n ==>
      r.1.addr == s.startFree && r.0.endFree == s.endFree && r.0.heapSize == s.heapSize
    ensures r.1.ChunkUb? ==> BytesLeft(s) < n && Donate(s, corrected).1 == Failed(r.1.ub)
  {
    var total := Mul(n, nobj);
    var left := BytesLeft(s);
    if left >= total then
      (s.(startFree := s.startFree + total), Chunk(s.startFree, nobj))
    else if left >= n then
      var k := Quotient(left, n);
      CountBelowRequest(left, n, nobj);
      (s.(startFree := s.startFree + Mul(n, k)), Chunk(s.startFree, k))
    else
      var (d, st) := Donate(s, corrected);
      if st.Failed? then (d, ChunkUb(st.ub))
      else
        RequestCoversBlock(n, nobj);
        ChunkAllocSpec(Grown(d, n, nobj, sys), n, nobj, sys, corrected)
  }

  /** The growth step of chunk_alloc: bytes_to_get fresh bytes at `sys`
      become the window and are added to heap_size. */
  function Grown(s: PoolState, n: nat, nobj: nat, sys: nat): (r: PoolState)
    ensures r.startFree == sys && r.endFree == sys + GrowthBytes(n, nobj, s.heapSize)
    ensures r.heapSize == s.heapSize + GrowthBytes(n, nobj, s.heapSize)
    ensures r.bins == s.bins && r.link == s.link
    ensures WellFormed(s) ==> WellFormed(r)
  {
    var g := GrowthBytes(n, nobj, s.heapSize);
    s.(startFree := sys, endFree := sys + g, heapSize := s.heapSize + g)
  }

  /** When not even one block is left and the donation succeeds,
      chunk_alloc is its own call on the grown window, which holds at
      least one block. */
  lemma ChunkAllocRetries(s: PoolState, n: nat, nobj: nat, sys: nat, corrected: bool)
    requires s.startFree <= s.endFree && 0 < n <= MAX_BYTES && nobj >= 1 && BytesLeft(s) < n
    requires Donate(s, corrected).1 == Done
    ensures n <= BytesLeft(Grown(Donate(s, corrected).0, n, nobj, sys))
    ensures ChunkAllocSpec(s, n, nobj, sys, corrected)
            == ChunkAllocSpec(Grown(Donate(s, corrected).0, n, nobj, sys), n, nobj, sys, corrected)
  {
    RequestCoversBlock(n, nobj);
  }

  /** A request of nobj >= 1 blocks of n bytes is at least one block. */
  lemma RequestCoversBlock(n: nat, nobj: nat)
    requires nobj >= 1
    ensures n <= Mul(n, nobj)
  {
    assert Mul(n, nobj) == Mul(n, nobj - 1) + n;
  }

  /** The short branch carves at least one block and fewer than requested,
      and no more bytes than are left. */
  lemma CountBelowRequest(left: nat, n: nat, nobj: nat)
    requires 0 < n <= left < Mul(n, nobj)
    ensures 1 <= Quotient(left, n) < nobj && Mul(n, Quotient(left, n)) <= left
  {
    QuotientBounds(left, n);
    assert Quotient(left, n) == Quotient(left - n, n) + 1;
    if Quotient(left, n) >= nobj {
      MulGrows(n, nobj, Quotient(left, n));
    }
  }

  // ---------------------------------------------------------------------------
  // refill

  /** The links written by the first k rounds of refill's loop: block j of
      the chunk points at block j + 1. */
  function ChainLinks(link: map<nat, nat>, chunk: nat, n: nat, k: nat): map<nat, nat>
  {
    if k == 0 then link
    else ChainLinks(link, chunk, n, k - 1)[chunk + Mul(n, k - 1) := chunk + Mul(n, k)]
  }

  /** The links after refill's whole loop: the last block's link is null. */
  function RefillLinks(link: map<nat, nat>, chunk: nat, n: nat, nobj: nat): map<nat, nat>
    requires nobj >= 1
  {
    ChainLinks(link, chunk, n, nobj)[chunk + Mul(n, nobj - 1) := 0]
  }

  /** refill(n): ask chunk_alloc for REFILL_BATCH blocks of n bytes, then
      hand what it carved to RefillFrom. */
  function RefillSpec(s: PoolState, n: nat, sys: nat, corrected: bool): (r: (PoolState, Outcome))
    requires WellFormed(s) && 0 < n <= MAX_BYTES
    ensures WellFormed(r.0) && |r.0.bins| == |s.bins|
  {
    var (s1, ch) := ChunkAllocSpec(s, n, REFILL_BATCH, sys, corrected);
    RefillFrom(s1, ch, n)
  }

  /** The rest of refill once chunk_alloc has returned: a fault is passed
      on, a single block is returned as it is; otherwise the blocks are
      chained, the chain is installed in n's bin and its first block is
      popped and returned. */
  function RefillFrom(s1: PoolState, ch: Chunk, n: nat): (r: (PoolState, Outcome))
    requires WellFormed(s1) && 0 < n <= MAX_BYTES
    requires ch.Chunk? ==> ch.count >= 1
    ensures WellFormed(r.0) && |r.0.bins| == |s1.bins|
  {
    if ch.ChunkUb? then (s1, Undefined(ch.ub))
    else if ch.count == 1 then (s1, Block(ch.addr))
    else
      var i := FreelistIndex(n);
      RefillLinksClosed(s1.link, ch.addr, n, ch.count);
      var links := RefillLinks(s1.link, ch.addr, n, ch.count);
      if i >= |s1.bins| then (s1.(link := links), Undefined(BinOutOfBounds))
      else
        RefillLinkAt(s1.link, ch.addr, n, ch.count, 1);
        assert Mul(n, 1) == n;
        (s1.(link := links, bins := s1.bins[i := ch.addr + n]), Block(ch.addr))
  }

  // ---------------------------------------------------------------------------
  // The facade

  /** small_mem_allocate(n): the head of n's bin if there is one, otherwise
      refill(ROUND_UP(n)). */
  function SmallAllocSpec(s: PoolState, n: nat, sys: nat, corrected: bool): (r: (PoolState, Outcome))
    requires WellFormed(s) && n <= MAX_BYTES
    ensures WellFormed(r.0) && |r.0.bins| == |s.bins|
  {
    var i := FreelistIndex(n);
    if i >= |s.bins| then (s, Undefined(BinOutOfBounds))
    else if s.bins[i] == 0 then RefillSpec(s, RoundUp(n), sys, corrected)
    else if corrected then
      var (s1, p) := Pop(s, i);
      (s1, Block(p))
    else
      var (s1, p) := TakeAsWritten(s, i);
      (s1, Block(p))
  }

  /** allocate(n): above MAX_BYTES straight to operator new (big_mem_allocate),
      which hands back `sys` and leaves the pool alone; otherwise the pool. */
  function AllocateSpec(s: PoolState, n: nat, sys: nat, corrected: bool): (r: (PoolState, Outcome))
    requires WellFormed(s)
    ensures WellFormed(r.0) && |r.0.bins| == |s.bins|
  {
    if n > MAX_BYTES then (s, Block(sys))
    else SmallAllocSpec(s, n, sys, corrected)
  }

  /** deallocate(p, size): nothing for a null pointer; a rounded size above
      MAX_BYTES goes to operator delete; otherwise p goes to its bin. */
  function DeallocSpec(s: PoolState, p: nat, size: nat, corrected: bool): (r: (PoolState, Status))
    requires IsSizeT(size)
    ensures |r.0.bins| == |s.bins|
    ensures WellFormed(s) ==> WellFormed(r.0)
  {
    if p == 0 then (s, Done)
    else
      var rounded := RoundUp(size);
      if rounded > MAX_BYTES then (s, Done)
      else
        var i := FreelistIndex(rounded);
        if i >= |s.bins| then (s, Failed(BinOutOfBounds))
        else if corrected then (Push(s, i, p), Done)
        else (PutAsWritten(s, i, p), Done)
  }

  // ---------------------------------------------------------------------------
  // What refill's loop leaves behind

  /** The addresses of blocks lo..hi-1 of a chunk of n-byte blocks. */
  function Blocks(chunk: nat, n: nat, lo: nat, hi: nat): (r: seq<nat>)
    requires lo <= hi
    ensures |r| == hi - lo
    ensures forall j :: 0 <= j < |r| ==> r[j] == chunk + Mul(n, lo + j)
    decreases hi - lo
  {
    if lo == hi then [] else [chunk + Mul(n, lo)] + Blocks(chunk, n, lo + 1, hi)
  }

  /** The addresses met by following links from `a`, at most len of them. */
  function Walk(link: map<nat, nat>, a: nat, len: nat): seq<nat>
    decreases len
  {
    if len == 0 then []
    else [a] + (if a in link then Walk(link, link[a], len - 1) else [])
  }

  /** Distinct blocks of a chunk start at distinct addresses. */
  lemma BlockAddressesDistinct(chunk: nat, n: nat, m1: nat, m2: nat)
    requires n > 0 && m1 != m2
    ensures chunk + Mul(n, m1) != chunk + Mul(n, m2)
  {
    if m1 < m2 {
      MulGrows(n, m1, m2 - 1);
    } else {
      MulGrows(n, m2, m1 - 1);
    }
  }

  /** After k rounds block m (m < k) links to block m + 1. */
  lemma {:induction false} ChainLinkAt(link: map<nat, nat>, chunk: nat, n: nat, k: nat, m: nat)
    requires n > 0 && m < k
    ensures chunk + Mul(n, m) in ChainLinks(link, chunk, n, k)
    ensures ChainLinks(link, chunk, n, k)[chunk + Mul(n, m)] == chunk + Mul(n, m + 1)
  {
    if m < k - 1 {
      ChainLinkAt(link, chunk, n, k - 1, m);
      BlockAddressesDistinct(chunk, n, m, k - 1);
    }
  }

  /** After the whole loop block m links to block m + 1 and the last block to null. */
  lemma RefillLinkAt(link: map<nat, nat>, chunk: nat, n: nat, k: nat, m: nat)
    requires n > 0 && m < k
    ensures chunk + Mul(n, m) in RefillLinks(link, chunk, n, k)
    ensures RefillLinks(link, chunk, n, k)[chunk + Mul(n, m)] == if m == k - 1 then 0 else chunk + Mul(n, m + 1)
  {
    ChainLinkAt(link, chunk, n, k, m);
    if m != k - 1 {
      BlockAddressesDistinct(chunk, n, m, k - 1);
    }
  }

  /** Every link of `link` is null or leads to a block that has a link,
      except possibly the link of `a0`, which may be `v0`. */
  ghost predicate ClosedExcept(link: map<nat, nat>, a0: nat, v0: nat) {
    forall a :: a in link ==> link[a] == 0 || link[a] in link || (a == a0 && link[a] == v0)
  }

  /** The loop only ever leaves the last written link dangling. */
  lemma {:induction false} ChainLinksClosed(link: map<nat, nat>, chunk: nat, n: nat, k: nat)
    requires k >= 1
    requires forall a :: a in link ==> link[a] == 0 || link[a] in link
    ensures link.Keys <= ChainLinks(link, chunk, n, k).Keys
    ensures ClosedExcept(ChainLinks(link, chunk, n, k), chunk + Mul(n, k - 1), chunk + Mul(n, k))
  {
    if k > 1 {
      ChainLinksClosed(link, chunk, n, k - 1);
    }
  }

  /** Nulling the last link closes the chain. */
  lemma RefillLinksClosed(link: map<nat, nat>, chunk: nat, n: nat, k: nat)
    requires k >= 1
    requires forall a :: a in link ==> link[a] == 0 || link[a] in link
    ensures link.Keys <= RefillLinks(link, chunk, n, k).Keys
    ensures forall a :: a in RefillLinks(link, chunk, n, k) ==>
      RefillLinks(link, chunk, n, k)[a] == 0 || RefillLinks(link, chunk, n, k)[a] in RefillLinks(link, chunk, n, k)
  {
    ChainLinksClosed(link, chunk, n, k);
  }

  /** Following links from block j of a refilled chunk visits blocks j..k-1 in order. */
  lemma {:induction false} RefillWalk(link: map<nat, nat>, chunk: nat, n: nat, k: nat, j: nat)
    requires n > 0 && 1 <= k && j <= k
    ensures Walk(RefillLinks(link, chunk, n, k), chunk + Mul(n, j), k - j) == Blocks(chunk, n, j, k)
    decreases k - j
  {
    if j < k {
      var links := RefillLinks(link, chunk, n, k);
      RefillLinkAt(link, chunk, n, k, j);
      RefillWalk(link, chunk, n, k, j + 1);
      if j == k - 1 {
        assert Walk(links, links[chunk + Mul(n, j)], 0) == [];
      } else {
        assert links[chunk + Mul(n, j)] == chunk + Mul(n, j + 1);
      }
      assert Blocks(chunk, n, j, k) == [chunk + Mul(n, j)] + Blocks(chunk, n, j + 1, k);
    }
  }

  // ---------------------------------------------------------------------------
  // The scavenge branch of chunk_alloc (reached only if operator new returns null)

  /** As written at my_list/include/memoryPool.h:316-322: every round looks at
      the bin of n itself and tests the address of the bin slot, which is
      never null, so the first round always takes n's bin head, also when it
      is null, and the window becomes [head, head + n). */
  function ScavengeAsWritten(s: PoolState, n: nat): (r: (PoolState, Outcome))
    requires WellFormed(s) && 0 < n <= MAX_BYTES
    ensures WellFormed(r.0) || r.1.Undefined?
  {
    var i := FreelistIndex(n);
    if i >= |s.bins| then (s, Undefined(BinOutOfBounds))
    else
      var head := s.bins[i];
      var s1 := s.(startFree := head, endFree := head + n);
      if head == 0 then (s1, Undefined(NullHeadRead))
      else (s1.(bins := s.bins[i := s.link[head]]), Block(head))
  }

  /** The smallest block size k of n, n + ALIGN, ... up to MAX_BYTES, from
      `from` on, whose bin holds a block. */
  function FirstStockedSize(s: PoolState, n: nat, from: nat): (r: Option<nat>)
    ensures r.Some? ==> from <= r.value <= MAX_BYTES
    ensures r.Some? ==> FreelistIndex(r.value) < |s.bins| && s.bins[FreelistIndex(r.value)] != 0
    decreases MAX_BYTES + ALIGN - from
  {
    if from > MAX_BYTES then None
    else if FreelistIndex(from) < |s.bins| && s.bins[FreelistIndex(from)] != 0 then Some(from)
    else FirstStockedSize(s, n, from + ALIGN)
  }

  /** The scavenge step as intended: the first stocked bin of a block size of
      at least n gives up its head, which becomes a window of that size; with
      every such bin empty the pool is left as it is. */
  function ScavengeSpec(s: PoolState, n: nat): (r: (PoolState, bool))
    requires WellFormed(s)
    ensures WellFormed(r.0)
  {
    match FirstStockedSize(s, n, n)
    case None => (s, false)
    case Some(k) =>
      var i := FreelistIndex(k);
      var head := s.bins[i];
      (s.(startFree := head, endFree := head + k, bins := s.bins[i := s.link[head]]), true)
  }
}
