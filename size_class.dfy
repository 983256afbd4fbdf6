/** Size classes of the small-object pool: the compile-time constants and the
    two pieces of size_t arithmetic (ROUND_UP and FREELIST_INDEX) that every
    copy of the allocator shares. */
module SizeClass {

  /** Alignment granularity of pooled blocks (enum ALIGN). */
  const ALIGN: nat := 8
  /** Largest request served from the pool (enum MAX_BYTES). */
  const MAX_BYTES: nat := 4096
  /** Number of bins in the templated and non-templated pools (MAX_BYTES / ALIGN). */
  const FREELIST_SIZE: nat := MAX_BYTES / ALIGN
  /** Number of bins in the early copy, which divides by MAX_BYTES instead of ALIGN. */
  const EARLY_FREELIST_SIZE: nat := MAX_BYTES / MAX_BYTES
  /** 2^64: size_t arithmetic wraps modulo this value. */
  const SIZE_T_MOD: nat := 0x1_0000_0000_0000_0000

  /** A value that fits in size_t. */
  predicate IsSizeT(n: nat) { n < SIZE_T_MOD }

  /** ROUND_UP: the next multiple of ALIGN, computed in size_t, so that
      `n + ALIGN - 1` wraps for the last seven values of size_t. */
  function RoundUp(n: nat): (r: nat)
    requires IsSizeT(n)
    ensures IsSizeT(r) && r % ALIGN == 0
    ensures n <= SIZE_T_MOD - ALIGN ==> n <= r < n + ALIGN
    ensures n > SIZE_T_MOD - ALIGN ==> r == 0
  {
    ((n + ALIGN - 1) % SIZE_T_MOD) / ALIGN * ALIGN
  }

  /** FREELIST_INDEX: the bin of a request, ceil(bytes / ALIGN) - 1 in size_t,
      so that a zero-byte request underflows to the largest size_t. */
  function FreelistIndex(bytes: nat): (r: nat)
    requires IsSizeT(bytes)
    ensures IsSizeT(r)
    ensures 1 <= bytes <= MAX_BYTES ==> r < FREELIST_SIZE && r == RoundUp(bytes) / ALIGN - 1
    ensures bytes == 0 ==> r == SIZE_T_MOD - 1
  {
    (((bytes + ALIGN - 1) % SIZE_T_MOD) / ALIGN - 1) % SIZE_T_MOD
  }

  /** Rounding first does not move a request to another bin. */
  lemma FreelistIndexOfRoundUp(n: nat)
    requires 1 <= n <= MAX_BYTES
    ensures RoundUp(n) <= MAX_BYTES
    ensures FreelistIndex(RoundUp(n)) == FreelistIndex(n)
  {
  }

  /** Two pooled sizes share a bin exactly when they round up to the same block
      size, so blocks of one class are never handed out for another. */
  lemma SameBinIffSameBlockSize(n1: nat, n2: nat)
    requires 1 <= n1 <= MAX_BYTES && 1 <= n2 <= MAX_BYTES
    ensures FreelistIndex(n1) == FreelistIndex(n2) <==> RoundUp(n1) == RoundUp(n2)
  {
  }

  /** The bin of a block size is the block size in ALIGN units, less one, and
      the block size of a bin is recovered from it. */
  lemma BlockSizeOfBin(n: nat)
    requires 1 <= n <= MAX_BYTES
    ensures RoundUp(n) == (FreelistIndex(n) + 1) * ALIGN
  {
  }

  /** In the early copy only requests of at most ALIGN bytes land in its one bin. */
  lemma EarlyBinInBounds(n: nat)
    requires 1 <= n <= MAX_BYTES
    ensures FreelistIndex(n) < EARLY_FREELIST_SIZE <==> n <= ALIGN
  {
  }
}
