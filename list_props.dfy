/** What resize and deconstruct do to a list, as written and corrected. */
module ListProperties {
  import opened SizeClass
  import opened ListModel
  import PoolSpec
  import PoolProperties

  /** As written, resize(n) with n at most the element count erases the
      first n elements and takes 2n off the counter. */
  lemma ResizeAsWrittenErasesFront<T>(c: seq<T>, n: nat)
    requires n <= |c| < SIZE_T_MOD && n < 0x8000_0000
    ensures ResizeSpec(c, |c|, n, false) == (c[n..], |c| - 2 * n)
  {
    ErasedByResizeInRange(|c|, n);
  }

  /** As written, a request whose narrowing to int is not positive walks
      begin() nowhere: resize erases nothing and the counter stays. */
  lemma ResizeNarrowedAwayKeepsAll<T>(c: seq<T>, size: int, n: nat)
    requires n <= AsSizeT(size) && IntOfSizeT(n) <= 0
    ensures ResizeSpec(c, size, n, false) == (c, size)
  {
  }

  /** resize(3) on 10 20 30 40 50, as written, leaves 40 50 with the counter
      at -1; resize(2^31) then passes the size check, narrows to INT_MIN and
      erases nothing, and resize(2^32 + 1) narrows to 1 and erases 40. */
  lemma ResizeNarrowsToInt()
    ensures ResizeSpec([10, 20, 30, 40, 50], 5, 3, false) == ([40, 50], -1)
    ensures ResizeSpec([40, 50], -1, 0x8000_0000, false) == ([40, 50], -1)
    ensures ResizeSpec([40, 50], -1, 0x1_0000_0001, false) == ([50], -3)
  {
    ResizeAsWrittenErasesFront([10, 20, 30, 40, 50], 3);
    assert [10, 20, 30, 40, 50][3..] == [40, 50];
    assert AsSizeT(-1) == SIZE_T_MOD - 1;
    assert IntOfSizeT(0x8000_0000) == -0x8000_0000;
    ResizeNarrowedAwayKeepsAll([40, 50], -1, 0x8000_0000);
    assert IntOfSizeT(0x1_0000_0001) == 1;
    ErasedByResizeInRange(2, 1);
    assert ErasedByResize(|[40, 50]|, IntOfSizeT(0x1_0000_0001)) == 1;
    assert [40, 50][1..] == [50];
  }

  /** Corrected, resize(n) with n at most the element count keeps the first n
      elements and the counter becomes n. */
  lemma ResizeCorrectedKeepsFront<T>(c: seq<T>, n: nat)
    requires n <= |c| < SIZE_T_MOD
    ensures ResizeSpec(c, |c|, n, true) == (c[..n], n)
  {
  }

  /** resize(1) on the list 10 20 30: as written 20 30 remain with the counter
      at 1; corrected 10 remains with the counter at 1. */
  lemma ResizeOneOfThree()
    ensures ResizeSpec([10, 20, 30], 3, 1, false) == ([20, 30], 1)
    ensures ResizeSpec([10, 20, 30], 3, 1, true) == ([10], 1)
  {
    ResizeAsWrittenErasesFront([10, 20, 30], 1);
    ResizeCorrectedKeepsFront([10, 20, 30], 1);
    assert [10, 20, 30][..1] == [10];
  }

  /** resize(1) on a one-element list, as written, empties it and drives the
      counter to -1, which size() reports as 2^64 - 1. */
  lemma ResizeCounterUnderflows<T>(x: T)
    ensures ResizeSpec([x], 1, 1, false) == ([], -1)
    ensures AsSizeT(ResizeSpec([x], 1, 1, false).1) == SIZE_T_MOD - 1
  {
    ResizeAsWrittenErasesFront([x], 1);
  }

  /** As written deconstruct hands a node back under the size of its value,
      two bins below the bin the node was taken from. */
  lemma DeconstructUndersizesNode(sizeOfT: nat)
    requires 1 <= sizeOfT && 2 * POINTER_BYTES + sizeOfT <= MAX_BYTES
    ensures FreelistIndex(ReleasedBytes(sizeOfT, false)) + 2 == FreelistIndex(NodeBytes(sizeOfT))
  {
  }

  /** Corrected, deconstruct hands a node back to the bin it was taken from. */
  lemma DeconstructReturnsNodeBin(sizeOfT: nat)
    requires 1 <= sizeOfT && 2 * POINTER_BYTES + sizeOfT <= MAX_BYTES
    ensures FreelistIndex(ReleasedBytes(sizeOfT, true)) == FreelistIndex(NodeBytes(sizeOfT))
  {
  }

  /** Three nodes constructed for a list of int (4 bytes, so 24-byte nodes)
      on a fresh pool: as written the second and the third node get the same
      block, so two live nodes of the list share their storage. */
  lemma AsWrittenNodesShareBlock(sys: nat)
    ensures NodeBytes(4) == 24
    ensures var (s1, r1) := PoolSpec.AllocateSpec(PoolProperties.InitialState(FREELIST_SIZE), 24, sys, false);
      var (s2, r2) := PoolSpec.AllocateSpec(s1, 24, sys, false);
      var (s3, r3) := PoolSpec.AllocateSpec(s2, 24, sys, false);
      r1 == PoolSpec.Block(sys) && r2 == r3 == PoolSpec.Block(sys + 24)
  {
    assert RoundUp(24) == 24 && FreelistIndex(24) == 2;
    PoolProperties.FirstRequestGrowsByTwoBatches(24, sys, false);
  }

  /** The same three nodes with the pop corrected get three adjacent
      blocks, one per node. */
  lemma CorrectedNodesDistinct(sys: nat)
    ensures var (s1, r1) := PoolSpec.AllocateSpec(PoolProperties.InitialState(FREELIST_SIZE), 24, sys, true);
      var (s2, r2) := PoolSpec.AllocateSpec(s1, 24, sys, true);
      var (s3, r3) := PoolSpec.AllocateSpec(s2, 24, sys, true);
      r1 == PoolSpec.Block(sys) && r2 == PoolSpec.Block(sys + 24) && r3 == PoolSpec.Block(sys + 48)
  {
    assert RoundUp(24) == 24 && FreelistIndex(24) == 2;
    PoolProperties.FirstRequestGrowsByTwoBatches(24, sys, true);
    PoolProperties.FirstRequestLinksNext(24, sys, true);
  }
}
