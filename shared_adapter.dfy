/** make_shared_with_pool: the three ways the pool hands out an object behind
    a shared pointer, each paired with a deleter that gives the memory back.
    The reference count of the shared pointer is not modelled; what is, is
    the request made to allocate, the construction in place, and what the
    deleter does when the last owner lets go. */
module SharedAdapter {
  import opened SizeClass
  import opened PoolSpec

  /** The overloads: no arguments (the memory is not constructed), arguments
      (placement construction), and an array of N objects (not constructed). */
  datatype Variant = Uninitialised | Constructed | ArrayOf(count: nat)

  /** The bytes make_shared_with_pool asks allocate for: sizeof(T), or for
      the array overload sizeof(T) * N computed in size_t, which wraps. */
  function RequestBytes(v: Variant, sizeOfT: nat): (r: nat)
    ensures IsSizeT(sizeOfT) ==> IsSizeT(r)
    ensures v.ArrayOf? && sizeOfT * v.count < SIZE_T_MOD ==> r == sizeOfT * v.count
    ensures v.ArrayOf? && sizeOfT * v.count >= SIZE_T_MOD ==> r < sizeOfT * v.count
    ensures !v.ArrayOf? ==> r == sizeOfT
  {
    match v
    case Uninitialised => sizeOfT
    case Constructed => sizeOfT
    case ArrayOf(n) => ArrayBytes(sizeOfT, n)
  }

  /** sizeof(T) * N in size_t. */
  function ArrayBytes(sizeOfT: nat, n: nat): nat
  {
    (sizeOfT * n) % SIZE_T_MOD
  }

  /** make_shared_with_pool: allocate from the pool, construct in place for
      the Constructed overload, and report the constructor calls made. */
  function MakeShared(s: PoolState, v: Variant, sizeOfT: nat, sys: nat, corrected: bool)
    : (r: (PoolState, Outcome, nat))
    requires WellFormed(s)
    ensures WellFormed(r.0)
    ensures r.2 == (if v.Constructed? && r.1.Block? then 1 else 0)
  {
    var (s1, out) := AllocateSpec(s, RequestBytes(v, sizeOfT), sys, corrected);
    (s1, out, if v.Constructed? && out.Block? then 1 else 0)
  }

  /** The deleter: destroy the object for the Constructed overload, then
      deallocate the size it captured (sizeof(T), or sizeof(T) * N with N
      captured by value); reports the destructor calls made. Whatever the
      overload, the deleter gives back exactly the bytes that were asked for. */
  function Release(s: PoolState, p: nat, v: Variant, sizeOfT: nat, corrected: bool)
    : (r: (PoolState, Status, nat))
    requires IsSizeT(RequestBytes(v, sizeOfT))
    ensures (r.0, r.1) == DeallocSpec(s, p, RequestBytes(v, sizeOfT), corrected)
    ensures WellFormed(s) ==> WellFormed(r.0)
    ensures r.2 == (if v.Constructed? then 1 else 0)
  {
    match v
    case ArrayOf(n) =>
      var size := n;
      var (s1, st) := DeallocSpec(s, p, ArrayBytes(sizeOfT, size), corrected);
      (s1, st, 0)
    case Constructed =>
      var (s1, st) := DeallocSpec(s, p, sizeOfT, corrected);
      (s1, st, 1)
    case Uninitialised =>
      var (s1, st) := DeallocSpec(s, p, sizeOfT, corrected);
      (s1, st, 0)
  }

  /** Over a whole lifetime every overload runs as many destructors as
      constructors: one each for Constructed, none for the others. */
  lemma ConstructionsBalance(s: PoolState, v: Variant, sizeOfT: nat, sys: nat, corrected: bool)
    requires WellFormed(s) && IsSizeT(RequestBytes(v, sizeOfT))
    ensures var (s1, out, built) := MakeShared(s, v, sizeOfT, sys, corrected);
      out.Block? ==> built == Release(s1, out.addr, v, sizeOfT, corrected).2 <= 1
  {
  }

  /** With the bin steps corrected, a shared object of a pooled size whose
      bin is stocked gives its block back where it came from: after make
      and release the pool is exactly as before. */
  lemma {:induction false} LifetimeRestoresPool(s: PoolState, v: Variant, sizeOfT: nat, sys: nat)
    requires WellFormed(s)
    requires 1 <= RequestBytes(v, sizeOfT) <= MAX_BYTES
    requires FreelistIndex(RequestBytes(v, sizeOfT)) < |s.bins|
    requires s.bins[FreelistIndex(RequestBytes(v, sizeOfT))] != 0
    ensures var (s1, out, _) := MakeShared(s, v, sizeOfT, sys, true);
      out.Block? && Release(s1, out.addr, v, sizeOfT, true).0 == s
  {
    var n := RequestBytes(v, sizeOfT);
    FreelistIndexOfRoundUp(n);
    var i := FreelistIndex(n);
    var h := s.bins[i];
    var s1 := SmallAllocSpec(s, n, sys, true).0;
    assert s1 == s.(bins := s.bins[i := s.link[h]]);
    var s2 := DeallocSpec(s1, h, n, true).0;
    assert s2.bins == s.bins;
    assert s2.link == s.link;
  }
}
