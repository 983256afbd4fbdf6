/** The raw-storage helpers of the vector: uninit fills a range of slots
    with copies of one value (by assignment for a POD type, by placement
    copy-construction otherwise) and deconstruct ends the life of the value
    in one slot (a no-op for a POD type). */
module Uninitialized {

  /** A slot of raw storage: nothing constructed yet, or a value. */
  datatype Slot<T> = Raw | Value(v: T)

  /** The slots of s with [begin, end) holding v. */
  function Filled<T>(s: seq<Slot<T>>, begin: nat, end: nat, v: T): (r: seq<Slot<T>>)
    requires begin <= end <= |s|
    ensures |r| == |s|
    ensures forall k :: begin <= k < end ==> r[k] == Value(v)
    ensures forall k :: 0 <= k < |s| && !(begin <= k < end) ==> r[k] == s[k]
  {
    s[..begin] + seq(end - begin, _ => Value(v)) + s[end..]
  }

  /** Filling an empty range changes nothing. */
  lemma FilledEmptyRange<T>(s: seq<Slot<T>>, at: nat, v: T)
    requires at <= |s|
    ensures Filled(s, at, at, v) == s
  {
  }

  /** Filling one more slot extends the filled range by one. */
  lemma FilledStep<T>(s: seq<Slot<T>>, begin: nat, end: nat, v: T)
    requires begin <= end < |s|
    ensures Filled(s, begin, end, v)[end := Value(v)] == Filled(s, begin, end + 1, v)
  {
    var a := Filled(s, begin, end, v)[end := Value(v)];
    var b := Filled(s, begin, end + 1, v);
    assert forall k :: 0 <= k < |s| ==> a[k] == b[k];
  }

  /** __uninit: the loop over [begin, end). The POD overload assigns, the
      other copy-constructs in place; both leave v in every slot of the
      range and nothing else changed, and only the second runs copy
      constructors (one per slot). */
  method UninitRange<T>(a: array<Slot<T>>, begin: nat, end: nat, v: T, pod: bool) returns (constructed: nat)
    requires begin <= end <= a.Length
    modifies a
    ensures a[..] == Filled(old(a[..]), begin, end, v)
    ensures constructed == if pod then 0 else end - begin
  {
    FilledEmptyRange(a[..], begin, v);
    var it := begin;
    constructed := 0;
    while it != end
      invariant begin <= it <= end
      invariant a[..] == Filled(old(a[..]), begin, it, v)
      invariant constructed == if pod then 0 else it - begin
    {
      FilledStep(old(a[..]), begin, it, v);
      if pod {
        a[it] := Value(v);
      } else {
        a[it] := Value(v);
        constructed := constructed + 1;
      }
      it := it + 1;
    }
  }

  /** uninit(it, n, v): fill the n slots from `it` on. */
  method Uninit<T>(a: array<Slot<T>>, it: nat, n: nat, v: T, pod: bool) returns (constructed: nat)
    requires it + n <= a.Length
    modifies a
    ensures a[..] == Filled(old(a[..]), it, it + n, v)
    ensures constructed == if pod then 0 else n
  {
    constructed := UninitRange(a, it, it + n, v, pod);
  }

  /** deconstruct(it): a POD value is left as it is; any other value has its
      destructor run once, after which the slot holds no value. */
  method Deconstruct<T>(a: array<Slot<T>>, i: nat, pod: bool) returns (destroyed: nat)
    requires i < a.Length
    modifies a
    ensures a[..] == old(a[..])[i := if pod then old(a[i]) else Raw]
    ensures destroyed == if pod then 0 else 1
  {
    if pod {
      destroyed := 0;
    } else {
      a[i] := Raw;
      destroyed := 1;
    }
  }
}
