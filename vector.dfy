/** m_vector: a growable array over raw storage. The storage is an array of
    slots whose index 0 is `start` and whose length is the capacity
    (end_of_storage - start); `finish` is an offset from start.

    Like the pool, the vector carries a `corrected` flag that selects, at each
    defect of the source, between the step as written and as intended:
    size() returns start - finish, push_back never advances finish, and
    copy moves the wrong slots when insert opens a gap. */
module VectorModel {
  import opened Uninitialized

  /** What insert ends in: the position of the new element, a write one
      past the end of the storage, or a read before its start (when pos lies
      past finish, copy's walk down from finish never meets it). */
  datatype InsertOutcome = Inserted(pos: nat) | WriteOutOfBounds | ReadBeforeStart

  /** Where copy's walk ends: at pos with the gap open, at a write past the
      end of the storage, or at a read before its start. */
  datatype CopyEnd = Moved | WritePastEnd | ReadPastStart

  /** extend_capacity's policy: 10 slots for an empty vector, otherwise twice
      as many. */
  function GrownCapacity(cap: nat): (r: nat)
    ensures r > cap
    ensures cap == 0 ==> r == 10
    ensures cap != 0 ==> r == 2 * cap
  {
    if cap != 0 then cap * 2 else 10
  }

  /** The storage after extend_capacity: the old slots at the same offsets,
      then raw slots up to the grown capacity. */
  function AfterGrowth<T>(s: seq<Slot<T>>): (r: seq<Slot<T>>)
    ensures |r| == GrownCapacity(|s|) && r[..|s|] == s
    ensures forall k :: |s| <= k < |r| ==> r[k] == Raw
  {
    s + seq(GrownCapacity(|s|) - |s|, _ => Raw)
  }

  /** push_back(v) on storage s with `finish` elements: grow when full, then
      write v at finish; the count moves on only when corrected. */
  function PushBackSpec<T>(s: seq<Slot<T>>, finish: nat, v: T, corrected: bool): (r: (seq<Slot<T>>, nat))
    requires finish <= |s|
    ensures finish < |r.0| && r.1 <= |r.0|
  {
    var s1 := if finish == |s| then AfterGrowth(s) else s;
    (s1[finish := Value(v)], if corrected then finish + 1 else finish)
  }

  /** copy as written: for each slot k from finish + 1 down to pos + 2, the
      value of slot k - 1 (so slot pos + 1 is never moved and slot pos is
      never read). */
  function ShiftedAsWritten<T>(s: seq<Slot<T>>, pos: nat, finish: nat): (r: seq<Slot<T>>)
    requires pos <= finish && (pos == finish || finish + 2 <= |s|)
    ensures |r| == |s|
  {
    seq(|s|, k requires 0 <= k < |s| => if pos + 2 <= k <= finish + 1 then s[k - 1] else s[k])
  }

  /** copy as intended: the slots [pos, finish) move up by one. */
  function Shifted<T>(s: seq<Slot<T>>, pos: nat, finish: nat): (r: seq<Slot<T>>)
    requires pos <= finish < |s|
    ensures |r| == |s|
  {
    seq(|s|, k requires 0 <= k < |s| => if pos + 1 <= k <= finish then s[k - 1] else s[k])
  }

  /** copy(pos, finish, pos + 1, finish + 1) on storage s: the walk of
      src_end from finish down to pos, moving each slot one up. Corrected it
      steps back before each move; as written it moves first and so starts
      one slot higher. When pos lies past finish the walk never meets it and
      reads the slot before the start. */
  function CopySpec<T>(s: seq<Slot<T>>, pos: nat, finish: nat, corrected: bool): (r: (seq<Slot<T>>, CopyEnd))
    requires finish < |s|
    ensures |r.0| == |s|
    ensures r.1 == Moved <==> pos <= finish && (corrected || pos == finish || finish + 2 <= |s|)
    ensures r.1 == Moved && corrected ==> forall k :: 0 <= k < |s| ==> r.0[k] == if pos < k <= finish then s[k - 1] else s[k]
    ensures r.1 == ReadPastStart <==> finish < pos && (corrected || finish + 2 <= |s|)
    ensures r.1 == WritePastEnd ==> r.0 == s
    ensures r.1 == ReadPastStart ==> r.0[0] == s[0] && forall k :: 1 <= k <= finish ==> r.0[k] == s[k - 1]
  {
    if corrected then
      if pos <= finish then (Shifted(s, pos, finish), Moved) else (Shifted(s, 0, finish), ReadPastStart)
    else if pos == finish then (s, Moved)
    else if finish + 2 > |s| then (s, WritePastEnd)
    else if pos < finish then (ShiftedAsWritten(s, pos, finish), Moved)
    else (Shifted(s, 0, finish + 1), ReadPastStart)
  }

  /** insert(pos, v) on storage s with `finish` elements: grow when full
      (pos keeps its offset), shift with copy, place v at pos and return pos.
      As written copy writes slot finish + 1, which is past the end when
      finish + 1 is the capacity and the loop runs; a pos past finish never
      stops copy's walk, which reads before the start. */
  function InsertSpec<T>(s: seq<Slot<T>>, finish: nat, pos: nat, v: T, corrected: bool)
    : (r: (seq<Slot<T>>, nat, InsertOutcome))
    requires finish <= |s|
    ensures r.1 <= |r.0| && |s| <= |r.0|
    ensures r.2.Inserted? <==> pos <= finish && (corrected || pos == finish || finish + 2 <= |r.0|)
    ensures r.2 == ReadBeforeStart <==> finish < pos && (corrected || finish + 2 <= |r.0|)
    ensures r.2.Inserted? ==> r.2.pos == pos && r.1 == finish + 1 && r.0[pos] == Value(v)
    ensures !r.2.Inserted? ==> r.1 == finish
  {
    var s1 := if finish == |s| then AfterGrowth(s) else s;
    var (s2, e) := CopySpec(s1, pos, finish, corrected);
    match e
    case Moved => (s2[pos := Value(v)], finish + 1, Inserted(pos))
    case WritePastEnd => (s2, finish, WriteOutOfBounds)
    case ReadPastStart => (s2, finish, ReadBeforeStart)
  }

  /** allocate_and_fill(n, v): fresh storage of n slots, each holding v. */
  method AllocateAndFill<T>(n: nat, v: T, pod: bool) returns (a: array<Slot<T>>)
    ensures fresh(a) && a.Length == n
    ensures forall k :: 0 <= k < n ==> a[k] == Value(v)
  {
    a := new Slot<T>[n](_ => Raw);
    var _ := Uninit(a, 0, n, v, pod);
  }

  class Vector<T> {
    /** The storage [start, end_of_storage). */
    var storage: array<Slot<T>>
    /** finish - start. */
    var finish: nat
    /** Whether T is a POD type (m_type_traits<T>::is_POD_type). */
    const pod: bool
    const corrected: bool

    ghost predicate Valid()
      reads this
    {
      finish <= storage.Length
    }

    /** The slots [start, finish). */
    function Elements(): (r: seq<Slot<T>>)
      reads this, storage
      requires Valid()
      ensures |r| == finish
    {
      storage[..finish]
    }

    /** The default constructor: no storage at all. */
    constructor Empty(pod: bool, corrected: bool)
      ensures Valid() && fresh(storage) && Elements() == [] && storage.Length == 0
      ensures this.pod == pod && this.corrected == corrected
    {
      storage := new Slot<T>[0];
      finish := 0;
      this.pod := pod;
      this.corrected := corrected;
    }

    /** m_vector(n, v) through init: n copies of v, and the storage exactly
        full. */
    constructor Init(n: nat, v: T, pod: bool, corrected: bool)
      ensures Valid() && fresh(storage) && storage.Length == n
      ensures Elements() == seq(n, _ => Value(v))
      ensures this.pod == pod && this.corrected == corrected
    {
      var a := AllocateAndFill(n, v, pod);
      storage := a;
      finish := n;
      this.pod := pod;
      this.corrected := corrected;
      new;
      assert storage[..n] == seq(n, _ => Value(v));
    }

    /** size(): as written start - finish, the element count negated;
        corrected, the element count. */
    function Size(): (r: int)
      reads this, storage
      requires Valid()
      ensures corrected ==> r == |Elements()|
      ensures !corrected ==> r == -|Elements()|
    {
      if corrected then finish else 0 - finish
    }

    /** capacity(): end_of_storage - start, never below the element count. */
    function Capacity(): (r: nat)
      reads this
      requires Valid()
      ensures r == storage.Length && r >= finish
    {
      storage.Length
    }

    /** extend_capacity(): copy every slot of the old storage to the same
        offset of a grown one, destroying the old values, and set finish to
        the old capacity. */
    method ExtendCapacity()
      requires Valid()
      modifies this, storage
      ensures Valid() && fresh(storage)
      ensures storage[..] == AfterGrowth(old(storage[..])) && finish == old(storage.Length)
    {
      var cap := storage.Length;
      var newSize := GrownCapacity(cap);
      var newMem := new Slot<T>[newSize](_ => Raw);
      ghost var s0 := storage[..];
      var k := 0;
      while k != cap
        invariant 0 <= k <= cap && storage.Length == cap
        invariant newMem[..k] == s0[..k]
        invariant forall j :: k <= j < newSize ==> newMem[j] == Raw
        invariant storage[k..] == s0[k..]
        modifies storage, newMem
      {
        newMem[k] := storage[k];
        var _ := Deconstruct(storage, k, pod);
        k := k + 1;
      }
      storage := newMem;
      finish := cap;
      assert storage[..] == AfterGrowth(s0);
    }

    /** push_back(v): write v at finish when there is room (without moving
        finish, as written), otherwise grow and push into the grown storage. */
    method PushBack(v: T)
      requires Valid()
      modifies this, storage
      ensures Valid()
      ensures (storage[..], finish) == PushBackSpec(old(storage[..]), old(finish), v, corrected)
      ensures storage == old(storage) || fresh(storage)
      decreases if finish < storage.Length then 0 else 2
    {
      if finish != storage.Length {
        var _ := Uninit(storage, finish, 1, v, pod);
        assert storage[..] == old(storage[..])[finish := Value(v)];
        if corrected {
          finish := finish + 1;
        }
      } else {
        ExtendCapacityWith(v);
      }
    }

    /** extend_capacity(v): grow, then push v. */
    method ExtendCapacityWith(v: T)
      requires Valid() && finish == storage.Length
      modifies this, storage
      ensures Valid() && fresh(storage)
      ensures (storage[..], finish) == PushBackSpec(old(storage[..]), old(finish), v, corrected)
      decreases 1
    {
      ExtendCapacity();
      PushBack(v);
    }

    /** copy(pos, finish, pos + 1, finish + 1), the shift that opens a gap at
        pos, followed by finish++. As written it walks src_end from finish
        down to pos + 1 moving *src_end into *des_end; corrected it steps
        both back before each move. The walk stops early at a write past the
        end of the storage or, when pos lies past finish, at the read before
        the start. */
    method Copy(srcBegin: nat, srcEnd: nat, desBegin: nat, desEnd: nat) returns (r: CopyEnd)
      requires Valid() && srcEnd == finish < storage.Length
      requires desBegin == srcBegin + 1 && desEnd == srcEnd + 1
      modifies this, storage
      ensures Valid() && storage == old(storage)
      ensures (storage[..], r) == CopySpec(old(storage[..]), srcBegin, old(finish), corrected)
      ensures finish == if r == Moved then old(finish) + 1 else old(finish)
    {
      if corrected {
        r := ShiftUp(srcBegin, srcEnd);
      } else {
        r := ShiftUpAsWritten(srcBegin, srcEnd);
      }
      if r == Moved {
        finish := finish + 1;
      }
    }

    /** copy's loop as intended: step src_end and des_end back, then move. */
    method ShiftUp(srcBegin: nat, srcEnd: nat) returns (r: CopyEnd)
      requires corrected && srcEnd < storage.Length
      modifies storage
      ensures (storage[..], r) == CopySpec(old(storage[..]), srcBegin, srcEnd, corrected)
    {
      ghost var s0 := storage[..];
      var src: int, des: int := srcEnd, srcEnd + 1;
      while src != srcBegin
        invariant 0 <= src <= srcEnd && des == src + 1 && (srcBegin <= srcEnd ==> srcBegin <= src)
        invariant |s0| == storage.Length
        invariant forall k :: src + 1 <= k <= srcEnd ==> storage[k] == s0[k - 1]
        invariant forall k :: 0 <= k < storage.Length && !(src + 1 <= k <= srcEnd) ==> storage[k] == s0[k]
        decreases src
      {
        if src == 0 {
          assert forall k :: 0 <= k < storage.Length ==> storage[..][k] == Shifted(s0, 0, srcEnd)[k];
          assert storage[..] == Shifted(s0, 0, srcEnd) && srcEnd < srcBegin;
          return ReadPastStart;
        }
        src, des := src - 1, des - 1;
        storage[des] := storage[src];
      }
      assert forall k :: 0 <= k < storage.Length ==> storage[..][k] == Shifted(s0, srcBegin, srcEnd)[k];
      assert storage[..] == Shifted(s0, srcBegin, srcEnd);
      r := Moved;
    }

    /** copy's loop as written: move *src_end into *des_end, then step both
        back, so every move lands one slot too high. */
    method ShiftUpAsWritten(srcBegin: nat, srcEnd: nat) returns (r: CopyEnd)
      requires !corrected && srcEnd < storage.Length
      modifies storage
      ensures (storage[..], r) == CopySpec(old(storage[..]), srcBegin, srcEnd, corrected)
    {
      ghost var s0 := storage[..];
      var src: int, des: int := srcEnd, srcEnd + 1;
      while src != srcBegin
        invariant 0 <= src <= srcEnd && des == src + 1 && (srcBegin <= srcEnd ==> srcBegin <= src)
        invariant |s0| == storage.Length
        invariant src < srcEnd ==> srcEnd + 2 <= storage.Length
        invariant forall k :: src + 2 <= k <= srcEnd + 1 ==> storage[k] == s0[k - 1]
        invariant forall k :: 0 <= k < storage.Length && !(src + 2 <= k <= srcEnd + 1) ==> storage[k] == s0[k]
        decreases src
      {
        if des >= storage.Length {
          assert forall k :: 0 <= k < storage.Length ==> storage[..][k] == s0[k];
          assert src == srcEnd && storage[..] == s0;
          return WritePastEnd;
        }
        storage[des] := storage[src];
        if src == 0 {
          assert srcEnd + 1 < storage.Length;
          assert forall k :: 0 <= k < storage.Length ==> storage[..][k] == Shifted(s0, 0, srcEnd + 1)[k];
          assert storage[..] == Shifted(s0, 0, srcEnd + 1) && srcEnd < srcBegin && srcEnd + 2 <= storage.Length;
          return ReadPastStart;
        }
        src, des := src - 1, des - 1;
      }
      assert forall k :: 0 <= k < storage.Length ==> storage[..][k] == ShiftedAsWritten(s0, srcBegin, srcEnd)[k];
      assert storage[..] == if srcBegin == srcEnd then s0 else ShiftedAsWritten(s0, srcBegin, srcEnd);
      r := Moved;
    }

    /** insert(pos, v): grow when full (pos keeps its offset from start),
        open a gap at pos with copy, construct v there and return pos. */
    method Insert(pos: nat, v: T) returns (r: InsertOutcome)
      requires Valid()
      modifies this, storage
      ensures Valid()
      ensures (storage[..], finish, r) == InsertSpec(old(storage[..]), old(finish), pos, v, corrected)
    {
      var p := pos;
      if finish == storage.Length {
        var n := p;
        ExtendCapacity();
        p := n;
      }
      var e := Copy(p, finish, p + 1, finish + 1);
      match e
      case Moved =>
        storage[p] := Value(v);
        r := Inserted(p);
      case WritePastEnd =>
        r := WriteOutOfBounds;
      case ReadPastStart =>
        r := ReadBeforeStart;
    }
  }
}
