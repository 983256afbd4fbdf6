/** What push_back, insert and size() do to the elements of an m_vector, as
    intended and as written. */
module VectorProperties {
  import opened Uninitialized
  import opened VectorModel

  /** Corrected, push_back appends v to the elements; the capacity stays when
      there was room and grows by GrownCapacity when the storage was full. */
  lemma PushBackAppends<T>(s: seq<Slot<T>>, finish: nat, v: T)
    requires finish <= |s|
    ensures var (s1, f1) := PushBackSpec(s, finish, v, true);
      && s1[..f1] == s[..finish] + [Value(v)]
      && |s1| == (if finish < |s| then |s| else GrownCapacity(|s|))
  {
    var (s1, f1) := PushBackSpec(s, finish, v, true);
    var grown := if finish == |s| then AfterGrowth(s) else s;
    assert grown[..finish] == s[..finish];
    assert s1[..f1] == grown[..finish] + [Value(v)];
  }

  /** As written, push_back writes v at finish and leaves the element count
      as it was, so a second push_back overwrites the first. */
  lemma {:induction false} AsWrittenPushBackOverwrites<T>(s: seq<Slot<T>>, finish: nat, a: T, b: T)
    requires finish <= |s|
    ensures var (s1, f1) := PushBackSpec(s, finish, a, false);
      var (s2, f2) := PushBackSpec(s1, f1, b, false);
      && f1 == finish && f2 == finish
      && s1[finish] == Value(a) && s2[finish] == Value(b)
      && s2[..finish] == s[..finish]
  {
    var (s1, f1) := PushBackSpec(s, finish, a, false);
    var grown := if finish == |s| then AfterGrowth(s) else s;
    assert grown[..finish] == s[..finish];
    assert s1[..finish] == s[..finish];
  }

  /** The first push_back on an empty vector: slot 0 holds v in a storage of
      10 slots, but the vector still has no elements as written. */
  lemma FirstPushBackOnEmpty<T>(v: T, corrected: bool)
    ensures var (s1, f1) := PushBackSpec([], 0, v, corrected);
      && |s1| == 10 && s1[0] == Value(v)
      && f1 == (if corrected then 1 else 0)
  {
  }

  /** Corrected, insert puts v before the element at pos, keeps every other
      element in order, returns pos, and grows the storage exactly when it
      was full. */
  lemma InsertPlacesValue<T>(s: seq<Slot<T>>, finish: nat, pos: nat, v: T)
    requires pos <= finish <= |s|
    ensures var (s1, f1, r) := InsertSpec(s, finish, pos, v, true);
      && r == Inserted(pos) && f1 == finish + 1
      && s1[..f1] == s[..pos] + [Value(v)] + s[pos..finish]
      && |s1| == (if finish < |s| then |s| else GrownCapacity(|s|))
  {
    var (s1, f1, r) := InsertSpec(s, finish, pos, v, true);
    var grown := if finish == |s| then AfterGrowth(s) else s;
    assert grown[..finish] == s[..finish];
    var want := s[..pos] + [Value(v)] + s[pos..finish];
    assert forall k :: 0 <= k < f1 ==> s1[k] == want[k] by {
      forall k | 0 <= k < f1
        ensures s1[k] == want[k]
      {
        if k < pos {
          assert s1[k] == grown[k] == s[k];
        } else if k > pos {
          assert s1[k] == grown[k - 1] == s[k - 1];
        }
      }
    }
  }

  /** As written, inserting 9 at the front of [1, 2, 3] with two spare slots
      gives [9, 2, 2, 3]: the 1 is lost and the 2 doubled; corrected gives
      [9, 1, 2, 3]. */
  lemma AsWrittenInsertLosesElement()
    ensures var s := [Value(1), Value(2), Value(3), Raw, Raw];
      && InsertSpec(s, 3, 0, 9, false).0[..4] == [Value(9), Value(2), Value(2), Value(3)]
      && InsertSpec(s, 3, 0, 9, true).0[..4] == [Value(9), Value(1), Value(2), Value(3)]
  {
    var s := [Value(1), Value(2), Value(3), Raw, Raw];
    var w := InsertSpec(s, 3, 0, 9, false).0;
    assert w[0] == Value(9) && w[1] == Value(2) && w[2] == Value(2) && w[3] == Value(3);
    var c := InsertSpec(s, 3, 0, 9, true).0;
    assert c[0] == Value(9) && c[1] == Value(1) && c[2] == Value(2) && c[3] == Value(3);
  }

  /** As written, inserting into a vector with exactly one spare slot, before
      an existing element, writes past the end of the storage. */
  lemma AsWrittenInsertOverruns<T>(s: seq<Slot<T>>, finish: nat, pos: nat, v: T)
    requires pos < finish && finish + 1 == |s|
    ensures InsertSpec(s, finish, pos, v, false).2 == WriteOutOfBounds
    ensures InsertSpec(s, finish, pos, v, true).2 == Inserted(pos)
  {
  }

  /** As written, push_back never advances finish, so after two push_backs
      on an empty vector begin() + 1 lies past finish: insert there walks
      copy below the start of the storage. Corrected, the same calls give
      the elements a, c, b. */
  lemma AsWrittenInsertPastFinish<T>(a: T, b: T, c: T)
    ensures var (s1, f1) := PushBackSpec([], 0, a, false);
      var (s2, f2) := PushBackSpec(s1, f1, b, false);
      f2 == 0 && InsertSpec(s2, f2, 1, c, false).2 == ReadBeforeStart
    ensures var (s1, f1) := PushBackSpec([], 0, a, true);
      var (s2, f2) := PushBackSpec(s1, f1, b, true);
      var (s3, f3, r) := InsertSpec(s2, f2, 1, c, true);
      r == Inserted(1) && s3[..f3] == [Value(a), Value(c), Value(b)]
  {
    var (s1, f1) := PushBackSpec([], 0, a, true);
    var (s2, f2) := PushBackSpec(s1, f1, b, true);
    InsertPlacesValue(s2, f2, 1, c);
    PushBackAppends(s1, f1, b);
    FirstPushBackOnEmpty(a, true);
    assert s2[..f2] == [Value(a), Value(b)];
  }

  /** As written, size() of a vector with elements is negative. */
  lemma AsWrittenSizeIsNegative<T>(vec: Vector<T>)
    requires vec.Valid() && !vec.corrected && vec.finish > 0
    ensures vec.Size() < 0 && vec.Size() == -|vec.Elements()|
  {
  }
}
