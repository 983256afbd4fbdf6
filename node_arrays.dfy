/** The in-node array steps shared by the B-tree and the B+ tree. A node's
    key vector and child vector have a fixed length (order - 1 and order
    slots); only a prefix of them is live, and insertion moves part of the
    live prefix up by one slot. Keys are integers ordered by `<`. */
module NodeArrays {

  /** The keys of s are in non-decreasing order. */
  ghost predicate Sorted(s: seq<int>)
  {
    forall i, j :: 0 <= i < j < |s| ==> s[i] <= s[j]
  }

  /** The vector s after writing x at slot pos and moving the live slots
      [pos, count) up by one; the slots after count keep their contents. */
  function ShiftInsert<X>(s: seq<X>, pos: nat, count: nat, x: X): (r: seq<X>)
    requires pos <= count < |s|
    ensures |r| == |s|
  {
    s[..pos] + [x] + s[pos..count] + s[count + 1..]
  }

  /** Slot by slot: below pos nothing moves, x is at pos, the slots up to
      count hold their left neighbours, and the rest is untouched. */
  lemma ShiftInsertAt<X>(s: seq<X>, pos: nat, count: nat, x: X)
    requires pos <= count < |s|
    ensures forall k :: 0 <= k < pos ==> ShiftInsert(s, pos, count, x)[k] == s[k]
    ensures ShiftInsert(s, pos, count, x)[pos] == x
    ensures forall k :: pos < k <= count ==> ShiftInsert(s, pos, count, x)[k] == s[k - 1]
    ensures forall k :: count < k < |s| ==> ShiftInsert(s, pos, count, x)[k] == s[k]
  {
  }

  /** The live prefix grows by exactly x: nothing is lost or duplicated. */
  lemma ShiftInsertMultiset<X>(s: seq<X>, pos: nat, count: nat, x: X)
    requires pos <= count < |s|
    ensures multiset(ShiftInsert(s, pos, count, x)[..count + 1]) == multiset(s[..count]) + multiset{x}
  {
    var r := ShiftInsert(s, pos, count, x);
    assert r[..count + 1] == s[..pos] + [x] + s[pos..count];
    assert s[..count] == s[..pos] + s[pos..count];
  }

  /** Written between its neighbours, x keeps a sorted live prefix sorted. */
  lemma ShiftInsertSorted(s: seq<int>, pos: nat, count: nat, x: int)
    requires pos <= count < |s| && Sorted(s[..count])
    requires forall k :: 0 <= k < pos ==> s[k] <= x
    requires forall k :: pos <= k < count ==> x <= s[k]
    ensures Sorted(ShiftInsert(s, pos, count, x)[..count + 1])
  {
    var r := ShiftInsert(s, pos, count, x);
    ShiftInsertAt(s, pos, count, x);
    forall i, j | 0 <= i < j < count + 1
      ensures r[i] <= r[j]
    {
      var si := if i < pos then s[i] else if i == pos then x else s[i - 1];
      var sj := if j < pos then s[j] else if j == pos then x else s[j - 1];
      assert r[i] == si && r[j] == sj;
      if i < pos && j > pos {
        assert s[..count][i] <= s[..count][j - 1];
      } else if i != pos && j != pos {
        var i' := if i < pos then i else i - 1;
        assert s[..count][i'] <= s[..count][j - 1] || j < pos;
        if j < pos {
          assert s[..count][i] <= s[..count][j];
        }
      }
    }
  }

  /** No slot of s repeats another. */
  ghost predicate Distinct<X>(s: seq<X>)
  {
    forall i, j :: 0 <= i < j < |s| ==> s[i] != s[j]
  }

  /** What is in s is before slot i or from slot i on. */
  lemma InPrefixOrSuffix<X>(s: seq<X>, i: nat, x: X)
    requires i <= |s| && x in s
    ensures x in s[..i] || x in s[i..]
  {
    assert s == s[..i] + s[i..];
  }

  /** A slice of a repetition-free sequence is repetition-free. */
  lemma DistinctSlice<X>(s: seq<X>, i: nat, j: nat)
    requires Distinct(s) && i <= j <= |s|
    ensures Distinct(s[i..j])
  {
    forall a, b | 0 <= a < b < j - i
      ensures s[i..j][a] != s[i..j][b]
    {
      assert s[i..j][a] == s[i + a] && s[i..j][b] == s[i + b];
    }
  }

  /** The live prefix after the insertion holds exactly x and what it held
      before. */
  lemma ShiftInsertMembers<X>(s: seq<X>, pos: nat, count: nat, x: X)
    requires pos <= count < |s|
    ensures forall y :: y in ShiftInsert(s, pos, count, x)[..count + 1] <==> y == x || y in s[..count]
  {
    var r := ShiftInsert(s, pos, count, x);
    assert r[..count + 1] == s[..pos] + [x] + s[pos..count];
    assert s[..count] == s[..pos] + s[pos..count];
  }

  /** The one direction of ShiftInsertMembers for a single y. */
  lemma ShiftInsertHas<X>(s: seq<X>, pos: nat, count: nat, x: X, y: X)
    requires pos <= count < |s| && (y == x || y in s[..count])
    ensures y in ShiftInsert(s, pos, count, x)[..count + 1]
  {
    ShiftInsertMembers(s, pos, count, x);
  }

  /** A new x keeps a repetition-free live prefix repetition-free. */
  lemma ShiftInsertDistinct<X>(s: seq<X>, pos: nat, count: nat, x: X)
    requires pos <= count < |s| && Distinct(s[..count]) && x !in s[..count]
    ensures Distinct(ShiftInsert(s, pos, count, x)[..count + 1])
  {
    var r := ShiftInsert(s, pos, count, x);
    ShiftInsertAt(s, pos, count, x);
    forall i, j | 0 <= i < j < count + 1
      ensures r[i] != r[j]
    {
      var i' := if i < pos then i else i - 1;
      var j' := if j <= pos then j else j - 1;
      if i == pos {
        assert s[..count][j'] == r[j];
      } else if j == pos {
        assert s[..count][i'] == r[i];
      } else {
        assert s[..count][i'] == r[i] && s[..count][j'] == r[j];
      }
    }
  }

  /** The position the B-tree's backward scan stops at: it walks down from
      the last key while val is below it, and answers one past the key it
      stopped on. */
  function UpperBound(s: seq<int>, val: int): (r: nat)
    ensures r <= |s|
    ensures forall k :: r <= k < |s| ==> val < s[k]
    ensures 0 < r ==> s[r - 1] <= val
  {
    if |s| == 0 || !(val < s[|s| - 1]) then |s| else UpperBound(s[..|s| - 1], val)
  }

  /** The number of keys of s at most val. */
  function CountAtMost(s: seq<int>, val: int): (r: nat)
    ensures r <= |s|
  {
    if |s| == 0 then 0 else CountAtMost(s[..|s| - 1], val) + (if s[|s| - 1] <= val then 1 else 0)
  }

  /** In sorted keys the scan stops after exactly the keys at most val, and
      every key before that position is at most val. */
  lemma {:induction false} UpperBoundCounts(s: seq<int>, val: int)
    requires Sorted(s)
    ensures UpperBound(s, val) == CountAtMost(s, val)
    ensures forall k :: 0 <= k < UpperBound(s, val) ==> s[k] <= val
  {
    if |s| != 0 {
      var t := s[..|s| - 1];
      assert Sorted(t);
      UpperBoundCounts(t, val);
      if val < s[|s| - 1] {
      } else {
        assert CountAtMost(t, val) == |t| by {
          CountAllAtMost(t, val);
        }
      }
    }
  }

  /** When every key of s is at most val, all of them count. */
  lemma {:induction false} CountAllAtMost(s: seq<int>, val: int)
    requires Sorted(s) && (|s| == 0 || s[|s| - 1] <= val)
    ensures CountAtMost(s, val) == |s|
  {
    if |s| != 0 {
      var t := s[..|s| - 1];
      assert Sorted(t);
      if |t| != 0 {
        assert s[|t| - 1] <= s[|s| - 1];
      }
      CountAllAtMost(t, val);
    }
  }

  /** std::lower_bound over s: the first position whose key is not below
      key. */
  function LowerBound(s: seq<int>, key: int): (r: nat)
    ensures r <= |s|
    ensures forall k :: 0 <= k < r ==> s[k] < key
    ensures r < |s| ==> key <= s[r]
  {
    if |s| == 0 || !(s[0] < key) then 0 else 1 + LowerBound(s[1..], key)
  }

  /** The number of keys of s below key. */
  function CountBelow(s: seq<int>, key: int): (r: nat)
    ensures r <= |s|
  {
    if |s| == 0 then 0 else (if s[0] < key then 1 else 0) + CountBelow(s[1..], key)
  }

  /** In sorted keys the lower bound is the number of keys below key, and
      every key from it on is at least key. */
  lemma {:induction false} LowerBoundCounts(s: seq<int>, key: int)
    requires Sorted(s)
    ensures LowerBound(s, key) == CountBelow(s, key)
    ensures forall k :: LowerBound(s, key) <= k < |s| ==> key <= s[k]
  {
    if |s| != 0 {
      assert Sorted(s[1..]);
      if s[0] < key {
        LowerBoundCounts(s[1..], key);
      } else {
        NoneBelow(s, key);
      }
    }
  }

  /** When the first key of sorted s is not below key, none is. */
  lemma {:induction false} NoneBelow(s: seq<int>, key: int)
    requires Sorted(s) && (|s| == 0 || key <= s[0])
    ensures CountBelow(s, key) == 0
    ensures forall k :: 0 <= k < |s| ==> key <= s[k]
  {
    if |s| != 0 {
      assert Sorted(s[1..]);
      if 1 < |s| {
        assert s[0] <= s[1];
      }
      NoneBelow(s[1..], key);
      assert forall k :: 1 <= k < |s| ==> s[k] == s[1..][k - 1];
    }
  }

  /** The scan for x among the first count + 1 slots: the first slot that
      holds it. */
  method IndexOf<X(==)>(s: seq<X>, count: nat, x: X) returns (i: nat)
    requires count < |s| && x in s[..count + 1]
    ensures i <= count && s[i] == x && x !in s[..i]
  {
    i := 0;
    while s[i] != x
      invariant i <= count && x in s[i..count + 1] && x !in s[..i]
      decreases count - i
    {
      assert s[i..count + 1] == [s[i]] + s[i + 1..count + 1];
      assert s[..i + 1] == s[..i] + [s[i]];
      i := i + 1;
    }
  }

  /** The shift loop of insert_into_leaf, insert_into_parent and splitChild:
      for i from count down to pos + 1 slot i takes slot i - 1, then x goes
      to slot pos. */
  method ShiftRight<X>(s: seq<X>, pos: nat, count: nat, x: X) returns (r: seq<X>)
    requires pos <= count < |s|
    ensures r == ShiftInsert(s, pos, count, x)
  {
    r := s;
    var i := count;
    while i > pos
      invariant pos <= i <= count && |r| == |s|
      invariant r[..i] == s[..i] && r[count + 1..] == s[count + 1..]
      invariant forall k :: i < k <= count ==> r[k] == s[k - 1]
    {
      r := r[i := r[i - 1]];
      i := i - 1;
    }
    r := r[pos := x];
    assert r == ShiftInsert(s, pos, count, x) by {
      ShiftInsertAt(s, pos, count, x);
    }
  }

  /** The copy loop of the splits: slot j of dst takes slot from + j of src,
      for j below n. */
  method CopyRun<X>(dst: seq<X>, src: seq<X>, from: nat, n: nat) returns (r: seq<X>)
    requires n <= |dst| && from + n <= |src|
    ensures r == src[from..from + n] + dst[n..]
  {
    r := dst;
    var j := 0;
    while j < n
      invariant j <= n && |r| == |dst|
      invariant r[..j] == src[from..from + j] && r[j..] == dst[j..]
    {
      r := r[j := src[j + from]];
      j := j + 1;
      assert r[..j] == r[..j - 1] + [src[from + j - 1]];
      assert src[from..from + j] == src[from..from + j - 1] + [src[from + j - 1]];
    }
  }

  /** The child loop of the internal splits: slot j of dst takes slot
      from + j of src, and that slot of src is then cleared to blank, for j
      below n. */
  method MoveRun<X>(dst: seq<X>, src: seq<X>, from: nat, n: nat, blank: X) returns (d: seq<X>, s: seq<X>)
    requires n <= |dst| && from + n <= |src|
    ensures d == src[from..from + n] + dst[n..]
    ensures s == src[..from] + seq(n, _ => blank) + src[from + n..]
  {
    d, s := dst, src;
    var j := 0;
    while j < n
      invariant j <= n && |d| == |dst| && |s| == |src|
      invariant d[..j] == src[from..from + j] && d[j..] == dst[j..]
      invariant s[..from] == src[..from] && s[from + j..] == src[from + j..]
      invariant forall k :: from <= k < from + j ==> s[k] == blank
    {
      d := d[j := s[j + from]];
      s := s[j + from := blank];
      j := j + 1;
      assert d[..j] == d[..j - 1] + [src[from + j - 1]];
      assert src[from..from + j] == src[from..from + j - 1] + [src[from + j - 1]];
    }
    assert s == src[..from] + seq(n, _ => blank) + src[from + n..];
  }
}
