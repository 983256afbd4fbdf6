/** m_stl::list: a doubly linked ring of nodes around a sentinel `head` that
    the list object embeds. begin() is head.next and end() is the sentinel
    itself; an iterator is the node it stands on.

    The ghost sequence Nodes lists the ring from the sentinel (index 0) in
    next order, and Contents the values of the nodes after it. The element
    counter `_size` is kept apart from both, because erase(first, last)
    lets it drift away from the number of nodes. Like the allocator, the list
    carries a `corrected` flag that selects, at each defect of the source,
    the step as written or as intended. */
module ListModel {
  import opened SizeClass

  /** list_node: two links and a value. */
  class ListNode<T(0)> {
    var next: ListNode?<T>
    var prev: ListNode?<T>
    var value: T

    /** list_node(): the sentinel, linked to itself both ways. */
    constructor Sentinel()
      ensures next == this && prev == this
    {
      new;
      next := this;
      prev := this;
    }

    /** construct(value) and construct_in_palce(args): a fresh node whose value
        is constructed in place; its links are set by the caller. */
    constructor Holding(v: T)
      ensures value == v && next == null && prev == null
    {
      value := v;
      next := null;
      prev := null;
    }
  }

  /** size_t(i): an int converted to size_t, modulo 2^64. */
  function AsSizeT(i: int): (r: nat)
    ensures IsSizeT(r)
    ensures 0 <= i < SIZE_T_MOD ==> r == i
    ensures -(SIZE_T_MOD as int) <= i < 0 ==> r == i + SIZE_T_MOD
    ensures 0 <= i ==> r <= i
  {
    i % SIZE_T_MOD
  }

  /** A size_t passed where an int is taken, as begin() + n passes resize's
      n to operator+(int): the low 32 bits read in two's complement. */
  function IntOfSizeT(n: nat): (r: int)
    ensures -0x8000_0000 <= r < 0x8000_0000
    ensures n < 0x8000_0000 ==> r == n
    ensures (r - n) % 0x1_0000_0000 == 0
  {
    var low := n % 0x1_0000_0000;
    if low < 0x8000_0000 then low else low - 0x1_0000_0000
  }

  /** The position after position p of a ring of `ring` positions. */
  function Succ(p: nat, ring: nat): (r: nat)
    requires p < ring
    ensures r < ring && (p + 1 < ring ==> r == p + 1) && (p + 1 == ring ==> r == 0)
  {
    if p + 1 < ring then p + 1 else 0
  }

  /** The position before position p of a ring of `ring` positions. */
  function Pred(p: nat, ring: nat): (r: nat)
    requires p < ring
    ensures r < ring && (0 < p ==> r == p - 1) && (p == 0 ==> r == ring - 1)
  {
    if 0 < p then p - 1 else ring - 1
  }

  /** The position reached from position k of a ring of `ring` positions by
      n steps forwards (a negative n takes none). */
  function RingForward(k: nat, n: int, ring: nat): (r: nat)
    requires k < ring
    ensures r < ring
    decreases n
  {
    if n <= 0 then k else Succ(RingForward(k, n - 1, ring), ring)
  }

  /** The position reached from position k of a ring of `ring` positions by
      n steps backwards (a negative n takes none). */
  function RingBackward(k: nat, n: int, ring: nat): (r: nat)
    requires k < ring
    ensures r < ring
    decreases n
  {
    if n <= 0 then k else Pred(RingBackward(k, n - 1, ring), ring)
  }

  /** Walking forwards without passing the end of the ring adds the steps;
      reaching the end exactly lands on position 0. */
  lemma {:induction false} RingForwardNoWrap(k: nat, n: nat, ring: nat)
    requires k < ring && k + n <= ring
    ensures k + n < ring ==> RingForward(k, n, ring) == k + n
    ensures k + n == ring ==> RingForward(k, n, ring) == 0
    decreases n
  {
    if n > 0 {
      RingForwardNoWrap(k, n - 1, ring);
    }
  }

  /** Walking backwards without passing position 0 subtracts the steps. */
  lemma {:induction false} RingBackwardNoWrap(k: nat, n: nat, ring: nat)
    requires k < ring && n <= k
    ensures RingBackward(k, n, ring) == k - n
    decreases n
  {
    if n > 0 {
      RingBackwardNoWrap(k, n - 1, ring);
    }
  }

  /** The number of nodes erase(begin(), begin() + n) removes from a list of
      `count` nodes: begin() + n walks n steps round the ring of count + 1
      positions, passing through the sentinel, and the range ends wherever
      that walk stops. */
  function ErasedByResize(count: nat, n: int): (r: nat)
    ensures r <= count
    ensures n <= 0 ==> r == 0
  {
    var p := RingForward(if count == 0 then 0 else 1, n, count + 1);
    if p == 0 then count else p - 1
  }

  /** While n is at most the number of nodes, the range [begin(), begin() + n)
      holds exactly n nodes. */
  lemma ErasedByResizeInRange(count: nat, n: nat)
    requires n <= count
    ensures ErasedByResize(count, n) == n
  {
    RingForwardNoWrap(if count == 0 then 0 else 1, n, count + 1);
  }

  /** resize(n) on a list holding c with counter `size`: when n is at most
      the counter (converted to size_t), erase a range from begin(). As
      written the range is [begin(), begin() + n), where operator+ takes an
      int, so n is narrowed first and a negative result walks no step; the
      range drops the nodes walked over and, erase(first, last) decrementing
      twice, takes two off the counter per node. Corrected it is
      [begin() + n, end()), which keeps the first n. */
  function ResizeSpec<T>(c: seq<T>, size: int, n: nat, corrected: bool): (r: (seq<T>, int))
    requires corrected ==> size == |c|
    ensures corrected ==> r.1 == |r.0|
    ensures |r.0| <= |c|
  {
    if n <= AsSizeT(size) then
      if corrected then
        (c[..n], size - (|c| - n))
      else
        var e := ErasedByResize(|c|, IntOfSizeT(n));
        (c[e..], size - 2 * e)
    else
      (c, size)
  }

  /** ResizeSpec when the corrected resize erases [begin() + n, end()). */
  lemma ResizeKeepsFront<T>(c: seq<T>, size: int, n: nat)
    requires size == |c| && n <= AsSizeT(size)
    ensures n <= |c|
    ensures ResizeSpec(c, size, n, true) == (c[..n], n)
  {
  }

  /** ResizeSpec when resize as written erases [begin(), begin() + n), the
      walk from begin() stopping at position p of the ring (end() for 0). */
  lemma ResizeDropsFront<T>(c: seq<T>, size: int, n: nat, p: nat, j: nat)
    requires n <= AsSizeT(size)
    requires p == RingForward(if |c| == 0 then 0 else 1, IntOfSizeT(n), |c| + 1)
    requires j == if p == 0 then |c| + 1 else p
    ensures 1 <= j <= |c| + 1
    ensures ResizeSpec(c, size, n, false) == (c[j - 1..], size - 2 * (j - 1))
  {
  }

  /** ResizeSpec when n is above the counter: nothing changes. */
  lemma ResizeKeepsAll<T>(c: seq<T>, size: int, n: nat, corrected: bool)
    requires corrected ==> size == |c|
    requires AsSizeT(size) < n
    ensures ResizeSpec(c, size, n, corrected) == (c, size)
  {
  }

  /** The pointer width of the target: list_node's links are 8 bytes each. */
  const POINTER_BYTES: nat := 8

  /** sizeof(list_node) for a value of sizeOfT bytes aligned to at most a
      pointer: two links and the value, padded to a multiple of the pointer
      size. This is what construct asks the allocator for. */
  function NodeBytes(sizeOfT: nat): (r: nat)
    requires IsSizeT(2 * POINTER_BYTES + sizeOfT)
    ensures 2 * POINTER_BYTES + sizeOfT <= 2 * POINTER_BYTES + sizeOfT + ALIGN - 1 < SIZE_T_MOD ==>
      2 * POINTER_BYTES + sizeOfT <= r < 2 * POINTER_BYTES + sizeOfT + ALIGN
  {
    RoundUp(2 * POINTER_BYTES + sizeOfT)
  }

  /** The bytes deconstruct hands back to the allocator: sizeof(value_type)
      as written, sizeof(list_node) corrected. */
  function ReleasedBytes(sizeOfT: nat, corrected: bool): (r: nat)
    requires IsSizeT(2 * POINTER_BYTES + sizeOfT)
    ensures corrected ==> r == NodeBytes(sizeOfT)
    ensures !corrected && 2 * POINTER_BYTES + sizeOfT + ALIGN - 1 < SIZE_T_MOD ==> r + 2 * POINTER_BYTES <= NodeBytes(sizeOfT)
  {
    if corrected then NodeBytes(sizeOfT) else sizeOfT
  }

  class List<T(0)> {
    /** The sentinel, embedded in the list object. */
    const head: ListNode<T>
    /** _size: a signed counter of the elements. */
    var size: int
    const corrected: bool
    ghost var Nodes: seq<ListNode<T>>
    ghost var Contents: seq<T>
    ghost var Repr: set<object>

    /** The ring: Nodes starts at the sentinel, holds distinct nodes, and
        every node's next and prev are its neighbours in Nodes, wrapping at
        both ends. Corrected, the counter equals the number of elements. */
    ghost predicate Valid()
      reads this, Repr
    {
      && this in Repr && head in Repr
      && 1 <= |Nodes| && Nodes[0] == head
      && |Contents| == |Nodes| - 1
      && (forall i :: 0 <= i < |Nodes| ==> Nodes[i] in Repr)
      && (forall i, j :: 0 <= i < j < |Nodes| ==> Nodes[i] != Nodes[j])
      && (forall i :: 0 <= i < |Nodes| - 1 ==> Nodes[i].next == Nodes[i + 1])
      && Nodes[|Nodes| - 1].next == head
      && (forall i :: 1 <= i < |Nodes| ==> Nodes[i].prev == Nodes[i - 1])
      && head.prev == Nodes[|Nodes| - 1]
      && (forall i :: 0 <= i < |Contents| ==> Contents[i] == Nodes[i + 1].value)
      && (corrected ==> size == |Contents|)
    }

    /** The node at position j of the ring, position |Nodes| being end(). */
    ghost function At(j: nat): ListNode<T>
      reads this
      requires 1 <= |Nodes| && j <= |Nodes|
    {
      if j < |Nodes| then Nodes[j] else Nodes[0]
    }

    /** The neighbours of the sentinel and of the last node, read off the
        ring. */
    lemma Neighbours()
      requires Valid()
      ensures head.next == At(1) && At(1) in Repr
      ensures 1 < |Nodes| ==> At(1) != head && At(1).next == At(2)
      ensures 1 < |Nodes| ==> Nodes[|Nodes| - 1].prev == Nodes[|Nodes| - 2]
    {
      if 1 < |Nodes| {
        assert Nodes[0].next == Nodes[1];
        if 2 < |Nodes| {
          assert Nodes[1].next == Nodes[2];
        }
        assert Nodes[|Nodes| - 1].prev == Nodes[|Nodes| - 2];
      }
    }

    /** list(): the sentinel alone, and a zero counter. */
    constructor (corrected: bool)
      ensures Valid() && fresh(Repr)
      ensures Contents == [] && size == 0 && this.corrected == corrected
    {
      head := new ListNode.Sentinel();
      size := 0;
      this.corrected := corrected;
      new;
      head.next := head;
      head.prev := head;
      Nodes := [head];
      Contents := [];
      Repr := {this, head};
    }

    /** empty(): the sentinel follows itself exactly when there are no
        elements. */
    function Empty(): (r: bool)
      reads this, Repr
      requires Valid()
      ensures r <==> Contents == []
    {
      Neighbours();
      head.next == head
    }

    /** size(): the counter converted to size_t; corrected, the number of
        elements. */
    function Size(): (r: nat)
      reads this, Repr
      requires Valid()
      ensures IsSizeT(r)
      ensures 0 <= size < SIZE_T_MOD ==> r == size
      ensures corrected && |Contents| < SIZE_T_MOD ==> r == |Contents|
    {
      AsSizeT(size)
    }

    /** front(): the first element; the source asserts the list is not
        empty. */
    function Front(): (r: T)
      reads this, Repr
      requires Valid() && !Empty()
      ensures r == Contents[0]
    {
      Neighbours();
      head.next.value
    }

    /** back(): the last element; the source asserts the list is not
        empty. */
    function Back(): (r: T)
      reads this, Repr
      requires Valid() && !Empty()
      ensures r == Contents[|Contents| - 1]
    {
      head.prev.value
    }

    /** The linking steps of push_back and emplace_back: the node goes
        between the last node and the sentinel, and the counter goes up. */
    method LinkBack(node: ListNode<T>)
      requires Valid() && node !in Repr
      modifies Repr, node
      ensures Valid() && Repr == old(Repr) + {node}
      ensures Nodes == old(Nodes) + [node] && Contents == old(Contents) + [old(node.value)]
      ensures size == old(size) + 1
    {
      head.prev.next := node;
      node.prev := head.prev;
      node.next := head;
      head.prev := node;
      size := size + 1;
      Nodes := Nodes + [node];
      Contents := Contents + [node.value];
      Repr := Repr + {node};
    }

    /** The linking steps of push_front and emplace_front: the node goes
        between the sentinel and the first node, and the counter goes up. */
    method LinkFront(node: ListNode<T>)
      requires Valid() && node !in Repr
      modifies Repr, node
      ensures Valid() && Repr == old(Repr) + {node}
      ensures Nodes == [head, node] + old(Nodes[1..]) && Contents == [old(node.value)] + old(Contents)
      ensures size == old(size) + 1
    {
      Neighbours();
      head.next.prev := node;
      node.next := head.next;
      node.prev := head;
      head.next := node;
      size := size + 1;
      Nodes := [head, node] + Nodes[1..];
      Contents := [node.value] + Contents;
      Repr := Repr + {node};
    }

    /** push_back(v): v becomes the last element. */
    method PushBack(v: T)
      requires Valid()
      modifies Repr
      ensures Valid() && fresh(Repr - old(Repr))
      ensures Contents == old(Contents) + [v] && size == old(size) + 1
    {
      var node := new ListNode.Holding(v);
      LinkBack(node);
    }

    /** push_front(v): v becomes the first element. */
    method PushFront(v: T)
      requires Valid()
      modifies Repr
      ensures Valid() && fresh(Repr - old(Repr))
      ensures Contents == [v] + old(Contents) && size == old(size) + 1
    {
      var node := new ListNode.Holding(v);
      LinkFront(node);
    }

    /** emplace_back(args...): the value T(args...) is constructed in the new
        node, which becomes the last. */
    method EmplaceBack<A>(make: A -> T, args: A)
      requires Valid()
      modifies Repr
      ensures Valid() && fresh(Repr - old(Repr))
      ensures Contents == old(Contents) + [make(args)] && size == old(size) + 1
    {
      var node := new ListNode.Holding(make(args));
      LinkBack(node);
    }

    /** emplace_front(args...): the value T(args...) is constructed in the
        new node, which becomes the first. */
    method EmplaceFront<A>(make: A -> T, args: A)
      requires Valid()
      modifies Repr
      ensures Valid() && fresh(Repr - old(Repr))
      ensures Contents == [make(args)] + old(Contents) && size == old(size) + 1
    {
      var node := new ListNode.Holding(make(args));
      LinkFront(node);
    }

    /** pop_back(): the last node is unlinked and destroyed. Popping an empty
        list would unlink the sentinel, so the list must not be empty. */
    method PopBack()
      requires Valid() && Contents != []
      modifies Repr
      ensures Valid() && Repr == old(Repr)
      ensures Contents == old(Contents[..|Contents| - 1]) && size == old(size) - 1
    {
      Neighbours();
      var tmp := head.prev;
      tmp.prev.next := head;
      head.prev := tmp.prev;
      size := size - 1;
      Nodes := Nodes[..|Nodes| - 1];
      Contents := Contents[..|Contents| - 1];
    }

    /** pop_front(): the first node is unlinked and destroyed. Popping an
        empty list would unlink the sentinel, so the list must not be empty. */
    method PopFront()
      requires Valid() && Contents != []
      modifies Repr
      ensures Valid() && Repr == old(Repr)
      ensures Contents == old(Contents[1..]) && size == old(size) - 1
    {
      Neighbours();
      var tmp := head.next;
      tmp.next.prev := head;
      head.next := tmp.next;
      size := size - 1;
      Nodes := [head] + Nodes[2..];
      Contents := Contents[1..];
    }

    /** erase(pos): unlink the node at position k (not the sentinel), destroy
        it, count one element less and return the node that followed it. */
    method Erase(pos: ListNode<T>, ghost k: nat) returns (ret: ListNode<T>)
      requires Valid() && 1 <= k < |Nodes| && Nodes[k] == pos
      modifies Repr
      ensures Valid() && Repr == old(Repr)
      ensures Nodes == old(Nodes[..k] + Nodes[k + 1..])
      ensures Contents == old(Contents[..k - 1] + Contents[k..])
      ensures ret == At(k) && size == old(size) - 1
    {
      assert pos.prev == Nodes[k - 1] && pos.next == At(k + 1);
      ghost var nodes0, contents0 := Nodes, Contents;
      var tmp := pos;
      tmp.prev.next := tmp.next;
      tmp.next.prev := tmp.prev;
      ret := tmp.next;
      size := size - 1;
      Nodes := Nodes[..k] + Nodes[k + 1..];
      Contents := Contents[..k - 1] + Contents[k..];
      forall x | 1 <= x < |Nodes|
        ensures Nodes[x].prev == Nodes[x - 1]
      {
        if x > k {
          assert Nodes[x] == nodes0[x + 1] && Nodes[x - 1] == nodes0[x];
        } else if x == k {
          assert Nodes[x] == nodes0[k + 1] && Nodes[x - 1] == nodes0[k - 1];
        }
      }
      forall x | 0 <= x < |Nodes| - 1
        ensures Nodes[x].next == Nodes[x + 1]
      {
        if x >= k {
          assert Nodes[x] == nodes0[x + 1] && Nodes[x + 1] == nodes0[x + 2];
        } else if x == k - 1 {
          assert Nodes[x] == nodes0[k - 1] && Nodes[x + 1] == nodes0[k + 1];
        }
      }
      forall x | 0 <= x < |Contents|
        ensures Contents[x] == Nodes[x + 1].value
      {
        if x >= k - 1 {
          assert Contents[x] == contents0[x + 1] && Nodes[x + 1] == nodes0[x + 2];
        }
      }
    }

    /** Two positions of the ring between 1 and end() hold different
        nodes. */
    lemma AtDistinct(a: nat, b: nat)
      requires Valid() && 1 <= a < b <= |Nodes|
      ensures At(a) != At(b)
    {
      if b < |Nodes| {
        assert Nodes[a] != Nodes[b];
      } else {
        assert Nodes[0] != Nodes[a];
      }
    }

    /** _size--, as erase(first, last) does after each erase(pos); the
        corrected list never takes this step, its counter being exact. */
    method CountDown()
      requires Valid() && !corrected
      modifies this
      ensures Valid() && size == old(size) - 1
      ensures Nodes == old(Nodes) && Contents == old(Contents) && Repr == old(Repr)
    {
      size := size - 1;
    }

    /** The invariant of erase(first, last)'s loop over positions [i, j):
        e nodes erased so far, first standing on the next one and last
        e positions nearer, and the counter down by e (2e as written). */
    ghost predicate ErasingRange(f: ListNode<T>, last: ListNode<T>, i: nat, j: nat, e: nat,
                                 nodes0: seq<ListNode<T>>, contents0: seq<T>, size0: int)
      reads this, Repr
    {
      && Valid() && 1 <= i && i + e <= j <= |nodes0| && |contents0| == |nodes0| - 1
      && Nodes == Without(nodes0, i, e) && Contents == Without(contents0, i - 1, e)
      && f == At(i) && last == At(j - e)
      && (f == last <==> e == j - i)
      && size == size0 - (if corrected then 1 else 2) * e
    }

    /** Before the first turn nothing is erased. */
    lemma StartErasing(first: ListNode<T>, last: ListNode<T>, i: nat, j: nat)
      requires Valid() && 1 <= i <= j <= |Nodes| && first == At(i) && last == At(j)
      ensures ErasingRange(first, last, i, j, 0, Nodes, Contents, size)
    {
      WithoutNothing(Nodes, i);
      WithoutNothing(Contents, i - 1);
      if i < j {
        AtDistinct(i, j);
      }
    }

    /** When first reaches last, all of [i, j) is erased. */
    lemma FinishErasing(f: ListNode<T>, last: ListNode<T>, i: nat, j: nat, e: nat,
                        nodes0: seq<ListNode<T>>, contents0: seq<T>, size0: int)
      requires ErasingRange(f, last, i, j, e, nodes0, contents0, size0) && f == last
      ensures Valid() && e == j - i
      ensures Nodes == nodes0[..i] + nodes0[j..] && Contents == contents0[..i - 1] + contents0[j - 1..]
      ensures size == size0 - (if corrected then 1 else 2) * (j - i)
    {
    }

    /** One turn of erase(first, last)'s loop: `first = erase(first)` and,
        as written, `_size--`. */
    method EraseRangeTurn(f: ListNode<T>, last: ListNode<T>, ghost i: nat, ghost j: nat, ghost e: nat,
                          ghost nodes0: seq<ListNode<T>>, ghost contents0: seq<T>, ghost size0: int)
      returns (g: ListNode<T>)
      requires ErasingRange(f, last, i, j, e, nodes0, contents0, size0) && e < j - i
      modifies Repr
      ensures ErasingRange(g, last, i, j, e + 1, nodes0, contents0, size0) && Repr == old(Repr)
    {
      ghost var nodes1, contents1 := Nodes, Contents;
      g := Erase(f, i);
      GapStep(nodes0, nodes1, Nodes, i, e);
      GapStep(contents0, contents1, Contents, i - 1, e);
      ShiftAt(nodes1, Nodes, i, j - e);
      ghost var contents2 := Contents;
      if !corrected {
        CountDown();
      }
      assert Contents == contents2;
      if e + 1 < j - i {
        AtDistinct(i, j - (e + 1));
      }
    }

    /** erase(first, last): erase node by node from position i up to
        position j, and return last. As written the loop decrements the
        counter once more per node, on top of erase(pos)'s own decrement. */
    method EraseRange(first: ListNode<T>, last: ListNode<T>, ghost i: nat, ghost j: nat)
      returns (r: ListNode<T>)
      requires Valid() && 1 <= i <= j <= |Nodes| && first == At(i) && last == At(j)
      modifies Repr
      ensures Valid() && Repr == old(Repr) && r == last
      ensures Nodes == old(Nodes[..i] + Nodes[j..])
      ensures Contents == old(Contents[..i - 1] + Contents[j - 1..])
      ensures size == old(size) - (if corrected then 1 else 2) * (j - i)
    {
      ghost var nodes0, contents0, size0 := Nodes, Contents, size;
      StartErasing(first, last, i, j);
      var f := first;
      ghost var e := 0;
      while f != last
        invariant ErasingRange(f, last, i, j, e, nodes0, contents0, size0) && Repr == old(Repr)
        decreases j - i - e
      {
        f := EraseRangeTurn(f, last, i, j, e, nodes0, contents0, size0);
        e := e + 1;
      }
      FinishErasing(f, last, i, j, e, nodes0, contents0, size0);
      r := last;
    }

    /** clear(): erase every node, then set the counter to zero. */
    method Clear()
      requires Valid()
      modifies Repr
      ensures Valid() && Repr == old(Repr)
      ensures Contents == [] && size == 0
    {
      Neighbours();
      var first: ListNode<T> := head.next;
      while first != head
        invariant Valid() && Repr == old(Repr)
        invariant first == At(1)
        decreases |Nodes|
      {
        first := Erase(first, 1);
      }
      Neighbours();
      size := 0;
    }

    /** iterator + n: n steps along next from the node at position k,
        wrapping through the sentinel; a negative n takes no step. */
    method Advance(it: ListNode<T>, ghost k: nat, n: int) returns (r: ListNode<T>)
      requires Valid() && k < |Nodes| && Nodes[k] == it
      ensures r == Nodes[RingForward(k, n, |Nodes|)]
    {
      r := it;
      ghost var rk := k;
      var i := 0;
      while i < n
        invariant 0 <= i && (i <= n || i == 0)
        invariant rk == RingForward(k, i, |Nodes|) && r == Nodes[rk]
      {
        assert r.next == Nodes[Succ(rk, |Nodes|)];
        r := r.next;
        rk := Succ(rk, |Nodes|);
        i := i + 1;
      }
      if n <= 0 {
        assert RingForward(k, n, |Nodes|) == k == RingForward(k, 0, |Nodes|);
      }
    }

    /** iterator - n: n steps along prev from the node at position k,
        wrapping through the sentinel; a negative n takes no step. */
    method Retreat(it: ListNode<T>, ghost k: nat, n: int) returns (r: ListNode<T>)
      requires Valid() && k < |Nodes| && Nodes[k] == it
      ensures r == Nodes[RingBackward(k, n, |Nodes|)]
    {
      r := it;
      ghost var rk := k;
      var i := 0;
      while i < n
        invariant 0 <= i && (i <= n || i == 0)
        invariant rk == RingBackward(k, i, |Nodes|) && r == Nodes[rk]
      {
        assert r.prev == Nodes[Pred(rk, |Nodes|)];
        r := r.prev;
        rk := Pred(rk, |Nodes|);
        i := i + 1;
      }
      if n <= 0 {
        assert RingBackward(k, n, |Nodes|) == k == RingBackward(k, 0, |Nodes|);
      }
    }

    /** resize(n): erase a range from begin() when n is at most the counter
        converted to size_t (see ResizeSpec). */
    method Resize(n: nat)
      requires Valid() && IsSizeT(n)
      modifies Repr
      ensures Valid() && Repr == old(Repr)
      ensures (Contents, size) == ResizeSpec(old(Contents), old(size), n, corrected)
    {
      if n <= AsSizeT(size) {
        if corrected {
          KeepFront(n);
        } else {
          DropFront(n);
        }
      } else {
        ResizeKeepsAll(Contents, size, n, corrected);
      }
    }

    /** resize's erase as intended: erase(begin() + n, end()). */
    method KeepFront(n: nat)
      requires Valid() && corrected && IsSizeT(n) && n <= AsSizeT(size)
      modifies Repr
      ensures Valid() && Repr == old(Repr)
      ensures (Contents, size) == ResizeSpec(old(Contents), old(size), n, corrected)
    {
      ghost var c0, size0 := Contents, size;
      ghost var kb := if 1 < |Nodes| then 1 else 0;
      Neighbours();
      var begin: ListNode<T> := head.next;
      assert begin == Nodes[kb] == At(1);
      RingForwardNoWrap(kb, n, |Nodes|);
      var first := Advance(begin, kb, n);
      assert first == At(1 + n);
      var _ := EraseRange(first, head, 1 + n, |Nodes|);
      ResizeKeepsFront(c0, size0, n);
      assert Contents == c0[..n] + c0[|c0|..] == c0[..n];
    }

    /** resize's erase as written: erase(begin(), begin() + n), with n
        narrowed to int for the iterator step. */
    method DropFront(n: nat)
      requires Valid() && !corrected && IsSizeT(n) && n <= AsSizeT(size)
      modifies Repr
      ensures Valid() && Repr == old(Repr)
      ensures (Contents, size) == ResizeSpec(old(Contents), old(size), n, corrected)
    {
      ghost var c0, size0 := Contents, size;
      ghost var kb := if 1 < |Nodes| then 1 else 0;
      Neighbours();
      var begin: ListNode<T> := head.next;
      assert begin == Nodes[kb] == At(1);
      var steps: int := IntOfSizeT(n);
      var last := Advance(begin, kb, steps);
      assert kb == (if |c0| == 0 then 0 else 1) && |Nodes| == |c0| + 1;
      ghost var p := RingForward(kb, steps, |Nodes|);
      ghost var j := if p == 0 then |Nodes| else p;
      assert last == At(j);
      ResizeDropsFront(c0, size0, n, p, j);
      var _ := EraseRange(begin, last, 1, j);
      assert Contents == c0[j - 1..] by {
        assert c0[..0] + c0[j - 1..] == c0[j - 1..];
      }
    }
  }

  /** Removing position i of a ring moves every later position one down and
      leaves position 0, the wrap-around of end(), in place. */
  lemma ShiftAt<X>(before: seq<X>, after: seq<X>, i: nat, p: nat)
    requires 1 <= i < p <= |before| && after == before[..i] + before[i + 1..]
    ensures (if p < |before| then before[p] else before[0])
         == (if p - 1 < |after| then after[p - 1] else after[0])
  {
  }

  /** s with the e positions from i on removed. */
  function Without<X>(s: seq<X>, i: nat, e: nat): (r: seq<X>)
    requires i + e <= |s|
    ensures |r| == |s| - e
  {
    s[..i] + s[i + e..]
  }

  /** Removing no position leaves s as it is. */
  lemma WithoutNothing<X>(s: seq<X>, i: nat)
    requires i <= |s|
    ensures Without(s, i, 0) == s
  {
    assert s[..i] + s[i..] == s;
  }

  /** Removing position i from s0 with the e positions from i on already
      removed leaves s0 with e + 1 positions removed from i on. */
  lemma GapStep<X>(s0: seq<X>, s1: seq<X>, s2: seq<X>, i: nat, e: nat)
    requires i + e < |s0| && s1 == Without(s0, i, e) && s2 == s1[..i] + s1[i + 1..]
    ensures s2 == Without(s0, i, e + 1)
  {
    assert s1[i + 1..] == s0[i + e + 1..];
  }
}
