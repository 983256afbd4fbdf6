/** The B+ tree of my_B+Tree.h: keys live in the leaves, which are chained
    by `next` from `first_leaf`; internal nodes hold copies of separator
    keys. Insertion goes down to a leaf by lower bound, splits a full leaf
    and pushes the first key of the new leaf up, splitting internal nodes
    as they fill and growing a new root at the top.

    Nodes live in a heap `map<Addr, BPNode>` of the tree (address 0 is
    nullptr, `new Node` takes the next unused address `top`), with their
    real `next` and `parent` pointers. Ghost bookkeeping gives each node its
    height and its child slot in its parent, and lists the leaves in chain
    order. */
module BPlusTreeModel {
  import opened NodeArrays

  type Addr = nat

  datatype BPNode = BPNode(isLeaf: bool, keyCount: int, keys: seq<int>, children: seq<Addr>, next: Addr, parent: Addr)

  /** new Node(isLeaf): order - 1 key slots, and for an internal node
      order null child slots; no next leaf and no parent. */
  function NewNode(isLeaf: bool, order: nat): (r: BPNode)
    requires 1 <= order
    ensures r.isLeaf == isLeaf && r.keyCount == 0 && |r.keys| == order - 1
    ensures r.next == 0 && r.parent == 0
    ensures r.isLeaf ==> r.children == []
    ensures !r.isLeaf ==> |r.children| == order && forall j :: 0 <= j < order ==> r.children[j] == 0
  {
    BPNode(isLeaf, 0, seq(order - 1, _ => 0), if isLeaf then [] else seq(order, _ => 0), 0, 0)
  }

  /** The live keys of a node. */
  function Live(n: BPNode): multiset<int>
  {
    if 0 <= n.keyCount <= |n.keys| then multiset(n.keys[..n.keyCount]) else multiset{}
  }

  /** find_insert_position(key): std::lower_bound over the live keys. Every
      live key before the answer is below key, and the key at it, if live,
      is not. */
  function FindInsertPosition(n: BPNode, key: int): (r: nat)
    requires 0 <= n.keyCount <= |n.keys|
    ensures r <= n.keyCount
    ensures forall k :: 0 <= k < r ==> n.keys[k] < key
    ensures r < n.keyCount ==> key <= n.keys[r]
  {
    var s := n.keys[..n.keyCount];
    var r := LowerBound(s, key);
    assert forall k :: 0 <= k < r ==> s[k] == n.keys[k];
    r
  }

  /** insert_into_leaf(key): key goes to its lower-bound slot, the live
      keys from there move up one slot, and key_count grows by one. */
  function LeafInserted(n: BPNode, key: int): (r: BPNode)
    requires 0 <= n.keyCount < |n.keys|
    ensures r.keyCount == n.keyCount + 1 && |r.keys| == |n.keys|
    ensures r.isLeaf == n.isLeaf && r.children == n.children && r.next == n.next && r.parent == n.parent
  {
    n.(keys := ShiftInsert(n.keys, FindInsertPosition(n, key), n.keyCount, key), keyCount := n.keyCount + 1)
  }

  /** insert_into_leaf keeps the live keys sorted, adds exactly key to
      them, and leaves them inside any range that held both the old keys
      and key. */
  lemma LeafInsertedKeys(n: BPNode, key: int)
    requires 0 <= n.keyCount < |n.keys| && Sorted(n.keys[..n.keyCount])
    ensures Sorted(LeafInserted(n, key).keys[..n.keyCount + 1])
    ensures Live(LeafInserted(n, key)) == Live(n) + multiset{key}
    ensures key in LeafInserted(n, key).keys[..n.keyCount + 1]
  {
    var s := n.keys[..n.keyCount];
    var pos := FindInsertPosition(n, key);
    LowerBoundCounts(s, key);
    forall k | pos <= k < n.keyCount
      ensures key <= n.keys[k]
    {
      assert s[k] == n.keys[k];
    }
    ShiftInsertMultiset(n.keys, pos, n.keyCount, key);
    ShiftInsertSorted(n.keys, pos, n.keyCount, key);
    ShiftInsertAt(n.keys, pos, n.keyCount, key);
    assert LeafInserted(n, key).keys[..n.keyCount + 1][pos] == key;
  }

  /** split_leaf's split point: the leaf keeps order / 2 keys. */
  function LeafSplitIndex(order: nat): (r: nat)
    requires 3 <= order
    ensures 1 <= r < order - 1 && 1 <= order - 1 - r < order - 1
  {
    order / 2
  }

  /** split_leaf's old leaf before key goes in: its first order / 2 keys
      stay, and it is now followed by the new leaf. */
  function LeafLeft(order: nat, n: BPNode, newLeaf: Addr): (r: BPNode)
    requires 3 <= order && |n.keys| == order - 1
  {
    n.(keyCount := LeafSplitIndex(order), next := newLeaf)
  }

  /** split_leaf's new leaf before key goes in: the other
      order - 1 - order / 2 keys, the old leaf's successor and its
      parent. */
  function LeafRight(order: nat, n: BPNode): (r: BPNode)
    requires 3 <= order && |n.keys| == order - 1
  {
    var si := LeafSplitIndex(order);
    var cnt := order - 1 - si;
    var blank := NewNode(true, order);
    blank.(keyCount := cnt, keys := n.keys[si..] + blank.keys[cnt..], next := n.next, parent := n.parent)
  }

  /** The leaf halves: together they hold the full leaf's keys, both stay
      sorted, every key of the left half is at most every key of the
      right half, and both have room for key. */
  lemma LeafHalves(order: nat, n: BPNode, newLeaf: Addr)
    requires 3 <= order && |n.keys| == order - 1 && n.keyCount == order - 1 && Sorted(n.keys[..n.keyCount])
    ensures var l, r := LeafLeft(order, n, newLeaf), LeafRight(order, n);
      && l.keyCount == LeafSplitIndex(order) && r.keyCount == order - 1 - LeafSplitIndex(order)
      && l.keyCount < order - 1 && r.keyCount < order - 1
      && |l.keys| == order - 1 && |r.keys| == order - 1
      && Live(n) == Live(l) + Live(r)
      && Sorted(l.keys[..l.keyCount]) && Sorted(r.keys[..r.keyCount])
      && l.keys[..l.keyCount] == n.keys[..LeafSplitIndex(order)]
      && r.keys[..r.keyCount] == n.keys[LeafSplitIndex(order)..]
      && (forall i, j :: 0 <= i < l.keyCount && 0 <= j < r.keyCount ==> l.keys[i] <= r.keys[j])
  {
    var si := LeafSplitIndex(order);
    var l, r := LeafLeft(order, n, newLeaf), LeafRight(order, n);
    var all := n.keys[..n.keyCount];
    assert all == n.keys;
    assert l.keys[..l.keyCount] == all[..si];
    assert r.keys[..r.keyCount] == all[si..];
    assert all == all[..si] + all[si..];
    SortedSplit(all, si);
  }

  /** Both parts of a sorted sequence cut at k are sorted, and every
      element before the cut is at most every element after it. */
  lemma SortedSplit(s: seq<int>, k: nat)
    requires Sorted(s) && k <= |s|
    ensures Sorted(s[..k]) && Sorted(s[k..])
    ensures forall i, j :: 0 <= i < k && 0 <= j < |s| - k ==> s[..k][i] <= s[k..][j]
  {
    forall i, j | 0 <= i < k && 0 <= j < |s| - k
      ensures s[..k][i] <= s[k..][j]
    {
      assert s[..k][i] == s[i] && s[k..][j] == s[k + j];
    }
  }

  /** insert_into_parent's step at the parent: key goes to key slot pos
      and the new child to child slot pos + 1, the later keys and children
      moving up one slot. */
  function ParentInserted(n: BPNode, pos: nat, key: int, child: Addr): (r: BPNode)
    requires pos <= n.keyCount < |n.keys| && n.keyCount + 1 < |n.children|
  {
    n.(keyCount := n.keyCount + 1,
       keys := ShiftInsert(n.keys, pos, n.keyCount, key),
       children := ShiftInsert(n.children, pos + 1, n.keyCount + 1, child))
  }

  /** The parent after insertion: one more key, key at slot pos, the new
      child right after the child at slot pos, everything before them in
      place and everything after them one slot up. */
  lemma ParentInsertedPlaces(n: BPNode, pos: nat, key: int, child: Addr)
    requires pos <= n.keyCount < |n.keys| && n.keyCount + 1 < |n.children|
    ensures var r := ParentInserted(n, pos, key, child);
      && r.keyCount == n.keyCount + 1 && |r.keys| == |n.keys| && |r.children| == |n.children|
      && r.keys[pos] == key && r.children[pos + 1] == child
      && (forall k :: 0 <= k < pos ==> r.keys[k] == n.keys[k])
      && (forall k :: pos < k <= n.keyCount ==> r.keys[k] == n.keys[k - 1])
      && (forall j :: 0 <= j <= pos ==> r.children[j] == n.children[j])
      && (forall j :: pos + 1 < j <= n.keyCount + 1 ==> r.children[j] == n.children[j - 1])
      && Live(r) == Live(n) + multiset{key}
  {
    ShiftInsertAt(n.keys, pos, n.keyCount, key);
    ShiftInsertAt(n.children, pos + 1, n.keyCount + 1, child);
    ShiftInsertMultiset(n.keys, pos, n.keyCount, key);
  }

  /** The position insert_into_parent gives the new sibling of the child
      at slot `slot`, as written: the lower bound of the promoted key. */
  function AsWrittenPosition(n: BPNode, slot: nat, key: int): (r: nat)
    requires 0 <= n.keyCount <= |n.keys|
    ensures r <= n.keyCount
  {
    FindInsertPosition(n, key)
  }

  /** The position it evidently intends: right after the child that was
      split, wherever equal keys sit. */
  function IntendedPosition(n: BPNode, slot: nat, key: int): (r: nat)
    requires 0 <= n.keyCount <= |n.keys| && slot <= n.keyCount
    ensures r <= n.keyCount
  {
    slot
  }

  /** With the intended position the split child keeps its slot and its
      new sibling comes right after it, whatever the keys. */
  lemma IntendedKeepsSiblingsAdjacent(n: BPNode, slot: nat, key: int, child: Addr)
    requires slot <= n.keyCount < |n.keys| && n.keyCount + 1 < |n.children|
    ensures var r := ParentInserted(n, IntendedPosition(n, slot, key), key, child);
      r.children[slot] == n.children[slot] && r.children[slot + 1] == child
  {
    ParentInsertedPlaces(n, slot, key, child);
  }

  /** The lower bound lands on the intended slot exactly when the key
      before the split child is below the promoted key and the key after
      it is not: always so for distinct keys. */
  lemma AsWrittenAgreesWhenDistinct(n: BPNode, slot: nat, key: int)
    requires 0 <= n.keyCount <= |n.keys| && slot <= n.keyCount && Sorted(n.keys[..n.keyCount])
    requires 0 < slot ==> n.keys[slot - 1] < key
    requires slot < n.keyCount ==> key <= n.keys[slot]
    ensures AsWrittenPosition(n, slot, key) == IntendedPosition(n, slot, key)
  {
  }

  /** The duplicate-key case as written: with the separator 5 in the
      parent and a split of its second child promoting 5 again, the lower
      bound is slot 0, so the new sibling lands in slot 1, before the child
      it was split from, which moves to slot 2 - the children no longer
      follow the leaf chain. */
  lemma AsWrittenMisplacesSibling()
    ensures var parent := BPNode(false, 1, [5, 0], [11, 12, 0], 0, 0);
      var r := ParentInserted(parent, AsWrittenPosition(parent, 1, 5), 5, 13);
      r.children == [11, 13, 12] && AsWrittenPosition(parent, 1, 5) != IntendedPosition(parent, 1, 5)
  {
    var parent := BPNode(false, 1, [5, 0], [11, 12, 0], 0, 0);
    assert parent.keys[..1] == [5];
    assert LowerBound([5], 5) == 0;
    var r := ParentInserted(parent, 0, 5, 13);
    assert r.children == [11] + [13] + [12] + [];
  }

  /** split_internal's split point: the node keeps (order - 1) / 2 keys
      and the key after them is promoted. */
  function InternalSplitIndex(order: nat): (r: nat)
    requires 3 <= order
    ensures 1 <= r < order - 1 && r + 1 + (order - 1 - r - 1) == order - 1
  {
    (order - 1) / 2
  }

  /** split_internal's old node: its first (order - 1) / 2 keys and the
      children up to the median stay, the moved child slots are nulled. */
  function InternalLeft(order: nat, n: BPNode): (r: BPNode)
    requires 3 <= order && |n.keys| == order - 1 && |n.children| == order
  {
    var si := InternalSplitIndex(order);
    n.(keyCount := si, children := n.children[..si + 1] + seq(order - si - 1, _ => 0))
  }

  /** split_internal's new node: the keys after the median and the
      children after it, and the old node's parent. */
  function InternalRight(order: nat, n: BPNode): (r: BPNode)
    requires 3 <= order && |n.keys| == order - 1 && |n.children| == order
  {
    var si := InternalSplitIndex(order);
    var cnt := order - 1 - si - 1;
    var blank := NewNode(false, order);
    blank.(keyCount := cnt, keys := n.keys[si + 1..] + blank.keys[cnt..],
           children := n.children[si + 1..] + blank.children[cnt + 1..], parent := n.parent)
  }

  /** The internal halves: the node keeps (order - 1) / 2 keys and the
      children up to the median, the new node gets the keys after the
      median and every child after it, the median is the key promoted,
      and together with it the halves hold the full node's keys. */
  lemma InternalHalves(order: nat, n: BPNode)
    requires 3 <= order && |n.keys| == order - 1 && |n.children| == order && n.keyCount == order - 1
    ensures var si := InternalSplitIndex(order); var cnt := order - 1 - si - 1;
      var l, r := InternalLeft(order, n), InternalRight(order, n);
      && l.keyCount == si && r.keyCount == cnt && |r.keys| == order - 1 && |r.children| == order
      && l.keys[..si] == n.keys[..si] && r.keys[..cnt] == n.keys[si + 1..]
      && l.children[..si + 1] == n.children[..si + 1] && r.children[..cnt + 1] == n.children[si + 1..]
      && (forall j :: si < j < order ==> l.children[j] == 0)
      && Live(n) == Live(l) + multiset{n.keys[si]} + Live(r)
  {
    var si := InternalSplitIndex(order);
    assert n.keys[..n.keyCount] == n.keys[..si] + [n.keys[si]] + n.keys[si + 1..];
    var l, r := InternalLeft(order, n), InternalRight(order, n);
    assert r.keys[..order - 1 - si - 1] == n.keys[si + 1..];
    assert l.keys[..si] == n.keys[..n.keyCount][..si];
    assert r.keys[..order - 1 - si - 1] == n.keys[..n.keyCount][si + 1..];
  }

  /** create_new_root(left, right, key): an internal node with the one key
      and the two children. */
  function NewRoot(order: nat, left: Addr, right: Addr, key: int): (r: BPNode)
    requires 3 <= order
  {
    var blank := NewNode(false, order);
    blank.(keyCount := 1, keys := blank.keys[0 := key], children := blank.children[0 := left][1 := right])
  }

  /** What a node keeps to by itself at height h: vector sizes, at most
      order - 1 live keys, leaves exactly at height 0, sorted live keys in a
      leaf and no repeated live child in an internal node. */
  ghost predicate NodeOk(order: nat, n: BPNode, h: nat)
  {
    && |n.keys| == order - 1 && 0 <= n.keyCount <= order - 1
    && (n.isLeaf <==> h == 0)
    && (if n.isLeaf then n.children == [] && Sorted(n.keys[..n.keyCount])
        else |n.children| == order && Distinct(n.children[..n.keyCount + 1]))
  }

  /** Live child j of internal node a (record n, height h) is a node other
      than the root and the detached node, one level down, whose parent
      pointer is a. */
  ghost predicate LinkOk(n: BPNode, h: nat, a: Addr, j: nat, heap: map<Addr, BPNode>, height: map<Addr, nat>,
                         root: Addr, detached: Addr)
  {
    && j <= n.keyCount && j < |n.children| && 1 <= h
    && n.children[j] in heap && n.children[j] in height
    && n.children[j] != root && n.children[j] != detached
    && heap[n.children[j]].parent == a
    && height[n.children[j]] == h - 1
  }

  /** A node a (record n) other than the root and the detached node is a
      live child of the internal node its parent pointer names. */
  ghost predicate UpOk(n: BPNode, a: Addr, heap: map<Addr, BPNode>)
  {
    && n.parent in heap && !heap[n.parent].isLeaf
    && 0 <= heap[n.parent].keyCount < |heap[n.parent].children|
    && a in heap[n.parent].children[..heap[n.parent].keyCount + 1]
  }

  /** Every node has an address below top, a height, and keeps NodeOk. */
  ghost predicate NodesOk(order: nat, top: Addr, heap: map<Addr, BPNode>, height: map<Addr, nat>)
  {
    forall a :: a in heap ==> 0 < a < top && a in height && NodeOk(order, heap[a], height[a])
  }

  /** Every internal node but `full` has room for one more key. */
  ghost predicate RoomOk(order: nat, heap: map<Addr, BPNode>, full: Addr)
  {
    forall a :: a in heap && !heap[a].isLeaf && a != full ==> heap[a].keyCount < order - 1
  }

  /** Every live child slot keeps LinkOk. */
  ghost predicate LinksOk(heap: map<Addr, BPNode>, height: map<Addr, nat>, root: Addr, detached: Addr)
  {
    forall a, j: nat :: a in heap && a in height && !heap[a].isLeaf && j <= heap[a].keyCount ==>
      LinkOk(heap[a], height[a], a, j, heap, height, root, detached)
  }

  /** Every node but the root and the detached one keeps UpOk. */
  ghost predicate UpsOk(heap: map<Addr, BPNode>, root: Addr, detached: Addr)
  {
    forall a {:trigger UpOk(heap[a], a, heap)} :: a in heap && a != root && a != detached ==> UpOk(heap[a], a, heap)
  }

  /** The root has no parent and is the highest node, an empty tree has no
      nodes, and the detached node is a node other than the root. */
  ghost predicate RootOk(heap: map<Addr, BPNode>, height: map<Addr, nat>, root: Addr, detached: Addr)
  {
    && (root == 0 ==> heap == map[])
    && (root != 0 ==> root in heap && root in height && heap[root].parent == 0
                      && forall a :: a in heap && a in height ==> height[a] <= height[root])
    && (detached != 0 ==> detached in heap && detached != root)
  }

  /** The tree invariant, with at most one node `detached` (a new node
      split off and not yet hung into its parent) and at most one internal
      node `full` (a parent that has just taken its last key and is about
      to be split). Every node keeps NodeOk; every other internal node has
      room for one more key; child slots and parent pointers agree both
      ways; the root has no parent and is the highest node; an empty tree
      has no nodes. */
  ghost predicate TreeOk(order: nat, root: Addr, top: Addr, heap: map<Addr, BPNode>, height: map<Addr, nat>,
                         detached: Addr, full: Addr)
  {
    && 3 <= order && 0 < top
    && NodesOk(order, top, heap, height)
    && RoomOk(order, heap, full)
    && LinksOk(heap, height, root, detached)
    && UpsOk(heap, root, detached)
    && RootOk(heap, height, root, detached)
  }

  /** The root is the one node (besides a detached one) without a parent. */
  lemma OnlyRootParentless(order: nat, root: Addr, top: Addr, heap: map<Addr, BPNode>, height: map<Addr, nat>,
                           detached: Addr, full: Addr, a: Addr)
    requires TreeOk(order, root, top, heap, height, detached, full)
    requires a in heap && a != detached
    ensures heap[a].parent == 0 <==> a == root
  {
    if a != root {
      assert UpOk(heap[a], a, heap);
    }
  }

  /** A leaf lies below the next free address, at height 0, with a full
      key vector. */
  lemma LeafBelowTop(order: nat, root: Addr, top: Addr, heap: map<Addr, BPNode>, height: map<Addr, nat>, leaf: Addr)
    requires TreeOk(order, root, top, heap, height, 0, 0) && leaf in heap && heap[leaf].isLeaf
    ensures 0 < leaf < top && top !in heap && leaf in height && height[leaf] == 0
    ensures |heap[leaf].keys| == order - 1 && heap[leaf].keyCount <= order - 1
  {
    assert NodeOk(order, heap[leaf], height[leaf]);
  }

  /** A node hanging from a parent sits one level below it. */
  lemma ParentAbove(order: nat, root: Addr, top: Addr, heap: map<Addr, BPNode>, height: map<Addr, nat>,
                    detached: Addr, full: Addr, a: Addr)
    requires TreeOk(order, root, top, heap, height, detached, full)
    requires a in heap && a != root && a != detached
    ensures heap[a].parent in heap && heap[a].parent in height && a in height
    ensures height[a] + 1 == height[heap[a].parent] && !heap[heap[a].parent].isLeaf
  {
    var q := heap[a].parent;
    assert UpOk(heap[a], a, heap);
    var j :| 0 <= j <= heap[q].keyCount && heap[q].children[..heap[q].keyCount + 1][j] == a;
    assert LinkOk(heap[q], height[q], q, j, heap, height, root, detached);
  }

  /** The successor of slot k of the chain: the next leaf, or nullptr
      after the last. */
  function NextIn(leaves: seq<Addr>, k: nat): Addr
    requires k < |leaves|
  {
    if k + 1 < |leaves| then leaves[k + 1] else 0
  }

  /** The leaf chain: following `next` from first_leaf visits exactly the
      leaves, each once, in the order `leaves` lists them. */
  ghost predicate ChainOk(heap: map<Addr, BPNode>, firstLeaf: Addr, leaves: seq<Addr>)
  {
    && (forall k :: 0 <= k < |leaves| ==> leaves[k] in heap && heap[leaves[k]].isLeaf)
    && (forall k {:trigger NextIn(leaves, k)} :: 0 <= k < |leaves| ==> leaves[k] in heap && heap[leaves[k]].next == NextIn(leaves, k))
    && (forall a :: a in heap && heap[a].isLeaf ==> a in leaves)
    && Distinct(leaves)
    && firstLeaf == (if leaves == [] then 0 else leaves[0])
  }

  /** The leaf list with y hung in after slot k. */
  function HungAfter(leaves: seq<Addr>, k: nat, y: Addr): (r: seq<Addr>)
    requires k < |leaves|
    ensures |r| == |leaves| + 1 && r[k + 1] == y
    ensures forall i :: 0 <= i <= k ==> r[i] == leaves[i]
    ensures forall i :: k + 1 < i < |r| ==> r[i] == leaves[i - 1]
  {
    leaves[..k + 1] + [y] + leaves[k + 1..]
  }

  /** split_leaf hangs the new leaf y into the chain right after the leaf
      it was split from. */
  lemma ChainSplit(heap: map<Addr, BPNode>, firstLeaf: Addr, leaves: seq<Addr>, k: nat, y: Addr, l: BPNode, r: BPNode)
    requires ChainOk(heap, firstLeaf, leaves) && k < |leaves| && y !in heap
    requires l.isLeaf && l.next == y && r.isLeaf && r.next == heap[leaves[k]].next
    ensures ChainOk(heap[y := r][leaves[k] := l], firstLeaf, HungAfter(leaves, k, y))
  {
    ChainSplitNext(heap, firstLeaf, leaves, k, y, l, r);
    ChainSplitDistinct(heap, firstLeaf, leaves, k, y);
    ChainSplitCovers(heap, firstLeaf, leaves, k, y, l, r);
  }

  lemma ChainSplitNext(heap: map<Addr, BPNode>, firstLeaf: Addr, leaves: seq<Addr>, k: nat, y: Addr, l: BPNode, r: BPNode)
    requires ChainOk(heap, firstLeaf, leaves) && k < |leaves| && y !in heap
    requires l.isLeaf && l.next == y && r.isLeaf && r.next == heap[leaves[k]].next
    ensures var h1, ls := heap[y := r][leaves[k] := l], HungAfter(leaves, k, y);
      forall i :: 0 <= i < |ls| ==> ls[i] in h1 && h1[ls[i]].isLeaf && h1[ls[i]].next == NextIn(ls, i)
  {
    var h1, ls := heap[y := r][leaves[k] := l], HungAfter(leaves, k, y);
    forall i | 0 <= i < |ls|
      ensures ls[i] in h1 && h1[ls[i]].isLeaf && h1[ls[i]].next == NextIn(ls, i)
    {
      if i < k {
        assert leaves[i] != leaves[k];
        assert leaves[i] in heap && leaves[i] != y;
        assert heap[leaves[i]].next == NextIn(leaves, i);
      } else if i == k + 1 {
        assert heap[leaves[k]].next == NextIn(leaves, k);
      } else if i > k + 1 {
        assert leaves[i - 1] != leaves[k];
        assert leaves[i - 1] in heap && leaves[i - 1] != y;
        assert heap[leaves[i - 1]].next == NextIn(leaves, i - 1);
      }
    }
  }

  lemma ChainSplitDistinct(heap: map<Addr, BPNode>, firstLeaf: Addr, leaves: seq<Addr>, k: nat, y: Addr)
    requires ChainOk(heap, firstLeaf, leaves) && k < |leaves| && y !in heap
    ensures Distinct(HungAfter(leaves, k, y))
  {
    var ls := HungAfter(leaves, k, y);
    forall i, j | 0 <= i < j < |ls|
      ensures ls[i] != ls[j]
    {
      var i' := if i <= k then i else i - 1;
      var j' := if j <= k then j else j - 1;
      if i == k + 1 {
        assert leaves[j'] in heap;
      } else if j == k + 1 {
        assert leaves[i'] in heap;
      } else {
        assert ls[i] == leaves[i'] && ls[j] == leaves[j'];
      }
    }
  }

  lemma ChainSplitCovers(heap: map<Addr, BPNode>, firstLeaf: Addr, leaves: seq<Addr>, k: nat, y: Addr, l: BPNode, r: BPNode)
    requires ChainOk(heap, firstLeaf, leaves) && k < |leaves| && y !in heap
    ensures var h1, ls := heap[y := r][leaves[k] := l], HungAfter(leaves, k, y);
      forall a :: a in h1 && h1[a].isLeaf ==> a in ls
  {
    var h1, ls := heap[y := r][leaves[k] := l], HungAfter(leaves, k, y);
    forall a | a in h1 && h1[a].isLeaf
      ensures a in ls
    {
      if a == y {
        assert ls[k + 1] == y;
      } else if a == leaves[k] {
        assert ls[k] == a;
      } else {
        assert a in heap && heap[a].isLeaf;
        var i :| 0 <= i < |leaves| && leaves[i] == a;
        assert ls[if i <= k then i else i + 1] == a;
      }
    }
  }

  /** Rewriting a leaf's keys or count, with the same successor, keeps the
      chain. */
  lemma ChainSwap(heap: map<Addr, BPNode>, firstLeaf: Addr, leaves: seq<Addr>, a: Addr, m: BPNode)
    requires ChainOk(heap, firstLeaf, leaves) && a in heap && heap[a].isLeaf && m.isLeaf && m.next == heap[a].next
    ensures ChainOk(heap[a := m], firstLeaf, leaves)
  {
  }

  /** The steps above the leaves change a leaf at most in its parent
      pointer, keep every node's kind, and allocate only internal nodes. */
  ghost predicate LeavesKept(h0: map<Addr, BPNode>, h1: map<Addr, BPNode>)
  {
    && (forall a :: a in h0 ==> a in h1 && h1[a].isLeaf == h0[a].isLeaf)
    && (forall a :: a in h0 && h0[a].isLeaf ==> h1[a] == h0[a].(parent := h1[a].parent))
    && (forall a :: a in h1 && a !in h0 ==> !h1[a].isLeaf)
  }

  /** Two such steps in a row are one such step. */
  lemma LeavesKeptTrans(h0: map<Addr, BPNode>, h1: map<Addr, BPNode>, h2: map<Addr, BPNode>)
    requires LeavesKept(h0, h1) && LeavesKept(h1, h2)
    ensures LeavesKept(h0, h2)
  {
    forall a | a in h0 && h0[a].isLeaf
      ensures h2[a] == h0[a].(parent := h2[a].parent)
    {
      assert h1[a] == h0[a].(parent := h1[a].parent);
    }
  }

  /** The chain only looks at leaves, so steps that keep the leaves keep
      it. */
  lemma ChainKept(h0: map<Addr, BPNode>, h1: map<Addr, BPNode>, firstLeaf: Addr, leaves: seq<Addr>)
    requires ChainOk(h0, firstLeaf, leaves) && LeavesKept(h0, h1)
    ensures ChainOk(h1, firstLeaf, leaves)
  {
    forall k | 0 <= k < |leaves|
      ensures leaves[k] in h1 && h1[leaves[k]].isLeaf && h1[leaves[k]].next == NextIn(leaves, k)
    {
      assert h1[leaves[k]] == h0[leaves[k]].(parent := h1[leaves[k]].parent);
    }
  }

  /** How often v is a key of the leaf at address a; 0 for an internal
      node or no node. */
  function CountAt(heap: map<Addr, BPNode>, a: Addr, v: int): nat
  {
    if a in heap && heap[a].isLeaf then Live(heap[a])[v] else 0
  }

  /** How often v is a key of the leaves at addresses below bound. Nodes
      are never freed, so with bound = top this counts v over all leaves,
      which are where a B+ tree keeps its keys. */
  ghost function LeafCount(heap: map<Addr, BPNode>, bound: nat, v: int): nat
  {
    if bound == 0 then 0 else LeafCount(heap, bound - 1, v) + CountAt(heap, bound - 1, v)
  }

  /** Counts below bound depend only on the leaves below bound. */
  lemma {:induction false} LeafCountSame(h0: map<Addr, BPNode>, h1: map<Addr, BPNode>, bound: nat, v: int)
    requires forall a :: 0 <= a < bound ==> CountAt(h1, a, v) == CountAt(h0, a, v)
    ensures LeafCount(h1, bound, v) == LeafCount(h0, bound, v)
  {
    if bound != 0 {
      LeafCountSame(h0, h1, bound - 1, v);
    }
  }

  /** Addresses from lo up that hold no v add nothing to the count. */
  lemma {:induction false} LeafCountAbove(heap: map<Addr, BPNode>, lo: nat, bound: nat, v: int)
    requires lo <= bound && forall a :: lo <= a < bound ==> CountAt(heap, a, v) == 0
    ensures LeafCount(heap, bound, v) == LeafCount(heap, lo, v)
  {
    if bound != lo {
      LeafCountAbove(heap, lo, bound - 1, v);
    }
  }

  /** Replacing the node at a below bound trades its occurrences of v for
      the new node's. */
  lemma {:induction false} LeafCountUpdate(heap: map<Addr, BPNode>, bound: nat, a: Addr, n: BPNode, v: int)
    requires a < bound
    ensures LeafCount(heap[a := n], bound, v) + CountAt(heap, a, v) == LeafCount(heap, bound, v) + CountAt(heap[a := n], a, v)
  {
    if a == bound - 1 {
      LeafCountSame(heap, heap[a := n], bound - 1, v);
    } else {
      LeafCountUpdate(heap, bound - 1, a, n, v);
    }
  }

  /** Steps that keep the leaves keep every count, however many internal
      nodes they allocate. */
  lemma LeavesKeptCounts(h0: map<Addr, BPNode>, top0: nat, h1: map<Addr, BPNode>, top1: nat, v: int)
    requires LeavesKept(h0, h1) && top0 <= top1 && forall a :: a in h0 ==> a < top0
    ensures LeafCount(h1, top1, v) == LeafCount(h0, top0, v)
  {
    forall a | 0 <= a < top1
      ensures CountAt(h1, a, v) == CountAt(h0, a, v)
    {
      if a in h0 && h0[a].isLeaf {
        assert h1[a] == h0[a].(parent := h1[a].parent);
      }
    }
    LeafCountSame(h0, h1, top1, v);
    LeafCountAbove(h0, top0, top1, v);
  }

  /** insert_into_leaf adds exactly one occurrence of key. */
  lemma LeafInsertCounts(heap: map<Addr, BPNode>, top: Addr, a: Addr, key: int, v: int)
    requires a in heap && a < top && heap[a].isLeaf && 0 <= heap[a].keyCount < |heap[a].keys|
    requires Sorted(heap[a].keys[..heap[a].keyCount])
    ensures LeafCount(heap[a := LeafInserted(heap[a], key)], top, v) == LeafCount(heap, top, v) + (if v == key then 1 else 0)
  {
    LeafInsertedKeys(heap[a], key);
    LeafCountUpdate(heap, top, a, LeafInserted(heap[a], key), v);
  }

  /** The heap after split_leaf's writes: the new leaf y holds the upper
      keys and the old leaf's successor, and the old leaf keeps the lower
      keys and is followed by y. */
  function LeafSplitHeap(order: nat, heap: map<Addr, BPNode>, leaf: Addr, y: Addr): map<Addr, BPNode>
    requires 3 <= order && leaf in heap && |heap[leaf].keys| == order - 1
  {
    heap[y := LeafRight(order, heap[leaf])][leaf := LeafLeft(order, heap[leaf], y)]
  }

  /** Splitting a leaf into a fresh address keeps every count. */
  lemma LeafSplitCounts(order: nat, heap: map<Addr, BPNode>, top: Addr, leaf: Addr, v: int)
    requires 3 <= order && forall a :: a in heap ==> a < top
    requires leaf in heap && heap[leaf].isLeaf && |heap[leaf].keys| == order - 1 && heap[leaf].keyCount == order - 1
    requires Sorted(heap[leaf].keys[..heap[leaf].keyCount])
    ensures LeafCount(LeafSplitHeap(order, heap, leaf, top), top + 1, v) == LeafCount(heap, top, v)
  {
    var n := heap[leaf];
    LeafHalves(order, n, top);
    var h0 := heap[top := LeafRight(order, n)];
    LeafCountSame(heap, h0, top, v);
    LeafCountUpdate(h0, top, leaf, LeafLeft(order, n, top), v);
    assert Live(n)[v] == Live(LeafLeft(order, n, top))[v] + Live(LeafRight(order, n))[v];
  }

  /** A tree of one empty leaf, the first node of an empty tree. */
  lemma PlantKeepsTree(order: nat, top: Addr, height: map<Addr, nat>)
    requires 3 <= order && 0 < top
    ensures TreeOk(order, top, top + 1, map[top := NewNode(true, order)], height[top := 0], 0, 0)
    ensures ChainOk(map[top := NewNode(true, order)], top, [top])
  {
  }

  /** The one empty leaf holds no key, nor does the empty heap. */
  lemma PlantCounts(order: nat, top: Addr, bound: nat, v: int)
    requires 3 <= order
    ensures LeafCount(map[top := NewNode(true, order)], top + 1, v) == 0
    ensures LeafCount(map[], bound, v) == 0
  {
    var h := map[top := NewNode(true, order)];
    assert NewNode(true, order).keys[..0] == [];
    LeafCountAbove(h, 0, top, v);
    LeafCountAbove(map[], 0, bound, v);
  }

  /** insert_into_leaf keeps the tree invariant, whatever node is
      detached or full. */
  lemma LeafInsertKeepsTree(order: nat, root: Addr, top: Addr, heap: map<Addr, BPNode>, height: map<Addr, nat>,
                            detached: Addr, full: Addr, a: Addr, key: int)
    requires TreeOk(order, root, top, heap, height, detached, full)
    requires a in heap && heap[a].isLeaf && heap[a].keyCount < order - 1
    ensures TreeOk(order, root, top, heap[a := LeafInserted(heap[a], key)], height, detached, full)
  {
    LeafInsertedKeys(heap[a], key);
    LeafSwapKeepsTree(order, root, top, heap, height, detached, full, a, LeafInserted(heap[a], key));
  }

  /** Rewriting a leaf's keys, count or successor, keeping it a leaf with
      the same parent, keeps the tree invariant when the new record keeps
      NodeOk. */
  lemma LeafSwapKeepsTree(order: nat, root: Addr, top: Addr, heap: map<Addr, BPNode>, height: map<Addr, nat>,
                          detached: Addr, full: Addr, a: Addr, m: BPNode)
    requires TreeOk(order, root, top, heap, height, detached, full)
    requires a in heap && heap[a].isLeaf && m.isLeaf && m.parent == heap[a].parent && NodeOk(order, m, height[a])
    ensures TreeOk(order, root, top, heap[a := m], height, detached, full)
  {
    var h1 := heap[a := m];
    assert NodesOk(order, top, h1, height);
    assert RoomOk(order, h1, full) by {
      forall b | b in h1 && !h1[b].isLeaf && b != full
        ensures h1[b].keyCount < order - 1
      {
        assert h1[b] == heap[b];
      }
    }
    LeafSwapLinks(heap, height, root, detached, a, m);
    LeafSwapUps(heap, root, detached, a, m);
    assert RootOk(h1, height, root, detached);
  }

  lemma LeafSwapLinks(heap: map<Addr, BPNode>, height: map<Addr, nat>, root: Addr, detached: Addr, a: Addr, m: BPNode)
    requires LinksOk(heap, height, root, detached)
    requires a in heap && heap[a].isLeaf && m.isLeaf && m.parent == heap[a].parent
    ensures LinksOk(heap[a := m], height, root, detached)
  {
    var h1 := heap[a := m];
    forall b, j: nat | b in h1 && b in height && !h1[b].isLeaf && j <= h1[b].keyCount
      ensures LinkOk(h1[b], height[b], b, j, h1, height, root, detached)
    {
      assert h1[b] == heap[b];
      assert LinkOk(heap[b], height[b], b, j, heap, height, root, detached);
    }
  }

  lemma LeafSwapUps(heap: map<Addr, BPNode>, root: Addr, detached: Addr, a: Addr, m: BPNode)
    requires UpsOk(heap, root, detached)
    requires a in heap && heap[a].isLeaf && m.isLeaf && m.parent == heap[a].parent
    ensures UpsOk(heap[a := m], root, detached)
  {
    var h1 := heap[a := m];
    forall b | b in h1 && b != root && b != detached
      ensures UpOk(h1[b], b, h1)
    {
      assert UpOk(heap[b], b, heap);
      assert heap[b].parent != a;
    }
  }

  /** A new leaf at top, not yet hung into any parent, is the detached
      node of the tree. */
  lemma AddLeafKeepsTree(order: nat, root: Addr, top: Addr, heap: map<Addr, BPNode>, height: map<Addr, nat>, r: BPNode)
    requires TreeOk(order, root, top, heap, height, 0, 0) && root != 0
    requires r.isLeaf && NodeOk(order, r, 0)
    ensures TreeOk(order, root, top + 1, heap[top := r], height[top := 0], top, 0)
  {
    assert top !in heap;
    AddLeafLinks(heap, height, root, top, r);
    AddLeafUps(heap, root, top, r);
  }

  lemma AddLeafLinks(heap: map<Addr, BPNode>, height: map<Addr, nat>, root: Addr, top: Addr, r: BPNode)
    requires LinksOk(heap, height, root, 0) && top !in heap && r.isLeaf
    ensures LinksOk(heap[top := r], height[top := 0], root, top)
  {
    var h1, ht := heap[top := r], height[top := 0];
    forall b, j: nat | b in h1 && b in ht && !h1[b].isLeaf && j <= h1[b].keyCount
      ensures LinkOk(h1[b], ht[b], b, j, h1, ht, root, top)
    {
      assert LinkOk(heap[b], height[b], b, j, heap, height, root, 0);
    }
  }

  lemma AddLeafUps(heap: map<Addr, BPNode>, root: Addr, top: Addr, r: BPNode)
    requires UpsOk(heap, root, 0) && top !in heap && 0 !in heap
    ensures UpsOk(heap[top := r], root, top)
  {
    var h1 := heap[top := r];
    forall b | b in h1 && b != root && b != top
      ensures UpOk(h1[b], b, h1)
    {
      assert UpOk(heap[b], b, heap);
    }
  }

  /** Parent p has room for one more key and child, and pos is a slot of
      it: what insert_into_parent's step at p needs. */
  ghost predicate HasRoom(order: nat, heap: map<Addr, BPNode>, p: Addr, pos: nat)
  {
    && p in heap && !heap[p].isLeaf && pos <= heap[p].keyCount < order - 1
    && |heap[p].keys| == order - 1 && |heap[p].children| == order
  }

  /** insert_into_parent's step at parent p keeps the tree invariant: the
      detached child is hung in, and p is the one node that may now be
      full. */
  lemma ParentInsertKeepsTree(order: nat, root: Addr, top: Addr, heap: map<Addr, BPNode>, height: map<Addr, nat>,
                              p: Addr, pos: nat, key: int, child: Addr)
    requires TreeOk(order, root, top, heap, height, child, 0)
    requires p in heap && !heap[p].isLeaf && pos <= heap[p].keyCount
    requires child in heap && heap[child].parent == p && height[child] + 1 == height[p]
    ensures HasRoom(order, heap, p, pos)
    ensures TreeOk(order, root, top, heap[p := ParentInserted(heap[p], pos, key, child)], height, 0, p)
  {
    assert HasRoom(order, heap, p, pos);
    ParentInsertNode(order, top, heap, height, root, p, pos, key, child);
    ParentInsertRoom(order, heap, p, pos, key, child);
    ParentInsertLinks(order, heap, height, root, p, pos, key, child);
    ParentInsertUps(order, heap, root, p, pos, key, child);
    ParentInsertRoot(order, heap, height, root, p, pos, key, child);
  }

  /** Before insert_into_parent's step: p has room for one more key, and
      left is one of its live children. */
  lemma ParentHangReady(order: nat, root: Addr, top: Addr, heap: map<Addr, BPNode>, height: map<Addr, nat>,
                        p: Addr, left: Addr, child: Addr)
    requires TreeOk(order, root, top, heap, height, child, 0)
    requires p in heap && !heap[p].isLeaf
    requires left in heap && left != root && left != child && heap[left].parent == p
    requires child in heap && heap[child].parent == p && height[child] + 1 == height[p]
    ensures HasRoom(order, heap, p, 0) && child != p
    ensures left in heap[p].children[..heap[p].keyCount + 1]
  {
    assert UpOk(heap[left], left, heap);
    ParentInsertKeepsTree(order, root, top, heap, height, p, 0, 0, child);
  }

  /** insert_into_parent's step as a whole: the tree is well formed with p
      possibly full and nothing detached, no leaf changes, and when p still
      has room nothing is full either. */
  lemma ParentHangStep(order: nat, root: Addr, top: Addr, heap: map<Addr, BPNode>, height: map<Addr, nat>,
                       p: Addr, pos: nat, key: int, child: Addr, h: map<Addr, BPNode>)
    requires TreeOk(order, root, top, heap, height, child, 0)
    requires p in heap && !heap[p].isLeaf && pos <= heap[p].keyCount
    requires child in heap && heap[child].parent == p && height[child] + 1 == height[p]
    requires HasRoom(order, heap, p, pos) && h == heap[p := ParentInserted(heap[p], pos, key, child)]
    ensures TreeOk(order, root, top, h, height, 0, p) && LeavesKept(heap, h)
    ensures p in h && !h[p].isLeaf && h[p].keyCount <= order - 1
    ensures h[p].keyCount < order - 1 ==> TreeOk(order, root, top, h, height, 0, 0)
  {
    ParentInsertKeepsTree(order, root, top, heap, height, p, pos, key, child);
    assert h[p].keyCount < order - 1 ==> RoomOk(order, h, 0);
  }

  lemma ParentInsertNode(order: nat, top: Addr, heap: map<Addr, BPNode>, height: map<Addr, nat>, root: Addr,
                         p: Addr, pos: nat, key: int, child: Addr)
    requires NodesOk(order, top, heap, height) && LinksOk(heap, height, root, child) && HasRoom(order, heap, p, pos)
    ensures NodesOk(order, top, heap[p := ParentInserted(heap[p], pos, key, child)], height)
  {
    var n := heap[p];
    assert child !in n.children[..n.keyCount + 1] by {
      forall j | 0 <= j <= n.keyCount
        ensures n.children[j] != child
      {
        assert LinkOk(n, height[p], p, j, heap, height, root, child);
      }
    }
    ShiftInsertDistinct(n.children, pos + 1, n.keyCount + 1, child);
  }

  lemma ParentInsertRoom(order: nat, heap: map<Addr, BPNode>, p: Addr, pos: nat, key: int, child: Addr)
    requires RoomOk(order, heap, 0) && HasRoom(order, heap, p, pos) && 0 !in heap
    ensures RoomOk(order, heap[p := ParentInserted(heap[p], pos, key, child)], p)
  {
    var h1 := heap[p := ParentInserted(heap[p], pos, key, child)];
    forall b | b in h1 && !h1[b].isLeaf && b != p
      ensures h1[b].keyCount < order - 1
    {
      assert h1[b] == heap[b];
    }
  }

  lemma ParentInsertRoot(order: nat, heap: map<Addr, BPNode>, height: map<Addr, nat>, root: Addr,
                         p: Addr, pos: nat, key: int, child: Addr)
    requires RootOk(heap, height, root, child) && HasRoom(order, heap, p, pos)
    ensures RootOk(heap[p := ParentInserted(heap[p], pos, key, child)], height, root, 0)
  {
  }

  lemma ParentInsertLinks(order: nat, heap: map<Addr, BPNode>, height: map<Addr, nat>, root: Addr,
                          p: Addr, pos: nat, key: int, child: Addr)
    requires LinksOk(heap, height, root, child) && HasRoom(order, heap, p, pos) && 0 !in heap
    requires child in heap && child in height && child != root && heap[child].parent == p
    requires p in height && height[child] + 1 == height[p]
    ensures LinksOk(heap[p := ParentInserted(heap[p], pos, key, child)], height, root, 0)
  {
    var n := heap[p];
    var m := ParentInserted(n, pos, key, child);
    var h1 := heap[p := m];
    ShiftInsertMembers(n.children, pos + 1, n.keyCount + 1, child);
    assert LinkOk(n, height[p], p, 0, heap, height, root, child);
    forall b, j: nat | b in h1 && b in height && !h1[b].isLeaf && j <= h1[b].keyCount
      ensures LinkOk(h1[b], height[b], b, j, h1, height, root, 0)
    {
      if b == p {
        var c := m.children[j];
        assert c in m.children[..m.keyCount + 1];
        if c != child {
          var i :| 0 <= i <= n.keyCount && n.children[..n.keyCount + 1][i] == c;
          assert LinkOk(n, height[p], p, i, heap, height, root, child);
        }
      } else {
        assert LinkOk(heap[b], height[b], b, j, heap, height, root, child);
      }
    }
  }

  lemma ParentInsertUps(order: nat, heap: map<Addr, BPNode>, root: Addr, p: Addr, pos: nat, key: int, child: Addr)
    requires UpsOk(heap, root, child) && HasRoom(order, heap, p, pos)
    requires child in heap && heap[child].parent == p
    ensures UpsOk(heap[p := ParentInserted(heap[p], pos, key, child)], root, 0)
  {
    var n := heap[p];
    var m := ParentInserted(n, pos, key, child);
    ShiftInsertMembers(n.children, pos + 1, n.keyCount + 1, child);
    GrownParentUps(heap, root, p, m, child, n.children[..n.keyCount + 1], m.children[..m.keyCount + 1]);
  }

  /** Giving parent p a record m whose live children are its old ones plus
      child, and hanging child from it, leaves every node hung. */
  lemma GrownParentUps(heap: map<Addr, BPNode>, root: Addr, p: Addr, m: BPNode, child: Addr, was: seq<Addr>, now: seq<Addr>)
    requires UpsOk(heap, root, child) && p in heap && child in heap && heap[child].parent == p
    requires 0 <= heap[p].keyCount < |heap[p].children| && was == heap[p].children[..heap[p].keyCount + 1]
    requires !m.isLeaf && m.parent == heap[p].parent && 0 <= m.keyCount < |m.children|
    requires now == m.children[..m.keyCount + 1] && child in now
    requires forall y :: y in was ==> y in now
    ensures UpsOk(heap[p := m], root, 0)
  {
    var h1 := heap[p := m];
    forall a | a in h1 && a != root && a != 0
      ensures UpOk(h1[a], a, h1)
    {
      if a != child {
        assert UpOk(heap[a], a, heap);
        var q := heap[a].parent;
        if q == p {
          assert a in was;
        } else {
          assert h1[q] == heap[q];
        }
      }
    }
  }

  /** The records create_new_root writes: the new root r over left and
      right, and both children pointing up to it. */
  function NewRootHeap(order: nat, heap: map<Addr, BPNode>, r: Addr, left: Addr, right: Addr, key: int): map<Addr, BPNode>
    requires 3 <= order && left in heap && right in heap
  {
    var h0 := heap[r := NewRoot(order, left, right, key)];
    var h1 := h0[left := h0[left].(parent := r)];
    h1[right := h1[right].(parent := r)]
  }

  /** The new root at a fresh address over two distinct nodes; only their
      parent pointers change. */
  lemma NewRootHeapAt(order: nat, heap: map<Addr, BPNode>, r: Addr, left: Addr, right: Addr, key: int)
    requires 3 <= order && left in heap && right in heap && left != right && r !in heap
    ensures var h := NewRootHeap(order, heap, r, left, right, key);
      && h.Keys == heap.Keys + {r} && h[r] == NewRoot(order, left, right, key)
      && h[left] == heap[left].(parent := r) && h[right] == heap[right].(parent := r)
      && forall a :: a in heap && a != left && a != right ==> h[a] == heap[a]
  {
  }

  /** create_new_root over the old root and the detached node leaves a
      tree with nothing detached, one level higher. */
  lemma NewRootKeepsTree(order: nat, root: Addr, top: Addr, heap: map<Addr, BPNode>, height: map<Addr, nat>,
                         right: Addr, key: int)
    requires TreeOk(order, root, top, heap, height, right, 0)
    requires root in heap && right in heap && right != root && height[right] == height[root]
    ensures TreeOk(order, top, top + 1, NewRootHeap(order, heap, top, root, right, key),
                   height[top := height[root] + 1], 0, 0)
  {
    assert top !in heap && 0 !in heap;
    NewRootHeapAt(order, heap, top, root, right, key);
    NewRootNodes(order, top, heap, height, root, right, key);
    NewRootRoom(order, heap, top, root, right, key);
    NewRootLinks(order, heap, height, root, top, right, key);
    NewRootUps(order, heap, root, top, right, key);
    NewRootRoot(order, heap, height, root, top, right, key);
  }

  /** create_new_root as a whole: the tree is well formed with nothing
      detached, the new root holds key between the old root and the
      detached node, and no leaf changes. */
  lemma NewRootStep(order: nat, root: Addr, top: Addr, heap: map<Addr, BPNode>, height: map<Addr, nat>,
                    right: Addr, key: int, top1: Addr, h: map<Addr, BPNode>, height1: map<Addr, nat>)
    requires TreeOk(order, root, top, heap, height, right, 0)
    requires root in heap && right in heap && right != root && height[right] == height[root]
    requires top1 == top + 1 && h == NewRootHeap(order, heap, top, root, right, key)
    requires height1 == height[top := height[root] + 1]
    ensures TreeOk(order, top, top1, h, height1, 0, 0) && top != 0
    ensures h[top] == NewRoot(order, root, right, key) && LeavesKept(heap, h)
  {
    assert top !in heap;
    NewRootHeapAt(order, heap, top, root, right, key);
    NewRootKeepsTree(order, root, top, heap, height, right, key);
    NewRootLeavesKept(order, heap, top, root, right, key);
  }

  lemma NewRootNodes(order: nat, top: Addr, heap: map<Addr, BPNode>, height: map<Addr, nat>, root: Addr,
                     right: Addr, key: int)
    requires 3 <= order && NodesOk(order, top, heap, height) && root in heap && right in heap && right != root
    ensures NodesOk(order, top + 1, NewRootHeap(order, heap, top, root, right, key), height[top := height[root] + 1])
  {
    NewRootHeapAt(order, heap, top, root, right, key);
    var r := NewRoot(order, root, right, key);
    assert r.children[..2] == [root, right];
    assert NodeOk(order, r, height[root] + 1);
  }

  lemma NewRootRoom(order: nat, heap: map<Addr, BPNode>, top: Addr, root: Addr, right: Addr, key: int)
    requires 3 <= order && RoomOk(order, heap, 0) && root in heap && right in heap && right != root && top !in heap
    ensures RoomOk(order, NewRootHeap(order, heap, top, root, right, key), 0)
  {
    NewRootHeapAt(order, heap, top, root, right, key);
  }

  lemma NewRootRoot(order: nat, heap: map<Addr, BPNode>, height: map<Addr, nat>, root: Addr, top: Addr,
                    right: Addr, key: int)
    requires 3 <= order && RootOk(heap, height, root, right) && root != 0 && right in heap && right in height
    requires right != root && 0 < top && top !in heap && height[right] == height[root]
    ensures RootOk(NewRootHeap(order, heap, top, root, right, key), height[top := height[root] + 1], top, 0)
  {
    var h2, ht := NewRootHeap(order, heap, top, root, right, key), height[top := height[root] + 1];
    NewRootHeapAt(order, heap, top, root, right, key);
    forall a | a in h2 && a in ht
      ensures ht[a] <= ht[top]
    {
      if a != top {
        assert a in heap && a in height;
      }
    }
  }

  lemma NewRootLinks(order: nat, heap: map<Addr, BPNode>, height: map<Addr, nat>, root: Addr, top: Addr,
                     right: Addr, key: int)
    requires 3 <= order && LinksOk(heap, height, root, right) && top !in heap && 0 !in heap
    requires root in heap && right in heap && right != root && root in height && right in height
    requires height[right] == height[root]
    ensures LinksOk(NewRootHeap(order, heap, top, root, right, key), height[top := height[root] + 1], top, 0)
  {
    var h2 := NewRootHeap(order, heap, top, root, right, key);
    var ht := height[top := height[root] + 1];
    NewRootHeapAt(order, heap, top, root, right, key);
    forall b, j: nat | b in h2 && b in ht && !h2[b].isLeaf && j <= h2[b].keyCount
      ensures LinkOk(h2[b], ht[b], b, j, h2, ht, top, 0)
    {
      if b != top {
        assert LinkOk(heap[b], height[b], b, j, heap, height, root, right);
      }
    }
  }

  lemma NewRootUps(order: nat, heap: map<Addr, BPNode>, root: Addr, top: Addr, right: Addr, key: int)
    requires 3 <= order && UpsOk(heap, root, right) && root in heap && right in heap && right != root && top !in heap
    ensures UpsOk(NewRootHeap(order, heap, top, root, right, key), top, 0)
  {
    var h2 := NewRootHeap(order, heap, top, root, right, key);
    NewRootHeapAt(order, heap, top, root, right, key);
    assert NewRoot(order, root, right, key).children[..2] == [root, right];
    forall a | a in h2 && a != top && a != 0
      ensures UpOk(h2[a], a, h2)
    {
      if a != root && a != right {
        assert UpOk(heap[a], a, heap);
      }
    }
  }

  /** The children split_internal moves to the new node: every child slot
      after the median. */
  function Moved(order: nat, n: BPNode): seq<Addr>
    requires 3 <= order && |n.children| == order
  {
    n.children[InternalSplitIndex(order) + 1..]
  }

  /** The records split_internal writes before its re-pointing: the new
      node y with the upper half and the node with the lower half. */
  function InternalSplitHeap(order: nat, heap: map<Addr, BPNode>, node: Addr, y: Addr): map<Addr, BPNode>
    requires 3 <= order && node in heap && |heap[node].keys| == order - 1 && |heap[node].children| == order
  {
    heap[y := InternalRight(order, heap[node])][node := InternalLeft(order, heap[node])]
  }

  /** h2 is h1 with the parent pointer of every node listed in moved set
      to y. */
  ghost predicate Repointed(h1: map<Addr, BPNode>, h2: map<Addr, BPNode>, moved: seq<Addr>, y: Addr)
  {
    && (forall a :: a in h2 <==> a in h1)
    && (forall a :: a in h1 ==> h2[a] == if a in moved then h1[a].(parent := y) else h1[a])
  }

  /** Re-pointing one more node keeps Repointed. */
  lemma RepointedStep(h1: map<Addr, BPNode>, h2: map<Addr, BPNode>, moved: seq<Addr>, y: Addr, c: Addr)
    requires Repointed(h1, h2, moved, y) && c in h1
    ensures Repointed(h1, h2[c := h2[c].(parent := y)], moved + [c], y)
  {
  }

  /** The shape of split_internal's halves l and r of the full node n. */
  ghost predicate SplitShape(order: nat, si: nat, n: BPNode, l: BPNode, r: BPNode, moved: seq<Addr>)
  {
    && 3 <= order && 1 <= si < order - 1 && !n.isLeaf && |n.children| == order && n.keyCount == order - 1
    && moved == n.children[si + 1..]
    && !l.isLeaf && l.parent == n.parent && l.keyCount == si
    && |l.keys| == order - 1 && |l.children| == order
    && l.children[..si + 1] == n.children[..si + 1]
    && !r.isLeaf && r.parent == n.parent && r.keyCount == order - si - 2
    && |r.keys| == order - 1 && |r.children| == order
    && r.children[..order - si - 1] == moved
  }

  /** Every moved child is a child of node: a node one level down, other
      than the root, pointing up to node. */
  ghost predicate MovedOk(heap: map<Addr, BPNode>, height: map<Addr, nat>, root: Addr, node: Addr, moved: seq<Addr>)
  {
    forall c :: c in moved ==>
      (c in heap && c in height && heap[c].parent == node && c != root && c != node
       && node in height && height[c] + 1 == height[node])
  }

  /** split_internal's writes and re-pointing keep the tree invariant, with
      the new node detached and nothing full. */
  lemma InternalSplitKeepsTree(order: nat, root: Addr, top: Addr, heap: map<Addr, BPNode>, height: map<Addr, nat>,
                               node: Addr, h2: map<Addr, BPNode>)
    requires TreeOk(order, root, top, heap, height, 0, node)
    requires node in heap && !heap[node].isLeaf && heap[node].keyCount == order - 1
    requires Repointed(InternalSplitHeap(order, heap, node, top), h2, Moved(order, heap[node]), top)
    ensures TreeOk(order, root, top + 1, h2, height[top := height[node]], top, 0)
  {
    var n := heap[node];
    var l, r, moved := InternalLeft(order, n), InternalRight(order, n), Moved(order, n);
    InternalHalves(order, n);
    var si := InternalSplitIndex(order);
    assert SplitShape(order, si, n, l, r, moved);
    assert top !in heap && 0 !in heap;
    MovedChildren(order, heap, height, root, node);
    InternalSplitNodes(order, top, heap, height, node, si, l, r, moved, h2);
    InternalSplitRoom(order, heap, node, top, si, l, r, moved, h2);
    InternalSplitLinks(heap, height, root, node, top, si, l, r, moved, h2);
    InternalSplitUps(heap, height, root, node, top, si, l, r, moved, h2);
    InternalSplitRoot(heap, height, root, node, top, si, l, r, moved, h2);
  }

  /** The children after the median of a full node are its children, and
      none of them comes again before the median. */
  lemma MovedChildren(order: nat, heap: map<Addr, BPNode>, height: map<Addr, nat>, root: Addr, node: Addr)
    requires 3 <= order && LinksOk(heap, height, root, 0) && node in heap && node in height
    requires NodeOk(order, heap[node], height[node]) && !heap[node].isLeaf && heap[node].keyCount == order - 1
    ensures MovedOk(heap, height, root, node, Moved(order, heap[node]))
    ensures Distinct(heap[node].children)
  {
    var n := heap[node];
    var si := InternalSplitIndex(order);
    assert n.children[..n.keyCount + 1] == n.children;
    forall c | c in Moved(order, n)
      ensures c in heap && c in height && heap[c].parent == node && c != root && c != node
      ensures node in height && height[c] + 1 == height[node]
    {
      var k :| 0 <= k < |Moved(order, n)| && Moved(order, n)[k] == c;
      assert LinkOk(n, height[node], node, si + 1 + k, heap, height, root, 0);
    }
  }

  /** NodeOk does not look at the parent pointer. */
  lemma NodeOkParent(order: nat, n: BPNode, h: nat, p: Addr)
    requires NodeOk(order, n, h)
    ensures NodeOk(order, n.(parent := p), h)
  {
    assert n.(parent := p).children == n.children;
  }

  lemma InternalSplitNodes(order: nat, top: Addr, heap: map<Addr, BPNode>, height: map<Addr, nat>, node: Addr,
                           si: nat, l: BPNode, r: BPNode, moved: seq<Addr>, h2: map<Addr, BPNode>)
    requires NodesOk(order, top, heap, height) && node in heap && top !in heap && Distinct(heap[node].children)
    requires SplitShape(order, si, heap[node], l, r, moved) && Repointed(heap[top := r][node := l], h2, moved, top)
    ensures NodesOk(order, top + 1, h2, height[top := height[node]])
  {
    var n := heap[node];
    var h1, ht := heap[top := r][node := l], height[top := height[node]];
    DistinctSlice(n.children, 0, si + 1);
    DistinctSlice(n.children, si + 1, order);
    assert n.children[0..si + 1] == l.children[..si + 1];
    assert n.children[si + 1..order] == r.children[..r.keyCount + 1];
    forall a | a in h2
      ensures 0 < a < top + 1 && a in ht && NodeOk(order, h2[a], ht[a])
    {
      if a == top {
        assert NodeOk(order, r, ht[a]);
      } else if a == node {
        assert NodeOk(order, l, ht[a]);
      } else {
        assert NodeOk(order, heap[a], height[a]);
      }
      if a in moved {
        NodeOkParent(order, h1[a], ht[a], top);
      }
    }
  }

  lemma InternalSplitRoom(order: nat, heap: map<Addr, BPNode>, node: Addr, top: Addr,
                          si: nat, l: BPNode, r: BPNode, moved: seq<Addr>, h2: map<Addr, BPNode>)
    requires RoomOk(order, heap, node) && node in heap && 0 !in heap
    requires SplitShape(order, si, heap[node], l, r, moved) && Repointed(heap[top := r][node := l], h2, moved, top)
    ensures RoomOk(order, h2, 0)
  {
    var h1 := heap[top := r][node := l];
    forall a | a in h2 && !h2[a].isLeaf
      ensures h2[a].keyCount < order - 1
    {
      assert h2[a].keyCount == h1[a].keyCount;
    }
  }

  lemma InternalSplitLinks(heap: map<Addr, BPNode>, height: map<Addr, nat>, root: Addr, node: Addr, top: Addr,
                           si: nat, l: BPNode, r: BPNode, moved: seq<Addr>, h2: map<Addr, BPNode>)
    requires LinksOk(heap, height, root, 0) && MovedOk(heap, height, root, node, moved)
    requires node in heap && node in height && top !in heap && Distinct(heap[node].children)
    requires SplitShape(|heap[node].children|, si, heap[node], l, r, moved) && Repointed(heap[top := r][node := l], h2, moved, top)
    ensures LinksOk(h2, height[top := height[node]], root, top)
  {
    var ht := height[top := height[node]];
    forall b, j: nat | b in h2 && b in ht && !h2[b].isLeaf && j <= h2[b].keyCount
      ensures LinkOk(h2[b], ht[b], b, j, h2, ht, root, top)
    {
      if b == top {
        assert h2[b].children[j] == r.children[..r.keyCount + 1][j];
        assert r.children[j] in moved;
      } else if b == node {
        SplitLinkAtNode(heap, height, root, node, top, si, l, r, moved, h2, j);
      } else {
        assert LinkOk(heap[b], height[b], b, j, heap, height, root, 0);
      }
    }
  }

  /** The live children the split node keeps still point up to it. */
  lemma SplitLinkAtNode(heap: map<Addr, BPNode>, height: map<Addr, nat>, root: Addr, node: Addr, top: Addr,
                        si: nat, l: BPNode, r: BPNode, moved: seq<Addr>, h2: map<Addr, BPNode>, j: nat)
    requires LinksOk(heap, height, root, 0)
    requires node in heap && node in height && top !in heap && Distinct(heap[node].children)
    requires SplitShape(|heap[node].children|, si, heap[node], l, r, moved) && Repointed(heap[top := r][node := l], h2, moved, top)
    requires j <= l.keyCount
    ensures LinkOk(h2[node], height[top := height[node]][node], node, j, h2, height[top := height[node]], root, top)
  {
    var n := heap[node];
    var c := n.children[j];
    assert l.children[j] == l.children[..si + 1][j] == c;
    assert LinkOk(n, height[node], node, j, heap, height, root, 0);
    assert c !in moved by {
      forall k | 0 <= k < |moved|
        ensures moved[k] != c
      {
        assert moved[k] == n.children[si + 1 + k];
      }
    }
  }

  lemma InternalSplitUps(heap: map<Addr, BPNode>, height: map<Addr, nat>, root: Addr, node: Addr, top: Addr,
                         si: nat, l: BPNode, r: BPNode, moved: seq<Addr>, h2: map<Addr, BPNode>)
    requires UpsOk(heap, root, 0) && MovedOk(heap, height, root, node, moved)
    requires node in heap && top !in heap && 0 !in heap
    requires SplitShape(|heap[node].children|, si, heap[node], l, r, moved) && Repointed(heap[top := r][node := l], h2, moved, top)
    ensures UpsOk(h2, root, top)
  {
    SplitUpsMoved(heap, height, root, node, top, si, l, r, moved, h2);
    SplitUpsUnder(heap, height, root, node, top, si, l, r, moved, h2);
    SplitUpsElsewhere(heap, height, root, node, top, si, l, r, moved, h2);
    forall a | a in h2 && a != root && a != top
      ensures UpOk(h2[a], a, h2)
    {
      if a !in moved {
        assert UpOk(heap[a], a, heap);
      }
    }
  }

  /** The moved children hang from the new node. */
  lemma SplitUpsMoved(heap: map<Addr, BPNode>, height: map<Addr, nat>, root: Addr, node: Addr, top: Addr,
                      si: nat, l: BPNode, r: BPNode, moved: seq<Addr>, h2: map<Addr, BPNode>)
    requires MovedOk(heap, height, root, node, moved) && node in heap && top !in heap
    requires SplitShape(|heap[node].children|, si, heap[node], l, r, moved) && Repointed(heap[top := r][node := l], h2, moved, top)
    ensures forall a :: a in h2 && a in moved ==> UpOk(h2[a], a, h2)
  {
    assert top !in moved;
    assert h2[top] == r;
    assert r.children[..r.keyCount + 1] == moved;
  }

  /** The children node keeps still hang from it. */
  lemma SplitUpsUnder(heap: map<Addr, BPNode>, height: map<Addr, nat>, root: Addr, node: Addr, top: Addr,
                      si: nat, l: BPNode, r: BPNode, moved: seq<Addr>, h2: map<Addr, BPNode>)
    requires UpsOk(heap, root, 0) && MovedOk(heap, height, root, node, moved)
    requires node in heap && top !in heap && 0 !in heap
    requires SplitShape(|heap[node].children|, si, heap[node], l, r, moved) && Repointed(heap[top := r][node := l], h2, moved, top)
    ensures forall a :: a in heap && a != root && a !in moved && heap[a].parent == node ==> UpOk(h2[a], a, h2)
  {
    var n := heap[node];
    assert node !in moved;
    assert h2[node] == l;
    assert n.children[..n.keyCount + 1] == n.children;
    assert n.children[si + 1..] == moved;
    assert l.children[..l.keyCount + 1] == n.children[..si + 1];
    forall a | a in heap && a != root && a !in moved && heap[a].parent == node
      ensures UpOk(h2[a], a, h2)
    {
      assert UpOk(heap[a], a, heap);
      InPrefixOrSuffix(n.children, si + 1, a);
    }
  }

  /** Every other node hangs from a parent whose children did not move. */
  lemma SplitUpsElsewhere(heap: map<Addr, BPNode>, height: map<Addr, nat>, root: Addr, node: Addr, top: Addr,
                          si: nat, l: BPNode, r: BPNode, moved: seq<Addr>, h2: map<Addr, BPNode>)
    requires UpsOk(heap, root, 0) && node in heap && top !in heap && 0 !in heap && l.parent == heap[node].parent
    requires Repointed(heap[top := r][node := l], h2, moved, top)
    ensures forall a :: a in heap && a != root && a !in moved && heap[a].parent != node ==> UpOk(h2[a], a, h2)
  {
    forall a | a in heap && a != root && a !in moved && heap[a].parent != node
      ensures UpOk(h2[a], a, h2)
    {
      assert UpOk(heap[a], a, heap);
      var q := heap[a].parent;
      assert h2[a].parent == q;
      assert h2[q].children == heap[q].children && h2[q].keyCount == heap[q].keyCount;
    }
  }

  lemma InternalSplitRoot(heap: map<Addr, BPNode>, height: map<Addr, nat>, root: Addr, node: Addr, top: Addr,
                          si: nat, l: BPNode, r: BPNode, moved: seq<Addr>, h2: map<Addr, BPNode>)
    requires RootOk(heap, height, root, 0) && MovedOk(heap, height, root, node, moved)
    requires node in heap && node in height && top !in heap && 0 < top
    requires SplitShape(|heap[node].children|, si, heap[node], l, r, moved) && Repointed(heap[top := r][node := l], h2, moved, top)
    ensures RootOk(h2, height[top := height[node]], root, top)
  {
    var ht := height[top := height[node]];
    forall a | a in h2 && a in ht
      ensures ht[a] <= ht[root]
    {
      if a != top {
        assert a in heap;
      }
    }
  }

  /** The runs split_internal copies and moves make up its two records. */
  lemma InternalSplitRecords(order: nat, si: nat, n: BPNode, ks: seq<int>, cs: seq<Addr>, rest: seq<Addr>)
    requires 3 <= order && si == InternalSplitIndex(order) && |n.keys| == order - 1 && |n.children| == order
    requires ks == n.keys[si + 1..order - 1] + NewNode(false, order).keys[order - 1 - si - 1..]
    requires cs == n.children[si + 1..order] + NewNode(false, order).children[order - si - 1..]
    requires |rest| == order && rest[..si + 1] == n.children[..si + 1]
    requires forall k :: si + 1 <= k < order ==> rest[k] == 0
    ensures NewNode(false, order).(keys := ks, children := cs, keyCount := order - 1 - si - 1, parent := n.parent)
            == InternalRight(order, n)
    ensures n.(children := rest, keyCount := si) == InternalLeft(order, n)
    ensures cs[..order - si - 1] == Moved(order, n)
  {
    assert n.keys[si + 1..order - 1] == n.keys[si + 1..];
    assert n.children[si + 1..order] == n.children[si + 1..];
    var l := InternalLeft(order, n).children;
    assert |l| == order;
    forall k | 0 <= k < order
      ensures rest[k] == l[k]
    {
      if k <= si {
        assert rest[k] == rest[..si + 1][k];
      }
    }
  }

  /** LeafSplitInsertCounts for every key at once, about the heap h and
      bound top1 that split_leaf leaves behind. */
  lemma LeafSplitInsertCountsAll(order: nat, heap: map<Addr, BPNode>, top: Addr, leaf: Addr, key: int,
                                 h: map<Addr, BPNode>, top1: Addr)
    requires 3 <= order && forall a :: a in heap ==> a < top
    requires leaf in heap && heap[leaf].isLeaf && |heap[leaf].keys| == order - 1 && heap[leaf].keyCount == order - 1
    requires Sorted(heap[leaf].keys[..heap[leaf].keyCount])
    requires h == LeafSplitInsertHeap(order, heap, leaf, top, key) && top1 == top + 1
    ensures forall v :: LeafCount(h, top1, v) == LeafCount(heap, top, v) + (if v == key then 1 else 0)
  {
    forall v
      ensures LeafCount(h, top1, v) == LeafCount(heap, top, v) + (if v == key then 1 else 0)
    {
      LeafSplitInsertCounts(order, heap, top, leaf, key, v);
    }
  }

  /** The steps above the leaves keep every count. */
  lemma LeavesKeptCountsAll(h0: map<Addr, BPNode>, top0: nat, h1: map<Addr, BPNode>, top1: nat)
    requires LeavesKept(h0, h1) && top0 <= top1 && forall a :: a in h0 ==> a < top0
    ensures forall v :: LeafCount(h1, top1, v) == LeafCount(h0, top0, v)
  {
    forall v
      ensures LeafCount(h1, top1, v) == LeafCount(h0, top0, v)
    {
      LeavesKeptCounts(h0, top0, h1, top1, v);
    }
  }

  /** split_leaf's heap once key is in: key goes into the old leaf when it
      is below the new leaf's first key, otherwise into the new leaf. */
  function LeafSplitInsertHeap(order: nat, heap: map<Addr, BPNode>, leaf: Addr, y: Addr, key: int): map<Addr, BPNode>
    requires 3 <= order && leaf in heap && leaf != y
    requires |heap[leaf].keys| == order - 1 && heap[leaf].keyCount == order - 1
  {
    var h := LeafSplitHeap(order, heap, leaf, y);
    var t := if key < h[y].keys[0] then leaf else y;
    h[t := LeafInserted(h[t], key)]
  }

  /** After the split both halves have room for key, and the new leaf
      starts with the full leaf's key at the split index. */
  lemma LeafSplitRoom(order: nat, heap: map<Addr, BPNode>, leaf: Addr, y: Addr)
    requires 3 <= order && leaf in heap && leaf != y
    requires |heap[leaf].keys| == order - 1 && heap[leaf].keyCount == order - 1
    ensures var h := LeafSplitHeap(order, heap, leaf, y);
      && leaf in h && y in h
      && 0 <= h[leaf].keyCount < |h[leaf].keys| && 0 <= h[y].keyCount < |h[y].keys|
      && h[y].keys[0] == heap[leaf].keys[LeafSplitIndex(order)]
  {
    var si := LeafSplitIndex(order);
    assert LeafRight(order, heap[leaf]).keys[0] == heap[leaf].keys[si..][0];
  }

  /** split_leaf up to the point where the new leaf is handed up keeps the
      tree invariant with the new leaf detached; both leaves share the old
      leaf's parent. */
  lemma LeafSplitInsertKeepsTree(order: nat, root: Addr, top: Addr, heap: map<Addr, BPNode>, height: map<Addr, nat>,
                                 leaf: Addr, key: int, top1: Addr, h: map<Addr, BPNode>, height1: map<Addr, nat>)
    requires TreeOk(order, root, top, heap, height, 0, 0)
    requires leaf in heap && heap[leaf].isLeaf && heap[leaf].keyCount == order - 1 && leaf != top
    requires top1 == top + 1 && h == LeafSplitInsertHeap(order, heap, leaf, top, key) && height1 == height[top := 0]
    ensures TreeOk(order, root, top1, h, height1, top, 0)
    ensures root != 0 && leaf in h && top in h && h[leaf].parent == h[top].parent
    ensures leaf in height1 && top in height1 && height1[leaf] == height1[top]
  {
    var n := heap[leaf];
    assert NodeOk(order, n, height[leaf]);
    LeafHalves(order, n, top);
    var r := LeafRight(order, n);
    AddLeafKeepsTree(order, root, top, heap, height, r);
    var h0 := heap[top := r];
    LeafSwapKeepsTree(order, root, top + 1, h0, height[top := 0], top, 0, leaf, LeafLeft(order, n, top));
    var h1 := LeafSplitHeap(order, heap, leaf, top);
    var t := if key < h1[top].keys[0] then leaf else top;
    LeafInsertKeepsTree(order, root, top + 1, h1, height[top := 0], top, 0, t, key);
  }

  /** The whole of split_leaf below the parent: the tree is well formed with
      the new leaf detached, the chain takes it right after the old leaf,
      and key is counted once more. */
  lemma LeafSplitInsertStep(order: nat, root: Addr, top: Addr, heap: map<Addr, BPNode>, height: map<Addr, nat>,
                            firstLeaf: Addr, leaves: seq<Addr>, k: nat, key: int,
                            top1: Addr, h: map<Addr, BPNode>, height1: map<Addr, nat>, ls: seq<Addr>)
    requires TreeOk(order, root, top, heap, height, 0, 0) && ChainOk(heap, firstLeaf, leaves)
    requires k < |leaves| && leaves[k] in heap && heap[leaves[k]].keyCount == order - 1
    requires top1 == top + 1 && height1 == height[top := 0] && ls == HungAfter(leaves, k, top)
    requires h == LeafSplitInsertHeap(order, heap, leaves[k], top, key)
    ensures TreeOk(order, root, top1, h, height1, top, 0) && ChainOk(h, firstLeaf, ls)
    ensures root != 0 && leaves[k] in h && top in h && h[leaves[k]].parent == h[top].parent && 0 < |h[top].keys|
    ensures leaves[k] in height1 && top in height1 && height1[leaves[k]] == height1[top]
    ensures forall v :: LeafCount(h, top1, v) == LeafCount(heap, top, v) + (if v == key then 1 else 0)
  {
    var leaf := leaves[k];
    LeafBelowTop(order, root, top, heap, height, leaf);
    assert NodeOk(order, heap[leaf], height[leaf]);
    LeafSplitInsertKeepsTree(order, root, top, heap, height, leaf, key, top1, h, height1);
    LeafSplitInsertChain(order, heap, firstLeaf, leaves, k, top, key, h, ls);
    LeafSplitInsertCountsAll(order, heap, top, leaf, key, h, top1);
  }

  /** insert_into_leaf on a leaf with room keeps the tree and the chain,
      and counts key once more. */
  lemma LeafInsertStep(order: nat, root: Addr, top: Addr, heap: map<Addr, BPNode>, height: map<Addr, nat>,
                       firstLeaf: Addr, leaves: seq<Addr>, a: Addr, key: int, h: map<Addr, BPNode>)
    requires TreeOk(order, root, top, heap, height, 0, 0) && ChainOk(heap, firstLeaf, leaves)
    requires a in heap && heap[a].isLeaf && heap[a].keyCount < order - 1
    requires h == heap[a := LeafInserted(heap[a], key)]
    ensures TreeOk(order, root, top, h, height, 0, 0) && ChainOk(h, firstLeaf, leaves)
    ensures forall v :: LeafCount(h, top, v) == LeafCount(heap, top, v) + (if v == key then 1 else 0)
  {
    LeafBelowTop(order, root, top, heap, height, a);
    assert NodeOk(order, heap[a], height[a]);
    LeafInsertKeepsTree(order, root, top, heap, height, 0, 0, a, key);
    ChainSwap(heap, firstLeaf, leaves, a, h[a]);
    forall v
      ensures LeafCount(h, top, v) == LeafCount(heap, top, v) + (if v == key then 1 else 0)
    {
      LeafInsertCounts(heap, top, a, key, v);
    }
  }

  /** split_leaf hangs the new leaf into the chain right after the old one. */
  lemma LeafSplitInsertChain(order: nat, heap: map<Addr, BPNode>, firstLeaf: Addr, leaves: seq<Addr>, k: nat,
                             y: Addr, key: int, h: map<Addr, BPNode>, ls: seq<Addr>)
    requires ChainOk(heap, firstLeaf, leaves) && k < |leaves| && y !in heap
    requires 3 <= order && |heap[leaves[k]].keys| == order - 1 && heap[leaves[k]].keyCount == order - 1
    requires h == LeafSplitInsertHeap(order, heap, leaves[k], y, key) && ls == HungAfter(leaves, k, y)
    ensures ChainOk(h, firstLeaf, ls)
  {
    var leaf := leaves[k];
    var n := heap[leaf];
    ChainSplit(heap, firstLeaf, leaves, k, y, LeafLeft(order, n, y), LeafRight(order, n));
    var h1 := LeafSplitHeap(order, heap, leaf, y);
    LeafSplitRoom(order, heap, leaf, y);
    var t := if key < h1[y].keys[0] then leaf else y;
    ChainSwap(h1, firstLeaf, HungAfter(leaves, k, y), t, LeafInserted(h1[t], key));
  }

  /** split_leaf and the insertion into one half hold key once more and
      every other key as often as before. */
  lemma LeafSplitInsertCounts(order: nat, heap: map<Addr, BPNode>, top: Addr, leaf: Addr, key: int, v: int)
    requires 3 <= order && forall a :: a in heap ==> a < top
    requires leaf in heap && heap[leaf].isLeaf && |heap[leaf].keys| == order - 1 && heap[leaf].keyCount == order - 1
    requires Sorted(heap[leaf].keys[..heap[leaf].keyCount])
    ensures LeafCount(LeafSplitInsertHeap(order, heap, leaf, top, key), top + 1, v)
            == LeafCount(heap, top, v) + (if v == key then 1 else 0)
  {
    LeafSplitCounts(order, heap, top, leaf, v);
    var h1 := LeafSplitHeap(order, heap, leaf, top);
    var t := if key < h1[top].keys[0] then leaf else top;
    assert t in h1 && t < top + 1 && h1[t].isLeaf && 0 <= h1[t].keyCount < |h1[t].keys|
           && Sorted(h1[t].keys[..h1[t].keyCount]) by {
      LeafHalves(order, heap[leaf], top);
    }
    LeafInsertCounts(h1, top + 1, t, key, v);
  }

  /** split_internal's writes keep every leaf but its parent pointer, and
      add only an internal node. */
  lemma InternalSplitLeavesKept(order: nat, heap: map<Addr, BPNode>, node: Addr, y: Addr, h2: map<Addr, BPNode>)
    requires 3 <= order && node in heap && !heap[node].isLeaf && y !in heap
    requires |heap[node].keys| == order - 1 && |heap[node].children| == order
    requires Repointed(InternalSplitHeap(order, heap, node, y), h2, Moved(order, heap[node]), y)
    ensures LeavesKept(heap, h2)
  {
    var h1 := InternalSplitHeap(order, heap, node, y);
    InternalSplitHeapAt(order, heap, node, y);
    forall a | a in heap
      ensures a in h2 && h2[a].isLeaf == heap[a].isLeaf
      ensures heap[a].isLeaf ==> h2[a] == heap[a].(parent := h2[a].parent)
    {
      assert a in h1;
    }
    forall a | a in h2 && a !in heap
      ensures !h2[a].isLeaf
    {
      assert a == y && a in h1;
    }
  }

  /** The halves written at the new address y and at node, both internal;
      every other node is unchanged. */
  lemma InternalSplitHeapAt(order: nat, heap: map<Addr, BPNode>, node: Addr, y: Addr)
    requires 3 <= order && node in heap && !heap[node].isLeaf && y !in heap
    requires |heap[node].keys| == order - 1 && |heap[node].children| == order
    ensures var h := InternalSplitHeap(order, heap, node, y);
      && h.Keys == heap.Keys + {y} && !h[y].isLeaf && !h[node].isLeaf
      && forall a :: a in heap && a != node ==> h[a] == heap[a]
  {
  }

  /** create_new_root keeps every leaf but its parent pointer, and adds
      only an internal node. */
  lemma NewRootLeavesKept(order: nat, heap: map<Addr, BPNode>, r: Addr, left: Addr, right: Addr, key: int)
    requires 3 <= order && left in heap && right in heap && left != right && r !in heap
    ensures LeavesKept(heap, NewRootHeap(order, heap, r, left, right, key))
  {
    NewRootHeapAt(order, heap, r, left, right, key);
  }

  /** One end of a key range: open (no bound) or a key. */
  datatype Bound = NoBound | Bounded(key: int)

  /** A closed key range; NoBound at an end leaves that end open. */
  datatype Range = Range(lo: Bound, hi: Bound)

  /** x lies within r. */
  predicate InRange(x: int, r: Range)
  {
    (r.lo.NoBound? || r.lo.key <= x) && (r.hi.NoBound? || x <= r.hi.key)
  }

  /** A range ending at hi lies wholly before one starting at lo. */
  predicate Below(hi: Bound, lo: Bound)
  {
    hi.Bounded? && lo.Bounded? && hi.key <= lo.key
  }

  /** The range of child slot j of internal node n whose own range is r:
      from the separator before the slot (or r's low end) to the separator
      at it (or r's high end). find_leaf's lower bound picks the slot whose
      range holds the key. */
  function ChildRange(n: BPNode, r: Range, j: nat): Range
  {
    Range(if 0 < j <= |n.keys| then Bounded(n.keys[j - 1]) else r.lo,
          if j < n.keyCount && j < |n.keys| then Bounded(n.keys[j]) else r.hi)
  }

  /** Every live key of n lies within r. */
  ghost predicate KeysIn(n: BPNode, r: Range)
  {
    forall x :: x in Live(n) ==> InRange(x, r)
  }

  /** Node c has the range want its slot gives it - unless c is the node
      `left` a pending split took `detached` from: then c keeps the part of
      want below the detached node's range, and the detached node's range
      runs on to want's end. */
  ghost predicate Fits(range: map<Addr, Range>, c: Addr, want: Range, detached: Addr, left: Addr)
  {
    && c in range
    && if c == left && detached != 0 then
         detached in range && range[c] == Range(want.lo, range[detached].lo) && range[detached].hi == want.hi
       else range[c] == want
  }

  /** Child slot j of internal node a (record n) holds a node that fits
      the slot's range. */
  ghost predicate SlotFits(n: BPNode, a: Addr, j: nat, range: map<Addr, Range>, detached: Addr, left: Addr)
  {
    a in range && j < |n.children| && Fits(range, n.children[j], ChildRange(n, range[a], j), detached, left)
  }

  /** The search-tree property, with a pending split of `left` into it and
      `detached`: every node has a key range, the root's is the whole line,
      every live child fits its slot's range, and every leaf holds only
      keys of its range. */
  ghost predicate RangesOk(heap: map<Addr, BPNode>, range: map<Addr, Range>, root: Addr, detached: Addr, left: Addr)
  {
    && range.Keys == heap.Keys
    && (forall a {:trigger KeysIn(heap[a], range[a])} :: a in heap && heap[a].isLeaf ==> KeysIn(heap[a], range[a]))
    && (forall a, j: nat {:trigger SlotFits(heap[a], a, j, range, detached, left)} ::
          a in heap && !heap[a].isLeaf && j <= heap[a].keyCount ==> SlotFits(heap[a], a, j, range, detached, left))
    && (root != 0 ==> Fits(range, root, Range(NoBound, NoBound), detached, left))
  }

  /** The leaves' ranges follow the chain: each ends before the next
      begins. */
  ghost predicate ChainOrdered(range: map<Addr, Range>, leaves: seq<Addr>)
  {
    && (forall i :: 0 <= i < |leaves| ==> leaves[i] in range)
    && (forall i, j {:trigger Below(range[leaves[i]].hi, range[leaves[j]].lo)} :: 0 <= i < j < |leaves| ==>
          Below(range[leaves[i]].hi, range[leaves[j]].lo))
  }

  /** The live keys of the node at a, in slot order. */
  function LiveKeys(heap: map<Addr, BPNode>, a: Addr): seq<int>
  {
    if a in heap && 0 <= heap[a].keyCount <= |heap[a].keys| then heap[a].keys[..heap[a].keyCount] else []
  }

  /** The keys a walk along the leaf chain reads, leaf after leaf. */
  function ChainKeys(heap: map<Addr, BPNode>, leaves: seq<Addr>): seq<int>
  {
    if leaves == [] then [] else LiveKeys(heap, leaves[0]) + ChainKeys(heap, leaves[1..])
  }

  /** Everything the chain walk reads from leaves at or after the first
      is a live key of one of them. */
  lemma {:induction false} ChainKeysFrom(heap: map<Addr, BPNode>, leaves: seq<Addr>, x: int)
    requires x in ChainKeys(heap, leaves)
    ensures exists j :: 0 <= j < |leaves| && x in LiveKeys(heap, leaves[j])
  {
    if x !in LiveKeys(heap, leaves[0]) {
      ChainKeysFrom(heap, leaves[1..], x);
      var j :| 0 <= j < |leaves[1..]| && x in LiveKeys(heap, leaves[1..][j]);
      assert leaves[j + 1] == leaves[1..][j];
    }
  }

  /** Sorted leaves whose ranges follow the chain give a sorted walk. */
  lemma {:induction false} ChainKeysSorted(heap: map<Addr, BPNode>, range: map<Addr, Range>, leaves: seq<Addr>)
    requires ChainOrdered(range, leaves)
    requires forall k :: 0 <= k < |leaves| ==> leaves[k] in heap && leaves[k] in range
    requires forall k :: 0 <= k < |leaves| ==> KeysIn(heap[leaves[k]], range[leaves[k]])
    requires forall k :: 0 <= k < |leaves| ==> Sorted(LiveKeys(heap, leaves[k]))
    ensures Sorted(ChainKeys(heap, leaves))
  {
    if leaves != [] {
      var first, rest := LiveKeys(heap, leaves[0]), ChainKeys(heap, leaves[1..]);
      ChainKeysSorted(heap, range, leaves[1..]);
      forall x, y | x in first && y in rest
        ensures x <= y
      {
        ChainKeysFrom(heap, leaves[1..], y);
        var j :| 0 <= j < |leaves[1..]| && y in LiveKeys(heap, leaves[1..][j]);
        assert Below(range[leaves[0]].hi, range[leaves[j + 1]].lo);
        LiveKeysIn(heap, leaves[0], range[leaves[0]], x);
        LiveKeysIn(heap, leaves[j + 1], range[leaves[j + 1]], y);
      }
      SortedConcat(first, rest);
    }
  }

  /** A live key lies in every range KeysIn grants. */
  lemma LiveKeysIn(heap: map<Addr, BPNode>, a: Addr, r: Range, x: int)
    requires a in heap && KeysIn(heap[a], r) && x in LiveKeys(heap, a)
    ensures InRange(x, r)
  {
    assert x in Live(heap[a]);
  }

  /** Two sorted runs, the first wholly at most the second, make a sorted
      run. */
  lemma SortedConcat(a: seq<int>, b: seq<int>)
    requires Sorted(a) && Sorted(b) && forall x, y :: x in a && y in b ==> x <= y
    ensures Sorted(a + b)
  {
    var s := a + b;
    forall i, j | 0 <= i < j < |s|
      ensures s[i] <= s[j]
    {
      if j < |a| {
        assert s[i] == a[i] && s[j] == a[j];
      } else if i >= |a| {
        assert s[i] == b[i - |a|] && s[j] == b[j - |a|];
      } else {
        assert s[i] in a && s[j] in b;
      }
    }
  }

  /** x is no live child of any internal node. */
  ghost predicate NotAChild(heap: map<Addr, BPNode>, x: Addr)
  {
    forall b, j :: b in heap && !heap[b].isLeaf && 0 <= j <= heap[b].keyCount && j < |heap[b].children| ==>
      heap[b].children[j] != x
  }

  /** x is a live child only at slot pos of p. */
  ghost predicate OnlySlot(heap: map<Addr, BPNode>, x: Addr, p: Addr, pos: nat)
  {
    forall b, j ::
      (b in heap && !heap[b].isLeaf && 0 <= j <= heap[b].keyCount && j < |heap[b].children| && heap[b].children[j] == x)
      ==> b == p && j == pos
  }

  /** In a well-formed tree neither the root nor the detached node is
      anyone's child, and no node is its own child. */
  lemma TreeChildren(order: nat, root: Addr, top: Addr, heap: map<Addr, BPNode>, height: map<Addr, nat>,
                     detached: Addr, full: Addr)
    requires TreeOk(order, root, top, heap, height, detached, full)
    ensures NotAChild(heap, root) && NotAChild(heap, detached)
    ensures forall b, j :: b in heap && !heap[b].isLeaf && 0 <= j <= heap[b].keyCount && j < |heap[b].children| ==>
      heap[b].children[j] != b
  {
    forall b, j | b in heap && !heap[b].isLeaf && 0 <= j <= heap[b].keyCount && j < |heap[b].children|
      ensures heap[b].children[j] != root && heap[b].children[j] != detached && heap[b].children[j] != b
    {
      assert LinkOk(heap[b], height[b], b, j, heap, height, root, detached);
    }
  }

  /** A live child hangs from one slot only: its parent's, which holds no
      repeated child. */
  lemma TreeOnlySlot(order: nat, root: Addr, top: Addr, heap: map<Addr, BPNode>, height: map<Addr, nat>,
                     detached: Addr, full: Addr, p: Addr, pos: nat)
    requires TreeOk(order, root, top, heap, height, detached, full)
    requires p in heap && !heap[p].isLeaf && pos <= heap[p].keyCount
    ensures pos < |heap[p].children| && OnlySlot(heap, heap[p].children[pos], p, pos)
  {
    var n := heap[p];
    assert LinkOk(n, height[p], p, pos, heap, height, root, detached);
    assert NodeOk(order, n, height[p]);
    var x := n.children[pos];
    forall b, j | b in heap && !heap[b].isLeaf && 0 <= j <= heap[b].keyCount && j < |heap[b].children|
      && heap[b].children[j] == x
      ensures b == p && j == pos
    {
      assert LinkOk(heap[b], height[b], b, j, heap, height, root, detached);
      assert n.children[..n.keyCount + 1][j] == n.children[..n.keyCount + 1][pos];
    }
  }

  /** The range map after a split of a at s into a and the new node y: a
      keeps the part of its range up to s, y takes the rest from s on. */
  function Cut(range: map<Addr, Range>, a: Addr, y: Addr, s: int): map<Addr, Range>
    requires a in range
  {
    range[a := Range(range[a].lo, Bounded(s))][y := Range(Bounded(s), range[a].hi)]
  }

  /** The first leaf's range is the whole line. */
  lemma PlantRanges(order: nat, y: Addr)
    requires 3 <= order && y != 0
    ensures RangesOk(map[y := NewNode(true, order)], map[y := Range(NoBound, NoBound)], y, 0, 0)
    ensures ChainOrdered(map[y := Range(NoBound, NoBound)], [y])
  {
    assert Live(NewNode(true, order)) == multiset{};
  }

  /** insert_into_leaf with a key of the leaf's range keeps every range. */
  lemma LeafInsertRanges(heap: map<Addr, BPNode>, range: map<Addr, Range>, root: Addr, a: Addr, key: int)
    requires RangesOk(heap, range, root, 0, 0) && a in heap && heap[a].isLeaf
    requires 0 <= heap[a].keyCount < |heap[a].keys| && Sorted(heap[a].keys[..heap[a].keyCount])
    requires InRange(key, range[a])
    ensures RangesOk(heap[a := LeafInserted(heap[a], key)], range, root, 0, 0)
  {
    LeafInsertedIn(heap[a], key, range[a]);
    var h := heap[a := LeafInserted(heap[a], key)];
    forall b, j: nat | b in h && !h[b].isLeaf && j <= h[b].keyCount
      ensures SlotFits(h[b], b, j, range, 0, 0)
    {
      assert h[b] == heap[b];
    }
  }

  /** A sorted leaf with room, given a key of its range, keeps only keys
      of that range. */
  lemma LeafInsertedIn(n: BPNode, key: int, r: Range)
    requires 0 <= n.keyCount < |n.keys| && Sorted(n.keys[..n.keyCount]) && KeysIn(n, r) && InRange(key, r)
    ensures KeysIn(LeafInserted(n, key), r)
  {
    LeafInsertedKeys(n, key);
  }

  /** The halves of a full sorted leaf hold keys of the two parts of its
      range cut at the new leaf's first key s. */
  lemma LeafHalvesIn(order: nat, n: BPNode, y: Addr, r: Range)
    requires 3 <= order && |n.keys| == order - 1 && n.keyCount == order - 1 && Sorted(n.keys[..n.keyCount])
    requires KeysIn(n, r)
    ensures var s := n.keys[LeafSplitIndex(order)];
      && KeysIn(LeafLeft(order, n, y), Range(r.lo, Bounded(s)))
      && KeysIn(LeafRight(order, n), Range(Bounded(s), r.hi))
  {
    var si := LeafSplitIndex(order);
    var s := n.keys[si];
    LeafHalves(order, n, y);
    var l, rt := LeafLeft(order, n, y), LeafRight(order, n);
    forall x | x in Live(l)
      ensures InRange(x, Range(r.lo, Bounded(s)))
    {
      assert x in l.keys[..si];
      var i :| 0 <= i < si && l.keys[..si][i] == x;
      assert n.keys[..n.keyCount][i] <= n.keys[..n.keyCount][si];
      assert x in Live(n);
    }
    forall x | x in Live(rt)
      ensures InRange(x, Range(Bounded(s), r.hi))
    {
      assert x in rt.keys[..rt.keyCount];
      var i :| 0 <= i < rt.keyCount && rt.keys[..rt.keyCount][i] == x;
      assert n.keys[..n.keyCount][si] <= n.keys[..n.keyCount][si + i];
      assert x in Live(n);
    }
  }

  /** Inserting a key not below a leaf's first key keeps that first key. */
  lemma LeafInsertedFirst(n: BPNode, key: int)
    requires 0 < n.keyCount < |n.keys| && n.keys[0] <= key
    ensures LeafInserted(n, key).keys[0] == n.keys[0]
  {
    ShiftInsertAt(n.keys, FindInsertPosition(n, key), n.keyCount, key);
  }

  /** split_leaf with a key of the full leaf's range: the leaf keeps its
      range up to the new leaf's first key s, the detached new leaf takes
      the rest, and s is what goes up. */
  lemma LeafSplitRanges(order: nat, heap: map<Addr, BPNode>, range: map<Addr, Range>, root: Addr,
                        leaf: Addr, y: Addr, key: int)
    requires RangesOk(heap, range, root, 0, 0) && y !in heap && y != 0
    requires 3 <= order && leaf in heap && heap[leaf].isLeaf
    requires |heap[leaf].keys| == order - 1 && heap[leaf].keyCount == order - 1
    requires Sorted(heap[leaf].keys[..order - 1]) && InRange(key, range[leaf])
    ensures var s := heap[leaf].keys[LeafSplitIndex(order)];
      var h, rg := LeafSplitInsertHeap(order, heap, leaf, y, key), Cut(range, leaf, y, s);
      && RangesOk(h, rg, root, y, leaf) && y in h && 0 < |h[y].keys| && h[y].keys[0] == s && rg[y].lo == Bounded(s)
  {
    var s := heap[leaf].keys[LeafSplitIndex(order)];
    var rg := Cut(range, leaf, y, s);
    var h := LeafSplitInsertHeap(order, heap, leaf, y, key);
    LeafSplitInsertHeapAt(order, heap, leaf, y, key);
    LeafSplitKeysIn(order, heap, range, leaf, y, key);
    LeafSplitFirstKey(order, heap, leaf, y, key);
    forall a | a in h && h[a].isLeaf
      ensures KeysIn(h[a], rg[a])
    {
      if a != leaf && a != y {
        assert h[a] == heap[a];
      }
    }
    LeafSplitSlots(heap, range, root, leaf, y, s, h);
  }

  /** split_leaf's writes touch only the leaf and the new leaf y, both
      leaves. */
  lemma LeafSplitInsertHeapAt(order: nat, heap: map<Addr, BPNode>, leaf: Addr, y: Addr, key: int)
    requires 3 <= order && leaf in heap && heap[leaf].isLeaf && y !in heap
    requires |heap[leaf].keys| == order - 1 && heap[leaf].keyCount == order - 1
    ensures var h := LeafSplitInsertHeap(order, heap, leaf, y, key);
      && h.Keys == heap.Keys + {y} && h[leaf].isLeaf && h[y].isLeaf
      && forall a :: a in heap && a != leaf ==> h[a] == heap[a]
  {
  }

  /** Every slot and the root fit their ranges once the leaf's range is
      cut at s between it and the detached new leaf y, whatever the two
      leaves now hold. */
  lemma LeafSplitSlots(heap: map<Addr, BPNode>, range: map<Addr, Range>, root: Addr, leaf: Addr, y: Addr, s: int,
                       h: map<Addr, BPNode>)
    requires RangesOk(heap, range, root, 0, 0) && y !in heap && y != 0 && leaf in heap && heap[leaf].isLeaf
    requires h.Keys == heap.Keys + {y} && h[leaf].isLeaf && h[y].isLeaf
    requires forall a :: a in heap && a != leaf ==> h[a] == heap[a]
    requires forall a :: a in h && h[a].isLeaf ==> KeysIn(h[a], Cut(range, leaf, y, s)[a])
    ensures RangesOk(h, Cut(range, leaf, y, s), root, y, leaf)
  {
    var rg := Cut(range, leaf, y, s);
    forall b, j: nat | b in h && !h[b].isLeaf && j <= h[b].keyCount
      ensures SlotFits(h[b], b, j, rg, y, leaf)
    {
      assert SlotFits(heap[b], b, j, range, 0, 0);
    }
    assert root != 0 ==> Fits(range, root, Range(NoBound, NoBound), 0, 0);
  }

  /** The leaf halves after split_leaf's insertion hold keys of their
      ranges, every other leaf is untouched, and the new leaf still starts
      with s. */
  lemma LeafSplitKeysIn(order: nat, heap: map<Addr, BPNode>, range: map<Addr, Range>, leaf: Addr, y: Addr, key: int)
    requires y !in heap && 3 <= order && leaf in heap && leaf in range && heap[leaf].isLeaf
    requires |heap[leaf].keys| == order - 1 && heap[leaf].keyCount == order - 1
    requires Sorted(heap[leaf].keys[..order - 1]) && KeysIn(heap[leaf], range[leaf]) && InRange(key, range[leaf])
    ensures var s := heap[leaf].keys[LeafSplitIndex(order)];
      var h, rg := LeafSplitInsertHeap(order, heap, leaf, y, key), Cut(range, leaf, y, s);
      && leaf in h && y in h && KeysIn(h[leaf], rg[leaf]) && KeysIn(h[y], rg[y])
  {
    var n := heap[leaf];
    var s := n.keys[LeafSplitIndex(order)];
    var h1 := LeafSplitHeap(order, heap, leaf, y);
    var h := LeafSplitInsertHeap(order, heap, leaf, y, key);
    LeafSplitRoom(order, heap, leaf, y);
    LeafSplitHalvesIn(order, n, y, range[leaf], key);
    var l, r := LeafLeft(order, n, y), LeafRight(order, n);
    assert h1[leaf] == l && h1[y] == r && r.keys[0] == s;
    if key < s {
      assert h == h1[leaf := LeafInserted(l, key)];
    } else {
      assert h == h1[y := LeafInserted(r, key)];
    }
  }

  /** The two halves of a full sorted leaf, with key inserted into the
      one it belongs to, hold keys of the two parts of the leaf's range
      cut at s. */
  lemma LeafSplitHalvesIn(order: nat, n: BPNode, y: Addr, rg: Range, key: int)
    requires 3 <= order && |n.keys| == order - 1 && n.keyCount == order - 1 && Sorted(n.keys[..n.keyCount])
    requires KeysIn(n, rg) && InRange(key, rg)
    ensures var s := n.keys[LeafSplitIndex(order)];
      var l, r := LeafLeft(order, n, y), LeafRight(order, n);
      && 0 <= l.keyCount < |l.keys| && 0 <= r.keyCount < |r.keys|
      && KeysIn(if key < s then LeafInserted(l, key) else l, Range(rg.lo, Bounded(s)))
      && KeysIn(if key < s then r else LeafInserted(r, key), Range(Bounded(s), rg.hi))
  {
    var s := n.keys[LeafSplitIndex(order)];
    LeafHalves(order, n, y);
    LeafHalvesIn(order, n, y, rg);
    if key < s {
      LeafInsertedIn(LeafLeft(order, n, y), key, Range(rg.lo, Bounded(s)));
    } else {
      LeafInsertedIn(LeafRight(order, n), key, Range(Bounded(s), rg.hi));
    }
  }

  /** After split_leaf's insertion the new leaf still starts with the key
      it was split at. */
  lemma LeafSplitFirstKey(order: nat, heap: map<Addr, BPNode>, leaf: Addr, y: Addr, key: int)
    requires 3 <= order && leaf in heap && leaf != y
    requires |heap[leaf].keys| == order - 1 && heap[leaf].keyCount == order - 1
    ensures var h := LeafSplitInsertHeap(order, heap, leaf, y, key);
      y in h && 0 < |h[y].keys| && h[y].keys[0] == heap[leaf].keys[LeafSplitIndex(order)]
  {
    var h1 := LeafSplitHeap(order, heap, leaf, y);
    LeafSplitRoom(order, heap, leaf, y);
    if h1[y].keys[0] <= key {
      LeafInsertedFirst(h1[y], key);
    }
  }

  /** The new leaf y, hung into the chain after slot k with the leaf's
      range cut at one of its keys s, keeps the chain's ranges in order. */
  lemma LeafSplitChainOrdered(range: map<Addr, Range>, leaves: seq<Addr>, k: nat, y: Addr, s: int)
    requires ChainOrdered(range, leaves) && k < |leaves| && leaves[k] in range && y !in range
    requires Distinct(leaves) && InRange(s, range[leaves[k]])
    requires forall i :: 0 <= i < |leaves| ==> leaves[i] in range
    ensures ChainOrdered(Cut(range, leaves[k], y, s), HungAfter(leaves, k, y))
  {
    var rg, ls := Cut(range, leaves[k], y, s), HungAfter(leaves, k, y);
    forall i | 0 <= i < |ls|
      ensures ls[i] in rg
      ensures i < k ==> rg[ls[i]] == range[leaves[i]]
      ensures i == k ==> rg[ls[i]] == Range(range[leaves[k]].lo, Bounded(s))
      ensures i == k + 1 ==> rg[ls[i]] == Range(Bounded(s), range[leaves[k]].hi)
      ensures k + 1 < i ==> rg[ls[i]] == range[leaves[i - 1]]
    {
      if i < k {
        assert leaves[i] != leaves[k];
      } else if k + 1 < i {
        assert leaves[i - 1] != leaves[k];
      }
    }
    forall i, j | 0 <= i < j < |ls|
      ensures Below(rg[ls[i]].hi, rg[ls[j]].lo)
    {
      var oi := if i <= k then i else i - 1;
      var oj := if j <= k + 1 then (if j <= k then j else k) else j - 1;
      if oi < oj {
        assert Below(range[leaves[oi]].hi, range[leaves[oj]].lo);
      }
      if i < k && k < j {
        assert Below(range[leaves[i]].hi, range[leaves[k]].lo);
      }
      if i <= k + 1 && k + 1 < j {
        assert Below(range[leaves[k]].hi, range[leaves[j - 1]].lo);
      }
    }
  }

  /** create_new_root over the root, split into it and the detached node
      at key: the new root spans the whole line and its two slots give the
      halves exactly their ranges. */
  lemma NewRootRanges(order: nat, heap: map<Addr, BPNode>, range: map<Addr, Range>, root: Addr, right: Addr,
                      key: int, r: Addr)
    requires 3 <= order && RangesOk(heap, range, root, right, root)
    requires root in heap && right in heap && right != root && r !in heap && r != 0 && root != 0 && right != 0
    requires NotAChild(heap, root) && range[right].lo == Bounded(key)
    ensures RangesOk(NewRootHeap(order, heap, r, root, right, key), range[r := Range(NoBound, NoBound)], r, 0, 0)
  {
    assert Fits(range, root, Range(NoBound, NoBound), right, root);
    assert range[right] == Range(Bounded(key), NoBound);
    var h := NewRootHeap(order, heap, r, root, right, key);
    var rg := range[r := Range(NoBound, NoBound)];
    NewRootHeapAt(order, heap, r, root, right, key);
    forall a | a in h && h[a].isLeaf
      ensures KeysIn(h[a], rg[a])
    {
      assert KeysIn(heap[a], range[a]);
      assert Live(h[a]) == Live(heap[a]);
    }
    forall b, j: nat | b in h && !h[b].isLeaf && j <= h[b].keyCount
      ensures SlotFits(h[b], b, j, rg, 0, 0)
    {
      if b != r {
        assert SlotFits(heap[b], b, j, range, right, root);
      } else {
        NewRootSlots(order, range, root, right, key, r, j);
      }
    }
  }

  /** The new root's two slots give the old root the range up to key and
      the detached node the range from key on. */
  lemma NewRootSlots(order: nat, range: map<Addr, Range>, root: Addr, right: Addr, key: int, r: Addr, j: nat)
    requires 3 <= order && root in range && right in range && r !in range && right != 0 && j <= 1
    requires range[root] == Range(NoBound, range[right].lo) && range[right] == Range(Bounded(key), NoBound)
    ensures SlotFits(NewRoot(order, root, right, key), r, j, range[r := Range(NoBound, NoBound)], 0, 0)
  {
  }

  /** insert_into_parent's step at p, with the detached node child hung
      right after left, the node it was split from, at the promoted key:
      every node fits its slot again. */
  lemma ParentHangRanges(heap: map<Addr, BPNode>, range: map<Addr, Range>, root: Addr, p: Addr, pos: nat, key: int,
                         child: Addr, left: Addr)
    requires RangesOk(heap, range, root, child, left) && child != 0 && child in heap
    requires p in heap && !heap[p].isLeaf && pos <= heap[p].keyCount < |heap[p].keys|
    requires heap[p].keyCount + 1 < |heap[p].children| && heap[p].children[pos] == left && left != root
    requires OnlySlot(heap, left, p, pos) && NotAChild(heap, child) && range[child].lo == Bounded(key)
    ensures RangesOk(heap[p := ParentInserted(heap[p], pos, key, child)], range, root, 0, 0)
  {
    var n := heap[p];
    var h := heap[p := ParentInserted(n, pos, key, child)];
    forall b, j: nat | b in h && !h[b].isLeaf && j <= h[b].keyCount
      ensures SlotFits(h[b], b, j, range, 0, 0)
    {
      if b != p {
        assert SlotFits(heap[b], b, j, range, child, left);
      } else {
        ParentSlotFits(n, p, pos, key, child, left, range, j);
      }
    }
  }

  /** Slot j of p after the step: the slots before left keep their
      ranges, left ends at key, child runs from key to where left ended,
      and the later slots move up one with their ranges. */
  lemma ParentSlotFits(n: BPNode, p: Addr, pos: nat, key: int, child: Addr, left: Addr,
                       range: map<Addr, Range>, j: nat)
    requires pos <= n.keyCount < |n.keys| && n.keyCount + 1 < |n.children| && n.children[pos] == left
    requires child != 0 && child in range && range[child].lo == Bounded(key)
    requires forall i: nat :: i <= n.keyCount ==> SlotFits(n, p, i, range, child, left)
    requires forall i :: 0 <= i <= n.keyCount && i != pos ==> n.children[i] != left
    requires forall i :: 0 <= i <= n.keyCount ==> n.children[i] != child
    requires j <= n.keyCount + 1
    ensures SlotFits(ParentInserted(n, pos, key, child), p, j, range, 0, 0)
  {
    ParentInsertedPlaces(n, pos, key, child);
    if j < pos {
      assert SlotFits(n, p, j, range, child, left);
    } else if j == pos {
      assert SlotFits(n, p, pos, range, child, left);
    } else if j == pos + 1 {
      assert SlotFits(n, p, pos, range, child, left);
    } else {
      assert SlotFits(n, p, j - 1, range, child, left);
    }
  }

  /** create_new_root in a tree whose ranges fit with right pending: the
      new root at address top takes the whole line, and no leaf's range
      changes. */
  lemma NewRootRangesStep(order: nat, root: Addr, top: Addr, heap: map<Addr, BPNode>, height: map<Addr, nat>,
                          range: map<Addr, Range>, right: Addr, key: int, h: map<Addr, BPNode>, rg: map<Addr, Range>)
    requires TreeOk(order, root, top, heap, height, right, 0) && RangesOk(heap, range, root, right, root)
    requires root in heap && right in heap && right != root && range[right].lo == Bounded(key)
    requires h == NewRootHeap(order, heap, top, root, right, key) && rg == range[top := Range(NoBound, NoBound)]
    ensures RangesOk(h, rg, top, 0, 0) && LeafRangesKept(heap, range, rg)
  {
    TreeChildren(order, root, top, heap, height, right, 0);
    assert top !in heap && 0 !in heap;
    NewRootRanges(order, heap, range, root, right, key, top);
  }

  /** Rewriting only parent pointers keeps every range fact. */
  lemma RangesRepointed(h1: map<Addr, BPNode>, h2: map<Addr, BPNode>, range: map<Addr, Range>, root: Addr,
                        detached: Addr, left: Addr)
    requires RangesOk(h1, range, root, detached, left) && h2.Keys == h1.Keys
    requires forall a :: a in h1 ==> h2[a] == h1[a].(parent := h2[a].parent)
    ensures RangesOk(h2, range, root, detached, left)
  {
    forall a | a in h2 && h2[a].isLeaf
      ensures KeysIn(h2[a], range[a])
    {
      assert KeysIn(h1[a], range[a]);
      assert Live(h2[a]) == Live(h1[a]);
    }
    forall b, j: nat | b in h2 && !h2[b].isLeaf && j <= h2[b].keyCount
      ensures SlotFits(h2[b], b, j, range, detached, left)
    {
      assert SlotFits(h1[b], b, j, range, detached, left);
    }
  }

  /** split_internal's writes and re-pointing at the full node: the node
      keeps its range up to the median m, the detached new node takes the
      rest, and every moved child keeps the range its new slot gives it. */
  lemma InternalSplitRanges(order: nat, heap: map<Addr, BPNode>, range: map<Addr, Range>, root: Addr,
                            node: Addr, y: Addr, h2: map<Addr, BPNode>)
    requires 3 <= order && RangesOk(heap, range, root, 0, 0) && y !in heap && y != 0
    requires node in heap && !heap[node].isLeaf && heap[node].keyCount == order - 1
    requires |heap[node].keys| == order - 1 && |heap[node].children| == order
    requires forall j :: 0 <= j < order ==> heap[node].children[j] != node
    requires Repointed(InternalSplitHeap(order, heap, node, y), h2, Moved(order, heap[node]), y)
    ensures RangesOk(h2, Cut(range, node, y, heap[node].keys[InternalSplitIndex(order)]), root, y, node)
  {
    var h1 := InternalSplitHeap(order, heap, node, y);
    var rg := Cut(range, node, y, heap[node].keys[InternalSplitIndex(order)]);
    InternalSplitNodeRanges(order, heap, range, root, node, y);
    RangesRepointed(h1, h2, rg, root, y, node);
  }

  /** The node-level part of InternalSplitRanges, before the moved
      children point up to the new node. */
  lemma InternalSplitNodeRanges(order: nat, heap: map<Addr, BPNode>, range: map<Addr, Range>, root: Addr,
                                node: Addr, y: Addr)
    requires 3 <= order && RangesOk(heap, range, root, 0, 0) && y !in heap && y != 0
    requires node in heap && !heap[node].isLeaf && heap[node].keyCount == order - 1
    requires |heap[node].keys| == order - 1 && |heap[node].children| == order
    requires forall j :: 0 <= j < order ==> heap[node].children[j] != node
    ensures RangesOk(InternalSplitHeap(order, heap, node, y), Cut(range, node, y, heap[node].keys[InternalSplitIndex(order)]),
                     root, y, node)
  {
    var h1 := InternalSplitHeap(order, heap, node, y);
    var rg := Cut(range, node, y, heap[node].keys[InternalSplitIndex(order)]);
    InternalSplitHeapAt(order, heap, node, y);
    InternalHalves(order, heap[node]);
    forall a | a in h1 && h1[a].isLeaf
      ensures KeysIn(h1[a], rg[a])
    {
    }
    InternalSplitSlotsLeft(order, heap, range, node, y);
    InternalSplitSlotsRight(order, heap, range, node, y);
    forall b, j: nat | b in h1 && !h1[b].isLeaf && j <= h1[b].keyCount && b != node && b != y
      ensures SlotFits(h1[b], b, j, rg, y, node)
    {
      assert SlotFits(heap[b], b, j, range, 0, 0);
    }
  }

  /** The node's own slots after split_internal: the children up to the
      median keep their ranges, the last one ending at the median. */
  lemma InternalSplitSlotsLeft(order: nat, heap: map<Addr, BPNode>, range: map<Addr, Range>, node: Addr, y: Addr)
    requires 3 <= order && range.Keys == heap.Keys && y !in heap
    requires node in heap && !heap[node].isLeaf && heap[node].keyCount == order - 1
    requires |heap[node].keys| == order - 1 && |heap[node].children| == order
    requires forall j :: 0 <= j < order ==> heap[node].children[j] != node
    requires forall j: nat :: j <= order - 1 ==> SlotFits(heap[node], node, j, range, 0, 0)
    ensures var si := InternalSplitIndex(order);
      forall j: nat :: j <= si ==>
        SlotFits(InternalLeft(order, heap[node]), node, j, Cut(range, node, y, heap[node].keys[si]), y, node)
  {
    var si := InternalSplitIndex(order);
    var n := heap[node];
    var l := InternalLeft(order, n);
    var rg := Cut(range, node, y, n.keys[si]);
    forall j: nat | j <= si
      ensures SlotFits(l, node, j, rg, y, node)
    {
      assert SlotFits(n, node, j, range, 0, 0);
      assert l.children[j] == n.children[j];
    }
  }

  /** The new node's slots after split_internal: child j is the node's
      child si + 1 + j, with the same range, the first one starting at the
      median. */
  lemma InternalSplitSlotsRight(order: nat, heap: map<Addr, BPNode>, range: map<Addr, Range>, node: Addr, y: Addr)
    requires 3 <= order && range.Keys == heap.Keys && y !in heap
    requires node in heap && !heap[node].isLeaf && heap[node].keyCount == order - 1
    requires |heap[node].keys| == order - 1 && |heap[node].children| == order
    requires forall j :: 0 <= j < order ==> heap[node].children[j] != node
    requires forall j: nat :: j <= order - 1 ==> SlotFits(heap[node], node, j, range, 0, 0)
    ensures var si := InternalSplitIndex(order);
      forall j: nat :: j <= order - si - 2 ==>
        SlotFits(InternalRight(order, heap[node]), y, j, Cut(range, node, y, heap[node].keys[si]), y, node)
  {
    var si := InternalSplitIndex(order);
    var n := heap[node];
    var r := InternalRight(order, n);
    var rg := Cut(range, node, y, n.keys[si]);
    InternalHalves(order, n);
    forall j: nat | j <= order - si - 2
      ensures SlotFits(r, y, j, rg, y, node)
    {
      assert SlotFits(n, node, si + 1 + j, range, 0, 0);
      assert r.children[j] == r.children[..order - si - 1][j] == n.children[si + 1 + j];
      if 0 < j {
        assert r.keys[j - 1] == r.keys[..order - si - 2][j - 1] == n.keys[si + j];
      }
      if j < order - si - 2 {
        assert r.keys[j] == r.keys[..order - si - 2][j] == n.keys[si + 1 + j];
      }
    }
  }

  /** Every leaf of h0 keeps its range in r1. */
  ghost predicate LeafRangesKept(h0: map<Addr, BPNode>, r0: map<Addr, Range>, r1: map<Addr, Range>)
  {
    forall a :: a in h0 && h0[a].isLeaf && a in r0 ==> a in r1 && r1[a] == r0[a]
  }

  /** Two steps that keep the leaves and their ranges are one. */
  lemma LeafRangesKeptTrans(h0: map<Addr, BPNode>, h1: map<Addr, BPNode>,
                            r0: map<Addr, Range>, r1: map<Addr, Range>, r2: map<Addr, Range>)
    requires LeavesKept(h0, h1) && LeafRangesKept(h0, r0, r1) && LeafRangesKept(h1, r1, r2)
    ensures LeafRangesKept(h0, r0, r2)
  {
  }

  /** The chain's order survives steps that keep the leaves' ranges. */
  lemma ChainOrderedKept(h0: map<Addr, BPNode>, r0: map<Addr, Range>, r1: map<Addr, Range>, leaves: seq<Addr>)
    requires ChainOrdered(r0, leaves) && LeafRangesKept(h0, r0, r1)
    requires forall k :: 0 <= k < |leaves| ==> leaves[k] in h0 && leaves[k] in r0 && h0[leaves[k]].isLeaf
    ensures ChainOrdered(r1, leaves)
  {
  }

  /** split_leaf of the full leaf leaves[k] in a tree whose ranges fit:
      cutting the leaf's range at its new sibling's first key, the new
      leaf at address top fits with its parent slot still to come, and the
      chain with the sibling hung in keeps its order. */
  lemma LeafSplitRangesStep(order: nat, root: Addr, top: Addr, heap: map<Addr, BPNode>, height: map<Addr, nat>,
                            firstLeaf: Addr, leaves: seq<Addr>, range: map<Addr, Range>, k: nat, key: int,
                            h: map<Addr, BPNode>, ls: seq<Addr>, rg: map<Addr, Range>)
    requires TreeOk(order, root, top, heap, height, 0, 0) && ChainOk(heap, firstLeaf, leaves)
    requires RangesOk(heap, range, root, 0, 0) && ChainOrdered(range, leaves)
    requires k < |leaves| && heap[leaves[k]].keyCount == order - 1 && InRange(key, range[leaves[k]])
    requires h == LeafSplitInsertHeap(order, heap, leaves[k], top, key) && ls == HungAfter(leaves, k, top)
    requires rg == Cut(range, leaves[k], top, heap[leaves[k]].keys[LeafSplitIndex(order)])
    ensures RangesOk(h, rg, root, top, leaves[k]) && ChainOrdered(rg, ls)
    ensures top in h && 0 < |h[top].keys| && top in rg && rg[top].lo == Bounded(h[top].keys[0])
  {
    var leaf := leaves[k];
    LeafBelowTop(order, root, top, heap, height, leaf);
    assert NodeOk(order, heap[leaf], height[leaf]);
    var s := heap[leaf].keys[LeafSplitIndex(order)];
    LeafSplitRanges(order, heap, range, root, leaf, top, key);
    assert s in Live(heap[leaf]) by {
      assert heap[leaf].keys[..heap[leaf].keyCount][LeafSplitIndex(order)] == s;
    }
    assert KeysIn(heap[leaf], range[leaf]);
    assert forall i :: 0 <= i < |leaves| ==> leaves[i] in range;
    LeafSplitChainOrdered(range, leaves, k, top, s);
  }

  /** split_internal of the full node in a tree whose ranges fit: cutting
      the node's range at its median, the new node at address top and the
      children it took over fit, with its parent slot still to come. */
  lemma InternalSplitRangesStep(order: nat, root: Addr, top: Addr, heap: map<Addr, BPNode>, height: map<Addr, nat>,
                                range: map<Addr, Range>, node: Addr, h2: map<Addr, BPNode>, rg: map<Addr, Range>)
    requires TreeOk(order, root, top, heap, height, 0, node) && RangesOk(heap, range, root, 0, 0)
    requires node in heap && !heap[node].isLeaf && heap[node].keyCount == order - 1
    requires Repointed(InternalSplitHeap(order, heap, node, top), h2, Moved(order, heap[node]), top)
    requires |heap[node].keys| == order - 1 && rg == Cut(range, node, top, heap[node].keys[InternalSplitIndex(order)])
    ensures RangesOk(h2, rg, root, top, node) && LeafRangesKept(heap, range, rg)
    ensures node in h2 && |h2[node].keys| == order - 1 && top in rg && rg[top].lo == Bounded(h2[node].keys[(order - 1) / 2])
  {
    assert NodeOk(order, heap[node], height[node]);
    assert top !in heap;
    TreeChildren(order, root, top, heap, height, 0, node);
    InternalSplitRanges(order, heap, range, root, node, top, h2);
    assert node !in Moved(order, heap[node]) by {
      assert forall j :: InternalSplitIndex(order) + 1 <= j < order ==> heap[node].children[j] != node;
    }
    InternalSplitHeapAt(order, heap, node, top);
  }

  /** In a well-formed tree whose ranges fit and follow the chain, the
      walk along the leaf chain reads the keys in sorted order. */
  lemma ChainSortedOfRanges(order: nat, root: Addr, top: Addr, heap: map<Addr, BPNode>, height: map<Addr, nat>,
                            range: map<Addr, Range>, firstLeaf: Addr, leaves: seq<Addr>)
    requires TreeOk(order, root, top, heap, height, 0, 0) && ChainOk(heap, firstLeaf, leaves)
    requires RangesOk(heap, range, root, 0, 0) && ChainOrdered(range, leaves)
    ensures Sorted(ChainKeys(heap, leaves))
  {
    forall k | 0 <= k < |leaves|
      ensures Sorted(LiveKeys(heap, leaves[k]))
    {
      assert NodeOk(order, heap[leaves[k]], height[leaves[k]]);
    }
    ChainKeysSorted(heap, range, leaves);
  }


  /** The B+ tree object: root, first_leaf and the heap of its nodes.
      `corrected` selects, at the one step where the code as written goes
      wrong, the evidently intended behaviour: insert_into_parent placing
      the new node right after the node it was split from. */
  class BPlusTree {
    const order: nat
    const corrected: bool
    var root: Addr
    var firstLeaf: Addr
    var heap: map<Addr, BPNode>
    var top: Addr
    ghost var height: map<Addr, nat>
    ghost var leaves: seq<Addr>
    ghost var range: map<Addr, Range>

    /** The tree and the leaf chain are well formed; with the corrected
        step the nodes' key ranges also fit and follow the chain. */
    ghost predicate Valid()
      reads this
    {
      && TreeOk(order, root, top, heap, height, 0, 0) && ChainOk(heap, firstLeaf, leaves)
      && (corrected ==> RangesOk(heap, range, root, 0, 0) && ChainOrdered(range, leaves))
    }

    /** How often the leaves hold v. */
    ghost function Count(v: int): nat
      reads this
    {
      LeafCount(heap, top, v)
    }

    /** BPlusTree(): no root and no first leaf. The static_assert of the
        class template demands order at least 3. */
    constructor (order: nat, corrected: bool)
      requires 3 <= order
      ensures Valid() && this.order == order && this.corrected == corrected && root == 0 && firstLeaf == 0
      ensures forall v :: Count(v) == 0
    {
      this.order := order;
      this.corrected := corrected;
      root := 0;
      firstLeaf := 0;
      heap := map[];
      top := 1;
      height := map[];
      leaves := [];
      range := map[];
      new;
      forall v
        ensures Count(v) == 0
      {
        PlantCounts(order, 1, 1, v);
      }
    }

    /** insert(key): plant a first leaf in an empty tree, otherwise insert
        into the leaf find_leaf reaches, splitting it when it is full. The
        tree stays well formed and holds key once more; with the corrected
        step a walk along the leaf chain reads the keys in sorted order. */
    method Insert(key: int)
      requires Valid()
      modifies this
      ensures Valid() && root != 0
      ensures forall v :: Count(v) == old(Count(v)) + (if v == key then 1 else 0)
      ensures corrected ==> Sorted(ChainKeys(heap, leaves))
    {
      if root == 0 {
        PlantLeaf();
        LeafInsertHere(root, key);
      } else {
        var leaf := FindLeaf(key);
        if heap[leaf].keyCount < order - 1 {
          LeafInsertHere(leaf, key);
        } else {
          SplitLeaf(leaf, key);
        }
      }
      if corrected {
        ChainSortedOfRanges(order, root, top, heap, height, range, firstLeaf, leaves);
      }
    }

    /** insert_into_leaf on a leaf with room, with key in the leaf's range
        under the corrected step: the tree stays valid and holds key once
        more. */
    method LeafInsertHere(leaf: Addr, key: int)
      requires Valid() && leaf in heap && heap[leaf].isLeaf && heap[leaf].keyCount < order - 1
      requires corrected ==> leaf in range && InRange(key, range[leaf])
      modifies this`heap
      ensures Valid() && root != 0
      ensures heap == old(heap)[leaf := LeafInserted(old(heap)[leaf], key)]
      ensures forall v :: Count(v) == old(Count(v)) + (if v == key then 1 else 0)
    {
      ghost var heap0 := heap;
      LeafBelowTop(order, root, top, heap, height, leaf);
      assert NodeOk(order, heap[leaf], height[leaf]);
      InsertIntoLeaf(leaf, key);
      LeafInsertStep(order, root, top, heap0, height, firstLeaf, leaves, leaf, key, heap);
      if corrected {
        LeafInsertRanges(heap0, range, root, leaf, key);
      }
    }

    /** The empty-tree case of insert: a new empty leaf at the next free
        address becomes the root and the first leaf. */
    method PlantLeaf()
      requires Valid() && root == 0
      modifies this`heap, this`top, this`root, this`firstLeaf, this`height, this`leaves, this`range
      ensures Valid() && root != 0 && root in heap && heap[root].isLeaf && heap[root].keyCount == 0
      ensures forall v :: old(Count(v)) == 0 && Count(v) == 0
    {
      ghost var height0, top0 := height, top;
      var y := top;
      top := top + 1;
      heap := heap[y := NewNode(true, order)];
      root := y;
      firstLeaf := y;
      height := height[y := 0];
      leaves := [y];
      range := map[y := Range(NoBound, NoBound)];
      PlantKeepsTree(order, y, height0);
      PlantRanges(order, y);
      assert heap == map[y := NewNode(true, order)];
      forall v
        ensures old(Count(v)) == 0 && Count(v) == 0
      {
        PlantCounts(order, y, top0, v);
      }
    }

    /** find_leaf(key): from the root down, follow the child at the lower
        bound of key until a leaf. It ends at a leaf of the chain; with the
        corrected step, at one whose key range holds key - the leaf where
        key belongs. */
    method FindLeaf(key: int) returns (leaf: Addr)
      requires Valid() && root != 0
      ensures leaf in heap && heap[leaf].isLeaf && leaf in leaves
      ensures corrected ==> leaf in range && InRange(key, range[leaf])
    {
      leaf := root;
      while !heap[leaf].isLeaf
        invariant leaf in heap && leaf in height
        invariant corrected ==> leaf in range && InRange(key, range[leaf])
        decreases height[leaf]
      {
        var n := heap[leaf];
        var pos := FindInsertPosition(n, key);
        assert LinkOk(n, height[leaf], leaf, pos, heap, height, root, 0);
        assert corrected ==> SlotFits(n, leaf, pos, range, 0, 0);
        leaf := n.children[pos];
      }
    }

    /** insert_into_leaf(key) on the node at a: the backward shift loop,
        then key at its lower-bound slot. */
    method InsertIntoLeaf(a: Addr, key: int)
      requires a in heap && 0 <= heap[a].keyCount < |heap[a].keys|
      modifies this`heap
      ensures heap == old(heap)[a := LeafInserted(old(heap)[a], key)]
    {
      var n := heap[a];
      var pos := FindInsertPosition(n, key);
      var ks := ShiftRight(n.keys, pos, n.keyCount, key);
      heap := heap[a := n.(keys := ks, keyCount := n.keyCount + 1)];
    }

    /** split_leaf(leaf, key): a new leaf takes the upper keys and follows
        leaf in the chain, key goes into the half it belongs to, and the
        new leaf's first key goes up to the parent, or into a new root. */
    method SplitLeaf(leaf: Addr, key: int)
      requires Valid() && leaf in heap && heap[leaf].isLeaf && heap[leaf].keyCount == order - 1
      requires corrected ==> leaf in range && InRange(key, range[leaf])
      modifies this`heap, this`top, this`root, this`height, this`leaves, this`range
      ensures Valid() && root != 0
      ensures forall v :: Count(v) == old(Count(v)) + (if v == key then 1 else 0)
    {
      var y := SplitLeafDetach(leaf, key);
      ghost var heap2, top2, range2 := heap, top, range;
      var promote := heap[y].keys[0];
      HandUp(leaf, y, promote);
      ChainKept(heap2, heap, firstLeaf, leaves);
      LeavesKeptCountsAll(heap2, top2, heap, top);
      if corrected {
        ChainOrderedKept(heap2, range2, range, leaves);
      }
    }

    /** split_leaf up to the hand-up, with the ranges: the leaf's range is
        cut at the new leaf's first key, which is what goes up. */
    method SplitLeafDetach(leaf: Addr, key: int) returns (y: Addr)
      requires Valid() && leaf in heap && heap[leaf].isLeaf && heap[leaf].keyCount == order - 1
      requires corrected ==> leaf in range && InRange(key, range[leaf])
      modifies this`heap, this`top, this`height, this`leaves, this`range
      ensures TreeOk(order, root, top, heap, height, y, 0) && ChainOk(heap, firstLeaf, leaves)
      ensures leaf in heap && y in heap && leaf != y && heap[y].parent == heap[leaf].parent && 0 < |heap[y].keys|
      ensures leaf in height && y in height && height[y] == height[leaf]
      ensures forall v :: Count(v) == old(Count(v)) + (if v == key then 1 else 0)
      ensures corrected ==> RangesOk(heap, range, root, y, leaf) && ChainOrdered(range, leaves)
      ensures corrected ==> y in range && range[y].lo == Bounded(heap[y].keys[0])
    {
      ghost var heap0, height0, leaves0 := heap, height, leaves;
      ghost var k;
      y, k := SplitLeafInsert(leaf, key);
      if corrected {
        CutAtLeafSplit(k, key, y, heap0, height0, leaves0);
      }
    }

    /** split_leaf up to the hand-up: the full leaf is split, key goes into
        the half it belongs to, and the new leaf joins the chain right after
        leaves[k]. The tree is well formed with the new leaf detached, and
        holds key once more. */
    method SplitLeafInsert(leaf: Addr, key: int) returns (y: Addr, ghost k: nat)
      requires TreeOk(order, root, top, heap, height, 0, 0) && ChainOk(heap, firstLeaf, leaves)
      requires leaf in heap && heap[leaf].isLeaf && heap[leaf].keyCount == order - 1
      modifies this`heap, this`top, this`height, this`leaves
      ensures TreeOk(order, root, top, heap, height, y, 0) && ChainOk(heap, firstLeaf, leaves)
      ensures leaf in heap && y in heap && leaf != y && heap[y].parent == heap[leaf].parent && 0 < |heap[y].keys|
      ensures leaf in height && y in height && height[y] == height[leaf]
      ensures y == old(top) && heap[leaf].next == y && heap == LeafSplitInsertHeap(order, old(heap), leaf, y, key)
      ensures k < |old(leaves)| && old(leaves)[k] == leaf && leaves == HungAfter(old(leaves), k, y)
      ensures forall v :: Count(v) == old(Count(v)) + (if v == key then 1 else 0)
    {
      ghost var heap0, height0, top0, leaves0 := heap, height, top, leaves;
      LeafBelowTop(order, root, top, heap, height, leaf);
      assert NodeOk(order, heap[leaf], height[leaf]);
      k :| 0 <= k < |leaves| && leaves[k] == leaf;
      y := SplitLeafWrites(leaf, key);
      height := height[y := 0];
      leaves := HungAfter(leaves, k, y);
      LeafSplitInsertStep(order, root, top0, heap0, height0, firstLeaf, leaves0, k, key, top, heap, height, leaves);
    }

    /** The ranges after split_leaf of leaves0[k] into y, heap0 and
        leaves0 being the heap and the chain before it: the leaf's range
        is cut at y's first key, which starts y's range, and the chain
        keeps its order. */
    ghost method CutAtLeafSplit(k: nat, key: int, y: Addr, heap0: map<Addr, BPNode>, height0: map<Addr, nat>,
                                leaves0: seq<Addr>)
      requires TreeOk(order, root, y, heap0, height0, 0, 0) && ChainOk(heap0, firstLeaf, leaves0)
      requires RangesOk(heap0, range, root, 0, 0) && ChainOrdered(range, leaves0)
      requires k < |leaves0| && heap0[leaves0[k]].keyCount == order - 1 && InRange(key, range[leaves0[k]])
      requires |heap0[leaves0[k]].keys| == order - 1
      requires heap == LeafSplitInsertHeap(order, heap0, leaves0[k], y, key) && leaves == HungAfter(leaves0, k, y)
      modifies this`range
      ensures RangesOk(heap, range, root, y, leaves0[k]) && ChainOrdered(range, leaves)
      ensures y in heap && 0 < |heap[y].keys| && y in range && range[y].lo == Bounded(heap[y].keys[0])
    {
      range := Cut(range, leaves0[k], y, heap0[leaves0[k]].keys[LeafSplitIndex(order)]);
      LeafSplitRangesStep(order, root, y, heap0, height0, firstLeaf, leaves0, old(range), k, key, heap, leaves, range);
    }

    /** The node-level part of split_leaf with the insertion: the leaf is
        split, then key goes into the half it belongs to (the new leaf when
        key is not below its first key). */
    method SplitLeafWrites(leaf: Addr, key: int) returns (y: Addr)
      requires 3 <= order && leaf in heap && leaf < top
      requires |heap[leaf].keys| == order - 1 && heap[leaf].keyCount == order - 1
      modifies this`heap, this`top
      ensures y == old(top) && top == y + 1
      ensures heap == LeafSplitInsertHeap(order, old(heap), leaf, y, key)
    {
      LeafSplitRoom(order, heap, leaf, top);
      y := SplitOffLeaf(leaf);
      if key < heap[y].keys[0] {
        InsertIntoLeaf(leaf, key);
      } else {
        InsertIntoLeaf(y, key);
      }
    }

    /** The first part of split_leaf: a new leaf at the next free address
        takes the keys from slot order / 2 on, the old leaf's successor and
        its parent; the old leaf keeps the keys below and is followed by
        the new one. */
    method SplitOffLeaf(leaf: Addr) returns (y: Addr)
      requires 3 <= order && leaf in heap && leaf < top && |heap[leaf].keys| == order - 1
      modifies this`heap, this`top
      ensures y == old(top) && top == y + 1
      ensures heap == LeafSplitHeap(order, old(heap), leaf, y)
    {
      var n := heap[leaf];
      y := top;
      top := top + 1;
      var si := order / 2;
      var cnt := order - 1 - si;
      var blank := NewNode(true, order);
      var ks := CopyRun(blank.keys, n.keys, si, cnt);
      heap := heap[y := blank.(keys := ks, keyCount := cnt, next := n.next, parent := n.parent)];
      heap := heap[leaf := n.(keyCount := si, next := y)];
      assert n.keys[si..si + cnt] == n.keys[si..];
    }

    /** split_internal(node): a new node takes the keys after the median
        and the children after it, which now point up to it; the median
        goes up to the parent, or into a new root. The `new_child` argument
        of the source is unused and left out. */
    method SplitInternal(node: Addr)
      requires TreeOk(order, root, top, heap, height, 0, node)
      requires node in heap && !heap[node].isLeaf && heap[node].keyCount == order - 1
      requires corrected ==> RangesOk(heap, range, root, 0, 0)
      modifies this`heap, this`top, this`root, this`height, this`range
      ensures TreeOk(order, root, top, heap, height, 0, 0) && root != 0
      ensures LeavesKept(old(heap), heap) && old(top) <= top
      ensures corrected ==> RangesOk(heap, range, root, 0, 0) && LeafRangesKept(old(heap), old(range), range)
      decreases height[root] - height[node], 1
    {
      ghost var heap0, height0, range0 := heap, height, range;
      var y := SplitInternalNode(node);
      var promote := heap[node].keys[(order - 1) / 2];
      if corrected {
        CutAtMedian(node, y, heap0, height0);
      }
      ghost var heap2, range2 := heap, range;
      HandUp(node, y, promote);
      LeavesKeptTrans(heap0, heap2, heap);
      if corrected {
        LeafRangesKeptTrans(heap0, heap2, range0, range2, range);
      }
    }

    /** split_internal up to the hand-up: the full node is split and the
        moved children point up to the new node, which is left detached. */
    method SplitInternalNode(node: Addr) returns (y: Addr)
      requires TreeOk(order, root, top, heap, height, 0, node)
      requires node in heap && !heap[node].isLeaf && heap[node].keyCount == order - 1
      modifies this`heap, this`top, this`height
      ensures y == old(top) && top == y + 1 && height == old(height)[y := old(height)[node]]
      ensures old(|heap[node].keys|) == order - 1 && old(|heap[node].children|) == order
      ensures Repointed(InternalSplitHeap(order, old(heap), node, y), heap, Moved(order, old(heap)[node]), y)
      ensures TreeOk(order, root, top, heap, height, y, 0) && LeavesKept(old(heap), heap)
      ensures node in heap && y in heap && node != y && heap[y].parent == heap[node].parent
      ensures node in height && y in height && height[y] == height[node]
    {
      ghost var heap0, height0 := heap, height;
      assert NodeOk(order, heap[node], height[node]);
      MovedChildren(order, heap, height, root, node);
      y := SplitOffInternal(node);
      height := height[y := height[node]];
      InternalSplitKeepsTree(order, root, y, heap0, height0, node, heap);
      InternalSplitLeavesKept(order, heap0, node, y, heap);
    }

    /** The ranges after split_internal of node into y, heap0 being the
        heap before it: the node's range is cut at the median, which
        starts the new node's range; no leaf's range changes. */
    ghost method CutAtMedian(node: Addr, y: Addr, heap0: map<Addr, BPNode>, height0: map<Addr, nat>)
      requires TreeOk(order, root, y, heap0, height0, 0, node) && RangesOk(heap0, range, root, 0, 0)
      requires node in heap0 && !heap0[node].isLeaf && heap0[node].keyCount == order - 1
      requires |heap0[node].keys| == order - 1 && |heap0[node].children| == order
      requires Repointed(InternalSplitHeap(order, heap0, node, y), heap, Moved(order, heap0[node]), y)
      modifies this`range
      ensures RangesOk(heap, range, root, y, node) && LeafRangesKept(heap0, old(range), range)
      ensures node in heap && |heap[node].keys| == order - 1 && y in range
      ensures range[y].lo == Bounded(heap[node].keys[(order - 1) / 2])
    {
      range := Cut(range, node, y, heap0[node].keys[InternalSplitIndex(order)]);
      InternalSplitRangesStep(order, root, y, heap0, height0, old(range), node, heap, range);
    }

    /** The node-level part of split_internal: a new node at the next free
        address takes the keys after the median and the children after it,
        whose slots in the old node are nulled; then each moved child points
        up to the new node. */
    method SplitOffInternal(node: Addr) returns (y: Addr)
      requires 3 <= order && node in heap && node < top
      requires |heap[node].keys| == order - 1 && |heap[node].children| == order
      requires 0 !in heap && forall c :: c in Moved(order, heap[node]) ==> c in heap
      modifies this`heap, this`top
      ensures y == old(top) && top == y + 1
      ensures Repointed(InternalSplitHeap(order, old(heap), node, y), heap, Moved(order, old(heap)[node]), y)
    {
      var cs;
      y, cs := SplitOffHalves(node);
      var count := order - (order - 1) / 2 - 1;
      forall k | 0 <= k < count
        ensures cs[k] in heap
      {
        assert cs[k] == cs[..count][k];
      }
      Repoint(cs, count, y);
    }

    /** The writes of split_internal before its re-pointing: the new node
        at the next free address and the lower half at node; cs is the new
        node's child vector, whose live part is the moved children. */
    method SplitOffHalves(node: Addr) returns (y: Addr, cs: seq<Addr>)
      requires 3 <= order && node in heap && node < top
      requires |heap[node].keys| == order - 1 && |heap[node].children| == order
      modifies this`heap, this`top
      ensures y == old(top) && top == y + 1
      ensures heap == InternalSplitHeap(order, old(heap), node, y)
      ensures order - InternalSplitIndex(order) - 1 <= |cs|
      ensures cs[..order - InternalSplitIndex(order) - 1] == Moved(order, old(heap)[node])
    {
      var n := heap[node];
      y := top;
      top := top + 1;
      var si := (order - 1) / 2;
      var cnt := order - 1 - si - 1;
      var blank := NewNode(false, order);
      var ks := CopyRun(blank.keys, n.keys, si + 1, cnt);
      var rest;
      cs, rest := MoveRun(blank.children, n.children, si + 1, cnt + 1, 0);
      InternalSplitRecords(order, si, n, ks, cs, rest);
      heap := heap[y := blank.(keys := ks, children := cs, keyCount := cnt, parent := n.parent)];
      heap := heap[node := n.(children := rest, keyCount := si)];
    }

    /** The re-pointing in split_internal's child loop: every non-null node
        among the first count entries of cs gets y as its parent. */
    method Repoint(cs: seq<Addr>, count: nat, y: Addr)
      requires count <= |cs| && 0 !in heap && forall k :: 0 <= k < count ==> cs[k] in heap
      modifies this`heap
      ensures Repointed(old(heap), heap, cs[..count], y)
    {
      var i := 0;
      while i < count
        invariant 0 <= i <= count
        invariant Repointed(old(heap), heap, cs[..i], y)
      {
        assert cs[..i + 1] == cs[..i] + [cs[i]];
        if cs[i] != 0 {
          RepointedStep(old(heap), heap, cs[..i], y, cs[i]);
          heap := heap[cs[i] := heap[cs[i]].(parent := y)];
        }
        i := i + 1;
      }
    }

    /** The common tail of split_leaf and split_internal: hand key up to
        the parent of left with right hung next to left, or put both under
        a new root when left was the root. */
    method HandUp(left: Addr, right: Addr, key: int)
      requires TreeOk(order, root, top, heap, height, right, 0)
      requires left in heap && right in heap && left != right && heap[right].parent == heap[left].parent
      requires left in height && right in height && height[right] == height[left]
      requires corrected ==> RangesOk(heap, range, root, right, left) && right in range && range[right].lo == Bounded(key)
      modifies this`heap, this`top, this`root, this`height, this`range
      ensures TreeOk(order, root, top, heap, height, 0, 0) && root != 0
      ensures LeavesKept(old(heap), heap) && old(top) <= top
      ensures old(heap[left].parent) == 0 ==> root == old(top) && heap[root] == NewRoot(order, left, right, key)
      ensures corrected ==> RangesOk(heap, range, root, 0, 0) && LeafRangesKept(old(heap), old(range), range)
      decreases height[root] - height[left], 0
    {
      OnlyRootParentless(order, root, top, heap, height, right, 0, left);
      if heap[left].parent == 0 {
        CreateNewRoot(left, right, key);
      } else {
        ParentAbove(order, root, top, heap, height, right, 0, left);
        InsertIntoParent(heap[left].parent, left, right, key);
      }
    }

    /** create_new_root(left, right, key): a new internal root with the one
        key over the two nodes, which now point up to it. */
    method CreateNewRoot(left: Addr, right: Addr, key: int)
      requires TreeOk(order, root, top, heap, height, right, 0)
      requires left == root && right in heap && right != left && height[right] == height[left]
      requires corrected ==> RangesOk(heap, range, root, right, left) && right in range && range[right].lo == Bounded(key)
      modifies this`heap, this`top, this`root, this`height, this`range
      ensures TreeOk(order, root, top, heap, height, 0, 0) && root == old(top) && top == old(top) + 1
      ensures heap[root] == NewRoot(order, left, right, key) && height[root] == old(height[left]) + 1
      ensures LeavesKept(old(heap), heap)
      ensures corrected ==> RangesOk(heap, range, root, 0, 0) && LeafRangesKept(old(heap), old(range), range)
    {
      ghost var heap0, height0, top0, range0 := heap, height, top, range;
      var r := HangRoot(left, right, key);
      root := r;
      height := height[r := height[left] + 1];
      NewRootStep(order, left, top0, heap0, height0, right, key, top, heap, height);
      if corrected {
        range := range[r := Range(NoBound, NoBound)];
        NewRootRangesStep(order, left, top0, heap0, height0, range0, right, key, heap, range);
      }
    }

    /** The node-level part of create_new_root: a new internal node at the
        next free address holds key between left and right, and both point
        up to it. */
    method HangRoot(left: Addr, right: Addr, key: int) returns (r: Addr)
      requires 3 <= order && left in heap && right in heap
      modifies this`heap, this`top
      ensures r == old(top) && top == r + 1
      ensures heap == NewRootHeap(order, old(heap), r, left, right, key)
    {
      r := top;
      top := top + 1;
      var blank := NewNode(false, order);
      heap := heap[r := blank.(keys := blank.keys[0 := key], keyCount := 1, children := blank.children[0 := left][1 := right])];
      heap := heap[left := heap[left].(parent := r)];
      heap := heap[right := heap[right].(parent := r)];
    }

    /** insert_into_parent(p, child, key): hang the new node child into p
        next to left, the node it was split from, and split p if that
        filled it. */
    method InsertIntoParent(p: Addr, left: Addr, child: Addr, key: int)
      requires TreeOk(order, root, top, heap, height, child, 0)
      requires p in heap && !heap[p].isLeaf
      requires left in heap && left != root && left != child && heap[left].parent == p
      requires child in heap && heap[child].parent == p && height[child] + 1 == height[p]
      requires corrected ==> RangesOk(heap, range, root, child, left) && child in range && range[child].lo == Bounded(key)
      modifies this`heap, this`top, this`root, this`height, this`range
      ensures TreeOk(order, root, top, heap, height, 0, 0) && root != 0
      ensures LeavesKept(old(heap), heap) && old(top) <= top
      ensures corrected ==> RangesOk(heap, range, root, 0, 0) && LeafRangesKept(old(heap), old(range), range)
      decreases height[root] - height[p], 2
    {
      ghost var heap0, range0 := heap, range;
      ParentHangReady(order, root, top, heap, height, p, left, child);
      var pos := HangChild(p, left, child, key);
      ParentHangStep(order, root, top, heap0, height, p, pos, key, child, heap);
      if corrected {
        TreeChildren(order, root, top, heap0, height, child, 0);
        TreeOnlySlot(order, root, top, heap0, height, child, 0, p, pos);
        ParentHangRanges(heap0, range, root, p, pos, key, child, left);
      }
      if heap[p].keyCount == order - 1 {
        ghost var heap1, range1 := heap, range;
        SplitInternal(p);
        LeavesKeptTrans(heap0, heap1, heap);
        if corrected {
          LeafRangesKeptTrans(heap0, heap1, range0, range1, range);
        }
      }
    }

    /** The part of insert_into_parent that works inside p: the backward
        shift loops over keys and children, key at slot pos and child at
        slot pos + 1. As written pos is the lower bound of key in p; the
        corrected step scans p's children for left and takes its slot, so
        child lands right after left. */
    method HangChild(p: Addr, left: Addr, child: Addr, key: int) returns (pos: nat)
      requires p in heap && 0 <= heap[p].keyCount < |heap[p].keys| && heap[p].keyCount + 1 < |heap[p].children|
      requires corrected ==> left in heap[p].children[..heap[p].keyCount + 1]
      requires child in heap && child != p && heap[child].parent == p
      modifies this`heap
      ensures pos <= old(heap[p].keyCount)
      ensures heap == old(heap)[p := ParentInserted(old(heap[p]), pos, key, child)]
      ensures !corrected ==> pos == FindInsertPosition(old(heap[p]), key)
      ensures corrected ==> heap[p].children[pos] == left && heap[p].children[pos + 1] == child
      ensures corrected ==> old(heap[p].children[pos]) == left
    {
      var n := heap[p];
      if corrected {
        pos := IndexOf(n.children, n.keyCount, left);
      } else {
        pos := FindInsertPosition(n, key);
      }
      PutChild(p, pos, key, child);
      if corrected {
        ShiftInsertAt(n.children, pos + 1, n.keyCount + 1, child);
      }
    }

    /** Shifts the keys from pos and the children after it one slot up,
        puts key at pos and child after it, and points child up to p. */
    method PutChild(p: Addr, pos: nat, key: int, child: Addr)
      requires p in heap && pos <= heap[p].keyCount < |heap[p].keys| && heap[p].keyCount + 1 < |heap[p].children|
      requires child in heap && child != p && heap[child].parent == p
      modifies this`heap
      ensures heap == old(heap)[p := ParentInserted(old(heap[p]), pos, key, child)]
    {
      var n := heap[p];
      var ks := ShiftRight(n.keys, pos, n.keyCount, key);
      var cs := ShiftRight(n.children, pos + 1, n.keyCount + 1, child);
      heap := heap[p := n.(keys := ks, children := cs, keyCount := n.keyCount + 1)];
      heap := heap[child := heap[child].(parent := p)];
    }
  }
}
