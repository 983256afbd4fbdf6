/** my_BTree: a B-tree of integer keys whose insertion splits every full
    node on the way down, so that the node it finally writes to has room.

    The nodes live in a heap of records keyed by address (address 0 is
    nullptr); `new Node` takes the lowest address not yet used. Each node
    has a key vector of order - 1 slots of which the first keyCount are
    live, and an internal node a child vector of order slots.

    The tree invariant is kept node by node with ghost bookkeeping: each
    node's height (0 for leaves, one less than the parent for children, so
    every leaf is at the same depth), the key range its subtree must stay
    in (given by the parent's keys on either side of it), and the parent
    slot it hangs from (so no node is the child of two slots). */
module BTreeModel {
  import opened NodeArrays

  /** A node address; 0 stands for nullptr. */
  type Addr = nat

  /** A BTreeNode: isLeaf, keyCount, the key vector and the child vector. */
  datatype BNode = BNode(isLeaf: bool, keyCount: int, keys: seq<int>, children: seq<Addr>)

  /** One end of the key range of a subtree; NoBound where there is none. */
  datatype Bound = NoBound | Bounded(key: int)

  predicate AtLeast(x: int, lo: Bound)
  {
    lo.NoBound? || lo.key <= x
  }

  predicate AtMost(x: int, hi: Bound)
  {
    hi.NoBound? || x <= hi.key
  }

  /** Ghost bookkeeping of a node: its height, its key range and the parent
      slot it hangs from. */
  datatype Place = Place(height: nat, lo: Bound, hi: Bound, parent: Addr, slot: nat)

  /** BTreeNode(isLeaf): no keys, order - 1 key slots, and for an internal
      node order null children. */
  function NewNode(isLeaf: bool, order: nat): (r: BNode)
    requires 1 <= order
    ensures r.isLeaf == isLeaf && r.keyCount == 0 && |r.keys| == order - 1
    ensures r.isLeaf ==> r.children == []
    ensures !r.isLeaf ==> |r.children| == order && forall j :: 0 <= j < order ==> r.children[j] == 0
  {
    BNode(isLeaf, 0, seq(order - 1, _ => 0), if isLeaf then [] else seq(order, _ => 0))
  }

  /** What a node keeps to by itself: vector sizes, at most order - 1 live
      keys, leaves exactly at height 0, and live keys sorted and inside the
      node's range. */
  ghost predicate NodeOk(order: nat, n: BNode, g: Place)
  {
    && |n.keys| == order - 1 && 0 <= n.keyCount <= order - 1
    && (n.isLeaf <==> g.height == 0)
    && (if n.isLeaf then n.children == [] else |n.children| == order)
    && Sorted(n.keys[..n.keyCount])
    && (forall k :: 0 <= k < n.keyCount ==> AtLeast(n.keys[k], g.lo) && AtMost(n.keys[k], g.hi))
  }

  /** The lower end of child j's range: the key before it, or the node's
      own lower end for the first child. */
  function ChildLo(n: BNode, g: Place, j: nat): Bound
  {
    if j == 0 || j > |n.keys| then g.lo else Bounded(n.keys[j - 1])
  }

  /** The upper end of child j's range: the key after it, or the node's own
      upper end for the last live child. */
  function ChildHi(n: BNode, g: Place, j: nat): Bound
  {
    if j == n.keyCount || j >= |n.keys| then g.hi else Bounded(n.keys[j])
  }

  /** Live child j of node a (record n, place g) is a node other than the
      root, one level down, with the range between its neighbouring keys,
      hanging from slot j of a. */
  ghost predicate LinkOk(n: BNode, g: Place, a: Addr, j: nat, dom: set<Addr>, place: map<Addr, Place>, root: Addr)
  {
    && j <= n.keyCount <= |n.keys| && j < |n.children| && 1 <= g.height
    && n.children[j] in dom && n.children[j] in place && n.children[j] != root
    && place[n.children[j]] == Place(g.height - 1, ChildLo(n, g, j), ChildHi(n, g, j), a, j)
  }

  /** Node a, unless it is the root, is the live child its place names:
      the child at slot place[a].slot of the internal node place[a].parent. */
  ghost predicate UpOk(a: Addr, heap: map<Addr, BNode>, place: map<Addr, Place>, root: Addr)
  {
    && a in place
    && (a != root ==>
          var q := place[a].parent;
          && q in heap && !heap[q].isLeaf && place[a].slot <= heap[q].keyCount
          && place[a].slot < |heap[q].children| && heap[q].children[place[a].slot] == a)
  }

  /** The tree invariant: every node keeps NodeOk, every live child slot
      keeps LinkOk, every node but the root hangs from the slot its place
      names, and the root's range is unbounded. */
  ghost predicate TreeOk(order: nat, root: Addr, top: Addr, heap: map<Addr, BNode>, place: map<Addr, Place>)
  {
    && 2 <= order && 0 < top
    && (forall a :: a in heap ==> 0 < a < top && a in place && NodeOk(order, heap[a], place[a]))
    && (forall a, j: nat :: a in heap && !heap[a].isLeaf && j <= heap[a].keyCount ==>
          LinkOk(heap[a], place[a], a, j, heap.Keys, place, root))
    && (forall a {:trigger UpOk(a, heap, place, root)} :: a in heap ==> UpOk(a, heap, place, root))
    && (root != 0 ==> root in heap && place[root].lo == NoBound && place[root].hi == NoBound)
  }

  /** The leaf step of insertNoFill: val goes after the live keys at most
      val, the keys above it move up one slot, and keyCount grows by one. */
  function LeafInserted(n: BNode, val: int): (r: BNode)
    requires 0 <= n.keyCount < |n.keys|
    ensures r.keyCount == n.keyCount + 1 && |r.keys| == |n.keys|
    ensures r.isLeaf == n.isLeaf && r.children == n.children
  {
    n.(keys := ShiftInsert(n.keys, UpperBound(n.keys[..n.keyCount], val), n.keyCount, val),
       keyCount := n.keyCount + 1)
  }

  /** A leaf insertion keeps the live keys sorted and adds exactly val to
      them. */
  lemma LeafInsertedKeys(n: BNode, val: int)
    requires 0 <= n.keyCount < |n.keys| && Sorted(n.keys[..n.keyCount])
    ensures Sorted(LeafInserted(n, val).keys[..n.keyCount + 1])
    ensures multiset(LeafInserted(n, val).keys[..n.keyCount + 1]) == multiset(n.keys[..n.keyCount]) + multiset{val}
  {
    var s := n.keys[..n.keyCount];
    var pos := UpperBound(s, val);
    UpperBoundCounts(s, val);
    forall k | 0 <= k < pos
      ensures n.keys[k] <= val
    {
      assert s[k] == n.keys[k];
    }
    forall k | pos <= k < n.keyCount
      ensures val <= n.keys[k]
    {
      assert s[k] == n.keys[k];
    }
    ShiftInsertMultiset(n.keys, pos, n.keyCount, val);
    ShiftInsertSorted(n.keys, pos, n.keyCount, val);
  }

  /** The middle slot of a full node's keys: the key splitChild promotes. */
  function MidIndex(order: nat): (r: nat)
    requires 2 <= order
    ensures r < order - 1 && r <= order - 1 - r - 1 + 1
  {
    (order - 1) / 2
  }

  /** splitChild's left half: the full node keeps its first MidIndex keys
      and, internal, its children up to the median, the rest nulled. The
      key vector itself is untouched. */
  function SplitLeft(order: nat, full: BNode): (r: BNode)
    requires 2 <= order && |full.keys| == order - 1 && (!full.isLeaf ==> |full.children| == order)
  {
    var mid := MidIndex(order);
    full.(keyCount := mid,
          children := if full.isLeaf then full.children else full.children[..mid + 1] + seq(order - mid - 1, _ => 0))
  }

  /** splitChild's new right sibling: the keys above the median and,
      internal, the children after it, in a fresh node. */
  function SplitRight(order: nat, full: BNode): (r: BNode)
    requires 2 <= order && |full.keys| == order - 1 && (!full.isLeaf ==> |full.children| == order)
  {
    var mid := MidIndex(order);
    var cnt := order - 1 - mid - 1;
    var blank := NewNode(full.isLeaf, order);
    BNode(full.isLeaf, cnt, full.keys[mid + 1..] + blank.keys[cnt..],
          if full.isLeaf then [] else full.children[mid + 1..] + blank.children[cnt + 1..])
  }

  /** splitChild's parent step: the median goes to key slot i and the new
      sibling y to child slot i + 1, the later keys and children moving up
      one. */
  function Adopt(parent: BNode, i: nat, y: Addr, median: int): (r: BNode)
    requires i <= parent.keyCount < |parent.keys| && parent.keyCount + 1 < |parent.children|
  {
    parent.(keyCount := parent.keyCount + 1,
            keys := ShiftInsert(parent.keys, i, parent.keyCount, median),
            children := ShiftInsert(parent.children, i + 1, parent.keyCount + 1, y))
  }

  /** The split halves: the node keeps (order - 1) / 2 keys, the sibling
      gets the (order - 1) - (order - 1) / 2 - 1 keys above the median, and
      together with the median they are the full node's keys. Internal, the
      sibling takes the children after the median and their old slots are
      nulled. */
  lemma SplitHalves(order: nat, full: BNode)
    requires 2 <= order && |full.keys| == order - 1 && full.keyCount == order - 1
    requires !full.isLeaf ==> |full.children| == order
    ensures var mid := MidIndex(order); var cnt := order - 1 - mid - 1;
      && SplitLeft(order, full).keyCount == mid && SplitRight(order, full).keyCount == cnt
      && SplitLeft(order, full).keys[..mid] == full.keys[..mid]
      && SplitRight(order, full).keys[..cnt] == full.keys[mid + 1..]
      && multiset(full.keys[..full.keyCount])
         == multiset(SplitLeft(order, full).keys[..mid]) + multiset{full.keys[mid]}
            + multiset(SplitRight(order, full).keys[..cnt])
      && (!full.isLeaf ==>
            && SplitLeft(order, full).children[..mid + 1] == full.children[..mid + 1]
            && (forall j :: mid < j < order ==> SplitLeft(order, full).children[j] == 0)
            && SplitRight(order, full).children[..cnt + 1] == full.children[mid + 1..])
  {
    var mid := MidIndex(order);
    assert full.keys[..full.keyCount] == full.keys[..mid] + [full.keys[mid]] + full.keys[mid + 1..];
  }

  /** The parent after splitChild: one more key, the median at slot i
      between the keys around it, the sibling right after the split child,
      and everything after them one slot up. */
  lemma AdoptPlaces(parent: BNode, i: nat, y: Addr, median: int)
    requires i <= parent.keyCount < |parent.keys| && parent.keyCount + 1 < |parent.children|
    ensures var r := Adopt(parent, i, y, median);
      && r.keyCount == parent.keyCount + 1
      && r.keys[i] == median && r.children[i] == parent.children[i] && r.children[i + 1] == y
      && r.keys[..i] == parent.keys[..i] && r.keys[i + 1..r.keyCount] == parent.keys[i..parent.keyCount]
      && r.children[..i + 1] == parent.children[..i + 1]
      && r.children[i + 2..r.keyCount + 1] == parent.children[i + 1..parent.keyCount + 1]
  {
    var r := Adopt(parent, i, y, median);
    ShiftInsertAt(parent.keys, i, parent.keyCount, median);
    ShiftInsertAt(parent.children, i + 1, parent.keyCount + 1, y);
    assert r.children[i] == parent.children[i];
  }

  /** What splitChild(i, fullChild) asks: a parent with room whose child i
      is a full node. */
  ghost predicate SplitPre(order: nat, heap: map<Addr, BNode>, p: Addr, i: nat)
  {
    && 2 <= order && p in heap && !heap[p].isLeaf
    && i <= heap[p].keyCount < order - 1 && |heap[p].keys| == order - 1 && |heap[p].children| == order
    && heap[p].children[i] in heap && heap[p].children[i] != p
    && heap[heap[p].children[i]].keyCount == order - 1
    && |heap[heap[p].children[i]].keys| == order - 1
    && (!heap[heap[p].children[i]].isLeaf ==> |heap[heap[p].children[i]].children| == order)
  }

  /** The node heap after splitChild(i, children[i]) at p, the new sibling
      taking address top. */
  function SplitHeap(order: nat, heap: map<Addr, BNode>, top: Addr, p: Addr, i: nat): (r: map<Addr, BNode>)
    requires SplitPre(order, heap, p, i)
  {
    var x := heap[p].children[i];
    var full := heap[x];
    heap[top := SplitRight(order, full)][x := SplitLeft(order, full)]
        [p := Adopt(heap[p], i, top, full.keys[MidIndex(order)])]
  }

  /** splitChild as a whole: the tree invariant holds again, with the new
      node at address top, and every count is kept. */
  lemma SplitChildStep(order: nat, root: Addr, top: Addr, heap: map<Addr, BNode>, place: map<Addr, Place>, p: Addr, i: nat,
                       top1: Addr, h: map<Addr, BNode>, pl: map<Addr, Place>)
    requires TreeOk(order, root, top, heap, place) && SplitPre(order, heap, p, i)
    requires top1 == top + 1 && h == SplitHeap(order, heap, top, p, i) && pl == SplitPlace(order, heap, place, top, p, i)
    ensures TreeOk(order, root, top1, h, pl)
    ensures forall v :: HeapCount(h, top1, v) == HeapCount(heap, top, v)
  {
    SplitKeepsTree(order, root, top, heap, place, p, i);
    assert LinkOk(heap[p], place[p], p, i, heap.Keys, place, root);
    forall v
      ensures HeapCount(h, top1, v) == HeapCount(heap, top, v)
    {
      SplitKeepsKeys(order, top, heap, p, i, v);
    }
  }

  /** The parent slot of g after splitChild at p, slot i, of x into x and
      y: the children after x's median now hang from y, and the children of
      p after slot i one slot further up. */
  function Reslot(g: Place, x: Addr, y: Addr, p: Addr, i: nat, mid: nat): (r: Place)
    ensures r.height == g.height && r.lo == g.lo && r.hi == g.hi
  {
    if g.parent == x && g.slot > mid then g.(parent := y, slot := g.slot - mid - 1)
    else if g.parent == p && g.slot > i then g.(slot := g.slot + 1)
    else g
  }

  /** The ghost places after splitChild: x's range ends at the median, the
      new sibling's starts there, and the moved children are re-slotted. */
  ghost function SplitPlace(order: nat, heap: map<Addr, BNode>, place: map<Addr, Place>, top: Addr, p: Addr, i: nat)
    : (r: map<Addr, Place>)
    requires SplitPre(order, heap, p, i) && heap[p].children[i] in place
  {
    var x := heap[p].children[i];
    var mid := MidIndex(order);
    var median := heap[x].keys[mid];
    var gx := place[x];
    (map c | c in place :: Reslot(place[c], x, top, p, i, mid))
      [x := gx.(hi := Bounded(median))]
      [top := Place(gx.height, Bounded(median), gx.hi, p, i + 1)]
  }

  /** splitChild keeps the tree invariant. */
  lemma SplitKeepsTree(order: nat, root: Addr, top: Addr, heap: map<Addr, BNode>, place: map<Addr, Place>, p: Addr, i: nat)
    requires TreeOk(order, root, top, heap, place) && SplitPre(order, heap, p, i)
    ensures TreeOk(order, root, top + 1, SplitHeap(order, heap, top, p, i), SplitPlace(order, heap, place, top, p, i))
  {
    var h1 := SplitHeap(order, heap, top, p, i);
    var pl1 := SplitPlace(order, heap, place, top, p, i);
    SplitKeepsNodes(order, root, top, heap, place, p, i);
    SplitKeepsLinks(order, root, top, heap, place, p, i);
    SplitKeepsUps(order, root, top, heap, place, p, i);
    assert root != 0 ==> root in h1 && pl1[root].lo == NoBound && pl1[root].hi == NoBound by {
      if root != 0 {
        var x := heap[p].children[i];
        assert LinkOk(heap[p], place[p], p, i, heap.Keys, place, root);
        assert root != x && root != top;
        assert pl1[root] == Reslot(place[root], x, top, p, i, MidIndex(order));
      }
    }
  }

  lemma SplitKeepsNodes(order: nat, root: Addr, top: Addr, heap: map<Addr, BNode>, place: map<Addr, Place>, p: Addr, i: nat)
    requires TreeOk(order, root, top, heap, place) && SplitPre(order, heap, p, i)
    ensures var h1 := SplitHeap(order, heap, top, p, i); var pl1 := SplitPlace(order, heap, place, top, p, i);
      forall a :: a in h1 ==> 0 < a < top + 1 && a in pl1 && NodeOk(order, h1[a], pl1[a])
  {
    var x := heap[p].children[i];
    var mid := MidIndex(order);
    var median := heap[x].keys[mid];
    assert LinkOk(heap[p], place[p], p, i, heap.Keys, place, root);
    var h1 := SplitHeap(order, heap, top, p, i);
    var pl1 := SplitPlace(order, heap, place, top, p, i);
    assert top !in heap;
    forall a | a in h1
      ensures 0 < a < top + 1 && a in pl1 && NodeOk(order, h1[a], pl1[a])
    {
      if a == p {
        assert h1[p] == Adopt(heap[p], i, top, median);
        assert pl1[p] == Reslot(place[p], x, top, p, i, mid);
        assert AtLeast(median, place[x].lo) && AtMost(median, place[x].hi) by {
          assert heap[x].keys[..heap[x].keyCount][mid] == median;
        }
        AdoptOk(order, heap[p], place[p], i, top, median, x, p, mid);
      } else if a == x {
        assert h1[x] == SplitLeft(order, heap[x]);
        assert pl1[x] == place[x].(hi := Bounded(median));
        SplitLeftOk(order, heap[x], place[x]);
      } else if a == top {
        assert h1[top] == SplitRight(order, heap[x]);
        assert pl1[top] == Place(place[x].height, Bounded(median), place[x].hi, p, i + 1);
        SplitRightOk(order, heap[x], place[x], p, i + 1);
      } else {
        assert h1[a] == heap[a] && pl1[a] == Reslot(place[a], x, top, p, i, mid);
      }
    }
  }

  lemma SplitKeepsLinks(order: nat, root: Addr, top: Addr, heap: map<Addr, BNode>, place: map<Addr, Place>, p: Addr, i: nat)
    requires TreeOk(order, root, top, heap, place) && SplitPre(order, heap, p, i)
    ensures var h1 := SplitHeap(order, heap, top, p, i); var pl1 := SplitPlace(order, heap, place, top, p, i);
      forall a, j: nat :: a in h1 && !h1[a].isLeaf && j <= h1[a].keyCount ==>
        a in pl1 && LinkOk(h1[a], pl1[a], a, j, h1.Keys, pl1, root)
  {
    var h1 := SplitHeap(order, heap, top, p, i);
    var pl1 := SplitPlace(order, heap, place, top, p, i);
    forall a, j: nat | a in h1 && !h1[a].isLeaf && j <= h1[a].keyCount
      ensures a in pl1 && LinkOk(h1[a], pl1[a], a, j, h1.Keys, pl1, root)
    {
      SplitLinkAt(order, root, top, heap, place, p, i, a, j);
    }
  }

  lemma SplitLinkAt(order: nat, root: Addr, top: Addr, heap: map<Addr, BNode>, place: map<Addr, Place>, p: Addr, i: nat, a: Addr, j: nat)
    requires TreeOk(order, root, top, heap, place) && SplitPre(order, heap, p, i)
    requires a in SplitHeap(order, heap, top, p, i)
    requires !SplitHeap(order, heap, top, p, i)[a].isLeaf && j <= SplitHeap(order, heap, top, p, i)[a].keyCount
    ensures var h1 := SplitHeap(order, heap, top, p, i); var pl1 := SplitPlace(order, heap, place, top, p, i);
      a in pl1 && LinkOk(h1[a], pl1[a], a, j, h1.Keys, pl1, root)
  {
    var x := heap[p].children[i];
    assert LinkOk(heap[p], place[p], p, i, heap.Keys, place, root);
    if a == p || a == x || a == top {
      SplitLinkAtSplit(order, root, top, heap, place, p, i, a, j);
    } else {
      assert top !in heap && a in heap;
      assert LinkOk(heap[a], place[a], a, j, heap.Keys, place, root);
      SplitOtherLinks(order, root, top, heap, place, p, i, a, j);
    }
  }

  /** SplitLinkAt for the three nodes splitChild writes: the parent, the
      split node and the new node. */
  lemma SplitLinkAtSplit(order: nat, root: Addr, top: Addr, heap: map<Addr, BNode>, place: map<Addr, Place>, p: Addr, i: nat,
                         a: Addr, j: nat)
    requires TreeOk(order, root, top, heap, place) && SplitPre(order, heap, p, i)
    requires a == p || a == heap[p].children[i] || a == top
    requires a in SplitHeap(order, heap, top, p, i)
    requires !SplitHeap(order, heap, top, p, i)[a].isLeaf && j <= SplitHeap(order, heap, top, p, i)[a].keyCount
    ensures var h1 := SplitHeap(order, heap, top, p, i); var pl1 := SplitPlace(order, heap, place, top, p, i);
      a in pl1 && LinkOk(h1[a], pl1[a], a, j, h1.Keys, pl1, root)
  {
    var x := heap[p].children[i];
    var mid := MidIndex(order);
    var median := heap[x].keys[mid];
    assert LinkOk(heap[p], place[p], p, i, heap.Keys, place, root);
    var h1 := SplitHeap(order, heap, top, p, i);
    var pl1 := SplitPlace(order, heap, place, top, p, i);
    assert top !in heap && top != root;
    assert h1.Keys == heap.Keys + {top};
    if a == p {
      assert h1[p] == Adopt(heap[p], i, top, median);
      assert pl1[p] == Reslot(place[p], x, top, p, i, mid);
      if j < i {
        assert LinkOk(heap[p], place[p], p, j, heap.Keys, place, root);
      } else if j > i + 1 {
        assert LinkOk(heap[p], place[p], p, j - 1, heap.Keys, place, root);
      }
      SplitParentLinks(order, root, top, heap, place, p, i, j);
    } else if a == x {
      assert h1[x] == SplitLeft(order, heap[x]);
      assert pl1[x] == place[x].(hi := Bounded(median));
      assert LinkOk(heap[x], place[x], x, j, heap.Keys, place, root);
      SplitLeftLinks(order, root, top, heap, place, p, i, j);
    } else {
      assert h1[top] == SplitRight(order, heap[x]);
      assert pl1[top] == Place(place[x].height, Bounded(median), place[x].hi, p, i + 1);
      assert LinkOk(heap[x], place[x], x, mid + 1 + j, heap.Keys, place, root);
      SplitRightLinks(order, root, top, heap, place, p, i, j);
    }
  }

  lemma SplitKeepsUps(order: nat, root: Addr, top: Addr, heap: map<Addr, BNode>, place: map<Addr, Place>, p: Addr, i: nat)
    requires TreeOk(order, root, top, heap, place) && SplitPre(order, heap, p, i)
    ensures var h1 := SplitHeap(order, heap, top, p, i); var pl1 := SplitPlace(order, heap, place, top, p, i);
      forall a :: a in h1 ==> UpOk(a, h1, pl1, root)
  {
    var h1 := SplitHeap(order, heap, top, p, i);
    var pl1 := SplitPlace(order, heap, place, top, p, i);
    forall a | a in h1
      ensures UpOk(a, h1, pl1, root)
    {
      SplitUpAt(order, root, top, heap, place, p, i, a);
    }
  }

  /** After splitChild every node still hangs from the slot its place
      names: the sibling from slot i + 1 of p, the children moved to the
      sibling from their shifted slots there, and p's later children one
      slot up. */
  lemma SplitUpAt(order: nat, root: Addr, top: Addr, heap: map<Addr, BNode>, place: map<Addr, Place>, p: Addr, i: nat, a: Addr)
    requires TreeOk(order, root, top, heap, place) && SplitPre(order, heap, p, i)
    requires a in SplitHeap(order, heap, top, p, i)
    ensures UpOk(a, SplitHeap(order, heap, top, p, i), SplitPlace(order, heap, place, top, p, i), root)
  {
    var x := heap[p].children[i];
    var full := heap[x];
    var mid := MidIndex(order);
    var median := full.keys[mid];
    var h1 := SplitHeap(order, heap, top, p, i);
    var pl1 := SplitPlace(order, heap, place, top, p, i);
    assert LinkOk(heap[p], place[p], p, i, heap.Keys, place, root);
    assert top !in heap && top != root;
    AdoptPlaces(heap[p], i, top, median);
    assert h1[p] == Adopt(heap[p], i, top, median);
    if a == root {
    } else if a == top {
      assert pl1[top] == Place(place[x].height, Bounded(median), place[x].hi, p, i + 1);
    } else if a == x {
      assert pl1[x] == place[x].(hi := Bounded(median));
    } else {
      assert UpOk(a, heap, place, root);
      var q := place[a].parent;
      assert LinkOk(heap[q], place[q], q, place[a].slot, heap.Keys, place, root);
      SplitUpOther(order, root, top, heap, place, p, i, a);
    }
  }

  /** A node other than the split child and the new sibling, after
      splitChild. */
  lemma SplitUpOther(order: nat, root: Addr, top: Addr, heap: map<Addr, BNode>, place: map<Addr, Place>, p: Addr, i: nat, a: Addr)
    requires SplitPre(order, heap, p, i) && top !in heap && p in place && heap[p].children[i] in place
    requires LinkOk(heap[p], place[p], p, i, heap.Keys, place, root)
    requires a in heap && a != root && a != heap[p].children[i] && UpOk(a, heap, place, root)
    requires var q := place[a].parent; q in place && LinkOk(heap[q], place[q], q, place[a].slot, heap.Keys, place, root)
    ensures UpOk(a, SplitHeap(order, heap, top, p, i), SplitPlace(order, heap, place, top, p, i), root)
  {
    var x := heap[p].children[i];
    var h1 := SplitHeap(order, heap, top, p, i);
    var pl1 := SplitPlace(order, heap, place, top, p, i);
    var q := place[a].parent;
    assert a != top;
    assert pl1[a] == Reslot(place[a], x, top, p, i, MidIndex(order));
    if q == x {
      SplitUpMoved(order, root, top, heap, place, p, i, a);
    } else if q == p {
      SplitUpShifted(order, root, top, heap, place, p, i, a);
    } else {
      assert q != top && pl1[a] == place[a];
      assert h1[q] == heap[q];
    }
  }

  /** A child of the split node: it stays under it up to the median and
      moves to the new sibling after it. */
  lemma SplitUpMoved(order: nat, root: Addr, top: Addr, heap: map<Addr, BNode>, place: map<Addr, Place>, p: Addr, i: nat, a: Addr)
    requires SplitPre(order, heap, p, i) && top !in heap && a != top && a in place && heap[p].children[i] in place
    requires place[a].parent == heap[p].children[i] && UpOk(a, heap, place, root) && a != root
    requires var mid := MidIndex(order); var pl1 := SplitPlace(order, heap, place, top, p, i);
      && (place[a].slot > mid ==> pl1[a] == place[a].(parent := top, slot := place[a].slot - mid - 1))
      && (place[a].slot <= mid ==> pl1[a] == place[a])
    ensures UpOk(a, SplitHeap(order, heap, top, p, i), SplitPlace(order, heap, place, top, p, i), root)
  {
    var x := heap[p].children[i];
    var full := heap[x];
    var mid := MidIndex(order);
    var h1 := SplitHeap(order, heap, top, p, i);
    var s := place[a].slot;
    SplitHalves(order, full);
    assert h1[x] == SplitLeft(order, full) && h1[top] == SplitRight(order, full);
    if s > mid {
      assert SplitRight(order, full).children[..order - 1 - mid][s - mid - 1] == full.children[mid + 1..][s - mid - 1];
    } else {
      assert SplitLeft(order, full).children[..mid + 1][s] == full.children[..mid + 1][s];
    }
  }

  /** A child of the parent other than the split one: those after it move
      up one slot. */
  lemma SplitUpShifted(order: nat, root: Addr, top: Addr, heap: map<Addr, BNode>, place: map<Addr, Place>, p: Addr, i: nat, a: Addr)
    requires SplitPre(order, heap, p, i) && top !in heap && a != top && a in place && heap[p].children[i] in place
    requires place[a].parent == p && a != heap[p].children[i] && UpOk(a, heap, place, root) && a != root
    requires var pl1 := SplitPlace(order, heap, place, top, p, i);
      && (place[a].slot > i ==> pl1[a] == place[a].(slot := place[a].slot + 1))
      && (place[a].slot <= i ==> pl1[a] == place[a])
    ensures UpOk(a, SplitHeap(order, heap, top, p, i), SplitPlace(order, heap, place, top, p, i), root)
  {
    var x := heap[p].children[i];
    var median := heap[x].keys[MidIndex(order)];
    var h1 := SplitHeap(order, heap, top, p, i);
    var s := place[a].slot;
    var r := Adopt(heap[p], i, top, median);
    AdoptPlaces(heap[p], i, top, median);
    assert h1[p] == r && s != i;
    if s > i {
      assert r.children[i + 2..r.keyCount + 1][s - i - 1] == heap[p].children[i + 1..heap[p].keyCount + 1][s - i - 1];
    } else {
      assert r.children[..i + 1][s] == heap[p].children[..i + 1][s];
    }
  }

  /** The parent keeps NodeOk after adopting the median of its child i,
      which lies between the keys around slot i. */
  lemma AdoptOk(order: nat, n: BNode, g: Place, i: nat, y: Addr, median: int, x: Addr, p: Addr, mid: nat)
    requires NodeOk(order, n, g) && !n.isLeaf && i <= n.keyCount < order - 1
    requires AtLeast(median, ChildLo(n, g, i)) && AtMost(median, ChildHi(n, g, i))
    ensures NodeOk(order, Adopt(n, i, y, median), Reslot(g, x, y, p, i, mid))
  {
    var r := Adopt(n, i, y, median);
    var s := n.keys[..n.keyCount];
    ShiftInsertAt(n.keys, i, n.keyCount, median);
    forall k | 0 <= k < i
      ensures n.keys[k] <= median
    {
      assert s[k] <= s[i - 1];
    }
    forall k | i <= k < n.keyCount
      ensures median <= n.keys[k]
    {
      assert s[i] <= s[k];
    }
    ShiftInsertSorted(n.keys, i, n.keyCount, median);
    forall k | 0 <= k < r.keyCount
      ensures AtLeast(r.keys[k], g.lo) && AtMost(r.keys[k], g.hi)
    {
      if k != i {
        var k' := if k < i then k else k - 1;
        assert r.keys[k] == s[k'];
      } else {
        if 0 < i {
          assert s[i - 1] == n.keys[i - 1];
        } else if i < n.keyCount {
          assert s[0] == n.keys[0];
        }
        if i < n.keyCount {
          assert s[i] == n.keys[i];
        }
      }
    }
  }

  /** The full node keeps NodeOk with its range cut at the median. */
  lemma SplitLeftOk(order: nat, full: BNode, g: Place)
    requires 2 <= order && NodeOk(order, full, g) && full.keyCount == order - 1
    ensures NodeOk(order, SplitLeft(order, full), g.(hi := Bounded(full.keys[MidIndex(order)])))
  {
    var mid := MidIndex(order);
    var r := SplitLeft(order, full);
    var s := full.keys[..full.keyCount];
    assert r.keys[..mid] == s[..mid];
    forall k | 0 <= k < mid
      ensures r.keys[k] <= full.keys[mid]
    {
      assert s[k] <= s[mid];
    }
  }

  /** The new sibling is NodeOk with the range from the median up. */
  lemma SplitRightOk(order: nat, full: BNode, g: Place, p: Addr, slot: nat)
    requires 2 <= order && NodeOk(order, full, g) && full.keyCount == order - 1
    ensures NodeOk(order, SplitRight(order, full), Place(g.height, Bounded(full.keys[MidIndex(order)]), g.hi, p, slot))
  {
    var mid := MidIndex(order);
    var cnt := order - 1 - mid - 1;
    var r := SplitRight(order, full);
    var s := full.keys[..full.keyCount];
    var t := r.keys[..cnt];
    assert forall k :: 0 <= k < cnt ==> t[k] == s[mid + 1 + k];
    forall a, b | 0 <= a < b < cnt
      ensures t[a] <= t[b]
    {
      assert s[mid + 1 + a] <= s[mid + 1 + b];
    }
    forall k | 0 <= k < cnt
      ensures full.keys[mid] <= r.keys[k] && AtMost(r.keys[k], g.hi)
    {
      assert s[mid] <= s[mid + 1 + k];
    }
  }

  /** The facts about parent p that its links after splitChild rest on. */
  ghost predicate ParentLinkPre(order: nat, root: Addr, top: Addr, heap: map<Addr, BNode>, place: map<Addr, Place>, p: Addr, i: nat)
  {
    && SplitPre(order, heap, p, i) && top !in heap && top != root && p in place && heap[p].children[i] in place
    && LinkOk(heap[p], place[p], p, i, heap.Keys, place, root)
  }

  lemma SplitParentLinks(order: nat, root: Addr, top: Addr, heap: map<Addr, BNode>, place: map<Addr, Place>, p: Addr, i: nat, j: nat)
    requires ParentLinkPre(order, root, top, heap, place, p, i)
    requires j <= heap[p].keyCount + 1
    requires j < i ==> LinkOk(heap[p], place[p], p, j, heap.Keys, place, root)
    requires j > i + 1 ==> LinkOk(heap[p], place[p], p, j - 1, heap.Keys, place, root)
    ensures var h1 := SplitHeap(order, heap, top, p, i);
      LinkOk(h1[p], SplitPlace(order, heap, place, top, p, i)[p], p, j, h1.Keys, SplitPlace(order, heap, place, top, p, i), root)
  {
    var x := heap[p].children[i];
    var n := heap[p];
    var mid := MidIndex(order);
    var median := heap[x].keys[mid];
    var h1 := SplitHeap(order, heap, top, p, i);
    var pl1 := SplitPlace(order, heap, place, top, p, i);
    var r := Adopt(n, i, top, median);
    assert h1[p] == r;
    assert pl1[p] == Reslot(place[p], x, top, p, i, mid);
    if j < i {
      ParentLinkBefore(order, root, top, heap, place, p, i, j);
    } else if j <= i + 1 {
      ParentLinkAround(order, root, top, heap, place, p, i, j);
    } else {
      ParentLinkAfter(order, root, top, heap, place, p, i, j);
    }
  }

  lemma ParentLinkBefore(order: nat, root: Addr, top: Addr, heap: map<Addr, BNode>, place: map<Addr, Place>, p: Addr, i: nat, j: nat)
    requires ParentLinkPre(order, root, top, heap, place, p, i)
    requires j < i && LinkOk(heap[p], place[p], p, j, heap.Keys, place, root)
    ensures var x := heap[p].children[i]; var mid := MidIndex(order);
      LinkOk(Adopt(heap[p], i, top, heap[x].keys[mid]), Reslot(place[p], x, top, p, i, mid), p, j,
             heap.Keys + {top}, SplitPlace(order, heap, place, top, p, i), root)
  {
    var x := heap[p].children[i];
    var n := heap[p];
    var mid := MidIndex(order);
    var r := Adopt(n, i, top, heap[x].keys[mid]);
    var pl1 := SplitPlace(order, heap, place, top, p, i);
    ShiftInsertAt(n.keys, i, n.keyCount, heap[x].keys[mid]);
    ShiftInsertAt(n.children, i + 1, n.keyCount + 1, top);
    var c := n.children[j];
    assert r.children[j] == c && c != top && c != x;
    assert pl1[c] == Reslot(place[c], x, top, p, i, mid);
    assert j > 0 ==> r.keys[j - 1] == n.keys[j - 1];
    assert r.keys[j] == n.keys[j];
  }

  lemma ParentLinkAround(order: nat, root: Addr, top: Addr, heap: map<Addr, BNode>, place: map<Addr, Place>, p: Addr, i: nat, j: nat)
    requires ParentLinkPre(order, root, top, heap, place, p, i)
    requires i <= j <= i + 1
    ensures var x := heap[p].children[i]; var mid := MidIndex(order);
      LinkOk(Adopt(heap[p], i, top, heap[x].keys[mid]), Reslot(place[p], x, top, p, i, mid), p, j,
             heap.Keys + {top}, SplitPlace(order, heap, place, top, p, i), root)
  {
    var x := heap[p].children[i];
    var n := heap[p];
    var mid := MidIndex(order);
    var median := heap[x].keys[mid];
    var r := Adopt(n, i, top, median);
    var pl1 := SplitPlace(order, heap, place, top, p, i);
    ShiftInsertAt(n.keys, i, n.keyCount, median);
    ShiftInsertAt(n.children, i + 1, n.keyCount + 1, top);
    assert r.keys[i] == median;
    if j == i {
      assert r.children[i] == x;
      assert i > 0 ==> r.keys[i - 1] == n.keys[i - 1];
    } else {
      assert r.children[i + 1] == top;
      assert i < n.keyCount ==> r.keys[i + 1] == n.keys[i];
    }
  }

  lemma ParentLinkAfter(order: nat, root: Addr, top: Addr, heap: map<Addr, BNode>, place: map<Addr, Place>, p: Addr, i: nat, j: nat)
    requires ParentLinkPre(order, root, top, heap, place, p, i)
    requires i + 1 < j <= heap[p].keyCount + 1 && LinkOk(heap[p], place[p], p, j - 1, heap.Keys, place, root)
    ensures var x := heap[p].children[i]; var mid := MidIndex(order);
      LinkOk(Adopt(heap[p], i, top, heap[x].keys[mid]), Reslot(place[p], x, top, p, i, mid), p, j,
             heap.Keys + {top}, SplitPlace(order, heap, place, top, p, i), root)
  {
    var x := heap[p].children[i];
    var n := heap[p];
    var mid := MidIndex(order);
    var r := Adopt(n, i, top, heap[x].keys[mid]);
    var pl1 := SplitPlace(order, heap, place, top, p, i);
    ShiftInsertAt(n.keys, i, n.keyCount, heap[x].keys[mid]);
    ShiftInsertAt(n.children, i + 1, n.keyCount + 1, top);
    var c := n.children[j - 1];
    assert r.children[j] == c && c != top && c != x;
    assert pl1[c] == Reslot(place[c], x, top, p, i, mid);
    assert r.keys[j - 1] == n.keys[j - 2];
    assert j < r.keyCount ==> r.keys[j] == n.keys[j - 1];
  }

  lemma SplitLeftLinks(order: nat, root: Addr, top: Addr, heap: map<Addr, BNode>, place: map<Addr, Place>, p: Addr, i: nat, j: nat)
    requires SplitPre(order, heap, p, i) && top !in heap && p in place && heap[p].children[i] in place
    requires !heap[heap[p].children[i]].isLeaf && j <= MidIndex(order)
    requires LinkOk(heap[p], place[p], p, i, heap.Keys, place, root)
    requires LinkOk(heap[heap[p].children[i]], place[heap[p].children[i]], heap[p].children[i], j, heap.Keys, place, root)
    ensures var x := heap[p].children[i];
      LinkOk(SplitLeft(order, heap[x]), place[x].(hi := Bounded(heap[x].keys[MidIndex(order)])), x, j,
             heap.Keys + {top}, SplitPlace(order, heap, place, top, p, i), root)
  {
    var x := heap[p].children[i];
    var full := heap[x];
    var mid := MidIndex(order);
    var pl1 := SplitPlace(order, heap, place, top, p, i);
    var c := full.children[j];
    var r := SplitLeft(order, full);
    assert r.children[j] == c;
    assert c != x && c != top;
    assert pl1[c] == Reslot(place[c], x, top, p, i, mid);
  }

  lemma SplitRightLinks(order: nat, root: Addr, top: Addr, heap: map<Addr, BNode>, place: map<Addr, Place>, p: Addr, i: nat, j: nat)
    requires SplitPre(order, heap, p, i) && top !in heap && p in place && heap[p].children[i] in place
    requires !heap[heap[p].children[i]].isLeaf && j <= order - 1 - MidIndex(order) - 1
    requires LinkOk(heap[p], place[p], p, i, heap.Keys, place, root)
    requires LinkOk(heap[heap[p].children[i]], place[heap[p].children[i]], heap[p].children[i], MidIndex(order) + 1 + j, heap.Keys, place, root)
    ensures var x := heap[p].children[i]; var mid := MidIndex(order);
      LinkOk(SplitRight(order, heap[x]), Place(place[x].height, Bounded(heap[x].keys[mid]), place[x].hi, p, i + 1), top, j,
             heap.Keys + {top}, SplitPlace(order, heap, place, top, p, i), root)
  {
    var x := heap[p].children[i];
    var full := heap[x];
    var mid := MidIndex(order);
    var pl1 := SplitPlace(order, heap, place, top, p, i);
    var c := full.children[mid + 1 + j];
    var r := SplitRight(order, full);
    assert r.children[j] == c;
    assert j > 0 ==> r.keys[j - 1] == full.keys[mid + j];
    assert j < r.keyCount ==> r.keys[j] == full.keys[mid + 1 + j];
    assert c != x && c != top;
    assert pl1[c] == Reslot(place[c], x, top, p, i, mid);
  }

  lemma SplitOtherLinks(order: nat, root: Addr, top: Addr, heap: map<Addr, BNode>, place: map<Addr, Place>, p: Addr, i: nat, a: Addr, j: nat)
    requires SplitPre(order, heap, p, i) && top !in heap && p in place && heap[p].children[i] in place
    requires a in heap && a in place && a != p && a != heap[p].children[i] && !heap[a].isLeaf && j <= heap[a].keyCount
    requires LinkOk(heap[p], place[p], p, i, heap.Keys, place, root)
    requires LinkOk(heap[a], place[a], a, j, heap.Keys, place, root)
    ensures var h1 := SplitHeap(order, heap, top, p, i);
      LinkOk(h1[a], SplitPlace(order, heap, place, top, p, i)[a], a, j, h1.Keys, SplitPlace(order, heap, place, top, p, i), root)
  {
    var x := heap[p].children[i];
    var mid := MidIndex(order);
    var h1 := SplitHeap(order, heap, top, p, i);
    var pl1 := SplitPlace(order, heap, place, top, p, i);
    var c := heap[a].children[j];
    assert h1[a] == heap[a] && a != top;
    assert c != x && c != top;
    assert pl1[c] == Reslot(place[c], x, top, p, i, mid);
    assert pl1[a] == Reslot(place[a], x, top, p, i, mid);
  }

  /** insertNoFill's leaf step keeps the tree invariant when val lies in
      the leaf's range. */
  lemma LeafInsertKeepsTree(order: nat, root: Addr, top: Addr, heap: map<Addr, BNode>, place: map<Addr, Place>, a: Addr, val: int)
    requires TreeOk(order, root, top, heap, place)
    requires a in heap && heap[a].isLeaf && heap[a].keyCount < order - 1
    requires AtLeast(val, place[a].lo) && AtMost(val, place[a].hi)
    ensures TreeOk(order, root, top, heap[a := LeafInserted(heap[a], val)], place)
    ensures val in LeafInserted(heap[a], val).keys[..heap[a].keyCount + 1]
  {
    var n := heap[a];
    var h1 := heap[a := LeafInserted(n, val)];
    LeafInsertedOk(order, n, place[a], val);
    assert h1.Keys == heap.Keys;
    LeafInsertKeepsLinks(order, root, top, heap, place, a, val);
    LeafInsertKeepsUps(order, root, top, heap, place, a, val);
  }

  /** The links from internal nodes survive insertNoFill's leaf step: no
      internal node changes. */
  lemma LeafInsertKeepsLinks(order: nat, root: Addr, top: Addr, heap: map<Addr, BNode>, place: map<Addr, Place>,
                             a: Addr, val: int)
    requires TreeOk(order, root, top, heap, place)
    requires a in heap && heap[a].isLeaf && heap[a].keyCount < order - 1
    ensures var h1 := heap[a := LeafInserted(heap[a], val)];
      forall b, j: nat :: b in h1 && !h1[b].isLeaf && j <= h1[b].keyCount ==>
        LinkOk(h1[b], place[b], b, j, h1.Keys, place, root)
  {
    var h1 := heap[a := LeafInserted(heap[a], val)];
    assert h1.Keys == heap.Keys;
    forall b, j: nat | b in h1 && !h1[b].isLeaf && j <= h1[b].keyCount
      ensures LinkOk(h1[b], place[b], b, j, h1.Keys, place, root)
    {
      assert b != a && h1[b] == heap[b];
      assert LinkOk(heap[b], place[b], b, j, heap.Keys, place, root);
    }
  }

  /** The upward links survive insertNoFill's leaf step: a leaf is nobody's
      parent. */
  lemma LeafInsertKeepsUps(order: nat, root: Addr, top: Addr, heap: map<Addr, BNode>, place: map<Addr, Place>,
                           a: Addr, val: int)
    requires TreeOk(order, root, top, heap, place)
    requires a in heap && heap[a].isLeaf && heap[a].keyCount < order - 1
    ensures var h1 := heap[a := LeafInserted(heap[a], val)];
      forall b {:trigger UpOk(b, h1, place, root)} :: b in h1 ==> UpOk(b, h1, place, root)
  {
    var h1 := heap[a := LeafInserted(heap[a], val)];
    forall b | b in h1
      ensures UpOk(b, h1, place, root)
    {
      assert UpOk(b, heap, place, root);
      assert b != root ==> place[b].parent != a;
    }
  }

  /** The leaf stays NodeOk, and holds val, after insertNoFill's leaf
      step. */
  lemma LeafInsertedOk(order: nat, n: BNode, g: Place, val: int)
    requires NodeOk(order, n, g) && n.isLeaf && n.keyCount < order - 1
    requires AtLeast(val, g.lo) && AtMost(val, g.hi)
    ensures NodeOk(order, LeafInserted(n, val), g)
    ensures val in LeafInserted(n, val).keys[..n.keyCount + 1]
  {
    var r := LeafInserted(n, val);
    var pos := UpperBound(n.keys[..n.keyCount], val);
    LeafInsertedKeys(n, val);
    ShiftInsertAt(n.keys, pos, n.keyCount, val);
    assert r.keys[..n.keyCount + 1][pos] == val;
    forall k | 0 <= k < r.keyCount
      ensures AtLeast(r.keys[k], g.lo) && AtMost(r.keys[k], g.hi)
    {
      if k < pos {
        assert r.keys[k] == n.keys[k];
      } else if k > pos {
        assert r.keys[k] == n.keys[k - 1];
      }
    }
  }

  /** The empty tree's insert: a leaf root holding just val, at address
      top. */
  function Planted(order: nat, val: int): (r: BNode)
    requires 2 <= order
  {
    NewNode(true, order).(keyCount := 1, keys := NewNode(true, order).keys[0 := val])
  }

  /** Planting the first leaf keeps the tree invariant. */
  lemma PlantKeepsTree(order: nat, top: Addr, heap: map<Addr, BNode>, place: map<Addr, Place>, val: int)
    requires TreeOk(order, 0, top, heap, place)
    ensures TreeOk(order, top, top + 1, heap[top := Planted(order, val)], place[top := Place(0, NoBound, NoBound, 0, 0)])
  {
    var h1 := heap[top := Planted(order, val)];
    var pl1 := place[top := Place(0, NoBound, NoBound, 0, 0)];
    assert top !in heap;
    forall b, j: nat | b in h1 && !h1[b].isLeaf && j <= h1[b].keyCount
      ensures LinkOk(h1[b], pl1[b], b, j, h1.Keys, pl1, top)
    {
      assert b != top && h1[b] == heap[b];
      assert LinkOk(heap[b], place[b], b, j, heap.Keys, place, 0);
      assert heap[b].children[j] != top;
    }
    forall b | b in h1
      ensures UpOk(b, h1, pl1, top)
    {
      if b != top {
        assert UpOk(b, heap, place, 0);
      }
    }
  }

  /** The new root a full root is hung under: an internal node with no
      keys whose first child is the old root. */
  function GrownRoot(order: nat, oldRoot: Addr): (r: BNode)
    requires 2 <= order
  {
    NewNode(false, order).(children := NewNode(false, order).children[0 := oldRoot])
  }

  /** Hanging the root under a fresh keyless root keeps the tree
      invariant. */
  lemma GrowRootKeepsTree(order: nat, root: Addr, top: Addr, heap: map<Addr, BNode>, place: map<Addr, Place>)
    requires TreeOk(order, root, top, heap, place) && root != 0
    ensures TreeOk(order, top, top + 1, heap[top := GrownRoot(order, root)],
                   place[root := place[root].(parent := top, slot := 0)][top := Place(place[root].height + 1, NoBound, NoBound, 0, 0)])
  {
    var h1 := heap[top := GrownRoot(order, root)];
    var pl1 := place[root := place[root].(parent := top, slot := 0)][top := Place(place[root].height + 1, NoBound, NoBound, 0, 0)];
    assert top !in heap;
    assert NodeOk(order, h1[top], pl1[top]);
    forall b | b in h1
      ensures 0 < b < top + 1 && b in pl1 && NodeOk(order, h1[b], pl1[b])
    {
      if b != top {
        assert h1[b] == heap[b];
        assert NodeOk(order, heap[b], place[b]);
      }
    }
    forall b, j: nat | b in h1 && !h1[b].isLeaf && j <= h1[b].keyCount
      ensures LinkOk(h1[b], pl1[b], b, j, h1.Keys, pl1, top)
    {
      if b != top {
        assert h1[b] == heap[b];
        assert LinkOk(heap[b], place[b], b, j, heap.Keys, place, root);
        var c := heap[b].children[j];
        assert c != top && c != root;
        assert pl1[b].height == place[b].height && pl1[b].lo == place[b].lo && pl1[b].hi == place[b].hi;
      }
    }
    forall b | b in h1
      ensures UpOk(b, h1, pl1, top)
    {
      if b != top && b != root {
        assert UpOk(b, heap, place, root);
      }
    }
  }

  /** The node d parent steps above a. */
  ghost function Up(place: map<Addr, Place>, a: Addr, d: nat): Addr
    decreases d
  {
    if d == 0 || a !in place then a else Up(place, place[a].parent, d - 1)
  }

  /** The nodes of the heap strictly above height h. */
  ghost function Above(heap: map<Addr, BNode>, place: map<Addr, Place>, h: nat): set<Addr>
  {
    set b | b in heap && b in place && place[b].height > h
  }

  /** No node floats free of the tree: from every node a chain of parent
      steps, each one level up, ends at the root after as many steps as the
      root is above it. So every node the key count ranges over is in the
      tree. */
  lemma {:induction false} HangsFromRoot(order: nat, root: Addr, top: Addr, heap: map<Addr, BNode>, place: map<Addr, Place>, a: Addr)
    requires TreeOk(order, root, top, heap, place) && a in heap
    ensures root != 0 && place[a].height <= place[root].height
    ensures Up(place, a, place[root].height - place[a].height) == root
    decreases |Above(heap, place, place[a].height)|
  {
    assert UpOk(a, heap, place, root);
    if a != root {
      var q := place[a].parent;
      assert LinkOk(heap[q], place[q], q, place[a].slot, heap.Keys, place, root);
      assert place[q].height == place[a].height + 1;
      var upper := Above(heap, place, place[q].height);
      var lower := Above(heap, place, place[a].height);
      assert upper + {q} <= lower && q !in upper;
      assert |upper| < |lower| by {
        assert |upper + {q}| == |upper| + 1;
        SubsetCard(upper + {q}, lower);
      }
      HangsFromRoot(order, root, top, heap, place, q);
    }
  }

  /** A subset is no larger. */
  lemma {:induction false} SubsetCard<T>(small: set<T>, big: set<T>)
    requires small <= big
    ensures |small| <= |big|
  {
    if small != {} {
      var e :| e in small;
      SubsetCard(small - {e}, big - {e});
    }
  }

  /** The live keys of a node. */
  function Live(n: BNode): multiset<int>
  {
    if 0 <= n.keyCount <= |n.keys| then multiset(n.keys[..n.keyCount]) else multiset{}
  }

  /** How often v is a live key of the node at address a; 0 if no node
      lives there. */
  function CountAt(heap: map<Addr, BNode>, a: Addr, v: int): nat
  {
    if a in heap then Live(heap[a])[v] else 0
  }

  /** How often v is a live key of the nodes at addresses below bound.
      Nodes are never freed and every address below top was handed out by
      `new`, so with bound = top this counts v over every node of the heap,
      and by HangsFromRoot every such node is in the tree. */
  ghost function HeapCount(heap: map<Addr, BNode>, bound: nat, v: int): nat
  {
    if bound == 0 then 0 else HeapCount(heap, bound - 1, v) + CountAt(heap, bound - 1, v)
  }

  /** Writing at or above bound leaves the count below it alone. */
  lemma {:induction false} HeapCountAbove(heap: map<Addr, BNode>, bound: nat, a: Addr, n: BNode, v: int)
    requires bound <= a
    ensures HeapCount(heap[a := n], bound, v) == HeapCount(heap, bound, v)
  {
    if bound != 0 {
      HeapCountAbove(heap, bound - 1, a, n, v);
    }
  }

  /** Replacing the node at a below bound trades its occurrences of v for
      the new node's. */
  lemma {:induction false} HeapCountUpdate(heap: map<Addr, BNode>, bound: nat, a: Addr, n: BNode, v: int)
    requires a < bound
    ensures HeapCount(heap[a := n], bound, v) + CountAt(heap, a, v) == HeapCount(heap, bound, v) + Live(n)[v]
  {
    if a == bound - 1 {
      HeapCountAbove(heap, bound - 1, a, n, v);
    } else {
      HeapCountUpdate(heap, bound - 1, a, n, v);
    }
  }

  /** A node allocated at the next address adds exactly its live keys. */
  lemma HeapCountAdd(heap: map<Addr, BNode>, top: Addr, n: BNode, v: int)
    requires top !in heap
    ensures HeapCount(heap[top := n], top + 1, v) == HeapCount(heap, top, v) + Live(n)[v]
  {
    HeapCountAbove(heap, top, top, n, v);
  }

  /** splitChild moves keys between nodes and loses or duplicates none:
      the median leaves the full node for the parent. */
  lemma SplitKeepsKeys(order: nat, top: Addr, heap: map<Addr, BNode>, p: Addr, i: nat, v: int)
    requires SplitPre(order, heap, p, i) && top !in heap && p < top && heap[p].children[i] < top
    ensures HeapCount(SplitHeap(order, heap, top, p, i), top + 1, v) == HeapCount(heap, top, v)
  {
    var x := heap[p].children[i];
    var full := heap[x];
    var median := full.keys[MidIndex(order)];
    SplitLiveKeys(order, full);
    AdoptLiveKeys(heap[p], i, top, median);
    MoveKeys(heap, top, x, p, SplitLeft(order, full), SplitRight(order, full), Adopt(heap[p], i, top, median), median, v);
  }

  /** Three writes that move key m from node x to node p, and the rest of
      x's keys between x and a new node at top, leave every count alone. */
  lemma MoveKeys(heap: map<Addr, BNode>, top: Addr, x: Addr, p: Addr, left: BNode, right: BNode, parent: BNode, m: int, v: int)
    requires top !in heap && x in heap && p in heap && x < top && p < top && x != p
    requires Live(heap[x]) == Live(left) + multiset{m} + Live(right)
    requires Live(parent) == Live(heap[p]) + multiset{m}
    ensures HeapCount(heap[top := right][x := left][p := parent], top + 1, v) == HeapCount(heap, top, v)
  {
    var h1 := heap[top := right];
    HeapCountAdd(heap, top, right, v);
    HeapCountUpdate(h1, top + 1, x, left, v);
    HeapCountUpdate(h1[x := left], top + 1, p, parent, v);
    assert CountAt(h1, x, v) == Live(heap[x])[v];
    assert CountAt(h1[x := left], p, v) == Live(heap[p])[v];
  }

  /** The halves of a split node and its median hold the node's keys. */
  lemma SplitLiveKeys(order: nat, full: BNode)
    requires 2 <= order && |full.keys| == order - 1 && full.keyCount == order - 1
    requires !full.isLeaf ==> |full.children| == order
    ensures Live(full) == Live(SplitLeft(order, full)) + multiset{full.keys[MidIndex(order)]} + Live(SplitRight(order, full))
  {
    SplitHalves(order, full);
  }

  /** The parent's keys gain exactly the median. */
  lemma AdoptLiveKeys(parent: BNode, i: nat, y: Addr, median: int)
    requires i <= parent.keyCount < |parent.keys| && parent.keyCount + 1 < |parent.children|
    ensures Live(Adopt(parent, i, y, median)) == Live(parent) + multiset{median}
  {
    ShiftInsertMultiset(parent.keys, i, parent.keyCount, median);
  }

  /** insertNoFill's leaf step adds exactly one occurrence of val to the
      tree. */
  lemma LeafInsertKeepsKeys(heap: map<Addr, BNode>, top: Addr, a: Addr, val: int, v: int)
    requires a in heap && a < top && 0 <= heap[a].keyCount < |heap[a].keys|
    requires Sorted(heap[a].keys[..heap[a].keyCount])
    ensures HeapCount(heap[a := LeafInserted(heap[a], val)], top, v) == HeapCount(heap, top, v) + (if v == val then 1 else 0)
  {
    var n := LeafInserted(heap[a], val);
    assert Live(n) == Live(heap[a]) + multiset{val} by {
      LeafInsertedKeys(heap[a], val);
    }
    HeapCountUpdate(heap, top, a, n, v);
  }

  /** Descending without a split: the child the scan picks has val inside
      its range. */
  lemma ChildRange(n: BNode, g: Place, i: nat, val: int)
    requires 0 <= n.keyCount <= |n.keys| && i == UpperBound(n.keys[..n.keyCount], val)
    requires AtLeast(val, g.lo) && AtMost(val, g.hi)
    ensures AtLeast(val, ChildLo(n, g, i)) && AtMost(val, ChildHi(n, g, i))
  {
    var s := n.keys[..n.keyCount];
    if 0 < i {
      assert s[i - 1] == n.keys[i - 1];
    }
    if i < n.keyCount {
      assert s[i] == n.keys[i];
    }
  }

  /** Descending after splitting child i of p: the median now at key slot
      i decides between the split child and its new sibling; the one
      chosen has room, is one level down, and has val inside its range. */
  lemma SplitDescent(order: nat, root: Addr, top: Addr, heap: map<Addr, BNode>, place: map<Addr, Place>,
                     p: Addr, i: nat, val: int)
    requires TreeOk(order, root, top, heap, place) && SplitPre(order, heap, p, i)
    requires i == UpperBound(heap[p].keys[..heap[p].keyCount], val)
    requires AtLeast(val, place[p].lo) && AtMost(val, place[p].hi)
    requires TreeOk(order, root, top + 1, SplitHeap(order, heap, top, p, i), SplitPlace(order, heap, place, top, p, i))
    ensures var h1 := SplitHeap(order, heap, top, p, i);
      var pl1 := SplitPlace(order, heap, place, top, p, i);
      var j := if val > h1[p].keys[i] then i + 1 else i;
      && j <= h1[p].keyCount && h1[p].children[j] in h1
      && h1[h1[p].children[j]].keyCount < order - 1
      && AtLeast(val, pl1[h1[p].children[j]].lo) && AtMost(val, pl1[h1[p].children[j]].hi)
      && pl1[h1[p].children[j]].height < place[p].height
  {
    var h1 := SplitHeap(order, heap, top, p, i);
    var pl1 := SplitPlace(order, heap, place, top, p, i);
    var n0 := heap[p];
    var x := n0.children[i];
    var full := heap[x];
    var median := full.keys[MidIndex(order)];
    var parent := Adopt(n0, i, top, median);
    assert top !in heap && x != p;
    assert h1[p] == parent && h1[x] == SplitLeft(order, full) && h1[top] == SplitRight(order, full);
    assert pl1[p] == Reslot(place[p], x, top, p, i, MidIndex(order));
    var j := if val > median then i + 1 else i;
    AdoptPlaces(n0, i, top, median);
    AdoptedChildRange(n0, place[p], i, top, median, val);
    assert LinkOk(parent, pl1[p], p, j, h1.Keys, pl1, root);
  }

  /** In the parent after splitChild, the child slot the median picks for
      val has val inside its range. */
  lemma AdoptedChildRange(n0: BNode, g: Place, i: nat, y: Addr, median: int, val: int)
    requires i <= n0.keyCount < |n0.keys| && n0.keyCount + 1 < |n0.children|
    requires i == UpperBound(n0.keys[..n0.keyCount], val)
    requires AtLeast(val, g.lo) && AtMost(val, g.hi)
    ensures var parent := Adopt(n0, i, y, median);
      var j := if val > median then i + 1 else i;
      AtLeast(val, ChildLo(parent, g, j)) && AtMost(val, ChildHi(parent, g, j))
  {
    var parent := Adopt(n0, i, y, median);
    var s := n0.keys[..n0.keyCount];
    ShiftInsertAt(n0.keys, i, n0.keyCount, median);
    if 0 < i {
      assert s[i - 1] == n0.keys[i - 1];
    }
    if i < n0.keyCount {
      assert s[i] == n0.keys[i];
    }
  }

  /** insertNoFill's scan for the child to descend into: from the last live
      key down while val is below it; the answer is one past where it
      stops. */
  method ScanBack(keys: seq<int>, count: int, val: int) returns (i: nat)
    requires 0 <= count <= |keys|
    ensures i == UpperBound(keys[..count], val)
  {
    var j := count - 1;
    while j >= 0 && val < keys[j]
      invariant -1 <= j < count
      invariant UpperBound(keys[..count], val) == UpperBound(keys[..j + 1], val)
    {
      assert keys[..j + 1][..j] == keys[..j];
      j := j - 1;
    }
    i := j + 1;
  }

  /** insertNoFill's leaf loop: from the last live key down, every key
      above val moves up one slot, then val goes into the gap. */
  method InsertSortedKeys(keys: seq<int>, count: int, val: int) returns (r: seq<int>)
    requires 0 <= count < |keys|
    ensures r == ShiftInsert(keys, UpperBound(keys[..count], val), count, val)
  {
    var i;
    r, i := ShiftAbove(keys, count, val);
    r := r[i + 1 := val];
    ShiftInsertAt(keys, i + 1, count, val);
    assert forall k :: 0 <= k < |r| ==> r[k] == ShiftInsert(keys, i + 1, count, val)[k];
  }

  /** The loop of insertNoFill's leaf branch: i walks down from the last
      live key while the key at i is above val, moving it up one slot. It
      stops one slot before the upper bound of val. */
  method ShiftAbove(keys: seq<int>, count: int, val: int) returns (r: seq<int>, i: int)
    requires 0 <= count < |keys|
    ensures -1 <= i < count && i + 1 == UpperBound(keys[..count], val) && |r| == |keys|
    ensures forall k :: 0 <= k <= i ==> r[k] == keys[k]
    ensures forall k :: i + 1 < k <= count ==> r[k] == keys[k - 1]
    ensures forall k :: count < k < |keys| ==> r[k] == keys[k]
  {
    r := keys;
    i := count - 1;
    while i >= 0 && val < r[i]
      invariant -1 <= i < count && |r| == |keys|
      invariant forall k :: 0 <= k <= i ==> r[k] == keys[k]
      invariant forall k :: i + 1 < k <= count ==> r[k] == keys[k - 1]
      invariant forall k :: count < k < |keys| ==> r[k] == keys[k]
      invariant UpperBound(keys[..count], val) == UpperBound(keys[..i + 1], val)
    {
      UpperBoundPastAbove(keys, i, val);
      r := r[i + 1 := r[i]];
      i := i - 1;
    }
    UpperBoundAtStop(keys, i, val);
  }

  /** The scan stops at once past a key at most val (or at the start). */
  lemma UpperBoundAtStop(s: seq<int>, i: int, val: int)
    requires -1 <= i < |s| && (i < 0 || s[i] <= val)
    ensures UpperBound(s[..i + 1], val) == i + 1
  {
    if 0 <= i {
      assert s[..i + 1][i] == s[i];
    }
  }

  /** A key above val at slot j leaves the upper bound in the first j
      slots. */
  lemma UpperBoundPastAbove(s: seq<int>, j: nat, val: int)
    requires j < |s| && val < s[j]
    ensures UpperBound(s[..j + 1], val) == UpperBound(s[..j], val)
  {
    assert s[..j + 1][..j] == s[..j];
  }

  /** splitChild's steps on the full node: a new node of the same kind
      takes the keys above the median (copy loop) and, internal, the
      children after it (move loop, nulling them in the full node), and the
      full node's count drops to the median's slot. */
  method SplitNode(order: nat, full: BNode) returns (left: BNode, right: BNode)
    requires 2 <= order && |full.keys| == order - 1 && (!full.isLeaf ==> |full.children| == order)
    ensures left == SplitLeft(order, full) && right == SplitRight(order, full)
  {
    var mid := (order - 1) / 2;
    var newCnt := (order - 1) - mid - 1;
    var blank := NewNode(full.isLeaf, order);
    var yKeys := CopyRun(blank.keys, full.keys, mid + 1, newCnt);
    assert yKeys == SplitRight(order, full).keys by {
      assert full.keys[mid + 1..mid + 1 + newCnt] == full.keys[mid + 1..];
    }
    var yChildren, xChildren := blank.children, full.children;
    if !full.isLeaf {
      yChildren, xChildren := MoveRun(blank.children, full.children, mid + 1, newCnt + 1, 0);
      assert yChildren == SplitRight(order, full).children by {
        assert full.children[mid + 1..mid + 1 + newCnt + 1] == full.children[mid + 1..];
      }
      assert xChildren == SplitLeft(order, full).children by {
        assert full.children[mid + 1 + newCnt + 1..] == [];
      }
    }
    right := BNode(full.isLeaf, newCnt, yKeys, yChildren);
    left := full.(keyCount := mid, children := xChildren);
  }

  /** splitChild's steps on the parent: the children after slot i move up
      one and the new node goes to slot i + 1, the keys from slot i move up
      one and the median goes to slot i, and keyCount grows by one. */
  method AdoptNode(par: BNode, i: nat, y: Addr, median: int) returns (r: BNode)
    requires i <= par.keyCount < |par.keys| && par.keyCount + 1 < |par.children|
    ensures r == Adopt(par, i, y, median)
  {
    var pChildren := ShiftRight(par.children, i + 1, par.keyCount + 1, y);
    var pKeys := ShiftRight(par.keys, i, par.keyCount, median);
    r := par.(keyCount := par.keyCount + 1, keys := pKeys, children := pChildren);
  }

  /** A B-tree: the root address (0 for the empty tree), the node heap and
      the next unused address. */
  class BTree {
    const order: nat
    var root: Addr
    var heap: map<Addr, BNode>
    var top: Addr
    ghost var place: map<Addr, Place>

    ghost predicate Valid()
      reads this
    {
      TreeOk(order, root, top, heap, place)
    }

    /** How often the tree stores v. */
    ghost function Count(v: int): nat
      reads this
    {
      HeapCount(heap, top, v)
    }

    /** BTree(): the empty tree. The key vector of a node has order - 1
        slots and the first insertion writes slot 0, so order is at least
        2. */
    constructor (order: nat)
      requires 2 <= order
      ensures Valid() && this.order == order && root == 0 && forall v :: Count(v) == 0
    {
      this.order := order;
      root := 0;
      heap := map[];
      top := 1;
      place := map[];
      new;
      forall v
        ensures Count(v) == 0
      {
        assert HeapCount(heap, 0, v) == 0;
      }
    }

    /** splitChild(i, fullChild) at node p: the full child keeps the keys
        below its median, a new node takes the keys (and, internal, the
        children) above it, and the median and the new node go into p at
        key slot i and child slot i + 1. */
    method SplitChild(p: Addr, i: nat, fullChild: Addr)
      requires Valid() && SplitPre(order, heap, p, i) && fullChild == heap[p].children[i]
      modifies this
      ensures Valid() && root == old(root) && top == old(top) + 1
      ensures heap == SplitHeap(order, old(heap), old(top), p, i)
      ensures place == SplitPlace(order, old(heap), old(place), old(top), p, i)
      ensures forall v :: Count(v) == old(Count(v))
    {
      ghost var heap0, place0 := heap, place;
      var full := heap[fullChild];
      var y := top;
      top := top + 1;
      var left, right := SplitNode(order, full);
      var parent := AdoptNode(heap[p], i, y, full.keys[(order - 1) / 2]);
      place := SplitPlace(order, heap0, place0, y, p, i);
      heap := heap[y := right][fullChild := left][p := parent];
      assert heap == SplitHeap(order, heap0, y, p, i);
      SplitChildStep(order, root, y, heap0, place0, p, i, top, heap, place);
    }

    /** insertNoFill(val) at node a, which has room: a leaf takes val in
        order; an internal node picks the child whose range holds val,
        splits it first when it is full, and recurses into it. */
    method InsertNoFill(a: Addr, val: int) returns (ghost leaf: Addr)
      requires Valid() && a in heap && heap[a].keyCount < order - 1
      requires AtLeast(val, place[a].lo) && AtMost(val, place[a].hi)
      modifies this
      ensures Valid() && root == old(root) && old(top) <= top
      ensures forall v :: Count(v) == old(Count(v)) + (if v == val then 1 else 0)
      ensures leaf in heap && heap[leaf].isLeaf && val in heap[leaf].keys[..heap[leaf].keyCount]
      decreases place[a].height
    {
      var n := heap[a];
      if n.isLeaf {
        InsertIntoLeaf(a, val);
        leaf := a;
      } else {
        var i := ScanBack(n.keys, n.keyCount, val);
        assert LinkOk(n, place[a], a, i, heap.Keys, place, root);
        var c := n.children[i];
        if heap[c].keyCount == order - 1 {
          i := SplitForDescent(a, i, val);
        } else {
          ChildRange(n, place[a], i, val);
        }
        leaf := InsertNoFill(heap[a].children[i], val);
      }
    }

    /** insertNoFill's split step: the full child at slot i is split, and
        the descent goes on in the half whose range holds val. */
    method SplitForDescent(p: Addr, i: nat, val: int) returns (j: nat)
      requires Valid() && SplitPre(order, heap, p, i)
      requires i == UpperBound(heap[p].keys[..heap[p].keyCount], val)
      requires AtLeast(val, place[p].lo) && AtMost(val, place[p].hi)
      modifies this
      ensures Valid() && root == old(root) && top == old(top) + 1
      ensures forall v :: Count(v) == old(Count(v))
      ensures p in heap && i < heap[p].keyCount && j == (if val > heap[p].keys[i] then i + 1 else i)
      ensures j <= heap[p].keyCount && j < |heap[p].children|
      ensures heap[p].children[j] in heap && heap[heap[p].children[j]].keyCount < order - 1
      ensures AtLeast(val, place[heap[p].children[j]].lo) && AtMost(val, place[heap[p].children[j]].hi)
      ensures place[heap[p].children[j]].height < old(place[p].height)
    {
      ghost var heap0, place0, top0 := heap, place, top;
      SplitChild(p, i, heap[p].children[i]);
      SplitDescent(order, root, top0, heap0, place0, p, i, val);
      j := if val > heap[p].keys[i] then i + 1 else i;
    }

    /** insertNoFill's leaf step: val goes into its sorted place among the
        leaf's keys. */
    method InsertIntoLeaf(a: Addr, val: int)
      requires Valid() && a in heap && heap[a].isLeaf && heap[a].keyCount < order - 1
      requires AtLeast(val, place[a].lo) && AtMost(val, place[a].hi)
      modifies this`heap
      ensures Valid() && heap == old(heap)[a := LeafInserted(old(heap)[a], val)]
      ensures forall v :: Count(v) == old(Count(v)) + (if v == val then 1 else 0)
      ensures val in heap[a].keys[..heap[a].keyCount]
    {
      var n := heap[a];
      var keys := InsertSortedKeys(n.keys, n.keyCount, val);
      LeafInsertKeepsTree(order, root, top, heap, place, a, val);
      forall v
        ensures HeapCount(heap[a := LeafInserted(n, val)], top, v) == HeapCount(heap, top, v) + (if v == val then 1 else 0)
      {
        LeafInsertKeepsKeys(heap, top, a, val, v);
      }
      var m := n.(keys := keys, keyCount := n.keyCount + 1);
      assert m == LeafInserted(n, val);
      heap := heap[a := m];
    }

    /** insert(val): an empty tree gets a leaf root holding val; a full
        root is first hung under a new keyless root and split, and val goes
        into the half whose range holds it; otherwise val goes into the
        root. */
    method Insert(val: int) returns (ghost leaf: Addr)
      requires Valid()
      modifies this
      ensures Valid()
      ensures forall v :: Count(v) == old(Count(v)) + (if v == val then 1 else 0)
      ensures leaf in heap && heap[leaf].isLeaf && val in heap[leaf].keys[..heap[leaf].keyCount]
      ensures old(root) == 0 ==> root == old(top) && heap[root] == Planted(order, val)
      ensures old(root) != 0 ==> root == if old(heap[root].keyCount) == order - 1 then old(top) else old(root)
    {
      if root == 0 {
        PlantRoot(val);
        leaf := root;
      } else if heap[root].keyCount == order - 1 {
        leaf := InsertThroughNewRoot(val);
      } else {
        leaf := InsertNoFill(root, val);
      }
    }

    /** insert's full-root step: the root is hung under a new keyless root
        and split, and val goes into the half whose range holds it. */
    method InsertThroughNewRoot(val: int) returns (ghost leaf: Addr)
      requires Valid() && root != 0 && heap[root].keyCount == order - 1
      modifies this
      ensures Valid() && root == old(top)
      ensures forall v :: Count(v) == old(Count(v)) + (if v == val then 1 else 0)
      ensures leaf in heap && heap[leaf].isLeaf && val in heap[leaf].keys[..heap[leaf].keyCount]
    {
      GrowRoot();
      var i := SplitForDescent(root, 0, val);
      leaf := InsertNoFill(heap[root].children[i], val);
    }

    /** insert's empty-tree step: a new leaf root holding just val. */
    method PlantRoot(val: int)
      requires Valid() && root == 0
      modifies this
      ensures Valid() && root == old(top) && top == old(top) + 1
      ensures heap == old(heap)[root := Planted(order, val)]
      ensures forall v :: Count(v) == old(Count(v)) + (if v == val then 1 else 0)
    {
      var r := NewNode(true, order);
      r := r.(keys := r.keys[0 := val], keyCount := 1);
      PlantKeepsTree(order, top, heap, place, val);
      assert Live(r) == multiset{val} by {
        assert r.keys[..1] == [val];
      }
      forall v
        ensures HeapCount(heap[top := r], top + 1, v) == HeapCount(heap, top, v) + (if v == val then 1 else 0)
      {
        HeapCountAdd(heap, top, r, v);
      }
      root := top;
      heap := heap[top := r];
      place := place[top := Place(0, NoBound, NoBound, 0, 0)];
      top := top + 1;
    }

    /** insert's full-root step before the split: a new keyless root whose
        first child is the old root. */
    method GrowRoot()
      requires Valid() && root != 0 && heap[root].keyCount == order - 1
      modifies this
      ensures Valid() && root == old(top) && top == old(top) + 1
      ensures heap == old(heap)[root := GrownRoot(order, old(root))]
      ensures place[root].height == old(place[root].height) + 1
      ensures forall v :: Count(v) == old(Count(v))
      ensures SplitPre(order, heap, root, 0) && heap[root].children[0] == old(root)
    {
      var oldRoot := root;
      var r := NewNode(false, order);
      r := r.(children := r.children[0 := oldRoot]);
      GrowRootKeepsTree(order, root, top, heap, place);
      forall v
        ensures HeapCount(heap[top := r], top + 1, v) == HeapCount(heap, top, v)
      {
        HeapCountAdd(heap, top, r, v);
      }
      heap := heap[top := r];
      place := place[oldRoot := place[oldRoot].(parent := top, slot := 0)]
                    [top := Place(place[oldRoot].height + 1, NoBound, NoBound, 0, 0)];
      root := top;
      top := top + 1;
    }
  }
}
