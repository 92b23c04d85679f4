/**
 * Pages and delta records of the Bw-Tree (nodes.hpp).
 *
 * A published node is never modified again, so a page is an immutable chain
 * read newest-first: delta records, each pointing at its `origin`, ending in a
 * base `Leaf` or `Inner` page. Here a chain is an inductive datatype whose
 * delta constructors carry their origin.
 */
module Nodes {
  import opened Keys

  datatype PageType = leaf | inner | deltaInsert | deltaDelete | deltaIndex | deltaSplit | deltaSplitInner

  datatype Node =
    | Leaf(prev: PID, next: PID, records: seq<KeyValue>)
    | Inner(prev: PID, next: PID, nodes: seq<KeyPid>)
    | DeltaInsert(origin: Node, record: KeyValue, keyExistedBefore: bool)
    | DeltaDelete(origin: Node, key: Key)
      /** `leaf` selects the tag: deltaSplit for a leaf page, deltaSplitInner otherwise. */
    | DeltaSplit(origin: Node, key: Key, sidelink: PID, removedElements: nat, leaf: bool)
      /** Routing for keys in (keyLeft, keyRight] goes to `child`. */
    | DeltaIndex(origin: Node, keyLeft: Key, keyRight: Key, child: PID, oldChild: PID)
  {
    predicate IsDelta() {
      !Leaf? && !Inner?
    }
  }

  function GetType(n: Node): (t: PageType)
    ensures t == PageType.leaf <==> n.Leaf?
    ensures t == PageType.inner <==> n.Inner?
    ensures t == PageType.deltaInsert <==> n.DeltaInsert?
    ensures t == PageType.deltaDelete <==> n.DeltaDelete?
    ensures t == PageType.deltaIndex <==> n.DeltaIndex?
    ensures t == PageType.deltaSplit <==> n.DeltaSplit? && n.leaf
    ensures t == PageType.deltaSplitInner <==> n.DeltaSplit? && !n.leaf
  {
    match n
    case Leaf(_, _, _) => PageType.leaf
    case Inner(_, _, _) => PageType.inner
    case DeltaInsert(_, _, _) => PageType.deltaInsert
    case DeltaDelete(_, _) => PageType.deltaDelete
    case DeltaSplit(_, _, _, _, isLeaf) => if isLeaf then PageType.deltaSplit else PageType.deltaSplitInner
    case DeltaIndex(_, _, _, _, _) => PageType.deltaIndex
  }

  /** Leaf::create: a leaf with room for `size` records, whose contents are left unset. */
  method LeafCreate(size: nat, prev: PID, next: PID) returns (n: Node)
    ensures GetType(n) == PageType.leaf
    ensures |n.records| == size && n.prev == prev && n.next == next
  {
    var unset: Data := *;
    n := Leaf(prev, next, seq(size, _ => Entry(0, unset)));
  }

  /** InnerNode::create: an inner page with room for `size` separators, contents unset. */
  method InnerNodeCreate(size: nat, prev: PID, next: PID) returns (n: Node)
    ensures GetType(n) == PageType.inner
    ensures |n.nodes| == size && n.prev == prev && n.next == next
  {
    n := Inner(prev, next, seq(size, _ => Entry(0, 0)));
  }

  /** CreateLeaf of the tree header, which takes `next` before `prev`. */
  method CreateLeaf(size: nat, next: PID, prev: PID) returns (n: Node)
    ensures GetType(n) == PageType.leaf
    ensures |n.records| == size && n.next == next && n.prev == prev
  {
    n := LeafCreate(size, prev, next);
  }

  /** CreateInnerNode of the tree header, which takes `next` before `prev`. */
  method CreateInnerNode(size: nat, next: PID, prev: PID) returns (n: Node)
    ensures GetType(n) == PageType.inner
    ensures |n.nodes| == size && n.next == next && n.prev == prev
  {
    n := InnerNodeCreate(size, prev, next);
  }

  method DeltaInsertCreate(origin: Node, record: KeyValue, keyExistedBefore: bool) returns (n: Node)
    ensures GetType(n) == PageType.deltaInsert
    ensures n.origin == origin && n.record == record && n.keyExistedBefore == keyExistedBefore
  {
    n := DeltaInsert(origin, record, keyExistedBefore);
  }

  method DeltaDeleteCreate(origin: Node, key: Key) returns (n: Node)
    ensures GetType(n) == PageType.deltaDelete
    ensures n.origin == origin && n.key == key
  {
    n := DeltaDelete(origin, key);
  }

  method DeltaSplitCreate(origin: Node, splitKey: Key, sidelink: PID, removedElements: nat, leaf: bool)
    returns (n: Node)
    ensures GetType(n) == (if leaf then PageType.deltaSplit else PageType.deltaSplitInner)
    ensures n.DeltaSplit? && n.origin == origin && n.key == splitKey
    ensures n.sidelink == sidelink && n.removedElements == removedElements
  {
    n := DeltaSplit(origin, splitKey, sidelink, removedElements, leaf);
  }

  method DeltaIndexCreate(origin: Node, splitKeyLeft: Key, splitKeyRight: Key, child: PID, oldChild: PID)
    returns (n: Node)
    ensures GetType(n) == PageType.deltaIndex
    ensures n.origin == origin && n.keyLeft == splitKeyLeft && n.keyRight == splitKeyRight
    ensures n.child == child && n.oldChild == oldChild
  {
    n := DeltaIndex(origin, splitKeyLeft, splitKeyRight, child, oldChild);
  }

  /** Whether a DeltaIndex record covers `key`: greater than keyLeft, at most keyRight. */
  predicate IndexCovers(n: Node, key: Key)
    requires n.DeltaIndex?
  {
    n.keyLeft < key <= n.keyRight
  }

  /** The separators of an inner page built from `s`: the last key raised to MaxKey when asked. */
  function WithInfinity(s: seq<KeyPid>, infinityElement: bool): seq<KeyPid>
    requires infinityElement ==> |s| > 0
  {
    if infinityElement then s[|s| - 1 := Entry(MaxKey, s[|s| - 1].value)] else s
  }

  /** Raising the last key of a key-sorted sequence to MaxKey keeps it sorted. */
  lemma WithInfinitySorted(s: seq<KeyPid>, infinityElement: bool)
    requires infinityElement ==> |s| > 0
    requires SortedByKey(s)
    ensures SortedByKey(WithInfinity(s, infinityElement))
    ensures |WithInfinity(s, infinityElement)| == |s|
    ensures infinityElement ==> WithInfinity(s, true)[|s| - 1].key == MaxKey
  {
  }

  /**
   * Helper::CreateInnerNodeFromUnsorted over the range `a`: sorts the caller's
   * range by key in place, copies it into a fresh inner page and, with
   * `infinityElement`, sets the last separator key to MaxKey.
   */
  method CreateInnerNodeFromUnsorted(a: array<KeyPid>, prev: PID, next: PID, infinityElement: bool)
    returns (n: Node)
    requires infinityElement ==> a.Length > 0
    modifies a
    ensures SortedByKey(a[..]) && multiset(a[..]) == multiset(old(a[..]))
    ensures n == Inner(prev, next, WithInfinity(a[..], infinityElement))
  {
    n := InnerNodeCreate(a.Length, prev, next);
    SortByKey(a);
    var i := 0;
    while i < a.Length
      invariant 0 <= i <= a.Length
      invariant n.Inner? && n.prev == prev && n.next == next && |n.nodes| == a.Length
      invariant n.nodes[..i] == a[..i]
    {
      n := n.(nodes := n.nodes[i := a[i]]);
      i := i + 1;
    }
    assert n.nodes == n.nodes[..i];
    if infinityElement {
      var last := a.Length - 1;
      n := n.(nodes := n.nodes[last := Entry(MaxKey, n.nodes[last].value)]);
    }
  }

  /** Helper::CreateLeafNodeFromSorted: copies the range in order into a fresh leaf. */
  method CreateLeafNodeFromSorted(a: array<KeyValue>, prev: PID, next: PID) returns (n: Node)
    ensures n == Leaf(prev, next, a[..])
  {
    n := LeafCreate(a.Length, prev, next);
    var i := 0;
    while i < a.Length
      invariant 0 <= i <= a.Length
      invariant n.Leaf? && n.prev == prev && n.next == next && |n.records| == a.Length
      invariant n.records[..i] == a[..i]
    {
      n := n.(records := n.records[i := a[i]]);
      i := i + 1;
    }
    assert n.records == n.records[..i];
  }

  /** Number of nodes in the chain starting at `n`, the base included. */
  function Depth(n: Node): (d: nat)
    ensures d >= 1
  {
    if n.IsDelta() then 1 + Depth(n.origin) else 1
  }

  /** The nodes of a chain, newest first, ending with its base page. */
  function ChainNodes(n: Node): seq<Node>
  {
    if n.IsDelta() then [n] + ChainNodes(n.origin) else [n]
  }

  /**
   * A chain lists every node once: it starts at the head, each node is
   * followed by its origin, only the last one is a base page, and the depth
   * drops by one per step.
   */
  lemma {:induction false} ChainNodesShape(n: Node)
    ensures |ChainNodes(n)| == Depth(n)
    ensures ChainNodes(n)[0] == n
    ensures !ChainNodes(n)[|ChainNodes(n)| - 1].IsDelta()
    ensures forall i :: 0 <= i < |ChainNodes(n)| - 1 ==>
      ChainNodes(n)[i].IsDelta() && ChainNodes(n)[i + 1] == ChainNodes(n)[i].origin
    ensures forall i :: 0 <= i < |ChainNodes(n)| ==> Depth(ChainNodes(n)[i]) == Depth(n) - i
  {
    if n.IsDelta() {
      ChainNodesShape(n.origin);
      var rest := ChainNodes(n.origin);
      assert ChainNodes(n) == [n] + rest;
      forall i | 0 <= i < |ChainNodes(n)| - 1
        ensures ChainNodes(n)[i].IsDelta() && ChainNodes(n)[i + 1] == ChainNodes(n)[i].origin
      {
        if i > 0 { assert ChainNodes(n)[i] == rest[i - 1]; }
      }
    }
  }

  lemma ChainNodesDistinct(n: Node)
    ensures forall i, j :: 0 <= i < j < |ChainNodes(n)| ==> ChainNodes(n)[i] != ChainNodes(n)[j]
  {
    ChainNodesShape(n);
  }

  /**
   * freeNodeRecursively: follows `origin` through every delta kind and stops
   * after the first base page; `released` lists the nodes in release order.
   */
  method FreeNodeRecursively(node: Node) returns (released: seq<Node>)
    ensures released == ChainNodes(node)
  {
    var cur := node;
    released := [];
    while cur.IsDelta()
      invariant released + ChainNodes(cur) == ChainNodes(node)
      decreases cur
    {
      released := released + [cur];
      cur := cur.origin;
    }
    released := released + [cur];
  }
}
