/**
 * The Tree class of bwtree.hpp and bwtree.cpp: a mapping table of chain
 * heads updated by compare-and-swap, the PID allocator, and the fixed-size
 * array of replaced heads kept for later deletion.
 *
 * Every method is proved against the state-transition function of module
 * TreeSpec that describes it: `Abstract()` after the call, paired with the
 * method's status, is the function applied to `Abstract()` before it. What
 * the operations guarantee is proved there, about those functions.
 */
module BwTree {
  import opened Keys
  import opened Nodes
  import opened Pages
  import opened Traversal
  import opened TreeSpec

  /**
   * The nodes a destructor releases for the slots below `n`: the chain of
   * every filled slot, slot by slot, each newest first.
   */
  function ReleasedBelow(m: Mapping, n: nat): seq<Node>
    requires n <= |m|
  {
    if n == 0 then []
    else ReleasedBelow(m, n - 1) + (if m[n - 1].Some? then ChainNodes(m[n - 1].value) else [])
  }

  /** Every node of every chain below `n` is released, and nothing else. */
  lemma {:induction false} ReleasedBelowExactly(m: Mapping, n: nat, x: Node)
    requires n <= |m|
    ensures x in ReleasedBelow(m, n) <==>
      exists i :: 0 <= i < n && m[i].Some? && x in ChainNodes(m[i].value)
  {
    if n > 0 {
      ReleasedBelowExactly(m, n - 1, x);
      var tail := if m[n - 1].Some? then ChainNodes(m[n - 1].value) else [];
      assert ReleasedBelow(m, n) == ReleasedBelow(m, n - 1) + tail;
      if x in tail {
        assert 0 <= n - 1 < n && m[n - 1].Some? && x in ChainNodes(m[n - 1].value);
      }
      if exists i :: 0 <= i < n && m[i].Some? && x in ChainNodes(m[i].value) {
        var i :| 0 <= i < n && m[i].Some? && x in ChainNodes(m[i].value);
        if i < n - 1 {
          assert x in ReleasedBelow(m, n - 1);
        } else {
          assert x in tail;
        }
      }
    }
  }

  class Tree {
    var root: PID
    const mapping: array<Option<Node>>
    var mappingNext: nat
    const settings: Settings
    const deletedNodes: array<Node>
    var deleteNodeNext: nat

    /** The tree as a value: the root, the table, the allocator and the deletion list in use. */
    function Abstract(): TreeState
      reads this, mapping, deletedNodes
      requires deleteNodeNext <= deletedNodes.Length
    {
      TreeState(root, mapping[..], mappingNext, deletedNodes[..deleteNodeNext])
    }

    predicate Valid()
      reads this, mapping, deletedNodes
    {
      mapping.Length == MappingSize && deletedNodes.Length == DeletedCapacity &&
      deleteNodeNext <= DeletedCapacity && Good(Abstract())
    }

    /**
     * Tree(): an empty leaf under the first PID, then an inner root page
     * with the single separator MaxKey pointing at it. The consolidation
     * threshold and the split threshold come in as `settings`.
     */
    constructor (settings: Settings)
      ensures Valid() && Abstract() == InitialState() && this.settings == settings
    {
      this.settings := settings;
      mapping := new Option<Node>[MappingSize](_ => None);
      deletedNodes := new Node[DeletedCapacity](_ => EmptyLeaf);
      mappingNext := 0;
      deleteNodeNext := 0;
      root := 0;
      new;
      assert mapping[..] == seq(MappingSize, _ => None);
      var datanode := CreateLeaf(0, NotExistantPID, NotExistantPID);
      assert datanode == EmptyLeaf;
      var dataNodePID := NewNode(datanode);
      var innerNode := CreateInnerNode(1, NotExistantPID, NotExistantPID);
      innerNode := innerNode.(nodes := innerNode.nodes[0 := Entry(MaxKey, dataNodePID.value)]);
      assert innerNode == RootPage;
      var rootPID := NewNode(innerNode);
      root := rootPID.value;
      assert mapping[..] == seq(MappingSize, _ => None)[0 := Some(EmptyLeaf)][1 := Some(RootPage)];
      assert mapping[..] == [Some(EmptyLeaf), Some(RootPage)] + seq(MappingSize - 2, _ => None);
    }

    /** newNode: hand out the next PID and store the node there; None where the source exits on a full table. */
    method NewNode(node: Node) returns (pid: Option<PID>)
      requires Valid() && PageOK(Some(node))
      modifies this, mapping
      ensures Valid()
      ensures (Abstract(), pid) == Allocated(old(Abstract()), node)
    {
      var nextPID := mappingNext;
      if nextPID >= mapping.Length {
        return None;
      }
      mappingNext := nextPID + 1;
      mapping[nextPID] := Some(node);
      pid := Some(nextPID);
      AllocatedGood(old(Abstract()), node);
    }

    method PIDToNodePtr(node: PID) returns (n: Option<Node>)
      requires node < mapping.Length
      ensures n == mapping[node]
    {
      n := mapping[node];
    }

    /** compare_exchange on one slot: the new head is stored exactly when the slot holds the expected one. */
    method CompareExchange(pid: PID, expected: Node, desired: Node) returns (ok: bool)
      requires pid < mapping.Length
      modifies mapping
      ensures ok <==> old(mapping[pid]) == Some(expected)
      ensures mapping[..] == if ok then old(mapping[..])[pid := Some(desired)] else old(mapping[..])
    {
      if mapping[pid] == Some(expected) {
        mapping[pid] := Some(desired);
        ok := true;
      } else {
        ok := false;
      }
    }

    /**
     * findDataPage: the outer loop enters a page and records it on the
     * stack of visited pages, the inner loop walks the page's chain until a
     * node answers for the key or sends the search to another page. Each
     * hop to a page costs one unit of a hop budget, a bound the source does
     * not have.
     */
    method FindDataPage(key: Key) returns (o: FindOutcome)
      requires Valid()
      ensures o == Find(Abstract(), settings, key)
    {
      ghost var m := mapping[..];
      ghost var goal := Find(Abstract(), settings, key);
      var nextPID: PID := root;
      var needConsolidatePage: seq<PID> := [];
      var needSplitPage: seq<PID> := [];
      var parentNodes: seq<PID> := [];
      var hops := MaxHops;
      while true
        invariant Visit(m, settings, key, nextPID, parentNodes, needConsolidatePage, needSplitPage, hops) == goal
        decreases hops
      {
        if hops == 0 {
          return Lost(Diverges);
        }
        if nextPID == NotExistantPID {
          return Lost(NoPage);
        }
        if nextPID >= mapping.Length {
          return Lost(OutsideTable);
        }
        var pageDepth: nat := 0;
        parentNodes := parentNodes + [nextPID];
        var startNode := PIDToNodePtr(nextPID);
        if startNode.None? {
          // an empty slot: the source enters it again and again
          hops := hops - 1;
          continue;
        }
        var start := startNode.value;
        var nextNode := start;
        while true
          invariant Walk(m, settings, key, nextPID, start, nextNode, pageDepth, parentNodes,
                         needConsolidatePage, needSplitPage, hops) == goal
          decreases nextNode
        {
          pageDepth := pageDepth + 1;
          if pageDepth == settings.consolidateLeafPage && needConsolidatePage == [] {
            needConsolidatePage := parentNodes;
          }
          match nextNode
          case DeltaIndex(_, _, _, _, _) =>
            return Lost(Unimplemented);
          case Inner(_, _, nodes) =>
            var res := BinarySearch(nodes, key);
            if res >= |nodes| {
              return Lost(PastLastSeparator);
            }
            nextPID := nodes[res].value;
            hops := hops - 1;
            break;
          case Leaf(_, next, records) =>
            if |records| > settings.splitLeafPage && needSplitPage == [] {
              needSplitPage := parentNodes;
            }
            var res := BinarySearch(records, key);
            if |records| > res && records[res].key == key {
              return Located(FindDataPageResult(nextPID, start, Some(records[res].value),
                                                needConsolidatePage, needSplitPage, parentNodes));
            }
            if res == |records| && next != NotExistantPID {
              nextPID := next;
              hops := hops - 1;
              break;
            }
            return Located(FindDataPageResult(nextPID, start, None, needConsolidatePage, needSplitPage, parentNodes));
          case DeltaInsert(origin, record, _) =>
            if record.key == key {
              return Located(FindDataPageResult(nextPID, start, Some(record.value),
                                                needConsolidatePage, needSplitPage, parentNodes));
            }
            nextNode := origin;
          case DeltaDelete(origin, k) =>
            if k == key {
              return Located(FindDataPageResult(nextPID, start, None, needConsolidatePage, needSplitPage, parentNodes));
            }
            nextNode := origin;
          case DeltaSplit(origin, k, sidelink, _, leaf) =>
            if !leaf {
              return Lost(Unimplemented);
            }
            if key > k {
              nextPID := sidelink;
              hops := hops - 1;
              break;
            }
            nextNode := origin;
        }
      }
    }

    /**
     * search: locate the page, run the maintenance the traversal asked for,
     * and return the payload found, if any.
     */
    method Search(key: Key) returns (r: Reply)
      requires Valid()
      modifies this, mapping, deletedNodes
      ensures Valid()
      ensures (Abstract(), r) == Searched(old(Abstract()), settings, key)
    {
      var res := FindDataPage(key);
      if res.Lost? {
        return Abort(res.fault);
      }
      FindLocated(Abstract(), settings, key);
      var returnValue := res.res.data;
      var status := Maintain(res.res);
      if status.Aborted? {
        return Abort(status.fault);
      }
      r := Ok(returnValue);
    }

    /** insert: locate the page and publish the insert there; then the maintenance. */
    method Insert(key: Key, record: Data) returns (status: Status)
      requires Valid()
      modifies this, mapping, deletedNodes
      ensures Valid()
      ensures (Abstract(), status) == Inserted(old(Abstract()), settings, key, record)
    {
      var res := FindDataPage(key);
      if res.Lost? {
        return Aborted(res.fault);
      }
      FindLocated(Abstract(), settings, key);
      status := InsertInto(res.res, key, record);
    }

    /**
     * The body of insert after findDataPage: the type switch, the
     * compare-and-swap of a DeltaInsert over the observed head and, once it
     * is published, the maintenance.
     */
    method InsertInto(res: FindDataPageResult, key: Key, record: Data) returns (status: Status)
      requires Valid() && res.pid < MappingSize && Lookup(res.startNode, key).Terminal()
      requires |res.parentNodes| > 0 && Top(res.parentNodes) < MappingSize
      modifies this, mapping, deletedNodes
      ensures Valid()
      ensures var r := InsertedInto(old(Abstract()), res, key, record);
        (Abstract(), status) == if r.1.Done? then Maintained(r.0, res) else r
    {
      InsertedIntoGood(Abstract(), res, key, record);
      if !InsertAccepts(res.startNode) {
        return Aborted(NotLeafPage);
      }
      var newNode := DeltaInsertCreate(res.startNode, Entry(key, record), false);
      var ok := CompareExchange(res.pid, res.startNode, newNode);
      if !ok {
        // another writer won; the source counts the collision and starts over
        return Collided;
      }
      status := Maintain(res);
    }

    /** deleteKey: locate the page and publish the delete there. */
    method DeleteKey(key: Key) returns (status: Status)
      requires Valid()
      modifies mapping
      ensures Valid() && unchanged(this) && unchanged(deletedNodes)
      ensures (Abstract(), status) == Deleted(old(Abstract()), settings, key)
    {
      var res := FindDataPage(key);
      if res.Lost? {
        return Aborted(res.fault);
      }
      FindLocated(Abstract(), settings, key);
      status := DeleteFrom(res.res, key);
    }

    /**
     * The body of deleteKey after findDataPage: nothing for an absent key,
     * else the type switch (a split record accepted) and the compare-and-swap
     * of a DeltaDelete over the observed head.
     */
    method DeleteFrom(res: FindDataPageResult, key: Key) returns (status: Status)
      requires Valid() && res.pid < MappingSize && Lookup(res.startNode, key).Terminal()
      modifies mapping
      ensures Valid()
      ensures (Abstract(), status) == DeletedFrom(old(Abstract()), res, key)
    {
      DeletedFromGood(Abstract(), res, key);
      if res.data.None? {
        return Done;
      }
      if !DeleteAccepts(res.startNode) {
        return Aborted(NotLeafPage);
      }
      var newDeleteNode := DeltaDeleteCreate(res.startNode, key);
      var ok := CompareExchange(res.pid, res.startNode, newDeleteNode);
      if !ok {
        return Collided;
      }
      status := Done;
    }

    /** The maintenance after a traversal: a split if one was asked for, else a consolidation. */
    method Maintain(res: FindDataPageResult) returns (status: Status)
      requires Valid() && |res.parentNodes| > 0 && Top(res.parentNodes) < MappingSize
      modifies this, mapping, deletedNodes
      ensures Valid()
      ensures (Abstract(), status) == Maintained(old(Abstract()), res)
    {
      if |res.needSplitPage| > 0 {
        status := SplitLeafPage(res.parentNodes);
      } else if |res.needConsolidatePage| > 0 {
        status := ConsolidatePage(res.parentNodes);
      } else {
        status := Done;
      }
      if status.Collided? {
        // a lost race is not retried
        status := Done;
      }
    }

    /**
     * splitLeafPage: consolidate the page on top of the stack, take its
     * median key Kp, publish the records above Kp as a new right page and
     * put a split record over the observed head.
     */
    method SplitLeafPage(stack: seq<PID>) returns (status: Status)
      requires Valid() && |stack| > 0 && Top(stack) < MappingSize
      modifies this, mapping
      ensures Valid()
      ensures (Abstract(), status) == Split(old(Abstract()), stack)
    {
      var pid := stack[|stack| - 1];
      var slot := PIDToNodePtr(pid);
      if slot.None? {
        return Aborted(NoChain);
      }
      var startNode := slot.value;
      var tempNode := CreateConsolidatedLeafPage(startNode, None);
      if tempNode.None? {
        return Aborted(NoChain);
      }
      var temp := tempNode.value;
      if |temp.records| == 0 {
        return Aborted(EmptyPage);
      }
      var kp := temp.records[|temp.records| / 2].key;
      var right := CreateConsolidatedLeafPage(startNode, Some(kp));
      var newRightNode := Leaf(pid, right.value.next, right.value.records);
      assert PageOK(mapping[pid]);
      SplitPreservesLookup(startNode, 0, 0, pid);
      var newRightNodePID := NewNode(newRightNode);
      if newRightNodePID.None? {
        return Aborted(TableFull);
      }
      // removedElements is left unset by the source's call; the right page's record count is stored.
      var splitNode := DeltaSplitCreate(startNode, kp, newRightNodePID.value, |newRightNode.records|, true);
      SplitPreservesLookup(startNode, newRightNodePID.value, |newRightNode.records|, pid);
      status := PublishSplit(pid, startNode, splitNode, newRightNodePID.value);
    }

    /** The compare-and-swap of splitLeafPage; a failure clears the right page's slot again. */
    method PublishSplit(pid: PID, startNode: Node, splitNode: Node, newRightNodePID: PID) returns (status: Status)
      requires Valid() && pid < MappingSize && newRightNodePID < MappingSize && PageOK(Some(splitNode))
      modifies mapping
      ensures Valid()
      ensures (Abstract(), status) == SplitPublished(old(Abstract()), pid, startNode, splitNode, newRightNodePID)
    {
      var ok := CompareExchange(pid, startNode, splitNode);
      if !ok {
        mapping[newRightNodePID] := None;
        return Collided;
      }
      status := Done;
    }

    /** consolidatePage, which forwards to consolidateLeafPage. */
    method ConsolidatePage(stack: seq<PID>) returns (status: Status)
      requires Valid() && |stack| > 0 && Top(stack) < MappingSize
      modifies this, mapping, deletedNodes
      ensures Valid()
      ensures (Abstract(), status) == Consolidated(old(Abstract()), stack)
    {
      status := ConsolidateLeafPage(stack);
    }

    /** consolidateLeafPage: replace the page on top of the stack by its consolidation. */
    method ConsolidateLeafPage(stack: seq<PID>) returns (status: Status)
      requires Valid() && |stack| > 0 && Top(stack) < MappingSize
      modifies this, mapping, deletedNodes
      ensures Valid()
      ensures (Abstract(), status) == Consolidated(old(Abstract()), stack)
    {
      var pid := stack[|stack| - 1];
      var slot := PIDToNodePtr(pid);
      if slot.None? {
        return Aborted(NoChain);
      }
      var startNode := slot.value;
      var newNode := CreateConsolidatedLeafPage(startNode, None);
      if newNode.None? {
        return Aborted(NoChain);
      }
      assert PageOK(mapping[pid]);
      ConsolidationPreservesLookup(startNode);
      status := PublishConsolidation(pid, startNode, newNode.value);
    }

    /** The compare-and-swap of consolidateLeafPage; on success the replaced head is marked for deletion. */
    method PublishConsolidation(pid: PID, startNode: Node, newNode: Node) returns (status: Status)
      requires Valid() && pid < MappingSize && PageOK(Some(newNode))
      modifies this, mapping, deletedNodes
      ensures Valid()
      ensures (Abstract(), status) == ConsolidationPublished(old(Abstract()), pid, startNode, newNode)
    {
      var previousNode := startNode;
      var ok := CompareExchange(pid, startNode, newNode);
      if !ok {
        return Collided;
      }
      status := MarkForDeletion(previousNode);
    }

    /** markForDeletion: append the node to deletedNodes, which must not be full. */
    method MarkForDeletion(node: Node) returns (status: Status)
      requires Valid()
      modifies this, deletedNodes
      ensures Valid()
      ensures (Abstract(), status) == Marked(old(Abstract()), node)
    {
      var index := deleteNodeNext;
      if index == deletedNodes.Length {
        return Aborted(DeletedNodesFull);
      }
      deleteNodeNext := index + 1;
      deletedNodes[index] := node;
      assert deletedNodes[..deleteNodeNext] == old(deletedNodes[..deleteNodeNext]) + [node];
      status := Done;
    }

    /**
     * ~Tree: for every PID handed out, release the chain in its slot node
     * by node down to its base page. The nodes kept in deletedNodes are not
     * released.
     */
    method Release() returns (released: seq<Node>)
      requires Valid()
      ensures released == ReleasedBelow(mapping[..], mappingNext)
    {
      released := [];
      var i := 0;
      while i < mappingNext
        invariant 0 <= i <= mappingNext
        invariant released == ReleasedBelow(mapping[..], i)
      {
        var node := mapping[i];
        if node.Some? {
          var chain := FreeNodeRecursively(node.value);
          released := released + chain;
        }
        i := i + 1;
      }
    }
  }
}
