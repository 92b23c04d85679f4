/**
 * The operations of the tree of bwtree.cpp and bwtree.hpp as functions from
 * one state of the tree to the next, and what they guarantee.
 *
 * Compare-and-swap is the sequential conditional replace: it succeeds
 * exactly when the slot still holds the head that was observed. The
 * operations that publish take that observed head as an argument, so the
 * failing case is part of the model even though a single thread that has
 * just read the slot always succeeds.
 */
module TreeSpec {
  import opened Keys
  import opened Nodes
  import opened Pages
  import opened Traversal

  /** Number of slots of the mapping table. */
  const MappingSize: nat := 2048
  /** Capacity of the array of nodes kept for later deletion. */
  const DeletedCapacity: nat := 10000
  /** Hop bound of a traversal: one more than the table has slots, which leaves room for a split's extra hop. */
  const MaxHops: nat := MappingSize + 1
  /** Chain length that asks for consolidation in the tree's settings. */
  const DefaultConsolidateLeafPage: nat := 1000

  /** The root PID, the mapping table, the next PID to hand out and the nodes kept for deletion. */
  datatype TreeState = TreeState(root: PID, table: Mapping, mappingNext: nat, deleted: seq<Node>)

  /** How a tree operation ended: done, beaten by another writer (the source retries or gives up), or aborted. */
  datatype Status = Done | Collided | Aborted(fault: Fault)

  /** What search returns, or why it aborted. */
  datatype Reply = Ok(data: Option<Data>) | Abort(fault: Fault)

  /** A slot is empty, an inner page, or a well-formed leaf chain. */
  predicate PageOK(o: Option<Node>)
  {
    o.None? || o.value.Inner? || WellFormedLeafChain(o.value)
  }

  /** The invariant of the tree: slots not yet handed out are empty and every page is well formed. */
  predicate Good(s: TreeState)
  {
    |s.table| == MappingSize && s.mappingNext <= MappingSize && |s.deleted| <= DeletedCapacity &&
    (forall i :: s.mappingNext <= i < MappingSize ==> s.table[i].None?) &&
    (forall i :: 0 <= i < MappingSize ==> PageOK(s.table[i]))
  }

  /** A fault that comes from a full table or a full deletion array, or a split with nothing to split. */
  predicate ResourceFault(f: Fault)
  {
    f.TableFull? || f.DeletedNodesFull? || f.EmptyPage?
  }

  // ---------------------------------------------------------------------------
  // Construction and allocation

  const EmptyLeaf: Node := Leaf(NotExistantPID, NotExistantPID, [])
  const RootPage: Node := Inner(NotExistantPID, NotExistantPID, [Entry(MaxKey, 0)])

  /** The state the constructor builds: PID 0 an empty leaf, PID 1 the root with one MaxKey separator to PID 0. */
  function InitialState(): TreeState
  {
    TreeState(1, [Some(EmptyLeaf), Some(RootPage)] + seq(MappingSize - 2, _ => None), 2, [])
  }

  /** newNode: the next PID takes the node; a full table ends the process. */
  function Allocated(s: TreeState, n: Node): (TreeState, Option<PID>)
  {
    if s.mappingNext >= |s.table| then (s, None)
    else (s.(table := s.table[s.mappingNext := Some(n)], mappingNext := s.mappingNext + 1), Some(s.mappingNext))
  }

  // ---------------------------------------------------------------------------
  // Insert, delete, search

  /** The page heads insert's type switch accepts. */
  predicate InsertAccepts(n: Node)
  {
    GetType(n) in {PageType.leaf, PageType.deltaInsert, PageType.deltaDelete, PageType.deltaSplit}
  }

  /** The page heads deleteKey's type switch accepts, a split record included. */
  predicate DeleteAccepts(n: Node)
  {
    GetType(n) in {PageType.leaf, PageType.deltaInsert, PageType.deltaDelete, PageType.deltaSplit}
  }

  /** The page heads deleteKey's type switch accepts as written: no split record. */
  predicate DeleteAcceptsAsWritten(n: Node)
  {
    GetType(n) in {PageType.leaf, PageType.deltaInsert, PageType.deltaDelete}
  }

  /** insert after findDataPage: prepend a DeltaInsert over the observed head if the slot still holds it. */
  function InsertedInto(s: TreeState, res: FindDataPageResult, key: Key, value: Data): (TreeState, Status)
    requires res.pid < |s.table|
  {
    if !InsertAccepts(res.startNode) then (s, Aborted(NotLeafPage))
    else if s.table[res.pid] != Some(res.startNode) then (s, Collided)
    else (s.(table := s.table[res.pid := Some(DeltaInsert(res.startNode, Entry(key, value), false))]), Done)
  }

  /** deleteKey after findDataPage: nothing for an absent key, else prepend a DeltaDelete if the slot still holds the head. */
  function DeletedFrom(s: TreeState, res: FindDataPageResult, key: Key): (TreeState, Status)
    requires res.pid < |s.table|
  {
    if res.data.None? then (s, Done)
    else if !DeleteAccepts(res.startNode) then (s, Aborted(NotLeafPage))
    else if s.table[res.pid] != Some(res.startNode) then (s, Collided)
    else (s.(table := s.table[res.pid := Some(DeltaDelete(res.startNode, key))]), Done)
  }

  /** DeletedFrom with the type switch as written, which aborts on a page whose head is a split record. */
  function DeletedFromAsWritten(s: TreeState, res: FindDataPageResult, key: Key): (TreeState, Status)
    requires res.pid < |s.table|
  {
    if res.data.Some? && !DeleteAcceptsAsWritten(res.startNode) then (s, Aborted(NotLeafPage))
    else DeletedFrom(s, res, key)
  }

  /** The result of findDataPage from the root. */
  function Find(s: TreeState, st: Settings, key: Key): FindOutcome
  {
    Visit(s.table, st, key, s.root, [], [], [], MaxHops)
  }

  /** insert: locate the page, publish the insert, then the maintenance the traversal asked for. */
  function Inserted(s: TreeState, st: Settings, key: Key, value: Data): (TreeState, Status)
    requires Good(s)
  {
    var o := Find(s, st, key);
    if o.Lost? then (s, Aborted(o.fault))
    else
      FindLocated(s, st, key);
      var r := InsertedInto(s, o.res, key, value);
      if r.1.Done? then Maintained(r.0, o.res) else r
  }

  /** deleteKey: locate the page and publish the delete; no maintenance. */
  function Deleted(s: TreeState, st: Settings, key: Key): (TreeState, Status)
    requires Good(s)
  {
    var o := Find(s, st, key);
    if o.Lost? then (s, Aborted(o.fault))
    else
      FindLocated(s, st, key);
      DeletedFrom(s, o.res, key)
  }

  /** search: locate the page, run the maintenance the traversal asked for, and answer. */
  function Searched(s: TreeState, st: Settings, key: Key): (TreeState, Reply)
    requires Good(s)
  {
    var o := Find(s, st, key);
    if o.Lost? then (s, Abort(o.fault))
    else
      FindLocated(s, st, key);
      var r := Maintained(s, o.res);
      if r.1.Aborted? then (r.0, Abort(r.1.fault)) else (r.0, Ok(o.res.data))
  }

  // ---------------------------------------------------------------------------
  // Maintenance: split, consolidation, deletion bookkeeping

  /** The page a maintenance request acts on: the top of the visited-pages stack. */
  function Top(stack: seq<PID>): PID
    requires |stack| > 0
  {
    stack[|stack| - 1]
  }

  /** A split if one was asked for, else a consolidation if one was asked for; a lost race is dropped. */
  function Maintained(s: TreeState, res: FindDataPageResult): (TreeState, Status)
    requires |res.parentNodes| > 0 && Top(res.parentNodes) < |s.table|
  {
    var r :=
      if |res.needSplitPage| > 0 then Split(s, res.parentNodes)
      else if |res.needConsolidatePage| > 0 then Consolidated(s, res.parentNodes)
      else (s, Done);
    if r.1.Collided? then (r.0, Done) else r
  }

  /**
   * splitLeafPage: consolidate the page, take the median key Kp, publish a
   * right page with the records above Kp under a new PID, then put a split
   * record for Kp over the observed head.
   */
  function Split(s: TreeState, stack: seq<PID>): (TreeState, Status)
    requires |stack| > 0 && Top(stack) < |s.table|
  {
    var pid := Top(stack);
    match s.table[pid]
    case None => (s, Aborted(NoChain))
    case Some(h) =>
      if !LeafChain(h) then (s, Aborted(NoChain))
      else
        var temp := ConsolidatedLeaf(h, None).value;
        if |temp.records| == 0 then (s, Aborted(EmptyPage))
        else
          var kp := MedianKey(temp);
          var right := RightPage(h, kp, pid);
          var a := Allocated(s, right);
          if a.1.None? then (a.0, Aborted(TableFull))
          // The three-argument CreateDeltaSplit call sets no removedElements; the
          // model stores the right page's record count there, which nothing reads.
          else SplitPublished(a.0, pid, h, DeltaSplit(h, kp, a.1.value, |right.records|, true), a.1.value)
  }

  /** The compare-and-swap of a split: on failure the right page's slot is cleared again. */
  function SplitPublished(s: TreeState, pid: PID, observed: Node, split: Node, rightPid: PID): (TreeState, Status)
    requires pid < |s.table| && rightPid < |s.table|
  {
    if s.table[pid] == Some(observed) then (s.(table := s.table[pid := Some(split)]), Done)
    else (s.(table := s.table[rightPid := None]), Collided)
  }

  /** consolidateLeafPage: replace the page by its consolidation and keep the old head for deletion. */
  function Consolidated(s: TreeState, stack: seq<PID>): (TreeState, Status)
    requires |stack| > 0 && Top(stack) < |s.table|
  {
    var pid := Top(stack);
    match s.table[pid]
    case None => (s, Aborted(NoChain))
    case Some(h) =>
      if !LeafChain(h) then (s, Aborted(NoChain))
      else ConsolidationPublished(s, pid, h, ConsolidatedLeaf(h, None).value)
  }

  /** The compare-and-swap of a consolidation; on success the replaced head is marked for deletion. */
  function ConsolidationPublished(s: TreeState, pid: PID, observed: Node, c: Node): (TreeState, Status)
    requires pid < |s.table|
  {
    if s.table[pid] != Some(observed) then (s, Collided)
    else Marked(s.(table := s.table[pid := Some(c)]), observed)
  }

  /** markForDeletion: append to the fixed-size array, which must not be full. */
  function Marked(s: TreeState, n: Node): (TreeState, Status)
  {
    if |s.deleted| >= DeletedCapacity then (s, Aborted(DeletedNodesFull))
    else (s.(deleted := s.deleted + [n]), Done)
  }

  // ---------------------------------------------------------------------------
  // Facts about located pages

  /**
   * What findDataPage locates on a good tree: a filled slot holding a
   * well-formed leaf chain that settles the key with the reported payload,
   * named last on the stack of visited pages, and reached by a route that
   * needs no more hops than the table has slots.
   */
  lemma FindLocated(s: TreeState, st: Settings, key: Key)
    requires Good(s)
    ensures var o := Find(s, st, key);
      o.Located? ==>
        var res := o.res;
        res.pid < MappingSize && s.table[res.pid] == Some(res.startNode) &&
        WellFormedLeafChain(res.startNode) && Lookup(res.startNode, key).Terminal() &&
        FoundValue(Lookup(res.startNode, key)) == res.data &&
        |res.parentNodes| > 0 && Top(res.parentNodes) == res.pid &&
        Route(s.table, key, s.root, MappingSize) == Reached(res.pid, res.startNode, res.data)
  {
    var o := Find(s, st, key);
    VisitAnswer(s.table, st, key, s.root, [], [], [], MaxHops);
    VisitRecords(s.table, st, key, s.root, [], [], [], MaxHops);
    if o.Located? {
      RouteWithinTable(s.table, key, s.root, MaxHops);
      assert PageOK(s.table[o.res.pid]);
    }
  }

  /** A page a route settles on holds a well-formed leaf chain. */
  lemma SettledPage(s: TreeState, key: Key, fuel: nat)
    requires Good(s) && Route(s.table, key, s.root, fuel).Reached?
    ensures WellFormedLeafChain(Route(s.table, key, s.root, fuel).head)
  {
    assert PageOK(s.table[Route(s.table, key, s.root, fuel).pid]);
  }

  // ---------------------------------------------------------------------------
  // The invariant is kept

  lemma AllocatedGood(s: TreeState, n: Node)
    requires Good(s) && PageOK(Some(n))
    ensures var a := Allocated(s, n);
      Good(a.0) && a.0.root == s.root && a.0.deleted == s.deleted &&
      (a.1.None? <==> s.mappingNext == MappingSize) &&
      (a.1.Some? ==>
        a.1.value == s.mappingNext && s.table[a.1.value].None? &&
        a.0.mappingNext == s.mappingNext + 1 && a.0.table == s.table[a.1.value := Some(n)])
  {
  }

  /** Publishing an insert over a head that settles the key keeps the invariant. */
  lemma InsertedIntoGood(s: TreeState, res: FindDataPageResult, key: Key, value: Data)
    requires Good(s) && res.pid < MappingSize && Lookup(res.startNode, key).Terminal()
    ensures Good(InsertedInto(s, res, key, value).0) && InsertedInto(s, res, key, value).0.root == s.root
  {
    if InsertedInto(s, res, key, value).1.Done? {
      var h := res.startNode;
      assert PageOK(s.table[res.pid]);
      TerminalBelowSplits(h, key);
      assert WellFormedLeafChain(DeltaInsert(h, Entry(key, value), false));
    }
  }

  /** Publishing a delete over a head that settles the key keeps the invariant. */
  lemma DeletedFromGood(s: TreeState, res: FindDataPageResult, key: Key)
    requires Good(s) && res.pid < MappingSize && Lookup(res.startNode, key).Terminal()
    ensures Good(DeletedFrom(s, res, key).0) && DeletedFrom(s, res, key).0.root == s.root
  {
    if DeletedFrom(s, res, key).1.Done? && res.data.Some? {
      var h := res.startNode;
      assert PageOK(s.table[res.pid]);
      TerminalBelowSplits(h, key);
      assert WellFormedLeafChain(DeltaDelete(h, key));
    }
  }

  lemma SplitGood(s: TreeState, stack: seq<PID>)
    requires Good(s) && |stack| > 0 && Top(stack) < MappingSize
    ensures Good(Split(s, stack).0) && Split(s, stack).0.root == s.root
  {
    var pid := Top(stack);
    if s.table[pid].Some? && LeafChain(s.table[pid].value) {
      var h := s.table[pid].value;
      assert PageOK(s.table[pid]);
      var temp := ConsolidatedLeaf(h, None).value;
      if |temp.records| > 0 {
        var kp := MedianKey(temp);
        var right := RightPage(h, kp, pid);
        SplitPreservesLookup(h, s.mappingNext, |right.records|, pid);
        AllocatedGood(s, right);
      }
    }
  }

  lemma ConsolidatedGood(s: TreeState, stack: seq<PID>)
    requires Good(s) && |stack| > 0 && Top(stack) < MappingSize
    ensures Good(Consolidated(s, stack).0) && Consolidated(s, stack).0.root == s.root
  {
    var pid := Top(stack);
    if s.table[pid].Some? && LeafChain(s.table[pid].value) {
      var h := s.table[pid].value;
      assert PageOK(s.table[pid]);
      ConsolidationPreservesLookup(h);
    }
  }

  lemma MaintainedGood(s: TreeState, res: FindDataPageResult)
    requires Good(s) && |res.parentNodes| > 0 && Top(res.parentNodes) < MappingSize
    ensures Good(Maintained(s, res).0) && Maintained(s, res).0.root == s.root
  {
    SplitGood(s, res.parentNodes);
    ConsolidatedGood(s, res.parentNodes);
  }

  /** insert keeps the invariant, and never loses its race when run alone: no retry is needed. */
  lemma InsertedGood(s: TreeState, st: Settings, key: Key, value: Data)
    requires Good(s)
    ensures Good(Inserted(s, st, key, value).0) && Inserted(s, st, key, value).0.root == s.root
    ensures Inserted(s, st, key, value).1 != Collided
  {
    FindLocated(s, st, key);
    var o := Find(s, st, key);
    if o.Located? {
      var h := o.res.startNode;
      TerminalBelowSplits(h, key);
      var r := InsertedInto(s, o.res, key, value);
      assert WellFormedLeafChain(DeltaInsert(h, Entry(key, value), false));
      MaintainedGood(r.0, o.res);
    }
  }

  /** deleteKey keeps the invariant and never loses its race when run alone. */
  lemma DeletedGood(s: TreeState, st: Settings, key: Key)
    requires Good(s)
    ensures Good(Deleted(s, st, key).0) && Deleted(s, st, key).0.root == s.root
    ensures Deleted(s, st, key).1 == Done || Find(s, st, key).Lost?
  {
    FindLocated(s, st, key);
    var o := Find(s, st, key);
    if o.Located? {
      var h := o.res.startNode;
      TerminalBelowSplits(h, key);
      assert WellFormedLeafChain(DeltaDelete(h, key));
    }
  }

  lemma SearchedGood(s: TreeState, st: Settings, key: Key)
    requires Good(s)
    ensures Good(Searched(s, st, key).0) && Searched(s, st, key).0.root == s.root
  {
    FindLocated(s, st, key);
    var o := Find(s, st, key);
    if o.Located? {
      MaintainedGood(s, o.res);
    }
  }

  // ---------------------------------------------------------------------------
  // Maintenance keeps the keys of the page it works on

  /**
   * A split of a page holding a well-formed chain with records: the right
   * page takes the next PID, and the page's slot gets a split record for the
   * median key over the old head; only a full table stops it.
   */
  lemma SplitEffect(s: TreeState, stack: seq<PID>)
    requires Good(s) && |stack| > 0 && Top(stack) < MappingSize
    requires s.table[Top(stack)].Some? && WellFormedLeafChain(s.table[Top(stack)].value)
    requires |ConsolidatedLeaf(s.table[Top(stack)].value, None).value.records| > 0
    ensures var p := Top(stack);
      var h := s.table[p].value;
      var kp := MedianKey(ConsolidatedLeaf(h, None).value);
      var right := RightPage(h, kp, p);
      var q := s.mappingNext;
      var r := Split(s, stack);
      if q == MappingSize then r == (s, Aborted(TableFull))
      else
        r.1.Done? && q != p && s.table[q].None? && r.0.mappingNext == q + 1 &&
        r.0.table == s.table[q := Some(right)][p := Some(DeltaSplit(h, kp, q, |right.records|, true))]
  {
    var p := Top(stack);
    var h := s.table[p].value;
    var kp := MedianKey(ConsolidatedLeaf(h, None).value);
    var right := RightPage(h, kp, p);
    SplitPreservesLookup(h, s.mappingNext, |right.records|, p);
    AllocatedGood(s, right);
  }

  /**
   * On tables: once page `p`, where a found key is settled, holds a split
   * record over its old chain and the right page fills an empty slot `q`,
   * the key is still found with its payload, at most one hop further.
   */
  lemma SplitRouteKeepsFound(m: Mapping, p: PID, q: PID, h: Node, right: Node, left: Node, key: Key, root: PID,
                             v: Data, fuel: nat)
    requires q != NotExistantPID && q < |m| && m[q].None? && q != p
    requires Route(m, key, root, fuel) == Reached(p, h, Some(v))
    requires Lookup(left, key) == Lookup(h, key) ||
      (Lookup(left, key) == GoTo(q) && FoundValue(Lookup(right, key)) == FoundValue(Lookup(h, key)))
    ensures var m' := m[q := Some(right)][p := Some(left)];
      Route(m', key, root, fuel + 1).Reached? && Route(m', key, root, fuel + 1).data == Some(v)
  {
    var m' := m[q := Some(right)][p := Some(left)];
    assert SameElsewhere(m, m', p);
    assert m'[p] == Some(left);
    if Lookup(left, key) == Lookup(h, key) {
      RouteToReplaced(m, m', p, key, root, fuel);
      RouteMoreFuel(m', key, root, fuel, 1);
    } else {
      assert m'[q] == Some(right);
      assert Lookup(right, key).Found?;
      RouteThroughRedirect(m, m', p, q, key, root, fuel);
    }
  }

  /**
   * Splitting the page a found key was routed to keeps the key found with
   * its payload, at most one hop further (on the new right page); the split
   * only aborts when the table is full.
   */
  lemma SplitKeepsFound(s: TreeState, stack: seq<PID>, key: Key, v: Data)
    requires Good(s) && |stack| > 0
    requires var r := Route(s.table, key, s.root, MappingSize);
      r.Reached? && r.pid == Top(stack) && r.data == Some(v)
    ensures var r := Split(s, stack);
      (r.1.Done? || r.1 == Aborted(TableFull)) &&
      Route(r.0.table, key, s.root, MaxHops).Reached? && Route(r.0.table, key, s.root, MaxHops).data == Some(v)
  {
    if s.mappingNext == MappingSize {
      SplitWhenFullKeepsFound(s, stack, key, v);
    } else {
      SplitWithRoomKeepsFound(s, stack, key, v);
    }
  }

  /** SplitKeepsFound when the table is full: the split aborts and nothing changes. */
  lemma SplitWhenFullKeepsFound(s: TreeState, stack: seq<PID>, key: Key, v: Data)
    requires Good(s) && |stack| > 0 && s.mappingNext == MappingSize
    requires var r := Route(s.table, key, s.root, MappingSize);
      r.Reached? && r.pid == Top(stack) && r.data == Some(v)
    ensures Split(s, stack) == (s, Aborted(TableFull))
    ensures Route(s.table, key, s.root, MaxHops).Reached? && Route(s.table, key, s.root, MaxHops).data == Some(v)
  {
    var h := s.table[Top(stack)].value;
    SettledPage(s, key, MappingSize);
    LookupMatchesVisible(h, key);
    ConsolidatedLeafCorrect(h, None);
    FirstValueFound(ConsolidatedLeaf(h, None).value.records, key);
    SplitEffect(s, stack);
    RouteMoreFuel(s.table, key, s.root, MappingSize, 1);
  }

  /** SplitKeepsFound when the table has room for the right page. */
  lemma SplitWithRoomKeepsFound(s: TreeState, stack: seq<PID>, key: Key, v: Data)
    requires Good(s) && |stack| > 0 && s.mappingNext < MappingSize
    requires var r := Route(s.table, key, s.root, MappingSize);
      r.Reached? && r.pid == Top(stack) && r.data == Some(v)
    ensures var r := Split(s, stack);
      r.1.Done? &&
      Route(r.0.table, key, s.root, MaxHops).Reached? && Route(r.0.table, key, s.root, MaxHops).data == Some(v)
  {
    var p := Top(stack);
    var h := s.table[p].value;
    SettledPage(s, key, MappingSize);
    LookupMatchesVisible(h, key);
    ConsolidatedLeafCorrect(h, None);
    var temp := ConsolidatedLeaf(h, None).value;
    FirstValueFound(temp.records, key);
    SplitEffect(s, stack);
    var kp := MedianKey(temp);
    var right := RightPage(h, kp, p);
    var q := s.mappingNext;
    var left := DeltaSplit(h, kp, q, |right.records|, true);
    SplitPreservesLookup(h, q, |right.records|, p);
    SplitRouteKeepsFound(s.table, p, q, h, right, left, key, s.root, v, MappingSize);
  }

  /** Consolidating the page a found key was routed to keeps the key found with its payload. */
  lemma ConsolidatedKeepsFound(s: TreeState, stack: seq<PID>, key: Key, v: Data)
    requires Good(s) && |stack| > 0
    requires var r := Route(s.table, key, s.root, MappingSize);
      r.Reached? && r.pid == Top(stack) && r.data == Some(v)
    ensures var r := Consolidated(s, stack);
      (r.1.Done? || r.1 == Aborted(DeletedNodesFull)) &&
      Route(r.0.table, key, s.root, MaxHops).Reached? && Route(r.0.table, key, s.root, MaxHops).data == Some(v)
  {
    var p := Top(stack);
    var h := s.table[p].value;
    SettledPage(s, key, MappingSize);
    ConsolidationPreservesLookup(h);
    var c := ConsolidatedLeaf(h, None).value;
    var m' := s.table[p := Some(c)];
    assert Consolidated(s, stack).0.table == m';
    RouteToReplaced(s.table, m', p, key, s.root, MappingSize);
    RouteMoreFuel(m', key, s.root, MappingSize, 1);
  }

  /** The maintenance after a traversal that found a key keeps it found, and aborts only on a full array. */
  lemma MaintainedKeepsFound(s: TreeState, res: FindDataPageResult, key: Key, v: Data)
    requires Good(s) && |res.parentNodes| > 0
    requires var r := Route(s.table, key, s.root, MappingSize);
      r.Reached? && r.pid == Top(res.parentNodes) && r.data == Some(v)
    ensures var r := Maintained(s, res);
      (r.1.Done? || r.1 == Aborted(TableFull) || r.1 == Aborted(DeletedNodesFull)) &&
      Route(r.0.table, key, s.root, MaxHops).Reached? && Route(r.0.table, key, s.root, MaxHops).data == Some(v)
  {
    if |res.needSplitPage| > 0 {
      SplitKeepsFound(s, res.parentNodes, key, v);
    } else if |res.needConsolidatePage| > 0 {
      ConsolidatedKeepsFound(s, res.parentNodes, key, v);
    } else {
      RouteMoreFuel(s.table, key, s.root, MappingSize, 1);
    }
  }

  // ---------------------------------------------------------------------------
  // Maintenance leaves the other pages alone

  /**
   * Maintenance rewrites only the page on top of the stack, besides filling
   * the empty slot of a new right page (cleared again if its race is lost).
   */
  lemma MaintainedTouchesTop(s: TreeState, res: FindDataPageResult)
    requires Good(s) && |res.parentNodes| > 0 && Top(res.parentNodes) < MappingSize
    ensures SameElsewhere(s.table, Maintained(s, res).0.table, Top(res.parentNodes))
  {
    var p := Top(res.parentNodes);
    var m' := Maintained(s, res).0.table;
    if |res.needSplitPage| > 0 && s.table[p].Some? && LeafChain(s.table[p].value) {
      var h := s.table[p].value;
      var temp := ConsolidatedLeaf(h, None).value;
      if |temp.records| > 0 && s.mappingNext < MappingSize {
        var q := s.mappingNext;
        var right := RightPage(h, MedianKey(temp), p);
        assert Allocated(s, right).0.table == s.table[q := Some(right)];
        forall i | 0 <= i < MappingSize && i != p && s.table[i].Some? ensures m'[i] == s.table[i] {
          assert i != q;
        }
      }
    }
  }

  /**
   * A key whose route from the root never passes the maintained page is
   * routed exactly as before: same page, same chain, same answer.
   */
  lemma MaintainedKeepsOtherPages(s: TreeState, res: FindDataPageResult, k: Key)
    requires Good(s) && |res.parentNodes| > 0 && Top(res.parentNodes) < MappingSize
    requires Route(s.table, k, s.root, MaxHops).Reached?
    requires Avoids(s.table, k, s.root, MaxHops, Top(res.parentNodes))
    ensures Route(Maintained(s, res).0.table, k, s.root, MaxHops) == Route(s.table, k, s.root, MaxHops)
  {
    MaintainedTouchesTop(s, res);
    RouteUnaffected(s.table, Maintained(s, res).0.table, Top(res.parentNodes), k, s.root, MaxHops);
  }

  /**
   * insert, its maintenance included, leaves the route of every key that
   * does not pass the page it wrote to exactly as it was.
   */
  lemma InsertedKeepsOtherPages(s: TreeState, st: Settings, key: Key, value: Data, k: Key)
    requires Good(s) && Find(s, st, key).Located?
    requires Route(s.table, k, s.root, MaxHops).Reached?
    requires Avoids(s.table, k, s.root, MaxHops, Find(s, st, key).res.pid)
    ensures Route(Inserted(s, st, key, value).0.table, k, s.root, MaxHops) == Route(s.table, k, s.root, MaxHops)
  {
    FindLocated(s, st, key);
    var res := Find(s, st, key).res;
    var r := InsertedInto(s, res, key, value);
    assert SameElsewhere(s.table, r.0.table, res.pid);
    RouteUnaffected(s.table, r.0.table, res.pid, k, s.root, MaxHops);
    if r.1.Done? {
      InsertedIntoGood(s, res, key, value);
      MaintainedKeepsOtherPages(r.0, res, k);
    }
  }

  /**
   * search, its maintenance included, leaves the route of every key that
   * does not pass the page it located exactly as it was.
   */
  lemma SearchedKeepsOtherPages(s: TreeState, st: Settings, key: Key, k: Key)
    requires Good(s) && Find(s, st, key).Located?
    requires Route(s.table, k, s.root, MaxHops).Reached?
    requires Avoids(s.table, k, s.root, MaxHops, Find(s, st, key).res.pid)
    ensures Route(Searched(s, st, key).0.table, k, s.root, MaxHops) == Route(s.table, k, s.root, MaxHops)
  {
    FindLocated(s, st, key);
    MaintainedKeepsOtherPages(s, Find(s, st, key).res, k);
  }

  /** The maintenance after a traversal aborts only for lack of room or of records to split. */
  lemma MaintainedFaults(s: TreeState, st: Settings, key: Key)
    requires Good(s) && Find(s, st, key).Located?
    ensures var res := Find(s, st, key).res;
      |res.parentNodes| > 0 && Top(res.parentNodes) < |s.table| &&
      var r := Maintained(s, res);
      r.1.Aborted? ==> ResourceFault(r.1.fault)
  {
    FindLocated(s, st, key);
    var res := Find(s, st, key).res;
    var h := res.startNode;
    ConsolidatedLeafCorrect(h, None);
  }

  // ---------------------------------------------------------------------------
  // What search reports

  /** search answers what the route from the root finds, unless the traversal or the maintenance aborts. */
  lemma SearchedReadsRoute(s: TreeState, st: Settings, key: Key)
    requires Good(s)
    ensures var r := Searched(s, st, key).1;
      var route := Route(s.table, key, s.root, MaxHops);
      (r.Ok? ==> route.Reached? && r.data == route.data) &&
      (route.Stranded? ==> r == Abort(route.fault)) &&
      (route.Reached? && r.Abort? ==> ResourceFault(r.fault))
  {
    VisitAnswer(s.table, st, key, s.root, [], [], [], MaxHops);
    if Find(s, st, key).Located? {
      MaintainedFaults(s, st, key);
    }
  }

  /** Searching a present key reports its payload, and a second search reports it again. */
  lemma SearchFindsPresent(s: TreeState, st: Settings, key: Key, v: Data)
    requires Good(s)
    requires Route(s.table, key, s.root, MaxHops).Reached? && Route(s.table, key, s.root, MaxHops).data == Some(v)
    ensures var r := Searched(s, st, key);
      (r.1 == Ok(Some(v)) || r.1 == Abort(TableFull) || r.1 == Abort(DeletedNodesFull)) &&
      Route(r.0.table, key, s.root, MaxHops).Reached? && Route(r.0.table, key, s.root, MaxHops).data == Some(v)
  {
    VisitAnswer(s.table, st, key, s.root, [], [], [], MaxHops);
    FindLocated(s, st, key);
    var res := Find(s, st, key).res;
    MaintainedKeepsFound(s, res, key, v);
  }

  // ---------------------------------------------------------------------------
  // Insert, then search; delete, then search

  /** Publishing the insert on the located page makes the route from the root find the new payload there. */
  lemma InsertPublishes(s: TreeState, st: Settings, key: Key, value: Data)
    requires Good(s) && Find(s, st, key).Located?
    ensures var res := Find(s, st, key).res;
      res.pid < |s.table| &&
      var r := InsertedInto(s, res, key, value);
      r.1.Done? && Good(r.0) && r.0.root == s.root && |res.parentNodes| > 0 &&
      Route(r.0.table, key, s.root, MappingSize) == Reached(res.pid, r.0.table[res.pid].value, Some(value)) &&
      Top(res.parentNodes) == res.pid
  {
    FindLocated(s, st, key);
    var res := Find(s, st, key).res;
    var p := res.pid;
    var h := res.startNode;
    var ins := DeltaInsert(h, Entry(key, value), false);
    var s1 := s.(table := s.table[p := Some(ins)]);
    assert InsertedInto(s, res, key, value) == (s1, Done);
    TerminalBelowSplits(h, key);
    assert WellFormedLeafChain(ins);
    RouteToReplaced(s.table, s1.table, p, key, s.root, MappingSize);
  }

  /**
   * After inserting `key` with `value`, the route from the root finds
   * `value` for `key`, and search reports it unless its maintenance finds an
   * array full. (A traversal that is lost leaves the tree unchanged.)
   */
  lemma InsertThenSearch(s: TreeState, st: Settings, key: Key, value: Data)
    requires Good(s) && Find(s, st, key).Located?
    ensures var s' := Inserted(s, st, key, value).0;
      Good(s') &&
      Route(s'.table, key, s'.root, MaxHops).Reached? && Route(s'.table, key, s'.root, MaxHops).data == Some(value) &&
      var r := Searched(s', st, key).1;
      r == Ok(Some(value)) || r == Abort(TableFull) || r == Abort(DeletedNodesFull)
  {
    InsertedGood(s, st, key, value);
    InsertPublishes(s, st, key, value);
    var res := Find(s, st, key).res;
    var r := InsertedInto(s, res, key, value);
    MaintainedKeepsFound(r.0, res, key, value);
    var s' := Inserted(s, st, key, value).0;
    assert s' == Maintained(r.0, res).0;
    SearchFindsPresent(s', st, key, value);
  }

  /** Insert changes the answer for no other key; only its maintenance may reshape the page. */
  lemma InsertedIntoKeepsOtherKeys(s: TreeState, res: FindDataPageResult, key: Key, value: Data, k: Key, pid: PID,
                                   fuel: nat)
    requires res.pid < |s.table| && k != key
    ensures SameVerdict(Route(InsertedInto(s, res, key, value).0.table, k, pid, fuel), Route(s.table, k, pid, fuel))
  {
    var r := InsertedInto(s, res, key, value);
    if r.1.Done? {
      RouteSameAnswer(s.table, res.pid, DeltaInsert(res.startNode, Entry(key, value), false), k, pid, fuel);
    }
  }

  /** After deleting `key` the route from the root settles it as absent, and search does not report it. */
  lemma DeleteThenSearch(s: TreeState, st: Settings, key: Key)
    requires Good(s) && Find(s, st, key).Located?
    ensures var s' := Deleted(s, st, key).0;
      Good(s') &&
      Route(s'.table, key, s'.root, MaxHops).Reached? && Route(s'.table, key, s'.root, MaxHops).data == None &&
      var r := Searched(s', st, key).1;
      r == Ok(None) || (r.Abort? && ResourceFault(r.fault))
  {
    FindLocated(s, st, key);
    DeletedGood(s, st, key);
    var res := Find(s, st, key).res;
    var p := res.pid;
    var h := res.startNode;
    var s' := Deleted(s, st, key).0;
    if res.data.None? {
      RouteMoreFuel(s.table, key, s.root, MappingSize, 1);
    } else {
      var del := DeltaDelete(h, key);
      assert s'.table == s.table[p := Some(del)];
      RouteToReplaced(s.table, s'.table, p, key, s.root, MappingSize);
      RouteMoreFuel(s'.table, key, s.root, MappingSize, 1);
    }
    SearchedReadsRoute(s', st, key);
  }

  /** Delete changes the answer for no other key. */
  lemma DeletedFromKeepsOtherKeys(s: TreeState, res: FindDataPageResult, key: Key, k: Key, pid: PID, fuel: nat)
    requires res.pid < |s.table| && k != key
    ensures SameVerdict(Route(DeletedFrom(s, res, key).0.table, k, pid, fuel), Route(s.table, k, pid, fuel))
  {
    var r := DeletedFrom(s, res, key);
    if r.1.Done? && res.data.Some? {
      RouteSameAnswer(s.table, res.pid, DeltaDelete(res.startNode, key), k, pid, fuel);
    }
  }

  /** Deleting an absent key changes nothing. */
  lemma DeleteAbsentKeyIsNoOp(s: TreeState, st: Settings, key: Key)
    requires Good(s) && Route(s.table, key, s.root, MaxHops).Reached? && Route(s.table, key, s.root, MaxHops).data == None
    ensures Deleted(s, st, key) == (s, Done)
  {
    VisitAnswer(s.table, st, key, s.root, [], [], [], MaxHops);
  }

  // ---------------------------------------------------------------------------
  // The compare-and-swap failure paths

  /** A split that loses its race leaves the table as it was before the right page was published. */
  lemma SplitCollisionRestoresTable(s: TreeState, n: Node, pid: PID, observed: Node, split: Node)
    requires Good(s) && pid < s.mappingNext && s.table[pid] != Some(observed)
    requires Allocated(s, n).1.Some?
    ensures var a := Allocated(s, n);
      var r := SplitPublished(a.0, pid, observed, split, a.1.value);
      r.1 == Collided && r.0.table == s.table && r.0.mappingNext == s.mappingNext + 1
  {
    var q := s.mappingNext;
    assert s.table[q := Some(n)][q := None] == s.table;
  }

  /** A consolidation that loses its race changes nothing; one that wins keeps the replaced head for deletion. */
  lemma ConsolidationPublishedEffect(s: TreeState, pid: PID, observed: Node, c: Node)
    requires pid < |s.table|
    ensures var r := ConsolidationPublished(s, pid, observed, c);
      (s.table[pid] != Some(observed) ==> r == (s, Collided)) &&
      (s.table[pid] == Some(observed) ==>
        r.0.table == s.table[pid := Some(c)] &&
        (|s.deleted| < DeletedCapacity ==> r.1.Done? && r.0.deleted == s.deleted + [observed]) &&
        (|s.deleted| >= DeletedCapacity ==> r.1 == Aborted(DeletedNodesFull) && r.0.deleted == s.deleted))
  {
  }

  // ---------------------------------------------------------------------------
  // The initial tree

  lemma InitialGood()
    ensures Good(InitialState())
  {
  }

  /** Initially every key is routed from the root to the empty leaf, where it is absent. */
  lemma InitialRoutes(key: Key)
    ensures Route(InitialState().table, key, InitialState().root, MaxHops) == Reached(0, EmptyLeaf, None)
  {
    var m := InitialState().table;
    assert LowerBound(RootPage.nodes, key) == 0;
    assert Lookup(RootPage, key) == GoTo(0);
    assert Lookup(EmptyLeaf, key) == NotFound;
    assert Route(m, key, 0, MaxHops - 1) == Reached(0, EmptyLeaf, None);
  }

  // ---------------------------------------------------------------------------
  // deleteKey on a page whose head is a split record

  /**
   * As written, deleteKey aborts on a present key whose page head is a split
   * record, which is the head of every page split and not yet consolidated;
   * with the split record accepted, the delete is published.
   */
  lemma DeleteOnSplitPageAborts(d: Data)
    ensures var base := Leaf(NotExistantPID, NotExistantPID, [Entry(1, d)]);
      var head := DeltaSplit(base, 1, 1, 0, true);
      var s := TreeState(0, [Some(head), Some(EmptyLeaf)], 2, []);
      var res := FindDataPageResult(0, head, Some(d), [], [], [0]);
      Lookup(head, 1) == Found(d) &&
      DeletedFromAsWritten(s, res, 1) == (s, Aborted(NotLeafPage)) &&
      DeletedFrom(s, res, 1) == (s.(table := s.table[0 := Some(DeltaDelete(head, 1))]), Done)
  {
    var base := Leaf(NotExistantPID, NotExistantPID, [Entry(1, d)]);
    assert LowerBound(base.records, 1) == 0;
  }
}
