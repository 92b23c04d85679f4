/**
 * What one page means (bwtree.cpp): the lower-bound search used on every
 * base page, how a single chain resolves a key newest-first (the inner loop
 * of findDataPage), and what consolidation (createConsolidatedLeafPage)
 * keeps of a leaf chain.
 *
 * The reference semantics of a leaf chain is `Visible`: per key, the newest
 * insert, delete or base record for it, with keys above the first split key
 * moved away. Consolidation, search and split are all proved against it.
 */
module Pages {
  import opened Keys
  import opened Nodes

  // ---------------------------------------------------------------------------
  // Lower-bound binary search

  /** The result of the binarySearch loop started from `first` with `count` entries left. */
  function LowerBoundFrom<V>(s: seq<Entry<V>>, first: nat, count: nat, key: Key): (r: nat)
    requires first + count <= |s|
    ensures first <= r <= first + count
    decreases count
  {
    if count == 0 then first
    else
      var step := count / 2;
      if s[first + step].key < key then LowerBoundFrom(s, first + step + 1, count - step - 1, key)
      else LowerBoundFrom(s, first, step, key)
  }

  function LowerBound<V>(s: seq<Entry<V>>, key: Key): (r: nat)
    ensures r <= |s|
  {
    LowerBoundFrom(s, 0, |s|, key)
  }

  lemma {:induction false} LowerBoundFromPartitions<V>(s: seq<Entry<V>>, first: nat, count: nat, key: Key)
    requires first + count <= |s|
    requires SortedByKey(s)
    requires forall i :: 0 <= i < first ==> s[i].key < key
    requires forall i :: first + count <= i < |s| ==> s[i].key >= key
    ensures forall i :: 0 <= i < LowerBoundFrom(s, first, count, key) ==> s[i].key < key
    ensures forall i :: LowerBoundFrom(s, first, count, key) <= i < |s| ==> s[i].key >= key
    decreases count
  {
    if count > 0 {
      var step := count / 2;
      if s[first + step].key < key {
        LowerBoundFromPartitions(s, first + step + 1, count - step - 1, key);
      } else {
        LowerBoundFromPartitions(s, first, step, key);
      }
    }
  }

  /** On a key-sorted array the result is the lower bound: smaller keys before it, the rest from it on. */
  lemma LowerBoundPartitions<V>(s: seq<Entry<V>>, key: Key)
    requires SortedByKey(s)
    ensures forall i :: 0 <= i < LowerBound(s, key) ==> s[i].key < key
    ensures forall i :: LowerBound(s, key) <= i < |s| ==> s[i].key >= key
  {
    LowerBoundFromPartitions(s, 0, |s|, key);
  }

  /** On a key-sorted array, probing the lower bound finds exactly the leftmost entry for the key. */
  lemma LowerBoundFinds<V>(s: seq<Entry<V>>, key: Key)
    requires SortedByKey(s)
    ensures FirstValue(s, key) ==
      var r := LowerBound(s, key);
      if r < |s| && s[r].key == key then Some(s[r].value) else None
  {
    var r := LowerBound(s, key);
    LowerBoundPartitions(s, key);
    FirstValueSkip(s, key, r);
    var t := s[r..];
    if r < |s| {
      assert t[0] == s[r];
      if s[r].key != key {
        forall i | 0 <= i < |t| ensures t[i].key != key {
          assert t[i] == s[r + i];
        }
        FirstValueNone(t, key);
      }
    }
  }

  /** binarySearch: std::lower_bound by key over the whole array. */
  method BinarySearch<V>(s: seq<Entry<V>>, key: Key) returns (first: nat)
    ensures first == LowerBound(s, key)
    ensures first <= |s|
    ensures SortedByKey(s) ==>
      (forall i :: 0 <= i < first ==> s[i].key < key) && (forall i :: first <= i < |s| ==> s[i].key >= key)
  {
    first := 0;
    var count: nat := |s|;
    while count > 0
      invariant first + count <= |s|
      invariant LowerBoundFrom(s, first, count, key) == LowerBound(s, key)
    {
      var i := first;
      var step := count / 2;
      i := i + step;
      if s[i].key < key {
        i := i + 1;
        first := i;
        count := count - (step + 1);
      } else {
        count := step;
      }
    }
    if SortedByKey(s) {
      LowerBoundPartitions(s, key);
    }
  }

  // ---------------------------------------------------------------------------
  // Resolving a key on one page

  /** Why an operation cannot complete; each is an assert(false), an exit or an undefined read in the source. */
  datatype Fault =
    | Unimplemented       // a DeltaIndex or inner split record is met
    | PastLastSeparator   // the lower bound on an inner page is its node count
    | NoPage              // the traversal is sent to NotExistantPID
    | OutsideTable        // the traversal is sent to a PID beyond the mapping table
    | Diverges            // the traversal does not settle within its hop bound
    | NotLeafPage         // insert or deleteKey meets a page head its type switch rejects
    | NoChain             // consolidation is asked for a slot that holds no leaf chain
    | EmptyPage           // the page to split consolidates to no record, so it has no median
    | TableFull           // newNode finds the mapping table full, and the process exits
    | DeletedNodesFull    // markForDeletion finds deletedNodes full

  /** What one node of a chain says about a key. */
  datatype Step =
    | Found(data: Data)
    | NotFound
    | GoTo(pid: PID)      // continue at another page
    | Origin              // this record says nothing: continue with the older part of the chain
    | Failed(fault: Fault)
  {
    predicate Terminal() {
      Found? || NotFound?
    }
  }

  function FoundValue(s: Step): Option<Data>
  {
    if s.Found? then Some(s.data) else None
  }

  /** One iteration of findDataPage's inner loop on node `n`. */
  function NodeStep(n: Node, key: Key): (s: Step)
    ensures s.Origin? ==> n.IsDelta()
  {
    match n
    case Inner(_, _, nodes) =>
      var r := LowerBound(nodes, key);
      if r < |nodes| then GoTo(nodes[r].value) else Failed(PastLastSeparator)
    case Leaf(_, next, records) =>
      var r := LowerBound(records, key);
      if r < |records| && records[r].key == key then Found(records[r].value)
      else if r == |records| && next != NotExistantPID then GoTo(next)
      else NotFound
    case DeltaInsert(_, record, _) =>
      if record.key == key then Found(record.value) else Origin
    case DeltaDelete(_, k) =>
      if k == key then NotFound else Origin
    case DeltaSplit(_, k, sidelink, _, leaf) =>
      if !leaf then Failed(Unimplemented)
      else if key > k then GoTo(sidelink)
      else Origin
    case DeltaIndex(_, _, _, _, _) =>
      Failed(Unimplemented)
  }

  /** How the chain headed by `n` resolves `key`: newest record first. */
  function Lookup(n: Node, key: Key): (s: Step)
    ensures !s.Origin?
  {
    var s := NodeStep(n, key);
    if s.Origin? then Lookup(n.origin, key) else s
  }

  // ---------------------------------------------------------------------------
  // Shapes of leaf chains

  /** The base page of a chain. */
  function Base(n: Node): (b: Node)
    ensures !b.IsDelta()
  {
    if n.IsDelta() then Base(n.origin) else n
  }

  /** A chain consolidation can replay: inserts, deletes and leaf splits over a leaf. */
  predicate LeafChain(n: Node)
  {
    match n
    case Leaf(_, _, _) => true
    case DeltaInsert(o, _, _) => LeafChain(o)
    case DeltaDelete(o, _) => LeafChain(o)
    case DeltaSplit(o, _, _, _, leaf) => leaf && LeafChain(o)
    case _ => false
  }

  lemma {:induction false} LeafChainBase(n: Node)
    requires LeafChain(n)
    ensures Base(n).Leaf?
  {
    if n.IsDelta() {
      LeafChainBase(n.origin);
    }
  }

  /** Every split record in the chain has a key of at least `b`. */
  predicate SplitKeysAtLeast(n: Node, b: Key)
  {
    match n
    case DeltaSplit(o, k, _, _, _) => b <= k && SplitKeysAtLeast(o, b)
    case DeltaInsert(o, _, _) => SplitKeysAtLeast(o, b)
    case DeltaDelete(o, _) => SplitKeysAtLeast(o, b)
    case DeltaIndex(o, _, _, _, _) => SplitKeysAtLeast(o, b)
    case _ => true
  }

  lemma {:induction false} SplitKeysAtLeastWeaken(n: Node, b: Key, c: Key)
    requires SplitKeysAtLeast(n, b) && c <= b
    ensures SplitKeysAtLeast(n, c)
  {
    if n.IsDelta() {
      SplitKeysAtLeastWeaken(n.origin, b, c);
    }
  }

  /**
   * Every delta record lies on the left of every older split: a record was
   * only ever added to a page for a key the page's splits had not moved away,
   * and a split key is at most the older split keys.
   */
  predicate Consistent(n: Node)
  {
    match n
    case DeltaInsert(o, r, _) => SplitKeysAtLeast(o, r.key) && Consistent(o)
    case DeltaDelete(o, k) => SplitKeysAtLeast(o, k) && Consistent(o)
    case DeltaSplit(o, k, _, _, _) => SplitKeysAtLeast(o, k) && Consistent(o)
    case DeltaIndex(o, _, _, _, _) => Consistent(o)
    case _ => true
  }

  predicate WellFormedLeafChain(n: Node)
  {
    LeafChain(n) && Base(n).Leaf? && SortedByKey(Base(n).records) && Consistent(n)
  }

  /** The right sibling after consolidation: the newest split's sidelink, else the base leaf's `next`. */
  function ChainNext(n: Node): PID
  {
    match n
    case DeltaSplit(_, _, sidelink, _, _) => sidelink
    case DeltaInsert(o, _, _) => ChainNext(o)
    case DeltaDelete(o, _) => ChainNext(o)
    case DeltaIndex(o, _, _, _, _) => ChainNext(o)
    case Leaf(_, next, _) => next
    case Inner(_, next, _) => next
  }

  // ---------------------------------------------------------------------------
  // Reference semantics of a leaf chain

  predicate BelowStop(k: Key, stop: Option<Key>)
  {
    stop.None? || k <= stop.value
  }

  predicate AboveLow(k: Key, lo: Option<Key>)
  {
    lo.None? || k > lo.value
  }

  /**
   * The payload the chain `n` holds for `k`: the newest insert, delete or base
   * record for `k` decides, and once a split has been passed (`stop`) keys
   * above the first split key belong to the right sibling.
   */
  function Visible(n: Node, k: Key, stop: Option<Key>): Option<Data>
  {
    match n
    case Leaf(_, _, records) => if BelowStop(k, stop) then FirstValue(records, k) else None
    case DeltaInsert(o, r, _) =>
      if r.key == k then (if BelowStop(k, stop) then Some(r.value) else None)
      else Visible(o, k, stop)
    case DeltaDelete(o, dk) => if dk == k then None else Visible(o, k, stop)
    case DeltaSplit(o, sk, _, _, _) => Visible(o, k, if stop.None? then Some(sk) else stop)
    case _ => None
  }

  /** The payload consolidation with lower filter `lo` keeps for `k`. */
  function Survivor(n: Node, lo: Option<Key>, k: Key): Option<Data>
  {
    if AboveLow(k, lo) then Visible(n, k, None) else None
  }

  lemma {:induction false} VisibleAboveStop(n: Node, k: Key, s: Key)
    requires k > s
    ensures Visible(n, k, Some(s)) == None
  {
    if n.IsDelta() {
      VisibleAboveStop(n.origin, k, s);
    }
  }

  /** A key a consistent chain still holds lies on the left of all its splits. */
  lemma {:induction false} VisibleBelowSplits(n: Node, k: Key)
    requires Consistent(n)
    requires Visible(n, k, None).Some?
    ensures SplitKeysAtLeast(n, k)
  {
    match n
    case DeltaInsert(o, r, _) =>
      if r.key != k {
        VisibleBelowSplits(o, k);
      }
    case DeltaDelete(o, dk) =>
      VisibleBelowSplits(o, k);
    case DeltaSplit(o, sk, _, _, _) =>
      if k > sk {
        VisibleAboveStop(o, k, sk);
      }
      SplitKeysAtLeastWeaken(o, sk, k);
    case _ =>
  }

  /**
   * A chain that settles a key has no split below that key on the way: a
   * delta for the key may be prepended without breaking consistency.
   */
  lemma {:induction false} TerminalBelowSplits(n: Node, k: Key)
    requires LeafChain(n) && Consistent(n) && Lookup(n, k).Terminal()
    ensures SplitKeysAtLeast(n, k)
  {
    if n.DeltaInsert? && n.record.key != k {
      TerminalBelowSplits(n.origin, k);
    } else if n.DeltaDelete? && n.key != k {
      TerminalBelowSplits(n.origin, k);
    } else if n.DeltaSplit? {
      TerminalBelowSplits(n.origin, k);
    }
  }

  lemma {:induction false} LookupBelowStop(n: Node, k: Key, s: Key)
    requires LeafChain(n) && Base(n).Leaf? && SortedByKey(Base(n).records)
    requires SplitKeysAtLeast(n, s) && k <= s
    ensures FoundValue(Lookup(n, k)) == Visible(n, k, Some(s))
  {
    match n
    case Leaf(_, _, records) =>
      LowerBoundFinds(records, k);
    case DeltaInsert(o, r, _) =>
      if r.key != k {
        LookupBelowStop(o, k, s);
      }
    case DeltaDelete(o, dk) =>
      if dk != k {
        LookupBelowStop(o, k, s);
      }
    case DeltaSplit(o, sk, _, _, _) =>
      LookupBelowStop(o, k, s);
  }

  /** Search on a well-formed leaf chain finds exactly what the chain holds. */
  lemma {:induction false} LookupMatchesVisible(n: Node, k: Key)
    requires WellFormedLeafChain(n)
    ensures FoundValue(Lookup(n, k)) == Visible(n, k, None)
  {
    match n
    case Leaf(_, _, records) =>
      LowerBoundFinds(records, k);
    case DeltaInsert(o, r, _) =>
      if r.key != k {
        LookupMatchesVisible(o, k);
      }
    case DeltaDelete(o, dk) =>
      if dk != k {
        LookupMatchesVisible(o, k);
      }
    case DeltaSplit(o, sk, _, _, _) =>
      if k > sk {
        VisibleAboveStop(o, k, sk);
      } else {
        LookupBelowStop(o, k, sk);
      }
  }

  // ---------------------------------------------------------------------------
  // Consolidation replay (createConsolidatedLeafPage)

  /**
   * The state of the consolidation loop: the records gathered so far, the
   * keys already decided (consideredKeys), the first split key met
   * (pageSplit/stopAtKey), and the links of the page being built.
   */
  datatype Gather = Gather(records: seq<KeyValue>, considered: set<Key>, stop: Option<Key>, prev: PID, next: PID)

  const EmptyGather := Gather([], {}, None, NotExistantPID, NotExistantPID)

  /** The filter applied to every insert and base record. */
  predicate Admits(g: Gather, k: Key, lo: Option<Key>)
  {
    AboveLow(k, lo) && BelowStop(k, g.stop) && k !in g.considered
  }

  function GatherRecord(g: Gather, r: KeyValue, lo: Option<Key>): Gather
  {
    if Admits(g, r.key, lo) then g.(records := g.records + [r], considered := g.considered + {r.key})
    else g
  }

  /** The record loop over a base leaf, in index order. */
  function GatherRecords(g: Gather, recs: seq<KeyValue>, lo: Option<Key>): Gather
    decreases |recs|
  {
    if recs == [] then g
    else GatherRecord(GatherRecords(g, recs[..|recs| - 1], lo), recs[|recs| - 1], lo)
  }

  /** The whole replay loop from node `n` on; None where the source asserts (not a leaf chain). */
  function GatherChain(n: Node, lo: Option<Key>, g: Gather): Option<Gather>
  {
    match n
    case Leaf(prev, next, recs) =>
      var h := GatherRecords(g, recs, lo);
      Some(h.(prev := prev, next := if g.stop.None? then next else g.next))
    case DeltaInsert(o, r, _) => GatherChain(o, lo, GatherRecord(g, r, lo))
    case DeltaDelete(o, k) => GatherChain(o, lo, g.(considered := g.considered + {k}))
    case DeltaSplit(o, k, sidelink, _, leaf) =>
      if !leaf then None
      else GatherChain(o, lo, if g.stop.None? then g.(stop := Some(k), next := sidelink) else g)
    case _ => None
  }

  /** The leaf createConsolidatedLeafPage builds: the gathered records sorted by key. */
  function ConsolidatedLeaf(n: Node, lo: Option<Key>): (r: Option<Node>)
    ensures r.Some? <==> LeafChain(n)
    ensures r.Some? ==> r.value.Leaf?
  {
    GatherChainDefined(n, lo, EmptyGather);
    match GatherChain(n, lo, EmptyGather)
    case None => None
    case Some(g) => Some(Leaf(g.prev, g.next, SortByKeySpec(g.records)))
  }

  /** Gathered records have distinct keys, all of them recorded as considered. */
  predicate GatherOK(g: Gather)
  {
    DistinctKeys(g.records) && forall i :: 0 <= i < |g.records| ==> g.records[i].key in g.considered
  }

  lemma GatherRecordOK(g: Gather, r: KeyValue, lo: Option<Key>)
    requires GatherOK(g)
    ensures GatherOK(GatherRecord(g, r, lo))
    ensures forall k ::
      FirstValue(GatherRecord(g, r, lo).records, k) ==
      (if Admits(g, r.key, lo) && k == r.key then Some(r.value) else FirstValue(g.records, k))
    ensures forall k ::
      k in GatherRecord(g, r, lo).considered <==> k in g.considered || (Admits(g, r.key, lo) && k == r.key)
  {
    if Admits(g, r.key, lo) {
      forall k ensures FirstValue(g.records + [r], k) == if k == r.key then Some(r.value) else FirstValue(g.records, k) {
        FirstValueAppend(g.records, r, k);
        FirstValueNone(g.records, r.key);
      }
    }
  }

  /** The record loop over a leaf keeps, for each key not yet decided, its first admitted record. */
  lemma {:induction false} GatherRecordsCorrect(g: Gather, recs: seq<KeyValue>, lo: Option<Key>)
    requires GatherOK(g)
    ensures var h := GatherRecords(g, recs, lo);
      GatherOK(h) && h.stop == g.stop && h.prev == g.prev && h.next == g.next
    ensures var h := GatherRecords(g, recs, lo);
      forall k :: k in h.considered <==>
        k in g.considered || (AboveLow(k, lo) && BelowStop(k, g.stop) && FirstValue(recs, k).Some?)
    ensures var h := GatherRecords(g, recs, lo);
      forall k :: FirstValue(h.records, k) ==
        if k in g.considered then FirstValue(g.records, k)
        else if AboveLow(k, lo) && BelowStop(k, g.stop) then FirstValue(recs, k)
        else None
    decreases |recs|
  {
    if recs != [] {
      var p := recs[..|recs| - 1];
      var x := recs[|recs| - 1];
      assert recs == p + [x];
      GatherRecordsCorrect(g, p, lo);
      var h := GatherRecords(g, p, lo);
      GatherRecordOK(h, x, lo);
      var res := GatherRecords(g, recs, lo);
      assert res == GatherRecord(h, x, lo);
      forall k
        ensures k in res.considered <==>
          k in g.considered || (AboveLow(k, lo) && BelowStop(k, g.stop) && FirstValue(recs, k).Some?)
        ensures FirstValue(res.records, k) ==
          if k in g.considered then FirstValue(g.records, k)
          else if AboveLow(k, lo) && BelowStop(k, g.stop) then FirstValue(recs, k)
          else None
      {
        FirstValueAppend(p, x, k);
      }
    } else {
      forall k | k !in g.considered ensures FirstValue(g.records, k) == None {
        FirstValueNone(g.records, k);
      }
    }
  }

  /**
   * The replay from node `n` with loop state `g` ends, for every key not yet
   * decided, with what `n` holds for it above the lower filter; the links
   * come from the base leaf and the newest split.
   */
  lemma {:induction false} GatherChainCorrect(n: Node, lo: Option<Key>, g: Gather)
    requires LeafChain(n) && GatherOK(g)
    ensures GatherChain(n, lo, g).Some?
    ensures var h := GatherChain(n, lo, g).value;
      GatherOK(h) && h.prev == Base(n).prev && h.next == (if g.stop.Some? then g.next else ChainNext(n))
    ensures var h := GatherChain(n, lo, g).value;
      forall k :: FirstValue(h.records, k) ==
        if k in g.considered then FirstValue(g.records, k)
        else if AboveLow(k, lo) then Visible(n, k, g.stop)
        else None
  {
    match n
    case Leaf(prev, next, recs) =>
      GatherRecordsCorrect(g, recs, lo);
    case DeltaInsert(o, r, _) =>
      var g1 := GatherRecord(g, r, lo);
      GatherRecordOK(g, r, lo);
      GatherChainCorrect(o, lo, g1);
      forall k | r.key == k && k !in g.considered && AboveLow(k, lo) && !BelowStop(k, g.stop)
        ensures Visible(o, k, g.stop) == None
      {
        VisibleAboveStop(o, k, g.stop.value);
      }
    case DeltaDelete(o, dk) =>
      var g1 := g.(considered := g.considered + {dk});
      GatherChainCorrect(o, lo, g1);
      FirstValueNone(g.records, dk);
    case DeltaSplit(o, sk, sidelink, _, _) =>
      var g1 := if g.stop.None? then g.(stop := Some(sk), next := sidelink) else g;
      GatherChainCorrect(o, lo, g1);
  }

  lemma {:induction false} GatherChainDefined(n: Node, lo: Option<Key>, g: Gather)
    ensures GatherChain(n, lo, g).Some? <==> LeafChain(n)
  {
    match n
    case DeltaInsert(o, r, _) => GatherChainDefined(o, lo, GatherRecord(g, r, lo));
    case DeltaDelete(o, k) => GatherChainDefined(o, lo, g.(considered := g.considered + {k}));
    case DeltaSplit(o, k, sidelink, _, _) =>
      GatherChainDefined(o, lo, if g.stop.None? then g.(stop := Some(k), next := sidelink) else g);
    case _ =>
  }

  /**
   * Consolidation is defined exactly on leaf chains; it yields one record per
   * surviving key, strictly sorted, each with the newest payload for its key,
   * `prev` from the base leaf and `next` from the newest split or the base.
   */
  lemma ConsolidatedLeafCorrect(n: Node, lo: Option<Key>)
    ensures LeafChain(n) ==>
      var c := ConsolidatedLeaf(n, lo).value;
      c.Leaf? && StrictlySorted(c.records) && c.prev == Base(n).prev && c.next == ChainNext(n) &&
      forall k :: FirstValue(c.records, k) == Survivor(n, lo, k)
  {
    if LeafChain(n) {
      GatherChainCorrect(n, lo, EmptyGather);
      SortByKeySpecOfDistinct(GatherChain(n, lo, EmptyGather).value.records);
    }
  }

  /** A sorted leaf answers a search exactly by its records. */
  lemma LookupSortedLeaf(c: Node, k: Key)
    requires c.Leaf? && SortedByKey(c.records)
    ensures FoundValue(Lookup(c, k)) == FirstValue(c.records, k)
  {
    LowerBoundFinds(c.records, k);
  }

  /**
   * Consolidating a well-formed leaf chain without a lower filter yields a
   * well-formed leaf on which every key is found exactly when, and with the
   * payload with which, it is found on the chain.
   */
  lemma ConsolidationPreservesLookup(n: Node)
    requires WellFormedLeafChain(n)
    ensures WellFormedLeafChain(ConsolidatedLeaf(n, None).value)
    ensures forall k :: FoundValue(Lookup(ConsolidatedLeaf(n, None).value, k)) == FoundValue(Lookup(n, k))
  {
    ConsolidatedLeafCorrect(n, None);
    var c := ConsolidatedLeaf(n, None).value;
    forall k ensures FoundValue(Lookup(c, k)) == FoundValue(Lookup(n, k)) {
      LookupSortedLeaf(c, k);
      LookupMatchesVisible(n, k);
    }
  }

  /**
   * The consolidation as called with its default argument (keys greater than
   * 0): a leaf holding key 0 loses it, although search finds it on the leaf.
   */
  lemma DefaultConsolidationDropsKeyZero(d: Data)
    ensures var n := Leaf(NotExistantPID, NotExistantPID, [Entry(0, d)]);
      Lookup(n, 0) == Found(d) && ConsolidatedLeaf(n, Some(0)) == Some(Leaf(NotExistantPID, NotExistantPID, []))
  {
    var n := Leaf(NotExistantPID, NotExistantPID, [Entry(0, d)]);
    assert GatherRecords(EmptyGather, [Entry(0, d)], Some(0)) == EmptyGather by {
      assert [Entry(0, d)][..0] == [];
    }
  }

  // ---------------------------------------------------------------------------
  // Median split of a consolidated leaf (splitLeafPage)

  /** The right page of a split at `kp`: the chain consolidated above `kp`, with `prev` set to the split page. */
  function RightPage(n: Node, kp: Key, pid: PID): (r: Node)
    requires LeafChain(n)
    ensures r.Leaf? && r.prev == pid
  {
    var c := ConsolidatedLeaf(n, Some(kp)).value;
    Leaf(pid, c.next, c.records)
  }

  /** The median key of a consolidated page: records[recordCount / 2]. */
  function MedianKey(c: Node): Key
    requires c.Leaf? && |c.records| > 0
  {
    c.records[|c.records| / 2].key
  }

  /**
   * The right page of a split holds exactly the upper half of the
   * consolidated page, the records after the median, with the same `next`.
   */
  lemma SplitRightHalf(n: Node)
    requires LeafChain(n) && |ConsolidatedLeaf(n, None).value.records| > 0
    ensures var temp := ConsolidatedLeaf(n, None).value;
      var right := ConsolidatedLeaf(n, Some(MedianKey(temp))).value;
      right.records == temp.records[|temp.records| / 2 + 1..] && right.next == temp.next
  {
    ConsolidatedLeafCorrect(n, None);
    var temp := ConsolidatedLeaf(n, None).value;
    var m := |temp.records| / 2;
    var kp := MedianKey(temp);
    ConsolidatedLeafCorrect(n, Some(kp));
    var right := ConsolidatedLeaf(n, Some(kp)).value;
    var upper := temp.records[m + 1..];
    forall k ensures FirstValue(right.records, k) == FirstValue(upper, k) {
      FirstValueAfter(temp.records, m, k);
    }
    StrictlySortedUnique(right.records, upper);
  }

  /**
   * Splitting a well-formed chain at the median of its consolidation: the
   * split record over the old chain is well-formed, answers keys up to the
   * median as the old chain did and sends larger keys to the right page,
   * which answers them as the old chain did.
   */
  lemma SplitPreservesLookup(n: Node, rightPid: PID, removed: nat, pid: PID)
    requires WellFormedLeafChain(n) && |ConsolidatedLeaf(n, None).value.records| > 0
    ensures var kp := MedianKey(ConsolidatedLeaf(n, None).value);
      var left := DeltaSplit(n, kp, rightPid, removed, true);
      var right := RightPage(n, kp, pid);
      WellFormedLeafChain(left) && WellFormedLeafChain(right) &&
      forall k: Key ::
        if k <= kp then Lookup(left, k) == Lookup(n, k)
        else Lookup(left, k) == GoTo(rightPid) && FoundValue(Lookup(right, k)) == FoundValue(Lookup(n, k))
  {
    ConsolidatedLeafCorrect(n, None);
    var temp := ConsolidatedLeaf(n, None).value;
    var kp := MedianKey(temp);
    assert FirstValue(temp.records, kp).Some? by {
      FirstValueOfDistinct(temp.records, kp, temp.records[|temp.records| / 2].value);
    }
    VisibleBelowSplits(n, kp);
    ConsolidatedLeafCorrect(n, Some(kp));
    var right := RightPage(n, kp, pid);
    forall k | k > kp ensures FoundValue(Lookup(right, k)) == FoundValue(Lookup(n, k)) {
      LookupSortedLeaf(right, k);
      LookupMatchesVisible(n, k);
    }
  }

  // ---------------------------------------------------------------------------
  // The consolidation loop itself

  /**
   * createConsolidatedLeafPage(startNode, keysGreaterThan): replays the chain
   * newest-first into a record vector and a set of decided keys, then builds
   * a leaf of the gathered records sorted by key. `keysGreaterThan` None
   * means no lower filter. None is returned where the source asserts.
   */
  method CreateConsolidatedLeafPage(startNode: Node, keysGreaterThan: Option<Key>) returns (r: Option<Node>)
    ensures r == ConsolidatedLeaf(startNode, keysGreaterThan)
    ensures r.Some? <==> LeafChain(startNode)
  {
    var lo := keysGreaterThan;
    var node := startNode;
    var g := EmptyGather;
    while node.IsDelta()
      invariant GatherChain(node, lo, g) == GatherChain(startNode, lo, EmptyGather)
      decreases node
    {
      if node.DeltaInsert? {
        var cur := node.record;
        if AboveLow(cur.key, lo) && BelowStop(cur.key, g.stop) && cur.key !in g.considered {
          g := g.(records := g.records + [cur], considered := g.considered + {cur.key});
        }
        node := node.origin;
      } else if node.DeltaDelete? {
        if node.key !in g.considered {
          g := g.(considered := g.considered + {node.key});
        } else {
          assert g.considered + {node.key} == g.considered;
        }
        node := node.origin;
      } else if node.DeltaSplit? && node.leaf {
        if g.stop.None? {
          g := g.(stop := Some(node.key), next := node.sidelink);
        }
        node := node.origin;
      } else {
        return None;
      }
    }
    if node.Inner? {
      return None;
    }
    var h := GatherLeafRecords(g, node.records, lo);
    h := h.(prev := node.prev, next := if g.stop.None? then node.next else g.next);
    GatherChainDefined(startNode, lo, EmptyGather);
    GatherChainCorrect(startNode, lo, EmptyGather);
    var leaf := BuildSortedLeaf(h.records, h.prev, h.next);
    r := Some(leaf);
  }

  /** The record loop over a base leaf: each admitted record not yet decided is appended. */
  method GatherLeafRecords(g: Gather, recs: seq<KeyValue>, lo: Option<Key>) returns (h: Gather)
    ensures h == GatherRecords(g, recs, lo)
  {
    h := g;
    var i := 0;
    while i < |recs|
      invariant 0 <= i <= |recs|
      invariant h == GatherRecords(g, recs[..i], lo)
    {
      var cur := recs[i];
      assert recs[..i + 1][..i] == recs[..i];
      if AboveLow(cur.key, lo) && BelowStop(cur.key, h.stop) && cur.key !in h.considered {
        h := h.(records := h.records + [cur], considered := h.considered + {cur.key});
      }
      i := i + 1;
    }
    assert recs[..i] == recs;
  }

  /** CreateLeaf(records.size(), next, prev), std::sort of the records by key, then the copy loop. */
  method BuildSortedLeaf(records: seq<KeyValue>, prev: PID, next: PID) returns (leaf: Node)
    requires DistinctKeys(records)
    ensures leaf == Leaf(prev, next, SortByKeySpec(records))
  {
    var sorted := new KeyValue[|records|](j requires 0 <= j < |records| => records[j]);
    assert sorted[..] == records;
    SortByKey(sorted);
    SortedPermutationIsSpec(records, sorted[..]);
    leaf := CreateLeaf(|records|, next, prev);
    var j := 0;
    while j < sorted.Length
      invariant 0 <= j <= sorted.Length
      invariant leaf.Leaf? && leaf.prev == prev && leaf.next == next && |leaf.records| == sorted.Length
      invariant leaf.records[..j] == sorted[..j]
    {
      leaf := leaf.(records := leaf.records[j := sorted[j]]);
      j := j + 1;
    }
    assert leaf.records == leaf.records[..j];
  }
}
