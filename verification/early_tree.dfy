/**
 * The first, single-page Tree of bwtree.h.
 *
 * The tree has one page, the root, whose chain starts as an empty leaf.
 * insert and deleteKey prepend a DeltaInsert or a DeltaDelete to the root
 * chain by compare-and-swap on the root's slot of the mapping table, and
 * search walks the chain newest first down to a linear scan of the leaf.
 *
 * The chain is specified by its contents: the map from keys to data that
 * results from applying its deltas, oldest first, to the leaf's records.
 */
module EarlyTree {
  import opened Keys
  import opened Nodes

  /** mapping{2048}: the slots of the mapping table. */
  const TableSize: nat := 2048

  /** What an operation of the early tree does: return, or loop for ever without returning. */
  datatype Outcome<T> = Returns(value: T) | Spins

  /** A chain the early tree builds: deltas for records over a leaf. */
  predicate RecordChain(n: Node)
  {
    match n
    case Leaf(_, _, _) => true
    case DeltaInsert(origin, _, _) => RecordChain(origin)
    case DeltaDelete(origin, _) => RecordChain(origin)
    case _ => false
  }

  // ---------------------------------------------------------------------------
  // What a chain holds

  /** The records of a leaf as a map; where a key occurs twice the first occurrence counts, as in search. */
  function LeafContents(records: seq<KeyValue>): map<Key, Data>
  {
    if records == [] then map[]
    else LeafContents(records[1..])[records[0].key := records[0].value]
  }

  /** The contents of a chain: its deltas applied, oldest first, to the leaf's records. */
  function Contents(n: Node): map<Key, Data>
    requires RecordChain(n)
  {
    match n
    case Leaf(_, _, records) => LeafContents(records)
    case DeltaInsert(origin, record, _) => Contents(origin)[record.key := record.value]
    case DeltaDelete(origin, key) => Contents(origin) - {key}
  }

  /** The value a map holds for a key, if any. */
  function Get(m: map<Key, Data>, key: Key): Option<Data>
  {
    if key in m then Some(m[key]) else None
  }

  /** The leaf scan of search finds the first record with the key, which is what the leaf contents hold. */
  lemma {:induction false} LeafScanMatchesContents(records: seq<KeyValue>, key: Key)
    ensures FirstValue(records, key) == Get(LeafContents(records), key)
  {
    if records != [] {
      LeafScanMatchesContents(records[1..], key);
    }
  }

  /** The walk of search: newest first, the first delta for the key decides, else the leaf scan. */
  function ChainSearch(n: Node, key: Key): Option<Data>
    requires RecordChain(n)
  {
    match n
    case Leaf(_, _, records) => FirstValue(records, key)
    case DeltaInsert(origin, record, _) => if record.key == key then Some(record.value) else ChainSearch(origin, key)
    case DeltaDelete(origin, k) => if k == key then None else ChainSearch(origin, key)
  }

  /** Searching a chain finds exactly what its contents hold. */
  lemma {:induction false} ChainSearchMatchesContents(n: Node, key: Key)
    requires RecordChain(n)
    ensures ChainSearch(n, key) == Get(Contents(n), key)
  {
    match n
    case Leaf(_, _, records) => LeafScanMatchesContents(records, key);
    case DeltaInsert(origin, _, _) => ChainSearchMatchesContents(origin, key);
    case DeltaDelete(origin, _) => ChainSearchMatchesContents(origin, key);
  }

  // ---------------------------------------------------------------------------
  // The type switch of insert and deleteKey

  /** insert's switch as written: a DeltaInsert over a leaf or a DeltaInsert head; any other head loops for ever. */
  function InsertStepAsWritten(head: Node, key: Key, record: Data): Outcome<Node>
  {
    if head.Leaf? || head.DeltaInsert? then Returns(DeltaInsert(head, Entry(key, record), false)) else Spins
  }

  /** deleteKey's switch as written: a DeltaDelete over a leaf or a DeltaInsert head; any other head loops for ever. */
  function DeleteStepAsWritten(head: Node, key: Key): Outcome<Node>
  {
    if head.Leaf? || head.DeltaInsert? then Returns(DeltaDelete(head, key)) else Spins
  }

  /** insert's switch with a DeltaDelete head accepted like the other heads of a record chain. */
  function InsertStep(head: Node, key: Key, record: Data): (r: Outcome<Node>)
    ensures RecordChain(head) ==>
      (r.Returns? && RecordChain(r.value) && Contents(r.value) == Contents(head)[key := record])
  {
    if head.Leaf? || head.DeltaInsert? || head.DeltaDelete? then Returns(DeltaInsert(head, Entry(key, record), false))
    else Spins
  }

  /** deleteKey's switch with a DeltaDelete head accepted like the other heads of a record chain. */
  function DeleteStep(head: Node, key: Key): (r: Outcome<Node>)
    ensures RecordChain(head) ==>
      (r.Returns? && RecordChain(r.value) && Contents(r.value) == Contents(head) - {key})
  {
    if head.Leaf? || head.DeltaInsert? || head.DeltaDelete? then Returns(DeltaDelete(head, key))
    else Spins
  }

  /** The corrected switch agrees with the one as written wherever that one returns. */
  lemma StepsAgreeWhereWrittenReturns(head: Node, key: Key, record: Data)
    ensures InsertStepAsWritten(head, key, record).Returns? ==> InsertStep(head, key, record) == InsertStepAsWritten(head, key, record)
    ensures DeleteStepAsWritten(head, key).Returns? ==> DeleteStep(head, key) == DeleteStepAsWritten(head, key)
    ensures InsertStepAsWritten(head, key, record).Spins? <==> !head.Leaf? && !head.DeltaInsert?
  {
  }

  /**
   * As written, one deleteKey on the empty tree leaves a DeltaDelete at the
   * head of the root, and every later insert and deleteKey loops for ever;
   * with the DeltaDelete head accepted, the insert is published and search
   * finds the record.
   */
  lemma InsertAfterDeleteSpins(prev: PID, next: PID, key: Key, record: Data)
    ensures var empty := Leaf(prev, next, []);
      DeleteStepAsWritten(empty, key) == Returns(DeltaDelete(empty, key)) &&
      InsertStepAsWritten(DeltaDelete(empty, key), key, record) == Spins &&
      DeleteStepAsWritten(DeltaDelete(empty, key), key) == Spins &&
      InsertStep(DeltaDelete(empty, key), key, record).Returns? &&
      ChainSearch(InsertStep(DeltaDelete(empty, key), key, record).value, key) == Some(record)
  {
  }

  // ---------------------------------------------------------------------------
  // The tree

  class Tree {
    var root: PID
    const mapping: array<Option<Node>>
    var mappingNext: nat

    /** The chain of the root page. */
    function Head(): Node
      reads this, mapping
      requires root < mapping.Length && mapping[root].Some?
    {
      mapping[root].value
    }

    predicate Valid()
      reads this, mapping
    {
      mapping.Length == TableSize && mappingNext <= TableSize &&
      root < mappingNext && mapping[root].Some? && RecordChain(mapping[root].value)
    }

    /** Tree(): an empty leaf, stored under the first PID, is the root page. */
    constructor ()
      ensures Valid() && root == 0 && mappingNext == 1
      ensures Head().Leaf? && Head().records == [] && Contents(Head()) == map[]
      ensures forall i :: 0 < i < TableSize ==> mapping[i] == None
    {
      mapping := new Option<Node>[TableSize](_ => None);
      mappingNext := 0;
      root := 0;
      new;
      var prev: PID, next: PID := *, *;
      var node := Leaf(prev, next, []);
      var pid := NewNode(node);
      root := pid.value;
    }

    /**
     * newNode: store the node under the next free PID; None where the source
     * exits because the table is full.
     */
    method NewNode(node: Node) returns (pid: Option<PID>)
      requires mapping.Length == TableSize && mappingNext <= TableSize
      modifies this, mapping
      ensures root == old(root) && mapping.Length == TableSize && mappingNext <= TableSize
      ensures old(mappingNext) == TableSize ==> pid == None && unchanged(this, mapping)
      ensures old(mappingNext) < TableSize ==>
        pid == Some(old(mappingNext)) && mappingNext == old(mappingNext) + 1 &&
        mapping[..] == old(mapping[..])[old(mappingNext) := Some(node)]
    {
      var nextPID := mappingNext;
      if nextPID == mapping.Length {
        return None;
      }
      // the compare-and-swap of mappingNext from nextPID succeeds for a single thread
      mappingNext := nextPID + 1;
      mapping[nextPID] := Some(node);
      pid := Some(nextPID);
    }

    /** compare_exchange on one slot: the new head is stored exactly when the slot holds the expected one. */
    method CompareExchange(pid: PID, expected: Node, desired: Node) returns (ok: bool)
      requires pid < mapping.Length
      modifies mapping
      ensures ok <==> old(mapping[pid]) == Some(expected)
      ensures mapping[..] == if ok then old(mapping[..])[pid := Some(desired)] else old(mapping[..])
    {
      if mapping[pid] == Some(expected) {
        mapping[pid] := Some(desired);
        ok := true;
      } else {
        ok := false;
      }
    }

    /**
     * insert: a DeltaInsert for the record over the head of the root page,
     * published on the root's slot and nowhere else; the key then maps to
     * the record and every other key keeps its value.
     */
    method Insert(key: Key, record: Data)
      requires Valid()
      modifies mapping
      ensures Valid()
      ensures Returns(Head()) == InsertStep(old(Head()), key, record)
      ensures Contents(Head()) == old(Contents(Head()))[key := record]
      ensures mapping[..] == old(mapping[..])[root := Some(Head())]
    {
      var node := mapping[root].value;
      var node1 := DeltaInsert(node, Entry(key, record), false);
      var ok := CompareExchange(root, node, node1);
      // the slot still holds the head just read, so the swap succeeds and no retry follows
      assert ok;
    }

    /**
     * deleteKey: a DeltaDelete for the key over the head of the root page,
     * published on the root's slot and nowhere else; the key then maps to
     * nothing and every other key keeps its value.
     */
    method DeleteKey(key: Key)
      requires Valid()
      modifies mapping
      ensures Valid()
      ensures Returns(Head()) == DeleteStep(old(Head()), key)
      ensures Contents(Head()) == old(Contents(Head())) - {key}
      ensures mapping[..] == old(mapping[..])[root := Some(Head())]
    {
      var node := mapping[root].value;
      var node1 := DeltaDelete(node, key);
      var ok := CompareExchange(root, node, node1);
      assert ok;
    }

    /**
     * search: walk the root chain newest first; a DeltaInsert for the key
     * answers with its record, a DeltaDelete for it with nothing, and the
     * leaf with the first record carrying the key, if any. The answer is
     * what the contents of the chain hold for the key.
     */
    method Search(key: Key) returns (r: Option<Data>)
      requires Valid()
      ensures r == ChainSearch(Head(), key)
      ensures r == Get(Contents(Head()), key)
    {
      ChainSearchMatchesContents(Head(), key);
      var nextNode := mapping[root].value;
      while true
        invariant RecordChain(nextNode)
        invariant ChainSearch(nextNode, key) == ChainSearch(Head(), key)
        decreases nextNode
      {
        match nextNode
        case Leaf(_, _, records) =>
          r := ScanLeaf(records, key);
          return;
        case DeltaInsert(origin, record, _) =>
          if record.key == key {
            return Some(record.value);
          }
          nextNode := origin;
        case DeltaDelete(origin, k) =>
          if k == key {
            return None;
          }
          nextNode := origin;
      }
    }
  }

  /** The leaf loop of search: the data of the first record with the key, or nothing. */
  method ScanLeaf(records: seq<KeyValue>, key: Key) returns (r: Option<Data>)
    ensures r.Some? <==> exists i :: 0 <= i < |records| && records[i].key == key
    ensures r.Some? ==> exists i :: (0 <= i < |records| && records[i] == Entry(key, r.value) &&
      forall j :: 0 <= j < i ==> records[j].key != key)
    ensures r == FirstValue(records, key)
  {
    var i := 0;
    while i < |records|
      invariant i <= |records|
      invariant forall j :: 0 <= j < i ==> records[j].key != key
    {
      if records[i].key == key {
        FirstValueSkip(records, key, i);
        return Some(records[i].value);
      }
      i := i + 1;
    }
    FirstValueNone(records, key);
    return None;
  }
}
