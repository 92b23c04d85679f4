/**
 * Epoch-based reclamation of epoche.cpp.
 *
 * Every thread owns a DeletionList: a linked list of labels, each a
 * fixed-size block of nodes waiting to be freed and stamped with the
 * thread's epoch at the last addition, plus a free list of recycled
 * labels. The global epoch advances every 64 cleanup calls, and a cleanup
 * frees exactly the labels older than the oldest epoch any thread is in.
 *
 * Atomics are plain fields and the thread-local container is a sequence
 * of lists, one per ThreadInfo. A label is a value: its epoch stamp and
 * the nodes in use of its array.
 */
module Epoch {
  import opened Keys
  import opened Nodes

  /** std::numeric_limits<uint64_t>::max(): the epoch of a thread that is in no epoch. */
  const MaxEpoche: nat := 0xFFFF_FFFF_FFFF_FFFF
  /** The global epoch moves on when the threshold counter is a multiple of this (thresholdCounter & (64 - 1)). */
  const EpocheTick: nat := 64

  /** What one label holds: its epoch stamp and its nodes, oldest first. */
  datatype Batch = Batch(epoche: nat, nodes: seq<Node>)

  // ---------------------------------------------------------------------------
  // The abstract list and the operations on it

  /** All nodes waiting in a list of batches. */
  function Pending(bs: seq<Batch>): seq<Node>
  {
    if |bs| == 0 then [] else Pending(bs[..|bs| - 1]) + bs[|bs| - 1].nodes
  }

  lemma {:induction false} PendingConcat(a: seq<Batch>, b: seq<Batch>)
    ensures Pending(a + b) == Pending(a) + Pending(b)
  {
    if |b| > 0 {
      var b' := b[..|b| - 1];
      assert (a + b)[..|a + b| - 1] == a + b';
      PendingConcat(a, b');
    } else {
      assert a + b == a;
    }
  }

  /** Every label holds at least one node and at most `labelSize`. */
  predicate Fits(bs: seq<Batch>, labelSize: nat)
  {
    |bs| == 0 || (0 < |bs[0].nodes| <= labelSize && Fits(bs[1..], labelSize))
  }

  lemma {:induction false} FitsIndex(bs: seq<Batch>, labelSize: nat)
    ensures Fits(bs, labelSize) <==> forall i :: 0 <= i < |bs| ==> 0 < |bs[i].nodes| <= labelSize
  {
    if |bs| > 0 {
      FitsIndex(bs[1..], labelSize);
      assert forall i :: 1 <= i < |bs| ==> bs[i] == bs[1..][i - 1];
    }
  }

  /** Unlinking a label leaves the others fitting. */
  lemma FitsRemoved(bs: seq<Batch>, k: nat, labelSize: nat)
    requires k < |bs| && Fits(bs, labelSize)
    ensures Fits(bs[..k] + bs[k + 1..], labelSize)
  {
    FitsIndex(bs, labelSize);
    FitsIndex(bs[..k] + bs[k + 1..], labelSize);
  }

  /** A list in which no label is empty has no pending node exactly when it has no label. */
  lemma {:induction false} PendingEmpty(bs: seq<Batch>, labelSize: nat)
    requires Fits(bs, labelSize)
    ensures |Pending(bs)| == 0 <==> bs == []
  {
    FitsIndex(bs, labelSize);
    if |bs| > 0 {
      assert |Pending(bs)| >= |bs[|bs| - 1].nodes|;
    }
  }

  /**
   * DeletionList::add: the node joins the head label if there is one with
   * room, else a label of its own in front; either way that label takes
   * the epoch `e`.
   */
  function Added(bs: seq<Batch>, n: Node, e: nat, labelSize: nat): seq<Batch>
  {
    if |bs| > 0 && |bs[0].nodes| < labelSize then [Batch(e, bs[0].nodes + [n])] + bs[1..]
    else [Batch(e, [n])] + bs
  }

  /** The nodes of a list are its head label's followed by the rest's. */
  lemma PendingFront(x: Batch, bs: seq<Batch>)
    ensures Pending([x] + bs) == x.nodes + Pending(bs)
  {
    PendingConcat([x], bs);
    assert Pending([x]) == x.nodes;
  }

  /** Adding puts exactly one more node in the list, after the head label's. */
  lemma AddedKeepsNodes(bs: seq<Batch>, n: Node, e: nat, labelSize: nat)
    ensures multiset(Pending(Added(bs, n, e, labelSize))) == multiset(Pending(bs)) + multiset{n}
  {
    if |bs| > 0 && |bs[0].nodes| < labelSize {
      PendingFront(bs[0], bs[1..]);
      PendingFront(Batch(e, bs[0].nodes + [n]), bs[1..]);
      assert bs == [bs[0]] + bs[1..];
    } else {
      PendingFront(Batch(e, [n]), bs);
    }
  }

  /** Adding keeps every label non-empty and within the label size, and stamps the head label. */
  lemma AddedKeepsBounds(bs: seq<Batch>, n: Node, e: nat, labelSize: nat)
    requires labelSize > 0 && Fits(bs, labelSize)
    ensures var r := Added(bs, n, e, labelSize);
      |r| > 0 && r[0].epoche == e && Fits(r, labelSize)
  {
    FitsIndex(bs, labelSize);
    FitsIndex(Added(bs, n, e, labelSize), labelSize);
  }

  /** The labels a cleanup keeps: those stamped no earlier than `oldest`, in their order. */
  function Kept(bs: seq<Batch>, oldest: nat): seq<Batch>
  {
    if |bs| == 0 then []
    else Kept(bs[..|bs| - 1], oldest) + (if bs[|bs| - 1].epoche < oldest then [] else [bs[|bs| - 1]])
  }

  /** The labels a cleanup frees: those stamped before `oldest`, in their order. */
  function Expired(bs: seq<Batch>, oldest: nat): seq<Batch>
  {
    if |bs| == 0 then []
    else Expired(bs[..|bs| - 1], oldest) + (if bs[|bs| - 1].epoche < oldest then [bs[|bs| - 1]] else [])
  }

  /** Every kept label is stamped at least `oldest`, every freed one earlier. */
  lemma {:induction false} CleanupSeparates(bs: seq<Batch>, oldest: nat)
    ensures forall i :: 0 <= i < |Kept(bs, oldest)| ==> Kept(bs, oldest)[i].epoche >= oldest
    ensures forall i :: 0 <= i < |Expired(bs, oldest)| ==> Expired(bs, oldest)[i].epoche < oldest
  {
    if |bs| > 0 {
      CleanupSeparates(bs[..|bs| - 1], oldest);
    }
  }

  /** Kept and freed labels together are the labels there were. */
  lemma {:induction false} CleanupPartitions(bs: seq<Batch>, oldest: nat)
    ensures multiset(bs) == multiset(Kept(bs, oldest)) + multiset(Expired(bs, oldest))
  {
    if |bs| > 0 {
      var init := bs[..|bs| - 1];
      CleanupPartitions(init, oldest);
      assert bs == init + [bs[|bs| - 1]];
    }
  }

  /** Kept and freed labels together hold exactly the nodes that were waiting. */
  lemma {:induction false} CleanupKeepsNodes(bs: seq<Batch>, oldest: nat)
    ensures multiset(Pending(bs)) == multiset(Pending(Kept(bs, oldest))) + multiset(Pending(Expired(bs, oldest)))
  {
    if |bs| > 0 {
      var init := bs[..|bs| - 1];
      var last := bs[|bs| - 1];
      CleanupKeepsNodes(init, oldest);
      assert Pending([last]) == last.nodes;
      assert bs[..|bs| - 1] == init;
      if last.epoche < oldest {
        assert Kept(bs, oldest) == Kept(init, oldest) + [] == Kept(init, oldest);
        assert Expired(bs, oldest) == Expired(init, oldest) + [last];
        PendingConcat(Expired(init, oldest), [last]);
      } else {
        assert Expired(bs, oldest) == Expired(init, oldest) + [] == Expired(init, oldest);
        assert Kept(bs, oldest) == Kept(init, oldest) + [last];
        PendingConcat(Kept(init, oldest), [last]);
      }
    }
  }

  /**
   * One step of the cleanup scan over `B`, with the first `j` labels done:
   * the label under the cursor is `B[j]`; an expired one is unlinked and
   * its nodes freed, a kept one is stepped over.
   */
  lemma ScanStep(B: seq<Batch>, j: nat, oldest: nat)
    requires j < |B|
    ensures var K := Kept(B[..j], oldest);
      (K + B[j..])[|K|] == B[j] && B[..j + 1][..j] == B[..j]
    ensures var K := Kept(B[..j], oldest);
      B[j].epoche < oldest ==>
        Kept(B[..j + 1], oldest) == K &&
        (K + B[j..])[..|K|] + (K + B[j..])[|K| + 1..] == K + B[j + 1..] &&
        Pending(Expired(B[..j + 1], oldest)) == Pending(Expired(B[..j], oldest)) + B[j].nodes
    ensures var K := Kept(B[..j], oldest);
      B[j].epoche >= oldest ==>
        Kept(B[..j + 1], oldest) == K + [B[j]] &&
        K + B[j..] == Kept(B[..j + 1], oldest) + B[j + 1..] &&
        Expired(B[..j + 1], oldest) == Expired(B[..j], oldest)
  {
    var K := Kept(B[..j], oldest);
    assert B[..j + 1][..j] == B[..j];
    assert B[j..] == [B[j]] + B[j + 1..];
    assert Pending([B[j]]) == B[j].nodes;
    if B[j].epoche < oldest {
      PendingConcat(Expired(B[..j], oldest), [B[j]]);
      assert (K + B[j..])[..|K|] == K;
      assert (K + B[j..])[|K| + 1..] == B[j + 1..];
    }
  }

  /**
   * One step of draining `B`, with the first `j` labels done: the head is
   * `B[j]`, and removing it leaves the rest.
   */
  lemma DrainStep(B: seq<Batch>, j: nat, oldest: nat)
    requires j < |B|
    ensures B[j..][0] == B[j] && B[j..][..0] + B[j..][1..] == B[j + 1..]
    ensures Pending(B[..j + 1]) == Pending(B[..j]) + B[j].nodes
    ensures AllBefore(B[..j + 1], oldest) <==> AllBefore(B[..j], oldest) && B[j].epoche < oldest
  {
    assert B[..j + 1][..j] == B[..j];
    assert B[j..][..0] + B[j..][1..] == B[j + 1..];
    assert B[..j + 1] == B[..j] + [B[j]];
  }

  /** The minimum of the threads' epochs, MaxEpoche if there is none or all are larger. */
  function Oldest(es: seq<nat>): nat
  {
    if |es| == 0 then MaxEpoche
    else
      var o := Oldest(es[..|es| - 1]);
      if es[|es| - 1] < o then es[|es| - 1] else o
  }

  /** Oldest is a lower bound of every thread's epoch, and one of them unless it is MaxEpoche. */
  lemma {:induction false} OldestIsMinimum(es: seq<nat>)
    ensures forall i :: 0 <= i < |es| ==> Oldest(es) <= es[i]
    ensures Oldest(es) == MaxEpoche || Oldest(es) in es
  {
    if |es| > 0 {
      var init := es[..|es| - 1];
      OldestIsMinimum(init);
      assert es == init + [es[|es| - 1]];
    }
  }

  /**
   * The reclamation guarantee: every label a cleanup frees was stamped
   * before the epoch of every thread, so no thread can still be in the
   * epoch in which those nodes were retired.
   */
  lemma FreedBeforeEveryThread(bs: seq<Batch>, es: seq<nat>)
    ensures forall i, t :: 0 <= i < |Expired(bs, Oldest(es))| && 0 <= t < |es| ==>
      Expired(bs, Oldest(es))[i].epoche < es[t]
  {
    CleanupSeparates(bs, Oldest(es));
    OldestIsMinimum(es);
  }

  /** Whether every label is older than `oldest`: what ~Epoche asserts. */
  predicate AllBefore(bs: seq<Batch>, oldest: nat)
  {
    forall i :: 0 <= i < |bs| ==> bs[i].epoche < oldest
  }

  /** The nodes waiting in several lists, list by list. */
  function PendingAll(bss: seq<seq<Batch>>): seq<Node>
  {
    if |bss| == 0 then [] else PendingAll(bss[..|bss| - 1]) + Pending(bss[|bss| - 1])
  }

  /** One step of draining several lists, with the first `i` done. */
  lemma DrainListsStep(bss: seq<seq<Batch>>, i: nat, oldest: nat)
    requires i < |bss|
    ensures PendingAll(bss[..i + 1]) == PendingAll(bss[..i]) + Pending(bss[i])
    ensures (forall t :: 0 <= t < i + 1 ==> AllBefore(bss[t], oldest)) <==>
      (forall t :: 0 <= t < i ==> AllBefore(bss[t], oldest)) && AllBefore(bss[i], oldest)
  {
    assert bss[..i + 1][..i] == bss[..i];
  }

  // ---------------------------------------------------------------------------
  // The per-thread list and the epoch manager

  /**
   * DeletionList: the listed labels, newest first, and the free list of
   * recycled labels, whose contents no longer matter; both linked lists
   * are sequences the methods reassign.
   */
  class DeletionList {
    /** The size of a label's node array. */
    const labelSize: nat
    var headDeletionList: seq<Batch>
    var freeLabelDeletes: seq<Batch>
    var deletitionListCount: nat
    var added: nat
    var deleted: nat
    var localEpoche: nat
    var thresholdCounter: nat

    /**
     * Labels are never empty and never over-full, the count is the number
     * of waiting nodes, and it is what was added minus what was deleted.
     */
    predicate Valid()
      reads this`headDeletionList, this`deletitionListCount, this`added, this`deleted
    {
      labelSize > 0 &&
      Fits(headDeletionList, labelSize) &&
      deletitionListCount == |Pending(headDeletionList)| &&
      added == deleted + deletitionListCount
    }

    constructor (labelSize: nat)
      requires labelSize > 0
      ensures Valid() && this.labelSize == labelSize
      ensures headDeletionList == [] && freeLabelDeletes == []
      ensures added == 0 && deleted == 0 && localEpoche == 0 && thresholdCounter == 0
    {
      this.labelSize := labelSize;
      headDeletionList := [];
      freeLabelDeletes := [];
      deletitionListCount := 0;
      added := 0;
      deleted := 0;
      localEpoche := 0;
      thresholdCounter := 0;
    }

    /** size(): the number of nodes waiting. */
    method Size() returns (n: nat)
      requires Valid()
      ensures n == |Pending(headDeletionList)|
      ensures n == 0 <==> headDeletionList == []
    {
      PendingEmpty(headDeletionList, labelSize);
      n := deletitionListCount;
    }

    /** head(): the newest label, None for an empty list. */
    method Head() returns (h: Option<Batch>)
      ensures h.None? <==> headDeletionList == []
      ensures h.Some? ==> h.value == headDeletionList[0]
    {
      h := if headDeletionList == [] then None else Some(headDeletionList[0]);
    }

    /**
     * add: count the node, find a head label with room or put a recycled
     * (else a new) label in front, store the node there and stamp the
     * label with the thread's epoch. A label is allocated only when the
     * free list is empty.
     */
    method Add(n: Node)
      requires Valid()
      modifies this
      ensures Valid()
      ensures headDeletionList == Added(old(headDeletionList), n, localEpoche, labelSize)
      ensures added == old(added) + 1 && deleted == old(deleted)
      ensures localEpoche == old(localEpoche) && thresholdCounter == old(thresholdCounter)
      ensures |headDeletionList| + |freeLabelDeletes| ==
        old(|headDeletionList| + |freeLabelDeletes|) +
        (if |headDeletionList| > old(|headDeletionList|) && old(freeLabelDeletes) == [] then 1 else 0)
    {
      AddedKeepsNodes(headDeletionList, n, localEpoche, labelSize);
      AddedKeepsBounds(headDeletionList, n, localEpoche, labelSize);
      assert |Pending(Added(headDeletionList, n, localEpoche, labelSize))| == |Pending(headDeletionList)| + 1 by {
        assert |multiset(Pending(Added(headDeletionList, n, localEpoche, labelSize)))| == |multiset(Pending(headDeletionList))| + 1;
      }
      ghost var fits := |headDeletionList| > 0 && |headDeletionList[0].nodes| < labelSize;
      deletitionListCount := deletitionListCount + 1;
      if !(|headDeletionList| > 0 && |headDeletionList[0].nodes| < labelSize) {
        var lbl: Batch;
        if freeLabelDeletes != [] {
          lbl := freeLabelDeletes[0];
          freeLabelDeletes := freeLabelDeletes[1..];
        } else {
          lbl := Batch(0, []);
        }
        lbl := lbl.(nodes := []);
        headDeletionList := [lbl] + headDeletionList;
      }
      assert headDeletionList[1..] == if fits then old(headDeletionList[1..]) else old(headDeletionList);
      var lbl := headDeletionList[0];
      assert lbl.nodes == if fits then old(headDeletionList[0].nodes) else [];
      assert lbl.nodes + [n] == if fits then old(headDeletionList[0].nodes) + [n] else [n];
      lbl := lbl.(nodes := lbl.nodes + [n]);
      lbl := lbl.(epoche := localEpoche);
      headDeletionList := [lbl] + headDeletionList[1..];
      assert headDeletionList == Added(old(headDeletionList), n, localEpoche, labelSize);
      added := added + 1;
    }

    /**
     * remove: unlink the `k`-th label (its predecessor is the one before
     * it, none for the head), uncount its nodes as deleted and push the
     * label on the free list.
     */
    method Remove(k: nat)
      requires Valid() && k < |headDeletionList|
      modifies this
      ensures Valid()
      ensures headDeletionList == old(headDeletionList[..k] + headDeletionList[k + 1..])
      ensures freeLabelDeletes == [old(headDeletionList[k])] + old(freeLabelDeletes)
      ensures deleted == old(deleted) + |old(headDeletionList[k]).nodes| && added == old(added)
      ensures localEpoche == old(localEpoche) && thresholdCounter == old(thresholdCounter)
    {
      var lbl := headDeletionList[k];
      var rest := headDeletionList[..k] + headDeletionList[k + 1..];
      RemovedPending(headDeletionList, k);
      FitsRemoved(headDeletionList, k, labelSize);
      headDeletionList := rest;
      deletitionListCount := deletitionListCount - |lbl.nodes|;
      freeLabelDeletes := [lbl] + freeLabelDeletes;
      deleted := deleted + |lbl.nodes|;
    }

    /**
     * ~DeletionList: check that nothing is waiting and release the
     * recycled labels; `ok` is the source's assertion.
     */
    method Destruct() returns (ok: bool, released: seq<Batch>)
      requires Valid()
      modifies this
      ensures Valid() && headDeletionList == old(headDeletionList)
      ensures ok <==> old(headDeletionList) == []
      ensures released == old(freeLabelDeletes) && freeLabelDeletes == []
    {
      PendingEmpty(headDeletionList, labelSize);
      ok := deletitionListCount == 0 && headDeletionList == [];
      released := [];
      while freeLabelDeletes != []
        invariant released + freeLabelDeletes == old(freeLabelDeletes)
        invariant Valid() && headDeletionList == old(headDeletionList)
        decreases |freeLabelDeletes|
      {
        released := released + [freeLabelDeletes[0]];
        freeLabelDeletes := freeLabelDeletes[1..];
      }
    }
  }

  /** Removing the `k`-th label takes its nodes out of the waiting ones, and keeps the others' bounds. */
  lemma RemovedPending(bs: seq<Batch>, k: nat)
    requires k < |bs|
    ensures |Pending(bs[..k] + bs[k + 1..])| == |Pending(bs)| - |bs[k].nodes|
  {
    assert bs == bs[..k] + [bs[k]] + bs[k + 1..];
    PendingConcat(bs[..k] + [bs[k]], bs[k + 1..]);
    PendingConcat(bs[..k], [bs[k]]);
    PendingConcat(bs[..k], bs[k + 1..]);
    assert Pending([bs[k]]) == bs[k].nodes;
  }

  /** The epochs the threads' lists are in, in list order. */
  function EpochsOf(ls: seq<DeletionList>): seq<nat>
    reads ls`localEpoche
    decreases |ls|
  {
    if |ls| == 0 then [] else EpochsOf(ls[..|ls| - 1]) + [ls[|ls| - 1].localEpoche]
  }

  /** Each list's epoch is at its position. */
  lemma {:induction false} EpochsOfIndex(ls: seq<DeletionList>)
    ensures |EpochsOf(ls)| == |ls| && forall t :: 0 <= t < |ls| ==> EpochsOf(ls)[t] == ls[t].localEpoche
  {
    if |ls| > 0 {
      EpochsOfIndex(ls[..|ls| - 1]);
    }
  }

  /** The labels of each list, in list order. */
  function BatchesOf(ls: seq<DeletionList>): (r: seq<seq<Batch>>)
    reads ls`headDeletionList
    decreases |ls|
    ensures |r| == |ls| && forall t :: 0 <= t < |ls| ==> r[t] == ls[t].headDeletionList
  {
    if |ls| == 0 then [] else BatchesOf(ls[..|ls| - 1]) + [ls[|ls| - 1].headDeletionList]
  }

  /**
   * Epoche: the global epoch, the cleanup threshold and one deletion list
   * per thread. Each list's own invariant is kept by the thread that owns
   * it, so the methods ask for and keep the validity of the one list they
   * touch.
   */
  class Epoche {
    var currentEpoche: nat
    const startGCThreshhold: nat
    const labelSize: nat
    var deletionLists: seq<DeletionList>

    /** One list per thread, each with this label size. */
    predicate Valid()
      reads this
    {
      labelSize > 0 &&
      (forall i, j :: 0 <= i < j < |deletionLists| ==> deletionLists[i] != deletionLists[j]) &&
      (forall i :: 0 <= i < |deletionLists| ==> deletionLists[i].labelSize == labelSize)
    }

    constructor (startGCThreshhold: nat, labelSize: nat)
      requires labelSize > 0
      ensures Valid() && currentEpoche == 0 && deletionLists == []
      ensures this.startGCThreshhold == startGCThreshhold && this.labelSize == labelSize
    {
      currentEpoche := 0;
      this.startGCThreshhold := startGCThreshhold;
      this.labelSize := labelSize;
      deletionLists := [];
    }

    /** deletionLists.local() on a thread's first use: a fresh empty list for that thread. */
    method Local() returns (d: DeletionList)
      requires Valid()
      modifies this
      ensures Valid() && fresh(d) && d.Valid()
      ensures deletionLists == old(deletionLists) + [d] && currentEpoche == old(currentEpoche)
      ensures d.headDeletionList == [] && d.localEpoche == 0 && d.thresholdCounter == 0
    {
      d := new DeletionList(labelSize);
      deletionLists := deletionLists + [d];
    }

    /** enterEpoche: the thread's list takes the global epoch. */
    method EnterEpoche(epocheInfo: ThreadInfo)
      requires epocheInfo.epoche == this && epocheInfo.deletionList.Valid()
      modifies epocheInfo.deletionList
      ensures epocheInfo.deletionList.Valid()
      ensures epocheInfo.deletionList.localEpoche == currentEpoche
      ensures var d := epocheInfo.deletionList;
        d.headDeletionList == old(d.headDeletionList) && d.thresholdCounter == old(d.thresholdCounter)
      ensures var d := epocheInfo.deletionList;
        d.freeLabelDeletes == old(d.freeLabelDeletes) && d.deletitionListCount == old(d.deletitionListCount) &&
        d.added == old(d.added) && d.deleted == old(d.deleted)
    {
      var d := epocheInfo.deletionList;
      var curEpoche := currentEpoche;
      if curEpoche != d.localEpoche {
        d.localEpoche := curEpoche;
      }
    }

    /** markNodeForDeletion: add the node to the thread's list and count the call. */
    method MarkNodeForDeletion(n: Node, epocheInfo: ThreadInfo)
      requires epocheInfo.epoche == this && epocheInfo.deletionList.Valid()
      modifies epocheInfo.deletionList
      ensures epocheInfo.deletionList.Valid()
      ensures var d := epocheInfo.deletionList;
        d.headDeletionList == Added(old(d.headDeletionList), n, d.localEpoche, d.labelSize) &&
        d.localEpoche == old(d.localEpoche) && d.thresholdCounter == old(d.thresholdCounter) + 1
      ensures var d := epocheInfo.deletionList;
        d.added == old(d.added) + 1 && d.deleted == old(d.deleted) &&
        |d.headDeletionList| + |d.freeLabelDeletes| ==
          old(|d.headDeletionList| + |d.freeLabelDeletes|) +
          (if |d.headDeletionList| > old(|d.headDeletionList|) && old(d.freeLabelDeletes) == [] then 1 else 0)
    {
      var d := epocheInfo.deletionList;
      d.Add(n);
      d.thresholdCounter := d.thresholdCounter + 1;
    }

    /**
     * exitEpocheAndCleanup: advance the global epoch on every 64th count,
     * and clean the thread's list once the count is above the threshold.
     */
    method ExitEpocheAndCleanup(epocheInfo: ThreadInfo) returns (released: seq<Node>)
      requires Valid() && epocheInfo.epoche == this
      requires epocheInfo.deletionList in deletionLists && epocheInfo.deletionList.Valid()
      modifies this, epocheInfo.deletionList
      ensures Valid() && deletionLists == old(deletionLists) && epocheInfo.deletionList.Valid()
      ensures currentEpoche ==
        old(currentEpoche) + if old(epocheInfo.deletionList.thresholdCounter) % EpocheTick == 0 then 1 else 0
      ensures old(epocheInfo.deletionList.thresholdCounter) <= startGCThreshhold ==>
        released == [] && unchanged(epocheInfo.deletionList)
      ensures old(epocheInfo.deletionList.thresholdCounter) > startGCThreshhold ==>
        Cleaned(epocheInfo.deletionList, released)
    {
      var deletionList := epocheInfo.deletionList;
      if deletionList.thresholdCounter % EpocheTick == 0 {
        currentEpoche := currentEpoche + 1;
      }
      released := [];
      if deletionList.thresholdCounter > startGCThreshhold {
        released := Cleanup(deletionList);
      }
    }

    /**
     * What a cleanup of `d` did: the counter is back to 1; an empty list
     * stays as it was; otherwise the thread has left its epoch and the
     * labels stamped before the oldest epoch of all threads are freed.
     */
    twostate predicate Cleaned(d: DeletionList, new released: seq<Node>)
      reads this, deletionLists, d
    {
      d.thresholdCounter == 1 && d.added == old(d.added) &&
      (old(d.headDeletionList) == [] ==>
        released == [] && d.headDeletionList == [] && d.localEpoche == old(d.localEpoche)) &&
      (old(d.headDeletionList) != [] ==>
        d.localEpoche == MaxEpoche &&
        d.headDeletionList == Kept(old(d.headDeletionList), Oldest(EpochsOf(deletionLists))) &&
        released == Pending(Expired(old(d.headDeletionList), Oldest(EpochsOf(deletionLists)))) &&
        d.deleted == old(d.deleted) + |released|)
    }

    /** The cleanup branch of exitEpocheAndCleanup. */
    method Cleanup(deletionList: DeletionList) returns (released: seq<Node>)
      requires deletionList in deletionLists && deletionList.Valid()
      modifies deletionList
      ensures deletionList.Valid() && Cleaned(deletionList, released)
    {
      released := [];
      var size := deletionList.Size();
      if size == 0 {
        deletionList.thresholdCounter := 1;
        return;
      }
      deletionList.localEpoche := MaxEpoche;
      var oldestEpoche := OldestEpoche();
      released := ScanLabels(deletionList, oldestEpoche);
      deletionList.thresholdCounter := 1;
      assert oldestEpoche == Oldest(EpochsOf(deletionLists));
    }

    /** The scan for the oldest epoch any thread is in, MaxEpoche if none is. */
    method OldestEpoche() returns (oldestEpoche: nat)
      ensures oldestEpoche == Oldest(EpochsOf(deletionLists))
      ensures forall t :: 0 <= t < |deletionLists| ==> oldestEpoche <= deletionLists[t].localEpoche
    {
      oldestEpoche := MaxEpoche;
      var i := 0;
      while i < |deletionLists|
        invariant 0 <= i <= |deletionLists|
        invariant oldestEpoche == Oldest(EpochsOf(deletionLists[..i]))
      {
        assert deletionLists[..i + 1][..i] == deletionLists[..i];
        var e := deletionLists[i].localEpoche;
        if e < oldestEpoche {
          oldestEpoche := e;
        }
        i := i + 1;
      }
      assert deletionLists[..i] == deletionLists;
      EpochsOfIndex(deletionLists);
      OldestIsMinimum(EpochsOf(deletionLists));
    }

    /**
     * The scan of exitEpocheAndCleanup: walk the labels newest first,
     * freeing and removing each one stamped before `oldest` and stepping
     * past the others.
     */
    method ScanLabels(deletionList: DeletionList, oldest: nat) returns (released: seq<Node>)
      requires deletionList.Valid()
      modifies deletionList
      ensures deletionList.Valid()
      ensures deletionList.headDeletionList == Kept(old(deletionList.headDeletionList), oldest)
      ensures released == Pending(Expired(old(deletionList.headDeletionList), oldest))
      ensures deletionList.deleted == old(deletionList.deleted) + |released|
      ensures deletionList.added == old(deletionList.added)
      ensures deletionList.localEpoche == old(deletionList.localEpoche)
      ensures deletionList.thresholdCounter == old(deletionList.thresholdCounter)
    {
      ghost var B := deletionList.headDeletionList;
      var cur := 0;
      ghost var j := 0;
      released := [];
      while cur < |deletionList.headDeletionList|
        invariant deletionList.Valid() && 0 <= j <= |B|
        invariant cur == |Kept(B[..j], oldest)|
        invariant deletionList.headDeletionList == Kept(B[..j], oldest) + B[j..]
        invariant released == Pending(Expired(B[..j], oldest))
        invariant deletionList.deleted == old(deletionList.deleted) + |released|
        invariant deletionList.added == old(deletionList.added)
        invariant deletionList.localEpoche == old(deletionList.localEpoche)
        invariant deletionList.thresholdCounter == old(deletionList.thresholdCounter)
        decreases |B| - j
      {
        ScanStep(B, j, oldest);
        var lbl := deletionList.headDeletionList[cur];
        if lbl.epoche < oldest {
          released := released + lbl.nodes;
          deletionList.Remove(cur);
        } else {
          cur := cur + 1;
        }
        j := j + 1;
      }
      assert B[..j] == B;
    }

    /**
     * ~Epoche: take the oldest epoch of all threads, then empty every
     * list, freeing every label; `allOlder` is the source's assertion that
     * each of them is older than that epoch.
     */
    method Destruct() returns (released: seq<Node>, allOlder: bool)
      requires Valid() && forall t :: 0 <= t < |deletionLists| ==> deletionLists[t].Valid()
      modifies deletionLists
      ensures forall t :: 0 <= t < |deletionLists| ==>
        deletionLists[t].Valid() && deletionLists[t].headDeletionList == []
      ensures released == PendingAll(old(BatchesOf(deletionLists)))
      ensures allOlder <==> forall t :: 0 <= t < old(|deletionLists|) ==>
        AllBefore(old(BatchesOf(deletionLists))[t], old(Oldest(EpochsOf(deletionLists))))
    {
      var oldestEpoche := OldestEpoche();
      released, allOlder := DrainLists(deletionLists, oldestEpoche);
    }

    /** The second loop of ~Epoche: drain every list in turn. */
    method DrainLists(ls: seq<DeletionList>, oldest: nat) returns (released: seq<Node>, allOlder: bool)
      requires forall a, b :: 0 <= a < b < |ls| ==> ls[a] != ls[b]
      requires forall t :: 0 <= t < |ls| ==> ls[t].Valid()
      modifies ls
      ensures forall t :: 0 <= t < |ls| ==> ls[t].Valid() && ls[t].headDeletionList == []
      ensures released == PendingAll(old(BatchesOf(ls)))
      ensures allOlder <==> forall t :: 0 <= t < |ls| ==> AllBefore(old(BatchesOf(ls))[t], oldest)
    {
      ghost var olds := BatchesOf(ls);
      released := [];
      allOlder := true;
      var i := 0;
      while i < |ls|
        invariant 0 <= i <= |ls| == |olds|
        invariant forall t :: 0 <= t < |ls| ==> ls[t].Valid()
        invariant forall t :: 0 <= t < i ==> ls[t].headDeletionList == []
        invariant forall t :: i <= t < |ls| ==> ls[t].headDeletionList == olds[t]
        invariant released == PendingAll(olds[..i])
        invariant allOlder <==> forall t :: 0 <= t < i ==> AllBefore(olds[t], oldest)
      {
        DrainListsStep(olds, i, oldest);
        var rel, older := DrainList(ls[i], oldest);
        released := released + rel;
        allOlder := allOlder && older;
        i := i + 1;
      }
      assert olds[..i] == olds;
    }

    /** The body of ~Epoche for one list: free and remove every label, always the head. */
    method DrainList(d: DeletionList, oldest: nat) returns (released: seq<Node>, older: bool)
      requires d.Valid()
      modifies d
      ensures d.Valid() && d.headDeletionList == [] && d.localEpoche == old(d.localEpoche)
      ensures released == Pending(old(d.headDeletionList))
      ensures older <==> AllBefore(old(d.headDeletionList), oldest)
    {
      ghost var B := d.headDeletionList;
      released := [];
      older := true;
      ghost var j := 0;
      while d.headDeletionList != []
        invariant d.Valid() && d.localEpoche == old(d.localEpoche)
        invariant 0 <= j <= |B| && d.headDeletionList == B[j..]
        invariant released == Pending(B[..j]) && (older <==> AllBefore(B[..j], oldest))
        decreases |B| - j
      {
        DrainStep(B, j, oldest);
        var cur := d.headDeletionList[0];
        older := older && cur.epoche < oldest;
        released := released + cur.nodes;
        d.Remove(0);
        j := j + 1;
      }
      assert B[..j] == B;
    }
  }

  /** ThreadInfo: a thread's handle on the Epoche and on its own deletion list. */
  class ThreadInfo {
    const epoche: Epoche
    const deletionList: DeletionList

    constructor (epoche: Epoche)
      requires epoche.Valid()
      modifies epoche
      ensures epoche.Valid() && this.epoche == epoche && deletionList.Valid()
      ensures epoche.deletionLists == old(epoche.deletionLists) + [deletionList]
      ensures deletionList.headDeletionList == [] && epoche.currentEpoche == old(epoche.currentEpoche)
    {
      this.epoche := epoche;
      var d := epoche.Local();
      this.deletionList := d;
    }

    /** ~ThreadInfo: the thread leaves every epoch for good. */
    method Destruct()
      requires deletionList.Valid()
      modifies deletionList
      ensures deletionList.Valid()
      ensures deletionList.localEpoche == MaxEpoche && deletionList.headDeletionList == old(deletionList.headDeletionList)
    {
      deletionList.localEpoche := MaxEpoche;
    }
  }
}
