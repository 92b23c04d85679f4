/**
 * The ring of epochs of epoque.hpp, the simpler reclamation scheme the
 * early tree uses.
 *
 * 40000 epoch slots form a ring. Each slot has a reader count and room for
 * ten nodes marked for deletion. Readers enter the newest epoch; a node is
 * marked in the newest epoch; when the last reader of an epoch leaves, the
 * quiet epochs from the oldest onwards are freed and the oldest moves past
 * them. Every operation holds the one mutex, so the model is sequential.
 *
 * The ghost multiset `open` holds the epoch of every live EnterEpoque
 * scope. The invariant ties each reader count to it and keeps every open
 * epoch inside the ring window from the oldest to the newest epoch, which
 * is what makes freeing safe.
 */
module Epoque {
  import opened Keys
  import opened Nodes

  /** epoquescount: the number of epoch slots in the ring. */
  const EpoquesCount: nat := 40000
  /** deletedNodes[e].size(): nodes one epoch can hold. */
  const SlotSize: nat := 10
  /** enterEpoque asserts that at most this many scopes are open. */
  const MaxOpen: nat := 100

  /** The slot after `i` on the ring. */
  function Next(i: nat): (n: nat)
    requires i < EpoquesCount
    ensures n < EpoquesCount
    ensures n == if i + 1 == EpoquesCount then 0 else i + 1
  {
    (i + 1) % EpoquesCount
  }

  /** Steps from `a` forward to `b` on the ring. */
  function Distance(a: nat, b: nat): (d: nat)
    requires a < EpoquesCount && b < EpoquesCount
    ensures d < EpoquesCount
    ensures d == 0 <==> a == b
  {
    if a <= b then b - a else b + EpoquesCount - a
  }

  /** Walking one slot further takes one step more, until the walk comes back to its start. */
  lemma DistanceNext(a: nat, b: nat)
    requires a < EpoquesCount && b < EpoquesCount && Next(b) != a
    ensures Distance(a, Next(b)) == Distance(a, b) + 1
  {
  }

  /** Stepping the start forward shortens the walk to any other slot by one. */
  lemma DistanceFromNext(a: nat, b: nat)
    requires a < EpoquesCount && b < EpoquesCount && a != b
    ensures Distance(Next(a), b) == Distance(a, b) - 1
  {
  }

  /** Walking from `a` to `c` through `b` adds up. */
  lemma DistanceSplit(a: nat, b: nat, c: nat)
    requires a < EpoquesCount && b < EpoquesCount && c < EpoquesCount
    requires Distance(a, b) <= Distance(a, c)
    ensures Distance(b, c) == Distance(a, c) - Distance(a, b)
  {
  }

  // ---------------------------------------------------------------------------
  // The scan of leaveEpoque, on values

  /**
   * Where the scan of leaveEpoque stops when it starts at `i` and must not
   * pass `e`: at `e` or at the first epoch that still has readers.
   */
  function ScanEnd(counts: seq<nat>, i: nat, e: nat): (last: nat)
    requires |counts| == EpoquesCount && i < EpoquesCount && e < EpoquesCount
    ensures last < EpoquesCount
    decreases Distance(i, e)
  {
    if i == e || counts[i] != 0 then i
    else
      DistanceFromNext(i, e);
      ScanEnd(counts, Next(i), e)
  }

  /** The nodes of the epochs the scan passes, oldest epoch first. */
  function Collected(counts: seq<nat>, slots: seq<seq<Node>>, i: nat, e: nat): seq<Node>
    requires |counts| == EpoquesCount && |slots| == EpoquesCount
    requires i < EpoquesCount && e < EpoquesCount
    decreases Distance(i, e)
  {
    if i == e || counts[i] != 0 then []
    else
      DistanceFromNext(i, e);
      slots[i] + Collected(counts, slots, Next(i), e)
  }

  /**
   * The scan ends on the ring between its start and `e`, at `e` or at an
   * epoch with readers, and every epoch it passes has none.
   */
  lemma {:induction false} ScanEndStops(counts: seq<nat>, i: nat, e: nat)
    requires |counts| == EpoquesCount && i < EpoquesCount && e < EpoquesCount
    ensures ScanEnd(counts, i, e) < EpoquesCount
    ensures Distance(i, ScanEnd(counts, i, e)) <= Distance(i, e)
    ensures ScanEnd(counts, i, e) == e || counts[ScanEnd(counts, i, e)] != 0
    ensures forall k :: 0 <= k < EpoquesCount && Distance(i, k) < Distance(i, ScanEnd(counts, i, e)) ==> counts[k] == 0
    decreases Distance(i, e)
  {
    if i == e || counts[i] != 0 {
    } else {
      DistanceFromNext(i, e);
      var n := Next(i);
      ScanEndStops(counts, n, e);
      var l := ScanEnd(counts, n, e);
      DistanceSplit(i, n, e);
      if n == e {
      } else {
        DistanceNext(i, i);
      }
      forall k | 0 <= k < EpoquesCount && Distance(i, k) < Distance(i, l)
        ensures counts[k] == 0
      {
        if k != i {
          DistanceFromNext(i, k);
          DistanceFromNext(i, l);
        }
      }
    }
  }

  /**
   * Every node the scan collects was marked in an epoch that has no readers
   * and lies before the new oldest epoch.
   */
  lemma {:induction false} CollectedFromQuiet(counts: seq<nat>, slots: seq<seq<Node>>, i: nat, e: nat, x: Node)
    requires |counts| == EpoquesCount && |slots| == EpoquesCount
    requires i < EpoquesCount && e < EpoquesCount
    requires x in Collected(counts, slots, i, e)
    ensures exists k :: (0 <= k < EpoquesCount && Distance(i, k) < Distance(i, ScanEnd(counts, i, e)) &&
      counts[k] == 0 && x in slots[k])
    decreases Distance(i, e)
  {
    ScanEndStops(counts, i, e);
    if x in slots[i] {
      assert Distance(i, i) == 0;
    } else {
      DistanceFromNext(i, e);
      var n := Next(i);
      CollectedFromQuiet(counts, slots, n, e, x);
      var k :| 0 <= k < EpoquesCount && Distance(n, k) < Distance(n, ScanEnd(counts, n, e)) &&
        counts[k] == 0 && x in slots[k];
      DistanceFromNext(i, k);
      DistanceFromNext(i, ScanEnd(counts, n, e));
      assert k != i;
    }
  }

  /** A slot of the window from `a` to `c` that is past `b` stays in the window from `b` to `c`. */
  lemma ShiftWindow(a: nat, b: nat, c: nat, k: nat)
    requires a < EpoquesCount && b < EpoquesCount && c < EpoquesCount && k < EpoquesCount
    requires Distance(a, b) <= Distance(a, k) <= Distance(a, c)
    ensures Distance(b, k) <= Distance(b, c)
  {
    DistanceSplit(a, b, k);
    DistanceSplit(a, b, c);
  }

  /** Scan one more quiet epoch: the remaining scan and its nodes are what is left of the whole. */
  lemma ScanStep(counts: seq<nat>, slots: seq<seq<Node>>, i: nat, e: nat)
    requires |counts| == EpoquesCount && |slots| == EpoquesCount
    requires i < EpoquesCount && e < EpoquesCount && i != e && counts[i] == 0
    ensures Distance(Next(i), e) < Distance(i, e)
    ensures ScanEnd(counts, Next(i), e) == ScanEnd(counts, i, e)
    ensures Collected(counts, slots, i, e) == slots[i] + Collected(counts, slots, Next(i), e)
  {
    DistanceFromNext(i, e);
  }

  // ---------------------------------------------------------------------------
  // The invariant of the ring, on values

  /** No epoch holds more marked nodes than its slot has room for. */
  predicate SlotsFit(next: seq<nat>)
  {
    forall i :: 0 <= i < |next| ==> next[i] <= SlotSize
  }

  /** The reader count of every epoch is the number of open scopes in it. */
  ghost predicate CountsMatch(counts: seq<nat>, open: multiset<nat>)
  {
    forall i :: 0 <= i < |counts| ==> counts[i] == open[i]
  }

  /** Every open scope is in an epoch of the ring window from `oldest` to `newest`. */
  ghost predicate InWindow(open: multiset<nat>, oldest: nat, newest: nat)
    requires oldest < EpoquesCount && newest < EpoquesCount
  {
    forall i :: i in open ==> i < EpoquesCount && Distance(oldest, i) <= Distance(oldest, newest)
  }

  /** A reader joining epoch `n` keeps the counts matched. */
  lemma JoinKeepsCounts(counts: seq<nat>, open: multiset<nat>, n: nat)
    requires CountsMatch(counts, open) && n < |counts|
    ensures CountsMatch(counts[n := counts[n] + 1], open + multiset{n})
  {
  }

  /** Emptying the slot of an epoch keeps every slot within its room. */
  lemma EmptySlotFits(next: seq<nat>, n: nat)
    requires SlotsFit(next) && n < |next|
    ensures SlotsFit(next[n := 0])
  {
  }

  /** A reader leaving epoch `e` keeps the counts matched. */
  lemma LeaveKeepsCounts(counts: seq<nat>, open: multiset<nat>, e: nat)
    requires CountsMatch(counts, open) && e in open && e < |counts|
    ensures counts[e] > 0
    ensures CountsMatch(counts[e := counts[e] - 1], open - multiset{e})
  {
  }

  /**
   * Opening the epoch after the newest one, when it is not the oldest: no
   * scope is open in it yet, and the window grows to take it in.
   */
  lemma AdvanceKeepsWindow(open: multiset<nat>, oldest: nat, newest: nat)
    requires oldest < EpoquesCount && newest < EpoquesCount && Next(newest) != oldest
    requires InWindow(open, oldest, newest)
    ensures Next(newest) !in open
    ensures InWindow(open + multiset{Next(newest)}, oldest, Next(newest))
  {
    DistanceNext(oldest, newest);
  }

  /** Fewer open scopes stay in the window. */
  lemma LeaveKeepsWindow(open: multiset<nat>, oldest: nat, newest: nat, e: nat)
    requires oldest < EpoquesCount && newest < EpoquesCount
    requires InWindow(open, oldest, newest)
    ensures InWindow(open - multiset{e}, oldest, newest)
  {
  }

  /**
   * After the scan the oldest epoch is where it stopped: every open scope is
   * still in the window, and no open scope and not the newest epoch is in an
   * epoch that was freed.
   */
  lemma {:induction false} ScanKeepsWindow(counts: seq<nat>, open: multiset<nat>, oldest: nat, newest: nat, e: nat)
    requires |counts| == EpoquesCount && oldest < EpoquesCount && newest < EpoquesCount && e < EpoquesCount
    requires CountsMatch(counts, open) && InWindow(open, oldest, newest)
    requires Distance(oldest, e) <= Distance(oldest, newest)
    ensures InWindow(open, ScanEnd(counts, oldest, e), newest)
    ensures forall k :: 0 <= k < EpoquesCount && Distance(oldest, k) < Distance(oldest, ScanEnd(counts, oldest, e)) ==>
      k !in open && k != newest
  {
    var last := ScanEnd(counts, oldest, e);
    ScanEndStops(counts, oldest, e);
    forall i | i in open
      ensures Distance(last, i) <= Distance(last, newest)
    {
      assert counts[i] != 0;
      ShiftWindow(oldest, last, newest, i);
    }
    forall k | 0 <= k < EpoquesCount && Distance(oldest, k) < Distance(oldest, last)
      ensures k !in open && k != newest
    {
      assert counts[k] == 0;
    }
  }

  // ---------------------------------------------------------------------------
  // The ring

  class Epoque {
    /** Readers in each epoch. */
    const epoques: array<nat>
    /** Nodes marked for deletion in each epoch; only the first deleteNodeNext[e] of a row are in use. */
    const deletedNodes: array2<Node>
    const deleteNodeNext: array<nat>
    var oldestEpoque: nat
    var newestEpoque: nat
    var openEpoques: nat
    /** The epochs of the live EnterEpoque scopes. */
    ghost var open: multiset<nat>

    ghost predicate Valid()
      reads this, epoques, deleteNodeNext
    {
      epoques.Length == EpoquesCount && deleteNodeNext.Length == EpoquesCount &&
      deletedNodes.Length0 == EpoquesCount && deletedNodes.Length1 == SlotSize &&
      epoques != deleteNodeNext &&
      oldestEpoque < EpoquesCount && newestEpoque < EpoquesCount &&
      openEpoques == |open| &&
      SlotsFit(deleteNodeNext[..]) && CountsMatch(epoques[..], open) &&
      InWindow(open, oldestEpoque, newestEpoque)
    }

    /** The nodes marked in epoch `i`, in marking order. */
    ghost function Marked(i: nat): seq<Node>
      requires i < deleteNodeNext.Length && i < deletedNodes.Length0 && deleteNodeNext[i] <= deletedNodes.Length1
      reads deleteNodeNext, deletedNodes
    {
      seq(deleteNodeNext[i], j requires 0 <= j < deletedNodes.Length1 reads deletedNodes => deletedNodes[i, j])
    }

    /** The marked nodes of every epoch. */
    ghost function Slots(): (r: seq<seq<Node>>)
      requires deleteNodeNext.Length == EpoquesCount && deletedNodes.Length0 == EpoquesCount
      requires deletedNodes.Length1 == SlotSize && SlotsFit(deleteNodeNext[..])
      reads deleteNodeNext, deletedNodes
      ensures |r| == EpoquesCount
      ensures forall i :: 0 <= i < EpoquesCount ==> r[i] == Marked(i)
    {
      assert forall i :: 0 <= i < EpoquesCount ==> deleteNodeNext[..][i] <= SlotSize;
      seq(EpoquesCount, i requires 0 <= i < deleteNodeNext.Length && i < deletedNodes.Length0 && deleteNodeNext[i] <= deletedNodes.Length1
        reads deleteNodeNext, deletedNodes => Marked(i))
    }

    /** What enterEpoque's two assertions demand: fewer than 100 open scopes, and room on the ring when a new epoch is needed. */
    predicate CanEnter()
      requires Valid()
      reads this, epoques, deleteNodeNext
    {
      openEpoques < MaxOpen &&
      (deleteNodeNext[newestEpoque] != 0 ==> Next(newestEpoque) != oldestEpoque)
    }

    /** Epoch 0 is the newest and the oldest, with no readers and no marked nodes. */
    constructor ()
      ensures Valid() && open == multiset{}
      ensures oldestEpoque == 0 && newestEpoque == 0 && openEpoques == 0
      ensures epoques[newestEpoque] == 0 && deleteNodeNext[newestEpoque] == 0
      ensures fresh(epoques) && fresh(deleteNodeNext) && fresh(deletedNodes)
    {
      epoques := new nat[EpoquesCount](_ => 0);
      deletedNodes := new Node[EpoquesCount, SlotSize]((_, _) => Leaf(NotExistantPID, NotExistantPID, []));
      deleteNodeNext := new nat[EpoquesCount](_ => 0);
      oldestEpoque := 0;
      newestEpoque := 0;
      openEpoques := 0;
      open := multiset{};
      new;
      epoques[newestEpoque] := 0;
      deleteNodeNext[newestEpoque] := 0;
    }

    /**
     * enterEpoque: join the newest epoch while nothing is marked in it,
     * otherwise open the next epoch on the ring with one reader and no
     * marked nodes.
     */
    method EnterEpoque() returns (e: nat)
      requires Valid() && CanEnter()
      modifies this, epoques, deleteNodeNext
      ensures Valid() && open == old(open) + multiset{e}
      ensures e == newestEpoque && oldestEpoque == old(oldestEpoque)
      ensures openEpoques == old(openEpoques) + 1
      ensures old(deleteNodeNext[newestEpoque]) == 0 ==>
        e == old(newestEpoque) && epoques[..] == old(epoques[..])[e := old(epoques[e]) + 1] &&
        deleteNodeNext[..] == old(deleteNodeNext[..])
      ensures old(deleteNodeNext[newestEpoque]) != 0 ==>
        e == Next(old(newestEpoque)) && epoques[..] == old(epoques[..])[e := 1] &&
        deleteNodeNext[..] == old(deleteNodeNext[..])[e := 0]
    {
      if deleteNodeNext[newestEpoque] == 0 {
        e := JoinNewest();
      } else {
        e := OpenNext();
      }
    }

    /** The branch of enterEpoque that joins the newest epoch, in which nothing is marked yet. */
    method JoinNewest() returns (e: nat)
      requires Valid() && openEpoques < MaxOpen
      modifies this, epoques
      ensures Valid() && open == old(open) + multiset{e}
      ensures e == newestEpoque == old(newestEpoque) && oldestEpoque == old(oldestEpoque)
      ensures openEpoques == old(openEpoques) + 1
      ensures epoques[..] == old(epoques[..])[e := old(epoques[e]) + 1]
    {
      openEpoques := openEpoques + 1;
      JoinKeepsCounts(epoques[..], open, newestEpoque);
      epoques[newestEpoque] := epoques[newestEpoque] + 1;
      open := open + multiset{newestEpoque};
      e := newestEpoque;
    }

    /** The branch of enterEpoque that opens the next epoch on the ring with one reader and no marked nodes. */
    method OpenNext() returns (e: nat)
      requires Valid() && openEpoques < MaxOpen && Next(newestEpoque) != oldestEpoque
      modifies this, epoques, deleteNodeNext
      ensures Valid() && open == old(open) + multiset{e}
      ensures e == newestEpoque == Next(old(newestEpoque)) && oldestEpoque == old(oldestEpoque)
      ensures openEpoques == old(openEpoques) + 1
      ensures epoques[..] == old(epoques[..])[e := 1]
      ensures deleteNodeNext[..] == old(deleteNodeNext[..])[e := 0]
    {
      openEpoques := openEpoques + 1;
      AdvanceKeepsWindow(open, oldestEpoque, newestEpoque);
      newestEpoque := Next(newestEpoque);
      JoinKeepsCounts(epoques[..], open, newestEpoque);
      EmptySlotFits(deleteNodeNext[..], newestEpoque);
      epoques[newestEpoque] := 1;
      deleteNodeNext[newestEpoque] := 0;
      open := open + multiset{newestEpoque};
      e := newestEpoque;
    }

    /** markForDeletion: the node joins the newest epoch, which must still have room. */
    method MarkForDeletion(node: Node)
      requires Valid() && deleteNodeNext[newestEpoque] < SlotSize
      modifies deleteNodeNext, deletedNodes
      ensures Valid()
      ensures Marked(newestEpoque) == old(Marked(newestEpoque)) + [node]
      ensures deleteNodeNext[..] == old(deleteNodeNext[..])[newestEpoque := old(deleteNodeNext[newestEpoque]) + 1]
      ensures forall i, j :: 0 <= i < EpoquesCount && 0 <= j < SlotSize && i != newestEpoque ==>
        deletedNodes[i, j] == old(deletedNodes[i, j])
    {
      var e := newestEpoque % EpoquesCount;
      var index := deleteNodeNext[e];
      deleteNodeNext[e] := deleteNodeNext[e] + 1;
      deletedNodes[e, index] := node;
    }

    /**
     * leaveEpoque: one reader of `e` leaves. When it was the last, the scan
     * frees the quiet epochs from the oldest on, stopping at `e` or at the
     * first epoch that still has readers, and the oldest epoch moves past
     * them. `freed` lists the nodes handed to freeNodeRecursively.
     */
    method LeaveEpoque(e: nat) returns (freed: seq<Node>)
      requires Valid() && e in open
      modifies this, epoques
      ensures Valid() && open == old(open) - multiset{e}
      ensures epoques[..] == old(epoques[..])[e := old(epoques[e]) - 1]
      ensures newestEpoque == old(newestEpoque) && openEpoques == old(openEpoques) - 1
      ensures epoques[e] != 0 ==> oldestEpoque == old(oldestEpoque) && freed == []
      ensures epoques[e] == 0 ==>
        oldestEpoque == ScanEnd(epoques[..], old(oldestEpoque), e) &&
        freed == Collected(epoques[..], Slots(), old(oldestEpoque), e)
      // no open scope is in an epoch that was freed, and the newest epoch is never freed
      ensures forall k :: 0 <= k < EpoquesCount && Distance(old(oldestEpoque), k) < Distance(old(oldestEpoque), oldestEpoque) ==>
        k !in open && k != newestEpoque
    {
      var rest := Release(e);
      freed := [];
      if rest == 0 {
        freed := FreeQuietEpochs(e);
      }
    }

    /** The first steps of leaveEpoque: one scope less is open, and `e` has one reader less. */
    method Release(e: nat) returns (rest: nat)
      requires Valid() && e in open
      modifies this, epoques
      ensures Valid() && open == old(open) - multiset{e}
      ensures epoques[..] == old(epoques[..])[e := old(epoques[e]) - 1] && rest == epoques[e]
      ensures newestEpoque == old(newestEpoque) && oldestEpoque == old(oldestEpoque)
      ensures openEpoques == old(openEpoques) - 1
      ensures e < EpoquesCount && Distance(oldestEpoque, e) <= Distance(oldestEpoque, newestEpoque)
    {
      ghost var counts := epoques[..];
      LeaveKeepsCounts(counts, open, e);
      LeaveKeepsWindow(open, oldestEpoque, newestEpoque, e);
      openEpoques := openEpoques - 1;
      epoques[e] := epoques[e] - 1;
      assert epoques[..] == counts[e := counts[e] - 1];
      open := open - multiset{e};
      rest := epoques[e];
    }

    /**
     * The last reader of `e` has left: free the quiet epochs from the oldest
     * on and move the oldest epoch past them.
     */
    method FreeQuietEpochs(e: nat) returns (freed: seq<Node>)
      requires Valid() && e < EpoquesCount && epoques[e] == 0
      requires Distance(oldestEpoque, e) <= Distance(oldestEpoque, newestEpoque)
      modifies this
      ensures Valid() && open == old(open)
      ensures newestEpoque == old(newestEpoque) && openEpoques == old(openEpoques)
      ensures oldestEpoque == ScanEnd(epoques[..], old(oldestEpoque), e)
      ensures freed == Collected(epoques[..], Slots(), old(oldestEpoque), e)
      ensures forall k :: 0 <= k < EpoquesCount && Distance(old(oldestEpoque), k) < Distance(old(oldestEpoque), oldestEpoque) ==>
        k !in open && k != newestEpoque
    {
      var oldest := oldestEpoque;
      var lastEpoque, nodes := Scan(oldest, e);
      ScanKeepsWindow(epoques[..], open, oldest, newestEpoque, e);
      // compare_exchange_weak under the mutex: nobody else moved the oldest epoch
      oldestEpoque := lastEpoque;
      freed := nodes;
    }

    /**
     * The scan loop of leaveEpoque: from `oldest` towards `e`, collect the
     * marked nodes of every epoch without readers, and stop at the first
     * epoch with readers; `last` is one past the last epoch collected.
     */
    method Scan(oldest: nat, e: nat) returns (last: nat, nodes: seq<Node>)
      requires Valid() && oldest < EpoquesCount && e < EpoquesCount
      ensures last == ScanEnd(epoques[..], oldest, e)
      ensures nodes == Collected(epoques[..], Slots(), oldest, e)
    {
      ghost var counts := epoques[..];
      ghost var slots := Slots();
      last := oldest;
      nodes := [];
      var i: nat := oldest;
      while i != e
        invariant i < EpoquesCount && last == i
        invariant ScanEnd(counts, i, e) == ScanEnd(counts, oldest, e)
        invariant nodes + Collected(counts, slots, i, e) == Collected(counts, slots, oldest, e)
        decreases Distance(i, e)
      {
        if epoques[i] == 0 {
          var j := 0;
          ghost var before := nodes;
          while j < deleteNodeNext[i]
            invariant j <= deleteNodeNext[i]
            invariant nodes == before + slots[i][..j]
          {
            nodes := nodes + [deletedNodes[i, j]];
            j := j + 1;
          }
          assert counts[i] == 0;
          ScanStep(counts, slots, i, e);
          last := (i + 1) % EpoquesCount;
        } else {
          assert counts[i] != 0;
          break;
        }
        i := (i + 1) % EpoquesCount;
      }
    }
  }

  /** EnterEpoque: a scope that holds one epoch for as long as it lives and leaves exactly that one. */
  class EnterEpoque {
    const epoque: Epoque
    const myEpoque: nat

    constructor (epoque: Epoque)
      requires epoque.Valid() && epoque.CanEnter()
      modifies epoque, epoque.epoques, epoque.deleteNodeNext
      ensures this.epoque == epoque && epoque.Valid()
      ensures epoque.open == old(epoque.open) + multiset{myEpoque}
      ensures myEpoque == epoque.newestEpoque
    {
      var e := epoque.EnterEpoque();
      this.epoque := epoque;
      myEpoque := e;
    }

    /** ~EnterEpoque: the scope's own epoch loses its reader. */
    method Destruct() returns (freed: seq<Node>)
      requires epoque.Valid() && myEpoque in epoque.open
      modifies epoque, epoque.epoques
      ensures epoque.Valid() && epoque.open == old(epoque.open) - multiset{myEpoque}
      ensures epoque.epoques[myEpoque] == old(epoque.epoques[myEpoque]) - 1
    {
      freed := epoque.LeaveEpoque(myEpoque);
    }
  }
}
