/**
 * Locating the page responsible for a key (findDataPage in bwtree.cpp) over
 * a snapshot of the mapping table.
 *
 * `Visit` and `Walk` follow the two loops of the source step by step,
 * including the stacks it keeps for maintenance. `Route` is the same walk
 * with the bookkeeping dropped; the lemmas below tie the two together and
 * describe how a route reacts when the table changes.
 *
 * The source loop has no bound; here every page visit spends one unit of
 * `fuel`, and running out is reported as `Diverges`.
 */
module Traversal {
  import opened Keys
  import opened Nodes
  import opened Pages

  /** Thresholds read by findDataPage: the chain length that asks for consolidation, the leaf size that asks for a split. */
  datatype Settings = Settings(consolidateLeafPage: nat, splitLeafPage: nat)

  /**
   * The located page, the chain head seen there, the payload if the key was
   * found, and three PID stacks: the pages visited (parentNodes) and the
   * snapshots of it taken when a chain got long or a leaf got large.
   */
  datatype FindDataPageResult = FindDataPageResult(
    pid: PID, startNode: Node, data: Option<Data>,
    needConsolidatePage: seq<PID>, needSplitPage: seq<PID>, parentNodes: seq<PID>)

  datatype FindOutcome = Located(res: FindDataPageResult) | Lost(fault: Fault)

  /** A snapshot of the mapping table: one optional chain head per PID. */
  type Mapping = seq<Option<Node>>

  /** One iteration of the outer loop: enter page `pid`. */
  function Visit(m: Mapping, st: Settings, key: Key, pid: PID, path: seq<PID>, nc: seq<PID>, ns: seq<PID>, fuel: nat)
    : FindOutcome
    decreases fuel, 1
  {
    if fuel == 0 then Lost(Diverges)
    else if pid == NotExistantPID then Lost(NoPage)
    else if pid >= |m| then Lost(OutsideTable)
    else
      var path' := path + [pid];
      match m[pid]
      case None => Visit(m, st, key, pid, path', nc, ns, fuel - 1)
      case Some(start) => Walk(m, st, key, pid, start, start, 0, path', nc, ns, fuel)
  }

  /** One iteration of the inner loop: examine `node` of the chain of page `pid`. */
  function Walk(m: Mapping, st: Settings, key: Key, pid: PID, start: Node, node: Node, depth: nat,
                path: seq<PID>, nc: seq<PID>, ns: seq<PID>, fuel: nat): FindOutcome
    requires fuel > 0
    decreases fuel, 0, node
  {
    var depth' := depth + 1;
    var nc' := if depth' == st.consolidateLeafPage && nc == [] then path else nc;
    var ns' := if node.Leaf? && |node.records| > st.splitLeafPage && ns == [] then path else ns;
    match NodeStep(node, key)
    case Found(d) => Located(FindDataPageResult(pid, start, Some(d), nc', ns', path))
    case NotFound => Located(FindDataPageResult(pid, start, None, nc', ns', path))
    case GoTo(q) => Visit(m, st, key, q, path, nc', ns', fuel - 1)
    case Origin => Walk(m, st, key, pid, start, node.origin, depth', path, nc', ns', fuel)
    case Failed(f) => Lost(f)
  }

  /** Where a walk ends when the bookkeeping is ignored. */
  datatype RouteResult = Reached(pid: PID, head: Node, data: Option<Data>) | Stranded(fault: Fault)

  /** The walk from page `pid`, resolving each chain as a whole. */
  function Route(m: Mapping, key: Key, pid: PID, fuel: nat): (r: RouteResult)
    ensures r.Reached? ==>
      r.pid < |m| && m[r.pid] == Some(r.head) &&
      Lookup(r.head, key).Terminal() && FoundValue(Lookup(r.head, key)) == r.data
    decreases fuel, 1
  {
    if fuel == 0 then Stranded(Diverges)
    else if pid == NotExistantPID then Stranded(NoPage)
    else if pid >= |m| then Stranded(OutsideTable)
    else match m[pid]
      case None => Route(m, key, pid, fuel - 1)
      case Some(h) => Continue(m, key, pid, h, Lookup(h, key), fuel)
  }

  /** How a route goes on after the chain `h` of page `pid` resolved to `s`. */
  function Continue(m: Mapping, key: Key, pid: PID, h: Node, s: Step, fuel: nat): RouteResult
    requires fuel > 0 && !s.Origin?
    decreases fuel, 0
  {
    if s.Found? then Reached(pid, h, Some(s.data))
    else if s.NotFound? then Reached(pid, h, None)
    else if s.GoTo? then Route(m, key, s.pid, fuel - 1)
    else Stranded(s.fault)
  }

  function Answer(o: FindOutcome): RouteResult
  {
    match o
    case Located(res) => Reached(res.pid, res.startNode, res.data)
    case Lost(f) => Stranded(f)
  }

  /** With the bookkeeping dropped, findDataPage's loops are the route. */
  lemma {:induction false} VisitAnswer(m: Mapping, st: Settings, key: Key, pid: PID, path: seq<PID>, nc: seq<PID>,
                                       ns: seq<PID>, fuel: nat)
    ensures Answer(Visit(m, st, key, pid, path, nc, ns, fuel)) == Route(m, key, pid, fuel)
    decreases fuel, 1
  {
    if fuel > 0 && pid != NotExistantPID && pid < |m| {
      var path' := path + [pid];
      match m[pid]
      case None => VisitAnswer(m, st, key, pid, path', nc, ns, fuel - 1);
      case Some(start) => WalkAnswer(m, st, key, pid, start, start, 0, path', nc, ns, fuel);
    }
  }

  lemma {:induction false} WalkAnswer(m: Mapping, st: Settings, key: Key, pid: PID, start: Node, node: Node, depth: nat,
                                      path: seq<PID>, nc: seq<PID>, ns: seq<PID>, fuel: nat)
    requires fuel > 0
    ensures Answer(Walk(m, st, key, pid, start, node, depth, path, nc, ns, fuel)) ==
      Continue(m, key, pid, start, Lookup(node, key), fuel)
    decreases fuel, 0, node
  {
    var depth' := depth + 1;
    var nc' := if depth' == st.consolidateLeafPage && nc == [] then path else nc;
    var ns' := if node.Leaf? && |node.records| > st.splitLeafPage && ns == [] then path else ns;
    match NodeStep(node, key)
    case GoTo(q) => VisitAnswer(m, st, key, q, path, nc', ns', fuel - 1);
    case Origin => WalkAnswer(m, st, key, pid, start, node.origin, depth', path, nc', ns', fuel);
    case _ =>
  }

  /** A maintenance stack is either unset or a copy of the visited-pages stack taken earlier. */
  predicate Snapshot(s: seq<PID>, path: seq<PID>)
  {
    s == [] || (0 < |s| <= |path| && s == path[..|s|])
  }

  predicate IsPrefix(a: seq<PID>, b: seq<PID>)
  {
    |a| <= |b| && a == b[..|a|]
  }

  lemma SnapshotExtends(s: seq<PID>, path: seq<PID>, longer: seq<PID>)
    requires Snapshot(s, path) && IsPrefix(path, longer)
    ensures Snapshot(s, longer)
  {
    if s != [] {
      assert longer[..|path|][..|s|] == longer[..|s|];
    }
  }

  /** What the bookkeeping of a located result looks like, given the stack it started from. */
  predicate Recorded(o: FindOutcome, path: seq<PID>)
  {
    o.Located? ==>
      IsPrefix(path, o.res.parentNodes) && |o.res.parentNodes| > 0 &&
      o.res.parentNodes[|o.res.parentNodes| - 1] == o.res.pid &&
      Snapshot(o.res.needConsolidatePage, o.res.parentNodes) && Snapshot(o.res.needSplitPage, o.res.parentNodes)
  }

  /**
   * A located result names the page it stopped on last in parentNodes, so
   * the top of that stack is the located page; both maintenance stacks are
   * unset or earlier copies of it.
   */
  lemma {:induction false} VisitRecords(m: Mapping, st: Settings, key: Key, pid: PID, path: seq<PID>, nc: seq<PID>,
                                        ns: seq<PID>, fuel: nat)
    requires Snapshot(nc, path) && Snapshot(ns, path)
    ensures Recorded(Visit(m, st, key, pid, path, nc, ns, fuel), path)
    decreases fuel, 1
  {
    if fuel > 0 && pid != NotExistantPID && pid < |m| {
      var path' := path + [pid];
      SnapshotExtends(nc, path, path');
      SnapshotExtends(ns, path, path');
      match m[pid]
      case None => VisitRecords(m, st, key, pid, path', nc, ns, fuel - 1);
      case Some(start) => WalkRecords(m, st, key, pid, start, start, 0, path', nc, ns, fuel);
    }
  }

  lemma {:induction false} WalkRecords(m: Mapping, st: Settings, key: Key, pid: PID, start: Node, node: Node, depth: nat,
                                       path: seq<PID>, nc: seq<PID>, ns: seq<PID>, fuel: nat)
    requires fuel > 0
    requires |path| > 0 && path[|path| - 1] == pid
    requires Snapshot(nc, path) && Snapshot(ns, path)
    ensures Recorded(Walk(m, st, key, pid, start, node, depth, path, nc, ns, fuel), path)
    decreases fuel, 0, node
  {
    var depth' := depth + 1;
    var nc' := if depth' == st.consolidateLeafPage && nc == [] then path else nc;
    var ns' := if node.Leaf? && |node.records| > st.splitLeafPage && ns == [] then path else ns;
    assert path[..|path|] == path;
    assert Snapshot(nc', path) && Snapshot(ns', path);
    var step := NodeStep(node, key);
    var o := Walk(m, st, key, pid, start, node, depth, path, nc, ns, fuel);
    if step.GoTo? {
      assert o == Visit(m, st, key, step.pid, path, nc', ns', fuel - 1);
      VisitRecords(m, st, key, step.pid, path, nc', ns', fuel - 1);
    } else if step.Origin? {
      assert o == Walk(m, st, key, pid, start, node.origin, depth', path, nc', ns', fuel);
      WalkRecords(m, st, key, pid, start, node.origin, depth', path, nc', ns', fuel);
    } else if step.Found? || step.NotFound? {
      assert o.res == FindDataPageResult(pid, start, FoundValue(step), nc', ns', path);
    }
  }

  /** A route that arrives somewhere starts from a filled slot. */
  lemma {:induction false} RouteStartsFull(m: Mapping, key: Key, pid: PID, fuel: nat)
    requires Route(m, key, pid, fuel).Reached?
    ensures pid < |m| && m[pid].Some?
    decreases fuel
  {
    if m[pid].None? {
      RouteStartsFull(m, key, pid, fuel - 1);
    }
  }

  /** More fuel does not change a route that already arrives. */
  lemma {:induction false} RouteMoreFuel(m: Mapping, key: Key, pid: PID, fuel: nat, more: nat)
    requires Route(m, key, pid, fuel).Reached?
    ensures Route(m, key, pid, fuel + more) == Route(m, key, pid, fuel)
    decreases fuel
  {
    RouteStartsFull(m, key, pid, fuel);
    var h := m[pid].value;
    var s := Lookup(h, key);
    if s.GoTo? {
      RouteMoreFuel(m, key, s.pid, fuel - 1, more);
    }
  }

  /** `m'` agrees with `m` on every filled slot other than `p`. */
  predicate SameElsewhere(m: Mapping, m': Mapping, p: PID)
  {
    |m'| == |m| && forall i :: 0 <= i < |m| && i != p && m[i].Some? ==> m'[i] == m[i]
  }

  /**
   * If a route arrives at page `p`, and `p` and some empty slots are then
   * overwritten with a chain that settles the key, the route arrives at `p`
   * again and reports what the new chain says.
   */
  lemma {:induction false} RouteToReplaced(m: Mapping, m': Mapping, p: PID, key: Key, pid: PID, fuel: nat)
    requires SameElsewhere(m, m', p)
    requires Route(m, key, pid, fuel).Reached? && Route(m, key, pid, fuel).pid == p
    requires m'[p].Some? && Lookup(m'[p].value, key).Terminal()
    ensures Route(m', key, pid, fuel) == Reached(p, m'[p].value, FoundValue(Lookup(m'[p].value, key)))
    decreases fuel
  {
    RouteStartsFull(m, key, pid, fuel);
    if pid != p {
      var s := Lookup(m[pid].value, key);
      if s.GoTo? {
        RouteToReplaced(m, m', p, key, s.pid, fuel - 1);
      }
    }
  }

  /**
   * If a route arrives at page `p`, and `p` is then overwritten with a chain
   * that sends the key to a page `q` (filled in an empty slot) which settles
   * it, one more hop makes the route arrive at `q`.
   */
  lemma {:induction false} RouteThroughRedirect(m: Mapping, m': Mapping, p: PID, q: PID, key: Key, pid: PID, fuel: nat)
    requires SameElsewhere(m, m', p) && q != NotExistantPID && q < |m| && m[q].None?
    requires Route(m, key, pid, fuel).Reached? && Route(m, key, pid, fuel).pid == p
    requires m'[p].Some? && Lookup(m'[p].value, key) == GoTo(q)
    requires m'[q].Some? && Lookup(m'[q].value, key).Terminal()
    ensures Route(m', key, pid, fuel + 1) == Reached(q, m'[q].value, FoundValue(Lookup(m'[q].value, key)))
    decreases fuel
  {
    RouteStartsFull(m, key, pid, fuel);
    if pid != p {
      var s := Lookup(m[pid].value, key);
      if s.GoTo? {
        RouteThroughRedirect(m, m', p, q, key, s.pid, fuel - 1);
      }
    } else {
      var x := m'[q].value;
      assert fuel > 0;
      assert Route(m', key, q, fuel) == Continue(m', key, q, x, Lookup(x, key), fuel);
      assert Route(m', key, p, fuel + 1) == Route(m', key, q, fuel);
    }
  }

  /** Two routes end the same way: at the same page with the same answer, or with the same fault. */
  predicate SameVerdict(a: RouteResult, b: RouteResult)
  {
    a.Reached? == b.Reached? &&
    (a.Reached? ==> a.pid == b.pid && a.data == b.data) &&
    (a.Stranded? ==> a.fault == b.fault)
  }

  /**
   * Replacing the chain of a filled page by one that resolves `k` the same
   * way leaves every route for `k` ending the same way.
   */
  lemma {:induction false} RouteSameAnswer(m: Mapping, p: PID, n: Node, k: Key, pid: PID, fuel: nat)
    requires p < |m| && m[p].Some? && Lookup(n, k) == Lookup(m[p].value, k)
    ensures SameVerdict(Route(m[p := Some(n)], k, pid, fuel), Route(m, k, pid, fuel))
    decreases fuel
  {
    var m' := m[p := Some(n)];
    if fuel > 0 && pid != NotExistantPID && pid < |m| {
      if m[pid].None? {
        RouteSameAnswer(m, p, n, k, pid, fuel - 1);
      } else {
        var s := Lookup(m[pid].value, k);
        assert Lookup(m'[pid].value, k) == s;
        if s.GoTo? {
          RouteSameAnswer(m, p, n, k, s.pid, fuel - 1);
        }
      }
    }
  }

  /**
   * A page that a route does not arrive at may be overwritten, and empty
   * slots filled, without changing a route that goes elsewhere, provided the
   * route never passes `p`.
   */
  predicate Avoids(m: Mapping, key: Key, pid: PID, fuel: nat, p: PID)
    decreases fuel
  {
    if fuel == 0 || pid == NotExistantPID || pid >= |m| then true
    else if pid == p then false
    else match m[pid]
      case None => Avoids(m, key, pid, fuel - 1, p)
      case Some(h) =>
        var s := Lookup(h, key);
        s.GoTo? ==> Avoids(m, key, s.pid, fuel - 1, p)
  }

  lemma {:induction false} RouteUnaffected(m: Mapping, m': Mapping, p: PID, key: Key, pid: PID, fuel: nat)
    requires SameElsewhere(m, m', p)
    requires Route(m, key, pid, fuel).Reached? && Avoids(m, key, pid, fuel, p)
    ensures Route(m', key, pid, fuel) == Route(m, key, pid, fuel)
    ensures Avoids(m', key, pid, fuel, p)
    decreases fuel
  {
    RouteStartsFull(m, key, pid, fuel);
    var s := Lookup(m[pid].value, key);
    if s.GoTo? {
      RouteUnaffected(m, m', p, key, s.pid, fuel - 1);
    }
  }

  // ---------------------------------------------------------------------------
  // A route that arrives needs no more hops than the table has slots

  /** The pages a route that arrives passes, in order, the arrival page last. */
  function Trail(m: Mapping, key: Key, pid: PID, fuel: nat): (t: seq<PID>)
    requires Route(m, key, pid, fuel).Reached?
    ensures |t| >= 1 && t[0] == pid
    decreases fuel
  {
    RouteStartsFull(m, key, pid, fuel);
    var s := Lookup(m[pid].value, key);
    if s.GoTo? then [pid] + Trail(m, key, s.pid, fuel - 1) else [pid]
  }

  /** The trail spends one unit of fuel per page and lies inside the table. */
  lemma {:induction false} TrailFuel(m: Mapping, key: Key, pid: PID, fuel: nat)
    requires Route(m, key, pid, fuel).Reached?
    ensures |Trail(m, key, pid, fuel)| <= fuel
    ensures Route(m, key, pid, |Trail(m, key, pid, fuel)|) == Route(m, key, pid, fuel)
    ensures forall i :: 0 <= i < |Trail(m, key, pid, fuel)| ==> Trail(m, key, pid, fuel)[i] < |m|
    decreases fuel
  {
    RouteStartsFull(m, key, pid, fuel);
    var s := Lookup(m[pid].value, key);
    if s.GoTo? {
      TrailFuel(m, key, s.pid, fuel - 1);
      var t := Trail(m, key, s.pid, fuel - 1);
      assert Trail(m, key, pid, fuel) == [pid] + t;
      assert Route(m, key, pid, |t| + 1) == Route(m, key, s.pid, |t|);
    }
  }

  /** The trail does not depend on the fuel, once there is enough of it. */
  lemma {:induction false} TrailSame(m: Mapping, key: Key, pid: PID, fuel: nat, fuel': nat)
    requires Route(m, key, pid, fuel).Reached? && Route(m, key, pid, fuel').Reached?
    ensures Trail(m, key, pid, fuel) == Trail(m, key, pid, fuel')
    decreases fuel
  {
    RouteStartsFull(m, key, pid, fuel);
    var s := Lookup(m[pid].value, key);
    if s.GoTo? {
      TrailSame(m, key, s.pid, fuel - 1, fuel' - 1);
    }
  }

  /** The part of a trail from its `i`-th page on is the trail from that page. */
  lemma {:induction false} TrailSuffix(m: Mapping, key: Key, pid: PID, fuel: nat, i: nat)
    requires Route(m, key, pid, fuel).Reached?
    requires i < |Trail(m, key, pid, fuel)|
    ensures i <= fuel
    ensures Route(m, key, Trail(m, key, pid, fuel)[i], fuel - i).Reached?
    ensures Trail(m, key, Trail(m, key, pid, fuel)[i], fuel - i) == Trail(m, key, pid, fuel)[i..]
    decreases i
  {
    TrailFuel(m, key, pid, fuel);
    if i > 0 {
      RouteStartsFull(m, key, pid, fuel);
      var s := Lookup(m[pid].value, key);
      var t := Trail(m, key, s.pid, fuel - 1);
      assert Trail(m, key, pid, fuel) == [pid] + t;
      TrailSuffix(m, key, s.pid, fuel - 1, i - 1);
      assert Trail(m, key, pid, fuel)[i..] == t[i - 1..];
    }
  }

  /** A route that arrives never passes the same page twice: it would go round that loop for ever. */
  lemma TrailDistinct(m: Mapping, key: Key, pid: PID, fuel: nat)
    requires Route(m, key, pid, fuel).Reached?
    ensures forall i, j :: 0 <= i < j < |Trail(m, key, pid, fuel)| ==>
      Trail(m, key, pid, fuel)[i] != Trail(m, key, pid, fuel)[j]
  {
    var t := Trail(m, key, pid, fuel);
    forall i, j | 0 <= i < j < |t| ensures t[i] != t[j] {
      TrailSuffix(m, key, pid, fuel, i);
      TrailSuffix(m, key, pid, fuel, j);
      if t[i] == t[j] {
        TrailSame(m, key, t[i], fuel - i, fuel - j);
      }
    }
  }

  function Elements(t: seq<PID>): set<PID>
  {
    set x | x in t
  }

  lemma {:induction false} ElementsOfDistinct(t: seq<PID>)
    requires forall i, j :: 0 <= i < j < |t| ==> t[i] != t[j]
    ensures |Elements(t)| == |t|
  {
    if t != [] {
      var rest := t[1..];
      assert forall i, j :: 0 <= i < j < |rest| ==> rest[i] != rest[j] by {
        forall i, j | 0 <= i < j < |rest| ensures rest[i] != rest[j] {
          assert rest[i] == t[i + 1] && rest[j] == t[j + 1];
        }
      }
      ElementsOfDistinct(rest);
      assert Elements(t) == {t[0]} + Elements(rest);
      assert t[0] !in Elements(rest) by {
        forall i | 0 <= i < |rest| ensures rest[i] != t[0] {
          assert rest[i] == t[i + 1];
        }
      }
    }
  }

  /** The PIDs below `n`. */
  function Below(n: nat): (b: set<PID>)
    ensures forall x: PID :: x in b <==> x < n
    ensures |b| == n
  {
    if n == 0 then {} else Below(n - 1) + {n - 1}
  }

  lemma {:induction false} SubsetSize(a: set<PID>, b: set<PID>)
    requires a <= b
    ensures |a| <= |b|
    decreases |b|
  {
    if b != {} {
      var y :| y in b;
      SubsetSize(a - {y}, b - {y});
    }
  }

  /** A route that arrives at all arrives within as many hops as the table has slots. */
  lemma RouteWithinTable(m: Mapping, key: Key, pid: PID, fuel: nat)
    requires Route(m, key, pid, fuel).Reached?
    ensures Route(m, key, pid, |m|) == Route(m, key, pid, fuel)
  {
    var t := Trail(m, key, pid, fuel);
    TrailFuel(m, key, pid, fuel);
    TrailDistinct(m, key, pid, fuel);
    ElementsOfDistinct(t);
    SubsetSize(Elements(t), Below(|m|));
    RouteMoreFuel(m, key, pid, |t|, |m| - |t|);
  }
}
