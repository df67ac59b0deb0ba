/** The relational graph adapter: `neighbors`, a layered breadth-first search, and `paths_between`, a queue-based
    one, over the table of typed edges. */
module Graph {
  import opened Domain

  datatype Edge = Edge(id: nat, workspace: nat, src: Node, edgeType: EdgeType, dst: Node)

  /** The WHERE conditions on edges besides the source node; no types given means all types. */
  datatype Filter = Filter(types: set<EdgeType>, workspace: Option<nat>)

  predicate Allowed(e: Edge, f: Filter) {
    && (f.types != {} ==> e.edgeType in f.types)
    && (f.workspace.Some? ==> e.workspace == f.workspace.value)
  }

  /** The rows whose source is one of `nodes`, in table order. */
  function Outgoing(table: seq<Edge>, f: Filter, nodes: set<Node>): seq<Edge> {
    if table == [] then []
    else
      var rest := Outgoing(table[..|table| - 1], f, nodes);
      var e := table[|table| - 1];
      if Allowed(e, f) && e.src in nodes then rest + [e] else rest
  }

  /** One query. A caller learns which rows it gets, not in what order the database returns them. */
  method SelectOutgoing(table: seq<Edge>, f: Filter, node: Node) returns (rows: seq<Edge>)
    ensures multiset(rows) == multiset(Outgoing(table, f, {node}))
  {
    rows := Outgoing(table, f, {node});
  }

  /** A query's rows are those of the node, of a type asked for if any is, and of the workspace asked for if one is;
      each as often as the table holds it. */
  lemma SelectedRows(table: seq<Edge>, f: Filter, node: Node, e: Edge)
    ensures multiset(Outgoing(table, f, {node}))[e]
            == if e.src == node && (f.types == {} || e.edgeType in f.types)
                  && (f.workspace == None || f.workspace == Some(e.workspace)) then multiset(table)[e] else 0
  {
    OutgoingCount(table, f, {node}, e);
  }

  // ------------------------------------------------- chains and distances

  /** `p` is a chain of allowed edges of the table from `a` to `b`. */
  ghost predicate Chain(table: seq<Edge>, f: Filter, p: seq<Edge>, a: Node, b: Node) {
    if p == [] then a == b
    else
      var e := p[|p| - 1];
      e in table && Allowed(e, f) && e.dst == b && Chain(table, f, p[..|p| - 1], a, e.src)
  }

  /** The nodes at most `k` allowed edges away from some seed. */
  ghost function Within(table: seq<Edge>, f: Filter, seeds: set<Node>, k: nat): set<Node> {
    if k == 0 then seeds
    else OneFurther(table, f, Within(table, f, seeds, k - 1))
  }

  /** The nodes of `near` and the targets of the allowed edges out of it. */
  ghost function OneFurther(table: seq<Edge>, f: Filter, near: set<Node>): set<Node> {
    if table == [] then near
    else
      var rest := OneFurther(table[..|table| - 1], f, near);
      var e := table[|table| - 1];
      if Allowed(e, f) && e.src in near then rest + {e.dst} else rest
  }

  lemma {:induction false} FurtherIff(table: seq<Edge>, f: Filter, near: set<Node>, n: Node)
    ensures n in OneFurther(table, f, near)
            <==> n in near || exists e :: e in table && Allowed(e, f) && e.src in near && e.dst == n
  {
    if table != [] {
      var init, last := table[..|table| - 1], table[|table| - 1];
      assert table == init + [last];
      FurtherIff(init, f, near, n);
    }
  }

  lemma {:induction false} WithinGrows(table: seq<Edge>, f: Filter, seeds: set<Node>, j: nat, k: nat)
    requires j <= k
    ensures Within(table, f, seeds, j) <= Within(table, f, seeds, k)
    decreases k
  {
    if j < k {
      WithinGrows(table, f, seeds, j, k - 1);
      forall n | n in Within(table, f, seeds, k - 1) ensures n in Within(table, f, seeds, k) {
        FurtherIff(table, f, Within(table, f, seeds, k - 1), n);
      }
    }
  }

  /** Once a round adds nothing, no later round does. */
  lemma {:induction false} WithinSaturates(table: seq<Edge>, f: Filter, seeds: set<Node>, j: nat, k: nat)
    requires j < k && Within(table, f, seeds, j + 1) == Within(table, f, seeds, j)
    ensures Within(table, f, seeds, k) == Within(table, f, seeds, j)
    decreases k
  {
    if j + 1 < k {
      WithinSaturates(table, f, seeds, j, k - 1);
    }
  }

  lemma {:induction false} ChainReaches(table: seq<Edge>, f: Filter, seeds: set<Node>, p: seq<Edge>, a: Node, b: Node)
    requires a in seeds && Chain(table, f, p, a, b)
    ensures b in Within(table, f, seeds, |p|)
  {
    if p != [] {
      ChainReaches(table, f, seeds, p[..|p| - 1], a, p[|p| - 1].src);
      FurtherIff(table, f, Within(table, f, seeds, |p| - 1), b);
    }
  }

  lemma {:induction false} ReachedByChain(table: seq<Edge>, f: Filter, seeds: set<Node>, k: nat, b: Node)
      returns (a: Node, p: seq<Edge>)
    requires b in Within(table, f, seeds, k)
    ensures a in seeds && |p| <= k && Chain(table, f, p, a, b)
  {
    if k == 0 {
      return b, [];
    }
    if b in Within(table, f, seeds, k - 1) {
      a, p := ReachedByChain(table, f, seeds, k - 1, b);
    } else {
      FurtherIff(table, f, Within(table, f, seeds, k - 1), b);
      var e :| e in table && Allowed(e, f) && e.src in Within(table, f, seeds, k - 1) && e.dst == b;
      a, p := ReachedByChain(table, f, seeds, k - 1, e.src);
      assert (p + [e])[..|p|] == p;
      p := p + [e];
    }
  }

  /** `Within` is exactly reachability by a chain of at most `k` edges. */
  lemma WithinIsReachability(table: seq<Edge>, f: Filter, seeds: set<Node>, k: nat, b: Node)
    ensures b in Within(table, f, seeds, k)
            <==> exists a, p :: a in seeds && |p| <= k && Chain(table, f, p, a, b)
  {
    if b in Within(table, f, seeds, k) {
      var a, p := ReachedByChain(table, f, seeds, k, b);
    }
    forall a, p | a in seeds && |p| <= k && Chain(table, f, p, a, b) ensures b in Within(table, f, seeds, k) {
      ChainReaches(table, f, seeds, p, a, b);
      WithinGrows(table, f, seeds, |p|, k);
    }
  }

  // ------------------------------------------------------------- neighbors

  lemma {:induction false} OutgoingMember(table: seq<Edge>, f: Filter, nodes: set<Node>, e: Edge)
    ensures e in multiset(Outgoing(table, f, nodes)) <==> e in table && Allowed(e, f) && e.src in nodes
    ensures e in Outgoing(table, f, nodes) <==> e in table && Allowed(e, f) && e.src in nodes
  {
    if table != [] {
      OutgoingMember(table[..|table| - 1], f, nodes, e);
    }
  }

  lemma {:induction false} OutgoingSplits(table: seq<Edge>, f: Filter, a: set<Node>, b: set<Node>)
    requires a !! b
    ensures multiset(Outgoing(table, f, a + b)) == multiset(Outgoing(table, f, a)) + multiset(Outgoing(table, f, b))
  {
    if table != [] {
      OutgoingSplits(table[..|table| - 1], f, a, b);
    }
  }

  lemma {:induction false} OutgoingNone(table: seq<Edge>, f: Filter)
    ensures Outgoing(table, f, {}) == []
  {
    if table != [] {
      OutgoingNone(table[..|table| - 1], f);
    }
  }

  /** Every row comes exactly as often as the table holds it. */
  lemma {:induction false} OutgoingCount(table: seq<Edge>, f: Filter, nodes: set<Node>, e: Edge)
    ensures multiset(Outgoing(table, f, nodes))[e] == if Allowed(e, f) && e.src in nodes then multiset(table)[e] else 0
  {
    if table != [] {
      OutgoingCount(table[..|table| - 1], f, nodes, e);
      assert table == table[..|table| - 1] + [table[|table| - 1]];
    }
  }

  /** Earlier rows start no farther from the seeds than later ones. */
  ghost predicate Layered(table: seq<Edge>, f: Filter, seeds: set<Node>, rows: seq<Edge>) {
    forall i, j, k: nat | 0 <= i < j < |rows| && rows[j].src in Within(table, f, seeds, k) ::
      rows[i].src in Within(table, f, seeds, k)
  }

  /** Exactly the allowed edges whose source is at distance less than `depth` from a seed, each as often as the
      table holds it, in non-decreasing distance of their sources. */
  ghost predicate IsNeighborhood(table: seq<Edge>, f: Filter, seeds: set<Node>, depth: int, rows: seq<Edge>) {
    CollectsExactly(table, f, seeds, depth, rows) && Layered(table, f, seeds, rows)
  }

  ghost predicate CollectsExactly(table: seq<Edge>, f: Filter, seeds: set<Node>, depth: int, rows: seq<Edge>) {
    forall e :: multiset(rows)[e] ==
      if depth > 0 && Allowed(e, f) && e.src in Within(table, f, seeds, depth - 1) then multiset(table)[e] else 0
  }

  /** What is collected is the edges of the table that qualify. */
  lemma CollectedIff(table: seq<Edge>, f: Filter, seeds: set<Node>, depth: int, rows: seq<Edge>, e: Edge)
    requires CollectsExactly(table, f, seeds, depth, rows)
    ensures e in rows <==> depth > 0 && e in table && Allowed(e, f) && e.src in Within(table, f, seeds, depth - 1)
  {
    assert e in rows <==> multiset(rows)[e] > 0;
    assert e in table <==> multiset(table)[e] > 0;
  }

  /** Rows of the current layer may follow rows of it and of earlier layers. */
  lemma LayerAppends(table: seq<Edge>, f: Filter, seeds: set<Node>, rows: seq<Edge>, more: seq<Edge>, k: nat)
    requires Layered(table, f, seeds, rows)
    requires forall e | e in rows + more :: e.src in Within(table, f, seeds, k)
    requires forall e | e in more :: k > 0 ==> e.src !in Within(table, f, seeds, k - 1)
    ensures Layered(table, f, seeds, rows + more)
  {
    var all := rows + more;
    forall i, j, m: nat | 0 <= i < j < |all| && all[j].src in Within(table, f, seeds, m)
      ensures all[i].src in Within(table, f, seeds, m)
    {
      if |rows| <= j {
        assert all[j] in more;
        if m < k {
          WithinGrows(table, f, seeds, m, k - 1);
          assert false;
        }
        WithinGrows(table, f, seeds, k, m);
        assert all[i] in all;
      }
    }
  }

  /** The nodes a layer discovers. */
  ghost function Targets(rows: seq<Edge>): set<Node> {
    set e | e in rows :: e.dst
  }

  /** The layer before layer `k`; empty before the first. */
  ghost function Before(table: seq<Edge>, f: Filter, seeds: set<Node>, k: nat): set<Node> {
    if k == 0 then {} else Within(table, f, seeds, k - 1)
  }

  /** `frontier` is layer `k`: the nodes at distance exactly `k`. */
  ghost predicate IsLayer(table: seq<Edge>, f: Filter, seeds: set<Node>, k: nat, frontier: set<Node>) {
    && frontier == Within(table, f, seeds, k) - Before(table, f, seeds, k)
    && Before(table, f, seeds, k) <= Within(table, f, seeds, k)
  }

  /** Between rounds: `k` layers were expanded and layer `k` is the frontier. */
  ghost predicate AtLayer(table: seq<Edge>, f: Filter, seeds: set<Node>, k: nat, frontier: set<Node>, seen: set<Node>,
                          collected: seq<Edge>) {
    && seen == Within(table, f, seeds, k)
    && IsLayer(table, f, seeds, k, frontier)
    && multiset(collected) == multiset(Outgoing(table, f, Before(table, f, seeds, k)))
    && Layered(table, f, seeds, collected)
  }

  /** Inside round `k`: the nodes `done` of the frontier were expanded. */
  ghost predicate InLayer(table: seq<Edge>, f: Filter, seeds: set<Node>, k: nat, done: set<Node>, seen: set<Node>,
                          collected: seq<Edge>) {
    && seen == Within(table, f, seeds, k) + Targets(Outgoing(table, f, done))
    && multiset(collected) == multiset(Outgoing(table, f, Before(table, f, seeds, k) + done))
    && Layered(table, f, seeds, collected)
  }

  method Neighbors(table: seq<Edge>, seeds: set<Node>, f: Filter, depth: int) returns (collected: seq<Edge>)
    ensures IsNeighborhood(table, f, seeds, depth, collected)
  {
    var frontier, seen := seeds, seeds;
    collected := [];
    var k: nat := 0;
    OutgoingNone(table, f);
    while k < depth && frontier != {}
      invariant k <= depth || k == 0
      invariant AtLayer(table, f, seeds, k, frontier, seen, collected)
      decreases depth - k
    {
      frontier, seen, collected := ExpandLayer(table, seeds, f, k, frontier, seen, collected);
      k := k + 1;
    }
    FinishNeighbors(table, f, seeds, depth, k, frontier, seen, collected);
  }

  /** One round of the search: the loop over the frontier, in any order. */
  method ExpandLayer(table: seq<Edge>, ghost seeds: set<Node>, f: Filter, ghost k: nat, frontier: set<Node>,
                     seen0: set<Node>, collected0: seq<Edge>)
      returns (next: set<Node>, seen: set<Node>, collected: seq<Edge>)
    requires AtLayer(table, f, seeds, k, frontier, seen0, collected0)
    ensures AtLayer(table, f, seeds, k + 1, next, seen, collected)
  {
    next, seen, collected := {}, seen0, collected0;
    var todo := frontier;
    ghost var done: set<Node> := {};
    EnterLayer(table, f, seeds, k, frontier, seen, collected);
    while todo != {}
      invariant done !! todo && done + todo == frontier
      invariant InLayer(table, f, seeds, k, done, seen, collected)
      invariant next == seen - Within(table, f, seeds, k)
      decreases |todo|
    {
      var node :| node in todo;
      next, seen, collected := VisitNode(table, seeds, f, k, frontier, done, node, next, seen, collected);
      todo, done := todo - {node}, done + {node};
    }
    assert done == done + todo;
    NextLayer(table, f, seeds, k, frontier, seen, collected);
  }

  /** One node of the frontier: its edges are collected and their unseen targets discovered. */
  method VisitNode(table: seq<Edge>, ghost seeds: set<Node>, f: Filter, ghost k: nat, ghost frontier: set<Node>,
                   ghost done: set<Node>, node: Node, next0: set<Node>, seen0: set<Node>, collected0: seq<Edge>)
      returns (next: set<Node>, seen: set<Node>, collected: seq<Edge>)
    requires IsLayer(table, f, seeds, k, frontier) && done <= frontier && node in frontier - done
    requires InLayer(table, f, seeds, k, done, seen0, collected0) && next0 == seen0 - Within(table, f, seeds, k)
    ensures InLayer(table, f, seeds, k, done + {node}, seen, collected) && next == seen - Within(table, f, seeds, k)
  {
    var rows := SelectOutgoing(table, f, node);
    next, seen := Discover(rows, next0, seen0);
    ExpandNode(table, f, seeds, k, frontier, done, node, seen0, collected0, rows);
    collected := collected0 + rows;
  }

  /** The loop over the edges of one node. */
  method Discover(rows: seq<Edge>, next0: set<Node>, seen0: set<Node>) returns (next: set<Node>, seen: set<Node>)
    ensures seen == seen0 + Targets(rows)
    ensures next == next0 + (seen - seen0)
  {
    next, seen := next0, seen0;
    for i := 0 to |rows|
      invariant seen == seen0 + Targets(rows[..i])
      invariant next == next0 + (seen - seen0)
    {
      var nodeKey := rows[i].dst;
      TargetsSnoc(rows, i);
      if nodeKey !in seen {
        next := next + {nodeKey};
        seen := seen + {nodeKey};
      }
    }
    assert rows[..|rows|] == rows;
  }

  lemma TargetsSnoc(rows: seq<Edge>, i: nat)
    requires i < |rows|
    ensures Targets(rows[..i + 1]) == Targets(rows[..i]) + {rows[i].dst}
  {
    assert rows[..i + 1] == rows[..i] + [rows[i]];
  }

  lemma EnterLayer(table: seq<Edge>, f: Filter, seeds: set<Node>, k: nat, frontier: set<Node>, seen: set<Node>,
                   collected: seq<Edge>)
    requires AtLayer(table, f, seeds, k, frontier, seen, collected)
    ensures InLayer(table, f, seeds, k, {}, seen, collected)
  {
    OutgoingNone(table, f);
    assert Before(table, f, seeds, k) + {} == Before(table, f, seeds, k);
  }

  lemma ExpandNode(table: seq<Edge>, f: Filter, seeds: set<Node>, k: nat, frontier: set<Node>, done: set<Node>,
                   node: Node, seen: set<Node>, collected: seq<Edge>, rows: seq<Edge>)
    requires IsLayer(table, f, seeds, k, frontier) && done <= frontier && node in frontier - done
    requires InLayer(table, f, seeds, k, done, seen, collected)
    requires multiset(rows) == multiset(Outgoing(table, f, {node}))
    ensures InLayer(table, f, seeds, k, done + {node}, seen + Targets(rows), collected + rows)
  {
    CollectRows(table, f, seeds, k, collected, rows, node, done);
    TargetsSplit(table, f, done, node, rows);
    assert Before(table, f, seeds, k) + (done + {node}) == Before(table, f, seeds, k) + done + {node};
  }

  lemma CollectRows(table: seq<Edge>, f: Filter, seeds: set<Node>, k: nat, collected: seq<Edge>, rows: seq<Edge>,
                    node: Node, done: set<Node>)
    requires multiset(rows) == multiset(Outgoing(table, f, {node}))
    requires node in Within(table, f, seeds, k) - Before(table, f, seeds, k) && node !in done
    requires done <= Within(table, f, seeds, k) && Before(table, f, seeds, k) <= Within(table, f, seeds, k)
    requires multiset(collected) == multiset(Outgoing(table, f, Before(table, f, seeds, k) + done))
    requires Layered(table, f, seeds, collected)
    ensures multiset(collected + rows) == multiset(Outgoing(table, f, Before(table, f, seeds, k) + done + {node}))
    ensures Layered(table, f, seeds, collected + rows)
  {
    var before := Before(table, f, seeds, k) + done;
    OutgoingSplits(table, f, before, {node});
    forall e | e in collected + rows
      ensures e.src in Within(table, f, seeds, k)
      ensures e in rows ==> e.src == node
    {
      if e in rows {
        assert e in multiset(rows);
        OutgoingMember(table, f, {node}, e);
      }
      if e in collected {
        assert e in multiset(collected);
        OutgoingMember(table, f, before, e);
      }
    }
    LayerAppends(table, f, seeds, collected, rows, k);
  }

  lemma TargetsSplit(table: seq<Edge>, f: Filter, done: set<Node>, node: Node, rows: seq<Edge>)
    requires multiset(rows) == multiset(Outgoing(table, f, {node}))
    ensures Targets(Outgoing(table, f, done + {node})) == Targets(Outgoing(table, f, done)) + Targets(rows)
  {
    forall e
      ensures e in Outgoing(table, f, done + {node}) <==> e in Outgoing(table, f, done) || e in rows
    {
      OutgoingMember(table, f, done + {node}, e);
      OutgoingMember(table, f, done, e);
      OutgoingMember(table, f, {node}, e);
      assert e in rows <==> e in multiset(rows);
    }
  }

  /** Expanding the newest layer alone reaches all that expanding everything would. */
  lemma NewestLayerSuffices(table: seq<Edge>, f: Filter, seeds: set<Node>, k: nat, frontier: set<Node>)
    requires frontier == Within(table, f, seeds, k) - Before(table, f, seeds, k)
    ensures Within(table, f, seeds, k) + Targets(Outgoing(table, f, frontier)) == Within(table, f, seeds, k + 1)
  {
    var near := Within(table, f, seeds, k);
    forall e ensures e in Outgoing(table, f, frontier) <==> e in table && Allowed(e, f) && e.src in frontier {
      OutgoingMember(table, f, frontier, e);
    }
    forall n ensures n in Within(table, f, seeds, k + 1) <==> n in near + Targets(Outgoing(table, f, frontier)) {
      FurtherIff(table, f, near, n);
      if e :| e in table && Allowed(e, f) && e.src in near && e.dst == n {
        if k > 0 && e.src !in frontier {
          FurtherIff(table, f, Within(table, f, seeds, k - 1), n);
        }
      }
    }
  }

  lemma NextLayer(table: seq<Edge>, f: Filter, seeds: set<Node>, k: nat, frontier: set<Node>, seen: set<Node>,
                  collected: seq<Edge>)
    requires IsLayer(table, f, seeds, k, frontier)
    requires InLayer(table, f, seeds, k, frontier, seen, collected)
    ensures AtLayer(table, f, seeds, k + 1, seen - Within(table, f, seeds, k), seen, collected)
  {
    NewestLayerSuffices(table, f, seeds, k, frontier);
    WithinGrows(table, f, seeds, k, k + 1);
    assert Before(table, f, seeds, k) + frontier == Within(table, f, seeds, k);
  }

  lemma FinishNeighbors(table: seq<Edge>, f: Filter, seeds: set<Node>, depth: int, k: nat, frontier: set<Node>,
                        seen: set<Node>, collected: seq<Edge>)
    requires k <= depth || k == 0
    requires k >= depth || frontier == {}
    requires AtLayer(table, f, seeds, k, frontier, seen, collected)
    ensures IsNeighborhood(table, f, seeds, depth, collected)
  {
    var expanded := Before(table, f, seeds, k);
    if depth > 0 {
      if k < depth {
        assert Within(table, f, seeds, k) == frontier + expanded == expanded;
        SaturatedEarly(table, f, seeds, depth, k);
      }
      assert expanded == Within(table, f, seeds, depth - 1);
    }
    forall e ensures multiset(collected)[e] ==
      if depth > 0 && Allowed(e, f) && e.src in Within(table, f, seeds, depth - 1) then multiset(table)[e] else 0
    {
      OutgoingCount(table, f, expanded, e);
    }
  }

  lemma SaturatedEarly(table: seq<Edge>, f: Filter, seeds: set<Node>, depth: int, k: nat)
    requires 0 <= k < depth && Within(table, f, seeds, k) == Before(table, f, seeds, k)
    ensures Before(table, f, seeds, k) == Within(table, f, seeds, depth - 1)
  {
    if k == 0 {
      NothingFromNowhere(table, f, depth - 1);
    } else {
      StaysSaturated(table, f, seeds, k - 1, depth - 1);
    }
  }

  lemma StaysSaturated(table: seq<Edge>, f: Filter, seeds: set<Node>, j: nat, k: nat)
    requires j <= k && Within(table, f, seeds, j + 1) == Within(table, f, seeds, j)
    ensures Within(table, f, seeds, k) == Within(table, f, seeds, j)
  {
    if j < k {
      WithinSaturates(table, f, seeds, j, k);
    }
  }

  lemma {:induction false} NothingFromNowhere(table: seq<Edge>, f: Filter, k: nat)
    ensures Within(table, f, {}, k) == {}
  {
    if k > 0 {
      NothingFromNowhere(table, f, k - 1);
      forall n ensures n !in Within(table, f, {}, k) {
        FurtherIff(table, f, {}, n);
      }
    }
  }

  // --------------------------------------------------------- paths_between

  /** A queue entry: a discovered node and the chain that led to it. */
  datatype Entry = Entry(node: Node, path: seq<Edge>)

  /** The shortest chain with at least one edge, if one of at most `maxDepth` edges exists; otherwise empty. */
  ghost predicate IsShortestPath(table: seq<Edge>, f: Filter, src: Node, dst: Node, maxDepth: int, path: seq<Edge>) {
    && (path != [] ==> Chain(table, f, path, src, dst) && |path| <= maxDepth)
    && (forall q: seq<Edge> | q != [] && Chain(table, f, q, src, dst) ::
          if path == [] then |q| > maxDepth else |path| <= |q|)
  }

  /** What is known of each discovered node: the length of the chain it was found by. Every edge out of an
      expanded node leads to a discovered node no more than one step deeper, and never to `dst`. */
  ghost predicate Explored(table: seq<Edge>, f: Filter, src: Node, dst: Node, depthOf: map<Node, nat>,
                           expanded: set<Node>) {
    && src in depthOf && depthOf[src] == 0
    && expanded <= depthOf.Keys
    && (forall e | e in table && Allowed(e, f) && e.src in expanded :: EdgeDone(dst, depthOf, e))
  }

  ghost predicate EdgeDone(dst: Node, depthOf: map<Node, nat>, e: Edge)
    requires e.src in depthOf
  {
    e.dst != dst && e.dst in depthOf && depthOf[e.dst] <= depthOf[e.src] + 1
  }

  /** Discovered nodes that were not expanded lie at depth `d` or deeper. */
  ghost predicate OpenFrom(depthOf: map<Node, nat>, expanded: set<Node>, d: int) {
    forall n | n in depthOf && n !in expanded :: depthOf[n] >= d
  }

  /** Then every chain of at most `d` edges ends in a discovered node, no deeper than its length, and one with an
      edge does not end in `dst`. */
  lemma {:induction false} NoShortChain(table: seq<Edge>, f: Filter, src: Node, dst: Node, depthOf: map<Node, nat>,
                                        expanded: set<Node>, d: int, q: seq<Edge>, n: Node)
    requires Explored(table, f, src, dst, depthOf, expanded) && OpenFrom(depthOf, expanded, d)
    requires Chain(table, f, q, src, n) && |q| <= d
    ensures n in depthOf && depthOf[n] <= |q|
    ensures q != [] ==> n != dst
  {
    if q != [] {
      var e := q[|q| - 1];
      NoShortChain(table, f, src, dst, depthOf, expanded, d, q[..|q| - 1], e.src);
      assert EdgeDone(dst, depthOf, e);
    }
  }

  /** The queue: entries hold chains to distinct discovered nodes not yet expanded, in non-decreasing length, the
      last at most one longer than the first, and no discovered node is deeper than one past the first. */
  ghost predicate Queue(table: seq<Edge>, f: Filter, src: Node, depthOf: map<Node, nat>, q: seq<Entry>) {
    && (forall i | 0 <= i < |q| :: Chain(table, f, q[i].path, src, q[i].node))
    && (forall i | 0 <= i < |q| :: q[i].node in depthOf && depthOf[q[i].node] == |q[i].path|)
    && (forall i, j | 0 <= i < j < |q| :: |q[i].path| <= |q[j].path| <= |q[i].path| + 1)
    && (q != [] ==> forall n | n in depthOf :: depthOf[n] <= |q[0].path| + 1)
  }

  ghost predicate Queued(q: seq<Entry>, n: Node) {
    exists i | 0 <= i < |q| :: q[i].node == n
  }

  /** A discovered node is expanded, waits in the queue, or was passed over at the depth limit. */
  ghost predicate Accounted(depthOf: map<Node, nat>, expanded: set<Node>, q: seq<Entry>, maxDepth: int) {
    forall n | n in depthOf && n !in expanded :: Queued(q, n) || depthOf[n] >= maxDepth
  }

  ghost function Universe(table: seq<Edge>, src: Node): set<Node> {
    {src} + Targets(table)
  }

  lemma OpenFromHead(table: seq<Edge>, f: Filter, src: Node, depthOf: map<Node, nat>, expanded: set<Node>,
                     q: seq<Entry>, maxDepth: int)
    requires q != [] && Queue(table, f, src, depthOf, q) && Accounted(depthOf, expanded, q, maxDepth)
    requires |q[0].path| < maxDepth
    ensures OpenFrom(depthOf, expanded, |q[0].path|)
  {
    forall n | n in depthOf && n !in expanded ensures depthOf[n] >= |q[0].path| {
      if Queued(q, n) {
        var i :| 0 <= i < |q| && q[i].node == n;
      }
    }
  }

  /** An edge of the node being expanded that hits `dst` closes a shortest chain. */
  lemma FoundShortest(table: seq<Edge>, f: Filter, src: Node, dst: Node, maxDepth: int, depthOf: map<Node, nat>,
                      expanded: set<Node>, path: seq<Edge>, e: Edge)
    requires Explored(table, f, src, dst, depthOf, expanded) && OpenFrom(depthOf, expanded, |path|)
    requires |path| < maxDepth && Chain(table, f, path, src, e.src)
    requires e in table && Allowed(e, f) && e.dst == dst
    ensures IsShortestPath(table, f, src, dst, maxDepth, path + [e])
  {
    assert (path + [e])[..|path|] == path;
    forall q: seq<Edge> | q != [] && Chain(table, f, q, src, dst) ensures |path + [e]| <= |q| {
      if |q| <= |path| {
        NoShortChain(table, f, src, dst, depthOf, expanded, |path|, q, dst);
      }
    }
  }

  lemma NoPath(table: seq<Edge>, f: Filter, src: Node, dst: Node, maxDepth: int, depthOf: map<Node, nat>,
               expanded: set<Node>)
    requires Explored(table, f, src, dst, depthOf, expanded) && Accounted(depthOf, expanded, [], maxDepth)
    ensures IsShortestPath(table, f, src, dst, maxDepth, [])
  {
    forall q: seq<Edge> | q != [] && Chain(table, f, q, src, dst) ensures |q| > maxDepth {
      if |q| <= maxDepth {
        assert OpenFrom(depthOf, expanded, maxDepth);
        NoShortChain(table, f, src, dst, depthOf, expanded, maxDepth, q, dst);
      }
    }
  }

  /** While `current` is being expanded: it stands in front of the queue, and its edges `rows` are done. */
  ghost predicate Expanding(table: seq<Edge>, f: Filter, src: Node, dst: Node, maxDepth: int, depthOf: map<Node, nat>,
                            expanded: set<Node>, current: Entry, frontier: seq<Entry>, rows: seq<Edge>) {
    && Explored(table, f, src, dst, depthOf, expanded)
    && Queue(table, f, src, depthOf, [current] + frontier)
    && Accounted(depthOf, expanded, [current] + frontier, maxDepth)
    && (forall e | e in rows :: e.src == current.node && EdgeDone(dst, depthOf, e))
  }

  lemma KnownTarget(table: seq<Edge>, f: Filter, src: Node, dst: Node, maxDepth: int, depthOf: map<Node, nat>,
                    expanded: set<Node>, current: Entry, frontier: seq<Entry>, rows: seq<Edge>, e: Edge)
    requires Expanding(table, f, src, dst, maxDepth, depthOf, expanded, current, frontier, rows)
    requires e.src == current.node && e.dst != dst && e.dst in depthOf
    ensures Expanding(table, f, src, dst, maxDepth, depthOf, expanded, current, frontier, rows + [e])
  {
    assert ([current] + frontier)[0] == current;
  }

  lemma QueueGrows(table: seq<Edge>, f: Filter, src: Node, depthOf: map<Node, nat>, current: Entry,
                   frontier: seq<Entry>, entry: Entry)
    requires Queue(table, f, src, depthOf, [current] + frontier) && entry.node !in depthOf
    requires Chain(table, f, entry.path, src, entry.node) && |entry.path| == |current.path| + 1
    ensures Queue(table, f, src, depthOf[entry.node := |entry.path|], [current] + (frontier + [entry]))
  {
    var q := [current] + frontier;
    var q' := [current] + (frontier + [entry]);
    assert q' == q + [entry] && q[0] == current;
  }

  lemma NewTarget(table: seq<Edge>, f: Filter, src: Node, dst: Node, maxDepth: int, depthOf: map<Node, nat>,
                  expanded: set<Node>, current: Entry, frontier: seq<Entry>, rows: seq<Edge>, e: Edge)
    requires Expanding(table, f, src, dst, maxDepth, depthOf, expanded, current, frontier, rows)
    requires e in table && Allowed(e, f) && e.src == current.node && e.dst != dst && e.dst !in depthOf
    ensures Expanding(table, f, src, dst, maxDepth, depthOf[e.dst := |current.path| + 1], expanded, current,
                      frontier + [Entry(e.dst, current.path + [e])], rows + [e])
  {
    var entry := Entry(e.dst, current.path + [e]);
    var q := [current] + frontier;
    assert q[0] == current;
    assert (current.path + [e])[..|current.path|] == current.path;
    QueueGrows(table, f, src, depthOf, current, frontier, entry);
    var q' := [current] + (frontier + [entry]);
    assert q'[|q|] == entry && forall i | 0 <= i < |q| :: q'[i] == q[i];
    forall n | Queued(q, n) ensures Queued(q', n) {
      var i :| 0 <= i < |q| && q[i].node == n;
      assert q'[i].node == n;
    }
    forall a | a in table && Allowed(a, f) && a.src in expanded
      ensures EdgeDone(dst, depthOf[e.dst := |current.path| + 1], a)
    {
      assert EdgeDone(dst, depthOf, a);
    }
  }

  /** The node is expanded once all its edges are done. */
  lemma CloseNode(table: seq<Edge>, f: Filter, src: Node, dst: Node, maxDepth: int, depthOf: map<Node, nat>,
                  expanded: set<Node>, current: Entry, frontier: seq<Entry>, rows: seq<Edge>)
    requires Expanding(table, f, src, dst, maxDepth, depthOf, expanded, current, frontier, rows)
    requires forall e | e in table && Allowed(e, f) && e.src == current.node :: e in rows
    ensures Explored(table, f, src, dst, depthOf, expanded + {current.node})
    ensures Queue(table, f, src, depthOf, frontier)
    ensures Accounted(depthOf, expanded + {current.node}, frontier, maxDepth)
  {
    PopQueue(table, f, src, depthOf, current, frontier);
    assert ([current] + frontier)[0] == current;
    forall n | n in depthOf && n !in expanded + {current.node} ensures Queued(frontier, n) || depthOf[n] >= maxDepth {
      if Queued([current] + frontier, n) {
        PopQueued(current, frontier, n);
      }
    }
  }

  lemma PopQueue(table: seq<Edge>, f: Filter, src: Node, depthOf: map<Node, nat>, current: Entry, frontier: seq<Entry>)
    requires Queue(table, f, src, depthOf, [current] + frontier)
    ensures Queue(table, f, src, depthOf, frontier)
  {
    var q := [current] + frontier;
    assert forall i | 0 <= i < |frontier| :: frontier[i] == q[i + 1];
    assert q[0] == current;
  }

  lemma PopQueued(current: Entry, frontier: seq<Entry>, n: Node)
    requires Queued([current] + frontier, n) && n != current.node
    ensures Queued(frontier, n)
  {
    var i :| 0 <= i < |frontier| + 1 && ([current] + frontier)[i].node == n;
    assert frontier[i - 1].node == n;
  }

  /** At the depth limit a node is dropped without looking at its edges. */
  lemma PassOver(table: seq<Edge>, f: Filter, src: Node, depthOf: map<Node, nat>, expanded: set<Node>, current: Entry,
                 frontier: seq<Entry>, maxDepth: int)
    requires Queue(table, f, src, depthOf, [current] + frontier)
    requires Accounted(depthOf, expanded, [current] + frontier, maxDepth) && |current.path| >= maxDepth
    ensures Queue(table, f, src, depthOf, frontier) && Accounted(depthOf, expanded, frontier, maxDepth)
  {
    PopQueue(table, f, src, depthOf, current, frontier);
    assert ([current] + frontier)[0] == current;
    forall n | n in depthOf && n !in expanded ensures Queued(frontier, n) || depthOf[n] >= maxDepth {
      if n != current.node && Queued([current] + frontier, n) {
        PopQueued(current, frontier, n);
      }
    }
  }

  method PathsBetween(table: seq<Edge>, src: Node, dst: Node, types: set<EdgeType>, maxDepth: int)
      returns (path: seq<Edge>)
    ensures IsShortestPath(table, Filter(types, None), src, dst, maxDepth, path)
  {
    var f := Filter(types, None);
    var frontier := [Entry(src, [])];
    var visited := {src};
    ghost var depthOf: map<Node, nat>, expanded: set<Node> := map[src := 0], {};
    assert frontier[0].node == src;
    while frontier != []
      invariant Explored(table, f, src, dst, depthOf, expanded)
      invariant Queue(table, f, src, depthOf, frontier)
      invariant Accounted(depthOf, expanded, frontier, maxDepth)
      invariant visited == depthOf.Keys && visited <= Universe(table, src)
      decreases Universe(table, src) - visited, |frontier|
    {
      var current := frontier[0];
      assert frontier == [current] + frontier[1..];
      frontier := frontier[1..];
      if |current.path| >= maxDepth {
        PassOver(table, f, src, depthOf, expanded, current, frontier, maxDepth);
        continue;
      }
      OpenFromHead(table, f, src, depthOf, expanded, [current] + frontier, maxDepth);
      path, frontier, visited, depthOf :=
        ExpandEntry(table, src, dst, f, maxDepth, current, frontier, visited, depthOf, expanded);
      if path != [] {
        return path;
      }
      expanded := expanded + {current.node};
    }
    NoPath(table, f, src, dst, maxDepth, depthOf, expanded);
    path := [];
  }

  /** The loop over the edges of one dequeued node: a shortest path as soon as an edge hits `dst`, otherwise the
      queue with the newly discovered nodes at its end. */
  method ExpandEntry(table: seq<Edge>, ghost src: Node, dst: Node, f: Filter, ghost maxDepth: int, current: Entry,
                     frontier0: seq<Entry>, visited0: set<Node>, ghost depthOf0: map<Node, nat>,
                     ghost expanded: set<Node>)
      returns (path: seq<Edge>, frontier: seq<Entry>, visited: set<Node>, ghost depthOf: map<Node, nat>)
    requires Expanding(table, f, src, dst, maxDepth, depthOf0, expanded, current, frontier0, [])
    requires OpenFrom(depthOf0, expanded, |current.path|) && |current.path| < maxDepth
    requires visited0 == depthOf0.Keys <= Universe(table, src)
    ensures path != [] ==> IsShortestPath(table, f, src, dst, maxDepth, path)
    ensures path == [] ==>
              && Explored(table, f, src, dst, depthOf, expanded + {current.node})
              && Queue(table, f, src, depthOf, frontier)
              && Accounted(depthOf, expanded + {current.node}, frontier, maxDepth)
    ensures visited0 <= visited == depthOf.Keys <= Universe(table, src)
    ensures visited == visited0 ==> |frontier| == |frontier0|
  {
    path, frontier, visited, depthOf := [], frontier0, visited0, depthOf0;
    var rows := SelectOutgoing(table, f, current.node);
    RowsOf(table, f, current.node, rows);
    HeadChain(table, f, src, depthOf, current, frontier);
    for i := 0 to |rows|
      invariant Expanding(table, f, src, dst, maxDepth, depthOf, expanded, current, frontier, rows[..i])
      invariant OpenFrom(depthOf, expanded, |current.path|)
      invariant visited0 <= visited == depthOf.Keys <= Universe(table, src)
      invariant visited == visited0 ==> |frontier| == |frontier0|
    {
      var edge := rows[i];
      assert edge in rows && rows[..i + 1] == rows[..i] + [edge];
      var newPath := current.path + [edge];
      if edge.dst == dst {
        FoundShortest(table, f, src, dst, maxDepth, depthOf, expanded, current.path, edge);
        path := newPath;
        return;
      }
      frontier, visited, depthOf :=
        Enqueue(table, src, dst, f, maxDepth, current, rows[..i], edge, newPath, frontier, visited, depthOf, expanded);
    }
    assert rows[..|rows|] == rows;
    CloseNode(table, f, src, dst, maxDepth, depthOf, expanded, current, frontier, rows);
  }

  /** The target of an edge joins the queue if it was not discovered before. */
  method Enqueue(table: seq<Edge>, ghost src: Node, ghost dst: Node, f: Filter, ghost maxDepth: int, current: Entry,
                 ghost done: seq<Edge>, edge: Edge, newPath: seq<Edge>, frontier0: seq<Entry>, visited0: set<Node>,
                 ghost depthOf0: map<Node, nat>, ghost expanded: set<Node>)
      returns (frontier: seq<Entry>, visited: set<Node>, ghost depthOf: map<Node, nat>)
    requires Expanding(table, f, src, dst, maxDepth, depthOf0, expanded, current, frontier0, done)
    requires OpenFrom(depthOf0, expanded, |current.path|) && visited0 == depthOf0.Keys <= Universe(table, src)
    requires edge in table && Allowed(edge, f) && edge.src == current.node && edge.dst != dst
    requires newPath == current.path + [edge]
    ensures Expanding(table, f, src, dst, maxDepth, depthOf, expanded, current, frontier, done + [edge])
    ensures OpenFrom(depthOf, expanded, |current.path|)
    ensures visited0 <= visited == depthOf.Keys <= Universe(table, src)
    ensures visited == visited0 ==> frontier == frontier0
  {
    frontier, visited, depthOf := frontier0, visited0, depthOf0;
    if edge.dst !in visited {
      NewTarget(table, f, src, dst, maxDepth, depthOf, expanded, current, frontier, done, edge);
      visited := visited + {edge.dst};
      depthOf := depthOf[edge.dst := |current.path| + 1];
      frontier := frontier + [Entry(edge.dst, newPath)];
    } else {
      KnownTarget(table, f, src, dst, maxDepth, depthOf, expanded, current, frontier, done, edge);
    }
  }

  lemma HeadChain(table: seq<Edge>, f: Filter, src: Node, depthOf: map<Node, nat>, current: Entry,
                  frontier: seq<Entry>)
    requires Queue(table, f, src, depthOf, [current] + frontier)
    ensures Chain(table, f, current.path, src, current.node)
  {
    assert ([current] + frontier)[0] == current;
  }

  lemma RowsOf(table: seq<Edge>, f: Filter, node: Node, rows: seq<Edge>)
    requires multiset(rows) == multiset(Outgoing(table, f, {node}))
    ensures forall e :: e in rows <==> e in table && Allowed(e, f) && e.src == node
  {
    forall e ensures e in rows <==> e in table && Allowed(e, f) && e.src == node {
      assert e in rows <==> e in multiset(rows);
      OutgoingMember(table, f, {node}, e);
    }
  }

  // ------------------------------------------------- the two searches agree

  /** The source of a collected edge is less than `depth` edges from the seed. */
  lemma CollectedByChain(table: seq<Edge>, f: Filter, seed: Node, depth: int, collected: seq<Edge>, e: Edge)
      returns (p: seq<Edge>)
    requires CollectsExactly(table, f, {seed}, depth, collected) && e in collected
    ensures |p| < depth && Chain(table, f, p, seed, e.src) && Chain(table, f, p + [e], seed, e.dst)
  {
    CollectedIff(table, f, {seed}, depth, collected, e);
    var a;
    a, p := ReachedByChain(table, f, {seed}, depth - 1, e.src);
    assert (p + [e])[..|p|] == p;
  }

  lemma LastEdgeCollected(table: seq<Edge>, f: Filter, seed: Node, depth: int, collected: seq<Edge>, p: seq<Edge>,
                          n: Node)
    requires CollectsExactly(table, f, {seed}, depth, collected)
    requires Chain(table, f, p, seed, n) && 0 < |p| <= depth
    ensures p[|p| - 1] in collected && p[|p| - 1].dst == n
  {
    var e := p[|p| - 1];
    ChainReaches(table, f, {seed}, p[..|p| - 1], seed, e.src);
    WithinGrows(table, f, {seed}, |p| - 1, depth - 1);
    CollectedIff(table, f, {seed}, depth, collected, e);
  }

  /** One seed, no workspace filter: the destinations of the collected edges are exactly the nodes to which the
      other search finds a path of at most that depth. The same holds of both endpoints except at the seed. */
  lemma SearchesAgree(table: seq<Edge>, types: set<EdgeType>, seed: Node, n: Node, depth: int, collected: seq<Edge>,
                      path: seq<Edge>)
    requires IsNeighborhood(table, Filter(types, None), {seed}, depth, collected)
    requires IsShortestPath(table, Filter(types, None), seed, n, depth, path)
    ensures (exists e :: e in collected && e.dst == n) <==> path != []
    ensures n != seed ==> ((exists e :: e in collected && (e.src == n || e.dst == n)) <==> path != [])
  {
    var f := Filter(types, None);
    if path != [] {
      LastEdgeCollected(table, f, seed, depth, collected, path, n);
    }
    forall e | e in collected ensures e.dst == n || (e.src == n && n != seed) ==> path != [] {
      var p := CollectedByChain(table, f, seed, depth, collected, e);
      if e.dst == n {
        assert p + [e] != [] && |p + [e]| <= depth;
      }
    }
  }

  /** At the seed the two agree on endpoints exactly when a cycle of at most `depth` edges goes through it or no allowed
      edge leaves it: as a source, the seed is an endpoint as soon as it has an allowed edge. */
  lemma AgreementAtSeed(table: seq<Edge>, types: set<EdgeType>, seed: Node, depth: int, collected: seq<Edge>,
                        path: seq<Edge>)
    requires IsNeighborhood(table, Filter(types, None), {seed}, depth, collected)
    requires IsShortestPath(table, Filter(types, None), seed, seed, depth, path)
    ensures ((exists e :: e in collected && (e.src == seed || e.dst == seed)) <==> path != [])
            <==> depth <= 0
                 || (exists q :: q != [] && |q| <= depth && Chain(table, Filter(types, None), q, seed, seed))
                 || forall e | e in table && Allowed(e, Filter(types, None)) :: e.src != seed
  {
    var f := Filter(types, None);
    if path != [] {
      LastEdgeCollected(table, f, seed, depth, collected, path, seed);
    }
    forall e | e in collected ensures e.dst == seed ==> path != [] {
      if e.dst == seed {
        var p := CollectedByChain(table, f, seed, depth, collected, e);
        assert p + [e] != [] && |p + [e]| <= depth;
      }
    }
    forall e ensures e in collected && e.src == seed <==> depth > 0 && e in table && Allowed(e, f) && e.src == seed {
      CollectedAtSeed(table, f, seed, depth, collected, e);
    }
  }

  lemma CollectedAtSeed(table: seq<Edge>, f: Filter, seed: Node, depth: int, collected: seq<Edge>, e: Edge)
    requires IsNeighborhood(table, f, {seed}, depth, collected)
    ensures e in collected && e.src == seed <==> depth > 0 && e in table && Allowed(e, f) && e.src == seed
  {
    CollectedIff(table, f, {seed}, depth, collected, e);
    if depth > 0 {
      WithinGrows(table, f, {seed}, 0, depth - 1);
    }
  }

  /** An instance: one edge out of the seed, and no way back. */
  lemma SeedWithoutCycle(seed: Node, e: Edge, collected: seq<Edge>, path: seq<Edge>)
    requires e.src == seed != e.dst
    requires IsNeighborhood([e], Filter({}, None), {seed}, 1, collected)
    requires IsShortestPath([e], Filter({}, None), seed, seed, 1, path)
    ensures e in collected && path == []
  {
    CollectedIff([e], Filter({}, None), {seed}, 1, collected, e);
  }
}
