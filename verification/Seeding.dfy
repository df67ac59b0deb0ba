/** `seed_graph`: load a seed pack's nodes and its three kinds of edges in one transaction. Edge types are already
    resolved, None standing for an unknown name. */
module Seeding {
  import opened Domain
  import opened Catalog
  import opened Pipeline

  /** A node with the slugs it requires and its suggested edges. */
  datatype Item = Item(node: SeedNode, prerequisites: seq<string>, suggested: seq<Suggestion>)

  datatype Suggestion = Suggestion(target: string, edgeType: Option<EdgeType>)

  /** A row of edges.csv. */
  datatype Row = Row(source: string, target: string, edgeType: Option<EdgeType>)

  datatype Pack = Pack(items: seq<Item>, rows: seq<Row>)

  /** An edge between two versions, by the columns the existence check compares. */
  datatype SeedEdge = SeedEdge(src: nat, edgeType: EdgeType, dst: nat)

  datatype Graph = Graph(db: State, edges: seq<SeedEdge>)

  // -------------------------------------------------------------------- nodes

  function SeedNodes(s: State, items: seq<Item>): State {
    if items == [] then s else Seed(SeedNodes(s, items[..|items| - 1]), items[|items| - 1].node)
  }

  /** The object with a slug; the number of objects if there is none. */
  function FindSlug(objects: seq<ContextObject>, slug: string): (o: nat)
    ensures o <= |objects|
    ensures o < |objects| ==> objects[o].slug == slug
    ensures forall i | 0 <= i < o :: objects[i].slug != slug
  {
    if objects == [] || objects[0].slug == slug then 0
    else
      var o := FindSlug(objects[1..], slug);
      assert forall i | 1 <= i < o + 1 :: objects[i] == objects[1..][i - 1];
      o + 1
  }

  function CurrentOf(s: State, slug: string): Option<nat> {
    var o := FindSlug(s.objects, slug);
    if o < |s.objects| then s.objects[o].current else None
  }

  function Slugs(items: seq<Item>): set<string> {
    set i | i in items :: i.node.slug
  }

  type SlugMap = map<string, Option<nat>>

  /** The pack's own slugs with their objects' current versions. */
  function NodeMap(s: State, items: seq<Item>): SlugMap {
    map slug | slug in Slugs(items) :: CurrentOf(s, slug)
  }

  function Referenced(rows: seq<Row>): set<string> {
    (set r | r in rows :: r.source) + (set r | r in rows :: r.target)
  }

  /** The slug map for the CSV rows: slugs from other packs are looked up among the stored objects. */
  function RowMap(s: State, items: seq<Item>, rows: seq<Row>): SlugMap {
    NodeMap(s, items) + map slug | slug in Referenced(rows) - Slugs(items) && SlugTaken(s, slug) :: CurrentOf(s, slug)
  }

  lemma {:induction false} SeedNodesTakes(s: State, items: seq<Item>, slug: string)
    ensures SlugTaken(s, slug) || slug in Slugs(items) ==> SlugTaken(SeedNodes(s, items), slug)
    ensures SlugTaken(s, slug) ==> CurrentOf(SeedNodes(s, items), slug) == CurrentOf(s, slug)
  {
    if items != [] {
      var n := |items| - 1;
      SeedNodesTakes(s, items[..n], slug);
      SeedTakes(SeedNodes(s, items[..n]), items[n].node, slug);
      assert items == items[..n] + [items[n]];
    }
  }

  /** Seeding a node makes its slug known and leaves known slugs as they were. */
  lemma SeedTakes(s: State, n: SeedNode, slug: string)
    ensures SlugTaken(Seed(s, n), n.slug)
    ensures SlugTaken(s, slug) ==> SlugTaken(Seed(s, n), slug) && CurrentOf(Seed(s, n), slug) == CurrentOf(s, slug)
  {
    var s' := Seed(s, n);
    if SlugTaken(s, slug) {
      var o := FindSlug(s.objects, slug);
      assert s'.objects[o] == s.objects[o];
      assert forall i | 0 <= i < o :: s'.objects[i] == s.objects[i];
    }
    if !SlugTaken(s, n.slug) {
      assert s'.objects[|s.objects|].slug == n.slug;
    }
  }

  lemma {:induction false} SeedNodesAgain(s: State, items: seq<Item>)
    requires forall slug | slug in Slugs(items) :: SlugTaken(s, slug)
    ensures SeedNodes(s, items) == s
  {
    if items != [] {
      var n := |items| - 1;
      assert items == items[..n] + [items[n]];
      assert Slugs(items[..n]) <= Slugs(items) && items[n].node.slug in Slugs(items);
      SeedNodesAgain(s, items[..n]);
    }
  }

  // -------------------------------------------------------------------- edges

  /** Both ends known and with a current version, and the edge type known: the edge to look for. */
  function Resolve(m: SlugMap, src: string, edgeType: Option<EdgeType>, dst: string): seq<SeedEdge> {
    if src in m && dst in m && m[src].Some? && m[dst].Some? && edgeType.Some?
    then [SeedEdge(m[src].value, edgeType.value, m[dst].value)]
    else []
  }

  /** The prerequisite points to the dependant. */
  function FromPrerequisites(m: SlugMap, dependant: string, prerequisites: seq<string>): seq<SeedEdge> {
    if prerequisites == [] then []
    else
      var n := |prerequisites| - 1;
      FromPrerequisites(m, dependant, prerequisites[..n])
      + Resolve(m, prerequisites[n], Some(PREREQUISITE_FOR), dependant)
  }

  function FromSuggestions(m: SlugMap, src: string, suggested: seq<Suggestion>): seq<SeedEdge> {
    if suggested == [] then []
    else
      var n := |suggested| - 1;
      FromSuggestions(m, src, suggested[..n]) + Resolve(m, src, suggested[n].edgeType, suggested[n].target)
  }

  function AllPrerequisites(m: SlugMap, items: seq<Item>): seq<SeedEdge> {
    if items == [] then []
    else
      var n := |items| - 1;
      AllPrerequisites(m, items[..n]) + FromPrerequisites(m, items[n].node.slug, items[n].prerequisites)
  }

  function AllSuggestions(m: SlugMap, items: seq<Item>): seq<SeedEdge> {
    if items == [] then []
    else
      var n := |items| - 1;
      AllSuggestions(m, items[..n]) + FromSuggestions(m, items[n].node.slug, items[n].suggested)
  }

  function FromRows(m: SlugMap, rows: seq<Row>): seq<SeedEdge> {
    if rows == [] then []
    else
      var n := |rows| - 1;
      FromRows(m, rows[..n]) + Resolve(m, rows[n].source, rows[n].edgeType, rows[n].target)
  }

  /** Every edge a pack asks for, in the order of the three loops, repeats included. */
  function Wanted(s: State, pack: Pack): seq<SeedEdge> {
    AllPrerequisites(NodeMap(s, pack.items), pack.items)
    + AllSuggestions(NodeMap(s, pack.items), pack.items)
    + FromRows(RowMap(s, pack.items, pack.rows), pack.rows)
  }

  /** Insert an edge unless it exists. The existence check raises when it finds more than one row. */
  function AddEdge(edges: seq<SeedEdge>, e: SeedEdge): Result<seq<SeedEdge>> {
    if multiset(edges)[e] > 1 then Err(MultipleRows)
    else if e in edges then Ok(edges)
    else Ok(edges + [e])
  }

  function AddEdges(edges: seq<SeedEdge>, wanted: seq<SeedEdge>): Result<seq<SeedEdge>> {
    if wanted == [] then Ok(edges)
    else
      var r := AddEdges(edges, wanted[..|wanted| - 1]);
      if r.Err? then r else AddEdge(r.value, wanted[|wanted| - 1])
  }

  /** The whole transaction: an error leaves the graph as it was. */
  function SeedGraph(g: Graph, pack: Pack): Result<Graph> {
    var db := SeedNodes(g.db, pack.items);
    var edges := AddEdges(g.edges, Wanted(db, pack));
    if edges.Err? then Err(edges.error) else Ok(Graph(db, edges.value))
  }

  lemma {:induction false} AddEdgesConcat(edges: seq<SeedEdge>, a: seq<SeedEdge>, b: seq<SeedEdge>)
    ensures AddEdges(edges, a + b)
            == var r := AddEdges(edges, a); if r.Err? then r else AddEdges(r.value, b)
  {
    if b == [] {
      assert a + b == a;
    } else {
      var n := |b| - 1;
      assert (a + b)[..|a| + n] == a + b[..n] && (a + b)[|a| + n] == b[n];
      AddEdgesConcat(edges, a, b[..n]);
    }
  }

  // ------------------------------------------------------------------ the loader

  /** Look for the edge of one reference and insert it if it is new. */
  method EnsureEdge(edges: seq<SeedEdge>, m: SlugMap, src: string, edgeType: Option<EdgeType>, dst: string)
      returns (r: Result<seq<SeedEdge>>)
    ensures r == AddEdges(edges, Resolve(m, src, edgeType, dst))
  {
    if src !in m || dst !in m {
      return Ok(edges);
    }
    if m[src].None? || m[dst].None? {
      return Ok(edges);
    }
    if edgeType.None? {
      return Ok(edges);
    }
    var e := SeedEdge(m[src].value, edgeType.value, m[dst].value);
    assert [e][..0] == [];
    if multiset(edges)[e] > 1 {
      return Err(MultipleRows);
    }
    if e in edges {
      return Ok(edges);
    }
    r := Ok(edges + [e]);
  }

  /** What `AddEdges` makes of more wanted edges: nothing, once the transaction has failed. */
  ghost function Then(r: Result<seq<SeedEdge>>, wanted: seq<SeedEdge>): Result<seq<SeedEdge>> {
    if r.Err? then r else AddEdges(r.value, wanted)
  }

  lemma ThenThen(r: Result<seq<SeedEdge>>, a: seq<SeedEdge>, b: seq<SeedEdge>)
    ensures Then(r, a + b) == Then(Then(r, a), b)
  {
    if r.Ok? {
      AddEdgesConcat(r.value, a, b);
    }
  }

  /** The same inside the transaction: an exception ends it. */
  method EnsureInto(r0: Result<seq<SeedEdge>>, m: SlugMap, src: string, edgeType: Option<EdgeType>, dst: string)
      returns (r: Result<seq<SeedEdge>>)
    ensures r == Then(r0, Resolve(m, src, edgeType, dst))
  {
    r := r0;
    if r.Ok? {
      r := EnsureEdge(r.value, m, src, edgeType, dst);
    }
  }

  method InsertPrerequisitesOf(r0: Result<seq<SeedEdge>>, m: SlugMap, item: Item) returns (r: Result<seq<SeedEdge>>)
    ensures r == Then(r0, FromPrerequisites(m, item.node.slug, item.prerequisites))
  {
    r := r0;
    ghost var all := item.prerequisites;
    for k := 0 to |item.prerequisites|
      invariant r == Then(r0, FromPrerequisites(m, item.node.slug, all[..k]))
    {
      assert all[..k + 1][..k] == all[..k];
      ThenThen(r0, FromPrerequisites(m, item.node.slug, all[..k]),
               Resolve(m, all[k], Some(PREREQUISITE_FOR), item.node.slug));
      r := EnsureInto(r, m, item.prerequisites[k], Some(PREREQUISITE_FOR), item.node.slug);
    }
    assert all[..|all|] == all;
  }

  method InsertSuggestionsOf(r0: Result<seq<SeedEdge>>, m: SlugMap, item: Item) returns (r: Result<seq<SeedEdge>>)
    ensures r == Then(r0, FromSuggestions(m, item.node.slug, item.suggested))
  {
    r := r0;
    ghost var all := item.suggested;
    for k := 0 to |item.suggested|
      invariant r == Then(r0, FromSuggestions(m, item.node.slug, all[..k]))
    {
      assert all[..k + 1][..k] == all[..k];
      ThenThen(r0, FromSuggestions(m, item.node.slug, all[..k]),
               Resolve(m, item.node.slug, all[k].edgeType, all[k].target));
      r := EnsureInto(r, m, item.node.slug, item.suggested[k].edgeType, item.suggested[k].target);
    }
    assert all[..|all|] == all;
  }

  method InsertRows(r0: Result<seq<SeedEdge>>, m: SlugMap, rows: seq<Row>) returns (r: Result<seq<SeedEdge>>)
    ensures r == Then(r0, FromRows(m, rows))
  {
    r := r0;
    for k := 0 to |rows|
      invariant r == Then(r0, FromRows(m, rows[..k]))
    {
      assert rows[..k + 1][..k] == rows[..k];
      ThenThen(r0, FromRows(m, rows[..k]), Resolve(m, rows[k].source, rows[k].edgeType, rows[k].target));
      r := EnsureInto(r, m, rows[k].source, rows[k].edgeType, rows[k].target);
    }
    assert rows[..|rows|] == rows;
  }

  /** The node loop: insert unknown nodes, and note every node's current version. */
  method LoadNodes(s: State, items: seq<Item>) returns (db: State, m: SlugMap)
    ensures db == SeedNodes(s, items) && m == NodeMap(db, items)
  {
    db, m := s, map[];
    for i := 0 to |items|
      invariant db == SeedNodes(s, items[..i]) && m == NodeMap(db, items[..i])
    {
      var node := items[i].node;
      ghost var before := db;
      assert items[..i + 1][..i] == items[..i];
      if SlugTaken(db, node.slug) {
        m := m[node.slug := CurrentOf(db, node.slug)];
      } else {
        var held := HeldForReview(node);
        var v := |db.versions|;
        var lifecycle := if held then IN_REVIEW else node.lifecycle;
        db := db.(versions := db.versions + [Version(|db.objects|, node.paragraphs, node.risk,
                                                     node.hasSafety, CURRENT)]);
        db := db.(objects := db.objects + [ContextObject(node.slug, node.coType, Some(v), lifecycle)]);
        if !held {
          db := db.(outbox := db.outbox + [Event(VERSION_PUBLISHED, v, false)]);
        }
        m := m[node.slug := Some(v)];
      }
      NodeMapGrows(s, items, i);
    }
    assert items[..|items|] == items;
  }

  lemma NodeMapGrows(s: State, items: seq<Item>, i: nat)
    requires i < |items|
    ensures var before, after := SeedNodes(s, items[..i]), SeedNodes(s, items[..i + 1]);
            var slug := items[i].node.slug;
            && NodeMap(after, items[..i + 1]) == NodeMap(before, items[..i])[slug := CurrentOf(after, slug)]
            && (SlugTaken(before, slug) ==> after == before)
            && (!SlugTaken(before, slug) ==> CurrentOf(after, slug) == Some(|before.versions|))
  {
    var before, node := SeedNodes(s, items[..i]), items[i].node;
    assert items[..i + 1][..i] == items[..i];
    assert items[..i + 1] == items[..i] + [items[i]];
    assert Slugs(items[..i + 1]) == Slugs(items[..i]) + {node.slug};
    forall slug | slug in Slugs(items[..i])
      ensures CurrentOf(SeedNodes(s, items[..i + 1]), slug) == CurrentOf(before, slug)
    {
      SeedNodesTakes(s, items[..i], slug);
      SeedTakes(before, node, slug);
    }
    if !SlugTaken(before, node.slug) {
      NewObjectFound(before, node);
    }
  }

  lemma NewObjectFound(s: State, n: SeedNode)
    requires !SlugTaken(s, n.slug)
    ensures CurrentOf(Seed(s, n), n.slug) == Some(|s.versions|)
  {
    var s' := Seed(s, n);
    assert s'.objects[|s.objects|].slug == n.slug;
    assert FindSlug(s'.objects, n.slug) >= |s.objects|;
  }

  method InsertPrerequisites(r0: Result<seq<SeedEdge>>, m: SlugMap, items: seq<Item>) returns (r: Result<seq<SeedEdge>>)
    ensures r == Then(r0, AllPrerequisites(m, items))
  {
    r := r0;
    for i := 0 to |items|
      invariant r == Then(r0, AllPrerequisites(m, items[..i]))
    {
      assert items[..i + 1][..i] == items[..i];
      ThenThen(r0, AllPrerequisites(m, items[..i]), FromPrerequisites(m, items[i].node.slug, items[i].prerequisites));
      r := InsertPrerequisitesOf(r, m, items[i]);
    }
    assert items[..|items|] == items;
  }

  method InsertSuggestions(r0: Result<seq<SeedEdge>>, m: SlugMap, items: seq<Item>) returns (r: Result<seq<SeedEdge>>)
    ensures r == Then(r0, AllSuggestions(m, items))
  {
    r := r0;
    for i := 0 to |items|
      invariant r == Then(r0, AllSuggestions(m, items[..i]))
    {
      assert items[..i + 1][..i] == items[..i];
      ThenThen(r0, AllSuggestions(m, items[..i]), FromSuggestions(m, items[i].node.slug, items[i].suggested));
      r := InsertSuggestionsOf(r, m, items[i]);
    }
    assert items[..|items|] == items;
  }

  lemma InThatOrder(edges: seq<SeedEdge>, a: seq<SeedEdge>, b: seq<SeedEdge>, c: seq<SeedEdge>)
    ensures Then(Then(Then(Ok(edges), a), b), c) == AddEdges(edges, a + b + c)
  {
    ThenThen(Ok(edges), a, b);
    ThenThen(Ok(edges), a + b, c);
  }

  /** Load a pack. The graph is worked on in one transaction; only a commit shows. */
  method Load(g: Graph, pack: Pack) returns (r: Result<Graph>)
    ensures r == SeedGraph(g, pack)
  {
    var db, m := LoadNodes(g.db, pack.items);
    var edges := InsertPrerequisites(Ok(g.edges), m, pack.items);
    edges := InsertSuggestions(edges, m, pack.items);
    var unresolved := Referenced(pack.rows) - m.Keys;
    var rowMap := m + map slug | slug in unresolved && SlugTaken(db, slug) :: CurrentOf(db, slug);
    edges := InsertRows(edges, rowMap, pack.rows);
    assert rowMap == RowMap(db, pack.items, pack.rows) by {
      assert m.Keys == Slugs(pack.items);
    }
    InThatOrder(g.edges, AllPrerequisites(m, pack.items), AllSuggestions(m, pack.items), FromRows(rowMap, pack.rows));
    r := if edges.Err? then Err(edges.error) else Ok(Graph(db, edges.value));
  }

  // ---------------------------------------------------------------- properties

  ghost predicate NoDuplicates(edges: seq<SeedEdge>) {
    forall e :: multiset(edges)[e] <= 1
  }

  /** From a graph without duplicate edges the existence checks never fail; the result has no duplicates, and its
      edges are the old ones and the wanted ones. */
  lemma {:induction false} AddEdgesSucceeds(edges: seq<SeedEdge>, wanted: seq<SeedEdge>)
    requires NoDuplicates(edges)
    ensures var r := AddEdges(edges, wanted);
            && r.Ok? && NoDuplicates(r.value) && edges <= r.value
            && (forall e :: e in r.value <==> e in edges || e in wanted)
  {
    if wanted != [] {
      var init, e := wanted[..|wanted| - 1], wanted[|wanted| - 1];
      AddEdgesSucceeds(edges, init);
      assert wanted == init + [e];
      var mid := AddEdges(edges, init).value;
      assert e !in mid ==> multiset(mid)[e] == 0;
    }
  }

  /** The transaction fails exactly when an edge is wanted that the graph holds more than once. */
  lemma {:induction false} AddEdgesFailsIff(edges: seq<SeedEdge>, wanted: seq<SeedEdge>)
    ensures AddEdges(edges, wanted).Err? <==> exists e :: e in wanted && multiset(edges)[e] > 1
    ensures var r := AddEdges(edges, wanted);
            r.Ok? ==> forall e :: multiset(r.value)[e] == if e in wanted && e !in edges then 1 else multiset(edges)[e]
  {
    if wanted != [] {
      var init, last := wanted[..|wanted| - 1], wanted[|wanted| - 1];
      AddEdgesFailsIff(edges, init);
      assert wanted == init + [last];
    }
  }

  /** After a successful transaction every wanted edge is there once. */
  lemma {:induction false} WantedOnce(edges: seq<SeedEdge>, wanted: seq<SeedEdge>)
    requires AddEdges(edges, wanted).Ok?
    ensures var r := AddEdges(edges, wanted).value;
            && (forall e | e in wanted :: multiset(r)[e] == 1)
            && (forall e :: multiset(edges)[e] <= multiset(r)[e])
  {
    if wanted != [] {
      var init, e := wanted[..|wanted| - 1], wanted[|wanted| - 1];
      WantedOnce(edges, init);
      assert wanted == init + [e];
      var mid := AddEdges(edges, init).value;
      assert e !in mid ==> multiset(mid)[e] == 0;
      assert e in mid ==> multiset(mid)[e] > 0;
    }
  }

  lemma {:induction false} AddEdgesAgain(edges: seq<SeedEdge>, wanted: seq<SeedEdge>)
    requires forall e | e in wanted :: multiset(edges)[e] == 1
    ensures AddEdges(edges, wanted) == Ok(edges)
  {
    if wanted != [] {
      var init, e := wanted[..|wanted| - 1], wanted[|wanted| - 1];
      assert forall e | e in init :: e in wanted;
      AddEdgesAgain(edges, init);
      assert e in wanted && e in multiset(edges);
    }
  }

  /** Loading a pack into a graph without duplicate edges succeeds, duplicates none, loses none, and adds exactly the
      edges the pack asks for, however often it asks. */
  lemma SeedAddsWantedEdges(g: Graph, pack: Pack)
    requires NoDuplicates(g.edges)
    ensures var r := SeedGraph(g, pack);
            && r.Ok? && NoDuplicates(r.value.edges) && g.edges <= r.value.edges
            && (forall e :: e in r.value.edges <==> e in g.edges || e in Wanted(r.value.db, pack))
  {
    AddEdgesSucceeds(g.edges, Wanted(SeedNodes(g.db, pack.items), pack));
  }

  /** Loading a pack into any graph fails if and only if the pack asks for an edge that the graph holds more than
      once. */
  lemma SeedFailsIff(g: Graph, pack: Pack)
    ensures SeedGraph(g, pack).Err?
            <==> exists e :: e in Wanted(SeedNodes(g.db, pack.items), pack) && multiset(g.edges)[e] > 1
  {
    AddEdgesFailsIff(g.edges, Wanted(SeedNodes(g.db, pack.items), pack));
  }

  lemma {:induction false} PrerequisiteWanted(m: SlugMap, items: seq<Item>, i: nat, k: nat)
    requires i < |items| && k < |items[i].prerequisites|
    ensures forall e | e in Resolve(m, items[i].prerequisites[k], Some(PREREQUISITE_FOR), items[i].node.slug) ::
              e in AllPrerequisites(m, items)
  {
    var n := |items| - 1;
    if i < n {
      PrerequisiteWanted(m, items[..n], i, k);
    } else {
      PrerequisiteWantedOf(m, items[n].node.slug, items[n].prerequisites, k);
    }
  }

  lemma {:induction false} PrerequisiteWantedOf(m: SlugMap, dependant: string, prerequisites: seq<string>, k: nat)
    requires k < |prerequisites|
    ensures forall e | e in Resolve(m, prerequisites[k], Some(PREREQUISITE_FOR), dependant) ::
              e in FromPrerequisites(m, dependant, prerequisites)
  {
    if k < |prerequisites| - 1 {
      PrerequisiteWantedOf(m, dependant, prerequisites[..|prerequisites| - 1], k);
    }
  }

  /** "A requires B", both nodes of the pack with a current version, ends up as an edge from B's version to A's. */
  lemma RequirementPointsToDependant(g: Graph, pack: Pack, i: nat, k: nat)
    requires NoDuplicates(g.edges) && i < |pack.items| && k < |pack.items[i].prerequisites|
    requires pack.items[i].prerequisites[k] in Slugs(pack.items)
    ensures var r := SeedGraph(g, pack);
            && r.Ok?
            && var a, b := CurrentOf(r.value.db, pack.items[i].node.slug),
                           CurrentOf(r.value.db, pack.items[i].prerequisites[k]);
               a.Some? && b.Some? ==> SeedEdge(b.value, PREREQUISITE_FOR, a.value) in r.value.edges
  {
    SeedAddsWantedEdges(g, pack);
    var db := SeedNodes(g.db, pack.items);
    PrerequisiteWanted(NodeMap(db, pack.items), pack.items, i, k);
  }

  // Which edges a pack asks for, read off the pack.

  /** "A requires B" for two nodes of the pack: an edge from B's current version to A's. */
  ghost predicate Required(db: State, items: seq<Item>, e: SeedEdge) {
    exists i | 0 <= i < |items| :: RequiredBy(db, items, i, e)
  }

  ghost predicate RequiredBy(db: State, items: seq<Item>, i: nat, e: SeedEdge)
    requires i < |items|
  {
    exists k | 0 <= k < |items[i].prerequisites| ::
      && items[i].prerequisites[k] in Slugs(items) && e.edgeType == PREREQUISITE_FOR
      && CurrentOf(db, items[i].prerequisites[k]) == Some(e.src) && CurrentOf(db, items[i].node.slug) == Some(e.dst)
  }

  /** "A suggests B as t" for two nodes of the pack and a known type: an edge of type t from A's current version to
      B's. */
  ghost predicate Suggested(db: State, items: seq<Item>, e: SeedEdge) {
    exists i | 0 <= i < |items| :: SuggestedBy(db, items, i, e)
  }

  ghost predicate SuggestedBy(db: State, items: seq<Item>, i: nat, e: SeedEdge)
    requires i < |items|
  {
    exists k | 0 <= k < |items[i].suggested| ::
      && items[i].suggested[k].target in Slugs(items) && items[i].suggested[k].edgeType == Some(e.edgeType)
      && CurrentOf(db, items[i].node.slug) == Some(e.src) && CurrentOf(db, items[i].suggested[k].target) == Some(e.dst)
  }

  /** A row (s, t, d) of a known type: an edge of type t from s's current version to d's, of this pack or another. */
  ghost predicate Listed(db: State, rows: seq<Row>, e: SeedEdge) {
    exists k | 0 <= k < |rows| ::
      && rows[k].edgeType == Some(e.edgeType)
      && CurrentOf(db, rows[k].source) == Some(e.src) && CurrentOf(db, rows[k].target) == Some(e.dst)
  }

  lemma {:induction false} PrerequisitesAre(m: SlugMap, dependant: string, prerequisites: seq<string>, e: SeedEdge)
    ensures e in FromPrerequisites(m, dependant, prerequisites)
            <==> exists k | 0 <= k < |prerequisites| ::
                   e in Resolve(m, prerequisites[k], Some(PREREQUISITE_FOR), dependant)
  {
    if prerequisites != [] {
      var n := |prerequisites| - 1;
      PrerequisitesAre(m, dependant, prerequisites[..n], e);
      assert prerequisites == prerequisites[..n] + [prerequisites[n]];
    }
  }

  lemma {:induction false} AllPrerequisitesAre(m: SlugMap, items: seq<Item>, e: SeedEdge)
    ensures e in AllPrerequisites(m, items)
            <==> exists i | 0 <= i < |items| :: e in FromPrerequisites(m, items[i].node.slug, items[i].prerequisites)
  {
    if items != [] {
      var n := |items| - 1;
      AllPrerequisitesAre(m, items[..n], e);
      assert items == items[..n] + [items[n]];
    }
  }

  lemma {:induction false} SuggestionsAre(m: SlugMap, src: string, suggested: seq<Suggestion>, e: SeedEdge)
    ensures e in FromSuggestions(m, src, suggested)
            <==> exists k | 0 <= k < |suggested| :: e in Resolve(m, src, suggested[k].edgeType, suggested[k].target)
  {
    if suggested != [] {
      var n := |suggested| - 1;
      SuggestionsAre(m, src, suggested[..n], e);
      assert suggested == suggested[..n] + [suggested[n]];
    }
  }

  lemma {:induction false} AllSuggestionsAre(m: SlugMap, items: seq<Item>, e: SeedEdge)
    ensures e in AllSuggestions(m, items)
            <==> exists i | 0 <= i < |items| :: e in FromSuggestions(m, items[i].node.slug, items[i].suggested)
  {
    if items != [] {
      var n := |items| - 1;
      AllSuggestionsAre(m, items[..n], e);
      assert items == items[..n] + [items[n]];
    }
  }

  lemma {:induction false} RowsAre(m: SlugMap, rows: seq<Row>, e: SeedEdge)
    ensures e in FromRows(m, rows)
            <==> exists k | 0 <= k < |rows| :: e in Resolve(m, rows[k].source, rows[k].edgeType, rows[k].target)
  {
    if rows != [] {
      var n := |rows| - 1;
      RowsAre(m, rows[..n], e);
      assert rows == rows[..n] + [rows[n]];
    }
  }

  lemma RequiredByIff(db: State, items: seq<Item>, i: nat, e: SeedEdge)
    requires i < |items|
    ensures e in FromPrerequisites(NodeMap(db, items), items[i].node.slug, items[i].prerequisites)
            <==> RequiredBy(db, items, i, e)
  {
    var m, item := NodeMap(db, items), items[i];
    assert item in items;
    PrerequisitesAre(m, item.node.slug, item.prerequisites, e);
    forall k | 0 <= k < |item.prerequisites|
      ensures e in Resolve(m, item.prerequisites[k], Some(PREREQUISITE_FOR), item.node.slug)
              <==> item.prerequisites[k] in Slugs(items) && e.edgeType == PREREQUISITE_FOR
                   && CurrentOf(db, item.prerequisites[k]) == Some(e.src)
                   && CurrentOf(db, item.node.slug) == Some(e.dst)
    {
    }
  }

  lemma RequiredIff(db: State, items: seq<Item>, e: SeedEdge)
    ensures e in AllPrerequisites(NodeMap(db, items), items) <==> Required(db, items, e)
  {
    AllPrerequisitesAre(NodeMap(db, items), items, e);
    forall i | 0 <= i < |items|
      ensures e in FromPrerequisites(NodeMap(db, items), items[i].node.slug, items[i].prerequisites)
              <==> RequiredBy(db, items, i, e)
    {
      RequiredByIff(db, items, i, e);
    }
  }

  lemma SuggestedByIff(db: State, items: seq<Item>, i: nat, e: SeedEdge)
    requires i < |items|
    ensures e in FromSuggestions(NodeMap(db, items), items[i].node.slug, items[i].suggested)
            <==> SuggestedBy(db, items, i, e)
  {
    var m, item := NodeMap(db, items), items[i];
    assert item in items;
    SuggestionsAre(m, item.node.slug, item.suggested, e);
    forall k | 0 <= k < |item.suggested|
      ensures e in Resolve(m, item.node.slug, item.suggested[k].edgeType, item.suggested[k].target)
              <==> item.suggested[k].target in Slugs(items) && item.suggested[k].edgeType == Some(e.edgeType)
                   && CurrentOf(db, item.node.slug) == Some(e.src)
                   && CurrentOf(db, item.suggested[k].target) == Some(e.dst)
    {
    }
  }

  lemma SuggestedIff(db: State, items: seq<Item>, e: SeedEdge)
    ensures e in AllSuggestions(NodeMap(db, items), items) <==> Suggested(db, items, e)
  {
    AllSuggestionsAre(NodeMap(db, items), items, e);
    forall i | 0 <= i < |items|
      ensures e in FromSuggestions(NodeMap(db, items), items[i].node.slug, items[i].suggested)
              <==> SuggestedBy(db, items, i, e)
    {
      SuggestedByIff(db, items, i, e);
    }
  }

  lemma KnownWhenCurrent(db: State, items: seq<Item>, rows: seq<Row>, slug: string)
    requires slug in Referenced(rows)
    ensures CurrentOf(db, slug).Some? ==>
              slug in RowMap(db, items, rows) && RowMap(db, items, rows)[slug] == CurrentOf(db, slug)
    ensures slug in RowMap(db, items, rows) ==> RowMap(db, items, rows)[slug] == CurrentOf(db, slug)
  {
    var o := FindSlug(db.objects, slug);
    assert CurrentOf(db, slug).Some? ==> SlugTaken(db, slug);
  }

  lemma ListedIff(db: State, items: seq<Item>, rows: seq<Row>, e: SeedEdge)
    ensures e in FromRows(RowMap(db, items, rows), rows) <==> Listed(db, rows, e)
  {
    var m := RowMap(db, items, rows);
    RowsAre(m, rows, e);
    forall k | 0 <= k < |rows|
      ensures e in Resolve(m, rows[k].source, rows[k].edgeType, rows[k].target)
              <==> rows[k].edgeType == Some(e.edgeType)
                   && CurrentOf(db, rows[k].source) == Some(e.src) && CurrentOf(db, rows[k].target) == Some(e.dst)
    {
      assert rows[k] in rows;
      KnownWhenCurrent(db, items, rows, rows[k].source);
      KnownWhenCurrent(db, items, rows, rows[k].target);
    }
  }

  /** After a successful load the edges are the old ones and those that some requirement, suggestion or row of the pack
      asks for, each in its direction and of its type. */
  lemma EdgesAreAskedFor(g: Graph, pack: Pack, e: SeedEdge)
    requires SeedGraph(g, pack).Ok?
    ensures var r := SeedGraph(g, pack).value;
            e in r.edges <==> e in g.edges || Required(r.db, pack.items, e) || Suggested(r.db, pack.items, e)
                              || Listed(r.db, pack.rows, e)
  {
    var db := SeedNodes(g.db, pack.items);
    var wanted, edges := Wanted(db, pack), SeedGraph(g, pack).value.edges;
    AddEdgesFailsIff(g.edges, wanted);
    assert e in edges <==> multiset(edges)[e] > 0;
    assert e in g.edges <==> multiset(g.edges)[e] > 0;
    RequiredIff(db, pack.items, e);
    SuggestedIff(db, pack.items, e);
    ListedIff(db, pack.items, pack.rows, e);
  }

  /** Loading the same pack again changes nothing, whatever the graph: no object, version, edge or event is added. */
  lemma SeedTwiceIsSeedOnce(g: Graph, pack: Pack)
    ensures var r := SeedGraph(g, pack); r.Ok? ==> SeedGraph(r.value, pack) == r
  {
    var db := SeedNodes(g.db, pack.items);
    if AddEdges(g.edges, Wanted(db, pack)).Ok? {
      WantedOnce(g.edges, Wanted(db, pack));
      forall slug | slug in Slugs(pack.items) ensures SlugTaken(db, slug) {
        SeedNodesTakes(g.db, pack.items, slug);
      }
      SeedNodesAgain(db, pack.items);
      AddEdgesAgain(AddEdges(g.edges, Wanted(db, pack)).value, Wanted(db, pack));
    }
  }

  /** Loading nodes is a run of the pipeline, so what holds in every run holds with seeding in it. */
  ghost function SeedActions(items: seq<Item>): seq<Action> {
    seq(|items|, i requires 0 <= i < |items| => SeedOne(items[i].node))
  }

  lemma {:induction false} SeedingIsARun(c: Config, items: seq<Item>)
    ensures ExecFrom(c, SeedActions(items)) == c.(s := SeedNodes(c.s, items))
  {
    if items != [] {
      var n := |items| - 1;
      SeedingIsARun(c, items[..n]);
      assert SeedActions(items)[..n] == SeedActions(items[..n]);
    }
  }
}
