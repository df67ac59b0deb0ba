/** The entity service: entities with aliases, version links and graph edges, and the merge of one entity into
    another. Every service call is one transaction. */
module Entities {
  import opened Domain

  datatype EntityStatus = ACTIVE | DEPRECATED_ENTITY | MERGED

  datatype Entity = Entity(workspace: nat, entityType: nat, name: string, status: EntityStatus)

  datatype AliasRow = AliasRow(entity: nat, alias: string)

  datatype LinkRow = LinkRow(version: nat, entity: nat, mentions: nat)

  /** `rest` stands for the columns no operation of this service looks at. */
  datatype EdgeRow = EdgeRow(src: Node, edgeType: EdgeType, dst: Node, rest: nat)

  /** An `entity.merged` outbox event: the only record of what was merged into what. */
  datatype Merge = Merge(source: nat, target: nat)

  /** The tables, by row id. */
  datatype Registry = Registry(entities: map<nat, Entity>, aliases: map<nat, AliasRow>, links: map<nat, LinkRow>,
                               edges: map<nat, EdgeRow>, merges: seq<Merge>)

  ghost predicate HasAlias(aliases: map<nat, AliasRow>, entity: nat, alias: string) {
    exists r :: r in aliases && aliases[r] == AliasRow(entity, alias)
  }

  ghost predicate HasLink(links: map<nat, LinkRow>, entity: nat, version: nat) {
    exists r :: r in links && links[r].entity == entity && links[r].version == version
  }

  predicate Unmerged(entities: map<nat, Entity>, id: nat) {
    id in entities && entities[id].status != MERGED
  }

  predicate Merged(entities: map<nat, Entity>, id: nat) {
    id in entities && entities[id].status == MERGED
  }

  function EntityNode(id: nat): Node {
    Node(ENTITY, id)
  }

  // ------------------------------------------- what a merge does to each table

  /** Aliases of the source go to the target, except those the target has already. */
  ghost function MovedAliases(aliases: map<nat, AliasRow>, source: nat, target: nat): map<nat, AliasRow> {
    map r | r in aliases && !(aliases[r].entity == source && HasAlias(aliases, target, aliases[r].alias)) ::
      if aliases[r].entity == source then AliasRow(target, aliases[r].alias) else aliases[r]
  }

  ghost function MovedLinks(links: map<nat, LinkRow>, source: nat, target: nat): map<nat, LinkRow> {
    map r | r in links && !(links[r].entity == source && HasLink(links, target, links[r].version)) ::
      if links[r].entity == source then links[r].(entity := target) else links[r]
  }

  function Rename(n: Node, source: nat, target: nat): Node {
    if n == EntityNode(source) then EntityNode(target) else n
  }

  function RenameEdge(e: EdgeRow, source: nat, target: nat): EdgeRow {
    e.(src := Rename(e.src, source, target), dst := Rename(e.dst, source, target))
  }

  /** The edge is out of the source, and its destination id, destination kind and type each occur, not
      necessarily together, on edges out of the target. */
  ghost predicate OutColumnsMatch(edges: map<nat, EdgeRow>, e: EdgeRow, source: nat, target: nat) {
    && e.src == EntityNode(source)
    && (exists r :: r in edges && edges[r].src == EntityNode(target) && edges[r].dst.id == e.dst.id)
    && (exists r :: r in edges && edges[r].src == EntityNode(target) && edges[r].dst.kind == e.dst.kind)
    && (exists r :: r in edges && edges[r].src == EntityNode(target) && edges[r].edgeType == e.edgeType)
  }

  ghost predicate InColumnsMatch(edges: map<nat, EdgeRow>, e: EdgeRow, source: nat, target: nat) {
    && e.dst == EntityNode(source)
    && (exists r :: r in edges && edges[r].dst == EntityNode(target) && edges[r].src.id == e.src.id)
    && (exists r :: r in edges && edges[r].dst == EntityNode(target) && edges[r].src.kind == e.src.kind)
    && (exists r :: r in edges && edges[r].dst == EntityNode(target) && edges[r].edgeType == e.edgeType)
  }

  ghost function DropOut(edges: map<nat, EdgeRow>, source: nat, target: nat): map<nat, EdgeRow> {
    map r | r in edges && !OutColumnsMatch(edges, edges[r], source, target) :: edges[r]
  }

  ghost function DropIn(edges: map<nat, EdgeRow>, source: nat, target: nat): map<nat, EdgeRow> {
    map r | r in edges && !InColumnsMatch(edges, edges[r], source, target) :: edges[r]
  }

  ghost predicate IsLoop(e: EdgeRow, id: nat) {
    e.src == EntityNode(id) && e.dst == EntityNode(id)
  }

  /** The surviving edges, renamed: the second deletion looks at what the first one left. */
  ghost function MergedEdges(edges: map<nat, EdgeRow>, source: nat, target: nat): map<nat, EdgeRow> {
    var kept := DropIn(DropOut(edges, source, target), source, target);
    map r | r in kept && !IsLoop(RenameEdge(kept[r], source, target), target) :: RenameEdge(kept[r], source, target)
  }

  // --------------------------------------------------------------- operations

  datatype Op =
    | CreateEntity(id: nat, workspace: nat, entityType: nat, name: string)
    | AddAlias(row: nat, entity: nat, alias: string)
    | AttachEntity(row: nat, version: nat, entity: nat, mentions: nat)
    | CreateEdge(row: nat, edge: EdgeRow)
    | MergeEntities(source: nat, target: nat)

  ghost predicate NameTaken(s: Registry, workspace: nat, entityType: nat, name: string) {
    exists id :: id in s.entities && SameName(s.entities[id], workspace, entityType, name)
  }

  predicate SameName(e: Entity, workspace: nat, entityType: nat, name: string) {
    e.workspace == workspace && e.entityType == entityType && e.name == name
  }

  /** An edge end that is an entity must exist; versions are not part of this service. */
  predicate EndExists(s: Registry, n: Node) {
    n.kind == ENTITY ==> n.id in s.entities
  }

  ghost function CreateEntityIn(s: Registry, id: nat, workspace: nat, entityType: nat, name: string): Result<Registry> {
    if id in s.entities || NameTaken(s, workspace, entityType, name) then Err(ConflictError)
    else Ok(s.(entities := s.entities[id := Entity(workspace, entityType, name, ACTIVE)]))
  }

  ghost function AddAliasTo(s: Registry, row: nat, entity: nat, alias: string): Result<Registry> {
    if entity !in s.entities then Err(NotFoundError)
    else if HasAlias(s.aliases, entity, alias) then Ok(s)
    else if row in s.aliases then Err(ConflictError)
    else Ok(s.(aliases := s.aliases[row := AliasRow(entity, alias)]))
  }

  ghost function Attach(s: Registry, row: nat, version: nat, entity: nat, mentions: nat): Result<Registry> {
    if entity !in s.entities then Err(NotFoundError)
    else if HasLink(s.links, entity, version) then
      Ok(s.(links := map r | r in s.links ::
               if s.links[r].entity == entity && s.links[r].version == version
               then s.links[r].(mentions := mentions) else s.links[r]))
    else if row in s.links then Err(ConflictError)
    else Ok(s.(links := s.links[row := LinkRow(version, entity, mentions)]))
  }

  ghost function AddEdge(s: Registry, row: nat, edge: EdgeRow): Result<Registry> {
    if !EndExists(s, edge.src) || !EndExists(s, edge.dst) then Err(NotFoundError)
    else if row in s.edges then Err(ConflictError)
    else Ok(s.(edges := s.edges[row := edge]))
  }

  ghost function MergeInto(s: Registry, source: nat, target: nat): Result<Registry> {
    if source == target then Err(ConflictError)
    else if source !in s.entities || target !in s.entities then Err(NotFoundError)
    else if s.entities[source].workspace != s.entities[target].workspace then Err(ConflictError)
    else if !Unmerged(s.entities, source) || !Unmerged(s.entities, target) then Err(ConflictError)
    else Ok(Registry(s.entities[source := s.entities[source].(status := MERGED)],
                     MovedAliases(s.aliases, source, target),
                     MovedLinks(s.links, source, target),
                     MergedEdges(s.edges, source, target),
                     s.merges + [Merge(source, target)]))
  }

  /** The tables after a committed call, or the error of a call that changed nothing. A new row takes an unused id. */
  ghost function Apply(s: Registry, op: Op): Result<Registry> {
    match op
    case CreateEntity(id, workspace, entityType, name) => CreateEntityIn(s, id, workspace, entityType, name)
    case AddAlias(row, entity, alias) => AddAliasTo(s, row, entity, alias)
    case AttachEntity(row, version, entity, mentions) => Attach(s, row, version, entity, mentions)
    case CreateEdge(row, edge) => AddEdge(s, row, edge)
    case MergeEntities(source, target) => MergeInto(s, source, target)
  }

  class EntityService {
    var entities: map<nat, Entity>
    var aliases: map<nat, AliasRow>
    var links: map<nat, LinkRow>
    var edges: map<nat, EdgeRow>
    var merges: seq<Merge>

    ghost function Tables(): Registry
      reads this
    {
      Registry(entities, aliases, links, edges, merges)
    }

    constructor ()
      ensures Tables() == Registry(map[], map[], map[], map[], [])
    {
      entities, aliases, links, edges, merges := map[], map[], map[], map[], [];
    }

    method CreateEntity(id: nat, workspace: nat, entityType: nat, name: string) returns (r: Result<nat>)
      requires id !in entities
      modifies this
      ensures var a := CreateEntityIn(old(Tables()), id, workspace, entityType, name);
              if a.Ok? then r == Ok(id) && Tables() == a.value else r == Err(a.error) && Tables() == old(Tables())
      ensures r.Ok? <==> forall e | e in old(entities) :: !SameName(old(entities)[e], workspace, entityType, name)
      ensures r.Ok? ==> entities == old(entities)[id := Entity(workspace, entityType, name, ACTIVE)]
    {
      if exists e :: e in entities && SameName(entities[e], workspace, entityType, name) {
        return Err(ConflictError);
      }
      entities := entities[id := Entity(workspace, entityType, name, ACTIVE)];
      r := Ok(id);
    }

    method AddAlias(row: nat, entity: nat, alias: string) returns (r: Result<nat>)
      requires row !in aliases
      modifies this
      ensures var a := AddAliasTo(old(Tables()), row, entity, alias);
              if a.Ok? then r.Ok? && Tables() == a.value && r.value in aliases
                        && aliases[r.value] == AliasRow(entity, alias)
              else r == Err(a.error) && Tables() == old(Tables())
      ensures r.Ok? <==> entity in old(entities)
      ensures (exists p :: p in old(aliases) && old(aliases)[p] == AliasRow(entity, alias)) ==> aliases == old(aliases)
      ensures r.Ok? && aliases != old(aliases) ==> aliases == old(aliases)[row := AliasRow(entity, alias)]
    {
      if entity !in entities {
        return Err(NotFoundError);
      }
      if existing :| existing in aliases && aliases[existing] == AliasRow(entity, alias) {
        return Ok(existing);
      }
      aliases := aliases[row := AliasRow(entity, alias)];
      r := Ok(row);
    }

    method AttachEntity(row: nat, version: nat, entity: nat, mentions: nat) returns (r: Result<()>)
      requires row !in links
      modifies this
      ensures var a := Attach(old(Tables()), row, version, entity, mentions);
              if a.Ok? then r == Ok(()) && Tables() == a.value else r == Err(a.error) && Tables() == old(Tables())
      ensures r.Ok? <==> entity in old(entities)
      ensures forall l | l in old(links) && r.Ok? ::
                l in links && links[l] == if old(links)[l].entity == entity && old(links)[l].version == version
                                          then old(links)[l].(mentions := mentions) else old(links)[l]
      ensures r.Ok? ==> LinkRow(version, entity, mentions) in links.Values
      ensures forall l | l in links && l !in old(links) :: l == row
    {
      if entity !in entities {
        return Err(NotFoundError);
      }
      if exists l :: l in links && links[l].entity == entity && links[l].version == version {
        ghost var l :| l in links && links[l].entity == entity && links[l].version == version;
        links := map l | l in links ::
          if links[l].entity == entity && links[l].version == version then links[l].(mentions := mentions)
          else links[l];
        assert links[l] == LinkRow(version, entity, mentions);
      } else {
        links := links[row := LinkRow(version, entity, mentions)];
        assert links[row] == LinkRow(version, entity, mentions);
      }
      r := Ok(());
    }

    method CreateEdge(row: nat, edge: EdgeRow) returns (r: Result<nat>)
      requires row !in edges
      modifies this
      ensures var a := AddEdge(old(Tables()), row, edge);
              if a.Ok? then r == Ok(row) && Tables() == a.value else r == Err(a.error) && Tables() == old(Tables())
      ensures r.Ok? <==> (edge.src.kind == ENTITY ==> edge.src.id in old(entities))
                         && (edge.dst.kind == ENTITY ==> edge.dst.id in old(entities))
      ensures r.Ok? ==> edges == old(edges)[row := edge]
    {
      if edge.src.kind == ENTITY && edge.src.id !in entities {
        return Err(NotFoundError);
      }
      if edge.dst.kind == ENTITY && edge.dst.id !in entities {
        return Err(NotFoundError);
      }
      edges := edges[row := edge];
      r := Ok(row);
    }

    method MergeEntities(source: nat, target: nat) returns (r: Result<nat>)
      modifies this
      ensures var a := MergeInto(old(Tables()), source, target);
              if a.Ok? then r == Ok(target) && Tables() == a.value else r == Err(a.error) && Tables() == old(Tables())
      ensures r.Ok? <==> source != target && Unmerged(old(entities), source) && Unmerged(old(entities), target)
                         && old(entities)[source].workspace == old(entities)[target].workspace
      ensures r.Ok? ==> entities == old(entities)[source := old(entities)[source].(status := MERGED)]
                        && merges == old(merges) + [Merge(source, target)]
    {
      if source == target {
        return Err(ConflictError);
      }
      if source !in entities || target !in entities {
        return Err(NotFoundError);
      }
      if entities[source].workspace != entities[target].workspace {
        return Err(ConflictError);
      }
      if entities[source].status == MERGED {
        return Err(ConflictError);
      }
      if entities[target].status == MERGED {
        return Err(ConflictError);
      }
      MergeAliases(source, target);
      MergeLinks(source, target);
      MergeEdges(source, target);
      entities := entities[source := entities[source].(status := MERGED)];
      merges := merges + [Merge(source, target)];
      r := Ok(target);
    }

    /** Two statements: delete the source's duplicates, then move the rest. */
    method MergeAliases(source: nat, target: nat)
      requires source != target
      modifies this`aliases
      ensures aliases == MovedAliases(old(aliases), source, target)
    {
      var duplicates := set r | r in aliases && aliases[r].entity == target :: aliases[r].alias;
      aliases := map r | r in aliases && !(aliases[r].entity == source && aliases[r].alias in duplicates) :: aliases[r];
      assert forall r | r in old(aliases) ::
          old(aliases)[r].alias in duplicates <==> HasAlias(old(aliases), target, old(aliases)[r].alias);
      aliases := map r | r in aliases ::
        if aliases[r].entity == source then aliases[r].(entity := target) else aliases[r];
    }

    method MergeLinks(source: nat, target: nat)
      requires source != target
      modifies this`links
      ensures links == MovedLinks(old(links), source, target)
    {
      var duplicates := set r | r in links && links[r].entity == target :: links[r].version;
      links := map r | r in links && !(links[r].entity == source && links[r].version in duplicates) :: links[r];
      assert forall r | r in old(links) ::
          old(links)[r].version in duplicates <==> HasLink(old(links), target, old(links)[r].version);
      links := map r | r in links :: if links[r].entity == source then links[r].(entity := target) else links[r];
    }

    /** Five statements: two deletions by column-wise IN tests, two renamings, and the deletion of self-loops. */
    method MergeEdges(source: nat, target: nat)
      requires source != target
      modifies this`edges
      ensures edges == MergedEdges(old(edges), source, target)
    {
      DeleteOut(source, target);
      DeleteIn(source, target);
      ghost var kept := edges;
      edges := map r | r in edges ::
        if edges[r].src == EntityNode(source) then edges[r].(src := EntityNode(target)) else edges[r];
      edges := map r | r in edges ::
        if edges[r].dst == EntityNode(source) then edges[r].(dst := EntityNode(target)) else edges[r];
      assert forall r | r in kept :: edges[r] == RenameEdge(kept[r], source, target);
      edges := map r | r in edges && !(edges[r].src == EntityNode(target)
                                       && edges[r].dst == EntityNode(target)) :: edges[r];
    }

    method DeleteOut(source: nat, target: nat)
      modifies this`edges
      ensures edges == DropOut(old(edges), source, target)
    {
      var dstIds := set r | r in edges && edges[r].src == EntityNode(target) :: edges[r].dst.id;
      var dstKinds := set r | r in edges && edges[r].src == EntityNode(target) :: edges[r].dst.kind;
      var edgeTypes := set r | r in edges && edges[r].src == EntityNode(target) :: edges[r].edgeType;
      assert forall r | r in edges ::
          OutColumnsMatch(edges, edges[r], source, target)
          <==> edges[r].src == EntityNode(source) && edges[r].dst.id in dstIds && edges[r].dst.kind in dstKinds
               && edges[r].edgeType in edgeTypes;
      edges := map r | r in edges && !(edges[r].src == EntityNode(source) && edges[r].dst.id in dstIds
                                       && edges[r].dst.kind in dstKinds && edges[r].edgeType in edgeTypes) :: edges[r];
    }

    method DeleteIn(source: nat, target: nat)
      modifies this`edges
      ensures edges == DropIn(old(edges), source, target)
    {
      var srcIds := set r | r in edges && edges[r].dst == EntityNode(target) :: edges[r].src.id;
      var srcKinds := set r | r in edges && edges[r].dst == EntityNode(target) :: edges[r].src.kind;
      var edgeTypes := set r | r in edges && edges[r].dst == EntityNode(target) :: edges[r].edgeType;
      assert forall r | r in edges ::
          InColumnsMatch(edges, edges[r], source, target)
          <==> edges[r].dst == EntityNode(source) && edges[r].src.id in srcIds && edges[r].src.kind in srcKinds
               && edges[r].edgeType in edgeTypes;
      edges := map r | r in edges && !(edges[r].dst == EntityNode(source) && edges[r].src.id in srcIds
                                       && edges[r].src.kind in srcKinds && edges[r].edgeType in edgeTypes) :: edges[r];
    }
  }

  // ----------------------------------------------------- one merge, the edges

  ghost predicate Touches(e: EdgeRow, id: nat) {
    e.src == EntityNode(id) || e.dst == EntityNode(id)
  }

  predicate SameKey(a: EdgeRow, b: EdgeRow) {
    a.src == b.src && a.edgeType == b.edgeType && a.dst == b.dst
  }

  ghost predicate NoDuplicateKeys(edges: map<nat, EdgeRow>) {
    forall p, q | p in edges && q in edges && SameKey(edges[p], edges[q]) :: p == q
  }

  /** No edge touches the source and no self-loop of the target is left; rows away from the source are kept as they
      were, except self-loops of the target; every row left is the renamed old row; and if no two rows had the same
      source, type and destination, no two have now. */
  lemma MergeRedirectsEdges(edges: map<nat, EdgeRow>, source: nat, target: nat)
    requires source != target
    ensures var after := MergedEdges(edges, source, target);
            && (forall r | r in after :: !Touches(after[r], source) && !IsLoop(after[r], target))
            && (forall r | r in edges && !Touches(edges[r], source) && !IsLoop(edges[r], target) ::
                  r in after && after[r] == edges[r])
            && (forall r | r in after :: r in edges && after[r] == RenameEdge(edges[r], source, target))
            && (NoDuplicateKeys(edges) ==> NoDuplicateKeys(after))
  {
    var after := MergedEdges(edges, source, target);
    var first := DropOut(edges, source, target);
    forall p, q | NoDuplicateKeys(edges) && p in after && q in after && SameKey(after[p], after[q]) ensures p == q {
      var a, b := edges[p], edges[q];
      assert !IsLoop(after[p], target);
      if a.src == EntityNode(source) && b.src == EntityNode(target) {
        assert OutColumnsMatch(edges, a, source, target);
      } else if b.src == EntityNode(source) && a.src == EntityNode(target) {
        assert OutColumnsMatch(edges, b, source, target);
      } else if a.dst == EntityNode(source) && b.dst == EntityNode(target) {
        assert InColumnsMatch(first, a, source, target);
      } else if b.dst == EntityNode(source) && a.dst == EntityNode(target) {
        assert InColumnsMatch(first, b, source, target);
      } else {
        assert SameKey(a, b);
      }
    }
  }

  /** With no edge at the target beforehand, the result is the renamed graph without self-loops. */
  lemma MergeIntoIsolated(edges: map<nat, EdgeRow>, source: nat, target: nat)
    requires source != target && forall r | r in edges :: !Touches(edges[r], target)
    ensures MergedEdges(edges, source, target)
            == map r | r in edges && !IsLoop(edges[r], source) :: RenameEdge(edges[r], source, target)
  {
    assert DropOut(edges, source, target) == edges;
    assert DropIn(edges, source, target) == edges;
  }

  /** Exactly which rows a merge leaves, and as what. A row out of the source goes when its other end's id, that end's
      kind and its type each occur on rows out of the target, together or not; likewise, among what is left, a row into
      the source; and what would become a self-loop of the target. */
  lemma RowsLeft(edges: map<nat, EdgeRow>, source: nat, target: nat)
    requires source != target
    ensures var s, t, after := Node(ENTITY, source), Node(ENTITY, target), MergedEdges(edges, source, target);
            var outIds := set r | r in edges && edges[r].src == t :: edges[r].dst.id;
            var outKinds := set r | r in edges && edges[r].src == t :: edges[r].dst.kind;
            var outTypes := set r | r in edges && edges[r].src == t :: edges[r].edgeType;
            var left := set r | r in edges && !(edges[r].src == s && edges[r].dst.id in outIds
                                                && edges[r].dst.kind in outKinds && edges[r].edgeType in outTypes);
            var inIds := set r | r in left && edges[r].dst == t :: edges[r].src.id;
            var inKinds := set r | r in left && edges[r].dst == t :: edges[r].src.kind;
            var inTypes := set r | r in left && edges[r].dst == t :: edges[r].edgeType;
            && (forall r :: r in after <==>
                  && r in left
                  && !(edges[r].dst == s && edges[r].src.id in inIds && edges[r].src.kind in inKinds
                       && edges[r].edgeType in inTypes)
                  && !((edges[r].src == s || edges[r].src == t) && (edges[r].dst == s || edges[r].dst == t)))
            && (forall r | r in after ::
                  after[r] == EdgeRow(if edges[r].src == s then t else edges[r].src, edges[r].edgeType,
                                      if edges[r].dst == s then t else edges[r].dst, edges[r].rest))
  {
    var first := DropOut(edges, source, target);
    FirstDeletion(edges, source, target);
    InColumns(first, source, target);
    SameColumns(edges, first, EntityNode(target));
    RowsKept(edges, source, target);
  }

  lemma FirstDeletion(edges: map<nat, EdgeRow>, source: nat, target: nat)
    ensures var s, t := Node(ENTITY, source), Node(ENTITY, target);
            var ids := set r | r in edges && edges[r].src == t :: edges[r].dst.id;
            var kinds := set r | r in edges && edges[r].src == t :: edges[r].dst.kind;
            var types := set r | r in edges && edges[r].src == t :: edges[r].edgeType;
            DropOut(edges, source, target).Keys
            == set r | r in edges && !(edges[r].src == s && edges[r].dst.id in ids && edges[r].dst.kind in kinds
                                       && edges[r].edgeType in types)
  {
    OutColumns(edges, source, target);
  }

  lemma RowsKept(edges: map<nat, EdgeRow>, source: nat, target: nat)
    requires source != target
    ensures var s, t, after := Node(ENTITY, source), Node(ENTITY, target), MergedEdges(edges, source, target);
            && (forall r :: r in after <==>
                  && r in DropIn(DropOut(edges, source, target), source, target)
                  && !((edges[r].src == s || edges[r].src == t) && (edges[r].dst == s || edges[r].dst == t)))
            && (forall r | r in after ::
                  after[r] == EdgeRow(if edges[r].src == s then t else edges[r].src, edges[r].edgeType,
                                      if edges[r].dst == s then t else edges[r].dst, edges[r].rest))
  {
  }

  lemma SameColumns(edges: map<nat, EdgeRow>, first: map<nat, EdgeRow>, t: Node)
    requires forall r | r in first :: r in edges && first[r] == edges[r]
    ensures (set r | r in first.Keys && edges[r].dst == t :: edges[r].src.id)
            == set r | r in first && first[r].dst == t :: first[r].src.id
    ensures (set r | r in first.Keys && edges[r].dst == t :: edges[r].src.kind)
            == set r | r in first && first[r].dst == t :: first[r].src.kind
    ensures (set r | r in first.Keys && edges[r].dst == t :: edges[r].edgeType)
            == set r | r in first && first[r].dst == t :: first[r].edgeType
  {
  }

  lemma OutColumns(edges: map<nat, EdgeRow>, source: nat, target: nat)
    ensures var t := Node(ENTITY, target);
            var ids := set r | r in edges && edges[r].src == t :: edges[r].dst.id;
            var kinds := set r | r in edges && edges[r].src == t :: edges[r].dst.kind;
            var types := set r | r in edges && edges[r].src == t :: edges[r].edgeType;
            forall e :: OutColumnsMatch(edges, e, source, target) <==>
              e.src == Node(ENTITY, source) && e.dst.id in ids && e.dst.kind in kinds && e.edgeType in types
  {
  }

  lemma InColumns(edges: map<nat, EdgeRow>, source: nat, target: nat)
    ensures var t := Node(ENTITY, target);
            var ids := set r | r in edges && edges[r].dst == t :: edges[r].src.id;
            var kinds := set r | r in edges && edges[r].dst == t :: edges[r].src.kind;
            var types := set r | r in edges && edges[r].dst == t :: edges[r].edgeType;
            forall e :: InColumnsMatch(edges, e, source, target) <==>
              e.dst == Node(ENTITY, source) && e.src.id in ids && e.src.kind in kinds && e.edgeType in types
  {
  }

  /** A row that does not become a self-loop is spared whenever one of the three columns alone is new to the target. */
  lemma NewColumnIsSpared(edges: map<nat, EdgeRow>, source: nat, target: nat, r: nat)
    requires source != target && r in edges
    requires var s, t, e := Node(ENTITY, source), Node(ENTITY, target), edges[r];
             && !((e.src == s || e.src == t) && (e.dst == s || e.dst == t))
             && (e.src == s ==>
                   || (forall p | p in edges && edges[p].src == t :: edges[p].edgeType != e.edgeType)
                   || (forall p | p in edges && edges[p].src == t :: edges[p].dst.id != e.dst.id)
                   || (forall p | p in edges && edges[p].src == t :: edges[p].dst.kind != e.dst.kind))
             && (e.dst == s ==>
                   || (forall p | p in edges && edges[p].dst == t :: edges[p].edgeType != e.edgeType)
                   || (forall p | p in edges && edges[p].dst == t :: edges[p].src.id != e.src.id)
                   || (forall p | p in edges && edges[p].dst == t :: edges[p].src.kind != e.src.kind))
    ensures r in MergedEdges(edges, source, target)
  {
    RowsLeft(edges, source, target);
  }

  ghost predicate HasKey(edges: map<nat, EdgeRow>, e: EdgeRow) {
    exists r :: r in edges && SameKey(edges[r], e)
  }

  /** The keys left are exactly the renamed keys, self-loops of the target apart. */
  ghost predicate IsQuotient(edges: map<nat, EdgeRow>, after: map<nat, EdgeRow>, source: nat, target: nat) {
    && (forall r | r in after :: exists o :: o in edges && SameKey(after[r], RenameEdge(edges[o], source, target)))
    && (forall r | r in edges && !IsLoop(RenameEdge(edges[r], source, target), target) ::
          HasKey(after, RenameEdge(edges[r], source, target)))
  }

  /** The column-wise tests hit real duplicates only: an edge of the source that they match has a counterpart at
      the target with the same other end and type. Edges that become self-loops do not matter. */
  ghost predicate TestsAreExact(edges: map<nat, EdgeRow>, source: nat, target: nat) {
    var first := DropOut(edges, source, target);
    && (forall r | r in edges && OutColumnsMatch(edges, edges[r], source, target)
                   && !IsLoop(RenameEdge(edges[r], source, target), target) ::
          HasKey(edges, RenameEdge(edges[r], source, target)))
    && (forall r | r in first && InColumnsMatch(first, edges[r], source, target)
                   && !IsLoop(RenameEdge(edges[r], source, target), target) ::
          HasKey(edges, RenameEdge(edges[r], source, target)))
  }

  /** A merge is a quotient of the graph exactly when the column-wise tests hit real duplicates only. */
  lemma QuotientIffTestsExact(edges: map<nat, EdgeRow>, source: nat, target: nat)
    requires source != target
    ensures IsQuotient(edges, MergedEdges(edges, source, target), source, target)
            <==> TestsAreExact(edges, source, target)
  {
    if TestsAreExact(edges, source, target) {
      ExactGivesQuotient(edges, source, target);
    }
    if IsQuotient(edges, MergedEdges(edges, source, target), source, target) {
      QuotientGivesExact(edges, source, target);
    }
  }

  lemma ExactGivesQuotient(edges: map<nat, EdgeRow>, source: nat, target: nat)
    requires source != target && TestsAreExact(edges, source, target)
    ensures IsQuotient(edges, MergedEdges(edges, source, target), source, target)
  {
    var after := MergedEdges(edges, source, target);
    forall r | r in after ensures exists o :: o in edges && SameKey(after[r], RenameEdge(edges[o], source, target)) {
      assert after[r] == RenameEdge(edges[r], source, target);
    }
    forall r | r in edges && !IsLoop(RenameEdge(edges[r], source, target), target)
      ensures HasKey(after, RenameEdge(edges[r], source, target))
    {
      if r !in after {
        var o :| o in edges && SameKey(edges[o], RenameEdge(edges[r], source, target));
        assert !Touches(edges[o], source);
        assert o in after && after[o] == edges[o];
      }
    }
  }

  lemma QuotientGivesExact(edges: map<nat, EdgeRow>, source: nat, target: nat)
    requires source != target && IsQuotient(edges, MergedEdges(edges, source, target), source, target)
    ensures TestsAreExact(edges, source, target)
  {
    var first := DropOut(edges, source, target);
    forall r | r in edges && !IsLoop(RenameEdge(edges[r], source, target), target)
               && (OutColumnsMatch(edges, edges[r], source, target)
                   || (r in first && InColumnsMatch(first, edges[r], source, target)))
      ensures HasKey(edges, RenameEdge(edges[r], source, target))
    {
      var o :| o in MergedEdges(edges, source, target)
               && SameKey(MergedEdges(edges, source, target)[o], RenameEdge(edges[r], source, target));
      SurvivorIsCounterpart(edges, r, o, source, target);
    }
  }

  /** Two edges of the source that become the same edge are matched together or not at all; so what survives with
      the key of a deleted edge did not touch the source. */
  lemma SurvivorIsCounterpart(edges: map<nat, EdgeRow>, r: nat, o: nat, source: nat, target: nat)
    requires source != target && r in edges && o in MergedEdges(edges, source, target)
    requires SameKey(MergedEdges(edges, source, target)[o], RenameEdge(edges[r], source, target))
    requires !IsLoop(RenameEdge(edges[r], source, target), target)
    requires var first := DropOut(edges, source, target);
             || OutColumnsMatch(edges, edges[r], source, target)
             || (r in first && InColumnsMatch(first, edges[r], source, target))
    ensures SameKey(edges[o], RenameEdge(edges[r], source, target))
  {
    assert !Touches(edges[o], source);
  }

  /** A merge that loses an edge: 1 -BUILDS_ON-> 3 is deleted because 2 -QUOTES-> 3 and 2 -BUILDS_ON-> 4 exist. */
  lemma OverDeletion()
    ensures var edges := map[0 := EdgeRow(EntityNode(1), BUILDS_ON, EntityNode(3), 0),
                             1 := EdgeRow(EntityNode(2), QUOTES, EntityNode(3), 0),
                             2 := EdgeRow(EntityNode(2), BUILDS_ON, EntityNode(4), 0)];
            !IsQuotient(edges, MergedEdges(edges, 1, 2), 1, 2)
  {
    var edges := map[0 := EdgeRow(EntityNode(1), BUILDS_ON, EntityNode(3), 0),
                     1 := EdgeRow(EntityNode(2), QUOTES, EntityNode(3), 0),
                     2 := EdgeRow(EntityNode(2), BUILDS_ON, EntityNode(4), 0)];
    assert edges[1].dst.id == 3 && edges[2].edgeType == BUILDS_ON;
    assert OutColumnsMatch(edges, edges[0], 1, 2);
    assert !HasKey(edges, RenameEdge(edges[0], 1, 2));
    QuotientIffTestsExact(edges, 1, 2);
  }

  // ------------------------------------------------------------------- runs

  /** The entity that stands for `x` after the merges: each merge redirects whatever stood at its source. */
  ghost function Root(merges: seq<Merge>, x: nat): nat {
    if merges == [] then x
    else
      var m := merges[|merges| - 1];
      var r := Root(merges[..|merges| - 1], x);
      if r == m.source then m.target else r
  }

  /** The tables, with every alias and version link that was ever given to an entity. */
  datatype Run = Run(db: Registry, aliased: set<(nat, string)>, linked: set<(nat, nat)>)

  ghost function Next(run: Run, op: Op): Run {
    match Apply(run.db, op)
    case Err(_) => run
    case Ok(db) =>
      Run(db,
          run.aliased + (if op.AddAlias? then {(op.entity, op.alias)} else {}),
          run.linked + (if op.AttachEntity? then {(op.entity, op.version)} else {}))
  }

  ghost function Exec(ops: seq<Op>): Run {
    if ops == [] then Run(Registry(map[], map[], map[], map[], []), {}, {})
    else Next(Exec(ops[..|ops| - 1]), ops[|ops| - 1])
  }

  /** The caller gives aliases, links and edges only to entities that were not merged away. */
  ghost predicate ToUnmerged(s: Registry, op: Op) {
    match op
    case AddAlias(_, entity, _) => !Merged(s.entities, entity)
    case AttachEntity(_, _, entity, _) => !Merged(s.entities, entity)
    case CreateEdge(_, edge) => !EndMerged(s.entities, edge.src) && !EndMerged(s.entities, edge.dst)
    case _ => true
  }

  ghost predicate EndMerged(entities: map<nat, Entity>, n: Node) {
    n.kind == ENTITY && Merged(entities, n.id)
  }

  ghost predicate AllToUnmerged(ops: seq<Op>) {
    forall i | 0 <= i < |ops| && Apply(Exec(ops[..i]).db, ops[i]).Ok? :: ToUnmerged(Exec(ops[..i]).db, ops[i])
  }

  /** No alias, link or edge hangs on a merged (or unknown) entity. */
  ghost predicate NothingOnMerged(s: Registry) {
    && (forall r | r in s.aliases :: Unmerged(s.entities, s.aliases[r].entity))
    && (forall r | r in s.links :: Unmerged(s.entities, s.links[r].entity))
    && (forall r | r in s.edges :: EndUnmerged(s.entities, s.edges[r].src) && EndUnmerged(s.entities, s.edges[r].dst))
  }

  ghost predicate EndUnmerged(entities: map<nat, Entity>, n: Node) {
    n.kind == ENTITY ==> Unmerged(entities, n.id)
  }

  /** The uniqueness constraints of the schema. */
  ghost predicate UniqueAliases(aliases: map<nat, AliasRow>) {
    forall p, q | p in aliases && q in aliases && aliases[p] == aliases[q] :: p == q
  }

  ghost predicate UniqueLinks(links: map<nat, LinkRow>) {
    forall p, q | p in links && q in links && links[p].entity == links[q].entity && links[p].version == links[q].version
      :: p == q
  }

  ghost predicate UniqueNames(entities: map<nat, Entity>) {
    forall a, b | a in entities && b in entities
                  && SameName(entities[a], entities[b].workspace, entities[b].entityType, entities[b].name) :: a == b
  }

  /** Merged entities are exactly the sources of merges; each is merged once, and no later merge targets it. */
  ghost predicate MergesOk(entities: map<nat, Entity>, merges: seq<Merge>) {
    && (forall m | m in merges :: Merged(entities, m.source) && m.target in entities)
    && (forall x | Merged(entities, x) :: exists m :: m in merges && m.source == x)
    && (forall i, j | 0 <= i < j < |merges| :: merges[i].source != merges[j].source)
    && (forall i, j | 0 <= i <= j < |merges| :: merges[i].source != merges[j].target)
  }

  /** Every entity has an unmerged root; an unmerged entity is its own root. */
  ghost predicate RootsOk(entities: map<nat, Entity>, merges: seq<Merge>) {
    forall x | x in entities ::
      Unmerged(entities, Root(merges, x)) && (Unmerged(entities, x) ==> Root(merges, x) == x)
  }

  /** An unmerged entity holds exactly the aliases given to the entities whose root it is. */
  ghost predicate HoldsAliases(aliases: map<nat, AliasRow>, merges: seq<Merge>, aliased: set<(nat, string)>) {
    && (forall x, a | (x, a) in aliased :: HasAlias(aliases, Root(merges, x), a))
    && (forall r | r in aliases :: AliasGiven(merges, aliased, aliases[r]))
  }

  ghost predicate AliasGiven(merges: seq<Merge>, aliased: set<(nat, string)>, row: AliasRow) {
    exists x :: (x, row.alias) in aliased && Root(merges, x) == row.entity
  }

  /** And exactly the version links. */
  ghost predicate HoldsLinks(links: map<nat, LinkRow>, merges: seq<Merge>, linked: set<(nat, nat)>) {
    && (forall x, v | (x, v) in linked :: HasLink(links, Root(merges, x), v))
    && (forall r | r in links :: LinkGiven(merges, linked, links[r]))
  }

  ghost predicate LinkGiven(merges: seq<Merge>, linked: set<(nat, nat)>, row: LinkRow) {
    exists x :: (x, row.version) in linked && Root(merges, x) == row.entity
  }

  ghost predicate HistoryKnown(run: Run) {
    (forall x, a | (x, a) in run.aliased :: x in run.db.entities)
    && (forall x, v | (x, v) in run.linked :: x in run.db.entities)
  }

  ghost predicate Inv(run: Run) {
    var s := run.db;
    && NothingOnMerged(s)
    && UniqueAliases(s.aliases) && UniqueLinks(s.links) && UniqueNames(s.entities)
    && MergesOk(s.entities, s.merges) && RootsOk(s.entities, s.merges)
    && HistoryKnown(run)
    && HoldsAliases(s.aliases, s.merges, run.aliased) && HoldsLinks(s.links, s.merges, run.linked)
  }

  // What each operation keeps, table by table.

  lemma {:induction false} RootOfUntouched(merges: seq<Merge>, x: nat)
    requires forall m | m in merges :: m.source != x
    ensures Root(merges, x) == x
  {
    if merges != [] {
      RootOfUntouched(merges[..|merges| - 1], x);
    }
  }

  lemma NewEntityForest(entities: map<nat, Entity>, merges: seq<Merge>, id: nat, e: Entity)
    requires MergesOk(entities, merges) && RootsOk(entities, merges) && id !in entities && e.status == ACTIVE
    ensures MergesOk(entities[id := e], merges) && RootsOk(entities[id := e], merges)
    ensures forall x | Unmerged(entities, x) :: Unmerged(entities[id := e], x)
  {
    var entities' := entities[id := e];
    assert forall x | Merged(entities', x) :: Merged(entities, x);
    RootOfUntouched(merges, id);
  }

  lemma CreateEntityKeeps(run: Run, id: nat, workspace: nat, entityType: nat, name: string)
    requires Inv(run)
    ensures var a := CreateEntityIn(run.db, id, workspace, entityType, name); a.Ok? ==> Inv(run.(db := a.value))
  {
    var s := run.db;
    if CreateEntityIn(s, id, workspace, entityType, name).Ok? {
      NewEntityForest(s.entities, s.merges, id, Entity(workspace, entityType, name, ACTIVE));
      var s' := CreateEntityIn(s, id, workspace, entityType, name).value;
      assert NothingOnMerged(s');
      assert UniqueNames(s'.entities);
    }
  }

  lemma AddAliasKeeps(run: Run, row: nat, entity: nat, alias: string)
    requires Inv(run) && !Merged(run.db.entities, entity)
    ensures var a := AddAliasTo(run.db, row, entity, alias);
            a.Ok? ==> Inv(Run(a.value, run.aliased + {(entity, alias)}, run.linked))
  {
    var s := run.db;
    if AddAliasTo(s, row, entity, alias).Ok? {
      AliasesGrow(s.aliases, s.merges, run.aliased, row, entity, alias);
      AliasPlaced(s, row, entity, alias);
      AliasKnown(run, row, entity, alias);
    }
  }

  lemma AliasKnown(run: Run, row: nat, entity: nat, alias: string)
    requires HistoryKnown(run) && entity in run.db.entities && AddAliasTo(run.db, row, entity, alias).Ok?
    ensures HistoryKnown(Run(AddAliasTo(run.db, row, entity, alias).value, run.aliased + {(entity, alias)}, run.linked))
  {
  }

  lemma AliasPlaced(s: Registry, row: nat, entity: nat, alias: string)
    requires NothingOnMerged(s) && Unmerged(s.entities, entity)
    ensures NothingOnMerged(s.(aliases := s.aliases[row := AliasRow(entity, alias)]))
  {
  }

  lemma AliasesGrow(aliases: map<nat, AliasRow>, merges: seq<Merge>, aliased: set<(nat, string)>, row: nat,
                    entity: nat, alias: string)
    requires HoldsAliases(aliases, merges, aliased) && UniqueAliases(aliases) && Root(merges, entity) == entity
    requires !HasAlias(aliases, entity, alias) ==> row !in aliases
    ensures var aliases' := if HasAlias(aliases, entity, alias) then aliases
                                else aliases[row := AliasRow(entity, alias)];
            HoldsAliases(aliases', merges, aliased + {(entity, alias)}) && UniqueAliases(aliases')
  {
    var aliases' := if HasAlias(aliases, entity, alias) then aliases else aliases[row := AliasRow(entity, alias)];
    var aliased' := aliased + {(entity, alias)};
    forall x, a | (x, a) in aliased' ensures HasAlias(aliases', Root(merges, x), a) {
      if (x, a) in aliased {
        var r :| r in aliases && aliases[r] == AliasRow(Root(merges, x), a);
        assert aliases'[r] == aliases[r];
      } else if !HasAlias(aliases, entity, alias) {
        assert aliases'[row] == AliasRow(entity, alias);
      }
    }
    forall r | r in aliases' ensures AliasGiven(merges, aliased', aliases'[r]) {
      if r in aliases {
        assert AliasGiven(merges, aliased, aliases[r]);
      } else {
        assert (entity, alias) in aliased';
      }
    }
  }

  lemma AttachKeeps(run: Run, row: nat, version: nat, entity: nat, mentions: nat)
    requires Inv(run) && !Merged(run.db.entities, entity)
    ensures var a := Attach(run.db, row, version, entity, mentions);
            a.Ok? ==> Inv(Run(a.value, run.aliased, run.linked + {(entity, version)}))
  {
    var s := run.db;
    if Attach(s, row, version, entity, mentions).Ok? {
      AttachGrows(s, row, version, entity, mentions);
      LinksGrow(s.links, Attach(s, row, version, entity, mentions).value.links, s.merges, run.linked, entity, version);
      LinkPlaced(s, row, version, entity, mentions);
      LinkKnown(run, row, version, entity, mentions);
    }
  }

  lemma LinkPlaced(s: Registry, row: nat, version: nat, entity: nat, mentions: nat)
    requires NothingOnMerged(s) && Unmerged(s.entities, entity) && Attach(s, row, version, entity, mentions).Ok?
    ensures NothingOnMerged(Attach(s, row, version, entity, mentions).value)
  {
  }

  lemma LinkKnown(run: Run, row: nat, version: nat, entity: nat, mentions: nat)
    requires HistoryKnown(run) && entity in run.db.entities && Attach(run.db, row, version, entity, mentions).Ok?
    ensures HistoryKnown(Run(Attach(run.db, row, version, entity, mentions).value, run.aliased,
                             run.linked + {(entity, version)}))
  {
  }

  lemma AttachGrows(s: Registry, row: nat, version: nat, entity: nat, mentions: nat)
    requires Attach(s, row, version, entity, mentions).Ok?
    ensures LinksExtended(s.links, Attach(s, row, version, entity, mentions).value.links, entity, version)
  {
    var links' := Attach(s, row, version, entity, mentions).value.links;
    if HasLink(s.links, entity, version) {
      var r :| r in s.links && s.links[r].entity == entity && s.links[r].version == version;
      assert links'[r].entity == entity && links'[r].version == version;
    } else {
      assert links'[row].entity == entity && links'[row].version == version;
    }
  }

  /** The rows are the old ones up to their mention counts, and at most one more. */
  ghost predicate LinksExtended(links: map<nat, LinkRow>, links': map<nat, LinkRow>, entity: nat, version: nat) {
    && HasLink(links', entity, version)
    && (forall r | r in links :: r in links' && links'[r].entity == links[r].entity
                                 && links'[r].version == links[r].version)
    && (forall r | r in links' && r !in links ::
          !HasLink(links, entity, version) && links'[r].entity == entity && links'[r].version == version)
    && (forall p, q | p in links' && p !in links && q in links' && q !in links :: p == q)
  }

  lemma LinksGrow(links: map<nat, LinkRow>, links': map<nat, LinkRow>, merges: seq<Merge>, linked: set<(nat, nat)>,
                  entity: nat, version: nat)
    requires HoldsLinks(links, merges, linked) && UniqueLinks(links) && Root(merges, entity) == entity
    requires LinksExtended(links, links', entity, version)
    ensures HoldsLinks(links', merges, linked + {(entity, version)}) && UniqueLinks(links')
  {
    forall x, v | (x, v) in linked ensures HasLink(links', Root(merges, x), v) {
      var r :| r in links && links[r].entity == Root(merges, x) && links[r].version == v;
      assert links'[r].entity == links[r].entity;
    }
    forall r | r in links' ensures LinkGiven(merges, linked + {(entity, version)}, links'[r]) {
      if r in links {
        assert LinkGiven(merges, linked, links[r]);
      }
    }
  }

  lemma CreateEdgeKeeps(run: Run, row: nat, edge: EdgeRow)
    requires Inv(run) && !EndMerged(run.db.entities, edge.src) && !EndMerged(run.db.entities, edge.dst)
    ensures var a := AddEdge(run.db, row, edge); a.Ok? ==> Inv(run.(db := a.value))
  {
  }

  lemma RootAfterMerge(merges: seq<Merge>, m: Merge, x: nat)
    ensures Root(merges + [m], x) == if Root(merges, x) == m.source then m.target else Root(merges, x)
  {
    assert (merges + [m])[..|merges|] == merges;
  }

  lemma MergeKeepsRoots(entities: map<nat, Entity>, merges: seq<Merge>, source: nat, target: nat)
    requires RootsOk(entities, merges) && source != target && Unmerged(entities, source) && Unmerged(entities, target)
    ensures RootsOk(entities[source := entities[source].(status := MERGED)], merges + [Merge(source, target)])
  {
    forall x | x in entities
      ensures Root(merges + [Merge(source, target)], x)
              == if Root(merges, x) == source then target else Root(merges, x)
    {
      RootAfterMerge(merges, Merge(source, target), x);
    }
  }

  lemma MergeKeepsForest(entities: map<nat, Entity>, merges: seq<Merge>, source: nat, target: nat)
    requires MergesOk(entities, merges) && RootsOk(entities, merges)
    requires source != target && Unmerged(entities, source) && Unmerged(entities, target)
    ensures var entities' := entities[source := entities[source].(status := MERGED)];
            var merges' := merges + [Merge(source, target)];
            MergesOk(entities', merges') && RootsOk(entities', merges')
  {
    MergeKeepsRoots(entities, merges, source, target);
    MergeKeepsMerges(entities, merges, source, target);
  }

  lemma MergeKeepsMerges(entities: map<nat, Entity>, merges: seq<Merge>, source: nat, target: nat)
    requires MergesOk(entities, merges) && source != target && Unmerged(entities, source) && Unmerged(entities, target)
    ensures MergesOk(entities[source := entities[source].(status := MERGED)], merges + [Merge(source, target)])
  {
    var entities' := entities[source := entities[source].(status := MERGED)];
    var merges' := merges + [Merge(source, target)];
    forall x | Merged(entities', x) ensures exists m :: m in merges' && m.source == x {
      if x == source {
        assert Merge(source, target) in merges';
      } else {
        assert Merged(entities, x);
        var m :| m in merges && m.source == x;
        assert m in merges';
      }
    }
  }

  lemma MovedAliasesUnique(aliases: map<nat, AliasRow>, source: nat, target: nat)
    requires UniqueAliases(aliases) && source != target
    ensures UniqueAliases(MovedAliases(aliases, source, target))
  {
  }

  /** Whoever held an alias holds it still, or the target does. */
  lemma AliasMoves(aliases: map<nat, AliasRow>, source: nat, target: nat, entity: nat, alias: string)
    requires HasAlias(aliases, entity, alias) && source != target
    ensures HasAlias(MovedAliases(aliases, source, target), if entity == source then target else entity, alias)
  {
    var after := MovedAliases(aliases, source, target);
    if entity == source && HasAlias(aliases, target, alias) {
      var t :| t in aliases && aliases[t] == AliasRow(target, alias);
      assert after[t] == aliases[t];
    } else {
      var r :| r in aliases && aliases[r] == AliasRow(entity, alias);
      assert r in after;
    }
  }

  lemma MergeKeepsAliases(aliases: map<nat, AliasRow>, merges: seq<Merge>, aliased: set<(nat, string)>, source: nat,
                          target: nat)
    requires HoldsAliases(aliases, merges, aliased) && source != target
    ensures HoldsAliases(MovedAliases(aliases, source, target), merges + [Merge(source, target)], aliased)
  {
    var aliases' := MovedAliases(aliases, source, target);
    var merges' := merges + [Merge(source, target)];
    forall x, a | (x, a) in aliased ensures HasAlias(aliases', Root(merges', x), a) {
      RootAfterMerge(merges, Merge(source, target), x);
      AliasMoves(aliases, source, target, Root(merges, x), a);
    }
    forall r | r in aliases' ensures AliasGiven(merges', aliased, aliases'[r]) {
      assert AliasGiven(merges, aliased, aliases[r]);
      var x :| (x, aliases[r].alias) in aliased && Root(merges, x) == aliases[r].entity;
      RootAfterMerge(merges, Merge(source, target), x);
    }
  }

  lemma MovedLinksUnique(links: map<nat, LinkRow>, source: nat, target: nat)
    requires UniqueLinks(links) && source != target
    ensures UniqueLinks(MovedLinks(links, source, target))
  {
  }

  lemma LinkMoves(links: map<nat, LinkRow>, source: nat, target: nat, entity: nat, version: nat)
    requires HasLink(links, entity, version) && source != target
    ensures HasLink(MovedLinks(links, source, target), if entity == source then target else entity, version)
  {
    var after := MovedLinks(links, source, target);
    if entity == source && HasLink(links, target, version) {
      var t :| t in links && links[t].entity == target && links[t].version == version;
      assert after[t] == links[t];
    } else {
      var r :| r in links && links[r].entity == entity && links[r].version == version;
      assert r in after;
    }
  }

  lemma MergeKeepsLinks(links: map<nat, LinkRow>, merges: seq<Merge>, linked: set<(nat, nat)>, source: nat, target: nat)
    requires HoldsLinks(links, merges, linked) && source != target
    ensures HoldsLinks(MovedLinks(links, source, target), merges + [Merge(source, target)], linked)
  {
    var links' := MovedLinks(links, source, target);
    var merges' := merges + [Merge(source, target)];
    forall x, v | (x, v) in linked ensures HasLink(links', Root(merges', x), v) {
      RootAfterMerge(merges, Merge(source, target), x);
      LinkMoves(links, source, target, Root(merges, x), v);
    }
    forall r | r in links' ensures LinkGiven(merges', linked, links'[r]) {
      assert LinkGiven(merges, linked, links[r]);
      var x :| (x, links[r].version) in linked && Root(merges, x) == links[r].entity;
      RootAfterMerge(merges, Merge(source, target), x);
    }
  }

  lemma MergeKeepsEdges(entities: map<nat, Entity>, edges: map<nat, EdgeRow>, source: nat, target: nat)
    requires source != target && Unmerged(entities, source) && Unmerged(entities, target)
    requires forall r | r in edges :: EndUnmerged(entities, edges[r].src) && EndUnmerged(entities, edges[r].dst)
    ensures var entities' := entities[source := entities[source].(status := MERGED)];
            var edges' := MergedEdges(edges, source, target);
            forall r | r in edges' :: EndUnmerged(entities', edges'[r].src) && EndUnmerged(entities', edges'[r].dst)
  {
    MergeRedirectsEdges(edges, source, target);
  }

  lemma MergeKeepsPlaces(s: Registry, source: nat, target: nat)
    requires NothingOnMerged(s) && MergeInto(s, source, target).Ok?
    ensures NothingOnMerged(MergeInto(s, source, target).value)
  {
    MergeKeepsEdges(s.entities, s.edges, source, target);
  }

  lemma MergeKeeps(run: Run, source: nat, target: nat)
    requires Inv(run)
    ensures var a := MergeInto(run.db, source, target); a.Ok? ==> Inv(run.(db := a.value))
  {
    var s := run.db;
    if MergeInto(s, source, target).Ok? {
      MergeKeepsPlaces(s, source, target);
      MergeKeepsForest(s.entities, s.merges, source, target);
      MovedAliasesUnique(s.aliases, source, target);
      MovedLinksUnique(s.links, source, target);
      MergeKeepsAliases(s.aliases, s.merges, run.aliased, source, target);
      MergeKeepsLinks(s.links, s.merges, run.linked, source, target);
      assert UniqueNames(MergeInto(s, source, target).value.entities);
    }
  }

  lemma StepKeepsInv(run: Run, op: Op)
    requires Inv(run) && ToUnmerged(run.db, op)
    ensures Inv(Next(run, op))
  {
    assert run.aliased + {} == run.aliased && run.linked + {} == run.linked;
    match op
    case CreateEntity(id, workspace, entityType, name) => CreateEntityKeeps(run, id, workspace, entityType, name);
    case AddAlias(row, entity, alias) => AddAliasKeeps(run, row, entity, alias);
    case AttachEntity(row, version, entity, mentions) => AttachKeeps(run, row, version, entity, mentions);
    case CreateEdge(row, edge) => CreateEdgeKeeps(run, row, edge);
    case MergeEntities(source, target) => MergeKeeps(run, source, target);
  }

  /** A merge keeps every version link's version and mention count, and takes no link but the source's away. */
  lemma LinksKeepMentions(links: map<nat, LinkRow>, source: nat, target: nat, r: nat)
    requires source != target
    ensures var after := MovedLinks(links, source, target);
            && (r in after ==>
                  r in links && after[r].version == links[r].version && after[r].mentions == links[r].mentions
                  && after[r].entity == if links[r].entity == source then target else links[r].entity)
            && (r in links && r !in after ==>
                  links[r].entity == source
                  && exists p :: p in links && links[p].entity == target && links[p].version == links[r].version)
  {
  }

  /** Every entity is in one workspace with its root. */
  ghost predicate RootsInWorkspace(entities: map<nat, Entity>, merges: seq<Merge>) {
    forall x | x in entities ::
      Root(merges, x) in entities && entities[Root(merges, x)].workspace == entities[x].workspace
  }

  lemma CreateKeepsWorkspaces(entities: map<nat, Entity>, merges: seq<Merge>, id: nat, e: Entity)
    requires MergesOk(entities, merges) && RootsInWorkspace(entities, merges) && id !in entities
    ensures RootsInWorkspace(entities[id := e], merges)
  {
    RootOfUntouched(merges, id);
    var entities' := entities[id := e];
    forall x | x in entities'
      ensures Root(merges, x) in entities' && entities'[Root(merges, x)].workspace == entities'[x].workspace
    {
      assert x != id ==> Root(merges, x) in entities;
    }
  }

  lemma MergeKeepsWorkspaces(entities: map<nat, Entity>, merges: seq<Merge>, source: nat, target: nat)
    requires RootsInWorkspace(entities, merges) && source in entities && target in entities
    requires entities[source].workspace == entities[target].workspace
    ensures RootsInWorkspace(entities[source := entities[source].(status := MERGED)], merges + [Merge(source, target)])
  {
    var entities', merges' := entities[source := entities[source].(status := MERGED)], merges + [Merge(source, target)];
    forall x | x in entities'
      ensures Root(merges', x) in entities' && entities'[Root(merges', x)].workspace == entities'[x].workspace
    {
      RootAfterMerge(merges, Merge(source, target), x);
    }
  }

  lemma StepKeepsWorkspaces(run: Run, op: Op)
    requires MergesOk(run.db.entities, run.db.merges) && RootsInWorkspace(run.db.entities, run.db.merges)
    ensures RootsInWorkspace(Next(run, op).db.entities, Next(run, op).db.merges)
  {
    if Apply(run.db, op).Ok? {
      match op
      case CreateEntity(id, workspace, entityType, name) =>
        CreateKeepsWorkspaces(run.db.entities, run.db.merges, id, Entity(workspace, entityType, name, ACTIVE));
      case MergeEntities(source, target) =>
        MergeKeepsWorkspaces(run.db.entities, run.db.merges, source, target);
      case _ =>
    }
  }

  /** Merges never cross workspaces: after any such run an entity and its root share one. */
  lemma {:induction false} RootSharesWorkspace(ops: seq<Op>)
    requires AllToUnmerged(ops)
    ensures RootsInWorkspace(Exec(ops).db.entities, Exec(ops).db.merges)
  {
    if ops != [] {
      var n := |ops| - 1;
      PrefixToUnmerged(ops, n);
      RunsKeepInv(ops[..n]);
      RootSharesWorkspace(ops[..n]);
      StepKeepsWorkspaces(Exec(ops[..n]), ops[n]);
    }
  }

  /** The invariant holds after every run whose caller adds aliases, links and edges to unmerged entities only. */
  lemma {:induction false} RunsKeepInv(ops: seq<Op>)
    requires AllToUnmerged(ops)
    ensures Inv(Exec(ops))
  {
    if ops != [] {
      var n := |ops| - 1;
      var init, op := ops[..n], ops[n];
      PrefixToUnmerged(ops, n);
      RunsKeepInv(init);
      if Apply(Exec(init).db, op).Ok? {
        StepKeepsInv(Exec(init), op);
      }
    }
  }

  /** Merge links form a forest: the target of a merge is merged itself only later, so following merges never leads
      round in a circle; and a merged entity has the root of the entity it was merged into. */
  lemma MergesFormForest(ops: seq<Op>, i: nat)
    requires AllToUnmerged(ops) && i < |Exec(ops).db.merges|
    ensures var merges := Exec(ops).db.merges;
            && (forall j | 0 <= j < |merges| && merges[j].source == merges[i].target :: i < j)
            && Root(merges, merges[i].source) == Root(merges, merges[i].target)
  {
    RunsKeepInv(ops);
    SameRoot(Exec(ops).db.merges, i);
  }

  /** From its own merge on, source and target stand or fall together. */
  lemma {:induction false} SameRoot(merges: seq<Merge>, i: nat)
    requires i < |merges|
    requires forall a, b | 0 <= a < b < |merges| :: merges[a].source != merges[b].source
    requires forall a, b | 0 <= a <= b < |merges| :: merges[a].source != merges[b].target
    ensures Root(merges, merges[i].source) == Root(merges, merges[i].target)
  {
    var n := |merges| - 1;
    if i < n {
      SameRoot(merges[..n], i);
    } else {
      RootOfUntouched(merges[..n], merges[n].source);
      RootOfUntouched(merges[..n], merges[n].target);
    }
  }

  /** After any such run an unmerged entity holds exactly the aliases, and exactly the version links, that were
      given to the entities merged into it (and to itself), and a merged entity holds none. */
  lemma RootsHoldTheUnion(ops: seq<Op>, x: nat, alias: string, version: nat)
    requires AllToUnmerged(ops) && x in Exec(ops).db.entities
    ensures var run, s := Exec(ops), Exec(ops).db;
            && (HasAlias(s.aliases, x, alias)
                <==> exists y :: (y, alias) in run.aliased && Root(s.merges, y) == x)
            && (HasLink(s.links, x, version)
                <==> exists y :: (y, version) in run.linked && Root(s.merges, y) == x)
            && (Merged(s.entities, x) ==> !HasAlias(s.aliases, x, alias) && !HasLink(s.links, x, version))
  {
    RunsKeepInv(ops);
    var run, s := Exec(ops), Exec(ops).db;
    if r :| r in s.aliases && s.aliases[r] == AliasRow(x, alias) {
      assert AliasGiven(s.merges, run.aliased, s.aliases[r]);
    }
    if r :| r in s.links && s.links[r].entity == x && s.links[r].version == version {
      assert LinkGiven(s.merges, run.linked, s.links[r]);
    }
  }

  /** The services do not check that an entity given an alias, a link or an edge is still unmerged. Merged entities
      stay bare exactly when the caller checks. */
  lemma BareIffCallerChecks(run: Run, op: Op)
    requires Inv(run) && Apply(run.db, op).Ok? && !op.CreateEntity? && !op.MergeEntities?
    ensures NothingOnMerged(Next(run, op).db) <==> ToUnmerged(run.db, op)
  {
    if ToUnmerged(run.db, op) {
      StepKeepsInv(run, op);
    } else {
      CarelessCallMarksMerged(run.db, op);
    }
  }

  lemma TwoEntities(name: string, other: string)
    requires name != other
    ensures var db := Exec([CreateEntity(1, 0, 0, name), CreateEntity(2, 0, 0, other)]).db;
            && db.entities == map[1 := Entity(0, 0, name, ACTIVE), 2 := Entity(0, 0, other, ACTIVE)]
            && db.aliases == map[]
  {
    var a, b := CreateEntity(1, 0, 0, name), CreateEntity(2, 0, 0, other);
    assert [a][..0] == [] && [a, b][..1] == [a];
    assert Exec([a]).db == Registry(map[1 := Entity(0, 0, name, ACTIVE)], map[], map[], map[], []);
  }

  /** A run that hangs an alias on a merged entity: create 1 and 2, merge 1 into 2, add an alias to 1. */
  lemma AliasOfMerged(name: string, other: string, alias: string)
    requires name != other
    ensures var ops := [CreateEntity(1, 0, 0, name), CreateEntity(2, 0, 0, other),
                        MergeEntities(1, 2), AddAlias(0, 1, alias)];
            Merged(Exec(ops).db.entities, 1) && HasAlias(Exec(ops).db.aliases, 1, alias)
  {
    var a, b, c, d := CreateEntity(1, 0, 0, name), CreateEntity(2, 0, 0, other),
                      MergeEntities(1, 2), AddAlias(0, 1, alias);
    assert [a, b, c][..2] == [a, b] && [a, b, c, d][..3] == [a, b, c];
    TwoEntities(name, other);
    assert Exec([a, b, c]).db.entities == map[1 := Entity(0, 0, name, MERGED), 2 := Entity(0, 0, other, ACTIVE)];
    assert Exec([a, b, c]).db.aliases == map[];
    assert Exec([a, b, c, d]).db.aliases[0] == AliasRow(1, alias);
  }

  /** Merged entities are bare throughout a run if and only if every alias, attach and edge call of the run that
      succeeds names unmerged entities only. */
  lemma BareThroughoutIff(ops: seq<Op>)
    ensures (forall n | 0 <= n <= |ops| :: NothingOnMerged(Exec(ops[..n]).db)) <==> AllToUnmerged(ops)
  {
    if AllToUnmerged(ops) {
      forall n | 0 <= n <= |ops| ensures NothingOnMerged(Exec(ops[..n]).db) {
        PrefixToUnmerged(ops, n);
        RunsKeepInv(ops[..n]);
      }
    }
    if forall n | 0 <= n <= |ops| :: NothingOnMerged(Exec(ops[..n]).db) {
      forall i | 0 <= i < |ops| && Apply(Exec(ops[..i]).db, ops[i]).Ok? ensures ToUnmerged(Exec(ops[..i]).db, ops[i]) {
        assert NothingOnMerged(Exec(ops[..i]).db) && NothingOnMerged(Exec(ops[..i + 1]).db);
        BareMeansCareful(ops, i);
      }
    }
  }

  lemma BareMeansCareful(ops: seq<Op>, i: nat)
    requires i < |ops| && Apply(Exec(ops[..i]).db, ops[i]).Ok?
    requires NothingOnMerged(Exec(ops[..i]).db) && NothingOnMerged(Exec(ops[..i + 1]).db)
    ensures ToUnmerged(Exec(ops[..i]).db, ops[i])
  {
    assert ops[..i + 1][..i] == ops[..i];
    if !ToUnmerged(Exec(ops[..i]).db, ops[i]) {
      CarelessCallMarksMerged(Exec(ops[..i]).db, ops[i]);
    }
  }

  lemma PrefixToUnmerged(ops: seq<Op>, n: nat)
    requires AllToUnmerged(ops) && n <= |ops|
    ensures AllToUnmerged(ops[..n])
  {
    forall i | 0 <= i < n ensures ops[..n][..i] == ops[..i] {
    }
  }

  lemma CarelessCallMarksMerged(s: Registry, op: Op)
    requires NothingOnMerged(s) && Apply(s, op).Ok? && !ToUnmerged(s, op)
    ensures !NothingOnMerged(Apply(s, op).value)
  {
    var s' := Apply(s, op).value;
    match op
    case AddAlias(row, entity, alias) =>
      assert !HasAlias(s.aliases, entity, alias);
      assert s'.aliases[row].entity == entity;
    case AttachEntity(row, version, entity, mentions) =>
      assert !HasLink(s.links, entity, version);
      assert s'.links[row].entity == entity;
    case CreateEdge(row, edge) =>
      assert s'.edges[row] == edge;
  }
}
