/** The tables of the publish-and-index pipeline and what each committed service call makes of them. One workspace;
    rows are never deleted and their ids are their positions. A call that fails changes nothing. */
module Catalog {
  import opened Domain
  import opened Embedding
  import Chunker

  datatype ContextObject = ContextObject(slug: string, coType: COType, current: Option<nat>, lifecycle: LifecycleState)

  /** `paragraphs` is the indexable text of the version, split on blank lines; `hasSafety` says that its structured
      data carries a safety boundary or escalation guidance. */
  datatype Version = Version(owner: nat, paragraphs: seq<string>, risk: RiskBand, hasSafety: bool,
                             validity: ValidityStatus)

  datatype Review = Review(version: nat, outcome: ReviewOutcome)

  datatype Contradiction = Contradiction(left: nat, right: nat, status: ContradictionStatus, resolution: Option<nat>)

  datatype EventKind = VERSION_PUBLISHED | VERSION_REINDEXED | OTHER_EVENT

  /** An outbox row; `version` is the version its payload names. */
  datatype Event = Event(kind: EventKind, version: nat, processed: bool)

  datatype State = State(objects: seq<ContextObject>, versions: seq<Version>, reviews: seq<Review>,
                         contradictions: seq<Contradiction>, segments: map<nat, seq<Segment>>, outbox: seq<Event>)

  const EMPTY: State := State([], [], [], [], map[], [])

  const OTHER: Event := Event(OTHER_EVENT, 0, false)

  const MAX_CHARS: nat := 900
  const OVERLAP: nat := 150

  function SegmentsOf(s: State, v: nat): seq<Segment> {
    if v in s.segments then s.segments[v] else []
  }

  // ---------------------------------------------------------------- registry

  predicate SlugTaken(s: State, slug: string) {
    exists o | 0 <= o < |s.objects| :: s.objects[o].slug == slug
  }

  function CreateObject(s: State, slug: string, coType: COType): Result<State> {
    if SlugTaken(s, slug) then Err(ConflictError)
    else Ok(s.(objects := s.objects + [ContextObject(slug, coType, None, DRAFT)], outbox := s.outbox + [OTHER]))
  }

  function CreateVersion(s: State, version: Version): Result<State> {
    if version.owner >= |s.objects| then Err(NotFoundError)
    else Ok(s.(versions := s.versions + [version], outbox := s.outbox + [OTHER]))
  }

  /** The fields of a request that were set. */
  datatype Patch = Patch(paragraphs: Option<seq<string>>, risk: Option<RiskBand>, hasSafety: Option<bool>,
                         validity: Option<ValidityStatus>)

  function Patched(v: Version, p: Patch): Version {
    Version(v.owner,
            if p.paragraphs.Some? then p.paragraphs.value else v.paragraphs,
            if p.risk.Some? then p.risk.value else v.risk,
            if p.hasSafety.Some? then p.hasSafety.value else v.hasSafety,
            if p.validity.Some? then p.validity.value else v.validity)
  }

  /** The version exists and names the object as its owner; whether there is such an object is not looked up. */
  function VersionBelongs(s: State, o: nat, v: nat): Result<()> {
    if v >= |s.versions| then Err(NotFoundError)
    else if s.versions[v].owner != o then Err(ConflictError)
    else Ok(())
  }

  /** The errors of a call that looks up an object and one of its versions. */
  function Belongs(s: State, o: nat, v: nat): Result<()> {
    if o >= |s.objects| then Err(NotFoundError) else VersionBelongs(s, o, v)
  }

  function UpdateDraft(s: State, o: nat, v: nat, patch: Patch): Result<State> {
    var belongs := Belongs(s, o, v);
    if belongs.Err? then Err(belongs.error)
    else if s.objects[o].current == Some(v) then Err(ForbiddenError)
    else Ok(s.(versions := s.versions[v := Patched(s.versions[v], patch)], outbox := s.outbox + [OTHER]))
  }

  predicate Approved(s: State, v: nat) {
    Review(v, APPROVED) in s.reviews
  }

  predicate Unresolved(c: Contradiction, v: nat): (r: bool)
    ensures r <==> v in {c.left, c.right} && c.status in {OPEN, TRIAGED}
  {
    (c.left == v || c.right == v) && (c.status.OPEN? || c.status.TRIAGED?)
  }

  /** What the gate asks of a version: an approved review if it is high risk, safety text if its type needs it, and
      no contradiction left open. */
  ghost predicate GateOpen(s: State, v: nat, coType: COType)
    requires v < |s.versions|
  {
    && (HighRisk(s.versions[v].risk) ==> Approved(s, v))
    && (NeedsSafetyBoundary(coType) ==> s.versions[v].hasSafety)
    && (forall c | c in s.contradictions :: !Unresolved(c, v))
  }

  /** The versions after `v` became current in place of `prior`. */
  function Superseding(versions: seq<Version>, prior: Option<nat>, v: nat): seq<Version>
    requires v < |versions|
  {
    var older := if prior.Some? && prior.value < |versions| && prior.value != v
                 then versions[prior.value := versions[prior.value].(validity := SUPERSEDED)] else versions;
    older[v := older[v].(validity := CURRENT)]
  }

  ghost function Publish(s: State, o: nat, v: nat, bypass: bool): Result<State> {
    var belongs := Belongs(s, o, v);
    if belongs.Err? then Err(belongs.error)
    else if !bypass && !GateOpen(s, v, s.objects[o].coType) then Err(GateBlocked)
    else Ok(s.(versions := Superseding(s.versions, s.objects[o].current, v),
               objects := s.objects[o := s.objects[o].(current := Some(v), lifecycle := PUBLISHED)],
               outbox := s.outbox + [Event(VERSION_PUBLISHED, v, false)]))
  }

  function Deprecate(s: State, o: nat): Result<State> {
    if o >= |s.objects| then Err(NotFoundError)
    else Ok(s.(objects := s.objects[o := s.objects[o].(lifecycle := DEPRECATED_OBJECT)], outbox := s.outbox + [OTHER]))
  }

  predicate Withdrawn(st: ValidityStatus) {
    st.DEPRECATED? || st.RETRACTED?
  }

  function MarkValidity(s: State, o: nat, v: nat, st: ValidityStatus): Result<State> {
    var belongs := VersionBelongs(s, o, v);
    if belongs.Err? then Err(belongs.error)
    else if Withdrawn(st) && o >= |s.objects| then Err(NotFoundError)
    else
      var s' := s.(versions := s.versions[v := s.versions[v].(validity := st)]);
      if Withdrawn(st) && s.objects[o].current == Some(v)
      then Ok(s'.(objects := s.objects[o := s.objects[o].(lifecycle := DEPRECATED_OBJECT)]))
      else Ok(s')
  }

  // ------------------------------------------------------------------ review

  /** A review acts on the version it names and on that version's object, current or not. */
  function SubmitReview(s: State, v: nat, outcome: ReviewOutcome): Result<State> {
    if v >= |s.versions| || s.versions[v].owner >= |s.objects| then Err(NotFoundError)
    else
      var o := s.versions[v].owner;
      var s' := s.(reviews := s.reviews + [Review(v, outcome)], outbox := s.outbox + [OTHER]);
      match outcome
      case APPROVED => Ok(s'.(objects := s.objects[o := s.objects[o].(lifecycle := REVIEWED)]))
      case REVIEW_VERIFIED => Ok(s'.(objects := s.objects[o := s.objects[o].(lifecycle := VERIFIED)]))
      case REVIEW_DEPRECATED =>
        Ok(s'.(objects := s.objects[o := s.objects[o].(lifecycle := DEPRECATED_OBJECT)],
               versions := s.versions[v := s.versions[v].(validity := DEPRECATED)]))
      case REVIEW_DISPUTED => Ok(s'.(versions := s.versions[v := s.versions[v].(validity := DISPUTED)]))
      case _ => Ok(s')
  }

  function MarkVerified(s: State, o: nat, v: nat): Result<State> {
    var belongs := Belongs(s, o, v);
    if belongs.Err? then Err(belongs.error)
    else Ok(s.(objects := s.objects[o := s.objects[o].(lifecycle := VERIFIED)]))
  }

  function OpenContradiction(s: State, left: nat, right: nat): Result<State> {
    if left == right then Err(ConflictError)
    else if left >= |s.versions| || right >= |s.versions| then Err(NotFoundError)
    else Ok(s.(contradictions := s.contradictions + [Contradiction(left, right, OPEN, None)],
               outbox := s.outbox + [OTHER]))
  }

  /** `resolution` is the version that resolves the case, if one is named. */
  function ResolveContradiction(s: State, c: nat, resolution: Option<nat>, status: ContradictionStatus): Result<State> {
    if c >= |s.contradictions| then Err(ConflictError)
    else if resolution.Some? && resolution.value >= |s.versions| then Err(NotFoundError)
    else
      Ok(s.(contradictions := s.contradictions[c := s.contradictions[c].(status := status, resolution := resolution)],
            outbox := s.outbox + [OTHER]))
  }

  // -------------------------------------------------------------------- seed

  /** A node of a seed pack, with the object's type, risk band and lifecycle already resolved. */
  datatype SeedNode = SeedNode(slug: string, coType: COType, lifecycle: LifecycleState, paragraphs: seq<string>,
                               risk: RiskBand, hasSafety: bool)

  predicate HeldForReview(n: SeedNode) {
    n.lifecycle == PUBLISHED && HighRisk(n.risk)
  }

  /** A known slug is skipped. A new object always gets its version as current one; the publish event is left out,
      and the object kept in review, when high-risk content was to be published. */
  function Seed(s: State, n: SeedNode): State {
    if SlugTaken(s, n.slug) then s
    else
      var v := |s.versions|;
      s.(objects := s.objects + [ContextObject(n.slug, n.coType, Some(v),
                                               if HeldForReview(n) then IN_REVIEW else n.lifecycle)],
         versions := s.versions + [Version(|s.objects|, n.paragraphs, n.risk, n.hasSafety, CURRENT)],
         outbox := if HeldForReview(n) then s.outbox else s.outbox + [Event(VERSION_PUBLISHED, v, false)])
  }

  // ---------------------------------------------------------------- handlers

  /** Fresh segments of a text, none embedded. */
  function Fresh(paragraphs: seq<string>): seq<Segment> {
    var chunks := Chunker.Chunks(paragraphs, MAX_CHARS, OVERLAP);
    seq(|chunks|, i requires 0 <= i < |chunks| => Segment(chunks[i], None))
  }

  function Reindex(s: State, v: nat): Result<State> {
    if v >= |s.versions| then Err(NotFoundError)
    else Ok(s.(segments := s.segments[v := Fresh(s.versions[v].paragraphs)],
               outbox := s.outbox + [Event(VERSION_REINDEXED, v, false)]))
  }

  /** Without a provider nothing is embedded, and that is no error. */
  function Embed(s: State, v: nat, provider: Option<Provider>): State {
    if provider.None? || SegmentsOf(s, v) == [] then s
    else s.(segments := s.segments[v := EmbedSegments(SegmentsOf(s, v), provider.value)])
  }

  /** The handler's own commit for event `e`. */
  function Dispatch(s: State, e: nat, provider: Option<Provider>): Result<State>
    requires e < |s.outbox|
  {
    match s.outbox[e].kind
    case VERSION_PUBLISHED => Reindex(s, s.outbox[e].version)
    case VERSION_REINDEXED => Ok(Embed(s, s.outbox[e].version, provider))
    case OTHER_EVENT => Ok(s)
  }

  function MarkProcessed(s: State, e: nat): State
    requires e < |s.outbox|
  {
    s.(outbox := s.outbox[e := s.outbox[e].(processed := true)])
  }
}
