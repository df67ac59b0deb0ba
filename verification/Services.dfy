/** The registry, review, indexing and embedding services over the mutable tables, and the worker's poll loop. */
module Services {
  import opened Domain
  import opened Embedding
  import opened Catalog
  import Chunker
  import Outbox
  import Pipeline

  datatype Blocker = NEEDS_APPROVAL | NEEDS_SAFETY_BOUNDARY | OPEN_CONTRADICTIONS(count: nat)

  datatype GateResult = GateResult(passed: bool, blockers: seq<Blocker>)

  datatype TableName = OBJECTS | VERSIONS | REVIEWS | CONTRADICTIONS | SEGMENTS | OUTBOX

  class CatalogStore {
    var objects: seq<ContextObject>
    var versions: seq<Version>
    var reviews: seq<Review>
    var contradictions: seq<Contradiction>
    var segments: map<nat, seq<Segment>>
    var outbox: seq<Event>

    ghost function Tables(): State
      reads this
    {
      State(objects, versions, reviews, contradictions, segments, outbox)
    }

    constructor ()
      ensures Tables() == EMPTY
    {
      objects, versions, reviews, contradictions, segments, outbox := [], [], [], [], map[], [];
    }

    /** The call did what `a` says to the tables `before` it; a failed call leaves them alone. */
    ghost predicate Did(before: State, a: Result<State>, r: Result<()>)
      reads this
    {
      if a.Ok? then r.Ok? && Tables() == a.value else r == Err(a.error) && Tables() == before
    }

    /** The listed tables are as before, and all of them if the call failed. */
    ghost predicate Same(before: State, r: Result<()>, tables: set<TableName>)
      reads this
    {
      && (r.Err? ==> Tables() == before)
      && (OBJECTS in tables ==> objects == before.objects)
      && (VERSIONS in tables ==> versions == before.versions)
      && (REVIEWS in tables ==> reviews == before.reviews)
      && (CONTRADICTIONS in tables ==> contradictions == before.contradictions)
      && (SEGMENTS in tables ==> segments == before.segments)
      && (OUTBOX in tables ==> outbox == before.outbox)
    }

    method CheckBelongs(o: nat, v: nat) returns (r: Result<()>)
      ensures r == Belongs(Tables(), o, v)
    {
      if o >= |objects| {
        return Err(NotFoundError);
      }
      r := AssertVersionBelongs(o, v);
    }

    method AssertVersionBelongs(o: nat, v: nat) returns (r: Result<()>)
      ensures r == VersionBelongs(Tables(), o, v)
    {
      if v >= |versions| {
        return Err(NotFoundError);
      }
      if versions[v].owner != o {
        return Err(ConflictError);
      }
      r := Ok(());
    }

    method CreateObject(slug: string, coType: COType) returns (r: Result<()>)
      modifies this
      ensures Did(old(Tables()), Catalog.CreateObject(old(Tables()), slug, coType), r)
      ensures r.Ok? <==> forall o | o in old(objects) :: o.slug != slug
      ensures r.Ok? ==> objects == old(objects) + [ContextObject(slug, coType, None, DRAFT)]
                        && outbox == old(outbox) + [OTHER]
      ensures Same(old(Tables()), r, {VERSIONS, REVIEWS, CONTRADICTIONS, SEGMENTS})
    {
      if exists o | 0 <= o < |objects| :: objects[o].slug == slug {
        return Err(ConflictError);
      }
      objects := objects + [ContextObject(slug, coType, None, DRAFT)];
      outbox := outbox + [OTHER];
      r := Ok(());
    }

    method CreateVersion(version: Version) returns (r: Result<()>)
      modifies this
      ensures Did(old(Tables()), Catalog.CreateVersion(old(Tables()), version), r)
      ensures r.Ok? <==> version.owner < |old(objects)|
      ensures r.Ok? ==> versions == old(versions) + [version] && outbox == old(outbox) + [OTHER]
      ensures Same(old(Tables()), r, {OBJECTS, REVIEWS, CONTRADICTIONS, SEGMENTS})
    {
      if version.owner >= |objects| {
        return Err(NotFoundError);
      }
      versions := versions + [version];
      outbox := outbox + [OTHER];
      r := Ok(());
    }

    method UpdateDraftVersion(o: nat, v: nat, patch: Patch) returns (r: Result<()>)
      modifies this
      ensures Did(old(Tables()), UpdateDraft(old(Tables()), o, v, patch), r)
      ensures r.Ok? <==> o < |old(objects)| && v < |old(versions)| && old(versions)[v].owner == o
                         && old(objects)[o].current != Some(v)
      ensures r.Ok? ==> var was := old(versions)[v];
                        && versions == old(versions)[v := Version(was.owner, patch.paragraphs.GetOr(was.paragraphs),
                                                                  patch.risk.GetOr(was.risk),
                                                                  patch.hasSafety.GetOr(was.hasSafety),
                                                                  patch.validity.GetOr(was.validity))]
                        && outbox == old(outbox) + [OTHER]
      ensures Same(old(Tables()), r, {OBJECTS, REVIEWS, CONTRADICTIONS, SEGMENTS})
    {
      r := CheckBelongs(o, v);
      if r.Err? {
        return r;
      }
      if objects[o].current == Some(v) {
        return Err(ForbiddenError);
      }
      if patch.paragraphs.Some? {
        versions := versions[v := versions[v].(paragraphs := patch.paragraphs.value)];
      }
      if patch.risk.Some? {
        versions := versions[v := versions[v].(risk := patch.risk.value)];
      }
      if patch.hasSafety.Some? {
        versions := versions[v := versions[v].(hasSafety := patch.hasSafety.value)];
      }
      if patch.validity.Some? {
        versions := versions[v := versions[v].(validity := patch.validity.value)];
      }
      assert versions == old(versions)[v := Patched(old(versions)[v], patch)];
      outbox := outbox + [OTHER];
    }

    /** The publish gate: every rule that fails adds a blocker. */
    method CheckGate(v: nat, coType: COType) returns (g: GateResult)
      requires v < |versions|
      ensures g.passed <==> GateOpen(Tables(), v, coType)
      ensures g.passed <==> g.blockers == []
      ensures NEEDS_APPROVAL in g.blockers <==>
                (versions[v].risk == HIGH || versions[v].risk == EXPERT_ONLY) && Review(v, APPROVED) !in reviews
      ensures NEEDS_SAFETY_BOUNDARY in g.blockers <==>
                (coType == SKILL_GUIDE || coType == PROJECT_BLUEPRINT || coType == LOCAL_ADAPTATION)
                && !versions[v].hasSafety
      ensures forall n :: OPEN_CONTRADICTIONS(n) in g.blockers <==> n > 0 && n == |UnresolvedCases(v)|
    {
      var blockers := [];
      if HighRisk(versions[v].risk) {
        var approvals := CountApprovals(v);
        if approvals == 0 {
          blockers := blockers + [NEEDS_APPROVAL];
        }
      }
      if NeedsSafetyBoundary(coType) {
        if !versions[v].hasSafety {
          blockers := blockers + [NEEDS_SAFETY_BOUNDARY];
        }
      }
      var open := CountOpenContradictions(v);
      GateIsOpenIff(v, coType, open);
      if open > 0 {
        blockers := blockers + [OPEN_CONTRADICTIONS(open)];
      }
      g := GateResult(|blockers| == 0, blockers);
    }

    lemma GateIsOpenIff(v: nat, coType: COType, open: nat)
      requires v < |versions| && (open > 0 <==> exists c :: c in contradictions && Unresolved(c, v))
      ensures GateOpen(Tables(), v, coType) <==>
                !(HighRisk(versions[v].risk) && Review(v, APPROVED) !in reviews)
                && !(NeedsSafetyBoundary(coType) && !versions[v].hasSafety) && open == 0
    {
    }

    ghost function Approvals(v: nat): set<nat>
      reads this
    {
      set i: nat | i < |reviews| && reviews[i] == Review(v, APPROVED)
    }

    ghost function UnresolvedCases(v: nat): set<nat>
      reads this
    {
      set i: nat | i < |contradictions| && Unresolved(contradictions[i], v)
    }

    method CountApprovals(v: nat) returns (n: nat)
      ensures n == |Approvals(v)|
      ensures n > 0 <==> Approved(Tables(), v)
    {
      n := 0;
      ghost var found: set<nat> := {};
      for i := 0 to |reviews|
        invariant n == |found| && forall k :: k in found <==> k in Approvals(v) && k < i
      {
        if reviews[i].version == v && reviews[i].outcome == APPROVED {
          n, found := n + 1, found + {i};
        }
      }
      assert found == Approvals(v);
      if k: nat :| k < |reviews| && reviews[k] == Review(v, APPROVED) {
        assert k in found;
      }
    }

    method CountOpenContradictions(v: nat) returns (n: nat)
      ensures n == |UnresolvedCases(v)|
      ensures n > 0 <==> exists c :: c in contradictions && Unresolved(c, v)
    {
      n := 0;
      ghost var found: set<nat> := {};
      for i := 0 to |contradictions|
        invariant n == |found| && forall k :: k in found <==> k in UnresolvedCases(v) && k < i
      {
        if Unresolved(contradictions[i], v) {
          n, found := n + 1, found + {i};
        }
      }
      assert found == UnresolvedCases(v);
      if k: nat :| k < |contradictions| && Unresolved(contradictions[k], v) {
        assert k in found;
      }
    }

    method PublishVersion(o: nat, v: nat, bypass: bool := false) returns (r: Result<()>)
      modifies this
      ensures Did(old(Tables()), Publish(old(Tables()), o, v, bypass), r)
      ensures r.Ok? <==> o < |old(objects)| && v < |old(versions)| && old(versions)[v].owner == o
                         && (bypass || old(GateOpen(Tables(), v, objects[o].coType)))
      ensures r.Ok? ==> var prior := old(objects)[o].current;
                        && |versions| == |old(versions)|
                        && (forall u: nat | u < |versions| ::
                              versions[u] == if u == v then old(versions)[u].(validity := CURRENT)
                                             else if prior == Some(u) then old(versions)[u].(validity := SUPERSEDED)
                                             else old(versions)[u])
      ensures r.Ok? ==> var was := old(objects)[o];
                        && objects == old(objects)[o := ContextObject(was.slug, was.coType, Some(v), PUBLISHED)]
                        && outbox == old(outbox) + [Event(VERSION_PUBLISHED, v, false)]
      ensures Same(old(Tables()), r, {REVIEWS, CONTRADICTIONS, SEGMENTS})
    {
      r := CheckBelongs(o, v);
      if r.Err? {
        return r;
      }
      if !bypass {
        var gate := CheckGate(v, objects[o].coType);
        if !gate.passed {
          return Err(GateBlocked);
        }
      }
      var prior := objects[o].current;
      if prior.Some? && prior.value != v && prior.value < |versions| {
        versions := versions[prior.value := versions[prior.value].(validity := SUPERSEDED)];
      }
      versions := versions[v := versions[v].(validity := CURRENT)];
      objects := objects[o := objects[o].(current := Some(v))];
      objects := objects[o := objects[o].(lifecycle := PUBLISHED)];
      outbox := outbox + [Event(VERSION_PUBLISHED, v, false)];
    }

    method DeprecateObject(o: nat) returns (r: Result<()>)
      modifies this
      ensures Did(old(Tables()), Deprecate(old(Tables()), o), r)
      ensures r.Ok? <==> o < |old(objects)|
      ensures r.Ok? ==> objects == old(objects)[o := old(objects)[o].(lifecycle := DEPRECATED_OBJECT)]
                        && outbox == old(outbox) + [OTHER]
      ensures Same(old(Tables()), r, {VERSIONS, REVIEWS, CONTRADICTIONS, SEGMENTS})
    {
      if o >= |objects| {
        return Err(NotFoundError);
      }
      objects := objects[o := objects[o].(lifecycle := DEPRECATED_OBJECT)];
      outbox := outbox + [OTHER];
      r := Ok(());
    }

    method MarkVersionValidity(o: nat, v: nat, st: ValidityStatus) returns (r: Result<()>)
      modifies this
      ensures Did(old(Tables()), MarkValidity(old(Tables()), o, v, st), r)
      ensures r.Ok? ==> v < |old(versions)| && old(versions)[v].owner == o
                        && versions == old(versions)[v := old(versions)[v].(validity := st)]
      ensures Same(old(Tables()), r, {REVIEWS, CONTRADICTIONS, SEGMENTS, OUTBOX})
      ensures objects != old(objects) ==>
                (st == DEPRECATED || st == RETRACTED) && Pipeline.Current(old(Tables()), o, v)
                && objects == old(objects)[o := old(objects)[o].(lifecycle := DEPRECATED_OBJECT)]
      ensures r.Ok? && (st == DEPRECATED || st == RETRACTED) && Pipeline.Current(Tables(), o, v) ==>
                objects[o].lifecycle == DEPRECATED_OBJECT
    {
      r := AssertVersionBelongs(o, v);
      if r.Err? {
        return r;
      }
      if (st == DEPRECATED || st == RETRACTED) && o >= |objects| {
        return Err(NotFoundError);
      }
      versions := versions[v := versions[v].(validity := st)];
      if st == DEPRECATED || st == RETRACTED {
        if objects[o].current == Some(v) {
          objects := objects[o := objects[o].(lifecycle := DEPRECATED_OBJECT)];
        }
      }
    }

    method SubmitReview(v: nat, outcome: ReviewOutcome) returns (r: Result<()>)
      modifies this
      ensures Did(old(Tables()), Catalog.SubmitReview(old(Tables()), v, outcome), r)
      ensures r.Ok? ==> var w, o := old(versions)[v], old(versions)[v].owner;
                        && versions[v].validity == (if outcome.REVIEW_DEPRECATED? then DEPRECATED
                                                    else if outcome.REVIEW_DISPUTED? then DISPUTED else w.validity)
                        && versions[v] == w.(validity := versions[v].validity)
                        && objects[o].lifecycle == (if outcome.APPROVED? then REVIEWED
                                                    else if outcome.REVIEW_VERIFIED? then VERIFIED
                                                    else if outcome.REVIEW_DEPRECATED? then DEPRECATED_OBJECT
                                                    else old(objects)[o].lifecycle)
                        && objects[o] == old(objects)[o].(lifecycle := objects[o].lifecycle)
                        && outbox == old(outbox) + [OTHER]
      ensures Same(old(Tables()), r, {CONTRADICTIONS, SEGMENTS})
      ensures r.Ok? ==> reviews == old(reviews) + [Review(v, outcome)]
                        && Approved(Tables(), v) == (outcome.APPROVED? || old(Approved(Tables(), v)))
      ensures forall u | 0 <= u < |old(versions)| && u != v :: u < |versions| && versions[u] == old(versions)[u]
      ensures forall o | 0 <= o < |old(objects)| && (v >= |versions| || versions[v].owner != o) ::
                o < |objects| && objects[o] == old(objects)[o]
    {
      if v >= |versions| || versions[v].owner >= |objects| {
        return Err(NotFoundError);
      }
      var o := versions[v].owner;
      reviews := reviews + [Review(v, outcome)];
      if outcome == APPROVED {
        objects := objects[o := objects[o].(lifecycle := REVIEWED)];
      } else if outcome == REVIEW_VERIFIED {
        objects := objects[o := objects[o].(lifecycle := VERIFIED)];
      } else if outcome == REVIEW_DEPRECATED {
        versions := versions[v := versions[v].(validity := DEPRECATED)];
        objects := objects[o := objects[o].(lifecycle := DEPRECATED_OBJECT)];
      } else if outcome == REVIEW_DISPUTED {
        versions := versions[v := versions[v].(validity := DISPUTED)];
      }
      outbox := outbox + [OTHER];
      r := Ok(());
    }

    method MarkVerified(o: nat, v: nat) returns (r: Result<()>)
      modifies this
      ensures Did(old(Tables()), Catalog.MarkVerified(old(Tables()), o, v), r)
      ensures r.Ok? <==> o < |old(objects)| && v < |old(versions)| && old(versions)[v].owner == o
      ensures r.Ok? ==> objects == old(objects)[o := old(objects)[o].(lifecycle := VERIFIED)]
      ensures Same(old(Tables()), r, {VERSIONS, REVIEWS, CONTRADICTIONS, SEGMENTS, OUTBOX})
    {
      r := CheckBelongs(o, v);
      if r.Err? {
        return r;
      }
      objects := objects[o := objects[o].(lifecycle := VERIFIED)];
    }

    method OpenContradiction(left: nat, right: nat) returns (r: Result<()>)
      modifies this
      ensures Did(old(Tables()), Catalog.OpenContradiction(old(Tables()), left, right), r)
      ensures r.Ok? <==> left != right && left < |old(versions)| && right < |old(versions)|
      ensures r.Ok? ==> contradictions == old(contradictions) + [Contradiction(left, right, OPEN, None)]
                        && outbox == old(outbox) + [OTHER]
      ensures Same(old(Tables()), r, {OBJECTS, VERSIONS, REVIEWS, SEGMENTS})
    {
      if left == right {
        return Err(ConflictError);
      }
      if left >= |versions| || right >= |versions| {
        return Err(NotFoundError);
      }
      contradictions := contradictions + [Contradiction(left, right, OPEN, None)];
      outbox := outbox + [OTHER];
      r := Ok(());
    }

    method ResolveContradiction(c: nat, resolution: Option<nat>, status: ContradictionStatus) returns (r: Result<()>)
      modifies this
      ensures Did(old(Tables()), Catalog.ResolveContradiction(old(Tables()), c, resolution, status), r)
      ensures r.Ok? <==> c < |old(contradictions)| && (resolution.Some? ==> resolution.value < |old(versions)|)
      ensures r.Ok? ==> var was := old(contradictions)[c];
                        && contradictions
                           == old(contradictions)[c := Contradiction(was.left, was.right, status, resolution)]
                        && outbox == old(outbox) + [OTHER]
      ensures Same(old(Tables()), r, {OBJECTS, VERSIONS, REVIEWS, SEGMENTS})
    {
      if c >= |contradictions| {
        return Err(ConflictError);
      }
      if resolution.Some? && resolution.value >= |versions| {
        return Err(NotFoundError);
      }
      contradictions := contradictions[c := contradictions[c].(resolution := resolution)];
      contradictions := contradictions[c := contradictions[c].(status := status)];
      outbox := outbox + [OTHER];
      r := Ok(());
    }

    /** Delete the version's segments, cut its text anew, insert one row a chunk, add the event, commit. */
    method ReindexVersion(v: nat) returns (r: Result<()>)
      modifies this
      ensures Did(old(Tables()), Reindex(old(Tables()), v), r)
      ensures r.Ok? <==> v < |old(versions)|
      ensures r.Ok? ==> v in segments && segments == old(segments)[v := segments[v]]
                        && outbox == old(outbox) + [Event(VERSION_REINDEXED, v, false)]
                        && |segments[v]| == |Chunker.Chunks(versions[v].paragraphs, 900, 150)|
                        && (forall i | 0 <= i < |segments[v]| ::
                              segments[v][i] == Segment(Chunker.Chunks(versions[v].paragraphs, 900, 150)[i], None))
      ensures Same(old(Tables()), r, {OBJECTS, VERSIONS, REVIEWS, CONTRADICTIONS})
    {
      if v >= |versions| {
        return Err(NotFoundError);
      }
      segments := segments - {v};
      var chunks := Chunker.ChunkText(versions[v].paragraphs, MAX_CHARS, OVERLAP);
      var rows: seq<Segment> := [];
      for ordinal := 0 to |chunks|
        invariant rows == Fresh(versions[v].paragraphs)[..ordinal]
      {
        rows := rows + [Segment(chunks[ordinal], None)];
      }
      assert rows == Fresh(versions[v].paragraphs);
      segments := segments[v := rows];
      assert segments == old(segments)[v := rows];
      outbox := outbox + [Event(VERSION_REINDEXED, v, false)];
      r := Ok(());
    }

    method EmbedVersion(v: nat, provider: Option<Provider>) returns (count: nat)
      modifies this
      ensures Tables() == Embed(old(Tables()), v, provider)
      ensures Same(old(Tables()), Ok(()), {OBJECTS, VERSIONS, REVIEWS, CONTRADICTIONS, OUTBOX})
      ensures segments.Keys == old(segments).Keys
      ensures forall u | u in segments && u != v :: segments[u] == old(segments)[u]
      ensures var before := SegmentsOf(old(Tables()), v);
              count == if provider.None? then 0 else |Missing(before, |before|)|
    {
      if provider.None? {
        return 0;
      }
      if v !in segments || segments[v] == [] {
        return 0;
      }
      var rows;
      rows, count := EmbedAll(segments[v], provider.value);
      segments := segments[v := rows];
    }

    /** Hand event `e` to its handler, which commits by itself. */
    method DispatchEvent(e: nat, provider: Option<Provider>) returns (r: Result<()>)
      requires e < |outbox|
      modifies this
      ensures Did(old(Tables()), Dispatch(old(Tables()), e, provider), r)
    {
      r := Ok(());
      match outbox[e].kind
      case VERSION_PUBLISHED => r := ReindexVersion(outbox[e].version);
      case VERSION_REINDEXED => var _ := EmbedVersion(outbox[e].version, provider);
      case OTHER_EVENT =>
    }

    /** The poll's query: the oldest unprocessed ids, at most a batch of them. */
    method SelectUnprocessed(batchSize: nat) returns (ids: seq<nat>)
      ensures ids == Outbox.Window(Tables(), batchSize)
    {
      ids := [];
      var e := 0;
      while e < |outbox| && |ids| < batchSize
        invariant 0 <= e <= |outbox|
        invariant ids == Outbox.Unprocessed(outbox, e) && |ids| <= batchSize
      {
        if !outbox[e].processed {
          ids := ids + [e];
        }
        e := e + 1;
      }
      Outbox.UnprocessedPrefix(outbox, e, |outbox|);
    }

    /** One poll. `fails` says which attempts raise for a reason outside the tables; a handler can also raise because
        of what it finds in them. Either way the event stays unprocessed and the loop goes on. */
    method PollBatch(batchSize: nat, fails: Outbox.Failures, provider: Option<Provider>) returns (succeeded: nat)
      modifies this
      ensures Tables() == Outbox.Poll(old(Tables()), batchSize, fails, provider)
      ensures succeeded == Outbox.Successes(old(Tables()), Outbox.Window(old(Tables()), batchSize), fails, provider)
    {
      var ids := SelectUnprocessed(batchSize);
      ghost var before := Tables();
      succeeded := 0;
      var i := 0;
      while i < |ids|
        invariant 0 <= i <= |ids|
        invariant Tables() == Outbox.ProcessAll(before, ids[..i], fails, provider)
        invariant succeeded == Outbox.Successes(before, ids[..i], fails, provider)
      {
        Outbox.ProcessAllStep(before, ids, i, fails, provider);
        var ok := ProcessEvent(ids[i], fails, provider);
        if ok {
          succeeded := succeeded + 1;
        }
        i := i + 1;
      }
      assert ids[..i] == ids;
    }

    /** One event of a batch: skipped if it is gone or processed already, left alone if its handler raises. */
    method ProcessEvent(e: nat, fails: Outbox.Failures, provider: Option<Provider>) returns (ok: bool)
      modifies this
      ensures Tables() == Outbox.ProcessOne(old(Tables()), e, fails, provider)
      ensures ok == Outbox.Succeeds(old(Tables()), fails, e)
    {
      if e >= |outbox| || outbox[e].processed {
        return false;
      }
      if fails(e) {
        return false;
      }
      var r := DispatchEvent(e, provider);
      if r.Err? {
        return false;
      }
      outbox := outbox[e := outbox[e].(processed := true)];
      ok := true;
    }
  }
}
