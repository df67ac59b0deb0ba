/** The publish-and-index pipeline as a state machine: service calls and seeding, each one transaction, interleaved
    with any number of workers. A worker's handler commits by itself; marking its event processed is a later step,
    which a crash can prevent, and in between others may claim the same event. */
module Pipeline {
  import opened Domain
  import opened Embedding
  import opened Catalog
  import Chunker

  datatype Action =
    | CallCreateObject(slug: string, coType: COType)
    | CallCreateVersion(version: Version)
    | CallUpdateDraft(o: nat, v: nat, patch: Patch)
    | CallPublish(o: nat, v: nat, bypass: bool)
    | CallDeprecate(o: nat)
    | CallMarkValidity(o: nat, v: nat, st: ValidityStatus)
    | CallSubmitReview(v: nat, outcome: ReviewOutcome)
    | CallMarkVerified(o: nat, v: nat)
    | CallOpenContradiction(left: nat, right: nat)
    | CallResolveContradiction(c: nat, resolution: Option<nat>, status: ContradictionStatus)
    | SeedOne(node: SeedNode)
    | Handle(worker: nat, event: nat, provider: Option<Provider>)
    | Finish(worker: nat)
    | Crash(worker: nat)

  /** The tables, and for each busy worker the event whose handler has committed but which is not yet marked. */
  datatype Config = Config(s: State, busy: map<nat, nat>)

  ghost function OrUnchanged(r: Result<State>, s: State): State {
    if r.Ok? then r.value else s
  }

  ghost predicate IsCall(a: Action) {
    !a.Handle? && !a.Finish? && !a.Crash?
  }

  ghost function Serve(s: State, a: Action): State
    requires IsCall(a)
  {
    match a
    case CallCreateObject(slug, coType) => OrUnchanged(CreateObject(s, slug, coType), s)
    case CallCreateVersion(version) => OrUnchanged(CreateVersion(s, version), s)
    case CallUpdateDraft(o, v, patch) => OrUnchanged(UpdateDraft(s, o, v, patch), s)
    case CallPublish(o, v, bypass) => OrUnchanged(Publish(s, o, v, bypass), s)
    case CallDeprecate(o) => OrUnchanged(Deprecate(s, o), s)
    case CallMarkValidity(o, v, st) => OrUnchanged(MarkValidity(s, o, v, st), s)
    case CallSubmitReview(v, outcome) => OrUnchanged(SubmitReview(s, v, outcome), s)
    case CallMarkVerified(o, v) => OrUnchanged(MarkVerified(s, o, v), s)
    case CallOpenContradiction(left, right) => OrUnchanged(OpenContradiction(s, left, right), s)
    case CallResolveContradiction(c, resolution, status) =>
      OrUnchanged(ResolveContradiction(s, c, resolution, status), s)
    case SeedOne(node) => Seed(s, node)
  }

  /** An idle worker may claim any unprocessed event: a claim's row lock ends with the handler's own commit. A
      handler that fails rolls back and leaves no trace. */
  ghost function Next(c: Config, a: Action): Config {
    match a
    case Handle(w, e, provider) =>
      if w in c.busy || e >= |c.s.outbox| || c.s.outbox[e].processed then c
      else
        var r := Dispatch(c.s, e, provider);
        if r.Err? then c else Config(r.value, c.busy[w := e])
    case Finish(w) =>
      if w !in c.busy || c.busy[w] >= |c.s.outbox| then c
      else Config(MarkProcessed(c.s, c.busy[w]), c.busy - {w})
    case Crash(w) => c.(busy := c.busy - {w})
    case _ => c.(s := Serve(c.s, a))
  }

  ghost function ExecFrom(c: Config, actions: seq<Action>): Config {
    if actions == [] then c else Next(ExecFrom(c, actions[..|actions| - 1]), actions[|actions| - 1])
  }

  const START: Config := Config(EMPTY, map[])

  // -------------------------------------------------------------- invariants

  ghost predicate Current(s: State, o: nat, v: nat) {
    o < |s.objects| && s.objects[o].current == Some(v)
  }

  /** `v` is what the public search shows for object `o`. */
  ghost predicate Live(s: State, o: nat, v: nat) {
    Current(s, o, v) && s.objects[o].lifecycle == PUBLISHED
  }

  /** Foreign keys: a current version exists and belongs to its object; publish events name versions. */
  ghost predicate Linked(s: State) {
    && (forall o: nat, v: nat | Current(s, o, v) :: v < |s.versions| && s.versions[v].owner == o)
    && (forall v | 0 <= v < |s.versions| :: s.versions[v].owner < |s.objects|)
    && (forall e | e in s.outbox :: e.kind == VERSION_PUBLISHED ==> e.version < |s.versions|)
  }

  /** The segments of `v`, in ordinal order, are the chunks of its text. */
  ghost predicate Indexed(s: State, v: nat) {
    && v < |s.versions|
    && var chunks := Chunker.Chunks(s.versions[v].paragraphs, MAX_CHARS, OVERLAP);
       var segs := SegmentsOf(s, v);
       |segs| == |chunks| && forall i | 0 <= i < |segs| :: segs[i].text == chunks[i]
  }

  /** An event of the kind naming `v` that is unprocessed and whose handler is still to run. */
  ghost predicate Pending(c: Config, kind: EventKind, v: nat) {
    exists e: nat :: e < |c.s.outbox| && c.s.outbox[e] == Event(kind, v, false) && e !in c.busy.Values
  }

  ghost predicate IndexOk(c: Config) {
    forall o: nat, v: nat | Live(c.s, o, v) :: Indexed(c.s, v) || Pending(c, VERSION_PUBLISHED, v)
  }

  ghost predicate EmbedOk(c: Config) {
    forall v: nat :: Complete(SegmentsOf(c.s, v)) || Pending(c, VERSION_REINDEXED, v)
  }

  ghost predicate BusyOk(c: Config) {
    forall e | e in c.busy.Values :: e < |c.s.outbox|
  }

  /** What the publish gate promises of a version that is live. */
  ghost predicate Vetted(s: State, v: nat) {
    && v < |s.versions|
    && !Withdrawn(s.versions[v].validity)
    && (HighRisk(s.versions[v].risk) ==> Approved(s, v))
  }

  ghost predicate GateOk(s: State) {
    && (forall o: nat, v: nat | Live(s, o, v) :: Vetted(s, v))
    && (forall o | 0 <= o < |s.objects| && s.objects[o].lifecycle == PUBLISHED :: s.objects[o].current.Some?)
  }

  // --------------------------------------------------- service calls and seeds

  /** A call touches no segment and no old event; a version that is live afterwards was live before with the same
      text, or a new publish event names it. */
  ghost predicate Quiet(s: State, s': State) {
    && s'.segments == s.segments
    && |s.outbox| <= |s'.outbox| && s'.outbox[..|s.outbox|] == s.outbox
    && (forall o: nat, v: nat | Live(s', o, v) :: StillLive(s, s', o, v) || Announced(s, s', v))
  }

  ghost predicate StillLive(s: State, s': State, o: nat, v: nat) {
    Live(s, o, v) && v < |s.versions| && v < |s'.versions| && s'.versions[v].paragraphs == s.versions[v].paragraphs
  }

  ghost predicate Announced(s: State, s': State, v: nat) {
    exists e: nat :: |s.outbox| <= e < |s'.outbox| && s'.outbox[e] == Event(VERSION_PUBLISHED, v, false)
  }

  lemma PublishKeepsLinks(s: State, o: nat, v: nat, bypass: bool)
    requires Linked(s)
    ensures Linked(OrUnchanged(Publish(s, o, v, bypass), s))
  {
    var s' := OrUnchanged(Publish(s, o, v, bypass), s);
    assert forall u | 0 <= u < |s.versions| :: u < |s'.versions| && s'.versions[u].owner == s.versions[u].owner;
    forall p: nat, u: nat | Current(s', p, u) ensures u < |s'.versions| && s'.versions[u].owner == p {
      assert p == o || Current(s, p, u);
    }
  }

  lemma SeedKeepsLinks(s: State, node: SeedNode)
    requires Linked(s)
    ensures Linked(Seed(s, node))
  {
    var s' := Seed(s, node);
    assert forall u | 0 <= u < |s.versions| :: s'.versions[u] == s.versions[u];
    forall p: nat, u: nat | Current(s', p, u) ensures u < |s'.versions| && s'.versions[u].owner == p {
      assert p == |s.objects| || Current(s, p, u);
    }
  }

  lemma CallKeepsLinks(s: State, a: Action)
    requires IsCall(a) && Linked(s)
    ensures Linked(Serve(s, a))
  {
    if a.CallPublish? {
      PublishKeepsLinks(s, a.o, a.v, a.bypass);
    } else if a.SeedOne? {
      SeedKeepsLinks(s, a.node);
    } else {
      OtherCallKeepsLinks(s, a);
    }
  }

  lemma OtherCallKeepsLinks(s: State, a: Action)
    requires IsCall(a) && Linked(s) && !a.CallPublish? && !a.SeedOne?
    ensures Linked(Serve(s, a))
  {
    var s' := Serve(s, a);
    assert forall v | 0 <= v < |s.versions| :: v < |s'.versions| && s'.versions[v].owner == s.versions[v].owner;
    forall e | e in s'.outbox ensures e.kind == VERSION_PUBLISHED ==> e.version < |s'.versions| {
    }
    forall o: nat, v: nat | Current(s', o, v) ensures v < |s'.versions| && s'.versions[v].owner == o {
      if Current(s, o, v) {
        assert s.versions[v].owner == o;
      }
    }
  }

  lemma CallIsQuiet(s: State, a: Action)
    requires IsCall(a) && Linked(s)
    ensures Quiet(s, Serve(s, a))
  {
    var s' := Serve(s, a);
    assert s.outbox[..|s.outbox|] == s.outbox;
    if a.CallPublish? && s' != s {
      assert s'.outbox[|s.outbox|] == Event(VERSION_PUBLISHED, a.v, false);
    } else if a.SeedOne? && s' != s && !HeldForReview(a.node) {
      assert s'.outbox[|s.outbox|] == Event(VERSION_PUBLISHED, |s.versions|, false);
    }
    forall o: nat, v: nat | Live(s', o, v) ensures StillLive(s, s', o, v) || Announced(s, s', v) {
      if Live(s, o, v) {
        assert v < |s.versions| && s.versions[v].owner == o;
      }
    }
  }

  lemma PublishKeepsGate(s: State, o: nat, v: nat)
    requires Linked(s) && GateOk(s)
    ensures GateOk(OrUnchanged(Publish(s, o, v, false), s))
  {
    var s' := OrUnchanged(Publish(s, o, v, false), s);
    forall p: nat, u: nat | Live(s', p, u) ensures Vetted(s', u) {
      if p != o {
        assert Live(s, p, u) && Vetted(s, u);
      }
    }
  }

  lemma CallKeepsGate(s: State, a: Action)
    requires IsCall(a) && Linked(s) && GateOk(s)
    requires a.CallPublish? ==> !a.bypass
    ensures GateOk(Serve(s, a))
  {
    if a.CallPublish? {
      PublishKeepsGate(s, a.o, a.v);
    } else {
      OtherCallKeepsGate(s, a);
    }
  }

  lemma OtherCallKeepsGate(s: State, a: Action)
    requires IsCall(a) && Linked(s) && GateOk(s) && !a.CallPublish?
    ensures GateOk(Serve(s, a))
  {
    var s' := Serve(s, a);
    forall o: nat, v: nat | Live(s', o, v) ensures Vetted(s', v) {
      if Live(s, o, v) {
        assert Vetted(s, v);
      }
    }
  }

  lemma PendingSurvives(c: Config, s': State, kind: EventKind, v: nat)
    requires Pending(c, kind, v) && |c.s.outbox| <= |s'.outbox| && s'.outbox[..|c.s.outbox|] == c.s.outbox
    ensures Pending(c.(s := s'), kind, v)
  {
    var e: nat :| e < |c.s.outbox| && c.s.outbox[e] == Event(kind, v, false) && e !in c.busy.Values;
    assert s'.outbox[e] == s'.outbox[..|c.s.outbox|][e];
  }

  lemma CallKeepsIndex(c: Config, a: Action)
    requires IsCall(a) && Linked(c.s) && BusyOk(c) && IndexOk(c)
    ensures IndexOk(Next(c, a)) && BusyOk(Next(c, a))
  {
    var s, s' := c.s, Serve(c.s, a);
    CallIsQuiet(s, a);
    CallKeepsLinks(s, a);
    forall o: nat, v: nat | Live(s', o, v) ensures Indexed(s', v) || Pending(Next(c, a), VERSION_PUBLISHED, v) {
      if StillLive(s, s', o, v) {
        if !Indexed(s, v) {
          PendingSurvives(c, s', VERSION_PUBLISHED, v);
        }
      } else {
        var e: nat :| |s.outbox| <= e < |s'.outbox| && s'.outbox[e] == Event(VERSION_PUBLISHED, v, false);
        assert e !in c.busy.Values;
      }
    }
  }

  lemma CallKeepsEmbeddings(c: Config, a: Action)
    requires IsCall(a) && Linked(c.s) && EmbedOk(c)
    ensures EmbedOk(Next(c, a))
  {
    var s, s' := c.s, Serve(c.s, a);
    CallIsQuiet(s, a);
    forall v: nat | !Complete(SegmentsOf(s', v)) ensures Pending(Next(c, a), VERSION_REINDEXED, v) {
      PendingSurvives(c, s', VERSION_REINDEXED, v);
    }
  }

  // ------------------------------------------------------------------ workers

  lemma FreshIsIndexed(s: State, v: nat)
    requires v < |s.versions|
    ensures Indexed(Reindex(s, v).value, v)
  {
  }

  /** Embedding changes no text. */
  lemma EmbedKeepsIndexed(s: State, v: nat, provider: Option<Provider>, u: nat)
    requires Indexed(s, u)
    ensures Indexed(Embed(s, v, provider), u)
  {
    if provider.Some? {
      EmbeddedIffEnough(SegmentsOf(s, v), provider.value);
    }
  }

  lemma HandlerKeepsLinks(s: State, e: nat, provider: Option<Provider>)
    requires Linked(s) && e < |s.outbox| && Dispatch(s, e, provider).Ok?
    ensures var s' := Dispatch(s, e, provider).value;
            && Linked(s') && s'.objects == s.objects && s'.versions == s.versions && s'.reviews == s.reviews
            && |s.outbox| <= |s'.outbox| && s'.outbox[..|s.outbox|] == s.outbox
  {
    var s' := Dispatch(s, e, provider).value;
    assert s.outbox[e] in s.outbox;
    assert s'.outbox[..|s.outbox|] == s.outbox;
    assert forall o: nat, v: nat :: Current(s', o, v) == Current(s, o, v);
    forall x | x in s'.outbox ensures x.kind == VERSION_PUBLISHED ==> x.version < |s'.versions| {
    }
  }

  lemma BusyGrows(c: Config, s': State, w: nat, e: nat)
    requires BusyOk(c) && e < |c.s.outbox| <= |s'.outbox|
    ensures BusyOk(Config(s', c.busy[w := e]))
    ensures |c.s.outbox| !in c.busy[w := e].Values
  {
    var busy := c.busy[w := e];
    forall x | x in busy.Values ensures x < |c.s.outbox| {
      var u :| u in busy && busy[u] == x;
      assert u != w ==> c.busy[u] in c.busy.Values;
    }
  }

  /** Occupying a worker with event `e` takes `e` out of the pending events, and no other. */
  lemma PendingUnlessClaimed(c: Config, s': State, w: nat, e: nat, kind: EventKind, v: nat)
    requires Pending(c, kind, v) && w !in c.busy && e < |c.s.outbox| && c.s.outbox[e] != Event(kind, v, false)
    requires |c.s.outbox| <= |s'.outbox| && s'.outbox[..|c.s.outbox|] == c.s.outbox
    ensures Pending(Config(s', c.busy[w := e]), kind, v)
  {
    var i: nat :| i < |c.s.outbox| && c.s.outbox[i] == Event(kind, v, false) && i !in c.busy.Values;
    assert s'.outbox[i] == s'.outbox[..|c.s.outbox|][i];
    assert i !in c.busy[w := e].Values;
  }

  ghost predicate Claimable(c: Config, w: nat, e: nat, provider: Option<Provider>) {
    w !in c.busy && e < |c.s.outbox| && !c.s.outbox[e].processed && Dispatch(c.s, e, provider).Ok?
  }

  lemma HandleKeepsIndex(c: Config, w: nat, e: nat, provider: Option<Provider>)
    requires Claimable(c, w, e, provider) && Linked(c.s) && IndexOk(c)
    ensures IndexOk(Next(c, Handle(w, e, provider)))
  {
    assert Linked(Next(c, Handle(w, e, provider)).s) by {
      HandlerKeepsLinks(c.s, e, provider);
    }
    var c' := Next(c, Handle(w, e, provider));
    var event := c.s.outbox[e];
    HandlerKeepsLinks(c.s, e, provider);
    forall o: nat, v: nat | Live(c'.s, o, v) ensures Indexed(c'.s, v) || Pending(c', VERSION_PUBLISHED, v) {
      assert Live(c.s, o, v);
      if event == Event(VERSION_PUBLISHED, v, false) {
        FreshIsIndexed(c.s, v);
      } else if Indexed(c.s, v) {
        if event.kind == VERSION_REINDEXED {
          EmbedKeepsIndexed(c.s, event.version, provider, v);
        }
      } else {
        PendingUnlessClaimed(c, c'.s, w, e, VERSION_PUBLISHED, v);
      }
    }
  }

  /** A provider is configured and returns a vector for every text. */
  ghost predicate Faithful(provider: Option<Provider>) {
    provider.Some? && forall texts: seq<string> :: |provider.value(texts)| >= |texts|
  }

  lemma {:induction false} FaithfulIsEnough(segs: seq<Segment>, at: seq<nat>, embed: Provider)
    requires Ordinals(segs, at) && Faithful(Some(embed))
    ensures Enough(segs, at, embed)
    decreases |at|
  {
    if at != [] {
      FaithfulIsEnough(segs, at[|FirstBatch(at)|..], embed);
    }
  }

  lemma EmbedCompletes(s: State, v: nat, provider: Option<Provider>)
    requires Faithful(provider)
    ensures Complete(SegmentsOf(Embed(s, v, provider), v))
  {
    var segs := SegmentsOf(s, v);
    FaithfulIsEnough(segs, Missing(segs, |segs|), provider.value);
    EmbeddedIffEnough(segs, provider.value);
  }

  lemma HandleKeepsEmbeddings(c: Config, w: nat, e: nat, provider: Option<Provider>)
    requires Claimable(c, w, e, provider) && Linked(c.s) && BusyOk(c) && EmbedOk(c)
    requires c.s.outbox[e].kind == VERSION_REINDEXED ==> Faithful(provider)
    ensures EmbedOk(Next(c, Handle(w, e, provider)))
  {
    var c' := Next(c, Handle(w, e, provider));
    var event := c.s.outbox[e];
    HandlerKeepsLinks(c.s, e, provider);
    BusyGrows(c, c'.s, w, e);
    forall v: nat | !Complete(SegmentsOf(c'.s, v)) ensures Pending(c', VERSION_REINDEXED, v) {
      if event.kind == VERSION_PUBLISHED && event.version == v {
        assert c'.s.outbox[|c.s.outbox|] == Event(VERSION_REINDEXED, v, false);
      } else {
        if event.kind == VERSION_REINDEXED && event.version == v {
          EmbedCompletes(c.s, v, provider);
        }
        PendingUnlessClaimed(c, c'.s, w, e, VERSION_REINDEXED, v);
      }
    }
  }

  /** Marking the event of a busy worker leaves every pending event pending: pending ones are held by no worker. */
  lemma FinishKeepsPending(c: Config, w: nat, kind: EventKind, v: nat)
    requires w in c.busy && c.busy[w] < |c.s.outbox| && Pending(c, kind, v)
    ensures Pending(Next(c, Finish(w)), kind, v)
  {
    var i: nat :| i < |c.s.outbox| && c.s.outbox[i] == Event(kind, v, false) && i !in c.busy.Values;
    assert c.busy[w] in c.busy.Values;
    assert Next(c, Finish(w)).s.outbox[i] == Event(kind, v, false);
  }

  lemma CrashKeepsPending(c: Config, w: nat, kind: EventKind, v: nat)
    requires Pending(c, kind, v)
    ensures Pending(Next(c, Crash(w)), kind, v)
  {
    var i: nat :| i < |c.s.outbox| && c.s.outbox[i] == Event(kind, v, false) && i !in c.busy.Values;
    assert Next(c, Crash(w)).s.outbox[i] == Event(kind, v, false);
  }

  lemma ReleaseKeepsTables(c: Config, a: Action)
    requires (a.Finish? || a.Crash?) && Linked(c.s) && BusyOk(c)
    ensures var c' := Next(c, a);
            && Linked(c'.s) && BusyOk(c')
            && c'.s.objects == c.s.objects && c'.s.versions == c.s.versions && c'.s.reviews == c.s.reviews
            && c'.s.segments == c.s.segments
  {
    var c' := Next(c, a);
    assert forall o: nat, v: nat :: Current(c'.s, o, v) == Current(c.s, o, v);
    forall x | x in c'.s.outbox ensures x.kind == VERSION_PUBLISHED ==> x.version < |c'.s.versions| {
      if x !in c.s.outbox {
        assert x == c.s.outbox[c.busy[a.worker]].(processed := true);
      }
    }
    assert forall x | x in c'.busy.Values :: x in c.busy.Values;
  }

  lemma ReleaseKeeps(c: Config, a: Action)
    requires (a.Finish? || a.Crash?) && Linked(c.s) && BusyOk(c)
    ensures (IndexOk(c) ==> IndexOk(Next(c, a))) && (EmbedOk(c) ==> EmbedOk(Next(c, a)))
  {
    var c' := Next(c, a);
    ReleaseKeepsTables(c, a);
    forall kind, v: nat | Pending(c, kind, v) ensures Pending(c', kind, v) {
      if a.Crash? {
        CrashKeepsPending(c, a.worker, kind, v);
      } else if a.worker in c.busy && c.busy[a.worker] < |c.s.outbox| {
        FinishKeepsPending(c, a.worker, kind, v);
      }
    }
    forall o: nat, v: nat ensures Live(c'.s, o, v) == Live(c.s, o, v) && Indexed(c'.s, v) == Indexed(c.s, v) {
    }
  }

  lemma SameTablesKeepGate(s: State, s': State)
    requires GateOk(s) && s'.objects == s.objects && s'.versions == s.versions && s'.reviews == s.reviews
    ensures GateOk(s')
  {
    forall o: nat, v: nat | Live(s', o, v) ensures Vetted(s', v) {
      assert Live(s, o, v);
      assert Vetted(s, v);
    }
  }

  // --------------------------------------------------------------------- runs

  /** Everything a step relies on. */
  ghost predicate Sound(c: Config) {
    Linked(c.s) && BusyOk(c) && IndexOk(c)
  }

  lemma StepKeepsSound(c: Config, a: Action)
    requires Sound(c)
    ensures Sound(Next(c, a))
  {
    if IsCall(a) {
      CallKeepsLinks(c.s, a);
      CallKeepsIndex(c, a);
    } else if a.Handle? {
      if Claimable(c, a.worker, a.event, a.provider) {
        HandlerKeepsLinks(c.s, a.event, a.provider);
        BusyGrows(c, Next(c, a).s, a.worker, a.event);
        HandleKeepsIndex(c, a.worker, a.event, a.provider);
      }
    } else {
      ReleaseKeepsTables(c, a);
      ReleaseKeeps(c, a);
    }
  }

  lemma StepKeepsEmbeddings(c: Config, a: Action)
    requires Sound(c) && EmbedOk(c) && (a.Handle? ==> Faithful(a.provider))
    ensures EmbedOk(Next(c, a))
  {
    if IsCall(a) {
      CallKeepsEmbeddings(c, a);
    } else if a.Handle? {
      if Claimable(c, a.worker, a.event, a.provider) {
        HandleKeepsEmbeddings(c, a.worker, a.event, a.provider);
      }
    } else {
      ReleaseKeeps(c, a);
    }
  }

  lemma StepKeepsGate(c: Config, a: Action)
    requires Sound(c) && GateOk(c.s) && (a.CallPublish? ==> !a.bypass)
    ensures GateOk(Next(c, a).s)
  {
    if IsCall(a) {
      CallKeepsGate(c.s, a);
    } else {
      if a.Handle? && Claimable(c, a.worker, a.event, a.provider) {
        HandlerKeepsLinks(c.s, a.event, a.provider);
      } else if !a.Handle? {
        ReleaseKeepsTables(c, a);
      }
      SameTablesKeepGate(c.s, Next(c, a).s);
    }
  }

  lemma {:induction false} RunIsSound(c: Config, actions: seq<Action>)
    requires Sound(c)
    ensures Sound(ExecFrom(c, actions))
  {
    if actions != [] {
      var n := |actions| - 1;
      RunIsSound(c, actions[..n]);
      StepKeepsSound(ExecFrom(c, actions[..n]), actions[n]);
    }
  }

  /** In every reachable state the current version of a published object belongs to that object, and it either is
      indexed, segment by segment, as its current text is chunked, or an unprocessed publish event names it. */
  lemma IndexedOrAnnounced(actions: seq<Action>, o: nat, v: nat)
    requires Live(ExecFrom(START, actions).s, o, v)
    ensures var c := ExecFrom(START, actions);
            && v < |c.s.versions| && c.s.versions[v].owner == o
            && (Indexed(c.s, v) || Event(VERSION_PUBLISHED, v, false) in c.s.outbox)
  {
    RunIsSound(START, actions);
  }

  lemma {:induction false} RunEmbeds(c: Config, actions: seq<Action>)
    requires Sound(c) && EmbedOk(c)
    requires forall a | a in actions && a.Handle? :: Faithful(a.provider)
    ensures EmbedOk(ExecFrom(c, actions))
  {
    if actions != [] {
      var n := |actions| - 1;
      RunIsSound(c, actions[..n]);
      RunEmbeds(c, actions[..n]);
      StepKeepsEmbeddings(ExecFrom(c, actions[..n]), actions[n]);
    }
  }

  /** With a provider that answers every text, in every reachable state each version has all its segments embedded
      or an unprocessed reindex event names it. */
  lemma EmbeddedOrAnnounced(actions: seq<Action>, v: nat)
    requires forall a | a in actions && a.Handle? :: Faithful(a.provider)
    ensures var c := ExecFrom(START, actions);
            Complete(SegmentsOf(c.s, v)) || Event(VERSION_REINDEXED, v, false) in c.s.outbox
  {
    RunEmbeds(START, actions);
  }

  lemma {:induction false} RunKeepsGate(c: Config, actions: seq<Action>)
    requires Sound(c) && GateOk(c.s)
    requires forall a | a in actions && a.CallPublish? :: !a.bypass
    ensures GateOk(ExecFrom(c, actions).s)
  {
    if actions != [] {
      var n := |actions| - 1;
      RunIsSound(c, actions[..n]);
      RunKeepsGate(c, actions[..n]);
      StepKeepsGate(ExecFrom(c, actions[..n]), actions[n]);
    }
  }

  /** Unless a publish call bypasses the gate, in every reachable state a published object has a current version of
      its own that is neither deprecated nor retracted and, if high risk, was approved by a review. */
  lemma PublishedIsVetted(actions: seq<Action>, o: nat)
    requires forall a | a in actions && a.CallPublish? :: !a.bypass
    requires var s := ExecFrom(START, actions).s; o < |s.objects| && s.objects[o].lifecycle == PUBLISHED
    ensures var s := ExecFrom(START, actions).s;
            && s.objects[o].current.Some?
            && var v := s.objects[o].current.value;
               v < |s.versions| && s.versions[v].owner == o && Vetted(s, v)
  {
    RunIsSound(START, actions);
    RunKeepsGate(START, actions);
    var s := ExecFrom(START, actions).s;
    var v := s.objects[o].current.value;
    assert Live(s, o, v);
  }
}
