/** What the publish gate checks and what stays public: where seeding and bypassing calls part ways with its safety-text
    rule, and how an approval relates to the text that goes public. */
module Vetting {
  import opened Domain
  import opened Catalog
  import opened Pipeline

  // ------------------------------------------------------------- safety text

  /** Public content of a type that needs it carries a safety boundary or escalation guidance. */
  ghost predicate SafetyOk(s: State) {
    forall o: nat, v: nat | Live(s, o, v) && NeedsSafetyBoundary(s.objects[o].coType) ::
      v < |s.versions| && s.versions[v].hasSafety
  }

  /** The step makes nothing public that lacks the safety text its type needs. The gate sees to that for a publish that
      does not bypass it; nobody does for a bypassing one, or for a new node seeded as published. */
  ghost predicate SafeStep(s: State, a: Action) {
    match a
    case CallPublish(o, v, bypass) =>
      bypass && Belongs(s, o, v).Ok? && NeedsSafetyBoundary(s.objects[o].coType) ==> s.versions[v].hasSafety
    case SeedOne(n) =>
      !SlugTaken(s, n.slug) && n.lifecycle == PUBLISHED && !HeldForReview(n) && NeedsSafetyBoundary(n.coType)
      ==> n.hasSafety
    case _ => true
  }

  lemma PublishSafeIff(s: State, o: nat, v: nat, bypass: bool)
    requires Linked(s) && SafetyOk(s)
    ensures SafetyOk(OrUnchanged(Publish(s, o, v, bypass), s)) <==> SafeStep(s, CallPublish(o, v, bypass))
  {
    var s' := OrUnchanged(Publish(s, o, v, bypass), s);
    if Publish(s, o, v, bypass).Ok? {
      assert Live(s', o, v);
      forall p: nat, u: nat | Live(s', p, u) && p != o
        ensures Live(s, p, u) && s'.objects[p] == s.objects[p] && u != v {
        assert Current(s, p, u);
      }
    }
  }

  lemma SeedSafeIff(s: State, n: SeedNode)
    requires Linked(s) && SafetyOk(s)
    ensures SafetyOk(Seed(s, n)) <==> SafeStep(s, SeedOne(n))
  {
    var s' := Seed(s, n);
    if !SlugTaken(s, n.slug) {
      var o, v := |s.objects|, |s.versions|;
      assert Current(s', o, v) && s'.objects[o].coType == n.coType && s'.versions[v].hasSafety == n.hasSafety;
      assert Live(s', o, v) <==> n.lifecycle == PUBLISHED && !HeldForReview(n);
      forall p: nat, u: nat | Live(s', p, u) && p != o
        ensures Live(s, p, u) && u < |s.versions| && s'.objects[p] == s.objects[p] && s'.versions[u] == s.versions[u]
      {
        assert Current(s, p, u);
      }
    }
  }

  lemma OtherCallIsSafe(s: State, a: Action)
    requires IsCall(a) && Linked(s) && SafetyOk(s) && !a.CallPublish? && !a.SeedOne?
    ensures SafetyOk(Serve(s, a))
  {
    var s' := Serve(s, a);
    forall o: nat, v: nat | Live(s', o, v) && NeedsSafetyBoundary(s'.objects[o].coType)
      ensures v < |s'.versions| && s'.versions[v].hasSafety
    {
      assert Live(s, o, v);
    }
  }

  lemma StepIsSafeIff(c: Config, a: Action)
    requires Sound(c) && SafetyOk(c.s)
    ensures SafetyOk(Next(c, a).s) <==> SafeStep(c.s, a)
  {
    if a.CallPublish? {
      PublishSafeIff(c.s, a.o, a.v, a.bypass);
    } else if a.SeedOne? {
      SeedSafeIff(c.s, a.node);
    } else if IsCall(a) {
      OtherCallIsSafe(c.s, a);
    } else {
      var s' := Next(c, a).s;
      WorkersKeepContent(c, a);
      forall o: nat, v: nat ensures Live(s', o, v) == Live(c.s, o, v) {
      }
    }
  }

  lemma WorkersKeepContent(c: Config, a: Action)
    requires Sound(c) && !IsCall(a)
    ensures Next(c, a).s.objects == c.s.objects && Next(c, a).s.versions == c.s.versions
  {
    if a.Handle? {
      if Claimable(c, a.worker, a.event, a.provider) {
        HandlerKeepsLinks(c.s, a.event, a.provider);
      }
    } else {
      ReleaseKeepsTables(c, a);
    }
  }

  /** The tables after the first `n` steps of a run. */
  ghost function At(actions: seq<Action>, n: nat): State
    requires n <= |actions|
  {
    ExecFrom(START, actions[..n]).s
  }

  lemma AtNext(actions: seq<Action>, n: nat)
    requires n < |actions|
    ensures ExecFrom(START, actions[..n + 1]) == Next(ExecFrom(START, actions[..n]), actions[n])
    ensures Sound(ExecFrom(START, actions[..n]))
  {
    assert actions[..n + 1][..n] == actions[..n];
    RunIsSound(START, actions[..n]);
  }

  lemma {:induction false} SafeSoFar(actions: seq<Action>, n: nat)
    requires n <= |actions| && forall k | 0 <= k < n :: SafeStep(At(actions, k), actions[k])
    ensures SafetyOk(At(actions, n))
  {
    if n > 0 {
      SafeSoFar(actions, n - 1);
      AtNext(actions, n - 1);
      StepIsSafeIff(ExecFrom(START, actions[..n - 1]), actions[n - 1]);
    }
  }

  /** Public content has the safety text its type needs throughout a run if and only if no step of the run bypasses the
      gate, or seeds a published node, where that text is missing. */
  lemma RunIsSafeIff(actions: seq<Action>)
    ensures (forall n | 0 <= n <= |actions| :: SafetyOk(At(actions, n)))
            <==> forall n | 0 <= n < |actions| :: SafeStep(At(actions, n), actions[n])
  {
    if forall n | 0 <= n < |actions| :: SafeStep(At(actions, n), actions[n]) {
      forall n | 0 <= n <= |actions| ensures SafetyOk(At(actions, n)) {
        SafeSoFar(actions, n);
      }
    }
    if forall n | 0 <= n <= |actions| :: SafetyOk(At(actions, n)) {
      forall n | 0 <= n < |actions| ensures SafeStep(At(actions, n), actions[n]) {
        AtNext(actions, n);
        assert SafetyOk(At(actions, n)) && SafetyOk(At(actions, n + 1));
        StepIsSafeIff(ExecFrom(START, actions[..n]), actions[n]);
      }
    }
  }

  /** A low-risk skill guide without safety text, seeded as published, is public at once. */
  lemma SeededWithoutSafetyText(slug: string, text: seq<string>)
    ensures var s := Seed(EMPTY, SeedNode(slug, SKILL_GUIDE, PUBLISHED, text, LOW, false));
            Live(s, 0, 0) && !SafetyOk(s)
  {
    var s := Seed(EMPTY, SeedNode(slug, SKILL_GUIDE, PUBLISHED, text, LOW, false));
    assert Live(s, 0, 0) && !s.versions[0].hasSafety;
  }

  /** The tables before each step of a run, and after the last. */
  ghost function History(actions: seq<Action>): (states: seq<State>)
    ensures |states| == |actions| + 1
    ensures forall n | 0 <= n <= |actions| :: states[n] == At(actions, n)
  {
    seq(|actions| + 1, n requires 0 <= n <= |actions| => At(actions, n))
  }

  // ------------------------------------------------------- superseded versions

  /** The call names version `v`, so that it may set its validity. */
  ghost predicate NamesVersion(a: Action, v: nat) {
    match a
    case CallUpdateDraft(_, u, _) => u == v
    case CallPublish(_, u, _) => u == v
    case CallMarkValidity(_, u, _) => u == v
    case CallSubmitReview(u, _) => u == v
    case _ => false
  }

  lemma StepKeepsSuperseded(c: Config, a: Action, v: nat)
    requires Sound(c) && v < |c.s.versions| && c.s.versions[v].validity == SUPERSEDED && !NamesVersion(a, v)
    ensures v < |Next(c, a).s.versions| && Next(c, a).s.versions[v].validity == SUPERSEDED
  {
    if !IsCall(a) {
      WorkersKeepContent(c, a);
    }
  }

  lemma PublishSupersedes(c: Config, o: nat, v: nat, bypass: bool, w: nat)
    requires Sound(c) && Current(c.s, o, w) && w != v && Publish(c.s, o, v, bypass).Ok?
    ensures var s' := Next(c, CallPublish(o, v, bypass)).s;
            && w < |s'.versions| && s'.versions[w].validity == SUPERSEDED && Current(s', o, v)
  {
  }

  ghost predicate SupersededIn(s: State, w: nat) {
    w < |s.versions| && s.versions[w].validity == SUPERSEDED
  }

  lemma RunKeepsSuperseded(actions: seq<Action>, n: nat, w: nat)
    requires n < |actions| && SupersededIn(At(actions, n), w) && !NamesVersion(actions[n], w)
    ensures SupersededIn(At(actions, n + 1), w)
  {
    AtNext(actions, n);
    StepKeepsSuperseded(ExecFrom(START, actions[..n]), actions[n], w);
  }

  lemma RunSupersedes(actions: seq<Action>, i: nat, w: nat)
    requires i < |actions| && actions[i].CallPublish? && w != actions[i].v && Current(At(actions, i), actions[i].o, w)
    requires Publish(At(actions, i), actions[i].o, actions[i].v, actions[i].bypass).Ok?
    ensures SupersededIn(At(actions, i + 1), w)
  {
    AtNext(actions, i);
    PublishSupersedes(ExecFrom(START, actions[..i]), actions[i].o, actions[i].v, actions[i].bypass, w);
  }

  lemma {:induction false} StaysSuperseded(states: seq<State>, i: nat, n: nat, w: nat)
    requires i <= n < |states| && SupersededIn(states[i], w)
    requires forall k | i <= k < n :: SupersededIn(states[k], w) ==> SupersededIn(states[k + 1], w)
    ensures SupersededIn(states[n], w)
  {
    if i < n {
      StaysSuperseded(states, i, n - 1, w);
      assert SupersededIn(states[n - 1], w) ==> SupersededIn(states[n - 1 + 1], w);
    }
  }

  /** A version that a publish displaces is superseded in every later state, until a call names it again. */
  lemma DisplacedStaysSuperseded(actions: seq<Action>, i: nat, n: nat, w: nat)
    requires i < n <= |actions| && actions[i].CallPublish? && w != actions[i].v
    requires Current(At(actions, i), actions[i].o, w)
    requires Publish(At(actions, i), actions[i].o, actions[i].v, actions[i].bypass).Ok?
    requires forall k | i < k < n :: !NamesVersion(actions[k], w)
    ensures w < |At(actions, n).versions| && At(actions, n).versions[w].validity == SUPERSEDED
  {
    var states := History(actions);
    RunSupersedes(actions, i, w);
    forall k | i < k < n ensures SupersededIn(states[k], w) ==> SupersededIn(states[k + 1], w) {
      if SupersededIn(states[k], w) {
        RunKeepsSuperseded(actions, k, w);
      }
    }
    StaysSuperseded(states, i + 1, n, w);
  }

  // ------------------------------------------------------------------- seeding

  /** What seeding a node adds: nothing for a known slug; otherwise one object whose current version is the one version
      added, with the node's text, band and safety text. High-risk content to be published is held in review without an
      event; anything else keeps its lifecycle and is announced. */
  lemma SeedAdds(s: State, n: SeedNode)
    ensures var s', v := Seed(s, n), |s.versions|;
            var held := n.lifecycle == PUBLISHED && (n.risk == HIGH || n.risk == EXPERT_ONLY);
            if exists o :: o in s.objects && o.slug == n.slug then s' == s
            else
              && s'.objects
                 == s.objects + [ContextObject(n.slug, n.coType, Some(v), if held then IN_REVIEW else n.lifecycle)]
              && s'.versions == s.versions + [Version(|s.objects|, n.paragraphs, n.risk, n.hasSafety, CURRENT)]
              && s'.outbox == s.outbox + (if held then [] else [Event(VERSION_PUBLISHED, v, false)])
              && s'.reviews == s.reviews && s'.contradictions == s.contradictions && s'.segments == s.segments
  {
    assert (exists o :: o in s.objects && o.slug == n.slug) <==> SlugTaken(s, n.slug);
  }

  // ------------------------------------------------------------ approved text

  /** Step `i` records an approving review of version `v`. */
  ghost predicate Approves(actions: seq<Action>, states: seq<State>, i: nat, v: nat)
    requires |states| == |actions| + 1
  {
    i < |actions| && actions[i] == CallSubmitReview(v, APPROVED) && v < |states[i].versions|
  }

  /** The text a step gives to version `v`, if it edits it. */
  ghost function Edit(s: State, a: Action, v: nat): Option<seq<string>> {
    if a.CallUpdateDraft? && a.v == v && UpdateDraft(s, a.o, a.v, a.patch).Ok? then a.patch.paragraphs else None
  }

  /** The last such text from step `i` up to step `n`. */
  ghost function LastEdit(actions: seq<Action>, states: seq<State>, i: nat, n: nat, v: nat): Option<seq<string>>
    requires |states| == |actions| + 1 && n <= |actions|
  {
    if n <= i then None
    else
      var e := Edit(states[n - 1], actions[n - 1], v);
      if e.Some? then e else LastEdit(actions, states, i, n - 1, v)
  }

  /** A version's text changes by edits only. */
  ghost predicate EditedTo(s: State, a: Action, s': State, v: nat)
    requires v < |s.versions|
  {
    && v < |s'.versions|
    && var e := Edit(s, a, v);
       s'.versions[v].paragraphs == if e.Some? then e.value else s.versions[v].paragraphs
  }

  lemma StepEdits(c: Config, a: Action, v: nat)
    requires Sound(c) && v < |c.s.versions|
    ensures EditedTo(c.s, a, Next(c, a).s, v)
  {
    if !IsCall(a) {
      WorkersKeepContent(c, a);
    }
  }

  lemma HistoryEdits(actions: seq<Action>, n: nat, v: nat)
    requires n < |actions| && v < |History(actions)[n].versions|
    ensures EditedTo(History(actions)[n], actions[n], History(actions)[n + 1], v)
  {
    AtNext(actions, n);
    StepEdits(ExecFrom(START, actions[..n]), actions[n], v);
  }

  lemma {:induction false} TextAfter(actions: seq<Action>, states: seq<State>, i: nat, n: nat, v: nat)
    requires |states| == |actions| + 1 && i <= n <= |actions| && v < |states[i].versions|
    requires forall k | 0 <= k < |actions| && v < |states[k].versions| ::
               EditedTo(states[k], actions[k], states[k + 1], v)
    ensures v < |states[n].versions|
    ensures var e := LastEdit(actions, states, i, n, v);
            states[n].versions[v].paragraphs == if e.Some? then e.value else states[i].versions[v].paragraphs
  {
    if i < n {
      TextAfter(actions, states, i, n - 1, v);
      assert EditedTo(states[n - 1], actions[n - 1], states[n - 1 + 1], v);
    }
  }

  /** The present text of the version is one that some review approved. */
  ghost predicate TextApproved(actions: seq<Action>, v: nat) {
    var states, n := History(actions), |actions|;
    exists i: nat :: Approves(actions, states, i, v) && v < |states[n].versions|
                && states[i].versions[v].paragraphs == states[n].versions[v].paragraphs
  }

  /** An approval names a version, not a text. The present text of a version, public or not, is an approved one if and
      only if after some approval no draft update changed the text or the last one that did set the approved text
      again. */
  lemma TextApprovedIff(actions: seq<Action>, v: nat)
    ensures var states := History(actions);
            TextApproved(actions, v)
            <==> exists i: nat :: Approves(actions, states, i, v)
                   && var e := LastEdit(actions, states, i, |actions|, v);
                      e.Some? ==> e.value == states[i].versions[v].paragraphs
  {
    var states, n := History(actions), |actions|;
    forall k | 0 <= k < n && v < |states[k].versions| ensures EditedTo(states[k], actions[k], states[k + 1], v) {
      HistoryEdits(actions, k, v);
    }
    forall i: nat | Approves(actions, states, i, v)
      ensures v < |states[n].versions|
      ensures var e := LastEdit(actions, states, i, n, v);
              states[i].versions[v].paragraphs == states[n].versions[v].paragraphs
              <==> (e.Some? ==> e.value == states[i].versions[v].paragraphs)
    {
      TextAfter(actions, states, i, n, v);
    }
  }

  /** Create, approve, rewrite, publish: a high-risk version is public, through the gate, with a text
      nobody approved. */
  lemma RewrittenAfterApproval(slug: string, text: seq<string>, rewritten: seq<string>)
    requires text != rewritten
    ensures var actions := Rewriting(slug, text, rewritten);
            var s := ExecFrom(START, actions).s;
            && Live(s, 0, 0) && s.versions == [Version(0, rewritten, HIGH, true, CURRENT)] && !TextApproved(actions, 0)
  {
    var actions := Rewriting(slug, text, rewritten);
    RewritingStarts(slug, text, rewritten);
    RewritingEnds(slug, text, rewritten);
    assert actions[..5] == actions;
    assert Live(At(actions, 5), 0, 0);
    forall i: nat | Approves(actions, History(actions), i, 0) ensures i == 2 {
    }
  }

  ghost function Rewriting(slug: string, text: seq<string>, rewritten: seq<string>): seq<Action> {
    [CallCreateObject(slug, MODULE), CallCreateVersion(Version(0, text, HIGH, true, CURRENT)),
     CallSubmitReview(0, APPROVED),
     CallUpdateDraft(0, 0, Patch(Some(rewritten), None, None, None)), CallPublish(0, 0, false)]
  }

  ghost function Created(slug: string, text: seq<string>): State {
    State([ContextObject(slug, MODULE, None, DRAFT)], [Version(0, text, HIGH, true, CURRENT)], [], [], map[],
          [OTHER, OTHER])
  }

  lemma RewritingStarts(slug: string, text: seq<string>, rewritten: seq<string>)
    ensures At(Rewriting(slug, text, rewritten), 2) == Created(slug, text)
  {
    var actions := Rewriting(slug, text, rewritten);
    assert actions[..0] == [];
    AtNext(actions, 0);
    assert At(actions, 1) == State([ContextObject(slug, MODULE, None, DRAFT)], [], [], [], map[], [OTHER]);
    AtNext(actions, 1);
  }

  ghost function Reviewed(slug: string, text: seq<string>): State {
    Created(slug, text).(objects := [ContextObject(slug, MODULE, None, REVIEWED)], reviews := [Review(0, APPROVED)],
                         outbox := [OTHER, OTHER, OTHER])
  }

  lemma CreatedIsReviewed(slug: string, text: seq<string>)
    ensures Serve(Created(slug, text), CallSubmitReview(0, APPROVED)) == Reviewed(slug, text)
  {
  }

  lemma RewritingReviewed(slug: string, text: seq<string>, rewritten: seq<string>)
    ensures At(Rewriting(slug, text, rewritten), 3) == Reviewed(slug, text)
  {
    RewritingStarts(slug, text, rewritten);
    AtNext(Rewriting(slug, text, rewritten), 2);
    CreatedIsReviewed(slug, text);
  }

  lemma RewritingEnds(slug: string, text: seq<string>, rewritten: seq<string>)
    ensures var s := At(Rewriting(slug, text, rewritten), 5);
            && s.objects == [ContextObject(slug, MODULE, Some(0), PUBLISHED)]
            && s.versions == [Version(0, rewritten, HIGH, true, CURRENT)]
  {
    var actions := Rewriting(slug, text, rewritten);
    RewritingReviewed(slug, text, rewritten);
    AtNext(actions, 3);
    AtNext(actions, 4);
    RewritingPublishes(At(actions, 3), text, rewritten);
  }

  /** The last two of the five calls. */
  lemma RewritingPublishes(s: State, text: seq<string>, rewritten: seq<string>)
    requires |s.objects| == 1 && s.objects[0].coType == MODULE && s.objects[0].current == None && s.contradictions == []
    requires s.versions == [Version(0, text, HIGH, true, CURRENT)] && s.reviews == [Review(0, APPROVED)]
    ensures var s4 := Serve(s, CallUpdateDraft(0, 0, Patch(Some(rewritten), None, None, None)));
            var s5 := Serve(s4, CallPublish(0, 0, false));
            && s5.objects == [s.objects[0].(current := Some(0), lifecycle := PUBLISHED)]
            && s5.versions == [Version(0, rewritten, HIGH, true, CURRENT)]
  {
    var s4 := Serve(s, CallUpdateDraft(0, 0, Patch(Some(rewritten), None, None, None)));
    assert s4.versions == [Version(0, rewritten, HIGH, true, CURRENT)] && s4.objects == s.objects;
    assert Review(0, APPROVED) in s4.reviews && GateOpen(s4, 0, MODULE);
  }
}
