/** What merge and split decisions do to the files they find: whether an object that takes the place of a file, written
    by hand or earlier in the same run, is as risky and keeps its safety boundary. */
module Lineage {
  import opened Domain
  import opened Canonicalize

  // ------------------------------------------------------------- one decision

  /** The file `x` is written in place of the file `y`, which is found and deprecated or overwritten. */
  ghost predicate Supplants(files: map<string, Draft>, e: Effect, x: string, y: string) {
    x in e.writes && y in files && (y in e.deprecates || y == x)
  }

  ghost predicate LowersNone(files: map<string, Draft>, e: Effect) {
    forall x, y | Supplants(files, e, x, y) :: AtLeastAsRisky(e.writes[x].risk, files[y].risk)
  }

  ghost predicate DropsNone(files: map<string, Draft>, e: Effect) {
    forall x, y | Supplants(files, e, x, y) && files[y].boundary != "" :: e.writes[x].boundary == files[y].boundary
  }

  /** The object `d` proposes under the name `x` has the boundary `b`, or it has none and `b` is the first among the
      loaded drafts that `d` deprecates. */
  ghost predicate Carries(drafts: map<string, Draft>, d: Decision, x: string, b: string) {
    && x in Names(Proposed(d))
    && var own := Proposed(d)[LastNamed(Proposed(d), x)].draft.boundary;
       own == b || (own == "" && IsFirstBoundary(Originals(drafts, Deprecates(d)), b))
  }

  lemma LeftCarriesIff(drafts: map<string, Draft>, schema: Schema, d: Decision, x: string, b: string)
    requires Writes(drafts, schema, d, x) && b != ""
    ensures Left(drafts, schema, d, x).boundary == b <==> Carries(drafts, d, x, b)
  {
    var proposed, written := Proposed(d), Written(drafts, schema, d).value;
    var k := LastNamed(written, x);
    assert proposed[k] in proposed && proposed[k].name == x && written[k] in written;
    assert written[LastNamed(proposed, x)].name == x;
    CarriedBoundaryIff(proposed[k].draft, Originals(drafts, Deprecates(d)), b);
  }

  lemma CarriedBoundaryIff(obj: Draft, originals: seq<Draft>, b: string)
    requires obj.hasStructuredData && b != ""
    ensures CarrySafety(obj, originals).boundary == b
            <==> obj.boundary == b || (obj.boundary == "" && IsFirstBoundary(originals, b))
  {
    FirstBoundaryIs(originals);
    if IsFirstBoundary(originals, b) {
      FirstBoundaryUnique(originals, FirstBoundary(originals), b);
    }
  }

  lemma FirstBoundaryUnique(originals: seq<Draft>, a: string, b: string)
    requires b != "" && IsFirstBoundary(originals, a) && IsFirstBoundary(originals, b)
    ensures a == b
  {
    var j :| 0 <= j < |originals| && originals[j].boundary == b && forall k | 0 <= k < j :: originals[k].boundary == "";
    assert originals[j] in originals;
  }

  /** A decision writes nothing less risky than a file it supplants if and only if it reaches the band of each. */
  lemma DecisionLowersNoneIff(files: map<string, Draft>, drafts: map<string, Draft>, schema: Schema, d: Decision)
    ensures var e := EffectOf(drafts, schema, d);
            LowersNone(files, e) <==> forall x, y | Supplants(files, e, x, y) :: Reaches(drafts, d, x, files[y].risk)
  {
    var e := EffectOf(drafts, schema, d);
    forall x, y | Supplants(files, e, x, y)
      ensures AtLeastAsRisky(e.writes[x].risk, files[y].risk) <==> Reaches(drafts, d, x, files[y].risk)
    {
      LeftReachesIff(drafts, schema, d, x, files[y].risk);
    }
  }

  /** A decision drops no safety boundary of a file it supplants if and only if it carries each. */
  lemma DecisionDropsNoneIff(files: map<string, Draft>, drafts: map<string, Draft>, schema: Schema, d: Decision)
    ensures var e := EffectOf(drafts, schema, d);
            DropsNone(files, e)
            <==> forall x, y | Supplants(files, e, x, y) && files[y].boundary != ""
                 :: Carries(drafts, d, x, files[y].boundary)
  {
    var e := EffectOf(drafts, schema, d);
    forall x, y | Supplants(files, e, x, y) && files[y].boundary != ""
      ensures e.writes[x].boundary == files[y].boundary <==> Carries(drafts, d, x, files[y].boundary)
    {
      LeftCarriesIff(drafts, schema, d, x, files[y].boundary);
    }
  }

  // -------------------------------------------------------------------- runs

  /** The files that decision `i` of a run finds. */
  ghost function Found(dir: Dir, drafts: map<string, Draft>, schema: Schema, ds: seq<Decision>,
                       i: nat): map<string, Draft>
    requires i <= |ds|
  {
    RunAll(dir, drafts, schema, ds[..i]).files
  }

  /** No decision of a run writes an object less risky than a file it supplants, loaded or written earlier in the run,
      if and only if each reaches the bands of the files it finds. */
  lemma RunLowersNoneIff(dir: Dir, drafts: map<string, Draft>, schema: Schema, ds: seq<Decision>)
    ensures (forall i | 0 <= i < |ds| :: LowersNone(Found(dir, drafts, schema, ds, i), EffectOf(drafts, schema, ds[i])))
            <==> forall i, x, y | 0 <= i < |ds|
                     && Supplants(Found(dir, drafts, schema, ds, i), EffectOf(drafts, schema, ds[i]), x, y) ::
                   Reaches(drafts, ds[i], x, Found(dir, drafts, schema, ds, i)[y].risk)
  {
    forall i | 0 <= i < |ds|
      ensures var files, e := Found(dir, drafts, schema, ds, i), EffectOf(drafts, schema, ds[i]);
              LowersNone(files, e)
              <==> forall x, y | Supplants(files, e, x, y) :: Reaches(drafts, ds[i], x, files[y].risk)
    {
      DecisionLowersNoneIff(Found(dir, drafts, schema, ds, i), drafts, schema, ds[i]);
    }
  }

  /** The files that hold at the end what took the place of the file `y`, directly or through files that were
      themselves deprecated; `y` itself if nothing did. */
  ghost function Heirs(es: seq<Effect>, y: string): set<string> {
    if es == [] then {y}
    else
      var e := es[|es| - 1];
      set z, h | z in Heirs(es[..|es| - 1], y) && h in HeirsOf(e, z) :: h
  }

  ghost function HeirsOf(e: Effect, z: string): set<string> {
    if z in e.deprecates then e.writes.Keys else {z}
  }

  lemma HeirOfHeir(es: seq<Effect>, y: string, h: string) returns (z: string)
    requires es != [] && h in Heirs(es, y)
    ensures z in Heirs(es[..|es| - 1], y) && h in HeirsOf(es[|es| - 1], z)
  {
    z :| z in Heirs(es[..|es| - 1], y) && h in HeirsOf(es[|es| - 1], z);
  }

  lemma {:induction false} HeirsAreLeft(files: map<string, Draft>, es: seq<Effect>, y: string, h: string)
    requires y in files && h in Heirs(es, y)
    ensures h in AfterAll(files, es)
  {
    if es != [] {
      var z := HeirOfHeir(es, y, h);
      HeirsAreLeft(files, es[..|es| - 1], y, z);
    }
  }

  /** When no step lowers a band or drops a boundary, no chain of replacements does. */
  lemma {:induction false} HeirsInherit(files: map<string, Draft>, es: seq<Effect>, y: string, h: string)
    requires y in files && h in Heirs(es, y)
    ensures h in AfterAll(files, es)
    ensures (forall i | 0 <= i < |es| :: LowersNone(AfterAll(files, es[..i]), es[i])) ==>
              AtLeastAsRisky(AfterAll(files, es)[h].risk, files[y].risk)
    ensures (forall i | 0 <= i < |es| :: DropsNone(AfterAll(files, es[..i]), es[i])) && files[y].boundary != "" ==>
              AfterAll(files, es)[h].boundary == files[y].boundary
  {
    HeirsAreLeft(files, es, y, h);
    if es != [] {
      var n := |es| - 1;
      var init := es[..n];
      var z := HeirOfHeir(es, y, h);
      HeirsInherit(files, init, y, z);
      assert forall i | 0 <= i < n :: init[..i] == es[..i];
      if z in es[n].deprecates || z in es[n].writes {
        assert Supplants(AfterAll(files, init), es[n], h, z);
      }
    }
  }

  /** An heir that no standing decision wrote is the file itself, untouched. */
  lemma {:induction false} HeirUnwritten(files: map<string, Draft>, es: seq<Effect>, y: string, h: string)
    requires y in files && h in Heirs(es, y) && Standing(es, h).None?
    ensures h == y && h in AfterAll(files, es) && AfterAll(files, es)[h] == files[y]
  {
    if es != [] {
      var z := HeirOfHeir(es, y, h);
      HeirUnwritten(files, es[..|es| - 1], y, z);
    }
  }

  /** What an heir holds at the end. */
  lemma HeirHolds(dir: Dir, drafts: map<string, Draft>, schema: Schema, ds: seq<Decision>, y: string, h: string)
    requires y in dir.files && h in Heirs(Effects(drafts, schema, ds), y)
    ensures var files, j := RunAll(dir, drafts, schema, ds).files, Standing(Effects(drafts, schema, ds), h);
            && h in files
            && (if j.Some? then files[h] == EffectOf(drafts, schema, ds[j.value]).writes[h]
                else files[h] == dir.files[y])
  {
    var es := Effects(drafts, schema, ds);
    RunHasEffects(dir, drafts, schema, ds);
    HeirsAreLeft(dir.files, es, y, h);
    if Standing(es, h).Some? {
      StandingIsLeft(dir.files, es, h, Standing(es, h).value);
    } else {
      HeirUnwritten(dir.files, es, y, h);
    }
  }

  /** Whatever takes the place of a file, through however many replacements, is at the end at least as risky. */
  ghost predicate HeirsAsRisky(before: map<string, Draft>, after: map<string, Draft>, es: seq<Effect>) {
    forall y, h | y in before && h in Heirs(es, y) :: h in after && AtLeastAsRisky(after[h].risk, before[y].risk)
  }

  /** The decision that wrote each heir last reaches the band of the file. */
  ghost predicate WritersReach(before: map<string, Draft>, drafts: map<string, Draft>, ds: seq<Decision>,
                               es: seq<Effect>)
    requires |es| == |ds|
  {
    forall y, h | y in before && h in Heirs(es, y) && Standing(es, h).Some? ::
      Reaches(drafts, ds[Standing(es, h).value], h, before[y].risk)
  }

  /** Any run leaves the heirs of the files it started from as risky as these were if and only if the decisions that
      wrote them last reach the bands. */
  lemma HeirsAsRiskyIff(dir: Dir, drafts: map<string, Draft>, schema: Schema, ds: seq<Decision>)
    ensures var es := Effects(drafts, schema, ds);
            HeirsAsRisky(dir.files, RunAll(dir, drafts, schema, ds).files, es)
            <==> WritersReach(dir.files, drafts, ds, es)
  {
    var files, es := RunAll(dir, drafts, schema, ds).files, Effects(drafts, schema, ds);
    forall y, h | y in dir.files && h in Heirs(es, y) ensures RiskTold(dir.files, files, drafts, ds, es, y, h) {
      HeirRiskTold(dir, drafts, schema, ds, y, h);
    }
    RisksTold(dir.files, files, drafts, ds, es);
  }

  /** Whether one heir is as risky as the file is told by the decision that wrote it last. */
  ghost predicate RiskTold(before: map<string, Draft>, after: map<string, Draft>, drafts: map<string, Draft>,
                           ds: seq<Decision>, es: seq<Effect>, y: string, h: string)
    requires |es| == |ds| && y in before
  {
    && h in after
    && (AtLeastAsRisky(after[h].risk, before[y].risk)
        <==> (Standing(es, h).Some? ==> Reaches(drafts, ds[Standing(es, h).value], h, before[y].risk)))
  }

  lemma HeirRiskTold(dir: Dir, drafts: map<string, Draft>, schema: Schema, ds: seq<Decision>, y: string, h: string)
    requires y in dir.files && h in Heirs(Effects(drafts, schema, ds), y)
    ensures RiskTold(dir.files, RunAll(dir, drafts, schema, ds).files, drafts, ds, Effects(drafts, schema, ds), y, h)
  {
    var j := Standing(Effects(drafts, schema, ds), h);
    HeirHolds(dir, drafts, schema, ds, y, h);
    if j.Some? {
      LeftReachesIff(drafts, schema, ds[j.value], h, dir.files[y].risk);
    }
  }

  lemma RisksTold(before: map<string, Draft>, after: map<string, Draft>, drafts: map<string, Draft>, ds: seq<Decision>,
                  es: seq<Effect>)
    requires |es| == |ds|
    requires forall y, h | y in before && h in Heirs(es, y) :: RiskTold(before, after, drafts, ds, es, y, h)
    ensures HeirsAsRisky(before, after, es) <==> WritersReach(before, drafts, ds, es)
  {
    if WritersReach(before, drafts, ds, es) {
      forall y, h | y in before && h in Heirs(es, y)
        ensures h in after && AtLeastAsRisky(after[h].risk, before[y].risk)
      {
        assert RiskTold(before, after, drafts, ds, es, y, h);
      }
    }
    if HeirsAsRisky(before, after, es) {
      forall y, h | y in before && h in Heirs(es, y) && Standing(es, h).Some?
        ensures Reaches(drafts, ds[Standing(es, h).value], h, before[y].risk)
      {
        assert RiskTold(before, after, drafts, ds, es, y, h);
      }
    }
  }

  /** Whatever takes the place of a file with a safety boundary has that boundary at the end. */
  ghost predicate HeirsKeepBoundary(before: map<string, Draft>, after: map<string, Draft>, es: seq<Effect>) {
    forall y, h | y in before && before[y].boundary != "" && h in Heirs(es, y) ::
      h in after && after[h].boundary == before[y].boundary
  }

  ghost predicate WritersCarry(before: map<string, Draft>, drafts: map<string, Draft>, ds: seq<Decision>,
                               es: seq<Effect>)
    requires |es| == |ds|
  {
    forall y, h | y in before && before[y].boundary != "" && h in Heirs(es, y) && Standing(es, h).Some? ::
      Carries(drafts, ds[Standing(es, h).value], h, before[y].boundary)
  }

  /** Any run leaves the heirs of the files it started from with their safety boundaries if and only if the decisions
      that wrote them last carry these. */
  lemma HeirsKeepBoundaryIff(dir: Dir, drafts: map<string, Draft>, schema: Schema, ds: seq<Decision>)
    ensures var es := Effects(drafts, schema, ds);
            HeirsKeepBoundary(dir.files, RunAll(dir, drafts, schema, ds).files, es)
            <==> WritersCarry(dir.files, drafts, ds, es)
  {
    var files, es := RunAll(dir, drafts, schema, ds).files, Effects(drafts, schema, ds);
    forall y, h | y in dir.files && dir.files[y].boundary != "" && h in Heirs(es, y)
      ensures BoundaryTold(dir.files, files, drafts, ds, es, y, h)
    {
      HeirBoundaryTold(dir, drafts, schema, ds, y, h);
    }
    BoundariesTold(dir.files, files, drafts, ds, es);
  }

  /** Whether one heir has the file's boundary is told by the decision that wrote it last. */
  ghost predicate BoundaryTold(before: map<string, Draft>, after: map<string, Draft>, drafts: map<string, Draft>,
                               ds: seq<Decision>, es: seq<Effect>, y: string, h: string)
    requires |es| == |ds| && y in before
  {
    && h in after
    && (after[h].boundary == before[y].boundary
        <==> (Standing(es, h).Some? ==> Carries(drafts, ds[Standing(es, h).value], h, before[y].boundary)))
  }

  lemma HeirBoundaryTold(dir: Dir, drafts: map<string, Draft>, schema: Schema, ds: seq<Decision>, y: string, h: string)
    requires y in dir.files && dir.files[y].boundary != "" && h in Heirs(Effects(drafts, schema, ds), y)
    ensures BoundaryTold(dir.files, RunAll(dir, drafts, schema, ds).files, drafts, ds,
                         Effects(drafts, schema, ds), y, h)
  {
    var j := Standing(Effects(drafts, schema, ds), h);
    HeirHolds(dir, drafts, schema, ds, y, h);
    if j.Some? {
      LeftCarriesIff(drafts, schema, ds[j.value], h, dir.files[y].boundary);
    }
  }

  lemma BoundariesTold(before: map<string, Draft>, after: map<string, Draft>, drafts: map<string, Draft>,
                       ds: seq<Decision>, es: seq<Effect>)
    requires |es| == |ds|
    requires forall y, h | y in before && before[y].boundary != "" && h in Heirs(es, y) ::
               BoundaryTold(before, after, drafts, ds, es, y, h)
    ensures HeirsKeepBoundary(before, after, es) <==> WritersCarry(before, drafts, ds, es)
  {
    if WritersCarry(before, drafts, ds, es) {
      forall y, h | y in before && before[y].boundary != "" && h in Heirs(es, y)
        ensures h in after && after[h].boundary == before[y].boundary
      {
        assert BoundaryTold(before, after, drafts, ds, es, y, h);
      }
    }
    if HeirsKeepBoundary(before, after, es) {
      forall y, h | y in before && before[y].boundary != "" && h in Heirs(es, y) && Standing(es, h).Some?
        ensures Carries(drafts, ds[Standing(es, h).value], h, before[y].boundary)
      {
        assert BoundaryTold(before, after, drafts, ds, es, y, h);
      }
    }
  }

  // ------------------------------------------------------------ failing inputs

  /** A merge that deprecates a file written earlier in the run: the high-risk draft ends up as a low-risk one, though
      no slug is shared and nothing overwritten. */
  lemma ChainLowersRisk(dir: Dir, drafts: map<string, Draft>, schema: Schema, risky: string, tame: string, s: string,
                        t: string)
    requires risky in drafts && risky in dir.files && dir.files[risky] == drafts[risky]
             && drafts[risky].risk == Some(HIGH)
    requires tame in drafts && drafts[tame].risk == Some(LOW)
    requires s !in drafts && t !in drafts && s != t
    requires Validates(schema, s, drafts[risky]) && Validates(schema, t, drafts[tame])
    ensures var ds := [Merge(s, [risky], Some(drafts[risky])), Merge(t, [s, tame], Some(drafts[tame]))];
            var files, es := RunAll(dir, drafts, schema, ds).files, Effects(drafts, schema, ds);
            && t in Heirs(es, risky) && t in files && files[t].risk == Some(LOW)
            && !LowersNone(Found(dir, drafts, schema, ds, 1), EffectOf(drafts, schema, ds[1]))
  {
    var d, e := Merge(s, [risky], Some(drafts[risky])), Merge(t, [s, tame], Some(drafts[tame]));
    ChainEffects(drafts, schema, risky, tame, s, t);
    RunOfChain(dir, drafts, schema, d, e, risky, s, t);
  }

  lemma RunOfChain(dir: Dir, drafts: map<string, Draft>, schema: Schema, d: Decision, e: Decision, y: string, s: string,
                   t: string)
    requires var a, b := EffectOf(drafts, schema, d), EffectOf(drafts, schema, e);
             y in a.deprecates && s in a.writes && s in b.deprecates && t in b.writes
             && !AtLeastAsRisky(b.writes[t].risk, a.writes[s].risk)
    ensures var files := RunAll(dir, drafts, schema, [d, e]).files;
            && t in Heirs(Effects(drafts, schema, [d, e]), y)
            && t in files && files[t] == EffectOf(drafts, schema, e).writes[t]
            && !LowersNone(Found(dir, drafts, schema, [d, e], 1), EffectOf(drafts, schema, e))
  {
    ChainOfEffects(dir.files, EffectOf(drafts, schema, d), EffectOf(drafts, schema, e), y, s, t);
    RunOfTwo(dir, drafts, schema, d, e);
  }

  lemma RunOfTwo(dir: Dir, drafts: map<string, Draft>, schema: Schema, d: Decision, e: Decision)
    ensures var a, b := EffectOf(drafts, schema, d), EffectOf(drafts, schema, e);
            && Effects(drafts, schema, [d, e]) == [a, b]
            && RunAll(dir, drafts, schema, [d, e]).files == AfterAll(dir.files, [a, b])
            && Found(dir, drafts, schema, [d, e], 1) == AfterAll(dir.files, [a])
  {
    var a, b := EffectOf(drafts, schema, d), EffectOf(drafts, schema, e);
    assert [d, e][..1] == [d];
    RunHasEffects(dir, drafts, schema, [d, e]);
    RunHasEffects(dir, drafts, schema, [d]);
    assert Effects(drafts, schema, [d, e]) == [a, b] && Effects(drafts, schema, [d]) == [a];
  }

  lemma ChainEffects(drafts: map<string, Draft>, schema: Schema, risky: string, tame: string, s: string, t: string)
    requires risky in drafts && tame in drafts && s !in drafts
    requires Validates(schema, s, drafts[risky]) && Validates(schema, t, drafts[tame])
    ensures var a := EffectOf(drafts, schema, Merge(s, [risky], Some(drafts[risky])));
            a.writes == map[s := drafts[risky]] && risky in a.deprecates
    ensures var b := EffectOf(drafts, schema, Merge(t, [s, tame], Some(drafts[tame])));
            b.writes == map[t := drafts[tame]] && s in b.deprecates
  {
    var d, e := Merge(s, [risky], Some(drafts[risky])), Merge(t, [s, tame], Some(drafts[tame]));
    MergeOfOne(drafts, schema, s, risky);
    MergeWithUnloaded(drafts, schema, t, s, tame);
    WritesOne(drafts, schema, d, s, drafts[risky]);
    WritesOne(drafts, schema, e, t, drafts[tame]);
    assert risky in [risky] && s in [s, tame];
  }

  lemma ChainOfEffects(files: map<string, Draft>, a: Effect, b: Effect, y: string, s: string, t: string)
    requires y in a.deprecates && s in a.writes && s in b.deprecates && t in b.writes
    ensures t in Heirs([a, b], y) && t in AfterAll(files, [a, b]) && AfterAll(files, [a, b])[t] == b.writes[t]
    ensures !AtLeastAsRisky(b.writes[t].risk, a.writes[s].risk) ==> !LowersNone(AfterAll(files, [a]), b)
  {
    assert [a, b][..1] == [a] && [a][..0] == [];
    assert AfterAll(files, [a])[s] == a.writes[s] && Supplants(AfterAll(files, [a]), b, t, s);
    assert y in Heirs([], y) && s in HeirsOf(a, y);
    assert s in Heirs([a], y) && t in HeirsOf(b, s);
  }

  lemma WritesOne(drafts: map<string, Draft>, schema: Schema, d: Decision, x: string, left: Draft)
    requires Written(drafts, schema, d) == Some([Child(x, left)])
    ensures EffectOf(drafts, schema, d) == Effect(map[x := left], set y | y in Deprecates(d))
  {
    var written := [Child(x, left)];
    assert written[0] in written;
  }

  lemma MergeWithUnloaded(drafts: map<string, Draft>, schema: Schema, slug: string, unloaded: string, id: string)
    requires id in drafts && unloaded !in drafts && Validates(schema, slug, drafts[id])
    ensures Written(drafts, schema, Merge(slug, [unloaded, id], Some(drafts[id]))) == Some([Child(slug, drafts[id])])
  {
    MergeOfOne(drafts, schema, slug, id);
    assert [unloaded, id][..1] == [unloaded] && [unloaded][..0] == [] && [id][..0] == [];
    assert Originals(drafts, [unloaded]) == [];
    assert Originals(drafts, [unloaded, id]) == Originals(drafts, [id]);
  }

  /** A merge that overwrites a draft it does not list leaves it without its safety boundary. */
  lemma OverwriteDropsBoundary(dir: Dir, drafts: map<string, Draft>, schema: Schema, kept: string, tame: string)
    requires kept in dir.files && dir.files[kept].boundary != "" && kept != tame
    requires tame in drafts && drafts[tame].boundary == "" && Validates(schema, kept, drafts[tame])
    ensures var ds := [Merge(kept, [tame], Some(drafts[tame]))];
            var files := RunAll(dir, drafts, schema, ds).files;
            && kept in Heirs(Effects(drafts, schema, ds), kept) && kept in files && files[kept].boundary == ""
            && !DropsNone(dir.files, EffectOf(drafts, schema, ds[0]))
  {
    var d := Merge(kept, [tame], Some(drafts[tame]));
    var es := Effects(drafts, schema, [d]);
    MergeOfOne(drafts, schema, kept, tame);
    WritesOne(drafts, schema, d, kept, drafts[tame]);
    assert Supplants(dir.files, es[0], kept, kept);
    assert kept in Heirs(es[..0], kept) && kept in HeirsOf(es[0], kept);
    HeirHolds(dir, drafts, schema, [d], kept, kept);
  }

  /** A deprecated file has an heir exactly when the applied decision proposes an object with a slug or an id. */
  lemma LeavesHeirIff(drafts: map<string, Draft>, schema: Schema, d: Decision, y: string)
    requires Written(drafts, schema, d).Some? && y in Deprecates(d)
    ensures HeirsOf(EffectOf(drafts, schema, d), y) != {} <==> Proposed(d) != []
  {
    var proposed, written := Proposed(d), Written(drafts, schema, d).value;
    if proposed != [] {
      assert written[0] in written;
      assert written[0].name in EffectOf(drafts, schema, d).writes;
    }
  }

  /** A split into nameless candidates archives the draft and leaves nothing in its place. */
  lemma NamelessSplit(dir: Dir, drafts: map<string, Draft>, schema: Schema, y: string, draft: Draft)
    ensures var d := Split([y], [Candidate("", "", draft)]);
            && Written(drafts, schema, d) == Some([]) && y !in Decide(dir, drafts, schema, d).files
            && HeirsOf(EffectOf(drafts, schema, d), y) == {}
  {
    var d := Split([y], [Candidate("", "", draft)]);
    assert [Candidate("", "", draft)][..0] == [];
    assert Named([Candidate("", "", draft)]) == [];
    assert y in [y];
    LeavesHeirIff(drafts, schema, d, y);
    DecideFiles(dir, drafts, schema, d, y);
  }

  /** Two merges onto one slug lose the first one's boundary. */
  lemma SharedSlugDropsBoundary(dir: Dir, drafts: map<string, Draft>, schema: Schema, slug: string, kept: string,
                                tame: string)
    requires kept in drafts && drafts[kept].boundary != "" && Validates(schema, slug, drafts[kept])
    requires tame in drafts && drafts[tame].boundary == "" && Validates(schema, slug, drafts[tame])
    ensures var ds := [Merge(slug, [kept], Some(drafts[kept])), Merge(slug, [tame], Some(drafts[tame]))];
            !DropsNone(Found(dir, drafts, schema, ds, 1), EffectOf(drafts, schema, ds[1]))
  {
    var d, e := Merge(slug, [kept], Some(drafts[kept])), Merge(slug, [tame], Some(drafts[tame]));
    MergeOfOne(drafts, schema, slug, kept);
    MergeOfOne(drafts, schema, slug, tame);
    WritesOne(drafts, schema, d, slug, drafts[kept]);
    WritesOne(drafts, schema, e, slug, drafts[tame]);
    assert [d, e][..1] == [d] && [d][..0] == [];
    DecideHasEffect(dir, drafts, schema, d);
    assert RunAll(dir, drafts, schema, [d]) == Decide(dir, drafts, schema, d);
    assert Supplants(Found(dir, drafts, schema, [d, e], 1), EffectOf(drafts, schema, e), slug, slug);
  }

  // ----------------------------------------------------------------- archives

  /** The archive gains the file, or is as before at that name. */
  ghost predicate ArchivedOrKept(archive: map<string, Draft>, files: map<string, Draft>, archive': map<string, Draft>,
                                 files': map<string, Draft>, x: string) {
    if x in files && x !in files' then x in archive' && archive'[x] == files[x]
    else (x in archive' <==> x in archive) && (x in archive ==> archive'[x] == archive[x])
  }

  /** No decision destroys a file without writing one of its name: what a merge takes from the directory is afterwards
      in the merge archive as it was, what a split takes in the split archive; nothing else enters an archive, and
      nothing leaves one, though a file archived anew replaces one of its name. */
  lemma DecisionArchives(dir: Dir, drafts: map<string, Draft>, schema: Schema, d: Decision, x: string)
    ensures var after := Decide(dir, drafts, schema, d);
            && (d.Keep? ==> after == dir)
            && (d.Merge? ==> after.splitDir == dir.splitDir
                             && ArchivedOrKept(dir.mergedDir, dir.files, after.mergedDir, after.files, x))
            && (d.Split? ==> after.mergedDir == dir.mergedDir
                             && ArchivedOrKept(dir.splitDir, dir.files, after.splitDir, after.files, x))
  {
    DecideFiles(dir, drafts, schema, d, x);
    if Written(drafts, schema, d).Some? {
      WriteAllFiles(dir.files, Written(drafts, schema, d).value, x);
    }
  }

  /** Somewhere: in the drafts directory or in an archive. */
  ghost predicate Somewhere(dir: Dir, x: string) {
    x in dir.files || x in dir.mergedDir || x in dir.splitDir
  }

  /** At the end of any run every name there was is still somewhere. */
  lemma {:induction false} NothingVanishes(dir: Dir, drafts: map<string, Draft>, schema: Schema, ds: seq<Decision>,
                                           x: string)
    requires Somewhere(dir, x)
    ensures Somewhere(RunAll(dir, drafts, schema, ds), x)
  {
    if ds != [] {
      var n := |ds| - 1;
      NothingVanishes(dir, drafts, schema, ds[..n], x);
      DecisionArchives(RunAll(dir, drafts, schema, ds[..n]), drafts, schema, ds[n], x);
    }
  }

  /** The draft `t` of that name, in the directory or else in an archive. */
  ghost predicate KeptAs(dir: Dir, x: string, t: Draft) {
    if x in dir.files then dir.files[x] == t
    else (x in dir.mergedDir && dir.mergedDir[x] == t) || (x in dir.splitDir && dir.splitDir[x] == t)
  }

  /** And a file that no decision of the run writes is kept as it was. */
  lemma {:induction false} UnwrittenIsKept(dir: Dir, drafts: map<string, Draft>, schema: Schema, ds: seq<Decision>,
                                           x: string)
    requires x in dir.files && forall i | 0 <= i < |ds| :: !Writes(drafts, schema, ds[i], x)
    ensures KeptAs(RunAll(dir, drafts, schema, ds), x, dir.files[x])
  {
    if ds != [] {
      var n := |ds| - 1;
      UnwrittenIsKept(dir, drafts, schema, ds[..n], x);
      StepKeepsUnwritten(RunAll(dir, drafts, schema, ds[..n]), drafts, schema, ds[n], x, dir.files[x]);
    }
  }

  lemma StepKeepsUnwritten(dir: Dir, drafts: map<string, Draft>, schema: Schema, d: Decision, x: string, t: Draft)
    requires KeptAs(dir, x, t) && !Writes(drafts, schema, d, x)
    ensures KeptAs(Decide(dir, drafts, schema, d), x, t)
  {
    DecisionArchives(dir, drafts, schema, d, x);
    DecideFiles(dir, drafts, schema, d, x);
  }

  // ------------------------------------------------- one decision for each group

  lemma {:induction false} UntouchedFile(files: map<string, Draft>, es: seq<Effect>, y: string)
    requires forall i | 0 <= i < |es| :: y !in es[i].writes && y !in es[i].deprecates
    ensures y in AfterAll(files, es) <==> y in files
    ensures y in files ==> AfterAll(files, es)[y] == files[y]
  {
    if es != [] {
      UntouchedFile(files, es[..|es| - 1], y);
    }
  }

  /** When no two decisions name the same file, each finds the files it names as they were at the start. */
  lemma ApartFindsFirst(dir: Dir, drafts: map<string, Draft>, schema: Schema, ds: seq<Decision>, i: nat, y: string)
    requires Apart(ds) && i < |ds| && y in Touched(ds[i])
    ensures var files := Found(dir, drafts, schema, ds, i);
            (y in files <==> y in dir.files) && (y in files ==> files[y] == dir.files[y])
  {
    var es := Effects(drafts, schema, ds[..i]);
    forall k | 0 <= k < i ensures y !in es[k].writes && y !in es[k].deprecates {
      EffectIsTouched(drafts, schema, ds[k]);
      assert y !in Touched(ds[k]);
    }
    RunHasEffects(dir, drafts, schema, ds[..i]);
    UntouchedFile(dir.files, es, y);
  }

  /** With one decision a group, over the drafts loaded from the directory, each listing what it overwrites, no decision
      lowers the band of any file it finds. */
  lemma OnePerGroupLowersNone(c: Corpus, dir: Dir, schema: Schema, ds: seq<Decision>, novel: seq<set<string>>, i: nat)
    requires ValidCorpus(c) && OnePerGroup(c, ds, novel) && dir.files == c.drafts && i < |ds|
    requires ListsOverwritten(c.drafts, ds, Effects(c.drafts, schema, ds))
    ensures LowersNone(Found(dir, c.drafts, schema, ds, i), EffectOf(c.drafts, schema, ds[i]))
  {
    var files, e := Found(dir, c.drafts, schema, ds, i), EffectOf(c.drafts, schema, ds[i]);
    OnePerGroupIsApart(c, ds, novel);
    EffectIsTouched(c.drafts, schema, ds[i]);
    assert Effects(c.drafts, schema, ds)[i] == e;
    forall x, y | Supplants(files, e, x, y) ensures Reaches(c.drafts, ds[i], x, files[y].risk) {
      ApartFindsFirst(dir, c.drafts, schema, ds, i, y);
      ListedIsReached(c.drafts, schema, ds[i], y, x);
    }
    DecisionLowersNoneIff(files, c.drafts, schema, ds[i]);
  }
}
