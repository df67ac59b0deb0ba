/** Ingest pass 4: grouping similar drafts, and applying the merge and split decisions made about the groups. The
    similarity ratio and the decisions themselves come from outside and are arbitrary. */
module Canonicalize {
  import opened Domain

  /** `risk` is None when the band is missing or not one of the four; `boundary` is the safety boundary of the
      structured data and `escalation` the escalation guidance of its implementation profile, empty when absent; `rest`
      stands for all other fields. */
  datatype Draft = Draft(title: string, summary: string, domain: string, risk: Option<RiskBand>,
                         hasStructuredData: bool, boundary: string, escalation: string, rest: nat)

  // ---------------------------------------------------------------- grouping

  /** The loaded drafts in load order, and the string similarity with its threshold. */
  datatype Corpus = Corpus(slugs: seq<string>, drafts: map<string, Draft>,
                          ratio: (string, string) -> int, threshold: int)

  ghost predicate ValidCorpus(c: Corpus) {
    && (forall i | 0 <= i < |c.slugs| :: c.slugs[i] in c.drafts)
    && (forall i, j | 0 <= i < j < |c.slugs| :: c.slugs[i] != c.slugs[j])
  }

  /** Draft `j` is similar enough to the earlier draft `i` and of the same domain. */
  predicate Joins(c: Corpus, i: nat, j: nat)
    requires ValidCorpus(c) && i < |c.slugs| && j < |c.slugs|
  {
    var a, b := c.drafts[c.slugs[i]], c.drafts[c.slugs[j]];
    var title, summary := c.ratio(a.title, b.title), c.ratio(a.summary, b.summary);
    a.domain == b.domain && (if title >= summary then title else summary) >= c.threshold
  }

  /** The earliest head from `i` on that draft `j` joins; `j` itself if there is none. */
  ghost function HeadFrom(c: Corpus, i: nat, j: nat): (h: nat)
    requires ValidCorpus(c) && i <= j < |c.slugs|
    ensures i <= h <= j
    decreases j, j - i
  {
    if i == j then j
    else if Head(c, i) == i && Joins(c, i, j) then i
    else HeadFrom(c, i + 1, j)
  }

  /** The head of draft `j`: a draft is a head when it joins no earlier head. */
  ghost function Head(c: Corpus, j: nat): (h: nat)
    requires ValidCorpus(c) && j < |c.slugs|
    ensures h <= j
    decreases j, j + 1
  {
    HeadFrom(c, 0, j)
  }

  /** The drafts before `n` with head `h`, in order; the head comes first. */
  ghost function Group(c: Corpus, h: nat, n: nat): seq<string>
    requires ValidCorpus(c) && n <= |c.slugs|
  {
    if n == 0 then []
    else Group(c, h, n - 1) + if Head(c, n - 1) == h then [c.slugs[n - 1]] else []
  }

  /** The groups of more than one draft whose head comes before `n`, in order of their heads. */
  ghost function Groups(c: Corpus, n: nat): seq<seq<string>>
    requires ValidCorpus(c) && n <= |c.slugs|
  {
    if n == 0 then []
    else
      var g := Group(c, n - 1, |c.slugs|);
      Groups(c, n - 1) + if Head(c, n - 1) == n - 1 && |g| > 1 then [g] else []
  }

  lemma {:induction false} HeadFromIs(c: Corpus, i: nat, j: nat)
    requires ValidCorpus(c) && i <= j < |c.slugs|
    ensures var h := HeadFrom(c, i, j);
            && (h < j ==> Head(c, h) == h && Joins(c, h, j))
            && (forall k: nat | i <= k < h :: !(Head(c, k) == k && Joins(c, k, j)))
    decreases j - i
  {
    if i < j && !(Head(c, i) == i && Joins(c, i, j)) {
      HeadFromIs(c, i + 1, j);
    }
  }

  /** A head's head is itself; a draft before the head has no member of its own up to the head. */
  lemma {:induction false} GroupStarts(c: Corpus, h: nat, n: nat)
    requires ValidCorpus(c) && h < n <= |c.slugs| && Head(c, h) == h
    ensures Group(c, h, h) == [] && Group(c, h, n) != [] && Group(c, h, n)[0] == c.slugs[h]
  {
    NoEarlierMember(c, h, h);
    if n > h + 1 {
      GroupStarts(c, h, n - 1);
    }
  }

  lemma {:induction false} NoEarlierMember(c: Corpus, h: nat, n: nat)
    requires ValidCorpus(c) && n <= h < |c.slugs|
    ensures Group(c, h, n) == []
  {
    if n > 0 {
      NoEarlierMember(c, h, n - 1);
    }
  }

  /** Before draft `i` is looked at, the drafts with an earlier head are visited. */
  ghost predicate VisitedBefore(c: Corpus, i: nat, visited: set<string>)
    requires ValidCorpus(c)
  {
    forall k | 0 <= k < |c.slugs| :: c.slugs[k] in visited <==> Head(c, k) < i
  }

  method FindSimilarGroups(c: Corpus) returns (groups: seq<seq<string>>)
    requires ValidCorpus(c)
    ensures groups == Groups(c, |c.slugs|)
  {
    var visited: set<string> := {};
    groups := [];
    for i := 0 to |c.slugs|
      invariant groups == Groups(c, i)
      invariant VisitedBefore(c, i, visited)
    {
      HeadsOnly(c, i);
      if c.slugs[i] !in visited {
        var group;
        group, visited := CollectGroup(c, i, visited);
        if |group| > 1 {
          groups := groups + [group];
        }
      }
    }
  }

  /** A draft that is not a head heads nothing. */
  lemma HeadsOnly(c: Corpus, i: nat)
    requires ValidCorpus(c) && i < |c.slugs|
    ensures forall k | 0 <= k < |c.slugs| :: Head(c, k) == i ==> Head(c, i) == i
  {
    forall k | 0 <= k < |c.slugs| ensures Head(c, k) == i ==> Head(c, i) == i {
      HeadFromIs(c, 0, k);
    }
  }

  /** Up to draft `j` the members of head `i`, itself apart, are visited too. */
  ghost predicate VisitedWithin(c: Corpus, i: nat, j: nat, visited: set<string>)
    requires ValidCorpus(c)
  {
    forall k | 0 <= k < |c.slugs| ::
      c.slugs[k] in visited <==> Head(c, k) < i || (k < j && k != i && Head(c, k) == i)
  }

  lemma VisitJoining(c: Corpus, i: nat, j: nat, visited: set<string>)
    requires ValidCorpus(c) && i < j < |c.slugs| && VisitedWithin(c, i, j, visited)
    ensures VisitedWithin(c, i, j + 1, if Head(c, j) == i then visited + {c.slugs[j]} else visited)
  {
  }

  lemma VisitHead(c: Corpus, i: nat, visited: set<string>)
    requires ValidCorpus(c) && i < |c.slugs| && Head(c, i) == i && VisitedWithin(c, i, |c.slugs|, visited)
    ensures VisitedBefore(c, i + 1, visited + {c.slugs[i]})
  {
  }

  /** A later draft without an earlier head has head `i` exactly when it joins it. */
  lemma JoinsFirstHead(c: Corpus, i: nat, j: nat)
    requires ValidCorpus(c) && i < j < |c.slugs| && Head(c, i) == i
    ensures Head(c, j) >= i ==> (Head(c, j) == i <==> Joins(c, i, j))
  {
    HeadFromIs(c, 0, j);
  }

  /** The inner loop: the group of head `i`, with every member marked visited. */
  method CollectGroup(c: Corpus, i: nat, visited0: set<string>) returns (group: seq<string>, visited: set<string>)
    requires ValidCorpus(c) && i < |c.slugs| && Head(c, i) == i && VisitedBefore(c, i, visited0)
    ensures group == Group(c, i, |c.slugs|)
    ensures VisitedBefore(c, i + 1, visited)
  {
    group, visited := [c.slugs[i]], visited0;
    NoEarlierMember(c, i, i);
    for j := i + 1 to |c.slugs|
      invariant group == Group(c, i, j)
      invariant VisitedWithin(c, i, j, visited)
    {
      JoinsFirstHead(c, i, j);
      if c.slugs[j] in visited {
        continue;
      }
      VisitJoining(c, i, j, visited);
      if Joins(c, i, j) {
        group := group + [c.slugs[j]];
        visited := visited + {c.slugs[j]};
      }
    }
    VisitHead(c, i, visited);
    visited := visited + {c.slugs[i]};
  }

  /** Membership in a group is having its head. */
  lemma {:induction false} InGroup(c: Corpus, h: nat, n: nat, j: nat)
    requires ValidCorpus(c) && n <= |c.slugs| && j < |c.slugs|
    ensures c.slugs[j] in Group(c, h, n) <==> j < n && Head(c, j) == h
  {
    if n > 0 {
      InGroup(c, h, n - 1, j);
    }
  }

  lemma {:induction false} MembersAreDrafts(c: Corpus, h: nat, n: nat, x: string) returns (j: nat)
    requires ValidCorpus(c) && n <= |c.slugs| && x in Group(c, h, n)
    ensures j < n && c.slugs[j] == x && Head(c, j) == h
  {
    if x == c.slugs[n - 1] && Head(c, n - 1) == h {
      j := n - 1;
    } else {
      j := MembersAreDrafts(c, h, n - 1, x);
    }
  }

  /** Every listed group is the group of a head. */
  lemma {:induction false} GroupHasHead(c: Corpus, n: nat, g: nat) returns (h: nat)
    requires ValidCorpus(c) && n <= |c.slugs| && g < |Groups(c, n)|
    ensures h < n && Head(c, h) == h && Groups(c, n)[g] == Group(c, h, |c.slugs|)
  {
    if g < |Groups(c, n - 1)| {
      h := GroupHasHead(c, n - 1, g);
    } else {
      h := n - 1;
    }
  }

  /** Different groups have different heads. */
  lemma {:induction false} GroupsHaveOwnHeads(c: Corpus, n: nat, a: nat, b: nat) returns (h: nat, m: nat)
    requires ValidCorpus(c) && n <= |c.slugs| && a < b < |Groups(c, n)|
    ensures h < m < n && Head(c, h) == h && Head(c, m) == m
    ensures Groups(c, n)[a] == Group(c, h, |c.slugs|) && Groups(c, n)[b] == Group(c, m, |c.slugs|)
  {
    if b < |Groups(c, n - 1)| {
      h, m := GroupsHaveOwnHeads(c, n - 1, a, b);
    } else {
      h := GroupHasHead(c, n - 1, a);
      m := n - 1;
    }
  }

  lemma {:induction false} HeadHasGroup(c: Corpus, n: nat, h: nat) returns (g: nat)
    requires ValidCorpus(c) && h < n <= |c.slugs| && Head(c, h) == h && |Group(c, h, |c.slugs|)| > 1
    ensures g < |Groups(c, n)| && Groups(c, n)[g] == Group(c, h, |c.slugs|)
  {
    if h == n - 1 {
      g := |Groups(c, n - 1)|;
    } else {
      g := HeadHasGroup(c, n - 1, h);
    }
  }

  lemma {:induction false} GroupIsLong(c: Corpus, n: nat, g: nat)
    requires ValidCorpus(c) && n <= |c.slugs| && g < |Groups(c, n)|
    ensures |Groups(c, n)[g]| > 1
  {
    if g < |Groups(c, n - 1)| {
      GroupIsLong(c, n - 1, g);
    }
  }

  lemma {:induction false} GroupAscends(c: Corpus, h: nat, n: nat, p: nat, q: nat) returns (i: nat, j: nat)
    requires ValidCorpus(c) && n <= |c.slugs| && p < q < |Group(c, h, n)|
    ensures i < j < n && Group(c, h, n)[p] == c.slugs[i] && Group(c, h, n)[q] == c.slugs[j]
  {
    var init := Group(c, h, n - 1);
    if q < |init| {
      i, j := GroupAscends(c, h, n - 1, p, q);
    } else {
      assert init[p] in Group(c, h, n - 1);
      i := MembersAreDrafts(c, h, n - 1, init[p]);
      j := n - 1;
    }
  }

  /** Every group has two members or more, in the order of the drafts and so without repeats, and groups come in the
      order of their first members. */
  lemma GroupsInOrder(c: Corpus, g: nat, p: nat, q: nat)
    requires ValidCorpus(c) && g < |Groups(c, |c.slugs|)| && p < q < |Groups(c, |c.slugs|)[g]|
    ensures exists i, j :: 0 <= i < j < |c.slugs|
              && Groups(c, |c.slugs|)[g][p] == c.slugs[i] && Groups(c, |c.slugs|)[g][q] == c.slugs[j]
    ensures |Groups(c, |c.slugs|)[g]| > 1
    ensures g + 1 < |Groups(c, |c.slugs|)| ==>
              exists i, j :: 0 <= i < j < |c.slugs| && Groups(c, |c.slugs|)[g + 1] != []
                && Groups(c, |c.slugs|)[g][0] == c.slugs[i] && Groups(c, |c.slugs|)[g + 1][0] == c.slugs[j]
  {
    var h := GroupHasHead(c, |c.slugs|, g);
    var i, j := GroupAscends(c, h, |c.slugs|, p, q);
    GroupIsLong(c, |c.slugs|, g);
    if g + 1 < |Groups(c, |c.slugs|)| {
      HeadsInOrder(c, g);
    }
  }

  lemma HeadsInOrder(c: Corpus, g: nat)
    requires ValidCorpus(c) && g + 1 < |Groups(c, |c.slugs|)|
    ensures exists i, j :: 0 <= i < j < |c.slugs| && Groups(c, |c.slugs|)[g] != [] && Groups(c, |c.slugs|)[g + 1] != []
              && Groups(c, |c.slugs|)[g][0] == c.slugs[i] && Groups(c, |c.slugs|)[g + 1][0] == c.slugs[j]
  {
    var a, b := GroupsHaveOwnHeads(c, |c.slugs|, g, g + 1);
    GroupStarts(c, a, |c.slugs|);
    GroupStarts(c, b, |c.slugs|);
  }

  /** Groups are pairwise disjoint. */
  lemma GroupsDisjoint(c: Corpus, a: nat, b: nat, x: string)
    requires ValidCorpus(c) && a < b < |Groups(c, |c.slugs|)|
    requires x in Groups(c, |c.slugs|)[a]
    ensures x !in Groups(c, |c.slugs|)[b]
  {
    var h, m := GroupsHaveOwnHeads(c, |c.slugs|, a, b);
    var j := MembersAreDrafts(c, h, |c.slugs|, x);
    InGroup(c, m, |c.slugs|, j);
  }

  /** A group holds its head and exactly the later drafts of the head's domain whose earliest similar head it is. */
  lemma GroupMembers(c: Corpus, g: nat, j: nat)
    requires ValidCorpus(c) && g < |Groups(c, |c.slugs|)| && j < |c.slugs|
    ensures var group := Groups(c, |c.slugs|)[g];
            exists h: nat :: h < |c.slugs| && Head(c, h) == h && group != [] && group[0] == c.slugs[h]
              && (c.slugs[j] in group <==>
                  j == h || (h < j && Joins(c, h, j) && forall k: nat | k < h && Head(c, k) == k :: !Joins(c, k, j)))
  {
    var h := GroupHasHead(c, |c.slugs|, g);
    GroupStarts(c, h, |c.slugs|);
    InGroup(c, h, |c.slugs|, j);
    HeadFromIs(c, 0, j);
  }

  /** A draft that is no head is in a group, the one of its head. */
  lemma NonHeadIsGrouped(c: Corpus, j: nat) returns (g: nat)
    requires ValidCorpus(c) && j < |c.slugs| && Head(c, j) != j
    ensures g < |Groups(c, |c.slugs|)| && c.slugs[j] in Groups(c, |c.slugs|)[g]
    ensures Groups(c, |c.slugs|)[g][0] == c.slugs[Head(c, j)]
  {
    var h := Head(c, j);
    HeadFromIs(c, 0, j);
    GroupStarts(c, h, |c.slugs|);
    InGroup(c, h, |c.slugs|, j);
    InGroup(c, h, |c.slugs|, h);
    TwoMembers(Group(c, h, |c.slugs|), c.slugs[h], c.slugs[j]);
    g := HeadHasGroup(c, |c.slugs|, h);
  }

  lemma TwoMembers(s: seq<string>, x: string, y: string)
    requires x in s && y in s && x != y
    ensures |s| > 1
  {
  }

  /** No two heads (or drafts left alone, which are heads) of one domain are similar. */
  lemma HeadsAreApart(c: Corpus, i: nat, j: nat)
    requires ValidCorpus(c) && i < j < |c.slugs| && Head(c, i) == i && Head(c, j) == j
    ensures !Joins(c, i, j)
  {
    HeadFromIs(c, 0, j);
  }

  /** All members of a group are of one domain, and the title or the summary of each is as similar as required to that
      of the first, which comes before it. */
  lemma MembersAreAlike(c: Corpus, g: nat, j: nat)
    requires ValidCorpus(c) && g < |Groups(c, |c.slugs|)| && j < |c.slugs| && c.slugs[j] in Groups(c, |c.slugs|)[g]
    ensures exists h: nat :: h <= j && Groups(c, |c.slugs|)[g][0] == c.slugs[h]
              && var a, b := c.drafts[c.slugs[h]], c.drafts[c.slugs[j]];
                 a.domain == b.domain
                 && (h < j ==> c.ratio(a.title, b.title) >= c.threshold || c.ratio(a.summary, b.summary) >= c.threshold)
  {
    GroupMembers(c, g, j);
  }

  /** Two drafts of one domain that both lead groups, or stand alone, have titles and summaries less similar than
      required. */
  lemma HeadsDiffer(c: Corpus, i: nat, j: nat)
    requires ValidCorpus(c) && i < j < |c.slugs| && Head(c, i) == i && Head(c, j) == j
    requires c.drafts[c.slugs[i]].domain == c.drafts[c.slugs[j]].domain
    ensures var a, b := c.drafts[c.slugs[i]], c.drafts[c.slugs[j]];
            c.ratio(a.title, b.title) < c.threshold && c.ratio(a.summary, b.summary) < c.threshold
  {
    HeadsAreApart(c, i, j);
  }

  // --------------------------------------------------------------- safety fields

  ghost predicate AtLeastAsRisky(a: Option<RiskBand>, b: Option<RiskBand>) {
    b.Some? ==> a.Some? && RiskRank(a.value) >= RiskRank(b.value)
  }

  function HigherRisk(a: Option<RiskBand>, b: Option<RiskBand>): Option<RiskBand> {
    if b.None? then a
    else if a.None? || RiskRank(b.value) > RiskRank(a.value) then b
    else a
  }

  function MaxRisk(own: Option<RiskBand>, originals: seq<Draft>): Option<RiskBand> {
    if originals == [] then own
    else HigherRisk(MaxRisk(own, originals[..|originals| - 1]), originals[|originals| - 1].risk)
  }

  /** The first non-empty boundary. */
  function FirstBoundary(originals: seq<Draft>): string {
    if originals == [] then ""
    else if originals[0].boundary != "" then originals[0].boundary else FirstBoundary(originals[1..])
  }

  function CarrySafety(obj: Draft, originals: seq<Draft>): Draft {
    obj.(risk := MaxRisk(obj.risk, originals),
         boundary := if obj.hasStructuredData && obj.boundary == "" then FirstBoundary(originals) else obj.boundary)
  }

  method CarrySafetyFields(obj: Draft, originals: seq<Draft>) returns (r: Draft)
    ensures r == CarrySafety(obj, originals)
  {
    r := obj;
    var best := obj.risk;
    for i := 0 to |originals|
      invariant best == MaxRisk(obj.risk, originals[..i])
      invariant best.None? ==> obj.risk.None?
    {
      assert originals[..i + 1][..i] == originals[..i];
      if originals[i].risk.Some? && (best.None? || RiskRank(originals[i].risk.value) > RiskRank(best.value)) {
        best := originals[i].risk;
      }
    }
    assert originals[..|originals|] == originals;
    if best.Some? {
      r := r.(risk := best);
    }
    if !r.hasStructuredData || r.boundary != "" {
      return r;
    }
    assert originals[0..] == originals;
    for i := 0 to |originals|
      invariant FirstBoundary(originals[i..]) == FirstBoundary(originals)
    {
      if originals[i].boundary != "" {
        r := r.(boundary := originals[i].boundary);
        return r;
      }
      assert originals[i..][1..] == originals[i + 1..];
    }
  }

  /** The result is as risky as the object and every original, and no riskier than all of them. Its boundary is the
      object's own if it has one or no structured data, otherwise the first one among the originals; so an object with
      structured data ends up with a boundary exactly when it or some original has one. */
  lemma SafetyIsCarried(obj: Draft, originals: seq<Draft>)
    ensures var r := CarrySafety(obj, originals);
            && AtLeastAsRisky(r.risk, obj.risk)
            && (forall o | o in originals :: AtLeastAsRisky(r.risk, o.risk))
            && (r.risk == obj.risk || exists o :: o in originals && r.risk == o.risk)
            && (if obj.boundary != "" || !obj.hasStructuredData then r.boundary == obj.boundary
                else IsFirstBoundary(originals, r.boundary))
            && (obj.hasStructuredData ==>
                  (r.boundary != "" <==> obj.boundary != "" || exists o :: o in originals && o.boundary != ""))
  {
    MaxRiskIsMax(obj.risk, originals);
    FirstBoundaryIs(originals);
  }

  /** Only boundaries that agree with each other and with the object's own are all kept: one object holds one. */
  ghost predicate BoundariesAgree(obj: Draft, originals: seq<Draft>) {
    && (forall o, p | o in originals && p in originals && o.boundary != "" && p.boundary != "" ::
          o.boundary == p.boundary)
    && (forall o | o in originals && o.boundary != "" && obj.boundary != "" :: o.boundary == obj.boundary)
  }

  /** No original's safety boundary is dropped if and only if no two boundaries differ. */
  lemma BoundariesKeptIff(obj: Draft, originals: seq<Draft>)
    requires obj.hasStructuredData
    ensures (forall o | o in originals && o.boundary != "" :: CarrySafety(obj, originals).boundary == o.boundary)
            <==> BoundariesAgree(obj, originals)
  {
    FirstBoundaryIs(originals);
  }

  /** The safety text the publish gate looks for. */
  predicate HasSafetyText(d: Draft) {
    d.boundary != "" || d.escalation != ""
  }

  /** Boundaries are carried over, escalation guidance is not: an object ends up with safety text exactly when it had
      some or an original has a boundary. */
  lemma SafetyTextIff(obj: Draft, originals: seq<Draft>)
    ensures HasSafetyText(CarrySafety(obj, originals))
            <==> HasSafetyText(obj) || (obj.hasStructuredData && exists o :: o in originals && o.boundary != "")
  {
    SafetyIsCarried(obj, originals);
  }

  /** An original whose only safety text is escalation guidance: what replaces it has none. */
  lemma GuidanceIsDropped(obj: Draft, guided: Draft)
    requires !HasSafetyText(obj) && guided.boundary == "" && guided.escalation != ""
    ensures HasSafetyText(guided) && !HasSafetyText(CarrySafety(obj, [guided]))
  {
    SafetyTextIff(obj, [guided]);
  }

  lemma {:induction false} MaxRiskIsMax(own: Option<RiskBand>, originals: seq<Draft>)
    ensures var r := MaxRisk(own, originals);
            && AtLeastAsRisky(r, own)
            && (forall o | o in originals :: AtLeastAsRisky(r, o.risk))
            && (r == own || exists o :: o in originals && r == o.risk)
  {
    if originals != [] {
      var n := |originals| - 1;
      MaxRiskIsMax(own, originals[..n]);
      assert originals == originals[..n] + [originals[n]];
    }
  }

  /** A highest band reaches `b` when one of the bands does. */
  lemma MaxRiskReaches(own: Option<RiskBand>, originals: seq<Draft>, b: Option<RiskBand>)
    ensures AtLeastAsRisky(MaxRisk(own, originals), b)
            <==> AtLeastAsRisky(own, b) || exists o :: o in originals && AtLeastAsRisky(o.risk, b)
  {
    MaxRiskIsMax(own, originals);
  }

  ghost predicate IsFirstBoundary(originals: seq<Draft>, boundary: string) {
    if boundary == "" then forall o | o in originals :: o.boundary == ""
    else exists i :: 0 <= i < |originals| && originals[i].boundary == boundary
                     && forall j | 0 <= j < i :: originals[j].boundary == ""
  }

  lemma {:induction false} FirstBoundaryIs(originals: seq<Draft>)
    ensures IsFirstBoundary(originals, FirstBoundary(originals))
  {
    if originals != [] && originals[0].boundary == "" {
      var rest := originals[1..];
      FirstBoundaryIs(rest);
      assert originals == [originals[0]] + rest;
      if FirstBoundary(rest) != "" {
        var i :| 0 <= i < |rest| && rest[i].boundary == FirstBoundary(rest)
                 && forall j | 0 <= j < i :: rest[j].boundary == "";
        assert originals[i + 1].boundary == FirstBoundary(originals);
        assert forall j | 0 < j < i + 1 :: originals[j] == rest[j - 1];
      }
    }
  }

  // ------------------------------------------------------------------ decisions

  /** An object a split proposes. A missing slug is empty too; the schema, which sees all fields, may tell the two
      apart. */
  datatype Candidate = Candidate(slug: string, id: string, draft: Draft)

  /** An object with the slug its file is named by. */
  datatype Child = Child(name: string, draft: Draft)

  datatype Decision =
    | Keep
    | Merge(canonicalSlug: string, deprecated: seq<string>, merged: Option<Draft>)
    | Split(deprecated: seq<string>, candidates: seq<Candidate>)

  /** The draft schema: besides what is stated here, an arbitrary check on the name and the fields. */
  type Schema = (string, Draft) -> bool

  predicate Validates(schema: Schema, name: string, d: Draft) {
    d.risk.Some? && d.hasStructuredData && schema(name, d)
  }

  /** The drafts directory with its two archive directories. */
  datatype Dir = Dir(files: map<string, Draft>, mergedDir: map<string, Draft>, splitDir: map<string, Draft>)

  function Originals(drafts: map<string, Draft>, ids: seq<string>): seq<Draft> {
    if ids == [] then []
    else
      Originals(drafts, ids[..|ids| - 1]) + if ids[|ids| - 1] in drafts then [drafts[ids[|ids| - 1]]] else []
  }

  /** The originals are the loaded ones among the named drafts. */
  lemma {:induction false} OriginalsAre(drafts: map<string, Draft>, ids: seq<string>, o: Draft)
    ensures o in Originals(drafts, ids) <==> exists id :: id in ids && id in drafts && drafts[id] == o
  {
    if ids != [] {
      OriginalsAre(drafts, ids[..|ids| - 1], o);
      assert ids == ids[..|ids| - 1] + [ids[|ids| - 1]];
    }
  }

  /** The candidates that declare a slug or an id. */
  ghost function Named(candidates: seq<Candidate>): seq<Child> {
    if candidates == [] then []
    else
      var c := candidates[|candidates| - 1];
      Named(candidates[..|candidates| - 1]) + if c.slug != "" || c.id != "" then [Child(c.slug, c.draft)] else []
  }

  lemma {:induction false} NamedPrefix(candidates: seq<Candidate>, i: nat)
    requires i <= |candidates|
    ensures Named(candidates[..i]) <= Named(candidates)
  {
    if i < |candidates| {
      var init := candidates[..|candidates| - 1];
      assert init[..i] == candidates[..i];
      NamedPrefix(init, i);
    } else {
      assert candidates[..i] == candidates;
    }
  }

  /** What a decision would write before safety fields are carried over. */
  ghost function Proposed(d: Decision): seq<Child> {
    match d
    case Keep => []
    case Merge(slug, _, merged) => if merged.Some? then [Child(slug, merged.value)] else []
    case Split(_, candidates) => Named(candidates)
  }

  /** A decision without objects, or without drafts to deprecate, is skipped. */
  predicate Skipped(d: Decision) {
    match d
    case Keep => true
    case Merge(_, deprecated, merged) => merged.None? || deprecated == []
    case Split(deprecated, candidates) => candidates == [] || deprecated == []
  }

  ghost function Deprecates(d: Decision): seq<string> {
    if d.Keep? then [] else d.deprecated
  }

  function Carried(objects: seq<Child>, originals: seq<Draft>): seq<Child> {
    seq(|objects|, i requires 0 <= i < |objects| => Child(objects[i].name, CarrySafety(objects[i].draft, originals)))
  }

  predicate AllValid(schema: Schema, objects: seq<Child>) {
    forall c | c in objects :: Validates(schema, c.name, c.draft)
  }

  /** The objects a decision writes, in writing order; None when the decision is skipped or rejected. */
  ghost function Written(drafts: map<string, Draft>, schema: Schema, d: Decision): Option<seq<Child>> {
    var carried := Carried(Proposed(d), Originals(drafts, Deprecates(d)));
    if !Skipped(d) && AllValid(schema, carried) then Some(carried) else None
  }

  function WriteAll(files: map<string, Draft>, objects: seq<Child>): map<string, Draft> {
    if objects == [] then files
    else
      var c := objects[|objects| - 1];
      WriteAll(files, objects[..|objects| - 1])[c.name := c.draft]
  }

  function Names(objects: seq<Child>): set<string> {
    set c | c in objects :: c.name
  }

  /** Drafts leave the directory when they are deprecated and were not just rewritten. */
  ghost function Decide(dir: Dir, drafts: map<string, Draft>, schema: Schema, d: Decision): Dir {
    var written := Written(drafts, schema, d);
    if written.None? then dir
    else
      var files := WriteAll(dir.files, written.value);
      var gone := set x | x in Deprecates(d) && x in files && x !in Names(written.value);
      var archived := map x | x in gone :: files[x];
      if d.Merge? then Dir(files - gone, dir.mergedDir + archived, dir.splitDir)
      else Dir(files - gone, dir.mergedDir, dir.splitDir + archived)
  }

  class DraftsDir {
    var files: map<string, Draft>
    var mergedDir: map<string, Draft>
    var splitDir: map<string, Draft>

    ghost function Contents(): Dir
      reads this
    {
      Dir(files, mergedDir, splitDir)
    }

    method LoadOriginals(drafts: map<string, Draft>, ids: seq<string>) returns (r: seq<Draft>)
      ensures r == Originals(drafts, ids)
    {
      r := [];
      for i := 0 to |ids|
        invariant r == Originals(drafts, ids[..i])
      {
        assert ids[..i + 1][..i] == ids[..i];
        if ids[i] in drafts {
          r := r + [drafts[ids[i]]];
        }
      }
      assert ids[..|ids|] == ids;
    }

    /** Move each deprecated draft that was not just rewritten. */
    method Archive(ids: seq<string>, kept: set<string>) returns (archived: map<string, Draft>)
      modifies this`files
      ensures var gone := set x | x in ids && x in old(files) && x !in kept;
              files == old(files) - gone && archived == map x | x in gone :: old(files)[x]
    {
      archived := map[];
      for i := 0 to |ids|
        invariant forall x :: x in archived <==> x in ids[..i] && x in old(files) && x !in kept
        invariant forall x | x in archived :: archived[x] == old(files)[x]
        invariant files == old(files) - archived.Keys
      {
        assert ids[..i + 1] == ids[..i] + [ids[i]];
        if ids[i] in kept {
          continue;
        }
        if ids[i] in files {
          archived := archived[ids[i] := files[ids[i]]];
          files := files - {ids[i]};
        }
      }
      assert ids[..|ids|] == ids;
    }

    method ApplyMerge(d: Decision, drafts: map<string, Draft>, schema: Schema)
      requires d.Merge?
      modifies this
      ensures Contents() == Decide(old(Contents()), drafts, schema, d)
    {
      if d.merged.None? || d.deprecated == [] {
        return;
      }
      var originals := LoadOriginals(drafts, d.deprecated);
      var merged := CarrySafetyFields(d.merged.value, originals);
      assert Carried(Proposed(d), originals) == [Child(d.canonicalSlug, merged)];
      if !Validates(schema, d.canonicalSlug, merged) {
        assert Child(d.canonicalSlug, merged) in Carried(Proposed(d), originals);
        return;
      }
      files := files[d.canonicalSlug := merged];
      OneWritten(old(files), Child(d.canonicalSlug, merged));
      var archived := Archive(d.deprecated, {d.canonicalSlug});
      mergedDir := mergedDir + archived;
    }

    method ApplySplit(d: Decision, drafts: map<string, Draft>, schema: Schema)
      requires d.Split?
      modifies this
      ensures Contents() == Decide(old(Contents()), drafts, schema, d)
    {
      if d.candidates == [] || d.deprecated == [] {
        return;
      }
      var parents := LoadOriginals(drafts, d.deprecated);
      var children := PrepareChildren(d.candidates, parents, schema);
      if children.None? {
        return;
      }
      var written := WriteChildren(children.value);
      var archived := Archive(d.deprecated, written);
      splitDir := splitDir + archived;
    }

    /** Check every child before any is written. */
    method PrepareChildren(candidates: seq<Candidate>, parents: seq<Draft>, schema: Schema)
        returns (r: Option<seq<Child>>)
      ensures var carried := Carried(Named(candidates), parents);
              r == if AllValid(schema, carried) then Some(carried) else None
    {
      var children: seq<Child> := [];
      for i := 0 to |candidates|
        invariant children == Carried(Named(candidates[..i]), parents)
        invariant AllValid(schema, children)
      {
        var c := candidates[i];
        assert candidates[..i + 1][..i] == candidates[..i];
        if c.slug == "" && c.id == "" {
          continue;
        }
        var child := CarrySafetyFields(c.draft, parents);
        assert Named(candidates[..i + 1]) == Named(candidates[..i]) + [Child(c.slug, c.draft)];
        if !Validates(schema, c.slug, child) {
          NamedPrefix(candidates, i + 1);
          assert Carried(Named(candidates), parents)[|children|] == Child(c.slug, child);
          return None;
        }
        children := children + [Child(c.slug, child)];
      }
      assert candidates[..|candidates|] == candidates;
      r := Some(children);
    }

    method WriteChildren(children: seq<Child>) returns (written: set<string>)
      modifies this`files
      ensures files == WriteAll(old(files), children) && written == Names(children)
    {
      written := {};
      for i := 0 to |children|
        invariant files == WriteAll(old(files), children[..i]) && written == Names(children[..i])
      {
        WriteAllStep(old(files), children, i);
        files := files[children[i].name := children[i].draft];
        written := written + {children[i].name};
      }
      assert children[..|children|] == children;
    }
  }

  lemma WriteAllStep(files: map<string, Draft>, objects: seq<Child>, i: nat)
    requires i < |objects|
    ensures WriteAll(files, objects[..i + 1]) == WriteAll(files, objects[..i])[objects[i].name := objects[i].draft]
    ensures Names(objects[..i + 1]) == Names(objects[..i]) + {objects[i].name}
  {
    assert objects[..i + 1] == objects[..i] + [objects[i]];
  }

  lemma OneWritten(files: map<string, Draft>, c: Child)
    ensures WriteAll(files, [c]) == files[c.name := c.draft] && Names([c]) == {c.name}
  {
    assert [c][..0] == [];
  }

  // ------------------------------------------------------------- one decision

  /** Everything an applied merge or split writes is at least as risky as every loaded draft it deprecates. */
  lemma WrittenIsAsRisky(drafts: map<string, Draft>, schema: Schema, d: Decision, id: string)
    requires Written(drafts, schema, d).Some? && id in d.deprecated && id in drafts
    ensures forall c | c in Written(drafts, schema, d).value :: AtLeastAsRisky(c.draft.risk, drafts[id].risk)
  {
    var originals := Originals(drafts, d.deprecated);
    OriginalsAre(drafts, d.deprecated, drafts[id]);
    forall i | 0 <= i < |Proposed(d)|
      ensures AtLeastAsRisky(CarrySafety(Proposed(d)[i].draft, originals).risk, drafts[id].risk)
    {
      SafetyIsCarried(Proposed(d)[i].draft, originals);
    }
  }

  /** Every object of an applied decision carries every safety boundary of the loaded drafts it deprecates if and only
      if no two of these differ and none differs from the object's own. */
  lemma WrittenKeepsBoundariesIff(drafts: map<string, Draft>, schema: Schema, d: Decision)
    requires Written(drafts, schema, d).Some?
    ensures (forall c, id | c in Written(drafts, schema, d).value && id in d.deprecated && id in drafts
                            && drafts[id].boundary != "" :: c.draft.boundary == drafts[id].boundary)
            <==> forall c | c in Proposed(d) :: BoundariesAgree(c.draft, Originals(drafts, d.deprecated))
  {
    var proposed, written, originals := Proposed(d), Written(drafts, schema, d).value, Originals(drafts, d.deprecated);
    forall i | 0 <= i < |proposed|
      ensures BoundariesAgree(proposed[i].draft, originals)
              <==> forall id | id in d.deprecated && id in drafts && drafts[id].boundary != "" ::
                     written[i].draft.boundary == drafts[id].boundary
    {
      assert written[i] in written;
      BoundariesKeptIff(proposed[i].draft, originals);
      forall o ensures o in originals <==> exists id :: id in d.deprecated && id in drafts && drafts[id] == o {
        OriginalsAre(drafts, d.deprecated, o);
      }
    }
    assert forall i | 0 <= i < |proposed| :: written[i] in written && proposed[i] in proposed;
  }

  /** A merge of two drafts whose boundaries differ, into an object without one, drops the second boundary. */
  lemma MergeDropsBoundary(d: Draft, schema: Schema)
    requires d.hasStructuredData && Validates(schema, "c", d.(boundary := "x"))
    ensures var drafts := map["a" := d.(boundary := "x"), "b" := d.(boundary := "y")];
            Written(drafts, schema, Merge("c", ["a", "b"], Some(d.(boundary := ""))))
            == Some([Child("c", d.(boundary := "x"))])
  {
    var a, b, obj := d.(boundary := "x"), d.(boundary := "y"), d.(boundary := "");
    var drafts := map["a" := a, "b" := b];
    assert ["a", "b"][..1] == ["a"] && ["a"][..0] == [];
    assert Originals(drafts, ["a"]) == [a];
    assert Originals(drafts, ["a", "b"]) == [a, b];
    SafetyIsCarried(obj, [a, b]);
    assert CarrySafety(obj, [a, b]) == a;
    assert Carried(Proposed(Merge("c", ["a", "b"], Some(obj))), [a, b]) == [Child("c", a)];
  }

  /** The last object of that name: the one its file ends up with. */
  ghost function LastNamed(objects: seq<Child>, x: string): (i: nat)
    requires x in Names(objects)
    ensures i < |objects| && objects[i].name == x && forall j | i < j < |objects| :: objects[j].name != x
  {
    var n := |objects| - 1;
    if objects[n].name == x then n
    else
      assert objects == objects[..n] + [objects[n]];
      LastNamed(objects[..n], x)
  }

  lemma {:induction false} WriteAllFiles(files: map<string, Draft>, objects: seq<Child>, x: string)
    ensures x !in Names(objects) ==> (x in WriteAll(files, objects) <==> x in files)
                                     && (x in files ==> WriteAll(files, objects)[x] == files[x])
    ensures x in Names(objects) ==> x in WriteAll(files, objects)
                                    && WriteAll(files, objects)[x] == objects[LastNamed(objects, x)].draft
  {
    if objects != [] {
      var n := |objects| - 1;
      assert objects == objects[..n] + [objects[n]];
      WriteAllFiles(files, objects[..n], x);
    }
  }

  ghost predicate Writes(drafts: map<string, Draft>, schema: Schema, d: Decision, x: string) {
    Written(drafts, schema, d).Some? && x in Names(Written(drafts, schema, d).value)
  }

  /** What an applied decision leaves in the file `x`. */
  ghost function Left(drafts: map<string, Draft>, schema: Schema, d: Decision, x: string): Draft
    requires Writes(drafts, schema, d, x)
  {
    var written := Written(drafts, schema, d).value;
    written[LastNamed(written, x)].draft
  }

  /** What a decision does to the file `x`: a rejected one, or one that neither writes nor deprecates it, nothing;
      otherwise it holds the last object of that name, or is gone. */
  lemma DecideFiles(dir: Dir, drafts: map<string, Draft>, schema: Schema, d: Decision, x: string)
    ensures var files, written := Decide(dir, drafts, schema, d).files, Written(drafts, schema, d);
            && (written.None? || (x !in Names(written.value) && x !in Deprecates(d)) ==>
                  (x in files <==> x in dir.files) && (x in files ==> files[x] == dir.files[x]))
            && (Writes(drafts, schema, d, x) ==> x in files && files[x] == Left(drafts, schema, d, x))
            && (written.Some? && x !in Names(written.value) && x in Deprecates(d) ==> x !in files)
  {
    if Written(drafts, schema, d).Some? {
      WriteAllFiles(dir.files, Written(drafts, schema, d).value, x);
    }
  }

  /** The object `d` proposes under the name `x`, or some loaded draft it deprecates, has a band as high as `b`. */
  ghost predicate Reaches(drafts: map<string, Draft>, d: Decision, x: string, b: Option<RiskBand>) {
    && x in Names(Proposed(d))
    && (AtLeastAsRisky(Proposed(d)[LastNamed(Proposed(d), x)].draft.risk, b)
        || exists id :: id in Deprecates(d) && id in drafts && AtLeastAsRisky(drafts[id].risk, b))
  }

  /** What an applied decision leaves under a name has a band as high as `b` exactly when its sources reach it. */
  lemma LeftReachesIff(drafts: map<string, Draft>, schema: Schema, d: Decision, x: string, b: Option<RiskBand>)
    requires Writes(drafts, schema, d, x)
    ensures AtLeastAsRisky(Left(drafts, schema, d, x).risk, b) <==> Reaches(drafts, d, x, b)
  {
    var proposed, written, originals := Proposed(d), Written(drafts, schema, d).value, Originals(drafts, Deprecates(d));
    var k := LastNamed(written, x);
    assert proposed[k] in proposed && proposed[k].name == x;
    var j := LastNamed(proposed, x);
    assert written[j].name == x;
    MaxRiskReaches(proposed[k].draft.risk, originals, b);
    forall o ensures o in originals <==> exists id :: id in Deprecates(d) && id in drafts && drafts[id] == o {
      OriginalsAre(drafts, Deprecates(d), o);
    }
  }

  /** A merge is applied exactly when it has an object and drafts to deprecate and the object, with safety fields
      carried over, passes the schema; then it writes just that object under the canonical slug. */
  lemma MergeAppliesIff(drafts: map<string, Draft>, schema: Schema, slug: string, ids: seq<string>, obj: Option<Draft>)
    ensures var written := Written(drafts, schema, Merge(slug, ids, obj));
            && (written.Some? <==> obj.Some? && ids != []
                                   && Validates(schema, slug, CarrySafety(obj.value, Originals(drafts, ids))))
            && (written.Some? ==> written.value == [Child(slug, CarrySafety(obj.value, Originals(drafts, ids)))])
  {
    if obj.Some? {
      var carried := Carried([Child(slug, obj.value)], Originals(drafts, ids));
      assert carried == [Child(slug, CarrySafety(obj.value, Originals(drafts, ids)))];
      assert carried[0] in carried;
    }
  }

  lemma {:induction false} NamedAre(candidates: seq<Candidate>, i: nat)
    requires i < |candidates|
    ensures candidates[i].slug != "" || candidates[i].id != "" ==>
              Child(candidates[i].slug, candidates[i].draft) in Named(candidates)
    ensures forall c | c in Named(candidates) ::
              exists k | 0 <= k < |candidates| :: (candidates[k].slug != "" || candidates[k].id != "")
                && c == Child(candidates[k].slug, candidates[k].draft)
  {
    var n := |candidates| - 1;
    if n > 0 {
      NamedAre(candidates[..n], if i < n then i else 0);
    }
  }

  lemma {:induction false} AllValidIff(schema: Schema, candidates: seq<Candidate>, originals: seq<Draft>)
    ensures AllValid(schema, Carried(Named(candidates), originals))
            <==> forall c | c in candidates && (c.slug != "" || c.id != "") ::
                   Validates(schema, c.slug, CarrySafety(c.draft, originals))
  {
    if candidates != [] {
      var init, last := candidates[..|candidates| - 1], candidates[|candidates| - 1];
      AllValidIff(schema, init, originals);
      assert candidates == init + [last];
      var child := Child(last.slug, CarrySafety(last.draft, originals));
      assert Carried(Named(candidates), originals)
             == Carried(Named(init), originals) + if last.slug != "" || last.id != "" then [child] else [];
    }
  }

  /** A split is applied exactly when it has candidates and drafts to deprecate and every candidate with a slug or an
      id, with safety fields carried over, passes the schema under its slug. */
  lemma SplitAppliesIff(drafts: map<string, Draft>, schema: Schema, ids: seq<string>, candidates: seq<Candidate>)
    ensures Written(drafts, schema, Split(ids, candidates)).Some?
            <==> candidates != [] && ids != []
                 && forall c | c in candidates && (c.slug != "" || c.id != "") ::
                      Validates(schema, c.slug, CarrySafety(c.draft, Originals(drafts, ids)))
  {
    AllValidIff(schema, candidates, Originals(drafts, ids));
  }

  lemma {:induction false} LastCandidateNamed(candidates: seq<Candidate>, i: nat)
    requires i < |candidates| && (candidates[i].slug != "" || candidates[i].id != "")
    requires forall j | i < j < |candidates| && (candidates[j].slug != "" || candidates[j].id != "") ::
               candidates[j].slug != candidates[i].slug
    ensures candidates[i].slug in Names(Named(candidates))
    ensures var named := Named(candidates); named[LastNamed(named, candidates[i].slug)].draft == candidates[i].draft
  {
    var n := |candidates| - 1;
    var named := Named(candidates);
    NamedAre(candidates, i);
    if i < n {
      var init, x := Named(candidates[..n]), candidates[i].slug;
      LastCandidateNamed(candidates[..n], i);
      if named != init {
        assert named[..|named| - 1] == init;
      }
    }
  }

  lemma LastNamedCarried(objects: seq<Child>, originals: seq<Draft>, x: string)
    requires x in Names(objects)
    ensures x in Names(Carried(objects, originals))
    ensures LastNamed(Carried(objects, originals), x) == LastNamed(objects, x)
  {
    var carried := Carried(objects, originals);
    NamesCarried(objects, originals);
    assert objects[LastNamed(carried, x)].name == x && carried[LastNamed(objects, x)].name == x;
  }

  /** What an applied split leaves under a slug is the last of its candidates with that slug. */
  lemma LastCandidateLeft(drafts: map<string, Draft>, schema: Schema, ids: seq<string>, candidates: seq<Candidate>,
                          i: nat)
    requires Written(drafts, schema, Split(ids, candidates)).Some?
    requires i < |candidates| && (candidates[i].slug != "" || candidates[i].id != "")
    requires forall j | i < j < |candidates| && (candidates[j].slug != "" || candidates[j].id != "") ::
               candidates[j].slug != candidates[i].slug
    ensures Writes(drafts, schema, Split(ids, candidates), candidates[i].slug)
    ensures Left(drafts, schema, Split(ids, candidates), candidates[i].slug)
            == CarrySafety(candidates[i].draft, Originals(drafts, ids))
  {
    LastCandidateNamed(candidates, i);
    LastNamedCarried(Named(candidates), Originals(drafts, ids), candidates[i].slug);
  }

  // ------------------------------------------------------------------ a whole run

  /** A run: the decisions applied one after the other, all looking at the drafts loaded at the start. */
  ghost function RunAll(dir: Dir, drafts: map<string, Draft>, schema: Schema, ds: seq<Decision>): Dir {
    if ds == [] then dir
    else Decide(RunAll(dir, drafts, schema, ds[..|ds| - 1]), drafts, schema, ds[|ds| - 1])
  }

  /** What a decision does to the drafts directory: the files it leaves written, and the names it deprecates, whose
      files are archived unless just written. */
  datatype Effect = Effect(writes: map<string, Draft>, deprecates: set<string>)

  ghost function EffectOf(drafts: map<string, Draft>, schema: Schema, d: Decision): Effect {
    var written := Written(drafts, schema, d);
    if written.None? then Effect(map[], {})
    else
      Effect(map x | x in Names(written.value) :: Left(drafts, schema, d, x),
             set x | x in Deprecates(d))
  }

  ghost function Effects(drafts: map<string, Draft>, schema: Schema, ds: seq<Decision>): seq<Effect> {
    seq(|ds|, i requires 0 <= i < |ds| => EffectOf(drafts, schema, ds[i]))
  }

  ghost function AfterAll(files: map<string, Draft>, es: seq<Effect>): map<string, Draft> {
    if es == [] then files
    else
      var e := es[|es| - 1];
      AfterAll(files, es[..|es| - 1]) - e.deprecates + e.writes
  }

  ghost predicate HasEffect(before: map<string, Draft>, e: Effect, after: map<string, Draft>, x: string) {
    && (x in after <==> x in e.writes || (x in before && x !in e.deprecates))
    && (x in after ==> after[x] == if x in e.writes then e.writes[x] else before[x])
  }

  lemma EffectOnFile(dir: Dir, drafts: map<string, Draft>, schema: Schema, d: Decision, x: string)
    ensures HasEffect(dir.files, EffectOf(drafts, schema, d), Decide(dir, drafts, schema, d).files, x)
  {
    DecideFiles(dir, drafts, schema, d, x);
  }

  lemma EffectOnFiles(before: map<string, Draft>, e: Effect, after: map<string, Draft>)
    requires forall x :: HasEffect(before, e, after, x)
    ensures after == before - e.deprecates + e.writes
  {
    var r := before - e.deprecates + e.writes;
    forall x ensures (x in after <==> x in r) && (x in after ==> after[x] == r[x]) {
      assert HasEffect(before, e, after, x);
    }
  }

  lemma DecideHasEffect(dir: Dir, drafts: map<string, Draft>, schema: Schema, d: Decision)
    ensures var e := EffectOf(drafts, schema, d);
            Decide(dir, drafts, schema, d).files == dir.files - e.deprecates + e.writes
  {
    var e, after := EffectOf(drafts, schema, d), Decide(dir, drafts, schema, d).files;
    forall x ensures HasEffect(dir.files, e, after, x) {
      EffectOnFile(dir, drafts, schema, d, x);
    }
    EffectOnFiles(dir.files, e, after);
  }

  lemma RunStep(dir: Dir, drafts: map<string, Draft>, schema: Schema, ds: seq<Decision>)
    requires ds != []
    ensures var n := |ds| - 1;
            var e := EffectOf(drafts, schema, ds[n]);
            RunAll(dir, drafts, schema, ds).files
            == RunAll(dir, drafts, schema, ds[..n]).files - e.deprecates + e.writes
  {
    DecideHasEffect(RunAll(dir, drafts, schema, ds[..|ds| - 1]), drafts, schema, ds[|ds| - 1]);
  }

  lemma EffectsSnoc(drafts: map<string, Draft>, schema: Schema, ds: seq<Decision>)
    requires ds != []
    ensures var n, es := |ds| - 1, Effects(drafts, schema, ds);
            es[..n] == Effects(drafts, schema, ds[..n]) && es[n] == EffectOf(drafts, schema, ds[n])
  {
  }

  lemma AfterStep(files: map<string, Draft>, es: seq<Effect>)
    requires es != []
    ensures var n := |es| - 1; AfterAll(files, es) == AfterAll(files, es[..n]) - es[n].deprecates + es[n].writes
  {
  }

  lemma {:induction false} RunHasEffects(dir: Dir, drafts: map<string, Draft>, schema: Schema, ds: seq<Decision>)
    ensures RunAll(dir, drafts, schema, ds).files == AfterAll(dir.files, Effects(drafts, schema, ds))
  {
    if ds != [] {
      RunHasEffects(dir, drafts, schema, ds[..|ds| - 1]);
      RunStep(dir, drafts, schema, ds);
      EffectsSnoc(drafts, schema, ds);
      AfterStep(dir.files, Effects(drafts, schema, ds));
    }
  }

  /** The decision whose object the file `x` holds at the end: the last one that writes it, unless a later one archives
      it. */
  ghost function Standing(es: seq<Effect>, x: string): (i: Option<nat>)
    ensures i.Some? ==> i.value < |es| && x in es[i.value].writes
  {
    if es == [] then None
    else
      var n := |es| - 1;
      if x in es[n].writes then Some(n)
      else if x in es[n].deprecates then None
      else Standing(es[..n], x)
  }

  /** What is left at the end under a name that some decision writes is the standing decision's object, or nothing. */
  lemma {:induction false} StandingIsLeft(files: map<string, Draft>, es: seq<Effect>, x: string, i: nat)
    requires i < |es| && x in es[i].writes
    ensures var left, j := AfterAll(files, es), Standing(es, x);
            && (x in left <==> j.Some?)
            && (j.Some? ==> left[x] == es[j.value].writes[x])
  {
    var n := |es| - 1;
    if x !in es[n].writes {
      StandingIsLeft(files, es[..n], x, i);
    }
  }

  /** Decision `i` puts an object into the file `x` instead of the loaded draft `id`, which it deprecates or
      overwrites. */
  ghost predicate Replaces(drafts: map<string, Draft>, ds: seq<Decision>, es: seq<Effect>, i: nat,
                           id: string, x: string)
    requires |es| == |ds|
  {
    i < |ds| && x in es[i].writes && id in drafts && (id in Deprecates(ds[i]) || id == x)
  }

  /** A run lowers no risk band: what is left at the end of each replacement is at least as risky as each draft it
      replaced. */
  ghost predicate LowersNoRisk(dir: Dir, drafts: map<string, Draft>, schema: Schema, ds: seq<Decision>) {
    var files, es := RunAll(dir, drafts, schema, ds).files, Effects(drafts, schema, ds);
    forall i: nat, id, x | Replaces(drafts, ds, es, i, id, x) && x in files ::
      AtLeastAsRisky(files[x].risk, drafts[id].risk)
  }

  /** The same, read off the decisions: whichever decision stands reaches the band of every draft that any decision
      replaced under that name. */
  ghost predicate LastWritersReach(drafts: map<string, Draft>, ds: seq<Decision>, es: seq<Effect>)
    requires |es| == |ds|
  {
    forall i: nat, id, x | Replaces(drafts, ds, es, i, id, x) && Standing(es, x).Some? ::
      Reaches(drafts, ds[Standing(es, x).value], x, drafts[id].risk)
  }

  /** One replacement: it is at least as risky at the end as the draft it replaced exactly when the standing decision
      reaches that draft's band. */
  lemma ReplacementReachesIff(dir: Dir, drafts: map<string, Draft>, schema: Schema, ds: seq<Decision>, i: nat,
                              id: string, x: string)
    requires Replaces(drafts, ds, Effects(drafts, schema, ds), i, id, x)
    ensures var files, j := RunAll(dir, drafts, schema, ds).files, Standing(Effects(drafts, schema, ds), x);
            && (x in files <==> j.Some?)
            && (j.Some? ==> (AtLeastAsRisky(files[x].risk, drafts[id].risk)
                             <==> Reaches(drafts, ds[j.value], x, drafts[id].risk)))
  {
    var es := Effects(drafts, schema, ds);
    RunHasEffects(dir, drafts, schema, ds);
    StandingIsLeft(dir.files, es, x, i);
    if Standing(es, x).Some? {
      LeftReachesIff(drafts, schema, ds[Standing(es, x).value], x, drafts[id].risk);
    }
  }

  /** Any run at all lowers no risk band if and only if its last writers reach the bands of what was replaced. */
  lemma RunLowersNoRiskIff(dir: Dir, drafts: map<string, Draft>, schema: Schema, ds: seq<Decision>)
    ensures LowersNoRisk(dir, drafts, schema, ds) <==> LastWritersReach(drafts, ds, Effects(drafts, schema, ds))
  {
    var files, es := RunAll(dir, drafts, schema, ds).files, Effects(drafts, schema, ds);
    forall i: nat, id, x | Replaces(drafts, ds, es, i, id, x)
      ensures var j := Standing(es, x);
              && (x in files <==> j.Some?)
              && (j.Some? ==> (AtLeastAsRisky(files[x].risk, drafts[id].risk)
                               <==> Reaches(drafts, ds[j.value], x, drafts[id].risk)))
    {
      ReplacementReachesIff(dir, drafts, schema, ds, i, id, x);
    }
  }

  /** One applied decision lowers no risk band if and only if it reaches the band of each loaded draft that it
      overwrites without listing it. */
  lemma DecisionLowersNoRiskIff(dir: Dir, drafts: map<string, Draft>, schema: Schema, d: Decision)
    requires Written(drafts, schema, d).Some?
    ensures LowersNoRisk(dir, drafts, schema, [d])
            <==> forall x | x in Names(Proposed(d)) && x in drafts && x !in d.deprecated ::
                   Reaches(drafts, d, x, drafts[x].risk)
  {
    var es := Effects(drafts, schema, [d]);
    RunLowersNoRiskIff(dir, drafts, schema, [d]);
    NamesCarried(Proposed(d), Originals(drafts, d.deprecated));
    assert es[0].writes.Keys == Names(Proposed(d));
    forall x | x in es[0].writes ensures Standing(es, x) == Some(0) {
      SoleWriterStands(es, 0, x);
    }
    forall id, x | x in es[0].writes && id in drafts && id in d.deprecated
      ensures Reaches(drafts, d, x, drafts[id].risk) {
      ListedIsReached(drafts, schema, d, id, x);
    }
    assert forall x | x in es[0].writes && x in drafts :: Replaces(drafts, [d], es, 0, x, x);
  }

  lemma NamesCarried(objects: seq<Child>, originals: seq<Draft>)
    ensures Names(Carried(objects, originals)) == Names(objects)
  {
    var carried := Carried(objects, originals);
    assert forall i | 0 <= i < |objects| :: carried[i] in carried && objects[i] in objects;
  }

  /** The file names a decision may write or archive. */
  ghost function Touched(d: Decision): set<string> {
    Names(Proposed(d)) + set x | x in Deprecates(d)
  }

  lemma EffectIsTouched(drafts: map<string, Draft>, schema: Schema, d: Decision)
    ensures var e := EffectOf(drafts, schema, d); e.writes.Keys + e.deprecates <= Touched(d)
    ensures EffectOf(drafts, schema, d).writes.Keys <= Names(Proposed(d))
  {
    NamesCarried(Proposed(d), Originals(drafts, Deprecates(d)));
  }

  /** One decision a group: each names only members of its own group or slugs that are fresh, that is, neither loaded
      nor named by another decision. */
  ghost predicate OnePerGroup(c: Corpus, ds: seq<Decision>, novel: seq<set<string>>)
    requires ValidCorpus(c)
  {
    var groups := Groups(c, |c.slugs|);
    && |ds| == |groups| == |novel|
    && (forall i, x | 0 <= i < |ds| && x in Touched(ds[i]) :: x in groups[i] || x in novel[i])
    && (forall i, x | 0 <= i < |novel| && x in novel[i] :: x !in c.slugs)
    && (forall i, j | 0 <= i < j < |novel| :: novel[i] !! novel[j])
  }

  /** No two decisions of the run name the same file. */
  ghost predicate Apart(ds: seq<Decision>) {
    forall i, j | 0 <= i < j < |ds| :: Touched(ds[i]) !! Touched(ds[j])
  }

  lemma OnePerGroupIsApart(c: Corpus, ds: seq<Decision>, novel: seq<set<string>>)
    requires ValidCorpus(c) && OnePerGroup(c, ds, novel)
    ensures Apart(ds)
  {
    var groups := Groups(c, |c.slugs|);
    forall i, j, x | 0 <= i < j < |ds| && x in Touched(ds[i]) ensures x !in Touched(ds[j]) {
      if x in groups[i] {
        GroupsDisjoint(c, i, j, x);
        GroupedIsLoaded(c, i, x);
      } else if x in groups[j] {
        GroupedIsLoaded(c, j, x);
      }
    }
  }

  lemma GroupedIsLoaded(c: Corpus, g: nat, x: string)
    requires ValidCorpus(c) && g < |Groups(c, |c.slugs|)| && x in Groups(c, |c.slugs|)[g]
    ensures x in c.slugs
  {
    var h := GroupHasHead(c, |c.slugs|, g);
    var j := MembersAreDrafts(c, h, |c.slugs|, x);
  }

  /** When nobody else writes or archives a file, whoever writes it stands. */
  lemma {:induction false} SoleWriterStands(es: seq<Effect>, i: nat, x: string)
    requires i < |es| && x in es[i].writes
    requires forall k | i < k < |es| :: x !in es[k].writes && x !in es[k].deprecates
    ensures Standing(es, x) == Some(i)
  {
    if i < |es| - 1 {
      SoleWriterStands(es[..|es| - 1], i, x);
    }
  }

  lemma ApartStands(drafts: map<string, Draft>, schema: Schema, ds: seq<Decision>, i: nat, x: string)
    requires Apart(ds) && i < |ds| && x in Effects(drafts, schema, ds)[i].writes
    ensures Standing(Effects(drafts, schema, ds), x) == Some(i)
  {
    var es := Effects(drafts, schema, ds);
    EffectIsTouched(drafts, schema, ds[i]);
    assert x in Touched(ds[i]);
    forall k | i < k < |es| ensures x !in es[k].writes && x !in es[k].deprecates {
      EffectIsTouched(drafts, schema, ds[k]);
    }
    SoleWriterStands(es, i, x);
  }

  /** Every applied decision lists the loaded drafts it overwrites. */
  ghost predicate ListsOverwritten(drafts: map<string, Draft>, ds: seq<Decision>, es: seq<Effect>)
    requires |es| == |ds|
  {
    forall i, x | 0 <= i < |ds| && x in es[i].writes && x in drafts :: x in Deprecates(ds[i])
  }

  /** A run with one decision a group that lists what it overwrites keeps everything it writes and lowers no risk
      band. */
  lemma RunNeverLowersRisk(c: Corpus, dir: Dir, schema: Schema, ds: seq<Decision>, novel: seq<set<string>>)
    requires ValidCorpus(c) && OnePerGroup(c, ds, novel)
    requires ListsOverwritten(c.drafts, ds, Effects(c.drafts, schema, ds))
    ensures LowersNoRisk(dir, c.drafts, schema, ds)
    ensures forall i, x | 0 <= i < |ds| && x in Effects(c.drafts, schema, ds)[i].writes ::
              x in RunAll(dir, c.drafts, schema, ds).files
  {
    OnePerGroupIsApart(c, ds, novel);
    RunHasEffects(dir, c.drafts, schema, ds);
    ApartAllStand(dir.files, c.drafts, schema, ds);
    ApartReach(c.drafts, schema, ds);
    RunLowersNoRiskIff(dir, c.drafts, schema, ds);
  }

  lemma ApartAllStand(files: map<string, Draft>, drafts: map<string, Draft>, schema: Schema, ds: seq<Decision>)
    requires Apart(ds)
    ensures var es := Effects(drafts, schema, ds);
            forall i, x | 0 <= i < |ds| && x in es[i].writes :: x in AfterAll(files, es)
  {
    var es := Effects(drafts, schema, ds);
    forall i, x | 0 <= i < |ds| && x in es[i].writes ensures x in AfterAll(files, es) {
      ApartStands(drafts, schema, ds, i, x);
      StandingIsLeft(files, es, x, i);
    }
  }

  lemma ApartReach(drafts: map<string, Draft>, schema: Schema, ds: seq<Decision>)
    requires Apart(ds) && ListsOverwritten(drafts, ds, Effects(drafts, schema, ds))
    ensures LastWritersReach(drafts, ds, Effects(drafts, schema, ds))
  {
    var es := Effects(drafts, schema, ds);
    forall i: nat, id, x | Replaces(drafts, ds, es, i, id, x) && Standing(es, x).Some?
      ensures Reaches(drafts, ds[Standing(es, x).value], x, drafts[id].risk)
    {
      ApartStands(drafts, schema, ds, i, x);
      ListedIsReached(drafts, schema, ds[i], id, x);
    }
  }

  lemma ListedIsReached(drafts: map<string, Draft>, schema: Schema, d: Decision, id: string, x: string)
    requires x in EffectOf(drafts, schema, d).writes && id in drafts && id in Deprecates(d)
    ensures Reaches(drafts, d, x, drafts[id].risk)
  {
    EffectIsTouched(drafts, schema, d);
  }

  /** A merge of one draft into its own text under some name writes just that. */
  lemma MergeOfOne(drafts: map<string, Draft>, schema: Schema, slug: string, id: string)
    requires id in drafts && Validates(schema, slug, drafts[id])
    ensures Written(drafts, schema, Merge(slug, [id], Some(drafts[id]))) == Some([Child(slug, drafts[id])])
  {
    var d := drafts[id];
    assert [id][..0] == [];
    assert Originals(drafts, [id]) == [d];
    SafetyIsCarried(d, [d]);
    assert CarrySafety(d, [d]) == d;
    assert Carried([Child(slug, d)], [d]) == [Child(slug, d)];
  }

  /** Two decisions that choose the same fresh slug: the second replaces a riskier draft by its own. */
  lemma SharedFreshSlugLowersRisk(dir: Dir, drafts: map<string, Draft>, schema: Schema, slug: string, risky: string,
                                  tame: string)
    requires risky in drafts && Validates(schema, slug, drafts[risky]) && drafts[risky].risk == Some(HIGH)
    requires tame in drafts && Validates(schema, slug, drafts[tame]) && drafts[tame].risk == Some(LOW)
    ensures var ds := [Merge(slug, [risky], Some(drafts[risky])), Merge(slug, [tame], Some(drafts[tame]))];
            var files := RunAll(dir, drafts, schema, ds).files;
            slug in files && files[slug].risk == Some(LOW) && !LowersNoRisk(dir, drafts, schema, ds)
  {
    var ds := [Merge(slug, [risky], Some(drafts[risky])), Merge(slug, [tame], Some(drafts[tame]))];
    MergeOfOne(drafts, schema, slug, risky);
    MergeOfOne(drafts, schema, slug, tame);
    assert Child(slug, drafts[risky]) in [Child(slug, drafts[risky])];
    assert Child(slug, drafts[tame]) in [Child(slug, drafts[tame])];
    DecideFiles(RunAll(dir, drafts, schema, ds[..1]), drafts, schema, ds[1], slug);
    assert Replaces(drafts, ds, Effects(drafts, schema, ds), 0, risky, slug);
  }

  /** One decision that overwrites a loaded draft without listing it lowers that draft's band. */
  lemma UnlistedOverwriteLowersRisk(dir: Dir, drafts: map<string, Draft>, schema: Schema, risky: string, tame: string)
    requires risky in drafts && drafts[risky].risk == Some(HIGH)
    requires tame in drafts && Validates(schema, risky, drafts[tame]) && drafts[tame].risk == Some(LOW)
    ensures var ds := [Merge(risky, [tame], Some(drafts[tame]))];
            var files := RunAll(dir, drafts, schema, ds).files;
            risky in files && files[risky].risk == Some(LOW) && !LowersNoRisk(dir, drafts, schema, ds)
  {
    var ds := [Merge(risky, [tame], Some(drafts[tame]))];
    MergeOfOne(drafts, schema, risky, tame);
    assert Child(risky, drafts[tame]) in [Child(risky, drafts[tame])];
    DecideFiles(RunAll(dir, drafts, schema, ds[..0]), drafts, schema, ds[0], risky);
    assert Replaces(drafts, ds, Effects(drafts, schema, ds), 0, risky, risky);
  }
}
