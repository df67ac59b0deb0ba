/** Hybrid search: weighted reciprocal rank fusion of two truncated candidate lists. Scores are exact; rankings list
    each version at most once. */
module Fusion {
  import opened Collections

  /** A candidate; `origin` stands for the metadata it was loaded with. */
  datatype SearchHit = SearchHit(version: nat, origin: nat, score: real)

  datatype Weights = Weights(fts: real, vector: real, rrfK: nat)

  const DEFAULTS: Weights := Weights(0.7, 0.3, 60)

  /** How many times more candidates than results are fetched from each ranker. */
  const OVERFETCH: nat := 3

  function Versions(hits: seq<SearchHit>): (vs: seq<nat>)
    ensures |vs| == |hits| && forall i | 0 <= i < |hits| :: vs[i] == hits[i].version
  {
    seq(|hits|, i requires 0 <= i < |hits| => hits[i].version)
  }

  /** The index of `v`; the length if it does not occur. */
  function IndexOf(vs: seq<nat>, v: nat): (i: nat)
    ensures i <= |vs| && (v in vs <==> i < |vs|)
    ensures i < |vs| ==> vs[i] == v
    ensures v !in vs[..i]
  {
    if vs == [] then 0
    else if vs[0] == v then 0
    else
      var i := IndexOf(vs[1..], v);
      assert vs[..i + 1] == [vs[0]] + vs[1..][..i];
      i + 1
  }

  /** What a ranker contributes: its weight over rrf_k plus the rank, counted from 1;
      nothing if it does not list `v`. */
  function Contribution(vs: seq<nat>, v: nat, weight: real, rrfK: nat): real {
    if v in vs then weight * (1.0 / (rrfK + IndexOf(vs, v) + 1) as real) else 0.0
  }

  function Score(fts: seq<nat>, vec: seq<nat>, v: nat, w: Weights): real {
    Contribution(fts, v, w.fts, w.rrfK) + Contribution(vec, v, w.vector, w.rrfK)
  }

  /** The scores of all versions at once. */
  function ScoreFn(fts: seq<nat>, vec: seq<nat>, w: Weights): nat -> real {
    (v: nat) => Score(fts, vec, v, w)
  }

  /** A version at the places i and j of the two lists scores the weights over rrf_k plus its ranks, counted from 1; one
      that a list does not hold gets nothing from it. */
  lemma ScoreAt(fts: seq<nat>, vec: seq<nat>, i: nat, j: nat, v: nat, w: Weights)
    requires Distinct(fts) && Distinct(vec)
    requires (i < |fts| ==> fts[i] == v) && (i >= |fts| ==> v !in fts)
    requires (j < |vec| ==> vec[j] == v) && (j >= |vec| ==> v !in vec)
    ensures Score(fts, vec, v, w) == (if i < |fts| then w.fts * (1.0 / (w.rrfK + i + 1) as real) else 0.0)
                                     + (if j < |vec| then w.vector * (1.0 / (w.rrfK + j + 1) as real) else 0.0)
  {
    if i < |fts| {
      IndexIs(fts, i);
    }
    if j < |vec| {
      IndexIs(vec, j);
    }
  }

  ghost predicate IsNearest(y: real, n: int) {
    -0.5 <= n as real - y <= 0.5 && (n as real - y == 0.5 || n as real - y == -0.5 ==> n % 2 == 0)
  }

  /** The nearest integer, of two as near the even one. */
  function Nearest(y: real): (n: int)
    ensures IsNearest(y, n)
  {
    var d := y - y.Floor as real;
    if d < 0.5 || (d == 0.5 && y.Floor % 2 == 0) then y.Floor else y.Floor + 1
  }

  /** Rounding to six decimals. */
  function Round6(x: real): real {
    Nearest(x * 1000000.0) as real / 1000000.0
  }

  /** The result is a whole number of millionths, no farther than half of one away, and the even one of two as near. */
  lemma RoundingIsNearest(x: real) returns (n: int)
    ensures Round6(x) == n as real / 1000000.0 && -0.5 <= n as real - x * 1000000.0 <= 0.5
    ensures n as real - x * 1000000.0 == 0.5 || n as real - x * 1000000.0 == -0.5 ==> n % 2 == 0
    ensures -0.0000005 <= Round6(x) - x <= 0.0000005
  {
    n := Nearest(x * 1000000.0);
  }

  lemma NearestIsMonotone(a: real, b: real)
    requires a <= b
    ensures Nearest(a) <= Nearest(b)
  {
    assert a.Floor <= b.Floor by {
      assert a.Floor as real <= a <= b < b.Floor as real + 1.0;
    }
  }

  lemma RoundingIsMonotone(x: real, y: real)
    requires x <= y
    ensures Round6(x) <= Round6(y)
  {
    NearestIsMonotone(x * 1000000.0, y * 1000000.0);
  }

  // ----------------------------------------------------------------- ranking

  /** `top` is a choice of the `k` best of `all`, whatever is done about ties. */
  ghost predicate IsTop(top: set<nat>, all: set<nat>, k: nat, score: nat -> real) {
    && top <= all
    && |top| == (if k <= |all| then k else |all|)
    && (forall u, v | u in top && v in all - top :: score(v) <= score(u))
  }

  function Elements(vs: seq<nat>): (s: set<nat>)
    ensures forall v :: v in s <==> v in vs
  {
    set v | v in vs
  }

  lemma {:induction false} DistinctCount(vs: seq<nat>)
    requires Distinct(vs)
    ensures |Elements(vs)| == |vs|
  {
    if vs != [] {
      var n := |vs| - 1;
      DistinctCount(vs[..n]);
      assert Elements(vs) == Elements(vs[..n]) + {vs[n]};
      assert vs[n] !in vs[..n];
    }
  }

  type Scored = (nat, real)

  ghost predicate Descending(s: seq<Scored>) {
    forall i, j | 0 <= i < j < |s| :: s[i].1 >= s[j].1
  }

  ghost predicate NoRepeats(s: seq<Scored>) {
    forall i, j | 0 <= i < j < |s| :: s[i].0 != s[j].0
  }

  method InsertByScore(s: seq<Scored>, x: Scored) returns (r: seq<Scored>)
    requires Descending(s)
    ensures |r| == |s| + 1 && Descending(r)
    ensures forall y :: y in r <==> y in s || y == x
    ensures NoRepeats(s) && (forall y | y in s :: y.0 != x.0) ==> NoRepeats(r)
  {
    var i := 0;
    while i < |s| && s[i].1 >= x.1
      invariant 0 <= i <= |s|
      invariant forall j | 0 <= j < i :: s[j].1 >= x.1
    {
      i := i + 1;
    }
    r := Splice(s, x, i);
    SpliceMembers(s, x, i);
    SpliceDescends(s, x, i);
    if NoRepeats(s) && forall y | y in s :: y.0 != x.0 {
      SpliceNoRepeats(s, x, i);
    }
  }

  function Splice(s: seq<Scored>, x: Scored, i: nat): (r: seq<Scored>)
    requires i <= |s|
    ensures |r| == |s| + 1
    ensures forall j | 0 <= j < |r| :: r[j] == if j < i then s[j] else if j == i then x else s[j - 1]
  {
    s[..i] + [x] + s[i..]
  }

  lemma SpliceMembers(s: seq<Scored>, x: Scored, i: nat)
    requires i <= |s|
    ensures forall y :: y in Splice(s, x, i) <==> y in s || y == x
  {
    assert s == s[..i] + s[i..];
  }

  lemma SpliceDescends(s: seq<Scored>, x: Scored, i: nat)
    requires i <= |s| && Descending(s)
    requires (forall j | 0 <= j < i :: s[j].1 >= x.1) && (i < |s| ==> s[i].1 < x.1)
    ensures Descending(Splice(s, x, i))
  {
  }

  lemma SpliceNoRepeats(s: seq<Scored>, x: Scored, i: nat)
    requires i <= |s| && NoRepeats(s) && forall y | y in s :: y.0 != x.0
    ensures NoRepeats(Splice(s, x, i))
  {
    assert forall j | 0 <= j < |s| :: s[j] in s;
  }

  /** Sort by score, best first. Which of two equal scores comes first is not promised. */
  method SortByScore(scored: seq<Scored>) returns (r: seq<Scored>)
    ensures |r| == |scored| && Descending(r)
    ensures forall y :: y in r <==> y in scored
    ensures NoRepeats(scored) ==> NoRepeats(r)
  {
    r := [];
    for n := 0 to |scored|
      invariant |r| == n && Descending(r)
      invariant forall y :: y in r <==> y in scored[..n]
      invariant NoRepeats(scored) ==> NoRepeats(r)
    {
      assert scored[..n + 1] == scored[..n] + [scored[n]];
      r := InsertByScore(r, scored[n]);
    }
    assert scored[..|scored|] == scored;
  }

  /** Ranks by version, from 1. */
  method RankMap(hits: seq<SearchHit>) returns (ranks: map<nat, nat>)
    requires Distinct(Versions(hits))
    ensures ranks.Keys == Elements(Versions(hits))
    ensures forall v | v in ranks :: ranks[v] == IndexOf(Versions(hits), v) + 1
  {
    ranks := map[];
    var vs := Versions(hits);
    for i := 0 to |hits|
      invariant forall v :: v in ranks <==> v in vs[..i]
      invariant forall v | v in ranks :: ranks[v] == IndexOf(vs, v) + 1
    {
      IndexIs(vs, i);
      assert vs[..i + 1] == vs[..i] + [vs[i]];
      ranks := ranks[hits[i].version := i + 1];
    }
    assert vs[..|hits|] == vs;
  }

  lemma IndexIs(vs: seq<nat>, i: nat)
    requires Distinct(vs) && i < |vs|
    ensures IndexOf(vs, vs[i]) == i
  {
    assert vs[i] !in vs[..IndexOf(vs, vs[i])];
  }

  /** The hit whose metadata is kept: the full-text one if there is one. */
  ghost predicate IsHitFor(ftsHits: seq<SearchHit>, vecHits: seq<SearchHit>, h: SearchHit) {
    h in ftsHits || (h.version !in Versions(ftsHits) && h in vecHits)
  }

  method HitMap(ftsHits: seq<SearchHit>, vecHits: seq<SearchHit>) returns (hits: map<nat, SearchHit>)
    ensures hits.Keys == Elements(Versions(ftsHits)) + Elements(Versions(vecHits))
    ensures forall v | v in hits :: hits[v].version == v && IsHitFor(ftsHits, vecHits, hits[v])
  {
    hits := map[];
    var fts, vec := Versions(ftsHits), Versions(vecHits);
    for i := 0 to |ftsHits|
      invariant forall v :: v in hits <==> v in fts[..i]
      invariant forall v | v in hits :: hits[v].version == v && hits[v] in ftsHits
    {
      assert fts[..i + 1] == fts[..i] + [fts[i]];
      hits := hits[ftsHits[i].version := ftsHits[i]];
    }
    assert fts[..|ftsHits|] == fts;
    for i := 0 to |vecHits|
      invariant forall v :: v in hits <==> v in fts || v in vec[..i]
      invariant forall v | v in hits :: hits[v].version == v && IsHitFor(ftsHits, vecHits, hits[v])
    {
      assert vec[..i + 1] == vec[..i] + [vec[i]];
      if vecHits[i].version !in hits {
        hits := hits[vecHits[i].version := vecHits[i]];
      }
    }
    assert vec[..|vecHits|] == vec;
  }

  ghost predicate IsRankMap(ranks: map<nat, nat>, vs: seq<nat>) {
    forall v: nat {:trigger IndexOf(vs, v)} ::
      if v in vs then v in ranks && ranks[v] == IndexOf(vs, v) + 1 else v !in ranks
  }

  ghost predicate Scores(score: nat -> real, fts: seq<nat>, vec: seq<nat>, w: Weights) {
    forall v: nat {:trigger Score(fts, vec, v, w)} :: score(v) == Score(fts, vec, v, w)
  }

  method ScoreOne(ftsRank: map<nat, nat>, vecRank: map<nat, nat>, v: nat, w: Weights, ghost fts: seq<nat>,
                  ghost vec: seq<nat>, ghost score: nat -> real) returns (r: real)
    requires IsRankMap(ftsRank, fts) && IsRankMap(vecRank, vec) && Scores(score, fts, vec, w)
    ensures r == score(v)
  {
    r := 0.0;
    if v in ftsRank {
      r := r + w.fts * (1.0 / (w.rrfK + ftsRank[v]) as real);
    }
    if v in vecRank {
      r := r + w.vector * (1.0 / (w.rrfK + vecRank[v]) as real);
    }
    assert IndexOf(fts, v) >= 0 && IndexOf(vec, v) >= 0;
    assert r == Score(fts, vec, v, w);
  }

  /** Exactly the versions of `done`, each once and with its score. */
  ghost predicate ScoredBy(scored: seq<Scored>, done: set<nat>, score: nat -> real) {
    && NoRepeats(scored)
    && (forall y: Scored :: y in scored <==> y.0 in done && y.1 == score(y.0))
  }

  lemma OneMoreScored(scored: seq<Scored>, done: set<nat>, score: nat -> real, v: nat)
    requires ScoredBy(scored, done, score) && v !in done
    ensures ScoredBy(scored + [(v, score(v))], done + {v}, score)
  {
    assert forall j | 0 <= j < |scored| :: scored[j] in scored;
  }

  method AddScored(ftsRank: map<nat, nat>, vecRank: map<nat, nat>, w: Weights, ghost fts: seq<nat>, ghost vec: seq<nat>,
                   ghost score: nat -> real, scored: seq<Scored>, ghost done: set<nat>, v: nat) returns (r: seq<Scored>)
    requires IsRankMap(ftsRank, fts) && IsRankMap(vecRank, vec) && Scores(score, fts, vec, w)
    requires ScoredBy(scored, done, score) && v !in done
    ensures ScoredBy(r, done + {v}, score)
  {
    var s := ScoreOne(ftsRank, vecRank, v, w, fts, vec, score);
    OneMoreScored(scored, done, score, v);
    r := scored + [(v, s)];
  }

  /** The score loop over the union of the candidates, in any order. */
  method ScoreAll(ftsRank: map<nat, nat>, vecRank: map<nat, nat>, w: Weights, ghost fts: seq<nat>, ghost vec: seq<nat>,
                  ghost score: nat -> real) returns (scored: seq<Scored>)
    requires IsRankMap(ftsRank, fts) && IsRankMap(vecRank, vec) && Scores(score, fts, vec, w)
    ensures ScoredBy(scored, ftsRank.Keys + vecRank.Keys, score)
  {
    var todo := ftsRank.Keys + vecRank.Keys;
    ghost var done: set<nat> := {};
    scored := [];
    while todo != {}
      invariant done !! todo && done + todo == ftsRank.Keys + vecRank.Keys
      invariant ScoredBy(scored, done, score)
      decreases |todo|
    {
      var v :| v in todo;
      scored := AddScored(ftsRank, vecRank, w, fts, vec, score, scored, done, v);
      todo, done := todo - {v}, done + {v};
    }
    assert done == done + todo;
  }

  /** The best `topK` of the union of the candidates, each with its kept metadata and its rounded score, best first. */
  ghost predicate IsFusion(ftsHits: seq<SearchHit>, vecHits: seq<SearchHit>, topK: nat, score: nat -> real,
                           result: seq<SearchHit>) {
    && Distinct(Versions(result))
    && IsTop(Elements(Versions(result)), Elements(Versions(ftsHits)) + Elements(Versions(vecHits)), topK, score)
    && (forall i | 0 <= i < |result| :: IsFusedHit(ftsHits, vecHits, score, result[i]))
    && (forall i, j | 0 <= i < j < |result| :: result[i].score >= result[j].score)
  }

  ghost predicate IsFusedHit(ftsHits: seq<SearchHit>, vecHits: seq<SearchHit>, score: nat -> real, r: SearchHit) {
    && r.score == Round6(score(r.version))
    && exists h :: IsHitFor(ftsHits, vecHits, h) && r == h.(score := r.score)
  }

  method SearchHybrid(ftsHits: seq<SearchHit>, vecHits: seq<SearchHit>, topK: nat, w: Weights := DEFAULTS)
      returns (result: seq<SearchHit>)
    requires Distinct(Versions(ftsHits)) && Distinct(Versions(vecHits))
    ensures IsFusion(ftsHits, vecHits, topK, ScoreFn(Versions(ftsHits), Versions(vecHits), w), result)
  {
    var ftsRank := RankMap(ftsHits);
    var vecRank := RankMap(vecHits);
    var hitMap := HitMap(ftsHits, vecHits);
    ghost var score := ScoreFn(Versions(ftsHits), Versions(vecHits), w);
    var scored := ScoreAll(ftsRank, vecRank, w, Versions(ftsHits), Versions(vecHits), score);
    var sorted := SortByScore(scored);
    result := Collect(ftsHits, vecHits, hitMap, sorted, topK, score);
  }

  /** The loop over the best entries of the sorted list. */
  method Collect(ghost ftsHits: seq<SearchHit>, ghost vecHits: seq<SearchHit>, hitMap: map<nat, SearchHit>,
                 sorted: seq<Scored>, topK: nat, ghost score: nat -> real) returns (result: seq<SearchHit>)
    requires hitMap.Keys == Elements(Versions(ftsHits)) + Elements(Versions(vecHits))
    requires forall v | v in hitMap :: hitMap[v].version == v && IsHitFor(ftsHits, vecHits, hitMap[v])
    requires Descending(sorted) && ScoredBy(sorted, hitMap.Keys, score)
    ensures IsFusion(ftsHits, vecHits, topK, score, result)
  {
    result := [];
    var n := if topK < |sorted| then topK else |sorted|;
    for i := 0 to n
      invariant |result| == i
      invariant forall j | 0 <= j < i :: result[j].version == sorted[j].0 && result[j].score == Round6(sorted[j].1)
      invariant forall j | 0 <= j < i :: IsFusedHit(ftsHits, vecHits, score, result[j])
    {
      assert sorted[i] in sorted;
      var hit := hitMap[sorted[i].0];
      result := result + [hit.(score := Round6(sorted[i].1))];
    }
    FirstAreTop(sorted, n, topK, Versions(result), hitMap.Keys, score);
    RoundedDescend(sorted, result);
  }

  lemma RoundedDescend(sorted: seq<Scored>, result: seq<SearchHit>)
    requires Descending(sorted) && |result| <= |sorted|
    requires forall i | 0 <= i < |result| :: result[i].score == Round6(sorted[i].1)
    ensures forall i, j | 0 <= i < j < |result| :: result[i].score >= result[j].score
  {
    forall i, j | 0 <= i < j < |result| ensures result[i].score >= result[j].score {
      RoundingIsMonotone(sorted[j].1, sorted[i].1);
    }
  }

  lemma ScoredVersions(sorted: seq<Scored>, all: set<nat>, score: nat -> real) returns (names: seq<nat>)
    requires ScoredBy(sorted, all, score)
    ensures |names| == |sorted| == |all| && Distinct(names) && Elements(names) == all
    ensures forall i | 0 <= i < |names| :: names[i] == sorted[i].0 && sorted[i].1 == score(names[i])
  {
    names := seq(|sorted|, i requires 0 <= i < |sorted| => sorted[i].0);
    DistinctCount(names);
    assert forall i | 0 <= i < |sorted| :: sorted[i] in sorted;
    forall v | v in all ensures v in names {
      assert (v, score(v)) in sorted;
      var i :| 0 <= i < |sorted| && sorted[i] == (v, score(v));
      assert names[i] == v;
    }
    assert Elements(names) == all;
  }

  lemma FirstAreTop(sorted: seq<Scored>, n: nat, topK: nat, vs: seq<nat>, all: set<nat>, score: nat -> real)
    requires Descending(sorted) && ScoredBy(sorted, all, score)
    requires n == (if topK < |sorted| then topK else |sorted|) && |vs| == n
    requires forall j | 0 <= j < n :: vs[j] == sorted[j].0
    ensures Distinct(vs) && IsTop(Elements(vs), all, topK, score)
  {
    var names := ScoredVersions(sorted, all, score);
    var top := Elements(vs);
    DistinctCount(vs);
    forall u | u in top ensures u in all {
      var i :| 0 <= i < n && vs[i] == u;
      assert names[i] in names;
    }
    forall u, v | u in top && v in all - top ensures score(v) <= score(u) {
      var i :| 0 <= i < n && vs[i] == u;
      assert v in names;
      var j :| 0 <= j < |names| && names[j] == v;
      assert names[i] == u;
      if j < n {
        assert false;
      }
    }
  }

  // ----------------------------------------------------- what fusion promises

  /** Each result has its score rounded and the metadata of the full-text hit of its version, or of the vector hit if
      full text has none. */
  lemma ResultHits(ftsHits: seq<SearchHit>, vecHits: seq<SearchHit>, topK: nat, score: nat -> real,
                   result: seq<SearchHit>, i: nat)
    requires Distinct(Versions(ftsHits)) && IsFusion(ftsHits, vecHits, topK, score, result) && i < |result|
    ensures result[i].score == Nearest(score(result[i].version) * 1000000.0) as real / 1000000.0
    ensures forall h | h in ftsHits && h.version == result[i].version :: result[i].origin == h.origin
    ensures (forall h | h in ftsHits :: h.version != result[i].version) ==>
              exists h :: h in vecHits && h.version == result[i].version && h.origin == result[i].origin
  {
    assert IsFusedHit(ftsHits, vecHits, score, result[i]);
    var kept :| IsHitFor(ftsHits, vecHits, kept) && result[i] == kept.(score := result[i].score);
    var fts := Versions(ftsHits);
    forall h | h in ftsHits ensures h.version in fts && (h.version == kept.version && kept in ftsHits ==> h == kept) {
      var a :| 0 <= a < |ftsHits| && ftsHits[a] == h;
      assert fts[a] == h.version;
      if kept in ftsHits {
        var b :| 0 <= b < |ftsHits| && ftsHits[b] == kept;
        assert fts[b] == kept.version;
      }
    }
  }

  lemma ReciprocalFalls(a: nat, b: nat)
    requires 0 < a <= b
    ensures 1.0 / b as real <= 1.0 / a as real
    ensures a < b ==> 1.0 / b as real < 1.0 / a as real
  {
    var x, y := a as real, b as real;
    var p, q := 1.0 / x, 1.0 / y;
    assert x * p == 1.0 && y * q == 1.0;
    ProductTells(x, y, p, q);
  }

  /** Factors with the same product order the other way round. */
  lemma ProductTells(x: real, y: real, p: real, q: real)
    requires 0.0 < x <= y && x * p == 1.0 && y * q == 1.0
    ensures q <= p && (x < y ==> q < p)
  {
    assert p > 0.0 && q > 0.0;
    assert (y - x) * p >= 0.0;
    assert y * (p - q) == (y - x) * p;
  }

  lemma Scales(w: real, x: real, y: real)
    requires w >= 0.0 && x <= y
    ensures w * x <= w * y
  {
  }

  /** `u` stands before `v` wherever `v` is listed. */
  ghost predicate Ahead(vs: seq<nat>, u: nat, v: nat) {
    v in vs ==> u in vs && IndexOf(vs, u) < IndexOf(vs, v)
  }

  lemma IndexInPrefix(vs: seq<nat>, n: nat, v: nat)
    requires Distinct(vs) && n <= |vs|
    ensures v in vs[..n] <==> v in vs && IndexOf(vs, v) < n
    ensures v in vs[..n] ==> IndexOf(vs[..n], v) == IndexOf(vs, v)
  {
    if v in vs[..n] {
      var i :| 0 <= i < n && vs[..n][i] == v;
      IndexIs(vs, i);
      IndexIs(vs[..n], i);
    }
  }

  lemma ContributionAhead(vs: seq<nat>, u: nat, v: nat, weight: real, rrfK: nat)
    requires Ahead(vs, u, v) && weight >= 0.0
    ensures Contribution(vs, v, weight, rrfK) <= Contribution(vs, u, weight, rrfK)
  {
    if v in vs {
      var a, b := rrfK + IndexOf(vs, u) + 1, rrfK + IndexOf(vs, v) + 1;
      ReciprocalFalls(a, b);
      Scales(weight, 1.0 / b as real, 1.0 / a as real);
    } else if u in vs {
      ReciprocalPositive(rrfK + IndexOf(vs, u) + 1);
      Scales(weight, 0.0, 1.0 / (rrfK + IndexOf(vs, u) + 1) as real);
    }
  }

  lemma ReciprocalPositive(a: nat)
    requires a > 0
    ensures 1.0 / a as real > 0.0
  {
  }

  /** A version that both full rankings put before another never scores below it, however the rankings are cut. */
  lemma AheadNeverScoresBelow(fts: seq<nat>, vec: seq<nat>, n: nat, u: nat, v: nat, w: Weights)
    requires Distinct(fts) && Distinct(vec) && w.fts >= 0.0 && w.vector >= 0.0
    requires Ahead(fts, u, v) && Ahead(vec, u, v)
    ensures Score(Take(fts, n), Take(vec, n), v, w) <= Score(Take(fts, n), Take(vec, n), u, w)
  {
    AheadInPrefix(fts, n, u, v);
    AheadInPrefix(vec, n, u, v);
    ContributionAhead(Take(fts, n), u, v, w.fts, w.rrfK);
    ContributionAhead(Take(vec, n), u, v, w.vector, w.rrfK);
  }

  lemma AheadInPrefix(vs: seq<nat>, n: nat, u: nat, v: nat)
    requires Distinct(vs) && Ahead(vs, u, v)
    ensures Ahead(Take(vs, n), u, v)
  {
    if n < |vs| {
      IndexInPrefix(vs, n, u);
      IndexInPrefix(vs, n, v);
    }
  }

  // ---------------------------------------------------------- the over-fetch

  /** `m` is ranked by someone, but too late to be fetched. */
  ghost predicate Missed(fts: seq<nat>, vec: seq<nat>, k: nat, m: nat) {
    && (m in fts || m in vec)
    && m !in Take(fts, OVERFETCH * k) && m !in Take(vec, OVERFETCH * k)
  }

  /** With the default weights, fetching three times `k` candidates misses nothing that belongs to the top `k` of the
      full rankings, whatever they are and however ties are broken. */
  ghost predicate SafeOverfetch(k: nat) {
    forall fts: seq<nat>, vec: seq<nat>, m: nat, top: set<nat> ::
      (Distinct(fts) && Distinct(vec) && Missed(fts, vec, k, m)
       && IsTop(top, Elements(fts) + Elements(vec), k, ScoreFn(fts, vec, DEFAULTS))) ==> m !in top
  }

  lemma MissedIsLate(vs: seq<nat>, n: nat, m: nat)
    requires Distinct(vs) && m in vs && m !in Take(vs, n)
    ensures n < |vs| && IndexOf(vs, m) >= n
  {
    IndexInPrefix(vs, n, m);
  }

  lemma LateContribution(vs: seq<nat>, n: nat, m: nat, weight: real)
    requires Distinct(vs) && m !in Take(vs, n) && weight >= 0.0
    ensures Contribution(vs, m, weight, 60) <= weight * (1.0 / (61 + n) as real)
  {
    if m in vs {
      MissedIsLate(vs, n, m);
      ReciprocalFalls(61 + n, 60 + IndexOf(vs, m) + 1);
      Scales(weight, 1.0 / (60 + IndexOf(vs, m) + 1) as real, 1.0 / (61 + n) as real);
    } else {
      ReciprocalPositive(61 + n);
      Scales(weight, 0.0, 1.0 / (61 + n) as real);
    }
  }

  lemma EarlyContribution(vs: seq<nat>, k: nat, b: nat, weight: real)
    requires Distinct(vs) && k <= |vs| && b in vs[..k] && weight >= 0.0
    ensures Contribution(vs, b, weight, 60) >= weight * (1.0 / (60 + k) as real)
  {
    IndexInPrefix(vs, k, b);
    RestIsLow(60 + k, 60 + IndexOf(vs, b) + 1, weight);
  }

  lemma ContributionNonNegative(vs: seq<nat>, v: nat, weight: real)
    requires weight >= 0.0
    ensures Contribution(vs, v, weight, 60) >= 0.0
  {
    if v in vs {
      ReciprocalPositive(60 + IndexOf(vs, v) + 1);
      Scales(weight, 0.0, 1.0 / (60 + IndexOf(vs, v) + 1) as real);
    }
  }

  /** 0.7 / (60 + k) exceeds 1 / (61 + 3k) exactly from k = 16 on. */
  lemma Crossover(k: nat)
    ensures 0.7 * (1.0 / (60 + k) as real) > 1.0 / (61 + 3 * k) as real <==> k >= 16
  {
    var x, y := (60 + k) as real, (61 + 3 * k) as real;
    var p, q := 1.0 / x, 1.0 / y;
    assert x * p == 1.0 && y * q == 1.0;
    CrossMultiplied(x, y, p, q);
    assert 0.7 * y > x <==> k >= 16;
  }

  lemma CrossMultiplied(x: real, y: real, p: real, q: real)
    requires x > 0.0 && y > 0.0 && x * p == 1.0 && y * q == 1.0
    ensures 0.7 * p > q <==> 0.7 * y > x
  {
    var d := 0.7 * p - q;
    assert (x * y) * d == 0.7 * y * (x * p) - x * (y * q);
    SignOfProduct(x * y, d);
  }

  lemma SignOfProduct(a: real, d: real)
    requires a > 0.0
    ensures a * d > 0.0 <==> d > 0.0
  {
  }

  /** Whatever is among the first `k` of a ranking that lists a missed version scores above it. */
  lemma EarlyBeatsMissed(fts: seq<nat>, vec: seq<nat>, k: nat, m: nat, b: nat)
    requires Distinct(fts) && Distinct(vec) && Missed(fts, vec, k, m)
    requires if m in fts then k >= 16 && k <= |fts| && b in fts[..k] else k <= |vec| && b in vec[..k]
    ensures Score(fts, vec, b, DEFAULTS) > Score(fts, vec, m, DEFAULTS)
  {
    LateContribution(fts, 3 * k, m, 0.7);
    LateContribution(vec, 3 * k, m, 0.3);
    ContributionNonNegative(fts, b, 0.7);
    ContributionNonNegative(vec, b, 0.3);
    if m in fts {
      EarlyContribution(fts, k, b, 0.7);
      Crossover(k);
    } else {
      EarlyContribution(vec, k, b, 0.3);
      ReciprocalFalls(60 + k, 61 + 3 * k);
    }
  }

  lemma BeatenByManyIsOut(all: set<nat>, better: set<nat>, top: set<nat>, k: nat, m: nat, score: nat -> real)
    requires IsTop(top, all, k, score) && better <= all && |better| == k
    requires forall b | b in better :: score(b) > score(m)
    ensures m !in top
  {
    if m in top {
      assert better <= top by {
        assert forall b | b in better :: !(b in all - top);
      }
      SubsetNoLarger(better + {m}, top);
      assert false;
    }
  }

  lemma OverfetchSuffices(fts: seq<nat>, vec: seq<nat>, k: nat, m: nat, top: set<nat>)
    requires k >= 16 && Distinct(fts) && Distinct(vec) && Missed(fts, vec, k, m)
    requires IsTop(top, Elements(fts) + Elements(vec), k, ScoreFn(fts, vec, DEFAULTS))
    ensures m !in top
  {
    var ranking := if m in fts then fts else vec;
    MissedIsLate(ranking, 3 * k, m);
    DistinctCount(ranking[..k]);
    forall b | b in ranking[..k] ensures Score(fts, vec, b, DEFAULTS) > Score(fts, vec, m, DEFAULTS) {
      EarlyBeatsMissed(fts, vec, k, m, b);
    }
    BeatenByManyIsOut(Elements(fts) + Elements(vec), Elements(ranking[..k]), top, k, m, ScoreFn(fts, vec, DEFAULTS));
  }

  /** Rankings that share nothing but one version, listed just after what either list fetches. */
  function Tail(first: nat, k: nat): (vs: seq<nat>)
    ensures |vs| == 3 * k + 1
    ensures forall i | 0 <= i < |vs| :: vs[i] == if i == 3 * k then 0 else first + i
  {
    seq(3 * k, i => first + i) + [0]
  }

  lemma TailMember(first: nat, k: nat, v: nat)
    requires first > 0
    ensures v in Tail(first, k) <==> v == 0 || first <= v < first + 3 * k
  {
    if v == 0 {
      assert Tail(first, k)[3 * k] == v;
    } else if first <= v < first + 3 * k {
      assert Tail(first, k)[v - first] == v;
    }
  }

  lemma TailRank(first: nat, k: nat, v: nat)
    requires first > 0
    ensures v == 0 ==> v in Tail(first, k) && IndexOf(Tail(first, k), v) == 3 * k
    ensures first <= v < first + 3 * k ==> v in Tail(first, k) && IndexOf(Tail(first, k), v) == v - first
    ensures v != 0 && !(first <= v < first + 3 * k) ==> v !in Tail(first, k)
  {
    TailMember(first, k, v);
    if v == 0 {
      IndexIs(Tail(first, k), 3 * k);
    } else if first <= v < first + 3 * k {
      IndexIs(Tail(first, k), v - first);
    }
  }

  lemma Whole(x: real)
    ensures 0.7 * x + 0.3 * x == x
  {
  }

  lemma TailScores(k: nat, v: nat)
    requires 1 <= k <= 15
    ensures v == 0 ==> Score(Tail(100, k), Tail(200, k), v, DEFAULTS) == 1.0 / (61 + 3 * k) as real
    ensures 100 <= v < 100 + 3 * k ==> Score(Tail(100, k), Tail(200, k), v, DEFAULTS) == 0.7 * (1.0 / (v - 39) as real)
    ensures 200 <= v < 200 + 3 * k ==> Score(Tail(100, k), Tail(200, k), v, DEFAULTS) == 0.3 * (1.0 / (v - 139) as real)
  {
    TailRank(100, k, v);
    TailRank(200, k, v);
    if v == 0 {
      Whole(1.0 / (61 + 3 * k) as real);
    }
  }

  /** For any smaller `k` the missed version is among the best `k`: the k-th full-text hit does not beat it. */
  lemma OverfetchTooSmall(k: nat)
    requires 1 <= k <= 15
    ensures !SafeOverfetch(k)
  {
    var fts, vec := Tail(100, k), Tail(200, k);
    var top := Elements(fts[..k - 1] + [0]);
    TailsTop(k);
    TailMissesLast(k);
    assert 0 in top && Distinct(fts) && Distinct(vec);
  }

  lemma TailsTop(k: nat)
    requires 1 <= k <= 15
    ensures var fts, vec := Tail(100, k), Tail(200, k);
            var top := Elements(fts[..k - 1] + [0]);
            IsTop(top, Elements(fts) + Elements(vec), k, ScoreFn(fts, vec, DEFAULTS)) && 0 in top
  {
    var fts, vec := Tail(100, k), Tail(200, k);
    var best := fts[..k - 1] + [0];
    var top, all := Elements(best), Elements(fts) + Elements(vec);
    DistinctCount(best);
    forall v: nat
      ensures v in all <==> v == 0 || 100 <= v < 100 + 3 * k || 200 <= v < 200 + 3 * k
      ensures v in top <==> v == 0 || 100 <= v < 99 + k
    {
      TailMember(100, k, v);
      TailMember(200, k, v);
      BestMember(k, v);
    }
    SubsetNoLarger(top, all);
    var score := ScoreFn(fts, vec, DEFAULTS);
    forall u, v | u in top && v in all - top ensures score(v) <= score(u) {
      TopTailBeatsRest(k, u, v);
    }
  }

  lemma BestMember(k: nat, v: nat)
    requires 1 <= k <= 15
    ensures v in Tail(100, k)[..k - 1] + [0] <==> v == 0 || 100 <= v < 99 + k
  {
    if 100 <= v < 99 + k {
      assert Tail(100, k)[..k - 1][v - 100] == v;
    }
  }

  lemma TailMissesLast(k: nat)
    ensures Missed(Tail(100, k), Tail(200, k), k, 0)
  {
    assert Tail(100, k)[3 * k] == 0;
  }

  lemma TopTailBeatsRest(k: nat, u: nat, v: nat)
    requires 1 <= k <= 15
    requires u == 0 || 100 <= u < 99 + k
    requires 99 + k <= v < 100 + 3 * k || 200 <= v < 200 + 3 * k
    ensures Score(Tail(100, k), Tail(200, k), v, DEFAULTS) <= Score(Tail(100, k), Tail(200, k), u, DEFAULTS)
  {
    TailScores(k, u);
    TailScores(k, v);
    if v < 200 {
      LateFullText(k, u, v);
    } else {
      AnyVector(k, u, v);
    }
  }

  lemma LateFullText(k: nat, u: nat, v: nat)
    requires 1 <= k <= 15 && (u == 0 || 100 <= u < 99 + k) && 99 + k <= v
    ensures 0.7 * (1.0 / (v - 39) as real)
            <= if u == 0 then 1.0 / (61 + 3 * k) as real else 0.7 * (1.0 / (u - 39) as real)
  {
    if u == 0 {
      RestIsLow(v - 39, 60 + k, 0.7);
      Crossover(k);
    } else {
      RestIsLow(v - 39, u - 39, 0.7);
    }
  }

  lemma AnyVector(k: nat, u: nat, v: nat)
    requires 1 <= k <= 15 && (u == 0 || 100 <= u < 99 + k) && 200 <= v
    ensures 0.3 * (1.0 / (v - 139) as real)
            <= if u == 0 then 1.0 / (61 + 3 * k) as real else 0.7 * (1.0 / (u - 39) as real)
  {
    RestIsLow(v - 139, 61, 0.3);
    if u == 0 {
      ReciprocalFalls(61 + 3 * k, 106);
    } else {
      RestIsLow(75, u - 39, 0.7);
    }
  }

  lemma RestIsLow(a: nat, b: nat, w: real)
    requires 0 < b <= a && w >= 0.0
    ensures w * (1.0 / a as real) <= w * (1.0 / b as real)
  {
    ReciprocalFalls(b, a);
    Scales(w, 1.0 / a as real, 1.0 / b as real);
  }

  /** Sixteen is the least result size from which on the threefold fetch is safe, and below it, no size but zero is. */
  lemma OverfetchThreshold(k: nat)
    ensures SafeOverfetch(k) <==> k == 0 || k >= 16
  {
    if 1 <= k <= 15 {
      OverfetchTooSmall(k);
    } else {
      forall fts: seq<nat>, vec: seq<nat>, m: nat, top: set<nat> |
        Distinct(fts) && Distinct(vec) && Missed(fts, vec, k, m)
        && IsTop(top, Elements(fts) + Elements(vec), k, ScoreFn(fts, vec, DEFAULTS))
        ensures m !in top
      {
        if k >= 16 {
          OverfetchSuffices(fts, vec, k, m, top);
        }
      }
    }
  }
}