/** What hybrid search loses by fusing truncated rankings: when the best of the fetched candidates are the best of the
    full rankings. Default weights, three candidates fetched for each result. */
module Truncation {
  import opened Collections
  import opened Fusion

  /** `top` is a best `k` of the fusion of the two rankings, however ties are broken. */
  ghost predicate IsBest(fts: seq<nat>, vec: seq<nat>, k: nat, top: set<nat>) {
    IsTop(top, Elements(fts) + Elements(vec), k, ScoreFn(fts, vec, DEFAULTS))
  }

  /** `top` is a best `k` of what is fetched: the versions a search may return. */
  ghost predicate IsReturned(fts: seq<nat>, vec: seq<nat>, k: nat, top: set<nat>) {
    IsBest(Take(fts, OVERFETCH * k), Take(vec, OVERFETCH * k), k, top)
  }

  /** Whatever the search returns for these rankings is a best `k` of them. */
  ghost predicate ReturnsBest(fts: seq<nat>, vec: seq<nat>, k: nat) {
    forall top | IsReturned(fts, vec, k, top) :: IsBest(fts, vec, k, top)
  }

  /** One ranker fetches `v` while the other lists it too late, so that `v` is fetched with part of its score only. */
  ghost predicate HalfCut(fts: seq<nat>, vec: seq<nat>, k: nat, v: nat) {
    var cutFts, cutVec := Take(fts, OVERFETCH * k), Take(vec, OVERFETCH * k);
    (v in cutFts && v in vec && v !in cutVec) || (v in cutVec && v in fts && v !in cutFts)
  }

  ghost predicate NoHalfCuts(fts: seq<nat>, vec: seq<nat>, k: nat) {
    forall v :: !HalfCut(fts, vec, k, v)
  }

  // ------------------------------------------------------------- choosing a top

  lemma {:induction false} TopExists(all: set<nat>, k: nat, score: nat -> real) returns (top: set<nat>)
    ensures IsTop(top, all, k, score)
  {
    if k == 0 || all == {} {
      return {};
    }
    var best := Highest(all, score);
    top := TopExists(all - {best}, k - 1, score);
    top := top + {best};
  }

  lemma {:induction false} Highest(all: set<nat>, score: nat -> real) returns (best: nat)
    requires all != {}
    ensures best in all && forall v | v in all :: score(v) <= score(best)
  {
    var x :| x in all;
    best := x;
    if all != {x} {
      var y := Highest(all - {x}, score);
      if score(x) < score(y) {
        best := y;
      }
    }
  }

  /** With fewer than `k` versions above it, `m` is in every best `k`. */
  lemma FewAboveIsIn(all: set<nat>, above: set<nat>, top: set<nat>, k: nat, m: nat, score: nat -> real)
    requires IsTop(top, all, k, score) && k <= |all| && m in all && |above| < k
    requires forall u | u in all && u !in above && u != m :: score(u) < score(m)
    ensures m in top
  {
    if top <= above {
      SubsetNoLarger(top, above);
    }
  }

  // ------------------------------------------------- rankings without half-cuts

  lemma ContributionInPrefix(vs: seq<nat>, n: nat, v: nat, weight: real, rrfK: nat)
    requires Distinct(vs) && (v in vs ==> v in Take(vs, n))
    ensures Contribution(Take(vs, n), v, weight, rrfK) == Contribution(vs, v, weight, rrfK)
  {
    if n < |vs| {
      IndexInPrefix(vs, n, v);
    }
  }

  lemma FetchedKeepsScore(fts: seq<nat>, vec: seq<nat>, k: nat, v: nat)
    requires Distinct(fts) && Distinct(vec) && !HalfCut(fts, vec, k, v)
    requires v in Take(fts, OVERFETCH * k) || v in Take(vec, OVERFETCH * k)
    ensures Score(Take(fts, OVERFETCH * k), Take(vec, OVERFETCH * k), v, DEFAULTS) == Score(fts, vec, v, DEFAULTS)
  {
    ContributionInPrefix(fts, OVERFETCH * k, v, 0.7, 60);
    ContributionInPrefix(vec, OVERFETCH * k, v, 0.3, 60);
  }

  ghost function Fetched(fts: seq<nat>, vec: seq<nat>, k: nat): set<nat> {
    Elements(Take(fts, OVERFETCH * k)) + Elements(Take(vec, OVERFETCH * k))
  }

  /** From sixteen results on, `k` fetched versions score above a missed one. */
  lemma FetchedAboveMissed(fts: seq<nat>, vec: seq<nat>, k: nat, m: nat) returns (above: set<nat>)
    requires k >= 16 && Distinct(fts) && Distinct(vec) && Missed(fts, vec, k, m)
    ensures |above| == k && above <= Fetched(fts, vec, k)
    ensures forall b | b in above :: Score(fts, vec, b, DEFAULTS) > Score(fts, vec, m, DEFAULTS)
  {
    var ranking := if m in fts then fts else vec;
    MissedIsLate(ranking, 3 * k, m);
    DistinctCount(ranking[..k]);
    above := Elements(ranking[..k]);
    assert ranking[..k] == ranking[..3 * k][..k];
    forall b | b in above ensures Score(fts, vec, b, DEFAULTS) > Score(fts, vec, m, DEFAULTS) {
      EarlyBeatsMissed(fts, vec, k, m, b);
    }
  }

  /** `k` versions of `part` score above `m`. */
  ghost predicate ManyAbove(above: set<nat>, part: set<nat>, k: nat, m: nat, score: nat -> real) {
    above <= part && |above| == k && forall b | b in above :: score(b) > score(m)
  }

  ghost predicate Outnumbered(part: set<nat>, k: nat, m: nat, score: nat -> real) {
    exists above :: ManyAbove(above, part, k, m, score)
  }

  /** A set that beats all it leaves of a part, and has as many members as are above anything in the rest, is a top of
      the whole. */
  lemma TopOfPart(all: set<nat>, part: set<nat>, top: set<nat>, k: nat, score: nat -> real)
    requires part <= all && IsTop(top, part, k, score)
    requires forall m: nat | m in all && m !in part :: Outnumbered(part, k, m, score)
    ensures IsTop(top, all, k, score)
  {
    if part != all {
      var m: nat :| m in all && m !in part;
      assert Outnumbered(part, k, m, score);
      var above :| ManyAbove(above, part, k, m, score);
      SubsetNoLarger(above, part);
    }
    SubsetNoLarger(part, all);
    forall u: nat, v: nat | u in top && v in all - top ensures score(v) <= score(u) {
      if v !in part && score(u) < score(v) {
        assert Outnumbered(part, k, v, score);
        var above :| ManyAbove(above, part, k, v, score);
        assert above <= top by {
          assert forall b | b in above :: !(b in part - top);
        }
        SubsetNoLarger(above + {u}, top);
        assert false;
      }
    }
  }

  /** Without half-cuts, sixteen results or more are returned as the full rankings would have them. */
  lemma ReturnsBestFromSixteen(fts: seq<nat>, vec: seq<nat>, k: nat)
    requires k >= 16 && Distinct(fts) && Distinct(vec) && NoHalfCuts(fts, vec, k)
    ensures ReturnsBest(fts, vec, k)
  {
    var all, part, score := Elements(fts) + Elements(vec), Fetched(fts, vec, k), ScoreFn(fts, vec, DEFAULTS);
    forall m: nat | m in all && m !in part ensures Outnumbered(part, k, m, score) {
      var above := FetchedAboveMissed(fts, vec, k, m);
      assert ManyAbove(above, part, k, m, score);
    }
    forall top | IsReturned(fts, vec, k, top) ensures IsBest(fts, vec, k, top) {
      forall v | v in part
        ensures score(v) == ScoreFn(Take(fts, OVERFETCH * k), Take(vec, OVERFETCH * k), DEFAULTS)(v) {
        FetchedKeepsScore(fts, vec, k, v);
      }
      assert IsTop(top, part, k, score);
      TopOfPart(all, part, top, k, score);
    }
  }

  ghost predicate InEveryBest(fts: seq<nat>, vec: seq<nat>, k: nat, m: nat) {
    forall top | IsBest(fts, vec, k, top) :: m in top
  }

  ghost predicate NeverReturned(fts: seq<nat>, vec: seq<nat>, k: nat, m: nat) {
    forall top | IsReturned(fts, vec, k, top) :: m !in top
  }

  /** What is in every best `k` and is never returned is lost. */
  lemma LosesWhenBestIsNotReturned(fts: seq<nat>, vec: seq<nat>, k: nat, m: nat)
    requires InEveryBest(fts, vec, k, m) && NeverReturned(fts, vec, k, m)
    ensures !ReturnsBest(fts, vec, k)
  {
    var top := TopExists(Fetched(fts, vec, k), k,
                         ScoreFn(Take(fts, OVERFETCH * k), Take(vec, OVERFETCH * k), DEFAULTS));
    assert IsReturned(fts, vec, k, top);
  }

  /** From one to fifteen results, two rankings without half-cuts for which nothing that may be returned is a best
      `k`: the version that both list just after what is fetched belongs to every best `k`. */
  lemma TooFewFetched(k: nat)
    requires 1 <= k <= 15
    ensures var fts, vec := Tail(100, k), Tail(200, k);
            && NoHalfCuts(fts, vec, k)
            && InEveryBest(fts, vec, k, 0) && NeverReturned(fts, vec, k, 0)
  {
    var fts, vec := Tail(100, k), Tail(200, k);
    TailMissesLast(k);
    forall v ensures !HalfCut(fts, vec, k, v) {
      TailMember(100, k, v);
      TailMember(200, k, v);
    }
    var above := Elements(fts[..k - 1]);
    DistinctCount(fts[..k - 1]);
    var all := Elements(fts) + Elements(vec);
    DistinctCount(fts);
    SubsetNoLarger(Elements(fts), all);
    forall u: nat | 100 <= u < 99 + k ensures u in above {
      assert fts[..k - 1][u - 100] == u;
    }
    forall u | u in all && u !in above && u != 0 ensures Score(fts, vec, u, DEFAULTS) < Score(fts, vec, 0, DEFAULTS) {
      TailMember(100, k, u);
      TailMember(200, k, u);
      RestBelowTail(k, u);
    }
    assert fts[3 * k] == 0;
    forall top | IsBest(fts, vec, k, top) ensures 0 in top {
      FewAboveIsIn(all, above, top, k, 0, ScoreFn(fts, vec, DEFAULTS));
    }
  }

  lemma RestBelowTail(k: nat, u: nat)
    requires 1 <= k <= 15 && (99 + k <= u < 100 + 3 * k || 200 <= u < 200 + 3 * k)
    ensures Score(Tail(100, k), Tail(200, k), u, DEFAULTS) < Score(Tail(100, k), Tail(200, k), 0, DEFAULTS)
  {
    TailScores(k, u);
    TailScores(k, 0);
    if u < 200 {
      LateShare(k, u - 39);
    } else {
      VectorShare(k, u - 139);
    }
  }

  lemma LateShare(k: nat, r: nat)
    requires k <= 15 && r >= 60 + k
    ensures 0.7 * (1.0 / r as real) < 1.0 / (61 + 3 * k) as real
  {
    RestIsLow(r, 60 + k, 0.7);
    CrossoverStrict(k);
  }

  lemma VectorShare(k: nat, r: nat)
    requires k <= 15 && r >= 61
    ensures 0.3 * (1.0 / r as real) < 1.0 / (61 + 3 * k) as real
  {
    RestIsLow(r, 61, 0.3);
    ReciprocalFalls(61 + 3 * k, 106);
  }

  lemma CrossoverStrict(k: nat)
    requires k <= 15
    ensures 0.7 * (1.0 / (60 + k) as real) < 1.0 / (61 + 3 * k) as real
  {
    var x, y := (60 + k) as real, (61 + 3 * k) as real;
    var p, q := 1.0 / x, 1.0 / y;
    assert x * p == 1.0 && y * q == 1.0;
    var d := q - 0.7 * p;
    assert (x * y) * d == x * (y * q) - 0.7 * y * (x * p);
    SignOfProduct(x * y, d);
  }

  /** For all rankings without half-cuts, what is returned is a best `k` of them if and only if no result or at least
      sixteen are asked for. */
  lemma ReturnsBestWithoutHalfCutsIff(k: nat)
    ensures (forall fts: seq<nat>, vec: seq<nat> | Distinct(fts) && Distinct(vec) && NoHalfCuts(fts, vec, k)
               :: ReturnsBest(fts, vec, k))
            <==> k == 0 || k >= 16
  {
    if k >= 16 {
      forall fts: seq<nat>, vec: seq<nat> | Distinct(fts) && Distinct(vec) && NoHalfCuts(fts, vec, k)
        ensures ReturnsBest(fts, vec, k) {
        ReturnsBestFromSixteen(fts, vec, k);
      }
    } else if k > 0 {
      TooFewFetched(k);
      LosesWhenBestIsNotReturned(Tail(100, k), Tail(200, k), k, 0);
      assert Distinct(Tail(100, k)) && Distinct(Tail(200, k));
    }
  }

  // ---------------------------------------------------------- a half-cut is lost

  /** Full text lists 1 to `k`, then 0. */
  function First(k: nat): (vs: seq<nat>)
    ensures |vs| == k + 1 && forall i | 0 <= i < |vs| :: vs[i] == if i == k then 0 else i + 1
  {
    seq(k, i => i + 1) + [0]
  }

  /** The vectors agree but for `k`, put others in its place and list 0 just after what is fetched. */
  function Second(k: nat): (vs: seq<nat>)
    ensures |vs| == 3 * k + 1
    ensures forall i | 0 <= i < |vs| :: vs[i] == if i == 3 * k then 0 else if i + 1 < k then i + 1 else i + 2
  {
    seq(3 * k, i => if i + 1 < k then i + 1 else i + 2) + [0]
  }

  lemma FirstRank(k: nat, v: nat)
    requires k >= 1
    ensures v in First(k) <==> v <= k
    ensures v == 0 ==> IndexOf(First(k), v) == k
    ensures 1 <= v <= k ==> IndexOf(First(k), v) == v - 1
  {
    if v <= k {
      IndexIs(First(k), if v == 0 then k else v - 1);
    }
  }

  lemma SecondRank(k: nat, v: nat)
    requires k >= 1
    ensures v in Second(k) <==> v <= 3 * k + 1 && v != k
    ensures v == 0 ==> IndexOf(Second(k), v) == 3 * k
    ensures 1 <= v < k ==> IndexOf(Second(k), v) == v - 1
    ensures k < v <= 3 * k + 1 ==> IndexOf(Second(k), v) == v - 2
  {
    if v <= 3 * k + 1 && v != k {
      IndexIs(Second(k), if v == 0 then 3 * k else if v < k then v - 1 else v - 2);
    }
  }

  lemma SecondMissesZero(k: nat)
    requires k >= 1
    ensures 0 in Second(k) && 0 !in Take(Second(k), 3 * k)
  {
    SecondRank(k, 0);
    IndexInPrefix(Second(k), 3 * k, 0);
  }

  /** What 0 still has of the vector list's share is more than it lacks behind `k` in full text. */
  lemma ShareDecides(k: nat)
    ensures 0.7 * (1.0 / (61 + k) as real) + 0.3 * (1.0 / (61 + 3 * k) as real) > 0.7 * (1.0 / (60 + k) as real)
  {
    var x, y, z := (60 + k) as real, (61 + k) as real, (61 + 3 * k) as real;
    var p, q, r := 1.0 / x, 1.0 / y, 1.0 / z;
    assert x * p == 1.0 && y * q == 1.0 && z * r == 1.0;
    var d := 0.7 * q + 0.3 * r - 0.7 * p;
    calc {
      (x * y * z) * d;
      0.7 * (x * z) * (y * q) + 0.3 * (x * y) * (z * r) - 0.7 * (y * z) * (x * p);
      0.7 * (x * z) + 0.3 * (x * y) - 0.7 * (y * z);
      0.3 * (x * y) - 0.7 * z;
    }
    ShareGrows(k);
    SignOfProduct(x * y * z, d);
  }

  lemma ShareGrows(k: nat)
    ensures 0.3 * ((60 + k) as real * (61 + k) as real) > 0.7 * (61 + 3 * k) as real
  {
    var x := k as real;
    assert (60 + k) as real * (61 + k) as real == 3660.0 + 121.0 * x + x * x;
    assert x * x >= 0.0;
  }

  lemma ZeroScores(k: nat)
    requires k >= 1
    ensures Score(First(k), Second(k), 0, DEFAULTS)
            == 0.7 * (1.0 / (61 + k) as real) + 0.3 * (1.0 / (61 + 3 * k) as real)
    ensures Score(First(k), Take(Second(k), 3 * k), 0, DEFAULTS) == 0.7 * (1.0 / (61 + k) as real)
  {
    FirstRank(k, 0);
    SecondRank(k, 0);
    SecondMissesZero(k);
  }

  lemma RestScores(k: nat, u: nat)
    requires k <= u <= 3 * k + 1 && k >= 1
    ensures u == k ==> Score(First(k), Second(k), u, DEFAULTS) == 0.7 * (1.0 / (60 + k) as real)
    ensures u > k ==> Score(First(k), Second(k), u, DEFAULTS) == 0.3 * (1.0 / (59 + u) as real)
  {
    FirstRank(k, u);
    SecondRank(k, u);
  }

  /** Everything but 1 to `k - 1` is below 0 in the full fusion. */
  lemma RestBelowZero(k: nat, u: nat)
    requires k <= u <= 3 * k + 1 && k >= 1
    ensures Score(First(k), Second(k), u, DEFAULTS) < Score(First(k), Second(k), 0, DEFAULTS)
  {
    ZeroScores(k);
    RestScores(k, u);
    RestShare(k, u);
  }

  lemma RestShare(k: nat, u: nat)
    requires u >= k >= 1
    ensures (if u == k then 0.7 * (1.0 / (60 + k) as real) else 0.3 * (1.0 / (59 + u) as real))
            < 0.7 * (1.0 / (61 + k) as real) + 0.3 * (1.0 / (61 + 3 * k) as real)
  {
    if u == k {
      ShareDecides(k);
    } else {
      LaterShare(k, 59 + u);
    }
  }

  lemma LaterShare(k: nat, r: nat)
    requires r >= 60 + k
    ensures 0.3 * (1.0 / r as real) < 0.7 * (1.0 / (61 + k) as real) + 0.3 * (1.0 / (61 + 3 * k) as real)
  {
    RestIsLow(r, 60 + k, 0.3);
    ThreeOfSeven(k);
    ReciprocalPositive(61 + 3 * k);
  }

  lemma ThreeOfSeven(k: nat)
    ensures 0.3 * (1.0 / (60 + k) as real) < 0.7 * (1.0 / (61 + k) as real)
  {
    var x, y := (60 + k) as real, (61 + k) as real;
    var p, q := 1.0 / x, 1.0 / y;
    assert x * p == 1.0 && y * q == 1.0;
    var d := 0.7 * q - 0.3 * p;
    assert (x * y) * d == 0.7 * x * (y * q) - 0.3 * y * (x * p);
    SignOfProduct(x * y, d);
  }

  /** But 1 to `k` are above it in the fusion of what is fetched. */
  lemma FirstAboveZero(k: nat, b: nat)
    requires 1 <= b <= k
    ensures Score(First(k), Take(Second(k), 3 * k), b, DEFAULTS) > Score(First(k), Take(Second(k), 3 * k), 0, DEFAULTS)
  {
    ZeroScores(k);
    FirstContribution(k, b);
    ContributionNonNegative(Take(Second(k), 3 * k), b, 0.3);
    EarlierShare(k, 60 + b);
  }

  lemma FirstContribution(k: nat, b: nat)
    requires 1 <= b <= k
    ensures Contribution(First(k), b, 0.7, 60) == 0.7 * (1.0 / (60 + b) as real)
  {
    FirstRank(k, b);
  }

  lemma EarlierShare(k: nat, r: nat)
    requires 0 < r <= 60 + k
    ensures 0.7 * (1.0 / r as real) > 0.7 * (1.0 / (61 + k) as real)
  {
    RestIsLow(60 + k, r, 0.7);
    ReciprocalFalls(60 + k, 61 + k);
  }

  /** For any positive number of results, two rankings where a fetched version belongs to every best `k` of the full
      fusion, and to nothing that may be returned. */
  lemma HalfCutIsLost(k: nat)
    requires k >= 1
    ensures var fts, vec := First(k), Second(k);
            && HalfCut(fts, vec, k, 0)
            && InEveryBest(fts, vec, k, 0) && NeverReturned(fts, vec, k, 0)
  {
    var fts, vec := First(k), Second(k);
    FirstRank(k, 0);
    SecondMissesZero(k);
    assert Take(fts, 3 * k) == fts;
    ZeroInBest(k);
    ZeroNotReturned(k);
  }

  lemma ZeroInBest(k: nat)
    requires k >= 1
    ensures InEveryBest(First(k), Second(k), k, 0)
  {
    var fts, vec := First(k), Second(k);
    var all, above := Elements(fts) + Elements(vec), Elements(fts[..k - 1]);
    DistinctCount(fts[..k - 1]);
    DistinctCount(fts);
    SubsetNoLarger(Elements(fts), all);
    FirstRank(k, 0);
    forall u: nat | 1 <= u < k ensures u in above {
      assert fts[..k - 1][u - 1] == u;
    }
    forall u | u in all && u !in above && u != 0 ensures Score(fts, vec, u, DEFAULTS) < Score(fts, vec, 0, DEFAULTS) {
      FirstRank(k, u);
      SecondRank(k, u);
      RestBelowZero(k, u);
    }
    forall top | IsBest(fts, vec, k, top) ensures 0 in top {
      FewAboveIsIn(all, above, top, k, 0, ScoreFn(fts, vec, DEFAULTS));
    }
  }

  lemma ZeroNotReturned(k: nat)
    requires k >= 1
    ensures NeverReturned(First(k), Second(k), k, 0)
  {
    var fts, vec := First(k), Take(Second(k), 3 * k);
    assert Take(fts, 3 * k) == fts;
    var better := Elements(fts[..k]);
    DistinctCount(fts[..k]);
    forall b | b in better ensures Score(fts, vec, b, DEFAULTS) > Score(fts, vec, 0, DEFAULTS) {
      FirstAboveZero(k, b);
    }
    forall top | IsReturned(First(k), Second(k), k, top) ensures 0 !in top {
      BeatenByManyIsOut(Elements(fts) + Elements(vec), better, top, k, 0, ScoreFn(fts, vec, DEFAULTS));
    }
  }

  /** What is returned is a best `k` of the full rankings, whatever they are, only if nothing is asked for. */
  lemma ReturnsBestForAllIff(k: nat)
    ensures (forall fts: seq<nat>, vec: seq<nat> | Distinct(fts) && Distinct(vec) :: ReturnsBest(fts, vec, k))
            <==> k == 0
  {
    if k > 0 {
      var fts, vec := SomeLose(k);
    }
  }

  lemma SomeLose(k: nat) returns (fts: seq<nat>, vec: seq<nat>)
    requires k > 0
    ensures Distinct(fts) && Distinct(vec) && !ReturnsBest(fts, vec, k)
  {
    fts, vec := First(k), Second(k);
    ZeroInBest(k);
    ZeroNotReturned(k);
    LosesWhenBestIsNotReturned(fts, vec, k, 0);
  }

  /** Rankings no longer than what is fetched lose nothing: the search may return exactly their best `k`. */
  lemma ShortRankingsAreWhole(fts: seq<nat>, vec: seq<nat>, k: nat, top: set<nat>)
    requires |fts| <= OVERFETCH * k && |vec| <= OVERFETCH * k
    ensures IsReturned(fts, vec, k, top) <==> IsBest(fts, vec, k, top)
  {
  }

  /** What the search method returns for the fetched hits is such a set. */
  lemma SearchReturns(fts: seq<nat>, vec: seq<nat>, k: nat, ftsHits: seq<SearchHit>, vecHits: seq<SearchHit>,
                      result: seq<SearchHit>)
    requires Versions(ftsHits) == Take(fts, OVERFETCH * k) && Versions(vecHits) == Take(vec, OVERFETCH * k)
    requires IsFusion(ftsHits, vecHits, k, ScoreFn(Versions(ftsHits), Versions(vecHits), DEFAULTS), result)
    ensures IsReturned(fts, vec, k, Elements(Versions(result)))
  {
  }
}
