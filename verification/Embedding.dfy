/** The embedding service's `embed_version`: fill in the missing embeddings of a version's segments, batch by batch. */
module Embedding {
  import opened Domain
  import opened Collections

  datatype Vector = Vector(coordinates: seq<real>)

  /** One row of a version's segments, which are kept in ordinal order. */
  datatype Segment = Segment(text: string, embedding: Option<Vector>)

  /** An embedding provider: vectors for a batch of texts. Nothing is promised about how many it returns. */
  type Provider = seq<string> -> seq<Vector>

  const BATCH_SIZE: nat := 50

  /** The ordinals below `n` of the segments without embedding. */
  function Missing(segs: seq<Segment>, n: nat): (at: seq<nat>)
    requires n <= |segs|
    ensures forall k | 0 <= k < |at| :: at[k] < n
  {
    if n == 0 then []
    else if segs[n - 1].embedding.None? then Missing(segs, n - 1) + [n - 1]
    else Missing(segs, n - 1)
  }

  predicate Ordinals(segs: seq<Segment>, at: seq<nat>) {
    forall k | 0 <= k < |at| :: at[k] < |segs|
  }

  function Texts(segs: seq<Segment>, at: seq<nat>): seq<string>
    requires Ordinals(segs, at)
  {
    seq(|at|, k requires 0 <= k < |at| => segs[at[k]].text)
  }

  /** Pair the segments with the vectors, as far as both reach. */
  function Fill(segs: seq<Segment>, at: seq<nat>, vectors: seq<Vector>): (r: seq<Segment>)
    requires Ordinals(segs, at)
    ensures |r| == |segs|
    decreases |at|
  {
    if at == [] || vectors == [] then segs
    else Fill(segs[at[0] := segs[at[0]].(embedding := Some(vectors[0]))], at[1..], vectors[1..])
  }

  function FirstBatch(at: seq<nat>): seq<nat> {
    if |at| <= BATCH_SIZE then at else at[..BATCH_SIZE]
  }

  /** The segments after all batches of `at`. */
  function FillBatches(segs: seq<Segment>, at: seq<nat>, embed: Provider): (r: seq<Segment>)
    requires Ordinals(segs, at)
    ensures |r| == |segs|
    decreases |at|
  {
    if at == [] then segs
    else
      var batch := FirstBatch(at);
      FillBatches(Fill(segs, batch, embed(Texts(segs, batch))), at[|batch|..], embed)
  }

  function EmbedSegments(segs: seq<Segment>, embed: Provider): seq<Segment> {
    FillBatches(segs, Missing(segs, |segs|), embed)
  }

  /** The loop over one batch: a segment and a vector each time round, until either runs out. */
  method FillBatch(segs: seq<Segment>, at: seq<nat>, vectors: seq<Vector>) returns (r: seq<Segment>)
    requires Ordinals(segs, at)
    ensures r == Fill(segs, at, vectors)
  {
    r := segs;
    var k := 0;
    assert at[0..] == at && vectors[0..] == vectors;
    while k < |at| && k < |vectors|
      invariant 0 <= k <= |at| && k <= |vectors| && |r| == |segs|
      invariant Fill(r, at[k..], vectors[k..]) == Fill(segs, at, vectors)
    {
      assert at[k..][1..] == at[k + 1..] && vectors[k..][1..] == vectors[k + 1..];
      r := r[at[k] := r[at[k]].(embedding := Some(vectors[k]))];
      k := k + 1;
    }
  }

  method EmbedAll(segs: seq<Segment>, embed: Provider) returns (r: seq<Segment>, count: nat)
    ensures r == EmbedSegments(segs, embed)
    ensures count == |Missing(segs, |segs|)|
  {
    var at := Missing(segs, |segs|);
    r, count := segs, 0;
    assert at[0..] == at;
    while count < |at|
      invariant 0 <= count <= |at| && |r| == |segs|
      invariant FillBatches(r, at[count..], embed) == EmbedSegments(segs, embed)
    {
      var batch := if |at| - count <= BATCH_SIZE then at[count..] else at[count..count + BATCH_SIZE];
      assert batch == FirstBatch(at[count..]);
      assert at[count..][|batch|..] == at[count + |batch|..];
      var texts := Texts(r, batch);
      var vectors := embed(texts);
      r := FillBatch(r, batch, vectors);
      count := count + |batch|;
    }
  }

  // -------------------------------------------------------------- properties

  /** Texts stay, and so does every embedding already there. */
  ghost predicate Extends(r: seq<Segment>, segs: seq<Segment>) {
    && |r| == |segs|
    && (forall o | 0 <= o < |segs| :: r[o].text == segs[o].text)
    && (forall o | 0 <= o < |segs| && segs[o].embedding.Some? :: r[o] == segs[o])
  }

  ghost predicate NoneAt(segs: seq<Segment>, at: seq<nat>)
    requires Ordinals(segs, at)
  {
    forall k | 0 <= k < |at| :: segs[at[k]].embedding.None?
  }

  /** The k-th listed segment gets the k-th vector; no other segment changes. */
  lemma {:induction false} FillAt(segs: seq<Segment>, at: seq<nat>, vectors: seq<Vector>)
    requires Ordinals(segs, at) && Distinct(at)
    ensures var r := Fill(segs, at, vectors);
            && (forall k | 0 <= k < |at| && k < |vectors| :: r[at[k]] == segs[at[k]].(embedding := Some(vectors[k])))
            && (forall k | |vectors| <= k < |at| :: r[at[k]] == segs[at[k]])
            && (forall o | 0 <= o < |segs| && o !in at :: r[o] == segs[o])
    decreases |at|
  {
    if at != [] && vectors != [] {
      var segs' := segs[at[0] := segs[at[0]].(embedding := Some(vectors[0]))];
      FillAt(segs', at[1..], vectors[1..]);
      assert at[0] !in at[1..];
      assert forall k | 1 <= k < |at| :: at[k] == at[1..][k - 1];
    }
  }

  lemma FillExtends(segs: seq<Segment>, at: seq<nat>, vectors: seq<Vector>)
    requires Ordinals(segs, at) && Distinct(at) && NoneAt(segs, at)
    ensures Extends(Fill(segs, at, vectors), segs)
  {
    FillAt(segs, at, vectors);
    forall o | 0 <= o < |segs|
      ensures Fill(segs, at, vectors)[o].text == segs[o].text
      ensures segs[o].embedding.Some? ==> Fill(segs, at, vectors)[o] == segs[o]
    {
      if o in at {
        var k :| 0 <= k < |at| && at[k] == o;
      }
    }
  }

  /** Every batch gets at least as many vectors as it has texts. */
  ghost predicate Enough(segs: seq<Segment>, at: seq<nat>, embed: Provider)
    requires Ordinals(segs, at)
    decreases |at|
  {
    at == []
    || var batch := FirstBatch(at);
       && |embed(Texts(segs, batch))| >= |batch|
       && Enough(segs, at[|batch|..], embed)
  }

  /** Filling a batch leaves the other batches' texts and gaps alone. */
  lemma BatchStep(segs: seq<Segment>, at: seq<nat>, vectors: seq<Vector>)
    requires Ordinals(segs, at) && Distinct(at) && NoneAt(segs, at) && at != []
    ensures var batch := FirstBatch(at);
            var rest := at[|batch|..];
            var r := Fill(segs, batch, vectors);
            && Extends(r, segs) && Ordinals(r, rest) && Distinct(rest) && NoneAt(r, rest)
            && (forall k | 0 <= k < |rest| :: r[rest[k]] == segs[rest[k]])
  {
    var batch := FirstBatch(at);
    FillExtends(segs, batch, vectors);
    FillAt(segs, batch, vectors);
  }

  lemma {:induction false} EnoughIsAboutTexts(segs: seq<Segment>, r: seq<Segment>, at: seq<nat>, embed: Provider)
    requires Ordinals(segs, at) && Extends(r, segs)
    ensures Enough(r, at, embed) == Enough(segs, at, embed)
    decreases |at|
  {
    if at != [] {
      var batch := FirstBatch(at);
      assert Texts(r, batch) == Texts(segs, batch);
      EnoughIsAboutTexts(segs, r, at[|batch|..], embed);
    }
  }

  /** Segments off the list stay; the listed ones keep their texts. */
  lemma {:induction false} BatchesExtend(segs: seq<Segment>, at: seq<nat>, embed: Provider)
    requires Ordinals(segs, at) && Distinct(at) && NoneAt(segs, at)
    ensures var r := FillBatches(segs, at, embed);
            Extends(r, segs) && forall o | 0 <= o < |segs| && o !in at :: r[o] == segs[o]
    decreases |at|
  {
    if at != [] {
      var batch := FirstBatch(at);
      var vectors := embed(Texts(segs, batch));
      BatchStep(segs, at, vectors);
      FillAt(segs, batch, vectors);
      BatchesExtend(Fill(segs, batch, vectors), at[|batch|..], embed);
    }
  }

  /** What becomes of the first batch is settled by its own vectors. */
  lemma FirstBatchFilled(segs: seq<Segment>, at: seq<nat>, embed: Provider)
    requires Ordinals(segs, at) && Distinct(at) && NoneAt(segs, at) && at != []
    ensures var batch := FirstBatch(at);
            var vectors := embed(Texts(segs, batch));
            forall k | 0 <= k < |batch| ::
              FillBatches(segs, at, embed)[batch[k]]
              == if k < |vectors| then segs[batch[k]].(embedding := Some(vectors[k])) else segs[batch[k]]
  {
    var batch := FirstBatch(at);
    var rest := at[|batch|..];
    var vectors := embed(Texts(segs, batch));
    BatchStep(segs, at, vectors);
    FillAt(segs, batch, vectors);
    BatchesExtend(Fill(segs, batch, vectors), rest, embed);
    forall k | 0 <= k < |batch| ensures batch[k] !in rest {
      assert batch[k] == at[k];
    }
  }

  ghost predicate AllFilled(segs: seq<Segment>, at: seq<nat>)
    requires Ordinals(segs, at)
  {
    forall k | 0 <= k < |at| :: segs[at[k]].embedding.Some?
  }

  lemma AllFilledSplits(segs: seq<Segment>, batch: seq<nat>, rest: seq<nat>)
    requires Ordinals(segs, batch + rest)
    ensures Ordinals(segs, batch) && Ordinals(segs, rest)
    ensures AllFilled(segs, batch + rest) <==> AllFilled(segs, batch) && AllFilled(segs, rest)
  {
    var at := batch + rest;
    assert forall k | 0 <= k < |batch| :: at[k] == batch[k];
    assert forall k | 0 <= k < |rest| :: at[|batch| + k] == rest[k];
  }

  lemma {:induction false} FilledIffEnough(segs: seq<Segment>, at: seq<nat>, embed: Provider)
    requires Ordinals(segs, at) && Distinct(at) && NoneAt(segs, at)
    ensures AllFilled(FillBatches(segs, at, embed), at) <==> Enough(segs, at, embed)
    decreases |at|
  {
    if at != [] {
      var batch := FirstBatch(at);
      var rest := at[|batch|..];
      var vectors := embed(Texts(segs, batch));
      var mid := Fill(segs, batch, vectors);
      var r := FillBatches(segs, at, embed);
      BatchStep(segs, at, vectors);
      FilledIffEnough(mid, rest, embed);
      EnoughIsAboutTexts(segs, mid, rest, embed);
      FirstBatchFilled(segs, at, embed);
      assert AllFilled(r, batch) <==> |vectors| >= |batch| by {
        if |vectors| < |batch| {
          assert r[batch[|vectors|]].embedding.None?;
        }
      }
      AllFilledSplits(r, batch, rest);
      assert at == batch + rest;
    }
  }

  lemma {:induction false} MissingExactly(segs: seq<Segment>, n: nat)
    requires n <= |segs|
    ensures forall i, k | 0 <= i < k < |Missing(segs, n)| :: Missing(segs, n)[i] < Missing(segs, n)[k]
    ensures forall o: nat :: o in Missing(segs, n) <==> o < n && segs[o].embedding.None?
  {
    if n > 0 {
      MissingExactly(segs, n - 1);
    }
  }

  ghost predicate Complete(segs: seq<Segment>) {
    forall o | 0 <= o < |segs| :: segs[o].embedding.Some?
  }

  /** After `embed_version` no text has changed, no embedding was overwritten, and every segment is embedded exactly
      when the provider returned at least as many vectors as texts for every batch. */
  lemma EmbeddedIffEnough(segs: seq<Segment>, embed: Provider)
    ensures Extends(EmbedSegments(segs, embed), segs)
    ensures Complete(EmbedSegments(segs, embed)) <==> Enough(segs, Missing(segs, |segs|), embed)
  {
    var at := Missing(segs, |segs|);
    MissingExactly(segs, |segs|);
    BatchesExtend(segs, at, embed);
    FilledIffEnough(segs, at, embed);
    var r := EmbedSegments(segs, embed);
    if AllFilled(r, at) {
      forall o | 0 <= o < |segs| ensures r[o].embedding.Some? {
        if o in at {
          var k :| 0 <= k < |at| && at[k] == o;
        }
      }
    }
  }

  /** Where the batch of the `k`-th missing segment starts. */
  ghost function BatchStart(k: nat): nat {
    k - k % 50
  }

  /** The texts of the batch that starts at `from`: at most fifty. */
  ghost function BatchTexts(segs: seq<Segment>, at: seq<nat>, from: nat): seq<string>
    requires Ordinals(segs, at) && from <= |at|
  {
    var n := if from + 50 <= |at| then 50 else |at| - from;
    seq(n, i requires 0 <= i < n => segs[at[from + i]].text)
  }

  /** The `k`-th missing segment has the vector that the provider returns for its place in its batch of fifty, or none
      if the answer is too short. */
  ghost predicate AnsweredAt(segs: seq<Segment>, at: seq<nat>, embed: Provider, k: nat, r: Segment)
    requires Ordinals(segs, at) && k < |at|
  {
    var vectors := embed(BatchTexts(segs, at, BatchStart(k)));
    r == if k % 50 < |vectors| then Segment(segs[at[k]].text, Some(vectors[k % 50])) else segs[at[k]]
  }

  lemma FirstBatchAnswered(segs: seq<Segment>, at: seq<nat>, embed: Provider, k: nat)
    requires Ordinals(segs, at) && Distinct(at) && NoneAt(segs, at) && k < |at| && k < 50
    ensures AnsweredAt(segs, at, embed, k, FillBatches(segs, at, embed)[at[k]])
  {
    FirstBatchFilled(segs, at, embed);
    FirstBatchTexts(segs, at, k);
  }

  lemma FirstBatchTexts(segs: seq<Segment>, at: seq<nat>, k: nat)
    requires Ordinals(segs, at) && k < |at| && k < 50
    ensures BatchTexts(segs, at, BatchStart(k)) == Texts(segs, FirstBatch(at)) && k % 50 == k
    ensures k < |FirstBatch(at)| && FirstBatch(at)[k] == at[k]
  {
    var a, b := BatchTexts(segs, at, 0), Texts(segs, FirstBatch(at));
    assert BatchStart(k) == 0;
    forall i | 0 <= i < |a| ensures a[i] == b[i] {
      assert FirstBatch(at)[i] == at[i];
    }
  }

  lemma NextBatchTexts(segs: seq<Segment>, mid: seq<Segment>, at: seq<nat>, k: nat)
    requires 50 <= k < |at| && Ordinals(segs, at) && Extends(mid, segs) && Ordinals(mid, at[50..])
    ensures BatchTexts(mid, at[50..], BatchStart(k - 50)) == BatchTexts(segs, at, BatchStart(k))
    ensures (k - 50) % 50 == k % 50
  {
    var a, b := BatchTexts(mid, at[50..], BatchStart(k - 50)), BatchTexts(segs, at, BatchStart(k));
    assert BatchStart(k - 50) == BatchStart(k) - 50;
    forall i | 0 <= i < |a| ensures a[i] == b[i] {
      assert at[50..][BatchStart(k) - 50 + i] == at[BatchStart(k) + i];
    }
  }

  lemma NextBatchAnswered(segs: seq<Segment>, mid: seq<Segment>, at: seq<nat>, embed: Provider, k: nat, r: Segment)
    requires 50 <= k < |at| && Ordinals(segs, at) && Extends(mid, segs) && Ordinals(mid, at[50..])
    requires mid[at[k]] == segs[at[k]] && AnsweredAt(mid, at[50..], embed, k - 50, r)
    ensures AnsweredAt(segs, at, embed, k, r)
  {
    NextBatchTexts(segs, mid, at, k);
    assert at[50..][k - 50] == at[k];
  }

  /** What the batches after the first work on. */
  lemma OtherBatches(segs: seq<Segment>, at: seq<nat>, embed: Provider, k: nat) returns (mid: seq<Segment>)
    requires Ordinals(segs, at) && Distinct(at) && NoneAt(segs, at) && 50 <= k < |at|
    ensures Extends(mid, segs) && Ordinals(mid, at[50..]) && Distinct(at[50..]) && NoneAt(mid, at[50..])
    ensures mid[at[k]] == segs[at[k]] && at[50..][k - 50] == at[k]
    ensures FillBatches(segs, at, embed) == FillBatches(mid, at[50..], embed)
  {
    var vectors := embed(Texts(segs, FirstBatch(at)));
    mid := Fill(segs, FirstBatch(at), vectors);
    BatchStep(segs, at, vectors);
    assert at[50..][k - 50] == at[k];
  }

  /** So it is after all batches, whatever the provider. */
  lemma {:induction false} FilledAt(segs: seq<Segment>, at: seq<nat>, embed: Provider, k: nat)
    requires Ordinals(segs, at) && Distinct(at) && NoneAt(segs, at) && k < |at|
    ensures AnsweredAt(segs, at, embed, k, FillBatches(segs, at, embed)[at[k]])
    decreases |at|
  {
    if k < 50 {
      FirstBatchAnswered(segs, at, embed, k);
    } else {
      var mid := OtherBatches(segs, at, embed, k);
      FilledAt(mid, at[50..], embed, k - 50);
      NextBatchAnswered(segs, mid, at, embed, k, FillBatches(mid, at[50..], embed)[at[k]]);
    }
  }

  /** Two texts, one vector: the second segment stays without an embedding, and is counted all the same. */
  lemma ShortAnswer(a: string, b: string, v: Vector)
    ensures var segs := [Segment(a, None), Segment(b, None)];
            && EmbedSegments(segs, _ => [v]) == [Segment(a, Some(v)), Segment(b, None)]
            && |Missing(segs, |segs|)| == 2
  {
    var segs := [Segment(a, None), Segment(b, None)];
    assert Missing(segs, 1) == [0] && Missing(segs, 2) == [0, 1];
    assert FirstBatch([0, 1]) == [0, 1] && [0, 1][2..] == [];
    assert Fill(segs[0 := Segment(a, Some(v))], [1], []) == segs[0 := Segment(a, Some(v))];
    assert [0, 1][1..] == [1] && [v][1..] == [];
  }

  /** The provider answers text by text, in order. */
  ghost predicate Pointwise(embed: Provider, vectorOf: string -> Vector) {
    forall texts: seq<string> :: |embed(texts)| == |texts|
      && forall k | 0 <= k < |texts| :: embed(texts)[k] == vectorOf(texts[k])
  }

  lemma {:induction false} BatchesPointwise(segs: seq<Segment>, at: seq<nat>, embed: Provider,
                                            vectorOf: string -> Vector)
    requires Ordinals(segs, at) && Distinct(at) && NoneAt(segs, at) && Pointwise(embed, vectorOf)
    ensures forall k | 0 <= k < |at| ::
              FillBatches(segs, at, embed)[at[k]] == segs[at[k]].(embedding := Some(vectorOf(segs[at[k]].text)))
    decreases |at|
  {
    if at != [] {
      var batch := FirstBatch(at);
      var rest := at[|batch|..];
      var vectors := embed(Texts(segs, batch));
      BatchStep(segs, at, vectors);
      BatchesPointwise(Fill(segs, batch, vectors), rest, embed, vectorOf);
      FirstBatchFilled(segs, at, embed);
      forall k | 0 <= k < |at|
        ensures FillBatches(segs, at, embed)[at[k]] == segs[at[k]].(embedding := Some(vectorOf(segs[at[k]].text)))
      {
        if k < |batch| {
          assert batch[k] == at[k] && Texts(segs, batch)[k] == segs[batch[k]].text;
        } else {
          assert rest[k - |batch|] == at[k];
        }
      }
    }
  }

  /** Whatever the batch size, every segment without embedding gets the vector of its own text. */
  lemma EachSegmentItsOwnVector(segs: seq<Segment>, embed: Provider, vectorOf: string -> Vector, o: nat)
    requires Pointwise(embed, vectorOf) && o < |segs|
    ensures EmbedSegments(segs, embed)[o]
            == if segs[o].embedding.Some? then segs[o] else segs[o].(embedding := Some(vectorOf(segs[o].text)))
  {
    var at := Missing(segs, |segs|);
    MissingExactly(segs, |segs|);
    BatchesExtend(segs, at, embed);
    BatchesPointwise(segs, at, embed, vectorOf);
    if o in at {
      var k :| 0 <= k < |at| && at[k] == o;
    }
  }
}
