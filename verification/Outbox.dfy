/** One worker polling the outbox: a batch of the oldest unprocessed events each time, each event in a transaction of
    its own, failed ones left for a later poll. Ids grow, so events that handlers add come last. */
module Outbox {
  import opened Domain
  import opened Embedding
  import opened Catalog
  import opened Pipeline

  /** Which attempts raise for a reason outside the tables: the same events every time. */
  type Failures = nat -> bool

  /** The ids below `n` of unprocessed events, ascending. */
  function Unprocessed(outbox: seq<Event>, n: nat): (ids: seq<nat>)
    requires n <= |outbox|
    ensures forall i | i in ids :: i < n && !outbox[i].processed
  {
    if n == 0 then []
    else if outbox[n - 1].processed then Unprocessed(outbox, n - 1)
    else Unprocessed(outbox, n - 1) + [n - 1]
  }

  /** The events one poll looks at. */
  function Window(s: State, batchSize: nat): seq<nat> {
    var ids := Unprocessed(s.outbox, |s.outbox|);
    if |ids| <= batchSize then ids else ids[..batchSize]
  }

  predicate Fails(s: State, fails: Failures, e: nat)
    requires e < |s.outbox|
  {
    fails(e) || (s.outbox[e].kind == VERSION_PUBLISHED && s.outbox[e].version >= |s.versions|)
  }

  function ProcessOne(s: State, e: nat, fails: Failures, provider: Option<Provider>): State {
    if e >= |s.outbox| || s.outbox[e].processed || fails(e) then s
    else
      var r := Dispatch(s, e, provider);
      if r.Err? then s else MarkProcessed(r.value, e)
  }

  function ProcessAll(s: State, ids: seq<nat>, fails: Failures, provider: Option<Provider>): State {
    if ids == [] then s
    else ProcessOne(ProcessAll(s, ids[..|ids| - 1], fails, provider), ids[|ids| - 1], fails, provider)
  }

  function Poll(s: State, batchSize: nat, fails: Failures, provider: Option<Provider>): State {
    ProcessAll(s, Window(s, batchSize), fails, provider)
  }

  function Polls(s: State, n: nat, batchSize: nat, fails: Failures, provider: Option<Provider>): State
    decreases n
  {
    if n == 0 then s else Polls(Poll(s, batchSize, fails, provider), n - 1, batchSize, fails, provider)
  }

  lemma ProcessAllStep(s: State, ids: seq<nat>, i: nat, fails: Failures, provider: Option<Provider>)
    requires i < |ids|
    ensures var mid := ProcessAll(s, ids[..i], fails, provider);
            && ProcessAll(s, ids[..i + 1], fails, provider) == ProcessOne(mid, ids[i], fails, provider)
            && Successes(s, ids[..i + 1], fails, provider)
               == Successes(s, ids[..i], fails, provider) + if Succeeds(mid, fails, ids[i]) then 1 else 0
  {
    assert ids[..i + 1][..i] == ids[..i];
  }

  // -------------------------------------------------- the effect of one poll

  /** `s'` has the events of `s`, those of `ids` that do not fail processed, followed by unprocessed reindex events;
      objects, versions and reviews are as before. */
  ghost predicate Processed(s: State, s': State, ids: seq<nat>, fails: Failures) {
    && s'.objects == s.objects && s'.versions == s.versions && s'.reviews == s.reviews
    && |s.outbox| <= |s'.outbox|
    && (forall e | 0 <= e < |s.outbox| ::
          s'.outbox[e] == if e in ids && !Fails(s, fails, e) then s.outbox[e].(processed := true) else s.outbox[e])
    && (forall e | |s.outbox| <= e < |s'.outbox| :: s'.outbox[e].kind == VERSION_REINDEXED && !s'.outbox[e].processed)
  }

  lemma {:induction false} ProcessAllEffect(s: State, ids: seq<nat>, fails: Failures, provider: Option<Provider>)
    requires forall e | e in ids :: e < |s.outbox|
    ensures Processed(s, ProcessAll(s, ids, fails, provider), ids, fails)
  {
    if ids != [] {
      var init, e := ids[..|ids| - 1], ids[|ids| - 1];
      assert ids == init + [e];
      var mid := ProcessAll(s, init, fails, provider);
      assert forall i | i in init :: i in ids;
      assert e in ids;
      ProcessAllEffect(s, init, fails, provider);
      var s' := ProcessOne(mid, e, fails, provider);
      assert Fails(mid, fails, e) == Fails(s, fails, e);
      assert forall i | 0 <= i < |mid.outbox| && i != e :: s'.outbox[i] == mid.outbox[i];
    }
  }

  lemma WindowIds(s: State, batchSize: nat)
    ensures forall e | e in Window(s, batchSize) :: e < |s.outbox| && !s.outbox[e].processed
  {
  }

  // --------------------------------------------------------- who gets a turn

  /** How many unprocessed events below `n` fail, and how many do not. */
  ghost function Failing(s: State, fails: Failures, n: nat): nat
    requires n <= |s.outbox|
  {
    if n == 0 then 0
    else Failing(s, fails, n - 1) + if !s.outbox[n - 1].processed && Fails(s, fails, n - 1) then 1 else 0
  }

  ghost function Healthy(s: State, fails: Failures, n: nat): nat
    requires n <= |s.outbox|
  {
    if n == 0 then 0
    else Healthy(s, fails, n - 1) + if !s.outbox[n - 1].processed && !Fails(s, fails, n - 1) then 1 else 0
  }

  lemma {:induction false} UnprocessedCount(s: State, fails: Failures, n: nat)
    requires n <= |s.outbox|
    ensures |Unprocessed(s.outbox, n)| == Failing(s, fails, n) + Healthy(s, fails, n)
  {
    if n > 0 {
      UnprocessedCount(s, fails, n - 1);
    }
  }

  lemma {:induction false} UnprocessedAt(outbox: seq<Event>, e: nat, n: nat)
    requires e < n <= |outbox| && !outbox[e].processed
    ensures |Unprocessed(outbox, e)| < |Unprocessed(outbox, n)|
    ensures Unprocessed(outbox, n)[|Unprocessed(outbox, e)|] == e
  {
    if e < n - 1 {
      UnprocessedAt(outbox, e, n - 1);
    }
  }

  lemma {:induction false} UnprocessedAscends(outbox: seq<Event>, n: nat)
    requires n <= |outbox|
    ensures forall i, k | 0 <= i < k < |Unprocessed(outbox, n)| :: Unprocessed(outbox, n)[i] < Unprocessed(outbox, n)[k]
  {
    if n > 0 {
      UnprocessedAscends(outbox, n - 1);
      var init := Unprocessed(outbox, n - 1);
      assert forall i | 0 <= i < |init| :: init[i] in init;
    }
  }

  lemma {:induction false} UnprocessedPrefix(outbox: seq<Event>, m: nat, n: nat)
    requires m <= n <= |outbox|
    ensures Unprocessed(outbox, m) <= Unprocessed(outbox, n)
  {
    if m < n {
      UnprocessedPrefix(outbox, m, n - 1);
    }
  }

  /** An unprocessed event is in the window exactly when fewer than a batch of unprocessed events precede it. */
  lemma InWindow(s: State, batchSize: nat, e: nat)
    requires e < |s.outbox| && !s.outbox[e].processed
    ensures e in Window(s, batchSize) <==> |Unprocessed(s.outbox, e)| < batchSize
  {
    var ids, k := Unprocessed(s.outbox, |s.outbox|), |Unprocessed(s.outbox, e)|;
    UnprocessedAt(s.outbox, e, |s.outbox|);
    UnprocessedAscends(s.outbox, |s.outbox|);
    var window := Window(s, batchSize);
    if k < batchSize {
      assert window[k] == e;
    }
  }

  /** If a batch or more of unprocessed events precede `n`, fewer than a batch of them failing, one that does not fail
      is among the first batch. */
  lemma {:induction false} SomeHealthyInWindow(s: State, fails: Failures, n: nat, batch: nat) returns (e: nat)
    requires n <= |s.outbox| && Failing(s, fails, n) < batch <= |Unprocessed(s.outbox, n)|
    ensures e < n && !s.outbox[e].processed && !Fails(s, fails, e) && |Unprocessed(s.outbox, e)| < batch
  {
    if s.outbox[n - 1].processed || |Unprocessed(s.outbox, n - 1)| >= batch {
      e := SomeHealthyInWindow(s, fails, n - 1, batch);
    } else if Fails(s, fails, n - 1) {
      e := SomeHealthyInWindow(s, fails, n - 1, batch - 1);
    } else {
      e := n - 1;
    }
  }

  lemma {:induction false} PollCounts(s: State, s': State, ids: seq<nat>, fails: Failures, n: nat)
    requires n <= |s.outbox| && Processed(s, s', ids, fails)
    ensures Failing(s', fails, n) == Failing(s, fails, n) && Healthy(s', fails, n) <= Healthy(s, fails, n)
    ensures (exists e :: 0 <= e < n && e in ids && !s.outbox[e].processed && !Fails(s, fails, e))
            ==> Healthy(s', fails, n) < Healthy(s, fails, n)
  {
    if n > 0 {
      PollCounts(s, s', ids, fails, n - 1);
      assert Fails(s', fails, n - 1) == Fails(s, fails, n - 1);
    }
  }

  lemma PollEffect(s: State, batchSize: nat, fails: Failures, provider: Option<Provider>)
    ensures Processed(s, Poll(s, batchSize, fails, provider), Window(s, batchSize), fails)
  {
    WindowIds(s, batchSize);
    ProcessAllEffect(s, Window(s, batchSize), fails, provider);
  }

  /** A poll that does not reach event `e` leaves its place as it is and fewer events to handle before it. */
  lemma TurnComesCloser(s: State, e: nat, batchSize: nat, fails: Failures, provider: Option<Provider>)
    requires e < |s.outbox| && !s.outbox[e].processed && !Fails(s, fails, e)
    requires Failing(s, fails, e) < batchSize
    ensures var s' := Poll(s, batchSize, fails, provider);
            && e < |s'.outbox|
            && (s'.outbox[e].processed
                || (!s'.outbox[e].processed && !Fails(s', fails, e) && Failing(s', fails, e) < batchSize
                    && Healthy(s', fails, e) < Healthy(s, fails, e)))
  {
    var s', ids := Poll(s, batchSize, fails, provider), Window(s, batchSize);
    PollEffect(s, batchSize, fails, provider);
    InWindow(s, batchSize, e);
    PollCounts(s, s', ids, fails, e);
    if e !in ids {
      var h := SomeHealthyInWindow(s, fails, e, batchSize);
      InWindow(s, batchSize, h);
    }
  }

  /** With fewer than a batch of failing events before it, an event that does not fail is processed in the end. */
  lemma {:induction false} GetsItsTurn(s: State, e: nat, batchSize: nat, fails: Failures, provider: Option<Provider>)
      returns (n: nat)
    requires e < |s.outbox| && !s.outbox[e].processed && !Fails(s, fails, e)
    requires Failing(s, fails, e) < batchSize
    ensures n <= Healthy(s, fails, e) + 1
    ensures var s' := Polls(s, n, batchSize, fails, provider); e < |s'.outbox| && s'.outbox[e].processed
    decreases Healthy(s, fails, e)
  {
    var s' := Poll(s, batchSize, fails, provider);
    TurnComesCloser(s, e, batchSize, fails, provider);
    var k := 0;
    if !s'.outbox[e].processed {
      k := GetsItsTurn(s', e, batchSize, fails, provider);
    }
    PollsStep(s, k, batchSize, fails, provider);
    n := k + 1;
  }

  /** With a batch or more of failing events before it, an event is never looked at, however many polls follow. */
  lemma {:induction false} Starves(s: State, e: nat, n: nat, batchSize: nat, fails: Failures,
                                   provider: Option<Provider>)
    requires e < |s.outbox| && !s.outbox[e].processed && Failing(s, fails, e) >= batchSize
    ensures var s' := Polls(s, n, batchSize, fails, provider); e < |s'.outbox| && !s'.outbox[e].processed
    decreases n
  {
    if n > 0 {
      var s', ids := Poll(s, batchSize, fails, provider), Window(s, batchSize);
      PollEffect(s, batchSize, fails, provider);
      UnprocessedCount(s, fails, e);
      InWindow(s, batchSize, e);
      PollCounts(s, s', ids, fails, e);
      Starves(s', e, n - 1, batchSize, fails, provider);
    }
  }

  /** With batches of one, a single failing event starves the one after it. */
  lemma StarvedByOne(s: State, n: nat, provider: Option<Provider>)
    requires s.outbox == [OTHER, OTHER]
    ensures !Fails(s, e => e == 0, 1)
    ensures var s' := Polls(s, n, 1, e => e == 0, provider); 1 < |s'.outbox| && !s'.outbox[1].processed
  {
    var fails: Failures := e => e == 0;
    assert Failing(s, fails, 1) == 1 by {
      assert Fails(s, fails, 0) && Failing(s, fails, 0) == 0;
    }
    Starves(s, 1, n, 1, fails, provider);
  }

  /** An unprocessed event that does not fail is processed by some later poll if and only if fewer than a batch of
      failing events precede it; whatever events handlers add meanwhile. */
  lemma ProcessedIffFewFailuresBefore(s: State, e: nat, batchSize: nat, fails: Failures, provider: Option<Provider>)
    requires e < |s.outbox| && !s.outbox[e].processed && !Fails(s, fails, e)
    ensures (exists n: nat :: var s' := Polls(s, n, batchSize, fails, provider);
                              e < |s'.outbox| && s'.outbox[e].processed)
            <==> Failing(s, fails, e) < batchSize
  {
    if Failing(s, fails, e) < batchSize {
      var n := GetsItsTurn(s, e, batchSize, fails, provider);
    } else {
      forall n: nat
        ensures var s' := Polls(s, n, batchSize, fails, provider); e < |s'.outbox| && !s'.outbox[e].processed {
        Starves(s, e, n, batchSize, fails, provider);
      }
    }
  }

  // ------------------------------------------------- work left and work done

  /** Steps still owed to the unprocessed events below `n` that do not fail: a publish event also brings a reindex
      event. */
  ghost function Weight(s: State, fails: Failures, n: nat): nat
    requires n <= |s.outbox|
  {
    if n == 0 then 0
    else
      Weight(s, fails, n - 1)
      + if s.outbox[n - 1].processed || Fails(s, fails, n - 1) then 0
        else if s.outbox[n - 1].kind == VERSION_PUBLISHED then 2 else 1
  }

  predicate Succeeds(s: State, fails: Failures, e: nat) {
    e < |s.outbox| && !s.outbox[e].processed && !Fails(s, fails, e)
  }

  /** How many events of `ids` get processed: the count `_poll_batch` returns. */
  function Successes(s: State, ids: seq<nat>, fails: Failures, provider: Option<Provider>): nat {
    if ids == [] then 0
    else
      Successes(s, ids[..|ids| - 1], fails, provider)
      + if Succeeds(ProcessAll(s, ids[..|ids| - 1], fails, provider), fails, ids[|ids| - 1]) then 1 else 0
  }

  /** Events that handlers add do not fail. */
  ghost predicate NewOnesSucceed(s: State, fails: Failures) {
    forall e: nat | e >= |s.outbox| :: !fails(e)
  }

  lemma {:induction false} WeightOf(s: State, s': State, e: nat, fails: Failures, n: nat)
    requires n <= |s.outbox| <= |s'.outbox| && s'.versions == s.versions && Succeeds(s, fails, e)
    requires forall i | 0 <= i < n :: s'.outbox[i] == if i == e then s.outbox[i].(processed := true) else s.outbox[i]
    ensures Weight(s', fails, n) == Weight(s, fails, n)
              - (if e >= n then 0 else if s.outbox[e].kind == VERSION_PUBLISHED then 2 else 1)
  {
    if n > 0 {
      WeightOf(s, s', e, fails, n - 1);
      assert n - 1 != e ==> Fails(s', fails, n - 1) == Fails(s, fails, n - 1);
    }
  }

  /** A processed event is one step less; for a publish event, two less and a reindex event more. */
  lemma OneStepLess(s: State, e: nat, fails: Failures, provider: Option<Provider>)
    requires NewOnesSucceed(s, fails)
    ensures var s' := ProcessOne(s, e, fails, provider);
            && NewOnesSucceed(s', fails)
            && Weight(s', fails, |s'.outbox|) == Weight(s, fails, |s.outbox|) - (if Succeeds(s, fails, e) then 1 else 0)
  {
    var s' := ProcessOne(s, e, fails, provider);
    if Succeeds(s, fails, e) {
      WeightOf(s, s', e, fails, |s.outbox|);
    }
  }

  /** Two per publish event and one per other event that does not fail: the measure drops by exactly the number of
      events a batch processes, although handlers add events. */
  lemma {:induction false} WorkDone(s: State, ids: seq<nat>, fails: Failures, provider: Option<Provider>)
    requires NewOnesSucceed(s, fails)
    ensures var s' := ProcessAll(s, ids, fails, provider);
            && NewOnesSucceed(s', fails)
            && Weight(s', fails, |s'.outbox|) == Weight(s, fails, |s.outbox|) - Successes(s, ids, fails, provider)
  {
    if ids != [] {
      var init, e := ids[..|ids| - 1], ids[|ids| - 1];
      WorkDone(s, init, fails, provider);
      OneStepLess(ProcessAll(s, init, fails, provider), e, fails, provider);
    }
  }

  /** How many of the listed events fail. */
  ghost function FailingAmong(s: State, fails: Failures, ids: seq<nat>): nat {
    if ids == [] then 0
    else
      var e := ids[|ids| - 1];
      FailingAmong(s, fails, ids[..|ids| - 1]) + if e < |s.outbox| && Fails(s, fails, e) then 1 else 0
  }

  lemma {:induction false} SuccessesAre(s: State, ids: seq<nat>, fails: Failures, provider: Option<Provider>)
    requires forall e | e in ids :: e < |s.outbox| && !s.outbox[e].processed
    requires forall i, k | 0 <= i < k < |ids| :: ids[i] < ids[k]
    ensures Successes(s, ids, fails, provider) == |ids| - FailingAmong(s, fails, ids)
  {
    if ids != [] {
      var init, e := ids[..|ids| - 1], ids[|ids| - 1];
      assert forall i | i in init :: i in ids;
      SuccessesAre(s, init, fails, provider);
      ProcessAllEffect(s, init, fails, provider);
      assert e in ids && e !in init;
    }
  }

  lemma FailingAmongSnoc(s: State, fails: Failures, ids: seq<nat>, e: nat)
    ensures FailingAmong(s, fails, ids + [e])
            == FailingAmong(s, fails, ids) + if e < |s.outbox| && Fails(s, fails, e) then 1 else 0
  {
    assert (ids + [e])[..|ids|] == ids;
  }

  lemma FailingAmongStep(s: State, fails: Failures, n: nat)
    requires 0 < n <= |s.outbox|
    ensures FailingAmong(s, fails, Unprocessed(s.outbox, n))
            == FailingAmong(s, fails, Unprocessed(s.outbox, n - 1))
               + if !s.outbox[n - 1].processed && Fails(s, fails, n - 1) then 1 else 0
  {
    var ids := Unprocessed(s.outbox, n - 1);
    if s.outbox[n - 1].processed {
      assert Unprocessed(s.outbox, n) == ids;
    } else {
      assert Unprocessed(s.outbox, n) == ids + [n - 1];
      FailingAmongSnoc(s, fails, ids, n - 1);
    }
  }

  lemma {:induction false} FailingAmongUnprocessed(s: State, fails: Failures, n: nat)
    requires n <= |s.outbox|
    ensures FailingAmong(s, fails, Unprocessed(s.outbox, n)) == Failing(s, fails, n)
  {
    if n > 0 {
      FailingAmongUnprocessed(s, fails, n - 1);
      FailingAmongStep(s, fails, n);
    }
  }

  lemma {:induction false} FailingAmongPrefix(s: State, fails: Failures, ids: seq<nat>, k: nat)
    requires k <= |ids|
    ensures FailingAmong(s, fails, ids[..k]) <= FailingAmong(s, fails, ids)
  {
    if k < |ids| {
      var init := ids[..|ids| - 1];
      assert ids[..k] == init[..k];
      FailingAmongPrefix(s, fails, init, k);
    } else {
      assert ids[..k] == ids;
    }
  }

  ghost function Min(a: int, b: int): int {
    if a <= b then a else b
  }

  /** The window is a prefix of the unprocessed ids, whole or a batch long. */
  lemma WindowIsPrefix(s: State, batchSize: nat)
    ensures var ids, window := Unprocessed(s.outbox, |s.outbox|), Window(s, batchSize);
            && |window| <= |ids| && window == ids[..|window|]
            && (window == ids || |window| == batchSize)
            && (forall i, k | 0 <= i < k < |window| :: window[i] < window[k])
  {
    UnprocessedAscends(s.outbox, |s.outbox|);
  }

  lemma WindowSuccesses(s: State, batchSize: nat, fails: Failures, provider: Option<Provider>)
    ensures var window := Window(s, batchSize);
            && Successes(s, window, fails, provider) == |window| - FailingAmong(s, fails, window)
            && FailingAmong(s, fails, window) <= Failing(s, fails, |s.outbox|)
            && (window == Unprocessed(s.outbox, |s.outbox|) ==>
                  FailingAmong(s, fails, window) == Failing(s, fails, |s.outbox|))
  {
    var ids, window := Unprocessed(s.outbox, |s.outbox|), Window(s, batchSize);
    WindowIsPrefix(s, batchSize);
    FailingAmongUnprocessed(s, fails, |s.outbox|);
    FailingAmongPrefix(s, fails, ids, |window|);
    WindowIds(s, batchSize);
    SuccessesAre(s, window, fails, provider);
  }

  /** One poll processes at least as many events as fit beside the failing ones, or all that do not fail; and the
      work left drops by as many. */
  lemma PollMakesProgress(s: State, batchSize: nat, fails: Failures, provider: Option<Provider>)
    ensures Successes(s, Window(s, batchSize), fails, provider)
            >= Min(batchSize - Failing(s, fails, |s.outbox|), Healthy(s, fails, |s.outbox|))
    ensures NewOnesSucceed(s, fails) ==>
              var s' := Poll(s, batchSize, fails, provider);
              Weight(s', fails, |s'.outbox|)
              == Weight(s, fails, |s.outbox|) - Successes(s, Window(s, batchSize), fails, provider)
  {
    WindowIsPrefix(s, batchSize);
    WindowSuccesses(s, batchSize, fails, provider);
    UnprocessedCount(s, fails, |s.outbox|);
    if NewOnesSucceed(s, fails) {
      WorkDone(s, Window(s, batchSize), fails, provider);
    }
  }

  lemma {:induction false} NewOnesDoNotFail(s: State, s': State, ids: seq<nat>, fails: Failures, n: nat)
    requires NewOnesSucceed(s, fails) && Processed(s, s', ids, fails) && |s.outbox| <= n <= |s'.outbox|
    ensures Failing(s', fails, n) == Failing(s', fails, |s.outbox|)
    decreases n
  {
    if n > |s.outbox| {
      NewOnesDoNotFail(s, s', ids, fails, n - 1);
    }
  }

  lemma {:induction false} HealthyBounded(s: State, fails: Failures, n: nat)
    requires n <= |s.outbox|
    ensures Healthy(s, fails, n) <= Weight(s, fails, n)
  {
    if n > 0 {
      HealthyBounded(s, fails, n - 1);
    }
  }

  /** After a poll the same events fail, and there is less work left if there was any. */
  lemma PollShrinks(s: State, batchSize: nat, fails: Failures, provider: Option<Provider>)
    requires Failing(s, fails, |s.outbox|) < batchSize && NewOnesSucceed(s, fails) && Healthy(s, fails, |s.outbox|) > 0
    ensures var s' := Poll(s, batchSize, fails, provider);
            && Failing(s', fails, |s'.outbox|) == Failing(s, fails, |s.outbox|) && NewOnesSucceed(s', fails)
            && Weight(s', fails, |s'.outbox|) < Weight(s, fails, |s.outbox|)
  {
    PollKeepsFailing(s, batchSize, fails, provider);
    PollMakesProgress(s, batchSize, fails, provider);
  }

  lemma PollKeepsFailing(s: State, batchSize: nat, fails: Failures, provider: Option<Provider>)
    requires NewOnesSucceed(s, fails)
    ensures var s' := Poll(s, batchSize, fails, provider);
            Failing(s', fails, |s'.outbox|) == Failing(s, fails, |s.outbox|) && NewOnesSucceed(s', fails)
  {
    var s', ids := Poll(s, batchSize, fails, provider), Window(s, batchSize);
    PollEffect(s, batchSize, fails, provider);
    PollCounts(s, s', ids, fails, |s.outbox|);
    NewOnesDoNotFail(s, s', ids, fails, |s'.outbox|);
  }

  /** While fewer than a batch of events fail, repeated polls process every event that does not, in no more polls than
      there is work at the start. */
  lemma {:induction false} PollsDrain(s: State, batchSize: nat, fails: Failures, provider: Option<Provider>)
      returns (n: nat)
    requires Failing(s, fails, |s.outbox|) < batchSize && NewOnesSucceed(s, fails)
    ensures n <= Weight(s, fails, |s.outbox|)
    ensures var s' := Polls(s, n, batchSize, fails, provider);
            && Healthy(s', fails, |s'.outbox|) == 0
            && Failing(s', fails, |s'.outbox|) == Failing(s, fails, |s.outbox|)
    decreases Weight(s, fails, |s.outbox|)
  {
    if Healthy(s, fails, |s.outbox|) == 0 {
      return 0;
    }
    PollShrinks(s, batchSize, fails, provider);
    var s' := Poll(s, batchSize, fails, provider);
    var k := PollsDrain(s', batchSize, fails, provider);
    PollsStep(s, k, batchSize, fails, provider);
    n := k + 1;
  }

  lemma PollsStep(s: State, k: nat, batchSize: nat, fails: Failures, provider: Option<Provider>)
    ensures Polls(s, k + 1, batchSize, fails, provider)
            == Polls(Poll(s, batchSize, fails, provider), k, batchSize, fails, provider)
  {
  }

  // --------------------------------------------- polling and the index together

  /** Processing one event is a claim by an idle worker followed by marking it. */
  lemma ProcessOneKeeps(s: State, e: nat, fails: Failures, provider: Option<Provider>)
    requires Sound(Config(s, map[])) && EmbedOk(Config(s, map[])) && Faithful(provider)
    ensures var c' := Config(ProcessOne(s, e, fails, provider), map[]); Sound(c') && EmbedOk(c')
  {
    var c := Config(s, map[]);
    if Succeeds(s, fails, e) {
      var c1 := Next(c, Handle(0, e, provider));
      StepKeepsSound(c, Handle(0, e, provider));
      StepKeepsEmbeddings(c, Handle(0, e, provider));
      assert c1.busy == map[0 := e];
      StepKeepsSound(c1, Finish(0));
      StepKeepsEmbeddings(c1, Finish(0));
      assert map[0 := e] - {0} == map[];
      assert Next(c1, Finish(0)) == Config(ProcessOne(s, e, fails, provider), map[]);
    }
  }

  lemma {:induction false} ProcessAllKeeps(s: State, ids: seq<nat>, fails: Failures, provider: Option<Provider>)
    requires Sound(Config(s, map[])) && EmbedOk(Config(s, map[])) && Faithful(provider)
    ensures var c' := Config(ProcessAll(s, ids, fails, provider), map[]); Sound(c') && EmbedOk(c')
  {
    if ids != [] {
      ProcessAllKeeps(s, ids[..|ids| - 1], fails, provider);
      ProcessOneKeeps(ProcessAll(s, ids[..|ids| - 1], fails, provider), ids[|ids| - 1], fails, provider);
    }
  }

  lemma {:induction false} PollsKeep(s: State, n: nat, batchSize: nat, fails: Failures, provider: Option<Provider>)
    requires Sound(Config(s, map[])) && EmbedOk(Config(s, map[])) && Faithful(provider)
    ensures var c' := Config(Polls(s, n, batchSize, fails, provider), map[]); Sound(c') && EmbedOk(c')
    decreases n
  {
    if n > 0 {
      ProcessAllKeeps(s, Window(s, batchSize), fails, provider);
      PollsKeep(Poll(s, batchSize, fails, provider), n - 1, batchSize, fails, provider);
    }
  }

  lemma {:induction false} AllProcessed(s: State, fails: Failures, n: nat)
    requires n <= |s.outbox| && Failing(s, fails, n) == 0 && Healthy(s, fails, n) == 0
    ensures forall e | 0 <= e < n :: s.outbox[e].processed
  {
    if n > 0 {
      AllProcessed(s, fails, n - 1);
    }
  }

  lemma {:induction false} NoFailures(s: State, fails: Failures, n: nat)
    requires n <= |s.outbox| && Linked(s) && forall e: nat :: !fails(e)
    ensures Failing(s, fails, n) == 0
  {
    if n > 0 {
      NoFailures(s, fails, n - 1);
      assert s.outbox[n - 1] in s.outbox;
    }
  }

  /** From any reachable state with idle workers: if no attempt fails, some number of polls, bounded by the work at the
      start, leaves every version fully embedded and every live version indexed as its current text is chunked. */
  lemma IndexCatchesUp(actions: seq<Action>, batchSize: nat, fails: Failures, provider: Option<Provider>)
      returns (n: nat)
    requires forall a | a in actions && a.Handle? :: Faithful(a.provider)
    requires ExecFrom(START, actions).busy == map[]
    requires batchSize > 0 && Faithful(provider) && forall e: nat :: !fails(e)
    ensures var s := ExecFrom(START, actions).s; n <= Weight(s, fails, |s.outbox|)
    ensures var t := Polls(ExecFrom(START, actions).s, n, batchSize, fails, provider);
            && (forall v: nat :: Complete(SegmentsOf(t, v)))
            && (forall o: nat, v: nat | Live(t, o, v) :: Indexed(t, v))
  {
    var s := ExecFrom(START, actions).s;
    RunIsSound(START, actions);
    RunEmbeds(START, actions);
    assert ExecFrom(START, actions) == Config(s, map[]);
    NoFailures(s, fails, |s.outbox|);
    n := PollsDrain(s, batchSize, fails, provider);
    PollsKeep(s, n, batchSize, fails, provider);
    var t := Polls(s, n, batchSize, fails, provider);
    AllProcessed(t, fails, |t.outbox|);
    assert forall kind, v: nat :: !Pending(Config(t, map[]), kind, v);
  }
}