/**
 * AcquireWait (balancer.go): one Acquire, then a retry loop paced by a ticker.
 *
 * Time is explicit. Instants are nanoseconds since the Unix epoch (Go's
 * time.Duration unit); the call starts at instant `start`, and the ticker
 * created right after the first Acquire fires at start + pace, start + 2 * pace, ...
 * Each round of the loop takes two ticks: the first is received by the
 * `for range`, after which the attempt counter is decremented; the second
 * is awaited by the select, which instead takes ctx.Done() if the context
 * was cancelled before that tick. The retry Acquire of round r thus runs at
 * instant start + (2 * r + 2) * pace.
 */
module Waiting {
  import opened Optional
  import opened Items
  import opened Pools

  /** time.Second, in nanoseconds. */
  const Second: int := 1_000_000_000

  /** The ticker period: a non-positive pause is replaced by one second. */
  function Pace(pause: int): (p: int)
    ensures p > 0
    ensures pause > 0 ==> p == pause
    ensures pause <= 0 ==> p == Second
  {
    if pause <= 0 then Second else pause
  }

  /** time.Time.Unix: the whole second containing instant t, rounding down. */
  function UnixSecond(t: int): (s: int)
    ensures s * Second <= t < s * Second + Second
  {
    t / Second
  }

  /** The context: the instant at which ctx.Done() is closed, if it ever is. */
  datatype Context = Context(cancelAt: Option<int>)

  /** The select sees ctx.Done() when the context was cancelled before the
      tick it waits for. (When both are ready at the same instant Go picks
      one at random; this model lets the tick win.) */
  predicate CancelledBefore(ctx: Context, t: int)
    ensures ctx.cancelAt.None? ==> !CancelledBefore(ctx, t)
  {
    ctx.cancelAt.Some? && ctx.cancelAt.value < t
  }

  /** Once seen, a cancellation stays seen at every later tick. */
  lemma CancellationPersists(ctx: Context, t: int, later: int)
    requires t <= later && CancelledBefore(ctx, t)
    ensures CancelledBefore(ctx, later)
  {
  }

  /** Why the call returned. The caller sees only the payload or nil; `Pending`
      means the call had not returned within the rounds observed. */
  datatype Ending = Acquired | Exhausted | Cancelled | Pending

  /** Outcome of AcquireWait: the payload (None for nil), why it ended, the
      pool afterwards, and how many retry Acquire calls it made. */
  datatype WaitRun<T> = WaitRun(got: Option<T>, ending: Ending, pool: Pool<T>, retries: nat)

  /** The instant of the select's tick in round `round`, when the retry Acquire runs. */
  function RetryAt(start: int, pace: int, round: nat): (t: int)
    ensures pace > 0 ==> t >= start + 2 * pace
  {
    start + (2 * round + 2) * pace
  }

  /** Consecutive retries are two ticks apart. */
  lemma RetryTickStep(start: int, pace: int, round: nat)
    ensures RetryAt(start, pace, round + 1) == RetryAt(start, pace, round) + 2 * pace
  {
  }

  /** With a positive period, a later round retries at a later instant. */
  lemma {:induction false} RetryTicksIncrease(start: int, pace: int, round: nat, later: nat)
    requires pace > 0 && round < later
    ensures RetryAt(start, pace, round) < RetryAt(start, pace, later)
    decreases later - round
  {
    RetryTickStep(start, pace, round);
    if round + 1 < later {
      RetryTicksIncrease(start, pace, round + 1, later);
    }
  }

  /** The loop from round `round` on; `attempts` is the counter before that
      round's decrement, `rounds` bounds the rounds observed, and picks(c) is
      the random source of the c-th Acquire call of this AcquireWait. */
  function Retry<T>(p: Pool<T>, ctx: Context, attempts: int, start: int, pace: int,
                    picks: nat -> nat -> nat, round: nat, rounds: nat): (w: WaitRun<T>)
    ensures w.got.Some? <==> w.ending == Acquired
    ensures w.retries >= round
    decreases rounds - round
  {
    if round >= rounds then WaitRun(None, Pending, p, round)
    else if attempts - 1 == 0 then WaitRun(None, Exhausted, p, round)
    else if CancelledBefore(ctx, RetryAt(start, pace, round)) then WaitRun(None, Cancelled, p, round)
    else
      var a := AcquireIn(p, UnixSecond(RetryAt(start, pace, round)), picks(round + 1));
      if a.got.Some? then WaitRun(a.got, Acquired, a.pool, round + 1)
      else Retry(a.pool, ctx, attempts - 1, start, pace, picks, round + 1, rounds)
  }

  /** AcquireWait on a pool value. */
  function Wait<T>(p: Pool<T>, ctx: Context, attempts: int, pause: int, start: int,
                   picks: nat -> nat -> nat, rounds: nat): (w: WaitRun<T>)
    ensures w.got.Some? <==> w.ending == Acquired
    ensures AcquireIn(p, UnixSecond(start), picks(0)).got.Some? ==>
              w == WaitRun(AcquireIn(p, UnixSecond(start), picks(0)).got, Acquired,
                           AcquireIn(p, UnixSecond(start), picks(0)).pool, 0)
  {
    var first := AcquireIn(p, UnixSecond(start), picks(0));
    if first.got.Some? then WaitRun(first.got, Acquired, first.pool, 0)
    else Retry(first.pool, ctx, attempts, start, Pace(pause), picks, 0, rounds)
  }

  /** The attempt counter: from round `round` with counter a >= 1, at most
      a - 1 more retries happen, and running out of attempts means exactly
      that many happened. A counter of zero or less is never used up. */
  lemma {:induction false} RetryCounting<T>(p: Pool<T>, ctx: Context, a: int, start: int, pace: int,
                                            picks: nat -> nat -> nat, round: nat, rounds: nat)
    ensures var w := Retry(p, ctx, a, start, pace, picks, round, rounds);
      && (a >= 1 ==> w.retries <= round + a - 1)
      && (w.ending == Exhausted ==> a >= 1 && w.retries == round + a - 1)
      && (round <= rounds ==> w.retries <= rounds)
    decreases rounds - round
  {
    if round < rounds && a - 1 != 0 && !CancelledBefore(ctx, RetryAt(start, pace, round)) {
      var a' := AcquireIn(p, UnixSecond(RetryAt(start, pace, round)), picks(round + 1));
      if a'.got.None? {
        RetryCounting(a'.pool, ctx, a - 1, start, pace, picks, round + 1, rounds);
      }
    }
  }

  /** With attempts = n >= 1, AcquireWait makes at most n - 1 retries and, if
      it runs out of attempts, exactly n - 1; with attempts <= 0 it never runs
      out: only an acquisition or a cancellation ends it. */
  lemma AttemptBudget<T>(p: Pool<T>, ctx: Context, attempts: int, pause: int, start: int,
                         picks: nat -> nat -> nat, rounds: nat)
    ensures var w := Wait(p, ctx, attempts, pause, start, picks, rounds);
      && (attempts >= 1 ==> w.retries <= attempts - 1)
      && (w.ending == Exhausted ==> attempts >= 1 && w.retries == attempts - 1)
      && (attempts <= 0 ==> w.ending != Exhausted)
      && w.retries <= rounds
  {
    var first := AcquireIn(p, UnixSecond(start), picks(0));
    if first.got.None? {
      RetryCounting(first.pool, ctx, attempts, start, Pace(pause), picks, 0, rounds);
    }
  }

  /** Cancellation is seen only at the select: every retry of the call ran at
      a tick no later than the cancellation instant, and a cancelled call
      returns nil. */
  lemma {:induction false} RetriesPrecedeCancel<T>(p: Pool<T>, ctx: Context, a: int, start: int, pace: int,
                                                   picks: nat -> nat -> nat, round: nat, rounds: nat)
    requires ctx.cancelAt.Some? && pace > 0
    requires round > 0 ==> ctx.cancelAt.value >= RetryAt(start, pace, round - 1)
    ensures var w := Retry(p, ctx, a, start, pace, picks, round, rounds);
      w.retries > 0 ==> ctx.cancelAt.value >= RetryAt(start, pace, w.retries - 1)
    decreases rounds - round
  {
    if round < rounds && a - 1 != 0 && !CancelledBefore(ctx, RetryAt(start, pace, round)) {
      var a' := AcquireIn(p, UnixSecond(RetryAt(start, pace, round)), picks(round + 1));
      if a'.got.None? {
        RetriesPrecedeCancel(a'.pool, ctx, a - 1, start, pace, picks, round + 1, rounds);
      }
    }
  }

  /** Cancellation ends the loop: once the select of some observed round
      waits for a tick after the cancellation instant, the call has returned
      by then, whatever attempts remain. */
  lemma {:induction false} CancelEndsLoop<T>(p: Pool<T>, ctx: Context, a: int, start: int, pace: int,
                                             picks: nat -> nat -> nat, round: nat, rounds: nat)
    requires ctx.cancelAt.Some? && pace > 0 && round < rounds
    requires ctx.cancelAt.value < RetryAt(start, pace, rounds - 1)
    ensures Retry(p, ctx, a, start, pace, picks, round, rounds).ending != Pending
    decreases rounds - round
  {
    if a - 1 != 0 && !CancelledBefore(ctx, RetryAt(start, pace, round)) {
      var a' := AcquireIn(p, UnixSecond(RetryAt(start, pace, round)), picks(round + 1));
      if a'.got.None? {
        assert round + 1 < rounds;
        CancelEndsLoop(a'.pool, ctx, a - 1, start, pace, picks, round + 1, rounds);
      }
    }
  }

  /** AcquireWait returns once cancelled: a context cancelled before the tick
      of the last observed round's select ends the call within those rounds. */
  lemma CancelEndsWait<T>(p: Pool<T>, ctx: Context, attempts: int, pause: int, start: int,
                          picks: nat -> nat -> nat, rounds: nat)
    requires ctx.cancelAt.Some? && rounds >= 1
    requires ctx.cancelAt.value < RetryAt(start, Pace(pause), rounds - 1)
    ensures Wait(p, ctx, attempts, pause, start, picks, rounds).ending != Pending
  {
    var first := AcquireIn(p, UnixSecond(start), picks(0));
    if first.got.None? {
      CancelEndsLoop(first.pool, ctx, attempts, start, Pace(pause), picks, 0, rounds);
    }
  }

  /** A context cancelled before the first select tick makes a call whose
      first Acquire failed return nil without any retry, unless the attempt
      counter already ran out at the first tick. */
  lemma CancelledBeforeFirstTick<T>(p: Pool<T>, ctx: Context, attempts: int, pause: int, start: int,
                                    picks: nat -> nat -> nat, rounds: nat)
    requires AcquireIn(p, UnixSecond(start), picks(0)).got.None?
    requires CancelledBefore(ctx, start + 2 * Pace(pause))
    requires attempts != 1 && rounds >= 1
    ensures Wait(p, ctx, attempts, pause, start, picks, rounds) ==
            WaitRun(None, Cancelled, AcquireIn(p, UnixSecond(start), picks(0)).pool, 0)
  {
  }

  /** A non-positive pause paces the loop like a pause of one second. */
  lemma DefaultPause<T>(p: Pool<T>, ctx: Context, attempts: int, pause: int, start: int,
                        picks: nat -> nat -> nat, rounds: nat)
    requires pause <= 0
    ensures Wait(p, ctx, attempts, pause, start, picks, rounds) ==
            Wait(p, ctx, attempts, Second, start, picks, rounds)
  {
  }

  /** A pool that is all saturated in second s, with shuffling off, fails
      every Acquire of that second and is left as it was. */
  lemma SaturatedPoolRefuses<T>(p: Pool<T>, s: int, pick: nat -> nat)
    requires !p.shuffle
    requires forall j :: 0 <= j < |p.entries| ==> Saturated(p.entries[j], s)
    ensures AcquireIn(p, s, pick) == Acquisition(None, p)
  {
    AcquireNilIffSaturated(p, s, pick);
  }

  /** Retrying while every tick stays in the second the pool was used up in:
      the attempts run out after exactly a - 1 retries and nil is returned. */
  lemma {:induction false} RetryExhausts<T>(p: Pool<T>, ctx: Context, a: int, start: int, pace: int,
                                            picks: nat -> nat -> nat, round: nat, rounds: nat)
    requires !p.shuffle && ctx.cancelAt.None? && a >= 1 && round + a - 1 < rounds
    requires forall j :: 0 <= j < |p.entries| ==> Saturated(p.entries[j], UnixSecond(start))
    requires forall r :: round <= r < round + a - 1 ==> UnixSecond(RetryAt(start, pace, r)) == UnixSecond(start)
    ensures Retry(p, ctx, a, start, pace, picks, round, rounds) == WaitRun(None, Exhausted, p, round + a - 1)
    decreases a
  {
    if a > 1 {
      assert UnixSecond(RetryAt(start, pace, round)) == UnixSecond(start);
      SaturatedPoolRefuses(p, UnixSecond(start), picks(round + 1));
      RetryExhausts(p, ctx, a - 1, start, pace, picks, round + 1, rounds);
    }
  }

  /** Retrying on a pool used up in the starting second: the first retry whose
      tick falls in a later second hands out the payload of the first entry,
      if the counter lets the loop reach it. A counter of zero or less always does. */
  lemma {:induction false} RetryAfterRollover<T>(p: Pool<T>, ctx: Context, a: int, start: int, pace: int,
                                                 picks: nat -> nat -> nat, round: nat, rounds: nat, k: nat)
    requires !p.shuffle && ctx.cancelAt.None? && |p.entries| > 0
    requires forall j :: 0 <= j < |p.entries| ==> Saturated(p.entries[j], UnixSecond(start))
    requires round <= k < rounds && (a <= 0 || k <= round + a - 2)
    requires forall r :: round <= r < k ==> UnixSecond(RetryAt(start, pace, r)) == UnixSecond(start)
    requires UnixSecond(RetryAt(start, pace, k)) != UnixSecond(start)
    ensures Retry(p, ctx, a, start, pace, picks, round, rounds).got == Some(p.entries[0].item)
    ensures Retry(p, ctx, a, start, pace, picks, round, rounds).retries == k + 1
    ensures Retry(p, ctx, a, start, pace, picks, round, rounds).pool
            == Pool(p.entries[0 := Claimed(p.entries[0], UnixSecond(RetryAt(start, pace, k)))], false)
    decreases k - round
  {
    if round < k {
      assert UnixSecond(RetryAt(start, pace, round)) == UnixSecond(start);
      SaturatedPoolRefuses(p, UnixSecond(start), picks(round + 1));
      RetryAfterRollover(p, ctx, a - 1, start, pace, picks, round + 1, rounds, k);
    } else {
      var t := UnixSecond(RetryAt(start, pace, k));
      AcquireUnshuffled(p, t, picks(k + 1), 0);
    }
  }

  /** Wait exhaustion: a pool used up in the starting second, a counter of
      n >= 1 and ticks that all stay in that second give nil after n - 1 retries. */
  lemma WaitGivesUp<T>(p: Pool<T>, ctx: Context, attempts: int, pause: int, start: int,
                       picks: nat -> nat -> nat, rounds: nat)
    requires !p.shuffle && ctx.cancelAt.None? && 1 <= attempts <= rounds
    requires forall j :: 0 <= j < |p.entries| ==> Saturated(p.entries[j], UnixSecond(start))
    requires forall r :: 0 <= r < attempts - 1 ==> UnixSecond(RetryAt(start, Pace(pause), r)) == UnixSecond(start)
    ensures Wait(p, ctx, attempts, pause, start, picks, rounds) == WaitRun(None, Exhausted, p, attempts - 1)
  {
    SaturatedPoolRefuses(p, UnixSecond(start), picks(0));
    RetryExhausts(p, ctx, attempts, start, Pace(pause), picks, 0, rounds);
  }

  /** Wait success: on a pool used up in the starting second, the first retry
      that falls in a later second succeeds, provided the counter reaches it;
      with attempts <= 0 it always does. */
  lemma WaitSucceedsAfterRollover<T>(p: Pool<T>, ctx: Context, attempts: int, pause: int, start: int,
                                     picks: nat -> nat -> nat, rounds: nat, k: nat)
    requires !p.shuffle && ctx.cancelAt.None? && |p.entries| > 0
    requires forall j :: 0 <= j < |p.entries| ==> Saturated(p.entries[j], UnixSecond(start))
    requires k < rounds && (attempts <= 0 || k <= attempts - 2)
    requires forall r :: 0 <= r < k ==> UnixSecond(RetryAt(start, Pace(pause), r)) == UnixSecond(start)
    requires UnixSecond(RetryAt(start, Pace(pause), k)) != UnixSecond(start)
    ensures Wait(p, ctx, attempts, pause, start, picks, rounds).got == Some(p.entries[0].item)
    ensures Wait(p, ctx, attempts, pause, start, picks, rounds).retries == k + 1
    ensures Wait(p, ctx, attempts, pause, start, picks, rounds).pool
            == Pool(p.entries[0 := Claimed(p.entries[0], UnixSecond(RetryAt(start, Pace(pause), k)))], false)
  {
    SaturatedPoolRefuses(p, UnixSecond(start), picks(0));
    RetryAfterRollover(p, ctx, a := attempts, start := start, pace := Pace(pause), picks := picks,
                       round := 0, rounds := rounds, k := k);
  }

  /** The instant synctest's fake clock starts at: 2000-01-01 00:00:00 UTC. */
  const SyncTestEpoch: int := 946_684_800 * Second

  /** TestAcquireWait, with every entry used up in the first second: a
      pause of Second/20 with 3 attempts retries at 100 ms and 200 ms, still
      in that second, and returns nil; the next call, starting at 250 ms with
      a pause of Second/3, fails its retry at about 917 ms and succeeds at
      about 1583 ms, in the next second, with the first entry. */
  lemma TestAcquireWaitTimeline<T>(es: seq<Entry<T>>, picks: nat -> nat -> nat)
    requires |es| > 0
    requires forall j :: 0 <= j < |es| ==> Saturated(es[j], UnixSecond(SyncTestEpoch))
    ensures Wait(Pool(es, false), Context(None), 3, Second / 20, SyncTestEpoch, picks, 3).got == None
    ensures Wait(Pool(es, false), Context(None), 3, Second / 3, SyncTestEpoch + 250_000_000, picks, 2).got
            == Some(es[0].item)
  {
    var p := Pool(es, false);
    assert UnixSecond(SyncTestEpoch + 100_000_000) == UnixSecond(SyncTestEpoch);
    assert UnixSecond(SyncTestEpoch + 200_000_000) == UnixSecond(SyncTestEpoch);
    WaitGivesUp(p, Context(None), 3, Second / 20, SyncTestEpoch, picks, 3);
    var later := SyncTestEpoch + 250_000_000;
    assert UnixSecond(later) == UnixSecond(SyncTestEpoch);
    assert UnixSecond(RetryAt(later, Pace(Second / 3), 0)) == UnixSecond(later);
    assert UnixSecond(RetryAt(later, Pace(Second / 3), 1)) == UnixSecond(later) + 1;
    WaitSucceedsAfterRollover(p, Context(None), 3, Second / 3, later, picks, 2, 1);
  }

  /** TestAcquireWait, last part: with the pool used up again in the second
      after the epoch, a call at about 1583 ms with a pause of -10 paces at
      one second, retries at about 3583 ms and gets the first entry; a call
      with a pause of 0 at that instant then gets the second entry at once,
      the first being used up again at a cap of one. */
  lemma TestDefaultPauseTimeline<T>(es: seq<Entry<T>>, picks: nat -> nat -> nat)
    requires |es| > 1 && es[0].maxRequests == 1
    requires forall j :: 0 <= j < |es| ==> Saturated(es[j], UnixSecond(SyncTestEpoch) + 1)
    ensures var w := Wait(Pool(es, false), Context(None), 3, -10, SyncTestEpoch + 1_583_333_332, picks, 1);
      && w.got == Some(es[0].item)
      && Wait(w.pool, Context(None), 3, 0, SyncTestEpoch + 3_583_333_332, picks, 1).got == Some(es[1].item)
  {
    var start := SyncTestEpoch + 1_583_333_332;
    var retried := SyncTestEpoch + 3_583_333_332;
    assert UnixSecond(start) == UnixSecond(SyncTestEpoch) + 1;
    assert RetryAt(start, Pace(-10), 0) == retried;
    assert UnixSecond(retried) == UnixSecond(SyncTestEpoch) + 3;
    WaitSucceedsAfterRollover(Pool(es, false), Context(None), 3, -10, start, picks, 1, 0);
    var after := Pool(es[0 := Claimed(es[0], UnixSecond(retried))], false);
    assert Saturated(after.entries[0], UnixSecond(retried));
    AcquireUnshuffled(after, UnixSecond(retried), picks(0), 1);
  }

  /** AcquireWait with attempts <= 0 on a pool used up in the current second:
      the counter never runs out, so the first retry, at the second tick of
      the default one-second pace (two seconds later, in a later second),
      hands out the first entry and claims it. */
  lemma NonPositiveAttemptsSucceed<T>(es: seq<Entry<T>>, attempts: int, picks: nat -> nat -> nat)
    requires |es| > 0 && attempts <= 0
    requires forall j :: 0 <= j < |es| ==> Saturated(es[j], UnixSecond(SyncTestEpoch))
    ensures var w := Wait(Pool(es, false), Context(None), attempts, 0, SyncTestEpoch, picks, 1);
      && w.got == Some(es[0].item)
      && w.retries == 1
      && w.pool == Pool(es[0 := Claimed(es[0], UnixSecond(SyncTestEpoch) + 2)], false)
  {
    assert UnixSecond(RetryAt(SyncTestEpoch, Pace(0), 0)) == UnixSecond(SyncTestEpoch) + 2;
    WaitSucceedsAfterRollover(Pool(es, false), Context(None), attempts, 0, SyncTestEpoch, picks, 1, 0);
  }
}
