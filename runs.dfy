/**
 * Many Acquire calls within one second with shuffling on (balancer.go):
 * whatever order each call's shuffle leaves, a pool serves exactly its
 * total cap before Acquire hands out nothing.
 */
module ShuffledRuns {
  import opened Optional
  import opened Items
  import opened Pools
  import opened Exhaustion

  /** m Acquire calls in a row on a pool value, all within second `now`;
      picks(c + i) is the random source of the shuffle of the i-th call. */
  function Run<T>(p: Pool<T>, now: int, picks: nat -> nat -> nat, c: nat, m: nat): (d: Drained<T>)
    ensures |d.results| == m
    decreases m
  {
    if m == 0 then Drained([], p.entries)
    else
      var a := AcquireIn(p, now, picks(c));
      var rest := Run(a.pool, now, picks, c + 1, m - 1);
      Drained([a.got] + rest.results, rest.entries)
  }

  /** The requests an entry has accepted during second `now`, as a term of a total. */
  function UsageAt<T>(now: int): (w: Entry<T> -> int) {
    e => UsedAt(e, now)
  }

  /** The requests the whole pool has accepted during second `now`. */
  function Used<T>(es: seq<Entry<T>>, now: int): (u: int) {
    Total(es, UsageAt(now))
  }

  /** Every entry has a cap of at least one and has not gone over it in second `now`. */
  ghost predicate WithinCapAt<T>(es: seq<Entry<T>>, now: int) {
    forall e :: e in es ==> e.maxRequests >= 1 && UsedAt(e, now) <= e.maxRequests
  }

  /** Under the cap bound, an entry is saturated exactly when its usage of
      this second equals its cap. */
  lemma SaturatedAtCap<T>(e: Entry<T>, now: int)
    requires e.maxRequests >= 1 && UsedAt(e, now) <= e.maxRequests
    ensures Saturated(e, now) <==> UsedAt(e, now) == e.maxRequests
  {
    SaturatedMeansUsedUp(e, now);
  }

  /** The pool's usage never exceeds its total cap, and reaches it exactly
      when every entry is saturated. */
  lemma {:induction false} UsedWithinCapacity<T>(es: seq<Entry<T>>, now: int)
    requires WithinCapAt(es, now)
    ensures Used(es, now) <= Capacity(es)
    ensures Used(es, now) == Capacity(es) <==> forall j :: 0 <= j < |es| ==> Saturated(es[j], now)
  {
    if es != [] {
      assert es[0] in es;
      assert WithinCapAt(es[1..], now) by {
        forall e | e in es[1..] ensures e in es { }
      }
      UsedWithinCapacity(es[1..], now);
      SaturatedAtCap(es[0], now);
      forall j | 0 < j < |es| ensures es[1..][j - 1] == es[j] { }
    }
  }

  /** One Acquire on a pool within its caps: it keeps the caps and the total
      cap, hands out nothing exactly when the usage has reached the total cap,
      and otherwise raises the usage by exactly one. */
  lemma AcquireCounts<T>(p: Pool<T>, now: int, pick: nat -> nat)
    requires WithinCapAt(p.entries, now)
    ensures var a := AcquireIn(p, now, pick);
      && WithinCapAt(a.pool.entries, now)
      && Capacity(a.pool.entries) == Capacity(p.entries)
      && (a.got.None? <==> Used(p.entries, now) == Capacity(p.entries))
      && (a.got.Some? ==> Used(a.pool.entries, now) == Used(p.entries, now) + 1)
  {
    var order := ScanOrder(p, pick);
    AcquireKeepsCapacity(p, now, pick);
    AcquireNilIffSaturated(p, now, pick);
    UsedWithinCapacity(p.entries, now);
    TotalPermutation(order, p.entries, UsageAt(now));
    MembersOfPermutation(order, p.entries);
    var k := FirstFree(order, now);
    if k < |order| {
      var after := order[k := Claimed(order[k], now)];
      TotalUpdate(order, k, Claimed(order[k], now), UsageAt(now));
      assert order[k] in p.entries;
      SaturatedAtCap(order[k], now);
      forall e | e in after
        ensures e.maxRequests >= 1 && UsedAt(e, now) <= e.maxRequests
      {
        var j :| 0 <= j < |after| && after[j] == e;
        if j != k {
          assert e == order[j];
        }
      }
    }
  }

  /** From a pool within its caps, the calls succeed until the usage reaches
      the total cap, and the call after that hands out nothing. */
  lemma {:induction false} RunCounts<T>(p: Pool<T>, now: int, picks: nat -> nat -> nat, c: nat, m: nat)
    requires WithinCapAt(p.entries, now)
    requires m == Capacity(p.entries) - Used(p.entries, now) + 1
    ensures m >= 1
    ensures forall i :: 0 <= i < m - 1 ==> Run(p, now, picks, c, m).results[i].Some?
    ensures Run(p, now, picks, c, m).results[m - 1] == None
    decreases m
  {
    UsedWithinCapacity(p.entries, now);
    AcquireCounts(p, now, picks(c));
    var a := AcquireIn(p, now, picks(c));
    var d := Run(p, now, picks, c, m);
    var rest := Run(a.pool, now, picks, c + 1, m - 1);
    assert d.results == [a.got] + rest.results;
    if m > 1 {
      RunCounts(a.pool, now, picks, c + 1, m - 1);
      forall i | 0 < i < m
        ensures d.results[i] == rest.results[i - 1]
      {
      }
    }
  }

  /** TestShuffle, in general: a pool whose entries have caps of at least one
      and no use yet in second `now` serves exactly its total cap within that
      second however each call shuffles it (or with shuffling off), and the
      next call hands out nothing. */
  lemma ShuffledRunWithinOneSecond<T>(es: seq<Entry<T>>, shuffle: bool, now: int, picks: nat -> nat -> nat)
    requires FreshAt(es, now)
    ensures Capacity(es) >= 0
    ensures var d := Run(Pool(es, shuffle), now, picks, 0, Capacity(es) + 1);
      && (forall i :: 0 <= i < Capacity(es) ==> d.results[i].Some?)
      && d.results[Capacity(es)] == None
  {
    assert WithinCapAt(es, now);
    UsedWithinCapacity(es, now);
    TotalNonNegative(es, UsageAt(now));
    RunCounts(Pool(es, shuffle), now, picks, 0, Capacity(es) - Used(es, now) + 1);
    UsedIsZero(es, now);
  }

  /** A pool without use in second `now` has a usage of zero. */
  lemma {:induction false} UsedIsZero<T>(es: seq<Entry<T>>, now: int)
    requires forall j :: 0 <= j < |es| ==> UsedAt(es[j], now) == 0
    ensures Used(es, now) == 0
  {
    if es != [] {
      UsedIsZero(es[1..], now);
    }
  }
}
