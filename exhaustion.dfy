/**
 * Many Acquire calls within one second, shuffling off: how a pool is used
 * up entry by entry, and how it comes back when the second changes.
 */
module Exhaustion {
  import opened Optional
  import opened Items
  import opened Pools

  /** The results of m successive Acquire calls within second `now`, and the entries afterwards. */
  datatype Drained<T> = Drained(results: seq<Option<T>>, entries: seq<Entry<T>>)

  /** Same payloads and caps, position by position: only counters and seconds may differ. */
  ghost predicate SameItems<T>(a: seq<Entry<T>>, b: seq<Entry<T>>) {
    |a| == |b| &&
    forall j :: 0 <= j < |a| ==> a[j].item == b[j].item && a[j].maxRequests == b[j].maxRequests
  }

  /** m Acquire calls in a row, all within second `now`, with shuffling off. */
  function Drain<T>(es: seq<Entry<T>>, now: int, m: nat): (d: Drained<T>)
    ensures |d.results| == m
    decreases m
  {
    if m == 0 then Drained([], es)
    else
      var s := Scan(es, now);
      var rest := Drain(s.entries, now, m - 1);
      Drained([s.got] + rest.results, rest.entries)
  }

  /** Acquire calls change counters and seconds only, never payloads, caps or their order. */
  lemma {:induction false} DrainKeepsItems<T>(es: seq<Entry<T>>, now: int, m: nat)
    ensures SameItems(Drain(es, now, m).entries, es)
    decreases m
  {
    if m > 0 {
      var s := Scan(es, now);
      DrainKeepsItems(s.entries, now, m - 1);
      var k := FirstFree(es, now);
      if k < |es| {
        assert s.entries == es[k := Claimed(es[k], now)];
      }
    }
  }

  /** n copies of x (none when n <= 0). */
  function Repeat<X>(x: X, n: int): (r: seq<X>)
    ensures |r| == if n <= 0 then 0 else n
    ensures forall i :: 0 <= i < |r| ==> r[i] == x
  {
    if n <= 0 then [] else [x] + Repeat(x, n - 1)
  }

  /** The order in which a fresh pool hands out its payloads: each entry's
      payload as many times as its cap, entries in list order. */
  function Expected<T>(es: seq<Entry<T>>): (r: seq<Option<T>>) {
    if es == [] then [] else Repeat(Some(es[0].item), es[0].maxRequests) + Expected(es[1..])
  }

  /** An entry whose counter of second `now` has reached its cap exactly. */
  function Full<T>(e: Entry<T>, now: int): (f: Entry<T>) {
    e.(timestamp := now, numRequests := e.maxRequests)
  }

  /** Every entry used up in second `now`. */
  function Filled<T>(es: seq<Entry<T>>, now: int): (r: seq<Entry<T>>)
    ensures |r| == |es|
    ensures forall j :: 0 <= j < |es| ==> r[j] == Full(es[j], now)
  {
    seq(|es|, j requires 0 <= j < |es| => Full(es[j], now))
  }

  /** No entry has been used in second `now`, and every cap is at least one. */
  ghost predicate FreshAt<T>(es: seq<Entry<T>>, now: int) {
    forall j :: 0 <= j < |es| ==> es[j].maxRequests >= 1 && UsedAt(es[j], now) == 0
  }

  /** a + b calls are a calls followed by b calls. */
  lemma {:induction false} DrainAppend<T>(es: seq<Entry<T>>, now: int, a: nat, b: nat)
    ensures Drain(es, now, a + b) ==
            Drained(Drain(es, now, a).results + Drain(Drain(es, now, a).entries, now, b).results,
                    Drain(Drain(es, now, a).entries, now, b).entries)
    decreases a
  {
    if a == 0 {
      var d := Drain(es, now, b);
      assert a + b == b;
      assert Drain(es, now, a) == Drained([], es);
      assert [] + d.results == d.results;
    } else {
      var s := Scan(es, now);
      var first := Drain(s.entries, now, a - 1);
      var second := Drain(first.entries, now, b);
      assert Drain(s.entries, now, a - 1 + b) == Drained(first.results + second.results, second.entries) by {
        DrainAppend(s.entries, now, a - 1, b);
      }
      assert Drain(es, now, a) == Drained([s.got] + first.results, first.entries);
      assert Drain(es, now, a + b) == Drained([s.got] + (first.results + second.results), second.entries);
      assert [s.got] + (first.results + second.results) == ([s.got] + first.results) + second.results;
    }
  }

  /** With every entry before i used up and entry i at usage u below its cap,
      the next cap - u calls all hand out entry i's payload and use it up. */
  lemma {:induction false} DrainOneEntry<T>(es: seq<Entry<T>>, now: int, i: nat, u: int, m: nat)
    requires i < |es| && es[i].maxRequests >= 1
    requires 0 <= u == UsedAt(es[i], now) < es[i].maxRequests
    requires m == es[i].maxRequests - u
    requires forall j :: 0 <= j < i ==> Saturated(es[j], now)
    ensures Drain(es, now, m) == Drained(Repeat(Some(es[i].item), m), es[i := Full(es[i], now)])
    decreases m
  {
    var c := Claimed(es[i], now);
    var next := es[i := c];
    ScanFirstFit(es, now, i);
    if m > 1 {
      DrainOneEntry(next, now, i, u + 1, m - 1);
      assert next[i := Full(next[i], now)] == es[i := Full(es[i], now)];
      assert [Some(es[i].item)] + Repeat(Some(es[i].item), m - 1) == Repeat(Some(es[i].item), m);
    } else {
      assert c == Full(es[i], now);
    }
  }

  lemma {:induction false} CapacityFront<T>(es: seq<Entry<T>>, i: nat)
    requires i < |es|
    ensures Capacity(es[i..]) == es[i].maxRequests + Capacity(es[i + 1..])
    ensures Expected(es[i..]) == Repeat(Some(es[i].item), es[i].maxRequests) + Expected(es[i + 1..])
  {
    assert es[i..][0] == es[i];
    assert es[i..][1..] == es[i + 1..];
  }

  lemma FreshAtTail<T>(es: seq<Entry<T>>, now: int, i: nat)
    requires i < |es| && FreshAt(es[i..], now)
    ensures es[i].maxRequests >= 1 && UsedAt(es[i], now) == 0
    ensures FreshAt(es[i + 1..], now)
  {
    assert es[i..][0] == es[i];
    var rest, tail := es[i..], es[i + 1..];
    forall j | 0 <= j < |tail|
      ensures tail[j].maxRequests >= 1 && UsedAt(tail[j], now) == 0
    {
      assert tail[j] == rest[j + 1];
    }
  }

  /** A pool of caps of at least one has a total cap of at least its size. */
  lemma {:induction false} FreshCapacity<T>(es: seq<Entry<T>>, now: int)
    requires FreshAt(es, now)
    ensures Capacity(es) >= |es|
  {
    if es != [] {
      FreshAtTail(es, now, 0);
      assert es[0..] == es;
      FreshCapacity(es[1..], now);
    }
  }

  /** Entries i.. are fresh and those before are used up: draining the rest
      of the capacity, n calls, hands out the rest of the expected order. */
  lemma {:induction false} DrainFrom<T>(es: seq<Entry<T>>, now: int, i: nat, n: nat)
    requires i <= |es|
    requires forall j :: 0 <= j < i ==> es[j].maxRequests >= 1 && es[j] == Full(es[j], now)
    requires FreshAt(es[i..], now)
    requires n == Capacity(es[i..])
    ensures Drain(es, now, n) == Drained(Expected(es[i..]), Filled(es, now))
    decreases |es| - i, 1
  {
    if i == |es| {
      assert es[i..] == [];
      assert es == Filled(es, now);
    } else {
      DrainFromEntry(es, now, i, n);
    }
  }

  /** The step of DrainFrom: entry i is used up first, then the rest. */
  lemma {:induction false} DrainFromEntry<T>(es: seq<Entry<T>>, now: int, i: nat, n: nat)
    requires i < |es|
    requires forall j :: 0 <= j < i ==> es[j].maxRequests >= 1 && es[j] == Full(es[j], now)
    requires FreshAt(es[i..], now)
    requires n == Capacity(es[i..])
    ensures Drain(es, now, n) == Drained(Expected(es[i..]), Filled(es, now))
    decreases |es| - i, 0
  {
    var c := es[i].maxRequests;
    var next := es[i := Full(es[i], now)];
    var r := Capacity(es[i + 1..]);
    UseUpEntry(es, now, i);
    AfterEntry(es, now, i);
    DrainFrom(next, now, i + 1, r);
    DrainRuns(es, now, c, r, n, Repeat(Some(es[i].item), c), next, Expected(es[i + 1..]), Filled(es, now));
  }

  /** Entry i of such a pool takes the next cap-many calls. */
  lemma UseUpEntry<T>(es: seq<Entry<T>>, now: int, i: nat)
    requires i < |es|
    requires forall j :: 0 <= j < i ==> es[j].maxRequests >= 1 && es[j] == Full(es[j], now)
    requires FreshAt(es[i..], now)
    ensures es[i].maxRequests >= 1
    ensures Drain(es, now, es[i].maxRequests) ==
            Drained(Repeat(Some(es[i].item), es[i].maxRequests), es[i := Full(es[i], now)])
  {
    FreshAtTail(es, now, i);
    assert forall j :: 0 <= j < i ==> Saturated(es[j], now);
    DrainOneEntry(es, now, i, 0, es[i].maxRequests);
  }

  /** Once entry i is used up, entries i + 1.. are the fresh rest, and the
      capacity and the order split at entry i. */
  lemma AfterEntry<T>(es: seq<Entry<T>>, now: int, i: nat)
    requires i < |es|
    requires forall j :: 0 <= j < i ==> es[j].maxRequests >= 1 && es[j] == Full(es[j], now)
    requires FreshAt(es[i..], now)
    ensures var next := es[i := Full(es[i], now)];
      && (forall j :: 0 <= j < i + 1 ==> next[j].maxRequests >= 1 && next[j] == Full(next[j], now))
      && FreshAt(next[i + 1..], now)
      && next[i + 1..] == es[i + 1..]
      && Filled(next, now) == Filled(es, now)
    ensures Capacity(es[i + 1..]) >= 0
    ensures Capacity(es[i..]) == es[i].maxRequests + Capacity(es[i + 1..])
    ensures Expected(es[i..]) == Repeat(Some(es[i].item), es[i].maxRequests) + Expected(es[i + 1..])
  {
    var next := es[i := Full(es[i], now)];
    FreshAtTail(es, now, i);
    assert next[i + 1..] == es[i + 1..];
    FreshCapacity(es[i + 1..], now);
    CapacityFront(es, i);
  }

  /** A run of c calls followed by a run of r calls, each known, make n = c + r calls. */
  lemma DrainRuns<T>(es: seq<Entry<T>>, now: int, c: nat, r: nat, n: nat, first: seq<Option<T>>,
                     middle: seq<Entry<T>>, second: seq<Option<T>>, last: seq<Entry<T>>)
    requires n == c + r
    requires Drain(es, now, c) == Drained(first, middle)
    requires Drain(middle, now, r) == Drained(second, last)
    ensures Drain(es, now, n) == Drained(first + second, last)
  {
    DrainAppend(es, now, c, r);
  }

  /** TestAcquire, in general: a pool whose entries have caps of at least one
      and no use yet in second `now` hands out, within that second, each
      entry's payload as many times as its cap, in list order; it is then used
      up: the next Acquire hands out nothing and the free count is zero. */
  lemma DrainWithinOneSecond<T>(es: seq<Entry<T>>, now: int)
    requires FreshAt(es, now)
    ensures Capacity(es) >= 0
    ensures Drain(es, now, Capacity(es)) == Drained(Expected(es), Filled(es, now))
    ensures Scan(Filled(es, now), now).got == None
    ensures Free(Filled(es, now)) == 0
  {
    assert es[0..] == es;
    FreshCapacity(es, now);
    DrainFrom(es, now, 0, Capacity(es));
    FilledIsSaturated(es, now);
    FilledHasNoRoom(es, now);
  }

  lemma FilledIsSaturated<T>(es: seq<Entry<T>>, now: int)
    ensures forall j :: 0 <= j < |es| ==> Saturated(Filled(es, now)[j], now)
  {
  }

  lemma {:induction false} FilledHasNoRoom<T>(es: seq<Entry<T>>, now: int)
    ensures Free(Filled(es, now)) == 0
  {
    if es != [] {
      FilledHasNoRoom(es[1..], now);
      assert Filled(es, now)[1..] == Filled(es[1..], now);
    }
  }

  lemma {:induction false} SameItemsSameOrder<T>(a: seq<Entry<T>>, b: seq<Entry<T>>)
    requires SameItems(a, b)
    ensures Capacity(a) == Capacity(b) && Expected(a) == Expected(b)
  {
    if a != [] {
      SameItemsSameOrder(a[1..], b[1..]);
    }
  }

  /** After the second changes, a used-up pool hands out the same payloads in
      the same order again, even though no counter was reset in between. */
  lemma NextSecondRepeats<T>(es: seq<Entry<T>>, now: int, later: int)
    requires FreshAt(es, now) && later != now
    ensures Capacity(es) >= 0 && Drain(Filled(es, now), later, Capacity(es)).results == Expected(es)
    ensures Scan(Drain(Filled(es, now), later, Capacity(es)).entries, later).got == None
  {
    var full := Filled(es, now);
    assert SameItems(full, es);
    SameItemsSameOrder(full, es);
    assert FreshAt(full, later);
    DrainWithinOneSecond(full, later);
  }

  /** Each payload is handed out as many times as its entry's cap, so a
      pool of caps of at least one serves exactly its total cap. */
  lemma {:induction false} ExpectedLength<T>(es: seq<Entry<T>>)
    requires forall j :: 0 <= j < |es| ==> es[j].maxRequests >= 1
    ensures |Expected(es)| == Capacity(es)
    ensures forall r :: r in Expected(es) ==> r.Some?
  {
    if es != [] {
      ExpectedLength(es[1..]);
    }
  }

  /** N entries of cap k have a total cap of N * k. */
  lemma {:induction false} UniformCapacity<T>(es: seq<Entry<T>>, k: int)
    requires forall j :: 0 <= j < |es| ==> es[j].maxRequests == k
    ensures Capacity(es) == |es| * k
  {
    if es != [] {
      UniformCapacity(es[1..], k);
    }
  }

  /** On a pool of unused counters the free count is the total cap. */
  lemma {:induction false} UnusedPoolIsFree<T>(es: seq<Entry<T>>)
    requires forall j :: 0 <= j < |es| ==> es[j].numRequests == 0
    ensures Free(es) == Capacity(es)
  {
    if es != [] {
      UnusedPoolIsFree(es[1..]);
    }
  }

  /** The free count reads the raw counters: once the second has changed, a
      used-up pool still reports zero free requests although its first entry
      can be acquired again. */
  lemma StaleFreeCount<T>(es: seq<Entry<T>>, now: int, later: int)
    requires FreshAt(es, now) && later != now && |es| > 0
    ensures Free(Filled(es, now)) == 0
    ensures Scan(Filled(es, now), later).got == Some(es[0].item)
  {
    FilledHasNoRoom(es, now);
    ScanFirstFit(Filled(es, now), later, 0);
  }
}
