/**
 * One poolable resource and its per-second request counter (item.go).
 *
 * The clock is not read here: every operation that consults the wall clock
 * takes the current Unix second `now` as a parameter.
 */
module Items {

  /** The value of an Item's fields at one moment: payload, per-second cap,
      the counter and the whole second (Unix time) that the counter belongs to. */
  datatype Entry<T> = Entry(item: T, maxRequests: int, numRequests: int, timestamp: int)

  /** The requests an entry has accepted during second `now`: a counter that
      belongs to another second is stale and stands for zero. */
  function UsedAt<T>(e: Entry<T>, now: int): (u: int) {
    if e.timestamp == now then e.numRequests else 0
  }

  /** tooManyRequests on a value: only a counter of the current second counts. */
  predicate Saturated<T>(e: Entry<T>, now: int)
    ensures Saturated(e, now) ==> e.timestamp == now
  {
    e.timestamp == now && e.numRequests >= e.maxRequests
  }

  /** addRequest on a value: restart a stale window, then count one request. */
  function Claimed<T>(e: Entry<T>, now: int): (c: Entry<T>)
    ensures c.item == e.item && c.maxRequests == e.maxRequests
    ensures c.timestamp == now
    ensures UsedAt(c, now) == UsedAt(e, now) + 1
  {
    var n := if e.timestamp != now then 0 else e.numRequests;
    e.(timestamp := now, numRequests := n + 1)
  }

  /** Saturation is "the usage of this second has reached the cap", except that
      a stale window is never saturated, whatever its cap. */
  lemma SaturatedMeansUsedUp<T>(e: Entry<T>, now: int)
    ensures Saturated(e, now) <==> e.timestamp == now && UsedAt(e, now) >= e.maxRequests
  {
  }

  /** Claiming an unsaturated entry whose counter is within a cap of at least
      one keeps it within the cap. */
  lemma ClaimStaysWithinCap<T>(e: Entry<T>, now: int)
    requires e.maxRequests >= 1 && e.numRequests <= e.maxRequests
    requires !Saturated(e, now)
    ensures Claimed(e, now).numRequests <= e.maxRequests
  {
  }

  /** A cap of zero or less does not make an entry unselectable: in each new
      second it can be claimed once, after which it is saturated until the
      second changes. */
  lemma NonPositiveCapOncePerSecond<T>(e: Entry<T>, now: int)
    requires e.maxRequests <= 0 && e.timestamp != now
    ensures !Saturated(e, now)
    ensures Saturated(Claimed(e, now), now)
    ensures Claimed(e, now).numRequests == 1
    ensures forall later :: later != now ==> !Saturated(Claimed(e, now), later)
  {
  }

  /** A tracked resource (Go: *Item[T]). The payload and the cap are never
      written after construction, so they are constant fields here. */
  class Item<T> {
    const item: T
    const maxRequests: int
    var numRequests: int
    var timestamp: int

    /** NewItem: the counter and its second start at zero. */
    constructor (item: T, maxRequests: int)
      ensures this.item == item && this.maxRequests == maxRequests
      ensures numRequests == 0 && timestamp == 0
    {
      this.item := item;
      this.maxRequests := maxRequests;
      numRequests := 0;
      timestamp := 0;
    }

    /** The current field values as an Entry. */
    ghost function Snapshot(): (e: Entry<T>)
      reads this
    {
      Entry(item, maxRequests, numRequests, timestamp)
    }

    /** tooManyRequests: true only when the counter belongs to second `now`
        and has reached the cap. */
    predicate TooManyRequests(now: int)
      reads this
      ensures now == timestamp ==> (TooManyRequests(now) <==> numRequests >= maxRequests)
      ensures TooManyRequests(now) <==> Saturated(Snapshot(), now)
    {
      if now == timestamp then numRequests >= maxRequests else false
    }

    /** addRequest: restart the window if the second changed, count one
        request, and return the new count. */
    method AddRequest(now: int) returns (n: int)
      modifies this
      ensures old(timestamp) != now ==> numRequests == 1
      ensures old(timestamp) == now ==> numRequests == old(numRequests) + 1
      ensures timestamp == now && n == numRequests
      ensures Snapshot() == Claimed(old(Snapshot()), now)
    {
      var t := now;
      if t != timestamp {
        timestamp := t;
        numRequests := 0;
      }
      numRequests := numRequests + 1;
      n := numRequests;
    }
  }

  /** The fields of a sequence of items, position by position. */
  ghost function Snapshots<T>(s: seq<Item<T>>): (es: seq<Entry<T>>)
    reads s
    ensures |es| == |s|
    ensures forall i :: 0 <= i < |s| ==> es[i] == s[i].Snapshot()
  {
    seq(|s|, i requires 0 <= i < |s| reads s => s[i].Snapshot())
  }
}
