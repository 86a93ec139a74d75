/**
 * The Balancer's state and its Acquire operation as values (balancer.go).
 * Class Balancer in balancer.dfy is proved to behave as these functions say.
 */
module Pools {
  import opened Optional
  import opened Items
  import opened Shuffling

  /** The item list in its current order, and the shuffle flag. */
  datatype Pool<T> = Pool(entries: seq<Entry<T>>, shuffle: bool)

  /** What one scan returns: the payload handed out (None for nil) and the entries afterwards. */
  datatype Scanned<T> = Scanned(got: Option<T>, entries: seq<Entry<T>>)

  /** What one Acquire call returns, and the pool afterwards. */
  datatype Acquisition<T> = Acquisition(got: Option<T>, pool: Pool<T>)

  /** Position of the first entry that is not saturated at `now`, or |es| if there is none. */
  function FirstFree<T>(es: seq<Entry<T>>, now: int): (k: nat)
    ensures k <= |es|
    ensures forall j :: 0 <= j < k ==> Saturated(es[j], now)
    ensures k < |es| ==> !Saturated(es[k], now)
  {
    if es == [] then 0
    else if !Saturated(es[0], now) then 0
    else 1 + FirstFree(es[1..], now)
  }

  /** The scan of Acquire: claim the first entry that is not saturated and
      hand out its payload; with every entry saturated, hand out nothing. */
  function Scan<T>(es: seq<Entry<T>>, now: int): (r: Scanned<T>)
    ensures |r.entries| == |es|
    ensures r.got.None? <==> forall j :: 0 <= j < |es| ==> Saturated(es[j], now)
    ensures r.got.None? ==> r.entries == es
  {
    var k := FirstFree(es, now);
    if k == |es| then Scanned(None, es)
    else Scanned(Some(es[k].item), es[k := Claimed(es[k], now)])
  }

  /** The order Acquire scans in: the current order, shuffled first when the flag is on. */
  function ScanOrder<T>(p: Pool<T>, pick: nat -> nat): (order: seq<Entry<T>>)
    ensures multiset(order) == multiset(p.entries)
    ensures !p.shuffle ==> order == p.entries
  {
    if p.shuffle then Shuffled(p.entries, pick) else p.entries
  }

  /** Acquire on a pool value; `pick` is the random source of the shuffle. */
  function AcquireIn<T>(p: Pool<T>, now: int, pick: nat -> nat): (a: Acquisition<T>)
    ensures a.pool.shuffle == p.shuffle
    ensures |a.pool.entries| == |p.entries|
  {
    var s := Scan(ScanOrder(p, pick), now);
    Acquisition(s.got, Pool(s.entries, p.shuffle))
  }

  /** First fit: the lowest unsaturated position is claimed, and no other entry changes. */
  lemma ScanFirstFit<T>(es: seq<Entry<T>>, now: int, k: nat)
    requires k < |es| && !Saturated(es[k], now)
    requires forall j :: 0 <= j < k ==> Saturated(es[j], now)
    ensures Scan(es, now) == Scanned(Some(es[k].item), es[k := Claimed(es[k], now)])
  {
  }

  /** Every entry of `a` occurs in `b` when `b` is a rearrangement of `a`. */
  lemma MembersOfPermutation<X>(a: seq<X>, b: seq<X>)
    requires multiset(a) == multiset(b)
    ensures forall x :: x in a <==> x in b
  {
    forall x
      ensures x in a <==> x in b
    {
      assert x in a <==> x in multiset(a);
      assert x in b <==> x in multiset(b);
    }
  }

  /** Saturation of every entry does not depend on their order. */
  lemma AllSaturatedPermutation<T>(a: seq<Entry<T>>, b: seq<Entry<T>>, now: int)
    requires multiset(a) == multiset(b)
    ensures (forall j :: 0 <= j < |a| ==> Saturated(a[j], now)) <==>
            (forall j :: 0 <= j < |b| ==> Saturated(b[j], now))
  {
    MembersOfPermutation(a, b);
    if forall j :: 0 <= j < |a| ==> Saturated(a[j], now) {
      forall j | 0 <= j < |b|
        ensures Saturated(b[j], now)
      {
        assert b[j] in a;
      }
    } else {
      var j :| 0 <= j < |a| && !Saturated(a[j], now);
      assert a[j] in b;
    }
  }

  /** Acquire hands out nothing exactly when every entry is saturated, in
      whatever order the shuffle left them; the pool then changes only by that shuffle. */
  lemma AcquireNilIffSaturated<T>(p: Pool<T>, now: int, pick: nat -> nat)
    ensures var a := AcquireIn(p, now, pick);
      a.got.None? <==> forall j :: 0 <= j < |p.entries| ==> Saturated(p.entries[j], now)
    ensures var a := AcquireIn(p, now, pick);
      a.got.None? ==> a.pool == Pool(ScanOrder(p, pick), p.shuffle)
  {
    AllSaturatedPermutation(ScanOrder(p, pick), p.entries, now);
  }

  /** With shuffling off, Acquire is first fit over the current order. */
  lemma AcquireUnshuffled<T>(p: Pool<T>, now: int, pick: nat -> nat, k: nat)
    requires !p.shuffle
    requires k < |p.entries| && !Saturated(p.entries[k], now)
    requires forall j :: 0 <= j < k ==> Saturated(p.entries[j], now)
    ensures AcquireIn(p, now, pick) ==
      Acquisition(Some(p.entries[k].item), Pool(p.entries[k := Claimed(p.entries[k], now)], false))
  {
    ScanFirstFit(p.entries, now, k);
  }

  // ---------------------------------------------------------------- accounting

  /** Sum of `w` over the entries. */
  function Total<T>(es: seq<Entry<T>>, w: Entry<T> -> int): (t: int) {
    if es == [] then 0 else w(es[0]) + Total(es[1..], w)
  }

  /** A sum of terms that are never negative is never negative. */
  lemma {:induction false} TotalNonNegative<T>(es: seq<Entry<T>>, w: Entry<T> -> int)
    requires forall j :: 0 <= j < |es| ==> w(es[j]) >= 0
    ensures Total(es, w) >= 0
  {
    if es != [] {
      assert forall j :: 0 <= j < |es[1..]| ==> es[1..][j] == es[j + 1];
      TotalNonNegative(es[1..], w);
    }
  }

  function Cap<T>(e: Entry<T>): (c: int) { e.maxRequests }

  /** Raw free slots of an entry: the cap minus the counter, stale or not. */
  function Room<T>(e: Entry<T>): (r: int) { e.maxRequests - e.numRequests }

  /** TotalMaxRequests on a value. */
  function Capacity<T>(es: seq<Entry<T>>): (c: int) {
    Total(es, Cap)
  }

  /** TotalFreeRequests on a value. */
  function Free<T>(es: seq<Entry<T>>): (f: int) {
    Total(es, Room)
  }

  /** The total cap is never negative while no cap is. */
  lemma CapacityNonNegative<T>(es: seq<Entry<T>>)
    requires forall j :: 0 <= j < |es| ==> es[j].maxRequests >= 0
    ensures Capacity(es) >= 0
  {
    TotalNonNegative(es, Cap);
  }

  /** The free count is never negative while no counter exceeds its cap. */
  lemma FreeNonNegative<T>(es: seq<Entry<T>>)
    requires forall j :: 0 <= j < |es| ==> es[j].numRequests <= es[j].maxRequests
    ensures Free(es) >= 0
  {
    TotalNonNegative(es, Room);
  }

  /** A cap of zero lets the counter pass the cap, so the free count can go
      below zero: one claim of such an entry leaves a free count of -1. */
  lemma ZeroCapFreeCount<T>(e: Entry<T>, now: int)
    requires e.maxRequests == 0 && e.timestamp != now
    ensures Free([Claimed(e, now)]) == -1
  {
    var c := Claimed(e, now);
    assert c.numRequests == 1 && [c][1..] == [];
    assert Total([c], Room) == Room(c) + Total([c][1..], Room);
  }

  lemma {:induction false} TotalSplit<T>(es: seq<Entry<T>>, i: nat, w: Entry<T> -> int)
    requires i < |es|
    ensures Total(es, w) == Total(es[..i], w) + w(es[i]) + Total(es[i + 1..], w)
  {
    if i > 0 {
      TotalSplit(es[1..], i - 1, w);
      assert es[1..][..i - 1] == es[1..i];
      assert es[1..][i - 1 + 1..] == es[i + 1..];
      assert es[..i][1..] == es[1..i];
    }
  }

  lemma {:induction false} TotalConcat<T>(a: seq<Entry<T>>, b: seq<Entry<T>>, w: Entry<T> -> int)
    ensures Total(a + b, w) == Total(a, w) + Total(b, w)
  {
    if a == [] {
      assert a + b == b;
    } else {
      assert (a + b)[0] == a[0];
      assert (a + b)[1..] == a[1..] + b;
      TotalConcat(a[1..], b, w);
    }
  }

  /** Taking one occurrence of the same element out of two rearrangements of
      each other leaves two rearrangements of each other. */
  lemma RemoveOne<X>(a: seq<X>, b: seq<X>, i: nat)
    requires |a| > 0 && i < |b| && b[i] == a[0]
    requires multiset(a) == multiset(b)
    ensures multiset(a[1..]) == multiset(b[..i] + b[i + 1..])
  {
    assert a == [a[0]] + a[1..];
    assert b == b[..i] + [b[i]] + b[i + 1..];
    assert multiset(b) == multiset(b[..i] + b[i + 1..]) + multiset{b[i]};
    assert multiset(a[1..]) == multiset(a) - multiset{a[0]};
    assert multiset(b[..i] + b[i + 1..]) == multiset(b) - multiset{b[i]};
  }

  /** A sum does not depend on the order of its terms. */
  lemma {:induction false} TotalPermutation<T>(a: seq<Entry<T>>, b: seq<Entry<T>>, w: Entry<T> -> int)
    requires multiset(a) == multiset(b)
    ensures Total(a, w) == Total(b, w)
    decreases |a|
  {
    if a == [] {
      assert |b| == |multiset(b)| == 0;
    } else {
      assert a[0] in multiset(b);
      var i :| 0 <= i < |b| && b[i] == a[0];
      RemoveOne(a, b, i);
      TotalPermutation(a[1..], b[..i] + b[i + 1..], w);
      TotalSplit(b, i, w);
      TotalConcat(b[..i], b[i + 1..], w);
    }
  }

  /** A sum changes by the change of the one term that changed. */
  lemma TotalUpdate<T>(es: seq<Entry<T>>, i: nat, e: Entry<T>, w: Entry<T> -> int)
    requires i < |es|
    ensures Total(es[i := e], w) == Total(es, w) - w(es[i]) + w(e)
  {
    TotalSplit(es, i, w);
    TotalSplit(es[i := e], i, w);
    assert es[i := e][..i] == es[..i];
    assert es[i := e][i + 1..] == es[i + 1..];
  }

  /** Acquire neither adds nor removes items, and leaves the total cap
      unchanged, shuffle or not. */
  lemma AcquireKeepsCapacity<T>(p: Pool<T>, now: int, pick: nat -> nat)
    ensures |AcquireIn(p, now, pick).pool.entries| == |p.entries|
    ensures Capacity(AcquireIn(p, now, pick).pool.entries) == Capacity(p.entries)
  {
    var order := ScanOrder(p, pick);
    TotalPermutation(order, p.entries, Cap);
    var k := FirstFree(order, now);
    if k < |order| {
      TotalUpdate(order, k, Claimed(order[k], now), Cap);
    }
  }

  /** Every entry with a cap of at least one has its counter within the cap. */
  ghost predicate WithinCap<T>(es: seq<Entry<T>>) {
    forall e :: e in es && e.maxRequests >= 1 ==> e.numRequests <= e.maxRequests
  }

  /** Capacity bound: Acquire never pushes an entry with a positive cap over it. */
  lemma AcquireKeepsWithinCap<T>(p: Pool<T>, now: int, pick: nat -> nat)
    requires WithinCap(p.entries)
    ensures WithinCap(AcquireIn(p, now, pick).pool.entries)
  {
    var order := ScanOrder(p, pick);
    MembersOfPermutation(order, p.entries);
    assert WithinCap(order);
    var k := FirstFree(order, now);
    if k < |order| {
      var after := order[k := Claimed(order[k], now)];
      forall e | e in after && e.maxRequests >= 1
        ensures e.numRequests <= e.maxRequests
      {
        var j :| 0 <= j < |after| && after[j] == e;
        if j == k {
          ClaimStaysWithinCap(order[k], now);
        } else {
          assert e == order[j];
        }
      }
    }
  }
}
