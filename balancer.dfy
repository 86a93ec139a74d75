/**
 * The Balancer (balancer.go): an ordered list of items, optionally shuffled
 * in place, from which Acquire claims the first item that still has room in
 * the current second.
 *
 * Each call is atomic here; the RWMutex that makes it so in Go is not modelled.
 */
module Balancers {
  import opened Optional
  import opened Items
  import opened Shuffling
  import opened Pools
  import opened Waiting

  /** The entries from position i on: the entry at i, then those after it. */
  lemma SnapshotsFrom<T>(s: seq<Item<T>>, i: nat)
    requires i < |s|
    ensures Snapshots(s[i..]) == [s[i].Snapshot()] + Snapshots(s[i + 1..])
  {
  }

  /** Shuffling the items and then reading their fields gives the entries
      shuffled the same way. */
  lemma SnapshotsShuffled<T>(s: seq<Item<T>>, pick: nat -> nat)
    ensures Snapshots(Shuffled(s, pick)) == Shuffled(Snapshots(s), pick)
  {
    var m := map x | x in s :: x.Snapshot();
    ShuffleDownMap(s, Snapshots(s), |s|, pick, m);
  }

  /** The order Acquire scans in, over the item objects. */
  function ScanOrderOf<T>(s: seq<Item<T>>, shuffle: bool, pick: nat -> nat): (order: seq<Item<T>>)
    ensures |order| == |s| && multiset(order) == multiset(s)
    ensures !shuffle ==> order == s
  {
    if shuffle then Shuffled(s, pick) else s
  }

  /** Reading the fields after ordering the objects gives the value-level scan order. */
  lemma ScanOrderSnapshots<T>(s: seq<Item<T>>, shuffle: bool, pick: nat -> nat)
    ensures Snapshots(ScanOrderOf(s, shuffle, pick)) == ScanOrder(Pool(Snapshots(s), shuffle), pick)
  {
    if shuffle {
      SnapshotsShuffled(s, pick);
    }
  }

  /** Ordering for the scan keeps the list within any set holding all its items. */
  lemma ScanOrderWithin<T>(s: seq<Item<T>>, shuffle: bool, pick: nat -> nat, owned: set<Item<T>>)
    requires forall i :: 0 <= i < |s| ==> s[i] in owned
    ensures var order := ScanOrderOf(s, shuffle, pick);
      forall i :: 0 <= i < |order| ==> order[i] in owned
  {
    if shuffle {
      var order := Shuffled(s, pick);
      forall i | 0 <= i < |order|
        ensures order[i] in owned
      {
        assert order[i] in multiset(order);
        var k :| 0 <= k < |s| && s[k] == order[i];
      }
    }
  }

  /** Ordering for the scan never puts one item at two positions. */
  lemma ScanOrderDistinct<T>(s: seq<Item<T>>, shuffle: bool, pick: nat -> nat)
    requires Distinct(s)
    ensures Distinct(ScanOrderOf(s, shuffle, pick))
  {
    if shuffle {
      ShuffleDownKeepsDistinct(s, |s|, pick);
    }
  }

  class Balancer<T> {
    /** The caller's slice itself, not a copy: the caller sees every shuffle. */
    const items: array<Item<T>>
    var shuffle: bool
    /** The items the list held when the balancer was made. Shuffling only
        rearranges them, so the list keeps holding exactly this set. */
    ghost const Repr: set<Item<T>>

    /** The list holds exactly the items of Repr: every position holds one of
        them, and each of them is at some position. */
    ghost predicate Valid()
      reads this, items
    {
      && (forall i :: 0 <= i < items.Length ==> items[i] in Repr)
      && (forall x :: x in Repr ==> x in items[..])
    }

    /** The balancer's state as a value. */
    ghost function View(): (v: Pool<T>)
      reads this, items, items[..]
    {
      Pool(Snapshots(items[..]), shuffle)
    }

    /** New: keep the given list, in its order, with shuffling off. */
    constructor (items: array<Item<T>>)
      ensures Valid() && Repr == set x | x in items[..]
      ensures this.items == items && !shuffle
      ensures View() == Pool(Snapshots(items[..]), false)
    {
      this.items := items;
      shuffle := false;
      Repr := set x | x in items[..];
      new;
      assert forall i :: 0 <= i < items.Length ==> items[i] == items[..][i];
    }

    /** SetShuffle: only the flag changes. */
    method SetShuffle(shuffle: bool)
      requires Valid()
      modifies this
      ensures Valid()
      ensures View() == old(View()).(shuffle := shuffle)
    {
      this.shuffle := shuffle;
    }

    /** NumItems: the length of the list. */
    method NumItems() returns (n: int)
      ensures n == |View().entries| == items.Length
    {
      n := items.Length;
    }

    /** TotalMaxRequests: the sum of the caps. */
    method TotalMaxRequests() returns (total: int)
      ensures total == Capacity(View().entries)
    {
      total := 0;
      assert items[0..] == items[..];
      for i := 0 to items.Length
        invariant total + Capacity(Snapshots(items[i..])) == Capacity(View().entries)
      {
        SnapshotsFrom(items[..], i);
        assert items[..][i..] == items[i..] && items[..][i + 1..] == items[i + 1..];
        total := total + items[i].maxRequests;
      }
      assert items[items.Length..] == [];
    }

    /** TotalFreeRequests: the sum of cap minus counter, taken from the raw
        counters whether or not their second is over. */
    method TotalFreeRequests() returns (total: int)
      ensures total == Free(View().entries)
    {
      total := 0;
      assert items[0..] == items[..];
      for i := 0 to items.Length
        invariant total + Free(Snapshots(items[i..])) == Free(View().entries)
      {
        SnapshotsFrom(items[..], i);
        assert items[..][i..] == items[i..] && items[..][i + 1..] == items[i + 1..];
        total := total + (items[i].maxRequests - items[i].numRequests);
      }
      assert items[items.Length..] == [];
    }

    /** Acquire: shuffle the list in place when the flag is on, then claim
        the first item not saturated at second `now` and return its payload;
        nil when every item is saturated. `pick` is the shuffle's random source.
        When the list holds each item once, the new state is that of AcquireIn. */
    method Acquire(now: int, pick: nat -> nat) returns (r: Option<T>)
      requires Valid()
      modifies items, Repr
      ensures Valid()
      ensures items[..] == ScanOrderOf(old(items[..]), shuffle, pick)
      ensures r == AcquireIn(old(View()), now, pick).got
      ensures Distinct(old(items[..])) ==> View() == AcquireIn(old(View()), now, pick).pool
    {
      ShuffleIfOn(pick);
      r := ClaimFirstFree(now);
    }

    /** AcquireWait: one Acquire at instant `start`; if it gives nil, the
        retry loop, paced by a ticker of period Pace(pause). picks(c) is the
        shuffle's random source for the c-th Acquire of this call, and the
        loop is followed for at most `rounds` rounds. When the list holds
        each item once, the payload and the new state are those of Wait. */
    method AcquireWait(ctx: Context, attempts: int, pause: int, start: int,
                       picks: nat -> nat -> nat, rounds: nat) returns (r: Option<T>)
      requires Valid()
      modifies items, Repr
      ensures Valid()
      ensures Distinct(old(items[..])) ==>
                r == Wait(old(View()), ctx, attempts, pause, start, picks, rounds).got &&
                View() == Wait(old(View()), ctx, attempts, pause, start, picks, rounds).pool
    {
      ghost var before := items[..];
      r := Acquire(UnixSecond(start), picks(0));
      if r.Some? {
        return;
      }
      if Distinct(before) {
        ScanOrderDistinct(before, shuffle, picks(0));
      }
      var pace := pause;
      if pace <= 0 {
        pace := Second;
      }
      r := RetryLoop(ctx, attempts, start, pace, picks, rounds);
    }

    /** The loop of AcquireWait: at each round, one tick is taken by the
        `for range` and the counter is decremented, leaving with nil at zero;
        the select then waits for the next tick, returning nil if the context
        was cancelled before it, and otherwise retries Acquire, returning its
        payload unless it is nil. The tick instants are start + k * pace. */
    method RetryLoop(ctx: Context, attempts: int, start: int, pace: int,
                     picks: nat -> nat -> nat, rounds: nat) returns (r: Option<T>)
      requires Valid()
      modifies items, Repr
      ensures Valid()
      ensures Distinct(old(items[..])) ==>
                r == Retry(old(View()), ctx, attempts, start, pace, picks, 0, rounds).got &&
                View() == Retry(old(View()), ctx, attempts, start, pace, picks, 0, rounds).pool
    {
      ghost var distinct := Distinct(items[..]);
      ghost var w := Retry(View(), ctx, attempts, start, pace, picks, 0, rounds);
      var left := attempts;
      var round: nat := 0;
      r := None;
      while round < rounds
        invariant Valid() && r == None
        invariant distinct ==> Distinct(items[..]) && Retry(View(), ctx, left, start, pace, picks, round, rounds) == w
        decreases rounds - round
      {
        left := left - 1;
        if left == 0 {
          return;
        }
        if CancelledBefore(ctx, RetryAt(start, pace, round)) {
          return;
        }
        ghost var before := items[..];
        r := Acquire(UnixSecond(RetryAt(start, pace, round)), picks(round + 1));
        if r.Some? {
          return;
        }
        if distinct {
          ScanOrderDistinct(before, shuffle, picks(round + 1));
        }
        round := round + 1;
      }
    }

    /** The shuffle step of Acquire: with the flag on, rand.Shuffle over the
        list in place; with it off, nothing. */
    method ShuffleIfOn(pick: nat -> nat)
      requires Valid()
      modifies items
      ensures Valid()
      ensures items[..] == ScanOrderOf(old(items[..]), shuffle, pick)
      ensures View() == Pool(ScanOrder(old(View()), pick), shuffle)
      ensures Distinct(old(items[..])) ==> Distinct(items[..])
    {
      ghost var oldItems := items[..];
      ghost var oldView := View();
      if shuffle {
        ShuffleInPlace(items, pick);
        assert Snapshots(oldItems) == oldView.entries;
        ScanOrderSnapshots(oldItems, shuffle, pick);
        ScanOrderWithin(oldItems, shuffle, pick, Repr);
        forall i | 0 <= i < items.Length
          ensures items[i] in Repr
        {
          assert items[i] == items[..][i];
        }
        MembersOfPermutation(oldItems, items[..]);
        if Distinct(oldItems) {
          ScanOrderDistinct(oldItems, shuffle, pick);
        }
      }
    }

    /** The scan of Acquire over the list in its current order: claim the
        first item not saturated at `now`. When the list holds each item
        once, the entries afterwards are those of the value-level scan. */
    method ClaimFirstFree(now: int) returns (r: Option<T>)
      requires Valid()
      modifies Repr
      ensures items[..] == old(items[..])
      ensures r == Scan(old(View()).entries, now).got
      ensures Distinct(items[..]) ==> View() == old(View()).(entries := Scan(old(View()).entries, now).entries)
    {
      ghost var before := Snapshots(items[..]);
      var i := 0;
      while i < items.Length
        invariant 0 <= i <= items.Length
        invariant Snapshots(items[..]) == before
        invariant forall j :: 0 <= j < i ==> Saturated(before[j], now)
      {
        var c := items[i];
        if !c.TooManyRequests(now) {
          var _ := c.AddRequest(now);
          r := Some(c.item);
          ScanFirstFit(before, now, i);
          assert Distinct(items[..]) ==> Snapshots(items[..]) == before[i := Claimed(before[i], now)];
          return;
        }
        i := i + 1;
      }
      r := None;
    }
  }
}
