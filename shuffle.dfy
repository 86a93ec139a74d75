/**
 * The in-place Fisher-Yates shuffle that Acquire runs over the item list
 * when shuffling is on (rand.Shuffle). The random numbers are a parameter:
 * `pick(i)` is the draw made for position `i`, reduced to the range 0..i.
 */
module Shuffling {

  /** Exchange the elements at positions i and j. */
  function Swap<X>(s: seq<X>, i: nat, j: nat): (r: seq<X>)
    requires i < |s| && j < |s|
    ensures |r| == |s| && r[i] == s[j] && r[j] == s[i]
    ensures forall k :: 0 <= k < |s| && k != i && k != j ==> r[k] == s[k]
    ensures multiset(r) == multiset(s)
  {
    s[i := s[j]][j := s[i]]
  }

  /** The position swapped with position i (0 <= result <= i). */
  function Partner(pick: nat -> nat, i: nat): (j: nat)
    ensures j <= i
  {
    pick(i) % (i + 1)
  }

  /** The swaps still to do once positions n..|s|-1 are settled: positions
      n-1, n-2, ..., 1 each exchange with a partner at or before them. */
  function ShuffleDown<X>(s: seq<X>, n: nat, pick: nat -> nat): (r: seq<X>)
    requires n <= |s|
    ensures |r| == |s|
    ensures multiset(r) == multiset(s)
    ensures forall k :: n <= k < |s| ==> r[k] == s[k]
    decreases n
  {
    if n <= 1 then s else ShuffleDown(Swap(s, n - 1, Partner(pick, n - 1)), n - 1, pick)
  }

  /** rand.Shuffle over the whole sequence. */
  function Shuffled<X>(s: seq<X>, pick: nat -> nat): (r: seq<X>)
    ensures |r| == |s| && multiset(r) == multiset(s)
  {
    ShuffleDown(s, |s|, pick)
  }

  /** Shuffling commutes with any position-wise view of the elements,
      given as a map from each element to its view. */
  lemma {:induction false} ShuffleDownMap<X, Y>(s: seq<X>, v: seq<Y>, n: nat, pick: nat -> nat, m: map<X, Y>)
    requires n <= |s| && |v| == |s|
    requires forall k :: 0 <= k < |s| ==> s[k] in m && v[k] == m[s[k]]
    ensures var t := ShuffleDown(s, n, pick);
      forall k :: 0 <= k < |s| ==> t[k] in m && ShuffleDown(v, n, pick)[k] == m[t[k]]
    decreases n
  {
    if n > 1 {
      var j := Partner(pick, n - 1);
      var s', v' := Swap(s, n - 1, j), Swap(v, n - 1, j);
      forall k | 0 <= k < |s'|
        ensures s'[k] in m && v'[k] == m[s'[k]]
      {
        var k' := if k == n - 1 then j else if k == j then n - 1 else k;
        assert s'[k] == s[k'] && v'[k] == v[k'];
      }
      ShuffleDownMap(s', v', n - 1, pick, m);
      assert ShuffleDown(s, n, pick) == ShuffleDown(s', n - 1, pick);
      assert ShuffleDown(v, n, pick) == ShuffleDown(v', n - 1, pick);
    }
  }

  /** rand.Shuffle on an array, in place. */
  method ShuffleInPlace<X>(a: array<X>, pick: nat -> nat)
    modifies a
    ensures a[..] == Shuffled(old(a[..]), pick)
  {
    var n := a.Length;
    while n > 1
      invariant 0 <= n <= a.Length
      invariant ShuffleDown(a[..], n, pick) == Shuffled(old(a[..]), pick)
    {
      var j := Partner(pick, n - 1);
      ghost var before := a[..];
      a[n - 1], a[j] := a[j], a[n - 1];
      assert a[..] == Swap(before, n - 1, j);
      n := n - 1;
    }
  }

  /** No element occurs twice. */
  ghost predicate Distinct<X>(s: seq<X>) {
    forall i, j :: 0 <= i < j < |s| ==> s[i] != s[j]
  }

  /** Shuffling never makes two positions hold the same element. */
  lemma {:induction false} ShuffleDownKeepsDistinct<X>(s: seq<X>, n: nat, pick: nat -> nat)
    requires n <= |s| && Distinct(s)
    ensures Distinct(ShuffleDown(s, n, pick))
    decreases n
  {
    if n > 1 {
      var j := Partner(pick, n - 1);
      var t := Swap(s, n - 1, j);
      forall a, b | 0 <= a < b < |t|
        ensures t[a] != t[b]
      {
        var a' := if a == n - 1 then j else if a == j then n - 1 else a;
        var b' := if b == n - 1 then j else if b == j then n - 1 else b;
        assert t[a] == s[a'] && t[b] == s[b'];
      }
      ShuffleDownKeepsDistinct(t, n - 1, pick);
    }
  }
}
