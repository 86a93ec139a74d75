# balancer — a Dafny model

The Go package `balancer` hands out one of several pooled resources per call. Each
resource is wrapped in an `Item` that allows at most `maxRequests` requests per
wall-clock second. The `Balancer` keeps an ordered list of items and, on
`Acquire`, takes the first one that is not yet saturated in the current second.
It can shuffle the list in place first. `AcquireWait` retries `Acquire` on a
ticker until it gets an item, runs out of attempts, or its context is cancelled.

The model is split into modules:

- `Items` (item.dfy): `Item` is a class whose counter and second are
  updated in place. `Entry` is the value of its fields. `Saturated` and `Claimed` are
  `tooManyRequests` and `addRequest` on that value.
- `Shuffling` (shuffle.dfy): the Fisher-Yates shuffle of `rand.Shuffle`, as a
  function on sequences and as an in-place method on an array. The random draws
  are a parameter.
- `Pools` (pool.dfy): the balancer's state as a value (`Pool`), and `Acquire` on it
  (`AcquireIn`). Also the totals and the properties of one `Acquire`: first fit,
  nil exactly when every item is saturated, the total cap and the per-item cap bound
  are kept.
- `Exhaustion` (exhaustion.dfy): many `Acquire` calls in one second with shuffling
  off. A fresh pool hands out each item as many times as its cap, in list order,
  then nil. After the second changes it does the same again.
- `ShuffledRuns` (runs.dfy): many `Acquire` calls in one second with shuffling on,
  each call drawing its own shuffle. A fresh pool serves exactly its total cap, then nil.
- `Waiting` (waiting.dfy): `AcquireWait` as a function of explicit time. It covers the
  ticker instants, the attempt counter, cancellation, and the default pause.
- `Balancers` (balancer.dfy): the `Balancer` class. It keeps the caller's own array
  of item objects, so the caller sees every shuffle. Its methods are proved to
  produce the results and states that the `Pools` and `Waiting` functions describe.

The clock is not read anywhere. Operations take the current Unix second (`now`), or
the starting instant in nanoseconds (`start`). Random draws are parameters: `pick`
for one shuffle, and `picks(c)` for the c-th `Acquire` of one `AcquireWait`.

Three behaviours of the code differ from what a natural reading of the API
suggests. The model follows the code in each case:

- One might expect a cap of zero or less to make an item never eligible. In the
  code, such an item is claimed once in each new second, because `tooManyRequests`
  is false whenever the stored second is stale (`Items.NonPositiveCapOncePerSecond`).
  After that claim its counter exceeds its cap, so `TotalFreeRequests` can go below
  zero (`Pools.ZeroCapFreeCount`).
- One might expect `attempts <= 0` to allow zero retries, or one. In the code,
  `attempts--` never reaches zero from there, so only success or cancellation
  ends the loop (`Waiting.AttemptBudget`).
- One might expect the loop to wait one pause per round. In the code, each round
  takes two ticks: one for `for range t.C` and one for the `select`.

## Model

| member | source | states |
|---|---|---|
| Items.Saturated | item.go:16-21 | tooManyRequests on a value: a saturated entry's counter belongs to second `now` |
| Items.Claimed | item.go:23-31 | claiming keeps payload and cap, moves the window to `now`, and raises this second's usage by exactly one (a stale counter counts as zero) |
| Items.SaturatedMeansUsedUp | item.go:16-21 | an item is saturated iff its counter belongs to the current second and has reached the cap; a stale counter never saturates |
| Items.ClaimStaysWithinCap | item.go:16-31 | claiming an unsaturated item with cap >= 1 and counter within the cap keeps the counter within the cap |
| Items.NonPositiveCapOncePerSecond | item.go:16-31 | an item with cap <= 0 is free in a new second, is saturated right after one claim (counter 1), and is free again in any other second |
| Items.Item.constructor | item.go:12-14 | NewItem keeps payload and cap, with counter and window second at zero |
| Items.Item.TooManyRequests | item.go:16-21 | when the stored second is `now`, true iff counter >= cap; always agrees with `Saturated` on the item's fields, so a stale second gives false |
| Items.Item.AddRequest | item.go:23-31 | a new second restarts the counter at 1, the same second adds 1; the window becomes `now` and the new count is returned |
| Shuffling.Swap | balancer.go:57-59 | the swap callback exchanges exactly two positions and keeps the multiset of elements |
| Shuffling.Partner | balancer.go:57 | the partner chosen for position i lies in 0..i |
| Shuffling.ShuffleDown | balancer.go:56-60 | the remaining Fisher-Yates swaps keep length and multiset and leave settled positions alone |
| Shuffling.Shuffled | balancer.go:56-60 | a shuffle is a permutation: same length, same multiset |
| Shuffling.ShuffleDownMap | balancer.go:56-60 | shuffling commutes with any element-wise view, so shuffling objects then reading their fields equals shuffling the field values |
| Shuffling.ShuffleInPlace | balancer.go:56-60 | the in-place swaps leave the array equal to the shuffle of its old contents |
| Shuffling.ShuffleDownKeepsDistinct | balancer.go:56-60 | a shuffle of a list without repeats has no repeats |
| Pools.FirstFree | balancer.go:62-68 | the position returned has only saturated entries before it and is itself unsaturated, or is the length when all are saturated |
| Pools.Scan | balancer.go:62-70 | the scan hands out nothing iff every entry is saturated, and then changes nothing; the length is kept |
| Pools.ScanOrder | balancer.go:56-60 | the scan order is a permutation of the list, and the list itself when shuffling is off |
| Pools.AcquireIn | balancer.go:52-70 | Acquire keeps the shuffle flag and the number of items |
| Pools.ScanFirstFit | balancer.go:62-68 | first fit: the lowest unsaturated position is claimed, its payload returned, and no other entry changes |
| Pools.MembersOfPermutation | balancer.go:56-60 | a permutation has the same members |
| Pools.AllSaturatedPermutation | balancer.go:56-69 | whether every entry is saturated does not depend on the order the shuffle leaves |
| Pools.AcquireNilIffSaturated | balancer.go:52-70 | Acquire returns nil iff every item is saturated, whatever the shuffle; the pool then changes only by the shuffle |
| Pools.AcquireUnshuffled | balancer.go:52-70 | with shuffling off, Acquire returns the payload of the first unsaturated item and claims it |
| Pools.Capacity | balancer.go:32-40 | TotalMaxRequests on a value: the sum of the caps (order-free by `TotalPermutation`, non-negative by `CapacityNonNegative`) |
| Pools.Free | balancer.go:42-50 | TotalFreeRequests on a value: the sum of cap minus raw counter (see `FreeNonNegative`, `ZeroCapFreeCount`, `StaleFreeCount`) |
| Pools.TotalNonNegative | balancer.go:32-50 | a sum of non-negative terms is non-negative |
| Pools.CapacityNonNegative | balancer.go:32-40 | TotalMaxRequests is non-negative when no cap is negative |
| Pools.FreeNonNegative | balancer.go:42-50 | TotalFreeRequests is non-negative when no counter exceeds its cap |
| Pools.ZeroCapFreeCount | balancer.go:42-50 | one claim of a cap-0 item in a new second makes TotalFreeRequests -1 |
| Pools.TotalSplit | balancer.go:32-50 | a sum over the list splits around any position |
| Pools.TotalConcat | balancer.go:32-50 | a sum over a concatenation is the sum of the sums |
| Pools.RemoveOne | balancer.go:56-60 | removing one matching element from two permutations of each other leaves two permutations of each other |
| Pools.TotalPermutation | balancer.go:32-50 | the totals do not depend on the order of the list, so a shuffle does not change them |
| Pools.TotalUpdate | balancer.go:32-50 | changing one entry changes a total by that entry's difference |
| Pools.AcquireKeepsCapacity | balancer.go:32-70 | Acquire keeps the number of items and TotalMaxRequests, shuffle or not |
| Pools.AcquireKeepsWithinCap | balancer.go:52-70 | capacity bound: if every item with cap >= 1 has its counter within the cap, Acquire keeps that so |
| Exhaustion.Drain | balancer.go:52-70 | m Acquire calls produce m results |
| Exhaustion.DrainKeepsItems | balancer.go:52-70 | Acquire calls change only counters and window seconds, never payloads, caps or their order |
| Exhaustion.DrainAppend | balancer.go:52-70 | a + b Acquire calls are a calls followed by b calls |
| Exhaustion.DrainOneEntry | balancer.go:62-68 | once earlier items are saturated, the next calls all go to one item until it reaches its cap |
| Exhaustion.CapacityFront | balancer.go:32-40 | the total cap and the handing-out order of a list split at its front entry |
| Exhaustion.FreshAtTail | balancer.go:62-68 | a fresh pool's entries each have cap >= 1 and no use this second, and its suffixes are fresh |
| Exhaustion.FreshCapacity | balancer.go:32-40 | a fresh pool's total cap is at least its number of items |
| Exhaustion.DrainFrom | balancer.go:52-70 | with items before i used up, the next calls hand out the rest in order and use everything up |
| Exhaustion.DrainFromEntry | balancer.go:52-70 | the step of DrainFrom: entry i takes its cap-many calls, then the rest follows |
| Exhaustion.UseUpEntry | balancer.go:62-68 | with earlier items used up, a fresh entry takes exactly the next cap-many calls |
| Exhaustion.AfterEntry | balancer.go:32-40 | after entry i is used up, the rest is fresh and the cap and order split at entry i |
| Exhaustion.DrainRuns | balancer.go:52-70 | two known runs of calls in a row make one known run |
| Exhaustion.DrainWithinOneSecond | balancer_test.go:31-39 | within one second a fresh pool hands out each payload as many times as its cap, in list order; then Acquire returns nil and TotalFreeRequests is 0 |
| Exhaustion.FilledIsSaturated | balancer.go:62-65 | an item at its cap this second is skipped |
| Exhaustion.FilledHasNoRoom | balancer_test.go:38 | a used-up pool reports zero free requests |
| Exhaustion.SameItemsSameOrder | balancer.go:32-40 | only payloads and caps decide the total cap and the handing-out order |
| Exhaustion.NextSecondRepeats | balancer_test.go:41-48 | after the second changes, a used-up pool hands out the same payloads in the same order again, with no reset in between, and the next Acquire is nil again |
| Exhaustion.ExpectedLength | balancer_test.go:60-69 | a pool of caps >= 1 serves exactly TotalMaxRequests payloads per second, none of them nil |
| Exhaustion.UniformCapacity | balancer_test.go:26-28 | N items of cap k have a total cap of N*k |
| Exhaustion.UnusedPoolIsFree | balancer_test.go:26-29 | on unused counters TotalFreeRequests equals TotalMaxRequests |
| ShuffledRuns.Run | balancer.go:52-70 | m Acquire calls in a row within one second, each with its own shuffle draws, give one result per call |
| ShuffledRuns.SaturatedAtCap | item.go:16-21 | for an item with cap >= 1 within its cap, saturation is exactly this second's usage equalling the cap |
| ShuffledRuns.UsedWithinCapacity | balancer.go:32-40 | the pool's usage in this second never exceeds TotalMaxRequests, and equals it iff every item is saturated |
| ShuffledRuns.UsedIsZero | item.go:16-31 | a pool with no use in this second has usage zero |
| ShuffledRuns.AcquireCounts | balancer.go:52-70 | one Acquire, shuffled or not, keeps every item within its cap and the total cap; it returns nil iff the usage has reached the total cap, and otherwise raises the usage by exactly one |
| ShuffledRuns.RunCounts | balancer.go:52-70 | from a pool within its caps, exactly TotalMaxRequests minus the current usage calls succeed, and the next returns nil, whatever each call's shuffle |
| ShuffledRuns.ShuffledRunWithinOneSecond | balancer.go:52-70 | a fresh pool with caps >= 1, shuffled or not, serves exactly TotalMaxRequests calls in one second and then returns nil, so TestShuffle's five calls on cap-1 items all get an item (balancer_test.go:138-141) |
| Exhaustion.StaleFreeCount | balancer.go:42-50 | TotalFreeRequests reads raw counters: after the second changes a used-up pool still reports 0 free, yet Acquire hands out its first item |
| Waiting.UnixSecond | item.go:17 | time.Now().Unix(): the whole second containing the instant, rounding down |
| Waiting.CancelledBefore | balancer.go:88-91 | a context that is never cancelled is never seen cancelled at the select |
| Waiting.CancellationPersists | balancer.go:88-91 | once the select would see the cancellation, it sees it at every later tick |
| Waiting.RetryAt | balancer.go:81-92 | with a positive period, a retry runs no earlier than the second tick |
| Waiting.RetryTickStep | balancer.go:83-92 | consecutive retries are two ticks apart |
| Waiting.RetryTicksIncrease | balancer.go:81-92 | a later round retries at a strictly later instant |
| Waiting.Pace | balancer.go:78-80 | a non-positive pause becomes one second; a positive one is kept |
| Waiting.Retry | balancer.go:81-97 | the loop returns a payload exactly when it ended by acquiring, and counts at least the rounds already done |
| Waiting.Wait | balancer.go:72-98 | a successful first Acquire returns at once with no retry, its payload and the pool it leaves; a payload is returned iff the call ends by acquiring |
| Waiting.RetryCounting | balancer.go:83-87 | from counter a >= 1 at most a-1 more retries happen, exactly a-1 when the attempts run out; a counter <= 0 never runs out |
| Waiting.AttemptBudget | balancer.go:72-98 | attempts = n >= 1 allows at most n-1 retries, exactly n-1 on exhaustion; attempts <= 0 never ends by exhaustion |
| Waiting.CancelEndsLoop | balancer.go:83-96 | once a select of an observed round waits for a tick after the cancellation instant, the loop has returned by then, whatever attempts remain |
| Waiting.CancelEndsWait | balancer.go:72-98 | a call cancelled before the tick of its last observed round has returned within those rounds |
| Waiting.RetriesPrecedeCancel | balancer.go:88-90 | every retry ran at a tick no later than the cancellation instant |
| Waiting.CancelledBeforeFirstTick | balancer.go:88-90 | cancelled before the first select tick, a failed first Acquire leads to nil with no retry |
| Waiting.DefaultPause | balancer.go:78-80 | a non-positive pause behaves exactly like one second |
| Waiting.SaturatedPoolRefuses | balancer.go:62-69 | an unshuffled pool saturated in second s gives nil and stays as it was |
| Waiting.RetryExhausts | balancer.go:83-96 | while all ticks stay in the second the pool was used up in, the attempts run out after exactly a-1 retries and nil is returned |
| Waiting.RetryAfterRollover | balancer.go:83-96 | the first retry in a later second hands out the first item and claims it, if the counter lets the loop reach it, which a counter <= 0 always does |
| Waiting.WaitGivesUp | balancer.go:72-98 | with the pool used up and every tick in the same second, AcquireWait gives nil after attempts-1 retries |
| Waiting.WaitSucceedsAfterRollover | balancer.go:72-98 | with the pool used up, the first retry in a later second succeeds with the first item and claims it, for attempts <= 0 or attempts large enough to reach it |
| Waiting.NonPositiveAttemptsSucceed | balancer.go:72-98 | with attempts <= 0 and a pause of 0, a pool used up in the current second still yields the first item two seconds later, at the second tick, after one retry, and that item is claimed in that second |
| Waiting.TestAcquireWaitTimeline | balancer_test.go:96-108 | 3 attempts at Second/20 fail within the second; the next call at Second/3 succeeds with item 0 once the second rolls over |
| Waiting.TestDefaultPauseTimeline | balancer_test.go:114-118 | with pause -10 the call paces at one second and gets the first item in a later second; a call with pause 0 right after gets the second item at once |
| Balancers.SnapshotsFrom | balancer.go:36-38 | the fields of a suffix of the items are the first item's fields then those of the rest |
| Balancers.SnapshotsShuffled | balancer.go:56-60 | shuffling the item objects then reading their fields equals shuffling the field values |
| Balancers.ScanOrderOf | balancer.go:56-60 | the order of the item objects that Acquire scans: a permutation of the list, the list itself when shuffling is off |
| Balancers.ScanOrderSnapshots | balancer.go:56-60 | the objects' scan order, read field by field, is the value-level scan order |
| Balancers.ScanOrderWithin | balancer.go:56-60 | the shuffle only rearranges the items the list already held |
| Balancers.ScanOrderDistinct | balancer.go:56-60 | the shuffle never puts one item object at two positions |
| Balancers.Balancer.constructor | balancer.go:16-20 | New keeps the caller's slice itself, in its order, with shuffling off; the items it may later change are exactly those in the slice, and `Valid` keeps that set equal to the slice's items |
| Balancers.Balancer.SetShuffle | balancer.go:22-24 | only the flag changes, and the balancer stays valid |
| Balancers.Balancer.NumItems | balancer.go:26-30 | the number of items |
| Balancers.Balancer.TotalMaxRequests | balancer.go:32-40 | the loop computes `Capacity`, the sum of the caps |
| Balancers.Balancer.TotalFreeRequests | balancer.go:42-50 | the loop computes `Free`, the sum of cap minus raw counter |
| Balancers.Balancer.Acquire | balancer.go:52-70 | the list is left in scan order and the payload is that of `AcquireIn`; with distinct items, the new state is `AcquireIn`'s |
| Balancers.Balancer.ShuffleIfOn | balancer.go:56-60 | with the flag on, the list becomes its shuffle, in place, and keeps the same items; with it off, nothing changes |
| Balancers.Balancer.ClaimFirstFree | balancer.go:62-69 | the loop returns `Scan`'s payload; with distinct items only the first unsaturated item is claimed |
| Balancers.Balancer.AcquireWait | balancer.go:72-98 | with distinct items, the payload and the new state are those of `Wait` |
| Balancers.Balancer.RetryLoop | balancer.go:81-97 | with distinct items, the payload and the new state are those of `Retry` from round 0 |

## Left out

- The `sync.RWMutex`: every call is atomic in the model, and concurrent callers are not modelled.
- The wall clock: `time.Now()` is replaced by parameters (`now`, and `start` in nanoseconds). The model does not capture the clock moving during a single `Acquire`.
- `math/rand/v2`: the shuffle's random numbers are the parameters `pick` and `picks`. A draw for position i is reduced to 0..i. The distribution is not modelled, so TestShuffle's "the order changed" claim (balancer_test.go:122-143) is out of scope.
- `context.Context` is reduced to an optional cancellation instant. When the cancellation and the tick arrive at the same instant, Go picks either one at random; the model lets the tick win.
- `time.Ticker` is modelled as ideal ticks at start + k*pace. The model does not capture dropped ticks when an `Acquire` is slow, or the time spent inside calls.
- ShuffledRuns.RunCounts: for a shuffled run only the number of successful calls is stated, not which payload each call returns. With shuffling off, `Exhaustion.DrainWithinOneSecond` states the order too.
- Balancers.Balancer.AcquireWait: the loop is followed for at most `rounds` rounds. After that the model returns nil, while Go keeps waiting; with attempts <= 0 the loop never ends by exhaustion, so with no cancellation and a pool that stays saturated it never returns. The payload and the new state are tied to `Wait` only when the list holds each item object once; otherwise no result is stated.
- Balancers.Balancer.RetryLoop: the same `rounds` bound as AcquireWait, and the result is tied to `Retry` only when the list holds each item object once.
- Balancers.Balancer.Acquire: the new state is tied to `AcquireIn` only when the list holds each item object once. With one object at two positions, the payload and the new order are still proved, but no counter of any position is stated.
- Balancers.Balancer.ClaimFirstFree: the same restriction: with repeated item objects, the payload is proved but no counter of any position is stated.
- Balancers.Balancer.constructor: the model assumes that no code outside the balancer writes the slice afterwards (`Valid`). In Go the caller still holds the slice and could replace items in it.
- Payloads: Go stores a `*T` and `Acquire` returns it. `NewItem(nil, k)` would make a successful claim look like nil to `AcquireWait`. The model takes payloads as present values (`Some(item)`).
- Integer widths: `int` and `int64` are unbounded here. The model does not capture the wrap-around of `attempts--` from the most negative `int`, or of the counters.
- The value `addRequest` returns is modelled by `Items.Item.AddRequest`, but `Acquire` ignores it, as in Go.
