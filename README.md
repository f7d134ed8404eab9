# Garbage-collected set and counter

This project models the two time-bucketed, garbage-collected collections in
`util/collections/src/garbage`:

- `GcSet<V>` is a set of values with a time-to-live. Every value is filed in
  the bucket of slot `current_time_ms / gc_slot_duration_ms`. The buckets are
  held in an ordered map from slot to hash set. Re-inserting a value moves it
  to the newer slot.
- `GcCounter` is a count with the same slotting. The ordered map goes from
  slot to count. `increment` bumps the current slot. `decrement` takes one
  from the lowest slot that still has a positive count. `get_count` sums all
  slots.
- Both have a `gc(now)` that drops every slot whose key is at or below
  `now/d - ttl/d`, where `d` is the slot width.

Files:

- `garbage.dfy` (module `Garbage`): the shared vocabulary. It defines `u64`
  (`U64`), the positive `Duration`, the slot of a time, and the gc cutoff. It
  models ordered iteration over the map's keys: `MinKey` and `MaxKey` give the
  first key of an ascending or descending walk. It also holds the map left by
  gc (`Retain`), the ascending key walk that gc runs (`SlotsUpTo`), and the
  sum of a counter map (`Sum`) with its lemmas.
- `set.dfy` (module `GarbageSet`): class `GcSet`. Its invariant is that a
  value sits in at most one bucket. Its abstract view, `Expiries`, maps each
  member to its slot. Every operation is specified both on the slot map and
  on that view.
- `counted.dfy` (module `GarbageCounted`): class `GcCounter`. It also has the
  pure functions `Incremented` and `Decremented`, which give the new slot map
  after each operation, and their lemmas about the total.

Both unit tests are modelled as methods that build the object, replay the
test's calls, and return the values the test asserts. Their `ensures` clauses
state the expected values.

Slot rounding means gc does not drop an entry exactly when its ttl has
passed. With `a = ttl/d`, an entry survives a gc while its age is at most
`(a - 1) * d` ms and is gone once its age reaches `(a + 1) * d - 1` ms.
Between those bounds the outcome depends on where the two times fall within
their slots. With a ttl of 100 ms and 10 ms slots, for example, a value
inserted at 9 ms is dropped by `gc(100)` at age 91 ms.

## Model

| member | source | states |
|---|---|---|
| Garbage.SlotOf | util/collections/src/garbage/set.rs:43 | the slot of a time is the `k` with `k*d <= t < (k+1)*d`, and it fits in a `u64` |
| Garbage.CanCollect | util/collections/src/garbage/counted.rs:56-59 | gc can compute its cutoff only when the ttl in slots is at most the current slot, since the subtraction is unsigned |
| Garbage.Cutoff | util/collections/src/garbage/set.rs:57-60 | the cutoff `t/d - ttl/d` fits in a `u64` when gc may run, and the cutoff slot plus the ttl in slots ends no later than `t`; `CutoffAges` states what it means for an entry's age |
| Garbage.CutoffAges | util/collections/src/garbage/set.rs:57-64 | an entry filed at `t0` is kept by gc at `t` while `t - t0 <= (ttl/d - 1)*d`, and dropped once `t - t0 >= (ttl/d + 1)*d - 1` |
| Garbage.MinKey | util/collections/src/garbage/counted.rs:23 | the first key of an ascending walk over the map is in the map and no larger than any key |
| Garbage.MaxKey | util/collections/src/garbage/set.rs:30 | the first key of the reversed walk is in the map and no smaller than any key |
| Garbage.Retain | util/collections/src/garbage/set.rs:61-69 | after gc, a slot is present iff it was present and lies above the cutoff, and each surviving slot keeps its contents |
| Garbage.RetainIdempotent | util/collections/src/garbage/counted.rs:55-69 | a second gc at the same time removes nothing more |
| Garbage.SlotsUpTo | util/collections/src/garbage/set.rs:61-66 | `take_while(<= cutoff)` over the ascending keys collects exactly the keys at or below the cutoff, in strictly ascending order |
| Garbage.Sum | util/collections/src/garbage/counted.rs:50 | the total of all slot counts, adding up the slots in ascending key order |
| Garbage.SumRemove | util/collections/src/garbage/counted.rs:48-51 | the total is any one slot's count plus the total of the others, so it does not depend on summation order |
| Garbage.SumUpdate | util/collections/src/garbage/counted.rs:37-44 | setting one slot to `x` changes the total by `x` minus the old count, or adds `x` when the slot is new |
| Garbage.SumBoundsSlots | util/collections/src/garbage/counted.rs:48-51 | no slot's count exceeds the total |
| Garbage.SumZero | util/collections/src/garbage/counted.rs:48-51 | the total is zero iff every slot is zero |
| Garbage.SumSubMap | util/collections/src/garbage/counted.rs:48-51 | a map holding some of another map's slots, unchanged, has no larger total |
| Garbage.SumRetain | util/collections/src/garbage/counted.rs:55-69 | gc never raises the count |
| GarbageSet.AtMostOneSlot | util/collections/src/garbage/set.rs:38-47 | the invariant `insert` keeps by removing before filing: no value sits in two buckets |
| GarbageSet.Members | util/collections/src/garbage/set.rs:50-52 | a value is a member iff some bucket holds it |
| GarbageSet.SlotHolding | util/collections/src/garbage/set.rs:14-15 | under the invariant, a member's bucket exists and is the only one holding it |
| GarbageSet.Expiries | util/collections/src/garbage/set.rs:14-15 | the view maps exactly the members, each to the slot of the bucket holding it |
| GarbageSet.Unexpired | util/collections/src/garbage/set.rs:56-70 | after gc the view keeps exactly the members whose slot is above the cutoff, at the same slots |
| GarbageSet.UnexpiredByAge | util/collections/src/garbage/set.rs:56-70 | a member filed at `t0` stays in the view after gc at `t` while `t - t0 <= (ttl/d - 1)*d`, and leaves it once `t - t0 >= (ttl/d + 1)*d - 1` |
| GarbageSet.Without | util/collections/src/garbage/set.rs:28-35 | removing a value keeps every bucket, emptied ones included, minus that value |
| GarbageSet.FiledUnder | util/collections/src/garbage/set.rs:46 | `entry(slot).or_insert_with(HashSet::new).insert(v)` adds `v` to that slot's bucket, creating it if absent, and leaves other buckets alone |
| GarbageSet.WithoutAbsent | util/collections/src/garbage/set.rs:28-35 | removing a value that no bucket holds changes nothing |
| GarbageSet.WithoutHolder | util/collections/src/garbage/set.rs:30-33 | under the invariant, removing from the first bucket found equals removing from every bucket |
| GarbageSet.ExpiriesWithout | util/collections/src/garbage/set.rs:28-35 | removal keeps the invariant and drops exactly that value from the view |
| GarbageSet.ExpiriesFiledUnder | util/collections/src/garbage/set.rs:43-46 | filing a non-member keeps the invariant and maps it to the new slot in the view |
| GarbageSet.ExpiriesRefiled | util/collections/src/garbage/set.rs:38-47 | remove-then-file keeps the invariant and moves the value to the new slot, whatever its old one |
| GarbageSet.RetainAtMostOneSlot | util/collections/src/garbage/set.rs:67-69 | removing whole buckets keeps the one-slot-per-value invariant |
| GarbageSet.ExpiriesRetainAt | util/collections/src/garbage/set.rs:61-69 | a value is in the view after gc iff it was unexpired before, and it keeps its slot |
| GarbageSet.ExpiriesRetain | util/collections/src/garbage/set.rs:56-70 | gc keeps the invariant and leaves the view holding exactly the unexpired members |
| GarbageSet.GcSet.constructor | util/collections/src/garbage/set.rs:23-25 | a new set keeps both durations and has no buckets and no members |
| GarbageSet.GcSet.Contains | util/collections/src/garbage/set.rs:50-52 | `contains(v)` holds iff `v` is in the view |
| GarbageSet.GcSet.RemoveValue | util/collections/src/garbage/set.rs:28-35 | the value leaves its bucket and the buckets stay; a no-op on a non-member; afterwards `contains(v)` is false and every other value's membership is unchanged |
| GarbageSet.GcSet.Insert | util/collections/src/garbage/set.rs:38-47 | the value ends in the bucket of `t/d` and nowhere else; the view maps it to `t/d`; `contains(v)` holds; other values' memberships are unchanged |
| GarbageSet.GcSet.Gc | util/collections/src/garbage/set.rs:56-70 | needs `ttl/d <= t/d`; removes exactly the buckets at or below the cutoff and keeps the rest; the view keeps exactly the unexpired members; no membership is gained |
| GarbageSet.GcSetScenario | util/collections/src/garbage/set.rs:82-110 | value 1 is present after both inserts; after gc at 100, value 1 is present and value 2 is gone |
| GarbageCounted.FirstPositiveExists | util/collections/src/garbage/counted.rs:23-28 | if some slot is positive, a lowest positive slot exists at or below it |
| GarbageCounted.FirstPositiveUnique | util/collections/src/garbage/counted.rs:23-28 | there is at most one lowest positive slot |
| GarbageCounted.Decremented | util/collections/src/garbage/counted.rs:23-28 | one less in the lowest positive slot and unchanged when every slot is zero; it keeps every key and lowers no slot by more than one |
| GarbageCounted.DecrementedAt | util/collections/src/garbage/counted.rs:23-28 | a decrement changes only the lowest positive slot, by one |
| GarbageCounted.DecrementedAllZero | util/collections/src/garbage/counted.rs:24 | a decrement is a no-op when every slot is zero |
| GarbageCounted.SumDecremented | util/collections/src/garbage/counted.rs:21-29 | a decrement lowers the count by exactly one, and leaves a zero count at zero |
| GarbageCounted.Incremented | util/collections/src/garbage/counted.rs:37-44 | an increment adds its slot to the keys and leaves every other slot unchanged |
| GarbageCounted.SumIncremented | util/collections/src/garbage/counted.rs:32-45 | an increment raises the count by exactly one |
| GarbageCounted.GcCounter.constructor | util/collections/src/garbage/counted.rs:16-18 | a new counter keeps both durations, has no slots, and counts zero |
| GarbageCounted.GcCounter.GetCount | util/collections/src/garbage/counted.rs:48-51 | the count is zero iff every slot is zero, and bounds every slot |
| GarbageCounted.GcCounter.Decrement | util/collections/src/garbage/counted.rs:21-29 | the new slot map is the decremented one; the count drops by one, and when it was zero nothing changes |
| GarbageCounted.GcCounter.Increment | util/collections/src/garbage/counted.rs:32-45 | the slot of `t/d` gains one, or is created holding 1; the count rises by one |
| GarbageCounted.GcCounter.Gc | util/collections/src/garbage/counted.rs:55-69 | needs `ttl/d <= t/d`; removes exactly the slots at or below the cutoff, keeps the rest, and never raises the count |
| GarbageCounted.CounterTestSlots | util/collections/src/garbage/counted.rs:82-99 | the test's calls leave only slot 1, holding 1, and that map totals 1 |
| GarbageCounted.GcCounterScenario | util/collections/src/garbage/counted.rs:82-99 | the count is 3 after three increments, 2 after the decrement, and 1 after the increment at 10 and gc at 100 |

## Left out

- GarbageSet.GcSet.Gc: requires `ttl/d <= t/d`, because `gc_slot - ttl/d` is a `u64` subtraction. A debug build panics when it would go negative; a release build wraps around and would then drop every bucket. That wrapped path is not modelled.
- GarbageCounted.GcCounter.Gc: requires `ttl/d <= t/d`, for the same unsigned subtraction.
- GarbageCounted.GcCounter.Increment: counts are unbounded `nat`s. The `u64` overflow of `*lifetime += 1` is not modelled.
- GarbageCounted.GcCounter.GetCount: the total is an unbounded `nat`. The `u64` overflow of `.sum()` is not modelled.
- GarbageSet.GcSet.RemoveValue: the contract is stated under the one-slot-per-value invariant, which every operation keeps. Under it, stopping at the first bucket that held the value, scanning from the highest slot, equals removing the value from every bucket. What the scan would do if a value were in two buckets is not stated.
- `Duration::try_new` and the rest of `crate::garbage::Duration` are outside this model. `Duration` is a positive `u64`, so its zero-duration error is never reached.
- `BTreeMap` and `HashSet` are a Dafny `map` and `set`. Their ordered iteration is modelled by repeatedly taking the smallest or largest key not yet visited.
- The value type of `GcSet` may not hold references (`V(==, !new)`). That matches the `Eq + Hash` plain values the set is used with.
- The stake-weighted commitment-finality engine of the repository is not part of this model; neither modelled file implements it.
- The integration tests, the light-node sequencer, the full-node plumbing, the client end-to-end tests and the genesis-ceremony test are not part of this model. They are network, RPC and async I/O code.
