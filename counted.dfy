/**
 `GcCounter`: a count with a time-to-live. Each increment is recorded in
 the slot `current_time_ms / gc_slot_duration_ms`; a decrement takes one
 from the oldest slot that still has some; gc drops whole slots that are
 old enough. The count is the sum over all slots.
 */
module GarbageCounted {
  import opened Garbage

  /** `k` is the lowest slot whose count is positive: the slot a decrement takes from. */
  predicate IsFirstPositive(m: map<U64, nat>, k: U64)
  {
    k in m && 0 < m[k] && forall j :: j in m && j < k ==> m[j] == 0
  }

  /** Whenever some slot is positive, there is a lowest positive one. */
  lemma {:induction false} FirstPositiveExists(m: map<U64, nat>, k: U64)
    requires k in m && 0 < m[k]
    ensures exists f: U64 :: f <= k && IsFirstPositive(m, f)
    decreases k
  {
    var below := set j | j in m && j < k && 0 < m[j];
    if below != {} {
      var j := MinKey(below);
      FirstPositiveExists(m, j);
    } else {
      forall j | j in m && j < k
        ensures m[j] == 0
      {
        assert j !in below;
      }
      assert IsFirstPositive(m, k);
    }
  }

  /** Two lowest positive slots are the same slot. */
  lemma FirstPositiveUnique(m: map<U64, nat>, j: U64, k: U64)
    requires IsFirstPositive(m, j) && IsFirstPositive(m, k)
    ensures j == k
  {
    assert !(j < k) && !(k < j);
  }

  /** The slot map after a decrement: one less in the lowest positive slot, if any. */
  ghost function Decremented(m: map<U64, nat>): (r: map<U64, nat>)
    ensures r.Keys == m.Keys
    ensures forall k :: k in m ==> r[k] <= m[k] <= r[k] + 1
  {
    if exists k :: IsFirstPositive(m, k) then
      var k :| IsFirstPositive(m, k); m[k := m[k] - 1]
    else
      m
  }

  /** A decrement changes exactly the lowest positive slot, by one. */
  lemma DecrementedAt(m: map<U64, nat>, k: U64)
    requires IsFirstPositive(m, k)
    ensures Decremented(m) == m[k := m[k] - 1]
  {
    var f :| IsFirstPositive(m, f) && Decremented(m) == m[f := m[f] - 1];
    FirstPositiveUnique(m, f, k);
  }

  /** A decrement changes nothing when every slot is zero. */
  lemma DecrementedAllZero(m: map<U64, nat>)
    requires forall k :: k in m ==> m[k] == 0
    ensures Decremented(m) == m
  {
  }

  /** A decrement lowers the total by exactly one, and never below zero. */
  lemma SumDecremented(m: map<U64, nat>)
    ensures Sum(Decremented(m)) == if Sum(m) == 0 then 0 else Sum(m) - 1
  {
    SumZero(m);
    if k :| k in m && 0 < m[k] {
      FirstPositiveExists(m, k);
      var f :| IsFirstPositive(m, f);
      DecrementedAt(m, f);
      SumUpdate(m, f, m[f] - 1);
    } else {
      DecrementedAllZero(m);
    }
  }

  /** The slot map after an increment in `slot`: one more there, or a new slot holding 1. */
  function Incremented(m: map<U64, nat>, slot: U64): (r: map<U64, nat>)
    ensures r.Keys == m.Keys + {slot}
    ensures forall k :: k in m && k != slot ==> r[k] == m[k]
  {
    m[slot := if slot in m then m[slot] + 1 else 1]
  }

  /** An increment raises the total by exactly one. */
  lemma SumIncremented(m: map<U64, nat>, slot: U64)
    ensures Sum(Incremented(m, slot)) == Sum(m) + 1
  {
    SumUpdate(m, slot, if slot in m then m[slot] + 1 else 1);
  }

  class GcCounter {
    /** How long an increment counts, in milliseconds. */
    const valueTtlMs: Duration
    /** The width of one gc slot, in milliseconds. */
    const gcSlotDurationMs: Duration
    /** The count recorded in each slot. */
    var valueLifetimes: map<U64, nat>

    constructor (valueTtlMs: Duration, gcSlotDurationMs: Duration)
      ensures this.valueTtlMs == valueTtlMs && this.gcSlotDurationMs == gcSlotDurationMs
      ensures valueLifetimes == map[]
      ensures GetCount() == 0
    {
      this.valueTtlMs := valueTtlMs;
      this.gcSlotDurationMs := gcSlotDurationMs;
      valueLifetimes := map[];
    }

    /** The current count: the sum of all slots. */
    function GetCount(): (count: nat)
      reads this
      ensures count == 0 <==> forall k :: k in valueLifetimes ==> valueLifetimes[k] == 0
      ensures forall k :: k in valueLifetimes ==> valueLifetimes[k] <= count
    {
      SumZero(valueLifetimes);
      SumBoundsSlots(valueLifetimes);
      Sum(valueLifetimes)
    }

    /**
     Takes one from the lowest slot with a positive count, walking the slots
     in ascending order; does nothing when every slot is zero.
     */
    method Decrement()
      modifies this
      ensures valueLifetimes == Decremented(old(valueLifetimes))
      ensures GetCount() == if old(GetCount()) == 0 then 0 else old(GetCount()) - 1
      ensures old(GetCount()) == 0 ==> valueLifetimes == old(valueLifetimes)
    {
      if GetCount() == 0 {
        DecrementedAllZero(valueLifetimes);
      }
      SumDecremented(valueLifetimes);
      var rest := valueLifetimes.Keys;
      while rest != {}
        invariant rest <= valueLifetimes.Keys
        invariant valueLifetimes == old(valueLifetimes)
        invariant forall k :: k in valueLifetimes && k !in rest ==> valueLifetimes[k] == 0
        invariant forall k, j :: k in valueLifetimes && k !in rest && j in rest ==> k < j
        decreases rest
      {
        var slot := MinKey(rest);
        if valueLifetimes[slot] > 0 {
          DecrementedAt(valueLifetimes, slot);
          valueLifetimes := valueLifetimes[slot := valueLifetimes[slot] - 1];
          break;
        }
        rest := rest - {slot};
      }
      if rest == {} {
        DecrementedAllZero(valueLifetimes);
      }
    }

    /** Adds one to the slot of `currentTimeMs`, creating the slot with count 1 when absent. */
    method Increment(currentTimeMs: U64)
      modifies this
      ensures valueLifetimes == Incremented(old(valueLifetimes), SlotOf(currentTimeMs, gcSlotDurationMs))
      ensures GetCount() == old(GetCount()) + 1
    {
      var slot := SlotOf(currentTimeMs, gcSlotDurationMs);
      SumIncremented(valueLifetimes, slot);
      if slot in valueLifetimes {
        valueLifetimes := valueLifetimes[slot := valueLifetimes[slot] + 1];
      } else {
        valueLifetimes := valueLifetimes[slot := 1];
      }
    }

    /**
     Drops every slot at or below `currentTimeMs/d - ttl/d` (`d` the slot
     width); the slots above are untouched, so the count never rises.
     */
    method Gc(currentTimeMs: U64)
      requires CanCollect(currentTimeMs, valueTtlMs, gcSlotDurationMs)
      modifies this
      ensures valueLifetimes == Retain(old(valueLifetimes), Cutoff(currentTimeMs, valueTtlMs, gcSlotDurationMs))
      ensures GetCount() <= old(GetCount())
    {
      var slotCutoff := Cutoff(currentTimeMs, valueTtlMs, gcSlotDurationMs);
      var slotsToRemove := SlotsUpTo(valueLifetimes, slotCutoff);
      ghost var before := valueLifetimes;
      for i := 0 to |slotsToRemove|
        invariant forall k :: k in valueLifetimes <==> k in before && k !in slotsToRemove[..i]
        invariant forall k :: k in valueLifetimes ==> valueLifetimes[k] == before[k]
      {
        valueLifetimes := valueLifetimes - {slotsToRemove[i]};
      }
      assert slotsToRemove[..|slotsToRemove|] == slotsToRemove;
      assert valueLifetimes == Retain(before, slotCutoff);
      SumRetain(before, slotCutoff);
    }
  }

  /**
   The slot map of the unit test of `GcCounter` (slots of 10 ms, gc cutoff 0
   at 100 ms): three increments in slot 0, a decrement, an increment in
   slot 1; after gc only slot 1 remains, holding 1.
   */
  lemma CounterTestSlots()
    ensures Retain(Incremented(Decremented(Incremented(Incremented(Incremented(map[], 0), 0), 0)), 1), 0)
      == map[1 := 1]
    ensures Sum(map[1 := 1]) == 1
  {
    var three := Incremented(Incremented(Incremented(map[], 0), 0), 0);
    assert three == map[0 := 3];
    DecrementedAt(three, 0);
    assert Incremented(Decremented(three), 1) == map[0 := 2, 1 := 1];
    SumSingle(map[1 := 1], 1);
  }

  /**
   The unit test of `GcCounter` (ttl 100 ms, slots of 10 ms): three
   increments at 0, one decrement, one increment at 10, then gc at 100.
   */
  method GcCounterScenario() returns (afterIncrements: nat, afterDecrement: nat, afterGc: nat)
    ensures afterIncrements == 3 && afterDecrement == 2 && afterGc == 1
  {
    var c := new GcCounter(100, 10);
    c.Increment(0);
    c.Increment(0);
    c.Increment(0);
    afterIncrements := c.GetCount();
    c.Decrement();
    afterDecrement := c.GetCount();
    c.Increment(10);
    c.Gc(100);
    CounterTestSlots();
    afterGc := c.GetCount();
  }
}
