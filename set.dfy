/**
 `GcSet`: a set of values with a time-to-live. Each value is filed in the
 bucket of the slot `current_time_ms / gc_slot_duration_ms` of its last
 insertion; gc drops whole buckets whose slot is old enough.

 The abstract view of a set is `Expiries`: the map from each member to the
 slot it is filed under. Every operation is specified twice, on the slot
 map itself and on that view.
 */
module GarbageSet {
  import opened Garbage

  /** The invariant the operations keep: a value sits in at most one bucket. */
  ghost predicate AtMostOneSlot<V>(m: map<U64, set<V>>)
  {
    forall j, k, v :: j in m && k in m && v in m[j] && v in m[k] ==> j == k
  }

  /** Every value held by some bucket. */
  ghost function Members<V>(m: map<U64, set<V>>): (r: set<V>)
    ensures forall v :: v in r ==> exists k :: k in m && v in m[k]
    ensures forall k, v :: k in m && v in m[k] ==> v in r
  {
    set k, v | k in m && v in m[k] :: v
  }

  /** The slot of the bucket that holds `v`; unique under the invariant. */
  ghost function SlotHolding<V>(m: map<U64, set<V>>, v: V): (k: U64)
    requires AtMostOneSlot(m)
    requires v in Members(m)
    ensures k in m && v in m[k]
    ensures forall j :: j in m && v in m[j] ==> j == k
  {
    var k :| k in m && v in m[k]; k
  }

  /** Each member mapped to the slot of the one bucket that holds it. */
  ghost function Expiries<V>(m: map<U64, set<V>>): (r: map<V, U64>)
    requires AtMostOneSlot(m)
    ensures r.Keys == Members(m)
    ensures forall k, v :: k in m && v in m[k] ==> r[v] == k
  {
    map v | v in Members(m) :: SlotHolding(m, v)
  }

  /** Taking out a value that no bucket holds changes nothing. */
  lemma WithoutAbsent<V>(m: map<U64, set<V>>, v: V)
    requires forall k :: k in m ==> v !in m[k]
    ensures Without(m, v) == m
  {
    forall k | k in m
      ensures Without(m, v)[k] == m[k]
    {
      assert m[k] - {v} == m[k];
    }
  }

  /** Under the invariant, taking a value out of its one bucket takes it out of all. */
  lemma WithoutHolder<V>(m: map<U64, set<V>>, slot: U64, v: V)
    requires AtMostOneSlot(m)
    requires slot in m && v in m[slot]
    ensures Without(m, v) == m[slot := m[slot] - {v}]
  {
    forall k | k in m && k != slot
      ensures Without(m, v)[k] == m[k]
    {
      assert v !in m[k];
      assert m[k] - {v} == m[k];
    }
  }

  /** The view after a gc with the given cutoff: the members whose slot is above it. */
  ghost function Unexpired<V>(e: map<V, U64>, cutoff: U64): (r: map<V, U64>)
    ensures forall v :: v in r ==> v in e && cutoff < e[v] && r[v] == e[v]
    ensures forall v :: v in e && cutoff < e[v] ==> v in r
  {
    map v | v in e && cutoff < e[v] :: e[v]
  }

  /**
   A member filed for the time `filedMs` survives a gc at `timeMs` while
   its age is at most `ttl/d - 1` slots, and is gone once its age reaches
   `(ttl/d + 1) * d - 1` milliseconds.
   */
  lemma UnexpiredByAge<V>(e: map<V, U64>, v: V, filedMs: U64, timeMs: U64, ttl: Duration, slotDuration: Duration)
    requires v in e && e[v] == SlotOf(filedMs, slotDuration)
    requires CanCollect(timeMs, ttl, slotDuration) && filedMs <= timeMs
    ensures timeMs - filedMs <= (ttl / slotDuration - 1) * slotDuration
      ==> v in Unexpired(e, Cutoff(timeMs, ttl, slotDuration))
    ensures timeMs - filedMs >= (ttl / slotDuration + 1) * slotDuration - 1
      ==> v !in Unexpired(e, Cutoff(timeMs, ttl, slotDuration))
  {
    CutoffAges(filedMs, timeMs, ttl, slotDuration);
  }

  /** Every bucket with `v` taken out; buckets left empty stay in the map. */
  function Without<V>(m: map<U64, set<V>>, v: V): (r: map<U64, set<V>>)
    ensures r.Keys == m.Keys
    ensures forall k :: k in r ==> r[k] == m[k] - {v}
  {
    map k | k in m :: m[k] - {v}
  }

  /** `v` added to the bucket of `slot`, which is created when absent. */
  function FiledUnder<V>(m: map<U64, set<V>>, slot: U64, v: V): (r: map<U64, set<V>>)
    ensures r.Keys == m.Keys + {slot}
    ensures v in r[slot]
    ensures forall k :: k in r && k != slot ==> r[k] == m[k]
    ensures slot in m ==> m[slot] <= r[slot]
    ensures forall w :: w in r[slot] ==> w == v || (slot in m && w in m[slot])
  {
    m[slot := (if slot in m then m[slot] else {}) + {v}]
  }

  /** Taking a value out of every bucket keeps the invariant and drops it from the view. */
  lemma ExpiriesWithout<V>(m: map<U64, set<V>>, v: V)
    requires AtMostOneSlot(m)
    ensures AtMostOneSlot(Without(m, v))
    ensures v !in Members(Without(m, v))
    ensures Expiries(Without(m, v)) == Expiries(m) - {v}
  {
    var r := Without(m, v);
    var e, e' := Expiries(m), Expiries(r);
    forall w | w in e'
      ensures w in e && w != v && e'[w] == e[w]
    {
      var k :| k in r && w in r[k];
      assert w in m[k];
    }
    forall w | w in e && w != v
      ensures w in e'
    {
      var k :| k in m && w in m[k];
      assert w in r[k];
    }
  }

  /** Filing a value that no bucket holds keeps the invariant and adds it to the view. */
  lemma ExpiriesFiledUnder<V>(m: map<U64, set<V>>, slot: U64, v: V)
    requires AtMostOneSlot(m)
    requires v !in Members(m)
    ensures AtMostOneSlot(FiledUnder(m, slot, v))
    ensures Expiries(FiledUnder(m, slot, v)) == Expiries(m)[v := slot]
  {
    var r := FiledUnder(m, slot, v);
    forall j, k, w | j in r && k in r && w in r[j] && w in r[k]
      ensures j == k
    {
      if w == v {
        assert j == slot && k == slot;
      } else {
        assert w in m[j] && w in m[k];
      }
    }
    var e, e' := Expiries(m), Expiries(r);
    forall w | w in e'
      ensures w in e[v := slot] && e'[w] == e[v := slot][w]
    {
      var k :| k in r && w in r[k];
      if w != v {
        assert w in m[k];
      }
    }
    forall w | w in e[v := slot]
      ensures w in e'
    {
      if w != v {
        var k :| k in m && w in m[k];
        assert w in r[k];
      }
    }
  }

  /** Re-filing a value under a slot moves it there in the view, whatever its old slot. */
  lemma ExpiriesRefiled<V>(m: map<U64, set<V>>, slot: U64, v: V)
    requires AtMostOneSlot(m)
    ensures AtMostOneSlot(FiledUnder(Without(m, v), slot, v))
    ensures Expiries(FiledUnder(Without(m, v), slot, v)) == Expiries(m)[v := slot]
  {
    var e := Expiries(m);
    ExpiriesWithout(m, v);
    ExpiriesFiledUnder(Without(m, v), slot, v);
    assert (e - {v})[v := slot] == e[v := slot];
  }

  /** Dropping whole buckets keeps the invariant. */
  lemma RetainAtMostOneSlot<V>(m: map<U64, set<V>>, cutoff: U64)
    requires AtMostOneSlot(m)
    ensures AtMostOneSlot(Retain(m, cutoff))
  {
    var r := Retain(m, cutoff);
    forall j, k, w | j in r && k in r && w in r[j] && w in r[k]
      ensures j == k
    {
      assert w in m[j] && w in m[k];
    }
  }

  /** Two views with the same members at the same slots are equal. */
  lemma SameEntries<V>(a: map<V, U64>, b: map<V, U64>)
    requires forall w :: w in a ==> w in b && a[w] == b[w]
    requires forall w :: w in b ==> w in a
    ensures a == b
  {
  }

  /** One value's part of `ExpiriesRetain`: it is in the view after gc iff it was unexpired, at the same slot. */
  lemma ExpiriesRetainAt<V>(m: map<U64, set<V>>, cutoff: U64, w: V)
    requires AtMostOneSlot(m) && AtMostOneSlot(Retain(m, cutoff))
    ensures w in Expiries(Retain(m, cutoff)) <==> w in Unexpired(Expiries(m), cutoff)
    ensures w in Expiries(Retain(m, cutoff)) ==> Expiries(Retain(m, cutoff))[w] == Expiries(m)[w]
  {
    var r := Retain(m, cutoff);
    if w in Expiries(r) {
      var k := SlotHolding(r, w);
      assert w in m[k];
    }
    if w in Unexpired(Expiries(m), cutoff) {
      var k := SlotHolding(m, w);
      assert w in r[k];
    }
  }

  /** Dropping the buckets up to a cutoff keeps exactly the unexpired members, at their slots. */
  lemma ExpiriesRetain<V>(m: map<U64, set<V>>, cutoff: U64)
    requires AtMostOneSlot(m)
    ensures AtMostOneSlot(Retain(m, cutoff))
    ensures Expiries(Retain(m, cutoff)) == Unexpired(Expiries(m), cutoff)
  {
    RetainAtMostOneSlot(m, cutoff);
    var e, e' := Unexpired(Expiries(m), cutoff), Expiries(Retain(m, cutoff));
    forall w | w in e'
      ensures w in e && e'[w] == e[w]
    {
      ExpiriesRetainAt(m, cutoff, w);
    }
    forall w | w in e
      ensures w in e'
    {
      ExpiriesRetainAt(m, cutoff, w);
    }
    SameEntries(e', e);
  }

  class GcSet<V(==, !new)> {
    /** How long a value stays valid, in milliseconds. */
    const valueTtlMs: Duration
    /** The width of one gc slot, in milliseconds. */
    const gcSlotDurationMs: Duration
    /** The buckets of values, by slot. */
    var valueLifetimes: map<U64, set<V>>

    ghost predicate Valid()
      reads this
    {
      AtMostOneSlot(valueLifetimes)
    }

    constructor (valueTtlMs: Duration, gcSlotDurationMs: Duration)
      ensures Valid()
      ensures this.valueTtlMs == valueTtlMs && this.gcSlotDurationMs == gcSlotDurationMs
      ensures valueLifetimes == map[]
      ensures Expiries(valueLifetimes) == map[]
    {
      this.valueTtlMs := valueTtlMs;
      this.gcSlotDurationMs := gcSlotDurationMs;
      valueLifetimes := map[];
    }

    /** Whether `value` is a member, in terms of the view. */
    function Contains(value: V): (r: bool)
      requires Valid()
      reads this
      ensures r <==> value in Expiries(valueLifetimes)
    {
      exists k | k in valueLifetimes :: value in valueLifetimes[k]
    }

    /**
     Takes `value` out of its bucket, walking the buckets from the highest
     slot down and stopping at the first that held it. Empty buckets stay.
     */
    method RemoveValue(value: V)
      requires Valid()
      modifies this
      ensures Valid()
      ensures valueLifetimes == Without(old(valueLifetimes), value)
      ensures !old(Contains(value)) ==> valueLifetimes == old(valueLifetimes)
      ensures Expiries(valueLifetimes) == old(Expiries(valueLifetimes)) - {value}
      ensures !Contains(value)
      ensures forall w :: w != value ==> (Contains(w) <==> old(Contains(w)))
    {
      ExpiriesWithout(valueLifetimes, value);
      var rest := valueLifetimes.Keys;
      while rest != {}
        invariant rest <= valueLifetimes.Keys
        invariant valueLifetimes == old(valueLifetimes)
        invariant forall k :: k in valueLifetimes && k !in rest ==> value !in valueLifetimes[k]
        decreases rest
      {
        var slot := MaxKey(rest);
        if value in valueLifetimes[slot] {
          WithoutHolder(valueLifetimes, slot, value);
          valueLifetimes := valueLifetimes[slot := valueLifetimes[slot] - {value}];
          break;
        }
        rest := rest - {slot};
      }
      if rest == {} {
        WithoutAbsent(valueLifetimes, value);
      }
    }

    /**
     Files `value` under the slot of `currentTimeMs`, taking it out of the
     bucket it was in, so that a re-insert refreshes its lifetime.
     */
    method Insert(value: V, currentTimeMs: U64)
      requires Valid()
      modifies this
      ensures Valid()
      ensures valueLifetimes ==
        FiledUnder(Without(old(valueLifetimes), value), SlotOf(currentTimeMs, gcSlotDurationMs), value)
      ensures Expiries(valueLifetimes) ==
        old(Expiries(valueLifetimes))[value := SlotOf(currentTimeMs, gcSlotDurationMs)]
      ensures Contains(value) && value in valueLifetimes[SlotOf(currentTimeMs, gcSlotDurationMs)]
      ensures forall w :: w != value ==> (Contains(w) <==> old(Contains(w)))
    {
      ghost var before := valueLifetimes;
      RemoveValue(value);
      var slot := SlotOf(currentTimeMs, gcSlotDurationMs);
      valueLifetimes := FiledUnder(valueLifetimes, slot, value);
      ExpiriesRefiled(before, slot, value);
    }

    /**
     Drops every bucket whose slot is at or below `currentTimeMs/d - ttl/d`
     (`d` the slot width); the buckets above are untouched.
     */
    method Gc(currentTimeMs: U64)
      requires Valid()
      requires CanCollect(currentTimeMs, valueTtlMs, gcSlotDurationMs)
      modifies this
      ensures Valid()
      ensures valueLifetimes == Retain(old(valueLifetimes), Cutoff(currentTimeMs, valueTtlMs, gcSlotDurationMs))
      ensures Expiries(valueLifetimes) ==
        Unexpired(old(Expiries(valueLifetimes)), Cutoff(currentTimeMs, valueTtlMs, gcSlotDurationMs))
      ensures forall v :: Contains(v) ==> old(Contains(v))
    {
      var slotCutoff := Cutoff(currentTimeMs, valueTtlMs, gcSlotDurationMs);
      var slotsToRemove := SlotsUpTo(valueLifetimes, slotCutoff);
      ghost var before := valueLifetimes;
      for i := 0 to |slotsToRemove|
        invariant forall k :: k in valueLifetimes <==> k in before && k !in slotsToRemove[..i]
        invariant forall k :: k in valueLifetimes ==> valueLifetimes[k] == before[k]
      {
        valueLifetimes := valueLifetimes - {slotsToRemove[i]};
      }
      assert slotsToRemove[..|slotsToRemove|] == slotsToRemove;
      assert valueLifetimes == Retain(before, slotCutoff);
      ExpiriesRetain(before, slotCutoff);
    }
  }

  /**
   The unit test of `GcSet` (ttl 100 ms, slots of 10 ms): value 1 inserted
   at 0 and again at 100, value 2 inserted at 0, then gc at 100.
   */
  method GcSetScenario() returns (afterInsert: bool, afterReinsert: bool, keepsOne: bool, keepsTwo: bool)
    ensures afterInsert && afterReinsert
    ensures keepsOne && !keepsTwo
  {
    var s := new GcSet<int>(100, 10);
    s.Insert(1, 0);
    afterInsert := s.Contains(1);
    s.Insert(1, 100);
    afterReinsert := s.Contains(1);
    s.Insert(2, 0);
    ghost var filed := Expiries(s.valueLifetimes);
    assert filed[1] == 10 && filed[2] == 0;
    s.Gc(100);
    keepsOne := s.Contains(1);
    keepsTwo := s.Contains(2);
  }
}
