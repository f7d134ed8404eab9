/**
 Shared vocabulary of the garbage-collected collections: unsigned 64-bit
 times and slot keys, the positive `Duration`, the slot of a time, the gc
 cutoff, ordered access to the keys of a slot map (the smallest and largest
 key stand for the ascending and descending iteration of a `BTreeMap`), the
 map left after dropping the expired slots, and the sum of a counter map.
 */
module Garbage {

  /** An unsigned 64-bit integer (`u64`). */
  type U64 = x: int | 0 <= x < 0x1_0000_0000_0000_0000

  /** A `Duration` in milliseconds: built only by a fallible constructor that refuses zero. */
  type Duration = x: U64 | 0 < x witness 1

  /** The slot a time falls into: `current_time_ms / gc_slot_duration_ms`. */
  function SlotOf(timeMs: U64, slotDuration: Duration): (slot: U64)
    ensures slot * slotDuration <= timeMs < (slot + 1) * slotDuration
  {
    timeMs / slotDuration
  }

  /**
   Whether gc may run at `timeMs`: the cutoff `timeMs/d - ttl/d` is an
   unsigned subtraction, which must not go below zero.
   */
  predicate CanCollect(timeMs: U64, ttl: Duration, slotDuration: Duration)
  {
    ttl / slotDuration <= timeMs / slotDuration
  }

  /** The highest slot key that gc drops at `timeMs`. */
  function Cutoff(timeMs: U64, ttl: Duration, slotDuration: Duration): (cutoff: U64)
    requires CanCollect(timeMs, ttl, slotDuration)
    ensures (cutoff + ttl / slotDuration) * slotDuration <= timeMs
  {
    SlotOf(timeMs, slotDuration) - ttl / slotDuration
  }

  /**
   What the cutoff means for an entry filed at `filedMs`, with `a = ttl/d`
   slots of lifetime: gc at `timeMs` keeps it while its age is at most
   `(a - 1) * d` and drops it once its age reaches `(a + 1) * d - 1`.
   Between the two bounds the outcome depends on where the times fall in
   their slots, so an entry can be dropped before `ttl` has passed.
   */
  lemma CutoffAges(filedMs: U64, timeMs: U64, ttl: Duration, slotDuration: Duration)
    requires CanCollect(timeMs, ttl, slotDuration) && filedMs <= timeMs
    ensures timeMs - filedMs <= (ttl / slotDuration - 1) * slotDuration
      ==> Cutoff(timeMs, ttl, slotDuration) < SlotOf(filedMs, slotDuration)
    ensures timeMs - filedMs >= (ttl / slotDuration + 1) * slotDuration - 1
      ==> SlotOf(filedMs, slotDuration) <= Cutoff(timeMs, ttl, slotDuration)
  {
    var d, a := slotDuration, ttl / slotDuration;
    var s, k := SlotOf(timeMs, d), SlotOf(filedMs, d);
    var age := timeMs - filedMs;
    // s*d <= timeMs < s*d + d and k*d <= filedMs < k*d + d
    MulSucc(s, d);
    MulSucc(k, d);
    MulSub(s, k, d);
    if age <= (a - 1) * d && a <= s - k {
      // age > (s - k - 1) * d, which is at least (a - 1) * d
      MulSucc(s - k - 1, d);
      MulLe(a - 1, s - k - 1, d);
      assert false;
    }
    if age >= (a + 1) * d - 1 && s - a < k {
      // age < (s - k + 1) * d, which is at most a * d
      MulSucc(s - k, d);
      MulLe(s - k + 1, a, d);
      MulSucc(a, d);
      assert false;
    }
  }

  /** One more factor adds `d`. */
  lemma MulSucc(x: int, d: int)
    ensures (x + 1) * d == x * d + d
  {
  }

  /** Multiplication distributes over a difference. */
  lemma MulSub(x: int, y: int, d: int)
    ensures (x - y) * d == x * d - y * d
  {
  }

  /** Multiplying by a non-negative factor keeps the order. */
  lemma MulLe(x: int, y: int, d: int)
    requires x <= y && 0 <= d
    ensures x * d <= y * d
  {
    MulSub(y, x, d);
  }

  /** `k` is the smallest key of `s`. */
  predicate IsLeast(s: set<U64>, k: U64)
  {
    k in s && forall j :: j in s ==> k <= j
  }

  /** `k` is the largest key of `s`. */
  predicate IsGreatest(s: set<U64>, k: U64)
  {
    k in s && forall j :: j in s ==> j <= k
  }

  /** Every non-empty finite set of keys has a smallest element. */
  lemma {:induction false} LeastExists(s: set<U64>)
    requires s != {}
    ensures exists k :: IsLeast(s, k)
  {
    var x :| x in s;
    var rest := s - {x};
    if rest == {} {
      forall j | j in s
        ensures j == x
      {
        assert j !in rest;
      }
      assert IsLeast(s, x);
    } else {
      LeastExists(rest);
      var m :| IsLeast(rest, m);
      var k := if x < m then x else m;
      forall j | j in s
        ensures k <= j
      {
        if j != x { assert j in rest; }
      }
      assert IsLeast(s, k);
    }
  }

  /** Every non-empty finite set of keys has a largest element. */
  lemma {:induction false} GreatestExists(s: set<U64>)
    requires s != {}
    ensures exists k :: IsGreatest(s, k)
  {
    var x :| x in s;
    var rest := s - {x};
    if rest == {} {
      forall j | j in s
        ensures j == x
      {
        assert j !in rest;
      }
      assert IsGreatest(s, x);
    } else {
      GreatestExists(rest);
      var m :| IsGreatest(rest, m);
      var k := if m < x then x else m;
      forall j | j in s
        ensures j <= k
      {
        if j != x { assert j in rest; }
      }
      assert IsGreatest(s, k);
    }
  }

  /** The first key of an ascending iteration. */
  function MinKey(s: set<U64>): (k: U64)
    requires s != {}
    ensures k in s && forall j :: j in s ==> k <= j
  {
    LeastExists(s);
    var k :| IsLeast(s, k); k
  }

  /** The first key of a descending iteration. */
  function MaxKey(s: set<U64>): (k: U64)
    requires s != {}
    ensures k in s && forall j :: j in s ==> j <= k
  {
    GreatestExists(s);
    var k :| IsGreatest(s, k); k
  }

  /** The slots that survive a gc with the given cutoff. */
  function Retain<T>(m: map<U64, T>, cutoff: U64): (r: map<U64, T>)
    ensures forall k :: k in r <==> k in m && cutoff < k
    ensures forall k :: k in r ==> r[k] == m[k]
  {
    map k | k in m && cutoff < k :: m[k]
  }

  /** Collecting twice at the same cutoff changes nothing the second time. */
  lemma RetainIdempotent<T>(m: map<U64, T>, cutoff: U64)
    ensures Retain(Retain(m, cutoff), cutoff) == Retain(m, cutoff)
  {
  }

  /**
   The keys that gc collects before removing them: an ascending walk over
   the keys that stops at the first key above the cutoff.
   */
  method SlotsUpTo<T>(m: map<U64, T>, cutoff: U64) returns (slots: seq<U64>)
    ensures forall k :: k in slots <==> k in m && k <= cutoff
    ensures forall i, j :: 0 <= i < j < |slots| ==> slots[i] < slots[j]
  {
    slots := [];
    var rest := m.Keys;
    while rest != {}
      invariant rest <= m.Keys
      invariant forall k :: k in m ==> (k in slots <==> k !in rest)
      invariant forall k :: k in slots ==> k in m && k <= cutoff
      invariant forall i, k :: 0 <= i < |slots| && k in rest ==> slots[i] < k
      invariant forall i, j :: 0 <= i < j < |slots| ==> slots[i] < slots[j]
      decreases rest
    {
      var slot := MinKey(rest);
      if cutoff < slot {
        break;
      }
      slots := slots + [slot];
      rest := rest - {slot};
    }
  }

  /** The sum of all slot counts, taking the keys in ascending order. */
  function Sum(m: map<U64, nat>): nat
    decreases |m|
  {
    if m == map[] then 0
    else
      var k := MinKey(m.Keys);
      m[k] + Sum(m - {k})
  }

  /** The sum does not depend on the order in which slots are added up. */
  lemma {:induction false} SumRemove(m: map<U64, nat>, k: U64)
    requires k in m
    ensures Sum(m) == m[k] + Sum(m - {k})
    decreases |m|
  {
    var j := MinKey(m.Keys);
    if j != k {
      var rest := m - {j};
      assert k in rest;
      SumRemove(rest, k);
      var mk := m - {k};
      assert j in mk;
      assert MinKey(mk.Keys) == j;
      assert rest - {k} == mk - {j};
    }
  }

  /** Replacing one slot's count changes the sum by the difference. */
  lemma SumUpdate(m: map<U64, nat>, k: U64, x: nat)
    ensures k in m ==> Sum(m[k := x]) + m[k] == Sum(m) + x
    ensures k !in m ==> Sum(m[k := x]) == Sum(m) + x
  {
    var m' := m[k := x];
    SumRemove(m', k);
    assert m' - {k} == m - {k};
    if k in m {
      SumRemove(m, k);
    } else {
      assert m - {k} == m;
    }
  }

  /** The total of a single slot is that slot's count. */
  lemma SumSingle(m: map<U64, nat>, k: U64)
    requires m.Keys == {k}
    ensures Sum(m) == m[k]
  {
    SumRemove(m, k);
    assert (m - {k}).Keys == {};
  }

  /** No slot holds more than the total. */
  lemma SumBoundsSlots(m: map<U64, nat>)
    ensures forall k :: k in m ==> m[k] <= Sum(m)
  {
    forall k | k in m
      ensures m[k] <= Sum(m)
    {
      SumRemove(m, k);
    }
  }

  /** The total is zero exactly when every slot is zero. */
  lemma {:induction false} SumZero(m: map<U64, nat>)
    ensures Sum(m) == 0 <==> forall k :: k in m ==> m[k] == 0
    decreases |m|
  {
    if m != map[] {
      var k := MinKey(m.Keys);
      SumZero(m - {k});
      assert forall j :: j in m && j != k ==> j in m - {k};
    }
  }

  /** A map that keeps some of the slots of another has no larger total. */
  lemma {:induction false} SumSubMap(small: map<U64, nat>, big: map<U64, nat>)
    requires forall k :: k in small ==> k in big && small[k] == big[k]
    ensures Sum(small) <= Sum(big)
    decreases |big|
  {
    if big != map[] {
      var k := MinKey(big.Keys);
      var b' := big - {k};
      if k in small {
        SumRemove(small, k);
        SumSubMap(small - {k}, b');
      } else {
        SumSubMap(small, b');
      }
    }
  }

  /** Dropping expired slots never raises the total. */
  lemma SumRetain(m: map<U64, nat>, cutoff: U64)
    ensures Sum(Retain(m, cutoff)) <= Sum(m)
  {
    SumSubMap(Retain(m, cutoff), m);
  }
}
