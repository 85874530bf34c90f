/** Capacity growth by repeated doubling in a 64-bit `size_type`. */
module Growth {
  import opened Powers

  const WORD: nat := 0x1_0000_0000_0000_0000
  /** `max_size()`: one bit of the size word is the is-allocated tag. */
  const MAX_SIZE: nat := (WORD - 1) / 2

  /** The capacity reached by doubling `capacity` until it holds `target` elements. */
  function Grown(capacity: nat, target: nat): (r: nat)
    requires capacity > 0
    ensures r >= target && r >= capacity
    ensures capacity < target ==> r < 2 * target
    decreases target - capacity
  {
    if capacity >= target then capacity else Grown(2 * capacity, target)
  }

  /** The result is the least `capacity * 2^k` that reaches the target. */
  lemma {:induction false} GrownIsLeast(capacity: nat, target: nat) returns (k: nat)
    requires capacity > 0
    ensures Grown(capacity, target) == Doubled(capacity, k)
    ensures forall j: nat :: j < k ==> Doubled(capacity, j) < target
    decreases target - capacity
  {
    if capacity >= target {
      k := 0;
    } else {
      k := GrownIsLeast(2 * capacity, target);
      DoubledOnce(capacity, k);
      forall j: nat | j < k + 1 ensures Doubled(capacity, j) < target {
        if j > 0 { DoubledOnce(capacity, j - 1); }
      }
      k := k + 1;
    }
  }

  function Doubled(capacity: nat, k: nat): nat {
    capacity * Pow2(k)
  }

  lemma DoubledOnce(capacity: nat, k: nat)
    ensures Doubled(2 * capacity, k) == Doubled(capacity, k + 1)
  {
    assert Pow2(k + 1) == 2 * Pow2(k);
    assert 2 * capacity * Pow2(k) == capacity * (2 * Pow2(k));
  }

  /** Growing in two steps ends where growing at once does. */
  lemma {:induction false} GrownTwice(capacity: nat, first: nat, second: nat)
    requires capacity > 0 && first <= second
    ensures Grown(Grown(capacity, first), second) == Grown(capacity, second)
    decreases first - capacity
  {
    if capacity < first { GrownTwice(2 * capacity, first, second); }
  }

  /** The largest doubling of `capacity` that a `size_type` can hold. */
  function Top(capacity: nat): (r: nat)
    requires 0 < capacity < WORD
    ensures capacity <= r < WORD && MAX_SIZE < r
    decreases WORD - capacity
  {
    if 2 * capacity < WORD then Top(2 * capacity) else capacity
  }

  /** The shift loop on `size_type`, which drops the carry out of the top bit. */
  method DoubleUntil(capacity: nat, target: nat) returns (newCapacity: nat)
    requires 0 < capacity < WORD && target <= Top(capacity)
    ensures newCapacity == Grown(capacity, target)
    ensures newCapacity < WORD && StopsAt(capacity, target, newCapacity)
  {
    hide Top, Grown, Shifted;
    newCapacity := capacity;
    ghost var k: nat := 0;
    ShiftedSteps(capacity, 0);
    while newCapacity < target
      invariant 0 < newCapacity < WORD && target <= Top(newCapacity)
      invariant Grown(newCapacity, target) == Grown(capacity, target)
      invariant newCapacity == Shifted(capacity, k) && forall j: nat :: j < k ==> Shifted(capacity, j) < target
      decreases target - newCapacity
    {
      RoomToDouble(newCapacity, target);
      ShiftedSteps(capacity, k);
      newCapacity := (newCapacity * 2) % WORD;
      k := k + 1;
    }
    GrownReached(newCapacity, target);
    assert StopsAfter(capacity, target, k);
  }

  lemma RoomToDouble(capacity: nat, target: nat)
    requires 0 < capacity < WORD && capacity < target <= Top(capacity)
    ensures (capacity * 2) % WORD == 2 * capacity < WORD
    ensures target <= Top(2 * capacity) && Grown(2 * capacity, target) == Grown(capacity, target)
  {
    NoCarry(capacity);
  }

  lemma GrownReached(capacity: nat, target: nat)
    requires capacity > 0 && capacity >= target
    ensures Grown(capacity, target) == capacity
  {
  }

  lemma ShiftedSteps(capacity: nat, k: nat)
    ensures Shifted(capacity, 0) == capacity
    ensures Shifted(capacity, k + 1) == (Shifted(capacity, k) * 2) % WORD
  {
  }

  // ----------------------------------------------------- when growth is right

  /** What the loop variable is after `k` iterations. */
  function Shifted(capacity: nat, k: nat): (r: nat)
  {
    if k == 0 then capacity else (Shifted(capacity, k - 1) * 2) % WORD
  }

  /** The loop ends with `r`: after some number of iterations, none of which
      reached the target before, the variable is `r` and reaches it. */
  ghost predicate StopsAt(capacity: nat, target: nat, r: nat) {
    exists k: nat :: StopsAfter(capacity, target, k) && Shifted(capacity, k) == r
  }

  ghost predicate StopsAfter(capacity: nat, target: nat, k: nat) {
    Shifted(capacity, k) >= target && forall j: nat :: j < k ==> Shifted(capacity, j) < target
  }

  /** For every capacity and target: the loop ends with the least sufficient
      doubling if and only if that target is at most `Top(capacity)`. */
  lemma GrowthIsRightIff(capacity: nat, target: nat)
    requires 0 < capacity < WORD
    ensures StopsAt(capacity, target, Grown(capacity, target)) <==> target <= Top(capacity)
  {
    GrownFits(capacity, target);
    if target <= Top(capacity) {
      var k := StopsRight(capacity, target);
    } else if StopsAt(capacity, target, Grown(capacity, target)) {
      var k: nat :| StopsAfter(capacity, target, k) && Shifted(capacity, k) == Grown(capacity, target);
      ShiftedFits(capacity, k);
    }
  }

  /** The least sufficient doubling fits a `size_type` exactly for those targets. */
  lemma {:induction false} GrownFits(capacity: nat, target: nat)
    requires 0 < capacity < WORD
    ensures Grown(capacity, target) < WORD <==> target <= Top(capacity)
    decreases WORD - capacity
  {
    if 2 * capacity < WORD { GrownFits(2 * capacity, target); }
  }

  lemma {:induction false} ShiftedFits(capacity: nat, k: nat)
    requires capacity < WORD
    ensures Shifted(capacity, k) < WORD
  {
  }

  lemma {:induction false} StopsRight(capacity: nat, target: nat) returns (k: nat)
    requires 0 < capacity < WORD && target <= Top(capacity)
    ensures StopsAfter(capacity, target, k) && Shifted(capacity, k) == Grown(capacity, target)
    decreases WORD - capacity
  {
    if capacity >= target {
      k := 0;
    } else {
      var k' := StopsRight(2 * capacity, target);
      k := k' + 1;
      ShiftedFront(capacity, k');
      forall j: nat | j < k ensures Shifted(capacity, j) < target {
        if j > 0 { ShiftedFront(capacity, j - 1); }
      }
    }
  }

  /** The first iteration, while it does not wrap, only doubles the start. */
  lemma {:induction false} ShiftedFront(capacity: nat, k: nat)
    requires 2 * capacity < WORD
    ensures Shifted(capacity, k + 1) == Shifted(2 * capacity, k)
  {
    if k > 0 { ShiftedFront(capacity, k - 1); }
  }

  /** One way to go wrong: a power of two shifts to at most 2^63 and then to 0
      for ever, so no larger target is ever reached. */
  lemma {:induction false} PowersOfTwoNeverStop(i: nat, k: nat)
    requires i < 64
    ensures Shifted(Pow2(i), k) == if i + k < 64 then Pow2(i + k) else 0
    ensures Shifted(Pow2(i), k) <= MAX_SIZE + 1
    decreases k
  {
    if i + k < 64 { TopPower(i + k); }
    if k != 0 {
      PowersOfTwoNeverStop(i, k - 1);
      if i + k <= 64 { NextShift(i + (k - 1)); }
    }
  }

  lemma DoubledNext(capacity: nat, k: nat)
    ensures Doubled(capacity, k + 1) == 2 * Doubled(capacity, k)
  {
    assert Pow2(k + 1) == 2 * Pow2(k);
    assert capacity * (2 * Pow2(k)) == 2 * (capacity * Pow2(k));
  }

  lemma {:induction false} ShiftedDoubles(capacity: nat, k: nat)
    requires Doubled(capacity, k) < WORD
    ensures Shifted(capacity, k) == Doubled(capacity, k)
  {
    if k > 0 {
      DoubledNext(capacity, k - 1);
      ShiftedDoubles(capacity, k - 1);
      NoCarry(Doubled(capacity, k - 1));
    }
  }

  lemma NoCarry(n: nat)
    requires 2 * n < WORD
    ensures (n * 2) % WORD == 2 * n
  {
  }

  lemma {:induction false} ShiftedBelow(capacity: nat, j: nat, k: nat)
    requires j <= k && Doubled(capacity, k) < WORD
    ensures Shifted(capacity, j) <= Doubled(capacity, k)
    decreases k
  {
    if j == k {
      ShiftedDoubles(capacity, k);
    } else {
      DoubledNext(capacity, k - 1);
      ShiftedBelow(capacity, j, k - 1);
    }
  }

  /** Another: from 11, a target just beyond `11 * 2^60` makes the loop wrap and
      then stop at `3 * 2^62`, which is no doubling of 11. */
  lemma GrowthCanStopWrong()
    ensures StopsAt(11, 11 * 0x1000_0000_0000_0000 + 1, 12 * 0x1000_0000_0000_0000)
    ensures Grown(11, 11 * 0x1000_0000_0000_0000 + 1) >= WORD
  {
    SixtyBits();
    StopsAfterTheWrap(60, 0x1000_0000_0000_0000);
  }

  lemma StopsAfterTheWrap(k: nat, b: nat)
    requires Pow2(k) == b == 0x1000_0000_0000_0000
    ensures StopsAt(11, 11 * b + 1, 12 * b) && Grown(11, 11 * b + 1) >= WORD
  {
    ShiftedDoubles(11, k);
    assert Shifted(11, k + 1) == 6 * b && Shifted(11, k + 2) == 12 * b;
    forall j: nat | j < k + 2 ensures Shifted(11, j) < 11 * b + 1 {
      if j <= k { ShiftedBelow(11, j, k); }
    }
    assert StopsAfter(11, 11 * b + 1, k + 2);
    TopDoubles(11, k);
    GrownFits(11, 11 * b + 1);
  }

  lemma SixtyBits()
    ensures Pow2(60) == 0x1000_0000_0000_0000
  {
    Pow2Values();
    assert Pow2(64) == 2 * Pow2(63) == 4 * Pow2(62) == 8 * Pow2(61) == 16 * Pow2(60);
  }

  lemma {:induction false} TopDoubles(capacity: nat, k: nat)
    requires 0 < capacity && Doubled(capacity, k) < WORD <= 2 * Doubled(capacity, k)
    ensures capacity < WORD && Top(capacity) == Doubled(capacity, k)
    decreases k
  {
    if k > 0 {
      DoubledOnce(capacity, k - 1);
      TopDoubles(2 * capacity, k - 1);
    }
  }

  lemma TopPower(i: nat)
    requires i < 64
    ensures Pow2(i) <= MAX_SIZE + 1
  {
    Pow2Values();
    Pow2Monotone(i, 63);
  }

  lemma NextShift(i: nat)
    requires i < 64
    ensures (Pow2(i) * 2) % WORD == if i < 63 then Pow2(i + 1) else 0
  {
    Pow2Values();
    if i < 63 {
      Pow2Monotone(i + 1, 63);
      NoCarry(Pow2(i));
    }
  }
}
