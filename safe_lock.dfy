/** day01/SafeLock: a dial of 100 positions that counts how often it
    passes position 0 while turning and how often a turn ends there. */
module SafeLock {
  const DialSize: int := 100
  const StartingPosition: int := 50

  function Abs(x: int): nat
  {
    if x < 0 then -x else x
  }

  /** The position after k single clicks from `position`. */
  function After(position: int, clockwise: bool, k: int): int
  {
    (if clockwise then position + k else position - k) % DialSize
  }

  /** `calculateStepsToZero`: the number of clicks to the first arrival at
      0, which is a full turn when the dial already shows 0. */
  function StepsToZero(position: int, clockwise: bool): (s: int)
    requires 0 <= position < DialSize
    ensures 1 <= s <= DialSize && After(position, clockwise, s) == 0
    ensures forall k :: 1 <= k < s ==> After(position, clockwise, k) != 0
  {
    if position == 0 then DialSize
    else if clockwise then DialSize - position
    else position
  }

  /** `countZeroCrossings`: positive steps turn clockwise, negative ones
      counter-clockwise. */
  function CountZeroCrossings(position: int, steps: int): nat
    requires 0 <= position < DialSize
  {
    var stepsToFirstZero := StepsToZero(position, steps > 0);
    var absSteps := Abs(steps);
    if absSteps < stepsToFirstZero then 0
    else 1 + (absSteps - stepsToFirstZero) / DialSize
  }

  /** The reference count: among clicks 1..n, those after which the dial
      shows 0. */
  function ZerosPassed(position: int, clockwise: bool, n: nat): nat
  {
    if n == 0 then 0
    else ZerosPassed(position, clockwise, n - 1) + (if After(position, clockwise, n) == 0 then 1 else 0)
  }

  /** The closed formula of `countZeroCrossings` counts exactly the clicks
      that land on 0. */
  lemma {:induction false} CrossingsCountZeros(position: int, clockwise: bool, n: nat)
    requires 0 <= position < DialSize
    ensures CountZeroCrossings(position, if clockwise then n as int else -(n as int)) == ZerosPassed(position, clockwise, n)
  {
    if n > 0 {
      CrossingsCountZeros(position, clockwise, n - 1);
      var s := StepsToZero(position, clockwise);
      assert StepsToZero(position, (if clockwise then n as int else -(n as int)) > 0) == s;
      assert After(position, clockwise, n) == 0 <==> (n - s) % DialSize == 0 by {
        LandsOnZero(position, clockwise, n, s);
      }
      if n > s {
        DivStep(n - s);
      }
    }
  }

  /** Click n lands on 0 exactly when n is s more than a multiple of 100. */
  lemma LandsOnZero(position: int, clockwise: bool, n: int, s: int)
    requires 0 <= position < DialSize && s == StepsToZero(position, clockwise)
    ensures After(position, clockwise, n) == 0 <==> (n - s) % DialSize == 0
  {
    var m := n - s;
    if clockwise {
      assert position + n == m + 100;
      ModShift(m);
    } else if position == 0 {
      assert position - n == -m - 100;
      ModShift(-m - 100);
      NegMod(m);
    } else {
      assert position - n == -m;
      NegMod(m);
    }
  }

  lemma ModShift(m: int)
    ensures (m + DialSize) % DialSize == m % DialSize
  {
    var q, r := m / 100, m % 100;
    assert m + 100 == 100 * (q + 1) + r;
  }

  lemma NegMod(m: int)
    ensures (-m) % DialSize == 0 <==> m % DialSize == 0
  {
    var q, r := m / 100, m % 100;
    assert m == 100 * q + r;
    if r == 0 {
      assert -m == 100 * -q;
      assert (-m) % 100 == 0;
    } else {
      assert -m == 100 * (-q - 1) + (100 - r);
      assert (-m) % 100 == 100 - r;
    }
  }

  lemma DivStep(m: int)
    requires m >= 1
    ensures m / DialSize == (m - 1) / DialSize + (if m % DialSize == 0 then 1 else 0)
  {
    var q, r := m / 100, m % 100;
    assert m == 100 * q + r;
    if r == 0 {
      assert m - 1 == 100 * (q - 1) + 99;
      assert (m - 1) / 100 == q - 1;
    } else {
      assert m - 1 == 100 * q + (r - 1);
      assert (m - 1) / 100 == q;
    }
  }

  class SafeLock {
    var position: int
    var zeroHitCount: int
    var endOfRotationZeroCount: int

    ghost predicate Valid()
      reads this
    {
      0 <= position < DialSize && zeroHitCount >= 0 && endOfRotationZeroCount >= 0
    }

    /** The dial starts at 50 with both counters at 0. */
    constructor ()
      ensures Valid()
      ensures position == StartingPosition && zeroHitCount == 0 && endOfRotationZeroCount == 0
    {
      position := StartingPosition;
      zeroHitCount := 0;
      endOfRotationZeroCount := 0;
    }

    method TurnClockwise(steps: int)
      requires Valid() && steps >= 0
      modifies this
      ensures Valid() && position == (old(position) + steps) % DialSize
      ensures zeroHitCount == old(zeroHitCount) + ZerosPassed(old(position), true, steps)
      ensures endOfRotationZeroCount == old(endOfRotationZeroCount) + (if steps != 0 && position == 0 then 1 else 0)
    {
      CrossingsCountZeros(position, true, steps);
      Turn(steps);
    }

    method TurnCounterClockwise(steps: int)
      requires Valid() && steps >= 0
      modifies this
      ensures Valid() && position == (old(position) - steps) % DialSize
      ensures zeroHitCount == old(zeroHitCount) + ZerosPassed(old(position), false, steps)
      ensures endOfRotationZeroCount == old(endOfRotationZeroCount) + (if steps != 0 && position == 0 then 1 else 0)
    {
      CrossingsCountZeros(position, false, steps);
      Turn(-steps);
    }

    /** `turn`: a turn of 0 steps changes nothing; otherwise the crossings
        are counted from the old position, the dial moves modulo 100, and
        an end at 0 is counted. */
    method Turn(steps: int)
      requires Valid()
      modifies this
      ensures Valid()
      ensures steps == 0 ==>
        (position == old(position) && zeroHitCount == old(zeroHitCount)
         && endOfRotationZeroCount == old(endOfRotationZeroCount))
      ensures position == (old(position) + steps) % DialSize
      ensures zeroHitCount == old(zeroHitCount) + CountZeroCrossings(old(position), steps)
      ensures endOfRotationZeroCount == old(endOfRotationZeroCount) + (if steps != 0 && position == 0 then 1 else 0)
    {
      if steps == 0 {
        return;
      }
      zeroHitCount := zeroHitCount + CountZeroCrossings(position, steps);
      position := (position + steps) % DialSize;
      if position == 0 {
        endOfRotationZeroCount := endOfRotationZeroCount + 1;
      }
    }
  }

  /** From the start: a clockwise turn of 1000 passes 0 ten times without
      ending there; 60 clicks either way pass it once; 50 clockwise then 1
      counter-clockwise passes it once. */
  lemma StartExamples()
    ensures CountZeroCrossings(StartingPosition, 1000) == 10 && (StartingPosition + 1000) % DialSize != 0
    ensures CountZeroCrossings(StartingPosition, 60) == 1 && CountZeroCrossings(StartingPosition, -60) == 1
    ensures CountZeroCrossings(StartingPosition, 50) + CountZeroCrossings((StartingPosition + 50) % DialSize, -1) == 1
  {
  }
}
