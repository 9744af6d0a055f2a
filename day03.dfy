/** day03: the largest number that can be read from a bank of battery
    digits by keeping a fixed number of them in their original order. */
module Day03 {
  import opened Decimal
  import JavaText

  const Part2Digits: int := 12
  const MaxDigit: int := 9

  /** The leftmost position of a largest digit in ds[lo..hi], both ends
      included. */
  function LeftmostMax(ds: seq<int>, lo: int, hi: int): (m: int)
    requires 0 <= lo <= hi < |ds|
    ensures lo <= m <= hi
    decreases hi - lo
  {
    if lo == hi then lo
    else
      var m := LeftmostMax(ds, lo + 1, hi);
      if ds[lo] >= ds[m] then lo else m
  }

  /** The leftmost maximum holds a largest digit of the window, and every
      digit before it in the window is strictly smaller. */
  lemma {:induction false} LeftmostMaxIsMax(ds: seq<int>, lo: int, hi: int)
    requires 0 <= lo <= hi < |ds|
    ensures var m := LeftmostMax(ds, lo, hi);
      (forall k :: lo <= k <= hi ==> ds[k] <= ds[m]) && (forall k :: lo <= k < m ==> ds[k] < ds[m])
    decreases hi - lo
  {
    if lo < hi {
      LeftmostMaxIsMax(ds, lo + 1, hi);
    }
  }

  /** The leftmost maximum is the only position with its two properties. */
  lemma LeftmostMaxUnique(ds: seq<int>, lo: int, hi: int, m: int)
    requires 0 <= lo <= m <= hi < |ds|
    requires forall k :: lo <= k <= hi ==> ds[k] <= ds[m]
    requires forall k :: lo <= k < m ==> ds[k] < ds[m]
    ensures m == LeftmostMax(ds, lo, hi)
  {
    LeftmostMaxIsMax(ds, lo, hi);
  }

  predicate Increasing(idx: seq<int>)
  {
    forall i, j :: 0 <= i < j < |idx| ==> idx[i] < idx[j]
  }

  /** An order-preserving choice of n positions from start..len-1: a first
      position, then a choice of the rest after it. */
  predicate IsSelection(idx: seq<int>, len: int, start: int, n: int)
    decreases |idx|
  {
    |idx| == n && (n == 0 || (start <= idx[0] < len && IsSelection(idx[1..], len, idx[0] + 1, n - 1)))
  }

  /** The choices are exactly the increasing position sequences in range. */
  lemma {:induction false} SelectionIsIncreasing(idx: seq<int>, len: int, start: int)
    ensures IsSelection(idx, len, start, |idx|) <==>
      (Increasing(idx) && forall k :: 0 <= k < |idx| ==> start <= idx[k] < len)
    decreases |idx|
  {
    if |idx| > 0 {
      SelectionIsIncreasing(idx[1..], len, idx[0] + 1);
      if Increasing(idx) && forall k :: 0 <= k < |idx| ==> start <= idx[k] < len {
        assert forall k :: 0 <= k < |idx| - 1 ==> idx[1..][k] == idx[k + 1] && idx[0] < idx[k + 1];
      }
      if IsSelection(idx, len, start, |idx|) {
        forall i, j | 0 <= i < j < |idx|
          ensures idx[i] < idx[j]
        {
          if i > 0 {
            assert idx[1..][i - 1] < idx[1..][j - 1];
          } else {
            assert idx[1..][j - 1] >= idx[0] + 1;
          }
        }
      }
    }
  }

  /** A choice of n positions leaves room: its first is at most len - n. */
  lemma {:induction false} SelectionRoom(idx: seq<int>, len: int, start: int, n: int)
    requires IsSelection(idx, len, start, n) && n > 0
    ensures idx[0] + n <= len
    decreases n
  {
    if n > 1 {
      SelectionRoom(idx[1..], len, idx[0] + 1, n - 1);
    }
  }

  lemma {:induction false} SelectionInRange(idx: seq<int>, len: int, start: int, n: int)
    requires IsSelection(idx, len, start, n)
    ensures forall k :: 0 <= k < |idx| ==> start <= idx[k] < len
    decreases n
  {
    if n > 0 {
      SelectionInRange(idx[1..], len, idx[0] + 1, n - 1);
      assert forall k :: 1 <= k < |idx| ==> idx[k] == idx[1..][k - 1];
    }
  }

  /** The digit at position i, 0 outside the bank. */
  function At(ds: seq<int>, i: int): int
  {
    if 0 <= i < |ds| then ds[i] else 0
  }

  /** The joltage of a choice: its digits read as one decimal number,
      `result * 10 + digit` for each digit in order. */
  function Joltage(ds: seq<int>, idx: seq<int>): int
  {
    if |idx| == 0 then 0 else Joltage(ds, idx[..|idx| - 1]) * 10 + At(ds, idx[|idx| - 1])
  }

  /** A choice of n digits reads below 10^n. */
  lemma {:induction false} JoltageBounds(ds: seq<int>, idx: seq<int>)
    requires AreDigits(ds)
    ensures 0 <= Joltage(ds, idx) < Pow10(|idx|)
  {
    if |idx| > 0 {
      JoltageBounds(ds, idx[..|idx| - 1]);
    }
  }

  /** Appending a position is the Horner step. */
  lemma JoltageSnoc(ds: seq<int>, idx: seq<int>, i: int)
    ensures Joltage(ds, idx + [i]) == Joltage(ds, idx) * 10 + At(ds, i)
  {
    assert (idx + [i])[..|idx|] == idx;
  }

  /** Read from the front, the first digit of n carries weight 10^(n-1). */
  lemma {:induction false} JoltageCons(ds: seq<int>, idx: seq<int>)
    requires |idx| > 0
    ensures Joltage(ds, idx) == At(ds, idx[0]) * Pow10(|idx| - 1) + Joltage(ds, idx[1..])
  {
    if |idx| == 1 {
      assert idx[..0] == [] && idx[1..] == [];
    } else {
      var init := idx[..|idx| - 1];
      JoltageCons(ds, init);
      assert init[1..] == idx[1..][..|idx| - 2];
      assert init[0] == idx[0];
      var d, p := At(ds, idx[0]), Pow10(|idx| - 2);
      assert Pow10(|idx| - 1) == p * 10;
      assert d * (p * 10) == (d * p) * 10;
    }
  }

  /** The greedy choice of n positions from start on: the leftmost largest
      digit that still leaves n - 1 digits after it, then the greedy choice
      of the rest after that position. */
  function Choice(ds: seq<int>, start: int, n: int): (idx: seq<int>)
    requires 0 <= n && 0 <= start && start + n <= |ds|
    ensures |idx| == n
    decreases n
  {
    if n == 0 then []
    else
      var m := LeftmostMax(ds, start, |ds| - n);
      [m] + Choice(ds, m + 1, n - 1)
  }

  /** The greedy rounds from (start, left) on, accumulating
      `acc * 10 + digit` as `maxJoltage` does. */
  function GreedyFold(ds: seq<int>, start: int, left: int, acc: int): int
    requires 0 <= left && 0 <= start && start + left <= |ds|
    decreases left
  {
    if left == 0 then acc
    else
      var m := LeftmostMax(ds, start, |ds| - left);
      GreedyFold(ds, m + 1, left - 1, acc * 10 + ds[m])
  }

  /** One greedy round, with the position and the new accumulator named. */
  lemma GreedyFoldStep(ds: seq<int>, start: int, left: int, acc: int, hi: int, m: int, next: int)
    requires 0 < left && 0 <= start && start + left <= |ds| && hi == |ds| - left
    requires m == LeftmostMax(ds, start, hi) && next == acc * 10 + ds[m]
    ensures GreedyFold(ds, start, left, acc) == GreedyFold(ds, m + 1, left - 1, next)
  {
  }

  /** Folding the greedy rounds onto acc shifts acc past the digits chosen
      and adds the reading of the greedy choice. */
  lemma {:induction false} GreedyFoldIsChoice(ds: seq<int>, start: int, left: int, acc: int)
    requires 0 <= left && 0 <= start && start + left <= |ds|
    ensures GreedyFold(ds, start, left, acc) == acc * Pow10(left) + Joltage(ds, Choice(ds, start, left))
    decreases left
  {
    if left > 0 {
      var m := LeftmostMax(ds, start, |ds| - left);
      var next := acc * 10 + ds[m];
      GreedyFoldStep(ds, start, left, acc, |ds| - left, m, next);
      GreedyFoldIsChoice(ds, m + 1, left - 1, next);
      GreedyRound(ds, start, left, acc, m, next);
    }
  }

  /** One round in closed form: choosing the greedy first digit after acc
      and the rest after it reads the same as choosing all of them. */
  lemma GreedyRound(ds: seq<int>, start: int, left: int, acc: int, m: int, next: int)
    requires 0 < left && 0 <= start && start + left <= |ds|
    requires m == LeftmostMax(ds, start, |ds| - left) && next == acc * 10 + ds[m]
    ensures acc * Pow10(left) + Joltage(ds, Choice(ds, start, left))
      == next * Pow10(left - 1) + Joltage(ds, Choice(ds, m + 1, left - 1))
  {
    var g := Choice(ds, start, left);
    assert g[1..] == Choice(ds, m + 1, left - 1);
    JoltageCons(ds, g);
    ShiftDigit(acc, ds[m], Pow10(left - 1));
  }

  /** All the greedy rounds of a bank give `Best`. */
  lemma GreedyFoldIsBest(bank: string, digitCount: int, total: nat)
    requires digitCount <= |bank| && total == if digitCount < 0 then 0 else digitCount
    ensures GreedyFold(JavaText.DigitsOf(bank), 0, total, 0) == Best(bank, digitCount)
  {
    GreedyFoldIsChoice(JavaText.DigitsOf(bank), 0, total, 0);
  }

  lemma ShiftDigit(acc: int, d: int, p: int)
    ensures (acc * 10 + d) * p == acc * (10 * p) + d * p
  {
  }

  /** The greedy choice is an order-preserving choice. */
  lemma {:induction false} ChoiceIsSelection(ds: seq<int>, start: int, n: int)
    requires 0 <= n && 0 <= start && start + n <= |ds|
    ensures IsSelection(Choice(ds, start, n), |ds|, start, n)
    decreases n
  {
    if n > 0 {
      ChoiceIsSelection(ds, LeftmostMax(ds, start, |ds| - n) + 1, n - 1);
    }
  }

  /** The value `maxJoltage` computes, for a bank of digit characters. */
  function Best(bank: string, digitCount: int): int
    requires digitCount <= |bank|
  {
    var ds := JavaText.DigitsOf(bank);
    Joltage(ds, Choice(ds, 0, if digitCount < 0 then 0 else digitCount))
  }

  lemma MulLe(a: int, b: int, c: int)
    requires a <= b && c >= 0
    ensures a * c <= b * c
  {
  }

  /** The greedy choice is the best one: no order-preserving choice of n
      digits from start on reads as a larger number. */
  lemma {:induction false} ChoiceOptimal(ds: seq<int>, start: int, n: int, idx: seq<int>)
    requires AreDigits(ds) && 0 <= n && 0 <= start && start + n <= |ds|
    requires IsSelection(idx, |ds|, start, n)
    ensures Joltage(ds, idx) <= Joltage(ds, Choice(ds, start, n))
    decreases n
  {
    if n > 0 {
      var m := LeftmostMax(ds, start, |ds| - n);
      SelectionRoom(idx, |ds|, start, n);
      LeftmostMaxIsMax(ds, start, |ds| - n);
      if ds[idx[0]] < ds[m] {
        SmallerLead(ds, start, n, idx);
      } else {
        assert idx[0] >= m;
        SelectionFrom(idx[1..], |ds|, idx[0] + 1, m + 1, n - 1);
        ChoiceOptimal(ds, m + 1, n - 1, idx[1..]);
        SameLead(ds, start, n, idx);
      }
    }
  }

  /** A choice whose first digit is below the greedy one reads less. */
  lemma SmallerLead(ds: seq<int>, start: int, n: int, idx: seq<int>)
    requires AreDigits(ds) && 0 < n && 0 <= start && start + n <= |ds|
    requires IsSelection(idx, |ds|, start, n)
    requires ds[idx[0]] < ds[LeftmostMax(ds, start, |ds| - n)]
    ensures Joltage(ds, idx) <= Joltage(ds, Choice(ds, start, n))
  {
    var m := LeftmostMax(ds, start, |ds| - n);
    GreedyHead(ds, start, n);
    SelectionHead(ds, idx, start, n);
    LeadingDigit(ds[idx[0]], ds[m], Joltage(ds, idx[1..]), Joltage(ds, Choice(ds, m + 1, n - 1)), Pow10(n - 1));
  }

  /** A choice with the greedy first digit reads no more than the greedy
      choice when its rest reads no more than the greedy rest. */
  lemma SameLead(ds: seq<int>, start: int, n: int, idx: seq<int>)
    requires AreDigits(ds) && 0 < n && 0 <= start && start + n <= |ds|
    requires IsSelection(idx, |ds|, start, n)
    requires ds[idx[0]] == ds[LeftmostMax(ds, start, |ds| - n)]
    requires Joltage(ds, idx[1..]) <= Joltage(ds, Choice(ds, LeftmostMax(ds, start, |ds| - n) + 1, n - 1))
    ensures Joltage(ds, idx) <= Joltage(ds, Choice(ds, start, n))
  {
    GreedyHead(ds, start, n);
    SelectionHead(ds, idx, start, n);
  }

  /** The greedy choice reads as its first digit followed by the greedy
      choice of the rest. */
  lemma GreedyHead(ds: seq<int>, start: int, n: int)
    requires AreDigits(ds) && 0 < n && 0 <= start && start + n <= |ds|
    ensures var m := LeftmostMax(ds, start, |ds| - n);
      Joltage(ds, Choice(ds, start, n)) == ds[m] * Pow10(n - 1) + Joltage(ds, Choice(ds, m + 1, n - 1))
      && 0 <= Joltage(ds, Choice(ds, m + 1, n - 1))
  {
    var m := LeftmostMax(ds, start, |ds| - n);
    var g := Choice(ds, start, n);
    assert g[1..] == Choice(ds, m + 1, n - 1);
    JoltageCons(ds, g);
    JoltageBounds(ds, g[1..]);
  }

  /** Any choice reads as its first digit, taken from start..len-n, followed
      by a choice of the rest after it. */
  lemma SelectionHead(ds: seq<int>, idx: seq<int>, start: int, n: int)
    requires AreDigits(ds) && 0 < n && 0 <= start && IsSelection(idx, |ds|, start, n)
    ensures start <= idx[0] && idx[0] + n <= |ds|
    ensures Joltage(ds, idx) == ds[idx[0]] * Pow10(n - 1) + Joltage(ds, idx[1..])
    ensures 0 <= Joltage(ds, idx[1..]) < Pow10(n - 1)
    ensures IsSelection(idx[1..], |ds|, idx[0] + 1, n - 1)
  {
    SelectionRoom(idx, |ds|, start, n);
    JoltageCons(ds, idx);
    JoltageBounds(ds, idx[1..]);
  }

  /** A choice from a later start is a choice from an earlier one. */
  lemma SelectionFrom(idx: seq<int>, len: int, start: int, start': int, n: int)
    requires IsSelection(idx, len, start, n) && start' <= start
    ensures IsSelection(idx, len, start', n)
  {
  }

  /** A smaller leading digit loses whatever follows it. */
  lemma LeadingDigit(a: int, b: int, x: int, y: int, p: int)
    requires a < b && 0 <= x < p && 0 <= y
    ensures a * p + x < b * p + y
  {
    MulLe(a + 1, b, p);
  }

  /** `maxJoltage` reads the largest number among all order-preserving
      choices of digitCount digits of the bank. */
  lemma BestIsMaximum(bank: string, digitCount: int)
    requires JavaText.AllDigits(bank) && digitCount <= |bank|
    ensures forall idx {:trigger IsSelection(idx, |bank|, 0, digitCount)} :: IsSelection(idx, |bank|, 0, digitCount) ==> Joltage(JavaText.DigitsOf(bank), idx) <= Best(bank, digitCount)
  {
    forall idx | IsSelection(idx, |bank|, 0, digitCount)
      ensures Joltage(JavaText.DigitsOf(bank), idx) <= Best(bank, digitCount)
    {
      ChoiceOptimal(JavaText.DigitsOf(bank), 0, digitCount, idx);
    }
  }

  /** Keeping every digit from start on reads the rest of the bank. */
  lemma {:induction false} ChoiceAll(ds: seq<int>, start: int)
    requires 0 <= start <= |ds|
    ensures Joltage(ds, Choice(ds, start, |ds| - start)) == Value(ds[start..])
    decreases |ds| - start
  {
    if start < |ds| {
      var g := Choice(ds, start, |ds| - start);
      ChoiceAll(ds, start + 1);
      assert LeftmostMax(ds, start, start) == start;
      assert g[0] == start && g[1..] == Choice(ds, start + 1, |ds| - (start + 1));
      JoltageCons(ds, g);
      assert ds[start..] == [ds[start]] + ds[start + 1..];
      ValueCons(ds[start], ds[start + 1..]);
    }
  }

  lemma SelectAllDigits(bank: string)
    ensures Best(bank, |bank|) == Value(JavaText.DigitsOf(bank))
  {
    var ds := JavaText.DigitsOf(bank);
    ChoiceAll(ds, 0);
    assert ds[0..] == ds;
  }

  /** The inner loop of `maxJoltage` from index i to hi, with the largest
      digit so far and its position: a digit above the largest replaces
      it, and a 9 ends the scan. Characters other than digits give values
      outside 0..9 and are compared all the same. */
  function Scan(ds: seq<int>, i: int, hi: int, best: int, at: int): (r: (int, int))
    requires 0 <= i && hi < |ds|
    decreases hi + 1 - i
    ensures r.1 == at || i <= r.1 <= hi
  {
    if i > hi then (best, at)
    else if ds[i] > best then
      if ds[i] == MaxDigit then (ds[i], i) else Scan(ds, i + 1, hi, ds[i], i)
    else Scan(ds, i + 1, hi, best, at)
  }

  /** On digits the scan over lo..hi, started from (-1, -1), finds the
      leftmost largest digit: the early stop at a 9 changes nothing. */
  lemma {:induction false} ScanIsLeftmostMax(ds: seq<int>, lo: int, i: int, hi: int, best: int, at: int)
    requires AreDigits(ds) && 0 <= lo <= hi < |ds| && lo <= i <= hi + 1
    requires i == lo ==> best == -1
    requires i > lo ==> lo <= at < i && best == ds[at]
    requires forall k :: lo <= k < i ==> ds[k] <= best
    requires forall k :: lo <= k < at && k < i ==> ds[k] < best
    ensures Scan(ds, i, hi, best, at) == (ds[LeftmostMax(ds, lo, hi)], LeftmostMax(ds, lo, hi))
    decreases hi + 1 - i
  {
    if i > hi {
      LeftmostMaxUnique(ds, lo, hi, at);
    } else if ds[i] > best {
      if ds[i] == MaxDigit {
        LeftmostMaxUnique(ds, lo, hi, i);
      } else {
        ScanIsLeftmostMax(ds, lo, i + 1, hi, ds[i], i);
      }
    } else {
      ScanIsLeftmostMax(ds, lo, i + 1, hi, best, at);
    }
  }

  /** The rounds of `maxJoltage` from startIdx with `remaining` digits to
      go: each scans startIdx..len-remaining, appends the digit found as
      `result * 10 + digit`, and starts the next scan after it. On a bank
      too short for a round the scan finds nothing and appends -1. */
  function Greedy(ds: seq<int>, start: int, remaining: int, acc: int): int
    requires 0 <= start
    decreases remaining
  {
    if remaining <= 0 then acc
    else
      var r := Scan(ds, start, |ds| - remaining, -1, -1);
      Greedy(ds, r.1 + 1, remaining - 1, acc * 10 + r.0)
  }

  /** On a bank of digits with room for every round, the rounds are the
      greedy choices of leftmost largest digits. */
  lemma {:induction false} GreedyIsFold(ds: seq<int>, start: int, left: int, acc: int)
    requires AreDigits(ds) && 0 <= left && 0 <= start && start + left <= |ds|
    ensures Greedy(ds, start, left, acc) == GreedyFold(ds, start, left, acc)
    decreases left
  {
    if left > 0 {
      ScanIsLeftmostMax(ds, start, start, |ds| - left, -1, -1);
      var m := LeftmostMax(ds, start, |ds| - left);
      GreedyIsFold(ds, m + 1, left - 1, acc * 10 + ds[m]);
    }
  }

  /** The value `maxJoltage` returns for any bank and digit count. */
  function MaxJoltageOf(bank: string, digitCount: int): int
  {
    Greedy(JavaText.DigitsOf(bank), 0, digitCount, 0)
  }

  /** On a bank of digits with at least digitCount of them, `maxJoltage`
      returns `Best`, the largest order-preserving reading. */
  lemma MaxJoltageIsBest(bank: string, digitCount: int)
    requires JavaText.AllDigits(bank) && digitCount <= |bank|
    ensures MaxJoltageOf(bank, digitCount) == Best(bank, digitCount)
  {
    var total: nat := if digitCount < 0 then 0 else digitCount;
    GreedyIsFold(JavaText.DigitsOf(bank), 0, total, 0);
    GreedyFoldIsBest(bank, digitCount, total);
  }

  /** The inner loop of `maxJoltage`: scans startIdx..lastValidIdx for the
      first largest digit, stopping early at a 9; (-1, -1) if the range is
      empty. */
  method ScanWindow(bank: string, startIdx: int, lastValidIdx: int) returns (maxDigit: int, maxIdx: int)
    requires 0 <= startIdx && lastValidIdx < |bank|
    ensures (maxDigit, maxIdx) == Scan(JavaText.DigitsOf(bank), startIdx, lastValidIdx, -1, -1)
  {
    ghost var ds := JavaText.DigitsOf(bank);
    maxDigit, maxIdx := -1, -1;
    var i := startIdx;
    while i <= lastValidIdx
      invariant startIdx <= i
      invariant Scan(ds, i, lastValidIdx, maxDigit, maxIdx) == Scan(ds, startIdx, lastValidIdx, -1, -1)
      decreases lastValidIdx + 1 - i
    {
      var digit := bank[i] as int - '0' as int;
      if digit > maxDigit {
        maxDigit := digit;
        maxIdx := i;
        if digit == MaxDigit {
          break;
        }
      }
      i := i + 1;
    }
  }

  /** `maxJoltage`: for each of the digitCount places, the scan over
      startIdx..len-remaining keeps the first largest digit, stopping early
      at a 9, and the next scan starts after it. On a bank of digits long
      enough for every place that is the largest order-preserving reading. */
  method MaxJoltage(bank: string, digitCount: int) returns (r: int)
    ensures r == MaxJoltageOf(bank, digitCount)
    ensures JavaText.AllDigits(bank) && digitCount <= |bank| ==> r == Best(bank, digitCount)
  {
    ghost var ds := JavaText.DigitsOf(bank);
    var result := 0;
    var startIdx := 0;
    var remaining := digitCount;
    while remaining > 0
      invariant 0 <= startIdx
      invariant Greedy(ds, startIdx, remaining, result) == MaxJoltageOf(bank, digitCount)
    {
      var lastValidIdx := |bank| - remaining;
      var maxDigit, maxIdx := ScanWindow(bank, startIdx, lastValidIdx);
      result := result * 10 + maxDigit;
      startIdx := maxIdx + 1;
      remaining := remaining - 1;
    }
    if JavaText.AllDigits(bank) && digitCount <= |bank| {
      MaxJoltageIsBest(bank, digitCount);
    }
    return result;
  }

  /** Σ of `maxJoltage` over the banks. */
  function TotalJoltage(lines: seq<string>, digitCount: int): int
  {
    if |lines| == 0 then 0
    else TotalJoltage(lines[..|lines| - 1], digitCount) + MaxJoltageOf(lines[|lines| - 1], digitCount)
  }

  /** The total over several groups of banks is the sum of their totals. */
  lemma {:induction false} TotalJoltageAppend(a: seq<string>, b: seq<string>, digitCount: int)
    ensures TotalJoltage(a + b, digitCount) == TotalJoltage(a, digitCount) + TotalJoltage(b, digitCount)
    decreases |b|
  {
    if |b| == 0 {
      assert a + b == a;
    } else {
      var init := b[..|b| - 1];
      assert (a + b)[..|a + b| - 1] == a + init;
      assert (a + b)[|a + b| - 1] == b[|b| - 1];
      TotalJoltageAppend(a, init, digitCount);
    }
  }

  /** `totalOutputJoltage`: adds `maxJoltage` of every line. */
  method TotalOutputJoltage(lines: seq<string>, digitCount: int) returns (sum: int)
    ensures sum == TotalJoltage(lines, digitCount)
  {
    sum := 0;
    for i := 0 to |lines|
      invariant sum == TotalJoltage(lines[..i], digitCount)
    {
      var joltage := MaxJoltage(lines[i], digitCount);
      assert lines[..i + 1][..i] == lines[..i];
      sum := sum + joltage;
    }
    assert lines[..|lines|] == lines;
  }

  /** "12395" with two digits gives 95. */
  lemma Example()
    ensures Best("12395", 2) == 95
  {
    var ds := JavaText.DigitsOf("12395");
    assert ds == [1, 2, 3, 9, 5];
    assert LeftmostMax(ds, 0, 3) == 3;
    assert LeftmostMax(ds, 4, 4) == 4;
    var g := Choice(ds, 0, 2);
    assert g == [3, 4];
    assert g[..1] == [3] && g[..1][..0] == [];
    assert Joltage(ds, [3]) == 9;
    assert Joltage(ds, g) == 95;
    assert Best("12395", 2) == Joltage(ds, g);
  }

  /** A bank shorter than the digit count: the first scan finds nothing
      and appends -1, so "5" with two digits gives -1 * 10 + 5. */
  lemma ShortBankExample()
    ensures MaxJoltageOf("5", 2) == -5
  {
    var ds := JavaText.DigitsOf("5");
    assert ds == [5];
    assert Scan(ds, 0, -1, -1, -1) == (-1, -1);
    assert Scan(ds, 0, 0, -1, -1) == (5, 0);
  }
}
