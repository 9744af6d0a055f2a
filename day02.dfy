/** day02: product ids whose decimal digits are one block repeated, summed
    over ranges of ids (Day02 and Range). */
module Day02 {
  import opened Optional
  import opened Decimal
  import JavaText

  const LongMax: int := 0x7FFF_FFFF_FFFF_FFFF
  /** The number of entries of POWERS_OF_10 (10^0 .. 10^18). */
  const PowersLength: nat := 19

  /** A range of ids, both ends included. */
  datatype Range = Range(start: int, end: int)
  {
    /** `stream`: start, start + 1, ..., end; nothing when start > end. */
    function Stream(): (r: seq<int>)
      ensures |r| == if start <= end then end - start + 1 else 0
      ensures forall i :: 0 <= i < |r| ==> r[i] == start + i
      ensures forall x :: x in r <==> start <= x <= end
    {
      if start > end then []
      else
        var r := seq(end - start + 1, i requires 0 <= i <= end - start => start + i);
        Consecutive(r, start, end);
        r
    }

    /** `parse`: trim, split at '-', read the first two pieces as longs. Too
        few pieces (ArrayIndexOutOfBoundsException) or a piece that is not
        a number (NumberFormatException) is None. */
    static function Parse(s: string): Option<Range>
    {
      var parts := JavaText.Split(JavaText.Trim(s), "-");
      if |parts| < 2 then None
      else match (JavaText.ParseLong(parts[0]), JavaText.ParseLong(parts[1]))
        case (Some(a), Some(b)) => Some(Range(a, b))
        case _ => None
    }
  }

  lemma Consecutive(r: seq<int>, start: int, end: int)
    requires |r| == end - start + 1 && forall i :: 0 <= i < |r| ==> r[i] == start + i
    ensures forall x :: x in r <==> start <= x <= end
  {
    forall x | start <= x <= end
      ensures x in r
    {
      assert r[x - start] == x;
    }
  }

  /** `parse` reads back "a-b" written in decimal, with any surrounding
      whitespace. */
  lemma ParseRoundTrip(a: nat, b: nat, pre: string, post: string)
    requires a <= LongMax && b <= LongMax
    requires forall i :: 0 <= i < |pre| ==> pre[i] <= ' '
    requires forall i :: 0 <= i < |post| ==> post[i] <= ' '
    ensures Range.Parse(pre + JavaText.ToDecimal(a) + "-" + JavaText.ToDecimal(b) + post) == Some(Range(a, b))
  {
    var sa, sb := JavaText.ToDecimal(a), JavaText.ToDecimal(b);
    var w := sa + "-" + sb;
    TrimRangeText(pre, sa, sb, post);
    assert JavaText.Split(w, "-") == [sa, sb] by {
      JavaText.AvoidsDigits(sa, "-");
      JavaText.AvoidsDigits(sb, "-");
      JavaText.SplitTwo(sa, "-", sb);
    }
    JavaText.ParseLongToDecimal(a);
    JavaText.ParseLongToDecimal(b);
  }

  lemma TrimRangeText(pre: string, sa: string, sb: string, post: string)
    requires forall i :: 0 <= i < |pre| ==> pre[i] <= ' '
    requires forall i :: 0 <= i < |post| ==> post[i] <= ' '
    requires |sa| > 0 && |sb| > 0 && JavaText.AllDigits(sa) && JavaText.AllDigits(sb)
    ensures JavaText.Trim(pre + sa + "-" + sb + post) == sa + "-" + sb
  {
    var w := sa + "-" + sb;
    assert w[0] == sa[0] && w[|w| - 1] == sb[|sb| - 1];
    assert pre + sa + "-" + sb + post == pre + w + post;
    JavaText.TrimPadded(pre, w, post);
  }

  /** Decimal length of n: 1 for n < 10 (0 and negative numbers included). */
  function DecimalLength(n: int): (len: nat)
    ensures len >= 1
  {
    if n < 10 then 1 else 1 + DecimalLength(n / 10)
  }

  /** The length is the number of characters of the decimal text. */
  lemma {:induction false} DecimalLengthIsText(n: nat)
    ensures DecimalLength(n) == |JavaText.ToDecimal(n)|
  {
    if n >= 10 {
      DecimalLengthIsText(n / 10);
    }
  }

  /** n has `len` digits: 10^(len-1) <= n < 10^len (the lower bound from n >= 1). */
  lemma {:induction false} DecimalLengthBounds(n: nat)
    ensures n < Pow10(DecimalLength(n))
    ensures n >= 1 ==> Pow10(DecimalLength(n) - 1) <= n
  {
    if n >= 10 {
      DecimalLengthBounds(n / 10);
    }
  }

  /** The length is the unique i with 10^(i-1) <= n < 10^i. */
  lemma {:induction false} DecimalLengthIs(n: int, i: nat)
    requires i >= 1 && n < Pow10(i) && (i == 1 || Pow10(i - 1) <= n)
    ensures DecimalLength(n) == i
    decreases i
  {
    if i > 1 {
      assert n >= 10 by { Pow10Monotone(1, i - 1); }
      assert n / 10 < Pow10(i - 1);
      if i > 2 {
        assert Pow10(i - 2) <= n / 10;
      }
      DecimalLengthIs(n / 10, i - 1);
    }
  }

  /** `digitCount`: the first i in 1..18 with n < 10^i, else 19. On every
      long this is the decimal length. */
  method DigitCount(n: int) returns (r: nat)
    requires n <= LongMax
    ensures r == DecimalLength(n)
  {
    for i := 1 to PowersLength
      invariant i == 1 || Pow10(i - 1) <= n
    {
      if n < Pow10(i) {
        DecimalLengthIs(n, i);
        return i;
      }
    }
    LongMaxBelowPowers();
    DecimalLengthIs(n, PowersLength);
    return PowersLength;
  }

  /** Every long is below 10^19. */
  lemma LongMaxBelowPowers()
    ensures Pow10(PowersLength) > LongMax
  {
    Pow10Add(9, 10);
    assert Pow10(9) == 1_000_000_000 by {
      assert Pow10(3) == 1000;
      Pow10Add(3, 3);
      Pow10Add(6, 3);
    }
    assert Pow10(10) == 10_000_000_000 by {
      Pow10Add(9, 1);
    }
  }

  /** `isInvalidId`: an even number of digits whose high half equals the
      low half. */
  function IsInvalidId(id: int): bool
  {
    var len := DecimalLength(id);
    if len % 2 != 0 then false
    else
      var divisor := Pow10(len / 2);
      id / divisor == id % divisor
  }

  /** (q·d + r) / d == q and (q·d + r) % d == r for 0 <= r < d. */
  lemma DivModUnique(q: int, d: int, r: int)
    requires 0 <= r < d
    ensures (q * d + r) / d == q && (q * d + r) % d == r
  {
    var n := q * d + r;
    var q', r' := n / d, n % d;
    assert n == q' * d + r';
    if q > q' {
      MulAtLeast(q - q', d);
      Distribute(q, q', d);
    } else if q < q' {
      MulAtLeast(q' - q, d);
      Distribute(q', q, d);
    }
  }

  lemma MulAtLeast(a: int, d: int)
    requires a >= 1 && d >= 0
    ensures a * d >= d
  {
  }

  lemma Distribute(a: int, b: int, d: int)
    ensures (a - b) * d == a * d - b * d
  {
  }

  /** An invalid id is a k-digit number h written twice. */
  lemma InvalidIdIsDoubled(id: int) returns (h: nat, k: nat)
    requires IsInvalidId(id)
    ensures k >= 1 && Pow10(k - 1) <= h < Pow10(k) && id == h * Pow10(k) + h
  {
    var len := DecimalLength(id);
    k := len / 2;
    assert len == k + k && k >= 1;
    DecimalLengthBounds(id);
    var P, Q := Pow10(k), Pow10(k - 1);
    Pow10Add(k, k);
    Pow10Add(k - 1, k);
    assert k - 1 + k == len - 1;
    HalvesBounds(id, P, Q);
    assert id / P == id % P;
    SameHalves(id, P);
    h := id / P;
  }

  lemma SameHalves(id: int, P: int)
    requires P >= 1 && id / P == id % P
    ensures id == (id / P) * P + id / P
  {
  }

  /** For Q·P <= id < P·P the quotient id / P lies in [Q, P). */
  lemma HalvesBounds(id: int, P: int, Q: int)
    requires P >= 1 && Q >= 0 && Q * P <= id < P * P
    ensures Q <= id / P < P
  {
    var h, r := id / P, id % P;
    assert id == h * P + r;
    if h >= P {
      MulLe(P, h, P);
    }
    if h < Q {
      MulLe(h + 1, Q, P);
    }
  }

  lemma MulLe(a: int, b: int, c: int)
    requires a <= b && c >= 0
    ensures a * c <= b * c
  {
  }

  /** A k-digit number h written twice is an invalid id. */
  lemma DoubledIsInvalid(h: nat, k: nat)
    requires k >= 1 && Pow10(k - 1) <= h < Pow10(k)
    ensures IsInvalidId(h * Pow10(k) + h)
  {
    var P := Pow10(k);
    var id := h * P + h;
    Pow10Add(k, k);
    Pow10Add(k - 1, k);
    assert k - 1 + k == 2 * k - 1 && k + k == 2 * k;
    DoubledBounds(h, P, Pow10(k - 1));
    DecimalLengthIs(id, 2 * k);
    assert DecimalLength(id) / 2 == k;
    DivModUnique(h, P, h);
  }

  /** For Q <= h < P, Q·P <= h·P + h < P·P. */
  lemma DoubledBounds(h: int, P: int, Q: int)
    requires 0 <= Q <= h < P
    ensures Q * P <= h * P + h < P * P
  {
    MulLe(Q, h, P);
    MulLe(h + 1, P, P);
    assert (h + 1) * P == h * P + P;
  }

  /** id with its lowest j blocks of patternLen digits removed. */
  function Shift(id: int, patternLen: nat, j: nat): int
  {
    if j == 0 then id else Shift(id, patternLen, j - 1) / Pow10(patternLen)
  }

  /** Block j of patternLen digits, counted from the right. */
  function Block(id: int, patternLen: nat, j: nat): int
  {
    Shift(id, patternLen, j) % Pow10(patternLen)
  }

  /** Every patternLen-digit block that starts within the first len digits
      (from the right) equals the lowest block. */
  predicate RepeatedPattern(id: int, len: int, patternLen: nat)
  {
    forall j :: 0 <= j < len && j * patternLen < len ==> Block(id, patternLen, j) == Block(id, patternLen, 0)
  }

  lemma DivDiv(a: nat, b: nat, c: nat)
    requires b > 0 && c > 0
    ensures a / b / c == a / (b * c)
  {
    var q1, r1 := a / b, a % b;
    var q2, r2 := q1 / c, q1 % c;
    assert a == (q2 * c + r2) * b + r1;
    assert a == q2 * (b * c) + (r2 * b + r1);
    assert r2 * b + r1 < b * c by {
      MulLe(r2, c - 1, b);
    }
    DivModUnique(q2, b * c, r2 * b + r1);
  }

  /** Removing j blocks divides by 10^(j·patternLen). */
  lemma {:induction false} ShiftIsDiv(id: nat, patternLen: nat, j: nat)
    ensures Shift(id, patternLen, j) == id / Pow10(j * patternLen)
  {
    if j > 0 {
      ShiftIsDiv(id, patternLen, j - 1);
      DivDiv(id, Pow10((j - 1) * patternLen), Pow10(patternLen));
      Pow10Add((j - 1) * patternLen, patternLen);
      assert (j - 1) * patternLen + patternLen == j * patternLen;
    }
  }

  /** `isRepeatedPattern`: strips patternLen digits at a time while digits
      remain, and fails at the first block that differs from the lowest. */
  method IsRepeatedPattern(id: nat, len: int, patternLen: nat) returns (r: bool)
    requires patternLen >= 1
    ensures r == RepeatedPattern(id, len, patternLen)
  {
    var divisor := Pow10(patternLen);
    var pattern := id % divisor;
    var remaining: int := id;
    var remainingLen := len;
    ghost var j: nat, consumed: nat := 0, 0;
    while remainingLen > 0
      invariant remaining == Shift(id, patternLen, j)
      invariant consumed == j * patternLen && remainingLen == len - consumed
      invariant forall t :: 0 <= t < j ==> Block(id, patternLen, t) == pattern
      decreases remainingLen
    {
      if remaining % divisor != pattern {
        Mismatch(id, len, patternLen, j);
        return false;
      }
      remaining := remaining / divisor;
      remainingLen := remainingLen - patternLen;
      j, consumed := j + 1, consumed + patternLen;
    }
    AllBlocksSeen(id, len, patternLen, j, pattern);
    return true;
  }

  lemma Mismatch(id: int, len: int, patternLen: nat, j: nat)
    requires patternLen >= 1 && j * patternLen < len
    requires Block(id, patternLen, j) != Block(id, patternLen, 0)
    ensures !RepeatedPattern(id, len, patternLen)
  {
    MulLe(1, patternLen, j);
  }

  lemma AllBlocksSeen(id: int, len: int, patternLen: nat, j: nat, pattern: int)
    requires len <= j * patternLen && pattern == Block(id, patternLen, 0)
    requires forall t :: 0 <= t < j ==> Block(id, patternLen, t) == pattern
    ensures RepeatedPattern(id, len, patternLen)
  {
    forall t | 0 <= t < len && t * patternLen < len
      ensures Block(id, patternLen, t) == pattern
    {
      if t >= j {
        MulLe(j, t, patternLen);
      }
    }
  }

  /** `isInvalidIdPart2` as a predicate: some pattern length p with
      1 <= p <= len / 2 divides len and repeats. */
  predicate InvalidPart2(id: int)
  {
    var len := DecimalLength(id);
    exists p :: 1 <= p <= len / 2 && len % p == 0 && RepeatedPattern(id, len, p)
  }

  /** `isInvalidIdPart2`: tries the pattern lengths in increasing order. */
  method IsInvalidIdPart2(id: int) returns (r: bool)
    requires id <= LongMax
    ensures r == InvalidPart2(id)
  {
    var len := DigitCount(id);
    for patternLen := 1 to len / 2 + 1
      invariant forall p :: 1 <= p < patternLen ==> !(len % p == 0 && RepeatedPattern(id, len, p))
    {
      if len % patternLen == 0 {
        assert id >= 10;
        var repeated := IsRepeatedPattern(id, len, patternLen);
        if repeated {
          return true;
        }
      }
    }
    return false;
  }

  /** Part 1 is the case of exactly two blocks: an id is invalid under
      `isInvalidId` iff its length is even and the half-length pattern
      repeats. */
  lemma InvalidIdIsTwoBlocks(id: int)
    ensures IsInvalidId(id) <==> (DecimalLength(id) % 2 == 0 && RepeatedPattern(id, DecimalLength(id), DecimalLength(id) / 2))
  {
    var len := DecimalLength(id);
    if len % 2 == 0 {
      var k := len / 2;
      var P := Pow10(k);
      assert id >= 10;
      assert Block(id, k, 1) == id / P by {
        DecimalLengthBounds(id);
        Pow10Add(k, k);
        assert k + k == len;
        assert id < P * P;
        HalvesBounds(id, P, 0);
        assert Shift(id, k, 1) == id / P;
        DivModUnique(0, P, id / P);
      }
      forall j | 0 <= j < len && j * k < len
        ensures j <= 1
      {
        if j >= 2 {
          MulLe(2, j, k);
        }
      }
    }
  }

  /** Every id invalid under part 1 is invalid under part 2. */
  lemma Part1ImpliesPart2(id: int)
    requires IsInvalidId(id)
    ensures InvalidPart2(id)
  {
    InvalidIdIsTwoBlocks(id);
    var len := DecimalLength(id);
    var k := len / 2;
    assert len == 2 * k && k >= 1;
    DivModUnique(2, k, 0);
    assert len % k == 0 && RepeatedPattern(id, len, k);
  }

  /** Single-digit ids are invalid under neither rule. */
  lemma SingleDigitValid(id: int)
    requires id < 10
    ensures !IsInvalidId(id) && !InvalidPart2(id)
  {
  }

  /** Σ of the elements of xs that satisfy isInvalid. */
  function SumFiltered(xs: seq<int>, isInvalid: int -> bool): int
  {
    if |xs| == 0 then 0
    else SumFiltered(xs[..|xs| - 1], isInvalid) + (if isInvalid(xs[|xs| - 1]) then xs[|xs| - 1] else 0)
  }

  /** All ids of the ranges, in order (`flatMapToLong(Range::stream)`). */
  function AllIds(ranges: seq<Range>): seq<int>
  {
    if |ranges| == 0 then [] else AllIds(ranges[..|ranges| - 1]) + ranges[|ranges| - 1].Stream()
  }

  /** `sumInvalidIds`. */
  function SumInvalidIds(ranges: seq<Range>, isInvalid: int -> bool): int
  {
    SumFiltered(AllIds(ranges), isInvalid)
  }

  function Part1(ranges: seq<Range>): int
  {
    SumInvalidIds(ranges, IsInvalidId)
  }

  function Part2(ranges: seq<Range>): int
  {
    SumInvalidIds(ranges, InvalidPart2)
  }

  lemma {:induction false} SumFilteredAppend(xs: seq<int>, ys: seq<int>, isInvalid: int -> bool)
    ensures SumFiltered(xs + ys, isInvalid) == SumFiltered(xs, isInvalid) + SumFiltered(ys, isInvalid)
    decreases |ys|
  {
    if |ys| > 0 {
      assert (xs + ys)[..|xs + ys| - 1] == xs + ys[..|ys| - 1];
      SumFilteredAppend(xs, ys[..|ys| - 1], isInvalid);
    } else {
      assert xs + ys == xs;
    }
  }

  /** The sum over several ranges is the sum of the sums over each. */
  lemma SumInvalidIdsAppend(r1: seq<Range>, r2: seq<Range>, isInvalid: int -> bool)
    ensures SumInvalidIds(r1 + r2, isInvalid) == SumInvalidIds(r1, isInvalid) + SumInvalidIds(r2, isInvalid)
  {
    AllIdsAppend(r1, r2);
    SumFilteredAppend(AllIds(r1), AllIds(r2), isInvalid);
  }

  lemma {:induction false} AllIdsAppend(r1: seq<Range>, r2: seq<Range>)
    ensures AllIds(r1 + r2) == AllIds(r1) + AllIds(r2)
    decreases |r2|
  {
    if |r2| > 0 {
      assert (r1 + r2)[..|r1 + r2| - 1] == r1 + r2[..|r2| - 1];
      AllIdsAppend(r1, r2[..|r2| - 1]);
    } else {
      assert r1 + r2 == r1;
    }
  }

  /** Every element is an id of some range, and every id of a range is an
      element. */
  lemma AllIdsMembers(ranges: seq<Range>, x: int)
    ensures x in AllIds(ranges) <==> exists i :: 0 <= i < |ranges| && ranges[i].start <= x <= ranges[i].end
  {
    if x in AllIds(ranges) {
      AllIdsFrom(ranges, x);
    }
    if exists i :: 0 <= i < |ranges| && ranges[i].start <= x <= ranges[i].end {
      var i :| 0 <= i < |ranges| && ranges[i].start <= x <= ranges[i].end;
      AllIdsHas(ranges, i, x);
    }
  }

  /** Each id of the ranges comes from one of them. */
  lemma {:induction false} AllIdsFrom(ranges: seq<Range>, x: int)
    requires x in AllIds(ranges)
    ensures exists i :: 0 <= i < |ranges| && ranges[i].start <= x <= ranges[i].end
  {
    var n := |ranges| - 1;
    var init := ranges[..n];
    if x in AllIds(init) {
      AllIdsFrom(init, x);
      var i :| 0 <= i < |init| && init[i].start <= x <= init[i].end;
      assert ranges[i] == init[i];
    } else {
      assert x in ranges[n].Stream();
    }
  }

  /** Each id of each range is among the ids. */
  lemma {:induction false} AllIdsHas(ranges: seq<Range>, i: int, x: int)
    requires 0 <= i < |ranges| && ranges[i].start <= x <= ranges[i].end
    ensures x in AllIds(ranges)
  {
    var n := |ranges| - 1;
    var init := ranges[..n];
    if i < n {
      assert init[i] == ranges[i];
      AllIdsHas(init, i, x);
    } else {
      assert x in ranges[n].Stream();
    }
  }

  /** Every id invalid under part 2 has at least two digits. */
  lemma InvalidPart2Positive(id: int)
    requires InvalidPart2(id)
    ensures id >= 10
  {
  }

  /** A weaker predicate on non-negative ids gives a smaller sum. */
  lemma {:induction false} SumFilteredMonotone(xs: seq<int>, p: int -> bool, q: int -> bool)
    requires forall i :: 0 <= i < |xs| ==> (p(xs[i]) ==> q(xs[i])) && (q(xs[i]) ==> xs[i] >= 0)
    ensures SumFiltered(xs, p) <= SumFiltered(xs, q)
    decreases |xs|
  {
    if |xs| > 0 {
      SumFilteredMonotone(xs[..|xs| - 1], p, q);
    }
  }

  /** Part 2 sums at least as much as part 1. */
  lemma Part2AtLeastPart1(ranges: seq<Range>)
    ensures Part1(ranges) <= Part2(ranges)
  {
    var xs := AllIds(ranges);
    forall i | 0 <= i < |xs|
      ensures (IsInvalidId(xs[i]) ==> InvalidPart2(xs[i])) && (InvalidPart2(xs[i]) ==> xs[i] >= 0)
    {
      if IsInvalidId(xs[i]) {
        Part1ImpliesPart2(xs[i]);
      }
      if InvalidPart2(xs[i]) {
        InvalidPart2Positive(xs[i]);
      }
    }
    SumFilteredMonotone(xs, IsInvalidId, InvalidPart2);
  }

  /** In 95..115 the only id made of two equal halves is 99. */
  lemma Part1Example()
    ensures Part1([Range(95, 115)]) == 99
  {
    var r := Range(95, 115);
    var xs := r.Stream();
    assert AllIds([r]) == xs by {
      assert [r][..0] == [];
    }
    forall i | 0 <= i < |xs|
      ensures IsInvalidId(xs[i]) <==> i == 4
    {
      var x := xs[i];
      if x < 100 {
        DecimalLengthIs(x, 2);
      } else {
        DecimalLengthIs(x, 3);
      }
    }
    SumOfOne(xs, IsInvalidId, 4);
  }

  /** In 95..115 part 2 also finds 111, the digit 1 three times. */
  lemma Part2Example()
    ensures Part2([Range(95, 115)]) == 210
  {
    var r := Range(95, 115);
    var xs := r.Stream();
    assert AllIds([r]) == xs by {
      assert [r][..0] == [];
    }
    var lo, hi := Range(95, 104).Stream(), Range(105, 115).Stream();
    assert xs == lo + hi;
    SumFilteredAppend(lo, hi, InvalidPart2);
    ExampleLowPart2();
    ExampleHighPart2();
  }

  lemma ExampleLowPart2()
    ensures SumFiltered(Range(95, 104).Stream(), InvalidPart2) == 99
  {
    var lo := Range(95, 104).Stream();
    forall i | 0 <= i < |lo|
      ensures InvalidPart2(lo[i]) <==> i == 4
    {
      ExampleIdPart2(lo[i]);
    }
    SumOfOne(lo, InvalidPart2, 4);
  }

  lemma ExampleHighPart2()
    ensures SumFiltered(Range(105, 115).Stream(), InvalidPart2) == 111
  {
    var hi := Range(105, 115).Stream();
    forall i | 0 <= i < |hi|
      ensures InvalidPart2(hi[i]) <==> i == 6
    {
      ExampleIdPart2(hi[i]);
    }
    SumOfOne(hi, InvalidPart2, 6);
  }

  lemma ExampleIdPart2(x: int)
    requires 95 <= x <= 115
    ensures InvalidPart2(x) <==> x == 99 || x == 111
  {
    SmallIdsPart2(x);
  }

  /** A two- or three-digit id is invalid under part 2 iff all its digits
      are equal. */
  lemma SmallIdsPart2(x: int)
    requires 10 <= x < 1000
    ensures InvalidPart2(x) <==> x % 10 == x / 10 % 10 && (x < 100 || x / 10 % 10 == x / 100 % 10)
  {
    assert Pow10(1) == 10;
    assert Block(x, 1, 0) == x % 10;
    assert Block(x, 1, 1) == x / 10 % 10;
    if x < 100 {
      DecimalLengthIs(x, 2);
      assert RepeatedPattern(x, 2, 1) <==> Block(x, 1, 1) == Block(x, 1, 0) by {
        forall j | 0 <= j < 2 && j * 1 < 2 ensures Block(x, 1, j) == Block(x, 1, 0) || j == 1 { }
      }
      assert InvalidPart2(x) <==> RepeatedPattern(x, 2, 1);
    } else {
      DecimalLengthIs(x, 3);
      assert Block(x, 1, 2) == x / 100 % 10 by {
        assert Shift(x, 1, 2) == x / 10 / 10;
      }
      assert RepeatedPattern(x, 3, 1) <==> Block(x, 1, 1) == Block(x, 1, 0) && Block(x, 1, 2) == Block(x, 1, 0) by {
        forall j | 0 <= j < 3 && j * 1 < 3 ensures Block(x, 1, j) == Block(x, 1, 0) || j == 1 || j == 2 { }
      }
      assert InvalidPart2(x) <==> RepeatedPattern(x, 3, 1);
    }
  }

  /** When exactly the element at k passes the filter, the sum is that
      element. */
  lemma {:induction false} SumOfOne(xs: seq<int>, isInvalid: int -> bool, k: nat)
    requires k < |xs| && forall i :: 0 <= i < |xs| ==> (isInvalid(xs[i]) <==> i == k)
    ensures SumFiltered(xs, isInvalid) == xs[k]
    decreases |xs|
  {
    var init := xs[..|xs| - 1];
    if k < |xs| - 1 {
      SumOfOne(init, isInvalid, k);
    } else {
      SumOfNone(init, isInvalid);
    }
  }

  lemma {:induction false} SumOfNone(xs: seq<int>, isInvalid: int -> bool)
    requires forall i :: 0 <= i < |xs| ==> !isInvalid(xs[i])
    ensures SumFiltered(xs, isInvalid) == 0
    decreases |xs|
  {
    if |xs| > 0 {
      SumOfNone(xs[..|xs| - 1], isInvalid);
    }
  }
}
