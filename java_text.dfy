/** Optional values stand for the Java exceptions (NumberFormatException,
    ArrayIndexOutOfBoundsException, IllegalArgumentException) that the
    puzzle code lets escape on malformed input. */
module Optional {
  datatype Option<+T> = None | Some(value: T)

  /** The values of a sequence of results, or None if any of them is None
      (the first failure of a loop that stops at it). */
  function Collect<T>(os: seq<Option<T>>): (r: Option<seq<T>>)
    ensures r.Some? <==> forall k :: 0 <= k < |os| ==> os[k].Some?
    ensures r.Some? ==> (|r.value| == |os| &&
      forall k :: 0 <= k < |os| ==> os[k] == Some(r.value[k]))
  {
    if os == [] then Some([])
    else match (Collect(os[..|os| - 1]), os[|os| - 1])
      case (Some(vs), Some(v)) => Some(vs + [v])
      case (None, _) =>
        var k :| 0 <= k < |os| - 1 && os[..|os| - 1][k].None?;
        assert os[k].None?;
        None
      case (_, None) => None
  }

  /** The values so far with one more appended, or None if either failed. */
  function Snoc<T>(vs: Option<seq<T>>, o: Option<T>): Option<seq<T>>
  {
    if vs.Some? && o.Some? then Some(vs.value + [o.value]) else None
  }

  /** Collecting one more result. */
  lemma CollectSnoc<T>(os: seq<Option<T>>, o: Option<T>)
    ensures Collect(os + [o]) == Snoc(Collect(os), o)
  {
    assert (os + [o])[..|os|] == os;
  }
}

/** Decimal digit sequences, most significant digit first. */
module Decimal {

  /** Horner value of a digit sequence: `result = result * 10 + d` for each digit d. */
  function Value(ds: seq<int>): int
  {
    if |ds| == 0 then 0 else Value(ds[..|ds| - 1]) * 10 + ds[|ds| - 1]
  }

  function Pow10(k: nat): (p: nat)
    ensures p >= 1
  {
    if k == 0 then 1 else 10 * Pow10(k - 1)
  }

  predicate AreDigits(ds: seq<int>)
  {
    forall i :: 0 <= i < |ds| ==> 0 <= ds[i] <= 9
  }

  lemma {:induction false} Pow10Monotone(i: nat, j: nat)
    requires i <= j
    ensures Pow10(i) <= Pow10(j)
  {
    if i < j { Pow10Monotone(i, j - 1); }
  }

  lemma {:induction false} Pow10Add(i: nat, j: nat)
    ensures Pow10(i + j) == Pow10(i) * Pow10(j)
  {
    if j > 0 {
      Pow10Add(i, j - 1);
      assert Pow10(i + j) == 10 * Pow10(i + j - 1);
    }
  }

  /** A k-digit sequence has a value in [0, 10^k). */
  lemma {:induction false} ValueBounds(ds: seq<int>)
    requires AreDigits(ds)
    ensures 0 <= Value(ds) < Pow10(|ds|)
  {
    if |ds| > 0 {
      ValueBounds(ds[..|ds| - 1]);
    }
  }

  /** Appending one digit is the Horner step. */
  lemma ValueSnoc(ds: seq<int>, d: int)
    ensures Value(ds + [d]) == Value(ds) * 10 + d
  {
    assert (ds + [d])[..|ds|] == ds;
  }

  /** The leading digit carries weight 10^(k-1). */
  lemma {:induction false} ValueCons(d: int, ds: seq<int>)
    ensures Value([d] + ds) == d * Pow10(|ds|) + Value(ds)
  {
    if |ds| == 0 {
      assert ([d] + ds)[..0] == [];
    } else {
      var init, last := ds[..|ds| - 1], ds[|ds| - 1];
      var whole := [d] + ds;
      assert whole[..|whole| - 1] == [d] + init;
      assert whole[|whole| - 1] == last;
      assert Value(whole) == Value([d] + init) * 10 + last;
      ValueCons(d, init);
      var p := Pow10(|init|);
      assert Value([d] + init) == d * p + Value(init);
      assert Value(ds) == Value(init) * 10 + last;
      assert Pow10(|ds|) == 10 * p;
      calc {
        Value(whole);
        (d * p + Value(init)) * 10 + last;
        d * (10 * p) + (Value(init) * 10 + last);
      }
    }
  }
}

/** The parts of java.lang.String and Long.parseLong that the puzzle code relies on. */
module JavaText {
  import opened Optional
  import Decimal

  /** Character.isWhitespace: the Unicode space separators other than the
      non-breaking ones, plus the ASCII controls TAB..CR and FS..US. */
  predicate IsWhitespace(c: char)
  {
    c == ' ' || ('\t' <= c <= '\r') || ('\U{1C}' <= c <= '\U{1F}')
    || c == '\U{1680}' || ('\U{2000}' <= c <= '\U{2006}') || ('\U{2008}' <= c <= '\U{200A}')
    || c == '\U{2028}' || c == '\U{2029}' || c == '\U{205F}' || c == '\U{3000}'
  }

  /** String.isBlank: empty or whitespace only. */
  predicate IsBlank(s: string)
  {
    forall i :: 0 <= i < |s| ==> IsWhitespace(s[i])
  }

  /** Character.isDigit restricted to the ASCII digits. */
  predicate IsDigit(c: char)
  {
    '0' <= c <= '9'
  }

  function DigitValue(c: char): int
  {
    c as int - '0' as int
  }

  function DigitChar(d: int): char
    requires 0 <= d <= 9
  {
    (d + '0' as int) as char
  }

  predicate AllDigits(s: string)
  {
    forall i :: 0 <= i < |s| ==> IsDigit(s[i])
  }

  function DigitsOf(s: string): (ds: seq<int>)
    ensures |ds| == |s|
    ensures forall i :: 0 <= i < |s| ==> ds[i] == DigitValue(s[i])
  {
    seq(|s|, i requires 0 <= i < |s| => DigitValue(s[i]))
  }

  /** The first loop of String.trim: from st on, skips characters up to
      U+0020 and returns where it stopped. */
  function TrimFrom(s: string, st: nat): (k: nat)
    requires st <= |s|
    ensures st <= k <= |s|
    ensures forall j :: st <= j < k ==> s[j] <= ' '
    ensures k == |s| || s[k] > ' '
    decreases |s| - st
  {
    if st < |s| && s[st] <= ' ' then TrimFrom(s, st + 1) else st
  }

  /** The second loop of String.trim: moves the end len down over characters
      up to U+0020, never below st. */
  function TrimTo(s: string, st: nat, len: nat): (k: nat)
    requires st <= len <= |s|
    ensures st <= k <= len
    ensures forall j :: k <= j < len ==> s[j] <= ' '
    ensures k == st || s[k - 1] > ' '
    decreases len
  {
    if st < len && s[len - 1] <= ' ' then TrimTo(s, st, len - 1) else len
  }

  /** String.trim: strips every character up to U+0020 from both ends. */
  function Trim(s: string): (t: string)
    ensures |t| <= |s|
    ensures t == [] || (t[0] > ' ' && t[|t| - 1] > ' ')
  {
    var st := TrimFrom(s, 0);
    s[st..TrimTo(s, st, |s|)]
  }

  /** What trim keeps is a slice of s whose ends are above U+0020, and only
      characters up to U+0020 were cut on either side. */
  lemma TrimSlice(s: string) returns (lo: nat, hi: nat)
    ensures lo <= hi <= |s| && Trim(s) == s[lo..hi]
    ensures forall i :: 0 <= i < lo ==> s[i] <= ' '
    ensures forall i :: hi <= i < |s| ==> s[i] <= ' '
    ensures hi == lo || (s[lo] > ' ' && s[hi - 1] > ' ')
  {
    lo := TrimFrom(s, 0);
    hi := TrimTo(s, lo, |s|);
  }

  /** Trimming a string whose two ends are above U+0020 changes nothing. */
  lemma TrimKeeps(s: string)
    requires |s| == 0 || (s[0] > ' ' && s[|s| - 1] > ' ')
    ensures Trim(s) == s
  {
    assert s[0..|s|] == s;
  }

  /** Blanks around a word are cut by trim. */
  lemma TrimPadded(pre: string, w: string, post: string)
    requires forall i :: 0 <= i < |pre| ==> pre[i] <= ' '
    requires forall i :: 0 <= i < |post| ==> post[i] <= ' '
    requires |w| > 0 && w[0] > ' ' && w[|w| - 1] > ' '
    ensures Trim(pre + w + post) == w
  {
    var x := pre + w + post;
    var hi := |pre| + |w|;
    assert forall j :: 0 <= j < |pre| ==> x[j] == pre[j];
    assert x[|pre|] == w[0] && x[hi - 1] == w[|w| - 1];
    assert forall j :: hi <= j < |x| ==> x[j] == post[j - hi];
    TrimFromBlanks(x, 0, |pre|);
    TrimToBlanks(x, |pre|, |x|, hi);
    assert x[|pre|..hi] == w;
  }

  /** The leading scan from st stops at the first character above U+0020. */
  lemma {:induction false} TrimFromBlanks(s: string, st: nat, k: nat)
    requires st <= k < |s| && s[k] > ' '
    requires forall j :: st <= j < k ==> s[j] <= ' '
    ensures TrimFrom(s, st) == k
    decreases k - st
  {
    if st < k {
      TrimFromBlanks(s, st + 1, k);
    }
  }

  /** The trailing scan from len stops after the last character above U+0020. */
  lemma {:induction false} TrimToBlanks(s: string, st: nat, len: nat, k: nat)
    requires st < k <= len <= |s| && s[k - 1] > ' '
    requires forall j :: k <= j < len ==> s[j] <= ' '
    ensures TrimTo(s, st, len) == k
    decreases len
  {
    if k < len {
      TrimToBlanks(s, st, len - 1, k);
    }
  }

  /** True when sep occurs in s at index k. */
  predicate OccursAt(s: string, sep: string, k: int)
  {
    0 <= k && k + |sep| <= |s| && s[k..k + |sep|] == sep
  }

  /** String.indexOf(sep, from): the first occurrence at or after from, or -1. */
  function IndexOf(s: string, sep: string, from: nat): (k: int)
    decreases |s| - from
    ensures k == -1 || (from <= k && OccursAt(s, sep, k))
    ensures k == -1 ==> forall j :: from <= j ==> !OccursAt(s, sep, j)
    ensures k != -1 ==> forall j :: from <= j < k ==> !OccursAt(s, sep, j)
  {
    if from + |sep| > |s| then -1
    else if s[from..from + |sep|] == sep then from
    else IndexOf(s, sep, from + 1)
  }

  /** Cuts s at every occurrence of sep, from left to right, keeping empty pieces. */
  function SplitAll(s: string, sep: string): (parts: seq<string>)
    requires |sep| > 0
    decreases |s|
    ensures |parts| >= 1
  {
    var k := IndexOf(s, sep, 0);
    if k < 0 then [s] else [s[..k]] + SplitAll(s[k + |sep|..], sep)
  }

  function DropTrailingEmpty(parts: seq<string>): (r: seq<string>)
    ensures |r| <= |parts| && r == parts[..|r|]
    ensures |r| == 0 || r[|r| - 1] != ""
    ensures forall i :: |r| <= i < |parts| ==> parts[i] == ""
  {
    if |parts| > 0 && parts[|parts| - 1] == "" then DropTrailingEmpty(parts[..|parts| - 1]) else parts
  }

  /** String.split with a literal separator and limit 0: a string without the
      separator is returned whole; otherwise trailing empty pieces are dropped. */
  function Split(s: string, sep: string): (r: seq<string>)
    requires |sep| > 0
    ensures IndexOf(s, sep, 0) < 0 ==> r == [s]
    ensures IndexOf(s, sep, 0) >= 0 ==> |r| == 0 || r[|r| - 1] != ""
  {
    if IndexOf(s, sep, 0) < 0 then [s] else DropTrailingEmpty(SplitAll(s, sep))
  }

  /** True when no character of s occurs in sep (so sep cannot start or straddle inside s). */
  predicate Avoids(s: string, sep: string)
  {
    forall i, j :: 0 <= i < |s| && 0 <= j < |sep| ==> s[i] != sep[j]
  }

  lemma {:induction false} IndexOfAfterAvoiding(a: string, sep: string, rest: string)
    requires |sep| > 0 && Avoids(a, sep)
    ensures IndexOf(a + sep + rest, sep, 0) == |a|
  {
    var s := a + sep + rest;
    assert OccursAt(s, sep, |a|) by { assert s[|a|..|a| + |sep|] == sep; }
    forall j | 0 <= j < |a| ensures !OccursAt(s, sep, j) {
      assert s[j] == a[j];
      if j + |sep| <= |s| {
        assert s[j..j + |sep|][0] == s[j];
      }
    }
    var k := IndexOf(s, sep, 0);
    assert k != -1;
  }

  /** String.contains. */
  predicate Contains(s: string, t: string)
  {
    IndexOf(s, t, 0) >= 0
  }

  /** The character occurs in the string. */
  predicate HasChar(s: string, ch: char)
  {
    exists i :: 0 <= i < |s| && s[i] == ch
  }

  /** String.contains of a one-character string holds exactly when that
      character occurs in the string. */
  lemma ContainsChar(s: string, ch: char)
    ensures Contains(s, [ch]) <==> HasChar(s, ch)
  {
    var k := IndexOf(s, [ch], 0);
    if k >= 0 {
      assert s[k] == s[k..k + 1][0];
    }
    if i :| 0 <= i < |s| && s[i] == ch {
      assert OccursAt(s, [ch], i) by { assert s[i..i + 1] == [ch]; }
    }
  }

  /** A character's first occurrence is where IndexOf finds it. */
  lemma IndexOfFirst(s: string, ch: char, k: nat)
    requires k < |s| && s[k] == ch
    requires forall i :: 0 <= i < k ==> s[i] != ch
    ensures IndexOf(s, [ch], 0) == k
  {
    assert OccursAt(s, [ch], k) by { assert s[k..k + 1] == [ch]; }
    forall j | 0 <= j < k ensures !OccursAt(s, [ch], j) {
      assert s[j..j + 1][0] == s[j];
    }
  }

  lemma {:induction false} IndexOfAvoiding(a: string, sep: string)
    requires |sep| > 0 && Avoids(a, sep)
    ensures IndexOf(a, sep, 0) == -1
  {
    forall j | 0 <= j ensures !OccursAt(a, sep, j) {
      if j + |sep| <= |a| {
        assert a[j..j + |sep|][0] == a[j];
      }
    }
  }

  /** Two separator-free non-empty words joined by the separator split back into the words. */
  lemma SplitTwo(a: string, sep: string, b: string)
    requires |sep| > 0 && Avoids(a, sep) && Avoids(b, sep) && |b| > 0
    ensures Split(a + sep + b, sep) == [a, b]
  {
    var s := a + sep + b;
    IndexOfAfterAvoiding(a, sep, b);
    assert s[..|a|] == a;
    assert s[|a| + |sep|..] == b;
    IndexOfAvoiding(b, sep);
    assert SplitAll(s, sep) == [a, b];
  }

  const LongMin: int := -0x8000_0000_0000_0000
  const LongMax: int := 0x7fff_ffff_ffff_ffff

  /** The number an optional sign and at least one ASCII digit spell, if
      the text is one. */
  function SignedValue(s: string): Option<int>
  {
    if |s| == 0 then None
    else if s[0] == '-' || s[0] == '+' then
      if |s| > 1 && AllDigits(s[1..]) then
        Some(if s[0] == '-' then -Decimal.Value(DigitsOf(s[1..])) else Decimal.Value(DigitsOf(s[1..])))
      else None
    else if AllDigits(s) then Some(Decimal.Value(DigitsOf(s)))
    else None
  }

  /** Long.parseLong over ASCII digits: an optional sign and at least one
      digit, spelling a number in the range of a long; anything else is a
      NumberFormatException. */
  function ParseLong(s: string): (r: Option<int>)
    ensures r.Some? <==> SignedValue(s).Some? && LongMin <= SignedValue(s).value <= LongMax
    ensures r.Some? ==> r.value == SignedValue(s).value
  {
    match SignedValue(s)
    case Some(v) => if LongMin <= v <= LongMax then Some(v) else None
    case None => None
  }

  const IntMin: int := -0x8000_0000
  const IntMax: int := 0x7fff_ffff

  /** Integer.parseInt: a number parseLong accepts that also fits in an int. */
  function ParseInt(s: string): (r: Option<int>)
    ensures r.Some? <==> ParseLong(s).Some? && IntMin <= ParseLong(s).value <= IntMax
    ensures r.Some? ==> r.value == ParseLong(s).value
  {
    match ParseLong(s)
    case Some(v) => if IntMin <= v <= IntMax then Some(v) else None
    case None => None
  }

  /** The decimal text of a natural number, without sign or leading zeros. */
  function ToDecimal(n: nat): (s: string)
    ensures |s| > 0 && AllDigits(s)
  {
    if n < 10 then [DigitChar(n)] else ToDecimal(n / 10) + [DigitChar(n % 10)]
  }

  lemma {:induction false} ToDecimalValue(n: nat)
    ensures Decimal.Value(DigitsOf(ToDecimal(n))) == n
  {
    if n >= 10 {
      ToDecimalValue(n / 10);
      var s := ToDecimal(n / 10);
      assert DigitsOf(s + [DigitChar(n % 10)]) == DigitsOf(s) + [n % 10];
      Decimal.ValueSnoc(DigitsOf(s), n % 10);
    } else {
      assert DigitsOf(ToDecimal(n)) == [] + [n];
    }
  }

  /** parseLong reads back what ToDecimal writes. */
  lemma ParseLongToDecimal(n: nat)
    requires n <= LongMax
    ensures ParseLong(ToDecimal(n)) == Some(n)
  {
    ToDecimalValue(n);
  }

  /** parseLong refuses a number above the long range, and takes a
      negative one down to -2^63 exactly. */
  lemma ParseLongRange(n: nat)
    ensures ParseLong(ToDecimal(n)) == if n <= LongMax then Some(n) else None
    ensures ParseLong("-" + ToDecimal(n)) == if n <= -LongMin then Some(-(n as int)) else None
  {
    ToDecimalValue(n);
    assert ("-" + ToDecimal(n))[1..] == ToDecimal(n);
  }

  lemma AvoidsDigits(s: string, sep: string)
    requires AllDigits(s)
    requires forall j :: 0 <= j < |sep| ==> !IsDigit(sep[j])
    ensures Avoids(s, sep)
  {
  }
}
