/** day12 Region: the space under one tree and how many presents of each
    shape must go into it, read from a line "WxH: c1 c2 ...". */
module Region {
  import opened Optional
  import JavaText

  datatype Region = Region(width: int, height: int, presentCounts: seq<int>)
  {
    /** `area`: never negative for a region with non-negative sides, and
        zero exactly when one side is. */
    function Area(): (a: int)
      ensures 0 <= width && 0 <= height ==> 0 <= a && (a == 0 <==> MinDimension() == 0)
    {
      width * height
    }

    /** `minDimension`: the smaller of the two sides. */
    function MinDimension(): (m: int)
      ensures m <= width && m <= height && (m == width || m == height)
    {
      if width < height then width else height
    }
  }

  /** The count texts: what follows the ':' trimmed and split at ' '. */
  function CountParts(line: string, colon: nat): seq<string>
    requires colon < |line|
  {
    JavaText.Split(JavaText.Trim(line[colon + 1..]), " ")
  }

  function ParseEach(parts: seq<string>): (r: seq<Option<int>>)
    ensures |r| == |parts| && forall k :: 0 <= k < |parts| ==> r[k] == JavaText.ParseInt(parts[k])
  {
    seq(|parts|, k requires 0 <= k < |parts| => JavaText.ParseInt(parts[k]))
  }

  /** `parse`: the width is the number before the first 'x', the height
      the number between it and the first ':', and the counts the numbers
      after that ':'. A missing 'x', a ':' before the 'x' or missing, or a
      piece that is not an int, throws (None). */
  function RegionOf(line: string): Option<Region>
  {
    var colon := JavaText.IndexOf(line, ":", 0);
    var sep := JavaText.IndexOf(line, "x", 0);
    if sep < 0 || colon < sep + 1 then None
    else RegionAt(line, sep, colon)
  }

  /** The numbers of a region line, cut at the given 'x' and ':'. */
  function RegionAt(line: string, sep: nat, colon: nat): Option<Region>
    requires sep < colon < |line|
  {
    var width := JavaText.ParseInt(line[..sep]);
    var height := JavaText.ParseInt(line[sep + 1..colon]);
    var counts := Collect(ParseEach(CountParts(line, colon)));
    if width.Some? && height.Some? && counts.Some? then Some(Region(width.value, height.value, counts.value))
    else None
  }

  /** `parse`, with its loop filling the counts array. */
  method Parse(line: string) returns (r: Option<Region>)
    ensures r == RegionOf(line)
  {
    var colon := JavaText.IndexOf(line, ":", 0);
    var sep := JavaText.IndexOf(line, "x", 0);
    if sep < 0 || colon < sep + 1 {
      return None;
    }
    var width := JavaText.ParseInt(line[..sep]);
    var height := JavaText.ParseInt(line[sep + 1..colon]);
    if width.None? || height.None? {
      return None;
    }
    var counts := ParseCounts(CountParts(line, colon));
    if counts.None? {
      return None;
    }
    r := Some(Region(width.value, height.value, counts.value));
  }

  /** The loop of `parse`: one int per count text. */
  method ParseCounts(parts: seq<string>) returns (r: Option<seq<int>>)
    ensures r == Collect(ParseEach(parts))
  {
    ghost var os := ParseEach(parts);
    var counts := new int[|parts|];
    for i := 0 to |parts|
      invariant forall k :: 0 <= k < i ==> os[k] == Some(counts[k])
    {
      var count := JavaText.ParseInt(parts[i]);
      assert os[i] == count;
      if count.None? {
        return None;
      }
      counts[i] := count.value;
    }
    var all := counts[..];
    CollectAll(os, all);
    return Some(all);
  }

  lemma CollectAll(os: seq<Option<int>>, vs: seq<int>)
    requires |vs| == |os| && forall k :: 0 <= k < |os| ==> os[k] == Some(vs[k])
    ensures Collect(os) == Some(vs)
  {
    var r := Collect(os);
    assert r.Some?;
    assert r.value == vs;
  }

  /** Words joined by single spaces. */
  function Join(words: seq<string>): string
    requires |words| >= 1
  {
    if |words| == 1 then words[0] else words[0] + " " + Join(words[1..])
  }

  /** A non-empty word of non-space characters. */
  predicate IsWord(w: string)
  {
    |w| > 0 && JavaText.Avoids(w, " ")
  }

  /** Splitting words joined by spaces at ' ' gives the words back. */
  lemma {:induction false} SplitAllJoin(words: seq<string>)
    requires |words| >= 1 && forall k :: 0 <= k < |words| ==> IsWord(words[k])
    ensures JavaText.SplitAll(Join(words), " ") == words
  {
    if |words| == 1 {
      JavaText.IndexOfAvoiding(words[0], " ");
    } else {
      var rest := Join(words[1..]);
      JavaText.IndexOfAfterAvoiding(words[0], " ", rest);
      var s := Join(words);
      assert s == words[0] + " " + rest;
      assert s[..|words[0]|] == words[0];
      assert s[|words[0]| + 1..] == rest;
      SplitAllJoin(words[1..]);
      assert words == [words[0]] + words[1..];
    }
  }

  lemma SplitJoin(words: seq<string>)
    requires |words| >= 1 && forall k :: 0 <= k < |words| ==> IsWord(words[k])
    ensures JavaText.Split(Join(words), " ") == words
  {
    SplitAllJoin(words);
    if |words| == 1 {
      JavaText.IndexOfAvoiding(words[0], " ");
    }
  }

  /** The decimal texts of some naturals. */
  function Decimals(ns: seq<nat>): (ws: seq<string>)
    ensures |ws| == |ns| && forall k :: 0 <= k < |ns| ==> ws[k] == JavaText.ToDecimal(ns[k])
  {
    seq(|ns|, k requires 0 <= k < |ns| => JavaText.ToDecimal(ns[k]))
  }

  /** Joined decimal texts are digits and spaces, and start and end with a
      digit. */
  lemma {:induction false} JoinDecimals(ns: seq<nat>)
    requires |ns| >= 1
    ensures var s := Join(Decimals(ns));
      |s| > 0 && JavaText.IsDigit(s[0]) && JavaText.IsDigit(s[|s| - 1]) &&
      forall i :: 0 <= i < |s| ==> JavaText.IsDigit(s[i]) || s[i] == ' '
  {
    var ws := Decimals(ns);
    if |ns| > 1 {
      JoinDecimals(ns[1..]);
      assert Decimals(ns[1..]) == ws[1..];
      var s, rest := Join(ws), Join(ws[1..]);
      assert s == ws[0] + " " + rest;
      forall i | 0 <= i < |s| ensures JavaText.IsDigit(s[i]) || s[i] == ' ' {
        if i > |ws[0]| {
          assert s[i] == rest[i - |ws[0]| - 1];
        }
      }
    }
  }

  /** The text "WxH: c1 c2 ..." of a region with natural numbers. */
  function Format(width: nat, height: nat, counts: seq<nat>): string
    requires |counts| >= 1
  {
    JavaText.ToDecimal(width) + "x" + JavaText.ToDecimal(height) + ": " + Join(Decimals(counts))
  }

  /** The ints of a sequence of naturals. */
  function Ints(ns: seq<nat>): (r: seq<int>)
    ensures |r| == |ns| && forall k :: 0 <= k < |ns| ==> r[k] == ns[k]
  {
    seq(|ns|, k requires 0 <= k < |ns| => ns[k] as int)
  }

  /** The count texts of a formatted region are the decimal texts of its
      counts, and they parse back to the counts. */
  lemma CountsRoundTrip(counts: seq<nat>)
    requires |counts| >= 1 && forall k :: 0 <= k < |counts| ==> counts[k] <= JavaText.IntMax
    ensures var ws := Decimals(counts);
      JavaText.Split(JavaText.Trim(" " + Join(ws)), " ") == ws &&
      Collect(ParseEach(ws)) == Some(Ints(counts))
  {
    var ws := Decimals(counts);
    var c := Join(ws);
    JoinDecimals(counts);
    assert " " + c == " " + c + "";
    JavaText.TrimPadded(" ", c, "");
    forall k | 0 <= k < |ws| ensures IsWord(ws[k]) {
      JavaText.AvoidsDigits(ws[k], " ");
    }
    SplitJoin(ws);
    forall k | 0 <= k < |counts| ensures ParseEach(ws)[k] == Some(Ints(counts)[k]) {
      JavaText.ParseLongToDecimal(counts[k]);
    }
    CollectAll(ParseEach(ws), Ints(counts));
  }

  /** `parse` reads back every region text whose numbers fit in an int
      and that has at least one count. */
  lemma ParseFormat(width: nat, height: nat, counts: seq<nat>)
    requires |counts| >= 1 && width <= JavaText.IntMax && height <= JavaText.IntMax
    requires forall k :: 0 <= k < |counts| ==> counts[k] <= JavaText.IntMax
    ensures RegionOf(Format(width, height, counts)) == Some(Region(width, height, Ints(counts)))
  {
    var a, b := JavaText.ToDecimal(width), JavaText.ToDecimal(height);
    var c := Join(Decimals(counts));
    CountsRoundTrip(counts);
    JavaText.ParseLongToDecimal(width);
    JavaText.ParseLongToDecimal(height);
    var line := Format(width, height, counts);
    FormatSlices(line, a, b, c);
    FirstCuts(line, a, b);
    RegionAtParts(line, a, b, " " + c, width, height, Ints(counts));
  }

  /** The numbers of a region line, from the texts between its cuts. */
  lemma RegionAtParts(line: string, a: string, b: string, tail: string, w: int, h: int, counts: seq<int>)
    requires |a| + 1 + |b| < |line|
    requires line[..|a|] == a && line[|a| + 1..|a| + 1 + |b|] == b && line[|a| + 2 + |b|..] == tail
    requires JavaText.ParseInt(a) == Some(w) && JavaText.ParseInt(b) == Some(h)
    requires Collect(ParseEach(JavaText.Split(JavaText.Trim(tail), " "))) == Some(counts)
    ensures RegionAt(line, |a|, |a| + 1 + |b|) == Some(Region(w, h, counts))
  {
    assert CountParts(line, |a| + 1 + |b|) == JavaText.Split(JavaText.Trim(tail), " ");
  }

  /** A line that starts with digits, an 'x', digits and a ':' is cut
      at that 'x' and that ':'. */
  lemma FirstCuts(line: string, a: string, b: string)
    requires JavaText.AllDigits(a) && JavaText.AllDigits(b) && |a| + 1 + |b| < |line|
    requires line[..|a|] == a && line[|a|] == 'x' && line[|a| + 1..|a| + 1 + |b|] == b && line[|a| + 1 + |b|] == ':'
    ensures RegionOf(line) == RegionAt(line, |a|, |a| + 1 + |b|)
  {
    forall i | 0 <= i < |a| + 1 + |b| ensures line[i] != ':' && (i < |a| ==> line[i] != 'x') {
      if i < |a| {
        assert line[i] == line[..|a|][i];
      } else if i > |a| {
        assert line[i] == line[|a| + 1..|a| + 1 + |b|][i - |a| - 1];
      }
    }
    JavaText.IndexOfFirst(line, 'x', |a|);
    JavaText.IndexOfFirst(line, ':', |a| + 1 + |b|);
    RegionOfAt(line, |a|, |a| + 1 + |b|);
  }

  /** The width, height and count texts of a formatted region line. */
  lemma FormatSlices(line: string, a: string, b: string, c: string)
    requires line == a + "x" + b + ": " + c
    ensures |a| + 1 + |b| < |line| && line[|a|] == 'x' && line[|a| + 1 + |b|] == ':'
    ensures line[..|a|] == a && line[|a| + 1..|a| + 1 + |b|] == b && line[|a| + 2 + |b|..] == " " + c
  {
    assert line == a + "x" + (b + ": " + c);
    assert line == (a + "x" + b) + ":" + (" " + c);
  }

  /** `parse` cuts at the first 'x' and the first ':'. */
  lemma RegionOfAt(line: string, sep: int, colon: int)
    requires 0 <= sep < colon < |line|
    requires JavaText.IndexOf(line, "x", 0) == sep && JavaText.IndexOf(line, ":", 0) == colon
    ensures RegionOf(line) == RegionAt(line, sep, colon)
  {
  }

  /** The decimal texts of the example's numbers. */
  lemma ExampleDecimals()
    ensures JavaText.ToDecimal(12) == "12" && JavaText.ToDecimal(5) == "5"
    ensures Decimals([1, 0, 1, 0, 2, 2]) == ["1", "0", "1", "0", "2", "2"]
  {
    assert JavaText.ToDecimal(12) == JavaText.ToDecimal(1) + ['2'];
  }

  /** The example's count texts joined by spaces. */
  lemma ExampleJoin()
    ensures Join(["1", "0", "1", "0", "2", "2"]) == "1 0 1 0 2 2"
  {
    var ws := ["1", "0", "1", "0", "2", "2"];
    assert ws[4..] == ["2", "2"] && ws[2..][2..] == ws[4..] && ws[2..] == ["1", "0", "2", "2"];
    assert Join(ws[4..]) == "2 2";
    assert Join(ws[2..]) == "1 0 2 2";
  }

  /** The text of the example region. */
  lemma ExampleText()
    ensures Format(12, 5, [1, 0, 1, 0, 2, 2]) == "12x5: 1 0 1 0 2 2"
  {
    ExampleDecimals();
    ExampleJoin();
    assert "12" + "x" + "5" + ": " + "1 0 1 0 2 2" == "12x5: 1 0 1 0 2 2";
  }

  /** "12x5: 1 0 1 0 2 2" is a 12 by 5 region of area 60 and smaller side
      5, with six counts. */
  lemma ExampleRegion()
    ensures RegionOf("12x5: 1 0 1 0 2 2") == Some(Region(12, 5, [1, 0, 1, 0, 2, 2]))
    ensures Region(12, 5, [1, 0, 1, 0, 2, 2]).Area() == 60
    ensures Region(12, 5, [1, 0, 1, 0, 2, 2]).MinDimension() == 5
  {
    ExampleText();
    ParseFormat(12, 5, [1, 0, 1, 0, 2, 2]);
    assert Ints([1, 0, 1, 0, 2, 2]) == [1, 0, 1, 0, 2, 2];
  }
}
