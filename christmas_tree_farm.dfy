/** day12 ChristmasTreeFarm: the shapes of the presents and the regions
    under the trees, read from the puzzle input, and how many regions can
    take all their presents. */
module ChristmasTreeFarm {
  import opened Optional
  import JavaText
  import Shape
  import Region
  import PlacementSolver

  datatype ChristmasTreeFarm = ChristmasTreeFarm(shapes: seq<Shape.Shape>, regions: seq<Region.Region>)

  /** `isRegionLine`: not blank, contains an 'x' and a ':', and starts with
      a digit. */
  predicate IsRegionLine(line: string)
  {
    !JavaText.IsBlank(line) && JavaText.HasChar(line, 'x') && JavaText.HasChar(line, ':') &&
    JavaText.IsDigit(line[0])
  }

  /** `isShapeHeaderLine`: contains a ':' and starts with a digit. */
  predicate IsShapeHeaderLine(line: string)
  {
    JavaText.HasChar(line, ':') && JavaText.IsDigit(line[0])
  }

  /** A line of a shape's drawing: not blank and without a ':'. */
  predicate IsBodyLine(line: string)
  {
    !JavaText.IsBlank(line) && !JavaText.HasChar(line, ':')
  }

  /** Where the drawing that starts at line i ends: at the first line from
      i on that is blank or holds a ':', or at the end of the input. */
  function BodyEnd(lines: seq<string>, i: nat): (e: nat)
    requires i <= |lines|
    decreases |lines| - i
    ensures i <= e <= |lines|
    ensures e == |lines| || !IsBodyLine(lines[e])
  {
    if i == |lines| || !IsBodyLine(lines[i]) then i else BodyEnd(lines, i + 1)
  }

  /** A drawing is made of drawing lines and ends at the first line that
      is not one. */
  lemma {:induction false} BodyEndStops(lines: seq<string>, i: nat)
    requires i <= |lines|
    decreases |lines| - i
    ensures forall j :: i <= j < BodyEnd(lines, i) ==> IsBodyLine(lines[j])
    ensures BodyEnd(lines, i) == |lines| || !IsBodyLine(lines[BodyEnd(lines, i)])
  {
    if i < |lines| && IsBodyLine(lines[i]) {
      BodyEndStops(lines, i + 1);
    }
  }

  /** The range [s, e) of a drawing, if it has any line. */
  function Drawn(s: nat, e: nat): (r: seq<(nat, nat)>)
    ensures |r| <= 1 && (r == [] <==> e <= s) && (e > s ==> r[0] == (s, e))
  {
    if e > s then [(s, e)] else []
  }

  /** What `parseShapes` reads: the index it stops at and the line range
      [start, end) of each non-empty drawing, in input order. */
  datatype Scan = Scan(end: nat, bodies: seq<(nat, nat)>)

  /** `parseShapes` from line i: blank lines and lines that are neither a
      header nor a region are skipped, a header is followed by its drawing,
      and the first region line ends the shapes. */
  function ScanShapes(lines: seq<string>, i: nat): (r: Scan)
    requires i <= |lines|
    decreases |lines| - i
    ensures i <= r.end <= |lines|
    ensures r.end == |lines| || IsRegionLine(lines[r.end])
  {
    if i == |lines| then Scan(i, [])
    else if JavaText.IsBlank(lines[i]) then ScanShapes(lines, i + 1)
    else if IsRegionLine(lines[i]) then Scan(i, [])
    else if IsShapeHeaderLine(lines[i]) then
      var e := BodyEnd(lines, i + 1);
      var rest := ScanShapes(lines, e);
      Scan(rest.end, Drawn(i + 1, e) + rest.bodies)
    else ScanShapes(lines, i + 1)
  }

  /** The scan stops at the first region line from i on, or at the end of
      the input. */
  lemma {:induction false} ScanStops(lines: seq<string>, i: nat)
    requires i <= |lines|
    decreases |lines| - i
    ensures var end := ScanShapes(lines, i).end;
      (end == |lines| || IsRegionLine(lines[end])) &&
      forall j :: i <= j < end ==> !IsRegionLine(lines[j])
  {
    if i == |lines| || IsRegionLine(lines[i]) {
    } else if JavaText.IsBlank(lines[i]) || !IsShapeHeaderLine(lines[i]) {
      ScanStops(lines, i + 1);
    } else {
      var e := BodyEnd(lines, i + 1);
      BodyEndStops(lines, i + 1);
      ScanStops(lines, e);
    }
  }

  /** A drawing range: non-empty, right after a header line, made of
      drawing lines only, and ended by a line that is not one or by the end
      of the input. */
  predicate IsBody(lines: seq<string>, b: (nat, nat))
  {
    0 < b.0 < b.1 <= |lines| && IsShapeHeaderLine(lines[b.0 - 1]) &&
    (forall j :: b.0 <= j < b.1 ==> IsBodyLine(lines[j])) &&
    (b.1 == |lines| || !IsBodyLine(lines[b.1]))
  }

  /** Drawing ranges that lie strictly after line lo and end by line hi. */
  predicate BodiesIn(lines: seq<string>, bodies: seq<(nat, nat)>, lo: int, hi: int)
  {
    forall k :: 0 <= k < |bodies| ==> IsBody(lines, bodies[k]) && lo < bodies[k].0 && bodies[k].1 <= hi
  }

  /** Ranges in input order, each ending before the next one starts. */
  predicate Ordered(bodies: seq<(nat, nat)>)
  {
    forall k :: 0 <= k < |bodies| - 1 ==> bodies[k].1 < bodies[k + 1].0
  }

  /** The drawings the scan collects are drawing ranges, in input order,
      all before the line where the scan stops. */
  lemma {:induction false} ScanBodies(lines: seq<string>, i: nat)
    requires i <= |lines|
    decreases |lines| - i
    ensures BodiesIn(lines, ScanShapes(lines, i).bodies, i, ScanShapes(lines, i).end)
    ensures Ordered(ScanShapes(lines, i).bodies)
  {
    if i == |lines| || IsRegionLine(lines[i]) {
    } else if JavaText.IsBlank(lines[i]) || !IsShapeHeaderLine(lines[i]) {
      ScanBodies(lines, i + 1);
    } else {
      var e := BodyEnd(lines, i + 1);
      BodyEndStops(lines, i + 1);
      ScanBodies(lines, e);
      var rest := ScanShapes(lines, e);
      if e > i + 1 {
        var b := (i + 1, e);
        assert IsBody(lines, b);
        assert ScanShapes(lines, i).bodies == [b] + rest.bodies;
        BodiesCons(lines, b, rest.bodies, i, rest.end);
      }
    }
  }

  /** The scan passes over a blank line and over a line that is neither a
      region nor a header. */
  lemma ScanSkip(lines: seq<string>, i: nat)
    requires i < |lines|
    requires JavaText.IsBlank(lines[i]) || (!IsRegionLine(lines[i]) && !IsShapeHeaderLine(lines[i]))
    ensures ScanShapes(lines, i) == ScanShapes(lines, i + 1)
  {
  }

  /** The scan stops at a region line and at the end of the input. */
  lemma ScanAtRegion(lines: seq<string>, i: nat)
    requires i == |lines| || (i < |lines| && IsRegionLine(lines[i]))
    ensures ScanShapes(lines, i) == Scan(i, [])
  {
  }

  /** The scan past a header line resumes where its drawing ends. */
  lemma ScanHeader(lines: seq<string>, i: nat)
    requires i < |lines| && !JavaText.IsBlank(lines[i]) && !IsRegionLine(lines[i]) && IsShapeHeaderLine(lines[i])
    ensures var e := BodyEnd(lines, i + 1);
      ScanShapes(lines, i) == Scan(ScanShapes(lines, e).end, Drawn(i + 1, e) + ScanShapes(lines, e).bodies)
  {
  }

  /** A drawing range in front of later, ordered ones keeps them ordered. */
  lemma BodiesCons(lines: seq<string>, b: (nat, nat), rest: seq<(nat, nat)>, lo: int, hi: int)
    requires IsBody(lines, b) && lo < b.0 && b.1 <= hi
    requires BodiesIn(lines, rest, b.1, hi) && Ordered(rest)
    ensures BodiesIn(lines, [b] + rest, lo, hi) && Ordered([b] + rest)
  {
    var all := [b] + rest;
    forall k | 0 <= k < |all| - 1 ensures all[k].1 < all[k + 1].0 {
      assert all[k + 1] == rest[k];
      if k > 0 {
        assert all[k] == rest[k - 1];
      }
    }
  }

  /** The shapes are the drawings of the ranges, in order. */
  ghost predicate ShapesOf(lines: seq<string>, bodies: seq<(nat, nat)>, shapes: seq<Shape.Shape>)
  {
    |shapes| == |bodies| &&
    forall k :: 0 <= k < |bodies| ==>
      bodies[k].0 <= bodies[k].1 <= |lines| && Shape.Parsed(lines[bodies[k].0..bodies[k].1], shapes[k])
  }

  /** One more drawing and its shape. */
  lemma ShapesOfSnoc(lines: seq<string>, bodies: seq<(nat, nat)>, shapes: seq<Shape.Shape>, b: (nat, nat), s: Shape.Shape)
    requires ShapesOf(lines, bodies, shapes)
    requires b.0 <= b.1 <= |lines| && Shape.Parsed(lines[b.0..b.1], s)
    ensures ShapesOf(lines, bodies + [b], shapes + [s])
  {
    var bs, ss := bodies + [b], shapes + [s];
    forall k | 0 <= k < |bs|
      ensures bs[k].0 <= bs[k].1 <= |lines| && Shape.Parsed(lines[bs[k].0..bs[k].1], ss[k])
    {
      if k < |bodies| {
        assert bs[k] == bodies[k] && ss[k] == shapes[k];
      }
    }
  }

  /** `parseOneShape`: the drawing from startIdx on, added to the shapes
      when it has at least one line. */
  method ParseOneShape(lines: seq<string>, startIdx: nat, shapes: seq<Shape.Shape>, ghost bodies: seq<(nat, nat)>)
    returns (i: nat, shapes': seq<Shape.Shape>)
    requires startIdx <= |lines| && ShapesOf(lines, bodies, shapes)
    ensures i == BodyEnd(lines, startIdx)
    ensures ShapesOf(lines, bodies + Drawn(startIdx, i), shapes')
  {
    var shapeLines: seq<string> := [];
    i := startIdx;
    while i < |lines| && !JavaText.IsBlank(lines[i]) && !JavaText.HasChar(lines[i], ':')
      invariant startIdx <= i <= |lines| && BodyEnd(lines, startIdx) == BodyEnd(lines, i)
      invariant shapeLines == lines[startIdx..i]
      decreases |lines| - i
    {
      shapeLines := shapeLines + [lines[i]];
      i := i + 1;
    }
    shapes' := shapes;
    if shapeLines != [] {
      var shape := Shape.Parse(shapeLines);
      ShapesOfSnoc(lines, bodies, shapes, (startIdx, i), shape);
      shapes' := shapes + [shape];
    } else {
      assert bodies + [] == bodies;
    }
  }

  /** `parseShapes`: the index of the first region line (or the end of the
      input) and the shapes drawn before it. */
  method ParseShapes(lines: seq<string>) returns (idx: nat, shapes: seq<Shape.Shape>)
    ensures idx == ScanShapes(lines, 0).end
    ensures ShapesOf(lines, ScanShapes(lines, 0).bodies, shapes)
  {
    shapes := [];
    ghost var done: seq<(nat, nat)> := [];
    var i := 0;
    while i < |lines|
      invariant i <= |lines|
      invariant ScanShapes(lines, 0) == Scan(ScanShapes(lines, i).end, done + ScanShapes(lines, i).bodies)
      invariant ShapesOf(lines, done, shapes)
      decreases |lines| - i
    {
      var line := lines[i];
      if JavaText.IsBlank(line) {
        SkipStep(lines, i, done);
        i := i + 1;
        continue;
      }
      if IsRegionLine(line) {
        break;
      }
      if IsShapeHeaderLine(line) {
        var header := i;
        i, shapes := ParseOneShape(lines, header + 1, shapes, done);
        HeaderStep(lines, header, done);
        done := done + Drawn(header + 1, i);
      } else {
        SkipStep(lines, i, done);
        i := i + 1;
      }
    }
    StopStep(lines, i, done);
    idx := i;
  }

  /** The scan passes over a blank line and over a line that is neither a
      region nor a header. */
  lemma SkipStep(lines: seq<string>, i: nat, done: seq<(nat, nat)>)
    requires i < |lines| && ScanShapes(lines, 0) == Scan(ScanShapes(lines, i).end, done + ScanShapes(lines, i).bodies)
    requires JavaText.IsBlank(lines[i]) || (!IsRegionLine(lines[i]) && !IsShapeHeaderLine(lines[i]))
    ensures ScanShapes(lines, 0) == Scan(ScanShapes(lines, i + 1).end, done + ScanShapes(lines, i + 1).bodies)
  {
    ScanSkip(lines, i);
  }

  /** The scan past a header line resumes where its drawing ends, with the
      drawing's range added. */
  lemma HeaderStep(lines: seq<string>, i: nat, done: seq<(nat, nat)>)
    requires i < |lines| && ScanShapes(lines, 0) == Scan(ScanShapes(lines, i).end, done + ScanShapes(lines, i).bodies)
    requires !JavaText.IsBlank(lines[i]) && !IsRegionLine(lines[i]) && IsShapeHeaderLine(lines[i])
    ensures var e := BodyEnd(lines, i + 1);
      ScanShapes(lines, 0) == Scan(ScanShapes(lines, e).end, (done + Drawn(i + 1, e)) + ScanShapes(lines, e).bodies)
  {
    var e := BodyEnd(lines, i + 1);
    ScanHeader(lines, i);
    assert done + (Drawn(i + 1, e) + ScanShapes(lines, e).bodies) == (done + Drawn(i + 1, e)) + ScanShapes(lines, e).bodies;
  }

  /** The scan ends at a region line or at the end of the input, with
      every drawing collected. */
  lemma StopStep(lines: seq<string>, i: nat, done: seq<(nat, nat)>)
    requires i <= |lines| && ScanShapes(lines, 0) == Scan(ScanShapes(lines, i).end, done + ScanShapes(lines, i).bodies)
    requires i == |lines| || IsRegionLine(lines[i])
    ensures ScanShapes(lines, 0) == Scan(i, done)
  {
    ScanAtRegion(lines, i);
    assert done + [] == done;
  }

  /** The region lines among some lines, in order. */
  function RegionLines(ls: seq<string>): (r: seq<string>)
    ensures |r| <= |ls|
    ensures forall k :: 0 <= k < |r| ==> IsRegionLine(r[k])
  {
    if ls == [] then []
    else RegionLines(ls[..|ls| - 1]) + (if IsRegionLine(ls[|ls| - 1]) then [ls[|ls| - 1]] else [])
  }

  /** The region lines of two stretches of lines, one after the other. */
  lemma {:induction false} RegionLinesAppend(a: seq<string>, b: seq<string>)
    decreases |b|
    ensures RegionLines(a + b) == RegionLines(a) + RegionLines(b)
  {
    if b == [] {
      assert a + b == a;
    } else {
      var b' := b[..|b| - 1];
      RegionLinesAppend(a, b');
      assert (a + b)[..|a + b| - 1] == a + b';
    }
  }

  /** Lines without a region line hold no region. */
  lemma {:induction false} RegionLinesNone(ls: seq<string>)
    requires forall j :: 0 <= j < |ls| ==> !IsRegionLine(ls[j])
    ensures RegionLines(ls) == []
  {
    if ls != [] {
      RegionLinesNone(ls[..|ls| - 1]);
    }
  }

  /** What a parser makes of each line. */
  function ParseAll(parse: string -> Option<Region.Region>, ls: seq<string>): (r: seq<Option<Region.Region>>)
    ensures |r| == |ls| && forall k :: 0 <= k < |ls| ==> r[k] == parse(ls[k])
  {
    seq(|ls|, k requires 0 <= k < |ls| => parse(ls[k]))
  }

  /** The region lines up to line i are those up to line i - 1 and line
      i - 1 itself if it is one. */
  lemma RegionLinesSnoc(lines: seq<string>, start: nat, i: nat)
    requires start < i <= |lines|
    ensures IsRegionLine(lines[i - 1]) ==>
      RegionLines(lines[start..i]) == RegionLines(lines[start..i - 1]) + [lines[i - 1]]
    ensures !IsRegionLine(lines[i - 1]) ==> RegionLines(lines[start..i]) == RegionLines(lines[start..i - 1])
  {
    assert lines[start..i][..i - 1 - start] == lines[start..i - 1];
  }

  /** A region line is among the region lines from start on, right after
      those before it. */
  lemma RegionLinesAt(lines: seq<string>, start: nat, i: nat)
    requires start <= i < |lines| && IsRegionLine(lines[i])
    ensures var before := RegionLines(lines[start..i]);
      |before| < |RegionLines(lines[start..])| && RegionLines(lines[start..])[|before|] == lines[i]
  {
    assert lines[start..] == lines[start..i + 1] + lines[i + 1..];
    RegionLinesAppend(lines[start..i + 1], lines[i + 1..]);
    RegionLinesSnoc(lines, start, i + 1);
  }

  /** The regions read from lines start to i, one line after the other,
      stopping at the first region line that does not parse. */
  function ReadRegions(parse: string -> Option<Region.Region>, lines: seq<string>, start: nat, i: nat): Option<seq<Region.Region>>
    requires start <= i <= |lines|
  {
    if i == start then Some([])
    else if IsRegionLine(lines[i - 1]) then Snoc(ReadRegions(parse, lines, start, i - 1), parse(lines[i - 1]))
    else ReadRegions(parse, lines, start, i - 1)
  }

  /** The regions `parseRegions` reads from line start on. */
  function RegionsFrom(lines: seq<string>, start: nat): Option<seq<Region.Region>>
    requires start <= |lines|
  {
    ReadRegions(Region.RegionOf, lines, start, |lines|)
  }

  /** The regions read from line start on are one per region line, or None
      when one of them does not parse. */
  lemma RegionsFromCollect(lines: seq<string>, start: nat)
    requires start <= |lines|
    ensures RegionsFrom(lines, start) == Collect(ParseAll(Region.RegionOf, RegionLines(lines[start..])))
  {
    ReadRegionsAll(Region.RegionOf, lines, start, |lines|);
    assert lines[start..|lines|] == lines[start..];
  }

  /** Reading line by line gives one region per region line, or None when
      one of them does not parse. */
  lemma {:induction false} ReadRegionsAll(parse: string -> Option<Region.Region>, lines: seq<string>, start: nat, i: nat)
    requires start <= i <= |lines|
    ensures ReadRegions(parse, lines, start, i) == Collect(ParseAll(parse, RegionLines(lines[start..i])))
  {
    if i > start {
      ReadRegionsAll(parse, lines, start, i - 1);
      RegionLinesSnoc(lines, start, i);
      var line, before := lines[i - 1], RegionLines(lines[start..i - 1]);
      if IsRegionLine(line) {
        ParseAllSnoc(parse, before, line);
      }
    }
  }

  /** Parsing one more line: its region is added, or the parse fails. */
  lemma ParseAllSnoc(parse: string -> Option<Region.Region>, before: seq<string>, line: string)
    ensures Collect(ParseAll(parse, before + [line])) == Snoc(Collect(ParseAll(parse, before)), parse(line))
  {
    var os := ParseAll(parse, before);
    assert ParseAll(parse, before + [line]) == os + [parse(line)];
    CollectSnoc(os, parse(line));
  }

  /** `parseRegions`: every region line from startIdx on becomes a region;
      the first one that does not parse throws (None). */
  method ParseRegions(lines: seq<string>, startIdx: nat) returns (regions: Option<seq<Region.Region>>)
    requires startIdx <= |lines|
    ensures regions == RegionsFrom(lines, startIdx)
  {
    var found: seq<Region.Region> := [];
    for i := startIdx to |lines|
      invariant ReadRegions(Region.RegionOf, lines, startIdx, i) == Some(found)
    {
      var line := lines[i];
      if IsRegionLine(line) {
        var region := Region.Parse(line);
        RegionLineRead(lines, startIdx, i, found, region);
        if region.None? {
          return None;
        }
        found := found + [region.value];
      } else {
        OtherLineRead(lines, startIdx, i, found);
      }
    }
    regions := Some(found);
  }

  /** A region line read after found: its region is added, or reading fails
      for good. */
  lemma RegionLineRead(lines: seq<string>, start: nat, i: nat, found: seq<Region.Region>, region: Option<Region.Region>)
    requires start <= i < |lines| && IsRegionLine(lines[i]) && region == Region.RegionOf(lines[i])
    requires ReadRegions(Region.RegionOf, lines, start, i) == Some(found)
    ensures region.None? ==> RegionsFrom(lines, start).None?
    ensures region.Some? ==> ReadRegions(Region.RegionOf, lines, start, i + 1) == Some(found + [region.value])
  {
    if region.None? {
      ReadRegionsStuck(Region.RegionOf, lines, start, i + 1);
    }
  }

  /** A line that is not a region line changes nothing. */
  lemma OtherLineRead(lines: seq<string>, start: nat, i: nat, found: seq<Region.Region>)
    requires start <= i < |lines| && !IsRegionLine(lines[i])
    requires ReadRegions(Region.RegionOf, lines, start, i) == Some(found)
    ensures ReadRegions(Region.RegionOf, lines, start, i + 1) == Some(found)
  {
  }

  /** Once reading has failed it stays failed. */
  lemma {:induction false} ReadRegionsStuck(parse: string -> Option<Region.Region>, lines: seq<string>, start: nat, i: nat)
    requires start <= i <= |lines| && ReadRegions(parse, lines, start, i).None?
    decreases |lines| - i
    ensures ReadRegions(parse, lines, start, |lines|).None?
  {
    if i < |lines| {
      ReadRegionsStuck(parse, lines, start, i + 1);
    }
  }

  /** A region line that does not parse makes all of them fail. */
  lemma RegionFails(lines: seq<string>, start: nat, i: nat)
    requires start <= i < |lines| && IsRegionLine(lines[i]) && Region.RegionOf(lines[i]).None?
    ensures RegionsFrom(lines, start).None?
  {
    RegionsFromCollect(lines, start);
    RegionLinesAt(lines, start, i);
    var k := |RegionLines(lines[start..i])|;
    assert ParseAll(Region.RegionOf, RegionLines(lines[start..]))[k].None?;
  }

  /** Every region line of the input is read: none of them comes before the
      line where the shapes end. */
  lemma AllRegionLinesRead(lines: seq<string>)
    ensures RegionLines(lines[ScanShapes(lines, 0).end..]) == RegionLines(lines)
  {
    var end := ScanShapes(lines, 0).end;
    ScanStops(lines, 0);
    assert lines == lines[..end] + lines[end..];
    RegionLinesAppend(lines[..end], lines[end..]);
    RegionLinesNone(lines[..end]);
  }

  /** The regions of a farm are those of every region line of the input,
      or None when one of them does not parse. */
  lemma FarmRegions(lines: seq<string>)
    ensures RegionsFrom(lines, ScanShapes(lines, 0).end) == Collect(ParseAll(Region.RegionOf, RegionLines(lines)))
  {
    RegionsFromCollect(lines, ScanShapes(lines, 0).end);
    AllRegionLinesRead(lines);
  }

  /** `parse`: the shapes drawn before the first region line and the
      regions from there on; a region that does not parse throws (None). */
  method Parse(lines: seq<string>) returns (r: Option<ChristmasTreeFarm>)
    ensures r.Some? <==> RegionsFrom(lines, ScanShapes(lines, 0).end).Some?
    ensures r.Some? ==>
      ShapesOf(lines, ScanShapes(lines, 0).bodies, r.value.shapes) &&
      RegionsFrom(lines, ScanShapes(lines, 0).end) == Some(r.value.regions)
  {
    var idx, shapes := ParseShapes(lines);
    var regions := ParseRegions(lines, idx);
    if regions.None? {
      return None;
    }
    r := Some(ChristmasTreeFarm(shapes, regions.value));
  }

  /** The number of regions that fit their presents, or None when asking
      about one of them fails. */
  function FitCount(sizes: seq<int>, minDims: seq<int>, regions: seq<Region.Region>): Option<nat>
    requires |minDims| == |sizes|
  {
    if regions == [] then Some(0)
    else
      var n := |regions| - 1;
      var before, verdict := FitCount(sizes, minDims, regions[..n]), PlacementSolver.Verdict(sizes, minDims, regions[n]);
      if before.None? || verdict.None? then None
      else Some(before.value + if verdict.value then 1 else 0)
  }

  /** The count fails exactly when the verdict on some region fails. */
  lemma {:induction false} FitCountFails(sizes: seq<int>, minDims: seq<int>, regions: seq<Region.Region>)
    requires |minDims| == |sizes|
    ensures FitCount(sizes, minDims, regions).None? <==>
      exists k :: 0 <= k < |regions| && PlacementSolver.Verdict(sizes, minDims, regions[k]).None?
  {
    if regions != [] {
      var n := |regions| - 1;
      var init := regions[..n];
      FitCountFails(sizes, minDims, init);
      if exists k :: 0 <= k < |regions| && PlacementSolver.Verdict(sizes, minDims, regions[k]).None? {
        var k :| 0 <= k < |regions| && PlacementSolver.Verdict(sizes, minDims, regions[k]).None?;
        if k < n {
          assert init[k] == regions[k];
        }
      } else {
        forall k | 0 <= k < n ensures PlacementSolver.Verdict(sizes, minDims, init[k]).Some? {
          assert init[k] == regions[k];
        }
      }
    }
  }

  /** A count that succeeds is at most the number of regions. */
  lemma {:induction false} FitCountAtMost(sizes: seq<int>, minDims: seq<int>, regions: seq<Region.Region>)
    requires |minDims| == |sizes|
    ensures FitCount(sizes, minDims, regions).Some? ==> FitCount(sizes, minDims, regions).value <= |regions|
  {
    if regions != [] {
      FitCountAtMost(sizes, minDims, regions[..|regions| - 1]);
    }
  }

  /** The count equals the number of regions exactly when each region fits. */
  lemma {:induction false} FitCountAll(sizes: seq<int>, minDims: seq<int>, regions: seq<Region.Region>)
    requires |minDims| == |sizes|
    ensures FitCount(sizes, minDims, regions) == Some(|regions|) <==>
      forall k :: 0 <= k < |regions| ==> PlacementSolver.Verdict(sizes, minDims, regions[k]) == Some(true)
  {
    if regions != [] {
      var n := |regions| - 1;
      var init := regions[..n];
      FitCountAll(sizes, minDims, init);
      FitCountAtMost(sizes, minDims, init);
      if forall k :: 0 <= k < |regions| ==> PlacementSolver.Verdict(sizes, minDims, regions[k]) == Some(true) {
        forall k | 0 <= k < n ensures PlacementSolver.Verdict(sizes, minDims, init[k]) == Some(true) {
          assert init[k] == regions[k];
        }
      } else if FitCount(sizes, minDims, regions) == Some(|regions|) {
        forall k | 0 <= k < |regions| ensures PlacementSolver.Verdict(sizes, minDims, regions[k]) == Some(true) {
          if k < n {
            assert init[k] == regions[k];
          }
        }
      }
    }
  }

  /** The count fails exactly when the verdict on some region fails;
      otherwise it is at most the number of regions, and all of them fit
      exactly when each one does. */
  lemma FitCountBounds(sizes: seq<int>, minDims: seq<int>, regions: seq<Region.Region>)
    requires |minDims| == |sizes|
    ensures FitCount(sizes, minDims, regions).None? <==>
      exists k :: 0 <= k < |regions| && PlacementSolver.Verdict(sizes, minDims, regions[k]).None?
    ensures FitCount(sizes, minDims, regions).Some? ==> FitCount(sizes, minDims, regions).value <= |regions|
    ensures FitCount(sizes, minDims, regions) == Some(|regions|) <==>
      forall k :: 0 <= k < |regions| ==> PlacementSolver.Verdict(sizes, minDims, regions[k]) == Some(true)
  {
    FitCountFails(sizes, minDims, regions);
    FitCountAtMost(sizes, minDims, regions);
    FitCountAll(sizes, minDims, regions);
  }

  /** The number of regions among the first m that fit. */
  function Fitting(sizes: seq<int>, minDims: seq<int>, regions: seq<Region.Region>, m: nat): nat
    requires |minDims| == |sizes| && m <= |regions|
    requires forall k :: 0 <= k < |regions| ==> PlacementSolver.Known(|sizes|, regions[k].presentCounts)
  {
    if m == 0 then 0
    else Fitting(sizes, minDims, regions, m - 1) + if PlacementSolver.Fits(sizes, minDims, regions[m - 1]) then 1 else 0
  }

  /** With every present a known shape, the count is the number of regions
      that fit. */
  lemma {:induction false} FitCountKnown(sizes: seq<int>, minDims: seq<int>, regions: seq<Region.Region>, m: nat)
    requires |minDims| == |sizes| && m <= |regions|
    requires forall k :: 0 <= k < |regions| ==> PlacementSolver.Known(|sizes|, regions[k].presentCounts)
    ensures FitCount(sizes, minDims, regions[..m]) == Some(Fitting(sizes, minDims, regions, m))
  {
    if m > 0 {
      FitCountKnown(sizes, minDims, regions, m - 1);
      FitCountSnoc(sizes, minDims, regions, m - 1);
      PlacementSolver.VerdictFits(sizes, minDims, regions[m - 1]);
    } else {
      assert regions[..0] == [];
    }
  }

  /** Counting one more region adds one when it fits and fails when the
      verdict on it fails. */
  lemma FitCountSnoc(sizes: seq<int>, minDims: seq<int>, regions: seq<Region.Region>, k: nat)
    requires |minDims| == |sizes| && k < |regions|
    ensures var before, verdict := FitCount(sizes, minDims, regions[..k]), PlacementSolver.Verdict(sizes, minDims, regions[k]);
      FitCount(sizes, minDims, regions[..k + 1]) ==
        if before.None? || verdict.None? then None else Some(before.value + if verdict.value then 1 else 0)
  {
    assert regions[..k + 1][..k] == regions[..k];
  }

  /** A failed count stays failed as regions are added. */
  lemma {:induction false} FitCountStuck(sizes: seq<int>, minDims: seq<int>, regions: seq<Region.Region>, k: nat)
    requires |minDims| == |sizes| && k <= |regions| && FitCount(sizes, minDims, regions[..k]).None?
    decreases |regions| - k
    ensures FitCount(sizes, minDims, regions).None?
  {
    if k < |regions| {
      FitCountSnoc(sizes, minDims, regions, k);
      FitCountStuck(sizes, minDims, regions, k + 1);
    } else {
      assert regions[..k] == regions;
    }
  }

  /** One region more in the count: a failed verdict fails the whole
      count, and otherwise the count grows by one exactly when it fits. */
  lemma CountStep(sizes: seq<int>, minDims: seq<int>, regions: seq<Region.Region>, k: nat, fitting: int, fits: Option<bool>)
    requires |minDims| == |sizes| && k < |regions|
    requires FitCount(sizes, minDims, regions[..k]) == Some(fitting)
    requires fits == PlacementSolver.Verdict(sizes, minDims, regions[k])
    ensures fits.None? ==> FitCount(sizes, minDims, regions).None?
    ensures fits.Some? ==> FitCount(sizes, minDims, regions[..k + 1]) == Some(fitting + if fits.value then 1 else 0)
  {
    FitCountSnoc(sizes, minDims, regions, k);
    if fits.None? {
      FitCountStuck(sizes, minDims, regions, k + 1);
    }
  }

  /** `countFittingRegions`: one solver for the farm's shapes, asked about
      each region in turn; a question that fails fails the count (None). */
  method CountFittingRegions(farm: ChristmasTreeFarm) returns (count: Option<int>)
    ensures count == FitCount(PlacementSolver.SizesOf(farm.shapes), PlacementSolver.MinDimensionsOf(farm.shapes), farm.regions)
  {
    var solver := new PlacementSolver.PlacementSolver(farm.shapes);
    var sizes, minDims := PlacementSolver.SizesOf(farm.shapes), PlacementSolver.MinDimensionsOf(farm.shapes);
    var fitting := 0;
    for k := 0 to |farm.regions|
      invariant solver.shapeSizes[..] == sizes && solver.shapeMinDimensions[..] == minDims
      invariant FitCount(sizes, minDims, farm.regions[..k]) == Some(fitting)
    {
      var fits := solver.CanFit(farm.regions[k]);
      CountStep(sizes, minDims, farm.regions, k, fitting, fits);
      if fits.None? {
        return None;
      }
      if fits.value {
        fitting := fitting + 1;
      }
    }
    assert farm.regions[..|farm.regions|] == farm.regions;
    return Some(fitting);
  }

  /** Shapes of 7 cells (smaller side 3) and 5 cells (smaller side 2): of
      the regions 5x5 asking for one and two, 4x4 asking for the same, and
      2x20 asking for one 7-cell present, only the first fits. */
  lemma CountExample()
    ensures FitCount([7, 5], [3, 2], [Region.Region(5, 5, [1, 2]), Region.Region(4, 4, [1, 2]), Region.Region(2, 20, [1])]) == Some(1)
  {
    PlacementSolver.MultipleExample();
    PlacementSolver.DimensionExample();
    var rs := [Region.Region(5, 5, [1, 2]), Region.Region(4, 4, [1, 2]), Region.Region(2, 20, [1])];
    PlacementSolver.VerdictFits([7, 5], [3, 2], rs[0]);
    PlacementSolver.VerdictFits([7, 5], [3, 2], rs[1]);
    PlacementSolver.VerdictFits([7, 5], [3, 2], rs[2]);
    assert PlacementSolver.Verdict([7, 5], [3, 2], rs[0]) == Some(true);
    assert PlacementSolver.Verdict([7, 5], [3, 2], rs[1]) == Some(false);
    assert PlacementSolver.Verdict([7, 5], [3, 2], rs[2]) == Some(false);
    assert rs[..1][..0] == [] && rs[..2][..1] == rs[..1] && rs[..3][..2] == rs[..2] && rs[..3] == rs;
    assert FitCount([7, 5], [3, 2], rs[..1]) == Some(1);
    assert FitCount([7, 5], [3, 2], rs[..2]) == Some(1);
  }
}
