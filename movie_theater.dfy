/** day09 MovieTheater: red tiles at integer points. Part one is the
    largest rectangle with two red tiles at opposite corners; part two
    only counts rectangles that lie inside the loop the red tiles form. */
module MovieTheater {
  import opened Optional
  import JavaText
  import FileUtils
  import RP = RectilinearPolygon

  /** One line of `parse`: split at ',' and read the first two pieces,
      trimmed, as ints; fewer than two pieces or a bad number is an
      exception (None). */
  function ParsePoint(line: string): (r: Option<(int, int)>)
    ensures r.Some? ==> |JavaText.Split(line, ",")| >= 2
  {
    var parts := JavaText.Split(line, ",");
    if |parts| < 2 then None
    else match (JavaText.ParseInt(JavaText.Trim(parts[0])), JavaText.ParseInt(JavaText.Trim(parts[1])))
      case (Some(x), Some(y)) => Some((x, y))
      case _ => None
  }

  /** Each line parsed on its own. */
  function ParseEach(lines: seq<string>): (r: seq<Option<(int, int)>>)
    ensures |r| == |lines| && forall k :: 0 <= k < |lines| ==> r[k] == ParsePoint(lines[k])
  {
    seq(|lines|, k requires 0 <= k < |lines| => ParsePoint(lines[k]))
  }

  function Abs(v: int): nat
  {
    if v < 0 then -v else v
  }

  /** `computeArea`: the tiles of the rectangle with corners i and j,
      both borders included. */
  function Area(xs: seq<int>, ys: seq<int>, i: int, j: int): (r: int)
    requires |ys| == |xs| && 0 <= i < |xs| && 0 <= j < |xs|
    ensures r >= 1
  {
    (Abs(xs[j] - xs[i]) + 1) * (Abs(ys[j] - ys[i]) + 1)
  }

  function Min(a: int, b: int): int
  {
    if a < b then a else b
  }

  function Max(a: int, b: int): int
  {
    if a < b then b else a
  }

  /** `computeValidArea` against the polygon of all the red tiles: 0 for a
      flat rectangle, for one whose other two corners are outside, or for
      one an edge passes through; otherwise its area. */
  function ValidArea(xs: seq<int>, ys: seq<int>, i: int, j: int): int
    requires |ys| == |xs| && 0 <= i < |xs| && 0 <= j < |xs|
  {
    var v, h := RP.Edges(xs, ys, |xs|, true), RP.Edges(xs, ys, |xs|, false);
    var x1, y1, x2, y2 := xs[i], ys[i], xs[j], ys[j];
    if x1 == x2 || y1 == y2 then 0
    else if !RP.Inside(v, h, x1, y2) || !RP.Inside(v, h, x2, y1) then 0
    else if !RP.RectangleInside(v, h, Min(x1, x2), Max(x1, x2), Min(y1, y2), Max(y1, y2)) then 0
    else Area(xs, ys, i, j)
  }

  /** A valid area is either 0 or the whole area, and it is not 0 exactly
      when the corners differ in both coordinates, the other two corners
      are inside and no edge crosses the rectangle. */
  lemma ValidAreaMeaning(xs: seq<int>, ys: seq<int>, i: int, j: int)
    requires |ys| == |xs| && 0 <= i < |xs| && 0 <= j < |xs|
    ensures ValidArea(xs, ys, i, j) == 0 || ValidArea(xs, ys, i, j) == Area(xs, ys, i, j)
    ensures 0 <= ValidArea(xs, ys, i, j) <= Area(xs, ys, i, j)
    ensures var v, h := RP.Edges(xs, ys, |xs|, true), RP.Edges(xs, ys, |xs|, false);
      ValidArea(xs, ys, i, j) != 0 <==>
        xs[i] != xs[j] && ys[i] != ys[j] &&
        RP.Inside(v, h, xs[i], ys[j]) && RP.Inside(v, h, xs[j], ys[i]) &&
        RP.RectangleInside(v, h, Min(xs[i], xs[j]), Max(xs[i], xs[j]), Min(ys[i], ys[j]), Max(ys[i], ys[j]))
  {
  }

  /** What a pair of red tiles scores: its area, or its valid area. */
  function Score(xs: seq<int>, ys: seq<int>, valid: bool, i: int, j: int): int
    requires |ys| == |xs| && 0 <= i < |xs| && 0 <= j < |xs|
  {
    if valid then ValidArea(xs, ys, i, j) else Area(xs, ys, i, j)
  }

  /** r is the largest score over the pairs i < j, or 0 when none scores
      more than 0. */
  predicate IsLargest(r: int, xs: seq<int>, ys: seq<int>, valid: bool)
    requires |ys| == |xs|
  {
    r >= 0 &&
    (forall i, j :: 0 <= i < j < |xs| ==> Score(xs, ys, valid, i, j) <= r) &&
    (r == 0 || exists i, j :: 0 <= i < j < |xs| && Score(xs, ys, valid, i, j) == r)
  }

  /** There is only one largest score. */
  lemma LargestUnique(r: int, r': int, xs: seq<int>, ys: seq<int>, valid: bool)
    requires |ys| == |xs| && IsLargest(r, xs, ys, valid) && IsLargest(r', xs, ys, valid)
    ensures r == r'
  {
    if r != 0 {
      var i, j :| 0 <= i < j < |xs| && Score(xs, ys, valid, i, j) == r;
      assert r <= r';
    }
    if r' != 0 {
      var i, j :| 0 <= i < j < |xs| && Score(xs, ys, valid, i, j) == r';
      assert r' <= r;
    }
  }

  /** Fewer than two tiles give 0; at least two give at least 1 for
      part one. */
  lemma LargestBounds(r: int, xs: seq<int>, ys: seq<int>)
    requires |ys| == |xs| && IsLargest(r, xs, ys, false)
    ensures |xs| < 2 ==> r == 0
    ensures |xs| >= 2 ==> r >= 1
  {
    if |xs| >= 2 {
      assert Score(xs, ys, false, 0, 1) <= r;
    }
  }

  /** The largest valid rectangle is never larger than the largest one. */
  lemma ValidAtMostLargest(r: int, rValid: int, xs: seq<int>, ys: seq<int>)
    requires |ys| == |xs| && IsLargest(r, xs, ys, false) && IsLargest(rValid, xs, ys, true)
    ensures rValid <= r
  {
    if rValid != 0 {
      var i, j :| 0 <= i < j < |xs| && Score(xs, ys, true, i, j) == rValid;
      ValidAreaMeaning(xs, ys, i, j);
      assert Score(xs, ys, false, i, j) <= r;
    }
  }

  /** The polygon holds the edges of the loop the tiles xs, ys form, and
      its cache is sound. */
  ghost predicate PolygonOf(polygon: RP.Polygon, xs: array<int>, ys: array<int>)
    reads polygon, xs, ys
  {
    ys.Length == xs.Length && polygon.Valid() &&
    polygon.vertical == RP.Edges(xs[..], ys[..], xs.Length, true) &&
    polygon.horizontal == RP.Edges(xs[..], ys[..], xs.Length, false)
  }

  class MovieTheater {
    const xcoords: array<int>
    const ycoords: array<int>
    var polygon: RP.Polygon?

    /** The polygon, once built, is the one of the red tiles. */
    ghost predicate Valid()
      reads this, xcoords, ycoords, polygon
    {
      ycoords.Length == xcoords.Length &&
      (polygon != null ==> PolygonOf(polygon, xcoords, ycoords))
    }

    constructor (xs: array<int>, ys: array<int>)
      requires ys.Length == xs.Length
      ensures xcoords == xs && ycoords == ys && polygon == null
      ensures Valid()
    {
      xcoords, ycoords := xs, ys;
      polygon := null;
    }

    static method Parse(lines: seq<string>) returns (r: Option<MovieTheater>)
      ensures r.None? <==> Collect(ParseEach(FileUtils.NonBlank(lines))).None?
      ensures r.Some? ==> (r.value.Valid() && r.value.polygon == null &&
        r.value.xcoords.Length == |FileUtils.NonBlank(lines)| &&
        forall k :: 0 <= k < r.value.xcoords.Length ==>
          Collect(ParseEach(FileUtils.NonBlank(lines))).value[k] == (r.value.xcoords[k], r.value.ycoords[k]))
    {
      r := FromParsed(ParseEach(FileUtils.NonBlank(lines)));
    }

    /** The loop of `parse`: stores each parsed tile, stopping at the
        first line that did not parse. */
    static method FromParsed(results: seq<Option<(int, int)>>) returns (r: Option<MovieTheater>)
      ensures r.None? <==> Collect(results).None?
      ensures r.Some? ==> (r.value.Valid() && r.value.polygon == null &&
        r.value.xcoords.Length == |results| &&
        forall k :: 0 <= k < |results| ==> Collect(results).value[k] == (r.value.xcoords[k], r.value.ycoords[k]))
    {
      var n := |results|;
      var xs := new int[n];
      var ys := new int[n];
      for i := 0 to n
        invariant forall k :: 0 <= k < i ==> results[k] == Some((xs[k], ys[k]))
      {
        var point := results[i];
        if point.None? {
          return None;
        }
        xs[i] := point.value.0;
        ys[i] := point.value.1;
      }
      var t := new MovieTheater(xs, ys);
      return Some(t);
    }

    /** `largestRectangleArea`. */
    method LargestRectangleArea() returns (maxArea: int)
      requires Valid()
      ensures IsLargest(maxArea, xcoords[..], ycoords[..], false)
    {
      ghost var xs, ys := xcoords[..], ycoords[..];
      var n := xcoords.Length;
      maxArea := 0;
      for i := 0 to n
        invariant maxArea >= 0
        invariant forall p, q :: 0 <= p < q < n && p < i ==> Score(xs, ys, false, p, q) <= maxArea
        invariant maxArea == 0 || exists p, q :: 0 <= p < q < n && Score(xs, ys, false, p, q) == maxArea
      {
        for j := i + 1 to n
          invariant maxArea >= 0
          invariant forall p, q :: 0 <= p < q < n && (p < i || (p == i && q < j)) ==> Score(xs, ys, false, p, q) <= maxArea
          invariant maxArea == 0 || exists p, q :: 0 <= p < q < n && Score(xs, ys, false, p, q) == maxArea
        {
          var area := ComputeArea(i, j);
          if area > maxArea {
            assert Score(xs, ys, false, i, j) == area;
            maxArea := area;
          }
        }
      }
    }

    /** `largestValidRectangleArea`: builds a fresh polygon, then takes the
        largest valid area. */
    method LargestValidRectangleArea() returns (maxArea: int)
      requires Valid()
      modifies this
      ensures Valid() && polygon != null && fresh(polygon)
      ensures IsLargest(maxArea, xcoords[..], ycoords[..], true)
    {
      polygon := new RP.Polygon(xcoords, ycoords);
      maxArea := LargestValidIn(polygon, xcoords, ycoords);
    }

    /** The double loop of `largestValidRectangleArea`. */
    static method LargestValidIn(polygon: RP.Polygon, xs: array<int>, ys: array<int>) returns (maxArea: int)
      requires PolygonOf(polygon, xs, ys)
      modifies polygon
      ensures PolygonOf(polygon, xs, ys)
      ensures IsLargest(maxArea, xs[..], ys[..], true)
    {
      var n := xs.Length;
      maxArea := 0;
      for i := 0 to n
        invariant PolygonOf(polygon, xs, ys)
        invariant maxArea >= 0
        invariant forall p, q :: 0 <= p < q < n && p < i ==> Score(xs[..], ys[..], true, p, q) <= maxArea
        invariant maxArea == 0 || exists p, q :: 0 <= p < q < n && Score(xs[..], ys[..], true, p, q) == maxArea
      {
        for j := i + 1 to n
          invariant PolygonOf(polygon, xs, ys)
          invariant maxArea >= 0
          invariant forall p, q :: 0 <= p < q < n && (p < i || (p == i && q < j)) ==> Score(xs[..], ys[..], true, p, q) <= maxArea
          invariant maxArea == 0 || exists p, q :: 0 <= p < q < n && Score(xs[..], ys[..], true, p, q) == maxArea
        {
          var area := ValidAreaIn(polygon, xs, ys, i, j);
          if area > maxArea {
            assert Score(xs[..], ys[..], true, i, j) == area;
            maxArea := area;
          }
        }
      }
    }

    /** `computeValidArea`. */
    method ComputeValidArea(i: int, j: int) returns (area: int)
      requires Valid() && polygon != null && 0 <= i < xcoords.Length && 0 <= j < xcoords.Length
      modifies polygon
      ensures Valid()
      ensures area == ValidArea(xcoords[..], ycoords[..], i, j)
    {
      area := ValidAreaIn(polygon, xcoords, ycoords, i, j);
    }

    /** The body of `computeValidArea`: asks the polygon about the other
        two corners (the second only if the first is inside), then about
        the rectangle. */
    static method ValidAreaIn(polygon: RP.Polygon, xs: array<int>, ys: array<int>, i: int, j: int) returns (area: int)
      requires PolygonOf(polygon, xs, ys) && 0 <= i < xs.Length && 0 <= j < xs.Length
      modifies polygon
      ensures PolygonOf(polygon, xs, ys)
      ensures area == ValidArea(xs[..], ys[..], i, j)
    {
      var x1, y1, x2, y2 := xs[i], ys[i], xs[j], ys[j];
      if x1 == x2 || y1 == y2 {
        return 0;
      }
      var inside := polygon.ContainsPoint(x1, y2);
      if inside {
        inside := polygon.ContainsPoint(x2, y1);
      }
      if !inside {
        return 0;
      }
      var minX, maxX := Min(x1, x2), Max(x1, x2);
      var minY, maxY := Min(y1, y2), Max(y1, y2);
      var clear := polygon.ContainsRectangle(minX, maxX, minY, maxY);
      RP.RectangleVerdictMeaning(polygon.vertical, polygon.horizontal, minX, maxX, minY, maxY);
      if clear != Some(true) {
        return 0;
      }
      var width := Abs(x2 - x1) + 1;
      var height := Abs(y2 - y1) + 1;
      area := width * height;
    }

    /** `computeArea`. */
    method ComputeArea(i: int, j: int) returns (area: int)
      requires ycoords.Length == xcoords.Length && 0 <= i < xcoords.Length && 0 <= j < xcoords.Length
      ensures area == Area(xcoords[..], ycoords[..], i, j)
    {
      var width := Abs(xcoords[j] - xcoords[i]) + 1;
      var height := Abs(ycoords[j] - ycoords[i]) + 1;
      area := width * height;
    }

    /** `testContainsPoint`: builds the polygon on first use. */
    method TestContainsPoint(x: int, y: int) returns (b: bool)
      requires Valid()
      modifies this, polygon
      ensures Valid() && polygon != null
      ensures b == RP.Inside(RP.Edges(xcoords[..], ycoords[..], xcoords.Length, true),
                             RP.Edges(xcoords[..], ycoords[..], xcoords.Length, false), x, y)
    {
      if polygon == null {
        polygon := new RP.Polygon(xcoords, ycoords);
      }
      b := polygon.ContainsPoint(x, y);
    }
  }
}
