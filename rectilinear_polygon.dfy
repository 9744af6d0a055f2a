/** day09 RectilinearPolygon: the closed loop through the red tiles, each
    step horizontal or vertical. A point is inside when it lies on an edge
    or when a ray to its right crosses an odd number of vertical edges; a
    rectangle is inside when no edge passes through its interior. The
    edges are kept as two sequences, vertical and horizontal. */
module RectilinearPolygon {
  import opened Optional

  /** A closed interval with min <= max. */
  datatype Range = Range(min: int, max: int)

  /** `Range.of`: the interval between two ends given in either order. */
  function RangeOf(a: int, b: int): (r: Range)
    ensures r.min <= r.max
    ensures (r.min == a && r.max == b) || (r.min == b && r.max == a)
  {
    Range(if a < b then a else b, if a < b then b else a)
  }

  /** `Range.contains`: inclusive at both ends. */
  predicate Contains(r: Range, v: int)
  {
    r.min <= v <= r.max
  }

  /** `Range.overlaps`: the open intervals (min, max) and (lo, hi) meet. */
  predicate Overlaps(r: Range, lo: int, hi: int)
  {
    r.min < hi && r.max > lo
  }

  /** A normalised range holds exactly the values between its two ends. */
  lemma RangeOfContains(a: int, b: int, v: int)
    ensures Contains(RangeOf(a, b), v) <==> (a <= v <= b || b <= v <= a)
  {
  }

  /** An edge: the coordinate its two ends share, and the range of the
      other coordinate. */
  datatype Edge = Edge(at: int, span: Range)

  predicate IsVertical(xs: seq<int>, ys: seq<int>, i: int)
    requires |ys| == |xs| && 0 <= i < |xs|
  {
    xs[i] == xs[(i + 1) % |xs|]
  }

  /** The edge from vertex i to the next one, the last closing the loop:
      vertical when the x values agree, horizontal otherwise. */
  function EdgeFrom(xs: seq<int>, ys: seq<int>, i: int): Edge
    requires |ys| == |xs| && 0 <= i < |xs|
  {
    var next := (i + 1) % |xs|;
    if IsVertical(xs, ys, i) then Edge(xs[i], RangeOf(ys[i], ys[next]))
    else Edge(ys[i], RangeOf(xs[i], xs[next]))
  }

  /** The vertical (or horizontal) edges from the first k vertices, in
      the order the constructor adds them. */
  function Edges(xs: seq<int>, ys: seq<int>, k: int, vertical: bool): seq<Edge>
    requires |ys| == |xs| && 0 <= k <= |xs|
  {
    if k == 0 then []
    else if IsVertical(xs, ys, k - 1) == vertical then Edges(xs, ys, k - 1, vertical) + [EdgeFrom(xs, ys, k - 1)]
    else Edges(xs, ys, k - 1, vertical)
  }

  /** Every edge of the loop is stored, with the right orientation. */
  lemma {:induction false} EdgesComplete(xs: seq<int>, ys: seq<int>, k: int, i: int)
    requires |ys| == |xs| && 0 <= i < k <= |xs|
    ensures EdgeFrom(xs, ys, i) in Edges(xs, ys, k, IsVertical(xs, ys, i))
  {
    if i < k - 1 {
      EdgesComplete(xs, ys, k - 1, i);
    }
  }

  /** Nothing else is stored. */
  lemma {:induction false} EdgesSound(xs: seq<int>, ys: seq<int>, k: int, vertical: bool, e: Edge)
    requires |ys| == |xs| && 0 <= k <= |xs| && e in Edges(xs, ys, k, vertical)
    ensures exists i :: 0 <= i < k && IsVertical(xs, ys, i) == vertical && EdgeFrom(xs, ys, i) == e
  {
    if e !in Edges(xs, ys, k - 1, vertical) {
      assert EdgeFrom(xs, ys, k - 1) == e;
    } else {
      EdgesSound(xs, ys, k - 1, vertical, e);
    }
  }

  /** Some edge on the line `at` covers `value`. */
  predicate Covers(edges: seq<Edge>, at: int, value: int)
  {
    exists k :: 0 <= k < |edges| && edges[k].at == at && Contains(edges[k].span, value)
  }

  /** `isOnEdge`. */
  predicate OnEdge(vertical: seq<Edge>, horizontal: seq<Edge>, x: int, y: int)
  {
    Covers(horizontal, y, x) || Covers(vertical, x, y)
  }

  /** Does the ray from (x, y) to the right cross this vertical edge? The
      span is half-open, (min, max], so a ray through a vertex is counted
      once. */
  predicate CrossesRay(e: Edge, x: int, y: int)
  {
    e.at > x && y > e.span.min && y <= e.span.max
  }

  /** The number of vertical edges the ray crosses. */
  function Crossings(vertical: seq<Edge>, x: int, y: int): nat
  {
    if vertical == [] then 0
    else Crossings(vertical[..|vertical| - 1], x, y) + (if CrossesRay(vertical[|vertical| - 1], x, y) then 1 else 0)
  }

  /** `computeContainsPoint`: on an edge, or an odd number of crossings. */
  predicate Inside(vertical: seq<Edge>, horizontal: seq<Edge>, x: int, y: int)
  {
    OnEdge(vertical, horizontal, x, y) || Crossings(vertical, x, y) % 2 == 1
  }

  /** No edge strictly between keyMin and keyMax overlaps (lo, hi). */
  predicate ClearOf(edges: seq<Edge>, keyMin: int, keyMax: int, lo: int, hi: int)
  {
    forall k :: 0 <= k < |edges| && keyMin < edges[k].at < keyMax ==> !Overlaps(edges[k].span, lo, hi)
  }

  /** `subMap(keyMin, false, keyMax, false)` followed by the scan of
      `hasEdgeCrossingInterior`: the IllegalArgumentException of reversed
      keys (None), else whether no edge strictly between the keys
      overlaps the open span. */
  function ClearBetween(edges: seq<Edge>, keyMin: int, keyMax: int, lo: int, hi: int): Option<bool>
  {
    if keyMin > keyMax then None else Some(ClearOf(edges, keyMin, keyMax, lo, hi))
  }

  /** `containsRectangle` with Java's `&&`: the horizontal edges are
      asked about only when the vertical ones leave the rectangle clear,
      so reversed y bounds throw only then. */
  function RectangleVerdict(vertical: seq<Edge>, horizontal: seq<Edge>, minX: int, maxX: int, minY: int, maxY: int): Option<bool>
  {
    match ClearBetween(vertical, minX, maxX, minY, maxY)
    case None => None
    case Some(clear) => if clear then ClearBetween(horizontal, minY, maxY, minX, maxX) else Some(false)
  }

  /** The rectangle check fails only on reversed bounds: reversed x
      bounds always, reversed y bounds when no vertical edge crosses the
      interior. With ordered bounds it answers `RectangleInside`. */
  lemma RectangleVerdictMeaning(vertical: seq<Edge>, horizontal: seq<Edge>, minX: int, maxX: int, minY: int, maxY: int)
    ensures RectangleVerdict(vertical, horizontal, minX, maxX, minY, maxY).None? <==>
      minX > maxX || (ClearOf(vertical, minX, maxX, minY, maxY) && minY > maxY)
    ensures minX <= maxX && minY <= maxY ==>
      RectangleVerdict(vertical, horizontal, minX, maxX, minY, maxY) == Some(RectangleInside(vertical, horizontal, minX, maxX, minY, maxY))
  {
  }

  /** Reversed x bounds throw; reversed y bounds throw when no vertical
      edge lies between the x bounds and answer false when one crosses
      the rectangle. */
  lemma ReversedBoundsExample()
    ensures RectangleVerdict([], [], 5, 1, 0, 9) == None
    ensures RectangleVerdict([], [], 0, 9, 5, 1) == None
    ensures RectangleVerdict([Edge(3, Range(0, 10))], [], 0, 9, 5, 1) == Some(false)
  {
    var crossing := [Edge(3, Range(0, 10))];
    assert crossing[0].at == 3 && Overlaps(crossing[0].span, 5, 1);
  }

  /** `containsRectangle`. */
  predicate RectangleInside(vertical: seq<Edge>, horizontal: seq<Edge>, minX: int, maxX: int, minY: int, maxY: int)
  {
    ClearOf(vertical, minX, maxX, minY, maxY) && ClearOf(horizontal, minY, maxY, minX, maxX)
  }

  /** Every point of an axis-parallel edge of the loop is inside, the
      vertices included. */
  lemma EdgePointInside(xs: seq<int>, ys: seq<int>, i: int, x: int, y: int)
    requires |ys| == |xs| && 0 <= i < |xs|
    requires var next := (i + 1) % |xs|;
      (xs[i] == xs[next] || ys[i] == ys[next]) &&
      (xs[i] <= x <= xs[next] || xs[next] <= x <= xs[i]) &&
      (ys[i] <= y <= ys[next] || ys[next] <= y <= ys[i])
    ensures Inside(Edges(xs, ys, |xs|, true), Edges(xs, ys, |xs|, false), x, y)
  {
    var next := (i + 1) % |xs|;
    var vertical := IsVertical(xs, ys, i);
    var edges := Edges(xs, ys, |xs|, vertical);
    var e := EdgeFrom(xs, ys, i);
    EdgesComplete(xs, ys, |xs|, i);
    var k :| 0 <= k < |edges| && edges[k] == e;
    if vertical {
      assert e == Edge(xs[i], RangeOf(ys[i], ys[next])) && x == xs[i];
      RangeOfContains(ys[i], ys[next], y);
      assert edges[k].at == x && Contains(edges[k].span, y);
      assert Covers(edges, x, y);
    } else {
      assert e == Edge(ys[i], RangeOf(xs[i], xs[next])) && y == ys[i];
      RangeOfContains(xs[i], xs[next], x);
      assert edges[k].at == y && Contains(edges[k].span, x);
      assert Covers(edges, y, x);
    }
  }

  /** Every vertex is inside, whatever the shape of the loop: it starts
      the edge stored for it. */
  lemma VertexInside(xs: seq<int>, ys: seq<int>, i: int)
    requires |ys| == |xs| && 0 <= i < |xs|
    ensures Inside(Edges(xs, ys, |xs|, true), Edges(xs, ys, |xs|, false), xs[i], ys[i])
  {
    var next := (i + 1) % |xs|;
    var vertical := IsVertical(xs, ys, i);
    var edges := Edges(xs, ys, |xs|, vertical);
    EdgesComplete(xs, ys, |xs|, i);
    var k :| 0 <= k < |edges| && edges[k] == EdgeFrom(xs, ys, i);
    if vertical {
      RangeOfContains(ys[i], ys[next], ys[i]);
      assert Covers(edges, xs[i], ys[i]);
    } else {
      RangeOfContains(xs[i], xs[next], xs[i]);
      assert Covers(edges, ys[i], xs[i]);
    }
  }

  /** A ray that passes no vertical edge crosses nothing. */
  lemma {:induction false} NoCrossingsPastEdges(vertical: seq<Edge>, x: int, y: int)
    requires forall k :: 0 <= k < |vertical| ==> vertical[k].at <= x
    ensures Crossings(vertical, x, y) == 0
  {
    if vertical != [] {
      NoCrossingsPastEdges(vertical[..|vertical| - 1], x, y);
    }
  }

  /** A point right of every vertical edge and on no edge is outside. */
  lemma RightOfEverythingOutside(vertical: seq<Edge>, horizontal: seq<Edge>, x: int, y: int)
    requires forall k :: 0 <= k < |vertical| ==> vertical[k].at <= x
    requires !OnEdge(vertical, horizontal, x, y)
    ensures !Inside(vertical, horizontal, x, y)
  {
    NoCrossingsPastEdges(vertical, x, y);
  }

  /** The example loop of red tiles. */
  const ExampleXs: seq<int> := [7, 11, 11, 9, 9, 2, 2, 7]
  const ExampleYs: seq<int> := [1, 1, 7, 7, 5, 5, 3, 3]

  lemma ExampleEdges()
    ensures Edges(ExampleXs, ExampleYs, 8, true) ==
      [Edge(11, Range(1, 7)), Edge(9, Range(5, 7)), Edge(2, Range(3, 5)), Edge(7, Range(1, 3))]
    ensures Edges(ExampleXs, ExampleYs, 8, false) ==
      [Edge(1, Range(7, 11)), Edge(7, Range(9, 11)), Edge(5, Range(2, 9)), Edge(3, Range(2, 7))]
  {
    var xs, ys := ExampleXs, ExampleYs;
    assert Edges(xs, ys, 1, true) == [];
    assert Edges(xs, ys, 2, true) == [Edge(11, Range(1, 7))];
    assert Edges(xs, ys, 3, true) == [Edge(11, Range(1, 7))];
    assert Edges(xs, ys, 4, true) == [Edge(11, Range(1, 7)), Edge(9, Range(5, 7))];
    assert Edges(xs, ys, 5, true) == [Edge(11, Range(1, 7)), Edge(9, Range(5, 7))];
    assert Edges(xs, ys, 6, true) == [Edge(11, Range(1, 7)), Edge(9, Range(5, 7)), Edge(2, Range(3, 5))];
    assert Edges(xs, ys, 7, true) == [Edge(11, Range(1, 7)), Edge(9, Range(5, 7)), Edge(2, Range(3, 5))];
    assert Edges(xs, ys, 1, false) == [Edge(1, Range(7, 11))];
    assert Edges(xs, ys, 2, false) == [Edge(1, Range(7, 11))];
    assert Edges(xs, ys, 3, false) == [Edge(1, Range(7, 11)), Edge(7, Range(9, 11))];
    assert Edges(xs, ys, 4, false) == [Edge(1, Range(7, 11)), Edge(7, Range(9, 11))];
    assert Edges(xs, ys, 5, false) == [Edge(1, Range(7, 11)), Edge(7, Range(9, 11)), Edge(5, Range(2, 9))];
    assert Edges(xs, ys, 6, false) == [Edge(1, Range(7, 11)), Edge(7, Range(9, 11)), Edge(5, Range(2, 9))];
    assert Edges(xs, ys, 7, false) == [Edge(1, Range(7, 11)), Edge(7, Range(9, 11)), Edge(5, Range(2, 9)), Edge(3, Range(2, 7))];
  }

  /** The crossings of a ray with four vertical edges, one by one. */
  lemma CrossingsOfFour(v: seq<Edge>, x: int, y: int)
    requires |v| == 4
    ensures Crossings(v, x, y) ==
      (if CrossesRay(v[0], x, y) then 1 else 0) + (if CrossesRay(v[1], x, y) then 1 else 0) +
      (if CrossesRay(v[2], x, y) then 1 else 0) + (if CrossesRay(v[3], x, y) then 1 else 0)
  {
    var c := (e: Edge) => if CrossesRay(e, x, y) then 1 else 0;
    assert v[..1][..0] == [];
    assert Crossings(v[..1], x, y) == c(v[0]);
    assert v[..2][..1] == v[..1];
    assert Crossings(v[..2], x, y) == c(v[0]) + c(v[1]);
    assert v[..3][..2] == v[..2];
    assert Crossings(v[..3], x, y) == c(v[0]) + c(v[1]) + c(v[2]);
    assert v[..4][..3] == v[..3];
    assert v[..4] == v;
  }

  /** (9, 3) is inside, (1, 1) and (12, 4) are outside, and so is every
      tile of [2, 9] x [3, 5] inside. */
  lemma ExamplePoints()
    ensures var v, h := Edges(ExampleXs, ExampleYs, 8, true), Edges(ExampleXs, ExampleYs, 8, false);
      Inside(v, h, 9, 3) && !Inside(v, h, 1, 1) && !Inside(v, h, 12, 4) &&
      forall x, y :: 2 <= x <= 9 && 3 <= y <= 5 ==> Inside(v, h, x, y)
  {
    ExampleEdges();
    var v, h := Edges(ExampleXs, ExampleYs, 8, true), Edges(ExampleXs, ExampleYs, 8, false);
    CrossingsOfFour(v, 9, 3);
    CrossingsOfFour(v, 1, 1);
    RightOfEverythingOutside(v, h, 12, 4);
    forall x, y | 2 <= x <= 9 && 3 <= y <= 5
      ensures Inside(v, h, x, y)
    {
      if y == 3 && x <= 7 {
        assert h[3].at == y && Contains(h[3].span, x);
      } else {
        CrossingsOfFour(v, x, y);
      }
    }
  }

  /** The mutable object: the edge lists the constructor fills, and the
      cache `containsPoint` fills. */
  class Polygon {
    var vertical: seq<Edge>
    var horizontal: seq<Edge>
    var cache: map<(int, int), bool>

    /** Every cached answer is the computed one. */
    ghost predicate Valid()
      reads this
    {
      forall p :: p in cache ==> cache[p] == Inside(vertical, horizontal, p.0, p.1)
    }

    /** One edge per vertex, from each vertex to the next. */
    constructor (xs: array<int>, ys: array<int>)
      requires ys.Length == xs.Length
      ensures Valid() && cache == map[]
      ensures vertical == Edges(xs[..], ys[..], xs.Length, true)
      ensures horizontal == Edges(xs[..], ys[..], xs.Length, false)
    {
      vertical, horizontal, cache := [], [], map[];
      new;
      var n := xs.Length;
      for i := 0 to n
        invariant cache == map[]
        invariant vertical == Edges(xs[..], ys[..], i, true)
        invariant horizontal == Edges(xs[..], ys[..], i, false)
      {
        var next := (i + 1) % n;
        AddEdge(xs[i], ys[i], xs[next], ys[next]);
      }
    }

    /** `addEdge`. */
    method AddEdge(x1: int, y1: int, x2: int, y2: int)
      modifies this
      ensures cache == old(cache)
      ensures x1 == x2 ==> vertical == old(vertical) + [Edge(x1, RangeOf(y1, y2))] && horizontal == old(horizontal)
      ensures x1 != x2 ==> horizontal == old(horizontal) + [Edge(y1, RangeOf(x1, x2))] && vertical == old(vertical)
    {
      if x1 == x2 {
        vertical := vertical + [Edge(x1, RangeOf(y1, y2))];
      } else {
        horizontal := horizontal + [Edge(y1, RangeOf(x1, x2))];
      }
    }

    /** `containsPoint`: the cached answer, computed and stored on a miss. */
    method ContainsPoint(x: int, y: int) returns (b: bool)
      requires Valid()
      modifies this
      ensures Valid() && b == Inside(vertical, horizontal, x, y)
      ensures vertical == old(vertical) && horizontal == old(horizontal)
      ensures cache == old(cache)[(x, y) := b]
    {
      if (x, y) in cache {
        b := cache[(x, y)];
        assert cache == cache[(x, y) := b];
      } else {
        b := ComputeContainsPoint(x, y);
        cache := cache[(x, y) := b];
      }
    }

    /** `computeContainsPoint`. */
    method ComputeContainsPoint(x: int, y: int) returns (b: bool)
      ensures b == Inside(vertical, horizontal, x, y)
    {
      b := IsOnEdge(x, y);
      if !b {
        b := HasOddCrossingsToRight(x, y);
      }
    }

    /** `isOnEdge`. */
    method IsOnEdge(x: int, y: int) returns (b: bool)
      ensures b == OnEdge(vertical, horizontal, x, y)
    {
      b := PointInRangeList(horizontal, y, x);
      if !b {
        b := PointInRangeList(vertical, x, y);
      }
    }

    /** `pointInRangeList`, over the edges on the line `at`. */
    static method PointInRangeList(edges: seq<Edge>, at: int, value: int) returns (b: bool)
      ensures b == Covers(edges, at, value)
    {
      for k := 0 to |edges|
        invariant forall m :: 0 <= m < k ==> !(edges[m].at == at && Contains(edges[m].span, value))
      {
        if edges[k].at == at && Contains(edges[k].span, value) {
          return true;
        }
      }
      return false;
    }

    /** `hasOddCrossingsToRight`: counts the crossed vertical edges right
        of x. */
    method HasOddCrossingsToRight(x: int, y: int) returns (b: bool)
      ensures b == (Crossings(vertical, x, y) % 2 == 1)
    {
      var crossings := 0;
      for k := 0 to |vertical|
        invariant crossings == Crossings(vertical[..k], x, y)
      {
        assert vertical[..k + 1][..k] == vertical[..k];
        var edge := vertical[k];
        if edge.at > x && y > edge.span.min && y <= edge.span.max {
          crossings := crossings + 1;
        }
      }
      assert vertical[..|vertical|] == vertical;
      b := crossings % 2 == 1;
    }

    /** `containsRectangle`: the vertical edges first, then, only if they
        leave the rectangle clear, the horizontal ones. */
    method ContainsRectangle(minX: int, maxX: int, minY: int, maxY: int) returns (b: Option<bool>)
      ensures b == RectangleVerdict(vertical, horizontal, minX, maxX, minY, maxY)
    {
      b := HasEdgeCrossingInterior(vertical, minX, maxX, minY, maxY);
      if b == Some(true) {
        b := HasEdgeCrossingInterior(horizontal, minY, maxY, minX, maxX);
      }
    }

    /** `hasEdgeCrossingInterior`: None when `subMap` rejects reversed
        keys; otherwise true when NO edge strictly between the keys
        overlaps the range. */
    static method HasEdgeCrossingInterior(edges: seq<Edge>, keyMin: int, keyMax: int, rangeMin: int, rangeMax: int)
      returns (b: Option<bool>)
      ensures b.None? <==> keyMin > keyMax
      ensures b.Some? ==> (b.value <==> ClearOf(edges, keyMin, keyMax, rangeMin, rangeMax))
    {
      if keyMin > keyMax {
        return None;
      }
      for k := 0 to |edges|
        invariant ClearOf(edges[..k], keyMin, keyMax, rangeMin, rangeMax)
      {
        var edge := edges[k];
        if keyMin < edge.at < keyMax && Overlaps(edge.span, rangeMin, rangeMax) {
          return Some(false);
        }
        assert forall m :: 0 <= m < k + 1 ==> edges[..k + 1][m] == edges[m];
      }
      assert edges[..|edges|] == edges;
      return Some(true);
    }
  }
}
