/** day12 PlacementSolver: decides whether the presents a region lists can
    go under its tree, by area and by the smaller side of each shape. */
module PlacementSolver {
  import opened Optional
  import Shape
  import Region

  /** The sizes of some shapes, index for index. */
  function SizesOf(shapes: seq<Shape.Shape>): (r: seq<int>)
    ensures |r| == |shapes| && forall i :: 0 <= i < |shapes| ==> r[i] == shapes[i].size
  {
    seq(|shapes|, i requires 0 <= i < |shapes| => shapes[i].size)
  }

  /** The smaller sides of some shapes, index for index. */
  function MinDimensionsOf(shapes: seq<Shape.Shape>): (r: seq<int>)
    ensures |r| == |shapes| && forall i :: 0 <= i < |shapes| ==> r[i] == shapes[i].minDimension
  {
    seq(|shapes|, i requires 0 <= i < |shapes| => shapes[i].minDimension)
  }

  /** Every present a region asks for is one of n known shapes; a positive
      count past the last shape would index past the end of the shape
      arrays. */
  predicate Known(n: int, counts: seq<int>)
  {
    KnownUpTo(n, counts, |counts|)
  }

  /** The first m entries of counts ask only for known shapes. */
  predicate KnownUpTo(n: int, counts: seq<int>, m: nat)
    requires m <= |counts|
  {
    forall i :: 0 <= i < m && counts[i] > 0 ==> i < n
  }

  /** The cells the presents with positive counts among the first n
      entries of counts cover together. */
  function Needed(sizes: seq<int>, counts: seq<int>, n: nat): int
    requires n <= |counts| && KnownUpTo(|sizes|, counts, n)
  {
    if n == 0 then 0
    else Needed(sizes, counts, n - 1) + (if counts[n - 1] > 0 then counts[n - 1] * sizes[n - 1] else 0)
  }

  /** The presents of a region fit: no shape it asks for is wider in its
      smaller side than the region, and together they cover no more cells
      than the region has. */
  predicate Fits(sizes: seq<int>, minDims: seq<int>, region: Region.Region)
    requires |minDims| == |sizes| && Known(|sizes|, region.presentCounts)
  {
    var counts := region.presentCounts;
    (forall i :: 0 <= i < |counts| && counts[i] > 0 ==> minDims[i] <= region.MinDimension()) &&
    Needed(sizes, counts, |counts|) <= region.Area()
  }

  /** Entry i stops `canFit` early: a positive count that is past the last
      shape (the index fails) or whose shape is wider in its smaller side
      than the region. */
  predicate Blocks(minDims: seq<int>, counts: seq<int>, minDim: int, i: nat)
    requires i < |counts|
  {
    counts[i] > 0 && (i >= |minDims| || minDims[i] > minDim)
  }

  /** The first entry from i on that stops `canFit` early, |counts| if none
      does. */
  function FirstBlocked(minDims: seq<int>, counts: seq<int>, minDim: int, i: nat): (r: nat)
    requires i <= |counts|
    decreases |counts| - i
    ensures i <= r <= |counts|
    ensures forall k :: i <= k < r && counts[k] > 0 ==> k < |minDims| && minDims[k] <= minDim
    ensures r < |counts| ==> Blocks(minDims, counts, minDim, r)
  {
    if i == |counts| || Blocks(minDims, counts, minDim, i) then i
    else FirstBlocked(minDims, counts, minDim, i + 1)
  }

  /** What `canFit` answers: None where it indexes past the shapes (the
      first entry that stops it is an unknown shape), false where a shape
      is too wide, and otherwise whether the presents' cells fit in the
      area. */
  function Verdict(sizes: seq<int>, minDims: seq<int>, region: Region.Region): Option<bool>
    requires |minDims| == |sizes|
  {
    var counts := region.presentCounts;
    var j := FirstBlocked(minDims, counts, region.MinDimension(), 0);
    if j < |counts| then (if j >= |sizes| then None else Some(false))
    else Some(Needed(sizes, counts, |counts|) <= region.Area())
  }

  /** When every present is a known shape, `canFit` answers whether the
      region fits; it throws only on a positive count for an unknown shape
      that no too-wide shape before it cuts short. */
  lemma VerdictFits(sizes: seq<int>, minDims: seq<int>, region: Region.Region)
    requires |minDims| == |sizes|
    ensures Known(|sizes|, region.presentCounts) ==> Verdict(sizes, minDims, region) == Some(Fits(sizes, minDims, region))
    ensures Verdict(sizes, minDims, region).None? <==>
      exists j :: 0 <= j < |region.presentCounts| && region.presentCounts[j] > 0 && j >= |sizes| &&
        forall k :: 0 <= k < j ==> !Blocks(minDims, region.presentCounts, region.MinDimension(), k)
  {
    var counts, minDim := region.presentCounts, region.MinDimension();
    var j := FirstBlocked(minDims, counts, minDim, 0);
    if j < |counts| && j < |sizes| {
      assert counts[j] > 0 && minDims[j] > minDim;
    }
    if exists j' :: 0 <= j' < |counts| && counts[j'] > 0 && j' >= |sizes| &&
        forall k :: 0 <= k < j' ==> !Blocks(minDims, counts, minDim, k) {
      var j' :| 0 <= j' < |counts| && counts[j'] > 0 && j' >= |sizes| &&
        forall k :: 0 <= k < j' ==> !Blocks(minDims, counts, minDim, k);
      assert Blocks(minDims, counts, minDim, j');
    }
  }

  /** Shapes a region does not ask for do not count towards the cells it
      needs. */
  lemma {:induction false} NeededIgnoresAbsent(sizes: seq<int>, counts: seq<int>, n: nat, k: nat, s: int)
    requires n <= |counts| && Known(|sizes|, counts) && k < |sizes| && (k >= |counts| || counts[k] <= 0)
    ensures Needed(sizes[k := s], counts, n) == Needed(sizes, counts, n)
  {
    if n > 0 {
      NeededIgnoresAbsent(sizes, counts, n - 1, k, s);
    }
  }

  /** The size and smaller side of a shape whose count is not positive have
      no effect on whether a region fits. */
  lemma FitsIgnoresAbsent(sizes: seq<int>, minDims: seq<int>, region: Region.Region, k: nat, s: int, m: int)
    requires |minDims| == |sizes| && Known(|sizes|, region.presentCounts) && k < |sizes|
    requires k >= |region.presentCounts| || region.presentCounts[k] <= 0
    ensures Fits(sizes[k := s], minDims[k := m], region) == Fits(sizes, minDims, region)
  {
    NeededIgnoresAbsent(sizes, region.presentCounts, |region.presentCounts|, k, s);
  }

  /** With no positive count nothing is needed. */
  lemma {:induction false} NeededNothing(sizes: seq<int>, counts: seq<int>, n: nat)
    requires n <= |counts| && Known(|sizes|, counts)
    requires forall i :: 0 <= i < |counts| ==> counts[i] <= 0
    ensures Needed(sizes, counts, n) == 0
  {
    if n > 0 {
      NeededNothing(sizes, counts, n - 1);
    }
  }

  /** A region that asks for no present fits, however small it is. */
  lemma NothingFits(sizes: seq<int>, minDims: seq<int>, region: Region.Region)
    requires |minDims| == |sizes| && region.Area() >= 0
    requires forall i :: 0 <= i < |region.presentCounts| ==> region.presentCounts[i] <= 0
    ensures Known(|sizes|, region.presentCounts) && Fits(sizes, minDims, region)
  {
    NeededNothing(sizes, region.presentCounts, |region.presentCounts|);
  }

  /** Asking for fewer presents of shapes with no negative size needs no
      more cells. */
  lemma {:induction false} NeededMonotone(sizes: seq<int>, fewer: seq<int>, counts: seq<int>, n: nat)
    requires |fewer| == |counts| && n <= |counts| && Known(|sizes|, counts)
    requires forall i :: 0 <= i < |sizes| ==> sizes[i] >= 0
    requires forall i :: 0 <= i < |counts| ==> fewer[i] <= counts[i]
    ensures Known(|sizes|, fewer) && Needed(sizes, fewer, n) <= Needed(sizes, counts, n)
  {
    if n > 0 {
      NeededMonotone(sizes, fewer, counts, n - 1);
      var f, c := fewer[n - 1], counts[n - 1];
      if f > 0 {
        assert f * sizes[n - 1] <= c * sizes[n - 1] by {
          assert (c - f) * sizes[n - 1] >= 0;
        }
      }
    }
  }

  /** A region that fits its presents still fits when it asks for fewer. */
  lemma FitsFewer(sizes: seq<int>, minDims: seq<int>, region: Region.Region, fewer: seq<int>)
    requires |minDims| == |sizes| && Known(|sizes|, region.presentCounts)
    requires forall i :: 0 <= i < |sizes| ==> sizes[i] >= 0
    requires |fewer| == |region.presentCounts|
    requires forall i :: 0 <= i < |fewer| ==> fewer[i] <= region.presentCounts[i]
    requires Fits(sizes, minDims, region)
    ensures Known(|sizes|, fewer) && Fits(sizes, minDims, region.(presentCounts := fewer))
  {
    NeededMonotone(sizes, fewer, region.presentCounts, |fewer|);
  }

  /** A region that fits its presents still fits them when it is made
      wider or taller. */
  lemma FitsLarger(sizes: seq<int>, minDims: seq<int>, region: Region.Region, width: int, height: int)
    requires |minDims| == |sizes| && Known(|sizes|, region.presentCounts)
    requires 0 <= region.width <= width && 0 <= region.height <= height
    requires Fits(sizes, minDims, region)
    ensures Fits(sizes, minDims, region.(width := width, height := height))
  {
    AreaGrows(region.width, region.height, width, height);
  }

  /** A wider or taller rectangle has no smaller area. */
  lemma AreaGrows(w: int, h: int, width: int, height: int)
    requires 0 <= w <= width && 0 <= h <= height
    ensures w * h <= width * h <= width * height
  {
    assert (width - w) * h >= 0;
    assert width * (height - h) >= 0;
  }

  class PlacementSolver {
    const shapeSizes: array<int>
    const shapeMinDimensions: array<int>

    /** The constructor: one size and one smaller side per shape. */
    constructor (shapes: seq<Shape.Shape>)
      ensures shapeSizes[..] == SizesOf(shapes) && shapeMinDimensions[..] == MinDimensionsOf(shapes)
      ensures fresh(shapeSizes) && fresh(shapeMinDimensions)
    {
      var sizes := new int[|shapes|];
      var minDims := new int[|shapes|];
      for i := 0 to |shapes|
        invariant forall j :: 0 <= j < i ==> sizes[j] == shapes[j].size && minDims[j] == shapes[j].minDimension
      {
        sizes[i] := shapes[i].size;
        minDims[i] := shapes[i].minDimension;
      }
      shapeSizes := sizes;
      shapeMinDimensions := minDims;
    }

    /** `canFit`: adds up the cells of the presents with positive counts,
        answering false as soon as one of them is too wide, then compares
        the total with the region's area; a positive count past the last
        shape fails the array access (None). */
    method CanFit(region: Region.Region) returns (b: Option<bool>)
      requires shapeMinDimensions.Length == shapeSizes.Length
      ensures b == Verdict(shapeSizes[..], shapeMinDimensions[..], region)
    {
      var counts := region.presentCounts;
      var regionArea := region.Area();
      var regionMinDim := region.MinDimension();
      ghost var minDims := shapeMinDimensions[..];
      var requiredArea := 0;
      for i := 0 to |counts|
        invariant KnownUpTo(shapeSizes.Length, counts, i)
        invariant requiredArea == Needed(shapeSizes[..], counts, i)
        invariant FirstBlocked(minDims, counts, regionMinDim, 0) == FirstBlocked(minDims, counts, regionMinDim, i)
      {
        var count := counts[i];
        if count > 0 {
          if i >= shapeSizes.Length {
            return None;
          }
          requiredArea := requiredArea + count * shapeSizes[i];
          if shapeMinDimensions[i] > regionMinDim {
            return Some(false);
          }
        }
      }
      return Some(requiredArea <= regionArea);
    }
  }

  /** Two presents of 7 cells and smaller side 3 fit in 4x4 but not in
      3x4. */
  lemma AreaExample()
    ensures Fits([7], [3], Region.Region(4, 4, [2]))
    ensures !Fits([7], [3], Region.Region(3, 4, [2]))
  {
    assert Needed([7], [2], 1) == 14;
  }

  /** A present of smaller side 3 fits in 3x10 but not in 2x20. */
  lemma DimensionExample()
    ensures Fits([7], [3], Region.Region(3, 10, [1]))
    ensures !Fits([7], [3], Region.Region(2, 20, [1]))
  {
  }

  /** A 1x1 region that asks for nothing fits. */
  lemma ZeroExample()
    ensures Fits([7], [3], Region.Region(1, 1, [0]))
  {
  }

  /** One 7-cell and two 5-cell presents need 17 cells: they fit in 5x5
      but not in 4x4. */
  lemma MultipleExample()
    ensures Fits([7, 5], [3, 2], Region.Region(5, 5, [1, 2]))
    ensures !Fits([7, 5], [3, 2], Region.Region(4, 4, [1, 2]))
  {
    assert Needed([7, 5], [1, 2], 2) == 17;
  }

  /** One 7-cell present of smaller side 3 and a request for a second,
      unknown shape: a 2x2 region answers false before the unknown entry
      is reached, a 5x5 region reaches it and fails. */
  lemma UnknownShapeExample()
    ensures Verdict([7], [3], Region.Region(2, 2, [1, 1])) == Some(false)
    ensures Verdict([7], [3], Region.Region(5, 5, [1, 1])) == None
  {
    assert Blocks([3], [1, 1], 2, 0);
    assert !Blocks([3], [1, 1], 5, 0) && Blocks([3], [1, 1], 5, 1);
  }
}
