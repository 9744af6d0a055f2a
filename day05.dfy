/** day05: inclusive ranges of fresh ingredient ids. Part one counts the
    available ids that fall in some range; part two sorts the ranges by
    start, merges the ones that overlap or touch, and adds up the merged
    sizes. */
module FreshRanges {
  import opened Optional
  import JavaText

  /** `FreshRange(start, end)`, both ends inclusive. Nothing forces
      start <= end: a reversed range holds no id and has size <= 0. */
  datatype FreshRange = FreshRange(start: int, end: int)
  {
    /** `contains`. */
    predicate Contains(id: int)
    {
      start <= id && id <= end
    }

    /** The ids the range holds. */
    ghost function Ids(): (s: set<int>)
      ensures forall id :: id in s <==> start <= id <= end
    {
      set id | start <= id <= end && Contains(id)
    }

    /** `overlapsOrAdjacent`: only compares the other start with this end,
        so it is meaningful when the other range does not start earlier. */
    predicate OverlapsOrAdjacent(other: FreshRange)
    {
      other.start <= end + 1
    }

    /** `mergeWith`: keeps this start, takes the larger end. */
    function MergeWith(other: FreshRange): (m: FreshRange)
      ensures m.start == start
      ensures m.end >= end && m.end >= other.end
      ensures m.end == end || m.end == other.end
    {
      FreshRange(start, if end >= other.end then end else other.end)
    }

    /** `size`: end - start + 1. */
    function Size(): int
    {
      end - start + 1
    }

    /** `parse`: split at '-' and read the first two pieces as longs; a
        missing piece or a piece that is not a number is None. */
    static function Parse(line: string): (r: Option<FreshRange>)
      ensures r.Some? ==> |JavaText.Split(line, "-")| >= 2
    {
      var parts := JavaText.Split(line, "-");
      if |parts| < 2 then None
      else match (JavaText.ParseLong(parts[0]), JavaText.ParseLong(parts[1]))
        case (Some(a), Some(b)) => Some(FreshRange(a, b))
        case _ => None
    }
  }

  /** The ids lo..hi form a set of hi - lo + 1 elements. */
  lemma {:induction false} IntervalCard(lo: int, hi: int)
    requires lo <= hi + 1
    ensures |FreshRange(lo, hi).Ids()| == hi - lo + 1
    decreases hi - lo
  {
    if lo <= hi {
      IntervalCard(lo, hi - 1);
      assert FreshRange(lo, hi).Ids() == FreshRange(lo, hi - 1).Ids() + {hi};
    } else {
      assert FreshRange(lo, hi).Ids() == {};
    }
  }

  /** `size` counts the ids of a range that is not reversed; (5, 5) has size 1. */
  lemma SizeCountsIds(r: FreshRange)
    requires r.start <= r.end + 1
    ensures r.Size() == |r.Ids()|
    ensures r.start == r.end ==> r.Size() == 1
  {
    IntervalCard(r.start, r.end);
  }

  /** When the other range starts no earlier and overlaps or touches this
      one, the merged range holds exactly the ids of both. */
  lemma MergeIsUnion(r: FreshRange, other: FreshRange)
    requires r.start <= other.start && r.OverlapsOrAdjacent(other)
    ensures r.MergeWith(other).Ids() == r.Ids() + other.Ids()
  {
    var m := r.MergeWith(other);
    forall id | id in m.Ids()
      ensures id in r.Ids() || id in other.Ids()
    {
      assert m.Contains(id);
      if id > r.end {
        assert other.Contains(id);
      } else {
        assert r.Contains(id);
      }
    }
    forall id | id in other.Ids()
      ensures id in m.Ids()
    {
      assert other.Contains(id) && m.Contains(id);
    }
    forall id | id in r.Ids()
      ensures id in m.Ids()
    {
      assert r.Contains(id) && m.Contains(id);
    }
  }

  /** The check needs the order: (5, 6) "overlaps" (1, 2), yet merging
      them keeps only 5..6. */
  lemma MergeNeedsOrder()
    ensures FreshRange(5, 6).OverlapsOrAdjacent(FreshRange(1, 2))
    ensures 1 !in FreshRange(5, 6).MergeWith(FreshRange(1, 2)).Ids()
  {
  }

  /** `parse` reads back "a-b" written in decimal; "10-14" is (10, 14). */
  lemma ParseRoundTrip(a: nat, b: nat)
    requires a <= JavaText.LongMax && b <= JavaText.LongMax
    ensures FreshRange.Parse(JavaText.ToDecimal(a) + "-" + JavaText.ToDecimal(b)) == Some(FreshRange(a, b))
  {
    var sa, sb := JavaText.ToDecimal(a), JavaText.ToDecimal(b);
    JavaText.AvoidsDigits(sa, "-");
    JavaText.AvoidsDigits(sb, "-");
    JavaText.SplitTwo(sa, "-", sb);
    JavaText.ParseLongToDecimal(a);
    JavaText.ParseLongToDecimal(b);
  }

  lemma ParseExample()
    ensures FreshRange.Parse("10-14") == Some(FreshRange(10, 14))
  {
    assert JavaText.ToDecimal(1) == "1";
    assert JavaText.ToDecimal(10) == "10";
    assert JavaText.ToDecimal(14) == "14";
    ParseRoundTrip(10, 14);
    assert "10" + "-" + "14" == "10-14";
  }
}

/** day05 IngredientDatabase: the ranges and the available ids. */
module IngredientDatabase {
  import opened Optional
  import JavaText
  import opened FreshRanges

  /** The record; its constructor stores copies, which for values is the
      identity. */
  datatype IngredientDatabase = IngredientDatabase(freshRanges: seq<FreshRange>, availableIngredients: seq<int>)

  /** `isFresh`: some range contains the id. */
  predicate AnyContains(ranges: seq<FreshRange>, id: int)
    ensures AnyContains(ranges, id) <==> exists i :: 0 <= i < |ranges| && ranges[i].Contains(id)
  {
    if ranges == [] then false
    else ranges[0].Contains(id) || AnyContains(ranges[1..], id)
  }

  /** Stream filter and count over the available ids (counted from the
      back; the count does not depend on the order). */
  function CountFresh(ranges: seq<FreshRange>, ids: seq<int>): (n: nat)
    ensures n <= |ids|
  {
    if ids == [] then 0
    else CountFresh(ranges, ids[..|ids| - 1]) + (if AnyContains(ranges, ids[|ids| - 1]) then 1 else 0)
  }

  /** `countFreshIngredients`. */
  function CountFreshIngredients(db: IngredientDatabase): nat
  {
    CountFresh(db.freshRanges, db.availableIngredients)
  }

  /** The positions of the available list that hold a fresh id. */
  ghost function FreshPositions(ranges: seq<FreshRange>, ids: seq<int>): set<int>
  {
    set i | 0 <= i < |ids| && AnyContains(ranges, ids[i])
  }

  /** The count is taken with multiplicity: it is the number of positions
      of the available list whose id lies in some range. */
  lemma {:induction false} CountFreshIsPositions(ranges: seq<FreshRange>, ids: seq<int>)
    ensures CountFresh(ranges, ids) == |FreshPositions(ranges, ids)|
  {
    if ids != [] {
      var n := |ids| - 1;
      var init := ids[..n];
      CountFreshIsPositions(ranges, init);
      assert FreshPositions(ranges, ids)
        == FreshPositions(ranges, init) + (if AnyContains(ranges, ids[n]) then {n} else {}) by {
        forall i | 0 <= i < n
          ensures init[i] == ids[i]
        {
        }
      }
    }
  }

  /** An empty database counts nothing, in either part. */
  lemma EmptyDatabase()
    ensures CountFreshIngredients(IngredientDatabase([], [])) == 0
    ensures TotalFreshIds(IngredientDatabase([], [])) == 0
  {
  }

  // ---------------------------------------------------------------------
  // Part two

  predicate SortedByStart(rs: seq<FreshRange>)
  {
    forall i, j :: 0 <= i < j < |rs| ==> rs[i].start <= rs[j].start
  }

  /** Inserts r before the first range that starts no earlier; the sort
      below inserts from the back, so ranges with equal starts keep their
      input order, as Java's stable sort does. */
  function Insert(r: FreshRange, rs: seq<FreshRange>): seq<FreshRange>
  {
    if rs == [] then [r]
    else if r.start <= rs[0].start then [r] + rs
    else [rs[0]] + Insert(r, rs[1..])
  }

  /** `sorted(comparingLong(FreshRange::start))`: a stable sort by start. */
  function SortByStart(rs: seq<FreshRange>): seq<FreshRange>
  {
    if rs == [] then [] else Insert(rs[0], SortByStart(rs[1..]))
  }

  lemma {:induction false} InsertPermutes(r: FreshRange, rs: seq<FreshRange>)
    ensures multiset(Insert(r, rs)) == multiset(rs) + multiset{r}
  {
    if rs != [] && r.start > rs[0].start {
      InsertPermutes(r, rs[1..]);
      assert rs == [rs[0]] + rs[1..];
    }
  }

  lemma {:induction false} InsertSorted(r: FreshRange, rs: seq<FreshRange>)
    requires SortedByStart(rs)
    ensures SortedByStart(Insert(r, rs))
  {
    if rs == [] {
    } else if r.start <= rs[0].start {
      SortedCons(r, rs);
    } else {
      var tail := Insert(r, rs[1..]);
      InsertSorted(r, rs[1..]);
      InsertPermutes(r, rs[1..]);
      forall k | 0 <= k < |tail|
        ensures rs[0].start <= tail[k].start
      {
        assert tail[k] in multiset(rs[1..]) + multiset{r};
        if tail[k] != r {
          assert tail[k] in rs[1..];
        }
      }
      SortedCons(rs[0], tail);
    }
  }

  lemma SortedCons(x: FreshRange, t: seq<FreshRange>)
    requires SortedByStart(t) && forall k :: 0 <= k < |t| ==> x.start <= t[k].start
    ensures SortedByStart([x] + t)
  {
  }

  /** The sort orders by start and only permutes. */
  lemma {:induction false} SortByStartSorts(rs: seq<FreshRange>)
    ensures SortedByStart(SortByStart(rs)) && multiset(SortByStart(rs)) == multiset(rs)
  {
    if rs != [] {
      SortByStartSorts(rs[1..]);
      InsertSorted(rs[0], SortByStart(rs[1..]));
      InsertPermutes(rs[0], SortByStart(rs[1..]));
      assert rs == [rs[0]] + rs[1..];
    }
  }

  /** The gatherer from the moment `current` holds a range: merge the next
      range into it when they overlap or touch, otherwise push it and
      continue from the next. The final push is the finisher. */
  function MergeFrom(current: FreshRange, rest: seq<FreshRange>): (out: seq<FreshRange>)
    ensures |out| >= 1 && out[0].start == current.start
    decreases |rest|
  {
    if rest == [] then [current]
    else if current.OverlapsOrAdjacent(rest[0]) then MergeFrom(current.MergeWith(rest[0]), rest[1..])
    else [current] + MergeFrom(rest[0], rest[1..])
  }

  /** `mergeOverlappingRanges`: the empty state pushes nothing. */
  function Merged(rs: seq<FreshRange>): seq<FreshRange>
  {
    if rs == [] then [] else MergeFrom(rs[0], rs[1..])
  }

  function SumSizes(rs: seq<FreshRange>): int
  {
    if rs == [] then 0 else rs[0].Size() + SumSizes(rs[1..])
  }

  /** `countTotalFreshIds`. */
  function TotalFreshIds(db: IngredientDatabase): int
  {
    SumSizes(Merged(SortByStart(db.freshRanges)))
  }

  /** The gatherer as the loop it is: the state holds the range being
      grown; each element merges into it or pushes it. */
  method MergeOverlappingRanges(sorted: seq<FreshRange>) returns (merged: seq<FreshRange>)
    ensures merged == Merged(sorted)
  {
    merged := [];
    var state: Option<FreshRange> := None;
    for k := 0 to |sorted|
      invariant k == 0 <==> state.None?
      invariant k == 0 ==> merged == []
      invariant k > 0 ==> merged + MergeFrom(state.value, sorted[k..]) == Merged(sorted)
    {
      var next := sorted[k];
      assert sorted[k..][0] == next && sorted[k..][1..] == sorted[k + 1..];
      match state {
        case None =>
          state := Some(next);
        case Some(current) =>
          assert MergeFrom(current, sorted[k..]) == if current.OverlapsOrAdjacent(next)
            then MergeFrom(current.MergeWith(next), sorted[k + 1..])
            else [current] + MergeFrom(next, sorted[k + 1..]);
          if current.OverlapsOrAdjacent(next) {
            state := Some(current.MergeWith(next));
          } else {
            merged := merged + [current];
            state := Some(next);
          }
      }
    }
    if state.Some? {
      assert sorted[|sorted|..] == [];
      merged := merged + [state.value];
    }
  }

  // ---------------------------------------------------------------------
  // What part two computes

  /** Every id held by some range of the list. */
  ghost function Covered(rs: seq<FreshRange>): set<int>
  {
    if rs == [] then {} else rs[0].Ids() + Covered(rs[1..])
  }

  lemma {:induction false} CoveredMembers(rs: seq<FreshRange>)
    ensures forall id :: id in Covered(rs) <==> exists r :: r in rs && r.Contains(id)
  {
    if rs != [] {
      CoveredMembers(rs[1..]);
      forall id | id in Covered(rs)
        ensures exists r :: r in rs && r.Contains(id)
      {
        if id in rs[0].Ids() {
          assert rs[0] in rs && rs[0].Contains(id);
        } else {
          assert id in Covered(rs[1..]);
          var r :| r in rs[1..] && r.Contains(id);
          assert r in rs;
        }
      }
      forall id | exists r :: r in rs && r.Contains(id)
        ensures id in Covered(rs)
      {
        var r :| r in rs && r.Contains(id);
        if r != rs[0] {
          assert r in rs[1..];
        }
      }
    }
  }

  /** Sorting does not change which ids are covered. */
  lemma CoveredPermutation(a: seq<FreshRange>, b: seq<FreshRange>)
    requires multiset(a) == multiset(b)
    ensures Covered(a) == Covered(b)
  {
    CoveredMembers(a);
    CoveredMembers(b);
    forall r
      ensures r in a <==> r in b
    {
      assert r in a <==> r in multiset(a);
      assert r in b <==> r in multiset(b);
    }
  }

  /** Consecutive outputs start in order and leave a gap of at least one
      uncovered id. */
  predicate Separated(out: seq<FreshRange>)
  {
    forall i :: 0 <= i < |out| - 1 ==> out[i].start <= out[i + 1].start && out[i].end + 1 < out[i + 1].start
  }

  predicate StartsFrom(lo: int, rs: seq<FreshRange>)
  {
    forall i :: 0 <= i < |rs| ==> lo <= rs[i].start
  }

  /** Merging sorted ranges covers the same ids and separates the outputs. */
  lemma {:induction false} MergeFromCorrect(current: FreshRange, rest: seq<FreshRange>)
    requires SortedByStart(rest) && StartsFrom(current.start, rest)
    ensures Covered(MergeFrom(current, rest)) == current.Ids() + Covered(rest)
    ensures Separated(MergeFrom(current, rest))
    decreases |rest|
  {
    if rest != [] {
      var next := rest[0];
      if current.OverlapsOrAdjacent(next) {
        var m := current.MergeWith(next);
        MergeIsUnion(current, next);
        MergeFromCorrect(m, rest[1..]);
      } else {
        MergeFromCorrect(next, rest[1..]);
        var tail := MergeFrom(next, rest[1..]);
        assert MergeFrom(current, rest) == [current] + tail;
        assert Covered([current] + tail) == current.Ids() + Covered(tail) by {
          assert ([current] + tail)[1..] == tail;
        }
      }
    }
  }

  lemma MergedCorrect(sorted: seq<FreshRange>)
    requires SortedByStart(sorted)
    ensures Covered(Merged(sorted)) == Covered(sorted)
    ensures Separated(Merged(sorted))
  {
    if sorted != [] {
      MergeFromCorrect(sorted[0], sorted[1..]);
    }
  }

  predicate WellFormed(rs: seq<FreshRange>)
  {
    forall i :: 0 <= i < |rs| ==> rs[i].start <= rs[i].end
  }

  /** Merging keeps ranges well formed. */
  lemma {:induction false} MergeFromWellFormed(current: FreshRange, rest: seq<FreshRange>)
    requires current.start <= current.end && WellFormed(rest)
    ensures WellFormed(MergeFrom(current, rest))
    decreases |rest|
  {
    if rest != [] {
      if current.OverlapsOrAdjacent(rest[0]) {
        MergeFromWellFormed(current.MergeWith(rest[0]), rest[1..]);
      } else {
        MergeFromWellFormed(rest[0], rest[1..]);
      }
    }
  }

  /** Every id covered by separated ranges lies at or after the first start. */
  lemma {:induction false} CoveredAbove(rs: seq<FreshRange>)
    requires rs != [] && Separated(rs)
    ensures forall id :: id in Covered(rs) ==> id >= rs[0].start
  {
    if |rs| > 1 {
      CoveredAbove(rs[1..]);
    }
  }

  /** Well-formed separated ranges are disjoint, so their sizes add up to
      the number of ids they cover. */
  lemma {:induction false} SeparatedSizes(rs: seq<FreshRange>)
    requires WellFormed(rs) && Separated(rs)
    ensures SumSizes(rs) == |Covered(rs)|
  {
    if rs != [] {
      var tail := rs[1..];
      SeparatedSizes(tail);
      SizeCountsIds(rs[0]);
      if tail != [] {
        CoveredAbove(tail);
        assert rs[0].Ids() * Covered(tail) == {} by {
          forall id | id in Covered(tail)
            ensures id !in rs[0].Ids()
          {
            assert id > rs[0].end;
          }
        }
      }
    }
  }

  /** Part two counts the distinct ids covered by the (well-formed) ranges. */
  lemma TotalIsDistinctIds(db: IngredientDatabase)
    requires WellFormed(db.freshRanges)
    ensures TotalFreshIds(db) == |Covered(db.freshRanges)|
  {
    var sorted := SortByStart(db.freshRanges);
    SortByStartSorts(db.freshRanges);
    MergedCorrect(sorted);
    CoveredPermutation(sorted, db.freshRanges);
    assert WellFormed(sorted) by {
      forall i | 0 <= i < |sorted|
        ensures sorted[i].start <= sorted[i].end
      {
        assert sorted[i] in multiset(db.freshRanges);
      }
    }
    if sorted != [] {
      MergeFromWellFormed(sorted[0], sorted[1..]);
    }
    SeparatedSizes(Merged(sorted));
  }

  /** Two ranges already in order: what part two adds up for them. */
  lemma {:induction false} TotalOfPair(a: FreshRange, b: FreshRange)
    requires a.start <= b.start
    ensures TotalFreshIds(IngredientDatabase([a, b], []))
      == if a.OverlapsOrAdjacent(b) then a.MergeWith(b).Size() else a.Size() + b.Size()
  {
    assert [a, b][1..] == [b];
    assert SortByStart([b]) == [b];
    assert SortByStart([a, b]) == Insert(a, [b]) == [a, b];
    assert Merged([a, b]) == MergeFrom(a, [b]);
    assert [b][1..] == [];
    if a.OverlapsOrAdjacent(b) {
      var m := a.MergeWith(b);
      assert MergeFrom(a, [b]) == MergeFrom(m, []) == [m];
      assert SumSizes([m]) == m.Size() + SumSizes([]);
    } else {
      assert MergeFrom(a, [b]) == [a] + MergeFrom(b, []) == [a, b];
      assert SumSizes([a, b]) == a.Size() + SumSizes([b]);
      assert SumSizes([b]) == b.Size() + SumSizes([]);
    }
  }

  /** Overlapping, adjacent and disjoint pairs give 9, 10 and 11. */
  lemma MergeExamples()
    ensures TotalFreshIds(IngredientDatabase([FreshRange(10, 14), FreshRange(12, 18)], [])) == 9
    ensures TotalFreshIds(IngredientDatabase([FreshRange(1, 5), FreshRange(6, 10)], [])) == 10
    ensures TotalFreshIds(IngredientDatabase([FreshRange(1, 5), FreshRange(10, 15)], [])) == 11
  {
    TotalOfPair(FreshRange(10, 14), FreshRange(12, 18));
    TotalOfPair(FreshRange(1, 5), FreshRange(6, 10));
    TotalOfPair(FreshRange(1, 5), FreshRange(10, 15));
  }

  // ---------------------------------------------------------------------
  // Parsing

  function ParseRanges(lines: seq<string>): (r: Option<seq<FreshRange>>)
    ensures r.Some? ==> |r.value| == |lines|
    ensures r.Some? <==> forall i :: 0 <= i < |lines| ==> FreshRange.Parse(lines[i]).Some?
    ensures r.Some? ==> forall i :: 0 <= i < |lines| ==> r.value[i] == FreshRange.Parse(lines[i]).value
  {
    if lines == [] then Some([])
    else match (FreshRange.Parse(lines[0]), ParseRanges(lines[1..]))
      case (Some(x), Some(rest)) => Some([x] + rest)
      case _ => None
  }

  function ParseIds(lines: seq<string>): (r: Option<seq<int>>)
    ensures r.Some? ==> |r.value| == |lines|
    ensures r.Some? <==> forall i :: 0 <= i < |lines| ==> JavaText.ParseLong(lines[i]).Some?
    ensures r.Some? ==> forall i :: 0 <= i < |lines| ==> r.value[i] == JavaText.ParseLong(lines[i]).value
  {
    if lines == [] then Some([])
    else match (JavaText.ParseLong(lines[0]), ParseIds(lines[1..]))
      case (Some(x), Some(rest)) => Some([x] + rest)
      case _ => None
  }

  /** `parse`: ranges from the first section, ids from the second; fewer
      than two sections or a line that does not parse is None. */
  function Parse(sections: seq<seq<string>>): (r: Option<IngredientDatabase>)
    ensures r.Some? <==> |sections| >= 2 && ParseRanges(sections[0]).Some? && ParseIds(sections[1]).Some?
    ensures r.Some? ==> |r.value.freshRanges| == |sections[0]| && |r.value.availableIngredients| == |sections[1]|
  {
    if |sections| < 2 then None
    else match (ParseRanges(sections[0]), ParseIds(sections[1]))
      case (Some(ranges), Some(ids)) => Some(IngredientDatabase(ranges, ids))
      case _ => None
  }
}
