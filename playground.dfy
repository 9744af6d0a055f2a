/** day08 Playground: junction boxes at integer points in space. Every
    pair of boxes gets a key packing its squared distance and the two box
    indices; the keys are sorted once and cached. Part one joins the
    closest pairs and multiplies the three largest circuit sizes; part two
    joins pairs until everything is one circuit and multiplies the x
    coordinates of the last pair that joined two circuits. */
module Playground {
  import opened Optional
  import JavaText
  import FileUtils
  import MathProblems
  import UF = UnionFind

  datatype Box = Box(x: int, y: int, z: int)

  /** Box indices are packed in 10 bits each. */
  const MaxBoxes: int := 0x400

  /** One line of `parse`: split at ',' and read the first three pieces,
      trimmed, as ints. Fewer than three pieces, or a piece that is not an
      int, is an exception (None); further pieces are ignored. */
  function ParseBox(line: string): (r: Option<Box>)
    ensures r.Some? ==> |JavaText.Split(line, ",")| >= 3
  {
    var parts := JavaText.Split(line, ",");
    if |parts| < 3 then None
    else match (JavaText.ParseInt(JavaText.Trim(parts[0])), JavaText.ParseInt(JavaText.Trim(parts[1])), JavaText.ParseInt(JavaText.Trim(parts[2])))
      case (Some(x), Some(y), Some(z)) => Some(Box(x, y, z))
      case _ => None
  }

  /** Each line parsed on its own. */
  function ParseEach(lines: seq<string>): (r: seq<Option<Box>>)
    ensures |r| == |lines| && forall k :: 0 <= k < |lines| ==> r[k] == ParseBox(lines[k])
  {
    seq(|lines|, k requires 0 <= k < |lines| => ParseBox(lines[k]))
  }

  /** Every line parsed, or None if any line fails. */
  function ParseAll(lines: seq<string>): (r: Option<seq<Box>>)
  {
    Collect(ParseEach(lines))
  }

  /** The boxes held in the three coordinate arrays. */
  function Zip(xs: seq<int>, ys: seq<int>, zs: seq<int>): (bs: seq<Box>)
    requires |ys| == |xs| && |zs| == |xs|
    ensures |bs| == |xs| && forall i :: 0 <= i < |xs| ==> bs[i] == Box(xs[i], ys[i], zs[i])
  {
    seq(|xs|, i requires 0 <= i < |xs| => Box(xs[i], ys[i], zs[i]))
  }

  /** The sum of the squared coordinate differences. */
  function DistSq(a: Box, b: Box): (d: int)
    ensures d >= 0
  {
    Square(a.x - b.x) + Square(a.y - b.y) + Square(a.z - b.z)
  }

  function Square(v: int): (s: int)
    ensures s >= 0
  {
    v * v
  }

  /** `(distSq << 20) | (i << 10) | j`: with i and j below 2^10 the three
      fields do not overlap, so the bitwise or is a sum. */
  function Pack(distSq: int, i: int, j: int): (p: int)
    requires distSq >= 0 && 0 <= i < MaxBoxes && 0 <= j < MaxBoxes
    ensures p >= 0
  {
    distSq * 0x10_0000 + i * 0x400 + j
  }

  /** `extractBoxA`: bits 10..19. */
  function BoxA(packed: int): int
    requires packed >= 0
  {
    packed / 0x400 % 0x400
  }

  /** `extractBoxB`: bits 0..9. */
  function BoxB(packed: int): int
    requires packed >= 0
  {
    packed % 0x400
  }

  /** The two indices come back out of a key. */
  lemma PackRoundTrip(d: int, i: int, j: int)
    requires d >= 0 && 0 <= i < MaxBoxes && 0 <= j < MaxBoxes
    ensures BoxA(Pack(d, i, j)) == i && BoxB(Pack(d, i, j)) == j
  {
    var p := Pack(d, i, j);
    assert p == (d * 0x400 + i) * 0x400 + j;
    assert p / 0x400 == d * 0x400 + i;
    assert (d * 0x400 + i) % 0x400 == i;
  }

  /** Keys compare as (distance, i, j) do, lexicographically. */
  lemma PackOrder(d: int, i: int, j: int, d': int, i': int, j': int)
    requires d >= 0 && 0 <= i < MaxBoxes && 0 <= j < MaxBoxes
    requires d' >= 0 && 0 <= i' < MaxBoxes && 0 <= j' < MaxBoxes
    ensures Pack(d, i, j) < Pack(d', i', j') <==>
      d < d' || (d == d' && (i < i' || (i == i' && j < j')))
  {
  }

  /** The key as Java computes it on 64-bit longs, with a bitwise or. */
  function PackBits(distSq: bv64, i: bv64, j: bv64): bv64
  {
    (distSq << 20) | (i << 10) | j
  }

  /** Why `MaxBoxes` bounds the boxes: from index 1024 on, the index
      fields overlap. The pair (1024, 0) at distance 0 gets the key of the
      pair (0, 0) at distance 1, and its first box decodes as box 0; the
      pair (2, 1024) gets the key of the pair (3, 0). */
  lemma PackCollides()
    ensures PackBits(0, 1024, 0) == PackBits(1, 0, 0)
    ensures (PackBits(0, 1024, 0) >> 10) & 0x3FF == 0
    ensures PackBits(0, 2, 1024) == PackBits(0, 3, 0)
  {
  }

  /** The key of the pair (i, j). */
  function PairKey(bs: seq<Box>, i: int, j: int): int
    requires |bs| <= MaxBoxes && 0 <= i < |bs| && 0 <= j < |bs|
  {
    Pack(DistSq(bs[i], bs[j]), i, j)
  }

  /** The key the loop computes from the coordinate arrays is the pair key. */
  lemma KeyOfPair(bs: seq<Box>, xs: seq<int>, ys: seq<int>, zs: seq<int>, i: int, j: int)
    requires |ys| == |xs| && |zs| == |xs| <= MaxBoxes && bs == Zip(xs, ys, zs)
    requires 0 <= i < |xs| && 0 <= j < |xs|
    ensures PairKey(bs, i, j) ==
      Pack(Square(xs[i] - xs[j]) + Square(ys[i] - ys[j]) + Square(zs[i] - zs[j]), i, j)
  {
  }

  /** The keys the inner loop writes for i: the pairs (i, j), j > i. */
  function Row(bs: seq<Box>, i: int): (r: seq<int>)
    requires |bs| <= MaxBoxes && 0 <= i < |bs|
    ensures |r| == |bs| - i - 1
    ensures forall k :: 0 <= k < |r| ==> r[k] == PairKey(bs, i, i + 1 + k)
  {
    seq(|bs| - i - 1, k requires 0 <= k < |bs| - i - 1 => PairKey(bs, i, i + 1 + k))
  }

  /** Writing the key of (i, j) after the keys of (i, i + 1) .. (i, j - 1)
      gives the row up to j. */
  lemma RowStep(bs: seq<Box>, i: int, j: int, prefix: seq<int>, written: seq<int>)
    requires |bs| <= MaxBoxes && 0 <= i < j < |bs|
    requires written == prefix + Row(bs, i)[..j - i - 1]
    ensures written + [PairKey(bs, i, j)] == prefix + Row(bs, i)[..j - i]
  {
    assert Row(bs, i)[..j - i] == Row(bs, i)[..j - i - 1] + [PairKey(bs, i, j)];
  }

  /** The keys written for the rows below k, in loop order. */
  function AllPairs(bs: seq<Box>, k: int): seq<int>
    requires |bs| <= MaxBoxes && 0 <= k <= |bs|
  {
    if k == 0 then [] else AllPairs(bs, k - 1) + Row(bs, k - 1)
  }

  /** Twice the number of keys for the first k rows. */
  lemma {:induction false} AllPairsLength(bs: seq<Box>, k: int)
    requires |bs| <= MaxBoxes && 0 <= k <= |bs|
    ensures 2 * |AllPairs(bs, k)| == k * (2 * |bs| - k - 1)
  {
    if k > 0 {
      AllPairsLength(bs, k - 1);
      var n := |bs|;
      assert (k - 1) * (2 * n - k) == k * (2 * n - k) - (2 * n - k);
      assert k * (2 * n - k - 1) == k * (2 * n - k) - k;
    }
  }

  /** The array has n(n-1)/2 entries. */
  lemma PairCount(bs: seq<Box>)
    requires |bs| <= MaxBoxes
    ensures |AllPairs(bs, |bs|)| == |bs| * (|bs| - 1) / 2
  {
    AllPairsLength(bs, |bs|);
  }

  /** Earlier rows are a prefix of later ones. */
  lemma {:induction false} AllPairsPrefix(bs: seq<Box>, k: int, m: int)
    requires |bs| <= MaxBoxes && 0 <= k <= m <= |bs|
    ensures AllPairs(bs, k) <= AllPairs(bs, m)
    decreases m
  {
    if k < m {
      AllPairsPrefix(bs, k, m - 1);
    }
  }

  /** A key decodes to a pair of distinct boxes, the lower index first. */
  predicate Decodes(p: int, n: int)
  {
    p >= 0 && 0 <= BoxA(p) < BoxB(p) < n
  }

  /** Every key of ps decodes to a pair of boxes below n. */
  predicate AllDecode(ps: seq<int>, n: int)
  {
    forall k :: 0 <= k < |ps| ==> Decodes(ps[k], n)
  }

  /** Every key written is the key of a pair i < j. */
  lemma {:induction false} AllPairsDecode(bs: seq<Box>, k: int)
    requires |bs| <= MaxBoxes && 0 <= k <= |bs|
    ensures forall p :: p in AllPairs(bs, k) ==> Decodes(p, |bs|)
  {
    if k > 0 {
      AllPairsDecode(bs, k - 1);
      var r := Row(bs, k - 1);
      forall p | p in r
        ensures Decodes(p, |bs|)
      {
        var m :| 0 <= m < |r| && r[m] == p;
        PackRoundTrip(DistSq(bs[k - 1], bs[k + m]), k - 1, k + m);
      }
    }
  }

  /** Every pair i < j has its key written. */
  lemma PairListed(bs: seq<Box>, i: int, j: int)
    requires |bs| <= MaxBoxes && 0 <= i < j < |bs|
    ensures PairKey(bs, i, j) in AllPairs(bs, |bs|)
  {
    AllPairsPrefix(bs, i + 1, |bs|);
    assert Row(bs, i)[j - i - 1] == PairKey(bs, i, j);
    assert PairKey(bs, i, j) in AllPairs(bs, i + 1);
  }

  /** s is ordered: ascending, or descending when `desc`. */
  predicate InOrder(a: int, b: int, desc: bool)
  {
    if desc then a >= b else a <= b
  }

  predicate SortedBy(s: seq<int>, desc: bool)
  {
    forall i, j :: 0 <= i < j < |s| ==> InOrder(s[i], s[j], desc)
  }

  /** Insertion into an ordered sequence. */
  function Insert(x: int, s: seq<int>, desc: bool): (r: seq<int>)
    ensures |r| == |s| + 1
  {
    if s == [] || InOrder(x, s[0], desc) then [x] + s else [s[0]] + Insert(x, s[1..], desc)
  }

  /** The library sort (for ints every stable or unstable sort gives the
      same result). */
  function Sort(s: seq<int>, desc: bool): (r: seq<int>)
    ensures |r| == |s|
  {
    if s == [] then [] else Insert(s[0], Sort(s[1..], desc), desc)
  }

  /** A head that comes before every element of an ordered tail. */
  lemma ConsSorted(h: int, t: seq<int>, desc: bool)
    requires SortedBy(t, desc) && forall k :: 0 <= k < |t| ==> InOrder(h, t[k], desc)
    ensures SortedBy([h] + t, desc)
  {
    var s := [h] + t;
    forall i, j | 0 <= i < j < |s|
      ensures InOrder(s[i], s[j], desc)
    {
      if i > 0 {
        assert InOrder(t[i - 1], t[j - 1], desc);
      }
    }
  }

  lemma {:induction false} InsertFacts(x: int, s: seq<int>, desc: bool)
    requires SortedBy(s, desc)
    ensures multiset(Insert(x, s, desc)) == multiset(s) + multiset{x}
    ensures SortedBy(Insert(x, s, desc), desc)
  {
    if s == [] || InOrder(x, s[0], desc) {
      forall k | 0 <= k < |s|
        ensures InOrder(x, s[k], desc)
      {
        SortedHead(s, desc, s[k]);
      }
      ConsSorted(x, s, desc);
    } else {
      SortedTail(s, desc);
      InsertFacts(x, s[1..], desc);
      assert s == [s[0]] + s[1..];
      var t := Insert(x, s[1..], desc);
      forall k | 0 <= k < |t|
        ensures InOrder(s[0], t[k], desc)
      {
        assert t[k] in multiset(s[1..]) + multiset{x};
        if t[k] != x {
          assert t[k] in s;
          SortedHead(s, desc, t[k]);
        }
      }
      ConsSorted(s[0], t, desc);
    }
  }

  /** The sort is an ordered permutation. */
  lemma {:induction false} SortFacts(s: seq<int>, desc: bool)
    ensures multiset(Sort(s, desc)) == multiset(s)
    ensures SortedBy(Sort(s, desc), desc)
  {
    if s != [] {
      SortFacts(s[1..], desc);
      InsertFacts(s[0], Sort(s[1..], desc), desc);
      assert s == [s[0]] + s[1..];
    }
  }

  /** The head of an ordered sequence comes before every element. */
  lemma SortedHead(s: seq<int>, desc: bool, x: int)
    requires SortedBy(s, desc) && x in s
    ensures InOrder(s[0], x, desc)
  {
    var k :| 0 <= k < |s| && s[k] == x;
    if k > 0 {
      assert InOrder(s[0], s[k], desc);
    }
  }

  lemma SortedTail(s: seq<int>, desc: bool)
    requires SortedBy(s, desc) && s != []
    ensures SortedBy(s[1..], desc)
  {
    forall i, j | 0 <= i < j < |s| - 1
      ensures InOrder(s[1..][i], s[1..][j], desc)
    {
      assert InOrder(s[i + 1], s[j + 1], desc);
    }
  }

  /** Equal multisets with equal heads have equal tails. */
  lemma TailMultiset(a: seq<int>, b: seq<int>)
    requires a != [] && b != [] && a[0] == b[0] && multiset(a) == multiset(b)
    ensures multiset(a[1..]) == multiset(b[1..])
  {
    assert a == [a[0]] + a[1..] && b == [b[0]] + b[1..];
    assert multiset(a[1..]) == multiset(a) - multiset{a[0]};
    assert multiset(b[1..]) == multiset(b) - multiset{b[0]};
  }

  /** Two ordered permutations of each other are equal. */
  lemma {:induction false} SortedUnique(a: seq<int>, b: seq<int>, desc: bool)
    requires SortedBy(a, desc) && SortedBy(b, desc) && multiset(a) == multiset(b)
    ensures a == b
    decreases |a|
  {
    assert |a| == |multiset(a)| == |multiset(b)| == |b|;
    if a != [] {
      assert a[0] in multiset(b) && b[0] in multiset(a);
      SortedHead(b, desc, a[0]);
      SortedHead(a, desc, b[0]);
      TailMultiset(a, b);
      SortedTail(a, desc);
      SortedTail(b, desc);
      SortedUnique(a[1..], b[1..], desc);
      assert a == [a[0]] + a[1..] && b == [b[0]] + b[1..];
    }
  }

  /** `Arrays.sort` on a long array: ascending, in place. */
  method SortInPlace(a: array<int>)
    modifies a
    ensures a[..] == Sort(old(a[..]), false)
  {
    ghost var original := a[..];
    var i := 0;
    while i < a.Length
      invariant 0 <= i <= a.Length
      invariant forall p, q :: 0 <= p < q < i ==> a[p] <= a[q]
      invariant multiset(a[..]) == multiset(original)
    {
      var j := i;
      while j > 0 && a[j - 1] > a[j]
        invariant 0 <= j <= i
        invariant forall p, q :: 0 <= p < q <= i && q != j ==> a[p] <= a[q]
        invariant multiset(a[..]) == multiset(original)
      {
        ghost var before := a[..];
        a[j - 1], a[j] := a[j], a[j - 1];
        SwapDown(before, a[..], i, j);
        j := j - 1;
      }
      i := i + 1;
    }
    assert SortedBy(a[..], false);
    SortFacts(original, false);
    SortedUnique(a[..], Sort(original, false), false);
  }

  /** One step of the inner loop: swapping the entry at j with the larger
      one before it moves the one gap in the order from j to j - 1, and
      keeps the multiset. */
  lemma SwapDown(before: seq<int>, after: seq<int>, i: int, j: int)
    requires 0 < j <= i < |before| && before[j - 1] > before[j]
    requires forall p, q :: 0 <= p < q <= i && q != j ==> before[p] <= before[q]
    requires after == before[j - 1 := before[j]][j := before[j - 1]]
    ensures forall p, q :: 0 <= p < q <= i && q != j - 1 ==> after[p] <= after[q]
    ensures multiset(after) == multiset(before)
  {
    forall p, q | 0 <= p < q <= i && q != j - 1
      ensures after[p] <= after[q]
    {
      if q == j && p < j - 1 {
        assert before[p] <= before[j - 1];
      } else if q > j && p == j {
        assert before[j - 1] <= before[q];
      } else if q > j && p == j - 1 {
        assert before[j] <= before[q];
      }
    }
  }

  /** The cached array: every pair key, ascending. */
  function SortedPairs(bs: seq<Box>): seq<int>
    requires |bs| <= MaxBoxes
  {
    Sort(AllPairs(bs, |bs|), false)
  }

  /** The sorted keys are the pair keys, ordered by distance, then i,
      then j, and each decodes to a pair i < j. */
  lemma SortedPairsFacts(bs: seq<Box>)
    requires |bs| <= MaxBoxes
    ensures multiset(SortedPairs(bs)) == multiset(AllPairs(bs, |bs|))
    ensures SortedBy(SortedPairs(bs), false)
    ensures AllDecode(SortedPairs(bs), |bs|)
  {
    SortFacts(AllPairs(bs, |bs|), false);
    AllPairsDecode(bs, |bs|);
    var ps := SortedPairs(bs);
    forall k | 0 <= k < |ps|
      ensures Decodes(ps[k], |bs|)
    {
      assert ps[k] in multiset(AllPairs(bs, |bs|));
    }
  }

  /** Applies `union` for each of the first k keys in order, starting
      from f. */
  function UniteAll(f: UF.Forest, ps: seq<int>, k: nat): (g: UF.Forest)
    requires UF.WellFormed(f) && AllDecode(ps, |f.root|) && k <= |ps|
    ensures UF.WellFormed(g) && |g.root| == |f.root|
  {
    if k == 0 then f
    else
      var g := UniteAll(f, ps, k - 1);
      assert Decodes(ps[k - 1], |g.root|);
      UF.Unite(g, BoxA(ps[k - 1]), BoxB(ps[k - 1]))
  }

  /** `Math.min(connections, pairs.length)`, and nothing for a negative count. */
  function Limit(connections: int, pairCount: nat): (k: nat)
    ensures k <= pairCount
    ensures connections >= 0 ==> k == if connections < pairCount then connections else pairCount
  {
    if connections < 0 then 0 else if connections < pairCount then connections else pairCount
  }

  /** The circuits after joining the closest `connections` pairs (already
      joined pairs included). */
  function Circuits(bs: seq<Box>, connections: int): (f: UF.Forest)
    requires |bs| <= MaxBoxes
    ensures UF.WellFormed(f) && |f.root| == |bs|
  {
    var pairs := SortedPairs(bs);
    SortedPairsFacts(bs);
    UniteAll(UF.Initial(|bs|), pairs, Limit(connections, |pairs|))
  }

  /** The up to three largest entries. */
  function TopThree(sizes: seq<int>): seq<int>
  {
    var sorted := Sort(sizes, true);
    sorted[..if |sorted| < 3 then |sorted| else 3]
  }

  /** The circuit sizes are one positive size per circuit and add up to
      the number of boxes. */
  lemma CircuitSizes(bs: seq<Box>, connections: int)
    requires |bs| <= MaxBoxes
    ensures var sizes := UF.ComponentSizes(Circuits(bs, connections).root);
      |sizes| == UF.Components(Circuits(bs, connections).root) &&
      (forall i :: 0 <= i < |sizes| ==> sizes[i] > 0) &&
      MathProblems.Sum(sizes) == |bs|
  {
    UF.ComponentSizesMeaning(Circuits(bs, connections).root);
  }

  /** The factors are sizes, and no size left out is larger than one taken. */
  lemma TopThreeLargest(sizes: seq<int>)
    ensures |TopThree(sizes)| == if |sizes| < 3 then |sizes| else 3
    ensures multiset(TopThree(sizes)) <= multiset(sizes)
    ensures forall k, m :: 0 <= k < |TopThree(sizes)| <= m < |sizes| ==> TopThree(sizes)[k] >= Sort(sizes, true)[m]
  {
    var sorted := Sort(sizes, true);
    SortFacts(sizes, true);
    var c := if |sorted| < 3 then |sorted| else 3;
    PrefixMultiset(sorted, c);
    forall k, m | 0 <= k < c <= m < |sizes|
      ensures TopThree(sizes)[k] >= sorted[m]
    {
      assert InOrder(sorted[k], sorted[m], true);
    }
  }

  lemma PrefixMultiset(s: seq<int>, c: nat)
    requires c <= |s|
    ensures multiset(s[..c]) <= multiset(s)
  {
    assert s == s[..c] + s[c..];
  }

  /** The pair whose `union` made everything one circuit, scanning the
      keys from the front; `last` is the latest pair that joined two
      circuits. Pairs already in one circuit are skipped. */
  function LastMerge(f: UF.Forest, ps: seq<int>, i: nat, last: Option<(int, int)>): (r: Option<(int, int)>)
    requires UF.WellFormed(f) && AllDecode(ps, |f.root|) && i <= |ps|
    requires last.Some? ==> 0 <= last.value.0 < |f.root| && 0 <= last.value.1 < |f.root|
    ensures r.Some? ==> 0 <= r.value.0 < |f.root| && 0 <= r.value.1 < |f.root|
    decreases |ps| - i
  {
    if i == |ps| then last
    else
      assert Decodes(ps[i], |f.root|);
      var a, b := BoxA(ps[i]), BoxB(ps[i]);
      if f.root[a] != f.root[b] then
        var g := UF.Unite(f, a, b);
        if UF.Components(g.root) == 1 then Some((a, b)) else LastMerge(g, ps, i + 1, Some((a, b)))
      else LastMerge(f, ps, i + 1, last)
  }

  /** What part two returns: the product of the x coordinates of the last
      joining pair, or 0 if no pair joined anything. */
  function FinalProduct(bs: seq<Box>): int
    requires |bs| <= MaxBoxes
  {
    match FinalMerge(bs)
    case None => 0
    case Some((a, b)) => bs[a].x * bs[b].x
  }

  /** The pair part two ends on, over all the sorted keys. */
  function FinalMerge(bs: seq<Box>): (r: Option<(int, int)>)
    requires |bs| <= MaxBoxes
    ensures r.Some? ==> 0 <= r.value.0 < |bs| && 0 <= r.value.1 < |bs|
  {
    SortedPairsFacts(bs);
    LastMerge(UF.Initial(|bs|), SortedPairs(bs), 0, None)
  }

  /** Once some pair has joined, there is an answer. */
  lemma {:induction false} LastMergeKeeps(f: UF.Forest, ps: seq<int>, i: nat, last: Option<(int, int)>)
    requires UF.WellFormed(f) && AllDecode(ps, |f.root|) && i <= |ps|
    requires last.Some? && 0 <= last.value.0 < |f.root| && 0 <= last.value.1 < |f.root|
    ensures LastMerge(f, ps, i, last).Some?
    decreases |ps| - i
  {
    if i < |ps| {
      assert Decodes(ps[i], |f.root|);
      var a, b := BoxA(ps[i]), BoxB(ps[i]);
      if f.root[a] != f.root[b] {
        var g := UF.Unite(f, a, b);
        if UF.Components(g.root) != 1 {
          LastMergeKeeps(g, ps, i + 1, Some((a, b)));
        }
      } else {
        LastMergeKeeps(f, ps, i + 1, last);
      }
    }
  }

  /** From singletons, the first key always joins two circuits. */
  lemma FirstKeyJoins(n: nat, ps: seq<int>)
    requires AllDecode(ps, n) && ps != []
    ensures LastMerge(UF.Initial(n), ps, 0, None).Some?
  {
    var f := UF.Initial(n);
    assert Decodes(ps[0], n);
    var a, b := BoxA(ps[0]), BoxB(ps[0]);
    assert f.root[a] == a && f.root[b] == b;
    var g := UF.Unite(f, a, b);
    if UF.Components(g.root) != 1 {
      LastMergeKeeps(g, ps, 1, Some((a, b)));
    }
  }

  /** There are pairs exactly when there are at least two boxes. */
  lemma PairsExist(bs: seq<Box>)
    requires |bs| <= MaxBoxes
    ensures SortedPairs(bs) != [] <==> |bs| >= 2
  {
    var n := |bs|;
    SortFacts(AllPairs(bs, n), false);
    PairCount(bs);
    assert |SortedPairs(bs)| == |multiset(SortedPairs(bs))| == |AllPairs(bs, n)|;
    if n >= 2 {
      assert n * (n - 1) >= 2;
    } else {
      assert n * (n - 1) == 0;
    }
  }

  /** Part two ends on a joining pair exactly when there are at least two
      boxes: the closest pair always joins two singletons; with fewer boxes
      there are no pairs and the answer is 0. */
  lemma FinalMergeExists(bs: seq<Box>)
    requires |bs| <= MaxBoxes
    ensures FinalMerge(bs).Some? <==> |bs| >= 2
    ensures |bs| < 2 ==> FinalProduct(bs) == 0
  {
    SortedPairsFacts(bs);
    PairsExist(bs);
    if |bs| >= 2 {
      FirstKeyJoins(|bs|, SortedPairs(bs));
    }
  }

  /** The circuits after uniting the first k sorted keys. */
  function Joined(bs: seq<Box>, k: nat): (f: UF.Forest)
    requires |bs| <= MaxBoxes && k <= |SortedPairs(bs)|
    ensures UF.WellFormed(f) && |f.root| == |bs|
  {
    SortedPairsFacts(bs);
    UniteAll(UF.Initial(|bs|), SortedPairs(bs), k)
  }

  /** The two boxes of the k-th sorted key. */
  function PairAt(bs: seq<Box>, k: nat): (int, int)
    requires |bs| <= MaxBoxes && k < |SortedPairs(bs)|
  {
    SortedPairsFacts(bs);
    var p := SortedPairs(bs)[k];
    (BoxA(p), BoxB(p))
  }

  /** Boxes in one circuit stay in one circuit as more keys are united. */
  lemma {:induction false} UniteAllKeepsSame(f: UF.Forest, ps: seq<int>, k: nat, m: nat, x: int, y: int)
    requires UF.WellFormed(f) && AllDecode(ps, |f.root|) && k <= m <= |ps|
    requires 0 <= x < |f.root| && 0 <= y < |f.root|
    requires UF.Same(UniteAll(f, ps, k).root, x, y)
    ensures UF.Same(UniteAll(f, ps, m).root, x, y)
    decreases m
  {
    if m > k {
      UniteAllKeepsSame(f, ps, k, m - 1, x, y);
      KeyKeepsSame(f, ps, m - 1, x, y);
    }
  }

  /** Uniting one more key keeps boxes in one circuit together. */
  lemma KeyKeepsSame(f: UF.Forest, ps: seq<int>, m: nat, x: int, y: int)
    requires UF.WellFormed(f) && AllDecode(ps, |f.root|) && m < |ps|
    requires 0 <= x < |f.root| && 0 <= y < |f.root|
    requires UF.Same(UniteAll(f, ps, m).root, x, y)
    ensures UF.Same(UniteAll(f, ps, m + 1).root, x, y)
  {
    var g := UniteAll(f, ps, m);
    assert Decodes(ps[m], |g.root|);
    UF.UniteMerges(g, BoxA(ps[m]), BoxB(ps[m]));
  }

  /** Uniting key k puts its two boxes in one circuit. */
  lemma KeyJoins(f0: UF.Forest, ps: seq<int>, k: nat)
    requires UF.WellFormed(f0) && AllDecode(ps, |f0.root|) && k < |ps|
    ensures Decodes(ps[k], |f0.root|)
    ensures UF.Same(UniteAll(f0, ps, k + 1).root, BoxA(ps[k]), BoxB(ps[k]))
  {
    var g := UniteAll(f0, ps, k);
    assert Decodes(ps[k], |g.root|);
    UF.UniteMerges(g, BoxA(ps[k]), BoxB(ps[k]));
  }

  /** Once every key is united, boxes i < j are in one circuit: their own
      key is among the sorted keys. */
  lemma PairJoined(bs: seq<Box>, i: int, j: int)
    requires |bs| <= MaxBoxes && 0 <= i < j < |bs|
    ensures UF.Same(Joined(bs, |SortedPairs(bs)|).root, i, j)
  {
    SortedPairsFacts(bs);
    var ps, f0 := SortedPairs(bs), UF.Initial(|bs|);
    PairListed(bs, i, j);
    var key := PairKey(bs, i, j);
    assert key in multiset(ps);
    var k :| 0 <= k < |ps| && ps[k] == key;
    PackRoundTrip(DistSq(bs[i], bs[j]), i, j);
    KeyJoins(f0, ps, k);
    UniteAllKeepsSame(f0, ps, k + 1, |ps|, i, j);
  }

  /** Uniting every key leaves one circuit. */
  lemma AllPairsConnect(bs: seq<Box>)
    requires 1 <= |bs| <= MaxBoxes
    ensures UF.Components(Joined(bs, |SortedPairs(bs)|).root) == 1
  {
    var root := Joined(bs, |SortedPairs(bs)|).root;
    forall i, j | 0 <= i < |bs| && 0 <= j < |bs|
      ensures UF.Same(root, i, j)
    {
      if i < j {
        PairJoined(bs, i, j);
      } else if j < i {
        PairJoined(bs, j, i);
      }
    }
    UF.OneComponent(root);
  }

  /** One step of the scan of part two, over the circuits after the first
      i keys while more than one circuit is left: either key i joins the
      last two circuits and the scan stops on its pair, or more than one
      circuit is still left after it and the scan moves on, with key i's
      pair as the latest join if it joined two circuits. */
  lemma ScanStep(f0: UF.Forest, ps: seq<int>, i: nat, last: Option<(int, int)>)
    returns (stop: bool, next: Option<(int, int)>, pair: (int, int))
    requires UF.WellFormed(f0) && AllDecode(ps, |f0.root|) && i < |ps|
    requires last.Some? ==> 0 <= last.value.0 < |f0.root| && 0 <= last.value.1 < |f0.root|
    requires UF.Components(UniteAll(f0, ps, i).root) > 1
    ensures pair == (BoxA(ps[i]), BoxB(ps[i]))
    ensures stop ==> Connects(f0, ps, i)
    ensures stop ==> LastMerge(UniteAll(f0, ps, i), ps, i, last) == Some(pair)
    ensures !stop ==> UF.Components(UniteAll(f0, ps, i + 1).root) > 1
    ensures !stop && UF.Components(UniteAll(f0, ps, |ps|).root) == 1 ==> i + 1 < |ps|
    ensures !stop && next.Some? ==> 0 <= next.value.0 < |f0.root| && 0 <= next.value.1 < |f0.root|
    ensures !stop ==> LastMerge(UniteAll(f0, ps, i), ps, i, last) == LastMerge(UniteAll(f0, ps, i + 1), ps, i + 1, next)
  {
    var f := UniteAll(f0, ps, i);
    assert Decodes(ps[i], |f.root|);
    var a, b := BoxA(ps[i]), BoxB(ps[i]);
    var g := UF.Unite(f, a, b);
    assert UniteAll(f0, ps, i + 1) == g;
    UF.UniteCount(f, a, b);
    stop := f.root[a] != f.root[b] && UF.Components(g.root) == 1;
    next := if f.root[a] != f.root[b] then Some((a, b)) else last;
    pair := (a, b);
  }

  /** One turn of the scan of part two: a key whose boxes are in one
      circuit is skipped; otherwise its union either makes one circuit and
      the scan ends on its pair, or the scan goes on from the new circuits. */
  lemma LastMergeStep(f: UF.Forest, ps: seq<int>, i: nat, last: Option<(int, int)>)
    requires UF.WellFormed(f) && AllDecode(ps, |f.root|) && i < |ps|
    requires last.Some? ==> 0 <= last.value.0 < |f.root| && 0 <= last.value.1 < |f.root|
    ensures Decodes(ps[i], |f.root|)
    ensures var a, b := BoxA(ps[i]), BoxB(ps[i]);
      LastMerge(f, ps, i, last) ==
        if f.root[a] == f.root[b] then LastMerge(f, ps, i + 1, last)
        else if UF.Components(UF.Unite(f, a, b).root) == 1 then Some((a, b))
        else LastMerge(UF.Unite(f, a, b), ps, i + 1, Some((a, b)))
  {
    assert Decodes(ps[i], |f.root|);
  }

  /** Key k turns more than one circuit into one. */
  predicate Connects(f0: UF.Forest, ps: seq<int>, k: nat)
    requires UF.WellFormed(f0) && AllDecode(ps, |f0.root|) && k < |ps|
  {
    UF.Components(UniteAll(f0, ps, k).root) > 1 && UF.Components(UniteAll(f0, ps, k + 1).root) == 1
  }

  /** Starting from more than one circuit, when all keys together leave
      one, the scan stops at a key k whose union turns more than one
      circuit into one, and returns that key's pair: it never runs out of
      keys first. */
  lemma LastMergeEndsConnected(f0: UF.Forest, ps: seq<int>)
    returns (k: nat, pair: (int, int))
    requires UF.WellFormed(f0) && AllDecode(ps, |f0.root|) && 0 < |ps|
    requires UF.Components(f0.root) > 1
    requires UF.Components(UniteAll(f0, ps, |ps|).root) == 1
    ensures k < |ps| && pair == (BoxA(ps[k]), BoxB(ps[k]))
    ensures LastMerge(f0, ps, 0, None) == Some(pair)
    ensures Connects(f0, ps, k)
  {
    var last: Option<(int, int)> := None;
    k := 0;
    assert UniteAll(f0, ps, 0) == f0;
    while true
      invariant k < |ps|
      invariant last.Some? ==> 0 <= last.value.0 < |f0.root| && 0 <= last.value.1 < |f0.root|
      invariant UF.Components(UniteAll(f0, ps, k).root) > 1
      invariant LastMerge(f0, ps, 0, None) == LastMerge(UniteAll(f0, ps, k), ps, k, last)
      decreases |ps| - k
    {
      var stop, next;
      stop, next, pair := ScanStep(f0, ps, k, last);
      if stop {
        return;
      }
      k, last := k + 1, next;
    }
  }

  /** With at least two boxes, part two ends on the pair of a key k whose
      union joins the last two circuits: before it there is more than one
      circuit, after it exactly one. The keys never run out first. */
  lemma FinalMergeConnects(bs: seq<Box>)
    requires 2 <= |bs| <= MaxBoxes
    ensures exists k :: (0 <= k < |SortedPairs(bs)| && FinalMerge(bs) == Some(PairAt(bs, k)) &&
                         UF.Components(Joined(bs, k).root) > 1 && UF.Components(Joined(bs, k + 1).root) == 1)
  {
    SortedPairsFacts(bs);
    var ps, f0 := SortedPairs(bs), UF.Initial(|bs|);
    AllPairsConnect(bs);
    assert UniteAll(f0, ps, 0) == f0;
    PairsExist(bs);
    var k, pair := LastMergeEndsConnected(f0, ps);
    assert Joined(bs, k) == UniteAll(f0, ps, k) && Joined(bs, k + 1) == UniteAll(f0, ps, k + 1);
    assert FinalMerge(bs) == Some(PairAt(bs, k));
  }

  class Playground {
    const xcoords: array<int>
    const ycoords: array<int>
    const zcoords: array<int>
    var sortedPairData: array?<int>

    ghost predicate Valid()
      reads this, xcoords, ycoords, zcoords, sortedPairData
    {
      ycoords.Length == xcoords.Length && zcoords.Length == xcoords.Length &&
      (sortedPairData != null ==>
        xcoords.Length <= MaxBoxes && sortedPairData[..] == SortedPairs(Boxes()))
    }

    /** The boxes, one per index of the coordinate arrays. */
    ghost function Boxes(): seq<Box>
      reads xcoords, ycoords, zcoords
      requires ycoords.Length == xcoords.Length && zcoords.Length == xcoords.Length
    {
      Zip(xcoords[..], ycoords[..], zcoords[..])
    }

    constructor (xs: array<int>, ys: array<int>, zs: array<int>)
      requires ys.Length == xs.Length && zs.Length == xs.Length
      ensures xcoords == xs && ycoords == ys && zcoords == zs && sortedPairData == null
      ensures Valid()
    {
      xcoords, ycoords, zcoords := xs, ys, zs;
      sortedPairData := null;
    }

    /** `parse`: one box per non-blank line. */
    static method Parse(lines: seq<string>) returns (r: Option<Playground>)
      ensures r.None? <==> ParseAll(FileUtils.NonBlank(lines)).None?
      ensures r.Some? ==> (r.value.Valid() && r.value.sortedPairData == null &&
        r.value.Boxes() == ParseAll(FileUtils.NonBlank(lines)).value)
    {
      r := FromParsed(ParseEach(FileUtils.NonBlank(lines)));
    }

    /** The loop of `parse`: stores each parsed box in the coordinate
        arrays, stopping at the first line that did not parse. */
    static method FromParsed(results: seq<Option<Box>>) returns (r: Option<Playground>)
      ensures r.None? <==> Collect(results).None?
      ensures r.Some? ==> (r.value.Valid() && r.value.sortedPairData == null &&
        r.value.Boxes() == Collect(results).value)
    {
      var n := |results|;
      var xs := new int[n];
      var ys := new int[n];
      var zs := new int[n];
      for i := 0 to n
        invariant forall k :: 0 <= k < i ==> results[k] == Some(Box(xs[k], ys[k], zs[k]))
      {
        var box := results[i];
        if box.None? {
          return None;
        }
        xs[i] := box.value.x;
        ys[i] := box.value.y;
        zs[i] := box.value.z;
      }
      var p := new Playground(xs, ys, zs);
      assert p.Boxes() == Collect(results).value;
      return Some(p);
    }

    /** `getSortedPairData`: builds and sorts the keys on the first call,
        then returns the cached array. */
    method GetSortedPairData() returns (pairs: array<int>)
      requires Valid() && xcoords.Length <= MaxBoxes
      modifies this
      ensures Valid() && sortedPairData == pairs
      ensures pairs[..] == SortedPairs(Boxes())
      ensures old(sortedPairData) != null ==> pairs == old(sortedPairData)
      ensures old(sortedPairData) == null ==> fresh(pairs)
    {
      if sortedPairData == null {
        var data := PairData(xcoords, ycoords, zcoords);
        SortInPlace(data);
        sortedPairData := data;
      }
      pairs := sortedPairData;
    }

    /** The nested loops of `getSortedPairData`: one key per pair i < j,
        row by row. */
    static method PairData(xs: array<int>, ys: array<int>, zs: array<int>) returns (data: array<int>)
      requires ys.Length == xs.Length && zs.Length == xs.Length <= MaxBoxes
      ensures fresh(data) && data[..] == AllPairs(Zip(xs[..], ys[..], zs[..]), xs.Length)
    {
      ghost var bs := Zip(xs[..], ys[..], zs[..]);
      var n := xs.Length;
      PairCount(bs);
      var pairCount := n * (n - 1) / 2;
      data := new int[pairCount];
      var idx := 0;
      for i := 0 to n
        invariant 0 <= idx <= data.Length
        invariant idx == |AllPairs(bs, i)| && data[..idx] == AllPairs(bs, i)
      {
        AllPairsPrefix(bs, i + 1, n);
        ghost var before := data[..idx];
        idx := WriteRow(xs, ys, zs, i, data, idx);
        assert data[..idx] == before + Row(bs, i);
      }
      assert data[..] == data[..idx];
    }

    /** The inner loop for row i: the keys of (i, j) for every j > i,
        written from `start` on. */
    static method WriteRow(xs: array<int>, ys: array<int>, zs: array<int>, i: int, data: array<int>, start: int)
      returns (end: int)
      requires ys.Length == xs.Length && zs.Length == xs.Length <= MaxBoxes && 0 <= i < xs.Length
      requires data != xs && data != ys && data != zs
      requires 0 <= start && start + xs.Length - i - 1 <= data.Length
      modifies data
      ensures end == start + xs.Length - i - 1
      ensures data[..end] == old(data[..start]) + Row(Zip(xs[..], ys[..], zs[..]), i)
    {
      ghost var bs := Zip(xs[..], ys[..], zs[..]);
      ghost var prefix := data[..start];
      var n := xs.Length;
      var xi, yi, zi := xs[i], ys[i], zs[i];
      end := start;
      for j := i + 1 to n
        invariant end == start + (j - i - 1)
        invariant data[..end] == prefix + Row(bs, i)[..j - i - 1]
      {
        var dx, dy, dz := xi - xs[j], yi - ys[j], zi - zs[j];
        var distSq := Square(dx) + Square(dy) + Square(dz);
        KeyOfPair(bs, xs[..], ys[..], zs[..], i, j);
        RowStep(bs, i, j, prefix, data[..end]);
        ghost var written := data[..end];
        data[end] := Pack(distSq, i, j);
        assert data[..end + 1] == written + [data[end]];
        end := end + 1;
      }
      assert Row(bs, i)[..n - i - 1] == Row(bs, i);
    }

    /** `productOfThreeLargestCircuits`. */
    method ProductOfThreeLargestCircuits(connections: int) returns (product: int)
      requires Valid() && xcoords.Length <= MaxBoxes
      modifies this
      ensures Valid() && sortedPairData != null
      ensures product == MathProblems.Product(TopThree(UF.ComponentSizes(Circuits(Boxes(), connections).root)))
    {
      var pairs := GetSortedPairData();
      SortedPairsFacts(Boxes());
      var uf := JoinClosest(xcoords.Length, pairs[..], connections);
      var sizes := uf.GetComponentSizes();
      product := TopThreeProduct(sizes);
    }

    /** The first loop of `productOfThreeLargestCircuits`: a fresh
        union-find over n boxes, joined along the first
        `min(connections, pairs.length)` keys. */
    static method JoinClosest(n: nat, pairs: seq<int>, connections: int) returns (uf: UF.UnionFind)
      requires AllDecode(pairs, n)
      ensures fresh(uf) && fresh(uf.parent) && fresh(uf.rank)
      ensures uf.Valid() && uf.parent.Length == n
      ensures uf.State() == UniteAll(UF.Initial(n), pairs, Limit(connections, |pairs|))
    {
      uf := new UF.UnionFind(n);
      UniteFirst(uf, pairs, Limit(connections, |pairs|));
    }

    /** The loop itself: `union` along the first `limit` keys. */
    static method UniteFirst(uf: UF.UnionFind, pairs: seq<int>, limit: nat)
      requires uf.Valid() && AllDecode(pairs, uf.parent.Length) && limit <= |pairs|
      modifies uf, uf.parent, uf.rank
      ensures uf.Valid()
      ensures uf.State() == UniteAll(old(uf.State()), pairs, limit)
    {
      ghost var start := uf.State();
      var i := 0;
      while i < limit
        invariant 0 <= i <= limit
        invariant uf.Valid()
        invariant uf.State() == UniteAll(start, pairs, i)
      {
        assert Decodes(pairs[i], uf.parent.Length);
        uf.Union(BoxA(pairs[i]), BoxB(pairs[i]));
        i := i + 1;
      }
    }

    /** The second half of `productOfThreeLargestCircuits`: sort the sizes
        in descending order and multiply the first three (or fewer). */
    static method TopThreeProduct(sizes: seq<int>) returns (product: int)
      ensures product == MathProblems.Product(TopThree(sizes))
    {
      var sorted := Sort(sizes, true);
      product := 1;
      var count := if |sorted| < 3 then |sorted| else 3;
      for k := 0 to count
        invariant product == MathProblems.Product(sorted[..k])
      {
        assert sorted[..k + 1][..k] == sorted[..k];
        product := product * sorted[k];
      }
    }

    /** `finalConnectionXcoordProduct`. */
    method FinalConnectionXcoordProduct() returns (product: int)
      requires Valid() && xcoords.Length <= MaxBoxes
      modifies this
      ensures Valid() && sortedPairData != null
      ensures product == FinalProduct(Boxes())
    {
      var pairs := GetSortedPairData();
      SortedPairsFacts(Boxes());
      var lastA, lastB := JoinUntilConnected(xcoords.Length, pairs[..]);
      if lastA < 0 {
        return 0;
      }
      return xcoords[lastA] * xcoords[lastB];
    }

    /** The loop of `finalConnectionXcoordProduct`: joins along the keys
        in order, remembering the latest pair that joined two circuits,
        and stops once everything is one circuit; -1 when none joined. */
    static method JoinUntilConnected(n: nat, pairs: seq<int>) returns (lastA: int, lastB: int)
      requires AllDecode(pairs, n)
      ensures lastA < 0 ==> LastMerge(UF.Initial(n), pairs, 0, None) == None
      ensures lastA >= 0 ==> LastMerge(UF.Initial(n), pairs, 0, None) == Some((lastA, lastB))
    {
      var uf := new UF.UnionFind(n);
      ghost var start := uf.State();
      lastA, lastB := -1, -1;
      var i := 0;
      while i < |pairs|
        invariant 0 <= i <= |pairs|
        invariant fresh(uf) && fresh(uf.parent) && fresh(uf.rank)
        invariant uf.Valid() && uf.parent.Length == n
        invariant lastA < 0 || (0 <= lastA < n && 0 <= lastB < n)
        invariant LastMerge(start, pairs, 0, None) ==
          LastMerge(uf.State(), pairs, i, if lastA < 0 then None else Some((lastA, lastB)))
      {
        LastMergeStep(uf.State(), pairs, i, if lastA < 0 then None else Some((lastA, lastB)));
        var boxA, boxB := BoxA(pairs[i]), BoxB(pairs[i]);
        var rootA := uf.Find(boxA);
        var rootB := uf.Find(boxB);
        if rootA != rootB {
          uf.Union(boxA, boxB);
          lastA, lastB := boxA, boxB;
          var connected := uf.IsFullyConnected();
          if connected {
            return;
          }
        }
        i := i + 1;
      }
    }
  }
}
