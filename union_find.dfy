/** day08 UnionFind: disjoint sets over 0..n-1 with path compression,
    union by rank and a running count of the sets. The ghost `root`
    sequence names each element's representative; `Forest` is the
    abstract state (representatives and ranks) that the operations are
    specified against. */
module UnionFind {
  import MathProblems

  /** Representatives and ranks: the part of a union-find that `union`
      and `getComponentSizes` depend on (path compression changes
      neither). */
  datatype Forest = Forest(root: seq<int>, rank: seq<int>)

  /** r is a representative: it is in range and stands for itself. */
  predicate IsRep(root: seq<int>, r: int)
  {
    0 <= r < |root| && root[r] == r
  }

  /** i's representative is a representative. */
  predicate RootOk(root: seq<int>, i: int)
  {
    0 <= i < |root| && IsRep(root, root[i])
  }

  /** Every element's representative is a representative. */
  predicate Rooted(root: seq<int>)
  {
    forall i :: 0 <= i < |root| ==> RootOk(root, i)
  }

  predicate WellFormed(f: Forest)
  {
    |f.rank| == |f.root| && Rooted(f.root)
  }

  /** The number of representatives among 0..k-1, i.e. of sets that have
      their representative there. */
  function RootCount(root: seq<int>, k: nat): (c: nat)
    requires k <= |root|
    ensures c <= k
  {
    if k == 0 then 0 else RootCount(root, k - 1) + (if root[k - 1] == k - 1 then 1 else 0)
  }

  /** The number of sets. */
  function Components(root: seq<int>): nat
  {
    RootCount(root, |root|)
  }

  /** x and y are in the same set. */
  predicate Same(root: seq<int>, x: int, y: int)
    requires 0 <= x < |root| && 0 <= y < |root|
  {
    root[x] == root[y]
  }

  /** `after` is the partition `before` with the sets of a and b joined:
      two elements end up together exactly when they were together, or
      one was with a and the other with b. */
  predicate Merged(before: seq<int>, a: int, b: int, after: seq<int>)
    requires 0 <= a < |before| && 0 <= b < |before|
  {
    |after| == |before| &&
    forall i, j :: 0 <= i < |before| && 0 <= j < |before| ==>
      (after[i] == after[j] <==>
        before[i] == before[j] ||
        (before[i] == before[a] && before[j] == before[b]) ||
        (before[i] == before[b] && before[j] == before[a]))
  }

  /** Moves every member of the set represented by `from` to `to`. */
  function Relabel(root: seq<int>, from: int, to: int): (r: seq<int>)
    ensures |r| == |root|
    ensures forall i :: 0 <= i < |root| ==> r[i] == (if root[i] == from then to else root[i])
  {
    seq(|root|, i requires 0 <= i < |root| => if root[i] == from then to else root[i])
  }

  /** The state after `new UnionFind(n)`: n singletons of rank 0. */
  function Initial(n: nat): (f: Forest)
    ensures WellFormed(f) && |f.root| == n
    ensures Components(f.root) == n
  {
    var f := Forest(seq(n, i => i), seq(n, i => 0));
    IdentityCount(f.root, n);
    f
  }

  lemma {:induction false} IdentityCount(root: seq<int>, k: nat)
    requires k <= |root| && forall i :: 0 <= i < |root| ==> root[i] == i
    ensures RootCount(root, k) == k
  {
    if k > 0 {
      IdentityCount(root, k - 1);
    }
  }

  /** `union(x, y)` on the representatives and ranks. */
  function Unite(f: Forest, x: int, y: int): (g: Forest)
    requires WellFormed(f) && 0 <= x < |f.root| && 0 <= y < |f.root|
    ensures WellFormed(g) && |g.root| == |f.root|
  {
    var rx, ry := f.root[x], f.root[y];
    assert RootOk(f.root, x) && RootOk(f.root, y);
    RelabelRooted(f.root, rx, ry);
    RelabelRooted(f.root, ry, rx);
    if rx == ry then f
    else if f.rank[rx] < f.rank[ry] then Forest(Relabel(f.root, rx, ry), f.rank)
    else if f.rank[rx] > f.rank[ry] then Forest(Relabel(f.root, ry, rx), f.rank)
    else Forest(Relabel(f.root, ry, rx), f.rank[rx := f.rank[rx] + 1])
  }

  /** Relabelling one representative to another joins exactly those two sets. */
  lemma RelabelMerges(root: seq<int>, x: int, y: int, from: int, to: int)
    requires Rooted(root) && 0 <= x < |root| && 0 <= y < |root|
    requires {from, to} == {root[x], root[y]}
    ensures Merged(root, x, y, Relabel(root, from, to))
  {
  }

  /** The partition `union` produces: x's and y's sets are joined, nothing
      else changes. */
  lemma UniteMerges(f: Forest, x: int, y: int)
    requires WellFormed(f) && 0 <= x < |f.root| && 0 <= y < |f.root|
    ensures Merged(f.root, x, y, Unite(f, x, y).root)
    ensures Same(Unite(f, x, y).root, x, y)
  {
    var rx, ry := f.root[x], f.root[y];
    assert RootOk(f.root, x) && RootOk(f.root, y);
    if rx != ry {
      if f.rank[rx] < f.rank[ry] {
        RelabelMerges(f.root, x, y, rx, ry);
      } else {
        RelabelMerges(f.root, x, y, ry, rx);
      }
    }
  }

  /** Union by rank: the representative of lower rank goes under the other
      one, which keeps its rank unless the ranks were equal (then the
      representative of x's set stays and its rank grows by one). Joining
      two elements of one set changes nothing. */
  lemma UniteByRank(f: Forest, x: int, y: int)
    requires WellFormed(f) && 0 <= x < |f.root| && 0 <= y < |f.root|
    ensures RootOk(f.root, x) && RootOk(f.root, y)
    ensures var g, rx, ry := Unite(f, x, y), f.root[x], f.root[y];
      (rx == ry ==> g == f) &&
      (rx != ry ==>
        (f.rank[rx] < f.rank[ry] ==> g.root[x] == ry && g.rank == f.rank) &&
        (f.rank[rx] > f.rank[ry] ==> g.root[x] == rx && g.rank == f.rank) &&
        (f.rank[rx] == f.rank[ry] ==> g.root[x] == rx && g.rank == f.rank[rx := f.rank[rx] + 1]))
  {
  }

  /** After relabelling, the representatives are those of before except `from`. */
  lemma {:induction false} RelabelCount(root: seq<int>, from: int, to: int, k: nat)
    requires Rooted(root) && 0 <= from < |root| && root[from] == from && to != from
    requires 0 <= to < |root| && root[to] == to && k <= |root|
    ensures RootCount(Relabel(root, from, to), k) == RootCount(root, k) - (if from < k then 1 else 0)
  {
    if k > 0 {
      RelabelCount(root, from, to, k - 1);
      var r := Relabel(root, from, to);
      assert r[k - 1] == k - 1 <==> root[k - 1] == k - 1 && k - 1 != from by {
        assert RootOk(root, k - 1);
      }
    }
  }

  /** `componentCount--` happens exactly when the sets were different. */
  lemma UniteCount(f: Forest, x: int, y: int)
    requires WellFormed(f) && 0 <= x < |f.root| && 0 <= y < |f.root|
    ensures Components(Unite(f, x, y).root) == Components(f.root) - (if Same(f.root, x, y) then 0 else 1)
  {
    var rx, ry := f.root[x], f.root[y];
    assert RootOk(f.root, x) && RootOk(f.root, y);
    if rx != ry {
      if f.rank[rx] < f.rank[ry] {
        RelabelCount(f.root, rx, ry, |f.root|);
      } else {
        RelabelCount(f.root, ry, rx, |f.root|);
      }
    }
  }

  /** A representative below k is counted. */
  lemma {:induction false} RootCounted(root: seq<int>, k: nat, p: int)
    requires k <= |root| && 0 <= p < k && root[p] == p
    ensures RootCount(root, k) >= 1
  {
    if p < k - 1 {
      RootCounted(root, k - 1, p);
    }
  }

  /** Two representatives below k are both counted. */
  lemma {:induction false} TwoRootsCounted(root: seq<int>, k: nat, p: int, q: int)
    requires k <= |root| && 0 <= p < q < k && root[p] == p && root[q] == q
    ensures RootCount(root, k) >= 2
  {
    if q < k - 1 {
      TwoRootsCounted(root, k - 1, p, q);
    } else {
      RootCounted(root, k - 1, p);
    }
  }

  /** Only r is a representative below k. */
  lemma {:induction false} OnlyRootCounted(root: seq<int>, k: nat, r: int)
    requires k <= |root| && forall i :: 0 <= i < |root| ==> root[i] == r
    ensures RootCount(root, k) == (if 0 <= r < k then 1 else 0)
  {
    if k > 0 {
      OnlyRootCounted(root, k - 1, r);
    }
  }

  /** There is exactly one set iff there is an element and all elements
      share a representative. */
  lemma OneComponent(root: seq<int>)
    requires Rooted(root)
    ensures Components(root) == 1 <==>
      |root| > 0 && forall i, j :: 0 <= i < |root| && 0 <= j < |root| ==> Same(root, i, j)
  {
    if |root| > 0 && forall i, j :: 0 <= i < |root| && 0 <= j < |root| ==> Same(root, i, j) {
      assert forall i :: 0 <= i < |root| ==> root[i] == root[0] by {
        forall i | 0 <= i < |root| ensures root[i] == root[0] {
          assert Same(root, i, 0);
        }
      }
      assert RootOk(root, 0);
      OnlyRootCounted(root, |root|, root[0]);
    } else if |root| > 0 {
      var i, j :| 0 <= i < |root| && 0 <= j < |root| && !Same(root, i, j);
      assert RootOk(root, i) && RootOk(root, j);
      var p, q := root[i], root[j];
      if p < q {
        TwoRootsCounted(root, |root|, p, q);
      } else {
        TwoRootsCounted(root, |root|, q, p);
      }
    }
  }

  /** How many times v occurs in s. */
  function Occurrences(s: seq<int>, v: int): (c: nat)
    ensures c <= |s|
  {
    if s == [] then 0 else Occurrences(s[..|s| - 1], v) + (if s[|s| - 1] == v then 1 else 0)
  }

  /** The positive entries of s, in order. */
  function Positives(s: seq<int>): (r: seq<int>)
    ensures forall i :: 0 <= i < |r| ==> r[i] > 0
  {
    if s == [] then [] else Positives(s[..|s| - 1]) + (if s[|s| - 1] > 0 then [s[|s| - 1]] else [])
  }

  /** The size of the set of every candidate representative r < m. */
  function SetSizes(root: seq<int>, m: nat): (s: seq<int>)
    ensures |s| == m && forall r :: 0 <= r < m ==> s[r] == Occurrences(root, r)
  {
    seq(m, r => Occurrences(root, r))
  }

  /** One more member in v's set. */
  lemma SetSizesAdd(s: seq<int>, v: int, m: nat)
    requires 0 <= v < m
    ensures SetSizes(s + [v], m) == SetSizes(s, m)[v := Occurrences(s, v) + 1]
  {
    assert (s + [v])[..|s|] == s;
  }

  /** What `getComponentSizes` reports: the sizes of the sets, in the
      order of their representatives. */
  function ComponentSizes(root: seq<int>): seq<int>
  {
    Positives(SetSizes(root, |root|))
  }

  /** r has a non-empty set iff it is a representative. */
  lemma OccupiedIffRoot(root: seq<int>, r: int)
    requires Rooted(root) && 0 <= r < |root|
    ensures Occurrences(root, r) > 0 <==> root[r] == r
  {
    if root[r] == r {
      OccurrenceAt(root, r, r);
    } else {
      forall i | 0 <= i < |root|
        ensures root[i] != r
      {
        assert RootOk(root, i);
      }
      NoOccurrence(root, r);
    }
  }

  lemma {:induction false} OccurrenceAt(s: seq<int>, i: int, v: int)
    requires 0 <= i < |s| && s[i] == v
    ensures Occurrences(s, v) > 0
  {
    if i < |s| - 1 {
      OccurrenceAt(s[..|s| - 1], i, v);
    }
  }

  lemma {:induction false} NoOccurrence(s: seq<int>, v: int)
    requires forall i :: 0 <= i < |s| ==> s[i] != v
    ensures Occurrences(s, v) == 0
  {
    if s != [] {
      NoOccurrence(s[..|s| - 1], v);
    }
  }

  /** One size per set. */
  lemma {:induction false} PositivesCount(root: seq<int>, k: nat)
    requires Rooted(root) && k <= |root|
    ensures |Positives(SetSizes(root, k))| == RootCount(root, k)
  {
    if k > 0 {
      PositivesCount(root, k - 1);
      assert SetSizes(root, k)[..k - 1] == SetSizes(root, k - 1);
      OccupiedIffRoot(root, k - 1);
    }
  }

  /** Dropping the non-positive entries of a non-negative sequence keeps its sum. */
  lemma {:induction false} PositivesSum(s: seq<int>)
    requires forall i :: 0 <= i < |s| ==> s[i] >= 0
    ensures MathProblems.Sum(Positives(s)) == MathProblems.Sum(s)
  {
    if s != [] {
      var init := s[..|s| - 1];
      PositivesSum(init);
      if s[|s| - 1] > 0 {
        MathProblems.SumAppend(Positives(init), [s[|s| - 1]]);
        assert [s[|s| - 1]][..0] == [];
      } else {
        assert Positives(s) == Positives(init);
      }
    }
  }

  /** Adding an element v to s adds one to the size of v's set and leaves
      the others alone, so the total over representatives below m grows by
      one when v < m. */
  lemma {:induction false} SetSizesSnoc(s: seq<int>, v: int, m: nat)
    requires 0 <= v
    ensures MathProblems.Sum(SetSizes(s + [v], m)) == MathProblems.Sum(SetSizes(s, m)) + (if v < m then 1 else 0)
  {
    if m > 0 {
      SetSizesSnoc(s, v, m - 1);
      assert SetSizes(s + [v], m)[..m - 1] == SetSizes(s + [v], m - 1);
      assert SetSizes(s, m)[..m - 1] == SetSizes(s, m - 1);
      assert (s + [v])[..|s|] == s;
    }
  }

  /** Every element lies in exactly one set, so the set sizes add up to
      the number of elements. */
  lemma {:induction false} SetSizesSum(s: seq<int>, m: nat)
    requires forall i :: 0 <= i < |s| ==> 0 <= s[i] < m
    ensures MathProblems.Sum(SetSizes(s, m)) == |s|
  {
    if s == [] {
      ZeroSizesSum(m);
    } else {
      var init := s[..|s| - 1];
      SetSizesSum(init, m);
      assert init + [s[|s| - 1]] == s;
      SetSizesSnoc(init, s[|s| - 1], m);
    }
  }

  lemma {:induction false} ZeroSizesSum(m: nat)
    ensures MathProblems.Sum(SetSizes([], m)) == 0
  {
    if m > 0 {
      ZeroSizesSum(m - 1);
      assert SetSizes([], m)[..m - 1] == SetSizes([], m - 1);
    }
  }

  /** `getComponentSizes` gives one positive size per set, and the sizes
      add up to the number of elements. */
  lemma ComponentSizesMeaning(root: seq<int>)
    requires Rooted(root)
    ensures |ComponentSizes(root)| == Components(root)
    ensures forall i :: 0 <= i < |ComponentSizes(root)| ==> ComponentSizes(root)[i] > 0
    ensures MathProblems.Sum(ComponentSizes(root)) == |root|
  {
    PositivesCount(root, |root|);
    PositivesSum(SetSizes(root, |root|));
    forall i | 0 <= i < |root|
      ensures 0 <= root[i] < |root|
    {
      assert RootOk(root, i);
    }
    SetSizesSum(root, |root|);
  }

  /** Relabelling between two representatives keeps every
      representative a representative. */
  lemma RelabelRooted(root: seq<int>, lo: int, hi: int)
    requires Rooted(root) && IsRep(root, lo) && IsRep(root, hi)
    ensures Rooted(Relabel(root, lo, hi))
  {
    var r := Relabel(root, lo, hi);
    forall i | 0 <= i < |root|
      ensures RootOk(r, i)
    {
      assert RootOk(root, i);
    }
  }

  /** What the parent array must satisfy at element i: the parent is in
      the same set, i is its own parent exactly when it is a
      representative, its rank is at most the number of unions so far (n - count), and ranks grow strictly
      from i to its parent and to its representative. */
  predicate NodeOk(parent: seq<int>, rank: seq<int>, root: seq<int>, count: int, i: int)
    requires |parent| == |rank| == |root|
  {
    0 <= i < |parent| && 0 <= parent[i] < |parent| && 0 <= root[i] < |root| &&
    root[parent[i]] == root[i] &&
    (parent[i] == i <==> root[i] == i) &&
    0 <= rank[i] <= |parent| - count &&
    (parent[i] != i ==> rank[i] < rank[parent[i]] && rank[i] < rank[root[i]])
  }

  /** The invariant linking the parent array to the representatives; the
      rank bound grows by one per successful union, and the count is the
      number of sets. */
  predicate ForestInv(parent: seq<int>, rank: seq<int>, root: seq<int>, count: int)
  {
    |parent| == |rank| == |root| && Rooted(root) &&
    (forall i :: 0 <= i < |parent| ==> NodeOk(parent, rank, root, count, i)) &&
    count == Components(root)
  }

  /** Path compression keeps the invariant. */
  lemma CompressKeeps(parent: seq<int>, rank: seq<int>, root: seq<int>, count: int, x: int)
    requires ForestInv(parent, rank, root, count) && 0 <= x < |parent|
    ensures ForestInv(parent[x := root[x]], rank, root, count)
  {
    var p := parent[x := root[x]];
    forall i | 0 <= i < |p|
      ensures NodeOk(p, rank, root, count, i)
    {
      assert NodeOk(parent, rank, root, count, i);
      assert RootOk(root, i);
    }
  }

  /** Hanging representative `lo` under representative `hi` (with `hi`'s
      rank raised on a tie) keeps the invariant, with one set fewer. */
  lemma LinkKeeps(parent: seq<int>, rank: seq<int>, root: seq<int>, count: int, lo: int, hi: int, rank': seq<int>)
    requires ForestInv(parent, rank, root, count)
    requires IsRep(root, lo) && IsRep(root, hi) && lo != hi
    requires (rank[lo] < rank[hi] && rank' == rank) ||
             (rank[lo] == rank[hi] && rank' == rank[hi := rank[hi] + 1])
    ensures ForestInv(parent[lo := hi], rank', Relabel(root, lo, hi), count - 1)
  {
    var p, r, count' := parent[lo := hi], Relabel(root, lo, hi), count - 1;
    RelabelCount(root, lo, hi, |root|);
    RelabelRooted(root, lo, hi);
    assert NodeOk(parent, rank, root, count, lo) && NodeOk(parent, rank, root, count, hi);
    forall i | 0 <= i < |p|
      ensures NodeOk(p, rank', r, count', i)
    {
      assert NodeOk(parent, rank, root, count, i);
      assert RootOk(root, i);
    }
  }

  /** `after` differs from `before` only where it points an element
      straight at its representative. */
  predicate Compressed(before: seq<int>, after: seq<int>, root: seq<int>)
  {
    |before| == |after| == |root| &&
    forall i :: 0 <= i < |before| ==> after[i] == before[i] || after[i] == root[i]
  }

  class UnionFind {
    const parent: array<int>
    const rank: array<int>
    var componentCount: int
    ghost var root: seq<int>

    ghost predicate Valid()
      reads this, parent, rank
    {
      parent != rank && ForestInv(parent[..], rank[..], root, componentCount)
    }

    /** The representatives and ranks. */
    ghost function State(): Forest
      reads this, rank
    {
      Forest(root, rank[..])
    }

    /** `new UnionFind(n)`: n singletons. */
    constructor (n: nat)
      ensures Valid() && fresh(parent) && fresh(rank)
      ensures parent.Length == n && State() == Initial(n) && componentCount == n
      ensures forall i :: 0 <= i < n ==> parent[i] == i
    {
      var p := new int[n];
      var rk := new int[n];
      for i := 0 to n
        invariant forall j :: 0 <= j < i ==> p[j] == j && rk[j] == 0
      {
        p[i] := i;
        rk[i] := 0;
      }
      parent := p;
      rank := rk;
      componentCount := n;
      root := seq(n, i => i);
      new;
      assert rank[..] == Initial(n).rank;
      assert forall i :: 0 <= i < n ==> root[i] == i;
      IdentityCount(root, n);
      assert forall i :: 0 <= i < n ==> RootOk(root, i) && NodeOk(parent[..], rank[..], root, n, i);
    }

    /** `find(x)`: returns x's representative and points x straight at it;
        the sets, ranks and count are unchanged. */
    method Find(x: int) returns (r: int)
      requires Valid() && 0 <= x < parent.Length
      modifies parent
      ensures Valid()
      ensures r == root[x] && 0 <= r < parent.Length && parent[r] == r && parent[x] == r
      ensures Compressed(old(parent[..]), parent[..], root)
      decreases parent.Length - rank[x]
    {
      assert NodeOk(parent[..], rank[..], root, componentCount, x);
      if parent[x] != x {
        assert NodeOk(parent[..], rank[..], root, componentCount, parent[x]);
        var p := Find(parent[x]);
        ghost var before := parent[..];
        CompressKeeps(before, rank[..], root, componentCount, x);
        parent[x] := p;
        assert parent[..] == before[x := root[x]];
      }
      r := parent[x];
    }

    /** `union(x, y)`. */
    method Union(x: int, y: int)
      requires Valid() && 0 <= x < parent.Length && 0 <= y < parent.Length
      modifies this, parent, rank
      ensures Valid()
      ensures State() == Unite(old(State()), x, y)
      ensures componentCount == old(componentCount) - (if old(Same(root, x, y)) then 0 else 1)
    {
      ghost var f := State();
      var rootX := Find(x);
      var rootY := Find(y);
      ghost var p, rk := parent[..], rank[..];
      assert RootOk(root, x) && RootOk(root, y);
      if rootX != rootY {
        if rank[rootX] < rank[rootY] {
          LinkKeeps(p, rk, root, componentCount, rootX, rootY, rk);
          assert Unite(f, x, y) == Forest(Relabel(f.root, rootX, rootY), rk);
          parent[rootX] := rootY;
          root := Relabel(root, rootX, rootY);
          assert parent[..] == p[rootX := rootY] && rank[..] == rk;
        } else if rank[rootX] > rank[rootY] {
          LinkKeeps(p, rk, root, componentCount, rootY, rootX, rk);
          assert Unite(f, x, y) == Forest(Relabel(f.root, rootY, rootX), rk);
          parent[rootY] := rootX;
          root := Relabel(root, rootY, rootX);
          assert parent[..] == p[rootY := rootX] && rank[..] == rk;
        } else {
          LinkKeeps(p, rk, root, componentCount, rootY, rootX, rk[rootX := rk[rootX] + 1]);
          assert Unite(f, x, y) == Forest(Relabel(f.root, rootY, rootX), rk[rootX := rk[rootX] + 1]);
          parent[rootY] := rootX;
          rank[rootX] := rank[rootX] + 1;
          root := Relabel(root, rootY, rootX);
          assert rank[..] == rk[rootX := rk[rootX] + 1];
          assert parent[..] == p[rootY := rootX];
        }
        componentCount := componentCount - 1;
      } else {
        assert Unite(f, x, y) == f;
      }
      UniteCount(f, x, y);
    }

    /** `isFullyConnected`: exactly one set. */
    function IsFullyConnected(): (b: bool)
      reads this, parent, rank
      requires Valid()
      ensures b <==> (parent.Length > 0 &&
        forall i, j :: 0 <= i < parent.Length && 0 <= j < parent.Length ==> Same(root, i, j))
    {
      OneComponent(root);
      componentCount == 1
    }

    /** `getComponentSizes`: counts the members of each set by their
        representative, then keeps the non-zero counts. */
    method GetComponentSizes() returns (sizes: seq<int>)
      requires Valid()
      modifies parent
      ensures Valid()
      ensures sizes == ComponentSizes(root)
    {
      var counts := new int[parent.Length](_ => 0);
      assert counts[..] == SetSizes(root[..0], parent.Length);
      for i := 0 to parent.Length
        invariant Valid()
        invariant counts[..] == SetSizes(root[..i], counts.Length)
      {
        var r := Find(i);
        assert root[..i + 1] == root[..i] + [r];
        SetSizesAdd(root[..i], r, counts.Length);
        counts[r] := counts[r] + 1;
      }
      assert root[..parent.Length] == root;
      sizes := [];
      for k := 0 to counts.Length
        invariant sizes == Positives(counts[..k])
      {
        assert counts[..k + 1][..k] == counts[..k];
        if counts[k] > 0 {
          sizes := sizes + [counts[k]];
        }
      }
      assert counts[..counts.Length] == counts[..];
    }
  }
}
