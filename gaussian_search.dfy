/** The integer side of day10/GaussianSolver: `evaluate` (reconstruct every
    variable from the free ones, reject negative or fractional values) and
    `enumerate` (depth-first search over the box [0, bound] of every free
    variable, keeping the smallest sum). The functions thread the shared
    `values` array exactly as the Java code does, stale entries included;
    the lemmas show that the stale entries never matter. */
module GaussianSearch {
  import opened GaussianAlgebra

  const LongMax: int := 0x7FFF_FFFF_FFFF_FFFF
  const IntMax: int := 0x7FFF_FFFF

  function AsReals(xs: seq<int>): (r: Vec)
    ensures |r| == |xs| && forall i :: 0 <= i < |xs| ==> r[i] == xs[i] as real
  {
    seq(|xs|, i requires 0 <= i < |xs| => xs[i] as real)
  }

  /** `Math.round`: the nearest integer, halves rounded up. */
  function Round(x: real): int
  {
    (x + 0.5).Floor
  }

  lemma RoundIntegral(k: int)
    ensures Round(k as real) == k
  {
  }

  /** Σ_{k<n} xs[k]. */
  function Sum(xs: seq<int>, n: nat): int
    requires n <= |xs|
  {
    if n == 0 then 0 else Sum(xs, n - 1) + xs[n - 1]
  }

  predicate NonNegative(xs: seq<int>)
  {
    forall k :: 0 <= k < |xs| ==> xs[k] >= 0
  }

  /** The `values` array after a call, and the call's result. */
  datatype Outcome = Outcome(vals: seq<int>, value: int)

  /** The value `evaluate` computes for variable k: the free value itself,
      or the constant plus the coefficients times the current values. */
  function Candidate(ex: Exprs, vals: seq<int>, k: nat): real
    requires ShapedExprs(ex) && |vals| == |ex.free| && k < |vals|
  {
    if ex.free[k] then vals[k] as real else ex.consts[k] + Dot(ex.coeffs[k], AsReals(vals))
  }

  /** The loop of `evaluate` over indices i-1 down to 0 with running total
      `total`: a negative or non-integral value ends it with Long.MAX_VALUE,
      an accepted value is written back and added. */
  function EvalLoop(ex: Exprs, vals: seq<int>, i: nat, total: int): (r: Outcome)
    requires ShapedExprs(ex) && |vals| == |ex.free| && i <= |vals|
    ensures |r.vals| == |vals|
    decreases i
  {
    if i == 0 then Outcome(vals, total)
    else
      var x := Candidate(ex, vals, i - 1);
      if x < 0.0 || x != Round(x) as real then Outcome(vals, LongMax)
      else EvalLoop(ex, vals[i - 1 := Round(x)], i - 1, total + Round(x))
  }

  /** `evaluate(values)`. */
  function Evaluate(ex: Exprs, vals: seq<int>): (r: Outcome)
    requires ShapedExprs(ex) && |vals| == |ex.free|
    ensures |r.vals| == |vals|
  {
    EvalLoop(ex, vals, |vals|, 0)
  }

  /** a and b agree on the free indices and on every index from i on. */
  predicate AgreeFreeFrom(ex: Exprs, a: seq<int>, b: seq<int>, i: nat)
    requires |a| == |b| == |ex.free|
  {
    forall k :: 0 <= k < |a| && (ex.free[k] || i <= k) ==> a[k] == b[k]
  }

  /** A dependent variable's expression reads only higher indices. */
  lemma DotAbove(ex: Exprs, a: seq<int>, b: seq<int>, k: nat)
    requires ShapedExprs(ex) && Triangular(ex) && |a| == |b| == |ex.free|
    requires k < |a| && !ex.free[k]
    requires forall u :: k < u < |a| ==> a[u] == b[u]
    ensures Dot(ex.coeffs[k], AsReals(a)) == Dot(ex.coeffs[k], AsReals(b))
  {
    DotSparse(ex.coeffs[k], AsReals(a), AsReals(b));
  }

  /** The loop never changes a free entry, nor an entry it has not reached. */
  lemma {:induction false} EvalLoopFrame(ex: Exprs, vals: seq<int>, i: nat, total: int)
    requires ShapedExprs(ex) && |vals| == |ex.free| && i <= |vals|
    ensures var r := EvalLoop(ex, vals, i, total);
      forall k :: 0 <= k < |vals| && (ex.free[k] || i <= k) ==> r.vals[k] == vals[k]
    decreases i
  {
    if i > 0 {
      var x := Candidate(ex, vals, i - 1);
      if !(x < 0.0 || x != Round(x) as real) {
        if ex.free[i - 1] {
          RoundIntegral(vals[i - 1]);
        }
        EvalLoopFrame(ex, vals[i - 1 := Round(x)], i - 1, total + Round(x));
      }
    }
  }

  /** The loop's result depends only on the free entries and on the entries
      it has already written. */
  lemma {:induction false} EvalLoopCongruent(ex: Exprs, a: seq<int>, b: seq<int>, i: nat, total: int)
    requires ShapedExprs(ex) && Triangular(ex) && |a| == |b| == |ex.free| && i <= |a|
    requires AgreeFreeFrom(ex, a, b, i)
    ensures EvalLoop(ex, a, i, total).value == EvalLoop(ex, b, i, total).value
    decreases i
  {
    if i > 0 {
      var k := i - 1;
      if !ex.free[k] {
        DotAbove(ex, a, b, k);
      }
      var x := Candidate(ex, a, k);
      assert x == Candidate(ex, b, k);
      if !(x < 0.0 || x != Round(x) as real) {
        EvalLoopCongruent(ex, a[k := Round(x)], b[k := Round(x)], k, total + Round(x));
      }
    }
  }

  /** Soundness of `evaluate`: unless it answers Long.MAX_VALUE, the values
      it leaves are non-negative integers that satisfy every recorded
      expression, and its answer is their sum. */
  lemma {:induction false} EvalLoopSound(ex: Exprs, vals: seq<int>, i: nat, total: int)
    requires ShapedExprs(ex) && Triangular(ex) && |vals| == |ex.free| && i <= |vals|
    requires forall k :: i <= k < |vals| ==> vals[k] >= 0
    requires forall k :: i <= k < |vals| && !ex.free[k] ==>
      vals[k] as real == ex.consts[k] + Dot(ex.coeffs[k], AsReals(vals))
    ensures var r := EvalLoop(ex, vals, i, total);
      r.value != LongMax ==>
        NonNegative(r.vals) && Defs(ex, AsReals(r.vals)) && r.value == total + Sum(r.vals, i)
    decreases i
  {
    if i > 0 {
      var k := i - 1;
      var x := Candidate(ex, vals, k);
      if !(x < 0.0 || x != Round(x) as real) {
        var next := vals[k := Round(x)];
        forall j | k <= j < |next| && !ex.free[j]
          ensures next[j] as real == ex.consts[j] + Dot(ex.coeffs[j], AsReals(next))
        {
          DotAbove(ex, next, vals, j);
        }
        EvalLoopSound(ex, next, k, total + Round(x));
        EvalLoopFrame(ex, next, k, total + Round(x));
      }
    }
  }

  /** Completeness of `evaluate`: a non-negative integer vector X that
      satisfies every recorded expression and agrees with the values on the
      free entries (and on the entries already written) is accepted, and the
      answer is its sum. */
  lemma {:induction false} EvalLoopComplete(ex: Exprs, vals: seq<int>, i: nat, total: int, X: seq<int>)
    requires ShapedExprs(ex) && Triangular(ex) && |vals| == |X| == |ex.free| && i <= |vals|
    requires NonNegative(X) && Defs(ex, AsReals(X)) && AgreeFreeFrom(ex, vals, X, i)
    ensures EvalLoop(ex, vals, i, total).value == total + Sum(X, i)
    decreases i
  {
    if i > 0 {
      var k := i - 1;
      var x := Candidate(ex, vals, k);
      if !ex.free[k] {
        DotAbove(ex, vals, X, k);
      }
      assert x == X[k] as real;
      RoundIntegral(X[k]);
      EvalLoopComplete(ex, vals[k := X[k]], k, total + X[k], X);
    }
  }

  /** Indices into `values` that `enumerate` may use as free variables. */
  predicate IndicesIn(F: seq<int>, n: nat)
  {
    forall t :: 0 <= t < |F| ==> 0 <= F[t] < n
  }

  /** `enumerate(freeVars, d, values, best)`: at the leaf depth the answer of
      `evaluate`; otherwise the loop over the current free variable. */
  function Enum(ex: Exprs, bounds: seq<int>, F: seq<int>, d: nat, vals: seq<int>, best: int): (r: Outcome)
    requires ShapedExprs(ex) && |vals| == |bounds| == |ex.free| && d <= |F| && IndicesIn(F, |vals|)
    ensures |r.vals| == |vals|
    decreases |F| - d, 1, 0
  {
    if d == |F| then Evaluate(ex, vals)
    else EnumLoop(ex, bounds, F, d, vals, best, 0)
  }

  /** The loop `for (x = 0; x <= bound; x++)` of `enumerate` from x on: set
      the variable, search below, keep the smaller answer. */
  function EnumLoop(ex: Exprs, bounds: seq<int>, F: seq<int>, d: nat, vals: seq<int>, best: int, x: int): (r: Outcome)
    requires ShapedExprs(ex) && |vals| == |bounds| == |ex.free| && d < |F| && IndicesIn(F, |vals|)
    ensures |r.vals| == |vals|
    decreases |F| - d, 0, bounds[F[d]] - x + 1
  {
    if x > bounds[F[d]] then Outcome(vals, best)
    else
      var child := Enum(ex, bounds, F, d + 1, vals[F[d] := x], best);
      EnumLoop(ex, bounds, F, d, child.vals, if child.value < best then child.value else best, x + 1)
  }

  /** F lists every free variable, each once (and nothing else). */
  predicate ListsFree(ex: Exprs, F: seq<int>)
  {
    (forall t :: 0 <= t < |F| ==> 0 <= F[t] < |ex.free| && ex.free[F[t]])
    && (forall t, u :: 0 <= t < u < |F| ==> F[t] != F[u])
    && (forall k :: 0 <= k < |ex.free| && ex.free[k] ==> k in F)
  }

  /** The search never changes the free variables it has already fixed. */
  lemma {:induction false} EnumFrame(ex: Exprs, bounds: seq<int>, F: seq<int>, d: nat, vals: seq<int>, best: int)
    requires ShapedExprs(ex) && |vals| == |bounds| == |ex.free| && d <= |F| && ListsFree(ex, F)
    ensures forall t :: 0 <= t < d ==> Enum(ex, bounds, F, d, vals, best).vals[F[t]] == vals[F[t]]
    decreases |F| - d, 1, 0
  {
    if d == |F| {
      EvalLoopFrame(ex, vals, |vals|, 0);
    } else {
      EnumLoopFrame(ex, bounds, F, d, vals, best, 0);
    }
  }

  lemma {:induction false} EnumLoopFrame(ex: Exprs, bounds: seq<int>, F: seq<int>, d: nat, vals: seq<int>, best: int, x: int)
    requires ShapedExprs(ex) && |vals| == |bounds| == |ex.free| && d < |F| && ListsFree(ex, F)
    ensures forall t :: 0 <= t < d ==> EnumLoop(ex, bounds, F, d, vals, best, x).vals[F[t]] == vals[F[t]]
    decreases |F| - d, 0, bounds[F[d]] - x + 1
  {
    if x <= bounds[F[d]] {
      var child := Enum(ex, bounds, F, d + 1, vals[F[d] := x], best);
      EnumFrame(ex, bounds, F, d + 1, vals[F[d] := x], best);
      EnumLoopFrame(ex, bounds, F, d, child.vals, if child.value < best then child.value else best, x + 1);
    }
  }

  /** Below the leaf depth the answer never exceeds the best so far. */
  lemma {:induction false} EnumLoopAtMostBest(ex: Exprs, bounds: seq<int>, F: seq<int>, d: nat, vals: seq<int>, best: int, x: int)
    requires ShapedExprs(ex) && |vals| == |bounds| == |ex.free| && d < |F| && IndicesIn(F, |vals|)
    ensures EnumLoop(ex, bounds, F, d, vals, best, x).value <= best
    decreases bounds[F[d]] - x + 1
  {
    if x <= bounds[F[d]] {
      var child := Enum(ex, bounds, F, d + 1, vals[F[d] := x], best);
      EnumLoopAtMostBest(ex, bounds, F, d, child.vals, if child.value < best then child.value else best, x + 1);
    }
  }

  /** w completes the variables fixed so far (F[..d], as in vals) with
      values in the box [0, bound] for the rest. */
  predicate InBox(bounds: seq<int>, F: seq<int>, d: nat, vals: seq<int>, w: seq<int>)
    requires |bounds| == |vals| && d <= |F| && IndicesIn(F, |vals|)
  {
    |w| == |vals|
    && (forall t :: 0 <= t < d ==> w[F[t]] == vals[F[t]])
    && (forall t :: d <= t < |F| ==> 0 <= w[F[t]] <= bounds[F[t]])
  }

  /** The answer of `evaluate` on a complete assignment. */
  function LeafValue(ex: Exprs, w: seq<int>): int
    requires ShapedExprs(ex) && |w| == |ex.free|
  {
    Evaluate(ex, w).value
  }

  /** The search answers at most the leaf value of every assignment in the
      box below it. */
  lemma {:induction false} EnumLower(ex: Exprs, bounds: seq<int>, F: seq<int>, d: nat, vals: seq<int>, best: int, w: seq<int>)
    requires ShapedExprs(ex) && Triangular(ex) && |vals| == |bounds| == |ex.free| && d <= |F| && ListsFree(ex, F)
    requires InBox(bounds, F, d, vals, w)
    ensures Enum(ex, bounds, F, d, vals, best).value <= LeafValue(ex, w)
    decreases |F| - d, 1, 0
  {
    if d == |F| {
      forall k | 0 <= k < |vals| && ex.free[k] ensures vals[k] == w[k] {
        var t :| 0 <= t < |F| && F[t] == k;
      }
      EvalLoopCongruent(ex, vals, w, |vals|, 0);
    } else {
      EnumLoopLower(ex, bounds, F, d, vals, best, 0, w);
    }
  }

  lemma {:induction false} EnumLoopLower(ex: Exprs, bounds: seq<int>, F: seq<int>, d: nat, vals: seq<int>, best: int, x: int, w: seq<int>)
    requires ShapedExprs(ex) && Triangular(ex) && |vals| == |bounds| == |ex.free| && d < |F| && ListsFree(ex, F)
    requires InBox(bounds, F, d, vals, w) && x <= w[F[d]]
    ensures EnumLoop(ex, bounds, F, d, vals, best, x).value <= LeafValue(ex, w)
    decreases |F| - d, 0, bounds[F[d]] - x + 1
  {
    var next := vals[F[d] := x];
    var child := Enum(ex, bounds, F, d + 1, next, best);
    var best' := if child.value < best then child.value else best;
    if x == w[F[d]] {
      assert InBox(bounds, F, d + 1, next, w);
      EnumLower(ex, bounds, F, d + 1, next, best, w);
      EnumLoopAtMostBest(ex, bounds, F, d, child.vals, best', x + 1);
    } else {
      EnumFrame(ex, bounds, F, d + 1, next, best);
      assert InBox(bounds, F, d, child.vals, w);
      EnumLoopLower(ex, bounds, F, d, child.vals, best', x + 1, w);
    }
  }

  /** The search's answer is the best so far or the leaf value of some
      assignment in the box below it. */
  lemma {:induction false} EnumWitness(ex: Exprs, bounds: seq<int>, F: seq<int>, d: nat, vals: seq<int>, best: int)
    returns (w: seq<int>)
    requires ShapedExprs(ex) && |vals| == |bounds| == |ex.free| && d <= |F| && ListsFree(ex, F)
    ensures var r := Enum(ex, bounds, F, d, vals, best).value;
      (d < |F| && r == best) || (InBox(bounds, F, d, vals, w) && r == LeafValue(ex, w))
    decreases |F| - d, 1, 0
  {
    if d == |F| {
      w := vals;
    } else {
      w := EnumLoopWitness(ex, bounds, F, d, vals, best, 0);
    }
  }

  lemma {:induction false} EnumLoopWitness(ex: Exprs, bounds: seq<int>, F: seq<int>, d: nat, vals: seq<int>, best: int, x: int)
    returns (w: seq<int>)
    requires ShapedExprs(ex) && |vals| == |bounds| == |ex.free| && d < |F| && ListsFree(ex, F) && 0 <= x
    ensures var r := EnumLoop(ex, bounds, F, d, vals, best, x).value;
      r == best || (InBox(bounds, F, d, vals, w) && r == LeafValue(ex, w))
    decreases |F| - d, 0, bounds[F[d]] - x + 1
  {
    w := vals;
    if x <= bounds[F[d]] {
      var next := vals[F[d] := x];
      var child := Enum(ex, bounds, F, d + 1, next, best);
      var best' := if child.value < best then child.value else best;
      EnumFrame(ex, bounds, F, d + 1, next, best);
      var rest := EnumLoopWitness(ex, bounds, F, d, child.vals, best', x + 1);
      var r := EnumLoop(ex, bounds, F, d, child.vals, best', x + 1).value;
      if r != best' {
        w := rest;
        forall t | 0 <= t < d ensures w[F[t]] == vals[F[t]] {
          assert w[F[t]] == child.vals[F[t]] == next[F[t]];
        }
      } else if best' != best {
        w := EnumWitness(ex, bounds, F, d + 1, next, best);
        assert InBox(bounds, F, d, vals, w);
      }
    }
  }
}
