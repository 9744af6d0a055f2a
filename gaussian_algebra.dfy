/** The elimination of day10/GaussianSolver, stated over exact reals.

    The Java code works on `double` and treats any magnitude below 1e-8 as
    zero; here the arithmetic is exact and those tolerance tests are exact
    zero tests. Equation j reads  Σ_i E[j][i]·x[i] + K[j] = 0  (K starts as
    minus the target), and a pivoted variable v carries the expression
    x[v] = Σ_i VC[v][i]·x[i] + VK[v]. */
module GaussianAlgebra {
  import opened Optional

  type Vec = seq<real>
  type Matrix = seq<Vec>

  predicate IsMatrix(M: Matrix, rows: nat, cols: nat)
  {
    |M| == rows && forall r :: 0 <= r < |M| ==> |M[r]| == cols
  }

  /** Σ_{i<n} a[i]·x[i], accumulated from the left. */
  function DotN(a: Vec, x: Vec, n: nat): real
    requires n <= |a| == |x|
  {
    if n == 0 then 0.0 else DotN(a, x, n - 1) + a[n - 1] * x[n - 1]
  }

  /** Σ a[i]·x[i]. */
  function Dot(a: Vec, x: Vec): real
    requires |a| == |x|
  {
    DotN(a, x, |a|)
  }

  function Zeros(n: nat): (z: Vec)
    ensures |z| == n && forall i :: 0 <= i < n ==> z[i] == 0.0
  {
    seq(n, _ => 0.0)
  }

  /** Row k of the identity: the expression 1·x[k] + 0 of a free variable. */
  function Unit(n: nat, k: nat): (u: Vec)
    ensures |u| == n && forall i :: 0 <= i < n ==> u[i] == (if i == k then 1.0 else 0.0)
  {
    seq(n, i => if i == k then 1.0 else 0.0)
  }

  function Identity(n: nat): (M: Matrix)
    ensures IsMatrix(M, n, n)
  {
    seq(n, k requires 0 <= k < n => Unit(n, k))
  }

  /** Dot is linear: if s = a + c·b pointwise, then s·x = a·x + c·(b·x). */
  lemma DotCombine(a: Vec, b: Vec, c: real, s: Vec, x: Vec)
    requires |a| == |b| == |s| == |x|
    requires forall i :: 0 <= i < |s| ==> s[i] == a[i] + c * b[i]
    ensures Dot(s, x) == Dot(a, x) + c * Dot(b, x)
  {
    DotNCombine(a, b, c, s, x, |a|);
  }

  lemma {:induction false} DotNCombine(a: Vec, b: Vec, c: real, s: Vec, x: Vec, n: nat)
    requires n <= |a| == |b| == |s| == |x|
    requires forall i :: 0 <= i < |s| ==> s[i] == a[i] + c * b[i]
    ensures DotN(s, x, n) == DotN(a, x, n) + c * DotN(b, x, n)
  {
    if n > 0 {
      DotNCombine(a, b, c, s, x, n - 1);
      var t := x[n - 1];
      assert (a[n - 1] + c * b[n - 1]) * t == a[n - 1] * t + c * (b[n - 1] * t);
    }
  }

  /** Changing entry v of a changes a·x by the change times x[v]. */
  lemma DotUpdate(a: Vec, v: nat, val: real, x: Vec)
    requires v < |a| == |x|
    ensures Dot(a[v := val], x) == Dot(a, x) + (val - a[v]) * x[v]
  {
    DotNUpdate(a, v, val, x, |a|);
  }

  lemma {:induction false} DotNUpdate(a: Vec, v: nat, val: real, x: Vec, n: nat)
    requires v < |a| == |x| && v < n <= |a|
    ensures DotN(a[v := val], x, n) == DotN(a, x, n) + (val - a[v]) * x[v]
  {
    if v == n - 1 {
      DotNAgree(a[v := val], a, x, n - 1);
    } else {
      DotNUpdate(a, v, val, x, n - 1);
    }
  }

  /** Dot products over the first n entries depend only on those entries. */
  lemma {:induction false} DotNAgree(a: Vec, b: Vec, x: Vec, n: nat)
    requires n <= |a| == |b| == |x|
    requires forall i :: 0 <= i < n ==> a[i] == b[i]
    ensures DotN(a, x, n) == DotN(b, x, n)
  {
    if n > 0 {
      DotNAgree(a, b, x, n - 1);
    }
  }

  lemma DotZeroRow(a: Vec, x: Vec)
    requires |a| == |x| && forall i :: 0 <= i < |a| ==> a[i] == 0.0
    ensures Dot(a, x) == 0.0
  {
    DotNZeroRow(a, x, |a|);
  }

  lemma {:induction false} DotNZeroRow(a: Vec, x: Vec, n: nat)
    requires n <= |a| == |x| && forall i :: 0 <= i < |a| ==> a[i] == 0.0
    ensures DotN(a, x, n) == 0.0
  {
    if n > 0 {
      DotNZeroRow(a, x, n - 1);
    }
  }

  /** Entries multiplied by a zero coefficient do not matter. */
  lemma DotSparse(a: Vec, x: Vec, y: Vec)
    requires |a| == |x| == |y|
    requires forall i :: 0 <= i < |a| ==> a[i] == 0.0 || x[i] == y[i]
    ensures Dot(a, x) == Dot(a, y)
  {
    DotNSparse(a, x, y, |a|);
  }

  lemma {:induction false} DotNSparse(a: Vec, x: Vec, y: Vec, n: nat)
    requires n <= |a| == |x| == |y|
    requires forall i :: 0 <= i < |a| ==> a[i] == 0.0 || x[i] == y[i]
    ensures DotN(a, x, n) == DotN(a, y, n)
  {
    if n > 0 {
      DotNSparse(a, x, y, n - 1);
      assert a[n - 1] * x[n - 1] == a[n - 1] * y[n - 1];
    }
  }

  /** With no negative term, the dot product is at least any one of its terms. */
  lemma DotAtLeastTerm(a: Vec, x: Vec, v: nat)
    requires v < |a| == |x|
    requires forall i :: 0 <= i < |a| ==> a[i] * x[i] >= 0.0
    ensures Dot(a, x) >= a[v] * x[v]
  {
    DotNAtLeastTerm(a, x, v, |a|);
  }

  lemma {:induction false} DotNAtLeastTerm(a: Vec, x: Vec, v: nat, n: nat)
    requires v < n <= |a| == |x|
    requires forall i :: 0 <= i < |a| ==> a[i] * x[i] >= 0.0
    ensures DotN(a, x, n) >= a[v] * x[v]
  {
    DotNNonneg(a, x, n - 1);
    if v < n - 1 {
      DotNAtLeastTerm(a, x, v, n - 1);
    }
  }

  lemma {:induction false} DotNNonneg(a: Vec, x: Vec, n: nat)
    requires n <= |a| == |x|
    requires forall i :: 0 <= i < |a| ==> a[i] * x[i] >= 0.0
    ensures DotN(a, x, n) >= 0.0
  {
    if n > 0 {
      DotNNonneg(a, x, n - 1);
    }
  }

  /** The expression `performElimination` extracts for x[v] from row e:
      every other coefficient divided by the pivot p = -row[v], and 0 on v. */
  function PivotRow(row: Vec, v: nat, p: real): (r: Vec)
    requires v < |row| && p != 0.0
    ensures |r| == |row| && r[v] == 0.0
  {
    seq(|row|, i requires 0 <= i < |row| => if i == v then 0.0 else row[i] / p)
  }

  /** Row `row` after substituting x[v] := vc·x + vk, where c = row[v]:
      the v-entry is cleared and c·vc is added. */
  function SubstRow(row: Vec, v: nat, c: real, vc: Vec): (r: Vec)
    requires |vc| == |row|
    ensures |r| == |row|
  {
    seq(|row|, i requires 0 <= i < |row| => (if i == v then 0.0 else row[i]) + c * vc[i])
  }

  /** An equation with a non-zero v-coefficient holds exactly when x[v]
      equals the expression extracted from it. */
  lemma PivotDefinition(row: Vec, k: real, v: nat, x: Vec)
    requires v < |row| == |x| && row[v] != 0.0
    ensures (Dot(row, x) + k == 0.0) <==> (x[v] == Dot(PivotRow(row, v, -row[v]), x) + k / -row[v])
  {
    var p := -row[v];
    var z := row[v := 0.0];
    DotUpdate(row, v, 0.0, x);
    var zero := Zeros(|z|);
    var pr := PivotRow(row, v, p);
    DotCombine(zero, z, 1.0 / p, pr, x);
    DotZeroRow(zero, x);
    ScalarPivot(Dot(row, x), k, x[v], Dot(z, x), Dot(pr, x), p);
  }

  lemma ScalarPivot(d: real, k: real, xv: real, dz: real, q: real, p: real)
    requires p != 0.0 && dz == d + (0.0 - -p) * xv && q == 0.0 + (1.0 / p) * dz
    ensures (d + k == 0.0) <==> (xv == q + k / p)
  {
    assert p * q == d + p * xv;
    assert p * (k / p) == k;
    assert p * (q + k / p) == d + p * xv + k;
    if xv == q + k / p {
      assert p * xv == p * (q + k / p);
    }
  }

  /** Substituting x[v] := vc·x + vk into an equation (with c = row[v]):
      where x[v] equals that expression, the equation's value is unchanged. */
  lemma SubstPreserves(row: Vec, k: real, v: nat, vc: Vec, vk: real, x: Vec)
    requires v < |row| == |vc| == |x|
    requires x[v] == Dot(vc, x) + vk
    ensures Dot(SubstRow(row, v, row[v], vc), x) + (k + row[v] * vk) == Dot(row, x) + k
  {
    DotUpdate(row, v, 0.0, x);
    DotSubstRow(row, v, row[v], vc, x);
    ScalarSubst(Dot(SubstRow(row, v, row[v], vc), x), Dot(row[v := 0.0], x), Dot(row, x), row[v], x[v], Dot(vc, x), vk, k);
  }

  lemma DotSubstRow(row: Vec, v: nat, c: real, vc: Vec, x: Vec)
    requires v < |row| == |vc| == |x|
    ensures Dot(SubstRow(row, v, c, vc), x) == Dot(row[v := 0.0], x) + c * Dot(vc, x)
  {
    var sr := SubstRow(row, v, c, vc);
    var z := row[v := 0.0];
    forall i | 0 <= i < |sr| ensures sr[i] == z[i] + c * vc[i] {
    }
    DotCombine(z, vc, c, sr, x);
  }

  lemma ScalarSubst(ds: real, dz: real, d: real, c: real, xv: real, dv: real, vk: real, k: real)
    requires dz == d + (0.0 - c) * xv && ds == dz + c * dv && xv == dv + vk
    ensures ds + (k + c * vk) == d + k
  {
  }

  /** The variable expressions: `varCoeffs`, `varConstants`, `isFree`. */
  datatype Exprs = Exprs(coeffs: Matrix, consts: Vec, free: seq<bool>)

  /** The equations (`eqCoeffs`, `eqConstants`) together with the expressions. */
  datatype Elim = Elim(E: Matrix, K: Vec, vars: Exprs)

  predicate ShapedExprs(ex: Exprs)
  {
    IsMatrix(ex.coeffs, |ex.free|, |ex.free|) && |ex.consts| == |ex.free|
  }

  predicate Shaped(s: Elim)
  {
    ShapedExprs(s.vars) && IsMatrix(s.E, |s.K|, |s.vars.free|)
  }

  /** The constructor's expressions: every variable free, x[i] = 1·x[i] + 0. */
  function InitialExprs(n: nat): (ex: Exprs)
    ensures ShapedExprs(ex) && |ex.free| == n
  {
    Exprs(Identity(n), Zeros(n), seq(n, _ => true))
  }

  /** The equations `solve` builds: E = coefficients, K = -targets, over the
      first |targets| rows and the first n columns. */
  function InitialElim(A: seq<seq<int>>, t: seq<int>, n: nat): (s: Elim)
    requires |A| >= |t| && forall c :: 0 <= c < |t| ==> |A[c]| >= n
    ensures Shaped(s) && |s.K| == |t| && |s.vars.free| == n
  {
    Elim(seq(|t|, c requires 0 <= c < |t| => seq(n, v requires 0 <= v < n => A[c][v] as real)),
         seq(|t|, c requires 0 <= c < |t| => -(t[c] as real)),
         InitialExprs(n))
  }

  /** The first equation at or after e whose v-coefficient is non-zero. */
  function FirstPivot(E: Matrix, v: nat, e: nat): (r: Option<nat>)
    requires forall j :: 0 <= j < |E| ==> v < |E[j]|
    decreases |E| - e
    ensures r.Some? ==> e <= r.value < |E| && E[r.value][v] != 0.0
    ensures r.Some? ==> forall j :: e <= j < r.value ==> E[j][v] == 0.0
    ensures r.None? ==> forall j :: e <= j < |E| ==> E[j][v] == 0.0
  {
    if e >= |E| then None else if E[e][v] != 0.0 then Some(e) else FirstPivot(E, v, e + 1)
  }

  /** Pivot variable v on equation e: record its expression, mark it
      dependent, and substitute it into every equation that mentions it. */
  function Pivot(s: Elim, v: nat, e: nat): (t: Elim)
    requires Shaped(s) && v < |s.vars.free| && e < |s.K| && s.E[e][v] != 0.0
    ensures Shaped(t) && |t.K| == |s.K| && |t.vars.free| == |s.vars.free|
  {
    var p := -s.E[e][v];
    var vc := PivotRow(s.E[e], v, p);
    var vk := s.K[e] / p;
    Elim(seq(|s.E|, j requires 0 <= j < |s.E| =>
           if s.E[j][v] == 0.0 then s.E[j] else SubstRow(s.E[j], v, s.E[j][v], vc)),
         seq(|s.K|, j requires 0 <= j < |s.K| =>
           if s.E[j][v] == 0.0 then s.K[j] else s.K[j] + s.E[j][v] * vk),
         Exprs(s.vars.coeffs[v := vc], s.vars.consts[v := vk], s.vars.free[v := false]))
  }

  /** Iteration v of the outer loop of `performElimination`. */
  function Step(s: Elim, v: nat): (t: Elim)
    requires Shaped(s) && v < |s.vars.free|
    ensures Shaped(t) && |t.K| == |s.K| && |t.vars.free| == |s.vars.free|
  {
    match FirstPivot(s.E, v, 0)
    case None => s
    case Some(e) => Pivot(s, v, e)
  }

  /** The state after the first v iterations of the outer loop. */
  function Eliminate(s: Elim, v: nat): (t: Elim)
    requires Shaped(s) && v <= |s.vars.free|
    ensures Shaped(t) && |t.K| == |s.K| && |t.vars.free| == |s.vars.free|
  {
    if v == 0 then s else Step(Eliminate(s, v - 1), v - 1)
  }

  /** Every equation holds at x. */
  predicate Satisfies(E: Matrix, K: Vec, x: Vec)
    requires IsMatrix(E, |K|, |x|)
  {
    forall j :: 0 <= j < |E| ==> Dot(E[j], x) + K[j] == 0.0
  }

  /** Every dependent variable equals its expression at x. */
  predicate Defs(ex: Exprs, x: Vec)
    requires ShapedExprs(ex) && |x| == |ex.free|
  {
    forall w :: 0 <= w < |ex.free| && !ex.free[w] ==> x[w] == Dot(ex.coeffs[w], x) + ex.consts[w]
  }

  /** Columns 0..v-1 of every equation are zero. */
  predicate ColumnsCleared(E: Matrix, v: nat)
  {
    forall j, u :: 0 <= j < |E| && 0 <= u < v && u < |E[j]| ==> E[j][u] == 0.0
  }

  /** Variables v.. are still free. */
  predicate FreeFrom(ex: Exprs, v: nat)
  {
    forall w :: v <= w < |ex.free| ==> ex.free[w]
  }

  /** A dependent variable's expression mentions only variables of higher
      index: this is why `evaluate` walks the indices downwards. */
  predicate Triangular(ex: Exprs)
    requires ShapedExprs(ex)
  {
    forall w, u :: 0 <= u <= w < |ex.free| && !ex.free[w] ==> ex.coeffs[w][u] == 0.0
  }

  /** One iteration keeps the structure: column v is cleared in every
      equation, v's expression has zero coefficients on 0..v, and nothing
      but variable v changes among the expressions. */
  lemma StepStructure(s: Elim, v: nat)
    requires Shaped(s) && v < |s.vars.free|
    requires ColumnsCleared(s.E, v) && FreeFrom(s.vars, v) && Triangular(s.vars)
    ensures var t := Step(s, v);
      ColumnsCleared(t.E, v + 1) && FreeFrom(t.vars, v + 1) && Triangular(t.vars)
      && (forall w :: 0 <= w < |s.vars.free| && w != v ==>
            t.vars.free[w] == s.vars.free[w] && t.vars.coeffs[w] == s.vars.coeffs[w]
            && t.vars.consts[w] == s.vars.consts[w])
      && (t.vars.free[v] <==> FirstPivot(s.E, v, 0).None?)
  {
    var t := Step(s, v);
    match FirstPivot(s.E, v, 0)
    case None =>
    case Some(e) =>
      var p := -s.E[e][v];
      var vc := PivotRow(s.E[e], v, p);
      forall j, u | 0 <= j < |t.E| && 0 <= u < v + 1 && u < |t.E[j]|
        ensures t.E[j][u] == 0.0
      {
        if s.E[j][v] != 0.0 {
          assert t.E[j] == SubstRow(s.E[j], v, s.E[j][v], vc);
          assert vc[u] == 0.0 by {
            if u < v { assert s.E[e][u] == 0.0; }
          }
        }
      }
      forall w, u | 0 <= u <= w < |t.vars.free| && !t.vars.free[w]
        ensures t.vars.coeffs[w][u] == 0.0
      {
        if w == v && u < v {
          assert s.E[e][u] == 0.0;
        }
      }
  }

  /** One iteration keeps the solution set: the equations and expressions
      before it hold at x exactly when those after it do. */
  lemma StepEquiv(s: Elim, v: nat, x: Vec)
    requires Shaped(s) && v < |s.vars.free| && s.vars.free[v] && |x| == |s.vars.free|
    ensures var t := Step(s, v);
      (Satisfies(s.E, s.K, x) && Defs(s.vars, x)) <==> (Satisfies(t.E, t.K, x) && Defs(t.vars, x))
  {
    match FirstPivot(s.E, v, 0)
    case None =>
    case Some(e) =>
      var t := Pivot(s, v, e);
      var p := -s.E[e][v];
      PivotDefinition(s.E[e], s.K[e], v, x);
      PivotDefs(s, v, e, x);
      if x[v] == Dot(PivotRow(s.E[e], v, p), x) + s.K[e] / p {
        PivotEquations(s, v, e, x);
      }
      if Satisfies(t.E, t.K, x) && Defs(t.vars, x) {
        assert Dot(s.E[e], x) + s.K[e] == 0.0;
      }
  }

  /** The pivot keeps every expression and adds the one extracted for x[v]. */
  lemma PivotDefs(s: Elim, v: nat, e: nat, x: Vec)
    requires Shaped(s) && v < |s.vars.free| && s.vars.free[v] && |x| == |s.vars.free|
    requires e < |s.E| && s.E[e][v] != 0.0
    ensures var p := -s.E[e][v];
      Defs(Pivot(s, v, e).vars, x) <==>
      Defs(s.vars, x) && x[v] == Dot(PivotRow(s.E[e], v, p), x) + s.K[e] / p
  {
    var t := Pivot(s, v, e);
    if Defs(t.vars, x) {
      forall w | 0 <= w < |s.vars.free| && !s.vars.free[w]
        ensures x[w] == Dot(s.vars.coeffs[w], x) + s.vars.consts[w]
      {
        assert w != v && !t.vars.free[w];
      }
    }
  }

  /** Where x[v] equals its extracted expression, every substituted equation
      has the value it had before. */
  lemma PivotEquations(s: Elim, v: nat, e: nat, x: Vec)
    requires Shaped(s) && v < |s.vars.free| && |x| == |s.vars.free|
    requires e < |s.E| && s.E[e][v] != 0.0
    requires var p := -s.E[e][v]; x[v] == Dot(PivotRow(s.E[e], v, p), x) + s.K[e] / p
    ensures var t := Pivot(s, v, e);
      forall j :: 0 <= j < |s.E| ==> Dot(t.E[j], x) + t.K[j] == Dot(s.E[j], x) + s.K[j]
  {
    var t := Pivot(s, v, e);
    var p := -s.E[e][v];
    var vc := PivotRow(s.E[e], v, p);
    var vk := s.K[e] / p;
    forall j | 0 <= j < |s.E|
      ensures Dot(t.E[j], x) + t.K[j] == Dot(s.E[j], x) + s.K[j]
    {
      if s.E[j][v] != 0.0 {
        SubstPreserves(s.E[j], s.K[j], v, vc, vk, x);
      }
    }
  }

  /** After v iterations: columns 0..v-1 are cleared, variables v.. are free,
      and the expressions are triangular. */
  lemma {:induction false} EliminateStructure(s: Elim, v: nat)
    requires Shaped(s) && v <= |s.vars.free| && FreeFrom(s.vars, 0)
    ensures var t := Eliminate(s, v);
      ColumnsCleared(t.E, v) && FreeFrom(t.vars, v) && Triangular(t.vars)
  {
    if v > 0 {
      EliminateStructure(s, v - 1);
      StepStructure(Eliminate(s, v - 1), v - 1);
    }
  }

  /** After v iterations the original equations hold at x exactly when the
      current equations and the recorded expressions do. */
  lemma {:induction false} EliminateEquiv(s: Elim, v: nat, x: Vec)
    requires Shaped(s) && v <= |s.vars.free| && FreeFrom(s.vars, 0) && |x| == |s.vars.free|
    ensures var t := Eliminate(s, v);
      Satisfies(s.E, s.K, x) <==> (Satisfies(t.E, t.K, x) && Defs(t.vars, x))
  {
    if v > 0 {
      EliminateEquiv(s, v - 1, x);
      EliminateStructure(s, v - 1);
      StepEquiv(Eliminate(s, v - 1), v - 1, x);
    }
  }

  /** Once every column is cleared, an equation holds exactly when its
      constant is 0; so the remaining equations are constants only. */
  lemma ClearedSatisfies(E: Matrix, K: Vec, x: Vec)
    requires IsMatrix(E, |K|, |x|) && ColumnsCleared(E, |x|)
    ensures Satisfies(E, K, x) <==> forall j :: 0 <= j < |K| ==> K[j] == 0.0
  {
    forall j | 0 <= j < |E| ensures Dot(E[j], x) == 0.0 {
      DotZeroRow(E[j], x);
    }
  }

  /** The complete elimination: the original system holds at x exactly when
      every residual constant is 0 and every dependent variable equals its
      expression. */
  lemma EliminationCorrect(s: Elim, x: Vec)
    requires Shaped(s) && FreeFrom(s.vars, 0) && |x| == |s.vars.free|
    ensures var t := Eliminate(s, |s.vars.free|);
      Triangular(t.vars)
      && (Satisfies(s.E, s.K, x) <==> (forall j :: 0 <= j < |t.K| ==> t.K[j] == 0.0) && Defs(t.vars, x))
  {
    var t := Eliminate(s, |s.vars.free|);
    EliminateStructure(s, |s.vars.free|);
    EliminateEquiv(s, |s.vars.free|, x);
    ClearedSatisfies(t.E, t.K, x);
  }

  /** Whether a variable ends up free is decided at its own iteration and
      never changes afterwards: it is dependent exactly when some equation
      had a non-zero coefficient on it then. */
  lemma {:induction false} FreeDecidedAtOwnStep(s: Elim, v: nat, w: nat)
    requires Shaped(s) && FreeFrom(s.vars, 0) && w < v <= |s.vars.free|
    ensures Eliminate(s, v).vars.free[w] <==> FirstPivot(Eliminate(s, w).E, w, 0).None?
  {
    EliminateStructure(s, v - 1);
    StepStructure(Eliminate(s, v - 1), v - 1);
    if w < v - 1 {
      FreeDecidedAtOwnStep(s, v - 1, w);
    }
  }
}
