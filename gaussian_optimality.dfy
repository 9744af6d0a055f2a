/** What `GaussianSolver.solve` computes, and why: the upper bounds, the
    free-variable list, the answer as a function of the input, and the
    theorems that relate that answer to the non-negative integer solutions
    of the system. */
module GaussianOptimality {
  import opened GaussianAlgebra
  import opened GaussianSearch
  import opened Optional

  /** `freeVars` as `findMinimum` builds it from the first i flags. */
  function FreeIndices(free: seq<bool>, i: nat): (F: seq<int>)
    requires i <= |free|
    ensures IndicesIn(F, i)
  {
    if i == 0 then [] else FreeIndices(free, i - 1) + (if free[i - 1] then [i - 1] else [])
  }

  /** The list holds exactly the free indices below i, in increasing order. */
  lemma {:induction false} FreeIndicesExact(free: seq<bool>, i: nat)
    requires i <= |free|
    ensures var F := FreeIndices(free, i);
      (forall t :: 0 <= t < |F| ==> 0 <= F[t] < i && free[F[t]])
      && (forall t, u :: 0 <= t < u < |F| ==> F[t] < F[u])
      && (forall k :: 0 <= k < i && free[k] ==> k in F)
  {
    if i > 0 {
      FreeIndicesExact(free, i - 1);
    }
  }

  lemma FreeIndicesListsFree(ex: Exprs)
    ensures ListsFree(ex, FreeIndices(ex.free, |ex.free|))
  {
    FreeIndicesExact(ex.free, |ex.free|);
  }

  /** The shape `solve` reads: every one of the |t| rows used has at least
      as many entries as the first row. */
  predicate WellShaped(A: seq<seq<int>>, t: seq<int>)
  {
    |A| > 0 && |A| >= |t| && forall c :: 0 <= c < |t| ==> |A[c]| >= |A[0]|
  }

  /** The shortcut of `solve`: no constraints, no rows or no columns. */
  predicate Trivial(A: seq<seq<int>>, t: seq<int>)
  {
    |t| == 0 || |A| == 0 || |A[0]| == 0
  }

  /** `upperBounds[v]` after rows 0..m-1: the least target of a row in which
      v has a non-zero coefficient, Integer.MAX_VALUE if there is none. */
  function UpperBound(A: seq<seq<int>>, t: seq<int>, v: nat, m: nat): int
    requires m <= |t| <= |A| && forall c :: 0 <= c < m ==> v < |A[c]|
  {
    if m == 0 then IntMax
    else
      var b := UpperBound(A, t, v, m - 1);
      if A[m - 1][v] != 0 && t[m - 1] < b then t[m - 1] else b
  }

  /** The bound is below every target of a row mentioning v, and it is one
      of those targets unless no row mentions v. */
  lemma {:induction false} UpperBoundIsMin(A: seq<seq<int>>, t: seq<int>, v: nat, m: nat) returns (c: int)
    requires m <= |t| <= |A| && forall c :: 0 <= c < m ==> v < |A[c]|
    ensures forall j :: 0 <= j < m && A[j][v] != 0 ==> UpperBound(A, t, v, m) <= t[j]
    ensures (forall j :: 0 <= j < m ==> A[j][v] == 0) ==> UpperBound(A, t, v, m) == IntMax
    ensures UpperBound(A, t, v, m) == IntMax || (0 <= c < m && A[c][v] != 0 && UpperBound(A, t, v, m) == t[c])
  {
    c := -1;
    if m > 0 {
      c := UpperBoundIsMin(A, t, v, m - 1);
      if A[m - 1][v] != 0 && t[m - 1] < UpperBound(A, t, v, m - 1) {
        c := m - 1;
      }
    }
  }

  function Bounds(A: seq<seq<int>>, t: seq<int>, n: nat): (b: seq<int>)
    requires |t| <= |A| && forall c :: 0 <= c < |t| ==> n <= |A[c]|
    ensures |b| == n
  {
    seq(n, v requires 0 <= v < n => UpperBound(A, t, v, |t|))
  }

  /** Σ_{v<k} row[v]·x[v] over the integers. */
  function RowSum(row: seq<int>, x: seq<int>, k: nat): int
    requires k <= |row| && k <= |x|
  {
    if k == 0 then 0 else RowSum(row, x, k - 1) + row[k - 1] * x[k - 1]
  }

  /** x (n values) solves Σ_v A[c][v]·x[v] = t[c] for every constraint c. */
  predicate Solves(A: seq<seq<int>>, t: seq<int>, x: seq<int>)
    requires |A| >= |t| && forall c :: 0 <= c < |t| ==> |x| <= |A[c]|
  {
    forall c :: 0 <= c < |t| ==> RowSum(A[c], x, |x|) == t[c]
  }

  /** The state `solve` hands to `performElimination`. */
  function Start(A: seq<seq<int>>, t: seq<int>): (s: Elim)
    requires WellShaped(A, t)
    ensures Shaped(s) && FreeFrom(s.vars, 0) && |s.vars.free| == |A[0]|
  {
    InitialElim(A, t, |A[0]|)
  }

  /** The state after `performElimination`. */
  function Final(A: seq<seq<int>>, t: seq<int>): (s: Elim)
    requires WellShaped(A, t)
    ensures Shaped(s) && |s.vars.free| == |A[0]| && |s.K| == |t|
  {
    Eliminate(Start(A, t), |A[0]|)
  }

  predicate AllZero(t: seq<int>)
  {
    forall i :: 0 <= i < |t| ==> t[i] == 0
  }

  /** `solve(coefficients, targets)` as written. */
  function SolveSpec(A: seq<seq<int>>, t: seq<int>): int
    requires Trivial(A, t) || WellShaped(A, t)
  {
    if Trivial(A, t) then (if AllZero(t) then 0 else LongMax)
    else
      var n := |A[0]|;
      var fin := Final(A, t);
      Enum(fin.vars, Bounds(A, t, n), FreeIndices(fin.vars.free, n), 0, seq(n, _ => 0), LongMax).value
  }

  /** `solve` with the residual equations checked after the elimination: a
      left-over equation 0 = K with K ≠ 0 means there is no solution. */
  function CheckedSolveSpec(A: seq<seq<int>>, t: seq<int>): int
    requires Trivial(A, t) || WellShaped(A, t)
  {
    if Trivial(A, t) then (if AllZero(t) then 0 else LongMax)
    else if exists j :: 0 <= j < |t| && Final(A, t).K[j] != 0.0 then LongMax
    else SolveSpec(A, t)
  }

  /** The equation rows of the start state are the integer equations. */
  lemma {:induction false} RowSumAsDot(A: seq<seq<int>>, t: seq<int>, c: nat, x: seq<int>, k: nat)
    requires WellShaped(A, t) && c < |t| && |x| == |A[0]| && k <= |x|
    ensures DotN(Start(A, t).E[c], AsReals(x), k) == RowSum(A[c], x, k) as real
  {
    if k > 0 {
      RowSumAsDot(A, t, c, x, k - 1);
      assert (A[c][k - 1] as real) * (x[k - 1] as real) == (A[c][k - 1] * x[k - 1]) as real;
    }
  }

  lemma SolvesIffSatisfies(A: seq<seq<int>>, t: seq<int>, x: seq<int>)
    requires WellShaped(A, t) && |x| == |A[0]|
    ensures Solves(A, t, x) <==> Satisfies(Start(A, t).E, Start(A, t).K, AsReals(x))
  {
    var s := Start(A, t);
    forall c | 0 <= c < |t|
      ensures Dot(s.E[c], AsReals(x)) + s.K[c] == 0.0 <==> RowSum(A[c], x, |x|) == t[c]
    {
      RowSumAsDot(A, t, c, x, |x|);
    }
  }

  /** With non-negative coefficients and values, a row sum is at least any
      one of its terms. */
  lemma {:induction false} RowSumAtLeastTerm(row: seq<int>, x: seq<int>, k: nat, v: nat)
    requires v < k <= |row| && k <= |x|
    requires forall i :: 0 <= i < k ==> row[i] >= 0 && x[i] >= 0
    ensures RowSum(row, x, k) >= row[v] * x[v]
  {
    RowSumNonneg(row, x, k - 1);
    if v < k - 1 {
      RowSumAtLeastTerm(row, x, k - 1, v);
    }
  }

  lemma {:induction false} RowSumNonneg(row: seq<int>, x: seq<int>, k: nat)
    requires k <= |row| && k <= |x|
    requires forall i :: 0 <= i < k ==> row[i] >= 0 && x[i] >= 0
    ensures RowSum(row, x, k) >= 0
  {
    if k > 0 {
      RowSumNonneg(row, x, k - 1);
    }
  }

  /** With non-negative coefficients every non-negative solution lies in
      the box the search enumerates: x[v] never exceeds a finite bound. */
  lemma SolutionWithinBound(A: seq<seq<int>>, t: seq<int>, x: seq<int>, v: nat)
    requires WellShaped(A, t) && |x| == |A[0]| && v < |x|
    requires forall c, i :: 0 <= c < |t| && 0 <= i < |x| ==> A[c][i] >= 0
    requires NonNegative(x) && Solves(A, t, x)
    requires UpperBound(A, t, v, |t|) < IntMax
    ensures x[v] <= UpperBound(A, t, v, |t|)
  {
    var c := UpperBoundIsMin(A, t, v, |t|);
    var row := A[c];
    assert forall i :: 0 <= i < |x| ==> row[i] >= 0 && x[i] >= 0;
    RowSumAtLeastTerm(row, x, |x|, v);
    assert RowSum(row, x, |x|) == t[c];
    TermAtLeastValue(row[v], x[v]);
  }

  lemma TermAtLeastValue(a: int, y: int)
    requires a >= 1 && y >= 0
    ensures a * y >= y
  {
  }

  /** With no columns the only assignment is the empty one, and with no
      constraints it solves the system: the shortcut answers 0 exactly when
      that assignment is a solution (its sum is 0), Long.MAX_VALUE otherwise. */
  lemma TrivialSolveMeaning(A: seq<seq<int>>, t: seq<int>)
    requires Trivial(A, t) && |A| >= |t|
    ensures SolveSpec(A, t) == (if Solves(A, t, []) then 0 else LongMax)
    ensures CheckedSolveSpec(A, t) == SolveSpec(A, t)
  {
  }

  /** Every non-negative integer solution whose free entries lie in the
      search box bounds the answer from above, and the residual check then
      never fires. */
  lemma SolveAtMostEachSolution(A: seq<seq<int>>, t: seq<int>, x: seq<int>)
    requires WellShaped(A, t) && !Trivial(A, t) && |x| == |A[0]|
    requires NonNegative(x) && Solves(A, t, x)
    requires forall v :: 0 <= v < |x| ==> x[v] <= UpperBound(A, t, v, |t|)
    ensures CheckedSolveSpec(A, t) == SolveSpec(A, t) <= Sum(x, |x|)
  {
    var n := |A[0]|;
    var s0, fin := Start(A, t), Final(A, t);
    SolvesIffSatisfies(A, t, x);
    EliminationCorrect(s0, AsReals(x));
    EvalLoopComplete(fin.vars, x, n, 0, x);
    FreeIndicesListsFree(fin.vars);
    var F := FreeIndices(fin.vars.free, n);
    var bounds := Bounds(A, t, n);
    assert InBox(bounds, F, 0, seq(n, _ => 0), x);
    EnumLower(fin.vars, bounds, F, 0, seq(n, _ => 0), LongMax, x);
  }

  /** Optimality when every coefficient is non-negative and every bound is
      finite: the answer is at most the sum of every non-negative integer
      solution. */
  lemma SolveOptimal(A: seq<seq<int>>, t: seq<int>, x: seq<int>)
    requires WellShaped(A, t) && !Trivial(A, t) && |x| == |A[0]|
    requires forall c, i :: 0 <= c < |t| && 0 <= i < |x| ==> A[c][i] >= 0
    requires forall v :: 0 <= v < |x| ==> UpperBound(A, t, v, |t|) < IntMax
    requires NonNegative(x) && Solves(A, t, x)
    ensures CheckedSolveSpec(A, t) == SolveSpec(A, t) <= Sum(x, |x|)
  {
    forall v | 0 <= v < |x| ensures x[v] <= UpperBound(A, t, v, |t|) {
      SolutionWithinBound(A, t, x, v);
    }
    SolveAtMostEachSolution(A, t, x);
  }

  /** What `solve` as written guarantees about a finite answer: it is the
      sum of non-negative integers that satisfy every recorded pivot
      expression. The left-over equations are not consulted. */
  lemma SolveAttained(A: seq<seq<int>>, t: seq<int>) returns (x: seq<int>)
    requires WellShaped(A, t) && !Trivial(A, t)
    ensures |x| == |A[0]|
    ensures SolveSpec(A, t) == LongMax
      || (NonNegative(x) && Defs(Final(A, t).vars, AsReals(x)) && Sum(x, |x|) == SolveSpec(A, t))
  {
    var n := |A[0]|;
    var s0, fin := Start(A, t), Final(A, t);
    EliminateStructure(s0, n);
    FreeIndicesListsFree(fin.vars);
    var F := FreeIndices(fin.vars.free, n);
    var bounds := Bounds(A, t, n);
    var w := EnumWitness(fin.vars, bounds, F, 0, seq(n, _ => 0), LongMax);
    x := seq(n, _ => 0);
    if SolveSpec(A, t) != LongMax {
      EvalLoopSound(fin.vars, w, n, 0);
      x := Evaluate(fin.vars, w).vals;
    }
  }

  /** With the residual check, a finite answer is the sum of a non-negative
      integer solution of the system. */
  lemma CheckedSolveAttained(A: seq<seq<int>>, t: seq<int>) returns (x: seq<int>)
    requires WellShaped(A, t) && !Trivial(A, t)
    ensures |x| == |A[0]|
    ensures CheckedSolveSpec(A, t) == LongMax
      || (NonNegative(x) && Solves(A, t, x) && Sum(x, |x|) == CheckedSolveSpec(A, t))
  {
    x := SolveAttained(A, t);
    if CheckedSolveSpec(A, t) != LongMax {
      EliminationCorrect(Start(A, t), AsReals(x));
      SolvesIffSatisfies(A, t, x);
    }
  }

  /** The system x = 1, x = 2 has no solution, yet `solve` as written
      answers 1: row 0 pivots x to 1, and the left-over equation 0 = -1 of
      row 1 is never looked at. The residual check answers Long.MAX_VALUE. */
  lemma ResidualIgnored()
    ensures forall x :: |x| == 1 ==> !Solves([[1], [1]], [1, 2], x)
    ensures SolveSpec([[1], [1]], [1, 2]) == 1
    ensures CheckedSolveSpec([[1], [1]], [1, 2]) == LongMax
  {
    var A, t := [[1], [1]], [1, 2];
    forall x | |x| == 1 ensures !Solves(A, t, x) {
      assert RowSum(A[0], x, 1) == x[0] && RowSum(A[1], x, 1) == x[0];
    }
    ResidualFinal();
    var fin := Final(A, t);
    assert SolveSpec(A, t) == 1 by {
      var vc := fin.vars.coeffs[0];
      assert FreeIndices(fin.vars.free, 1) == [];
      var zero := seq(1, _ => 0);
      assert Dot(vc, AsReals(zero)) == 0.0 by {
        assert DotN(vc, AsReals(zero), 0) == 0.0;
      }
      assert Candidate(fin.vars, zero, 0) == 1.0;
      RoundIntegral(1);
      assert EvalLoop(fin.vars, zero[0 := 1], 0, 1).value == 1;
    }
    assert fin.K[1] != 0.0;
  }

  /** The state the elimination leaves for x = 1, x = 2: x is pinned to 1
      and the second equation is left over as 0 = -1. */
  lemma ResidualFinal()
    ensures var fin := Final([[1], [1]], [1, 2]);
      fin.vars.free == [false] && |fin.vars.coeffs[0]| == 1 && fin.vars.coeffs[0][0] == 0.0
      && fin.vars.consts[0] == 1.0 && fin.K[1] == -1.0
  {
    var A, t := [[1], [1]], [1, 2];
    var s0 := Start(A, t);
    assert s0.E[0][0] == 1.0 && s0.E[1][0] == 1.0;
    assert s0.K[0] == -1.0 && s0.K[1] == -2.0;
    assert FirstPivot(s0.E, 0, 0) == Some(0);
    var fin := Pivot(s0, 0, 0);
    assert Final(A, t) == Step(s0, 0) == fin;
    assert fin.vars.free == [false];
    var vc := fin.vars.coeffs[0];
    assert |vc| == 1 && vc[0] == 0.0 && fin.vars.consts[0] == 1.0;
    assert fin.K[1] == -1.0;
  }
}
