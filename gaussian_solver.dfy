/** day10/GaussianSolver as the class it is: the expressions of the
    variables live in arrays that `performElimination` rewrites in place,
    and `enumerate` / `evaluate` reuse one `values` array. Each method is
    proved to compute the function of the same name in GaussianAlgebra and
    GaussianSearch, whose meaning GaussianOptimality establishes. Doubles
    are read as exact reals, so every comparison with EPS becomes an exact
    comparison with zero. */
module GaussianSolver {
  import opened GaussianAlgebra
  import opened GaussianSearch
  import opened GaussianOptimality

  /** The rows of a two-dimensional array as a matrix. */
  ghost function Rows(M: array2<real>): (R: Matrix)
    reads M
    ensures IsMatrix(R, M.Length0, M.Length1)
    ensures forall i, j {:trigger R[i][j]} :: 0 <= i < M.Length0 && 0 <= j < M.Length1 ==> R[i][j] == M[i, j]
  {
    seq(M.Length0, i requires 0 <= i < M.Length0 reads M =>
      seq(M.Length1, j requires 0 <= j < M.Length1 reads M => M[i, j]))
  }

  lemma RowsEqual(M: array2<real>, R: Matrix)
    requires IsMatrix(R, M.Length0, M.Length1)
    requires forall i, j :: 0 <= i < M.Length0 && 0 <= j < M.Length1 ==> M[i, j] == R[i][j]
    ensures Rows(M) == R
  {
    forall i | 0 <= i < M.Length0
      ensures Rows(M)[i] == R[i]
    {
    }
  }

  class GaussianSolver {
    const numVars: nat
    const numConstraints: nat
    /** x[v] = Σ_i varCoeffs[v, i]·x[i] + varConstants[v] */
    const varCoeffs: array2<real>
    const varConstants: array<real>
    const isFree: array<bool>
    const upperBounds: array<int>

    ghost predicate Valid()
    {
      varCoeffs.Length0 == numVars && varCoeffs.Length1 == numVars
      && varConstants.Length == numVars && isFree.Length == numVars
      && upperBounds.Length == numVars
    }

    /** The expressions held in the three arrays. */
    ghost function Vars(): (ex: Exprs)
      requires Valid()
      reads varCoeffs, varConstants, isFree
      ensures ShapedExprs(ex) && |ex.free| == numVars
    {
      Exprs(Rows(varCoeffs), varConstants[..], isFree[..])
    }

    /** Equation arrays of the right shape, separate from the solver's own. */
    ghost predicate Equations(eqCoeffs: array2<real>, eqConstants: array<real>)
    {
      eqCoeffs.Length0 == numConstraints && eqConstants.Length == numConstraints
      && eqCoeffs.Length1 == numVars
      && eqCoeffs != varCoeffs && eqConstants != varConstants
    }

    /** The equations together with the expressions. */
    ghost function State(eqCoeffs: array2<real>, eqConstants: array<real>): (s: Elim)
      requires Valid() && Equations(eqCoeffs, eqConstants)
      reads varCoeffs, varConstants, isFree, eqCoeffs, eqConstants
      ensures Shaped(s) && |s.K| == numConstraints && |s.vars.free| == numVars
    {
      Elim(Rows(eqCoeffs), eqConstants[..], Vars())
    }

    /** Every variable starts free, with the expression x[i] = 1·x[i] + 0. */
    constructor (numVars: nat, numConstraints: nat, upperBounds: array<int>)
      requires upperBounds.Length == numVars
      ensures Valid() && Vars() == InitialExprs(numVars)
      ensures this.numVars == numVars && this.numConstraints == numConstraints
      ensures this.upperBounds == upperBounds
      ensures fresh(varCoeffs) && fresh(varConstants) && fresh(isFree)
    {
      this.numVars := numVars;
      this.numConstraints := numConstraints;
      this.upperBounds := upperBounds;
      varCoeffs := new real[numVars, numVars]((_, _) => 0.0);
      varConstants := new real[numVars](_ => 0.0);
      isFree := new bool[numVars](_ => false);
      new;
      for i := 0 to numVars
        invariant forall r, c :: 0 <= r < numVars && 0 <= c < numVars ==>
          varCoeffs[r, c] == if r == c && r < i then 1.0 else 0.0
        invariant forall r :: 0 <= r < numVars ==> isFree[r] == (r < i)
        invariant forall r :: 0 <= r < numVars ==> varConstants[r] == 0.0
      {
        varCoeffs[i, i] := 1.0;
        isFree[i] := true;
      }
      RowsEqual(varCoeffs, Identity(numVars));
      assert varConstants[..] == Zeros(numVars);
      assert isFree[..] == seq(numVars, _ => true);
    }

    /** Eliminates the variables in index order: the first equation that
        mentions variable v defines it, and is substituted into all the
        equations. The result is `Eliminate` of the initial state. */
    method PerformElimination(eqCoeffs: array2<real>, eqConstants: array<real>)
      requires Valid() && Equations(eqCoeffs, eqConstants)
      modifies varCoeffs, varConstants, isFree, eqCoeffs, eqConstants
      ensures State(eqCoeffs, eqConstants) == Eliminate(old(State(eqCoeffs, eqConstants)), numVars)
    {
      ghost var s0 := State(eqCoeffs, eqConstants);
      for v := 0 to numVars
        invariant State(eqCoeffs, eqConstants) == Eliminate(s0, v)
      {
        ghost var s := State(eqCoeffs, eqConstants);
        for e := 0 to numConstraints
          invariant State(eqCoeffs, eqConstants) == s
          invariant FirstPivot(s.E, v, 0) == FirstPivot(s.E, v, e)
        {
          var pivot := -eqCoeffs[e, v];
          if pivot == 0.0 {
            continue;
          }
          PivotOn(eqCoeffs, eqConstants, v, e, pivot);
          break;
        }
      }
    }

    /** The body of the search loop once equation e has a non-zero pivot
        on x[v]: extract the expression of x[v], then substitute it. */
    method PivotOn(eqCoeffs: array2<real>, eqConstants: array<real>, v: nat, e: nat, pivot: real)
      requires Valid() && Equations(eqCoeffs, eqConstants)
      requires v < numVars && e < numConstraints && pivot == -eqCoeffs[e, v] && pivot != 0.0
      modifies varCoeffs, varConstants, isFree, eqCoeffs, eqConstants
      ensures State(eqCoeffs, eqConstants) == Pivot(old(State(eqCoeffs, eqConstants)), v, e)
    {
      ghost var s := State(eqCoeffs, eqConstants);
      ExtractPivot(eqCoeffs, eqConstants, v, e, pivot, s);
      Substitute(eqCoeffs, eqConstants, v);
      PivotSubstitutes(s, v, e);
    }

    /** Equation e solved for x[v]: the variable becomes dependent, with
        the row divided by the pivot -eqCoeffs[e, v] as its expression. */
    method ExtractPivot(eqCoeffs: array2<real>, eqConstants: array<real>, v: nat, e: nat, pivot: real, ghost s: Elim)
      requires Valid() && Equations(eqCoeffs, eqConstants) && s == State(eqCoeffs, eqConstants)
      requires v < numVars && e < numConstraints && pivot == -eqCoeffs[e, v] && pivot != 0.0
      modifies varCoeffs, varConstants, isFree
      ensures Vars() == Pivot(s, v, e).vars
    {
      ghost var t := Pivot(s, v, e);
      ghost var vc := t.vars.coeffs[v];
      assert vc == PivotRow(s.E[e], v, pivot);
      ghost var C0 := Rows(varCoeffs);
      isFree[v] := false;
      varConstants[v] := eqConstants[e] / pivot;
      ghost var F1, K1 := isFree[..], varConstants[..];
      for i := 0 to numVars
        invariant isFree[..] == F1 && varConstants[..] == K1
        invariant forall r, c :: 0 <= r < numVars && 0 <= c < numVars && r != v ==> varCoeffs[r, c] == C0[r][c]
        invariant forall c :: 0 <= c < i ==> varCoeffs[v, c] == vc[c]
      {
        varCoeffs[v, i] := if i == v then 0.0 else eqCoeffs[e, i] / pivot;
      }
      RowsEqual(varCoeffs, t.vars.coeffs);
    }

    /** Every equation with a non-zero coefficient c on x[v] gets c times
        the expression of x[v] in place of that term. */
    method Substitute(eqCoeffs: array2<real>, eqConstants: array<real>, v: nat)
      requires Valid() && Equations(eqCoeffs, eqConstants) && v < numVars
      modifies eqCoeffs, eqConstants
      ensures Rows(eqCoeffs) == SubstAll(old(Rows(eqCoeffs)), v, Vars().coeffs[v])
      ensures eqConstants[..] == SubstConsts(old(Rows(eqCoeffs)), old(eqConstants[..]), v, Vars().consts[v])
    {
      ghost var E0, K0 := Rows(eqCoeffs), eqConstants[..];
      ghost var vc, vk := Vars().coeffs[v], varConstants[v];
      ghost var T, TK := SubstAll(E0, v, vc), SubstConsts(E0, K0, v, vk);
      Splice(T, E0, 0);
      Splice(TK, K0, 0);
      for j := 0 to numConstraints
        invariant Rows(eqCoeffs) == T[..j] + E0[j..]
        invariant eqConstants[..] == TK[..j] + K0[j..]
      {
        Splice(T, E0, j);
        Splice(TK, K0, j);
        var coeff := eqCoeffs[j, v];
        assert coeff == E0[j][v];
        if coeff == 0.0 {
          continue;
        }
        SubstituteRow(eqCoeffs, j, v, coeff);
        AddTerm(eqConstants, j, coeff, varConstants[v], E0, K0, v);
      }
      Splice(T, E0, numConstraints);
      Splice(TK, K0, numConstraints);
    }

    /** Row j of the equations gets coeff times the expression of x[v] in
        place of its x[v] term; the other rows are untouched. */
    method SubstituteRow(eqCoeffs: array2<real>, j: nat, v: nat, coeff: real)
      requires Valid() && eqCoeffs.Length1 == numVars && eqCoeffs != varCoeffs
      requires j < eqCoeffs.Length0 && v < numVars && coeff == eqCoeffs[j, v]
      modifies eqCoeffs
      ensures Rows(eqCoeffs) ==
        old(Rows(eqCoeffs))[j := SubstRow(old(Rows(eqCoeffs))[j], v, coeff, Vars().coeffs[v])]
    {
      ghost var old0 := Rows(eqCoeffs);
      ghost var vc := Vars().coeffs[v];
      ghost var row := SubstRow(old0[j], v, coeff, vc);
      eqCoeffs[j, v] := 0.0;
      for i := 0 to numVars
        modifies eqCoeffs
        invariant forall r, c :: 0 <= r < eqCoeffs.Length0 && r != j && 0 <= c < numVars ==> eqCoeffs[r, c] == old0[r][c]
        invariant forall c :: 0 <= c < i ==> eqCoeffs[j, c] == row[c]
        invariant forall c :: i <= c < numVars ==> eqCoeffs[j, c] == if c == v then 0.0 else old0[j][c]
      {
        SubstRowAt(old0[j], v, coeff, vc, i, eqCoeffs[j, i], varCoeffs[v, i]);
        eqCoeffs[j, i] := eqCoeffs[j, i] + coeff * varCoeffs[v, i];
      }
      RowsEqual(eqCoeffs, old0[j := row]);
    }

    /** Lists the free variables in increasing order and searches every
        assignment of them within the bounds, starting from all zeros. */
    method FindMinimum() returns (r: int)
      requires Valid()
      requires forall v :: 0 <= v < numVars && isFree[v] ==> upperBounds[v] < IntMax
      ensures r == Enum(Vars(), upperBounds[..], FreeIndices(isFree[..], numVars), 0,
                        seq(numVars, _ => 0), LongMax).value
    {
      var freeVars := FreeVariables();
      FreeIndicesExact(isFree[..], numVars);
      var values := new int[numVars](_ => 0);
      assert values[..] == seq(numVars, _ => 0);
      r := Enumerate(freeVars, 0, values, LongMax);
    }

    /** The indices of the free variables, in increasing order, in an array
        of exactly their number. */
    method FreeVariables() returns (freeVars: array<int>)
      requires Valid()
      ensures fresh(freeVars) && freeVars[..] == FreeIndices(isFree[..], numVars)
    {
      var freeCount := 0;
      for i := 0 to numVars
        invariant freeCount == |FreeIndices(isFree[..], i)|
      {
        if isFree[i] {
          freeCount := freeCount + 1;
        }
      }
      freeVars := new int[freeCount];
      var idx := 0;
      for i := 0 to numVars
        invariant idx == |FreeIndices(isFree[..], i)| <= freeCount
        invariant freeVars[..idx] == FreeIndices(isFree[..], i)
      {
        FreeIndicesLength(isFree[..], i + 1, numVars);
        if isFree[i] {
          freeVars[idx] := i;
          idx := idx + 1;
        }
      }
      assert freeVars[..] == freeVars[..idx];
      FreeIndicesExact(isFree[..], numVars);
    }

    /** Tries every value 0..bound of the free variable at `depth`, searching
        the deeper ones for each, and keeps the least answer below `bestSoFar`. */
    method Enumerate(freeVars: array<int>, depth: nat, values: array<int>, bestSoFar: int) returns (r: int)
      requires Valid() && values.Length == numVars
      requires values != upperBounds && freeVars != values
      requires depth <= freeVars.Length && IndicesIn(freeVars[..], numVars)
      requires forall t :: depth <= t < freeVars.Length ==> upperBounds[freeVars[t]] < IntMax
      modifies values
      ensures Outcome(values[..], r)
        == Enum(Vars(), upperBounds[..], freeVars[..], depth, old(values[..]), bestSoFar)
      decreases freeVars.Length - depth
    {
      if depth == freeVars.Length {
        r := Evaluate(values);
        return;
      }
      var varIdx := freeVars[depth];
      var bound := upperBounds[varIdx];
      var best := bestSoFar;
      ghost var v0 := values[..];
      var x := 0;
      while x <= bound
        invariant EnumLoop(Vars(), upperBounds[..], freeVars[..], depth, values[..], best, x)
          == EnumLoop(Vars(), upperBounds[..], freeVars[..], depth, v0, bestSoFar, 0)
        decreases bound - x
      {
        values[varIdx] := x;
        var result := Enumerate(freeVars, depth + 1, values, best);
        if result < best {
          best := result;
        }
        x := x + 1;
      }
      r := best;
    }

    /** Reconstructs the variables from the last index down: a free one
        keeps its value, a dependent one is computed from its expression.
        A negative or non-integral value gives Long.MAX_VALUE; otherwise
        the value is stored and the sum of all of them returned. */
    method Evaluate(values: array<int>) returns (r: int)
      requires Valid() && values.Length == numVars
      modifies values
      ensures Outcome(values[..], r) == GaussianSearch.Evaluate(Vars(), old(values[..]))
    {
      ghost var v0, ex := values[..], Vars();
      ghost var target := EvalLoop(ex, v0, numVars, 0);
      var total := 0;
      var i: int := numVars - 1;
      while i >= 0
        invariant -1 <= i < numVars
        invariant EvalLoop(ex, values[..], i + 1, total) == target
      {
        ghost var vals := values[..];
        var x := ValueAt(values, i);
        assert x == Candidate(ex, vals, i);
        if x < 0.0 {
          EvalLoopReject(ex, vals, i, total, x);
          return LongMax;
        }
        var rounded := Round(x);
        if x != rounded as real {
          EvalLoopReject(ex, vals, i, total, x);
          return LongMax;
        }
        EvalLoopAccept(ex, vals, i, total, x, rounded);
        values[i] := rounded;
        assert values[..] == vals[i := rounded];
        total := total + rounded;
        i := i - 1;
      }
      r := total;
    }

    /** The value of x[i] under `values`: its own value when it is free,
        otherwise its expression evaluated term by term. */
    method ValueAt(values: array<int>, i: nat) returns (x: real)
      requires Valid() && values.Length == numVars && i < numVars
      ensures x == Candidate(Vars(), values[..], i)
    {
      if isFree[i] {
        x := values[i] as real;
      } else {
        ghost var row, xs := Vars().coeffs[i], AsReals(values[..]);
        x := varConstants[i];
        for j := 0 to numVars
          invariant x == varConstants[i] + DotN(row, xs, j)
        {
          var coeff, value := varCoeffs[i, j], values[j] as real;
          DotNStep(row, xs, j, coeff, value);
          x := x + coeff * value;
        }
      }
    }

    /** The equations of `solve` after elimination, with the solver that
        holds the expressions and the upper bounds. */
    static method Prepare(coefficients: seq<seq<int>>, targets: seq<int>)
      returns (solver: GaussianSolver, eqCoeffs: array2<real>, eqConstants: array<real>)
      requires WellShaped(coefficients, targets) && !Trivial(coefficients, targets)
      ensures fresh(solver) && fresh(solver.varCoeffs) && fresh(solver.varConstants) && fresh(solver.isFree)
      ensures solver.Valid() && solver.Equations(eqCoeffs, eqConstants)
      ensures solver.numVars == |coefficients[0]| && solver.numConstraints == |targets|
      ensures solver.State(eqCoeffs, eqConstants) == Final(coefficients, targets)
      ensures solver.upperBounds[..] == Bounds(coefficients, targets, |coefficients[0]|)
    {
      var numConstraints := |targets|;
      var numVars := |coefficients[0]|;
      var upperBounds := ComputeUpperBounds(coefficients, targets, numVars);
      solver := new GaussianSolver(numVars, numConstraints, upperBounds);
      eqCoeffs, eqConstants := LoadEquations(coefficients, targets);
      solver.PerformElimination(eqCoeffs, eqConstants);
    }

    /** The equation arrays of `solve`: row c holds the coefficients of
        constraint c and the constant -targets[c]. */
    static method LoadEquations(coefficients: seq<seq<int>>, targets: seq<int>)
      returns (eqCoeffs: array2<real>, eqConstants: array<real>)
      requires WellShaped(coefficients, targets) && !Trivial(coefficients, targets)
      ensures fresh(eqCoeffs) && fresh(eqConstants)
      ensures eqCoeffs.Length0 == |targets| && eqCoeffs.Length1 == |coefficients[0]|
      ensures Rows(eqCoeffs) == Start(coefficients, targets).E
      ensures eqConstants[..] == Start(coefficients, targets).K
    {
      var numConstraints := |targets|;
      var numVars := |coefficients[0]|;
      eqCoeffs := new real[numConstraints, numVars];
      eqConstants := new real[numConstraints];
      ghost var s := Start(coefficients, targets);
      for c := 0 to numConstraints
        modifies eqCoeffs, eqConstants
        invariant forall r, u :: 0 <= r < c && 0 <= u < numVars ==> eqCoeffs[r, u] == s.E[r][u]
        invariant forall r :: 0 <= r < c ==> eqConstants[r] == s.K[r]
      {
        eqConstants[c] := -(targets[c] as real);
        for v := 0 to numVars
          modifies eqCoeffs
          invariant forall r, u :: 0 <= r < c && 0 <= u < numVars ==> eqCoeffs[r, u] == s.E[r][u]
          invariant forall u :: 0 <= u < v ==> eqCoeffs[c, u] == s.E[c][u]
          invariant forall r :: 0 <= r <= c ==> eqConstants[r] == s.K[r]
        {
          eqCoeffs[c, v] := coefficients[c][v] as real;
        }
      }
      RowsEqual(eqCoeffs, s.E);
      assert eqConstants[..] == s.K;
    }

    /** `solve`: the least sum over the search, Long.MAX_VALUE when no
        candidate passes; the shortcut answers 0 or Long.MAX_VALUE. */
    static method Solve(coefficients: seq<seq<int>>, targets: seq<int>) returns (r: int)
      requires Trivial(coefficients, targets) || WellShaped(coefficients, targets)
      requires FreeBounded(coefficients, targets)
      ensures r == SolveSpec(coefficients, targets)
    {
      if |targets| == 0 || |coefficients| == 0 || |coefficients[0]| == 0 {
        var zero := AllZero(targets);
        return if zero then 0 else LongMax;
      }
      var solver, eqCoeffs, eqConstants := Prepare(coefficients, targets);
      r := solver.FindMinimum();
    }

    /** `solve` with a check of the residual equations before the search. */
    static method SolveChecked(coefficients: seq<seq<int>>, targets: seq<int>) returns (r: int)
      requires Trivial(coefficients, targets) || WellShaped(coefficients, targets)
      requires FreeBounded(coefficients, targets)
      ensures r == CheckedSolveSpec(coefficients, targets)
    {
      if |targets| == 0 || |coefficients| == 0 || |coefficients[0]| == 0 {
        var zero := AllZero(targets);
        return if zero then 0 else LongMax;
      }
      var solver, eqCoeffs, eqConstants := Prepare(coefficients, targets);
      for j := 0 to |targets|
        invariant forall k :: 0 <= k < j ==> eqConstants[k] == 0.0
      {
        if eqConstants[j] != 0.0 {
          return LongMax;
        }
      }
      r := solver.FindMinimum();
    }

    /** `computeUpperBounds`: for each variable, the least target among the
        rows that mention it, Integer.MAX_VALUE if none does. */
    static method ComputeUpperBounds(coefficients: seq<seq<int>>, targets: seq<int>, numVars: nat)
      returns (bounds: array<int>)
      requires |targets| <= |coefficients| && forall c :: 0 <= c < |targets| ==> numVars <= |coefficients[c]|
      ensures fresh(bounds) && bounds[..] == Bounds(coefficients, targets, numVars)
    {
      bounds := new int[numVars](_ => IntMax);
      for c := 0 to |targets|
        invariant forall u :: 0 <= u < numVars ==> bounds[u] == UpperBound(coefficients, targets, u, c)
      {
        for v := 0 to numVars
          invariant forall u :: 0 <= u < v ==> bounds[u] == UpperBound(coefficients, targets, u, c + 1)
          invariant forall u :: v <= u < numVars ==> bounds[u] == UpperBound(coefficients, targets, u, c)
        {
          if coefficients[c][v] != 0 {
            bounds[v] := if bounds[v] <= targets[c] then bounds[v] else targets[c];
          }
        }
      }
    }

    /** `allZero`. */
    static method AllZero(arr: seq<int>) returns (r: bool)
      ensures r <==> GaussianOptimality.AllZero(arr)
    {
      for i := 0 to |arr|
        invariant forall k :: 0 <= k < i ==> arr[k] == 0
      {
        if arr[i] != 0 {
          return false;
        }
      }
      return true;
    }
  }

  /** Every variable left free by the elimination has a bounding row, so
      the loop `x <= bound` of `enumerate` ends (a bound of
      Integer.MAX_VALUE would never be exceeded). */
  predicate FreeBounded(A: seq<seq<int>>, t: seq<int>)
    requires Trivial(A, t) || WellShaped(A, t)
  {
    !Trivial(A, t) ==>
      forall v :: 0 <= v < |A[0]| && Final(A, t).vars.free[v] ==> UpperBound(A, t, v, |t|) < IntMax
  }

  /** The equations after substituting x[v] = vc·x + ... into each one
      that mentions x[v]. */
  function SubstAll(E: Matrix, v: nat, vc: Vec): (T: Matrix)
    requires forall j :: 0 <= j < |E| ==> v < |E[j]| == |vc|
    ensures |T| == |E| && forall j :: 0 <= j < |E| ==> |T[j]| == |E[j]|
  {
    seq(|E|, j requires 0 <= j < |E| => if E[j][v] == 0.0 then E[j] else SubstRow(E[j], v, E[j][v], vc))
  }

  function SubstConsts(E: Matrix, K: Vec, v: nat, vk: real): (T: Vec)
    requires |E| == |K| && forall j :: 0 <= j < |E| ==> v < |E[j]|
    ensures |T| == |K|
  {
    seq(|K|, j requires 0 <= j < |K| => if E[j][v] == 0.0 then K[j] else K[j] + E[j][v] * vk)
  }

  /** The first j entries of `done` followed by the rest of `rest`, one
      entry further along. */
  lemma Splice<T>(done: seq<T>, rest: seq<T>, j: nat)
    requires j <= |done| == |rest|
    ensures done[..0] + rest[0..] == rest && done[..|done|] + rest[|done|..] == done
    ensures j < |done| ==> (done[..j] + rest[j..])[j] == rest[j]
    ensures j < |done| ==> (done[..j] + rest[j..])[j := done[j]] == done[..j + 1] + rest[j + 1..]
    ensures j < |done| && done[j] == rest[j] ==> done[..j] + rest[j..] == done[..j + 1] + rest[j + 1..]
  {
    if j < |done| {
      assert (done[..j] + rest[j..])[j := done[j]] == done[..j + 1] + rest[j + 1..];
    }
  }

  /** The constant of equation j gains coeff times the constant vk of the
      substituted expression. */
  method AddTerm(eqConstants: array<real>, j: nat, coeff: real, vk: real, ghost E: Matrix, ghost K: Vec, ghost v: nat)
    requires |E| == |K| == eqConstants.Length && forall i :: 0 <= i < |E| ==> v < |E[i]|
    requires j < |K| && coeff == E[j][v] && coeff != 0.0 && K[j] == eqConstants[j]
    modifies eqConstants
    ensures eqConstants[..] == old(eqConstants[..])[j := SubstConsts(E, K, v, vk)[j]]
  {
    eqConstants[j] := eqConstants[j] + coeff * vk;
  }

  /** Entry i of a substituted row, in terms of values read from the arrays. */
  lemma SubstRowAt(row: Vec, v: nat, c: real, vc: Vec, i: nat, cur: real, y: real)
    requires |vc| == |row| && i < |row| && cur == (if i == v then 0.0 else row[i]) && y == vc[i]
    ensures SubstRow(row, v, c, vc)[i] == cur + c * y
  {
  }

  /** A value `evaluate` refuses ends the loop with Long.MAX_VALUE. */
  lemma EvalLoopReject(ex: Exprs, vals: seq<int>, i: nat, total: int, x: real)
    requires ShapedExprs(ex) && |vals| == |ex.free| && i < |vals|
    requires x == Candidate(ex, vals, i) && (x < 0.0 || x != Round(x) as real)
    ensures EvalLoop(ex, vals, i + 1, total) == Outcome(vals, LongMax)
  {
  }

  /** A value `evaluate` accepts is written back and added. */
  lemma EvalLoopAccept(ex: Exprs, vals: seq<int>, i: nat, total: int, x: real, rounded: int)
    requires ShapedExprs(ex) && |vals| == |ex.free| && i < |vals|
    requires x == Candidate(ex, vals, i) && !(x < 0.0) && rounded == Round(x) && x == rounded as real
    ensures EvalLoop(ex, vals, i + 1, total) == EvalLoop(ex, vals[i := rounded], i, total + rounded)
  {
  }

  lemma DotNStep(a: Vec, x: Vec, j: nat, c: real, y: real)
    requires j < |a| == |x| && c == a[j] && y == x[j]
    ensures DotN(a, x, j + 1) == DotN(a, x, j) + c * y
  {
  }

  /** The equations of a pivot step are the substituted ones. */
  lemma PivotSubstitutes(s: Elim, v: nat, e: nat)
    requires Shaped(s) && v < |s.vars.free| && e < |s.K| && s.E[e][v] != 0.0
    ensures var t := Pivot(s, v, e);
      t.E == SubstAll(s.E, v, t.vars.coeffs[v]) && t.K == SubstConsts(s.E, s.K, v, t.vars.consts[v])
  {
  }

  lemma {:induction false} FreeIndicesLength(free: seq<bool>, i: nat, j: nat)
    requires i <= j <= |free|
    ensures |FreeIndices(free, i)| <= |FreeIndices(free, j)|
    decreases j
  {
    if i < j {
      FreeIndicesLength(free, i, j - 1);
    }
  }
}
