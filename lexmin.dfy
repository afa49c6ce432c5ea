/**
  A priori lexicographic multi-objective quadratic minimisation by the null
  space method.

  Objective i is E_i(x) = 0.5 * x^T H[i] x + x^T f[i]; objective 0 matters
  most. The solver threads a restriction basis N (n x m) and a feasible point
  Z (n x c) through the objectives in order: every feasible x is N * y + Z.
  For each objective it rewrites the coefficients in the reduced coordinate y,
  asks the affine null-space routine for a null-space basis Ni and a particular
  solution Y of the reduced stationarity system, moves Z to N * Y + Z, and
  either stops (Ni has no columns: nothing is left free) or narrows N to N * Ni.

  `Solve` is the specification of the solve as a recursive function;
  `NullSpaceMethod` is the loop, proved equal to it.
*/
module Lexmin {
  import opened Matrices

  datatype Option<T> = None | Some(value: T)

  /** Why a solve fails: a failed entry shape check, or a failure of the null-space routine. */
  datatype Error = DimensionMismatch | FactorizationFailure

  datatype Result<T> = Success(value: T) | Failure(error: Error)

  /** Optional box constraints (lower, upper), passed on to the null-space routine. */
  datatype Bounds = Bounds(lower: Matrix, upper: Matrix)

  /** What the null-space routine returns: a basis Ni of the null space and a particular solution Y. */
  datatype AffineNullSpace = AffineNullSpace(basis: Matrix, solution: Matrix)

  /**
    The external routine `affine_null_space(A, rhs, method, bounds)`. It is not
    part of this model; the solver is parameterised by it and relies only on
    `OracleSound`. `None` is a failure of the routine.
  */
  type Oracle = (Matrix, Matrix, string, Option<Bounds>) -> Option<AffineNullSpace>

  /**
    `ans` is a correct answer for the square system A * y == rhs: Y solves it,
    A annihilates every column of Ni, and Ni is m x m' with m' <= m.
  */
  ghost predicate SolvesAffine(a: Matrix, rhs: Matrix, ans: AffineNullSpace) {
    && Shape(a, a.rows, a.rows)
    && Shape(rhs, a.rows, rhs.cols)
    && Shape(ans.basis, a.rows, ans.basis.cols)
    && ans.basis.cols <= a.rows
    && Shape(ans.solution, a.rows, rhs.cols)
    && Mul(a, ans.solution) == rhs
    && Mul(a, ans.basis) == Zeros(a.rows, ans.basis.cols)
  }

  /** Every answer the routine gives for a square system is correct. */
  ghost predicate OracleSound(oracle: Oracle) {
    forall a: Matrix, rhs: Matrix, factorization: string, bounds: Option<Bounds> ::
      Shape(a, a.rows, a.rows) && Shape(rhs, a.rows, rhs.cols) && oracle(a, rhs, factorization, bounds).Some? ==>
        SolvesAffine(a, rhs, oracle(a, rhs, factorization, bounds).value)
  }

  /** The loop state: restriction basis N, feasible point Z and the current bounds. */
  datatype SolverState = SolverState(basis: Matrix, point: Matrix, bounds: Option<Bounds>)

  /** N is n x m and Z is n x c, for the same n. */
  predicate Consistent(st: SolverState) {
    st.basis.Valid() && Shape(st.point, st.basis.rows, st.point.cols)
  }

  /** Every objective has an n x n quadratic and an n x c linear coefficient. */
  predicate LevelsAgree(h: seq<Matrix>, f: seq<Matrix>, n: nat, c: nat) {
    |h| == |f| && forall i :: 0 <= i < |h| ==> Shape(h[i], n, n) && Shape(f[i], n, c)
  }

  /** The shape checks made on entry; only objective 0 is inspected. */
  predicate EntryChecks(h: seq<Matrix>, f: seq<Matrix>) {
    |h| > 0 && |h| == |f| && h[0].rows == h[0].cols && h[0].rows == f[0].rows
  }

  /**
    What callers must guarantee: once objective 0 passes the entry checks,
    every objective has the dimensions of objective 0.
  */
  predicate InputsAgree(h: seq<Matrix>, f: seq<Matrix>) {
    EntryChecks(h, f) ==> LevelsAgree(h, f, h[0].rows, f[0].cols)
  }

  /** Linear coefficient in reduced coordinates, N^T (H Z + f); it is m x c. */
  function RestrictedGradient(n: Matrix, h: Matrix, z: Matrix, g: Matrix): (r: Matrix)
    requires n.Valid() && Shape(h, n.rows, n.rows) && Shape(z, n.rows, z.cols) && Shape(g, n.rows, z.cols)
    ensures Shape(r, n.cols, z.cols)
  {
    Mul(Transpose(n), Add(Mul(h, z), g))
  }

  /** Quadratic coefficient in reduced coordinates, N^T (H N); it is m x m. */
  function RestrictedHessian(n: Matrix, h: Matrix): (r: Matrix)
    requires n.Valid() && Shape(h, n.rows, n.rows)
    ensures Shape(r, n.cols, n.cols)
  {
    Mul(Transpose(n), Mul(h, n))
  }

  /**
    Bounds after the basis has been narrowed to `n`: absent bounds stay
    absent; present ones become (-val, 1 - val) with val = n * 0.
  */
  function UpdateBounds(n: Matrix, bounds: Option<Bounds>): (r: Option<Bounds>)
    requires n.Valid()
    ensures r.None? <==> bounds.None?
  {
    if bounds.None? then None
    else
      var val := Mul(n, Zeros(n.cols, 1));
      Some(Bounds(Neg(val), ScalarMinus(1.0, val)))
  }

  /** The state after one objective, and whether the loop stops there. */
  datatype Step = Step(next: SolverState, done: bool)

  /** One iteration of the loop, for the objective (h, g). */
  function Level(st: SolverState, h: Matrix, g: Matrix, factorization: string, oracle: Oracle): (r: Result<Step>)
    requires OracleSound(oracle) && Consistent(st)
    requires Shape(h, st.basis.rows, st.basis.rows) && Shape(g, st.basis.rows, st.point.cols)
    ensures r.Failure? ==> r.error == FactorizationFailure
    ensures r.Success? ==> var nx := r.value.next;
      && Consistent(nx)
      && nx.basis.rows == st.basis.rows && nx.point.cols == st.point.cols
      && nx.basis.cols <= st.basis.cols
      && (r.value.done ==> nx.basis == st.basis && nx.bounds == st.bounds)
      && (!r.value.done ==> nx.basis.cols > 0)
  {
    var fr := RestrictedGradient(st.basis, h, st.point, g);
    var hr := RestrictedHessian(st.basis, h);
    match oracle(hr, Neg(fr), factorization, st.bounds)
    case None => Failure(FactorizationFailure)
    case Some(ans) =>
      var z := Add(Mul(st.basis, ans.solution), st.point);
      if ans.basis.cols == 0 then
        Success(Step(SolverState(st.basis, z, st.bounds), true))
      else
        var nb := Mul(st.basis, ans.basis);
        Success(Step(SolverState(nb, z, UpdateBounds(nb, st.bounds)), false))
  }

  /** The objectives from index i on, processed in order from state `st`. */
  function Sweep(st: SolverState, h: seq<Matrix>, f: seq<Matrix>, i: nat, factorization: string, oracle: Oracle)
    : (r: Result<Matrix>)
    requires OracleSound(oracle) && Consistent(st)
    requires LevelsAgree(h, f, st.basis.rows, st.point.cols) && i <= |h|
    ensures r.Failure? ==> r.error == FactorizationFailure
    ensures r.Success? ==> Shape(r.value, st.basis.rows, st.point.cols)
    decreases |h| - i
  {
    if i == |h| then Success(st.point)
    else
      match Level(st, h[i], f[i], factorization, oracle)
      case Failure(e) => Failure(e)
      case Success(step) =>
        if step.done then Success(step.next.point)
        else Sweep(step.next, h, f, i + 1, factorization, oracle)
  }

  /** The starting state: full search space N = I (n x n), Z = 0 (n x c). */
  function Initial(n: nat, c: nat, bounds: Option<Bounds>): (st: SolverState)
    ensures Consistent(st) && st.basis.rows == n && st.basis.cols == n && st.point.cols == c
    ensures st.bounds == bounds
  {
    SolverState(Identity(n), Zeros(n, c), bounds)
  }

  /**
    The whole solve. It fails with DimensionMismatch exactly when objective 0
    fails the entry checks; otherwise it returns an n x c point or the
    routine's failure.
  */
  function Solve(h: seq<Matrix>, f: seq<Matrix>, factorization: string, bounds: Option<Bounds>, oracle: Oracle)
    : (r: Result<Matrix>)
    requires OracleSound(oracle) && InputsAgree(h, f)
    ensures r == Failure(DimensionMismatch) <==> !EntryChecks(h, f)
    ensures r.Failure? && EntryChecks(h, f) ==> r.error == FactorizationFailure
    ensures r.Success? ==> EntryChecks(h, f) && Shape(r.value, h[0].rows, f[0].cols)
  {
    if !EntryChecks(h, f) then Failure(DimensionMismatch)
    else Sweep(Initial(h[0].rows, f[0].cols, bounds), h, f, 0, factorization, oracle)
  }

  /**
    The solver loop (`NullSpaceMethod`). As in the source, the factorization
    method defaults to "qr" and the bounds to none.
  */
  method NullSpaceMethod(h: seq<Matrix>, f: seq<Matrix>, oracle: Oracle,
                         factorization: string := "qr", bounds: Option<Bounds> := None)
    returns (r: Result<Matrix>)
    requires OracleSound(oracle) && InputsAgree(h, f)
    ensures r == Solve(h, f, factorization, bounds, oracle)
  {
    var k := |h|;
    if !(k > 0) || k != |f| {
      return Failure(DimensionMismatch);
    }
    var n := h[0].rows;
    if n != h[0].cols || n != f[0].rows {
      return Failure(DimensionMismatch);
    }
    var basis := Identity(n);
    var z := Zeros(f[0].rows, f[0].cols);
    var bnds := bounds;
    var i := 0;
    while i < k
      invariant i <= k
      invariant basis.Valid() && basis.rows == n && Shape(z, n, f[0].cols)
      invariant Sweep(SolverState(basis, z, bnds), h, f, i, factorization, oracle) == Solve(h, f, factorization, bounds, oracle)
    {
      ghost var st := SolverState(basis, z, bnds);
      var fi := RestrictedGradient(basis, h[i], z, f[i]);
      var hi := RestrictedHessian(basis, h[i]);
      var ans := oracle(hi, Neg(fi), factorization, bnds);
      if ans.None? {
        return Failure(FactorizationFailure);
      }
      var ni, y := ans.value.basis, ans.value.solution;
      z := Add(Mul(basis, y), z);
      if ni.cols == 0 {
        assert Sweep(st, h, f, i, factorization, oracle) == Success(z);
        break;
      }
      basis := Mul(basis, ni);
      bnds := UpdateBounds(basis, bnds);
      i := i + 1;
    }
    return Success(z);
  }
}
