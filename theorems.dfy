/**
  What the null space method guarantees, proved about the specification
  `Solve` (and so, through its postcondition, about `NullSpaceMethod`).

  The central notion is stationarity of an objective (H, f) restricted to a
  basis N at a point Z: N^T (H Z + f) == 0, i.e. the gradient of the objective
  has no component along the directions N leaves free. Each level makes its own
  objective stationary for the basis it was restricted to, and every later move
  of Z is along columns that the earlier objectives' restricted Hessians
  annihilate, so every processed objective stays stationary to the end.
*/
module LexminTheorems {
  import opened Matrices
  import opened Lexmin

  /** The objective (h, g), restricted to basis n, is stationary at z: n^T (h z + g) == 0. */
  ghost predicate Stationary(n: Matrix, h: Matrix, g: Matrix, z: Matrix) {
    && n.Valid() && Shape(h, n.rows, n.rows) && Shape(z, n.rows, z.cols) && Shape(g, n.rows, z.cols)
    && RestrictedGradient(n, h, z, g) == Zeros(n.cols, z.cols)
  }

  /**
    Moving along the columns of b leaves the restricted gradient of h under n
    unchanged: n^T h b == 0.
  */
  ghost predicate Frozen(n: Matrix, h: Matrix, b: Matrix) {
    && n.Valid() && Shape(h, n.rows, n.rows) && Shape(b, n.rows, b.cols)
    && Mul(Transpose(n), Mul(h, b)) == Zeros(n.cols, b.cols)
  }

  /** Precondition of `Sweep`. */
  ghost predicate SweepReady(st: SolverState, h: seq<Matrix>, f: seq<Matrix>, i: nat, oracle: Oracle) {
    OracleSound(oracle) && Consistent(st) && LevelsAgree(h, f, st.basis.rows, st.point.cols) && i <= |h|
  }

  // ------------------------------------------------------------ algebra

  /** t^T h (n m) regrouped as (t^T h n) m. */
  lemma Regroup(t: Matrix, h: Matrix, n: Matrix, m: Matrix)
    requires t.Valid() && Shape(h, t.cols, t.cols) && Shape(n, t.cols, n.cols) && Shape(m, n.cols, m.cols)
    ensures Mul(t, Mul(h, Mul(n, m))) == Mul(Mul(t, Mul(h, n)), m)
  {
    MulAssoc(h, n, m);
    MulAssoc(t, Mul(h, n), m);
  }

  /**
    The restricted gradient of (h, g) under nj after z moves to n y + z is the
    old one plus (nj^T h n) y.
  */
  lemma GradientAfterMove(nj: Matrix, h: Matrix, g: Matrix, n: Matrix, y: Matrix, z: Matrix)
    requires nj.Valid() && Shape(h, nj.rows, nj.rows) && Shape(z, nj.rows, z.cols) && Shape(g, nj.rows, z.cols)
    requires Shape(n, nj.rows, n.cols) && Shape(y, n.cols, z.cols)
    ensures RestrictedGradient(nj, h, Add(Mul(n, y), z), g)
         == Add(Mul(Mul(Transpose(nj), Mul(h, n)), y), RestrictedGradient(nj, h, z, g))
  {
    var t, ny := Transpose(nj), Mul(n, y);
    MulAddLeft(h, ny, z);
    AddAssoc(Mul(h, ny), Mul(h, z), g);
    MulAddLeft(t, Mul(h, ny), Add(Mul(h, z), g));
    Regroup(t, h, n, y);
  }

  // ---------------------------------------------------- one objective

  /**
    The payoff of one level: with the routine's answer, the objective just
    processed is stationary at the new point under the basis it was restricted
    to, and (when the loop goes on) the narrowed basis lies in directions its
    restricted Hessian annihilates.
  */
  lemma LevelPayoff(st: SolverState, h: Matrix, g: Matrix, factorization: string, oracle: Oracle)
    requires OracleSound(oracle) && Consistent(st)
    requires Shape(h, st.basis.rows, st.basis.rows) && Shape(g, st.basis.rows, st.point.cols)
    requires Level(st, h, g, factorization, oracle).Success?
    ensures var step := Level(st, h, g, factorization, oracle).value;
      && Stationary(st.basis, h, g, step.next.point)
      && (!step.done ==> Frozen(st.basis, h, step.next.basis))
  {
    var n, z := st.basis, st.point;
    var fr, hr := RestrictedGradient(n, h, z, g), RestrictedHessian(n, h);
    var ans := oracle(hr, Neg(fr), factorization, st.bounds).value;
    assert SolvesAffine(hr, Neg(fr), ans);
    GradientAfterMove(n, h, g, n, ans.solution, z);
    AddNegLeft(fr);
    if ans.basis.cols != 0 {
      Regroup(Transpose(n), h, n, ans.basis);
    }
  }

  /**
    An earlier objective (hj, gj) under basis nj that is stationary at the
    current point, and frozen along the current basis, stays so after a level.
  */
  lemma LevelKeeps(st: SolverState, h: Matrix, g: Matrix, factorization: string, oracle: Oracle,
                   nj: Matrix, hj: Matrix, gj: Matrix)
    requires OracleSound(oracle) && Consistent(st)
    requires Shape(h, st.basis.rows, st.basis.rows) && Shape(g, st.basis.rows, st.point.cols)
    requires Level(st, h, g, factorization, oracle).Success?
    requires Stationary(nj, hj, gj, st.point) && Frozen(nj, hj, st.basis)
    ensures var step := Level(st, h, g, factorization, oracle).value;
      && Stationary(nj, hj, gj, step.next.point)
      && (!step.done ==> Frozen(nj, hj, step.next.basis))
  {
    var n, z := st.basis, st.point;
    var fr, hr := RestrictedGradient(n, h, z, g), RestrictedHessian(n, h);
    var ans := oracle(hr, Neg(fr), factorization, st.bounds).value;
    assert SolvesAffine(hr, Neg(fr), ans);
    GradientAfterMove(nj, hj, gj, n, ans.solution, z);
    MulZeroLeft(nj.cols, ans.solution);
    AddZeroLeft(Zeros(nj.cols, z.cols));
    if ans.basis.cols != 0 {
      Regroup(Transpose(nj), hj, n, ans.basis);
      MulZeroLeft(nj.cols, ans.basis);
    }
  }

  /**
    Absent bounds stay absent; after a level that narrows the basis, present
    bounds are literally (zeros(n, 1), ones(n, 1)), whatever they were; on the
    exit path they are not touched.
  */
  lemma LevelBounds(st: SolverState, h: Matrix, g: Matrix, factorization: string, oracle: Oracle)
    requires OracleSound(oracle) && Consistent(st)
    requires Shape(h, st.basis.rows, st.basis.rows) && Shape(g, st.basis.rows, st.point.cols)
    requires Level(st, h, g, factorization, oracle).Success?
    ensures var step := Level(st, h, g, factorization, oracle).value;
      && (step.next.bounds.None? <==> st.bounds.None?)
      && (step.done ==> step.next.bounds == st.bounds)
      && (!step.done && st.bounds.Some? ==>
            step.next.bounds == Some(Bounds(Zeros(st.basis.rows, 1), Ones(st.basis.rows, 1))))
  {
    var step := Level(st, h, g, factorization, oracle).value;
    if !step.done && st.bounds.Some? {
      BoundsRecentred(step.next.basis, st.bounds);
    }
  }

  /** The bounds update computes (-(N 0), 1 - N 0) == (zeros(n, 1), ones(n, 1)). */
  lemma BoundsRecentred(n: Matrix, bounds: Option<Bounds>)
    requires n.Valid() && bounds.Some?
    ensures UpdateBounds(n, bounds) == Some(Bounds(Zeros(n.rows, 1), Ones(n.rows, 1)))
  {
    MulZeroRight(n, 1);
    NegZeros(n.rows, 1);
    OneMinusZeros(n.rows, 1);
  }

  /** At the start (N = I, Z = 0) the restricted coefficients are the objective's own. */
  lemma InitialRestriction(h: Matrix, g: Matrix, bounds: Option<Bounds>)
    requires h.Valid() && h.rows == h.cols && Shape(g, h.rows, g.cols)
    ensures var st := Initial(h.rows, g.cols, bounds);
      && st.basis == Identity(h.rows) && st.point == Zeros(h.rows, g.cols)
      && RestrictedGradient(st.basis, h, st.point, g) == g
      && RestrictedHessian(st.basis, h) == h
  {
    var n := h.rows;
    TransposeIdentity(n);
    MulZeroRight(h, g.cols);
    AddZeroLeft(g);
    MulIdentityLeft(g);
    MulIdentityRight(h);
    MulIdentityLeft(h);
  }

  /** A symmetric quadratic coefficient stays symmetric in reduced coordinates. */
  lemma RestrictedHessianSymmetric(n: Matrix, h: Matrix)
    requires n.Valid() && Shape(h, n.rows, n.rows) && Symmetric(h)
    ensures Symmetric(RestrictedHessian(n, h))
  {
    var t := Transpose(n);
    TransposeMul(t, Mul(h, n));
    TransposeMul(h, n);
    TransposeTranspose(n);
    MulAssoc(t, h, n);
  }

  // -------------------------------------------------------- whole runs

  /** The bases the objectives from i on are restricted to, one per objective read. */
  ghost function Bases(st: SolverState, h: seq<Matrix>, f: seq<Matrix>, i: nat, factorization: string, oracle: Oracle)
    : (bs: seq<Matrix>)
    requires SweepReady(st, h, f, i, oracle)
    ensures |bs| <= |h| - i
    ensures i < |h| ==> |bs| >= 1 && bs[0] == st.basis
    decreases |h| - i
  {
    if i == |h| then []
    else
      match Level(st, h[i], f[i], factorization, oracle)
      case Failure(_) => [st.basis]
      case Success(step) =>
        if step.done then [st.basis]
        else [st.basis] + Bases(step.next, h, f, i + 1, factorization, oracle)
  }

  /**
    Each basis of `bs` is no wider than the one before, and lies in directions
    the restricted Hessian of the objective before it annihilates; `bs[j]` is
    the basis of objective i + j.
  */
  ghost predicate Narrowing(bs: seq<Matrix>, h: seq<Matrix>, i: nat) {
    && i + |bs| <= |h|
    && forall j :: 0 < j < |bs| ==> bs[j].cols <= bs[j - 1].cols && Frozen(bs[j - 1], h[i + j - 1], bs[j])
  }

  /** Every basis of `bs` is a valid matrix with n rows and at most m columns. */
  ghost predicate WithinBasis(bs: seq<Matrix>, n: nat, m: nat) {
    forall j :: 0 <= j < |bs| ==> bs[j].Valid() && bs[j].rows == n && bs[j].cols <= m
  }

  lemma ConsNarrowing(b: Matrix, rest: seq<Matrix>, h: seq<Matrix>, i: nat)
    requires Narrowing(rest, h, i + 1)
    requires |rest| > 0 ==> rest[0].cols <= b.cols && Frozen(b, h[i], rest[0])
    ensures Narrowing([b] + rest, h, i)
  {
  }

  /**
    Every basis has n rows, each is no wider than the one before, and each
    lies in directions the previous objective's restricted Hessian annihilates.
  */
  lemma {:induction false} BasesNarrow(st: SolverState, h: seq<Matrix>, f: seq<Matrix>, i: nat,
                                       factorization: string, oracle: Oracle)
    requires SweepReady(st, h, f, i, oracle)
    ensures WithinBasis(Bases(st, h, f, i, factorization, oracle), st.basis.rows, st.basis.cols)
    ensures Narrowing(Bases(st, h, f, i, factorization, oracle), h, i)
    decreases |h| - i
  {
    if i < |h| {
      var r := Level(st, h[i], f[i], factorization, oracle);
      if r.Success? && !r.value.done {
        var next := r.value.next;
        LevelPayoff(st, h[i], f[i], factorization, oracle);
        BasesNarrow(next, h, f, i + 1, factorization, oracle);
        var rest := Bases(next, h, f, i + 1, factorization, oracle);
        assert Bases(st, h, f, i, factorization, oracle) == [st.basis] + rest;
        ConsNarrowing(st.basis, rest, h, i);
      }
    }
  }

  /**
    Stationarity is kept to the end: if the objectives before i, under the
    bases `prior`, are stationary at the current point and frozen along the
    current basis, then at the point the sweep returns every objective read so
    far, before i or from i on, is stationary under its own basis.
  */
  lemma {:induction false} SweepStationary(st: SolverState, h: seq<Matrix>, f: seq<Matrix>, i: nat,
                                           factorization: string, oracle: Oracle, prior: seq<Matrix>)
    requires SweepReady(st, h, f, i, oracle)
    requires |prior| == i
    requires forall j :: 0 <= j < i ==> Stationary(prior[j], h[j], f[j], st.point) && Frozen(prior[j], h[j], st.basis)
    requires Sweep(st, h, f, i, factorization, oracle).Success?
    ensures var bs := prior + Bases(st, h, f, i, factorization, oracle);
      forall j :: 0 <= j < |bs| ==> Stationary(bs[j], h[j], f[j], Sweep(st, h, f, i, factorization, oracle).value)
    decreases |h| - i
  {
    if i < |h| {
      var step := Level(st, h[i], f[i], factorization, oracle).value;
      LevelPayoff(st, h[i], f[i], factorization, oracle);
      forall j | 0 <= j < i
        ensures Stationary(prior[j], h[j], f[j], step.next.point)
        ensures !step.done ==> Frozen(prior[j], h[j], step.next.basis)
      {
        LevelKeeps(st, h[i], f[i], factorization, oracle, prior[j], h[j], f[j]);
      }
      var bs := prior + Bases(st, h, f, i, factorization, oracle);
      if step.done {
        assert bs == prior + [st.basis];
      } else {
        var prior' := prior + [st.basis];
        SweepStationary(step.next, h, f, i + 1, factorization, oracle, prior');
        assert bs == prior' + Bases(step.next, h, f, i + 1, factorization, oracle);
      }
    }
  }

  /** The bases of a whole solve; the first is the identity. */
  ghost function SolveBases(h: seq<Matrix>, f: seq<Matrix>, factorization: string, bounds: Option<Bounds>, oracle: Oracle)
    : (bs: seq<Matrix>)
    requires OracleSound(oracle) && EntryChecks(h, f) && InputsAgree(h, f)
    ensures 1 <= |bs| <= |h| && bs[0] == Identity(h[0].rows)
  {
    Bases(Initial(h[0].rows, f[0].cols, bounds), h, f, 0, factorization, oracle)
  }

  /**
    The returned point makes every objective that was read stationary under
    the basis it was restricted to; the first of those bases is the identity
    and the later ones only narrow.
  */
  lemma SolveStationary(h: seq<Matrix>, f: seq<Matrix>, factorization: string, bounds: Option<Bounds>, oracle: Oracle)
    requires OracleSound(oracle) && InputsAgree(h, f)
    requires Solve(h, f, factorization, bounds, oracle).Success?
    ensures var bs := SolveBases(h, f, factorization, bounds, oracle);
      var z := Solve(h, f, factorization, bounds, oracle).value;
      && (forall j :: 0 <= j < |bs| ==> Stationary(bs[j], h[j], f[j], z))
      && WithinBasis(bs, h[0].rows, h[0].rows)
      && Narrowing(bs, h, 0)
  {
    var st := Initial(h[0].rows, f[0].cols, bounds);
    SweepStationary(st, h, f, 0, factorization, oracle, []);
    BasesNarrow(st, h, f, 0, factorization, oracle);
  }

  /** The objective of highest priority is solved exactly over the whole space: H[0] Z + f[0] == 0. */
  lemma SolveFirstObjectiveExact(h: seq<Matrix>, f: seq<Matrix>, factorization: string, bounds: Option<Bounds>,
                                  oracle: Oracle)
    requires OracleSound(oracle) && InputsAgree(h, f)
    requires Solve(h, f, factorization, bounds, oracle).Success?
    ensures var z := Solve(h, f, factorization, bounds, oracle).value;
      Add(Mul(h[0], z), f[0]) == Zeros(h[0].rows, f[0].cols)
  {
    var z := Solve(h, f, factorization, bounds, oracle).value;
    SolveStationary(h, f, factorization, bounds, oracle);
    var n := h[0].rows;
    TransposeIdentity(n);
    MulIdentityLeft(Add(Mul(h[0], z), f[0]));
  }

  /**
    Once the sweep has stopped before its last objective (an early exit or a
    failure of the routine), the objectives after the ones it read are never
    looked at: any list agreeing on the objectives read gives the same result.
  */
  lemma {:induction false} SweepIgnoresRest(st: SolverState, h: seq<Matrix>, f: seq<Matrix>,
                                            h2: seq<Matrix>, f2: seq<Matrix>, i: nat,
                                            factorization: string, oracle: Oracle)
    requires SweepReady(st, h, f, i, oracle) && SweepReady(st, h2, f2, i, oracle)
    requires i + |Bases(st, h, f, i, factorization, oracle)| < |h|
    requires i + |Bases(st, h, f, i, factorization, oracle)| <= |h2|
    requires forall j :: i <= j < i + |Bases(st, h, f, i, factorization, oracle)| ==> h2[j] == h[j] && f2[j] == f[j]
    ensures Sweep(st, h2, f2, i, factorization, oracle) == Sweep(st, h, f, i, factorization, oracle)
    decreases |h| - i
  {
    var r := Level(st, h[i], f[i], factorization, oracle);
    if r.Success? && !r.value.done {
      var next := r.value.next;
      assert Bases(st, h, f, i, factorization, oracle) == [st.basis] + Bases(next, h, f, i + 1, factorization, oracle);
      SweepIgnoresRest(next, h, f, h2, f2, i + 1, factorization, oracle);
    }
  }

  /**
    If a solve stops before its last objective, appending, removing or
    replacing objectives after the ones it read does not change its result.
  */
  lemma SolveIgnoresRest(h: seq<Matrix>, f: seq<Matrix>, h2: seq<Matrix>, f2: seq<Matrix>,
                          factorization: string, bounds: Option<Bounds>, oracle: Oracle)
    requires OracleSound(oracle) && EntryChecks(h, f) && InputsAgree(h, f) && InputsAgree(h2, f2)
    requires |SolveBases(h, f, factorization, bounds, oracle)| < |h|
    requires |SolveBases(h, f, factorization, bounds, oracle)| <= |h2| == |f2|
    requires forall j :: 0 <= j < |SolveBases(h, f, factorization, bounds, oracle)| ==> h2[j] == h[j] && f2[j] == f[j]
    ensures Solve(h2, f2, factorization, bounds, oracle) == Solve(h, f, factorization, bounds, oracle)
  {
    assert EntryChecks(h2, f2);
    SweepIgnoresRest(Initial(h[0].rows, f[0].cols, bounds), h, f, h2, f2, 0, factorization, oracle);
  }
}
