# Lexicographic quadratic minimisation by the null space method

This project models `NullSpaceMethod`, the core of an a priori lexicographic
multi-objective optimiser. It takes k quadratic energies
E_i(x) = 0.5 x^T H[i] x + x^T f[i], with objective 0 the most important. It
returns a point that minimises E_0, then E_1 among the minimisers of E_0, and
so on.

The solver carries two values from one objective to the next:

- a restriction basis N (n x m), the directions that are still free;
- a feasible point Z (n x c).

It starts with N = I and Z = 0. For each objective, in priority order, it:

1. rewrites the coefficients in reduced coordinates:
   f' = N^T (H Z + f) and H' = N^T (H N);
2. asks the affine null-space routine for a null-space basis Ni of H' and a
   particular solution Y of H' Y = -f';
3. moves the point to Z = N Y + Z;
4. stops if Ni has no columns;
5. otherwise narrows the basis to N = N Ni and, if bounds were given,
   re-centres them.

The model is in three modules:

- `Matrices` (`matrices.dfy`): exact real matrices that carry their shape, and
  the algebra the proofs need. This covers associativity of the product,
  distributivity, the zero and identity laws, and the transpose of a product.
- `Lexmin` (`lexmin.dfy`): the data, the routine's contract, the per-objective
  step `Level`, and the recursive specification `Solve`. It also holds the
  imperative loop `NullSpaceMethod`, which is proved equal to `Solve` on every
  input.
- `LexminTheorems` (`theorems.dfy`): what the method guarantees. Each step
  makes its objective stationary: N^T (H Z + f) == 0 for the basis the
  objective was restricted to. Every later step keeps every earlier objective
  stationary, because Z afterwards only moves along columns that the earlier
  restricted Hessians annihilate. The lemmas also cover these facts:
  - the bases only narrow;
  - objective 0 is solved exactly;
  - after an early exit the later objectives are never read;
  - the bounds are reset to the literal (zeros(n, 1), ones(n, 1));
  - a symmetric H stays symmetric in reduced coordinates.

How the model represents the source:

- The affine null-space routine is external. It is a function-valued parameter
  `oracle`, and it also receives the method name and the current bounds.
  The solver relies only on `OracleSound`: every answer the routine gives is
  correct for its system. That means H' Y == rhs and H' Ni == 0, with Ni of
  size m x m' where m' <= m. The routine returning `None` stands for it
  raising; the solve then fails with `FactorizationFailure`.
- The entry `assert`s become `Failure(DimensionMismatch)`. Only objective 0 is
  checked, as in the source (lines 44-50). That the other objectives have
  matching shapes is a precondition (`InputsAgree`).
- Vectors are n x c matrices, where c is the column count of f[0] (1 in the
  documented use). Z starts as zeros of the shape of f[0] (line 56).
- The bounds update is reproduced literally:
  val = N * zeros(m', 1), bounds = (-val, 1 - val). This is always
  (zeros(n, 1), ones(n, 1)), which `LevelBounds` proves. These bounds have n
  rows, while the routine's next call works in m' reduced coordinates. The
  model passes them on unchanged, as the source does.

Where the source's own comments and its code disagree, the model follows the
code:

- The comment at line 71 calls Y a solution of Hi * x = fi. The call at
  line 72 passes -fi, so Y solves H' Y = -f'.
- The comment at line 88 gives the new bounds as (-Z, 1 - Z). Lines 89-90
  compute them from N * 0 instead, not from the current Z.

`NullSpaceMethod` keeps the source's defaults (line 17): the factorization
method is "qr" and the bounds are absent unless given.

## Model

| member | source | states |
|---|---|---|
| `Lexmin.NullSpaceMethod` | src/lexmin.py:17-101 | On every input the loop, with its early `break` and its error paths, returns exactly what `Solve` specifies. |
| `Lexmin.Solve` | src/lexmin.py:44-56 | Fails with DimensionMismatch exactly when objective 0 fails the entry checks: k > 0, len(H) == len(f), H[0] square of size n, f[0] with n rows. Any other failure is the routine's. A success is an n x c point. |
| `Lexmin.EntryChecks` | src/lexmin.py:44-50 | The entry asserts: k > 0, len(H) == len(f), H[0] square, and f[0] with as many rows as H[0]. Only objective 0 is inspected. |
| `Lexmin.SolvesAffine` | src/lexmin.py:68-72 | A correct answer of the null-space routine for a square system A y = rhs (called with A = H' and rhs = -f'): A Y == rhs, A Ni == 0, and Ni is m x m' with m' <= m. |
| `Lexmin.Sweep` | src/lexmin.py:58-92 | Processing the objectives in order fails only when the routine fails. On success it yields a point of the shape of Z. |
| `Lexmin.Level` | src/lexmin.py:58-90 | One iteration keeps N with n rows and Z as n x c. It never widens N. On the exit path N and the bounds are unchanged. A level that goes on leaves N with at least one column. |
| `Lexmin.RestrictedGradient` | src/lexmin.py:63-64 | For N of size n x m, N^T (H Z + f) is m x c. |
| `Lexmin.RestrictedHessian` | src/lexmin.py:65-66 | For N of size n x m, N^T (H N) is m x m. |
| `Lexmin.UpdateBounds` | src/lexmin.py:86-90 | Absent bounds stay absent. Present bounds stay present. |
| `Lexmin.Initial` | src/lexmin.py:52-56 | The start state is consistent: N is n x n and Z is n x c, and the bounds are those given. |
| `LexminTheorems.InitialRestriction` | src/lexmin.py:52-66 | At the start, N is the identity and Z is zero. The reduced coefficients of objective 0 are then H[0] and f[0] themselves. |
| `LexminTheorems.GradientAfterMove` | src/lexmin.py:63-78 | After Z becomes N Y + Z, the reduced gradient of any objective under any basis Nj grows by exactly (Nj^T H N) Y. |
| `LexminTheorems.LevelPayoff` | src/lexmin.py:64-84 | Given the routine's contract, the objective just processed is stationary at the new Z: N^T (H Z_new + f) == 0. When the loop goes on, N^T H (N Ni) == 0. |
| `LexminTheorems.LevelKeeps` | src/lexmin.py:78-84 | Take an earlier objective that is stationary at Z and frozen along N (Nj^T Hj N == 0). It stays stationary at the new Z, and frozen along the narrowed N. |
| `LexminTheorems.LevelBounds` | src/lexmin.py:79-90 | Bounds stay absent when absent. On the exit path they are untouched. After a level that goes on, present bounds are exactly (zeros(n, 1), ones(n, 1)). |
| `LexminTheorems.BoundsRecentred` | src/lexmin.py:86-90 | The literal update (-(N 0), 1 - N 0) equals (zeros(n, 1), ones(n, 1)). |
| `LexminTheorems.RestrictedHessianSymmetric` | src/lexmin.py:65-72 | If H is symmetric, the reduced H' = N^T (H N) given to the routine is symmetric. |
| `LexminTheorems.Bases` | src/lexmin.py:58-84 | Lists the bases of the objectives read, one per objective read. There are at most k - i of them, and the first is the current N. |
| `LexminTheorems.BasesNarrow` | src/lexmin.py:79-84 | Every basis has n rows. None is wider than the one before, so the restriction is monotone. Each basis is annihilated by the previous objective's reduced Hessian. |
| `LexminTheorems.SweepStationary` | src/lexmin.py:58-92 | Start with the earlier objectives stationary at Z and frozen along N. At the returned point, every objective read is stationary under its own basis. |
| `LexminTheorems.SolveBases` | src/lexmin.py:54-84 | The bases of a solve: between 1 and k of them, the first the n x n identity. |
| `LexminTheorems.SolveStationary` | src/lexmin.py:78-92 | For a successful solve, every objective read is stationary at the returned Z under its own basis. The bases have n rows and only narrow. Each is annihilated by the previous objective's reduced Hessian. |
| `LexminTheorems.SolveFirstObjectiveExact` | src/lexmin.py:54-78 | For a successful solve, the returned Z satisfies H[0] Z + f[0] == 0. |
| `LexminTheorems.SweepIgnoresRest` | src/lexmin.py:79-81 | Once the sweep stops before its last objective, by an exit or a failure, objectives past the ones read do not affect the result. |
| `LexminTheorems.SolveIgnoresRest` | src/lexmin.py:79-101 | Suppose a solve stops early. Any objective list that agrees on the objectives read, however many follow them, gives the same result. |
| `Matrices.MulAssoc` | src/lexmin.py:64-66 | (A B) C == A (B C). |
| `Matrices.MulAddLeft` | src/lexmin.py:64-78 | A (B + C) == A B + A C. |
| `Matrices.TransposeMul` | src/lexmin.py:64-66 | (A B)^T == B^T A^T. |
| `Matrices.MulIdentityLeft` | src/lexmin.py:54 | I A == A. |

## Left out

- `affine_null_space` (imported at line 14) is not part of this model. It is a
  parameter whose answers are assumed correct (`OracleSound`). Its rank
  decisions, tolerances, method names and use of the bounds are not modelled.
- SolveStationary: the source comment at line 92 says Z is then "the unique
  solution". The model proves stationarity of every objective read, not
  uniqueness or minimality. Those would need Ni to span the whole null space,
  and positive semidefinite H; the routine's contract promises neither.
- Floating point, sparse storage and numerical failure are not modelled.
  Arithmetic is exact over `real`.
- The reshape of a flat Y (lines 74-75) is not modelled. Y is taken as an
  m x c matrix from the start, and a 1-D f[0] is not modelled.
- Python's `assert` is modelled as the DimensionMismatch error. Running with
  assertions disabled (`python -O`) is not modelled.
- The `__main__` demo (lines 103-130) and the commented-out code (lines 40-42
  and 94-100) are not modelled. They generate and print test data, or hold
  code that was switched off.
- The truncation of `itertools.izip` is not modelled. It cannot occur after
  the length check at line 46.
- A zero objective can be inserted without changing Z, and objective order
  matters. Neither is stated. Both depend on which particular solution Y the
  routine picks, which its contract leaves open.
