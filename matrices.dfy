/**
  Dense real matrices with an explicit shape, and the algebra the restriction
  loop relies on: associativity of multiplication, distributivity over
  addition, zero and identity laws, and the transpose of a product.

  A matrix carries its number of rows and columns next to its entries, as a
  numpy array carries its shape, so that an m x 0 matrix (a trivial null-space
  basis) and a 0 x c matrix keep the dimension their entries cannot show.
*/
module Matrices {

  datatype Matrix = Matrix(rows: nat, cols: nat, entries: seq<seq<real>>) {
    /** The entries form a rows x cols rectangle. */
    predicate Valid() {
      |entries| == rows && forall i :: 0 <= i < |entries| ==> |entries[i]| == cols
    }
  }

  /** `a` is a valid matrix of shape r x c. */
  predicate Shape(a: Matrix, r: nat, c: nat) {
    a.Valid() && a.rows == r && a.cols == c
  }

  // ---------------------------------------------------------------- sums

  /** Sum of a sequence of reals. */
  function Sum(s: seq<real>): real
  {
    if |s| == 0 then 0.0 else s[0] + Sum(s[1..])
  }

  lemma {:induction false} SumZero(s: seq<real>)
    requires forall t :: 0 <= t < |s| ==> s[t] == 0.0
    ensures Sum(s) == 0.0
  {
    if |s| > 0 {
      SumZero(s[1..]);
    }
  }

  lemma {:induction false} SumAdd(s: seq<real>, u: seq<real>, w: seq<real>)
    requires |s| == |u| == |w|
    requires forall t :: 0 <= t < |w| ==> w[t] == s[t] + u[t]
    ensures Sum(w) == Sum(s) + Sum(u)
  {
    if |w| > 0 {
      SumAdd(s[1..], u[1..], w[1..]);
    }
  }

  lemma {:induction false} SumScale(s: seq<real>, x: real, w: seq<real>)
    requires |s| == |w|
    requires forall t :: 0 <= t < |w| ==> w[t] == x * s[t]
    ensures Sum(w) == x * Sum(s)
  {
    if |w| > 0 {
      SumScale(s[1..], x, w[1..]);
    }
  }

  /** A sequence that is zero except at position `k` sums to its entry at `k`. */
  lemma {:induction false} SumSingle(s: seq<real>, k: nat)
    requires k < |s|
    requires forall t :: 0 <= t < |s| && t != k ==> s[t] == 0.0
    ensures Sum(s) == s[k]
  {
    if k == 0 {
      SumZero(s[1..]);
    } else {
      SumSingle(s[1..], k - 1);
    }
  }

  /** Column `j` of a grid of reals. */
  function Column(g: seq<seq<real>>, j: nat): (col: seq<real>)
    requires forall i :: 0 <= i < |g| ==> j < |g[i]|
    ensures |col| == |g| && forall i :: 0 <= i < |g| ==> col[i] == g[i][j]
  {
    seq(|g|, i requires 0 <= i < |g| => g[i][j])
  }

  /**
    Summing a rectangular grid row by row gives the same total as summing it
    column by column.
  */
  lemma {:induction false} SumSwap(g: seq<seq<real>>, c: nat, rowSums: seq<real>, colSums: seq<real>)
    requires forall i :: 0 <= i < |g| ==> |g[i]| == c
    requires |rowSums| == |g| && forall i :: 0 <= i < |g| ==> rowSums[i] == Sum(g[i])
    requires |colSums| == c && forall j :: 0 <= j < c ==> colSums[j] == Sum(Column(g, j))
    ensures Sum(rowSums) == Sum(colSums)
  {
    if |g| == 0 {
      SumZero(colSums);
    } else {
      var rest := g[1..];
      var restCols := seq(c, j requires 0 <= j < c => Sum(Column(rest, j)));
      forall j | 0 <= j < c
        ensures colSums[j] == g[0][j] + restCols[j]
      {
        assert Column(g, j) == [g[0][j]] + Column(rest, j);
      }
      SumAdd(g[0], restCols, colSums);
      SumSwap(rest, c, rowSums[1..], restCols);
    }
  }

  // ----------------------------------------------------- basic matrices

  function Zeros(r: nat, c: nat): (z: Matrix)
    ensures Shape(z, r, c)
    ensures forall i, j :: 0 <= i < r && 0 <= j < c ==> z.entries[i][j] == 0.0
  {
    Matrix(r, c, seq(r, i => seq(c, j => 0.0)))
  }

  function Ones(r: nat, c: nat): (o: Matrix)
    ensures Shape(o, r, c)
    ensures forall i, j :: 0 <= i < r && 0 <= j < c ==> o.entries[i][j] == 1.0
  {
    Matrix(r, c, seq(r, i => seq(c, j => 1.0)))
  }

  function Identity(n: nat): (e: Matrix)
    ensures Shape(e, n, n)
    ensures forall i, j :: 0 <= i < n && 0 <= j < n ==> e.entries[i][j] == if i == j then 1.0 else 0.0
  {
    Matrix(n, n, seq(n, i => seq(n, j => if i == j then 1.0 else 0.0)))
  }

  // ---------------------------------------------------------- operations

  function Transpose(a: Matrix): (t: Matrix)
    requires a.Valid()
    ensures Shape(t, a.cols, a.rows)
    ensures forall i, j :: 0 <= i < a.cols && 0 <= j < a.rows ==> t.entries[i][j] == a.entries[j][i]
  {
    Matrix(a.cols, a.rows, seq(a.cols, i requires 0 <= i < a.cols => Column(a.entries, i)))
  }

  /** Entrywise products of two sequences of equal length. */
  function Products(u: seq<real>, v: seq<real>): (p: seq<real>)
    requires |u| == |v|
    ensures |p| == |u| && forall t :: 0 <= t < |u| ==> p[t] == u[t] * v[t]
  {
    seq(|u|, t requires 0 <= t < |u| => u[t] * v[t])
  }

  /** Inner product of two sequences of equal length. */
  function Dot(u: seq<real>, v: seq<real>): real
    requires |u| == |v|
  {
    Sum(Products(u, v))
  }

  /** Matrix product `a * b` (numpy's `a.dot(b)`). */
  function Mul(a: Matrix, b: Matrix): (p: Matrix)
    requires a.Valid() && b.Valid() && a.cols == b.rows
    ensures Shape(p, a.rows, b.cols)
  {
    Matrix(a.rows, b.cols,
      seq(a.rows, i requires 0 <= i < a.rows =>
        seq(b.cols, j requires 0 <= j < b.cols => Dot(a.entries[i], Column(b.entries, j)))))
  }

  /** Entry (i, j) of a product is row i of `a` against column j of `b`. */
  lemma MulAt(a: Matrix, b: Matrix, i: nat, j: nat)
    requires a.Valid() && b.Valid() && a.cols == b.rows
    requires i < a.rows && j < b.cols
    ensures Mul(a, b).entries[i][j] == Dot(a.entries[i], Column(b.entries, j))
  {
  }

  /** Entrywise sum `a + b`. */
  function Add(a: Matrix, b: Matrix): (s: Matrix)
    requires a.Valid() && Shape(b, a.rows, a.cols)
    ensures Shape(s, a.rows, a.cols)
    ensures forall i, j :: 0 <= i < a.rows && 0 <= j < a.cols ==> s.entries[i][j] == a.entries[i][j] + b.entries[i][j]
  {
    Matrix(a.rows, a.cols,
      seq(a.rows, i requires 0 <= i < a.rows =>
        seq(a.cols, j requires 0 <= j < a.cols => a.entries[i][j] + b.entries[i][j])))
  }

  /** Entrywise negation `-a`. */
  function Neg(a: Matrix): (s: Matrix)
    requires a.Valid()
    ensures Shape(s, a.rows, a.cols)
    ensures forall i, j :: 0 <= i < a.rows && 0 <= j < a.cols ==> s.entries[i][j] == - a.entries[i][j]
  {
    Matrix(a.rows, a.cols,
      seq(a.rows, i requires 0 <= i < a.rows =>
        seq(a.cols, j requires 0 <= j < a.cols => - a.entries[i][j])))
  }

  /** A scalar minus a matrix, broadcast entrywise (numpy's `x - a`). */
  function ScalarMinus(x: real, a: Matrix): (s: Matrix)
    requires a.Valid()
    ensures Shape(s, a.rows, a.cols)
    ensures forall i, j :: 0 <= i < a.rows && 0 <= j < a.cols ==> s.entries[i][j] == x - a.entries[i][j]
  {
    Matrix(a.rows, a.cols,
      seq(a.rows, i requires 0 <= i < a.rows =>
        seq(a.cols, j requires 0 <= j < a.cols => x - a.entries[i][j])))
  }

  ghost predicate Symmetric(a: Matrix) {
    a.Valid() && a.rows == a.cols && Transpose(a) == a
  }

  // ------------------------------------------------------------- algebra

  /** Two valid matrices of one shape with equal entries are equal. */
  lemma Ext(a: Matrix, b: Matrix)
    requires a.Valid() && Shape(b, a.rows, a.cols)
    requires forall i, j :: 0 <= i < a.rows && 0 <= j < a.cols ==> a.entries[i][j] == b.entries[i][j]
    ensures a == b
  {
    forall i | 0 <= i < a.rows
      ensures a.entries[i] == b.entries[i]
    {
    }
  }

  lemma AddZeroLeft(a: Matrix)
    requires a.Valid()
    ensures Add(Zeros(a.rows, a.cols), a) == a
  {
    Ext(Add(Zeros(a.rows, a.cols), a), a);
  }

  lemma AddNegLeft(a: Matrix)
    requires a.Valid()
    ensures Add(Neg(a), a) == Zeros(a.rows, a.cols)
  {
    Ext(Add(Neg(a), a), Zeros(a.rows, a.cols));
  }

  lemma AddAssoc(a: Matrix, b: Matrix, c: Matrix)
    requires a.Valid() && Shape(b, a.rows, a.cols) && Shape(c, a.rows, a.cols)
    ensures Add(Add(a, b), c) == Add(a, Add(b, c))
  {
    Ext(Add(Add(a, b), c), Add(a, Add(b, c)));
  }

  lemma NegZeros(r: nat, c: nat)
    ensures Neg(Zeros(r, c)) == Zeros(r, c)
  {
    Ext(Neg(Zeros(r, c)), Zeros(r, c));
  }

  lemma OneMinusZeros(r: nat, c: nat)
    ensures ScalarMinus(1.0, Zeros(r, c)) == Ones(r, c)
  {
    Ext(ScalarMinus(1.0, Zeros(r, c)), Ones(r, c));
  }

  lemma MulZeroLeft(r: nat, b: Matrix)
    requires b.Valid()
    ensures Mul(Zeros(r, b.rows), b) == Zeros(r, b.cols)
  {
    var z := Zeros(r, b.rows);
    forall i, j | 0 <= i < r && 0 <= j < b.cols
      ensures Mul(z, b).entries[i][j] == 0.0
    {
      MulAt(z, b, i, j);
      var col := Column(b.entries, j);
      SumZero(Products(z.entries[i], col));
    }
    Ext(Mul(z, b), Zeros(r, b.cols));
  }

  lemma MulZeroRight(a: Matrix, c: nat)
    requires a.Valid()
    ensures Mul(a, Zeros(a.cols, c)) == Zeros(a.rows, c)
  {
    var z := Zeros(a.cols, c);
    forall i, j | 0 <= i < a.rows && 0 <= j < c
      ensures Mul(a, z).entries[i][j] == 0.0
    {
      MulAt(a, z, i, j);
      var col := Column(z.entries, j);
      SumZero(Products(a.entries[i], col));
    }
    Ext(Mul(a, z), Zeros(a.rows, c));
  }

  lemma MulIdentityLeft(a: Matrix)
    requires a.Valid()
    ensures Mul(Identity(a.rows), a) == a
  {
    var e := Identity(a.rows);
    forall i, j | 0 <= i < a.rows && 0 <= j < a.cols
      ensures Mul(e, a).entries[i][j] == a.entries[i][j]
    {
      MulAt(e, a, i, j);
      var col := Column(a.entries, j);
      SumSingle(Products(e.entries[i], col), i);
    }
    Ext(Mul(e, a), a);
  }

  lemma MulIdentityRight(a: Matrix)
    requires a.Valid()
    ensures Mul(a, Identity(a.cols)) == a
  {
    var e := Identity(a.cols);
    forall i, j | 0 <= i < a.rows && 0 <= j < a.cols
      ensures Mul(a, e).entries[i][j] == a.entries[i][j]
    {
      MulAt(a, e, i, j);
      var col := Column(e.entries, j);
      SumSingle(Products(a.entries[i], col), j);
    }
    Ext(Mul(a, e), a);
  }

  lemma TransposeIdentity(n: nat)
    ensures Transpose(Identity(n)) == Identity(n)
  {
    Ext(Transpose(Identity(n)), Identity(n));
  }

  lemma TransposeTranspose(a: Matrix)
    requires a.Valid()
    ensures Transpose(Transpose(a)) == a
  {
    Ext(Transpose(Transpose(a)), a);
  }

  /** `a * (b + c) == a * b + a * c` */
  lemma MulAddLeft(a: Matrix, b: Matrix, c: Matrix)
    requires a.Valid() && b.Valid() && a.cols == b.rows && Shape(c, b.rows, b.cols)
    ensures Mul(a, Add(b, c)) == Add(Mul(a, b), Mul(a, c))
  {
    var s := Add(b, c);
    forall i, j | 0 <= i < a.rows && 0 <= j < b.cols
      ensures Mul(a, s).entries[i][j] == Mul(a, b).entries[i][j] + Mul(a, c).entries[i][j]
    {
      MulAt(a, s, i, j);
      MulAt(a, b, i, j);
      MulAt(a, c, i, j);
      var row := a.entries[i];
      var cs, cb, cc := Column(s.entries, j), Column(b.entries, j), Column(c.entries, j);
      SumAdd(Products(row, cb), Products(row, cc), Products(row, cs));
    }
    Ext(Mul(a, s), Add(Mul(a, b), Mul(a, c)));
  }

  /** The terms a[i][t] * b[t][l] * c[l][j] of entry (i, j) of a triple product, indexed by l, then t. */
  function AssocGrid(a: Matrix, b: Matrix, c: Matrix, i: nat, j: nat): (g: seq<seq<real>>)
    requires a.Valid() && b.Valid() && c.Valid() && a.cols == b.rows && b.cols == c.rows
    requires i < a.rows && j < c.cols
    ensures |g| == b.cols && forall l :: 0 <= l < b.cols ==> |g[l]| == a.cols
    ensures forall l, t :: 0 <= l < b.cols && 0 <= t < a.cols ==>
      g[l][t] == a.entries[i][t] * b.entries[t][l] * c.entries[l][j]
  {
    seq(b.cols, l requires 0 <= l < b.cols =>
      seq(a.cols, t requires 0 <= t < a.cols => a.entries[i][t] * b.entries[t][l] * c.entries[l][j]))
  }

  /** Grouped as `(a * b) * c`, entry (i, j) adds the grid's row sums. */
  lemma AssocRowSums(a: Matrix, b: Matrix, c: Matrix, i: nat, j: nat)
    requires a.Valid() && b.Valid() && c.Valid() && a.cols == b.rows && b.cols == c.rows
    requires i < a.rows && j < c.cols
    ensures var p := Products(Mul(a, b).entries[i], Column(c.entries, j));
      forall l :: 0 <= l < b.cols ==> p[l] == Sum(AssocGrid(a, b, c, i, j)[l])
  {
    var ab, g := Mul(a, b), AssocGrid(a, b, c, i, j);
    var p := Products(ab.entries[i], Column(c.entries, j));
    forall l | 0 <= l < b.cols
      ensures p[l] == Sum(g[l])
    {
      MulAt(a, b, i, l);
      SumScale(Products(a.entries[i], Column(b.entries, l)), c.entries[l][j], g[l]);
    }
  }

  /** Grouped as `a * (b * c)`, entry (i, j) adds the grid's column sums. */
  lemma AssocColumnSums(a: Matrix, b: Matrix, c: Matrix, i: nat, j: nat)
    requires a.Valid() && b.Valid() && c.Valid() && a.cols == b.rows && b.cols == c.rows
    requires i < a.rows && j < c.cols
    ensures var p := Products(a.entries[i], Column(Mul(b, c).entries, j));
      forall t :: 0 <= t < a.cols ==> p[t] == Sum(Column(AssocGrid(a, b, c, i, j), t))
  {
    var bc, g := Mul(b, c), AssocGrid(a, b, c, i, j);
    var p := Products(a.entries[i], Column(bc.entries, j));
    forall t | 0 <= t < a.cols
      ensures p[t] == Sum(Column(g, t))
    {
      MulAt(b, c, t, j);
      var terms := Products(b.entries[t], Column(c.entries, j));
      var col := Column(g, t);
      forall l | 0 <= l < b.cols
        ensures col[l] == a.entries[i][t] * terms[l]
      {
        assert a.entries[i][t] * b.entries[t][l] * c.entries[l][j]
            == a.entries[i][t] * (b.entries[t][l] * c.entries[l][j]);
      }
      SumScale(terms, a.entries[i][t], col);
    }
  }

  /** Entry (i, j) of `(a * b) * c` and of `a * (b * c)` agree. */
  lemma MulAssocAt(a: Matrix, b: Matrix, c: Matrix, i: nat, j: nat)
    requires a.Valid() && b.Valid() && c.Valid() && a.cols == b.rows && b.cols == c.rows
    requires i < a.rows && j < c.cols
    ensures Mul(Mul(a, b), c).entries[i][j] == Mul(a, Mul(b, c)).entries[i][j]
  {
    var ab, bc := Mul(a, b), Mul(b, c);
    AssocRowSums(a, b, c, i, j);
    AssocColumnSums(a, b, c, i, j);
    SumSwap(AssocGrid(a, b, c, i, j), a.cols,
      Products(ab.entries[i], Column(c.entries, j)),
      Products(a.entries[i], Column(bc.entries, j)));
    MulAt(ab, c, i, j);
    MulAt(a, bc, i, j);
  }

  /** `(a * b) * c == a * (b * c)` */
  lemma MulAssoc(a: Matrix, b: Matrix, c: Matrix)
    requires a.Valid() && b.Valid() && c.Valid() && a.cols == b.rows && b.cols == c.rows
    ensures Mul(Mul(a, b), c) == Mul(a, Mul(b, c))
  {
    forall i, j | 0 <= i < a.rows && 0 <= j < c.cols
      ensures Mul(Mul(a, b), c).entries[i][j] == Mul(a, Mul(b, c)).entries[i][j]
    {
      MulAssocAt(a, b, c, i, j);
    }
    Ext(Mul(Mul(a, b), c), Mul(a, Mul(b, c)));
  }

  /** `(a * b)^T == b^T * a^T` */
  lemma TransposeMul(a: Matrix, b: Matrix)
    requires a.Valid() && b.Valid() && a.cols == b.rows
    ensures Transpose(Mul(a, b)) == Mul(Transpose(b), Transpose(a))
  {
    var bt, at := Transpose(b), Transpose(a);
    forall i, j | 0 <= i < b.cols && 0 <= j < a.rows
      ensures Transpose(Mul(a, b)).entries[i][j] == Mul(bt, at).entries[i][j]
    {
      MulAt(a, b, j, i);
      MulAt(bt, at, i, j);
      var u, v := a.entries[j], Column(b.entries, i);
      assert bt.entries[i] == v;
      assert Column(at.entries, j) == u;
      assert Products(u, v) == Products(v, u);
    }
    Ext(Transpose(Mul(a, b)), Mul(bt, at));
  }
}
