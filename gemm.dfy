/** The matrix product `mul(a, b, trans_a, trans_b)` (arithmetic.cpp:57-117):
    the dimension check after the optional transpositions and the value the
    single-precision GEMM call computes with alpha = 1 and beta = 0, stated
    as its mathematical definition. */
module Gemm {
  import opened Matrices

  /** Rows of op(m): the column count when the operand is taken transposed. */
  function EffRows(m: Matrix, trans: bool): nat {
    if trans then m.cols else m.rows
  }

  /** Columns of op(m). */
  function EffCols(m: Matrix, trans: bool): nat {
    if trans then m.rows else m.cols
  }

  /** Entry (i, k) of op(m). The row-major buffer is read with leading
      dimension m.cols whether or not the operand is transposed. */
  function OpAt(m: Matrix, trans: bool, i: nat, k: nat): int
    requires m.Wf() && i < EffRows(m, trans) && k < EffCols(m, trans)
  {
    if trans then m.At(k, i) else m.At(i, k)
  }

  /** The operands fit: op(a) has as many columns as op(b) has rows. */
  predicate Conformable(a: Matrix, ta: bool, b: Matrix, tb: bool) {
    a.Wf() && b.Wf() && EffCols(a, ta) == EffRows(b, tb)
  }

  /** The first n terms of the inner product of row i of op(a) with column j of op(b). */
  function Dot(a: Matrix, ta: bool, b: Matrix, tb: bool, i: nat, j: nat, n: nat): int
    requires Conformable(a, ta, b, tb)
    requires i < EffRows(a, ta) && j < EffCols(b, tb) && n <= EffCols(a, ta)
  {
    if n == 0 then 0 else Dot(a, ta, b, tb, i, j, n - 1) + OpAt(a, ta, i, n - 1) * OpAt(b, tb, n - 1, j)
  }

  /** The product op(a) * op(b), or a size mismatch. Entry (i, j) of the
      result is the full inner product; nothing of a previous buffer survives
      because beta is 0. */
  function Mul(a: Matrix, b: Matrix, ta: bool, tb: bool): (r: Result<Matrix>)
    requires a.Wf() && b.Wf()
    ensures r.Ok? <==> EffCols(a, ta) == EffRows(b, tb)
    ensures r.Fail? ==> r.error == ShapeMismatch
    ensures r.Ok? ==> r.value.Wf() && r.value.rows == EffRows(a, ta) && r.value.cols == EffCols(b, tb)
    ensures r.Ok? ==> forall i: nat, j: nat :: i < r.value.rows && j < r.value.cols ==>
      r.value.At(i, j) == Dot(a, ta, b, tb, i, j, EffCols(a, ta))
  {
    if EffCols(a, ta) == EffRows(b, tb) then
      Ok(Build(EffRows(a, ta), EffCols(b, tb),
        (i: nat, j: nat) requires i < EffRows(a, ta) && j < EffCols(b, tb) =>
          Dot(a, ta, b, tb, i, j, EffCols(a, ta))))
    else
      Fail(ShapeMismatch)
  }

  /** e is the n x n identity. */
  predicate IsIdentity(e: Matrix, n: nat) {
    e.Wf() && e.rows == n && e.cols == n &&
    forall i: nat, j: nat :: i < n && j < n ==> e.At(i, j) == if i == j then 1 else 0
  }

  /** Against the identity only the diagonal term of the inner product survives. */
  lemma {:induction false} DotIdentityRight(m: Matrix, e: Matrix, i: nat, j: nat, n: nat)
    requires m.Wf() && IsIdentity(e, m.cols) && i < m.rows && j < m.cols && n <= m.cols
    ensures Dot(m, false, e, false, i, j, n) == if j < n then m.At(i, j) else 0
  {
    if n > 0 {
      DotIdentityRight(m, e, i, j, n - 1);
    }
  }

  lemma {:induction false} DotIdentityLeft(e: Matrix, m: Matrix, i: nat, j: nat, n: nat)
    requires m.Wf() && IsIdentity(e, m.rows) && i < m.rows && j < m.cols && n <= m.rows
    ensures Dot(e, false, m, false, i, j, n) == if i < n then m.At(i, j) else 0
  {
    if n > 0 {
      DotIdentityLeft(e, m, i, j, n - 1);
    }
  }

  /** m * I == m: multiplying by the identity on the right gives m back. */
  lemma MulIdentityRight(m: Matrix, e: Matrix)
    requires m.Wf() && IsIdentity(e, m.cols)
    ensures Mul(m, e, false, false) == Ok(m)
  {
    var p := Mul(m, e, false, false).value;
    forall i: nat, j: nat | i < m.rows && j < m.cols ensures p.At(i, j) == m.At(i, j) {
      DotIdentityRight(m, e, i, j, m.cols);
    }
    SameEntries(p, m);
  }

  /** I * m == m. */
  lemma MulIdentityLeft(e: Matrix, m: Matrix)
    requires m.Wf() && IsIdentity(e, m.rows)
    ensures Mul(e, m, false, false) == Ok(m)
  {
    var p := Mul(e, m, false, false).value;
    forall i: nat, j: nat | i < m.rows && j < m.cols ensures p.At(i, j) == m.At(i, j) {
      DotIdentityLeft(e, m, i, j, m.rows);
    }
    SameEntries(p, m);
  }

  /** Transposing both operands and swapping them transposes the product:
      entry (i, j) of op(a) * op(b) is entry (j, i) of op'(b) * op'(a). */
  lemma {:induction false} DotSwap(a: Matrix, ta: bool, b: Matrix, tb: bool, i: nat, j: nat, n: nat)
    requires Conformable(a, ta, b, tb)
    requires i < EffRows(a, ta) && j < EffCols(b, tb) && n <= EffCols(a, ta)
    ensures Conformable(b, !tb, a, !ta)
    ensures Dot(a, ta, b, tb, i, j, n) == Dot(b, !tb, a, !ta, j, i, n)
  {
    if n > 0 {
      DotSwap(a, ta, b, tb, i, j, n - 1);
      var x, y := OpAt(a, ta, i, n - 1), OpAt(b, tb, n - 1, j);
      assert OpAt(b, !tb, j, n - 1) == y && OpAt(a, !ta, n - 1, i) == x;
      assert x * y == y * x;
    }
  }

  /** (op(a) * op(b)) has entry (i, j) equal to entry (j, i) of op'(b) * op'(a),
      where op' flips the transpose flag: the product of transposes in reverse
      order. Both calls succeed or fail together. */
  lemma MulReverse(a: Matrix, b: Matrix, ta: bool, tb: bool)
    requires a.Wf() && b.Wf()
    ensures Mul(a, b, ta, tb).Ok? <==> Mul(b, a, !tb, !ta).Ok?
    ensures Mul(a, b, ta, tb).Ok? ==>
      var p, q := Mul(a, b, ta, tb).value, Mul(b, a, !tb, !ta).value;
      p.rows == q.cols && p.cols == q.rows &&
      forall i: nat, j: nat :: i < p.rows && j < p.cols ==> p.At(i, j) == q.At(j, i)
  {
    if Mul(a, b, ta, tb).Ok? {
      var p, q := Mul(a, b, ta, tb).value, Mul(b, a, !tb, !ta).value;
      forall i: nat, j: nat | i < p.rows && j < p.cols ensures p.At(i, j) == q.At(j, i) {
        DotSwap(a, ta, b, tb, i, j, EffCols(a, ta));
      }
    }
  }

  /** Sum of the first n entries of row i. */
  function RowSum(m: Matrix, i: nat, n: nat): int
    requires m.Wf() && i < m.rows && n <= m.cols
  {
    if n == 0 then 0 else RowSum(m, i, n - 1) + m.At(i, n - 1)
  }

  /** Sum of the first n entries of column j. */
  function ColSum(m: Matrix, j: nat, n: nat): int
    requires m.Wf() && j < m.cols && n <= m.rows
  {
    if n == 0 then 0 else ColSum(m, j, n - 1) + m.At(n - 1, j)
  }

  /** A column of ones on the right adds up each row. */
  lemma {:induction false} DotOnesRight(m: Matrix, ones: Matrix, i: nat, n: nat)
    requires m.Wf() && ones.Wf() && ones.rows == m.cols && ones.cols == 1
    requires forall r: nat :: r < ones.rows ==> ones.At(r, 0) == 1
    requires i < m.rows && n <= m.cols
    ensures Dot(m, false, ones, false, i, 0, n) == RowSum(m, i, n)
  {
    if n > 0 {
      DotOnesRight(m, ones, i, n - 1);
    }
  }

  /** A row of ones on the left adds up each column. */
  lemma {:induction false} DotOnesLeft(ones: Matrix, m: Matrix, j: nat, n: nat)
    requires m.Wf() && ones.Wf() && ones.rows == 1 && ones.cols == m.rows
    requires forall c: nat :: c < ones.cols ==> ones.At(0, c) == 1
    requires j < m.cols && n <= m.rows
    ensures Dot(ones, false, m, false, 0, j, n) == ColSum(m, j, n)
  {
    if n > 0 {
      DotOnesLeft(ones, m, j, n - 1);
    }
  }

  /** An inner dimension of one leaves a single product term. */
  lemma SingleTerm(a: Matrix, ta: bool, b: Matrix, tb: bool, i: nat, j: nat)
    requires Conformable(a, ta, b, tb) && EffCols(a, ta) == 1
    requires i < EffRows(a, ta) && j < EffCols(b, tb)
    ensures Dot(a, ta, b, tb, i, j, 1) == OpAt(a, ta, i, 0) * OpAt(b, tb, 0, j)
  {
  }

  /** Three matrices whose products a * b and b * c are defined. */
  predicate Chain(a: Matrix, b: Matrix, c: Matrix) {
    a.Wf() && b.Wf() && c.Wf() && a.cols == b.rows && b.cols == c.rows
  }

  /** Sum over l < n of (first m terms of (a * b)(i, l)) * c(l, j): entry
      (i, j) of (a * b) * c, with both sums cut short. */
  function LeftNested(a: Matrix, b: Matrix, c: Matrix, i: nat, j: nat, n: nat, m: nat): int
    requires Chain(a, b, c) && i < a.rows && j < c.cols && n <= b.cols && m <= a.cols
  {
    if n == 0 then 0
    else LeftNested(a, b, c, i, j, n - 1, m) + Dot(a, false, b, false, i, n - 1, m) * c.At(n - 1, j)
  }

  /** Sum over k < m of a(i, k) * (first n terms of (b * c)(k, j)): entry
      (i, j) of a * (b * c), with both sums cut short. */
  function RightNested(a: Matrix, b: Matrix, c: Matrix, i: nat, j: nat, n: nat, m: nat): int
    requires Chain(a, b, c) && i < a.rows && j < c.cols && n <= b.cols && m <= a.cols
  {
    if m == 0 then 0
    else RightNested(a, b, c, i, j, n, m - 1) + a.At(i, m - 1) * Dot(b, false, c, false, m - 1, j, n)
  }

  lemma {:induction false} LeftNestedEmpty(a: Matrix, b: Matrix, c: Matrix, i: nat, j: nat, n: nat)
    requires Chain(a, b, c) && i < a.rows && j < c.cols && n <= b.cols
    ensures LeftNested(a, b, c, i, j, n, 0) == 0
  {
    if n > 0 {
      LeftNestedEmpty(a, b, c, i, j, n - 1);
    }
  }

  /** Growing the inner sums of the left nesting by term m - 1 adds
      a(i, m - 1) times the first n terms of (b * c)(m - 1, j). */
  lemma {:induction false} LeftNestedStep(a: Matrix, b: Matrix, c: Matrix, i: nat, j: nat, n: nat, m: nat)
    requires Chain(a, b, c) && i < a.rows && j < c.cols && n <= b.cols && 0 < m <= a.cols
    ensures LeftNested(a, b, c, i, j, n, m) ==
      LeftNested(a, b, c, i, j, n, m - 1) + a.At(i, m - 1) * Dot(b, false, c, false, m - 1, j, n)
  {
    if n > 0 {
      LeftNestedStep(a, b, c, i, j, n - 1, m);
      var x, beta, gamma := a.At(i, m - 1), b.At(m - 1, n - 1), c.At(n - 1, j);
      var ab, ab' := Dot(a, false, b, false, i, n - 1, m), Dot(a, false, b, false, i, n - 1, m - 1);
      var bc, bc' := Dot(b, false, c, false, m - 1, j, n), Dot(b, false, c, false, m - 1, j, n - 1);
      var rest := LeftNested(a, b, c, i, j, n - 1, m - 1);
      assert LeftNested(a, b, c, i, j, n, m) == rest + x * bc' + (ab' + x * beta) * gamma;
      assert LeftNested(a, b, c, i, j, n, m - 1) + x * bc == rest + ab' * gamma + x * (bc' + beta * gamma);
      Regroup(rest, x, bc', ab', beta, gamma);
    }
  }

  /** The rearrangement behind LeftNestedStep. */
  lemma Regroup(rest: int, x: int, bc: int, ab: int, beta: int, gamma: int)
    ensures rest + x * bc + (ab + x * beta) * gamma == rest + ab * gamma + x * (bc + beta * gamma)
  {
    assert (ab + x * beta) * gamma == ab * gamma + (x * beta) * gamma;
    assert x * (bc + beta * gamma) == x * bc + x * (beta * gamma);
  }

  /** The two nestings agree: the double sum may be taken in either order. */
  lemma {:induction false} NestingsAgree(a: Matrix, b: Matrix, c: Matrix, i: nat, j: nat, n: nat, m: nat)
    requires Chain(a, b, c) && i < a.rows && j < c.cols && n <= b.cols && m <= a.cols
    ensures LeftNested(a, b, c, i, j, n, m) == RightNested(a, b, c, i, j, n, m)
  {
    if m == 0 {
      LeftNestedEmpty(a, b, c, i, j, n);
    } else {
      NestingsAgree(a, b, c, i, j, n, m - 1);
      LeftNestedStep(a, b, c, i, j, n, m);
    }
  }

  /** Entry (i, j) of (a * b) * c, term by term, is the left nesting. */
  lemma {:induction false} DotOfLeftProduct(a: Matrix, b: Matrix, c: Matrix, i: nat, j: nat, n: nat)
    requires Chain(a, b, c) && i < a.rows && j < c.cols && n <= b.cols
    ensures Dot(Mul(a, b, false, false).value, false, c, false, i, j, n) == LeftNested(a, b, c, i, j, n, a.cols)
  {
    if n > 0 {
      DotOfLeftProduct(a, b, c, i, j, n - 1);
    }
  }

  /** Entry (i, j) of a * (b * c), term by term, is the right nesting. */
  lemma {:induction false} DotOfRightProduct(a: Matrix, b: Matrix, c: Matrix, i: nat, j: nat, m: nat)
    requires Chain(a, b, c) && i < a.rows && j < c.cols && m <= a.cols
    ensures Dot(a, false, Mul(b, c, false, false).value, false, i, j, m) == RightNested(a, b, c, i, j, b.cols, m)
  {
    if m > 0 {
      DotOfRightProduct(a, b, c, i, j, m - 1);
    }
  }

  /** The matrix product is associative: (a * b) * c == a * (b * c)
      whenever a * b and b * c are defined. */
  lemma MulAssociative(a: Matrix, b: Matrix, c: Matrix)
    requires Chain(a, b, c)
    ensures Mul(a, b, false, false).Ok? && Mul(b, c, false, false).Ok?
    ensures Mul(Mul(a, b, false, false).value, c, false, false).Ok?
    ensures Mul(Mul(a, b, false, false).value, c, false, false) == Mul(a, Mul(b, c, false, false).value, false, false)
  {
    var ab, bc := Mul(a, b, false, false).value, Mul(b, c, false, false).value;
    var left, right := Mul(ab, c, false, false).value, Mul(a, bc, false, false).value;
    forall i: nat, j: nat | i < a.rows && j < c.cols
      ensures left.At(i, j) == right.At(i, j)
    {
      DotOfLeftProduct(a, b, c, i, j, b.cols);
      NestingsAgree(a, b, c, i, j, b.cols, a.cols);
      DotOfRightProduct(a, b, c, i, j, a.cols);
    }
    SameEntries(left, right);
  }
}
