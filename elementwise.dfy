/** The two element-wise templates every arithmetic and comparison operator
    goes through (operation.hpp): `unary_op`, one operand mapped element by
    element, and `binary_op`, two operands combined after broadcasting a
    single row or column of one of them. Both produce a fresh matrix; neither
    operand changes. */
module Elementwise {
  import opened Matrices
  import opened Init
  import opened Gemm

  /** `unary_op`: a result of the operand's shape whose element k is op of
      the operand's element k (operation.hpp:41-60). */
  function UnaryOp(m: Matrix, op: int -> int): (r: Matrix)
    requires m.Wf()
    ensures r.Wf() && r.rows == m.rows && r.cols == m.cols
    ensures forall r0: nat, c0: nat :: r0 < m.rows && c0 < m.cols ==> r.At(r0, c0) == op(m.At(r0, c0))
  {
    var r := Matrix(m.rows, m.cols, seq(|m.data|, k requires 0 <= k < |m.data| => op(m.data[k])));
    assert forall r0: nat, c0: nat :: r0 < m.rows && c0 < m.cols ==> r.At(r0, c0) == op(m.At(r0, c0)) by {
      forall r0: nat, c0: nat | r0 < m.rows && c0 < m.cols ensures r.At(r0, c0) == op(m.At(r0, c0)) {
        AtFlat(m, r0, c0);
        AtFlat(r, r0, c0);
      }
    }
    r
  }

  /** Mapping twice is mapping once with the composed operation. */
  lemma UnaryOpCompose(m: Matrix, f: int -> int, g: int -> int)
    requires m.Wf()
    ensures UnaryOp(UnaryOp(m, f), g) == UnaryOp(m, x => g(f(x)))
  {
    SameEntries(UnaryOp(UnaryOp(m, f), g), UnaryOp(m, x => g(f(x))));
  }

  /** The shared kernel of `binary_op` once both operands have one shape:
      element k of the result is op(a[k], b[k]), never op(b[k], a[k])
      (operation.hpp:65-92). */
  function ZipWith(a: Matrix, b: Matrix, op: (int, int) -> int): (r: Matrix)
    requires a.Wf() && b.Wf() && a.rows == b.rows && a.cols == b.cols
    ensures r.Wf() && r.rows == a.rows && r.cols == a.cols
    ensures forall i: nat, j: nat :: i < a.rows && j < a.cols ==> r.At(i, j) == op(a.At(i, j), b.At(i, j))
  {
    var r := Matrix(a.rows, a.cols, seq(|a.data|, k requires 0 <= k < |a.data| => op(a.data[k], b.data[k])));
    assert forall i: nat, j: nat :: i < a.rows && j < a.cols ==> r.At(i, j) == op(a.At(i, j), b.At(i, j)) by {
      forall i: nat, j: nat | i < a.rows && j < a.cols ensures r.At(i, j) == op(a.At(i, j), b.At(i, j)) {
        AtFlat(a, i, j);
        AtFlat(b, i, j);
        AtFlat(r, i, j);
      }
    }
    r
  }

  /** The kernel applied to operands whose shapes have not been proved
      equal: combined when they agree, a size mismatch otherwise. */
  function Combine(a: Matrix, b: Matrix, op: (int, int) -> int): (r: Result<Matrix>)
    ensures r.Ok? <==> a.Wf() && b.Wf() && a.rows == b.rows && a.cols == b.cols
    ensures r.Ok? ==> r.value == ZipWith(a, b, op)
  {
    if a.Wf() && b.Wf() && a.rows == b.rows && a.cols == b.cols then Ok(ZipWith(a, b, op)) else Fail(ShapeMismatch)
  }

  /** The shape pairs `binary_op` accepts: equal shapes, equal row counts
      with one side a single column, or equal column counts with one side a
      single row. */
  predicate Broadcastable(a: Matrix, b: Matrix) {
    (a.rows == b.rows && (a.cols == b.cols || a.cols == 1 || b.cols == 1)) ||
    (a.cols == b.cols && (a.rows == 1 || b.rows == 1))
  }

  /** The extent of one axis after broadcasting a length-1 side onto the other. */
  function BroadcastExtent(x: nat, y: nat): nat {
    if x == y then x else if x == 1 then y else x
  }

  /** Entry (i, j) of m stretched to the broadcast shape: a single row or
      column is read at index 0 whatever i or j is. */
  function Expand(m: Matrix, i: nat, j: nat): int
    requires m.Wf() && (i < m.rows || m.rows == 1) && (j < m.cols || m.cols == 1)
  {
    m.At(if m.rows == 1 then 0 else i, if m.cols == 1 then 0 else j)
  }

  /** r is what an element-wise f of a and b must give: a size mismatch
      exactly when the shapes do not broadcast, and otherwise a matrix of the
      broadcast shape whose entry (i, j) is f of the stretched operands'
      entries (i, j). */
  predicate Combines(r: Result<Matrix>, a: Matrix, b: Matrix, f: (int, int) -> int)
    requires a.Wf() && b.Wf()
  {
    (r.Ok? <==> Broadcastable(a, b)) &&
    (r.Fail? ==> r.error == ShapeMismatch) &&
    (r.Ok? ==>
      r.value.Wf() && r.value.rows == BroadcastExtent(a.rows, b.rows) && r.value.cols == BroadcastExtent(a.cols, b.cols) &&
      forall i: nat, j: nat :: i < r.value.rows && j < r.value.cols ==> r.value.At(i, j) == f(Expand(a, i, j), Expand(b, i, j)))
  }

  /** A result that combines b with a by f combines a with b by f with its
      arguments swapped. */
  lemma CombinesFlip(r: Result<Matrix>, a: Matrix, b: Matrix, f: (int, int) -> int, g: (int, int) -> int)
    requires a.Wf() && b.Wf() && Combines(r, b, a, f)
    requires forall x, y :: g(x, y) == f(y, x)
    ensures Combines(r, a, b, g)
  {
  }

  /** A single column times a 1 x n row of ones: the column repeated n times. */
  lemma ReplicateColumn(a: Matrix, n: nat)
    requires a.Wf() && a.cols == 1
    ensures Mul(a, Ones(1, n), false, false).Ok?
    ensures forall i: nat, j: nat :: i < a.rows && j < n ==> Mul(a, Ones(1, n), false, false).value.At(i, j) == a.At(i, 0)
  {
    var p := Mul(a, Ones(1, n), false, false).value;
    forall i: nat, j: nat | i < a.rows && j < n ensures p.At(i, j) == a.At(i, 0) {
      SingleTerm(a, false, Ones(1, n), false, i, j);
    }
  }

  /** An n x 1 column of ones times a single row: the row repeated n times. */
  lemma ReplicateRow(a: Matrix, n: nat)
    requires a.Wf() && a.rows == 1
    ensures Mul(Ones(n, 1), a, false, false).Ok?
    ensures forall i: nat, j: nat :: i < n && j < a.cols ==> Mul(Ones(n, 1), a, false, false).value.At(i, j) == a.At(0, j)
  {
    var p := Mul(Ones(n, 1), a, false, false).value;
    forall i: nat, j: nat | i < n && j < a.cols ensures p.At(i, j) == a.At(0, j) {
      SingleTerm(Ones(n, 1), false, a, false, i, j);
    }
  }

  /** `binary_op` with the broadcast it intends: a single column (row) of
      one operand is first replicated by a product with a row (column) of
      ones, then the operands are combined element by element
      (operation.hpp:62-124, with line 113 read as replicating the left row
      down b.rows rows). */
  function BinaryOp(a: Matrix, b: Matrix, op: (int, int) -> int): (r: Result<Matrix>)
    requires a.Wf() && b.Wf()
    ensures Combines(r, a, b, op)
  {
    if a.rows == b.rows && a.cols == b.cols then
      Ok(ZipWith(a, b, op))
    else if a.rows == b.rows && (a.cols == 1 || b.cols == 1) then
      if a.cols == 1 then
        LeftColumnCombines(a, b, op);
        Ok(ZipWith(Mul(a, Ones(1, b.cols), false, false).value, b, op))
      else
        RightColumnCombines(a, b, op);
        Ok(ZipWith(a, Mul(b, Ones(1, a.cols), false, false).value, op))
    else if a.cols == b.cols && (a.rows == 1 || b.rows == 1) then
      if a.rows == 1 then
        LeftRowCombines(a, b, op);
        Ok(ZipWith(Mul(Ones(b.rows, 1), a, false, false).value, b, op))
      else
        RightRowCombines(a, b, op);
        Ok(ZipWith(a, Mul(Ones(a.rows, 1), b, false, false).value, op))
    else
      Fail(ShapeMismatch)
  }

  /** A single left column against several columns: replicated across them,
      it combines as the broadcast demands. */
  lemma LeftColumnCombines(a: Matrix, b: Matrix, op: (int, int) -> int)
    requires a.Wf() && b.Wf() && a.rows == b.rows && a.cols == 1 && b.cols != 1
    ensures Mul(a, Ones(1, b.cols), false, false).Ok?
    ensures var p := Mul(a, Ones(1, b.cols), false, false).value;
      p.Wf() && p.rows == b.rows && p.cols == b.cols && Combines(Ok(ZipWith(p, b, op)), a, b, op)
  {
    ReplicateColumn(a, b.cols);
  }

  /** A single right column against several columns. */
  lemma RightColumnCombines(a: Matrix, b: Matrix, op: (int, int) -> int)
    requires a.Wf() && b.Wf() && a.rows == b.rows && b.cols == 1 && a.cols != 1
    ensures Mul(b, Ones(1, a.cols), false, false).Ok?
    ensures var p := Mul(b, Ones(1, a.cols), false, false).value;
      p.Wf() && p.rows == a.rows && p.cols == a.cols && Combines(Ok(ZipWith(a, p, op)), a, b, op)
  {
    ReplicateColumn(b, a.cols);
  }

  /** A single left row against several rows. */
  lemma LeftRowCombines(a: Matrix, b: Matrix, op: (int, int) -> int)
    requires a.Wf() && b.Wf() && a.cols == b.cols && a.rows == 1 && b.rows != 1
    ensures Mul(Ones(b.rows, 1), a, false, false).Ok?
    ensures var p := Mul(Ones(b.rows, 1), a, false, false).value;
      p.Wf() && p.rows == b.rows && p.cols == b.cols && Combines(Ok(ZipWith(p, b, op)), a, b, op)
  {
    ReplicateRow(a, b.rows);
  }

  /** A single right row against several rows. */
  lemma RightRowCombines(a: Matrix, b: Matrix, op: (int, int) -> int)
    requires a.Wf() && b.Wf() && a.cols == b.cols && b.rows == 1 && a.rows != 1
    ensures Mul(Ones(a.rows, 1), b, false, false).Ok?
    ensures var p := Mul(Ones(a.rows, 1), b, false, false).value;
      p.Wf() && p.rows == a.rows && p.cols == a.cols && Combines(Ok(ZipWith(a, p, op)), a, b, op)
  {
    ReplicateRow(b, a.rows);
  }

  /** `binary_op` exactly as operation.hpp:62-124 is written: in the
      left-row-vector case (line 113) the column of ones is taken transposed,
      so the product is asked for a 1 x b.rows times 1 x cols shape and a size
      mismatch escapes unless b.rows is 1. */
  function BinaryOpAsWritten(a: Matrix, b: Matrix, op: (int, int) -> int): (r: Result<Matrix>)
    requires a.Wf() && b.Wf()
    ensures !Broadcastable(a, b) ==> r == Fail(ShapeMismatch)
    ensures a.cols == b.cols && a.rows == 1 && b.rows != 1 ==> r == Fail(ShapeMismatch)
  {
    if a.rows == b.rows && a.cols == b.cols then
      Ok(ZipWith(a, b, op))
    else if a.rows == b.rows && (a.cols == 1 || b.cols == 1) then
      if a.cols == 1 then
        Ok(ZipWith(Mul(a, Ones(1, b.cols), false, false).value, b, op))
      else
        Ok(ZipWith(a, Mul(b, Ones(1, a.cols), false, false).value, op))
    else if a.cols == b.cols && (a.rows == 1 || b.rows == 1) then
      if a.rows == 1 then
        match Mul(Ones(b.rows, 1), a, true, false)
        case Fail(e) => Fail(e)
        case Ok(t) => Combine(t, b, op)
      else
        Ok(ZipWith(a, Mul(Ones(a.rows, 1), b, false, false).value, op))
    else
      Fail(ShapeMismatch)
  }

  /** Outside the left-row-vector case the code as written and the intended
      broadcast agree. */
  lemma AsWrittenAgrees(a: Matrix, b: Matrix, op: (int, int) -> int)
    requires a.Wf() && b.Wf()
    requires !(a.cols == b.cols && a.rows == 1 && b.rows != 1)
    ensures BinaryOpAsWritten(a, b, op) == BinaryOp(a, b, op)
  {
  }

  /** The defect: a 1 x 2 row against a 2 x 2 matrix is accepted by the shape
      rules, and the intended result replicates the row, but the code as
      written fails with a size mismatch. */
  lemma LeftRowBroadcastFails(op: (int, int) -> int)
    ensures var a, b := Matrix(1, 2, [1, 2]), Matrix(2, 2, [3, 4, 5, 6]);
      BinaryOp(a, b, op).Ok? && BinaryOp(a, b, op).value.rows == 2 &&
      BinaryOpAsWritten(a, b, op) == Fail(ShapeMismatch)
  {
    var a, b := Matrix(1, 2, [1, 2]), Matrix(2, 2, [3, 4, 5, 6]);
    assert Broadcastable(a, b);
  }

  /** Swapping the operands and the operation's arguments gives the same
      result: broadcasting is symmetric. */
  lemma BinaryOpSwap(a: Matrix, b: Matrix, op: (int, int) -> int)
    requires a.Wf() && b.Wf()
    ensures BinaryOp(a, b, op) == BinaryOp(b, a, (x, y) => op(y, x))
  {
    var flip := (x, y) => op(y, x);
    if Broadcastable(a, b) {
      SameEntries(BinaryOp(a, b, op).value, BinaryOp(b, a, flip).value);
    }
  }
}
