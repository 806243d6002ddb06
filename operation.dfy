/** The copying views of operation.cpp: one row, one column and a
    rectangular slice. Each allocates a fresh result in video memory; the
    class layer (module Mats) adds the residency side of those calls. */
module Operation {
  import opened Matrices

  /** `row(i)`: the 1 x cols matrix holding row i, or an out-of-range error
      (operation.cpp:66-87). */
  function Row(m: Matrix, i: nat): (r: Result<Matrix>)
    requires m.Wf()
    ensures r.Ok? <==> i < m.rows
    ensures r.Fail? ==> r.error == IndexOutOfRange
    ensures r.Ok? ==> r.value.Wf() && r.value.rows == 1 && r.value.cols == m.cols
    ensures r.Ok? ==> forall c: nat :: c < m.cols ==> r.value.At(0, c) == m.At(i, c)
  {
    if i < m.rows then
      Ok(Build(1, m.cols, (r: nat, c: nat) requires c < m.cols => m.At(i, c)))
    else
      Fail(IndexOutOfRange)
  }

  /** Row i occupies flat positions i*cols up to (i+1)*cols of the buffer. */
  lemma RowIsContiguous(m: Matrix, i: nat)
    requires m.Wf() && i < m.rows
    ensures (i + 1) * m.cols <= |m.data|
    ensures Row(m, i).value.data == m.data[i * m.cols..(i + 1) * m.cols]
  {
    var r := Row(m, i).value;
    RowSpan(i, m.rows, m.cols);
    assert |r.data| == m.cols == |m.data[i * m.cols..(i + 1) * m.cols]|;
    forall c | 0 <= c < m.cols ensures r.data[c] == m.data[i * m.cols + c] {
      AtFlat(r, 0, c);
      AtFlat(m, i, c);
    }
  }

  /** The end of a slice range after the (0, 0) convention: a pair of zero
      bounds selects the whole axis. */
  function RangeEnd(first: nat, last: nat, extent: nat): nat {
    if first == last && first == 0 then extent else last
  }

  /** A bound pair selects a non-empty range inside the axis. */
  predicate RangeOk(first: nat, last: nat, extent: nat) {
    first < RangeEnd(first, last, extent) <= extent
  }

  /** `operator()(first_row, last_row, first_col, last_col)`: rows
      [first_row, last_row) and columns [first_col, last_col) copied out, or
      an out-of-range error raised before anything is allocated
      (operation.cpp:236-301). */
  function Slice(m: Matrix, fr: nat, lr: nat, fc: nat, lc: nat): (r: Result<Matrix>)
    requires m.Wf()
    ensures r.Ok? <==> RangeOk(fr, lr, m.rows) && RangeOk(fc, lc, m.cols)
    ensures r.Fail? ==> r.error == IndexOutOfRange
    ensures r.Ok? ==>
      r.value.Wf() && r.value.rows == RangeEnd(fr, lr, m.rows) - fr && r.value.cols == RangeEnd(fc, lc, m.cols) - fc
    ensures r.Ok? ==> forall i: nat, j: nat :: i < r.value.rows && j < r.value.cols ==>
      r.value.At(i, j) == m.At(fr + i, fc + j)
  {
    var lr', lc' := RangeEnd(fr, lr, m.rows), RangeEnd(fc, lc, m.cols);
    if !(lr' > m.rows || lc' > m.cols || fr >= lr' || fc >= lc') then
      Ok(Build(lr' - fr, lc' - fc, (i: nat, j: nat) requires i < lr' - fr && j < lc' - fc => m.At(fr + i, fc + j)))
    else
      Fail(IndexOutOfRange)
  }

  /** The slice kernel's own formulation: work item k = r*cols + c of the
      source, when (r, c) lies in the window, lands at flat position
      (r - fr) * width + (c - fc) of the result. */
  lemma SliceKernel(m: Matrix, fr: nat, lr: nat, fc: nat, lc: nat, k: nat)
    requires m.Wf() && Slice(m, fr, lr, fc, lc).Ok? && k < |m.data|
    requires fr <= k / m.cols < RangeEnd(fr, lr, m.rows) && fc <= k % m.cols < RangeEnd(fc, lc, m.cols)
    ensures var s := Slice(m, fr, lr, fc, lc).value;
      var o := (k / m.cols - fr) * s.cols + (k % m.cols - fc);
      o < |s.data| && s.data[o] == m.data[k]
  {
    var s := Slice(m, fr, lr, fc, lc).value;
    FlatIndexBounds(k, m.rows, m.cols);
    var r, c := k / m.cols, k % m.cols;
    AtFlat(s, r - fr, c - fc);
    AtFlat(m, r, c);
  }

  /** Selecting everything gives the matrix back. */
  lemma SliceWhole(m: Matrix)
    requires m.Wf() && m.rows > 0 && m.cols > 0
    ensures Slice(m, 0, 0, 0, 0) == Ok(m)
  {
    SameEntries(Slice(m, 0, 0, 0, 0).value, m);
  }

  /** A row is the slice of that one row over all columns, whenever there is
      a column; with no columns the slice refuses what `row` accepts. */
  lemma RowIsSlice(m: Matrix, i: nat)
    requires m.Wf() && i < m.rows
    ensures m.cols > 0 ==> Row(m, i) == Slice(m, i, i + 1, 0, 0)
    ensures m.cols == 0 ==> Row(m, i).Ok? && Slice(m, i, i + 1, 0, 0).Fail?
  {
    if m.cols > 0 {
      SameEntries(Row(m, i).value, Slice(m, i, i + 1, 0, 0).value);
    }
  }

  /** `col(j)`: the slice of column j over all rows (operation.cpp:89-97). */
  function Col(m: Matrix, j: nat): (r: Result<Matrix>)
    requires m.Wf()
    ensures r.Ok? <==> j < m.cols && m.rows > 0
    ensures r.Fail? ==> r.error == IndexOutOfRange
    ensures r.Ok? ==> r.value.Wf() && r.value.rows == m.rows && r.value.cols == 1
    ensures r.Ok? ==> forall i: nat :: i < m.rows ==> r.value.At(i, 0) == m.At(i, j)
  {
    Slice(m, 0, 0, j, j + 1)
  }
}
