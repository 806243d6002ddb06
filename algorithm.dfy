/** Whole-matrix algorithms of algorithm.cpp: transposition, the per-line
    maximum/minimum scans and their argmax/argmin variants, the global
    maximum/minimum, and row/column sums and means. A line is a row when
    `axis` is true and a column when it is false; the per-axis results are
    rows x 1 or 1 x cols. */
module Algorithm {
  import opened Matrices
  import opened Init
  import opened Gemm
  import opened Elementwise

  /** `t()`: the cols x rows matrix with entry (c, r) equal to entry (r, c)
      (algorithm.cpp:38-77). */
  function Transpose(m: Matrix): (r: Matrix)
    requires m.Wf()
    ensures r.Wf() && r.rows == m.cols && r.cols == m.rows
    ensures forall i: nat, j: nat :: i < m.cols && j < m.rows ==> r.At(i, j) == m.At(j, i)
  {
    Build(m.cols, m.rows, (i: nat, j: nat) requires i < m.cols && j < m.rows => m.At(j, i))
  }

  /** The kernel's own index map: work item k = r * cols + c of the input
      writes output position (k % cols) * rows + k / cols = c * rows + r. */
  lemma TransposeKernel(m: Matrix, r: nat, c: nat)
    requires m.Wf() && r < m.rows && c < m.cols
    ensures c * m.rows + r < |Transpose(m).data| && r * m.cols + c < |m.data|
    ensures (r * m.cols + c) % m.cols == c && (r * m.cols + c) / m.cols == r
    ensures Transpose(m).data[c * m.rows + r] == m.data[r * m.cols + c]
  {
    AtFlat(Transpose(m), c, r);
    AtFlat(m, r, c);
    FlatIndexSplit(r, c, m.cols);
  }

  /** Transposing twice gives the matrix back. */
  lemma TransposeInvolution(m: Matrix)
    requires m.Wf()
    ensures Transpose(Transpose(m)) == m
  {
    SameEntries(Transpose(Transpose(m)), m);
  }

  lemma {:induction false} DotTransposedLeft(a: Matrix, b: Matrix, tb: bool, i: nat, j: nat, n: nat)
    requires Conformable(a, true, b, tb)
    requires i < a.cols && j < EffCols(b, tb) && n <= a.rows
    ensures Conformable(Transpose(a), false, b, tb)
    ensures Dot(a, true, b, tb, i, j, n) == Dot(Transpose(a), false, b, tb, i, j, n)
  {
    if n > 0 {
      DotTransposedLeft(a, b, tb, i, j, n - 1);
    }
  }

  /** The transpose flag of `mul` is the same as multiplying the transposed
      operand without it. */
  lemma MulTransposeFlag(a: Matrix, b: Matrix, tb: bool)
    requires a.Wf() && b.Wf()
    ensures Mul(a, b, true, tb) == Mul(Transpose(a), b, false, tb)
  {
    if Mul(a, b, true, tb).Ok? {
      var p, q := Mul(a, b, true, tb).value, Mul(Transpose(a), b, false, tb).value;
      forall i: nat, j: nat | i < p.rows && j < p.cols ensures p.At(i, j) == q.At(i, j) {
        DotTransposedLeft(a, b, tb, i, j, a.rows);
      }
      SameEntries(p, q);
    }
  }

  /** Number of lines along the axis: rows when axis is true, columns otherwise. */
  function LineCount(m: Matrix, axis: bool): nat {
    if axis then m.rows else m.cols
  }

  /** Length of each line. */
  function LineLength(m: Matrix, axis: bool): nat {
    if axis then m.cols else m.rows
  }

  /** Element j of line i. */
  function Line(m: Matrix, axis: bool, i: nat, j: nat): int
    requires m.Wf() && i < LineCount(m, axis) && j < LineLength(m, axis)
  {
    if axis then m.At(i, j) else m.At(j, i)
  }

  /** The scan kernels read element 0 of every line they start: lines exist
      only if they are non-empty. */
  predicate LinesNonEmpty(m: Matrix, axis: bool) {
    LineCount(m, axis) > 0 ==> LineLength(m, axis) > 0
  }

  /** The lines of the transpose along one axis are the lines of the matrix
      along the other. */
  lemma LinesOfTranspose(m: Matrix, axis: bool, i: nat, j: nat)
    requires m.Wf() && i < LineCount(m, !axis) && j < LineLength(m, !axis)
    ensures i < LineCount(Transpose(m), axis) && j < LineLength(Transpose(m), axis)
    ensures Line(Transpose(m), axis, i, j) == Line(m, !axis, i, j)
  {
  }

  /** v is the largest element of line i. */
  predicate IsLineMax(m: Matrix, axis: bool, i: nat, v: int)
    requires m.Wf() && i < LineCount(m, axis)
  {
    (forall j: nat :: j < LineLength(m, axis) ==> Line(m, axis, i, j) <= v) &&
    (exists j: nat :: j < LineLength(m, axis) && Line(m, axis, i, j) == v)
  }

  /** v is the smallest element of line i. */
  predicate IsLineMin(m: Matrix, axis: bool, i: nat, v: int)
    requires m.Wf() && i < LineCount(m, axis)
  {
    (forall j: nat :: j < LineLength(m, axis) ==> v <= Line(m, axis, i, j)) &&
    (exists j: nat :: j < LineLength(m, axis) && Line(m, axis, i, j) == v)
  }

  /** A line has one maximum, so the max scan and the argmax scan agree. */
  lemma LineMaxUnique(m: Matrix, axis: bool, i: nat, v: int, w: int)
    requires m.Wf() && i < LineCount(m, axis)
    requires IsLineMax(m, axis, i, v) && IsLineMax(m, axis, i, w)
    ensures v == w
  {
    var jv: nat :| jv < LineLength(m, axis) && Line(m, axis, i, jv) == v;
    var jw: nat :| jw < LineLength(m, axis) && Line(m, axis, i, jw) == w;
    assert Line(m, axis, i, jv) <= w;
    assert Line(m, axis, i, jw) <= v;
  }

  /** One work item of the per-axis max kernel: start from the line's first
      element and keep the larger of it and each element in turn
      (algorithm.cpp:117-139). */
  method LineMax(m: Matrix, axis: bool, i: nat) returns (v: int)
    requires m.Wf() && i < LineCount(m, axis) && LineLength(m, axis) > 0
    ensures IsLineMax(m, axis, i, v)
  {
    v := Line(m, axis, i, 0);
    ghost var w: nat := 0;
    var j := 0;
    while j < LineLength(m, axis)
      invariant j <= LineLength(m, axis)
      invariant w < LineLength(m, axis) && Line(m, axis, i, w) == v
      invariant forall k: nat :: k < j ==> Line(m, axis, i, k) <= v
    {
      var x := Line(m, axis, i, j);
      if !(v > x) {
        v, w := x, j;
      }
      j := j + 1;
    }
  }

  /** One work item of the per-axis min kernel (algorithm.cpp:210-232). */
  method LineMin(m: Matrix, axis: bool, i: nat) returns (v: int)
    requires m.Wf() && i < LineCount(m, axis) && LineLength(m, axis) > 0
    ensures IsLineMin(m, axis, i, v)
  {
    v := Line(m, axis, i, 0);
    ghost var w: nat := 0;
    var j := 0;
    while j < LineLength(m, axis)
      invariant j <= LineLength(m, axis)
      invariant w < LineLength(m, axis) && Line(m, axis, i, w) == v
      invariant forall k: nat :: k < j ==> v <= Line(m, axis, i, k)
    {
      var x := Line(m, axis, i, j);
      if !(v < x) {
        v, w := x, j;
      }
      j := j + 1;
    }
  }

  /** Shape of a per-axis result: rows x 1 along rows, 1 x cols along columns. */
  predicate AxisShape(r: Matrix, m: Matrix, axis: bool) {
    r.Wf() && r.rows == (if axis then m.rows else 1) && r.cols == (if axis then 1 else m.cols) &&
    |r.data| == LineCount(m, axis)
  }

  /** `max(axis)`: the maximum of every line (algorithm.cpp:113-170). */
  method MaxAxis(m: Matrix, axis: bool) returns (r: Matrix)
    requires m.Wf() && LinesNonEmpty(m, axis)
    ensures AxisShape(r, m, axis)
    ensures forall i :: 0 <= i < |r.data| ==> IsLineMax(m, axis, i, r.data[i])
  {
    var out := [];
    var i := 0;
    while i < LineCount(m, axis)
      invariant i <= LineCount(m, axis) && |out| == i
      invariant forall k :: 0 <= k < i ==> IsLineMax(m, axis, k, out[k])
    {
      var v := LineMax(m, axis, i);
      out := out + [v];
      i := i + 1;
    }
    r := Matrix(if axis then m.rows else 1, if axis then 1 else m.cols, out);
  }

  /** `min(axis)`: the minimum of every line (algorithm.cpp:206-263). */
  method MinAxis(m: Matrix, axis: bool) returns (r: Matrix)
    requires m.Wf() && LinesNonEmpty(m, axis)
    ensures AxisShape(r, m, axis)
    ensures forall i :: 0 <= i < |r.data| ==> IsLineMin(m, axis, i, r.data[i])
  {
    var out := [];
    var i := 0;
    while i < LineCount(m, axis)
      invariant i <= LineCount(m, axis) && |out| == i
      invariant forall k :: 0 <= k < i ==> IsLineMin(m, axis, k, out[k])
    {
      var v := LineMin(m, axis, i);
      out := out + [v];
      i := i + 1;
    }
    r := Matrix(if axis then m.rows else 1, if axis then 1 else m.cols, out);
  }

  /** loc is the first position of a maximum of line i. */
  predicate IsFirstMaxLoc(m: Matrix, axis: bool, i: nat, loc: nat)
    requires m.Wf() && i < LineCount(m, axis)
  {
    loc < LineLength(m, axis) && IsLineMax(m, axis, i, Line(m, axis, i, loc)) &&
    forall j: nat :: j < loc ==> Line(m, axis, i, j) < Line(m, axis, i, loc)
  }

  /** loc is the first position of a minimum of line i. */
  predicate IsFirstMinLoc(m: Matrix, axis: bool, i: nat, loc: nat)
    requires m.Wf() && i < LineCount(m, axis)
  {
    loc < LineLength(m, axis) && IsLineMin(m, axis, i, Line(m, axis, i, loc)) &&
    forall j: nat :: j < loc ==> Line(m, axis, i, loc) < Line(m, axis, i, j)
  }

  /** One work item of the argmax kernel: the position moves only on a
      strictly larger element, so ties keep the first (algorithm.cpp:350-382). */
  method LineMaxLoc(m: Matrix, axis: bool, i: nat) returns (loc: nat)
    requires m.Wf() && i < LineCount(m, axis) && LineLength(m, axis) > 0
    ensures IsFirstMaxLoc(m, axis, i, loc)
  {
    loc := 0;
    var num := Line(m, axis, i, 0);
    var j := 0;
    while j < LineLength(m, axis)
      invariant j <= LineLength(m, axis) && loc < LineLength(m, axis)
      invariant num == Line(m, axis, i, loc)
      invariant forall k: nat :: k < j ==> Line(m, axis, i, k) <= num
      invariant forall k: nat :: k < loc ==> Line(m, axis, i, k) < num
    {
      if num < Line(m, axis, i, j) {
        num := Line(m, axis, i, j);
        loc := j;
      }
      j := j + 1;
    }
  }

  /** One work item of the argmin kernel, with strict `>` (algorithm.cpp:426-458). */
  method LineMinLoc(m: Matrix, axis: bool, i: nat) returns (loc: nat)
    requires m.Wf() && i < LineCount(m, axis) && LineLength(m, axis) > 0
    ensures IsFirstMinLoc(m, axis, i, loc)
  {
    loc := 0;
    var num := Line(m, axis, i, 0);
    var j := 0;
    while j < LineLength(m, axis)
      invariant j <= LineLength(m, axis) && loc < LineLength(m, axis)
      invariant num == Line(m, axis, i, loc)
      invariant forall k: nat :: k < j ==> num <= Line(m, axis, i, k)
      invariant forall k: nat :: k < loc ==> num < Line(m, axis, i, k)
    {
      if num > Line(m, axis, i, j) {
        num := Line(m, axis, i, j);
        loc := j;
      }
      j := j + 1;
    }
  }

  /** `max_loc(axis)`: the first position of the maximum of every line
      (algorithm.cpp:346-413). Positions are stored as matrix elements. */
  method MaxLoc(m: Matrix, axis: bool) returns (r: Matrix)
    requires m.Wf() && LinesNonEmpty(m, axis)
    ensures AxisShape(r, m, axis)
    ensures forall i :: 0 <= i < |r.data| ==> r.data[i] >= 0 && IsFirstMaxLoc(m, axis, i, r.data[i])
  {
    var out := [];
    var i := 0;
    while i < LineCount(m, axis)
      invariant i <= LineCount(m, axis) && |out| == i
      invariant forall k :: 0 <= k < i ==> out[k] >= 0 && IsFirstMaxLoc(m, axis, k, out[k])
    {
      var loc := LineMaxLoc(m, axis, i);
      out := out + [loc];
      i := i + 1;
    }
    r := Matrix(if axis then m.rows else 1, if axis then 1 else m.cols, out);
  }

  /** `min_loc(axis)`: the first position of the minimum of every line
      (algorithm.cpp:422-489). */
  method MinLoc(m: Matrix, axis: bool) returns (r: Matrix)
    requires m.Wf() && LinesNonEmpty(m, axis)
    ensures AxisShape(r, m, axis)
    ensures forall i :: 0 <= i < |r.data| ==> r.data[i] >= 0 && IsFirstMinLoc(m, axis, i, r.data[i])
  {
    var out := [];
    var i := 0;
    while i < LineCount(m, axis)
      invariant i <= LineCount(m, axis) && |out| == i
      invariant forall k :: 0 <= k < i ==> out[k] >= 0 && IsFirstMinLoc(m, axis, k, out[k])
    {
      var loc := LineMinLoc(m, axis, i);
      out := out + [loc];
      i := i + 1;
    }
    r := Matrix(if axis then m.rows else 1, if axis then 1 else m.cols, out);
  }

  /** The largest element of a non-empty buffer, as `max_element` finds it
      (algorithm.cpp:86-104). */
  method MaxElement(data: seq<int>) returns (v: int)
    requires |data| > 0
    ensures v in data && forall x :: x in data ==> x <= v
  {
    v := data[0];
    var k := 1;
    while k < |data|
      invariant 1 <= k <= |data|
      invariant v in data[..k] && forall j :: 0 <= j < k ==> data[j] <= v
    {
      if v < data[k] {
        v := data[k];
      }
      k := k + 1;
    }
    assert data[..k] == data;
  }

  /** The smallest element of a non-empty buffer (algorithm.cpp:179-197). */
  method MinElement(data: seq<int>) returns (v: int)
    requires |data| > 0
    ensures v in data && forall x :: x in data ==> v <= x
  {
    v := data[0];
    var k := 1;
    while k < |data|
      invariant 1 <= k <= |data|
      invariant v in data[..k] && forall j :: 0 <= j < k ==> v <= data[j]
    {
      if data[k] < v {
        v := data[k];
      }
      k := k + 1;
    }
    assert data[..k] == data;
  }

  /** `sum(axis)`: the product with a column of ones (row sums, rows x 1) or
      with a row of ones on the left (column sums, 1 x cols)
      (algorithm.cpp:303-313). */
  function SumAxis(m: Matrix, axis: bool): (r: Matrix)
    requires m.Wf()
    ensures r.Wf() && r.rows == (if axis then m.rows else 1) && r.cols == (if axis then 1 else m.cols)
    ensures axis ==> forall i: nat :: i < m.rows ==> r.At(i, 0) == RowSum(m, i, m.cols)
    ensures !axis ==> forall j: nat :: j < m.cols ==> r.At(0, j) == ColSum(m, j, m.rows)
  {
    if axis then
      var r := Mul(m, Ones(m.cols, 1), false, false).value;
      assert forall i: nat :: i < m.rows ==> r.At(i, 0) == RowSum(m, i, m.cols) by {
        forall i: nat | i < m.rows ensures r.At(i, 0) == RowSum(m, i, m.cols) {
          DotOnesRight(m, Ones(m.cols, 1), i, m.cols);
        }
      }
      r
    else
      var r := Mul(Ones(1, m.rows), m, false, false).value;
      assert forall j: nat :: j < m.cols ==> r.At(0, j) == ColSum(m, j, m.rows) by {
        forall j: nat | j < m.cols ensures r.At(0, j) == ColSum(m, j, m.rows) {
          DotOnesLeft(Ones(1, m.rows), m, j, m.rows);
        }
      }
      r
  }

  /** `mean(axis)`: each line sum divided by the line length through the
      scalar-division operator, here the parameter `div` (algorithm.cpp:334-337). */
  function MeanAxis(m: Matrix, axis: bool, div: (int, int) -> int): (r: Matrix)
    requires m.Wf()
    ensures r.Wf() && r.rows == (if axis then m.rows else 1) && r.cols == (if axis then 1 else m.cols)
    ensures axis ==> forall i: nat :: i < m.rows ==> r.At(i, 0) == div(RowSum(m, i, m.cols), m.cols)
    ensures !axis ==> forall j: nat :: j < m.cols ==> r.At(0, j) == div(ColSum(m, j, m.rows), m.rows)
  {
    var n := if axis then m.cols else m.rows;
    UnaryOp(SumAxis(m, axis), x => div(x, n))
  }
}
