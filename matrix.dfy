/** Values shared by every part of the model: the errors the library raises,
    the logical contents of a matrix (shape plus row-major buffer) and the
    index arithmetic of flat row-major buffers. */
module Matrices {

  /** One kind per `std::runtime_error` message family the library throws. */
  datatype Error =
    | ShapeMismatch     // operand sizes do not fit together
    | IndexOutOfRange   // bad row, column or slice bounds
    | FormatError       // inconsistent text rows, bad convolution descriptor
    | InvalidArgument   // unknown padding mode
    | InvalidAccess     // const element read while the data is in video memory

  datatype Result<T> = Ok(value: T) | Fail(error: Error)

  /** Outcome of an operation that changes a matrix in place and returns nothing. */
  datatype Status = Done | Failed(error: Error)

  /** The logical value of a matrix: `rows` x `cols` entries, stored row-major
      in `data` (entry (r, c) at flat position r * cols + c). */
  datatype Matrix = Matrix(rows: nat, cols: nat, data: seq<int>) {

    predicate Wf() {
      |data| == rows * cols
    }

    function At(r: nat, c: nat): int
      requires Wf() && r < rows && c < cols
    {
      FlatIndexInRange(r, c, rows, cols);
      data[r * cols + c]
    }
  }

  /** Entry (r, c) of a well-formed matrix is the buffer's element r * cols + c. */
  lemma AtFlat(m: Matrix, r: nat, c: nat)
    requires m.Wf() && r < m.rows && c < m.cols
    ensures r * m.cols + c < |m.data| && m.At(r, c) == m.data[r * m.cols + c]
  {
    FlatIndexInRange(r, c, m.rows, m.cols);
  }

  /** Multiplying by C keeps the order of the factors. */
  lemma {:induction false} MulMonotone(a: nat, b: nat, C: nat)
    requires a <= b
    ensures a * C <= b * C
    decreases b - a
  {
    if a < b {
      MulMonotone(a, b - 1, C);
      assert b * C == (b - 1) * C + C;
    }
  }

  /** Entry (r, c) of an R x C row-major buffer lies inside the buffer. */
  lemma FlatIndexInRange(r: nat, c: nat, R: nat, C: nat)
    requires r < R && c < C
    ensures r * C + c < R * C
  {
    RowSpan(r, R, C);
  }

  /** Row r of an R x C row-major buffer spans [r*C, r*C + C) inside the buffer. */
  lemma RowSpan(r: nat, R: nat, C: nat)
    requires r < R
    ensures (r + 1) * C == r * C + C && (r + 1) * C <= R * C
  {
    assert (r + 1) * C == r * C + C;
    MulMonotone(r + 1, R, C);
  }

  /** A flat position splits back into its row and column. */
  lemma FlatIndexSplit(r: nat, c: nat, C: nat)
    requires c < C
    ensures (r * C + c) / C == r && (r * C + c) % C == c
  {
    var k := r * C + c;
    var q, m := k / C, k % C;
    assert k == q * C + m && 0 <= m < C;
    assert (q - r) * C == c - m;
    ScaledAtLeast(q - r, C);
    ScaledAtLeast(r - q, C);
  }

  /** A multiple of C by a positive factor is at least C. */
  lemma ScaledAtLeast(d: int, C: nat)
    ensures d >= 1 ==> d * C >= C
  {
    if d >= 1 {
      MulMonotone(1, d, C);
    }
  }

  /** Every flat position of an R x C buffer names a row below R and a column below C. */
  lemma FlatIndexBounds(k: nat, R: nat, C: nat)
    requires k < R * C
    ensures C > 0 && k / C < R && k % C < C && k == (k / C) * C + k % C
  {
    assert C != 0 by {
      assert C == 0 ==> R * C == 0;
    }
    var q := k / C;
    assert q * C <= k;
    ScaledAtLeast(q - R + 1, C);
    assert (q - R + 1) * C == q * C - R * C + C;
  }

  function BuildData(rows: nat, cols: nat, f: (nat, nat) --> int): seq<int>
    requires forall r: nat, c: nat :: r < rows && c < cols ==> f.requires(r, c)
  {
    seq(rows * cols, k requires 0 <= k < rows * cols =>
      FlatIndexBounds(k, rows, cols);
      f(k / cols, k % cols))
  }

  lemma BuildDataAt(rows: nat, cols: nat, f: (nat, nat) --> int, r: nat, c: nat)
    requires forall r: nat, c: nat :: r < rows && c < cols ==> f.requires(r, c)
    requires r < rows && c < cols
    ensures r * cols + c < rows * cols
    ensures |BuildData(rows, cols, f)| == rows * cols
    ensures BuildData(rows, cols, f)[r * cols + c] == f(r, c)
  {
    FlatIndexInRange(r, c, rows, cols);
    FlatIndexSplit(r, c, cols);
  }

  /** The rows x cols matrix whose entry (r, c) is f(r, c): every index-mapping
      kernel of the library writes one such entry per work item. */
  function Build(rows: nat, cols: nat, f: (nat, nat) --> int): (m: Matrix)
    requires forall r: nat, c: nat :: r < rows && c < cols ==> f.requires(r, c)
    ensures m.Wf() && m.rows == rows && m.cols == cols
    ensures forall r: nat, c: nat :: r < rows && c < cols ==> m.At(r, c) == f(r, c)
  {
    var m := Matrix(rows, cols, BuildData(rows, cols, f));
    assert forall r: nat, c: nat :: r < rows && c < cols ==> m.At(r, c) == f(r, c) by {
      forall r: nat, c: nat | r < rows && c < cols ensures m.At(r, c) == f(r, c) {
        BuildDataAt(rows, cols, f, r, c);
      }
    }
    m
  }

  /** Two well-formed matrices of one shape with the same entries are equal. */
  lemma SameEntries(a: Matrix, b: Matrix)
    requires a.Wf() && b.Wf() && a.rows == b.rows && a.cols == b.cols
    requires forall r: nat, c: nat :: r < a.rows && c < a.cols ==> a.At(r, c) == b.At(r, c)
    ensures a == b
  {
    forall k | 0 <= k < |a.data| ensures a.data[k] == b.data[k] {
      FlatIndexBounds(k, a.rows, a.cols);
      var r, c := k / a.cols, k % a.cols;
      assert a.At(r, c) == b.At(r, c);
    }
  }

  /** The sequence 0, 1, ..., n - 1. */
  function Iota(n: nat): (s: seq<nat>)
    ensures |s| == n && forall i :: 0 <= i < n ==> s[i] == i
  {
    seq(n, i requires 0 <= i => i)
  }

  /** p lists each of 0 .. n-1 exactly once. */
  predicate IsPermutation(p: seq<nat>, n: nat) {
    |p| == n && multiset(p) == multiset(Iota(n))
  }

  lemma PermutationBounds(p: seq<nat>, n: nat)
    requires IsPermutation(p, n)
    ensures |p| == n && forall i :: 0 <= i < |p| ==> p[i] < n
  {
    forall i | 0 <= i < |p| ensures p[i] < n {
      assert p[i] in multiset(p);
      assert p[i] in multiset(Iota(n));
      assert p[i] in Iota(n);
    }
  }
}
