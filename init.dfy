/** Construction of matrix values (init.cpp): the buffer a new matrix starts
    with, the constant matrices `Ones`, `Zeros` and `Eyes`, and the text
    loader's row and column counting. Allocating the buffer in host or video
    memory is the class layer's business (module Mats). */
module Init {
  import opened Matrices

  /** n copies of x. */
  function Filled(n: nat, x: int): (s: seq<int>)
    ensures |s| == n && forall i :: 0 <= i < n ==> s[i] == x
  {
    seq(n, i requires 0 <= i < n => x)
  }

  /** The host buffer a rows x cols matrix constructed from `vec` holds: a
      non-empty `vec` of the right length is taken as it is, an empty one
      gives a zero-filled buffer (left empty when there are no elements),
      and any other length is refused. */
  function InitialBuffer(rows: nat, cols: nat, vec: seq<int>): (r: Result<seq<int>>)
    ensures r.Ok? <==> vec == [] || |vec| == rows * cols
    ensures r.Ok? ==> |r.value| == rows * cols
    ensures r.Ok? && vec != [] ==> r.value == vec
    ensures r.Ok? && vec == [] ==> forall i :: 0 <= i < |r.value| ==> r.value[i] == 0
    ensures r.Fail? ==> r.error == ShapeMismatch
  {
    if vec != [] && |vec| == rows * cols then
      Ok(vec)
    else if vec == [] then
      Ok(if rows * cols != 0 then Filled(rows * cols, 0) else [])
    else
      Fail(ShapeMismatch)
  }

  /** rows x cols, every entry 1. */
  function Ones(rows: nat, cols: nat): (m: Matrix)
    ensures m.Wf() && m.rows == rows && m.cols == cols
    ensures forall r: nat, c: nat :: r < rows && c < cols ==> m.At(r, c) == 1
  {
    Build(rows, cols, (r: nat, c: nat) => 1)
  }

  /** rows x cols, every entry 0. */
  function Zeros(rows: nat, cols: nat): (m: Matrix)
    ensures m.Wf() && m.rows == rows && m.cols == cols
    ensures forall r: nat, c: nat :: r < rows && c < cols ==> m.At(r, c) == 0
  {
    Build(rows, cols, (r: nat, c: nat) => 0)
  }

  /** In an n x n row-major buffer the flat position of (i, j) is a multiple
      of n + 1 exactly when i == j. */
  lemma DiagonalPosition(i: nat, j: nat, n: nat)
    requires i < n && j < n
    ensures (i * n + j) % (n + 1) == 0 <==> i == j
  {
    if j >= i {
      assert i * n + j == i * (n + 1) + (j - i);
      FlatIndexSplit(i, j - i, n + 1);
    } else {
      assert i * n + j == (i - 1) * (n + 1) + (n + 1 + j - i);
      FlatIndexSplit(i - 1, n + 1 + j - i, n + 1);
    }
  }

  /** Flat position k of an n x n buffer is on the diagonal. */
  predicate OnDiagonal(k: nat, n: nat) {
    k % (n + 1) == 0
  }

  /** One pass of the `Eyes` loop: position i = t * (n + 1) is on the
      diagonal and the n positions after it are not. */
  lemma EyesStep(vec: seq<int>, i: nat, t: nat, n: nat)
    requires i == t * (n + 1) && i < |vec|
    requires forall k :: 0 <= k < |vec| ==> vec[k] == if k < i && OnDiagonal(k, n) then 1 else 0
    ensures forall k :: 0 <= k < |vec| ==> vec[i := 1][k] == if k < i + n + 1 && OnDiagonal(k, n) then 1 else 0
  {
    forall k | 0 <= k < |vec| ensures vec[i := 1][k] == if k < i + n + 1 && OnDiagonal(k, n) then 1 else 0 {
      if k == i {
        FlatIndexSplit(t, 0, n + 1);
      } else if i < k < i + n + 1 {
        FlatIndexSplit(t, k - i, n + 1);
      }
    }
  }

  /** The n x n identity: a zero buffer in which every (n+1)-th position,
      starting at 0, is set to 1. */
  method Eyes(n: nat) returns (m: Matrix)
    ensures m.Wf() && m.rows == n && m.cols == n
    ensures forall k :: 0 <= k < n * n ==> m.data[k] == if OnDiagonal(k, n) then 1 else 0
    ensures forall i: nat, j: nat :: i < n && j < n ==> m.At(i, j) == if i == j then 1 else 0
  {
    var vec := Filled(n * n, 0);
    var i := 0;
    ghost var t := 0;
    while i < |vec|
      invariant |vec| == n * n
      invariant i == t * (n + 1)
      invariant forall k :: 0 <= k < |vec| ==> vec[k] == if k < i && OnDiagonal(k, n) then 1 else 0
      decreases |vec| - i
    {
      EyesStep(vec, i, t, n);
      vec := vec[i := 1];
      i, t := i + n + 1, t + 1;
    }
    m := Matrix(n, n, vec);
    forall i: nat, j: nat | i < n && j < n ensures m.At(i, j) == if i == j then 1 else 0 {
      AtFlat(m, i, j);
      DiagonalPosition(i, j, n);
    }
  }

  /** Position of the first `d` in `s`, or |s| when `d` does not occur. */
  function FindDelimiter(s: string, d: char): (k: nat)
    ensures k <= |s| && (k < |s| ==> s[k] == d)
    ensures forall i :: 0 <= i < k ==> s[i] != d
  {
    if |s| == 0 then 0 else if s[0] == d then 0 else 1 + FindDelimiter(s[1..], d)
  }

  /** The fields that repeated `std::getline(line, field, d)` extracts: text
      between delimiters; a delimiter at the very end does not open an empty
      last field, and an empty line has no field at all. */
  function Fields(s: string, d: char): (r: seq<string>)
    ensures |s| == 0 <==> |r| == 0
    decreases |s|, 1
  {
    if |s| == 0 then [] else FieldsFrom(s, d, FindDelimiter(s, d))
  }

  /** The fields of a non-empty line whose first delimiter is at k: the
      text before it, then the fields of what follows it. */
  function FieldsFrom(s: string, d: char, k: nat): (r: seq<string>)
    requires 0 < |s| && k <= |s|
    ensures |r| > 0
    decreases |s|, 0
  {
    if k == |s| then [s] else [s[..k]] + Fields(s[k + 1..], d)
  }

  /** The fields written back with `d` between them. */
  function Join(fs: seq<string>, d: char): string {
    if fs == [] then [] else if |fs| == 1 then fs[0] else fs[0] + [d] + Join(fs[1..], d)
  }

  /** Joining a head field with at least one more. */
  lemma JoinCons(head: string, rest: seq<string>, d: char)
    requires rest != []
    ensures Join([head] + rest, d) == head + [d] + Join(rest, d)
  {
    var fs := [head] + rest;
    assert |fs| >= 2 && fs[0] == head && fs[1..] == rest;
  }

  /** A line cut at a delimiter position k. */
  lemma CutAtDelimiter(s: string, k: nat, d: char)
    requires k < |s| && s[k] == d
    ensures s == s[..k] + [d] + s[k + 1..]
  {
    assert s[k..] == [s[k]] + s[k + 1..];
    assert s == s[..k] + s[k..];
  }

  /** The delimiter a line ends with, if it ends with one. */
  function Trailer(s: string, d: char): string {
    if s != [] && s[|s| - 1] == d then [d] else []
  }

  /** The inductive step of `FieldsJoin`: a line cut at its first delimiter
      with a non-empty remainder whose fields join back. */
  lemma FieldsJoinStep(s: string, d: char, k: nat)
    requires k == FindDelimiter(s, d) && k + 1 < |s|
    requires Join(Fields(s[k + 1..], d), d) + Trailer(s[k + 1..], d) == s[k + 1..]
    ensures Join(Fields(s, d), d) + Trailer(s, d) == s
  {
    var rest, head := s[k + 1..], s[..k];
    var fr := Fields(rest, d);
    var jr, tr := Join(fr, d), Trailer(rest, d);
    calc {
      Join(Fields(s, d), d) + Trailer(s, d);
    == { FieldsCut(s, d, k); TrailerOfRest(s, d, k); }
      Join([head] + fr, d) + tr;
    == { JoinCons(head, fr, d); }
      (head + [d] + jr) + tr;
    == { Associative(head + [d], jr, tr); }
      head + [d] + rest;
    == { CutAtDelimiter(s, k, d); }
      s;
    }
  }

  /** The fields of a line that has a delimiter at k, its first. */
  lemma FieldsCut(s: string, d: char, k: nat)
    requires k == FindDelimiter(s, d) && k < |s|
    ensures Fields(s, d) == [s[..k]] + Fields(s[k + 1..], d)
  {
  }

  lemma TrailerOfRest(s: string, d: char, k: nat)
    requires k + 1 < |s|
    ensures Trailer(s, d) == Trailer(s[k + 1..], d)
  {
  }

  lemma Associative(a: string, b: string, c: string)
    ensures (a + b) + c == a + (b + c)
  {
  }

  /** Splitting loses nothing but a final delimiter: joining the fields
      again, and putting back a delimiter the line ended with, gives the line. */
  lemma {:induction false} FieldsJoin(s: string, d: char)
    ensures Join(Fields(s, d), d) + Trailer(s, d) == s
    decreases |s|
  {
    if s != [] {
      var k := FindDelimiter(s, d);
      if k == |s| {
        assert Fields(s, d) == [s];
      } else if k + 1 == |s| {
        CutAtDelimiter(s, k, d);
        assert Fields(s, d) == [s[..k]];
      } else {
        FieldsJoin(s[k + 1..], d);
        FieldsJoinStep(s, d, k);
      }
    }
  }

  /** No field contains the delimiter. */
  lemma {:induction false} FieldsHaveNoDelimiter(s: string, d: char)
    ensures forall f :: f in Fields(s, d) ==> d !in f
    decreases |s|
  {
    if s != [] {
      var k := FindDelimiter(s, d);
      if k < |s| {
        FieldsHaveNoDelimiter(s[k + 1..], d);
      }
    }
  }

  /** The lines the loader consumes: those before the first empty line. */
  function Block(lines: seq<string>): (b: seq<string>)
    ensures |b| <= |lines| && forall i :: 0 <= i < |b| ==> b[i] == lines[i] && |b[i]| > 0
    ensures |b| < |lines| ==> |lines[|b|]| == 0
  {
    if |lines| == 0 || |lines[0]| == 0 then [] else [lines[0]] + Block(lines[1..])
  }

  /** Every line has as many fields as the first. */
  predicate Rectangular(block: seq<string>, d: char) {
    forall i :: 0 <= i < |block| ==> |Fields(block[i], d)| == |Fields(block[0], d)|
  }

  function ParseLine(line: string, d: char, parse: string -> int): (v: seq<int>)
    ensures |v| == |Fields(line, d)|
  {
    var fs := Fields(line, d);
    seq(|fs|, i requires 0 <= i < |fs| => parse(fs[i]))
  }

  /** The values of the lines, row after row. */
  function Parsed(block: seq<string>, d: char, parse: string -> int): seq<int> {
    if block == [] then [] else Parsed(block[..|block| - 1], d, parse) + ParseLine(block[|block| - 1], d, parse)
  }

  lemma GrowByRow(rows: nat, cols: nat)
    ensures (rows + 1) * cols == rows * cols + cols
  {
  }

  /** Adding line i to the first i lines appends its values. */
  lemma ParsedStep(lines: seq<string>, i: nat, d: char, parse: string -> int)
    requires i < |lines|
    ensures Parsed(lines[..i + 1], d, parse) == Parsed(lines[..i], d, parse) + ParseLine(lines[i], d, parse)
  {
    assert lines[..i + 1][..i] == lines[..i] && lines[..i + 1][i] == lines[i];
  }

  /** A line of the block whose field count differs from the first line's
      makes the block non-rectangular. */
  lemma Ragged(lines: seq<string>, i: nat, d: char)
    requires i < |Block(lines)| && |Fields(lines[i], d)| != |Fields(lines[0], d)|
    ensures !Rectangular(Block(lines), d)
  {
    assert Block(lines)[0] == lines[0] && Block(lines)[i] == lines[i];
  }

  /** The loop stops at the end of the block. */
  lemma BlockEnd(lines: seq<string>, i: nat)
    requires i <= |Block(lines)| && (i == |lines| || |lines[i]| == 0)
    ensures lines[..i] == Block(lines)
  {
  }

  /** Reads lines until an empty line or the end, counting rows and checking
      that each line has as many fields as the one before (init.cpp:89-127,
      with the file already split into lines and `atof` given as `parse`). */
  method Load(lines: seq<string>, d: char, parse: string -> int) returns (r: Result<Matrix>)
    ensures r.Ok? <==> Rectangular(Block(lines), d)
    ensures r.Fail? ==> r.error == FormatError
    ensures r.Ok? ==> r.value.Wf() && r.value.rows == |Block(lines)|
    ensures r.Ok? ==> r.value.cols == if Block(lines) == [] then 0 else |Fields(lines[0], d)|
    ensures r.Ok? ==> r.value.data == Parsed(Block(lines), d, parse)
  {
    var rows: nat, cols: nat, vec := 0, 0, [];
    var i := 0;
    while i < |lines| && |lines[i]| > 0
      invariant i <= |Block(lines)|
      invariant rows == i
      invariant cols == if i == 0 then 0 else |Fields(lines[0], d)|
      invariant i > 0 ==> cols > 0
      invariant forall j :: 0 <= j < i ==> |Fields(lines[j], d)| == cols
      invariant vec == Parsed(lines[..i], d, parse)
      invariant |vec| == rows * cols
    {
      var fields := Fields(lines[i], d);
      if cols != 0 && |fields| != cols {
        Ragged(lines, i, d);
        return Fail(FormatError);
      }
      ParsedStep(lines, i, d, parse);
      assert forall j :: 0 <= j < i + 1 ==> |Fields(lines[j], d)| == |fields| by {
        forall j | 0 <= j < i + 1 ensures |Fields(lines[j], d)| == |fields| {
          if j < i {
            assert |Fields(lines[j], d)| == cols;
          }
        }
      }
      var line := ParseLine(lines[i], d, parse);
      GrowByRow(rows, |fields|);
      rows := rows + 1;
      cols := |fields|;
      vec := vec + line;
      i := i + 1;
    }
    BlockEnd(lines, i);
    r := Ok(Matrix(rows, cols, vec));
  }
}
