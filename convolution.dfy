/** `conv4d(f, g, size, stride, padding)` (convolution.cpp:59-172): a batch
    of multi-channel images convolved with a filter bank as one product. The
    image matrix f holds one row per pixel (image after image, each row-major
    over height and width) and one column per channel; g holds one row per
    (channel, filter row, filter column) and one column per output feature.
    The call validates its arguments, unfolds f into one row per output
    position and batch entry (im2col), and multiplies the unfolded matrix
    by g. */
module Convolution {
  import opened Matrices
  import opened Gemm

  /** The size descriptor padded with 1s up to its five entries: width,
      height, channels, filter side and batch size (convolution.cpp:109-114). */
  function Extend(size: seq<nat>): (s: seq<nat>)
    requires |size| <= 5
    ensures |s| == 5 && s[..|size|] == size
    ensures forall i :: |size| <= i < 5 ==> s[i] == 1
  {
    size + seq(5 - |size|, _ => 1)
  }

  /** The geometry of one call after validation. */
  datatype Geometry = Geometry(w: nat, h: nat, ch: nat, fs: nat, batch: nat, stride: nat, valid: bool) {

    /** The unchecked conditions of the extent formulas: a positive stride
        and, in valid mode, images at least as large as the filter. */
    predicate Sound() {
      stride > 0 && (valid ==> w >= fs && h >= fs)
    }

    /** Output positions along the width. */
    function NW(): nat
      requires Sound()
    {
      OutExtent(w, fs, stride, valid)
    }

    /** Output positions along the height. */
    function NH(): nat
      requires Sound()
    {
      OutExtent(h, fs, stride, valid)
    }

    /** Rows of the unfolded matrix: one per output position and batch entry. */
    function UnfoldedRows(): nat
      requires Sound()
    {
      var positions: nat := NW() * NH();
      positions * batch
    }

    /** Columns of the unfolded matrix: one per filter tap and channel. */
    function UnfoldedCols(): nat {
      fs * fs * ch
    }

    /** Shift applied to source coordinates: half the filter in same mode. */
    function Offset(): nat {
      if valid then 0 else fs / 2
    }
  }

  /** Output extent along an axis of length d: (d - fs) / stride + 1 in valid
      mode, the ceiling of d / stride in same mode (convolution.cpp:123-124). */
  function OutExtent(d: nat, fs: nat, stride: nat, valid: bool): nat
    requires stride > 0 && (valid ==> d >= fs)
  {
    if valid then (d - fs) / stride + 1 else (d + stride - 1) / stride
  }

  lemma DivTimesBelow(x: nat, s: nat)
    requires s > 0
    ensures (x / s) * s <= x
  {
  }

  /** In valid mode every window that starts at an output position fits in
      the image: n * stride + k < d for any output position n and tap k. */
  lemma ValidWindowFits(d: nat, fs: nat, s: nat, n: nat, k: nat)
    requires s > 0 && d >= fs && n < (d - fs) / s + 1 && k < fs
    ensures n * s + k < d
  {
    MulMonotone(n, (d - fs) / s, s);
    DivTimesBelow(d - fs, s);
  }

  /** The image-matrix row of pixel (row, col) of batch entry b. */
  function PixelRow(w: nat, h: nat, batch: nat, b: nat, row: nat, col: nat): (p: nat)
    requires b < batch && row < h && col < w
    ensures p < w * h * batch
  {
    FlatIndexInRange(row, col, h, w);
    assert h * w == w * h;
    FlatIndexInRange(b, row * w + col, batch, w * h);
    assert batch * (w * h) == w * h * batch;
    (w * h) * b + (row * w + col)
  }

  /** The kernel's decomposition of work item (r, c): batch entry, output
      row and column, filter row and column, channel. */
  datatype Item = Item(b: nat, nr: nat, nc: nat, fr: nat, fc: nat, cid: nat)

  /** Quotient and remainder of a flat index k < outer * inner by inner. */
  function Split(k: nat, outer: nat, inner: nat): (qr: (nat, nat))
    requires k < outer * inner
    ensures qr.0 < outer && qr.1 < inner
    ensures qr.0 == k / inner && qr.1 == k % inner
  {
    FlatIndexBounds(k, outer, inner);
    (k / inner, k % inner)
  }

  function Decompose(geo: Geometry, r: nat, c: nat): (it: Item)
    requires geo.Sound() && r < geo.UnfoldedRows() && c < geo.UnfoldedCols()
    ensures it.b < geo.batch && it.nr < geo.NH() && it.nc < geo.NW()
    ensures it.fr < geo.fs && it.fc < geo.fs && it.cid < geo.ch
  {
    var nw, nh := geo.NW(), geo.NH();
    assert r < geo.batch * (nw * nh);
    var (b, i) := Split(r, geo.batch, nw * nh);
    assert c < geo.ch * (geo.fs * geo.fs);
    var (cid, j) := Split(c, geo.ch, geo.fs * geo.fs);
    assert i < nh * nw;
    var (nr, nc) := Split(i, nh, nw);
    var (fr, fc) := Split(j, geo.fs, geo.fs);
    Item(b, nr, nc, fr, fc, cid)
  }

  /** Source coordinates of work item (r, c): output position times stride
      plus filter tap, shifted by half the filter in same mode. */
  function SourceRow(geo: Geometry, it: Item): int {
    it.nr * geo.stride + it.fr - geo.Offset()
  }

  function SourceCol(geo: Geometry, it: Item): int {
    it.nc * geo.stride + it.fc - geo.Offset()
  }

  /** In valid mode the source coordinates of every launched work item lie
      inside the image, so the kernel's unchecked read is in bounds
      (convolution.cpp:78-84). */
  lemma ValidReadInBounds(geo: Geometry, r: nat, c: nat)
    requires geo.Sound() && geo.valid && r < geo.UnfoldedRows() && c < geo.UnfoldedCols()
    ensures 0 <= SourceRow(geo, Decompose(geo, r, c)) < geo.h
    ensures 0 <= SourceCol(geo, Decompose(geo, r, c)) < geo.w
  {
    var it := Decompose(geo, r, c);
    assert geo.NH() == (geo.h - geo.fs) / geo.stride + 1 && geo.NW() == (geo.w - geo.fs) / geo.stride + 1;
    ValidWindowFits(geo.h, geo.fs, geo.stride, it.nr, it.fr);
    ValidWindowFits(geo.w, geo.fs, geo.stride, it.nc, it.fc);
    assert SourceRow(geo, it) == it.nr * geo.stride + it.fr;
    assert SourceCol(geo, it) == it.nc * geo.stride + it.fc;
  }

  /** Entry (r, c) of the unfolded matrix: the image value under filter tap
      (fr, fc) of channel cid at output position (nr, nc) of batch entry b,
      or 0 for a tap outside the image in same mode (convolution.cpp:63-99). */
  function UnfoldEntry(f: Matrix, geo: Geometry, r: nat, c: nat): int
    requires f.Wf() && geo.Sound() && f.rows == geo.w * geo.h * geo.batch && f.cols == geo.ch
    requires r < geo.UnfoldedRows() && c < geo.UnfoldedCols()
  {
    var it := Decompose(geo, r, c);
    var sr, sc := SourceRow(geo, it), SourceCol(geo, it);
    if geo.valid then
      ValidReadInBounds(geo, r, c);
      f.At(PixelRow(geo.w, geo.h, geo.batch, it.b, sr, sc), it.cid)
    else if sr < 0 || sr >= geo.h || sc < 0 || sc >= geo.w then
      0
    else
      f.At(PixelRow(geo.w, geo.h, geo.batch, it.b, sr, sc), it.cid)
  }

  /** The unfold kernel's output `temp`. */
  function Unfold(f: Matrix, geo: Geometry): (t: Matrix)
    requires f.Wf() && geo.Sound() && f.rows == geo.w * geo.h * geo.batch && f.cols == geo.ch
    ensures t.Wf() && t.rows == geo.UnfoldedRows() && t.cols == geo.UnfoldedCols()
    ensures forall r: nat, c: nat :: r < t.rows && c < t.cols ==> t.At(r, c) == UnfoldEntry(f, geo, r, c)
  {
    Build(geo.UnfoldedRows(), geo.UnfoldedCols(),
      (r: nat, c: nat) requires r < geo.UnfoldedRows() && c < geo.UnfoldedCols() => UnfoldEntry(f, geo, r, c))
  }

  /** The work item (r, c) that handles item it: the flat numbering that
      Decompose reads back. */
  function Compose(geo: Geometry, it: Item): (rc: (nat, nat))
    requires geo.Sound() && it.b < geo.batch && it.nr < geo.NH() && it.nc < geo.NW()
    requires it.fr < geo.fs && it.fc < geo.fs && it.cid < geo.ch
  {
    var nw, nh := geo.NW(), geo.NH();
    (Flat(it.b, nw * nh, Flat(it.nr, nw, it.nc)), Flat(it.cid, geo.fs * geo.fs, Flat(it.fr, geo.fs, it.fc)))
  }

  /** Position q * inner + rem of a row-major numbering. */
  function Flat(q: nat, inner: nat, rem: nat): nat {
    q * inner + rem
  }

  /** Every item in range is handled by a launched work item, and Decompose
      recovers it from that work item's position. */
  lemma {:induction false} DecomposeCompose(geo: Geometry, it: Item)
    requires geo.Sound() && it.b < geo.batch && it.nr < geo.NH() && it.nc < geo.NW()
    requires it.fr < geo.fs && it.fc < geo.fs && it.cid < geo.ch
    ensures Compose(geo, it).0 < geo.UnfoldedRows() && Compose(geo, it).1 < geo.UnfoldedCols()
    ensures Decompose(geo, Compose(geo, it).0, Compose(geo, it).1) == it
  {
    var nw, nh, fs := geo.NW(), geo.NH(), geo.fs;
    var i := it.nr * nw + it.nc;
    FlatIndexInRange(it.nr, it.nc, nh, nw);
    FlatIndexSplit(it.nr, it.nc, nw);
    assert nh * nw == nw * nh;
    FlatIndexInRange(it.b, i, geo.batch, nw * nh);
    FlatIndexSplit(it.b, i, nw * nh);
    assert geo.UnfoldedRows() == geo.batch * (nw * nh);
    var j := it.fr * fs + it.fc;
    FlatIndexInRange(it.fr, it.fc, fs, fs);
    FlatIndexSplit(it.fr, it.fc, fs);
    FlatIndexInRange(it.cid, j, geo.ch, fs * fs);
    FlatIndexSplit(it.cid, j, fs * fs);
    assert geo.UnfoldedCols() == geo.ch * (fs * fs);
  }

  /** In same mode with stride 1 the output grid is the image grid. */
  lemma SameModeUnitStride(geo: Geometry)
    requires geo.Sound() && !geo.valid && geo.stride == 1
    ensures geo.NW() == geo.w && geo.NH() == geo.h
  {
  }

  /** In same mode with stride 1 the output grid is the image grid, and the
      centre tap of the filter at output position (nr, nc) reads pixel
      (nr, nc) of the same batch entry and channel: the unfolded row of that
      position is the image row of that pixel, and the padding of fs / 2
      centres every window on its output pixel. */
  lemma SameCentreTap(f: Matrix, geo: Geometry, b: nat, nr: nat, nc: nat, cid: nat)
    requires f.Wf() && geo.Sound() && !geo.valid && geo.stride == 1 && geo.fs % 2 == 1
    requires f.rows == geo.w * geo.h * geo.batch && f.cols == geo.ch
    requires b < geo.batch && nr < geo.h && nc < geo.w && cid < geo.ch
    ensures geo.NW() == geo.w && geo.NH() == geo.h
    ensures var rc := Compose(geo, Item(b, nr, nc, geo.fs / 2, geo.fs / 2, cid));
      rc.0 == PixelRow(geo.w, geo.h, geo.batch, b, nr, nc) &&
      rc.0 < geo.UnfoldedRows() && rc.1 < geo.UnfoldedCols() && Unfold(f, geo).At(rc.0, rc.1) == f.At(rc.0, cid)
  {
    SameModeUnitStride(geo);
    var it := Item(b, nr, nc, geo.fs / 2, geo.fs / 2, cid);
    DecomposeCompose(geo, it);
    var rc := Compose(geo, it);
    assert rc.0 == PixelRow(geo.w, geo.h, geo.batch, b, nr, nc);
    assert SourceRow(geo, it) == nr && SourceCol(geo, it) == nc;
    assert Unfold(f, geo).At(rc.0, rc.1) == UnfoldEntry(f, geo, rc.0, rc.1);
  }

  /** The padding names the call accepts. */
  predicate KnownPadding(padding: string) {
    padding == "valid" || padding == "same"
  }

  /** f and g have the sizes the descriptor announces; g's column count is free. */
  predicate Fits(f: Matrix, g: Matrix, s: seq<nat>)
    requires |s| == 5
  {
    s[0] * s[1] * s[4] == f.rows && s[2] == f.cols && s[3] * s[3] * s[2] == g.rows
  }

  /** Every check of the call passes. */
  predicate Accepted(f: Matrix, g: Matrix, size: seq<nat>, padding: string) {
    KnownPadding(padding) && |size| <= 5 && Extend(size)[3] % 2 == 1 && Fits(f, g, Extend(size))
  }

  /** The geometry the call computes with. */
  function GeometryOf(size: seq<nat>, stride: nat, padding: string): Geometry
    requires |size| <= 5
  {
    var s := Extend(size);
    Geometry(s[0], s[1], s[2], s[3], s[4], stride, padding == "valid")
  }

  /** `conv4d`: the checks in the source's order (padding name, descriptor
      length, odd filter side, matrix sizes), then the unfolded matrix
      times g. The extent formulas need a positive stride and, in valid mode,
      images no smaller than the filter; the source does not check these. */
  function Conv4d(f: Matrix, g: Matrix, size: seq<nat>, stride: nat, padding: string): (r: Result<Matrix>)
    requires f.Wf() && g.Wf()
    requires Accepted(f, g, size, padding) ==> GeometryOf(size, stride, padding).Sound()
    ensures r.Ok? <==> Accepted(f, g, size, padding)
    ensures !KnownPadding(padding) ==> r == Fail(InvalidArgument)
    ensures KnownPadding(padding) && |size| > 5 ==> r == Fail(FormatError)
    ensures KnownPadding(padding) && |size| <= 5 && Extend(size)[3] % 2 == 0 ==> r == Fail(FormatError)
    ensures KnownPadding(padding) && |size| <= 5 && Extend(size)[3] % 2 == 1 && !Fits(f, g, Extend(size)) ==>
      r == Fail(ShapeMismatch)
    ensures r.Ok? ==> r.value.Wf() && r.value.rows == GeometryOf(size, stride, padding).UnfoldedRows() && r.value.cols == g.cols
    ensures r.Ok? ==> forall i: nat, j: nat :: i < r.value.rows && j < r.value.cols ==>
      var t := Unfold(f, GeometryOf(size, stride, padding));
      r.value.At(i, j) == Dot(t, false, g, false, i, j, t.cols)
  {
    if !KnownPadding(padding) then
      Fail(InvalidArgument)
    else if |size| > 5 then
      Fail(FormatError)
    else
      var s := Extend(size);
      if s[3] % 2 == 0 then
        Fail(FormatError)
      else if !Fits(f, g, s) then
        Fail(ShapeMismatch)
      else
        var geo := GeometryOf(size, stride, padding);
        assert f.rows == geo.w * geo.h * geo.batch;
        Mul(Unfold(f, geo), g, false, false)
  }

  /** A 4 x 4 single-channel image, a 3 x 3 filter, stride 1: valid mode
      has 2 x 2 output positions, same mode 4 x 4. */
  lemma OutputPositions(f: Matrix, g: Matrix)
    requires f.Wf() && g.Wf() && f.rows == 16 && f.cols == 1 && g.rows == 9
    ensures Conv4d(f, g, [4, 4, 1, 3], 1, "valid").Ok?
    ensures Conv4d(f, g, [4, 4, 1, 3], 1, "valid").value.rows == 4
    ensures Conv4d(f, g, [4, 4, 1, 3], 1, "same").value.rows == 16
    ensures Conv4d(f, g, [4, 4, 1, 2], 1, "valid") == Fail(FormatError)
    ensures Conv4d(f, g, [4, 4, 1, 3], 1, "full") == Fail(InvalidArgument)
  {
    assert Extend([4, 4, 1, 3]) == [4, 4, 1, 3, 1];
    assert Extend([4, 4, 1, 2]) == [4, 4, 1, 2, 1];
  }

  /** The 4 x 4 single-channel image whose pixel (row, col) holds 4 * row + col + 1. */
  function Ramp(): (m: Matrix)
    ensures m.Wf() && m.rows == 16 && m.cols == 1
  {
    Matrix(16, 1, seq(16, k => k + 1))
  }

  /** The 3 x 3 single-channel box filter: every tap weighs 1. */
  function Box(): (m: Matrix)
    ensures m.Wf() && m.rows == 9 && m.cols == 1
    ensures forall k: nat :: k < 9 ==> m.At(k, 0) == 1
  {
    Matrix(9, 1, seq(9, _ => 1))
  }

  /** Tap c of output position r in the valid-mode unfolding of Ramp(): the
      pixel at row r / 2 + c / 3 and column r % 2 + c % 3. */
  lemma RampTap(r: nat, c: nat)
    requires r < 4 && c < 9
    ensures var geo := Geometry(4, 4, 1, 3, 1, 1, true);
      geo.Sound() && geo.UnfoldedRows() == 4 && geo.UnfoldedCols() == 9 &&
      Unfold(Ramp(), geo).At(r, c) == 4 * (r / 2 + c / 3) + r % 2 + c % 3 + 1
  {
    var geo := Geometry(4, 4, 1, 3, 1, 1, true);
    assert geo.NW() == 2 && geo.NH() == 2;
    var it := Decompose(geo, r, c);
    assert it == Item(0, r / 2, r % 2, c / 3, c % 3, 0);
    assert Unfold(Ramp(), geo).At(r, c) == UnfoldEntry(Ramp(), geo, r, c);
  }

  /** The nine taps of output position r add up to the sum of its 3 x 3 window. */
  lemma RampWindow(r: nat)
    requires r < 4
    ensures var geo := Geometry(4, 4, 1, 3, 1, 1, true);
      geo.Sound() && geo.UnfoldedRows() == 4 && geo.UnfoldedCols() == 9 &&
      RowSum(Unfold(Ramp(), geo), r, 9) == 9 * (4 * (r / 2) + r % 2) + 54
  {
    var geo := Geometry(4, 4, 1, 3, 1, 1, true);
    var t := Unfold(Ramp(), geo);
    RampTap(r, 0); RampTap(r, 1); RampTap(r, 2);
    RampTap(r, 3); RampTap(r, 4); RampTap(r, 5);
    RampTap(r, 6); RampTap(r, 7); RampTap(r, 8);
    NineTaps(t, r);
  }

  /** A row sum over nine columns, written out. */
  lemma NineTaps(m: Matrix, i: nat)
    requires m.Wf() && i < m.rows && m.cols >= 9
    ensures RowSum(m, i, 9) == m.At(i, 0) + m.At(i, 1) + m.At(i, 2) + m.At(i, 3) + m.At(i, 4)
      + m.At(i, 5) + m.At(i, 6) + m.At(i, 7) + m.At(i, 8)
  {
    assert RowSum(m, i, 1) == RowSum(m, i, 0) + m.At(i, 0);
    assert RowSum(m, i, 2) == RowSum(m, i, 1) + m.At(i, 1);
    assert RowSum(m, i, 3) == RowSum(m, i, 2) + m.At(i, 2);
    assert RowSum(m, i, 4) == RowSum(m, i, 3) + m.At(i, 3);
    assert RowSum(m, i, 5) == RowSum(m, i, 4) + m.At(i, 4);
    assert RowSum(m, i, 6) == RowSum(m, i, 5) + m.At(i, 5);
    assert RowSum(m, i, 7) == RowSum(m, i, 6) + m.At(i, 6);
    assert RowSum(m, i, 8) == RowSum(m, i, 7) + m.At(i, 7);
    assert RowSum(m, i, 9) == RowSum(m, i, 8) + m.At(i, 8);
  }

  /** Output position r of the ramp image under the box filter, valid mode. */
  lemma BoxFilterAt(f: Matrix, g: Matrix, r: nat)
    requires f == Ramp() && g == Box() && r < 4
    ensures var res := Conv4d(f, g, [4, 4, 1, 3], 1, "valid");
      res.Ok? && res.value.rows == 4 && res.value.cols == 1 && |res.value.data| == 4 &&
      res.value.data[r] == [54, 63, 90, 99][r]
  {
    assert Extend([4, 4, 1, 3]) == [4, 4, 1, 3, 1];
    var geo := GeometryOf([4, 4, 1, 3], 1, "valid");
    assert geo == Geometry(4, 4, 1, 3, 1, 1, true);
    assert Accepted(Ramp(), Box(), [4, 4, 1, 3], "valid");
    var t := Unfold(Ramp(), geo);
    RampWindow(r);
    DotOnesRight(t, Box(), r, 9);
    WindowTotals(r);
  }

  /** The window sums of output positions 0 to 3. */
  lemma WindowTotals(r: nat)
    requires r < 4
    ensures 9 * (4 * (r / 2) + r % 2) + 54 == [54, 63, 90, 99][r]
  {
    assert r == 0 || r == 1 || r == 2 || r == 3;
  }

  /** conv4d of the ramp image with the box filter in valid mode: each of the
      2 x 2 output positions holds the sum of the 3 x 3 window below it,
      1+2+3+5+6+7+9+10+11 = 54, then 63, 90 and 99. */
  lemma BoxFilterSums(f: Matrix, g: Matrix)
    requires f == Ramp() && g == Box()
    ensures var res := Conv4d(f, g, [4, 4, 1, 3], 1, "valid");
      res.Ok? && res.value.rows == 4 && res.value.cols == 1 && res.value.data == [54, 63, 90, 99]
  {
    var res := Conv4d(f, g, [4, 4, 1, 3], 1, "valid");
    assert res.Ok? && |res.value.data| == 4 by {
      BoxFilterAt(f, g, 0);
    }
    forall k: nat | k < 4
      ensures res.value.data[k] == [54, 63, 90, 99][k]
    {
      BoxFilterAt(f, g, k);
    }
  }
}
