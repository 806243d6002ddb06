/** The `Mat` object itself: its shape, where its data currently lives
    (`uploaded`), the host buffer `c_buffer` and the video-memory buffer
    `g_buffer`. Each state-changing member of operation.cpp and init.cpp is a
    pure transition on `State` (proved about here) and a method of class
    `Mat` that performs it on the fields. */
module Mats {
  import opened Matrices
  import Init
  import Operation
  import Algorithm
  import Gemm
  import Arithmetic

  /** The fields of a `Mat`. */
  datatype State = State(rows: nat, cols: nat, uploaded: bool, host: seq<int>, device: seq<int>) {

    /** The buffer that holds the matrix's data: video memory when uploaded. */
    function Buffer(): seq<int> {
      if uploaded then device else host
    }

    /** The authoritative buffer holds exactly rows * cols elements. */
    predicate Consistent() {
      |Buffer()| == rows * cols
    }

    /** The matrix the object stands for. */
    function Value(): Matrix {
      Matrix(rows, cols, Buffer())
    }
  }

  /** A freshly allocated result of a kernel: device-resident, host buffer empty. */
  function OnDevice(m: Matrix): (s: State)
    ensures s.uploaded && s.Value() == m
  {
    State(m.rows, m.cols, true, [], m.data)
  }

  // ---------------------------------------------------------------- residency

  /** `upload()` as operation.cpp:31-46 is written: the host buffer is copied
      only when the data is on the host and the host buffer is non-empty. */
  function UploadAsWritten(s: State): (t: State)
    ensures t.uploaded && t.rows == s.rows && t.cols == s.cols && t.host == s.host
    ensures s.uploaded ==> t.device == s.device
    ensures !s.uploaded && s.host != [] ==> t.device == s.host
  {
    if !s.uploaded && s.host != [] then s.(uploaded := true, device := s.host) else s.(uploaded := true)
  }

  /** `upload()` as intended: a host-resident matrix's host buffer, empty or
      not, becomes the video-memory buffer; a device-resident one is left
      alone. The data the object stands for does not change. */
  function Uploaded(s: State): (t: State)
    ensures t.uploaded && t.rows == s.rows && t.cols == s.cols && t.host == s.host
    ensures t.Buffer() == s.Buffer() && t.Value() == s.Value()
  {
    if !s.uploaded then s.(uploaded := true, device := s.host) else s
  }

  /** The two agree except on a host-resident matrix with an empty host buffer. */
  lemma UploadAgrees(s: State)
    requires s.uploaded || s.host != []
    ensures UploadAsWritten(s) == Uploaded(s)
  {
  }

  /** `download()` (operation.cpp:48-57): a device-resident matrix's video
      buffer is copied, at its own length, into the host buffer. */
  function Downloaded(s: State): (t: State)
    ensures !t.uploaded && t.rows == s.rows && t.cols == s.cols && t.device == s.device
    ensures t.Buffer() == s.Buffer() && t.Value() == s.Value()
    ensures !s.uploaded ==> t == s
  {
    if s.uploaded then s.(uploaded := false, host := s.device) else s
  }

  /** Uploading twice is uploading once, and so is downloading twice. */
  lemma ResidencyIdempotent(s: State)
    ensures Uploaded(Uploaded(s)) == Uploaded(s)
    ensures Downloaded(Downloaded(s)) == Downloaded(s)
    ensures UploadAsWritten(UploadAsWritten(s)) == UploadAsWritten(s)
  {
  }

  /** A round trip through video memory restores the host buffer of a
      host-resident matrix, and downloading after uploading leaves the data
      on the host with the same contents. */
  lemma RoundTrip(s: State)
    ensures !s.uploaded ==> Downloaded(Uploaded(s)) == s.(device := s.host)
    ensures Downloaded(Uploaded(s)).host == s.Buffer()
    ensures Uploaded(Downloaded(s)).device == s.Buffer()
  {
  }

  /** Moving the data either way keeps a consistent object consistent. */
  lemma ResidencyKeepsConsistency(s: State)
    requires s.Consistent()
    ensures Uploaded(s).Consistent() && Downloaded(s).Consistent()
  {
    assert Uploaded(s).Buffer() == s.Buffer();
    assert Downloaded(s).Buffer() == s.Buffer();
  }

  // ---------------------------------------------------------------- shape changes

  /** `reshape(rows, cols)` (operation.cpp:99-112): accepted exactly when the
      element count is kept; only the shape changes. */
  function Reshaped(s: State, rows: nat, cols: nat): (r: Result<State>)
    ensures r.Ok? <==> rows * cols == s.rows * s.cols
    ensures r.Fail? ==> r.error == ShapeMismatch
    ensures r.Ok? ==> r.value.rows == rows && r.value.cols == cols
    ensures r.Ok? ==> r.value.uploaded == s.uploaded && r.value.host == s.host && r.value.device == s.device
  {
    if rows * cols == s.rows * s.cols then Ok(s.(rows := rows, cols := cols)) else Fail(ShapeMismatch)
  }

  /** A reshape keeps a consistent object consistent and keeps its flat data. */
  lemma ReshapeKeepsData(s: State, rows: nat, cols: nat)
    requires s.Consistent() && Reshaped(s, rows, cols).Ok?
    ensures Reshaped(s, rows, cols).value.Consistent()
    ensures Reshaped(s, rows, cols).value.Value().data == s.Value().data
  {
  }

  /** `push_back(another)` (operation.cpp:114-145): accepted when this has no
      columns yet or both have as many columns. The rows of another follow
      this's rows; the result lives in video memory if either operand did. */
  function Appended(s: State, o: State): (r: Result<State>)
    ensures r.Ok? <==> s.cols == 0 || o.cols == s.cols
    ensures r.Fail? ==> r.error == ShapeMismatch
    ensures r.Ok? ==> r.value.rows == s.rows + o.rows && r.value.cols == o.cols
    ensures r.Ok? ==> r.value.uploaded == (s.uploaded || o.uploaded)
    ensures r.Ok? ==> r.value.Buffer() == s.Buffer() + o.Buffer()
  {
    if s.cols == 0 || o.cols == s.cols then
      var s' := s.(cols := o.cols, rows := s.rows + o.rows);
      if o.uploaded then
        var u := Uploaded(s');
        Ok(u.(device := u.device + o.device))
      else if s'.uploaded then
        Ok(s'.(device := s'.device + o.host))
      else
        Ok(s'.(host := s'.host + o.host))
    else
      Fail(ShapeMismatch)
  }

  /** Two matrices of equal width stacked: the rows of a, then the rows of b. */
  lemma StackedRows(a: Matrix, b: Matrix)
    requires a.Wf() && b.Wf() && a.cols == b.cols
    ensures Matrix(a.rows + b.rows, a.cols, a.data + b.data).Wf()
    ensures forall r: nat, c: nat :: r < a.rows && c < a.cols ==>
      Matrix(a.rows + b.rows, a.cols, a.data + b.data).At(r, c) == a.At(r, c)
    ensures forall r: nat, c: nat :: r < b.rows && c < b.cols ==>
      Matrix(a.rows + b.rows, a.cols, a.data + b.data).At(a.rows + r, c) == b.At(r, c)
  {
    var t := Matrix(a.rows + b.rows, a.cols, a.data + b.data);
    assert (a.rows + b.rows) * a.cols == a.rows * a.cols + b.rows * a.cols;
    forall r: nat, c: nat | r < a.rows && c < a.cols
      ensures t.At(r, c) == a.At(r, c)
    {
      AtFlat(a, r, c);
      AtFlat(t, r, c);
    }
    forall r: nat, c: nat | r < b.rows && c < b.cols
      ensures t.At(a.rows + r, c) == b.At(r, c)
    {
      AtFlat(b, r, c);
      AtFlat(t, a.rows + r, c);
      assert (a.rows + r) * a.cols + c == a.rows * a.cols + (r * a.cols + c);
    }
  }

  /** After a push_back every old entry keeps its position and the appended
      rows follow, provided this had columns or no rows (with zero columns
      and some rows the old rows have no data to keep). */
  lemma AppendedEntries(s: State, o: State)
    requires s.Consistent() && o.Consistent() && Appended(s, o).Ok?
    requires s.cols != 0 || s.rows == 0
    ensures Appended(s, o).value.Consistent()
    ensures forall r: nat, c: nat :: r < s.rows && c < s.cols ==>
      Appended(s, o).value.Value().At(r, c) == s.Value().At(r, c)
    ensures forall r: nat, c: nat :: r < o.rows && c < o.cols ==>
      Appended(s, o).value.Value().At(s.rows + r, c) == o.Value().At(r, c)
  {
    var t := Appended(s, o).value;
    var a := Matrix(s.rows, o.cols, s.Buffer());
    assert a.Wf();
    StackedRows(a, o.Value());
    assert t.Value() == Matrix(a.rows + o.rows, a.cols, a.data + o.Value().data);
    assert s.cols != 0 ==> a == s.Value();
  }

  /** `push_back({...})` (operation.cpp:147-167): one more row, under the same
      column rule, written to whichever buffer is authoritative. */
  function AppendedRow(s: State, v: seq<int>): (r: Result<State>)
    ensures r.Ok? <==> s.cols == 0 || |v| == s.cols
    ensures r.Fail? ==> r.error == ShapeMismatch
    ensures r.Ok? ==> r.value.rows == s.rows + 1 && r.value.cols == |v| && r.value.uploaded == s.uploaded
    ensures r.Ok? ==> r.value.Buffer() == s.Buffer() + v
  {
    if s.cols == 0 || |v| == s.cols then
      var s' := s.(cols := |v|, rows := s.rows + 1);
      if s.uploaded then Ok(s'.(device := s.device + v)) else Ok(s'.(host := s.host + v))
    else
      Fail(ShapeMismatch)
  }

  /** Pushing a row is pushing the 1 x n host matrix holding it. */
  lemma AppendedRowIsAppended(s: State, v: seq<int>)
    requires AppendedRow(s, v).Ok?
    ensures Appended(s, State(1, |v|, false, v, [])).Ok?
    ensures Appended(s, State(1, |v|, false, v, [])).value.Value() == AppendedRow(s, v).value.Value()
  {
  }

  // ---------------------------------------------------------------- assignment and construction

  /** Copy assignment (operation.cpp:190-209): shape and residency of another,
      and its authoritative buffer copied into the same place; the other
      buffer of the target is left as it was. Self-assignment changes nothing. */
  function CopyAssigned(s: State, o: State): (t: State)
    ensures t.rows == o.rows && t.cols == o.cols && t.uploaded == o.uploaded
    ensures t.Buffer() == o.Buffer() && t.Value() == o.Value()
    ensures o.uploaded ==> t.host == s.host
    ensures !o.uploaded ==> t.device == s.device
  {
    if o.uploaded then State(o.rows, o.cols, true, s.host, o.device)
    else State(o.rows, o.cols, false, o.host, s.device)
  }

  lemma CopyAssignSelf(s: State)
    ensures CopyAssigned(s, s) == s
  {
  }

  /** Target and source after a move. */
  datatype Moved = Moved(target: State, source: State)

  /** Move assignment (operation.cpp:169-188): as a copy, except that the
      source's authoritative buffer is handed over and left empty; the
      source keeps its shape and residency. */
  function MoveAssigned(s: State, o: State): (m: Moved)
    ensures m.target == CopyAssigned(s, o)
    ensures m.source.rows == o.rows && m.source.cols == o.cols && m.source.uploaded == o.uploaded
    ensures m.source.Buffer() == []
    ensures o.uploaded ==> m.source.host == o.host
    ensures !o.uploaded ==> m.source.device == o.device
  {
    if o.uploaded then Moved(State(o.rows, o.cols, true, s.host, o.device), o.(device := []))
    else Moved(State(o.rows, o.cols, false, o.host, s.device), o.(host := []))
  }

  /** `Mat(rows, cols, vec, upload_flag)` (init.cpp:49-87): the initial buffer
      goes to video memory when the flag is set, to the host otherwise; the
      other buffer starts empty. An empty vec zero-fills a host buffer, but a
      video-memory buffer is only allocated, so its contents are whatever
      `undefined` says they are, position by position. */
  function Created(rows: nat, cols: nat, vec: seq<int>, flag: bool, undefined: nat -> int): (r: Result<State>)
    ensures r.Ok? <==> vec == [] || |vec| == rows * cols
    ensures r.Fail? ==> r.error == ShapeMismatch
    ensures r.Ok? ==> r.value.Consistent() && r.value.rows == rows && r.value.cols == cols && r.value.uploaded == flag
    ensures r.Ok? && vec != [] ==> r.value.Buffer() == vec
    ensures r.Ok? && vec == [] && !flag ==> forall i :: 0 <= i < rows * cols ==> r.value.Buffer()[i] == 0
    ensures r.Ok? && vec == [] && flag ==> forall i :: 0 <= i < rows * cols ==> r.value.Buffer()[i] == undefined(i)
    ensures r.Ok? ==> (if flag then r.value.host == [] else r.value.device == [])
  {
    match Init.InitialBuffer(rows, cols, vec)
    case Fail(e) => Fail(e)
    case Ok(buf) =>
      if !flag then Ok(State(rows, cols, false, buf, []))
      else if vec == [] then Ok(State(rows, cols, true, [], seq(rows * cols, i requires 0 <= i => undefined(i))))
      else Ok(State(rows, cols, true, [], buf))
  }

  /** The copy constructor (init.cpp:156-169) delegates to `Mat(rows, cols)`,
      which zero-fills a host buffer, then copies another's authoritative
      buffer; the copy stands for the same matrix in the same place. */
  function CopyConstructed(o: State): (t: State)
    ensures t.rows == o.rows && t.cols == o.cols && t.uploaded == o.uploaded
    ensures t.Value() == o.Value()
  {
    if o.uploaded then State(o.rows, o.cols, true, Init.Filled(o.rows * o.cols, 0), o.device)
    else State(o.rows, o.cols, false, o.host, [])
  }

  /** The move constructor (init.cpp:141-154): as the copy constructor, with
      the source's authoritative buffer handed over and left empty. */
  function MoveConstructed(o: State): (m: Moved)
    ensures m.target == CopyConstructed(o)
    ensures m.source == MoveAssigned(o, o).source
  {
    if o.uploaded then Moved(CopyConstructed(o), o.(device := []))
    else Moved(CopyConstructed(o), o.(host := []))
  }

  /** Copying never changes residency or data: copying a consistent object
      gives a consistent one holding the same matrix. */
  lemma CopiesAreFaithful(s: State, o: State)
    requires o.Consistent()
    ensures CopyConstructed(o).Consistent() && CopyAssigned(s, o).Consistent()
    ensures MoveAssigned(s, o).target.Value() == o.Value()
  {
    assert CopyConstructed(o).Buffer() == o.Buffer();
  }

  // ---------------------------------------------------------------- the stale-buffer defect

  /** The state a device-resident 2 x 2 matrix is left in when a default
      constructed matrix is copy-assigned to it: no rows, data on the host,
      and the old video-memory buffer still allocated. */
  lemma StaleDeviceBuffer()
    ensures var s := CopyAssigned(State(2, 2, true, [], [1, 2, 3, 4]), Created(0, 0, [], false, _ => 0).value);
      s == State(0, 0, false, [], [1, 2, 3, 4]) && s.Consistent() &&
      !UploadAsWritten(s).Consistent() && UploadAsWritten(s).Buffer() == [1, 2, 3, 4] &&
      Uploaded(s).Consistent() && Uploaded(s).Buffer() == []
  {
    assert Created(0, 0, [], false, _ => 0).value == State(0, 0, false, [], []);
  }

  /** The as-written upload of that state, followed by a push_back of a
      device-resident 1 x 4 row, yields a 1 x 4 matrix with eight elements. */
  lemma StaleBufferSurfaces()
    ensures var s := UploadAsWritten(State(0, 0, false, [], [1, 2, 3, 4]));
      var t := Appended(s, State(1, 4, true, [], [5, 6, 7, 8]));
      t.Ok? && t.value.rows == 1 && t.value.cols == 4 && |t.value.Buffer()| == 8
  {
  }

  // ---------------------------------------------------------------- the object

  class Mat {
    var rows: nat
    var cols: nat
    var uploaded: bool
    var host: seq<int>
    var device: seq<int>

    function Snapshot(): State
      reads this
    {
      State(rows, cols, uploaded, host, device)
    }

    /** `Mat()` (init.cpp:171-175): 0 x 0 on the host. */
    constructor Empty()
      ensures Snapshot() == Created(0, 0, [], false, _ => 0).value
    {
      rows, cols, uploaded, host, device := 0, 0, false, [], [];
    }

    /** `Mat(rows, cols, upload_flag)` (init.cpp:135-139): zero-filled on the
        host; in video memory, allocated with the contents `undefined`. */
    constructor WithShape(rows: nat, cols: nat, flag: bool, undefined: nat -> int)
      ensures Snapshot() == Created(rows, cols, [], flag, undefined).value
    {
      var s := Created(rows, cols, [], flag, undefined).value;
      this.rows, this.cols, uploaded, host, device := s.rows, s.cols, s.uploaded, s.host, s.device;
    }

    /** `Mat({...}, upload_flag)` (init.cpp:129-133): one row holding the
        list; an empty list allocates nothing, so no contents are left open. */
    constructor FromList(vec: seq<int>, flag: bool)
      ensures Snapshot() == Created(1, |vec|, vec, flag, _ => 0).value
    {
      var s := Created(1, |vec|, vec, flag, _ => 0).value;
      rows, cols, uploaded, host, device := s.rows, s.cols, s.uploaded, s.host, s.device;
    }

    /** The copy constructor. */
    constructor CopyOf(another: Mat)
      ensures Snapshot() == CopyConstructed(another.Snapshot())
    {
      var s := CopyConstructed(another.Snapshot());
      rows, cols, uploaded, host, device := s.rows, s.cols, s.uploaded, s.host, s.device;
    }

    /** The move constructor. */
    constructor MoveOf(another: Mat)
      modifies another
      ensures Snapshot() == MoveConstructed(old(another.Snapshot())).target
      ensures another.Snapshot() == MoveConstructed(old(another.Snapshot())).source
    {
      var m := MoveConstructed(another.Snapshot());
      rows, cols, uploaded, host, device := m.target.rows, m.target.cols, m.target.uploaded, m.target.host, m.target.device;
      new;
      another.host, another.device := m.source.host, m.source.device;
    }

    /** `Mat(rows, cols, vec, upload_flag)`, which throws instead of
        returning when vec has the wrong length. */
    static method Create(rows: nat, cols: nat, vec: seq<int>, flag: bool, undefined: nat -> int) returns (r: Result<Mat>)
      ensures r.Ok? <==> Created(rows, cols, vec, flag, undefined).Ok?
      ensures r.Fail? ==> r.error == Created(rows, cols, vec, flag, undefined).error
      ensures r.Ok? ==> fresh(r.value) && r.value.Snapshot() == Created(rows, cols, vec, flag, undefined).value
    {
      var made := Created(rows, cols, vec, flag, undefined);
      if made.Ok? {
        var s := made.value;
        var m := new Mat.Empty();
        m.rows, m.cols, m.uploaded, m.host, m.device := s.rows, s.cols, s.uploaded, s.host, s.device;
        r := Ok(m);
      } else {
        r := Fail(made.error);
      }
    }

    /** `Mat(path, delimiter, upload_flag)` over the lines of the file
        (init.cpp:89-127): the loaded matrix, always on the host. */
    static method FromLines(lines: seq<string>, d: char, parse: string -> int) returns (r: Result<Mat>)
      ensures r.Ok? <==> Init.Rectangular(Init.Block(lines), d)
      ensures r.Fail? ==> r.error == FormatError
      ensures r.Ok? ==> fresh(r.value) && !r.value.uploaded && r.value.device == []
      ensures r.Ok? ==> r.value.Snapshot().Consistent() && r.value.rows == |Init.Block(lines)|
      ensures r.Ok? ==> r.value.host == Init.Parsed(Init.Block(lines), d, parse)
    {
      var loaded := Init.Load(lines, d, parse);
      if loaded.Ok? {
        var m := loaded.value;
        r := Create(m.rows, m.cols, m.data, false, _ => 0);
      } else {
        r := Fail(loaded.error);
      }
    }

    /** A kernel's fresh result. */
    static method Fresh(m: Matrix) returns (r: Mat)
      ensures fresh(r) && r.Snapshot() == OnDevice(m)
    {
      r := new Mat.Empty();
      r.rows, r.cols, r.uploaded, r.device := m.rows, m.cols, true, m.data;
    }

    /** `upload()` (operation.cpp:31-46), with the corrected copy rule of
        `Uploaded`. */
    method Upload()
      modifies this
      ensures Snapshot() == Uploaded(old(Snapshot()))
    {
      if !uploaded {
        device := host;
      }
      uploaded := true;
    }

    /** `download()` (operation.cpp:48-57). */
    method Download()
      modifies this
      ensures Snapshot() == Downloaded(old(Snapshot()))
    {
      if uploaded {
        host := device;
      }
      uploaded := false;
    }

    /** `reshape(rows, cols)` (operation.cpp:99-112), which throws instead of
        returning a failed status. */
    method Reshape(rows: nat, cols: nat) returns (st: Status)
      modifies this
      ensures st.Done? <==> Reshaped(old(Snapshot()), rows, cols).Ok?
      ensures st.Done? ==> Snapshot() == Reshaped(old(Snapshot()), rows, cols).value
      ensures st.Failed? ==> st.error == ShapeMismatch && Snapshot() == old(Snapshot())
    {
      if rows * cols == this.rows * this.cols {
        this.rows, this.cols := rows, cols;
        st := Done;
      } else {
        st := Failed(ShapeMismatch);
      }
    }

    /** `push_back(another)` (operation.cpp:114-145). Pushing a matrix onto
        itself would insert a buffer's own range into that buffer, which
        `std::vector::insert` does not allow, so the argument is another
        object. */
    method PushBack(another: Mat) returns (st: Status)
      requires another != this
      modifies this
      ensures st.Done? <==> Appended(old(Snapshot()), another.Snapshot()).Ok?
      ensures st.Done? ==> Snapshot() == Appended(old(Snapshot()), another.Snapshot()).value
      ensures st.Failed? ==> st.error == ShapeMismatch && Snapshot() == old(Snapshot())
    {
      if cols == 0 || another.cols == cols {
        cols := another.cols;
        rows := rows + another.rows;
        if another.uploaded {
          Upload();
          device := device + another.device;
          uploaded := true;
        } else if uploaded {
          device := device + another.host;
        } else {
          host := host + another.host;
        }
        st := Done;
      } else {
        st := Failed(ShapeMismatch);
      }
    }

    /** `push_back({...})` (operation.cpp:147-167). */
    method PushBackRow(v: seq<int>) returns (st: Status)
      modifies this
      ensures st.Done? <==> AppendedRow(old(Snapshot()), v).Ok?
      ensures st.Done? ==> Snapshot() == AppendedRow(old(Snapshot()), v).value
      ensures st.Failed? ==> st.error == ShapeMismatch && Snapshot() == old(Snapshot())
    {
      if cols == 0 || |v| == cols {
        cols := |v|;
        rows := rows + 1;
        if uploaded {
          device := device + v;
        } else {
          host := host + v;
        }
        st := Done;
      } else {
        st := Failed(ShapeMismatch);
      }
    }

    /** Copy assignment (operation.cpp:190-209); assigning a matrix to
        itself changes nothing. */
    method AssignCopy(another: Mat)
      modifies this
      ensures Snapshot() == CopyAssigned(old(Snapshot()), old(another.Snapshot()))
    {
      if another != this {
        rows, cols, uploaded := another.rows, another.cols, another.uploaded;
        if another.uploaded {
          device := another.device;
        } else {
          host := another.host;
        }
      }
    }

    /** Move assignment (operation.cpp:169-188): the source keeps its shape
        and loses its authoritative buffer; moving a matrix into itself
        changes nothing. */
    method AssignMove(another: Mat)
      modifies this, another
      ensures another == this ==> Snapshot() == old(Snapshot())
      ensures another != this ==> Snapshot() == MoveAssigned(old(Snapshot()), old(another.Snapshot())).target
      ensures another != this ==> another.Snapshot() == MoveAssigned(old(Snapshot()), old(another.Snapshot())).source
    {
      if another != this {
        rows, cols, uploaded := another.rows, another.cols, another.uploaded;
        if another.uploaded {
          device := another.device;
          another.device := [];
        } else {
          host := another.host;
          another.host := [];
        }
      }
    }

    /** The const element read (operation.cpp:217-227): refused while the
        data is in video memory. */
    method Read(r: nat, c: nat) returns (x: Result<int>)
      requires Snapshot().Consistent() && r < rows && c < cols
      ensures x.Fail? <==> uploaded
      ensures x.Fail? ==> x.error == InvalidAccess
      ensures x.Ok? ==> x.value == Snapshot().Value().At(r, c)
    {
      if !uploaded {
        AtFlat(Snapshot().Value(), r, c);
        x := Ok(host[r * cols + c]);
      } else {
        x := Fail(InvalidAccess);
      }
    }

    /** The mutable element access (operation.cpp:211-215) read through:
        download, then the host element. */
    method Access(r: nat, c: nat) returns (x: int)
      requires Snapshot().Consistent() && r < rows && c < cols
      modifies this
      ensures Snapshot() == Downloaded(old(Snapshot()))
      ensures x == old(Snapshot().Value()).At(r, c)
    {
      Download();
      AtFlat(Snapshot().Value(), r, c);
      x := host[r * cols + c];
    }

    /** The mutable element access written through: download, then one host
        element replaced. */
    method Store(r: nat, c: nat, x: int)
      requires Snapshot().Consistent() && r < rows && c < cols
      modifies this
      ensures !uploaded && rows == old(rows) && cols == old(cols) && device == old(device)
      ensures Snapshot().Consistent() && Snapshot().Value().At(r, c) == x
      ensures forall i: nat, j: nat :: i < rows && j < cols && (i, j) != (r, c) ==>
        Snapshot().Value().At(i, j) == old(Snapshot().Value()).At(i, j)
    {
      Download();
      FlatIndexInRange(r, c, rows, cols);
      host := host[r * cols + c := x];
      forall i: nat, j: nat | i < rows && j < cols
        ensures Snapshot().Value().At(i, j) == if (i, j) == (r, c) then x else old(Snapshot().Value()).At(i, j)
      {
        AtFlat(Snapshot().Value(), i, j);
        AtFlat(old(Snapshot().Value()), i, j);
        if (i, j) != (r, c) {
          FlatIndexDistinct(i, j, r, c, cols);
        }
      }
    }

    // ------------------------------------------------------------ non-const overloads

    /** The non-const `row(i)` (operation.cpp:59-64): upload, then the const
        row as a fresh device-resident matrix. */
    method Row(i: nat) returns (r: Result<Mat>)
      requires Snapshot().Consistent()
      modifies this
      ensures Snapshot() == Uploaded(old(Snapshot()))
      ensures r.Ok? <==> i < rows
      ensures r.Fail? ==> r.error == IndexOutOfRange
      ensures r.Ok? ==> fresh(r.value) && r.value.Snapshot() == OnDevice(Operation.Row(Snapshot().Value(), i).value)
    {
      Upload();
      var v := Operation.Row(Snapshot().Value(), i);
      if v.Ok? {
        var m := Fresh(v.value);
        r := Ok(m);
      } else {
        r := Fail(v.error);
      }
    }

    /** The non-const slice `operator()(fr, lr, fc, lc)` (operation.cpp:229-234),
        and `col(j)` through it (operation.cpp:89-92). */
    method Slice(fr: nat, lr: nat, fc: nat, lc: nat) returns (r: Result<Mat>)
      requires Snapshot().Consistent()
      modifies this
      ensures Snapshot() == Uploaded(old(Snapshot()))
      ensures r.Ok? <==> Operation.Slice(Snapshot().Value(), fr, lr, fc, lc).Ok?
      ensures r.Fail? ==> r.error == IndexOutOfRange
      ensures r.Ok? ==> fresh(r.value) && r.value.Snapshot() == OnDevice(Operation.Slice(Snapshot().Value(), fr, lr, fc, lc).value)
    {
      Upload();
      var v := Operation.Slice(Snapshot().Value(), fr, lr, fc, lc);
      if v.Ok? {
        var m := Fresh(v.value);
        r := Ok(m);
      } else {
        r := Fail(v.error);
      }
    }

    /** The const `t()` (algorithm.cpp:38-77): from either buffer, into a
        fresh device-resident matrix; this is left as it was. */
    method T() returns (r: Mat)
      requires Snapshot().Consistent()
      ensures fresh(r) && r.Snapshot() == OnDevice(Algorithm.Transpose(Snapshot().Value()))
    {
      r := Fresh(Algorithm.Transpose(Snapshot().Value()));
    }

    /** The non-const `t()` (algorithm.cpp:31-36): uploads this matrix
        first, then transposes it as the const overload does. The result is
        the same; this matrix is now resident in video memory. */
    method UploadThenT() returns (r: Mat)
      requires Snapshot().Consistent()
      modifies this
      ensures Snapshot() == Uploaded(old(Snapshot())) && Snapshot().Consistent()
      ensures fresh(r) && r.Snapshot() == OnDevice(Algorithm.Transpose(old(Snapshot()).Value()))
    {
      ResidencyKeepsConsistency(Snapshot());
      assert Uploaded(Snapshot()).Value() == Snapshot().Value();
      Upload();
      r := T();
    }

    /** The const `max()` (algorithm.cpp:86-104): the device path, the host
        path below 1e6 elements and the temporary upload above it all take
        the maximum of the authoritative buffer. */
    method Max() returns (v: int)
      requires Snapshot().Consistent() && rows * cols > 0
      ensures v in Snapshot().Buffer() && forall x :: x in Snapshot().Buffer() ==> x <= v
    {
      if uploaded {
        v := Algorithm.MaxElement(device);
      } else if rows * cols < 1000000 {
        v := Algorithm.MaxElement(host);
      } else {
        // The source copies the host buffer into a temporary video-memory
        // buffer and reduces there; the copy holds the same values.
        var staged := host;
        v := Algorithm.MaxElement(staged);
      }
    }

    /** The const `min()` (algorithm.cpp:179-197), the mirror of `Max`. */
    method Min() returns (v: int)
      requires Snapshot().Consistent() && rows * cols > 0
      ensures v in Snapshot().Buffer() && forall x :: x in Snapshot().Buffer() ==> v <= x
    {
      if uploaded {
        v := Algorithm.MinElement(device);
      } else if rows * cols < 1000000 {
        v := Algorithm.MinElement(host);
      } else {
        // Staged through a temporary video-memory copy, as in Max.
        var staged := host;
        v := Algorithm.MinElement(staged);
      }
    }
  }

  /** Distinct in-range cells have distinct flat positions. */
  lemma FlatIndexDistinct(i: nat, j: nat, r: nat, c: nat, cols: nat)
    requires j < cols && c < cols && (i, j) != (r, c)
    ensures i * cols + j != r * cols + c
  {
    if i == r {
    } else if i < r {
      FlatIndexInRange(i, j, r, cols);
    } else {
      FlatIndexInRange(r, c, i, cols);
    }
  }

  /** `mul(Mat& a, Mat& b, ...)` (arithmetic.cpp:34-41): both operands are
      uploaded, then multiplied. The overloads taking one operand non-const
      (arithmetic.cpp:43-55) upload only that one. */
  method MulUploading(a: Mat, b: Mat, ta: bool, tb: bool) returns (r: Result<Mat>)
    requires a.Snapshot().Consistent() && b.Snapshot().Consistent()
    modifies a, b
    ensures a.Snapshot() == Uploaded(old(a.Snapshot())) && b.Snapshot() == Uploaded(old(b.Snapshot()))
    ensures r.Ok? <==> Gemm.Mul(a.Snapshot().Value(), b.Snapshot().Value(), ta, tb).Ok?
    ensures r.Fail? ==> r.error == ShapeMismatch
    ensures r.Ok? ==> fresh(r.value) && r.value.Snapshot() == OnDevice(Gemm.Mul(a.Snapshot().Value(), b.Snapshot().Value(), ta, tb).value)
  {
    a.Upload();
    b.Upload();
    var v := Gemm.Mul(a.Snapshot().Value(), b.Snapshot().Value(), ta, tb);
    if v.Ok? {
      var m := Mat.Fresh(v.value);
      r := Ok(m);
    } else {
      r := Fail(v.error);
    }
  }

  /** `operator+(Mat& a, const Mat& b)` (arithmetic.cpp:158-162): only the
      non-const left operand is uploaded; the const right one is untouched.
      The other binary operators follow the same pattern. */
  method AddUploadingLeft(a: Mat, b: Mat) returns (r: Result<Mat>)
    requires a.Snapshot().Consistent() && b.Snapshot().Consistent()
    modifies a
    ensures a.Snapshot() == Uploaded(old(a.Snapshot())) && (b != a ==> b.Snapshot() == old(b.Snapshot()))
    ensures r.Ok? <==> Arithmetic.Add(a.Snapshot().Value(), b.Snapshot().Value()).Ok?
    ensures r.Fail? ==> r.error == ShapeMismatch
    ensures r.Ok? ==> fresh(r.value) && r.value.Snapshot() == OnDevice(Arithmetic.Add(a.Snapshot().Value(), b.Snapshot().Value()).value)
  {
    a.Upload();
    var v := Arithmetic.Add(a.Snapshot().Value(), b.Snapshot().Value());
    if v.Ok? {
      var m := Mat.Fresh(v.value);
      r := Ok(m);
    } else {
      r := Fail(v.error);
    }
  }

  /** Unary minus on a non-const matrix (arithmetic.cpp:119-123): upload,
      then negate into a fresh device-resident matrix. */
  method NegUploading(a: Mat) returns (r: Mat)
    requires a.Snapshot().Consistent()
    modifies a
    ensures a.Snapshot() == Uploaded(old(a.Snapshot()))
    ensures fresh(r) && r.Snapshot() == OnDevice(Arithmetic.Neg(a.Snapshot().Value()))
  {
    a.Upload();
    r := Mat.Fresh(Arithmetic.Neg(a.Snapshot().Value()));
  }
}
