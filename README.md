# lav_mat in Dafny

lav_mat is a small C++ matrix library that runs its element-wise operators,
products, reductions and convolutions on the GPU through OpenCL. A `Mat`
holds `rows`, `cols`, an `uploaded` flag and two buffers of `float`s: a host
buffer (`c_buffer`) and a video-memory buffer (`g_buffer`). The flag says
which buffer holds the data. Most operations move the data to whichever
side they need (`upload`, `download`) and return a fresh matrix that lives
in video memory.

This project models that library over unbounded integers:

- `Matrices` (matrix.dfy): a matrix value (`rows`, `cols`, row-major
  `data`), its well-formedness, entry access `At`, and `Build`, which
  constructs a matrix from an entry function.
- `Mats` (mat.dfy): the `Mat` object as a class whose fields are its shape,
  its residency flag and its two buffers. It models residency (upload,
  download), the constructors, reshape, push_back, copy and move
  assignment, element access, and the non-const overloads that upload
  before they compute. The same transitions are also functions on a
  `State` value, and the lemmas are stated about those functions.
- `Init` (init.dfy): the constructor's initial buffer; `Ones`, `Zeros`
  and `Eyes`; and the text loader, which splits lines into fields at a
  delimiter.
- `Elementwise` (elementwise.dfy): `unary_op`, and `binary_op` with its
  row and column broadcasting.
- `Arithmetic` (arithmetic.dfy): negation, the arithmetic and comparison
  operators in their scalar-left, scalar-right and matrix-matrix forms,
  and the element-wise `max`/`min` overloads.
- `Gemm` (gemm.dfy): `mul(a, b, ta, tb)`, the matrix product with
  optional transposition of either operand.
- `Operation` (operation.dfy): `row`, `col` and the sub-matrix slice.
- `Algorithm` (algorithm.dfy): the transpose `t()`, `max`/`min` over the
  whole matrix and along an axis, `max_loc`/`min_loc`, and `sum`/`mean`
  along an axis.
- `Shuffle` (shuffle.dfy): `shuffle(mat, axis, same_as_last_time)`, a
  Fisher–Yates permutation over draws given as input, kept between calls
  in a cache, followed by a gather of the lines it names.
- `Convolution` (convolution.dfy): `conv4d`, which checks its arguments,
  unfolds the images (im2col) and multiplies the result by the filters.

Exceptions become `Fail(e)` results (`ShapeMismatch`, `IndexOutOfRange`,
`FormatError`, `InvalidArgument`, `InvalidAccess`); methods that update an
object in place return a `Status`. Every source path below is relative to
the repository root.

## Model

| member | source | states |
|---|---|---|
| Init.InitialBuffer | lavender/lav_mat/src/init.cpp:58-86 | A rows x cols matrix is built from `vec` exactly when `vec` is empty or has rows*cols elements. A non-empty `vec` is taken unchanged; an empty one gives the host buffer's rows*cols zeros. Any other length fails with ShapeMismatch. |
| Init.Ones | lavender/lav_mat/src/init.cpp:189-192 | The result is rows x cols and every entry is 1. |
| Init.Zeros | lavender/lav_mat/src/init.cpp:194-197 | The result is rows x cols and every entry is 0. |
| Init.DiagonalPosition | lavender/lav_mat/src/init.cpp:181-184 | In an n x n buffer, the flat position of (i, j) is a multiple of n + 1 exactly when i == j. So the loop's stride of n + 1 visits exactly the diagonal. |
| Init.Eyes | lavender/lav_mat/src/init.cpp:177-187 | The loop produces an n x n matrix whose entry (i, j) is 1 when i == j and 0 otherwise. The flat buffer holds 1 exactly at the multiples of n + 1. |
| Init.FieldsJoin | lavender/lav_mat/src/init.cpp:105-109 | Splitting a line at the delimiter loses only a final delimiter: joining the fields with the delimiter, plus that final delimiter if the line ended with one, gives back the line. |
| Init.FieldsHaveNoDelimiter | lavender/lav_mat/src/init.cpp:105-109 | No field produced by the split contains the delimiter. |
| Init.Block | lavender/lav_mat/src/init.cpp:100 | The loader reads the lines before the first empty line: all of them non-empty, a prefix of the input, and either the whole input or stopped by an empty line. |
| Init.Load | lavender/lav_mat/src/init.cpp:89-127 | Loading succeeds exactly when every line of that block has as many fields as the first; otherwise it fails with FormatError. On success there is one row per line, one column per field of the first line (0 when there are no lines), and the data is every line's parsed fields, row after row. |
| Mats.UploadAsWritten | lavender/lav_mat/src/operation.cpp:31-46 | `upload` as written. Afterwards the matrix is on the device and its shape and host buffer are kept. The device buffer is kept when the data was already there, and is the host buffer when the host buffer is non-empty. |
| Mats.Uploaded | lavender/lav_mat/src/operation.cpp:31-46 | Corrected `upload`: afterwards the matrix is on the device, with the same shape, host buffer and data. |
| Mats.UploadAgrees | lavender/lav_mat/src/operation.cpp:33 | The two uploads agree whenever the data is already on the device or the host buffer is non-empty. |
| Mats.Downloaded | lavender/lav_mat/src/operation.cpp:48-57 | `download`: afterwards the matrix is on the host, with the same shape, device buffer and data. A matrix already on the host is unchanged. |
| Mats.ResidencyIdempotent | lavender/lav_mat/src/operation.cpp:31-57 | Uploading twice is the same as uploading once, and so is downloading twice; this holds for the as-written upload too. |
| Mats.RoundTrip | lavender/lav_mat/src/operation.cpp:31-57 | Upload then download puts the data back on the host; download then upload puts it back on the device. A host matrix returns to its starting state, except that the device now holds a copy. |
| Mats.ResidencyKeepsConsistency | lavender/lav_mat/src/operation.cpp:31-57 | Both transfers keep the authoritative buffer at rows*cols elements. |
| Mats.Reshaped | lavender/lav_mat/src/operation.cpp:99-112 | Reshape succeeds exactly when the element count is unchanged; otherwise it fails with ShapeMismatch. On success the new shape is set and both buffers and the flag are untouched. |
| Mats.ReshapeKeepsData | lavender/lav_mat/src/operation.cpp:99-112 | A reshape keeps the matrix consistent and keeps its row-major data. |
| Mats.Appended | lavender/lav_mat/src/operation.cpp:114-145 | `push_back(another)` succeeds when this matrix has no columns or the column counts agree; otherwise it fails with ShapeMismatch. On success the rows add up, the column count is `another`'s, the data is on the device if either operand's was, and the data is this matrix's followed by `another`'s. |
| Mats.StackedRows | lavender/lav_mat/src/operation.cpp:114-145 | Stacking two matrices with the same column count keeps every entry of the first at its place, and moves every entry of the second down by the first's row count. |
| Mats.AppendedEntries | lavender/lav_mat/src/operation.cpp:114-145 | The same, stated about the state after `push_back`. |
| Mats.AppendedRow | lavender/lav_mat/src/operation.cpp:147-167 | `push_back({...})` succeeds when there are no columns yet or the list has `cols` values. It adds one row, keeps the residency, and appends the list to the data. |
| Mats.AppendedRowIsAppended | lavender/lav_mat/src/operation.cpp:114-167 | Pushing a list gives the same matrix as pushing a one-row host matrix that holds it. |
| Mats.CopyAssigned | lavender/lav_mat/src/operation.cpp:190-209 | After copy assignment the target has the source's shape, flag and data. The target's buffer on the side that is not authoritative is left as it was. |
| Mats.CopyAssignSelf | lavender/lav_mat/src/operation.cpp:192 | Self-assignment changes nothing. |
| Mats.MoveAssigned | lavender/lav_mat/src/operation.cpp:169-188 | The target of a move assignment is what a copy would give. The moved-from matrix keeps its shape and flag but its authoritative buffer is empty. |
| Mats.Created | lavender/lav_mat/src/init.cpp:49-87 | The constructor succeeds exactly as `InitialBuffer` does, failing with ShapeMismatch otherwise. The data goes to the side chosen by `upload_flag`, and the other buffer is empty. A non-empty `vec` is the data. An empty `vec` gives rows*cols zeros on the host, but in video memory only an allocation of rows*cols entries whose contents are the parameter `undefined`. |
| Mats.CopyConstructed | lavender/lav_mat/src/init.cpp:156-169 | A copy has the original's shape, flag and data. |
| Mats.MoveConstructed | lavender/lav_mat/src/init.cpp:141-154 | A move-constructed matrix equals a copy, and the original is left as a move assignment leaves it. |
| Mats.CopiesAreFaithful | lavender/lav_mat/src/init.cpp:141-169 | Copy construction and copy assignment of a consistent matrix produce a consistent matrix, and the target of a move assignment holds the moved matrix's value. |
| Mats.StaleDeviceBuffer | lavender/lav_mat/src/operation.cpp:33 | Copy-assigning an empty host matrix to a device matrix leaves the old device buffer in place. After that, the as-written upload makes the stale buffer authoritative, so the matrix is 0 x 0 but holds four elements; the corrected upload does not. |
| Mats.StaleBufferSurfaces | lavender/lav_mat/src/operation.cpp:33 | After that upload, a `push_back` of a device-resident 1 x 4 row gives a 1 x 4 matrix with eight elements. |
| Mats.Mat.Upload | lavender/lav_mat/src/operation.cpp:31-46 | The object's new state is `Uploaded` of its old state. |
| Mats.Mat.Download | lavender/lav_mat/src/operation.cpp:48-57 | The object's new state is `Downloaded` of its old state. |
| Mats.Mat.Reshape | lavender/lav_mat/src/operation.cpp:99-112 | The object's new state is `Reshaped` of its old state; on failure nothing changes. |
| Mats.Mat.PushBack | lavender/lav_mat/src/operation.cpp:114-145 | The object's new state is `Appended`; on failure nothing changes. |
| Mats.Mat.PushBackRow | lavender/lav_mat/src/operation.cpp:147-167 | The object's new state is `AppendedRow`; on failure nothing changes. |
| Mats.Mat.AssignCopy | lavender/lav_mat/src/operation.cpp:190-209 | The object's new state is `CopyAssigned`. |
| Mats.Mat.AssignMove | lavender/lav_mat/src/operation.cpp:169-188 | Both objects end as `MoveAssigned` says; moving an object into itself changes nothing. |
| Mats.Mat.Empty | lavender/lav_mat/src/init.cpp:171-175 | The default constructor gives a 0 x 0 host matrix with empty buffers. |
| Mats.Mat.WithShape | lavender/lav_mat/src/init.cpp:135-139 | A rows x cols matrix on the side chosen by `upload_flag`: zero-filled on the host, and holding the unspecified contents `undefined` in video memory. |
| Mats.Mat.FromList | lavender/lav_mat/src/init.cpp:129-133 | A single row holding the list. |
| Mats.Mat.CopyOf | lavender/lav_mat/src/init.cpp:156-169 | The new object is `CopyConstructed` of the argument. |
| Mats.Mat.MoveOf | lavender/lav_mat/src/init.cpp:141-154 | The new object and the argument end as `MoveConstructed` says. |
| Mats.Mat.Create | lavender/lav_mat/src/init.cpp:49-87 | The new object exists exactly when `Created` succeeds, and then has its state; otherwise the result is `Created`'s error. |
| Mats.Mat.FromLines | lavender/lav_mat/src/init.cpp:89-127 | A host matrix exists exactly when the block is rectangular, with one row per line and the parsed values as data. Otherwise the result is FormatError. |
| Mats.Mat.Read | lavender/lav_mat/src/operation.cpp:217-227 | The const element read fails with InvalidAccess exactly when the data is on the device; otherwise it returns entry (r, c). |
| Mats.Mat.Access | lavender/lav_mat/src/operation.cpp:211-215 | The non-const access downloads, then yields entry (r, c) of the old value. |
| Mats.Mat.Store | lavender/lav_mat/src/operation.cpp:211-215 | Writing through the non-const access leaves a consistent host matrix with the same shape. Entry (r, c) becomes x and every other entry is unchanged. |
| Mats.Mat.Row | lavender/lav_mat/src/operation.cpp:59-64 | The non-const `row(i)` uploads this matrix. It fails with IndexOutOfRange exactly when i is out of range; otherwise it returns a fresh device matrix holding the const row. |
| Mats.Mat.Slice | lavender/lav_mat/src/operation.cpp:229-234 | The non-const slice uploads this matrix, then succeeds or fails exactly as the const slice does, returning a fresh device matrix. |
| Mats.Mat.T | lavender/lav_mat/src/algorithm.cpp:38-77 | The const `t()`: the transpose is a fresh device matrix, and this matrix is unchanged. |
| Mats.Mat.UploadThenT | lavender/lav_mat/src/algorithm.cpp:31-36 | The non-const `t()` leaves this matrix uploaded, with the same value, and returns the transpose of its old value as a fresh device matrix. |
| Mats.Mat.Max | lavender/lav_mat/src/algorithm.cpp:86-104 | On all three paths, the result is an element of the authoritative buffer and no element exceeds it. |
| Mats.Mat.Min | lavender/lav_mat/src/algorithm.cpp:179-197 | On all three paths, the result is an element of the authoritative buffer and no element is below it. |
| Mats.MulUploading | lavender/lav_mat/src/arithmetic.cpp:34-41 | Both operands are uploaded. The product exists exactly when `Gemm.Mul` succeeds, and is then a fresh device matrix; otherwise it fails with ShapeMismatch. |
| Mats.AddUploadingLeft | lavender/lav_mat/src/arithmetic.cpp:158-162 | Only the non-const left operand is uploaded and the right one is unchanged. The sum is `Arithmetic.Add` of the two, or ShapeMismatch. |
| Mats.NegUploading | lavender/lav_mat/src/arithmetic.cpp:119-123 | The operand is uploaded and the result is its negation, in a fresh device matrix. |
| Elementwise.UnaryOp | lavender/lav_mat/src/operation.hpp:41-60 | The result has the operand's shape and `op` applied to each entry. |
| Elementwise.UnaryOpCompose | lavender/lav_mat/src/operation.hpp:41-60 | Applying f and then g element-wise is the same as applying their composition once. |
| Elementwise.ZipWith | lavender/lav_mat/src/operation.hpp:65-92 | For two matrices of the same shape, the result has that shape and holds `op` of the corresponding entries. |
| Elementwise.Combine | lavender/lav_mat/src/operation.hpp:94-97 | The same-shape case succeeds exactly when the shapes agree. |
| Elementwise.ReplicateColumn | lavender/lav_mat/src/operation.hpp:102-106 | `mul(a, Ones(1, n))` repeats a column vector across n columns. |
| Elementwise.ReplicateRow | lavender/lav_mat/src/operation.hpp:117 | `mul(Ones(n, 1), a)` repeats a row vector down n rows. |
| Elementwise.BinaryOp | lavender/lav_mat/src/operation.hpp:62-124 | `binary_op` succeeds exactly when the shapes are equal or a one-column or one-row operand is broadcast along the other. Each result entry is `op` of the broadcast operands; otherwise the result is ShapeMismatch. |
| Elementwise.BinaryOpSwap | lavender/lav_mat/src/operation.hpp:62-124 | Swapping the operands and flipping the operator gives the same result. |
| Elementwise.BinaryOpAsWritten | lavender/lav_mat/src/operation.hpp:62-124 | `binary_op` as written. It fails on every shape pair that is not broadcastable, and also whenever a one-row left operand would be broadcast. |
| Elementwise.AsWrittenAgrees | lavender/lav_mat/src/operation.hpp:62-124 | Outside that left-row case the as-written and corrected `binary_op` agree. |
| Elementwise.LeftRowBroadcastFails | lavender/lav_mat/src/operation.hpp:113 | A 1 x 2 left operand against a 2 x 2 right one fails as written but succeeds in the corrected version. |
| Arithmetic.Neg | lavender/lav_mat/src/arithmetic.cpp:124-128 | Each entry of the result plus the matching entry of the operand is 0. |
| Arithmetic.NegNeg | lavender/lav_mat/src/arithmetic.cpp:119-128 | Negating twice gives back the matrix. |
| Arithmetic.AddScalar | lavender/lav_mat/src/arithmetic.cpp:140-149 | `m + th`: each entry exceeds the operand's by th. |
| Arithmetic.ScalarAdd | lavender/lav_mat/src/arithmetic.cpp:130-138 | `th + m`: each entry is th plus the operand's. |
| Arithmetic.AddZero | lavender/lav_mat/src/arithmetic.cpp:140-149 | Adding 0 changes nothing. |
| Arithmetic.SubScalar | lavender/lav_mat/src/arithmetic.cpp:186-195 | `m - th`: each entry plus th is the operand's. |
| Arithmetic.ScalarSub | lavender/lav_mat/src/arithmetic.cpp:175-184 | `th - m`: each entry plus the operand's is th. |
| Arithmetic.ScalarSubIsNegSub | lavender/lav_mat/src/arithmetic.cpp:175-195 | `th - m` equals `-(m - th)`. |
| Arithmetic.MulScalar | lavender/lav_mat/src/arithmetic.cpp:232-241 | `m * th`: each entry is scaled by th. |
| Arithmetic.ScalarMul | lavender/lav_mat/src/arithmetic.cpp:221-230 | `th * m`: each entry is scaled by th. |
| Arithmetic.MulOne | lavender/lav_mat/src/arithmetic.cpp:232-241 | Scaling by 1 changes nothing. |
| Arithmetic.Add | lavender/lav_mat/src/arithmetic.cpp:151-173 | Matrix `+` combines the operands entry-wise with broadcasting, exactly as `binary_op` does. |
| Arithmetic.Sub | lavender/lav_mat/src/arithmetic.cpp:197-219 | Matrix `-` likewise. |
| Arithmetic.Times | lavender/lav_mat/src/arithmetic.cpp:243-265 | Matrix `*` (element-wise) likewise. |
| Arithmetic.AddCommutes | lavender/lav_mat/src/arithmetic.cpp:151-173 | a + b and b + a succeed together and are equal. |
| Arithmetic.SubIsAddNeg | lavender/lav_mat/src/arithmetic.cpp:151-219 | a - b is a + (-b). |
| Arithmetic.SubAntisymmetric | lavender/lav_mat/src/arithmetic.cpp:197-219 | a - b and b - a succeed together, and a - b is -(b - a). |
| Arithmetic.GtScalar | lavender/lav_mat/src/arithmetic.cpp:404-413 | `m > th` is 1 where the entry exceeds th and 0 elsewhere. |
| Arithmetic.ScalarGt | lavender/lav_mat/src/arithmetic.cpp:393-402 | `th > m` is 1 where th exceeds the entry and 0 elsewhere. |
| Arithmetic.GeScalar | lavender/lav_mat/src/arithmetic.cpp:450-459 | `m >= th` as an indicator matrix. |
| Arithmetic.ScalarGe | lavender/lav_mat/src/arithmetic.cpp:439-448 | `th >= m` as an indicator matrix. |
| Arithmetic.LtScalar | lavender/lav_mat/src/arithmetic.cpp:323-331 | `m < th` as an indicator matrix. |
| Arithmetic.ScalarLt | lavender/lav_mat/src/arithmetic.cpp:313-321 | `th < m` as an indicator matrix. |
| Arithmetic.LeScalar | lavender/lav_mat/src/arithmetic.cpp:363-371 | `m <= th` as an indicator matrix. |
| Arithmetic.ScalarLe | lavender/lav_mat/src/arithmetic.cpp:353-361 | `th <= m` as an indicator matrix. |
| Arithmetic.EqScalar | lavender/lav_mat/src/arithmetic.cpp:495-504 | `m == th` as an indicator matrix. |
| Arithmetic.ScalarEq | lavender/lav_mat/src/arithmetic.cpp:485-493 | `th == m` as an indicator matrix. |
| Arithmetic.NeScalar | lavender/lav_mat/src/arithmetic.cpp:540-550 | `m != th` as an indicator matrix. |
| Arithmetic.ScalarNe | lavender/lav_mat/src/arithmetic.cpp:530-538 | `th != m` as an indicator matrix. |
| Arithmetic.EqNeComplement | lavender/lav_mat/src/arithmetic.cpp:495-550 | `m == th` is 1 minus `m != th`. |
| Arithmetic.GtLeComplement | lavender/lav_mat/src/arithmetic.cpp:363-413 | `m > th` is 1 minus `m <= th`. |
| Arithmetic.Gt | lavender/lav_mat/src/arithmetic.cpp:415-437 | Matrix `>` is the broadcast indicator of a > b. |
| Arithmetic.Ge | lavender/lav_mat/src/arithmetic.cpp:461-483 | Matrix `>=` is the broadcast indicator of a >= b. |
| Arithmetic.Lt | lavender/lav_mat/src/arithmetic.cpp:333-351 | Matrix `<` is the broadcast indicator of a < b. |
| Arithmetic.Le | lavender/lav_mat/src/arithmetic.cpp:373-391 | Matrix `<=` is the broadcast indicator of a <= b. |
| Arithmetic.Eq | lavender/lav_mat/src/arithmetic.cpp:506-528 | Matrix `==` is the broadcast indicator of a == b. |
| Arithmetic.Ne | lavender/lav_mat/src/arithmetic.cpp:552-573 | Matrix `!=` is the broadcast indicator of a != b. |
| Arithmetic.LtGeComplement | lavender/lav_mat/src/arithmetic.cpp:333-391 | a < b and a >= b succeed together, and a < b is 1 minus a >= b. |
| Arithmetic.MaxScalar | lavender/lav_mat/src/algorithm.cpp:501-510 | `max(m, th)`: each entry is the larger of the entry and th. |
| Arithmetic.ScalarMax | lavender/lav_mat/src/algorithm.cpp:491-499 | `max(th, m)` likewise. |
| Arithmetic.MinScalar | lavender/lav_mat/src/algorithm.cpp:546-555 | `min(m, th)`: each entry is the smaller of the entry and th. |
| Arithmetic.ScalarMin | lavender/lav_mat/src/algorithm.cpp:536-544 | `min(th, m)` likewise. |
| Arithmetic.MaxOf | lavender/lav_mat/src/algorithm.cpp:512-534 | `max(a, b)` is the broadcast entry-wise maximum. |
| Arithmetic.MinOf | lavender/lav_mat/src/algorithm.cpp:557-579 | `min(a, b)` is the broadcast entry-wise minimum. |
| Arithmetic.ClampBounds | lavender/lav_mat/src/algorithm.cpp:491-555 | `min(max(m, lo), hi)` with lo <= hi keeps every entry between lo and hi. |
| Gemm.Mul | lavender/lav_mat/src/arithmetic.cpp:57-117 | The product succeeds exactly when the inner dimensions of op(a) and op(b) agree; otherwise it fails with ShapeMismatch. The result is op(a)'s rows by op(b)'s columns, and entry (i, j) is the dot product of row i of op(a) and column j of op(b). |
| Gemm.MulIdentityRight | lavender/lav_mat/src/arithmetic.cpp:57-117 | m times the identity is m. |
| Gemm.MulIdentityLeft | lavender/lav_mat/src/arithmetic.cpp:57-117 | The identity times m is m. |
| Gemm.DotSwap | lavender/lav_mat/src/arithmetic.cpp:57-117 | Each dot product of op(a) and op(b) equals the transposed one of op(b)^T and op(a)^T. |
| Gemm.MulReverse | lavender/lav_mat/src/arithmetic.cpp:57-117 | (op(a) op(b))^T = op(b)^T op(a)^T: the two succeed together and their entries are transposed. |
| Gemm.NestingsAgree | lavender/lav_mat/src/arithmetic.cpp:57-117 | The double sum behind a triple product may be taken in either order: summing (a b)(i, l) c(l, j) over l equals summing a(i, k) (b c)(k, j) over k. |
| Gemm.MulAssociative | lavender/lav_mat/src/arithmetic.cpp:57-117 | The product is associative: when a b and b c are defined, (a b) c and a (b c) both succeed and are equal. |
| Gemm.DotOnesRight | lavender/lav_mat/src/algorithm.cpp:303-313 | Multiplying by a column of ones sums a row. |
| Gemm.DotOnesLeft | lavender/lav_mat/src/algorithm.cpp:303-313 | Multiplying a row of ones by a matrix sums a column. |
| Gemm.SingleTerm | lavender/lav_mat/src/arithmetic.cpp:57-117 | With inner dimension 1 each entry of the product is a single product of entries. |
| Operation.Row | lavender/lav_mat/src/operation.cpp:66-87 | `row(i)` succeeds exactly when i < rows, as a 1 x cols copy of row i; otherwise it fails with IndexOutOfRange. |
| Operation.RowIsContiguous | lavender/lav_mat/src/operation.cpp:66-87 | Row i is the contiguous stretch i*cols .. (i+1)*cols of the data. |
| Operation.Slice | lavender/lav_mat/src/operation.cpp:236-301 | The slice succeeds exactly when both ranges are in bounds and non-empty, where a bound pair (0, 0) selects the whole axis; otherwise it fails with IndexOutOfRange. The result has the ranges' extents and entry (i, j) is entry (fr + i, fc + j) of the matrix. |
| Operation.SliceKernel | lavender/lav_mat/src/operation.cpp:240-251 | The copy kernel sends each in-range flat position k to the slice entry at (k / cols - fr, k % cols - fc). |
| Operation.SliceWhole | lavender/lav_mat/src/operation.cpp:236-301 | The slice (0, 0, 0, 0) of a non-empty matrix is the matrix itself. |
| Operation.RowIsSlice | lavender/lav_mat/src/operation.cpp:66-87 | When there are columns, row i is the slice (i, i + 1, 0, 0). With no columns, the row exists but the slice fails. |
| Operation.Col | lavender/lav_mat/src/operation.cpp:89-97 | `col(j)` succeeds exactly when j < cols and there are rows, as a rows x 1 copy of column j; otherwise it fails with IndexOutOfRange. |
| Algorithm.Transpose | lavender/lav_mat/src/algorithm.cpp:38-77 | The transpose is cols x rows and its entry (i, j) is entry (j, i) of the matrix. |
| Algorithm.TransposeKernel | lavender/lav_mat/src/algorithm.cpp:42-47 | The kernel moves flat position r*cols + c to c*rows + r. |
| Algorithm.TransposeInvolution | lavender/lav_mat/src/algorithm.cpp:38-77 | Transposing twice gives back the matrix. |
| Algorithm.MulTransposeFlag | lavender/lav_mat/src/algorithm.cpp:38-77 | Multiplying with the transpose flag set equals multiplying the transposed matrix. |
| Algorithm.LinesOfTranspose | lavender/lav_mat/src/algorithm.cpp:38-77 | The lines along one axis of the transpose are the lines along the other axis of the matrix. |
| Algorithm.LineMaxUnique | lavender/lav_mat/src/algorithm.cpp:117-139 | A line has a single maximum value. |
| Algorithm.LineMax | lavender/lav_mat/src/algorithm.cpp:117-139 | The kernel's loop returns an element of the line that no element exceeds. |
| Algorithm.LineMin | lavender/lav_mat/src/algorithm.cpp:210-232 | The kernel's loop returns an element of the line that no element is below. |
| Algorithm.MaxAxis | lavender/lav_mat/src/algorithm.cpp:113-170 | `max(axis)` is rows x 1 for axis true and 1 x cols otherwise, and entry i is the maximum of line i. |
| Algorithm.MinAxis | lavender/lav_mat/src/algorithm.cpp:206-263 | `min(axis)` likewise, with the minimum of line i. |
| Algorithm.LineMaxLoc | lavender/lav_mat/src/algorithm.cpp:350-382 | The kernel returns the first position holding the line's maximum. |
| Algorithm.LineMinLoc | lavender/lav_mat/src/algorithm.cpp:426-458 | The kernel returns the first position holding the line's minimum. |
| Algorithm.MaxLoc | lavender/lav_mat/src/algorithm.cpp:346-413 | `max_loc(axis)` gives, for each line, the first position of its maximum. |
| Algorithm.MinLoc | lavender/lav_mat/src/algorithm.cpp:422-489 | `min_loc(axis)` gives, for each line, the first position of its minimum. |
| Algorithm.MaxElement | lavender/lav_mat/src/algorithm.cpp:86-104 | The host loop returns an element of the buffer that no element exceeds. |
| Algorithm.MinElement | lavender/lav_mat/src/algorithm.cpp:179-197 | The host loop returns an element of the buffer that no element is below. |
| Algorithm.SumAxis | lavender/lav_mat/src/algorithm.cpp:303-313 | `sum(axis)` is rows x 1 holding the row sums for axis true, and 1 x cols holding the column sums otherwise. |
| Algorithm.MeanAxis | lavender/lav_mat/src/algorithm.cpp:334-337 | `mean(axis)` is each of those sums divided by the line length. |
| Shuffle.Pick | lavender/lav_mat/src/algorithm.cpp:693 | The exchange partner `randint % (i + 1)` is at most i. |
| Shuffle.SwapPermutes | lavender/lav_mat/src/algorithm.cpp:693 | `std::swap` of two positions keeps the multiset of the indices. |
| Shuffle.StepsPermutes | lavender/lav_mat/src/algorithm.cpp:684-694 | Whatever the draws, the passes only rearrange the indices. |
| Shuffle.ShuffledIdentity | lavender/lav_mat/src/algorithm.cpp:680-694 | The shuffled 0 .. n-1 is a permutation of 0 .. n-1. |
| Shuffle.FisherYates | lavender/lav_mat/src/algorithm.cpp:680-694 | The array loop computes the passes on 0 .. n-1, and the result is a permutation of 0 .. n-1. |
| Shuffle.Exchange | lavender/lav_mat/src/algorithm.cpp:693 | The array afterwards is the old one with the two positions exchanged. |
| Shuffle.Gather | lavender/lav_mat/src/algorithm.cpp:699-750 | The gather keeps the shape, and row (axis true) or column i of the result is line idx[i] of the matrix. |
| Shuffle.GatherIdentity | lavender/lav_mat/src/algorithm.cpp:699-750 | Gathering by 0 .. n-1 gives back the matrix. |
| Shuffle.GatherInverse | lavender/lav_mat/src/algorithm.cpp:699-750 | Gathering by p and then by the inverse of p gives back the matrix, so a shuffle can be undone. |
| Shuffle.GatherKeepsEveryLine | lavender/lav_mat/src/algorithm.cpp:699-750 | Every line of the matrix appears in the shuffled matrix. |
| Shuffle.ReuseAsWrittenIsWrong | lavender/lav_mat/src/algorithm.cpp:676 | With the reuse test as written, a stale permutation is reused although a fresh one was asked for or its length is wrong. The corrected rule regenerates in both cases. |
| Shuffle.ShuffleCache.constructor | lavender/lav_mat/src/algorithm.cpp:672-674 | The cache starts at shape 0 x 0 with no indices. |
| Shuffle.ShuffleCache.Shuffle | lavender/lav_mat/src/algorithm.cpp:662-751 | The cached indices stay a permutation of their length and match the number of lines. They are kept exactly when reuse is asked for and fits; otherwise they are regenerated and the shape is recorded. The result is the gather by them. |
| Convolution.Extend | lavender/lav_mat/src/convolution.cpp:109-114 | The size descriptor is padded with 1s to five entries, keeping the given ones. |
| Convolution.ValidWindowFits | lavender/lav_mat/src/convolution.cpp:123-124 | In valid mode every filter window placed at an output position lies inside the image. |
| Convolution.ValidReadInBounds | lavender/lav_mat/src/convolution.cpp:78-84 | In valid mode every work item reads a pixel inside the image. |
| Convolution.Decompose | lavender/lav_mat/src/convolution.cpp:65-76 | Each work item splits into a batch entry, output position, filter tap and channel, all in range. |
| Convolution.Unfold | lavender/lav_mat/src/convolution.cpp:63-99 | The unfolded matrix has one row per output position and batch entry, and one column per channel and filter tap. Each entry is the image value under that tap. |
| Convolution.DecomposeCompose | lavender/lav_mat/src/convolution.cpp:65-76 | Every item (batch entry, output position, filter tap, channel) in range is handled by a launched work item, and the kernel's decomposition recovers it from that work item's position. |
| Convolution.SameModeUnitStride | lavender/lav_mat/src/convolution.cpp:123-124 | In same mode with stride 1 the output grid is the image grid: w positions across and h down. |
| Convolution.SameCentreTap | lavender/lav_mat/src/convolution.cpp:85-98 | In same mode with stride 1 the centre tap of output position (nr, nc) reads pixel (nr, nc) of the same batch entry and channel. The unfolded row of that position is the image row of that pixel. |
| Convolution.Conv4d | lavender/lav_mat/src/convolution.cpp:59-172 | The checks come in the source's order: an unknown padding gives InvalidArgument; a descriptor longer than five gives FormatError; an even filter side gives FormatError; mismatched sizes give ShapeMismatch. Otherwise the result is the unfolded matrix times g. |
| Convolution.OutputPositions | lavender/lav_mat/src/convolution.cpp:123-124 | A 4 x 4 image with a 3 x 3 filter has 2 x 2 output positions in valid mode and 4 x 4 in same mode. An even filter and an unknown padding are refused. |
| Convolution.RampTap | lavender/lav_mat/src/convolution.cpp:63-99 | In valid mode with stride 1, tap c of output position r of a 4 x 4 image reads the pixel at row r / 2 + c / 3 and column r % 2 + c % 3. |
| Convolution.BoxFilterSums | lavender/lav_mat/src/convolution.cpp:59-172 | `conv4d` of the 4 x 4 image holding 1 to 16 with a 3 x 3 filter of ones in valid mode is the 4 x 1 matrix [54, 63, 90, 99]: each output is the sum of the window under it. |

## Left out

- OpenCL, Boost.Compute and clBLAS: the context, queue and program setup, kernel compilation and launch, events and their waits, and device-memory allocation failures are not modelled. A kernel is modelled by the values it computes.
- Floating point: entries are unbounded integers. `/` and `mean` take the division as a parameter; `math.cpp` (exp, log, pow, sqrt and the like) is not part of this model.
- The integer widths of the kernels (`int`, `uint`, `size_t`) are not modelled. In particular the `size_t` underflow of `conv4d`'s extent formulas for a zero stride, or for images smaller than the filter in valid mode, is excluded by a precondition rather than modelled.
- `randn`, `randu` (init.cpp:199-250) and the `rand`/`srand` calls of `shuffle` draw random numbers. The draws are a parameter and the distributions are not modelled.
- `operator<<` (operation.cpp:304-373), which prints a matrix, is I/O and not modelled.
- The file side of the loader (opening the file, a missing file) is not modelled. `atof` is the parameter `parse`.
- `shuffle(mat)` without an axis (algorithm.cpp:581-653) is not modelled. Its result is allocated in video memory with unspecified contents, and its kernel is launched over zero work items with arguments 2 to 4 never set, so what it returns is not defined. The axis overload is modelled.
- `shuffle` stores its indices as `float`s; the model keeps them as naturals.
- The 10^6-element threshold in `max()`/`min()` only chooses where the work runs, and both paths give the same value.
- `binary_op` keeps its combining lambda in a `static` local, so the first call's operator is captured and reused by later calls. Each call here uses its own operator.
- The slice `operator()` likewise keeps its launching lambda in a `static` local (operation.cpp:272), which captures the first call's bounds, result and `this` by reference. Each call of `Mats.Mat.Slice` and `Operation.Slice` uses its own bounds and source.
- Only the `mul`, `+` and unary `-` overloads that upload their non-const operands are modelled as methods (`Mats.MulUploading`, `Mats.AddUploadingLeft`, `Mats.NegUploading`). The other operators' non-const overloads follow the same pattern.
- Besides `t()` (`Mats.Mat.UploadThenT`), `row` and the slice, the non-const overloads that call `upload()` first are modelled only through their const counterparts, so the model does not state that they leave their operands in video memory. They are `max()` and `min()` (algorithm.cpp:79-84, 172-177), `max(axis)` and `min(axis)` (106-111, 199-204), `sum` and `mean` with and without an axis (265-270, 296-301, 315-320, 327-332), `max_loc` and `min_loc` (339-344, 415-420), the element-wise `max` and `min` (501-505, 512-529, 546-550, 557-574), `shuffle(mat, axis, same)` (655-660) and the three non-const `conv4d` overloads (convolution.cpp:36-57). Each computes the same value as its const overload, since uploading keeps a matrix's value (`Mats.ResidencyKeepsConsistency`).
- Mats.Created: the contents of a fresh video-memory buffer (`g_buffer.resize` at init.cpp:75) are unspecified in the source, so they are the parameter `undefined` rather than zeros; only a host buffer is zero-filled. The same holds for Mats.Mat.WithShape and Mats.Mat.Create with an empty `vec`.
- Mats.Mat.PushBack: requires the argument to be another object, because pushing a matrix onto itself would insert a vector's own range into it, which `std::vector::insert` does not allow.
- Mats.AppendedEntries: requires that a matrix with no columns also has no rows. Pushing onto a matrix with rows but no columns (such as `Mat(3, 0)`) leaves more rows than data in the source, and `Mats.Appended` reproduces that state without its entries being stated.
- Mats.MoveAssigned: a moved-from matrix keeps its shape and flag, as in the source. Its emptied buffer is modelled as empty, whereas the source only leaves it in a valid but unspecified state.
- The loader ignores its `upload_flag` and always builds a host matrix; `Mats.Mat.FromLines` does the same.

## Findings

| source | as written | input that shows it | evidently intended | confidence | as-written member | corrected member |
|---|---|---|---|---|---|---|
| lavender/lav_mat/src/operation.hpp:113 | A one-row left operand is broadcast with `mul(Ones(b.rows, 1), a, true)`. This transposes the b.rows x 1 column of ones to 1 x b.rows, so the product only conforms when b.rows == 1. | a = 1 x 2, b = 2 x 2: the product is 1 x 2 by 1 x 2 and throws, although the shapes are broadcastable. | `mul(Ones(b.rows, 1), a)`, the same as the one-row right operand case at line 117. | high, not executed | Elementwise.BinaryOpAsWritten, Elementwise.LeftRowBroadcastFails | Elementwise.BinaryOp |
| lavender/lav_mat/src/algorithm.cpp:676 | `same_as_last_time && axis ? rows == last_rows : cols == last_cols`: `&&` binds tighter than `?:`, so a column count equal to the last one reuses the cache even when a fresh permutation is asked for or the axis changed. | Shuffle the rows of a 2 x 2 matrix, then the rows of a 5 x 2 matrix with `same_as_last_time` false: the two-entry permutation is reused for five rows. | Reuse only when asked to, and only when the cached permutation has one entry per line being shuffled. | high, not executed | Shuffle.ReuseAsWritten, Shuffle.ReuseAsWrittenIsWrong | Shuffle.Reuse, Shuffle.ShuffleCache.Shuffle |
| lavender/lav_mat/src/operation.cpp:33 | `upload` copies nothing when the host buffer is empty, so a stale device buffer becomes authoritative. Copy assignment from a host matrix leaves the target's old device buffer in place. | A 2 x 2 device matrix copy-assigned from `Mat()`, then uploaded: a 0 x 0 matrix holding four elements. A `push_back` of a device 1 x 4 row then gives a 1 x 4 matrix with eight elements. | Upload always makes the device buffer a copy of the host buffer, even when that buffer is empty. | medium, not executed | Mats.UploadAsWritten, Mats.StaleDeviceBuffer, Mats.StaleBufferSurfaces | Mats.Uploaded, Mats.Mat.Upload |
