/** The element-wise operators of arithmetic.cpp and the element-wise
    `max`/`min` of algorithm.cpp. Each is a one-line delegation to
    `unary_op` (matrix and scalar) or `binary_op` (two matrices); scalar-left
    forms and the `<`/`<=` comparisons delegate to a commuted form. A
    comparison yields 1 where it holds and 0 elsewhere. Division is left out:
    it only makes sense on the library's floating-point elements. */
module Arithmetic {
  import opened Matrices
  import opened Elementwise

  /** The value a comparison kernel stores. */
  function Indicator(b: bool): int {
    if b then 1 else 0
  }

  /** Unary minus: each x becomes 0 - x (arithmetic.cpp:119-128). */
  function Neg(m: Matrix): (r: Matrix)
    requires m.Wf()
    ensures r.Wf() && r.rows == m.rows && r.cols == m.cols
    ensures forall i: nat, j: nat :: i < m.rows && j < m.cols ==> r.At(i, j) + m.At(i, j) == 0
  {
    UnaryOp(m, x => 0 - x)
  }

  /** Negating twice gives the matrix back. */
  lemma NegNeg(m: Matrix)
    requires m.Wf()
    ensures Neg(Neg(m)) == m
  {
    SameEntries(Neg(Neg(m)), m);
  }

  /** m + th (arithmetic.cpp:140-149). */
  function AddScalar(m: Matrix, th: int): (r: Matrix)
    requires m.Wf()
    ensures r.Wf() && r.rows == m.rows && r.cols == m.cols
    ensures forall i: nat, j: nat :: i < m.rows && j < m.cols ==> r.At(i, j) - m.At(i, j) == th
  {
    UnaryOp(m, x => x + th)
  }

  /** th + m is m + th (arithmetic.cpp:130-138). */
  function ScalarAdd(th: int, m: Matrix): (r: Matrix)
    requires m.Wf()
    ensures r.Wf() && r.rows == m.rows && r.cols == m.cols
    ensures forall i: nat, j: nat :: i < m.rows && j < m.cols ==> r.At(i, j) == th + m.At(i, j)
  {
    AddScalar(m, th)
  }

  /** Adding 0 changes nothing. */
  lemma AddZero(m: Matrix)
    requires m.Wf()
    ensures AddScalar(m, 0) == m
  {
    SameEntries(AddScalar(m, 0), m);
  }

  /** m - th (arithmetic.cpp:186-195). */
  function SubScalar(m: Matrix, th: int): (r: Matrix)
    requires m.Wf()
    ensures r.Wf() && r.rows == m.rows && r.cols == m.cols
    ensures forall i: nat, j: nat :: i < m.rows && j < m.cols ==> r.At(i, j) + th == m.At(i, j)
  {
    UnaryOp(m, x => x - th)
  }

  /** th - m: the scalar stays on the left of every subtraction (arithmetic.cpp:175-184). */
  function ScalarSub(th: int, m: Matrix): (r: Matrix)
    requires m.Wf()
    ensures r.Wf() && r.rows == m.rows && r.cols == m.cols
    ensures forall i: nat, j: nat :: i < m.rows && j < m.cols ==> r.At(i, j) + m.At(i, j) == th
  {
    UnaryOp(m, x => th - x)
  }

  /** th - m is the negation of m - th. */
  lemma ScalarSubIsNegSub(th: int, m: Matrix)
    requires m.Wf()
    ensures ScalarSub(th, m) == Neg(SubScalar(m, th))
  {
    SameEntries(ScalarSub(th, m), Neg(SubScalar(m, th)));
  }

  /** m * th (arithmetic.cpp:232-241). */
  function MulScalar(m: Matrix, th: int): (r: Matrix)
    requires m.Wf()
    ensures r.Wf() && r.rows == m.rows && r.cols == m.cols
    ensures forall i: nat, j: nat :: i < m.rows && j < m.cols ==> r.At(i, j) == m.At(i, j) * th
  {
    UnaryOp(m, x => x * th)
  }

  /** th * m is m * th (arithmetic.cpp:221-230). */
  function ScalarMul(th: int, m: Matrix): (r: Matrix)
    requires m.Wf()
    ensures r.Wf() && r.rows == m.rows && r.cols == m.cols
    ensures forall i: nat, j: nat :: i < m.rows && j < m.cols ==> r.At(i, j) == th * m.At(i, j)
  {
    MulScalar(m, th)
  }

  /** Multiplying by 1 changes nothing. */
  lemma MulOne(m: Matrix)
    requires m.Wf()
    ensures MulScalar(m, 1) == m
  {
    SameEntries(MulScalar(m, 1), m);
  }

  /** a + b with broadcasting (arithmetic.cpp:151-173). */
  function Add(a: Matrix, b: Matrix): (r: Result<Matrix>)
    requires a.Wf() && b.Wf()
    ensures Combines(r, a, b, (x, y) => x + y)
  {
    BinaryOp(a, b, (x, y) => x + y)
  }

  /** a - b with broadcasting (arithmetic.cpp:197-219). */
  function Sub(a: Matrix, b: Matrix): (r: Result<Matrix>)
    requires a.Wf() && b.Wf()
    ensures Combines(r, a, b, (x, y) => x - y)
  {
    BinaryOp(a, b, (x, y) => x - y)
  }

  /** Element-wise product with broadcasting (arithmetic.cpp:243-265). */
  function Times(a: Matrix, b: Matrix): (r: Result<Matrix>)
    requires a.Wf() && b.Wf()
    ensures Combines(r, a, b, (x, y) => x * y)
  {
    BinaryOp(a, b, (x, y) => x * y)
  }

  /** Addition does not depend on operand order. */
  lemma AddCommutes(a: Matrix, b: Matrix)
    requires a.Wf() && b.Wf()
    ensures Add(a, b) == Add(b, a)
  {
    if Broadcastable(a, b) {
      SameEntries(Add(a, b).value, Add(b, a).value);
    }
  }

  /** a - b is a + (-b): subtracting a broadcast operand adds its negation. */
  lemma SubIsAddNeg(a: Matrix, b: Matrix)
    requires a.Wf() && b.Wf()
    ensures Sub(a, b) == Add(a, Neg(b))
  {
    if Broadcastable(a, b) {
      SameEntries(Sub(a, b).value, Add(a, Neg(b)).value);
    }
  }

  /** a - b is -(b - a). */
  lemma SubAntisymmetric(a: Matrix, b: Matrix)
    requires a.Wf() && b.Wf()
    ensures Sub(a, b).Ok? <==> Sub(b, a).Ok?
    ensures Sub(a, b).Ok? ==> Sub(a, b).value == Neg(Sub(b, a).value)
  {
    if Broadcastable(a, b) {
      SameEntries(Sub(a, b).value, Neg(Sub(b, a).value));
    }
  }

  /** m > th (arithmetic.cpp:404-413). */
  function GtScalar(m: Matrix, th: int): (r: Matrix)
    requires m.Wf()
    ensures r.Wf() && r.rows == m.rows && r.cols == m.cols
    ensures forall i: nat, j: nat :: i < m.rows && j < m.cols ==> r.At(i, j) == Indicator(m.At(i, j) > th)
  {
    UnaryOp(m, x => Indicator(x > th))
  }

  /** th > m (arithmetic.cpp:393-402). */
  function ScalarGt(th: int, m: Matrix): (r: Matrix)
    requires m.Wf()
    ensures r.Wf() && r.rows == m.rows && r.cols == m.cols
    ensures forall i: nat, j: nat :: i < m.rows && j < m.cols ==> r.At(i, j) == Indicator(th > m.At(i, j))
  {
    UnaryOp(m, x => Indicator(th > x))
  }

  /** m >= th (arithmetic.cpp:450-459). */
  function GeScalar(m: Matrix, th: int): (r: Matrix)
    requires m.Wf()
    ensures r.Wf() && r.rows == m.rows && r.cols == m.cols
    ensures forall i: nat, j: nat :: i < m.rows && j < m.cols ==> r.At(i, j) == Indicator(m.At(i, j) >= th)
  {
    UnaryOp(m, x => Indicator(x >= th))
  }

  /** th >= m (arithmetic.cpp:439-448). */
  function ScalarGe(th: int, m: Matrix): (r: Matrix)
    requires m.Wf()
    ensures r.Wf() && r.rows == m.rows && r.cols == m.cols
    ensures forall i: nat, j: nat :: i < m.rows && j < m.cols ==> r.At(i, j) == Indicator(th >= m.At(i, j))
  {
    UnaryOp(m, x => Indicator(th >= x))
  }

  /** m < th is computed as th > m (arithmetic.cpp:323-331). */
  function LtScalar(m: Matrix, th: int): (r: Matrix)
    requires m.Wf()
    ensures r.Wf() && r.rows == m.rows && r.cols == m.cols
    ensures forall i: nat, j: nat :: i < m.rows && j < m.cols ==> r.At(i, j) == Indicator(m.At(i, j) < th)
  {
    ScalarGt(th, m)
  }

  /** th < m is computed as m > th (arithmetic.cpp:313-321). */
  function ScalarLt(th: int, m: Matrix): (r: Matrix)
    requires m.Wf()
    ensures r.Wf() && r.rows == m.rows && r.cols == m.cols
    ensures forall i: nat, j: nat :: i < m.rows && j < m.cols ==> r.At(i, j) == Indicator(th < m.At(i, j))
  {
    GtScalar(m, th)
  }

  /** m <= th is computed as th >= m (arithmetic.cpp:363-371). */
  function LeScalar(m: Matrix, th: int): (r: Matrix)
    requires m.Wf()
    ensures r.Wf() && r.rows == m.rows && r.cols == m.cols
    ensures forall i: nat, j: nat :: i < m.rows && j < m.cols ==> r.At(i, j) == Indicator(m.At(i, j) <= th)
  {
    ScalarGe(th, m)
  }

  /** th <= m is computed as m >= th (arithmetic.cpp:353-361). */
  function ScalarLe(th: int, m: Matrix): (r: Matrix)
    requires m.Wf()
    ensures r.Wf() && r.rows == m.rows && r.cols == m.cols
    ensures forall i: nat, j: nat :: i < m.rows && j < m.cols ==> r.At(i, j) == Indicator(th <= m.At(i, j))
  {
    GeScalar(m, th)
  }

  /** m == th (arithmetic.cpp:495-504). */
  function EqScalar(m: Matrix, th: int): (r: Matrix)
    requires m.Wf()
    ensures r.Wf() && r.rows == m.rows && r.cols == m.cols
    ensures forall i: nat, j: nat :: i < m.rows && j < m.cols ==> r.At(i, j) == Indicator(m.At(i, j) == th)
  {
    UnaryOp(m, x => Indicator(x == th))
  }

  /** th == m is computed as m == th (arithmetic.cpp:485-493). */
  function ScalarEq(th: int, m: Matrix): (r: Matrix)
    requires m.Wf()
    ensures r.Wf() && r.rows == m.rows && r.cols == m.cols
    ensures forall i: nat, j: nat :: i < m.rows && j < m.cols ==> r.At(i, j) == Indicator(th == m.At(i, j))
  {
    EqScalar(m, th)
  }

  /** m != th (arithmetic.cpp:540-550). */
  function NeScalar(m: Matrix, th: int): (r: Matrix)
    requires m.Wf()
    ensures r.Wf() && r.rows == m.rows && r.cols == m.cols
    ensures forall i: nat, j: nat :: i < m.rows && j < m.cols ==> r.At(i, j) == Indicator(m.At(i, j) != th)
  {
    UnaryOp(m, x => Indicator(x != th))
  }

  /** th != m is computed as m != th (arithmetic.cpp:530-538). */
  function ScalarNe(th: int, m: Matrix): (r: Matrix)
    requires m.Wf()
    ensures r.Wf() && r.rows == m.rows && r.cols == m.cols
    ensures forall i: nat, j: nat :: i < m.rows && j < m.cols ==> r.At(i, j) == Indicator(th != m.At(i, j))
  {
    NeScalar(m, th)
  }

  /** m == th and m != th mark complementary sets of positions. */
  lemma EqNeComplement(m: Matrix, th: int)
    requires m.Wf()
    ensures EqScalar(m, th) == Neg(SubScalar(NeScalar(m, th), 1))
  {
    SameEntries(EqScalar(m, th), Neg(SubScalar(NeScalar(m, th), 1)));
  }

  /** m > th and m <= th mark complementary sets of positions. */
  lemma GtLeComplement(m: Matrix, th: int)
    requires m.Wf()
    ensures GtScalar(m, th) == Neg(SubScalar(LeScalar(m, th), 1))
  {
    SameEntries(GtScalar(m, th), Neg(SubScalar(LeScalar(m, th), 1)));
  }

  /** a > b with broadcasting (arithmetic.cpp:415-437). */
  function Gt(a: Matrix, b: Matrix): (r: Result<Matrix>)
    requires a.Wf() && b.Wf()
    ensures Combines(r, a, b, (x, y) => Indicator(x > y))
  {
    BinaryOp(a, b, (x, y) => Indicator(x > y))
  }

  /** a >= b with broadcasting (arithmetic.cpp:461-483). */
  function Ge(a: Matrix, b: Matrix): (r: Result<Matrix>)
    requires a.Wf() && b.Wf()
    ensures Combines(r, a, b, (x, y) => Indicator(x >= y))
  {
    BinaryOp(a, b, (x, y) => Indicator(x >= y))
  }

  /** a < b is computed as b > a (arithmetic.cpp:333-351). */
  function Lt(a: Matrix, b: Matrix): (r: Result<Matrix>)
    requires a.Wf() && b.Wf()
    ensures Combines(r, a, b, (x, y) => Indicator(x < y))
  {
    var r := Gt(b, a);
    CombinesFlip(r, a, b, (x, y) => Indicator(x > y), (x, y) => Indicator(x < y));
    r
  }

  /** a <= b is computed as b >= a (arithmetic.cpp:373-391). */
  function Le(a: Matrix, b: Matrix): (r: Result<Matrix>)
    requires a.Wf() && b.Wf()
    ensures Combines(r, a, b, (x, y) => Indicator(x <= y))
  {
    var r := Ge(b, a);
    CombinesFlip(r, a, b, (x, y) => Indicator(x >= y), (x, y) => Indicator(x <= y));
    r
  }

  /** a == b with broadcasting (arithmetic.cpp:506-528). */
  function Eq(a: Matrix, b: Matrix): (r: Result<Matrix>)
    requires a.Wf() && b.Wf()
    ensures Combines(r, a, b, (x, y) => Indicator(x == y))
  {
    BinaryOp(a, b, (x, y) => Indicator(x == y))
  }

  /** a != b with broadcasting (arithmetic.cpp:552-573). */
  function Ne(a: Matrix, b: Matrix): (r: Result<Matrix>)
    requires a.Wf() && b.Wf()
    ensures Combines(r, a, b, (x, y) => Indicator(x != y))
  {
    BinaryOp(a, b, (x, y) => Indicator(x != y))
  }

  /** a < b and a >= b succeed together and mark complementary positions. */
  lemma LtGeComplement(a: Matrix, b: Matrix)
    requires a.Wf() && b.Wf()
    ensures Lt(a, b).Ok? <==> Ge(a, b).Ok?
    ensures Lt(a, b).Ok? ==> Lt(a, b).value == Neg(SubScalar(Ge(a, b).value, 1))
  {
    if Broadcastable(a, b) {
      SameEntries(Lt(a, b).value, Neg(SubScalar(Ge(a, b).value, 1)));
    }
  }

  function Max(x: int, y: int): int {
    if x >= y then x else y
  }

  function Min(x: int, y: int): int {
    if x <= y then x else y
  }

  /** max(m, th): each element raised to at least th (algorithm.cpp:501-510). */
  function MaxScalar(m: Matrix, th: int): (r: Matrix)
    requires m.Wf()
    ensures r.Wf() && r.rows == m.rows && r.cols == m.cols
    ensures forall i: nat, j: nat :: i < m.rows && j < m.cols ==>
      r.At(i, j) >= th && r.At(i, j) >= m.At(i, j) && (r.At(i, j) == th || r.At(i, j) == m.At(i, j))
  {
    UnaryOp(m, x => Max(x, th))
  }

  /** max(th, m) is max(m, th) (algorithm.cpp:491-499). */
  function ScalarMax(th: int, m: Matrix): (r: Matrix)
    requires m.Wf()
    ensures r.Wf() && r.rows == m.rows && r.cols == m.cols
    ensures forall i: nat, j: nat :: i < m.rows && j < m.cols ==> r.At(i, j) == Max(th, m.At(i, j))
  {
    MaxScalar(m, th)
  }

  /** min(m, th): each element lowered to at most th (algorithm.cpp:546-555). */
  function MinScalar(m: Matrix, th: int): (r: Matrix)
    requires m.Wf()
    ensures r.Wf() && r.rows == m.rows && r.cols == m.cols
    ensures forall i: nat, j: nat :: i < m.rows && j < m.cols ==>
      r.At(i, j) <= th && r.At(i, j) <= m.At(i, j) && (r.At(i, j) == th || r.At(i, j) == m.At(i, j))
  {
    UnaryOp(m, x => Min(x, th))
  }

  /** min(th, m) is min(m, th) (algorithm.cpp:536-544). */
  function ScalarMin(th: int, m: Matrix): (r: Matrix)
    requires m.Wf()
    ensures r.Wf() && r.rows == m.rows && r.cols == m.cols
    ensures forall i: nat, j: nat :: i < m.rows && j < m.cols ==> r.At(i, j) == Min(th, m.At(i, j))
  {
    MinScalar(m, th)
  }

  /** Element-wise max of two matrices with broadcasting (algorithm.cpp:512-534). */
  function MaxOf(a: Matrix, b: Matrix): (r: Result<Matrix>)
    requires a.Wf() && b.Wf()
    ensures Combines(r, a, b, Max)
  {
    BinaryOp(a, b, Max)
  }

  /** Element-wise min of two matrices with broadcasting (algorithm.cpp:557-579). */
  function MinOf(a: Matrix, b: Matrix): (r: Result<Matrix>)
    requires a.Wf() && b.Wf()
    ensures Combines(r, a, b, Min)
  {
    BinaryOp(a, b, Min)
  }

  /** Clamping from below then from above keeps every element inside [lo, hi]. */
  lemma ClampBounds(m: Matrix, lo: int, hi: int)
    requires m.Wf() && lo <= hi
    ensures forall i: nat, j: nat :: i < m.rows && j < m.cols ==>
      lo <= MinScalar(MaxScalar(m, lo), hi).At(i, j) <= hi
  {
  }
}
