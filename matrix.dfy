/** The calculator's matrix value (CMatrix.h / CMatrix.cpp), as a value.

    A matrix is either the null matrix, the universal "invalid result" sentinel, or a
    rows x cols block of elements stored row-major, exactly as `m_aData` holds them. The
    value-returning operators `+ - * /` and `==` of CMatrix.cpp are functions here; the
    operations that update a matrix in place are methods of `MatrixBuffers.MatrixBuffer`. */
module Matrices {
  import opened Wrappers

  datatype RawMatrix = Null | M(rows: nat, cols: nat, data: seq<real>)

  /** A non-null matrix has at least one row and one column and rows * cols elements. */
  predicate WellFormed(m: RawMatrix) {
    m.Null? || (m.rows >= 1 && m.cols >= 1 && |m.data| == m.rows * m.cols)
  }

  type Matrix = m: RawMatrix | WellFormed(m) witness Null

  // ---------------------------------------------------------------- index arithmetic

  lemma MulMono(a: int, b: int, c: int)
    requires 0 <= a <= b && c >= 0
    ensures a * c <= b * c
  {
  }

  /** Row-major position (i, j) of an r x c matrix lies inside its buffer. */
  lemma IndexInRange(i: int, j: int, r: int, c: int)
    requires 0 <= i < r && 0 <= j < c
    ensures 0 <= i * c + j < r * c
  {
    MulMono(i + 1, r, c);
    assert (i + 1) * c == i * c + c;
  }

  /** Row-major position p of a matrix with c columns is row p / c, column p % c. */
  lemma RowMajor(i: int, j: int, c: int)
    requires c > 0 && 0 <= j < c && i >= 0
    ensures (i * c + j) / c == i && (i * c + j) % c == j
  {
    var p := i * c + j;
    var q, r := p / c, p % c;
    assert p == c * q + r && 0 <= r < c;
    if q > i {
      MulMono(i + 1, q, c);
      assert false;
    } else if q < i {
      MulMono(q + 1, i, c);
      assert false;
    }
  }

  lemma FlatIndex(p: int, r: int, c: int)
    requires c > 0 && 0 <= p < r * c
    ensures 0 <= p / c < r && 0 <= p % c < c && (p / c) * c + p % c == p
  {
    if p / c >= r {
      MulMono(r, p / c, c);
      assert false;
    }
  }

  /** A position whose row and column agree lies on the diagonal. */
  lemma DiagonalPosition(p: int, n: int)
    requires n > 0 && 0 <= p
    ensures p / n == p % n ==> p == (p / n) * n + p / n
  {
  }

  // ---------------------------------------------------------------- inline accessors (CMatrix.h)

  predicate IsNull(m: Matrix) {
    m.Null?
  }

  /** `getNRow`: 0 for the null matrix. */
  function NRow(m: Matrix): (n: nat)
    ensures n == 0 <==> m.Null?
  {
    if m.Null? then 0 else m.rows
  }

  /** `getNCol`: 0 for the null matrix. */
  function NCol(m: Matrix): (n: nat)
    ensures n == 0 <==> m.Null?
  {
    if m.Null? then 0 else m.cols
  }

  /** `Size`: the number of stored elements, 0 for the null matrix. */
  function Size(m: Matrix): (n: nat)
    ensures n == NRow(m) * NCol(m)
    ensures m.M? ==> n == |m.data| && n >= 1
  {
    if m.Null? then 0 else m.rows * m.cols
  }

  /** `IsSingle`: the stored row and column counts are both 1 (a null matrix stores 0 x 0). */
  predicate IsSingle(m: Matrix) {
    m.M? && m.rows == 1 && m.cols == 1
  }

  /** `isSquare`: the stored row and column counts agree, so a null matrix as the default
      constructor and `Clear` store it (0 x 0) is square. */
  function IsSquare(m: Matrix): (b: bool)
    ensures m.Null? ==> b
    ensures b <==> NRow(m) == NCol(m)
  {
    m.Null? || m.rows == m.cols
  }

  predicate SameShape(a: Matrix, b: Matrix) {
    NRow(a) == NRow(b) && NCol(a) == NCol(b)
  }

  /** Element (i, j) of a non-null matrix, for indices known to be in range. */
  function At(m: Matrix, i: nat, j: nat): real
    requires m.M? && i < m.rows && j < m.cols
  {
    IndexInRange(i, j, m.rows, m.cols);
    m.data[Idx(i, j, m.cols)]
  }

  /** `element(i, j)`: the stored element when (i, j) is in range of a non-null matrix;
      otherwise the shared NaN sentinel, here None. */
  function Element(m: Matrix, i: int, j: int): (r: Option<real>)
    ensures r.Some? <==> m.M? && 0 <= i < m.rows && 0 <= j < m.cols
    ensures r.Some? ==> r.value == At(m, i, j)
  {
    if m.M? && 0 <= i < m.rows && 0 <= j < m.cols then Some(At(m, i, j)) else None
  }

  // ---------------------------------------------------------------- constructors as values

  /** `CMatrix(double)`: a 1 x 1 matrix. */
  function Scalar(d: real): (r: Matrix)
    ensures IsSingle(r) && Element(r, 0, 0) == Some(d)
  {
    M(1, 1, [d])
  }

  /** `CMatrix(nRow, nCol)`: an nRow x nCol zero matrix, null if either count is not positive. */
  function Zeros(r: int, c: int): (z: Matrix)
    ensures z.Null? <==> r <= 0 || c <= 0
    ensures z.M? ==> z.rows == r && z.cols == c && forall k :: 0 <= k < |z.data| ==> z.data[k] == 0.0
  {
    if r <= 0 || c <= 0 then Null else M(r, c, seq(r * c, _ => 0.0))
  }

  /** `CMatrix(arr, nRow, nCol)`: the first nRow * nCol entries of arr, row-major. */
  function FromArray(arr: seq<real>, r: int, c: int): (m: Matrix)
    requires r > 0 && c > 0 ==> |arr| >= r * c
    ensures m.Null? <==> r <= 0 || c <= 0
    ensures m.M? ==> m.rows == r && m.cols == c && m.data == arr[..r * c]
  {
    if r <= 0 || c <= 0 then Null else M(r, c, arr[..r * c])
  }

  /** Row-major position of (i, j) in a matrix with c columns. */
  function Idx(i: nat, j: nat, c: nat): nat {
    i * c + j
  }

  function IdentityEntry(p: nat, n: nat): real
    requires n > 0
  {
    if p / n == p % n then 1.0 else 0.0
  }

  lemma IdentityEntryAt(i: nat, j: nat, n: nat)
    requires i < n && j < n
    ensures Idx(i, j, n) < n * n
    ensures IdentityEntry(Idx(i, j, n), n) == if i == j then 1.0 else 0.0
  {
    IndexInRange(i, j, n, n);
    RowMajor(i, j, n);
  }

  /** Row-major buffer of the n x n identity. */
  function IdentityData(n: nat): (d: seq<real>)
    requires n > 0
    ensures |d| == n * n
    ensures forall i, j :: 0 <= i < n && 0 <= j < n ==> Idx(i, j, n) < |d| && d[Idx(i, j, n)] == if i == j then 1.0 else 0.0
  {
    var d := seq(n * n, p requires 0 <= p => IdentityEntry(p, n));
    forall i, j | 0 <= i < n && 0 <= j < n
      ensures Idx(i, j, n) < |d| && d[Idx(i, j, n)] == if i == j then 1.0 else 0.0
    {
      IdentityEntryAt(i, j, n);
    }
    d
  }

  /** `identity(n)`: n x n with ones on the diagonal, null when n is not positive. */
  function Identity(n: int): (m: Matrix)
    ensures m.Null? <==> n <= 0
    ensures m.M? ==> m.rows == n && m.cols == n
    ensures m.M? ==> forall i, j :: 0 <= i < n && 0 <= j < n ==> At(m, i, j) == if i == j then 1.0 else 0.0
  {
    if n <= 0 then Null else M(n, n, IdentityData(n))
  }

  // ---------------------------------------------------------------- scalar forms

  /** `operator+(double)`: t added to every element; the null matrix stays null. */
  function AddScalar(a: Matrix, t: real): (r: Matrix)
    ensures SameShape(r, a)
    ensures r.M? ==> forall k :: 0 <= k < |r.data| ==> r.data[k] == a.data[k] + t
  {
    match a
    case Null => Null
    case M(rs, cs, d) => M(rs, cs, seq(|d|, k requires 0 <= k < |d| => d[k] + t))
  }

  /** `operator-(double)`: adds -t. */
  function SubScalar(a: Matrix, t: real): (r: Matrix)
    ensures SameShape(r, a)
    ensures r.M? ==> forall k :: 0 <= k < |r.data| ==> r.data[k] == a.data[k] - t
  {
    AddScalar(a, -t)
  }

  /** `operator*(double)`: every element scaled by t; the null matrix stays null. */
  function MulScalar(a: Matrix, t: real): (r: Matrix)
    ensures SameShape(r, a)
    ensures r.M? ==> forall k :: 0 <= k < |r.data| ==> r.data[k] == a.data[k] * t
  {
    match a
    case Null => Null
    case M(rs, cs, d) => M(rs, cs, seq(|d|, k requires 0 <= k < |d| => d[k] * t))
  }

  /** `operator/(double)`: null when t is zero, otherwise every element scaled by 1/t. */
  function DivScalar(a: Matrix, t: real): (r: Matrix)
    ensures r.Null? <==> a.Null? || t == 0.0
    ensures r.M? ==> r.rows == a.rows && r.cols == a.cols
    ensures r.M? ==> forall k :: 0 <= k < |r.data| ==> r.data[k] == a.data[k] / t
  {
    if t != 0.0 then MulScalar(a, 1.0 / t) else Null
  }

  // ---------------------------------------------------------------- matrix forms

  /** The elementwise quotient x / y. A zero y gives an IEEE infinity or NaN in the source;
      reals have no such value, and the model puts 0.0 there. */
  function ElemDiv(x: real, y: real): real {
    if y == 0.0 then 0.0 else x / y
  }

  /** `operator+(CMatrix)`: a 1 x 1 right operand is added as a scalar; otherwise equal
      shapes add elementwise; any other pair (a 1 x 1 left operand included) gives null. */
  function Add(a: Matrix, b: Matrix): (r: Matrix)
    ensures r.M? <==> a.M? && (IsSingle(b) || SameShape(a, b))
    ensures r.M? ==> r.rows == a.rows && r.cols == a.cols
    ensures r.M? ==> forall k :: 0 <= k < |r.data| ==>
      r.data[k] == a.data[k] + (if IsSingle(b) then b.data[0] else b.data[k])
  {
    if IsSingle(b) then AddScalar(a, b.data[0])
    else if SameShape(a, b) && a.M? then
      M(a.rows, a.cols, seq(|a.data|, k requires 0 <= k < |a.data| => a.data[k] + b.data[k]))
    else Null
  }

  /** `operator-(CMatrix)`: as `Add`, with subtraction. */
  function Sub(a: Matrix, b: Matrix): (r: Matrix)
    ensures r.M? <==> a.M? && (IsSingle(b) || SameShape(a, b))
    ensures r.M? ==> r.rows == a.rows && r.cols == a.cols
    ensures r.M? ==> forall k :: 0 <= k < |r.data| ==>
      r.data[k] == a.data[k] - (if IsSingle(b) then b.data[0] else b.data[k])
  {
    if IsSingle(b) then SubScalar(a, b.data[0])
    else if SameShape(a, b) && a.M? then
      M(a.rows, a.cols, seq(|a.data|, k requires 0 <= k < |a.data| => a.data[k] - b.data[k]))
    else Null
  }

  /** `operator/(CMatrix)`: a 1 x 1 right operand divides as a scalar (null when it is zero);
      otherwise equal shapes divide elementwise; any other pair gives null. */
  function Div(a: Matrix, b: Matrix): (r: Matrix)
    ensures r.M? <==> a.M? && (if IsSingle(b) then b.data[0] != 0.0 else SameShape(a, b))
    ensures r.M? ==> r.rows == a.rows && r.cols == a.cols
    ensures r.M? && IsSingle(b) ==> forall k :: 0 <= k < |r.data| ==> r.data[k] == a.data[k] / b.data[0]
    ensures r.M? && !IsSingle(b) ==> forall k :: 0 <= k < |r.data| && b.data[k] != 0.0 ==>
      r.data[k] == a.data[k] / b.data[k]
  {
    if IsSingle(b) then DivScalar(a, b.data[0])
    else if SameShape(a, b) && a.M? then
      M(a.rows, a.cols, seq(|a.data|, k requires 0 <= k < |a.data| => ElemDiv(a.data[k], b.data[k])))
    else Null
  }

  /** Sum over j < n of a(i, j) * b(j, k). */
  function Dot(a: Matrix, b: Matrix, i: nat, k: nat, n: nat): real
    requires a.M? && b.M? && i < a.rows && k < b.cols && n <= a.cols && n <= b.rows
  {
    if n == 0 then 0.0 else Dot(a, b, i, k, n - 1) + At(a, i, n - 1) * At(b, n - 1, k)
  }

  /** The linear-algebra product of an r x n and an n x c matrix. */
  function Product(a: Matrix, b: Matrix): (r: Matrix)
    requires a.M? && b.M? && a.cols == b.rows
    ensures r.M? && r.rows == a.rows && r.cols == b.cols
    ensures forall i, k :: 0 <= i < a.rows && 0 <= k < b.cols ==> At(r, i, k) == Dot(a, b, i, k, a.cols)
  {
    var c := b.cols;
    var r: Matrix := M(a.rows, c, seq(a.rows * c, p requires 0 <= p < a.rows * c =>
      FlatIndex(p, a.rows, c); Dot(a, b, p / c, p % c, a.cols)));
    assert forall i, k :: 0 <= i < a.rows && 0 <= k < c ==> At(r, i, k) == Dot(a, b, i, k, a.cols) by {
      forall i, k | 0 <= i < a.rows && 0 <= k < c
        ensures At(r, i, k) == Dot(a, b, i, k, a.cols)
      {
        IndexInRange(i, k, a.rows, c);
        RowMajor(i, k, c);
      }
    }
    r
  }

  /** `operator*(CMatrix)`, the dual rule: a 1 x 1 right operand scales; otherwise when
      a.cols == b.rows the result is the linear-algebra product; otherwise equal shapes
      multiply elementwise; otherwise null. */
  function Mul(a: Matrix, b: Matrix): (r: Matrix)
    ensures r.M? <==> a.M? && (IsSingle(b) || (b.M? && a.cols == b.rows) || SameShape(a, b))
    ensures IsSingle(b) && r.M? ==> SameShape(r, a) && forall k :: 0 <= k < |r.data| ==> r.data[k] == a.data[k] * b.data[0]
    ensures !IsSingle(b) && a.M? && b.M? && a.cols == b.rows ==>
      r.M? && r.rows == a.rows && r.cols == b.cols &&
      forall i, k :: 0 <= i < a.rows && 0 <= k < b.cols ==> At(r, i, k) == Dot(a, b, i, k, a.cols)
    ensures !IsSingle(b) && NCol(a) != NRow(b) && SameShape(a, b) && a.M? ==>
      SameShape(r, a) && forall k :: 0 <= k < |r.data| ==> r.data[k] == a.data[k] * b.data[k]
  {
    if IsSingle(b) then MulScalar(a, b.data[0])
    else if NCol(a) == NRow(b) then
      (if a.M? then Product(a, b) else Null)
    else if SameShape(a, b) && a.M? then
      M(a.rows, a.cols, seq(|a.data|, k requires 0 <= k < |a.data| => a.data[k] * b.data[k]))
    else Null
  }

  // ---------------------------------------------------------------- comparison

  /** `operator==(CMatrix)`: the stored row and column counts agree and so does every
      element (the null matrix stores 0 x 0 and no elements). */
  function Eq(a: Matrix, b: Matrix): (r: bool)
    ensures r <==> a == b
  {
    NRow(a) == NRow(b) && NCol(a) == NCol(b) &&
    (a.M? ==> forall k :: 0 <= k < |a.data| ==> a.data[k] == b.data[k])
  }

  /** `operator==(double)`: a 1 x 1 matrix holding v. */
  function EqScalar(a: Matrix, v: real): (r: bool)
    ensures r <==> a == Scalar(v)
  {
    IsSingle(a) && a.data[0] == v
  }

  /** `operator!=(CMatrix)`, the negation of `==`. */
  function Neq(a: Matrix, b: Matrix): (r: bool)
    ensures r <==> a != b
  {
    !Eq(a, b)
  }

  /** `operator!=(double)`, the negation of `== double`. */
  function NeqScalar(a: Matrix, v: real): (r: bool)
    ensures r <==> a != Scalar(v)
  {
    !EqScalar(a, v)
  }
}
