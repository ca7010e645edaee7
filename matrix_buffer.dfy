/** CMatrix as the object CMatrix.cpp manipulates: row and column counts, the null flag and
    a heap buffer `m_aData` that the constructors fill and the in-place operations update
    element by element. Every method is proved to leave the object holding the matrix the
    value-level description in `Matrices` / `MatrixEdits` gives. */
module MatrixBuffers {
  import opened Wrappers
  import opened Numbers
  import opened Matrices
  import opened MatrixEdits
  import opened MatrixLiteral

  class MatrixBuffer {
    var rows: int       // m_nRow
    var cols: int       // m_nCol
    var isNull: bool    // m_isNull
    var data: array<real>   // m_aData, row-major

    /** A non-null matrix owns rows * cols elements. A null one owns none, and its counts
        are 0 x 0 or the non-positive counts of the resize that made it null. */
    predicate Valid()
      reads this
    {
      if isNull then data.Length == 0 && rows <= 0 && cols <= 0
      else rows > 0 && cols > 0 && data.Length == rows * cols
    }

    /** The matrix this object holds. */
    function Value(): Matrix
      reads this, data
      requires Valid()
    {
      if isNull then Null else M(rows, cols, data[..])
    }

    /** `CMatrix()`: the null matrix. */
    constructor ()
      ensures Valid() && Value() == Null && fresh(data)
    {
      rows, cols, isNull := 0, 0, true;
      data := new real[0];
    }

    /** `CMatrix(double)`: a 1 x 1 matrix holding d. */
    constructor OfScalar(d: real)
      ensures Valid() && Value() == Scalar(d) && fresh(data)
    {
      rows, cols, isNull := 1, 1, false;
      data := new real[1](_ => d);
    }

    /** `CMatrix(nRow, nCol)`: an nRow x nCol zero matrix, null if either count is not
        positive. */
    constructor OfShape(r: int, c: int)
      ensures Valid() && Value() == Zeros(r, c) && fresh(data)
    {
      if r <= 0 || c <= 0 {
        rows, cols, isNull := 0, 0, true;
        data := new real[0];
      } else {
        rows, cols, isNull := r, c, false;
        data := new real[r * c](_ => 0.0);
      }
    }

    /** `CMatrix(arr, nRow, nCol)`: the first nRow * nCol entries of arr, copied in order. */
    constructor OfArray(arr: array<real>, r: int, c: int)
      requires r > 0 && c > 0 ==> arr.Length >= r * c
      ensures Valid() && Value() == FromArray(arr[..], r, c) && fresh(data)
    {
      if r <= 0 || c <= 0 {
        rows, cols, isNull := 0, 0, true;
        data := new real[0];
      } else {
        rows, cols, isNull := r, c, false;
        var buf := new real[r * c](_ => 0.0);
        var k := 0;
        while k < r * c
          invariant 0 <= k <= r * c
          invariant buf[..k] == arr[..k]
        {
          buf[k] := arr[k];
          k := k + 1;
        }
        assert buf[..] == arr[..r * c] by {
          assert buf[..] == buf[..r * c];
        }
        data := buf;
      }
    }

    /** `CMatrix(char*)`: the matrix a literal such as "[1 2;3 4]" denotes, null unless
        isValidMatrix accepts it. */
    constructor OfLiteral(s: string)
      ensures Valid() && Value() == LiteralMatrix(s) && fresh(data)
    {
      var n := ValidCount(s);
      if n > 0 {
        LiteralShape(s);
        var buf, nRow := ReadLiteral(s, n);
        rows, cols, isNull := nRow, n / nRow, false;
        data := buf;
      } else {
        rows, cols, isNull := 0, 0, true;
        data := new real[0];
      }
    }

    /** `element(i, j)` read: the element, or None where the source hands out its NaN
        sentinel. */
    method GetElement(i: int, j: int) returns (r: Option<real>)
      requires Valid()
      ensures r == Element(Value(), i, j)
    {
      if 0 <= i < rows && 0 <= j < cols && !isNull {
        IndexInRange(i, j, rows, cols);
        r := Some(data[i * cols + j]);
      } else {
        r := None;
      }
    }

    /** `element(i, j) = v`: writes the element when (i, j) is in range, and otherwise only
        the shared sentinel. */
    method SetElement(i: int, j: int, v: real)
      requires Valid()
      modifies data
      ensures Valid() && Value() == WithElement(old(Value()), i, j, v)
    {
      if 0 <= i < rows && 0 <= j < cols && !isNull {
        IndexInRange(i, j, rows, cols);
        data[i * cols + j] := v;
      }
    }

    /** `copy(m)`: this becomes an independent copy of m. */
    method Copy(m: MatrixBuffer)
      requires m.Valid()
      modifies this
      ensures Valid() && Value() == old(m.Value()) && fresh(data)
    {
      var src := m.data;
      var n := src.Length;
      var buf := new real[n](_ => 0.0);
      var k := 0;
      while k < n
        invariant 0 <= k <= n
        invariant buf[..k] == src[..k]
        modifies buf
      {
        buf[k] := src[k];
        k := k + 1;
      }
      assert buf[..] == src[..] by {
        assert buf[..] == buf[..n] && src[..] == src[..n];
      }
      rows, cols, isNull := m.rows, m.cols, m.isNull;
      data := buf;
    }

    /** `swap(m)`: this and m exchange counts, flag and buffer. */
    method Swap(m: MatrixBuffer)
      requires Valid() && m.Valid()
      modifies this, m
      ensures Valid() && m.Valid()
      ensures Value() == old(m.Value()) && m.Value() == old(Value())
    {
      var r, c, n, d := m.rows, m.cols, m.isNull, m.data;
      m.rows, m.cols, m.isNull, m.data := rows, cols, isNull, data;
      rows, cols, isNull, data := r, c, n, d;
    }

    /** `resize(nRow, nCol)`: null when both counts are non-positive; otherwise a fresh
        zeroed nRow x nCol buffer receives every old element still in range. A single
        non-positive count would leave a non-null matrix with no elements and is excluded. */
    method Resize(r: int, c: int)
      requires Valid()
      requires (r > 0) == (c > 0)
      modifies this
      ensures Valid() && Value() == Resized(old(Value()), r, c)
      ensures rows == r && cols == c && fresh(data)
    {
      if r <= 0 && c <= 0 {
        isNull := true;
        data := new real[0];
      } else {
        var buf := ResizedCopy(r, c);
        isNull := false;
        data := buf;
      }
      rows, cols := r, c;
    }

    /** The copy loops of `resize`: a zeroed r x c buffer receives each old element (i, j)
        with i < rows and j < cols. */
    method ResizedCopy(r: int, c: int) returns (buf: array<real>)
      requires Valid() && r > 0 && c > 0
      ensures fresh(buf) && buf.Length == r * c
      ensures buf[..] == Resized(Value(), r, c).data
    {
      ghost var a := Value();
      buf := new real[r * c](_ => 0.0);
      var i, base := 0, 0;
      while i < r
        invariant 0 <= i <= r && base == i * c && base <= r * c
        invariant forall p :: 0 <= p < base ==> buf[p] == ResizedEntry(a, p, c)
      {
        MulMono(i + 1, r, c);
        CopyRow(buf, i, base, c);
        i, base := i + 1, base + c;
      }
    }

    /** The inner copy loop of `resize` for row i of the new buffer, which starts at base. */
    method CopyRow(buf: array<real>, i: nat, base: nat, c: int)
      requires Valid() && c > 0 && buf != data && base == i * c && base + c <= buf.Length
      modifies buf
      ensures forall p :: 0 <= p < buf.Length ==>
        buf[p] == if base <= p < base + c then ResizedEntry(Value(), p, c) else old(buf[p])
    {
      ghost var a := Value();
      ghost var b := buf[..];
      var j := 0;
      while j < c
        invariant 0 <= j <= c
        invariant forall p :: 0 <= p < buf.Length ==>
          buf[p] == if base <= p < base + j then ResizedEntry(a, p, c) else b[p]
      {
        ResizeCell(a, c, i, j);
        assert Idx(i, j, c) == base + j;
        var v := 0.0;
        if i < rows && j < cols && !isNull {
          IndexInRange(i, j, rows, cols);
          v := data[i * cols + j];
          assert v == At(a, i, j);
        }
        buf[base + j] := v;
        j := j + 1;
      }
    }

    /** `fill(d)`: every element becomes d; a null matrix is left alone. */
    method Fill(d: real)
      requires Valid()
      modifies data
      ensures Valid() && Value() == Filled(old(Value()), d)
    {
      if !isNull {
        var k := 0;
        while k < data.Length
          invariant 0 <= k <= data.Length
          invariant forall p :: 0 <= p < k ==> data[p] == d
        {
          data[k] := d;
          k := k + 1;
        }
      }
    }

    /** `identity(n)`: fill with 0, resize to n x n, then set the diagonal to 1. */
    method SetIdentity(n: int)
      requires Valid()
      modifies this, data
      ensures Valid() && Value() == Identity(n)
    {
      Fill(0.0);
      ghost var z := Value();
      Resize(n, n);
      if n > 0 {
        ResizedZeros(z, n);
        SetDiagonal(n);
      }
    }

    /** The last step of `identity(n)`: ones on the diagonal of an n x n zero matrix. */
    method SetDiagonal(n: int)
      requires Valid() && !isNull && rows == n && cols == n
      requires forall p :: 0 <= p < data.Length ==> data[p] == 0.0
      modifies data
      ensures Valid() && Value() == Identity(n)
    {
      var i := 0;
      while i < n
        invariant 0 <= i <= n
        invariant forall p :: 0 <= p < n * n ==> data[p] == if p / n == p % n && p / n < i then 1.0 else 0.0
      {
        IndexInRange(i, i, n, n);
        RowMajor(i, i, n);
        var q := i * cols + i;
        data[q] := 1.0;
        forall p | 0 <= p < n * n
          ensures data[p] == if p / n == p % n && p / n < i + 1 then 1.0 else 0.0
        {
          DiagonalPosition(p, n);
        }
        i := i + 1;
      }
      forall p | 0 <= p < n * n
        ensures data[p] == IdentityEntry(p, n)
      {
        FlatIndex(p, n, n);
      }
      assert data[..] == IdentityData(n);
    }

    /** `sAdd(s)`: s added to every element. */
    method SAdd(s: real)
      requires Valid()
      modifies data
      ensures Valid() && Value() == AddScalar(old(Value()), s)
    {
      var k := 0;
      while k < data.Length
        invariant 0 <= k <= data.Length
        invariant forall p :: 0 <= p < k ==> data[p] == old(data[p]) + s
        invariant forall p :: k <= p < data.Length ==> data[p] == old(data[p])
      {
        data[k] := data[k] + s;
        k := k + 1;
      }
    }

    /** `sMult(s)`: every element scaled by s. */
    method SMult(s: real)
      requires Valid()
      modifies data
      ensures Valid() && Value() == MulScalar(old(Value()), s)
    {
      var k := 0;
      while k < data.Length
        invariant 0 <= k <= data.Length
        invariant forall p :: 0 <= p < k ==> data[p] == old(data[p]) * s
        invariant forall p :: k <= p < data.Length ==> data[p] == old(data[p])
      {
        data[k] := data[k] * s;
        k := k + 1;
      }
      if !isNull {
        forall p | 0 <= p < data.Length
          ensures data[..][p] == MulScalar(old(Value()), s).data[p]
        {
        }
      }
    }

    /** `operator=(double)`: resize to 1 x 1 and store k. */
    method AssignScalar(k: real)
      requires Valid()
      modifies this
      ensures Valid() && Value() == Scalar(k)
    {
      Resize(1, 1);
      data[0] := k;
      assert data[..] == [k];
    }

    /** `operator+=(double)`. */
    method AddAssignScalar(t: real)
      requires Valid()
      modifies data
      ensures Valid() && Value() == AddScalar(old(Value()), t)
    {
      SAdd(t);
    }

    /** `operator-=(double)`: adds -t. */
    method SubAssignScalar(t: real)
      requires Valid()
      modifies data
      ensures Valid() && Value() == SubScalar(old(Value()), t)
    {
      SAdd(-t);
    }

    /** `operator*=(double)`. */
    method MulAssignScalar(t: real)
      requires Valid()
      modifies data
      ensures Valid() && Value() == MulScalar(old(Value()), t)
    {
      SMult(t);
    }

    /** `operator/=(double)`: a zero t makes the matrix null, any other t scales by 1/t. */
    method DivAssignScalar(t: real)
      requires Valid()
      modifies this, data
      ensures Valid() && Value() == DivScalar(old(Value()), t)
    {
      if t == 0.0 {
        rows, cols, isNull := 0, 0, true;
        data := new real[0];
      } else {
        SMult(1.0 / t);
      }
    }

    /** The loop shared by the compound assignments with a matrix operand: when this has
        the row and column counts of m, each element is combined with m's element at the
        same position; otherwise nothing changes. m may be this object itself. */
    method CombineWith(m: MatrixBuffer, f: (real, real) -> real)
      requires Valid() && m.Valid()
      modifies data
      ensures Valid() && Value() == Combine(old(Value()), old(m.Value()), f)
    {
      if rows == NRow(m.Value()) && cols == NCol(m.Value()) {
        var src := m.data;
        ghost var md := src[..];
        assert src.Length >= data.Length;
        var k := 0;
        while k < data.Length
          invariant 0 <= k <= data.Length
          invariant forall p :: 0 <= p < k ==> data[p] == f(old(data[p]), md[p])
          invariant forall p :: k <= p < data.Length ==> data[p] == old(data[p])
          invariant forall p :: k <= p < src.Length ==> src[p] == md[p]
        {
          data[k] := f(data[k], src[k]);
          k := k + 1;
        }
        if !isNull {
          assert data[..] == Combine(old(Value()), old(m.Value()), f).data;
        }
      }
    }

    /** `operator+=(CMatrix)`. */
    method AddAssign(m: MatrixBuffer)
      requires Valid() && m.Valid()
      modifies data
      ensures Valid() && Value() == Combine(old(Value()), old(m.Value()), Plus)
    {
      CombineWith(m, Plus);
    }

    /** `operator-=(CMatrix)`. */
    method SubAssign(m: MatrixBuffer)
      requires Valid() && m.Valid()
      modifies data
      ensures Valid() && Value() == Combine(old(Value()), old(m.Value()), Minus)
    {
      CombineWith(m, Minus);
    }

    /** `operator*=(CMatrix)`: elementwise, never the matrix product. */
    method MulAssign(m: MatrixBuffer)
      requires Valid() && m.Valid()
      modifies data
      ensures Valid() && Value() == Combine(old(Value()), old(m.Value()), Times)
    {
      CombineWith(m, Times);
    }

    /** `operator/=(CMatrix)`: elementwise. Its null branch tests m's buffer pointer, which
        is never null when the shapes agree, so a zero element is divided by as well. */
    method DivAssign(m: MatrixBuffer)
      requires Valid() && m.Valid()
      modifies data
      ensures Valid() && Value() == Combine(old(Value()), old(m.Value()), ElemDiv)
    {
      CombineWith(m, ElemDiv);
    }

    /** `ero_switchrow(i, j)`. */
    method EroSwitchRow(i: int, j: int)
      requires Valid()
      modifies data
      ensures Valid() && Value() == SwitchRows(old(Value()), i, j)
    {
      if !isNull && i >= 0 && j >= 0 && i < rows && j < rows {
        RowBounds(i, rows, cols);
        RowBounds(j, rows, cols);
        if i != j {
          RowsDisjoint(i, j, cols);
        }
        ghost var a := data[..];
        SwapRuns(data, i * cols, j * cols, cols);
        SwitchRowsFrom(M(rows, cols, a), i, j, data[..]);
      }
    }

    /** `ero_multrow(i, d)`. */
    method EroMultRow(i: int, d: real)
      requires Valid()
      modifies data
      ensures Valid() && Value() == ScaleRow(old(Value()), i, d)
    {
      if !isNull && i >= 0 && i < rows {
        RowBounds(i, rows, cols);
        ghost var a := data[..];
        ScaleRun(data, i * cols, cols, d);
        ScaleRowFrom(M(rows, cols, a), i, d, data[..]);
      }
    }

    /** `ero_addrow(i, j, d)`. */
    method EroAddRow(i: int, j: int, d: real)
      requires Valid()
      modifies data
      ensures Valid() && Value() == AddRow(old(Value()), i, j, d)
    {
      if !isNull && i >= 0 && j >= 0 && i < rows && j < rows {
        RowBounds(i, rows, cols);
        RowBounds(j, rows, cols);
        if i != j {
          RowsDisjoint(i, j, cols);
        }
        ghost var a := data[..];
        AddRun(data, i * cols, j * cols, cols, d);
        AddRowFrom(M(rows, cols, a), i, j, d, data[..]);
      }
    }

    /** `Neg()`: `ero_multrow(i, -1)` for every row, which negates the matrix. */
    method Neg()
      requires Valid()
      modifies data
      ensures Valid() && Value() == MulScalar(old(Value()), -1.0)
    {
      ghost var a := Value();
      ScaleAllRows(a, -1.0);
      var i := 0;
      while i < rows
        invariant Valid() && Value() == ScaleRowsBelow(a, if i <= 0 then 0 else i, -1.0)
        invariant !isNull ==> 0 <= i <= rows
      {
        ScaleRowsBelowStep(a, i, -1.0);
        EroMultRow(i, -1.0);
        i := i + 1;
      }
    }
  }

  // ---------------------------------------------------------------- the column loops of the row operations

  /** The loop of `ero_switchrow`: the c elements from bi on are exchanged with the c elements
      from bj on, one column at a time. The two runs are the same row or do not overlap. */
  method SwapRuns(data: array<real>, bi: int, bj: int, c: int)
    requires 0 <= c && 0 <= bi && bi + c <= data.Length && 0 <= bj && bj + c <= data.Length
    requires bi == bj || bi + c <= bj || bj + c <= bi
    modifies data
    ensures forall p {:trigger data[p]} :: 0 <= p < data.Length ==>
      data[p] == if bi <= p < bi + c then old(data[p - bi + bj])
                 else if bj <= p < bj + c then old(data[p - bj + bi])
                 else old(data[p])
  {
    ghost var a := data[..];
    var n := 0;
    while n < c
      invariant 0 <= n <= c
      invariant forall p {:trigger data[p]} :: 0 <= p < data.Length ==>
        data[p] == if bi <= p < bi + n then a[p - bi + bj]
                   else if bj <= p < bj + n then a[p - bj + bi]
                   else a[p]
    {
      var temp := data[bi + n];
      data[bi + n] := data[bj + n];
      data[bj + n] := temp;
      n := n + 1;
    }
  }

  /** The loop of `ero_multrow`: the c elements from base on are multiplied by d. */
  method ScaleRun(data: array<real>, base: int, c: int, d: real)
    requires 0 <= c && 0 <= base && base + c <= data.Length
    modifies data
    ensures forall p {:trigger data[p]} :: 0 <= p < data.Length ==>
      data[p] == if base <= p < base + c then old(data[p]) * d else old(data[p])
  {
    ghost var a := data[..];
    var n := 0;
    while n < c
      invariant 0 <= n <= c
      invariant forall p {:trigger data[p]} :: 0 <= p < data.Length ==>
        data[p] == if base <= p < base + n then a[p] * d else a[p]
    {
      data[base + n] := data[base + n] * d;
      n := n + 1;
    }
  }

  /** The loop of `ero_addrow`: d times the element at bi + n is added to the element at
      bj + n, for each column n < c. The two runs are the same row or do not overlap. */
  method AddRun(data: array<real>, bi: int, bj: int, c: int, d: real)
    requires 0 <= c && 0 <= bi && bi + c <= data.Length && 0 <= bj && bj + c <= data.Length
    requires bi == bj || bi + c <= bj || bj + c <= bi
    modifies data
    ensures forall p {:trigger data[p]} :: 0 <= p < data.Length ==>
      data[p] == if bj <= p < bj + c then old(data[p]) + old(data[p - bj + bi]) * d else old(data[p])
  {
    ghost var a := data[..];
    var n := 0;
    while n < c
      invariant 0 <= n <= c
      invariant forall p {:trigger data[p]} :: 0 <= p < data.Length ==>
        data[p] == if bj <= p < bj + n then a[p] + a[p - bj + bi] * d else a[p]
    {
      assert data[bj + n] == a[bj + n] && data[bi + n] == a[bi + n];
      data[bj + n] := data[bj + n] + data[bi + n] * d;
      n := n + 1;
    }
  }

  // ---------------------------------------------------------------- reading a literal

  /** The reading loop of `CMatrix(char*)` over a literal isValidMatrix accepted with n
      elements: separators are skipped, each digit run is decoded into the next element and
      each ';' starts a new row, until ']'. */
  method ReadLiteral(s: string, n: nat) returns (buf: array<real>, nRow: int)
    requires n > 0 && ValidCount(s) == n
    ensures fresh(buf)
    ensures buf[..] == Values(Elems(Items(s, 1)))
    ensures nRow == 1 + Semis(Items(s, 1))
  {
    ReadWholeLiteral(s);
    buf, nRow := ReadElements(s, n);
  }

  /** The loop itself, stated against the reading it performs: the buffer of n cells ends
      holding the values read and nRow counts one row more than the ';' passed over. */
  method ReadElements(s: string, n: nat) returns (buf: array<real>, nRow: int)
    requires 1 <= |s| && |ReadValues(s, 1)| == n
    ensures fresh(buf)
    ensures buf[..] == ReadValues(s, 1)
    ensures nRow == 1 + ReadRows(s, 1)
  {
    ghost var whole, rows := ReadValues(s, 1), ReadRows(s, 1);
    ghost var read: seq<real> := [];
    buf := new real[n](_ => 0.0);
    var cur := 0;
    nRow := 1;
    var p := 1;
    while p < |s| && s[p] != ']'
      invariant 1 <= p <= |s| && 0 <= cur <= n == buf.Length
      invariant |read| == cur && forall k :: 0 <= k < cur ==> buf[k] == read[k]
      invariant read + ReadValues(s, p) == whole
      invariant nRow + ReadRows(s, p) == 1 + rows
      decreases |s| - p
    {
      var step := ReadStep(s, p);
      match step
      case Value(v, next) =>
        ghost var rest := ReadValues(s, next);
        assert read + [v] + rest == whole && nRow + ReadRows(s, next) == 1 + rows by {
          assert ReadValues(s, p) == [v] + rest && ReadRows(s, p) == ReadRows(s, next);
          assert read + [v] + rest == read + ([v] + rest);
        }
        buf[cur] := v;
        read := read + [v];
        cur := cur + 1;
        p := next;
      case Row(next) =>
        assert read + ReadValues(s, next) == whole && nRow + 1 + ReadRows(s, next) == 1 + rows by {
          assert ReadValues(s, p) == ReadValues(s, next) && ReadRows(s, p) == 1 + ReadRows(s, next);
        }
        nRow := nRow + 1;
        p := next;
      case End =>
        break;
    }
    assert buf[..] == read;
  }

  /** One pass of the reading loop's body at a position before ']'. */
  method ReadStep(s: string, p: nat) returns (step: Step)
    requires p <= |s|
    ensures step == NextStep(s, p)
  {
    var q := SkipSeparators(s, p);
    if q < |s| && IsDigit(s[q]) {
      var e := DigitRunEnd(s, q + 1);
      RunDigits(s, q);
      var v := DecodeNumber(s, q, e);
      step := Value(v, e);
    } else if q < |s| && s[q] == ';' {
      step := Row(q + 1);
    } else {
      step := End;
    }
  }

  /** The separator loop of `CMatrix(char*)`: ' ' and ',' are skipped. */
  method SkipSeparators(s: string, p: nat) returns (q: nat)
    requires p <= |s|
    ensures q == SkipSep(s, p)
  {
    q := p;
    while q < |s| && (s[q] == ' ' || s[q] == ',')
      invariant p <= q <= |s| && SkipSep(s, q) == SkipSep(s, p)
    {
      q := q + 1;
    }
  }

  /** The digit loop of `CMatrix(char*)`: characters are consumed while they are digits
      or '.'. */
  method DigitRunEnd(s: string, i: nat) returns (e: nat)
    requires i <= |s|
    ensures e == RunEnd(s, i)
  {
    e := i;
    while e < |s| && IsDigit(s[e])
      invariant i <= e <= |s| && RunEnd(s, e) == RunEnd(s, i)
    {
      e := e + 1;
    }
  }
}
