/** The in-place operations of CMatrix.cpp described as values: what `resize`, `fill`, the
    compound assignments and the elementary row operations leave in the matrix they change.
    `MatrixBuffers.MatrixBuffer` implements each of them on an array and is proved to end in
    the state these functions give. */
module MatrixEdits {
  import opened Wrappers
  import opened Matrices

  // ---------------------------------------------------------------- element access helpers

  /** Two non-null matrices of one shape that agree at every (i, j) are equal. */
  lemma {:induction false} AtExtensional(a: Matrix, b: Matrix)
    requires a.M? && b.M? && a.rows == b.rows && a.cols == b.cols
    requires forall i, j :: 0 <= i < a.rows && 0 <= j < a.cols ==> At(a, i, j) == At(b, i, j)
    ensures a == b
  {
    forall p | 0 <= p < |a.data|
      ensures a.data[p] == b.data[p]
    {
      FlatIndex(p, a.rows, a.cols);
      var i, j := p / a.cols, p % a.cols;
      assert At(a, i, j) == At(b, i, j);
      assert Idx(i, j, a.cols) == p;
    }
  }

  /** Element (i, j) of a matrix built from a buffer d is d at the row-major position. */
  lemma AtOfBuffer(r: nat, c: nat, d: seq<real>, i: nat, j: nat)
    requires r >= 1 && c >= 1 && |d| == r * c && i < r && j < c
    ensures Idx(i, j, c) < |d| && (Idx(i, j, c) / c == i && Idx(i, j, c) % c == j)
    ensures At(M(r, c, d), i, j) == d[Idx(i, j, c)]
  {
    IndexInRange(i, j, r, c);
    RowMajor(i, j, c);
  }

  // ---------------------------------------------------------------- fill

  /** `fill(d)`: every element of a non-null matrix becomes d; a null matrix is untouched. */
  function Filled(a: Matrix, d: real): (r: Matrix)
    ensures SameShape(r, a)
  {
    match a
    case Null => Null
    case M(rs, cs, v) => M(rs, cs, seq(|v|, _ => d))
  }

  lemma FilledAt(a: Matrix, d: real)
    ensures Filled(a, d).Null? <==> a.Null?
    ensures a.M? ==> forall i, j :: 0 <= i < a.rows && 0 <= j < a.cols ==> At(Filled(a, d), i, j) == d
  {
    if a.M? {
      forall i, j | 0 <= i < a.rows && 0 <= j < a.cols
        ensures At(Filled(a, d), i, j) == d
      {
        AtOfBuffer(a.rows, a.cols, Filled(a, d).data, i, j);
      }
    }
  }

  // ---------------------------------------------------------------- resize

  /** The element resize puts at row-major position p of an r x c result. */
  function ResizedEntry(a: Matrix, p: nat, c: nat): real
    requires c > 0
  {
    var i, j := p / c, p % c;
    if a.M? && i < a.rows && j < a.cols then At(a, i, j) else 0.0
  }

  /** `resize(r, c)`: null when both counts are non-positive; otherwise an r x c matrix that
      keeps every old (i, j) still in range and is zero elsewhere. */
  function Resized(a: Matrix, r: int, c: int): (m: Matrix)
    requires (r > 0) == (c > 0)
    ensures m.Null? <==> r <= 0
    ensures m.M? ==> m.rows == r && m.cols == c
  {
    if r <= 0 then Null
    else M(r, c, seq(r * c, p requires 0 <= p < r * c => ResizedEntry(a, p, c)))
  }

  /** The element resize copies into position (i, j) of a result with c columns. */
  lemma ResizeCell(a: Matrix, c: nat, i: nat, j: nat)
    requires j < c
    ensures ResizedEntry(a, Idx(i, j, c), c) ==
      if a.M? && i < a.rows && j < a.cols then At(a, i, j) else 0.0
  {
    var p := Idx(i, j, c);
    RowMajor(i, j, c);
    assert p / c == i && p % c == j;
    var e := ResizedEntry(a, p, c);
    if a.M? && i < a.rows && j < a.cols {
      assert e == At(a, i, j);
    } else {
      assert e == 0.0;
    }
  }

  lemma ResizedAt(a: Matrix, r: nat, c: nat)
    requires r > 0 && c > 0
    ensures forall i, j :: 0 <= i < r && 0 <= j < c ==>
      At(Resized(a, r, c), i, j) == if a.M? && i < a.rows && j < a.cols then At(a, i, j) else 0.0
  {
    forall i, j | 0 <= i < r && 0 <= j < c
      ensures At(Resized(a, r, c), i, j) == if a.M? && i < a.rows && j < a.cols then At(a, i, j) else 0.0
    {
      AtOfBuffer(r, c, Resized(a, r, c).data, i, j);
    }
  }

  /** Resizing to the current shape changes nothing. */
  lemma ResizeSameShape(a: Matrix)
    requires a.M?
    ensures Resized(a, a.rows, a.cols) == a
  {
    ResizedAt(a, a.rows, a.cols);
    AtExtensional(Resized(a, a.rows, a.cols), a);
  }

  /** Growing a matrix and then resizing it back to its old shape restores it. */
  lemma ResizeGrowShrink(a: Matrix, r: nat, c: nat)
    requires a.M? && r >= a.rows && c >= a.cols
    ensures Resized(Resized(a, r, c), a.rows, a.cols) == a
  {
    var g := Resized(a, r, c);
    ResizedAt(a, r, c);
    ResizedAt(g, a.rows, a.cols);
    AtExtensional(Resized(g, a.rows, a.cols), a);
  }

  /** `identity(n)` first fills with 0 and resizes to n x n, which leaves only zeros. */
  lemma ResizedZeros(a: Matrix, n: nat)
    requires n > 0
    ensures Resized(Filled(a, 0.0), n, n).M?
    ensures forall p :: 0 <= p < n * n ==> Resized(Filled(a, 0.0), n, n).data[p] == 0.0
  {
    var f := Filled(a, 0.0);
    forall p | 0 <= p < n * n
      ensures Resized(f, n, n).data[p] == 0.0
    {
      FlatIndex(p, n, n);
      if f.M? && p / n < f.rows && p % n < f.cols {
        FilledAt(a, 0.0);
      }
    }
  }

  // ---------------------------------------------------------------- element assignment

  /** Assigning v through `element(i, j)`: the element changes when (i, j) is in range of a
      non-null matrix; otherwise the write lands in the shared NaN sentinel and the matrix is
      unchanged. */
  function WithElement(a: Matrix, i: int, j: int, v: real): (r: Matrix)
    ensures SameShape(r, a)
  {
    if a.M? && 0 <= i < a.rows && 0 <= j < a.cols then
      IndexInRange(i, j, a.rows, a.cols);
      M(a.rows, a.cols, a.data[Idx(i, j, a.cols) := v])
    else a
  }

  /** After a write through `element(i, j)`, reading (i, j) gives the value written and every
      other element reads as before. */
  lemma WithElementReads(a: Matrix, i: int, j: int, v: real)
    ensures Element(a, i, j).Some? ==> Element(WithElement(a, i, j, v), i, j) == Some(v)
    ensures Element(a, i, j).None? ==> WithElement(a, i, j, v) == a
    ensures forall p, q :: (p, q) != (i, j) ==> Element(WithElement(a, i, j, v), p, q) == Element(a, p, q)
  {
    if a.M? && 0 <= i < a.rows && 0 <= j < a.cols {
      var r := WithElement(a, i, j, v);
      AtOfBuffer(a.rows, a.cols, r.data, i, j);
      forall p, q | (p, q) != (i, j)
        ensures Element(r, p, q) == Element(a, p, q)
      {
        if 0 <= p < a.rows && 0 <= q < a.cols {
          AtOfBuffer(a.rows, a.cols, r.data, p, q);
          AtOfBuffer(a.rows, a.cols, a.data, p, q);
        }
      }
    }
  }

  // ---------------------------------------------------------------- compound assignment

  function Plus(x: real, y: real): real { x + y }
  function Minus(x: real, y: real): real { x - y }
  function Times(x: real, y: real): real { x * y }

  /** The compound assignments `+= -= *= /=` with a matrix operand: when the shapes agree
      each element is combined with the matching element of b; otherwise a is unchanged.
      A 1 x 1 operand is not broadcast, and `*=` is always elementwise. */
  function Combine(a: Matrix, b: Matrix, f: (real, real) -> real): (r: Matrix)
    ensures SameShape(r, a)
  {
    if a.M? && SameShape(a, b) then
      M(a.rows, a.cols, seq(|a.data|, k requires 0 <= k < |a.data| => f(a.data[k], b.data[k])))
    else a
  }

  /** On equal shapes and an operand that is not 1 x 1, `+=` agrees with `+`. */
  lemma CombinePlusIsAdd(a: Matrix, b: Matrix)
    requires a.M? && SameShape(a, b) && !IsSingle(b)
    ensures Combine(a, b, Plus) == Add(a, b)
  {
    assert Combine(a, b, Plus).data == Add(a, b).data;
  }

  /** On equal shapes and an operand that is not 1 x 1, `-=` agrees with `-`. */
  lemma CombineMinusIsSub(a: Matrix, b: Matrix)
    requires a.M? && SameShape(a, b) && !IsSingle(b)
    ensures Combine(a, b, Minus) == Sub(a, b)
  {
    assert Combine(a, b, Minus).data == Sub(a, b).data;
  }

  /** On equal shapes and an operand that is not 1 x 1, `/=` agrees with `/`. */
  lemma CombineElemDivIsDiv(a: Matrix, b: Matrix)
    requires a.M? && SameShape(a, b) && !IsSingle(b)
    ensures Combine(a, b, ElemDiv) == Div(a, b)
  {
    assert Combine(a, b, ElemDiv).data == Div(a, b).data;
  }

  /** `*=` is elementwise; it agrees with `*` only where `*` does not take the product. */
  lemma CombineTimesIsMul(a: Matrix, b: Matrix)
    requires a.M? && SameShape(a, b) && !IsSingle(b) && a.cols != a.rows
    ensures Combine(a, b, Times) == Mul(a, b)
  {
    assert Combine(a, b, Times).data == Mul(a, b).data;
  }

  /** Unlike `+`, a compound assignment ignores a 1 x 1 operand when the target is larger. */
  lemma CombineIgnoresScalar(a: Matrix, t: real, f: (real, real) -> real)
    requires a.M? && !IsSingle(a)
    ensures Combine(a, Scalar(t), f) == a
    ensures Add(a, Scalar(t)) != a || t == 0.0
  {
    if t != 0.0 {
      assert Add(a, Scalar(t)).data[0] != a.data[0];
    }
  }

  // ---------------------------------------------------------------- elementary row operations

  predicate RowInRange(a: Matrix, i: int) {
    a.M? && 0 <= i < a.rows
  }

  /** Row i of an r x c buffer occupies positions i * c up to i * c + c, inside the buffer. */
  lemma RowBounds(i: int, r: int, c: int)
    requires 0 <= i < r && c >= 0
    ensures 0 <= i * c && i * c + c <= r * c
  {
    MulMono(i + 1, r, c);
    assert (i + 1) * c == i * c + c;
  }

  /** Two different rows occupy disjoint stretches of the buffer. */
  lemma RowsDisjoint(i: int, j: int, c: int)
    requires 0 <= i && 0 <= j && i != j && c >= 0
    ensures i * c + c <= j * c || j * c + c <= i * c
  {
    if i < j {
      MulMono(i + 1, j, c);
      assert (i + 1) * c == i * c + c;
    } else {
      MulMono(j + 1, i, c);
      assert (j + 1) * c == j * c + c;
    }
  }

  /** Position (p, q) lies in the stretch of row i exactly when p == i. */
  lemma InRowStretch(p: int, q: int, i: int, c: int)
    requires 0 <= p && 0 <= i && 0 <= q < c
    ensures i * c <= p * c + q < i * c + c <==> p == i
  {
    if p < i {
      RowsDisjoint(p, i, c);
      MulMono(p, i, c);
    } else if p > i {
      RowsDisjoint(p, i, c);
      MulMono(i, p, c);
    }
  }

  /** `ero_switchrow(i, j)`: rows i and j exchanged; nothing changes unless both are rows of
      a non-null matrix. */
  function SwitchRows(a: Matrix, i: int, j: int): (r: Matrix)
    ensures SameShape(r, a)
  {
    if RowInRange(a, i) && RowInRange(a, j) then
      var c := a.cols;
      RowBounds(i, a.rows, c);
      RowBounds(j, a.rows, c);
      M(a.rows, c, seq(|a.data|, p requires 0 <= p < |a.data| =>
        if i * c <= p < i * c + c then a.data[p - i * c + j * c]
        else if j * c <= p < j * c + c then a.data[p - j * c + i * c]
        else a.data[p]))
    else a
  }

  /** `ero_multrow(i, d)`: row i scaled by d; nothing changes for a row out of range. */
  function ScaleRow(a: Matrix, i: int, d: real): (r: Matrix)
    ensures SameShape(r, a)
  {
    if RowInRange(a, i) then
      var c := a.cols;
      M(a.rows, c, seq(|a.data|, p requires 0 <= p < |a.data| =>
        if i * c <= p < i * c + c then a.data[p] * d else a.data[p]))
    else a
  }

  /** `ero_addrow(i, j, d)`: d times row i added to row j; nothing changes unless both are
      rows of a non-null matrix. When i == j the row is scaled by 1 + d. */
  function AddRow(a: Matrix, i: int, j: int, d: real): (r: Matrix)
    ensures SameShape(r, a)
  {
    if RowInRange(a, i) && RowInRange(a, j) then
      var c := a.cols;
      RowBounds(i, a.rows, c);
      RowBounds(j, a.rows, c);
      M(a.rows, c, seq(|a.data|, p requires 0 <= p < |a.data| =>
        if j * c <= p < j * c + c then a.data[p] + a.data[p - j * c + i * c] * d else a.data[p]))
    else a
  }

  /** A buffer that holds, position by position, what `SwitchRows` describes is its data. */
  lemma SwitchRowsFrom(a: Matrix, i: int, j: int, e: seq<real>)
    requires RowInRange(a, i) && RowInRange(a, j) && |e| == |a.data|
    requires i * a.cols + a.cols <= |e| && j * a.cols + a.cols <= |e| && 0 <= i * a.cols && 0 <= j * a.cols
    requires forall p {:trigger e[p]} :: 0 <= p < |e| ==>
      e[p] == if i * a.cols <= p < i * a.cols + a.cols then a.data[p - i * a.cols + j * a.cols]
              else if j * a.cols <= p < j * a.cols + a.cols then a.data[p - j * a.cols + i * a.cols]
              else a.data[p]
    ensures SwitchRows(a, i, j) == M(a.rows, a.cols, e)
  {
    forall p | 0 <= p < |e|
      ensures SwitchRows(a, i, j).data[p] == e[p]
    {
    }
    assert SwitchRows(a, i, j).data == e;
  }

  /** A buffer that holds, position by position, what `ScaleRow` describes is its data. */
  lemma ScaleRowFrom(a: Matrix, i: int, d: real, e: seq<real>)
    requires RowInRange(a, i) && |e| == |a.data|
    requires forall p {:trigger e[p]} :: 0 <= p < |e| ==>
      e[p] == if i * a.cols <= p < i * a.cols + a.cols then a.data[p] * d else a.data[p]
    ensures ScaleRow(a, i, d) == M(a.rows, a.cols, e)
  {
    forall p | 0 <= p < |e|
      ensures ScaleRow(a, i, d).data[p] == e[p]
    {
    }
    assert ScaleRow(a, i, d).data == e;
  }

  /** A buffer that holds, position by position, what `AddRow` describes is its data. */
  lemma AddRowFrom(a: Matrix, i: int, j: int, d: real, e: seq<real>)
    requires RowInRange(a, i) && RowInRange(a, j) && |e| == |a.data|
    requires i * a.cols + a.cols <= |e| && 0 <= i * a.cols && 0 <= j * a.cols
    requires forall p {:trigger e[p]} :: 0 <= p < |e| ==>
      e[p] == if j * a.cols <= p < j * a.cols + a.cols then a.data[p] + a.data[p - j * a.cols + i * a.cols] * d
              else a.data[p]
    ensures AddRow(a, i, j, d) == M(a.rows, a.cols, e)
  {
    forall p | 0 <= p < |e|
      ensures AddRow(a, i, j, d).data[p] == e[p]
    {
    }
    assert AddRow(a, i, j, d).data == e;
  }

  /** The row that row p of `SwitchRows(a, i, j)` comes from. */
  function SwappedRow(p: nat, i: nat, j: nat): nat {
    if p == i then j else if p == j then i else p
  }

  lemma SwitchRowsAt(a: Matrix, i: nat, j: nat)
    requires RowInRange(a, i) && RowInRange(a, j)
    ensures forall p: nat :: p < a.rows ==> SwappedRow(p, i, j) < a.rows
    ensures forall p: nat, q: nat :: p < a.rows && q < a.cols ==>
      At(SwitchRows(a, i, j), p, q) == At(a, SwappedRow(p, i, j), q)
  {
    forall p: nat, q: nat | p < a.rows && q < a.cols
      ensures At(SwitchRows(a, i, j), p, q) == At(a, SwappedRow(p, i, j), q)
    {
      var c := a.cols;
      var s := SwitchRows(a, i, j);
      AtOfBuffer(a.rows, c, s.data, p, q);
      AtOfBuffer(a.rows, c, a.data, p, q);
      AtOfBuffer(a.rows, c, a.data, i, q);
      AtOfBuffer(a.rows, c, a.data, j, q);
      InRowStretch(p, q, i, c);
      InRowStretch(p, q, j, c);
      var k := Idx(p, q, c);
      if p == i {
        assert s.data[k] == a.data[Idx(j, q, c)];
      } else if p == j {
        assert s.data[k] == a.data[Idx(i, q, c)];
      } else {
        assert s.data[k] == a.data[k];
      }
    }
  }

  /** Switching the same two rows twice restores the matrix. */
  lemma SwitchRowsTwice(a: Matrix, i: int, j: int)
    ensures SwitchRows(SwitchRows(a, i, j), i, j) == a
  {
    if RowInRange(a, i) && RowInRange(a, j) {
      var s := SwitchRows(a, i, j);
      SwitchRowsAt(a, i, j);
      SwitchRowsAt(s, i, j);
      AtExtensional(SwitchRows(s, i, j), a);
    }
  }

  lemma ScaleRowAt(a: Matrix, i: int, d: real)
    requires RowInRange(a, i)
    ensures forall p, q :: 0 <= p < a.rows && 0 <= q < a.cols ==>
      At(ScaleRow(a, i, d), p, q) == if p == i then At(a, p, q) * d else At(a, p, q)
  {
    forall p, q | 0 <= p < a.rows && 0 <= q < a.cols
      ensures At(ScaleRow(a, i, d), p, q) == if p == i then At(a, p, q) * d else At(a, p, q)
    {
      AtOfBuffer(a.rows, a.cols, ScaleRow(a, i, d).data, p, q);
      AtOfBuffer(a.rows, a.cols, a.data, p, q);
      InRowStretch(p, q, i, a.cols);
    }
  }

  /** Scaling a row by d and then by 1/d restores the matrix. */
  lemma ScaleRowInverse(a: Matrix, i: int, d: real)
    requires d != 0.0
    ensures ScaleRow(ScaleRow(a, i, d), i, 1.0 / d) == a
  {
    if RowInRange(a, i) {
      var s := ScaleRow(a, i, d);
      ScaleRowAt(a, i, d);
      ScaleRowAt(s, i, 1.0 / d);
      AtExtensional(ScaleRow(s, i, 1.0 / d), a);
    }
  }

  lemma AddRowAt(a: Matrix, i: int, j: int, d: real)
    requires RowInRange(a, i) && RowInRange(a, j)
    ensures forall p, q :: 0 <= p < a.rows && 0 <= q < a.cols ==>
      At(AddRow(a, i, j, d), p, q) == if p == j then At(a, p, q) + At(a, i, q) * d else At(a, p, q)
  {
    forall p, q | 0 <= p < a.rows && 0 <= q < a.cols
      ensures At(AddRow(a, i, j, d), p, q) == if p == j then At(a, p, q) + At(a, i, q) * d else At(a, p, q)
    {
      var c := a.cols;
      AtOfBuffer(a.rows, c, AddRow(a, i, j, d).data, p, q);
      AtOfBuffer(a.rows, c, a.data, p, q);
      AtOfBuffer(a.rows, c, a.data, i, q);
      InRowStretch(p, q, j, c);
    }
  }

  /** For two different rows, adding d times row i to row j is undone by adding -d times it. */
  lemma AddRowInverse(a: Matrix, i: int, j: int, d: real)
    requires i != j
    ensures AddRow(AddRow(a, i, j, d), i, j, -d) == a
  {
    if RowInRange(a, i) && RowInRange(a, j) {
      var s := AddRow(a, i, j, d);
      AddRowAt(a, i, j, d);
      AddRowAt(s, i, j, -d);
      AtExtensional(AddRow(s, i, j, -d), a);
    }
  }

  /** The first n rows scaled by d, as `Neg` leaves the matrix after n steps. */
  function ScaleRowsBelow(a: Matrix, n: int, d: real): (r: Matrix)
    ensures SameShape(r, a)
  {
    match a
    case Null => Null
    case M(rs, cs, v) => M(rs, cs, seq(|v|, p requires 0 <= p < |v| => if p < n * cs then v[p] * d else v[p]))
  }

  lemma ScaleRowsBelowStep(a: Matrix, n: int, d: real)
    requires 0 <= n < NRow(a)
    ensures ScaleRow(ScaleRowsBelow(a, n, d), n, d) == ScaleRowsBelow(a, n + 1, d)
  {
    var c := a.cols;
    assert (n + 1) * c == n * c + c;
    var s := ScaleRowsBelow(a, n, d);
    forall p | 0 <= p < |a.data|
      ensures ScaleRow(s, n, d).data[p] == ScaleRowsBelow(a, n + 1, d).data[p]
    {
      if p < n * c {
        assert ScaleRow(s, n, d).data[p] == s.data[p] == a.data[p] * d;
      } else if p < n * c + c {
        assert ScaleRow(s, n, d).data[p] == s.data[p] * d;
      }
    }
  }

  /** Scaling no row changes nothing; scaling every row by d multiplies by d. */
  lemma ScaleAllRows(a: Matrix, d: real)
    ensures ScaleRowsBelow(a, 0, d) == a
    ensures ScaleRowsBelow(a, NRow(a), d) == MulScalar(a, d)
  {
    if a.M? {
      assert ScaleRowsBelow(a, 0, d).data == a.data;
      assert ScaleRowsBelow(a, a.rows, d).data == MulScalar(a, d).data;
    }
  }
}
