/** Properties of the matrix operators of CMatrix.cpp: the scalar case, the one-sided
    broadcast, the dual `*` rule and the identity. */
module MatrixLaws {
  import opened Wrappers
  import opened Matrices

  /** On 1 x 1 operands the four operators are the arithmetic ones, and division by a zero
      scalar gives the null matrix. */
  lemma ScalarArithmetic(x: real, y: real)
    ensures Add(Scalar(x), Scalar(y)) == Scalar(x + y)
    ensures Sub(Scalar(x), Scalar(y)) == Scalar(x - y)
    ensures Mul(Scalar(x), Scalar(y)) == Scalar(x * y)
    ensures y != 0.0 ==> Div(Scalar(x), Scalar(y)) == Scalar(x / y)
    ensures y == 0.0 ==> Div(Scalar(x), Scalar(y)) == Null
  {
    assert Add(Scalar(x), Scalar(y)).data == [x + y];
    assert Sub(Scalar(x), Scalar(y)).data == [x - y];
    assert Mul(Scalar(x), Scalar(y)) == MulScalar(Scalar(x), y);
    var m := MulScalar(Scalar(x), y);
    assert Scalar(x).data == [x];
    assert |m.data| == 1 && m.data[0] == x * y;
    assert m.data == [x * y];
    if y != 0.0 {
      assert Div(Scalar(x), Scalar(y)).data == [x / y];
    }
  }

  /** Only a 1 x 1 RIGHT operand is broadcast: with a 1 x 1 left operand and a larger right
      operand, `+`, `-` and `/` give null, and `*` gives null unless the right operand has a
      single row (then it is the 1 x 1 by 1 x n product). */
  lemma LeftScalarNotBroadcast(x: real, b: Matrix)
    requires b.M? && !IsSingle(b)
    ensures Add(Scalar(x), b) == Null
    ensures Sub(Scalar(x), b) == Null
    ensures Div(Scalar(x), b) == Null
    ensures Mul(Scalar(x), b).M? <==> b.rows == 1
  {
  }

  /** Broadcasting a 1 x 1 right operand adds its element to every element. */
  lemma RightScalarBroadcast(a: Matrix, t: real)
    requires a.M?
    ensures Add(a, Scalar(t)) == AddScalar(a, t)
    ensures forall i, j :: 0 <= i < a.rows && 0 <= j < a.cols ==>
      Element(Add(a, Scalar(t)), i, j) == Some(At(a, i, j) + t)
  {
    forall i, j | 0 <= i < a.rows && 0 <= j < a.cols
      ensures Element(Add(a, Scalar(t)), i, j) == Some(At(a, i, j) + t)
    {
      IndexInRange(i, j, a.rows, a.cols);
    }
  }

  /** Two non-null operands of different shapes, neither 1 x 1, never give a partial result. */
  lemma ShapeMismatchIsNull(a: Matrix, b: Matrix)
    requires a.M? && b.M? && !IsSingle(b) && !SameShape(a, b)
    ensures Add(a, b) == Null && Sub(a, b) == Null && Div(a, b) == Null
    ensures Mul(a, b) == Null <==> a.cols != b.rows
  {
  }

  /** Subtracting what was added gives back the left operand. */
  lemma {:induction false} SubUndoesAdd(a: Matrix, b: Matrix)
    requires a.M? && (IsSingle(b) || SameShape(a, b))
    ensures Sub(Add(a, b), b) == a
  {
    var s := Add(a, b);
    var d := Sub(s, b);
    assert IsSingle(b) || SameShape(s, b);
    assert d.M? && |d.data| == |a.data|;
    assert forall k :: 0 <= k < |a.data| ==> d.data[k] == a.data[k];
    assert d.data == a.data;
  }

  /** Elementwise addition of two operands of one shape, neither 1 x 1, commutes. */
  lemma {:induction false} AddCommutes(a: Matrix, b: Matrix)
    requires !IsSingle(a) && !IsSingle(b) && SameShape(a, b)
    ensures Add(a, b) == Add(b, a)
  {
    if a.M? {
      assert Add(a, b).data == Add(b, a).data;
    }
  }

  /** The dot product of a row of a with column k of the identity picks out a(i, k). */
  lemma {:induction false} DotIdentity(a: Matrix, i: nat, k: nat, n: nat)
    requires a.M? && i < a.rows && k < a.cols && n <= a.cols
    ensures Identity(a.cols).M? && Identity(a.cols).rows == a.cols
    ensures Dot(a, Identity(a.cols), i, k, n) == if k < n then At(a, i, k) else 0.0
  {
    if n > 0 {
      DotIdentity(a, i, k, n - 1);
    }
  }

  /** The identity of matching size is a right unit of `*`: by scaling when a has one
      column, by the linear-algebra product otherwise. */
  lemma MulIdentityRight(a: Matrix)
    requires a.M?
    ensures Mul(a, Identity(a.cols)) == a
  {
    var c := a.cols;
    var e := Identity(c);
    var r := Mul(a, e);
    if c == 1 {
      assert At(e, 0, 0) == 1.0;
      assert IsSingle(e) && e.data[0] == 1.0;
      assert r.data == a.data;
    } else {
      assert !IsSingle(e);
      forall p | 0 <= p < |a.data|
        ensures r.data[p] == a.data[p]
      {
        FlatIndex(p, a.rows, c);
        var i, k := p / c, p % c;
        DotIdentity(a, i, k, c);
        assert At(r, i, k) == At(a, i, k);
      }
      assert r.data == a.data;
    }
  }

  /** Operands of equal shape that are not multiplication-compatible multiply elementwise. */
  lemma MulElementwiseWhenIncompatible(a: Matrix, b: Matrix)
    requires a.M? && b.M? && !IsSingle(b) && SameShape(a, b) && a.cols != a.rows
    ensures Mul(a, b).M? && SameShape(Mul(a, b), a)
    ensures forall i, j :: 0 <= i < a.rows && 0 <= j < a.cols ==> At(Mul(a, b), i, j) == At(a, i, j) * At(b, i, j)
  {
    var r := Mul(a, b);
    assert NCol(a) != NRow(b);
    forall i, j | 0 <= i < a.rows && 0 <= j < a.cols
      ensures At(r, i, j) == At(a, i, j) * At(b, i, j)
    {
      IndexInRange(i, j, a.rows, a.cols);
    }
  }
}
