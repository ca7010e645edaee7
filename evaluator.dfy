/** The calculator proper (Calc.cpp:678-891): the binary and unary operators on matrices,
    and the value of an expression as the recursive, cursor-driven evaluation of `CalcExpr`
    computes it from the levelled parts. Variables are read from the table's entries. The
    C library's `pow` is not part of this model: it is the parameter `pow`. */
module Evaluator {
  import opened Wrappers
  import opened Matrices
  import opened CalcSyntax
  import opened VarTables
  import MatrixLaws

  // ---------------------------------------------------------------- integer remainder

  function Abs(a: int): nat {
    if a < 0 then -a else a
  }

  /** `int(x)` on a double: truncation toward zero. */
  function Trunc(x: real): (n: int)
    ensures Abs(n) as real <= (if x < 0.0 then -x else x) < Abs(n) as real + 1.0
    ensures (n > 0 ==> x > 0.0) && (n < 0 ==> x < 0.0)
  {
    if x >= 0.0 then x.Floor else -((-x).Floor)
  }

  /** The quotient of `/` on ints: truncated toward zero. */
  function CQuot(a: int, b: int): int
    requires b != 0
  {
    var q := Abs(a) / Abs(b);
    if (a < 0) == (b < 0) then q else -q
  }

  /** `%` on ints: the remainder of the truncating division, with the sign of the dividend. */
  function CRem(a: int, b: int): (r: int)
    requires b != 0
    ensures Abs(r) < Abs(b)
    ensures (r > 0 ==> a > 0) && (r < 0 ==> a < 0)
  {
    if a >= 0 then NatRem(a, Abs(b)) as int
    else
      var q: int := NatRem(-a, Abs(b));
      assert 0 <= q < Abs(b);
      -q
  }

  /** The remainder of two non-negative ints. */
  function NatRem(x: nat, m: nat): (q: nat)
    requires m > 0
    ensures q < m
  {
    x % m
  }

  /** The two make up C's division identity: a == (a / b) * b + a % b. */
  lemma CDivision(a: int, b: int)
    requires b != 0
    ensures a == CQuot(a, b) * b + CRem(a, b)
  {
    var m := Abs(b);
    var q := Abs(a) / m;
    assert Abs(a) == q * m + Abs(a) % m;
    if a < 0 {
      assert CRem(a, b) == -(Abs(a) % m);
    }
    if b < 0 {
      assert m == -b;
      assert (-q) * b == q * m;
    }
  }

  // ---------------------------------------------------------------- operators

  /** The binary `CalcOP` (Calc.cpp:835-872): `+ - * /` are the matrix operators, `/` by a
      1 x 1 zero gives null, `^` needs two 1 x 1 operands, `%` is the integer remainder of
      the truncated elements of two 1 x 1 operands (null when the divisor truncates to zero),
      and every other code gives null. */
  function CalcOp(a: Matrix, op: Op, b: Matrix, pow: (real, real) -> real): (r: Matrix)
    ensures r.M? ==> IsArithOp(op)
    ensures op == Power ==> (r.M? <==> IsSingle(a) && IsSingle(b))
    ensures op == Modulo ==> (r.M? <==> IsSingle(a) && IsSingle(b) && Trunc(b.data[0]) != 0)
    ensures op == Divide && EqScalar(b, 0.0) ==> r.Null?
    ensures (op == Power || op == Modulo) && r.M? ==> IsSingle(r)
  {
    match op
    case Plus => Add(a, b)
    case Minus => Sub(a, b)
    case Times => Mul(a, b)
    case Divide => if EqScalar(b, 0.0) then Null else Div(a, b)
    case Power => if !IsSingle(a) || !IsSingle(b) then Null else Scalar(pow(a.data[0], b.data[0]))
    case Modulo =>
      if IsSingle(a) && IsSingle(b) && Trunc(b.data[0]) != 0
      then Scalar(CRem(Trunc(a.data[0]), Trunc(b.data[0])) as real)
      else Null
    case _ => Null
  }

  /** The error the binary `CalcOP` raises itself, besides returning null. */
  function OpFault(a: Matrix, op: Op, b: Matrix): (f: Option<Fault>)
    ensures f.Some? ==> f.value == DivideByZero || f.value == MatrixPower
  {
    if op == Divide && EqScalar(b, 0.0) then Some(DivideByZero)
    else if op == Power && (!IsSingle(a) || !IsSingle(b)) then Some(MatrixPower)
    else None
  }

  /** Whenever `CalcOP` raises an error it also returns null. */
  lemma FaultMeansNull(a: Matrix, op: Op, b: Matrix, pow: (real, real) -> real)
    requires OpFault(a, op, b).Some?
    ensures CalcOp(a, op, b, pow).Null?
  {
  }

  /** On 1 x 1 operands the operators are the arithmetic of their elements. */
  lemma ScalarOps(x: real, y: real, pow: (real, real) -> real)
    ensures CalcOp(Scalar(x), Plus, Scalar(y), pow) == Scalar(x + y)
    ensures CalcOp(Scalar(x), Minus, Scalar(y), pow) == Scalar(x - y)
    ensures CalcOp(Scalar(x), Times, Scalar(y), pow) == Scalar(x * y)
    ensures CalcOp(Scalar(x), Divide, Scalar(y), pow) == if y == 0.0 then Null else Scalar(x / y)
    ensures CalcOp(Scalar(x), Power, Scalar(y), pow) == Scalar(pow(x, y))
    ensures CalcOp(Scalar(x), Modulo, Scalar(y), pow)
         == if Trunc(y) == 0 then Null else Scalar(CRem(Trunc(x), Trunc(y)) as real)
  {
    MatrixLaws.ScalarArithmetic(x, y);
  }

  /** The unary `CalcOP` (Calc.cpp:875-891): `++` and `--` add or subtract one from a
      1 x 1 operand; anything else gives null. */
  function CalcUnary(a: Matrix, op: Op): (r: Matrix)
    ensures r.M? <==> IsSingle(a) && (op == Increment || op == Decrement)
    ensures r.M? ==> IsSingle(r) && r.data[0] == a.data[0] + (if op == Increment then 1.0 else -1.0)
  {
    if !IsSingle(a) then Null
    else if op == Increment then AddScalar(a, 1.0)
    else if op == Decrement then SubScalar(a, 1.0)
    else Null
  }

  /** `--` undoes `++` and the other way round. */
  lemma UnaryInverse(x: real)
    ensures CalcUnary(CalcUnary(Scalar(x), Increment), Decrement) == Scalar(x)
    ensures CalcUnary(CalcUnary(Scalar(x), Decrement), Increment) == Scalar(x)
  {
    var up := CalcUnary(Scalar(x), Increment);
    assert up.data == [x + 1.0];
    var down := CalcUnary(Scalar(x), Decrement);
    assert down.data == [x - 1.0];
    assert CalcUnary(up, Decrement).data == [x];
    assert CalcUnary(down, Increment).data == [x];
  }

  // ---------------------------------------------------------------- expressions

  /** The first part at or after st that is not a bracket. */
  function SkipBrackets(ps: seq<Part>, st: nat): (r: nat)
    requires st <= |ps|
    ensures st <= r <= |ps|
    ensures forall k :: st <= k < r ==> ps[k].kind == Bracket
    ensures r < |ps| ==> ps[r].kind != Bracket
    decreases |ps| - st
  {
    if st < |ps| && ps[st].kind == Bracket then SkipBrackets(ps, st + 1) else st
  }

  /** An upper bound of the levels of the parts. */
  function MaxLevel(ps: seq<Part>): (m: int)
    ensures m >= 0
    ensures forall k :: 0 <= k < |ps| ==> ps[k].level <= m
  {
    if ps == [] then 0
    else
      var m := MaxLevel(ps[1..]);
      assert forall k :: 1 <= k < |ps| ==> ps[k] == ps[1..][k - 1];
      if ps[0].level > m then ps[0].level else m
  }

  /** A value and the cursor after it, or an error and where the cursor stopped. */
  datatype Reached = Reached(value: Result<Matrix, Fault>, next: nat)

  /** The value of the operand part at v (Calc.cpp:761-794): a number, the value of a
      variable (an error if there is none of that name), or a matrix literal; any other
      part is an error. */
  function Operand(ps: seq<Part>, v: nat, env: seq<Slot>): (r: Reached)
    requires v < |ps|
    ensures r.value.Ok? ==> r.next == v + 1
    ensures r.value.Err? ==> r.next == v
  {
    var p := ps[v];
    match p.kind
    case Number => Reached(Ok(Scalar(NumOf(p))), v + 1)
    case Word =>
      (match Find(env, NameOf(p))
       case Some(i) => Reached(Ok(env[i].value), v + 1)
       case None => Reached(Err(UnknownQuantity(NameOf(p))), v))
    case Literal => Reached(Ok(MatOf(p)), v + 1)
    case _ => Reached(Err(UnexpectedElement(v)), v)
  }

  /** `CalcExpr(st, ed, level)` with ed the end of the parts. */
  function Eval(ps: seq<Part>, st: nat, level: int, env: seq<Slot>, pow: (real, real) -> real): (r: Reached)
    requires st <= |ps|
    ensures r.next <= |ps|
    ensures r.value.Ok? ==> st <= r.next
    ensures r.value.Ok? && st < |ps| ==> st < r.next
    decreases |ps| - st, MaxLevel(ps) - level, 2
  {
    Run(ps, st, level, Scalar(0.0), true, env, pow)
  }

  /** The loop of `CalcExpr` from the top of a turn, with the value accumulated so far and
      whether this is the first turn. A turn skips brackets, reads an operator (not on the
      first turn) and the value at the operand after it, and hands it to `Settle`. */
  function Run(ps: seq<Part>, st: nat, level: int, cum: Matrix, first: bool,
               env: seq<Slot>, pow: (real, real) -> real): (r: Reached)
    requires st <= |ps|
    ensures r.next <= |ps|
    ensures r.value.Ok? ==> st <= r.next
    ensures r.value.Ok? && first && st < |ps| ==> st < r.next
    decreases |ps| - st, MaxLevel(ps) - level, 1
  {
    var at := SkipBrackets(ps, st);
    if at == |ps| then Reached(Ok(cum), at)
    else if !first && ps[at].kind != Operator then Reached(Err(ExpectedOperator(at)), at + 1)
    else
      var v := if first then at else at + 1;
      if v == |ps| || ps[v].kind == Operator then Reached(Err(ExpectedValue(v)), v)
      else
        var nx := NextOp(ps, v, |ps|);
        if nx < |ps| && IsAssign(ps[nx]) then Reached(Err(AssignInExpression), v)
        else Settle(ps, st, at, level, cum, first, Chunk(ps, v, level, env, pow), env, pow)
  }

  /** The value a turn reads at v: the sub-expression one level up when the next operator
      is above this level, the operand at v otherwise. */
  function Chunk(ps: seq<Part>, v: nat, level: int, env: seq<Slot>, pow: (real, real) -> real): (r: Reached)
    requires v < |ps|
    ensures r.next <= |ps|
    ensures r.value.Ok? ==> v < r.next
    decreases |ps| - v, MaxLevel(ps) - level, 0
  {
    var nx := NextOp(ps, v, |ps|);
    if nx < |ps| && ps[nx].level > level then Eval(ps, v, level + 1, env, pow)
    else Operand(ps, v, env)
  }

  /** The rest of a turn, once the value `got` has been read: stop on an error, apply the
      operator at `at` to the accumulated value and the new one (a null result is an error
      there), and stop at the end of the parts or before an operator below this level, or
      go on with the next turn. */
  function Settle(ps: seq<Part>, st: nat, at: nat, level: int, cum: Matrix, first: bool, got: Reached,
                  env: seq<Slot>, pow: (real, real) -> real): (r: Reached)
    requires st <= at < |ps| && got.next <= |ps|
    requires got.value.Ok? ==> st < got.next
    ensures r.next <= |ps|
    ensures r.value.Ok? ==> st <= r.next
    ensures r.value.Ok? && first ==> st < r.next
    decreases |ps| - st, MaxLevel(ps) - level, 0
  {
    if got.value.Err? then got
    else
      var after := got.next;
      var nx' := NextOp(ps, after, |ps|);
      var exit := after == |ps| || (nx' < |ps| && ps[nx'].level < level);
      var acc := if first then got.value.value
                 else CalcOp(cum, OpOf(ps[at]), got.value.value, pow);
      if !first && acc.Null? then Reached(Err(NullResult(at)), after)
      else if exit then Reached(Ok(acc), after)
      else Run(ps, after, level, acc, false, env, pow)
  }
}
