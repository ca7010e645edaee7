/** What `CalcExpr` computes, stated without its cursor. For an expression without
    parentheses that alternates operands and arithmetic operators, the cursor-driven
    evaluation equals the value of the textbook left-associative grammar over operator
    levels: at level L an expression is split at its LAST operator of level L, the left
    side is again an expression at level L and the right side an expression at level L+1.
    With the levels the level pass gives (the precedence tiers), that is the usual order of
    operations: `^` before `* / %` before `+ -`, and left to right within a tier. */
module Precedence {
  import opened Wrappers
  import opened Matrices
  import opened CalcSyntax
  import opened VarTables
  import opened Evaluator
  import opened Levels

  predicate IsOperand(p: Part) {
    p.kind == Number || p.kind == Word || p.kind == Literal
  }

  predicate IsArith(p: Part) {
    p.kind == Operator && IsArithOp(OpOf(p))
  }

  /** Operands at even positions, arithmetic operators of non-negative level at odd ones,
      an operand at each end. */
  predicate Alternating(ps: seq<Part>) {
    |ps| % 2 == 1 &&
    forall k :: 0 <= k < |ps| ==>
      if k % 2 == 0 then IsOperand(ps[k]) else IsArith(ps[k]) && ps[k].level >= 0
  }

  /** Every operator in [i, j) has level at least L. */
  predicate AtLeast(ps: seq<Part>, i: nat, j: nat, L: int)
    requires j <= |ps|
  {
    forall k :: i <= k < j && ps[k].kind == Operator ==> ps[k].level >= L
  }

  /** The last operator of level L in [i, j). */
  function LastAt(ps: seq<Part>, i: nat, j: nat, L: int): (r: Option<nat>)
    requires j <= |ps|
    ensures r.Some? ==> i <= r.value < j && ps[r.value].kind == Operator && ps[r.value].level == L
    ensures r.Some? ==> forall k :: r.value < k < j && ps[k].kind == Operator ==> ps[k].level != L
    ensures r.None? ==> forall k :: i <= k < j && ps[k].kind == Operator ==> ps[k].level != L
    decreases j
  {
    if j <= i then None
    else if ps[j - 1].kind == Operator && ps[j - 1].level == L then Some(j - 1)
    else LastAt(ps, i, j - 1, L)
  }

  /** The value of the operands and operators in [i, j) as an expression at level L. */
  function Seg(ps: seq<Part>, i: nat, j: nat, L: int, env: seq<Slot>, pow: (real, real) -> real)
    : Result<Matrix, Fault>
    requires Alternating(ps) && i < j <= |ps| && i % 2 == 0 && j % 2 == 1 && AtLeast(ps, i, j, L)
    decreases j - i, MaxLevel(ps) - L
  {
    if j == i + 1 then Operand(ps, i, env).value
    else
      match LastAt(ps, i, j, L)
      case None =>
        assert ps[i + 1].kind == Operator && ps[i + 1].level <= MaxLevel(ps);
        Seg(ps, i, j, L + 1, env, pow)
      case Some(k) =>
        assert k % 2 == 1;
        Combine(Seg(ps, i, k, L, env, pow), OpOf(ps[k]), Seg(ps, k + 1, j, L + 1, env, pow), k, pow)
  }

  /** Applying the operator at position `at` to two results: the first error, else the
      operator's value, else (a null matrix) an error at the operator. */
  function Combine(x: Result<Matrix, Fault>, op: Op, y: Result<Matrix, Fault>, at: nat,
                   pow: (real, real) -> real): (r: Result<Matrix, Fault>)
    ensures x.Err? ==> r == x
    ensures x.Ok? && y.Err? ==> r == y
    ensures x.Ok? && y.Ok? ==>
      (r.Ok? <==> !CalcOp(x.value, op, y.value, pow).Null?) &&
      (r.Ok? ==> r.value == CalcOp(x.value, op, y.value, pow)) &&
      (r.Err? ==> r.error == NullResult(at))
  {
    if x.Err? then x
    else if y.Err? then y
    else
      var c := CalcOp(x.value, op, y.value, pow);
      if c.Null? then Err(NullResult(at)) else Ok(c)
  }

  /** The first operator at or after k whose level is below L, or the end. */
  function EndAt(ps: seq<Part>, k: nat, L: int): (e: nat)
    requires k <= |ps|
    ensures k <= e <= |ps|
    ensures e < |ps| ==> ps[e].kind == Operator && ps[e].level < L
    ensures forall m :: k <= m < e && ps[m].kind == Operator ==> ps[m].level >= L
    decreases |ps| - k
  {
    if k == |ps| then k
    else if ps[k].kind == Operator && ps[k].level < L then k
    else EndAt(ps, k + 1, L)
  }

  /** Operators sit at odd positions and the end of an alternating sequence is odd too. */
  lemma OddOperator(ps: seq<Part>, k: nat)
    requires Alternating(ps) && k <= |ps| && (k < |ps| ==> ps[k].kind == Operator)
    ensures k % 2 == 1
  {
  }

  /** Where operands and operators alternate, no assignment follows an operand. */
  lemma NoAssignAhead(ps: seq<Part>, v: nat)
    requires v < |ps| && IsOperand(ps[v])
    requires v + 1 < |ps| ==> IsArith(ps[v + 1])
    ensures var nx := NextOp(ps, v, |ps|); !(nx < |ps| && IsAssign(ps[nx]))
  {
    if v + 1 < |ps| {
      assert NextOp(ps, v, |ps|) == v + 1;
    }
  }

  /** Where operands and operators alternate, a turn reads no brackets, finds its operator
      where it expects it, meets no assignment, and reads the chunk at the operand v. */
  lemma RunTurn(ps: seq<Part>, st: nat, v: nat, L: int, cum: Matrix, first: bool,
                env: seq<Slot>, pow: (real, real) -> real)
    requires v < |ps| && v == (if first then st else st + 1) && IsOperand(ps[v])
    requires !first ==> IsArith(ps[st])
    requires var nx := NextOp(ps, v, |ps|); !(nx < |ps| && IsAssign(ps[nx]))
    ensures Run(ps, st, L, cum, first, env, pow) == Settle(ps, st, st, L, cum, first, Chunk(ps, v, L, env, pow), env, pow)
  {
    assert ps[st].kind != Bracket;
    assert SkipBrackets(ps, st) == st;
    assert first || ps[st].kind == Operator;
    assert ps[v].kind != Operator;
  }

  /** After a value that ends at an operator or at the end, the loop leaves exactly when
      that operator is below level L. */
  lemma AfterTurn(ps: seq<Part>, st: nat, at: nat, L: int, cum: Matrix, first: bool, got: Reached,
                  env: seq<Slot>, pow: (real, real) -> real)
    requires st <= at < |ps| && got.next <= |ps| && st < got.next && got.value.Ok?
    requires got.next < |ps| ==> ps[got.next].kind == Operator
    ensures var acc := if first then got.value.value else CalcOp(cum, OpOf(ps[at]), got.value.value, pow);
      Settle(ps, st, at, L, cum, first, got, env, pow) ==
        if !first && acc.Null? then Reached(Err(NullResult(at)), got.next)
        else if got.next == |ps| || ps[got.next].level < L then Reached(Ok(acc), got.next)
        else Run(ps, got.next, L, acc, false, env, pow)
  {
  }

  /** An error in a leading part of a level-L expression is the error of the whole. */
  lemma {:induction false} SegPrefixErr(ps: seq<Part>, i: nat, p: nat, e: nat, L: int,
                                        env: seq<Slot>, pow: (real, real) -> real)
    requires Alternating(ps) && i < p <= e <= |ps| && i % 2 == 0 && p % 2 == 1 && e % 2 == 1
    requires AtLeast(ps, i, e, L)
    requires p < e ==> ps[p].kind == Operator && ps[p].level == L
    requires Seg(ps, i, p, L, env, pow).Err?
    ensures Seg(ps, i, e, L, env, pow) == Seg(ps, i, p, L, env, pow)
    decreases e
  {
    if p < e {
      var k := LastAt(ps, i, e, L).value;
      OddOperator(ps, k);
      if k > p {
        SegPrefixErr(ps, i, p, k, L, env, pow);
      }
    }
  }

  /** A level-L expression without operators of level L is the same expression one level up. */
  lemma SegLift(ps: seq<Part>, i: nat, j: nat, L: int, env: seq<Slot>, pow: (real, real) -> real)
    requires Alternating(ps) && i < j <= |ps| && i % 2 == 0 && j % 2 == 1 && AtLeast(ps, i, j, L + 1)
    ensures Seg(ps, i, j, L, env, pow) == Seg(ps, i, j, L + 1, env, pow)
  {
    if j > i + 1 {
      assert LastAt(ps, i, j, L).None?;
    }
  }

  /** A level-L expression whose last level-L operator is at k splits there. */
  lemma SegSplit(ps: seq<Part>, i: nat, k: nat, j: nat, L: int, env: seq<Slot>, pow: (real, real) -> real)
    requires Alternating(ps) && i < k < j <= |ps| && i % 2 == 0 && k % 2 == 1 && j % 2 == 1
    requires AtLeast(ps, i, j, L) && ps[k].level == L && AtLeast(ps, k + 1, j, L + 1)
    ensures Seg(ps, i, j, L, env, pow)
         == Combine(Seg(ps, i, k, L, env, pow), OpOf(ps[k]), Seg(ps, k + 1, j, L + 1, env, pow), k, pow)
  {
    LastAtSplit(ps, i, k, j, L);
    assert j != i + 1;
  }

  /** The last level-L operator before j is k when every operator after k is above L. */
  lemma LastAtSplit(ps: seq<Part>, i: nat, k: nat, j: nat, L: int)
    requires Alternating(ps) && i <= k < j <= |ps| && k % 2 == 1
    requires ps[k].level == L && AtLeast(ps, k + 1, j, L + 1)
    ensures LastAt(ps, i, j, L) == Some(k)
  {
    assert ps[k].kind == Operator by {
      assert IsArith(ps[k]);
    }
    var r := LastAt(ps, i, j, L);
    assert r.Some? && k <= r.value;
    assert r.value <= k by {
      assert forall m :: k < m < j && ps[m].kind == Operator ==> ps[m].level != L;
    }
  }

  /** The value read in one turn is the level-(L+1) expression that runs from a to the first
      operator at or below level L. */
  lemma {:induction false} ChunkSeg(ps: seq<Part>, a: nat, L: int, env: seq<Slot>, pow: (real, real) -> real)
    requires Alternating(ps) && a < |ps| && a % 2 == 0
    ensures var e := EndAt(ps, a, L + 1);
      a < e && e % 2 == 1 &&
      Chunk(ps, a, L, env, pow).value == Seg(ps, a, e, L + 1, env, pow) &&
      (Chunk(ps, a, L, env, pow).value.Ok? ==> Chunk(ps, a, L, env, pow).next == e)
    decreases |ps| - a, MaxLevel(ps) - L, 0
  {
    var e := EndAt(ps, a, L + 1);
    assert IsOperand(ps[a]);
    OddOperator(ps, e);
    if a + 1 < |ps| {
      assert IsArith(ps[a + 1]);
      assert NextOp(ps, a, |ps|) == a + 1;
    }
    if a + 1 < |ps| && ps[a + 1].level > L {
      EvalSeg(ps, a, L + 1, env, pow);
    } else {
      assert e == a + 1;
    }
  }

  /** `CalcExpr` from an operand at level L returns the level-L expression that runs to the
      first operator below L, and leaves the cursor there. */
  lemma {:induction false} EvalSeg(ps: seq<Part>, v: nat, L: int, env: seq<Slot>, pow: (real, real) -> real)
    requires Alternating(ps) && v < |ps| && v % 2 == 0
    ensures var e := EndAt(ps, v, L);
      v < e && e % 2 == 1 &&
      Eval(ps, v, L, env, pow).value == Seg(ps, v, e, L, env, pow) &&
      (Eval(ps, v, L, env, pow).value.Ok? ==> Eval(ps, v, L, env, pow).next == e)
    decreases |ps| - v, MaxLevel(ps) - L, 1
  {
    var e := EndAt(ps, v, L);
    assert IsOperand(ps[v]);
    OddOperator(ps, e);
    var e1 := EndAt(ps, v, L + 1);
    var got := Chunk(ps, v, L, env, pow);
    assert e1 <= e;
    assert Eval(ps, v, L, env, pow) == Settle(ps, v, v, L, Scalar(0.0), true, got, env, pow) by {
      if v + 1 < |ps| {
        assert IsArith(ps[v + 1]);
      }
      NoAssignAhead(ps, v);
      RunTurn(ps, v, v, L, Scalar(0.0), true, env, pow);
    }
    assert e1 % 2 == 1 && v < e1 && got.value == Seg(ps, v, e1, L, env, pow) &&
           (got.value.Ok? ==> got.next == e1) by {
      ChunkSeg(ps, v, L, env, pow);
      SegLift(ps, v, e1, L, env, pow);
    }
    var r := Settle(ps, v, v, L, Scalar(0.0), true, got, env, pow);
    assert e1 == e <==> e1 == |ps| || ps[e1].level < L;
    if got.value.Err? {
      assert r == got;
      SegPrefixErr(ps, v, e1, e, L, env, pow);
    } else {
      AfterTurn(ps, v, v, L, Scalar(0.0), true, got, env, pow);
      if e1 == e {
        assert r == Reached(got.value, e1);
      } else {
        assert r == Run(ps, e1, L, got.value.value, false, env, pow);
        RunSeg(ps, v, e1, L, got.value.value, env, pow);
      }
    }
  }

  /** The later turns of the loop fold the level-L operators left to right: with the value
      of the expression up to a level-L operator at p accumulated, the loop returns the
      value of the expression up to the first operator below L. */
  lemma {:induction false} RunSeg(ps: seq<Part>, v: nat, p: nat, L: int, cum: Matrix,
                                  env: seq<Slot>, pow: (real, real) -> real)
    requires Alternating(ps) && v < p <= |ps| && v % 2 == 0 && p % 2 == 1
    requires p <= EndAt(ps, v, L)
    requires p < |ps| ==> p < EndAt(ps, v, L) && ps[p].level == L
    requires Seg(ps, v, p, L, env, pow) == Ok(cum)
    ensures var e := EndAt(ps, v, L);
      Run(ps, p, L, cum, false, env, pow).value == Seg(ps, v, e, L, env, pow) &&
      (Run(ps, p, L, cum, false, env, pow).value.Ok? ==> Run(ps, p, L, cum, false, env, pow).next == e)
    decreases |ps| - p, MaxLevel(ps) - L, 2
  {
    if p < |ps| {
      LaterTurn(ps, p, L, cum, env, pow);
      LaterTurnSeg(ps, v, p, L, cum, env, pow);
      SettleSeg(ps, v, p, L, cum, Chunk(ps, p + 1, L, env, pow), env, pow);
    }
  }

  /** A later turn at the operator p reads the chunk after it. */
  lemma LaterTurn(ps: seq<Part>, p: nat, L: int, cum: Matrix, env: seq<Slot>, pow: (real, real) -> real)
    requires Alternating(ps) && p < |ps| && p % 2 == 1
    ensures p + 1 < |ps|
    ensures Run(ps, p, L, cum, false, env, pow) == Settle(ps, p, p, L, cum, false, Chunk(ps, p + 1, L, env, pow), env, pow)
  {
    assert IsArith(ps[p]) && IsOperand(ps[p + 1]);
    if p + 2 < |ps| {
      assert IsArith(ps[p + 2]);
    }
    NoAssignAhead(ps, p + 1);
    RunTurn(ps, p, p + 1, L, cum, false, env, pow);
  }

  /** The chunk after a level-L operator p ends where the expression up to it, extended by
      that operator and chunk, ends. */
  lemma LaterTurnSeg(ps: seq<Part>, v: nat, p: nat, L: int, cum: Matrix, env: seq<Slot>, pow: (real, real) -> real)
    requires Alternating(ps) && v < p < |ps| && v % 2 == 0 && p % 2 == 1
    requires p < EndAt(ps, v, L) && ps[p].level == L
    requires Seg(ps, v, p, L, env, pow) == Ok(cum)
    ensures var e1 := EndAt(ps, p + 1, L + 1);
      var got := Chunk(ps, p + 1, L, env, pow);
      e1 % 2 == 1 && p + 1 < e1 && (got.value.Ok? ==> got.next == e1) &&
      Seg(ps, v, e1, L, env, pow) == Combine(Ok(cum), OpOf(ps[p]), got.value, p, pow)
    decreases |ps| - p, MaxLevel(ps) - L, 1
  {
    assert IsOperand(ps[p + 1]);
    ChunkSeg(ps, p + 1, L, env, pow);
    JoinSeg(ps, v, p, L, env, pow);
  }

  /** The expression from v through the level-L operator p and the chunk after it splits
      at p. */
  lemma JoinSeg(ps: seq<Part>, v: nat, p: nat, L: int, env: seq<Slot>, pow: (real, real) -> real)
    requires Alternating(ps) && v < p < |ps| && v % 2 == 0 && p % 2 == 1
    requires p < EndAt(ps, v, L) && ps[p].level == L
    requires var e1 := EndAt(ps, p + 1, L + 1); p + 1 < e1 && e1 % 2 == 1
    ensures var e1 := EndAt(ps, p + 1, L + 1);
      AtLeast(ps, v, e1, L) && AtLeast(ps, v, p, L) && AtLeast(ps, p + 1, e1, L + 1) &&
      Seg(ps, v, e1, L, env, pow)
        == Combine(Seg(ps, v, p, L, env, pow), OpOf(ps[p]), Seg(ps, p + 1, e1, L + 1, env, pow), p, pow)
  {
    SpanAtLeast(ps, v, p, L);
    SegSplit(ps, v, p, EndAt(ps, p + 1, L + 1), L, env, pow);
  }

  /** The span from v through the level-L operator p and the chunk after it holds no
      operator below L. */
  lemma SpanAtLeast(ps: seq<Part>, v: nat, p: nat, L: int)
    requires v < p < |ps| && p < EndAt(ps, v, L) && ps[p].level == L
    ensures AtLeast(ps, v, EndAt(ps, p + 1, L + 1), L)
    ensures AtLeast(ps, p + 1, EndAt(ps, p + 1, L + 1), L + 1)
  {
    var e1 := EndAt(ps, p + 1, L + 1);
    forall k | v <= k < e1 && ps[k].kind == Operator
      ensures ps[k].level >= L
    {
      if k > p {
        assert ps[k].level >= L + 1;
      }
    }
  }

  /** The rest of a later turn: with the expression up to the operator at p worth `cum` and
      the value read after it, the loop ends with the expression up to the first operator
      below L. */
  lemma {:induction false} SettleSeg(ps: seq<Part>, v: nat, p: nat, L: int, cum: Matrix, got: Reached,
                                     env: seq<Slot>, pow: (real, real) -> real)
    requires Alternating(ps) && v < p < |ps| && v % 2 == 0 && p % 2 == 1
    requires p < EndAt(ps, v, L) && ps[p].level == L
    requires var e1 := EndAt(ps, p + 1, L + 1);
      e1 % 2 == 1 && p + 1 < e1 && got.next <= |ps| && (got.value.Ok? ==> got.next == e1) &&
      Seg(ps, v, e1, L, env, pow) == Combine(Ok(cum), OpOf(ps[p]), got.value, p, pow)
    ensures var e := EndAt(ps, v, L);
      Settle(ps, p, p, L, cum, false, got, env, pow).value == Seg(ps, v, e, L, env, pow) &&
      (Settle(ps, p, p, L, cum, false, got, env, pow).value.Ok? ==>
         Settle(ps, p, p, L, cum, false, got, env, pow).next == e)
    decreases |ps| - p, MaxLevel(ps) - L, 1
  {
    var e := EndAt(ps, v, L);
    var e1 := EndAt(ps, p + 1, L + 1);
    var r := Settle(ps, p, p, L, cum, false, got, env, pow);
    OddOperator(ps, e);
    assert e1 <= e;
    assert e1 == e <==> e1 == |ps| || ps[e1].level < L;
    if got.value.Err? {
      assert r == got;
      SegPrefixErr(ps, v, e1, e, L, env, pow);
    } else {
      AfterTurn(ps, p, p, L, cum, false, got, env, pow);
      var acc := CalcOp(cum, OpOf(ps[p]), got.value.value, pow);
      if acc.Null? {
        assert r == Reached(Err(NullResult(p)), e1);
        SegPrefixErr(ps, v, e1, e, L, env, pow);
      } else if e1 == e {
        assert r == Reached(Ok(acc), e1);
      } else {
        assert r == Run(ps, e1, L, acc, false, env, pow);
        RunSeg(ps, v, e1, L, acc, env, pow);
      }
    }
  }

  /** `CalcExpr(0, len, 0)` on an alternating expression is the value of the whole
      expression in the left-associative grammar over operator levels, and on success it
      has consumed every part. */
  lemma EvalIsSeg(ps: seq<Part>, env: seq<Slot>, pow: (real, real) -> real)
    requires Alternating(ps)
    ensures Eval(ps, 0, 0, env, pow).value == Seg(ps, 0, |ps|, 0, env, pow)
    ensures Eval(ps, 0, 0, env, pow).value.Ok? ==> Eval(ps, 0, 0, env, pow).next == |ps|
  {
    EvalSeg(ps, 0, 0, env, pow);
  }

  /** An expression without parentheses that alternates operands and arithmetic operators
      passes the level pass, stays alternating, and its operators get their precedence tiers
      as levels; `CalcExpr` then computes the grammar's value at those levels. */
  lemma ParenFreeEval(ps: seq<Part>, env: seq<Slot>, pow: (real, real) -> real)
    requires Alternating(ps)
    ensures Leveled(ps).Ok?
    ensures Alternating(Leveled(ps).value)
    ensures forall k :: 0 <= k < |ps| && ps[k].kind == Operator ==>
      Leveled(ps).value[k].level == GetOpPrec(OpOf(ps[k]))
    ensures Eval(Leveled(ps).value, 0, 0, env, pow).value == Seg(Leveled(ps).value, 0, |ps|, 0, env, pow)
  {
    forall j | 0 <= j < |ps|
      ensures ps[j].kind != Bracket
    {
      assert IsOperand(ps[j]) || IsArith(ps[j]);
    }
    ParenFreeLevels(ps);
    var qs := Leveled(ps).value;
    assert Alternating(qs) by {
      forall k | 0 <= k < |qs|
        ensures if k % 2 == 0 then IsOperand(qs[k]) else IsArith(qs[k]) && qs[k].level >= 0
      {
        assert Unleveled(qs[k]) == Unleveled(ps[k]);
      }
    }
    EvalIsSeg(qs, env, pow);
  }

  // ---------------------------------------------------------------- the usual order of operations

  /** A number part and an operator part at a given level (their spans do not matter here). */
  function NumberPart(x: real): Part {
    Part(Number, 0, 0, Num(x), 0)
  }

  function OperatorPart(op: Op, level: int): Part {
    Part(Operator, 0, 0, Code(op), level)
  }

  /** `x + y * z` with the tiers as levels. */
  function SumOfProduct(x: real, y: real, z: real): seq<Part> {
    [NumberPart(x), OperatorPart(Plus, 0), NumberPart(y), OperatorPart(Times, 1), NumberPart(z)]
  }

  /** `x - y - z` with the tiers as levels. */
  function Difference3(x: real, y: real, z: real): seq<Part> {
    [NumberPart(x), OperatorPart(Minus, 0), NumberPart(y), OperatorPart(Minus, 0), NumberPart(z)]
  }

  /** `x ^ y + z` with the tiers as levels. */
  function SumOfPower(x: real, y: real, z: real): seq<Part> {
    [NumberPart(x), OperatorPart(Power, 2), NumberPart(y), OperatorPart(Plus, 0), NumberPart(z)]
  }

  lemma ProductPart(x: real, y: real, z: real, env: seq<Slot>, pow: (real, real) -> real)
    ensures Alternating(SumOfProduct(x, y, z))
    ensures Seg(SumOfProduct(x, y, z), 2, 5, 1, env, pow) == Ok(Scalar(y * z))
  {
    var ps := SumOfProduct(x, y, z);
    assert Alternating(ps);
    assert Seg(ps, 2, 3, 1, env, pow) == Ok(Scalar(y)) && Seg(ps, 4, 5, 2, env, pow) == Ok(Scalar(z));
    ScalarOps(y, z, pow);
    SegSplit(ps, 2, 3, 5, 1, env, pow);
  }

  lemma SumOfProductSeg(x: real, y: real, z: real, env: seq<Slot>, pow: (real, real) -> real)
    ensures Alternating(SumOfProduct(x, y, z))
    ensures Seg(SumOfProduct(x, y, z), 0, 5, 0, env, pow) == Ok(Scalar(x + y * z))
  {
    var ps := SumOfProduct(x, y, z);
    ProductPart(x, y, z, env, pow);
    assert Seg(ps, 0, 1, 0, env, pow) == Ok(Scalar(x));
    ScalarOps(x, y * z, pow);
    SegSplit(ps, 0, 1, 5, 0, env, pow);
  }

  /** In `x + y * z` the product is taken first. */
  lemma TimesBeforePlus(x: real, y: real, z: real, env: seq<Slot>, pow: (real, real) -> real)
    ensures Eval(SumOfProduct(x, y, z), 0, 0, env, pow).value == Ok(Scalar(x + y * z))
  {
    SumOfProductSeg(x, y, z, env, pow);
    EvalIsSeg(SumOfProduct(x, y, z), env, pow);
  }

  lemma FirstDifference(x: real, y: real, z: real, env: seq<Slot>, pow: (real, real) -> real)
    ensures Alternating(Difference3(x, y, z))
    ensures Seg(Difference3(x, y, z), 0, 3, 0, env, pow) == Ok(Scalar(x - y))
  {
    var ps := Difference3(x, y, z);
    assert Alternating(ps);
    assert Seg(ps, 0, 1, 0, env, pow) == Ok(Scalar(x)) && Seg(ps, 2, 3, 1, env, pow) == Ok(Scalar(y));
    ScalarOps(x, y, pow);
    SegSplit(ps, 0, 1, 3, 0, env, pow);
  }

  lemma Difference3Seg(x: real, y: real, z: real, env: seq<Slot>, pow: (real, real) -> real)
    ensures Alternating(Difference3(x, y, z))
    ensures Seg(Difference3(x, y, z), 0, 5, 0, env, pow) == Ok(Scalar((x - y) - z))
  {
    var ps := Difference3(x, y, z);
    FirstDifference(x, y, z, env, pow);
    assert Seg(ps, 4, 5, 1, env, pow) == Ok(Scalar(z));
    ScalarOps(x - y, z, pow);
    SegSplit(ps, 0, 3, 5, 0, env, pow);
  }

  /** In `x - y - z` the operators apply left to right. */
  lemma MinusLeftToRight(x: real, y: real, z: real, env: seq<Slot>, pow: (real, real) -> real)
    ensures Eval(Difference3(x, y, z), 0, 0, env, pow).value == Ok(Scalar((x - y) - z))
  {
    Difference3Seg(x, y, z, env, pow);
    EvalIsSeg(Difference3(x, y, z), env, pow);
  }

  lemma PowerPart(x: real, y: real, z: real, env: seq<Slot>, pow: (real, real) -> real)
    ensures Alternating(SumOfPower(x, y, z))
    ensures Seg(SumOfPower(x, y, z), 0, 3, 0, env, pow) == Ok(Scalar(pow(x, y)))
  {
    var ps := SumOfPower(x, y, z);
    assert Alternating(ps);
    assert Seg(ps, 0, 1, 2, env, pow) == Ok(Scalar(x)) && Seg(ps, 2, 3, 3, env, pow) == Ok(Scalar(y));
    ScalarOps(x, y, pow);
    SegSplit(ps, 0, 1, 3, 2, env, pow);
    SegLift(ps, 0, 3, 1, env, pow);
    SegLift(ps, 0, 3, 0, env, pow);
  }

  lemma SumOfPowerSeg(x: real, y: real, z: real, env: seq<Slot>, pow: (real, real) -> real)
    ensures Alternating(SumOfPower(x, y, z))
    ensures Seg(SumOfPower(x, y, z), 0, 5, 0, env, pow) == Ok(Scalar(pow(x, y) + z))
  {
    var ps := SumOfPower(x, y, z);
    PowerPart(x, y, z, env, pow);
    assert Seg(ps, 4, 5, 1, env, pow) == Ok(Scalar(z));
    ScalarOps(pow(x, y), z, pow);
    SegSplit(ps, 0, 3, 5, 0, env, pow);
  }

  /** In `x ^ y + z` the power is taken first. */
  lemma PowerBeforePlus(x: real, y: real, z: real, env: seq<Slot>, pow: (real, real) -> real)
    ensures Eval(SumOfPower(x, y, z), 0, 0, env, pow).value == Ok(Scalar(pow(x, y) + z))
  {
    SumOfPowerSeg(x, y, z, env, pow);
    EvalIsSeg(SumOfPower(x, y, z), env, pow);
  }
}
