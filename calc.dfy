/** The calculator object (Calc.h:71-132): the input line, the parts it is cut into, the
    variable table and the error state, and the steps of one line, each working on those
    fields in place. Every step is proved to compute what the functions of `Lexer`,
    `Levels`, `Evaluator` and `Interpreter` describe. Reading lines, printing and the
    `who` listing are not part of this model. */
module Calculator {
  import opened Wrappers
  import opened Numbers
  import opened Matrices
  import MatrixLiteral
  import opened MatrixBuffers
  import opened CalcSyntax
  import opened Lexer
  import opened VarTables
  import opened Levels
  import opened Evaluator
  import opened Interpreter

  // ---------------------------------------------------------------- the scanning loops of Partition

  /** The digit loop of Calc.cpp:214-220, from the first digit of a number. */
  method ScanDigits(s: string, i: nat) returns (j: nat)
    requires i <= |s|
    ensures j == MatrixLiteral.RunEnd(s, i)
  {
    j := i;
    while j < |s| && IsDigit(s[j])
      invariant i <= j <= |s|
      invariant MatrixLiteral.RunEnd(s, j) == MatrixLiteral.RunEnd(s, i)
      decreases |s| - j
    {
      j := j + 1;
    }
  }

  /** The word loop of Calc.cpp:227-233, from the first letter of a word. */
  method ScanWord(s: string, i: nat) returns (j: nat)
    requires i <= |s|
    ensures j == WordEnd(s, i)
  {
    j := i;
    while j < |s| && (IsChar(s[j]) || IsDigit(s[j])) && s[j] != '.'
      invariant i <= j <= |s|
      invariant WordEnd(s, j) == WordEnd(s, i)
      decreases |s| - j
    {
      j := j + 1;
    }
  }

  /** The matrix loop of Calc.cpp:279-323, from just inside the `[`. */
  method ScanMatrix(s: string, i: nat) returns (r: Scan)
    requires i <= |s|
    ensures r == MatrixScan(s, i)
  {
    var j := i;
    while j < |s|
      invariant i <= j <= |s|
      invariant MatrixScan(s, j) == MatrixScan(s, i)
      decreases |s| - j
    {
      if s[j] == ']' {
        return Closed(j + 1);
      }
      if s[j] == ' ' || s[j] == '\t' {
        j := j + 1;
        ghost var from := j;
        while j < |s| && (s[j] == ' ' || s[j] == '\t')
          invariant from <= j <= |s|
          invariant SkipBlanks(s, j) == SkipBlanks(s, from)
          decreases |s| - j
        {
          j := j + 1;
        }
      } else if IsDigit(s[j]) || s[j] == ';' || s[j] == ',' {
        j := j + 1;
      } else {
        return Bad(j);
      }
    }
    return Closed(|s|);
  }

  lemma PrefixedCons(pushed: seq<Part>, p: Part, rest: Lexed)
    ensures Prefixed(pushed, Cons(p, rest)) == Prefixed(pushed + [p], rest)
  {
    assert pushed + ([p] + rest.parts) == (pushed + [p]) + rest.parts;
  }

  /** What reading one part of the line ends with: the part, or the end of the partition
      with the error that ends it, if any. */
  datatype PartStep = Emit(part: Part) | Halt(fault: Option<Fault>)

  // ---------------------------------------------------------------- the object

  /** The value a turn reads: a sub-expression or an operand. */
  lemma ChunkCases(ps: seq<Part>, v: nat, level: int, env: seq<Slot>, pow: (real, real) -> real)
    requires v < |ps|
    ensures var nx := NextOp(ps, v, |ps|);
      Chunk(ps, v, level, env, pow)
        == if nx < |ps| && ps[nx].level > level then Eval(ps, v, level + 1, env, pow) else Operand(ps, v, env)
  {
  }

  /** The cases of a turn of the loop of `CalcExpr`, up to reading a value. */
  lemma TurnStart(ps: seq<Part>, st: nat, level: int, cum: Matrix, first: bool,
                  env: seq<Slot>, pow: (real, real) -> real)
    requires st <= |ps|
    ensures var at := SkipBrackets(ps, st);
      var v := if first then at else at + 1;
      Run(ps, st, level, cum, first, env, pow)
        == if at == |ps| then Reached(Ok(cum), at)
           else if !first && ps[at].kind != Operator then Reached(Err(ExpectedOperator(at)), at + 1)
           else if v == |ps| || ps[v].kind == Operator then Reached(Err(ExpectedValue(v)), v)
           else if NextOp(ps, v, |ps|) < |ps| && IsAssign(ps[NextOp(ps, v, |ps|)]) then Reached(Err(AssignInExpression), v)
           else Settle(ps, st, at, level, cum, first, Chunk(ps, v, level, env, pow), env, pow)
  {
  }

  /** The end of such a turn, once a value has been read. */
  lemma TurnEnd(ps: seq<Part>, st: nat, at: nat, level: int, cum: Matrix, first: bool, got: Reached,
                env: seq<Slot>, pow: (real, real) -> real)
    requires st <= at < |ps| && got.next <= |ps| && got.value.Ok? && st < got.next
    ensures var acc := if first then got.value.value else CalcOp(cum, OpOf(ps[at]), got.value.value, pow);
      var nx := NextOp(ps, got.next, |ps|);
      Settle(ps, st, at, level, cum, first, got, env, pow) ==
        if !first && acc.Null? then Reached(Err(NullResult(at)), got.next)
        else if got.next == |ps| || (nx < |ps| && ps[nx].level < level) then Reached(Ok(acc), got.next)
        else Run(ps, got.next, level, acc, false, env, pow)
  {
  }

  class Calc {
    var input: string           // Input
    var expr: seq<Part>         // m_Expr
    var db: VarTable            // m_db
    var isErr: bool
    var lastErr: Option<Fault>  // lastErr, as the condition its message describes
    var quitNext: bool
    const pow: (real, real) -> real   // the C library's pow

    predicate Valid()
      reads this, db
    {
      db.Valid()
    }

    /** `Calc()` with `createDB`: an empty line, no error, a fresh table holding only `ans`. */
    constructor (pow: (real, real) -> real)
      ensures Valid() && fresh(db) && fresh(db.slots)
      ensures db.Entries() == [Slot(Some(AnsName), Scalar(0.0))] && db.AnsNamed()
      ensures input == "" && expr == [] && !isErr && lastErr == None && !quitNext
      ensures this.pow == pow
    {
      this.pow := pow;
      input := "";
      expr := [];
      isErr := false;
      lastErr := None;
      quitNext := false;
      db := new VarTable();
    }

    /** `Partition` (Calc.cpp:187-342): the parts of the input are appended to `expr`; an
        error stops the partitioner after the parts before it were appended. */
    method Partition()
      modifies this`expr, this`isErr, this`lastErr
      ensures var lx := Tokenize(input, 0);
        && expr == old(expr) + lx.parts
        && isErr == (old(isErr) || lx.err.Some?)
        && lastErr == (if lx.err.Some? then lx.err else old(lastErr))
    {
      var s := input;
      var cur := 0;
      ghost var pushed: seq<Part> := [];
      while cur < |s|
        invariant cur <= |s|
        invariant expr == old(expr) + pushed
        invariant Tokenize(s, 0) == Prefixed(pushed, Tokenize(s, cur))
        invariant isErr == old(isErr) && lastErr == old(lastErr)
        decreases |s| - cur
      {
        if s[cur] == ' ' {
          cur := cur + 1;
        } else {
          var step := ReadPart(s, cur);
          if step.Halt? {
            if step.fault.Some? {
              isErr := true;
              lastErr := step.fault;
            }
            return;
          }
          var part := step.part;
          PrefixedCons(pushed, part, Tokenize(s, part.ed));
          expr := expr + [part];
          pushed := pushed + [part];
          cur := part.ed;
        }
      }
    }

    /** One part of `Partition`, read from its first character `start`: the part and where
        the partitioner goes on, or the end of the partition with its error if any. */
    static method ReadPart(s: string, start: nat) returns (step: PartStep)
      requires start < |s| && s[start] != ' '
      ensures step.Emit? ==> start < step.part.ed <= |s| && Tokenize(s, start) == Cons(step.part, Tokenize(s, step.part.ed))
      ensures step.Halt? ==> Tokenize(s, start) == Lexed([], step.fault)
    {
      var c := s[start];
      var cur: nat;
      var kind: Kind;
      if IsDigit(c) {
        kind := Number;
        cur := ScanDigits(s, start + 1);
      } else if IsChar(c) {
        kind := Word;
        cur := ScanWord(s, start + 1);
      } else if IsOpChar(c) {
        kind := Operator;
        if start + 1 == |s| {
          return Halt(None);
        }
        var next := s[start + 1];
        cur := start + 1;
        if (c == '+' && (next == '+' || next == '=')) || (c == '-' && (next == '-' || next == '='))
          || ((c == '*' || c == '/') && next == '=')
        {
          cur := cur + 1;
        }
        assert cur == start + OpWidth(s, start);
      } else if IsParen(c) {
        kind := Bracket;
        cur := start + 1;
      } else if c == '[' {
        kind := Literal;
        var scan := ScanMatrix(s, start + 1);
        if scan.Bad? {
          return Halt(Some(InvalidMatrixElement(scan.at)));
        }
        cur := scan.e;
      } else {
        return Halt(Some(InvalidChar(c)));
      }
      step := Emit(Token(kind, start, cur));
    }

    /** `Convert` (Calc.cpp:364-438): every part gets the data its text stands for. */
    method Convert()
      requires forall k :: 0 <= k < |expr| ==> Shaped(input, expr[k])
      modifies this`expr
      ensures expr == ConvertAll(input, old(expr))
    {
      var i := 0;
      while i < |expr|
        invariant 0 <= i <= |expr| == |old(expr)|
        invariant forall k :: 0 <= k < i ==> expr[k] == Converted(input, old(expr)[k])
        invariant forall k :: i <= k < |expr| ==> expr[k] == old(expr)[k]
        decreases |expr| - i
      {
        var p := expr[i];
        var q: Part;
        if p.kind == Number {
          var v := DecodeNumber(input, p.st, p.ed);
          q := p.(data := Num(v));
        } else if p.kind == Word {
          q := p.(data := Name(input[p.st..p.ed]));
        } else if p.kind == Operator {
          q := p.(data := Code(EncodeOp(input, p.st)));
        } else if p.kind == Literal {
          var m := new MatrixBuffer.OfLiteral(input[p.st..p.ed]);
          q := p.(data := Mat(m.Value()));
        } else {
          var b := LevelRange;
          if input[p.st] == ')' {
            b := b * -1;
          }
          q := p.(data := Weight(b));
        }
        expr := expr[i := q];
        i := i + 1;
      }
    }

    /** One turn of the level pass (Calc.cpp:526-559): the level of part i, and the
        running base after it; `ok` is false on an unmatched `)`, and nothing changes then. */
    method LevelPart(i: nat, base: int) returns (ok: bool, base': int)
      requires i < |expr|
      modifies this`expr
      ensures var step := LevelStep(old(expr), i, base);
        && (ok <==> step.Ok?)
        && (ok ==> expr == step.value.parts && base' == step.value.base)
        && (!ok ==> expr == old(expr))
    {
      var p := expr[i];
      base' := base;
      ok := true;
      if p.kind == Operator {
        var lvl := base + GetOpPrec(OpOf(p));
        var raised := expr[i := p.(level := lvl)];
        if 0 < i && expr[i - 1].kind != Operator && expr[i - 1].level < lvl {
          expr := raised[i - 1 := expr[i - 1].(level := lvl)];
        } else {
          expr := raised;
        }
      } else if p.kind == Bracket {
        base' := base + WeightOf(p);
        if base' < 0 {
          return false, base';
        }
        expr := expr[i := p.(level := base')];
      } else if 0 < i {
        expr := expr[i := p.(level := expr[i - 1].level)];
      }
    }

    /** The level pass of `Interpret` (Calc.cpp:521-568). On success the parts carry the
        levels `Leveled` gives them; an unmatched parenthesis is reported, with the levels
        assigned so far left in place. */
    method AssignLevels() returns (ok: bool)
      modifies this`expr, this`isErr, this`lastErr
      ensures Same(expr, old(expr))
      ensures ok <==> Leveled(old(expr)).Ok?
      ensures ok ==> expr == Leveled(old(expr)).value && isErr == old(isErr) && lastErr == old(lastErr)
      ensures !ok ==> isErr && lastErr == Some(UnmatchedParens)
    {
      var base := 0;
      var i := 0;
      while i < |expr|
        invariant 0 <= i <= |expr|
        invariant Same(expr, old(expr))
        invariant Leveled(old(expr)) == Annotate(expr, i, base)
        invariant isErr == old(isErr) && lastErr == old(lastErr)
        decreases |expr| - i
      {
        ghost var before := expr;
        var stepped;
        stepped, base := LevelPart(i, base);
        if !stepped {
          isErr := true;
          lastErr := Some(UnmatchedParens);
          return false;
        }
        assert Same(expr, before);
        i := i + 1;
      }
      if base != 0 {
        isErr := true;
        lastErr := Some(UnmatchedParens);
        return false;
      }
      return true;
    }

    /** `FindNextOp` (Calc.cpp:961-970): the first operator part in [st, ed), or ed. */
    method FindNextOp(st: nat, ed: nat) returns (r: nat)
      requires ed <= |expr|
      ensures r == NextOp(expr, st, ed)
    {
      if st >= ed {
        return ed;
      }
      var k := st;
      while k != ed
        invariant st <= k <= ed
        invariant NextOp(expr, k, ed) == NextOp(expr, st, ed)
        decreases ed - k
      {
        if expr[k].kind == Operator {
          return k;
        }
        k := k + 1;
      }
      return ed;
    }

    /** The binary `CalcOP` (Calc.cpp:835-872): the result of `CalcOp`, with division by a
        1 x 1 zero and `^` on a matrix also reported as errors. */
    method CalcOP(a: Matrix, op: Op, b: Matrix) returns (r: Matrix)
      modifies this`isErr, this`lastErr
      ensures r == CalcOp(a, op, b, pow)
      ensures var f := OpFault(a, op, b);
        isErr == (old(isErr) || f.Some?) && lastErr == (if f.Some? then f else old(lastErr))
    {
      match op
      case Plus => r := Add(a, b);
      case Minus => r := Sub(a, b);
      case Times => r := Mul(a, b);
      case Divide =>
        if EqScalar(b, 0.0) {
          isErr := true;
          lastErr := Some(DivideByZero);
          r := Null;
        } else {
          r := Div(a, b);
        }
      case Power =>
        if !IsSingle(a) || !IsSingle(b) {
          isErr := true;
          lastErr := Some(MatrixPower);
          r := Null;
        } else {
          r := Scalar(pow(a.data[0], b.data[0]));
        }
      case Modulo =>
        if IsSingle(a) && IsSingle(b) && Trunc(b.data[0]) != 0 {
          r := Scalar(CRem(Trunc(a.data[0]), Trunc(b.data[0])) as real);
        } else {
          r := Null;
        }
      case _ => r := Null;
    }
  
    /** The value of the operand part at v (Calc.cpp:761-794): a number, the value of the
        variable of that name, or a matrix literal; a missing variable or any other part is
        reported as an error. */
    method ReadOperand(v: nat) returns (r: Reached)
      requires Valid() && v < |expr|
      modifies this`isErr, this`lastErr
      ensures r == Operand(expr, v, db.Entries())
      ensures r.value.Ok? ==> isErr == old(isErr) && lastErr == old(lastErr)
      ensures r.value.Err? ==> isErr && lastErr == Some(r.value.error)
    {
      var p := expr[v];
      if p.kind == Number {
        return Reached(Ok(Scalar(NumOf(p))), v + 1);
      } else if p.kind == Word {
        var found := db.Search(NameOf(p));
        if found.None? {
          isErr := true;
          lastErr := Some(UnknownQuantity(NameOf(p)));
          return Reached(Err(UnknownQuantity(NameOf(p))), v);
        }
        return Reached(Ok(db.slots[found.value].value), v + 1);
      } else if p.kind == Literal {
        return Reached(Ok(MatOf(p)), v + 1);
      }
      isErr := true;
      lastErr := Some(UnexpectedElement(v));
      return Reached(Err(UnexpectedElement(v)), v);
    }

    /** The value a turn of `CalcExpr` reads at v (Calc.cpp:745-797): the sub-expression one
        level up when the next operator is above this level, the operand at v otherwise. */
    method ReadChunk(v: nat, level: int) returns (r: Reached)
      requires Valid() && !isErr && v < |expr|
      modifies this`isErr, this`lastErr
      ensures r == Chunk(expr, v, level, db.Entries(), pow)
      ensures isErr == r.value.Err? && (isErr ==> lastErr == Some(r.value.error))
      decreases |expr| - v, MaxLevel(expr) - level, 0
    {
      ChunkCases(expr, v, level, db.Entries(), pow);
      var nx := FindNextOp(v, |expr|);
      if nx < |expr| && expr[nx].level > level {
        r := CalcExpr(v, level + 1);
        return;
      } else {
        r := ReadOperand(v);
      }
    }

    /** The bracket skip at the top of a turn of `CalcExpr` (Calc.cpp:694-695). */
    method SkipParens(st: nat) returns (at: nat)
      requires st <= |expr|
      ensures at == SkipBrackets(expr, st)
    {
      at := st;
      while at < |expr| && expr[at].kind == Bracket
        invariant st <= at <= |expr|
        invariant SkipBrackets(expr, at) == SkipBrackets(expr, st)
        decreases |expr| - at
      {
        at := at + 1;
      }
    }

    /** The head of a turn of the loop of `CalcExpr` (Calc.cpp:693-743): skip brackets, read
        an operator (not on the first turn) and check the value after it. It either ends the
        loop (at the end of the parts, or on an error it reports) or yields the operator
        position `at` and the value position `v`. */
    method TurnHead(st: nat, level: int, cum: Matrix, first: bool) returns (stop: Option<Reached>, at: nat, v: nat)
      requires Valid() && !isErr && st <= |expr|
      modifies this`isErr, this`lastErr
      ensures stop.Some? ==> (stop.value == Run(expr, st, level, cum, first, db.Entries(), pow)
        && isErr == stop.value.value.Err? && (isErr ==> lastErr == Some(stop.value.value.error)))
      ensures stop.None? ==> (!isErr && st <= at && v == (if first then at else at + 1) && v < |expr|
        && Run(expr, st, level, cum, first, db.Entries(), pow)
           == Settle(expr, st, at, level, cum, first, Chunk(expr, v, level, db.Entries(), pow), db.Entries(), pow))
    {
      TurnStart(expr, st, level, cum, first, db.Entries(), pow);
      at := SkipParens(st);
      v := at;
      if at == |expr| {
        return Some(Reached(Ok(cum), at)), at, v;
      }
      if !first && expr[at].kind != Operator {
        isErr := true;
        lastErr := Some(ExpectedOperator(at));
        return Some(Reached(Err(ExpectedOperator(at)), at + 1)), at, v;
      }
      v := if first then at else at + 1;
      if v == |expr| || expr[v].kind == Operator {
        isErr := true;
        lastErr := Some(ExpectedValue(v));
        return Some(Reached(Err(ExpectedValue(v)), v)), at, v;
      }
      var nx := FindNextOp(v, |expr|);
      if nx < |expr| && IsAssign(expr[nx]) {
        isErr := true;
        lastErr := Some(AssignInExpression);
        return Some(Reached(Err(AssignInExpression), v)), at, v;
      }
      return None, at, v;
    }

    /** The tail of a turn (Calc.cpp:799-826), once the value `got` has been read: apply the
        operator at `at` (a null result is reported as an error) and either end the loop
        with r or go on from st' with the accumulated value cum'. */
    method TurnTail(st: nat, at: nat, level: int, cum: Matrix, first: bool, got: Reached)
      returns (done: bool, r: Reached, cum': Matrix, st': nat)
      requires Valid() && !isErr && st <= at < |expr| && got.next <= |expr| && st < got.next && got.value.Ok?
      modifies this`isErr, this`lastErr
      ensures done ==> (r == Settle(expr, st, at, level, cum, first, got, db.Entries(), pow)
        && isErr == r.value.Err? && (isErr ==> lastErr == Some(r.value.error)))
      ensures !done ==> (!isErr && st' == got.next
        && Settle(expr, st, at, level, cum, first, got, db.Entries(), pow) == Run(expr, st', level, cum', false, db.Entries(), pow))
    {
      TurnEnd(expr, st, at, level, cum, first, got, db.Entries(), pow);
      var after := got.next;
      var nx := FindNextOp(after, |expr|);
      var exit := after == |expr| || (nx < |expr| && expr[nx].level < level);
      var acc := got.value.value;
      if !first {
        acc := CalcOP(cum, OpOf(expr[at]), got.value.value);
        if acc.Null? {
          isErr := true;
          lastErr := Some(NullResult(at));
          return true, Reached(Err(NullResult(at)), after), acc, after;
        }
        if OpFault(cum, OpOf(expr[at]), got.value.value).Some? {
          FaultMeansNull(cum, OpOf(expr[at]), got.value.value, pow);
          assert false;
        }
      }
      if exit {
        return true, Reached(Ok(acc), after), acc, after;
      }
      return false, got, acc, after;
    }

    /** One turn of the loop of `CalcExpr` (Calc.cpp:691-827) from st: either the loop ends
        there with r, or it goes on from st' with the accumulated value cum'. */
    method Turn(st: nat, level: int, cum: Matrix, first: bool) returns (done: bool, r: Reached, cum': Matrix, st': nat)
      requires Valid() && !isErr && st <= |expr|
      modifies this`isErr, this`lastErr
      ensures done ==> (r == Run(expr, st, level, cum, first, db.Entries(), pow)
        && isErr == r.value.Err? && (isErr ==> lastErr == Some(r.value.error)))
      ensures !done ==> (st < st' <= |expr| && !isErr
        && Run(expr, st, level, cum, first, db.Entries(), pow) == Run(expr, st', level, cum', false, db.Entries(), pow))
      decreases |expr| - st, MaxLevel(expr) - level, 1
    {
      var stop, at, v := TurnHead(st, level, cum, first);
      if stop.Some? {
        return true, stop.value, cum, st;
      }
      var got := ReadChunk(v, level);
      if got.value.Err? {
        return true, got, cum, st;
      }
      done, r, cum', st' := TurnTail(st, at, level, cum, first, got);
    }

    /** `CalcExpr(st, ed, level)` (Calc.cpp:678-830) with ed the end of the parts: the value
        of the expression from st at operator level `level` and the position where the cursor
        stops, as `Eval` gives them. An error is reported in `isErr` and `lastErr` (the
        matrix the source returns then is the null one). */
    method CalcExpr(st0: nat, level: int) returns (r: Reached)
      requires Valid() && !isErr && st0 <= |expr|
      modifies this`isErr, this`lastErr
      ensures r == Eval(expr, st0, level, db.Entries(), pow)
      ensures isErr == r.value.Err? && (isErr ==> lastErr == Some(r.value.error))
      decreases |expr| - st0, MaxLevel(expr) - level, 2
    {
      var cum := Scalar(0.0);
      var first := true;
      var st := st0;
      while true
        invariant st0 <= st <= |expr| && (first ==> st == st0) && !isErr
        invariant Run(expr, st, level, cum, first, db.Entries(), pow) == Eval(expr, st0, level, db.Entries(), pow)
        decreases |expr| - st
      {
        var done, r', cum', st' := Turn(st, level, cum, first);
        if done {
          return r';
        }
        cum, first, st := cum', false, st';
      }
    }

    /** `CommandCheck` (Calc.cpp:137-172): a command is handled here and not interpreted;
        `quit` ends the loop of `run` after this line. */
    method CommandCheck() returns (handled: bool)
      modifies this`quitNext
      ensures handled <==> CommandOf(expr).Some?
      ensures quitNext == (old(quitNext) || CommandOf(expr) == Some(Quit))
    {
      var n := |expr|;
      if 1 <= n <= 2 && expr[0].kind == Word {
        var w := NameOf(expr[0]);
        if w == "who" {
          return true;
        } else if w == "quit" {
          quitNext := true;
          return true;
        } else if n == 2 && expr[1].kind == Word {
          return w == "open";
        }
      }
      return false;
    }
  
    /** `x++`, `++x`, `x--` or `--x` (Calc.cpp:474-502): the variable named by the word at
        position 0, else at position 1, goes through the unary `CalcOP`. */
    method StepVar(op: Op) returns (echoed: Option<nat>)
      requires Valid() && !isErr && |expr| == 2
      modifies this`isErr, this`lastErr, db.slots
      ensures Valid()
      ensures var o := Stepped(expr, old(db.Entries()), op);
        && db.Entries() == o.entries && echoed == o.echoed
        && isErr == o.fault.Some? && (isErr ==> lastErr == o.fault)
    {
      var name: string;
      if expr[0].kind == Word {
        name := NameOf(expr[0]);
      } else if expr[1].kind == Word {
        name := NameOf(expr[1]);
      } else {
        isErr := true;
        lastErr := Some(NotAVariable);
        return None;
      }
      var i := db.Search(name);
      if i.None? {
        isErr := true;
        lastErr := Some(NoSuchVariable);
        return None;
      }
      db.SetValue(i.value, CalcUnary(db.slots[i.value].value, op));
      return i;
    }

    /** A lone word (Calc.cpp:576-590): the variable of that name is echoed. */
    method ShowVar() returns (echoed: Option<nat>)
      requires Valid() && !isErr && |expr| == 1 && expr[0].kind == Word
      modifies this`isErr, this`lastErr
      ensures var o := Shown(db.Entries(), NameOf(expr[0]));
        && echoed == o.echoed && isErr == o.fault.Some? && (isErr ==> lastErr == o.fault)
    {
      echoed := db.Search(NameOf(expr[0]));
      if echoed.None? {
        isErr := true;
        lastErr := Some(UnknownName);
      }
    }

    /** The store of an assignment to slot i (Calc.cpp:612-634): the right-hand side from
        position 2 is evaluated; `=` stores it, a compound assignment the binary `CalcOP` of
        the old value and it. */
    method StoreVar(i: nat, kind: Op) returns (echoed: Option<nat>)
      requires Valid() && !isErr && |expr| > 2 && i < |db.Entries()|
      modifies this`isErr, this`lastErr, db.slots
      ensures Valid()
      ensures var o := Stored(expr, old(db.Entries()), i, kind, pow);
        && db.Entries() == o.entries && echoed == o.echoed
        && isErr == o.fault.Some? && (isErr ==> lastErr == o.fault)
    {
      var r := CalcExpr(2, 0);
      if r.value.Err? {
        return None;
      }
      if kind == Assign {
        db.SetValue(i, r.value.value);
      } else {
        var v := CalcOP(db.slots[i].value, kind, r.value.value);
        db.SetValue(i, v);
      }
      return Some(i);
    }

    /** `name op= expression` (Calc.cpp:593-635): the target must be a word; a missing
        variable is created with the value 0 before the right-hand side is evaluated. */
    method AssignVar() returns (echoed: Option<nat>)
      requires Valid() && !isErr && |expr| > 2 && IsAssign(expr[1])
      modifies this`isErr, this`lastErr, db, db.slots
      ensures Valid()
      ensures var o := Assignment(expr, old(db.Entries()), pow);
        && db.Entries() == o.entries && echoed == o.echoed
        && isErr == o.fault.Some? && (isErr ==> lastErr == o.fault)
    {
      if expr[0].kind != Word {
        isErr := true;
        lastErr := Some(AssignToNonVariable);
        return None;
      }
      var name := NameOf(expr[0]);
      var i := db.Search(name);
      if i.None? {
        i := db.CreateZero(name);
        if i.None? {
          isErr := true;
          lastErr := Some(TableFull);
          return None;
        }
      }
      echoed := StoreVar(i.value, AssignOpToOp(OpOf(expr[1])));
    }

    /** Any other expression (Calc.cpp:637-649): its value goes to `ans`, slot 0. */
    method AssignAns() returns (echoed: Option<nat>)
      requires Valid() && !isErr
      modifies this`isErr, this`lastErr, db.slots
      ensures Valid()
      ensures var o := Answer(expr, old(db.Entries()), pow);
        && db.Entries() == o.entries && echoed == o.echoed
        && isErr == o.fault.Some? && (isErr ==> lastErr == o.fault)
    {
      var r := CalcExpr(0, 0);
      if r.value.Err? {
        return None;
      }
      db.SetValue(0, r.value.value);
      return Some(0);
    }

    /** The level pass and the three kinds of line `Interpret` tells apart
        (Calc.cpp:521-650). */
    method Dispatch() returns (echoed: Option<nat>)
      requires Valid() && !isErr
      modifies this`expr, this`isErr, this`lastErr, db, db.slots
      ensures Valid()
      ensures var o := Dispatched(old(expr), old(db.Entries()), pow);
        && db.Entries() == o.entries && echoed == o.echoed
        && isErr == o.fault.Some? && (isErr ==> lastErr == o.fault)
    {
      var ok := AssignLevels();
      if !ok {
        return None;
      }
      if |expr| == 1 && expr[0].kind == Word {
        echoed := ShowVar();
      } else if |expr| > 2 && IsAssign(expr[1]) {
        echoed := AssignVar();
      } else {
        echoed := AssignAns();
      }
    }

    /** `Interpret` (Calc.cpp:462-656): what it does to the table, the variable it echoes
        and the error it reports are those of `Interpreted` on the converted parts. */
    method Interpret() returns (echoed: Option<nat>)
      requires Valid() && !isErr
      modifies this`expr, this`isErr, this`lastErr, db, db.slots
      ensures Valid()
      ensures var o := Interpreted(old(expr), old(db.Entries()), pow);
        && db.Entries() == o.entries && echoed == o.echoed
        && isErr == o.fault.Some? && (isErr ==> lastErr == o.fault)
    {
      if |expr| == 0 {
        return None;
      }
      var nx := FindNextOp(0, |expr|);
      var op := if nx < |expr| then OpOf(expr[nx]) else NoOp;
      if (op == Increment || op == Decrement) && |expr| == 2 {
        echoed := StepVar(op);
        return;
      }
      if expr[0].kind == Operator {
        isErr := true;
        lastErr := Some(OperatorFirst);
        return None;
      }
      if expr[|expr| - 1].kind == Operator {
        isErr := true;
        lastErr := Some(OperatorLast);
        return None;
      }
      echoed := Dispatch();
    }

    /** One turn of the loop of `run` (Calc.cpp:45-110) on the line read: the parts and the
        error flag are reset, the line is partitioned (an error ends the turn), converted,
        checked for a command, and interpreted. */
    method Line(line: string) returns (echoed: Option<nat>)
      requires Valid()
      modifies this`input, this`expr, this`isErr, this`lastErr, this`quitNext, db, db.slots
      ensures Valid() && input == line
      ensures var o := Processed(line, old(db.Entries()), pow);
        && db.Entries() == o.entries && echoed == o.echoed
        && isErr == o.fault.Some? && (isErr ==> lastErr == o.fault)
      ensures quitNext == (old(quitNext) || LineCommand(line) == Some(Quit))
    {
      expr := [];
      isErr := false;
      input := line;
      ghost var lx := Tokenize(line, 0);
      ghost var entries := db.Entries();
      Partition();
      if isErr {
        return None;
      }
      assert expr == lx.parts;
      TokenizeLaid(line, 0);
      LaidParts(line, expr, 0);
      Convert();
      assert expr == LineParts(line);
      var handled := CommandCheck();
      if handled {
        return None;
      }
      assert Processed(line, entries, pow) == Interpreted(expr, entries, pow);
      echoed := Interpret();
    }
  }
}
