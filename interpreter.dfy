/** The interpreter (Calc.cpp:462-656) and the command check (Calc.cpp:137-172) as functions
    of the converted parts and the variable table's entries. A line is an increment or a
    decrement of a variable, the name of a variable to show, an assignment (plain or
    compound) to a variable, or an expression whose value goes to `ans`. The `Calc` class
    computes the same thing in place; the lemmas here say what a line can do to the table. */
module Interpreter {
  import opened Wrappers
  import opened Matrices
  import opened CalcSyntax
  import opened VarTables
  import opened Levels
  import opened Evaluator
  import opened Precedence
  import opened Lexer

  /** What one call of `Interpret` leaves behind: the table's entries, the error it reports
      (`isErr` and `lastErr`), and the entry it echoes when it gets that far, which is
      exactly when it returns SUCCESS. */
  datatype Outcome = Outcome(entries: seq<Slot>, fault: Option<Fault>, echoed: Option<nat>)

  function Failed(entries: seq<Slot>, f: Fault): Outcome {
    Outcome(entries, Some(f), None)
  }

  /** The code of the first operator part, `NoOp` when there is none. */
  function FirstOp(ps: seq<Part>): Op {
    var nx := NextOp(ps, 0, |ps|);
    if nx < |ps| then OpOf(ps[nx]) else NoOp
  }

  /** `Interpret` on the parts ps. */
  function Interpreted(ps: seq<Part>, entries: seq<Slot>, pow: (real, real) -> real): (r: Outcome)
    requires 1 <= |entries| <= SizeDB
    ensures 1 <= |r.entries| <= SizeDB
    ensures r.echoed.Some? ==> r.echoed.value < |r.entries|
  {
    if ps == [] then Outcome(entries, None, None)
    else
      var op := FirstOp(ps);
      if (op == Increment || op == Decrement) && |ps| == 2 then Stepped(ps, entries, op)
      else if ps[0].kind == Operator then Failed(entries, OperatorFirst)
      else if ps[|ps| - 1].kind == Operator then Failed(entries, OperatorLast)
      else Dispatched(ps, entries, pow)
  }

  /** The rest of `Interpret` once the syntax checks have passed (Calc.cpp:521-650): the
      level pass, then a lone word, an assignment or an expression for `ans`. */
  function Dispatched(ps: seq<Part>, entries: seq<Slot>, pow: (real, real) -> real): (r: Outcome)
    requires 1 <= |entries| <= SizeDB
    ensures 1 <= |r.entries| <= SizeDB
    ensures r.echoed.Some? ==> r.echoed.value < |r.entries|
  {
    match Leveled(ps)
    case Err(e) => Failed(entries, e)
    case Ok(lv) =>
      if |lv| == 1 && lv[0].kind == Word then Shown(entries, NameOf(lv[0]))
      else if |lv| > 2 && IsAssign(lv[1]) then Assignment(lv, entries, pow)
      else Answer(lv, entries, pow)
  }

  /** `x++`, `++x`, `x--` or `--x` (Calc.cpp:474-502): the word at position 0, else at
      position 1, names the variable; its value goes through the unary operator, with no
      check of the result. */
  function Stepped(ps: seq<Part>, entries: seq<Slot>, op: Op): (r: Outcome)
    requires |ps| == 2
    ensures |r.entries| == |entries|
    ensures r.echoed.Some? ==> r.echoed.value < |entries|
  {
    var target := if ps[0].kind == Word then Some(NameOf(ps[0]))
                  else if ps[1].kind == Word then Some(NameOf(ps[1])) else None;
    match target
    case None => Failed(entries, NotAVariable)
    case Some(name) =>
      match Find(entries, name)
      case None => Failed(entries, NoSuchVariable)
      case Some(i) => Outcome(Assigned(entries, i, CalcUnary(entries[i].value, op)), None, Some(i))
  }

  /** A lone word (Calc.cpp:576-590): the variable of that name is echoed. */
  function Shown(entries: seq<Slot>, name: string): (r: Outcome)
    ensures r.entries == entries
    ensures r.echoed.Some? ==> r.echoed.value < |entries|
  {
    match Find(entries, name)
    case None => Failed(entries, UnknownName)
    case Some(i) => Outcome(entries, None, Some(i))
  }

  /** `name op= expression` (Calc.cpp:593-635): the target is looked up, and created with
      the value 0 before the right-hand side is evaluated when it is missing. */
  function Assignment(lv: seq<Part>, entries: seq<Slot>, pow: (real, real) -> real): (r: Outcome)
    requires |lv| > 2 && IsAssign(lv[1]) && 1 <= |entries| <= SizeDB
    ensures |entries| <= |r.entries| <= SizeDB
    ensures r.echoed.Some? ==> r.echoed.value < |r.entries|
  {
    if lv[0].kind != Word then Failed(entries, AssignToNonVariable)
    else
      var name := NameOf(lv[0]);
      var kind := AssignOpToOp(OpOf(lv[1]));
      match Find(entries, name)
      case Some(i) => Stored(lv, entries, i, kind, pow)
      case None =>
        if |entries| == SizeDB then Failed(entries, TableFull)
        else Stored(lv, Created(entries, name, Scalar(0.0)), |entries|, kind, pow)
  }

  /** The right-hand side from position 2 is evaluated at level 0; on success a plain
      assignment stores its value, a compound one the binary operator applied to the old
      value and it, with the operator's own error (but not a null result) reported after
      the store. */
  function Stored(lv: seq<Part>, entries: seq<Slot>, i: nat, kind: Op, pow: (real, real) -> real): (r: Outcome)
    requires |lv| > 2 && i < |entries|
    ensures |r.entries| == |entries|
    ensures r.echoed.Some? ==> r.echoed == Some(i)
  {
    var e := Eval(lv, 2, 0, entries, pow);
    match e.value
    case Err(f) => Failed(entries, f)
    case Ok(v) =>
      if kind == Assign then Outcome(Assigned(entries, i, v), None, Some(i))
      else
        var was := entries[i].value;
        Outcome(Assigned(entries, i, CalcOp(was, kind, v, pow)), OpFault(was, kind, v), Some(i))
  }

  /** Any other expression (Calc.cpp:637-649): its value goes to `ans`, slot 0. */
  function Answer(lv: seq<Part>, entries: seq<Slot>, pow: (real, real) -> real): (r: Outcome)
    requires 1 <= |entries|
    ensures |r.entries| == |entries|
    ensures r.echoed.Some? ==> r.echoed == Some(0)
  {
    var e := Eval(lv, 0, 0, entries, pow);
    match e.value
    case Err(f) => Failed(entries, f)
    case Ok(v) => Outcome(Assigned(entries, 0, v), None, Some(0))
  }

  // ---------------------------------------------------------------- the command check

  /** The commands `CommandCheck` recognises. */
  datatype Command = Who | Quit | Open

  /** A line of at most two parts whose first part is the word `who` or `quit`, or the word
      `open` followed by a second word, is a command and is not interpreted. */
  function CommandOf(ps: seq<Part>): (r: Option<Command>)
    ensures r.Some? ==> 1 <= |ps| <= 2 && ps[0].kind == Word
    ensures r == Some(Open) ==> |ps| == 2 && ps[1].kind == Word
  {
    if 1 <= |ps| <= 2 && ps[0].kind == Word then
      var w := NameOf(ps[0]);
      if w == "who" then Some(Who)
      else if w == "quit" then Some(Quit)
      else if |ps| == 2 && ps[1].kind == Word && w == "open" then Some(Open)
      else None
    else None
  }

  /** The parts of a line that partitions without error, once converted. */
  function LineParts(s: string): seq<Part>
    requires Tokenize(s, 0).err.None?
  {
    var lx := Tokenize(s, 0);
    TokenizeLaid(s, 0);
    LaidParts(s, lx.parts, 0);
    ConvertAll(s, lx.parts)
  }

  /** The command a line is, if it partitions without error and is one. */
  function LineCommand(s: string): Option<Command> {
    if Tokenize(s, 0).err.Some? then None else CommandOf(LineParts(s))
  }

  /** One turn of the loop of `run` (Calc.cpp:45-110) on the line s, after the prompt: the
      line is partitioned (a partition error ends the turn), converted, checked for a
      command (which is not interpreted), and interpreted. */
  function Processed(s: string, entries: seq<Slot>, pow: (real, real) -> real): (r: Outcome)
    requires 1 <= |entries| <= SizeDB
    ensures 1 <= |r.entries| <= SizeDB
  {
    var lx := Tokenize(s, 0);
    if lx.err.Some? then Failed(entries, lx.err.value)
    else if LineCommand(s).Some? then Outcome(entries, None, None)
    else Interpreted(LineParts(s), entries, pow)
  }

  // ---------------------------------------------------------------- what a line does to the table

  /** Every entry keeps its name, and every entry other than the echoed one its value. */
  predicate OnlyEchoed(entries: seq<Slot>, r: Outcome)
    requires |entries| <= |r.entries|
  {
    && (forall k :: 0 <= k < |entries| ==> r.entries[k].name == entries[k].name)
    && (forall k :: 0 <= k < |entries| && r.echoed != Some(k) ==> r.entries[k] == entries[k])
  }

  lemma StoredOnlyTarget(lv: seq<Part>, entries: seq<Slot>, i: nat, kind: Op, pow: (real, real) -> real)
    requires |lv| > 2 && i < |entries|
    ensures OnlyEchoed(entries, Stored(lv, entries, i, kind, pow))
  {
  }

  /** An assignment changes at most its target; a target it had to create is the one entry
      it adds, named by the word before the operator, and it is kept, with the value 0,
      even when the right-hand side then fails. */
  lemma AssignmentOnlyTarget(lv: seq<Part>, entries: seq<Slot>, pow: (real, real) -> real)
    requires |lv| > 2 && IsAssign(lv[1]) && 1 <= |entries| <= SizeDB
    ensures var r := Assignment(lv, entries, pow);
      && |r.entries| <= |entries| + 1
      && OnlyEchoed(entries, r)
      && (|r.entries| > |entries| ==>
            && lv[0].kind == Word && Find(entries, NameOf(lv[0])).None?
            && r.entries[|entries|].name == Some(NameOf(lv[0]))
            && (r.echoed == Some(|entries|) || r.entries[|entries|].value == Scalar(0.0)))
  {
    if lv[0].kind == Word {
      var name := NameOf(lv[0]);
      var kind := AssignOpToOp(OpOf(lv[1]));
      match Find(entries, name)
      case Some(i) =>
        StoredOnlyTarget(lv, entries, i, kind, pow);
      case None =>
        if |entries| < SizeDB {
          var grown := Created(entries, name, Scalar(0.0));
          StoredOnlyTarget(lv, grown, |entries|, kind, pow);
          assert grown[..|entries|] == entries;
          assert grown[|entries|] == Slot(Some(name), Scalar(0.0));
        }
    }
  }

  /** A line changes at most the entry it echoes: every other entry keeps its name and its
      value, and the only entry that can be added is the target of an assignment, created
      with the value 0 and kept even when the right-hand side then fails. A line that
      fails (echoes nothing) changes no value at all. */
  lemma OnlyEchoedChanges(ps: seq<Part>, entries: seq<Slot>, pow: (real, real) -> real)
    requires 1 <= |entries| <= SizeDB
    ensures var r := Interpreted(ps, entries, pow);
      && |entries| <= |r.entries| <= |entries| + 1
      && OnlyEchoed(entries, r)
      && (|r.entries| > |entries| ==>
            && |ps| > 2 && ps[0].kind == Word && IsAssign(ps[1])
            && Find(entries, NameOf(ps[0])).None?
            && r.entries[|entries|].name == Some(NameOf(ps[0]))
            && (r.echoed == Some(|entries|) || r.entries[|entries|].value == Scalar(0.0)))
  {
    var r := Interpreted(ps, entries, pow);
    if ps != [] {
      var op := FirstOp(ps);
      if (op == Increment || op == Decrement) && |ps| == 2 {
        assert r == Stepped(ps, entries, op);
      } else if ps[0].kind != Operator && ps[|ps| - 1].kind != Operator && Leveled(ps).Ok? {
        var lv := Leveled(ps).value;
        assert Unleveled(lv[0]) == Unleveled(ps[0]);
        if |lv| == 1 && lv[0].kind == Word {
          assert r == Shown(entries, NameOf(lv[0]));
        } else if |lv| > 2 && IsAssign(lv[1]) {
          assert Unleveled(lv[1]) == Unleveled(ps[1]);
          assert r == Assignment(lv, entries, pow);
          AssignmentOnlyTarget(lv, entries, pow);
        } else {
          assert r == Answer(lv, entries, pow);
        }
      }
    }
  }

  /** A line that reports an error and still echoes a variable is a compound assignment
      whose operator raised the error itself (division by a 1 x 1 zero, or `^` on a matrix):
      the null result was stored in the variable before the error was reported. Every other
      non-empty line either succeeds without error or fails and echoes nothing. */
  lemma ReportedAfterStore(ps: seq<Part>, entries: seq<Slot>, pow: (real, real) -> real)
    requires 1 <= |entries| <= SizeDB
    ensures var r := Interpreted(ps, entries, pow);
      && (ps != [] ==> r.fault.Some? || r.echoed.Some?)
      && (r.fault.Some? && r.echoed.Some? ==>
            && (r.fault.value == DivideByZero || r.fault.value == MatrixPower)
            && r.entries[r.echoed.value].value == Null
            && |ps| > 2 && IsAssign(ps[1]) && OpOf(ps[1]) != Assign)
  {
    var r := Interpreted(ps, entries, pow);
    if r.fault.Some? && r.echoed.Some? && ps != [] {
      var op := FirstOp(ps);
      assert !((op == Increment || op == Decrement) && |ps| == 2);
      var lv := Leveled(ps).value;
      assert Unleveled(lv[1]) == Unleveled(ps[1]);
      assert |lv| > 2 && IsAssign(lv[1]) && lv[0].kind == Word;
      var name := NameOf(lv[0]);
      var kind := AssignOpToOp(OpOf(lv[1]));
      var target := match Find(entries, name) case Some(i) => entries case None => Created(entries, name, Scalar(0.0));
      var i := match Find(entries, name) case Some(i) => i case None => |entries|;
      assert r == Stored(lv, target, i, kind, pow);
      var v := Eval(lv, 2, 0, target, pow).value.value;
      FaultMeansNull(target[i].value, kind, v, pow);
    }
  }

  // ---------------------------------------------------------------- lines without parentheses

  /** An expression without parentheses that alternates operands and arithmetic operators
      stores in `ans` the value the usual precedence grammar gives it (operators of one
      tier left to right, `^` before `* / %` before `+ -`), or reports that grammar's first
      error and changes nothing. */
  lemma ParenFreeAnswer(ps: seq<Part>, entries: seq<Slot>, pow: (real, real) -> real)
    requires 1 <= |entries| <= SizeDB
    requires Alternating(ps) && (|ps| > 1 || ps[0].kind != Word)
    ensures Leveled(ps).Ok? && Alternating(Leveled(ps).value) && AtLeast(Leveled(ps).value, 0, |ps|, 0)
    ensures var value := Seg(Leveled(ps).value, 0, |ps|, 0, entries, pow);
      Interpreted(ps, entries, pow)
      == if value.Ok? then Outcome(Assigned(entries, 0, value.value), None, Some(0)) else Failed(entries, value.error)
  {
    ParenFreeEval(ps, entries, pow);
    var lv := Leveled(ps).value;
    assert AtLeast(lv, 0, |ps|, 0) by {
      forall k | 0 <= k < |lv| && lv[k].kind == Operator
        ensures lv[k].level >= 0
      {
        assert k % 2 == 0 ==> IsOperand(lv[k]);
      }
    }
    AlternatingIsAnswer(ps, entries, pow);
  }

  /** Such a line is no increment, no lone word and no assignment. */
  lemma AlternatingIsAnswer(ps: seq<Part>, entries: seq<Slot>, pow: (real, real) -> real)
    requires 1 <= |entries| <= SizeDB
    requires Alternating(ps) && (|ps| > 1 || ps[0].kind != Word)
    ensures Leveled(ps).Ok? && Interpreted(ps, entries, pow) == Answer(Leveled(ps).value, entries, pow)
  {
    forall j | 0 <= j < |ps|
      ensures ps[j].kind != Bracket
    {
      assert IsOperand(ps[j]) || IsArith(ps[j]);
    }
    ParenFreeLevels(ps);
    assert ps[0].kind != Operator by {
      assert IsOperand(ps[0]);
    }
    assert ps[|ps| - 1].kind != Operator by {
      assert (|ps| - 1) % 2 == 0;
      assert IsOperand(ps[|ps| - 1]);
    }
    if |ps| > 1 {
      assert NextOp(ps, 0, |ps|) == 1 by {
        assert IsArith(ps[1]);
        assert NextOp(ps, 1, |ps|) == 1;
      }
    }
    AnswerLine(ps, entries, pow);
  }

  /** A non-empty line that is no increment or decrement, has operands at both ends and
      balanced parentheses, and is neither a lone word nor an assignment sends its value
      to `ans`. */
  lemma AnswerLine(ps: seq<Part>, entries: seq<Slot>, pow: (real, real) -> real)
    requires 1 <= |entries| <= SizeDB && |ps| > 0
    requires !((FirstOp(ps) == Increment || FirstOp(ps) == Decrement) && |ps| == 2)
    requires ps[0].kind != Operator && ps[|ps| - 1].kind != Operator && Leveled(ps).Ok?
    requires !(|ps| == 1 && ps[0].kind == Word) && !(|ps| > 2 && IsAssign(ps[1]))
    ensures Interpreted(ps, entries, pow) == Answer(Leveled(ps).value, entries, pow)
  {
    var lv := Leveled(ps).value;
    assert Unleveled(lv[0]) == Unleveled(ps[0]);
    if |ps| > 2 {
      assert Unleveled(lv[1]) == Unleveled(ps[1]);
    }
  }

  // ---------------------------------------------------------------- examples

  function WordPart(name: string): Part {
    Part(Word, 0, 0, Name(name), 0)
  }

  function IncrementOf(name: string): seq<Part> {
    [WordPart(name), OperatorPart(Increment, 0)]
  }

  function DecrementOf(name: string): seq<Part> {
    [WordPart(name), OperatorPart(Decrement, 0)]
  }

  /** `x--` undoes `x++` on a variable holding a 1 x 1 matrix, and `++x` does what `x++`
      does. */
  lemma IncrementThenDecrement(name: string, entries: seq<Slot>, pow: (real, real) -> real)
    requires 1 <= |entries| <= SizeDB && Find(entries, name).Some?
    requires IsSingle(entries[Find(entries, name).value].value)
    ensures Interpreted(DecrementOf(name), Interpreted(IncrementOf(name), entries, pow).entries, pow).entries
         == entries
    ensures Interpreted([OperatorPart(Increment, 0), WordPart(name)], entries, pow)
         == Interpreted(IncrementOf(name), entries, pow)
  {
    var i := Find(entries, name).value;
    var m := entries[i].value;
    assert NextOp(IncrementOf(name), 0, 2) == 1;
    assert NextOp(DecrementOf(name), 0, 2) == 1;
    var up := Interpreted(IncrementOf(name), entries, pow);
    assert up.entries == Assigned(entries, i, CalcUnary(m, Increment));
    AssignKeepsFind(entries, i, CalcUnary(m, Increment), name);
    assert m == Scalar(m.data[0]);
    UnaryInverse(m.data[0]);
    assert Assigned(up.entries, i, m) == entries;
  }

  /** `x = x + y` with no variable x yet: x is created with the value 0 before the right-hand
      side is evaluated, so it ends up holding y. */
  lemma NewTargetStartsAtZero(name: string, entries: seq<Slot>, y: real, pow: (real, real) -> real)
    requires 1 <= |entries| < SizeDB && Find(entries, name).None?
    ensures Interpreted([WordPart(name), OperatorPart(Assign, 0), WordPart(name), OperatorPart(Plus, 0), NumberPart(y)],
                        entries, pow)
         == Outcome(entries + [Slot(Some(name), Scalar(y))], None, Some(|entries|))
  {
    var ps := [WordPart(name), OperatorPart(Assign, 0), WordPart(name), OperatorPart(Plus, 0), NumberPart(y)];
    var grown := Created(entries, name, Scalar(0.0));
    CreateThenFind(entries, name, Scalar(0.0));
    assert NextOp(ps, 0, 5) == 1;
    ParenFreeLevels(ps);
    var lv := Leveled(ps).value;
    assert forall k :: 0 <= k < 5 ==> Unleveled(lv[k]) == Unleveled(ps[k]);
    assert lv[3].level == 0;
    SumFirstTurn(lv, grown, |entries|, pow);
    SumSecondTurn(lv, grown, Scalar(0.0), y, pow);
    ScalarOps(0.0, y, pow);
    assert Eval(lv, 2, 0, grown, pow).value == Ok(Scalar(y));
  }

  /** The first turn of `x + ...` from position 2 reads the value of x. */
  lemma SumFirstTurn(ps: seq<Part>, env: seq<Slot>, i: nat, pow: (real, real) -> real)
    requires |ps| == 5 && ps[2].kind == Word && IsArith(ps[3]) && ps[3].level == 0 && IsOperand(ps[4])
    requires Find(env, NameOf(ps[2])) == Some(i)
    ensures Eval(ps, 2, 0, env, pow) == Run(ps, 3, 0, env[i].value, false, env, pow)
  {
    NoAssignAhead(ps, 2);
    RunTurn(ps, 2, 2, 0, Scalar(0.0), true, env, pow);
    assert NextOp(ps, 2, 5) == 3;
    var got := Chunk(ps, 2, 0, env, pow);
    assert got == Reached(Ok(env[i].value), 3);
    AfterTurn(ps, 2, 2, 0, Scalar(0.0), true, got, env, pow);
  }

  /** The second turn of `... + y` at positions 3 and 4 adds y and ends the expression. */
  lemma SumSecondTurn(ps: seq<Part>, env: seq<Slot>, cum: Matrix, y: real, pow: (real, real) -> real)
    requires |ps| == 5 && IsArith(ps[3]) && OpOf(ps[3]) == Plus && ps[4].kind == Number && NumOf(ps[4]) == y
    ensures var sum := CalcOp(cum, Plus, Scalar(y), pow);
      Run(ps, 3, 0, cum, false, env, pow).value == if sum.Null? then Err(NullResult(3)) else Ok(sum)
  {
    NoAssignAhead(ps, 4);
    RunTurn(ps, 3, 4, 0, cum, false, env, pow);
    assert NextOp(ps, 4, 5) == 5;
    var got := Chunk(ps, 4, 0, env, pow);
    assert got == Reached(Ok(Scalar(y)), 5);
    AfterTurn(ps, 3, 3, 0, cum, false, got, env, pow);
  }
}
