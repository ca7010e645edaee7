/** The vocabulary of the calculator: the parts an input line is cut into (the `part` record,
    the `OP` and `PARTTYPE` enumerations of Calc.h:17-62), the error conditions the calculator
    reports, and the small classification helpers of Calc.cpp:893-1039. */
module CalcSyntax {
  import opened Numbers
  import opened Matrices

  /** Enumeration `OP`. */
  datatype Op = Assign | Plus | Minus | Times | Divide | Power | Modulo | Increment | Decrement
              | PlusAssign | MinusAssign | TimesAssign | DivideAssign | NoOp

  /** Enumeration `PARTTYPE`: DOUBLE, WORD, OPERATOR, MATRIX and BRACKET. */
  datatype Kind = Number | Word | Operator | Literal | Bracket

  /** The data union of a part; `Unset` until the converter fills it in. */
  datatype Payload = Unset | Num(n: real) | Name(w: string) | Code(op: Op) | Mat(m: Matrix) | Weight(b: int)

  /** A part: its kind, the half-open span [st, ed) of the input it was read from, its data
      and its operator level (0 when created). */
  datatype Part = Part(kind: Kind, st: nat, ed: nat, data: Payload, level: int)

  /** The errors the calculator reports, one per message of the source. */
  datatype Fault =
    | InvalidChar(c: char)
    | InvalidMatrixElement(at: nat)
    | NotAVariable
    | NoSuchVariable
    | OperatorFirst
    | OperatorLast
    | UnmatchedParens
    | UnknownName
    | AssignToNonVariable
    | TableFull
    | ExpectedOperator(at: nat)
    | ExpectedValue(at: nat)
    | AssignInExpression
    | UnknownQuantity(name: string)
    | UnexpectedElement(at: nat)
    | NullResult(at: nat)
    | DivideByZero
    | MatrixPower

  /** `OPLEVELRANGE`: how far one pair of parentheses raises operator levels. */
  const LevelRange: int := 3

  // ---------------------------------------------------------------- character classes

  /** `isChar`: a letter or an underscore. (`isDigit` is `Numbers.IsDigit`.) */
  predicate IsChar(c: char) {
    ('a' <= c <= 'z') || ('A' <= c <= 'Z') || c == '_'
  }

  /** `isOp`. */
  predicate IsOpChar(c: char) {
    c == '+' || c == '-' || c == '*' || c == '/' || c == '\\' || c == '^' || c == '%' || c == '='
  }

  /** `isParen`. */
  predicate IsParen(c: char) {
    c == '(' || c == ')'
  }

  /** The classes the partitioner tests one after the other never overlap, and a blank or a
      `[` belongs to none of them, so the order of its tests decides nothing. */
  lemma ClassesDisjoint(c: char)
    ensures (IsDigit(c) ==> !IsChar(c) && !IsOpChar(c) && !IsParen(c))
    ensures (IsChar(c) ==> !IsOpChar(c) && !IsParen(c))
    ensures (IsOpChar(c) ==> !IsParen(c))
    ensures (c == ' ' || c == '[') ==> !IsDigit(c) && !IsChar(c) && !IsOpChar(c) && !IsParen(c)
  {
  }

  // ---------------------------------------------------------------- operators

  /** `EncodeOP`: the operator whose text starts at s[i]; the character after it decides
      between `+`, `++` and `+=` and the like. */
  function EncodeOp(s: string, i: nat): (op: Op)
    requires i < |s|
    ensures op == NoOp <==> !IsOpChar(s[i])
    ensures (op == Increment || op == Decrement || IsCompound(op)) ==> i + 1 < |s|
  {
    var next := if i + 1 < |s| then s[i + 1] else '\0';
    match s[i]
    case '+' => if next == '+' then Increment else if next == '=' then PlusAssign else Plus
    case '-' => if next == '-' then Decrement else if next == '=' then MinusAssign else Minus
    case '*' => if next == '=' then TimesAssign else Times
    case '/' => if next == '=' then DivideAssign else Divide
    case '\\' => if next == '=' then DivideAssign else Divide
    case '^' => Power
    case '%' => Modulo
    case '=' => Assign
    case _ => NoOp
  }

  /** The text the user types for an operator. */
  function Spelling(op: Op): string {
    match op
    case Assign => "="
    case Plus => "+"
    case Minus => "-"
    case Times => "*"
    case Divide => "/"
    case Power => "^"
    case Modulo => "%"
    case Increment => "++"
    case Decrement => "--"
    case PlusAssign => "+="
    case MinusAssign => "-="
    case TimesAssign => "*="
    case DivideAssign => "/="
    case NoOp => ""
  }

  /** Encoding the spelling of an operator, followed by a blank, gives that operator back. */
  lemma EncodeSpelling(op: Op)
    requires op != NoOp
    ensures EncodeOp(Spelling(op) + " ", 0) == op
  {
  }

  /** The binary arithmetic operators `+ - * / ^ %`. */
  predicate IsArithOp(op: Op) {
    op == Plus || op == Minus || op == Times || op == Divide || op == Power || op == Modulo
  }

  /** The compound assignments `+= -= *= /=`. */
  predicate IsCompound(op: Op) {
    op == PlusAssign || op == MinusAssign || op == TimesAssign || op == DivideAssign
  }

  /** `isAssign` on an operator code: `=`, `+=`, `-=`, `*=` and `/=`. */
  predicate IsAssignOp(op: Op) {
    op == Assign || op == PlusAssign || op == MinusAssign || op == TimesAssign || op == DivideAssign
  }

  /** `AssignOpToOp`: the arithmetic a compound assignment performs; `Assign` for every
      other code. */
  function AssignOpToOp(op: Op): (r: Op)
    ensures r == Assign || r == Plus || r == Minus || r == Times || r == Divide
    ensures IsAssignOp(op) && op != Assign ==> r != Assign && Spelling(op) == Spelling(r) + "="
    ensures !(IsAssignOp(op) && op != Assign) ==> r == Assign
  {
    match op
    case PlusAssign => Plus
    case MinusAssign => Minus
    case TimesAssign => Times
    case DivideAssign => Divide
    case _ => Assign
  }

  /** `GetOpPrec`: 0 for `+ - =`, 1 for `* / %`, 2 for `^`, 0 otherwise. */
  function GetOpPrec(op: Op): (r: int)
    ensures 0 <= r < LevelRange
    ensures r == 2 <==> op == Power
    ensures r == 1 <==> op == Times || op == Divide || op == Modulo
  {
    match op
    case Plus => 0
    case Minus => 0
    case Times => 1
    case Divide => 1
    case Power => 2
    case Modulo => 1
    case Assign => 0
    case _ => 0
  }

  // ---------------------------------------------------------------- parts

  /** The operator code of a part (`odata`), `NoOp` when none was stored. */
  function OpOf(p: Part): Op {
    if p.data.Code? then p.data.op else NoOp
  }

  /** The number a part holds (`ndata`), 0 when none was stored. */
  function NumOf(p: Part): real {
    if p.data.Num? then p.data.n else 0.0
  }

  /** The name a part holds (`wdata`), empty when none was stored. */
  function NameOf(p: Part): string {
    if p.data.Name? then p.data.w else ""
  }

  /** The matrix a part holds (`mdata`), the null matrix when none was stored. */
  function MatOf(p: Part): Matrix {
    if p.data.Mat? then p.data.m else Null
  }

  /** The bracket weight of a part (`bdata`), 0 when none was stored. */
  function WeightOf(p: Part): int {
    if p.data.Weight? then p.data.b else 0
  }

  /** `isAssign`: an operator part holding an assignment code. */
  predicate IsAssign(p: Part) {
    p.kind == Operator && IsAssignOp(OpOf(p))
  }

  /** `FindNextOp` as a value: the index of the first operator part in [st, ed), or ed. */
  function NextOp(ps: seq<Part>, st: nat, ed: nat): (r: nat)
    requires ed <= |ps|
    ensures st >= ed ==> r == ed
    ensures st < ed ==> st <= r <= ed
    ensures r < ed ==> ps[r].kind == Operator
    ensures forall k :: st <= k < r ==> ps[k].kind != Operator
    decreases ed - st
  {
    if st >= ed then ed
    else if ps[st].kind == Operator then st
    else NextOp(ps, st + 1, ed)
  }
}
