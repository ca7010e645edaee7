/** The partitioner and the converter (Calc.cpp:187-438): an input line is cut into parts,
    left to right, and each part then gets the value its text stands for. `Tokenize` is the
    partitioner's result as a function of the line; `Converted` is what the converter stores
    in one part. The methods that compute them in place live in the `Calc` class. */
module Lexer {
  import opened Wrappers
  import opened Numbers
  import opened Matrices
  import MatrixLiteral
  import opened CalcSyntax

  // ---------------------------------------------------------------- runs

  /** A character that may continue a word: a letter, `_` or a digit, but not `.`. */
  predicate IsWordChar(c: char) {
    (IsChar(c) || IsDigit(c)) && c != '.'
  }

  /** The end of the run of word characters starting at i (Calc.cpp:227-233). */
  function WordEnd(s: string, i: nat): (j: nat)
    requires i <= |s|
    ensures i <= j <= |s|
    ensures forall k :: i <= k < j ==> IsWordChar(s[k])
    ensures j < |s| ==> !IsWordChar(s[j])
    decreases |s| - i
  {
    if i < |s| && IsWordChar(s[i]) then WordEnd(s, i + 1) else i
  }

  /** The first position at or after i that is not a blank or a tab (Calc.cpp:294-295, with
      the end of the line as a bound). */
  function SkipBlanks(s: string, i: nat): (j: nat)
    requires i <= |s|
    ensures i <= j <= |s|
    ensures j < |s| ==> s[j] != ' ' && s[j] != '\t'
    decreases |s| - i
  {
    if i < |s| && (s[i] == ' ' || s[i] == '\t') then SkipBlanks(s, i + 1) else i
  }

  /** How far the matrix loop of Calc.cpp:279-323 gets: to just past the closing `]` (or to
      the end of the line when there is none), or to the first character it refuses. */
  datatype Scan = Closed(e: nat) | Bad(at: nat)

  /** A character the matrix loop steps over. */
  predicate MatrixChar(c: char) {
    IsDigit(c) || c == ';' || c == ',' || c == ' ' || c == '\t'
  }

  function MatrixScan(s: string, j: nat): (r: Scan)
    requires j <= |s|
    ensures r.Closed? ==> j <= r.e <= |s| && (r.e == |s| || (j < r.e && s[r.e - 1] == ']'))
    ensures r.Bad? ==> j <= r.at < |s| && s[r.at] != ']' && !MatrixChar(s[r.at])
    decreases |s| - j
  {
    if j == |s| then Closed(|s|)
    else if s[j] == ']' then Closed(j + 1)
    else if s[j] == ' ' || s[j] == '\t' then MatrixScan(s, SkipBlanks(s, j + 1))
    else if IsDigit(s[j]) || s[j] == ';' || s[j] == ',' then MatrixScan(s, j + 1)
    else Bad(j)
  }

  /** The width of the operator starting at s[i] when it is not the last character
      (Calc.cpp:246-264): two for `++ += -- -= *= /=`, one otherwise. */
  function OpWidth(s: string, i: nat): (w: nat)
    requires i + 1 < |s|
    ensures w == 1 || w == 2
  {
    var c, n := s[i], s[i + 1];
    if (c == '+' && (n == '+' || n == '=')) || (c == '-' && (n == '-' || n == '='))
      || ((c == '*' || c == '/') && n == '=')
    then 2 else 1
  }

  // ---------------------------------------------------------------- the partitioner

  /** The parts pushed from position i on, and the error that stopped the partitioner, if any. */
  datatype Lexed = Lexed(parts: seq<Part>, err: Option<Fault>)

  /** A part as the partitioner creates it: no data yet, level 0. */
  function Token(k: Kind, st: nat, ed: nat): Part {
    Part(k, st, ed, Unset, 0)
  }

  function Cons(p: Part, rest: Lexed): Lexed {
    Lexed([p] + rest.parts, rest.err)
  }

  function Prefixed(pushed: seq<Part>, rest: Lexed): Lexed {
    Lexed(pushed + rest.parts, rest.err)
  }

  /** `Partition` from position i: blanks are skipped; a run of digits and dots is a number;
      a letter or `_` starts a word; an operator that is the last character of the line ends
      the partition without a part; parentheses are parts of one character; `[` starts a
      matrix literal that runs to its `]` or to the end of the line; anything else is an
      error, and so is a character the matrix loop refuses. */
  function Tokenize(s: string, i: nat): Lexed
    requires i <= |s|
    decreases |s| - i
  {
    if i == |s| then Lexed([], None)
    else
      var c := s[i];
      if c == ' ' then Tokenize(s, i + 1)
      else if IsDigit(c) then
        var e := MatrixLiteral.RunEnd(s, i + 1);
        Cons(Token(Number, i, e), Tokenize(s, e))
      else if IsChar(c) then
        var e := WordEnd(s, i + 1);
        Cons(Token(Word, i, e), Tokenize(s, e))
      else if IsOpChar(c) then
        if i + 1 == |s| then Lexed([], None)
        else
          var e := i + OpWidth(s, i);
          Cons(Token(Operator, i, e), Tokenize(s, e))
      else if IsParen(c) then Cons(Token(Bracket, i, i + 1), Tokenize(s, i + 1))
      else if c == '[' then
        match MatrixScan(s, i + 1)
        case Closed(e) => Cons(Token(Literal, i, e), Tokenize(s, e))
        case Bad(at) => Lexed([], Some(InvalidMatrixElement(at)))
      else Lexed([], Some(InvalidChar(c)))
  }

  /** What the text of one part looks like, by kind. */
  predicate Shaped(s: string, p: Part) {
    p.data == Unset && p.level == 0 && p.st < p.ed <= |s| &&
    match p.kind
    case Number =>
      AllDigits(s[p.st..p.ed]) && (p.ed == |s| || !IsDigit(s[p.ed]))
    case Word =>
      IsChar(s[p.st]) && (forall k :: p.st < k < p.ed ==> IsWordChar(s[k]))
      && (p.ed == |s| || !IsWordChar(s[p.ed]))
    case Operator =>
      p.st + 1 < |s| && IsOpChar(s[p.st]) && p.ed == p.st + OpWidth(s, p.st)
    case Bracket =>
      IsParen(s[p.st]) && p.ed == p.st + 1
    case Literal =>
      s[p.st] == '[' && MatrixScan(s, p.st + 1) == Closed(p.ed)
  }

  /** The parts lie left to right, none before position i, each shaped as its kind says. */
  predicate Laid(s: string, parts: seq<Part>, i: nat)
    decreases |parts|
  {
    parts == [] || (i <= parts[0].st && Shaped(s, parts[0]) && Laid(s, parts[1..], parts[0].ed))
  }

  lemma {:induction false} LaidFrom(s: string, parts: seq<Part>, i: nat, j: nat)
    requires j <= i && Laid(s, parts, i)
    ensures Laid(s, parts, j)
  {
  }

  /** Every part the partitioner produces is shaped as its kind says, and the parts do not
      overlap and come in the order of the line. */
  lemma {:induction false} TokenizeLaid(s: string, i: nat)
    requires i <= |s|
    ensures Laid(s, Tokenize(s, i).parts, i)
    decreases |s| - i
  {
    if i == |s| {
    } else {
      var c := s[i];
      if c == ' ' {
        TokenizeLaid(s, i + 1);
        LaidFrom(s, Tokenize(s, i + 1).parts, i + 1, i);
      } else if IsDigit(c) {
        var e := MatrixLiteral.RunEnd(s, i + 1);
        MatrixLiteral.RunEndDigits(s, i);
        TokenizeLaid(s, e);
        assert [Token(Number, i, e)] + Tokenize(s, e).parts == Tokenize(s, i).parts;
      } else if IsChar(c) {
        var e := WordEnd(s, i + 1);
        TokenizeLaid(s, e);
        assert [Token(Word, i, e)] + Tokenize(s, e).parts == Tokenize(s, i).parts;
      } else if IsOpChar(c) {
        if i + 1 < |s| {
          var e := i + OpWidth(s, i);
          TokenizeLaid(s, e);
          assert [Token(Operator, i, e)] + Tokenize(s, e).parts == Tokenize(s, i).parts;
        }
      } else if IsParen(c) {
        TokenizeLaid(s, i + 1);
        assert [Token(Bracket, i, i + 1)] + Tokenize(s, i + 1).parts == Tokenize(s, i).parts;
      } else if c == '[' {
        match MatrixScan(s, i + 1)
        case Closed(e) =>
          TokenizeLaid(s, e);
          assert [Token(Literal, i, e)] + Tokenize(s, e).parts == Tokenize(s, i).parts;
        case Bad(_) =>
      }
    }
  }

  /** The same facts, one part at a time. */
  lemma {:induction false} LaidParts(s: string, parts: seq<Part>, i: nat)
    requires Laid(s, parts, i)
    ensures forall k :: 0 <= k < |parts| ==> Shaped(s, parts[k]) && i <= parts[k].st
    ensures forall k :: 0 <= k < |parts| - 1 ==> parts[k].ed <= parts[k + 1].st
    decreases |parts|
  {
    if parts != [] {
      LaidParts(s, parts[1..], parts[0].ed);
      assert forall k :: 1 <= k < |parts| ==> parts[k] == parts[1..][k - 1];
    }
  }

  /** Position j lies inside the span of one of the parts. */
  predicate InSpans(parts: seq<Part>, j: nat)
    decreases |parts|
  {
    parts != [] && ((parts[0].st <= j < parts[0].ed) || InSpans(parts[1..], j))
  }

  /** Nothing is lost when the partitioner succeeds: every character of the line from i on
      that is not a blank lies inside some part, except an operator that ends the line. */
  lemma {:induction false} TokenizeCovers(s: string, i: nat, j: nat)
    requires i <= j < |s| && Tokenize(s, i).err.None? && s[j] != ' '
    ensures InSpans(Tokenize(s, i).parts, j) || (j == |s| - 1 && IsOpChar(s[j]))
    decreases |s| - i
  {
    var c := s[i];
    var parts := Tokenize(s, i).parts;
    if c == ' ' {
      TokenizeCovers(s, i + 1, j);
    } else if IsDigit(c) || IsChar(c) || (IsOpChar(c) && i + 1 < |s|) || IsParen(c)
      || (c == '[' && MatrixScan(s, i + 1).Closed?)
    {
      var e := parts[0].ed;
      assert parts[1..] == Tokenize(s, e).parts;
      if e <= j {
        TokenizeCovers(s, e, j);
      }
    }
  }

  /** An error names what stopped the partitioner: a character no part can start with, or a
      character inside a matrix literal that the matrix loop does not accept. */
  lemma {:induction false} TokenizeErrors(s: string, i: nat)
    requires i <= |s| && Tokenize(s, i).err.Some?
    ensures match Tokenize(s, i).err.value
      case InvalidChar(c) =>
        c != ' ' && c != '[' && !IsDigit(c) && !IsChar(c) && !IsOpChar(c) && !IsParen(c)
      case InvalidMatrixElement(at) =>
        i < at < |s| && s[at] != ']' && !MatrixChar(s[at])
      case _ => false
    decreases |s| - i
  {
    var c := s[i];
    if c == ' ' {
      TokenizeErrors(s, i + 1);
    } else if IsDigit(c) {
      TokenizeErrors(s, MatrixLiteral.RunEnd(s, i + 1));
    } else if IsChar(c) {
      TokenizeErrors(s, WordEnd(s, i + 1));
    } else if IsOpChar(c) {
      TokenizeErrors(s, i + OpWidth(s, i));
    } else if IsParen(c) {
      TokenizeErrors(s, i + 1);
    } else if c == '[' {
      match MatrixScan(s, i + 1)
      case Closed(e) => TokenizeErrors(s, e);
      case Bad(_) =>
    }
  }

  /** An operator that ends the line is dropped: "x+" is the single word x. */
  lemma TrailingOperatorDropped()
    ensures Tokenize("x+", 0) == Lexed([Token(Word, 0, 1)], None)
  {
    assert WordEnd("x+", 1) == 1;
  }

  /** A compound assignment is one part of width two, between the word and the number. */
  lemma CompoundAssignmentParts()
    ensures Tokenize("a += 12", 0).parts
         == [Token(Word, 0, 1), Token(Operator, 2, 4), Token(Number, 5, 7)]
  {
    var s := "a += 12";
    assert WordEnd(s, 1) == 1;
    assert OpWidth(s, 2) == 2;
    assert MatrixLiteral.RunEnd(s, 6) == 7;
    assert Tokenize(s, 7) == Lexed([], None);
  }

  // ---------------------------------------------------------------- the converter

  /** The width of an operator part and its code agree: its text is the spelling of its
      code, except that `\` always stands alone while `\=` still encodes as `/=`. */
  lemma OperatorText(s: string, i: nat)
    requires i + 1 < |s| && IsOpChar(s[i])
    ensures s[i] != '\\' ==> s[i..i + OpWidth(s, i)] == Spelling(EncodeOp(s, i))
    ensures s[i] == '\\' ==>
      OpWidth(s, i) == 1 && EncodeOp(s, i) == (if s[i + 1] == '=' then DivideAssign else Divide)
  {
    if OpWidth(s, i) == 2 {
      assert s[i..i + 2] == [s[i], s[i + 1]];
    } else {
      assert s[i..i + 1] == [s[i]];
    }
  }

  /** The data `Convert` stores in a part (Calc.cpp:372-434): a number's decimal value, a
      word's text, an operator's code, the matrix the string constructor builds from the
      literal's text, and +3 for `(` or -3 for `)`. */
  function Converted(s: string, p: Part): (q: Part)
    requires p.st < p.ed <= |s|
    requires p.kind == Number ==> AllDigits(s[p.st..p.ed])
    ensures q.kind == p.kind && q.st == p.st && q.ed == p.ed && q.level == p.level
  {
    match p.kind
    case Number => p.(data := Num(DecimalValue(s[p.st..p.ed])))
    case Word => p.(data := Name(s[p.st..p.ed]))
    case Operator => p.(data := Code(EncodeOp(s, p.st)))
    case Literal => p.(data := Mat(MatrixLiteral.LiteralMatrix(s[p.st..p.ed])))
    case Bracket => p.(data := Weight(if s[p.st] == ')' then -LevelRange else LevelRange))
  }

  /** The parts of a line after conversion. */
  function ConvertAll(s: string, ps: seq<Part>): (qs: seq<Part>)
    requires forall k :: 0 <= k < |ps| ==> Shaped(s, ps[k])
    ensures |qs| == |ps|
  {
    seq(|ps|, k requires 0 <= k < |ps| && Shaped(s, ps[k]) => Converted(s, ps[k]))
  }

  /** After conversion every operator part holds a real operator code, every word part a
      non-empty name, and every bracket part a weight of plus or minus `OPLEVELRANGE`, with
      the sign telling an opening from a closing parenthesis. */
  lemma ConvertedParts(s: string, ps: seq<Part>, k: nat)
    requires forall k :: 0 <= k < |ps| ==> Shaped(s, ps[k])
    requires k < |ps|
    ensures var q := ConvertAll(s, ps)[k];
      q.kind == ps[k].kind && q.st == ps[k].st && q.ed == ps[k].ed && q.level == 0
      && (q.kind == Operator ==> q.data.Code? && q.data.op != NoOp)
      && (q.kind == Word ==> q.data.Name? && |q.data.w| > 0 && IsChar(q.data.w[0]))
      && (q.kind == Bracket ==> q.data == Weight(if s[q.st] == '(' then LevelRange else -LevelRange))
      && (q.kind == Number ==> q.data.Num? && q.data.n >= 0.0)
  {
  }
}
