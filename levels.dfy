/** The level pass of the interpreter (Calc.cpp:521-568). Walking the converted parts left
    to right with a running base that every `(` raises and every `)` lowers by
    `OPLEVELRANGE`, it gives each operator the base plus its precedence tier, raises the
    operand before an operator to at least that level, gives each bracket the base it
    leaves, and lets every other part copy the level of the part before it. A base that
    goes negative, or does not come back to zero, is an unmatched parenthesis. */
module Levels {
  import opened Wrappers
  import opened CalcSyntax

  /** A part with its level forgotten. */
  function Unleveled(p: Part): Part {
    p.(level := 0)
  }

  /** Two part sequences that differ at most in their levels. */
  predicate Same(a: seq<Part>, b: seq<Part>) {
    |a| == |b| && forall k :: 0 <= k < |a| ==> Unleveled(a[k]) == Unleveled(b[k])
  }

  /** The state of the level pass after one part: the parts and the running base. */
  datatype Pass = Pass(parts: seq<Part>, base: int)

  /** What the level pass does at part i (one turn of the loop of Calc.cpp:526-559). */
  function LevelStep(ps: seq<Part>, i: nat, base: int): (r: Result<Pass, Fault>)
    requires i < |ps|
    ensures r.Err? <==> ps[i].kind == Bracket && base + WeightOf(ps[i]) < 0
    ensures r.Err? ==> r.error == UnmatchedParens
    ensures r.Ok? ==> Same(r.value.parts, ps)
    ensures r.Ok? ==> r.value.base == base + BracketWeight(ps[i])
    ensures r.Ok? ==> forall k :: 0 <= k < |ps| && k != i && ps[k].kind == Operator ==>
      r.value.parts[k].level == ps[k].level
    ensures r.Ok? && ps[i].kind == Operator ==> r.value.parts[i].level == base + GetOpPrec(OpOf(ps[i]))
  {
    var p := ps[i];
    if p.kind == Operator then
      var lvl := base + GetOpPrec(OpOf(p));
      var raised := ps[i := p.(level := lvl)];
      Ok(Pass(if 0 < i && ps[i - 1].kind != Operator && ps[i - 1].level < lvl
              then raised[i - 1 := ps[i - 1].(level := lvl)] else raised, base))
    else if p.kind == Bracket then
      var b := base + WeightOf(p);
      if b < 0 then Err(UnmatchedParens) else Ok(Pass(ps[i := p.(level := b)], b))
    else if 0 < i then Ok(Pass(ps[i := p.(level := ps[i - 1].level)], base))
    else Ok(Pass(ps, base))
  }

  /** The level pass from part i on, with running base `base`; at the end the base must be
      back at zero. */
  function Annotate(ps: seq<Part>, i: nat, base: int): (r: Result<seq<Part>, Fault>)
    requires i <= |ps|
    ensures r.Ok? ==> Same(r.value, ps)
    ensures r.Err? ==> r.error == UnmatchedParens
    decreases |ps| - i
  {
    if i == |ps| then
      if base != 0 then Err(UnmatchedParens) else Ok(ps)
    else
      match LevelStep(ps, i, base)
      case Err(e) => Err(e)
      case Ok(next) => Annotate(next.parts, i + 1, next.base)
  }

  /** The level pass over a whole expression. */
  function Leveled(ps: seq<Part>): Result<seq<Part>, Fault> {
    Annotate(ps, 0, 0)
  }

  // ---------------------------------------------------------------- a reference for the base

  /** What a part contributes to the nesting: its weight if it is a bracket. */
  function BracketWeight(p: Part): int {
    if p.kind == Bracket then WeightOf(p) else 0
  }

  /** The running base before part k: the sum of the weights of the brackets before it. */
  function Depth(ps: seq<Part>, k: nat): int
    requires k <= |ps|
  {
    if k == 0 then 0 else Depth(ps, k - 1) + BracketWeight(ps[k - 1])
  }

  /** Parentheses are balanced: the running base never goes negative and ends at zero. */
  predicate Balanced(ps: seq<Part>) {
    BalancedAfter(ps, 0)
  }

  /** The running base stays non-negative after part i and ends at zero. */
  predicate BalancedAfter(ps: seq<Part>, i: nat) {
    (forall k :: i < k <= |ps| ==> Depth(ps, k) >= 0) && Depth(ps, |ps|) == 0
  }

  lemma {:induction false} DepthSame(a: seq<Part>, b: seq<Part>, k: nat)
    requires Same(a, b) && k <= |a|
    ensures Depth(a, k) == Depth(b, k)
  {
    if k > 0 {
      DepthSame(a, b, k - 1);
      assert Unleveled(a[k - 1]) == Unleveled(b[k - 1]);
    }
  }

  lemma {:induction false} AnnotateBalancedFrom(ps0: seq<Part>, ps: seq<Part>, i: nat, base: int)
    requires Same(ps, ps0) && i <= |ps| && base == Depth(ps0, i) && base >= 0
    ensures Annotate(ps, i, base).Ok? <==> BalancedAfter(ps0, i)
    decreases |ps| - i
  {
    if i < |ps| {
      assert Unleveled(ps[i]) == Unleveled(ps0[i]);
      assert Depth(ps0, i + 1) == base + BracketWeight(ps[i]);
      match LevelStep(ps, i, base)
      case Err(_) =>
      case Ok(next) => AnnotateBalancedFrom(ps0, next.parts, i + 1, next.base);
    }
  }

  /** The level pass succeeds exactly when the parentheses are balanced. */
  lemma LeveledIffBalanced(ps: seq<Part>)
    ensures Leveled(ps).Ok? <==> Balanced(ps)
  {
    assert Same(ps, ps);
    AnnotateBalancedFrom(ps, ps, 0, 0);
  }

  /** Operators already passed keep the level base-before-them plus their tier. */
  predicate OpsLeveled(ps0: seq<Part>, ps: seq<Part>, upto: nat)
    requires Same(ps, ps0) && upto <= |ps|
  {
    forall k :: 0 <= k < upto && ps[k].kind == Operator ==>
      ps[k].level == Depth(ps0, k) + GetOpPrec(OpOf(ps0[k]))
  }

  lemma {:induction false} AnnotateOpsFrom(ps0: seq<Part>, ps: seq<Part>, i: nat, base: int)
    requires Same(ps, ps0) && i <= |ps| && base == Depth(ps0, i) && OpsLeveled(ps0, ps, i)
    ensures Annotate(ps, i, base).Ok? ==> OpsLeveled(ps0, Annotate(ps, i, base).value, |ps|)
    decreases |ps| - i
  {
    if i < |ps| {
      assert Unleveled(ps[i]) == Unleveled(ps0[i]);
      assert Depth(ps0, i + 1) == base + BracketWeight(ps[i]);
      match LevelStep(ps, i, base)
      case Err(_) =>
      case Ok(next) =>
        assert OpsLeveled(ps0, next.parts, i + 1) by {
          forall k | 0 <= k < i + 1 && next.parts[k].kind == Operator
            ensures next.parts[k].level == Depth(ps0, k) + GetOpPrec(OpOf(ps0[k]))
          {
            assert Unleveled(next.parts[k]) == Unleveled(ps[k]);
          }
        }
        AnnotateOpsFrom(ps0, next.parts, i + 1, next.base);
    }
  }

  /** After a successful level pass every operator's level is `OPLEVELRANGE` times the
      number of parentheses open around it plus its precedence tier (with brackets holding
      their converted weights of plus or minus `OPLEVELRANGE`). */
  lemma OperatorLevels(ps: seq<Part>, k: nat)
    requires Leveled(ps).Ok? && k < |ps| && ps[k].kind == Operator
    ensures Leveled(ps).value[k].level == Depth(ps, k) + GetOpPrec(OpOf(ps[k]))
  {
    AnnotateOpsFrom(ps, ps, 0, 0);
    assert Unleveled(Leveled(ps).value[k]) == Unleveled(ps[k]);
  }

  /** Without parentheses the level pass always succeeds and every operator's level is
      its tier: 0 for `+ -`, 1 for `* / %`, 2 for `^`. */
  lemma {:induction false} NoBracketsNoDepth(ps: seq<Part>, k: nat)
    requires forall j :: 0 <= j < |ps| ==> ps[j].kind != Bracket
    requires k <= |ps|
    ensures Depth(ps, k) == 0
  {
    if k > 0 {
      NoBracketsNoDepth(ps, k - 1);
    }
  }

  lemma ParenFreeLevels(ps: seq<Part>)
    requires forall j :: 0 <= j < |ps| ==> ps[j].kind != Bracket
    ensures Leveled(ps).Ok?
    ensures forall k :: 0 <= k < |ps| && ps[k].kind == Operator ==>
      Leveled(ps).value[k].level == GetOpPrec(OpOf(ps[k]))
  {
    forall k | 0 < k <= |ps|
      ensures Depth(ps, k) >= 0
    {
      NoBracketsNoDepth(ps, k);
    }
    NoBracketsNoDepth(ps, |ps|);
    LeveledIffBalanced(ps);
    forall k | 0 <= k < |ps| && ps[k].kind == Operator
      ensures Leveled(ps).value[k].level == GetOpPrec(OpOf(ps[k]))
    {
      OperatorLevels(ps, k);
      NoBracketsNoDepth(ps, k);
    }
  }
}
