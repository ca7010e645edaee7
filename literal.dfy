/** Matrix literals such as "[1,2,3;4 5 6]": the validity scan `isValidMatrix` and the
    value the string constructor `CMatrix(char*)` builds (CMatrix.cpp:43-124, 372-505).

    Both walk the same lexical items after the opening '[': separators ' ' and ',' are
    skipped; a maximal run of digits and '.' is an element; ';' ends a row; ']' ends the
    literal; anything else, the end of the string included, stops the scan. */
module MatrixLiteral {
  import opened Numbers
  import opened Matrices

  datatype LitItem = Elem(text: string) | Semi | Close | Stop

  /** The first position at or after i that is not ' ' or ','. */
  function SkipSep(s: string, i: nat): (j: nat)
    requires i <= |s|
    ensures i <= j <= |s|
    ensures j < |s| ==> s[j] != ' ' && s[j] != ','
    decreases |s| - i
  {
    if i < |s| && (s[i] == ' ' || s[i] == ',') then SkipSep(s, i + 1) else i
  }

  /** The end of the run of digits and '.' starting at i. */
  function RunEnd(s: string, i: nat): (j: nat)
    requires i <= |s|
    ensures i <= j <= |s|
    ensures j < |s| ==> !IsDigit(s[j])
    decreases |s| - i
  {
    if i < |s| && IsDigit(s[i]) then RunEnd(s, i + 1) else i
  }

  /** A run holds only digits and '.'. */
  lemma {:induction false} RunEndDigits(s: string, i: nat)
    requires i <= |s|
    ensures AllDigits(s[i..RunEnd(s, i)])
    decreases |s| - i
  {
    if i < |s| && IsDigit(s[i]) {
      var j := RunEnd(s, i + 1);
      RunEndDigits(s, i + 1);
      assert s[i..j] == [s[i]] + s[i + 1..j];
    }
  }

  /** The items of s from position i up to the first ']' or stopping character. */
  function Items(s: string, i: nat): (r: seq<LitItem>)
    requires i <= |s|
    ensures |r| >= 1
    decreases |s| - i
  {
    var j := SkipSep(s, i);
    if j >= |s| then [Stop]
    else if IsDigit(s[j]) then
      var e := RunEnd(s, j + 1);
      [Elem(s[j..e])] + Items(s, e)
    else if s[j] == ';' then [Semi] + Items(s, j + 1)
    else if s[j] == ']' then [Close]
    else [Stop]
  }

  function DotCount(t: string): nat {
    if t == [] then 0 else DotCount(t[..|t| - 1]) + (if t[|t| - 1] == '.' then 1 else 0)
  }

  /** The decimal check of isValidMatrix: the first character of an element is taken
      unchecked and a second '.' after it rejects, so ".5." passes but "1.2.3" does not. */
  predicate ElemDotsOk(t: string) {
    |t| > 0 && DotCount(t[1..]) <= 1
  }

  // ---------------------------------------------------------------- the scan as written

  /** First phase: count the elements of the first row. */
  function Phase1(s: string, items: seq<LitItem>, c: nat): nat
  {
    if items == [] then 0
    else match items[0]
      case Elem(t) => if !ElemDotsOk(t) then 0 else Phase1(s, items[1..], c + 1)
      case Close => c
      case Semi => Phase2(s, items[1..], c, 0, c)
      case Stop => 0
  }

  /** Second phase: every later row must hold exactly `cols` elements. */
  function Phase2(s: string, items: seq<LitItem>, cols: nat, check: nat, total: nat): nat
  {
    if items == [] then 0
    else match items[0]
      case Elem(t) => if !ElemDotsOk(t) then 0 else Phase2(s, items[1..], cols, check + 1, total + 1)
      case Semi => if check == cols then Phase2(s, items[1..], cols, 0, total) else 0
      case Close => if check == cols then total else 0
      case Stop => 0
  }

  /** `isValidMatrix`: 0 for an invalid literal, otherwise its element count. */
  function ValidCount(s: string): nat {
    if |s| == 0 || s[0] != '[' then 0 else Phase1(s, Items(s, 1), 0)
  }

  // ---------------------------------------------------------------- declarative reading

  /** The items reach ']' without a stopping character. */
  predicate EndsClosed(items: seq<LitItem>) {
    |items| > 0 && match items[0]
      case Close => true
      case Stop => false
      case _ => EndsClosed(items[1..])
  }

  /** Every element before the closing ']' passes the decimal check. */
  predicate DotsOk(s: string, items: seq<LitItem>)
  {
    |items| > 0 ==> match items[0]
      case Elem(t) => ElemDotsOk(t) && DotsOk(s, items[1..])
      case Semi => DotsOk(s, items[1..])
      case _ => true
  }

  /** The number of elements of each row, the current row having `cur` so far. */
  function RowLens(items: seq<LitItem>, cur: nat): (r: seq<nat>)
    ensures |r| >= 1
  {
    if items == [] then [cur]
    else match items[0]
      case Elem(_) => RowLens(items[1..], cur + 1)
      case Semi => [cur] + RowLens(items[1..], 0)
      case _ => [cur]
  }

  /** The elements before the closing ']', in order. */
  function Elems(items: seq<LitItem>): (r: seq<LitItem>)
    ensures forall k :: 0 <= k < |r| ==> r[k].Elem?
  {
    if items == [] then []
    else match items[0]
      case Elem(_) => [items[0]] + Elems(items[1..])
      case Semi => Elems(items[1..])
      case _ => []
  }

  function Semis(items: seq<LitItem>): nat {
    if items == [] then 0
    else match items[0]
      case Elem(_) => Semis(items[1..])
      case Semi => 1 + Semis(items[1..])
      case _ => 0
  }

  /** Every row length is c. */
  predicate Uniform(lens: seq<nat>, c: nat) {
    forall k :: 0 <= k < |lens| ==> lens[k] == c
  }

  lemma UniformCons(x: nat, lens: seq<nat>, c: nat)
    ensures Uniform([x] + lens, c) <==> x == c && Uniform(lens, c)
  {
    if x == c && Uniform(lens, c) {
      forall k | 0 <= k < |[x] + lens| ensures ([x] + lens)[k] == c {
        if k > 0 {
          assert ([x] + lens)[k] == lens[k - 1];
        }
      }
    }
    if Uniform([x] + lens, c) {
      assert ([x] + lens)[0] == x;
      forall k | 0 <= k < |lens| ensures lens[k] == c {
        assert ([x] + lens)[k + 1] == lens[k];
      }
    }
  }

  /** A literal isValidMatrix accepts: it opens with '[', reaches ']', every element passes
      the decimal check, and every row has as many elements as the first. */
  predicate WellFormedLiteral(s: string) {
    |s| > 0 && s[0] == '[' &&
    var items := Items(s, 1);
    EndsClosed(items) && DotsOk(s, items) && Uniform(RowLens(items, 0), RowLens(items, 0)[0])
  }

  lemma {:induction false} Phase2Reads(s: string, items: seq<LitItem>, cols: nat, check: nat, total: nat)
    ensures Phase2(s, items, cols, check, total) ==
      if EndsClosed(items) && DotsOk(s, items) && Uniform(RowLens(items, check), cols)
      then total + |Elems(items)| else 0
  {
    if items != [] {
      var rest := items[1..];
      match items[0]
      case Elem(_) =>
        Phase2Reads(s, rest, cols, check + 1, total + 1);
      case Semi =>
        Phase2Reads(s, rest, cols, 0, total);
        assert RowLens(items, check) == [check] + RowLens(rest, 0);
        UniformCons(check, RowLens(rest, 0), cols);
      case Close =>
        assert RowLens(items, check) == [check];
        assert [check] == [check] + [];
        UniformCons(check, [], cols);
      case Stop =>
    }
  }

  lemma {:induction false} Phase1Reads(s: string, items: seq<LitItem>, c: nat)
    ensures Phase1(s, items, c) ==
      var lens := RowLens(items, c);
      if EndsClosed(items) && DotsOk(s, items) && Uniform(lens, lens[0])
      then c + |Elems(items)| else 0
  {
    if items != [] {
      var rest := items[1..];
      match items[0]
      case Elem(_) =>
        Phase1Reads(s, rest, c + 1);
      case Semi =>
        Phase2Reads(s, rest, c, 0, c);
        assert RowLens(items, c) == [c] + RowLens(rest, 0);
        UniformCons(c, RowLens(rest, 0), c);
      case Close =>
        assert RowLens(items, c) == [c];
        assert Uniform([c], c);
      case Stop =>
    }
  }

  /** isValidMatrix returns 0 unless the literal is well formed, and then its element count. */
  lemma ValidCountMeaning(s: string)
    ensures ValidCount(s) == if WellFormedLiteral(s) then |Elems(Items(s, 1))| else 0
  {
    if |s| > 0 && s[0] == '[' {
      var items := Items(s, 1);
      Phase1Reads(s, items, 0);
    }
  }

  /** Items still to come that reach ']' lie inside the string, and the next one begins
      with a digit, ';' or ']' once separators are skipped. */
  lemma ItemsAhead(s: string, p: nat)
    requires p <= |s|
    ensures EndsClosed(Items(s, p)) ==>
      (p < |s| && var q := SkipSep(s, p); q < |s| && (IsDigit(s[q]) || s[q] == ';' || s[q] == ']'))
  {
  }

  /** A digit run: its first character followed by the run after it. */
  lemma RunDigits(s: string, q: nat)
    requires q < |s| && IsDigit(s[q])
    ensures AllDigits(s[q..RunEnd(s, q + 1)])
  {
    var e := RunEnd(s, q + 1);
    RunEndDigits(s, q + 1);
    assert s[q..e] == [s[q]] + s[q + 1..e];
  }

  /** A digit run at the next item position contributes one element and nothing else. */
  lemma ElemStep(s: string, p: nat, e: nat)
    requires p <= |s| && SkipSep(s, p) < |s| && IsDigit(s[SkipSep(s, p)])
    requires e == RunEnd(s, SkipSep(s, p) + 1)
    ensures var q := SkipSep(s, p);
      q < e && AllDigits(s[q..e]) &&
      Items(s, p) == [Elem(s[q..e])] + Items(s, e) &&
      Values(Elems(Items(s, p))) == [DecimalValue(s[q..e])] + Values(Elems(Items(s, e))) &&
      Semis(Items(s, p)) == Semis(Items(s, e)) &&
      EndsClosed(Items(s, p)) == EndsClosed(Items(s, e))
  {
    var q := SkipSep(s, p);
    RunDigits(s, q);
    var item := Elem(s[q..e]);
    var rest := Items(s, e);
    assert Items(s, p) == [item] + rest;
    assert ([item] + rest)[1..] == rest;
    assert Elems(Items(s, p)) == [item] + Elems(rest);
    assert ([item] + Elems(rest))[1..] == Elems(rest);
  }

  /** A ';' at the next item position starts a new row. */
  lemma SemiStep(s: string, p: nat)
    requires p <= |s| && SkipSep(s, p) < |s| && s[SkipSep(s, p)] == ';'
    ensures var q := SkipSep(s, p);
      Elems(Items(s, p)) == Elems(Items(s, q + 1)) &&
      Semis(Items(s, p)) == 1 + Semis(Items(s, q + 1)) &&
      EndsClosed(Items(s, p)) == EndsClosed(Items(s, q + 1))
  {
    var q := SkipSep(s, p);
    var rest := Items(s, q + 1);
    assert Items(s, p) == [Semi] + rest;
    assert ([Semi] + rest)[1..] == rest;
  }

  /** At ']' nothing is left to read. */
  lemma CloseStep(s: string, p: nat)
    requires p <= |s| && SkipSep(s, p) < |s| && s[SkipSep(s, p)] == ']'
    ensures Elems(Items(s, p)) == [] && Semis(Items(s, p)) == 0
  {
    assert Items(s, p) == [Close];
  }

  // ---------------------------------------------------------------- the constructed matrix

  function Sum(lens: seq<nat>): nat {
    if lens == [] then 0 else Sum(lens[..|lens| - 1]) + lens[|lens| - 1]
  }

  lemma {:induction false} SumAppend(a: seq<nat>, b: seq<nat>)
    ensures Sum(a + b) == Sum(a) + Sum(b)
  {
    if b != [] {
      assert (a + b)[..|a + b| - 1] == a + b[..|b| - 1];
      SumAppend(a, b[..|b| - 1]);
    } else {
      assert a + b == a;
    }
  }

  lemma {:induction false} RowLensCount(items: seq<LitItem>, cur: nat)
    ensures |RowLens(items, cur)| == 1 + Semis(items)
    ensures Sum(RowLens(items, cur)) == cur + |Elems(items)|
  {
    if items != [] {
      var rest := items[1..];
      match items[0]
      case Elem(_) =>
        RowLensCount(rest, cur + 1);
      case Semi =>
        RowLensCount(rest, 0);
        SumAppend([cur], RowLens(rest, 0));
        assert Sum([cur]) == cur by { assert [cur][..0] == []; }
      case Close =>
        assert Sum([cur]) == cur by { assert [cur][..0] == []; }
      case Stop =>
        assert Sum([cur]) == cur by { assert [cur][..0] == []; }
    } else {
      assert Sum([cur]) == cur by { assert [cur][..0] == []; }
    }
  }

  lemma {:induction false} SumUniform(lens: seq<nat>, c: nat)
    requires Uniform(lens, c)
    ensures Sum(lens) == |lens| * c
  {
    if lens != [] {
      SumUniform(lens[..|lens| - 1], c);
    }
  }

  /** A valid literal with n > 0 elements has 1 + (number of ';') rows of n / rows elements,
      and rows * cols == n. */
  lemma LiteralShape(s: string)
    requires ValidCount(s) > 0
    ensures var items := Items(s, 1); var rows := 1 + Semis(items); var n := ValidCount(s);
      n == |Elems(items)| && n / rows >= 1 && rows * (n / rows) == n
  {
    ValidCountMeaning(s);
    UniformShape(Items(s, 1));
  }

  /** Items whose rows all have the length of the first row hold rows * cols elements. */
  lemma UniformShape(items: seq<LitItem>)
    requires Uniform(RowLens(items, 0), RowLens(items, 0)[0])
    ensures var rows := 1 + Semis(items); var n := |Elems(items)|;
      n / rows == RowLens(items, 0)[0] && rows * (n / rows) == n
  {
    var rows := 1 + Semis(items);
    var n := |Elems(items)|;
    var lens := RowLens(items, 0);
    assert n == rows * lens[0] by {
      RowLensCount(items, 0);
      SumUniform(lens, lens[0]);
    }
    RowMajor(lens[0], 0, rows);
  }

  /** The decoded elements, in row-major order. */
  function Values(elems: seq<LitItem>): (v: seq<real>)
    ensures |v| == |elems|
  {
    if elems == [] then [] else [ElemValue(elems[0])] + Values(elems[1..])
  }

  /** The value of an element item: its digit run read as a decimal. Items other than
      elements, and texts with other characters, never reach here; they read as 0. */
  function ElemValue(item: LitItem): real {
    if item.Elem? && AllDigits(item.text) then DecimalValue(item.text) else 0.0
  }

  /** `CMatrix(char*)`: the matrix a literal denotes, null unless isValidMatrix accepts it. */
  function LiteralMatrix(s: string): (m: Matrix)
    ensures m.Null? <==> ValidCount(s) == 0
    ensures m.M? ==> m.rows == 1 + Semis(Items(s, 1)) && m.rows * m.cols == ValidCount(s)
  {
    var n := ValidCount(s);
    if n == 0 then Null
    else
      var items := Items(s, 1);
      LiteralShape(s);
      M(1 + Semis(items), n / (1 + Semis(items)), Values(Elems(items)))
  }

  // ---------------------------------------------------------------- the reading loop

  /** What one pass of the reading loop's body of `CMatrix(char*)` does at position p,
      before ']' and the end of the string: after skipping ' ' and ',' it decodes a digit
      run into a value, passes over a ';' as a new row, or stops at any other character. */
  datatype Step = Value(v: real, next: nat) | Row(next: nat) | End

  function NextStep(s: string, p: nat): (r: Step)
    requires p <= |s|
    ensures !r.End? ==> p < r.next <= |s|
  {
    var q := SkipSep(s, p);
    if q < |s| && IsDigit(s[q]) then
      var e := RunEnd(s, q + 1);
      RunDigits(s, q);
      Value(DecimalValue(s[q..e]), e)
    else if q < |s| && s[q] == ';' then Row(q + 1)
    else End
  }

  /** The elements the reading loop decodes from position p on; it stops at ']' or the end
      of the string. */
  ghost function ReadValues(s: string, p: nat): seq<real>
    requires p <= |s|
    decreases |s| - p
  {
    if p == |s| || s[p] == ']' then []
    else match NextStep(s, p)
      case Value(v, next) => [v] + ReadValues(s, next)
      case Row(next) => ReadValues(s, next)
      case End => []
  }

  /** The number of ';' the same loop counts from position p on. */
  ghost function ReadRows(s: string, p: nat): nat
    requires p <= |s|
    decreases |s| - p
  {
    if p == |s| || s[p] == ']' then 0
    else match NextStep(s, p)
      case Value(_, next) => ReadRows(s, next)
      case Row(next) => 1 + ReadRows(s, next)
      case End => 0
  }

  /** On items that reach ']', the reading loop decodes exactly the elements ahead and
      counts exactly the ';' ahead. */
  lemma {:induction false} ReadItems(s: string, p: nat)
    requires p <= |s| && EndsClosed(Items(s, p))
    ensures ReadValues(s, p) == Values(Elems(Items(s, p)))
    ensures ReadRows(s, p) == Semis(Items(s, p))
    decreases |s| - p, 1
  {
    ItemsAhead(s, p);
    var q := SkipSep(s, p);
    if s[p] == ']' {
      assert q == p;
      CloseStep(s, p);
    } else if IsDigit(s[q]) {
      ReadItemsElem(s, p);
    } else if s[q] == ';' {
      ReadItemsSemi(s, p);
    } else {
      CloseStep(s, p);
    }
  }

  /** ReadItems at a digit run. */
  lemma {:induction false} ReadItemsElem(s: string, p: nat)
    requires p < |s| && s[p] != ']' && EndsClosed(Items(s, p))
    requires SkipSep(s, p) < |s| && IsDigit(s[SkipSep(s, p)])
    ensures ReadValues(s, p) == Values(Elems(Items(s, p)))
    ensures ReadRows(s, p) == Semis(Items(s, p))
    decreases |s| - p, 0
  {
    var q := SkipSep(s, p);
    var e := RunEnd(s, q + 1);
    RunDigits(s, q);
    var v := DecimalValue(s[q..e]);
    assert ReadValues(s, p) == [v] + ReadValues(s, e) && ReadRows(s, p) == ReadRows(s, e) by {
      assert NextStep(s, p) == Value(v, e);
    }
    assert Values(Elems(Items(s, p))) == [v] + Values(Elems(Items(s, e)))
      && Semis(Items(s, p)) == Semis(Items(s, e)) && EndsClosed(Items(s, e)) by {
      ElemStep(s, p, e);
    }
    ReadItems(s, e);
  }

  /** ReadItems at a ';'. */
  lemma {:induction false} ReadItemsSemi(s: string, p: nat)
    requires p < |s| && s[p] != ']' && EndsClosed(Items(s, p))
    requires SkipSep(s, p) < |s| && s[SkipSep(s, p)] == ';'
    ensures ReadValues(s, p) == Values(Elems(Items(s, p)))
    ensures ReadRows(s, p) == Semis(Items(s, p))
    decreases |s| - p, 0
  {
    var next := SkipSep(s, p) + 1;
    assert ReadValues(s, p) == ReadValues(s, next) && ReadRows(s, p) == 1 + ReadRows(s, next) by {
      assert NextStep(s, p) == Row(next);
    }
    assert Elems(Items(s, p)) == Elems(Items(s, next)) && Semis(Items(s, p)) == 1 + Semis(Items(s, next))
      && EndsClosed(Items(s, next)) by {
      SemiStep(s, p);
    }
    ReadItems(s, next);
  }

  /** The reading loop started after the '[' of a literal isValidMatrix accepts yields the
      literal's elements in row-major order and one less than its row count. */
  lemma ReadWholeLiteral(s: string)
    requires ValidCount(s) > 0
    ensures ReadValues(s, 1) == Values(Elems(Items(s, 1)))
    ensures ReadRows(s, 1) == Semis(Items(s, 1))
    ensures |ReadValues(s, 1)| == ValidCount(s)
  {
    ValidCountMeaning(s);
    ReadItems(s, 1);
  }
}
