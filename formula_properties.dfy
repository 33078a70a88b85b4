/**
 * What the formula engine of src/utils/formula-engine.ts promises, stated over the
 * specification functions its methods are proved against: the leading '=', the two
 * evaluation paths, error reporting, argument classification, range reads, the
 * memoise-on-read rule and reference substitution, and one whole formula worked through.
 */
module FormulaProperties {
  import opened Common
  import opened Text
  import opened ExcelHelper
  import opened CellModel
  import opened FormulaText
  import opened Aggregates
  import opened FormulaSpec

  // ---------------------------------------------------------------- the leading '='

  /** A formula evaluates the same with or without one leading '='. */
  lemma LeadingEqualsIsOptional(h: Host, g: Grid, body: string, fuel: nat)
    requires |body| == 0 || body[0] != '='
    ensures EvaluateFormulaSpec(h, g, "=" + body, fuel) == EvaluateFormulaSpec(h, g, body, fuel)
  {
    assert StripEquals("=" + body) == body by {
      assert ("=" + body)[1..] == body;
    }
  }

  /**
   * Only one '=' is removed, and nothing propagates out of evaluateFormula: whatever the
   * body does, an error comes back as `{ result: null, error }` with its message.
   */
  lemma EvaluationReportsErrors(h: Host, g: Grid, body: string, fuel: nat)
    ensures var (e, g1) := EvaluateFormulaSpec(h, g, "=" + body, fuel);
      var (r, g2) := ParseAndEvaluateSpec(h, g, body, fuel);
      && g1 == g2
      && (e.error.None? <==> r.Ok?)
      && (r.Ok? ==> e.result == r.value)
      && (r.Err? ==> e == Evaluation(Null, Some(r.message)))
  {
    assert StripEquals("=" + body) == body by {
      assert ("=" + body)[1..] == body;
    }
  }

  // ---------------------------------------------------------------- the two paths

  /** A body that is one whole call goes to evaluateFunction with that name and those arguments. */
  lemma CallTakesFunctionPath(h: Host, g: Grid, name: string, args: string, fuel: nat)
    requires IsName(name) && args != [] && ')' !in args
    ensures ParseAndEvaluateSpec(h, g, name + "(" + args + ")", fuel) == EvaluateFunctionSpec(h, g, name, args, fuel)
  {
    MatchCallComplete(name, args);
  }

  /** A body with two ')' (a nested call, say) is handed to the arithmetic path instead. */
  lemma NestedCallTakesArithmeticPath(h: Host, g: Grid, body: string, i: nat, j: nat, fuel: nat)
    requires i < j < |body| && body[i] == ')' && body[j] == ')'
    ensures ParseAndEvaluateSpec(h, g, body, fuel) == EvaluateExpressionSpec(h, g, body, fuel)
  {
    NestedCallIsNotACall(body, i, j);
  }

  /**
   * A call of a name outside SUM, AVERAGE, MAX, MIN, COUNT and COUNTA is an error: the
   * arguments' own error when reading them fails, "Unsupported function: NAME" otherwise.
   */
  lemma UnknownFunctionReported(h: Host, g: Grid, name: string, args: string, fuel: nat)
    requires IsName(name) && args != [] && ')' !in args
    requires name !in {"SUM", "AVERAGE", "MAX", "MIN", "COUNT", "COUNTA"}
    ensures var e := EvaluateFormulaSpec(h, g, "=" + (name + "(" + args + ")"), fuel).0;
      var a := ArgumentsSpec(h, g, SplitResult(args), fuel).0;
      && e.result == Null
      && (a.Ok? ==> e.error == Some("Unsupported function: " + name))
      && (a.Err? ==> e.error == Some(a.message))
  {
    var body := name + "(" + args + ")";
    EvaluationReportsErrors(h, g, body, fuel);
    CallTakesFunctionPath(h, g, name, args, fuel);
  }

  // ---------------------------------------------------------------- arguments

  /** The address of a valid position, given as an argument, reads that one cell. */
  lemma CellArgumentReadsCell(h: Host, g: Grid, row: int, col: int, fuel: nat)
    requires row >= 0 && col >= 1
    ensures var (v, g1) := ReadCellSpec(h, g, Pos(row, col), fuel);
      ArgumentSpec(h, g, PositionToAddress(row, col), fuel) == (Ok([v]), g1)
  {
    AddressIsPlainWord(row, col);
    PlainWordChars(PositionToAddress(row, col));
    AddressIsCellReference(row, col);
    TrimmedAddressRoundTrip(row, col);
  }

  /** Two corner addresses joined by ':', given as an argument, read the rectangle between them. */
  lemma RangeArgumentReadsRange(h: Host, g: Grid, s: Pos, e: Pos, fuel: nat)
    requires s.row >= 0 && s.col >= 1 && e.row >= 0 && e.col >= 1
    ensures var (vs, g1) := ResolveCellsSpec(h, g, RangeCells(s, e), fuel);
      ArgumentSpec(h, g, PositionToAddress(s.row, s.col) + ":" + PositionToAddress(e.row, e.col), fuel) == (Ok(vs), g1)
  {
    var a, b := PositionToAddress(s.row, s.col), PositionToAddress(e.row, e.col);
    var r := a + ":" + b;
    assert Trim(r) == r && ':' in r && SplitRange(r) == (a, b) by {
      RangeText(s, e);
    }
    assert ParseAddress(Trim(a)) == Ok(s) && ParseAddress(Trim(b)) == Ok(e) by {
      TrimmedAddressRoundTrip(s.row, s.col);
      TrimmedAddressRoundTrip(e.row, e.col);
    }
    assert ArgumentSpec(h, g, r, fuel) == RangeValuesSpec(h, g, r, fuel);
  }

  /**
   * An argument holding ':' is read as a range even when what precedes the ':' is a good
   * address: when the end does not parse the argument throws its error. ("A1:" is one such
   * argument, by EmptyAddressInvalid.)
   */
  lemma RangeWithBadEndIsError(h: Host, g: Grid, row: int, col: int, b: string, fuel: nat)
    requires row >= 0 && col >= 1
    requires ':' !in b && Trim(b) == b && ParseAddress(b).Err?
    ensures ArgumentSpec(h, g, PositionToAddress(row, col) + ":" + b, fuel) == (Err(ParseAddress(b).message), g)
  {
    AddressColonText(row, col, b);
    TrimmedAddressRoundTrip(row, col);
  }

  // ---------------------------------------------------------------- ranges

  /**
   * getRangeValues parses both trimmed ends of the text around the first ':' and throws
   * as soon as one does not parse; otherwise it reads the rectangle between them.
   */
  lemma RangeValuesErrors(h: Host, g: Grid, range: string, fuel: nat)
    requires ':' in range
    ensures var (a, b) := SplitRange(range);
      var r := RangeValuesSpec(h, g, range, fuel).0;
      && (r.Ok? <==> ParseAddress(Trim(a)).Ok? && ParseAddress(Trim(b)).Ok?)
      && (ParseAddress(Trim(a)).Err? ==> r == Err("Invalid cell address: " + Trim(a)))
      && (ParseAddress(Trim(a)).Ok? && ParseAddress(Trim(b)).Err? ==> r == Err("Invalid cell address: " + Trim(b)))
      && (r.Ok? ==> r.value == ResolveCellsSpec(h, g, RangeCells(ParseAddress(Trim(a)).value, ParseAddress(Trim(b)).value), fuel).0)
  {
  }

  /**
   * The values of a rectangle come in row-major order: the cell i rows and j columns
   * from the start, when it needs no evaluation, gives its settled value at index
   * i × width + j. (RangeCells gives the count: height × width, or none.)
   */
  lemma RangeValueAt(h: Host, g: Grid, s: Pos, e: Pos, i: int, j: int, fuel: nat)
    requires NonEmptyRange(s, e) && 0 <= i <= e.row - s.row && 0 <= j <= e.col - s.col
    requires !IsUncached(Get(g, Pos(s.row + i, s.col + j)))
    ensures var vs := ResolveCellsSpec(h, g, RangeCells(s, e), fuel).0;
      var w := e.col - s.col + 1;
      && |vs| == (e.row - s.row + 1) * w
      && 0 <= i * w + j < |vs|
      && vs[i * w + j] == OrZero(SettledValue(Get(g, Pos(s.row + i, s.col + j))))
  {
    var w := e.col - s.col + 1;
    var ps := RangeCells(s, e);
    var k := i * w + j;
    assert 0 <= k < |ps| && ps[k] == Pos(s.row + i, s.col + j) by {
      RangeCellsAt(s, e, w, i, j);
    }
    var vs := ResolveCellsSpec(h, g, ps, fuel).0;
    assert |vs| == |ps| == (e.row - s.row + 1) * w by {
      RangeCellsCount(s, e);
    }
    assert vs[k] == OrZero(SettledValue(Get(g, ps[k])));
  }

  /** Reading cells none of which needs evaluation changes nothing in the worksheet. */
  lemma {:induction false} SettledCellsLeaveGrid(h: Host, g: Grid, ps: seq<Pos>, fuel: nat)
    requires forall k | 0 <= k < |ps| :: !IsUncached(Get(g, ps[k]))
    ensures ResolveCellsSpec(h, g, ps, fuel).1 == g
    decreases |ps|
  {
    if ps != [] {
      var rest := ps[1..];
      assert forall k | 0 <= k < |rest| :: rest[k] == ps[k + 1];
      SettledCellsLeaveGrid(h, g, rest, fuel);
    }
  }

  // ---------------------------------------------------------------- memoise on read

  /**
   * A formula cell with no cached result whose formula evaluates without error reads as
   * that result, and the result is written into the cell; a second read then returns it
   * unchanged, without evaluating again, whatever fuel is left.
   */
  lemma SuccessfulReadIsCached(h: Host, g: Grid, p: Pos, fuel: nat, fuel': nat)
    requires IsUncached(Get(g, p)) && Get(g, p).formula != "" && fuel > 0
    requires EvaluateFormulaSpec(h, g, Get(g, p).formula, fuel - 1).0.error.None?
    ensures var (v, g1) := ReadCellSpec(h, g, p, fuel);
      && v == EvaluateFormulaSpec(h, g, Get(g, p).formula, fuel - 1).0.result
      && Get(g1, p) == Formula(Get(g, p).formula, v)
      && (v != Undefined ==> ReadCellSpec(h, g1, p, fuel') == (v, g1))
  {
    var (v, g1) := ReadCellSpec(h, g, p, fuel);
    assert p in g;
    assert Get(g1, p) == Formula(Get(g, p).formula, v);
  }

  /**
   * A formula cell with no cached result reads as 0 when its formula is empty, when no
   * fuel is left, or when its evaluation fails. In the first two cases nothing is written;
   * after a failed evaluation the read writes nothing of its own, and the worksheet is as
   * the nested evaluation left it.
   */
  lemma FailedReadReturnsZero(h: Host, g: Grid, p: Pos, fuel: nat)
    requires IsUncached(Get(g, p))
    requires Get(g, p).formula == "" || fuel == 0 || EvaluateFormulaSpec(h, g, Get(g, p).formula, fuel - 1).0.error.Some?
    ensures ReadCellSpec(h, g, p, fuel).0 == Num(0.0)
    ensures Get(g, p).formula == "" || fuel == 0 ==> ReadCellSpec(h, g, p, fuel).1 == g
    ensures Get(g, p).formula != "" && fuel > 0 ==>
      ReadCellSpec(h, g, p, fuel).1 == EvaluateFormulaSpec(h, g, Get(g, p).formula, fuel - 1).1
  {
  }

  /** A literal cell is never evaluated or written; a falsy literal reads as the number 0. */
  lemma LiteralRead(h: Host, g: Grid, p: Pos, fuel: nat)
    requires Get(g, p).Lit?
    ensures ReadCellSpec(h, g, p, fuel) == (OrZero(Get(g, p).value), g)
    ensures !Truthy(Get(g, p).value) ==> ReadCellSpec(h, g, p, fuel).0 == Num(0.0)
  {
  }

  /** Without an upper-case letter no letters-then-digits match starts anywhere. */
  lemma {:induction false} NoUpperNoMatch(s: string, from: nat)
    requires from <= |s|
    requires forall i | 0 <= i < |s| :: !IsUpper(s[i])
    ensures FirstMatchFrom(s, from) == None
    decreases |s| - from
  {
    if from < |s| {
      NoUpperNoMatch(s, from + 1);
    }
  }

  /**
   * getCellValue swallows a bad address: a text in which no letters-then-digits substring
   * occurs anywhere reads as 0 and changes nothing.
   */
  lemma BadAddressReadsZero(h: Host, g: Grid, address: string, fuel: nat)
    requires forall i, j, k :: !IsMatch(address, i, j, k)
    ensures CellValueSpec(h, g, address, fuel) == (Num(0.0), g)
  {
    ParseAddressIsLeftmostMatch(address);
  }

  // ---------------------------------------------------------------- the expression path

  /** With no upper-case letter an expression has no reference, so it goes straight to safeMathEval. */
  lemma ExpressionWithoutReferences(h: Host, g: Grid, expression: string, fuel: nat)
    requires forall i | 0 <= i < |expression| :: !IsUpper(expression[i])
    ensures ReferenceTokens(expression) == []
    ensures EvaluateExpressionSpec(h, g, expression, fuel) == (SafeMathEval(h, expression), g)
  {
    NoUpperNoMatch(expression, 0);
  }

  /** "A1*2" holds one reference, A1. */
  lemma TokensOfA1Times2()
    ensures ReferenceTokens("A1*2") == ["A1"]
  {
    var s := "A1*2";
    assert MatchStartsAt(s, 0) by {
      assert UpperRunEnd(s, 1) == 1;
    }
    assert MatchBounds(s, 0) == Some((0, 1, 2)) by {
      assert UpperRunEnd(s, 1) == 1;
      assert DigitRunEnd(s, 2) == 2;
    }
    assert s[0..2] == "A1";
    assert FirstMatchFrom(s, 2) == None by {
      assert !MatchStartsAt(s, 2) && !MatchStartsAt(s, 3);
    }
  }

  /** A single token: its cell is read, and the first occurrence of the token gives way to the number. */
  lemma SubstituteSingle(h: Host, g: Grid, s: string, token: string, fuel: nat)
    ensures var (v, g1) := CellValueSpec(h, g, token, fuel);
      SubstituteSpec(h, g, s, [token], fuel) == (ReplaceFirst(s, token, h.show(if IsNumeric(v) then ToNumber(v) else 0.0)), g1)
  {
    assert [token][1..] == [];
  }

  /** Replacing the A1 of "A1*2" by t gives t + "*2". */
  lemma ReplaceLeadingA1(t: string)
    ensures ReplaceFirst("A1*2", "A1", t) == t + "*2"
  {
    var s := "A1*2";
    assert OccursAt(s, "A1", 0) by {
      assert s[0..2] == "A1";
    }
    assert IndexFrom(s, "A1", 0) == Some(0);
    assert s[2..] == "*2";
  }

  /** In "A1*2" the reference is replaced by the host's rendering of A1's number. */
  lemma SingleReferenceSubstituted(h: Host, g: Grid, x: real, fuel: nat)
    requires Get(g, Pos(1, 1)) == Lit(Num(x))
    ensures EvaluateExpressionSpec(h, g, "A1*2", fuel) == (SafeMathEval(h, h.show(x) + "*2"), g)
  {
    TokensOfA1Times2();
    assert CellValueSpec(h, g, "A1", fuel) == (OrZero(Num(x)), g) by {
      assert ParseAddress("A1") == Ok(Pos(1, 1)) by {
        ColumnAAddress(1);
        AddressRoundTrip(1, 1);
      }
    }
    var v := OrZero(Num(x));
    assert IsNumeric(v) && ToNumber(v) == x;
    SubstituteSingle(h, g, "A1*2", "A1", fuel);
    ReplaceLeadingA1(h.show(x));
  }

  /** A reference whose read needs no evaluation: a bad address, or a settled cell. */
  predicate SettledReference(g: Grid, token: string)
  {
    ParseAddress(token).Err? || !IsUncached(Get(g, ParseAddress(token).value))
  }

  /** The number a settled reference stands for: its read value when numeric, else 0. */
  function ReferenceNumber(g: Grid, token: string): real
    requires SettledReference(g, token)
  {
    match ParseAddress(token)
    case Err(_) => 0.0
    case Ok(p) =>
      var v := SettledValue(Get(g, p));
      if IsNumeric(v) then ToNumber(v) else 0.0
  }

  /** Each token in turn, first occurrence only, replaced by the rendering of its number in g. */
  function ReplaceReferences(h: Host, g: Grid, s: string, tokens: seq<string>): string
    requires forall k | 0 <= k < |tokens| :: SettledReference(g, tokens[k])
    decreases |tokens|
  {
    if tokens == [] then s
    else ReplaceReferences(h, g, ReplaceFirst(s, tokens[0], h.show(ReferenceNumber(g, tokens[0]))), tokens[1..])
  }

  /** Reading a settled reference gives its number and writes nothing. */
  lemma SettledReferenceRead(h: Host, g: Grid, token: string, fuel: nat)
    requires SettledReference(g, token)
    ensures var (v, g1) := CellValueSpec(h, g, token, fuel);
      g1 == g && (if IsNumeric(v) then ToNumber(v) else 0.0) == ReferenceNumber(g, token)
  {
  }

  /** The substitution loop over settled references writes nothing and reads every value from g. */
  lemma {:induction false} SettledSubstitution(h: Host, g: Grid, s: string, tokens: seq<string>, fuel: nat)
    requires forall k | 0 <= k < |tokens| :: SettledReference(g, tokens[k])
    ensures SubstituteSpec(h, g, s, tokens, fuel) == (ReplaceReferences(h, g, s, tokens), g)
    decreases |tokens|
  {
    if tokens != [] {
      SettledReferenceRead(h, g, tokens[0], fuel);
      var rest := tokens[1..];
      assert forall k | 0 <= k < |rest| :: rest[k] == tokens[k + 1];
      SettledSubstitution(h, g, ReplaceFirst(s, tokens[0], h.show(ReferenceNumber(g, tokens[0]))), rest, fuel);
    }
  }

  /**
   * evaluateExpression when none of its references needs evaluation: the worksheet is
   * unchanged, and safeMathEval receives the text in which each token's first remaining
   * occurrence, token by token, became the rendering of that cell's number (0 when the
   * value is not numeric or the address is bad).
   */
  lemma SettledExpression(h: Host, g: Grid, expression: string, fuel: nat)
    requires forall t | t in ReferenceTokens(expression) :: SettledReference(g, t)
    ensures EvaluateExpressionSpec(h, g, expression, fuel)
      == (SafeMathEval(h, ReplaceReferences(h, g, expression, ReferenceTokens(expression))), g)
  {
    var toks := ReferenceTokens(expression);
    assert forall k | 0 <= k < |toks| :: toks[k] in toks;
    SettledSubstitution(h, g, expression, toks, fuel);
  }

  // ---------------------------------------------------------------- a whole formula

  /** The address of row 1..9 of column A: "A" and one digit. */
  lemma ColumnAAddress(row: int)
    requires 1 <= row <= 9
    ensures PositionToAddress(row, 1) == ['A', DigitChar(row)]
  {
    assert ColumnName(1) == ColumnName(0) + [Letter(0)];
    assert IntToString(row) == NatToString(row) == [DigitChar(row)];
  }

  /** The worksheet of the SUM test: 10, 20 and 30 in A1:A3. */
  function SumSheet(): Grid
  {
    map[Pos(1, 1) := Lit(Num(10.0)), Pos(2, 1) := Lit(Num(20.0)), Pos(3, 1) := Lit(Num(30.0))]
  }

  /** A1:A3 is the three cells of column A, top to bottom. */
  lemma SumRangeCells()
    ensures RangeCells(Pos(1, 1), Pos(3, 1)) == [Pos(1, 1), Pos(2, 1), Pos(3, 1)]
  {
    RangeCellsAt(Pos(1, 1), Pos(3, 1), 1, 0, 0);
    RangeCellsAt(Pos(1, 1), Pos(3, 1), 1, 1, 0);
    RangeCellsAt(Pos(1, 1), Pos(3, 1), 1, 2, 0);
  }

  /** Reading A1:A3 of the SUM worksheet gives 10, 20 and 30 and writes nothing. */
  lemma SumRangeRead(h: Host, fuel: nat)
    ensures ResolveCellsSpec(h, SumSheet(), RangeCells(Pos(1, 1), Pos(3, 1)), fuel) == ([Num(10.0), Num(20.0), Num(30.0)], SumSheet())
  {
    var g := SumSheet();
    var ps := RangeCells(Pos(1, 1), Pos(3, 1));
    SumRangeCells();
    assert Get(g, ps[0]) == Lit(Num(10.0)) && Get(g, ps[1]) == Lit(Num(20.0)) && Get(g, ps[2]) == Lit(Num(30.0));
    SettledCellsLeaveGrid(h, g, ps, fuel);
    var vs := ResolveCellsSpec(h, g, ps, fuel).0;
    assert |vs| == 3;
    assert vs[0] == Num(10.0) && vs[1] == Num(20.0) && vs[2] == Num(30.0);
    assert vs == [Num(10.0), Num(20.0), Num(30.0)];
  }

  /** An argument list of one part yields exactly what that part yields. */
  lemma SingleArgument(h: Host, g: Grid, part: string, fuel: nat)
    ensures ArgumentsSpec(h, g, [part], fuel) == ArgumentSpec(h, g, part, fuel)
  {
    var (r, g1) := ArgumentSpec(h, g, part, fuel);
    if r.Ok? {
      assert [part][1..] == [];
      assert ArgumentsSpec(h, g1, [], fuel) == (Ok([]), g1);
      assert r.value + [] == r.value;
    }
  }

  /** "A1:A3" is the range text of A1 to A3 and splits into that one argument. */
  lemma SumRangeText()
    ensures PositionToAddress(1, 1) + ":" + PositionToAddress(3, 1) == "A1:A3"
    ensures SplitResult("A1:A3") == ["A1:A3"]
  {
    ColumnAAddress(1);
    ColumnAAddress(3);
    RangeText(Pos(1, 1), Pos(3, 1));
  }

  /** The argument "A1:A3" reads 10, 20 and 30 and leaves the worksheet as it was. */
  lemma SumArgumentRead(h: Host, fuel: nat)
    ensures ArgumentSpec(h, SumSheet(), "A1:A3", fuel) == (Ok([Num(10.0), Num(20.0), Num(30.0)]), SumSheet())
  {
    SumRangeText();
    RangeArgumentReadsRange(h, SumSheet(), Pos(1, 1), Pos(3, 1), fuel);
    SumRangeRead(h, fuel);
  }

  /** The one argument of "SUM(A1:A3)" reads 10, 20 and 30. */
  lemma SumArgumentsRead(h: Host, fuel: nat)
    ensures ArgumentsSpec(h, SumSheet(), SplitResult("A1:A3"), fuel) == (Ok([Num(10.0), Num(20.0), Num(30.0)]), SumSheet())
  {
    SumRangeText();
    SingleArgument(h, SumSheet(), "A1:A3", fuel);
    SumArgumentRead(h, fuel);
  }

  /** The body "SUM(A1:A3)" is a call of SUM on the one argument A1:A3, which sums to 60. */
  lemma SumCall(h: Host, fuel: nat)
    ensures ParseAndEvaluateSpec(h, SumSheet(), "SUM(A1:A3)", fuel) == (Ok(Num(60.0)), SumSheet())
  {
    var g := SumSheet();
    assert "SUM(A1:A3)" == "SUM" + "(" + "A1:A3" + ")";
    assert ParseAndEvaluateSpec(h, g, "SUM(A1:A3)", fuel) == EvaluateFunctionSpec(h, g, "SUM", "A1:A3", fuel) by {
      assert IsName("SUM");
      CallTakesFunctionPath(h, g, "SUM", "A1:A3", fuel);
    }
    assert EvaluateFunctionSpec(h, g, "SUM", "A1:A3", fuel) == (Ok(Num(60.0)), g) by {
      SumArgumentsRead(h, fuel);
      SumOfTestValues();
    }
  }

  /** "=SUM(A1:A3)" over 10, 20 and 30 evaluates to 60 with no error and leaves the worksheet as it was. */
  lemma SumOfRange(h: Host, fuel: nat)
    ensures EvaluateFormulaSpec(h, SumSheet(), "=" + "SUM(A1:A3)", fuel) == (Evaluation(Num(60.0), None), SumSheet())
  {
    SumCall(h, fuel);
    EvaluationReportsErrors(h, SumSheet(), "SUM(A1:A3)", fuel);
  }
}
