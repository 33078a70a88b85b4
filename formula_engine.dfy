/**
 * class FormulaEngine (src/utils/formula-engine.ts:7-255): the worksheet it holds is
 * updated in place when a formula result is cached. Every method is proved to return
 * what the matching function of FormulaSpec returns and to leave the worksheet as that
 * function does.
 */
module FormulaEngineClass {
  import opened Common
  import opened Text
  import opened ExcelHelper
  import opened CellModel
  import opened FormulaText
  import opened Aggregates
  import opened FormulaSpec

  /** Values gathered so far, in front of those of the cells still to read. */
  function PrependCells(vs: seq<Value>, out: (seq<Value>, Grid)): (seq<Value>, Grid)
  {
    (vs + out.0, out.1)
  }

  /** Reading a non-empty list of cells reads the first, then the others on the worksheet it leaves. */
  lemma ResolveCellsStep(h: Host, g: Grid, ps: seq<Pos>, fuel: nat)
    requires ps != []
    ensures ResolveCellsSpec(h, g, ps, fuel) ==
      var (v, g1) := ReadCellSpec(h, g, ps[0], fuel);
      PrependCells([OrZero(v)], ResolveCellsSpec(h, g1, ps[1..], fuel))
  {
  }

  /** Reading a + b reads the cells of a, then those of b on the worksheet a leaves. */
  lemma {:induction false} ResolveCellsAppend(h: Host, g: Grid, a: seq<Pos>, b: seq<Pos>, fuel: nat)
    ensures ResolveCellsSpec(h, g, a + b, fuel) ==
      var (va, g1) := ResolveCellsSpec(h, g, a, fuel);
      PrependCells(va, ResolveCellsSpec(h, g1, b, fuel))
    decreases |a|
  {
    if a == [] {
      assert a + b == b;
      PrependCellsNothing(ResolveCellsSpec(h, g, b, fuel));
    } else {
      assert (a + b)[0] == a[0] && (a + b)[1..] == a[1..] + b;
      ResolveCellsStep(h, g, a + b, fuel);
      ResolveCellsStep(h, g, a, fuel);
      var (v, g1) := ReadCellSpec(h, g, a[0], fuel);
      ResolveCellsAppend(h, g1, a[1..], b, fuel);
      var (va', g2) := ResolveCellsSpec(h, g1, a[1..], fuel);
      PrependCellsAssoc([OrZero(v)], va', ResolveCellsSpec(h, g2, b, fuel));
    }
  }

  /** Once no cells are left, the values gathered are the result and the worksheet stays. */
  lemma PrependCellsDone(h: Host, g: Grid, vs: seq<Value>, ps: seq<Pos>, fuel: nat)
    requires ps == []
    ensures PrependCells(vs, ResolveCellsSpec(h, g, ps, fuel)) == (vs, g)
  {
    assert vs + [] == vs;
  }

  lemma PrependCellsNothing(out: (seq<Value>, Grid))
    ensures PrependCells([], out) == out
  {
    assert [] + out.0 == out.0;
  }

  lemma PrependValuesNothing(out: (Result<seq<Value>>, Grid))
    ensures PrependValues([], out) == out
  {
    if out.0.Ok? {
      assert [] + out.0.value == out.0.value;
    }
  }

  lemma PrependCellsAssoc(a: seq<Value>, b: seq<Value>, out: (seq<Value>, Grid))
    ensures PrependCells(a, PrependCells(b, out)) == PrependCells(a + b, out)
  {
    assert a + (b + out.0) == (a + b) + out.0;
  }

  lemma PrependValuesAssoc(a: seq<Value>, b: seq<Value>, out: (Result<seq<Value>>, Grid))
    ensures PrependValues(a, PrependValues(b, out)) == PrependValues(a + b, out)
  {
    if out.0.Ok? {
      assert a + (b + out.0.value) == (a + b) + out.0.value;
    }
  }

  /**
   * One step of parseArguments' loop: part i yields r on worksheet g1; an error ends the
   * whole call with that error, otherwise r's values join those gathered.
   */
  lemma ArgumentsStep(h: Host, g: Grid, g1: Grid, parts: seq<string>, i: nat, values: seq<Value>,
                      r: Result<seq<Value>>, target: (Result<seq<Value>>, Grid), fuel: nat)
    requires i < |parts|
    requires target == PrependValues(values, ArgumentsSpec(h, g, parts[i..], fuel))
    requires (r, g1) == ArgumentSpec(h, g, parts[i], fuel)
    ensures r.Err? ==> target == (Err(r.message), g1)
    ensures r.Ok? ==> target == PrependValues(values + r.value, ArgumentsSpec(h, g1, parts[i + 1..], fuel))
  {
    assert parts[i..][0] == parts[i] && parts[i..][1..] == parts[i + 1..];
    if r.Ok? {
      PrependValuesAssoc(values, r.value, ArgumentsSpec(h, g1, parts[i + 1..], fuel));
    }
  }

  /** Once every part is read, the values gathered are the result. */
  lemma ArgumentsDone(h: Host, g: Grid, parts: seq<string>, values: seq<Value>, fuel: nat)
    ensures PrependValues(values, ArgumentsSpec(h, g, parts[|parts|..], fuel)) == (Ok(values), g)
  {
    assert parts[|parts|..] == [];
    assert values + [] == values;
  }

  class FormulaEngine {
    /** The worksheet the engine reads and whose formula results it caches. */
    var cells: Grid
    const host: Host

    constructor (worksheet: Grid, host: Host)
      ensures cells == worksheet && this.host == host
    {
      cells := worksheet;
      this.host := host;
    }

    /** evaluateFormula (formula-engine.ts:19-30). */
    method EvaluateFormula(formula: string, fuel: nat) returns (e: Evaluation)
      modifies this
      ensures (e, cells) == EvaluateFormulaSpec(host, old(cells), formula, fuel)
      decreases fuel, 8
    {
      var cleanFormula := StripEquals(formula);
      var r := ParseAndEvaluate(cleanFormula, fuel);
      if r.Ok? {
        e := Evaluation(r.value, None);
      } else {
        e := Evaluation(Null, Some(r.message));
      }
    }

    /** parseAndEvaluate (formula-engine.ts:32-42); a thrown Error is an Err result. */
    method ParseAndEvaluate(formula: string, fuel: nat) returns (r: Result<Value>)
      modifies this
      ensures (r, cells) == ParseAndEvaluateSpec(host, old(cells), formula, fuel)
      decreases fuel, 7
    {
      var functionMatch := MatchCall(formula);
      if functionMatch.Some? {
        r := EvaluateFunction(functionMatch.value.0, functionMatch.value.1, fuel);
      } else {
        r := EvaluateExpression(formula, fuel);
      }
    }

    /** evaluateFunction (formula-engine.ts:44-74). */
    method EvaluateFunction(functionName: string, args: string, fuel: nat) returns (r: Result<Value>)
      modifies this
      ensures (r, cells) == EvaluateFunctionSpec(host, old(cells), functionName, args, fuel)
      decreases fuel, 6
    {
      var values := ParseArguments(args, fuel);
      if values.Err? {
        r := Err(values.message);
      } else {
        r := Aggregate(functionName, values.value);
      }
    }

    /** parseArguments (formula-engine.ts:76-98): the loop pushing each argument's values. */
    method ParseArguments(args: string, fuel: nat) returns (r: Result<seq<Value>>)
      modifies this
      ensures (r, cells) == ArgumentsSpec(host, old(cells), SplitResult(args), fuel)
      decreases fuel, 5
    {
      var argParts := SplitArguments(args);
      var values: seq<Value> := [];
      ghost var target := ArgumentsSpec(host, cells, argParts, fuel);
      PrependValuesNothing(target);
      for i := 0 to |argParts|
        invariant target == PrependValues(values, ArgumentsSpec(host, cells, argParts[i..], fuel))
      {
        ghost var g := cells;
        var argValues := ParseArgument(argParts[i], fuel);
        ArgumentsStep(host, g, cells, argParts, i, values, argValues, target, fuel);
        if argValues.Err? {
          return Err(argValues.message);
        }
        values := values + argValues.value;
      }
      ArgumentsDone(host, cells, argParts, values, fuel);
      r := Ok(values);
    }

    /** The body of parseArguments' loop (formula-engine.ts:81-95): one argument's values. */
    method ParseArgument(arg: string, fuel: nat) returns (r: Result<seq<Value>>)
      modifies this
      ensures (r, cells) == ArgumentSpec(host, old(cells), arg, fuel)
      decreases fuel, 4
    {
      var trimmedArg := Trim(arg);
      if ':' in trimmedArg {
        r := GetRangeValues(trimmedArg, fuel);
      } else if IsCellReference(trimmedArg) {
        var v := GetCellValue(trimmedArg, fuel);
        r := Ok([v]);
      } else {
        r := Ok([ParseLiteral(trimmedArg)]);
      }
    }

    /** evaluateExpression (formula-engine.ts:126-139) with safeMathEval (:141-151). */
    method EvaluateExpression(expression: string, fuel: nat) returns (r: Result<Value>)
      modifies this
      ensures (r, cells) == EvaluateExpressionSpec(host, old(cells), expression, fuel)
      decreases fuel, 6
    {
      var processedExpression := expression;
      var cellReferences := ReferenceTokens(expression);
      for i := 0 to |cellReferences|
        invariant SubstituteSpec(host, old(cells), expression, cellReferences, fuel)
          == SubstituteSpec(host, cells, processedExpression, cellReferences[i..], fuel)
      {
        var cellRef := cellReferences[i];
        assert cellReferences[i..][0] == cellRef && cellReferences[i..][1..] == cellReferences[i + 1..];
        var cellValue := GetCellValue(cellRef, fuel);
        var numericValue := if IsNumeric(cellValue) then ToNumber(cellValue) else 0.0;
        processedExpression := ReplaceFirst(processedExpression, cellRef, host.show(numericValue));
      }
      r := SafeMathEval(host, processedExpression);
    }

    /** getCellValue (formula-engine.ts:153-186): an address that does not parse reads as 0. */
    method GetCellValue(cellAddress: string, fuel: nat) returns (v: Value)
      modifies this
      ensures (v, cells) == CellValueSpec(host, old(cells), cellAddress, fuel)
      decreases fuel, 3
    {
      var position := ParseAddress(cellAddress);
      if position.Err? {
        return Num(0.0);
      }
      v := ReadCell(position.value, fuel);
    }

    /**
     * getRangeValues (formula-engine.ts:188-232): both ends are parsed, and a bad one
     * throws, then the rectangle is read by ReadRange.
     */
    method GetRangeValues(range: string, fuel: nat) returns (r: Result<seq<Value>>)
      requires ':' in range
      modifies this
      ensures (r, cells) == RangeValuesSpec(host, old(cells), range, fuel)
      decreases fuel, 3
    {
      var (startCell, endCell) := SplitRange(range);
      var startPos := ParseAddress(Trim(startCell));
      if startPos.Err? {
        return Err(startPos.message);
      }
      var endPos := ParseAddress(Trim(endCell));
      if endPos.Err? {
        return Err(endPos.message);
      }
      var values := ReadRange(startPos.value, endPos.value, fuel);
      r := Ok(values);
    }

    /**
     * The row loop of getRangeValues (formula-engine.ts:197-226): the cells from s to e,
     * row by row, each read as `value || 0`.
     */
    method ReadRange(s: Pos, e: Pos, fuel: nat) returns (values: seq<Value>)
      modifies this
      ensures (values, cells) == ResolveCellsSpec(host, old(cells), RangeCells(s, e), fuel)
      decreases fuel, 2
    {
      values := [];
      ghost var target := ResolveCellsSpec(host, cells, RangeCells(s, e), fuel);
      PrependCellsNothing(target);
      var row := s.row;
      while row <= e.row
        invariant target == PrependCells(values, ResolveCellsSpec(host, cells, RangeCells(Pos(row, s.col), e), fuel))
        decreases e.row + 1 - row
      {
        RangeCellsUnfold(Pos(row, s.col), e);
        ResolveCellsAppend(host, cells, RowCells(row, s.col, e.col), RangeCells(Pos(row + 1, s.col), e), fuel);
        var rowValues := ReadRow(row, s.col, e.col, fuel);
        PrependCellsAssoc(values, rowValues, ResolveCellsSpec(host, cells, RangeCells(Pos(row + 1, s.col), e), fuel));
        values := values + rowValues;
        row := row + 1;
      }
      PrependCellsDone(host, cells, values, RangeCells(Pos(row, s.col), e), fuel);
    }

    /** The column loop of getRangeValues (formula-engine.ts:198-225): row `row` from column c to ec. */
    method ReadRow(row: int, c: int, ec: int, fuel: nat) returns (values: seq<Value>)
      modifies this
      ensures (values, cells) == ResolveCellsSpec(host, old(cells), RowCells(row, c, ec), fuel)
      decreases fuel, 1
    {
      values := [];
      ghost var target := ResolveCellsSpec(host, cells, RowCells(row, c, ec), fuel);
      PrependCellsNothing(target);
      var col := c;
      while col <= ec
        invariant target == PrependCells(values, ResolveCellsSpec(host, cells, RowCells(row, col, ec), fuel))
        decreases ec + 1 - col
      {
        ghost var g := cells;
        assert RowCells(row, col, ec) == [Pos(row, col)] + RowCells(row, col + 1, ec);
        ResolveCellsStep(host, g, RowCells(row, col, ec), fuel);
        var value := ReadCell(Pos(row, col), fuel);
        PrependCellsAssoc(values, [OrZero(value)], ResolveCellsSpec(host, cells, RowCells(row, col + 1, ec), fuel));
        values := values + [OrZero(value)];
        col := col + 1;
      }
      PrependCellsDone(host, cells, values, RowCells(row, col, ec), fuel);
    }

    /**
     * The read of one cell that getCellValue (formula-engine.ts:156-182) and the loop body
     * of getRangeValues (:197-224) share; getRangeValues applies `|| 0` to what it returns.
     */
    method ReadCell(p: Pos, fuel: nat) returns (v: Value)
      modifies this
      ensures (v, cells) == ReadCellSpec(host, old(cells), p, fuel)
      decreases fuel, 0
    {
      match Get(cells, p)
      case Lit(x) =>
        v := OrZero(x);
      case Formula(formula, result) =>
        if result != Undefined {
          v := result;
        } else if formula == "" || fuel == 0 {
          v := Num(0.0);
        } else {
          var calculation := EvaluateFormula(formula, fuel - 1);
          if calculation.error.None? {
            cells := cells[p := Formula(formula, calculation.result)];
            v := calculation.result;
          } else {
            v := Num(0.0);
          }
        }
    }
  }
}
