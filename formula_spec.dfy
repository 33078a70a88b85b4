/**
 * The formula engine of src/utils/formula-engine.ts as functions that pass the worksheet
 * along. Each function returns what its method returns (a thrown Error becomes Err) and
 * the worksheet as the method leaves it: the only change evaluation makes is to write the
 * result of a formula cell that had none (memoise on read).
 *
 * The source has no guard against circular references; it ends only when the call stack
 * overflows and getCellValue's catch turns that into 0. Here every nested formula
 * evaluation costs one unit of `fuel`, and an uncached formula cell read with no fuel left
 * reads as 0 and is not written.
 */
module FormulaSpec {
  import opened Common
  import opened Text
  import opened ExcelHelper
  import opened CellModel
  import opened FormulaText
  import opened Aggregates

  /**
   * What the engine takes from the JavaScript runtime: `new Function('return ' + text)()`
   * on the sanitised text (None when it throws) and `Number.prototype.toString`.
   */
  datatype Host = Host(arith: string -> Option<Value>, show: real -> string)

  /** evaluateFormula's `{ result, error }`; error None stands for `error: null`. */
  datatype Evaluation = Evaluation(result: Value, error: Option<string>)

  /** A formula cell whose result has not been computed yet. */
  predicate IsUncached(c: Cell)
  {
    c.Formula? && c.result == Undefined
  }

  /** What reading a cell that needs no evaluation yields: the literal or the cached result. */
  function SettledValue(c: Cell): Value
    requires !IsUncached(c)
  {
    match c
    case Lit(v) => OrZero(v)
    case Formula(_, r) => r
  }

  /**
   * The only change evaluation makes to a worksheet: no cell appears or disappears, and a
   * cell changes only when it was an uncached formula, which keeps its formula text.
   */
  predicate CacheExtends(g: Grid, g': Grid)
  {
    && g'.Keys == g.Keys
    && forall p | p in g :: g'[p] == g[p] || (IsUncached(g[p]) && g'[p].Formula? && g'[p].formula == g[p].formula)
  }

  lemma CacheExtendsTrans(g1: Grid, g2: Grid, g3: Grid)
    requires CacheExtends(g1, g2) && CacheExtends(g2, g3)
    ensures CacheExtends(g1, g3)
  {
    forall p | p in g1
      ensures g3[p] == g1[p] || (IsUncached(g1[p]) && g3[p].Formula? && g3[p].formula == g1[p].formula)
    {
      assert p in g2;
    }
  }

  /** Writing a result into the cell of an uncached formula keeps the cache relation. */
  lemma CacheExtendsWrite(g: Grid, g1: Grid, p: Pos, v: Value)
    requires CacheExtends(g, g1) && p in g && IsUncached(g[p])
    ensures CacheExtends(g, g1[p := Formula(g[p].formula, v)])
  {
  }

  /** A cell that needs no evaluation reads the same after any cache extension. */
  lemma CacheExtendsKeepsSettled(g: Grid, g1: Grid, q: Pos)
    requires CacheExtends(g, g1) && !IsUncached(Get(g, q))
    ensures Get(g1, q) == Get(g, q)
  {
  }

  /** safeMathEval: the sanitised text goes to the host's evaluator; a throw becomes this error. */
  function SafeMathEval(h: Host, expression: string): (r: Result<Value>)
    ensures r.Err? ==> r.message == "Invalid mathematical expression: " + expression
    ensures r.Ok? <==> h.arith(Sanitise(expression)).Some?
  {
    match h.arith(Sanitise(expression))
    case Some(v) => Ok(v)
    case None => Err("Invalid mathematical expression: " + expression)
  }

  /** The results of `ps` read as `value || 0`, put in front of those already gathered. */
  function PrependValues(vs: seq<Value>, out: (Result<seq<Value>>, Grid)): (Result<seq<Value>>, Grid)
  {
    (if out.0.Ok? then Ok(vs + out.0.value) else out.0, out.1)
  }

  /** evaluateFormula: strip one '=', evaluate, and turn a thrown error into `{ result: null, error }`. */
  function EvaluateFormulaSpec(h: Host, g: Grid, formula: string, fuel: nat): (out: (Evaluation, Grid))
    ensures CacheExtends(g, out.1)
    ensures out.0.error.Some? ==> out.0.result == Null
    decreases fuel, 7, 0
  {
    var (r, g1) := ParseAndEvaluateSpec(h, g, StripEquals(formula), fuel);
    (if r.Ok? then Evaluation(r.value, None) else Evaluation(Null, Some(r.message)), g1)
  }

  /** parseAndEvaluate: a whole-body call goes to evaluateFunction, anything else to evaluateExpression. */
  function ParseAndEvaluateSpec(h: Host, g: Grid, body: string, fuel: nat): (out: (Result<Value>, Grid))
    ensures CacheExtends(g, out.1)
    decreases fuel, 6, 0
  {
    match MatchCall(body)
    case Some((name, args)) => EvaluateFunctionSpec(h, g, name, args, fuel)
    case None => EvaluateExpressionSpec(h, g, body, fuel)
  }

  /** evaluateFunction: the arguments are resolved first, then the aggregate is chosen by name. */
  function EvaluateFunctionSpec(h: Host, g: Grid, name: string, args: string, fuel: nat): (out: (Result<Value>, Grid))
    ensures CacheExtends(g, out.1)
    decreases fuel, 5, 0
  {
    var (r, g1) := ArgumentsSpec(h, g, SplitResult(args), fuel);
    if r.Err? then (Err(r.message), g1) else (Aggregate(name, r.value), g1)
  }

  /** parseArguments over the split parts: each part's values, in order; the first error ends it. */
  function ArgumentsSpec(h: Host, g: Grid, parts: seq<string>, fuel: nat): (out: (Result<seq<Value>>, Grid))
    ensures CacheExtends(g, out.1)
    decreases fuel, 4, |parts|
  {
    if parts == [] then (Ok([]), g)
    else
      var (r, g1) := ArgumentSpec(h, g, parts[0], fuel);
      if r.Err? then (Err(r.message), g1)
      else
        var out := ArgumentsSpec(h, g1, parts[1..], fuel);
        CacheExtendsTrans(g, g1, out.1);
        PrependValues(r.value, out)
  }

  /** One argument: a range when it holds ':', then a cell reference, else a literal. */
  function ArgumentSpec(h: Host, g: Grid, arg: string, fuel: nat): (out: (Result<seq<Value>>, Grid))
    ensures CacheExtends(g, out.1)
    decreases fuel, 3, 0
  {
    var t := Trim(arg);
    if ':' in t then RangeValuesSpec(h, g, t, fuel)
    else if IsCellReference(t) then
      var (v, g1) := CellValueSpec(h, g, t, fuel);
      (Ok([v]), g1)
    else (Ok([ParseLiteral(t)]), g)
  }

  /**
   * getRangeValues: both ends are parsed (a bad end throws), then every cell of the
   * rectangle is read row by row, each read as `value || 0`.
   */
  function RangeValuesSpec(h: Host, g: Grid, range: string, fuel: nat): (out: (Result<seq<Value>>, Grid))
    requires ':' in range
    ensures CacheExtends(g, out.1)
    decreases fuel, 2, 0
  {
    var (s, e) := SplitRange(range);
    match ParseAddress(Trim(s))
    case Err(m) => (Err(m), g)
    case Ok(sp) =>
      match ParseAddress(Trim(e))
      case Err(m) => (Err(m), g)
      case Ok(ep) =>
        var (vs, g1) := ResolveCellsSpec(h, g, RangeCells(sp, ep), fuel);
        (Ok(vs), g1)
  }

  /** getCellValue: an address that does not parse reads as 0. */
  function CellValueSpec(h: Host, g: Grid, address: string, fuel: nat): (out: (Value, Grid))
    ensures CacheExtends(g, out.1)
    decreases fuel, 2, 0
  {
    match ParseAddress(address)
    case Err(_) => (Num(0.0), g)
    case Ok(p) => ReadCellSpec(h, g, p, fuel)
  }

  /** The cells at ps, in order, each read as `value || 0`. */
  function ResolveCellsSpec(h: Host, g: Grid, ps: seq<Pos>, fuel: nat): (out: (seq<Value>, Grid))
    ensures CacheExtends(g, out.1)
    ensures |out.0| == |ps|
    ensures forall k | 0 <= k < |ps| && !IsUncached(Get(g, ps[k])) :: out.0[k] == OrZero(SettledValue(Get(g, ps[k])))
    decreases fuel, 1, |ps|
  {
    if ps == [] then ([], g)
    else
      var (v, g1) := ReadCellSpec(h, g, ps[0], fuel);
      var (rest, g2) := ResolveCellsSpec(h, g1, ps[1..], fuel);
      CacheExtendsTrans(g, g1, g2);
      assert forall k | 1 <= k < |ps| && !IsUncached(Get(g, ps[k])) :: Get(g1, ps[k]) == Get(g, ps[k]) by {
        forall k | 1 <= k < |ps| && !IsUncached(Get(g, ps[k])) {
          CacheExtendsKeepsSettled(g, g1, ps[k]);
        }
      }
      ([OrZero(v)] + rest, g2)
  }

  /**
   * The read shared by getCellValue and getRangeValues: a literal reads as `value || 0`, a
   * cached formula as its result; an uncached formula is evaluated and, on success only,
   * its result is written into the cell; a formula with empty text, one that fails, and
   * one read with no fuel left read as 0.
   */
  function ReadCellSpec(h: Host, g: Grid, p: Pos, fuel: nat): (out: (Value, Grid))
    ensures CacheExtends(g, out.1)
    ensures !IsUncached(Get(g, p)) ==> out == (SettledValue(Get(g, p)), g)
    decreases fuel, 0, 0
  {
    match Get(g, p)
    case Lit(v) => (OrZero(v), g)
    case Formula(f, r) =>
      if r != Undefined then (r, g)
      else if f == "" || fuel == 0 then (Num(0.0), g)
      else
        var (e, g1) := EvaluateFormulaSpec(h, g, f, fuel - 1);
        if e.error.None? then
          CacheExtendsWrite(g, g1, p, e.result);
          (e.result, g1[p := Formula(f, e.result)])
        else
          (Num(0.0), g1)
  }

  /** evaluateExpression: substitute every reference token, then hand the text to safeMathEval. */
  function EvaluateExpressionSpec(h: Host, g: Grid, expression: string, fuel: nat): (out: (Result<Value>, Grid))
    ensures CacheExtends(g, out.1)
    decreases fuel, 5, 0
  {
    var (processed, g1) := SubstituteSpec(h, g, expression, ReferenceTokens(expression), fuel);
    (SafeMathEval(h, processed), g1)
  }

  /**
   * The substitution loop: each token's cell value (0 when not numeric), rendered by the
   * host, replaces the first remaining occurrence of the token.
   */
  function SubstituteSpec(h: Host, g: Grid, processed: string, tokens: seq<string>, fuel: nat): (out: (string, Grid))
    ensures CacheExtends(g, out.1)
    decreases fuel, 4, |tokens|
  {
    if tokens == [] then (processed, g)
    else
      var (v, g1) := CellValueSpec(h, g, tokens[0], fuel);
      var n := if IsNumeric(v) then ToNumber(v) else 0.0;
      var out := SubstituteSpec(h, g1, ReplaceFirst(processed, tokens[0], h.show(n)), tokens[1..], fuel);
      CacheExtendsTrans(g, g1, out.1);
      out
  }
}
