/**
 * What a worksheet cell holds, as the formula engine and the cursor see it: a JavaScript
 * scalar, or a formula record `{ formula, result? }`. The exceljs worksheet is a map from
 * positions to cells; a position that is not in the map holds an empty (null) value.
 */
module CellModel {
  import opened Text
  import opened ExcelHelper

  /** The JavaScript values a cell or a computation can produce. Numbers are exact reals. */
  datatype Value = Num(n: real) | Str(s: string) | Bool(b: bool) | Null | Undefined

  /** A literal value, or a formula record whose `result` is Undefined until it is cached. */
  datatype Cell = Lit(value: Value) | Formula(formula: string, result: Value)

  type Grid = map<Pos, Cell>

  /** `worksheet.getRow(row).getCell(col).value`: a cell never written is empty. */
  function Get(g: Grid, p: Pos): Cell
  {
    if p in g then g[p] else Lit(Null)
  }

  /** JavaScript truthiness (NaN is not a real, so every Num other than 0 is truthy). */
  predicate Truthy(v: Value)
  {
    match v
    case Num(n) => n != 0.0
    case Str(s) => s != ""
    case Bool(b) => b
    case Null => false
    case Undefined => false
  }

  /** `value || 0`: falsy values read as the number 0. */
  function OrZero(v: Value): (r: Value)
    ensures Truthy(v) ==> r == v
    ensures !Truthy(v) ==> r == Num(0.0)
    ensures Truthy(r) || r == Num(0.0)
  {
    if Truthy(v) then v else Num(0.0)
  }

  // ---------------------------------------------------------------- numerals

  function Pow10(k: nat): (r: nat)
    ensures r >= 1
  {
    if k == 0 then 1 else 10 * Pow10(k - 1)
  }

  /** Index of the first '.' in s, or |s| when there is none. */
  function DotIndex(s: string): (d: nat)
    ensures d <= |s| && (d < |s| ==> s[d] == '.')
    ensures forall i | 0 <= i < d :: s[i] != '.'
  {
    if s == [] then 0 else if s[0] == '.' then 0 else 1 + DotIndex(s[1..])
  }

  /** Decimal digits with at most one '.', and at least one digit. */
  predicate IsUnsignedNumeral(s: string)
  {
    var d := DotIndex(s);
    && AllDigits(s[..d])
    && (d < |s| ==> AllDigits(s[d + 1..]) && (d > 0 || d + 1 < |s|))
    && (d == |s| ==> d > 0)
  }

  function UnsignedNumeralValue(s: string): real
    requires IsUnsignedNumeral(s)
  {
    var d := DotIndex(s);
    DigitsValue(s[..d]) as real
    + (if d < |s| then DigitsValue(s[d + 1..]) as real / Pow10(|s| - d - 1) as real else 0.0)
  }

  /**
   * The strings this model treats as numeric: an optional sign and a decimal numeral.
   * It stands for `!isNaN(parseFloat(v)) && isFinite(v)` on strings; exponents,
   * surrounding white space, hexadecimal and "Infinity" are not modelled.
   */
  predicate IsNumeral(s: string)
  {
    |s| > 0 && (if s[0] == '+' || s[0] == '-' then IsUnsignedNumeral(s[1..]) else IsUnsignedNumeral(s))
  }

  /** `Number(s)` for a numeral. */
  function NumeralValue(s: string): real
    requires IsNumeral(s)
  {
    if s[0] == '-' then -UnsignedNumeralValue(s[1..])
    else if s[0] == '+' then UnsignedNumeralValue(s[1..])
    else UnsignedNumeralValue(s)
  }

  /** isNumeric: numbers, and numeral strings; booleans, null and undefined are not numeric. */
  predicate IsNumeric(v: Value)
  {
    match v
    case Num(_) => true
    case Str(s) => IsNumeral(s)
    case _ => false
  }

  /** `Number(v)` for a numeric value. */
  function ToNumber(v: Value): real
    requires IsNumeric(v)
  {
    match v
    case Num(n) => n
    case Str(s) => NumeralValue(s)
  }

  /** The decimal rendering of a natural number is a numeral that reads back as that number. */
  lemma NatNumeral(n: nat)
    ensures IsNumeral(NatToString(n)) && NumeralValue(NatToString(n)) == n as real
  {
    var s := NatToString(n);
    assert forall i | 0 <= i < |s| :: s[i] != '.';
    assert s[..|s|] == s;
  }

  // ---------------------------------------------------------------- ranges

  /** Whether a rectangle from s to e holds any cell: ranges are not normalised. */
  predicate NonEmptyRange(s: Pos, e: Pos)
  {
    s.row <= e.row && s.col <= e.col
  }

  /** The cells of row r from column c to column ec, left to right. */
  function RowCells(r: int, c: int, ec: int): (ps: seq<Pos>)
    ensures |ps| == if c <= ec then ec - c + 1 else 0
    ensures forall k | 0 <= k < |ps| :: ps[k] == Pos(r, c + k)
    decreases ec - c
  {
    if c > ec then [] else [Pos(r, c)] + RowCells(r, c + 1, ec)
  }

  /**
   * The positions of the rectangle from s to e, row by row and, within a row, column by
   * column, each ascending; nothing when the start lies after the end in either coordinate.
   * RangeCellsCount, RangeCellsMembers and RangeCellsAt state its size, its members and
   * where each cell sits.
   */
  function RangeCells(s: Pos, e: Pos): (ps: seq<Pos>)
    ensures !NonEmptyRange(s, e) ==> ps == []
    decreases e.row - s.row
  {
    if !NonEmptyRange(s, e) then [] else RowCells(s.row, s.col, e.col) + RangeCells(Pos(s.row + 1, s.col), e)
  }

  /** A rectangle holds height × width cells. */
  lemma {:induction false} RangeCellsCount(s: Pos, e: Pos)
    ensures NonEmptyRange(s, e) ==> |RangeCells(s, e)| == (e.row - s.row + 1) * (e.col - s.col + 1)
    decreases e.row - s.row
  {
    if NonEmptyRange(s, e) {
      var w := e.col - s.col + 1;
      var h := e.row - s.row + 1;
      var s' := Pos(s.row + 1, s.col);
      RangeCellsCount(s', e);
      if NonEmptyRange(s', e) {
        assert |RangeCells(s', e)| == (h - 1) * w;
      } else {
        assert h == 1;
      }
      MulStep(h, w);
    }
  }

  /** A rectangle holds exactly the positions between its corners. */
  lemma {:induction false} RangeCellsMembers(s: Pos, e: Pos)
    ensures forall p: Pos :: p in RangeCells(s, e) <==> s.row <= p.row <= e.row && s.col <= p.col <= e.col
    decreases e.row - s.row
  {
    if NonEmptyRange(s, e) {
      var row := RowCells(s.row, s.col, e.col);
      RangeCellsMembers(Pos(s.row + 1, s.col), e);
      assert forall p: Pos :: p in row <==> p.row == s.row && s.col <= p.col <= e.col by {
        forall p: Pos | p.row == s.row && s.col <= p.col <= e.col
          ensures p in row
        {
          assert row[p.col - s.col] == p;
        }
      }
    }
  }

  /** A rectangle is its first row followed by the rectangle of the rows below it. */
  lemma RangeCellsUnfold(s: Pos, e: Pos)
    requires s.row <= e.row
    ensures RangeCells(s, e) == RowCells(s.row, s.col, e.col) + RangeCells(Pos(s.row + 1, s.col), e)
  {
  }

  lemma MulStep(i: int, w: int)
    requires i >= 1 && w >= 1
    ensures i * w == (i - 1) * w + w && (i - 1) * w >= 0
  {
  }

  /** Cell (i, j) of the rectangle sits at index i * width + j: row-major order. */
  lemma {:induction false} RangeCellsAt(s: Pos, e: Pos, w: int, i: int, j: int)
    requires NonEmptyRange(s, e) && w == e.col - s.col + 1
    requires 0 <= i <= e.row - s.row && 0 <= j < w
    ensures 0 <= i * w + j < |RangeCells(s, e)|
    ensures RangeCells(s, e)[i * w + j] == Pos(s.row + i, s.col + j)
    decreases i
  {
    var row := RowCells(s.row, s.col, e.col);
    var s' := Pos(s.row + 1, s.col);
    var rest := RangeCells(s', e);
    assert RangeCells(s, e) == row + rest;
    if i == 0 {
      assert i * w + j == j;
      assert (row + rest)[j] == row[j] == Pos(s.row, s.col + j);
    } else {
      var k := (i - 1) * w + j;
      assert i * w + j == w + k && 0 <= k by {
        MulStep(i, w);
      }
      assert k < |rest| && rest[k] == Pos(s.row + i, s.col + j) by {
        RangeCellsAt(s', e, w, i - 1, j);
      }
      assert (row + rest)[w + k] == rest[k];
    }
  }

  /** No position occurs twice in a range. */
  lemma {:induction false} RangeCellsDistinct(s: Pos, e: Pos)
    ensures forall k, k' | 0 <= k < k' < |RangeCells(s, e)| :: RangeCells(s, e)[k] != RangeCells(s, e)[k']
    decreases e.row - s.row
  {
    if NonEmptyRange(s, e) {
      var row := RowCells(s.row, s.col, e.col);
      var s' := Pos(s.row + 1, s.col);
      var rest := RangeCells(s', e);
      RangeCellsDistinct(s', e);
      RangeCellsMembers(s', e);
      var ps := RangeCells(s, e);
      assert ps == row + rest;
      forall k, k' | 0 <= k < k' < |ps|
        ensures ps[k] != ps[k']
      {
        if k' >= |row| && k < |row| {
          assert ps[k'] in rest;
        }
      }
    }
  }
}
