/**
 * class ExcelCursor (src/core/ExcelCursor.ts:15-514): a cursor over a workbook. The
 * workbook is a map from sheet names to worksheets, the cursor works on one of them, and
 * it tracks its position and the largest row and column written so far. The private
 * address codec of the class (ExcelCursor.ts:62-104) is the one of ExcelHelper.
 */
module ExcelCursorClass {
  import opened Common
  import opened Text
  import opened ExcelHelper
  import opened CellModel
  import opened FormulaText

  /** The position `dr` rows and `dc` columns away from p. */
  function Shift(p: Pos, dr: int, dc: int): Pos
  {
    Pos(p.row + dr, p.col + dc)
  }

  /** Whether q lies in the rectangle from s to e. */
  predicate InRect(q: Pos, s: Pos, e: Pos)
  {
    s.row <= q.row <= e.row && s.col <= q.col <= e.col
  }

  /**
   * The copy loop of copyRange: the cells of ps, in order, are each copied to the cell
   * `dr` rows and `dc` columns away, reading the worksheet as the earlier copies left it.
   */
  function CopyCells(g: Grid, ps: seq<Pos>, dr: int, dc: int): Grid
    decreases |ps|
  {
    if ps == [] then g
    else CopyCells(g[Shift(ps[0], dr, dc) := Get(g, ps[0])], ps[1..], dr, dc)
  }

  /** A cell that no copy writes to keeps its content. */
  lemma {:induction false} CopyCellsElsewhere(g: Grid, ps: seq<Pos>, dr: int, dc: int, q: Pos)
    requires forall k | 0 <= k < |ps| :: Shift(ps[k], dr, dc) != q
    ensures Get(CopyCells(g, ps, dr, dc), q) == Get(g, q)
    decreases |ps|
  {
    if ps != [] {
      var g1 := g[Shift(ps[0], dr, dc) := Get(g, ps[0])];
      assert Shift(ps[0], dr, dc) != q;
      forall k | 0 <= k < |ps[1..]|
        ensures Shift(ps[1..][k], dr, dc) != q
      {
        assert ps[1..][k] == ps[k + 1];
      }
      CopyCellsElsewhere(g1, ps[1..], dr, dc, q);
    }
  }

  /**
   * When no cell of ps is the target of another copy and no position occurs twice, every
   * target receives what its source held before the copy began.
   */
  lemma {:induction false} CopyCellsDisjoint(g: Grid, ps: seq<Pos>, dr: int, dc: int)
    requires forall k, k' | 0 <= k < k' < |ps| :: ps[k] != ps[k']
    requires forall k, k' | 0 <= k < |ps| && 0 <= k' < |ps| :: Shift(ps[k], dr, dc) != ps[k']
    ensures forall k | 0 <= k < |ps| :: Get(CopyCells(g, ps, dr, dc), Shift(ps[k], dr, dc)) == Get(g, ps[k])
    decreases |ps|
  {
    if ps != [] {
      var t := Shift(ps[0], dr, dc);
      var g1 := g[t := Get(g, ps[0])];
      var rest := ps[1..];
      assert forall k | 0 <= k < |rest| :: rest[k] == ps[k + 1];
      CopyCellsDisjoint(g1, rest, dr, dc);
      forall k | 0 <= k < |ps|
        ensures Get(CopyCells(g, ps, dr, dc), Shift(ps[k], dr, dc)) == Get(g, ps[k])
      {
        if k == 0 {
          forall j | 0 <= j < |rest|
            ensures Shift(rest[j], dr, dc) != t
          {
            assert rest[j] == ps[j + 1] != ps[0];
          }
          CopyCellsElsewhere(g1, rest, dr, dc, t);
        } else {
          assert ps[k] == rest[k - 1];
          assert ps[k] != t;
        }
      }
    }
  }

  /** Copying a + b copies the cells of a, then those of b on the worksheet a leaves. */
  lemma {:induction false} CopyCellsAppend(g: Grid, a: seq<Pos>, b: seq<Pos>, dr: int, dc: int)
    ensures CopyCells(g, a + b, dr, dc) == CopyCells(CopyCells(g, a, dr, dc), b, dr, dc)
    decreases |a|
  {
    if a == [] {
      assert a + b == b;
    } else {
      assert (a + b)[0] == a[0] && (a + b)[1..] == a[1..] + b;
      CopyCellsAppend(g[Shift(a[0], dr, dc) := Get(g, a[0])], a[1..], b, dr, dc);
    }
  }

  /** Copying a rectangle copies its first row, then the rows below it. */
  lemma CopyRowsStep(g: Grid, s: Pos, e: Pos, row: int, dr: int, dc: int)
    requires row <= e.row
    ensures CopyCells(g, RangeCells(Pos(row, s.col), e), dr, dc)
      == CopyCells(CopyCells(g, RowCells(row, s.col, e.col), dr, dc), RangeCells(Pos(row + 1, s.col), e), dr, dc)
  {
    RangeCellsUnfold(Pos(row, s.col), e);
    CopyCellsAppend(g, RowCells(row, s.col, e.col), RangeCells(Pos(row + 1, s.col), e), dr, dc);
  }

  /** The copies of a row start with its first column. */
  lemma CopyColumnStep(g: Grid, row: int, col: int, ec: int, dr: int, dc: int)
    requires col <= ec
    ensures CopyCells(g, RowCells(row, col, ec), dr, dc)
      == CopyCells(g[Pos(row + dr, col + dc) := Get(g, Pos(row, col))], RowCells(row, col + 1, ec), dr, dc)
  {
    var ps := RowCells(row, col, ec);
    assert ps[0] == Pos(row, col) && ps[1..] == RowCells(row, col + 1, ec);
  }

  /** Past the end nothing is left to copy. */
  lemma CopyNothing(g: Grid, ps: seq<Pos>, dr: int, dc: int)
    requires ps == []
    ensures CopyCells(g, ps, dr, dc) == g
  {
  }

  /** A copy of the rectangle s..e leaves every cell outside the target rectangle as it was. */
  lemma CopyRangeOutside(g: Grid, s: Pos, e: Pos, dr: int, dc: int, q: Pos)
    requires !InRect(q, Shift(s, dr, dc), Shift(e, dr, dc))
    ensures Get(CopyCells(g, RangeCells(s, e), dr, dc), q) == Get(g, q)
  {
    var ps := RangeCells(s, e);
    RangeCellsMembers(s, e);
    forall k | 0 <= k < |ps|
      ensures Shift(ps[k], dr, dc) != q
    {
      assert ps[k] in ps;
    }
    CopyCellsElsewhere(g, ps, dr, dc, q);
  }

  /** Without overlap, every target cell of the copy of s..e receives its source's prior content. */
  lemma CopyRangeApart(g: Grid, s: Pos, e: Pos, dr: int, dc: int)
    requires forall p | InRect(p, s, e) :: !InRect(Shift(p, dr, dc), s, e)
    ensures forall p | InRect(p, s, e) :: Get(CopyCells(g, RangeCells(s, e), dr, dc), Shift(p, dr, dc)) == Get(g, p)
  {
    var ps := RangeCells(s, e);
    RangeCellsMembers(s, e);
    RangeCellsDistinct(s, e);
    forall k, k' | 0 <= k < |ps| && 0 <= k' < |ps|
      ensures Shift(ps[k], dr, dc) != ps[k']
    {
      assert ps[k] in ps && ps[k'] in ps;
    }
    CopyCellsDisjoint(g, ps, dr, dc);
    forall p | InRect(p, s, e)
      ensures Get(CopyCells(g, ps, dr, dc), Shift(p, dr, dc)) == Get(g, p)
    {
      assert p in ps;
      var k :| 0 <= k < |ps| && ps[k] == p;
    }
  }

  /**
   * copyRange from the rectangle s..e: every cell outside the target rectangle keeps its
   * content; when the target does not overlap the source, every target cell receives the
   * prior content of its source cell.
   */
  lemma CopyRangeEffect(g: Grid, s: Pos, e: Pos, dr: int, dc: int)
    ensures forall q | !InRect(q, Shift(s, dr, dc), Shift(e, dr, dc)) ::
      Get(CopyCells(g, RangeCells(s, e), dr, dc), q) == Get(g, q)
    ensures (forall p | InRect(p, s, e) :: !InRect(Shift(p, dr, dc), s, e)) ==>
      forall p | InRect(p, s, e) :: Get(CopyCells(g, RangeCells(s, e), dr, dc), Shift(p, dr, dc)) == Get(g, p)
  {
    forall q | !InRect(q, Shift(s, dr, dc), Shift(e, dr, dc))
      ensures Get(CopyCells(g, RangeCells(s, e), dr, dc), q) == Get(g, q)
    {
      CopyRangeOutside(g, s, e, dr, dc, q);
    }
    if forall p | InRect(p, s, e) :: !InRect(Shift(p, dr, dc), s, e) {
      CopyRangeApart(g, s, e, dr, dc);
    }
  }

  /**
   * With overlap the copy reads cells it has already written: copying A1:A2 to A2 puts
   * the old A1 into both A2 and A3.
   */
  lemma CopyRangeOverlap(x: Cell, y: Cell)
    ensures var g := CopyCells(map[Pos(1, 1) := x, Pos(2, 1) := y], RangeCells(Pos(1, 1), Pos(2, 1)), 1, 0);
      Get(g, Pos(2, 1)) == x && Get(g, Pos(3, 1)) == x
  {
    var ps := RangeCells(Pos(1, 1), Pos(2, 1));
    assert RowCells(1, 1, 1) == [Pos(1, 1)];
    assert RowCells(2, 1, 1) == [Pos(2, 1)];
    assert RangeCells(Pos(3, 1), Pos(2, 1)) == [];
    assert RangeCells(Pos(2, 1), Pos(2, 1)) == [Pos(2, 1)];
    assert ps == [Pos(1, 1), Pos(2, 1)];
  }

  /** The text createRegion returns for a cursor at p: "start:end" of a rows × cols block. */
  function Region(p: Pos, rows: int, cols: int): string
  {
    PositionToAddress(p.row, p.col) + ":" + PositionToAddress(p.row + rows - 1, p.col + cols - 1)
  }

  /**
   * A region whose corners are valid positions is a range the formula engine reads back:
   * it splits at its ':' into the two corner addresses, which parse to the corners.
   */
  lemma RegionIsRange(p: Pos, rows: int, cols: int)
    requires p.row >= 0 && p.col >= 1 && p.row + rows - 1 >= 0 && p.col + cols - 1 >= 1
    ensures ':' in Region(p, rows, cols)
    ensures var (a, b) := SplitRange(Region(p, rows, cols));
      && ParseAddress(Trim(a)) == Ok(p)
      && ParseAddress(Trim(b)) == Ok(Pos(p.row + rows - 1, p.col + cols - 1))
  {
    var q := Pos(p.row + rows - 1, p.col + cols - 1);
    var a, b := PositionToAddress(p.row, p.col), PositionToAddress(q.row, q.col);
    assert Region(p, rows, cols) == a + ":" + b;
    RangeText(p, q);
    assert ParseAddress(Trim(a)) == Ok(p) by {
      TrimmedAddressRoundTrip(p.row, p.col);
    }
    assert ParseAddress(Trim(b)) == Ok(q) by {
      TrimmedAddressRoundTrip(q.row, q.col);
    }
  }

  /**
   * The three addresses copyRange parses, in order: the first that does not parse gives
   * the error, else the source corners and the target's top left cell.
   */
  function CopyAddresses(sourceStart: string, sourceEnd: string, targetStart: string): (r: Result<(Pos, Pos, Pos)>)
    ensures r.Ok? <==> ParseAddress(sourceStart).Ok? && ParseAddress(sourceEnd).Ok? && ParseAddress(targetStart).Ok?
    ensures r.Ok? ==> r.value == (ParseAddress(sourceStart).value, ParseAddress(sourceEnd).value, ParseAddress(targetStart).value)
    ensures ParseAddress(sourceStart).Err? ==> r == Err("Invalid cell address: " + sourceStart)
    ensures ParseAddress(sourceStart).Ok? && ParseAddress(sourceEnd).Err? ==> r == Err("Invalid cell address: " + sourceEnd)
    ensures ParseAddress(sourceStart).Ok? && ParseAddress(sourceEnd).Ok? && ParseAddress(targetStart).Err? ==>
      r == Err("Invalid cell address: " + targetStart)
  {
    match ParseAddress(sourceStart)
    case Err(m) => Err(m)
    case Ok(s) =>
      match ParseAddress(sourceEnd)
      case Err(m) => Err(m)
      case Ok(e) =>
        match ParseAddress(targetStart)
        case Err(m) => Err(m)
        case Ok(t) => Ok((s, e, t))
  }

  class ExcelCursor {
    /**
     * The worksheets of the workbook, by name. The entry of the current sheet is what it
     * held when the cursor last switched to it; its present content is `worksheet`.
     */
    var workbook: map<string, Grid>
    /** The name of the worksheet the cursor works on. */
    var sheetName: string
    /** The worksheet the cursor works on, written in place. */
    var worksheet: Grid
    var position: Pos
    var lastRow: int
    var lastCol: int

    /** The current worksheet is in the workbook, and tracking never falls below its reset value 1. */
    predicate Valid()
      reads this
    {
      sheetName in workbook && lastRow >= 1 && lastCol >= 1
    }

    /** The workbook's worksheets as they are now. */
    function Sheets(): map<string, Grid>
      reads this
    {
      workbook[sheetName := worksheet]
    }

    /**
     * The constructor (ExcelCursor.ts:23-50) on a workbook given as its sheets: a named
     * sheet that exists is used, a named sheet that does not is added empty, and with no
     * name (or the empty name) a sheet "Sheet1" is added.
     */
    constructor (sheets: map<string, Grid>, name: Option<string>)
      requires name.None? || name.value == "" ==> "Sheet1" !in sheets
      ensures Valid() && position == Pos(1, 1) && lastRow == 1 && lastCol == 1
      ensures name.Some? && name.value != "" && name.value in sheets ==>
        Sheets() == sheets && sheetName == name.value
      ensures name.Some? && name.value != "" && name.value !in sheets ==>
        Sheets() == sheets[name.value := map[]] && sheetName == name.value
      ensures name.None? || name.value == "" ==> Sheets() == sheets["Sheet1" := map[]] && sheetName == "Sheet1"
    {
      position := Pos(1, 1);
      lastRow := 1;
      lastCol := 1;
      if name.Some? && name.value != "" && name.value in sheets {
        workbook := sheets;
        sheetName := name.value;
        worksheet := sheets[name.value];
      } else if name.Some? && name.value != "" {
        workbook := sheets[name.value := map[]];
        sheetName := name.value;
        worksheet := map[];
      } else {
        workbook := sheets["Sheet1" := map[]];
        sheetName := "Sheet1";
        worksheet := map[];
      }
    }

    /** move (ExcelCursor.ts:123-126): to the address parseAddress finds; a bad address throws. */
    method Move(address: string) returns (r: Result<()>)
      requires Valid()
      modifies this
      ensures Valid() && workbook == old(workbook) && sheetName == old(sheetName) && worksheet == old(worksheet)
      ensures lastRow == old(lastRow) && lastCol == old(lastCol)
      ensures r.Ok? <==> ParseAddress(address).Ok?
      ensures r.Ok? ==> position == ParseAddress(address).value
      ensures r.Err? ==> r.message == "Invalid cell address: " + address && position == old(position)
    {
      var p := ParseAddress(address);
      if p.Err? {
        return Err(p.message);
      }
      position := p.value;
      r := Ok(());
    }

    /** moveTo (ExcelCursor.ts:129-132). */
    method MoveTo(row: int, col: int)
      requires Valid()
      modifies this
      ensures Valid() && workbook == old(workbook) && sheetName == old(sheetName) && worksheet == old(worksheet)
      ensures lastRow == old(lastRow) && lastCol == old(lastCol)
      ensures position == Pos(row, col)
    {
      position := Pos(row, col);
    }

    /** nextRow (ExcelCursor.ts:154-157): n rows down, one by default; n is not checked, so it may move up. */
    method NextRow(n: int := 1)
      requires Valid()
      modifies this
      ensures Valid() && workbook == old(workbook) && sheetName == old(sheetName) && worksheet == old(worksheet)
      ensures lastRow == old(lastRow) && lastCol == old(lastCol)
      ensures position == Pos(old(position).row + n, old(position).col)
    {
      position := position.(row := position.row + n);
    }

    /** prevRow (ExcelCursor.ts:160-163): n rows up, one by default, but not above row 1. */
    method PrevRow(n: int := 1)
      requires Valid()
      modifies this
      ensures Valid() && workbook == old(workbook) && sheetName == old(sheetName) && worksheet == old(worksheet)
      ensures lastRow == old(lastRow) && lastCol == old(lastCol)
      ensures position == Pos(Max(1, old(position).row - n), old(position).col)
      ensures position.row >= 1
    {
      position := position.(row := Max(1, position.row - n));
    }

    /** nextCol (ExcelCursor.ts:166-169): n columns right, one by default. */
    method NextCol(n: int := 1)
      requires Valid()
      modifies this
      ensures Valid() && workbook == old(workbook) && sheetName == old(sheetName) && worksheet == old(worksheet)
      ensures lastRow == old(lastRow) && lastCol == old(lastCol)
      ensures position == Pos(old(position).row, old(position).col + n)
    {
      position := position.(col := position.col + n);
    }

    /** prevCol (ExcelCursor.ts:172-175): n columns left, one by default, but not before column 1. */
    method PrevCol(n: int := 1)
      requires Valid()
      modifies this
      ensures Valid() && workbook == old(workbook) && sheetName == old(sheetName) && worksheet == old(worksheet)
      ensures lastRow == old(lastRow) && lastCol == old(lastCol)
      ensures position == Pos(old(position).row, Max(1, old(position).col - n))
      ensures position.col >= 1
    {
      position := position.(col := Max(1, position.col - n));
    }

    /** goBackToFirstCollumn (ExcelCursor.ts:382-385). */
    method GoBackToFirstColumn()
      requires Valid()
      modifies this
      ensures Valid() && workbook == old(workbook) && sheetName == old(sheetName) && worksheet == old(worksheet)
      ensures lastRow == old(lastRow) && lastCol == old(lastCol)
      ensures position == Pos(old(position).row, 1)
    {
      position := position.(col := 1);
    }

    /** moveLastRow (ExcelCursor.ts:452-455). */
    method MoveLastRow()
      requires Valid()
      modifies this
      ensures Valid() && workbook == old(workbook) && sheetName == old(sheetName) && worksheet == old(worksheet)
      ensures lastRow == old(lastRow) && lastCol == old(lastCol)
      ensures position == Pos(lastRow, old(position).col)
      ensures position.row >= 1
    {
      position := position.(row := lastRow);
    }

    /** moveLastCol (ExcelCursor.ts:457-460). */
    method MoveLastCol()
      requires Valid()
      modifies this
      ensures Valid() && workbook == old(workbook) && sheetName == old(sheetName) && worksheet == old(worksheet)
      ensures lastRow == old(lastRow) && lastCol == old(lastCol)
      ensures position == Pos(old(position).row, lastCol)
      ensures position.col >= 1
    {
      position := position.(col := lastCol);
    }

    /** updateLastPosition (ExcelCursor.ts:424-426): the tracked corner grows to cover p. */
    method UpdateLastPosition(p: Pos)
      requires Valid()
      modifies this
      ensures Valid() && workbook == old(workbook) && sheetName == old(sheetName) && worksheet == old(worksheet)
      ensures position == old(position)
      ensures lastRow == Max(old(lastRow), p.row) && lastCol == Max(old(lastCol), p.col)
    {
      lastRow := Max(lastRow, p.row);
      lastCol := Max(lastCol, p.col);
    }

    /**
     * setData (ExcelCursor.ts:135-151): writes `data` into the addressed cell, or the
     * current cell when no (or an empty) address is given, and tracks that cell. The
     * cursor does not move; a bad address throws before anything changes.
     */
    method SetData(data: Cell, address: Option<string>) returns (r: Result<()>)
      requires Valid()
      modifies this
      ensures Valid() && workbook == old(workbook) && sheetName == old(sheetName) && position == old(position)
      ensures address.Some? && address.value != "" && ParseAddress(address.value).Err? ==>
        r == Err("Invalid cell address: " + address.value)
        && worksheet == old(worksheet) && lastRow == old(lastRow) && lastCol == old(lastCol)
      ensures r.Ok? ==>
        var p := if address.Some? && address.value != "" then ParseAddress(address.value).value else old(position);
        && worksheet == old(worksheet)[p := data]
        && lastRow == Max(old(lastRow), p.row) && lastCol == Max(old(lastCol), p.col)
      ensures (address.None? || address.value == "" || ParseAddress(address.value).Ok?) ==> r.Ok?
    {
      var p: Pos;
      if address.Some? && address.value != "" {
        var parsed := ParseAddress(address.value);
        if parsed.Err? {
          return Err(parsed.message);
        }
        p := parsed.value;
      } else {
        p := position;
      }
      worksheet := worksheet[p := data];
      UpdateLastPosition(p);
      r := Ok(());
    }

    /**
     * setFormula (ExcelCursor.ts:276-280): the cell becomes a formula record with no
     * cached result. A given address is always parsed, the empty one too (which throws);
     * tracking is not updated.
     */
    method SetFormula(formula: string, address: Option<string>) returns (r: Result<()>)
      requires Valid()
      modifies this
      ensures Valid() && workbook == old(workbook) && sheetName == old(sheetName) && position == old(position)
      ensures lastRow == old(lastRow) && lastCol == old(lastCol)
      ensures address.Some? && ParseAddress(address.value).Err? ==>
        r == Err("Invalid cell address: " + address.value) && worksheet == old(worksheet)
      ensures r.Ok? ==>
        var p := if address.Some? then ParseAddress(address.value).value else old(position);
        worksheet == old(worksheet)[p := Formula(formula, Undefined)]
      ensures (address.None? || ParseAddress(address.value).Ok?) ==> r.Ok?
    {
      var p: Pos;
      if address.Some? {
        var parsed := ParseAddress(address.value);
        if parsed.Err? {
          return Err(parsed.message);
        }
        p := parsed.value;
      } else {
        p := position;
      }
      worksheet := worksheet[p := Formula(formula, Undefined)];
      r := Ok(());
    }

    /**
     * switchSheet (ExcelCursor.ts:313-326): to an existing sheet, with position and
     * tracking reset; a missing sheet throws and nothing changes.
     */
    method SwitchSheet(name: string) returns (r: Result<()>)
      requires Valid()
      modifies this
      ensures Valid() && Sheets() == old(Sheets())
      ensures r.Ok? <==> name in old(Sheets())
      ensures r.Ok? ==> (sheetName == name && worksheet == old(Sheets())[name]
        && position == Pos(1, 1) && lastRow == 1 && lastCol == 1)
      ensures r.Err? ==> (r.message == "Sheet " + name + " not found"
        && workbook == old(workbook) && sheetName == old(sheetName) && worksheet == old(worksheet)
        && position == old(position) && lastRow == old(lastRow) && lastCol == old(lastCol))
    {
      if name !in Sheets() {
        return Err("Sheet " + name + " not found");
      }
      workbook := Sheets();
      sheetName := name;
      worksheet := workbook[name];
      position := Pos(1, 1);
      lastRow := 1;
      lastCol := 1;
      r := Ok(());
    }

    /** createSheet (ExcelCursor.ts:329-338): a new empty sheet becomes current, tracking reset. */
    method CreateSheet(name: string)
      requires Valid() && name !in Sheets()
      modifies this
      ensures Valid() && Sheets() == old(Sheets())[name := map[]] && sheetName == name && worksheet == map[]
      ensures position == Pos(1, 1) && lastRow == 1 && lastCol == 1
    {
      workbook := Sheets()[name := map[]];
      sheetName := name;
      worksheet := map[];
      position := Pos(1, 1);
      lastRow := 1;
      lastCol := 1;
    }

    /**
     * getCurrentAddress (ExcelCursor.ts:215-217): the address of the cursor, which parses
     * back to the position whenever that is a valid cell position.
     */
    method GetCurrentAddress() returns (address: string)
      requires Valid()
      ensures address == PositionToAddress(position.row, position.col)
      ensures position.row >= 0 && position.col >= 1 ==> ParseAddress(address) == Ok(position)
      ensures position.row >= 0 && position.col >= 1 ==> IsCellReference(address)
    {
      address := PositionToAddress(position.row, position.col);
      if position.row >= 0 && position.col >= 1 {
        AddressRoundTrip(position.row, position.col);
        AddressIsCellReference(position.row, position.col);
      }
    }

    /**
     * createRegion (ExcelCursor.ts:352-359): the range of `rows` rows and `cols` columns
     * whose top left cell is the cursor's.
     */
    method CreateRegion(rows: int, cols: int) returns (region: string)
      requires Valid()
      ensures region == Region(position, rows, cols)
    {
      var startAddress := GetCurrentAddress();
      assert startAddress == PositionToAddress(position.row, position.col);
      var endRow := position.row + rows - 1;
      var endCol := position.col + cols - 1;
      var endAddress := PositionToAddress(endRow, endCol);
      region := startAddress + ":" + endAddress;
    }

    /**
     * copyRange (ExcelCursor.ts:388-421): the three addresses are parsed (a bad one
     * throws before anything changes), tracking grows to the target's far corner, and the
     * source rectangle is copied cell by cell, row by row, by the offset of the target.
     */
    method CopyRange(sourceStartAddress: string, sourceEndAddress: string, targetStartAddress: string)
      returns (r: Result<()>)
      requires Valid()
      modifies this
      ensures Valid() && workbook == old(workbook) && sheetName == old(sheetName) && position == old(position)
      ensures r.Ok? <==> CopyAddresses(sourceStartAddress, sourceEndAddress, targetStartAddress).Ok?
      ensures r.Err? ==> (r == Err(CopyAddresses(sourceStartAddress, sourceEndAddress, targetStartAddress).message)
        && worksheet == old(worksheet) && lastRow == old(lastRow) && lastCol == old(lastCol))
      ensures r.Ok? ==>
        var (s, e, t) := CopyAddresses(sourceStartAddress, sourceEndAddress, targetStartAddress).value;
        && worksheet == CopyCells(old(worksheet), RangeCells(s, e), t.row - s.row, t.col - s.col)
        && lastRow == Max(old(lastRow), e.row + t.row - s.row)
        && lastCol == Max(old(lastCol), e.col + t.col - s.col)
    {
      var parsed := CopyAddresses(sourceStartAddress, sourceEndAddress, targetStartAddress);
      if parsed.Err? {
        return Err(parsed.message);
      }
      var (s, e, t) := parsed.value;
      var rowOffset := t.row - s.row;
      var colOffset := t.col - s.col;
      UpdateLastPosition(Pos(e.row + rowOffset, e.col + colOffset));
      CopyRows(s, e, rowOffset, colOffset);
      r := Ok(());
    }

    /** The row loop of copyRange (ExcelCursor.ts:407-418). */
    method CopyRows(s: Pos, e: Pos, dr: int, dc: int)
      requires Valid()
      modifies this
      ensures Valid() && workbook == old(workbook) && sheetName == old(sheetName) && position == old(position)
      ensures lastRow == old(lastRow) && lastCol == old(lastCol)
      ensures worksheet == CopyCells(old(worksheet), RangeCells(s, e), dr, dc)
    {
      ghost var target := CopyCells(worksheet, RangeCells(s, e), dr, dc);
      var row := s.row;
      while row <= e.row
        invariant Valid() && workbook == old(workbook) && sheetName == old(sheetName) && position == old(position)
        invariant lastRow == old(lastRow) && lastCol == old(lastCol)
        invariant target == CopyCells(worksheet, RangeCells(Pos(row, s.col), e), dr, dc)
        decreases e.row + 1 - row
      {
        CopyRowsStep(worksheet, s, e, row, dr, dc);
        CopyRow(row, s.col, e.col, dr, dc);
        row := row + 1;
      }
      CopyNothing(worksheet, RangeCells(Pos(row, s.col), e), dr, dc);
    }

    /** The column loop of copyRange (ExcelCursor.ts:408-417): row `row`, columns c to ec. */
    method CopyRow(row: int, c: int, ec: int, dr: int, dc: int)
      requires Valid()
      modifies this
      ensures Valid() && workbook == old(workbook) && sheetName == old(sheetName) && position == old(position)
      ensures lastRow == old(lastRow) && lastCol == old(lastCol)
      ensures worksheet == CopyCells(old(worksheet), RowCells(row, c, ec), dr, dc)
    {
      ghost var target := CopyCells(worksheet, RowCells(row, c, ec), dr, dc);
      var col := c;
      while col <= ec
        invariant Valid() && workbook == old(workbook) && sheetName == old(sheetName) && position == old(position)
        invariant lastRow == old(lastRow) && lastCol == old(lastCol)
        invariant target == CopyCells(worksheet, RowCells(row, col, ec), dr, dc)
        decreases ec + 1 - col
      {
        CopyColumnStep(worksheet, row, col, ec, dr, dc);
        var sourceCell := Get(worksheet, Pos(row, col));
        worksheet := worksheet[Pos(row + dr, col + dc) := sourceCell];
        col := col + 1;
      }
      CopyNothing(worksheet, RowCells(row, col, ec), dr, dc);
    }
  }
}
