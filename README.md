# excel-cursor: the address codec, the formula engine and the cursor

This project models the core of excel-cursor, a TypeScript library that writes Excel
workbooks through a cursor. The model is in Dafny, and the properties are proved about it.
It covers three parts:

- **The address codec** (`src/helpers/excel.helper.ts`): column letters to numbers in
  bijective base 26 and back, and "AA12"-style addresses to `{ row, col }` and back.
  `ExcelCursor` keeps a private copy of these four routines (`src/core/ExcelCursor.ts`,
  lines 62-104); they are the same code, so both are modelled once, in `ExcelHelper`.
- **The formula engine** (`src/utils/formula-engine.ts`): it strips a leading `=`. A body
  that is one whole call `NAME(args)` goes to the aggregates SUM, AVERAGE, MAX, MIN, COUNT
  and COUNTA. Any other body is arithmetic: its cell references are substituted, the text
  is sanitised and handed to JavaScript's evaluator. Reading a formula cell that has no
  cached result evaluates it and caches the result in the cell (memoise on read).
- **The cursor** (`src/core/ExcelCursor.ts`): its position, its movements, writing cells,
  copying a rectangle, tracking the last row and column written, switching and creating
  sheets, and the address texts it produces.

Files and modules:

| file | module | what it holds |
|---|---|---|
| common.dfy | Common | `Option`, `Result` (a thrown `Error` is `Err(message)`), `Max` |
| text.dfy | Text | character classes, JavaScript `trim`, decimal digits and numerals |
| excel_helper.dfy | ExcelHelper | the address codec and its round trips |
| cell_model.dfy | CellModel | JavaScript values, cells, the worksheet as a map, `isNumeric`, the cells of a range |
| formula_text.dfy | FormulaText | the text work of the engine: the call pattern, `splitArguments`, literals, reference tokens, replace-first, the sanitiser, `split(':')` |
| aggregates.dfy | Aggregates | the six aggregates of `evaluateFunction` |
| formula_spec.dfy | FormulaSpec | the engine as functions that pass the worksheet along |
| formula_engine.dfy | FormulaEngineClass | `class FormulaEngine`: its methods, loops included, proved equal to FormulaSpec |
| excel_cursor.dfy | ExcelCursorClass | `class ExcelCursor`: the cursor's state and methods, and copyRange's effect |
| formula_properties.dfy | FormulaProperties | what the engine promises, proved over FormulaSpec |

Modelling choices:

- **Worksheets.** A worksheet is a `map<Pos, Cell>`. A position with no entry holds the
  empty value `null`.
- **Cells.** A cell is a literal `Value` or a formula record `{ formula, result }`.
  `result == Undefined` stands for "no cached result".
- **Numbers.** JavaScript numbers are modelled as exact reals (`Num`); coordinates are
  unbounded integers.
- **Host primitives.** The engine's two calls into JavaScript are the fields of a `Host`
  parameter: `new Function('return ' + text)()` on the sanitised text (`None` when it
  throws) and `Number.prototype.toString`.
- **Recursion depth.** The engine has no guard against circular references: evaluation
  recurses until the stack overflows, and then `getCellValue`'s `catch` returns 0. The
  model counts nesting with `fuel`. An uncached formula read with no fuel left reads as 0
  and writes nothing.
- **The cursor's sheets.** The cursor holds the current worksheet as a field written in
  place. The workbook is a map from names to worksheets, and `Sheets()` is the workbook as
  it stands.

Behaviours of the code worth knowing, each proved in the model:

- `parseAddress` is not anchored. It reads the leftmost `[A-Z]+\d+` substring anywhere in
  the text, with all of that substring's digits (`ParseAddressIsLeftmostMatch`).
- Row 0 is accepted: `positionToAddress(0, c)` parses back to row 0 (`AddressRoundTrip`).
- The arithmetic path replaces only the first remaining occurrence of each token, one
  token at a time (`SubstituteSingle`, `SettledExpression`).

## Model

| member | source | states |
|---|---|---|
| ExcelHelper.ColLetterToNumber | src/helpers/excel.helper.ts:4-10 | the loop computes ColumnValue, the base-26 value of the letters (charCode − 64 per letter) |
| ExcelHelper.ColNumberToLetter | src/helpers/excel.helper.ts:15-27 | the loop computes ColumnName, the bijective base-26 name; empty for n ≤ 0 |
| ExcelHelper.ColumnName | src/helpers/excel.helper.ts:15-27 | the name holds only capital letters, and it is non-empty exactly when n ≥ 1 |
| ExcelHelper.ColumnValueRange | src/helpers/excel.helper.ts:4-10 | a single letter is worth 1..26 (A = 1, Z = 26); every longer name is worth at least 27 |
| ExcelHelper.ColumnValueAppend | src/helpers/excel.helper.ts:4-10 | each further letter multiplies what precedes it by 26 |
| ExcelHelper.ColumnValueOfName | src/helpers/excel.helper.ts:4-27 | colLetterToNumber(colNumberToLetter(n)) == n for every n ≥ 1 |
| ExcelHelper.ColumnNameOfValue | src/helpers/excel.helper.ts:4-27 | colNumberToLetter(colLetterToNumber(s)) == s for every non-empty string of capitals |
| ExcelHelper.FirstMatchFrom | src/helpers/excel.helper.ts:33 | the regex scan: a match starts at the result, and none starts earlier |
| ExcelHelper.MatchBounds | src/helpers/excel.helper.ts:33 | the bounds are a letters-then-digits match whose digit run cannot be extended |
| ExcelHelper.MatchStartsAtIff | src/helpers/excel.helper.ts:33 | a match starts at i exactly when some letters-then-digits substring starts at i |
| ExcelHelper.ParseAddress | src/helpers/excel.helper.ts:32-45 | a parsed address has a column of at least 1 and a row of at least 0; a failure carries "Invalid cell address: " + the text |
| ExcelHelper.PositionToAddress | src/helpers/excel.helper.ts:50-52 | the column's letters, then the row in decimal; AddressRoundTrip and AddressOfInvalidPositionRejected state what parseAddress makes of it |
| ExcelHelper.ParseAddressIsLeftmostMatch | src/helpers/excel.helper.ts:32-45 | the error is thrown exactly when no `[A-Z]+\d+` substring exists; otherwise the result is the leftmost substring's row and column, with all its digits |
| ExcelHelper.AddressRoundTrip | src/helpers/excel.helper.ts:32-52 | parseAddress(positionToAddress(r, c)) == {r, c} for r ≥ 0 and c ≥ 1, row 0 included |
| ExcelHelper.AddressOfInvalidPositionRejected | src/helpers/excel.helper.ts:32-52 | a negative row or a column below 1 gives an address that parseAddress rejects with "Invalid cell address: …" |
| ExcelHelper.NoMatchWithoutLetters | src/helpers/excel.helper.ts:33-36 | a text without capital letters is rejected with its message |
| ExcelHelper.NoMatchAfterLetters | src/helpers/excel.helper.ts:33-36 | letters followed by a non-digit and no further capitals are rejected |
| Text.Trim | src/utils/formula-engine.ts:81 | the trimmed text neither starts nor ends with white space |
| Text.TrimIsInfix | src/utils/formula-engine.ts:81 | trim removes white space at both ends and nothing else |
| Text.TrimIdempotent | src/utils/formula-engine.ts:81 | trimming twice equals trimming once |
| CellModel.OrZero | src/utils/formula-engine.ts:182 | `value \|\| 0`: a truthy value is kept, and a falsy one becomes the number 0 |
| CellModel.IsNumeric | src/utils/formula-engine.ts:238-240 | numbers, and strings that are a signed decimal numeral, are numeric; booleans, null and undefined are not (NatNumeral: every decimal text of a natural number is numeric) |
| CellModel.NatNumeral | src/utils/formula-engine.ts:238-240 | the decimal text of every natural number is numeric and `Number` reads it back as that number |
| CellModel.RangeCellsCount | src/utils/formula-engine.ts:195-196 | a range from s to e has height × width cells |
| CellModel.RangeCellsMembers | src/utils/formula-engine.ts:195-196 | a range holds exactly the positions between its corners; none when start > end in either coordinate |
| CellModel.RangeCellsAt | src/utils/formula-engine.ts:195-196 | cell (i, j) of the rectangle sits at index i × width + j: row-major order |
| CellModel.RangeCellsDistinct | src/utils/formula-engine.ts:195-196 | no position occurs twice in a range |
| FormulaText.StripEquals | src/utils/formula-engine.ts:22 | exactly one leading '=' is removed; a text without a leading '=' is unchanged |
| FormulaText.MatchCall | src/utils/formula-engine.ts:34 | a recognised body is exactly NAME + "(" + args + ")", with NAME in `[A-Z_]+` and args non-empty and without ')' |
| FormulaText.MatchCallComplete | src/utils/formula-engine.ts:34 | every body of that shape is recognised, with its own name and arguments |
| FormulaText.CallHasOneCloseParen | src/utils/formula-engine.ts:34 | in a recognised call the final character is the only ')' |
| FormulaText.NestedCallIsNotACall | src/utils/formula-engine.ts:34 | a body with two ')' is never a call |
| FormulaText.SplitArguments | src/utils/formula-engine.ts:100-124 | the depth-counting loop returns SplitResult: the depth-0 segments, trimmed, with a blank last segment dropped |
| FormulaText.SegmentsSnoc | src/utils/formula-engine.ts:108-116 | reading one more character either starts a new part (a comma at depth 0) or extends the current part |
| FormulaText.SegmentsJoin | src/utils/formula-engine.ts:100-124 | the parts, joined with commas, give back the argument text |
| FormulaText.SegmentsHaveNoTopComma | src/utils/formula-engine.ts:110 | no part contains a comma at its own depth 0: splitting happens only at depth 0 |
| FormulaText.SplitPartsTrimmed | src/utils/formula-engine.ts:111-120 | every returned part is already trimmed |
| FormulaText.SplitKeepsMiddleParts | src/utils/formula-engine.ts:110-121 | blank middle parts are kept; only a blank final part is dropped |
| FormulaText.SplitWithoutTopComma | src/utils/formula-engine.ts:119-121 | with no depth-0 comma the result is [trim(args)], or [] when that is blank |
| FormulaText.AddressShapeIff | src/utils/formula-engine.ts:234-236 | `^[A-Z]+[0-9]+$`: capital letters, then digits, and nothing else |
| FormulaText.IsCellReference | src/utils/formula-engine.ts:234-236 | `/^[A-Z]+[0-9]+$/.test(str.trim())`: by AddressShapeIff, the trimmed text is capitals followed by digits and nothing else |
| FormulaText.AddressShapeParses | src/utils/formula-engine.ts:234-236 | an address-shaped text parses as exactly its own letters and digits |
| FormulaText.AddressIsCellReference | src/utils/formula-engine.ts:234-236 | the address of every valid position passes isCellReference |
| FormulaText.TrimmedAddressRoundTrip | src/utils/formula-engine.ts:190-191 | trimming a valid address before parsing it changes nothing |
| FormulaText.EmptyAddressInvalid | src/utils/formula-engine.ts:190-191 | an empty range end is rejected with "Invalid cell address: " |
| FormulaText.RangeText | src/utils/formula-engine.ts:84 | two valid addresses joined by ':' form one argument; it is classified as a range and splits back into the two addresses |
| FormulaText.ParseLiteral | src/utils/formula-engine.ts:242-254 | the result is a number exactly when the text is numeric; a boolean only for a non-numeric text that lowers to "true" or "false"; any other text stays text, without the quotes of a quoted text |
| FormulaText.IntegerLiteral | src/utils/formula-engine.ts:244-246 | the decimal text of every integer, negative ones included, reads as that integer |
| FormulaText.BooleanLiteralIff | src/utils/formula-engine.ts:248-250 | a literal reads as true exactly when it spells "true" in any mix of letter cases, and as false exactly when it spells "false" so |
| FormulaText.AsciiLowerIsCaseOf | src/utils/formula-engine.ts:248-250 | `toLowerCase()` gives a lower-case word exactly when the text spells that word, each letter in either case |
| FormulaText.QuotedLiteral | src/utils/formula-engine.ts:253 | a double-quoted literal reads as its inner text |
| FormulaText.TrueLiterals | src/utils/formula-engine.ts:249 | "TRUE" and "True" read as true |
| FormulaText.FalseLiterals | src/utils/formula-engine.ts:250 | "false" and "FaLsE" read as false |
| FormulaText.TokensFrom | src/utils/formula-engine.ts:129 | every token the global match returns has the shape of an address, and there is none exactly when no match starts in the text |
| FormulaText.TokensAreWords | src/utils/formula-engine.ts:129 | the tokens are exactly the whole letters-then-digits words that start where the preceding character is not a capital: every such word is a token, and nothing else is |
| FormulaText.FirstWordStart | src/utils/formula-engine.ts:129 | the leftmost match starts a whole word: the character before it is not a capital |
| FormulaText.NoWordInside | src/utils/formula-engine.ts:129 | no further token starts inside the leftmost match: the global scan resumes after it |
| FormulaText.ReferenceTokens | src/utils/formula-engine.ts:129 | `expression.match(/[A-Z]+[0-9]+/g) \|\| []`, the scan from the start of the text; TokensAreWords states which tokens it holds |
| FormulaText.IndexFrom | src/utils/formula-engine.ts:134 | the result is the first index at or after `from` where the pattern occurs |
| FormulaText.ReplaceFirst | src/utils/formula-engine.ts:134 | `replace` with a string pattern: only the first occurrence is replaced, and a text without one is unchanged |
| FormulaText.Sanitise | src/utils/formula-engine.ts:143 | the result holds only `[0-9+\-*/.() ]` characters and is no longer than the input |
| FormulaText.SanitiseAppend | src/utils/formula-engine.ts:143 | the sanitiser works character by character and keeps their order |
| FormulaText.SanitiseKeepsMath | src/utils/formula-engine.ts:143 | a text made only of allowed characters is unchanged |
| FormulaText.SanitiseIdempotent | src/utils/formula-engine.ts:143 | sanitising twice equals sanitising once |
| FormulaText.SanitiseChar | src/utils/formula-engine.ts:143 | a character survives exactly when it is allowed |
| FormulaText.SplitRange | src/utils/formula-engine.ts:189 | `split(':')` destructured: the text before the first ':', and the ':'-free text after it that runs up to the next ':' or to the end |
| FormulaText.SplitAtColon | src/utils/formula-engine.ts:189 | two ':'-free texts joined by ':' split back into the two |
| FormulaText.SplitAtTwoColons | src/utils/formula-engine.ts:189 | a text with further colons, such as "A1:B2:C3", gives its first two pieces; the rest is ignored |
| FormulaText.ColonAfter | src/utils/formula-engine.ts:189 | in a text that starts with a ':'-free piece and a ':', that ':' is the first one |
| Aggregates.Aggregate | src/utils/formula-engine.ts:47-73 | an error is returned exactly for a name outside the six aggregates, and its message is "Unsupported function: NAME" |
| Aggregates.SumOf | src/utils/formula-engine.ts:48-49 | the reduce of SUM; by SumIsSumOfNumeric it is the sum of the numeric values |
| Aggregates.Average | src/utils/formula-engine.ts:51-55 | the mean of the numeric values, 0 when there are none; AverageTimesCount relates it to SUM and COUNT |
| Aggregates.Maximum | src/utils/formula-engine.ts:57-59 | MAX: by MaximumMinimumBounds a numeric value that no numeric value exceeds, 0 when there are none |
| Aggregates.Minimum | src/utils/formula-engine.ts:61-63 | MIN: by MaximumMinimumBounds a numeric value that exceeds no numeric value, 0 when there are none |
| Aggregates.Count | src/utils/formula-engine.ts:65-66 | COUNT: the number of numeric values; CountAtMostCountA bounds it |
| Aggregates.CountA | src/utils/formula-engine.ts:68-69 | COUNTA: the number of values other than null, undefined and ''; CountAtMostCountA bounds it |
| Aggregates.MaxOf | src/utils/formula-engine.ts:59 | `Math.max` of a non-empty list is an element of it, and no element exceeds it |
| Aggregates.MinOf | src/utils/formula-engine.ts:63 | `Math.min` of a non-empty list is an element of it, and exceeds no element |
| Aggregates.SumIsSumOfNumeric | src/utils/formula-engine.ts:49 | SUM is the sum of the numeric values; every other value adds 0 |
| Aggregates.NonNumericIgnored | src/utils/formula-engine.ts:48-66 | a non-numeric value changes none of SUM, AVERAGE, MAX, MIN and COUNT |
| Aggregates.AverageTimesCount | src/utils/formula-engine.ts:51-55 | AVERAGE × COUNT == SUM when some value is numeric |
| Aggregates.MaximumMinimumBounds | src/utils/formula-engine.ts:57-63 | MAX and MIN are numeric values, and every numeric value lies between them |
| Aggregates.CountAtMostCountA | src/utils/formula-engine.ts:65-69 | COUNT ≤ COUNTA ≤ the number of values |
| Aggregates.NumericValuesMembers | src/utils/formula-engine.ts:52 | `filter(isNumeric).map(Number)` holds exactly the numbers of the numeric elements |
| Aggregates.SumOfTestValues | tests/formula-engine.spec.ts:45-57 | SUM of 10, 20, 30 is 60 |
| Aggregates.AverageOfTestValues | tests/formula-engine.spec.ts:60-67 | AVERAGE of 100, 200, 300 is 200 |
| Aggregates.MaxMinOfTestValues | tests/formula-engine.spec.ts:70-81 | MAX of 5, 15, 10 is 15, and MIN is 5 |
| Aggregates.CountOfMixedValues | src/utils/formula-engine.ts:65-66 | COUNT of 1, "text" and an empty cell read as 0 is 2 |
| Aggregates.CountAOfMixedValues | src/utils/formula-engine.ts:68-69 | COUNTA of 1, "text", null and '' is 2 |
| FormulaSpec.SafeMathEval | src/utils/formula-engine.ts:141-151 | succeeds exactly when the host evaluates the sanitised text; on failure the message is "Invalid mathematical expression: " + the unsanitised text |
| FormulaSpec.EvaluateFormulaSpec | src/utils/formula-engine.ts:19-30 | evaluation only ever caches results of formula cells that had none; an error always comes with result null |
| FormulaSpec.ResolveCellsSpec | src/utils/formula-engine.ts:195-229 | one value per cell, in order; a cell needing no evaluation gives its settled value read as `\|\| 0`; only the cache changes |
| FormulaSpec.ReadCellSpec | src/utils/formula-engine.ts:156-182 | a cell needing no evaluation reads as its literal or its cached result, and nothing changes |
| FormulaEngineClass.FormulaEngine.constructor | src/utils/formula-engine.ts:10-12 | the engine holds the given worksheet |
| FormulaEngineClass.FormulaEngine.EvaluateFormula | src/utils/formula-engine.ts:19-30 | returns and leaves the worksheet as EvaluateFormulaSpec |
| FormulaEngineClass.FormulaEngine.ParseAndEvaluate | src/utils/formula-engine.ts:32-42 | returns and leaves the worksheet as ParseAndEvaluateSpec |
| FormulaEngineClass.FormulaEngine.EvaluateFunction | src/utils/formula-engine.ts:44-74 | returns and leaves the worksheet as EvaluateFunctionSpec |
| FormulaEngineClass.FormulaEngine.ParseArguments | src/utils/formula-engine.ts:76-98 | the loop over the split parts returns and leaves the worksheet as ArgumentsSpec |
| FormulaEngineClass.FormulaEngine.ParseArgument | src/utils/formula-engine.ts:81-94 | one part: a range if it holds ':', else a cell reference, else a literal (ArgumentSpec) |
| FormulaEngineClass.FormulaEngine.EvaluateExpression | src/utils/formula-engine.ts:126-139 | the substitution loop and safeMathEval return and leave the worksheet as EvaluateExpressionSpec |
| FormulaEngineClass.FormulaEngine.GetCellValue | src/utils/formula-engine.ts:153-186 | returns and leaves the worksheet as CellValueSpec; a bad address reads as 0 |
| FormulaEngineClass.FormulaEngine.GetRangeValues | src/utils/formula-engine.ts:188-232 | returns and leaves the worksheet as RangeValuesSpec |
| FormulaEngineClass.FormulaEngine.ReadRange | src/utils/formula-engine.ts:195-229 | the row loop reads the cells of RangeCells(s, e) in order, as ResolveCellsSpec |
| FormulaEngineClass.FormulaEngine.ReadRow | src/utils/formula-engine.ts:196-228 | the column loop reads one row's cells in order, as ResolveCellsSpec |
| FormulaEngineClass.FormulaEngine.ReadCell | src/utils/formula-engine.ts:156-182 | the shared cell read, as ReadCellSpec, including the cache write |
| FormulaProperties.LeadingEqualsIsOptional | src/utils/formula-engine.ts:22 | a formula evaluates the same with or without one leading '=' |
| FormulaProperties.EvaluationReportsErrors | src/utils/formula-engine.ts:19-30 | evaluateFormula never throws: the error is null exactly when the body succeeds; otherwise `{ result: null, error: message }` |
| FormulaProperties.CallTakesFunctionPath | src/utils/formula-engine.ts:34-38 | a whole-body call goes to evaluateFunction with its name and arguments |
| FormulaProperties.NestedCallTakesArithmeticPath | src/utils/formula-engine.ts:34-41 | a body with two ')' goes to evaluateExpression |
| FormulaProperties.UnknownFunctionReported | src/utils/formula-engine.ts:71-72 | an unknown name gives `{ result: null, error: "Unsupported function: NAME" }` once its arguments have been read; an error in an argument comes first |
| FormulaProperties.CellArgumentReadsCell | src/utils/formula-engine.ts:88-89 | the address of a valid position, given as an argument, reads exactly that cell |
| FormulaProperties.RangeArgumentReadsRange | src/utils/formula-engine.ts:84-85 | "S:E" given as an argument reads the rectangle S..E |
| FormulaProperties.RangeWithBadEndIsError | src/utils/formula-engine.ts:188-191 | an argument with ':' is read as a range even when it starts with a good address, and a bad end throws its error |
| FormulaProperties.RangeValuesErrors | src/utils/formula-engine.ts:188-193 | getRangeValues throws the first bad end's error; otherwise it reads the rectangle between the parsed ends |
| FormulaProperties.RangeValueAt | src/utils/formula-engine.ts:195-227 | the range gives height × width values; the cell (i, j) that needs no evaluation comes at index i × width + j |
| FormulaProperties.SettledCellsLeaveGrid | src/utils/formula-engine.ts:195-227 | reading cells none of which needs evaluation changes nothing |
| FormulaProperties.SuccessfulReadIsCached | src/utils/formula-engine.ts:167-175 | a successful evaluation of an uncached formula is returned and written into the cell, and a later read returns it without evaluating |
| FormulaProperties.FailedReadReturnsZero | src/utils/formula-engine.ts:168-179 | an empty formula, a failed evaluation or exhausted fuel reads as 0; an empty formula and exhausted fuel write nothing, and after a failed evaluation the read adds no write of its own: the result is cached on success only |
| FormulaProperties.LiteralRead | src/utils/formula-engine.ts:182 | a literal cell is neither evaluated nor written, and a falsy literal reads as 0 |
| FormulaProperties.BadAddressReadsZero | src/utils/formula-engine.ts:153-185 | getCellValue turns every address in which no letters-then-digits substring occurs into 0 and writes nothing |
| FormulaProperties.ExpressionWithoutReferences | src/utils/formula-engine.ts:126-138 | without capital letters there are no tokens, and the text goes straight to safeMathEval |
| FormulaProperties.TokensOfA1Times2 | src/utils/formula-engine.ts:129 | "A1*2" holds the one token "A1" |
| FormulaProperties.SubstituteSingle | src/utils/formula-engine.ts:131-135 | one token: its cell is read, and its first occurrence is replaced by the rendered number (0 when not numeric) |
| FormulaProperties.SettledReferenceRead | src/utils/formula-engine.ts:132-133 | reading a reference that needs no evaluation writes nothing and yields the number of its cell's value, or 0 |
| FormulaProperties.SettledSubstitution | src/utils/formula-engine.ts:131-135 | over tokens that need no evaluation the loop writes nothing and replaces each token's first remaining occurrence, in turn, with the rendering of its cell's number |
| FormulaProperties.SettledExpression | src/utils/formula-engine.ts:126-139 | for every expression whose references need no evaluation the worksheet is unchanged and safeMathEval receives the text with each token, in order, replaced at its first remaining occurrence by the rendering of its number (0 when not numeric or not an address) |
| FormulaProperties.SingleReferenceSubstituted | src/utils/formula-engine.ts:126-139 | "A1*2" is evaluated as the host's rendering of A1's number followed by "*2" |
| FormulaProperties.SumRangeRead | tests/formula-engine.spec.ts:45-57 | reading A1:A3 of 10, 20, 30 gives those values and writes nothing |
| FormulaProperties.SumCall | tests/formula-engine.spec.ts:55-57 | the body "SUM(A1:A3)" over 10, 20, 30 evaluates to 60 |
| FormulaProperties.SumOfRange | tests/formula-engine.spec.ts:55-57 | "=SUM(A1:A3)" over 10, 20, 30 gives `{ result: 60, error: null }` and leaves the worksheet as it was |
| ExcelCursorClass.ExcelCursor.constructor | src/core/ExcelCursor.ts:23-50 | on a given workbook (its sheets, possibly none): position (1, 1) and tracking (1, 1); an existing named sheet is used, a missing one is added, and with no name "Sheet1" is added |
| ExcelCursorClass.ExcelCursor.Move | src/core/ExcelCursor.ts:123-126 | moves to the parsed address; a bad address throws and the cursor stays; nothing else changes |
| ExcelCursorClass.ExcelCursor.MoveTo | src/core/ExcelCursor.ts:129-132 | the position becomes (row, col); nothing else changes |
| ExcelCursorClass.ExcelCursor.NextRow | src/core/ExcelCursor.ts:154-157 | the row grows by n (1 by default); the column, the sheet and the tracking are unchanged |
| ExcelCursorClass.ExcelCursor.PrevRow | src/core/ExcelCursor.ts:160-163 | the row becomes max(1, row − n), n being 1 by default; nothing else changes |
| ExcelCursorClass.ExcelCursor.NextCol | src/core/ExcelCursor.ts:166-169 | the column grows by n (1 by default); nothing else changes |
| ExcelCursorClass.ExcelCursor.PrevCol | src/core/ExcelCursor.ts:172-175 | the column becomes max(1, col − n), n being 1 by default; nothing else changes |
| ExcelCursorClass.ExcelCursor.GoBackToFirstColumn | src/core/ExcelCursor.ts:382-385 | the column becomes 1 and the row stays |
| ExcelCursorClass.ExcelCursor.MoveLastRow | src/core/ExcelCursor.ts:452-455 | the row becomes the tracked last row, which is never below 1 |
| ExcelCursorClass.ExcelCursor.MoveLastCol | src/core/ExcelCursor.ts:457-460 | the column becomes the tracked last column, which is never below 1 |
| ExcelCursorClass.ExcelCursor.UpdateLastPosition | src/core/ExcelCursor.ts:424-426 | the tracked row and column become running maxima |
| ExcelCursorClass.ExcelCursor.SetData | src/core/ExcelCursor.ts:135-151 | writes only the addressed cell (or the current cell when no address is given) and tracks it; the cursor does not move; a bad address throws with nothing changed |
| ExcelCursorClass.ExcelCursor.SetFormula | src/core/ExcelCursor.ts:276-280 | the cell becomes a formula with no cached result; a given address, even the empty one, is parsed; tracking is unchanged |
| ExcelCursorClass.ExcelCursor.SwitchSheet | src/core/ExcelCursor.ts:313-326 | an existing sheet becomes current with position and tracking reset; a missing one throws "Sheet NAME not found" and nothing changes |
| ExcelCursorClass.ExcelCursor.CreateSheet | src/core/ExcelCursor.ts:329-338 | a new empty sheet is added and becomes current, with position and tracking reset |
| ExcelCursorClass.ExcelCursor.GetCurrentAddress | src/core/ExcelCursor.ts:215-217 | the cursor's address; for a valid position it is a cell reference that parses back to the position |
| ExcelCursorClass.ExcelCursor.CreateRegion | src/core/ExcelCursor.ts:352-359 | "start:end" of the rows × cols block whose top left cell is the cursor's |
| ExcelCursorClass.Region | src/core/ExcelCursor.ts:352-359 | the text createRegion builds; RegionIsRange states that it reads back as a range between its corners |
| ExcelCursorClass.RegionIsRange | src/core/ExcelCursor.ts:352-359 | a region with valid corners is a range the engine reads back to those corners |
| ExcelCursorClass.CopyAddresses | src/core/ExcelCursor.ts:393-395 | the three addresses are parsed in order, and the first bad one gives the error |
| ExcelCursorClass.ExcelCursor.CopyRange | src/core/ExcelCursor.ts:388-421 | a bad address throws with nothing changed; otherwise tracking grows to the target's far corner and the cells are copied row by row with the offset (CopyCells) |
| ExcelCursorClass.CopyCells | src/core/ExcelCursor.ts:407-418 | the copy loop as a function of the worksheet; CopyRangeEffect, CopyRangeOutside, CopyRangeApart and CopyRangeOverlap state its effect |
| ExcelCursorClass.ExcelCursor.CopyRows | src/core/ExcelCursor.ts:407-418 | the row loop copies RangeCells(s, e) in order |
| ExcelCursorClass.ExcelCursor.CopyRow | src/core/ExcelCursor.ts:408-417 | the column loop copies one row's cells in order |
| ExcelCursorClass.CopyRangeEffect | src/core/ExcelCursor.ts:407-418 | cells outside the target rectangle are unchanged; without overlap, each target cell gets its source's prior content |
| ExcelCursorClass.CopyRangeOutside | src/core/ExcelCursor.ts:407-418 | a cell outside the target rectangle keeps its content |
| ExcelCursorClass.CopyRangeApart | src/core/ExcelCursor.ts:407-418 | without overlap, every target cell receives its source's prior content |
| ExcelCursorClass.CopyRangeOverlap | src/core/ExcelCursor.ts:407-418 | with overlap the loop reads cells it has already written: copying A1:A2 to A2 puts the old A1 into both A2 and A3 |

## Left out

- exceljs is not part of this model. A worksheet is a map from positions to cells; the
  identity of exceljs cell objects, rows and styles is not modelled.
- Styles are not modelled: copyRange's style copy (`src/core/ExcelCursor.ts`, line 416),
  formatCell, applyStyleToRange, borderAll, center and formatCellNumber.
- UpdateLastPosition: does not model the `isBorderAll` option, which also draws a border
  around the tracked cell. The constructor's file name and stream writer options are left
  out: a workbook given or made fresh is the map of its sheets.
- ExcelCursorClass.ExcelCursor.constructor: requires that a workbook opened without a
  sheet name holds no sheet "Sheet1" yet. The source calls `addWorksheet('Sheet1')` in that
  case too; what exceljs does with a name already in use is not visible here.
- The other cursor operations are not part of this model: colSpan, rowSpan, setColWidth,
  setRowHeight, insertRow, deleteRow, addComment, addConditionalFormatting, getCellValue,
  the getLast… accessors, addRow, addRows, getWorkbook and setWorksheet. This includes
  the row insert and delete operations. saveWorkbook and commit are I/O.
- JavaScript numbers are exact reals, so rounding, NaN and Infinity are not modelled.
  `isNumeric` is modelled on strings as an optional sign and a decimal numeral. Exponents,
  surrounding white space and the hexadecimal, binary and octal prefixes (`Number("0b101")`
  is 5) are left out; "Infinity" is rightly not numeric, as `isFinite` rejects it.
- `new Function(...)` arithmetic and `Number.prototype.toString` are the Host parameters.
  The model proves what reaches them, not what they compute.
- Stack overflow on circular formulas is replaced by `fuel`. Evaluation that runs out of
  fuel reads 0 where the source would read 0 once the stack overflows, but the depth at
  which that happens is not modelled.
- Cell values are JavaScript scalars (number, string, boolean, null, undefined) or formula
  records. Dates, rich text, hyperlinks and other objects are left out. SetData takes a
  Cell.
- FormulaText.ReplaceFirst: a replacement text is inserted literally. The `$` patterns of
  `String.prototype.replace` are not modelled; the number renderings substituted here
  contain no `$`.
- ExcelCursorClass.ExcelCursor.CreateSheet: requires a name not yet in the workbook. What
  exceljs does with a duplicate name is not visible here.
- The helper methods ParseArgument, ReadRange, ReadRow, ReadCell, CopyRows and CopyRow
  are splits of one source method each (its loop body or its inner loop), not separate
  source functions.
- In the cursor, the workbook entry of the current sheet is the content it had when the
  cursor last switched to it; `Sheets()` is the workbook as it stands, with that entry
  replaced by the worksheet held in place.
- evaluateFormula's `'Unknown error'` branch (a thrown value that is not an Error) cannot
  arise in the model: every thrown error has a message.
