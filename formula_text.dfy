/**
 * The text-level pieces of the formula engine (src/utils/formula-engine.ts): the leading
 * '=', the whole-body call pattern, argument splitting at depth-0 commas, argument
 * classification, literals, the global cell-reference scan, first-occurrence replacement
 * and the sanitiser in front of the arithmetic evaluator.
 */
module FormulaText {
  import opened Common
  import opened Text
  import opened ExcelHelper
  import opened CellModel

  /** `formula.startsWith('=') ? formula.substring(1) : formula`: one '=' at most. */
  function StripEquals(formula: string): (r: string)
    ensures |formula| > 0 && formula[0] == '=' ==> formula == "=" + r
    ensures (|formula| == 0 || formula[0] != '=') ==> r == formula
  {
    if |formula| > 0 && formula[0] == '=' then formula[1..] else formula
  }

  // ---------------------------------------------------------------- the call pattern

  predicate IsNameChar(c: char) { IsUpper(c) || c == '_' }

  /** A function name as the call pattern accepts it: `[A-Z_]+`. */
  predicate IsName(s: string) { |s| > 0 && forall i | 0 <= i < |s| :: IsNameChar(s[i]) }

  /** End of the maximal run of name characters that starts at i. */
  function NameEnd(s: string, i: nat): (j: nat)
    requires i <= |s|
    ensures i <= j <= |s| && (forall m | i <= m < j :: IsNameChar(s[m])) && (j == |s| || !IsNameChar(s[j]))
    decreases |s| - i
  {
    if i < |s| && IsNameChar(s[i]) then NameEnd(s, i + 1) else i
  }

  lemma NameEndAt(s: string, i: nat, e: nat)
    requires i <= e <= |s| && (forall m | i <= m < e :: IsNameChar(s[m])) && (e == |s| || !IsNameChar(s[e]))
    ensures NameEnd(s, i) == e
    decreases e - i
  {
    if i < e {
      NameEndAt(s, i + 1, e);
    }
  }

  /**
   * `body.match(/^([A-Z_]+)\(([^)]+)\)$/)`: the name and the argument text when the whole
   * body is one call whose arguments hold no ')'.
   */
  function MatchCall(body: string): (r: Option<(string, string)>)
    ensures r.Some? ==>
      && IsName(r.value.0) && r.value.1 != [] && ')' !in r.value.1
      && body == r.value.0 + "(" + r.value.1 + ")"
  {
    var n := NameEnd(body, 0);
    if 0 < n && n + 2 < |body| && body[n] == '(' && body[|body| - 1] == ')' && ')' !in body[n + 1..|body| - 1] then
      var name, args := body[..n], body[n + 1..|body| - 1];
      assert body == name + "(" + args + ")";
      Some((name, args))
    else
      None
  }

  /** Every body of the call shape is recognised, with its own name and arguments. */
  lemma MatchCallComplete(name: string, args: string)
    requires IsName(name) && args != [] && ')' !in args
    ensures MatchCall(name + "(" + args + ")") == Some((name, args))
  {
    var body := name + "(" + args + ")";
    assert forall m | 0 <= m < |name| :: body[m] == name[m];
    assert body[|name|] == '(';
    NameEndAt(body, 0, |name|);
    assert body[..|name|] == name;
    assert body[|name| + 1..|body| - 1] == args;
    assert body[|body| - 1] == ')';
  }

  /** In a recognised call the only ')' is the final character. */
  lemma CallHasOneCloseParen(body: string)
    ensures MatchCall(body).Some? ==> forall m | 0 <= m < |body| - 1 :: body[m] != ')'
  {
    if MatchCall(body).Some? {
      var name, args := MatchCall(body).value.0, MatchCall(body).value.1;
      forall m | 0 <= m < |body| - 1
        ensures body[m] != ')'
      {
        if m < |name| {
          assert body[m] == name[m];
        } else if m > |name| {
          assert body[m] == args[m - |name| - 1];
        }
      }
    }
  }

  /** A body holding two ')' is never a call: nested calls fall through to arithmetic. */
  lemma NestedCallIsNotACall(body: string, i: nat, j: nat)
    requires i < j < |body| && body[i] == ')' && body[j] == ')'
    ensures MatchCall(body) == None
  {
    CallHasOneCloseParen(body);
  }

  // ---------------------------------------------------------------- splitArguments

  function Delta(c: char): int
  {
    if c == '(' then 1 else if c == ')' then -1 else 0
  }

  /** The `parentheses` counter after reading s: opening minus closing parentheses. */
  function Depth(s: string): int
  {
    if s == [] then 0 else Depth(s[..|s| - 1]) + Delta(s[|s| - 1])
  }

  lemma {:induction false} DepthAppend(a: string, b: string)
    ensures Depth(a + b) == Depth(a) + Depth(b)
    decreases |b|
  {
    if b != [] {
      var b' := b[..|b| - 1];
      assert (a + b)[..|a + b| - 1] == a + b';
      assert (a + b)[|a + b| - 1] == b[|b| - 1];
      DepthAppend(a, b');
    } else {
      assert a + b == a;
    }
  }

  /** A comma that stands outside every parenthesis: where splitArguments splits. */
  predicate IsTopComma(s: string, m: nat)
    requires m < |s|
  {
    s[m] == ',' && Depth(s[..m]) == 0
  }

  /** Index of the first comma at or after i that stands at depth 0. */
  function TopCommaFrom(s: string, i: nat): (r: Option<nat>)
    requires i <= |s|
    ensures r.Some? ==> i <= r.value < |s| && IsTopComma(s, r.value)
    ensures forall m | i <= m < (if r.Some? then r.value else |s|) :: !IsTopComma(s, m)
    decreases |s| - i
  {
    if i == |s| then None
    else if IsTopComma(s, i) then Some(i)
    else TopCommaFrom(s, i + 1)
  }

  /** TopCommaFrom finds the least depth-0 comma. */
  lemma TopCommaFromIs(s: string, i: nat, x: nat)
    requires i <= x < |s| && IsTopComma(s, x)
    requires forall m | i <= m < x :: !IsTopComma(s, m)
    ensures TopCommaFrom(s, i) == Some(x)
  {
  }

  lemma TopCommaFromNone(s: string, i: nat)
    requires i <= |s|
    requires forall m | i <= m < |s| :: !IsTopComma(s, m)
    ensures TopCommaFrom(s, i) == None
  {
  }

  /** The pieces between depth-0 commas, untrimmed: the reference splitting of argument text. */
  function Segments(s: string): (r: seq<string>)
    ensures |r| >= 1
    decreases |s|
  {
    match TopCommaFrom(s, 0)
    case None => [s]
    case Some(i) => [s[..i]] + Segments(s[i + 1..])
  }

  /** The segments joined back with commas. */
  function JoinCommas(parts: seq<string>): string
    requires |parts| >= 1
  {
    if |parts| == 1 then parts[0] else parts[0] + "," + JoinCommas(parts[1..])
  }

  function TrimAll(parts: seq<string>): (r: seq<string>)
    ensures |r| == |parts| && forall k | 0 <= k < |parts| :: r[k] == Trim(parts[k])
  {
    if parts == [] then [] else TrimAll(parts[..|parts| - 1]) + [Trim(parts[|parts| - 1])]
  }

  /** What splitArguments returns: every segment trimmed, and a blank final segment dropped. */
  function SplitResult(args: string): seq<string>
  {
    var segs := Segments(args);
    var last := Trim(segs[|segs| - 1]);
    TrimAll(segs[..|segs| - 1]) + (if last != [] then [last] else [])
  }

  /** The depth after a depth-0 comma counts only what follows it. */
  lemma DepthAfterTopComma(p: string, i: nat)
    requires i < |p| && IsTopComma(p, i)
    ensures Depth(p) == Depth(p[i + 1..])
  {
    var q := p[i + 1..];
    assert p == p[..i] + [','] + q;
    DepthAppend(p[..i] + [','], q);
    DepthAppend(p[..i], [',']);
    assert Depth([',']) == 0 by {
      assert [','][..0] == [];
    }
  }

  /** Appending a character does not change which earlier commas are at depth 0. */
  lemma SnocTopCommas(p: string, c: char)
    ensures forall m | 0 <= m < |p| :: IsTopComma(p + [c], m) == IsTopComma(p, m)
  {
    var s := p + [c];
    forall m | 0 <= m < |p|
      ensures IsTopComma(s, m) == IsTopComma(p, m)
    {
      assert s[..m] == p[..m];
    }
  }

  /**
   * How a list of segments grows by one character c read at depth d: a depth-0 comma
   * opens a new, empty segment; any other character extends the last segment.
   */
  predicate SegmentsGrow(ss: seq<string>, ss': seq<string>, d: int, c: char)
  {
    && (c == ',' && d == 0 ==> ss' == ss + [""])
    && (!(c == ',' && d == 0) ==> |ss| >= 1 && ss' == ss[..|ss| - 1] + [ss[|ss| - 1] + [c]])
  }

  /** The segments of p and of p + [c] are related as SegmentsGrow says. */
  predicate SnocLaw(p: string, c: char)
  {
    SegmentsGrow(Segments(p), Segments(p + [c]), Depth(p), c)
  }

  /** Putting the same first segment in front keeps the growth law. */
  lemma SegmentsGrowCons(x: string, ss: seq<string>, ss': seq<string>, d: int, c: char)
    requires SegmentsGrow(ss, ss', d, c)
    ensures SegmentsGrow([x] + ss, [x] + ss', d, c)
  {
    var zs := [x] + ss;
    if c == ',' && d == 0 {
      assert [x] + (ss + [""]) == zs + [""];
    } else {
      assert zs[..|zs| - 1] == [x] + ss[..|ss| - 1];
    }
  }

  /** The law for a text without a depth-0 comma: it is one segment. */
  lemma SegmentsSnocNone(p: string, c: char)
    requires TopCommaFrom(p, 0).None?
    ensures SnocLaw(p, c)
  {
    var s := p + [c];
    SnocTopCommas(p, c);
    assert Segments(p) == [p];
    if c == ',' && Depth(p) == 0 {
      assert s[..|p|] == p;
      TopCommaFromIs(s, 0, |p|);
      assert s[..|p|] == p && s[|p| + 1..] == [];
      assert Segments(s) == [p] + Segments([]);
    } else {
      TopCommaFromNone(s, 0);
    }
  }

  /** The law for a text whose first depth-0 comma is at i follows from the law for what comes after it. */
  lemma SegmentsSnocSome(p: string, c: char, i: nat)
    requires TopCommaFrom(p, 0) == Some(i) && SnocLaw(p[i + 1..], c)
    ensures SnocLaw(p, c)
  {
    var s := p + [c];
    var q := p[i + 1..];
    var x := p[..i];
    var sq, sq' := Segments(q), Segments(q + [c]);
    SegmentsAtTopComma(p, i);
    SnocKeepsTopComma(p, c, i);
    SegmentsAtTopComma(s, i);
    DepthAfterTopComma(p, i);
    SegmentsGrowCons(x, sq, sq', Depth(q), c);
  }

  lemma SegmentsAtTopComma(p: string, i: nat)
    requires TopCommaFrom(p, 0) == Some(i)
    ensures Segments(p) == [p[..i]] + Segments(p[i + 1..])
  {
  }

  lemma SnocKeepsTopComma(p: string, c: char, i: nat)
    requires TopCommaFrom(p, 0) == Some(i)
    ensures TopCommaFrom(p + [c], 0) == Some(i)
    ensures (p + [c])[i + 1..] == p[i + 1..] + [c] && (p + [c])[..i] == p[..i]
  {
    SnocTopCommas(p, c);
    TopCommaFromIs(p + [c], 0, i);
  }

  /** Reading one more character either opens a new segment (a depth-0 comma) or extends the last. */
  lemma {:induction false} SegmentsSnoc(p: string, c: char)
    ensures SnocLaw(p, c)
    decreases |p|
  {
    match TopCommaFrom(p, 0)
    case None =>
      SegmentsSnocNone(p, c);
    case Some(i) =>
      SegmentsSnoc(p[i + 1..], c);
      SegmentsSnocSome(p, c, i);
  }

  /** splitArguments: one pass with a depth counter and a buffer for the current part. */
  method SplitArguments(args: string) returns (parts: seq<string>)
    ensures parts == SplitResult(args)
  {
    parts := [];
    var current := "";
    var parentheses := 0;
    ghost var done: seq<string> := [];
    for i := 0 to |args|
      invariant parentheses == Depth(args[..i])
      invariant Segments(args[..i]) == done + [current]
      invariant parts == TrimAll(done)
    {
      var c := args[i];
      assert args[..i + 1] == args[..i] + [c];
      SegmentsSnoc(args[..i], c);
      assert Depth(args[..i + 1]) == parentheses + Delta(c);
      if c == '(' {
        parentheses := parentheses + 1;
      } else if c == ')' {
        parentheses := parentheses - 1;
      } else if c == ',' && parentheses == 0 {
        assert TrimAll(done + [current])[..|done|] == TrimAll(done);
        parts := parts + [Trim(current)];
        done := done + [current];
        current := "";
        continue;
      }
      current := current + [c];
    }
    assert args[..|args|] == args;
    assert Segments(args)[..|done|] == done;
    if Trim(current) != "" {
      parts := parts + [Trim(current)];
    }
  }

  /** The segments partition the argument text: joined with commas they give it back. */
  lemma {:induction false} SegmentsJoin(s: string)
    ensures JoinCommas(Segments(s)) == s
    decreases |s|
  {
    match TopCommaFrom(s, 0)
    case None =>
    case Some(i) =>
      SegmentsJoin(s[i + 1..]);
      assert Segments(s)[1..] == Segments(s[i + 1..]);
      assert s == s[..i] + "," + s[i + 1..];
  }

  /** No segment contains a comma at its own depth 0: a comma splits only at depth 0. */
  lemma {:induction false} SegmentsHaveNoTopComma(s: string)
    ensures forall k | 0 <= k < |Segments(s)| :: TopCommaFrom(Segments(s)[k], 0) == None
    decreases |s|
  {
    match TopCommaFrom(s, 0)
    case None =>
    case Some(i) =>
      var t := s[i + 1..];
      SegmentsHaveNoTopComma(t);
      var head := s[..i];
      assert forall m | 0 <= m < i :: head[..m] == s[..m] && head[m] == s[m];
      assert forall m | 0 <= m < i :: IsTopComma(head, m) == IsTopComma(s, m);
      TopCommaFromNone(head, 0);
      assert Segments(s) == [head] + Segments(t);
  }

  lemma TrimAllTrimmed(xs: seq<string>)
    ensures forall p | p in TrimAll(xs) :: Trim(p) == p
  {
    forall p | p in TrimAll(xs)
      ensures Trim(p) == p
    {
      var k :| 0 <= k < |xs| && TrimAll(xs)[k] == p;
      TrimIdempotent(xs[k]);
    }
  }

  /** Every part splitArguments returns is already trimmed. */
  lemma SplitPartsTrimmed(args: string)
    ensures forall p | p in SplitResult(args) :: Trim(p) == p
  {
    var segs := Segments(args);
    var init := TrimAll(segs[..|segs| - 1]);
    var last := Trim(segs[|segs| - 1]);
    TrimAllTrimmed(segs[..|segs| - 1]);
    assert Trim(last) == last by {
      TrimIdempotent(segs[|segs| - 1]);
    }
    assert SplitResult(args) == init + (if last != [] then [last] else []);
  }

  /** Blank middle parts are kept, a blank final part is dropped. */
  lemma SplitKeepsMiddleParts(args: string)
    ensures |SplitResult(args)| ==
      |Segments(args)| - (if Trim(Segments(args)[|Segments(args)| - 1]) == [] then 1 else 0)
    ensures forall k | 0 <= k < |Segments(args)| - 1 :: SplitResult(args)[k] == Trim(Segments(args)[k])
  {
  }

  /** With no depth-0 comma the result is the trimmed text alone, or nothing when it is blank. */
  lemma SplitWithoutTopComma(args: string)
    requires TopCommaFrom(args, 0) == None
    ensures SplitResult(args) == if Trim(args) != [] then [Trim(args)] else []
  {
    assert Segments(args) == [args];
  }

  // ---------------------------------------------------------------- classification

  /** `^[A-Z]+[0-9]+$`: upper-case letters then decimal digits, nothing else. */
  predicate IsAddressShape(t: string)
  {
    var j := UpperRunEnd(t, 0);
    0 < j < |t| && AllDigits(t[j..])
  }

  lemma AddressShapeIff(t: string)
    ensures IsAddressShape(t) <==> exists j | 0 < j < |t| :: AllUpper(t[..j]) && AllDigits(t[j..])
  {
    if exists j | 0 < j < |t| :: AllUpper(t[..j]) && AllDigits(t[j..]) {
      var j :| 0 < j < |t| && AllUpper(t[..j]) && AllDigits(t[j..]);
      var e := UpperRunEnd(t, 0);
      if e < j {
        assert t[e] == t[..j][e];
      } else if e > j {
        assert t[j] == t[j..][0] && t[j] == t[0..e][j];
      }
    }
  }

  /** isCellReference: the trimmed text has the shape of a cell address. */
  predicate IsCellReference(str: string)
  {
    IsAddressShape(Trim(str))
  }

  /** An address-shaped text parses as exactly its letters and digits. */
  lemma AddressShapeParses(t: string)
    requires IsAddressShape(t)
    ensures ParseAddress(t) == Ok(Pos(DigitsValue(t[UpperRunEnd(t, 0)..]), ColumnValue(t[..UpperRunEnd(t, 0)])))
  {
    var j := UpperRunEnd(t, 0);
    assert MatchStartsAt(t, 0);
    assert FirstMatchFrom(t, 0) == Some(0);
    assert t[j..|t|] == t[j..];
    DigitRunEndAt(t, j, |t|);
    assert t[0..j] == t[..j];
  }

  /** A text that neither starts nor ends with white space is its own trim. */
  lemma TrimUnpadded(s: string)
    requires |s| > 0 && !IsJsSpace(s[0]) && !IsJsSpace(s[|s| - 1])
    ensures Trim(s) == s
  {
    assert TrimStart(s) == s;
    assert TrimEnd(s) == s;
  }

  /** The address of a valid position is a cell reference. */
  lemma AddressIsCellReference(row: int, col: int)
    requires row >= 0 && col >= 1
    ensures IsAddressShape(PositionToAddress(row, col)) && IsCellReference(PositionToAddress(row, col))
  {
    var s := PositionToAddress(row, col);
    var l, d := ColumnName(col), NatToString(row);
    assert s == l + d;
    assert s[0..|l|] == l && s[|l|..] == d;
    assert d[0] == s[|l|];
    UpperRunEndAt(s, 0, |l|);
    assert IsUpper(s[0]) && s[|s| - 1] == d[|d| - 1];
    TrimUnpadded(s);
  }

  /** A non-empty run of capital letters and digits, as every address is. */
  predicate IsPlainWord(s: string)
  {
    |s| > 0 && forall i | 0 <= i < |s| :: IsUpper(s[i]) || IsDigit(s[i])
  }

  /** Letters and digits are neither ':', ',', ')' nor white space, so a plain word is unpadded. */
  lemma PlainWordChars(s: string)
    requires IsPlainWord(s)
    ensures ':' !in s && ',' !in s && ')' !in s
    ensures !IsJsSpace(s[0]) && Trim(s) == s
  {
    assert forall c | c in s :: IsUpper(c) || IsDigit(c);
    TrimUnpadded(s);
  }

  /** An address holds capital letters and digits only. */
  lemma AddressIsPlainWord(row: int, col: int)
    requires row >= 0 && col >= 1
    ensures IsPlainWord(PositionToAddress(row, col))
  {
    var l, d := ColumnName(col), NatToString(row);
    var s := l + d;
    assert PositionToAddress(row, col) == s;
    forall i | 0 <= i < |s|
      ensures IsUpper(s[i]) || IsDigit(s[i])
    {
      if i < |l| {
        assert s[i] == l[i];
      } else {
        assert s[i] == d[i - |l|];
      }
    }
  }

  /** The address of a valid position is unpadded, so trimming it first changes nothing. */
  lemma TrimmedAddressRoundTrip(row: int, col: int)
    requires row >= 0 && col >= 1
    ensures ParseAddress(Trim(PositionToAddress(row, col))) == Ok(Pos(row, col))
  {
    AddressIsPlainWord(row, col);
    PlainWordChars(PositionToAddress(row, col));
    AddressRoundTrip(row, col);
  }

  /** The empty text, trimmed, is no address. */
  lemma EmptyAddressInvalid()
    ensures ParseAddress(Trim("")) == Err("Invalid cell address: ")
  {
    var empty: string := [];
    assert Trim(empty) == empty;
    assert ParseAddress(empty) == Err("Invalid cell address: " + empty) by {
      assert FirstMatchFrom(empty, 0) == None;
    }
  }

  /** Two texts without ':' joined by one are unpadded when their outer ends are. */
  lemma JoinAtColon(a: string, b: string)
    requires |a| > 0 && !IsJsSpace(a[0])
    requires ':' !in a && ':' !in b && Trim(b) == b
    ensures ':' in a + ":" + b
    ensures Trim(a + ":" + b) == a + ":" + b
    ensures SplitRange(a + ":" + b) == (a, b)
  {
    var r := a + ":" + b;
    SplitAtColon(a, b);
    assert r[0] == a[0];
    if b == [] {
      assert r[|r| - 1] == ':';
    } else {
      assert r[|r| - 1] == b[|b| - 1];
    }
    TrimUnpadded(r);
  }

  /** A valid address, ':' and an unpadded text without ':' split back into the two. */
  lemma AddressColonText(row: int, col: int, b: string)
    requires row >= 0 && col >= 1
    requires ':' !in b && Trim(b) == b
    ensures var a := PositionToAddress(row, col);
      && ':' in a + ":" + b
      && Trim(a + ":" + b) == a + ":" + b
      && SplitRange(a + ":" + b) == (a, b)
  {
    AddressIsPlainWord(row, col);
    PlainWordChars(PositionToAddress(row, col));
    JoinAtColon(PositionToAddress(row, col), b);
  }

  /**
   * Two plain words joined by ':' are one argument of a call (no comma, no ')', no
   * padding) and split back into the two words.
   */
  lemma PlainRangeText(a: string, b: string)
    requires IsPlainWord(a) && IsPlainWord(b)
    ensures ':' in a + ":" + b && ')' !in a + ":" + b
    ensures Trim(a + ":" + b) == a + ":" + b
    ensures SplitRange(a + ":" + b) == (a, b)
    ensures SplitResult(a + ":" + b) == [a + ":" + b]
  {
    PlainWordChars(a);
    PlainWordChars(b);
    JoinAtColon(a, b);
    NotInJoin(a, b, ',');
    NotInJoin(a, b, ')');
    NoCommaSplit(a + ":" + b);
  }

  /** A character other than ':' that is in neither text is not in their join at ':'. */
  lemma NotInJoin(a: string, b: string, c: char)
    requires c !in a && c !in b && c != ':'
    ensures c !in a + ":" + b
  {
    var r := a + ":" + b;
    forall m | 0 <= m < |r|
      ensures r[m] != c
    {
      if m < |a| {
        assert r[m] == a[m];
      } else if m > |a| {
        assert r[m] == b[m - |a| - 1];
      }
    }
  }

  /** An unpadded text without a comma is one argument. */
  lemma NoCommaSplit(r: string)
    requires r != [] && ',' !in r && Trim(r) == r
    ensures SplitResult(r) == [r]
  {
    TopCommaFromNone(r, 0);
    SplitWithoutTopComma(r);
  }

  /** Two valid addresses joined by ':' are a plain range text: see PlainRangeText. */
  lemma RangeText(s: Pos, e: Pos)
    requires s.row >= 0 && s.col >= 1 && e.row >= 0 && e.col >= 1
    ensures var a, b := PositionToAddress(s.row, s.col), PositionToAddress(e.row, e.col);
      && ':' in a + ":" + b && ')' !in a + ":" + b
      && Trim(a + ":" + b) == a + ":" + b
      && SplitRange(a + ":" + b) == (a, b)
      && SplitResult(a + ":" + b) == [a + ":" + b]
  {
    AddressIsPlainWord(s.row, s.col);
    AddressIsPlainWord(e.row, e.col);
    PlainRangeText(PositionToAddress(s.row, s.col), PositionToAddress(e.row, e.col));
  }

  predicate IsLineTerminator(c: char)
  {
    c == '\n' || c == '\r' || c as int == 0x2028 || c as int == 0x2029
  }

  /** An upper-case ASCII letter in lower case; any other character as it is. */
  function LowerChar(c: char): char
  {
    if 'A' <= c <= 'Z' then (c as int + 32) as char else c
  }

  /** A lower-case ASCII letter in upper case; any other character as it is. */
  function UpperChar(c: char): char
  {
    if 'a' <= c <= 'z' then (c as int - 32) as char else c
  }

  /** Every upper-case ASCII letter becomes lower case; nothing else changes. */
  function AsciiLower(s: string): (r: string)
    ensures |r| == |s|
    ensures forall i | 0 <= i < |s| :: r[i] == LowerChar(s[i])
  {
    if s == [] then [] else [LowerChar(s[0])] + AsciiLower(s[1..])
  }

  /** The text is a double-quoted string whose inner text holds no line terminator: `^"(.*)"$`. */
  predicate IsQuoted(value: string)
  {
    |value| >= 2 && value[0] == '"' && value[|value| - 1] == '"'
    && forall i | 1 <= i < |value| - 1 :: !IsLineTerminator(value[i])
  }

  /**
   * parseLiteral: a numeral becomes its number; "true" and "false" in any letter case
   * become booleans; a double-quoted text loses its quotes; anything else stays text.
   * (Comparing ASCII-lowered text with "true"/"false" decides exactly what comparing the
   * JavaScript-lowered text does: no other character lowers to an ASCII letter of these words.)
   */
  function ParseLiteral(value: string): (r: Value)
    ensures r.Num? <==> IsNumeral(value)
    ensures IsNumeral(value) ==> r == Num(NumeralValue(value))
    ensures r.Bool? <==> !IsNumeral(value) && (AsciiLower(value) == "true" || AsciiLower(value) == "false")
    ensures r.Bool? ==> (r.b <==> AsciiLower(value) == "true")
    ensures !IsNumeral(value) && !r.Bool? ==> r == Str(if IsQuoted(value) then value[1..|value| - 1] else value)
  {
    if IsNumeral(value) then Num(NumeralValue(value))
    else if AsciiLower(value) == "true" then Bool(true)
    else if AsciiLower(value) == "false" then Bool(false)
    else if IsQuoted(value) then Str(value[1..|value| - 1])
    else Str(value)
  }

  /** A quoted literal reads as its inner text. */
  lemma QuotedLiteral(s: string)
    requires forall i | 0 <= i < |s| :: !IsLineTerminator(s[i])
    ensures ParseLiteral("\"" + s + "\"") == Str(s)
  {
    var v := "\"" + s + "\"";
    assert v[1..|v| - 1] == s;
    assert !IsNumeral(v) by {
      assert v[0] == '"' && DotIndex(v) >= 1;
      assert v[..DotIndex(v)][0] == '"';
    }
    assert AsciiLower(v)[0] == '"';
  }

  /** A text that starts with a letter is not a numeral. */
  lemma LetterWordNotNumeral(s: string)
    requires |s| > 0 && ('A' <= s[0] <= 'Z' || 'a' <= s[0] <= 'z')
    ensures !IsNumeral(s)
  {
    var d := DotIndex(s);
    assert d > 0 && s[..d][0] == s[0];
  }

  /** s spells the lower-case word w, each letter in either case. */
  predicate IsCaseOf(s: string, w: string)
  {
    |s| == |w| && forall i | 0 <= i < |s| :: s[i] == w[i] || s[i] == UpperChar(w[i])
  }

  /** Lowering a text gives a lower-case word exactly when the text spells it in any case. */
  lemma AsciiLowerIsCaseOf(s: string, w: string)
    requires forall i | 0 <= i < |w| :: 'a' <= w[i] <= 'z'
    ensures AsciiLower(s) == w <==> IsCaseOf(s, w)
  {
    if IsCaseOf(s, w) {
      assert forall i | 0 <= i < |s| :: AsciiLower(s)[i] == w[i];
    }
    if AsciiLower(s) == w {
      forall i | 0 <= i < |s|
        ensures s[i] == w[i] || s[i] == UpperChar(w[i])
      {
        assert LowerChar(s[i]) == w[i];
      }
    }
  }

  /**
   * parseLiteral's `toLowerCase() === 'true'` and `=== 'false'`: true exactly for "true"
   * spelt in any letter case, false exactly for "false" spelt in any letter case.
   */
  lemma BooleanLiteralIff(s: string)
    ensures ParseLiteral(s) == Bool(true) <==> IsCaseOf(s, "true")
    ensures ParseLiteral(s) == Bool(false) <==> IsCaseOf(s, "false")
  {
    AsciiLowerIsCaseOf(s, "true");
    AsciiLowerIsCaseOf(s, "false");
    if IsCaseOf(s, "true") || IsCaseOf(s, "false") {
      LetterWordNotNumeral(s);
    }
  }

  /** The decimal text of every integer, negative ones included, reads as that integer. */
  lemma IntegerLiteral(n: int)
    ensures ParseLiteral(IntToString(n)) == Num(n as real)
  {
    var m: nat := if n < 0 then -n else n;
    var d := NatToString(m);
    NatNumeral(m);
    assert IsUnsignedNumeral(d);
    if n < 0 {
      var s := "-" + d;
      assert s[1..] == d;
      assert IsNumeral(s) && NumeralValue(s) == -(m as real);
    }
  }

  /** "TRUE" and "True": the literal true in any letter case. */
  lemma TrueLiterals()
    ensures ParseLiteral("TRUE") == Bool(true) && ParseLiteral("True") == Bool(true)
  {
    LetterWordNotNumeral("TRUE");
    LetterWordNotNumeral("True");
    assert AsciiLower("TRUE") == "true";
    assert AsciiLower("True") == "true";
  }

  /** "false" and "FaLsE": the literal false in any letter case. */
  lemma FalseLiterals()
    ensures ParseLiteral("false") == Bool(false) && ParseLiteral("FaLsE") == Bool(false)
  {
    LetterWordNotNumeral("false");
    LetterWordNotNumeral("FaLsE");
    assert AsciiLower("false") == "false";
    assert AsciiLower("FaLsE") == "false";
  }

  // ---------------------------------------------------------------- the expression path

  /** `expression.match(/[A-Z]+[0-9]+/g)` from position `from`: successive leftmost matches. */
  function TokensFrom(s: string, from: nat): (r: seq<string>)
    requires from <= |s|
    ensures forall t | t in r :: IsAddressShape(t)
    ensures r == [] <==> FirstMatchFrom(s, from).None?
    decreases |s| - from
  {
    match MatchBounds(s, from)
    case None => []
    case Some((i, j, k)) =>
      var t := s[i..k];
      assert UpperRunEnd(t, 0) == j - i by {
        assert t[0..j - i] == s[i..j];
        UpperRunEndAt(t, 0, j - i);
      }
      assert t[j - i..] == s[j..k];
      [t] + TokensFrom(s, k)
  }

  /**
   * A token of the scan from `from` starts at i: a match starts there, and it is not the
   * tail of a longer letter run that the scan could have entered before i.
   */
  predicate WordStart(s: string, from: nat, i: nat)
    requires from <= i <= |s|
  {
    MatchStartsAt(s, i) && (i == from || !IsUpper(s[i - 1]))
  }

  /** The letters-then-digits word that starts at i: all the letters, then all the digits. */
  function WordAt(s: string, i: nat): string
    requires i <= |s|
  {
    s[i..DigitRunEnd(s, UpperRunEnd(s, i))]
  }

  /**
   * The global scan returns exactly the words that start where no earlier word covers:
   * a token is the whole letters-then-digits word at a position whose preceding
   * character is not a capital (or at `from` itself), and every such word is a token.
   */
  lemma {:induction false} TokensAreWords(s: string, from: nat)
    requires from <= |s|
    ensures forall t :: t in TokensFrom(s, from) <==> exists i | from <= i < |s| :: WordStart(s, from, i) && t == WordAt(s, i)
    decreases |s| - from
  {
    var r := FirstMatchFrom(s, from);
    if r.Some? {
      var i0 := r.value;
      var k0 := DigitRunEnd(s, UpperRunEnd(s, i0));
      var rest := TokensFrom(s, k0);
      assert TokensFrom(s, from) == [WordAt(s, i0)] + rest;
      TokensAreWords(s, k0);
      FirstWordStart(s, from);
      WordEndsWithDigit(s, i0);
      forall i | k0 <= i < |s|
        ensures WordStart(s, from, i) == WordStart(s, k0, i)
      {
      }
      forall i | from <= i < k0 && i != i0
        ensures !WordStart(s, from, i)
      {
        NoWordInside(s, from, i);
      }
    }
  }

  /** The leftmost match of the scan is a word start. */
  lemma FirstWordStart(s: string, from: nat)
    requires from <= |s| && FirstMatchFrom(s, from).Some?
    ensures WordStart(s, from, FirstMatchFrom(s, from).value)
  {
    var i0 := FirstMatchFrom(s, from).value;
    if i0 > from && IsUpper(s[i0 - 1]) {
      UpperRunEndAt(s, i0 - 1, UpperRunEnd(s, i0));
      assert MatchStartsAt(s, i0 - 1);
    }
  }

  /** A word ends with a digit, after its letters. */
  lemma WordEndsWithDigit(s: string, i: nat)
    requires i <= |s| && MatchStartsAt(s, i)
    ensures var k := DigitRunEnd(s, UpperRunEnd(s, i)); i < k && IsDigit(s[k - 1])
  {
    var j := UpperRunEnd(s, i);
    var k := DigitRunEnd(s, j);
    assert s[k - 1] == s[j..k][k - 1 - j];
  }

  /** Inside the leftmost word no other word starts. */
  lemma NoWordInside(s: string, from: nat, i: nat)
    requires from <= i < |s| && FirstMatchFrom(s, from).Some?
    requires var i0 := FirstMatchFrom(s, from).value; i != i0 && i < DigitRunEnd(s, UpperRunEnd(s, i0))
    ensures !WordStart(s, from, i)
  {
    var i0 := FirstMatchFrom(s, from).value;
    var j0 := UpperRunEnd(s, i0);
    var k0 := DigitRunEnd(s, j0);
    if i0 < i < j0 {
      assert s[i - 1] == s[i0..j0][i - 1 - i0];
    } else if j0 <= i {
      assert s[i] == s[j0..k0][i - j0];
    }
  }

  /** The cell references of an expression, left to right, repeats included. */
  function ReferenceTokens(expression: string): seq<string>
  {
    TokensFrom(expression, 0)
  }

  /** Some occurrence of pat starts at i. */
  predicate OccursAt(s: string, pat: string, i: nat)
  {
    i + |pat| <= |s| && s[i..i + |pat|] == pat
  }

  /** The first index at or after `from` where pat occurs. */
  function IndexFrom(s: string, pat: string, from: nat): (r: Option<nat>)
    requires from <= |s|
    ensures r.Some? ==> from <= r.value && OccursAt(s, pat, r.value)
    ensures forall i | from <= i < (if r.Some? then r.value else |s| + 1) :: !OccursAt(s, pat, i)
    decreases |s| - from
  {
    if OccursAt(s, pat, from) then Some(from)
    else if from == |s| then None
    else IndexFrom(s, pat, from + 1)
  }

  /**
   * `s.replace(pat, rep)` with a string pattern: the first occurrence only, or s itself
   * when there is none. (The replacement is a rendered number, so it holds no `$` pattern.)
   */
  function ReplaceFirst(s: string, pat: string, rep: string): (r: string)
    ensures IndexFrom(s, pat, 0).None? ==> r == s
    ensures IndexFrom(s, pat, 0).Some? ==>
      var i := IndexFrom(s, pat, 0).value;
      r == s[..i] + rep + s[i + |pat|..]
  {
    match IndexFrom(s, pat, 0)
    case None => s
    case Some(i) => s[..i] + rep + s[i + |pat|..]
  }

  /** The characters the sanitiser keeps: `[0-9+\-*\/.() ]`. */
  predicate IsMathChar(c: char)
  {
    IsDigit(c) || c == '+' || c == '-' || c == '*' || c == '/' || c == '.' || c == '(' || c == ')' || c == ' '
  }

  /** The sanitise step of safeMathEval: every other character is removed. */
  function Sanitise(s: string): (r: string)
    ensures |r| <= |s|
    ensures forall i | 0 <= i < |r| :: IsMathChar(r[i])
  {
    if s == [] then [] else (if IsMathChar(s[0]) then [s[0]] else []) + Sanitise(s[1..])
  }

  /** Sanitising works character by character, keeping order: it distributes over concatenation. */
  lemma {:induction false} SanitiseAppend(a: string, b: string)
    ensures Sanitise(a + b) == Sanitise(a) + Sanitise(b)
    decreases |a|
  {
    if a != [] {
      assert (a + b)[0] == a[0] && (a + b)[1..] == a[1..] + b;
      SanitiseAppend(a[1..], b);
    } else {
      assert a + b == b;
    }
  }

  /** A text of math characters only is left as it is. */
  lemma {:induction false} SanitiseKeepsMath(s: string)
    requires forall i | 0 <= i < |s| :: IsMathChar(s[i])
    ensures Sanitise(s) == s
    decreases |s|
  {
    if s != [] {
      SanitiseKeepsMath(s[1..]);
    }
  }

  /** Sanitising twice equals sanitising once. */
  lemma SanitiseIdempotent(s: string)
    ensures Sanitise(Sanitise(s)) == Sanitise(s)
  {
    SanitiseKeepsMath(Sanitise(s));
  }

  /** A character survives exactly when it is a math character. */
  lemma SanitiseChar(c: char)
    ensures Sanitise([c]) == if IsMathChar(c) then [c] else []
  {
    assert [c][1..] == [];
  }

  // ---------------------------------------------------------------- ranges

  /** `range.split(':')` destructured into its first two pieces. */
  function SplitRange(range: string): (r: (string, string))
    requires ':' in range
    ensures ':' !in r.0 && ':' !in r.1
    ensures exists i | 0 <= i < |range| :: range[i] == ':' && r.0 == range[..i] && r.1 <= range[i + 1..]
    ensures var k := |r.0| + 1 + |r.1|; k == |range| || (k < |range| && range[k] == ':')
  {
    var i := FirstColon(range);
    var rest := range[i + 1..];
    var j := if ':' in rest then FirstColon(rest) else |rest|;
    (range[..i], rest[..j])
  }

  /** Two texts without a colon, joined by one, split back into the two. */
  lemma SplitAtColon(a: string, b: string)
    requires ':' !in a && ':' !in b
    ensures ':' in a + ":" + b
    ensures SplitRange(a + ":" + b) == (a, b)
  {
    var r := a + ":" + b;
    assert r[|a|] == ':';
    FirstColonLeast(r, |a|);
    assert forall k | 0 <= k < |a| :: r[k] == a[k];
    assert r[..|a|] == a;
    assert r[|a| + 1..] == b;
    assert b[..|b|] == b;
  }

  /** Of a text with two or more colons, the pieces before the first and before the second. */
  lemma SplitAtTwoColons(a: string, b: string, rest: string)
    requires ':' !in a && ':' !in b
    ensures ':' in a + ":" + b + ":" + rest
    ensures SplitRange(a + ":" + b + ":" + rest) == (a, b)
  {
    var tail := b + ":" + rest;
    assert a + ":" + b + ":" + rest == a + ":" + tail;
    ColonAfter(a, tail);
    ColonAfter(b, rest);
  }

  /** In x + ":" + y with a colon-free x, the first colon is the one after x. */
  lemma ColonAfter(x: string, y: string)
    requires ':' !in x
    ensures ':' in x + ":" + y
    ensures FirstColon(x + ":" + y) == |x|
    ensures (x + ":" + y)[..|x|] == x && (x + ":" + y)[|x| + 1..] == y
  {
    var s := x + ":" + y;
    assert s[|x|] == ':';
    FirstColonLeast(s, |x|);
    assert forall k | 0 <= k < |x| :: s[k] == x[k];
    assert s[..|x|] == x;
  }

  /** No colon comes before the first. */
  lemma {:induction false} FirstColonLeast(s: string, k: nat)
    requires k < |s| && s[k] == ':'
    ensures FirstColon(s) <= k
  {
    if s[0] != ':' {
      FirstColonLeast(s[1..], k - 1);
    }
  }

  function FirstColon(s: string): (i: nat)
    requires ':' in s
    ensures i < |s| && s[i] == ':' && ':' !in s[..i]
  {
    if s[0] == ':' then 0 else
      assert s == [s[0]] + s[1..];
      var i := 1 + FirstColon(s[1..]);
      assert s[..i] == [s[0]] + s[1..][..i - 1];
      i
  }
}
