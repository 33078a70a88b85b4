/**
 * The address codec of src/helpers/excel.helper.ts: column letters to numbers in
 * bijective base 26 and back, and "AA12"-style addresses to (row, col) and back.
 * ExcelCursor keeps a private, character-for-character copy of these four routines
 * (src/core/ExcelCursor.ts:62-104); the model defines them once, here.
 */
module ExcelHelper {
  import opened Common
  import opened Text

  /** A cell position, `{ row, col }`; JavaScript numbers here, hence unbounded integers. */
  datatype Pos = Pos(row: int, col: int)

  // ---------------------------------------------------------------- columns

  /**
   * What colLetterToNumber accumulates: every character adds its char code minus 64
   * to 26 times the value of the characters before it.
   */
  function ColumnValue(s: string): int
  {
    if s == [] then 0 else ColumnValue(s[..|s| - 1]) * 26 + (s[|s| - 1] as int - 64)
  }

  /** colLetterToNumber: the for loop over the characters. */
  method ColLetterToNumber(colLetter: string) returns (result: int)
    ensures result == ColumnValue(colLetter)
  {
    result := 0;
    for i := 0 to |colLetter|
      invariant result == ColumnValue(colLetter[..i])
    {
      assert colLetter[..i + 1][..i] == colLetter[..i];
      result := result * 26 + (colLetter[i] as int - 64);
    }
    assert colLetter[..|colLetter|] == colLetter;
  }

  function Letter(m: nat): (c: char)
    requires m < 26
    ensures IsUpper(c) && c as int == 65 + m
  {
    (65 + m) as char
  }

  /**
   * What colNumberToLetter builds: the bijective base-26 numeral of n, most significant
   * letter first; the empty string when n <= 0, because the loop never runs.
   */
  function ColumnName(n: int): (r: string)
    ensures AllUpper(r)
    ensures |r| > 0 <==> n >= 1
    decreases n
  {
    if n <= 0 then "" else ColumnName((n - 1) / 26) + [Letter((n - 1) % 26)]
  }

  /** colNumberToLetter: the while loop that prepends one letter per step. */
  method ColNumberToLetter(colNumber: int) returns (columnName: string)
    ensures columnName == ColumnName(colNumber)
  {
    var dividend := colNumber;
    columnName := "";
    while dividend > 0
      invariant ColumnName(colNumber) == ColumnName(dividend) + columnName
      decreases dividend
    {
      var modulo := (dividend - 1) % 26;
      assert dividend - modulo == 26 * ((dividend - 1) / 26) + 1;
      columnName := [Letter(modulo)] + columnName;
      dividend := (dividend - modulo) / 26;
    }
  }

  /** A single letter stands for 1..26, A for 1 and Z for 26; longer names are larger. */
  lemma {:induction false} ColumnValueRange(s: string)
    requires AllUpper(s)
    ensures |s| == 0 ==> ColumnValue(s) == 0
    ensures |s| == 1 ==> 1 <= ColumnValue(s) <= 26 && ColumnValue(s) == s[0] as int - 64
    ensures |s| >= 2 ==> ColumnValue(s) >= 27
  {
    if |s| >= 1 {
      var p := s[..|s| - 1];
      assert AllUpper(p);
      ColumnValueRange(p);
      if |s| == 1 {
        assert p == [];
      }
    }
  }

  function Pow26(k: nat): (r: nat)
    ensures r >= 1
  {
    if k == 0 then 1 else 26 * Pow26(k - 1)
  }

  /** Every further letter multiplies what precedes it by 26. */
  lemma {:induction false} ColumnValueAppend(a: string, b: string)
    ensures ColumnValue(a + b) == ColumnValue(a) * Pow26(|b|) + ColumnValue(b)
    decreases |b|
  {
    if b == [] {
      assert a + b == a;
    } else {
      var b' := b[..|b| - 1];
      var c := b[|b| - 1];
      assert (a + b)[..|a + b| - 1] == a + b';
      assert (a + b)[|a + b| - 1] == c;
      ColumnValueAppend(a, b');
      assert ColumnValue(a + b) == (ColumnValue(a) * Pow26(|b'|) + ColumnValue(b')) * 26 + (c as int - 64);
      assert ColumnValue(a) * Pow26(|b'|) * 26 == ColumnValue(a) * Pow26(|b|);
    }
  }

  /** The name of n is the name of (n - 1) / 26 followed by the letter worth (n - 1) % 26 + 1. */
  lemma ColumnNameSnoc(n: int)
    requires n >= 1
    ensures ColumnValue(ColumnName(n)) == ColumnValue(ColumnName((n - 1) / 26)) * 26 + (n - 1) % 26 + 1
  {
    var p := ColumnName((n - 1) / 26);
    var c := Letter((n - 1) % 26);
    assert ColumnName(n) == p + [c];
    assert (p + [c])[..|p|] == p;
  }

  /** For every n >= 1, colLetterToNumber(colNumberToLetter(n)) == n. */
  lemma {:induction false} ColumnValueOfName(n: int)
    requires n >= 1
    ensures ColumnValue(ColumnName(n)) == n
    decreases n
  {
    var q := (n - 1) / 26;
    ColumnNameSnoc(n);
    if q >= 1 {
      ColumnValueOfName(q);
    }
    DivSplit26(n - 1);
  }

  lemma DivSplit26(m: int)
    requires m >= 0
    ensures (m / 26) * 26 + m % 26 == m
  {
  }

  lemma DivMod26(q: int, m: int)
    requires q >= 0 && 0 <= m < 26
    ensures (q * 26 + m) / 26 == q && (q * 26 + m) % 26 == m
  {
  }

  /** One more letter worth m + 1 after the name of v. */
  lemma ColumnNameStep(v: int, m: int)
    requires v >= 0 && 0 <= m < 26
    ensures ColumnName(v * 26 + m + 1) == ColumnName(v) + [Letter(m)]
  {
    DivMod26(v, m);
  }

  /** For every non-empty string over 'A'..'Z', colNumberToLetter(colLetterToNumber(s)) == s. */
  lemma {:induction false} ColumnNameOfValue(s: string)
    requires |s| > 0 && AllUpper(s)
    ensures ColumnName(ColumnValue(s)) == s
    decreases |s|
  {
    var p := s[..|s| - 1];
    var c := s[|s| - 1];
    var v := ColumnValue(p);
    var m := c as int - 65;
    assert AllUpper(p);
    ColumnValueRange(p);
    assert ColumnValue(s) == v * 26 + m + 1;
    ColumnNameStep(v, m);
    assert Letter(m) == c;
    if |p| > 0 {
      ColumnNameOfValue(p);
    } else {
      assert ColumnName(v) == p;
    }
    assert s == p + [c];
  }

  // ---------------------------------------------------------------- the address regex

  /** End of the maximal run of upper-case letters that starts at i. */
  function UpperRunEnd(s: string, i: nat): (j: nat)
    requires i <= |s|
    ensures i <= j <= |s| && AllUpper(s[i..j]) && (j == |s| || !IsUpper(s[j]))
    decreases |s| - i
  {
    if i < |s| && IsUpper(s[i]) then
      var j := UpperRunEnd(s, i + 1);
      assert s[i..j] == [s[i]] + s[i + 1..j];
      j
    else
      i
  }

  /** End of the maximal run of decimal digits that starts at i. */
  function DigitRunEnd(s: string, i: nat): (j: nat)
    requires i <= |s|
    ensures i <= j <= |s| && AllDigits(s[i..j]) && (j == |s| || !IsDigit(s[j]))
    decreases |s| - i
  {
    if i < |s| && IsDigit(s[i]) then
      var j := DigitRunEnd(s, i + 1);
      assert s[i..j] == [s[i]] + s[i + 1..j];
      j
    else
      i
  }

  /** The pattern `([A-Z]+)(\d+)` matches s[i..k], the letters being s[i..j] and the digits s[j..k]. */
  ghost predicate IsMatch(s: string, i: int, j: int, k: int)
  {
    0 <= i < j < k <= |s| && AllUpper(s[i..j]) && AllDigits(s[j..k])
  }

  /** Some match of the pattern starts at i: a run of letters from i, followed by a digit. */
  predicate MatchStartsAt(s: string, i: nat)
    requires i <= |s|
  {
    i < |s| && IsUpper(s[i]) && UpperRunEnd(s, i) < |s| && IsDigit(s[UpperRunEnd(s, i)])
  }

  lemma MatchStartsAtIff(s: string, i: nat)
    requires i <= |s|
    ensures MatchStartsAt(s, i) <==> exists j, k :: IsMatch(s, i, j, k)
  {
    if MatchStartsAt(s, i) {
      var j := UpperRunEnd(s, i);
      assert AllDigits(s[j..j + 1]);
      assert IsMatch(s, i, j, j + 1);
    }
    if exists j, k :: IsMatch(s, i, j, k) {
      var j, k :| IsMatch(s, i, j, k);
      var e := UpperRunEnd(s, i);
      assert s[j] == s[j..k][0];
      if e < j {
        assert s[e] == s[i..j][e - i];
      }
      if e > j {
        assert s[j] == s[i..e][j - i];
      }
    }
  }

  /** The first position at or after `from` where a match starts: how `match` scans. */
  function FirstMatchFrom(s: string, from: nat): (r: Option<nat>)
    requires from <= |s|
    ensures r.Some? ==> from <= r.value < |s| && MatchStartsAt(s, r.value)
    ensures forall i | from <= i < (if r.Some? then r.value else |s|) :: !MatchStartsAt(s, i)
    decreases |s| - from
  {
    if from == |s| then None
    else if MatchStartsAt(s, from) then Some(from)
    else FirstMatchFrom(s, from + 1)
  }

  /** The match bounds (i, j, k) of the leftmost match at or after `from`. */
  function MatchBounds(s: string, from: nat): (r: Option<(nat, nat, nat)>)
    requires from <= |s|
    ensures r.Some? ==> from <= r.value.0 && IsMatch(s, r.value.0, r.value.1, r.value.2)
    ensures r.Some? ==> r.value.2 == |s| || !IsDigit(s[r.value.2])
  {
    match FirstMatchFrom(s, from)
    case None => None
    case Some(i) =>
      var j := UpperRunEnd(s, i);
      var k := DigitRunEnd(s, j);
      Some((i, j, k))
  }

  /** `address.match(/([A-Z]+)(\d+)/)`: the letters and digits of the leftmost match. */
  function FindAddress(s: string): Option<(string, string)>
  {
    match MatchBounds(s, 0)
    case None => None
    case Some((i, j, k)) => Some((s[i..j], s[j..k]))
  }

  /**
   * parseAddress: the leftmost letters-then-digits substring, wherever it stands. A parsed
   * address never has a column below 1 or a negative row; a failure carries the text.
   */
  function ParseAddress(address: string): (r: Result<Pos>)
    ensures r.Ok? ==> r.value.row >= 0 && r.value.col >= 1
    ensures r.Err? ==> r.message == "Invalid cell address: " + address
  {
    match FindAddress(address)
    case None => Err("Invalid cell address: " + address)
    case Some((letters, digits)) =>
      ColumnValueRange(letters);
      Ok(Pos(DigitsValue(digits), ColumnValue(letters)))
  }

  /**
   * parseAddress throws "Invalid cell address" exactly when no `[A-Z]+\d+` substring
   * exists; otherwise it reads the leftmost one, letters and all its digits, and ignores
   * the text around it.
   */
  lemma ParseAddressIsLeftmostMatch(s: string)
    ensures ParseAddress(s) == Err("Invalid cell address: " + s) <==> forall i, j, k :: !IsMatch(s, i, j, k)
    ensures ParseAddress(s).Ok? ==>
      exists i, j, k ::
        && IsMatch(s, i, j, k)
        && (k == |s| || !IsDigit(s[k]))
        && (forall i', j', k' | i' < i :: !IsMatch(s, i', j', k'))
        && ParseAddress(s).value == Pos(DigitsValue(s[j..k]), ColumnValue(s[i..j]))
  {
    var r := FirstMatchFrom(s, 0);
    forall i', j', k' | r.None? || i' < r.value
      ensures !IsMatch(s, i', j', k')
    {
      if 0 <= i' <= |s| {
        MatchStartsAtIff(s, i');
      }
    }
    if r.Some? {
      var i := r.value;
      var j := UpperRunEnd(s, i);
      var k := DigitRunEnd(s, j);
      assert IsMatch(s, i, j, k);
    }
  }

  // ---------------------------------------------------------------- positions to addresses

  /** positionToAddress: the column's letters followed by the row in decimal. */
  function PositionToAddress(row: int, col: int): string
  {
    ColumnName(col) + IntToString(row)
  }

  lemma UpperRunEndAt(s: string, i: nat, e: nat)
    requires i <= e <= |s| && AllUpper(s[i..e]) && (e == |s| || !IsUpper(s[e]))
    ensures UpperRunEnd(s, i) == e
    decreases e - i
  {
    if i < e {
      assert s[i] == s[i..e][0];
      assert s[i + 1..e] == s[i..e][1..];
      UpperRunEndAt(s, i + 1, e);
    }
  }

  lemma DigitRunEndAt(s: string, i: nat, e: nat)
    requires i <= e <= |s| && AllDigits(s[i..e]) && (e == |s| || !IsDigit(s[e]))
    ensures DigitRunEnd(s, i) == e
    decreases e - i
  {
    if i < e {
      assert s[i] == s[i..e][0];
      assert s[i + 1..e] == s[i..e][1..];
      DigitRunEndAt(s, i + 1, e);
    }
  }

  /** For r >= 0 and c >= 1, parseAddress(positionToAddress(r, c)) == { row: r, col: c }. */
  lemma AddressRoundTrip(row: int, col: int)
    requires row >= 0 && col >= 1
    ensures ParseAddress(PositionToAddress(row, col)) == Ok(Pos(row, col))
  {
    var l := ColumnName(col);
    var d := NatToString(row);
    var s := l + d;
    assert s == PositionToAddress(row, col);
    assert s[0..|l|] == l && s[|l|..|s|] == d;
    UpperRunEndAt(s, 0, |l|);
    assert s[|l|] == d[0];
    assert MatchStartsAt(s, 0);
    DigitRunEndAt(s, |l|, |s|);
    ColumnValueOfName(col);
  }

  /** Text without capital letters holds no match. */
  lemma NoMatchWithoutLetters(s: string)
    requires forall m | 0 <= m < |s| :: !IsUpper(s[m])
    ensures ParseAddress(s) == Err("Invalid cell address: " + s)
  {
    assert FirstMatchFrom(s, 0).None?;
  }

  /** Letters followed by text that starts with a non-digit and has no capital letters hold no match. */
  lemma NoMatchAfterLetters(l: string, t: string)
    requires AllUpper(l) && t != [] && !IsDigit(t[0])
    requires forall m | 0 <= m < |t| :: !IsUpper(t[m])
    ensures ParseAddress(l + t) == Err("Invalid cell address: " + (l + t))
  {
    var s := l + t;
    forall i | 0 <= i < |s|
      ensures !MatchStartsAt(s, i)
    {
      if i < |l| {
        assert s[i..|l|] == l[i..];
        UpperRunEndAt(s, i, |l|);
        assert s[|l|] == t[0];
      } else {
        assert s[i] == t[i - |l|];
      }
    }
    assert FirstMatchFrom(s, 0).None?;
  }

  /** A negative row or a column below 1 yields an address that parseAddress rejects. */
  lemma AddressOfInvalidPositionRejected(row: int, col: int)
    requires row < 0 || col < 1
    ensures ParseAddress(PositionToAddress(row, col)) == Err("Invalid cell address: " + PositionToAddress(row, col))
  {
    var l, t := ColumnName(col), IntToString(row);
    assert PositionToAddress(row, col) == l + t;
    assert forall m | 0 <= m < |t| :: !IsUpper(t[m]);
    if col < 1 {
      assert l + t == t;
      NoMatchWithoutLetters(t);
    } else {
      assert t[0] == '-';
      NoMatchAfterLetters(l, t);
    }
  }
}
