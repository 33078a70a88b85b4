/**
 * The aggregate functions of evaluateFunction (src/utils/formula-engine.ts:47-72) over
 * the values gathered from the arguments, under the engine's coercion rules.
 */
module Aggregates {
  import opened Common
  import opened Text
  import opened CellModel

  /** What a value adds to SUM: its number when it is numeric, 0 otherwise. */
  function Contribution(v: Value): real
  {
    if IsNumeric(v) then ToNumber(v) else 0.0
  }

  /** SUM: `values.reduce((sum, val) => sum + (isNumeric(val) ? Number(val) : 0), 0)`. */
  function SumOf(vs: seq<Value>): real
  {
    if vs == [] then 0.0 else SumOf(vs[..|vs| - 1]) + Contribution(vs[|vs| - 1])
  }

  /** `values.filter(isNumeric).map(Number)`: the numbers of the numeric values, in order. */
  function NumericValues(vs: seq<Value>): (r: seq<real>)
    ensures |r| <= |vs|
  {
    if vs == [] then []
    else NumericValues(vs[..|vs| - 1]) + (if IsNumeric(vs[|vs| - 1]) then [ToNumber(vs[|vs| - 1])] else [])
  }

  function RealSum(xs: seq<real>): real
  {
    if xs == [] then 0.0 else RealSum(xs[..|xs| - 1]) + xs[|xs| - 1]
  }

  /** `Math.max(...xs)` for a non-empty list: an element that no element exceeds. */
  function MaxOf(xs: seq<real>): (m: real)
    requires |xs| > 0
    ensures m in xs && forall x | x in xs :: x <= m
  {
    if |xs| == 1 then xs[0]
    else
      var init, last := xs[..|xs| - 1], xs[|xs| - 1];
      var m' := MaxOf(init);
      assert xs == init + [last];
      assert forall x | x in xs :: x in init || x == last;
      if last > m' then last else m'
  }

  /** `Math.min(...xs)` for a non-empty list: an element that exceeds no element. */
  function MinOf(xs: seq<real>): (m: real)
    requires |xs| > 0
    ensures m in xs && forall x | x in xs :: m <= x
  {
    if |xs| == 1 then xs[0]
    else
      var init, last := xs[..|xs| - 1], xs[|xs| - 1];
      var m' := MinOf(init);
      assert xs == init + [last];
      assert forall x | x in xs :: x in init || x == last;
      if last < m' then last else m'
  }

  /** AVERAGE: the mean of the numeric values, 0 when there are none. */
  function Average(vs: seq<Value>): real
  {
    var ns := NumericValues(vs);
    if |ns| > 0 then RealSum(ns) / |ns| as real else 0.0
  }

  /** MAX: the largest numeric value, 0 when there are none. */
  function Maximum(vs: seq<Value>): real
  {
    var ns := NumericValues(vs);
    if |ns| > 0 then MaxOf(ns) else 0.0
  }

  /** MIN: the smallest numeric value, 0 when there are none. */
  function Minimum(vs: seq<Value>): real
  {
    var ns := NumericValues(vs);
    if |ns| > 0 then MinOf(ns) else 0.0
  }

  /** COUNT: how many values are numeric. */
  function Count(vs: seq<Value>): nat
  {
    |NumericValues(vs)|
  }

  /** The values COUNTA counts: `val !== null && val !== undefined && val !== ''`. */
  predicate IsPresent(v: Value)
  {
    v != Null && v != Undefined && v != Str("")
  }

  /** COUNTA: how many values are present. */
  function CountA(vs: seq<Value>): nat
  {
    if vs == [] then 0 else CountA(vs[..|vs| - 1]) + (if IsPresent(vs[|vs| - 1]) then 1 else 0)
  }

  /** The switch of evaluateFunction on the upper-cased name (a matched name already is upper case). */
  function Aggregate(name: string, vs: seq<Value>): (r: Result<Value>)
    ensures r.Err? <==> name !in {"SUM", "AVERAGE", "MAX", "MIN", "COUNT", "COUNTA"}
    ensures r.Err? ==> r.message == "Unsupported function: " + name
  {
    match name
    case "SUM" => Ok(Num(SumOf(vs)))
    case "AVERAGE" => Ok(Num(Average(vs)))
    case "MAX" => Ok(Num(Maximum(vs)))
    case "MIN" => Ok(Num(Minimum(vs)))
    case "COUNT" => Ok(Num(Count(vs) as real))
    case "COUNTA" => Ok(Num(CountA(vs) as real))
    case _ => Err("Unsupported function: " + name)
  }

  // ---------------------------------------------------------------- properties

  /** SUM adds the numeric values and counts the others as 0: it is the sum of NumericValues. */
  lemma {:induction false} SumIsSumOfNumeric(vs: seq<Value>)
    ensures SumOf(vs) == RealSum(NumericValues(vs))
  {
    if vs != [] {
      var init := vs[..|vs| - 1];
      SumIsSumOfNumeric(init);
      var ns := NumericValues(init);
      if IsNumeric(vs[|vs| - 1]) {
        assert (ns + [ToNumber(vs[|vs| - 1])])[..|ns|] == ns;
      } else {
        assert ns + [] == ns;
      }
    }
  }

  /** Non-numeric values change no aggregate but COUNTA. */
  lemma {:induction false} NonNumericIgnored(vs: seq<Value>, v: Value)
    requires !IsNumeric(v)
    ensures NumericValues(vs + [v]) == NumericValues(vs)
    ensures SumOf(vs + [v]) == SumOf(vs)
    ensures Average(vs + [v]) == Average(vs) && Maximum(vs + [v]) == Maximum(vs)
    ensures Minimum(vs + [v]) == Minimum(vs) && Count(vs + [v]) == Count(vs)
  {
    assert (vs + [v])[..|vs|] == vs;
  }

  /** AVERAGE times the number of numeric values is SUM. */
  lemma AverageTimesCount(vs: seq<Value>)
    requires Count(vs) > 0
    ensures Average(vs) * Count(vs) as real == SumOf(vs)
  {
    SumIsSumOfNumeric(vs);
  }

  /** MAX and MIN bound every numeric value and are numeric values themselves. */
  lemma MaximumMinimumBounds(vs: seq<Value>)
    requires Count(vs) > 0
    ensures Maximum(vs) in NumericValues(vs) && Minimum(vs) in NumericValues(vs)
    ensures forall x | x in NumericValues(vs) :: Minimum(vs) <= x <= Maximum(vs)
  {
  }

  /** Every numeric value is present, so COUNT never exceeds COUNTA. */
  lemma {:induction false} CountAtMostCountA(vs: seq<Value>)
    ensures Count(vs) <= CountA(vs) <= |vs|
  {
    if vs != [] {
      CountAtMostCountA(vs[..|vs| - 1]);
    }
  }

  /** The numeric values are exactly the numbers of the numeric elements, position by position. */
  lemma {:induction false} NumericValuesMembers(vs: seq<Value>)
    ensures forall x | x in NumericValues(vs) :: exists k | 0 <= k < |vs| :: IsNumeric(vs[k]) && ToNumber(vs[k]) == x
    ensures forall k | 0 <= k < |vs| && IsNumeric(vs[k]) :: ToNumber(vs[k]) in NumericValues(vs)
  {
    if vs != [] {
      var init, last := vs[..|vs| - 1], vs[|vs| - 1];
      NumericValuesMembers(init);
      forall x | x in NumericValues(vs)
        ensures exists k | 0 <= k < |vs| :: IsNumeric(vs[k]) && ToNumber(vs[k]) == x
      {
        if x in NumericValues(init) {
          var k :| 0 <= k < |init| && IsNumeric(init[k]) && ToNumber(init[k]) == x;
          assert vs[k] == init[k];
        } else {
          assert IsNumeric(last) && x == ToNumber(last) && vs[|vs| - 1] == last;
        }
      }
      forall k | 0 <= k < |vs| && IsNumeric(vs[k])
        ensures ToNumber(vs[k]) in NumericValues(vs)
      {
        if k < |init| {
          assert vs[k] == init[k];
        }
      }
    }
  }

  // ---------------------------------------------------------------- the values the tests use

  lemma SumOfSnoc(vs: seq<Value>, v: Value)
    ensures SumOf(vs + [v]) == SumOf(vs) + Contribution(v)
  {
    assert (vs + [v])[..|vs|] == vs;
  }

  lemma NumericValuesSnoc(vs: seq<Value>, v: Value)
    ensures NumericValues(vs + [v]) == NumericValues(vs) + (if IsNumeric(v) then [ToNumber(v)] else [])
  {
    assert (vs + [v])[..|vs|] == vs;
  }

  lemma CountASnoc(vs: seq<Value>, v: Value)
    ensures CountA(vs + [v]) == CountA(vs) + (if IsPresent(v) then 1 else 0)
  {
    assert (vs + [v])[..|vs|] == vs;
  }

  lemma SumOfNumbers(x: real, y: real, z: real)
    ensures SumOf([Num(x), Num(y), Num(z)]) == x + y + z
  {
    var a, b, c := Num(x), Num(y), Num(z);
    var empty: seq<Value> := [];
    assert [a] == empty + [a] && [a, b] == [a] + [b] && [a, b, c] == [a, b] + [c];
    SumOfSnoc(empty, a);
    SumOfSnoc([a], b);
    SumOfSnoc([a, b], c);
  }

  /** SUM of 10, 20 and 30 is 60. */
  lemma SumOfTestValues()
    ensures Aggregate("SUM", [Num(10.0), Num(20.0), Num(30.0)]) == Ok(Num(60.0))
  {
    SumOfNumbers(10.0, 20.0, 30.0);
  }

  lemma NumericValuesOfNumbers(x: real, y: real, z: real)
    ensures NumericValues([Num(x), Num(y), Num(z)]) == [x, y, z]
  {
    var a, b, c := Num(x), Num(y), Num(z);
    var empty: seq<Value> := [];
    assert [a] == empty + [a] && [a, b] == [a] + [b] && [a, b, c] == [a, b] + [c];
    NumericValuesSnoc(empty, a);
    NumericValuesSnoc([a], b);
    NumericValuesSnoc([a, b], c);
  }

  /** AVERAGE of 100, 200 and 300 is 200. */
  lemma AverageOfTestValues()
    ensures Aggregate("AVERAGE", [Num(100.0), Num(200.0), Num(300.0)]) == Ok(Num(200.0))
  {
    NumericValuesOfNumbers(100.0, 200.0, 300.0);
    var ns := [100.0, 200.0, 300.0];
    assert [100.0, 200.0] == [100.0] + [200.0] && ns == [100.0, 200.0] + [300.0];
    assert RealSum([100.0]) == 100.0;
    assert RealSum([100.0, 200.0]) == 300.0;
  }

  /** MAX of 5, 15 and 10 is 15 and MIN is 5. */
  lemma MaxMinOfTestValues()
    ensures Aggregate("MAX", [Num(5.0), Num(15.0), Num(10.0)]) == Ok(Num(15.0))
    ensures Aggregate("MIN", [Num(5.0), Num(15.0), Num(10.0)]) == Ok(Num(5.0))
  {
    NumericValuesOfNumbers(5.0, 15.0, 10.0);
    var ns := [5.0, 15.0, 10.0];
    var m, n := MaxOf(ns), MinOf(ns);
    assert m in ns && m >= 15.0;
    assert n in ns && n <= 5.0;
  }

  lemma TextIsNotNumeral()
    ensures !IsNumeral("text")
  {
    assert DotIndex("text") == 4;
    assert !IsDigit("text"[0]);
  }

  /** A non-numeral string between two numbers is skipped. */
  lemma NumericValuesSkipText(x: real, t: string, y: real)
    requires !IsNumeral(t)
    ensures NumericValues([Num(x), Str(t), Num(y)]) == [x, y]
  {
    var a, b, c := Num(x), Str(t), Num(y);
    var empty: seq<Value> := [];
    assert [a] == empty + [a] && [a, b] == [a] + [b] && [a, b, c] == [a, b] + [c];
    NumericValuesSnoc(empty, a);
    NumericValuesSnoc([a], b);
    NumericValuesSnoc([a, b], c);
  }

  /** COUNT of 1, "text" and an empty cell is 2: the empty cell reads as 0, which is numeric. */
  lemma CountOfMixedValues()
    ensures Aggregate("COUNT", [Num(1.0), Str("text"), OrZero(Null)]) == Ok(Num(2.0))
  {
    var vs := [Num(1.0), Str("text"), OrZero(Null)];
    assert vs == [Num(1.0), Str("text"), Num(0.0)];
    TextIsNotNumeral();
    NumericValuesSkipText(1.0, "text", 0.0);
    assert Count(vs) == 2;
  }

  function Present(v: Value): nat
  {
    if IsPresent(v) then 1 else 0
  }

  /** COUNTA of four values adds up their presence one by one. */
  lemma CountAOfFour(a: Value, b: Value, c: Value, d: Value)
    ensures CountA([a, b, c, d]) == Present(a) + Present(b) + Present(c) + Present(d)
  {
    var empty: seq<Value> := [];
    assert [a] == empty + [a] && [a, b] == [a] + [b];
    assert [a, b, c] == [a, b] + [c] && [a, b, c, d] == [a, b, c] + [d];
    CountASnoc(empty, a);
    CountASnoc([a], b);
    CountASnoc([a, b], c);
    CountASnoc([a, b, c], d);
  }

  /** COUNTA of 1, "text", null and '' is 2. */
  lemma CountAOfMixedValues()
    ensures Aggregate("COUNTA", [Num(1.0), Str("text"), Null, Str("")]) == Ok(Num(2.0))
  {
    var empty: string := [];
    CountAOfFour(Num(1.0), Str("text"), Null, Str(empty));
    assert CountA([Num(1.0), Str("text"), Null, Str(empty)]) == 2;
  }
}
