/** The two computing helpers of the Google Finance scraper: `remove_suffix`,
    which reads amounts such as "12,5mln", and `virtual_dividend`, which
    derives the dividends Google Finance does not report from net income and
    the change in equity. */
module GoogleFinance {
  import opened Py
  import opened Numerals
  import opened Companies

  /** The multiplier of each three-letter magnitude suffix. The amounts come
      out in thousands: "tys" (thousands) counts 1 and "bln" 10^9. */
  const Scales: map<string, real> :=
    map["bln" := 1_000_000_000.0, "mld" := 1_000_000.0, "mln" := 1_000.0, "tys" := 1.0]

  /** What `float()` says when it rejects its argument. */
  const InvalidFloat := "could not convert string to float"

  /** `M[m]`: KeyError for a suffix that is not one of the four. */
  function Scale(suffix: string): (r: Result<real>)
    ensures r.Ok? <==> suffix in Scales
    ensures r.Ok? ==> r.value == Scales[suffix] && r.value >= 1.0
    ensures r.Err? ==> r.error == KeyError
  {
    if suffix in Scales then Ok(Scales[suffix]) else Err(KeyError)
  }

  /** `s.replace(",", ".")`. */
  function ReplaceCommas(s: string): (t: string)
    ensures |t| == |s|
    ensures forall k :: 0 <= k < |s| ==> t[k] == (if s[k] == ',' then '.' else s[k])
    ensures ',' !in t
  {
    if |s| == 0 then ""
    else [if s[0] == ',' then '.' else s[0]] + ReplaceCommas(s[1..])
  }

  lemma {:induction false} ReplaceCommasAppend(a: string, b: string)
    ensures ReplaceCommas(a + b) == ReplaceCommas(a) + ReplaceCommas(b)
  {
    if |a| == 0 {
      assert a + b == b;
    } else {
      assert (a + b)[1..] == a[1..] + b;
      ReplaceCommasAppend(a[1..], b);
    }
  }

  lemma {:induction false} ReplaceCommasOfDigits(s: string)
    requires AllDigits(s)
    ensures ReplaceCommas(s) == s
  {
    if |s| > 0 {
      assert s[0] != ',';
      ReplaceCommasOfDigits(s[1..]);
    }
  }

  /** A number in the unit a suffix names, converted to thousands. */
  function Scaled(number: real, suffix: string): real
    requires suffix in Scales
  {
    number * Scales[suffix]
  }

  /** The amount without its last three characters, comma read as the decimal point. */
  function Body(s: string): string
  {
    ReplaceCommas(Slice(s, 0, |s| - 3))
  }

  /** The last three characters (fewer when the string is shorter). */
  function Suffix(s: string): string
  {
    Slice(s, |s| - 3, |s|)
  }

  /** `remove_suffix(string)`: the number before the suffix times the
      suffix's multiplier. The number is parsed first, so an unreadable
      number raises ValueError even when the suffix is unknown too. */
  function RemoveSuffix(s: string): (r: Result<real>)
    ensures r.Ok? <==> ParseFloat(Body(s)).Some? && Suffix(s) in Scales
    ensures ParseFloat(Body(s)).None? ==> r == Err(ValueError(InvalidFloat))
    ensures ParseFloat(Body(s)).Some? && Suffix(s) !in Scales ==> r == Err(KeyError)
    ensures r.Ok? ==> r.value == Scaled(ParseFloat(Body(s)).value, Suffix(s))
  {
    match ParseFloat(Body(s))
    case None => Err(ValueError(InvalidFloat))
    case Some(refined) =>
      var _ :- Scale(Suffix(s));
      Ok(Scaled(refined, Suffix(s)))
  }

  /** An amount split into its number and a three-letter suffix. */
  lemma SplitAmount(number: string, suffix: string)
    requires |suffix| == 3
    ensures Body(number + suffix) == ReplaceCommas(number)
    ensures Suffix(number + suffix) == suffix
  {
    var s := number + suffix;
    assert s[..|number|] == number;
    assert s[|number|..] == suffix;
  }

  /** The reading of an amount whose number and suffix are known. */
  lemma RemoveSuffixOf(s: string, v: real, suffix: string)
    requires ParseFloat(Body(s)) == Some(v) && Suffix(s) == suffix && suffix in Scales
    ensures RemoveSuffix(s) == Ok(Scaled(v, suffix))
  {
  }

  /** The number part of "whole,fraction" followed by a suffix. */
  lemma DecimalBody(whole: string, fraction: string, suffix: string)
    requires |whole| > 0 && AllDigits(whole) && AllDigits(fraction)
    requires |suffix| == 3
    ensures ParseFloat(Body(whole + "," + fraction + suffix))
      == Some(DecimalValue(whole, fraction))
  {
    var number := whole + "," + fraction;
    SplitAmount(number, suffix);
    ReplaceCommasAppend(whole + ",", fraction);
    ReplaceCommasAppend(whole, ",");
    ReplaceCommasOfDigits(whole);
    ReplaceCommasOfDigits(fraction);
    assert ReplaceCommas(",") == "." by {
      assert ","[1..] == "";
    }
    assert Body(number + suffix) == whole + "." + fraction;
    ParseFloatDecimal(whole, fraction);
  }

  /** "whole,fraction" followed by a known suffix reads as the decimal
      number scaled by that suffix: "12,5mln" is 12500 thousands. */
  lemma RemoveSuffixDecimal(whole: string, fraction: string, suffix: string)
    requires |whole| > 0 && AllDigits(whole) && AllDigits(fraction)
    requires suffix in Scales
    ensures RemoveSuffix(whole + "," + fraction + suffix)
      == Ok(Scaled(DecimalValue(whole, fraction), suffix))
  {
    assert |suffix| == 3;
    DecimalBody(whole, fraction, suffix);
    SplitAmount(whole + "," + fraction, suffix);
    RemoveSuffixOf(whole + "," + fraction + suffix, DecimalValue(whole, fraction), suffix);
  }

  /** The number part of digits followed by a suffix. */
  lemma WholeBody(whole: string, suffix: string)
    requires |whole| > 0 && AllDigits(whole)
    requires |suffix| == 3
    ensures ParseFloat(Body(whole + suffix)) == Some(DigitsValue(whole) as real)
  {
    SplitAmount(whole, suffix);
    ReplaceCommasOfDigits(whole);
    ParseFloatWhole(whole);
  }

  /** Digits followed by a known suffix read as their value scaled by it. */
  lemma RemoveSuffixWhole(whole: string, suffix: string)
    requires |whole| > 0 && AllDigits(whole)
    requires suffix in Scales
    ensures RemoveSuffix(whole + suffix) == Ok(Scaled(DigitsValue(whole) as real, suffix))
  {
    assert |suffix| == 3;
    WholeBody(whole, suffix);
    SplitAmount(whole, suffix);
    RemoveSuffixOf(whole + suffix, DigitsValue(whole) as real, suffix);
  }

  /** A readable number with any other three-character suffix raises KeyError. */
  lemma UnknownSuffixRaises(number: string, suffix: string)
    requires |suffix| == 3 && suffix !in Scales
    requires ParseFloat(ReplaceCommas(number)).Some?
    ensures RemoveSuffix(number + suffix) == Err(KeyError)
  {
    SplitAmount(number, suffix);
  }

  function Max(a: int, b: int): int
  {
    if a >= b then a else b
  }

  /** The dividend implied for position x of the reversed lists: the income
      at x less the equity change from position x to position x - 1. */
  function Implied(i: seq<real>, e: seq<real>, x: nat): real
    requires 1 <= x < |e| && x < |i|
  {
    i[x] - (e[x - 1] - e[x])
  }

  /** `virtual_dividend(net_incomes, equity)`. Both lists are reversed in
      place first, and the reversed lists are what the caller holds
      afterwards. Over the reversed lists, the dividend of year x + 1 is
      that year's income less the equity change from year x + 1 to year x;
      the first dividend is 0. A net-income list shorter than the equity
      list raises IndexError once the loop reaches its end. */
  method VirtualDividend(netIncomes: seq<real>, equity: seq<real>)
    returns (i: seq<real>, e: seq<real>, dividends: Result<seq<real>>)
    ensures i == Reverse(netIncomes) && e == Reverse(equity)
    ensures dividends.Ok? <==> |equity| < 2 || |netIncomes| >= |equity|
    ensures dividends.Err? ==> dividends.error == IndexError
    ensures dividends.Ok? ==>
      && |dividends.value| == Max(|equity|, 1)
      && dividends.value[0] == 0.0
      && forall x :: 1 <= x < |dividends.value| ==>
           x < |i| && dividends.value[x] == Implied(i, e, x)
  {
    e := Reverse(equity);
    i := Reverse(netIncomes);
    var l := |e|;
    var x := 0;
    var ds := [0.0];
    while x < l - 1
      invariant 0 <= x <= Max(l - 1, 0)
      invariant x == 0 || x < |i|
      invariant |ds| == x + 1 && ds[0] == 0.0
      invariant forall k :: 1 <= k <= x ==> k < |i| && ds[k] == Implied(i, e, k)
    {
      if x + 1 >= |i| {
        dividends := Err(IndexError);
        return;
      }
      ds := ds + [i[x + 1] - (e[x] - e[x + 1])];
      x := x + 1;
    }
    dividends := Ok(ds);
  }

  /** The same dividends in the callers' original (unreversed) indexing:
      with n years of equity and m of income, the dividend at reversed
      position x pairs the income of original year m - 1 - x with the
      equity change from original year n - 1 - x to n - x. */
  method VirtualDividendOriginalOrder(netIncomes: seq<real>, equity: seq<real>)
    returns (dividends: Result<seq<real>>)
    ensures dividends.Ok? <==> |equity| < 2 || |netIncomes| >= |equity|
    ensures dividends.Ok? ==>
      && |dividends.value| == Max(|equity|, 1)
      && forall x :: 1 <= x < |equity| ==>
           var n, m := |equity|, |netIncomes|;
           dividends.value[x] == netIncomes[m - 1 - x] - (equity[n - x] - equity[n - 1 - x])
  {
    var _, _, ds := VirtualDividend(netIncomes, equity);
    dividends := ds;
  }

  /** The scraped record after `vals["dividend"] = virtual_dividend(
      vals['net_income'], vals['equity'])`: the dividend row is replaced
      and the income and equity rows are left reversed; revenue, assets and
      liabilities keep their order. An IndexError propagates and no record
      is produced. */
  method AttachVirtualDividend(f: Financials) returns (r: Result<Financials>)
    ensures r.Ok? <==> |f.equity| < 2 || |f.netIncome| >= |f.equity|
    ensures r.Err? ==> r.error == IndexError
    ensures r.Ok? ==>
      && r.value.netIncome == Reverse(f.netIncome)
      && r.value.equity == Reverse(f.equity)
      && r.value.revenue == f.revenue
      && r.value.assets == f.assets
      && r.value.liabilities == f.liabilities
      && |r.value.dividend| == Max(|f.equity|, 1)
      && r.value.dividend[0] == 0.0
      && forall x :: 1 <= x < |r.value.dividend| ==>
           x < |r.value.netIncome| && r.value.dividend[x] == Implied(r.value.netIncome, r.value.equity, x)
  {
    var i, e, dividends := VirtualDividend(f.netIncome, f.equity);
    match dividends
    case Err(error) => r := Err(error);
    case Ok(ds) => r := Ok(f.(netIncome := i, equity := e, dividend := ds));
  }
}
