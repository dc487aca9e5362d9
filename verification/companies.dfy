/** The company record of the valuation engine and its ratio calculators:
    positivity check, mean return on equity (with its deviation), mean payout
    ratio, mean net margin and the current debt ratios.

    Every calculator takes Python's window arguments: a non-zero `yearsBack`
    selects the last `yearsBack` years of net income (0 stands for both `None`
    and `0`, which Python treats alike), otherwise both bounds must be given.
    The resulting bounds are used exactly as Python uses them, with negative
    indices wrapping, so no calculator needs a precondition; the properties
    are stated for windows that fit the series. */
module Companies {
  import opened Py
  import opened Dispersion

  const WindowUndefined := "i1 and i2 must be defined"
  const NegativeEquity := "negative equity"

  datatype Series = Equity | NetIncome | Dividend | Revenue | Assets | Liabilities

  /** The six yearly series of a company, oldest year first. */
  datatype Financials = Financials(
    equity: seq<real>,
    netIncome: seq<real>,
    dividend: seq<real>,
    revenue: seq<real>,
    assets: seq<real>,
    liabilities: seq<real>)
  {
    /** `financials[name]` */
    function Get(s: Series): seq<real>
    {
      match s
      case Equity => equity
      case NetIncome => netIncome
      case Dividend => dividend
      case Revenue => revenue
      case Assets => assets
      case Liabilities => liabilities
    }
  }

  /** A company under evaluation. The last five fields are the values its
      methods cache; the screening reads some of them back. */
  datatype Company = Company(
    name: string,
    financials: Financials,
    marketCap: real,
    roe: real,
    roeDeviation: Deviation,
    margin: real,
    debtToEquity: real,
    debtToAssets: real)

  /** A value computed by a caching method, and the company after the call. */
  datatype Computed<+T> = Computed(value: T, after: Company)

  datatype Window = Window(lo: int, hi: int)

  /** A freshly constructed company whose financials have been loaded:
      market cap unset (0) and every cached metric 0. */
  function NewCompany(name: string, financials: Financials): (c: Company)
    ensures c.name == name && c.financials == financials
    ensures c.marketCap == 0.0 && c.roe == 0.0 && c.margin == 0.0
    ensures c.roeDeviation == Plain(0.0)
    ensures c.debtToEquity == 0.0 && c.debtToAssets == 0.0
  {
    Company(name, financials, 0.0, 0.0, Plain(0.0), 0.0, 0.0, 0.0)
  }

  /** 0 <= lo <= hi <= |s|: a window that needs no wrapping or clamping. */
  predicate Fits(lo: int, hi: int, s: seq<real>)
  {
    0 <= lo <= hi <= |s|
  }

  /** The window a calculator works on, for a series of length n. */
  function ResolveWindow(n: nat, yearsBack: int, i1: Option<int>, i2: Option<int>): (r: Result<Window>)
    ensures yearsBack != 0 ==> r == Ok(Window(n - yearsBack, n))
    ensures yearsBack == 0 && i1.Some? && i2.Some? ==> r == Ok(Window(i1.value, i2.value))
    ensures yearsBack == 0 && (i1.None? || i2.None?) ==> r == Err(ValueError(WindowUndefined))
  {
    if yearsBack != 0 then Ok(Window(n - yearsBack, n))
    else if i1.None? || i2.None? then Err(ValueError(WindowUndefined))
    else Ok(Window(i1.value, i2.value))
  }

  /** Python's `all(v > 0 for v in xs)`. */
  function AllPositive(xs: seq<real>): (b: bool)
    ensures b <==> forall k :: 0 <= k < |xs| ==> xs[k] > 0.0
  {
    |xs| == 0 || (xs[0] > 0.0 && AllPositive(xs[1..]))
  }

  // ---------------------------------------------------------------------
  // chk_pos
  // ---------------------------------------------------------------------

  /** Whether every value of one series in the window is strictly positive. */
  function ChkPos(c: Company, s: Series, yearsBack: int, i1: Option<int>, i2: Option<int>): (r: Result<bool>)
    ensures r.Err? <==> yearsBack == 0 && (i1.None? || i2.None?)
    ensures r.Err? ==> r.error == ValueError(WindowUndefined)
    ensures var xs := c.financials.Get(s);
            0 < yearsBack <= |xs| ==>
              r.Ok? && (r.value <==> forall j :: |xs| - yearsBack <= j < |xs| ==> xs[j] > 0.0)
    ensures var xs := c.financials.Get(s);
            yearsBack == 0 && i1.Some? && i2.Some? && Fits(i1.value, i2.value, xs) ==>
              r.Ok? && (r.value <==> forall j :: i1.value <= j < i2.value ==> xs[j] > 0.0)
  {
    var xs := c.financials.Get(s);
    var w :- ResolveWindow(|xs|, yearsBack, i1, i2);
    var part := Slice(xs, w.lo, w.hi);
    assert Fits(w.lo, w.hi, xs) ==> forall j :: w.lo <= j < w.hi ==> xs[j] == part[j - w.lo];
    Ok(AllPositive(part))
  }

  /** A history shorter than the requested look-back is not checked whole:
      the negative start index wraps, so with four years of data the
      five-year check only looks at the latest year. */
  lemma FiveYearCheckOnFourYears(c: Company)
    requires |c.financials.netIncome| == 4
    ensures ChkPos(c, NetIncome, 5, None, None) == Ok(c.financials.netIncome[3] > 0.0)
  {
    var xs := c.financials.netIncome;
    assert Slice(xs, -1, 4) == [xs[3]];
  }

  /** A look-back of at least twice the history leaves the slice's start
      at or below the first year even after wrapping, so the slice clamps and
      the whole history is checked. */
  lemma OverlongCheckTakesWholeHistory(c: Company, s: Series, yearsBack: int)
    requires yearsBack > 0 && yearsBack >= 2 * |c.financials.Get(s)|
    ensures var xs := c.financials.Get(s);
      ChkPos(c, s, yearsBack, None, None) == Ok(forall j :: 0 <= j < |xs| ==> xs[j] > 0.0)
  {
    var xs := c.financials.Get(s);
    assert Slice(xs, |xs| - yearsBack, |xs|) == xs;
  }

  // ---------------------------------------------------------------------
  // mean_roe
  // ---------------------------------------------------------------------

  /** Return on equity in each year of a fitting window with positive equity. */
  ghost function RoeSeries(f: Financials, lo: int, hi: int): (r: seq<real>)
    requires Fits(lo, hi, f.equity) && hi <= |f.netIncome|
    requires forall j :: lo <= j < hi ==> f.equity[j] > 0.0
  {
    seq(hi - lo, k requires 0 <= k < hi - lo => f.netIncome[lo + k] / f.equity[lo + k])
  }

  /** The per-year ROEs over `range(i, hi)`, raising on non-positive equity;
      a year with zero income contributes exactly 0. */
  function RoeSamples(equity: seq<real>, netIncome: seq<real>, i: int, hi: int): (r: Result<seq<real>>)
    decreases hi - i
    ensures r.Ok? ==> |r.value| == (if i >= hi then 0 else hi - i)
    ensures 0 <= i <= hi <= |equity| && hi <= |netIncome| ==>
      && (r.Ok? <==> forall j :: i <= j < hi ==> equity[j] > 0.0)
      && (r.Err? ==> r.error == ValueError(NegativeEquity))
      && (r.Ok? ==> |r.value| == hi - i)
      && (r.Ok? ==> forall k :: 0 <= k < hi - i ==> r.value[k] == netIncome[i + k] / equity[i + k])
  {
    if i >= hi then Ok([])
    else
      var e :- Get(equity, i);
      if e <= 0.0 then Err(ValueError(NegativeEquity))
      else
        var n :- Get(netIncome, i);
        var roe := if n == 0.0 then 0.0 else n / e;
        var rest :- RoeSamples(equity, netIncome, i + 1, hi);
        Ok([roe] + rest)
  }

  /** A five-year window over a four-year history starts at index -1, which
      wraps to the latest year: that year is sampled twice. */
  lemma FiveYearRoeOnFourYears(equity: seq<real>, netIncome: seq<real>)
    requires |equity| == 4 && |netIncome| == 4
    requires forall j :: 0 <= j < 4 ==> equity[j] > 0.0
    ensures var r := RoeSamples(equity, netIncome, -1, 4);
      && r.Ok? && |r.value| == 5
      && r.value[0] == r.value[4] == netIncome[3] / equity[3]
  {
    var rest := RoeSamples(equity, netIncome, 0, 4);
    assert rest.Ok? && rest.value[3] == netIncome[3] / equity[3];
  }

  /** `mean_roe` on resolved bounds: caches and returns the mean ROE, and
      caches stdev / mean as the deviation. */
  function MeanRoeOver(c: Company, lo: int, hi: int): (r: Result<Computed<real>>)
    ensures r.Ok? ==> r.value.after == c.(roe := r.value.value, roeDeviation := r.value.after.roeDeviation)
    ensures r.Ok? ==> hi - lo >= 2
    ensures var f := c.financials;
      Fits(lo, hi, f.equity) && hi <= |f.netIncome| ==>
        && ((exists j :: lo <= j < hi && f.equity[j] <= 0.0) ==> r == Err(ValueError(NegativeEquity)))
        && ((forall j :: lo <= j < hi ==> f.equity[j] > 0.0) ==>
              && (hi - lo < 2 ==> r == Err(StatisticsError))
              && (hi - lo >= 2 ==>
                    var roes := RoeSeries(f, lo, hi);
                    && (Mean(roes) == 0.0 ==> r == Err(ZeroDivisionError))
                    && (Mean(roes) != 0.0 ==>
                          r.Ok? && r.value.value == Mean(roes)
                          && r.value.after.roeDeviation == StdevOverMean(Variance(roes), Mean(roes)))))
  {
    var roes :- RoeSamples(c.financials.equity, c.financials.netIncome, lo, hi);
    var f := c.financials;
    assert Fits(lo, hi, f.equity) && hi <= |f.netIncome| ==> roes == RoeSeries(f, lo, hi);
    if |roes| < 2 then Err(StatisticsError)
    else
      var m := Mean(roes);
      if m == 0.0 then Err(ZeroDivisionError)
      else
        Ok(Computed(m, c.(roe := m, roeDeviation := StdevOverMean(Variance(roes), m))))
  }

  /** `Company.mean_roe(years_back, i1, i2)`. */
  function MeanRoe(c: Company, yearsBack: int, i1: Option<int>, i2: Option<int>): (r: Result<Computed<real>>)
    ensures yearsBack != 0 ==>
      r == MeanRoeOver(c, |c.financials.netIncome| - yearsBack, |c.financials.netIncome|)
    ensures yearsBack == 0 && i1.Some? && i2.Some? ==> r == MeanRoeOver(c, i1.value, i2.value)
    ensures yearsBack == 0 && (i1.None? || i2.None?) ==> r == Err(ValueError(WindowUndefined))
  {
    var w :- ResolveWindow(|c.financials.netIncome|, yearsBack, i1, i2);
    MeanRoeOver(c, w.lo, w.hi)
  }

  /** The cached ROE and deviation are determined by the series alone,
      whatever the cache held before. */
  lemma MeanRoeIgnoresCache(c: Company, d: Company, lo: int, hi: int)
    requires c.financials == d.financials
    ensures MeanRoeOver(c, lo, hi).Ok? == MeanRoeOver(d, lo, hi).Ok?
    ensures MeanRoeOver(c, lo, hi).Ok? ==>
      && MeanRoeOver(c, lo, hi).value.value == MeanRoeOver(d, lo, hi).value.value
      && MeanRoeOver(c, lo, hi).value.after.roeDeviation == MeanRoeOver(d, lo, hi).value.after.roeDeviation
  {
  }

  /** Over a positive mean, the cached deviation stands for a non-negative
      number (over a negative mean it would be non-positive). */
  lemma DeviationSign(c: Company, lo: int, hi: int, x: real)
    requires MeanRoeOver(c, lo, hi).Ok?
    requires Denotes(MeanRoeOver(c, lo, hi).value.after.roeDeviation, x)
    ensures MeanRoeOver(c, lo, hi).value.value > 0.0 ==> x >= 0.0
    ensures MeanRoeOver(c, lo, hi).value.value < 0.0 ==> x <= 0.0
  {
    var r := MeanRoeOver(c, lo, hi);
    var roes :| RoeSamples(c.financials.equity, c.financials.netIncome, lo, hi) == Ok(roes);
    SignFollowsMean(Variance(roes), r.value.value, x);
  }

  // ---------------------------------------------------------------------
  // mean_pr
  // ---------------------------------------------------------------------

  /** The income a dividend paid in year i is measured against: Python's
      `net_income[i - 1]`, which for the first year is index -1, the LATEST year. */
  function PriorIncome(netIncome: seq<real>, i: int): real
    requires 0 <= i < |netIncome|
  {
    if i == 0 then netIncome[|netIncome| - 1] else netIncome[i - 1]
  }

  /** The payout ratio of year j: its dividend over the prior income. */
  function Payout(netIncome: seq<real>, dividend: seq<real>, j: int): real
    requires 0 <= j < |netIncome| && j < |dividend| && PriorIncome(netIncome, j) > 0.0
  {
    dividend[j] / PriorIncome(netIncome, j)
  }

  /** The years of [lo, hi) whose prior income is positive, in order. */
  ghost function QualifyingYears(netIncome: seq<real>, lo: int, hi: int): (q: seq<int>)
    requires 0 <= lo <= hi <= |netIncome|
    decreases hi - lo
    ensures forall k :: 0 <= k < |q| ==> lo <= q[k] < hi && PriorIncome(netIncome, q[k]) > 0.0
    ensures forall j :: lo <= j < hi && PriorIncome(netIncome, j) > 0.0 ==> j in q
    ensures forall a, b :: 0 <= a < b < |q| ==> q[a] < q[b]
  {
    if lo == hi then []
    else
      var rest := QualifyingYears(netIncome, lo + 1, hi);
      if PriorIncome(netIncome, lo) > 0.0 then
        QualifyingYearsCons(netIncome, lo, hi, rest);
        [lo] + rest
      else rest
  }

  /** A qualifying year in front of the later qualifying years. */
  lemma QualifyingYearsCons(netIncome: seq<real>, lo: int, hi: int, rest: seq<int>)
    requires 0 <= lo < hi <= |netIncome| && PriorIncome(netIncome, lo) > 0.0
    requires forall k :: 0 <= k < |rest| ==> lo + 1 <= rest[k] < hi && PriorIncome(netIncome, rest[k]) > 0.0
    requires forall a, b :: 0 <= a < b < |rest| ==> rest[a] < rest[b]
    ensures var q := [lo] + rest;
      && (forall k :: 0 <= k < |q| ==> lo <= q[k] < hi && PriorIncome(netIncome, q[k]) > 0.0)
      && (forall a, b :: 0 <= a < b < |q| ==> q[a] < q[b])
  {
    var q := [lo] + rest;
    assert forall k :: 0 < k < |q| ==> q[k] == rest[k - 1];
  }

  /** Years whose payout ratio is defined. */
  ghost predicate PayableYears(netIncome: seq<real>, dividend: seq<real>, q: seq<int>)
  {
    forall k :: 0 <= k < |q| ==> 0 <= q[k] < |netIncome| && q[k] < |dividend| && PriorIncome(netIncome, q[k]) > 0.0
  }

  /** The payout ratios of the given years, in order. */
  ghost function Payouts(netIncome: seq<real>, dividend: seq<real>, q: seq<int>): (r: seq<real>)
    requires PayableYears(netIncome, dividend, q)
  {
    seq(|q|, k requires 0 <= k < |q| => Payout(netIncome, dividend, q[k]))
  }

  lemma PayoutsCons(netIncome: seq<real>, dividend: seq<real>, j: int, q: seq<int>)
    requires 0 <= j < |netIncome| && j < |dividend| && PriorIncome(netIncome, j) > 0.0
    requires PayableYears(netIncome, dividend, q)
    ensures PayableYears(netIncome, dividend, [j] + q)
    ensures Payouts(netIncome, dividend, [j] + q) == [Payout(netIncome, dividend, j)] + Payouts(netIncome, dividend, q)
  {
    var jq := [j] + q;
    assert forall k :: 0 <= k < |q| ==> q[k] == jq[k + 1];
  }

  /** The payout ratio of each qualifying year. */
  ghost function PayoutSeries(netIncome: seq<real>, dividend: seq<real>, lo: int, hi: int): (r: seq<real>)
    requires 0 <= lo <= hi <= |netIncome| && hi <= |dividend|
  {
    Payouts(netIncome, dividend, QualifyingYears(netIncome, lo, hi))
  }

  /** The payout samples of `range(i, hi)`: both reads happen for every year,
      a sample is kept only when the prior income is positive. */
  function PrSamples(netIncome: seq<real>, dividend: seq<real>, i: int, hi: int): (r: Result<seq<real>>)
    decreases hi - i
    ensures 0 <= i <= hi <= |netIncome| && hi <= |dividend| ==>
      r.Ok? && r.value == PayoutSeries(netIncome, dividend, i, hi)
  {
    if i >= hi then Ok([])
    else
      var inc :- Get(netIncome, i - 1);
      var div :- Get(dividend, i);
      var rest :- PrSamples(netIncome, dividend, i + 1, hi);
      var r := if inc > 0.0 then [div / inc] + rest else rest;
      assert 0 <= i <= hi <= |netIncome| && hi <= |dividend| ==>
        r == PayoutSeries(netIncome, dividend, i, hi) by {
        if 0 <= i <= hi <= |netIncome| && hi <= |dividend| {
          assert inc == PriorIncome(netIncome, i);
          assert inc > 0.0 ==> div / inc == Payout(netIncome, dividend, i);
          PayoutSeriesStep(netIncome, dividend, i, hi);
        }
      }
      Ok(r)
  }

  /** Unfolds the payout samples by one year. */
  lemma PayoutSeriesStep(netIncome: seq<real>, dividend: seq<real>, lo: int, hi: int)
    requires 0 <= lo < hi <= |netIncome| && hi <= |dividend|
    ensures var p := PriorIncome(netIncome, lo);
      PayoutSeries(netIncome, dividend, lo, hi) ==
        (if p > 0.0 then [Payout(netIncome, dividend, lo)] else []) + PayoutSeries(netIncome, dividend, lo + 1, hi)
  {
    var q' := QualifyingYears(netIncome, lo + 1, hi);
    if PriorIncome(netIncome, lo) > 0.0 {
      PayoutsCons(netIncome, dividend, lo, q');
    }
  }

  /** `mean_pr` on resolved bounds: the mean payout ratio when at least two
      samples exist, otherwise 0. Nothing is cached. */
  function MeanPrOver(c: Company, lo: int, hi: int): (r: Result<real>)
    ensures var f := c.financials;
      0 <= lo <= hi <= |f.netIncome| && hi <= |f.dividend| ==>
        var ps := PayoutSeries(f.netIncome, f.dividend, lo, hi);
        && r.Ok?
        && (|ps| < 2 ==> r.value == 0.0)
        && (|ps| >= 2 ==> r.value == Mean(ps))
  {
    var prs :- PrSamples(c.financials.netIncome, c.financials.dividend, lo, hi);
    Ok(if |prs| > 1 then Mean(prs) else 0.0)
  }

  /** `Company.mean_pr(years_back, i1, i2)`. */
  function MeanPr(c: Company, yearsBack: int, i1: Option<int>, i2: Option<int>): (r: Result<real>)
    ensures yearsBack != 0 ==>
      r == MeanPrOver(c, |c.financials.netIncome| - yearsBack, |c.financials.netIncome|)
    ensures yearsBack == 0 && i1.Some? && i2.Some? ==> r == MeanPrOver(c, i1.value, i2.value)
    ensures yearsBack == 0 && (i1.None? || i2.None?) ==> r == Err(ValueError(WindowUndefined))
  {
    var w :- ResolveWindow(|c.financials.netIncome|, yearsBack, i1, i2);
    MeanPrOver(c, w.lo, w.hi)
  }

  /** A window starting at the first year measures that year's dividend
      against the latest year's income. */
  lemma FirstYearPayoutUsesLatestIncome(netIncome: seq<real>, dividend: seq<real>, hi: int)
    requires 0 < hi <= |netIncome| && hi <= |dividend|
    requires netIncome[|netIncome| - 1] > 0.0
    ensures PayoutSeries(netIncome, dividend, 0, hi)[0] == dividend[0] / netIncome[|netIncome| - 1]
  {
    PayoutSeriesStep(netIncome, dividend, 0, hi);
  }

  // ---------------------------------------------------------------------
  // calc_margin
  // ---------------------------------------------------------------------

  /** The per-year net margins of `range(i, hi)`; zero revenue raises. */
  function MarginSamples(netIncome: seq<real>, revenue: seq<real>, i: int, hi: int): (r: Result<seq<real>>)
    decreases hi - i
    ensures 0 <= i <= hi <= |netIncome| && hi <= |revenue| ==>
      && (r.Ok? <==> forall j :: i <= j < hi ==> revenue[j] != 0.0)
      && (r.Err? ==> r.error == ZeroDivisionError)
      && (r.Ok? ==> |r.value| == hi - i)
      && (r.Ok? ==> forall k :: 0 <= k < hi - i ==> r.value[k] == netIncome[i + k] / revenue[i + k])
  {
    if i >= hi then Ok([])
    else
      var n :- Get(netIncome, i);
      var v :- Get(revenue, i);
      if v == 0.0 then Err(ZeroDivisionError)
      else
        var rest :- MarginSamples(netIncome, revenue, i + 1, hi);
        Ok([n / v] + rest)
  }

  /** `calc_margin` on resolved bounds: caches and returns the mean net margin. */
  function CalcMarginOver(c: Company, lo: int, hi: int): (r: Result<Computed<real>>)
    ensures r.Ok? ==> r.value.after == c.(margin := r.value.value)
    ensures var f := c.financials;
      Fits(lo, hi, f.netIncome) && hi <= |f.revenue| ==>
        && (r.Ok? <==> lo < hi && forall j :: lo <= j < hi ==> f.revenue[j] != 0.0)
        && (lo == hi ==> r == Err(StatisticsError))
        && (r.Ok? ==>
              r.value.value == Mean(seq(hi - lo, k requires 0 <= k < hi - lo => f.netIncome[lo + k] / f.revenue[lo + k])))
  {
    var margins :- MarginSamples(c.financials.netIncome, c.financials.revenue, lo, hi);
    var m :- PyMean(margins);
    var f := c.financials;
    assert Fits(lo, hi, f.netIncome) && hi <= |f.revenue| && lo < hi ==>
      margins == seq(hi - lo, k requires 0 <= k < hi - lo => f.netIncome[lo + k] / f.revenue[lo + k]);
    Ok(Computed(m, c.(margin := m)))
  }

  /** `Company.calc_margin(years_back, i1, i2)`. */
  function CalcMargin(c: Company, yearsBack: int, i1: Option<int>, i2: Option<int>): (r: Result<Computed<real>>)
    ensures yearsBack != 0 ==>
      r == CalcMarginOver(c, |c.financials.netIncome| - yearsBack, |c.financials.netIncome|)
    ensures yearsBack == 0 && i1.Some? && i2.Some? ==> r == CalcMarginOver(c, i1.value, i2.value)
    ensures yearsBack == 0 && (i1.None? || i2.None?) ==> r == Err(ValueError(WindowUndefined))
  {
    var w :- ResolveWindow(|c.financials.netIncome|, yearsBack, i1, i2);
    CalcMarginOver(c, w.lo, w.hi)
  }

  /** Beyond twice the history the wrapped start index is still out of range,
      so the ROE and margin calculators raise IndexError where `chk_pos` clamps. */
  lemma OverlongLookBackRaises(c: Company, yearsBack: int)
    requires var f := c.financials;
      |f.equity| == |f.revenue| == |f.netIncome|
    requires yearsBack > 2 * |c.financials.netIncome|
    ensures MeanRoe(c, yearsBack, None, None) == Err(IndexError)
    ensures CalcMargin(c, yearsBack, None, None) == Err(IndexError)
  {
    var f := c.financials;
    var lo := |f.netIncome| - yearsBack;
    assert Get(f.equity, lo) == Err(IndexError);
    assert Get(f.netIncome, lo) == Err(IndexError);
  }

  /** `mean_pr` reads the income of the year before the window's start, so it
      raises one year earlier: already at a look-back of twice the history. */
  lemma OverlongPayoutRaises(c: Company, yearsBack: int)
    requires yearsBack > 0 && yearsBack >= 2 * |c.financials.netIncome|
    ensures MeanPr(c, yearsBack, None, None) == Err(IndexError)
  {
    var f := c.financials;
    assert Get(f.netIncome, |f.netIncome| - yearsBack - 1) == Err(IndexError);
  }

  // ---------------------------------------------------------------------
  // current debt ratios
  // ---------------------------------------------------------------------

  /** Latest liabilities over latest equity, cached. */
  function DebtToEquityCurrent(c: Company): (r: Result<Computed<real>>)
    ensures var f := c.financials;
      r.Ok? <==> |f.liabilities| > 0 && |f.equity| > 0 && f.equity[|f.equity| - 1] != 0.0
    ensures var f := c.financials;
      r.Ok? ==> r.value.value * f.equity[|f.equity| - 1] == f.liabilities[|f.liabilities| - 1]
    ensures r.Ok? ==> r.value.after == c.(debtToEquity := r.value.value)
  {
    var l :- Get(c.financials.liabilities, -1);
    var e :- Get(c.financials.equity, -1);
    if e == 0.0 then Err(ZeroDivisionError)
    else Ok(Computed(l / e, c.(debtToEquity := l / e)))
  }

  /** Latest liabilities over latest assets, cached. */
  function DebtToAssetsCurrent(c: Company): (r: Result<Computed<real>>)
    ensures var f := c.financials;
      r.Ok? <==> |f.liabilities| > 0 && |f.assets| > 0 && f.assets[|f.assets| - 1] != 0.0
    ensures var f := c.financials;
      r.Ok? ==> r.value.value * f.assets[|f.assets| - 1] == f.liabilities[|f.liabilities| - 1]
    ensures r.Ok? ==> r.value.after == c.(debtToAssets := r.value.value)
  {
    var l :- Get(c.financials.liabilities, -1);
    var a :- Get(c.financials.assets, -1);
    if a == 0.0 then Err(ZeroDivisionError)
    else Ok(Computed(l / a, c.(debtToAssets := l / a)))
  }

  /** The ratio is the latest liabilities over the latest assets. */
  lemma DebtToAssetsIsQuotient(c: Company, liabilities: real, assets: real)
    requires DebtToAssetsCurrent(c).Ok?
    requires var f := c.financials;
      liabilities == f.liabilities[|f.liabilities| - 1] && assets == f.assets[|f.assets| - 1]
    ensures DebtToAssetsCurrent(c).value.value == liabilities / assets
  {
  }

  /** The ratio depends on the statements only, not on anything cached. */
  lemma DebtToAssetsReadsStatements(c: Company, d: Company)
    requires c.financials == d.financials
    ensures DebtToAssetsCurrent(c).Ok? <==> DebtToAssetsCurrent(d).Ok?
    ensures DebtToAssetsCurrent(c).Ok? ==> DebtToAssetsCurrent(c).value.value == DebtToAssetsCurrent(d).value.value
  {
  }
}
