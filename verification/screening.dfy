/** The screening of `eval_stocks`: a company is excluded when its last five
    net incomes are not all positive or when an enabled filter (margin, mean
    ROE, ROE deviation) fails; otherwise it is valued and becomes a result
    row. Any exception along the way drops the company without a row. */
module Screening {
  import opened Py
  import opened Dispersion
  import opened Companies
  import opened Projection
  import opened Valuation
  import opened Handlers

  /** The discount rate and look-back `eval_stocks` values every company with. */
  const DiscountRate: real := 0.065
  const ValuationYears: int := 5

  /** The thresholds of one run; a threshold of 0 switches its filter off.
      `backYears` is the look-back of the margin and ROE filters. */
  datatype Filters = Filters(margin: real, roe: real, roeDeviation: real, backYears: int)

  /** Why a company was excluded, one per message the screening logs. */
  datatype Reason = NegativeEarnings | MarginTooLow | RoeTooLow | RoeTooVolatile

  /** One line of the results table. */
  datatype Row = Row(
    name: string,
    undervaluation: real,
    roe: real,
    margin: real,
    roeDeviation: Deviation,
    debtToAssets: real)

  /** The outcome for one company. */
  datatype Verdict = Included(row: Row) | Excluded(reasons: seq<Reason>) | Failed(error: Error)

  /** The margin filter: passes when switched off, otherwise the margin over
      the look-back must reach the threshold (the margin is cached). */
  function MarginCheck(c: Company, f: Filters): (r: Result<Computed<bool>>)
    ensures r.Ok? ==> r.value.after == c.(margin := r.value.after.margin)
    ensures f.margin == 0.0 ==> r == Ok(Computed(true, c))
    ensures f.margin != 0.0 ==>
      var m := CalcMargin(c, f.backYears, None, None);
      && (r.Ok? <==> m.Ok?)
      && (r.Ok? ==> r.value == Computed(m.value.value >= f.margin, m.value.after))
      && (r.Err? ==> r.error == m.error)
  {
    if f.margin == 0.0 then Ok(Computed(true, c))
    else
      var m :- CalcMargin(c, f.backYears, None, None);
      Ok(Computed(!(m.value < f.margin), m.after))
  }

  /** The ROE filter: passes when switched off, otherwise the mean ROE over
      the look-back must reach the threshold (ROE and deviation are cached). */
  function RoeCheck(c: Company, f: Filters): (r: Result<Computed<bool>>)
    ensures r.Ok? ==> r.value.after == c.(roe := r.value.after.roe, roeDeviation := r.value.after.roeDeviation)
    ensures f.roe == 0.0 ==> r == Ok(Computed(true, c))
    ensures f.roe != 0.0 ==>
      var m := MeanRoe(c, f.backYears, None, None);
      && (r.Ok? <==> m.Ok?)
      && (r.Ok? ==> r.value == Computed(m.value.value >= f.roe, m.value.after))
      && (r.Err? ==> r.error == m.error)
  {
    if f.roe == 0.0 then Ok(Computed(true, c))
    else
      var m :- MeanRoe(c, f.backYears, None, None);
      Ok(Computed(!(m.value < f.roe), m.after))
  }

  /** The deviation filter compares the CACHED deviation, whatever computed it. */
  predicate DeviationPasses(c: Company, f: Filters)
  {
    f.roeDeviation == 0.0 || !Exceeds(c.roeDeviation, f.roeDeviation)
  }

  /** The checks in `eval_stocks`' order: a failing earnings or margin check
      stops the screening; a failing ROE check is logged and the deviation
      check still runs. The reasons are empty when the company passes. */
  function Checks(c: Company, f: Filters): (r: Result<Computed<seq<Reason>>>)
    ensures r.Ok? ==>
      r.value.after == c.(margin := r.value.after.margin, roe := r.value.after.roe,
                          roeDeviation := r.value.after.roeDeviation)
    ensures r.Ok? ==> (NegativeEarnings in r.value.value <==> ChkPos(c, NetIncome, 5, None, None) == Ok(false))
    ensures r.Ok? && NegativeEarnings in r.value.value ==> r.value == Computed([NegativeEarnings], c)
  {
    var positive := ChkPos(c, NetIncome, 5, None, None).value;
    if !positive then Ok(Computed([NegativeEarnings], c))
    else
      var margin :- MarginCheck(c, f);
      if !margin.value then Ok(Computed([MarginTooLow], margin.after))
      else
        var roe :- RoeCheck(margin.after, f);
        var roeReasons := if roe.value then [] else [RoeTooLow];
        var deviationReasons := if DeviationPasses(roe.after, f) then [] else [RoeTooVolatile];
        assert NegativeEarnings !in roeReasons + deviationReasons;
        Ok(Computed(roeReasons + deviationReasons, roe.after))
  }

  /** The valuation of a company that passed: the market capitalisation just
      fetched, the undervaluation factor at 6.5% over five years, then the
      row built from what the record caches and its current debt-to-assets. */
  function Value(c: Company, marketCap: real): (r: Result<Row>)
    ensures var uvf := CalcUvf(c.(marketCap := marketCap), DiscountRate, ValuationYears);
      r.Ok? <==> uvf.Ok? && DebtToAssetsCurrent(uvf.value.after).Ok?
    ensures r.Ok? ==>
      var uvf := CalcUvf(c.(marketCap := marketCap), DiscountRate, ValuationYears).value;
      && r.value.name == c.name
      && r.value.undervaluation == uvf.value
      && r.value.roe == uvf.after.roe
      && r.value.roeDeviation == uvf.after.roeDeviation
      && r.value.margin == c.margin
    ensures r.Ok? ==>
      var uvf := CalcUvf(c.(marketCap := marketCap), DiscountRate, ValuationYears).value;
      r.value.debtToAssets == DebtToAssetsCurrent(uvf.after).value.value
  {
    var uvf :- CalcUvf(c.(marketCap := marketCap), DiscountRate, ValuationYears);
    var valued := uvf.after;
    assert valued.financials == c.financials && valued.margin == c.margin;
    var debt :- DebtToAssetsCurrent(valued);
    Ok(Row(c.name, uvf.value, valued.roe, valued.margin, valued.roeDeviation, debt.value))
  }

  /** The row's debt-to-assets ratio is the one of the company's own
      statements (latest liabilities over latest assets): valuing the
      company leaves its statements alone. */
  lemma RowDebtToAssets(c: Company, marketCap: real)
    requires Value(c, marketCap).Ok?
    ensures DebtToAssetsCurrent(c).Ok?
    ensures Value(c, marketCap).value.debtToAssets == DebtToAssetsCurrent(c).value.value
  {
    var valued := CalcUvf(c.(marketCap := marketCap), DiscountRate, ValuationYears).value.after;
    DebtToAssetsReadsStatements(valued, c);
  }

  /** One iteration of `eval_stocks`' loop; `marketCap` is what
      `set_market_cap` fetches for a company that passed the checks, or the
      exception the fetch raised. */
  function Screen(c: Company, f: Filters, marketCap: Result<real>): (r: Verdict)
    ensures r.Excluded? ==> |r.reasons| > 0
    ensures r.Included? ==> marketCap.Ok?
    ensures marketCap.Err? && r.Failed? ==> Checks(c, f).Err? || r.error == marketCap.error
  {
    match Checks(c, f)
    case Err(e) => Failed(e)
    case Ok(checked) =>
      if |checked.value| > 0 then Excluded(checked.value)
      else
        match marketCap
        case Err(e) => Failed(e)
        case Ok(cap) =>
          match Value(checked.after, cap)
          case Err(e) => Failed(e)
          case Ok(row) => Included(row)
  }

  /** A company is included exactly when the last five incomes are positive,
      each enabled filter passes on the record the previous check left, the
      market capitalisation is fetched, and the valuation raises nothing. */
  lemma IncludedIffChecksPass(c: Company, f: Filters, marketCap: Result<real>)
    ensures Screen(c, f, marketCap).Included? <==>
      && ChkPos(c, NetIncome, 5, None, None) == Ok(true)
      && MarginCheck(c, f).Ok? && MarginCheck(c, f).value.value
      && var c1 := MarginCheck(c, f).value.after;
         && RoeCheck(c1, f).Ok? && RoeCheck(c1, f).value.value
         && DeviationPasses(RoeCheck(c1, f).value.after, f)
         && marketCap.Ok?
         && Value(RoeCheck(c1, f).value.after, marketCap.value).Ok?
  {
  }

  /** A company that passed every check but whose capitalisation could not be
      fetched fails with the fetch's exception and gets no row. */
  lemma FailedFetchFails(c: Company, f: Filters, e: Error)
    requires Checks(c, f).Ok? && |Checks(c, f).value.value| == 0
    ensures Screen(c, f, Err(e)) == Failed(e)
  {
  }

  /** Behind Google Finance, a company whose capitalisation was never cached
      reads a cap of 0, so `calc_uvf` fails with MarketCapError: a passing
      company with equity data gets no row. */
  lemma UncachedCapFails(c: Company, f: Filters, caps: map<string, real>)
    requires Checks(c, f).Ok? && |Checks(c, f).value.value| == 0
    requires |c.financials.equity| > 0 && c.name !in caps
    ensures Screen(c, f, GfMarketCap(caps, c.name)) == Failed(MarketCapError)
  {
    var checked := Checks(c, f).value.after;
    assert checked.financials == c.financials;
    assert CalcUvf(checked.(marketCap := 0.0), DiscountRate, ValuationYears) == Err(MarketCapError);
  }

  /** Behind biznesradar.pl, a profile without the capitalisation label makes
      a passing company fail with KeyError. */
  lemma UnlabelledCapFails(c: Company, f: Filters, profile: map<string, string>)
    requires Checks(c, f).Ok? && |Checks(c, f).value.value| == 0
    requires CapitalisationLabel !in profile
    ensures Screen(c, f, BrMarketCap(Ok(profile))) == Failed(KeyError)
  {
  }

  /** An included company has five positive latest incomes; a company with a
      non-positive income among them is excluded for that reason alone. */
  lemma EarningsGate(c: Company, f: Filters, marketCap: Result<real>)
    requires |c.financials.netIncome| >= 5
    ensures var xs := c.financials.netIncome;
      (exists j :: |xs| - 5 <= j < |xs| && xs[j] <= 0.0) <==>
        Screen(c, f, marketCap) == Excluded([NegativeEarnings])
  {
    var xs := c.financials.netIncome;
    var positive := ChkPos(c, NetIncome, 5, None, None);
    assert positive.Ok?;
    assert positive.value <==> forall j :: |xs| - 5 <= j < |xs| ==> xs[j] > 0.0;
  }

  /** The row's ROE and deviation are NOT those the ROE filter judged: the
      valuation recomputes mean ROE over the last five years and the row
      reads that cache. */
  lemma RowRoeIsFiveYearMean(c: Company, f: Filters, marketCap: Result<real>)
    requires Screen(c, f, marketCap).Included?
    ensures var n := |c.financials.netIncome|;
      var m := MeanRoeOver(c, n - 5, n);
      && m.Ok?
      && Screen(c, f, marketCap).row.roe == m.value.value
      && Screen(c, f, marketCap).row.roeDeviation == m.value.after.roeDeviation
  {
    var checked := Checks(c, f).value.after;
    assert marketCap.Ok? && Value(checked, marketCap.value).Ok?;
    var c3 := checked.(marketCap := marketCap.value);
    var n := |c.financials.netIncome|;
    var uvf := CalcUvf(c3, DiscountRate, ValuationYears);
    assert uvf.Ok?;
    var income := EstimateIncomeClassic(c3, 5, 0.1, ValuationYears, None, None);
    assert ResolveWindow(n, ValuationYears, None, None) == Ok(Window(n - 5, n));
    assert uvf.value.after == income.value.after;
    assert income == EstimateIncomeClassicOver(c3, 5, 0.1, n - 5, n);
    MeanRoeIgnoresCache(c3, c, n - 5, n);
  }

  /** The row's margin is the margin filter's value when that filter is on,
      and the record's earlier cached margin when it is off. */
  lemma RowMarginIsCached(c: Company, f: Filters, marketCap: Result<real>)
    requires Screen(c, f, marketCap).Included?
    ensures f.margin != 0.0 ==>
      CalcMargin(c, f.backYears, None, None).Ok?
      && Screen(c, f, marketCap).row.margin == CalcMargin(c, f.backYears, None, None).value.value
    ensures f.margin == 0.0 ==> Screen(c, f, marketCap).row.margin == c.margin
  {
    var checks := Checks(c, f);
    assert checks.Ok? && |checks.value.value| == 0;
    var margin := MarginCheck(c, f);
    assert margin.Ok? && margin.value.value;
    assert checks.value.after.margin == margin.value.after.margin;
  }

  /** With the ROE filter off the deviation filter judges a record's cached
      deviation that nothing in the screening has computed: for a fresh
      record it is 0, and a positive threshold never excludes. */
  lemma DeviationFilterNeedsRoeFilter(c: Company, f: Filters, marketCap: Result<real>)
    requires f.roe == 0.0 && f.roeDeviation > 0.0
    requires c.roeDeviation == Plain(0.0)
    ensures Screen(c, f, marketCap) != Excluded([RoeTooVolatile])
    ensures Checks(c, f).Ok? ==> RoeTooVolatile !in Checks(c, f).value.value
  {
  }

  /** The screening as it would read with a `break` after the ROE check: the
      deviation check is skipped once the ROE check fails. */
  function ChecksWithRoeBreak(c: Company, f: Filters): (r: Result<Computed<seq<Reason>>>)
  {
    var positive := ChkPos(c, NetIncome, 5, None, None).value;
    if !positive then Ok(Computed([NegativeEarnings], c))
    else
      var margin :- MarginCheck(c, f);
      if !margin.value then Ok(Computed([MarginTooLow], margin.after))
      else
        var roe :- RoeCheck(margin.after, f);
        if !roe.value then Ok(Computed([RoeTooLow], roe.after))
        else if DeviationPasses(roe.after, f) then Ok(Computed([], roe.after))
        else Ok(Computed([RoeTooVolatile], roe.after))
  }

  /** The missing `break` after the ROE check only adds a log line: the two
      readings exclude, fail and pass the same companies with the same record. */
  lemma RoeBreakOnlyChangesLog(c: Company, f: Filters)
    ensures Checks(c, f).Ok? <==> ChecksWithRoeBreak(c, f).Ok?
    ensures Checks(c, f).Err? ==> Checks(c, f) == ChecksWithRoeBreak(c, f)
    ensures Checks(c, f).Ok? ==>
      && Checks(c, f).value.after == ChecksWithRoeBreak(c, f).value.after
      && (|Checks(c, f).value.value| == 0 <==> |ChecksWithRoeBreak(c, f).value.value| == 0)
      && (forall reason :: reason in ChecksWithRoeBreak(c, f).value.value ==> reason in Checks(c, f).value.value)
  {
  }

  /** The rows one verdict contributes. */
  function RowsOf(v: Verdict): (rows: seq<Row>)
    ensures |rows| == (if v.Included? then 1 else 0)
    ensures forall row :: row in rows <==> v == Included(row)
  {
    if v.Included? then [v.row] else []
  }

  /** The verdict on each company, in company order. */
  function Verdicts(companies: seq<Company>, marketCapOf: Company -> Result<real>, f: Filters): (vs: seq<Verdict>)
    ensures |vs| == |companies|
    ensures forall k :: 0 <= k < |vs| ==> vs[k] == Screen(companies[k], f, marketCapOf(companies[k]))
  {
    seq(|companies|, k requires 0 <= k < |companies| => Screen(companies[k], f, marketCapOf(companies[k])))
  }

  /** The rows of the included verdicts, in order. */
  function Collect(vs: seq<Verdict>): (rows: seq<Row>)
    ensures |rows| <= |vs|
  {
    if |vs| == 0 then [] else RowsOf(vs[0]) + Collect(vs[1..])
  }

  /** A row is collected exactly for each verdict that includes it. */
  lemma {:induction false} CollectIncluded(vs: seq<Verdict>)
    ensures forall row :: row in Collect(vs) <==> exists k :: 0 <= k < |vs| && vs[k] == Included(row)
  {
    if |vs| > 0 {
      var tail := vs[1..];
      CollectIncluded(tail);
      forall row
        ensures row in Collect(vs) <==> exists k :: 0 <= k < |vs| && vs[k] == Included(row)
      {
        if exists k :: 0 <= k < |vs| && vs[k] == Included(row) {
          var k :| 0 <= k < |vs| && vs[k] == Included(row);
          if k > 0 {
            assert tail[k - 1] == vs[k];
          }
        }
        if row in Collect(tail) {
          var k :| 0 <= k < |tail| && tail[k] == Included(row);
          assert vs[k + 1] == tail[k];
        }
      }
    }
  }

  /** Collecting is done verdict by verdict: the rows of a concatenation are
      the rows of its parts, in the same order. */
  lemma {:induction false} CollectAppend(vs: seq<Verdict>, ws: seq<Verdict>)
    ensures Collect(vs + ws) == Collect(vs) + Collect(ws)
  {
    if |vs| == 0 {
      assert vs + ws == ws;
    } else {
      assert (vs + ws)[1..] == vs[1..] + ws;
      CollectAppend(vs[1..], ws);
    }
  }

  /** One verdict contributes its row when it includes the company and nothing
      otherwise. */
  lemma CollectOne(v: Verdict)
    ensures Collect([v]) == RowsOf(v)
  {
    assert [v][1..] == [];
  }

  /** `eval_stocks`' result rows, in company order; `marketCapOf` stands for
      the handler's market-capitalisation lookup. */
  function EvalStocks(companies: seq<Company>, marketCapOf: Company -> Result<real>, f: Filters): (rows: seq<Row>)
    ensures |rows| <= |companies|
  {
    Collect(Verdicts(companies, marketCapOf, f))
  }

  /** A row is produced exactly for each company the screening includes. */
  lemma RowsAreIncludedCompanies(companies: seq<Company>, marketCapOf: Company -> Result<real>, f: Filters)
    ensures forall row :: row in EvalStocks(companies, marketCapOf, f) <==>
      exists k :: 0 <= k < |companies| && Screen(companies[k], f, marketCapOf(companies[k])) == Included(row)
  {
    var vs := Verdicts(companies, marketCapOf, f);
    CollectIncluded(vs);
  }

  /** The screening goes company by company: screening a concatenation gives
      the rows of its parts, in company order. */
  lemma EvalStocksAppend(companies: seq<Company>, more: seq<Company>, marketCapOf: Company -> Result<real>, f: Filters)
    ensures EvalStocks(companies + more, marketCapOf, f)
         == EvalStocks(companies, marketCapOf, f) + EvalStocks(more, marketCapOf, f)
  {
    var vs := Verdicts(companies, marketCapOf, f);
    var ws := Verdicts(more, marketCapOf, f);
    var all := Verdicts(companies + more, marketCapOf, f);
    forall k | 0 <= k < |all|
      ensures all[k] == (vs + ws)[k]
    {
      if k < |companies| {
        assert (companies + more)[k] == companies[k];
      } else {
        assert (companies + more)[k] == more[k - |companies|];
      }
    }
    assert all == vs + ws;
    CollectAppend(vs, ws);
  }

  /** A single company yields one row when the screening includes it and none
      otherwise. */
  lemma EvalStocksOne(c: Company, marketCapOf: Company -> Result<real>, f: Filters)
    ensures EvalStocks([c], marketCapOf, f) == RowsOf(Screen(c, f, marketCapOf(c)))
  {
    var v := Screen(c, f, marketCapOf(c));
    assert Verdicts([c], marketCapOf, f) == [v];
    CollectOne(v);
  }
}
