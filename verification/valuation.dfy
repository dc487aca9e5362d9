/** Intrinsic value: discounting a projected income stream and adding a
    Gordon-style terminal value, the alternative equity-compounding valuation,
    and the undervaluation factor (intrinsic value over market capitalisation). */
module Valuation {
  import opened Py
  import opened Companies
  import opened Projection

  /** The list `projected_income[i - 1] / (1 + r) ** i` built by the loop of
      `calc_iv`, from index i (0-based) on. A zero divisor raises. */
  function DiscountFrom(p: seq<real>, r: real, i: nat): (d: Result<seq<real>>)
    decreases |p| - i
    ensures d.Ok? ==> |d.value| == if i >= |p| then 0 else |p| - i
    ensures d.Err? ==> d.error == ZeroDivisionError
  {
    if i >= |p| then Ok([])
    else
      var x := Pow(1.0 + r, i + 1);
      if x == 0.0 then Err(ZeroDivisionError)
      else
        var rest :- DiscountFrom(p, r, i + 1);
        Ok([p[i] / x] + rest)
  }

  /** The present value of an income stream, discounted one year at a time
      from the last year back (Horner's scheme): an independent statement of
      the sum over i of p[i - 1] / (1 + r)^i. */
  function PresentValue(p: seq<real>, r: real): real
    requires 1.0 + r != 0.0
  {
    if |p| == 0 then 0.0 else (p[0] + PresentValue(p[1..], r)) / (1.0 + r)
  }

  /** A power is zero exactly when its base is (for a positive exponent). */
  lemma {:induction false} PowZeroIff(x: real, n: nat)
    requires n >= 1
    ensures Pow(x, n) == 0.0 <==> x == 0.0
  {
    if x != 0.0 {
      PowNonZero(x, n);
    } else if n > 1 {
      PowZeroIff(x, n - 1);
    }
  }

  /** One step of Horner's scheme: p / b^(i+1) + S, scaled by b^i, is
      (p + S b^(i+1)) / b. */
  lemma HornerStep(p: real, s: real, b: real, x: real, y: real, t: real, total: real, pv: real)
    requires b != 0.0 && y != 0.0 && x == b * y && t == s * x
    requires total == p / x + s && pv == (p + t) / b
    ensures total * y == pv
  {
    assert p / x * x == p;
    assert (p / x + s) * y * b == (p / x) * x + s * x;
  }

  /** The discount loop raises exactly when there is a year to discount and
      1 + r is zero. */
  lemma {:induction false} DiscountFromRaises(p: seq<real>, r: real, i: nat)
    requires i <= |p|
    ensures DiscountFrom(p, r, i).Ok? <==> i == |p| || 1.0 + r != 0.0
    ensures DiscountFrom(p, r, i).Err? ==> DiscountFrom(p, r, i).error == ZeroDivisionError
    decreases |p| - i
  {
    if i < |p| {
      PowZeroIff(1.0 + r, i + 1);
      if 1.0 + r != 0.0 {
        DiscountFromRaises(p, r, i + 1);
      }
    }
  }

  /** The discount loop's sum, brought forward i years, is the present
      value of the years from i on. */
  lemma {:induction false} DiscountFromIsPresentValue(p: seq<real>, r: real, i: nat)
    requires i <= |p| && 1.0 + r != 0.0
    ensures DiscountFrom(p, r, i).Ok?
    ensures Sum(DiscountFrom(p, r, i).value) * Pow(1.0 + r, i) == PresentValue(p[i..], r)
    decreases |p| - i
  {
    if i < |p| {
      DiscountFromIsPresentValue(p, r, i + 1);
      DiscountFromInduct(p, r, i);
    } else {
      DiscountFromRaises(p, r, i);
      assert DiscountFrom(p, r, i).value == [];
      assert PresentValue(p[i..], r) == 0.0;
    }
  }

  /** The inductive step: from year i + 1 back to year i. */
  lemma DiscountFromInduct(p: seq<real>, r: real, i: nat)
    requires i < |p| && 1.0 + r != 0.0
    requires DiscountFrom(p, r, i + 1).Ok?
    requires Sum(DiscountFrom(p, r, i + 1).value) * Pow(1.0 + r, i + 1) == PresentValue(p[i + 1..], r)
    ensures DiscountFrom(p, r, i).Ok?
    ensures Sum(DiscountFrom(p, r, i).value) * Pow(1.0 + r, i) == PresentValue(p[i..], r)
  {
    DiscountFromStep(p, r, i, Pow(1.0 + r, i + 1), Sum(DiscountFrom(p, r, i + 1).value));
    PowNonZero(1.0 + r, i);
    assert p[i..][1..] == p[i + 1..];
    HornerStep(p[i], Sum(DiscountFrom(p, r, i + 1).value), 1.0 + r, Pow(1.0 + r, i + 1), Pow(1.0 + r, i),
      PresentValue(p[i + 1..], r), Sum(DiscountFrom(p, r, i).value), PresentValue(p[i..], r));
  }

  /** One year of the discount loop: the year's discounted income in front
      of the rest. */
  lemma DiscountFromStep(p: seq<real>, r: real, i: nat, x: real, rest: real)
    requires i < |p| && 1.0 + r != 0.0
    requires x == Pow(1.0 + r, i + 1)
    requires DiscountFrom(p, r, i + 1).Ok? && rest == Sum(DiscountFrom(p, r, i + 1).value)
    ensures x != 0.0
    ensures DiscountFrom(p, r, i).Ok?
    ensures Sum(DiscountFrom(p, r, i).value) == p[i] / x + rest
  {
    PowZeroIff(1.0 + r, i + 1);
    var tail := DiscountFrom(p, r, i + 1).value;
    assert DiscountFrom(p, r, i).value == [p[i] / x] + tail;
    SumAppend([p[i] / x], tail);
  }

  /** The whole discount loop: its outcome, and its sum as the present value. */
  lemma DiscountedSum(p: seq<real>, r: real)
    ensures DiscountFrom(p, r, 0).Ok? <==> |p| == 0 || 1.0 + r != 0.0
    ensures DiscountFrom(p, r, 0).Err? ==> DiscountFrom(p, r, 0).error == ZeroDivisionError
    ensures 1.0 + r != 0.0 ==> Sum(DiscountFrom(p, r, 0).value) == PresentValue(p, r)
  {
    DiscountFromRaises(p, r, 0);
    if 1.0 + r != 0.0 {
      DiscountFromIsPresentValue(p, r, 0);
      assert p[0..] == p;
    }
  }

  /** `Company.calc_iv(discount_rate, projected_income, terminal_growth)`:
      the discounted incomes plus `p[n - 1] / (r - tg)`, the terminal value,
      which is not discounted. An empty projection raises IndexError (at
      `p[-1]`), a zero divisor ZeroDivisionError. */
  function CalcIv(r: real, p: seq<real>, tg: real): (iv: Result<real>)
    ensures iv.Ok? <==> |p| > 0 && 1.0 + r != 0.0 && r != tg
    ensures |p| == 0 ==> iv == Err(IndexError)
    ensures |p| > 0 && iv.Err? ==> iv.error == ZeroDivisionError
    ensures iv.Ok? ==> iv.value == PresentValue(p, r) + p[|p| - 1] / (r - tg)
  {
    DiscountedSum(p, r);
    var discounted :- DiscountFrom(p, r, 0);
    var last :- Get(p, |p| - 1);
    if r - tg == 0.0 then Err(ZeroDivisionError)
    else Ok(Sum(discounted) + last / (r - tg))
  }

  /** a / b > c / d when a >= c > 0 and 0 < b < d. */
  lemma QuotientShrinks(a: real, b: real, c: real, d: real)
    requires a >= c > 0.0 && 0.0 < b < d
    ensures a / b > c / d
  {
    var q := c / d;
    assert q * d == c;
    assert q > 0.0;
    assert q * b < q * d;
    assert a / b * b == a;
  }

  /** Positive incomes have a positive present value at any rate above -100%. */
  lemma {:induction false} PresentValuePositive(p: seq<real>, r: real)
    requires r > -1.0 && |p| > 0
    requires forall k :: 0 <= k < |p| ==> p[k] > 0.0
    ensures PresentValue(p, r) > 0.0
  {
    if |p| > 1 {
      PresentValuePositive(p[1..], r);
    } else {
      assert PresentValue(p[1..], r) == 0.0;
    }
    QuotientPositive(p[0] + PresentValue(p[1..], r), 1.0 + r);
  }

  lemma QuotientPositive(a: real, b: real)
    requires a > 0.0 && b > 0.0
    ensures a / b > 0.0
  {
  }

  /** The present value of positive incomes falls as the discount rate rises. */
  lemma {:induction false} PresentValueDecreasing(p: seq<real>, r1: real, r2: real)
    requires -1.0 < r1 < r2 && |p| > 0
    requires forall k :: 0 <= k < |p| ==> p[k] > 0.0
    ensures PresentValue(p, r1) > PresentValue(p, r2)
  {
    var a := p[0] + PresentValue(p[1..], r1);
    var c := p[0] + PresentValue(p[1..], r2);
    if |p| > 1 {
      PresentValueDecreasing(p[1..], r1, r2);
      PresentValuePositive(p[1..], r2);
    }
    QuotientShrinks(a, 1.0 + r1, c, 1.0 + r2);
  }

  /** The intrinsic value of positive incomes falls as the discount rate
      rises above the terminal growth rate. */
  lemma IvDecreasingInRate(p: seq<real>, tg: real, r1: real, r2: real)
    requires |p| > 0 && forall k :: 0 <= k < |p| ==> p[k] > 0.0
    requires tg < r1 < r2 && r1 > -1.0
    ensures CalcIv(r1, p, tg).Ok? && CalcIv(r2, p, tg).Ok?
    ensures CalcIv(r1, p, tg).value > CalcIv(r2, p, tg).value
  {
    PresentValueDecreasing(p, r1, r2);
    var last := p[|p| - 1];
    QuotientShrinks(last, r1 - tg, last, r2 - tg);
  }

  /** x discounted over n years at rate r. */
  function DiscountedOver(x: real, r: real, n: nat): real
    requires 1.0 + r != 0.0
  {
    PowNonZero(1.0 + r, n);
    x / Pow(1.0 + r, n)
  }

  /** Against the textbook discounted-cash-flow value, which discounts the
      terminal value over the n projected years too, the undiscounted
      terminal value overstates a positive valuation at a positive rate. */
  lemma TerminalLeftUndiscounted(p: seq<real>, r: real, tg: real)
    requires |p| > 0 && p[|p| - 1] > 0.0
    requires 0.0 < r && tg < r
    ensures CalcIv(r, p, tg).Ok?
    ensures var tv := p[|p| - 1] / (r - tg);
      CalcIv(r, p, tg).value > PresentValue(p, r) + DiscountedOver(tv, r, |p|)
  {
    var tv := p[|p| - 1] / (r - tg);
    assert tv > 0.0;
    PowAboveOne(1.0 + r, |p|);
    QuotientShrinks(tv, 1.0, tv, Pow(1.0 + r, |p|));
  }

  /** The pair `calc_iv2` returns: a value and the growth rate it assumed. */
  datatype IvAndGrowth = IvAndGrowth(value: real, growth: real)

  /** Year i's earnings on `equity`, discounted by 1.08^i (`temp`). */
  function Earned(equity: real, roe: real, i: nat): real
  {
    PowPositive(1.08, i);
    equity * roe / Pow(1.08, i)
  }

  /** The equity after year i: the retained part `1 - pr` of the earnings,
      discounted by 1.1^i, is added. */
  function Retained(equity: real, roe: real, pr: real, i: nat): real
  {
    PowPositive(1.1, i);
    equity + equity * roe * (1.0 - pr) / Pow(1.1, i)
  }

  /** The ten-year loop of `calc_iv2` from year i: the discounted earnings
      are summed into `inc` and the retained earnings grow the equity; after
      year 10 the last discounted earnings are capitalised at 10%. */
  function Compound(equity: real, roe: real, pr: real, i: nat, inc: real, temp: real): real
    decreases 11 - i
  {
    if i > 10 then inc + temp / 0.1
    else
      var earned := Earned(equity, roe, i);
      Compound(Retained(equity, roe, pr, i), roe, pr, i + 1, inc + earned, earned)
  }

  /** Non-negative equity, ROE and retention keep every quantity of the loop
      non-negative, so the value is too. */
  lemma {:induction false} CompoundNonNegative(equity: real, roe: real, pr: real, i: nat, inc: real, temp: real)
    requires equity >= 0.0 && roe >= 0.0 && pr <= 1.0 && inc >= 0.0 && temp >= 0.0
    ensures Compound(equity, roe, pr, i, inc, temp) >= 0.0
    decreases 11 - i
  {
    if i <= 10 {
      StepNonNegative(equity, roe, pr, i);
      var earned := Earned(equity, roe, i);
      CompoundNonNegative(Retained(equity, roe, pr, i), roe, pr, i + 1, inc + earned, earned);
    }
  }

  /** One year of the loop keeps equity and earnings non-negative. */
  lemma StepNonNegative(equity: real, roe: real, pr: real, i: nat)
    requires equity >= 0.0 && roe >= 0.0 && pr <= 1.0
    ensures Earned(equity, roe, i) >= 0.0
    ensures Retained(equity, roe, pr, i) >= 0.0
  {
    PowPositive(1.1, i);
    PowPositive(1.08, i);
    ProductNonNegative(equity, roe);
    ProductNonNegative(equity * roe, 1.0 - pr);
    QuotientNonNegative(equity * roe, Pow(1.08, i));
    QuotientNonNegative(equity * roe * (1.0 - pr), Pow(1.1, i));
  }

  lemma ProductNonNegative(a: real, b: real)
    requires a >= 0.0 && b >= 0.0
    ensures a * b >= 0.0
  {
  }

  lemma QuotientNonNegative(a: real, b: real)
    requires a >= 0.0 && b > 0.0
    ensures a / b >= 0.0
  {
  }

  /** The reference schedule behind `calc_iv2`, stated year by year: the
      equity E(1) is the latest equity, and each year i adds the retained
      share (1 - pr) of its ROE, damped by 1.1^i: E(i+1) = E(i) * (1 + roe * (1 - pr) / 1.1^i). */
  function EquityAt(equity: real, roe: real, pr: real, i: nat): real
    requires i >= 1
    decreases i
  {
    if i == 1 then equity
    else
      PowPositive(1.1, i - 1);
      EquityAt(equity, roe, pr, i - 1) * (1.0 + roe * (1.0 - pr) / Pow(1.1, i - 1))
  }

  /** Year i's earnings roe * E(i), discounted at 8% a year. */
  function DiscountedEarnings(equity: real, roe: real, pr: real, i: nat): real
    requires i >= 1
  {
    PowPositive(1.08, i);
    roe * EquityAt(equity, roe, pr, i) / Pow(1.08, i)
  }

  /** The discounted earnings of years i to 10. */
  function EarningsFrom(equity: real, roe: real, pr: real, i: nat): real
    requires i >= 1
    decreases 11 - i
  {
    if i > 10 then 0.0 else DiscountedEarnings(equity, roe, pr, i) + EarningsFrom(equity, roe, pr, i + 1)
  }

  /** The value as a sum: ten years of discounted earnings plus the tenth
      year's earnings capitalised at 10%. */
  function Iv2Reference(equity: real, roe: real, pr: real): real
  {
    EarningsFrom(equity, roe, pr, 1) + DiscountedEarnings(equity, roe, pr, 10) / 0.1
  }

  /** From year i on, the loop adds to what it has summed exactly the
      reference's remaining earnings and the capitalised tenth year. */
  lemma {:induction false} CompoundIsReference(equity: real, roe: real, pr: real, i: nat, inc: real, temp: real)
    requires 1 <= i <= 11
    requires i == 11 ==> temp == DiscountedEarnings(equity, roe, pr, 10)
    ensures Compound(EquityAt(equity, roe, pr, i), roe, pr, i, inc, temp)
         == inc + EarningsFrom(equity, roe, pr, i) + DiscountedEarnings(equity, roe, pr, 10) / 0.1
    decreases 11 - i
  {
    if i <= 10 {
      EarningsMatch(EquityAt(equity, roe, pr, i), equity, roe, pr, i);
      RetainedMatches(EquityAt(equity, roe, pr, i), equity, roe, pr, i);
      CompoundIsReference(equity, roe, pr, i + 1, inc + DiscountedEarnings(equity, roe, pr, i), DiscountedEarnings(equity, roe, pr, i));
    }
  }

  /** The loop's discounted earnings on E(i) are the reference's. */
  lemma EarningsMatch(e: real, equity: real, roe: real, pr: real, i: nat)
    requires i >= 1 && e == EquityAt(equity, roe, pr, i)
    ensures Earned(e, roe, i) == DiscountedEarnings(equity, roe, pr, i)
  {
    PowPositive(1.08, i);
    assert e * roe == roe * e;
  }

  /** The loop's new equity from E(i) is E(i + 1). */
  lemma RetainedMatches(e: real, equity: real, roe: real, pr: real, i: nat)
    requires i >= 1 && e == EquityAt(equity, roe, pr, i)
    ensures Retained(e, roe, pr, i) == EquityAt(equity, roe, pr, i + 1)
  {
    PowPositive(1.1, i);
    assert EquityAt(equity, roe, pr, i + 1) == e * (1.0 + roe * (1.0 - pr) / Pow(1.1, i));
  }

  /** The record `calc_iv2` reads its ROE from: the cached ROE when it is
      non-zero, otherwise the record after `mean_roe` over the whole history.
      The series themselves are never changed. */
  function RoeSource(c: Company): (r: Result<Company>)
    ensures c.roe != 0.0 ==> r == Ok(c)
    ensures c.roe == 0.0 ==>
      var m := MeanRoe(c, |c.financials.netIncome|, None, None);
      && (r.Ok? <==> m.Ok?)
      && (r.Ok? ==> r.value == m.value.after)
      && (r.Err? ==> r.error == m.error)
    ensures r.Ok? ==> r.value.financials == c.financials && r.value.marketCap == c.marketCap
  {
    if c.roe == 0.0 then
      var m :- MeanRoe(c, |c.financials.netIncome|, None, None);
      Ok(m.after)
    else Ok(c)
  }

  /** The valuation `calc_iv2` computes from a (capped) ROE, a payout ratio
      and the latest equity: (0, 0) when any of them is negative, otherwise
      the ten-year loop and the growth ROE * (1 - payout). With a ROE of at
      most 25% and a non-negative payout the growth stays within 25%; with a
      payout of at most 1 nothing is negative. */
  function Iv2Core(equity: real, roe: real, pr: real): (v: IvAndGrowth)
    ensures pr < 0.0 || equity < 0.0 || roe < 0.0 ==> v == IvAndGrowth(0.0, 0.0)
    ensures roe <= 0.25 ==> v.growth <= 0.25
    ensures pr <= 1.0 ==> v.value >= 0.0 && v.growth >= 0.0
    ensures !(pr < 0.0 || equity < 0.0 || roe < 0.0) ==> v.growth + roe * pr == roe
    ensures !(pr < 0.0 || equity < 0.0 || roe < 0.0) ==> v.value == Iv2Reference(equity, roe, pr)
  {
    if pr < 0.0 || equity < 0.0 || roe < 0.0 then IvAndGrowth(0.0, 0.0)
    else
      ProductNonNegative(roe, pr);
      LoopNonNegative(equity, roe, pr);
      CompoundIsReference(equity, roe, pr, 1, 0.0, 0.0);
      IvAndGrowth(Compound(equity, roe, pr, 1, 0.0, 0.0), roe * (1.0 - pr))
  }

  lemma LoopNonNegative(equity: real, roe: real, pr: real)
    requires equity >= 0.0 && roe >= 0.0
    ensures pr <= 1.0 ==> Compound(equity, roe, pr, 1, 0.0, 0.0) >= 0.0 && roe * (1.0 - pr) >= 0.0
  {
    if pr <= 1.0 {
      CompoundNonNegative(equity, roe, pr, 1, 0.0, 0.0);
      ProductNonNegative(roe, 1.0 - pr);
    }
  }

  /** The body of `calc_iv2` once the ROE is known, over the last l years:
      the ROE capped at 25%, the mean payout ratio and the equity of year l. */
  function Iv2Over(c: Company, l: nat): (r: Result<IvAndGrowth>)
    ensures l == 0 ==> r == Err(ValueError(WindowUndefined))
    ensures r.Ok? <==> MeanPr(c, l, None, None).Ok? && Get(c.financials.equity, l - 1).Ok?
    ensures r.Ok? ==>
      r.value == Iv2Core(Get(c.financials.equity, l - 1).value, Min(c.roe, 0.25), MeanPr(c, l, None, None).value)
  {
    var roe := if c.roe > 0.25 then 0.25 else c.roe;
    var pr :- MeanPr(c, l, None, None);
    var equity :- Get(c.financials.equity, l - 1);
    Ok(Iv2Core(equity, roe, pr))
  }

  /** `Company.calc_iv2()`: `Iv2Over` the whole history, on the record
      `RoeSource` yields, which is also the record left behind. */
  function CalcIv2(c: Company): (r: Result<Computed<IvAndGrowth>>)
    ensures r.Ok? <==> RoeSource(c).Ok? && Iv2Over(RoeSource(c).value, |c.financials.netIncome|).Ok?
    ensures r.Ok? ==>
      && r.value.after == RoeSource(c).value
      && r.value.value == Iv2Over(r.value.after, |c.financials.netIncome|).value
    ensures |c.financials.netIncome| == 0 ==> r == Err(ValueError(WindowUndefined))
  {
    var c1 :- RoeSource(c);
    var v :- Iv2Over(c1, |c.financials.netIncome|);
    Ok(Computed(v, c1))
  }

  /** `calc_iv2` reads the cached ROE when it is set, whichever window
      computed it, and then leaves the record as it was. */
  lemma Iv2ReadsCachedRoe(c: Company)
    requires c.roe != 0.0
    ensures CalcIv2(c).Ok? <==> Iv2Over(c, |c.financials.netIncome|).Ok?
    ensures CalcIv2(c).Ok? ==> CalcIv2(c).value == Computed(Iv2Over(c, |c.financials.netIncome|).value, c)
  {
  }

  /** The undervaluation factor of a projected income: its intrinsic value
      (terminal growth 2%) over the market capitalisation. */
  function UvfOf(marketCap: real, rate: real, income: Computed<seq<real>>): (r: Result<Computed<real>>)
    requires marketCap != 0.0
    ensures r.Ok? <==> CalcIv(rate, income.value, 0.02).Ok?
    ensures r.Ok? ==> r.value.value * marketCap == CalcIv(rate, income.value, 0.02).value
    ensures r.Ok? ==> r.value.after == income.after
  {
    var iv :- CalcIv(rate, income.value, 0.02);
    Ok(Computed(iv / marketCap, income.after))
  }

  /** `Company.calc_uvf(discount_rate, yearsBack)`: EquityError on an empty
      equity series, then MarketCapError on a zero market capitalisation,
      otherwise the intrinsic value of the 5-year classic projection (growth
      capped at 10%) over the market capitalisation. */
  function CalcUvf(c: Company, rate: real, yearsBack: int): (r: Result<Computed<real>>)
    ensures r.Ok? ==> r.value.after == c.(roe := r.value.after.roe, roeDeviation := r.value.after.roeDeviation)
    ensures |c.financials.equity| == 0 ==> r == Err(EquityError)
    ensures |c.financials.equity| > 0 && c.marketCap == 0.0 ==> r == Err(MarketCapError)
    ensures |c.financials.equity| > 0 && c.marketCap != 0.0 ==>
      var income := EstimateIncomeClassic(c, 5, 0.1, yearsBack, None, None);
      && (income.Err? ==> r == Err(income.error))
      && (income.Ok? ==> r == UvfOf(c.marketCap, rate, income.value))
  {
    if |c.financials.equity| == 0 then Err(EquityError)
    else if c.marketCap == 0.0 then Err(MarketCapError)
    else
      var income :- EstimateIncomeClassic(c, 5, 0.1, yearsBack, None, None);
      UvfOf(c.marketCap, rate, income)
  }

  /** Without a look-back the income window is undefined, and a company
      that gets that far raises ValueError. */
  lemma UvfNeedsWindow(c: Company, rate: real)
    requires |c.financials.equity| > 0 && c.marketCap != 0.0
    ensures CalcUvf(c, rate, 0) == Err(ValueError(ClassicWindowUndefined))
  {
  }
}
