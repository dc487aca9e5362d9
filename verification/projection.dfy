/** Growth estimation and income projection: the retained-earnings growth
    model ROE * (1 - payout), compounded forward with a 3%-per-year haircut,
    and the no-growth alternative. */
module Projection {
  import opened Py
  import opened Companies

  /** The per-year haircut: projected year k (1-based) is divided by 1 + 0.03 k. */
  const Haircut: real := 0.03

  /** The retained-earnings growth rate for a mean ROE and a mean payout
      ratio: 0 when the estimate is degenerate (payout ratio negative or above
      1, ROE negative), otherwise ROE * (1 - payout), which then lies in [0, ROE]. */
  function Growth(roe: real, pr: real): (g: real)
    ensures g >= 0.0
    ensures pr < 0.0 || roe < 0.0 || pr > 1.0 ==> g == 0.0
    ensures 0.0 <= pr <= 1.0 && roe >= 0.0 ==> g <= roe && g + roe * pr == roe
  {
    if pr < 0.0 || roe < 0.0 || pr > 1.0 then 0.0
    else
      assert roe * pr >= 0.0;
      roe * (1.0 - pr)
  }

  /** `Company.estimate_growth(years_back, i1, i2)` on a window: the growth
      rate of the window's mean ROE and mean payout ratio. Caches what
      `mean_roe` caches. */
  function EstimateGrowthOver(c: Company, lo: int, hi: int): (r: Result<Computed<real>>)
    ensures r.Ok? <==> MeanRoeOver(c, lo, hi).Ok? && MeanPrOver(MeanRoeOver(c, lo, hi).value.after, lo, hi).Ok?
    ensures r.Ok? ==> r.value.after == c.(roe := r.value.after.roe, roeDeviation := r.value.after.roeDeviation)
    ensures r.Ok? ==>
      var roe := MeanRoeOver(c, lo, hi).value;
      && r.value.after == roe.after
      && r.value.value == Growth(roe.value, MeanPrOver(roe.after, lo, hi).value)
  {
    var roe :- MeanRoe(c, 0, Some(lo), Some(hi));
    var pr :- MeanPr(roe.after, 0, Some(lo), Some(hi));
    Ok(Computed(Growth(roe.value, pr), roe.after))
  }

  /** `Company.estimate_growth(years_back, i1, i2)`. */
  function EstimateGrowth(c: Company, yearsBack: int, i1: Option<int>, i2: Option<int>): (r: Result<Computed<real>>)
    ensures ResolveWindow(|c.financials.netIncome|, yearsBack, i1, i2).Err? ==> r == Err(ValueError(WindowUndefined))
    ensures ResolveWindow(|c.financials.netIncome|, yearsBack, i1, i2).Ok? ==>
      var w := ResolveWindow(|c.financials.netIncome|, yearsBack, i1, i2).value;
      r == EstimateGrowthOver(c, w.lo, w.hi)
  {
    var w :- ResolveWindow(|c.financials.netIncome|, yearsBack, i1, i2);
    EstimateGrowthOver(c, w.lo, w.hi)
  }

  /** `x / (1 + 0.03 * year)`: year `year` of a projection after the haircut. */
  function AfterHaircut(x: real, year: int): real
  {
    x / (1.0 + year as real * Haircut)
  }

  /** The amount a haircut of the given year left as x. */
  function BeforeHaircut(x: real, year: int): real
  {
    x * (1.0 + year as real * Haircut)
  }

  /** Undoing a haircut gives back the amount. */
  lemma HaircutUndone(x: real, year: nat)
    ensures BeforeHaircut(AfterHaircut(x, year), year) == x
  {
    var d := 1.0 + year as real * Haircut;
    assert d > 0.0;
    assert AfterHaircut(x, year) * d == x;
  }

  /** The projection loop from year k on: `income *= 1 + g` then
      `incomes.append(income / (1 + (k + 1) * 0.03))`, until year n. */
  function ProjectFrom(income: real, g: real, k: int, n: int): (r: seq<real>)
    decreases n - k
    ensures |r| == if k >= n then 0 else n - k
  {
    if k >= n then []
    else
      var next := income * (1.0 + g);
      [AfterHaircut(next, k + 1)] + ProjectFrom(next, g, k + 1, n)
  }

  /** `n` years of income compounded from `base` at rate `g`, with the haircut. */
  function Project(base: real, g: real, n: int): (r: seq<real>)
    ensures |r| == if n <= 0 then 0 else n
  {
    ProjectFrom(base, g, 0, n)
  }

  /** `income` after j rounds of `income *= 1 + g`. */
  function Grown(income: real, g: real, j: nat): real
    decreases j
  {
    if j == 0 then income else Grown(income * (1.0 + g), g, j - 1)
  }

  /** j rounds of compounding multiply by (1 + g)^j. */
  lemma {:induction false} GrownIsPower(income: real, g: real, j: nat)
    ensures Grown(income, g, j) == income * Pow(1.0 + g, j)
    decreases j
  {
    if j > 0 {
      GrownIsPower(income * (1.0 + g), g, j - 1);
      var x := Pow(1.0 + g, j - 1);
      assert Pow(1.0 + g, j) == (1.0 + g) * x;
      assert income * (1.0 + g) * x == income * ((1.0 + g) * x);
    }
  }

  /** Year j of the loop started at year k is the income compounded j + 1
      times, cut by the haircut of year k + j + 1. */
  lemma {:induction false} ProjectFromGrown(income: real, g: real, k: int, n: int)
    ensures |ProjectFrom(income, g, k, n)| == (if k >= n then 0 else n - k)
    ensures forall j :: 0 <= j < |ProjectFrom(income, g, k, n)| ==>
      ProjectFrom(income, g, k, n)[j] == AfterHaircut(Grown(income, g, j + 1), k + j + 1)
    decreases n - k
  {
    if k < n {
      var next := income * (1.0 + g);
      ProjectFromGrown(next, g, k + 1, n);
      var p := ProjectFrom(income, g, k, n);
      var rest := ProjectFrom(next, g, k + 1, n);
      assert p == [AfterHaircut(next, k + 1)] + rest;
      assert Grown(income, g, 1) == next;
      forall j | 1 <= j < |p|
        ensures p[j] == AfterHaircut(Grown(income, g, j + 1), k + j + 1)
      {
        assert p[j] == rest[j - 1];
        assert Grown(income, g, j + 1) == Grown(next, g, j);
      }
    }
  }

  /** Exactly n projected years (none when n is not positive), and year k + 1
      is base * (1 + g)^(k+1) / (1 + 0.03 (k + 1)), stated multiplied out. */
  lemma ProjectClosedForm(base: real, g: real, n: int)
    ensures |Project(base, g, n)| == (if n < 0 then 0 else n)
    ensures forall k :: 0 <= k < |Project(base, g, n)| ==>
      BeforeHaircut(Project(base, g, n)[k], k + 1) == base * Pow(1.0 + g, k + 1)
  {
    ProjectFromGrown(base, g, 0, n);
    forall k | 0 <= k < |Project(base, g, n)|
      ensures BeforeHaircut(Project(base, g, n)[k], k + 1) == base * Pow(1.0 + g, k + 1)
    {
      var x := Grown(base, g, k + 1);
      assert Project(base, g, n)[k] == AfterHaircut(x, k + 1);
      GrownIsPower(base, g, k + 1);
      HaircutUndone(x, k + 1);
    }
  }

  /** Without growth, each projected year is the base reduced only by the
      haircut, so a positive base yields a strictly decreasing projection. */
  lemma ZeroGrowthDecays(base: real, n: int)
    requires base > 0.0
    ensures forall i, j :: 0 <= i < j < |Project(base, 0.0, n)| ==>
      0.0 < Project(base, 0.0, n)[j] < Project(base, 0.0, n)[i]
  {
    ProjectFromGrown(base, 0.0, 0, n);
    var p := Project(base, 0.0, n);
    forall k | 0 <= k < |p|
      ensures p[k] == AfterHaircut(base, k + 1)
    {
      GrownUnchanged(base, k + 1);
    }
    HaircutsDecrease(p, base);
  }

  /** A sequence of successive haircuts of one positive amount decreases. */
  lemma HaircutsDecrease(p: seq<real>, base: real)
    requires base > 0.0
    requires forall k :: 0 <= k < |p| ==> p[k] == AfterHaircut(base, k + 1)
    ensures forall i, j :: 0 <= i < j < |p| ==> 0.0 < p[j] < p[i]
  {
    forall i, j | 0 <= i < j < |p|
      ensures 0.0 < p[j] < p[i]
    {
      HaircutShrinks(base, i + 1, j + 1);
    }
  }

  /** A later year's haircut is deeper. */
  lemma HaircutShrinks(x: real, a: int, b: int)
    requires x > 0.0 && 0 <= a < b
    ensures 0.0 < AfterHaircut(x, b) < AfterHaircut(x, a)
  {
    var da := 1.0 + a as real * Haircut;
    var db := 1.0 + b as real * Haircut;
    assert 0.0 < da < db;
    var ya := x / da;
    var yb := x / db;
    assert ya * da == x;
    assert yb * db == x;
    assert yb > 0.0;
    assert yb * da < yb * db;
  }

  /** Compounding at rate 0 leaves the income unchanged. */
  lemma {:induction false} GrownUnchanged(income: real, j: nat)
    ensures Grown(income, 0.0, j) == income
    decreases j
  {
    if j > 0 {
      GrownUnchanged(income, j - 1);
    }
  }

  /** `Company.estimate_income_classic` on a window: the mean income of the
      window compounded at the estimated growth clamped down to `cap`, with
      the haircut. Caches what `estimate_growth` caches. */
  function EstimateIncomeClassicOver(c: Company, n: int, cap: real, lo: int, hi: int)
    : (r: Result<Computed<seq<real>>>)
    ensures r.Ok? ==>
      var growth := EstimateGrowthOver(c, lo, hi);
      var xs := Slice(c.financials.netIncome, lo, hi);
      && growth.Ok? && |xs| > 0
      && r.value.after == growth.value.after
      && r.value.value == Project(Mean(xs), Min(growth.value.value, cap), n)
    ensures Fits(lo, hi, c.financials.netIncome) ==> (r.Ok? <==> EstimateGrowthOver(c, lo, hi).Ok?)
  {
    var growth :- EstimateGrowthOver(c, lo, hi);
    GrowthNeedsTwoYears(c, lo, hi);
    var g := Min(growth.value, cap);
    var base :- PyMean(Slice(c.financials.netIncome, lo, hi));
    Ok(Computed(Project(base, g, n), growth.after))
  }

  /** A growth estimate needs a window of at least two years. */
  lemma GrowthNeedsTwoYears(c: Company, lo: int, hi: int)
    requires EstimateGrowthOver(c, lo, hi).Ok?
    ensures hi - lo >= 2
  {
  }

  /** The classic estimate in closed form: n years, year k + 1 being the mean
      window income `base` grown k + 1 times at the clamped rate `g`, after
      the haircut. */
  lemma ClassicIncomeClosedForm(c: Company, n: int, cap: real, lo: int, hi: int, base: real, g: real)
    requires EstimateIncomeClassicOver(c, n, cap, lo, hi).Ok?
    requires base == Mean(Slice(c.financials.netIncome, lo, hi))
    requires g == Min(EstimateGrowthOver(c, lo, hi).value.value, cap)
    ensures var p := EstimateIncomeClassicOver(c, n, cap, lo, hi).value.value;
      && |p| == (if n < 0 then 0 else n)
      && forall k :: 0 <= k < |p| ==> BeforeHaircut(p[k], k + 1) == base * Pow(1.0 + g, k + 1)
  {
    var p := EstimateIncomeClassicOver(c, n, cap, lo, hi).value.value;
    assert p == Project(base, g, n);
    ProjectClosedForm(base, g, n);
  }

  /** What `estimate_income_classic` says without a window; its parameters
      are named `i1_` and `i2_`, and so is its message. */
  const ClassicWindowUndefined := "i1_ and i2_ must be defined"

  /** `Company.estimate_income_classic(n, cap, years_back, i1_, i2_)`. */
  function EstimateIncomeClassic(c: Company, n: int, cap: real, yearsBack: int, i1: Option<int>, i2: Option<int>)
    : (r: Result<Computed<seq<real>>>)
    ensures ResolveWindow(|c.financials.netIncome|, yearsBack, i1, i2).Err? ==> r == Err(ValueError(ClassicWindowUndefined))
    ensures ResolveWindow(|c.financials.netIncome|, yearsBack, i1, i2).Ok? ==>
      var w := ResolveWindow(|c.financials.netIncome|, yearsBack, i1, i2).value;
      r == EstimateIncomeClassicOver(c, n, cap, w.lo, w.hi)
    ensures r.Ok? ==> r.value.after == c.(roe := r.value.after.roe, roeDeviation := r.value.after.roeDeviation)
  {
    match ResolveWindow(|c.financials.netIncome|, yearsBack, i1, i2)
    case Err(_) => Err(ValueError(ClassicWindowUndefined))
    case Ok(w) => EstimateIncomeClassicOver(c, n, cap, w.lo, w.hi)
  }

  /** The growth rate used by the projection never exceeds the cap and is
      never raised: it is the estimate itself whenever that is within the cap. */
  lemma ClampOnlyLowers(g: real, cap: real)
    ensures Min(g, cap) <= cap && Min(g, cap) <= g
    ensures g <= cap ==> Min(g, cap) == g
  {
  }

  /** `Company.estimate_income_nc(base_i0, base_i1, n)`: n copies of the mean
      income of `net_income[base_i0:base_i1]`. Nothing is cached. */
  function EstimateIncomeNc(c: Company, baseI0: int, baseI1: int, n: int): (r: Result<seq<real>>)
    ensures var xs := Slice(c.financials.netIncome, baseI0, baseI1);
      && (r.Ok? <==> |xs| > 0)
      && (r.Err? ==> r.error == StatisticsError)
      && (r.Ok? ==> |r.value| == (if n < 0 then 0 else n))
      && (r.Ok? ==> forall k :: 0 <= k < |r.value| ==> r.value[k] == Mean(xs))
  {
    var avg :- PyMean(Slice(c.financials.netIncome, baseI0, baseI1));
    Ok(seq(if n < 0 then 0 else n, _ => avg))
  }

  /** A record whose net income is constantly K over the base window projects
      K in every year. */
  lemma NoGrowthOfConstantIncome(c: Company, baseI0: int, baseI1: int, n: int, k: real)
    requires Fits(baseI0, baseI1, c.financials.netIncome) && baseI0 < baseI1
    requires forall j :: baseI0 <= j < baseI1 ==> c.financials.netIncome[j] == k
    ensures EstimateIncomeNc(c, baseI0, baseI1, n).Ok?
    ensures forall j :: 0 <= j < |EstimateIncomeNc(c, baseI0, baseI1, n).value| ==>
      EstimateIncomeNc(c, baseI0, baseI1, n).value[j] == k
  {
    var xs := Slice(c.financials.netIncome, baseI0, baseI1);
    assert forall j :: 0 <= j < |xs| ==> xs[j] == c.financials.netIncome[baseI0 + j];
    MeanOfConstant(xs, k);
  }
}
