# bizsval valuation engine in Dafny

A model of the stock-screening and valuation engine of `bizsval.py` and of
the two pure helpers of `googlefinance_scraper.py`, with proofs of what the
engine promises.

Each company is six yearly series, oldest year first: equity, net income,
dividend, revenue, assets and liabilities. The record also holds the
metrics the Python methods cache on `self`: market cap, ROE, ROE deviation,
margin and the debt ratios. Every method is a pure function. It returns the
computed value together with the updated record (`Companies.Computed`), so
the proofs can say which cached value the screening reads.

Python exceptions are values of `Py.Result`. The error kinds are
ValueError with its message (without the quoted argument that `int()` and
`float()` append to theirs), IndexError, KeyError, ZeroDivisionError,
StatisticsError, EquityError and MarketCapError. Python indexing and
slicing are modelled exactly:

- `Py.Get` wraps negative indices and raises IndexError out of range.
- `Py.Slice` clamps its bounds.
- `range(lo, hi)` is empty when `lo >= hi`.

So no calculator has a precondition on its window. The clean statements
about windows `0 <= lo <= hi <= |series|` are implications in the
contracts. A window whose start is negative wraps, as Python's indexing
does:

- With `years_back` larger than the history n but below 2n, the window
  starts below 0 and its first indices read the latest years. On a
  four-year history `mean_roe(years_back=5)` samples the latest year twice
  (`Companies.FiveYearRoeOnFourYears`), and `chk_pos`'s slice wraps to the
  latest `years_back` - n years (`Companies.FiveYearCheckOnFourYears`).
- Beyond 2n the wrapped start is still out of range, and `mean_roe` and
  `calc_margin` raise IndexError (`Companies.OverlongLookBackRaises`); at
  exactly 2n they still wrap. `mean_pr` also reads the income of the year
  before the start, so it raises from 2n on
  (`Companies.OverlongPayoutRaises`).
- From 2n on, `chk_pos`'s slice clamps instead of raising, so it checks the
  whole history (`Companies.OverlongCheckTakesWholeHistory`).
- At `i = 0`, `mean_pr` reads `net_income[-1]`, the latest year, so that
  year yields a payout sample (`Companies.FirstYearPayoutUsesLatestIncome`).
- The ROE deviation is `stdev / mean`, so over a negative mean ROE it is
  non-positive (`Companies.DeviationSign`); it is 0 when all samples are equal.

Modules, in dependency order:

- `Py` (py.dfy): Python's list indexing and slicing, `sum`, `statistics.mean`, the variance under `stdev`, `**`, `min` and `reverse`.
- `Dispersion` (dispersion.dfy): the ROE deviation `stdev / mean`, with the square root kept symbolic, and the exact test of "deviation > threshold".
- `Companies` (companies.dfy): the company record, the window resolution shared by every calculator, and `chk_pos`, `mean_roe`, `mean_pr`, `calc_margin` and the two current debt ratios.
- `Projection` (projection.dfy): `estimate_growth`, `estimate_income_classic` and `estimate_income_nc`.
- `Valuation` (valuation.dfy): `calc_iv`, `calc_iv2` and `calc_uvf`.
- `Screening` (screening.dfy): the exclusion decision of `eval_stocks`, its result rows, and the whole loop over the companies.
- `Numerals` (numerals.dfy): `int()` and `float()` on plain decimal text.
- `Handlers` (handlers.dfy): `acint`, `BrHandler.refine_financials`, `GfHandler.adjust_market_cap` and both handlers' `get_market_cap`.
- `Ranking` (ranking.dfy): `sort_dict`, Python's stable sort by value in descending order.
- `GoogleFinance` (googlefinance.dfy): `remove_suffix` and `virtual_dividend`.

## Model

| member | source | states |
|---|---|---|
| Handlers.Acint | bizsval.py:12-15 | succeeds exactly when `int()` accepts the text with every space removed, and yields that integer; otherwise ValueError |
| Handlers.RemoveSpaces | bizsval.py:14 | the result has no space, is no longer than the text, and is the text itself when the text has none; `Handlers.RemoveSpacesCounts` and `Handlers.RemoveSpacesAppend` state that nothing else changes |
| Handlers.BrMarketCap | bizsval.py:47-49 | the scraped profile's "Kapitalizacja:" entry read by `acint`, in thousands; a failed scrape passes its exception on, a missing label raises KeyError, unreadable text ValueError |
| Handlers.GfMarketCap | bizsval.py:77-85 | the capitalisation cached for the name, or 0 when none is cached; it never raises |
| Handlers.RemoveSpacesCounts | bizsval.py:14 | removing spaces keeps every other character as often as it occurs, so the length drops by the number of spaces |
| Handlers.RemoveSpacesAppend | bizsval.py:14 | spaces are removed piece by piece: the rest of the text keeps its order |
| Handlers.AcintIgnoresSpace | bizsval.py:12-15 | a space anywhere in the text does not change the result: "50 000" reads as "50000" |
| Handlers.AcintShowNat | bizsval.py:12-15 | the decimal numeral of every natural number reads back as that number |
| Handlers.AcintRoundTrip | bizsval.py:12-15 | a numeral with a digit-group space inserted at any position still reads back as its number |
| Numerals.StripLeftSuffix | bizsval.py:15 | stripping the front keeps a suffix of the text and removes only whitespace |
| Numerals.StripRightPrefix | bizsval.py:15 | stripping the back keeps a prefix of the text and removes only whitespace |
| Numerals.StripSurrounds | bizsval.py:15 | what `int()` strips away is whitespace on either side of a piece that neither starts nor ends with whitespace |
| Numerals.StripLayout | bizsval.py:15 | whitespace put around a piece without whitespace at its ends is exactly what stripping removes, so the kept piece is unique |
| Numerals.ParseInt | bizsval.py:15 | `int()` succeeds exactly when the stripped text is an optional sign followed by one or more digits, and yields the signed value of the digits |
| Numerals.ParseIntGrammar | bizsval.py:15 | whitespace, an optional "+" or "-", one or more digits and whitespace, in that order, are accepted and read as the signed value of the digits |
| Numerals.ParseIntSigned | bizsval.py:15 | without surrounding whitespace, an optional sign followed by digits reads as the signed value of the digits |
| Numerals.ParseIntShowNat | bizsval.py:15 | `int()` inverts the decimal numeral of a natural number |
| Numerals.ParseIntNegative | bizsval.py:15 | `int()` reads "-" followed by a numeral as the negated number |
| Ranking.Insert | bizsval.py:17-19 | the insertion step of the sort adds exactly the one item: length +1 and the same multiset plus the item |
| Ranking.InsertKeepsDescending | bizsval.py:17-19 | inserting into a list sorted by value, largest first, keeps it sorted |
| Ranking.InsertIsStable | bizsval.py:17-19 | the inserted item goes after every item of equal value already present |
| Ranking.SortDict | bizsval.py:17-19 | the result is a permutation of the items: same length, same multiset |
| Ranking.SortDictDescending | bizsval.py:17-19 | the result is ordered by value, largest first |
| Ranking.SortDictStable | bizsval.py:17-19 | for every value, the items with that value keep their dictionary order (a stable sort, as with `reverse=True`) |
| Ranking.SortDictSpec | bizsval.py:17-19 | together: a descending, stable permutation of the dictionary's items |
| Handlers.ZipDifference | bizsval.py:33 | `zip` stops at the shorter list, and entry k is assets[k] - equity[k] |
| Handlers.RefineFinancials | bizsval.py:26-35 | KeyError unless all five labelled rows exist; otherwise those rows unchanged, plus liabilities as assets minus equity |
| Handlers.RefinedBalance | bizsval.py:33 | refined statements balance: liabilities + equity = assets in every year both are reported |
| Handlers.RefinedDebtToAssets | bizsval.py:26-35 | the current debt-to-assets ratio of refined statements is (assets - equity) of the last year both lists cover, over the latest assets |
| Handlers.AdjustMarketCap | bizsval.py:57-64 | IndexError with fewer than five incomes; ZeroDivisionError when income[4], the P/E or the market cap is zero; otherwise succeeds |
| Handlers.AdjustedCapWithinBand | bizsval.py:57-64 | within the [0.7, 1.3] band the cap is unchanged; outside it becomes quoted P/E times income[4]; either way the implied P/E ends in the band |
| Handlers.AdjustIdempotent | bizsval.py:57-64 | adjusting an adjusted cap changes nothing |
| Companies.NewCompany | bizsval.py:105-122 | a fresh company holds the loaded financials, with market cap 0 and every cached metric 0: ROE, deviation, margin, debt to equity and debt to assets |
| Companies.ResolveWindow | bizsval.py:126-130 | a truthy `years_back` selects the last `years_back` years; otherwise both bounds are used; with neither, ValueError |
| Companies.AllPositive | bizsval.py:131 | `all(v > 0 ...)` holds exactly when every element is strictly positive |
| Companies.ChkPos | bizsval.py:124-131 | ValueError exactly when no window is given; on a fitting window, true exactly when every value in it is strictly positive |
| Companies.FiveYearCheckOnFourYears | bizsval.py:126-131 | with only four years of data, the five-year check starts at index -1 and looks only at the latest year |
| Companies.RoeSamples | bizsval.py:141-150 | ValueError("negative equity") exactly when some equity in the window is not positive; otherwise one sample per year, income / equity |
| Companies.MeanRoeOver | bizsval.py:133-153 | on a fitting window: non-positive equity raises; fewer than two years raise StatisticsError; a zero mean raises ZeroDivisionError; otherwise it returns and caches the mean ROE and caches stdev/mean as the deviation, leaving every other field alone |
| Companies.MeanRoe | bizsval.py:133-140 | `mean_roe` on the window `years_back` or the explicit bounds select; ValueError without a window |
| Companies.MeanRoeIgnoresCache | bizsval.py:141-153 | the ROE and deviation depend on the series only, never on what the record cached before |
| Companies.DeviationSign | bizsval.py:151-152 | the cached deviation is non-negative over a positive mean ROE and non-positive over a negative one |
| Companies.QualifyingYears | bizsval.py:163-167 | the years of the window whose prior income is positive: all of them, in increasing order, and only those |
| Companies.PrSamples | bizsval.py:163-167 | on a fitting window, the payout samples are dividend[i] / income[i - 1] for exactly the years with positive prior income, in order |
| Companies.MeanPrOver | bizsval.py:155-171 | on a fitting window: the mean of the payout samples when there are at least two, otherwise 0; never raises and caches nothing |
| Companies.MeanPr | bizsval.py:155-162 | `mean_pr` on the window `years_back` or the explicit bounds select; ValueError without a window |
| Companies.OverlongCheckTakesWholeHistory | bizsval.py:124-131 | a look-back of twice the history or more clamps the slice, so the whole series is checked |
| Companies.OverlongLookBackRaises | bizsval.py:133-201 | a look-back beyond twice the history makes `mean_roe` and `calc_margin` raise IndexError at the first sample |
| Companies.OverlongPayoutRaises | bizsval.py:155-165 | `mean_pr` raises IndexError already at a look-back of twice the history, because it reads the income of the year before the window |
| Companies.FiveYearRoeOnFourYears | bizsval.py:136-150 | a five-year ROE window over a four-year history starts at index -1 and samples the latest year twice |
| Companies.FirstYearPayoutUsesLatestIncome | bizsval.py:163-167 | a window starting at year 0 divides that year's dividend by the LATEST year's income |
| Companies.MarginSamples | bizsval.py:198-199 | ZeroDivisionError exactly when a revenue in the window is zero; otherwise the per-year income / revenue |
| Companies.CalcMarginOver | bizsval.py:190-201 | on a fitting window: an empty window raises StatisticsError; otherwise it returns and caches the mean of income / revenue over the window, leaving every other field alone |
| Companies.CalcMargin | bizsval.py:190-197 | `calc_margin` on the window `years_back` or the explicit bounds select; ValueError without a window |
| Companies.DebtToEquityCurrent | bizsval.py:203-205 | succeeds exactly when both series are non-empty and the latest equity is non-zero; the cached ratio times latest equity is the latest liabilities |
| Companies.DebtToAssetsCurrent | bizsval.py:207-209 | succeeds exactly when both series are non-empty and the latest assets are non-zero; the cached ratio times latest assets is the latest liabilities |
| Companies.DebtToAssetsIsQuotient | bizsval.py:207-209 | the ratio is latest liabilities / latest assets |
| Companies.DebtToAssetsReadsStatements | bizsval.py:207-209 | the ratio depends on the statements only, not on cached metrics |
| Projection.Growth | bizsval.py:183-188 | 0 when the payout ratio is below 0 or above 1 or the ROE is negative; otherwise a rate g in [0, roe] with g + roe * pr = roe |
| Projection.EstimateGrowthOver | bizsval.py:181-188 | succeeds exactly when `mean_roe` and then `mean_pr` do; the growth of their results; caches what `mean_roe` caches and nothing else |
| Projection.EstimateGrowth | bizsval.py:173-180 | `estimate_growth` on the window `years_back` or the explicit bounds select; ValueError without a window |
| Projection.GrowthNeedsTwoYears | bizsval.py:181-182 | a growth estimate exists only for windows of at least two years |
| Projection.GrownIsPower | bizsval.py:226 | j rounds of `income *= 1 + g` multiply the income by (1 + g)^j |
| Projection.GrownUnchanged | bizsval.py:226 | compounding at rate 0 leaves the income unchanged |
| Projection.HaircutUndone | bizsval.py:227 | multiplying by 1 + 0.03 * year undoes that year's haircut |
| Projection.ProjectFrom | bizsval.py:224-227 | the loop from year k yields one income per remaining year; `Projection.ProjectFromGrown` states each value |
| Projection.Project | bizsval.py:224-227 | the projection has `projection_length` values (none for a non-positive length); `Projection.ProjectClosedForm` gives each in closed form |
| Projection.ProjectFromGrown | bizsval.py:224-227 | the loop from year k yields n - k values; value j is the income compounded j + 1 times, cut by the haircut of year k + j + 1 |
| Projection.ProjectClosedForm | bizsval.py:224-227 | exactly n values (none for n <= 0), and value k times (1 + 0.03(k + 1)) is base * (1 + g)^(k+1) |
| Projection.ZeroGrowthDecays | bizsval.py:224-227 | with zero growth and a positive base, the projection strictly decreases and stays positive |
| Projection.HaircutsDecrease | bizsval.py:227 | successive haircuts of one positive amount decrease strictly |
| Projection.HaircutShrinks | bizsval.py:227 | a later year's haircut cuts deeper |
| Projection.EstimateIncomeClassicOver | bizsval.py:218-229 | succeeds only when the growth estimate does and the window is non-empty; the projection of the window's mean income at the growth clamped to the cap; caches what the growth estimate caches |
| Projection.ClassicIncomeClosedForm | bizsval.py:218-229 | the classic projection has exactly `projection_length` values, value k being mean * (1 + g)^(k+1) / (1 + 0.03(k + 1)) with g the clamped growth |
| Projection.EstimateIncomeClassic | bizsval.py:211-217 | the projection on the window `years_back` or the explicit bounds select; ValueError("i1_ and i2_ must be defined"), with the underscores of its parameter names, without a window; only ROE and deviation of the record change |
| Projection.ClampOnlyLowers | bizsval.py:219-220 | the clamp never raises the growth rate and keeps it when it is within the cap |
| Projection.EstimateIncomeNc | bizsval.py:231-235 | StatisticsError on an empty base slice; otherwise `projection_length` copies of the slice's mean |
| Projection.NoGrowthOfConstantIncome | bizsval.py:231-235 | a constant income K over the base window projects K in every year |
| Valuation.DiscountFrom | bizsval.py:243-244 | one discounted income per remaining year, and only ZeroDivisionError; `Valuation.DiscountFromIsPresentValue` states their sum |
| Valuation.DiscountFromRaises | bizsval.py:243-244 | the discount loop raises exactly when there is a year to discount and 1 + r is zero, and then ZeroDivisionError |
| Valuation.DiscountFromIsPresentValue | bizsval.py:243-244 | the loop's sum from year i, times (1 + r)^i, is the present value of the incomes from year i on (Horner's scheme) |
| Valuation.DiscountFromInduct | bizsval.py:243-244 | the inductive step of that statement, from year i + 1 back to year i |
| Valuation.DiscountFromStep | bizsval.py:243-244 | one loop step puts p[i] / (1 + r)^(i+1) in front of the later discounted incomes |
| Valuation.DiscountedSum | bizsval.py:240-246 | the sum of the discounted incomes is the present value sum over i of p[i-1]/(1 + r)^i |
| Valuation.CalcIv | bizsval.py:237-247 | IndexError on an empty projection; ZeroDivisionError when 1 + r = 0 or r = tg; otherwise the present value plus p[n-1] / (r - tg) |
| Valuation.PresentValuePositive | bizsval.py:243-244 | positive incomes have a positive present value at any rate above -100% |
| Valuation.PresentValueDecreasing | bizsval.py:243-244 | the present value of positive incomes falls strictly as the rate rises |
| Valuation.IvDecreasingInRate | bizsval.py:237-247 | the intrinsic value of positive incomes falls strictly as the discount rate rises above the terminal growth |
| Valuation.TerminalLeftUndiscounted | bizsval.py:245-246 | the undiscounted terminal value makes the value exceed the textbook DCF value, which discounts it over the n years |
| Valuation.Compound | bizsval.py:264-270 | the equity-compounding loop of `calc_iv2`; its meaning, the reference schedule of discounted earnings, is stated by `Valuation.CompoundIsReference` |
| Valuation.CompoundNonNegative | bizsval.py:264-270 | the ten-year equity loop of `calc_iv2` never goes negative from non-negative equity, ROE and retention |
| Valuation.StepNonNegative | bizsval.py:266-268 | one year of that loop keeps the equity and the discounted earnings non-negative |
| Valuation.LoopNonNegative | bizsval.py:264-271 | with a payout ratio of at most 1, the loop's value and the growth are non-negative |
| Valuation.RoeSource | bizsval.py:251-254 | a non-zero cached ROE is used as is; a zero one is replaced by `mean_roe` over the whole history, whose errors propagate; the series and market cap never change |
| Valuation.Iv2Core | bizsval.py:255-271 | (0, 0) when payout ratio, equity or ROE is negative; a ROE of at most 25% gives a growth of at most 25%; a payout ratio of at most 1 gives non-negative value and growth; growth + roe * pr = roe; otherwise the value is the reference sum `Valuation.Iv2Reference` |
| Valuation.CompoundIsReference | bizsval.py:264-271 | from any year on, the loop adds exactly the remaining discounted earnings of the reference schedule (equity grown by its retained earnings damped by 1.1^i, earnings discounted at 8%) plus the tenth year's earnings capitalised at 10% |
| Valuation.EarningsMatch | bizsval.py:266-268 | the loop's discounted earnings of year i are the reference's roe * E(i) / 1.08^i |
| Valuation.RetainedMatches | bizsval.py:266-267 | the loop's new equity is the reference's E(i + 1) = E(i) * (1 + roe * (1 - pr) / 1.1^i) |
| Valuation.Iv2Over | bizsval.py:251-271 | ValueError without a history; otherwise the core valuation of the latest equity, the ROE capped at 25% and the mean payout ratio, when those can be read |
| Valuation.CalcIv2 | bizsval.py:249-271 | succeeds exactly when the ROE source and the valuation over the whole history do; leaves the record the ROE source produced |
| Valuation.Iv2ReadsCachedRoe | bizsval.py:252-254 | with a cached ROE set, whichever window computed it, `calc_iv2` values with it and leaves the record unchanged |
| Valuation.UvfOf | bizsval.py:279-280 | the factor times the market cap is the intrinsic value of the projection at terminal growth 2% |
| Valuation.CalcUvf | bizsval.py:273-280 | EquityError on empty equity, checked first; then MarketCapError on a zero cap; then the projection's error; otherwise the intrinsic value of the 5-year projection capped at 10% growth, over the market cap |
| Valuation.UvfNeedsWindow | bizsval.py:275-279 | with a look-back of 0 the projection window is undefined, and the factor raises the classic estimate's ValueError("i1_ and i2_ must be defined") |
| Screening.MarginCheck | bizsval.py:340-344 | a zero threshold passes without computing anything; otherwise it passes exactly when the look-back margin reaches the threshold, and margin errors propagate |
| Screening.RoeCheck | bizsval.py:345-348 | a zero threshold passes without computing anything; otherwise it passes exactly when the look-back mean ROE reaches the threshold, and ROE errors propagate |
| Screening.Checks | bizsval.py:334-355 | negative earnings among the last five incomes exclude for that reason alone, with the record untouched; the checks change only margin, ROE and deviation |
| Screening.Value | bizsval.py:357-371 | a row exists exactly when `calc_uvf` and the debt ratio succeed; it carries the name, the factor, the ROE and deviation the valuation cached, the margin as it was before valuation, and the debt ratio |
| Screening.RowDebtToAssets | bizsval.py:363 | the row's debt ratio is the company's own latest liabilities over latest assets |
| Screening.Screen | bizsval.py:333-375 | an exclusion carries at least one reason, a row needs a fetched capitalisation, and a failed fetch fails the company with the fetch's exception unless the checks already raised; `Screening.IncludedIffChecksPass` states when the company gets a row |
| Screening.FailedFetchFails | bizsval.py:356-375 | a company that passes every check but whose capitalisation fetch raises fails with that exception and gets no row |
| Screening.UncachedCapFails | bizsval.py:273-283 | behind Google Finance, a passing company with equity data whose capitalisation was never cached reads 0 and fails with MarketCapError |
| Screening.UnlabelledCapFails | bizsval.py:47-49 | behind biznesradar.pl, a passing company whose profile lacks the capitalisation label fails with KeyError |
| Screening.DeviationPasses | bizsval.py:349-350 | the deviation filter passes when off or when the cached deviation does not exceed the threshold; `Dispersion.ExceedsIffAbove` says the comparison is the real one |
| Dispersion.ExceedsIffAbove | bizsval.py:349-350 | for any number x the symbolic deviation stands for (x * mean the non-negative root of the variance), the exact comparison holds exactly when x is above the threshold |
| Dispersion.SignFollowsMean | bizsval.py:151-152 | `stdev / mean` is non-negative over a positive mean and non-positive over a negative one |
| Dispersion.Exceeds | bizsval.py:349-350 | `roe_deviation > roe_deviation_filter` on the symbolic deviation; `Dispersion.ExceedsIffAbove` states it agrees with comparing the number the deviation denotes |
| Screening.IncludedIffChecksPass | bizsval.py:332-371 | a company gets a row exactly when its last five incomes are positive, every enabled filter passes on the record the previous check left, and the valuation raises nothing |
| Screening.EarningsGate | bizsval.py:336-339 | some non-positive income among the last five is equivalent to exclusion for negative earnings alone |
| Screening.RowRoeIsFiveYearMean | bizsval.py:359-362 | the row's ROE and deviation come from mean ROE over the last five years, recomputed by the valuation, not from the ROE filter's look-back |
| Screening.RowMarginIsCached | bizsval.py:340-361 | the row's margin is the margin filter's value when that filter is on, and the record's earlier margin when it is off |
| Screening.DeviationFilterNeedsRoeFilter | bizsval.py:349-353 | with the ROE filter off, the deviation filter reads a deviation nothing has computed, so a fresh record is never excluded for volatility |
| Screening.RoeBreakOnlyChangesLog | bizsval.py:345-353 | adding a `break` after a failed ROE check would not change who is excluded, who fails or the resulting record |
| Screening.RowsOf | bizsval.py:364-371 | an including verdict yields exactly one row, any other verdict none, and the row is the included one |
| Screening.Verdicts | bizsval.py:332-375 | one verdict per company, in order, each the screening of that company |
| Screening.Collect | bizsval.py:364-371 | at most one row per verdict |
| Screening.CollectIncluded | bizsval.py:364-371 | a row is collected exactly when some verdict includes it |
| Screening.CollectAppend | bizsval.py:332-371 | collecting works verdict by verdict: the rows of a concatenation are the rows of the first part followed by those of the second |
| Screening.CollectOne | bizsval.py:364-371 | one verdict contributes its row when it includes the company and nothing otherwise |
| Screening.EvalStocks | bizsval.py:327-375 | at most one row per company |
| Screening.EvalStocksAppend | bizsval.py:332-371 | the companies are screened one after another: the result for a concatenation is the result for the first part followed by the result for the second, so rows come in company order |
| Screening.EvalStocksOne | bizsval.py:332-371 | a single company yields one row when the screening includes it and none otherwise |
| Screening.RowsAreIncludedCompanies | bizsval.py:332-375 | a row appears in the result exactly when the screening includes some company with that row; failures and exclusions leave no row |
| GoogleFinance.Scale | googlefinance_scraper.py:7-15 | exactly the four suffixes have a multiplier (at least 1); any other suffix raises KeyError |
| GoogleFinance.ReplaceCommas | googlefinance_scraper.py:14 | the same length; each comma becomes a point and every other character stays where it is |
| GoogleFinance.RemoveSuffix | googlefinance_scraper.py:6-15 | unreadable number text raises ValueError, checked before the suffix; an unknown suffix raises KeyError; otherwise the number times the suffix's multiplier |
| GoogleFinance.SplitAmount | googlefinance_scraper.py:12-14 | for text made of a number and a 3-character suffix, the body is the number (commas replaced) and the suffix is the suffix |
| GoogleFinance.RemoveSuffixDecimal | googlefinance_scraper.py:6-15 | "whole,fraction" followed by a known suffix reads as whole.fraction times the multiplier, e.g. "12,5mln" is 12500 |
| GoogleFinance.RemoveSuffixWhole | googlefinance_scraper.py:6-15 | digits followed by a known suffix read as their value times the multiplier |
| GoogleFinance.UnknownSuffixRaises | googlefinance_scraper.py:13-15 | a readable number followed by any other 3-character suffix raises KeyError |
| Numerals.ParseFloat | googlefinance_scraper.py:14 | `float()` on plain decimal text, None where Python raises; `Numerals.ParseFloatDecimal` and `Numerals.ParseFloatWhole` state the value read |
| Numerals.ParseFloatDecimal | googlefinance_scraper.py:14 | `float()` reads "whole.fraction" as its decimal value |
| Numerals.ParseFloatWhole | googlefinance_scraper.py:14 | `float()` reads a digit string as its value |
| GoogleFinance.VirtualDividend | googlefinance_scraper.py:17-28 | both lists come back reversed; IndexError exactly when there are at least two equity years and fewer incomes than equity years; otherwise max(len(equity), 1) dividends, the first 0, then income minus equity change over the reversed lists |
| GoogleFinance.VirtualDividendOriginalOrder | googlefinance_scraper.py:17-28 | the same dividends in the callers' original indexing: dividend x pairs income year m-1-x with the equity change between years n-1-x and n-x |
| GoogleFinance.AttachVirtualDividend | googlefinance_scraper.py:95 | the scraped record gets the new dividend row (0 first, then each year's income minus its equity change over the reversed lists), keeps income and equity reversed and leaves the other rows alone; an IndexError yields no record |

## Left out

- I/O is not modelled. This covers the handlers' `get_financials`, the scrapers (`br.get_info` among them), Selenium, the network, the JSON and CSV files, the blacklist, `prep_companies`, `print` and `time.sleep`. What `set_market_cap` fetches, a capitalisation or the exception the fetch raised, is the `Result<real>` parameter of `Screening.Screen`, and `marketCapOf` stands for it in `Screening.EvalStocks`. `Handlers.BrMarketCap` takes the scraped profile, or the scrape's exception, as its parameter; `Handlers.GfMarketCap` takes the handler's cache.
- `get_market_cap` with `from_file` set returns None in both handlers. `eval_stocks` never sets it, so that path is not modelled.
- `eval_br`, `eval_gf` and the module-level handler globals are not modelled. They build the company list with `prep_companies`, which is I/O, and call `eval_stocks` with constants, which are the parameters of `Screening.Filters`.
- The currency strip `c[:len(c)-4]` that the Google Finance scraper applies before `remove_suffix` (googlefinance_scraper.py:42 and 86-87) is not modelled, because it is part of the Selenium code.
- Floating point is not modelled. All arithmetic is exact over `real`, so rounding, overflow to `inf` and `nan` do not appear.
- Numerals.ParseInt: covers only base-10 ASCII numerals. Underscores, Unicode digits and whitespace beyond ASCII and U+001C to U+001F (such as U+0085 or U+00A0) are not modelled.
- Screening.Collect: its own contract bounds the number of rows. That the rows are the included verdicts' rows, one each and in verdict order, is stated by `Screening.CollectAppend` and `Screening.CollectOne`.
- Screening.EvalStocks: its own contract bounds the number of rows. That there is one row per included company, in company order, is stated by `Screening.EvalStocksAppend` and `Screening.EvalStocksOne`.
- Handlers.Acint: the ValueError message stops before Python's `: '<text>'` suffix, which quotes the rejected argument with `repr`; string `repr` is not modelled.
- GoogleFinance.RemoveSuffix: the ValueError message of a rejected number stops before Python's `: '<text>'` suffix, for the same reason.
- Numerals.ParseFloat: covers only plain decimals. Exponents, `inf`, `nan` and underscores are not modelled. The contract of `GoogleFinance.RemoveSuffix` is stated through it.
- Dispersion.Exceeds: the square root inside `statistics.stdev` is kept symbolic. The deviation is stored as (variance, mean), and the filter comparison is decided exactly without computing the root.
- Mutations made before an exception are not modelled. Examples are `self.roe` being set before `stdev` raises, and `virtual_dividend` reversing the lists before an IndexError. A failing call returns an error and no record, because the screening drops a company that raised.
- Aliasing between Python lists is not modelled: each series is a value. For `virtual_dividend` the reversed lists are returned explicitly, and `GoogleFinance.AttachVirtualDividend` shows the record the caller ends up with.
- `Companies.QualifyingYears`, `Companies.Payouts` and `Companies.PayoutSeries` are ghost reference definitions of the payout samples. They are not executable code.
- `GfHandler.get_financials` applies `adjust_market_cap` only when the P/E is not "NaN". That guard is part of the I/O path; only `Handlers.AdjustMarketCap` itself is modelled.
