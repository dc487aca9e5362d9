/** The normalisers between scraped data and the engine: `acint` for
    thousands-grouped integers, `BrHandler.refine_financials` for
    biznesradar.pl statements, and `GfHandler.adjust_market_cap` for Google
    Finance capitalisations quoted in another currency. */
module Handlers {
  import opened Py
  import opened Numerals
  import opened Companies

  /** What `int()` says when it rejects its argument. */
  const InvalidInt := "invalid literal for int() with base 10"

  /** `s.replace(" ", "")`. */
  function RemoveSpaces(s: string): (t: string)
    ensures ' ' !in t
    ensures |t| <= |s|
    ensures ' ' !in s ==> t == s
  {
    if |s| == 0 then ""
    else if s[0] == ' ' then RemoveSpaces(s[1..])
    else [s[0]] + RemoveSpaces(s[1..])
  }

  /** Every space goes and every other character stays, as often as it
      occurs; RemoveSpacesAppend adds that the order is kept. */
  lemma {:induction false} RemoveSpacesCounts(s: string)
    ensures forall ch :: ch != ' ' ==> multiset(RemoveSpaces(s))[ch] == multiset(s)[ch]
    ensures |RemoveSpaces(s)| == |s| - multiset(s)[' ']
  {
    if |s| > 0 {
      RemoveSpacesCounts(s[1..]);
      assert s == [s[0]] + s[1..];
      if s[0] != ' ' {
        assert RemoveSpaces(s) == [s[0]] + RemoveSpaces(s[1..]);
      }
    }
  }

  lemma {:induction false} RemoveSpacesAppend(a: string, b: string)
    ensures RemoveSpaces(a + b) == RemoveSpaces(a) + RemoveSpaces(b)
  {
    if |a| == 0 {
      assert a + b == b;
    } else {
      assert (a + b)[1..] == a[1..] + b;
      RemoveSpacesAppend(a[1..], b);
    }
  }

  /** `acint(string)`: the integer written with spaces as digit-group
      separators; anything `int()` rejects raises ValueError. */
  function Acint(s: string): (r: Result<int>)
    ensures r.Ok? <==> ParseInt(RemoveSpaces(s)).Some?
    ensures r.Ok? ==> r.value == ParseInt(RemoveSpaces(s)).value
    ensures r.Err? ==> r.error == ValueError(InvalidInt)
  {
    match ParseInt(RemoveSpaces(s))
    case None => Err(ValueError(InvalidInt))
    case Some(n) => Ok(n)
  }

  /** A space anywhere is ignored: "50 000" reads as "50000". */
  lemma AcintIgnoresSpace(a: string, b: string)
    ensures Acint(a + " " + b) == Acint(a + b)
  {
    RemoveSpacesAppend(a + " ", b);
    RemoveSpacesAppend(a, " ");
    RemoveSpacesAppend(a, b);
    assert RemoveSpaces(" ") == "" by {
      assert " "[1..] == "";
    }
    assert RemoveSpaces(a + " " + b) == RemoveSpaces(a + b);
  }

  /** The numeral of any natural number reads back. */
  lemma AcintShowNat(n: nat)
    ensures Acint(ShowNat(n)) == Ok(n)
  {
    var s := ShowNat(n);
    ParseIntShowNat(n);
    assert ' ' !in s by {
      assert forall k :: 0 <= k < |s| ==> IsDigit(s[k]);
    }
    assert RemoveSpaces(s) == s;
  }

  /** ... also with a separator between its leading digits and the rest. */
  lemma AcintRoundTrip(n: nat, k: nat)
    requires k <= |ShowNat(n)|
    ensures Acint(ShowNat(n)) == Ok(n)
    ensures var s := ShowNat(n); Acint(s[..k] + " " + s[k..]) == Ok(n)
  {
    var s := ShowNat(n);
    AcintShowNat(n);
    AcintIgnoresSpace(s[..k], s[k..]);
    assert s[..k] + s[k..] == s;
  }

  /** The label of the capitalisation on a biznesradar.pl profile. */
  const CapitalisationLabel := "Kapitalizacja:"

  /** `BrHandler.get_market_cap(name, 0)`: the profile `br.get_info` scrapes,
      or the exception scraping raised, is the parameter. The capitalisation
      is read with `acint` and converted to thousands; a missing label raises
      KeyError and an unreadable number ValueError. */
  function BrMarketCap(profile: Result<map<string, string>>): (r: Result<real>)
    ensures profile.Err? ==> r == Err(profile.error)
    ensures profile.Ok? && CapitalisationLabel !in profile.value ==> r == Err(KeyError)
    ensures profile.Ok? && CapitalisationLabel in profile.value ==>
      var n := Acint(profile.value[CapitalisationLabel]);
      && (r.Ok? <==> n.Ok?)
      && (r.Err? ==> r.error == ValueError(InvalidInt))
      && (r.Ok? ==> r.value * 1000.0 == n.value as real)
  {
    var fields :- profile;
    if CapitalisationLabel !in fields then Err(KeyError)
    else
      var n :- Acint(fields[CapitalisationLabel]);
      Ok(n as real / 1000.0)
  }

  /** `GfHandler.get_market_cap(name, 0)`: the capitalisation `get_financials`
      cached for the name, or 0 when there is none, because the KeyError is
      swallowed. It never raises. */
  function GfMarketCap(caps: map<string, real>, name: string): (r: Result<real>)
    ensures r.Ok?
    ensures name in caps ==> r.value == caps[name]
    ensures name !in caps ==> r.value == 0.0
  {
    if name in caps then Ok(caps[name]) else Ok(0.0)
  }

  /** The statement rows `refine_financials` reads, by biznesradar.pl label. */
  const EquityLabel := "Kapitał własny akcjonariuszy jednostki dominującej"
  const DividendLabel := "Dywidenda"
  const NetIncomeLabel := "Zysk netto akcjonariuszy jednostki dominującej"
  const RevenueLabel := "Przychody ze sprzedaży"
  const AssetsLabel := "Aktywa razem"

  /** `[a - e for a, e in zip(assets, equity)]`: as long as the shorter list. */
  function ZipDifference(assets: seq<real>, equity: seq<real>): (r: seq<real>)
    ensures |r| == if |assets| < |equity| then |assets| else |equity|
    ensures forall k :: 0 <= k < |r| ==> r[k] == assets[k] - equity[k]
  {
    if |assets| == 0 || |equity| == 0 then []
    else [assets[0] - equity[0]] + ZipDifference(assets[1..], equity[1..])
  }

  /** A dictionary lookup: KeyError when the key is absent. */
  function Lookup(raw: map<string, seq<real>>, key: string): (r: Result<seq<real>>)
    ensures r.Ok? <==> key in raw
    ensures r.Ok? ==> r.value == raw[key]
    ensures r.Err? ==> r.error == KeyError
  {
    if key in raw then Ok(raw[key]) else Err(KeyError)
  }

  /** `BrHandler.refine_financials(raw_financials)`: the five statement rows
      the engine needs, looked up in this order, plus liabilities derived as
      assets minus equity. */
  function RefineFinancials(raw: map<string, seq<real>>): (r: Result<Financials>)
    ensures r.Ok? <==>
      EquityLabel in raw && DividendLabel in raw && NetIncomeLabel in raw
      && RevenueLabel in raw && AssetsLabel in raw
    ensures r.Err? ==> r.error == KeyError
    ensures r.Ok? ==>
      && r.value.equity == raw[EquityLabel]
      && r.value.dividend == raw[DividendLabel]
      && r.value.netIncome == raw[NetIncomeLabel]
      && r.value.revenue == raw[RevenueLabel]
      && r.value.assets == raw[AssetsLabel]
      && r.value.liabilities == ZipDifference(raw[AssetsLabel], raw[EquityLabel])
  {
    var equity :- Lookup(raw, EquityLabel);
    var dividend :- Lookup(raw, DividendLabel);
    var netIncome :- Lookup(raw, NetIncomeLabel);
    var revenue :- Lookup(raw, RevenueLabel);
    var assets :- Lookup(raw, AssetsLabel);
    Ok(Financials(equity, netIncome, dividend, revenue, assets, ZipDifference(assets, equity)))
  }

  /** Refined statements balance: liabilities plus equity is assets, year by
      year, over the years both are reported. */
  lemma RefinedBalance(raw: map<string, seq<real>>)
    requires RefineFinancials(raw).Ok?
    ensures var f := RefineFinancials(raw).value;
      forall k :: 0 <= k < |f.liabilities| ==>
        k < |f.assets| && k < |f.equity| && f.liabilities[k] + f.equity[k] == f.assets[k]
  {
  }

  /** With equally long assets and equity, the current debt-to-assets ratio
      of the refined statements is 1 - equity / assets of the latest year.
      With a longer assets list the liabilities stop early, and the ratio
      divides an earlier year's liabilities by the latest assets. */
  lemma RefinedDebtToAssets(name: string, raw: map<string, seq<real>>, f: Financials)
    requires RefineFinancials(raw) == Ok(f)
    requires |f.assets| > 0 && |f.equity| > 0 && f.assets[|f.assets| - 1] != 0.0
    ensures DebtToAssetsCurrent(NewCompany(name, f)).Ok?
    ensures DebtToAssetsCurrent(NewCompany(name, f)).value.value
      == (f.assets[ZipLength(f) - 1] - f.equity[ZipLength(f) - 1]) / f.assets[|f.assets| - 1]
  {
    ZippedDebtToAssets(name, f);
  }

  /** The same for any statements whose liabilities are assets minus equity. */
  lemma ZippedDebtToAssets(name: string, f: Financials)
    requires f.liabilities == ZipDifference(f.assets, f.equity)
    requires |f.assets| > 0 && |f.equity| > 0 && f.assets[|f.assets| - 1] != 0.0
    ensures DebtToAssetsCurrent(NewCompany(name, f)).Ok?
    ensures DebtToAssetsCurrent(NewCompany(name, f)).value.value
      == (f.assets[ZipLength(f) - 1] - f.equity[ZipLength(f) - 1]) / f.assets[|f.assets| - 1]
  {
    LatestRefined(f);
    assert NewCompany(name, f).financials == f;
    DebtToAssetsIsQuotient(NewCompany(name, f),
      f.assets[ZipLength(f) - 1] - f.equity[ZipLength(f) - 1], f.assets[|f.assets| - 1]);
  }

  /** The number of years both assets and equity are reported. */
  function ZipLength(f: Financials): (m: nat)
    ensures m <= |f.assets| && m <= |f.equity|
    ensures m == |f.assets| || m == |f.equity|
  {
    if |f.assets| < |f.equity| then |f.assets| else |f.equity|
  }

  /** The latest liabilities and assets of refined statements. */
  lemma LatestRefined(f: Financials)
    requires f.liabilities == ZipDifference(f.assets, f.equity)
    requires |f.assets| > 0 && |f.equity| > 0
    ensures |f.liabilities| == ZipLength(f)
    ensures f.liabilities[|f.liabilities| - 1]
      == f.assets[ZipLength(f) - 1] - f.equity[ZipLength(f) - 1]
  {
  }

  /** `GfHandler.adjust_market_cap(pe, market_cap, income)`: the P/E implied
      by the quoted capitalisation and `income[4]` is compared with the quoted
      P/E; outside the band [0.7, 1.3] of the quoted one, the capitalisation
      is rescaled by their ratio, so that it matches the quoted P/E. */
  function AdjustMarketCap(pe: real, marketCap: real, income: seq<real>): (r: Result<real>)
    ensures r.Ok? <==> |income| > 4 && income[4] != 0.0 && pe != 0.0 && marketCap != 0.0
    ensures |income| <= 4 ==> r == Err(IndexError)
    ensures |income| > 4 && r.Err? ==> r.error == ZeroDivisionError
  {
    var base :- Get(income, 4);
    if base == 0.0 then Err(ZeroDivisionError)
    else
      var syntheticPe := marketCap / base;
      if pe == 0.0 then Err(ZeroDivisionError)
      else
        var comp := syntheticPe / pe;
        if comp > 1.3 || comp < 0.7 then
          if comp == 0.0 then Err(ZeroDivisionError) else Ok(marketCap / comp)
        else Ok(marketCap)
  }

  /** The adjusted capitalisation is either left alone, when the implied
      P/E is within 30% of the quoted one, or becomes exactly quoted P/E
      times `income[4]`; either way the implied P/E ends up within the band. */
  lemma AdjustedCapWithinBand(pe: real, marketCap: real, income: seq<real>)
    requires AdjustMarketCap(pe, marketCap, income).Ok?
    ensures var adjusted := AdjustMarketCap(pe, marketCap, income).value;
      var comp := marketCap / income[4] / pe;
      && (0.7 <= comp <= 1.3 ==> adjusted == marketCap)
      && (!(0.7 <= comp <= 1.3) ==> adjusted == pe * income[4])
      && 0.7 <= adjusted / income[4] / pe <= 1.3
  {
    var base := income[4];
    var comp := marketCap / base / pe;
    if !(0.7 <= comp <= 1.3) {
      Rescaled(marketCap, base, pe, comp);
      RescaledPe(base, pe);
    }
  }

  /** Dividing a capitalisation by its P/E ratio to the quoted one gives
      quoted P/E times income. */
  lemma Rescaled(marketCap: real, base: real, pe: real, comp: real)
    requires base != 0.0 && pe != 0.0 && comp != 0.0 && comp == marketCap / base / pe
    ensures marketCap / comp == pe * base
  {
    assert comp * pe * base == marketCap;
  }

  /** A capitalisation of quoted P/E times income implies the quoted P/E. */
  lemma RescaledPe(base: real, pe: real)
    requires base != 0.0 && pe != 0.0
    ensures pe * base / base / pe == 1.0
  {
  }

  /** Adjusting twice changes nothing more: the first adjustment already
      lands in the band. */
  lemma AdjustIdempotent(pe: real, marketCap: real, income: seq<real>)
    requires AdjustMarketCap(pe, marketCap, income).Ok?
    ensures var once := AdjustMarketCap(pe, marketCap, income).value;
      AdjustMarketCap(pe, once, income) == Ok(once)
  {
    AdjustedCapWithinBand(pe, marketCap, income);
    var once := AdjustMarketCap(pe, marketCap, income).value;
    assert once != 0.0;
  }
}
