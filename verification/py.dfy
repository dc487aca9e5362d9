/** The slice of the Python runtime the valuation engine leans on: exceptions
    as a Result, list indexing with negative indices, clamped slicing, and the
    `statistics` helpers `mean` and sample variance, over exact reals. */
module Py {

  /** The exceptions the engine can raise, by Python class. */
  datatype Error =
    | ValueError(reason: string)
    | IndexError
    | KeyError
    | ZeroDivisionError
    | StatisticsError
    | EquityError
    | MarketCapError

  /** Python's `None` or a value. */
  datatype Option<+T> = None | Some(value: T)

  /** A computation that either returns or raises. */
  datatype Result<+T> = Ok(value: T) | Err(error: Error) {
    predicate IsFailure() {
      Err?
    }

    function PropagateFailure<U>(): Result<U>
      requires Err?
    {
      Err(error)
    }

    function Extract(): T
      requires Ok?
    {
      value
    }
  }

  /** `s[i]`: a negative index counts from the end; anything else out of range raises. */
  function Get<T>(s: seq<T>, i: int): (r: Result<T>)
    ensures r.Ok? <==> -|s| <= i < |s|
    ensures 0 <= i < |s| ==> r == Ok(s[i])
    ensures -|s| <= i < 0 ==> r == Ok(s[|s| + i])
    ensures r.Err? ==> r.error == IndexError
  {
    if 0 <= i < |s| then Ok(s[i])
    else if -|s| <= i < 0 then Ok(s[|s| + i])
    else Err(IndexError)
  }

  /** Where a slice bound lands in a sequence of length n. */
  function Clamp(n: nat, i: int): (k: nat)
    ensures k <= n
    ensures 0 <= i <= n ==> k == i
  {
    if i < 0 then (if i + n < 0 then 0 else i + n)
    else if i > n then n
    else i
  }

  /** `s[lo:hi]`: never raises; bounds are wrapped and clamped. */
  function Slice<T>(s: seq<T>, lo: int, hi: int): (r: seq<T>)
    ensures 0 <= lo <= hi <= |s| ==> r == s[lo..hi]
    ensures |r| <= |s|
    ensures forall v :: v in r ==> v in s
  {
    var a := Clamp(|s|, lo);
    var b := Clamp(|s|, hi);
    if a < b then s[a..b] else []
  }

  function Sum(xs: seq<real>): real
  {
    if |xs| == 0 then 0.0 else xs[0] + Sum(xs[1..])
  }

  /** The arithmetic mean of a non-empty sample. */
  function Mean(xs: seq<real>): real
    requires |xs| > 0
  {
    Sum(xs) / |xs| as real
  }

  /** `statistics.mean`, which raises on an empty sample. */
  function PyMean(xs: seq<real>): (r: Result<real>)
    ensures r.Ok? <==> |xs| > 0
    ensures r.Ok? ==> r.value == Mean(xs)
    ensures r.Err? ==> r.error == StatisticsError
  {
    if |xs| == 0 then Err(StatisticsError) else Ok(Mean(xs))
  }

  /** Sum of squared distances of the sample from `centre`. */
  function SquaredDistances(xs: seq<real>, centre: real): (r: real)
    ensures r >= 0.0
  {
    if |xs| == 0 then 0.0
    else
      var d := xs[0] - centre;
      SquareNonNegative(d);
      d * d + SquaredDistances(xs[1..], centre)
  }

  lemma SquareNonNegative(d: real)
    ensures d * d >= 0.0
  {
    if d < 0.0 {
      assert d * d == (-d) * (-d);
    }
  }

  /** The sample variance `statistics.stdev` takes the square root of. */
  function Variance(xs: seq<real>): (v: real)
    requires |xs| >= 2
    ensures v >= 0.0
  {
    SquaredDistances(xs, Mean(xs)) / (|xs| - 1) as real
  }

  function Pow(x: real, n: nat): real
  {
    if n == 0 then 1.0 else x * Pow(x, n - 1)
  }

  function Min(a: real, b: real): real
  {
    if a <= b then a else b
  }

  /** `list.reverse()` as a value. */
  function Reverse<T>(s: seq<T>): (r: seq<T>)
    ensures |r| == |s|
    ensures forall k :: 0 <= k < |s| ==> r[k] == s[|s| - 1 - k]
  {
    seq(|s|, k requires 0 <= k < |s| => s[|s| - 1 - k])
  }

  /** Reversing twice restores the list. */
  lemma ReverseInvolution<T>(s: seq<T>)
    ensures Reverse(Reverse(s)) == s
  {
  }

  lemma SumAppend(xs: seq<real>, ys: seq<real>)
    ensures Sum(xs + ys) == Sum(xs) + Sum(ys)
  {
    if |xs| == 0 {
      assert xs + ys == ys;
    } else {
      assert (xs + ys)[1..] == xs[1..] + ys;
      SumAppend(xs[1..], ys);
    }
  }

  /** A sample of n copies of k sums to n * k. */
  lemma {:induction false} SumOfConstant(xs: seq<real>, k: real)
    requires forall i :: 0 <= i < |xs| ==> xs[i] == k
    ensures Sum(xs) == |xs| as real * k
  {
    if |xs| > 0 {
      SumOfConstant(xs[1..], k);
    }
  }

  /** The mean of a constant sample is that constant. */
  lemma MeanOfConstant(xs: seq<real>, k: real)
    requires |xs| > 0
    requires forall i :: 0 <= i < |xs| ==> xs[i] == k
    ensures Mean(xs) == k
  {
    SumOfConstant(xs, k);
  }

  /** A power of a non-zero base is non-zero. */
  lemma {:induction false} PowNonZero(x: real, n: nat)
    requires x != 0.0
    ensures Pow(x, n) != 0.0
  {
    if n > 0 {
      PowNonZero(x, n - 1);
    }
  }

  /** A power of a positive base is positive. */
  lemma {:induction false} PowPositive(x: real, n: nat)
    requires x > 0.0
    ensures Pow(x, n) > 0.0
  {
    if n > 0 {
      PowPositive(x, n - 1);
    }
  }

  /** Powers are strictly increasing in a positive base. */
  lemma {:induction false} PowMonotone(x: real, y: real, n: nat)
    requires 0.0 < x < y
    requires n >= 1
    ensures 0.0 < Pow(x, n) < Pow(y, n)
  {
    if n == 1 {
    } else {
      PowMonotone(x, y, n - 1);
      PowPositive(x, n - 1);
      assert Pow(x, n) == x * Pow(x, n - 1);
      assert Pow(y, n) == y * Pow(y, n - 1);
      assert x * Pow(x, n - 1) < y * Pow(x, n - 1);
      assert y * Pow(x, n - 1) < y * Pow(y, n - 1);
    }
  }

  /** Powers of a base above one are above one. */
  lemma {:induction false} PowAboveOne(x: real, n: nat)
    requires x > 1.0
    requires n >= 1
    ensures Pow(x, n) > 1.0
  {
    if n > 1 {
      PowAboveOne(x, n - 1);
      assert x * Pow(x, n - 1) > 1.0 * Pow(x, n - 1);
    }
  }
}
