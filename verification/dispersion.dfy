/** The ROE "deviation" is `stdev(roes) / mean(roes)`: a square root divided
    by a mean. The square root is kept symbolic: a deviation is either a plain
    number (the cache's initial 0) or the pair (sample variance, mean), and the
    one question the screening asks of it, "is it above this threshold?", is
    decided exactly from that pair. */
module Dispersion {

  datatype Deviation =
    | Plain(value: real)
    | StdevOverMean(variance: real, mean: real)

  /** x is the real number the deviation stands for: for the symbolic form,
      x = sqrt(variance) / mean, i.e. x * mean is the non-negative root. */
  ghost predicate Denotes(d: Deviation, x: real)
  {
    match d
    case Plain(v) => x == v
    case StdevOverMean(v, m) => m != 0.0 && x * m >= 0.0 && (x * m) * (x * m) == v
  }

  /** `deviation > bound`, decided without taking the square root. */
  predicate Exceeds(d: Deviation, bound: real)
  {
    match d
    case Plain(v) => v > bound
    case StdevOverMean(v, m) =>
      var b := bound * m;
      if m > 0.0 then b < 0.0 || v > b * b
      else if m < 0.0 then b > 0.0 && v < b * b
      else false
  }

  lemma SquareMonotone(s: real, b: real)
    requires s >= 0.0 && b >= 0.0
    ensures s > b <==> s * s > b * b
  {
    if s > b {
      ProductStrict(s, s, b, b);
    } else {
      ProductWeak(s, s, b, b);
    }
  }

  /** Products of non-negative factors grow strictly with both factors. */
  lemma ProductStrict(s: real, t: real, b: real, c: real)
    requires 0.0 <= b < s && 0.0 <= c < t
    ensures s * t > b * c
  {
    assert s * t > s * c;
    assert s * c >= b * c;
  }

  lemma ProductWeak(s: real, t: real, b: real, c: real)
    requires 0.0 <= s <= b && 0.0 <= t <= c
    ensures s * t <= b * c
  {
    assert s * t <= s * c;
    assert s * c <= b * c;
  }

  /** Deciding `Exceeds` on the symbolic pair agrees with comparing the real
      number the deviation denotes. */
  lemma ExceedsIffAbove(d: Deviation, x: real, bound: real)
    requires Denotes(d, x)
    ensures Exceeds(d, bound) <==> x > bound
  {
    match d
    case Plain(_) =>
    case StdevOverMean(v, m) =>
      var s := x * m;
      var b := bound * m;
      if m > 0.0 {
        assert x > bound <==> s > b;
        if b >= 0.0 {
          SquareMonotone(s, b);
        }
      } else {
        assert x > bound <==> s < b;
        if b > 0.0 {
          SquareMonotone(b, s);
        }
      }
  }

  /** A symbolic deviation over a positive mean denotes a non-negative number,
      over a negative mean a non-positive one. */
  lemma SignFollowsMean(v: real, m: real, x: real)
    requires Denotes(StdevOverMean(v, m), x)
    ensures m > 0.0 ==> x >= 0.0
    ensures m < 0.0 ==> x <= 0.0
  {
  }
}
