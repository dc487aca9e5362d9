/** Python's `int()` and `float()` on decimal text, restricted to what the
    scraped figures use: surrounding whitespace, an optional sign, and
    decimal digits with (for `float`) at most one decimal point. */
module Numerals {
  import opened Py

  predicate IsDigit(ch: char)
  {
    '0' <= ch <= '9'
  }

  function DigitValue(ch: char): nat
    requires IsDigit(ch)
  {
    ch as int - '0' as int
  }

  function DigitChar(d: nat): (ch: char)
    requires d < 10
    ensures IsDigit(ch) && DigitValue(ch) == d
  {
    ('0' as int + d) as char
  }

  predicate AllDigits(s: string)
  {
    forall k :: 0 <= k < |s| ==> IsDigit(s[k])
  }

  /** The number a string of decimal digits spells, most significant first. */
  function DigitsValue(s: string): nat
    requires AllDigits(s)
  {
    if |s| == 0 then 0 else DigitsValue(s[..|s| - 1]) * 10 + DigitValue(s[|s| - 1])
  }

  /** The value of the digits after a decimal point: 0.d1 d2 d3 ... */
  function FractionValue(s: string): (v: real)
    requires AllDigits(s)
    ensures 0.0 <= v < 1.0
  {
    if |s| == 0 then 0.0 else (DigitValue(s[0]) as real + FractionValue(s[1..])) / 10.0
  }

  /** The number "whole.fraction" spells. */
  function DecimalValue(whole: string, fraction: string): (v: real)
    requires AllDigits(whole) && AllDigits(fraction)
    ensures DigitsValue(whole) as real <= v < DigitsValue(whole) as real + 1.0
  {
    DigitsValue(whole) as real + FractionValue(fraction)
  }

  /** The decimal numeral of n, without leading zeros. */
  function ShowNat(n: nat): (s: string)
    ensures |s| > 0 && AllDigits(s)
    ensures DigitsValue(s) == n
  {
    if n < 10 then [DigitChar(n)]
    else
      var s := ShowNat(n / 10) + [DigitChar(n % 10)];
      assert s[..|s| - 1] == ShowNat(n / 10);
      s
  }

  /** The whitespace `int()` and `float()` ignore around a numeral: the ASCII
      whitespace characters and the four separators U+001C to U+001F. */
  predicate IsSpace(ch: char)
  {
    || ch == ' ' || ch == '\t' || ch == '\n' || ch == '\r' || ch == '\U{000B}' || ch == '\U{000C}'
    || '\U{001C}' <= ch <= '\U{001F}'
  }

  predicate AllSpace(w: string)
  {
    forall k :: 0 <= k < |w| ==> IsSpace(w[k])
  }

  /** t is a piece of s with nothing but whitespace on either side of it. */
  predicate Surrounds(s: string, t: string)
  {
    exists i :: 0 <= i <= |s| - |t| && t == s[i..i + |t|] && AllSpace(s[..i]) && AllSpace(s[i + |t|..])
  }

  /** Neither end is whitespace. */
  predicate Trimmed(t: string)
  {
    |t| > 0 ==> !IsSpace(t[0]) && !IsSpace(t[|t| - 1])
  }

  /** What is left of s once its leading whitespace is gone. */
  function StripLeft(s: string): (t: string)
    ensures |t| <= |s|
    ensures |t| > 0 ==> !IsSpace(t[0])
  {
    if |s| > 0 && IsSpace(s[0]) then StripLeft(s[1..]) else s
  }

  /** What is left of s once its trailing whitespace is gone. */
  function StripRight(s: string): (t: string)
    ensures |t| <= |s|
    ensures |t| > 0 ==> t[0] == s[0]
    ensures |t| > 0 ==> !IsSpace(t[|t| - 1])
  {
    if |s| > 0 && IsSpace(s[|s| - 1]) then StripRight(s[..|s| - 1]) else s
  }

  /** `str.strip()`: s without its leading and trailing whitespace. */
  function Strip(s: string): (t: string)
    ensures Trimmed(t)
  {
    StripRight(StripLeft(s))
  }

  /** StripLeft keeps a suffix of s and removes only whitespace. */
  lemma {:induction false} StripLeftSuffix(s: string)
    ensures StripLeft(s) == s[|s| - |StripLeft(s)|..]
    ensures AllSpace(s[..|s| - |StripLeft(s)|])
  {
    if |s| > 0 && IsSpace(s[0]) {
      StripLeftSuffix(s[1..]);
      assert s[..|s| - |StripLeft(s)|] == [s[0]] + s[1..][..|s| - 1 - |StripLeft(s)|];
    }
  }

  /** StripRight keeps a prefix of s and removes only whitespace. */
  lemma {:induction false} StripRightPrefix(s: string)
    ensures StripRight(s) == s[..|StripRight(s)|]
    ensures AllSpace(s[|StripRight(s)|..])
  {
    if |s| > 0 && IsSpace(s[|s| - 1]) {
      StripRightPrefix(s[..|s| - 1]);
      assert s[|StripRight(s)|..] == s[..|s| - 1][|StripRight(s)|..] + [s[|s| - 1]];
    }
  }

  /** What Strip keeps is a piece of s with only whitespace around it. */
  lemma StripSurrounds(s: string)
    ensures Surrounds(s, Strip(s))
  {
    var u := StripLeft(s);
    var t := Strip(s);
    StripLeftSuffix(s);
    StripRightPrefix(u);
    var i := |s| - |u|;
    assert t == u[..|t|] && AllSpace(u[|t|..]);
    SuffixSlices(s, i, |t|);
  }

  /** Slicing the suffix s[i..] is slicing s shifted by i. */
  lemma SuffixSlices(s: string, i: nat, m: nat)
    requires i + m <= |s|
    ensures s[i..][..m] == s[i..i + m]
    ensures s[i..][m..] == s[i + m..]
  {
  }

  /** Whitespace in front of a piece that does not start with whitespace is
      exactly what StripLeft removes. */
  lemma {:induction false} StripLeftOf(w: string, u: string)
    requires AllSpace(w)
    requires |u| > 0 ==> !IsSpace(u[0])
    ensures StripLeft(w + u) == u
  {
    if |w| == 0 {
      assert w + u == u;
    } else {
      assert (w + u)[1..] == w[1..] + u;
      StripLeftOf(w[1..], u);
    }
  }

  /** Whitespace behind a piece that does not end with whitespace is exactly
      what StripRight removes. */
  lemma {:induction false} StripRightOf(u: string, w: string)
    requires AllSpace(w)
    requires |u| > 0 ==> !IsSpace(u[|u| - 1])
    ensures StripRight(u + w) == u
  {
    if |w| == 0 {
      assert u + w == u;
    } else {
      assert (u + w)[..|u + w| - 1] == u + w[..|w| - 1];
      StripRightOf(u, w[..|w| - 1]);
    }
  }

  /** Strip takes back exactly the whitespace put around a trimmed piece, so
      the piece its contract promises is the only one. */
  lemma StripLayout(w1: string, t: string, w2: string)
    requires AllSpace(w1) && AllSpace(w2) && Trimmed(t)
    ensures Strip(w1 + t + w2) == t
  {
    if |t| == 0 {
      assert w1 + t + w2 == (w1 + w2) + "";
      StripLeftOf(w1 + w2, "");
    } else {
      assert w1 + t + w2 == w1 + (t + w2);
      StripLeftOf(w1, t + w2);
      StripRightOf(t, w2);
    }
  }

  /** A string without whitespace at either end is its own strip. */
  lemma StripUnspaced(s: string)
    requires |s| > 0 ==> !IsSpace(s[0]) && !IsSpace(s[|s| - 1])
    ensures Strip(s) == s
  {
    StripLayout("", s, "");
    assert "" + s + "" == s;
  }

  /** Splits an optional leading sign off: (negative?, rest). */
  function Sign(t: string): (r: (bool, string))
    ensures |t| > 0 && t[0] == '-' ==> r == (true, t[1..])
    ensures |t| > 0 && t[0] == '+' ==> r == (false, t[1..])
    ensures !(|t| > 0 && (t[0] == '-' || t[0] == '+')) ==> r == (false, t)
  {
    if |t| > 0 && (t[0] == '-' || t[0] == '+') then (t[0] == '-', t[1..]) else (false, t)
  }

  /** The integer literals `int()` accepts once stripped: an optional sign
      followed by one or more decimal digits. */
  predicate IsIntLiteral(t: string)
  {
    if |t| > 0 && (t[0] == '+' || t[0] == '-') then |t| > 1 && AllDigits(t[1..])
    else |t| > 0 && AllDigits(t)
  }

  /** The value an integer literal denotes. */
  function LiteralValue(t: string): int
    requires IsIntLiteral(t)
  {
    if t[0] == '-' then -(DigitsValue(t[1..]) as int)
    else if t[0] == '+' then DigitsValue(t[1..]) as int
    else DigitsValue(t) as int
  }

  /** `int(s)` for base-10 text; None where Python raises ValueError. */
  function ParseInt(s: string): (r: Option<int>)
    ensures r.Some? <==> IsIntLiteral(Strip(s))
    ensures r.Some? ==> r.value == LiteralValue(Strip(s))
  {
    var (neg, digits) := Sign(Strip(s));
    if |digits| > 0 && AllDigits(digits) then
      Some(if neg then -(DigitsValue(digits) as int) else DigitsValue(digits) as int)
    else None
  }

  /** `int()` accepts whitespace, an optional sign, digits and whitespace, in
      that order, and reads the signed value of the digits. */
  lemma ParseIntGrammar(w1: string, sign: string, digits: string, w2: string)
    requires AllSpace(w1) && AllSpace(w2)
    requires sign == "" || sign == "+" || sign == "-"
    requires |digits| > 0 && AllDigits(digits)
    ensures ParseInt(w1 + sign + digits + w2)
         == Some(if sign == "-" then -(DigitsValue(digits) as int) else DigitsValue(digits) as int)
  {
    SignedDigitsLiteral(sign, digits);
    StripSignedDigits(w1, sign, digits, w2);
    ParseIntOfStripped(w1 + sign + digits + w2, sign + digits);
  }

  /** A sign and digits form a literal whose value is the signed digits. */
  lemma SignedDigitsLiteral(sign: string, digits: string)
    requires sign == "" || sign == "+" || sign == "-"
    requires |digits| > 0 && AllDigits(digits)
    ensures IsIntLiteral(sign + digits)
    ensures LiteralValue(sign + digits) == if sign == "-" then -(DigitsValue(digits) as int) else DigitsValue(digits) as int
  {
    if sign == "" {
      assert sign + digits == digits;
    } else {
      assert (sign + digits)[1..] == digits;
    }
  }

  /** The stripped text of such a string is the sign and the digits. */
  lemma StripSignedDigits(w1: string, sign: string, digits: string, w2: string)
    requires AllSpace(w1) && AllSpace(w2)
    requires sign == "" || sign == "+" || sign == "-"
    requires |digits| > 0 && AllDigits(digits)
    ensures Strip(w1 + sign + digits + w2) == sign + digits
  {
    var t := sign + digits;
    assert t[|t| - 1] == digits[|digits| - 1];
    assert !IsSpace(t[0]) by {
      if sign == "" {
        assert t[0] == digits[0];
      } else {
        assert t[0] == sign[0];
      }
    }
    assert w1 + sign + digits + w2 == w1 + t + w2;
    StripLayout(w1, t, w2);
  }

  lemma ParseIntOfStripped(s: string, t: string)
    requires Strip(s) == t && IsIntLiteral(t)
    ensures ParseInt(s) == Some(LiteralValue(t))
  {
  }

  /** The position of the first occurrence of ch. */
  function IndexOf(s: string, ch: char): (r: Option<nat>)
    ensures r.Some? ==> r.value < |s| && s[r.value] == ch && ch !in s[..r.value]
    ensures r.None? <==> ch !in s
  {
    if |s| == 0 then None
    else if s[0] == ch then Some(0)
    else
      var rest := IndexOf(s[1..], ch);
      if rest.Some? then
        assert s[..rest.value + 1] == [s[0]] + s[1..][..rest.value];
        Some(rest.value + 1)
      else None
  }

  /** An unsigned decimal: digits, optionally a point and more digits, with
      at least one digit in all. */
  function UnsignedDecimal(body: string): (r: Option<real>)
  {
    match IndexOf(body, '.')
    case None =>
      if |body| > 0 && AllDigits(body) then Some(DigitsValue(body) as real) else None
    case Some(i) =>
      var whole := body[..i];
      var fraction := body[i + 1..];
      if AllDigits(whole) && AllDigits(fraction) && |whole| + |fraction| > 0 then
        Some(DecimalValue(whole, fraction))
      else None
  }

  /** `float(s)` for plain decimal text; None where Python raises ValueError.
      Accepted are optional surrounding whitespace, an optional "+" or "-",
      and digits with at most one decimal point and at least one digit in
      all ("12", "12.", ".5", "-1.25"); ParseFloatDecimal and ParseFloatWhole
      state the value read. */
  function ParseFloat(s: string): (r: Option<real>)
  {
    var (neg, body) := Sign(Strip(s));
    match UnsignedDecimal(body)
    case None => None
    case Some(v) => Some(if neg then -v else v)
  }

  /** The first ch is found right after a prefix that lacks it. */
  lemma {:induction false} IndexOfAfter(prefix: string, rest: string, ch: char)
    requires ch !in prefix && |rest| > 0 && rest[0] == ch
    ensures IndexOf(prefix + rest, ch) == Some(|prefix|)
  {
    if |prefix| > 0 {
      assert (prefix + rest)[1..] == prefix[1..] + rest;
      IndexOfAfter(prefix[1..], rest, ch);
    } else {
      assert prefix + rest == rest;
    }
  }

  lemma NoPointInDigits(s: string)
    requires AllDigits(s)
    ensures '.' !in s
  {
  }

  lemma UnsignedDecimalPoint(whole: string, fraction: string)
    requires AllDigits(whole) && AllDigits(fraction) && |whole| + |fraction| > 0
    ensures UnsignedDecimal(whole + "." + fraction) == Some(DecimalValue(whole, fraction))
  {
    var s := whole + ("." + fraction);
    NoPointInDigits(whole);
    IndexOfAfter(whole, "." + fraction, '.');
    assert s[..|whole|] == whole;
    assert s[|whole| + 1..] == fraction;
    UnsignedDecimalAt(s, |whole|, whole, fraction);
    assert whole + "." + fraction == s;
  }

  lemma UnsignedDecimalAt(body: string, i: nat, whole: string, fraction: string)
    requires IndexOf(body, '.') == Some(i)
    requires whole == body[..i] && fraction == body[i + 1..]
    requires AllDigits(whole) && AllDigits(fraction) && |whole| + |fraction| > 0
    ensures UnsignedDecimal(body) == Some(DecimalValue(whole, fraction))
  {
  }

  /** `float` reads back "whole.fraction". */
  lemma ParseFloatDecimal(whole: string, fraction: string)
    requires |whole| > 0 && AllDigits(whole) && AllDigits(fraction)
    ensures ParseFloat(whole + "." + fraction) == Some(DecimalValue(whole, fraction))
  {
    var s := whole + "." + fraction;
    assert s[0] == whole[0];
    assert !IsSpace(s[|s| - 1]) by {
      if |fraction| > 0 {
        assert s[|s| - 1] == fraction[|fraction| - 1];
      } else {
        assert s[|s| - 1] == '.';
      }
    }
    StripUnspaced(s);
    UnsignedDecimalPoint(whole, fraction);
  }

  /** `float` reads back a plain digit string. */
  lemma ParseFloatWhole(whole: string)
    requires |whole| > 0 && AllDigits(whole)
    ensures ParseFloat(whole) == Some(DigitsValue(whole) as real)
  {
    StripUnspaced(whole);
    NoPointInDigits(whole);
  }

  /** Without surrounding whitespace: a sign and digits read as the signed
      value of the digits. */
  lemma ParseIntSigned(sign: string, digits: string)
    requires sign == "" || sign == "+" || sign == "-"
    requires |digits| > 0 && AllDigits(digits)
    ensures ParseInt(sign + digits)
         == Some(if sign == "-" then -(DigitsValue(digits) as int) else DigitsValue(digits) as int)
  {
    StripSignedDigits("", sign, digits, "");
    SignedDigitsLiteral(sign, digits);
    assert "" + sign + digits + "" == sign + digits;
    ParseIntOfStripped(sign + digits, sign + digits);
  }

  /** `int` reads back the numeral of any natural number. */
  lemma ParseIntShowNat(n: nat)
    ensures ParseInt(ShowNat(n)) == Some(n)
  {
    var s := ShowNat(n);
    ParseIntSigned("", s);
    assert "" + s == s;
  }

  /** ... and of its negation. */
  lemma ParseIntNegative(n: nat)
    ensures ParseInt("-" + ShowNat(n)) == Some(-(n as int))
  {
    ParseIntSigned("-", ShowNat(n));
  }
}
