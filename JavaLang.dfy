/**
 * The parts of Java's `int` and of `java.lang.Integer` that the popularity
 * pipeline relies on: the 32-bit range, wrap-around on `+=`,
 * `Integer.parseInt`, `Integer.toString` and `Integer.compare`.
 */
module JavaLang {

  /** The only failure the core raises: `NumberFormatException` from `Integer.parseInt`. */
  datatype Error = NumberFormat(input: string)

  datatype Result<+T> = Ok(value: T) | Err(error: Error)

  datatype Outcome = Pass | Fail(error: Error)

  const IntMin: int := -0x8000_0000
  const IntMax: int := 0x7fff_ffff
  const Modulus: int := 0x1_0000_0000

  /** `x` is a value of Java's `int`. */
  predicate IsInt(x: int) {
    IntMin <= x <= IntMax
  }

  /** Two's-complement wrap-around: the `int` congruent to `x` modulo 2^32. */
  function Wrap(x: int): (r: int)
    ensures IsInt(r)
    ensures (x - r) % Modulus == 0
    ensures IsInt(x) ==> r == x
  {
    (x - IntMin) % Modulus + IntMin
  }

  /** At most one `int` is congruent to a given integer. */
  lemma WrapUnique(x: int, r: int)
    requires IsInt(r) && (x - r) % Modulus == 0
    ensures r == Wrap(x)
  {
    var w := Wrap(x);
    var d := (x - r) / Modulus;
    var e := (x - w) / Modulus;
    assert x - r == d * Modulus;
    assert x - w == e * Modulus;
    assert w - r == (d - e) * Modulus;
    assert -Modulus < w - r < Modulus;
  }

  /** Wrapping after every `+=` gives the same `int` as wrapping the exact sum once. */
  lemma WrapAdd(a: int, b: int)
    ensures Wrap(Wrap(a) + b) == Wrap(a + b)
  {
    var w := Wrap(a);
    var s := Wrap(w + b);
    var d := (a - w) / Modulus;
    var e := (w + b - s) / Modulus;
    assert a - w == d * Modulus;
    assert w + b - s == e * Modulus;
    assert (a + b) - s == (d + e) * Modulus;
    WrapUnique(a + b, s);
  }

  /** `Integer.compare(x, y)`, which `Integer.compareTo` delegates to. */
  function Compare(x: int, y: int): (r: int)
    ensures r < 0 <==> x < y
    ensures r == 0 <==> x == y
    ensures r > 0 <==> x > y
    ensures -1 <= r <= 1
  {
    if x < y then -1 else if x == y then 0 else 1
  }

  predicate IsDigit(c: char) {
    '0' <= c <= '9'
  }

  predicate AllDigits(s: string) {
    forall i :: 0 <= i < |s| ==> IsDigit(s[i])
  }

  function DigitValue(c: char): (d: nat)
    requires IsDigit(c)
    ensures d < 10
  {
    (c as int) - ('0' as int)
  }

  function DigitChar(d: nat): (c: char)
    requires d < 10
    ensures IsDigit(c) && DigitValue(c) == d
  {
    (('0' as int) + d) as char
  }

  /** The value of a string of decimal digits, most significant first. */
  function DigitsValue(s: string): nat
    requires AllDigits(s)
  {
    if s == [] then 0 else DigitsValue(s[..|s| - 1]) * 10 + DigitValue(s[|s| - 1])
  }

  /**
   * `Integer.parseInt(s)` (radix 10): an optional leading '-' or '+', then one
   * or more digits, whose value must fit in an `int`; anything else throws
   * `NumberFormatException`. Only the ASCII digits are modelled.
   */
  function ParseInt(s: string): (r: Result<int>)
    ensures r.Err? ==> r.error == NumberFormat(s)
    ensures r.Ok? ==> IsInt(r.value)
  {
    if |s| > 0 && (s[0] == '-' || s[0] == '+') then ParseDigits(s, s[1..], s[0] == '-')
    else ParseDigits(s, s, false)
  }

  /** The digits part of `Integer.parseInt(s)`, after the sign has been read. */
  function ParseDigits(s: string, digits: string, negative: bool): (r: Result<int>)
    ensures r.Err? ==> r.error == NumberFormat(s)
    ensures r.Ok? ==> IsInt(r.value)
  {
    if digits == [] || !AllDigits(digits) then Err(NumberFormat(s))
    else
      var v: int := if negative then -(DigitsValue(digits) as int) else DigitsValue(digits);
      if IsInt(v) then Ok(v) else Err(NumberFormat(s))
  }

  /**
   * What `Integer.parseInt` accepts, and the value it returns: a non-empty
   * string of digits after at most one leading '+' or '-', whose signed
   * value fits in an `int`. Every other string is rejected.
   */
  lemma ParseIntAccepts(s: string, v: int)
    ensures ParseInt(s) == Ok(v) <==>
              (IsInt(v)
               && ((|s| > 0 && AllDigits(s) && v == DigitsValue(s))
                   || (|s| > 1 && s[0] == '+' && AllDigits(s[1..]) && v == DigitsValue(s[1..]))
                   || (|s| > 1 && s[0] == '-' && AllDigits(s[1..]) && v == -(DigitsValue(s[1..]) as int))))
  {
    if |s| > 0 && (s[0] == '-' || s[0] == '+') {
      assert !AllDigits(s) by {
        assert !IsDigit(s[0]);
      }
    }
  }

  /** The decimal digits of `n`, without leading zeros. */
  function FormatNat(n: nat): (s: string)
    ensures |s| > 0 && AllDigits(s)
  {
    if n < 10 then [DigitChar(n)] else FormatNat(n / 10) + [DigitChar(n % 10)]
  }

  /** `Integer.toString(n)` (also `IntWritable.toString()`). */
  function FormatInt(n: int): (s: string)
    ensures |s| > 0
    ensures s[0] == '-' <==> n < 0
    ensures AllDigits(if n < 0 then s[1..] else s)
  {
    if n < 0 then "-" + FormatNat(-n) else FormatNat(n)
  }

  lemma {:induction false} FormatNatDigits(n: nat)
    ensures AllDigits(FormatNat(n))
    ensures DigitsValue(FormatNat(n)) == n
  {
    if n >= 10 {
      FormatNatDigits(n / 10);
      var s := FormatNat(n);
      assert s[..|s| - 1] == FormatNat(n / 10);
    }
  }

  /**
   * The text an `int` is written as parses back to that `int`. This is what
   * makes the stage-1 output table and the `IntWritable.toString()` hand-off
   * in the league-rank reducer lossless.
   */
  lemma ParseFormatRoundTrip(n: int)
    requires IsInt(n)
    ensures ParseInt(FormatInt(n)) == Ok(n)
  {
    var s := FormatInt(n);
    if n < 0 {
      var d := FormatNat(-n);
      FormatNatDigits(-n);
      assert s[0] == '-' && s[1..] == d;
      assert ParseInt(s) == ParseDigits(s, d, true);
    } else {
      var d := FormatNat(n);
      FormatNatDigits(n);
      assert IsDigit(d[0]);
      assert ParseInt(s) == ParseDigits(s, d, false);
    }
  }
}
