/** Validation of a service-unit limit given on the command line (`check_service_units`),
    including the Python 2 `int()` conversion of the argument text. */
module Limits {
  import opened Types

  /** The limit that means "no limit". */
  const Unlimited := -1
  /** The smallest grant an explicit limit may carry. */
  const MinimumGrant := 10000

  /** The characters C's isspace accepts, which `int()` skips around a number. */
  predicate IsSpace(c: char)
  {
    c == ' ' || c == '\t' || c == '\n' || c == '\r' || c == 11 as char || c == 12 as char
  }

  predicate IsDigit(c: char) { '0' <= c <= '9' }

  predicate IsDigits(s: string)
  {
    |s| > 0 && forall i :: 0 <= i < |s| ==> IsDigit(s[i])
  }

  function DigitOf(c: char): (d: nat)
    requires IsDigit(c)
    ensures d < 10
  {
    (c as int) - ('0' as int)
  }

  function DigitChar(d: nat): (c: char)
    requires d < 10
    ensures IsDigit(c) && DigitOf(c) == d
  {
    ('0' as int + d) as char
  }

  /** `s` without its leading whitespace. */
  function TrimLeft(s: string): (t: string)
    ensures t == [] || !IsSpace(t[0])
  {
    if s != [] && IsSpace(s[0]) then TrimLeft(s[1..]) else s
  }

  /** `s` without its trailing whitespace. */
  function TrimRight(s: string): (t: string)
    ensures t == [] || !IsSpace(t[|t| - 1])
  {
    if s != [] && IsSpace(s[|s| - 1]) then TrimRight(s[..|s| - 1]) else s
  }

  /** The value of a string of decimal digits; leading zeros are allowed. */
  function DigitsValue(s: string): nat
    requires forall i :: 0 <= i < |s| ==> IsDigit(s[i])
  {
    if s == [] then 0 else 10 * DigitsValue(s[..|s| - 1]) + DigitOf(s[|s| - 1])
  }

  /** Python 2 `int(text)` in base 10: surrounding whitespace, an optional sign
      (whitespace may follow it), then one or more decimal digits; None where
      `int()` raises ValueError. */
  function ParseInt(s: string): Option<int>
  {
    var t := TrimRight(TrimLeft(s));
    if t != [] && (t[0] == '-' || t[0] == '+') then
      var body := TrimLeft(t[1..]);
      var magnitude: int := if IsDigits(body) then DigitsValue(body) else 0;
      if IsDigits(body) then Some(if t[0] == '-' then -magnitude else magnitude)
      else None
    else if IsDigits(t) then Some(DigitsValue(t))
    else None
  }

  /** The decimal text of a natural number, without leading zeros. */
  function NatText(n: nat): (s: string)
    ensures IsDigits(s)
  {
    if n < 10 then [DigitChar(n)] else NatText(n / 10) + [DigitChar(n % 10)]
  }

  /** The decimal text of an integer, as `str()` writes it. */
  function IntText(n: int): (s: string)
    ensures s != [] && !IsSpace(s[0]) && !IsSpace(s[|s| - 1])
  {
    if n < 0 then ['-'] + NatText(-n) else NatText(n)
  }

  lemma {:induction false} NatTextRoundTrip(n: nat)
    ensures DigitsValue(NatText(n)) == n
  {
    if n >= 10 {
      var s := NatText(n);
      assert s[..|s| - 1] == NatText(n / 10);
      NatTextRoundTrip(n / 10);
    }
  }

  /** Leading zeros do not change the value of a digit string. */
  lemma {:induction false} LeadingZeros(z: string, s: string)
    requires forall i :: 0 <= i < |z| ==> z[i] == '0'
    requires forall i :: 0 <= i < |s| ==> IsDigit(s[i])
    ensures DigitsValue(z + s) == DigitsValue(s)
  {
    if s == [] {
      assert z + s == z;
      AllZeros(z);
    } else {
      assert (z + s)[..|z + s| - 1] == z + s[..|s| - 1];
      LeadingZeros(z, s[..|s| - 1]);
    }
  }

  lemma {:induction false} AllZeros(z: string)
    requires forall i :: 0 <= i < |z| ==> z[i] == '0'
    ensures DigitsValue(z) == 0
  {
    if z != [] {
      AllZeros(z[..|z| - 1]);
    }
  }

  /** A digit string with no surrounding whitespace reads back as its value. */
  lemma ParseDigits(s: string)
    requires IsDigits(s)
    ensures ParseInt(s) == Some(DigitsValue(s))
  {
    assert TrimLeft(s) == s;
    assert TrimRight(s) == s;
  }

  /** A minus sign followed by a digit string reads back as the negated value. */
  lemma ParseNegative(body: string)
    requires IsDigits(body)
    ensures ParseInt(['-'] + body) == Some(-(DigitsValue(body) as int))
  {
    var s := ['-'] + body;
    assert !IsSpace(s[0]);
    assert TrimLeft(s) == s;
    assert s[|s| - 1] == body[|body| - 1];
    assert !IsSpace(s[|s| - 1]);
    assert TrimRight(s) == s;
    assert s[1..] == body;
    assert TrimLeft(body) == body;
  }

  /** `int(str(n)) == n`. */
  lemma ParseIntText(n: int)
    ensures ParseInt(IntText(n)) == Some(n)
  {
    if n < 0 {
      assert IntText(n) == ['-'] + NatText(-n);
      ParseNegative(NatText(-n));
      NatTextRoundTrip(-n);
    } else {
      assert IntText(n) == NatText(n);
      ParseDigits(NatText(n));
      NatTextRoundTrip(n);
    }
  }

  /** `check_service_units`: the text must be an integer, and that integer
      must be -1 (unlimited) or at least the minimum grant. */
  function CheckServiceUnits(given: string): (r: Result<int>)
    ensures r.Ok? ==> r.value == Unlimited || r.value >= MinimumGrant
    ensures r.Ok? ==> ParseInt(given) == Some(r.value)
    ensures ParseInt(given) == None ==> r == Err(NotAnInteger(given))
    ensures ParseInt(given).Some? ==>
      r == (if ParseInt(given).value == Unlimited || ParseInt(given).value >= MinimumGrant
            then Ok(ParseInt(given).value) else Err(TooSmall(ParseInt(given).value)))
  {
    match ParseInt(given)
    case None => Err(NotAnInteger(given))
    case Some(n) => if n == Unlimited || n >= MinimumGrant then Ok(n) else Err(TooSmall(n))
  }

  /** Over every integer written out as text, exactly -1 and the values from
      10000 up are accepted, with their own value; every other one (0, 9999,
      -2, ...) is refused as too small. */
  lemma LimitValidation(n: int)
    ensures CheckServiceUnits(IntText(n)) ==
      if n == -1 || n >= 10000 then Ok(n) else Err(TooSmall(n))
  {
    ParseIntText(n);
  }
}
