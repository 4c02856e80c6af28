/** `parseInt(s, 10)`, as App.tsx applies it to the `id` column: skip leading whitespace,
    take an optional sign, then the longest run of decimal digits. With no digit the
    result is `NaN`, written `None` here. */
module IntParsing {
  import opened Wrappers
  import opened Text

  predicate IsDigit(c: char) {
    '0' <= c <= '9'
  }

  predicate AllDigits(s: string) {
    forall i :: 0 <= i < |s| ==> IsDigit(s[i])
  }

  function DigitValue(c: char): nat
    requires IsDigit(c)
  {
    c as int - '0' as int
  }

  function DigitChar(d: nat): (c: char)
    requires d < 10
    ensures IsDigit(c) && DigitValue(c) == d
  {
    ('0' as int + d) as char
  }

  /** The longest prefix of `s` made of digits. */
  function LeadingDigits(s: string): (r: string)
    ensures r <= s && AllDigits(r)
    ensures |r| == |s| || !IsDigit(s[|r|])
  {
    if s != [] && IsDigit(s[0]) then [s[0]] + LeadingDigits(s[1..]) else []
  }

  /** The value of a string of decimal digits, most significant first. */
  function DigitsValue(ds: string): nat
    requires AllDigits(ds)
  {
    if ds == [] then 0 else 10 * DigitsValue(ds[..|ds| - 1]) + DigitValue(ds[|ds| - 1])
  }

  /** A sign followed by a digit, or a digit: the start `parseInt` needs to yield a number. */
  predicate StartsWithNumber(t: string) {
    || (t != [] && IsDigit(t[0]))
    || (|t| >= 2 && (t[0] == '-' || t[0] == '+') && IsDigit(t[1]))
  }

  /** What follows an optional leading sign. */
  function Unsigned(t: string): (body: string)
    ensures body != [] && IsDigit(body[0]) <==> StartsWithNumber(t)
  {
    if t != [] && (t[0] == '-' || t[0] == '+') then t[1..] else t
  }

  function ParseInt(s: string): (r: Option<int>)
    ensures r.None? <==> !StartsWithNumber(TrimStart(s))
  {
    var t := TrimStart(s);
    var ds := LeadingDigits(Unsigned(t));
    if ds == [] then None
    else
      var magnitude: int := DigitsValue(ds);
      Some(if t[0] == '-' then -magnitude else magnitude)
  }

  /** The decimal numeral of `n`, without leading zeros. */
  function NatToDecimal(n: nat): (r: string)
    ensures r != [] && AllDigits(r)
    ensures r[0] != '0' || n == 0
  {
    if n < 10 then [DigitChar(n)] else NatToDecimal(n / 10) + [DigitChar(n % 10)]
  }

  /** `String(z)` for an integer. */
  function IntToDecimal(z: int): (r: string)
    ensures r != []
  {
    if z < 0 then ['-'] + NatToDecimal(-z) else NatToDecimal(z)
  }

  lemma {:induction false} NatToDecimalValue(n: nat)
    ensures DigitsValue(NatToDecimal(n)) == n
  {
    if n >= 10 {
      NatToDecimalValue(n / 10);
      var r := NatToDecimal(n);
      assert r[..|r| - 1] == NatToDecimal(n / 10);
    }
  }

  /** The digits of a numeral followed by a non-digit are exactly the numeral. */
  lemma {:induction false} LeadingDigitsOf(ds: string, rest: string)
    requires AllDigits(ds)
    requires rest == [] || !IsDigit(rest[0])
    ensures LeadingDigits(ds + rest) == ds
  {
    if ds != [] {
      assert (ds + rest)[1..] == ds[1..] + rest;
      LeadingDigitsOf(ds[1..], rest);
    } else {
      assert ds + rest == rest;
    }
  }

  /** Text without leading whitespace whose digits after the sign are `ds` parses to
      the value of `ds`, negated after a minus sign. */
  lemma ParseIntOfDigits(negative: bool, t: string, ds: string)
    requires t != [] && TrimStart(t) == t && (t[0] == '-' <==> negative)
    requires AllDigits(ds) && ds != [] && LeadingDigits(Unsigned(t)) == ds
    ensures var v: int := DigitsValue(ds);
      ParseInt(t) == Some(if negative then -v else v)
  {
  }

  /** A numeral, after a minus sign when `negative` holds, followed by text that does not
      start with a digit. */
  lemma SignedNumeral(negative: bool, ds: string, rest: string, t: string)
    requires AllDigits(ds) && ds != []
    requires rest == [] || !IsDigit(rest[0])
    requires t == (if negative then "-" else "") + ds + rest
    ensures t != [] && TrimStart(t) == t && (t[0] == '-' <==> negative)
    ensures LeadingDigits(Unsigned(t)) == ds
  {
    assert t[0] == '-' || t[0] == ds[0];
    if negative {
      assert t[1..] == ds + rest;
    } else {
      assert t == ds + rest;
    }
    LeadingDigitsOf(ds, rest);
  }

  /** `parseInt` reads back any integer written in decimal, also when other text that
      does not start with a digit follows it (`parseInt("12abc") == 12`). */
  lemma ParseIntOfDecimal(z: int, rest: string)
    requires rest == [] || !IsDigit(rest[0])
    ensures ParseInt(IntToDecimal(z) + rest) == Some(z)
  {
    var m: nat := if z < 0 then -z else z;
    var ds := NatToDecimal(m);
    NatToDecimalValue(m);
    var t := IntToDecimal(z) + rest;
    assert t == (if z < 0 then "-" else "") + ds + rest;
    SignedNumeral(z < 0, ds, rest, t);
    ParseIntOfDigits(z < 0, t, ds);
  }
}
