/**
 * The JavaScript integer conversions the handlers and validators rely on:
 * `parseInt(s, 10)` (a partial parse where `None` stands for NaN), `String(n)` for an
 * integer, `x || d` on a parsed number, and the integer syntax of validator.js' `isInt`.
 */
module JsInt {
  import opened Wrappers

  predicate IsDigit(c: char)
  {
    '0' <= c <= '9'
  }

  function DigitValue(c: char): nat
    requires IsDigit(c)
  {
    c as int - '0' as int
  }

  function DigitChar(d: nat): (c: char)
    requires d < 10
    ensures IsDigit(c) && DigitValue(c) == d
  {
    ('0' as int + d) as char
  }

  predicate AllDigits(s: string)
  {
    forall i :: 0 <= i < |s| ==> IsDigit(s[i])
  }

  /** The white space `parseInt` skips first (the ASCII part of it). */
  predicate IsSpace(c: char)
  {
    c == ' ' || c == '\t' || c == '\n' || c == '\r' || c as int == 11 || c as int == 12
  }

  /** The value of a digit string read most significant digit first. */
  function DigitsValue(ds: string): nat
    requires AllDigits(ds)
  {
    if |ds| == 0 then 0 else 10 * DigitsValue(ds[..|ds| - 1]) + DigitValue(ds[|ds| - 1])
  }

  /** The length of the longest prefix of `s` made of digits. */
  function DigitRun(s: string): (n: nat)
    ensures n <= |s|
    ensures AllDigits(s[..n])
    ensures n < |s| ==> !IsDigit(s[n])
  {
    if |s| > 0 && IsDigit(s[0]) then
      var n := 1 + DigitRun(s[1..]);
      assert s[..n] == [s[0]] + s[1..][..n - 1];
      n
    else 0
  }

  /** `s` without its leading white space. */
  function SkipSpace(s: string): (r: string)
    ensures |r| <= |s| && r == s[|s| - |r|..]
    ensures |r| > 0 ==> !IsSpace(r[0])
    ensures forall i :: 0 <= i < |s| - |r| ==> IsSpace(s[i])
  {
    if |s| > 0 && IsSpace(s[0]) then SkipSpace(s[1..]) else s
  }

  /**
   * `parseInt(s, 10)`: white space, then an optional sign, then the longest run of digits;
   * whatever follows the digits is ignored, and no digit at all gives NaN (`None`).
   */
  function ParseInt(s: string): (r: Option<int>)
    ensures r.Some? ==> exists i :: 0 <= i < |s| && IsDigit(s[i])
    ensures |s| > 0 && AllDigits(s) ==> r == Some(DigitsValue(s))
  {
    assert |s| > 0 && AllDigits(s) ==> ParseDigits(s) == Some(DigitsValue(s)) by {
      if |s| > 0 && AllDigits(s) {
        assert s + "" == s;
        ParseDigitsOfDigits(s, "");
      }
    }
    var t := SkipSpace(s);
    var skipped := |s| - |t|;
    assert |t| > 0 && (t[0] == '-' || t[0] == '+') && ParseDigits(t[1..]).Some? ==> IsDigit(s[skipped + 1]);
    assert ParseDigits(t).Some? ==> IsDigit(s[skipped]);
    if |t| > 0 && t[0] == '-' then Signed(true, ParseDigits(t[1..]))
    else if |t| > 0 && t[0] == '+' then Signed(false, ParseDigits(t[1..]))
    else Signed(false, ParseDigits(t))
  }

  function Signed(negative: bool, d: Option<nat>): Option<int>
  {
    if d.None? then None else if negative then Some(-(d.value as int)) else Some(d.value as int)
  }

  /** The value of the longest run of digits at the start of `u`, if there is one. */
  function ParseDigits(u: string): Option<nat>
  {
    var n := DigitRun(u);
    if n == 0 then None else Some(DigitsValue(u[..n]))
  }

  /** Text that starts with no white space, sign or digit, and the empty text, parse to NaN. */
  lemma NotANumber(s: string)
    requires |s| == 0 || (!IsDigit(s[0]) && !IsSpace(s[0]) && s[0] != '-' && s[0] != '+')
    ensures ParseInt(s) == None
  {
    assert SkipSpace(s) == s;
  }

  /** `parseInt(v, 10)` on an optional query value: `parseInt(undefined)` is NaN. */
  function ParseParam(v: Option<string>): Option<int>
  {
    if v.None? then None else ParseInt(v.value)
  }

  /** `x || d` on a parsed number: NaN and 0 are falsy. */
  function OrDefault(x: Option<int>, d: int): int
  {
    if x.Some? && x.value != 0 then x.value else d
  }

  /** `x || undefined` on a parsed number. */
  function OrUndefined(x: Option<int>): Option<int>
  {
    if x.Some? && x.value != 0 then x else None
  }

  /** The decimal digits of a natural number, as `String(n)` prints them. */
  function Digits(n: nat): (r: string)
    ensures |r| >= 1 && AllDigits(r)
    ensures DigitsValue(r) == n
    ensures r[0] == '0' ==> n == 0
  {
    if n < 10 then [DigitChar(n)]
    else
      var r := Digits(n / 10) + [DigitChar(n % 10)];
      assert r[..|r| - 1] == Digits(n / 10);
      r
  }

  /** `String(n)` for an integer. */
  function Decimal(n: int): (r: string)
    ensures |r| >= 1
  {
    if n < 0 then "-" + Digits(-n) else Digits(n)
  }

  /** The digit run of a digit string followed by a non-digit (or nothing) is that string. */
  lemma {:induction false} DigitRunOfDigits(ds: string, rest: string)
    requires AllDigits(ds)
    requires |rest| == 0 || !IsDigit(rest[0])
    ensures DigitRun(ds + rest) == |ds|
    ensures (ds + rest)[..|ds|] == ds
  {
    if |ds| > 0 {
      assert (ds + rest)[1..] == ds[1..] + rest;
      DigitRunOfDigits(ds[1..], rest);
    }
  }

  /** `parseInt(String(n) + rest)` is `n` when `rest` does not continue the digits. */
  lemma ParseIntOfDecimal(n: int, rest: string)
    requires |rest| == 0 || !IsDigit(rest[0])
    ensures ParseInt(Decimal(n) + rest) == Some(n)
  {
    if n < 0 {
      var ds := Digits(-n);
      assert Decimal(n) == ['-'] + ds;
      var s := ds + rest;
      assert Decimal(n) + rest == ['-'] + s;
      ParseIntAfterSign(s);
      ParseDigitsOfDigits(ds, rest);
    } else {
      var ds := Digits(n);
      ParseIntOfUnsigned(ds + rest);
      ParseDigitsOfDigits(ds, rest);
    }
  }

  lemma ParseIntOfUnsigned(s: string)
    requires |s| > 0 && IsDigit(s[0])
    ensures ParseInt(s) == Signed(false, ParseDigits(s))
  {
    assert SkipSpace(s) == s;
  }

  lemma ParseIntAfterSign(s: string)
    ensures ParseInt(['-'] + s) == Signed(true, ParseDigits(s))
  {
    var t := ['-'] + s;
    assert SkipSpace(t) == t;
    assert t[1..] == s;
  }

  lemma ParseDigitsOfDigits(ds: string, rest: string)
    requires |ds| >= 1 && AllDigits(ds)
    requires |rest| == 0 || !IsDigit(rest[0])
    ensures ParseDigits(ds + rest) == Some(DigitsValue(ds))
  {
    DigitRunOfDigits(ds, rest);
  }

  /** `parseInt(String(n))` is `n`. */
  lemma ParseIntRoundTrip(n: int)
    ensures ParseInt(Decimal(n)) == Some(n)
  {
    assert Decimal(n) + "" == Decimal(n);
    ParseIntOfDecimal(n, "");
  }

  /**
   * The syntax validator.js' `isInt` accepts (leading zeroes allowed): an optional sign
   * and at least one digit, nothing else; and the number it denotes.
   */
  function IntText(s: string): (r: Option<int>)
    ensures r.Some? ==> ParseInt(s) == r
  {
    var signed := |s| > 0 && (s[0] == '-' || s[0] == '+');
    var u := if signed then s[1..] else s;
    if |u| == 0 || !AllDigits(u) then None
    else
      ParseDigitsOfDigits(u, "");
      assert u + "" == u;
      assert |s| > 0 && !IsSpace(s[0]);
      if signed && s[0] == '-' then Some(-(DigitsValue(u) as int)) else Some(DigitsValue(u))
  }

  /** `isInt` accepts `String(n)` and reads back `n`. */
  lemma IntTextRoundTrip(n: int)
    ensures IntText(Decimal(n)) == Some(n)
  {
    if n < 0 {
      assert Decimal(n)[1..] == Digits(-n);
    }
  }
}
