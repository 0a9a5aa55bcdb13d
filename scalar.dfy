/** The scalar conversions the formatter leans on: C strings, atoi on
    import, the decimal rendering of integer nodes on export, and the
    narrowing of a 64-bit value passed where mxml takes an int. */
module Scalar {

  /** The length strlen reports: the bytes before the first NUL. */
  function CStrLen(s: string): (n: nat)
    ensures n <= |s|
    ensures forall i :: 0 <= i < n ==> s[i] != '\0'
    ensures n < |s| ==> s[n] == '\0'
  {
    if s == [] || s[0] == '\0' then 0 else 1 + CStrLen(s[1..])
  }

  /** White space as isspace sees it in the "C" locale. */
  predicate IsSpace(c: char)
  {
    c == ' ' || c == '\t' || c == '\n' || c == '\U{0B}' || c == '\U{0C}' || c == '\r'
  }

  predicate IsDigit(c: char)
  {
    '0' <= c <= '9'
  }

  predicate AllDigits(s: string)
  {
    forall i :: 0 <= i < |s| ==> IsDigit(s[i])
  }

  /** The number of leading decimal digits of s. */
  function DigitRun(s: string): (k: nat)
    ensures k <= |s|
    ensures AllDigits(s[..k])
    ensures k < |s| ==> !IsDigit(s[k])
  {
    if s != [] && IsDigit(s[0]) then
      var k := 1 + DigitRun(s[1..]);
      assert s[..k] == [s[0]] + s[1..][..k - 1];
      k
    else 0
  }

  /** The value of a string of decimal digits, most significant first. */
  function DigitsValue(ds: string): nat
    requires AllDigits(ds)
  {
    if ds == [] then 0
    else 10 * DigitsValue(ds[..|ds| - 1]) + (ds[|ds| - 1] as int - '0' as int)
  }

  /** s without its leading white space. */
  function SkipSpaces(s: string): (t: string)
    ensures |t| <= |s| && t == s[|s| - |t|..]
    ensures t == [] || !IsSpace(t[0])
  {
    if s != [] && IsSpace(s[0]) then SkipSpaces(s[1..]) else s
  }

  /** atoi as section 7.22.1.2 of the C11 standard describes it (strtol in
      base 10): leading white space, an optional sign, then as many decimal
      digits as follow; 0 when no digit follows. Overflow is not modelled. */
  function Atoi(s: string): int
  {
    SignedDigits(SkipSpaces(s))
  }

  /** The optional sign and the digits that follow it. */
  function SignedDigits(t: string): int
  {
    var signed := t != [] && (t[0] == '-' || t[0] == '+');
    var u := if signed then t[1..] else t;
    var m: int := DigitsValue(u[..DigitRun(u)]);
    if signed && t[0] == '-' then -m else m
  }

  function Digit(d: nat): (c: char)
    requires d < 10
    ensures IsDigit(c) && c as int - '0' as int == d
  {
    ('0' as int + d) as char
  }

  /** The digits of n without leading zeros ("0" for zero). */
  function NatString(n: nat): (s: string)
    ensures s != [] && AllDigits(s)
    ensures DigitsValue(s) == n
  {
    if n < 10 then [Digit(n)]
    else
      var s := NatString(n / 10) + [Digit(n % 10)];
      assert s[..|s| - 1] == NatString(n / 10);
      s
  }

  /** How printf's "%d" renders n: a minus sign for negative values, then
      the digits of its magnitude. */
  function DecimalString(n: int): string
  {
    if n < 0 then "-" + NatString(-n) else NatString(n)
  }

  lemma {:induction false} DigitRunOfDigits(a: string, rest: string)
    requires AllDigits(a)
    requires rest == [] || !IsDigit(rest[0])
    ensures DigitRun(a + rest) == |a|
    decreases |a|
  {
    if a != [] {
      assert (a + rest)[1..] == a[1..] + rest;
      DigitRunOfDigits(a[1..], rest);
    }
  }

  /** atoi reads back what "%d" wrote, and stops at the first byte that is
      not a digit. */
  lemma AtoiDecimal(n: int, rest: string)
    requires rest == [] || !IsDigit(rest[0])
    ensures Atoi(DecimalString(n) + rest) == n
  {
    if n < 0 {
      AtoiNegative(NatString(-n), rest);
    } else {
      AtoiUnsigned(NatString(n), rest);
    }
  }

  /** atoi reads back a whole "%d" rendering. */
  lemma AtoiDecimalAlone(n: int)
    ensures Atoi(DecimalString(n)) == n
  {
    AtoiDecimal(n, []);
    assert DecimalString(n) + [] == DecimalString(n);
  }

  /** A run of digits followed by a byte that is not one reads as the
      run's value. */
  lemma AtoiUnsigned(ds: string, rest: string)
    requires ds != [] && AllDigits(ds)
    requires rest == [] || !IsDigit(rest[0])
    ensures Atoi(ds + rest) == DigitsValue(ds)
  {
    var s := ds + rest;
    assert s[0] == ds[0];
    NoLeadingSpace(s);
    UnsignedDigits(s);
    DigitsThenRest(ds, rest);
  }

  /** After a minus sign, the same run reads as its negation. */
  lemma AtoiNegative(ds: string, rest: string)
    requires ds != [] && AllDigits(ds)
    requires rest == [] || !IsDigit(rest[0])
    ensures Atoi("-" + ds + rest) == -(DigitsValue(ds) as int)
  {
    var s := "-" + ds + rest;
    var u := ds + rest;
    assert s[0] == '-' && s[1..] == u;
    NoLeadingSpace(s);
    DigitsThenRest(ds, rest);
  }

  lemma NoLeadingSpace(s: string)
    requires s != [] && !IsSpace(s[0])
    ensures SkipSpaces(s) == s
  {
  }

  lemma UnsignedDigits(s: string)
    requires s != [] && IsDigit(s[0])
    ensures SignedDigits(s) == DigitsValue(s[..DigitRun(s)])
  {
  }

  lemma DigitsThenRest(ds: string, rest: string)
    requires ds != [] && AllDigits(ds)
    requires rest == [] || !IsDigit(rest[0])
    ensures var u := ds + rest; DigitsValue(u[..DigitRun(u)]) == DigitsValue(ds)
  {
    var u := ds + rest;
    DigitRunOfDigits(ds, rest);
    assert u[..|ds|] == ds;
  }

  /** Leading white space does not change what atoi reads. */
  lemma {:induction false} AtoiSkipsSpaces(w: string, s: string)
    requires forall i :: 0 <= i < |w| ==> IsSpace(w[i])
    ensures Atoi(w + s) == Atoi(s)
  {
    SkipSpacesPrefix(w, s);
  }

  lemma {:induction false} SkipSpacesPrefix(w: string, s: string)
    requires forall i :: 0 <= i < |w| ==> IsSpace(w[i])
    ensures SkipSpaces(w + s) == SkipSpaces(s)
    decreases |w|
  {
    if w == [] {
      assert w + s == s;
    } else {
      assert (w + s)[0] == w[0] && (w + s)[1..] == w[1..] + s;
      SkipSpacesPrefix(w[1..], s);
    }
  }

  /** The leniency the formatter relies on: text with no digit after the
      white space and the sign reads as 0 instead of failing. */
  lemma AtoiWithoutDigits(s: string, junk: string)
    requires junk == [] || !(IsSpace(junk[0]) || IsDigit(junk[0]) || junk[0] == '-' || junk[0] == '+')
    requires forall i :: 0 <= i < |s| ==> IsSpace(s[i])
    ensures Atoi(s + junk) == 0
  {
    AtoiSkipsSpaces(s, junk);
  }

  /** The value an int parameter receives from a 64-bit argument on a
      two's-complement platform: the value modulo 2^32, in the int range. */
  function Int32Wrap(v: int): (r: int)
    ensures -0x8000_0000 <= r < 0x8000_0000
    ensures (v - r) % 0x1_0000_0000 == 0
    ensures -0x8000_0000 <= v < 0x8000_0000 ==> r == v
  {
    (v + 0x8000_0000) % 0x1_0000_0000 - 0x8000_0000
  }
}
