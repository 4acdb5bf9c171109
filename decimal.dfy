/** Decimal text for integers: Python's `str(n)` and the base-10 form of
    `int(s)`, as used by register names, firmware versions, time-slot
    representations and register-cache keys. */
module Decimal {
  import opened Wrappers

  predicate IsDigit(c: char) { '0' <= c <= '9' }

  function DigitValue(c: char): nat
    requires IsDigit(c)
  {
    c as int - '0' as int
  }

  function DigitChar(d: nat): (c: char)
    requires d < 10
    ensures IsDigit(c) && DigitValue(c) == d
  {
    ('0' as int + d) as char
  }

  predicate AllDigits(s: string) {
    forall i :: 0 <= i < |s| ==> IsDigit(s[i])
  }

  function Pow10(k: nat): (p: nat)
    ensures p >= 1
  {
    if k == 0 then 1 else 10 * Pow10(k - 1)
  }

  /** The number a string of decimal digits denotes, most significant digit
      first; leading zeros are allowed and the empty string denotes 0. */
  function Value(s: string): nat
    requires AllDigits(s)
  {
    if s == [] then 0 else 10 * Value(s[..|s| - 1]) + DigitValue(s[|s| - 1])
  }

  /** `str(n)` for a non-negative `n`: no sign, no leading zeros. */
  function NatToString(n: nat): (s: string)
    ensures 1 <= |s| && AllDigits(s)
  {
    if n < 10 then [DigitChar(n)] else NatToString(n / 10) + [DigitChar(n % 10)]
  }

  /** `str(n)`, also written `%d` and `{n}` in Python format strings. */
  function IntToString(n: int): string {
    if n < 0 then "-" + NatToString(-n) else NatToString(n)
  }

  /** Zero padding of a digit string to at least `width` characters (the
      `0` flag of a `%0Nd` / `{:0Nd}` format). */
  function ZeroPad(s: string, width: nat): (r: string)
    ensures |r| == if |s| >= width then |s| else width
    ensures r[|r| - |s|..] == s
    ensures forall i :: 0 <= i < |r| - |s| ==> r[i] == '0'
  {
    if |s| >= width then s else seq(width - |s|, _ => '0') + s
  }

  /** `%0<width>d` (also `{n:0<width>d}`): zero padding to at least `width`
      characters, a minus sign counting as one of them. */
  function PadInt(n: int, width: nat): string {
    if n >= 0 then ZeroPad(NatToString(n), width)
    else "-" + ZeroPad(NatToString(-n), if width > 0 then width - 1 else 0)
  }

  /** Characters that Python's `int()` ignores around a number: the ASCII
      white space (space and tab to carriage return) and the non-ASCII
      characters for which `str.isspace` holds. The ASCII separators 0x1C
      to 0x1F satisfy `str.isspace` but are not skipped by `int()`. */
  predicate IsSpace(c: char) {
    var n := c as int;
    n == 0x20 || (0x09 <= n <= 0x0D) || n == 0x85 || n == 0xA0 ||
    n == 0x1680 || (0x2000 <= n <= 0x200A) || n == 0x2028 || n == 0x2029 || n == 0x202F ||
    n == 0x205F || n == 0x3000
  }

  /** `int("\x1c5")` raises ValueError, while `int(" 5")` and
      `int("\u30005")` give 5. */
  lemma ParseIntSeparators()
    ensures ParseInt("\U{1C}5") == None
    ensures ParseInt(" 5") == Some(5)
    ensures ParseInt("\U{3000}5") == Some(5)
  {
  }

  function StripLeft(s: string): (r: string)
    ensures |r| <= |s|
  {
    if |s| > 0 && IsSpace(s[0]) then StripLeft(s[1..]) else s
  }

  function StripRight(s: string): (r: string)
    ensures |r| <= |s|
  {
    if |s| > 0 && IsSpace(s[|s| - 1]) then StripRight(s[..|s| - 1]) else s
  }

  /** Python's `int(s)` in base 10: optional surrounding white space, an
      optional sign and at least one ASCII digit; `None` stands
      for the `ValueError` it raises otherwise. */
  function ParseInt(s: string): (r: Option<int>)
    ensures r.Some? ==> exists i :: 0 <= i < |s| && IsDigit(s[i])
  {
    var t := StripRight(StripLeft(s));
    assert forall i :: 0 <= i < |t| ==> t[i] in s by { StripIsInfix(s); }
    var r := ParseSigned(t);
    assert r.Some? ==> t[|t| - 1] in s;
    r
  }

  /** The stripped text `int()` reads: an optional sign, then digits. */
  function ParseSigned(t: string): (r: Option<int>)
    ensures r.Some? ==> |t| > 0 && IsDigit(t[|t| - 1])
  {
    if |t| > 0 && (t[0] == '-' || t[0] == '+') then
      if |t| > 1 && AllDigits(t[1..]) then
        var v: int := Value(t[1..]);
        Some(if t[0] == '-' then -v else v)
      else None
    else if |t| > 0 && AllDigits(t) then Some(Value(t))
    else None
  }

  lemma {:induction false} StripIsInfix(s: string)
    ensures forall i :: 0 <= i < |StripRight(StripLeft(s))| ==> StripRight(StripLeft(s))[i] in s
  {
    StripLeftIsSuffix(s);
    StripRightIsPrefix(StripLeft(s));
  }

  lemma {:induction false} StripLeftIsSuffix(s: string)
    ensures forall i :: 0 <= i < |StripLeft(s)| ==> StripLeft(s)[i] in s
  {
    if |s| > 0 && IsSpace(s[0]) {
      StripLeftIsSuffix(s[1..]);
      forall i | 0 <= i < |StripLeft(s)| ensures StripLeft(s)[i] in s {
        assert StripLeft(s)[i] in s[1..];
      }
    }
  }

  lemma {:induction false} StripRightIsPrefix(s: string)
    ensures forall i :: 0 <= i < |StripRight(s)| ==> StripRight(s)[i] in s
  {
    if |s| > 0 && IsSpace(s[|s| - 1]) {
      StripRightIsPrefix(s[..|s| - 1]);
      forall i | 0 <= i < |StripRight(s)| ensures StripRight(s)[i] in s {
        assert StripRight(s)[i] in s[..|s| - 1];
      }
    }
  }

  /** The digits of a concatenation: the left part is shifted by the width
      of the right part. */
  lemma {:induction false} ValueAppend(a: string, b: string)
    requires AllDigits(a) && AllDigits(b)
    ensures AllDigits(a + b)
    ensures Value(a + b) == Value(a) * Pow10(|b|) + Value(b)
    decreases |b|
  {
    if b == [] {
      assert a + b == a;
    } else {
      var b' := b[..|b| - 1];
      var ab := a + b;
      var last := DigitValue(b[|b| - 1]);
      assert ab[..|ab| - 1] == a + b' && ab[|ab| - 1] == b[|b| - 1];
      ValueAppend(a, b');
      assert Value(ab) == 10 * Value(a + b') + last;
      assert Value(b) == 10 * Value(b') + last;
      ShiftDigit(Value(a), Pow10(|b'|), Value(b'), last);
    }
  }

  /** One more digit on the right multiplies the left part's weight by 10. */
  lemma ShiftDigit(x: int, p: int, y: int, d: int)
    ensures 10 * (x * p + y) + d == x * (10 * p) + (10 * y + d)
  {
  }

  /** A string of k digits denotes a number below 10^k. */
  lemma {:induction false} ValueBound(s: string)
    requires AllDigits(s)
    ensures Value(s) < Pow10(|s|)
  {
    if s != [] {
      ValueBound(s[..|s| - 1]);
    }
  }

  /** Leading zeros do not change the value. */
  lemma {:induction false} ValueLeadingZeros(k: nat, s: string)
    requires AllDigits(s)
    ensures AllDigits(seq(k, _ => '0') + s)
    ensures Value(seq(k, _ => '0') + s) == Value(s)
  {
    var z: string := seq(k, _ => '0');
    ValueAppend(z, s);
    ZerosValue(k);
  }

  lemma {:induction false} ZerosValue(k: nat)
    ensures AllDigits(seq(k, _ => '0')) && Value(seq(k, _ => '0')) == 0
  {
    if k > 0 {
      assert seq(k, _ => '0')[..k - 1] == seq(k - 1, _ => '0');
      ZerosValue(k - 1);
    }
  }

  lemma ZeroPadValue(s: string, width: nat)
    requires AllDigits(s)
    ensures AllDigits(ZeroPad(s, width)) && Value(ZeroPad(s, width)) == Value(s)
  {
    if |s| < width {
      ValueLeadingZeros(width - |s|, s);
    }
  }

  /** `str(n)` denotes `n`. */
  lemma {:induction false} ValueOfNatToString(n: nat)
    ensures Value(NatToString(n)) == n
  {
    if n >= 10 {
      var s := NatToString(n);
      assert s[..|s| - 1] == NatToString(n / 10);
      ValueOfNatToString(n / 10);
    }
  }

  /** A string with no white space at either end is left alone by the
      stripping that `int()` does. */
  lemma StripNoSpace(s: string)
    requires |s| > 0 && !IsSpace(s[0]) && !IsSpace(s[|s| - 1])
    ensures StripRight(StripLeft(s)) == s
  {
  }

  /** Text without surrounding white space is read as it stands. */
  lemma ParseUnstripped(s: string)
    requires |s| > 0 && !IsSpace(s[0]) && !IsSpace(s[|s| - 1])
    ensures ParseInt(s) == ParseSigned(s)
  {
    StripNoSpace(s);
  }

  /** Reading a digit string (possibly zero-padded) back with `int()`. */
  lemma ParseDigits(s: string)
    requires |s| > 0 && AllDigits(s)
    ensures ParseInt(s) == Some(Value(s))
  {
    assert IsDigit(s[0]) && IsDigit(s[|s| - 1]);
    ParseUnstripped(s);
  }

  /** A minus sign before a digit string negates its value. */
  lemma ParseNegative(d: string)
    requires |d| > 0 && AllDigits(d)
    ensures ParseInt("-" + d) == Some(-(Value(d) as int))
  {
    var t := "-" + d;
    assert t[0] == '-' && t[1..] == d && t[|t| - 1] == d[|d| - 1];
    assert IsDigit(d[|d| - 1]);
    ParseUnstripped(t);
  }

  /** `int(str(n)) == n`: the decimal rendering can be read back. */
  lemma ParseIntToString(n: int)
    ensures ParseInt(IntToString(n)) == Some(n)
  {
    if n < 0 {
      ParseRenderedNegative(-n);
    } else {
      ParseRenderedNat(n);
    }
  }

  lemma ParseRenderedNat(n: nat)
    ensures ParseInt(NatToString(n)) == Some(n)
  {
    ValueOfNatToString(n);
    ParseDigits(NatToString(n));
  }

  lemma ParseRenderedNegative(n: nat)
    ensures ParseInt("-" + NatToString(n)) == Some(-(n as int))
  {
    ValueOfNatToString(n);
    ParseNegative(NatToString(n));
  }

  /** A rendering is made of digits and at most a minus sign. */
  lemma IntToStringChars(n: int)
    ensures forall i :: 0 <= i < |IntToString(n)| ==> IntToString(n)[i] == '-' || IsDigit(IntToString(n)[i])
  {
  }

  /** Different numbers have different renderings. */
  lemma IntToStringInjective(a: int, b: int)
    ensures IntToString(a) == IntToString(b) <==> a == b
  {
    if IntToString(a) == IntToString(b) {
      ParseIntToString(a);
      ParseIntToString(b);
    }
  }
}
