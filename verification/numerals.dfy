/**
 * Decimal and hexadecimal numerals: JavaScript's `parseInt` (whose result
 * `NaN` is `None`), `String(n)` for naturals, and `padStart(2, '0')`.
 */
module Numerals {
  import opened Wrappers
  import Strings

  /** The value of `c` as a digit in base 10 or 16, or -1 when it is not one. */
  function DigitValue(c: char, radix: nat): int {
    if '0' <= c <= '9' then c as int - '0' as int
    else if radix == 16 && 'a' <= c <= 'f' then c as int - 'a' as int + 10
    else if radix == 16 && 'A' <= c <= 'F' then c as int - 'A' as int + 10
    else -1
  }

  predicate IsDigitIn(c: char, radix: nat) {
    DigitValue(c, radix) >= 0
  }

  predicate AllDigitsIn(s: string, radix: nat) {
    forall i :: 0 <= i < |s| ==> IsDigitIn(s[i], radix)
  }

  /** The number written by a run of digits, most significant first (base 16, or else base 10). */
  function RadixValue(s: string, radix: nat): (v: nat)
    requires AllDigitsIn(s, radix)
  {
    if s == [] then 0
    else
      var high := RadixValue(s[..|s| - 1], radix);
      (if radix == 16 then high * 16 else high * 10) + DigitValue(s[|s| - 1], radix)
  }

  /** The length of the longest prefix of `s` made of digits. */
  function DigitRun(s: string, radix: nat): (n: nat)
    ensures n <= |s| && AllDigitsIn(s[..n], radix)
    ensures n < |s| ==> !IsDigitIn(s[n], radix)
  {
    if s == [] || !IsDigitIn(s[0], radix) then 0
    else
      var n := DigitRun(s[1..], radix);
      assert s[..n + 1] == [s[0]] + s[1..][..n];
      n + 1
  }

  /**
   * `parseInt(s)` with no radix: skip leading white space, take one sign,
   * read hexadecimal after a `0x`/`0X` prefix and decimal otherwise, and stop
   * at the first non-digit; no digit at all gives `NaN` (`None`).
   */
  function ParseInt(s: string): Option<int> {
    ParseSigned(Strings.TrimStart(s))
  }

  /** `parseInt` after the white space: an optional sign, then the magnitude. */
  function ParseSigned(t: string): Option<int> {
    if t != [] && t[0] == '-' then
      match ParseMagnitude(t[1..])
      case Some(m) => Some(-m)
      case None => None
    else if t != [] && t[0] == '+' then ParseMagnitude(t[1..])
    else ParseMagnitude(t)
  }

  /** The unsigned part of `parseInt`: a hexadecimal numeral after `0x`/`0X`, else a decimal one. */
  function ParseMagnitude(u: string): (r: Option<int>)
    ensures r.Some? ==> r.value >= 0
  {
    var hex := |u| >= 2 && u[0] == '0' && (u[1] == 'x' || u[1] == 'X');
    var radix := if hex then 16 else 10;
    var body := if hex then u[2..] else u;
    var n := DigitRun(body, radix);
    if n == 0 then None else Some(RadixValue(body[..n], radix))
  }

  /** `parseInt(s, 16)` on a string the caller has already checked to be hexadecimal digits. */
  function ParseHex(s: string): nat
    requires AllDigitsIn(s, 16)
  {
    RadixValue(s, 16)
  }

  /** The decimal digit for `d`. */
  function DigitChar(d: nat): char
    requires d < 10
  {
    ('0' as int + d) as char
  }

  /** `String(n)` for a natural number. */
  function NatToString(n: nat): (s: string)
    ensures |s| >= 1 && AllDigitsIn(s, 10)
    ensures s[0] == '0' ==> n == 0
  {
    if n < 10 then [DigitChar(n)]
    else NatToString(n / 10) + [DigitChar(n % 10)]
  }

  /** `String(n).padStart(2, '0')`. */
  function Pad2(n: nat): string {
    if n < 10 then ['0', DigitChar(n)] else NatToString(n)
  }

  /** Reading back the decimal numeral of `n` gives `n`. */
  lemma {:induction false} NatToStringValue(n: nat)
    ensures RadixValue(NatToString(n), 10) == n
  {
    if n >= 10 {
      NatToStringValue(n / 10);
      var s := NatToString(n);
      assert s[..|s| - 1] == NatToString(n / 10);
    }
  }

  /** Different naturals have different numerals. */
  lemma NatToStringInjective(m: nat, n: nat)
    ensures NatToString(m) == NatToString(n) ==> m == n
  {
    NatToStringValue(m);
    NatToStringValue(n);
  }

  /** `parseInt` reads an unsigned decimal numeral as its value. */
  lemma ParseIntDecimal(s: string)
    requires |s| >= 1 && AllDigitsIn(s, 10)
    ensures ParseInt(s) == Some(RadixValue(s, 10))
  {
    UnsignedStart(s);
    MagnitudeDecimal(s);
  }

  lemma MagnitudeDecimal(s: string)
    requires |s| >= 1 && AllDigitsIn(s, 10)
    ensures ParseMagnitude(s) == Some(RadixValue(s, 10))
  {
    AllDigitsRun(s, 10);
    assert s[..|s|] == s;
  }

  /** The value of a digit string with one more digit on the right. */
  lemma RadixValueLast(s: string)
    requires s != [] && AllDigitsIn(s, 10)
    ensures RadixValue(s, 10) == RadixValue(s[..|s| - 1], 10) * 10 + DigitValue(s[|s| - 1], 10)
  {
  }

  lemma RadixValueTwo(s: string)
    requires |s| == 2 && AllDigitsIn(s, 10)
    ensures RadixValue(s, 10) == DigitValue(s[0], 10) * 10 + DigitValue(s[1], 10)
  {
    RadixValueLast(s);
    RadixValueLast(s[..1]);
    assert s[..1][..0] == [] && s[..1][0] == s[0];
  }

  lemma {:induction false} AllDigitsRun(s: string, radix: nat)
    requires AllDigitsIn(s, radix)
    ensures DigitRun(s, radix) == |s|
  {
    if s != [] {
      AllDigitsRun(s[1..], radix);
    }
  }

  /** `parseInt(String(n)) === n`. */
  lemma ParseIntNatToString(n: nat)
    ensures ParseInt(NatToString(n)) == Some(n)
  {
    ParseIntDecimal(NatToString(n));
    NatToStringValue(n);
  }

  /** A run of digits followed by a non-digit is read up to the non-digit. */
  lemma {:induction false} DigitRunPrefix(d: string, t: string, radix: nat)
    requires AllDigitsIn(d, radix)
    requires t == [] || !IsDigitIn(t[0], radix)
    ensures DigitRun(d + t, radix) == |d|
  {
    if d != [] {
      assert (d + t)[1..] == d[1..] + t;
      DigitRunPrefix(d[1..], t, radix);
    } else {
      assert d + t == t;
    }
  }

  /**
   * `parseInt` stops at the first character that is not a digit: a numeral
   * followed by text that neither continues it nor turns it into a `0x`
   * prefix reads back as the number.
   */
  lemma ParseIntNatPrefix(n: nat, t: string)
    requires t == [] || (!IsDigitIn(t[0], 10) && t[0] != 'x' && t[0] != 'X')
    ensures ParseInt(NatToString(n) + t) == Some(n)
  {
    UnsignedStart(NatToString(n) + t);
    MagnitudeNatPrefix(n, t);
  }

  /** Text that starts with a digit is read by `parseInt` without white space or sign. */
  lemma UnsignedStart(s: string)
    requires s != [] && IsDigitIn(s[0], 10)
    ensures ParseInt(s) == ParseMagnitude(s)
  {
    assert !Strings.IsJsSpace(s[0]);
    assert Strings.TrimStart(s) == s;
  }

  lemma MagnitudeNatPrefix(n: nat, t: string)
    requires t == [] || (!IsDigitIn(t[0], 10) && t[0] != 'x' && t[0] != 'X')
    ensures ParseMagnitude(NatToString(n) + t) == Some(n)
  {
    var d := NatToString(n);
    var s := d + t;
    assert !(|s| >= 2 && s[0] == '0' && (s[1] == 'x' || s[1] == 'X')) by {
      if |s| >= 2 && s[0] == '0' {
        assert n == 0 && |d| == 1;
        assert s[1] == t[0];
      }
    }
    DigitRunPrefix(d, t, 10);
    assert s[..|d|] == d;
    NatToStringValue(n);
  }

  /** A two-digit padded number is exactly two characters and reads back as itself. */
  lemma Pad2RoundTrip(n: nat)
    requires n < 100
    ensures |Pad2(n)| == 2
    ensures ParseInt(Pad2(n)) == Some(n)
  {
    if n < 10 {
      Pad2Small(n);
    } else {
      NatToStringTwoDigits(n);
      ParseIntNatToString(n);
    }
  }

  lemma Pad2Small(n: nat)
    requires n < 10
    ensures ParseInt(['0', DigitChar(n)]) == Some(n)
  {
    var s := ['0', DigitChar(n)];
    assert IsDigitIn(s[0], 10) && IsDigitIn(s[1], 10);
    RadixValueTwo(s);
    assert RadixValue(s, 10) == n;
    ParseIntDecimal(s);
  }

  lemma NatToStringTwoDigits(n: nat)
    requires 10 <= n < 100
    ensures NatToString(n) == [DigitChar(n / 10), DigitChar(n % 10)]
  {
  }

  /** `Pad2` never yields fewer than two characters. */
  lemma Pad2Width(n: nat)
    ensures |Pad2(n)| >= 2
  {
    if n >= 10 {
      assert NatToString(n) == NatToString(n / 10) + [DigitChar(n % 10)];
    }
  }
}
