/**
 * Decimal and hexadecimal text of integers, as produced by the `%d` and `%p`
 * conversions of `snprintf`, together with the parsing that undoes them.
 */
module Numerals {

  predicate ValidBase(base: nat)
  {
    2 <= base <= 16
  }

  /** The lower-case digit character for `d`. */
  function DigitChar(d: nat): (c: char)
    requires d < 16
  {
    if d < 10 then ('0' as int + d) as char else ('a' as int + d - 10) as char
  }

  predicate IsDigitChar(c: char, base: nat)
    requires ValidBase(base)
  {
    exists d :: 0 <= d < base && DigitChar(d) == c
  }

  /** The value of a digit character; every other character reads as 0. */
  function DigitValue(c: char): (d: nat)
    ensures d < 16
  {
    if '0' <= c <= '9' then c as int - '0' as int
    else if 'a' <= c <= 'f' then c as int - 'a' as int + 10
    else 0
  }

  lemma DigitRoundTrip(d: nat)
    requires d < 16
    ensures DigitValue(DigitChar(d)) == d
    ensures DigitChar(d) != ':' && DigitChar(d) != '-' && DigitChar(d) != '\0'
  {
  }

  /** Digits of `n` in `base`, most significant first, without leading zeros. */
  function NatText(n: nat, base: nat): (s: string)
    requires ValidBase(base)
    decreases n
  {
    if n < base then [DigitChar(n)] else NatText(n / base, base) + [DigitChar(n % base)]
  }

  /** Reads a whole string of digits back into a number. */
  function ParseNat(s: string, base: nat): nat
    requires ValidBase(base)
  {
    if |s| == 0 then 0 else ParseNat(s[..|s| - 1], base) * base + DigitValue(s[|s| - 1])
  }

  /** Every character of a numeral is a digit of its base. */
  lemma {:induction false} NatTextDigits(n: nat, base: nat)
    requires ValidBase(base)
    ensures |NatText(n, base)| > 0
    ensures forall i :: 0 <= i < |NatText(n, base)| ==> IsDigitChar(NatText(n, base)[i], base)
    decreases n
  {
    if n < base {
      DigitCharIsDigit(n, base);
      assert NatText(n, base) == [DigitChar(n)];
    } else {
      DivisionShrinks(n, base);
      var t := NatText(n / base, base);
      NatTextDigits(n / base, base);
      DigitCharIsDigit(n % base, base);
      assert NatText(n, base) == t + [DigitChar(n % base)];
      DigitsAppend(t, DigitChar(n % base), base);
    }
  }

  lemma DigitCharIsDigit(d: nat, base: nat)
    requires ValidBase(base) && d < base
    ensures IsDigitChar(DigitChar(d), base)
  {
  }

  lemma DigitsAppend(t: string, c: char, base: nat)
    requires ValidBase(base) && IsDigitChar(c, base)
    requires forall i :: 0 <= i < |t| ==> IsDigitChar(t[i], base)
    ensures forall i :: 0 <= i < |t + [c]| ==> IsDigitChar((t + [c])[i], base)
  {
    forall i | 0 <= i < |t + [c]|
      ensures IsDigitChar((t + [c])[i], base)
    {
      if i < |t| {
        assert (t + [c])[i] == t[i];
      } else {
        assert (t + [c])[i] == c;
      }
    }
  }

  /** A digit character is neither ':', '-' nor NUL. */
  lemma DigitCharIsPlain(c: char, base: nat)
    requires ValidBase(base) && IsDigitChar(c, base)
    ensures c != ':' && c != '-' && c != '\0'
  {
    var d :| 0 <= d < base && DigitChar(d) == c;
    DigitRoundTrip(d);
  }

  /** Appending one digit multiplies the value read so far by the base and adds the digit. */
  lemma ParseNatSnoc(front: string, c: char, base: nat)
    requires ValidBase(base)
    ensures ParseNat(front + [c], base) == ParseNat(front, base) * base + DigitValue(c)
  {
    assert (front + [c])[..|front|] == front;
  }

  /** Parsing the text of `n` gives back `n`. */
  lemma {:induction false} NatTextRoundTrip(n: nat, base: nat)
    requires ValidBase(base)
    ensures ParseNat(NatText(n, base), base) == n
    decreases n
  {
    if n < base {
      DigitRoundTrip(n);
      ParseNatSnoc([], DigitChar(n), base);
      assert [] + [DigitChar(n)] == NatText(n, base);
    } else {
      var q, r := n / base, n % base;
      DivisionShrinks(n, base);
      var front := NatText(q, base);
      NatTextRoundTrip(q, base);
      DigitRoundTrip(r);
      ParseNatSnoc(front, DigitChar(r), base);
      assert NatText(n, base) == front + [DigitChar(r)];
      assert ParseNat(front + [DigitChar(r)], base) == q * base + r;
    }
  }

  lemma DivisionShrinks(n: nat, base: nat)
    requires ValidBase(base) && n >= base
    ensures 0 < n / base < n
    ensures n == (n / base) * base + n % base
  {
  }

  function Pow(b: nat, k: nat): (p: nat)
    ensures b > 0 ==> p > 0
  {
    if k == 0 then 1 else b * Pow(b, k - 1)
  }

  /** 16^16 is 2^64, so a 64-bit address has at most 16 hexadecimal digits. */
  lemma PowSixteen()
    ensures Pow(16, 16) == 0x1_0000_0000_0000_0000
  {
    assert Pow(16, 1) == 16;
    assert Pow(16, 2) == 256;
    assert Pow(16, 3) == 4096;
    assert Pow(16, 4) == 65536;
    assert Pow(16, 5) == 1048576;
    assert Pow(16, 6) == 16777216;
    assert Pow(16, 7) == 268435456;
    assert Pow(16, 8) == 4294967296;
    assert Pow(16, 9) == 68719476736;
    assert Pow(16, 10) == 1099511627776;
    assert Pow(16, 11) == 17592186044416;
    assert Pow(16, 12) == 281474976710656;
    assert Pow(16, 13) == 4503599627370496;
    assert Pow(16, 14) == 72057594037927936;
    assert Pow(16, 15) == 1152921504606846976;
    assert Pow(16, 16) == 18446744073709551616;
  }

  /** A number below `base^k` takes at most `k` digits. */
  lemma {:induction false} NatTextLength(n: nat, base: nat, k: nat)
    requires ValidBase(base) && k >= 1 && n < Pow(base, k)
    ensures |NatText(n, base)| <= k
    decreases k
  {
    if n >= base {
      DivisionShrinks(n, base);
      QuotientBound(n, base, Pow(base, k - 1));
      NatTextLength(n / base, base, k - 1);
    }
  }

  lemma QuotientBound(n: nat, b: nat, p: nat)
    requires b > 0 && n < b * p
    ensures n / b < p
  {
    var q := n / b;
    assert q * b <= n;
  }

  /** Distinct numbers have distinct texts. */
  lemma NatTextInjective(n: nat, m: nat, base: nat)
    requires ValidBase(base)
    requires NatText(n, base) == NatText(m, base)
    ensures n == m
  {
    NatTextRoundTrip(n, base);
    NatTextRoundTrip(m, base);
  }

  /** The text `%d` prints for a C int: a '-' for negatives, then the decimal digits. */
  function Decimal(n: int): (s: string)
    ensures |s| > 0
    ensures forall i :: 0 <= i < |s| ==> s[i] != ':' && s[i] != '\0'
  {
    NatTextDigits(if n < 0 then -n else n, 10);
    var digits := NatText(if n < 0 then -n else n, 10);
    forall i | 0 <= i < |digits|
      ensures digits[i] != ':' && digits[i] != '\0' && digits[i] != '-'
    {
      DigitCharIsPlain(digits[i], 10);
    }
    if n < 0 then "-" + digits else digits
  }

  /** `Decimal` is one-to-one, so a number can be recovered from its text. */
  lemma DecimalInjective(n: int, m: int)
    requires Decimal(n) == Decimal(m)
    ensures n == m
  {
    var a := NatText(if n < 0 then -n else n, 10);
    var b := NatText(if m < 0 then -m else m, 10);
    NatTextDigits(if n < 0 then -n else n, 10);
    NatTextDigits(if m < 0 then -m else m, 10);
    DigitCharIsPlain(a[0], 10);
    DigitCharIsPlain(b[0], 10);
    assert Decimal(n)[0] == '-' <==> n < 0;
    assert Decimal(m)[0] == '-' <==> m < 0;
    if n < 0 && m < 0 {
      assert a == Decimal(n)[1..] == Decimal(m)[1..] == b;
      NatTextInjective(-n, -m, 10);
    } else if n >= 0 && m >= 0 {
      NatTextInjective(n, m, 10);
    }
  }

  /**
   * The text `%p` prints for a pointer (glibc convention): "(nil)" for NULL,
   * otherwise "0x" followed by lower-case hexadecimal digits.
   */
  function PointerText(addr: nat): (s: string)
    ensures |s| > 0
  {
    if addr == 0 then "(nil)" else "0x" + NatText(addr, 16)
  }

  /** Distinct addresses print differently. */
  lemma PointerTextInjective(a: nat, b: nat)
    requires PointerText(a) == PointerText(b)
    ensures a == b
  {
    assert PointerText(a)[0] == '(' <==> a == 0;
    assert PointerText(b)[0] == '(' <==> b == 0;
    if a != 0 && b != 0 {
      assert NatText(a, 16) == PointerText(a)[2..] == PointerText(b)[2..] == NatText(b, 16);
      NatTextInjective(a, b, 16);
    }
  }
}
