/** Decimal rendering and parsing of integers, as Python's `%d` and `{:02d}` produce them. */
module Text {

  predicate IsDigit(c: char) { '0' <= c <= '9' }

  predicate IsDigits(s: string) { forall i :: 0 <= i < |s| ==> IsDigit(s[i]) }

  function DigitChar(d: nat): (c: char)
    requires d < 10
    ensures IsDigit(c) && (c as int) - ('0' as int) == d
  {
    (('0' as int) + d) as char
  }

  function DigitValue(c: char): (d: nat)
    requires IsDigit(c)
    ensures d < 10
  {
    (c as int) - ('0' as int)
  }

  /** The decimal digits of `n`, most significant first, without leading zeros. */
  function NatToString(n: nat): (s: string)
    ensures |s| >= 1 && IsDigits(s)
    ensures |s| > 1 ==> s[0] != '0'
    ensures n < 10 <==> |s| == 1
  {
    if n < 10 then [DigitChar(n)] else NatToString(n / 10) + [DigitChar(n % 10)]
  }

  /** Python's `'%d' % i` for an integer `i`. */
  function IntToString(i: int): string
  {
    if i < 0 then "-" + NatToString(-i) else NatToString(i)
  }

  /** The value of a string of decimal digits. */
  function ParseNat(s: string): nat
    requires IsDigits(s)
  {
    if |s| == 0 then 0 else ParseNat(s[..|s| - 1]) * 10 + DigitValue(s[|s| - 1])
  }

  /** Parsing undoes rendering. */
  lemma {:induction false} ParseNatToString(n: nat)
    ensures ParseNat(NatToString(n)) == n
  {
    var s := NatToString(n);
    if n >= 10 {
      ParseNatToString(n / 10);
      assert s[..|s| - 1] == NatToString(n / 10);
    }
  }

  /** A digit string with no leading zero is positive when its first digit is not '0'. */
  lemma {:induction false} ParseNatPositive(s: string)
    requires IsDigits(s) && |s| >= 1 && s[0] != '0'
    ensures ParseNat(s) >= 1
  {
    if |s| > 1 {
      ParseNatPositive(s[..|s| - 1]);
    } else {
      assert s[..0] == [];
    }
  }

  /** Rendering undoes parsing on digit strings without a leading zero. */
  lemma {:induction false} NatToStringParse(s: string)
    requires IsDigits(s) && |s| >= 1 && (|s| > 1 ==> s[0] != '0')
    ensures NatToString(ParseNat(s)) == s
  {
    var init, c := s[..|s| - 1], s[|s| - 1];
    var d := DigitValue(c);
    if |s| == 1 {
      assert init == [];
      assert DigitChar(d) == c;
    } else {
      NatToStringParse(init);
      ParseNatPositive(init);
      var n := ParseNat(s);
      assert n == ParseNat(init) * 10 + d;
      assert n / 10 == ParseNat(init) && n % 10 == d;
      assert DigitChar(d) == c;
      assert s == init + [c];
    }
  }

  /** Python's `f'{i:02d}'`: the decimal form, with a leading '0' when it is a single character. */
  function Pad2(i: int): (s: string)
  {
    var d := IntToString(i);
    if |d| < 2 then "0" + d else d
  }

  /** For a whole number, the two-digit field holds only digits, is exactly two long below 100,
      and reads back as the number. */
  lemma Pad2Nat(n: nat)
    ensures IsDigits(Pad2(n)) && |Pad2(n)| >= 2
    ensures n < 100 ==> |Pad2(n)| == 2
    ensures ParseNat(Pad2(n)) == n
  {
    ParseNatToString(n);
    var d := NatToString(n);
    if |d| < 2 {
      assert Pad2(n) == "0" + d;
      assert ("0" + d)[..1] == "0";
      assert ParseNat("0" + d) == DigitValue(d[0]);
      assert ParseNat(d) == DigitValue(d[0]) by { assert d[..0] == []; }
    } else if n < 100 {
      assert n / 10 < 10;
    }
  }

  /** `n` copies of `c`; Python's `c * n`, which is empty for `n <= 0`. */
  function Repeat(c: char, n: int): (s: string)
    ensures |s| == if n <= 0 then 0 else n
    ensures forall i :: 0 <= i < |s| ==> s[i] == c
  {
    if n <= 0 then [] else [c] + Repeat(c, n - 1)
  }
}
