/** Decimal rendering of whole numbers, as JavaScript's `toString()` gives it
    for non-negative integers, and `padStart(2, '0')`. */
module Text {

  predicate IsDigit(c: char) {
    '0' <= c <= '9'
  }

  function DigitChar(d: nat): (c: char)
    requires d < 10
    ensures IsDigit(c) && c as int - '0' as int == d
  {
    ('0' as int + d) as char
  }

  /** The decimal numeral of `n`, without leading zeros. */
  function NatToString(n: nat): (s: string)
    ensures |s| >= 1
    ensures forall i :: 0 <= i < |s| ==> IsDigit(s[i])
    ensures n >= 10 ==> |s| >= 2 && s[0] != '0'
    ensures n < 10 ==> |s| == 1
  {
    if n < 10 then [DigitChar(n)] else NatToString(n / 10) + [DigitChar(n % 10)]
  }

  /** Reads a string of digits back as a number (the inverse of NatToString). */
  function ParseDigits(s: string): nat
    requires forall i :: 0 <= i < |s| ==> IsDigit(s[i])
  {
    if s == [] then 0
    else
      assert IsDigit(s[|s| - 1]);
      10 * ParseDigits(s[..|s| - 1]) + (s[|s| - 1] as int - '0' as int)
  }

  lemma {:induction false} ParseNatToString(n: nat)
    ensures ParseDigits(NatToString(n)) == n
  {
    if n >= 10 {
      var s := NatToString(n);
      assert s[..|s| - 1] == NatToString(n / 10);
      ParseNatToString(n / 10);
    }
  }

  /** Rendering is injective: different numbers give different text. */
  lemma NatToStringInjective(m: nat, n: nat)
    requires NatToString(m) == NatToString(n)
    ensures m == n
  {
    ParseNatToString(m);
    ParseNatToString(n);
  }

  /** `s.padStart(2, '0')` */
  function PadStart2(s: string): (r: string)
    ensures |r| == if |s| >= 2 then |s| else 2
    ensures r[|r| - |s|..] == s
    ensures forall i :: 0 <= i < |r| - |s| ==> r[i] == '0'
  {
    if |s| >= 2 then s
    else if |s| == 1 then ['0'] + s
    else "00"
  }

  /** A padded numeral still denotes the same number. */
  lemma {:induction false} NumeralPadding(n: nat)
    ensures |PadStart2(NatToString(n))| >= 2
    ensures PadStart2(NatToString(n)) == if n < 10 then ['0', DigitChar(n)] else NatToString(n)
  {
  }

  /** `n.toString().padStart(2, '0')`: at least two digits. */
  function Padded(n: nat): (s: string)
    ensures |s| >= 2 && forall i :: 0 <= i < |s| ==> IsDigit(s[i])
  {
    NumeralPadding(n);
    PadStart2(NatToString(n))
  }

  /** A padded numeral reads back as the number it renders. */
  lemma PaddedParse(n: nat)
    ensures ParseDigits(Padded(n)) == n
  {
    NumeralPadding(n);
    ParseNatToString(n);
    if n < 10 {
      var p := Padded(n);
      assert p[..1] == "0";
      assert ParseDigits(p[..1]) == 10 * ParseDigits("") + 0;
    }
  }
}
