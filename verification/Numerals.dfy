/** Decimal and fixed-width hexadecimal numerals, and the values they denote. */
module Numerals {
  const DIGITS: string := "0123456789abcdef"

  function Digit(d: nat): (c: char)
    requires d < 16
  {
    DIGITS[d]
  }

  /** The value of a digit in either letter case; 16 for any other character. */
  function DigitValue(c: char): (v: nat)
  {
    if '0' <= c <= '9' then c as int - '0' as int
    else if 'a' <= c <= 'f' then c as int - 'a' as int + 10
    else if 'A' <= c <= 'F' then c as int - 'A' as int + 10
    else 16
  }

  lemma DigitHasItsValue(d: nat)
    requires d < 16
    ensures DigitValue(Digit(d)) == d && Digit(d) != '-'
  {
    assert DIGITS[0] == '0' && DIGITS[9] == '9' && DIGITS[15] == 'f';
  }

  function Decimal(n: nat): (s: string)
    ensures s != []
  {
    if n < 10 then [Digit(n)] else Decimal(n / 10) + [Digit(n % 10)]
  }

  function DecimalInt(n: int): (s: string)
  {
    if n < 0 then "-" + Decimal(-n) else Decimal(n)
  }

  function Hex(n: nat, width: nat): (s: string)
    ensures |s| == width
  {
    if width == 0 then [] else Hex(n / 16, width - 1) + [Digit(n % 16)]
  }

  function Value(s: string, base: nat): (v: nat)
  {
    if s == [] then 0 else Value(s[..|s| - 1], base) * base + DigitValue(s[|s| - 1])
  }

  function Pow16(k: nat): (p: nat)
    ensures p >= 1
  {
    if k == 0 then 1 else 16 * Pow16(k - 1)
  }

  lemma {:induction false} DecimalDenotes(n: nat)
    ensures Value(Decimal(n), 10) == n && Decimal(n)[0] != '-'
  {
    if n < 10 {
      DigitHasItsValue(n);
      assert Decimal(n)[..0] == [];
    } else {
      DecimalDenotes(n / 10);
      DigitHasItsValue(n % 10);
      var s := Decimal(n);
      assert s[..|s| - 1] == Decimal(n / 10);
    }
  }

  lemma DecimalIntIsInjective(m: int, n: int)
    requires DecimalInt(m) == DecimalInt(n)
    ensures m == n
  {
    DecimalDenotes(if m < 0 then -m else m);
    DecimalDenotes(if n < 0 then -n else n);
    if m < 0 && n < 0 {
      assert DecimalInt(m)[1..] == Decimal(-m) && DecimalInt(n)[1..] == Decimal(-n);
    }
  }

  lemma {:induction false} HexDenotes(n: nat, width: nat)
    requires n < Pow16(width)
    ensures Value(Hex(n, width), 16) == n
  {
    if width > 0 {
      HexDenotes(n / 16, width - 1);
      DigitHasItsValue(n % 16);
      var s := Hex(n, width);
      assert s[..|s| - 1] == Hex(n / 16, width - 1);
    }
  }
}
