/**
  Fixed-width lower-case hexadecimal, as the session token generator writes
  a 64-bit value with `std::hex`, `std::setw(16)` and `std::setfill('0')`.
*/
module Hex {

  /** An unsigned 64-bit value (`uint64_t`). */
  newtype uint64 = x: int | 0 <= x < 0x1_0000_0000_0000_0000

  /** 16 to the power n. */
  function Pow16(n: nat): nat
  {
    if n == 0 then 1 else 16 * Pow16(n - 1)
  }

  /** A digit `std::hex` writes: 0-9 and the lower-case letters a-f. */
  predicate IsHexDigit(c: char)
  {
    '0' <= c <= '9' || 'a' <= c <= 'f'
  }

  predicate IsHexString(s: string)
  {
    forall i :: 0 <= i < |s| ==> IsHexDigit(s[i])
  }

  /** The value of one hexadecimal digit. */
  function DigitValue(c: char): (d: nat)
    requires IsHexDigit(c)
    ensures d < 16
  {
    if c <= '9' then c as int - '0' as int else c as int - 'a' as int + 10
  }

  /** The lower-case digit for a value below 16; inverse of DigitValue. */
  function DigitChar(d: nat): (c: char)
    requires d < 16
    ensures IsHexDigit(c) && DigitValue(c) == d
  {
    if d < 10 then (d + '0' as int) as char else (d - 10 + 'a' as int) as char
  }

  lemma DigitCharOfValue(c: char)
    requires IsHexDigit(c)
    ensures DigitChar(DigitValue(c)) == c
  {
  }

  /**
    The n lowest hexadecimal digits of x, most significant first and padded
    with '0' on the left: what a stream in hex mode writes for x when the
    field width is n and x has at most n digits.
  */
  function HexDigits(x: nat, n: nat): (s: string)
    ensures |s| == n && IsHexString(s)
  {
    if n == 0 then [] else HexDigits(x / 16, n - 1) + [DigitChar(x % 16)]
  }

  /** The value of a string of hexadecimal digits, most significant first. */
  function ParseHex(s: string): (v: nat)
    requires IsHexString(s)
    ensures v < Pow16(|s|)
  {
    if s == [] then 0 else ParseHex(s[..|s| - 1]) * 16 + DigitValue(s[|s| - 1])
  }

  /** Decoding the padded digits gives the value back. */
  lemma {:induction false} ParseHexDigits(x: nat, n: nat)
    requires x < Pow16(n)
    ensures ParseHex(HexDigits(x, n)) == x
  {
    if n > 0 {
      var s := HexDigits(x, n);
      assert s[..n - 1] == HexDigits(x / 16, n - 1);
      ParseHexDigits(x / 16, n - 1);
    }
  }

  /** Rendering a decoded digit string gives the same string back. */
  lemma {:induction false} HexDigitsParse(s: string)
    requires IsHexString(s)
    ensures HexDigits(ParseHex(s), |s|) == s
  {
    if s != [] {
      var init, last := s[..|s| - 1], s[|s| - 1];
      var v := ParseHex(init) * 16 + DigitValue(last);
      assert v / 16 == ParseHex(init) && v % 16 == DigitValue(last);
      HexDigitsParse(init);
      DigitCharOfValue(last);
      assert s == init + [last];
    }
  }

  lemma Pow16Is64Bit()
    ensures Pow16(16) == 0x1_0000_0000_0000_0000
  {
    assert Pow16(4) == 0x1_0000;
    assert Pow16(8) == 0x1_0000_0000;
    assert Pow16(12) == 0x1_0000_0000_0000;
  }

  /** One 64-bit value as sixteen zero-padded lower-case hex digits. */
  function Hex16(x: uint64): (s: string)
    ensures |s| == 16 && IsHexString(s)
    ensures ParseHex(s) == x as nat
  {
    Pow16Is64Bit();
    ParseHexDigits(x as nat, 16);
    HexDigits(x as nat, 16)
  }
}
