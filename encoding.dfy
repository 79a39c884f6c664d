/**
 The text forms the ledger feeds to its hash function: Python's `str()` of an
 integer, and a lower-case hexadecimal rendering of bytes.
 */
module Encoding {

  /** A lower-case hexadecimal digit. */
  predicate IsHexChar(c: char)
  {
    '0' <= c <= '9' || 'a' <= c <= 'f'
  }

  /** The decimal digit character for `d`. */
  function DigitChar(d: nat): char
    requires d < 10
  {
    ('0' as int + d) as char
  }

  /** `str(n)` for a natural number: its decimal digits, most significant first, no leading zero. */
  function NatToDecimal(n: nat): (r: string)
    decreases n
    ensures |r| >= 1
  {
    if n < 10 then [DigitChar(n)]
    else NatToDecimal(n / 10) + [DigitChar(n % 10)]
  }

  /** `str(i)` for any integer: a leading minus sign for a negative one. */
  function IntToDecimal(i: int): (r: string)
    ensures |r| >= 1
  {
    if i < 0 then "-" + NatToDecimal(-i) else NatToDecimal(i)
  }

  /** A decimal digit character. */
  predicate IsDigit(c: char)
  {
    '0' <= c <= '9'
  }

  /** The number a string of decimal digits denotes, most significant first. */
  function DigitsValue(s: string): nat
  {
    if s == [] then 0
    else DigitsValue(s[..|s| - 1]) * 10 + (if IsDigit(s[|s| - 1]) then s[|s| - 1] as int - '0' as int else 0)
  }

  /** `int(s)` for what `str` writes: an optional minus sign, then decimal digits. */
  function ParseDecimal(s: string): int
  {
    if s != [] && s[0] == '-' then -(DigitsValue(s[1..]) as int) else DigitsValue(s)
  }

  /** `str(n)` is all digits and reads back as `n`. */
  lemma {:induction false} NatToDecimalRoundTrip(n: nat)
    ensures forall i :: 0 <= i < |NatToDecimal(n)| ==> IsDigit(NatToDecimal(n)[i])
    ensures DigitsValue(NatToDecimal(n)) == n
    decreases n
  {
    if n >= 10 {
      NatToDecimalRoundTrip(n / 10);
      var front := NatToDecimal(n / 10);
      assert NatToDecimal(n)[..|NatToDecimal(n)| - 1] == front;
      assert DigitsValue(NatToDecimal(n)) == DigitsValue(front) * 10 + n % 10;
    }
  }

  /** `int(str(i)) == i`: the decimal form loses nothing, so distinct integers are written differently. */
  lemma IntToDecimalRoundTrip(i: int)
    ensures ParseDecimal(IntToDecimal(i)) == i
  {
    if i < 0 {
      NatToDecimalRoundTrip(-i);
      assert IntToDecimal(i)[1..] == NatToDecimal(-i);
    } else {
      NatToDecimalRoundTrip(i);
      assert IsDigit(NatToDecimal(i)[0]);
    }
  }

  /** The value of a lower-case hexadecimal digit; any other character counts as 0. */
  function HexValue(c: char): (v: nat)
    ensures v < 16
  {
    if '0' <= c <= '9' then c as int - '0' as int
    else if 'a' <= c <= 'f' then c as int - 'a' as int + 10
    else 0
  }

  /** The lower-case hexadecimal digit character for `d`. */
  function HexDigitChar(d: nat): (c: char)
    requires d < 16
    ensures IsHexChar(c) && HexValue(c) == d
  {
    if d < 10 then DigitChar(d) else ('a' as int + (d - 10)) as char
  }

  /** Two lower-case hexadecimal digits for one byte, the high one first. */
  function ByteToHex(b: bv8): (r: string)
    ensures |r| == 2
    ensures IsHexChar(r[0]) && IsHexChar(r[1])
    ensures 16 * HexValue(r[0]) + HexValue(r[1]) == b as int
  {
    [HexDigitChar((b as int) / 16), HexDigitChar((b as int) % 16)]
  }

  /** The bytes as lower-case hexadecimal: digit pair `i` is byte `i`. */
  function BytesToHex(bs: seq<bv8>): (r: string)
    ensures |r| == 2 * |bs|
    ensures forall i :: 0 <= i < |r| ==> IsHexChar(r[i])
    ensures forall i :: 0 <= i < |bs| ==> r[2 * i..2 * i + 2] == ByteToHex(bs[i])
  {
    if bs == [] then ""
    else
      var rest := BytesToHex(bs[1..]);
      assert forall i :: 1 <= i < |bs| ==> (ByteToHex(bs[0]) + rest)[2 * i..2 * i + 2] == rest[2 * (i - 1)..2 * (i - 1) + 2];
      ByteToHex(bs[0]) + rest
  }

  /** Reads hexadecimal digit pairs back as bytes; a trailing odd digit is ignored. */
  function HexToBytes(s: string): seq<bv8>
    decreases |s|
  {
    if |s| < 2 then [] else [(16 * HexValue(s[0]) + HexValue(s[1])) as bv8] + HexToBytes(s[2..])
  }

  /** The hexadecimal form of bytes loses nothing: it reads back as the same bytes. */
  lemma {:induction false} BytesToHexRoundTrip(bs: seq<bv8>)
    ensures HexToBytes(BytesToHex(bs)) == bs
  {
    if bs != [] {
      var r := BytesToHex(bs);
      assert r[2..] == BytesToHex(bs[1..]);
      assert r[..2] == ByteToHex(bs[0]);
      BytesToHexRoundTrip(bs[1..]);
    }
  }
}
