/** PHP `bin2hex`: every byte becomes two lower-case hexadecimal digits,
    high nibble first. `HexDecode` is its inverse, used to show that the
    encoding loses nothing. */
module Hex {
  import opened Wrappers

  newtype byte = x: int | 0 <= x < 256

  const HexDigits: string := "0123456789abcdef"

  predicate IsHexDigit(c: char) {
    '0' <= c <= '9' || 'a' <= c <= 'f'
  }

  predicate IsHexString(s: string) {
    forall i :: 0 <= i < |s| ==> IsHexDigit(s[i])
  }

  /** The digit for a nibble value. */
  function HexDigit(n: int): (c: char)
    requires 0 <= n < 16
    ensures IsHexDigit(c)
    ensures n < 10 ==> c as int == '0' as int + n
    ensures 10 <= n ==> c as int == 'a' as int + (n - 10)
  {
    HexDigits[n]
  }

  /** The nibble value of a digit; the inverse of `HexDigit`. */
  function HexValue(c: char): (n: int)
    requires IsHexDigit(c)
    ensures 0 <= n < 16 && HexDigit(n) == c
  {
    if c <= '9' then c as int - '0' as int else c as int - 'a' as int + 10
  }

  function Bin2Hex(b: seq<byte>): (r: string)
    ensures |r| == 2 * |b|
    ensures IsHexString(r)
  {
    if b == [] then ""
    else [HexDigit(b[0] as int / 16), HexDigit(b[0] as int % 16)] + Bin2Hex(b[1..])
  }

  /** Position `2k` holds the high nibble of byte `k`, position `2k+1` its low nibble. */
  lemma {:induction false} Bin2HexAt(b: seq<byte>, k: nat)
    requires k < |b|
    ensures Bin2Hex(b)[2 * k] == HexDigit(b[k] as int / 16)
    ensures Bin2Hex(b)[2 * k + 1] == HexDigit(b[k] as int % 16)
  {
    if k > 0 {
      Bin2HexAt(b[1..], k - 1);
    }
  }

  function HexDecode(s: string): (r: Option<seq<byte>>)
    ensures r.Some? ==> |s| == 2 * |r.value|
    decreases |s|
  {
    if s == [] then Some([])
    else if |s| == 1 || !IsHexDigit(s[0]) || !IsHexDigit(s[1]) then None
    else match HexDecode(s[2..])
      case None => None
      case Some(rest) => Some([(16 * HexValue(s[0]) + HexValue(s[1])) as byte] + rest)
  }

  /** Decoding the hex text gives back exactly the bytes that were encoded. */
  lemma {:induction false} HexDecodeBin2Hex(b: seq<byte>)
    ensures HexDecode(Bin2Hex(b)) == Some(b)
  {
    if b != [] {
      var s := Bin2Hex(b);
      var hi, lo := b[0] as int / 16, b[0] as int % 16;
      assert s[0] == HexDigit(hi) && s[1] == HexDigit(lo);
      assert s[2..] == Bin2Hex(b[1..]);
      HexDecodeBin2Hex(b[1..]);
      HexDigitInjective(HexValue(s[0]), hi);
      HexDigitInjective(HexValue(s[1]), lo);
      assert [b[0]] + b[1..] == b;
    }
  }

  lemma HexDigitInjective(m: int, n: int)
    requires 0 <= m < 16 && 0 <= n < 16
    requires HexDigit(m) == HexDigit(n)
    ensures m == n
  {
  }

  /** Distinct byte strings never share a hex encoding. */
  lemma Bin2HexInjective(a: seq<byte>, b: seq<byte>)
    requires Bin2Hex(a) == Bin2Hex(b)
    ensures a == b
  {
    HexDecodeBin2Hex(a);
    HexDecodeBin2Hex(b);
  }
}
