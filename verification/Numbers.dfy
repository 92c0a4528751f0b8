/** Powers of two, the 32-bit integers of JavaScript and the digits of base 64. */
module Numbers {

  /** A 16-bit code unit of a string. */
  type unit = c: int | 0 <= c < 0x1_0000

  function Pow2(n: nat): (p: nat)
    ensures p >= 1
  {
    if n == 0 then 1 else 2 * Pow2(n - 1)
  }

  /** The value of `x | 0`. */
  function ToInt32(x: int): (r: int)
    ensures -0x8000_0000 <= r < 0x8000_0000
  {
    (x + 0x8000_0000) % 0x1_0000_0000 - 0x8000_0000
  }

  lemma ToInt32OfInt32(x: int)
    requires -0x8000_0000 <= x < 0x8000_0000
    ensures ToInt32(x) == x
  {
  }

  /** `x << n` */
  function ShiftLeft(x: int, n: nat): int {
    ToInt32(x * Pow2(n % 32))
  }

  /** The alphabet of section 4 of RFC 4648, which source maps use as well. */
  function ToDigit(n: nat): char
    requires n < 64
  {
    if n < 26 then 'A' + n as char
    else if n < 52 then 'a' + (n - 26) as char
    else if n < 62 then '0' + (n - 52) as char
    else if n == 62 then '+' else '/'
  }

  const UPPER := "ABCDEFGHIJKLMNOPQRSTUVWXYZ"
  const LOWER := "abcdefghijklmnopqrstuvwxyz"
  const OTHERS := "0123456789+/"

  lemma UpperCodes(n: nat)
    requires n < 26
    ensures UPPER[n] as int == 'A' as int + n
  {
  }

  lemma LowerCodes(n: nat)
    requires n < 26
    ensures LOWER[n] as int == 'a' as int + n
  {
  }

  lemma OtherCodes(n: nat)
    requires n < 12
    ensures OTHERS[n] as int == if n < 10 then '0' as int + n else if n == 10 then '+' as int else '/' as int
  {
  }

  /** The digit of `n` is the character at position `n` of the alphabet. */
  lemma DigitsAreTheAlphabet(n: nat)
    requires n < 64
    ensures ToDigit(n) == if n < 26 then UPPER[n] else if n < 52 then LOWER[n - 26] else OTHERS[n - 52]
  {
    if n < 26 {
      UpperCodes(n);
    } else if n < 52 {
      LowerCodes(n - 26);
    } else {
      OtherCodes(n - 52);
    }
  }

  /** The value keeps its place modulo 2^32. */
  lemma ToInt32IsCongruent(x: int)
    ensures (ToInt32(x) - x) % 0x1_0000_0000 == 0
  {
    var q := (x + 0x8000_0000) / 0x1_0000_0000;
    assert ToInt32(x) - x == -q * 0x1_0000_0000;
  }
}
