/**
 Base 64 variable-length quantities with the 32-bit integer operators of JavaScript
 (defaults/JSXTransformer.js:10205-10335).
 */
module Vlq {
  import opened Numbers
  import opened Collections

  // ----- 32-bit operators -----

  /** `x >>> 5` */
  function UnsignedShiftRight5(x: int): (r: nat)
    ensures r < 0x800_0000
  {
    x % 0x1_0000_0000 / 32
  }

  // ----- Digits -----

  function FromDigit(c: char): Result<nat> {
    if 'A' <= c <= 'Z' then Ok((c - 'A') as nat)
    else if 'a' <= c <= 'z' then Ok((c - 'a') as nat + 26)
    else if '0' <= c <= '9' then Ok((c - '0') as nat + 52)
    else if c == '+' then Ok(62)
    else if c == '/' then Ok(63)
    else Err("Not a valid base 64 digit")
  }

  lemma DigitRoundTrip(n: nat)
    requires n < 64
    ensures FromDigit(ToDigit(n)) == Ok(n)
    ensures ToDigit(n) != ',' && ToDigit(n) != ';'
  {
  }

  /** The digits are read back, and no other character is. */
  lemma DigitsReadExactly(c: char)
    ensures FromDigit(c).Ok? ==> FromDigit(c).value < 64 && ToDigit(FromDigit(c).value) == c
    ensures FromDigit(c).Err? ==> forall n: nat | n < 64 :: ToDigit(n) != c
  {
  }

  // ----- Sign placement -----

  function ToVlqSigned(v: int): int {
    if v < 0 then ShiftLeft(-v, 1) + 1 else ShiftLeft(v, 1)
  }

  function FromVlqSigned(x: int): int {
    var shifted := ToInt32(x) / 2;
    if x % 2 == 1 then -shifted else shifted
  }

  /** The value a reader gets for a written `v`. */
  function Wrap(v: int): int {
    FromVlqSigned(ToVlqSigned(v))
  }

  predicate Fits(v: int) {
    -0x4000_0000 < v < 0x4000_0000
  }

  lemma ShiftLeftByOne(v: int)
    ensures ShiftLeft(v, 1) == ToInt32(2 * v) && ShiftLeft(v, 1) % 2 == 0
  {
    hide ToInt32;
    assert Pow2(1) == 2 * Pow2(0);
    assert v * Pow2(1) == 2 * v;
    EvenStaysEven(v);
  }

  lemma EvenStaysEven(v: int)
    ensures ToInt32(2 * v) % 2 == 0
  {
    var q, r := (v + 0x4000_0000) / 0x8000_0000, (v + 0x4000_0000) % 0x8000_0000;
    assert 2 * v + 0x8000_0000 == q * 0x1_0000_0000 + 2 * r && 0 <= 2 * r < 0x1_0000_0000;
    assert ToInt32(2 * v) == 2 * r - 0x8000_0000;
  }

  /** A value survives exactly when its magnitude is below 2^30. */
  lemma WrapExact(v: int)
    ensures Wrap(v) == v <==> Fits(v)
  {
    hide ToInt32, ShiftLeft;
    ShiftLeftByOne(v);
    ShiftLeftByOne(-v);
    var x := ToVlqSigned(v);
    if v < 0 {
      ToInt32OfInt32(ToInt32(-2 * v) + 1);
      HalfOfDouble(-v);
    } else {
      ToInt32OfInt32(x);
      HalfOfDouble(v);
    }
  }

  lemma HalfOfDouble(m: nat)
    ensures ToInt32(2 * m) % 2 == 0
    ensures ToInt32(2 * m) / 2 == m <==> m < 0x4000_0000
  {
  }

  /** The smallest number that is lost. */
  lemma FirstValueLost()
    ensures Wrap(0x4000_0000) == -0x4000_0000
  {
    hide ShiftLeft;
    ShiftLeftByOne(0x4000_0000);
  }

  // ----- Encoding -----

  lemma ShiftShrinks(x: int)
    ensures UnsignedShiftRight5(x) > 0 ==> UnsignedShiftRight5(x) % 0x1_0000_0000 < x % 0x1_0000_0000
  {
  }

  function EncodeVlq(vlq: int): (s: string)
    ensures s != [] && s[0] != ',' && s[0] != ';'
    decreases vlq % 0x1_0000_0000
  {
    ShiftShrinks(vlq);
    var digit, rest := vlq % 32, UnsignedShiftRight5(vlq);
    DigitRoundTrip(digit);
    DigitRoundTrip(digit + 32);
    if rest > 0 then [ToDigit(digit + 32)] + EncodeVlq(rest) else [ToDigit(digit)]
  }

  lemma EncodeUnfolds(vlq: int)
    ensures var digit, rest := vlq % 32, UnsignedShiftRight5(vlq);
            EncodeVlq(vlq) == if rest > 0 then [ToDigit(digit + 32)] + EncodeVlq(rest) else [ToDigit(digit)]
  {
  }

  /** The `k`-th group of five bits, the lowest one first. */
  function Group(u: nat, k: nat): (g: nat)
    ensures g < 32
  {
    if k == 0 then u % 32 else Group(u / 32, k - 1)
  }

  lemma {:induction false} NoGroups(k: nat)
    ensures Group(0, k) == 0
  {
    if k > 0 {
      NoGroups(k - 1);
    }
  }

  /**
   A quantity is written in groups of five bits, the lowest one first, all but the last marked
   by 32, and no more groups than are needed.
   */
  lemma {:induction false} QuantityDigits(u: nat, k: nat)
    requires u < 0x1_0000_0000
    ensures var s := EncodeVlq(u);
            if k < |s| then s[k] == ToDigit(Group(u, k) + if k + 1 < |s| then 32 else 0) && (k + 1 == |s| > 1 ==> Group(u, k) > 0)
            else Group(u, k) == 0
    decreases u, k
  {
    hide EncodeVlq, ToDigit;
    EncodeUnfolds(u);
    NoGroups(k);
    if u >= 32 {
      if k > 0 {
        QuantityDigits(u / 32, k - 1);
      }
      LastGroup(u / 32);
    } else if k > 0 {
      NoGroups(k - 1);
    }
  }

  lemma LastGroup(u: nat)
    requires u < 0x1_0000_0000
    ensures |EncodeVlq(u)| == 1 ==> u < 32
  {
  }

  /** The sign is the lowest bit, above it stands the magnitude. */
  lemma SignIsLowestBit(v: int)
    requires Fits(v)
    ensures ToVlqSigned(v) == if v < 0 then 2 * -v + 1 else 2 * v
  {
    hide ToInt32, ShiftLeft;
    ShiftLeftByOne(v);
    ShiftLeftByOne(-v);
    ToInt32OfInt32(if v < 0 then -2 * v else 2 * v);
  }

  method Encode(value: int) returns (encoded: string)
    ensures encoded == EncodeVlq(ToVlqSigned(value))
  {
    hide ToVlqSigned, ToDigit, EncodeVlq, UnsignedShiftRight5;
    encoded := "";
    var vlq := ToVlqSigned(value);
    var more := true;
    while more
      invariant EncodeVlq(ToVlqSigned(value)) == encoded + if more then EncodeVlq(vlq) else ""
      decreases more, vlq % 0x1_0000_0000
    {
      EncodeUnfolds(vlq);
      ShiftShrinks(vlq);
      var digit := vlq % 32;
      vlq := UnsignedShiftRight5(vlq);
      more := vlq > 0;
      if more {
        digit := digit + 32;
      }
      encoded := encoded + [ToDigit(digit)];
    }
  }

  // ----- Decoding -----

  datatype Decoded = Decoded(value: int, rest: string)

  function DecodeVlq(s: string, result: int, shift: nat): (r: Result<Decoded>)
    ensures r.Ok? ==> |r.value.rest| < |s|
    decreases |s|
  {
    if s == [] then Err("Expected more digits in base 64 VLQ value.") else
    match FromDigit(s[0])
    case Err(e) => Err(e)
    case Ok(digit) =>
      var result' := result + ShiftLeft(digit % 32, shift);
      if digit >= 32 then DecodeVlq(s[1..], result', shift + 5)
      else Ok(Decoded(FromVlqSigned(result'), s[1..]))
  }

  method Decode(s: string) returns (r: Result<Decoded>)
    ensures r == DecodeVlq(s, 0, 0)
  {
    var i, result, shift, continuation := 0, 0, 0, true;
    assert s[0..] == s;
    while continuation
      invariant 0 <= i <= |s|
      invariant continuation ==> DecodeVlq(s, 0, 0) == DecodeVlq(s[i..], result, shift)
      invariant !continuation ==> DecodeVlq(s, 0, 0) == Ok(Decoded(FromVlqSigned(result), s[i..]))
      decreases continuation, |s| - i
    {
      if i >= |s| {
        return Err("Expected more digits in base 64 VLQ value.");
      }
      var digit := FromDigit(s[i]);
      if digit.Err? {
        return Err(digit.message);
      }
      assert s[i..][1..] == s[i + 1..];
      i := i + 1;
      continuation := digit.value >= 32;
      result := result + ShiftLeft(digit.value % 32, shift);
      shift := shift + 5;
    }
    return Ok(Decoded(FromVlqSigned(result), s[i..]));
  }

  // ----- Round trip -----

  /** 2^(5k), for the shifts a 32-bit value can need. */
  function Weight(k: nat): nat
    requires k <= 6
  {
    if k == 0 then 1 else if k == 1 then 0x20 else if k == 2 then 0x400 else if k == 3 then 0x8000
    else if k == 4 then 0x10_0000 else if k == 5 then 0x200_0000 else 0x4000_0000
  }

  lemma WeightIsPower(k: nat)
    requires k <= 6
    ensures Pow2(5 * k) == Weight(k)
  {
    if k > 0 {
      WeightIsPower(k - 1);
      assert Pow2(5 * k) == 32 * Pow2(5 * (k - 1)) by { Pow2Plus5(5 * (k - 1)); }
    }
  }

  lemma Pow2Plus5(n: nat)
    ensures Pow2(n + 5) == 32 * Pow2(n)
  {
    assert Pow2(n + 5) == 2 * Pow2(n + 4);
    assert Pow2(n + 4) == 2 * Pow2(n + 3);
    assert Pow2(n + 3) == 2 * Pow2(n + 2);
    assert Pow2(n + 2) == 2 * Pow2(n + 1);
  }

  lemma ToInt32Unsigned(x: int)
    requires 0 <= x < 0x1_0000_0000
    ensures ToInt32(x) == if x < 0x8000_0000 then x else x - 0x1_0000_0000
  {
  }

  lemma WeightScales(q: nat, d: nat, k: nat)
    requires k <= 6 && d < 32 && (32 * q + d) * Weight(k) < 0x1_0000_0000
    ensures (32 * q + d) * Weight(k) == q * 32 * Weight(k) + d * Weight(k)
    ensures k < 6 ==> q * 32 * Weight(k) == q * Weight(k + 1)
    ensures k == 6 ==> q == 0
    ensures k < 6 ==> (q * 32 * Weight(k) < 0x8000_0000 <==> (32 * q + d) * Weight(k) < 0x8000_0000)
    ensures k < 6 ==> d * Weight(k) < 0x8000_0000
  {
    if k == 0 {} else if k == 1 {} else if k == 2 {} else if k == 3 {} else if k == 4 {} else if k == 5 {} else {}
  }

  /** The lowest digit and the rest of a quantity, placed at digit `k`, add up. */
  lemma DigitsAddUp(u: nat, k: nat)
    requires k <= 6 && u * Weight(k) < 0x1_0000_0000
    ensures ToInt32(u * Weight(k))
            == ToInt32(u % 32 * Weight(k)) + if u / 32 > 0 then ToInt32(u / 32 * 32 * Weight(k)) else 0
    ensures u / 32 > 0 ==> k < 6 && u / 32 * 32 * Weight(k) == u / 32 * Weight(k + 1) < 0x1_0000_0000
  {
    hide ToInt32, Weight;
    var q, d, w := u / 32, u % 32, Weight(k);
    assert u == 32 * q + d;
    WeightScales(q, d, k);
    if q > 0 {
      assert u * w == q * 32 * w + d * w && 0 <= d * w && 0 <= q * 32 * w by {
        assert 0 <= w;
      }
      ToInt32Unsigned(u * w);
      ToInt32Unsigned(d * w);
      ToInt32Unsigned(q * 32 * w);
    } else {
      assert u == d;
    }
  }

  lemma {:induction false} DecodeAfterEncode(u: nat, k: nat, result: int, rest: string)
    requires k <= 6 && u * Weight(k) < 0x1_0000_0000
    ensures DecodeVlq(EncodeVlq(u) + rest, result, 5 * k)
            == Ok(Decoded(FromVlqSigned(result + ToInt32(u * Weight(k))), rest))
    decreases u
  {
    hide ToInt32, Weight, FromVlqSigned, EncodeVlq, DecodeVlq, ToDigit, UnsignedShiftRight5;
    WeightBound(u, k);
    DigitsAddUp(u, k);
    EncodeUnfolds(u);
    var digit, q := u % 32, u / 32;
    var sum := result + ToInt32(digit * Weight(k));
    if q > 0 {
      DecodeUnfolds(digit + 32, EncodeVlq(q) + rest, result, k);
      DecodeAfterEncode(q, k + 1, sum, rest);
      assert [ToDigit(digit + 32)] + EncodeVlq(q) + rest == [ToDigit(digit + 32)] + (EncodeVlq(q) + rest);
    } else {
      DecodeUnfolds(digit, rest, result, k);
    }
  }

  lemma DecodeUnfolds(n: nat, tail: string, result: int, k: nat)
    requires n < 64 && k <= 6
    ensures var sum := result + ToInt32(n % 32 * Weight(k));
            DecodeVlq([ToDigit(n)] + tail, result, 5 * k)
            == if n >= 32 then DecodeVlq(tail, sum, 5 * (k + 1)) else Ok(Decoded(FromVlqSigned(sum), tail))
  {
    hide ToInt32, Weight, FromVlqSigned, ToDigit, FromDigit, Pow2;
    DigitRoundTrip(n);
    WeightIsPower(k);
    var s := [ToDigit(n)] + tail;
    assert s[0] == ToDigit(n) && s[1..] == tail;
    assert 5 * k % 32 == 5 * k;
    assert ShiftLeft(n % 32, 5 * k) == ToInt32(n % 32 * Weight(k));
  }

  lemma WeightBound(u: nat, k: nat)
    requires k <= 6 && u * Weight(k) < 0x1_0000_0000
    ensures u < 0x1_0000_0000 && UnsignedShiftRight5(u) == u / 32 && 5 * k % 32 == 5 * k
  {
  }

  lemma EncodeOfNegative(x: int)
    requires -0x8000_0000 <= x < 0x8000_0000
    ensures EncodeVlq(x) == EncodeVlq(x % 0x1_0000_0000)
  {
    hide EncodeVlq, ToDigit;
    var u := x % 0x1_0000_0000;
    assert u == if x < 0 then x + 0x1_0000_0000 else x;
    assert u % 32 == x % 32;
    EncodeUnfolds(x);
    EncodeUnfolds(u);
  }

  lemma ToInt32Cancels(x: int)
    requires -0x8000_0000 <= x < 0x8000_0000
    ensures ToInt32(x % 0x1_0000_0000) == x
  {
  }

  lemma SignedIsInt32(v: int)
    ensures -0x8000_0000 <= ToVlqSigned(v) < 0x8000_0000
  {
    ShiftLeftByOne(-v);
  }

  /** Reading back a written value gives it wrapped, and leaves what followed. */
  lemma DecodeInvertsEncode(v: int, rest: string)
    ensures DecodeVlq(EncodeVlq(ToVlqSigned(v)) + rest, 0, 0) == Ok(Decoded(Wrap(v), rest))
  {
    hide EncodeVlq, DecodeVlq, ToVlqSigned, FromVlqSigned, ToInt32;
    var x := ToVlqSigned(v);
    SignedIsInt32(v);
    EncodeOfNegative(x);
    ToInt32Cancels(x);
    DecodeAfterEncode(x % 0x1_0000_0000, 0, 0, rest);
  }

  /** The format itself: sign in the lowest bit, five bits a digit, lowest first. */
  lemma KnownQuantities()
    ensures EncodeVlq(ToVlqSigned(0)) == "A" && EncodeVlq(ToVlqSigned(1)) == "C" && EncodeVlq(ToVlqSigned(-1)) == "D"
    ensures EncodeVlq(ToVlqSigned(16)) == "gB"
  {
    hide ToInt32, ShiftLeft, EncodeVlq;
    EncodeUnfolds(0);
    EncodeUnfolds(1);
    EncodeUnfolds(2);
    EncodeUnfolds(3);
    EncodeUnfolds(32);
    ShiftLeftByOne(0);
    ShiftLeftByOne(1);
    ShiftLeftByOne(16);
    ToInt32OfInt32(0);
    ToInt32OfInt32(2);
    ToInt32OfInt32(32);
  }
}
