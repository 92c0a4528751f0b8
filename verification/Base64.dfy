/**
 Base64 of the buffer module: the encoder, the decoder with its bit operations, and the
 cleaning that restores padding (defaults/JSXTransformer.js:1615-1627, 1751-1753, 1789-1891).
 */
module Base64 {
  import opened Numbers
  import opened Bytes
  import opened Collections

  // ----- Bit operations -----

  /** Bitwise or of the low `n` bits. */
  function OrBits(a: nat, b: nat, n: nat): nat {
    if n == 0 then 0 else (if a % 2 == 1 || b % 2 == 1 then 1 else 0) + 2 * OrBits(a / 2, b / 2, n - 1)
  }

  /** The 32 bits of an integer. */
  function Bits(x: int): (r: nat)
    ensures r < 0x1_0000_0000
  {
    x % 0x1_0000_0000
  }

  function Or(a: int, b: int): nat {
    OrBits(Bits(a), Bits(b), 32)
  }

  lemma {:induction false} OrBitsZero(a: nat, n: nat)
    requires a < Pow2(n)
    ensures OrBits(a, 0, n) == a
  {
    if n > 0 {
      OrBitsZero(a / 2, n - 1);
    }
  }

  /** Where the low `k` bits of one number are clear and the other has no more, or is addition. */
  lemma {:induction false} OrBitsAdds(q: nat, b: nat, k: nat, n: nat)
    requires b < Pow2(k) && k <= n && q * Pow2(k) < Pow2(n)
    ensures OrBits(q * Pow2(k), b, n) == q * Pow2(k) + b
  {
    if k == 0 {
      OrBitsZero(q, n);
    } else {
      var a := q * Pow2(k);
      assert a == 2 * (q * Pow2(k - 1));
      assert a % 2 == 0 && a / 2 == q * Pow2(k - 1);
      OrBitsAdds(q, b / 2, k - 1, n - 1);
    }
  }

  lemma Powers()
    ensures Pow2(2) == 4 && Pow2(4) == 16 && Pow2(6) == 64 && Pow2(10) == 1024 && Pow2(12) == 4096 && Pow2(18) == 0x4_0000
    ensures Pow2(32) == 0x1_0000_0000
  {
    assert Pow2(2) == 2 * Pow2(1);
    assert Pow2(4) == 4 * Pow2(2);
    assert Pow2(6) == 4 * Pow2(4);
    assert Pow2(8) == 4 * Pow2(6);
    assert Pow2(10) == 4 * Pow2(8);
    assert Pow2(12) == 4 * Pow2(10);
    assert Pow2(14) == 4 * Pow2(12);
    assert Pow2(16) == 4 * Pow2(14);
    assert Pow2(18) == 4 * Pow2(16);
    assert Pow2(20) == 4 * Pow2(18);
    assert Pow2(24) == 16 * Pow2(20);
    assert Pow2(28) == 16 * Pow2(24);
    assert Pow2(32) == 16 * Pow2(28);
  }

  // ----- Characters -----

  /** `decode`: what a character counts for; past `z` the value is absent and counts as zero. */
  function Value(c: char): int {
    if c == '+' || c == '-' then 62
    else if c == '/' || c == '_' then 63
    else if c < '0' then -1
    else if c < ':' then c as int - '0' as int + 52
    else if c < '[' then c as int - 'A' as int
    else if c < '{' then c as int - 'a' as int + 26
    else 0
  }

  /** The characters that cleaning keeps; the range written `A-z` has six more than letters. */
  predicate Keeps(c: char) {
    c == '+' || c == '/' || c == '-' || '0' <= c <= '9' || 'A' <= c <= 'z'
  }

  lemma ValueOfDigit(n: nat)
    requires n < 64
    ensures Value(ToDigit(n)) == n && ToDigit(n) != '=' && Keeps(ToDigit(n))
  {
  }

  // ----- Encoding -----

  function Number(a: int, b: int, c: int): int {
    a * 0x1_0000 + b * 0x100 + c
  }

  function EncodeTriplet(a: byte, b: byte, c: byte): (s: string)
    ensures |s| == 4
  {
    var num := Number(a, b, c);
    [ToDigit(num / 0x4_0000 % 64), ToDigit(num / 0x1000 % 64), ToDigit(num / 64 % 64), ToDigit(num % 64)]
  }

  /** How many characters of padding follow `n` bytes. */
  function Padding(n: nat): (k: nat)
    ensures k <= 2 && (n + k) % 3 == 0
  {
    (3 - n % 3) % 3
  }

  lemma PaddingRepeats(n: nat)
    ensures Padding(n + 3) == Padding(n)
  {
  }

  /** One or two bytes left over, padded to four characters. */
  function EncodeTail(tail: seq<byte>): string
    requires |tail| < 3
  {
    if |tail| == 1 then
      var num := Number(0, 0, tail[0]);
      [ToDigit(num / 4), ToDigit(num * 16 % 64), '=', '=']
    else if |tail| == 2 then
      var num := Number(0, tail[0], tail[1]);
      [ToDigit(num / 0x400), ToDigit(num / 16 % 64), ToDigit(num * 4 % 64), '=']
    else []
  }

  function Encoded(b: seq<byte>): string {
    if |b| < 3 then EncodeTail(b) else EncodeTriplet(b[0], b[1], b[2]) + Encoded(b[3..])
  }

  lemma EncodedUnfolds(b: seq<byte>)
    ensures Encoded(b) == if |b| < 3 then EncodeTail(b) else EncodeTriplet(b[0], b[1], b[2]) + Encoded(b[3..])
  {
    hide EncodeTriplet, EncodeTail;
  }

  lemma EncodedAdvances(b: seq<byte>, i: nat, output: string)
    requires i + 3 <= |b|
    ensures output + Encoded(b[i..]) == output + EncodeTriplet(b[i], b[i + 1], b[i + 2]) + Encoded(b[i + 3..])
  {
    hide EncodeTriplet, Encoded;
    EncodedUnfolds(b[i..]);
    assert b[i..][3..] == b[i + 3..];
  }

  /** `uint8ToBase64` */
  method EncodeBytes(b: seq<byte>) returns (output: string)
    ensures output == Encoded(b)
  {
    hide EncodeTriplet, EncodeTail, Encoded;
    var extraBytes := |b| % 3;
    var length := |b| - extraBytes;
    output := EncodeTriplets(b, |b| / 3, length);
    EncodedUnfolds(b[length..]);
    output := output + EncodeTail(b[length..]);
  }

  /** The loop over the complete triplets. */
  method EncodeTriplets(b: seq<byte>, ghost groups: nat, length: nat) returns (output: string)
    requires length == 3 * groups <= |b|
    ensures Encoded(b) == output + Encoded(b[length..])
  {
    hide EncodeTriplet, EncodeTail, Encoded;
    output := "";
    ghost var g := 0;
    var i := 0;
    assert b[0..] == b;
    while i < length
      invariant i == 3 * g <= length
      invariant Encoded(b) == output + Encoded(b[i..])
      decreases length - i
    {
      EncodedAdvances(b, i, output);
      output := output + EncodeTriplet(b[i], b[i + 1], b[i + 2]);
      i, g := i + 3, g + 1;
    }
  }

  // ----- Decoding -----

  function DecodeFour(a: char, b: char, c: char, d: char): (r: seq<byte>)
    ensures |r| == 3
  {
    var tmp := Or(Or(Or(ShiftLeft(Value(a), 18), ShiftLeft(Value(b), 12)), ShiftLeft(Value(c), 6)), Value(d));
    [tmp / 0x1_0000 % 256, tmp / 0x100 % 256, tmp % 256]
  }

  function DecodeTwo(a: char, b: char): (r: seq<byte>)
    ensures |r| == 1
  {
    [Or(ShiftLeft(Value(a), 2), Value(b) / 16) % 256]
  }

  function DecodeThree(a: char, b: char, c: char): (r: seq<byte>)
    ensures |r| == 2
  {
    var tmp := Or(Or(ShiftLeft(Value(a), 10), ShiftLeft(Value(b), 4)), Value(c) / 4);
    [tmp / 0x100 % 256, tmp % 256]
  }

  function PlaceHolders(s: string): nat {
    if |s| >= 2 && s[|s| - 2] == '=' then 2 else if |s| >= 1 && s[|s| - 1] == '=' then 1 else 0
  }

  /** The bytes of a text whose length is a multiple of four; `holes` of its last characters are padding. */
  function DecodedText(s: string, holes: nat): seq<byte>
    decreases |s|
  {
    if |s| < 4 then []
    else if |s| == 4 && holes == 2 then DecodeTwo(s[0], s[1])
    else if |s| == 4 && holes == 1 then DecodeThree(s[0], s[1], s[2])
    else DecodeFour(s[0], s[1], s[2], s[3]) + DecodedText(s[4..], holes)
  }

  function Decoded(s: string): Result<seq<byte>> {
    if |s| % 4 > 0 then Err("Invalid string. Length must be a multiple of 4")
    else Ok(DecodedText(s, PlaceHolders(s)))
  }

  /** `b64ToByteArray`: it fills an array of the computed size. */
  method DecodeText(s: string) returns (r: Result<array<byte>>)
    ensures r.Err? == Decoded(s).Err?
    ensures r.Ok? ==> fresh(r.value) && Ok(r.value[..]) == Decoded(s)
  {
    hide DecodedText, DecodeFour, DecodeTwo, DecodeThree, PlaceHolders;
    if |s| % 4 > 0 {
      return Err("Invalid string. Length must be a multiple of 4");
    }
    PlaceHoldersFit(s);
    var holes := PlaceHolders(s);
    var arr := new byte[|s| / 4 * 3 - holes];
    var l := if holes > 0 then |s| - 4 else |s|;
    var j := DecodeGroups(s, holes, |s| / 4, l, arr);
    LastGroup(s, l, holes);
    if holes == 2 {
      Store(arr, j, DecodeTwo(s[l], s[l + 1]));
      j := j + 1;
    } else if holes == 1 {
      Store(arr, j, DecodeThree(s[l], s[l + 1], s[l + 2]));
      j := j + 2;
    } else {
      assert arr[..j] + [] == arr[..j];
    }
    assert j == arr.Length && arr[..] == arr[..j];
    return Ok(arr);
  }

  /** The loop over the complete groups. */
  method DecodeGroups(s: string, ghost holes: nat, ghost groups: nat, l: nat, arr: array<byte>) returns (j: nat)
    requires |s| == 4 * groups && holes <= 2 && (holes > 0 ==> groups > 0)
    requires l == (if holes > 0 then |s| - 4 else |s|) && arr.Length == 3 * groups - holes
    modifies arr
    ensures j == (if holes > 0 then 3 * groups - 3 else 3 * groups) <= arr.Length
    ensures DecodedText(s, holes) == arr[..j] + DecodedText(s[l..], holes)
  {
    hide DecodedText, DecodeFour;
    var i := 0;
    j := 0;
    ghost var g := 0;
    assert s[0..] == s;
    while i < l
      invariant i == 4 * g <= l && j == 3 * g <= arr.Length
      invariant DecodedText(s, holes) == arr[..j] + DecodedText(s[i..], holes)
      decreases l - i
    {
      GroupDecodes(s, i, holes);
      var group := DecodeFour(s[i], s[i + 1], s[i + 2], s[i + 3]);
      assert arr[..j] + (group + DecodedText(s[i + 4..], holes)) == arr[..j] + group + DecodedText(s[i + 4..], holes);
      Store(arr, j, group);
      i, j, g := i + 4, j + 3, g + 1;
    }
  }

  lemma PlaceHoldersFit(s: string)
    ensures PlaceHolders(s) <= 2 && (PlaceHolders(s) > 0 ==> s != "")
  {
  }

  lemma GroupDecodes(s: string, i: nat, holes: nat)
    requires i + 4 <= |s| && (i + 4 == |s| ==> holes == 0)
    ensures DecodedText(s[i..], holes) == DecodeFour(s[i], s[i + 1], s[i + 2], s[i + 3]) + DecodedText(s[i + 4..], holes)
  {
    hide DecodeFour, DecodeTwo, DecodeThree;
    assert s[i..][4..] == s[i + 4..];
  }

  lemma LastGroup(s: string, i: nat, holes: nat)
    requires |s| % 4 == 0 && holes <= 2 && i <= |s| && i == if holes > 0 then |s| - 4 else |s|
    ensures DecodedText(s[i..], holes)
            == if holes == 2 then DecodeTwo(s[i], s[i + 1])
               else if holes == 1 then DecodeThree(s[i], s[i + 1], s[i + 2]) else []
  {
    hide DecodeFour, DecodeTwo, DecodeThree;
  }

  /** `push`, for the bytes of one group. */
  method Store(arr: array<byte>, j: nat, bytes: seq<byte>)
    requires j + |bytes| <= arr.Length
    modifies arr
    ensures arr[..j + |bytes|] == old(arr[..j]) + bytes
  {
    for k := 0 to |bytes|
      invariant arr[..j + k] == old(arr[..j]) + bytes[..k]
    {
      arr[j + k] := bytes[k];
      assert arr[..j + k + 1] == arr[..j + k] + [bytes[k]];
    }
  }

  // ----- Cleaning -----

  function Kept(s: string): string {
    if s == "" then "" else (if Keeps(s[0]) then [s[0]] else "") + Kept(s[1..])
  }

  function Padded(s: string): string
    decreases (4 - |s| % 4) % 4
  {
    if |s| % 4 == 0 then s else Padded(s + "=")
  }

  /** `base64clean`; trimming first changes nothing, white space is not kept anyway. */
  function Clean(s: string): string {
    var kept := Kept(s);
    if |kept| < 2 then "" else Padded(kept)
  }

  // ----- Round trip -----

  lemma ShiftIs(v: nat, k: nat)
    requires k < 32 && v * Pow2(k) < 0x8000_0000
    ensures ShiftLeft(v, k) == v * Pow2(k)
  {
    hide ToInt32, Pow2;
    assert 0 <= v * Pow2(k);
    ToInt32OfInt32(v * Pow2(k));
  }

  lemma OrAdds(a: nat, q: nat, k: nat, b: nat)
    requires k <= 32 && a == q * Pow2(k) && b < Pow2(k) && a < 0x8000_0000 && b < 0x8000_0000
    ensures Or(a, b) == a + b
  {
    hide Pow2, OrBits;
    Powers();
    OrBitsAdds(q, b, k, 32);
  }

  /** On digits, the bit operations of the decoder put the number together again. */
  lemma DecodeFourDigits(v: nat, w: nat, x: nat, y: nat)
    requires v < 64 && w < 64 && x < 64 && y < 64
    ensures var num := v * 0x4_0000 + w * 0x1000 + x * 64 + y;
            DecodeFour(ToDigit(v), ToDigit(w), ToDigit(x), ToDigit(y))
            == [num / 0x1_0000 % 256, num / 0x100 % 256, num % 256]
  {
    hide Value, ToDigit, ShiftLeft, Or, Pow2;
    Powers();
    ValueOfDigit(v); ValueOfDigit(w); ValueOfDigit(x); ValueOfDigit(y);
    ShiftIs(v, 18); ShiftIs(w, 12); ShiftIs(x, 6);
    OrAdds(v * 0x4_0000, v, 18, w * 0x1000);
    OrAdds(v * 0x4_0000 + w * 0x1000, v * 64 + w, 12, x * 64);
    OrAdds(v * 0x4_0000 + w * 0x1000 + x * 64, (v * 64 + w) * 64 + x, 6, y);
  }

  lemma DecodeTwoDigits(v: nat, w: nat)
    requires v < 64 && w < 64
    ensures DecodeTwo(ToDigit(v), ToDigit(w)) == [(v * 4 + w / 16) % 256]
  {
    hide Value, ToDigit, ShiftLeft, Or, Pow2;
    Powers();
    ValueOfDigit(v); ValueOfDigit(w);
    ShiftIs(v, 2);
    OrAdds(v * 4, v, 2, w / 16);
  }

  lemma DecodeThreeDigits(v: nat, w: nat, x: nat)
    requires v < 64 && w < 64 && x < 64
    ensures var num := v * 0x400 + w * 16 + x / 4;
            DecodeThree(ToDigit(v), ToDigit(w), ToDigit(x)) == [num / 0x100 % 256, num % 256]
  {
    hide Value, ToDigit, ShiftLeft, Or, Pow2;
    Powers();
    ValueOfDigit(v); ValueOfDigit(w); ValueOfDigit(x);
    ShiftIs(v, 10); ShiftIs(w, 4);
    OrAdds(v * 0x400, v, 10, w * 16);
    OrAdds(v * 0x400 + w * 16, v * 64 + w, 4, x / 4);
  }

  lemma SixBitDigits(num: nat)
    requires num < 0x100_0000
    ensures num == num / 0x4_0000 % 64 * 0x4_0000 + num / 0x1000 % 64 * 0x1000 + num / 64 % 64 * 64 + num % 64
  {
    var q := num / 64;
    assert num == 64 * q + num % 64;
    var r := q / 64;
    assert q == 64 * r + q % 64 && num / 0x1000 == r;
    assert r == 64 * (r / 64) + r % 64 && num / 0x4_0000 == r / 64;
  }

  lemma LastByte(q: nat, r: byte)
    ensures (256 * q + r) / 256 == q && (256 * q + r) % 256 == r
  {
  }

  lemma BytesOfNumber(a: byte, b: byte, c: byte)
    ensures var num := Number(a, b, c);
            0 <= num < 0x100_0000 && num / 0x1_0000 % 256 == a && num / 0x100 % 256 == b && num % 256 == c
  {
    LastByte(256 * a + b, c);
    LastByte(a, b);
    var rest := 256 * b + c;
    assert 0 <= rest < 0x1_0000 && Number(a, b, c) == 0x1_0000 * a + rest;
    assert Number(a, b, c) / 0x1_0000 == a;
  }

  lemma OneByteDigits(num: nat)
    requires num < 0x100
    ensures (num / 4 * 4 + num * 16 % 64 / 16) % 256 == num
  {
    var q, r := num / 4, num % 4;
    assert num * 16 == 64 * q + 16 * r;
    assert num * 16 % 64 == 16 * r;
    assert num == 4 * q + r && 16 * r / 16 == r;
  }

  lemma TwoByteDigits(num: nat)
    requires num < 0x1_0000
    ensures num / 0x400 * 0x400 + num / 16 % 64 * 16 + num * 4 % 64 / 4 == num
  {
    var q, r := num / 16, num % 16;
    assert num * 4 == 64 * q + 4 * r;
    assert num * 4 % 64 == 4 * r;
    assert q == 64 * (q / 64) + q % 64 && num / 0x400 == q / 64;
  }

  lemma TripletRoundTrip(a: byte, b: byte, c: byte)
    ensures var s := EncodeTriplet(a, b, c); DecodeFour(s[0], s[1], s[2], s[3]) == [a, b, c]
  {
    hide DecodeFour, ToDigit, Number;
    var num := Number(a, b, c);
    BytesOfNumber(a, b, c);
    SixBitDigits(num);
    DecodeFourDigits(num / 0x4_0000 % 64, num / 0x1000 % 64, num / 64 % 64, num % 64);
  }

  lemma OneByteRoundTrip(a: byte)
    ensures var s := EncodeTail([a]);
            |s| == 4 && PlaceHolders(s) == 2 && DecodedText(s, 2) == [a]
  {
    hide DecodeTwo, ToDigit, Number;
    NumberOfOne(a);
    DecodeTwoDigits(a / 4, Number(0, 0, a) * 16 % 64);
    OneByteDigits(a);
  }

  lemma NumberOfOne(a: byte)
    ensures Number(0, 0, a) == a
  {
  }

  lemma TwoByteRoundTrip(a: byte, b: byte)
    ensures var s := EncodeTail([a, b]);
            |s| == 4 && PlaceHolders(s) == 1 && DecodedText(s, 1) == [a, b]
  {
    hide DecodeThree, ToDigit, Number;
    var num := Number(0, a, b);
    BytesOfNumber(0, a, b);
    assert num < 0x1_0000;
    DecodeThreeDigits(num / 0x400, num / 16 % 64, num * 4 % 64);
    NotPadding(num * 4 % 64);
    TwoByteDigits(num);
  }

  lemma TailRoundTrip(tail: seq<byte>)
    requires 0 < |tail| < 3
    ensures var s := EncodeTail(tail);
            && |s| == 4 && PlaceHolders(s) == 3 - |tail|
            && DecodedText(s, 3 - |tail|) == tail
  {
    hide DecodedText, EncodeTail;
    if |tail| == 1 {
      assert tail == [tail[0]];
      OneByteRoundTrip(tail[0]);
    } else {
      assert tail == [tail[0], tail[1]];
      TwoByteRoundTrip(tail[0], tail[1]);
    }
  }

  lemma NotPadding(n: nat)
    requires n < 64
    ensures ToDigit(n) != '='
  {
  }

  lemma TripletHasNoPadding(a: byte, b: byte, c: byte)
    ensures var s := EncodeTriplet(a, b, c); s[2] != '=' && s[3] != '='
  {
    var num := Number(a, b, c);
    NotPadding(num / 64 % 64);
    NotPadding(num % 64);
  }

  lemma PlaceHoldersOfConcat(head: string, rest: string)
    requires |head| == 4 && head[2] != '=' && head[3] != '=' && |rest| % 4 == 0
    ensures PlaceHolders(head + rest) == PlaceHolders(rest)
  {
    var s := head + rest;
    if rest == "" {
      assert s == head;
    } else {
      assert s[|s| - 1] == rest[|rest| - 1] && s[|s| - 2] == rest[|rest| - 2];
    }
  }

  lemma DecodeConcat(head: string, rest: string, holes: nat)
    requires |head| == 4 && |rest| % 4 == 0 && holes <= 2 && (holes > 0 ==> rest != "")
    ensures DecodedText(head + rest, holes) == DecodeFour(head[0], head[1], head[2], head[3]) + DecodedText(rest, holes)
  {
    hide DecodeFour, DecodeTwo, DecodeThree;
    assert (head + rest)[4..] == rest;
  }

  /** Decoding inverts encoding, for every byte sequence. */
  lemma {:induction false} DecodeInverts(b: seq<byte>)
    ensures var s := Encoded(b);
            && |s| % 4 == 0 && PlaceHolders(s) == Padding(|b|)
            && (PlaceHolders(s) > 0 ==> s != "")
            && DecodedText(s, PlaceHolders(s)) == b
    decreases |b|
  {
    hide EncodeTriplet, EncodeTail, DecodeFour, DecodedText, PlaceHolders, Encoded, Padding;
    EncodedUnfolds(b);
    if b == [] {
      NoTail();
      PaddingOfTail(b);
    } else if |b| < 3 {
      TailRoundTrip(b);
      PaddingOfTail(b);
    } else {
      DecodeInverts(b[3..]);
      PaddingRepeats(|b| - 3);
      var head, rest := EncodeTriplet(b[0], b[1], b[2]), Encoded(b[3..]);
      TripletRoundTrip(b[0], b[1], b[2]);
      TripletHasNoPadding(b[0], b[1], b[2]);
      PlaceHoldersOfConcat(head, rest);
      DecodeConcat(head, rest, PlaceHolders(rest));
      assert b == [b[0], b[1], b[2]] + b[3..];
    }
  }

  lemma NoTail()
    ensures EncodeTail([]) == "" && PlaceHolders("") == 0 && DecodedText("", 0) == []
  {
  }

  lemma {:induction false} KeptConcat(a: string, b: string)
    ensures Kept(a + b) == Kept(a) + Kept(b)
  {
    if a == "" {
      assert a + b == b;
    } else {
      assert (a + b)[0] == a[0] && (a + b)[1..] == a[1..] + b;
      KeptConcat(a[1..], b);
      var here: string := if Keeps(a[0]) then [a[0]] else "";
      assert Kept(a) == here + Kept(a[1..]) && Kept(a + b) == here + Kept(a[1..] + b);
    }
  }

  lemma {:induction false} KeptAll(s: string)
    requires forall c | c in s :: Keeps(c)
    ensures Kept(s) == s
  {
    if s != "" {
      KeptAll(s[1..]);
    }
  }

  lemma TailIsKept(tail: seq<byte>)
    requires |tail| < 3
    ensures var s := EncodeTail(tail);
            && (tail == [] ==> s == "")
            && (tail != [] ==> |s| == 4 && Kept(s) == s[..1 + |tail|] && s == s[..1 + |tail|] + Holes(3 - |tail|))
  {
    hide ToDigit, Keeps;
    if |tail| == 1 {
      var num := Number(0, 0, tail[0]);
      var head := [ToDigit(num / 4), ToDigit(num * 16 % 64)];
      ValueOfDigit(num / 4); ValueOfDigit(num * 16 % 64);
      assert EncodeTail(tail) == head + "==" && Holes(2) == "==";
      KeptConcat(head, "==");
      KeptAll(head);
      NoHolesKept();
    } else if |tail| == 2 {
      var num := Number(0, tail[0], tail[1]);
      var head := [ToDigit(num / 0x400), ToDigit(num / 16 % 64), ToDigit(num * 4 % 64)];
      ValueOfDigit(num / 0x400); ValueOfDigit(num / 16 % 64); ValueOfDigit(num * 4 % 64);
      assert EncodeTail(tail) == head + "=" && Holes(1) == "=";
      KeptConcat(head, "=");
      KeptAll(head);
      NoHolesKept();
    }
  }

  function Holes(n: nat): string {
    if n == 0 then "" else "=" + Holes(n - 1)
  }

  lemma NoHolesKept()
    ensures Kept("=") == "" && Kept("==") == ""
  {
    assert "=="[1..] == "=" && "="[1..] == "";
  }

  lemma TripletIsKept(a: byte, b: byte, c: byte)
    ensures Kept(EncodeTriplet(a, b, c)) == EncodeTriplet(a, b, c)
  {
    hide ToDigit, Keeps, Kept;
    var num := Number(a, b, c);
    ValueOfDigit(num / 0x4_0000 % 64); ValueOfDigit(num / 0x1000 % 64);
    ValueOfDigit(num / 64 % 64); ValueOfDigit(num % 64);
    KeptAll(EncodeTriplet(a, b, c));
  }

  /** Cleaning strips the padding and restores it. */
  lemma {:induction false} KeptLosesPadding(b: seq<byte>)
    ensures var s, k := Encoded(b), Kept(Encoded(b));
            && s == k + Holes(Padding(|b|))
            && |s| % 4 == 0 && (b != [] ==> |k| >= 2)
    decreases |b|
  {
    hide EncodeTriplet, EncodeTail, Kept, Encoded, Holes, Padding;
    EncodedUnfolds(b);
    if |b| < 3 {
      TailIsKept(b);
      PaddingOfTail(b);
      if b == [] {
        NothingKept();
      }
    } else {
      var head, rest, holes := EncodeTriplet(b[0], b[1], b[2]), Encoded(b[3..]), Holes(Padding(|b|));
      KeptLosesPadding(b[3..]);
      PaddingRepeats(|b| - 3);
      KeptConcat(head, rest);
      TripletIsKept(b[0], b[1], b[2]);
      assert head + (Kept(rest) + holes) == head + Kept(rest) + holes;
    }
  }

  lemma PaddingOfTail(tail: seq<byte>)
    requires |tail| < 3
    ensures Padding(|tail|) == if tail == [] then 0 else 3 - |tail|
    ensures Holes(0) == ""
  {
  }

  lemma NothingKept()
    ensures Kept("") == ""
  {
  }

  lemma HolesLength(n: nat)
    ensures |Holes(n)| == n
  {
  }

  lemma PadStep(k: string)
    ensures Padded(k) == if |k| % 4 == 0 then k else Padded(k + "=")
  {
  }

  lemma PaddedRestores(k: string, n: nat, groups: nat)
    requires n <= 2 && |k| + n == 4 * groups
    ensures Padded(k) == k + Holes(n)
    decreases n
  {
    hide Padded;
    PadStep(k);
    if n == 0 {
      assert k + "" == k;
    } else {
      PaddedRestores(k + "=", n - 1, groups);
      assert k + "=" + Holes(n - 1) == k + ("=" + Holes(n - 1));
    }
  }

  /**
   `base64ToBytes` of any text whose kept characters are those of an encoded byte sequence, with
   or without its padding, gives the bytes back.
   */
  lemma CleanedRoundTrip(s: string, b: seq<byte>)
    requires Kept(s) == Kept(Encoded(b))
    ensures Clean(s) == Encoded(b) && Decoded(Clean(s)) == Ok(b)
  {
    hide Encoded, Kept, DecodedText, PlaceHolders, Padding, Holes;
    KeptLosesPadding(b);
    DecodeInverts(b);
    if b == [] {
      NothingKept();
      PaddingOfTail(b);
    } else {
      HolesLength(Padding(|b|));
      PaddedRestores(Kept(Encoded(b)), Padding(|b|), |Encoded(b)| / 4);
    }
  }

  // ----- The text, character by character (section 4 of RFC 4648) -----

  lemma BitsOfThree(a: byte, b: byte, c: byte)
    ensures var num := Number(a, b, c);
            && num / 0x4_0000 % 64 == a / 4 && num / 0x1000 % 64 == a % 4 * 16 + b / 16
            && num / 64 % 64 == b % 16 * 4 + c / 64 && num % 64 == c % 64
  {
    var q1 := a / 4;
    var q2 := 64 * q1 + (a % 4 * 16 + b / 16);
    var q3 := 64 * q2 + (b % 16 * 4 + c / 64);
    var num := Number(a, b, c);
    LastSix(q1, a % 4 * 16 + b / 16);
    LastSix(q2, b % 16 * 4 + c / 64);
    LastSix(q3, c % 64);
    assert num == 64 * q3 + c % 64;
    assert num / 64 == q3;
    assert num / 0x1000 == q3 / 64 && num / 0x4_0000 == q2 / 64;
  }

  lemma LastSix(q: nat, r: nat)
    requires r < 64
    ensures (64 * q + r) / 64 == q && (64 * q + r) % 64 == r
  {
  }

  /** Six bits a character, the first bits first. */
  lemma TripletLayout(a: byte, b: byte, c: byte)
    ensures EncodeTriplet(a, b, c)
            == [ToDigit(a / 4), ToDigit(a % 4 * 16 + b / 16), ToDigit(b % 16 * 4 + c / 64), ToDigit(c % 64)]
  {
    hide ToDigit, Number;
    BitsOfThree(a, b, c);
  }

  lemma BitsOfOne(a: byte)
    ensures a * 16 % 64 == a % 4 * 16
  {
    assert a == 4 * (a / 4) + a % 4;
    assert a * 16 == 64 * (a / 4) + 16 * (a % 4);
    LastSix(a / 4, 16 * (a % 4));
  }

  lemma BitsOfTwo(a: byte, b: byte)
    ensures var num := Number(0, a, b);
            && 0 <= num < 0x1_0000
            && num / 0x400 == a / 4 && num / 16 % 64 == a % 4 * 16 + b / 16 && num * 4 % 64 == b % 16 * 4
  {
    var ah, al, bh, bl := a / 4, a % 4, b / 16, b % 16;
    assert a == 4 * ah + al && b == 16 * bh + bl;
    var num, q := Number(0, a, b), 64 * ah + (16 * al + bh);
    assert num == 16 * q + bl;
    assert num / 16 == q;
    LastSix(ah, 16 * al + bh);
    assert num / 0x400 == num / 16 / 64;
    assert num * 4 == 64 * q + 4 * bl;
    LastSix(q, 4 * bl);
  }

  /** The bits left over are filled up with zeros, the group with `=`. */
  lemma TailLayout(a: byte, b: byte)
    ensures EncodeTail([a]) == [ToDigit(a / 4), ToDigit(a % 4 * 16), '=', '=']
    ensures EncodeTail([a, b]) == [ToDigit(a / 4), ToDigit(a % 4 * 16 + b / 16), ToDigit(b % 16 * 4), '=']
  {
    hide ToDigit, Number;
    NumberOfOne(a);
    BitsOfOne(a);
    BitsOfTwo(a, b);
  }

  // ----- The URL-safe alphabet (section 5 of RFC 4648) -----

  function UrlDigit(c: char): char {
    if c == '+' then '-' else if c == '/' then '_' else c
  }

  function UrlSafe(s: string): (r: string)
    ensures |r| == |s| && forall i | 0 <= i < |s| :: r[i] == UrlDigit(s[i])
  {
    seq(|s|, i requires 0 <= i < |s| => UrlDigit(s[i]))
  }

  lemma UrlDigitIs(c: char)
    ensures Value(UrlDigit(c)) == Value(c) && Keeps(UrlDigit(c)) == Keeps(c) && (UrlDigit(c) == '=' <==> c == '=')
  {
  }

  lemma {:induction false} UrlSafeText(s: string, holes: nat)
    ensures DecodedText(UrlSafe(s), holes) == DecodedText(s, holes)
    decreases |s|
  {
    hide Value, UrlDigit, Or, ShiftLeft;
    if |s| >= 4 {
      UrlDigitIs(s[0]); UrlDigitIs(s[1]); UrlDigitIs(s[2]); UrlDigitIs(s[3]);
      assert UrlSafe(s)[4..] == UrlSafe(s[4..]);
      UrlSafeText(s[4..], holes);
    }
  }

  lemma {:induction false} UrlSafeKept(s: string)
    ensures Kept(UrlSafe(s)) == UrlSafe(Kept(s))
  {
    hide Keeps, UrlDigit;
    if s == "" {
      assert UrlSafe("") == "";
    } else {
      UrlDigitIs(s[0]);
      UrlSafeKept(s[1..]);
      assert UrlSafe(s)[0] == UrlDigit(s[0]) && UrlSafe(s)[1..] == UrlSafe(s[1..]);
      var here: string := if Keeps(s[0]) then [s[0]] else "";
      assert UrlSafe(here + Kept(s[1..])) == UrlSafe(here) + UrlSafe(Kept(s[1..]));
    }
  }

  /** The URL-safe text of a byte sequence decodes like the standard one, and cleaning keeps its digits. */
  lemma UrlSafeDecodes(b: seq<byte>)
    ensures Decoded(UrlSafe(Encoded(b))) == Ok(b)
    ensures Kept(UrlSafe(Encoded(b))) == UrlSafe(Kept(Encoded(b)))
  {
    hide DecodedText, Encoded, Kept, Padding;
    var s := Encoded(b);
    DecodeInverts(b);
    UrlSafeKept(s);
    UrlSafeText(s, PlaceHolders(s));
    if |s| >= 2 {
      UrlDigitIs(s[|s| - 2]);
      UrlDigitIs(s[|s| - 1]);
    }
  }
}
