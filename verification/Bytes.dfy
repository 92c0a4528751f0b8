/** Octets, big-endian integers and the bitwise operations the wire formats need. */
module Bytes {
  import opened Numbers

  type byte = b: int | 0 <= b < 256

  lemma Pow2Of8()
    ensures Pow2(8) == 256
  {
    assert Pow2(8) == 16 * Pow2(4);
    assert Pow2(4) == 16 * Pow2(0);
  }

  /** Bitwise exclusive or of the low `n` bits. */
  function XorBits(a: nat, b: nat, n: nat): (r: nat)
    ensures r < Pow2(n)
  {
    if n == 0 then 0 else (a + b) % 2 + 2 * XorBits(a / 2, b / 2, n - 1)
  }

  function Xor(a: byte, b: byte): byte {
    Pow2Of8();
    XorBits(a, b, 8)
  }

  lemma XorBitsHalves(a: nat, b: nat, n: nat)
    requires n > 0
    ensures var r := XorBits(a, b, n);
            r % 2 == (a + b) % 2 && r / 2 == XorBits(a / 2, b / 2, n - 1)
  {
  }

  lemma XorBitsNone(a: nat, b: nat)
    ensures XorBits(a, b, 0) == 0
  {
  }

  lemma LowBitCancels(a: nat, b: nat)
    ensures ((a + b) % 2 + b) % 2 == a % 2
  {
  }

  lemma HalfBelow(a: nat, n: nat)
    ensures Pow2(0) == 1
    ensures n > 0 && a < Pow2(n) ==> a / 2 < Pow2(n - 1)
  {
  }

  lemma {:induction false} XorBitsCancels(a: nat, b: nat, n: nat)
    requires a < Pow2(n)
    ensures XorBits(XorBits(a, b, n), b, n) == a
  {
    hide XorBits, Pow2;
    HalfBelow(a, n);
    if n > 0 {
      var r := XorBits(a, b, n);
      XorBitsHalves(a, b, n);
      XorBitsHalves(r, b, n);
      XorBitsCancels(a / 2, b / 2, n - 1);
      LowBitCancels(a, b);
    } else {
      XorBitsNone(a, b);
    }
  }

  lemma {:induction false} XorBitsZero(a: nat, n: nat)
    requires a < Pow2(n)
    ensures XorBits(a, 0, n) == a
  {
    if n > 0 {
      XorBitsZero(a / 2, n - 1);
    }
  }

  /** Xor with a fixed octet is an involution. */
  lemma XorCancels(a: byte, b: byte)
    ensures Xor(Xor(a, b), b) == a
  {
    Pow2Of8();
    XorBitsCancels(a, b, 8);
  }

  lemma XorZero(a: byte)
    ensures Xor(a, 0) == a
  {
    Pow2Of8();
    XorBitsZero(a, 8);
  }

  lemma {:induction false} XorBitsFixes(a: nat, b: nat, n: nat)
    requires a < Pow2(n) && b < Pow2(n) && XorBits(a, b, n) == a
    ensures b == 0
  {
    if n > 0 {
      XorBitsFixes(a / 2, b / 2, n - 1);
    }
  }

  /** Only the zero octet leaves a value unchanged under Xor. */
  lemma XorFixes(a: byte, b: byte)
    ensures Xor(a, b) == a <==> b == 0
  {
    Pow2Of8();
    if Xor(a, b) == a {
      XorBitsFixes(a, b, 8);
    }
    XorZero(a);
  }

  /** Bit `i` of a number, the lowest one first. */
  predicate Bit(x: nat, i: nat) {
    if i == 0 then x % 2 == 1 else Bit(x / 2, i - 1)
  }

  /** A number is determined by its bits. */
  lemma {:induction false} BitsDetermine(a: nat, b: nat, n: nat)
    requires a < Pow2(n) && b < Pow2(n) && forall i | 0 <= i < n :: Bit(a, i) == Bit(b, i)
    ensures a == b
  {
    hide Pow2;
    HalfBelow(a, n);
    HalfBelow(b, n);
    if n > 0 {
      forall i | 0 <= i < n - 1 ensures Bit(a / 2, i) == Bit(b / 2, i) {
        assert Bit(a, i + 1) == Bit(b, i + 1);
      }
      BitsDetermine(a / 2, b / 2, n - 1);
      assert Bit(a, 0) == Bit(b, 0);
    }
  }

  lemma {:induction false} XorBitsBit(a: nat, b: nat, n: nat, i: nat)
    requires i < n
    ensures Bit(XorBits(a, b, n), i) <==> Bit(a, i) != Bit(b, i)
  {
    hide XorBits, Pow2;
    XorBitsHalves(a, b, n);
    if i > 0 {
      XorBitsBit(a / 2, b / 2, n - 1, i - 1);
    }
  }

  /** Each bit of the result is set exactly when it is set in one of the two octets. */
  lemma XorBit(a: byte, b: byte, i: nat)
    requires i < 8
    ensures Bit(Xor(a, b), i) <==> Bit(a, i) != Bit(b, i)
  {
    XorBitsBit(a, b, 8, i);
  }

  /** The unsigned integer a big-endian octet string denotes. */
  function FromBigEndian(s: seq<byte>): nat {
    if s == [] then 0 else FromBigEndian(s[..|s| - 1]) * 256 + s[|s| - 1]
  }

  /** The `n` low octets of `v`, most significant first. */
  function ToBigEndian(v: nat, n: nat): (s: seq<byte>)
    ensures |s| == n
  {
    if n == 0 then [] else ToBigEndian(v / 256, n - 1) + [v % 256]
  }

  function Pow256(n: nat): nat {
    if n == 0 then 1 else 256 * Pow256(n - 1)
  }

  lemma FromBigEndianAppend(s: seq<byte>, b: byte)
    ensures FromBigEndian(s + [b]) == FromBigEndian(s) * 256 + b
  {
    assert (s + [b])[..|s|] == s;
  }

  lemma {:induction false} BigEndianRoundTrip(v: nat, n: nat)
    requires v < Pow256(n)
    ensures FromBigEndian(ToBigEndian(v, n)) == v
  {
    hide FromBigEndian;
    if n > 0 {
      BigEndianRoundTrip(v / 256, n - 1);
      FromBigEndianAppend(ToBigEndian(v / 256, n - 1), v % 256);
    } else {
      NothingIsZero();
    }
  }

  lemma LastOctet(v: nat, b: byte)
    ensures (v * 256 + b) / 256 == v && (v * 256 + b) % 256 == b
  {
  }

  /** Writing as many octets as were read gives them back. */
  lemma {:induction false} BigEndianOctets(s: seq<byte>)
    ensures ToBigEndian(FromBigEndian(s), |s|) == s
  {
    if s != [] {
      hide FromBigEndian;
      var front, last := s[..|s| - 1], s[|s| - 1];
      assert s == front + [last];
      FromBigEndianAppend(front, last);
      BigEndianOctets(front);
      LastOctet(FromBigEndian(front), last);
    }
  }

  /** The first octet is the most significant one. */
  lemma BigEndianValues(s: seq<byte>)
    ensures |s| == 2 ==> FromBigEndian(s) == s[0] as int * 0x100 + s[1]
    ensures |s| == 4 ==> FromBigEndian(s) == s[0] as int * 0x100_0000 + s[1] as int * 0x1_0000 + s[2] as int * 0x100 + s[3]
    ensures |s| == 8 ==>
              FromBigEndian(s)
              == s[0] as int * 0x100_0000_0000_0000 + s[1] as int * 0x1_0000_0000_0000 + s[2] as int * 0x100_0000_0000 + s[3] as int * 0x1_0000_0000
                 + s[4] as int * 0x100_0000 + s[5] as int * 0x1_0000 + s[6] as int * 0x100 + s[7]
  {
    hide FromBigEndian;
    NothingIsZero();
    assert s[..|s|] == s;
    if |s| == 2 || |s| == 4 || |s| == 8 {
      BigEndianStep(s, 0);
      BigEndianStep(s, 1);
    }
    if |s| == 4 || |s| == 8 {
      BigEndianStep(s, 2);
      BigEndianStep(s, 3);
    }
    if |s| == 8 {
      BigEndianStep(s, 4);
      BigEndianStep(s, 5);
      BigEndianStep(s, 6);
      BigEndianStep(s, 7);
    }
  }

  lemma BigEndianStep(s: seq<byte>, k: nat)
    requires k < |s|
    ensures FromBigEndian(s[..k + 1]) == FromBigEndian(s[..k]) * 0x100 + s[k]
  {
    FromBigEndianAppend(s[..k], s[k]);
    assert s[..k + 1] == s[..k] + [s[k]];
  }

  lemma NothingIsZero()
    ensures FromBigEndian([]) == 0
  {
  }

  lemma Pow256Values()
    ensures Pow256(2) == 0x1_0000
    ensures Pow256(4) == 0x1_0000_0000
    ensures Pow256(8) == 0x1_0000_0000_0000_0000
  {
    assert Pow256(2) == 256 * Pow256(1);
    assert Pow256(4) == 256 * (256 * Pow256(2));
    assert Pow256(6) == 256 * (256 * Pow256(4));
    assert Pow256(8) == 256 * (256 * Pow256(6));
  }
}
