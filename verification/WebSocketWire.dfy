/**
 What the parser makes of a byte stream, octet by octet and bit by bit, as section 5.2 of
 RFC 6455 lays a frame out (src/tabstractwebsocket.cpp:190-304).
 */
module WebSocketWire {
  import opened Bytes
  import opened WebSocketFrame
  import opened WebSocketQueue
  import opened WebSocketParser
  import opened WebSocketStream
  import opened WebSocketDecoding

  // ----- The layout of a header -----

  /** Where the length field ends. */
  function LengthEnd(s: seq<byte>): nat
    requires |s| >= 2
  {
    if s[1] % 0x80 == 126 then 4 else if s[1] % 0x80 == 127 then 10 else 2
  }

  function DeclaredLength(s: seq<byte>): nat
    requires |s| >= 2 && |s| >= LengthEnd(s)
  {
    if s[1] % 0x80 == 126 then s[2] as int * 0x100 + s[3]
    else if s[1] % 0x80 == 127 then
      s[2] as int * 0x100_0000_0000_0000 + s[3] as int * 0x1_0000_0000_0000 + s[4] as int * 0x100_0000_0000 + s[5] as int * 0x1_0000_0000
      + s[6] as int * 0x100_0000 + s[7] as int * 0x1_0000 + s[8] as int * 0x100 + s[9]
    else s[1] % 0x80
  }

  /** Where the payload starts: the top bit of the second octet announces four octets of key. */
  function PayloadStart(s: seq<byte>): nat
    requires |s| >= 2
  {
    LengthEnd(s) + if s[1] >= 0x80 then 4 else 0
  }

  datatype Layout =
    | TooShort
    | NotMinimal
    | Oversized
    | Payload(start: nat, length: nat)

  function LayoutOf(s: seq<byte>): Layout {
    if |s| < 2 || |s| < LengthEnd(s) then TooShort
    else
      var length := DeclaredLength(s);
      if (s[1] % 0x80 == 126 && length < 126) || (s[1] % 0x80 == 127 && length < 0x1_0000) then NotMinimal
      else if |s| < PayloadStart(s) then TooShort
      else if length >= 0x8000_0000 then Oversized
      else Payload(PayloadStart(s), length)
  }

  /** The key as it stands on the wire, before the payload. */
  function KeyOctets(s: seq<byte>, start: nat): seq<byte>
    requires 4 <= start <= |s|
  {
    s[start - 4..start]
  }

  /** Reading a header is reading that layout. */
  lemma HeaderOctets(s: seq<byte>)
    ensures match LayoutOf(s)
            case TooShort => ReadHeader(FRESH, s).Incomplete?
            case NotMinimal => ReadHeader(FRESH, s).ProtocolError?
            case Oversized => ReadHeader(FRESH, s) == Header(Frame(0x80, 0, 0, [], Empty, false), PayloadStart(s))
            case Payload(start, length) =>
              var key := if s[1] >= 0x80 then FromBigEndian(KeyOctets(s, start)) else 0;
              ReadHeader(FRESH, s)
              == Header(Frame(s[0], key, length, [], if length == 0 then Completed else HeaderParsed, false), start)
  {
    hide FromBigEndian;
    if |s| >= 4 { BigEndianValues(s[2..4]); }
    if |s| >= 10 { BigEndianValues(s[2..10]); }
  }

  // ----- The payload -----

  /** Bit `b` of the payload octet `k` places behind the header, with the key repeated under it. */
  predicate UnmaskedBit(key: seq<byte>, octet: byte, k: nat, b: nat) {
    Bit(octet, b) != (|key| == 4 && Bit(key[k % 4], b))
  }

  lemma MaskedBits(key: seq<byte>, offset: nat, data: seq<byte>, i: nat, b: nat)
    requires |key| == 4 && i < |data| && b < 8
    ensures Bit(Masked(FromBigEndian(key), offset, data)[i], b) <==> UnmaskedBit(key, data[i], offset + i, b)
  {
    hide Bit, Xor;
    BigEndianOctets(key);
    XorBit(data[i], key[(offset + i) % 4], b);
  }

  /**
   The loop over the buffer, in bits: an octet of the buffer comes out with exactly those bits
   flipped that are set in the octet of the key its place in the payload meets.
   */
  lemma AbsorbedBits(f: Frame, key: seq<byte>, data: seq<byte>, i: nat, b: nat)
    requires |key| == 4 ==> f.maskKey == FromBigEndian(key)
    requires |key| != 4 ==> f.maskKey == 0
    requires i < |data| && b < 8
    ensures var k := |f.payload| + i;
            && |Absorb(f, data).payload| == |f.payload| + |data|
            && Absorb(f, data).payload[..|f.payload|] == f.payload
            && (Bit(Absorb(f, data).payload[k], b) <==> UnmaskedBit(key, data[i], k, b))
  {
    hide Bit, Masked, MaskOctets;
    if |key| == 4 {
      MaskedBits(key, |f.payload|, data, i, b);
      if f.maskKey == 0 {
        MaskedWithZeroKey(|f.payload|, data);
      }
    }
  }

  // ----- The stream -----

  /** Bit `b` of the payload octet `i` that was sent: the octet on the wire under the key before the payload. */
  predicate SentBit(s: seq<byte>, start: nat, i: nat, b: nat)
    requires |s| >= 2 && start + i < |s| && (s[1] >= 0x80 ==> start >= 4)
  {
    Bit(s[start + i], b) != (s[1] >= 0x80 && Bit(s[start - 4 + i % 4], b))
  }

  /**
   The first frame of a stream and what is left after it, from the octets alone: the first
   octet, the length in its three forms, and the payload with the octets of the key that stands
   before it; a length that is not minimal is an error, and a header that announces 2^31 octets
   or more is passed over.
   */
  lemma FirstFrameOnTheWire(s: seq<byte>)
    ensures match LayoutOf(s)
            case TooShort => Packets(s) == [] && EndingOf(s) == EndsAt(s)
            case NotMinimal => Packets(s) == [] && EndingOf(s) == BadLength
            case Oversized => Packets(s) == Packets(s[PayloadStart(s)..]) && EndingOf(s) == EndingOf(s[PayloadStart(s)..])
            case Payload(start, length) =>
              if |s| < start + length then Packets(s) == [] && EndingOf(s) == EndsAt([])
              else
                && Packets(s) != [] && Packets(s)[1..] == Packets(s[start + length..])
                && EndingOf(s) == EndingOf(s[start + length..])
                && var f := Packets(s)[0];
                && f.firstByte == s[0] && f.payloadLength == length == |f.payload| && f.state == Completed
                && forall i, b | 0 <= i < length && 0 <= b < 8 ::
                     Bit(f.payload[i], b) <==> SentBit(s, start, i, b)
  {
    hide ReadHeader, Masked, FromBigEndian, DeclaredLength, Bit, NextPacket;
    NextOnTheWire(s);
    match LayoutOf(s) {
      case Payload(start, length) =>
        if |s| >= start + length {
          FirstPayloadBits(s, start, length);
        }
      case _ =>
    }
  }

  lemma NextOnTheWire(s: seq<byte>)
    ensures match LayoutOf(s)
            case TooShort => NextPacket(s) == Stop(EndsAt(s))
            case NotMinimal => NextPacket(s) == Stop(BadLength)
            case Oversized => NextPacket(s) == PassOver(s[PayloadStart(s)..])
            case Payload(start, length) =>
              if |s| < start + length then NextPacket(s) == Stop(EndsAt([]))
              else
                var key := if s[1] >= 0x80 then FromBigEndian(KeyOctets(s, start)) else 0;
                NextPacket(s)
                == Whole(Frame(s[0], key, length, Masked(key, 0, s[start..start + length]), Completed, false), s[start + length..])
  {
    hide ReadHeader, Masked, FromBigEndian, DeclaredLength;
    HeaderOctets(s);
  }

  lemma FirstPayloadBits(s: seq<byte>, start: nat, length: nat)
    requires |s| >= 2 && start == PayloadStart(s) && start + length <= |s|
    ensures var key := if s[1] >= 0x80 then FromBigEndian(KeyOctets(s, start)) else 0;
            var payload := Masked(key, 0, s[start..start + length]);
            forall i, b | 0 <= i < length && 0 <= b < 8 ::
              Bit(payload[i], b) <==> SentBit(s, start, i, b)
  {
    hide Bit, Masked, FromBigEndian;
    var data := s[start..start + length];
    forall i, b | 0 <= i < length && 0 <= b < 8
      ensures var key := if s[1] >= 0x80 then FromBigEndian(KeyOctets(s, start)) else 0;
              Bit(Masked(key, 0, data)[i], b) <==> SentBit(s, start, i, b)
    {
      if s[1] >= 0x80 {
        MaskedBits(KeyOctets(s, start), 0, data, i, b);
      } else {
        MaskedWithZeroKey(0, data);
      }
    }
  }
}
