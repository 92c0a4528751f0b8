/**
 The WebSocket frame record, its validation and its wire form
 (src/twebsocketframe.cpp, src/twebsocketframe.h; section 5.2 of RFC 6455).
 */
module WebSocketFrame {
  import opened Bytes

  datatype State = Empty | HeaderParsed | MoreData | Completed

  datatype Frame = Frame(
    firstByte: byte,
    maskKey: nat,
    payloadLength: nat,
    payload: seq<byte>,
    state: State,
    valid: bool)
  {
    predicate FinBit() { firstByte >= 0x80 }
    predicate ReservedBitsClear() { firstByte / 16 % 8 == 0 }
    function OpCode(): nat { firstByte % 16 }
    predicate IsControl() { OpCode() / 8 == 1 }
    predicate IsContinuation() { OpCode() == 0 }
  }

  /** Frames of this many payload octets or more are dropped by the parser. */
  const TOO_BIG: nat := 0x8000_0000

  /** What the default constructor builds and what `clear` resets a frame to. */
  const FRESH: Frame := Frame(0x80, 0, 0, [], Empty, false)

  /** The verdict of `validate`. */
  predicate Validates(f: Frame) {
    && f.state == Completed
    && f.ReservedBitsClear()
    && (f.OpCode() <= 2 || 8 <= f.OpCode() <= 10)
    && (f.IsControl() ==> f.payloadLength <= 125 && f.FinBit())
  }

  /** The first octets sections 5.2 and 5.5 of RFC 6455 allow, reserved bits and opcodes unused. */
  lemma ValidFirstOctets(f: Frame)
    requires f.state == Completed
    ensures Validates(f) <==>
              || f.firstByte in {0x00, 0x01, 0x02, 0x80, 0x81, 0x82}
              || (f.firstByte in {0x88, 0x89, 0x8A} && f.payloadLength <= 125)
  {
    var high, low := f.firstByte / 16, f.firstByte % 16;
    assert f.firstByte == 16 * high + low;
    assert f.FinBit() <==> high >= 8;
    assert f.ReservedBitsClear() <==> high == 0 || high == 8;
  }

  // ----- Masking (section 5.3 of RFC 6455) -----

  function MaskOctets(key: nat): (m: seq<byte>)
    ensures |m| == 4
  {
    ToBigEndian(key, 4)
  }

  /** Octet i of the data is combined with octet (offset + i) mod 4 of the key. */
  function Masked(key: nat, offset: nat, data: seq<byte>): (r: seq<byte>)
    ensures |r| == |data|
  {
    seq(|data|, i requires 0 <= i < |data| => Xor(data[i], MaskOctets(key)[(offset + i) % 4]))
  }

  lemma MaskedTwice(key: nat, offset: nat, data: seq<byte>)
    ensures Masked(key, offset, Masked(key, offset, data)) == data
  {
    forall i | 0 <= i < |data| ensures Masked(key, offset, Masked(key, offset, data))[i] == data[i] {
      XorCancels(data[i], MaskOctets(key)[(offset + i) % 4]);
    }
  }

  lemma MaskOctetsOfZero()
    ensures MaskOctets(0) == [0, 0, 0, 0]
  {
    assert ToBigEndian(0, 4) == ToBigEndian(0, 3) + [0];
    assert ToBigEndian(0, 3) == ToBigEndian(0, 2) + [0];
    assert ToBigEndian(0, 2) == ToBigEndian(0, 1) + [0];
    assert ToBigEndian(0, 1) == ToBigEndian(0, 0) + [0];
  }

  /** Masking with the zero key changes nothing, so skipping it is harmless. */
  lemma MaskedWithZeroKey(offset: nat, data: seq<byte>)
    ensures Masked(0, offset, data) == data
  {
    MaskOctetsOfZero();
    forall i | 0 <= i < |data| ensures Masked(0, offset, data)[i] == data[i] {
      XorZero(data[i]);
    }
  }

  /** Masking chunk by chunk, each chunk at its own offset, masks the whole. */
  lemma MaskedConcat(key: nat, offset: nat, a: seq<byte>, b: seq<byte>)
    ensures Masked(key, offset, a + b) == Masked(key, offset, a) + Masked(key, offset + |a|, b)
  {
  }

  // ----- Wire form -----

  /** A frame as a peer means to send it. */
  datatype Packet = Packet(firstByte: byte, maskKey: nat, masked: bool, payload: seq<byte>) {
    ghost predicate Encodable() {
      && |payload| < TOO_BIG
      && maskKey < 0x1_0000_0000
      && (!masked ==> maskKey == 0)
    }

    /** The completed frame a receiver should hold for this packet. */
    function Received(): Frame {
      Frame(firstByte, maskKey, |payload|, payload, Completed, false)
    }
  }

  /** The minimal length form of section 5.2 of RFC 6455, with the mask bit. */
  function LengthField(n: nat, masked: bool): seq<byte>
    requires n < TOO_BIG
  {
    var maskBit := if masked then 0x80 else 0;
    if n <= 125 then [maskBit + n]
    else if n <= 0xFFFF then [maskBit + 126] + ToBigEndian(n, 2)
    else [maskBit + 127] + ToBigEndian(n, 8)
  }

  function MaskField(p: Packet): seq<byte> {
    if p.masked then ToBigEndian(p.maskKey, 4) else []
  }

  function HeaderBytes(p: Packet): seq<byte>
    requires p.Encodable()
  {
    [p.firstByte] + LengthField(|p.payload|, p.masked) + MaskField(p)
  }

  function Encode(p: Packet): seq<byte>
    requires p.Encodable()
  {
    HeaderBytes(p) + Masked(p.maskKey, 0, p.payload)
  }

  function EncodeAll(ps: seq<Packet>): seq<byte>
    requires forall p | p in ps :: p.Encodable()
  {
    if ps == [] then [] else Encode(ps[0]) + EncodeAll(ps[1..])
  }

  /**
   What `toByteArray` writes: FIN is always set, a continuation opcode becomes text,
   the mask bit and key follow a non-zero key, and the payload is written as it is.
   */
  function ToByteArray(f: Frame): seq<byte>
    requires |f.payload| < TOO_BIG
  {
    var fin := if f.FinBit() then f.firstByte else f.firstByte + 0x80;
    var first := if f.OpCode() == 0 then fin + 1 else fin;
    var maskField := if f.maskKey != 0 then ToBigEndian(f.maskKey, 4) else [];
    [first] + LengthField(|f.payload|, f.maskKey != 0) + maskField + f.payload
  }
}
