/**
 The parser against a sequential decoder: the list it builds is the queue discipline applied
 to the frames in wire order, and those frames are the ones that were encoded
 (src/tabstractwebsocket.cpp:190-354, section 5.2 of RFC 6455).
 */
module WebSocketDecoding {
  import opened Bytes
  import opened WebSocketFrame
  import opened WebSocketQueue
  import opened WebSocketParser
  import opened WebSocketStream

  /** How a stream ends for the sequential decoder: what it leaves unread, or a length it rejects. */
  datatype Ending = EndsAt(rest: seq<byte>) | BadLength

  datatype Next = Stop(ending: Ending) | PassOver(rest: seq<byte>) | Whole(frame: Frame, rest: seq<byte>)

  /**
   One whole frame from the front of a stream; the header of an oversized frame is passed over
   and its payload taken for what follows.
   */
  function NextPacket(s: seq<byte>): (r: Next)
    ensures !r.Stop? ==> |r.rest| < |s|
  {
    match ReadHeader(FRESH, s)
    case Incomplete(_) => Stop(EndsAt(s))
    case ProtocolError(_) => Stop(BadLength)
    case Header(g, n) =>
      if g.state == Empty then PassOver(s[n..])
      else if |s| - n < g.payloadLength then Stop(EndsAt([]))
      else
        var end := n + g.payloadLength;
        Whole(g.(payload := Masked(g.maskKey, 0, s[n..end]), state := Completed), s[end..])
  }

  /** The frames of a stream in wire order, read one whole frame after the other. */
  function Packets(s: seq<byte>): seq<Frame>
    decreases |s|
  {
    match NextPacket(s)
    case Stop(_) => []
    case PassOver(rest) => Packets(rest)
    case Whole(frame, rest) => [frame] + Packets(rest)
  }

  function EndingOf(s: seq<byte>): Ending
    decreases |s|
  {
    match NextPacket(s)
    case Stop(ending) => ending
    case PassOver(rest) => EndingOf(rest)
    case Whole(_, rest) => EndingOf(rest)
  }

  predicate EndsLike(o: Outcome, e: Ending) {
    match e
    case EndsAt(rest) => o.Parsed? && o.rest == rest
    case BadLength => o.Error?
  }

  predicate SameVerdict(a: Outcome, b: Outcome) {
    a.Parsed? == b.Parsed? && (a.Parsed? ==> a.rest == b.rest)
  }

  /** A header is rejected exactly when a shorter form could have held its length. */
  lemma RejectedExactlyWhenNotMinimal(s: seq<byte>)
    ensures ReadHeader(FRESH, s).ProtocolError?
            <==> || (|s| >= 4 && s[1] % 0x80 == 126 && LengthFits(FromBigEndian(s[2..4]), 1))
                 || (|s| >= 10 && s[1] % 0x80 == 127 && LengthFits(FromBigEndian(s[2..10]), 3))
  {
  }

  /** The minimal length form has at most `size` octets. */
  predicate LengthFits(n: nat, size: nat) {
    n < TOO_BIG && |LengthField(n, false)| <= size
  }

  /** The frames that have been accepted. */
  function Finished(q: seq<Frame>): seq<Frame> {
    if q != [] && q[|q| - 1].state != Completed then q[..|q| - 1] else q
  }

  lemma AbsorbWhole(g: Frame, data: seq<byte>)
    requires g.payload == [] && |data| == g.payloadLength
    ensures Absorb(g, data) == g.(payload := Masked(g.maskKey, 0, data), state := Completed)
  {
    MaskedWithZeroKey(0, data);
    assert g.payload + Unmask(g.maskKey, 0, data) == Unmask(g.maskKey, 0, data);
  }

  /** A completed frame is delivered, and the run goes on with a blank frame. */
  lemma CompletedTurn(q: seq<Frame>, s: seq<byte>, f: Frame, n: nat)
    requires Started(q) && s != [] && n <= |s|
    requires Step(q, s) == Continue(Settle(q[..|q| - 1], f), s[n..])
    requires f.state == Completed && |f.payload| == f.payloadLength
    ensures var done := Deliver(q[..|q| - 1], f);
            && AllAccepted(done) && Started(done + [FRESH])
            && Finished(Run(q, s).frames) == Finished(Run(done + [FRESH], s[n..]).frames)
            && SameVerdict(Run(q, s), Run(done + [FRESH], s[n..]))
  {
    hide Run;
    var done := q[..|q| - 1];
    var next := Deliver(done, f);
    RunAfterTurn(q, s, f, n);
    DeliverKeepsAccepted(done, f);
    SettleKeepsWellFormed(done, f);
    assert (next + [FRESH])[..|next|] == next;
    if n == |s| {
      assert s[n..] == [];
      RunOnEmpty(next + [FRESH]);
      if !Admits(done, f) {
        RunOnEmpty(done + [FRESH]);
      }
    }
  }

  lemma HeaderShape(s: seq<byte>)
    requires ReadHeader(FRESH, s).Header?
    ensures var g := ReadHeader(FRESH, s).frame;
            && g.payload == [] && !g.valid
            && (g.state == Empty ==> g == FRESH)
            && (g.state == Completed ==> g.payloadLength == 0)
            && (g.state != Empty && g.state != Completed ==> g.state == HeaderParsed && Unfinished(g))
  {
  }

  lemma {:induction false} RunDelivers(done: seq<Frame>, s: seq<byte>)
    requires AllAccepted(done) && Started(done + [FRESH])
    ensures Finished(Run(done + [FRESH], s).frames) == DeliverAll(done, Packets(s))
    ensures EndsLike(Run(done + [FRESH], s), EndingOf(s))
    decreases |s|
  {
    hide Deliver, AllAccepted, Run, Started, NextPacket;
    if s == [] {
      RunOnEmpty(done + [FRESH]);
      NothingToDecode();
    } else {
      OnePacket(done, s);
      match NextPacket(s) {
        case Stop(_) =>
        case PassOver(rest) => RunDelivers(done, rest);
        case Whole(f, rest) => RunDelivers(Deliver(done, f), rest);
      }
    }
  }

  /** The turns that read one frame, or run out of octets in it. */
  lemma OnePacket(done: seq<Frame>, s: seq<byte>)
    requires AllAccepted(done) && Started(done + [FRESH]) && s != []
    ensures var next, o := NextPacket(s), Run(done + [FRESH], s);
            && (next.Stop? ==> Finished(o.frames) == done && EndsLike(o, next.ending))
            && (next.PassOver? ==> o == Run(done + [FRESH], next.rest))
            && (next.Whole? ==>
                  var done' := Deliver(done, next.frame);
                  && AllAccepted(done') && Started(done' + [FRESH])
                  && Finished(o.frames) == Finished(Run(done' + [FRESH], next.rest).frames)
                  && SameVerdict(o, Run(done' + [FRESH], next.rest)))
  {
    hide Settle, Deliver, AllAccepted, ReadHeader, Masked, Absorb, Run, Started;
    var q := done + [FRESH];
    assert q[..|q| - 1] == done;
    match ReadHeader(FRESH, s) {
      case Incomplete(g) => ShortRun(done, s);
      case ProtocolError(g) => ShortRun(done, s);
      case Header(g, n) =>
        HeaderShape(s);
        if g.state == Completed {
          WholeFrame(s);
          CompletedTurn(q, s, g, n);
        } else if g.state == Empty {
          SkippedHeader(done, s);
        } else {
          PayloadRun(done, s);
        }
    }
  }

  lemma NothingToDecode()
    ensures Packets([]) == [] && EndingOf([]) == EndsAt([])
  {
  }

  lemma ShortRun(done: seq<Frame>, s: seq<byte>)
    requires Started(done + [FRESH]) && s != [] && !ReadHeader(FRESH, s).Header?
    ensures Finished(Run(done + [FRESH], s).frames) == done
    ensures NextPacket(s).Stop? && EndsLike(Run(done + [FRESH], s), NextPacket(s).ending)
  {
    hide ReadHeader;
    var g := ReadHeader(FRESH, s).frame;
    ShortFrame(s);
    assert (done + [FRESH])[..|done|] == done;
    assert (done + [g])[..|done|] == done;
  }

  lemma ShortFrame(s: seq<byte>)
    requires !ReadHeader(FRESH, s).Header?
    ensures ReadHeader(FRESH, s).frame.state == Empty
  {
  }

  lemma WholeFrame(s: seq<byte>)
    requires ReadHeader(FRESH, s).Header? && ReadHeader(FRESH, s).frame.state == Completed
    ensures var h := ReadHeader(FRESH, s);
            NextPacket(s) == Whole(h.frame, s[h.length..])
  {
    HeaderShape(s);
    var h := ReadHeader(FRESH, s);
    assert s[h.length..h.length] == [];
    assert Masked(h.frame.maskKey, 0, []) == [];
  }

  lemma SkippedHeader(done: seq<Frame>, s: seq<byte>)
    requires Started(done + [FRESH]) && s != []
    requires ReadHeader(FRESH, s).Header? && ReadHeader(FRESH, s).frame == FRESH
    ensures Run(done + [FRESH], s) == Run(done + [FRESH], s[ReadHeader(FRESH, s).length..])
  {
    hide ReadHeader;
    var q := done + [FRESH];
    assert q[..|done|] == done;
    RunAfterTurn(q, s, FRESH, ReadHeader(FRESH, s).length);
  }

  /** A header followed by its payload: the two turns that read them, or the one that runs short. */
  lemma PayloadRun(done: seq<Frame>, s: seq<byte>)
    requires AllAccepted(done) && Started(done + [FRESH]) && s != []
    requires ReadHeader(FRESH, s).Header? && ReadHeader(FRESH, s).frame.state == HeaderParsed
    ensures var g, n := ReadHeader(FRESH, s).frame, ReadHeader(FRESH, s).length;
            var o := Run(done + [FRESH], s);
            if |s| - n < g.payloadLength then Finished(o.frames) == done && o.Parsed? && o.rest == []
            else
              var end := n + g.payloadLength;
              var next := Deliver(done, g.(payload := Masked(g.maskKey, 0, s[n..end]), state := Completed));
              && AllAccepted(next) && Started(next + [FRESH])
              && Finished(o.frames) == Finished(Run(next + [FRESH], s[end..]).frames)
              && SameVerdict(o, Run(next + [FRESH], s[end..]))
  {
    hide Run, ReadHeader, Masked, Place, Admits, AllAccepted;
    var q := done + [FRESH];
    assert q[..|done|] == done;
    var g, n := ReadHeader(FRESH, s).frame, ReadHeader(FRESH, s).length;
    HeaderShape(s);
    RunAfterTurn(q, s, g, n);
    var q', rest := done + [g], s[n..];
    assert q'[..|done|] == done;
    if rest == [] {
      RunOnEmpty(q');
    } else if |rest| < g.payloadLength {
      var f := Absorb(g, rest);
      assert rest[..|rest|] == rest && rest[|rest|..] == [];
      RunAfterTurn(q', rest, f, |rest|);
      assert (done + [f])[..|done|] == done;
      RunOnEmpty(done + [f]);
    } else {
      var data := rest[..g.payloadLength];
      AbsorbWhole(g, data);
      CompletedTurn(q', rest, Absorb(g, data), g.payloadLength);
      assert data == s[n..n + g.payloadLength];
      assert rest[g.payloadLength..] == s[n + g.payloadLength..];
    }
  }

  /** A call on a list of accepted frames delivers the frames of the buffer, one by one. */
  lemma ParseDelivers(q: seq<Frame>, s: seq<byte>)
    requires AllAccepted(q)
    ensures WellFormed(q)
    ensures Finished(Parse(q, s).frames) == DeliverAll(q, Packets(s)) && EndsLike(Parse(q, s), EndingOf(s))
  {
    hide Run;
    if q != [] {
      assert q[|q| - 1] in q && Accepted(q[|q| - 1]);
    }
    assert Start(q) == q + [FRESH];
    RunDelivers(q, s);
  }

  lemma {:induction false} ReadAllKeepsWellFormed(q: seq<Frame>, left: seq<byte>, chunks: seq<seq<byte>>)
    requires WellFormed(q)
    ensures WellFormed(ReadAll(q, left, chunks).frames)
    decreases |chunks|
  {
    hide Parse, WellFormed;
    if chunks != [] {
      ParseKeepsWellFormed(q, left + chunks[0]);
      var o := Parse(q, left + chunks[0]);
      if o.Parsed? {
        ReadAllKeepsWellFormed(o.frames, o.rest, chunks[1..]);
      }
    }
  }

  /**
   Over every run, the list is the accepted frames, in a permutation that keeps the data
   frames in arrival order, and at most one unfinished frame behind them; the run fails exactly
   when the sequential decoder rejects a length, and otherwise leaves unread what it leaves.
   */
  lemma StreamDelivers(q: seq<Frame>, chunks: seq<seq<byte>>)
    requires AllAccepted(q)
    ensures WellFormed(q)
    ensures var list := Finished(ReadAll(q, [], chunks).frames);
            var arrived := Packets(Flatten(chunks));
            && list == DeliverAll(q, arrived)
            && multiset(list) == multiset(q) + multiset(AcceptedOf(q, arrived))
            && DataFrames(list) == DataFrames(q) + DataFrames(AcceptedOf(q, arrived))
            && EndsLike(ReadAll(q, [], chunks), EndingOf(Flatten(chunks)))
  {
    hide Run, Validates, Parse, ReadAll;
    var s := Flatten(chunks);
    ParseDelivers(q, s);
    ChunkingIsIrrelevant(q, chunks);
    ParseKeepsWellFormed(q, s);
    ReadAllKeepsWellFormed(q, [], chunks);
    FinishedOfTrim(ReadAll(q, [], chunks).frames);
    FinishedOfTrim(Parse(q, s).frames);
    DeliverAllConserves(q, Packets(s));
  }

  lemma FinishedOfTrim(q: seq<Frame>)
    requires WellFormed(q)
    ensures Finished(Trim(q)) == Finished(q)
  {
    if q != [] && q[|q| - 1] == FRESH {
      var front := q[..|q| - 1];
      if front != [] {
        assert front[|front| - 1] in front;
      }
    }
  }

  // ----- Round trip -----

  lemma LengthFieldReads(first: byte, n: nat, masked: bool, t: seq<byte>)
    requires n < TOO_BIG
    ensures var field := LengthField(n, masked);
            ReadHeader(FRESH, [first] + field + t)
            == ReadMask(FRESH.(firstByte := first, payloadLength := n), masked, [first] + field + t, 1 + |field|)
  {
    hide ReadMask, FromBigEndian, ToBigEndian;
    var field := LengthField(n, masked);
    var s := [first] + field + t;
    assert s[0] == first && s[1] == field[0];
    Pow256Values();
    if 125 < n <= 0xFFFF {
      assert s[2..4] == ToBigEndian(n, 2);
      BigEndianRoundTrip(n, 2);
    } else if n > 0xFFFF {
      assert s[2..10] == ToBigEndian(n, 8);
      BigEndianRoundTrip(n, 8);
    }
  }

  /** The header of an encoded packet reads back as its fields, whatever follows. */
  lemma HeaderReads(first: byte, n: nat, key: nat, masked: bool, t: seq<byte>)
    requires n < TOO_BIG && key < 0x1_0000_0000 && (!masked ==> key == 0)
    ensures var header := [first] + LengthField(n, masked) + if masked then ToBigEndian(key, 4) else [];
            ReadHeader(FRESH, header + t)
            == Header(HeaderDone(Frame(first, key, n, [], Empty, false)), |header|)
  {
    hide ReadHeader, LengthField;
    var field := LengthField(n, masked);
    var mask: seq<byte> := if masked then ToBigEndian(key, 4) else [];
    var s := [first] + field + mask + t;
    assert s == [first] + field + (mask + t);
    LengthFieldReads(first, n, masked, mask + t);
    LengthFieldNotEmpty(n, masked);
    if masked {
      Pow256Values();
      BigEndianRoundTrip(key, 4);
      assert s[1 + |field|..1 + |field| + 4] == mask;
    }
  }

  lemma LengthFieldNotEmpty(n: nat, masked: bool)
    requires n < TOO_BIG
    ensures |LengthField(n, masked)| >= 1
  {
  }

  lemma DecodesFirst(p: Packet, t: seq<byte>)
    requires p.Encodable()
    ensures NextPacket(Encode(p) + t) == Whole(p.Received(), t)
  {
    hide ReadHeader, Masked, LengthField;
    var header, body := HeaderBytes(p), Masked(p.maskKey, 0, p.payload);
    var s := Encode(p) + t;
    assert s == header + (body + t);
    HeaderReads(p.firstByte, |p.payload|, p.maskKey, p.masked, body + t);
    var n, end := |header|, |header| + |body|;
    assert s[n..end] == body;
    assert s[end..] == t;
    MaskedTwice(p.maskKey, 0, p.payload);
    if p.payload == [] {
      assert s[n..n] == [];
    }
  }

  function ReceivedAll(ps: seq<Packet>): (fs: seq<Frame>)
    ensures |fs| == |ps|
    ensures forall i | 0 <= i < |ps| :: fs[i] == ps[i].Received()
  {
    if ps == [] then [] else [ps[0].Received()] + ReceivedAll(ps[1..])
  }

  /** Decoding inverts the wire form of section 5.2 of RFC 6455. */
  lemma {:induction false} DecodeInvertsEncode(ps: seq<Packet>)
    requires forall p | p in ps :: p.Encodable()
    ensures Packets(EncodeAll(ps)) == ReceivedAll(ps) && EndingOf(EncodeAll(ps)) == EndsAt([])
  {
    hide Encode;
    if ps == [] {
      NothingToDecode();
    } else {
      DecodesFirst(ps[0], EncodeAll(ps[1..]));
      DecodeInvertsEncode(ps[1..]);
    }
  }

  /**
   Sent in any cut, a list of packets is queued as if each had been handed over whole, without
   an error and with nothing left unread.
   */
  lemma EncodedStreamDelivers(q: seq<Frame>, ps: seq<Packet>, chunks: seq<seq<byte>>)
    requires AllAccepted(q)
    requires forall p | p in ps :: p.Encodable()
    requires Flatten(chunks) == EncodeAll(ps)
    ensures WellFormed(q)
    ensures var o := ReadAll(q, [], chunks);
            o.Parsed? && o.rest == [] && Finished(o.frames) == DeliverAll(q, ReceivedAll(ps))
  {
    StreamDelivers(q, chunks);
    DecodeInvertsEncode(ps);
  }

  // ----- The server's own frames -----

  lemma {:induction false} MaskedFixes(key: nat, data: seq<byte>)
    ensures Masked(key, 0, data) == data
            <==> forall i | 0 <= i < 4 && i < |data| :: MaskOctets(key)[i] == 0
  {
    hide Xor, MaskOctets;
    var mask, masked := MaskOctets(key), Masked(key, 0, data);
    forall i | 0 <= i < |data|
      ensures masked[i] == data[i] <==> mask[i % 4] == 0
    {
      assert (0 + i) % 4 == i % 4;
      XorFixes(data[i], mask[i % 4]);
    }
    if forall i | 0 <= i < 4 && i < |data| :: mask[i] == 0 {
      forall i | 0 <= i < |data| ensures masked[i] == data[i] {
        assert 0 <= i % 4 < 4 && i % 4 <= i;
        assert mask[i % 4] == 0;
      }
    } else {
      var i :| 0 <= i < 4 && i < |data| && mask[i] != 0;
      assert i % 4 == i;
      assert masked[i] != data[i];
    }
  }

  /**
   A receiver of `toByteArray` gets the payload back exactly when the octets of the mask key
   that meet it are zero: the key is announced but the payload is not masked with it.
   */
  lemma ToByteArrayIsReceived(f: Frame)
    requires |f.payload| < TOO_BIG && f.maskKey < 0x1_0000_0000
    ensures |Packets(ToByteArray(f))| == 1
    ensures Packets(ToByteArray(f))[0].payload == f.payload
            <==> forall i | 0 <= i < 4 && i < |f.payload| :: MaskOctets(f.maskKey)[i] == 0
    ensures f.maskKey == 0 ==> Packets(ToByteArray(f))[0].payload == f.payload
    ensures Packets(ToByteArray(f))[0].FinBit()
    ensures Packets(ToByteArray(f))[0].OpCode() == if f.IsContinuation() then 1 else f.OpCode()
    ensures Packets(ToByteArray(f))[0].firstByte / 16 % 8 == f.firstByte / 16 % 8
    ensures |Packets(ToByteArray(f))[0].payload| == |f.payload| && Packets(ToByteArray(f))[0].maskKey == f.maskKey
  {
    hide ToByteArray, NextPacket, MaskOctets, Masked;
    SentFirstOctet(f);
    SentIsReceived(f);
    NothingToDecode();
    MaskedFixes(f.maskKey, f.payload);
    MaskedWithZeroKey(0, f.payload);
  }

  lemma SentFirstOctet(f: Frame)
    requires |f.payload| < TOO_BIG
    ensures var first := ToByteArray(f)[0];
            && |ToByteArray(f)| > 0 && first >= 0x80
            && first % 16 == (if f.firstByte % 16 == 0 then 1 else f.firstByte % 16)
            && first / 16 % 8 == f.firstByte / 16 % 8
  {
    hide LengthField;
    var high, low := f.firstByte / 16, f.firstByte % 16;
    assert f.firstByte == 16 * high + low;
  }

  /** The receiver takes the payload for masked with the key that is announced. */
  lemma SentIsReceived(f: Frame)
    requires |f.payload| < TOO_BIG && f.maskKey < 0x1_0000_0000
    ensures |ToByteArray(f)| > 0
    ensures NextPacket(ToByteArray(f))
            == Whole(Frame(ToByteArray(f)[0], f.maskKey, |f.payload|, Masked(f.maskKey, 0, f.payload), Completed, false), [])
  {
    hide ReadHeader, Masked, LengthField;
    var key, masked := f.maskKey, f.maskKey != 0;
    var s := ToByteArray(f);
    var mask: seq<byte> := if masked then ToBigEndian(key, 4) else [];
    var header := [s[0]] + LengthField(|f.payload|, masked) + mask;
    assert s == header + f.payload;
    HeaderReads(s[0], |f.payload|, key, masked, f.payload);
    assert s[|header|..|header| + |f.payload|] == f.payload;
    assert s[|header| + |f.payload|..] == [];
    NothingToDecode();
    if f.payload == [] {
      assert Masked(key, 0, f.payload) == [];
    }
  }

  /** Sent alone, the packet is queued as that frame. */
  ghost predicate AcceptedAs(p: Packet, f: Frame) {
    p.Encodable() && Finished(Parse([], Encode(p)).frames) == [f]
  }

  /** The frame that `toByteArray` sends is received with another payload. */
  predicate Garbled(f: Frame)
    requires |f.payload| < TOO_BIG
  {
    Packets(ToByteArray(f)) != [] && Packets(ToByteArray(f))[0].payload != f.payload
  }

  /**
   The smallest failing frame, and one that `parse` accepts: the octet `a` under the key
   1, 0, 0, 0, written by `toByteArray`, is received as another octet.
   */
  lemma AcceptedFrameIsGarbled(sent: Packet, f: Frame)
    requires sent == Packet(0x82, 0x100_0000, true, [0x61]) && f == sent.Received().(valid := true)
    ensures AcceptedAs(sent, f) && Garbled(f)
  {
    hide ReadHeader, Masked, Parse, Encode, LengthField;
    assert EncodeAll([sent]) == Encode(sent) + [] == Encode(sent);
    DecodeInvertsEncode([sent]);
    ParseDelivers([], Encode(sent));
    assert ReceivedAll([sent]) == [sent.Received()];
    ValidFirstOctets(sent.Received());
    assert DeliverAll([], [sent.Received()]) == [f];
    ToByteArrayIsReceived(f);
    assert MaskOctets(0x100_0000)[0] == 1 by { FirstKeyOctet(); }
  }

  lemma FirstKeyOctet()
    ensures MaskOctets(0x100_0000)[0] == 1
  {
    BigEndianValues([1, 0, 0, 0]);
    BigEndianOctets([1, 0, 0, 0]);
  }
}
