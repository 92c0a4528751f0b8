/**
 The incremental frame parser (src/tabstractwebsocket.cpp:168-360) as a function of the
 frame list and the receive buffer, and as the class whose loop refines it.
 */
module WebSocketParser {
  import opened Bytes
  import opened WebSocketFrame
  import opened WebSocketQueue

  // ----- Header -----

  datatype HeaderResult =
    | Incomplete(frame: Frame)
    | ProtocolError(frame: Frame)
    | Header(frame: Frame, length: nat)

  /** The header fields are written into the frame as they are read, even when bytes run out. */
  function ReadHeader(f: Frame, s: seq<byte>): (r: HeaderResult)
    ensures r.Header? ==> 2 <= r.length <= |s|
  {
    if |s| < 2 then Incomplete(f) else
    var f := f.(firstByte := s[0]);
    var masked := s[1] >= 0x80;
    var len := s[1] % 0x80;
    if len == 126 then
      if |s| < 4 then Incomplete(f) else
      var w := FromBigEndian(s[2..4]);
      if w < 126 then ProtocolError(f) else ReadMask(f.(payloadLength := w), masked, s, 4)
    else if len == 127 then
      if |s| < 10 then Incomplete(f) else
      var d := FromBigEndian(s[2..10]);
      if d <= 0xFFFF then ProtocolError(f) else ReadMask(f.(payloadLength := d), masked, s, 10)
    else
      ReadMask(f.(payloadLength := len), masked, s, 2)
  }

  function ReadMask(f: Frame, masked: bool, s: seq<byte>, pos: nat): (r: HeaderResult)
    requires 2 <= pos <= |s|
    ensures r.Header? ==> 2 <= r.length <= |s|
  {
    if masked then
      if |s| < pos + 4 then Incomplete(f)
      else Header(HeaderDone(f.(maskKey := FromBigEndian(s[pos..pos + 4]))), pos + 4)
    else
      Header(HeaderDone(f), pos)
  }

  function HeaderDone(f: Frame): Frame {
    if f.payloadLength == 0 then f.(state := Completed)
    else if f.payloadLength >= TOO_BIG then FRESH
    else f.(state := HeaderParsed)
  }

  // ----- Payload -----

  /** Payload octets are unmasked only when the key is not zero. */
  function Unmask(key: nat, offset: nat, data: seq<byte>): (r: seq<byte>)
    ensures |r| == |data|
  {
    if key != 0 then Masked(key, offset, data) else data
  }

  function Absorb(f: Frame, data: seq<byte>): Frame {
    var payload := f.payload + Unmask(f.maskKey, |f.payload|, data);
    f.(payload := payload, state := if |payload| == f.payloadLength then Completed else MoreData)
  }

  // ----- The loop -----

  predicate Unfinished(f: Frame) {
    match f.state
    case Empty => f.payload == [] && f.maskKey == 0 && !f.valid
    case HeaderParsed => f.payload == [] && 0 < f.payloadLength < TOO_BIG && !f.valid
    case MoreData => |f.payload| < f.payloadLength < TOO_BIG && !f.valid
    case Completed => false
  }

  /** Every frame is accepted, except that the last one may still be unfinished. */
  predicate WellFormed(q: seq<Frame>) {
    q != [] ==>
      && AllAccepted(q[..|q| - 1])
      && (Accepted(q[|q| - 1]) || Unfinished(q[|q| - 1]))
  }

  predicate Started(q: seq<Frame>) {
    q != [] && AllAccepted(q[..|q| - 1]) && Unfinished(q[|q| - 1])
  }

  /** A new frame is appended unless the last one is still being read. */
  function Start(q: seq<Frame>): (r: seq<Frame>)
    ensures WellFormed(q) ==> Started(r)
  {
    if q == [] || q[|q| - 1].state == Completed then
      assert (q + [FRESH])[..|q|] == q;
      assert WellFormed(q) ==> forall f | f in q :: f in q[..|q| - 1] || f == q[|q| - 1];
      q + [FRESH]
    else q
  }

  /** The list after its last frame has become `f`. */
  function Settle(done: seq<Frame>, f: Frame): seq<Frame> {
    if f.state != Completed then done + [f]
    else if Admits(done, f) then Place(done, f.(valid := true))
    else done + [FRESH]
  }

  datatype StepResult =
    | Continue(frames: seq<Frame>, rest: seq<byte>)
    | OutOfBytes(frames: seq<Frame>)
    | Failed(frames: seq<Frame>)

  function Min(a: int, b: int): int {
    if a < b then a else b
  }

  /** One turn of the loop, on a non-empty buffer. */
  function Step(q: seq<Frame>, s: seq<byte>): (r: StepResult)
    requires Started(q) && s != []
    ensures r.Continue? ==> |r.rest| < |s|
  {
    var done, f := q[..|q| - 1], q[|q| - 1];
    if f.state == Empty then
      match ReadHeader(f, s)
      case Incomplete(g) => OutOfBytes(done + [g])
      case ProtocolError(g) => Failed(done + [g])
      case Header(g, n) => Continue(Settle(done, g), s[n..])
    else
      var size := Min(f.payloadLength - |f.payload|, |s|);
      Continue(Settle(done, Absorb(f, s[..size])), s[size..])
  }

  lemma SettleKeepsWellFormed(done: seq<Frame>, f: Frame)
    requires AllAccepted(done)
    requires Unfinished(f) || (f.state == Completed && |f.payload| == f.payloadLength)
    ensures WellFormed(Settle(done, f))
    ensures Settle(done, f) != []
    ensures f.state == Completed && Admits(done, f) <==> Settle(done, f)[|Settle(done, f)| - 1].state == Completed
  {
    var q := Settle(done, f);
    if f.state == Completed && Admits(done, f) {
      DeliverKeepsAccepted(done, f);
      assert q == Deliver(done, f);
      assert Accepted(q[|q| - 1]);
    } else {
      assert q[..|q| - 1] == done;
    }
  }

  /** No turn reaches an assertion failure: the list stays well formed and the payload grows. */
  lemma StepKeepsWellFormed(q: seq<Frame>, s: seq<byte>)
    requires Started(q) && s != []
    ensures WellFormed(Step(q, s).frames)
    ensures Step(q, s).Continue? ==> |Step(q, s).rest| < |s|
  {
    hide AllAccepted, Settle, Masked, FromBigEndian;
    var done, f := q[..|q| - 1], q[|q| - 1];
    if f.state == Empty {
      match ReadHeader(f, s) {
        case Incomplete(g) => assert (done + [g])[..|done|] == done;
        case ProtocolError(g) => assert (done + [g])[..|done|] == done;
        case Header(g, n) => SettleKeepsWellFormed(done, g);
      }
    } else {
      var size := Min(f.payloadLength - |f.payload|, |s|);
      SettleKeepsWellFormed(done, Absorb(f, s[..size]));
    }
  }

  datatype Outcome =
    | Parsed(frames: seq<Frame>, rest: seq<byte>)
    | Error(frames: seq<Frame>)

  function Run(q: seq<Frame>, s: seq<byte>): Outcome
    requires Started(q)
    decreases |s|
  {
    if s == [] then Parsed(q, []) else
    StepKeepsWellFormed(q, s);
    match Step(q, s)
    case OutOfBytes(q') => Parsed(q', s)
    case Failed(q') => Error(q')
    case Continue(q', rest) =>
      if rest == [] then Parsed(q', []) else Run(Start(q'), rest)
  }

  /** One call of `parse`. */
  function Parse(q: seq<Frame>, s: seq<byte>): Outcome
    requires WellFormed(q)
  {
    Run(Start(q), s)
  }

  lemma {:induction false} RunKeepsWellFormed(q: seq<Frame>, s: seq<byte>)
    requires Started(q)
    ensures WellFormed(Run(q, s).frames)
    decreases |s|
  {
    if s != [] {
      StepKeepsWellFormed(q, s);
      var r := Step(q, s);
      if r.Continue? && r.rest != [] {
        RunKeepsWellFormed(Start(r.frames), r.rest);
      }
    }
  }

  /** Every call keeps the list well formed: accepted frames, then at most one unfinished. */
  lemma ParseKeepsWellFormed(q: seq<Frame>, s: seq<byte>)
    requires WellFormed(q)
    ensures WellFormed(Parse(q, s).frames)
  {
    RunKeepsWellFormed(Start(q), s);
  }

  // ----- The class -----

  /** The unmasking loop: it rewrites the buffer in place. */
  method UnmaskInPlace(p: array<byte>, key: nat, offset: nat)
    modifies p
    ensures p[..] == Masked(key, offset, old(p[..]))
  {
    var mask := MaskOctets(key);
    var i := offset;
    var k := 0;
    while k < p.Length
      invariant 0 <= k <= p.Length && i == offset + k
      invariant forall j | 0 <= j < k :: p[j] == Xor(old(p[j]), mask[(offset + j) % 4])
      invariant forall j | k <= j < p.Length :: p[j] == old(p[j])
    {
      p[k] := Xor(p[k], mask[i % 4]);
      k, i := k + 1, i + 1;
    }
  }

  method ReadPayload(f: Frame, s: seq<byte>) returns (g: Frame, size: nat)
    requires Unfinished(f) && f.state != Empty && s != []
    ensures size == Min(f.payloadLength - |f.payload|, |s|)
    ensures 0 < size && g == Absorb(f, s[..size])
  {
    size := Min(f.payloadLength - |f.payload|, |s|);
    var p := new byte[size](i requires 0 <= i < size <= |s| => s[i]);
    assert p[..] == s[..size];
    if f.maskKey != 0 {
      UnmaskInPlace(p, f.maskKey, |f.payload|);
    }
    var payload := f.payload + p[..];
    if |payload| == f.payloadLength {
      g := f.(payload := payload, state := Completed);
    } else {
      g := f.(payload := payload, state := MoreData);
    }
  }

  /** The scan with the mutable list iterator: where a control frame is inserted. */
  method FindControlPlace(queue: seq<Frame>) returns (k: nat)
    ensures k == ScanEnd(queue) <= |queue|
    ensures forall i | 0 <= i < k - 1 :: queue[i].IsControl()
    ensures if exists i | 0 <= i < |queue| :: !queue[i].IsControl() then k > 0 && !queue[k - 1].IsControl()
            else k == |queue|
  {
    ScanStopsAt(queue);
    k := 0;
    while k < |queue|
      invariant k <= |queue|
      invariant ScanEnd(queue) == k + ScanEnd(queue[k..])
    {
      var f := queue[k];
      k := k + 1;
      if !f.IsControl() {
        return;
      }
      assert queue[k - 1..][1..] == queue[k..];
    }
  }

  /** The checks on a completed frame and its move within the list. */
  method SettleFrame(done: seq<Frame>, f: Frame) returns (frames: seq<Frame>, accepted: bool)
    ensures frames == Settle(done, f)
    ensures accepted <==> f.state == Completed && Admits(done, f)
  {
    accepted := false;
    if f.state == Completed {
      if !Validates(f) || Orphan(done, f) {
        frames := done + [FRESH];
      } else {
        accepted := true;
        var g := f.(valid := true);
        if g.IsControl() && done != [] {
          var k := FindControlPlace(done);
          frames := done[..k] + [g] + done[k..];
        } else {
          frames := done + [g];
        }
      }
    } else {
      frames := done + [f];
    }
  }

  /** What a turn that goes on leaves to be run. */
  lemma RunAfterTurn(q: seq<Frame>, s: seq<byte>, f: Frame, n: nat)
    requires Started(q) && s != [] && n <= |s|
    requires Step(q, s) == Continue(Settle(q[..|q| - 1], f), s[n..])
    requires Unfinished(f) || (f.state == Completed && |f.payload| == f.payloadLength)
    ensures var q' := Settle(q[..|q| - 1], f);
            if f.state == Completed && Admits(q[..|q| - 1], f) then
              && Started(q' + [FRESH])
              && Run(q, s) == if n == |s| then Parsed(q', []) else Run(q' + [FRESH], s[n..])
            else
              Started(q') && Run(q, s) == Run(q', s[n..])
  {
    var q' := Settle(q[..|q| - 1], f);
    StepKeepsWellFormed(q, s);
    SettleKeepsWellFormed(q[..|q| - 1], f);
    assert Start(q') == if f.state == Completed && Admits(q[..|q| - 1], f) then q' + [FRESH] else q';
  }

  /** What one turn reads is a blank, an unfinished or a complete frame, which is then settled. */
  lemma TurnReads(q: seq<Frame>, s: seq<byte>)
    requires Started(q) && s != []
    ensures var done, f := q[..|q| - 1], q[|q| - 1];
            if f.state == Empty then
              ReadHeader(f, s).Header? ==>
                var g, n := ReadHeader(f, s).frame, ReadHeader(f, s).length;
                && Step(q, s) == Continue(Settle(done, g), s[n..])
                && (Unfinished(g) || (g.state == Completed && |g.payload| == g.payloadLength))
            else
              var n := Min(f.payloadLength - |f.payload|, |s|);
              var g := Absorb(f, s[..n]);
              && Step(q, s) == Continue(Settle(done, g), s[n..])
              && (Unfinished(g) || (g.state == Completed && |g.payload| == g.payloadLength))
  {
    hide Settle, Masked, FromBigEndian;
  }

  datatype Turn = NeedsBytes | Breaks | GoesOn | Accepts

  /** The body of the loop, up to the choice between preparing a next frame and leaving. */
  method TakeTurn(q: seq<Frame>, s: seq<byte>) returns (frames: seq<Frame>, n: nat, turn: Turn)
    requires Started(q) && s != []
    ensures turn == NeedsBytes ==> Run(q, s) == Parsed(frames, s)
    ensures turn == Breaks ==> Run(q, s) == Error(frames)
    ensures turn == GoesOn ==> 0 < n <= |s| && Started(frames) && Run(q, s) == Run(frames, s[n..])
    ensures turn == Accepts ==>
              && 0 < n <= |s| && Started(frames + [FRESH])
              && Run(q, s) == if n == |s| then Parsed(frames, []) else Run(frames + [FRESH], s[n..])
  {
    hide ReadHeader, Settle, Absorb, AllAccepted;
    var done, f := q[..|q| - 1], q[|q| - 1];
    if f.state == Empty {
      var h := ReadHeader(f, s);
      if h.Incomplete? {
        return done + [h.frame], 0, NeedsBytes;
      } else if h.ProtocolError? {
        return done + [h.frame], 0, Breaks;
      }
      f, n := h.frame, h.length;
    } else {
      f, n := ReadPayload(f, s);
    }
    TurnReads(q, s);
    RunAfterTurn(q, s, f, n);
    var accepted;
    frames, accepted := SettleFrame(done, f);
    turn := if accepted then Accepts else GoesOn;
  }

  lemma RunOnEmpty(q: seq<Frame>)
    requires Started(q)
    ensures Run(q, []) == Parsed(q, [])
  {
  }

  /** The whole loop, on a list whose last frame is being read. */
  method ParseLoop(q: seq<Frame>, s: seq<byte>) returns (frames: seq<Frame>, pos: nat, ok: bool)
    requires Started(q)
    ensures pos <= |s|
    ensures Run(q, s) == if ok then Parsed(frames, s[pos..]) else Error(frames)
  {
    hide Run;
    frames, pos := q, 0;
    assert s[0..] == s;
    while pos < |s|
      invariant pos <= |s|
      invariant Started(frames) && Run(frames, s[pos..]) == Run(q, s)
      decreases |s| - pos
    {
      var n, turn;
      frames, n, turn := TakeTurn(frames, s[pos..]);
      if turn == NeedsBytes || turn == Breaks {
        return frames, pos, turn == NeedsBytes;
      }
      assert s[pos..][n..] == s[pos + n..];
      pos := pos + n;
      if turn == Accepts {
        if pos < |s| {
          frames := frames + [FRESH];
        } else {
          return frames, pos, true;
        }
      }
    }
    assert s[pos..] == [];
    RunOnEmpty(frames);
    ok := true;
  }

  class WebSocket {
    var frames: seq<Frame>

    constructor ()
      ensures frames == []
    {
      frames := [];
    }

    /**
     `parse`: -1 on a protocol error, otherwise the number of octets consumed; `rest` is
     what stays in the receive buffer.
     */
    method ParseBuffer(recvData: seq<byte>) returns (parsedLength: int, rest: seq<byte>)
      requires WellFormed(frames)
      modifies this
      ensures WellFormed(frames)
      ensures match Parse(old(frames), recvData)
              case Error(q) => parsedLength == -1 && rest == recvData && frames == q
              case Parsed(q, r) => && 0 <= parsedLength <= |recvData|
                                   && frames == q && rest == r == recvData[parsedLength..]
    {
      ParseKeepsWellFormed(frames, recvData);
      if frames == [] || frames[|frames| - 1].state == Completed {
        frames := frames + [FRESH];
      }
      assert frames == Start(old(frames));
      var ok;
      frames, parsedLength, ok := ParseLoop(frames, recvData);
      if ok {
        rest := recvData[parsedLength..];
      } else {
        parsedLength, rest := -1, recvData;
      }
    }
  }
}
