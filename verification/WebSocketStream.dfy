/**
 What the parser does to a whole byte stream: the way the stream is cut into reads does not
 matter (src/tabstractwebsocket.cpp:168-360).
 */
module WebSocketStream {
  import opened Bytes
  import opened WebSocketFrame
  import opened WebSocketQueue
  import opened WebSocketParser

  // ----- Independence of chunking -----

  /** A frame list without the blank frame that `parse` may have appended. */
  function Trim(q: seq<Frame>): seq<Frame> {
    if q != [] && q[|q| - 1] == FRESH then q[..|q| - 1] else q
  }

  function TrimOutcome(o: Outcome): Outcome {
    match o
    case Parsed(q, rest) => Parsed(Trim(q), rest)
    case Error(q) => Error(q)
  }

  lemma HeaderKeepsPrefix(f: Frame, s: seq<byte>, t: seq<byte>)
    ensures ReadHeader(f, s).Incomplete? ==> ReadHeader(ReadHeader(f, s).frame, s + t) == ReadHeader(f, s + t)
    ensures !ReadHeader(f, s).Incomplete? ==> ReadHeader(f, s + t) == ReadHeader(f, s)
  {
    var u := s + t;
    if |s| >= 2 {
      assert u[0] == s[0] && u[1] == s[1];
      if |s| >= 4 { assert u[2..4] == s[2..4]; }
      if |s| >= 6 { assert u[2..6] == s[2..6]; }
      if |s| >= 8 { assert u[4..8] == s[4..8]; }
      if |s| >= 10 { assert u[2..10] == s[2..10]; }
      if |s| >= 14 { assert u[10..14] == s[10..14]; }
    }
  }

  lemma UnmaskConcat(key: nat, offset: nat, a: seq<byte>, b: seq<byte>)
    ensures Unmask(key, offset, a + b) == Unmask(key, offset, a) + Unmask(key, offset + |a|, b)
  {
    MaskedConcat(key, offset, a, b);
  }

  /** Payload octets taken in two reads make the same frame as in one. */
  lemma AbsorbTwice(f: Frame, a: seq<byte>, b: seq<byte>)
    requires |f.payload| + |a| < f.payloadLength
    ensures Absorb(Absorb(f, a), b) == Absorb(f, a + b)
  {
    hide Masked;
    UnmaskConcat(f.maskKey, |f.payload|, a, b);
    var u, v := Unmask(f.maskKey, |f.payload|, a), Unmask(f.maskKey, |f.payload| + |a|, b);
    assert f.payload + u + v == f.payload + (u + v);
  }

  /** The payload in the buffer ends before the frame does. */
  predicate EndsInside(q: seq<Frame>, s: seq<byte>)
    requires Started(q)
  {
    var f := q[|q| - 1];
    f.state != Empty && |f.payload| + |s| < f.payloadLength
  }

  lemma HeaderStepExtends(q: seq<Frame>, s: seq<byte>, t: seq<byte>)
    requires Started(q) && s != [] && q[|q| - 1].state == Empty
    ensures match Step(q, s)
            case Failed(q') => Step(q, s + t) == Failed(q')
            case OutOfBytes(q') => Started(q') && Step(q', s + t) == Step(q, s + t)
            case Continue(q', rest) => Step(q, s + t) == Continue(q', rest + t)
  {
    hide Settle, ReadHeader, AllAccepted;
    var done, f := q[..|q| - 1], q[|q| - 1];
    HeaderKeepsPrefix(f, s, t);
    var h := ReadHeader(f, s);
    match h {
      case ProtocolError(g) =>
      case Incomplete(g) =>
        IncompleteIsUnfinished(f, s);
        assert (done + [g])[..|done|] == done;
      case Header(g, n) =>
        assert (s + t)[n..] == s[n..] + t;
    }
  }

  lemma IncompleteIsUnfinished(f: Frame, s: seq<byte>)
    requires f.state == Empty && Unfinished(f) && ReadHeader(f, s).Incomplete?
    ensures ReadHeader(f, s).frame.state == Empty && Unfinished(ReadHeader(f, s).frame)
  {
  }

  /** The frame ends behind the buffer: the turn takes all of it, and the next goes on. */
  lemma InsideStepExtends(q: seq<Frame>, s: seq<byte>, t: seq<byte>)
    requires Started(q) && s != [] && t != [] && EndsInside(q, s)
    ensures Step(q, s).Continue? && Started(Step(q, s).frames) && Step(q, s).rest == []
    ensures Step(q, s + t) == Step(Step(q, s).frames, t)
  {
    hide Place, Admits, AllAccepted, Masked, Unmask;
    var done, f := q[..|q| - 1], q[|q| - 1];
    var need := f.payloadLength - |f.payload|;
    var g := Absorb(f, s);
    assert s[..|s|] == s;
    assert (done + [g])[..|done|] == done;
    assert Step(q, s) == Continue(done + [g], []);
    var more := Min(need - |s|, |t|);
    assert (s + t)[..|s| + more] == s + t[..more];
    assert (s + t)[|s| + more..] == t[more..];
    AbsorbTwice(f, s, t[..more]);
  }

  lemma PayloadStepExtends(q: seq<Frame>, s: seq<byte>, t: seq<byte>)
    requires Started(q) && s != [] && t != [] && q[|q| - 1].state != Empty
    ensures Step(q, s).Continue?
    ensures if EndsInside(q, s) then
              && Started(Step(q, s).frames) && Step(q, s).rest == []
              && Step(q, s + t) == Step(Step(q, s).frames, t)
            else
              Step(q, s + t) == Continue(Step(q, s).frames, Step(q, s).rest + t)
  {
    if EndsInside(q, s) {
      InsideStepExtends(q, s, t);
    } else {
      hide Settle, Absorb, AllAccepted;
      var f := q[|q| - 1];
      var need := f.payloadLength - |f.payload|;
      assert (s + t)[..need] == s[..need];
      assert (s + t)[need..] == s[need..] + t;
    }
  }

  lemma StepExtends(q: seq<Frame>, s: seq<byte>, t: seq<byte>)
    requires Started(q) && s != [] && t != []
    ensures match Step(q, s)
            case Failed(q') => Step(q, s + t) == Failed(q')
            case OutOfBytes(q') => Started(q') && Step(q', s + t) == Step(q, s + t)
            case Continue(q', rest) =>
              if EndsInside(q, s) then Started(q') && rest == [] && Step(q, s + t) == Step(q', t)
              else Step(q, s + t) == Continue(q', rest + t)
  {
    hide Step;
    if q[|q| - 1].state == Empty {
      HeaderStepExtends(q, s, t);
    } else {
      PayloadStepExtends(q, s, t);
    }
  }

  lemma SameStepSameRun(p: seq<Frame>, s: seq<byte>, q: seq<Frame>, t: seq<byte>)
    requires Started(p) && Started(q) && s != [] && t != []
    requires Step(p, s) == Step(q, t)
    requires Step(p, s).OutOfBytes? ==> s == t
    ensures Run(p, s) == Run(q, t)
  {
    hide Step;
  }

  lemma IncompleteStaysOutOfBytes(q: seq<Frame>, s: seq<byte>, t: seq<byte>)
    requires Started(q) && s != [] && EndsInside(q, s) && t != []
    ensures !Step(q, s + t).OutOfBytes?
  {
  }

  /**
   Reading `s`, keeping what is left, and then reading `t` after it, is reading `s + t`.
   An error in `s` is the error of the whole.
   */
  lemma {:induction false} RunConcat(q: seq<Frame>, s: seq<byte>, t: seq<byte>)
    requires Started(q) && t != []
    ensures match Run(q, s)
            case Error(e) => Run(q, s + t) == Error(e)
            case Parsed(q1, left) => WellFormed(q1) && Run(q, s + t) == Parse(q1, left + t)
    decreases |s|
  {
    hide Step;
    RunKeepsWellFormed(q, s);
    if s == [] {
      assert s + t == t;
    } else {
      StepExtends(q, s, t);
      StepKeepsWellFormed(q, s);
      match Step(q, s) {
        case Failed(q') =>
        case OutOfBytes(q') =>
          SameStepSameRun(q', s + t, q, s + t);
        case Continue(q', rest) =>
          if EndsInside(q, s) {
            IncompleteStaysOutOfBytes(q, s, t);
            SameStepSameRun(q, s + t, q', t);
            assert [] + t == t;
          } else {
            assert rest + t != [];
            assert Run(q, s + t) == Run(Start(q'), rest + t);
            if rest != [] {
              RunConcat(Start(q'), rest, t);
            }
          }
      }
    }
  }

  /** Octets are left unread only when the turn on them runs out of octets. */
  lemma {:induction false} LeftoverNeedsMoreBytes(q: seq<Frame>, s: seq<byte>)
    requires Started(q)
    ensures var o := Run(q, s);
            o.Parsed? && o.rest != [] ==> Started(o.frames) && Step(o.frames, o.rest) == OutOfBytes(o.frames)
    decreases |s|
  {
    hide Step;
    if s != [] {
      StepKeepsWellFormed(q, s);
      match Step(q, s) {
        case Failed(q') =>
        case OutOfBytes(q') =>
          ShortHeaderOnly(q, s);
          HeaderStepExtends(q, s, []);
          assert s + [] == s;
        case Continue(q', rest) =>
          if rest != [] {
            LeftoverNeedsMoreBytes(Start(q'), rest);
          }
      }
    }
  }

  lemma ShortHeaderOnly(q: seq<Frame>, s: seq<byte>)
    requires Started(q) && s != [] && Step(q, s).OutOfBytes?
    ensures q[|q| - 1].state == Empty
  {
  }

  lemma OutOfBytesRun(q: seq<Frame>, s: seq<byte>)
    requires Started(q) && s != [] && Step(q, s) == OutOfBytes(q)
    ensures Run(q, s) == Parsed(q, s) && Start(q) == q
  {
    hide Step;
  }

  /** Parsing what was left over, with nothing new, changes nothing but a blank frame. */
  lemma ParseIsStable(q: seq<Frame>, s: seq<byte>)
    requires WellFormed(q) && Parse(q, s).Parsed?
    ensures var o := Parse(q, s);
            WellFormed(o.frames) && TrimOutcome(Parse(o.frames, o.rest)) == TrimOutcome(o)
  {
    hide Step, Run;
    ParseKeepsWellFormed(q, s);
    var o := Parse(q, s);
    if o.rest != [] {
      LeftoverNeedsMoreBytes(Start(q), s);
      OutOfBytesRun(o.frames, o.rest);
    } else {
      RunOnEmpty(Start(o.frames));
    }
  }

  function Flatten(chunks: seq<seq<byte>>): seq<byte> {
    if chunks == [] then [] else chunks[0] + Flatten(chunks[1..])
  }

  /** One `parse` call per chunk, each on the leftover of the previous one; an error ends the run. */
  function ReadAll(q: seq<Frame>, left: seq<byte>, chunks: seq<seq<byte>>): Outcome
    requires WellFormed(q)
    decreases |chunks|
  {
    if chunks == [] then Parsed(q, left) else
    ParseKeepsWellFormed(q, left + chunks[0]);
    match Parse(q, left + chunks[0])
    case Error(e) => Error(e)
    case Parsed(q', left') => ReadAll(q', left', chunks[1..])
  }

  lemma ParseConcat(q: seq<Frame>, s: seq<byte>, t: seq<byte>)
    requires WellFormed(q)
    ensures match Parse(q, s)
            case Error(e) => Parse(q, s + t) == Error(e)
            case Parsed(q1, left) =>
              && WellFormed(q1)
              && TrimOutcome(Parse(q, s + t)) == TrimOutcome(Parse(q1, left + t))
              && (t != [] ==> Parse(q, s + t) == Parse(q1, left + t))
  {
    hide Run;
    if t != [] {
      RunConcat(Start(q), s, t);
    } else {
      assert s + t == s;
      if Parse(q, s).Parsed? {
        ParseIsStable(q, s);
        assert Parse(q, s).rest + t == Parse(q, s).rest;
      }
    }
  }

  lemma {:induction false} ReadAllFrom(q: seq<Frame>, left: seq<byte>, chunks: seq<seq<byte>>)
    requires WellFormed(q)
    requires TrimOutcome(Parse(q, left)) == Parsed(Trim(q), left)
    ensures TrimOutcome(ReadAll(q, left, chunks)) == TrimOutcome(Parse(q, left + Flatten(chunks)))
    ensures chunks != [] && chunks[|chunks| - 1] != [] ==> ReadAll(q, left, chunks) == Parse(q, left + Flatten(chunks))
    decreases |chunks|
  {
    hide Run, Trim, WellFormed, Parse;
    if chunks == [] {
      assert left + Flatten(chunks) == left;
    } else {
      var s, t := left + chunks[0], Flatten(chunks[1..]);
      assert left + Flatten(chunks) == s + t;
      ParseKeepsWellFormed(q, s);
      ParseConcat(q, s, t);
      var o := Parse(q, s);
      if o.Parsed? {
        ParseIsStable(q, s);
        ReadAllFrom(o.frames, o.rest, chunks[1..]);
        if |chunks| == 1 {
          assert t == [] && s + t == s;
        } else if chunks[|chunks| - 1] != [] {
          FlattenNotEmpty(chunks[1..]);
        }
      }
    }
  }

  lemma {:induction false} FlattenNotEmpty(chunks: seq<seq<byte>>)
    requires chunks != [] && chunks[|chunks| - 1] != []
    ensures Flatten(chunks) != []
  {
    if |chunks| > 1 {
      FlattenNotEmpty(chunks[1..]);
    }
  }

  /**
   However a byte stream is cut into reads, the frame list, the verdict and the leftover are
   those of a single read, up to one blank frame at the end; exactly so when the last read
   brought something.
   */
  lemma ChunkingIsIrrelevant(q: seq<Frame>, chunks: seq<seq<byte>>)
    requires WellFormed(q)
    ensures TrimOutcome(ReadAll(q, [], chunks)) == TrimOutcome(Parse(q, Flatten(chunks)))
    ensures chunks != [] && chunks[|chunks| - 1] != [] ==> ReadAll(q, [], chunks) == Parse(q, Flatten(chunks))
  {
    assert [] + Flatten(chunks) == Flatten(chunks);
    ReadAllFrom(q, [], chunks);
  }
}
