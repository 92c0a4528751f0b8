/**
 What happens to a frame once it is complete: validation, the fragment check and
 the place it gets in the receive queue (src/tabstractwebsocket.cpp:310-345).
 */
module WebSocketQueue {
  import opened Bytes
  import opened Collections
  import opened WebSocketFrame

  /** A frame that has passed every check and sits in the queue. */
  predicate Accepted(f: Frame) {
    Validates(f) && f.valid && |f.payload| == f.payloadLength
  }

  predicate AllAccepted(q: seq<Frame>) {
    forall f | f in q :: Accepted(f)
  }

  /** A continuation needs a non-final data frame right before it, unless the queue is empty. */
  predicate Orphan(queue: seq<Frame>, f: Frame) {
    && f.IsContinuation()
    && queue != []
    && (queue[|queue| - 1].FinBit() || queue[|queue| - 1].IsControl())
  }

  predicate Admits(queue: seq<Frame>, f: Frame) {
    Validates(f) && !Orphan(queue, f)
  }

  /** Where the mutable list iterator stands when the scan for a data frame stops. */
  function ScanEnd(queue: seq<Frame>): (k: nat)
    ensures k <= |queue|
  {
    if queue == [] then 0
    else if !queue[0].IsControl() then 1
    else 1 + ScanEnd(queue[1..])
  }

  /** A control frame goes to where the scan stopped, any other frame to the end. */
  function Place(queue: seq<Frame>, f: Frame): seq<Frame> {
    if f.IsControl() then
      var k := ScanEnd(queue);
      queue[..k] + [f] + queue[k..]
    else
      queue + [f]
  }

  /**
   Which frames a queue takes, in octets: text and binary frames, final or not, short final
   control frames, and a continuation when the queue is empty or ends in a fragment.
   */
  lemma AdmittedOctets(queue: seq<Frame>, f: Frame)
    requires AllAccepted(queue) && f.state == Completed
    ensures Admits(queue, f)
            <==> || f.firstByte in {0x01, 0x02, 0x81, 0x82}
                 || (f.firstByte in {0x88, 0x89, 0x8A} && f.payloadLength <= 125)
                 || (f.firstByte in {0x00, 0x80} && (queue == [] || queue[|queue| - 1].firstByte < 0x80))
  {
    ValidFirstOctets(f);
    if queue != [] {
      var last := queue[|queue| - 1];
      assert last in queue && Accepted(last);
      ValidFirstOctets(last);
    }
  }

  /** The scan ends right behind the first data frame, or at the end when there is none. */
  lemma {:induction false} ScanStopsAt(queue: seq<Frame>)
    ensures var k := ScanEnd(queue);
            && (forall i | 0 <= i < k - 1 :: queue[i].IsControl())
            && (if exists i | 0 <= i < |queue| :: !queue[i].IsControl() then k > 0 && !queue[k - 1].IsControl()
                else k == |queue|)
  {
    if queue != [] && queue[0].IsControl() {
      var tail := queue[1..];
      ScanStopsAt(tail);
      assert forall i | 0 <= i < |tail| :: tail[i] == queue[i + 1];
      if i :| 0 <= i < |queue| && !queue[i].IsControl() {
        assert !tail[i - 1].IsControl();
      }
    }
  }

  function Deliver(queue: seq<Frame>, f: Frame): seq<Frame> {
    if Admits(queue, f) then Place(queue, f.(valid := true)) else queue
  }

  function DeliverAll(queue: seq<Frame>, fs: seq<Frame>): seq<Frame>
    decreases |fs|
  {
    if fs == [] then queue else DeliverAll(Deliver(queue, fs[0]), fs[1..])
  }

  /** The frames of `fs` that get into the queue, in arrival order. */
  function AcceptedOf(queue: seq<Frame>, fs: seq<Frame>): seq<Frame>
    decreases |fs|
  {
    if fs == [] then []
    else if Admits(queue, fs[0]) then
      [fs[0].(valid := true)] + AcceptedOf(Deliver(queue, fs[0]), fs[1..])
    else AcceptedOf(queue, fs[1..])
  }

  /** The data frames of a queue, in order. */
  function DataFrames(q: seq<Frame>): seq<Frame> {
    if q == [] then []
    else (if q[0].IsControl() then [] else [q[0]]) + DataFrames(q[1..])
  }

  lemma DataFramesCons(f: Frame, q: seq<Frame>)
    ensures DataFrames([f] + q) == (if f.IsControl() then [] else [f]) + DataFrames(q)
  {
    assert ([f] + q)[0] == f && ([f] + q)[1..] == q;
  }

  lemma {:induction false} DataFramesConcat(a: seq<Frame>, b: seq<Frame>)
    ensures DataFrames(a + b) == DataFrames(a) + DataFrames(b)
  {
    if a == [] {
      assert a + b == b;
    } else {
      hide DataFrames;
      var f, tail := a[0], a[1..];
      FirstAndRest(a, b);
      DataFramesCons(f, tail);
      DataFramesCons(f, tail + b);
      DataFramesConcat(tail, b);
      Associates(if f.IsControl() then [] else [f], DataFrames(tail), DataFrames(b));
    }
  }

  lemma PlaceIsPermutation(queue: seq<Frame>, f: Frame)
    ensures multiset(Place(queue, f)) == multiset(queue) + multiset{f}
  {
    if f.IsControl() {
      var k := ScanEnd(queue);
      assert queue == queue[..k] + queue[k..];
    }
  }

  lemma PlaceKeepsDataOrder(queue: seq<Frame>, f: Frame)
    ensures DataFrames(Place(queue, f)) == DataFrames(queue) + DataFrames([f])
  {
    assert DataFrames([f]) == (if f.IsControl() then [] else [f]) by {
      assert [f][1..] == [];
    }
    if f.IsControl() {
      var k := ScanEnd(queue);
      assert queue == queue[..k] + queue[k..];
      DataFramesConcat(queue[..k], queue[k..]);
      DataFramesConcat(queue[..k], [f]);
      DataFramesConcat(queue[..k] + [f], queue[k..]);
    } else {
      DataFramesConcat(queue, [f]);
    }
  }

  lemma DeliverKeepsAccepted(queue: seq<Frame>, f: Frame)
    requires AllAccepted(queue) && |f.payload| == f.payloadLength
    ensures AllAccepted(Deliver(queue, f))
  {
    if Admits(queue, f) {
      var g := f.(valid := true);
      forall x | x in Place(queue, g) ensures Accepted(x) {
        PlaceIsPermutation(queue, g);
        assert x in multiset(Place(queue, g));
      }
    }
  }

  /**
   Conservation: whatever arrives, the queue is a permutation of what it held plus the
   accepted arrivals, and data frames keep their arrival order.
   */
  lemma {:induction false} DeliverAllConserves(queue: seq<Frame>, fs: seq<Frame>)
    ensures multiset(DeliverAll(queue, fs)) == multiset(queue) + multiset(AcceptedOf(queue, fs))
    ensures DataFrames(DeliverAll(queue, fs)) == DataFrames(queue) + DataFrames(AcceptedOf(queue, fs))
    decreases |fs|
  {
    if fs != [] {
      DeliverAllConserves(Deliver(queue, fs[0]), fs[1..]);
      if Admits(queue, fs[0]) {
        var g := fs[0].(valid := true);
        var rest := AcceptedOf(Deliver(queue, fs[0]), fs[1..]);
        PlaceIsPermutation(queue, g);
        PlaceKeepsDataOrder(queue, g);
        DataFramesConcat([g], rest);
      }
    }
  }

  lemma {:induction false} DeliverAllConcat(queue: seq<Frame>, a: seq<Frame>, b: seq<Frame>)
    ensures DeliverAll(queue, a + b) == DeliverAll(DeliverAll(queue, a), b)
    decreases |a|
  {
    if a == [] {
      assert a + b == b;
    } else {
      assert (a + b)[1..] == a[1..] + b;
      DeliverAllConcat(Deliver(queue, a[0]), a[1..], b);
    }
  }

  // ----- Control frames inside a fragmented message -----

  lemma {:induction false} ScanEndReachesEnd(queue: seq<Frame>)
    requires queue != [] && !queue[|queue| - 1].IsControl()
    ensures ScanEnd(queue) == |queue| <==> forall i | 0 <= i < |queue| - 1 :: queue[i].IsControl()
  {
    if queue[0].IsControl() {
      var tail := queue[1..];
      ScanEndReachesEnd(tail);
      assert forall i | 0 <= i < |tail| :: tail[i] == queue[i + 1];
      if forall i | 0 <= i < |tail| - 1 :: tail[i].IsControl() {
        forall i | 0 <= i < |queue| - 1 ensures queue[i].IsControl() {
          if i > 0 { assert tail[i - 1].IsControl(); }
        }
      } else {
        var i :| 0 <= i < |tail| - 1 && !tail[i].IsControl();
        assert !queue[i + 1].IsControl();
      }
    } else if |queue| > 1 {
      assert !queue[0].IsControl();
    }
  }

  /** A data frame stands before the last frame of the queue. */
  predicate DataBeforeLast(queue: seq<Frame>) {
    exists i | 0 <= i < |queue| - 1 :: !queue[i].IsControl()
  }

  /** Behind an open fragment, only a data frame before it keeps a control frame from the end. */
  lemma ControlBehindFragment(queue: seq<Frame>, control: Frame)
    requires queue != [] && !queue[|queue| - 1].IsControl()
    requires Validates(control) && control.IsControl()
    ensures var placed := Deliver(queue, control);
            && placed != []
            && (if DataBeforeLast(queue) then DataBeforeLast(placed) && placed[|placed| - 1] == queue[|queue| - 1]
                else placed[|placed| - 1].IsControl())
  {
    ScanEndReachesEnd(queue);
    var k, placed := ScanEnd(queue), Deliver(queue, control);
    assert placed == queue[..k] + [control.(valid := true)] + queue[k..];
    if DataBeforeLast(queue) {
      assert placed[|placed| - 1] == queue[|queue| - 1];
      ScanStopsAt(queue);
      assert placed[k - 1] == queue[k - 1];
    } else {
      assert placed[|placed| - 1] == control.(valid := true);
    }
  }

  /** Once a control frame is last, one always is. */
  lemma ControlBehindControl(queue: seq<Frame>, control: Frame)
    requires queue != [] && queue[|queue| - 1].IsControl()
    requires control.IsControl()
    ensures var placed := Deliver(queue, control);
            placed != [] && placed[|placed| - 1].IsControl()
  {
  }

  lemma {:induction false} ControlsBehindControl(queue: seq<Frame>, controls: seq<Frame>)
    requires queue != [] && queue[|queue| - 1].IsControl()
    requires forall c | c in controls :: c.IsControl()
    ensures var placed := DeliverAll(queue, controls);
            placed != [] && placed[|placed| - 1].IsControl()
    decreases |controls|
  {
    hide Deliver;
    if controls != [] {
      ControlBehindControl(queue, controls[0]);
      ControlsBehindControl(Deliver(queue, controls[0]), controls[1..]);
    }
  }

  lemma {:induction false} ControlsBehindFragment(queue: seq<Frame>, controls: seq<Frame>)
    requires queue != [] && !queue[|queue| - 1].IsControl()
    requires forall c | c in controls :: c.IsControl()
    ensures var placed := DeliverAll(queue, controls);
            && placed != []
            && if DataBeforeLast(queue) || forall c | c in controls :: !Validates(c)
               then placed[|placed| - 1] == queue[|queue| - 1]
               else placed[|placed| - 1].IsControl()
    decreases |controls|
  {
    hide DataBeforeLast, Validates, Place;
    if controls != [] {
      var first, rest := controls[0], controls[1..];
      assert forall c :: c in controls <==> c == first || c in rest;
      if Validates(first) {
        ControlBehindFragment(queue, first);
        if DataBeforeLast(queue) {
          ControlsBehindFragment(Deliver(queue, first), rest);
        } else {
          ControlsBehindControl(Deliver(queue, first), rest);
        }
      } else {
        ControlsBehindFragment(queue, rest);
      }
    }
  }

  /**
   Section 5.4 of RFC 6455 lets control frames arrive between two fragments. The parser keeps
   the next fragment exactly when the queue holds a data frame before the open fragment or
   none of the control frames is valid; otherwise a control frame has landed behind the open
   fragment and orphans the next one.
   */
  lemma InterleavedControls(queue: seq<Frame>, controls: seq<Frame>, next: Frame)
    requires queue != []
    requires !queue[|queue| - 1].FinBit() && !queue[|queue| - 1].IsControl()
    requires forall c | c in controls :: c.IsControl()
    requires Validates(next) && next.IsContinuation()
    ensures var kept := DataBeforeLast(queue) || forall c | c in controls :: !Validates(c);
            DeliverAll(queue, controls + [next])
            == DeliverAll(queue, controls) + if kept then [next.(valid := true)] else []
  {
    hide DataBeforeLast, Validates, DeliverAll, Frame.IsControl, Frame.IsContinuation, Frame.FinBit;
    ControlsBehindFragment(queue, controls);
    DeliverAllConcat(queue, controls, [next]);
    DeliverOne(DeliverAll(queue, controls), next);
  }

  /** What becomes of a continuation depends on the last frame only. */
  lemma DeliverOne(queue: seq<Frame>, next: Frame)
    requires queue != [] && Validates(next) && next.IsContinuation()
    ensures DeliverAll(queue, [next])
            == queue + if queue[|queue| - 1].FinBit() || queue[|queue| - 1].IsControl() then [] else [next.(valid := true)]
  {
    hide Validates;
    assert [next][1..] == [];
    assert DeliverAll(queue, [next]) == Deliver(queue, next);
    assert queue + [] == queue;
  }

  /** The smallest failing stream: text fragment, ping, final continuation. */
  lemma PingOrphansContinuation()
    ensures var text := Frame(0x01, 0, 1, [0x61], Completed, false);
            var ping := Frame(0x89, 0, 0, [], Completed, false);
            var last := Frame(0x80, 0, 1, [0x62], Completed, false);
            && DeliverAll([], [text, last]) == [text.(valid := true), last.(valid := true)]
            && DeliverAll([], [text, ping, last]) == [text.(valid := true), ping.(valid := true)]
  {
    var text := Frame(0x01, 0, 1, [0x61], Completed, false);
    var ping := Frame(0x89, 0, 0, [], Completed, false);
    var last := Frame(0x80, 0, 1, [0x62], Completed, false);
    var q1 := [text.(valid := true)];
    assert Deliver([], text) == q1;
    assert Deliver(q1, last) == q1 + [last.(valid := true)];
    var q2 := q1 + [ping.(valid := true)];
    assert ScanEnd(q1) == 1;
    assert Deliver(q1, ping) == q2;
    assert Deliver(q2, last) == q2;
    assert [text, last][1..] == [last] && [last][1..] == [];
    assert [text, ping, last][1..] == [ping, last] && [ping, last][1..] == [last];
    assert DeliverAll(q1, [last]) == DeliverAll(Deliver(q1, last), []);
    assert DeliverAll(q2, [last]) == DeliverAll(Deliver(q2, last), []);
    assert DeliverAll(q1, [ping, last]) == DeliverAll(q2, [last]);
  }
}
