/**
 The transaction engine: wrappers are initialised, the body runs, and the wrappers are closed,
 whatever throws (defaults/react-with-addons.js:16, module 121). A callback is given by what
 it does; an exception in flight is a returned error.
 */
module Transaction {
  import opened Collections

  datatype Callback = Absent | Returns(value: int) | Throws(error: int)

  datatype Wrapper = Wrapper(initialize: Callback, close: Callback)

  datatype InitData = ObservedError | Data(value: Option<int>)

  datatype Event = Initialized(index: nat) | BodyRan | Closed(index: nat, data: InitData)

  // ----- What should happen -----

  /** The data kept for a wrapper; a missing initialiser leaves null. */
  function DataOf(w: Wrapper): InitData {
    match w.initialize
    case Absent => Data(None)
    case Returns(v) => Data(Some(v))
    case Throws(_) => ObservedError
  }

  function AllData(ws: seq<Wrapper>): (r: seq<InitData>)
    ensures |r| == |ws| && forall i | 0 <= i < |ws| :: r[i] == DataOf(ws[i])
  {
    seq(|ws|, i requires 0 <= i < |ws| => DataOf(ws[i]))
  }

  function InitLog(ws: seq<Wrapper>, i: nat): seq<Event>
    requires i <= |ws|
    decreases |ws| - i
  {
    if i == |ws| then []
    else (if ws[i].initialize.Absent? then [] else [Initialized(i)]) + InitLog(ws, i + 1)
  }

  /** A wrapper is closed when it can be and its initialisation did not throw. */
  predicate IsClosed(w: Wrapper) {
    !w.initialize.Throws? && !w.close.Absent?
  }

  function CloseLog(ws: seq<Wrapper>, i: nat): seq<Event>
    requires i <= |ws|
    decreases |ws| - i
  {
    if i == |ws| then []
    else (if IsClosed(ws[i]) then [Closed(i, DataOf(ws[i]))] else []) + CloseLog(ws, i + 1)
  }

  function ErrorOf(c: Callback): Option<int> {
    if c.Throws? then Some(c.error) else None
  }

  function FirstInitError(ws: seq<Wrapper>, i: nat): Option<int>
    requires i <= |ws|
    decreases |ws| - i
  {
    if i == |ws| then None
    else if ws[i].initialize.Throws? then Some(ws[i].initialize.error)
    else FirstInitError(ws, i + 1)
  }

  function FirstCloseError(ws: seq<Wrapper>, i: nat): Option<int>
    requires i <= |ws|
    decreases |ws| - i
  {
    if i == |ws| then None
    else if IsClosed(ws[i]) && ws[i].close.Throws? then Some(ws[i].close.error)
    else FirstCloseError(ws, i + 1)
  }

  function Or(a: Option<int>, b: Option<int>): Option<int> {
    if a.Some? then a else b
  }

  /** The error raised first, in the order in which the callbacks run. */
  function FirstError(ws: seq<Wrapper>, body: Callback): Option<int> {
    Or(FirstInitError(ws, 0), Or(ErrorOf(body), FirstCloseError(ws, 0)))
  }

  function ExpectedLog(ws: seq<Wrapper>): seq<Event> {
    InitLog(ws, 0) + (if FirstInitError(ws, 0).None? then [BodyRan] else []) + CloseLog(ws, 0)
  }

  lemma InitLogUnfolds(ws: seq<Wrapper>, i: nat)
    requires i < |ws|
    ensures InitLog(ws, i)
            == if ws[i].initialize.Absent? then InitLog(ws, i + 1) else [Initialized(i)] + InitLog(ws, i + 1)
  {
    assert [] + InitLog(ws, i + 1) == InitLog(ws, i + 1);
  }

  lemma DataUnfolds(ws: seq<Wrapper>, i: nat)
    requires i < |ws|
    ensures AllData(ws)[..i + 1] == AllData(ws)[..i] + [DataOf(ws[i])]
  {
  }

  lemma InitUnfolds(ws: seq<Wrapper>, i: nat, log: seq<Event>)
    requires i < |ws|
    ensures log + InitLog(ws, i) == (if ws[i].initialize.Absent? then log else log + [Initialized(i)]) + InitLog(ws, i + 1)
    ensures FirstInitError(ws, i)
            == if ws[i].initialize.Throws? then Some(ws[i].initialize.error) else FirstInitError(ws, i + 1)
    ensures AllData(ws)[..i + 1] == AllData(ws)[..i] + [DataOf(ws[i])]
  {
    hide InitLog, AllData, DataOf;
    InitLogUnfolds(ws, i);
    DataUnfolds(ws, i);
    Associates(log, [Initialized(i)], InitLog(ws, i + 1));
  }

  lemma InitEnds(ws: seq<Wrapper>, log: seq<Event>)
    ensures log + InitLog(ws, |ws|) == log && FirstInitError(ws, |ws|) == None && AllData(ws)[..|ws|] == AllData(ws)
  {
  }

  // ----- The order of the calls -----

  /** Which calls are made: initialisers, the body when none of them throws, and the closings. */
  ghost predicate Happens(ws: seq<Wrapper>, e: Event) {
    match e
    case Initialized(n) => n < |ws| && !ws[n].initialize.Absent?
    case BodyRan => forall n | 0 <= n < |ws| :: !ws[n].initialize.Throws?
    case Closed(n, data) =>
      && n < |ws| && !ws[n].initialize.Throws? && !ws[n].close.Absent?
      && data == Data(if ws[n].initialize.Returns? then Some(ws[n].initialize.value) else None)
  }

  /** Initialisers come first, by position, then the body, then the closings, by position. */
  function Rank(ws: seq<Wrapper>, e: Event): nat {
    match e
    case Initialized(n) => n
    case BodyRan => |ws|
    case Closed(n, _) => |ws| + 1 + n
  }

  ghost predicate RanksAscend(ws: seq<Wrapper>, log: seq<Event>) {
    forall k, l | 0 <= k < l < |log| :: Rank(ws, log[k]) < Rank(ws, log[l])
  }

  /** The callback that a log entry stands for. */
  function CallOf(ws: seq<Wrapper>, body: Callback, e: Event): Callback {
    match e
    case Initialized(n) => if n < |ws| then ws[n].initialize else Absent
    case BodyRan => body
    case Closed(n, _) => if n < |ws| then ws[n].close else Absent
  }

  /** Some call throws `error`, and none before it throws. */
  ghost predicate ThrownFirst(ws: seq<Wrapper>, body: Callback, log: seq<Event>, error: int) {
    exists k | 0 <= k < |log| ::
      && CallOf(ws, body, log[k]) == Throws(error)
      && forall l | 0 <= l < k :: !CallOf(ws, body, log[l]).Throws?
  }

  ghost predicate NoneThrows(ws: seq<Wrapper>, body: Callback, log: seq<Event>) {
    forall k | 0 <= k < |log| :: !CallOf(ws, body, log[k]).Throws?
  }

  /** The first error that a log of calls gives. */
  function FirstOf(ws: seq<Wrapper>, body: Callback, log: seq<Event>): Option<int> {
    if log == [] then None
    else Or(ErrorOf(CallOf(ws, body, log[0])), FirstOf(ws, body, log[1..]))
  }

  lemma ThrownFirstLater(ws: seq<Wrapper>, body: Callback, log: seq<Event>, error: int)
    requires log != [] && !CallOf(ws, body, log[0]).Throws?
    ensures ThrownFirst(ws, body, log, error) <==> ThrownFirst(ws, body, log[1..], error)
    ensures NoneThrows(ws, body, log) <==> NoneThrows(ws, body, log[1..])
  {
    hide CallOf;
    var tail := log[1..];
    assert forall k | 0 <= k < |tail| :: tail[k] == log[k + 1];
    if k :| 0 <= k < |log| && CallOf(ws, body, log[k]) == Throws(error)
            && forall l | 0 <= l < k :: !CallOf(ws, body, log[l]).Throws? {
      assert tail[k - 1] == log[k];
      assert forall l | 0 <= l < k - 1 :: !CallOf(ws, body, tail[l]).Throws?;
    }
    if k :| 0 <= k < |tail| && CallOf(ws, body, tail[k]) == Throws(error)
            && forall l | 0 <= l < k :: !CallOf(ws, body, tail[l]).Throws? {
      assert log[k + 1] == tail[k];
      assert forall l | 0 <= l < k + 1 :: !CallOf(ws, body, log[l]).Throws?;
    }
  }

  lemma ThrownFirstNow(ws: seq<Wrapper>, body: Callback, log: seq<Event>, error: int)
    requires log != [] && CallOf(ws, body, log[0]).Throws?
    ensures ThrownFirst(ws, body, log, error) <==> CallOf(ws, body, log[0]) == Throws(error)
    ensures !NoneThrows(ws, body, log)
  {
    hide CallOf;
  }

  lemma {:induction false} FirstOfIsThrownFirst(ws: seq<Wrapper>, body: Callback, log: seq<Event>, error: int)
    ensures FirstOf(ws, body, log) == Some(error) <==> ThrownFirst(ws, body, log, error)
    ensures FirstOf(ws, body, log) == None <==> NoneThrows(ws, body, log)
  {
    hide CallOf;
    if log != [] {
      hide ThrownFirst, NoneThrows;
      if CallOf(ws, body, log[0]).Throws? {
        ThrownFirstNow(ws, body, log, error);
      } else {
        FirstOfIsThrownFirst(ws, body, log[1..], error);
        ThrownFirstLater(ws, body, log, error);
      }
    }
  }

  lemma {:induction false} FirstOfConcat(ws: seq<Wrapper>, body: Callback, a: seq<Event>, b: seq<Event>)
    ensures FirstOf(ws, body, a + b) == Or(FirstOf(ws, body, a), FirstOf(ws, body, b))
    decreases |a|
  {
    if a == [] {
      assert a + b == b;
    } else {
      assert (a + b)[0] == a[0] && (a + b)[1..] == a[1..] + b;
      FirstOfConcat(ws, body, a[1..], b);
    }
  }

  lemma FirstOfOne(ws: seq<Wrapper>, body: Callback, e: Event)
    ensures FirstOf(ws, body, [e]) == ErrorOf(CallOf(ws, body, e))
  {
    assert [e][1..] == [];
  }

  lemma {:induction false} FirstInInitLog(ws: seq<Wrapper>, body: Callback, i: nat)
    requires i <= |ws|
    ensures FirstOf(ws, body, InitLog(ws, i)) == FirstInitError(ws, i)
    decreases |ws| - i
  {
    if i < |ws| {
      FirstInInitLog(ws, body, i + 1);
      FirstOfOne(ws, body, Initialized(i));
      FirstOfConcat(ws, body, if ws[i].initialize.Absent? then [] else [Initialized(i)], InitLog(ws, i + 1));
    }
  }

  lemma {:induction false} FirstInCloseLog(ws: seq<Wrapper>, body: Callback, i: nat)
    requires i <= |ws|
    ensures FirstOf(ws, body, CloseLog(ws, i)) == FirstCloseError(ws, i)
    decreases |ws| - i
  {
    if i < |ws| {
      var e := Closed(i, DataOf(ws[i]));
      FirstInCloseLog(ws, body, i + 1);
      FirstOfOne(ws, body, e);
      FirstOfConcat(ws, body, if IsClosed(ws[i]) then [e] else [], CloseLog(ws, i + 1));
    }
  }

  /** The error that escapes is the one thrown first in the order of the calls. */
  lemma FirstErrorIsThrownFirst(ws: seq<Wrapper>, body: Callback)
    ensures forall error :: FirstError(ws, body) == Some(error) <==> ThrownFirst(ws, body, ExpectedLog(ws), error)
    ensures FirstError(ws, body) == None <==> NoneThrows(ws, body, ExpectedLog(ws))
  {
    hide FirstOf, InitLog, CloseLog, FirstInitError, FirstCloseError, ThrownFirst, NoneThrows;
    var ran: seq<Event> := if FirstInitError(ws, 0).None? then [BodyRan] else [];
    FirstInInitLog(ws, body, 0);
    FirstInCloseLog(ws, body, 0);
    FirstOfConcat(ws, body, InitLog(ws, 0) + ran, CloseLog(ws, 0));
    FirstOfConcat(ws, body, InitLog(ws, 0), ran);
    FirstOfOne(ws, body, BodyRan);
    FirstOfIsThrownFirst(ws, body, ExpectedLog(ws), 0);
    forall error ensures FirstError(ws, body) == Some(error) <==> ThrownFirst(ws, body, ExpectedLog(ws), error) {
      FirstOfIsThrownFirst(ws, body, ExpectedLog(ws), error);
    }
  }

  lemma {:induction false} InitLogIsExact(ws: seq<Wrapper>, i: nat)
    requires i <= |ws|
    ensures forall e :: e in InitLog(ws, i) <==> e.Initialized? && i <= e.index && Happens(ws, e)
    ensures RanksAscend(ws, InitLog(ws, i))
    decreases |ws| - i
  {
    if i < |ws| {
      InitLogIsExact(ws, i + 1);
      var log, tail := InitLog(ws, i), InitLog(ws, i + 1);
      assert log == (if ws[i].initialize.Absent? then [] else [Initialized(i)]) + tail;
      assert forall k | 0 <= k < |tail| :: tail[k] in tail;
    }
  }

  /** The log holds exactly the calls that happen, once each and in order. */
  lemma ExpectedLogIsExact(ws: seq<Wrapper>)
    ensures forall e :: e in ExpectedLog(ws) <==> Happens(ws, e)
    ensures RanksAscend(ws, ExpectedLog(ws))
  {
    InitLogIsExact(ws, 0);
    CloseLogIsExact(ws, 0);
    NoErrorMeansNoThrow(ws, 0);
    hide InitLog, CloseLog, FirstInitError;
    var ran: seq<Event> := if FirstInitError(ws, 0).None? then [BodyRan] else [];
    var log := ExpectedLog(ws);
    assert log == InitLog(ws, 0) + ran + CloseLog(ws, 0);
    forall e ensures e in CloseLog(ws, 0) <==> e.Closed? && Happens(ws, e) {
      ClosingHappens(ws, e);
    }
    PhasesAscend(ws, InitLog(ws, 0), ran, CloseLog(ws, 0));
  }

  lemma ClosingHappens(ws: seq<Wrapper>, e: Event)
    ensures IsClosing(ws, 0, e) <==> e.Closed? && Happens(ws, e)
  {
  }

  lemma PhasesAscend(ws: seq<Wrapper>, a: seq<Event>, ran: seq<Event>, b: seq<Event>)
    requires RanksAscend(ws, a) && forall e | e in a :: e.Initialized? && e.index < |ws|
    requires ran == [] || ran == [BodyRan]
    requires IndicesAscend(b)
    requires |b| > 0 ==> forall e | e in b :: e.Closed?
    ensures RanksAscend(ws, a + ran + b)
  {
    assert forall k | 0 <= k < |a| :: a[k] in a;
    assert forall k | 0 <= k < |b| :: b[k] in b;
  }

  // ----- The engine -----

  datatype Outcome = Nested | Raised(error: int) | Finished

  class Engine {
    const wrappers: seq<Wrapper>
    var initData: seq<InitData>
    var inTransaction: bool
    var log: seq<Event>

    /** Between transactions no initialisation data is kept. */
    ghost predicate Valid()
      reads this
    {
      !inTransaction ==> initData == []
    }

    constructor (wrappers: seq<Wrapper>)
      ensures Valid() && !inTransaction && log == [] && this.wrappers == wrappers
    {
      this.wrappers := wrappers;
      initData, inTransaction, log := [], false, [];
    }

    /** `initializeAll`: the first error is returned, after the remaining wrappers had their turn. */
    method InitializeAll(start: nat) returns (error: Option<int>)
      requires start <= |wrappers| && initData == AllData(wrappers)[..start]
      modifies this`initData, this`log
      ensures initData == AllData(wrappers)
      ensures log == old(log) + InitLog(wrappers, start)
      ensures error == FirstInitError(wrappers, start)
      decreases |wrappers| - start
    {
      hide InitLog, FirstInitError, AllData;
      var n := start;
      while n < |wrappers|
        invariant start <= n <= |wrappers|
        invariant initData == AllData(wrappers)[..n]
        invariant old(log) + InitLog(wrappers, start) == log + InitLog(wrappers, n)
        invariant FirstInitError(wrappers, start) == FirstInitError(wrappers, n)
      {
        var wrapper := wrappers[n];
        InitUnfolds(wrappers, n, log);
        initData := initData + [ObservedError];
        match wrapper.initialize {
          case Absent =>
            initData := initData[n := Data(None)];
          case Returns(v) =>
            log := log + [Initialized(n)];
            initData := initData[n := Data(Some(v))];
          case Throws(e) =>
            log := log + [Initialized(n)];
            var swallowed := InitializeAll(n + 1);
            return Some(e);
        }
        n := n + 1;
      }
      InitEnds(wrappers, log);
      return None;
    }

    /** `closeAll`: every wrapper that can be closed is, and the first error is returned. */
    method CloseAll(start: nat) returns (error: Option<int>)
      requires inTransaction && start <= |wrappers| && initData == AllData(wrappers)
      modifies this`initData, this`log
      ensures initData == []
      ensures log == old(log) + CloseLog(wrappers, start)
      ensures error == FirstCloseError(wrappers, start)
      decreases |wrappers| - start
    {
      var n := start;
      while n < |wrappers|
        invariant start <= n <= |wrappers| && initData == AllData(wrappers)
        invariant old(log) + CloseLog(wrappers, start) == log + CloseLog(wrappers, n)
        invariant FirstCloseError(wrappers, start) == FirstCloseError(wrappers, n)
      {
        var wrapper, data := wrappers[n], initData[n];
        if data != ObservedError && !wrapper.close.Absent? {
          log := log + [Closed(n, data)];
          if wrapper.close.Throws? {
            var swallowed := CloseAll(n + 1);
            return Some(wrapper.close.error);
          }
        }
        n := n + 1;
      }
      initData := [];
      return None;
    }

    /**
     `perform`: outside a transaction, every wrapper is initialised, the body runs unless an
     initialiser threw, exactly the wrappers that came up are closed, and only the error
     raised first escapes; inside one, nothing happens at all.
     */
    method Perform(body: Callback) returns (outcome: Outcome)
      requires Valid()
      modifies this
      ensures Valid() && inTransaction == old(inTransaction)
      ensures old(inTransaction) ==> outcome == Nested && log == old(log) && initData == old(initData)
      ensures !old(inTransaction) ==>
                && log == old(log) + ExpectedLog(wrappers)
                && (forall e :: e in log[|old(log)|..] <==> Happens(wrappers, e))
                && RanksAscend(wrappers, log[|old(log)|..])
      ensures !old(inTransaction) ==>
                match outcome
                case Raised(e) => ThrownFirst(wrappers, body, log[|old(log)|..], e)
                case Finished => NoneThrows(wrappers, body, log[|old(log)|..])
                case Nested => false
    {
      if inTransaction {
        return Nested;
      }
      hide InitLog, CloseLog, ExpectedLog, FirstInitError, FirstCloseError, FirstError, AllData;
      hide ThrownFirst, NoneThrows, RanksAscend, Happens;
      ghost var before := log;
      inTransaction := true;
      assert AllData(wrappers)[..0] == [];
      var error := InitializeAll(0);
      ghost var ran: seq<Event> := if error.None? then [BodyRan] else [];
      if error.None? {
        log := log + [BodyRan];
        error := ErrorOf(body);
      }
      var closeError := CloseAll(0);
      if error.None? {
        error := closeError;
      }
      inTransaction := false;
      Performed(wrappers, body, before, ran);
      outcome := if error.Some? then Raised(error.value) else Finished;
    }
  }

  /** The log and the error that the phases leave together. */
  lemma Performed(ws: seq<Wrapper>, body: Callback, before: seq<Event>, ran: seq<Event>)
    requires ran == if FirstInitError(ws, 0).None? then [BodyRan] else []
    ensures FirstError(ws, body) == Or(if ran == [] then FirstInitError(ws, 0) else ErrorOf(body), FirstCloseError(ws, 0))
    ensures before + InitLog(ws, 0) + ran + CloseLog(ws, 0) == before + ExpectedLog(ws)
    ensures before + InitLog(ws, 0) + [] == before + InitLog(ws, 0)
    ensures (before + ExpectedLog(ws))[|before|..] == ExpectedLog(ws)
    ensures (forall e :: e in ExpectedLog(ws) <==> Happens(ws, e)) && RanksAscend(ws, ExpectedLog(ws))
    ensures match FirstError(ws, body)
            case Some(e) => ThrownFirst(ws, body, ExpectedLog(ws), e)
            case None => NoneThrows(ws, body, ExpectedLog(ws))
  {
    FirstErrorIsThrownFirst(ws, body);
    ExpectedLogIsExact(ws);
    hide InitLog, CloseLog, FirstInitError, FirstCloseError, ThrownFirst, NoneThrows, RanksAscend, Happens;
    var a, b := InitLog(ws, 0), CloseLog(ws, 0);
    assert before + a + ran + b == before + (a + ran + b);
  }

  // ----- What the log says -----

  /** The entry of a wrapper at position `from` or later that came up and can be closed. */
  predicate IsClosing(ws: seq<Wrapper>, from: nat, e: Event) {
    e.Closed? && from <= e.index < |ws| && IsClosed(ws[e.index]) && e.data == DataOf(ws[e.index])
  }

  ghost predicate IndicesAscend(log: seq<Event>) {
    forall k, l | 0 <= k < l < |log| :: log[k].Closed? && log[l].Closed? && log[k].index < log[l].index
  }

  lemma {:induction false} CloseLogMembers(ws: seq<Wrapper>, i: nat, e: Event)
    requires i <= |ws|
    ensures e in CloseLog(ws, i) <==> IsClosing(ws, i, e)
    decreases |ws| - i
  {
    hide CloseLog, IsClosed, DataOf;
    CloseUnfolds(ws, i);
    if i < |ws| {
      CloseLogMembers(ws, i + 1, e);
    }
  }

  lemma {:induction false} CloseLogAscends(ws: seq<Wrapper>, i: nat)
    requires i <= |ws|
    ensures IndicesAscend(CloseLog(ws, i))
    decreases |ws| - i
  {
    hide CloseLog;
    CloseUnfolds(ws, i);
    if i < |ws| {
      CloseLogAscends(ws, i + 1);
      var tail := CloseLog(ws, i + 1);
      forall k | 0 <= k < |tail| ensures IsClosing(ws, i + 1, tail[k]) {
        CloseLogMembers(ws, i + 1, tail[k]);
      }
    }
  }

  lemma CloseUnfolds(ws: seq<Wrapper>, i: nat)
    requires i <= |ws|
    ensures CloseLog(ws, i)
            == if i == |ws| then []
               else if IsClosed(ws[i]) then [Closed(i, DataOf(ws[i]))] + CloseLog(ws, i + 1)
               else CloseLog(ws, i + 1)
  {
    if i < |ws| && !IsClosed(ws[i]) {
      assert [] + CloseLog(ws, i + 1) == CloseLog(ws, i + 1);
    }
  }

  /** The closing phase closes each wrapper that came up, once, with its own data, in order. */
  lemma CloseLogIsExact(ws: seq<Wrapper>, i: nat)
    requires i <= |ws|
    ensures forall e :: e in CloseLog(ws, i) <==> IsClosing(ws, i, e)
    ensures IndicesAscend(CloseLog(ws, i))
  {
    forall e ensures e in CloseLog(ws, i) <==> IsClosing(ws, i, e) {
      CloseLogMembers(ws, i, e);
    }
    CloseLogAscends(ws, i);
  }

  /** Nothing escapes exactly when no callback that runs throws. */
  lemma {:induction false} NoErrorMeansNoThrow(ws: seq<Wrapper>, i: nat)
    requires i <= |ws|
    ensures FirstInitError(ws, i).None? <==> forall n | i <= n < |ws| :: !ws[n].initialize.Throws?
    ensures FirstCloseError(ws, i).None? <==> forall n | i <= n < |ws| && IsClosed(ws[n]) :: !ws[n].close.Throws?
    decreases |ws| - i
  {
    if i < |ws| {
      NoErrorMeansNoThrow(ws, i + 1);
    }
  }
}
