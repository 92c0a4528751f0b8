/**
 When a script runs, told from the registered scripts and the order of arrivals alone
 (defaults/JSXTransformer.js:124-185, 226-292). Every event brings one scan, and a scan gets
 past one broken script at most.
 */
module ScriptSchedule {
  import opened ScriptLoader

  // ----- From the scripts and the events alone -----

  predicate Arrived(scripts: seq<Script>, es: seq<Event>, i: nat)
    requires i < |scripts|
  {
    scripts[i].loaded || Load(i) in es
  }

  /** The script has arrived, and every earlier one that must be waited for has arrived or failed. */
  ghost predicate Due(scripts: seq<Script>, es: seq<Event>, i: nat) {
    && i < |scripts| && Arrived(scripts, es, i)
    && forall k | 0 <= k < i :: scripts[k].isAsync || Arrived(scripts, es, k) || Fail(k) in es
  }

  /** The broken scripts before `j` that are due. */
  ghost function BrokenDue(scripts: seq<Script>, es: seq<Event>, j: nat): set<nat> {
    set i | 0 <= i < j && i < |scripts| && scripts[i].broken && Due(scripts, es, i)
  }

  /**
   The scan after the last event finds no broken script before `j` still to be taken up: over
   any number of last scans, fewer of them became due than there were scans.
   */
  ghost predicate CaughtUp(scripts: seq<Script>, es: seq<Event>, j: nat) {
    && |BrokenDue(scripts, es, j)| <= |es|
    && forall k | 0 <= k < |es| :: |BrokenDue(scripts, es, j)| < |BrokenDue(scripts, es[..k], j)| + |es| - k
  }

  // ----- The state -----

  /** What the events say about the scripts; only the marks of the scans are left open. */
  ghost predicate Reflects(scripts: seq<Script>, es: seq<Event>, marked: seq<Script>) {
    && |marked| == |scripts|
    && forall i | 0 <= i < |scripts| ::
         marked[i] == scripts[i].(loaded := Arrived(scripts, es, i), failed := Fail(i) in es, executed := marked[i].executed)
  }

  lemma {:induction false} LastScannedReflects(scripts: seq<Script>, es: seq<Event>)
    requires Registered(scripts) && CanRun(Begin(scripts), es)
    ensures Reflects(scripts, es, LastScanned(scripts, es).scripts)
    decreases |es|
  {
    if es != [] {
      var before, e := es[..|es| - 1], es[|es| - 1];
      assert es == before + [e];
      CanRunPrefix(Begin(scripts), es);
      LastScannedReflects(scripts, before);
      LastScanIsExact(scripts, before);
      hide Consistent, CheckFrom, CanRun, CanHappen, Begin, Run, Reflects, ScanIsExact, Settle;
      var last := LastScanned(scripts, before);
      ScanReflects(scripts, before, last, CheckFrom(last, 0));
      SettleReflects(scripts, before, Run(Begin(scripts), before), e);
    }
  }

  lemma ScanReflects(scripts: seq<Script>, es: seq<Event>, st: State, r: Scan)
    requires Reflects(scripts, es, st.scripts) && ScanIsExact(st, r)
    ensures Reflects(scripts, es, r.state.scripts)
  {
    hide Reached, Arrived;
  }

  lemma SettleReflects(scripts: seq<Script>, es: seq<Event>, st: State, e: Event)
    requires Reflects(scripts, es, st.scripts) && CanHappen(st, e)
    ensures Reflects(scripts, es + [e], Settle(st, e).scripts)
  {
  }

  lemma DueIsClear(scripts: seq<Script>, es: seq<Event>, marked: seq<Script>, i: nat)
    requires Reflects(scripts, es, marked) && i < |scripts|
    ensures Due(scripts, es, i) <==> marked[i].loaded && Clear(marked, i)
  {
    assert forall k | 0 <= k < |scripts| ::
        Blocks(marked[k]) <==> !(scripts[k].isAsync || Arrived(scripts, es, k) || Fail(k) in es);
  }

  // ----- Broken scripts before a position -----

  /** The broken scripts before `j` that have been taken up. */
  ghost function BrokenTaken(scripts: seq<Script>, j: nat): set<nat> {
    set i | 0 <= i < j && i < |scripts| && scripts[i].broken && scripts[i].executed
  }

  /** The broken scripts before `j` that a scan could take up. */
  ghost function BrokenWaiting(scripts: seq<Script>, j: nat): set<nat> {
    set i | 0 <= i < j && i < |scripts| && scripts[i].broken && Pending(scripts[i]) && Clear(scripts, i)
  }

  lemma DueIsTakenOrWaiting(scripts: seq<Script>, es: seq<Event>, st: State, j: nat)
    requires Consistent(st) && Reflects(scripts, es, st.scripts)
    ensures |BrokenDue(scripts, es, j)| == |BrokenTaken(st.scripts, j)| + |BrokenWaiting(st.scripts, j)|
  {
    var due, taken, waiting := BrokenDue(scripts, es, j), BrokenTaken(st.scripts, j), BrokenWaiting(st.scripts, j);
    forall i ensures i in due <==> i in taken + waiting {
      if 0 <= i < j && i < |scripts| && scripts[i].broken {
        DueIsClear(scripts, es, st.scripts, i);
        if st.scripts[i].executed {
          ConsistentRanClear(st, i);
        }
      }
    }
    assert due == taken + waiting && taken !! waiting;
  }

  lemma {:induction false} Least(s: set<nat>) returns (m: nat)
    requires s != {}
    ensures m in s && forall x | x in s :: m <= x
    decreases |s|
  {
    var x :| x in s;
    var rest := s - {x};
    assert s == rest + {x};
    if rest == {} {
      m := x;
    } else {
      var n := Least(rest);
      m := if n < x then n else x;
    }
  }

  /** A scan takes up one broken script before `j`, the first one waiting, if there is one. */
  lemma ScanTakesOne(st: State, r: Scan, j: nat)
    requires ScanIsExact(st, r)
    ensures |BrokenTaken(r.state.scripts, j)|
            == |BrokenTaken(st.scripts, j)| + if BrokenWaiting(st.scripts, j) == {} then 0 else 1
  {
    var before, after, waiting := BrokenTaken(st.scripts, j), BrokenTaken(r.state.scripts, j), BrokenWaiting(st.scripts, j);
    if waiting == {} {
      forall i ensures i in after <==> i in before {
        assert i in after && i !in before ==> i in waiting;
      }
      assert after == before;
    } else {
      var m := Least(waiting);
      FirstWaitingIsReached(st.scripts, j, m);
      forall i ensures i in after <==> i in before || i == m {
        if i in after && i !in before {
          assert i in waiting;
          assert i > m ==> Stopped(st.scripts, i);
        }
      }
      assert after == before + {m} && m !in before;
    }
  }

  lemma FirstWaitingIsReached(scripts: seq<Script>, j: nat, m: nat)
    requires m in BrokenWaiting(scripts, j) && forall x | x in BrokenWaiting(scripts, j) :: m <= x
    ensures Reached(scripts, m)
  {
    forall k | 0 <= k < m ensures !(Pending(scripts[k]) && scripts[k].broken) {
      assert k !in BrokenWaiting(scripts, j);
      assert Clear(scripts, k);
    }
  }

  lemma ReachedWhenNoneWaits(scripts: seq<Script>, j: nat)
    requires j < |scripts|
    ensures Reached(scripts, j) <==> Pending(scripts[j]) && Clear(scripts, j) && BrokenWaiting(scripts, j) == {}
  {
    if Clear(scripts, j) && Stopped(scripts, j) {
      var k :| 0 <= k < j && Pending(scripts[k]) && scripts[k].broken;
      assert k in BrokenWaiting(scripts, j);
    }
    if BrokenWaiting(scripts, j) != {} {
      var k :| k in BrokenWaiting(scripts, j);
      assert Stopped(scripts, j);
    }
  }

  // ----- The backlog -----

  /** How many broken scripts before `j` wait when the scan after the last event starts. */
  ghost function Backlog(scripts: seq<Script>, es: seq<Event>, j: nat): nat
    requires CanRun(Begin(scripts), es)
  {
    |BrokenWaiting(LastScanned(scripts, es).scripts, j)|
  }

  lemma LastScannedAfter(scripts: seq<Script>, es: seq<Event>)
    requires CanRun(Begin(scripts), es) && es != []
    ensures var before := es[..|es| - 1];
            && CanRun(Begin(scripts), before)
            && CanHappen(Run(Begin(scripts), before), es[|es| - 1])
            && LastScanned(scripts, es) == Settle(Run(Begin(scripts), before), es[|es| - 1])
  {
    CanRunPrefix(Begin(scripts), es);
  }

  /** What becomes due joins the backlog, and each scan takes one off. */
  lemma BacklogStep(scripts: seq<Script>, es: seq<Event>, j: nat)
    requires Registered(scripts) && CanRun(Begin(scripts), es)
    ensures es == [] ==> Backlog(scripts, es, j) == |BrokenDue(scripts, es, j)|
    ensures es != [] ==>
              var before := es[..|es| - 1];
              && CanRun(Begin(scripts), before)
              && Backlog(scripts, es, j) + |BrokenDue(scripts, before, j)| + (if Backlog(scripts, before, j) > 0 then 1 else 0)
                 == Backlog(scripts, before, j) + |BrokenDue(scripts, es, j)|
  {
    hide Consistent, ScanIsExact, CheckFrom, CanRun, Begin, Run, Reflects, BrokenDue, BrokenWaiting, LastScanned, CanHappen;
    LastScannedReflects(scripts, es);
    LastScanIsExact(scripts, es);
    DueIsTakenOrWaiting(scripts, es, LastScanned(scripts, es), j);
    if es == [] {
      NothingTaken(scripts, j);
    } else {
      var before, e := es[..|es| - 1], es[|es| - 1];
      LastScannedAfter(scripts, es);
      LastScannedReflects(scripts, before);
      LastScanIsExact(scripts, before);
      var last := LastScanned(scripts, before);
      DueIsTakenOrWaiting(scripts, before, last, j);
      ScanTakesOne(last, CheckFrom(last, 0), j);
      SettleTakesNone(Run(Begin(scripts), before), e, j);
    }
  }

  lemma NothingTaken(scripts: seq<Script>, j: nat)
    requires Registered(scripts)
    ensures CanRun(Begin(scripts), []) && BrokenTaken(LastScanned(scripts, []).scripts, j) == {}
  {
  }

  lemma SettleTakesNone(st: State, e: Event, j: nat)
    requires CanHappen(st, e)
    ensures BrokenTaken(Settle(st, e).scripts, j) == BrokenTaken(st.scripts, j)
  {
  }

  /**
   The backlog bounds how many became due over any number of last scans, and for some number
   of them it is exactly what is left.
   */
  lemma {:induction false} BacklogIsExact(scripts: seq<Script>, es: seq<Event>, j: nat)
    requires Registered(scripts) && CanRun(Begin(scripts), es)
    ensures var due, left := |BrokenDue(scripts, es, j)|, Backlog(scripts, es, j);
            && due <= left + |es|
            && (forall k | 0 <= k < |es| :: due <= left + |BrokenDue(scripts, es[..k], j)| + |es| - k - 1)
            && (|| due == left + |es|
                || exists k | 0 <= k < |es| :: due == left + |BrokenDue(scripts, es[..k], j)| + |es| - k - 1)
    decreases |es|
  {
    hide BrokenDue, Backlog, CanRun, Begin;
    BacklogStep(scripts, es, j);
    if es != [] {
      var n := |es| - 1;
      var before := es[..n];
      BacklogIsExact(scripts, before, j);
      assert forall k | 0 <= k < n :: before[..k] == es[..k];
      var due, dueBefore := |BrokenDue(scripts, es, j)|, |BrokenDue(scripts, before, j)|;
      var left, leftBefore := Backlog(scripts, es, j), Backlog(scripts, before, j);
      if leftBefore == 0 {
        assert due == left + |BrokenDue(scripts, es[..n], j)| + |es| - n - 1;
      } else if dueBefore != leftBefore + n {
        var k :| 0 <= k < n && dueBefore == leftBefore + |BrokenDue(scripts, before[..k], j)| + n - k - 1;
        assert due == left + |BrokenDue(scripts, es[..k], j)| + |es| - k - 1;
      }
    }
  }

  lemma CaughtUpIsNoBacklog(scripts: seq<Script>, es: seq<Event>, j: nat)
    requires Registered(scripts) && CanRun(Begin(scripts), es)
    ensures CaughtUp(scripts, es, j) <==> Backlog(scripts, es, j) == 0
  {
    hide BrokenDue, Backlog, CanRun, Begin;
    BacklogIsExact(scripts, es, j);
  }

  // ----- When a script runs -----

  /** Some scan has found `j` due and no broken script before it. */
  ghost predicate HasItsTurn(scripts: seq<Script>, es: seq<Event>, j: nat) {
    exists t | 0 <= t <= |es| :: Due(scripts, es[..t], j) && CaughtUp(scripts, es[..t], j)
  }

  lemma TurnComesNowOrBefore(scripts: seq<Script>, es: seq<Event>, j: nat)
    ensures HasItsTurn(scripts, es, j)
            <==> || (Due(scripts, es, j) && CaughtUp(scripts, es, j))
                 || (es != [] && HasItsTurn(scripts, es[..|es| - 1], j))
  {
    hide Due, CaughtUp;
    assert es[..|es|] == es;
    if es != [] {
      var before := es[..|es| - 1];
      assert forall t | 0 <= t <= |before| :: before[..t] == es[..t];
    }
  }

  lemma LastScanReaches(scripts: seq<Script>, es: seq<Event>, j: nat)
    requires Registered(scripts) && CanRun(Begin(scripts), es) && j < |scripts|
    ensures var last := LastScanned(scripts, es);
            && |last.scripts| == |scripts| == |Run(Begin(scripts), es).scripts|
            && (Reached(last.scripts, j)
                <==> Due(scripts, es, j) && CaughtUp(scripts, es, j) && !last.scripts[j].executed)
            && Run(Begin(scripts), es).scripts[j].executed == (last.scripts[j].executed || Reached(last.scripts, j))
  {
    hide Consistent, CheckFrom, CanRun, Begin, Run, Due, BrokenWaiting, LastScanned, CaughtUp, Reached;
    LastScannedReflects(scripts, es);
    LastScanIsExact(scripts, es);
    var last := LastScanned(scripts, es).scripts;
    DueIsClear(scripts, es, last, j);
    ReachedWhenNoneWaits(last, j);
    CaughtUpIsNoBacklog(scripts, es, j);
  }

  lemma {:induction false} TakenUpExactlyWhen(scripts: seq<Script>, es: seq<Event>, j: nat)
    requires Registered(scripts) && CanRun(Begin(scripts), es) && j < |scripts|
    ensures |Run(Begin(scripts), es).scripts| == |scripts|
    ensures Run(Begin(scripts), es).scripts[j].executed <==> HasItsTurn(scripts, es, j)
    decreases |es|
  {
    hide CheckFrom, CanRun, Begin, Run, Due, CaughtUp, Reached, HasItsTurn, CanHappen;
    LastScanReaches(scripts, es, j);
    TurnComesNowOrBefore(scripts, es, j);
    if es != [] {
      LastScannedAfter(scripts, es);
      TakenUpExactlyWhen(scripts, es[..|es| - 1], j);
    }
  }

  /**
   Whatever the scripts and the order of arrivals, a sound script has run if and only if at some
   point it was due and, over any number of the scans up to then, fewer broken scripts before it
   became due than there were scans.
   */
  lemma RunsExactlyWhen(scripts: seq<Script>, es: seq<Event>, j: nat)
    requires Registered(scripts) && CanRun(Begin(scripts), es) && j < |scripts| && !scripts[j].broken
    ensures j in Run(Begin(scripts), es).log <==> HasItsTurn(scripts, es, j)
  {
    hide CheckFrom, CanRun, Begin, Run, HasItsTurn, Consistent;
    TakenUpExactlyWhen(scripts, es, j);
    LastScannedReflects(scripts, es);
    LastScanIsExact(scripts, es);
    LoggedIsRan(Run(Begin(scripts), es), j);
  }

  /** Without async scripts the last event decides. */
  lemma RunsInOrderExactlyWhen(scripts: seq<Script>, es: seq<Event>, j: nat)
    requires Registered(scripts) && CanRun(Begin(scripts), es) && j < |scripts| && !scripts[j].broken
    requires forall i | 0 <= i < |scripts| :: !scripts[i].isAsync
    ensures j in Run(Begin(scripts), es).log <==> Due(scripts, es, j) && CaughtUp(scripts, es, j)
  {
    hide CheckFrom, CanRun, Begin, Run, Consistent, Due, CaughtUp, LastScanned;
    LastScanReaches(scripts, es, j);
    LastScannedReflects(scripts, es);
    LastScanIsExact(scripts, es);
    LoggedIsRan(Run(Begin(scripts), es), j);
    var last := LastScanned(scripts, es);
    if last.scripts[j].executed {
      DueIsClear(scripts, es, last.scripts, j);
      ConsistentRanClear(last, j);
      TakenInOrder(last, j);
      CaughtUpIsNoBacklog(scripts, es, j);
    }
  }

  lemma TakenInOrder(st: State, j: nat)
    requires Consistent(st) && j < |st.scripts| && st.scripts[j].executed
    requires forall i | 0 <= i < |st.scripts| :: !st.scripts[i].isAsync
    ensures BrokenWaiting(st.scripts, j) == {}
  {
    forall i | 0 <= i < j ensures !Pending(st.scripts[i]) {
      assert SettledBefore(st.scripts[i]);
    }
  }
}
