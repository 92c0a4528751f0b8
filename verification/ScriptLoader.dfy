/**
 Loading scripts in any order and running them in document order, when running one may throw
 (defaults/JSXTransformer.js:124-185, 226-292).
 */
module ScriptLoader {

  /** `broken` says that transforming the script throws, so that taking it up runs nothing. */
  datatype Script = Script(isAsync: bool, broken: bool, loaded: bool, failed: bool, executed: bool)

  /** The scripts, and the order in which they have been run so far. */
  datatype State = State(scripts: seq<Script>, log: seq<nat>)

  /** A script that must be waited for. */
  predicate Blocks(s: Script) {
    !s.loaded && !s.failed && !s.isAsync
  }

  /** A script that has arrived and has not been taken up. */
  predicate Pending(s: Script) {
    s.loaded && !s.executed
  }

  // ----- check -----

  /** The state after a scan, and whether an exception ended it. */
  datatype Scan = Scan(state: State, thrown: bool)

  /** The script is marked first; then it runs, or its transformation throws. */
  function TakeUp(st: State, i: nat): (r: State)
    requires i < |st.scripts|
    ensures |r.scripts| == |st.scripts|
  {
    State(st.scripts[i := st.scripts[i].(executed := true)],
          if st.scripts[i].broken then st.log else st.log + [i])
  }

  /** The scan from position `i` on. */
  function CheckFrom(st: State, i: nat): (r: Scan)
    ensures |r.state.scripts| == |st.scripts|
    decreases |st.scripts| - i
  {
    if i >= |st.scripts| then Scan(st, false)
    else if Pending(st.scripts[i]) then
      if st.scripts[i].broken then Scan(TakeUp(st, i), true) else CheckFrom(TakeUp(st, i), i + 1)
    else if Blocks(st.scripts[i]) then Scan(st, false)
    else CheckFrom(st, i + 1)
  }

  datatype Event = Load(index: nat) | Fail(index: nat)

  /** A callback may fire for a script that has neither arrived nor failed. */
  predicate CanHappen(st: State, e: Event) {
    e.index < |st.scripts| && !st.scripts[e.index].loaded && !st.scripts[e.index].failed
  }

  function Settle(st: State, e: Event): State
    requires e.index < |st.scripts|
  {
    var s := st.scripts[e.index];
    st.(scripts := st.scripts[e.index := if e.Load? then s.(loaded := true) else s.(failed := true)])
  }

  /** A callback settles its script and scans; an exception leaves the marks as they are. */
  function Handle(st: State, e: Event): (r: State)
    requires CanHappen(st, e)
    ensures |r.scripts| == |st.scripts|
  {
    CheckFrom(Settle(st, e), 0).state
  }

  predicate CanRun(st: State, es: seq<Event>)
    decreases |es|
  {
    es != [] ==> CanHappen(st, es[0]) && CanRun(Handle(st, es[0]), es[1..])
  }

  function Run(st: State, es: seq<Event>): State
    requires CanRun(st, es)
    decreases |es|
  {
    if es == [] then st else Run(Handle(st, es[0]), es[1..])
  }

  /** Inline scripts are loaded from the start; nothing has run. */
  predicate Registered(scripts: seq<Script>) {
    forall i | 0 <= i < |scripts| :: !scripts[i].executed && !scripts[i].failed
  }

  function Begin(scripts: seq<Script>): State {
    CheckFrom(State(scripts, []), 0).state
  }

  // ----- What always holds -----

  ghost predicate Consistent(st: State) {
    && LogIsExact(st)
    && (forall i | 0 <= i < |st.scripts| ::
          && (st.scripts[i].executed ==> st.scripts[i].loaded)
          && !(st.scripts[i].loaded && st.scripts[i].failed))
    // when a script is taken up, every earlier one that is not async has been taken up or failed
    && (forall i, k | 0 <= k < i < |st.scripts| && st.scripts[i].executed :: SettledBefore(st.scripts[k]))
  }

  /** The log holds the sound scripts taken up, each once; one that runs after a later one is async. */
  ghost predicate LogIsExact(st: State) {
    && (forall a | 0 <= a < |st.log| :: Ran(st, st.log[a]))
    && (forall a, b | 0 <= a < b < |st.log| :: st.log[a] != st.log[b])
    && (forall a, b | 0 <= a < b < |st.log| && st.log[b] < st.log[a] :: st.scripts[st.log[b]].isAsync)
    && (forall i | Ran(st, i) :: i in st.log)
  }

  predicate Ran(st: State, i: nat) {
    i < |st.scripts| && st.scripts[i].executed && !st.scripts[i].broken
  }

  predicate SettledBefore(s: Script) {
    s.isAsync || s.executed || s.failed
  }

  /** Nothing blocks position `i`. */
  ghost predicate Clear(scripts: seq<Script>, i: nat) {
    forall j | 0 <= j < i && j < |scripts| :: !Blocks(scripts[j])
  }

  /** A broken script that waits to be taken up stands before position `i`. */
  ghost predicate Stopped(scripts: seq<Script>, i: nat) {
    exists j | 0 <= j < i && j < |scripts| :: Pending(scripts[j]) && scripts[j].broken
  }

  /** The scripts a scan takes up. */
  ghost predicate Reached(scripts: seq<Script>, i: nat)
    requires i < |scripts|
  {
    Pending(scripts[i]) && Clear(scripts, i) && !Stopped(scripts, i)
  }

  /** Everything before position `i` has been taken up or need not be waited for. */
  ghost predicate Scanned(st: State, i: nat) {
    forall j | 0 <= j < i && j < |st.scripts| :: !Blocks(st.scripts[j]) && !Pending(st.scripts[j])
  }

  lemma TakeUpKeepsLog(st: State, i: nat)
    requires Consistent(st) && i < |st.scripts| && Scanned(st, i) && Pending(st.scripts[i])
    ensures LogIsExact(TakeUp(st, i))
  {
    var r := TakeUp(st, i);
    forall k ensures Ran(r, k) <==> Ran(st, k) || (k == i && !st.scripts[i].broken) {
    }
    assert !Ran(st, i);
    hide Ran, SettledBefore, Scanned;
    assert forall a | 0 <= a < |st.log| :: Ran(st, st.log[a]);
    assert st.scripts[i].isAsync || forall a | 0 <= a < |st.log| :: st.log[a] < i by {
      forall a | 0 <= a < |st.log| && st.log[a] > i ensures st.scripts[i].isAsync {
        LaterRanMeansAsync(st, i, st.log[a]);
      }
    }
  }

  lemma LaterRanMeansAsync(st: State, i: nat, k: nat)
    requires Consistent(st) && i < k && Ran(st, k) && Pending(st.scripts[i])
    ensures st.scripts[i].isAsync
  {
    assert SettledBefore(st.scripts[i]);
  }

  lemma TakeUpKeepsConsistent(st: State, i: nat)
    requires Consistent(st) && i < |st.scripts| && Scanned(st, i) && Pending(st.scripts[i])
    ensures Consistent(TakeUp(st, i)) && Scanned(TakeUp(st, i), i + 1)
  {
    hide LogIsExact;
    TakeUpKeepsLog(st, i);
    assert forall k | 0 <= k < i :: SettledBefore(st.scripts[k]);
  }

  /** Taking up a sound script changes nothing for the others. */
  lemma TakeUpReaches(st: State, i: nat, k: nat)
    requires i < |st.scripts| && k < |st.scripts| && k != i
    requires Pending(st.scripts[i]) && !st.scripts[i].broken
    ensures Reached(TakeUp(st, i).scripts, k) == Reached(st.scripts, k)
    ensures Clear(TakeUp(st, i).scripts, k) == Clear(st.scripts, k)
  {
    var a, b := st.scripts, TakeUp(st, i).scripts;
    assert forall j | 0 <= j < |a| :: Blocks(a[j]) == Blocks(b[j]);
    assert forall j | 0 <= j < |a| :: (Pending(a[j]) && a[j].broken) == (Pending(b[j]) && b[j].broken);
  }

  /** What a scan from position `i` leaves behind. */
  ghost predicate ScanIsExact(st: State, r: Scan) {
    && |r.state.scripts| == |st.scripts|
    && (forall k | 0 <= k < |st.scripts| ::
          r.state.scripts[k] == st.scripts[k].(executed := st.scripts[k].executed || Reached(st.scripts, k)))
    && (r.thrown <==> exists k | 0 <= k < |st.scripts| :: Reached(st.scripts, k) && st.scripts[k].broken)
    && st.log <= r.state.log
  }

  /** Taking up a broken script ends the scan. */
  lemma BrokenScanIsExact(st: State, i: nat)
    requires i < |st.scripts| && Scanned(st, i) && Pending(st.scripts[i]) && st.scripts[i].broken
    ensures ScanIsExact(st, Scan(TakeUp(st, i), true))
  {
    assert Reached(st.scripts, i);
    assert forall k | i < k < |st.scripts| :: Stopped(st.scripts, k);
  }

  lemma SoundScanIsExact(st: State, i: nat, r: Scan)
    requires i < |st.scripts| && Scanned(st, i) && Pending(st.scripts[i]) && !st.scripts[i].broken
    requires ScanIsExact(TakeUp(st, i), r)
    ensures ScanIsExact(st, r)
  {
    var next := TakeUp(st, i);
    assert Reached(st.scripts, i);
    hide Reached;
    forall k | 0 <= k < |st.scripts|
      ensures r.state.scripts[k] == st.scripts[k].(executed := st.scripts[k].executed || Reached(st.scripts, k))
      ensures Reached(next.scripts, k) && next.scripts[k].broken <==> Reached(st.scripts, k) && st.scripts[k].broken
    {
      if k != i {
        TakeUpReaches(st, i, k);
      }
    }
  }

  lemma {:induction false} CheckFromIsExact(st: State, i: nat)
    requires Consistent(st) && i <= |st.scripts| && Scanned(st, i)
    ensures Consistent(CheckFrom(st, i).state) && ScanIsExact(st, CheckFrom(st, i))
    decreases |st.scripts| - i
  {
    hide Consistent;
    if i < |st.scripts| && Pending(st.scripts[i]) {
      hide ScanIsExact;
      TakeUpKeepsConsistent(st, i);
      if st.scripts[i].broken {
        BrokenScanIsExact(st, i);
      } else {
        CheckFromIsExact(TakeUp(st, i), i + 1);
        SoundScanIsExact(st, i, CheckFrom(TakeUp(st, i), i + 1));
      }
    } else if i < |st.scripts| && !Blocks(st.scripts[i]) {
      hide ScanIsExact;
      CheckFromIsExact(st, i + 1);
    } else {
      NothingReached(st, i);
    }
  }

  lemma NothingReached(st: State, i: nat)
    requires i <= |st.scripts| && Scanned(st, i) && (i < |st.scripts| ==> Blocks(st.scripts[i]))
    ensures ScanIsExact(st, Scan(st, false))
  {
    assert forall k | i < k < |st.scripts| :: !Clear(st.scripts, k);
  }

  /**
   One scan takes up exactly the scripts that wait, that no earlier script blocks and that have
   no broken script waiting before them; it throws exactly when one of them is broken.
   */
  lemma CheckIsExact(st: State)
    requires Consistent(st)
    ensures Consistent(CheckFrom(st, 0).state) && ScanIsExact(st, CheckFrom(st, 0))
  {
    CheckFromIsExact(st, 0);
  }

  lemma SettleKeepsConsistent(st: State, e: Event)
    requires Consistent(st) && CanHappen(st, e)
    ensures Consistent(Settle(st, e))
  {
    var r := Settle(st, e);
    forall i | Ran(r, i) ensures i in r.log {
      assert Ran(st, i);
    }
    forall a | 0 <= a < |r.log| ensures Ran(r, r.log[a]) {
      assert Ran(st, st.log[a]);
    }
  }

  // ----- Whole runs -----

  /** The state that the last scan of a run starts from. */
  function LastScanned(scripts: seq<Script>, es: seq<Event>): State
    requires CanRun(Begin(scripts), es)
  {
    if es == [] then State(scripts, [])
    else
      CanRunPrefix(Begin(scripts), es);
      Settle(Run(Begin(scripts), es[..|es| - 1]), es[|es| - 1])
  }

  lemma {:induction false} CanRunPrefix(st: State, es: seq<Event>)
    requires CanRun(st, es) && es != []
    ensures var before, last := es[..|es| - 1], es[|es| - 1];
            CanRun(st, before) && CanHappen(Run(st, before), last) && Run(st, es) == Handle(Run(st, before), last)
    decreases |es|
  {
    hide CanHappen, Handle;
    if |es| > 1 {
      var next := Handle(st, es[0]);
      CanRunPrefix(next, es[1..]);
      assert es[1..][..|es| - 2] == es[..|es| - 1][1..];
    }
  }

  /**
   In every interleaving of arrivals and failures, and whatever throws: each script runs at most
   once, none before every earlier non-async script has been taken up or has failed, and a script
   that is overtaken is async.
   */
  lemma {:induction false} EveryRunIsOrdered(st: State, es: seq<Event>)
    requires Consistent(st) && CanRun(st, es)
    ensures Consistent(Run(st, es)) && |Run(st, es).scripts| == |st.scripts|
    decreases |es|
  {
    hide Consistent, CheckFrom, ScanIsExact;
    if es != [] {
      SettleKeepsConsistent(st, es[0]);
      CheckIsExact(Settle(st, es[0]));
      EveryRunIsOrdered(Handle(st, es[0]), es[1..]);
    }
  }

  lemma RegisteredIsConsistent(scripts: seq<Script>)
    requires Registered(scripts)
    ensures Consistent(State(scripts, []))
  {
  }

  /** Every run ends with one exact scan of a consistent state. */
  lemma LastScanIsExact(scripts: seq<Script>, es: seq<Event>)
    requires Registered(scripts) && CanRun(Begin(scripts), es)
    ensures var last := LastScanned(scripts, es);
            && Consistent(last) && Run(Begin(scripts), es) == CheckFrom(last, 0).state
            && Consistent(CheckFrom(last, 0).state) && ScanIsExact(last, CheckFrom(last, 0))
  {
    hide Consistent, CheckFrom, ScanIsExact, CanHappen, Settle;
    RegisteredIsConsistent(scripts);
    CheckIsExact(State(scripts, []));
    if es != [] {
      CanRunPrefix(Begin(scripts), es);
      EveryRunIsOrdered(Begin(scripts), es[..|es| - 1]);
      SettleKeepsConsistent(Run(Begin(scripts), es[..|es| - 1]), es[|es| - 1]);
    }
    CheckIsExact(LastScanned(scripts, es));
  }

  /** A broken script that waits stands before a sound one that waits and is not blocked. */
  ghost predicate Interrupted(scripts: seq<Script>) {
    exists j | 0 <= j < |scripts| ::
      Pending(scripts[j]) && !scripts[j].broken && Clear(scripts, j) && Stopped(scripts, j)
  }

  /** Exactly the sound scripts that have arrived and that nothing blocks have run. */
  ghost predicate UpToDate(st: State) {
    forall i | 0 <= i < |st.scripts| && !st.scripts[i].broken ::
      i in st.log <==> st.scripts[i].loaded && Clear(st.scripts, i)
  }

  lemma ConsistentRanClear(st: State, i: nat)
    requires Consistent(st) && i < |st.scripts| && st.scripts[i].executed
    ensures Clear(st.scripts, i) && st.scripts[i].loaded
  {
    forall j | 0 <= j < i ensures !Blocks(st.scripts[j]) {
      assert SettledBefore(st.scripts[j]);
    }
  }

  lemma LoggedIsRan(st: State, i: nat)
    requires Consistent(st)
    ensures i in st.log <==> Ran(st, i)
  {
  }

  lemma SameClear(st: State, r: Scan, i: nat)
    requires ScanIsExact(st, r)
    ensures Clear(r.state.scripts, i) == Clear(st.scripts, i)
  {
    assert forall j | 0 <= j < |st.scripts| :: Blocks(r.state.scripts[j]) == Blocks(st.scripts[j]);
  }

  /** A scan brings the state up to date if and only if no broken script interrupts it. */
  lemma ScanBringsUpToDate(st: State)
    requires Consistent(st)
    ensures UpToDate(CheckFrom(st, 0).state) <==> !Interrupted(st.scripts)
  {
    hide Consistent, CheckFrom;
    CheckIsExact(st);
    var r := CheckFrom(st, 0).state;
    forall i | 0 <= i < |st.scripts| && !st.scripts[i].broken
      ensures (i in r.log <==> r.scripts[i].loaded && Clear(r.scripts, i))
              <==> !(Pending(st.scripts[i]) && Clear(st.scripts, i) && Stopped(st.scripts, i))
    {
      LoggedIsRan(r, i);
      SameClear(st, CheckFrom(st, 0), i);
      if st.scripts[i].executed {
        ConsistentRanClear(st, i);
      }
    }
  }

  /**
   Scripts run in document order except for async ones. Once every script has arrived or failed,
   every sound script that arrived has run if and only if no broken script interrupted the last
   scan; without broken scripts that is always so.
   */
  lemma AllSettledAllRun(scripts: seq<Script>, es: seq<Event>)
    requires Registered(scripts) && CanRun(Begin(scripts), es)
    ensures var r := Run(Begin(scripts), es);
            && (forall a, b | 0 <= a < b < |r.log| ::
                  r.log[a] != r.log[b] && r.log[b] < |r.scripts|
                  && (!r.scripts[r.log[b]].isAsync ==> r.log[a] < r.log[b]))
            && (forall i | i in r.log :: i < |r.scripts| && r.scripts[i].loaded && !r.scripts[i].broken)
            && ((forall i | 0 <= i < |r.scripts| :: r.scripts[i].loaded || r.scripts[i].failed) ==>
                  ((forall i | 0 <= i < |r.scripts| && r.scripts[i].loaded && !r.scripts[i].broken :: i in r.log)
                   <==> !Interrupted(LastScanned(scripts, es).scripts)))
  {
    hide CheckFrom, CanRun, LastScanned;
    LastScanIsExact(scripts, es);
    var last := LastScanned(scripts, es);
    ScanBringsUpToDate(last);
    var r := Run(Begin(scripts), es);
    forall i | i in r.log ensures Ran(r, i) && r.scripts[i].loaded {
      LoggedIsRan(r, i);
    }
    if forall i | 0 <= i < |r.scripts| :: r.scripts[i].loaded || r.scripts[i].failed {
      assert forall i :: Clear(r.scripts, i);
    }
  }

  /** No scan and no event changes which scripts are broken. */
  ghost predicate SameBroken(a: seq<Script>, b: seq<Script>) {
    |a| == |b| && forall i | 0 <= i < |a| :: a[i].broken == b[i].broken
  }

  lemma {:induction false} RunKeepsBroken(st: State, es: seq<Event>)
    requires Consistent(st) && CanRun(st, es)
    ensures SameBroken(st.scripts, Run(st, es).scripts)
    decreases |es|
  {
    hide Consistent, CheckFrom;
    if es != [] {
      SettleKeepsConsistent(st, es[0]);
      CheckIsExact(Settle(st, es[0]));
      assert SameBroken(st.scripts, Handle(st, es[0]).scripts);
      RunKeepsBroken(Handle(st, es[0]), es[1..]);
    }
  }

  /** When no script is broken, the state is up to date after every event. */
  lemma SoundScriptsKeepUpToDate(scripts: seq<Script>, es: seq<Event>)
    requires Registered(scripts) && CanRun(Begin(scripts), es)
    requires forall i | 0 <= i < |scripts| :: !scripts[i].broken
    ensures UpToDate(Run(Begin(scripts), es))
  {
    hide CheckFrom, Consistent, UpToDate;
    LastScanIsExact(scripts, es);
    var last := LastScanned(scripts, es);
    RegisteredIsConsistent(scripts);
    CheckIsExact(State(scripts, []));
    RunKeepsBroken(Begin(scripts), es);
    assert SameBroken(scripts, Begin(scripts).scripts);
    assert SameBroken(last.scripts, CheckFrom(last, 0).state.scripts);
    ScanBringsUpToDate(last);
  }

  /**
   Three external scripts of which the second is broken: when they arrive last to first, the last
   scan runs the first, throws at the second, and the third never runs.
   */
  lemma BrokenScriptStrandsOthers()
    ensures var script := Script(false, false, false, false, false);
            var scripts := [script, script.(broken := true), script];
            var es := [Load(2), Load(1), Load(0)];
            && Registered(scripts) && CanRun(Begin(scripts), es)
            && Run(Begin(scripts), es).log == [0]
            && (forall i | 0 <= i < 3 :: Run(Begin(scripts), es).scripts[i].loaded)
            && !Run(Begin(scripts), es).scripts[2].executed
  {
    var script := Script(false, false, false, false, false);
    var arrived := script.(loaded := true);
    var s0 := State([script, script.(broken := true), script], []);
    var s1 := State([script, script.(broken := true), arrived], []);
    var s2 := State([script, arrived.(broken := true), arrived], []);
    var s3 := State([arrived, arrived.(broken := true), arrived], []);
    var es := [Load(2), Load(1), Load(0)];
    assert es[1..] == [Load(1), Load(0)] && es[1..][1..] == [Load(0)] && es[1..][1..][1..] == [];
    assert Begin(s0.scripts) == s0;
    assert Settle(s0, Load(2)) == s1 && Handle(s0, Load(2)) == s1;
    assert Settle(s1, Load(1)) == s2 && Handle(s1, Load(1)) == s2;
    assert Settle(s2, Load(0)) == s3;
    assert CheckFrom(s3, 0) == CheckFrom(TakeUp(s3, 0), 1) == Scan(TakeUp(TakeUp(s3, 0), 1), true);
  }

  // ----- The loader -----

  class Loader {
    var scripts: seq<Script>
    var log: seq<nat>

    ghost predicate Valid()
      reads this
    {
      Consistent(State(scripts, log))
    }

    /** After registration the first scan runs; an exception in it leaves the callbacks in place. */
    constructor (registered: seq<Script>)
      requires Registered(registered)
      ensures Valid() && State(scripts, log) == Begin(registered)
    {
      scripts, log := registered, [];
      new;
      RegisteredIsConsistent(registered);
      CheckIsExact(State(registered, []));
      var thrown := Check();
    }

    /** `check` */
    method Check() returns (thrown: bool)
      modifies this
      ensures Scan(State(scripts, log), thrown) == CheckFrom(old(State(scripts, log)), 0)
    {
      var i := 0;
      while i < |scripts|
        invariant i <= |scripts|
        invariant CheckFrom(old(State(scripts, log)), 0) == CheckFrom(State(scripts, log), i)
        decreases |scripts| - i
      {
        var script := scripts[i];
        if script.loaded && !script.executed {
          scripts := scripts[i := script.(executed := true)];
          if script.broken {
            return true;
          }
          log := log + [i];
        } else if !script.loaded && !script.failed && !script.isAsync {
          break;
        }
        i := i + 1;
      }
      return false;
    }

    /** The success and failure callbacks of `load`; `thrown` when the scan throws. */
    method OnSettled(e: Event) returns (thrown: bool)
      requires Valid() && CanHappen(State(scripts, log), e)
      modifies this
      ensures Valid() && State(scripts, log) == Handle(old(State(scripts, log)), e)
      ensures thrown == CheckFrom(Settle(old(State(scripts, log)), e), 0).thrown
    {
      ghost var before := State(scripts, log);
      SettleKeepsConsistent(before, e);
      CheckIsExact(Settle(before, e));
      if e.Load? {
        scripts := scripts[e.index := scripts[e.index].(loaded := true)];
      } else {
        scripts := scripts[e.index := scripts[e.index].(failed := true)];
      }
      thrown := Check();
    }
  }
}
