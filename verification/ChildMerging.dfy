/**
 Merging the children of two renderings so that leaving children keep their place
 (defaults/react-with-addons.js:15, module 97). A mapping is its keys in order, with values.
 */
module ChildMerging {
  import opened Collections

  datatype Mapping<V> = Mapping(keys: seq<string>, values: map<string, V>) {
    ghost predicate Valid() {
      Distinct(keys) && forall k | k in keys :: k in values
    }
  }

  // ----- Where a leaving key belongs -----

  /** Where the run of keys missing from `next` that ends at `k` begins. */
  function RunStart(prev: seq<string>, next: seq<string>, k: nat): (j: nat)
    requires k <= |prev|
    ensures j <= k && (forall i | j <= i < k :: prev[i] !in next) && (j > 0 ==> prev[j - 1] in next)
  {
    if k == 0 || prev[k - 1] in next then k else RunStart(prev, next, k - 1)
  }

  /** The keys missing from `next` right before position `k`. */
  function RunBefore(prev: seq<string>, next: seq<string>, k: nat): seq<string>
    requires k <= |prev|
  {
    prev[RunStart(prev, next, k)..k]
  }

  /** The keys put before a key of `next`. */
  function RunFor(prev: seq<string>, next: seq<string>, u: string): seq<string> {
    if u in prev then RunBefore(prev, next, IndexOf(prev, u)) else []
  }

  /** Each key of `next` from `i` on, after the run that led up to it; at the end the last run. */
  function Merged(prev: seq<string>, next: seq<string>, i: nat): seq<string>
    requires i <= |next|
    decreases |next| - i
  {
    if i == |next| then RunBefore(prev, next, |prev|)
    else RunFor(prev, next, next[i]) + [next[i]] + Merged(prev, next, i + 1)
  }

  // ----- The algorithm -----

  function Waiting(pending: map<string, seq<string>>, u: string): seq<string> {
    if u in pending then pending[u] else []
  }

  lemma RunGrows(prev: seq<string>, next: seq<string>, k: nat)
    requires k < |prev|
    ensures RunBefore(prev, next, k + 1) == if prev[k] in next then [] else RunBefore(prev, next, k) + [prev[k]]
    ensures RunBefore(prev, next, 0) == []
  {
  }

  /** The first loop: the runs that wait for a shared key, and the one that never gets one. */
  method CollectPending(prev: seq<string>, next: seq<string>) returns (pending: map<string, seq<string>>, last: seq<string>)
    requires Distinct(prev)
    ensures last == RunBefore(prev, next, |prev|)
    ensures forall u | u in next :: Waiting(pending, u) == RunFor(prev, next, u)
  {
    hide RunBefore;
    pending, last := map[], [];
    if prev == [] {
      NoRun(prev, next);
      return;
    }
    RunGrows(prev, next, 0);
    for k := 0 to |prev|
      invariant last == RunBefore(prev, next, k)
      invariant forall u | u in pending :: exists j | 0 <= j < k :: prev[j] == u
      invariant forall j | 0 <= j < k && prev[j] in next :: Waiting(pending, prev[j]) == RunBefore(prev, next, j)
    {
      RunGrows(prev, next, k);
      assert prev[k] !in pending;
      if prev[k] in next {
        if last != [] {
          pending := pending[prev[k] := last];
          last := [];
        }
      } else {
        last := last + [prev[k]];
      }
    }
    forall u | u in next ensures Waiting(pending, u) == RunFor(prev, next, u) {
      if u in prev {
        assert prev[IndexOf(prev, u)] == u;
      }
    }
  }

  lemma NoRun(prev: seq<string>, next: seq<string>)
    requires prev == []
    ensures RunBefore(prev, next, |prev|) == [] && forall u :: RunFor(prev, next, u) == []
  {
  }

  /** `mergeChildMappings` */
  method MergeChildMappings<V>(prev: Mapping<V>, next: Mapping<V>) returns (merged: Mapping<V>)
    requires prev.Valid() && next.Valid()
    ensures merged.keys == Merged(prev.keys, next.keys, 0)
    ensures forall k | k in merged.keys ::
              k in merged.values && (if k in next.keys then k in next.values && merged.values[k] == next.values[k]
                                     else k in prev.values && merged.values[k] == prev.values[k])
  {
    hide RunFor, RunBefore, Merged;
    var pending, last := CollectPending(prev.keys, next.keys);
    var keys: seq<string> := [];
    for i := 0 to |next.keys|
      invariant Merged(prev.keys, next.keys, 0) == keys + Merged(prev.keys, next.keys, i)
    {
      var u := next.keys[i];
      MergedAdvances(prev.keys, next.keys, i, keys);
      assert Waiting(pending, u) == RunFor(prev.keys, next.keys, u);
      if u in pending {
        keys := keys + pending[u];
      } else {
        assert keys + [] == keys;
      }
      keys := keys + [u];
    }
    MergedEnds(prev.keys, next.keys);
    keys := keys + last;
    MergedMembers(prev.keys, next.keys);
    var values := map k | k in keys :: if k in next.keys then next.values[k] else prev.values[k];
    merged := Mapping(keys, values);
  }

  lemma MergedAdvances(prev: seq<string>, next: seq<string>, i: nat, keys: seq<string>)
    requires i < |next|
    ensures keys + Merged(prev, next, i) == keys + RunFor(prev, next, next[i]) + [next[i]] + Merged(prev, next, i + 1)
  {
  }

  lemma MergedEnds(prev: seq<string>, next: seq<string>)
    ensures Merged(prev, next, |next|) == RunBefore(prev, next, |prev|)
  {
  }

  // ----- What the merge keeps -----

  /** The first position from `k` on whose key is shared, or the end. */
  function Owner(prev: seq<string>, next: seq<string>, k: nat): (m: nat)
    requires k <= |prev|
    ensures k <= m <= |prev| && (m < |prev| ==> prev[m] in next) && forall i | k <= i < m :: prev[i] !in next
    decreases |prev| - k
  {
    if k == |prev| || prev[k] in next then k else Owner(prev, next, k + 1)
  }

  /** A leaving key sits in the run of its owner and in no other. */
  lemma RunHoldsItsOwn(prev: seq<string>, next: seq<string>, m: nat, k: nat)
    requires Distinct(prev) && m <= |prev| && (m < |prev| ==> prev[m] in next) && k < |prev|
    ensures prev[k] in RunBefore(prev, next, m) <==> prev[k] !in next && Owner(prev, next, k) == m
  {
    var j := RunStart(prev, next, m);
    if prev[k] in RunBefore(prev, next, m) {
      var i :| 0 <= i < m - j && prev[j..m][i] == prev[k];
      assert prev[j + i] == prev[k];
    }
    if prev[k] !in next && Owner(prev, next, k) == m {
      assert j <= k < m;
      assert prev[j..m][k - j] == prev[k];
    }
  }

  lemma RunIsDistinct(prev: seq<string>, next: seq<string>, m: nat)
    requires Distinct(prev) && m <= |prev|
    ensures Distinct(RunBefore(prev, next, m))
    ensures forall x | x in RunBefore(prev, next, m) :: x in prev && x !in next
  {
    var r := RunBefore(prev, next, m);
    forall x | x in r ensures x in prev && x !in next {
      var i :| 0 <= i < |r| && r[i] == x;
      assert prev[RunStart(prev, next, m) + i] == x;
    }
  }

  /** What the merge from `i` on holds. */
  ghost predicate Belongs(prev: seq<string>, next: seq<string>, i: nat, x: string) {
    || (x in next && i <= IndexOf(next, x))
    || (x !in next && x in prev &&
        var m := Owner(prev, next, IndexOf(prev, x));
        m == |prev| || i <= IndexOf(next, prev[m]))
  }

  lemma {:induction false} RunForHolds(prev: seq<string>, next: seq<string>, i: nat, x: string)
    requires Distinct(prev) && Distinct(next) && i < |next|
    ensures x in RunFor(prev, next, next[i])
            <==> x !in next && x in prev && Owner(prev, next, IndexOf(prev, x)) < |prev|
                 && IndexOf(next, prev[Owner(prev, next, IndexOf(prev, x))]) == i
  {
    hide IndexOf, RunBefore, Owner;
    var u := next[i];
    IndexOfAt(next, i);
    if u in prev {
      var m := IndexOf(prev, u);
      RunIsDistinct(prev, next, m);
      if x in prev {
        var k := IndexOf(prev, x);
        RunHoldsItsOwn(prev, next, m, k);
        var o := Owner(prev, next, k);
        if o < |prev| {
          IndexOfAt(prev, o);
        }
      }
    } else if x in prev && Owner(prev, next, IndexOf(prev, x)) < |prev| {
      var o := Owner(prev, next, IndexOf(prev, x));
      assert prev[o] in prev;
    }
  }

  lemma LastRunHolds(prev: seq<string>, next: seq<string>, x: string)
    requires Distinct(prev)
    ensures x in RunBefore(prev, next, |prev|)
            <==> x !in next && x in prev && Owner(prev, next, IndexOf(prev, x)) == |prev|
  {
    hide IndexOf, RunBefore, Owner;
    RunIsDistinct(prev, next, |prev|);
    if x in prev {
      RunHoldsItsOwn(prev, next, |prev|, IndexOf(prev, x));
    }
  }

  /** A key of the merge from `i` on is in the run before `next[i]`, is that key, or comes later. */
  lemma BelongsStep(prev: seq<string>, next: seq<string>, i: nat, x: string)
    requires Distinct(prev) && Distinct(next) && i < |next|
    ensures Belongs(prev, next, i, x) <==> x in RunFor(prev, next, next[i]) || x == next[i] || Belongs(prev, next, i + 1, x)
    ensures x in RunFor(prev, next, next[i]) ==> x != next[i] && !Belongs(prev, next, i + 1, x)
    ensures !Belongs(prev, next, i + 1, next[i])
  {
    hide IndexOf, RunFor, Owner;
    RunForHolds(prev, next, i, x);
    IndexOfAt(next, i);
    if x in next {
      IndexOfAt(next, IndexOf(next, x));
    }
  }

  lemma {:induction false} MergedHolds(prev: seq<string>, next: seq<string>, i: nat)
    requires Distinct(prev) && Distinct(next) && i <= |next|
    ensures Distinct(Merged(prev, next, i))
    ensures forall x :: x in Merged(prev, next, i) <==> Belongs(prev, next, i, x)
    decreases |next| - i
  {
    hide Belongs, RunBefore, RunFor;
    if i == |next| {
      RunIsDistinct(prev, next, |prev|);
      forall x ensures x in Merged(prev, next, i) <==> Belongs(prev, next, i, x) {
        BelongsToLast(prev, next, x);
      }
    } else {
      MergedHolds(prev, next, i + 1);
      var u, run, rest := next[i], RunFor(prev, next, next[i]), Merged(prev, next, i + 1);
      RunForIsDistinct(prev, next, u);
      forall x ensures x in run ==> x !in rest && x != u {
        BelongsStep(prev, next, i, x);
      }
      forall x ensures x in Merged(prev, next, i) <==> Belongs(prev, next, i, x) {
        BelongsStep(prev, next, i, x);
      }
      BelongsStep(prev, next, i, u);
      DistinctConcat(run, u, rest);
    }
  }

  lemma BelongsToLast(prev: seq<string>, next: seq<string>, x: string)
    requires Distinct(prev)
    ensures x in RunBefore(prev, next, |prev|) <==> Belongs(prev, next, |next|, x)
  {
    hide IndexOf, Owner, RunBefore;
    LastRunHolds(prev, next, x);
  }

  lemma RunForIsDistinct(prev: seq<string>, next: seq<string>, u: string)
    requires Distinct(prev)
    ensures Distinct(RunFor(prev, next, u))
  {
    if u in prev {
      RunIsDistinct(prev, next, IndexOf(prev, u));
    }
  }

  lemma DistinctConcat(a: seq<string>, u: string, b: seq<string>)
    requires Distinct(a) && Distinct(b) && u !in b
    requires forall x :: x in a ==> x !in b && x != u
    ensures Distinct(a + [u] + b)
  {
    var s := a + [u] + b;
    forall i, j | 0 <= i < j < |s| ensures s[i] != s[j] {
      if i < |a| {
        assert s[i] in a;
        if j > |a| { assert s[j] in b; }
      } else if i == |a| {
        assert s[j] in b;
      }
    }
  }

  /** Every key of either mapping appears exactly once. */
  lemma MergedMembers(prev: seq<string>, next: seq<string>)
    requires Distinct(prev) && Distinct(next)
    ensures Distinct(Merged(prev, next, 0))
    ensures forall x :: x in Merged(prev, next, 0) <==> x in prev || x in next
  {
    MergedHolds(prev, next, 0);
  }

  /** The keys of a list that belong to `next`. */
  function Shared(s: seq<string>, next: seq<string>): seq<string> {
    if s == [] then [] else (if s[0] in next then [s[0]] else []) + Shared(s[1..], next)
  }

  lemma {:induction false} SharedConcat(a: seq<string>, b: seq<string>, next: seq<string>)
    ensures Shared(a + b, next) == Shared(a, next) + Shared(b, next)
  {
    if a == [] {
      assert a + b == b;
    } else {
      assert (a + b)[0] == a[0] && (a + b)[1..] == a[1..] + b;
      SharedConcat(a[1..], b, next);
      var here: seq<string> := if a[0] in next then [a[0]] else [];
      assert Shared(a, next) == here + Shared(a[1..], next) && Shared(a + b, next) == here + Shared(a[1..] + b, next);
    }
  }

  lemma {:induction false} SharedOfNone(s: seq<string>, next: seq<string>)
    requires forall x | x in s :: x !in next
    ensures Shared(s, next) == []
  {
    if s != [] {
      SharedOfNone(s[1..], next);
    }
  }

  /** The keys of the next mapping keep their order. */
  lemma {:induction false} MergedKeepsNextOrder(prev: seq<string>, next: seq<string>, i: nat)
    requires Distinct(prev) && i <= |next|
    ensures Shared(Merged(prev, next, i), next) == next[i..]
    decreases |next| - i
  {
    hide IndexOf, RunBefore, Distinct;
    if i == |next| {
      RunIsDistinct(prev, next, |prev|);
      SharedOfNone(RunBefore(prev, next, |prev|), next);
    } else {
      var u, run, rest := next[i], RunFor(prev, next, next[i]), Merged(prev, next, i + 1);
      MergedKeepsNextOrder(prev, next, i + 1);
      if u in prev {
        RunIsDistinct(prev, next, IndexOf(prev, u));
      }
      SharedOfNone(run, next);
      SharedConcat(run, [u], next);
      SharedConcat(run + [u], rest, next);
      assert Shared([u], next) == [u] by { assert [u][1..] == []; }
      assert next[i..] == [u] + next[i + 1..];
    }
  }

  /** The merge up to, but not including, the run before `next[i]`. */
  function MergedUpTo(prev: seq<string>, next: seq<string>, i: nat): seq<string>
    requires i <= |next|
  {
    if i == 0 then [] else MergedUpTo(prev, next, i - 1) + RunFor(prev, next, next[i - 1]) + [next[i - 1]]
  }

  lemma {:induction false} MergedSplits(prev: seq<string>, next: seq<string>, i: nat)
    requires i <= |next|
    ensures Merged(prev, next, 0) == MergedUpTo(prev, next, i) + Merged(prev, next, i)
  {
    hide RunFor;
    if i > 0 {
      MergedSplits(prev, next, i - 1);
      MergedAdvances(prev, next, i - 1, MergedUpTo(prev, next, i - 1));
    }
  }

  /**
   A run of leaving keys stays together, right before the shared key that followed it, or at
   the very end when none did.
   */
  lemma RunsStayInPlace(prev: seq<string>, next: seq<string>, k: nat)
    requires Distinct(prev) && Distinct(next) && k < |prev| && prev[k] !in next
    ensures var m := Owner(prev, next, k);
            var run := RunBefore(prev, next, m);
            var merged := Merged(prev, next, 0);
            && prev[k] in run && (forall x | x in run :: x !in next)
            && if m < |prev| then
                 var i := IndexOf(next, prev[m]);
                 merged == MergedUpTo(prev, next, i) + run + [prev[m]] + Merged(prev, next, i + 1)
               else
                 merged == MergedUpTo(prev, next, |next|) + run
  {
    hide Merged, MergedUpTo, RunBefore;
    var m := Owner(prev, next, k);
    RunHoldsItsOwn(prev, next, m, k);
    RunIsDistinct(prev, next, m);
    if m < |prev| {
      var i := IndexOf(next, prev[m]);
      IndexOfAt(prev, m);
      MergedSplits(prev, next, i);
      MergedAdvances(prev, next, i, MergedUpTo(prev, next, i));
    } else {
      MergedSplits(prev, next, |next|);
      MergedEnds(prev, next);
    }
  }
}
