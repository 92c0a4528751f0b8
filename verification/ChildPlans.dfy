/**
 What the "last index" heuristic queues, told from the old and the new children alone
 (defaults/react-with-addons.js:15, module 80).
 */
module ChildPlans {
  import opened Collections
  import opened ChildUpdates

  /** A child before `p` had, or replaces one that had, a greater old position than the child at `p`. */
  ghost predicate Overtaken(matched: seq<Option<nat>>, p: nat)
    requires p < |matched|
  {
    matched[p].Some? && exists q | 0 <= q < p :: matched[q].Some? && matched[q].value > matched[p].value
  }

  /** New nodes are inserted, overtaken ones moved, each behind its predecessor; the others are left alone. */
  ghost function Needed<T>(prev: seq<T>, next: seq<T>, matched: seq<Option<nat>>, p: nat): seq<Update<T>>
    requires p <= |next| == |matched|
    decreases |next| - p
  {
    if p == |next| then []
    else
      var after := if p == 0 then None else Some(next[p - 1]);
      (if next[p] !in prev then [InsertMarkup(next[p], after)]
       else if Overtaken(matched, p) then [MoveExisting(next[p], after)]
       else [])
      + Needed(prev, next, matched, p + 1)
  }

  /** `lastIndex` is the greatest old position so far. */
  ghost predicate IsLastIndex(matched: seq<Option<nat>>, p: nat, lastIndex: nat)
    requires p <= |matched|
  {
    && (forall q | 0 <= q < p && matched[q].Some? :: matched[q].value <= lastIndex)
    && (lastIndex == 0 || exists q | 0 <= q < p :: matched[q] == Some(lastIndex))
  }

  lemma {:induction false} PlanIsNeeded<T>(prev: seq<T>, next: seq<T>, matched: seq<Option<nat>>, p: nat, lastIndex: nat)
    requires Matches(prev, next, matched) && p <= |next| && IsLastIndex(matched, p, lastIndex)
    ensures Plan(prev, next, matched, p, lastIndex) == Needed(prev, next, matched, p)
    decreases |next| - p
  {
    if p < |next| {
      var last := NextLastIndex(matched[p], lastIndex);
      assert IsLastIndex(matched, p + 1, last) by {
        if last != 0 {
          assert matched[p] == Some(last) || exists q | 0 <= q < p :: matched[q] == Some(last);
        }
      }
      PlanIsNeeded(prev, next, matched, p + 1, last);
      if next[p] in prev {
        var k :| 0 <= k < |prev| && prev[k] == next[p];
        assert matched[p] == Some(k);
        assert Overtaken(matched, p) <==> k < lastIndex;
      }
    }
  }

  /** The queue holds exactly the operations needed. */
  lemma PlanIsExact<T>(prev: seq<T>, next: seq<T>, matched: seq<Option<nat>>)
    requires Matches(prev, next, matched)
    ensures Plan(prev, next, matched, 0, 0) == Needed(prev, next, matched, 0)
  {
    PlanIsNeeded(prev, next, matched, 0, 0);
  }

  lemma {:induction false} NothingNeeded<T>(prev: seq<T>, next: seq<T>, matched: seq<Option<nat>>, p: nat)
    requires Matches(prev, next, matched) && p <= |next|
    requires forall q | 0 <= q < |next| :: next[q] in prev
    requires forall q, r | 0 <= q < r < |next| && matched[q].Some? && matched[r].Some? :: matched[q].value < matched[r].value
    ensures Needed(prev, next, matched, p) == []
    decreases |next| - p
  {
    if p < |next| {
      NothingNeeded(prev, next, matched, p + 1);
    }
  }

  /** When old nodes remain in their old order, nothing is queued for them. */
  lemma KeptOrderQueuesNothing<T>(prev: seq<T>, next: seq<T>, matched: seq<Option<nat>>)
    requires Distinct(prev) && Matches(prev, next, matched)
    requires forall q | 0 <= q < |next| :: next[q] in prev
    requires forall q, r | 0 <= q < r < |next| :: Before(prev, next[q], next[r])
    ensures Plan(prev, next, matched, 0, 0) == []
  {
    hide IndexOf;
    PlanIsExact(prev, next, matched);
    forall q | 0 <= q < |next| ensures matched[q] == Some(IndexOf(prev, next[q])) {
      assert prev[IndexOf(prev, next[q])] == next[q];
    }
    forall q, r | 0 <= q < r < |next| ensures matched[q].value < matched[r].value {
      assert Before(prev, next[q], next[r]);
    }
    NothingNeeded(prev, next, matched, 0);
  }
}
