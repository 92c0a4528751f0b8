/**
 Reordering a list of children with insert, move and remove operations chosen by the
 "last index" heuristic (defaults/react-with-addons.js:14-15, modules 80 and 81), and the
 execution of those operations on the list (defaults/react-with-addons.js:12, module 7).
 */
module ChildUpdates {
  import opened Collections

  // ----- Lists of distinct nodes -----

  ghost predicate Before<T>(s: seq<T>, x: T, y: T) {
    x in s && y in s && IndexOf(s, x) < IndexOf(s, y)
  }

  function Without<T(==)>(s: seq<T>, x: T): seq<T> {
    if x in s then var k := IndexOf(s, x); s[..k] + s[k + 1..] else s
  }

  lemma WithoutIsDistinct<T>(s: seq<T>, x: T)
    requires Distinct(s)
    ensures Distinct(Without(s, x))
    ensures forall y :: y in Without(s, x) <==> y in s && y != x
  {
    hide IndexOf;
    if x in s {
      var k, r := IndexOf(s, x), Without(s, x);
      forall y | y in s && y != x ensures y in r {
        var i := IndexOf(s, y);
        assert y == r[if i < k then i else i - 1];
      }
      assert forall j | 0 <= j < |r| :: r[j] == s[if j < k then j else j + 1] && r[j] != x;
      forall i, j | 0 <= i < j < |r| ensures r[i] != r[j] {
        assert s[if i < k then i else i + 1] != s[if j < k then j else j + 1];
      }
    }
  }

  lemma IndexInWithout<T>(s: seq<T>, x: T, y: T)
    requires Distinct(s) && x in s && y in s && x != y
    ensures y in Without(s, x)
    ensures IndexOf(Without(s, x), y)
            == if IndexOf(s, y) < IndexOf(s, x) then IndexOf(s, y) else IndexOf(s, y) - 1
  {
    hide IndexOf;
    WithoutIsDistinct(s, x);
    var k, i, r := IndexOf(s, x), IndexOf(s, y), Without(s, x);
    var j := if i < k then i else i - 1;
    assert r[j] == y;
    IndexOfAt(r, j);
  }

  /** Removing one node keeps the order of the others. */
  lemma WithoutKeepsOrder<T>(s: seq<T>, x: T, y: T, z: T)
    requires Distinct(s) && x != y && x != z
    ensures Before(s, y, z) <==> Before(Without(s, x), y, z)
  {
    hide IndexOf;
    WithoutIsDistinct(s, x);
    if x in s && y in s && z in s {
      IndexInWithout(s, x, y);
      IndexInWithout(s, x, z);
    }
  }

  /** Two lists of distinct elements with the same elements in the same order are equal. */
  lemma {:induction false} SameOrderIsEqual<T>(a: seq<T>, b: seq<T>)
    requires Distinct(a) && Distinct(b)
    requires forall x :: x in a <==> x in b
    requires forall i, j | 0 <= i < j < |b| :: Before(a, b[i], b[j])
    ensures a == b
  {
    assert a != [] <==> b != [] by {
      if a != [] { assert a[0] in b; }
      if b != [] { assert b[0] in a; }
    }
    if a != [] {
      var k := IndexOf(b, a[0]);
      IndexOfAt(a, 0);
      assert a[0] == b[0];
      forall x ensures x in a[1..] <==> x in b[1..] {
        if x in a[1..] { assert x in a && x != a[0]; }
        if x in b[1..] { assert x in b && x != b[0]; }
      }
      forall i, j | 0 <= i < j < |b[1..]| ensures Before(a[1..], b[1..][i], b[1..][j]) {
        assert Before(a, b[i + 1], b[j + 1]);
        assert b[1..][i] in b[1..] && b[1..][j] in b[1..];
      }
      SameOrderIsEqual(a[1..], b[1..]);
    }
  }

  // ----- The document operations -----

  datatype Update<T> =
    | InsertMarkup(node: T, after: Option<T>)
    | MoveExisting(node: T, after: Option<T>)
    | RemoveNode(node: T)

  function NextSibling<T(==)>(dom: seq<T>, x: T): Option<T>
    requires x in dom
  {
    var k := IndexOf(dom, x);
    if k + 1 < |dom| then Some(dom[k + 1]) else None
  }

  /** The reference node: the sibling after `after`, or the first child. */
  function Anchor<T(==)>(dom: seq<T>, after: Option<T>): Option<T>
    requires after.Some? ==> after.value in dom
  {
    match after
    case Some(x) => NextSibling(dom, x)
    case None => if dom != [] then Some(dom[0]) else None
  }

  /**
   The document's `insertBefore`: the node leaves its old place first; a reference to the node
   itself stands for its next sibling; no reference means the end.
   */
  function InsertBefore<T(==)>(dom: seq<T>, node: T, ref: Option<T>): seq<T> {
    var ref' := if ref == Some(node) && node in dom then NextSibling(dom, node) else ref;
    var rest := Without(dom, node);
    if ref'.Some? && ref'.value in rest then
      var k := IndexOf(rest, ref'.value);
      rest[..k] + [node] + rest[k..]
    else
      rest + [node]
  }

  predicate CanApply<T(==)>(dom: seq<T>, u: Update<T>) {
    match u
    case InsertMarkup(node, after) => node !in dom && (after.Some? ==> after.value in dom)
    case MoveExisting(node, after) => node in dom && (after.Some? ==> after.value in dom && after.value != node)
    case RemoveNode(node) => node in dom
  }

  function Apply<T(==)>(dom: seq<T>, u: Update<T>): seq<T>
    requires CanApply(dom, u)
  {
    match u
    case InsertMarkup(node, after) => InsertBefore(dom, node, Anchor(dom, after))
    case MoveExisting(node, after) => InsertBefore(dom, node, Anchor(dom, after))
    case RemoveNode(node) => Without(dom, node)
  }

  predicate CanApplyAll<T(==)>(dom: seq<T>, us: seq<Update<T>>)
    decreases |us|
  {
    us != [] ==> CanApply(dom, us[0]) && CanApplyAll(Apply(dom, us[0]), us[1..])
  }

  function ApplyAll<T(==)>(dom: seq<T>, us: seq<Update<T>>): seq<T>
    requires CanApplyAll(dom, us)
    decreases |us|
  {
    if us == [] then dom else ApplyAll(Apply(dom, us[0]), us[1..])
  }

  lemma {:induction false} ApplyAllConcat<T>(dom: seq<T>, us: seq<Update<T>>, vs: seq<Update<T>>)
    requires CanApplyAll(dom, us) && CanApplyAll(ApplyAll(dom, us), vs)
    ensures CanApplyAll(dom, us + vs) && ApplyAll(dom, us + vs) == ApplyAll(ApplyAll(dom, us), vs)
    decreases |us|
  {
    hide Apply, CanApply;
    if us == [] {
      assert us + vs == vs;
    } else {
      assert (us + vs)[0] == us[0] && (us + vs)[1..] == us[1..] + vs;
      ApplyAllConcat(Apply(dom, us[0]), us[1..], vs);
    }
  }

  // ----- Placing a node right after another -----

  function PlaceIndex<T(==)>(dom: seq<T>, after: Option<T>): (k: nat)
    requires after.Some? ==> after.value in dom
    ensures k <= |dom|
  {
    match after
    case Some(x) => IndexOf(dom, x) + 1
    case None => 0
  }

  /** The list with `node` taken out and put back right after `after`, or in front. */
  function PlaceAfter<T(==)>(dom: seq<T>, node: T, after: Option<T>): seq<T>
    requires after.Some? ==> after.value in Without(dom, node)
  {
    var rest := Without(dom, node);
    var k := PlaceIndex(rest, after);
    rest[..k] + [node] + rest[k..]
  }

  lemma SiblingInWithout<T>(dom: seq<T>, node: T, after: Option<T>)
    requires Distinct(dom) && node in dom && (after.Some? ==> after.value in dom && after.value != node)
    ensures after.Some? ==> after.value in Without(dom, node)
    ensures var rest := Without(dom, node);
            var ref := Anchor(dom, after);
            var ref' := if ref == Some(node) then NextSibling(dom, node) else ref;
            var k := PlaceIndex(rest, after);
            ref' == if k < |rest| then Some(rest[k]) else None
  {
    hide IndexOf;
    WithoutIsDistinct(dom, node);
    if after.Some? {
      IndexInWithout(dom, node, after.value);
    }
    IndexOfAt(dom, IndexOf(dom, node));
  }

  lemma InsertAtIndex<T>(dom: seq<T>, node: T, ref: Option<T>, k: nat)
    requires Distinct(dom) && k <= |Without(dom, node)|
    requires var rest := Without(dom, node);
             var ref' := if ref == Some(node) && node in dom then NextSibling(dom, node) else ref;
             ref' == if k < |rest| then Some(rest[k]) else None
    ensures InsertBefore(dom, node, ref) == Without(dom, node)[..k] + [node] + Without(dom, node)[k..]
  {
    hide IndexOf, NextSibling;
    var rest := Without(dom, node);
    WithoutIsDistinct(dom, node);
    if k < |rest| {
      IndexOfAt(rest, k);
    } else {
      assert rest[..k] + [node] + rest[k..] == rest + [node];
    }
  }

  /** Inserting before the anchor puts the node right after `after`. */
  lemma InsertBeforeAnchor<T>(dom: seq<T>, node: T, after: Option<T>)
    requires Distinct(dom) && (after.Some? ==> after.value in dom && after.value != node)
    ensures after.Some? ==> after.value in Without(dom, node)
    ensures InsertBefore(dom, node, Anchor(dom, after)) == PlaceAfter(dom, node, after)
  {
    hide IndexOf, InsertBefore;
    WithoutIsDistinct(dom, node);
    if node in dom {
      SiblingInWithout(dom, node, after);
    }
    InsertAtIndex(dom, node, Anchor(dom, after), PlaceIndex(Without(dom, node), after));
  }

  lemma PlacedIndex<T>(dom: seq<T>, node: T, after: Option<T>, x: T)
    requires Distinct(dom) && (after.Some? ==> after.value in dom && after.value != node)
    requires after.Some? ==> after.value in Without(dom, node)
    requires x in dom || x == node
    ensures Distinct(PlaceAfter(dom, node, after))
    ensures var rest, d := Without(dom, node), PlaceAfter(dom, node, after);
            var k := PlaceIndex(rest, after);
            && x in d && (x != node ==> x in rest)
            && IndexOf(d, x) == (if x == node then k else if IndexOf(rest, x) < k then IndexOf(rest, x) else IndexOf(rest, x) + 1)
  {
    hide IndexOf;
    WithoutIsDistinct(dom, node);
    var rest, d := Without(dom, node), PlaceAfter(dom, node, after);
    var k := PlaceIndex(rest, after);
    if x == node {
      assert d[k] == x;
      IndexOfAt(d, k);
    } else {
      var i := IndexOf(rest, x);
      var j := if i < k then i else i + 1;
      assert d[j] == x;
      IndexOfAt(d, j);
    }
  }

  /** Placing keeps the order of all other nodes. */
  lemma PlaceAfterKeepsOrder<T>(dom: seq<T>, node: T, after: Option<T>, x: T, y: T)
    requires Distinct(dom) && (after.Some? ==> after.value in dom && after.value != node)
    requires after.Some? ==> after.value in Without(dom, node)
    requires x in dom && y in dom && x != node && y != node
    ensures Before(PlaceAfter(dom, node, after), x, y) <==> Before(dom, x, y)
  {
    hide IndexOf, Without, PlaceAfter, Distinct;
    WithoutKeepsOrder(dom, node, x, y);
    PlacedIndex(dom, node, after, x);
    PlacedIndex(dom, node, after, y);
  }

  /** The placed node comes after `after` and what precedes it, and before everything else. */
  lemma PlaceAfterPosition<T>(dom: seq<T>, node: T, after: Option<T>, x: T)
    requires Distinct(dom) && (after.Some? ==> after.value in dom && after.value != node)
    requires after.Some? ==> after.value in Without(dom, node)
    requires x in dom && x != node
    ensures var d := PlaceAfter(dom, node, after);
            var precedes := after.Some? && (x == after.value || Before(dom, x, after.value));
            Before(d, x, node) == precedes && Before(d, node, x) == !precedes
  {
    hide IndexOf, Without, PlaceAfter, Distinct;
    PlacedIndex(dom, node, after, x);
    PlacedIndex(dom, node, after, node);
    if after.Some? {
      WithoutKeepsOrder(dom, node, x, after.value);
      assert x == after.value || IndexOf(Without(dom, node), x) != IndexOf(Without(dom, node), after.value);
    }
  }

  lemma PlaceAfterElements<T>(dom: seq<T>, node: T, after: Option<T>)
    requires Distinct(dom) && (after.Some? ==> after.value in dom && after.value != node)
    requires after.Some? ==> after.value in Without(dom, node)
    ensures Distinct(PlaceAfter(dom, node, after))
    ensures forall x :: x in PlaceAfter(dom, node, after) <==> x in dom || x == node
  {
    WithoutIsDistinct(dom, node);
    PlacedIndex(dom, node, after, node);
  }

  // ----- The plan -----

  function Max(a: nat, b: nat): nat {
    if a < b then b else a
  }

  /**
   The operation queued for the next child at position `p`. `matched` is the old position of
   the child that had the same name, `lastIndex` the greatest old position met so far.
   */
  function PlanOne<T(==)>(prev: seq<T>, node: T, matched: Option<nat>, after: Option<T>, lastIndex: nat): seq<Update<T>> {
    if matched.Some? && matched.value < |prev| && prev[matched.value] == node then
      if matched.value < lastIndex then [MoveExisting(node, after)] else []
    else
      [InsertMarkup(node, after)]
  }

  function NextLastIndex(matched: Option<nat>, lastIndex: nat): nat {
    if matched.Some? then Max(matched.value, lastIndex) else lastIndex
  }

  /** The value `lastIndex` has reached when the children from `p` on have been dealt with. */
  function FinalLastIndex(matched: seq<Option<nat>>, p: nat, lastIndex: nat): nat
    requires p <= |matched|
    decreases |matched| - p
  {
    if p == |matched| then lastIndex else FinalLastIndex(matched, p + 1, NextLastIndex(matched[p], lastIndex))
  }

  function After<T>(next: seq<T>, p: nat): Option<T>
    requires p <= |next|
  {
    if p == 0 then None else Some(next[p - 1])
  }

  /** The operations queued for next[p..]. */
  function Plan<T(==)>(prev: seq<T>, next: seq<T>, matched: seq<Option<nat>>, p: nat, lastIndex: nat): seq<Update<T>>
    requires p <= |next| == |matched|
    decreases |next| - p
  {
    if p == |next| then []
    else
      PlanOne(prev, next[p], matched[p], After(next, p), lastIndex)
      + Plan(prev, next, matched, p + 1, NextLastIndex(matched[p], lastIndex))
  }

  /** A node that stays is matched with its own old position. */
  ghost predicate Matches<T>(prev: seq<T>, next: seq<T>, matched: seq<Option<nat>>) {
    && |matched| == |next|
    && (forall p | 0 <= p < |next| :: matched[p].Some? ==> matched[p].value < |prev|)
    && (forall p, k | 0 <= p < |next| && 0 <= k < |prev| && prev[k] == next[p] :: matched[p] == Some(k))
  }

  /**
   What holds once next[..p] has been dealt with: those nodes are in their final order, the
   old nodes not yet reached keep theirs, and those at `lastIndex` or beyond come last.
   */
  ghost predicate Progress<T>(dom: seq<T>, prev: seq<T>, next: seq<T>, p: nat, lastIndex: nat)
    requires p <= |next|
  {
    && Distinct(dom)
    && (forall x | x in dom :: x in prev || x in next[..p])
    && (forall x | x in prev :: x in dom)
    && (forall x | x in next[..p] :: x in dom)
    && (forall i, j | 0 <= i < j < p :: Before(dom, next[i], next[j]))
    && (forall k, l | 0 <= k < l < |prev| && prev[k] !in next[..p] && prev[l] !in next[..p] ::
          Before(dom, prev[k], prev[l]))
    && (forall i, k | 0 <= i < p && lastIndex <= k < |prev| && prev[k] !in next[..p] ::
          Before(dom, next[i], prev[k]))
  }

  lemma ProgressAtStart<T>(prev: seq<T>, next: seq<T>)
    requires Distinct(prev)
    ensures Progress(prev, prev, next, 0, 0)
  {
    hide IndexOf;
    forall k, l | 0 <= k < l < |prev| ensures Before(prev, prev[k], prev[l]) {
      IndexOfAt(prev, k);
      IndexOfAt(prev, l);
    }
  }

  /** A node whose old position is not before `lastIndex` is already in its place. */
  lemma KeepStep<T>(dom: seq<T>, prev: seq<T>, next: seq<T>, p: nat, lastIndex: nat, k: nat)
    requires Distinct(prev) && Distinct(next) && p < |next| && lastIndex <= k < |prev| && next[p] == prev[k]
    requires Progress(dom, prev, next, p, lastIndex)
    ensures Progress(dom, prev, next, p + 1, k)
  {
    hide Before;
    assert next[..p + 1] == next[..p] + [next[p]];
    assert prev[k] !in next[..p];
    forall i, l | 0 <= i < p + 1 && k <= l < |prev| && prev[l] !in next[..p + 1]
      ensures Before(dom, next[i], prev[l])
    {
      assert prev[l] != next[p];
      if i == p {
        assert k < l && Before(dom, prev[k], prev[l]);
      }
    }
  }

  /** Any other node is placed right behind the last one dealt with. */
  lemma PlaceStep<T>(dom: seq<T>, prev: seq<T>, next: seq<T>, p: nat, lastIndex: nat, lastIndex': nat)
    requires Distinct(prev) && Distinct(next) && p < |next| && lastIndex <= lastIndex'
    requires Progress(dom, prev, next, p, lastIndex)
    ensures var after := After(next, p);
            && (after.Some? ==> after.value in dom && after.value != next[p])
            && InsertBefore(dom, next[p], Anchor(dom, after)) == PlaceAfter(dom, next[p], after)
            && Progress(PlaceAfter(dom, next[p], after), prev, next, p + 1, lastIndex')
  {
    hide Before, Without, PlaceAfter, InsertBefore, Anchor;
    var node, after := next[p], After(next, p);
    assert next[..p + 1] == next[..p] + [node];
    assert after.Some? ==> after.value in next[..p] && after.value in dom && after.value != node;
    InsertBeforeAnchor(dom, node, after);
    PlaceAfterElements(dom, node, after);
    var d := PlaceAfter(dom, node, after);
    forall i, j | 0 <= i < j < p + 1 ensures Before(d, next[i], next[j]) {
      assert next[i] in next[..p] && next[i] != node;
      if j < p {
        assert next[j] in next[..p];
        PlaceAfterKeepsOrder(dom, node, after, next[i], next[j]);
      } else {
        PlaceAfterPosition(dom, node, after, next[i]);
      }
    }
    forall k, l | 0 <= k < l < |prev| && prev[k] !in next[..p + 1] && prev[l] !in next[..p + 1]
      ensures Before(d, prev[k], prev[l])
    {
      PlaceAfterKeepsOrder(dom, node, after, prev[k], prev[l]);
    }
    forall i, k | 0 <= i < p + 1 && lastIndex' <= k < |prev| && prev[k] !in next[..p + 1]
      ensures Before(d, next[i], prev[k])
    {
      if i < p {
        assert next[i] in next[..p] && next[i] != node;
        PlaceAfterKeepsOrder(dom, node, after, next[i], prev[k]);
      } else {
        PlaceAfterPosition(dom, node, after, prev[k]);
        if after.Some? {
          assert Before(dom, next[p - 1], prev[k]);
          BeforeIsAsymmetric(dom, next[p - 1], prev[k]);
        }
      }
    }
    assert Distinct(d);
    assert forall x | x in d :: x in prev || x in next[..p + 1];
    assert forall x | x in prev :: x in d;
    assert forall x | x in next[..p + 1] :: x in d;
  }

  lemma BeforeIsAsymmetric<T>(s: seq<T>, x: T, y: T)
    requires Before(s, x, y)
    ensures !Before(s, y, x) && x != y
  {
  }

  /** Executing the planned operations takes the list from any stage to the last one. */
  lemma {:induction false} PlanProgresses<T>(dom: seq<T>, prev: seq<T>, next: seq<T>, matched: seq<Option<nat>>, p: nat, lastIndex: nat)
    requires Distinct(prev) && Distinct(next) && Matches(prev, next, matched) && p <= |next|
    requires Progress(dom, prev, next, p, lastIndex)
    ensures var us := Plan(prev, next, matched, p, lastIndex);
            && CanApplyAll(dom, us)
            && Progress(ApplyAll(dom, us), prev, next, |next|, FinalLastIndex(matched, p, lastIndex))
    decreases |next| - p
  {
    hide Progress, InsertBefore, Anchor, PlaceAfter, Distinct;
    if p < |next| {
      var node, m, after := next[p], matched[p], After(next, p);
      var one, c := PlanOne(prev, node, m, after, lastIndex), NextLastIndex(m, lastIndex);
      var rest := Plan(prev, next, matched, p + 1, c);
      var dom' := dom;
      if m.Some? && prev[m.value] == node && lastIndex <= m.value {
        KeepStep(dom, prev, next, p, lastIndex, m.value);
        assert one + rest == rest;
      } else {
        PlaceStep(dom, prev, next, p, lastIndex, c);
        NodePresence(dom, prev, next, matched, p, lastIndex);
        dom' := PlaceAfter(dom, node, after);
        assert CanApply(dom, one[0]) && Apply(dom, one[0]) == dom';
        assert (one + rest)[0] == one[0] && (one + rest)[1..] == rest;
      }
      PlanProgresses(dom', prev, next, matched, p + 1, c);
    }
  }

  lemma NodePresence<T>(dom: seq<T>, prev: seq<T>, next: seq<T>, matched: seq<Option<nat>>, p: nat, lastIndex: nat)
    requires Distinct(prev) && Distinct(next) && Matches(prev, next, matched) && p < |next|
    requires Progress(dom, prev, next, p, lastIndex)
    ensures next[p] in dom <==> matched[p].Some? && prev[matched[p].value] == next[p]
  {
    assert next[p] !in next[..p];
    if next[p] in prev {
      var k :| 0 <= k < |prev| && prev[k] == next[p];
      assert matched[p] == Some(k);
    }
  }

  // ----- Removals -----

  function Removals<T>(gone: seq<T>): seq<Update<T>> {
    if gone == [] then [] else [RemoveNode(gone[0])] + Removals(gone[1..])
  }

  /** Removing every node that is not wanted leaves the wanted ones in order. */
  lemma {:induction false} RemovalsLeave<T>(dom: seq<T>, next: seq<T>, gone: seq<T>)
    requires Distinct(dom) && Distinct(next) && Distinct(gone)
    requires forall x :: x in dom <==> x in next || x in gone
    requires forall x | x in gone :: x !in next
    requires forall i, j | 0 <= i < j < |next| :: Before(dom, next[i], next[j])
    ensures CanApplyAll(dom, Removals(gone)) && ApplyAll(dom, Removals(gone)) == next
    decreases |gone|
  {
    hide Before, Without;
    if gone == [] {
      SameOrderIsEqual(dom, next);
    } else {
      var x, us := gone[0], Removals(gone);
      var d := Without(dom, x);
      WithoutIsDistinct(dom, x);
      forall i, j | 0 <= i < j < |next| ensures Before(d, next[i], next[j]) {
        assert next[i] in next && next[j] in next;
        WithoutKeepsOrder(dom, x, next[i], next[j]);
      }
      forall y ensures y in d <==> y in next || y in gone[1..] {
        if y in gone && y != x { assert y in gone[1..]; }
        if y in gone[1..] { assert y in gone && y != x; }
      }
      RemovalsLeave(d, next, gone[1..]);
      assert us[1..] == Removals(gone[1..]);
    }
  }

  /**
   The reconciliation theorem: the planned inserts and moves followed by the removals, executed
   one by one on the old list, leave exactly the new children in order.
   */
  lemma Reconciles<T>(prev: seq<T>, next: seq<T>, matched: seq<Option<nat>>, gone: seq<T>)
    requires Distinct(prev) && Distinct(next) && Distinct(gone)
    requires Matches(prev, next, matched)
    requires forall x :: x in gone <==> x in prev && x !in next
    ensures var us := Plan(prev, next, matched, 0, 0) + Removals(gone);
            CanApplyAll(prev, us) && ApplyAll(prev, us) == next
  {
    hide CanApplyAll, ApplyAll, Plan, Removals, Before;
    var us := Plan(prev, next, matched, 0, 0);
    ProgressAtStart(prev, next);
    PlanProgresses(prev, prev, next, matched, 0, 0);
    var dom := ApplyAll(prev, us);
    assert next[..|next|] == next;
    RemovalsLeave(dom, next, gone);
    ApplyAllConcat(prev, us, Removals(gone));
  }
}
