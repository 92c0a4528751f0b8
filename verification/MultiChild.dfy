/**
 A parent component and its rendered children: matching old children with new elements,
 queueing the document operations and executing them (defaults/react-with-addons.js:12-16,
 modules 7, 31, 80 and 150). Every child owns one document node, identified with its instance;
 the element an instance currently shows is kept beside it.
 */
module MultiChild {
  import opened Collections
  import opened ChildUpdates

  datatype Element = NoElement | TextElement(text: string) | NodeElement(tag: string, key: Option<string>)

  /** Whether a mounted child can take over the new element (module 150). */
  predicate ShouldUpdate(prev: Element, next: Element) {
    if prev.NoElement? || next.NoElement? then prev.NoElement? && next.NoElement?
    else if prev.TextElement? then next.TextElement?
    else next.NodeElement? && prev.tag == next.tag && prev.key == next.key
  }

  class Component {
    var mountIndex: Option<nat>

    constructor ()
      ensures mountIndex == None
    {
      mountIndex := None;
    }
  }

  datatype Child = Child(name: string, element: Element, instance: Component)
  datatype Wanted = Wanted(name: string, element: Element)

  function Instances(cs: seq<Child>): (r: seq<Component>)
    ensures |r| == |cs|
    ensures forall i | 0 <= i < |cs| :: r[i] == cs[i].instance
  {
    seq(|cs|, i requires 0 <= i < |cs| => cs[i].instance)
  }

  ghost predicate DistinctNames(cs: seq<Child>) {
    forall i, j | 0 <= i < j < |cs| :: cs[i].name != cs[j].name
  }

  ghost predicate DistinctWanted(ws: seq<Wanted>) {
    forall i, j | 0 <= i < j < |ws| :: ws[i].name != ws[j].name
  }

  /** Looking a child up by name. */
  function FindChild(cs: seq<Child>, name: string): (r: Option<nat>)
    ensures r.Some? ==> r.value < |cs| && cs[r.value].name == name
    ensures r.None? ==> forall i | 0 <= i < |cs| :: cs[i].name != name
  {
    if cs == [] then None
    else if cs[|cs| - 1].name == name then Some(|cs| - 1)
    else FindChild(cs[..|cs| - 1], name)
  }

  /** The old child a new element takes over, if any. */
  function Reused(prev: seq<Child>, w: Wanted): (r: Option<nat>)
    ensures r.Some? ==> r.value < |prev| && prev[r.value].name == w.name
  {
    var m := FindChild(prev, w.name);
    if m.Some? && ShouldUpdate(prev[m.value].element, w.element) then m else None
  }

  /** The old children whose name is wanted again but whose element cannot be taken over. */
  function Replaced(prev: seq<Child>, wanted: seq<Wanted>): seq<Child> {
    if wanted == [] then []
    else
      var w := wanted[|wanted| - 1];
      var m := FindChild(prev, w.name);
      Replaced(prev, wanted[..|wanted| - 1])
      + if m.Some? && Reused(prev, w).None? then [prev[m.value]] else []
  }

  predicate Wants(wanted: seq<Wanted>, name: string) {
    exists i | 0 <= i < |wanted| :: wanted[i].name == name
  }

  /** The old children whose name is not wanted any more. */
  function Missing(prev: seq<Child>, wanted: seq<Wanted>): seq<Child> {
    if prev == [] then []
    else
      var c := prev[|prev| - 1];
      Missing(prev[..|prev| - 1], wanted) + if Wants(wanted, c.name) then [] else [c]
  }

  /** What a new child must be: the reused instance, or one that is not among the old ones. */
  ghost predicate Fits(prev: seq<Child>, w: Wanted, c: Child) {
    && c.name == w.name && c.element == w.element
    && match Reused(prev, w)
       case Some(k) => c.instance == prev[k].instance
       case None => c.instance !in Instances(prev)
  }

  ghost predicate AllFit(prev: seq<Child>, wanted: seq<Wanted>, next: seq<Child>) {
    |next| == |wanted| && forall p | 0 <= p < |next| :: Fits(prev, wanted[p], next[p])
  }

  /** One new child. */
  method MatchChild(prev: seq<Child>, w: Wanted) returns (c: Child)
    ensures Fits(prev, w, c)
    ensures Reused(prev, w).None? ==> fresh(c.instance)
  {
    var m := FindChild(prev, w.name);
    if m.Some? && ShouldUpdate(prev[m.value].element, w.element) {
      c := prev[m.value].(element := w.element);
    } else {
      var instance := new Component();
      c := Child(w.name, w.element, instance);
      assert forall k | 0 <= k < |prev| :: allocated(prev[k]);
    }
  }

  /** Matches old children with new elements, instantiating where nothing can be reused. */
  method MatchChildren(prev: seq<Child>, wanted: seq<Wanted>) returns (next: seq<Child>, replaced: seq<Child>)
    requires DistinctNames(prev) && Distinct(Instances(prev)) && DistinctWanted(wanted)
    ensures AllFit(prev, wanted, next) && Distinct(Instances(next))
    ensures forall p | 0 <= p < |next| :: Reused(prev, wanted[p]).None? ==> fresh(next[p].instance)
    ensures replaced == Replaced(prev, wanted)
  {
    hide FindChild, Reused, Fits, AllFit, Replaced, DistinctNames, DistinctWanted, Distinct;
    next, replaced := [], [];
    assert AllFit(prev, [], []) && Replaced(prev, []) == [] by { NoneFit(prev); }
    for i := 0 to |wanted|
      invariant |next| == i && AllFit(prev, wanted[..i], next)
      invariant forall p | 0 <= p < |next| :: Reused(prev, wanted[p]).None? ==> fresh(next[p].instance)
      invariant forall p, q | 0 <= p < q < i :: next[p].instance != next[q].instance
      invariant replaced == Replaced(prev, wanted[..i])
    {
      var w := wanted[i];
      var m := FindChild(prev, w.name);
      if m.Some? && Reused(prev, w).None? {
        replaced := replaced + [prev[m.value]];
      }
      ReplacedStep(prev, wanted, i);
      var c := MatchChild(prev, w);
      FitsNext(prev, wanted, i, next, c);
      next := next + [c];
    }
    assert wanted[..|wanted|] == wanted;
    PairwiseIsDistinct(next);
  }

  method FindMissing(prev: seq<Child>, wanted: seq<Wanted>) returns (missing: seq<Child>)
    ensures missing == Missing(prev, wanted)
  {
    missing := [];
    for k := 0 to |prev|
      invariant missing == Missing(prev[..k], wanted)
    {
      assert prev[..k + 1][..k] == prev[..k];
      if !Wants(wanted, prev[k].name) {
        missing := missing + [prev[k]];
      }
    }
    assert prev[..|prev|] == prev;
  }

  lemma ReplacedStep(prev: seq<Child>, wanted: seq<Wanted>, i: nat)
    requires i < |wanted|
    ensures var m := FindChild(prev, wanted[i].name);
            Replaced(prev, wanted[..i + 1])
            == Replaced(prev, wanted[..i]) + if m.Some? && Reused(prev, wanted[i]).None? then [prev[m.value]] else []
  {
    assert wanted[..i + 1][..i] == wanted[..i];
  }

  lemma NoneFit(prev: seq<Child>)
    ensures AllFit(prev, [], []) && Replaced(prev, []) == []
  {
  }

  lemma PairwiseIsDistinct(cs: seq<Child>)
    requires forall p, q | 0 <= p < q < |cs| :: cs[p].instance != cs[q].instance
    ensures Distinct(Instances(cs))
  {
  }

  lemma FitsNext(prev: seq<Child>, wanted: seq<Wanted>, i: nat, next: seq<Child>, c: Child)
    requires DistinctNames(prev) && Distinct(Instances(prev)) && DistinctWanted(wanted)
    requires i < |wanted| && AllFit(prev, wanted[..i], next) && Fits(prev, wanted[i], c)
    ensures AllFit(prev, wanted[..i + 1], next + [c])
    ensures Reused(prev, wanted[i]).Some? ==> forall p | 0 <= p < |next| :: next[p].instance != c.instance
  {
    hide Fits;
    if Reused(prev, wanted[i]).Some? {
      forall p | 0 <= p < i ensures next[p].instance != c.instance {
        assert wanted[..i][p] == wanted[p];
        FitsOnce(prev, wanted, p, i, next[p], c);
      }
    }
    assert wanted[..i + 1] == wanted[..i] + [wanted[i]];
  }

  lemma FitsOnce(prev: seq<Child>, wanted: seq<Wanted>, p: nat, i: nat, c: Child, d: Child)
    requires DistinctNames(prev) && Distinct(Instances(prev)) && DistinctWanted(wanted)
    requires p < i < |wanted| && Reused(prev, wanted[i]).Some?
    requires Fits(prev, wanted[p], c) && Fits(prev, wanted[i], d)
    ensures c.instance != d.instance
  {
    hide FindChild;
    var k, l := Reused(prev, wanted[p]), Reused(prev, wanted[i]).value;
    assert Instances(prev)[l] == d.instance;
    if k.Some? {
      assert k.value != l;
      assert Instances(prev)[k.value] != Instances(prev)[l];
    }
  }

  // ----- The children that go -----

  /** `c` has the wanted name, but the element wanted there cannot be taken over by it. */
  predicate ReplacedBy(prev: seq<Child>, w: Wanted, c: Child) {
    Reused(prev, w).None? && FindChild(prev, w.name).Some? && prev[FindChild(prev, w.name).value] == c
  }

  ghost predicate IsReplaced(prev: seq<Child>, wanted: seq<Wanted>, c: Child) {
    exists i | 0 <= i < |wanted| :: ReplacedBy(prev, wanted[i], c)
  }

  lemma ReplacedByName(prev: seq<Child>, w: Wanted, c: Child)
    requires ReplacedBy(prev, w, c)
    ensures c in prev && c.name == w.name
  {
  }

  /** The last wanted element adds the child it replaces, if there is one. */
  lemma ReplacedGrows(prev: seq<Child>, wanted: seq<Wanted>)
    requires wanted != []
    ensures var r, r' := Replaced(prev, wanted[..|wanted| - 1]), Replaced(prev, wanted);
            || (r' == r && forall k | 0 <= k < |prev| :: !ReplacedBy(prev, wanted[|wanted| - 1], prev[k]))
            || (|r'| == |r| + 1 && r' == r + [r'[|r|]] && ReplacedBy(prev, wanted[|wanted| - 1], r'[|r|])
                && forall k | 0 <= k < |prev| && ReplacedBy(prev, wanted[|wanted| - 1], prev[k]) :: prev[k] == r'[|r|])
  {
    hide FindChild, Reused;
    var m := FindChild(prev, wanted[|wanted| - 1].name);
  }

  lemma {:induction false} ReplacedMembers(prev: seq<Child>, wanted: seq<Wanted>)
    requires DistinctWanted(wanted)
    ensures var r := Replaced(prev, wanted);
            && (forall i | 0 <= i < |r| :: IsReplaced(prev, wanted, r[i]))
            && (forall k | 0 <= k < |prev| && IsReplaced(prev, wanted, prev[k]) :: prev[k] in r)
            && DistinctNames(r)
  {
    hide ReplacedBy, Replaced;
    if wanted == [] {
      NoneFit(prev);
    } else {
      var n := |wanted| - 1;
      var front, w := wanted[..n], wanted[n];
      ReplacedMembers(prev, front);
      ReplacedGrows(prev, wanted);
      var r, r' := Replaced(prev, front), Replaced(prev, wanted);
      forall i | 0 <= i < |r| ensures IsReplaced(prev, wanted, r[i]) && r[i].name != w.name {
        assert IsReplaced(prev, front, r[i]);
        var j :| 0 <= j < |front| && ReplacedBy(prev, front[j], r[i]);
        assert wanted[j] == front[j];
        ReplacedByName(prev, front[j], r[i]);
      }
      forall k | 0 <= k < |prev| && IsReplaced(prev, wanted, prev[k]) ensures prev[k] in r' {
        var i :| 0 <= i < |wanted| && ReplacedBy(prev, wanted[i], prev[k]);
        if i < n {
          assert ReplacedBy(prev, front[i], prev[k]);
        }
      }
      if |r'| > |r| {
        assert ReplacedBy(prev, wanted[n], r'[|r|]);
        ReplacedByName(prev, w, r'[|r|]);
      }
    }
  }

  lemma MissingUnfolds(prev: seq<Child>, wanted: seq<Wanted>)
    requires prev != []
    ensures var n := |prev| - 1;
            Missing(prev, wanted)
            == if Wants(wanted, prev[n].name) then Missing(prev[..n], wanted) else Missing(prev[..n], wanted) + [prev[n]]
  {
  }

  lemma {:induction false} MissingMember(prev: seq<Child>, wanted: seq<Wanted>, c: Child)
    ensures c in Missing(prev, wanted) <==> c in prev && !Wants(wanted, c.name)
  {
    hide Wants;
    if prev != [] {
      hide Missing;
      var n := |prev| - 1;
      MissingMember(prev[..n], wanted, c);
      MissingUnfolds(prev, wanted);
      assert c in prev <==> c in prev[..n] || c == prev[n] by {
        assert prev == prev[..n] + [prev[n]];
      }
    }
  }

  lemma {:induction false} MissingDistinct(prev: seq<Child>, wanted: seq<Wanted>)
    requires DistinctNames(prev)
    ensures DistinctNames(Missing(prev, wanted))
  {
    if prev != [] {
      hide Missing, Wants;
      var n := |prev| - 1;
      var r := Missing(prev[..n], wanted);
      MissingDistinct(prev[..n], wanted);
      MissingUnfolds(prev, wanted);
      forall c | c in r ensures c.name != prev[n].name {
        MissingMember(prev[..n], wanted, c);
      }
      AddDistinctName(r, prev[n]);
    } else {
      NoneMissing(wanted);
    }
  }

  lemma NoneMissing(wanted: seq<Wanted>)
    ensures Missing([], wanted) == []
  {
  }

  lemma AddDistinctName(r: seq<Child>, c: Child)
    requires DistinctNames(r) && forall x | x in r :: x.name != c.name
    ensures DistinctNames(r + [c])
  {
  }

  lemma FindChildAt(prev: seq<Child>, k: nat)
    requires DistinctNames(prev) && k < |prev|
    ensures FindChild(prev, prev[k].name) == Some(k)
  {
  }

  /** A child goes exactly when its instance is not among the new children's. */
  lemma GoesOrStays(prev: seq<Child>, wanted: seq<Wanted>, next: seq<Child>, k: nat)
    requires DistinctNames(prev) && Distinct(Instances(prev)) && DistinctWanted(wanted)
    requires AllFit(prev, wanted, next) && k < |prev|
    ensures prev[k].instance in Instances(next)
            <==> !(IsReplaced(prev, wanted, prev[k]) || !Wants(wanted, prev[k].name))
  {
    hide FindChild;
    var c := prev[k];
    FindChildAt(prev, k);
    assert forall i | 0 <= i < |prev| :: Instances(prev)[i] == prev[i].instance;
    if c.instance in Instances(next) {
      var p :| 0 <= p < |next| && Instances(next)[p] == c.instance;
      assert Fits(prev, wanted[p], next[p]);
      assert c.instance in Instances(prev) by { assert Instances(prev)[k] == c.instance; }
      var r := Reused(prev, wanted[p]).value;
      assert Instances(prev)[r] == Instances(prev)[k];
      assert r == k && wanted[p].name == c.name;
    } else if Wants(wanted, c.name) {
      var i :| 0 <= i < |wanted| && wanted[i].name == c.name;
      assert Fits(prev, wanted[i], next[i]) && Instances(next)[i] == next[i].instance;
      assert Reused(prev, wanted[i]).None?;
      assert IsReplaced(prev, wanted, c);
    }
  }

  function Gone(prev: seq<Child>, wanted: seq<Wanted>): seq<Child> {
    Replaced(prev, wanted) + Missing(prev, wanted)
  }

  lemma GoneMembers(prev: seq<Child>, wanted: seq<Wanted>)
    requires DistinctNames(prev) && DistinctWanted(wanted)
    ensures var gone := Gone(prev, wanted);
            && (forall g | 0 <= g < |gone| ::
                  gone[g] in prev && (IsReplaced(prev, wanted, gone[g]) || !Wants(wanted, gone[g].name)))
            && (forall k | 0 <= k < |prev| && (IsReplaced(prev, wanted, prev[k]) || !Wants(wanted, prev[k].name)) ::
                  prev[k] in gone)
            && DistinctNames(gone)
  {
    hide Replaced, Missing, IsReplaced, FindChild, Wants, DistinctWanted;
    ReplacedMembers(prev, wanted);
    MissingDistinct(prev, wanted);
    forall c ensures c in Missing(prev, wanted) <==> c in prev && !Wants(wanted, c.name) {
      MissingMember(prev, wanted, c);
    }
    var gone, r, m := Gone(prev, wanted), Replaced(prev, wanted), Missing(prev, wanted);
    forall i | 0 <= i < |r| ensures r[i] in prev && Wants(wanted, r[i].name) {
      ReplacedIsOld(prev, wanted, r[i]);
    }
    forall g | 0 <= g < |gone|
      ensures gone[g] in prev && (IsReplaced(prev, wanted, gone[g]) || !Wants(wanted, gone[g].name))
    {
      if g < |r| {
        assert gone[g] == r[g];
      } else {
        assert gone[g] == m[g - |r|];
        assert m[g - |r|] in m;
        MissingMember(prev, wanted, gone[g]);
      }
    }
  }

  lemma GoneDistinct(prev: seq<Child>, wanted: seq<Wanted>)
    requires DistinctNames(prev) && Distinct(Instances(prev)) && DistinctWanted(wanted)
    ensures Distinct(Instances(Gone(prev, wanted)))
  {
    hide Gone, IsReplaced, FindChild, Wants, Instances, Distinct, DistinctWanted;
    var gone := Gone(prev, wanted);
    GoneMembers(prev, wanted);
    forall i, j | 0 <= i < j < |gone| ensures gone[i].instance != gone[j].instance {
      SameInstanceSameChild(prev, gone[i], gone[j]);
    }
    PairwiseIsDistinct(gone);
  }

  lemma GoneInstance(prev: seq<Child>, wanted: seq<Wanted>, next: seq<Child>, x: Component)
    requires DistinctNames(prev) && Distinct(Instances(prev)) && DistinctWanted(wanted)
    requires AllFit(prev, wanted, next)
    ensures x in Instances(Gone(prev, wanted)) <==> x in Instances(prev) && x !in Instances(next)
  {
    hide Gone, IsReplaced, FindChild, Wants, AllFit, DistinctNames, DistinctWanted;
    var gone := Gone(prev, wanted);
    GoneMembers(prev, wanted);
    if x in Instances(gone) {
      var g :| 0 <= g < |gone| && Instances(gone)[g] == x;
      var k :| 0 <= k < |prev| && prev[k] == gone[g];
      assert Instances(prev)[k] == x;
      GoesOrStays(prev, wanted, next, k);
    }
    if x in Instances(prev) && x !in Instances(next) {
      var k :| 0 <= k < |prev| && Instances(prev)[k] == x;
      GoesOrStays(prev, wanted, next, k);
      var g :| 0 <= g < |gone| && gone[g] == prev[k];
      assert Instances(gone)[g] == x;
    }
  }

  /** The instances that go are the old ones that no new child uses. */
  lemma GoneIsTheRest(prev: seq<Child>, wanted: seq<Wanted>, next: seq<Child>)
    requires DistinctNames(prev) && Distinct(Instances(prev)) && DistinctWanted(wanted)
    requires AllFit(prev, wanted, next)
    ensures Distinct(Instances(Gone(prev, wanted)))
    ensures forall x :: x in Instances(Gone(prev, wanted)) <==> x in Instances(prev) && x !in Instances(next)
    ensures forall g | 0 <= g < |Gone(prev, wanted)| :: Gone(prev, wanted)[g].instance in Instances(prev)
  {
    GoneDistinct(prev, wanted);
    var gone := Gone(prev, wanted);
    forall g | 0 <= g < |gone| ensures gone[g].instance in Instances(prev) {
      GoneInstance(prev, wanted, next, gone[g].instance);
      assert Instances(gone)[g] in Instances(gone);
    }
    forall x ensures x in Instances(Gone(prev, wanted)) <==> x in Instances(prev) && x !in Instances(next) {
      GoneInstance(prev, wanted, next, x);
    }
  }

  lemma ReplacedIsOld(prev: seq<Child>, wanted: seq<Wanted>, c: Child)
    requires IsReplaced(prev, wanted, c)
    ensures c in prev && Wants(wanted, c.name)
  {
  }

  lemma SameInstanceSameChild(prev: seq<Child>, c: Child, d: Child)
    requires Distinct(Instances(prev)) && c in prev && d in prev
    ensures c.instance == d.instance <==> c == d
  {
    var i :| 0 <= i < |prev| && prev[i] == c;
    var j :| 0 <= j < |prev| && prev[j] == d;
    assert Instances(prev)[i] == c.instance && Instances(prev)[j] == d.instance;
  }

  // ----- Queueing and executing -----

  /** For each new child, the old position of the child of the same name. */
  function MatchedOf(prev: seq<Child>, next: seq<Child>): (r: seq<Option<nat>>)
    ensures |r| == |next|
    ensures forall p | 0 <= p < |next| :: r[p] == FindChild(prev, next[p].name)
  {
    seq(|next|, p requires 0 <= p < |next| => FindChild(prev, next[p].name))
  }

  lemma FitsMatch(prev: seq<Child>, wanted: seq<Wanted>, next: seq<Child>)
    requires DistinctNames(prev) && Distinct(Instances(prev)) && AllFit(prev, wanted, next)
    ensures Matches(Instances(prev), Instances(next), MatchedOf(prev, next))
  {
    hide FindChild;
    var a, b, m := Instances(prev), Instances(next), MatchedOf(prev, next);
    forall p, k | 0 <= p < |b| && 0 <= k < |a| && a[k] == b[p] ensures m[p] == Some(k) {
      assert Fits(prev, wanted[p], next[p]);
      var r := Reused(prev, wanted[p]);
      assert r.Some? by { assert next[p].instance in a; }
      assert a[r.value] == a[k];
      FindChildAt(prev, k);
    }
  }

  /** `moveChild` for a child that stays, `_mountChildAtIndex` for one that is new. */
  method PlanChild(prev: seq<Child>, child: Child, after: Option<Component>, lastIndex: nat)
    returns (ops: seq<Update<Component>>, lastIndex': nat)
    requires var m := FindChild(prev, child.name);
             m.Some? ==> prev[m.value].instance.mountIndex == m
    ensures var m := FindChild(prev, child.name);
            && ops == PlanOne(Instances(prev), child.instance, m, after, lastIndex)
            && lastIndex' == NextLastIndex(m, lastIndex)
  {
    hide FindChild;
    ops, lastIndex' := [], lastIndex;
    var m := FindChild(prev, child.name);
    if m.Some? && prev[m.value].instance == child.instance {
      var index := child.instance.mountIndex.value;
      if index < lastIndex {
        ops := [MoveExisting(child.instance, after)];
      }
      lastIndex' := Max(index, lastIndex);
    } else {
      if m.Some? {
        lastIndex' := Max(prev[m.value].instance.mountIndex.value, lastIndex);
      }
      ops := [InsertMarkup(child.instance, after)];
    }
  }

  /**
   The queueing loop of `_updateChildren`: it reads and rewrites the mount indices while it
   walks through the new children.
   */
  method PlanUpdates(prev: seq<Child>, next: seq<Child>) returns (updates: seq<Update<Component>>)
    requires Distinct(Instances(prev)) && Distinct(Instances(next)) && DistinctNames(next)
    requires Matches(Instances(prev), Instances(next), MatchedOf(prev, next))
    requires forall k | 0 <= k < |prev| :: prev[k].instance.mountIndex == Some(k)
    modifies Instances(next)
    ensures updates == Plan(Instances(prev), Instances(next), MatchedOf(prev, next), 0, 0)
    ensures forall p | 0 <= p < |next| :: next[p].instance.mountIndex == Some(p)
  {
    hide FindChild, Plan, PlanOne, Matches, DistinctNames, Distinct, Instances, MatchedOf, NextLastIndex, After;
    ghost var a, b, m := Instances(prev), Instances(next), MatchedOf(prev, next);
    ghost var plan := Plan(a, b, m, 0, 0);
    updates := [];
    var lastIndex, after := 0, None;
    AfterNone(b);
    for p := 0 to |next|
      invariant after == After(b, p)
      invariant plan == updates + Plan(a, b, m, p, lastIndex)
      invariant forall q | p <= q < |next| && m[q].Some? :: prev[m[q].value].instance.mountIndex == m[q]
      invariant forall i | 0 <= i < p :: next[i].instance.mountIndex == Some(i)
    {
      PlanAdvances(a, b, m, p, lastIndex, updates);
      NextIsApart(prev, next, p);
      AfterSome(b, p);
      var ops;
      ops, lastIndex := PlanChild(prev, next[p], after, lastIndex);
      updates := updates + ops;
      next[p].instance.mountIndex := Some(p);
      after := Some(next[p].instance);
    }
    PlanEnds(a, b, m, lastIndex);
  }

  lemma AfterNone(b: seq<Component>)
    ensures After(b, 0) == None
  {
  }

  lemma AfterSome(b: seq<Component>, p: nat)
    requires p < |b|
    ensures After(b, p + 1) == Some(b[p])
  {
  }

  /** The instance at hand is neither an earlier one nor the old child of a later name. */
  lemma NextIsApart(prev: seq<Child>, next: seq<Child>, p: nat)
    requires DistinctNames(next) && Distinct(Instances(next)) && p < |next|
    requires Matches(Instances(prev), Instances(next), MatchedOf(prev, next))
    ensures forall i | 0 <= i < p :: next[i].instance != next[p].instance
    ensures var m := MatchedOf(prev, next);
            forall q | p < q < |next| && m[q].Some? :: prev[m[q].value].instance != next[p].instance
  {
    hide FindChild;
    var a, b, m := Instances(prev), Instances(next), MatchedOf(prev, next);
    forall q | p < q < |next| && m[q].Some? ensures a[m[q].value] != b[p] {
      assert next[p].name != next[q].name;
    }
    assert forall i | 0 <= i < p :: b[i] != b[p];
  }

  lemma PlanAdvances(a: seq<Component>, b: seq<Component>, m: seq<Option<nat>>, p: nat, lastIndex: nat,
                     updates: seq<Update<Component>>)
    requires p < |b| == |m|
    ensures updates + Plan(a, b, m, p, lastIndex)
            == (updates + PlanOne(a, b[p], m[p], After(b, p), lastIndex))
               + Plan(a, b, m, p + 1, NextLastIndex(m[p], lastIndex))
  {
  }

  lemma PlanEnds(a: seq<Component>, b: seq<Component>, m: seq<Option<nat>>, lastIndex: nat)
    requires |b| == |m|
    ensures Plan(a, b, m, |b|, lastIndex) == []
  {
  }

  /** `_unmountChild` for every child that goes. */
  method QueueRemovals(gone: seq<Child>) returns (updates: seq<Update<Component>>)
    modifies Instances(gone)
    ensures updates == Removals(Instances(gone))
    ensures forall g | 0 <= g < |gone| :: gone[g].instance.mountIndex == None
  {
    hide Removals;
    updates := [];
    ghost var all := Instances(gone);
    assert all[0..] == all;
    for g := 0 to |gone|
      invariant Removals(all) == updates + Removals(all[g..])
      invariant forall i | 0 <= i < g :: gone[i].instance.mountIndex == None
    {
      RemovalsAdvance(all, g, updates);
      updates := updates + [RemoveNode(gone[g].instance)];
      gone[g].instance.mountIndex := None;
    }
    RemovalsEnd(all, updates);
  }

  lemma RemovalsAdvance(all: seq<Component>, g: nat, updates: seq<Update<Component>>)
    requires g < |all|
    ensures updates + Removals(all[g..]) == updates + [RemoveNode(all[g])] + Removals(all[g + 1..])
  {
    assert all[g..][1..] == all[g + 1..];
  }

  lemma RemovalsEnd(all: seq<Component>, updates: seq<Update<Component>>)
    ensures updates + Removals(all[|all|..]) == updates
  {
  }

  /** `processUpdates`: executes the queue on the document. */
  method ProcessUpdates(dom: seq<Component>, updates: seq<Update<Component>>) returns (dom': seq<Component>)
    requires CanApplyAll(dom, updates)
    ensures dom' == ApplyAll(dom, updates)
  {
    dom' := dom;
    assert updates[0..] == updates;
    for n := 0 to |updates|
      invariant CanApplyAll(dom', updates[n..]) && ApplyAll(dom', updates[n..]) == ApplyAll(dom, updates)
    {
      assert updates[n..][0] == updates[n] && updates[n..][1..] == updates[n + 1..];
      match updates[n] {
        case InsertMarkup(node, after) => dom' := InsertBefore(dom', node, Anchor(dom', after));
        case MoveExisting(node, after) => dom' := InsertBefore(dom', node, Anchor(dom', after));
        case RemoveNode(node) => dom' := Without(dom', node);
      }
    }
  }

  /** The whole queue: inserts and moves, then removals. */
  method QueueUpdates(prev: seq<Child>, next: seq<Child>, gone: seq<Child>) returns (updates: seq<Update<Component>>)
    requires Distinct(Instances(prev)) && Distinct(Instances(next)) && DistinctNames(next)
    requires Matches(Instances(prev), Instances(next), MatchedOf(prev, next))
    requires forall k | 0 <= k < |prev| :: prev[k].instance.mountIndex == Some(k)
    requires forall p, g | 0 <= p < |next| && 0 <= g < |gone| :: next[p].instance != gone[g].instance
    modifies Instances(next), Instances(gone)
    ensures updates == Plan(Instances(prev), Instances(next), MatchedOf(prev, next), 0, 0) + Removals(Instances(gone))
    ensures forall p | 0 <= p < |next| :: next[p].instance.mountIndex == Some(p)
    ensures forall g | 0 <= g < |gone| :: gone[g].instance.mountIndex == None
  {
    hide Plan, Removals, FindChild, Matches, DistinctNames, MatchedOf;
    updates := PlanUpdates(prev, next);
    var removals := QueueRemovals(gone);
    updates := updates + removals;
  }

  /** One pass over the children: matching, queueing and executing. */
  method Reconcile(prev: seq<Child>, dom: seq<Component>, wanted: seq<Wanted>)
    returns (next: seq<Child>, dom': seq<Component>)
    requires DistinctNames(prev) && Distinct(Instances(prev)) && DistinctWanted(wanted) && dom == Instances(prev)
    requires forall k | 0 <= k < |prev| :: prev[k].instance.mountIndex == Some(k)
    modifies Instances(prev)
    ensures AllFit(prev, wanted, next) && DistinctNames(next) && Distinct(Instances(next))
    ensures dom' == Instances(next)
    ensures forall p | 0 <= p < |next| :: next[p].instance.mountIndex == Some(p)
    ensures forall k | 0 <= k < |prev| && prev[k].instance !in dom' :: prev[k].instance.mountIndex == None
    ensures forall p | 0 <= p < |next| :: next[p].instance in Instances(prev) || fresh(next[p].instance)
  {
    hide *;
    var replaced;
    next, replaced := MatchChildren(prev, wanted);
    var missing := FindMissing(prev, wanted);
    var gone := replaced + missing;
    ReadyToUpdate(prev, wanted, next, gone);
    var updates := QueueUpdates(prev, next, gone);
    dom' := ProcessUpdates(dom, updates);
  }

  /** What the matching guarantees to the queueing and to the document. */
  lemma ReadyToUpdate(prev: seq<Child>, wanted: seq<Wanted>, next: seq<Child>, gone: seq<Child>)
    requires DistinctNames(prev) && Distinct(Instances(prev)) && DistinctWanted(wanted)
    requires AllFit(prev, wanted, next) && Distinct(Instances(next))
    requires gone == Replaced(prev, wanted) + Missing(prev, wanted)
    ensures DistinctNames(next) && Matches(Instances(prev), Instances(next), MatchedOf(prev, next))
    ensures var us := Plan(Instances(prev), Instances(next), MatchedOf(prev, next), 0, 0) + Removals(Instances(gone));
            CanApplyAll(Instances(prev), us) && ApplyAll(Instances(prev), us) == Instances(next)
    ensures |next| == |wanted|
    ensures forall p | 0 <= p < |next| && Reused(prev, wanted[p]).Some? :: next[p].instance in Instances(prev)
    ensures forall g | 0 <= g < |gone| :: gone[g].instance in Instances(prev)
    ensures forall p, g | 0 <= p < |next| && 0 <= g < |gone| :: next[p].instance != gone[g].instance
    ensures forall k | 0 <= k < |prev| && prev[k].instance !in Instances(next) ::
              exists g | 0 <= g < |gone| :: gone[g].instance == prev[k].instance
  {
    hide CanApplyAll, ApplyAll, Plan, Removals, FindChild, Matches, Reused, MatchedOf, Distinct, Replaced, Missing;
    GoneIs(prev, wanted);
    FitsMatch(prev, wanted, next);
    GoneIsTheRest(prev, wanted, next);
    Reconciles(Instances(prev), Instances(next), MatchedOf(prev, next), Instances(gone));
    FittingFrame(prev, wanted, next);
    forall p, g | 0 <= p < |next| && 0 <= g < |gone| ensures next[p].instance != gone[g].instance {
      GoneInstance(prev, wanted, next, gone[g].instance);
      assert Instances(gone)[g] in Instances(gone) && Instances(next)[p] in Instances(next);
    }
    forall k | 0 <= k < |prev| && prev[k].instance !in Instances(next)
      ensures exists g | 0 <= g < |gone| :: gone[g].instance == prev[k].instance
    {
      GoneInstance(prev, wanted, next, prev[k].instance);
      assert Instances(prev)[k] in Instances(prev);
      var g :| 0 <= g < |gone| && Instances(gone)[g] == prev[k].instance;
      assert gone[g].instance == prev[k].instance;
    }
  }

  /** The children have the names and elements wanted, in order. */
  predicate Shows(rendered: seq<Child>, wanted: seq<Wanted>) {
    && |rendered| == |wanted|
    && forall k | 0 <= k < |wanted| :: rendered[k].name == wanted[k].name && rendered[k].element == wanted[k].element
  }

  lemma FittingShows(prev: seq<Child>, wanted: seq<Wanted>, next: seq<Child>)
    requires AllFit(prev, wanted, next)
    ensures Shows(next, wanted)
  {
    hide Reused, FindChild;
    assert forall k | 0 <= k < |wanted| :: Fits(prev, wanted[k], next[k]);
  }

  /**
   A child keeps its instance exactly when both elements are absent, both are texts, or both are
   nodes of the same tag and key.
   */
  ghost predicate KeepsInstances(prev: seq<Child>, next: seq<Child>) {
    forall i, j | 0 <= i < |prev| && 0 <= j < |next| && prev[i].name == next[j].name ::
      prev[i].instance == next[j].instance
      <==> || (prev[i].element == NoElement && next[j].element == NoElement)
           || (prev[i].element.TextElement? && next[j].element.TextElement?)
           || (&& prev[i].element.NodeElement? && next[j].element.NodeElement?
               && prev[i].element.tag == next[j].element.tag && prev[i].element.key == next[j].element.key)
  }

  /** The child of the same name has the same instance. */
  ghost predicate KeptFrom(prev: seq<Child>, c: Child) {
    exists i | 0 <= i < |prev| :: prev[i].name == c.name && prev[i].instance == c.instance
  }

  lemma FittingKeeps(prev: seq<Child>, wanted: seq<Wanted>, next: seq<Child>)
    requires AllFit(prev, wanted, next) && DistinctNames(prev)
    ensures KeepsInstances(prev, next)
    ensures forall j | 0 <= j < |next| && next[j].instance in Instances(prev) :: KeptFrom(prev, next[j])
  {
    hide FindChild;
    forall i, j | 0 <= i < |prev| && 0 <= j < |next| && prev[i].name == next[j].name
      ensures Fits(prev, wanted[j], next[j]) && FindChild(prev, next[j].name) == Some(i)
      ensures prev[i].instance in Instances(prev)
    {
      FindChildAt(prev, i);
      assert Instances(prev)[i] == prev[i].instance;
    }
    forall j | 0 <= j < |next| && next[j].instance in Instances(prev) ensures KeptFrom(prev, next[j]) {
      assert Fits(prev, wanted[j], next[j]);
      var k := Reused(prev, wanted[j]).value;
      assert prev[k].name == next[j].name && prev[k].instance == next[j].instance;
    }
  }

  /** Wanting what is shown changes nothing. */
  lemma ShowingKeeps(prev: seq<Child>, wanted: seq<Wanted>, next: seq<Child>)
    requires AllFit(prev, wanted, next) && DistinctNames(prev) && Shows(prev, wanted)
    ensures next == prev
  {
    hide FindChild;
    forall j | 0 <= j < |next| ensures next[j] == prev[j] {
      assert Fits(prev, wanted[j], next[j]);
      FindChildAt(prev, j);
    }
  }

  class Parent {
    var rendered: seq<Child>
    var dom: seq<Component>

    /** The document shows the children in order, and every mount index is a position. */
    ghost predicate Valid()
      reads this, Instances(rendered)
    {
      && DistinctNames(rendered) && Distinct(Instances(rendered))
      && dom == Instances(rendered)
      && forall i | 0 <= i < |rendered| :: rendered[i].instance.mountIndex == Some(i)
    }

    constructor ()
      ensures Valid() && rendered == []
    {
      rendered, dom := [], [];
    }

    /**
     `updateChildren`: afterwards the document shows exactly the wanted children in order; an
     old instance is kept exactly where the kind of element stays the same, every other one is
     new, and the children that go lose their mount index.
     */
    method UpdateChildren(wanted: seq<Wanted>)
      requires Valid() && DistinctWanted(wanted)
      modifies this, Instances(rendered)
      ensures Valid()
      ensures Shows(rendered, wanted) && AllFit(old(rendered), wanted, rendered)
      ensures KeepsInstances(old(rendered), rendered)
      ensures forall c | c in rendered :: KeptFrom(old(rendered), c) || fresh(c.instance)
      ensures Shows(old(rendered), wanted) ==> rendered == old(rendered) && dom == old(dom)
      ensures forall c | c in old(rendered) :: c.instance !in dom ==> c.instance.mountIndex == None
      ensures forall c | c in rendered :: c.instance in old(dom) || fresh(c.instance)
    {
      hide AllFit, Shows, KeepsInstances, KeptFrom, DistinctWanted;
      var next, dom' := Reconcile(rendered, dom, wanted);
      FittingShows(rendered, wanted, next);
      FittingKeeps(rendered, wanted, next);
      if Shows(rendered, wanted) {
        ShowingKeeps(rendered, wanted, next);
      }
      rendered, dom := next, dom';
    }

    /** Any sequence of updates ends with the document showing the last list, in order. */
    method UpdateRepeatedly(batches: seq<seq<Wanted>>)
      requires Valid() && forall b | b in batches :: DistinctWanted(b)
      modifies this, Instances(rendered)
      ensures Valid()
      ensures batches == [] ==> rendered == old(rendered)
      ensures batches != [] ==>
                Shows(rendered, batches[|batches| - 1]) && dom == Instances(rendered)
    {
      hide FindChild, Reused, DistinctWanted, AllFit, Shows, Distinct, DistinctNames;
      for i := 0 to |batches|
        invariant Valid()
        invariant i == 0 ==> rendered == old(rendered)
        invariant forall c | c in rendered :: c.instance in old(Instances(rendered)) || fresh(c.instance)
        invariant i > 0 ==> Shows(rendered, batches[i - 1])
      {
        assert batches[i] in batches;
        assert forall k | 0 <= k < |rendered| :: rendered[k] in rendered && Instances(rendered)[k] == rendered[k].instance;
        ghost var before := rendered;
        UpdateChildren(batches[i]);
        FittingShows(before, batches[i], rendered);
      }
    }
  }

  lemma GoneIs(prev: seq<Child>, wanted: seq<Wanted>)
    ensures Gone(prev, wanted) == Replaced(prev, wanted) + Missing(prev, wanted)
  {
  }

  lemma FittingFrame(prev: seq<Child>, wanted: seq<Wanted>, next: seq<Child>)
    requires AllFit(prev, wanted, next) && DistinctWanted(wanted)
    ensures DistinctNames(next)
    ensures forall p | 0 <= p < |next| && Reused(prev, wanted[p]).Some? :: next[p].instance in Instances(prev)
  {
    hide FindChild;
    forall p | 0 <= p < |next| && Reused(prev, wanted[p]).Some? ensures next[p].instance in Instances(prev) {
      assert Fits(prev, wanted[p], next[p]);
      assert Instances(prev)[Reused(prev, wanted[p]).value] == next[p].instance;
    }
    assert forall p | 0 <= p < |next| :: Fits(prev, wanted[p], next[p]);
  }
}
