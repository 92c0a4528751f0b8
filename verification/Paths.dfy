/**
 POSIX path resolution: `normalizeArray`, `resolve` and `relative`
 (defaults/JSXTransformer.js:2045-2108, 2150-2189).
 */
module Paths {

  // ----- normalizeArray -----

  function Dots(n: nat): (s: seq<string>)
    ensures |s| == n && forall i | 0 <= i < n :: s[i] == ".."
  {
    if n == 0 then [] else [".."] + Dots(n - 1)
  }

  datatype Scan = Scan(kept: seq<string>, up: nat)

  /** The right-to-left pass: what is kept, and how many steps up are left over. */
  function RightToLeft(parts: seq<string>, up: nat): Scan {
    if parts == [] then Scan([], up) else
    var front, last := parts[..|parts| - 1], parts[|parts| - 1];
    if last == "." then RightToLeft(front, up)
    else if last == ".." then RightToLeft(front, up + 1)
    else if up > 0 then RightToLeft(front, up - 1)
    else
      var r := RightToLeft(front, 0);
      Scan(r.kept + [last], r.up)
  }

  function Normalize(parts: seq<string>, allowAboveRoot: bool): seq<string> {
    var r := RightToLeft(parts, 0);
    if allowAboveRoot then Dots(r.up) + r.kept else r.kept
  }

  /** `normalizeArray`, which splices the array in place. */
  method NormalizeArray(input: seq<string>, allowAboveRoot: bool) returns (parts: seq<string>)
    ensures parts == Normalize(input, allowAboveRoot)
  {
    parts := input;
    var up, i := 0, |parts|;
    ghost var kept: seq<string> := [];
    assert input[..|input|] == input && input + [] == input;
    while i > 0
      invariant 0 <= i <= |input| && parts == input[..i] + kept
      invariant var rest := RightToLeft(input[..i], up);
                RightToLeft(input, 0) == Scan(rest.kept + kept, rest.up)
    {
      i := i - 1;
      var last := parts[i];
      assert input[..i + 1][..i] == input[..i];
      if last == "." {
        parts := parts[..i] + parts[i + 1..];
      } else if last == ".." {
        parts := parts[..i] + parts[i + 1..];
        up := up + 1;
      } else if up > 0 {
        parts := parts[..i] + parts[i + 1..];
        up := up - 1;
      } else {
        kept := [last] + kept;
      }
    }
    assert RightToLeft(input, 0) == Scan(parts, up);
    if allowAboveRoot {
      ghost var all := up;
      while up > 0
        invariant 0 <= up <= all && parts == Dots(all - up) + kept
      {
        parts := [".."] + parts;
        up := up - 1;
      }
    }
  }

  // ----- The left-to-right reading -----

  predicate IsName(s: string) {
    s != "." && s != ".."
  }

  ghost predicate AllNames(parts: seq<string>) {
    forall i | 0 <= i < |parts| :: IsName(parts[i])
  }

  /** One segment on a stack of directories. */
  function Enter(stack: seq<string>, part: string, allowAboveRoot: bool): seq<string> {
    if part == "." then stack
    else if part == ".." then
      if stack != [] && stack[|stack| - 1] != ".." then stack[..|stack| - 1]
      else if allowAboveRoot then stack + [".."] else stack
    else stack + [part]
  }

  function Walk(stack: seq<string>, parts: seq<string>, allowAboveRoot: bool): seq<string>
    decreases |parts|
  {
    if parts == [] then stack
    else Enter(Walk(stack, parts[..|parts| - 1], allowAboveRoot), parts[|parts| - 1], allowAboveRoot)
  }

  lemma {:induction false} WalkConcat(stack: seq<string>, a: seq<string>, b: seq<string>, allow: bool)
    ensures Walk(stack, a + b, allow) == Walk(Walk(stack, a, allow), b, allow)
    decreases |b|
  {
    if b == [] {
      assert a + b == a;
    } else {
      var n := |b| - 1;
      assert (a + b)[..|a| + n] == a + b[..n];
      WalkConcat(stack, a, b[..n], allow);
    }
  }

  function Least(a: nat, b: nat): nat { if a < b then a else b }

  /** A pass that already owes `up` steps takes that many names off what a fresh pass keeps. */
  lemma {:induction false} OwedSteps(parts: seq<string>, up: nat)
    ensures var all, r := RightToLeft(parts, 0), RightToLeft(parts, up);
            && r.kept == all.kept[..|all.kept| - Least(up, |all.kept|)]
            && r.up == all.up + up - Least(up, |all.kept|)
    decreases |parts|
  {
    if parts != [] {
      var front, last := parts[..|parts| - 1], parts[|parts| - 1];
      if last == "." {
        OwedSteps(front, up);
      } else if last == ".." {
        OwedSteps(front, 1);
        OwedSteps(front, up + 1);
      } else {
        var base, all := RightToLeft(front, 0), RightToLeft(parts, 0);
        assert all == Scan(base.kept + [last], base.up);
        if up > 0 {
          OwedSteps(front, up - 1);
          var n := |base.kept| - Least(up - 1, |base.kept|);
          assert all.kept[..n] == base.kept[..n];
        } else {
          assert all.kept[..|all.kept|] == all.kept;
        }
      }
    }
  }

  /** The stack after a walk is what the right-to-left pass keeps, under its steps up. */
  lemma {:induction false} WalkIsScan(parts: seq<string>)
    ensures var all := RightToLeft(parts, 0);
            && AllNames(all.kept)
            && Walk([], parts, true) == Dots(all.up) + all.kept
            && Walk([], parts, false) == all.kept
    decreases |parts|
  {
    hide Walk;
    if parts == [] {
      assert Dots(0) + [] == [];
      EmptyWalk();
    } else {
      var front, last := parts[..|parts| - 1], parts[|parts| - 1];
      WalkLast([], parts, true);
      WalkLast([], parts, false);
      WalkIsScan(front);
      var base := RightToLeft(front, 0);
      if last == ".." {
        OwedSteps(front, 1);
        StepUp(base.up, base.kept);
      } else if last != "." {
        assert Dots(base.up) + base.kept + [last] == Dots(base.up) + (base.kept + [last]);
      }
    }
  }

  lemma EmptyWalk()
    ensures forall allow :: Walk([], [], allow) == []
  {
  }

  lemma WalkLast(stack: seq<string>, parts: seq<string>, allow: bool)
    requires parts != []
    ensures Walk(stack, parts, allow) == Enter(Walk(stack, parts[..|parts| - 1], allow), parts[|parts| - 1], allow)
  {
  }

  lemma StepUp(up: nat, names: seq<string>)
    requires AllNames(names)
    ensures Enter(Dots(up) + names, "..", true)
            == if names == [] then Dots(up + 1) + [] else Dots(up) + names[..|names| - 1]
    ensures Enter(names, "..", false) == if names == [] then [] else names[..|names| - 1]
  {
    var stack := Dots(up) + names;
    if names == [] {
      DotsGrow(up);
      assert stack == Dots(up);
    } else {
      assert stack[|stack| - 1] == names[|names| - 1];
      assert stack[..|stack| - 1] == Dots(up) + names[..|names| - 1];
    }
  }

  lemma DotsGrow(n: nat)
    ensures Dots(n) + [".."] == Dots(n + 1)
  {
  }

  /** The in-place right-to-left pass is a left-to-right walk over a stack, for every list. */
  lemma NormalizeIsWalk(parts: seq<string>, allowAboveRoot: bool)
    ensures Normalize(parts, allowAboveRoot) == Walk([], parts, allowAboveRoot)
  {
    WalkIsScan(parts);
  }

  /** The result is a leading run of `..` (none below the root) followed by names. */
  lemma NormalForm(parts: seq<string>, allowAboveRoot: bool)
    ensures var r := RightToLeft(parts, 0);
            && AllNames(r.kept)
            && Normalize(parts, allowAboveRoot) == (if allowAboveRoot then Dots(r.up) else []) + r.kept
  {
    WalkIsScan(parts);
    assert [] + RightToLeft(parts, 0).kept == RightToLeft(parts, 0).kept;
  }

  lemma {:induction false} WalkNames(stack: seq<string>, names: seq<string>, allow: bool)
    requires AllNames(names)
    ensures Walk(stack, names, allow) == stack + names
    decreases |names|
  {
    if names != [] {
      WalkNames(stack, names[..|names| - 1], allow);
    }
  }

  lemma {:induction false} WalkDotsFromRoot(n: nat)
    ensures Walk([], Dots(n), true) == Dots(n)
  {
    if n > 0 {
      DotsGrow(n - 1);
      assert Dots(n)[..n - 1] == Dots(n - 1);
      WalkDotsFromRoot(n - 1);
    }
  }

  lemma NormalizeIsIdempotent(parts: seq<string>, allowAboveRoot: bool)
    ensures Normalize(Normalize(parts, allowAboveRoot), allowAboveRoot) == Normalize(parts, allowAboveRoot)
  {
    NormalForm(parts, allowAboveRoot);
    var r := RightToLeft(parts, 0);
    var n := Normalize(parts, allowAboveRoot);
    NormalizeIsWalk(n, allowAboveRoot);
    var dots := if allowAboveRoot then Dots(r.up) else [];
    WalkConcat([], dots, r.kept, allowAboveRoot);
    WalkDotsFromRoot(r.up);
    WalkNames(dots, r.kept, allowAboveRoot);
    EmptyWalk();
  }

  /** Steps up take names off the stack. */
  lemma {:induction false} WalkDotsDown(names: seq<string>, n: nat)
    requires AllNames(names) && n <= |names|
    ensures Walk(names, Dots(n), false) == names[..|names| - n]
  {
    if n > 0 {
      DotsGrow(n - 1);
      assert Dots(n)[..n - 1] == Dots(n - 1);
      WalkDotsDown(names, n - 1);
    }
  }
}
