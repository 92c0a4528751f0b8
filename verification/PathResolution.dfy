/**
 `resolve` and `relative` on path strings (defaults/JSXTransformer.js:2081-2108, 2150-2189).
 */
module PathResolution {
  import opened Collections
  import opened Paths
  import opened Segments

  function NonEmpty(parts: seq<string>): seq<string> {
    if parts == [] then []
    else (if parts[0] != "" then [parts[0]] else []) + NonEmpty(parts[1..])
  }

  /** The non-empty segments of a path. */
  function Parts(s: string): seq<string> {
    NonEmpty(Split(s, '/'))
  }

  lemma NonEmptyCons(part: string, rest: seq<string>)
    ensures NonEmpty([part] + rest) == if part != "" then [part] + NonEmpty(rest) else NonEmpty(rest)
  {
    assert ([part] + rest)[0] == part && ([part] + rest)[1..] == rest;
  }

  lemma {:induction false} NonEmptyConcat(a: seq<string>, b: seq<string>)
    ensures NonEmpty(a + b) == NonEmpty(a) + NonEmpty(b)
  {
    if a == [] {
      assert a + b == b;
    } else {
      hide NonEmpty;
      var part, tail := a[0], a[1..];
      FirstAndRest(a, b);
      NonEmptyCons(part, tail);
      NonEmptyCons(part, tail + b);
      NonEmptyConcat(tail, b);
      Associates([part], NonEmpty(tail), NonEmpty(b));
    }
  }

  lemma PartsConcat(a: string, b: string)
    ensures Parts(a + "/" + b) == Parts(a) + Parts(b)
  {
    SplitConcat(a, b, '/');
    NonEmptyConcat(Split(a, '/'), Split(b, '/'));
  }

  predicate IsSegment(s: string) {
    s != "" && '/' !in s
  }

  ghost predicate AllSegments(parts: seq<string>) {
    forall i | 0 <= i < |parts| :: IsSegment(parts[i])
  }

  lemma {:induction false} NonEmptyKeeps(parts: seq<string>)
    ensures FreeOf(parts, '/') ==> AllSegments(NonEmpty(parts))
    ensures AllSegments(parts) ==> NonEmpty(parts) == parts
  {
    if parts != [] {
      NonEmptyKeeps(parts[1..]);
    }
  }

  lemma PartsAreSegments(s: string)
    ensures AllSegments(Parts(s))
  {
    SplitHasNoSeparator(s, '/');
    NonEmptyKeeps(Split(s, '/'));
  }

  lemma PartsOfJoin(parts: seq<string>)
    requires AllSegments(parts)
    ensures Split(Join(parts, '/'), '/') == if parts == [] then [""] else parts
    ensures Parts(Join(parts, '/')) == parts
  {
    SplitJoin(parts, '/');
    NonEmptyKeeps(parts);
  }

  // ----- resolve -----

  predicate IsAbsolute(path: string) {
    path != "" && path[0] == '/'
  }

  /** The arguments are prepended from the last to the first until the path is absolute. */
  function Gather(paths: seq<string>, acc: string, cwd: string): (string, bool) {
    if paths == [] then
      if cwd == "" then (acc, false) else (cwd + "/" + acc, IsAbsolute(cwd))
    else
      var front, path := paths[..|paths| - 1], paths[|paths| - 1];
      if path == "" then Gather(front, acc, cwd)
      else if IsAbsolute(path) then (path + "/" + acc, true)
      else Gather(front, path + "/" + acc, cwd)
  }

  function Render(parts: seq<string>, absolute: bool): string {
    var s := (if absolute then "/" else "") + Join(parts, '/');
    if s == "" then "." else s
  }

  function Resolve(paths: seq<string>, cwd: string): string {
    var (path, absolute) := Gather(paths, "", cwd);
    Render(Normalize(Parts(path), !absolute), absolute)
  }

  method ResolvePath(paths: seq<string>, cwd: string) returns (resolved: string)
    ensures resolved == Resolve(paths, cwd)
  {
    hide Parts, IsAbsolute;
    var path, absolute, i := "", false, |paths|;
    assert paths[..|paths|] == paths;
    while i >= 0 && !absolute
      invariant -1 <= i <= |paths|
      invariant if absolute || i < 0 then Gather(paths, "", cwd) == (path, absolute)
                else Gather(paths, "", cwd) == Gather(paths[..i], path, cwd)
      decreases i
    {
      i := i - 1;
      var p := if i >= 0 then paths[i] else cwd;
      if i >= 0 {
        assert paths[..i + 1][..i] == paths[..i];
      }
      if p == "" {
        continue;
      }
      path := p + "/" + path;
      absolute := IsAbsolute(p);
    }
    var parts := NormalizeArray(Parts(path), !absolute);
    resolved := (if absolute then "/" else "") + Join(parts, '/');
    if resolved == "" {
      resolved := ".";
    }
  }

  // ----- relative -----

  function FirstFull(a: seq<string>): (k: nat)
    ensures k <= |a|
  {
    if a == [] || a[0] != "" then 0 else 1 + FirstFull(a[1..])
  }

  function LastFull(a: seq<string>): (k: int)
    ensures -1 <= k < |a|
  {
    if a == [] then -1 else if a[|a| - 1] != "" then |a| - 1 else LastFull(a[..|a| - 1])
  }

  /** `trim`, with the length the original passes as an end. */
  function Trim(a: seq<string>): seq<string> {
    var start, end := FirstFull(a), LastFull(a);
    if start > end then []
    else if end - start + 1 <= start then []
    else a[start..end - start + 1]
  }

  function CommonPrefix(a: seq<string>, b: seq<string>): (k: nat)
    ensures k <= |a| && k <= |b| && a[..k] == b[..k]
    ensures k < |a| && k < |b| ==> a[k] != b[k]
  {
    if a == [] || b == [] || a[0] != b[0] then 0 else 1 + CommonPrefix(a[1..], b[1..])
  }

  function RelativeParts(from: seq<string>, to: seq<string>): seq<string> {
    var same := CommonPrefix(from, to);
    Dots(|from| - same) + to[same..]
  }

  function DropFirst(s: string): string {
    if s == "" then "" else s[1..]
  }

  function Relative(from: string, to: string, cwd: string): string {
    Join(RelativeParts(Trim(Split(DropFirst(Resolve([from], cwd)), '/')),
                       Trim(Split(DropFirst(Resolve([to], cwd)), '/'))), '/')
  }

  method RelativePath(from: string, to: string, cwd: string) returns (path: string)
    ensures path == Relative(from, to, cwd)
  {
    hide Resolve, Trim, Split, CommonPrefix, Join;
    var resolvedFrom := ResolvePath([from], cwd);
    var resolvedTo := ResolvePath([to], cwd);
    var fromParts, toParts := Trim(Split(DropFirst(resolvedFrom), '/')), Trim(Split(DropFirst(resolvedTo), '/'));
    var same := 0;
    while same < |fromParts| && same < |toParts| && fromParts[same] == toParts[same]
      invariant same <= |fromParts| && same <= |toParts| && fromParts[..same] == toParts[..same]
    {
      same := same + 1;
    }
    CommonPrefixIs(fromParts, toParts, same);
    var output: seq<string> := [];
    for i := same to |fromParts|
      invariant output == Dots(i - same)
    {
      DotsGrow(i - same);
      output := output + [".."];
    }
    output := output + toParts[same..];
    path := Join(output, '/');
  }

  lemma CommonPrefixIs(a: seq<string>, b: seq<string>, k: nat)
    requires k <= |a| && k <= |b| && a[..k] == b[..k]
    requires k < |a| && k < |b| ==> a[k] != b[k]
    ensures CommonPrefix(a, b) == k
  {
    hide CommonPrefix;
    var c := CommonPrefix(a, b);
    assert forall i | 0 <= i < k :: a[i] == a[..k][i] == b[..k][i] == b[i];
    assert forall i | 0 <= i < c :: a[i] == a[..c][i] == b[..c][i] == b[i];
  }

  // ----- The law -----

  /** The segments an absolute resolution arrives at. */
  function ResolvedParts(paths: seq<string>, cwd: string): seq<string> {
    Normalize(Parts(Gather(paths, "", cwd).0), false)
  }

  lemma GatherIsAbsolute(path: string, acc: string, cwd: string)
    requires IsAbsolute(cwd)
    ensures var (s, absolute) := Gather([path], acc, cwd);
            absolute && s == Gather([path], "", cwd).0 + acc
  {
    assert [path][..0] == [];
    if path != "" {
      assert path + "/" + "" + acc == path + "/" + acc;
      assert cwd + "/" + (path + "/" + "") + acc == cwd + "/" + (path + "/" + acc);
    } else {
      assert cwd + "/" + "" + acc == cwd + "/" + acc;
    }
  }

  lemma {:induction false} ResolveParts(path: string, cwd: string)
    requires IsAbsolute(cwd)
    ensures var parts := ResolvedParts([path], cwd);
            && Resolve([path], cwd) == "/" + Join(parts, '/')
            && AllSegments(parts) && AllNames(parts)
            && Trim(Split(DropFirst(Resolve([path], cwd)), '/')) == parts
  {
    hide Normalize, Split, Join, Parts, NonEmpty;
    GatherIsAbsolute(path, "", cwd);
    var s := Gather([path], "", cwd).0;
    var parts := ResolvedParts([path], cwd);
    assert s + "" == s;
    PartsAreSegments(s);
    NormalizeKeepsSegments(Parts(s));
    assert DropFirst("/" + Join(parts, '/')) == Join(parts, '/');
    PartsOfJoin(parts);
    TrimOfSegments(parts);
  }

  lemma {:induction false} KeptAreInput(parts: seq<string>, up: nat)
    ensures forall x | x in RightToLeft(parts, up).kept :: x in parts
    decreases |parts|
  {
    if parts != [] {
      var front, last := parts[..|parts| - 1], parts[|parts| - 1];
      assert parts == front + [last];
      KeptAreInput(front, if last == ".." then up + 1 else if last == "." || up == 0 then up else up - 1);
    }
  }

  lemma NormalizeKeepsSegments(parts: seq<string>)
    requires AllSegments(parts)
    ensures AllSegments(Normalize(parts, false)) && AllNames(Normalize(parts, false))
  {
    KeptAreInput(parts, 0);
    WalkIsScan(parts);
    var r := Normalize(parts, false);
    forall i | 0 <= i < |r| ensures IsSegment(r[i]) {
      assert r[i] in parts;
      var k :| 0 <= k < |parts| && parts[k] == r[i];
    }
  }

  lemma TrimOfSegments(parts: seq<string>)
    requires AllSegments(parts)
    ensures Trim(if parts == [] then [""] else parts) == parts
  {
    if parts == [] {
      assert [""][1..] == [] && [""][..0] == [];
      assert FirstFull([""]) == 1 && LastFull([""]) == -1;
    }
  }

  /** From one directory, the relative parts lead to the other. */
  lemma WalkRelative(from: seq<string>, to: seq<string>)
    requires AllNames(from) && AllNames(to)
    ensures Walk(from, RelativeParts(from, to), false) == to
  {
    hide Walk, CommonPrefix;
    var same := CommonPrefix(from, to);
    WalkConcat(from, Dots(|from| - same), to[same..], false);
    WalkDotsDown(from, |from| - same);
    WalkNames(from[..same], to[same..], false);
    assert from[..same] + to[same..] == to;
  }

  lemma RelativeIsSegments(from: seq<string>, to: seq<string>)
    requires AllSegments(to)
    ensures AllSegments(RelativeParts(from, to))
  {
    hide CommonPrefix;
    var same := CommonPrefix(from, to);
    var r := RelativeParts(from, to);
    forall i | 0 <= i < |r| ensures IsSegment(r[i]) {
      if i < |from| - same {
        assert r[i] == "..";
      } else {
        assert r[i] == to[same + (i - (|from| - same))];
      }
    }
  }

  lemma JoinIsRelative(parts: seq<string>)
    requires AllSegments(parts)
    ensures Join(parts, '/') == "" <==> parts == []
    ensures !IsAbsolute(Join(parts, '/'))
  {
    if parts != [] {
      assert parts[0][0] in parts[0];
      assert Join(parts, '/')[0] == parts[0][0];
    }
  }

  /** A relative path after another: their segments follow each other. */
  lemma GatherTwo(from: string, rel: string, cwd: string)
    requires IsAbsolute(cwd) && !IsAbsolute(rel)
    ensures Gather([from, rel], "", cwd).1
    ensures Parts(Gather([from, rel], "", cwd).0) == Parts(Gather([from], "", cwd).0) + Parts(rel)
  {
    hide Parts, IsAbsolute;
    assert [from, rel][..1] == [from];
    var s := Gather([from], "", cwd).0;
    if rel == "" {
      GatherIsAbsolute(from, "", cwd);
      assert s + "" == s;
      NoParts();
    } else {
      var tail := rel + "/" + "";
      GatherIsAbsolute(from, tail, cwd);
      BaseEndsWithSlash(from, cwd);
      var head := s[..|s| - 1];
      assert s + tail == head + "/" + tail;
      assert s == head + "/" + "";
      PartsConcat(head, tail);
      PartsConcat(rel, "");
      PartsConcat(head, "");
      NoParts();
    }
  }

  /** `resolve(from, relative(from, to))` is `resolve(to)`, for all paths. */
  lemma RelativeLeadsThere(from: string, to: string, cwd: string)
    requires IsAbsolute(cwd)
    ensures Resolve([from, Relative(from, to, cwd)], cwd) == Resolve([to], cwd)
  {
    hide Normalize, Join, Parts, Split, Trim, RelativeParts, IsAbsolute, AllSegments, AllNames, Walk, Gather;
    ResolveParts(from, cwd);
    ResolveParts(to, cwd);
    var f, t := ResolvedParts([from], cwd), ResolvedParts([to], cwd);
    var parts := RelativeParts(f, t);
    var rel := Join(parts, '/');
    RelativeIsSegments(f, t);
    PartsOfJoin(parts);
    JoinIsRelative(parts);
    GatherTwo(from, rel, cwd);
    GatherIsAbsolute(to, "", cwd);
    var base := Parts(Gather([from], "", cwd).0);
    NormalizeIsWalk(base, false);
    NormalizeIsWalk(base + parts, false);
    WalkConcat([], base, parts, false);
    WalkRelative(f, t);
  }

  lemma NoParts()
    ensures Parts("") == []
  {
  }

  lemma BaseEndsWithSlash(path: string, cwd: string)
    requires IsAbsolute(cwd)
    ensures var s := Gather([path], "", cwd).0;
            s != "" && s[|s| - 1] == '/'
  {
    assert [path][..0] == [];
  }

  // ----- What is resolved and how far it is -----

  /** Changing directory from argument to argument; an absolute one starts at the root. */
  function Follow(dir: seq<string>, paths: seq<string>): seq<string> {
    if paths == [] then dir
    else
      var path := paths[|paths| - 1];
      var base := if path != "" && path[0] == '/' then [] else Follow(dir, paths[..|paths| - 1]);
      Walk(base, Parts(path), false)
  }

  lemma {:induction false} GatherFollows(paths: seq<string>, acc: string, cwd: string)
    requires IsAbsolute(cwd)
    ensures Gather(paths, acc, cwd).1
    ensures Walk([], Parts(Gather(paths, acc, cwd).0), false)
            == Walk(Follow(Walk([], Parts(cwd), false), paths), Parts(acc), false)
    decreases |paths|
  {
    hide Parts, Walk;
    var dir := Walk([], Parts(cwd), false);
    if paths == [] {
      PartsConcat(cwd, acc);
      WalkConcat([], Parts(cwd), Parts(acc), false);
    } else {
      var front, path := paths[..|paths| - 1], paths[|paths| - 1];
      if path == "" {
        GatherFollows(front, acc, cwd);
        NoParts();
        WalkNothing(Follow(dir, front));
      } else {
        PartsConcat(path, acc);
        if IsAbsolute(path) {
          WalkConcat([], Parts(path), Parts(acc), false);
        } else {
          GatherFollows(front, path + "/" + acc, cwd);
          WalkConcat(Follow(dir, front), Parts(path), Parts(acc), false);
        }
      }
    }
  }

  lemma WalkNothing(stack: seq<string>)
    ensures Walk(stack, [], false) == stack
  {
  }

  /** `resolve` arrives where changing directory from argument to argument does. */
  lemma ResolveFollows(paths: seq<string>, cwd: string)
    requires IsAbsolute(cwd)
    ensures Resolve(paths, cwd) == "/" + Join(Follow(Walk([], Parts(cwd), false), paths), '/')
  {
    hide Parts, Walk, Normalize, Follow, Gather;
    GatherFollows(paths, "", cwd);
    NormalizeIsWalk(Parts(Gather(paths, "", cwd).0), false);
    NoParts();
    WalkNothing(Follow(Walk([], Parts(cwd), false), paths));
  }

  /** Steps between two directories: up to the common one and down again. */
  function Distance(a: seq<string>, b: seq<string>): nat {
    |a| - CommonPrefix(a, b) + |b| - CommonPrefix(a, b)
  }

  lemma {:induction false} CommonPrefixIsGreatest(a: seq<string>, b: seq<string>, k: nat)
    requires k <= |a| && k <= |b| && a[..k] == b[..k]
    ensures k <= CommonPrefix(a, b)
  {
    hide CommonPrefix;
    var c := CommonPrefix(a, b);
    if c < k {
      assert a[c] == a[..k][c] == b[..k][c] == b[c];
    }
  }

  /** One step changes the distance by one at most. */
  lemma StepIsNear(dir: seq<string>, part: string, to: seq<string>)
    ensures Distance(dir, to) <= 1 + Distance(Enter(dir, part, false), to)
  {
    hide CommonPrefix;
    var next := Enter(dir, part, false);
    var c, n := CommonPrefix(next, to), |dir|;
    if n < |next| {
      assert next == dir + [part];
      var k := if c <= n then c else n;
      assert dir[..k] == next[..k] && next[..k] == next[..c][..k] && to[..k] == to[..c][..k];
      CommonPrefixIsGreatest(dir, to, k);
    } else {
      assert dir[..c] == next[..c];
      CommonPrefixIsGreatest(dir, to, c);
    }
  }

  lemma {:induction false} WalkIsFar(from: seq<string>, steps: seq<string>, to: seq<string>)
    ensures Distance(from, to) <= |steps| + Distance(Walk(from, steps, false), to)
    decreases |steps|
  {
    hide Distance, Walk;
    if steps == [] {
      WalkNothing(from);
    } else {
      var front := steps[..|steps| - 1];
      WalkLast(from, steps, false);
      WalkIsFar(from, front, to);
      StepIsNear(Walk(from, front, false), steps[|steps| - 1], to);
    }
  }

  /** No shorter list of steps leads to the same place. */
  lemma RelativeIsShortest(from: seq<string>, to: seq<string>, steps: seq<string>)
    requires Walk(from, steps, false) == to
    ensures |RelativeParts(from, to)| <= |steps|
  {
    hide Walk, CommonPrefix;
    WalkIsFar(from, steps, to);
    CommonPrefixIs(to, to, |to|);
  }

  /** `relative` joins the shortest steps between the two resolved paths. */
  lemma RelativeSteps(from: string, to: string, cwd: string)
    requires IsAbsolute(cwd)
    ensures var dir := Walk([], Parts(cwd), false);
            Relative(from, to, cwd) == Join(RelativeParts(Follow(dir, [from]), Follow(dir, [to])), '/')
  {
    hide Parts, Walk, Normalize, Gather, Follow, Resolve, Trim, Split, RelativeParts, Join;
    SameParts(from, cwd);
    SameParts(to, cwd);
    ResolveParts(from, cwd);
    ResolveParts(to, cwd);
  }

  lemma SameParts(path: string, cwd: string)
    requires IsAbsolute(cwd)
    ensures ResolvedParts([path], cwd) == Follow(Walk([], Parts(cwd), false), [path])
  {
    hide Parts, Walk, Normalize, Gather, Follow;
    GatherFollows([path], "", cwd);
    NormalizeIsWalk(Parts(Gather([path], "", cwd).0), false);
    NoParts();
    WalkNothing(Follow(Walk([], Parts(cwd), false), [path]));
  }
}
