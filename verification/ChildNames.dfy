/**
 The names given to nested children (defaults/react-with-addons.js:16, module 151) and the
 escaping of keys in them (defaults/react-with-addons.js:12, module 23).
 */
module ChildNames {
  import opened Collections
  import opened Segments

  // ----- Keys -----

  function EscapeText(s: string): string {
    if s == "" then ""
    else (if s[0] == '=' then "=0" else if s[0] == ':' then "=2" else [s[0]]) + EscapeText(s[1..])
  }

  function Escape(key: string): string {
    "$" + EscapeText(key)
  }

  function UnescapeText(s: string): string {
    if s == "" then ""
    else if |s| >= 2 && s[0] == '=' && s[1] == '0' then "=" + UnescapeText(s[2..])
    else if |s| >= 2 && s[0] == '=' && s[1] == '2' then ":" + UnescapeText(s[2..])
    else [s[0]] + UnescapeText(s[1..])
  }

  /** The prefix is `.$` or one character. */
  function Unescape(name: string): string {
    if |name| >= 2 && name[0] == '.' && name[1] == '$' then UnescapeText(name[2..])
    else if name == "" then "" else UnescapeText(name[1..])
  }

  lemma {:induction false} UnescapeTextInverts(s: string)
    ensures UnescapeText(EscapeText(s)) == s
    ensures ':' !in EscapeText(s)
  {
    if s != "" {
      var rest := EscapeText(s[1..]);
      UnescapeTextInverts(s[1..]);
      assert s == [s[0]] + s[1..];
      if s[0] == '=' || s[0] == ':' {
        assert EscapeText(s)[2..] == rest;
      } else {
        assert EscapeText(s)[1..] == rest;
      }
    }
  }

  /** Unescaping undoes escaping, and an escaped key holds no separator. */
  lemma UnescapeInverts(key: string)
    ensures Unescape(Escape(key)) == key && Unescape("." + Escape(key)) == key
    ensures ':' !in Escape(key)
  {
    UnescapeTextInverts(key);
    assert Escape(key)[1..] == EscapeText(key) && ("." + Escape(key))[2..] == EscapeText(key);
  }

  /** Escaping goes character by character and changes only the two marks. */
  lemma {:induction false} EscapeConcat(s: string, t: string)
    ensures EscapeText(s + t) == EscapeText(s) + EscapeText(t)
  {
    if s == "" {
      assert s + t == t;
    } else {
      assert (s + t)[0] == s[0] && (s + t)[1..] == s[1..] + t;
      EscapeConcat(s[1..], t);
    }
  }

  lemma EscapeOne(c: char)
    ensures EscapeText([c]) == if c == '=' then "=0" else if c == ':' then "=2" else [c]
    ensures Escape([c]) == "$" + EscapeText([c])
  {
    assert [c][1..] == "";
  }

  // ----- Positions in base 36 -----

  function Digit36(d: nat): char
    requires d < 36
  {
    if d < 10 then '0' + d as char else 'a' + (d - 10) as char
  }

  function ToBase36(n: nat): string {
    if n < 36 then [Digit36(n)] else ToBase36(n / 36) + [Digit36(n % 36)]
  }

  lemma {:induction false} Base36HasNoMarks(n: nat)
    ensures ':' !in ToBase36(n) && '$' !in ToBase36(n) && ToBase36(n) != ""
  {
    if n >= 36 {
      Base36HasNoMarks(n / 36);
    }
  }

  lemma Digit36Injective(a: nat, b: nat)
    requires a < 36 && b < 36 && Digit36(a) == Digit36(b)
    ensures a == b
  {
  }

  lemma {:induction false} Base36Injective(m: nat, n: nat)
    requires ToBase36(m) == ToBase36(n)
    ensures m == n
  {
    hide Digit36;
    var s, t := ToBase36(m), ToBase36(n);
    Base36HasNoMarks(m / 36);
    Base36HasNoMarks(n / 36);
    assert s[|s| - 1] == Digit36(m % 36) && t[|t| - 1] == Digit36(n % 36);
    Digit36Injective(m % 36, n % 36);
    if m >= 36 {
      assert n >= 36;
      assert s[..|s| - 1] == ToBase36(m / 36) && t[..|t| - 1] == ToBase36(n / 36);
      Base36Injective(m / 36, n / 36);
    }
  }

  function FromDigit36(c: char): nat {
    if '0' <= c <= '9' then c as int - '0' as int
    else if 'a' <= c <= 'z' then c as int - 'a' as int + 10
    else 0
  }

  /** The number a string of digits and letters denotes in base 36. */
  function FromBase36(s: string): nat {
    if s == "" then 0 else FromBase36(s[..|s| - 1]) * 36 + FromDigit36(s[|s| - 1])
  }

  /** Reading the digits gives the position, and there is no leading zero. */
  lemma {:induction false} Base36Reads(n: nat)
    ensures FromBase36(ToBase36(n)) == n
    ensures ToBase36(n) != "" && (n > 0 ==> ToBase36(n)[0] != '0')
    ensures forall c | c in ToBase36(n) :: '0' <= c <= '9' || 'a' <= c <= 'z'
  {
    var s := ToBase36(n);
    if n >= 36 {
      Base36Reads(n / 36);
      assert s[..|s| - 1] == ToBase36(n / 36);
    } else {
      assert s[..0] == "" && s == [Digit36(n)];
    }
  }

  // ----- Trees of children -----

  /** A child, a list (or keyless iterable) of children, or the entries of a map of children. */
  datatype Tree =
    | Leaf(key: Option<string>)
    | List(children: seq<Tree>)
    | Entries(keys: seq<string>, values: seq<Tree>)

  predicate WellFormed(t: Tree) {
    match t
    case Leaf(_) => true
    case List(children) => forall i | 0 <= i < |children| :: WellFormed(children[i])
    case Entries(keys, values) => |keys| == |values| && forall i | 0 <= i < |values| :: WellFormed(values[i])
  }

  /** The component of a child's name: its escaped key, or else its position. */
  function Component(t: Tree, position: nat): string {
    if t.Leaf? && t.key.Some? then Escape(t.key.value) else ToBase36(position)
  }

  function Extend(name: string, component: string): string {
    (if name == "" then "." else name + ":") + component
  }

  /** The names passed to the callback, in order, for the tree reached under `name`. */
  function Names(t: Tree, name: string): seq<string>
    requires WellFormed(t)
    decreases t
  {
    match t
    case Leaf(_) => [if name == "" then "." + Component(t, 0) else name]
    case List(_) => ListNames(t, name, 0)
    case Entries(_, _) => EntryNames(t, name, 0)
  }

  function ListNames(t: Tree, name: string, i: nat): seq<string>
    requires t.List? && WellFormed(t) && i <= |t.children|
    decreases t, |t.children| - i
  {
    if i == |t.children| then []
    else Names(t.children[i], Extend(name, Component(t.children[i], i))) + ListNames(t, name, i + 1)
  }

  function EntryNames(t: Tree, name: string, i: nat): seq<string>
    requires t.Entries? && WellFormed(t) && i <= |t.values|
    decreases t, |t.values| - i
  {
    if i == |t.values| then []
    else
      Names(t.values[i], Extend(name, Escape(t.keys[i])) + ":" + Component(t.values[i], 0)) + EntryNames(t, name, i + 1)
  }

  /** Siblings have distinct keys, at every depth. */
  ghost predicate DistinctKeys(t: Tree) {
    match t
    case Leaf(_) => true
    case List(children) =>
      && (forall i | 0 <= i < |children| :: DistinctKeys(children[i]))
      && (forall i, j | 0 <= i < j < |children| && children[i].Leaf? && children[j].Leaf? && children[i].key.Some? ::
            children[i].key != children[j].key)
    case Entries(keys, values) =>
      && (forall i | 0 <= i < |values| :: DistinctKeys(values[i]))
      && (forall i, j | 0 <= i < j < |keys| :: keys[i] != keys[j])
  }

  // ----- Names as paths -----

  /** The paths of the leaves below a tree. */
  function Paths(t: Tree): seq<seq<string>>
    requires WellFormed(t)
    decreases t
  {
    match t
    case Leaf(_) => [[]]
    case List(_) => ListPaths(t, 0)
    case Entries(_, _) => EntryPaths(t, 0)
  }

  function Under(prefix: seq<string>, paths: seq<seq<string>>): (r: seq<seq<string>>)
    ensures |r| == |paths| && forall i | 0 <= i < |paths| :: r[i] == prefix + paths[i]
  {
    seq(|paths|, i requires 0 <= i < |paths| => prefix + paths[i])
  }

  function ListPaths(t: Tree, i: nat): seq<seq<string>>
    requires t.List? && WellFormed(t) && i <= |t.children|
    decreases t, |t.children| - i
  {
    if i == |t.children| then []
    else Under([Component(t.children[i], i)], Paths(t.children[i])) + ListPaths(t, i + 1)
  }

  function EntryPaths(t: Tree, i: nat): seq<seq<string>>
    requires t.Entries? && WellFormed(t) && i <= |t.values|
    decreases t, |t.values| - i
  {
    if i == |t.values| then []
    else Under([Escape(t.keys[i]), Component(t.values[i], 0)], Paths(t.values[i])) + EntryPaths(t, i + 1)
  }

  function NameOf(path: seq<string>): string {
    if path == [] then "" else "." + Join(path, ':')
  }

  function NamesOf(prefix: seq<string>, paths: seq<seq<string>>): (r: seq<string>)
    ensures |r| == |paths| && forall i | 0 <= i < |paths| :: r[i] == NameOf(prefix + paths[i])
  {
    seq(|paths|, i requires 0 <= i < |paths| => NameOf(prefix + paths[i]))
  }

  lemma {:induction false} JoinSnoc(path: seq<string>, c: string)
    requires path != []
    ensures Join(path + [c], ':') == Join(path, ':') + ":" + c
  {
    if |path| == 1 {
      assert path + [c] == [path[0], c];
      assert [path[0], c][1..] == [c];
    } else {
      JoinSnoc(path[1..], c);
      assert (path + [c])[1..] == path[1..] + [c];
      assert path[0] + ":" + (Join(path[1..], ':') + ":" + c) == path[0] + ":" + Join(path[1..], ':') + ":" + c;
    }
  }

  lemma ExtendIsSnoc(path: seq<string>, c: string)
    ensures Extend(NameOf(path), c) == NameOf(path + [c])
    ensures path != [] ==> NameOf(path) + ":" + c == NameOf(path + [c])
  {
    if path != [] {
      JoinSnoc(path, c);
      assert "." + Join(path, ':') + ":" + c == "." + (Join(path, ':') + ":" + c);
    } else {
      assert path + [c] == [c];
    }
  }

  lemma NamesOfUnder(prefix: seq<string>, more: seq<string>, paths: seq<seq<string>>, rest: seq<seq<string>>)
    ensures NamesOf(prefix, Under(more, paths) + rest) == NamesOf(prefix + more, paths) + NamesOf(prefix, rest)
  {
    var a, b := NamesOf(prefix, Under(more, paths) + rest), NamesOf(prefix + more, paths) + NamesOf(prefix, rest);
    var all := Under(more, paths) + rest;
    hide NameOf;
    forall i | 0 <= i < |a| ensures a[i] == b[i] {
      if i < |paths| {
        assert all[i] == more + paths[i];
        assert prefix + (more + paths[i]) == prefix + more + paths[i];
      } else {
        assert all[i] == rest[i - |paths|];
      }
    }
  }

  /** Below the root, the names are the paths joined. */
  lemma {:induction false} NamesArePaths(t: Tree, prefix: seq<string>)
    requires WellFormed(t) && (t.Leaf? ==> prefix != [])
    ensures Names(t, NameOf(prefix)) == NamesOf(prefix, Paths(t))
    decreases t
  {
    match t {
      case Leaf(_) => assert prefix + [] == prefix;
      case List(_) => ListNamesArePaths(t, prefix, 0);
      case Entries(_, _) => EntryNamesArePaths(t, prefix, 0);
    }
  }

  lemma {:induction false} ListNamesArePaths(t: Tree, prefix: seq<string>, i: nat)
    requires t.List? && WellFormed(t) && i <= |t.children|
    ensures ListNames(t, NameOf(prefix), i) == NamesOf(prefix, ListPaths(t, i))
    decreases t, |t.children| - i
  {
    hide NameOf, Extend, Component;
    if i < |t.children| {
      var c := Component(t.children[i], i);
      ExtendIsSnoc(prefix, c);
      NamesArePaths(t.children[i], prefix + [c]);
      ListNamesArePaths(t, prefix, i + 1);
      NamesOfUnder(prefix, [c], Paths(t.children[i]), ListPaths(t, i + 1));
    }
  }

  lemma {:induction false} EntryNamesArePaths(t: Tree, prefix: seq<string>, i: nat)
    requires t.Entries? && WellFormed(t) && i <= |t.values|
    ensures EntryNames(t, NameOf(prefix), i) == NamesOf(prefix, EntryPaths(t, i))
    decreases t, |t.values| - i
  {
    hide NameOf, Extend, Component, Escape;
    if i < |t.values| {
      var k, c := Escape(t.keys[i]), Component(t.values[i], 0);
      ExtendIsSnoc(prefix, k);
      ExtendIsSnoc(prefix + [k], c);
      assert prefix + [k] + [c] == prefix + [k, c];
      NamesArePaths(t.values[i], prefix + [k, c]);
      EntryNamesArePaths(t, prefix, i + 1);
      NamesOfUnder(prefix, [k, c], Paths(t.values[i]), EntryPaths(t, i + 1));
    }
  }

  /** What a name says of one child: its own key behind `$`, or else its place among its siblings. */
  function Mark(child: Tree, place: string): string {
    if child.Leaf? && child.key.Some? then "$" + EscapeText(child.key.value) else place
  }

  lemma ComponentIsMark(t: Tree, position: nat)
    ensures Component(t, position) == Mark(t, ToBase36(position))
    ensures Component(t, 0) == Mark(t, "0")
  {
  }

  /** A child that stands alone. */
  lemma LoneName(t: Tree)
    requires t.Leaf?
    ensures Names(t, "") == ["." + Mark(t, "0")]
  {
    ComponentIsMark(t, 0);
  }

  lemma LeafName(t: Tree, name: string)
    requires t.Leaf? && name != ""
    ensures Names(t, name) == [name]
  {
  }

  /** The children of a list without lists in it. */
  lemma {:induction false} FlatListNames(t: Tree, i: nat)
    requires t.List? && WellFormed(t) && i <= |t.children| && forall k | 0 <= k < |t.children| :: t.children[k].Leaf?
    ensures var names := ListNames(t, "", i);
            && |names| == |t.children| - i
            && forall k | i <= k < |t.children| :: names[k - i] == "." + Mark(t.children[k], ToBase36(k))
    decreases |t.children| - i
  {
    hide Component, Mark, Names;
    if i < |t.children| {
      FlatListNames(t, i + 1);
      ComponentIsMark(t.children[i], i);
      LeafName(t.children[i], "." + Component(t.children[i], i));
    }
  }

  /** The children of a map without lists in it: the key they are filed under, then their own mark. */
  lemma {:induction false} FlatEntryNames(t: Tree, i: nat)
    requires t.Entries? && WellFormed(t) && i <= |t.values| && forall k | 0 <= k < |t.values| :: t.values[k].Leaf?
    ensures var names := EntryNames(t, "", i);
            && |names| == |t.values| - i
            && forall k | i <= k < |t.values| ::
                 names[k - i] == "." + ("$" + EscapeText(t.keys[k])) + ":" + Mark(t.values[k], "0")
    decreases |t.values| - i
  {
    hide Component, Mark, Names;
    if i < |t.values| {
      FlatEntryNames(t, i + 1);
      ComponentIsMark(t.values[i], 0);
      LeafName(t.values[i], "." + Escape(t.keys[i]) + ":" + Component(t.values[i], 0));
    }
  }

  // ----- Distinctness -----

  lemma ComponentIsClean(t: Tree, i: nat)
    ensures ':' !in Component(t, i)
  {
    Base36HasNoMarks(i);
    if t.Leaf? && t.key.Some? {
      UnescapeInverts(t.key.value);
    }
  }

  lemma ComponentsDiffer(a: Tree, i: nat, b: Tree, j: nat)
    requires i != j
    requires a.Leaf? && b.Leaf? && a.key.Some? ==> a.key != b.key
    ensures Component(a, i) != Component(b, j)
  {
    Base36HasNoMarks(i);
    Base36HasNoMarks(j);
    assert a.Leaf? && a.key.Some? ==> '$' in Component(a, i) by {
      assert a.Leaf? && a.key.Some? ==> Component(a, i)[0] == '$';
    }
    assert b.Leaf? && b.key.Some? ==> '$' in Component(b, j) by {
      assert b.Leaf? && b.key.Some? ==> Component(b, j)[0] == '$';
    }
    if Component(a, i) == Component(b, j) {
      if a.Leaf? && a.key.Some? {
        UnescapeInverts(a.key.value);
        UnescapeInverts(b.key.value);
      } else {
        Base36Injective(i, j);
      }
    }
  }

  ghost predicate AllClean(paths: seq<seq<string>>) {
    forall p | 0 <= p < |paths| :: FreeOf(paths[p], ':')
  }

  /** Paths are distinct and free of separators; those of a list start with a sibling's component. */
  lemma {:induction false} PathsAreDistinct(t: Tree)
    requires WellFormed(t) && DistinctKeys(t)
    ensures Distinct(Paths(t)) && AllClean(Paths(t))
    ensures !t.Leaf? ==> forall p | 0 <= p < |Paths(t)| :: Paths(t)[p] != []
    decreases t
  {
    match t {
      case Leaf(_) =>
      case List(children) =>
        ListPathsDistinct(t, 0);
      case Entries(_, _) =>
        EntryPathsDistinct(t, 0);
    }
  }

  lemma {:induction false} ListPathsDistinct(t: Tree, i: nat)
    requires t.List? && WellFormed(t) && DistinctKeys(t) && i <= |t.children|
    ensures var ps := ListPaths(t, i);
            && Distinct(ps) && AllClean(ps)
            && forall p | 0 <= p < |ps| ::
                 ps[p] != [] && exists j | i <= j < |t.children| :: ps[p][0] == Component(t.children[j], j)
    decreases t, |t.children| - i
  {
    hide Component;
    if i < |t.children| {
      var c, here, rest := Component(t.children[i], i), Paths(t.children[i]), ListPaths(t, i + 1);
      PathsAreDistinct(t.children[i]);
      ListPathsDistinct(t, i + 1);
      ComponentIsClean(t.children[i], i);
      UnderDistinct([c], here, rest);
      forall p | 0 <= p < |rest| ensures rest[p][0] != c {
        var j :| i + 1 <= j < |t.children| && rest[p][0] == Component(t.children[j], j);
        ComponentsDiffer(t.children[i], i, t.children[j], j);
      }
      var ps := ListPaths(t, i);
      forall p | 0 <= p < |ps|
        ensures ps[p] != [] && exists j | i <= j < |t.children| :: ps[p][0] == Component(t.children[j], j)
      {
        if p < |here| {
          assert ps[p] == [c] + here[p] && ps[p][0] == c;
        } else {
          assert ps[p] == rest[p - |here|];
          var j :| i + 1 <= j < |t.children| && rest[p - |here|][0] == Component(t.children[j], j);
        }
      }
    }
  }

  /** Putting a prefix before some paths and others behind them keeps all apart. */
  lemma UnderDistinct(prefix: seq<string>, here: seq<seq<string>>, rest: seq<seq<string>>)
    requires prefix != [] && FreeOf(prefix, ':')
    requires Distinct(here) && AllClean(here) && Distinct(rest) && AllClean(rest)
    ensures AllClean(Under(prefix, here) + rest)
    ensures (forall p | 0 <= p < |rest| :: rest[p] != [] && rest[p][0] != prefix[0]) ==> Distinct(Under(prefix, here) + rest)
  {
    var all := Under(prefix, here) + rest;
    forall p | 0 <= p < |all| ensures FreeOf(all[p], ':') {
      if p < |here| {
        assert all[p] == prefix + here[p];
        assert FreeOf(here[p], ':');
      } else {
        assert all[p] == rest[p - |here|];
      }
    }
    if forall p | 0 <= p < |rest| :: rest[p] != [] && rest[p][0] != prefix[0] {
      forall p, q | 0 <= p < q < |all| ensures all[p] != all[q] {
        if q < |here| {
          assert all[p] == prefix + here[p] && all[q] == prefix + here[q];
          assert here[p] == all[p][|prefix|..] && here[q] == all[q][|prefix|..];
        } else if p < |here| {
          assert all[p][0] == prefix[0] && all[q] == rest[q - |here|];
        } else {
          assert all[p] == rest[p - |here|] && all[q] == rest[q - |here|];
        }
      }
    }
  }

  lemma {:induction false} EntryPathsDistinct(t: Tree, i: nat)
    requires t.Entries? && WellFormed(t) && DistinctKeys(t) && i <= |t.values|
    ensures var ps := EntryPaths(t, i);
            && Distinct(ps) && AllClean(ps)
            && forall p | 0 <= p < |ps| :: ps[p] != [] && exists j | i <= j < |t.keys| :: ps[p][0] == Escape(t.keys[j])
    decreases t, |t.values| - i
  {
    hide Component, Escape;
    if i < |t.values| {
      var k, c := Escape(t.keys[i]), Component(t.values[i], 0);
      var here, rest := Paths(t.values[i]), EntryPaths(t, i + 1);
      PathsAreDistinct(t.values[i]);
      EntryPathsDistinct(t, i + 1);
      ComponentIsClean(t.values[i], 0);
      UnescapeInverts(t.keys[i]);
      UnderDistinct([k, c], here, rest);
      forall p | 0 <= p < |rest| ensures rest[p][0] != k {
        var j :| i + 1 <= j < |t.keys| && rest[p][0] == Escape(t.keys[j]);
        UnescapeInverts(t.keys[j]);
      }
      var ps := EntryPaths(t, i);
      forall p | 0 <= p < |ps| ensures ps[p] != [] && exists j | i <= j < |t.keys| :: ps[p][0] == Escape(t.keys[j]) {
        if p < |here| {
          assert ps[p] == [k, c] + here[p] && ps[p][0] == k;
        } else {
          assert ps[p] == rest[p - |here|];
          var j :| i + 1 <= j < |t.keys| && rest[p - |here|][0] == Escape(t.keys[j]);
        }
      }
    }
  }

  /** A name splits back into its path. */
  lemma NameDeterminesPath(p: seq<string>, q: seq<string>)
    requires FreeOf(p, ':') && FreeOf(q, ':') && p != [] && q != []
    requires NameOf(p) == NameOf(q)
    ensures p == q
  {
    SplitJoin(p, ':');
    SplitJoin(q, ':');
    assert NameOf(p)[1..] == Join(p, ':') && NameOf(q)[1..] == Join(q, ':');
  }

  lemma DistinctPathsDistinctNames(ps: seq<seq<string>>)
    requires Distinct(ps) && AllClean(ps) && forall p | 0 <= p < |ps| :: ps[p] != []
    ensures Distinct(NamesOf([], ps))
  {
    hide NameOf, FreeOf;
    var names := NamesOf([], ps);
    forall i, j | 0 <= i < j < |names| ensures names[i] != names[j] {
      assert [] + ps[i] == ps[i] && [] + ps[j] == ps[j];
      if NameOf(ps[i]) == NameOf(ps[j]) {
        NameDeterminesPath(ps[i], ps[j]);
      }
    }
  }

  /** With distinct sibling keys, no two children get the same name. */
  lemma NamesAreDistinct(t: Tree)
    requires WellFormed(t) && DistinctKeys(t)
    ensures Distinct(Names(t, ""))
  {
    if !t.Leaf? {
      NamesArePaths(t, []);
      PathsAreDistinct(t);
      DistinctPathsDistinctNames(Paths(t));
    }
  }
}
