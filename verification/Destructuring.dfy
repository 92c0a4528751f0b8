/**
 Compilation of destructuring variable declarations to plain assignments
 (defaults/JSXTransformer.js:14178-14278, 14840-14876).
 */
module Destructuring {
  import opened Collections

  datatype Key = Named(name: string) | Literal(text: string)

  datatype Pattern = Pattern(isObject: bool, items: seq<Item>)
  datatype Item = Hole | Rest(name: string) | Field(key: Key, target: Target)
  datatype Target = Identifier(name: string) | Nested(pattern: Pattern)

  datatype Access = Property(key: Key) | Element(position: nat)

  /** Elements of an array pattern are read by position, properties by their key. */
  function Accessor(p: Pattern, idx: nat): Access
    requires idx < |p.items| && p.items[idx].Field?
  {
    if p.isObject then Property(p.items[idx].key) else Element(idx)
  }

  // ----- The generated code -----

  datatype Var = Temp(index: nat) | User(name: string)

  /** The expressions meant: a property or element, a slice, or a copy without some properties. */
  datatype Source =
    | Get(temp: nat, access: Access)
    | Slice(temp: nat, from: nat)
    | Omit(temp: nat, excluded: seq<string>)

  /** The expressions printed; a copy names the properties to leave out in an object literal. */
  datatype Text = Plain(source: Source) | RestCall(temp: nat, exclusion: seq<Token>)
  datatype Token = Name(text: string) | One | Separator

  datatype Assign = Assign(target: Var, source: Source)
  datatype Lexeme = Code(target: Var, text: Text) | Comma

  /** `property.key.name`, which a literal does not have. */
  function KeyName(key: Key): Option<string> {
    if key.Named? then Some(key.name) else None
  }

  function PropertyNames(items: seq<Item>): seq<Option<string>> {
    if items == [] then []
    else (if items[0].Field? then [KeyName(items[0].key)] else []) + PropertyNames(items[1..])
  }

  /** `getPropertyNames` */
  method GetPropertyNames(items: seq<Item>) returns (names: seq<Option<string>>)
    ensures names == PropertyNames(items)
  {
    names := [];
    assert items[0..] == items;
    for i := 0 to |items|
      invariant PropertyNames(items) == names + PropertyNames(items[i..])
    {
      assert items[i..][1..] == items[i + 1..];
      if items[i].Field? {
        names := names + [KeyName(items[i].key)];
      }
    }
  }

  /** Joining prints an absent name as nothing. */
  function PrintedName(name: Option<string>): seq<Token> {
    match name
    case Some(text) => [Name(text)]
    case None => []
  }

  /** The names joined by `:1,`. */
  function JoinNames(names: seq<Option<string>>): seq<Token> {
    if names == [] then []
    else if |names| == 1 then PrintedName(names[0])
    else PrintedName(names[0]) + [One, Separator] + JoinNames(names[1..])
  }

  /** `renderRestExpression`: what stands between the braces of the exclusion object. */
  function Exclusion(names: seq<Option<string>>): seq<Token> {
    if names == [] then [] else JoinNames(names) + [One]
  }

  function RestText(p: Pattern, idx: nat, temp: nat): Text {
    if p.isObject then RestCall(temp, Exclusion(PropertyNames(p.items))) else Plain(Slice(temp, idx))
  }

  function Join(components: seq<seq<Lexeme>>): seq<Lexeme> {
    if components == [] then []
    else if |components| == 1 then components[0]
    else components[0] + [Comma] + Join(components[1..])
  }

  /**
   The components for the items from `idx` on. `temp` holds the value being taken apart and
   `counter` is the last temporary in use; the counter afterwards is returned too.
   */
  function Components(p: Pattern, idx: nat, temp: nat, counter: nat): (r: (seq<seq<Lexeme>>, nat))
    requires idx <= |p.items|
    ensures counter <= r.1
    decreases p, |p.items| - idx
  {
    if idx == |p.items| then ([], counter) else
    match p.items[idx]
    case Hole => Components(p, idx + 1, temp, counter)
    case Rest(name) =>
      var rest := Components(p, idx + 1, temp, counter);
      ([[Code(User(name), RestText(p, idx, temp))]] + rest.0, rest.1)
    case Field(_, Identifier(name)) =>
      var rest := Components(p, idx + 1, temp, counter);
      ([[Code(User(name), Plain(Get(temp, Accessor(p, idx))))]] + rest.0, rest.1)
    case Field(_, Nested(q)) =>
      var t := counter + 1;
      var inner := Components(q, 0, t, t);
      var rest := Components(p, idx + 1, temp, inner.1);
      ([[Code(Temp(t), Plain(Get(temp, Accessor(p, idx)))), Comma] + Join(inner.0)] + rest.0, rest.1)
  }

  /** The code after `var $__i = init`: a comma and the components. */
  function Declaration(p: Pattern, temp: nat): seq<Lexeme> {
    [Comma] + Join(Components(p, 0, temp, temp).0)
  }

  lemma ComponentsAdvance(p: Pattern, idx: nat, temp: nat, counter: nat, done: seq<seq<Lexeme>>)
    requires idx < |p.items|
    ensures var here := Components(p, idx, temp, counter);
            match p.items[idx]
            case Hole => here == Components(p, idx + 1, temp, counter)
            case Rest(name) =>
              var rest := Components(p, idx + 1, temp, counter);
              here.1 == rest.1
              && done + here.0 == done + [[Code(User(name), RestText(p, idx, temp))]] + rest.0
            case Field(_, Identifier(name)) =>
              var rest := Components(p, idx + 1, temp, counter);
              here.1 == rest.1
              && done + here.0 == done + [[Code(User(name), Plain(Get(temp, Accessor(p, idx))))]] + rest.0
            case Field(_, Nested(q)) =>
              var inner := Components(q, 0, counter + 1, counter + 1);
              var rest := Components(p, idx + 1, temp, inner.1);
              var code := [Code(Temp(counter + 1), Plain(Get(temp, Accessor(p, idx)))), Comma] + Join(inner.0);
              here.1 == rest.1 && done + here.0 == done + [code] + rest.0
  {
    hide Join;
  }

  lemma NoMoreComponents(p: Pattern, temp: nat, counter: nat, done: seq<seq<Lexeme>>)
    ensures Components(p, |p.items|, temp, counter) == ([], counter)
    ensures done + Components(p, |p.items|, temp, counter).0 == done
  {
  }

  class LocalScope {
    var tempVarIndex: nat

    constructor ()
      ensures tempVarIndex == 0
    {
      tempVarIndex := 0;
    }

    /** `getDestructuredComponents` */
    method GetDestructuredComponents(p: Pattern) returns (code: seq<Lexeme>)
      modifies this
      ensures code == Join(Components(p, 0, old(tempVarIndex), old(tempVarIndex)).0)
      ensures tempVarIndex == Components(p, 0, old(tempVarIndex), old(tempVarIndex)).1
      decreases p
    {
      hide Components, Join;
      var tmpIndex := tempVarIndex;
      var components: seq<seq<Lexeme>> := [];
      ghost var all := Components(p, 0, tmpIndex, tmpIndex);
      for idx := 0 to |p.items|
        invariant all.0 == components + Components(p, idx, tmpIndex, tempVarIndex).0
        invariant all.1 == Components(p, idx, tmpIndex, tempVarIndex).1
      {
        ComponentsAdvance(p, idx, tmpIndex, tempVarIndex, components);
        match p.items[idx] {
          case Hole =>
          case Rest(name) =>
            var text := Plain(Slice(tmpIndex, idx));
            if p.isObject {
              var names := GetPropertyNames(p.items);
              text := RestCall(tmpIndex, Exclusion(names));
            }
            components := components + [[Code(User(name), text)]];
          case Field(_, Identifier(name)) =>
            components := components + [[Code(User(name), Plain(Get(tmpIndex, Accessor(p, idx))))]];
          case Field(_, Nested(q)) =>
            tempVarIndex := tempVarIndex + 1;
            var temp := tempVarIndex;
            var inner := GetDestructuredComponents(q);
            components := components + [[Code(Temp(temp), Plain(Get(tmpIndex, Accessor(p, idx)))), Comma] + inner];
        }
      }
      NoMoreComponents(p, tmpIndex, tempVarIndex, components);
      code := Join(components);
    }

    /** `visitStructuredVariable`, for an initialiser that allocates no temporary. */
    method VisitStructuredVariable(p: Pattern) returns (temp: nat, code: seq<Lexeme>)
      modifies this
      ensures temp == old(tempVarIndex) && code == Declaration(p, temp)
      ensures tempVarIndex == Components(p, 0, temp, temp).1 + 1
      ensures temp < tempVarIndex
      ensures forall a | a in Assigns(p, 0, temp, temp).0 && a.target.Temp? :: temp < a.target.index < tempVarIndex
    {
      temp := tempVarIndex;
      var components := GetDestructuredComponents(p);
      code := [Comma] + components;
      ComponentsReadBack(p, 0, temp, temp);
      TempsAreBelow(p, temp);
      tempVarIndex := tempVarIndex + 1;
    }
  }

  // ----- Reading the code back as a list of declarators -----

  /** The entries of an object literal `{a:1,b:1}`; none when a name is missing. */
  function Entries(exclusion: seq<Token>): Option<seq<string>> {
    if exclusion == [] then Some([])
    else if |exclusion| >= 2 && exclusion[0].Name? && exclusion[1].One? then
      if |exclusion| == 2 then Some([exclusion[0].text])
      else if exclusion[2].Separator? then
        match Entries(exclusion[3..])
        case Some(rest) => Some([exclusion[0].text] + rest)
        case None => None
      else None
    else None
  }

  function ReadText(text: Text): Option<Source> {
    match text
    case Plain(source) => Some(source)
    case RestCall(temp, exclusion) =>
      match Entries(exclusion)
      case Some(names) => Some(Omit(temp, names))
      case None => None
  }

  /**
   The assignments of `, a = .., b = ..`; none when two commas meet, one stands at the end or
   an expression is malformed.
   */
  function Declarators(code: seq<Lexeme>): Option<seq<Assign>> {
    if code == [] then Some([])
    else if |code| >= 2 && code[0].Comma? && code[1].Code? then
      match (ReadText(code[1].text), Declarators(code[2..]))
      case (Some(source), Some(rest)) => Some([Assign(code[1].target, source)] + rest)
      case _ => None
    else None
  }

  predicate AllNamed(items: seq<Item>) {
    forall i | 0 <= i < |items| && items[i].Field? :: items[i].key.Named?
  }

  /**
   Every pattern, at every depth, takes at least one item out, and no object pattern with a
   rest property has a literal key.
   */
  predicate Usable(p: Pattern) {
    && (exists i | 0 <= i < |p.items| :: !p.items[i].Hole?)
    && (p.isObject && (exists i | 0 <= i < |p.items| :: p.items[i].Rest?) ==> AllNamed(p.items))
    && (forall i | 0 <= i < |p.items| && p.items[i].Field? && p.items[i].target.Nested? ::
          Usable(p.items[i].target.pattern))
  }

  /** The names of the properties an object pattern takes out. */
  function TakenNames(items: seq<Item>): seq<string> {
    if items == [] then []
    else
      (match items[0]
       case Field(Named(name), _) => [name]
       case Field(Literal(text), _) => [text]
       case _ => [])
      + TakenNames(items[1..])
  }

  /** What a rest item is to take: the properties no item takes, or the elements from its place on. */
  function RestSource(p: Pattern, idx: nat, temp: nat): Source {
    if p.isObject then Omit(temp, TakenNames(p.items)) else Slice(temp, idx)
  }

  /** The assignments meant, without regard to commas. */
  function Assigns(p: Pattern, idx: nat, temp: nat, counter: nat): (r: (seq<Assign>, nat))
    requires idx <= |p.items|
    ensures counter <= r.1
    decreases p, |p.items| - idx
  {
    if idx == |p.items| then ([], counter) else
    match p.items[idx]
    case Hole => Assigns(p, idx + 1, temp, counter)
    case Rest(name) =>
      var rest := Assigns(p, idx + 1, temp, counter);
      ([Assign(User(name), RestSource(p, idx, temp))] + rest.0, rest.1)
    case Field(_, Identifier(name)) =>
      var rest := Assigns(p, idx + 1, temp, counter);
      ([Assign(User(name), Get(temp, Accessor(p, idx)))] + rest.0, rest.1)
    case Field(_, Nested(q)) =>
      var inner := Assigns(q, 0, counter + 1, counter + 1);
      var rest := Assigns(p, idx + 1, temp, inner.1);
      ([Assign(Temp(counter + 1), Get(temp, Accessor(p, idx)))] + inner.0 + rest.0, rest.1)
  }

  /** Each component with the comma before it. */
  function Flat(components: seq<seq<Lexeme>>): seq<Lexeme> {
    if components == [] then [] else [Comma] + components[0] + Flat(components[1..])
  }

  lemma {:induction false} CommaJoin(components: seq<seq<Lexeme>>)
    requires components != []
    ensures [Comma] + Join(components) == Flat(components)
  {
    if |components| == 1 {
      assert components[1..] == [];
    } else {
      CommaJoin(components[1..]);
      assert Join(components) == components[0] + ([Comma] + Join(components[1..]));
    }
  }

  function Append(x: Option<seq<Assign>>, y: Option<seq<Assign>>): Option<seq<Assign>> {
    if x.Some? && y.Some? then Some(x.value + y.value) else None
  }

  lemma {:induction false} DeclaratorsConcat(a: seq<Lexeme>, b: seq<Lexeme>)
    requires b != [] ==> b[0].Comma?
    ensures Declarators(a + b) == Append(Declarators(a), Declarators(b))
    decreases |a|
  {
    var c := a + b;
    if a == [] {
      assert c == b;
      assert Declarators(b).Some? ==> [] + Declarators(b).value == Declarators(b).value;
    } else if |a| >= 2 && a[0].Comma? && a[1].Code? {
      assert c[0] == a[0] && c[1] == a[1] && c[2..] == a[2..] + b;
      DeclaratorsConcat(a[2..], b);
      if ReadText(a[1].text).Some? && Declarators(a[2..]).Some? && Declarators(b).Some? {
        var first := [Assign(a[1].target, ReadText(a[1].text).value)];
        assert first + (Declarators(a[2..]).value + Declarators(b).value)
               == first + Declarators(a[2..]).value + Declarators(b).value;
      }
    } else {
      assert c[0] == a[0];
      assert |c| >= 2 && |a| == 1 ==> c[1] == b[0];
      assert |a| >= 2 ==> c[1] == a[1];
    }
  }

  /** The items from `idx` on give well-formed code. */
  predicate ItemsUsable(p: Pattern, idx: nat) {
    forall i | idx <= i < |p.items| ::
      && (p.isObject && p.items[i].Rest? ==> AllNamed(p.items))
      && (p.items[i].Field? && p.items[i].target.Nested? ==> Usable(p.items[i].target.pattern))
  }

  predicate TakesSomething(p: Pattern, idx: nat) {
    exists i | idx <= i < |p.items| :: !p.items[i].Hole?
  }

  lemma FlatStartsWithComma(components: seq<seq<Lexeme>>)
    ensures Flat(components) != [] ==> Flat(components)[0].Comma?
  {
  }

  lemma FlatCons(c: seq<Lexeme>, rest: seq<seq<Lexeme>>)
    ensures Declarators(Flat([c] + rest)) == Append(Declarators([Comma] + c), Declarators(Flat(rest)))
  {
    assert ([c] + rest)[1..] == rest;
    FlatStartsWithComma(rest);
    DeclaratorsConcat([Comma] + c, Flat(rest));
  }

  lemma SimpleComponent(target: Var, text: Text)
    ensures Declarators([Comma] + [Code(target, text)])
            == match ReadText(text) case Some(source) => Some([Assign(target, source)]) case None => None
  {
    assert ([Comma] + [Code(target, text)])[2..] == [];
    if ReadText(text).Some? {
      assert [Assign(target, ReadText(text).value)] + [] == [Assign(target, ReadText(text).value)];
    }
  }

  lemma NestedComponent(target: Var, source: Source, inner: seq<seq<Lexeme>>)
    ensures Declarators([Comma] + ([Code(target, Plain(source)), Comma] + Join(inner)))
            == if inner == [] then None else Append(Some([Assign(target, source)]), Declarators(Flat(inner)))
  {
    var code := [Comma] + ([Code(target, Plain(source)), Comma] + Join(inner));
    assert code[2..] == [Comma] + Join(inner);
    if inner == [] {
      assert code[2..] == [Comma];
    } else {
      CommaJoin(inner);
    }
  }

  // ----- Rest properties -----

  function Values(names: seq<Option<string>>): seq<string>
    requires None !in names
  {
    if names == [] then [] else [names[0].value] + Values(names[1..])
  }

  /** The exclusion object is well formed exactly when no name is missing. */
  lemma {:induction false} EntriesReadBack(names: seq<Option<string>>)
    ensures Entries(Exclusion(names)) == if None in names then None else Some(Values(names))
  {
    if names != [] {
      var tail := names[1..];
      assert None in names <==> names[0].None? || None in tail;
      ExclusionCons(names);
      EntriesReadBack(tail);
      if names[0].Some? {
        EntriesCons(names[0].value, Exclusion(tail));
      }
    }
  }

  lemma ExclusionCons(names: seq<Option<string>>)
    requires names != []
    ensures var text, rest := Exclusion(names), Exclusion(names[1..]);
            match names[0]
            case Some(name) => text == [Name(name), One] + if rest == [] then [] else [Separator] + rest
            case None => text != [] && text[0] == One
  {
    hide Exclusion;
    ExclusionUnfolds(names);
  }

  lemma ExclusionUnfolds(names: seq<Option<string>>)
    requires names != []
    ensures var rest := Exclusion(names[1..]);
            Exclusion(names) == PrintedName(names[0]) + [One] + if rest == [] then [] else [Separator] + rest
  {
    var first, tail := PrintedName(names[0]), names[1..];
    hide PrintedName, JoinNames;
    JoinNamesUnfolds(names);
    if tail == [] {
      assert first + [] == first && first + [One] + [] == first + [One];
    } else {
      LastEntryAssociates(first, JoinNames(tail));
    }
  }

  lemma LastEntryAssociates(first: seq<Token>, rest: seq<Token>)
    ensures first + ([One, Separator] + rest) + [One] == first + [One] + ([Separator] + (rest + [One]))
  {
  }

  lemma JoinNamesUnfolds(names: seq<Option<string>>)
    requires names != []
    ensures JoinNames(names)
            == PrintedName(names[0]) + if names[1..] == [] then [] else [One, Separator] + JoinNames(names[1..])
  {
    hide PrintedName;
    if |names| > 1 {
      assert JoinNames(names) == PrintedName(names[0]) + [One, Separator] + JoinNames(names[1..]);
    }
  }

  lemma EntriesCons(name: string, rest: seq<Token>)
    ensures Entries([Name(name), One] + if rest == [] then [] else [Separator] + rest)
            == match Entries(rest) case Some(names) => Some([name] + names) case None => None
  {
    if rest == [] {
      assert [Name(name), One] + [] == [Name(name), One] && [name] + [] == [name];
    } else {
      var text := [Name(name), One] + ([Separator] + rest);
      assert |text| > 2 && text[0] == Name(name) && text[1] == One && text[2] == Separator && text[3..] == rest;
    }
  }

  lemma {:induction false} NamesOfProperties(items: seq<Item>)
    ensures None in PropertyNames(items) <==> !AllNamed(items)
    ensures AllNamed(items) ==> Values(PropertyNames(items)) == TakenNames(items)
  {
    if items != [] {
      var tail := items[1..];
      NamesOfProperties(tail);
      assert forall i | 0 <= i < |tail| :: tail[i] == items[i + 1];
      assert AllNamed(items) <==> AllNamed(tail) && (items[0].Field? ==> items[0].key.Named?);
      if items[0].Field? {
        assert PropertyNames(items)[1..] == PropertyNames(tail);
        assert PropertyNames(items) == [KeyName(items[0].key)] + PropertyNames(tail);
      } else {
        assert PropertyNames(items) == PropertyNames(tail);
      }
    }
  }

  lemma RestReadsBack(p: Pattern, idx: nat, temp: nat)
    ensures ReadText(RestText(p, idx, temp))
            == if p.isObject && !AllNamed(p.items) then None else Some(RestSource(p, idx, temp))
  {
    EntriesReadBack(PropertyNames(p.items));
    NamesOfProperties(p.items);
  }

  lemma {:induction false} TakenNamesAre(items: seq<Item>, name: string)
    ensures name in TakenNames(items)
            <==> exists i | 0 <= i < |items| && items[i].Field? ::
                   items[i].key == Named(name) || items[i].key == Literal(name)
  {
    if items != [] {
      var tail := items[1..];
      TakenNamesAre(tail, name);
      assert forall i | 0 <= i < |tail| :: tail[i] == items[i + 1];
      assert forall i | 0 < i < |items| :: items[i] == tail[i - 1];
    }
  }

  /**
   The expression for a rest property is well formed if and only if the pattern has no literal
   key, and then it leaves out exactly the properties the pattern takes.
   */
  lemma RestLeavesOutWhatIsTaken(p: Pattern, idx: nat, temp: nat)
    requires p.isObject
    ensures var source := ReadText(RestText(p, idx, temp));
            && (source.Some? <==> AllNamed(p.items))
            && (source.Some? ==>
                  && source.value.Omit? && source.value.temp == temp
                  && forall name :: name in source.value.excluded
                       <==> exists i | 0 <= i < |p.items| && p.items[i].Field? :: p.items[i].key == Named(name))
  {
    RestReadsBack(p, idx, temp);
    if AllNamed(p.items) {
      forall name
        ensures name in TakenNames(p.items)
                <==> exists i | 0 <= i < |p.items| && p.items[i].Field? :: p.items[i].key == Named(name)
      {
        TakenNamesAre(p.items, name);
      }
    }
  }

  // ----- The declaration reads back -----

  /** The code reads back as the assignments exactly when the items are usable. */
  lemma {:induction false} ComponentsReadBack(p: Pattern, idx: nat, temp: nat, counter: nat)
    requires idx <= |p.items|
    ensures var code, meant := Components(p, idx, temp, counter), Assigns(p, idx, temp, counter);
            && code.1 == meant.1
            && (code.0 == [] <==> !TakesSomething(p, idx))
            && Declarators(Flat(code.0)) == if ItemsUsable(p, idx) then Some(meant.0) else None
    decreases p, |p.items| - idx
  {
    hide Join, Flat, Declarators, Usable;
    if idx == |p.items| {
      FlatOfNothing();
    } else {
      match p.items[idx] {
        case Hole =>
          ComponentsReadBack(p, idx + 1, temp, counter);
        case Rest(name) =>
          ComponentsReadBack(p, idx + 1, temp, counter);
          var text := RestText(p, idx, temp);
          SimpleComponent(User(name), text);
          RestReadsBack(p, idx, temp);
          FlatCons([Code(User(name), text)], Components(p, idx + 1, temp, counter).0);
          assert TakesSomething(p, idx);
        case Field(_, Identifier(name)) =>
          ComponentsReadBack(p, idx + 1, temp, counter);
          var text := Plain(Get(temp, Accessor(p, idx)));
          SimpleComponent(User(name), text);
          FlatCons([Code(User(name), text)], Components(p, idx + 1, temp, counter).0);
          assert TakesSomething(p, idx);
        case Field(_, Nested(q)) =>
          NestedReadBack(p, idx, temp, counter, q);
      }
    }
  }

  lemma {:induction false} NestedReadBack(p: Pattern, idx: nat, temp: nat, counter: nat, q: Pattern)
    requires idx < |p.items| && p.items[idx].Field? && p.items[idx].target == Nested(q)
    ensures var code, meant := Components(p, idx, temp, counter), Assigns(p, idx, temp, counter);
            && code.1 == meant.1
            && (code.0 == [] <==> !TakesSomething(p, idx))
            && Declarators(Flat(code.0)) == if ItemsUsable(p, idx) then Some(meant.0) else None
    decreases p, |p.items| - idx, 0
  {
    hide Join, Flat, Declarators, Usable;
    var t := counter + 1;
    ComponentsReadBack(q, 0, t, t);
    var inner, innerMeant := Components(q, 0, t, t), Assigns(q, 0, t, t);
    ComponentsReadBack(p, idx + 1, temp, inner.1);
    var rest := Components(p, idx + 1, temp, inner.1);
    var a := Assign(Temp(t), Get(temp, Accessor(p, idx)));
    NestedComponent(a.target, a.source, inner.0);
    FlatCons([Code(a.target, Plain(a.source)), Comma] + Join(inner.0), rest.0);
    UsableParts(q);
    assert TakesSomething(p, idx);
    if ItemsUsable(p, idx + 1) && Usable(q) {
      assert [a] + innerMeant.0 + Assigns(p, idx + 1, temp, inner.1).0 == Assigns(p, idx, temp, counter).0;
    }
    assert ItemsUsable(p, idx) <==> ItemsUsable(p, idx + 1) && Usable(q);
  }

  lemma UsableParts(p: Pattern)
    ensures Usable(p) <==> TakesSomething(p, 0) && ItemsUsable(p, 0)
  {
  }

  lemma FlatOfNothing()
    ensures Flat([]) == [] && Declarators([]) == Some([])
  {
  }

  /**
   The declaration is well-formed code if and only if the pattern takes something out at every
   depth and has no literal key beside a rest property; then it is the list of the assignments
   meant.
   */
  lemma DeclarationReadsBack(p: Pattern, temp: nat)
    ensures Declarators(Declaration(p, temp))
            == if Usable(p) then Some(Assigns(p, 0, temp, temp).0) else None
  {
    var code := Components(p, 0, temp, temp).0;
    ComponentsReadBack(p, 0, temp, temp);
    UsableParts(p);
    if code == [] {
      assert Declaration(p, temp) == [Comma];
    } else {
      CommaJoin(code);
    }
  }

  /** The smallest failing declaration: `var {a: {}} = e` leaves a comma at the end. */
  lemma EmptyNestedPatternBreaks()
    ensures var p := Pattern(true, [Field(Named("a"), Nested(Pattern(true, [])))]);
            Declarators(Declaration(p, 0)) == None
  {
    var empty := Pattern(true, []);
    var p := Pattern(true, [Field(Named("a"), Nested(empty))]);
    assert !Usable(empty);
    assert p.items[0].target.pattern == empty;
    DeclarationReadsBack(p, 0);
  }

  /** `var {'a': x, ...r} = e` prints the exclusion object `{:1}`. */
  lemma LiteralKeyWithRestBreaks()
    ensures var p := Pattern(true, [Field(Literal("a"), Identifier("x")), Rest("r")]);
            Exclusion(PropertyNames(p.items)) == [One] && Declarators(Declaration(p, 0)) == None
  {
    var p := Pattern(true, [Field(Literal("a"), Identifier("x")), Rest("r")]);
    assert PropertyNames(p.items[1..]) == [];
    assert p.items[1].Rest? && p.items[0].Field? && p.items[0].key.Literal?;
    DeclarationReadsBack(p, 0);
  }

  // ----- Running the code -----

  /** What the accessors do to values; nothing stands for an exception. */
  datatype Semantics<!V> = Semantics(
    get: (V, Access) -> Option<V>, slice: (V, nat) -> Option<V>, omit: (V, seq<string>) -> Option<V>)

  datatype Env<V> = Env(temps: map<nat, V>, users: map<string, V>)

  datatype Outcome<E> = Done(env: E) | Thrown(env: E)

  function Eval<V>(sem: Semantics<V>, s: Source, env: Env<V>): Option<V> {
    if s.temp !in env.temps then None
    else
      var v := env.temps[s.temp];
      match s
      case Get(_, access) => sem.get(v, access)
      case Slice(_, from) => sem.slice(v, from)
      case Omit(_, excluded) => sem.omit(v, excluded)
  }

  function Store<V>(env: Env<V>, target: Var, v: V): Env<V> {
    match target
    case Temp(index) => env.(temps := env.temps[index := v])
    case User(name) => env.(users := env.users[name := v])
  }

  function Run<V>(sem: Semantics<V>, code: seq<Assign>, env: Env<V>): Outcome<Env<V>> {
    if code == [] then Done(env)
    else
      match Eval(sem, code[0].source, env)
      case None => Thrown(env)
      case Some(v) => Run(sem, code[1..], Store(env, code[0].target, v))
  }

  // ----- What destructuring means -----

  datatype Step = By(access: Access) | FromPosition(from: nat) | Excluding(names: seq<string>)

  datatype Binding = Binding(name: string, path: seq<Step>)

  function Under(key: Access, bs: seq<Binding>): seq<Binding> {
    if bs == [] then [] else [Binding(bs[0].name, [By(key)] + bs[0].path)] + Under(key, bs[1..])
  }

  /**
   The identifiers of a pattern with their access paths, in order. A property is reached by its
   own key, an element by its position, holes counted; a rest takes what lies from its place on,
   or the properties that are not taken.
   */
  function Bindings(p: Pattern, idx: nat): seq<Binding>
    requires idx <= |p.items|
    decreases p, |p.items| - idx
  {
    if idx == |p.items| then [] else
    (match p.items[idx]
     case Hole => []
     case Rest(name) => [Binding(name, [if p.isObject then Excluding(TakenNames(p.items)) else FromPosition(idx)])]
     case Field(key, Identifier(name)) => [Binding(name, [By(if p.isObject then Property(key) else Element(idx))])]
     case Field(key, Nested(q)) => Under(if p.isObject then Property(key) else Element(idx), Bindings(q, 0)))
    + Bindings(p, idx + 1)
  }

  function Take<V>(sem: Semantics<V>, v: V, step: Step): Option<V> {
    match step
    case By(access) => sem.get(v, access)
    case FromPosition(from) => sem.slice(v, from)
    case Excluding(names) => sem.omit(v, names)
  }

  /** The value at an access path. */
  function Follow<V>(sem: Semantics<V>, v: V, path: seq<Step>): Option<V> {
    if path == [] then Some(v)
    else
      match Take(sem, v, path[0])
      case None => None
      case Some(x) => Follow(sem, x, path[1..])
  }

  /** Each identifier in turn gets the value at its path; the first bad access throws. */
  function Bind<V>(sem: Semantics<V>, v: V, bs: seq<Binding>, users: map<string, V>): Outcome<map<string, V>> {
    if bs == [] then Done(users)
    else
      match Follow(sem, v, bs[0].path)
      case None => Thrown(users)
      case Some(x) => Bind(sem, v, bs[1..], users[bs[0].name := x])
  }

  lemma {:induction false} RunConcat<V>(sem: Semantics<V>, a: seq<Assign>, b: seq<Assign>, env: Env<V>)
    ensures Run(sem, a + b, env)
            == match Run(sem, a, env) case Done(e) => Run(sem, b, e) case Thrown(e) => Thrown(e)
    decreases |a|
  {
    if a == [] {
      assert a + b == b;
    } else {
      assert (a + b)[0] == a[0] && (a + b)[1..] == a[1..] + b;
      var x := Eval(sem, a[0].source, env);
      if x.Some? {
        RunConcat(sem, a[1..], b, Store(env, a[0].target, x.value));
      }
    }
  }

  lemma {:induction false} BindConcat<V>(sem: Semantics<V>, v: V, a: seq<Binding>, b: seq<Binding>, users: map<string, V>)
    ensures Bind(sem, v, a + b, users)
            == match Bind(sem, v, a, users) case Done(u) => Bind(sem, v, b, u) case Thrown(u) => Thrown(u)
    decreases |a|
  {
    if a == [] {
      assert a + b == b;
    } else {
      assert (a + b)[0] == a[0] && (a + b)[1..] == a[1..] + b;
      var x := Follow(sem, v, a[0].path);
      if x.Some? {
        BindConcat(sem, v, a[1..], b, users[a[0].name := x.value]);
      }
    }
  }

  /** Binding under a key is binding in the value at that key. */
  lemma {:induction false} BindUnder<V>(sem: Semantics<V>, v: V, key: Access, bs: seq<Binding>, users: map<string, V>)
    ensures match sem.get(v, key)
            case Some(x) => Bind(sem, v, Under(key, bs), users) == Bind(sem, x, bs, users)
            case None => bs != [] ==> Bind(sem, v, Under(key, bs), users) == Thrown(users)
    decreases |bs|
  {
    if bs != [] {
      var path := [By(key)] + bs[0].path;
      assert path[0] == By(key) && path[1..] == bs[0].path;
      if sem.get(v, key).Some? {
        var x := Follow(sem, v, path);
        if x.Some? {
          BindUnder(sem, v, key, bs[1..], users[bs[0].name := x.value]);
        }
      }
    }
  }

  lemma {:induction false} BindingsOfUsable(p: Pattern, idx: nat)
    requires idx <= |p.items| && ItemsUsable(p, idx)
    ensures TakesSomething(p, idx) ==> Bindings(p, idx) != []
    decreases p, |p.items| - idx
  {
    if idx < |p.items| {
      BindingsOfUsable(p, idx + 1);
      match p.items[idx] {
        case Field(_, Nested(q)) =>
          UsableParts(q);
          BindingsOfUsable(q, 0);
        case _ =>
      }
    }
  }

  /** The run and the meaning end alike, with equal variables and untouched older temporaries. */
  ghost predicate Agrees<V>(before: Env<V>, run: Outcome<Env<V>>, meant: Outcome<map<string, V>>, counter: nat) {
    match (run, meant)
    case (Done(e), Done(u)) =>
      e.users == u && forall j | 0 <= j <= counter && j in before.temps :: j in e.temps && e.temps[j] == before.temps[j]
    case (Thrown(e), Thrown(u)) => e.users == u
    case _ => false
  }

  lemma {:induction false} RunMeans<V>(sem: Semantics<V>, p: Pattern, idx: nat, temp: nat, counter: nat, env: Env<V>)
    requires idx <= |p.items| && ItemsUsable(p, idx)
    requires temp <= counter && temp in env.temps
    ensures Agrees(env, Run(sem, Assigns(p, idx, temp, counter).0, env),
                   Bind(sem, env.temps[temp], Bindings(p, idx), env.users), counter)
    decreases p, |p.items| - idx
  {
    hide Usable;
    if idx < |p.items| {
      match p.items[idx] {
        case Hole =>
          RunMeans(sem, p, idx + 1, temp, counter, env);
          assert [] + Bindings(p, idx + 1) == Bindings(p, idx + 1);
        case Rest(name) =>
          SingleMeans(sem, p, idx, temp, counter, env, Assign(User(name), RestSource(p, idx, temp)),
                      Binding(name, [if p.isObject then Excluding(TakenNames(p.items)) else FromPosition(idx)]));
        case Field(_, Identifier(name)) =>
          SingleMeans(sem, p, idx, temp, counter, env, Assign(User(name), Get(temp, Accessor(p, idx))),
                      Binding(name, [By(Accessor(p, idx))]));
        case Field(_, Nested(q)) =>
          NestedMeans(sem, p, idx, temp, counter, env, q);
      }
    }
  }

  /** One identifier, then the rest of the items. */
  lemma {:induction false} SingleMeans<V>(sem: Semantics<V>, p: Pattern, idx: nat, temp: nat, counter: nat, env: Env<V>,
                                          a: Assign, b: Binding)
    requires idx < |p.items| && ItemsUsable(p, idx)
    requires temp <= counter && temp in env.temps
    requires a.target == User(b.name) && |b.path| == 1
    requires Eval(sem, a.source, env) == Take(sem, env.temps[temp], b.path[0])
    requires Assigns(p, idx, temp, counter).0 == [a] + Assigns(p, idx + 1, temp, counter).0
    requires Bindings(p, idx) == [b] + Bindings(p, idx + 1)
    ensures Agrees(env, Run(sem, Assigns(p, idx, temp, counter).0, env),
                   Bind(sem, env.temps[temp], Bindings(p, idx), env.users), counter)
    decreases p, |p.items| - idx, 0
  {
    var v := env.temps[temp];
    var tail, rest := Assigns(p, idx + 1, temp, counter).0, Bindings(p, idx + 1);
    assert ([a] + tail)[1..] == tail && ([b] + rest)[1..] == rest;
    assert Follow(sem, v, b.path) == Take(sem, v, b.path[0]) by {
      assert b.path[1..] == [];
    }
    var x := Eval(sem, a.source, env);
    if x.Some? {
      RunMeans(sem, p, idx + 1, temp, counter, Store(env, a.target, x.value));
    }
  }

  lemma {:induction false} NestedMeans<V>(sem: Semantics<V>, p: Pattern, idx: nat, temp: nat, counter: nat, env: Env<V>, q: Pattern)
    requires idx < |p.items| && ItemsUsable(p, idx) && p.items[idx].Field? && p.items[idx].target == Nested(q)
    requires temp <= counter && temp in env.temps
    ensures Agrees(env, Run(sem, Assigns(p, idx, temp, counter).0, env),
                   Bind(sem, env.temps[temp], Bindings(p, idx), env.users), counter)
    decreases p, |p.items| - idx, 0
  {
    hide Usable, Run, Bind;
    var v, key, t := env.temps[temp], Accessor(p, idx), counter + 1;
    var a := Assign(Temp(t), Get(temp, key));
    var inner := Assigns(q, 0, t, t);
    var rest := Assigns(p, idx + 1, temp, inner.1).0;
    var bs := Bindings(q, 0);
    UsableParts(q);
    BindingsOfUsable(q, 0);
    BindUnder(sem, v, key, bs, env.users);
    BindConcat(sem, v, Under(key, bs), Bindings(p, idx + 1), env.users);
    RunFirst(sem, a, inner.0 + rest, env);
    assert [a] + inner.0 + rest == [a] + (inner.0 + rest);
    var x := sem.get(v, key);
    if x.Some? {
      var env1 := Store(env, Temp(t), x.value);
      RunMeans(sem, q, 0, t, t, env1);
      RunConcat(sem, inner.0, rest, env1);
      var mid := Run(sem, inner.0, env1);
      if mid.Done? {
        RunMeans(sem, p, idx + 1, temp, inner.1, mid.env);
      }
    }
  }

  lemma RunFirst<V>(sem: Semantics<V>, a: Assign, rest: seq<Assign>, env: Env<V>)
    ensures Run(sem, [a] + rest, env)
            == match Eval(sem, a.source, env)
               case None => Thrown(env)
               case Some(v) => Run(sem, rest, Store(env, a.target, v))
  {
    assert ([a] + rest)[1..] == rest;
  }

  /**
   The code emitted for `var P = e` binds every identifier of P to the value at its access
   path in e's value, or throws where the access does, for every usable pattern, every value
   and every meaning of the accessors.
   */
  lemma DeclarationMeansDestructuring<V>(sem: Semantics<V>, p: Pattern, temp: nat, env: Env<V>)
    requires temp in env.temps
    ensures Declarators(Declaration(p, temp)).Some? <==> Usable(p)
    ensures Usable(p) ==>
              var run := Run(sem, Declarators(Declaration(p, temp)).value, env);
              var meant := Bind(sem, env.temps[temp], Bindings(p, 0), env.users);
              run.Done? == meant.Done? && run.env.users == meant.env
  {
    DeclarationReadsBack(p, temp);
    if Usable(p) {
      UsableParts(p);
      RunMeans(sem, p, 0, temp, temp, env);
    }
  }

  // ----- Temporaries -----

  function TempsOf(code: seq<Assign>): seq<nat> {
    if code == [] then []
    else (if code[0].target.Temp? then [code[0].target.index] else []) + TempsOf(code[1..])
  }

  function Interval(lo: nat, hi: nat): seq<nat>
    requires lo <= hi
    decreases hi - lo
  {
    if lo == hi then [] else [lo + 1] + Interval(lo + 1, hi)
  }

  lemma {:induction false} TempsConcat(a: seq<Assign>, b: seq<Assign>)
    ensures TempsOf(a + b) == TempsOf(a) + TempsOf(b)
  {
    if a == [] {
      assert a + b == b;
    } else {
      assert (a + b)[0] == a[0] && (a + b)[1..] == a[1..] + b;
      TempsConcat(a[1..], b);
      var here: seq<nat> := if a[0].target.Temp? then [a[0].target.index] else [];
      assert TempsOf(a) == here + TempsOf(a[1..]) && TempsOf(a + b) == here + TempsOf(a[1..] + b);
    }
  }

  lemma {:induction false} IntervalConcat(lo: nat, mid: nat, hi: nat)
    requires lo <= mid <= hi
    ensures Interval(lo, mid) + Interval(mid, hi) == Interval(lo, hi)
    decreases mid - lo
  {
    if lo < mid {
      IntervalConcat(lo + 1, mid, hi);
      assert [lo + 1] + Interval(lo + 1, mid) + Interval(mid, hi) == [lo + 1] + (Interval(lo + 1, mid) + Interval(mid, hi));
    } else {
      assert [] + Interval(mid, hi) == Interval(mid, hi);
    }
  }

  /** Every temporary is new: they are assigned once each, in increasing order, up to the counter. */
  lemma {:induction false} TempsAreFresh(p: Pattern, idx: nat, temp: nat, counter: nat)
    requires idx <= |p.items|
    ensures TempsOf(Assigns(p, idx, temp, counter).0) == Interval(counter, Assigns(p, idx, temp, counter).1)
    decreases p, |p.items| - idx
  {
    if idx < |p.items| {
      match p.items[idx] {
        case Hole => TempsAreFresh(p, idx + 1, temp, counter);
        case Rest(name) =>
          TempsAreFresh(p, idx + 1, temp, counter);
          TempsConcat([Assign(User(name), RestSource(p, idx, temp))], Assigns(p, idx + 1, temp, counter).0);
        case Field(_, Identifier(name)) =>
          TempsAreFresh(p, idx + 1, temp, counter);
          TempsConcat([Assign(User(name), Get(temp, Accessor(p, idx)))], Assigns(p, idx + 1, temp, counter).0);
        case Field(_, Nested(q)) =>
          var t := counter + 1;
          var inner := Assigns(q, 0, t, t);
          var rest := Assigns(p, idx + 1, temp, inner.1);
          var a := Assign(Temp(t), Get(temp, Accessor(p, idx)));
          TempsAreFresh(q, 0, t, t);
          TempsAreFresh(p, idx + 1, temp, inner.1);
          TempsConcat([a], inner.0);
          TempsConcat([a] + inner.0, rest.0);
          assert TempsOf([a]) == [t] by { assert [a][1..] == []; }
          assert [t] + Interval(t, inner.1) == Interval(counter, inner.1);
          IntervalConcat(counter, inner.1, rest.1);
      }
    }
  }

  lemma {:induction false} IntervalMembers(lo: nat, hi: nat)
    requires lo <= hi
    ensures forall x :: x in Interval(lo, hi) <==> lo < x <= hi
    decreases hi - lo
  {
    if lo < hi {
      IntervalMembers(lo + 1, hi);
    }
  }

  lemma {:induction false} TempsAreListed(code: seq<Assign>, a: Assign)
    requires a in code && a.target.Temp?
    ensures a.target.index in TempsOf(code)
  {
    if a != code[0] {
      TempsAreListed(code[1..], a);
    }
  }

  /** The temporaries of a declaration lie between the one that holds the value and the counter. */
  lemma TempsAreBelow(p: Pattern, temp: nat)
    ensures var code := Assigns(p, 0, temp, temp);
            forall a | a in code.0 && a.target.Temp? :: temp < a.target.index <= code.1
  {
    var code := Assigns(p, 0, temp, temp);
    TempsAreFresh(p, 0, temp, temp);
    IntervalMembers(temp, code.1);
    forall a | a in code.0 && a.target.Temp? ensures temp < a.target.index <= code.1 {
      TempsAreListed(code.0, a);
    }
  }
}
