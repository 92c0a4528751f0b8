/**
 Reading a written source map gives the mappings back, adjacent duplicates removed, exactly
 when every difference fits (defaults/JSXTransformer.js:10607-10683, 11166-11230).
 */
module SourceMapRoundTrip {
  import opened Collections
  import opened Vlq
  import opened SourceMap

  // ----- One mapping -----

  predicate OriginalFits(t: Tables, o: Original, p: Previous)
    requires o.source in t.sources && (o.name != "" ==> o.name in t.names)
  {
    && Fits(IndexOf(t.sources, o.source) - p.source)
    && Fits(o.line - 1 - p.originalLine)
    && Fits(o.column - p.originalColumn)
    && (o.name != "" ==> Fits(IndexOf(t.names, o.name) - p.name))
  }

  predicate FieldsFit(t: Tables, m: Mapping, p: Previous)
    requires ValidMapping(t, m)
  {
    && Fits(m.generatedColumn - p.generatedColumn)
    && (m.original.Some? ==> OriginalFits(t, m.original.value, p))
  }

  lemma FieldReads(v: int, rest: string)
    ensures DecodeVlq(Field(v) + rest, 0, 0) == Ok(Decoded(Wrap(v), rest))
    ensures Wrap(v) == v <==> Fits(v)
  {
    DecodeInvertsEncode(v, rest);
    WrapExact(v);
  }

  lemma AtIndex(table: seq<string>, s: string, i: int)
    requires Distinct(table) && s in table
    ensures At(table, i) == Ok(s) <==> i == IndexOf(table, s)
  {
  }

  lemma NameReads(t: Tables, o: Original, p: Previous, rest: string)
    requires t.Valid() && AtSeparator(rest) && (o.name != "" ==> o.name in t.names)
    ensures var field := if o.name != "" then Field(IndexOf(t.names, o.name) - p.name) else "";
            var r := ReadName(t, field + rest, p, o.(name := ""));
            var m := Mapping(p.generatedLine, p.generatedColumn, Some(o));
            if o.name == "" then r == Ok(Segment(m, p, rest))
            else if Fits(IndexOf(t.names, o.name) - p.name) then
              r == Ok(Segment(m, p.(name := IndexOf(t.names, o.name)), rest))
            else r.Err? || r.value.mapping != m
  {
    hide DecodeVlq, Wrap, IndexOf, Field;
    if o.name == "" {
      assert "" + rest == rest;
    } else {
      var k := IndexOf(t.names, o.name);
      FieldReads(k - p.name, rest);
      AtIndex(t.names, o.name, p.name + Wrap(k - p.name));
      assert (Field(k - p.name) + rest)[0] == Field(k - p.name)[0];
    }
  }

  lemma OriginalReads(t: Tables, o: Original, p: Previous, rest: string)
    requires t.Valid() && AtSeparator(rest)
    requires o.source in t.sources && (o.name != "" ==> o.name in t.names)
    ensures var r := ReadOriginal(t, OriginalFields(t, o, p) + rest, p);
            var m := Mapping(p.generatedLine, p.generatedColumn, Some(o));
            if OriginalFits(t, o, p) then
              r == Ok(Segment(m, p.(source := IndexOf(t.sources, o.source), originalLine := o.line - 1,
                                    originalColumn := o.column,
                                    name := if o.name != "" then IndexOf(t.names, o.name) else p.name), rest))
            else r.Err? || r.value.mapping != m
  {
    hide Wrap, IndexOf, Field, ReadName, At, ReadOriginal;
    var name := if o.name != "" then Field(IndexOf(t.names, o.name) - p.name) else "";
    var d1, d2, d3 := IndexOf(t.sources, o.source) - p.source, o.line - 1 - p.originalLine, o.column - p.originalColumn;
    FieldsAssociate(Field(d1), Field(d2), Field(d3), name, rest);
    ReadOriginalUnfolds(t, d1, d2, d3, name + rest, p);
    WrapExact(d1);
    WrapExact(d2);
    WrapExact(d3);
    AtIndex(t.sources, o.source, p.source + Wrap(d1));
    var p' := p.(source := p.source + Wrap(d1), originalLine := p.originalLine + Wrap(d2),
                 originalColumn := p.originalColumn + Wrap(d3));
    var o' := Original(o.source, p'.originalLine + 1, p'.originalColumn, o.name);
    NameReads(t, o', p', rest);
    var found := At(t.sources, p.source + Wrap(d1));
    if found.Ok? {
      ReadNameKeeps(t, name + rest, p', Original(found.value, p'.originalLine + 1, p'.originalColumn, ""));
    }
  }

  /** Three fields are read as what they wrap to, and the name is read from what follows. */
  lemma ReadOriginalUnfolds(t: Tables, d1: int, d2: int, d3: int, tail: string, p: Previous)
    ensures ReadOriginal(t, Field(d1) + (Field(d2) + (Field(d3) + tail)), p)
            == match At(t.sources, p.source + Wrap(d1))
               case Err(e) => Err(e)
               case Ok(source) =>
                 var p' := p.(source := p.source + Wrap(d1), originalLine := p.originalLine + Wrap(d2),
                              originalColumn := p.originalColumn + Wrap(d3));
                 ReadName(t, tail, p', Original(source, p'.originalLine + 1, p'.originalColumn, ""))
  {
    hide DecodeVlq, Wrap, Field, ReadName, At;
    var tail2 := Field(d3) + tail;
    var tail1 := Field(d2) + tail2;
    FieldReads(d1, tail1);
    FieldReads(d2, tail2);
    FieldReads(d3, tail);
    assert tail1[0] == Field(d2)[0] && tail2[0] == Field(d3)[0];
  }

  lemma ReadNameKeeps(t: Tables, s: string, p: Previous, o: Original)
    ensures var r := ReadName(t, s, p, o);
            r.Ok? ==> r.value.mapping.original.Some? && r.value.mapping.original.value.(name := o.name) == o
  {
  }

  lemma FieldsAssociate(a: string, b: string, c: string, d: string, e: string)
    ensures (a + (b + (c + d))) + e == a + (b + (c + (d + e)))
  {
  }

  /** The fields of a mapping read back as the mapping, exactly when every difference fits. */
  lemma SegmentReads(t: Tables, m: Mapping, p: Previous, rest: string)
    requires t.Valid() && ValidMapping(t, m) && AtSeparator(rest) && p.generatedLine == m.generatedLine
    ensures var r := ReadSegment(t, Fields(t, m, p) + rest, p);
            if FieldsFit(t, m, p) then r == Ok(Segment(m, Advance(t, m, p), rest))
            else r.Err? || r.value.mapping != m
  {
    hide DecodeVlq, Wrap, IndexOf, Field, ReadOriginal, OriginalFields, OriginalFits;
    var d := m.generatedColumn - p.generatedColumn;
    var tail := (if m.original.Some? then OriginalFields(t, m.original.value, p) else "") + rest;
    assert Fields(t, m, p) + rest == Field(d) + tail;
    FieldReads(d, tail);
    if m.original.Some? {
      var o := m.original.value;
      OriginalStarts(t, o, p);
      assert tail[0] == OriginalFields(t, o, p)[0];
      var p' := p.(generatedColumn := p.generatedColumn + Wrap(d));
      OriginalReads(t, o, p', rest);
      SameOriginalFields(t, o, p, p');
      ReadOriginalKeeps(t, tail, p');
    } else {
      assert tail == rest;
    }
  }

  lemma OriginalStarts(t: Tables, o: Original, p: Previous)
    requires o.source in t.sources && (o.name != "" ==> o.name in t.names)
    ensures var s := OriginalFields(t, o, p); s != "" && s[0] != ',' && s[0] != ';'
  {
  }

  lemma SameOriginalFields(t: Tables, o: Original, p: Previous, p': Previous)
    requires o.source in t.sources && (o.name != "" ==> o.name in t.names)
    requires p' == p.(generatedColumn := p'.generatedColumn)
    ensures OriginalFields(t, o, p) == OriginalFields(t, o, p')
    ensures OriginalFits(t, o, p) == OriginalFits(t, o, p')
  {
  }

  lemma ReadOriginalKeeps(t: Tables, s: string, p: Previous)
    ensures var r := ReadOriginal(t, s, p);
            r.Ok? ==> r.value.mapping.generatedLine == p.generatedLine
                      && r.value.mapping.generatedColumn == p.generatedColumn
  {
    hide DecodeVlq, At;
  }

  // ----- The whole list -----

  /** The list without the mappings that repeat their predecessor, from `i` on. */
  function Deduplicate(ms: seq<Mapping>, i: nat): seq<Mapping>
    requires i <= |ms|
    decreases |ms| - i
  {
    if i == |ms| then []
    else (if i > 0 && ms[i] == ms[i - 1] then [] else [ms[i]]) + Deduplicate(ms, i + 1)
  }

  /** Every difference that gets written is below 2^30 in size. */
  predicate DifferencesFit(t: Tables, ms: seq<Mapping>, i: nat, p: Previous)
    requires (forall m | m in ms :: ValidMapping(t, m)) && i <= |ms|
    decreases |ms| - i
  {
    if i == |ms| then true else
    var m := ms[i];
    if i > 0 && m == ms[i - 1] then DifferencesFit(t, ms, i + 1, p)
    else
      var p' := AtLine(m, p);
      FieldsFit(t, m, p') && DifferencesFit(t, ms, i + 1, Advance(t, m, p'))
  }

  /** The running values once the line separators before `m` are done with. */
  function AtLine(m: Mapping, p: Previous): Previous {
    if m.generatedLine > p.generatedLine then p.(generatedLine := m.generatedLine, generatedColumn := 0) else p
  }

  lemma {:induction false} SemicolonsRead(t: Tables, n: nat, s: string, p: Previous)
    ensures Deserialize(t, Semicolons(n) + s, p)
            == Deserialize(t, s, if n > 0 then p.(generatedLine := p.generatedLine + n, generatedColumn := 0) else p)
  {
    hide ReadSegment;
    var u := Semicolons(n) + s;
    if n == 0 {
      assert u == s;
    } else {
      assert u[0] == ';' && u[1..] == Semicolons(n - 1) + s;
      SemicolonsRead(t, n - 1, s, p.(generatedLine := p.generatedLine + 1, generatedColumn := 0));
    }
  }

  lemma {:induction false} SerializeSeparates(t: Tables, ms: seq<Mapping>, i: nat, p: Previous)
    requires AllValid(t, ms) && 0 < i <= |ms|
    ensures AtSeparator(Serialize(t, ms, i, p))
    decreases |ms| - i
  {
    hide Fields, Compare, Advance;
    if i < |ms| {
      assert ms[i] in ms;
      if ms[i].generatedLine > p.generatedLine {
        assert Semicolons(ms[i].generatedLine - p.generatedLine)[0] == ';';
      } else if Compare(ms[i], ms[i - 1]) == 0 {
        SerializeSeparates(t, ms, i + 1, p);
      }
    }
  }

  lemma FieldsStart(t: Tables, m: Mapping, p: Previous)
    requires ValidMapping(t, m)
    ensures var s := Fields(t, m, p); s != "" && s[0] != ',' && s[0] != ';'
  {
  }

  /** Reading a separator-free segment and what follows it. */
  lemma SegmentThenRest(t: Tables, m: Mapping, p: Previous, rest: string)
    requires t.Valid() && ValidMapping(t, m) && AtSeparator(rest) && p.generatedLine == m.generatedLine
    ensures var r := Deserialize(t, Fields(t, m, p) + rest, p);
            if FieldsFit(t, m, p) then
              match Deserialize(t, rest, Advance(t, m, p))
              case Err(e) => r == Err(e)
              case Ok(tail) => r == Ok([m] + tail)
            else r.Err? || (r.value != [] && r.value[0] != m)
  {
    hide ReadSegment, Fields, FieldsFit, Advance;
    SegmentReads(t, m, p, rest);
    FieldsStart(t, m, p);
    assert (Fields(t, m, p) + rest)[0] == Fields(t, m, p)[0];
  }

  /** What is written for mapping `i` when it does not repeat its predecessor. */
  lemma SerializeOne(t: Tables, ms: seq<Mapping>, i: nat, p: Previous)
    requires AllValid(t, ms) && i < |ms|
    requires p.generatedLine == if i == 0 then 1 else ms[i - 1].generatedLine
    requires ms[i].generatedLine >= p.generatedLine
    ensures ValidMapping(t, ms[i])
    ensures i > 0 && ms[i] == ms[i - 1] ==> Serialize(t, ms, i, p) == Serialize(t, ms, i + 1, p)
    ensures !(i > 0 && ms[i] == ms[i - 1]) ==>
              var m, p' := ms[i], AtLine(ms[i], p);
              && p'.generatedLine == m.generatedLine
              && Deserialize(t, Serialize(t, ms, i, p), p)
                 == Deserialize(t, Fields(t, m, p') + Serialize(t, ms, i + 1, Advance(t, m, p')), p')
  {
    hide Fields, Compare, Advance, ReadSegment, ValidMapping;
    var m, p' := ms[i], AtLine(ms[i], p);
    assert ms[i] in ms && (i > 0 ==> ms[i - 1] in ms);
    if i > 0 {
      CompareZero(t, m, ms[i - 1]);
    }
    if !(i > 0 && m == ms[i - 1]) {
      var body := Fields(t, m, p') + Serialize(t, ms, i + 1, Advance(t, m, p'));
      if m.generatedLine > p.generatedLine {
        SemicolonsRead(t, m.generatedLine - p.generatedLine, body, p);
      } else if i > 0 {
        assert ("," + body)[0] == ',' && ("," + body)[1..] == body;
      } else {
        assert "" + body == body;
      }
    }
  }

  /** From any position on, reading what was written gives the rest back exactly when it fits. */
  lemma {:induction false} RoundTripFrom(t: Tables, ms: seq<Mapping>, i: nat, p: Previous)
    requires t.Valid() && AllValid(t, ms) && LinesAscend(ms, 1) && i <= |ms|
    requires p.generatedLine == if i == 0 then 1 else ms[i - 1].generatedLine
    ensures Deserialize(t, Serialize(t, ms, i, p), p) == Ok(Deduplicate(ms, i)) <==> DifferencesFit(t, ms, i, p)
    decreases |ms| - i
  {
    hide Fields, FieldsFit, Advance, Deserialize, Serialize, ValidMapping;
    if i == |ms| {
      NothingWritten(t, ms, p);
    } else {
      SerializeOne(t, ms, i, p);
      var m := ms[i];
      if i > 0 && m == ms[i - 1] {
        RoundTripFrom(t, ms, i + 1, p);
        assert [] + Deduplicate(ms, i + 1) == Deduplicate(ms, i + 1);
      } else {
        var p' := AtLine(m, p);
        var next := Advance(t, m, p');
        var rest := Serialize(t, ms, i + 1, next);
        SerializeSeparates(t, ms, i + 1, next);
        SegmentThenRest(t, m, p', rest);
        AdvanceKeepsLine(t, m, p');
        RoundTripFrom(t, ms, i + 1, next);
        var tail := Deduplicate(ms, i + 1);
        assert Deduplicate(ms, i) == [m] + tail;
        var r := Deserialize(t, rest, next);
        if r.Ok? {
          assert ([m] + r.value)[1..] == r.value && ([m] + tail)[1..] == tail;
        }
      }
    }
  }

  lemma NothingWritten(t: Tables, ms: seq<Mapping>, p: Previous)
    requires AllValid(t, ms)
    ensures Serialize(t, ms, |ms|, p) == "" && Deserialize(t, "", p) == Ok([])
  {
  }

  lemma AdvanceKeepsLine(t: Tables, m: Mapping, p: Previous)
    requires ValidMapping(t, m)
    ensures Advance(t, m, p).generatedLine == p.generatedLine
  {
  }

  /** Parsing the serialised string returns the list with adjacent duplicates removed. */
  ghost predicate RoundTrips(t: Tables, ms: seq<Mapping>)
    requires AllValid(t, ms)
  {
    Deserialize(t, Serialize(t, ms, 0, START), START) == Ok(Deduplicate(ms, 0))
  }

  /**
   For every list of valid mappings in line order: parsing the serialised string returns the
   list with adjacent duplicates removed, if and only if every written difference is below
   2^30 in size.
   */
  lemma RoundTrip(t: Tables, ms: seq<Mapping>)
    requires t.Valid() && AllValid(t, ms) && LinesAscend(ms, 1)
    ensures RoundTrips(t, ms) <==> DifferencesFit(t, ms, 0, START)
  {
    RoundTripFrom(t, ms, 0, START);
  }

  /** The smallest failing map: one mapping at column 2^30, which is read back at column -2^30. */
  lemma LargeColumnIsLost()
    ensures var t, ms := Tables([], []), [Mapping(1, 0x4000_0000, None)];
            && t.Valid() && AllValid(t, ms) && LinesAscend(ms, 1)
            && Deserialize(t, Serialize(t, ms, 0, START), START) != Ok(Deduplicate(ms, 0))
            && Wrap(0x4000_0000) == -0x4000_0000
  {
    var t, ms := Tables([], []), [Mapping(1, 0x4000_0000, None)];
    hide Serialize, Deserialize, Deduplicate, Wrap;
    assert !Fits(0x4000_0000);
    assert !DifferencesFit(t, ms, 0, START);
    RoundTrip(t, ms);
    FirstValueLost();
  }

  predicate Small(v: int) {
    0 <= v < 0x4000_0000
  }

  /** Numbers below 2^30 are enough. */
  ghost predicate AllSmall(t: Tables, ms: seq<Mapping>) {
    && Small(|t.sources|) && Small(|t.names|)
    && forall m | m in ms ::
         Small(m.generatedColumn) && (m.original.Some? ==> Small(m.original.value.line) && Small(m.original.value.column))
  }

  lemma {:induction false} SmallFits(t: Tables, ms: seq<Mapping>, i: nat, p: Previous)
    requires AllValid(t, ms) && AllSmall(t, ms) && i <= |ms|
    requires Small(p.generatedColumn) && Small(p.originalLine) && Small(p.originalColumn) && Small(p.source) && Small(p.name)
    ensures DifferencesFit(t, ms, i, p)
    decreases |ms| - i
  {
    hide IndexOf;
    if i < |ms| {
      assert ms[i] in ms;
      SmallFits(t, ms, i + 1, p);
      SmallFits(t, ms, i + 1, Advance(t, ms[i], AtLine(ms[i], p)));
    }
  }

  lemma SmallMapsRoundTrip(t: Tables, ms: seq<Mapping>)
    requires t.Valid() && AllValid(t, ms) && LinesAscend(ms, 1) && AllSmall(t, ms)
    ensures Deserialize(t, Serialize(t, ms, 0, START), START) == Ok(Deduplicate(ms, 0))
  {
    RoundTrip(t, ms);
    SmallFits(t, ms, 0, START);
  }
}
