/**
 The text of a source map, told from the list of mappings alone: each number is counted from
 the one before it of its kind (defaults/JSXTransformer.js:10607-10683, 11166-11230).
 */
module SourceMapText {
  import opened Collections
  import opened Vlq
  import opened SourceMap
  import opened SourceMapRoundTrip

  // ----- What is written -----

  function Quantity(v: int): string {
    EncodeVlq(ToVlqSigned(v))
  }

  /** The latest original position before mapping `i`. */
  function LatestOriginal(ms: seq<Mapping>, i: nat): Option<Original>
    requires i <= |ms|
  {
    if i == 0 then None
    else if ms[i - 1].original.Some? then ms[i - 1].original
    else LatestOriginal(ms, i - 1)
  }

  /** The latest name before mapping `i`; empty when there is none. */
  function LatestName(ms: seq<Mapping>, i: nat): string
    requires i <= |ms|
  {
    if i == 0 then ""
    else if ms[i - 1].original.Some? && ms[i - 1].original.value.name != "" then ms[i - 1].original.value.name
    else LatestName(ms, i - 1)
  }

  function OriginalText(t: Tables, o: Original, latest: Option<Original>, latestName: string): string
    requires o.source in t.sources && (o.name != "" ==> o.name in t.names)
    requires latest.Some? ==> latest.value.source in t.sources
    requires latestName != "" ==> latestName in t.names
  {
    Quantity(IndexOf(t.sources, o.source) - if latest.Some? then IndexOf(t.sources, latest.value.source) else 0)
    + (Quantity(o.line - if latest.Some? then latest.value.line else 1)
       + (Quantity(o.column - if latest.Some? then latest.value.column else 0)
          + if o.name == "" then ""
            else Quantity(IndexOf(t.names, o.name) - if latestName != "" then IndexOf(t.names, latestName) else 0)))
  }

  lemma {:induction false} LatestAreRegistered(t: Tables, ms: seq<Mapping>, i: nat)
    requires AllValid(t, ms) && i <= |ms|
    ensures LatestOriginal(ms, i).Some? ==>
              LatestOriginal(ms, i).value.source in t.sources
    ensures LatestName(ms, i) != "" ==> LatestName(ms, i) in t.names
  {
    if i > 0 {
      assert ms[i - 1] in ms;
      LatestAreRegistered(t, ms, i - 1);
    }
  }

  /** The fields of mapping `i`; columns count from the mapping before it on the same line. */
  function MappingText(t: Tables, ms: seq<Mapping>, i: nat): string
    requires AllValid(t, ms) && i < |ms|
  {
    LatestAreRegistered(t, ms, i);
    assert ms[i] in ms;
    var m := ms[i];
    var base := if i > 0 && ms[i - 1].generatedLine == m.generatedLine then ms[i - 1].generatedColumn else 0;
    Quantity(m.generatedColumn - base)
    + if m.original.None? then "" else OriginalText(t, m.original.value, LatestOriginal(ms, i), LatestName(ms, i))
  }

  /** Lines are told apart by semicolons, mappings on a line by commas, and repetitions are left out. */
  function Text(t: Tables, ms: seq<Mapping>, i: nat): string
    requires AllValid(t, ms) && LinesAscend(ms, 1) && i <= |ms|
    decreases |ms| - i
  {
    if i == |ms| then ""
    else
      var line := if i == 0 then 1 else ms[i - 1].generatedLine;
      if ms[i].generatedLine > line then
        Semicolons(ms[i].generatedLine - line) + (MappingText(t, ms, i) + Text(t, ms, i + 1))
      else if i == 0 then MappingText(t, ms, i) + Text(t, ms, i + 1)
      else if ms[i] == ms[i - 1] then Text(t, ms, i + 1)
      else "," + (MappingText(t, ms, i) + Text(t, ms, i + 1))
  }

  // ----- The writer's running values -----

  /** What the writer remembers before mapping `i`. */
  function Remembered(t: Tables, ms: seq<Mapping>, i: nat): Previous
    requires AllValid(t, ms) && i <= |ms|
  {
    LatestAreRegistered(t, ms, i);
    var latest, name := LatestOriginal(ms, i), LatestName(ms, i);
    Previous(
      if i == 0 then 1 else ms[i - 1].generatedLine,
      if i == 0 then 0 else ms[i - 1].generatedColumn,
      if latest.Some? then latest.value.line - 1 else 0,
      if latest.Some? then latest.value.column else 0,
      if latest.Some? then IndexOf(t.sources, latest.value.source) else 0,
      if name != "" then IndexOf(t.names, name) else 0)
  }

  lemma RememberedAdvances(t: Tables, ms: seq<Mapping>, i: nat)
    requires AllValid(t, ms) && LinesAscend(ms, 1) && i < |ms|
    ensures ms[i] in ms && Advance(t, ms[i], AtLine(ms[i], Remembered(t, ms, i))) == Remembered(t, ms, i + 1)
  {
    assert ms[i] in ms;
    LatestAreRegistered(t, ms, i);
    assert i > 0 ==> ms[i - 1].generatedLine <= ms[i].generatedLine;
  }

  lemma RememberedRepeats(t: Tables, ms: seq<Mapping>, i: nat)
    requires AllValid(t, ms) && 0 < i < |ms| && ms[i] == ms[i - 1]
    ensures Remembered(t, ms, i + 1) == Remembered(t, ms, i)
  {
    assert ms[i] in ms;
    LatestAreRegistered(t, ms, i);
  }

  lemma OriginalFieldsAreText(t: Tables, o: Original, p: Previous, latest: Option<Original>, latestName: string)
    requires o.source in t.sources && (o.name != "" ==> o.name in t.names)
    requires latest.Some? ==> latest.value.source in t.sources
    requires latestName != "" ==> latestName in t.names
    requires p.source == if latest.Some? then IndexOf(t.sources, latest.value.source) else 0
    requires p.originalLine == if latest.Some? then latest.value.line - 1 else 0
    requires p.originalColumn == if latest.Some? then latest.value.column else 0
    requires p.name == if latestName != "" then IndexOf(t.names, latestName) else 0
    ensures OriginalFields(t, o, p) == OriginalText(t, o, latest, latestName)
  {
    hide EncodeVlq, ToVlqSigned, IndexOf;
    assert o.line - 1 - p.originalLine == o.line - if latest.Some? then latest.value.line else 1;
  }

  lemma FieldsAreText(t: Tables, ms: seq<Mapping>, i: nat)
    requires AllValid(t, ms) && LinesAscend(ms, 1) && i < |ms|
    ensures ms[i] in ms && Fields(t, ms[i], AtLine(ms[i], Remembered(t, ms, i))) == MappingText(t, ms, i)
  {
    hide EncodeVlq, ToVlqSigned, IndexOf, OriginalFields, OriginalText, LatestOriginal, LatestName;
    assert ms[i] in ms;
    LatestAreRegistered(t, ms, i);
    assert i > 0 ==> ms[i - 1].generatedLine <= ms[i].generatedLine;
    if ms[i].original.Some? {
      OriginalFieldsAreText(t, ms[i].original.value, AtLine(ms[i], Remembered(t, ms, i)),
                            LatestOriginal(ms, i), LatestName(ms, i));
    }
  }

  /** What `Serialize` writes, when the running values are those remembered. */
  lemma SerializeUnfolds(t: Tables, ms: seq<Mapping>, i: nat)
    requires AllValid(t, ms) && LinesAscend(ms, 1) && i < |ms|
    ensures ms[i] in ms
    ensures var m, p := ms[i], Remembered(t, ms, i);
            var line := if i == 0 then 1 else ms[i - 1].generatedLine;
            var body := Fields(t, m, AtLine(m, p)) + Serialize(t, ms, i + 1, Advance(t, m, AtLine(m, p)));
            Serialize(t, ms, i, p)
            == if m.generatedLine > line then Semicolons(m.generatedLine - line) + body
               else if i == 0 then body
               else if m == ms[i - 1] then Serialize(t, ms, i + 1, p)
               else "," + body
  {
    hide Fields, Advance, Compare, ValidMapping, Semicolons;
    LineRemembered(t, ms, i);
    assert ms[i] in ms;
    if i > 0 {
      assert ms[i - 1] in ms;
      CompareZero(t, ms[i], ms[i - 1]);
    }
    hide Remembered;
    var p := AtLine(ms[i], Remembered(t, ms, i));
    var body := Fields(t, ms[i], p) + Serialize(t, ms, i + 1, Advance(t, ms[i], p));
    assert "" + body == body;
  }

  lemma TextUnfolds(t: Tables, ms: seq<Mapping>, i: nat)
    requires AllValid(t, ms) && LinesAscend(ms, 1) && i < |ms|
    ensures var line := if i == 0 then 1 else ms[i - 1].generatedLine;
            var body := MappingText(t, ms, i) + Text(t, ms, i + 1);
            Text(t, ms, i)
            == if ms[i].generatedLine > line then Semicolons(ms[i].generatedLine - line) + body
               else if i == 0 then body
               else if ms[i] == ms[i - 1] then Text(t, ms, i + 1)
               else "," + body
  {
    hide MappingText, Semicolons;
  }

  lemma NoText(t: Tables, ms: seq<Mapping>)
    requires AllValid(t, ms) && LinesAscend(ms, 1)
    ensures Text(t, ms, |ms|) == "" && forall p :: Serialize(t, ms, |ms|, p) == ""
  {
  }

  lemma {:induction false} SerializeFrom(t: Tables, ms: seq<Mapping>, i: nat)
    requires AllValid(t, ms) && LinesAscend(ms, 1) && i <= |ms|
    ensures Serialize(t, ms, i, Remembered(t, ms, i)) == Text(t, ms, i)
    decreases |ms| - i
  {
    hide Fields, MappingText, Advance, Remembered, Serialize, Semicolons, Text, ValidMapping, AtLine, AllValid, LinesAscend;
    if i == |ms| {
      NoText(t, ms);
    } else {
      SerializeFrom(t, ms, i + 1);
      SerializeUnfolds(t, ms, i);
      TextUnfolds(t, ms, i);
      RememberedAdvances(t, ms, i);
      FieldsAreText(t, ms, i);
      if i > 0 && ms[i] == ms[i - 1] {
        RememberedRepeats(t, ms, i);
      }
    }
  }

  lemma LineRemembered(t: Tables, ms: seq<Mapping>, i: nat)
    requires AllValid(t, ms) && i <= |ms|
    ensures Remembered(t, ms, i).generatedLine == if i == 0 then 1 else ms[i - 1].generatedLine
  {
  }

  // ----- What is read -----

  /** The written text is the one described, for all valid mappings in line order. */
  lemma SerializedText(t: Tables, ms: seq<Mapping>)
    requires AllValid(t, ms) && LinesAscend(ms, 1)
    ensures Serialize(t, ms, 0, START) == Text(t, ms, 0)
  {
    SerializeFrom(t, ms, 0);
  }

  /** Reading that text gives the mappings without repetitions, if and only if every difference fits. */
  lemma TextReads(t: Tables, ms: seq<Mapping>)
    requires t.Valid() && AllValid(t, ms) && LinesAscend(ms, 1)
    ensures Deserialize(t, Text(t, ms, 0), START) == Ok(Deduplicate(ms, 0)) <==> DifferencesFit(t, ms, 0, START)
  {
    SerializedText(t, ms);
    RoundTrip(t, ms);
  }

  /** The fields of a mapping, counted from nothing. */
  function AbsoluteFields(t: Tables, m: Mapping): string
    requires ValidMapping(t, m)
  {
    Quantity(m.generatedColumn)
    + match m.original
      case None => ""
      case Some(o) =>
        Quantity(IndexOf(t.sources, o.source))
        + (Quantity(o.line - 1)
           + (Quantity(o.column) + if o.name == "" then "" else Quantity(IndexOf(t.names, o.name))))
  }

  lemma SingleText(t: Tables, m: Mapping)
    requires ValidMapping(t, m)
    ensures AllValid(t, [m]) && LinesAscend([m], 1)
    ensures Text(t, [m], 0) == Semicolons(m.generatedLine - 1) + MappingText(t, [m], 0)
  {
    hide MappingText;
    assert Text(t, [m], 1) == "";
    var fields := MappingText(t, [m], 0);
    assert fields + "" == fields && "" + fields == fields;
  }

  lemma SingleFields(t: Tables, m: Mapping)
    requires ValidMapping(t, m)
    ensures AllValid(t, [m]) && MappingText(t, [m], 0) == AbsoluteFields(t, m)
  {
    hide Quantity, IndexOf;
    assert LatestOriginal([m], 0) == None && LatestName([m], 0) == "";
  }

  /** A single mapping is written with its absolute numbers, lines counted from zero, and read back. */
  lemma SingleMapping(t: Tables, m: Mapping)
    requires t.Valid() && ValidMapping(t, m)
    ensures AllValid(t, [m]) && LinesAscend([m], 1)
    ensures var text := Semicolons(m.generatedLine - 1) + AbsoluteFields(t, m);
            && Serialize(t, [m], 0, START) == text
            && (Deserialize(t, text, START) == Ok([m]) <==> DifferencesFit(t, [m], 0, START))
  {
    hide Text, MappingText, AbsoluteFields, Serialize, Deserialize, DifferencesFit, Semicolons;
    SingleText(t, m);
    SingleFields(t, m);
    SerializedText(t, [m]);
    TextReads(t, [m]);
    assert Deduplicate([m], 0) == [m];
  }

  /** The first position of a file, mapped to the first position of the first source. */
  lemma FirstPosition()
    ensures var t, m := Tables(["a.js"], []), Mapping(1, 0, Some(Original("a.js", 1, 0, "")));
            && AllValid(t, [m])
            && Serialize(t, [m], 0, START) == "AAAA" && Deserialize(t, "AAAA", START) == Ok([m])
  {
    hide EncodeVlq, ToVlqSigned, Deserialize;
    var t, m := Tables(["a.js"], []), Mapping(1, 0, Some(Original("a.js", 1, 0, "")));
    KnownQuantities();
    SingleMapping(t, m);
    assert Quantity(0) == "A";
    assert DifferencesFit(t, [m], 0, START);
  }
}
