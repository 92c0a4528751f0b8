/**
 The loops that write and read a source map, and the binary search behind
 `originalPositionFor` (defaults/JSXTransformer.js:10360-10418, 10607-10756, 11166-11230).
 */
module SourceMapSearch {
  import opened Collections
  import opened Vlq
  import opened SourceMap
  import opened SourceMapRoundTrip
  import opened SourceMapText

  // ----- The writer and the reader as loops -----

  method WriteField(v: int) returns (s: string)
    ensures s == Field(v)
  {
    s := Encode(v);
  }

  method WriteOriginal(t: Tables, o: Original, p: Previous) returns (s: string, p': Previous)
    requires o.source in t.sources && (o.name != "" ==> o.name in t.names)
    ensures s == OriginalFields(t, o, p)
    ensures p' == p.(source := IndexOf(t.sources, o.source), originalLine := o.line - 1, originalColumn := o.column,
                     name := if o.name != "" then IndexOf(t.names, o.name) else p.name)
  {
    hide IndexOf, Field;
    var source := WriteField(IndexOf(t.sources, o.source) - p.source);
    var line := WriteField(o.line - 1 - p.originalLine);
    var column := WriteField(o.column - p.originalColumn);
    p' := p.(source := IndexOf(t.sources, o.source), originalLine := o.line - 1, originalColumn := o.column);
    var name := "";
    if o.name != "" {
      name := WriteField(IndexOf(t.names, o.name) - p.name);
      p' := p'.(name := IndexOf(t.names, o.name));
    }
    s := source + (line + (column + name));
  }

  method WriteFields(t: Tables, m: Mapping, p: Previous) returns (s: string, p': Previous)
    requires ValidMapping(t, m)
    ensures s == Fields(t, m, p) && p' == Advance(t, m, p)
  {
    hide IndexOf, Field, OriginalFields;
    s := WriteField(m.generatedColumn - p.generatedColumn);
    p' := p.(generatedColumn := m.generatedColumn);
    if m.original.Some? {
      var fields;
      SameOriginalFields(t, m.original.value, p, p');
      fields, p' := WriteOriginal(t, m.original.value, p');
      s := s + fields;
    } else {
      assert s + "" == s;
    }
  }

  /** The inner loop: one `;` per line, up to the mapping's. */
  method WriteSeparators(line: int, target: int) returns (s: string)
    requires line <= target
    ensures s == Semicolons(target - line)
  {
    s := "";
    var previousLine := line;
    while target != previousLine
      invariant line <= previousLine <= target
      invariant s == Semicolons(previousLine - line)
      decreases target - previousLine
    {
      SemicolonsGrow(previousLine - line);
      s := s + ";";
      previousLine := previousLine + 1;
    }
  }

  /** `_serializeMappings`, after the list has been sorted. */
  method SerializeMappings(t: Tables, ms: seq<Mapping>) returns (result: string)
    requires AllValid(t, ms) && LinesAscend(ms, 1)
    ensures result == Serialize(t, ms, 0, START) == Text(t, ms, 0)
  {
    hide Text, Fields, Compare, Advance, ValidMapping, Serialize;
    result := "";
    var p := START;
    for i := 0 to |ms|
      invariant p.generatedLine == if i == 0 then 1 else ms[i - 1].generatedLine
      invariant Serialize(t, ms, 0, START) == result + Serialize(t, ms, i, p)
    {
      var m := ms[i];
      SerializeAdvances(t, ms, i, p, result);
      if m.generatedLine != p.generatedLine {
        var separators := WriteSeparators(p.generatedLine, m.generatedLine);
        result := result + separators;
        p := p.(generatedLine := m.generatedLine, generatedColumn := 0);
      } else if i > 0 {
        if Compare(m, ms[i - 1]) == 0 {
          continue;
        }
        result := result + ",";
      }
      AdvanceKeepsLine(t, m, p);
      var fields;
      fields, p := WriteFields(t, m, p);
      result := result + fields;
    }
    NothingWritten(t, ms, p);
    SerializedText(t, ms);
  }

  lemma SerializeAdvances(t: Tables, ms: seq<Mapping>, i: nat, p: Previous, result: string)
    requires AllValid(t, ms) && i < |ms| && p.generatedLine <= ms[i].generatedLine
    ensures ValidMapping(t, ms[i])
    ensures var m := ms[i];
            var p' := AtLine(m, p);
            var body := Serialize(t, ms, i + 1, Advance(t, m, p'));
            result + Serialize(t, ms, i, p)
            == if m.generatedLine != p.generatedLine then
                 result + Semicolons(m.generatedLine - p.generatedLine) + Fields(t, m, p') + body
               else if i == 0 then result + Fields(t, m, p') + body
               else if Compare(m, ms[i - 1]) == 0 then result + Serialize(t, ms, i + 1, p)
               else result + "," + Fields(t, m, p') + body
  {
    hide Fields, Compare, Advance, ValidMapping;
    assert ms[i] in ms;
  }

  lemma SemicolonsGrow(n: nat)
    ensures Semicolons(n) + ";" == Semicolons(n + 1)
  {
    if n > 0 {
      SemicolonsGrow(n - 1);
    }
  }

  function Prepend(ms: seq<Mapping>, r: Result<seq<Mapping>>): Result<seq<Mapping>> {
    match r
    case Err(e) => Err(e)
    case Ok(tail) => Ok(ms + tail)
  }

  lemma PrependLaws(ms: seq<Mapping>, m: Mapping, r: Result<seq<Mapping>>)
    ensures Prepend([], r) == r
    ensures Prepend(ms, Ok([])) == Ok(ms)
    ensures Prepend(ms, Prepend([m], r)) == Prepend(ms + [m], r)
  {
    assert ms + [] == ms;
    if r.Ok? {
      assert [] + r.value == r.value;
      assert ms + ([m] + r.value) == ms + [m] + r.value;
    }
  }

  /** `_parseMappings` */
  method ParseMappings(t: Tables, s: string) returns (r: Result<seq<Mapping>>)
    ensures r == Deserialize(t, s, START)
  {
    hide ReadSegment;
    var str, p, ms: seq<Mapping> := s, START, [];
    PrependLaws([], Mapping(0, 0, None), Deserialize(t, s, START));
    while str != ""
      invariant Deserialize(t, s, START) == Prepend(ms, Deserialize(t, str, p))
      decreases |str|
    {
      if str[0] == ';' {
        str, p := str[1..], p.(generatedLine := p.generatedLine + 1, generatedColumn := 0);
      } else if str[0] == ',' {
        str := str[1..];
      } else {
        var segment := ReadSegment(t, str, p);
        if segment.Err? {
          return Err(segment.message);
        }
        PrependLaws(ms, segment.value.mapping, Deserialize(t, segment.value.rest, segment.value.previous));
        ms := ms + [segment.value.mapping];
        str, p := segment.value.rest, segment.value.previous;
      }
    }
    PrependLaws(ms, Mapping(0, 0, None), Ok([]));
    return Ok(ms);
  }

  // ----- Binary search -----

  datatype Position = Position(line: int, column: int)

  function PositionOf(m: Mapping): Position {
    Position(m.generatedLine, m.generatedColumn)
  }

  function Difference(a: Position, b: Position): int {
    if a.line != b.line then a.line - b.line else a.column - b.column
  }

  predicate AtMost(a: Position, b: Position) {
    Difference(a, b) <= 0
  }

  /** Positions are compared by line, and by column on the same line. */
  lemma AtMostIsLexical(a: Position, b: Position)
    ensures AtMost(a, b) <==> a.line < b.line || (a.line == b.line && a.column <= b.column)
  {
  }

  ghost predicate SortedByPosition(ms: seq<Mapping>) {
    forall i, j | 0 <= i < j < |ms| :: AtMost(PositionOf(ms[i]), PositionOf(ms[j]))
  }

  /** The last mapping, if any, that is not after the needle: what a linear scan finds. */
  function LinearScan(ms: seq<Mapping>, needle: Position): Option<Mapping> {
    if ms == [] then None
    else if AtMost(PositionOf(ms[|ms| - 1]), needle) then Some(ms[|ms| - 1])
    else LinearScan(ms[..|ms| - 1], needle)
  }

  /** A mapping at the greatest position not after the needle. */
  ghost predicate IsClosest(ms: seq<Mapping>, needle: Position, m: Mapping) {
    && m in ms && AtMost(PositionOf(m), needle)
    && forall x | x in ms && AtMost(PositionOf(x), needle) :: AtMost(PositionOf(x), PositionOf(m))
  }

  function RecursiveSearch(low: int, high: int, needle: Position, ms: seq<Mapping>): (r: Option<Mapping>)
    requires -1 <= low < high <= |ms| && high - low > 1
    requires SortedByPosition(ms)
    requires low >= 0 ==> AtMost(PositionOf(ms[low]), needle)
    requires high < |ms| ==> !AtMost(PositionOf(ms[high]), needle)
    ensures match r
            case Some(m) => IsClosest(ms, needle, m)
            case None => forall x | x in ms :: !AtMost(PositionOf(x), needle)
    decreases high - low
  {
    var mid := (high - low) / 2 + low;
    var cmp := Difference(needle, PositionOf(ms[mid]));
    if cmp == 0 then Some(ms[mid])
    else if cmp > 0 then
      if high - mid > 1 then RecursiveSearch(mid, high, needle, ms) else Some(ms[mid])
    else
      if mid - low > 1 then RecursiveSearch(low, mid, needle, ms)
      else if low < 0 then None else Some(ms[low])
  }

  /** `search` */
  function Search(needle: Position, ms: seq<Mapping>): (r: Option<Mapping>)
    requires SortedByPosition(ms)
    ensures match r
            case Some(m) => IsClosest(ms, needle, m)
            case None => forall x | x in ms :: !AtMost(PositionOf(x), needle)
  {
    if ms == [] then None else RecursiveSearch(-1, |ms|, needle, ms)
  }

  lemma {:induction false} LinearScanIsClosest(ms: seq<Mapping>, needle: Position)
    requires SortedByPosition(ms)
    ensures match LinearScan(ms, needle)
            case Some(m) => IsClosest(ms, needle, m)
            case None => forall x | x in ms :: !AtMost(PositionOf(x), needle)
  {
    if ms != [] {
      var n := |ms| - 1;
      if AtMost(PositionOf(ms[n]), needle) {
        forall x | x in ms ensures AtMost(PositionOf(x), PositionOf(ms[n])) {
          var i :| 0 <= i < |ms| && ms[i] == x;
        }
      } else {
        LinearScanIsClosest(ms[..n], needle);
        assert ms == ms[..n] + [ms[n]];
      }
    }
  }

  /** The binary search stops at the position the linear scan stops at, or finds nothing with it. */
  lemma SearchAgreesWithScan(ms: seq<Mapping>, needle: Position)
    requires SortedByPosition(ms)
    ensures var r, scan := Search(needle, ms), LinearScan(ms, needle);
            r.Some? == scan.Some? && (r.Some? ==> PositionOf(r.value) == PositionOf(scan.value))
  {
    hide RecursiveSearch;
    LinearScanIsClosest(ms, needle);
    var r, scan := Search(needle, ms), LinearScan(ms, needle);
    if r.Some? {
      assert r.value in ms;
      if scan.Some? {
        assert AtMost(PositionOf(r.value), PositionOf(scan.value));
        assert AtMost(PositionOf(scan.value), PositionOf(r.value));
      }
    }
  }

  /** `originalPositionFor`: the original position, nothing, or an invalid request. */
  function OriginalPositionFor(ms: seq<Mapping>, line: int, column: int): Result<Option<Original>>
    requires SortedByPosition(ms)
  {
    if line <= 0 then Err("Line must be greater than or equal to 1")
    else if column < 0 then Err("Column must be greater than or equal to 0")
    else
      match Search(Position(line, column), ms)
      case None => Ok(None)
      case Some(m) => Ok(m.original)
  }

  // ----- End to end -----

  lemma {:induction false} DeduplicateMembers(ms: seq<Mapping>, i: nat)
    requires i <= |ms|
    ensures forall x :: x in Deduplicate(ms, i) ==> x in ms[i..]
    ensures forall x :: x in ms[i..] ==> x in Deduplicate(ms, i) || (i > 0 && x == ms[i - 1])
    decreases |ms| - i
  {
    if i < |ms| {
      DeduplicateMembers(ms, i + 1);
      assert ms[i..] == [ms[i]] + ms[i + 1..];
    }
  }

  lemma {:induction false} DeduplicateSorted(ms: seq<Mapping>, i: nat)
    requires SortedByPosition(ms) && i <= |ms|
    ensures SortedByPosition(Deduplicate(ms, i))
    decreases |ms| - i
  {
    hide AtMost;
    if i < |ms| {
      DeduplicateSorted(ms, i + 1);
      DeduplicateMembers(ms, i + 1);
      var d, tail := Deduplicate(ms, i), Deduplicate(ms, i + 1);
      if i > 0 && ms[i] == ms[i - 1] {
        assert d == tail;
      } else {
        assert d == [ms[i]] + tail;
        forall k | 0 <= k < |tail| ensures AtMost(PositionOf(ms[i]), PositionOf(tail[k])) {
          assert tail[k] in ms[i + 1..];
          var j :| i + 1 <= j < |ms| && ms[j] == tail[k];
        }
      }
    }
  }

  lemma MembersOfDeduplicate(ms: seq<Mapping>)
    requires SortedByPosition(ms)
    ensures SortedByPosition(Deduplicate(ms, 0))
    ensures forall x :: x in Deduplicate(ms, 0) <==> x in ms
  {
    DeduplicateSorted(ms, 0);
    DeduplicateMembers(ms, 0);
    assert ms[0..] == ms;
  }

  /**
   The original position of a mapping closest to the one asked for, or nothing when every
   mapping lies after it; lines below 1 and columns below 0 are refused.
   */
  ghost predicate IsAnswer(ms: seq<Mapping>, line: int, column: int, answer: Result<Option<Original>>) {
    && (answer.Ok? <==> line > 0 && column >= 0)
    && (answer.Ok? ==>
          || (exists m | m in ms :: IsClosest(ms, Position(line, column), m) && answer.value == m.original)
          || (answer.value == None && forall m | m in ms :: !AtMost(PositionOf(m), Position(line, column))))
  }

  /** Looking a position up in the list that is read back from a written map. */
  lemma LookupAfterRoundTrip(t: Tables, ms: seq<Mapping>, line: int, column: int)
    requires t.Valid() && AllValid(t, ms) && SortedByPosition(ms) && DifferencesFit(t, ms, 0, START)
    ensures LinesAscend(ms, 1)
    ensures RoundTrips(t, ms) && SortedByPosition(Deduplicate(ms, 0))
    ensures IsAnswer(ms, line, column, OriginalPositionFor(Deduplicate(ms, 0), line, column))
  {
    hide RoundTrips, DifferencesFit, RecursiveSearch, Deduplicate;
    assert LinesAscend(ms, 1) by {
      assert forall i | 0 <= i < |ms| :: ms[i] in ms && ValidMapping(t, ms[i]);
      assert forall i, j | 0 <= i < j < |ms| :: AtMost(PositionOf(ms[i]), PositionOf(ms[j]));
    }
    RoundTrip(t, ms);
    MembersOfDeduplicate(ms);
    var d, needle := Deduplicate(ms, 0), Position(line, column);
    var r := Search(needle, d);
    if r.Some? {
      assert IsClosest(d, needle, r.value);
      assert IsClosest(ms, needle, r.value);
    }
  }
}
