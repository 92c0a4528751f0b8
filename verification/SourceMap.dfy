/**
 The source-map writer and reader: mappings as differences in base 64 quantities
 (defaults/JSXTransformer.js:10607-10683, 11166-11230, 11774-11858).
 */
module SourceMap {
  import opened Collections
  import opened Vlq

  /** An original position; the empty name stands for no name. */
  datatype Original = Original(source: string, line: int, column: int, name: string)

  datatype Mapping = Mapping(generatedLine: int, generatedColumn: int, original: Option<Original>)

  /** The running values both loops keep; original lines are counted from zero here. */
  datatype Previous = Previous(
    generatedLine: int, generatedColumn: int, originalLine: int, originalColumn: int, source: int, name: int)

  const START := Previous(1, 0, 0, 0, 0, 0)

  /** The lists of sources and names a map refers to by position. */
  datatype Tables = Tables(sources: seq<string>, names: seq<string>) {
    ghost predicate Valid() {
      Distinct(sources) && Distinct(names)
    }
  }

  /** What `_validateMapping` lets through, with its source and name registered. */
  predicate ValidMapping(t: Tables, m: Mapping) {
    && m.generatedLine > 0 && m.generatedColumn >= 0
    && (m.original.Some? ==>
          var o := m.original.value;
          && o.line > 0 && o.column >= 0 && o.source != "" && o.source in t.sources
          && (o.name != "" ==> o.name in t.names))
  }

  function At(table: seq<string>, i: int): Result<string> {
    if 0 <= i < |table| then Ok(table[i]) else Err("No element indexed by")
  }

  // ----- Comparison -----

  /** -1, 0 or 1, by the first code unit that differs. */
  function Strcmp(a: string, b: string): int {
    if a == "" then (if b == "" then 0 else -1)
    else if b == "" then 1
    else if a[0] < b[0] then -1
    else if a[0] > b[0] then 1
    else Strcmp(a[1..], b[1..])
  }

  lemma {:induction false} StrcmpZero(a: string, b: string)
    ensures Strcmp(a, b) == 0 <==> a == b
  {
    if a != "" && b != "" {
      StrcmpZero(a[1..], b[1..]);
      if a[0] == b[0] {
        assert a == [a[0]] + a[1..] && b == [b[0]] + b[1..];
      }
    }
  }

  function SourceOf(m: Mapping): string {
    if m.original.Some? then m.original.value.source else ""
  }

  function NameOf(m: Mapping): string {
    if m.original.Some? then m.original.value.name else ""
  }

  function ComparePositions(a: Mapping, b: Mapping): int {
    if a.generatedLine != b.generatedLine then a.generatedLine - b.generatedLine
    else a.generatedColumn - b.generatedColumn
  }

  /** `compareByGeneratedPositions`; a difference with an absent number is not a number, hence false. */
  function Compare(a: Mapping, b: Mapping): int {
    if ComparePositions(a, b) != 0 then ComparePositions(a, b)
    else if Strcmp(SourceOf(a), SourceOf(b)) != 0 then Strcmp(SourceOf(a), SourceOf(b))
    else if a.original.Some? && b.original.Some? && a.original.value.line != b.original.value.line then
      a.original.value.line - b.original.value.line
    else if a.original.Some? && b.original.Some? && a.original.value.column != b.original.value.column then
      a.original.value.column - b.original.value.column
    else Strcmp(NameOf(a), NameOf(b))
  }

  /** On valid mappings the comparison only identifies equals. */
  lemma CompareZero(t: Tables, a: Mapping, b: Mapping)
    requires ValidMapping(t, a) && ValidMapping(t, b)
    ensures Compare(a, b) == 0 <==> a == b
  {
    hide Strcmp;
    StrcmpZero(SourceOf(a), SourceOf(b));
    StrcmpZero(NameOf(a), NameOf(b));
  }

  /** `b` goes on where `a` ends, or has the greater code unit where they first differ. */
  ghost predicate Precedes(a: string, b: string) {
    exists k | 0 <= k < |b| && k <= |a| :: a[..k] == b[..k] && (k == |a| || a[k] < b[k])
  }

  lemma {:induction false} StrcmpOrders(a: string, b: string)
    ensures Strcmp(a, b) < 0 <==> Precedes(a, b)
    ensures Strcmp(a, b) == -Strcmp(b, a)
  {
    if a == "" {
      assert b != "" ==> a[..0] == b[..0];
    } else if b != "" {
      StrcmpOrders(a[1..], b[1..]);
      if a[0] == b[0] {
        if k :| 0 <= k < |b[1..]| && k <= |a[1..]| && a[1..][..k] == b[1..][..k] && (k == |a[1..]| || a[1..][k] < b[1..][k]) {
          assert a[..k + 1] == [a[0]] + a[1..][..k] && b[..k + 1] == [b[0]] + b[1..][..k];
          assert Precedes(a, b);
        }
        if k :| 0 <= k < |b| && k <= |a| && a[..k] == b[..k] && (k == |a| || a[k] < b[k]) {
          assert k > 0;
          assert a[1..][..k - 1] == a[..k][1..] && b[1..][..k - 1] == b[..k][1..];
          assert Precedes(a[1..], b[1..]);
        }
      } else {
        if a[0] < b[0] {
          assert a[..0] == b[..0];
        }
        forall k | 0 < k < |b| && k <= |a| ensures a[..k] != b[..k] {
          assert a[..k][0] == a[0] && b[..k][0] == b[0];
        }
      }
    }
  }

  /** Mappings with original positions are compared field by field. */
  lemma CompareIsLexical(a: Mapping, b: Mapping)
    requires a.original.Some? && b.original.Some?
    ensures var p, q := a.original.value, b.original.value;
            Compare(a, b) < 0
            <==> || a.generatedLine < b.generatedLine
                 || (a.generatedLine == b.generatedLine
                     && (|| a.generatedColumn < b.generatedColumn
                         || (a.generatedColumn == b.generatedColumn
                             && (|| Precedes(p.source, q.source)
                                 || (p.source == q.source
                                     && (|| p.line < q.line
                                         || (p.line == q.line
                                             && (|| p.column < q.column
                                                 || (p.column == q.column && Precedes(p.name, q.name))))))))))
  {
    hide Strcmp, Precedes;
    var p, q := a.original.value, b.original.value;
    StrcmpOrders(p.source, q.source);
    StrcmpZero(p.source, q.source);
    StrcmpOrders(p.name, q.name);
  }

  // ----- Writing -----

  function Field(v: int): (s: string)
    ensures s != "" && s[0] != ',' && s[0] != ';'
  {
    EncodeVlq(ToVlqSigned(v))
  }

  function OriginalFields(t: Tables, o: Original, p: Previous): string
    requires o.source in t.sources && (o.name != "" ==> o.name in t.names)
  {
    Field(IndexOf(t.sources, o.source) - p.source)
    + (Field(o.line - 1 - p.originalLine)
       + (Field(o.column - p.originalColumn)
          + if o.name != "" then Field(IndexOf(t.names, o.name) - p.name) else ""))
  }

  function Fields(t: Tables, m: Mapping, p: Previous): string
    requires ValidMapping(t, m)
  {
    Field(m.generatedColumn - p.generatedColumn)
    + if m.original.Some? then OriginalFields(t, m.original.value, p) else ""
  }

  /** The running values after a mapping has been written or read. */
  function Advance(t: Tables, m: Mapping, p: Previous): Previous
    requires ValidMapping(t, m)
  {
    var p := p.(generatedColumn := m.generatedColumn);
    if m.original.None? then p else
    var o := m.original.value;
    p.(source := IndexOf(t.sources, o.source), originalLine := o.line - 1, originalColumn := o.column,
       name := if o.name != "" then IndexOf(t.names, o.name) else p.name)
  }

  function Semicolons(n: nat): string {
    if n == 0 then "" else ";" + Semicolons(n - 1)
  }

  ghost predicate AllValid(t: Tables, ms: seq<Mapping>) {
    forall m | m in ms :: ValidMapping(t, m)
  }

  /** Lines do not go back; the writer's `;` loop relies on it. */
  ghost predicate LinesAscend(ms: seq<Mapping>, line: int) {
    && (forall i | 0 <= i < |ms| :: line <= ms[i].generatedLine)
    && (forall i, j | 0 <= i < j < |ms| :: ms[i].generatedLine <= ms[j].generatedLine)
  }

  /** What is written for the mappings from `i` on. */
  function Serialize(t: Tables, ms: seq<Mapping>, i: nat, p: Previous): string
    requires AllValid(t, ms) && i <= |ms|
    decreases |ms| - i
  {
    if i == |ms| then "" else
    var m := ms[i];
    if m.generatedLine > p.generatedLine then
      var p' := p.(generatedLine := m.generatedLine, generatedColumn := 0);
      Semicolons(m.generatedLine - p.generatedLine) + (Fields(t, m, p') + Serialize(t, ms, i + 1, Advance(t, m, p')))
    else if i > 0 && Compare(m, ms[i - 1]) == 0 then
      Serialize(t, ms, i + 1, p)
    else
      (if i > 0 then "," else "") + (Fields(t, m, p) + Serialize(t, ms, i + 1, Advance(t, m, p)))
  }

  // ----- Reading -----

  predicate AtSeparator(s: string) {
    s == "" || s[0] == ',' || s[0] == ';'
  }

  datatype Segment = Segment(mapping: Mapping, previous: Previous, rest: string)

  /** The fields of one mapping. */
  function ReadSegment(t: Tables, s: string, p: Previous): (r: Result<Segment>)
    ensures r.Ok? ==> |r.value.rest| < |s|
  {
    match DecodeVlq(s, 0, 0)
    case Err(e) => Err(e)
    case Ok(column) =>
      var p := p.(generatedColumn := p.generatedColumn + column.value);
      if AtSeparator(column.rest) then
        Ok(Segment(Mapping(p.generatedLine, p.generatedColumn, None), p, column.rest))
      else
        ReadOriginal(t, column.rest, p)
  }

  function ReadOriginal(t: Tables, s: string, p: Previous): (r: Result<Segment>)
    ensures r.Ok? ==> |r.value.rest| < |s|
  {
    match DecodeVlq(s, 0, 0)
    case Err(e) => Err(e)
    case Ok(source) =>
    match At(t.sources, p.source + source.value)
    case Err(e) => Err(e)
    case Ok(sourceName) =>
    if AtSeparator(source.rest) then Err("Found a source, but no line and column") else
    match DecodeVlq(source.rest, 0, 0)
    case Err(e) => Err(e)
    case Ok(line) =>
    if AtSeparator(line.rest) then Err("Found a source and line, but no column") else
    match DecodeVlq(line.rest, 0, 0)
    case Err(e) => Err(e)
    case Ok(column) =>
    var p := p.(source := p.source + source.value,
                originalLine := p.originalLine + line.value,
                originalColumn := p.originalColumn + column.value);
    var o := Original(sourceName, p.originalLine + 1, p.originalColumn, "");
    ReadName(t, column.rest, p, o)
  }

  function ReadName(t: Tables, s: string, p: Previous, o: Original): (r: Result<Segment>)
    ensures r.Ok? ==> |r.value.rest| <= |s|
  {
    if AtSeparator(s) then
      Ok(Segment(Mapping(p.generatedLine, p.generatedColumn, Some(o)), p, s))
    else
      match DecodeVlq(s, 0, 0)
      case Err(e) => Err(e)
      case Ok(name) =>
      match At(t.names, p.name + name.value)
      case Err(e) => Err(e)
      case Ok(text) =>
        var p := p.(name := p.name + name.value);
        Ok(Segment(Mapping(p.generatedLine, p.generatedColumn, Some(o.(name := text))), p, name.rest))
  }

  /** The mappings a string denotes. */
  function Deserialize(t: Tables, s: string, p: Previous): Result<seq<Mapping>>
    decreases |s|
  {
    if s == "" then Ok([])
    else if s[0] == ';' then Deserialize(t, s[1..], p.(generatedLine := p.generatedLine + 1, generatedColumn := 0))
    else if s[0] == ',' then Deserialize(t, s[1..], p)
    else
      match ReadSegment(t, s, p)
      case Err(e) => Err(e)
      case Ok(segment) =>
        match Deserialize(t, segment.rest, segment.previous)
        case Err(e) => Err(e)
        case Ok(ms) => Ok([segment.mapping] + ms)
  }
}
