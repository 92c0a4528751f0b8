/**
 The UTF-16 to UTF-8 conversion of the buffer module, with its byte limit
 (defaults/JSXTransformer.js:1645-1724).
 */
module Utf8 {
  import opened Collections
  import opened Numbers
  import opened Bytes

  predicate IsLead(c: unit) { 0xD800 <= c < 0xDC00 }
  predicate IsTrail(c: unit) { 0xDC00 <= c < 0xE000 }

  /** A Unicode scalar value. */
  type scalar = c: int | 0 <= c < 0xD800 || 0xE000 <= c < 0x11_0000

  const REPLACEMENT: scalar := 0xFFFD

  /** The twenty payload bits of a surrogate pair. */
  function PairBits(lead: unit, trail: unit): (x: nat)
    requires IsLead(lead) && IsTrail(trail)
    ensures x < 0x10_0000
  {
    (lead - 0xD800) * 0x400 + (trail - 0xDC00)
  }

  /** The value the code forms: 0x10000 is combined by `|`, not added. */
  function JoinPair(lead: unit, trail: unit): scalar
    requires IsLead(lead) && IsTrail(trail)
  {
    var x := PairBits(lead, trail);
    if x / 0x1_0000 % 2 == 1 then x else x + 0x1_0000
  }

  function Encode(c: scalar): (b: seq<byte>)
    ensures 1 <= |b| <= 4
  {
    if c < 0x80 then [c]
    else if c < 0x800 then [c / 0x40 + 0xC0, c % 0x40 + 0x80]
    else if c < 0x1_0000 then [c / 0x1000 + 0xE0, c / 0x40 % 0x40 + 0x80, c % 0x40 + 0x80]
    else [c / 0x4_0000 + 0xF0, c / 0x1000 % 0x40 + 0x80, c / 0x40 % 0x40 + 0x80, c % 0x40 + 0x80]
  }

  function EncodeAll(cs: seq<scalar>): seq<byte> {
    if cs == [] then [] else Encode(cs[0]) + EncodeAll(cs[1..])
  }

  /** The characters written for the units from `i` on, with a lead surrogate possibly pending. */
  function Codes(s: seq<unit>, i: nat, lead: Option<unit>): seq<scalar>
    requires i <= |s| && (lead.Some? ==> IsLead(lead.value))
    decreases |s| - i
  {
    if i == |s| then [] else
    var c := s[i];
    if IsLead(c) || IsTrail(c) then
      if lead.Some? then
        if IsLead(c) then [REPLACEMENT] + Codes(s, i + 1, Some(c))
        else [JoinPair(lead.value, c)] + Codes(s, i + 1, None)
      else if IsTrail(c) || i + 1 == |s| then [REPLACEMENT] + Codes(s, i + 1, None)
      else Codes(s, i + 1, Some(c))
    else
      (if lead.Some? then [REPLACEMENT] else []) + ([c] + Codes(s, i + 1, None))
  }

  // ----- The loop -----

  /** The bytes still free, or no limit. */
  datatype Budget = Unlimited | Left(units: int) {
    predicate Fits(n: nat) { Unlimited? || units >= n }
    function Spend(n: nat): Budget { if Unlimited? then this else Left(units - n) }
  }

  /** What is appended for `cs` on a budget. */
  function Written(cs: seq<scalar>, b: Budget): seq<byte> {
    if cs == [] then []
    else (if b.Fits(|Encode(cs[0])|) then Encode(cs[0]) else []) + Written(cs[1..], b.Spend(|Encode(cs[0])|))
  }

  /** Once overdrawn, nothing is written any more. */
  lemma {:induction false} Overdrawn(cs: seq<scalar>, b: Budget)
    requires b.Left? && b.units < 0
    ensures Written(cs, b) == []
  {
    if cs != [] {
      Overdrawn(cs[1..], b.Spend(|Encode(cs[0])|));
    }
  }

  lemma WrittenFirst(bytes: seq<byte>, c: scalar, rest: seq<scalar>, b: Budget)
    ensures bytes + Written([c] + rest, b)
            == bytes + (if b.Fits(|Encode(c)|) then Encode(c) else []) + Written(rest, b.Spend(|Encode(c)|))
  {
    assert ([c] + rest)[1..] == rest;
  }

  method Push(bytes: seq<byte>, c: scalar, budget: Budget) returns (bytes': seq<byte>, budget': Budget)
    ensures bytes' == bytes + (if budget.Fits(|Encode(c)|) then Encode(c) else [])
    ensures budget' == budget.Spend(|Encode(c)|)
  {
    var code := Encode(c);
    budget' := budget.Spend(|code|);
    if budget.Fits(|code|) {
      bytes' := bytes + code;
    } else {
      bytes' := bytes;
    }
  }

  /** `utf8ToBytes`; a limit of zero counts as none. */
  method Utf8ToBytes(s: seq<unit>, limit: int) returns (bytes: seq<byte>)
    ensures bytes == Written(Codes(s, 0, None), if limit == 0 then Unlimited else Left(limit))
  {
    hide Written, Encode;
    var budget := if limit == 0 then Unlimited else Left(limit);
    ghost var goal := Written(Codes(s, 0, None), budget);
    bytes := [];
    var lead: Option<unit> := None;
    for i := 0 to |s|
      invariant lead.Some? ==> IsLead(lead.value)
      invariant goal == bytes + Written(Codes(s, i, lead), budget)
    {
      var c := s[i];
      var code: scalar := REPLACEMENT;
      if IsLead(c) || IsTrail(c) {
        if lead.Some? {
          if IsLead(c) {
            WrittenFirst(bytes, REPLACEMENT, Codes(s, i + 1, Some(c)), budget);
            bytes, budget := Push(bytes, REPLACEMENT, budget);
            lead := Some(c);
            continue;
          }
          code := JoinPair(lead.value, c);
          lead := None;
        } else if IsTrail(c) || i + 1 == |s| {
          WrittenFirst(bytes, REPLACEMENT, Codes(s, i + 1, None), budget);
          bytes, budget := Push(bytes, REPLACEMENT, budget);
          continue;
        } else {
          lead := Some(c);
          continue;
        }
      } else {
        code := c;
        if lead.Some? {
          WrittenFirst(bytes, REPLACEMENT, [code] + Codes(s, i + 1, None), budget);
          bytes, budget := Push(bytes, REPLACEMENT, budget);
          lead := None;
        } else {
          assert [] + ([code] + Codes(s, i + 1, None)) == [code] + Codes(s, i + 1, None);
        }
      }
      WrittenFirst(bytes, code, Codes(s, i + 1, None), budget);
      bytes, budget := Push(bytes, code, budget);
      if budget.Left? && budget.units < 0 {
        Overdrawn(Codes(s, i + 1, None), budget);
        return;
      }
    }
    NothingWritten(bytes, budget);
  }

  lemma NothingWritten(bytes: seq<byte>, b: Budget)
    ensures bytes + Written([], b) == bytes
  {
  }

  // ----- The limit -----

  lemma {:induction false} WrittenUnlimited(cs: seq<scalar>)
    ensures Written(cs, Unlimited) == EncodeAll(cs)
  {
    if cs != [] {
      WrittenUnlimited(cs[1..]);
    }
  }

  /** How many characters fit into `limit` bytes. */
  function Fitting(cs: seq<scalar>, limit: int): (k: nat)
    ensures k <= |cs|
  {
    if cs == [] || |Encode(cs[0])| > limit then 0 else 1 + Fitting(cs[1..], limit - |Encode(cs[0])|)
  }

  lemma EncodeAllUnfolds(cs: seq<scalar>)
    ensures EncodeAll(cs) == if cs == [] then [] else Encode(cs[0]) + EncodeAll(cs[1..])
  {
  }

  /**
   With a positive limit the result is the encoding of a prefix of the characters: it fits,
   and one more character would not.
   */
  lemma {:induction false} LimitCutsAtCharacters(cs: seq<scalar>, limit: nat)
    ensures var k := Fitting(cs, limit);
            && Written(cs, Left(limit)) == EncodeAll(cs[..k])
            && |EncodeAll(cs[..k])| <= limit
            && (k < |cs| ==> |EncodeAll(cs[..k + 1])| > limit)
            && EncodeAll(cs[..k]) <= EncodeAll(cs)
  {
    hide Encode, EncodeAll;
    var k := Fitting(cs, limit);
    EncodeAllUnfolds(cs);
    EncodeAllUnfolds(cs[..k]);
    if cs != [] {
      var n := |Encode(cs[0])|;
      if n > limit {
        Overdrawn(cs[1..], Left(limit - n));
        EncodeAllUnfolds(cs[..1]);
        assert cs[..1][0] == cs[0];
      } else {
        LimitCutsAtCharacters(cs[1..], limit - n);
        assert cs[..k][1..] == cs[1..][..k - 1] && cs[..k][0] == cs[0];
        if k < |cs| {
          EncodeAllUnfolds(cs[..k + 1]);
          assert cs[..k + 1][1..] == cs[1..][..k] && cs[..k + 1][0] == cs[0];
        }
      }
    }
  }

  // ----- Well-formed UTF-8 (section 4 of RFC 3629) -----

  predicate IsTail(b: byte) { 0x80 <= b <= 0xBF }

  datatype Decoded = Decoded(code: scalar, rest: seq<byte>)

  /** The payload of a byte above its marker bits. */
  function Payload(b: byte, marker: int): int { b - marker }

  /** The first character of a byte string, by the ABNF of RFC 3629. */
  function DecodeFirst(b: seq<byte>): (r: Option<Decoded>)
    ensures r.Some? ==> |r.value.rest| < |b|
  {
    if |b| >= 1 && b[0] <= 0x7F then Some(Decoded(b[0], b[1..]))
    else if |b| >= 2 && 0xC2 <= b[0] <= 0xDF && IsTail(b[1]) then
      Some(Decoded(Payload(b[0], 0xC0) * 0x40 + Payload(b[1], 0x80), b[2..]))
    else if |b| >= 3 && 0xE0 <= b[0] <= 0xEF && IsTail(b[1]) && IsTail(b[2])
            && (b[0] == 0xE0 ==> b[1] >= 0xA0) && (b[0] == 0xED ==> b[1] <= 0x9F) then
      Some(Decoded(Payload(b[0], 0xE0) * 0x1000 + Payload(b[1], 0x80) * 0x40 + Payload(b[2], 0x80), b[3..]))
    else if |b| >= 4 && 0xF0 <= b[0] <= 0xF4 && IsTail(b[1]) && IsTail(b[2]) && IsTail(b[3])
            && (b[0] == 0xF0 ==> b[1] >= 0x90) && (b[0] == 0xF4 ==> b[1] <= 0x8F) then
      Some(Decoded(Payload(b[0], 0xF0) * 0x4_0000 + Payload(b[1], 0x80) * 0x1000
                   + Payload(b[2], 0x80) * 0x40 + Payload(b[3], 0x80), b[4..]))
    else None
  }

  /** The characters of a byte string, if it is well formed. */
  function Decode(b: seq<byte>): Option<seq<scalar>>
    decreases |b|
  {
    if b == [] then Some([]) else
    match DecodeFirst(b)
    case None => None
    case Some(first) =>
      match Decode(first.rest)
      case None => None
      case Some(cs) => Some([first.code] + cs)
  }

  lemma DigitsOf(c: scalar)
    ensures c == c / 0x40 * 0x40 + c % 0x40
    ensures c / 0x40 == c / 0x1000 * 0x40 + c / 0x40 % 0x40
    ensures c / 0x1000 == c / 0x4_0000 * 0x40 + c / 0x1000 % 0x40
  {
  }

  lemma DecodeEncoded(c: scalar, rest: seq<byte>)
    ensures DecodeFirst(Encode(c) + rest) == Some(Decoded(c, rest))
  {
    DigitsOf(c);
    var b := Encode(c) + rest;
    assert b[|Encode(c)|..] == rest;
    assert forall i | 0 <= i < |Encode(c)| :: b[i] == Encode(c)[i];
  }

  /** Encoding is well formed and decodes to the characters. */
  lemma {:induction false} DecodeInvertsEncode(cs: seq<scalar>)
    ensures Decode(EncodeAll(cs)) == Some(cs)
  {
    hide Encode, DecodeFirst;
    if cs != [] {
      DecodeEncoded(cs[0], EncodeAll(cs[1..]));
      DecodeInvertsEncode(cs[1..]);
      assert cs == [cs[0]] + cs[1..];
    }
  }

  /** For every string and every limit that is not negative, the bytes are well-formed UTF-8. */
  lemma AlwaysWellFormed(s: seq<unit>, limit: nat)
    ensures Decode(Written(Codes(s, 0, None), if limit == 0 then Unlimited else Left(limit))).Some?
  {
    var cs := Codes(s, 0, None);
    if limit == 0 {
      WrittenUnlimited(cs);
      DecodeInvertsEncode(cs);
    } else {
      LimitCutsAtCharacters(cs, limit);
      DecodeInvertsEncode(cs[..Fitting(cs, limit)]);
    }
  }

  // ----- Which characters are written -----

  /**
   The characters of a UTF-16 string, unpaired surrogates replaced by U+FFFD (section 3.9 of the
   Unicode standard).
   */
  function Scalars(s: seq<unit>, i: nat): seq<scalar>
    requires i <= |s|
    decreases |s| - i
  {
    if i == |s| then []
    else if 0xD800 <= s[i] <= 0xDBFF && i + 1 < |s| && 0xDC00 <= s[i + 1] <= 0xDFFF then
      [0x1_0000 + (s[i] - 0xD800) * 0x400 + (s[i + 1] - 0xDC00)] + Scalars(s, i + 2)
    else if 0xD800 <= s[i] <= 0xDFFF then [0xFFFD] + Scalars(s, i + 1)
    else [s[i]] + Scalars(s, i + 1)
  }

  /** A pair is joined correctly when bit 16 of its payload is clear. */
  predicate JoinsWell(lead: unit) {
    IsLead(lead) ==> (lead - 0xD800) / 0x40 % 2 == 0
  }

  lemma JoinPairExact(lead: unit, trail: unit)
    requires IsLead(lead) && IsTrail(trail)
    ensures JoinPair(lead, trail) == PairBits(lead, trail) + 0x1_0000 <==> JoinsWell(lead)
  {
    var high, low := lead - 0xD800, trail - 0xDC00;
    assert (high * 0x400 + low) / 0x1_0000 == high / 0x40;
  }

  /** What a caller can check of a string: its pairs join well, and it does not end in two leads. */
  ghost predicate Convertible(s: seq<unit>, i: nat) {
    && (forall j | i <= j < |s| - 1 && IsLead(s[j]) && IsTrail(s[j + 1]) :: JoinsWell(s[j]))
    && !(|s| - 2 >= i && IsLead(s[|s| - 2]) && IsLead(s[|s| - 1]))
  }

  lemma {:induction false} CodesExact(s: seq<unit>, i: nat)
    requires i <= |s|
    ensures Codes(s, i, None) == Scalars(s, i) <==> Convertible(s, i)
    decreases |s| - i, 1
  {
    hide Convertible, Codes, Scalars;
    if i == |s| {
      NothingLeft(s);
    } else {
      FirstUnfolds(s, i);
      if IsLead(s[i]) && i + 1 < |s| {
        PendingExact(s, i + 1);
      } else {
        CodesExact(s, i + 1);
        SkipOne(s, i);
        SameHead(if IsLead(s[i]) || IsTrail(s[i]) then REPLACEMENT else s[i], Codes(s, i + 1, None), Scalars(s, i + 1));
      }
    }
  }

  lemma NothingLeft(s: seq<unit>)
    ensures Codes(s, |s|, None) == Scalars(s, |s|) == [] && Convertible(s, |s|)
  {
  }

  lemma FirstUnfolds(s: seq<unit>, i: nat)
    requires i < |s|
    ensures if IsLead(s[i]) && i + 1 < |s| then
              Codes(s, i, None) == Codes(s, i + 1, Some(s[i]))
            else
              var head: scalar := if IsLead(s[i]) || IsTrail(s[i]) then REPLACEMENT else s[i];
              && Codes(s, i, None) == [head] + Codes(s, i + 1, None)
              && Scalars(s, i) == [head] + Scalars(s, i + 1)
  {
    assert [] + ([s[i]] + Codes(s, i + 1, None)) == [s[i]] + Codes(s, i + 1, None);
  }

  lemma SameHead(c: scalar, a: seq<scalar>, b: seq<scalar>)
    ensures [c] + a == [c] + b <==> a == b
  {
    assert ([c] + a)[1..] == a && ([c] + b)[1..] == b;
  }

  /** A unit that starts no pair and no final run of leads does not matter to the condition. */
  lemma SkipOne(s: seq<unit>, i: nat)
    requires i < |s|
    requires !(IsLead(s[i]) && i + 1 < |s| && (IsTrail(s[i + 1]) || (IsLead(s[i + 1]) && i + 2 == |s|)))
    ensures Convertible(s, i) <==> Convertible(s, i + 1)
  {
  }

  /** With the lead at `i - 1` pending, the characters written are those from `i - 1` on. */
  lemma {:induction false} PendingExact(s: seq<unit>, i: nat)
    requires 0 < i < |s| && IsLead(s[i - 1])
    ensures Codes(s, i, Some(s[i - 1])) == Scalars(s, i - 1) <==> Convertible(s, i - 1)
    decreases |s| - i, 0
  {
    hide Convertible, JoinPair, PairBits, Codes, Scalars;
    var lead, c := s[i - 1], s[i];
    PendingUnfolds(s, i);
    if IsLead(c) {
      if i + 1 == |s| {
        EndsInTwoLeads(s);
        LastLead(s);
      } else {
        PendingExact(s, i + 1);
        SkipOne(s, i - 1);
        SameHead(REPLACEMENT, Codes(s, i + 1, Some(c)), Scalars(s, i));
      }
    } else if IsTrail(c) {
      CodesExact(s, i + 1);
      JoinPairExact(lead, c);
      SkipPair(s, i - 1);
      TwoHeads(JoinPair(lead, c), PairBits(lead, c) + 0x1_0000, Codes(s, i + 1, None), Scalars(s, i + 1));
    } else {
      CodesExact(s, i + 1);
      SkipOne(s, i - 1);
      SkipOne(s, i);
      var x, y := Codes(s, i + 1, None), Scalars(s, i + 1);
      SameHead(c, x, y);
      SameHead(REPLACEMENT, [c] + x, [c] + y);
    }
  }

  lemma PendingUnfolds(s: seq<unit>, i: nat)
    requires 0 < i < |s| && IsLead(s[i - 1])
    ensures var lead, c := s[i - 1], s[i];
            if IsLead(c) then
              && Codes(s, i, Some(lead)) == [REPLACEMENT] + Codes(s, i + 1, Some(c))
              && Scalars(s, i - 1) == [REPLACEMENT] + Scalars(s, i)
            else if IsTrail(c) then
              && Codes(s, i, Some(lead)) == [JoinPair(lead, c)] + Codes(s, i + 1, None)
              && Scalars(s, i - 1) == [PairBits(lead, c) + 0x1_0000] + Scalars(s, i + 1)
            else
              && Codes(s, i, Some(lead)) == [REPLACEMENT] + ([c] + Codes(s, i + 1, None))
              && Scalars(s, i - 1) == [REPLACEMENT] + ([c] + Scalars(s, i + 1))
  {
    hide JoinPair;
  }

  lemma LastLead(s: seq<unit>)
    requires s != [] && IsLead(s[|s| - 1])
    ensures Codes(s, |s|, Some(s[|s| - 1])) == [] && |Scalars(s, |s| - 1)| == 1
  {
  }

  lemma TwoHeads(a: scalar, b: scalar, x: seq<scalar>, y: seq<scalar>)
    ensures [a] + x == [b] + y <==> a == b && x == y
  {
    assert ([a] + x)[0] == a && ([b] + y)[0] == b && ([a] + x)[1..] == x && ([b] + y)[1..] == y;
  }

  lemma EndsInTwoLeads(s: seq<unit>)
    requires |s| >= 2 && IsLead(s[|s| - 2]) && IsLead(s[|s| - 1])
    ensures !Convertible(s, |s| - 2)
  {
  }

  lemma SkipPair(s: seq<unit>, i: nat)
    requires i + 1 < |s| && IsLead(s[i]) && IsTrail(s[i + 1])
    ensures Convertible(s, i) <==> JoinsWell(s[i]) && Convertible(s, i + 2)
  {
    hide JoinsWell;
    if JoinsWell(s[i]) && Convertible(s, i + 2) {
      forall j | i <= j < |s| - 1 && IsLead(s[j]) && IsTrail(s[j + 1]) ensures JoinsWell(s[j]) {
        assert j == i || j >= i + 2;
      }
    }
  }

  /**
   Decoding the bytes of a string gives its characters back if and only if no surrogate pair
   has bit 16 of its payload set and the string does not end in two lead surrogates.
   */
  lemma ConversionIsExact(s: seq<unit>)
    ensures Decode(Written(Codes(s, 0, None), Unlimited)) == Some(Scalars(s, 0)) <==> Convertible(s, 0)
  {
    WrittenUnlimited(Codes(s, 0, None));
    DecodeInvertsEncode(Codes(s, 0, None));
    CodesExact(s, 0);
  }

  /** U+20000 comes out as U+10000, and of two final lead surrogates only one is replaced. */
  lemma FailingConversions()
    ensures Codes([0xD840, 0xDC00], 0, None) == [0x1_0000] && Scalars([0xD840, 0xDC00], 0) == [0x2_0000]
    ensures Codes([0xD800, 0xD800], 0, None) == [REPLACEMENT]
            && Scalars([0xD800, 0xD800], 0) == [REPLACEMENT, REPLACEMENT]
  {
    var astral: seq<unit>, leads: seq<unit> := [0xD840, 0xDC00], [0xD800, 0xD800];
    assert Codes(astral, 1, Some(0xD840)) == [0x1_0000] + Codes(astral, 2, None);
    assert Codes(leads, 1, Some(0xD800)) == [REPLACEMENT] + Codes(leads, 2, Some(0xD800));
    assert Scalars(leads, 1) == [REPLACEMENT] + Scalars(leads, 2);
  }
}
