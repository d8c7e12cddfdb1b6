/**
  The canonical identity payload of a release: sorted-key, compact, ASCII-escaped
  JSON over the identity scheme, source, family, revision and role/digest pairs,
  and the decoder that reads it back.
 */
module IdentityPayload {
  import opened Prelude
  import opened Strings

  /** The inputs of the identity hash; `pairs` already in canonical order. */
  datatype Payload = Payload(
    scheme: Str, source: Str, family: Str, revision: Option<Str>, pairs: seq<(Str, Str)>)

  // ---------------------------------------------------------------- encoding

  function HexDigit(d: int): CodePoint
    requires 0 <= d < 16
  {
    if d < 10 then '0' as int + d else 'a' as int + (d - 10)
  }

  function HexEscape(unit: int): Str
    requires 0 <= unit < 0x10000
  {
    Ascii("\\u") + [HexDigit(unit / 4096), HexDigit(unit / 256 % 16), HexDigit(unit / 16 % 16), HexDigit(unit % 16)]
  }

  function EscapeChar(c: CodePoint): Str {
    if c == 0x22 || c == 0x5C then [0x5C, c]
    else if c == 0x08 then Ascii("\\b")
    else if c == 0x09 then Ascii("\\t")
    else if c == 0x0A then Ascii("\\n")
    else if c == 0x0C then Ascii("\\f")
    else if c == 0x0D then Ascii("\\r")
    else if 0x20 <= c <= 0x7E then [c]
    else if c < 0x10000 then HexEscape(c)
    else HexEscape(0xD800 + (c - 0x10000) / 1024) + HexEscape(0xDC00 + (c - 0x10000) % 1024)
  }

  /** The text, escaped, with its closing quote and whatever follows it. */
  function EscapeThen(s: Str, rest: Str): Str {
    if s == [] then [0x22] + rest else EscapeChar(s[0]) + EscapeThen(s[1..], rest)
  }

  function QuoteThen(s: Str, rest: Str): Str { [0x22] + EscapeThen(s, rest) }

  function ArtifactThen(pair: (Str, Str), rest: Str): Str {
    Ascii("{\"role\":") + QuoteThen(pair.0, Ascii(",\"sha256\":") + QuoteThen(pair.1, Ascii("}") + rest))
  }

  /** The elements of a non-empty JSON array, its closing bracket and the rest. */
  function ArtifactsThen(pairs: seq<(Str, Str)>, rest: Str): Str
    requires pairs != []
  {
    ArtifactThen(pairs[0], if |pairs| == 1 then [0x5D] + rest else [0x2C] + ArtifactsThen(pairs[1..], rest))
  }

  function RevisionThen(revision: Option<Str>, rest: Str): Str {
    if revision.None? then Ascii("null") + rest else QuoteThen(revision.value, rest)
  }

  /** Everything after the array. */
  function TailThen(p: Payload): Str {
    Ascii(",\"identity_scheme\":") + QuoteThen(p.scheme,
      Ascii(",\"release_family_key\":") + QuoteThen(p.family,
        Ascii(",\"revision\":") + RevisionThen(p.revision,
          Ascii(",\"source_code\":") + QuoteThen(p.source, Ascii("}")))))
  }

  /** The exact text handed to SHA-256. */
  function Encode(p: Payload): Str
    requires p.pairs != []
  {
    Ascii("{\"artifacts\":[") + ArtifactsThen(p.pairs, TailThen(p))
  }

  // ---------------------------------------------------------------- decoding

  datatype Read<T> = Bad | Got(item: T, rest: Str)

  function Expect(t: Str, literal: Str): Option<Str> {
    if literal <= t then Some(t[|literal|..]) else None
  }

  function HexValue(c: int): Option<int> {
    if IsAsciiDigit(c) then Some(c - '0' as int)
    else if 'a' as int <= c <= 'f' as int then Some(c - 'a' as int + 10)
    else None
  }

  /** One character or escape of a JSON string, as a UTF-16 code unit. */
  function ReadUnit(t: Str): (r: Read<CodePoint>)
    ensures r.Got? ==> |r.rest| < |t|
  {
    if t == [] || t[0] < 0x20 || t[0] == 0x22 then Bad
    else if t[0] != 0x5C then Got(t[0], t[1..])
    else if |t| < 2 then Bad
    else if t[1] == 0x22 || t[1] == 0x5C || t[1] == 0x2F then Got(t[1], t[2..])
    else if t[1] == 'b' as int then Got(0x08, t[2..])
    else if t[1] == 't' as int then Got(0x09, t[2..])
    else if t[1] == 'n' as int then Got(0x0A, t[2..])
    else if t[1] == 'f' as int then Got(0x0C, t[2..])
    else if t[1] == 'r' as int then Got(0x0D, t[2..])
    else if t[1] != 'u' as int || |t| < 6 then Bad
    else
      match (HexValue(t[2]), HexValue(t[3]), HexValue(t[4]), HexValue(t[5]))
      case (Some(a), Some(b), Some(c), Some(d)) => Got(((a * 16 + b) * 16 + c) * 16 + d, t[6..])
      case _ => Bad
  }

  function ReadUnits(t: Str): (r: Read<Str>)
    ensures r.Got? ==> |r.rest| < |t|
    decreases |t|
  {
    if t != [] && t[0] == 0x22 then Got([], t[1..])
    else
      match ReadUnit(t)
      case Bad => Bad
      case Got(unit, rest) =>
        match ReadUnits(rest)
        case Bad => Bad
        case Got(units, after) => Got([unit] + units, after)
  }

  predicate IsHigh(c: int) { 0xD800 <= c < 0xDC00 }

  predicate IsLow(c: int) { 0xDC00 <= c < 0xE000 }

  /** The character a surrogate pair spells. */
  function Fused(high: int, low: int): CodePoint
    requires IsHigh(high) && IsLow(low)
  {
    0x10000 + (high - 0xD800) * 1024 + (low - 0xDC00)
  }

  /** Section 7 of RFC 8259: an escaped surrogate pair stands for one character. */
  function Combine(units: Str): Str {
    if |units| < 2 then units
    else if IsHigh(units[0]) && IsLow(units[1]) then
      [Fused(units[0], units[1])] + Combine(units[2..])
    else [units[0]] + Combine(units[1..])
  }

  function ReadString(t: Str): (r: Read<Str>)
    ensures r.Got? ==> |r.rest| < |t|
  {
    if t == [] || t[0] != 0x22 then Bad
    else
      match ReadUnits(t[1..])
      case Bad => Bad
      case Got(units, rest) => Got(Combine(units), rest)
  }

  function ReadField(t: Str, key: Str): (r: Read<Str>)
    ensures r.Got? ==> |r.rest| < |t|
  {
    match Expect(t, key)
    case None => Bad
    case Some(rest) => ReadString(rest)
  }

  function ReadArtifact(t: Str): (r: Read<(Str, Str)>)
    ensures r.Got? ==> |r.rest| < |t|
  {
    match ReadField(t, Ascii("{\"role\":"))
    case Bad => Bad
    case Got(role, t1) =>
      match ReadField(t1, Ascii(",\"sha256\":"))
      case Bad => Bad
      case Got(digest, t2) =>
        match Expect(t2, Ascii("}"))
        case None => Bad
        case Some(rest) => Got((role, digest), rest)
  }

  function ReadArtifacts(t: Str): Read<seq<(Str, Str)>>
    decreases |t|
  {
    match ReadArtifact(t)
    case Bad => Bad
    case Got(pair, t1) =>
      if t1 == [] then Bad
      else if t1[0] == 0x5D then Got([pair], t1[1..])
      else if t1[0] != 0x2C then Bad
      else
        match ReadArtifacts(t1[1..])
        case Bad => Bad
        case Got(more, rest) => Got([pair] + more, rest)
  }

  function ReadRevision(t: Str): Read<Option<Str>> {
    match Expect(t, Ascii("null"))
    case Some(rest) => Got(None, rest)
    case None =>
      match ReadString(t)
      case Bad => Bad
      case Got(s, rest) => Got(Some(s), rest)
  }

  function DecodeTail(pairs: seq<(Str, Str)>, t: Str): Option<Payload> {
    match ReadField(t, Ascii(",\"identity_scheme\":"))
    case Bad => None
    case Got(scheme, t1) =>
      match ReadField(t1, Ascii(",\"release_family_key\":"))
      case Bad => None
      case Got(family, t2) =>
        match Expect(t2, Ascii(",\"revision\":"))
        case None => None
        case Some(t3) =>
          match ReadRevision(t3)
          case Bad => None
          case Got(revision, t4) =>
            match ReadField(t4, Ascii(",\"source_code\":"))
            case Bad => None
            case Got(source, t5) =>
              if t5 == Ascii("}") then Some(Payload(scheme, source, family, revision, pairs)) else None
  }

  /** Reads a canonical payload back; the partner of `Encode`. */
  function Decode(t: Str): Option<Payload> {
    match Expect(t, Ascii("{\"artifacts\":["))
    case None => None
    case Some(t1) =>
      match ReadArtifacts(t1)
      case Bad => None
      case Got(pairs, t2) => DecodeTail(pairs, t2)
  }

  // ---------------------------------------------------------------- round trip

  /** The UTF-16 code units of one code point, and of a Python string. */
  function Units(c: CodePoint): Str {
    if c < 0x10000 then [c] else [0xD800 + (c - 0x10000) / 1024, 0xDC00 + (c - 0x10000) % 1024]
  }

  function Utf16(s: Str): Str {
    if s == [] then [] else Units(s[0]) + Utf16(s[1..])
  }

  /** No lone high surrogate directly followed by a lone low one. */
  predicate NoSplitPair(s: Str) {
    forall i :: 0 <= i < |s| - 1 ==> !(IsHigh(s[i]) && IsLow(s[i + 1]))
  }

  lemma {:induction false} ExpectReads(literal: Str, rest: Str)
    ensures Expect(literal + rest, literal) == Some(rest)
  {
    assert (literal + rest)[|literal|..] == rest;
  }

  lemma {:induction false} HexDigits(unit: int)
    requires 0 <= unit < 0x10000
    ensures 0 <= unit / 4096 < 16
    ensures ((unit / 4096 * 16 + unit / 256 % 16) * 16 + unit / 16 % 16) * 16 + unit % 16 == unit
  {
    assert unit / 256 == (unit / 16) / 16;
    assert unit / 4096 == (unit / 256) / 16;
  }

  lemma {:induction false} HexValueOf(h: int)
    requires 0 <= h < 16
    ensures HexValue(HexDigit(h)) == Some(h)
  {
  }

  lemma {:induction false} ReadFourDigits(t: Str, a: int, b: int, c: int, d: int)
    requires |t| >= 6 && t[0] == 0x5C && t[1] == 'u' as int
    requires HexValue(t[2]) == Some(a) && HexValue(t[3]) == Some(b) && HexValue(t[4]) == Some(c)
      && HexValue(t[5]) == Some(d)
    ensures ReadUnit(t) == Got(((a * 16 + b) * 16 + c) * 16 + d, t[6..])
  {
  }

  lemma {:induction false} ReadHexEscape(unit: int, rest: Str)
    requires 0 <= unit < 0x10000
    ensures ReadUnit(HexEscape(unit) + rest) == Got(unit, rest)
  {
    var a, b, c, d := unit / 4096, unit / 256 % 16, unit / 16 % 16, unit % 16;
    HexDigits(unit);
    HexValueOf(a); HexValueOf(b); HexValueOf(c); HexValueOf(d);
    var t := HexEscape(unit) + rest;
    assert t == [0x5C, 'u' as int, HexDigit(a), HexDigit(b), HexDigit(c), HexDigit(d)] + rest;
    assert t[6..] == rest;
    ReadFourDigits(t, a, b, c, d);
  }

  lemma {:induction false} EscapeIsOneUnit(c: CodePoint, rest: Str)
    requires c < 0x10000
    ensures EscapeChar(c)[0] != 0x22
    ensures ReadUnit(EscapeChar(c) + rest) == Got(c, rest)
  {
    var t := EscapeChar(c) + rest;
    if c == 0x22 || c == 0x5C || 0x08 <= c <= 0x0A || c == 0x0C || c == 0x0D {
      assert t[2..] == rest;
    } else if 0x20 <= c <= 0x7E {
      assert t[1..] == rest;
    } else {
      ReadHexEscape(c, rest);
    }
  }

  lemma {:induction false} ReadMore(t: Str, unit: CodePoint, rest: Str)
    requires t != [] && t[0] != 0x22 && ReadUnit(t) == Got(unit, rest) && ReadUnits(rest).Got?
    ensures ReadUnits(t) == Got([unit] + ReadUnits(rest).item, ReadUnits(rest).rest)
  {
  }

  lemma {:induction false} EscapeStepBmp(c: CodePoint, more: Str)
    requires c < 0x10000 && ReadUnits(more).Got?
    ensures ReadUnits(EscapeChar(c) + more) == Got([c] + ReadUnits(more).item, ReadUnits(more).rest)
  {
    EscapeIsOneUnit(c, more);
    ReadMore(EscapeChar(c) + more, c, more);
  }

  lemma {:induction false} HexStep(unit: int, more: Str)
    requires 0 <= unit < 0x10000 && ReadUnits(more).Got?
    ensures ReadUnits(HexEscape(unit) + more) == Got([unit] + ReadUnits(more).item, ReadUnits(more).rest)
  {
    ReadHexEscape(unit, more);
    ReadMore(HexEscape(unit) + more, unit, more);
  }

  lemma {:induction false} TwoHexSteps(high: int, low: int, more: Str)
    requires 0 <= high < 0x10000 && 0 <= low < 0x10000 && ReadUnits(more).Got?
    ensures ReadUnits(HexEscape(high) + HexEscape(low) + more)
         == Got([high, low] + ReadUnits(more).item, ReadUnits(more).rest)
  {
    HexStep(low, more);
    HexStep(high, HexEscape(low) + more);
    Assoc(HexEscape(high), HexEscape(low), more);
    Assoc([high], [low], ReadUnits(more).item);
    assert [high] + [low] == [high, low];
  }

  /** Reading over one escaped character yields its code unit or its surrogate pair. */
  lemma {:induction false} EscapeStep(c: CodePoint, more: Str)
    requires ReadUnits(more).Got?
    ensures ReadUnits(EscapeChar(c) + more) == Got(Units(c) + ReadUnits(more).item, ReadUnits(more).rest)
  {
    if c >= 0x10000 {
      TwoHexSteps(0xD800 + (c - 0x10000) / 1024, 0xDC00 + (c - 0x10000) % 1024, more);
    } else {
      EscapeStepBmp(c, more);
    }
  }

  lemma {:induction false} EscapeReadsBack(s: Str, rest: Str)
    ensures ReadUnits(EscapeThen(s, rest)) == Got(Utf16(s), rest)
  {
    if s == [] {
      assert ([0x22] + rest)[1..] == rest;
    } else {
      EscapeReadsBack(s[1..], rest);
      EscapeStep(s[0], EscapeThen(s[1..], rest));
    }
  }

  /** Pairing the code units restores the text exactly when no split pair was there to fuse. */
  lemma {:induction false} CombineUndoesUtf16(s: Str)
    ensures Combine(Utf16(s)) == s <==> NoSplitPair(s)
  {
    if NoSplitPair(s) { CombineRestores(s); }
    CombineHasNoSplitPair(Utf16(s));
  }

  lemma {:induction false} CombineRestores(s: Str)
    requires NoSplitPair(s)
    ensures Combine(Utf16(s)) == s
  {
    if s != [] {
      CombineRestores(s[1..]);
      var units := Utf16(s);
      assert s == [s[0]] + s[1..];
      if s[0] >= 0x10000 {
        assert units[2..] == Utf16(s[1..]);
      } else {
        assert units[1..] == Utf16(s[1..]);
        if |s| > 1 { assert s[1] < 0x10000 ==> units[1] == s[1]; }
      }
    }
  }

  lemma {:induction false} CombineHasNoSplitPair(units: Str)
    ensures NoSplitPair(Combine(units))
    ensures units != [] ==> Combine(units) != [] && (IsLow(Combine(units)[0]) ==> IsLow(units[0]))
    decreases |units|
  {
    if |units| >= 2 {
      if IsHigh(units[0]) && IsLow(units[1]) {
        CombineHasNoSplitPair(units[2..]);
      } else {
        CombineHasNoSplitPair(units[1..]);
      }
    }
  }

  lemma {:induction false} QuoteReadsBack(s: Str, rest: Str)
    ensures ReadString(QuoteThen(s, rest)) == Got(Combine(Utf16(s)), rest)
  {
    EscapeReadsBack(s, rest);
    assert QuoteThen(s, rest)[1..] == EscapeThen(s, rest);
  }

  lemma {:induction false} FieldReadsBack(key: Str, s: Str, rest: Str)
    ensures ReadField(key + QuoteThen(s, rest), key) == Got(Combine(Utf16(s)), rest)
  {
    ExpectReads(key, QuoteThen(s, rest));
    QuoteReadsBack(s, rest);
  }

  function FusePair(pair: (Str, Str)): (Str, Str) { (Combine(Utf16(pair.0)), Combine(Utf16(pair.1))) }

  function FusePairs(pairs: seq<(Str, Str)>): seq<(Str, Str)> {
    seq(|pairs|, i requires 0 <= i < |pairs| => FusePair(pairs[i]))
  }

  /** The payload with every split surrogate pair fused into the character it spells. */
  function Fuse(p: Payload): Payload {
    Payload(
      Combine(Utf16(p.scheme)), Combine(Utf16(p.source)), Combine(Utf16(p.family)),
      if p.revision.None? then None else Some(Combine(Utf16(p.revision.value))), FusePairs(p.pairs))
  }

  lemma {:induction false} ArtifactReadsBack(pair: (Str, Str), rest: Str)
    ensures ReadArtifact(ArtifactThen(pair, rest)) == Got(FusePair(pair), rest)
  {
    var t2 := Ascii("}") + rest;
    var t1 := Ascii(",\"sha256\":") + QuoteThen(pair.1, t2);
    FieldReadsBack(Ascii("{\"role\":"), pair.0, t1);
    FieldReadsBack(Ascii(",\"sha256\":"), pair.1, t2);
    ExpectReads(Ascii("}"), rest);
  }

  lemma {:induction false} ReadArtifactsStep(t: Str, pair: (Str, Str), t1: Str)
    requires ReadArtifact(t) == Got(pair, t1) && t1 != []
    ensures t1[0] == 0x5D ==> ReadArtifacts(t) == Got([pair], t1[1..])
    ensures t1[0] == 0x2C && ReadArtifacts(t1[1..]).Got? ==>
      ReadArtifacts(t) == Got([pair] + ReadArtifacts(t1[1..]).item, ReadArtifacts(t1[1..]).rest)
  {
  }

  /** What follows the first element of the artifact array. */
  function AfterFirst(pairs: seq<(Str, Str)>, rest: Str): Str
    requires pairs != []
  {
    if |pairs| == 1 then [0x5D] + rest else [0x2C] + ArtifactsThen(pairs[1..], rest)
  }

  lemma {:induction false} FirstArtifactReadsBack(pairs: seq<(Str, Str)>, rest: Str)
    requires pairs != []
    ensures ReadArtifact(ArtifactsThen(pairs, rest)) == Got(FusePair(pairs[0]), AfterFirst(pairs, rest))
  {
    ArtifactReadsBack(pairs[0], AfterFirst(pairs, rest));
  }

  lemma {:induction false} FusePairsCons(pairs: seq<(Str, Str)>)
    requires pairs != []
    ensures FusePairs(pairs) == [FusePair(pairs[0])] + FusePairs(pairs[1..])
  {
  }

  lemma {:induction false} ArtifactsReadBack(pairs: seq<(Str, Str)>, rest: Str)
    requires pairs != []
    ensures ReadArtifacts(ArtifactsThen(pairs, rest)) == Got(FusePairs(pairs), rest)
  {
    var after := AfterFirst(pairs, rest);
    FirstArtifactReadsBack(pairs, rest);
    FusePairsCons(pairs);
    if |pairs| == 1 {
      assert after[1..] == rest;
      assert FusePairs(pairs) == [FusePair(pairs[0])];
    } else {
      ArtifactsReadBack(pairs[1..], rest);
      assert after[1..] == ArtifactsThen(pairs[1..], rest);
    }
    ReadArtifactsStep(ArtifactsThen(pairs, rest), FusePair(pairs[0]), after);
  }

  lemma {:induction false} RevisionReadsBack(revision: Option<Str>, rest: Str)
    ensures ReadRevision(RevisionThen(revision, rest))
         == Got(if revision.None? then None else Some(Combine(Utf16(revision.value))), rest)
  {
    if revision.None? {
      ExpectReads(Ascii("null"), rest);
    } else {
      QuoteReadsBack(revision.value, rest);
      assert QuoteThen(revision.value, rest)[0] == 0x22 != Ascii("null")[0];
    }
  }

  lemma {:induction false} TailReadsBack(p: Payload, pairs: seq<(Str, Str)>)
    ensures DecodeTail(pairs, TailThen(p)) == Some(Fuse(p).(pairs := pairs))
  {
    var t5 := Ascii("}");
    var t4 := Ascii(",\"source_code\":") + QuoteThen(p.source, t5);
    var t3 := RevisionThen(p.revision, t4);
    var t2 := Ascii(",\"revision\":") + t3;
    var t1 := Ascii(",\"release_family_key\":") + QuoteThen(p.family, t2);
    FieldReadsBack(Ascii(",\"identity_scheme\":"), p.scheme, t1);
    FieldReadsBack(Ascii(",\"release_family_key\":"), p.family, t2);
    ExpectReads(Ascii(",\"revision\":"), t3);
    RevisionReadsBack(p.revision, t4);
    FieldReadsBack(Ascii(",\"source_code\":"), p.source, t5);
  }

  /** Decoding always succeeds on an encoded payload and yields it with split pairs fused. */
  lemma {:induction false} DecodeEncode(p: Payload)
    requires p.pairs != []
    ensures Decode(Encode(p)) == Some(Fuse(p))
  {
    ExpectReads(Ascii("{\"artifacts\":["), ArtifactsThen(p.pairs, TailThen(p)));
    ArtifactsReadBack(p.pairs, TailThen(p));
    TailReadsBack(p, FusePairs(p.pairs));
  }

  // ---------------------------------------------------------------- the identity hash

  datatype IdentityError = BadScheme | BadSource | BadFamily | BadRevision | BadDigest | BadRoles

  function Roles(pairs: seq<(Str, Str)>): (r: seq<Str>)
    ensures |r| == |pairs| && forall i :: 0 <= i < |pairs| ==> r[i] == pairs[i].0
  {
    seq(|pairs|, i requires 0 <= i < |pairs| => pairs[i].0)
  }

  /** At least one role, every role an identifier, roles unique and in order. */
  predicate SortedUniqueRoles(roles: seq<Str>) {
    roles != [] && (forall r :: r in roles ==> IsIdentifier(r)) && StrictlySorted(roles)
  }

  predicate ValidPayload(p: Payload) {
    && IsIdentityScheme(p.scheme) && IsIdentifier(p.source) && IsIdentifier(p.family)
    && (p.revision.Some? ==> NonBlank(p.revision.value))
    && (forall pair :: pair in p.pairs ==> IsSha256(pair.1))
    && SortedUniqueRoles(Roles(p.pairs))
  }

  function Canonical(p: Payload): Payload { p.(pairs := Sort(p.pairs, PairLe)) }

  /** The release identity: sort the pairs, validate every input in turn, hash the canonical text. */
  function IdentityHash(sha: Str -> Sha256Hex, p: Payload): Result<Sha256Hex, IdentityError> {
    var c := Canonical(p);
    if !IsIdentityScheme(c.scheme) then Failure(BadScheme)
    else if !IsIdentifier(c.source) then Failure(BadSource)
    else if !IsIdentifier(c.family) then Failure(BadFamily)
    else if c.revision.Some? && !NonBlank(c.revision.value) then Failure(BadRevision)
    else if exists pair :: pair in c.pairs && !IsSha256(pair.1) then Failure(BadDigest)
    else if !SortedUniqueRoles(Roles(c.pairs)) then Failure(BadRoles)
    else Success(sha(Encode(c)))
  }

  lemma {:induction false} IdentityHashAccepts(sha: Str -> Sha256Hex, p: Payload)
    ensures IdentityHash(sha, p).Success? <==> ValidPayload(Canonical(p))
    ensures IdentityHash(sha, p).Success? ==>
      Canonical(p).pairs != [] && IdentityHash(sha, p).value == sha(Encode(Canonical(p)))
  {
    if ValidPayload(Canonical(p)) || IdentityHash(sha, p).Success? {
      assert |Roles(Canonical(p).pairs)| == |Canonical(p).pairs|;
    }
  }

  /** Identity does not depend on the order in which the pairs are supplied. */
  lemma {:induction false} IdentityHashOrderIndependent(sha: Str -> Sha256Hex, p: Payload, pairs: seq<(Str, Str)>)
    requires multiset(pairs) == multiset(p.pairs)
    ensures IdentityHash(sha, p.(pairs := pairs)) == IdentityHash(sha, p)
  {
    PairLeIsTotalOrder();
    SortSorts(pairs, PairLe); SortSorts(p.pairs, PairLe);
    SortKeeps(pairs, PairLe); SortKeeps(p.pairs, PairLe);
    SortedUnique(Sort(pairs, PairLe), Sort(p.pairs, PairLe), PairLe);
  }

  /** Pairs whose roles are already strictly sorted are already canonical. */
  lemma {:induction false} StrictRolesAreCanonical(p: Payload)
    requires StrictlySorted(Roles(p.pairs))
    ensures Canonical(p) == p
  {
    forall i, j | 0 <= i < j < |p.pairs| ensures PairLe(p.pairs[i], p.pairs[j]) {
      assert StrLt(Roles(p.pairs)[i], Roles(p.pairs)[j]);
    }
    SortFixed(p.pairs, PairLe);
  }

  // ---------------------------------------------------------------- injectivity

  /** The payloads whose canonical text can be read back: the revision holds no split surrogate pair. */
  predicate Readable(p: Payload) { p.revision.Some? ==> NoSplitPair(p.revision.value) }

  lemma {:induction false} AsciiIsUnfused(s: Str)
    requires IsIdentifier(s) || IsIdentityScheme(s) || IsSha256(s)
    ensures Combine(Utf16(s)) == s
  {
    forall i | 0 <= i < |s| ensures s[i] < 0x80 {
      if IsIdentifier(s) { assert SnakeAt(s, i, false); }
      else if IsIdentityScheme(s) { assert SnakeAt(s, i, true); }
      else { assert IsLowerHex(s[i]); }
    }
    CombineRestores(s);
  }

  lemma {:induction false} ValidPairsAreUnfused(p: Payload)
    requires ValidPayload(p)
    ensures FusePairs(p.pairs) == p.pairs
  {
    forall i | 0 <= i < |p.pairs| ensures FusePair(p.pairs[i]) == p.pairs[i] {
      assert p.pairs[i] in p.pairs && Roles(p.pairs)[i] in Roles(p.pairs);
      assert IsIdentifier(p.pairs[i].0) && IsSha256(p.pairs[i].1);
      AsciiIsUnfused(p.pairs[i].0);
      AsciiIsUnfused(p.pairs[i].1);
    }
  }

  lemma {:induction false} FuseFixed(p: Payload)
    requires ValidPayload(p)
    ensures Fuse(p) == p <==> Readable(p)
  {
    AsciiIsUnfused(p.scheme); AsciiIsUnfused(p.source); AsciiIsUnfused(p.family);
    ValidPairsAreUnfused(p);
    if p.revision.Some? { CombineUndoesUtf16(p.revision.value); }
  }

  /**
    The round trip of every validated payload: its canonical text decodes back to it
    exactly when its revision holds no split surrogate pair.
   */
  lemma {:induction false} RoundTrip(p: Payload)
    requires ValidPayload(p)
    ensures p.pairs != []
    ensures Decode(Encode(p)) == Some(p) <==> Readable(p)
  {
    assert |Roles(p.pairs)| == |p.pairs|;
    FuseFixed(p);
    DecodeEncode(p);
  }

  /** On readable payloads the canonical text determines every field. */
  lemma {:induction false} EncodeInjective(p: Payload, q: Payload)
    requires ValidPayload(p) && ValidPayload(q) && Readable(p) && Readable(q)
    requires p.pairs != [] && q.pairs != [] && Encode(p) == Encode(q)
    ensures p == q
  {
    RoundTrip(p);
    RoundTrip(q);
  }

  // ---------------------------------------------------------------- which payloads share a text

  lemma {:induction false} EscapeOne(c: CodePoint, s: Str, rest: Str)
    ensures EscapeThen([c] + s, rest) == EscapeChar(c) + EscapeThen(s, rest)
  {
    assert ([c] + s)[1..] == s;
  }

  lemma {:induction false} FusedEscapes(high: int, low: int)
    requires IsHigh(high) && IsLow(low)
    ensures EscapeChar(Fused(high, low)) == EscapeChar(high) + EscapeChar(low)
  {
    FusedSplits(high, low);
    SurrogateIsHex(high);
    SurrogateIsHex(low);
    AstralIsHex(Fused(high, low));
  }

  lemma {:induction false} FusedSplits(high: int, low: int)
    requires IsHigh(high) && IsLow(low)
    ensures (Fused(high, low) - 0x10000) / 1024 == high - 0xD800
    ensures (Fused(high, low) - 0x10000) % 1024 == low - 0xDC00
  {
    assert Fused(high, low) - 0x10000 == 1024 * (high - 0xD800) + (low - 0xDC00);
  }

  lemma {:induction false} SurrogateIsHex(c: CodePoint)
    requires 0xD800 <= c < 0xE000
    ensures EscapeChar(c) == HexEscape(c)
  {
  }

  lemma {:induction false} AstralIsHex(c: CodePoint)
    requires c >= 0x10000
    ensures EscapeChar(c) == HexEscape(0xD800 + (c - 0x10000) / 1024) + HexEscape(0xDC00 + (c - 0x10000) % 1024)
  {
  }

  /** A surrogate pair escapes as the character it spells. */
  lemma {:induction false} PairEscapes(high: int, low: int, s: Str, rest: Str)
    requires IsHigh(high) && IsLow(low)
    ensures EscapeThen([high, low] + s, rest) == EscapeChar(Fused(high, low)) + EscapeThen(s, rest)
  {
    FusedEscapes(high, low);
    EscapeTwo(high, low, s, rest);
  }

  lemma {:induction false} EscapeTwo(c: CodePoint, d: CodePoint, s: Str, rest: Str)
    ensures EscapeThen([c, d] + s, rest) == EscapeChar(c) + EscapeChar(d) + EscapeThen(s, rest)
  {
    assert [c, d] + s == [c] + ([d] + s);
    EscapeOne(c, [d] + s, rest);
    EscapeOne(d, s, rest);
    Assoc(EscapeChar(c), EscapeChar(d), EscapeThen(s, rest));
  }

  lemma {:induction false} UnitsEscapeAlike(c: CodePoint, s: Str, rest: Str)
    ensures EscapeThen(Units(c) + s, rest) == EscapeChar(c) + EscapeThen(s, rest)
  {
    if c < 0x10000 {
      EscapeOne(c, s, rest);
    } else {
      PairEscapes(0xD800 + (c - 0x10000) / 1024, 0xDC00 + (c - 0x10000) % 1024, s, rest);
    }
  }

  lemma {:induction false} Utf16EscapesAlike(s: Str, rest: Str)
    ensures EscapeThen(Utf16(s), rest) == EscapeThen(s, rest)
  {
    if s != [] {
      Utf16EscapesAlike(s[1..], rest);
      UnitsEscapeAlike(s[0], Utf16(s[1..]), rest);
    }
  }

  lemma {:induction false} CombineEscapesAlike(units: Str, rest: Str)
    ensures EscapeThen(Combine(units), rest) == EscapeThen(units, rest)
    decreases |units|
  {
    if |units| >= 2 && IsHigh(units[0]) && IsLow(units[1]) {
      CombineEscapesAlike(units[2..], rest);
      PairEscapes(units[0], units[1], units[2..], rest);
      assert units == [units[0], units[1]] + units[2..];
      EscapeOne(Combine(units)[0], Combine(units[2..]), rest);
    } else if |units| >= 2 {
      CombineEscapesAlike(units[1..], rest);
      EscapeOne(units[0], Combine(units[1..]), rest);
    }
  }

  /** Fusing split pairs changes no quoted text. */
  lemma {:induction false} FusedQuotesAlike(s: Str, rest: Str)
    ensures QuoteThen(Combine(Utf16(s)), rest) == QuoteThen(s, rest)
  {
    CombineEscapesAlike(Utf16(s), rest);
    Utf16EscapesAlike(s, rest);
  }

  lemma {:induction false} FusedArtifactsAlike(pairs: seq<(Str, Str)>, rest: Str)
    requires pairs != []
    ensures ArtifactsThen(FusePairs(pairs), rest) == ArtifactsThen(pairs, rest)
  {
    var after := AfterFirst(pairs, rest);
    if |pairs| > 1 {
      FusePairsCons(pairs);
      FusedArtifactsAlike(pairs[1..], rest);
    }
    var more := Ascii("}") + after;
    FusedQuotesAlike(pairs[0].1, more);
    FusedQuotesAlike(pairs[0].0, Ascii(",\"sha256\":") + QuoteThen(pairs[0].1, more));
  }

  /** Every payload, valid or not, has the canonical text of its fused form. */
  lemma {:induction false} EncodeFuse(p: Payload)
    requires p.pairs != []
    ensures Encode(Fuse(p)) == Encode(p)
  {
    var t5 := Ascii("}");
    var t4 := Ascii(",\"source_code\":") + QuoteThen(p.source, t5);
    var t2 := Ascii(",\"revision\":") + RevisionThen(p.revision, t4);
    var t1 := Ascii(",\"release_family_key\":") + QuoteThen(p.family, t2);
    FusedQuotesAlike(p.source, t5);
    if p.revision.Some? { FusedQuotesAlike(p.revision.value, t4); }
    FusedQuotesAlike(p.family, t2);
    FusedQuotesAlike(p.scheme, t1);
    FusedArtifactsAlike(p.pairs, TailThen(p));
  }

  /** Two payloads share a canonical text exactly when they agree once split pairs are fused. */
  lemma {:induction false} EncodeAlikeIff(p: Payload, q: Payload)
    requires p.pairs != [] && q.pairs != []
    ensures Encode(p) == Encode(q) <==> Fuse(p) == Fuse(q)
  {
    DecodeEncode(p);
    DecodeEncode(q);
    EncodeFuse(p);
    EncodeFuse(q);
  }

  lemma {:induction false} Utf16NonBlank(s: Str)
    requires NonBlank(s)
    ensures NonBlank(Utf16(s))
  {
    if IsSpace(s[0]) {
      var i :| 0 <= i < |s| && !IsSpace(s[i]);
      assert s[1..][i - 1] == s[i];
      Utf16NonBlank(s[1..]);
      var k :| 0 <= k < |Utf16(s[1..])| && !IsSpace(Utf16(s[1..])[k]);
      assert Utf16(s)[k + 1] == Utf16(s[1..])[k];
    } else {
      assert !IsSpace(Utf16(s)[0]);
    }
  }

  lemma {:induction false} CombineNonBlank(units: Str)
    requires NonBlank(units)
    ensures NonBlank(Combine(units))
    decreases |units|
  {
    var i :| 0 <= i < |units| && !IsSpace(units[i]);
    if |units| >= 2 && IsHigh(units[0]) && IsLow(units[1]) {
      assert !IsSpace(Combine(units)[0]);
    } else if |units| >= 2 {
      if i == 0 {
        assert !IsSpace(Combine(units)[0]);
      } else {
        assert units[1..][i - 1] == units[i];
        CombineNonBlank(units[1..]);
        var k :| 0 <= k < |Combine(units[1..])| && !IsSpace(Combine(units[1..])[k]);
        assert Combine(units)[k + 1] == Combine(units[1..])[k];
      }
    }
  }

  /** Every validated payload whose revision holds a split pair shares its text with another validated payload. */
  lemma {:induction false} SplitPairCollides(p: Payload)
    requires ValidPayload(p) && !Readable(p)
    ensures p.pairs != []
    ensures ValidPayload(Fuse(p)) && Fuse(p).pairs != [] && Fuse(p) != p && Encode(Fuse(p)) == Encode(p)
  {
    assert |Roles(p.pairs)| == |p.pairs|;
    AsciiIsUnfused(p.scheme); AsciiIsUnfused(p.source); AsciiIsUnfused(p.family);
    ValidPairsAreUnfused(p);
    FuseFixed(p);
    Utf16NonBlank(p.revision.value);
    CombineNonBlank(Utf16(p.revision.value));
    EncodeFuse(p);
  }

  /** Such payloads exist: U+1F600 and its two surrogates, under any validated inputs. */
  lemma {:induction false} SplitPairExists(p: Payload)
    requires ValidPayload(p)
    ensures
      var split := p.(revision := Some([0xD83D, 0xDE00]));
      ValidPayload(split) && !Readable(split) && Fuse(split) == p.(revision := Some([0x1F600]))
  {
    var s: Str := [0xD83D, 0xDE00];
    assert NonBlank(s) by { assert !IsSpace(s[0]); }
    assert !NoSplitPair(s) by { assert IsHigh(s[0]) && IsLow(s[0 + 1]); }
    AsciiIsUnfused(p.scheme); AsciiIsUnfused(p.source); AsciiIsUnfused(p.family);
    ValidPairsAreUnfused(p);
    assert s[1..] == [0xDE00] && s[1..][1..] == [] && Utf16([0xDE00]) == [0xDE00] + [];
    assert Utf16(s) == s && s[2..] == [] && Combine(s) == [0x1F600];
  }

  /**
    Two accepted identity inputs with one identity describe the same release, pair order
    aside, unless their two canonical texts are a SHA-256 collision.
   */
  lemma {:induction false} IdentityDeterminesRelease(sha: Str -> Sha256Hex, p: Payload, q: Payload)
    requires IdentityHash(sha, p).Success? && IdentityHash(sha, p) == IdentityHash(sha, q)
    requires Readable(p) && Readable(q)
    requires
      var a, b := Canonical(p), Canonical(q);
      a.pairs != [] && b.pairs != [] && (sha(Encode(a)) == sha(Encode(b)) ==> Encode(a) == Encode(b))
    ensures p.(pairs := q.pairs) == q && multiset(p.pairs) == multiset(q.pairs)
  {
    IdentityHashAccepts(sha, p);
    IdentityHashAccepts(sha, q);
    EncodeInjective(Canonical(p), Canonical(q));
    SortKeeps(p.pairs, PairLe);
    SortKeeps(q.pairs, PairLe);
  }

  // ---------------------------------------------------------------- which inputs have an identity

  /** Every input is valid, and each role is given once, in any order. */
  ghost predicate WellFormed(p: Payload) {
    && IsIdentityScheme(p.scheme) && IsIdentifier(p.source) && IsIdentifier(p.family)
    && (p.revision.Some? ==> NonBlank(p.revision.value)) && p.pairs != []
    && (forall i :: 0 <= i < |p.pairs| ==> IsIdentifier(p.pairs[i].0) && IsSha256(p.pairs[i].1))
    && forall i, j :: 0 <= i < j < |p.pairs| ==> p.pairs[i].0 != p.pairs[j].0
  }

  ghost predicate RolesOnce(pairs: seq<(Str, Str)>) {
    forall i, j :: 0 <= i < j < |pairs| ==> pairs[i].0 != pairs[j].0
  }

  lemma {:induction false} RolesStayOnce(a: seq<(Str, Str)>, b: seq<(Str, Str)>)
    requires multiset(a) == multiset(b) && RolesOnce(a)
    ensures RolesOnce(b)
  {
    assert |multiset(a)| == |multiset(b)|;
    Distinct(a);
    forall i, j | 0 <= i < j < |b| ensures b[i].0 != b[j].0 {
      assert b[i] in multiset(a) && b[j] in multiset(a);
      if b[i] == b[j] { TwiceIn(b, i, j); }
      var x :| 0 <= x < |a| && a[x] == b[i];
      var y :| 0 <= y < |a| && a[y] == b[j];
    }
  }

  lemma {:induction false} TwiceIn<T>(s: seq<T>, i: int, j: int)
    requires 0 <= i < j < |s| && s[i] == s[j]
    ensures multiset(s)[s[i]] >= 2
  {
    assert s == s[..j] + s[j..];
    assert s[..j][i] == s[i] && s[j..][0] == s[i];
  }

  lemma {:induction false} SortedOnceIsStrict(pairs: seq<(Str, Str)>)
    requires SortedBy(pairs, PairLe)
    ensures RolesOnce(pairs) <==> StrictlySorted(Roles(pairs))
  {
    if RolesOnce(pairs) {
      forall i, j | 0 <= i < j < |pairs| ensures StrLt(Roles(pairs)[i], Roles(pairs)[j]) {
        assert PairLe(pairs[i], pairs[j]) && pairs[i].0 != pairs[j].0;
      }
    }
    if StrictlySorted(Roles(pairs)) {
      forall i, j | 0 <= i < j < |pairs| ensures pairs[i].0 != pairs[j].0 {
        assert StrLt(Roles(pairs)[i], Roles(pairs)[j]);
      }
    }
  }

  /** The pairs arranged by role, each role once. */
  ghost predicate ByRole(pairs: seq<(Str, Str)>, arranged: seq<(Str, Str)>) {
    multiset(arranged) == multiset(pairs) && StrictlySorted(Roles(arranged))
  }

  /**
    Exactly the well-formed inputs have an identity, and it is the hash of the text with the
    pairs arranged by role.
   */
  lemma {:induction false} HashesIff(sha: Str -> Sha256Hex, p: Payload)
    ensures IdentityHash(sha, p).Success? <==> WellFormed(p)
    ensures IdentityHash(sha, p).Success? ==>
      exists arranged :: ByRole(p.pairs, arranged) && arranged != []
                         && IdentityHash(sha, p).value == sha(Encode(p.(pairs := arranged)))
  {
    var c := Canonical(p);
    PairLeIsTotalOrder();
    SortSorts(p.pairs, PairLe);
    SortKeeps(p.pairs, PairLe);
    SortedOnceIsStrict(c.pairs);
    IdentityHashAccepts(sha, p);
    SameWellFormed(p, c);
    StrictIsValid(c);
    if IdentityHash(sha, p).Success? { assert ByRole(p.pairs, c.pairs) && p.(pairs := c.pairs) == c; }
  }

  lemma {:induction false} SameWellFormed(p: Payload, c: Payload)
    requires c == p.(pairs := c.pairs) && multiset(c.pairs) == multiset(p.pairs)
    ensures WellFormed(p) <==> WellFormed(c)
  {
    assert |multiset(c.pairs)| == |multiset(p.pairs)|;
    forall x ensures x in p.pairs <==> x in c.pairs { assert x in multiset(p.pairs) <==> x in multiset(c.pairs); }
    if RolesOnce(p.pairs) { RolesStayOnce(p.pairs, c.pairs); }
    if RolesOnce(c.pairs) { RolesStayOnce(c.pairs, p.pairs); }
    forall i | 0 <= i < |p.pairs| ensures p.pairs[i] in c.pairs { assert p.pairs[i] in p.pairs; }
    forall i | 0 <= i < |c.pairs| ensures c.pairs[i] in p.pairs { assert c.pairs[i] in c.pairs; }
  }

  lemma {:induction false} StrictIsValid(c: Payload)
    requires SortedBy(c.pairs, PairLe)
    ensures WellFormed(c) <==> ValidPayload(c)
  {
    SortedOnceIsStrict(c.pairs);
    assert |Roles(c.pairs)| == |c.pairs|;
    if WellFormed(c) {
      forall r | r in Roles(c.pairs) ensures IsIdentifier(r) {
        var i :| 0 <= i < |c.pairs| && Roles(c.pairs)[i] == r;
      }
    }
    if ValidPayload(c) {
      forall i | 0 <= i < |c.pairs| ensures IsIdentifier(c.pairs[i].0) && IsSha256(c.pairs[i].1) {
        assert Roles(c.pairs)[i] in Roles(c.pairs) && c.pairs[i] in c.pairs;
      }
      assert RolesOnce(c.pairs);
    }
  }

  /** What a refusal says about the inputs: the first of them at fault. */
  lemma {:induction false} HashRefusals(sha: Str -> Sha256Hex, p: Payload)
    requires IdentityHash(sha, p).Failure?
    ensures
      var e := IdentityHash(sha, p).error;
      && (e == BadScheme <==> !IsIdentityScheme(p.scheme))
      && (e == BadSource <==> IsIdentityScheme(p.scheme) && !IsIdentifier(p.source))
      && (e == BadFamily <==> IsIdentityScheme(p.scheme) && IsIdentifier(p.source) && !IsIdentifier(p.family))
      && (e == BadRevision ==> p.revision.Some? && !NonBlank(p.revision.value))
      && (e == BadDigest ==> exists pair :: pair in p.pairs && !IsSha256(pair.1))
      && (e == BadRoles ==>
            || p.pairs == [] || (exists pair :: pair in p.pairs && !IsIdentifier(pair.0)) || !RolesOnce(p.pairs))
  {
    var c := Canonical(p);
    HashesIff(sha, p);
    SortKeeps(p.pairs, PairLe);
    forall x ensures x in p.pairs <==> x in c.pairs { assert x in multiset(p.pairs) <==> x in multiset(c.pairs); }
    forall i | 0 <= i < |p.pairs| ensures p.pairs[i] in p.pairs {}
  }
}
