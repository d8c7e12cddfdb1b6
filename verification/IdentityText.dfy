/**
  The text that is hashed, as JSON: a writer for compact, ASCII-escaped objects with sorted
  keys, written without regard to the encoder, and the proof that the encoder's text is
  what it writes.
 */
module IdentityText {
  import opened Prelude
  import opened Strings
  import opened IdentityPayload

  const HEX := Ascii("0123456789abcdef")

  // ---------------------------------------------------------------- a JSON writer

  /** One UTF-16 code unit inside a string: itself, a short escape, or four lowercase hexadecimal digits. */
  function UnitText(u: int): Str
    requires 0 <= u < 0x10000
  {
    if u == '"' as int then Ascii("\\\"")
    else if u == '\\' as int then Ascii("\\\\")
    else if u == 8 then Ascii("\\b")
    else if u == 9 then Ascii("\\t")
    else if u == 10 then Ascii("\\n")
    else if u == 12 then Ascii("\\f")
    else if u == 13 then Ascii("\\r")
    else if ' ' as int <= u <= '~' as int then [u]
    else Ascii("\\u") + [HEX[u / 0x1000], HEX[u / 0x100 % 0x10], HEX[u / 0x10 % 0x10], HEX[u % 0x10]]
  }

  /** Code units only. */
  predicate AllUnits(s: Str) { forall i :: 0 <= i < |s| ==> s[i] < 0x10000 }

  function UnitsText(units: Str): Str
    requires AllUnits(units)
  {
    if units == [] then [] else UnitText(units[0]) + UnitsText(units[1..])
  }

  lemma {:induction false} Utf16IsUnits(s: Str)
    ensures AllUnits(Utf16(s))
  {
    if s != [] { Utf16IsUnits(s[1..]); }
  }

  function StringText(s: Str): Str {
    Utf16IsUnits(s);
    Ascii("\"") + (UnitsText(Utf16(s)) + Ascii("\""))
  }

  function Commas(items: seq<Str>): Str {
    if items == [] then [] else if |items| == 1 then items[0] else items[0] + (Ascii(",") + Commas(items[1..]))
  }

  function ListText(items: seq<Str>): Str { Ascii("[") + (Commas(items) + Ascii("]")) }

  /** A field: its key and the text of its value. */
  type Field = (Str, Str)

  predicate KeyLe(a: Field, b: Field) { StrLe(a.0, b.0) }

  function FieldText(f: Field): Str { StringText(f.0) + (Ascii(":") + f.1) }

  function FieldTexts(fields: seq<Field>): (r: seq<Str>)
    ensures |r| == |fields| && forall i :: 0 <= i < |r| ==> r[i] == FieldText(fields[i])
  {
    seq(|fields|, i requires 0 <= i < |fields| => FieldText(fields[i]))
  }

  /** `json.dumps(fields, sort_keys=True, separators=(",", ":"), ensure_ascii=True)` */
  function ObjectText(fields: seq<Field>): Str {
    Ascii("{") + (Commas(FieldTexts(Sort(fields, KeyLe))) + Ascii("}"))
  }

  // ---------------------------------------------------------------- the identity payload

  function PairText(pair: (Str, Str)): Str {
    ObjectText([(Ascii("role"), StringText(pair.0)), (Ascii("sha256"), StringText(pair.1))])
  }

  function PairTexts(pairs: seq<(Str, Str)>): (r: seq<Str>)
    ensures |r| == |pairs| && forall i :: 0 <= i < |r| ==> r[i] == PairText(pairs[i])
  {
    seq(|pairs|, i requires 0 <= i < |pairs| => PairText(pairs[i]))
  }

  function RevisionText(revision: Option<Str>): Str {
    match revision
    case None => Ascii("null")
    case Some(text) => StringText(text)
  }

  /** The fields in the order in which they are put into the payload. */
  function Fields(p: Payload): seq<Field> {
    [
      (Ascii("identity_scheme"), StringText(p.scheme)),
      (Ascii("source_code"), StringText(p.source)),
      (Ascii("release_family_key"), StringText(p.family)),
      (Ascii("revision"), RevisionText(p.revision)),
      (Ascii("artifacts"), ListText(PairTexts(p.pairs)))
    ]
  }

  // ---------------------------------------------------------------- strings

  lemma {:induction false} HexAgrees(d: int)
    requires 0 <= d < 16
    ensures HEX[d] == HexDigit(d)
  {
    assert HEX == Ascii("0123456789") + Ascii("abcdef");
    if d < 10 { assert HEX[d] == "0123456789"[d] as int; } else { assert HEX[d] == "abcdef"[d - 10] as int; }
  }

  lemma {:induction false} UnitIsEscaped(u: int)
    requires 0 <= u < 0x10000
    ensures EscapeChar(u) == UnitText(u)
  {
    HexAgrees(u / 0x1000);
    HexAgrees(u / 0x100 % 0x10);
    HexAgrees(u / 0x10 % 0x10);
    HexAgrees(u % 0x10);
  }

  lemma {:induction false} CharIsUnits(c: CodePoint)
    ensures AllUnits(Units(c)) && EscapeChar(c) == UnitsText(Units(c))
  {
    var units := Units(c);
    if c < 0x10000 {
      UnitIsEscaped(c);
      assert units[1..] == [];
    } else {
      UnitIsEscaped(units[0]);
      UnitIsEscaped(units[1]);
      FusedEscapes(units[0], units[1]);
      assert Fused(units[0], units[1]) == c;
      TwoUnits(units[0], units[1]);
    }
  }

  lemma {:induction false} TwoUnits(u: int, v: int)
    requires 0 <= u < 0x10000 && 0 <= v < 0x10000
    ensures UnitsText([u, v]) == UnitText(u) + UnitText(v)
  {
    assert [u, v] == [u] + [v] && [u][1..] == [] && [v][1..] == [];
    UnitsJoin([u], [v]);
  }

  lemma {:induction false} UnitsJoin(a: Str, b: Str)
    requires AllUnits(a) && AllUnits(b)
    ensures UnitsText(a + b) == UnitsText(a) + UnitsText(b)
  {
    if a == [] {
      assert a + b == b;
    } else {
      assert (a + b)[0] == a[0] && (a + b)[1..] == a[1..] + b;
      UnitsJoin(a[1..], b);
      Assoc(UnitText(a[0]), UnitsText(a[1..]), UnitsText(b));
    }
  }

  lemma {:induction false} EscapedIsUnits(s: Str, rest: Str)
    ensures AllUnits(Utf16(s)) && EscapeThen(s, rest) == UnitsText(Utf16(s)) + (Ascii("\"") + rest)
  {
    Utf16IsUnits(s);
    assert Ascii("\"") == [0x22];
    if s == [] {
      assert [] + ([0x22] + rest) == [0x22] + rest;
    } else {
      EscapedIsUnits(s[1..], rest);
      CharIsUnits(s[0]);
      UnitsJoin(Units(s[0]), Utf16(s[1..]));
      Assoc(UnitsText(Units(s[0])), UnitsText(Utf16(s[1..])), Ascii("\"") + rest);
    }
  }

  /** Quoting writes the JSON string. */
  lemma {:induction false} QuoteIsString(s: Str, rest: Str)
    ensures QuoteThen(s, rest) == StringText(s) + rest
  {
    EscapedIsUnits(s, rest);
    assert Ascii("\"") == [0x22];
    Nested(Ascii("\""), UnitsText(Utf16(s)), Ascii("\""), rest);
  }

  lemma {:induction false} Nested(a: Str, b: Str, c: Str, d: Str)
    ensures a + (b + c) + d == a + (b + (c + d))
  {
    Assoc(a, b + c, d);
    Assoc(b, c, d);
  }

  // ---------------------------------------------------------------- objects

  /** Two texts that first differ at k, or the first ends there. */
  lemma {:induction false} KeyBefore(a: string, b: string, k: nat)
    requires k <= |a| && k < |b| && a[..k] == b[..k] && (k == |a| || a[k] < b[k])
    ensures StrLt(Ascii(a), Ascii(b))
  {
    assert forall i :: 0 <= i < k ==> a[i] == a[..k][i] && b[i] == b[..k][i];
    assert Ascii(a)[..k] == Ascii(b)[..k];
    LessIsLt(Ascii(a), Ascii(b), k);
  }

  lemma {:induction false} KeyLeIsTotal()
    ensures TotalPreorder(KeyLe)
  {
    StrLeIsTotalOrder();
  }

  /** Fields whose keys rise are the arrangement a writer that sorts keys makes of them. */
  lemma {:induction false} SortedFields(fields: seq<Field>, sorted: seq<Field>)
    requires multiset(fields) == multiset(sorted)
    requires forall i, j :: 0 <= i < j < |sorted| ==> StrLt(sorted[i].0, sorted[j].0)
    ensures Sort(fields, KeyLe) == sorted
  {
    KeyLeIsTotal();
    SortSorts(fields, KeyLe);
    SortKeeps(fields, KeyLe);
    forall x, y | x in sorted && y in sorted && KeyLe(x, y) && KeyLe(y, x) ensures x == y {
      StrAntisymmetric(x.0, y.0);
      var i :| 0 <= i < |sorted| && sorted[i] == x;
      var j :| 0 <= j < |sorted| && sorted[j] == y;
    }
    SortedUnique(sorted, Sort(fields, KeyLe), KeyLe);
  }

  function PairFields(pair: (Str, Str)): seq<Field> {
    [(Ascii("role"), StringText(pair.0)), (Ascii("sha256"), StringText(pair.1))]
  }

  function SortedPayload(p: Payload): seq<Field> {
    [
      (Ascii("artifacts"), ListText(PairTexts(p.pairs))),
      (Ascii("identity_scheme"), StringText(p.scheme)),
      (Ascii("release_family_key"), StringText(p.family)),
      (Ascii("revision"), RevisionText(p.revision)),
      (Ascii("source_code"), StringText(p.source))
    ]
  }

  lemma {:induction false} PairIsSorted(pair: (Str, Str))
    ensures Sort(PairFields(pair), KeyLe) == PairFields(pair)
  {
    KeyBefore("role", "sha256", 0);
    SortedFields(PairFields(pair), PairFields(pair));
  }

  lemma {:induction false} PayloadKeysRise(p: Payload)
    ensures forall i, j :: 0 <= i < j < 5 ==> StrLt(SortedPayload(p)[i].0, SortedPayload(p)[j].0)
  {
    KeyBefore("artifacts", "identity_scheme", 0);
    KeyBefore("artifacts", "release_family_key", 0);
    KeyBefore("artifacts", "revision", 0);
    KeyBefore("artifacts", "source_code", 0);
    KeyBefore("identity_scheme", "release_family_key", 0);
    KeyBefore("identity_scheme", "revision", 0);
    KeyBefore("identity_scheme", "source_code", 0);
    KeyBefore("release_family_key", "revision", 2);
    KeyBefore("release_family_key", "source_code", 0);
    KeyBefore("revision", "source_code", 0);
  }

  lemma {:induction false} Rearranged<T>(a: T, b: T, c: T, d: T, e: T)
    ensures multiset([a, b, c, d, e]) == multiset([e, a, c, d, b])
  {
    assert [a, b, c, d, e] == [a] + [b] + [c] + [d] + [e] && [e, a, c, d, b] == [e] + [a] + [c] + [d] + [b];
  }

  lemma {:induction false} PayloadIsSorted(p: Payload)
    ensures Sort(Fields(p), KeyLe) == SortedPayload(p)
  {
    PayloadKeysRise(p);
    var f, g := Fields(p), SortedPayload(p);
    Rearranged(f[0], f[1], f[2], f[3], f[4]);
    SortedFields(f, g);
  }

  // ---------------------------------------------------------------- the encoder's text

  /** Characters that JSON writes as themselves. */
  predicate IsPlain(s: Str) {
    forall i :: 0 <= i < |s| ==> ' ' as int <= s[i] <= '~' as int && s[i] != '"' as int && s[i] != '\\' as int
  }

  lemma {:induction false} PlainUnits(s: Str)
    requires IsPlain(s)
    ensures Utf16(s) == s && AllUnits(s) && UnitsText(s) == s
  {
    if s != [] {
      PlainUnits(s[1..]);
      assert s == [s[0]] + s[1..];
    }
  }

  /** A plain string stands between its quotes. */
  lemma {:induction false} PlainString(s: Str)
    requires IsPlain(s)
    ensures StringText(s) == Ascii("\"") + (s + Ascii("\""))
  {
    PlainUnits(s);
  }

  /** A key and its colon, after an opening character. */
  lemma {:induction false} KeyText(lead: string, key: string)
    requires IsPlain(Ascii(key))
    ensures Ascii(lead + "\"" + key + "\":") == Ascii(lead) + (StringText(Ascii(key)) + Ascii(":"))
  {
    PlainString(Ascii(key));
    assert Ascii(lead) + (Ascii("\"") + (Ascii(key) + Ascii("\"")) + Ascii(":")) == Ascii(lead + "\"" + key + "\":");
  }

  lemma {:induction false} FieldThen(lead: string, key: string, value: Str, rest: Str)
    requires IsPlain(Ascii(key))
    ensures Ascii(lead + "\"" + key + "\":") + (value + rest) == Ascii(lead) + (FieldText((Ascii(key), value)) + rest)
  {
    KeyText(lead, key);
    var k := StringText(Ascii(key));
    Assoc(Ascii(lead), k + Ascii(":"), value + rest);
    Assoc(k, Ascii(":"), value + rest);
    Assoc(k, Ascii(":") + value, rest);
    Assoc(Ascii(":"), value, rest);
  }

  function FieldsThen(fields: seq<Field>, rest: Str): Str
    requires fields != []
  {
    if |fields| == 1 then FieldText(fields[0]) + rest
    else FieldText(fields[0]) + (Ascii(",") + FieldsThen(fields[1..], rest))
  }

  lemma {:induction false} CommasThen(fields: seq<Field>, rest: Str)
    requires fields != []
    ensures Commas(FieldTexts(fields)) + rest == FieldsThen(fields, rest)
  {
    if |fields| > 1 {
      CommasThen(fields[1..], rest);
      assert FieldTexts(fields)[1..] == FieldTexts(fields[1..]);
      Assoc(FieldText(fields[0]), Ascii(",") + Commas(FieldTexts(fields[1..])), rest);
      Assoc(Ascii(","), Commas(FieldTexts(fields[1..])), rest);
    }
  }

  lemma {:induction false} ObjectThen(fields: seq<Field>, sorted: seq<Field>, rest: Str)
    requires Sort(fields, KeyLe) == sorted && sorted != []
    ensures ObjectText(fields) + rest == Ascii("{") + FieldsThen(sorted, Ascii("}") + rest)
  {
    CommasThen(sorted, Ascii("}") + rest);
    Nested(Ascii("{"), Commas(FieldTexts(sorted)), Ascii("}"), rest);
  }

  lemma {:induction false} KeysArePlain()
    ensures IsPlain(Ascii("role")) && IsPlain(Ascii("sha256")) && IsPlain(Ascii("artifacts"))
    ensures IsPlain(Ascii("identity_scheme")) && IsPlain(Ascii("release_family_key")) && IsPlain(Ascii("revision"))
    ensures IsPlain(Ascii("source_code"))
  {
  }

  lemma {:induction false} FirstField(first: Field, more: seq<Field>, rest: Str)
    requires more != []
    ensures FieldsThen([first] + more, rest) == FieldText(first) + (Ascii(",") + FieldsThen(more, rest))
  {
    assert ([first] + more)[1..] == more;
  }

  lemma {:induction false} RoleField(v: Str, rest: Str)
    ensures Ascii("{\"role\":") + QuoteThen(v, rest) == Ascii("{") + (FieldText((Ascii("role"), StringText(v))) + rest)
  {
    KeysArePlain();
    assert "{" + "\"" + "role" + "\":" == "{\"role\":";
    QuoteIsString(v, rest);
    FieldThen("{", "role", StringText(v), rest);
  }

  lemma {:induction false} DigestField(v: Str, rest: Str)
    ensures Ascii(",\"sha256\":") + QuoteThen(v, rest)
      == Ascii(",") + (FieldText((Ascii("sha256"), StringText(v))) + rest)
  {
    KeysArePlain();
    assert "," + "\"" + "sha256" + "\":" == ",\"sha256\":";
    QuoteIsString(v, rest);
    FieldThen(",", "sha256", StringText(v), rest);
  }

  lemma {:induction false} ArtifactIsObject(pair: (Str, Str), rest: Str)
    ensures ArtifactThen(pair, rest) == PairText(pair) + rest
  {
    var end, fields := Ascii("}") + rest, PairFields(pair);
    PairIsSorted(pair);
    ObjectThen(fields, fields, rest);
    FirstField(fields[0], [fields[1]], end);
    assert fields == [fields[0]] + [fields[1]] && FieldsThen([fields[1]], end) == FieldText(fields[1]) + end;
    DigestField(pair.1, end);
    RoleField(pair.0, Ascii(",") + (FieldText(fields[1]) + end));
  }

  lemma {:induction false} ArtifactsAreList(pairs: seq<(Str, Str)>, rest: Str)
    requires pairs != []
    ensures ArtifactsThen(pairs, rest) == Commas(PairTexts(pairs)) + (Ascii("]") + rest)
  {
    assert Ascii("]") == [0x5D] && Ascii(",") == [0x2C];
    if |pairs| == 1 {
      ArtifactIsObject(pairs[0], Ascii("]") + rest);
    } else {
      var more := Commas(PairTexts(pairs[1..]));
      ArtifactsAreList(pairs[1..], rest);
      assert PairTexts(pairs)[1..] == PairTexts(pairs[1..]);
      ArtifactIsObject(pairs[0], Ascii(",") + (more + (Ascii("]") + rest)));
      Assoc(PairText(pairs[0]), Ascii(",") + more, Ascii("]") + rest);
      Assoc(Ascii(","), more, Ascii("]") + rest);
    }
  }

  lemma {:induction false} RevisionIsText(revision: Option<Str>, rest: Str)
    ensures RevisionThen(revision, rest) == RevisionText(revision) + rest
  {
    if revision.Some? { QuoteIsString(revision.value, rest); }
  }

  lemma {:induction false} SourceField(v: Str, rest: Str)
    ensures Ascii(",\"source_code\":") + QuoteThen(v, rest)
         == Ascii(",") + (FieldText((Ascii("source_code"), StringText(v))) + rest)
  {
    KeysArePlain();
    assert "," + "\"" + "source_code" + "\":" == ",\"source_code\":";
    QuoteIsString(v, rest);
    FieldThen(",", "source_code", StringText(v), rest);
  }

  lemma {:induction false} RevisionField(v: Option<Str>, rest: Str)
    ensures Ascii(",\"revision\":") + RevisionThen(v, rest)
         == Ascii(",") + (FieldText((Ascii("revision"), RevisionText(v))) + rest)
  {
    KeysArePlain();
    assert "," + "\"" + "revision" + "\":" == ",\"revision\":";
    RevisionIsText(v, rest);
    FieldThen(",", "revision", RevisionText(v), rest);
  }

  lemma {:induction false} FamilyField(v: Str, rest: Str)
    ensures Ascii(",\"release_family_key\":") + QuoteThen(v, rest)
         == Ascii(",") + (FieldText((Ascii("release_family_key"), StringText(v))) + rest)
  {
    KeysArePlain();
    assert "," + "\"" + "release_family_key" + "\":" == ",\"release_family_key\":";
    QuoteIsString(v, rest);
    FieldThen(",", "release_family_key", StringText(v), rest);
  }

  lemma {:induction false} SchemeField(v: Str, rest: Str)
    ensures Ascii(",\"identity_scheme\":") + QuoteThen(v, rest)
         == Ascii(",") + (FieldText((Ascii("identity_scheme"), StringText(v))) + rest)
  {
    KeysArePlain();
    assert "," + "\"" + "identity_scheme" + "\":" == ",\"identity_scheme\":";
    QuoteIsString(v, rest);
    FieldThen(",", "identity_scheme", StringText(v), rest);
  }

  lemma {:induction false} FourFields(a: Field, b: Field, c: Field, d: Field, rest: Str)
    ensures FieldsThen([a, b, c, d], rest) ==
      FieldText(a) + (Ascii(",") + (FieldText(b) + (Ascii(",") + (FieldText(c) + (Ascii(",")
        + (FieldText(d) + rest))))))
  {
    assert FieldsThen([d], rest) == FieldText(d) + rest;
    FirstField(c, [d], rest);
    FirstField(b, [c, d], rest);
    FirstField(a, [b, c, d], rest);
    assert [c] + [d] == [c, d] && [b] + [c, d] == [b, c, d] && [a] + [b, c, d] == [a, b, c, d];
  }

  lemma {:induction false} TailIsFields(p: Payload)
    ensures TailThen(p) == Ascii(",") + FieldsThen(SortedPayload(p)[1..], Ascii("}"))
  {
    var f, end := SortedPayload(p), Ascii("}");
    assert f[1..] == [f[1], f[2], f[3], f[4]];
    FourFields(f[1], f[2], f[3], f[4], end);
    SourceField(p.source, end);
    var t4 := Ascii(",") + (FieldText(f[4]) + end);
    RevisionField(p.revision, t4);
    var t3 := Ascii(",") + (FieldText(f[3]) + t4);
    FamilyField(p.family, t3);
    SchemeField(p.scheme, Ascii(",") + (FieldText(f[2]) + t3));
  }

  lemma {:induction false} ListThen(items: seq<Str>, rest: Str)
    ensures ListText(items) + rest == Ascii("[") + (Commas(items) + (Ascii("]") + rest))
  {
    Nested(Ascii("["), Commas(items), Ascii("]"), rest);
  }

  lemma {:induction false} ArtifactsKey(value: Str, inner: Str, rest: Str)
    requires value + rest == Ascii("[") + inner
    ensures Ascii("{\"artifacts\":[") + inner == Ascii("{") + (FieldText((Ascii("artifacts"), value)) + rest)
  {
    KeysArePlain();
    FieldThen("{", "artifacts", value, rest);
    OpeningText();
    Assoc(Ascii("{\"artifacts\":"), Ascii("["), inner);
  }

  lemma {:induction false} OpeningText()
    ensures "{" + "\"" + "artifacts" + "\":" == "{\"artifacts\":"
    ensures Ascii("{\"artifacts\":[") == Ascii("{\"artifacts\":") + Ascii("[")
  {
  }

  lemma {:induction false} ArtifactsField(pairs: seq<(Str, Str)>, rest: Str)
    requires pairs != []
    ensures Ascii("{\"artifacts\":[") + ArtifactsThen(pairs, rest)
         == Ascii("{") + (FieldText((Ascii("artifacts"), ListText(PairTexts(pairs)))) + rest)
  {
    ArtifactsAreList(pairs, rest);
    ListThen(PairTexts(pairs), rest);
    ArtifactsKey(ListText(PairTexts(pairs)), Commas(PairTexts(pairs)) + (Ascii("]") + rest), rest);
  }

  lemma {:induction false} WholeObject(fields: seq<Field>, sorted: seq<Field>)
    requires Sort(fields, KeyLe) == sorted && sorted != []
    ensures ObjectText(fields) == Ascii("{") + FieldsThen(sorted, Ascii("}"))
  {
    CommasThen(sorted, Ascii("}"));
  }

  lemma {:induction false} EncodeIsFields(p: Payload)
    requires p.pairs != []
    ensures Encode(p) == Ascii("{") + FieldsThen(SortedPayload(p), Ascii("}"))
  {
    var f := SortedPayload(p);
    assert f == [f[0]] + f[1..];
    FirstField(f[0], f[1..], Ascii("}"));
    TailIsFields(p);
    ArtifactsField(p.pairs, TailThen(p));
  }

  /** The text that is hashed is the JSON of the payload's fields: compact, ASCII, keys in order. */
  lemma {:induction false} EncodeIsJson(p: Payload)
    requires p.pairs != []
    ensures Encode(p) == ObjectText(Fields(p))
  {
    PayloadIsSorted(p);
    EncodeIsFields(p);
    WholeObject(Fields(p), SortedPayload(p));
  }

  // ---------------------------------------------------------------- a release without revision

  lemma {:induction false} ValidTextsArePlain(s: Str)
    requires IsIdentifier(s) || IsIdentityScheme(s) || IsSha256(s)
    ensures IsPlain(s)
  {
    forall i | 0 <= i < |s|
      ensures ' ' as int <= s[i] <= '~' as int && s[i] != '"' as int && s[i] != '\\' as int
    {
      if IsIdentifier(s) { assert SnakeAt(s, i, false); }
      else if IsIdentityScheme(s) { assert SnakeAt(s, i, true); }
      else { assert IsLowerHex(s[i]); }
    }
  }

  predicate Verbatim(s: Str) { StringText(s) == Ascii("\"") + (s + Ascii("\"")) }

  /** In a validated payload every text but the revision stands in the JSON character by character. */
  lemma {:induction false} FieldsAreVerbatim(p: Payload)
    requires ValidPayload(p)
    ensures Verbatim(p.scheme) && Verbatim(p.source) && Verbatim(p.family)
    ensures forall i :: 0 <= i < |p.pairs| ==> Verbatim(p.pairs[i].0) && Verbatim(p.pairs[i].1)
  {
    ValidTextsArePlain(p.scheme); PlainString(p.scheme);
    ValidTextsArePlain(p.source); PlainString(p.source);
    ValidTextsArePlain(p.family); PlainString(p.family);
    forall i | 0 <= i < |p.pairs| ensures Verbatim(p.pairs[i].0) && Verbatim(p.pairs[i].1) {
      assert p.pairs[i] in p.pairs && Roles(p.pairs)[i] in Roles(p.pairs);
      ValidTextsArePlain(p.pairs[i].0); PlainString(p.pairs[i].0);
      ValidTextsArePlain(p.pairs[i].1); PlainString(p.pairs[i].1);
    }
  }
}
