/**
  Structural validation of the delimited catalogues: a byte-order mark, a first line that
  must be the frozen header, and at least one data row.
 */
module CatalogText {
  import opened Prelude

  datatype LineTerminator = Crlf | Lf

  /** What a valid catalogue records about itself, with its logical header. */
  datatype CsvStructure = CsvStructure(header: string, hasBom: bool, terminator: LineTerminator)

  datatype Drift = NulByte | NotUtf8 | NoTerminator | HeaderNotUtf8 | HeaderDiffers | NoDataRow

  const CR: byte := 0x0D
  const LF: byte := 0x0A
  const UTF8_BOM: Bytes := [0xEF, 0xBB, 0xBF]

  function Ending(t: LineTerminator): Bytes { if t == Crlf then [CR, LF] else [LF] }

  predicate OneLine(s: Bytes) { CR !in s && LF !in s }

  /** `s.find(b)`, the length of `s` standing for "not found". */
  function Find(s: Bytes, b: byte): (n: nat)
    ensures n <= |s| && (forall i :: 0 <= i < n ==> s[i] != b) && (n < |s| ==> s[n] == b)
  {
    if s == [] || s[0] == b then 0 else 1 + Find(s[1..], b)
  }

  function SplitFirstLine(payload: Bytes): Result<(Bytes, LineTerminator, Bytes), Drift> {
    var lf, cr := Find(payload, LF), Find(payload, CR);
    if cr < |payload| && cr < lf then
      if lf < |payload| && lf == cr + 1 then Success((payload[..cr], Crlf, payload[lf + 1..]))
      else Failure(NoTerminator)
    else if lf == |payload| then Failure(NoTerminator)
    else Success((payload[..lf], Lf, payload[lf + 1..]))
  }

  /** A line, its ending and the rest are found again. */
  lemma {:induction false} SplitFinds(line: Bytes, t: LineTerminator, rest: Bytes)
    requires OneLine(line)
    ensures SplitFirstLine(line + Ending(t) + rest) == Success((line, t, rest))
  {
    var n, payload := |line|, line + Ending(t) + rest;
    forall i | 0 <= i < n ensures payload[i] != CR && payload[i] != LF { assert payload[i] == line[i]; }
    assert payload[..n] == line && payload[n + |Ending(t)|..] == rest;
    if t == Crlf {
      assert payload[n] == CR && payload[n + 1] == LF;
    } else {
      assert payload[n] == LF;
    }
  }

  /** What comes back is such a text, taken apart. */
  lemma {:induction false} SplitParts(payload: Bytes)
    requires SplitFirstLine(payload).Success?
    ensures
      var (line, t, rest) := SplitFirstLine(payload).value;
      OneLine(line) && payload == line + Ending(t) + rest
  {
    var lf, cr := Find(payload, LF), Find(payload, CR);
    var (line, t, rest) := SplitFirstLine(payload).value;
    var n := |line|;
    forall i | 0 <= i < n ensures line[i] != CR && line[i] != LF {
      assert line[i] == payload[i] && i < lf && i < cr;
    }
    assert payload == payload[..n] + payload[n..n + |Ending(t)|] + payload[n + |Ending(t)|..];
    assert payload[n..n + |Ending(t)|] == Ending(t);
  }

  /** The first line is found exactly when the text is that line, one LF or CRLF, and the rest. */
  lemma {:induction false} SplitIff(payload: Bytes, line: Bytes, t: LineTerminator, rest: Bytes)
    ensures SplitFirstLine(payload) == Success((line, t, rest)) <==> OneLine(line) && payload == line + Ending(t) + rest
  {
    if SplitFirstLine(payload).Success? { SplitParts(payload); }
    if OneLine(line) { SplitFinds(line, t, rest); }
  }

  /** `decode` is strict UTF-8 decoding. */
  function ValidateCatalog(decode: Bytes -> Option<string>, content: Bytes, expected: string)
    : Result<CsvStructure, Drift>
  {
    if 0 in content then Failure(NulByte)
    else if decode(content).None? then Failure(NotUtf8)
    else
      var hasBom := UTF8_BOM <= content;
      match SplitFirstLine(Body(content))
      case Failure(e) => Failure(e)
      case Success((line, terminator, rest)) =>
        var header := decode(line);
        if header.None? then Failure(HeaderNotUtf8)
        else if header.value != expected then Failure(HeaderDiffers)
        else if forall b :: b in rest ==> b == CR || b == LF then Failure(NoDataRow)
        else Success(CsvStructure(header.value, hasBom, terminator))
  }

  /** A catalogue is a possible mark, the frozen header alone on its line, and more than line ends after it. */
  ghost predicate IsCatalog(decode: Bytes -> Option<string>, content: Bytes, expected: string, s: CsvStructure,
                            line: Bytes, rest: Bytes) {
    && 0 !in content && decode(content).Some?
    && s.header == expected && decode(line) == Some(expected) && OneLine(line)
    && (s.hasBom <==> UTF8_BOM <= content)
    && content == (if s.hasBom then UTF8_BOM else []) + line + Ending(s.terminator) + rest
    && exists b :: b in rest && b != CR && b != LF
  }

  /** A catalogue is accepted, as this structure, exactly when it is one with this structure. */
  lemma {:induction false} CatalogAcceptedIff(decode: Bytes -> Option<string>, content: Bytes, expected: string,
                                              s: CsvStructure)
    ensures ValidateCatalog(decode, content, expected) == Success(s) <==>
      exists line, rest :: IsCatalog(decode, content, expected, s, line, rest)
  {
    if ValidateCatalog(decode, content, expected) == Success(s) { AcceptedParts(decode, content, expected, s); }
    forall line, rest | IsCatalog(decode, content, expected, s, line, rest)
      ensures ValidateCatalog(decode, content, expected) == Success(s)
    {
      CatalogAccepted(decode, content, expected, s, line, rest);
    }
  }

  /** The text after the mark. */
  function Body(content: Bytes): Bytes { if UTF8_BOM <= content then content[|UTF8_BOM|..] else content }

  lemma {:induction false} MarkAndBody(content: Bytes, s: CsvStructure, line: Bytes, rest: Bytes)
    requires s.hasBom <==> UTF8_BOM <= content
    ensures content == (if s.hasBom then UTF8_BOM else []) + line + Ending(s.terminator) + rest
       <==> Body(content) == line + Ending(s.terminator) + rest
  {
    var mark := if s.hasBom then UTF8_BOM else [];
    var text := line + Ending(s.terminator) + rest;
    assert content == mark + Body(content);
    assert mark + line + Ending(s.terminator) + rest == mark + text;
    assert (mark + text)[|mark|..] == text && (mark + Body(content))[|mark|..] == Body(content);
  }

  lemma {:induction false} AcceptedParts(decode: Bytes -> Option<string>, content: Bytes, expected: string,
                                         s: CsvStructure)
    requires ValidateCatalog(decode, content, expected) == Success(s)
    ensures exists line, rest :: IsCatalog(decode, content, expected, s, line, rest)
  {
    var (line, terminator, rest) := SplitFirstLine(Body(content)).value;
    SplitParts(Body(content));
    MarkAndBody(content, s, line, rest);
    assert IsCatalog(decode, content, expected, s, line, rest);
  }

  lemma {:induction false} CatalogAccepted(decode: Bytes -> Option<string>, content: Bytes, expected: string,
                                           s: CsvStructure, line: Bytes, rest: Bytes)
    requires IsCatalog(decode, content, expected, s, line, rest)
    ensures ValidateCatalog(decode, content, expected) == Success(s)
  {
    MarkAndBody(content, s, line, rest);
    SplitFinds(line, s.terminator, rest);
  }

  /** Why a text that is no catalogue is refused: the first of these that is the case. */
  lemma {:induction false} CatalogRefused(decode: Bytes -> Option<string>, content: Bytes, expected: string)
    requires ValidateCatalog(decode, content, expected).Failure?
    ensures
      var e, body := ValidateCatalog(decode, content, expected).error, Body(content);
      var split := exists line, t, rest :: OneLine(line) && body == line + Ending(t) + rest;
      && (e == NulByte <==> 0 in content)
      && (e == NotUtf8 <==> 0 !in content && decode(content).None?)
      && (e == NoTerminator <==> 0 !in content && decode(content).Some? && !split)
      && (e == HeaderNotUtf8 ==>
            exists line, t, rest :: OneLine(line) && body == line + Ending(t) + rest && decode(line).None?)
      && (e == HeaderDiffers ==> exists line, t, rest ::
            OneLine(line) && body == line + Ending(t) + rest && decode(line).Some? && decode(line).value != expected)
      && (e == NoDataRow ==> exists line, t, rest ::
            OneLine(line) && body == line + Ending(t) + rest && forall b :: b in rest ==> b == CR || b == LF)
  {
    var body := Body(content);
    forall line, t, rest | OneLine(line) && body == line + Ending(t) + rest
      ensures SplitFirstLine(body) == Success((line, t, rest))
    {
      SplitIff(body, line, t, rest);
    }
    if SplitFirstLine(body).Success? { SplitParts(body); }
  }
}
