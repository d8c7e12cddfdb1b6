/**
  The scanner that blanks SQL literals and comments in place, and the statement-wise
  search for forbidden operations over its output.
 */
module SqlScanner {
  import opened Prelude
  import opened Strings

  datatype State = Normal | LineComment | BlockComment | SingleQuote | DoubleQuote | DollarQuote

  /** The state with the nesting depth and the dollar delimiter that belong to it. */
  datatype Mode = Mode(state: State, depth: nat, delimiter: string)

  const START := Mode(Normal, 0, "")

  predicate IsTagStart(c: char) { 'A' <= c <= 'Z' || 'a' <= c <= 'z' || c == '_' }

  predicate IsTagChar(c: char) { IsTagStart(c) || '0' <= c <= '9' }

  predicate IsLineEnd(c: char) { c == '\r' || c == '\n' }

  function BlankChar(c: char): char { if IsLineEnd(c) then c else ' ' }

  function Blanked(s: string): (r: string)
    ensures |r| == |s| && forall i :: 0 <= i < |s| ==> r[i] == BlankChar(s[i])
  {
    seq(|s|, i requires 0 <= i < |s| => BlankChar(s[i]))
  }

  predicate StartsWith(s: string, prefix: string) { prefix <= s }

  /** The text starts with these two characters. */
  predicate Starts2(s: string, a: char, b: char) { |s| >= 2 && s[0] == a && s[1] == b }

  /** Length of the longest run of tag characters at the front. */
  function TagRun(s: string): (n: nat)
    ensures n <= |s| && (forall i :: 0 <= i < n ==> IsTagChar(s[i])) && (n < |s| ==> !IsTagChar(s[n]))
  {
    if s == "" || !IsTagChar(s[0]) then 0 else 1 + TagRun(s[1..])
  }

  /** Length of the dollar delimiter `\$(?:[A-Za-z_][A-Za-z0-9_]*)?\$` at the front, or 0. */
  function DollarLength(s: string): (n: nat)
    ensures n <= |s| && (n > 0 ==> n >= 2 && s[0] == '$' && s[n - 1] == '$')
    ensures forall i :: 0 < i < n - 1 ==> IsTagChar(s[i])
  {
    if |s| < 2 || s[0] != '$' then 0
    else if s[1] == '$' then 2
    else if !IsTagStart(s[1]) then 0
    else
      var run := TagRun(s[1..]);
      if 1 + run < |s| && s[1 + run] == '$' then run + 2 else 0
  }

  /** A comment, quote or dollar delimiter opens here. */
  predicate Opens(s: string) {
    Starts2(s, '-', '-') || Starts2(s, '/', '*') || (s != "" && (s[0] == '\'' || s[0] == '"')) || DollarLength(s) > 0
  }

  // ---------------------------------------------------------------- what the scanner computes

  /** How many characters to consume next, whether to blank them, and the mode after them. */
  datatype Token = Token(length: nat, blank: bool, mode: Mode)

  predicate ValidMode(m: Mode) {
    && (m.state == BlockComment ==> m.depth >= 1)
    && (m.state == DollarQuote ==> m.delimiter != "" && forall c :: c in m.delimiter ==> c == '$' || IsTagChar(c))
  }

  function NextToken(s: string, m: Mode): (t: Token)
    requires s != "" && ValidMode(m)
    ensures 1 <= t.length <= |s| && ValidMode(t.mode)
  {
    match m.state
    case Normal =>
      if Starts2(s, '-', '-') then Token(2, true, m.(state := LineComment))
      else if Starts2(s, '/', '*') then Token(2, true, m.(state := BlockComment, depth := 1))
      else if s[0] == '\'' then Token(1, true, m.(state := SingleQuote))
      else if s[0] == '"' then Token(1, true, m.(state := DoubleQuote))
      else if DollarLength(s) > 0 then
        Token(DollarLength(s), true, m.(state := DollarQuote, delimiter := s[..DollarLength(s)]))
      else Token(1, false, m)
    case LineComment =>
      if IsLineEnd(s[0]) then Token(1, false, m.(state := Normal)) else Token(1, true, m)
    case BlockComment =>
      if Starts2(s, '/', '*') then Token(2, true, m.(depth := m.depth + 1))
      else if Starts2(s, '*', '/') then
        Token(2, true, if m.depth == 1 then m.(depth := 0, state := Normal) else m.(depth := m.depth - 1))
      else Token(1, true, m)
    case SingleQuote =>
      if Starts2(s, '\'', '\'') || (s[0] == '\\' && |s| > 1) then Token(2, true, m)
      else if s[0] == '\'' then Token(1, true, m.(state := Normal))
      else Token(1, true, m)
    case DoubleQuote =>
      if Starts2(s, '"', '"') then Token(2, true, m)
      else if s[0] == '"' then Token(1, true, m.(state := Normal))
      else Token(1, true, m)
    case DollarQuote =>
      if StartsWith(s, m.delimiter) then Token(|m.delimiter|, true, m.(state := Normal))
      else Token(1, true, m)
  }

  /** The scanned text and the mode at its end. */
  function Scan(s: string, m: Mode): (r: (string, Mode))
    requires ValidMode(m)
    ensures |r.0| == |s| && ValidMode(r.1)
    decreases |s|
  {
    if s == "" then ("", m)
    else
      var t := NextToken(s, m);
      var (rest, end) := Scan(s[t.length..], t.mode);
      ((if t.blank then Blanked(s[..t.length]) else s[..t.length]) + rest, end)
  }

  datatype SqlError = Unterminated(state: State)

  predicate Terminated(m: Mode) { m.state == Normal || m.state == LineComment }

  function Stripped(sql: string): Result<string, SqlError> {
    var (out, end) := Scan(sql, START);
    if Terminated(end) then Success(out) else Failure(Unterminated(end.state))
  }

  // ---------------------------------------------------------------- the scanner, in place

  method Blank(output: array<char>, start: nat, end: nat)
    requires start <= end <= output.Length
    modifies output
    ensures output[..] == old(output[..start]) + Blanked(old(output[start..end])) + old(output[end..])
  {
    for position := start to end
      invariant forall i :: 0 <= i < output.Length ==>
        output[i] == if start <= i < position then BlankChar(old(output[i])) else old(output[i])
    {
      if !IsLineEnd(output[position]) { output[position] := ' '; }
    }
  }

  /** What one token contributes. */
  function TokenText(s: string, t: Token): (r: string)
    requires t.length <= |s|
    ensures |r| == t.length
  {
    if t.blank then Blanked(s[..t.length]) else s[..t.length]
  }

  /** A scan that starts with token `t`. */
  lemma {:induction false} ScanUnfold(s: string, m: Mode, t: Token)
    requires s != "" && ValidMode(m) && t == NextToken(s, m)
    ensures Scan(s, m) == (TokenText(s, t) + Scan(s[t.length..], t.mode).0, Scan(s[t.length..], t.mode).1)
  {
  }

  /** Consuming one token moves its text from the unread scan to the finished part. */
  lemma {:induction false} ScanStep(rest: string, m: Mode, t: Token, done: string, whole: (string, Mode))
    requires rest != "" && ValidMode(m) && t == NextToken(rest, m)
    requires done + Scan(rest, m).0 == whole.0 && Scan(rest, m).1 == whole.1
    ensures done + TokenText(rest, t) + Scan(rest[t.length..], t.mode).0 == whole.0
    ensures Scan(rest[t.length..], t.mode).1 == whole.1
  {
    ScanUnfold(rest, m, t);
    Assoc(done, TokenText(rest, t), Scan(rest[t.length..], t.mode).0);
  }

  /** The branches of one turn of the loop: what to consume and the scanner's variables after it. */
  method ReadToken(sql: string, index: nat, state: State, blockDepth: nat, dollarDelimiter: string)
    returns (length: nat, blank: bool, state': State, blockDepth': nat, dollarDelimiter': string)
    requires index < |sql| && ValidMode(Mode(state, blockDepth, dollarDelimiter))
    ensures Token(length, blank, Mode(state', blockDepth', dollarDelimiter'))
         == NextToken(sql[index..], Mode(state, blockDepth, dollarDelimiter))
  {
    length, blank, state', blockDepth', dollarDelimiter' := 1, true, state, blockDepth, dollarDelimiter;
    var rest := sql[index..];
    match state
    case Normal =>
      if Starts2(rest, '-', '-') { length := 2; state' := LineComment; }
      else if Starts2(rest, '/', '*') { length := 2; blockDepth' := 1; state' := BlockComment; }
      else if sql[index] == '\'' { state' := SingleQuote; }
      else if sql[index] == '"' { state' := DoubleQuote; }
      else if sql[index] == '$' {
        var matched := DollarLength(rest);
        if matched == 0 { blank := false; }
        else { dollarDelimiter' := rest[..matched]; length := matched; state' := DollarQuote; }
      }
      else { blank := false; }
    case LineComment =>
      if IsLineEnd(sql[index]) { state' := Normal; blank := false; }
    case BlockComment =>
      if Starts2(rest, '/', '*') { length := 2; blockDepth' := blockDepth + 1; }
      else if Starts2(rest, '*', '/') {
        length := 2;
        blockDepth' := blockDepth - 1;
        if blockDepth' == 0 { state' := Normal; }
      }
    case SingleQuote =>
      if Starts2(rest, '\'', '\'') || (sql[index] == '\\' && index + 1 < |sql|) { length := 2; }
      else if sql[index] == '\'' { state' := Normal; }
    case DoubleQuote =>
      if Starts2(rest, '"', '"') { length := 2; }
      else if sql[index] == '"' { state' := Normal; }
    case DollarQuote =>
      if StartsWith(rest, dollarDelimiter) { length := |dollarDelimiter|; state' := Normal; }
  }

  /** `done` and the scan of the rest of the text make up the whole scan. */
  ghost predicate ScannedTo(sql: string, index: nat, m: Mode, done: string) {
    && index <= |sql| && ValidMode(m)
    && Scan(sql, START) == (done + Scan(sql[index..], m).0, Scan(sql[index..], m).1)
  }

  lemma {:induction false} ScannedNone(sql: string)
    ensures ScannedTo(sql, 0, START, "")
  {
    assert sql[0..] == sql && "" + Scan(sql, START).0 == Scan(sql, START).0;
  }

  lemma {:induction false} ScannedOn(sql: string, index: nat, m: Mode, done: string, t: Token, more: string)
    requires ScannedTo(sql, index, m, done) && index < |sql| && t == NextToken(sql[index..], m)
    requires more == done + TokenText(sql[index..], t)
    ensures ScannedTo(sql, index + t.length, t.mode, more)
  {
    ScanStep(sql[index..], m, t, done, Scan(sql, START));
    assert sql[index..][t.length..] == sql[index + t.length..];
  }

  lemma {:induction false} ScannedAll(sql: string, m: Mode, done: string)
    requires ScannedTo(sql, |sql|, m, done)
    ensures Scan(sql, START) == (done, m)
  {
    assert sql[|sql|..] == "" && done + "" == done;
  }

  /** Writes one token over the copy of the input; what is before and after it stays. */
  method WriteToken(output: array<char>, sql: string, index: nat, t: Token)
    requires output.Length == |sql| && index + t.length <= |sql| && output[index..] == sql[index..]
    modifies output
    ensures output[..index + t.length] == old(output[..index]) + TokenText(sql[index..], t)
    ensures output[index + t.length..] == sql[index + t.length..]
  {
    var end := index + t.length;
    assert output[end..] == sql[index..][t.length..] == sql[end..];
    assert output[index..end] == sql[index..][..t.length];
    assert output[..end] == output[..index] + output[index..end];
    if t.blank {
      ghost var before := output[..index] + Blanked(output[index..end]);
      ghost var after := output[end..];
      Blank(output, index, end);
      assert output[..] == before + after && |before| == end;
      assert output[..][..end] == before && output[..][end..] == after;
    }
  }

  method StripSqlLiteralsAndComments(sql: string) returns (r: Result<string, SqlError>)
    ensures r == Stripped(sql)
  {
    var output := new char[|sql|](i requires 0 <= i < |sql| => sql[i]);
    var index, state, dollarDelimiter := 0, Normal, "";
    var blockDepth: nat := 0;
    ScannedNone(sql);
    assert output[..0] == "" && output[0..] == sql[0..];
    while index < |sql|
      invariant 0 <= index <= |sql| && output.Length == |sql| && output[index..] == sql[index..]
      invariant ScannedTo(sql, index, Mode(state, blockDepth, dollarDelimiter), output[..index])
      decreases |sql| - index
    {
      ghost var mode, done := Mode(state, blockDepth, dollarDelimiter), output[..index];
      var length, blank;
      length, blank, state, blockDepth, dollarDelimiter := ReadToken(sql, index, state, blockDepth, dollarDelimiter);
      var token := Token(length, blank, Mode(state, blockDepth, dollarDelimiter));
      WriteToken(output, sql, index, token);
      ScannedOn(sql, index, mode, done, token, output[..index + length]);
      index := index + length;
    }
    assert output[..index] == output[..];
    ScannedAll(sql, Mode(state, blockDepth, dollarDelimiter), output[..]);
    if !(state == Normal || state == LineComment) { return Failure(Unterminated(state)); }
    return Success(output[..]);
  }

  // ---------------------------------------------------------------- shape of the output

  /** Same length, every position kept or a space, and every line end kept. */
  ghost predicate BlankedFrom(out: string, sql: string) {
    |out| == |sql| && forall i :: 0 <= i < |sql| ==> out[i] == sql[i] || (out[i] == ' ' && !IsLineEnd(sql[i]))
  }

  lemma {:induction false} ScanShape(s: string, m: Mode)
    requires ValidMode(m)
    ensures BlankedFrom(Scan(s, m).0, s)
    decreases |s|
  {
    if s != "" {
      var t := NextToken(s, m);
      ScanShape(s[t.length..], t.mode);
      var out, rest := Scan(s, m).0, Scan(s[t.length..], t.mode).0;
      assert out == TokenText(s, t) + rest;
      forall i | 0 <= i < |s| ensures out[i] == s[i] || (out[i] == ' ' && !IsLineEnd(s[i])) {
        if i >= t.length { assert out[i] == rest[i - t.length] && s[i] == s[t.length..][i - t.length]; }
      }
    }
  }

  /** No comment, quote or dollar delimiter opens anywhere. */
  ghost predicate NoOpener(s: string) { forall i :: 0 <= i < |s| ==> !Opens(s[i..]) }

  lemma {:induction false} TagRunIs(s: string, n: nat)
    requires n <= |s| && (forall i :: 0 <= i < n ==> IsTagChar(s[i])) && (n < |s| ==> !IsTagChar(s[n]))
    ensures TagRun(s) == n
  {
  }

  /** Blanking cannot make an opener: one that shows in the output was there before. */
  lemma {:induction false} OpenerWasThere(out: string, s: string)
    requires BlankedFrom(out, s) && Opens(out)
    ensures Opens(s)
  {
    var n := DollarLength(out);
    if n > 2 {
      assert forall i :: 0 <= i < n ==> s[i] == out[i];
      TagRunIs(s[1..], n - 2);
    }
  }

  /** A character is kept only where nothing opens, or as the end of a line comment. */
  lemma {:induction false} KeptToken(s: string, m: Mode)
    requires s != "" && ValidMode(m) && !NextToken(s, m).blank
    ensures NextToken(s, m).length == 1 && (IsLineEnd(s[0]) || !Opens(s))
  {
  }

  lemma {:induction false} BlankOpensNothing(s: string)
    requires s != "" && (s[0] == ' ' || IsLineEnd(s[0]))
    ensures !Opens(s)
  {
  }

  /** Inside one token of the output nothing opens. */
  lemma {:induction false} TokenHidesOpeners(s: string, m: Mode, i: nat, out: string)
    requires s != "" && ValidMode(m) && i < NextToken(s, m).length
    requires BlankedFrom(out, s) && TokenText(s, NextToken(s, m)) <= out
    ensures !Opens(out[i..])
  {
    var t := NextToken(s, m);
    assert out[i..][0] == TokenText(s, t)[i];
    if t.blank || IsLineEnd(s[i]) {
      BlankOpensNothing(out[i..]);
    } else {
      KeptToken(s, m);
      assert out[0..] == out;
      if Opens(out) { OpenerWasThere(out, s); }
    }
  }

  lemma {:induction false} ScanRemovesOpeners(s: string, m: Mode)
    requires ValidMode(m)
    ensures NoOpener(Scan(s, m).0)
    decreases |s|
  {
    if s != "" {
      var t := NextToken(s, m);
      var out, rest := Scan(s, m).0, Scan(s[t.length..], t.mode).0;
      ScanRemovesOpeners(s[t.length..], t.mode);
      ScanShape(s, m);
      assert out == TokenText(s, t) + rest;
      forall i | 0 <= i < |out| ensures !Opens(out[i..]) {
        if i < t.length { TokenHidesOpeners(s, m, i, out); } else { assert out[i..] == rest[i - t.length..]; }
      }
    }
  }

  lemma {:induction false} NoOpenerIsFixed(s: string)
    requires NoOpener(s)
    ensures Scan(s, START) == (s, START)
    decreases |s|
  {
    if s != "" {
      assert s[0..] == s && !Opens(s[0..]);
      forall i | 0 <= i < |s[1..]| ensures !Opens(s[1..][i..]) { assert s[1..][i..] == s[i + 1..]; }
      NoOpenerIsFixed(s[1..]);
      assert NextToken(s, START) == Token(1, false, START);
      assert s[..1] + s[1..] == s;
    }
  }

  /**
    The scanner's output has the input's length, keeps every line end where it was, is the
    input or a space at each position, and holds nothing that opens a comment, a quote or
    a dollar string; so scanning it again never raises and returns it unchanged.
   */
  lemma {:induction false} StrippedIsClean(sql: string)
    requires Stripped(sql).Success?
    ensures
      var out := Stripped(sql).value;
      && |out| == |sql| && NoOpener(out)
      && (forall i :: 0 <= i < |sql| ==> out[i] == sql[i] || out[i] == ' ')
      && (forall i :: 0 <= i < |sql| ==>
            (IsLineEnd(out[i]) <==> IsLineEnd(sql[i])) && (IsLineEnd(sql[i]) ==> out[i] == sql[i]))
      && Stripped(out) == Success(out)
  {
    ScanShape(sql, START);
    ScanRemovesOpeners(sql, START);
    NoOpenerIsFixed(Scan(sql, START).0);
  }

  // ---------------------------------------------------------------- statements

  /** The scan of `s`, in mode `m`, does not look past its end when a semicolon follows. */
  lemma {:induction false} TokenStops(s: string, m: Mode, rest: string)
    requires s != "" && ValidMode(m) && rest != "" && rest[0] == ';'
    requires !(m.state == SingleQuote && s == "\\")
    ensures NextToken(s + rest, m) == NextToken(s, m)
  {
    var both := s + rest;
    assert both[0] == s[0];
    assert |s| == 1 ==> both[1] == ';';
    match m.state
    case Normal =>
      SameDollarLength(s, rest);
      assert both[..DollarLength(s)] == s[..DollarLength(s)];
    case DollarQuote =>
      PrefixStops(s, m.delimiter, rest);
    case _ =>
  }

  lemma {:induction false} PrefixStops(s: string, prefix: string, rest: string)
    requires rest != "" && rest[0] !in prefix
    ensures StartsWith(s + rest, prefix) <==> StartsWith(s, prefix)
  {
    var both := s + rest;
    assert both[|s|] == rest[0] && (|prefix| > |s| ==> prefix[|s|] in prefix);
    if StartsWith(both, prefix) { assert prefix == both[..|prefix|] == s[..|prefix|]; }
  }

  lemma {:induction false} SameDollarLength(s: string, rest: string)
    requires s != "" && rest != "" && rest[0] == ';'
    ensures DollarLength(s + rest) == DollarLength(s)
  {
    var both := s + rest;
    assert both[0] == s[0];
    if |s| > 1 {
      var run := TagRun(s[1..]);
      assert both[1..] == s[1..] + rest;
      assert run == |s[1..]| ==> both[1..][run] == ';';
      TagRunIs(both[1..], run);
    }
  }

  lemma {:induction false} TokenTextStops(s: string, t: Token, rest: string)
    requires t.length <= |s|
    ensures TokenText(s + rest, t) == TokenText(s, t) && (s + rest)[t.length..] == s[t.length..] + rest
  {
    assert (s + rest)[..t.length] == s[..t.length];
  }

  /** Scanning a text that ends outside literals, then a semicolon and more, splits there. */
  lemma {:induction false} ScanAppend(s: string, m: Mode, rest: string)
    requires ValidMode(m) && rest != "" && rest[0] == ';'
    requires Terminated(Scan(s, m).1)
    ensures Scan(s + rest, m) == (Scan(s, m).0 + Scan(rest, Scan(s, m).1).0, Scan(rest, Scan(s, m).1).1)
    decreases |s|
  {
    if s == "" {
      assert s + rest == rest && "" + Scan(rest, m).0 == Scan(rest, m).0;
    } else {
      NotLoneBackslash(s, m);
      TokenStops(s, m, rest);
      var t := NextToken(s, m);
      ScanUnfold(s, m, t);
      ScanUnfold(s + rest, m, t);
      TokenTextStops(s, t, rest);
      ScanAppend(s[t.length..], t.mode, rest);
      Assoc(TokenText(s, t), Scan(s[t.length..], t.mode).0, Scan(rest, Scan(s, m).1).0);
    }
  }

  lemma {:induction false} NotLoneBackslash(s: string, m: Mode)
    requires s != "" && ValidMode(m) && Terminated(Scan(s, m).1)
    ensures !(m.state == SingleQuote && s == "\\")
  {
    assert Scan("", m) == ("", m);
    assert |s| == 1 ==> s[1..] == "";
  }

  /** Two modes that agree on all their state can use scan alike. */
  ghost predicate Alike(m: Mode, n: Mode) {
    && m.state == n.state && ValidMode(m) && ValidMode(n)
    && (m.state == BlockComment ==> m.depth == n.depth) && (m.state == DollarQuote ==> m.delimiter == n.delimiter)
  }

  lemma {:induction false} ForgetsBoth(s: string, m: Mode, n: Mode)
    requires Alike(m, n)
    ensures Scan(s, m).0 == Scan(s, n).0 && Scan(s, m).1.state == Scan(s, n).1.state
    decreases |s|
  {
    if s != "" {
      var t, u := NextToken(s, m), NextToken(s, n);
      assert t.length == u.length && t.blank == u.blank && Alike(t.mode, u.mode);
      ForgetsBoth(s[t.length..], t.mode, u.mode);
    }
  }

  /** One more character in front of a text split at semicolons. */
  function Prepend(c: char, statements: seq<string>): (r: seq<string>)
    requires statements != []
    ensures r != []
  {
    if c == ';' then [""] + statements else [[c] + statements[0]] + statements[1..]
  }

  /** `s.split(";")` */
  function Statements(s: string): (r: seq<string>)
    ensures r != []
  {
    if s == "" then [""] else Prepend(s[0], Statements(s[1..]))
  }

  lemma {:induction false} StatementsCons(c: char, s: string)
    ensures Statements([c] + s) == Prepend(c, Statements(s))
  {
    assert ([c] + s)[1..] == s;
  }

  lemma {:induction false} PrependAppends(c: char, x: seq<string>, more: seq<string>)
    requires x != []
    ensures Prepend(c, x + more) == Prepend(c, x) + more
  {
    assert (x + more)[0] == x[0] && (x + more)[1..] == x[1..] + more;
  }

  lemma {:induction false} StatementsAppend(a: string, b: string)
    ensures Statements(a + ";" + b) == Statements(a) + Statements(b)
  {
    if a == "" {
      StatementsCons(';', b);
      assert a + ";" + b == [';'] + b;
    } else {
      StatementsAppend(a[1..], b);
      assert [a[0]] + (a[1..] + ";" + b) == a + ";" + b;
      StatementsCons(a[0], a[1..] + ";" + b);
      PrependAppends(a[0], Statements(a[1..]), Statements(b));
    }
  }

  /** Statements with a semicolon between each two. */
  function Glued(statements: seq<string>): string
    requires statements != []
  {
    if |statements| == 1 then statements[0] else statements[0] + (";" + Glued(statements[1..]))
  }

  /** Splitting gives back exactly the semicolon-free parts that were put together. */
  lemma {:induction false} StatementsIff(s: string, parts: seq<string>)
    requires parts != []
    ensures Statements(s) == parts <==>
      Glued(parts) == s && forall i :: 0 <= i < |parts| ==> ';' !in parts[i]
  {
    StatementsGlue(s);
    if forall i :: 0 <= i < |parts| ==> ';' !in parts[i] { GluedSplits(parts); }
  }

  lemma {:induction false} StatementsGlue(s: string)
    ensures Glued(Statements(s)) == s && forall i :: 0 <= i < |Statements(s)| ==> ';' !in Statements(s)[i]
  {
    if s != "" {
      StatementsGlue(s[1..]);
      PrependGlues(s[0], Statements(s[1..]));
      assert s == [s[0]] + s[1..];
    }
  }

  lemma {:induction false} PrependGlues(c: char, x: seq<string>)
    requires x != [] && forall i :: 0 <= i < |x| ==> ';' !in x[i]
    ensures Glued(Prepend(c, x)) == [c] + Glued(x)
    ensures forall i :: 0 <= i < |Prepend(c, x)| ==> ';' !in Prepend(c, x)[i]
  {
    var p := Prepend(c, x);
    if c == ';' {
      assert p[1..] == x && "" + (";" + Glued(x)) == [c] + Glued(x);
    } else {
      assert p[1..] == x[1..] && p[0] == [c] + x[0];
      if |x| > 1 { Assoc([c], x[0], ";" + Glued(x[1..])); }
    }
  }

  lemma {:induction false} GluedSplits(parts: seq<string>)
    requires parts != [] && forall i :: 0 <= i < |parts| ==> ';' !in parts[i]
    ensures Statements(Glued(parts)) == parts
  {
    OneStatement(parts[0]);
    if |parts| > 1 {
      GluedSplits(parts[1..]);
      StatementsAppend(parts[0], Glued(parts[1..]));
      Assoc(parts[0], ";", Glued(parts[1..]));
      assert parts == [parts[0]] + parts[1..];
    }
  }

  /** A forbidden operation: its name and the test on a normalised statement. */
  datatype Pattern = Pattern(operation: string, hits: Str -> bool)

  function StatementViolations(statement: Str, patterns: seq<Pattern>): seq<string> {
    if patterns == [] then []
    else
      StatementViolations(statement, patterns[..|patterns| - 1])
      + if patterns[|patterns| - 1].hits(statement) then [patterns[|patterns| - 1].operation] else []
  }

  /** `" ".join(statement.upper().split())` */
  function Normalized(upper: string -> Str, statement: string): Str { Join(Split(upper(statement))) }

  /** Violations of the statements in order; `upper` is Unicode upper-casing. */
  function Violations(statements: seq<string>, upper: string -> Str, patterns: seq<Pattern>): seq<string> {
    if statements == [] then []
    else
      Violations(statements[..|statements| - 1], upper, patterns)
      + StatementPart(statements[|statements| - 1], upper, patterns)
  }

  function Forbidden(sql: string, upper: string -> Str, patterns: seq<Pattern>): Result<seq<string>, SqlError> {
    match Stripped(sql)
    case Failure(e) => Failure(e)
    case Success(stripped) => Success(Violations(Statements(stripped), upper, patterns))
  }

  /** The inner loop over the patterns. */
  method PatternHits(statement: Str, patterns: seq<Pattern>) returns (hits: seq<string>)
    ensures hits == StatementViolations(statement, patterns)
  {
    hits := [];
    for j := 0 to |patterns|
      invariant hits == StatementViolations(statement, patterns[..j])
    {
      assert patterns[..j + 1][..j] == patterns[..j];
      if patterns[j].hits(statement) { hits := hits + [patterns[j].operation]; }
    }
    assert patterns[..|patterns|] == patterns;
  }

  method ForbiddenOperations(sql: string, upper: string -> Str, patterns: seq<Pattern>)
    returns (r: Result<seq<string>, SqlError>)
    ensures r == Forbidden(sql, upper, patterns)
  {
    var stripped := StripSqlLiteralsAndComments(sql);
    if stripped.Failure? { return Failure(stripped.error); }
    var violations := StatementsViolations(Statements(stripped.value), upper, patterns);
    return Success(violations);
  }

  /** The outer loop over the statements. */
  method StatementsViolations(statements: seq<string>, upper: string -> Str, patterns: seq<Pattern>)
    returns (violations: seq<string>)
    ensures violations == Violations(statements, upper, patterns)
  {
    violations := [];
    for i := 0 to |statements|
      invariant violations == Violations(statements[..i], upper, patterns)
    {
      assert statements[..i + 1][..i] == statements[..i];
      var normalized := Normalized(upper, statements[i]);
      if normalized == [] { continue; }
      var hits := PatternHits(normalized, patterns);
      violations := violations + hits;
    }
    assert statements[..|statements|] == statements;
  }

  function StatementPart(statement: string, upper: string -> Str, patterns: seq<Pattern>): seq<string> {
    var normalized := Normalized(upper, statement);
    if normalized == [] then [] else StatementViolations(normalized, patterns)
  }

  lemma {:induction false} ViolationsLast(s: seq<string>, upper: string -> Str, patterns: seq<Pattern>)
    requires s != []
    ensures Violations(s, upper, patterns) ==
      Violations(s[..|s| - 1], upper, patterns) + StatementPart(s[|s| - 1], upper, patterns)
  {
  }

  lemma {:induction false} ViolationsAppend(a: seq<string>, b: seq<string>, upper: string -> Str,
                                            patterns: seq<Pattern>)
    ensures Violations(a + b, upper, patterns) == Violations(a, upper, patterns) + Violations(b, upper, patterns)
  {
    if b == [] {
      assert a + b == a;
    } else {
      var n, last := |b| - 1, b[|b| - 1];
      ViolationsAppend(a, b[..n], upper, patterns);
      Assoc(a, b[..n], [last]);
      assert b == b[..n] + [last];
      ViolationsMore(a + b[..n], last, upper, patterns);
      ViolationsMore(b[..n], last, upper, patterns);
      Assoc(Violations(a, upper, patterns), Violations(b[..n], upper, patterns), StatementPart(last, upper, patterns));
    }
  }

  lemma {:induction false} ViolationsMore(s: seq<string>, last: string, upper: string -> Str, patterns: seq<Pattern>)
    ensures Violations(s + [last], upper, patterns)
      == Violations(s, upper, patterns) + StatementPart(last, upper, patterns)
  {
    assert (s + [last])[..|s|] == s;
  }

  lemma {:induction false} StatementReports(statement: Str, patterns: seq<Pattern>, operation: string)
    ensures operation in StatementViolations(statement, patterns) <==>
      exists p :: p in patterns && p.hits(statement) && p.operation == operation
  {
    if patterns != [] {
      var n := |patterns| - 1;
      StatementReports(statement, patterns[..n], operation);
      assert patterns == patterns[..n] + [patterns[n]];
    }
  }

  /** The patterns are tried in order. */
  lemma {:induction false} PatternsInOrder(statement: Str, a: seq<Pattern>, b: seq<Pattern>)
    ensures StatementViolations(statement, a + b)
      == StatementViolations(statement, a) + StatementViolations(statement, b)
  {
    if b == [] {
      assert a + b == a;
    } else {
      var n := |b| - 1;
      PatternsInOrder(statement, a, b[..n]);
      assert (a + b)[..|a + b| - 1] == a + b[..n] && (a + b)[|a + b| - 1] == b[n];
    }
  }

  /** An operation is reported exactly when some statement, normalised and not blank, matches its pattern. */
  lemma {:induction false} ReportedIff(statements: seq<string>, upper: string -> Str, patterns: seq<Pattern>,
                                       operation: string)
    ensures operation in Violations(statements, upper, patterns) <==>
      exists s, p :: s in statements && Split(upper(s)) != [] && p in patterns
                     && p.hits(Join(Split(upper(s)))) && p.operation == operation
  {
    if statements != [] {
      var n := |statements| - 1;
      var last := statements[n];
      ReportedIff(statements[..n], upper, patterns, operation);
      StatementReports(Normalized(upper, last), patterns, operation);
      JoinIsBlank(Split(upper(last)));
      SplitHasWords(upper(last));
      assert statements == statements[..n] + [last];
    }
  }

  lemma {:induction false} SplitHasWords(s: Str)
    ensures forall i :: 0 <= i < |Split(s)| ==> Split(s)[i] != []
  {
    var gaps := SplitWeaves(s);
  }

  lemma {:induction false} JoinIsBlank(words: seq<Str>)
    ensures (forall i :: 0 <= i < |words| ==> words[i] != []) ==> (Join(words) == [] <==> words == [])
  {
  }

  /** A semicolon in the normal state is kept and changes nothing. */
  lemma {:induction false} ScanSemicolon(b: string, m: Mode)
    requires ValidMode(m) && m.state == Normal
    ensures Scan(";" + b, m) == (";" + Scan(b, m).0, Scan(b, m).1)
  {
    var s, t := ";" + b, Token(1, false, m);
    assert s[0] == ';' && s[1..] == b && s[..1] == ";";
    assert NextToken(s, m) == t;
    ScanUnfold(s, m, t);
  }

  /** From a text that ends in the normal state, the scan carries over as if it began afresh. */
  lemma {:induction false} ScanJoin(a: string, b: string)
    requires Scan(a, START).1.state == Normal
    ensures Scan(a + ";" + b, START).0 == Scan(a, START).0 + ";" + Scan(b, START).0
    ensures Scan(a + ";" + b, START).1.state == Scan(b, START).1.state
  {
    var end := Scan(a, START).1;
    ScanAppend(a, START, ";" + b);
    Assoc(a, ";", b);
    ForgetsBoth(b, end, START);
    ScanSemicolon(b, end);
    Assoc(Scan(a, START).0, ";", Scan(b, START).0);
  }

  /** `a;b` is refused exactly when `b` is, and its violations are those of `a`, then those of `b`. */
  ghost predicate Composes(a: string, b: string, upper: string -> Str, patterns: seq<Pattern>) {
    && Forbidden(a, upper, patterns).Success?
    && Forbidden(a + ";" + b, upper, patterns) ==
         match Forbidden(b, upper, patterns)
         case Failure(e) => Failure(e)
         case Success(later) => Success(Forbidden(a, upper, patterns).value + later)
  }

  /**
    Statement by statement: when the first text ends outside every literal and comment,
    the violations of the joined text are those of the first followed by those of the
    second, and it is refused exactly when the second is.
   */
  lemma {:induction false} StatementsCompose(a: string, b: string, upper: string -> Str, patterns: seq<Pattern>)
    requires Scan(a, START).1.state == Normal
    ensures Composes(a, b, upper, patterns)
  {
    ScanJoin(a, b);
    var x, y := Scan(a, START).0, Scan(b, START).0;
    StatementsAppend(x, y);
    ViolationsAppend(Statements(x), Statements(y), upper, patterns);
  }

  lemma {:induction false} CommentRunsOn(s: string, m: Mode)
    requires m.state == LineComment && forall c :: c in s ==> !IsLineEnd(c)
    ensures Scan(s, m) == (Blanked(s), m)
    decreases |s|
  {
    if s != "" {
      CommentRunsOn(s[1..], m);
      assert Blanked(s) == Blanked(s[..1]) + Blanked(s[1..]);
    } else {
      assert Blanked("") == "";
    }
  }

  /**
    The condition is needed: after a text that ends inside a line comment, everything up
    to the next line end is comment too, whatever it says.
   */
  lemma {:induction false} LineCommentSwallows(a: string, b: string)
    requires Scan(a, START).1.state == LineComment && forall c :: c in b ==> !IsLineEnd(c)
    ensures Stripped(a + ";" + b) == Success(Scan(a, START).0 + Blanked(";" + b))
  {
    var end := Scan(a, START).1;
    ScanAppend(a, START, ";" + b);
    Assoc(a, ";", b);
    CommentRunsOn(";" + b, end);
  }

  /** Text without a semicolon only extends the last statement. */
  lemma {:induction false} LastStatementGrows(s: string, more: string)
    requires ';' !in more
    ensures
      var x := Statements(s);
      Statements(s + more) == x[..|x| - 1] + [x[|x| - 1] + more]
  {
    if s != "" {
      var x := Statements(s[1..]);
      assert (s + more)[1..] == s[1..] + more;
      LastStatementGrows(s[1..], more);
      PrependKeepsLast(s[0], x[..|x| - 1], x[|x| - 1], more);
      assert x == x[..|x| - 1] + [x[|x| - 1]];
    } else {
      OneStatement(more);
      assert "" + more == more;
    }
  }

  lemma {:induction false} OneStatement(s: string)
    requires ';' !in s
    ensures Statements(s) == [s]
  {
    if s != "" {
      OneStatement(s[1..]);
      assert [s[0]] + s[1..] == s;
    }
  }

  lemma {:induction false} PrependKeepsLast(c: char, front: seq<string>, last: string, more: string)
    ensures
      var x := Prepend(c, front + [last]);
      Prepend(c, front + [last + more]) == x[..|x| - 1] + [x[|x| - 1] + more]
  {
    if c != ';' && front == [] {
      assert [c] + (last + more) == [c] + last + more;
    }
  }

  /** Upper-casing leaves a space at the end of a statement alone. */
  ghost predicate KeepsLastSpace(upper: string -> Str) { forall s :: upper(s + " ") == upper(s) + [0x20] }

  /** Spaces after a statement do not change what it normalises to. */
  lemma {:induction false} SpacesVanish(s: string, spaces: string, upper: string -> Str)
    requires KeepsLastSpace(upper) && forall i :: 0 <= i < |spaces| ==> spaces[i] == ' '
    ensures Normalized(upper, s + spaces) == Normalized(upper, s)
  {
    if spaces == "" {
      assert s + spaces == s;
    } else {
      var n := |spaces| - 1;
      SpacesVanish(s, spaces[..n], upper);
      assert spaces == spaces[..n] + [' '];
      Assoc(s, spaces[..n], " ");
      SplitDropsLastSpace(upper(s + spaces[..n]));
    }
  }

  /** After a text that ends inside a line comment, whatever the next line says adds no violation. */
  lemma {:induction false} CommentHides(a: string, w: string, upper: string -> Str, patterns: seq<Pattern>)
    requires Scan(a, START).1.state == LineComment && (forall c :: c in w ==> !IsLineEnd(c)) && KeepsLastSpace(upper)
    ensures Forbidden(a, upper, patterns).Success?
    ensures Forbidden(a + ";" + w, upper, patterns) == Forbidden(a, upper, patterns)
  {
    var out, spaces := Scan(a, START).0, Blanked(";" + w);
    LineCommentSwallows(a, w);
    forall i | 0 <= i < |spaces| ensures spaces[i] == ' ' { assert (";" + w)[i] == ';' || (";" + w)[i] in w; }
    LastStatementGrows(out, spaces);
    var x, y := Statements(out), Statements(out + spaces);
    SpacesVanish(x[|x| - 1], spaces, upper);
    ViolationsLast(x, upper, patterns);
    ViolationsLast(y, upper, patterns);
    assert y[..|y| - 1] == x[..|x| - 1];
  }

  /**
    For any tests, and any one line `w` that they forbid: an accepted text composes with
    every text exactly when it ends in the normal state.  Otherwise `w` itself is an input
    whose violations are lost.
   */
  lemma {:induction false} ComposesIffNormal(a: string, w: string, upper: string -> Str, patterns: seq<Pattern>)
    requires Stripped(a).Success? && KeepsLastSpace(upper)
    requires (forall c :: c in w ==> !IsLineEnd(c))
    requires Forbidden(w, upper, patterns).Success? && Forbidden(w, upper, patterns).value != []
    ensures Scan(a, START).1.state == Normal <==> forall b :: Composes(a, b, upper, patterns)
    ensures Scan(a, START).1.state != Normal ==>
      Forbidden(a + ";" + w, upper, patterns) == Forbidden(a, upper, patterns)
  {
    if Scan(a, START).1.state == Normal {
      forall b ensures Composes(a, b, upper, patterns) { StatementsCompose(a, b, upper, patterns); }
    } else {
      CommentHides(a, w, upper, patterns);
      var seen, lost := Forbidden(a, upper, patterns).value, Forbidden(w, upper, patterns).value;
      assert |seen + lost| > |seen|;
      assert !Composes(a, w, upper, patterns);
    }
  }
}
