/**
  What the scanner reads, as a grammar: SQL text is code interrupted by comments, quoted
  text and dollar strings.  Nothing here mentions the scanner's states; the theorems say
  that it blanks exactly the segments of the grammar and refuses exactly the texts that
  have no segmentation.
 */
module SqlSegments {
  import opened Prelude
  import opened SqlScanner
  import Strings

  /** The inside of a block comment: characters and nested comments. */
  datatype Comment = End | Char(c: char, rest: Comment) | Nest(inner: Comment, rest: Comment)

  datatype Segment =
    | Code(c: char)
    | LineNote(note: string, ending: string)
    | BlockNote(inside: Comment)
    | Quoted(quote: char, body: string)
    | Dollar(tag: string, body: string)

  // ---------------------------------------------------------------- the text of a segment

  function CommentText(c: Comment): string {
    match c
    case End => ""
    case Char(c, rest) => [c] + CommentText(rest)
    case Nest(inner, rest) => "/*" + (CommentText(inner) + ("*/" + CommentText(rest)))
  }

  function Tag(tag: string): string { "$" + tag + "$" }

  function Text(g: Segment): string {
    match g
    case Code(c) => [c]
    case LineNote(note, ending) => "--" + (note + ending)
    case BlockNote(inside) => "/*" + (CommentText(inside) + "*/")
    case Quoted(quote, body) => [quote] + (body + [quote])
    case Dollar(tag, body) => Tag(tag) + (body + Tag(tag))
  }

  /** Spaces for everything but the line ends. */
  function Hidden(s: string): (r: string)
    ensures |r| == |s|
  {
    seq(|s|, i requires 0 <= i < |s| => if s[i] == '\r' || s[i] == '\n' then s[i] else ' ')
  }

  function Shown(g: Segment): string { if g.Code? then [g.c] else Hidden(Text(g)) }

  // ---------------------------------------------------------------- which segments there are

  predicate IsLetter(c: char) { 'A' <= c <= 'Z' || 'a' <= c <= 'z' || c == '_' }

  /** Empty, or an identifier. */
  predicate IsTag(tag: string) {
    tag == "" || (IsLetter(tag[0]) && forall i :: 0 <= i < |tag| ==> IsLetter(tag[i]) || '0' <= tag[i] <= '9')
  }

  ghost predicate OpensDollar(s: string) { exists tag :: IsTag(tag) && Tag(tag) <= s }

  /** A comment, a quote or a dollar string begins here. */
  ghost predicate Begins(s: string) {
    "--" <= s || "/*" <= s || (s != "" && (s[0] == '\'' || s[0] == '"')) || OpensDollar(s)
  }

  /** No two characters are read as a comment mark unless they are one. */
  predicate Reads(c: Comment, after: string) {
    match c
    case End => true
    case Char(_, rest) =>
      var s := CommentText(c) + after;
      !Starts2(s, '/', '*') && !Starts2(s, '*', '/') && Reads(rest, after)
    case Nest(inner, rest) => Reads(inner, "*/" + (CommentText(rest) + after)) && Reads(rest, after)
  }

  /** Doubled quotes, in single quotes also a backslash with the character after it, and other characters. */
  predicate IsQuotedBody(s: string, quote: char) {
    || s == ""
    || (|s| >= 2 && s[0] == '\\' && quote == '\'' && IsQuotedBody(s[2..], quote))
    || (|s| >= 2 && s[0] == quote && s[1] == quote && IsQuotedBody(s[2..], quote))
    || (s[0] != quote && !(s[0] == '\\' && quote == '\'') && IsQuotedBody(s[1..], quote))
  }

  /** `d` first occurs at k. */
  ghost predicate FirstAt(s: string, d: string, k: nat) {
    k <= |s| && d <= s[k..] && forall i :: 0 <= i < k ==> !(d <= s[i..])
  }

  /** `g`, followed by `after`, is a segment of SQL text. */
  ghost predicate Fits(g: Segment, after: string) {
    match g
    case Code(c) => !Begins([c] + after)
    case LineNote(note, ending) =>
      && (forall i :: 0 <= i < |note| ==> note[i] != '\r' && note[i] != '\n')
      && (ending == "\r" || ending == "\n" || (ending == "" && after == ""))
    case BlockNote(inside) => Reads(inside, "*/" + after)
    case Quoted(quote, body) =>
      && (quote == '\'' || quote == '"') && IsQuotedBody(body, quote)
      && !(after != "" && after[0] == quote)
    case Dollar(tag, body) => IsTag(tag) && FirstAt(body + (Tag(tag) + after), Tag(tag), |body|)
  }

  function TextOf(gs: seq<Segment>): string { if gs == [] then "" else Text(gs[0]) + TextOf(gs[1..]) }

  function ShownOf(gs: seq<Segment>): string { if gs == [] then "" else Shown(gs[0]) + ShownOf(gs[1..]) }

  /** A segmentation of the text before `after`. */
  ghost predicate FitsAll(gs: seq<Segment>, after: string) {
    gs == [] || (Fits(gs[0], TextOf(gs[1..]) + after) && FitsAll(gs[1..], after))
  }

  // ---------------------------------------------------------------- texts put together

  lemma {:induction false} Nested(a: string, b: string, c: string, d: string)
    ensures a + (b + c) + d == a + (b + (c + d))
  {
    Assoc(a, b + c, d);
    Assoc(b, c, d);
  }

  lemma {:induction false} Drop(a: string, b: string)
    ensures (a + b)[..|a|] == a && (a + b)[|a|..] == b
  {
  }

  lemma {:induction false} Cancel(a: string, x: string, y: string)
    requires a + x == a + y
    ensures x == y
  {
    Drop(a, x);
    Drop(a, y);
  }

  // ---------------------------------------------------------------- reading a segment

  /** In mode `m`, the scanner blanks `q`, which `after` follows, and is then in mode `n`. */
  ghost predicate Blanks(q: string, m: Mode, after: string, n: Mode) {
    && ValidMode(m) && ValidMode(n)
    && Scan(q + after, m) == (Hidden(q) + Scan(after, n).0, Scan(after, n).1)
  }

  lemma {:induction false} HiddenIsBlanked(s: string)
    ensures Hidden(s) == Blanked(s)
  {
  }

  lemma {:induction false} HiddenJoin(a: string, b: string)
    ensures Hidden(a + b) == Hidden(a) + Hidden(b)
  {
  }

  lemma {:induction false} BlankToken(q: string, m: Mode, after: string, n: Mode)
    requires q != "" && ValidMode(m) && NextToken(q + after, m) == Token(|q|, true, n)
    ensures Blanks(q, m, after, n)
  {
    ScanUnfold(q + after, m, Token(|q|, true, n));
    HiddenIsBlanked(q);
    assert (q + after)[..|q|] == q && (q + after)[|q|..] == after;
  }

  lemma {:induction false} BlankNone(m: Mode, after: string)
    requires ValidMode(m)
    ensures Blanks("", m, after, m)
  {
    assert "" + after == after && Hidden("") + Scan(after, m).0 == Scan(after, m).0;
  }

  lemma {:induction false} BlankBoth(p: string, q: string, m: Mode, k: Mode, after: string, n: Mode)
    requires Blanks(p, m, q + after, k) && Blanks(q, k, after, n)
    ensures Blanks(p + q, m, after, n)
  {
    Assoc(p, q, after);
    HiddenJoin(p, q);
    Assoc(Hidden(p), Hidden(q), Scan(after, n).0);
  }

  // ---------------------------------------------------------------- quotes

  function QuoteState(quote: char): State { if quote == '\'' then SingleQuote else DoubleQuote }

  ghost predicate InQuote(m: Mode, quote: char) {
    (quote == '\'' || quote == '"') && m.state == QuoteState(quote)
  }

  lemma {:induction false} QuotePairToken(s: string, m: Mode, quote: char)
    requires InQuote(m, quote) && |s| >= 2
    requires (s[0] == '\\' && quote == '\'') || (s[0] == quote && s[1] == quote)
    ensures NextToken(s, m) == Token(2, true, m)
  {
  }

  lemma {:induction false} QuoteCharToken(s: string, m: Mode, quote: char)
    requires InQuote(m, quote) && s != "" && s[0] != quote && !(s[0] == '\\' && quote == '\'' && |s| >= 2)
    ensures NextToken(s, m) == Token(1, true, m)
  {
  }

  lemma {:induction false} QuoteEndToken(s: string, m: Mode, quote: char)
    requires InQuote(m, quote) && s != "" && s[0] == quote && !(|s| >= 2 && s[1] == quote)
    ensures NextToken(s, m) == Token(1, true, m.(state := Normal))
  {
  }

  lemma {:induction false} BodyBlanks(body: string, m: Mode, quote: char, after: string)
    requires InQuote(m, quote) && IsQuotedBody(body, quote)
    ensures Blanks(body, m, after, m)
    decreases |body|
  {
    if body == "" {
      BlankNone(m, after);
    } else if |body| >= 2 && ((body[0] == '\\' && quote == '\'') || (body[0] == quote && body[1] == quote)) {
      assert IsQuotedBody(body[2..], quote);
      BodyBlanks(body[2..], m, quote, after);
      assert body == body[..2] + body[2..];
      assert (body[..2] + (body[2..] + after))[0] == body[0] && (body[..2] + (body[2..] + after))[1] == body[1];
      QuotePairToken(body[..2] + (body[2..] + after), m, quote);
      BlankToken(body[..2], m, body[2..] + after, m);
      BlankBoth(body[..2], body[2..], m, m, after, m);
    } else {
      BodyBlanks(body[1..], m, quote, after);
      assert body == body[..1] + body[1..];
      QuoteCharToken(body[..1] + (body[1..] + after), m, quote);
      BlankToken(body[..1], m, body[1..] + after, m);
      BlankBoth(body[..1], body[1..], m, m, after, m);
    }
  }

  lemma {:induction false} QuotedBlanks(quote: char, body: string, after: string)
    requires Fits(Quoted(quote, body), after)
    ensures Blanks(Text(Quoted(quote, body)), START, after, START)
  {
    var inside, close := START.(state := QuoteState(quote)), [quote];
    BlankToken([quote], START, body + close + after, inside);
    BodyBlanks(body, inside, quote, close + after);
    QuoteEndToken(close + after, inside, quote);
    BlankToken(close, inside, after, START);
    BlankBoth(body, close, inside, inside, after, START);
    BlankBoth([quote], body + close, START, inside, after, START);
  }

  /** The body ends at k, where the text goes on with its closing quote. */
  ghost predicate EndsAt(s: string, quote: char, k: nat) {
    && k < |s| && IsQuotedBody(s[..k], quote) && s[k] == quote
    && !(k + 1 < |s| && s[k + 1] == quote)
  }

  /** Where the body ends depends only on what follows its first item. */
  lemma {:induction false} EndsShift(s: string, quote: char, n: nat, k: nat)
    requires (quote == '\'' || quote == '"') && n <= |s|
    requires
      || (n == 2 && ((s[0] == '\\' && quote == '\'') || (s[0] == quote && s[1] == quote)))
      || (n == 1 && s[0] != quote && !(s[0] == '\\' && quote == '\''))
    ensures EndsAt(s, quote, k) <==> k >= n && EndsAt(s[n..], quote, k - n)
  {
    if n <= k <= |s| {
      assert s[..k][n..] == s[n..][..k - n];
      assert s[..k][0] == s[0] && (n == 2 ==> s[..k][1] == s[1]);
    }
    assert k == 1 && n == 2 && |s| >= 2 ==> s[..1] == [s[0]];
  }

  /** Looks for the end of quoted text; without one the scanner stays inside to the end. */
  lemma {:induction false} FindQuoteEnd(s: string, m: Mode, quote: char) returns (end: Option<nat>)
    requires InQuote(m, quote)
    ensures end.Some? ==> EndsAt(s, quote, end.value)
    ensures end.None? ==> (forall k :: !EndsAt(s, quote, k)) && Scan(s, m).1.state == m.state
    decreases |s|
  {
    if s == "" {
      end := None;
    } else if |s| >= 2 && ((s[0] == '\\' && quote == '\'') || (s[0] == quote && s[1] == quote)) {
      QuotePairToken(s, m, quote);
      end := FindQuoteEnd(s[2..], m, quote);
      forall k: nat { EndsShift(s, quote, 2, k); }
      if end.Some? { EndsShift(s, quote, 2, end.value + 2); end := Some(end.value + 2); }
    } else if s[0] == quote {
      assert s[..0] == "";
      end := Some(0);
    } else if s == "\\" && quote == '\'' {
      QuoteCharToken(s, m, quote);
      assert s[1..] == "" && Scan("", m) == ("", m);
      end := None;
    } else {
      QuoteCharToken(s, m, quote);
      end := FindQuoteEnd(s[1..], m, quote);
      forall k: nat { EndsShift(s, quote, 1, k); }
      if end.Some? { EndsShift(s, quote, 1, end.value + 1); end := Some(end.value + 1); }
    }
  }

  // ---------------------------------------------------------------- dollar strings

  lemma {:induction false} TagIsRead(tag: string, after: string)
    requires IsTag(tag)
    ensures DollarLength(Tag(tag) + after) == |tag| + 2
  {
    var s := Tag(tag) + after;
    assert s[0] == '$' && s[|tag| + 1] == '$';
    forall i | 0 <= i < |tag| ensures s[1..][i] == tag[i] && IsTagChar(tag[i]) { assert s[i + 1] == tag[i]; }
    if tag != "" { TagRunIs(s[1..], |tag|); }
  }

  lemma {:induction false} ReadIsTag(s: string)
    requires DollarLength(s) > 0
    ensures
      var n := DollarLength(s);
      n >= 2 && IsTag(s[1..n - 1]) && s[..n] == Tag(s[1..n - 1]) && Tag(s[1..n - 1]) <= s
  {
    var n := DollarLength(s);
    var tag := s[1..n - 1];
    assert s[..n] == [s[0]] + tag + [s[n - 1]];
    forall i | 0 <= i < |tag| ensures IsTagChar(tag[i]) { assert tag[i] == s[i + 1]; }
  }

  lemma {:induction false} DollarTags(s: string)
    ensures OpensDollar(s) <==> DollarLength(s) > 0
  {
    if DollarLength(s) > 0 { ReadIsTag(s); }
    forall tag | IsTag(tag) && Tag(tag) <= s ensures DollarLength(s) > 0 {
      TagIsRead(tag, s[|Tag(tag)|..]);
      assert s == Tag(tag) + s[|Tag(tag)|..];
    }
  }

  ghost predicate InDollar(m: Mode, tag: string) { m.state == DollarQuote && IsTag(tag) && m.delimiter == Tag(tag) }

  lemma {:induction false} DollarModeIsValid(tag: string)
    requires IsTag(tag)
    ensures ValidMode(START.(state := DollarQuote, delimiter := Tag(tag)))
  {
    forall c | c in Tag(tag) ensures c == '$' || IsTagChar(c) {
      var i :| 0 <= i < |Tag(tag)| && Tag(tag)[i] == c;
      assert 0 < i <= |tag| ==> c == tag[i - 1];
    }
  }

  lemma {:induction false} FirstShift(s: string, d: string, k: nat)
    requires s != "" && !(d <= s)
    ensures FirstAt(s, d, k + 1) <==> FirstAt(s[1..], d, k)
    ensures !FirstAt(s, d, 0)
  {
    assert s[0..] == s;
    if k + 1 <= |s| { assert s[1..][k..] == s[k + 1..]; }
    if FirstAt(s, d, k + 1) {
      forall i | 0 <= i < k ensures !(d <= s[1..][i..]) { assert s[1..][i..] == s[i + 1..]; }
    }
    if FirstAt(s[1..], d, k) {
      forall i | 0 <= i < k + 1 ensures !(d <= s[i..]) { if i > 0 { assert s[1..][i - 1..] == s[i..]; } }
    }
  }

  lemma {:induction false} DollarCharBlanks(c: char, m: Mode, tag: string, after: string)
    requires InDollar(m, tag) && ValidMode(m) && !(Tag(tag) <= [c] + after)
    ensures Blanks([c], m, after, m)
  {
    assert NextToken([c] + after, m) == Token(1, true, m);
    BlankToken([c], m, after, m);
  }

  /** A character before a text moves the first occurrence on by one. */
  lemma {:induction false} FirstAfterChar(c: char, s: string, d: string, k: nat)
    requires FirstAt([c] + s, d, k + 1)
    ensures !(d <= [c] + s) && FirstAt(s, d, k)
  {
    var whole := [c] + s;
    assert whole[0..] == whole && whole[1..] == s;
    FirstShift(whole, d, k);
  }

  lemma {:induction false} DollarBodyBlanks(body: string, m: Mode, tag: string, after: string)
    requires InDollar(m, tag) && ValidMode(m) && FirstAt(body + after, Tag(tag), |body|)
    ensures Blanks(body, m, after, m)
  {
    if body == "" {
      BlankNone(m, after);
    } else {
      var c, rest := [body[0]], body[1..];
      assert body == c + rest;
      Assoc(c, rest, after);
      FirstAfterChar(body[0], rest + after, Tag(tag), |rest|);
      DollarBodyBlanks(rest, m, tag, after);
      DollarCharBlanks(body[0], m, tag, rest + after);
      BlankBoth(c, rest, m, m, after, m);
    }
  }

  lemma {:induction false} DollarOpenBlanks(tag: string, m: Mode, after: string)
    requires IsTag(tag) && m == START.(state := DollarQuote, delimiter := Tag(tag))
    ensures Blanks(Tag(tag), START, after, m)
  {
    DollarModeIsValid(tag);
    TagIsRead(tag, after);
    Drop(Tag(tag), after);
    assert NextToken(Tag(tag) + after, START) == Token(|tag| + 2, true, m);
    BlankToken(Tag(tag), START, after, m);
  }

  lemma {:induction false} DollarCloseBlanks(tag: string, m: Mode, after: string)
    requires InDollar(m, tag) && ValidMode(m)
    ensures Blanks(Tag(tag), m, after, m.(state := Normal))
  {
    Drop(Tag(tag), after);
    BlankToken(Tag(tag), m, after, m.(state := Normal));
  }

  lemma {:induction false} DollarBlanks(tag: string, body: string, after: string) returns (n: Mode)
    requires Fits(Dollar(tag, body), after)
    ensures n.state == Normal && Blanks(Text(Dollar(tag, body)), START, after, n)
  {
    var d := Tag(tag);
    var inside := START.(state := DollarQuote, delimiter := d);
    n := inside.(state := Normal);
    DollarModeIsValid(tag);
    Assoc(body, d, after);
    DollarOpenBlanks(tag, inside, body + d + after);
    DollarBodyBlanks(body, inside, tag, d + after);
    DollarCloseBlanks(tag, inside, after);
    BlankBoth(body, d, inside, inside, after, n);
    BlankBoth(d, body + d, START, inside, after, n);
  }

  /** Looks for the closing delimiter; without one the scanner stays inside to the end. */
  lemma {:induction false} FindDollarEnd(s: string, m: Mode, tag: string) returns (end: Option<nat>)
    requires InDollar(m, tag) && ValidMode(m)
    ensures end.Some? ==> FirstAt(s, Tag(tag), end.value)
    ensures end.None? ==> (forall k :: !FirstAt(s, Tag(tag), k)) && Scan(s, m).1.state == DollarQuote
  {
    assert s[0..] == s;
    if s == "" {
      end := None;
    } else if Tag(tag) <= s {
      end := Some(0);
    } else {
      end := FindDollarEnd(s[1..], m, tag);
      forall k: nat { FirstShift(s, Tag(tag), k); }
      if end.Some? { end := Some(end.value + 1); } else {
        forall k: nat ensures !FirstAt(s, Tag(tag), k) { if k > 0 { FirstShift(s, Tag(tag), k - 1); } }
      }
    }
  }

  // ---------------------------------------------------------------- comments

  ghost predicate InComment(m: Mode) { m.state == BlockComment && m.depth >= 1 }

  lemma {:induction false} CommentOpenToken(s: string, m: Mode)
    requires InComment(m) && Starts2(s, '/', '*')
    ensures NextToken(s, m) == Token(2, true, m.(depth := m.depth + 1))
  {
  }

  lemma {:induction false} CommentCloseToken(s: string, m: Mode)
    requires InComment(m) && Starts2(s, '*', '/')
    ensures NextToken(s, m)
         == Token(2, true, if m.depth == 1 then m.(depth := 0, state := Normal) else m.(depth := m.depth - 1))
  {
  }

  lemma {:induction false} CommentCharToken(s: string, m: Mode)
    requires InComment(m) && s != "" && !Starts2(s, '/', '*') && !Starts2(s, '*', '/')
    ensures NextToken(s, m) == Token(1, true, m)
  {
  }

  lemma {:induction false} InsideBlanks(c: Comment, m: Mode, after: string)
    requires InComment(m) && Reads(c, after)
    ensures Blanks(CommentText(c), m, after, m)
    decreases c
  {
    match c
    case End => BlankNone(m, after);
    case Char(x, rest) =>
      InsideBlanks(rest, m, after);
      assert [x] + (CommentText(rest) + after) == CommentText(c) + after;
      CommentCharToken([x] + (CommentText(rest) + after), m);
      BlankToken([x], m, CommentText(rest) + after, m);
      BlankBoth([x], CommentText(rest), m, m, after, m);
    case Nest(inner, rest) =>
      InsideBlanks(rest, m, after);
      InsideBlanks(inner, m.(depth := m.depth + 1), "*/" + (CommentText(rest) + after));
      NestBlanks(CommentText(inner), CommentText(rest), m, after);
  }

  /** A nested comment and what comes after it, from one level up. */
  lemma {:induction false} NestBlanks(inner: string, rest: string, m: Mode, after: string)
    requires InComment(m) && Blanks(rest, m, after, m)
    requires Blanks(inner, m.(depth := m.depth + 1), "*/" + (rest + after), m.(depth := m.depth + 1))
    ensures Blanks("/*" + (inner + ("*/" + rest)), m, after, m)
  {
    var deeper := m.(depth := m.depth + 1);
    CloseBlanks(rest, m, after);
    Assoc("*/", rest, after);
    BlankBoth(inner, "*/" + rest, deeper, deeper, after, m);
    OpenBlanks(inner + ("*/" + rest), m, after);
  }

  lemma {:induction false} OpenBlanks(rest: string, m: Mode, after: string)
    requires InComment(m) && Blanks(rest, m.(depth := m.depth + 1), after, m)
    ensures Blanks("/*" + rest, m, after, m)
  {
    var deeper := m.(depth := m.depth + 1);
    CommentOpenToken("/*" + (rest + after), m);
    BlankToken("/*", m, rest + after, deeper);
    BlankBoth("/*", rest, m, deeper, after, m);
  }

  lemma {:induction false} CloseBlanks(rest: string, m: Mode, after: string)
    requires InComment(m) && Blanks(rest, m, after, m)
    ensures Blanks("*/" + rest, m.(depth := m.depth + 1), after, m)
  {
    var deeper := m.(depth := m.depth + 1);
    CommentCloseToken("*/" + (rest + after), deeper);
    BlankToken("*/", deeper, rest + after, m);
    BlankBoth("*/", rest, deeper, m, after, m);
  }

  lemma {:induction false} BlockBlanks(inside: Comment, after: string) returns (n: Mode)
    requires Fits(BlockNote(inside), after)
    ensures n.state == Normal && Blanks(Text(BlockNote(inside)), START, after, n)
  {
    var i, m := CommentText(inside), START.(state := BlockComment, depth := 1);
    n := m.(state := Normal, depth := 0);
    BlankToken("/*", START, i + "*/" + after, m);
    InsideBlanks(inside, m, "*/" + after);
    CommentCloseToken("*/" + after, m);
    BlankToken("*/", m, after, n);
    BlankBoth(i, "*/", m, m, after, n);
    BlankBoth("/*", i + "*/", START, m, after, n);
  }

  /** `s` is the inside of a comment, its end, and `after`. */
  ghost predicate Encloses(s: string, c: Comment, after: string) {
    Reads(c, "*/" + after) && s == CommentText(c) + ("*/" + after)
  }

  /** How an enclosed text begins. */
  lemma {:induction false} EnclosedFront(s: string, c: Comment, after: string)
    requires Encloses(s, c, after)
    ensures c.End? <==> Starts2(s, '*', '/')
    ensures c.Nest? <==> Starts2(s, '/', '*')
    ensures c.End? ==> s == "*/" + after
    ensures c.Char? ==> s != "" && c.c == s[0] && Encloses(s[1..], c.rest, after)
    ensures c.Nest? ==> |s| >= 2 && Encloses(s[2..], c.inner, CommentText(c.rest) + ("*/" + after))
                        && Encloses(CommentText(c.rest) + ("*/" + after), c.rest, after)
  {
    var close := "*/" + after;
    match c
    case End => assert s == close;
    case Char(x, rest) => assert s == [x] + (CommentText(rest) + close) && s[1..] == CommentText(rest) + close;
    case Nest(inner, rest) =>
      var i, r := CommentText(inner), CommentText(rest);
      assert "*/" + r + close == "*/" + (r + close);
      assert s == "/*" + (i + ("*/" + (r + close)));
      assert s[2..] == i + ("*/" + (r + close));
  }

  /** A text encloses at most one comment. */
  lemma {:induction false} EnclosesOnce(s: string, c: Comment, a: string, d: Comment, b: string)
    requires Encloses(s, c, a) && Encloses(s, d, b)
    ensures c == d && a == b
    decreases c
  {
    EnclosedFront(s, c, a);
    EnclosedFront(s, d, b);
    match c
    case End => assert ("*/" + a)[2..] == a && ("*/" + b)[2..] == b;
    case Char(_, rest) => EnclosesOnce(s[1..], rest, a, d.rest, b);
    case Nest(inner, rest) =>
      var x, y := CommentText(rest) + ("*/" + a), CommentText(d.rest) + ("*/" + b);
      EnclosesOnce(s[2..], inner, x, d.inner, y);
      EnclosesOnce(x, rest, a, d.rest, b);
  }

  ghost predicate NeverEnds(s: string) {
    && (forall c, after :: !Encloses(s, c, after))
    && (forall m :: InComment(m) ==> Scan(s, m).1.state == BlockComment)
  }

  lemma {:induction false} NestEncloses(s: string, inner: Comment, rest: Comment, middle: string, after: string)
    requires Starts2(s, '/', '*') && Encloses(s[2..], inner, middle) && Encloses(middle, rest, after)
    ensures Encloses(s, Nest(inner, rest), after)
  {
    var i, r, close := CommentText(inner), CommentText(rest), "*/" + after;
    assert s == "/*" + s[2..];
    assert CommentText(Nest(inner, rest)) + close == "/*" + (i + ("*/" + (r + close)));
  }

  /** Looks for the end of a comment at any depth; without one the scanner stays inside to the end. */
  lemma {:induction false} FindCommentEnd(s: string) returns (found: Option<(Comment, string)>)
    ensures found.Some? ==> Encloses(s, found.value.0, found.value.1)
    ensures found.None? ==> NeverEnds(s)
    decreases |s|
  {
    if s == "" {
      found := None;
    } else if Starts2(s, '*', '/') {
      assert s == "*/" + s[2..] && "" + ("*/" + s[2..]) == "*/" + s[2..];
      found := Some((End, s[2..]));
    } else if Starts2(s, '/', '*') {
      var inner := FindCommentEnd(s[2..]);
      if inner.None? {
        OpenNeverEnds(s);
        found := None;
      } else {
        var (i, middle) := inner.value;
        assert |s[2..]| == |CommentText(i)| + |"*/" + middle|;
        var rest := FindCommentEnd(middle);
        if rest.None? {
          NestNeverEnds(s, i, middle);
          found := None;
        } else {
          NestEncloses(s, i, rest.value.0, middle, rest.value.1);
          found := Some((Nest(i, rest.value.0), rest.value.1));
        }
      }
    } else {
      var rest := FindCommentEnd(s[1..]);
      if rest.None? {
        CharNeverEnds(s);
        found := None;
      } else {
        var (c, after) := rest.value;
        assert s == [s[0]] + s[1..];
        assert CommentText(Char(s[0], c)) + ("*/" + after) == [s[0]] + (CommentText(c) + ("*/" + after));
        found := Some((Char(s[0], c), after));
      }
    }
  }

  lemma {:induction false} OpenNeverEnds(s: string)
    requires Starts2(s, '/', '*') && NeverEnds(s[2..])
    ensures NeverEnds(s)
  {
    forall c, after | Encloses(s, c, after) ensures false { EnclosedFront(s, c, after); }
    forall m | InComment(m) ensures Scan(s, m).1.state == BlockComment { CommentOpenToken(s, m); }
  }

  lemma {:induction false} CharNeverEnds(s: string)
    requires s != "" && !Starts2(s, '/', '*') && !Starts2(s, '*', '/') && NeverEnds(s[1..])
    ensures NeverEnds(s)
  {
    forall c, after | Encloses(s, c, after) ensures false { EnclosedFront(s, c, after); }
    forall m | InComment(m) ensures Scan(s, m).1.state == BlockComment { CommentCharToken(s, m); }
  }

  lemma {:induction false} NestNeverEnds(s: string, inner: Comment, middle: string)
    requires Starts2(s, '/', '*') && Encloses(s[2..], inner, middle) && NeverEnds(middle)
    ensures NeverEnds(s)
  {
    forall c, after | Encloses(s, c, after) ensures false {
      EnclosedFront(s, c, after);
      EnclosesOnce(s[2..], c.inner, CommentText(c.rest) + ("*/" + after), inner, middle);
    }
    forall m | InComment(m) ensures Scan(s, m).1.state == BlockComment {
      var deeper := m.(depth := m.depth + 1);
      CommentOpenToken(s, m);
      InsideBlanks(inner, deeper, "*/" + middle);
      CommentCloseToken("*/" + middle, deeper);
      assert ("*/" + middle)[2..] == middle;
    }
  }

  // ---------------------------------------------------------------- one segment

  /** What comes before a text that is stripped or refused. */
  function Prefixed(shown: string, r: Result<string, SqlError>): Result<string, SqlError> {
    match r
    case Success(out) => Success(shown + out)
    case Failure(e) => Failure(e)
  }

  lemma {:induction false} StrippedAfter(q: string, after: string, n: Mode)
    requires Blanks(q, START, after, n)
    requires n.state == Normal || (n.state == LineComment && after == "")
    ensures Stripped(q + after) == Prefixed(Hidden(q), Stripped(after))
  {
    if n.state == Normal { ForgetsBoth(after, n, START); }
  }

  lemma {:induction false} NoteBlanks(note: string, m: Mode, after: string)
    requires m.state == LineComment && forall i :: 0 <= i < |note| ==> note[i] != '\r' && note[i] != '\n'
    ensures Blanks(note, m, after, m)
  {
    if note == "" {
      BlankNone(m, after);
    } else {
      NoteBlanks(note[1..], m, after);
      assert note == note[..1] + note[1..];
      BlankToken(note[..1], m, note[1..] + after, m);
      BlankBoth(note[..1], note[1..], m, m, after, m);
    }
  }

  lemma {:induction false} LineEndBlanks(ending: string, m: Mode, after: string)
    requires m.state == LineComment && (ending == "\r" || ending == "\n")
    ensures Blanks(ending, m, after, m.(state := Normal))
  {
    var t := Token(1, false, m.(state := Normal));
    assert NextToken(ending + after, m) == t;
    ScanUnfold(ending + after, m, t);
    assert (ending + after)[..1] == ending == Hidden(ending) && (ending + after)[1..] == after;
  }

  lemma {:induction false} LineBlanks(note: string, ending: string, after: string) returns (n: Mode)
    requires Fits(LineNote(note, ending), after)
    ensures n.state == Normal || (n.state == LineComment && after == "")
    ensures Blanks(Text(LineNote(note, ending)), START, after, n)
  {
    var m := START.(state := LineComment);
    if ending == "" {
      n := m;
      BlankNone(m, after);
    } else {
      n := START;
      LineEndBlanks(ending, m, after);
    }
    NoteBlanks(note, m, ending + after);
    BlankBoth(note, ending, m, m, after, n);
    BlankToken("--", START, note + ending + after, m);
    BlankBoth("--", note + ending, START, m, after, n);
  }

  lemma {:induction false} BeginsIffOpens(s: string)
    ensures Begins(s) <==> Opens(s)
  {
    DollarTags(s);
  }

  lemma {:induction false} CodeIsKept(c: char, after: string)
    requires Fits(Code(c), after)
    ensures Stripped([c] + after) == Prefixed([c], Stripped(after))
  {
    var s := [c] + after;
    BeginsIffOpens(s);
    assert NextToken(s, START) == Token(1, false, START);
    ScanUnfold(s, START, Token(1, false, START));
    assert s[..1] == [c] && s[1..] == after;
  }

  /**
    A segment between two texts: it is kept when it is code and blanked otherwise, and what
    follows is stripped, or refused, as if it stood alone.
   */
  lemma {:induction false} SegmentIsRead(g: Segment, after: string)
    requires Fits(g, after)
    ensures Stripped(Text(g) + after) == Prefixed(Shown(g), Stripped(after))
  {
    match g
    case Code(c) => CodeIsKept(c, after);
    case LineNote(note, ending) =>
      var n := LineBlanks(note, ending, after);
      StrippedAfter(Text(g), after, n);
    case BlockNote(inside) =>
      var n := BlockBlanks(inside, after);
      StrippedAfter(Text(g), after, n);
    case Quoted(quote, body) =>
      QuotedBlanks(quote, body, after);
      StrippedAfter(Text(g), after, START);
    case Dollar(tag, body) =>
      var n := DollarBlanks(tag, body, after);
      StrippedAfter(Text(g), after, n);
  }

  // ---------------------------------------------------------------- the whole text

  /**
    Segments before any text: what they show comes first, and the text is stripped, or
    refused, as if it stood alone.
   */
  lemma {:induction false} SegmentsAreRead(gs: seq<Segment>, after: string)
    requires FitsAll(gs, after)
    ensures Stripped(TextOf(gs) + after) == Prefixed(ShownOf(gs), Stripped(after))
  {
    if gs == [] {
      assert "" + after == after;
      if Stripped(after).Success? { assert "" + Stripped(after).value == Stripped(after).value; }
    } else {
      SegmentsAreRead(gs[1..], after);
      SegmentIsRead(gs[0], TextOf(gs[1..]) + after);
      Assoc(Text(gs[0]), TextOf(gs[1..]), after);
      if Stripped(after).Success? { Assoc(Shown(gs[0]), ShownOf(gs[1..]), Stripped(after).value); }
    }
  }

  /** What of each kind begins like. */
  ghost predicate BeginsAs(s: string, state: State) {
    match state
    case BlockComment => "/*" <= s
    case SingleQuote => "'" <= s
    case DoubleQuote => "\"" <= s
    case DollarQuote => OpensDollar(s)
    case _ => false
  }

  /** A comment, a quote or a dollar string begins here and never ends. */
  ghost predicate Unclosed(s: string, state: State) {
    BeginsAs(s, state) && forall g, after :: s == Text(g) + after ==> !Fits(g, after)
  }

  lemma {:induction false} BlockFront(inside: Comment, after: string, rest: string)
    requires "/*" + rest == Text(BlockNote(inside)) + after && Fits(BlockNote(inside), after)
    ensures Encloses(rest, inside, after)
  {
    Nested("/*", CommentText(inside), "*/", after);
    Cancel("/*", rest, CommentText(inside) + ("*/" + after));
  }

  lemma {:induction false} QuotedFront(quote: char, body: string, after: string, rest: string)
    requires [quote] + rest == Text(Quoted(quote, body)) + after && Fits(Quoted(quote, body), after)
    ensures EndsAt(rest, quote, |body|)
  {
    Nested([quote], body, [quote], after);
    Cancel([quote], rest, body + ([quote] + after));
    Drop(body, [quote] + after);
  }

  lemma {:induction false} DollarFront(tag: string, body: string, after: string, rest: string)
    requires Tag(tag) + rest == Text(Dollar(tag, body)) + after && Fits(Dollar(tag, body), after)
    ensures FirstAt(rest, Tag(tag), |body|)
  {
    Nested(Tag(tag), body, Tag(tag), after);
    Cancel(Tag(tag), rest, body + (Tag(tag) + after));
  }

  /** The kind of a segment shows in its first characters. */
  lemma {:induction false} Front(g: Segment, after: string, s: string)
    requires s == Text(g) + after && Fits(g, after)
    ensures s != "" && (g.Code? ==> !Begins(s)) && (g.LineNote? ==> "--" <= s) && (g.BlockNote? ==> "/*" <= s)
    ensures (g.Quoted? ==> s[0] == g.quote && g.quote in "'\"") && (g.Dollar? ==> s[0] == '$' && Tag(g.tag) <= s)
  {
    match g
    case BlockNote(inside) => Nested("/*", CommentText(inside), "*/", after);
    case Quoted(quote, body) => Nested([quote], body, [quote], after);
    case Dollar(tag, body) => Nested(Tag(tag), body, Tag(tag), after);
    case _ =>
  }

  lemma {:induction false} OneTag(s: string, a: string, b: string)
    requires IsTag(a) && IsTag(b) && Tag(a) <= s && Tag(b) <= s
    ensures a == b
  {
    TagIsRead(a, s[|Tag(a)|..]);
    TagIsRead(b, s[|Tag(b)|..]);
    assert s == Tag(a) + s[|Tag(a)|..] == Tag(b) + s[|Tag(b)|..];
    assert Tag(a) == Tag(b) && a == Tag(a)[1..|a| + 1] && b == Tag(b)[1..|b| + 1];
  }

  lemma {:induction false} BlockUnclosed(s: string)
    requires "/*" <= s && NeverEnds(s[2..])
    ensures Unclosed(s, BlockComment) && Stripped(s) == Failure(Unterminated(BlockComment))
  {
    assert s == "/*" + s[2..] && s[0] == '/' && s[1] == '*';
    forall g, after | s == Text(g) + after ensures !Fits(g, after) {
      if Fits(g, after) {
        Front(g, after, s);
        if g.BlockNote? { BlockFront(g.inside, after, s[2..]); }
      }
    }
    var m := START.(state := BlockComment, depth := 1);
    assert NextToken(s, START) == Token(2, true, m);
    ScanUnfold(s, START, Token(2, true, m));
    assert InComment(m);
  }

  lemma {:induction false} QuoteUnclosed(s: string, quote: char)
    requires s != "" && s[0] == quote && (quote == '\'' || quote == '"') && forall k :: !EndsAt(s[1..], quote, k)
    requires Scan(s[1..], START.(state := QuoteState(quote))).1.state == QuoteState(quote)
    ensures Unclosed(s, QuoteState(quote)) && Stripped(s) == Failure(Unterminated(QuoteState(quote)))
  {
    assert s == [quote] + s[1..];
    forall g, after | s == Text(g) + after ensures !Fits(g, after) {
      if Fits(g, after) {
        Front(g, after, s);
        if g.Quoted? { QuotedFront(g.quote, g.body, after, s[1..]); }
      }
    }
    assert NextToken(s, START) == Token(1, true, START.(state := QuoteState(quote)));
    assert [quote] <= s && (quote == '\'' ==> [quote] == "'") && (quote == '"' ==> [quote] == "\"");
  }

  lemma {:induction false} NoDollarFits(s: string, tag: string, rest: string)
    requires IsTag(tag) && s == Tag(tag) + rest && forall k :: !FirstAt(rest, Tag(tag), k)
    ensures Unclosed(s, DollarQuote)
  {
    assert Tag(tag) <= s && s[0] == '$' && OpensDollar(s);
    forall g, after | s == Text(g) + after ensures !Fits(g, after) {
      if Fits(g, after) {
        Front(g, after, s);
        if g.Dollar? {
          OneTag(s, g.tag, tag);
          DollarFront(tag, g.body, after, rest);
        }
      }
    }
  }

  lemma {:induction false} DollarUnclosed(s: string, m: Mode, tag: string, rest: string)
    requires IsTag(tag) && s == Tag(tag) + rest && m == START.(state := DollarQuote, delimiter := Tag(tag))
    requires ValidMode(m) && Scan(rest, m).1.state == DollarQuote
    ensures Stripped(s) == Failure(Unterminated(DollarQuote))
  {
    TagIsRead(tag, rest);
    assert s[..|tag| + 2] == Tag(tag) && s[|tag| + 2..] == rest;
    assert NextToken(s, START) == Token(|tag| + 2, true, m);
    ScanUnfold(s, START, Token(|tag| + 2, true, m));
  }

  // ---------------------------------------------------------------- finding a segmentation

  lemma {:induction false} FirstLineNote(s: string) returns (g: Segment, after: string)
    requires "--" <= s
    ensures s == Text(g) + after && Fits(g, after)
  {
    var n := 2;
    while n < |s| && s[n] != '\r' && s[n] != '\n'
      invariant 2 <= n <= |s| && forall i :: 2 <= i < n ==> s[i] != '\r' && s[i] != '\n'
    {
      n := n + 1;
    }
    var e := if n < |s| then n + 1 else n;
    g, after := LineNote(s[2..n], s[n..e]), s[e..];
    assert s == "--" + s[2..] && s[2..] == s[2..n] + (s[n..e] + s[e..]);
    assert n < |s| ==> s[n..e] == [s[n]];
  }

  lemma {:induction false} FirstBlockNote(s: string) returns (g: Option<Segment>, after: string)
    requires "/*" <= s
    ensures g.Some? ==> s == Text(g.value) + after && Fits(g.value, after)
    ensures g.None? ==> Unclosed(s, BlockComment) && Stripped(s) == Failure(Unterminated(BlockComment))
  {
    var found := FindCommentEnd(s[2..]);
    if found.None? {
      BlockUnclosed(s);
      g, after := None, "";
    } else {
      g, after := Some(BlockNote(found.value.0)), found.value.1;
      Nested("/*", CommentText(found.value.0), "*/", after);
      assert s == "/*" + s[2..];
    }
  }

  lemma {:induction false} FirstQuoted(s: string) returns (g: Option<Segment>, after: string)
    requires s != "" && (s[0] == '\'' || s[0] == '"')
    ensures g.Some? ==> s == Text(g.value) + after && Fits(g.value, after)
    ensures g.None? ==> Unclosed(s, QuoteState(s[0])) && Stripped(s) == Failure(Unterminated(QuoteState(s[0])))
  {
    var found := FindQuoteEnd(s[1..], START.(state := QuoteState(s[0])), s[0]);
    if found.None? {
      QuoteUnclosed(s, s[0]);
      g, after := None, "";
    } else {
      var k, rest := found.value, s[1..];
      g, after := Some(Quoted(s[0], rest[..k])), rest[k + 1..];
      Nested([s[0]], rest[..k], [s[0]], after);
      assert rest == rest[..k] + ([rest[k]] + rest[k + 1..]) && s == [s[0]] + rest;
    }
  }

  lemma {:induction false} DollarParts(tag: string, rest: string, k: nat) returns (after: string)
    requires IsTag(tag) && FirstAt(rest, Tag(tag), k)
    ensures Text(Dollar(tag, rest[..k])) + after == Tag(tag) + rest && Fits(Dollar(tag, rest[..k]), after)
  {
    after := rest[k..][|Tag(tag)|..];
    assert rest[k..] == Tag(tag) + after && rest == rest[..k] + rest[k..];
    Nested(Tag(tag), rest[..k], Tag(tag), after);
  }

  lemma {:induction false} FirstDollar(s: string, tag: string) returns (g: Option<Segment>, after: string)
    requires IsTag(tag) && Tag(tag) <= s
    ensures g.Some? ==> s == Text(g.value) + after && Fits(g.value, after)
    ensures g.None? ==> Unclosed(s, DollarQuote) && Stripped(s) == Failure(Unterminated(DollarQuote))
  {
    var m, rest := START.(state := DollarQuote, delimiter := Tag(tag)), s[|Tag(tag)|..];
    assert s == Tag(tag) + rest;
    DollarModeIsValid(tag);
    var found := FindDollarEnd(rest, m, tag);
    if found.None? {
      NoDollarFits(s, tag, rest);
      DollarUnclosed(s, m, tag, rest);
      g, after := None, "";
    } else {
      after := DollarParts(tag, rest, found.value);
      g := Some(Dollar(tag, rest[..found.value]));
    }
  }

  /** A text begins with a segment, or with one that never ends. */
  lemma {:induction false} FirstSegment(s: string) returns (g: Option<Segment>, after: string, state: State)
    requires s != ""
    ensures g.Some? ==> s == Text(g.value) + after && Fits(g.value, after)
    ensures g.None? ==> Unclosed(s, state) && Stripped(s) == Failure(Unterminated(state))
  {
    g, after, state := None, "", Normal;
    if "--" <= s {
      var note;
      note, after := FirstLineNote(s);
      g := Some(note);
    } else if "/*" <= s {
      g, after := FirstBlockNote(s);
      state := BlockComment;
    } else if s[0] == '\'' || s[0] == '"' {
      g, after := FirstQuoted(s);
      state := QuoteState(s[0]);
    } else if OpensDollar(s) {
      var tag :| IsTag(tag) && Tag(tag) <= s;
      g, after := FirstDollar(s, tag);
      state := DollarQuote;
    } else {
      g, after := Some(Code(s[0])), s[1..];
      assert s == [s[0]] + s[1..];
    }
  }

  lemma {:induction false} SegmentIsLong(g: Segment)
    ensures Text(g) != ""
  {
  }

  /** Every text is segments, to its end or up to one that never ends. */
  lemma {:induction false} Segmented(s: string) returns (gs: seq<Segment>, rest: string, state: State)
    ensures s == TextOf(gs) + rest && FitsAll(gs, rest)
    ensures rest != "" ==> Unclosed(rest, state) && Stripped(rest) == Failure(Unterminated(state))
    decreases |s|
  {
    gs, rest, state := [], s, Normal;
    if s != "" {
      var g, after, first := FirstSegment(s);
      if g.None? {
        state := first;
      } else {
        SegmentIsLong(g.value);
        gs, rest, state := Segmented(after);
        Assoc(Text(g.value), TextOf(gs), rest);
        var all := [g.value] + gs;
        assert all[1..] == gs;
        gs := all;
      }
    }
  }

  /**
    The scanner accepts exactly the texts that are segments to the end, and shows exactly
    their code, every other character blanked.
   */
  lemma {:induction false} StrippedIffSegments(s: string, out: string)
    ensures Stripped(s) == Success(out) <==>
      exists gs :: FitsAll(gs, "") && TextOf(gs) == s && ShownOf(gs) == out
  {
    EmptyIsStripped();
    forall gs | FitsAll(gs, "") && TextOf(gs) == s ensures Stripped(s) == Success(ShownOf(gs)) {
      SegmentsAreRead(gs, "");
      assert TextOf(gs) + "" == s && ShownOf(gs) + "" == ShownOf(gs);
    }
    var gs, rest, state := Segmented(s);
    SegmentsAreRead(gs, rest);
    if rest == "" { assert TextOf(gs) + "" == TextOf(gs); }
  }

  lemma {:induction false} EmptyIsStripped()
    ensures Stripped("") == Success("")
  {
  }

  lemma {:induction false} StateByFront(s: string, state: State)
    requires BeginsAs(s, state)
    ensures s != ""
    ensures s[0] == match state
      case BlockComment => '/'
      case SingleQuote => '\''
      case DoubleQuote => '"'
      case _ => '$'
    ensures state != Normal && state != LineComment
  {
    if state == DollarQuote {
      var tag :| IsTag(tag) && Tag(tag) <= s;
      assert s[0] == Tag(tag)[0];
    }
  }

  lemma {:induction false} UnclosedIsRefused(s: string, state: State)
    requires Unclosed(s, state)
    ensures Stripped(s) == Failure(Unterminated(state))
  {
    StateByFront(s, state);
    var g, after, first := FirstSegment(s);
    StateByFront(s, first);
  }

  /** It refuses exactly the texts that are segments up to one that never ends, and names its kind. */
  lemma {:induction false} RefusedIffUnclosed(s: string, state: State)
    ensures Stripped(s) == Failure(Unterminated(state)) <==>
      exists gs, rest :: FitsAll(gs, rest) && s == TextOf(gs) + rest && Unclosed(rest, state)
  {
    forall gs, rest | FitsAll(gs, rest) && s == TextOf(gs) + rest && Unclosed(rest, state)
      ensures Stripped(s) == Failure(Unterminated(state))
    {
      SegmentsAreRead(gs, rest);
      UnclosedIsRefused(rest, state);
    }
    if Stripped(s) == Failure(Unterminated(state)) { RefusedIsUnclosed(s, state); }
  }

  lemma {:induction false} RefusedIsUnclosed(s: string, state: State)
    requires Stripped(s) == Failure(Unterminated(state))
    ensures exists gs, rest :: FitsAll(gs, rest) && s == TextOf(gs) + rest && Unclosed(rest, state)
  {
    EmptyIsStripped();
    var gs, rest, found := Segmented(s);
    SegmentsAreRead(gs, rest);
    assert rest != "";
  }

  /**
    The check of one file, in the grammar's terms: when the text is these segments, and
    what they show is these statements, an operation is reported exactly when a statement
    with any word in it matches its pattern.
   */
  lemma {:induction false} GateReads(gs: seq<Segment>, parts: seq<string>, upper: string -> Strings.Str,
                                     patterns: seq<Pattern>, operation: string)
    requires FitsAll(gs, "") && parts != [] && Glued(parts) == ShownOf(gs)
    requires forall i :: 0 <= i < |parts| ==> ';' !in parts[i]
    ensures Forbidden(TextOf(gs), upper, patterns).Success?
    ensures operation in Forbidden(TextOf(gs), upper, patterns).value <==>
      exists s, p :: s in parts && Strings.Split(upper(s)) != [] && p in patterns
                     && p.hits(Strings.Join(Strings.Split(upper(s)))) && p.operation == operation
  {
    StrippedIffSegments(TextOf(gs), ShownOf(gs));
    StatementsIff(ShownOf(gs), parts);
    ReportedIff(parts, upper, patterns, operation);
  }
}
