/**
  Python text as sequences of code points, its lexicographic order, and the
  library sort the release code relies on.  A Python `str` may hold lone
  surrogates, which Dafny's `char` cannot, so code points are integers here.
 */
module Strings {
  import Prelude

  type CodePoint = c: int | 0 <= c < 0x110000
  type Str = seq<CodePoint>

  /** The code points of an ASCII literal. */
  function Ascii(s: string): (r: Str)
    ensures |r| == |s| && forall i :: 0 <= i < |s| ==> r[i] == s[i] as int
  {
    seq(|s|, i requires 0 <= i < |s| => s[i] as CodePoint)
  }

  // ---------------------------------------------------------------- character classes

  predicate IsLower(c: int) { 'a' as int <= c <= 'z' as int }

  predicate IsAsciiDigit(c: int) { '0' as int <= c <= '9' as int }

  predicate IsLowerAlnum(c: int) { IsLower(c) || IsAsciiDigit(c) }

  predicate IsLowerHex(c: int) { IsAsciiDigit(c) || 'a' as int <= c <= 'f' as int }

  /** The classes letter by letter. */
  lemma {:induction false} Alphabets(c: char)
    ensures IsLower(c as int) <==> c in "abcdefghijklmnopqrstuvwxyz"
    ensures IsAsciiDigit(c as int) <==> c in "0123456789"
    ensures IsLowerHex(c as int) <==> c in "0123456789abcdef"
  {
    if IsLower(c as int) { assert "abcdefghijklmnopqrstuvwxyz"[c as int - 'a' as int] == c; }
    if IsAsciiDigit(c as int) { assert "0123456789abcdef"[c as int - '0' as int] == c; }
  }

  /** The characters `str.isspace`, `str.strip` and `str.split` treat as whitespace. */
  predicate IsSpace(c: int) {
    || 0x09 <= c <= 0x0D || 0x1C <= c <= 0x20 || c == 0x85 || c == 0xA0 || c == 0x1680
    || 0x2000 <= c <= 0x200A || c == 0x2028 || c == 0x2029 || c == 0x202F || c == 0x205F || c == 0x3000
  }

  /** Unicode category Cc, or a Unicode line or paragraph separator. */
  predicate IsControl(c: int) { 0 <= c <= 0x1F || 0x7F <= c <= 0x9F || c == 0x2028 || c == 0x2029 }

  /** True when `str.strip()` would leave something. */
  predicate NonBlank(s: Str) { exists i :: 0 <= i < |s| && !IsSpace(s[i]) }

  // ---------------------------------------------------------------- words

  function WordEnd(s: Str): (n: nat)
    ensures n <= |s| && (forall i :: 0 <= i < n ==> !IsSpace(s[i])) && (n < |s| ==> IsSpace(s[n]))
  {
    if s == [] || IsSpace(s[0]) then 0 else 1 + WordEnd(s[1..])
  }

  /** `s.split()` */
  function Split(s: Str): seq<Str>
    decreases |s|
  {
    if s == [] then []
    else if IsSpace(s[0]) then Split(s[1..])
    else [s[..WordEnd(s)]] + Split(s[WordEnd(s)..])
  }

  /** `" ".join(words)` */
  function Join(words: seq<Str>): Str {
    if words == [] then [] else if |words| == 1 then words[0] else words[0] + [0x20] + Join(words[1..])
  }

  /** A space at the end adds no word. */
  lemma {:induction false} SplitDropsLastSpace(s: Str)
    ensures Split(s + [0x20]) == Split(s)
    decreases |s|
  {
    var longer := s + [0x20];
    if s == [] {
      assert longer[1..] == [];
    } else if IsSpace(s[0]) {
      assert longer[0] == s[0] && longer[1..] == s[1..] + [0x20];
      SplitDropsLastSpace(s[1..]);
    } else {
      var n := WordEnd(s);
      WordEndKept(s);
      assert longer[..n] == s[..n] && longer[n..] == s[n..] + [0x20];
      SplitDropsLastSpace(s[n..]);
    }
  }

  lemma {:induction false} WordEndKept(s: Str)
    ensures WordEnd(s + [0x20]) == WordEnd(s)
  {
    if s != [] { assert (s + [0x20])[1..] == s[1..] + [0x20]; WordEndKept(s[1..]); }
  }

  // ---------------------------------------------------------------- words and the gaps between them

  predicate AllSpace(s: Str) { forall i :: 0 <= i < |s| ==> IsSpace(s[i]) }

  predicate Spaceless(w: Str) { w != [] && forall i :: 0 <= i < |w| ==> !IsSpace(w[i]) }

  /** A gap, then each word with the gap after it. */
  function Weave(gaps: seq<Str>, words: seq<Str>): Str
    requires |gaps| == |words| + 1
  {
    if words == [] then gaps[0] else gaps[0] + (words[0] + Weave(gaps[1..], words[1..]))
  }

  /** Words without whitespace, whitespace gaps around them, and none empty between two words. */
  ghost predicate Woven(gaps: seq<Str>, words: seq<Str>) {
    && |gaps| == |words| + 1
    && (forall i :: 0 <= i < |gaps| ==> AllSpace(gaps[i])) && (forall i :: 0 <= i < |words| ==> Spaceless(words[i]))
    && forall i :: 0 < i < |words| ==> gaps[i] != []
  }

  lemma {:induction false} SplitSkipsGap(gap: Str, s: Str)
    requires AllSpace(gap)
    ensures Split(gap + s) == Split(s)
  {
    if gap == [] {
      assert gap + s == s;
    } else {
      assert (gap + s)[0] == gap[0] && (gap + s)[1..] == gap[1..] + s;
      SplitSkipsGap(gap[1..], s);
    }
  }

  lemma {:induction false} WordEndIs(w: Str, s: Str)
    requires (forall i :: 0 <= i < |w| ==> !IsSpace(w[i])) && (s != [] ==> IsSpace(s[0]))
    ensures WordEnd(w + s) == |w|
  {
    if w == [] {
      assert w + s == s;
    } else {
      assert (w + s)[0] == w[0] && (w + s)[1..] == w[1..] + s;
      WordEndIs(w[1..], s);
    }
  }

  lemma {:induction false} SplitTakesWord(w: Str, s: Str)
    requires Spaceless(w) && (s != [] ==> IsSpace(s[0]))
    ensures Split(w + s) == [w] + Split(s)
  {
    WordEndIs(w, s);
    assert (w + s)[..|w|] == w && (w + s)[|w|..] == s && (w + s)[0] == w[0];
  }

  lemma {:induction false} WovenTail(gaps: seq<Str>, words: seq<Str>)
    requires Woven(gaps, words) && words != []
    ensures Woven(gaps[1..], words[1..])
    ensures Weave(gaps[1..], words[1..]) != [] ==> IsSpace(Weave(gaps[1..], words[1..])[0])
  {
    var g, w := gaps[1..], words[1..];
    assert g[0] == gaps[1] && AllSpace(gaps[1]);
    forall i | 0 < i < |w| ensures g[i] != [] { assert g[i] == gaps[i + 1]; }
  }

  /** Splitting finds exactly the words that were woven. */
  lemma {:induction false} SplitFindsWords(gaps: seq<Str>, words: seq<Str>)
    requires Woven(gaps, words)
    ensures Split(Weave(gaps, words)) == words
  {
    assert AllSpace(gaps[0]);
    if words == [] {
      SplitSkipsGap(gaps[0], []);
      assert gaps[0] + [] == gaps[0];
    } else {
      var rest := Weave(gaps[1..], words[1..]);
      WovenTail(gaps, words);
      SplitFindsWords(gaps[1..], words[1..]);
      SplitTakesWord(words[0], rest);
      SplitSkipsGap(gaps[0], words[0] + rest);
      assert words == [words[0]] + words[1..];
    }
  }

  /** Every text is woven from the words it splits into. */
  lemma {:induction false} SplitWeaves(s: Str) returns (gaps: seq<Str>)
    ensures Woven(gaps, Split(s)) && Weave(gaps, Split(s)) == s
    decreases |s|
  {
    if s == [] {
      gaps := [[]];
    } else if IsSpace(s[0]) {
      var inner := SplitWeaves(s[1..]);
      gaps := [[s[0]] + inner[0]] + inner[1..];
      WovenWiderGap(inner, Split(s), s[0]);
    } else {
      var n := WordEnd(s);
      var inner := SplitWeaves(s[n..]);
      gaps := [[]] + inner;
      WovenMoreWords(inner, Split(s[n..]), s[..n]);
    }
  }

  lemma {:induction false} WovenWiderGap(gaps: seq<Str>, words: seq<Str>, c: CodePoint)
    requires Woven(gaps, words) && IsSpace(c)
    ensures
      var wider := [[c] + gaps[0]] + gaps[1..];
      Woven(wider, words) && Weave(wider, words) == [c] + Weave(gaps, words)
  {
    var wider := [[c] + gaps[0]] + gaps[1..];
    assert AllSpace(gaps[0]) && wider[1..] == gaps[1..];
    forall i | 0 <= i < |wider| ensures AllSpace(wider[i]) { if i > 0 { assert wider[i] == gaps[i]; } }
    forall i | 0 < i < |words| ensures wider[i] != [] { assert wider[i] == gaps[i]; }
    if words != [] { Prelude.Assoc([c], gaps[0], words[0] + Weave(gaps[1..], words[1..])); }
  }

  lemma {:induction false} FirstGap(gaps: seq<Str>, words: seq<Str>)
    requires Woven(gaps, words) && words != []
    ensures Weave(gaps, words) != [] && (IsSpace(Weave(gaps, words)[0]) ==> gaps[0] != [])
  {
    assert Spaceless(words[0]);
  }

  lemma {:induction false} WovenMoreWords(gaps: seq<Str>, words: seq<Str>, w: Str)
    requires Woven(gaps, words) && Spaceless(w)
    requires Weave(gaps, words) != [] ==> IsSpace(Weave(gaps, words)[0])
    ensures Woven([[]] + gaps, [w] + words) && Weave([[]] + gaps, [w] + words) == w + Weave(gaps, words)
  {
    var g, ws := [[]] + gaps, [w] + words;
    assert g[1..] == gaps && ws[1..] == words;
    forall i | 0 <= i < |g| ensures AllSpace(g[i]) { if i > 0 { assert g[i] == gaps[i - 1]; } }
    forall i | 0 <= i < |ws| ensures Spaceless(ws[i]) { if i > 0 { assert ws[i] == words[i - 1]; } }
    if words != [] { FirstGap(gaps, words); }
    forall i | 0 < i < |ws| ensures g[i] != [] { assert g[i] == gaps[i - 1]; }
    assert [] + (w + Weave(gaps, words)) == w + Weave(gaps, words);
  }

  // ---------------------------------------------------------------- identifiers

  predicate IsSha256(s: Str) { |s| == 64 && forall i :: 0 <= i < 64 ==> IsLowerHex(s[i]) }

  /** A letter or digit, or an underscore (with `dots`, also a dot) with a letter or digit right after it. */
  predicate SnakeAt(s: Str, i: int, dots: bool)
    requires 0 <= i < |s|
  {
    IsLowerAlnum(s[i])
      || ((s[i] == '_' as int || (dots && s[i] == '.' as int)) && i + 1 < |s| && IsLowerAlnum(s[i + 1]))
  }

  /** `[a-z][a-z0-9]*(?:_[a-z0-9]+)*` */
  predicate IsIdentifier(s: Str) {
    && s != [] && IsLower(s[0])
    && forall i :: 0 <= i < |s| ==> SnakeAt(s, i, false)
  }

  /** Dot-separated snake_case segments, at least two of them and at most 128 characters. */
  predicate IsIdentityScheme(s: Str) {
    && s != [] && |s| <= 128 && IsLower(s[0]) && '.' as int in s
    && forall i :: 0 <= i < |s| ==> SnakeAt(s, i, true)
  }

  /** Words with a mark between each two. */
  function Chain(words: seq<Str>, marks: Str): Str
    requires |words| == |marks| + 1
  {
    if marks == [] then words[0] else words[0] + ([marks[0]] + Chain(words[1..], marks[1..]))
  }

  predicate IsAlnumWord(w: Str) { w != [] && forall i :: 0 <= i < |w| ==> IsLowerAlnum(w[i]) }

  /** Letters and digits in non-empty words, underscores (with `dots`, also dots) between them. */
  ghost predicate Chained(words: seq<Str>, marks: Str, dots: bool) {
    && |words| == |marks| + 1 && (forall i :: 0 <= i < |words| ==> IsAlnumWord(words[i]))
    && forall i :: 0 <= i < |marks| ==> marks[i] == '_' as int || (dots && marks[i] == '.' as int)
  }

  ghost predicate AllSnake(s: Str, dots: bool) { forall i :: 0 <= i < |s| ==> SnakeAt(s, i, dots) }

  lemma {:induction false} ChainedTail(words: seq<Str>, marks: Str, dots: bool)
    requires Chained(words, marks, dots) && marks != []
    ensures Chained(words[1..], marks[1..], dots) && IsAlnumWord(words[0])
  {
    forall i | 0 <= i < |words[1..]| ensures IsAlnumWord(words[1..][i]) { assert words[1..][i] == words[i + 1]; }
  }

  lemma {:induction false} ChainIsSnake(words: seq<Str>, marks: Str, dots: bool)
    requires Chained(words, marks, dots)
    ensures Chain(words, marks) != [] && IsLowerAlnum(Chain(words, marks)[0]) && AllSnake(Chain(words, marks), dots)
  {
    assert IsAlnumWord(words[0]);
    if marks != [] {
      ChainedTail(words, marks, dots);
      ChainIsSnake(words[1..], marks[1..], dots);
      SnakePrepends(words[0], marks[0], Chain(words[1..], marks[1..]), dots);
    }
  }

  lemma {:induction false} SnakePrepends(w: Str, mark: CodePoint, rest: Str, dots: bool)
    requires IsAlnumWord(w) && (mark == '_' as int || (dots && mark == '.' as int))
    requires rest != [] && IsLowerAlnum(rest[0]) && AllSnake(rest, dots)
    ensures AllSnake(w + ([mark] + rest), dots)
  {
    var s := w + ([mark] + rest);
    forall i | 0 <= i < |s| ensures SnakeAt(s, i, dots) {
      if i > |w| { assert SnakeAt(rest, i - |w| - 1, dots); }
    }
  }

  /** The pattern of identifiers, as words and marks. */
  lemma {:induction false} SnakeChains(s: Str, dots: bool) returns (words: seq<Str>, marks: Str)
    requires s != [] && IsLowerAlnum(s[0]) && AllSnake(s, dots)
    ensures Chained(words, marks, dots) && Chain(words, marks) == s
    decreases |s|
  {
    var n := 0;
    while n < |s| && IsLowerAlnum(s[n])
      invariant n <= |s| && forall i :: 0 <= i < n ==> IsLowerAlnum(s[i])
    {
      n := n + 1;
    }
    if n == |s| {
      words, marks := [s], [];
    } else {
      assert SnakeAt(s, n, dots);
      var rest := s[n + 1..];
      forall i | 0 <= i < |rest| ensures SnakeAt(rest, i, dots) { assert SnakeAt(s, n + 1 + i, dots); }
      var ws, ms := SnakeChains(rest, dots);
      words, marks := [s[..n]] + ws, [s[n]] + ms;
      assert words[1..] == ws && marks[1..] == ms;
      assert s == s[..n] + ([s[n]] + rest);
    }
  }

  /** `[a-z][a-z0-9]*(?:_[a-z0-9]+)*`, read as words with underscores between them, the first starting with a letter. */
  lemma {:induction false} IdentifierIff(s: Str)
    ensures IsIdentifier(s) <==>
      exists words, marks :: Chained(words, marks, false) && Chain(words, marks) == s && IsLower(s[0])
  {
    if IsIdentifier(s) { var words, marks := SnakeChains(s, false); }
    forall words, marks | Chained(words, marks, false) && Chain(words, marks) == s && IsLower(s[0])
      ensures IsIdentifier(s)
    {
      ChainIsSnake(words, marks, false);
    }
  }

  /** An identity scheme is such words with at least one dot among the marks, at most 128 characters in all. */
  lemma {:induction false} SchemeIff(s: Str)
    ensures IsIdentityScheme(s) <==>
      |s| <= 128 && exists words, marks ::
        Chained(words, marks, true) && Chain(words, marks) == s && IsLower(s[0]) && '.' as int in marks
  {
    if IsIdentityScheme(s) {
      var words, marks := SnakeChains(s, true);
      DotIsMark(words, marks, true);
    }
    forall words, marks | |s| <= 128 && Chained(words, marks, true) && Chain(words, marks) == s && IsLower(s[0])
                          && '.' as int in marks
      ensures IsIdentityScheme(s)
    {
      ChainIsSnake(words, marks, true);
      DotIsMark(words, marks, true);
    }
  }

  lemma {:induction false} DotIsMark(words: seq<Str>, marks: Str, dots: bool)
    requires Chained(words, marks, dots)
    ensures '.' as int in Chain(words, marks) <==> '.' as int in marks
  {
    assert IsAlnumWord(words[0]);
    assert '.' as int !in words[0];
    if marks != [] {
      ChainedTail(words, marks, dots);
      DotIsMark(words[1..], marks[1..], dots);
      assert marks == [marks[0]] + marks[1..];
    }
  }

  /** The digest type of SHA-256 in lowercase hexadecimal. */
  type Sha256Hex = s: Str | IsSha256(s) witness seq(64, _ => '0' as CodePoint)

  // ---------------------------------------------------------------- order

  predicate StrLe(a: Str, b: Str) {
    a == [] || (b != [] && (a[0] < b[0] || (a[0] == b[0] && StrLe(a[1..], b[1..]))))
  }

  predicate StrLt(a: Str, b: Str) { a != b && StrLe(a, b) }

  predicate PairLe(p: (Str, Str), q: (Str, Str)) {
    if p.0 == q.0 then StrLe(p.1, q.1) else StrLe(p.0, q.0)
  }

  /** The texts agree up to k, where the first ends or has the smaller code point. */
  predicate LessAt(a: Str, b: Str, k: int) {
    && 0 <= k <= |a| && k < |b| && a[..k] == b[..k]
    && (k == |a| || a[k] < b[k])
  }

  /** The order of Python strings. */
  lemma {:induction false} StrLtIff(a: Str, b: Str)
    ensures StrLt(a, b) <==> exists k :: LessAt(a, b, k)
  {
    if StrLt(a, b) { var k := FirstDifference(a, b); }
    forall k | LessAt(a, b, k) ensures StrLt(a, b) { LessIsLt(a, b, k); }
  }

  lemma {:induction false} FirstDifference(a: Str, b: Str) returns (k: int)
    requires StrLt(a, b)
    ensures LessAt(a, b, k)
  {
    if a == [] || a[0] != b[0] {
      k := 0;
    } else {
      assert a == [a[0]] + a[1..] && b == [b[0]] + b[1..];
      k := FirstDifference(a[1..], b[1..]);
      assert a[..k + 1] == [a[0]] + a[1..][..k] && b[..k + 1] == [b[0]] + b[1..][..k];
      k := k + 1;
    }
  }

  lemma {:induction false} LessIsLt(a: Str, b: Str, k: int)
    requires LessAt(a, b, k)
    ensures StrLt(a, b)
    decreases |a|
  {
    if k > 0 {
      assert a[0] == a[..k][0] && b[0] == b[..k][0];
      assert a[1..][..k - 1] == a[..k][1..] && b[1..][..k - 1] == b[..k][1..];
      LessIsLt(a[1..], b[1..], k - 1);
    }
  }

  lemma {:induction false} StrTotal(a: Str, b: Str)
    ensures StrLe(a, b) || StrLe(b, a)
  {
    if a != [] && b != [] && a[0] == b[0] { StrTotal(a[1..], b[1..]); }
  }

  lemma {:induction false} StrAntisymmetric(a: Str, b: Str)
    requires StrLe(a, b) && StrLe(b, a)
    ensures a == b
  {
    if a != [] && b != [] {
      StrAntisymmetric(a[1..], b[1..]);
      assert a == [a[0]] + a[1..] && b == [b[0]] + b[1..];
    }
  }

  lemma {:induction false} StrTransitive(a: Str, b: Str, c: Str)
    requires StrLe(a, b) && StrLe(b, c)
    ensures StrLe(a, c)
  {
    if a != [] && a[0] == b[0] == c[0] { StrTransitive(a[1..], b[1..], c[1..]); }
  }

  // ---------------------------------------------------------------- sorting

  ghost predicate TotalPreorder<T(!new)>(le: (T, T) -> bool) {
    && (forall x, y :: le(x, y) || le(y, x))
    && (forall x, y, z :: le(x, y) && le(y, z) ==> le(x, z))
  }

  ghost predicate TotalOrder<T(!new)>(le: (T, T) -> bool) {
    TotalPreorder(le) && forall x, y :: le(x, y) && le(y, x) ==> x == y
  }

  ghost predicate SortedBy<T>(s: seq<T>, le: (T, T) -> bool) {
    forall i, j :: 0 <= i < j < |s| ==> le(s[i], s[j])
  }

  function Insert<T>(x: T, s: seq<T>, le: (T, T) -> bool): seq<T> {
    if s == [] then [x]
    else if le(x, s[0]) then [x] + s
    else [s[0]] + Insert(x, s[1..], le)
  }

  /** The stable library sort. */
  function Sort<T>(s: seq<T>, le: (T, T) -> bool): seq<T> {
    if s == [] then [] else Insert(s[0], Sort(s[1..], le), le)
  }

  lemma {:induction false} InsertKeeps<T>(x: T, s: seq<T>, le: (T, T) -> bool)
    ensures multiset(Insert(x, s, le)) == multiset{x} + multiset(s)
  {
    if s != [] && !le(x, s[0]) {
      InsertKeeps(x, s[1..], le);
      assert s == [s[0]] + s[1..];
    }
  }

  lemma {:induction false} SortKeeps<T>(s: seq<T>, le: (T, T) -> bool)
    ensures multiset(Sort(s, le)) == multiset(s)
  {
    if s != [] {
      SortKeeps(s[1..], le);
      InsertKeeps(s[0], Sort(s[1..], le), le);
      assert s == [s[0]] + s[1..];
    }
  }

  lemma {:induction false} InsertSorts<T(!new)>(x: T, s: seq<T>, le: (T, T) -> bool)
    requires TotalPreorder(le) && SortedBy(s, le)
    ensures SortedBy(Insert(x, s, le), le)
  {
    if s != [] && !le(x, s[0]) {
      InsertSorts(x, s[1..], le);
      var r := Insert(x, s[1..], le);
      InsertKeeps(x, s[1..], le);
      forall i | 0 <= i < |r| ensures le(s[0], r[i]) {
        assert r[i] in multiset(r);
        if r[i] != x { assert r[i] in s[1..]; }
      }
    }
  }

  lemma {:induction false} SortSorts<T(!new)>(s: seq<T>, le: (T, T) -> bool)
    requires TotalPreorder(le)
    ensures SortedBy(Sort(s, le), le)
  {
    if s != [] {
      SortSorts(s[1..], le);
      InsertSorts(s[0], Sort(s[1..], le), le);
    }
  }

  /** Sorting leaves an already sorted sequence alone. */
  lemma {:induction false} SortFixed<T(!new)>(s: seq<T>, le: (T, T) -> bool)
    requires SortedBy(s, le)
    ensures Sort(s, le) == s
  {
    if s != [] { SortFixed(s[1..], le); }
  }

  lemma {:induction false} LeastIsFirst<T(!new)>(a: seq<T>, b: seq<T>, le: (T, T) -> bool)
    requires a != [] && b != [] && SortedBy(a, le) && SortedBy(b, le) && multiset(a) == multiset(b)
    requires forall x, y :: x in a && y in a && le(x, y) && le(y, x) ==> x == y
    ensures a[0] == b[0] && multiset(a[1..]) == multiset(b[1..])
  {
    assert a[0] in multiset(b) && b[0] in multiset(a);
    FirstIsLeast(a, b[0], le);
    FirstIsLeast(b, a[0], le);
    DropFirst(a);
    DropFirst(b);
  }

  lemma {:induction false} FirstIsLeast<T(!new)>(s: seq<T>, x: T, le: (T, T) -> bool)
    requires x in s && SortedBy(s, le)
    ensures x == s[0] || le(s[0], x)
  {
    var i :| 0 <= i < |s| && s[i] == x;
    assert i > 0 ==> le(s[0], s[i]);
  }

  lemma {:induction false} DropFirst<T>(s: seq<T>)
    requires s != []
    ensures multiset(s[1..]) == multiset(s) - multiset{s[0]}
  {
    assert s == [s[0]] + s[1..];
  }

  /** A sorted arrangement of a multiset is unique when no two distinct elements tie in it. */
  lemma {:induction false} SortedUnique<T(!new)>(a: seq<T>, b: seq<T>, le: (T, T) -> bool)
    requires SortedBy(a, le) && SortedBy(b, le) && multiset(a) == multiset(b)
    requires forall x, y :: x in a && y in a && le(x, y) && le(y, x) ==> x == y
    ensures a == b
  {
    assert |multiset(a)| == |multiset(b)|;
    if a != [] {
      LeastIsFirst(a, b, le);
      SortedUnique(a[1..], b[1..], le);
      assert a == [a[0]] + a[1..] && b == [b[0]] + b[1..];
    }
  }

  lemma {:induction false} StrLeIsTotalOrder()
    ensures TotalOrder(StrLe)
  {
    forall x, y ensures StrLe(x, y) || StrLe(y, x) { StrTotal(x, y); }
    forall x, y, z | StrLe(x, y) && StrLe(y, z) ensures StrLe(x, z) { StrTransitive(x, y, z); }
    forall x, y | StrLe(x, y) && StrLe(y, x) ensures x == y { StrAntisymmetric(x, y); }
  }

  lemma {:induction false} PairLeIsTotalOrder()
    ensures TotalOrder(PairLe)
  {
    StrLeIsTotalOrder();
  }

  // ---------------------------------------------------------------- role lists

  /** `roles == tuple(sorted(set(roles)))` */
  predicate StrictlySorted(roles: seq<Str>) {
    forall i, j :: 0 <= i < j < |roles| ==> StrLt(roles[i], roles[j])
  }

  /** Two strictly sorted role lists over the same roles are the same list. */
  lemma {:induction false} StrictlySortedUnique(a: seq<Str>, b: seq<Str>)
    requires StrictlySorted(a) && StrictlySorted(b)
    requires forall x :: x in a <==> x in b
    ensures a == b
  {
    StrLeIsTotalOrder();
    Distinct(a); Distinct(b);
    assert multiset(a) == multiset(b);
    SortedUnique(a, b, StrLe);
  }

  lemma {:induction false} Distinct<T>(s: seq<T>)
    requires forall i, j :: 0 <= i < j < |s| ==> s[i] != s[j]
    ensures forall x :: multiset(s)[x] == if x in s then 1 else 0
  {
    if s != [] {
      Distinct(s[1..]);
      assert s == [s[0]] + s[1..];
    }
  }

  /** An element taken out of an arrangement leaves an arrangement of the rest. */
  lemma {:induction false} TakeOut<T>(a: seq<T>, b: seq<T>) returns (front: seq<T>, back: seq<T>)
    requires a != [] && multiset(a) == multiset(b)
    ensures b == front + [a[0]] + back && multiset(front + back) == multiset(a[1..])
  {
    assert a[0] in multiset(b);
    var j :| 0 <= j < |b| && b[j] == a[0];
    front, back := b[..j], b[j + 1..];
    assert b == front + [a[0]] + back;
    DropFrom(front, a[0], back);
    DropFirst(a);
  }

  lemma {:induction false} DropFrom<T>(front: seq<T>, x: T, back: seq<T>)
    ensures multiset(front + back) == multiset(front + [x] + back) - multiset{x}
  {
  }
}
