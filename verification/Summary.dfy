/** The audit-safe summary of a discovery error. */
module Summary {
  import opened Strings

  const SAFE_SUMMARY_MAX_LENGTH := 512

  function Clean(value: Str): (r: Str)
    ensures |r| == |value|
  {
    seq(|value|, i requires 0 <= i < |value| => if IsControl(value[i]) then 0x20 else value[i])
  }

  function RStrip(s: Str): Str {
    if s != [] && IsSpace(s[|s| - 1]) then RStrip(s[..|s| - 1]) else s
  }

  function SanitizeSummary(value: Str): Str {
    var collapsed := Join(Split(Clean(value)));
    if |collapsed| > SAFE_SUMMARY_MAX_LENGTH then RStrip(collapsed[..SAFE_SUMMARY_MAX_LENGTH - 3]) + Ascii("...")
    else collapsed
  }

  // ---------------------------------------------------------------- what an audit row accepts

  /** Single plain spaces only, and none at either end. */
  ghost predicate Collapsed(s: Str) {
    && (forall i :: 0 <= i < |s| && IsSpace(s[i]) ==> s[i] == 0x20 && 0 < i < |s| - 1 && !IsSpace(s[i + 1]))
  }

  ghost predicate NoControl(s: Str) { forall i :: 0 <= i < |s| ==> !IsControl(s[i]) }

  ghost predicate AuditSafe(s: Str) { |s| <= SAFE_SUMMARY_MAX_LENGTH && NoControl(s) && Collapsed(s) }

  ghost predicate IsWord(w: Str) { w != [] && forall i :: 0 <= i < |w| ==> !IsSpace(w[i]) && !IsControl(w[i]) }

  lemma {:induction false} SplitGivesWords(s: Str)
    requires NoControl(s)
    ensures forall w :: w in Split(s) ==> IsWord(w)
    decreases |s|
  {
    if s != [] {
      if IsSpace(s[0]) {
        SplitGivesWords(s[1..]);
      } else {
        SplitGivesWords(s[WordEnd(s)..]);
      }
    }
  }

  lemma {:induction false} JoinIsCollapsed(words: seq<Str>)
    requires forall w :: w in words ==> IsWord(w)
    ensures Collapsed(Join(words)) && NoControl(Join(words))
    ensures words != [] ==> Join(words) != [] && !IsSpace(Join(words)[0])
  {
    if words != [] {
      assert IsWord(words[0]);
      if |words| > 1 {
        JoinIsCollapsed(words[1..]);
        var rest := Join(words[1..]);
        var s := words[0] + [0x20] + rest;
        forall i | 0 <= i < |s| ensures !IsControl(s[i])
          ensures IsSpace(s[i]) ==> s[i] == 0x20 && 0 < i < |s| - 1 && !IsSpace(s[i + 1])
        {
          if i > |words[0]| { assert s[i] == rest[i - |words[0]| - 1]; }
        }
      }
    }
  }

  /** Past its first word and the space after it a collapsed text is collapsed. */
  lemma {:induction false} CollapsedTail(s: Str, n: nat)
    requires Collapsed(s) && n < |s| && IsSpace(s[n])
    ensures n + 1 < |s| && s[n] == 0x20 && Collapsed(s[n + 1..]) && !IsSpace(s[n + 1])
  {
    var rest := s[n + 1..];
    forall i | 0 <= i < |rest| && IsSpace(rest[i])
      ensures rest[i] == 0x20 && 0 < i < |rest| - 1 && !IsSpace(rest[i + 1])
    {
      assert rest[i] == s[n + 1 + i];
    }
  }

  lemma {:induction false} SplitFirstWord(s: Str)
    requires s != [] && !IsSpace(s[0]) && WordEnd(s) < |s|
    ensures Split(s) == [s[..WordEnd(s)]] + Split(s[WordEnd(s) + 1..])
  {
    var n := WordEnd(s);
    assert s[n..] != [] && IsSpace(s[n..][0]) && s[n..][1..] == s[n + 1..];
  }

  lemma {:induction false} JoinCons(word: Str, words: seq<Str>)
    requires words != []
    ensures Join([word] + words) == word + [0x20] + Join(words)
  {
    assert ([word] + words)[1..] == words;
  }

  lemma {:induction false} SplitOneWord(s: Str)
    requires s != [] && WordEnd(s) == |s|
    ensures Join(Split(s)) == s
  {
    assert !IsSpace(s[0]) && s[..|s|] == s && s[|s|..] == [];
  }

  lemma {:induction false} JoinedBack(s: Str, n: nat, words: seq<Str>)
    requires n < |s| && s[n] == 0x20 && words != [] && Join(words) == s[n + 1..]
    ensures Join([s[..n]] + words) == s
  {
    JoinCons(s[..n], words);
    assert s == s[..n] + [s[n]] + s[n + 1..];
  }

  lemma {:induction false} CollapsedIsFixed(s: Str)
    requires Collapsed(s)
    ensures Join(Split(s)) == s
    decreases |s|
  {
    if s != [] {
      assert !IsSpace(s[0]);
      var n := WordEnd(s);
      if n == |s| {
        SplitOneWord(s);
      } else {
        CollapsedTail(s, n);
        CollapsedIsFixed(s[n + 1..]);
        SplitFirstWord(s);
        assert Split(s[n + 1..]) != [];
        JoinedBack(s, n, Split(s[n + 1..]));
      }
    }
  }

  lemma {:induction false} RStripOfCollapsed(s: Str, n: nat)
    requires Collapsed(s) && n <= |s|
    ensures RStrip(s[..n]) == s[..n] || (n > 0 && RStrip(s[..n]) == s[..n - 1] && !(n > 1 && IsSpace(s[n - 2])))
    ensures RStrip(s[..n]) <= s && |RStrip(s[..n])| <= n
    ensures RStrip(s[..n]) != [] ==> !IsSpace(RStrip(s[..n])[|RStrip(s[..n])| - 1])
  {
    if n > 0 && IsSpace(s[n - 1]) {
      assert s[..n][..n - 1] == s[..n - 1];
    }
  }

  lemma {:induction false} TruncatedIsSafe(c: Str)
    requires Collapsed(c) && NoControl(c) && |c| > SAFE_SUMMARY_MAX_LENGTH
    ensures AuditSafe(RStrip(c[..SAFE_SUMMARY_MAX_LENGTH - 3]) + Ascii("..."))
  {
    RStripOfCollapsed(c, SAFE_SUMMARY_MAX_LENGTH - 3);
    var kept := RStrip(c[..SAFE_SUMMARY_MAX_LENGTH - 3]);
    var t := kept + Ascii("...");
    forall i | 0 <= i < |t| ensures !IsControl(t[i])
      ensures IsSpace(t[i]) ==> t[i] == 0x20 && 0 < i < |t| - 1 && !IsSpace(t[i + 1])
    {
      if i < |kept| {
        assert t[i] == c[i];
        if i + 1 < |kept| { assert t[i + 1] == c[i + 1]; }
      } else {
        assert t[i] == '.' as int;
      }
    }
  }

  /**
    Every summary comes out audit-safe, and exactly the audit-safe texts come out unchanged;
    so sanitising twice is sanitising once, and a stored error summary always passes the
    check that it equals its own sanitised form.
   */
  lemma {:induction false} SanitizeIsProjection(value: Str)
    ensures AuditSafe(SanitizeSummary(value))
    ensures SanitizeSummary(value) == value <==> AuditSafe(value)
    ensures SanitizeSummary(SanitizeSummary(value)) == SanitizeSummary(value)
  {
    SanitizeIsSafe(value);
    SafeIsFixed(SanitizeSummary(value));
    if AuditSafe(value) { SafeIsFixed(value); }
  }

  lemma {:induction false} SanitizeIsSafe(value: Str)
    ensures AuditSafe(SanitizeSummary(value))
  {
    SplitGivesWords(Clean(value));
    JoinIsCollapsed(Split(Clean(value)));
    var c := Join(Split(Clean(value)));
    if |c| > SAFE_SUMMARY_MAX_LENGTH { TruncatedIsSafe(c); }
  }

  lemma {:induction false} SafeIsFixed(s: Str)
    requires AuditSafe(s)
    ensures SanitizeSummary(s) == s
  {
    assert Clean(s) == s;
    CollapsedIsFixed(s);
  }

  // ---------------------------------------------------------------- what the summary keeps

  /** What is left of `s` without the whitespace at its end. */
  ghost predicate Trimmed(kept: Str, s: Str) {
    kept <= s && AllSpace(s[|kept|..]) && (kept == [] || !IsSpace(kept[|kept| - 1]))
  }

  lemma {:induction false} RStripTrims(s: Str)
    ensures Trimmed(RStrip(s), s)
  {
    if s != [] && IsSpace(s[|s| - 1]) {
      var front := s[..|s| - 1];
      RStripTrims(front);
      assert s == front + [s[|s| - 1]];
      assert s[|RStrip(s)|..] == front[|RStrip(s)|..] + [s[|s| - 1]];
    } else {
      assert s[|s|..] == [];
    }
  }

  /** Every control character replaced by a space. */
  ghost predicate Cleaned(value: Str, clean: Str) {
    |clean| == |value| && forall i :: 0 <= i < |value| ==> clean[i] == if IsControl(value[i]) then 0x20 else value[i]
  }

  /**
    A summary is the value's words, control characters counting as spaces, one space
    between each two; when that is too long, its first 509 characters without whitespace
    at the end, and three dots.
   */
  lemma {:induction false} SanitizeKeepsWords(value: Str, gaps: seq<Str>, words: seq<Str>)
    requires Woven(gaps, words) && Cleaned(value, Weave(gaps, words))
    ensures
      var all, summary := Join(words), SanitizeSummary(value);
      if |all| <= 512 then summary == all
      else exists kept :: Trimmed(kept, all[..509]) && summary == kept + Ascii("...")
  {
    assert Clean(value) == Weave(gaps, words);
    SplitFindsWords(gaps, words);
    if |Join(words)| > 512 { RStripTrims(Join(words)[..509]); }
  }

  /** Every value has such words. */
  lemma {:induction false} EveryValueHasWords(value: Str) returns (gaps: seq<Str>, words: seq<Str>)
    ensures Woven(gaps, words) && Cleaned(value, Weave(gaps, words))
  {
    words := Split(Clean(value));
    gaps := SplitWeaves(Clean(value));
  }
}
