/** Python string operations over Unicode scalar values. */
module PyText {
  import opened Prelude
  import Strings

  predicate IsSpace(c: char) { Strings.IsSpace(c as int) }

  predicate IsControl(c: char) { Strings.IsControl(c as int) }

  /** `s.strip()` */
  function Strip(s: string): (r: string)
    ensures forall c :: c in r ==> c in s
    ensures r != "" ==> !IsSpace(r[0]) && !IsSpace(r[|r| - 1])
    decreases |s|
  {
    if s != "" && IsSpace(s[0]) then Strip(s[1..])
    else if s != "" && IsSpace(s[|s| - 1]) then Strip(s[..|s| - 1])
    else s
  }

  /** Stripping takes whitespace off both ends and nothing else. */
  lemma {:induction false} StripIff(s: string, core: string)
    requires core != ""
    ensures Strip(s) == core <==>
      !IsSpace(core[0]) && !IsSpace(core[|core| - 1])
      && exists before, after :: AllSpace(before) && AllSpace(after) && s == before + (core + after)
  {
    if Strip(s) == core { var before, after := StripParts(s); }
    forall before, after | AllSpace(before) && AllSpace(after) && s == before + (core + after)
                           && !IsSpace(core[0]) && !IsSpace(core[|core| - 1])
      ensures Strip(s) == core
    {
      StripFinds(before, core, after);
    }
  }

  predicate AllSpace(s: string) { forall i :: 0 <= i < |s| ==> IsSpace(s[i]) }

  lemma {:induction false} StripParts(s: string) returns (before: string, after: string)
    ensures AllSpace(before) && AllSpace(after) && s == before + (Strip(s) + after)
    decreases |s|
  {
    before, after := "", "";
    if s != "" && IsSpace(s[0]) {
      before, after := StripParts(s[1..]);
      Assoc([s[0]], before, Strip(s) + after);
      before := [s[0]] + before;
    } else if s != "" && IsSpace(s[|s| - 1]) {
      var last := [s[|s| - 1]];
      before, after := StripParts(s[..|s| - 1]);
      assert s == s[..|s| - 1] + last;
      Assoc(before, Strip(s) + after, last);
      Assoc(Strip(s), after, last);
      after := after + last;
    } else {
      assert s == "" + (s + "");
    }
  }

  lemma {:induction false} StripFinds(before: string, core: string, after: string)
    requires AllSpace(before) && AllSpace(after)
    requires core != "" && !IsSpace(core[0]) && !IsSpace(core[|core| - 1])
    ensures Strip(before + (core + after)) == core
  {
    StripLeft(before, core + after);
    StripRight(core, after);
  }

  lemma {:induction false} StripLeft(before: string, s: string)
    requires AllSpace(before)
    ensures Strip(before + s) == Strip(s)
  {
    if before == "" {
      assert before + s == s;
    } else {
      assert (before + s)[0] == before[0] && (before + s)[1..] == before[1..] + s;
      StripLeft(before[1..], s);
    }
  }

  lemma {:induction false} StripRight(core: string, after: string)
    requires AllSpace(after) && core != "" && !IsSpace(core[0]) && !IsSpace(core[|core| - 1])
    ensures Strip(core + after) == core
  {
    if after == "" {
      assert core + after == core;
    } else {
      var s, n := core + after, |after| - 1;
      assert s[0] == core[0] && s[|s| - 1] == after[n] && s[..|s| - 1] == core + after[..n];
      StripRight(core, after[..n]);
    }
  }

  lemma {:induction false} StripBlank(s: string)
    ensures Strip(s) == "" <==> AllSpace(s)
  {
    if AllSpace(s) {
      StripLeft(s, "");
      assert s + "" == s;
    } else {
      var before, after := StripParts(s);
    }
  }

  // ---------------------------------------------------------------- numerals

  /** `str(n)` */
  function Decimal(n: nat): string {
    if n < 10 then [('0' as int + n) as char] else Decimal(n / 10) + [('0' as int + n % 10) as char]
  }

  /** `int(s)` */
  function DecimalValue(s: string): (v: int)
    ensures (forall i :: 0 <= i < |s| ==> '0' <= s[i] <= '9') ==> v >= 0
  {
    if s == "" then 0 else 10 * DecimalValue(s[..|s| - 1]) + (s[|s| - 1] as int - '0' as int)
  }

  lemma {:induction false} DecimalReadsBack(n: nat)
    ensures DecimalValue(Decimal(n)) == n && AllDigits(Decimal(n))
  {
    if n >= 10 {
      DecimalReadsBack(n / 10);
      assert Decimal(n)[..|Decimal(n)| - 1] == Decimal(n / 10);
    } else {
      assert Decimal(n)[..0] == "";
    }
  }

  predicate AllDigits(s: string) { s != "" && forall i :: 0 <= i < |s| ==> '0' <= s[i] <= '9' }

  predicate AllZeros(s: string) { forall i :: 0 <= i < |s| ==> s[i] == '0' }

  /** Leading zeros do not change the number a numeral denotes. */
  lemma {:induction false} ZerosCountNothing(zeros: string, s: string)
    requires AllZeros(zeros)
    ensures DecimalValue(zeros + s) == DecimalValue(s)
    decreases |zeros| + |s|
  {
    if s != "" {
      assert (zeros + s)[..|zeros + s| - 1] == zeros + s[..|s| - 1];
      ZerosCountNothing(zeros, s[..|s| - 1]);
    } else if zeros != "" {
      assert zeros + s == zeros && zeros[..|zeros| - 1] + s == zeros[..|zeros| - 1];
      ZerosCountNothing(zeros[..|zeros| - 1], s);
    }
  }

  lemma {:induction false} NumeralStep(n: nat, digit: char)
    requires '0' <= digit <= '9'
    ensures
      var m := 10 * n + (digit as int - '0' as int);
      Decimal(m) == if n == 0 then [digit] else Decimal(n) + [digit]
  {
    var d := digit as int - '0' as int;
    assert (10 * n + d) / 10 == n && (10 * n + d) % 10 == d;
  }

  /** One more digit after zeros and a numeral. */
  lemma {:induction false} NumeralMore(zeros: string, n: nat, last: char) returns (more: string)
    requires AllZeros(zeros) && '0' <= last <= '9'
    ensures AllZeros(more)
    ensures zeros + Decimal(n) + [last] == more + Decimal(10 * n + (last as int - '0' as int))
  {
    NumeralStep(n, last);
    more := if n == 0 then zeros + "0" else zeros;
    assert n == 0 ==> Decimal(n) == "0";
    Assoc(zeros, Decimal(n), [last]);
  }

  lemma {:induction false} OneDigit(c: char)
    requires '0' <= c <= '9'
    ensures DecimalValue([c]) == c as int - '0' as int && "" + Decimal(c as int - '0' as int) == [c]
  {
    assert [c][..0] == "" && DecimalValue("") == 0;
  }

  ghost predicate IsNumeral(s: string, zeros: string, n: nat) {
    AllZeros(zeros) && DecimalValue(s) == n && s == zeros + Decimal(n)
  }

  lemma {:induction false} DigitsMore(front: string, last: char, zeros: string, n: nat)
    returns (more: string)
    requires IsNumeral(front, zeros, n) && '0' <= last <= '9'
    ensures IsNumeral(front + [last], more, 10 * n + (last as int - '0' as int))
  {
    assert (front + [last])[..|front|] == front;
    more := NumeralMore(zeros, n, last);
  }

  lemma {:induction false} NextDigit(s: string, k: nat, zeros: string, n: nat) returns (more: string, m: nat)
    requires k < |s| && '0' <= s[k] <= '9' && IsNumeral(s[..k], zeros, n)
    ensures IsNumeral(s[..k + 1], more, m)
  {
    more := DigitsMore(s[..k], s[k], zeros, n);
    m := 10 * n + (s[k] as int - '0' as int);
    assert s[..k + 1] == s[..k] + [s[k]];
  }

  /** A text of digits is zeros and the numeral of its value. */
  lemma {:induction false} DigitsAreNumeral(s: string) returns (zeros: string, n: nat)
    requires AllDigits(s)
    ensures IsNumeral(s, zeros, n)
  {
    OneDigit(s[0]);
    zeros, n := "", s[0] as int - '0' as int;
    assert s[..1] == [s[0]];
    for k := 1 to |s|
      invariant IsNumeral(s[..k], zeros, n)
    {
      zeros, n := NextDigit(s, k, zeros, n);
    }
    assert s[..|s|] == s;
  }

  /** Each digit counts ten times the one after it. */
  lemma {:induction false} DigitsCountInTens(s: string, digit: char)
    ensures DecimalValue("") == 0
    ensures DecimalValue(s + [digit]) == 10 * DecimalValue(s) + (digit as int - '0' as int)
  {
    assert (s + [digit])[..|s|] == s;
  }
}
