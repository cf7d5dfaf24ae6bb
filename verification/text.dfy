/**
  The Foundation string operations the timer shell relies on, as pure functions:
  decimal digits, the `%02d` conversion of `String(format:)`, `Int(String)`,
  `trimmingCharacters(in: .whitespaces)` and `split(separator:)`.
*/
module Text {
  import opened Wrappers

  // ---------------------------------------------------------------------------
  // Decimal digits
  // ---------------------------------------------------------------------------

  predicate IsDigit(c: char) {
    '0' <= c <= '9'
  }

  predicate AllDigits(s: string) {
    forall i :: 0 <= i < |s| ==> IsDigit(s[i])
  }

  function DigitValue(c: char): (d: nat)
    requires IsDigit(c)
    ensures d < 10
  {
    c as int - '0' as int
  }

  function DigitChar(d: nat): (c: char)
    requires d < 10
    ensures IsDigit(c) && DigitValue(c) == d
  {
    ('0' as int + d) as char
  }

  /** The value of a string of decimal digits, most significant digit first. */
  function DigitsValue(s: string): nat
    requires AllDigits(s)
  {
    if |s| == 0 then 0 else DigitsValue(s[..|s| - 1]) * 10 + DigitValue(s[|s| - 1])
  }

  /** The shortest decimal spelling of `n`: no leading zeros, "0" for zero. */
  function NatToDigits(n: nat): (s: string)
    ensures |s| >= 1 && AllDigits(s)
    ensures DigitsValue(s) == n
    ensures |s| > 1 ==> s[0] != '0'
    ensures n < 10 <==> |s| == 1
    ensures n < 100 <==> |s| <= 2
  {
    if n < 10 then [DigitChar(n)]
    else
      var prefix := NatToDigits(n / 10);
      var s := prefix + [DigitChar(n % 10)];
      assert s[..|s| - 1] == prefix;
      s
  }

  /** Leading zeros do not change the value of a digit string. */
  lemma {:induction false} LeadingZero(s: string)
    requires AllDigits(s)
    ensures AllDigits("0" + s)
    ensures DigitsValue("0" + s) == DigitsValue(s)
  {
    if |s| == 0 {
      assert ("0" + s)[..0] == [];
    } else {
      var init := s[..|s| - 1];
      LeadingZero(init);
      assert ("0" + s)[..|"0" + s| - 1] == "0" + init;
    }
  }

  // ---------------------------------------------------------------------------
  // String(format: "%02d", n)
  // ---------------------------------------------------------------------------

  /**
    `%02d`: the decimal spelling of `n`, zero-padded on the left to width two.
    A negative value already has width two with its sign, so it is never padded.
  */
  function Pad2(n: int): (s: string)
    ensures |s| >= 2
    ensures forall i :: 0 <= i < |s| ==> IsDigit(s[i]) || (i == 0 && s[i] == '-')
    ensures n >= 0 ==> AllDigits(s) && DigitsValue(s) == n
    ensures n < 0 ==> s[0] == '-' && AllDigits(s[1..]) && DigitsValue(s[1..]) == -n
    ensures 0 <= n < 100 <==> |s| == 2 && AllDigits(s)
    ensures n >= 10 ==> s[0] != '0'
    ensures n < 0 ==> s[1] != '0'
  {
    if n < 0 then
      var digits := NatToDigits(-n);
      var s := "-" + digits;
      assert s[1..] == digits;
      assert |digits| == 1 ==> DigitsValue(digits) == DigitValue(digits[0]) by {
        assert |digits| == 1 ==> digits[..0] == [];
      }
      s
    else if n < 10 then
      LeadingZero(NatToDigits(n));
      "0" + NatToDigits(n)
    else
      NatToDigits(n)
  }

  // ---------------------------------------------------------------------------
  // Int(String)
  // ---------------------------------------------------------------------------

  predicate IsSign(c: char) {
    c == '+' || c == '-'
  }

  /** The text `Int(String)` accepts: an optional sign, then one or more ASCII digits. */
  predicate IsIntLiteral(s: string) {
    var body := if |s| > 0 && IsSign(s[0]) then s[1..] else s;
    |body| > 0 && AllDigits(body)
  }

  /**
    Swift's `Int(String)` in radix 10. Anything else (surrounding blanks,
    an empty string, a bare sign, a second sign) yields `nil`.
  */
  function ParseInt(s: string): (r: Option<int>)
    ensures r.Some? <==> IsIntLiteral(s)
    ensures r.Some? && s[0] == '-' ==> r.value <= 0
    ensures r.Some? && s[0] != '-' ==> r.value >= 0
    ensures r.Some? && AllDigits(s) ==> r.value == DigitsValue(s)
    ensures r.Some? && IsSign(s[0]) ==>
      r.value == (if s[0] == '-' then -(DigitsValue(s[1..]) as int) else DigitsValue(s[1..]))
  {
    if |s| > 0 && IsSign(s[0]) then
      var body := s[1..];
      if |body| > 0 && AllDigits(body) then
        var magnitude: int := DigitsValue(body);
        Some(if s[0] == '-' then -magnitude else magnitude)
      else None
    else if |s| > 0 && AllDigits(s) then Some(DigitsValue(s))
    else None
  }

  /** What `%02d` prints, `Int(String)` reads back. */
  lemma ParsePad2(n: int)
    ensures ParseInt(Pad2(n)) == Some(n)
  {
    var s := Pad2(n);
    if n >= 0 {
      assert !IsSign(s[0]);
    }
  }

  // ---------------------------------------------------------------------------
  // trimmingCharacters(in: .whitespaces)
  // ---------------------------------------------------------------------------

  /** `CharacterSet.whitespaces`: the Unicode space separators (category Zs) and TAB. */
  predicate IsWhitespace(c: char) {
    || c == '\t' || c == ' ' || c == '\U{00A0}' || c == '\U{1680}'
    || ('\U{2000}' <= c <= '\U{200A}')
    || c == '\U{202F}' || c == '\U{205F}' || c == '\U{3000}'
  }

  predicate NoWhitespace(s: string) {
    forall i :: 0 <= i < |s| ==> !IsWhitespace(s[i])
  }

  predicate AllWhitespace(s: string) {
    forall i :: 0 <= i < |s| ==> IsWhitespace(s[i])
  }

  /** Drops the whitespace run at the front of `s`. */
  function TrimStart(s: string): (r: string)
    ensures |r| <= |s| && r == s[|s| - |r|..]
    ensures forall i :: 0 <= i < |s| - |r| ==> IsWhitespace(s[i])
    ensures |r| > 0 ==> !IsWhitespace(r[0])
  {
    if |s| > 0 && IsWhitespace(s[0]) then
      var r := TrimStart(s[1..]);
      assert s[1..][|s| - 1 - |r|..] == s[|s| - |r|..];
      r
    else s
  }

  /** Drops the whitespace run at the back of `s`. */
  function TrimEnd(s: string): (r: string)
    ensures |r| <= |s| && r == s[..|r|]
    ensures forall i :: |r| <= i < |s| ==> IsWhitespace(s[i])
    ensures |r| > 0 ==> !IsWhitespace(r[|r| - 1])
  {
    if |s| > 0 && IsWhitespace(s[|s| - 1]) then
      var r := TrimEnd(s[..|s| - 1]);
      assert s[..|s| - 1][..|r|] == s[..|r|];
      r
    else s
  }

  /** `trimmingCharacters(in: .whitespaces)`: whitespace removed from both ends. */
  function Trim(s: string): (r: string)
    ensures |r| <= |s|
    ensures |r| > 0 ==> !IsWhitespace(r[0]) && !IsWhitespace(r[|r| - 1])
    ensures NoWhitespace(s) ==> r == s
    ensures MiddleOf(s, r, |s| - |TrimStart(s)|)
  {
    TrimmedMiddle(s, TrimStart(s), TrimEnd(TrimStart(s)));
    TrimEnds(s);
    TrimClean(s);
    TrimEnd(TrimStart(s))
  }

  /** Trimming leaves no whitespace at either end. */
  lemma TrimEnds(s: string)
    ensures var r := TrimEnd(TrimStart(s));
      |r| > 0 ==> !IsWhitespace(r[0]) && !IsWhitespace(r[|r| - 1])
  {
    var front := TrimStart(s);
    var r := TrimEnd(front);
    assert |r| > 0 ==> r[0] == front[0];
  }

  /** A non-blank character survives trimming. */
  lemma TrimKeeps(s: string, i: nat)
    requires i < |s| && !IsWhitespace(s[i])
    ensures s[i] in Trim(s)
  {
    var r := Trim(s);
    var k := |s| - |TrimStart(s)|;
    assert MiddleOf(s, r, k);
    assert k <= i < k + |r|;
    assert r[i - k] == s[i];
  }

  /** Text without whitespace is its own trimming. */
  lemma TrimClean(s: string)
    ensures NoWhitespace(s) ==> TrimEnd(TrimStart(s)) == s
  {
    assert NoWhitespace(s) && |s| > 0 ==> !IsWhitespace(s[0]) && !IsWhitespace(s[|s| - 1]);
  }

  /** `r` sits in `s` at offset `k`, with only whitespace before and after it. */
  predicate MiddleOf(s: string, r: string, k: int) {
    && 0 <= k && k + |r| <= |s|
    && r == s[k..k + |r|]
    && AllWhitespace(s[..k])
    && AllWhitespace(s[k + |r|..])
  }

  /** A prefix of a suffix of `s`, each cut off at whitespace, is a middle slice between whitespace. */
  lemma TrimmedMiddle(s: string, front: string, r: string)
    requires |front| <= |s| && front == s[|s| - |front|..]
    requires forall i :: 0 <= i < |s| - |front| ==> IsWhitespace(s[i])
    requires |r| <= |front| && r == front[..|r|]
    requires forall i :: |r| <= i < |front| ==> IsWhitespace(front[i])
    ensures MiddleOf(s, r, |s| - |front|)
  {
    var k := |s| - |front|;
    assert forall i :: 0 <= i < |s[..k]| ==> s[..k][i] == s[i];
    assert s[k + |r|..] == front[|r|..];
  }

  lemma {:induction false} TrimStartSkips(blanks: string, rest: string)
    requires AllWhitespace(blanks)
    ensures TrimStart(blanks + rest) == TrimStart(rest)
    decreases |blanks|
  {
    if |blanks| > 0 {
      assert (blanks + rest)[1..] == blanks[1..] + rest;
      TrimStartSkips(blanks[1..], rest);
    } else {
      assert blanks + rest == rest;
    }
  }

  lemma {:induction false} TrimEndSkips(rest: string, blanks: string)
    requires AllWhitespace(blanks)
    ensures TrimEnd(rest + blanks) == TrimEnd(rest)
    decreases |blanks|
  {
    if |blanks| > 0 {
      var shorter := blanks[..|blanks| - 1];
      assert (rest + blanks)[..|rest + blanks| - 1] == rest + shorter;
      TrimEndSkips(rest, shorter);
    } else {
      assert rest + blanks == rest;
    }
  }

  /** Blanks around a run that starts and ends with a non-blank are exactly what trimming removes. */
  lemma TrimPadded(before: string, core: string, after: string)
    requires AllWhitespace(before) && AllWhitespace(after)
    requires |core| > 0 && !IsWhitespace(core[0]) && !IsWhitespace(core[|core| - 1])
    ensures Trim(before + core + after) == core
  {
    assert before + core + after == before + (core + after);
    TrimStartSkips(before, core + after);
    assert TrimStart(core + after) == core + after;
    TrimEndSkips(core, after);
  }

  /** A run of blanks trims to nothing. */
  lemma TrimBlank(blanks: string)
    requires AllWhitespace(blanks)
    ensures Trim(blanks) == []
  {
    TrimStartSkips(blanks, []);
    assert blanks + [] == blanks;
  }

  /** Trimming twice is trimming once. */
  lemma TrimIdempotent(s: string)
    ensures Trim(Trim(s)) == Trim(s)
  {
    var r := Trim(s);
    if |r| > 0 {
      assert TrimStart(r) == r;
      assert TrimEnd(r) == r;
    }
  }

  // ---------------------------------------------------------------------------
  // split(separator:)
  // ---------------------------------------------------------------------------

  /** The concatenation of a sequence of strings. */
  function Concat(pieces: seq<string>): string {
    if |pieces| == 0 then [] else pieces[0] + Concat(pieces[1..])
  }

  /** `s` with every occurrence of `c` deleted. */
  function Without(s: string, c: char): (r: string)
    ensures c !in r
  {
    if |s| == 0 then []
    else if s[0] == c then Without(s[1..], c)
    else [s[0]] + Without(s[1..], c)
  }

  /**
    The number of positions of `s` where a run of non-separators starts;
    `inRun` says whether the character before `s` belongs to such a run.
  */
  function RunStartsFrom(s: string, sep: char, inRun: bool): nat {
    if |s| == 0 then 0
    else if s[0] == sep then RunStartsFrom(s[1..], sep, false)
    else (if inRun then 0 else 1) + RunStartsFrom(s[1..], sep, true)
  }

  /** The number of maximal separator-free runs in `s`. */
  function RunCount(s: string, sep: char): nat {
    RunStartsFrom(s, sep, false)
  }

  /** Without a separator, `s` is one run when non-empty and not already inside one. */
  lemma {:induction false} RunCountNoSeparator(s: string, sep: char, inRun: bool)
    ensures sep !in s ==> RunStartsFrom(s, sep, inRun) == if inRun || |s| == 0 then 0 else 1
    decreases |s|
  {
    if |s| > 0 && sep !in s {
      assert sep !in s[1..] by { assert forall c :: c in s[1..] ==> c in s; }
      RunCountNoSeparator(s[1..], sep, true);
    }
  }

  /** Pieces of `s`, continuing a piece `cur` already begun. */
  function SplitFrom(s: string, sep: char, cur: string): (r: seq<string>)
    requires sep !in cur
    ensures forall i :: 0 <= i < |r| ==> |r[i]| > 0 && sep !in r[i]
    ensures Concat(r) == cur + Without(s, sep)
    ensures |r| == (if cur == [] then 0 else 1) + RunStartsFrom(s, sep, cur != [])
    decreases |s|
  {
    if |s| == 0 then
      if cur == [] then [] else [cur]
    else if s[0] == sep then
      var rest := SplitFrom(s[1..], sep, []);
      assert RunStartsFrom(s, sep, cur != []) == RunStartsFrom(s[1..], sep, false);
      if cur == [] then rest
      else
        assert ([cur] + rest)[1..] == rest;
        [cur] + rest
    else
      assert RunStartsFrom(s, sep, cur != []) == (if cur == [] then 1 else 0) + RunStartsFrom(s[1..], sep, true);
      assert cur + [s[0]] + Without(s[1..], sep) == cur + Without(s, sep);
      SplitFrom(s[1..], sep, cur + [s[0]])
  }

  /**
    `split(separator:)` with Swift's defaults (no split limit, empty pieces
    omitted): the maximal non-empty runs of characters other than `sep`.
    The contract fixes the shape, the concatenation and the number of the
    pieces; where the cuts fall is stated by `SplitJoinRuns`.
  */
  function Split(s: string, sep: char): (r: seq<string>)
    ensures forall i :: 0 <= i < |r| ==> |r[i]| > 0 && sep !in r[i]
    ensures Concat(r) == Without(s, sep)
    ensures |r| == RunCount(s, sep)
  {
    SplitFrom(s, sep, [])
  }

  /** A separator-free run is absorbed into the piece being built. */
  lemma {:induction false} SplitFromRun(run: string, rest: string, sep: char, cur: string)
    requires sep !in cur && sep !in run
    ensures SplitFrom(run + rest, sep, cur) == SplitFrom(rest, sep, cur + run)
    decreases |run|
  {
    if |run| == 0 {
      assert run + rest == rest;
      assert cur + run == cur;
    } else {
      assert (run + rest)[0] == run[0];
      assert (run + rest)[1..] == run[1..] + rest;
      assert sep != run[0];
      SplitFromRun(run[1..], rest, sep, cur + [run[0]]);
      assert cur + [run[0]] + run[1..] == cur + run;
    }
  }

  /** Text without the separator is one piece, or none when it is empty. */
  lemma SplitNoSeparator(s: string, sep: char)
    requires sep !in s
    ensures Split(s, sep) == if s == [] then [] else [s]
  {
    SplitFromRun(s, [], sep, []);
    assert s + [] == s;
    assert [] + s == s;
  }

  /** Two non-empty separator-free runs around one separator split back into those runs. */
  lemma SplitPair(a: string, b: string, sep: char)
    requires |a| > 0 && |b| > 0 && sep !in a && sep !in b
    ensures Split(a + [sep] + b, sep) == [a, b]
  {
    SplitFromRun(a, [sep] + b, sep, []);
    assert a + [sep] + b == a + ([sep] + b);
    assert [] + a == a;
    assert ([sep] + b)[1..] == b;
    SplitFromRun(b, [], sep, []);
    assert b + [] == b;
    assert [] + b == b;
  }

  predicate AllSeparators(run: string, sep: char) {
    forall i :: 0 <= i < |run| ==> run[i] == sep
  }

  /** Separators before any piece has begun produce nothing. */
  lemma {:induction false} SplitFromSkips(run: string, rest: string, sep: char)
    requires AllSeparators(run, sep)
    ensures SplitFrom(run + rest, sep, []) == SplitFrom(rest, sep, [])
    decreases |run|
  {
    if |run| > 0 {
      assert (run + rest)[1..] == run[1..] + rest;
      SplitFromSkips(run[1..], rest, sep);
    } else {
      assert run + rest == rest;
    }
  }

  /** A non-empty separator run ends the piece being built, however long it is. */
  lemma SplitFromEnds(cur: string, run: string, rest: string, sep: char)
    requires |cur| > 0 && sep !in cur
    requires |run| > 0 && AllSeparators(run, sep)
    ensures SplitFrom(run + rest, sep, cur) == [cur] + SplitFrom(rest, sep, [])
  {
    assert (run + rest)[0] == sep;
    assert (run + rest)[1..] == run[1..] + rest;
    SplitFromSkips(run[1..], rest, sep);
  }

  /**
    Two non-empty separator-free runs split into exactly those runs, whatever
    separator runs come before, between (at least one) and after them.
  */
  lemma SplitPairPadded(lead: string, a: string, mid: string, b: string, trail: string, sep: char)
    requires AllSeparators(lead, sep) && AllSeparators(mid, sep) && AllSeparators(trail, sep)
    requires |mid| > 0
    requires |a| > 0 && |b| > 0 && sep !in a && sep !in b
    ensures Split(lead + a + mid + b + trail, sep) == [a, b]
  {
    var tail := b + trail;
    assert lead + a + mid + b + trail == lead + (a + (mid + tail));
    SplitFromSkips(lead, a + (mid + tail), sep);
    SplitLeading(a, mid, tail, sep);
    SplitTrailing(b, trail, sep);
  }

  /** One piece closed by a separator run. */
  lemma SplitLeading(a: string, mid: string, rest: string, sep: char)
    requires |mid| > 0 && AllSeparators(mid, sep)
    requires |a| > 0 && sep !in a
    ensures SplitFrom(a + (mid + rest), sep, []) == [a] + SplitFrom(rest, sep, [])
  {
    SplitFromRun(a, mid + rest, sep, []);
    assert [] + a == a;
    SplitFromEnds(a, mid, rest, sep);
  }

  /** One piece followed by separators only. */
  lemma SplitTrailing(b: string, trail: string, sep: char)
    requires AllSeparators(trail, sep)
    requires |b| > 0 && sep !in b
    ensures SplitFrom(b + trail, sep, []) == [b]
  {
    SplitFromRun(b, trail, sep, []);
    assert [] + b == b;
    if |trail| > 0 {
      assert trail == trail + [];
      SplitFromEnds(b, trail, [], sep);
    } else {
      assert b + trail == b;
    }
  }

  /** Three non-empty separator-free runs joined by separators split into three pieces. */
  lemma SplitTriple(a: string, b: string, c: string, sep: char)
    requires |a| > 0 && |b| > 0 && |c| > 0 && sep !in a && sep !in b && sep !in c
    ensures Split(a + [sep] + b + [sep] + c, sep) == [a, b, c]
  {
    var text := a + [sep] + b + [sep] + c;
    assert text == a + ([sep] + (b + ([sep] + c)));
    SplitLeading(a, [sep], b + ([sep] + c), sep);
    SplitLeading(b, [sep], c, sep);
    SplitNoSeparator(c, sep);
  }

  /**
    `gaps[0] + pieces[0] + gaps[1] + … + pieces[n-1] + gaps[n]`: pieces laid
    out between separator runs.
  */
  function JoinRuns(pieces: seq<string>, gaps: seq<string>): (r: string)
    requires |gaps| == |pieces| + 1
    ensures |r| >= |gaps[0]|
    decreases |pieces|
  {
    if |pieces| == 0 then gaps[0]
    else gaps[0] + (pieces[0] + JoinRuns(pieces[1..], gaps[1..]))
  }

  /**
    A layout `Split` can invert: non-empty separator-free pieces, gaps made
    of separators only, and at least one separator between two pieces.
  */
  predicate RunLayout(pieces: seq<string>, gaps: seq<string>, sep: char) {
    && |gaps| == |pieces| + 1
    && (forall i :: 0 <= i < |pieces| ==> |pieces[i]| > 0 && sep !in pieces[i])
    && (forall j :: 0 <= j < |gaps| ==> AllSeparators(gaps[j], sep))
    && (forall j :: 0 < j < |pieces| ==> |gaps[j]| > 0)
  }

  /** `Split` recovers exactly the pieces of any such layout. */
  lemma {:induction false} SplitJoinRuns(pieces: seq<string>, gaps: seq<string>, sep: char)
    requires RunLayout(pieces, gaps, sep)
    ensures Split(JoinRuns(pieces, gaps), sep) == pieces
    decreases |pieces|
  {
    if |pieces| == 0 {
      assert gaps[0] == gaps[0] + [];
      SplitFromSkips(gaps[0], [], sep);
    } else {
      var tail := JoinRuns(pieces[1..], gaps[1..]);
      assert JoinRuns(pieces, gaps) == gaps[0] + (pieces[0] + tail);
      SplitFromSkips(gaps[0], pieces[0] + tail, sep);
      if |pieces| == 1 {
        assert tail == gaps[1] && AllSeparators(gaps[1], sep);
        assert |pieces[0]| > 0 && sep !in pieces[0];
        SplitTrailing(pieces[0], tail, sep);
      } else {
        assert RunLayout(pieces[1..], gaps[1..], sep) by {
          assert forall i :: 0 <= i < |pieces| - 1 ==> pieces[1..][i] == pieces[i + 1];
          assert forall j :: 0 <= j < |gaps| - 1 ==> gaps[1..][j] == gaps[j + 1];
        }
        SplitJoinRuns(pieces[1..], gaps[1..], sep);
        SplitJoinStep(pieces, gaps, sep);
        assert pieces == [pieces[0]] + pieces[1..];
      }
    }
  }

  /** The first piece of a layout with more to come is closed by the separator run after it. */
  lemma SplitJoinStep(pieces: seq<string>, gaps: seq<string>, sep: char)
    requires RunLayout(pieces, gaps, sep) && |pieces| >= 2
    ensures SplitFrom(pieces[0] + JoinRuns(pieces[1..], gaps[1..]), sep, [])
      == [pieces[0]] + Split(JoinRuns(pieces[1..], gaps[1..]), sep)
  {
    var rest := pieces[1] + JoinRuns(pieces[2..], gaps[2..]);
    assert pieces[1..][1..] == pieces[2..] && gaps[1..][1..] == gaps[2..];
    assert JoinRuns(pieces[1..], gaps[1..]) == gaps[1] + rest;
    assert |gaps[1]| > 0 && AllSeparators(gaps[1], sep);
    SplitLeading(pieces[0], gaps[1], rest, sep);
    SplitFromSkips(gaps[1], rest, sep);
  }
}
