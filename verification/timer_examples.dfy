/**
  The duration field on families of concrete inputs, and a complete run of
  the popover, stated as lemmas about the shell model.
*/
module TimerExamples {
  import opened Wrappers
  import opened Text
  import opened TimerModel
  import opened TimerView

  /** A one-character digit string reads as that digit. */
  lemma ParseDigit(d: char)
    requires IsDigit(d)
    ensures Trim([d]) == [d] && ParseInt([d]) == Some(DigitValue(d))
  {
    assert !IsWhitespace(d) && !IsSign(d);
    assert NoWhitespace([d]) && AllDigits([d]);
    assert [d][..0] == [];
    assert DigitsValue([d]) == DigitValue(d);
  }

  /** `%02d` of a single digit is that digit after a '0'. */
  lemma Pad2Digit(d: char)
    requires IsDigit(d)
    ensures Pad2(DigitValue(d)) == ['0', d]
  {
    assert DigitChar(DigitValue(d)) == d;
  }

  /** "m:s" with single digits parses to those digits. */
  lemma ParseSingleDigits(d1: char, d2: char)
    requires IsDigit(d1) && IsDigit(d2)
    ensures ParseMinSec([d1, ':', d2]) == Some((DigitValue(d1), DigitValue(d2)))
  {
    assert [d1, ':', d2] == [d1] + [':'] + [d2];
    SplitPair([d1], [d2], ':');
    ParseDigit(d1);
    ParseDigit(d2);
    ParseAccepts([d1, ':', d2], [d1], [d2], DigitValue(d1), DigitValue(d2));
  }

  /** "+m:s" with single digits parses like "m:s": a plus sign is accepted. */
  lemma PlusSignDigits(d1: char, d2: char)
    requires IsDigit(d1) && IsDigit(d2)
    ensures ParseMinSec(['+', d1, ':', d2]) == Some((DigitValue(d1), DigitValue(d2)))
  {
    var minutes := ['+', d1];
    assert ['+', d1, ':', d2] == minutes + [':'] + [d2];
    SplitPair(minutes, [d2], ':');
    assert NoWhitespace(minutes) && IsSign(minutes[0]) && minutes[1..] == [d1];
    ParseDigit(d1);
    ParseDigit(d2);
    ParseAccepts(['+', d1, ':', d2], minutes, [d2], DigitValue(d1), DigitValue(d2));
  }

  /** "m:c" with a seconds character that is not a blank, sign or digit is rejected. */
  lemma RejectForeignSeconds(d: char, c: char)
    requires IsDigit(d) && c != ':' && !IsDigit(c) && !IsSign(c) && !IsWhitespace(c)
    ensures ParseMinSec([d, ':', c]) == None
  {
    assert [d, ':', c] == [d] + [':'] + [c];
    assert ':' !in [d];
    SplitPair([d], [c], ':');
    assert NoWhitespace([c]) && !IsIntLiteral([c]);
    ParseRejects([d, ':', c]);
  }

  /** The display of single-digit minutes and seconds pads both fields. */
  lemma TimerStringSingleDigits(d1: char, d2: char)
    requires IsDigit(d1) && IsDigit(d2)
    ensures TimerString(DigitValue(d1) * 60 + DigitValue(d2)) == ['0', d1, ':', '0', d2]
  {
    var m, s := DigitValue(d1), DigitValue(d2);
    TimerStringOfCount(m * 60 + s);
    assert (m * 60 + s) / 60 == m && (m * 60 + s) % 60 == s;
    Pad2Digit(d1);
    Pad2Digit(d2);
  }

  /**
    Single-digit minutes and seconds, as in "1:5", are set and the field is
    rewritten zero-padded, as "01:05".
  */
  lemma CommitSingleDigits(t: Timer, d1: char, d2: char)
    requires IsDigit(d1) && IsDigit(d2)
    ensures var count := DigitValue(d1) * 60 + DigitValue(d2);
      Commit(View(t, [d1, ':', d2])) == View(t.(totalSeconds := count, remainingSeconds := count), ['0', d1, ':', '0', d2])
  {
    ParseSingleDigits(d1, d2);
    TimerStringSingleDigits(d1, d2);
  }

  /** Whatever `%02d:%02d` prints is set exactly as `setTime` would set it, negative fields included. */
  lemma CommitFormatted(t: Timer, m: int, s: int)
    ensures Commit(View(t, Pad2(m) + ":" + Pad2(s))).timer == SetTime(t, m, s)
  {
    ParseFormatted(m, s);
  }

  /** Blanks and tabs around either number are ignored. */
  lemma ParseIgnoresBlanks(w1: string, a: string, w2: string, w3: string, b: string, w4: string)
    requires AllWhitespace(w1) && AllWhitespace(w2) && AllWhitespace(w3) && AllWhitespace(w4)
    requires |a| > 0 && !IsWhitespace(a[0]) && !IsWhitespace(a[|a| - 1]) && ':' !in a
    requires |b| > 0 && !IsWhitespace(b[0]) && !IsWhitespace(b[|b| - 1]) && ':' !in b
    ensures ParseMinSec(w1 + a + w2 + ":" + w3 + b + w4) == ParseMinSec(a + ":" + b)
  {
    var left, right := w1 + a + w2, w3 + b + w4;
    NoColonPadded(w1, a, w2);
    NoColonPadded(w3, b, w4);
    assert w1 + a + w2 + ":" + w3 + b + w4 == left + [':'] + right;
    SplitPair(left, right, ':');
    ParsePieces(left + [':'] + right, left, right);
    TrimPadded(w1, a, w2);
    TrimPadded(w3, b, w4);
    TrimUnpadded(a);
    TrimUnpadded(b);
    assert a + ":" + b == a + [':'] + b;
    SplitPair(a, b, ':');
    ParsePieces(a + [':'] + b, a, b);
  }

  /** Blanks around a colon-free run add no colon. */
  lemma NoColonPadded(w1: string, a: string, w2: string)
    requires AllWhitespace(w1) && AllWhitespace(w2) && ':' !in a
    ensures ':' !in w1 + a + w2
  {
    var s := w1 + a + w2;
    forall i | 0 <= i < |s| ensures s[i] != ':' {
      if i < |w1| { assert s[i] == w1[i]; }
      else if i < |w1| + |a| { assert s[i] == a[i - |w1|]; }
      else { assert s[i] == w2[i - |w1| - |a|]; }
    }
  }

  /** A run that starts and ends with a non-blank is left alone by trimming. */
  lemma TrimUnpadded(a: string)
    requires |a| > 0 && !IsWhitespace(a[0]) && !IsWhitespace(a[|a| - 1])
    ensures Trim(a) == a
  {
    TrimPadded([], a, []);
    assert [] + a + [] == a;
  }

  /** Empty pieces are dropped, so any extra colons around or between the numbers are tolerated. */
  lemma ParseIgnoresExtraColons(lead: string, a: string, mid: string, b: string, trail: string)
    requires AllSeparators(lead, ':') && AllSeparators(mid, ':') && AllSeparators(trail, ':') && |mid| > 0
    requires |a| > 0 && |b| > 0 && ':' !in a && ':' !in b
    ensures ParseMinSec(lead + a + mid + b + trail) == ParseMinSec(a + ":" + b)
  {
    SplitPairPadded(lead, a, mid, b, trail, ':');
    ParsePieces(lead + a + mid + b + trail, a, b);
    assert a + ":" + b == a + [':'] + b;
    SplitPair(a, b, ':');
    ParsePieces(a + [':'] + b, a, b);
  }

  /** Three pieces, as in "1:2:3", are rejected. */
  lemma RejectThreePieces(a: string, b: string, c: string)
    requires |a| > 0 && |b| > 0 && |c| > 0 && ':' !in a && ':' !in b && ':' !in c
    ensures ParseMinSec(a + ":" + b + ":" + c) == None
  {
    assert a + ":" + b + ":" + c == a + [':'] + b + [':'] + c;
    SplitTriple(a, b, c, ':');
    ParseRejects(a + ":" + b + ":" + c);
  }

  /** Any number of colon-free runs other than two, however the colons between them are laid out, is rejected. */
  lemma RejectRunLayout(pieces: seq<string>, gaps: seq<string>)
    requires RunLayout(pieces, gaps, ':') && |pieces| != 2
    ensures ParseMinSec(JoinRuns(pieces, gaps)) == None
  {
    SplitJoinRuns(pieces, gaps, ':');
  }

  /** A lone number, with no colon, is rejected. */
  lemma RejectNoColon(text: string)
    requires ':' !in text
    ensures ParseMinSec(text) == None
  {
    SplitNoSeparator(text, ':');
    ParseRejects(text);
  }

  /** A minutes piece holding anything but blanks, a sign and digits, as in "a:05", is rejected. */
  lemma RejectForeignCharacter(a: string, b: string, i: nat)
    requires |a| > 0 && |b| > 0 && ':' !in a && ':' !in b
    requires i < |a| && !IsDigit(a[i]) && !IsSign(a[i]) && !IsWhitespace(a[i])
    ensures ParseMinSec(a + ":" + b) == None
  {
    assert a + ":" + b == a + [':'] + b;
    SplitPair(a, b, ':');
    TrimKeeps(a, i);
    ForeignNotLiteral(Trim(a), a[i]);
    ParseRejects(a + ":" + b);
  }

  /** Text holding a character that is neither a digit nor a sign is no integer literal. */
  lemma ForeignNotLiteral(t: string, c: char)
    requires c in t && !IsDigit(c) && !IsSign(c)
    ensures !IsIntLiteral(t)
  {
    var j :| 0 <= j < |t| && t[j] == c;
    if |t| > 0 && IsSign(t[0]) {
      assert j > 0 && t[1..][j - 1] == c;
    }
  }

  /** A minutes piece of blanks only, as in " :05", trims to nothing and is rejected. */
  lemma RejectBlankPiece(blanks: string, b: string)
    requires |blanks| > 0 && AllWhitespace(blanks)
    requires |b| > 0 && ':' !in b
    ensures ParseMinSec(blanks + ":" + b) == None
  {
    assert ':' !in blanks by {
      forall i | 0 <= i < |blanks| ensures blanks[i] != ':' { assert IsWhitespace(blanks[i]); }
    }
    assert blanks + ":" + b == blanks + [':'] + b;
    SplitPair(blanks, b, ':');
    TrimBlank(blanks);
    ParseRejects(blanks + ":" + b);
  }

  /**
    Play on a parseable field with a non-negative duration `R`: the timer
    runs from `R` with the field normalised, still runs (at zero) after `R`
    ticks, and tick `R + 1` stops it with the field reading "00:00".
  */
  lemma PlayThenRunOut(v: View, m: int, s: int)
    requires !v.timer.isTimerRunning
    requires ParseMinSec(v.editableTime) == Some((m, s)) && m * 60 + s >= 0
    ensures var count := m * 60 + s;
      var played := PlayPause(v);
      && played == View(Timer(count, count, true), TimerString(count))
      && HandleAll(played, TickEvents(count)) == View(Timer(count, 0, true), TimerString(count))
      && HandleAll(played, TickEvents(count + 1)) == View(Timer(count, 0, false), "00:00")
  {
    ViewExpiry(PlayPause(v));
  }

  /** "1:5" becomes one minute five seconds, shown as "01:05". */
  lemma CommitOneFive(t: Timer)
    ensures Commit(View(t, "1:5")) == View(t.(totalSeconds := 65, remainingSeconds := 65), "01:05")
  {
    CommitSingleDigits(t, '1', '5');
  }

  /** "1:2:3" is refused. */
  lemma RejectOneTwoThree()
    ensures ParseMinSec("1:2:3").None?
  {
    assert "1:2:3" == "1" + ":" + "2" + ":" + "3";
    RejectThreePieces("1", "2", "3");
  }

  /** "1::2:3" is refused: three runs, even though one gap is a double colon. */
  lemma RejectOneDoubleTwoThree()
    ensures ParseMinSec("1::2:3").None?
  {
    var pieces, gaps := ["1", "2", "3"], ["", "::", ":", ""];
    assert JoinRuns(pieces, gaps) == "1::2:3" by {
      assert JoinRuns(pieces[3..], gaps[3..]) == "";
      assert JoinRuns(pieces[2..], gaps[2..]) == ":3";
      assert JoinRuns(pieces[1..], gaps[1..]) == "::2:3";
    }
    RejectRunLayout(pieces, gaps);
  }

  /** "+1:5" is accepted as one minute five seconds: `Int(String)` takes a leading plus. */
  lemma AcceptPlusSign()
    ensures ParseMinSec("+1:5") == Some((1, 5))
  {
    PlusSignDigits('1', '5');
  }

  /** "5:x" is refused: the seconds piece is not an integer. */
  lemma RejectLetterSeconds()
    ensures ParseMinSec("5:x").None?
  {
    RejectForeignSeconds('5', 'x');
  }

  /** "a:05" is refused. */
  lemma RejectLetterMinutes()
    ensures ParseMinSec("a:05").None?
  {
    assert "a:05" == "a" + ":" + "05";
    RejectForeignCharacter("a", "05", 0);
  }

  /** " :05" is refused. */
  lemma RejectBlankMinutes()
    ensures ParseMinSec(" :05").None?
  {
    assert " :05" == " " + ":" + "05";
    RejectBlankPiece(" ", "05");
  }

  /** "90" is refused: seconds alone are not accepted. */
  lemma RejectSecondsOnly()
    ensures ParseMinSec("90").None?
  {
    RejectNoColon("90");
  }
}
