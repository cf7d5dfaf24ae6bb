/**
  The popover shell of `TimerView`: the timer model together with the
  `editableTime` text buffer behind the duration field. Each user gesture
  (typing, submitting, Play/Pause, Cancel) and each delivered tick is a pure
  transition of the pair; the `onReceive` refresh on `remainingSeconds` is
  applied after every transition that assigns that field.
*/
module TimerView {
  import opened Wrappers
  import opened Text
  import opened TimerModel

  datatype View = View(timer: Timer, editableTime: string)

  /** Before the popover appears the buffer is empty. */
  const Launched: View := View(TimerModel.Initial, "")

  /** `onAppear`: the buffer is loaded with the current display string. */
  function Appear(v: View): (r: View)
    ensures r.timer == v.timer
    ensures r.editableTime == TimerString(v.timer.remainingSeconds)
    ensures v.timer.remainingSeconds >= 0 ==>
      ParseMinSec(r.editableTime) == Some((v.timer.remainingSeconds / 60, v.timer.remainingSeconds % 60))
    ensures Displayed(r) == TimerString(v.timer.remainingSeconds)
  {
    var count := v.timer.remainingSeconds;
    assert count >= 0 ==> ParseMinSec(TimerString(count)) == Some((count / 60, count % 60)) by {
      if count >= 0 { ParseTimerString(count); }
    }
    v.(editableTime := TimerString(count))
  }

  /**
    Submitting right after the popover appears, running or not, reloads the
    time the field shows: the total becomes the remaining count and the
    buffer is unchanged.
  */
  lemma AppearThenSubmit(v: View)
    requires v.timer.remainingSeconds >= 0
    ensures var shown := Appear(v);
      Commit(shown) == View(v.timer.(totalSeconds := v.timer.remainingSeconds), shown.editableTime)
  {
    CommitRoundTrip(v.timer, v.timer.remainingSeconds);
  }

  // ---------------------------------------------------------------------------
  // The text binding
  // ---------------------------------------------------------------------------

  /**
    The binding's getter: the live countdown while running, the buffer
    otherwise. A running display of a non-negative count reads back as that
    count's minutes and seconds.
  */
  function Displayed(v: View): (r: string)
    ensures !v.timer.isTimerRunning ==> r == v.editableTime
    ensures v.timer.isTimerRunning ==> r == TimerString(v.timer.remainingSeconds)
    ensures v.timer.isTimerRunning && v.timer.remainingSeconds >= 0 ==>
      ParseMinSec(r) == Some((v.timer.remainingSeconds / 60, v.timer.remainingSeconds % 60))
  {
    if v.timer.isTimerRunning then
      var count := v.timer.remainingSeconds;
      assert count >= 0 ==> ParseMinSec(TimerString(count)) == Some((count / 60, count % 60)) by {
        if count >= 0 { ParseTimerString(count); }
      }
      TimerString(count)
    else v.editableTime
  }

  /** The binding's setter: edits are dropped while the timer runs. */
  function Edit(v: View, newValue: string): (r: View)
    ensures r.timer == v.timer
    ensures v.timer.isTimerRunning ==> r == v
    ensures !v.timer.isTimerRunning ==> r.editableTime == newValue
  {
    if v.timer.isTimerRunning then v else v.(editableTime := newValue)
  }

  /** While stopped, the field shows back exactly what was typed into it. */
  lemma EditThenDisplay(v: View, newValue: string)
    requires !v.timer.isTimerRunning
    ensures Displayed(Edit(v, newValue)) == newValue
  {
  }

  /** While running, typing changes neither the state nor what the field shows. */
  lemma EditWhileRunning(v: View, newValue: string)
    requires v.timer.isTimerRunning
    ensures Edit(v, newValue) == v
    ensures Displayed(Edit(v, newValue)) == TimerString(v.timer.remainingSeconds)
  {
  }

  // ---------------------------------------------------------------------------
  // commitTimerValue
  // ---------------------------------------------------------------------------

  /**
    The parsing half of `commitTimerValue`: split on ':' (empty pieces
    dropped), demand exactly two pieces, trim blanks from each and read each
    with `Int(String)`. Only text with exactly two maximal colon-free runs,
    and therefore at least one colon, can be accepted.
  */
  function ParseMinSec(text: string): (r: Option<(int, int)>)
    ensures RunCount(text, ':') != 2 ==> r.None?
    ensures r.Some? ==> ':' in text
  {
    RunCountNoSeparator(text, ':', false);
    var pieces := Split(text, ':');
    if |pieces| != 2 then None
    else
      var minutes := ParseInt(Trim(pieces[0]));
      var seconds := ParseInt(Trim(pieces[1]));
      if minutes.Some? && seconds.Some? then Some((minutes.value, seconds.value)) else None
  }

  /** Any pair of integers printed as `%02d:%02d` parses back to that pair. */
  lemma ParseFormatted(m: int, s: int)
    ensures ParseMinSec(Pad2(m) + ":" + Pad2(s)) == Some((m, s))
  {
    Pad2Field(m);
    Pad2Field(s);
    ParseFields(Pad2(m), Pad2(s), m, s);
  }

  /** A `%02d` field holds no colon and no blank, and reads back as its number. */
  lemma Pad2Field(n: int)
    ensures |Pad2(n)| > 0 && ':' !in Pad2(n)
    ensures ParseInt(Trim(Pad2(n))) == Some(n)
  {
    NoColonNoWhitespace(Pad2(n));
    ParsePad2(n);
  }

  /** Two colon-free fields that read as integers after trimming, joined by a colon. */
  lemma ParseFields(a: string, b: string, m: int, s: int)
    requires |a| > 0 && |b| > 0 && ':' !in a && ':' !in b
    requires ParseInt(Trim(a)) == Some(m) && ParseInt(Trim(b)) == Some(s)
    ensures ParseMinSec(a + ":" + b) == Some((m, s))
  {
    assert a + ":" + b == a + [':'] + b;
    SplitPair(a, b, ':');
    ParseAccepts(a + ":" + b, a, b, m, s);
  }

  /** Two colon-free fields joined by a colon are rejected when either one, trimmed, is not an integer literal. */
  lemma RejectFields(a: string, b: string)
    requires |a| > 0 && |b| > 0 && ':' !in a && ':' !in b
    requires !IsIntLiteral(Trim(a)) || !IsIntLiteral(Trim(b))
    ensures ParseMinSec(a + ":" + b) == None
  {
    assert a + ":" + b == a + [':'] + b;
    SplitPair(a, b, ':');
    ParseRejects(a + ":" + b);
  }

  /** Text made of digits and an optional leading minus has no colon and no blank. */
  lemma NoColonNoWhitespace(a: string)
    requires forall i :: 0 <= i < |a| ==> IsDigit(a[i]) || (i == 0 && a[i] == '-')
    ensures ':' !in a && NoWhitespace(a) && Trim(a) == a
  {
    forall i | 0 <= i < |a| ensures a[i] != ':' && !IsWhitespace(a[i]) {}
  }

  /** Once the text splits into two pieces, each trimmed piece must read as an integer. */
  lemma ParsePieces(text: string, a: string, b: string)
    requires Split(text, ':') == [a, b]
    ensures ParseMinSec(text) ==
      if ParseInt(Trim(a)).Some? && ParseInt(Trim(b)).Some?
      then Some((ParseInt(Trim(a)).value, ParseInt(Trim(b)).value))
      else None
  {
  }

  /** Two pieces that each read as an integer after trimming give that pair. */
  lemma ParseAccepts(text: string, a: string, b: string, m: int, s: int)
    requires Split(text, ':') == [a, b]
    requires ParseInt(Trim(a)) == Some(m) && ParseInt(Trim(b)) == Some(s)
    ensures ParseMinSec(text) == Some((m, s))
  {
  }

  /** Text is rejected when it does not split into two pieces, or a trimmed piece is not an integer. */
  lemma ParseRejects(text: string)
    requires
      || |Split(text, ':')| != 2
      || ParseInt(Trim(Split(text, ':')[0])).None?
      || ParseInt(Trim(Split(text, ':')[1])).None?
    ensures ParseMinSec(text) == None
  {
  }

  /** The display string of any non-negative count parses to its minutes and seconds. */
  lemma ParseTimerString(r: int)
    requires r >= 0
    ensures ParseMinSec(TimerString(r)) == Some((r / 60, r % 60))
  {
    TimerStringOfCount(r);
    ParseFormatted(r / 60, r % 60);
  }

  /**
    `commitTimerValue`: on a well-formed buffer, set the time and rewrite the
    buffer as the normalised display string; otherwise change nothing.
  */
  function Commit(v: View): (r: View)
    ensures ParseMinSec(v.editableTime).None? ==> r == v
    ensures ParseMinSec(v.editableTime).Some? ==>
      var (m, s) := ParseMinSec(v.editableTime).value;
      && r.timer == SetTime(v.timer, m, s)
      && r.editableTime == TimerString(r.timer.remainingSeconds)
    ensures r.timer.isTimerRunning == v.timer.isTimerRunning
  {
    match ParseMinSec(v.editableTime)
    case None => v
    case Some((m, s)) =>
      var timer := SetTime(v.timer, m, s);
      // Assigning `remainingSeconds` inside `setTime` may fire the refresh;
      // the assignment below overwrites whatever it wrote.
      View(timer, TimerString(timer.remainingSeconds))
  }

  /**
    Committing the display string of any count `r >= 0` sets both the total
    and the remaining time to `r`, and leaves the buffer as it was.
  */
  lemma CommitRoundTrip(t: Timer, r: int)
    requires r >= 0
    ensures Commit(View(t, TimerString(r))) == View(t.(totalSeconds := r, remainingSeconds := r), TimerString(r))
  {
    ParseTimerString(r);
  }

  /** A second commit changes nothing: a committed buffer is already normal. */
  lemma CommitIdempotent(v: View)
    ensures Commit(Commit(v)) == Commit(v)
  {
    var once := Commit(v);
    if ParseMinSec(v.editableTime).Some? {
      CommitRoundTrip(once.timer, once.timer.remainingSeconds);
      assert once.timer.(totalSeconds := once.timer.remainingSeconds) == once.timer;
    }
  }

  // ---------------------------------------------------------------------------
  // Buttons and ticks
  // ---------------------------------------------------------------------------

  /**
    `onReceive` of `remainingSeconds`: once the timer has stopped at zero, the
    buffer is reloaded from the display string.
  */
  function Refresh(v: View): (r: View)
    ensures r.timer == v.timer
    ensures !v.timer.isTimerRunning && v.timer.remainingSeconds == 0 ==> r.editableTime == "00:00"
    ensures v.timer.isTimerRunning || v.timer.remainingSeconds != 0 ==> r == v
  {
    if !v.timer.isTimerRunning && v.timer.remainingSeconds == 0 then
      TimerStringZero();
      v.(editableTime := TimerString(v.timer.remainingSeconds))
    else v
  }

  /**
    The Play/Pause button. Pausing keeps the count and loads the buffer with
    it, so the field does not jump; playing commits the buffer and starts,
    from the previous remaining time when the buffer does not parse.
  */
  function PlayPause(v: View): (r: View)
    ensures v.timer.isTimerRunning ==>
      && !r.timer.isTimerRunning
      && r.timer.remainingSeconds == v.timer.remainingSeconds
      && r.timer.totalSeconds == v.timer.totalSeconds
      && Displayed(r) == Displayed(v)
    ensures !v.timer.isTimerRunning ==>
      && r.timer.isTimerRunning
      && r.timer == Start(Commit(v).timer)
      && r.editableTime == Commit(v).editableTime
    ensures !v.timer.isTimerRunning && ParseMinSec(v.editableTime).None? ==>
      r == View(v.timer.(isTimerRunning := true), v.editableTime)
  {
    if v.timer.isTimerRunning then
      var timer := Pause(v.timer);
      View(timer, TimerString(timer.remainingSeconds))
    else
      var committed := Commit(v);
      committed.(timer := Start(committed.timer))
  }

  /** The Cancel button: stop, zero the count, and show "00:00" in the field. */
  function CancelPressed(v: View): (r: View)
    ensures !r.timer.isTimerRunning && r.timer.remainingSeconds == 0
    ensures r.timer.totalSeconds == v.timer.totalSeconds
    ensures r.editableTime == "00:00" && Displayed(r) == "00:00"
  {
    var timer := Cancel(v.timer);
    TimerStringZero();
    // `cancelTimer` fires the refresh; the button then writes the same text.
    View(timer, TimerString(timer.remainingSeconds))
  }

  /** A delivered tick, followed by the refresh its assignment triggers. */
  function TickView(v: View): (r: View)
    requires v.timer.isTimerRunning
    ensures r.timer == Tick(v.timer)
    ensures v.timer.remainingSeconds > 0 ==> r.editableTime == v.editableTime
    ensures v.timer.remainingSeconds <= 0 ==>
      !r.timer.isTimerRunning && r.editableTime == "00:00" && Displayed(r) == "00:00"
  {
    Refresh(v.(timer := Tick(v.timer)))
  }

  // ---------------------------------------------------------------------------
  // Event sequences
  // ---------------------------------------------------------------------------

  datatype Event =
    | AppearEv
    | EditEv(newValue: string)
    | SubmitEv
    | PlayPauseEv
    | CancelEv
    | TickEv

  /**
    One event; a tick is delivered only while the timer runs. Submitting the
    field commits it, and only the buttons and ticks move the running flag.
  */
  function Handle(v: View, e: Event): (r: View)
    ensures e.SubmitEv? ==> r == Commit(v)
    ensures e.TickEv? && !v.timer.isTimerRunning ==> r == v
    ensures e.AppearEv? || e.EditEv? || e.SubmitEv? ==> r.timer.isTimerRunning == v.timer.isTimerRunning
    ensures Valid(v.timer) ==> Valid(r.timer)
  {
    match e
    case AppearEv => Appear(v)
    case EditEv(text) => Edit(v, text)
    case SubmitEv => Commit(v)
    case PlayPauseEv => PlayPause(v)
    case CancelEv => CancelPressed(v)
    case TickEv => if v.timer.isTimerRunning then TickView(v) else v
  }

  function HandleAll(v: View, es: seq<Event>): View
    decreases |es|
  {
    if |es| == 0 then v else HandleAll(Handle(v, es[0]), es[1..])
  }

  /** Every event keeps the counts in range. */
  lemma HandlePreservesValid(v: View, e: Event)
    requires Valid(v.timer)
    ensures Valid(Handle(v, e).timer)
  {
  }

  /** No sequence of gestures and ticks makes a count negative or overshoots the total. */
  lemma {:induction false} ReachableViewValid(v: View, es: seq<Event>)
    requires Valid(v.timer)
    ensures Valid(HandleAll(v, es).timer)
    decreases |es|
  {
    if |es| > 0 {
      HandlePreservesValid(v, es[0]);
      ReachableViewValid(Handle(v, es[0]), es[1..]);
    }
  }

  /**
    From launch, whatever happens, the counts stay in range, and the first
    appearance shows "00:00".
  */
  lemma ReachableFromLaunch(es: seq<Event>)
    ensures Valid(HandleAll(Launched, es).timer)
    ensures Displayed(Handle(Launched, AppearEv)) == "00:00"
  {
    ReachableViewValid(Launched, es);
    TimerStringZero();
  }

  /** `n` delivered ticks. */
  function TickEvents(n: nat): (es: seq<Event>)
    ensures |es| == n
    ensures forall i :: 0 <= i < n ==> es[i] == TickEv
  {
    if n == 0 then [] else [TickEv] + TickEvents(n - 1)
  }

  /**
    A running countdown with `R` seconds left keeps the field's buffer and
    runs for `R` ticks; tick `R + 1` stops it, and the refresh loads "00:00"
    into the field.
  */
  lemma {:induction false} ViewExpiry(v: View)
    requires v.timer.isTimerRunning && v.timer.remainingSeconds >= 0
    ensures HandleAll(v, TickEvents(v.timer.remainingSeconds)) == View(v.timer.(remainingSeconds := 0), v.editableTime)
    ensures HandleAll(v, TickEvents(v.timer.remainingSeconds + 1)) == View(Timer(v.timer.totalSeconds, 0, false), "00:00")
    decreases v.timer.remainingSeconds
  {
    var r := v.timer.remainingSeconds;
    var next := Handle(v, TickEv);
    assert TickEvents(r + 1)[0] == TickEv && TickEvents(r + 1)[1..] == TickEvents(r);
    if r == 0 {
      assert HandleAll(next, []) == next;
    } else {
      assert TickEvents(r)[0] == TickEv && TickEvents(r)[1..] == TickEvents(r - 1);
      ViewExpiry(next);
    }
  }
}
