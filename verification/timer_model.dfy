/**
  The countdown timer of `TimerModel`: three published fields changed by
  `setTime`, `startTimer`, `pauseTimer`, `cancelTimer` and by the body of the
  once-a-second tick subscription, plus the derived `MM:SS` display string.
  The Combine subscription is not modelled as a clock: a tick is an explicit
  transition that is delivered exactly while `isTimerRunning` holds, because
  `startTimer` subscribes when it sets the flag and `pauseTimer`/`cancelTimer`
  cancel the subscription when they clear it.
*/
module TimerModel {
  import opened Text

  datatype Timer = Timer(totalSeconds: int, remainingSeconds: int, isTimerRunning: bool)

  /** A freshly created model: nothing set, nothing running. */
  const Initial: Timer := Timer(0, 0, false)

  /** The fields stay non-negative and the countdown never exceeds the configured total. */
  predicate Valid(t: Timer) {
    0 <= t.remainingSeconds <= t.totalSeconds
  }

  // ---------------------------------------------------------------------------
  // Display string
  // ---------------------------------------------------------------------------

  /** Swift's `/` on `Int`: the quotient rounded toward zero. */
  function TruncDiv(a: int, b: int): (q: int)
    requires b > 0
    ensures a >= 0 ==> q == a / b
    ensures a < 0 ==> q <= 0
  {
    if a >= 0 then a / b else -((-a) / b)
  }

  /** Swift's `%` on `Int`: the remainder takes the sign of the dividend. */
  function TruncRem(a: int, b: int): (r: int)
    requires b > 0
    ensures TruncDiv(a, b) * b + r == a
    ensures -b < r < b
    ensures a >= 0 ==> 0 <= r
    ensures a < 0 ==> r <= 0
  {
    if a >= 0 then a % b else -((-a) % b)
  }

  /**
    `timerString`: minutes then seconds of `remainingSeconds`, each printed
    with `%02d`. For a non-negative count the text is a minutes field of at
    least two digits (a leading zero only when it has exactly two), a colon,
    and a two-digit seconds field below 60, which together spell the count
    back.
  */
  function TimerString(remainingSeconds: int): (s: string)
    ensures |s| >= 5
    ensures remainingSeconds >= 0 ==>
      var minutes := s[..|s| - 3];
      var seconds := s[|s| - 2..];
      && s[|s| - 3] == ':'
      && |minutes| >= 2 && AllDigits(minutes) && AllDigits(seconds)
      && (|minutes| > 2 ==> minutes[0] != '0')
      && DigitsValue(seconds) < 60
      && DigitsValue(minutes) * 60 + DigitsValue(seconds) == remainingSeconds
    ensures remainingSeconds >= 0 ==> (remainingSeconds < 6000 <==> |s| == 5)
  {
    var minutes := Pad2(TruncDiv(remainingSeconds, 60));
    var seconds := Pad2(TruncRem(remainingSeconds, 60));
    JoinFields(minutes, seconds);
    minutes + ":" + seconds
  }

  /** Where the fields sit in `minutes + ":" + seconds` when the seconds take two characters. */
  lemma JoinFields(minutes: string, seconds: string)
    ensures |minutes + ":" + seconds| == |minutes| + |seconds| + 1
    ensures |seconds| == 2 ==>
      var s := minutes + ":" + seconds;
      s[..|s| - 3] == minutes && s[|s| - 3] == ':' && s[|s| - 2..] == seconds
  {
  }

  /** For a non-negative count the display is `pad2(r / 60) + ":" + pad2(r % 60)`. */
  lemma TimerStringOfCount(r: int)
    requires r >= 0
    ensures TimerString(r) == Pad2(r / 60) + ":" + Pad2(r % 60)
    ensures 0 <= r % 60 < 60
  {
  }

  /** An expired or cancelled timer reads "00:00". */
  lemma TimerStringZero()
    ensures TimerString(0) == "00:00"
  {
    assert Pad2(0) == "00";
  }

  // ---------------------------------------------------------------------------
  // Commands
  // ---------------------------------------------------------------------------

  function Max(a: int, b: int): (m: int)
    ensures m >= a && m >= b && (m == a || m == b)
  {
    if a >= b then a else b
  }

  /**
    `setTime(minutes:seconds:)`: a negative duration is clamped to zero, and
    the countdown restarts from the new total. The running flag is not touched
    (the model itself accepts an edit while running).
  */
  function SetTime(t: Timer, minutes: int, seconds: int): (r: Timer)
    ensures r.totalSeconds >= 0 && r.remainingSeconds == r.totalSeconds
    ensures minutes * 60 + seconds >= 0 ==> r.totalSeconds == minutes * 60 + seconds
    ensures minutes * 60 + seconds < 0 ==> r.totalSeconds == 0
    ensures r.isTimerRunning == t.isTimerRunning
  {
    var total := Max(0, minutes * 60 + seconds);
    t.(totalSeconds := total, remainingSeconds := total)
  }

  /**
    `startTimer`: ignored while running; otherwise the countdown resumes from
    the current remaining time, not from the total.
  */
  function Start(t: Timer): (r: Timer)
    ensures r.isTimerRunning
    ensures r.totalSeconds == t.totalSeconds && r.remainingSeconds == t.remainingSeconds
    ensures t.isTimerRunning ==> r == t
  {
    if t.isTimerRunning then t else t.(isTimerRunning := true)
  }

  /** `pauseTimer`: ignored while stopped; otherwise stops and keeps both counts. */
  function Pause(t: Timer): (r: Timer)
    ensures !r.isTimerRunning
    ensures r.totalSeconds == t.totalSeconds && r.remainingSeconds == t.remainingSeconds
    ensures !t.isTimerRunning ==> r == t
  {
    if t.isTimerRunning then t.(isTimerRunning := false) else t
  }

  /** `cancelTimer`: stops and zeroes the countdown; the configured total survives. */
  function Cancel(t: Timer): (r: Timer)
    ensures !r.isTimerRunning && r.remainingSeconds == 0
    ensures r.totalSeconds == t.totalSeconds
  {
    t.(isTimerRunning := false, remainingSeconds := 0)
  }

  /**
    The body of the tick subscription: count down one second while time is
    left, and otherwise finish by performing `cancelTimer`.
  */
  function Tick(t: Timer): (r: Timer)
    ensures t.remainingSeconds > 0 ==>
      && r.remainingSeconds == t.remainingSeconds - 1
      && r.totalSeconds == t.totalSeconds
      && r.isTimerRunning == t.isTimerRunning
    ensures t.remainingSeconds <= 0 ==> r == Cancel(t)
    ensures r.remainingSeconds >= 0
  {
    if t.remainingSeconds > 0 then t.(remainingSeconds := t.remainingSeconds - 1)
    else Cancel(t)
  }

  // ---------------------------------------------------------------------------
  // Relations between commands
  // ---------------------------------------------------------------------------

  /** Starting and immediately pausing a stopped timer gives back the same state. */
  lemma StartThenPause(t: Timer)
    requires !t.isTimerRunning
    ensures Pause(Start(t)) == t
  {
  }

  /** Pausing then starting a running timer resumes exactly where it was. */
  lemma PauseThenStart(t: Timer)
    requires t.isTimerRunning
    ensures Start(Pause(t)) == t
  {
  }

  /** Cancelling twice is cancelling once. */
  lemma CancelIdempotent(t: Timer)
    ensures Cancel(Cancel(t)) == Cancel(t)
  {
  }

  // ---------------------------------------------------------------------------
  // The command alphabet and reachable states
  // ---------------------------------------------------------------------------

  datatype Command =
    | SetTimeCmd(minutes: int, seconds: int)
    | StartCmd
    | PauseCmd
    | CancelCmd
    | TickCmd

  /** One transition. A tick reaches the model only while it is subscribed, that is, while running. */
  function Apply(t: Timer, c: Command): Timer {
    match c
    case SetTimeCmd(m, s) => SetTime(t, m, s)
    case StartCmd => Start(t)
    case PauseCmd => Pause(t)
    case CancelCmd => Cancel(t)
    case TickCmd => if t.isTimerRunning then Tick(t) else t
  }

  function Run(t: Timer, cs: seq<Command>): Timer
    decreases |cs|
  {
    if |cs| == 0 then t else Run(Apply(t, cs[0]), cs[1..])
  }

  /** Every single command keeps the counts in range. */
  lemma ApplyPreservesValid(t: Timer, c: Command)
    requires Valid(t)
    ensures Valid(Apply(t, c))
  {
  }

  lemma {:induction false} RunPreservesValid(t: Timer, cs: seq<Command>)
    requires Valid(t)
    ensures Valid(Run(t, cs))
    decreases |cs|
  {
    if |cs| > 0 {
      ApplyPreservesValid(t, cs[0]);
      RunPreservesValid(Apply(t, cs[0]), cs[1..]);
    }
  }

  /** From a fresh model, no command sequence makes a count negative or overshoots the total. */
  lemma ReachableValid(cs: seq<Command>)
    ensures Valid(Run(Initial, cs))
    ensures Run(Initial, cs).remainingSeconds >= 0 && Run(Initial, cs).totalSeconds >= 0
  {
    RunPreservesValid(Initial, cs);
  }

  // ---------------------------------------------------------------------------
  // Counting down
  // ---------------------------------------------------------------------------

  /** `n` delivered ticks. */
  function Ticks(t: Timer, n: nat): Timer
    decreases n
  {
    if n == 0 then t else Ticks(Apply(t, TickCmd), n - 1)
  }

  /** From a running timer with `R >= n` seconds left, `n` ticks leave `R - n` and it keeps running. */
  lemma {:induction false} TicksCountDown(t: Timer, n: nat)
    requires t.isTimerRunning && n <= t.remainingSeconds
    ensures Ticks(t, n) == t.(remainingSeconds := t.remainingSeconds - n)
    decreases n
  {
    if n > 0 {
      TicksCountDown(Apply(t, TickCmd), n - 1);
    }
  }

  /** Once stopped, no tick arrives, so further ticks change nothing. */
  lemma {:induction false} TicksWhileStopped(t: Timer, n: nat)
    requires !t.isTimerRunning
    ensures Ticks(t, n) == t
    decreases n
  {
    if n > 0 {
      TicksWhileStopped(t, n - 1);
    }
  }

  /**
    A running timer with `R` seconds left is still running (at zero) after
    `R` ticks and has stopped on tick `R + 1`, with the cancel effect and the
    total kept; afterwards it stays put.
  */
  lemma Expiry(t: Timer, extra: nat)
    requires t.isTimerRunning && t.remainingSeconds >= 0
    ensures Ticks(t, t.remainingSeconds) == t.(remainingSeconds := 0)
    ensures Ticks(t, t.remainingSeconds + 1) == Timer(t.totalSeconds, 0, false)
    ensures Ticks(t, t.remainingSeconds + 1 + extra) == Timer(t.totalSeconds, 0, false)
  {
    var r := t.remainingSeconds;
    TicksCountDown(t, r);
    TicksSplit(t, r, 1);
    TicksSplit(t, r + 1, extra);
    TicksWhileStopped(Timer(t.totalSeconds, 0, false), extra);
  }

  /** Ticking `a` then `b` times is ticking `a + b` times. */
  lemma {:induction false} TicksSplit(t: Timer, a: nat, b: nat)
    ensures Ticks(t, a + b) == Ticks(Ticks(t, a), b)
    decreases a
  {
    if a > 0 {
      TicksSplit(Apply(t, TickCmd), a - 1, b);
    }
  }

  /**
    Five seconds set and started: after five ticks the display reads "00:00"
    while the timer is still running, and the sixth tick stops it.
  */
  lemma FiveSecondCountdown()
    ensures var started := Start(SetTime(Initial, 0, 5));
      && Ticks(started, 5) == Timer(5, 0, true)
      && Ticks(started, 6) == Timer(5, 0, false)
      && TimerString(Ticks(started, 6).remainingSeconds) == "00:00"
  {
    var started := Start(SetTime(Initial, 0, 5));
    Expiry(started, 0);
    TimerStringZero();
  }
}
