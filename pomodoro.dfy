/** The pomodoro timer hook: four pieces of state (`timeLeft`, `isActive`, `isPaused`,
    `sessionType`), the operations start, pause, reset and set-session, a one-second tick,
    and the "MM:SS" display of the remaining time. */
module Pomodoro {
  import opened Text
  import opened Types

  const PomodoroTime: int := 25 * 60
  const ShortBreakTime: int := 5 * 60
  const LongBreakTime: int := 15 * 60

  datatype SessionType = Focus | ShortBreak | LongBreak

  /** The full length of a session of the given type, in seconds. */
  function Duration(t: SessionType): (d: int)
    ensures d > 0
    ensures t == Focus ==> d == 1500
    ensures t == ShortBreak ==> d == 300
    ensures t == LongBreak ==> d == 900
  {
    if t == Focus then PomodoroTime else if t == ShortBreak then ShortBreakTime else LongBreakTime
  }

  /** JavaScript's `a % b` for `b > 0`: the remainder takes the sign of `a`. */
  function JsRem(a: int, b: int): (r: int)
    requires b > 0
    ensures a >= 0 ==> 0 <= r < b && r == a % b
    ensures a < 0 ==> -b < r <= 0
  {
    if a >= 0 then a % b else -((-a) % b)
  }

  /** `formatTime(seconds)`: `Math.floor(seconds / 60)` and `seconds % 60`, each written in
      decimal and padded on the left with zeros to two characters, joined by ':'. */
  function FormatTime(seconds: int): (r: string)
    ensures |r| >= 5
    ensures seconds >= 0 ==> AllDigits(r[..|r| - 3]) && r[|r| - 3] == ':' && AllDigits(r[|r| - 2..])
    ensures 0 <= seconds < 6000 ==> |r| == 5
  {
    FormatTimeFacts(seconds);
    PadStart2(IntToString(seconds / 60)) + ":" + PadStart2(IntToString(JsRem(seconds, 60)))
  }

  /** The shape of the display, for the postcondition of `FormatTime`. */
  lemma FormatTimeFacts(seconds: int)
    ensures var r := PadStart2(IntToString(seconds / 60)) + ":" + PadStart2(IntToString(JsRem(seconds, 60)));
      && |r| >= 5
      && (seconds >= 0 ==> AllDigits(r[..|r| - 3]) && r[|r| - 3] == ':' && AllDigits(r[|r| - 2..]))
      && (0 <= seconds < 6000 ==> |r| == 5)
  {
    if seconds >= 0 {
      var m, s := PadStart2(IntToString(seconds / 60)), PadStart2(IntToString(seconds % 60));
      FormatTimeParts(seconds);
      ClockText(m, s);
    }
  }

  /** Where the two halves sit in "MM:SS" when the seconds take two characters. */
  lemma ClockText(m: string, s: string)
    requires |s| == 2
    ensures var r := m + ":" + s;
      r[..|r| - 3] == m && r[|r| - 3] == ':' && r[|r| - 2..] == s
  {
    var r := m + ":" + s;
    assert r[..|m|] == m && r[|m| + 1..] == s;
  }

  /** For `n < 100`, `n.toString()` has at most two digits. */
  lemma TwoDigits(n: nat)
    requires n < 100
    ensures |NatToString(n)| <= 2
  {
    if n >= 10 {
      assert NatToString(n) == NatToString(n / 10) + [DigitChar(n % 10)];
    }
  }

  /** A leading '0' added by the padding does not change the value. */
  lemma ZeroPaddedDigits(d: string)
    requires AllDigits(d)
    ensures AllDigits(PadStart2(d)) && DigitsValue(PadStart2(d)) == DigitsValue(d)
  {
    if |d| < 2 {
      if |d| == 0 {
        assert PadStart2(d) == "0" + "0";
        LeadingZeroValue("0");
      } else {
        LeadingZeroValue(d);
      }
    }
  }

  /** The two halves of the display of a non-negative time, and their values. */
  lemma FormatTimeParts(seconds: int)
    requires seconds >= 0
    ensures var m := PadStart2(IntToString(seconds / 60));
      var s := PadStart2(IntToString(seconds % 60));
      && AllDigits(m) && AllDigits(s) && |m| >= 2 && |s| == 2
      && DigitsValue(m) == seconds / 60 && DigitsValue(s) == seconds % 60
      && (seconds < 6000 ==> |m| == 2)
  {
    ZeroPaddedDigits(IntToString(seconds / 60));
    ZeroPaddedDigits(IntToString(seconds % 60));
    TwoDigits(seconds % 60);
    if seconds < 6000 {
      TwoDigits(seconds / 60);
    }
  }

  /** Reads "MM:SS" back: the digits before the last ':' are minutes, the two after it
      seconds. */
  function ParseTime(r: string): (seconds: Option<int>)
    ensures seconds.Some? ==> seconds.value >= 0
  {
    if |r| >= 3 && r[|r| - 3] == ':' && AllDigits(r[..|r| - 3]) && AllDigits(r[|r| - 2..])
    then Some(60 * DigitsValue(r[..|r| - 3]) + DigitsValue(r[|r| - 2..]))
    else None
  }

  /** Reading back a display made of two digit strings gives minutes and seconds back. */
  lemma ParseClock(m: string, s: string, seconds: nat)
    requires AllDigits(m) && AllDigits(s) && |m| >= 2 && |s| == 2
    requires DigitsValue(m) == seconds / 60 && DigitsValue(s) == seconds % 60
    ensures ParseTime(m + ":" + s) == Some(seconds)
  {
    ClockText(m, s);
    assert 60 * (seconds / 60) + seconds % 60 == seconds;
  }

  /** The display can be read back: the minutes and seconds it shows give back the number of
      seconds. */
  lemma FormatTimeRoundTrip(seconds: int)
    requires seconds >= 0
    ensures ParseTime(FormatTime(seconds)) == Some(seconds)
  {
    FormatTimeParts(seconds);
    var m, s := PadStart2(IntToString(seconds / 60)), PadStart2(IntToString(seconds % 60));
    assert FormatTime(seconds) == m + ":" + s;
    ParseClock(m, s, seconds);
  }

  /** Below 100 minutes the display is exactly two digits of minutes, ':', two of seconds. */
  lemma FormatTimeShape(seconds: int)
    requires 0 <= seconds < 6000
    ensures var r := FormatTime(seconds);
      && |r| == 5 && r[2] == ':' && AllDigits(r[..2]) && AllDigits(r[3..])
      && DigitsValue(r[..2]) == seconds / 60
      && DigitsValue(r[3..]) == seconds % 60
  {
    FormatTimeParts(seconds);
    var m, s := PadStart2(IntToString(seconds / 60)), PadStart2(IntToString(seconds % 60));
    assert FormatTime(seconds) == m + ":" + s;
    ClockHalves(m, s);
  }

  lemma ClockHalves(m: string, s: string)
    requires |m| == 2 && |s| == 2
    ensures var r := m + ":" + s; |r| == 5 && r[..2] == m && r[2] == ':' && r[3..] == s
  {
    var r := m + ":" + s;
    assert r[..2] == m && r[3..] == s;
  }

  /** The timer state. */
  class Timer {
    var timeLeft: int
    var isActive: bool
    var isPaused: bool
    var sessionType: SessionType

    /** The remaining time lies within the current session. */
    ghost predicate InRange()
      reads this
    {
      0 <= timeLeft <= Duration(sessionType)
    }

    /** The timer is never running and paused at once. */
    ghost predicate Exclusive()
      reads this
    {
      !(isActive && isPaused)
    }

    /** `usePomodoroTimer(initialTime)`: a stopped focus session with `initialTime` seconds
        left (25 minutes by default). */
    constructor (initialTime: int)
      ensures timeLeft == initialTime && !isActive && !isPaused && sessionType == Focus
      ensures 0 <= initialTime <= PomodoroTime ==> InRange()
      ensures Exclusive()
    {
      timeLeft := initialTime;
      isActive := false;
      isPaused := false;
      sessionType := Focus;
    }

    /** The effect that re-runs after every change of `isActive` or `timeLeft`: once no
        time is left, the timer stops. */
    method Settle()
      modifies this`isActive
      ensures isActive == (old(isActive) && timeLeft != 0)
    {
      if timeLeft == 0 {
        isActive := false;
      }
    }

    method StartTimer()
      modifies this`isActive, this`isPaused
      ensures !isPaused && isActive == (timeLeft != 0)
      ensures old(InRange()) ==> InRange()
      ensures Exclusive()
    {
      isActive := true;
      isPaused := false;
      Settle();
    }

    method PauseTimer()
      modifies this`isActive, this`isPaused
      ensures isPaused && !isActive
      ensures old(InRange()) ==> InRange()
      ensures Exclusive()
    {
      isPaused := true;
      isActive := false;
      Settle();
    }

    method ResetTimer()
      modifies this`isActive, this`isPaused, this`timeLeft
      ensures !isActive && !isPaused && timeLeft == Duration(sessionType)
      ensures sessionType == old(sessionType)
      ensures InRange() && Exclusive()
    {
      isActive := false;
      isPaused := false;
      timeLeft := Duration(sessionType);
      Settle();
    }

    method SetSession(t: SessionType)
      modifies this
      ensures sessionType == t && !isActive && !isPaused && timeLeft == Duration(t)
      ensures InRange() && Exclusive()
    {
      sessionType := t;
      isActive := false;
      isPaused := false;
      timeLeft := Duration(t);
      Settle();
    }

    /** One second of the interval: while running with time left, one second goes; the timer
        stops when none is left. */
    method Tick()
      modifies this`timeLeft, this`isActive
      ensures old(isActive && timeLeft > 0) ==> timeLeft == old(timeLeft) - 1
      ensures !old(isActive && timeLeft > 0) ==> timeLeft == old(timeLeft)
      ensures isActive == (old(isActive) && timeLeft != 0)
      ensures old(InRange()) ==> InRange()
      ensures old(Exclusive()) ==> Exclusive()
    {
      if isActive && timeLeft > 0 {
        timeLeft := timeLeft - 1;
      }
      Settle();
    }
  }

  /** A run of the timer from its default start, through any sequence of operations, never
      leaves the session's range and never is running and paused at once. */
  method Session(ops: seq<Op>) returns (t: Timer)
    ensures t.InRange() && t.Exclusive()
  {
    t := new Timer(PomodoroTime);
    for k := 0 to |ops|
      invariant t.InRange() && t.Exclusive()
    {
      match ops[k]
      case Start => t.StartTimer();
      case Pause => t.PauseTimer();
      case Reset => t.ResetTimer();
      case SetTo(s) => t.SetSession(s);
      case TickOnce => t.Tick();
    }
  }

  datatype Op = Start | Pause | Reset | SetTo(session: SessionType) | TickOnce
}
