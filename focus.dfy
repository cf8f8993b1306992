/** The single 25-minute focus timer (src/components/FocusModal.tsx), shown
    for one task.  As for the Pomodoro timer, the one-second interval and
    the effect that reacts to the count reaching zero are explicit events. */
module Focus {
  import opened Optional
  import opened Decimal
  import opened Tasks
  import Pomodoro

  /** A focus session, in seconds. */
  const SessionSeconds: int := 25 * 60

  /** `formatTime`: minutes and seconds, each padded to two digits with '0'. */
  function FormatTime(seconds: nat): string {
    PadStart2(NatToString(seconds / 60)) + ":" + PadStart2(NatToString(seconds % 60))
  }

  /** Reads `mm:ss` back into seconds; anything else is not a clock. */
  function ParseClock(s: string): Option<nat> {
    if |s| != 5 || s[2] != ':' then None
    else
      match (ParseNat(s[..2]), ParseNat(s[3..]))
      case (Some(m), Some(sec)) => if sec < 60 then Some(m * 60 + sec) else None
      case _ => None
  }

  /** Below 100 minutes the display has five characters and reads back as
      the number of seconds shown. */
  lemma FormatTimeRoundTrip(seconds: nat)
    requires seconds < 6000
    ensures |FormatTime(seconds)| == 5
    ensures ParseClock(FormatTime(seconds)) == Some(seconds)
  {
    var m := PadStart2(NatToString(seconds / 60));
    var s := PadStart2(NatToString(seconds % 60));
    ParsePadded(seconds / 60);
    ParsePadded(seconds % 60);
    var r := FormatTime(seconds);
    assert r == m + ":" + s;
    assert r[..2] == m;
    assert r[3..] == s;
  }

  /** Two readings of the clock are equal only when the times are: the
      display tells every session second apart. */
  lemma FormatTimeInjective(a: nat, b: nat)
    requires a < 6000 && b < 6000
    ensures FormatTime(a) == FormatTime(b) ==> a == b
  {
    FormatTimeRoundTrip(a);
    FormatTimeRoundTrip(b);
  }

  /** The two timers print the same text for every count: a leading '0'
      below ten is padding to two digits. */
  lemma FormatsAgree(seconds: nat)
    ensures FormatTime(seconds) == Pomodoro.FormatTime(seconds)
  {
    var mins, secs := seconds / 60, seconds % 60;
    PadMatchesLeadingZero(mins);
    PadMatchesLeadingZero(secs);
  }

  lemma PadMatchesLeadingZero(n: nat)
    ensures PadStart2(NatToString(n)) == (if n < 10 then "0" else "") + NatToString(n)
  {
    var d := NatToString(n);
    if n < 10 {
      var p := PadStart2(d);
      assert p[1..] == d && p[0] == '0';
    }
  }

  /** The timer's state. */
  class FocusTimer {
    var timeLeft: int
    var isActive: bool

    ghost predicate Valid()
      reads this
    {
      0 <= timeLeft <= SessionSeconds
    }

    constructor()
      ensures Valid()
      ensures timeLeft == 1500 && !isActive
    {
      timeLeft := SessionSeconds;
      isActive := false;
    }

    /** The effect on `isOpen`: opening loads a full stopped session; the
        clean-up of the previous run stops the timer either way. */
    method OpenChanged(isOpen: bool)
      requires Valid()
      modifies this
      ensures Valid()
      ensures !isActive
      ensures isOpen ==> timeLeft == 1500
      ensures !isOpen ==> timeLeft == old(timeLeft)
    {
      isActive := false;
      if isOpen {
        timeLeft := SessionSeconds;
      }
    }

    /** The one-second interval fires while active with time left. */
    method Tick()
      requires Valid()
      modifies this`timeLeft
      ensures Valid()
      ensures old(isActive) && old(timeLeft) > 0 ==> timeLeft == old(timeLeft) - 1
      ensures !(old(isActive) && old(timeLeft) > 0) ==> timeLeft == old(timeLeft)
    {
      if isActive && timeLeft > 0 {
        timeLeft := timeLeft - 1;
      }
    }

    /** The effect at zero: `stopTimer`, with the count left at zero. */
    method Settle()
      requires Valid()
      modifies this`isActive
      ensures Valid()
      ensures old(timeLeft) == 0 ==> !isActive
      ensures old(timeLeft) != 0 ==> isActive == old(isActive)
    {
      if timeLeft == 0 {
        isActive := false;
      }
    }

    /** `toggleTimer`: start or pause. */
    method ToggleTimer()
      requires Valid()
      modifies this`isActive
      ensures Valid()
      ensures isActive == !old(isActive)
    {
      isActive := !isActive;
    }

    /** `resetTimer`: stop and reload a full session. */
    method ResetTimer()
      requires Valid()
      modifies this
      ensures Valid()
      ensures !isActive && timeLeft == 1500
    {
      isActive := false;
      timeLeft := SessionSeconds;
    }
  }

  /** The "finished" button, present only when a task is shown: it reports
      that task's id. */
  function Finished(task: Option<Task>): (reported: Option<string>)
    ensures reported.Some? <==> task.Some?
    ensures task.Some? ==> reported == Some(task.value.id)
  {
    match task
    case None => None
    case Some(t) => Some(t.id)
  }
}
