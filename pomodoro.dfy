/** The focus/break Pomodoro timer (src/components/PomodoroTimer.tsx).
    Time is counted in whole seconds; the one-second interval and the
    effect that reacts to the count reaching zero are explicit events. */
module Pomodoro {
  import opened Optional
  import opened Decimal

  datatype Mode = Focus | Break

  /** `duration`: the full length of a session in a mode. */
  function Duration(m: Mode): (d: int)
    ensures d > 0
    ensures m == Focus <==> d == 1500
    ensures m == Break <==> d == 300
  {
    match m
    case Focus => 25 * 60
    case Break => 5 * 60
  }

  function Other(m: Mode): (o: Mode)
    ensures o != m
  {
    match m
    case Focus => Break
    case Break => Focus
  }

  /** `formatTime`: minutes and seconds, each given a leading '0' below 10. */
  function FormatTime(seconds: nat): string {
    var mins, secs := seconds / 60, seconds % 60;
    (if mins < 10 then "0" else "") + NatToString(mins) + ":" + (if secs < 10 then "0" else "") + NatToString(secs)
  }

  /** Below 100 minutes the display is `mm:ss`, five characters whose two
      halves read back as the minutes and the seconds. */
  lemma FormatTimeMeaning(seconds: nat)
    requires seconds < 6000
    ensures var r := FormatTime(seconds);
      && |r| == 5 && r[2] == ':'
      && ParseNat(r[..2]) == Some(seconds / 60)
      && ParseNat(r[3..]) == Some(seconds % 60)
  {
    var mins, secs := seconds / 60, seconds % 60;
    ParseNatToString(mins);
    ParseNatToString(secs);
    var m := (if mins < 10 then "0" else "") + NatToString(mins);
    var s := (if secs < 10 then "0" else "") + NatToString(secs);
    LeadingZero(mins);
    LeadingZero(secs);
    var r := FormatTime(seconds);
    assert r == m + ":" + s;
    assert r[..2] == m;
    assert r[3..] == s;
  }

  /** A leading '0' does not change the number a string of digits reads as. */
  lemma LeadingZero(n: nat)
    requires n < 100
    ensures var s := (if n < 10 then "0" else "") + NatToString(n);
      |s| == 2 && ParseNat(s) == Some(n)
  {
    var d := NatToString(n);
    var s := (if n < 10 then "0" else "") + d;
    ParsePadded(n);
    var p := PadStart2(d);
    if n < 10 {
      assert |d| == 1;
      assert p[1..] == d && p[0] == '0';
      assert p == s;
    } else {
      assert |d| == 2;
      assert s == d;
    }
  }

  /** The timer's state. */
  class PomodoroTimer {
    var mode: Mode
    var timeLeft: int
    var isActive: bool

    /** The count never leaves the current mode's session. */
    ghost predicate Valid()
      reads this
    {
      0 <= timeLeft <= Duration(mode)
    }

    constructor()
      ensures Valid()
      ensures mode == Focus && timeLeft == 1500 && !isActive
    {
      mode := Focus;
      timeLeft := Duration(Focus);
      isActive := false;
    }

    /** The one-second interval fires: it runs only while the timer is
        active with time left, and takes one second off. */
    method Tick()
      requires Valid()
      modifies this`timeLeft
      ensures Valid()
      ensures old(isActive) && old(timeLeft) > 0 ==> timeLeft == old(timeLeft) - 1
      ensures !(old(isActive) && old(timeLeft) > 0) ==> timeLeft == old(timeLeft)
    {
      if isActive && timeLeft > 0 {
        timeLeft := timeLeft - 1;
      }
    }

    /** The effect at zero: the timer stops and the other mode's full
        session is loaded. */
    method Settle()
      requires Valid()
      modifies this
      ensures Valid()
      ensures old(timeLeft) == 0 ==> !isActive && mode == Other(old(mode)) && timeLeft == Duration(mode)
      ensures old(timeLeft) != 0 ==> mode == old(mode) && timeLeft == old(timeLeft) && isActive == old(isActive)
      ensures timeLeft > 0
    {
      if timeLeft == 0 {
        isActive := false;
        mode := Other(mode);
        timeLeft := Duration(mode);
      }
    }

    /** `toggleTimer`: start or pause; nothing else changes. */
    method ToggleTimer()
      requires Valid()
      modifies this`isActive
      ensures Valid()
      ensures isActive == !old(isActive)
    {
      isActive := !isActive;
    }

    /** `resetTimer`: stop and reload the current mode's full session. */
    method ResetTimer()
      requires Valid()
      modifies this`isActive, this`timeLeft
      ensures Valid()
      ensures !isActive && timeLeft == Duration(mode)
    {
      isActive := false;
      timeLeft := Duration(mode);
    }

    /** A mode pill: that mode's full session, stopped. */
    method SelectMode(m: Mode)
      requires Valid()
      modifies this
      ensures Valid()
      ensures mode == m && timeLeft == Duration(m) && !isActive
    {
      mode := m;
      timeLeft := Duration(m);
      isActive := false;
    }
  }
}
