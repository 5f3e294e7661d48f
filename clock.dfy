/** The countdown and the two time formatters. */
module Clock {
  import opened Wrappers
  import opened Text

  /** `Math.ceil((end - now) / 1000)`: whole seconds left, rounded up. */
  function SecondsLeft(endTime: int, now: int): (r: int)
    ensures 1000 * (r - 1) < endTime - now <= 1000 * r
  {
    -((now - endTime) / 1000)
  }

  /** The seconds left never grow as time passes. */
  lemma SecondsLeftMonotone(endTime: int, t1: int, t2: int)
    requires t1 <= t2
    ensures SecondsLeft(endTime, t2) <= SecondsLeft(endTime, t1)
  {
    var r1, r2 := SecondsLeft(endTime, t1), SecondsLeft(endTime, t2);
    assert 1000 * (r2 - 1) < 1000 * r1;
  }

  /** Some time is left exactly while the deadline lies ahead. */
  lemma SecondsLeftPositive(endTime: int, now: int)
    ensures SecondsLeft(endTime, now) > 0 <==> endTime > now
  {
  }

  /** The `timeLeft` initialiser: the seconds left on a stored deadline, not below
      zero, and zero without one. */
  function InitialTimeLeft(savedEnd: Option<int>, now: int): (r: nat)
    ensures savedEnd.None? ==> r == 0
    ensures savedEnd.Some? && savedEnd.value > now ==> r == SecondsLeft(savedEnd.value, now)
    ensures r > 0 <==> savedEnd.Some? && savedEnd.value > now
  {
    match savedEnd
    case None => 0
    case Some(endTime) =>
      var diff := SecondsLeft(endTime, now);
      if diff > 0 then diff else 0
  }

  /** `formatTime`: `"0:00"` for a negative count, else minutes, a colon and two-digit
      seconds. */
  function FormatTime(seconds: int): string {
    if seconds < 0 then "0:00"
    else NatToString(seconds / 60) + ":" + PadStart(NatToString(seconds % 60), 2, '0')
  }

  /** A clock face: digits, a colon, then exactly two digits. */
  predicate ClockShaped(s: string) {
    |s| >= 4 && s[|s| - 3] == ':' && forall i :: 0 <= i < |s| && i != |s| - 3 ==> IsDigit(s[i])
  }

  function MinutesField(s: string): nat
    requires ClockShaped(s)
  {
    DigitsValue(s[..|s| - 3])
  }

  function SecondsField(s: string): nat
    requires ClockShaped(s)
  {
    DigitsValue(s[|s| - 2..])
  }

  /** The two-digit seconds field reads back as the seconds of the minute. */
  lemma SecondsPadded(sec: nat)
    requires sec < 60
    ensures var p := PadStart(NatToString(sec), 2, '0');
      |p| == 2 && IsDigit(p[0]) && IsDigit(p[1]) && DigitsValue(p) == sec
  {
    var p := PadStart(NatToString(sec), 2, '0');
    DigitsValueOfNatToString(sec);
    if sec < 10 {
      assert p == ['0', DigitChar(sec)];
      assert p[..1] == ['0'] && ['0'][..0] == [];
    } else {
      assert NatToString(sec) == NatToString(sec / 10) + [DigitChar(sec % 10)];
      assert p == NatToString(sec);
    }
  }

  /** Minutes, a colon and two seconds digits make a clock face with those fields. */
  lemma ClockFace(mins: string, secs: string)
    requires |mins| >= 1 && forall i :: 0 <= i < |mins| ==> IsDigit(mins[i])
    requires |secs| == 2 && IsDigit(secs[0]) && IsDigit(secs[1])
    ensures ClockShaped(mins + ":" + secs)
    ensures MinutesField(mins + ":" + secs) == DigitsValue(mins)
    ensures SecondsField(mins + ":" + secs) == DigitsValue(secs)
  {
    var r := mins + ":" + secs;
    assert |r| == |mins| + 3 && r[|mins|] == ':';
    forall i | 0 <= i < |r| && i != |r| - 3 ensures IsDigit(r[i]) {
      if i < |mins| {
        assert r[i] == mins[i];
      } else {
        assert r[i] == secs[i - |mins| - 1];
      }
    }
    assert r[..|r| - 3] == mins;
    assert r[|r| - 2..] == secs;
  }

  /** `formatTime` shows a clock face whose minutes and seconds give back the count
      (zero for a negative one), with the seconds below 60. */
  lemma FormatTimeReadsBack(seconds: int)
    ensures ClockShaped(FormatTime(seconds))
    ensures SecondsField(FormatTime(seconds)) < 60
    ensures MinutesField(FormatTime(seconds)) * 60 + SecondsField(FormatTime(seconds))
            == if seconds < 0 then 0 else seconds
    ensures FormatTime(seconds)[0] != '0' || |FormatTime(seconds)| == 4
  {
    if seconds < 0 {
      ZeroFace();
    } else {
      var mins := NatToString(seconds / 60);
      var secs := PadStart(NatToString(seconds % 60), 2, '0');
      SecondsPadded(seconds % 60);
      DigitsValueOfNatToString(seconds / 60);
      ClockFace(mins, secs);
      assert FormatTime(seconds) == mins + ":" + secs;
      assert FormatTime(seconds)[0] == mins[0];
    }
  }

  lemma ZeroFace()
    ensures ClockShaped("0:00") && MinutesField("0:00") == 0 && SecondsField("0:00") == 0
  {
    ClockFace("0", "00");
    assert "00"[..1] == "0" && "0"[..0] == [];
    assert "0" + ":" + "00" == "0:00";
  }

  /** `seconds % 60` as JavaScript evaluates it: the remainder takes the sign of the
      dividend. */
  function SecondsOfMinute(seconds: int): (r: int)
    ensures -60 < r < 60
    ensures seconds >= 0 ==> r == seconds % 60
    ensures (seconds - r) % 60 == 0
    ensures r != 0 ==> (r < 0 <==> seconds < 0)
  {
    if seconds >= 0 then seconds % 60 else -((-seconds) % 60)
  }

  /** `formatDuration`: whole minutes and the remaining seconds of a span in
      milliseconds, both rounded as the source rounds them. */
  function FormatDuration(ms: int): string {
    var seconds := ms / 1000;
    var m := seconds / 60;
    var s := SecondsOfMinute(seconds);
    IntToString(m) + "m " + IntToString(s) + "s"
  }

  /** For a non-negative span the minutes and seconds shown recombine to the whole
      seconds elapsed, with the seconds below 60. */
  lemma FormatDurationParts(ms: int) returns (m: nat, s: nat)
    requires ms >= 0
    ensures FormatDuration(ms) == NatToString(m) + "m " + NatToString(s) + "s"
    ensures 60 * m + s == ms / 1000 && s < 60
  {
    m, s := ms / 1000 / 60, ms / 1000 % 60;
  }

  /** A negative span shows a negative remainder beside floored minutes: -1.5 seconds
      becomes "-1m -2s". */
  lemma FormatDurationNegative()
    ensures FormatDuration(-1500) == "-1m -2s"
  {
    assert -1500 / 1000 == -2 && -2 / 60 == -1 && SecondsOfMinute(-2) == -2;
    assert IntToString(-1) == "-1" && IntToString(-2) == "-2";
  }
}
