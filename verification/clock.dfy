/**
 * The clock widget (`js/clock.js`): which clock is visible, which one a tick
 * updates, and the angles of the analog hands.  The local hour, minute and
 * second come from `Date` and are passed in; angles are kept in tenths of a
 * degree, where every angle the widget computes is a whole number.
 */
module Clock {
  import Utils

  // ---------------------------------------------------------------------------
  // updateAnalogClock
  // ---------------------------------------------------------------------------

  /** The rotation of each hand, in tenths of a degree clockwise from twelve. */
  datatype Hands = Hands(hour: nat, minute: nat, second: nat)

  /**
   * The hand angles for a time: the hour hand moves 30 degrees an hour and
   * half a degree a minute, the minute hand 6 degrees a minute and a tenth
   * of a degree a second, the second hand 6 degrees a second.
   */
  function HandAngles(h: nat, m: nat, s: nat): (r: Hands)
    requires h < 24 && m < 60 && s < 60
    ensures r.hour < 3600 && r.minute < 3600 && r.second <= 3540
    ensures r.second % 60 == 0
    ensures r.hour % 5 == 0
  {
    Hands((h % 12) * 300 + m * 5, m * 60 + s, s * 60)
  }

  /** The hands give back the time on a twelve-hour dial. */
  lemma HandsRecoverTime(h: nat, m: nat, s: nat)
    requires h < 24 && m < 60 && s < 60
    ensures var r := HandAngles(h, m, s);
            && r.hour / 300 == h % 12
            && (r.hour % 300) / 5 == m && r.hour % 5 == 0
            && r.minute / 60 == m && r.minute % 60 == s
            && r.second / 60 == s
  {
  }

  /** Two times on the same twelve-hour dial position draw the same hands, and only those. */
  lemma HandsInjective(h1: nat, m1: nat, s1: nat, h2: nat, m2: nat, s2: nat)
    requires h1 < 24 && m1 < 60 && s1 < 60 && h2 < 24 && m2 < 60 && s2 < 60
    ensures HandAngles(h1, m1, s1) == HandAngles(h2, m2, s2) <==> h1 % 12 == h2 % 12 && m1 == m2 && s1 == s2
  {
    if HandAngles(h1, m1, s1) == HandAngles(h2, m2, s2) {
      HandsRecoverTime(h1, m1, s1);
      HandsRecoverTime(h2, m2, s2);
    }
  }

  /** From one second to the next within a minute, the minute hand moves a tenth of a degree. */
  lemma MinuteHandSweeps(h: nat, m: nat, s: nat)
    requires h < 24 && m < 60 && s + 1 < 60
    ensures HandAngles(h, m, s + 1).minute == HandAngles(h, m, s).minute + 1
    ensures HandAngles(h, m, s + 1).hour == HandAngles(h, m, s).hour
  {
  }

  // ---------------------------------------------------------------------------
  // switchClock
  // ---------------------------------------------------------------------------

  /** Which of the two clocks is shown. */
  datatype Visibility = Visibility(digitalShown: bool, analogShown: bool)

  /** `switchClock(type)`: `digital` and `analog` show only that clock, `none` neither; anything else changes nothing. */
  function SwitchClock(v: Visibility, clockType: string): (r: Visibility)
    ensures clockType == "digital" ==> r.digitalShown && !r.analogShown
    ensures clockType == "analog" ==> !r.digitalShown && r.analogShown
    ensures clockType == "none" ==> !r.digitalShown && !r.analogShown
    ensures clockType !in {"digital", "analog", "none"} ==> r == v
  {
    if clockType == "digital" then Visibility(true, false)
    else if clockType == "analog" then Visibility(false, true)
    else if clockType == "none" then Visibility(false, false)
    else v
  }

  /** Switching to the same type twice is switching once. */
  lemma SwitchClockIdempotent(v: Visibility, clockType: string)
    ensures SwitchClock(SwitchClock(v, clockType), clockType) == SwitchClock(v, clockType)
  {
  }

  /** After a switch to a known type, the two clocks are never both shown. */
  lemma SwitchClockExclusive(v: Visibility, clockType: string)
    requires clockType in {"digital", "analog", "none"}
    ensures !(SwitchClock(v, clockType).digitalShown && SwitchClock(v, clockType).analogShown)
  {
  }

  // ---------------------------------------------------------------------------
  // updateDisplay
  // ---------------------------------------------------------------------------

  /** What one tick draws. */
  datatype Update =
    | DigitalTime(text: string)
    | AnalogHands(hands: Hands, secondHandShown: bool)
    | NoUpdate

  /** `updateDisplay`: only the clock matching the type is redrawn; `none` and unknown types draw nothing. */
  function UpdateDisplay(clockType: string, h: nat, m: nat, s: nat, use24Hour: bool, showSeconds: bool): (r: Update)
    requires h < 24 && m < 60 && s < 60
    ensures r.DigitalTime? <==> clockType == "digital"
    ensures r.AnalogHands? <==> clockType == "analog"
    ensures r.DigitalTime? ==> r.text == Utils.FormatTime(h, m, s, use24Hour, showSeconds)
    ensures r.AnalogHands? ==> r.hands == HandAngles(h, m, s) && r.secondHandShown == showSeconds
  {
    if clockType == "digital" then DigitalTime(Utils.FormatTime(h, m, s, use24Hour, showSeconds))
    else if clockType == "analog" then AnalogHands(HandAngles(h, m, s), showSeconds)
    else NoUpdate
  }

  /** Once the clock type has been switched to, a tick redraws exactly the clock that is shown. */
  lemma TickDrawsShownClock(v: Visibility, clockType: string, h: nat, m: nat, s: nat, use24Hour: bool, showSeconds: bool)
    requires h < 24 && m < 60 && s < 60
    requires clockType in {"digital", "analog", "none"}
    ensures var shown := SwitchClock(v, clockType);
            var r := UpdateDisplay(clockType, h, m, s, use24Hour, showSeconds);
            && (r.DigitalTime? <==> shown.digitalShown)
            && (r.AnalogHands? <==> shown.analogShown)
  {
  }
}
