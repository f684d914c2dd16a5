/**
 * The Pomodoro timer (`js/focusTimer.js`) as a state record and its
 * transitions.  The one-second interval, the buttons and the notification
 * are outside the model: `Tick` is what one firing of the interval does.
 */
module FocusTimer {
  import opened Wrappers

  datatype Mode = Focus | ShortBreak | LongBreak

  /** The length of each mode in minutes (the `durations` object). */
  function DurationMinutes(m: Mode): nat {
    match m
    case Focus => 25
    case ShortBreak => 5
    case LongBreak => 15
  }

  /** The full length of a mode in seconds. */
  function FullSeconds(m: Mode): int {
    DurationMinutes(m) * 60
  }

  /** Every how many focus sessions the break is a long one. */
  const LongBreakEvery := 4

  datatype Timer = Timer(isRunning: bool, isPaused: bool, mode: Mode, timeRemaining: int, sessionsCompleted: nat)

  /** The timer as the page creates it. */
  const Initial := Timer(false, false, Focus, 25 * 60, 0)

  /**
   * What every reachable state satisfies: time left is between one second and
   * the full length of the mode, and a running timer is never paused.
   */
  predicate Valid(t: Timer) {
    && 1 <= t.timeRemaining <= FullSeconds(t.mode)
    && !(t.isRunning && t.isPaused)
  }

  lemma InitialValid()
    ensures Valid(Initial) && Initial.timeRemaining == FullSeconds(Initial.mode)
  {
  }

  /** The saved session count and the day it belongs to, as kept in storage. */
  datatype Saved = Saved(sessions: Option<nat>, date: Option<string>)

  /**
   * `loadState`: on a new day (a stored date other than today, or none) the
   * count starts again from 0 and storage records today; on the same day the
   * saved count (0 when absent) is restored.
   */
  function LoadState(t: Timer, saved: Saved, today: string): (r: (Timer, Saved))
    ensures r.0 == t.(sessionsCompleted := r.0.sessionsCompleted)
    ensures saved.date != Some(today) ==> r.0.sessionsCompleted == 0 && r.1 == Saved(Some(0), Some(today))
    ensures saved.date == Some(today) ==> r.0.sessionsCompleted == saved.sessions.GetOr(0) && r.1 == saved
  {
    if saved.date != Some(today) then (t.(sessionsCompleted := 0), Saved(Some(0), Some(today)))
    else (t.(sessionsCompleted := saved.sessions.GetOr(0)), saved)
  }

  /** After loading, storage always holds today's date, and loading again changes nothing. */
  lemma LoadStateIdempotent(t: Timer, saved: Saved, today: string)
    ensures LoadState(t, saved, today).1.date == Some(today)
    ensures var (t1, s1) := LoadState(t, saved, today);
            LoadState(t1, s1, today) == (t1, s1)
  {
  }

  /** `start`: a running timer is left alone; otherwise it runs and is no longer paused. */
  function Start(t: Timer): (r: Timer)
    ensures t.isRunning ==> r == t
    ensures !t.isRunning ==> r == t.(isRunning := true, isPaused := false)
  {
    if t.isRunning then t else t.(isRunning := true, isPaused := false)
  }

  /** `pause`: a stopped timer is left alone; otherwise it stops and is paused. */
  function Pause(t: Timer): (r: Timer)
    ensures !t.isRunning ==> r == t
    ensures t.isRunning ==> r == t.(isRunning := false, isPaused := true)
  {
    if !t.isRunning then t else t.(isRunning := false, isPaused := true)
  }

  /** `reset`: stopped, not paused, the full length of the current mode again. */
  function Reset(t: Timer): (r: Timer)
    ensures !r.isRunning && !r.isPaused && r.mode == t.mode && r.sessionsCompleted == t.sessionsCompleted
    ensures r.timeRemaining == DurationMinutes(t.mode) * 60
  {
    t.(isRunning := false, isPaused := false, timeRemaining := FullSeconds(t.mode))
  }

  /**
   * `switchMode`: after a focus session comes a long break when the session
   * count is a multiple of four and a short one otherwise; after any break
   * comes focus.  The time is the new mode's full length.
   */
  function SwitchMode(t: Timer): (r: Timer)
    ensures r.timeRemaining == FullSeconds(r.mode)
    ensures r.isRunning == t.isRunning && r.isPaused == t.isPaused && r.sessionsCompleted == t.sessionsCompleted
    ensures t.mode == Focus ==> (r.mode == LongBreak <==> t.sessionsCompleted % LongBreakEvery == 0)
    ensures t.mode == Focus ==> r.mode != Focus
    ensures t.mode != Focus ==> r.mode == Focus
  {
    var next :=
      if t.mode == Focus then (if t.sessionsCompleted % LongBreakEvery == 0 then LongBreak else ShortBreak)
      else Focus;
    t.(mode := next, timeRemaining := FullSeconds(next))
  }

  /** `complete`: the timer stops, a finished focus session is counted, and the mode switches. */
  function Complete(t: Timer): (r: Timer)
    ensures !r.isRunning && r.timeRemaining == FullSeconds(r.mode) && r.isPaused == t.isPaused
    ensures r.sessionsCompleted == if t.mode == Focus then t.sessionsCompleted + 1 else t.sessionsCompleted
  {
    var stopped := t.(isRunning := false);
    SwitchMode(if t.mode == Focus then stopped.(sessionsCompleted := t.sessionsCompleted + 1) else stopped)
  }

  /** `tick`: one second less; at zero (or below) the session is complete. */
  function Tick(t: Timer): (r: Timer)
    ensures t.timeRemaining > 1 ==> r == t.(timeRemaining := t.timeRemaining - 1)
    ensures t.timeRemaining <= 1 ==> r == Complete(t.(timeRemaining := t.timeRemaining - 1))
  {
    var left := t.timeRemaining - 1;
    if left <= 0 then Complete(t.(timeRemaining := left)) else t.(timeRemaining := left)
  }

  /** Every operation keeps the timer valid. */
  lemma OperationsKeepValid(t: Timer)
    requires Valid(t)
    ensures Valid(Start(t)) && Valid(Pause(t)) && Valid(Reset(t))
    ensures Valid(Tick(t)) && Valid(Complete(t)) && Valid(SwitchMode(t))
  {
  }

  /** Pausing a running timer and starting it again gives back the same timer. */
  lemma PauseThenStart(t: Timer)
    requires Valid(t) && t.isRunning
    ensures Start(Pause(t)) == t
  {
  }

  /** Starting a stopped timer and pausing it leaves it paused, with nothing else changed. */
  lemma StartThenPause(t: Timer)
    requires !t.isRunning
    ensures Pause(Start(t)) == t.(isPaused := true)
  {
  }

  /** `n` firings of the interval. */
  function Ticks(t: Timer, n: nat): Timer
    decreases n
  {
    if n == 0 then t else Ticks(Tick(t), n - 1)
  }

  /**
   * Fewer ticks than the time left only count down: the mode, the session
   * count and the flags stay as they were.
   */
  lemma {:induction false} TicksCountDown(t: Timer, n: nat)
    requires n < t.timeRemaining
    ensures Ticks(t, n) == t.(timeRemaining := t.timeRemaining - n)
    decreases n
  {
    if n > 0 {
      TicksCountDown(Tick(t), n - 1);
    }
  }

  /**
   * As many ticks as there are seconds left complete the session: the timer
   * has stopped and is in the next mode at that mode's full length.
   */
  lemma TicksComplete(t: Timer)
    requires Valid(t)
    ensures Ticks(t, t.timeRemaining as nat) == Complete(t.(timeRemaining := 0))
  {
    var n := t.timeRemaining as nat;
    TicksCountDown(t, n - 1);
    var before := Ticks(t, n - 1);
    TicksSplit(t, n - 1);
    assert before.timeRemaining == 1;
    assert Tick(before) == Complete(t.(timeRemaining := 0));
  }

  /** The last of `n + 1` ticks comes after the first `n`. */
  lemma {:induction false} TicksSplit(t: Timer, n: nat)
    ensures Ticks(t, n + 1) == Tick(Ticks(t, n))
    decreases n
  {
    if n > 0 {
      TicksSplit(Tick(t), n - 1);
    }
  }

  /**
   * A full focus session run from a reset timer is counted, and it is
   * followed by a long break exactly when it is a fourth session.
   */
  lemma FocusSessionCounts(t: Timer)
    requires t.mode == Focus
    ensures var r := Reset(t);
            var done := Ticks(r, r.timeRemaining as nat);
            && done.sessionsCompleted == t.sessionsCompleted + 1
            && (done.mode == LongBreak <==> (t.sessionsCompleted + 1) % LongBreakEvery == 0)
            && (done.mode == ShortBreak <==> (t.sessionsCompleted + 1) % LongBreakEvery != 0)
            && !done.isRunning && done.timeRemaining == FullSeconds(done.mode)
  {
    TicksComplete(Reset(t));
  }

  /** A break run to its end is always followed by focus, with the session count unchanged. */
  lemma BreakLeadsToFocus(t: Timer)
    requires Valid(t) && t.mode != Focus
    ensures var done := Ticks(t, t.timeRemaining as nat);
            done.mode == Focus && done.sessionsCompleted == t.sessionsCompleted
            && done.timeRemaining == 25 * 60
  {
    TicksComplete(t);
  }
}
