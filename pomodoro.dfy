/** The focus-mode countdown timer: a work/break state machine over a
    remaining-seconds counter, with the mm:ss display it renders. Each
    transition is a pure step on `TimerState`; the `PomodoroTimer` class
    performs the same steps by assigning its fields. */
module Pomodoro {
  import opened Wrappers

  const WorkMode: string := "work"
  const ShortBreakMode: string := "shortBreak"
  const LongBreakMode: string := "longBreak"

  predicate IsMode(m: string) {
    m == WorkMode || m == ShortBreakMode || m == LongBreakMode
  }

  /** Default durations, in seconds. */
  const DefaultWorkDuration: int := 25 * 60
  const DefaultShortBreak: int := 5 * 60
  const DefaultLongBreak: int := 15 * 60

  /** Work sessions per long break. */
  const SessionsPerLongBreak: int := 4

  /** The timer's fields. `pendingSwitches` holds the mode switches that
      `complete` has scheduled with `setTimeout` and that have not fired yet,
      oldest first. */
  datatype TimerState = TimerState(
    workDuration: int,
    shortBreak: int,
    longBreak: int,
    timeRemaining: int,
    isRunning: bool,
    isPaused: bool,
    mode: string,
    pomodorosCompleted: int,
    currentTaskId: Option<string>,
    currentTaskTitle: Option<string>,
    pendingSwitches: seq<string>)
  {
    /** The full length of mode `m`, as the `switch` in `switchMode` and
        `reset` picks it; no value for a mode it does not list. */
    function DurationOf(m: string): Option<int> {
      if m == WorkMode then Some(workDuration)
      else if m == ShortBreakMode then Some(shortBreak)
      else if m == LongBreakMode then Some(longBreak)
      else None
    }

    /** The timer is never running and paused at once, its mode is a known
        mode (so it has a duration), the session count is never negative,
        and every scheduled switch names a known mode. */
    predicate Inv() {
      && !(isRunning && isPaused)
      && IsMode(mode)
      && pomodorosCompleted >= 0
      && forall i :: 0 <= i < |pendingSwitches| ==> IsMode(pendingSwitches[i])
    }
  }

  /** The state the constructor sets up (before any stored state is loaded). */
  function InitialState(): TimerState {
    TimerState(DefaultWorkDuration, DefaultShortBreak, DefaultLongBreak,
               DefaultWorkDuration, false, false, WorkMode, 0, None, None, [])
  }

  function StopStep(s: TimerState): TimerState {
    s.(isRunning := false, isPaused := false)
  }

  function StartStep(s: TimerState): TimerState {
    s.(isRunning := true, isPaused := false)
  }

  function PauseStep(s: TimerState): TimerState {
    s.(isPaused := true, isRunning := false)
  }

  /** `switchMode(m)`; `confirmed` is the answer to the question asked when
      the timer is running. */
  function SwitchModeStep(s: TimerState, m: string, confirmed: bool): TimerState {
    if s.isRunning && !confirmed then s
    else
      var s1 := if s.isRunning then StopStep(s) else s;
      var s2 := s1.(mode := m);
      match s2.DurationOf(m)
      case Some(d) => s2.(timeRemaining := d)
      case None => s2
  }

  /** `reset()`; `confirmed` as for `SwitchModeStep`. */
  function ResetStep(s: TimerState, confirmed: bool): TimerState {
    if s.isRunning && !confirmed then s
    else
      var s1 := StopStep(s);
      match s1.DurationOf(s1.mode)
      case Some(d) => s1.(timeRemaining := d)
      case None => s1
  }

  /** `complete()`: stop; after a work session count it and schedule a
      long break every fourth session and a short one otherwise; after
      anything else schedule work. */
  function CompleteStep(s: TimerState): TimerState {
    var s1 := StopStep(s);
    if s1.mode == WorkMode then
      var count := s1.pomodorosCompleted + 1;
      var next := if count % SessionsPerLongBreak == 0 then LongBreakMode else ShortBreakMode;
      s1.(pomodorosCompleted := count, pendingSwitches := s1.pendingSwitches + [next])
    else
      s1.(pendingSwitches := s1.pendingSwitches + [WorkMode])
  }

  /** `tick()`: one second less, completing the session when none is left. */
  function TickStep(s: TimerState): TimerState {
    var s1 := s.(timeRemaining := s.timeRemaining - 1);
    if s1.timeRemaining <= 0 then CompleteStep(s1) else s1
  }

  /** The oldest scheduled switch fires. */
  function FireSwitchStep(s: TimerState, confirmed: bool): TimerState
    requires |s.pendingSwitches| > 0
  {
    SwitchModeStep(s.(pendingSwitches := s.pendingSwitches[1..]), s.pendingSwitches[0], confirmed)
  }

  /** `setTask(id, title)`. */
  function SetTaskStep(s: TimerState, id: string, title: string): TimerState {
    s.(currentTaskId := Some(id), currentTaskTitle := Some(title))
  }

  /** `clearTask()`: forget the task; a running timer is stopped and reset. */
  function ClearTaskStep(s: TimerState, confirmed: bool): TimerState {
    if s.isRunning && !confirmed then s
    else
      var s1 := s.(currentTaskId := None, currentTaskTitle := None);
      if s1.isRunning then ResetStep(StopStep(s1), true) else s1
  }

  /** `saveSettings()` with the three minute values read from the form. */
  function SaveSettingsStep(s: TimerState, workMinutes: int, shortMinutes: int,
                            longMinutes: int): TimerState
  {
    var s1 := s.(workDuration := workMinutes * 60, shortBreak := shortMinutes * 60,
                 longBreak := longMinutes * 60);
    if !s1.isRunning then SwitchModeStep(s1, s1.mode, true) else s1
  }

  /** `n` consecutive ticks. */
  function TickTimes(s: TimerState, n: nat): TimerState
    decreases n
  {
    if n == 0 then s else TickTimes(TickStep(s), n - 1)
  }

  // ---------------------------------------------------------------------
  // Properties of the steps
  // ---------------------------------------------------------------------

  /** The initial state and the run-flag steps keep the invariant. */
  lemma RunStepsPreserveInv(s: TimerState)
    requires s.Inv()
    ensures InitialState().Inv()
    ensures StopStep(s).Inv() && StartStep(s).Inv() && PauseStep(s).Inv()
  {
  }

  /** Switching to a known mode and resetting keep the invariant; switching
      to a mode `switchMode` does not list breaks it. */
  lemma SwitchStepsPreserveInv(s: TimerState, m: string, confirmed: bool)
    requires s.Inv()
    ensures SwitchModeStep(s, m, confirmed).Inv() <==> IsMode(m) || (s.isRunning && !confirmed)
    ensures ResetStep(s, confirmed).Inv()
  {
  }

  /** Firing a scheduled switch and saving settings keep the invariant. */
  lemma ScheduledStepsPreserveInv(s: TimerState, confirmed: bool, w: int, sb: int, lb: int)
    requires s.Inv()
    ensures |s.pendingSwitches| > 0 ==> FireSwitchStep(s, confirmed).Inv()
    ensures SaveSettingsStep(s, w, sb, lb).Inv()
  {
  }

  /** Completing and ticking keep the invariant. */
  lemma CompleteStepsPreserveInv(s: TimerState)
    requires s.Inv()
    ensures CompleteStep(s).Inv() && TickStep(s).Inv()
  {
  }

  /** Setting and clearing the task keep the invariant. */
  lemma TaskStepsPreserveInv(s: TimerState, id: string, title: string, confirmed: bool)
    requires s.Inv()
    ensures SetTaskStep(s, id, title).Inv() && ClearTaskStep(s, confirmed).Inv()
  {
  }

  /** Start, pause and stop set the two run flags and keep the time and the mode. */
  lemma RunFlags(s: TimerState)
    ensures StartStep(s).isRunning && !StartStep(s).isPaused
    ensures PauseStep(s).isPaused && !PauseStep(s).isRunning
    ensures !StopStep(s).isRunning && !StopStep(s).isPaused
    ensures StartStep(s).timeRemaining == PauseStep(s).timeRemaining
              == StopStep(s).timeRemaining == s.timeRemaining
    ensures StartStep(s).mode == PauseStep(s).mode == StopStep(s).mode == s.mode
  {
  }

  /** Switching to a known mode selects it with its full duration and leaves
      the timer not running (a paused one stays paused); an unknown mode is selected with the time left as
      it was; a declined confirmation changes nothing. Durations, the
      session count and the task never change. */
  lemma SwitchModeSpec(s: TimerState, m: string, confirmed: bool)
    ensures var r := SwitchModeStep(s, m, confirmed);
            && (s.isRunning && !confirmed ==> r == s)
            && (!s.isRunning || confirmed ==>
                  && r.mode == m && !r.isRunning
                  && r.isPaused == (s.isPaused && !s.isRunning)
                  && r.timeRemaining == (if IsMode(m) then s.DurationOf(m).value else s.timeRemaining))
            && r.workDuration == s.workDuration && r.shortBreak == s.shortBreak
            && r.longBreak == s.longBreak
            && r.pomodorosCompleted == s.pomodorosCompleted
            && r.currentTaskId == s.currentTaskId && r.currentTaskTitle == s.currentTaskTitle
            && r.pendingSwitches == s.pendingSwitches
  {
  }

  /** A reset that goes ahead stops the timer at the full duration of its mode. */
  lemma ResetSpec(s: TimerState, confirmed: bool)
    requires IsMode(s.mode)
    ensures var r := ResetStep(s, confirmed);
            && (s.isRunning && !confirmed ==> r == s)
            && (!s.isRunning || confirmed ==>
                  && !r.isRunning && !r.isPaused
                  && r.timeRemaining == s.DurationOf(s.mode).value
                  && r == s.(isRunning := false, isPaused := false, timeRemaining := r.timeRemaining))
  {
  }

  /** A tick takes exactly one second off; when that leaves none the session
      completes: the timer is stopped, a work session is counted and one
      switch is scheduled. Otherwise nothing else changes. */
  lemma TickSpec(s: TimerState)
    ensures TickStep(s).timeRemaining == s.timeRemaining - 1
    ensures s.timeRemaining - 1 <= 0 ==> !TickStep(s).isRunning && !TickStep(s).isPaused
    ensures s.timeRemaining - 1 <= 0 ==>
              TickStep(s) == CompleteStep(s.(timeRemaining := s.timeRemaining - 1))
    ensures s.timeRemaining - 1 <= 0 ==>
              && |TickStep(s).pendingSwitches| == |s.pendingSwitches| + 1
              && TickStep(s).pomodorosCompleted
                   == s.pomodorosCompleted + (if s.mode == WorkMode then 1 else 0)
    ensures s.timeRemaining - 1 > 0 ==> TickStep(s) == s.(timeRemaining := s.timeRemaining - 1)
  {
  }

  /** Completing a work session counts it and schedules a long break exactly
      when the new count is a multiple of four, a short one otherwise;
      completing anything else keeps the count and schedules work. Mode,
      time, durations and task stay as they were. */
  lemma CompleteSpec(s: TimerState)
    ensures var r := CompleteStep(s);
            && !r.isRunning && !r.isPaused && r.timeRemaining == s.timeRemaining
            && r == s.(isRunning := false, isPaused := false,
                       pomodorosCompleted := r.pomodorosCompleted,
                       pendingSwitches := r.pendingSwitches)
            && |r.pendingSwitches| == |s.pendingSwitches| + 1
            && r.pendingSwitches[..|s.pendingSwitches|] == s.pendingSwitches
            && var next := r.pendingSwitches[|s.pendingSwitches|];
            && (s.mode == WorkMode ==>
                  && r.pomodorosCompleted == s.pomodorosCompleted + 1
                  && (next == LongBreakMode <==> r.pomodorosCompleted % 4 == 0)
                  && (next == ShortBreakMode <==> r.pomodorosCompleted % 4 != 0))
            && (s.mode != WorkMode ==>
                  r.pomodorosCompleted == s.pomodorosCompleted && next == WorkMode)
  {
    var r := CompleteStep(s);
    assert r.pendingSwitches[..|s.pendingSwitches|] == s.pendingSwitches;
  }

  /** Saving settings stores each duration in seconds, and a timer that is
      not running (a paused one included) restarts its mode at the new full
      duration. Nothing else changes. */
  lemma SaveSettingsSpec(s: TimerState, w: int, sb: int, lb: int)
    ensures var r := SaveSettingsStep(s, w, sb, lb);
            && r.workDuration == w * 60 && r.shortBreak == sb * 60 && r.longBreak == lb * 60
            && r == s.(workDuration := w * 60, shortBreak := sb * 60, longBreak := lb * 60,
                       timeRemaining := r.timeRemaining)
            && r.mode == s.mode && r.isRunning == s.isRunning
            && (!s.isRunning && IsMode(s.mode) ==> r.timeRemaining == r.DurationOf(s.mode).value)
            && (s.isRunning ==> r.timeRemaining == s.timeRemaining)
  {
  }

  /** Clearing the task (when not cancelled) forgets it and leaves the timer
      not running; a timer that was running is stopped at its mode's full
      duration, and a paused one stays paused. Nothing else changes. */
  lemma ClearTaskSpec(s: TimerState, confirmed: bool)
    requires IsMode(s.mode)
    ensures var r := ClearTaskStep(s, confirmed);
            && (s.isRunning && !confirmed ==> r == s)
            && (!s.isRunning || confirmed ==>
                  && r.currentTaskId.None? && r.currentTaskTitle.None? && !r.isRunning
                  && (s.isRunning ==> !r.isPaused && r.timeRemaining == s.DurationOf(s.mode).value)
                  && (s.isRunning ==>
                        r == s.(currentTaskId := None, currentTaskTitle := None,
                                isRunning := false, isPaused := false,
                                timeRemaining := r.timeRemaining))
                  && (!s.isRunning ==> r == s.(currentTaskId := None, currentTaskTitle := None)))
  {
  }

  /** A running session with `n` seconds left keeps running through the first
      `n - 1` ticks, losing one second each. */
  lemma {:induction false} TicksCountDown(s: TimerState, n: nat, k: nat)
    requires s.isRunning && s.timeRemaining == n && k < n
    ensures TickTimes(s, k) == s.(timeRemaining := n - k)
    decreases k
  {
    if k > 0 {
      var s1 := TickStep(s);
      assert s1 == s.(timeRemaining := n - 1);
      TicksCountDown(s1, n - 1, k - 1);
    }
  }

  /** The `n`-th tick of a running session with `n` seconds left ends it: the
      timer stops at zero and the next mode is scheduled. */
  lemma {:induction false} SessionRunsOut(s: TimerState, n: nat)
    requires s.isRunning && s.timeRemaining == n && n >= 1
    ensures var r := TickTimes(s, n);
            && r.timeRemaining == 0 && !r.isRunning && !r.isPaused
            && |r.pendingSwitches| == |s.pendingSwitches| + 1
    ensures TickTimes(s, n) == TickStep(TickTimes(s, n - 1))
  {
    TicksCountDown(s, n, n - 1);
    TickTimesLast(s, n);
  }

  /** `n` ticks are `n - 1` ticks and one more. */
  lemma {:induction false} TickTimesLast(s: TimerState, n: nat)
    requires n >= 1
    ensures TickTimes(s, n) == TickStep(TickTimes(s, n - 1))
    decreases n
  {
    if n > 1 {
      TickTimesLast(TickStep(s), n - 1);
    }
  }

  /** Finishing the last second of a work session, and then the scheduled
      switch, leaves the timer stopped at the start of a long break after
      every fourth session and of a short break otherwise. */
  lemma WorkSessionLeadsToBreak(s: TimerState, confirmed: bool)
    requires s.mode == WorkMode && s.timeRemaining == 1 && s.pendingSwitches == []
    ensures var r := FireSwitchStep(TickStep(s), confirmed);
            && r.pomodorosCompleted == s.pomodorosCompleted + 1
            && !r.isRunning && !r.isPaused && r.pendingSwitches == []
            && (if r.pomodorosCompleted % 4 == 0
                then r.mode == LongBreakMode && r.timeRemaining == s.longBreak
                else r.mode == ShortBreakMode && r.timeRemaining == s.shortBreak)
  {
    CompleteSpec(s.(timeRemaining := 0));
  }

  /** Finishing a break, and then the scheduled switch, starts a work
      session at its full duration without counting anything. */
  lemma BreakLeadsToWork(s: TimerState, confirmed: bool)
    requires s.mode != WorkMode && s.timeRemaining == 1 && s.pendingSwitches == []
    ensures var r := FireSwitchStep(TickStep(s), confirmed);
            && r.pomodorosCompleted == s.pomodorosCompleted
            && !r.isRunning && !r.isPaused && r.pendingSwitches == []
            && r.mode == WorkMode && r.timeRemaining == s.workDuration
  {
  }

  // ---------------------------------------------------------------------
  // The mm:ss display
  // ---------------------------------------------------------------------

  predicate IsDigit(c: char) { '0' <= c <= '9' }

  function DigitChar(d: int): (c: char)
    requires 0 <= d < 10
    ensures IsDigit(c) && c as int - '0' as int == d
  {
    ('0' as int + d) as char
  }

  /** The decimal numeral of a natural number, without leading zeros. */
  function NatToString(n: nat): (r: string)
    ensures |r| >= 1 && forall i :: 0 <= i < |r| ==> IsDigit(r[i])
    ensures n < 10 <==> |r| == 1
    ensures n < 100 ==> |r| <= 2
    ensures n > 0 ==> r[0] != '0'
    ensures |r| > 1 ==> r[0] != '0'
    decreases n
  {
    if n < 10 then [DigitChar(n)] else NatToString(n / 10) + [DigitChar(n % 10)]
  }

  /** `n.toString()` for an integer. */
  function IntToString(n: int): string {
    if n < 0 then "-" + NatToString(-n) else NatToString(n)
  }

  /** `s.padStart(2, '0')`. */
  function Pad2(s: string): (r: string)
    ensures |r| == if |s| >= 2 then |s| else 2
  {
    if |s| >= 2 then s else seq(2 - |s|, _ => '0') + s
  }

  /** Padding returns `s` itself when it is two long or longer, and
      otherwise puts enough `'0'`s in front of `s` to make two. */
  lemma Pad2Spec(s: string)
    ensures |s| >= 2 ==> Pad2(s) == s
    ensures Pad2(s)[|Pad2(s)| - |s|..] == s
    ensures forall i :: 0 <= i < |Pad2(s)| - |s| ==> Pad2(s)[i] == '0'
  {
  }

  /** JavaScript's `%`, whose result takes the sign of the dividend. */
  function JsRem(a: int, b: int): int
    requires b > 0
  {
    if a >= 0 then a % b else -((-a) % b)
  }

  /** The time string `updateDisplay` shows for `t` seconds:
      `Math.floor(t / 60)` and `t % 60`, each padded to two digits. */
  function FormatTime(t: int): string {
    Pad2(IntToString(t / 60)) + ":" + Pad2(IntToString(JsRem(t, 60)))
  }

  /** The page title `updateDisplay` sets. */
  function DocumentTitle(s: TimerState): string {
    if s.isRunning
    then FormatTime(s.timeRemaining) + " - " + (if s.mode == WorkMode then "\U{1F345}" else "\U{2615}")
         + " Oollert Tasks"
    else "Oollert Tasks"
  }

  /** The value of a string of digits. */
  function DecimalValue(s: string): nat
    requires forall i :: 0 <= i < |s| ==> IsDigit(s[i])
    decreases |s|
  {
    if s == [] then 0
    else
      assert IsDigit(s[|s| - 1]);
      DecimalValue(s[..|s| - 1]) * 10 + (s[|s| - 1] as int - '0' as int) as nat
  }

  /** Reading a numeral back gives the number. */
  lemma {:induction false} DecimalValueOfNatToString(n: nat)
    ensures DecimalValue(NatToString(n)) == n
    decreases n
  {
    if n >= 10 {
      DecimalValueOfNatToString(n / 10);
      var r := NatToString(n);
      assert r[..|r| - 1] == NatToString(n / 10);
    }
  }

  /** A leading zero does not change the value. */
  lemma {:induction false} DecimalValueLeadingZero(s: string)
    requires forall i :: 0 <= i < |s| ==> IsDigit(s[i])
    ensures DecimalValue("0" + s) == DecimalValue(s)
    decreases |s|
  {
    if s != [] {
      var init := s[..|s| - 1];
      DecimalValueLeadingZero(init);
      assert ("0" + s)[..|"0" + s| - 1] == "0" + init;
    }
  }

  /** Padding a numeral keeps it a numeral of the same value, at least two long. */
  lemma Pad2Numeral(n: nat)
    ensures var p := Pad2(NatToString(n));
            && (forall i :: 0 <= i < |p| ==> IsDigit(p[i]))
            && DecimalValue(p) == n
            && |p| == (if n < 100 then 2 else |NatToString(n)|)
  {
    var m := NatToString(n);
    DecimalValueOfNatToString(n);
    if |m| < 2 {
      DecimalValueLeadingZero(m);
      assert Pad2(m) == "0" + m;
    }
  }

  /** For a non-negative time the two parts are the quotient and remainder by 60. */
  lemma FormatTimeParts(t: int)
    requires t >= 0
    ensures FormatTime(t) == Pad2(NatToString(t / 60)) + ":" + Pad2(NatToString(t % 60))
  {
    assert JsRem(t, 60) == t % 60;
  }

  /** A non-empty string of digits. */
  predicate IsNumeral(s: string) {
    |s| > 0 && forall i :: 0 <= i < |s| ==> IsDigit(s[i])
  }

  /** A non-negative time shows as `minutes:seconds`, the seconds part two
      digits and the minutes at least two, and reading both back as numbers
      gives the time. */
  lemma FormatTimeRoundTrip(t: int)
    requires t >= 0
    ensures var r := FormatTime(t);
            && |r| >= 5
            && r == r[..|r| - 3] + ":" + r[|r| - 2..]
            && IsNumeral(r[..|r| - 3]) && IsNumeral(r[|r| - 2..])
            && DecimalValue(r[..|r| - 3]) * 60 + DecimalValue(r[|r| - 2..]) == t
    ensures t < 6000 ==> |FormatTime(t)| == 5
  {
    var pm := Pad2(NatToString(t / 60));
    var ps := Pad2(NatToString(t % 60));
    Pad2Numeral(t / 60);
    Pad2Numeral(t % 60);
    FormatTimeParts(t);
    var r := pm + ":" + ps;
    assert r[..|r| - 3] == pm;
    assert r[|r| - 2..] == ps;
  }

  /** The display for the default work session, a few seconds into a
      session, at zero, and after a tick below zero. */
  lemma FormatTimeExamples()
    ensures FormatTime(DefaultWorkDuration) == "25:00"
    ensures FormatTime(65) == "01:05"
    ensures FormatTime(0) == "00:00"
    ensures FormatTime(-1) == "-1:-1"
  {
    FormatTimeOfSession();
    FormatTimeAtZero();
  }

  /** The default session and a few seconds into one. */
  lemma FormatTimeOfSession()
    ensures FormatTime(DefaultWorkDuration) == "25:00"
    ensures FormatTime(65) == "01:05"
  {
  }

  /** At zero, and after a tick below zero. */
  lemma FormatTimeAtZero()
    ensures FormatTime(0) == "00:00"
    ensures FormatTime(-1) == "-1:-1"
  {
  }

  // ---------------------------------------------------------------------
  // The timer object
  // ---------------------------------------------------------------------

  /** `PomodoroTimer` without its page elements: `confirm()` answers are
      parameters, and `setTimeout` follow-ups wait in `pendingSwitches`. */
  class PomodoroTimer {
    var workDuration: int
    var shortBreak: int
    var longBreak: int
    var timeRemaining: int
    var isRunning: bool
    var isPaused: bool
    var mode: string
    var pomodorosCompleted: int
    var currentTaskId: Option<string>
    var currentTaskTitle: Option<string>
    var pendingSwitches: seq<string>

    /** The timer's fields as one value. */
    function State(): TimerState
      reads this
    {
      TimerState(workDuration, shortBreak, longBreak, timeRemaining, isRunning, isPaused,
                 mode, pomodorosCompleted, currentTaskId, currentTaskTitle, pendingSwitches)
    }

    ghost predicate Valid()
      reads this
    {
      State().Inv()
    }

    constructor ()
      ensures State() == InitialState() && Valid()
    {
      workDuration := 25 * 60;
      shortBreak := 5 * 60;
      longBreak := 15 * 60;
      timeRemaining := workDuration;
      isRunning := false;
      isPaused := false;
      mode := WorkMode;
      pomodorosCompleted := 0;
      currentTaskId := None;
      currentTaskTitle := None;
      pendingSwitches := [];
    }

    method Stop()
      requires Valid()
      modifies this
      ensures Valid()
      ensures State() == StopStep(old(State()))
    {
      isRunning := false;
      isPaused := false;
    }

    method Start()
      requires Valid()
      modifies this
      ensures Valid()
      ensures State() == StartStep(old(State()))
    {
      isRunning := true;
      isPaused := false;
    }

    method Pause()
      requires Valid()
      modifies this
      ensures Valid()
      ensures State() == PauseStep(old(State()))
    {
      isPaused := true;
      isRunning := false;
    }

    /** Sets `timeRemaining` to the duration of `m`, if `m` is a known mode. */
    method ApplyDuration(m: string)
      requires Valid()
      modifies this
      ensures Valid()
      ensures State() == match old(State()).DurationOf(m)
                         case Some(d) => old(State()).(timeRemaining := d)
                         case None => old(State())
    {
      if m == WorkMode {
        timeRemaining := workDuration;
      } else if m == ShortBreakMode {
        timeRemaining := shortBreak;
      } else if m == LongBreakMode {
        timeRemaining := longBreak;
      }
    }

    /** `switchMode(m)`; the mode buttons, `complete` and `saveSettings`
        only ever pass a known mode. */
    method SwitchMode(m: string, confirmed: bool)
      requires Valid() && IsMode(m)
      modifies this
      ensures Valid()
      ensures State() == SwitchModeStep(old(State()), m, confirmed)
    {
      if isRunning {
        if !confirmed {
          return;
        }
        Stop();
      }
      mode := m;
      ApplyDuration(m);
    }

    method Reset(confirmed: bool)
      requires Valid()
      modifies this
      ensures Valid()
      ensures State() == ResetStep(old(State()), confirmed)
    {
      if isRunning && !confirmed {
        return;
      }
      Stop();
      ApplyDuration(mode);
    }

    method Tick()
      requires Valid()
      modifies this
      ensures Valid()
      ensures State() == TickStep(old(State()))
    {
      timeRemaining := timeRemaining - 1;
      if timeRemaining <= 0 {
        Complete();
      }
    }

    method Complete()
      requires Valid()
      modifies this
      ensures Valid()
      ensures State() == CompleteStep(old(State()))
    {
      Stop();
      if mode == WorkMode {
        pomodorosCompleted := pomodorosCompleted + 1;
        var breakMode := if pomodorosCompleted % 4 == 0 then LongBreakMode else ShortBreakMode;
        pendingSwitches := pendingSwitches + [breakMode];
      } else {
        pendingSwitches := pendingSwitches + [WorkMode];
      }
    }

    /** The oldest `setTimeout` follow-up of `complete` fires. */
    method FirePendingSwitch(confirmed: bool)
      requires Valid() && |pendingSwitches| > 0
      modifies this
      ensures Valid()
      ensures State() == FireSwitchStep(old(State()), confirmed)
    {
      var next := pendingSwitches[0];
      pendingSwitches := pendingSwitches[1..];
      SwitchMode(next, confirmed);
    }

    method SetTask(id: string, title: string)
      requires Valid()
      modifies this
      ensures Valid()
      ensures State() == SetTaskStep(old(State()), id, title)
    {
      currentTaskId := Some(id);
      currentTaskTitle := Some(title);
    }

    method ClearTask(confirmed: bool)
      requires Valid()
      modifies this
      ensures Valid()
      ensures State() == ClearTaskStep(old(State()), confirmed)
    {
      if isRunning && !confirmed {
        return;
      }
      currentTaskId := None;
      currentTaskTitle := None;
      if isRunning {
        Stop();
        Reset(true);
      }
    }

    method SaveSettings(workMinutes: int, shortMinutes: int, longMinutes: int)
      requires Valid()
      modifies this
      ensures Valid()
      ensures State() == SaveSettingsStep(old(State()), workMinutes, shortMinutes, longMinutes)
    {
      workDuration := workMinutes * 60;
      shortBreak := shortMinutes * 60;
      longBreak := longMinutes * 60;
      if !isRunning {
        SwitchMode(mode, true);
      }
    }

    /** The text `updateDisplay` writes into the time display and the page
        title. A non-negative time shows as minutes, a colon and two digits
        of seconds that read back as the time; the title carries that text
        only while the timer runs. */
    method UpdateDisplay() returns (timeString: string, title: string)
      ensures timeString == FormatTime(timeRemaining) && title == DocumentTitle(State())
      ensures timeRemaining >= 0 ==>
                && |timeString| >= 5 && timeString[|timeString| - 3] == ':'
                && IsNumeral(timeString[..|timeString| - 3])
                && IsNumeral(timeString[|timeString| - 2..])
                && DecimalValue(timeString[..|timeString| - 3]) * 60
                     + DecimalValue(timeString[|timeString| - 2..]) == timeRemaining
      ensures 0 <= timeRemaining < 6000 ==> |timeString| == 5
      ensures !isRunning ==> title == "Oollert Tasks"
      ensures isRunning ==> title[..|timeString|] == timeString
    {
      timeString := FormatTime(timeRemaining);
      title := DocumentTitle(State());
      if timeRemaining >= 0 {
        FormatTimeRoundTrip(timeRemaining);
        assert timeString[|timeString| - 3] == (timeString[..|timeString| - 3] + ":" + timeString[|timeString| - 2..])[|timeString| - 3];
      }
    }
  }
}
