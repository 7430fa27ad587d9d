/** The `ExamTimer` countdown component: two state cells, `timeLeft` (seconds)
    and `isActive`, and the `initialTime` prop, which a parent may change while
    the component stays mounted. The interval callback ticks one second off
    while the timer runs; the effect stops the timer once it reaches zero; the
    buttons toggle pause/run and reset. Wall-clock time is abstracted away: one
    `Tick` is one firing of the one-second interval. */
module Timer {
  import TimeFormat

  /** A snapshot of the two state cells. */
  datatype TimerState = TimerState(timeLeft: int, isActive: bool)

  /** The state right after mounting: `useState(initialTime)`, `useState(true)`. */
  function Initial(initialTime: int): (t: TimerState)
    ensures t.timeLeft == initialTime && t.isActive
  {
    TimerState(initialTime, true)
  }

  /** One firing of the interval. The interval only exists while the timer is
      active with time left, and each firing subtracts one second. */
  function Ticked(t: TimerState): (r: TimerState)
    ensures r.isActive == t.isActive
    ensures r.timeLeft < t.timeLeft <==> t.isActive && t.timeLeft > 0
    ensures r.timeLeft >= t.timeLeft - 1 && r.timeLeft <= t.timeLeft
    ensures t.timeLeft >= 0 ==> r.timeLeft >= 0
  {
    if t.isActive && t.timeLeft > 0 then t.(timeLeft := t.timeLeft - 1) else t
  }

  /** The effect body apart from the interval it starts: the first two branches
      leave the state alone, the third stops a timer that has reached zero. */
  function Settled(t: TimerState): (r: TimerState)
    ensures r.timeLeft == t.timeLeft
    ensures r.isActive <==> t.isActive && t.timeLeft != 0
  {
    if t.isActive && t.timeLeft > 0 then t
    else if !t.isActive && t.timeLeft != 0 then t
    else if t.timeLeft == 0 then t.(isActive := false)
    else t
  }

  /** `toggleTimer`: flips pause/run only while time remains. */
  function Toggled(t: TimerState): (r: TimerState)
    ensures r.timeLeft == t.timeLeft
    ensures r.isActive != t.isActive <==> t.timeLeft > 0
  {
    if t.timeLeft > 0 then t.(isActive := !t.isActive) else t
  }

  /** `resetTimer`: back to the initial time, paused, whatever the state. */
  function ResetTo(t: TimerState, initialTime: int): (r: TimerState)
    ensures r.timeLeft == initialTime && !r.isActive
  {
    TimerState(initialTime, false)
  }

  /** A user-visible step: something happens, then the effect re-runs on the new
      `[isActive, timeLeft]`. */
  datatype Event = IntervalFired | TogglePressed | ResetPressed

  function Step(t: TimerState, e: Event, initialTime: int): (r: TimerState)
    ensures Stopped(r)
    ensures e.IntervalFired? ==> (r.timeLeft < t.timeLeft <==> t.isActive && t.timeLeft > 0)
    ensures !e.ResetPressed? ==> t.timeLeft - 1 <= r.timeLeft <= t.timeLeft
    ensures e.TogglePressed? ==> r.timeLeft == t.timeLeft
    ensures e.ResetPressed? ==> r == TimerState(initialTime, false)
  {
    match e
    case IntervalFired => Settled(Ticked(t))
    case TogglePressed => Settled(Toggled(t))
    case ResetPressed => Settled(ResetTo(t, initialTime))
  }

  /** No event in the sequence is a press of the reset button. */
  predicate NoReset(events: seq<Event>)
  {
    forall i :: 0 <= i < |events| ==> !events[i].ResetPressed?
  }

  /** The state after a sequence of events from any state `t`, with the
      `initialTime` prop held fixed. Without a reset, each event takes at most
      one second off. */
  function Run(t: TimerState, events: seq<Event>, initialTime: int): (r: TimerState)
    ensures events != [] ==> Stopped(r)
    ensures NoReset(events) ==> t.timeLeft - |events| <= r.timeLeft <= t.timeLeft
    decreases |events|
  {
    if events == [] then t
    else
      assert NoReset(events) ==> NoReset(events[1..]) by {
        assert forall i :: 0 <= i < |events| - 1 ==> events[1..][i] == events[i + 1];
      }
      Run(Step(t, events[0], initialTime), events[1..], initialTime)
  }

  /** `n` firings of the interval, each followed by the effect: at most `n`
      seconds come off, the count never crosses zero from above, and a paused
      timer does not start. */
  function Ticks(t: TimerState, n: nat): (r: TimerState)
    ensures t.timeLeft - n <= r.timeLeft <= t.timeLeft
    ensures t.timeLeft >= 0 ==> r.timeLeft >= 0
    ensures r.isActive ==> t.isActive
    decreases n
  {
    if n == 0 then t else Ticks(Settled(Ticked(t)), n - 1)
  }

  /** `Ticks` is `Run` over a sequence of interval firings only. */
  lemma {:induction false} TicksIsRun(t: TimerState, n: nat, initialTime: int)
    ensures Ticks(t, n) == Run(t, seq(n, _ => IntervalFired), initialTime)
    decreases n
  {
    if n > 0 {
      var events := seq(n, _ => IntervalFired);
      assert events[1..] == seq(n - 1, _ => IntervalFired);
      TicksIsRun(Settled(Ticked(t)), n - 1, initialTime);
    }
  }

  /** The remaining time never leaves `[0, initialTime]`. */
  predicate Bounded(t: TimerState, initialTime: int)
  {
    0 <= t.timeLeft <= initialTime
  }

  /** A timer showing zero is never running (once the effect has run). */
  predicate Stopped(t: TimerState)
  {
    t.timeLeft == 0 ==> !t.isActive
  }

  /** Every step keeps the remaining time within bounds and leaves no running
      timer at zero. */
  lemma StepKeepsInvariant(t: TimerState, e: Event, initialTime: int)
    requires Bounded(t, initialTime)
    ensures Bounded(Step(t, e, initialTime), initialTime)
    ensures Stopped(Step(t, e, initialTime))
  {
  }

  /** From any bounded state, with the prop held fixed, every state a sequence
      of events reaches is bounded, and after at least one event it is stopped
      at zero. */
  lemma {:induction false} RunKeepsInvariant(t: TimerState, events: seq<Event>, initialTime: int)
    requires Bounded(t, initialTime)
    ensures Bounded(Run(t, events, initialTime), initialTime)
    ensures events != [] ==> Stopped(Run(t, events, initialTime))
    decreases |events|
  {
    if events != [] {
      StepKeepsInvariant(t, events[0], initialTime);
      RunKeepsInvariant(Step(t, events[0], initialTime), events[1..], initialTime);
    }
  }

  /** A running timer with time left counts down one second per firing,
      keeps running until the last one and is stopped at zero right after it. */
  lemma {:induction false} CountDown(t: TimerState, n: nat)
    requires t.isActive && 0 < t.timeLeft && n <= t.timeLeft
    ensures Ticks(t, n).timeLeft == t.timeLeft - n
    ensures Ticks(t, n).isActive <==> n < t.timeLeft
    decreases n
  {
    if n > 1 {
      CountDown(Settled(Ticked(t)), n - 1);
    }
  }

  /** Once at zero, or while paused, further firings change nothing. */
  lemma {:induction false} TicksIdle(t: TimerState, n: nat)
    requires !t.isActive
    ensures Ticks(t, n) == t
    decreases n
  {
    if n > 0 {
      TicksIdle(Settled(Ticked(t)), n - 1);
    }
  }

  /** Toggling twice with time left restores the state; toggling at zero does nothing. */
  lemma ToggleTwice(t: TimerState)
    ensures Toggled(Toggled(t)) == t
    ensures t.timeLeft <= 0 ==> Toggled(t) == t
  {
  }

  /** The component: the current `initialTime` prop and the two state cells as
      fields, one method per transition. The prop is read only by `resetTimer`;
      `useState(initialTime)` reads it once, on mounting. */
  class ExamTimer {
    var initialTime: int
    var timeLeft: int
    var isActive: bool
    /** The largest `initialTime` the component has been given so far. */
    ghost var ceiling: int
    /** Whether every `initialTime` given so far was non-negative. */
    ghost var propsNonNegative: bool

    function State(): TimerState
      reads this
    {
      TimerState(timeLeft, isActive)
    }

    /** The remaining time never exceeds the largest prop seen, and it stays
        non-negative while every prop has been. */
    ghost predicate Valid()
      reads this
    {
      initialTime <= ceiling && timeLeft <= ceiling
      && (propsNonNegative ==> 0 <= initialTime && 0 <= timeLeft)
    }

    /** Mounting: the timer starts running at the initial time. */
    constructor (initialTime: int)
      ensures this.initialTime == initialTime
      ensures timeLeft == initialTime && isActive
      ensures State() == Initial(initialTime)
      ensures ceiling == initialTime && (propsNonNegative <==> initialTime >= 0)
      ensures Valid()
    {
      this.initialTime := initialTime;
      timeLeft := initialTime;
      isActive := true;
      ceiling := initialTime;
      propsNonNegative := initialTime >= 0;
    }

    /** A re-render with a new `initialTime` prop: neither state cell changes
        (the effect depends only on `[isActive, timeLeft]`), so `timeLeft` may
        now exceed the new prop. */
    method ReceiveProps(newInitialTime: int)
      requires Valid()
      modifies this
      ensures Valid()
      ensures initialTime == newInitialTime
      ensures State() == old(State())
      ensures ceiling == if newInitialTime > old(ceiling) then newInitialTime else old(ceiling)
      ensures propsNonNegative == (old(propsNonNegative) && newInitialTime >= 0)
    {
      initialTime := newInitialTime;
      if newInitialTime > ceiling {
        ceiling := newInitialTime;
      }
      propsNonNegative := propsNonNegative && newInitialTime >= 0;
    }

    /** One firing of the interval callback `setTimeLeft(prev => prev - 1)`. */
    method Tick()
      requires Valid()
      modifies this`timeLeft
      ensures Valid()
      ensures isActive == old(isActive)
      ensures timeLeft == if old(isActive) && old(timeLeft) > 0 then old(timeLeft) - 1 else old(timeLeft)
      ensures State() == Ticked(old(State()))
    {
      if isActive && timeLeft > 0 {
        timeLeft := timeLeft - 1;
      }
    }

    /** The effect re-running on `[isActive, timeLeft]`: auto-stop at zero. */
    method Settle()
      requires Valid()
      modifies this`isActive
      ensures Valid()
      ensures timeLeft == old(timeLeft)
      ensures isActive == (old(isActive) && old(timeLeft) != 0)
      ensures State() == Settled(old(State()))
    {
      if isActive && timeLeft > 0 {
      } else if !isActive && timeLeft != 0 {
      } else if timeLeft == 0 {
        isActive := false;
      }
    }

    /** `toggleTimer`. */
    method ToggleTimer()
      requires Valid()
      modifies this`isActive
      ensures Valid()
      ensures timeLeft == old(timeLeft)
      ensures isActive == if old(timeLeft) > 0 then !old(isActive) else old(isActive)
      ensures State() == Toggled(old(State()))
    {
      if timeLeft > 0 {
        isActive := !isActive;
      }
    }

    /** `resetTimer`: back to the current `initialTime` prop, paused. */
    method ResetTimer()
      requires Valid()
      modifies this`timeLeft, this`isActive
      ensures Valid()
      ensures timeLeft == initialTime && !isActive
      ensures State() == ResetTo(old(State()), initialTime)
    {
      isActive := false;
      timeLeft := initialTime;
    }

    /** `isTimeUp`: the display turns red and shows `00:00`, and the toggle
        button is disabled, which matches `toggleTimer` doing nothing at zero. */
    function IsTimeUp(): (b: bool)
      reads this
      ensures b <==> timeLeft == 0
      ensures b ==> Display() == "00:00"
      ensures b ==> Toggled(State()) == State()
    {
      if timeLeft == 0 then TimeFormat.FormatTimeZero(); true else false
    }

    /** What the component renders. */
    function Display(): (s: string)
      reads this
      ensures timeLeft >= 0 ==> TimeFormat.ParseClock(s) == TimeFormat.Some(timeLeft)
    {
      var s := TimeFormat.FormatTime(timeLeft);
      if timeLeft >= 0 then TimeFormat.FormatTimeRoundTrip(timeLeft); s else s
    }
  }

  /** A client: a 20-minute timer counts down, and a reset pauses it at full time. */
  method CountdownScenario()
  {
    var timer := new ExamTimer(1200);
    timer.Tick();
    timer.Settle();
    assert timer.timeLeft == 1199 && timer.isActive;
    timer.ToggleTimer();
    timer.Tick();
    timer.Settle();
    assert timer.timeLeft == 1199 && !timer.isActive;
    timer.ResetTimer();
    assert timer.timeLeft == 1200 && !timer.isActive;
  }

  /** A client: the writing page switches from Task 2 (2400 s) to Task 1
      (1200 s) while the timer runs. The remaining time is now above the prop
      until a reset, which uses the new prop. */
  method TaskSwitchScenario()
  {
    var timer := new ExamTimer(2400);
    timer.Tick();
    timer.Settle();
    timer.ReceiveProps(1200);
    assert timer.timeLeft == 2399 && timer.timeLeft > timer.initialTime && timer.isActive;
    timer.ResetTimer();
    assert timer.timeLeft == 1200 && !timer.isActive;
  }
}
