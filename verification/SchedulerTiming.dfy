/**
  When timer and task get to run before the clock moves on: what is overdue all the same, and that everything else is
  run at its first tick.
 */
module SchedulerTiming {
  import opened Wrappers
  import opened SchedulerProtocol

  predicate TimerDue(s: State) { s.timer.Some? && s.timer.value <= s.now }

  /** The task waits, and nothing was notified. */
  predicate Idle(s: State) { s.place == Waiting && s.notified == 0 }

  /** The clock moves only when the timer is not due and the task is idle; nothing else is assumed of a step. */
  predicate Prompt(s: State, step: Step)
  {
    step.Tick? ==> Idle(s) && !TimerDue(s)
  }

  ghost predicate FollowsPromptly(p: Port, states: seq<State>, steps: seq<Step>)
    requires PortOk(p)
  {
    Follows(p, states, steps) && forall k | 0 <= k < |steps| :: Prompt(states[k], steps[k])
  }

  /** Nothing queued should have been run by now. */
  predicate NothingOverdue(p: Port, s: State)
  {
    forall e | e in s.queue :: Ms(p, s) <= e.due
  }

  // ----- what becomes overdue

  /** Overdue, with nobody to look at it in this tick. */
  predicate Missed(p: Port, s: State) { Idle(s) && !TimerDue(s) && !NothingOverdue(p, s) }

  /**
    The timer is set again, over something overdue, while the task is idle: an adder comes between the timer's
    expiry and its callback, or adds for the past; or the task arms the timer over it, as when it lost its lock.
   */
  predicate Resets(p: Port, s: State, step: Step)
  {
    match step
    case Add(_, afterMs, _, _) => Idle(s) && (afterMs < 0 || (TimerDue(s) && !NothingOverdue(p, s)))
    case AddIrq(_, afterMs, _) => Idle(s) && (afterMs < 0 || (TimerDue(s) && !NothingOverdue(p, s)))
    case Arm(_) => s.notified == 0 && !NothingOverdue(p, s)
    case _ => false
  }

  /** The timer was reset so since the last tick, and has not been due again before step `k`. */
  predicate ResetSince(p: Port, states: seq<State>, steps: seq<Step>, k: nat)
    requires k <= |steps| < |states|
  {
    k > 0 && !steps[k - 1].Tick? && !TimerDue(states[k])
    && (Resets(p, states[k - 1], steps[k - 1]) || ResetSince(p, states, steps, k - 1))
  }

  /** The timer is set no later than the first tick past each queued due time. */
  predicate TimerInTime(p: Port, s: State)
  {
    s.queue != multiset{} ==> s.timer.Some? && forall e | e in s.queue :: (s.timer.value - 1) * p.tickMs <= e.due
  }

  /** While the task is idle, the timer is in time for whatever is queued, or set to the next tick at the latest. */
  predicate TimerIsNear(p: Port, s: State)
  {
    Idle(s) && s.queue != multiset{} ==> s.timer.Some? && (s.timer.value <= s.now + 1 || TimerInTime(p, s))
  }

  lemma ScaledOrder(a: int, b: int, d: nat)
    requires a <= b
    ensures a * d <= b * d
  {
    assert 0 <= (b - a) * d;
  }

  /** The tick the timer is set to is the next one, or no later than the first one past the top's due time. */
  lemma ExpiryIsNear(p: Port, now: nat, top: Entry)
    requires PortOk(p)
    ensures now < Expiry(p, now, top)
    ensures Expiry(p, now, top) == now + 1 || (Expiry(p, now, top) - 1) * p.tickMs <= top.due
  {
    var delta := top.due - now * p.tickMs;
    var period := delta / p.tickMs;
    if 0 < delta && 0 < period {
      assert period * p.tickMs <= delta;
      assert (now + period - 1) * p.tickMs == now * p.tickMs + period * p.tickMs - p.tickMs;
    }
  }

  /** The timer is set to the tick in which the top falls due, or to the next where that is less than two ticks off. */
  lemma ExpiryIsDueTick(p: Port, now: nat, top: Entry)
    requires PortOk(p)
    ensures
      var at := Expiry(p, now, top);
      if top.due < (now + 2) * p.tickMs then at == now + 1
      else at * p.tickMs <= top.due < (at + 1) * p.tickMs
  {
    var t, delta := p.tickMs, top.due - now * p.tickMs;
    var period := delta / t;
    assert (now + 2) * t == now * t + 2 * t;
    if 2 * t <= delta {
      QuotientFits(delta, t);
      assert (now + period) * t == now * t + t * period && (now + period + 1) * t == now * t + t * period + t;
    } else if t <= delta {
      QuotientFits(delta, t);
    }
  }

  lemma QuotientFits(a: nat, d: nat)
    requires 0 < d <= a
    ensures d * (a / d) <= a < d * (a / d) + d
    ensures if a < 2 * d then a / d == 1 else 2 <= a / d
  {
    var q := a / d;
    assert d * q <= a < d * q + d;
    if q < 1 {
      ScaledOrder(q, 0, d);
    } else if 2 <= q {
      ScaledOrder(2, q, d);
    } else {
      assert q == 1;
    }
  }

  lemma SetForTop(p: Port, s: State, queue: multiset<Entry>, top: Entry)
    requires PortOk(p) && IsTop(queue, top)
    ensures TimerIsNear(p, s.(queue := queue, timer := Some(Expiry(p, s.now, top)), place := Waiting))
  {
    ExpiryIsNear(p, s.now, top);
  }

  lemma AddKeepsTimerNear(p: Port, s: State, step: Step, s': State)
    requires PortOk(p) && TimerIsNear(p, s) && (step.Add? || step.AddIrq?) && Next(p, s, step, s')
    requires step.AddIrq? ==> Ticks(p, IRQ_DELAY_MS) <= 1
    ensures TimerIsNear(p, s')
  {
    if Idle(s) && step.Add? {
      SetForTop(p, s, s'.queue, step.top);
    }
  }

  /** Otherwise the task is only found idle with nothing queued, or if nothing changed but the clock. */
  lemma StepToIdle(p: Port, s: State, step: Step, s': State)
    requires PortOk(p) && Next(p, s, step, s') && !step.Add? && !step.AddIrq? && !step.Arm? && Idle(s')
    ensures s'.queue == multiset{} || (if step.Tick? then s' == s.(now := s.now + 1) else s' == s)
  {
  }

  lemma StepKeepsTimerNear(p: Port, s: State, step: Step, s': State)
    requires PortOk(p) && TimerIsNear(p, s) && Prompt(s, step) && Next(p, s, step, s')
    requires step.AddIrq? ==> Ticks(p, IRQ_DELAY_MS) <= 1
    ensures TimerIsNear(p, s')
  {
    if step.Add? || step.AddIrq? {
      AddKeepsTimerNear(p, s, step, s');
    } else if step.Arm? {
      SetForTop(p, s, s.queue, step.top);
    } else if Idle(s') {
      StepToIdle(p, s, step, s');
    }
  }

  /** As the clock moves, whatever falls overdue has the timer due. */
  lemma TickMissesNothing(p: Port, s: State)
    requires PortOk(p) && TimerIsNear(p, s) && Prompt(s, Tick)
    ensures !Missed(p, s.(now := s.now + 1))
  {
    if s.queue != multiset{} && s.now + 1 < s.timer.value {
      ScaledOrder(s.now + 1, s.timer.value - 1, p.tickMs);
    }
  }

  /** Something comes to be missed exactly by a reset, and stays so until the timer is due. */
  lemma StepMisses(p: Port, s: State, step: Step, s': State)
    requires PortOk(p) && TimerIsNear(p, s) && Prompt(s, step) && Next(p, s, step, s')
    ensures Missed(p, s') <==>
            !step.Tick? && !TimerDue(s') && (Resets(p, s, step) || Missed(p, s))
  {
    match step {
      case Tick => TickMissesNothing(p, s);
      case Add(action, afterMs, repeated, _) => AddMisses(p, s, NewEntry(p, s, action, afterMs, repeated), step, s');
      case AddIrq(action, afterMs, repeated) => AddMisses(p, s, NewEntry(p, s, action, afterMs, repeated), step, s');
      case Arm(top) => ExpiryIsNear(p, s.now, top);
      case _ =>
    }
  }

  lemma AddMisses(p: Port, s: State, e: Entry, step: Step, s': State)
    requires PortOk(p) && Next(p, s, step, s') && (step.Add? || step.AddIrq?) && s'.queue == s.queue + multiset{e}
    requires e.due == Ms(p, s) + step.afterMs
    ensures Missed(p, s') <==> !TimerDue(s') && (Resets(p, s, step) || Missed(p, s))
  {
    assert NothingOverdue(p, s') <==> NothingOverdue(p, s) && 0 <= step.afterMs by {
      assert e in s'.queue;
      assert forall f | f in s.queue :: f in s'.queue;
    }
  }

  /** The interrupt sets the timer to this tick or the next, or adds nothing. */
  predicate IrqIsSoon(p: Port, steps: seq<Step>)
    requires PortOk(p)
  {
    Ticks(p, IRQ_DELAY_MS) <= 1 || forall k | 0 <= k < |steps| :: !steps[k].AddIrq?
  }

  lemma {:induction false} MissedIffReset(p: Port, states: seq<State>, steps: seq<Step>, k: nat)
    requires PortOk(p) && FollowsPromptly(p, states, steps) && IrqIsSoon(p, steps) && k < |states|
    ensures TimerIsNear(p, states[k])
    ensures Missed(p, states[k]) <==> ResetSince(p, states, steps, k)
  {
    if k != 0 {
      MissedIffReset(p, states, steps, k - 1);
      StepKeepsTimerNear(p, states[k - 1], steps[k - 1], states[k]);
      StepMisses(p, states[k - 1], steps[k - 1], states[k]);
    }
  }

  /**
    Where the interrupt's delay is at most one tick, or no interrupt adds anything: the clock leaves a tick with
    something overdue if and only if the timer was reset over something overdue in that tick, and was not due again.
   */
  lemma OverdueIffReset(p: Port, states: seq<State>, steps: seq<Step>, k: nat)
    requires PortOk(p) && FollowsPromptly(p, states, steps) && IrqIsSoon(p, steps)
    requires k < |steps| && steps[k].Tick?
    ensures NothingOverdue(p, states[k]) <==> !ResetSince(p, states, steps, k)
  {
    MissedIffReset(p, states, steps, k);
    assert Prompt(states[k], steps[k]);
  }

  // ----- what is run late

  /** No one adds for the past. */
  predicate NoneForThePast(steps: seq<Step>)
  {
    forall k | 0 <= k < |steps| && (steps[k].Add? || steps[k].AddIrq?) :: 0 <= steps[k].afterMs
  }

  predicate DelaysOk(s: State)
  {
    && (forall e | e in s.queue :: 0 <= e.period)
    && (s.place.Running? ==> 0 <= s.place.running.period)
    && (s.place.Ran? ==> 0 <= s.place.ran.period)
  }

  lemma StepKeepsDelays(p: Port, s: State, step: Step, s': State)
    requires PortOk(p) && DelaysOk(s) && Next(p, s, step, s') && (step.Add? || step.AddIrq? ==> 0 <= step.afterMs)
    ensures DelaysOk(s')
  {
  }

  lemma {:induction false} RunKeepsDelays(p: Port, states: seq<State>, steps: seq<Step>, k: nat)
    requires PortOk(p) && Follows(p, states, steps) && NoneForThePast(steps) && k < |states|
    ensures DelaysOk(states[k])
  {
    if k != 0 {
      RunKeepsDelays(p, states, steps, k - 1);
      StepKeepsDelays(p, states[k - 1], steps[k - 1], states[k]);
    }
  }

  /** The entry is queued or about to be run at tick `at`, or was run at it. */
  predicate HadAt(s: State, e: Entry, at: nat)
  {
    (at == s.now && (e in s.queue || s.place == Running(e))) || Fire(e, at) in s.fired
  }

  /** The entry's first tick was before `at`. */
  predicate Late(p: Port, e: Entry, at: nat) { e.due < (at - 1) * p.tickMs }

  lemma NewIsNotLate(p: Port, s: State, action: nat, afterMs: int, repeated: bool)
    requires 0 <= afterMs
    ensures !Late(p, NewEntry(p, s, action, afterMs, repeated), s.now)
  {
    assert (s.now - 1) * p.tickMs == Ms(p, s) - p.tickMs;
  }

  /** What is late in the queue was there before the step. */
  lemma LateInQueue(p: Port, s: State, step: Step, s': State, e: Entry)
    requires PortOk(p) && Next(p, s, step, s') && DelaysOk(s) && (step.Add? || step.AddIrq? ==> 0 <= step.afterMs)
    requires e in s'.queue && Late(p, e, s'.now)
    ensures e in s.queue && s'.now == if step.Tick? then s.now + 1 else s.now
  {
    match step {
      case Add(action, afterMs, repeated, _) => NewIsNotLate(p, s, action, afterMs, repeated);
      case AddIrq(action, afterMs, repeated) => NewIsNotLate(p, s, action, afterMs, repeated);
      case AddAgain(_) =>
        if s.place.ran.repeated {
          NewIsNotLate(p, s, s.place.ran.action, s.place.ran.period, true);
        }
      case _ =>
    }
  }

  lemma StepHad(p: Port, s: State, step: Step, s': State, e: Entry, at: nat)
    requires PortOk(p) && Prompt(s, step) && Next(p, s, step, s') && DelaysOk(s)
    requires step.Add? || step.AddIrq? ==> 0 <= step.afterMs
    requires HadAt(s', e, at) && Late(p, e, at)
    ensures HadAt(s, e, at) || (step.Tick? && at == s.now + 1 && e in s.queue)
  {
    if at == s'.now && e in s'.queue {
      LateInQueue(p, s, step, s', e);
    }
  }

  lemma LateBefore(p: Port, states: seq<State>, steps: seq<Step>, k: nat, e: Entry, at: nat)
    requires PortOk(p) && FollowsPromptly(p, states, steps) && NoneForThePast(steps) && 0 < k < |states|
    requires HadAt(states[k], e, at) && Late(p, e, at)
    ensures HadAt(states[k - 1], e, at) ||
            (steps[k - 1].Tick? && states[k - 1].now == at - 1 && e in states[k - 1].queue)
  {
    RunKeepsDelays(p, states, steps, k - 1);
    StepHad(p, states[k - 1], steps[k - 1], states[k], e, at);
  }

  lemma NothingAtFirst(p: Port, states: seq<State>, steps: seq<Step>, e: Entry, at: nat)
    requires PortOk(p) && Follows(p, states, steps)
    ensures !HadAt(states[0], e, at)
  {
    assert Initial(states[0]);
  }

  /** There is a step with which an entry came to be at a tick. */
  lemma {:induction false} CameToBe(states: seq<State>, k: nat, e: Entry, at: nat) returns (j: nat)
    requires k < |states| && !HadAt(states[0], e, at) && HadAt(states[k], e, at)
    ensures 0 < j <= k && !HadAt(states[j - 1], e, at) && HadAt(states[j], e, at)
  {
    j := k;
    if HadAt(states[k - 1], e, at) {
      j := CameToBe(states, k - 1, e, at);
    }
  }

  /** What is run later than at its first tick was queued, and overdue, as the clock came to that tick. */
  lemma LateWasOverdue(p: Port, states: seq<State>, steps: seq<Step>, k: nat, e: Entry, at: nat) returns (i: nat)
    requires PortOk(p) && FollowsPromptly(p, states, steps) && NoneForThePast(steps) && k < |states|
    requires HadAt(states[k], e, at) && Late(p, e, at)
    ensures i < k && steps[i].Tick? && states[i].now == at - 1 && e in states[i].queue
  {
    NothingAtFirst(p, states, steps, e, at);
    var j := CameToBe(states, k, e, at);
    LateBefore(p, states, steps, j, e, at);
    i := j - 1;
  }

  lemma StepRunsNow(p: Port, s: State, step: Step, s': State)
    requires PortOk(p) && Next(p, s, step, s')
    ensures s.now <= s'.now && (s'.fired == s.fired || exists e :: s'.fired == s.fired + [Fire(e, s'.now)])
  {
    if step.Invoke? {
      assert s'.fired == s.fired + [Fire(s.place.running, s'.now)];
    }
  }

  /** What is run after a step is run at its tick or later. */
  lemma {:induction false} RunLater(p: Port, states: seq<State>, steps: seq<Step>, k: nat, m: nat, j: nat)
    requires PortOk(p) && Follows(p, states, steps) && k <= m < |states|
    ensures states[k].now <= states[m].now
    ensures |states[k].fired| <= j < |states[m].fired| ==> states[k].now <= states[m].fired[j].at
  {
    if k < m {
      RunLater(p, states, steps, k, m - 1, j);
      StepRunsNow(p, states[m - 1], steps[m - 1], states[m]);
    }
  }

  /** And what is overdue as the clock moves on is run late, if it is run. */
  lemma OverdueIsRunLate(p: Port, states: seq<State>, steps: seq<Step>, k: nat, m: nat, j: nat)
    requires PortOk(p) && Follows(p, states, steps) && k < m < |states| && steps[k].Tick?
    requires |states[k].fired| <= j < |states[m].fired| && states[m].fired[j].entry.due < Ms(p, states[k])
    ensures Late(p, states[m].fired[j].entry, states[m].fired[j].at)
  {
    assert Next(p, states[k], steps[k], states[k + 1]);
    RunLater(p, states, steps, k + 1, m, j);
    ScaledOrder(states[k].now, states[m].fired[j].at - 1, p.tickMs);
  }

  /** The first tick whose milliseconds exceed the due time. */
  predicate AtFirstTick(p: Port, f: Fire)
  {
    (f.at - 1) * p.tickMs <= f.entry.due < f.at * p.tickMs
  }

  predicate AllAtFirstTick(p: Port, fired: seq<Fire>)
  {
    forall j | 0 <= j < |fired| :: AtFirstTick(p, fired[j])
  }

  /** At no tick before step `k` had the timer been reset over something overdue. */
  predicate NoResetBefore(p: Port, states: seq<State>, steps: seq<Step>, k: nat)
    requires k <= |steps| < |states|
  {
    forall i: nat | i < k && steps[i].Tick? :: !ResetSince(p, states, steps, i)
  }

  /** Unless the timer was reset over something overdue, nothing is late. */
  lemma NotLate(p: Port, states: seq<State>, steps: seq<Step>, k: nat, e: Entry, at: nat)
    requires PortOk(p) && FollowsPromptly(p, states, steps) && IrqIsSoon(p, steps) && NoneForThePast(steps)
    requires k < |states| && NoResetBefore(p, states, steps, k) && HadAt(states[k], e, at)
    ensures !Late(p, e, at)
  {
    if Late(p, e, at) {
      var i := LateWasOverdue(p, states, steps, k, e, at);
      OverdueIffReset(p, states, steps, i);
      assert false;
    }
  }

  /**
    Every action is run at the first tick whose milliseconds exceed its due time, and what is still queued has not
    missed that tick, as long as the timer is not reset over something overdue.
   */
  lemma EveryActionAtItsFirstTick(p: Port, states: seq<State>, steps: seq<Step>, k: nat)
    requires PortOk(p) && FollowsPromptly(p, states, steps) && IrqIsSoon(p, steps) && NoneForThePast(steps)
    requires k < |states| && NoResetBefore(p, states, steps, k)
    ensures AllAtFirstTick(p, states[k].fired)
    ensures forall e | e in states[k].queue :: !Late(p, e, states[k].now)
  {
    var s := states[k];
    forall j | 0 <= j < |s.fired|
      ensures AtFirstTick(p, s.fired[j])
    {
      FiresInItsTick(p, states, steps, k, j);
      NotLate(p, states, steps, k, s.fired[j].entry, s.fired[j].at);
    }
    forall e | e in s.queue
      ensures !Late(p, e, s.now)
    {
      NotLate(p, states, steps, k, e, s.now);
    }
  }

  lemma FiresInItsTick(p: Port, states: seq<State>, steps: seq<Step>, k: nat, j: nat)
    requires PortOk(p) && Follows(p, states, steps) && k < |states| && j < |states[k].fired|
    ensures var f := states[k].fired[j];
            HadAt(states[k], f.entry, f.at) && (!Late(p, f.entry, f.at) ==> AtFirstTick(p, f))
  {
    RunKeepsInvariant(p, states, steps, k);
    var f := states[k].fired[j];
    assert f == Fire(f.entry, f.at) && f in states[k].fired;
  }

  // ----- the interrupt's delay

  /** Nobody resets the timer over something overdue. */
  predicate NeverReset(p: Port, states: seq<State>, steps: seq<Step>)
    requires |steps| < |states|
  {
    forall k | 0 <= k < |steps| :: !Resets(p, states[k], steps[k])
  }

  lemma {:induction false} NoResetSince(p: Port, states: seq<State>, steps: seq<Step>, k: nat)
    requires k <= |steps| < |states| && NeverReset(p, states, steps)
    ensures !ResetSince(p, states, steps, k)
  {
    if k > 0 {
      NoResetSince(p, states, steps, k - 1);
    }
  }

  /** Without such a reset the clock never leaves a tick with anything overdue, however the steps fall. */
  ghost predicate NeverOverdue(p: Port)
    requires PortOk(p)
  {
    forall states: seq<State>, steps: seq<Step>, k: nat |
      FollowsPromptly(p, states, steps) && NeverReset(p, states, steps) && k < |steps| && steps[k].Tick? ::
      NothingOverdue(p, states[k])
  }

  /** Without such a reset every action is run at its first tick, however the steps fall. */
  ghost predicate FiresInTime(p: Port)
    requires PortOk(p)
  {
    forall states: seq<State>, steps: seq<Step>, k: nat |
      FollowsPromptly(p, states, steps) && NeverReset(p, states, steps) && NoneForThePast(steps) && k < |states| ::
      AllAtFirstTick(p, states[k].fired)
  }

  /** A run and one step more. */
  lemma GoOn(p: Port, states: seq<State>, steps: seq<Step>, step: Step, s': State)
    requires PortOk(p) && FollowsPromptly(p, states, steps)
    requires Prompt(states[|steps|], step) && Next(p, states[|steps|], step, s')
    ensures FollowsPromptly(p, states + [s'], steps + [step])
    ensures NeverReset(p, states, steps) && !Resets(p, states[|steps|], step) ==>
              NeverReset(p, states + [s'], steps + [step])
  {
    var states', steps' := states + [s'], steps + [step];
    forall k | 0 <= k < |steps'|
      ensures Next(p, states'[k], steps'[k], states'[k + 1]) && Prompt(states'[k], steps'[k])
    {
      if k < |steps| {
        assert states'[k] == states[k] && states'[k + 1] == states[k + 1] && steps'[k] == steps[k];
      }
    }
  }

  /** An action added at tick 0 for now. */
  const DUE_NOW := Entry(0, 0, 0, false)

  /** The state at tick `now` after the interrupt added an action at tick 0 and set the timer to tick `n`. */
  function AfterIrq(now: nat, n: nat): State
  {
    State(multiset{DUE_NOW}, now, Some(n), 0, Waiting, multiset{DUE_NOW}, [], [])
  }

  /** The interrupt adds an action that is due at once. */
  lemma IrqAdds(p: Port, n: nat) returns (states: seq<State>, steps: seq<Step>)
    requires PortOk(p) && n == Ticks(p, IRQ_DELAY_MS)
    ensures FollowsPromptly(p, states, steps) && steps == [AddIrq(0, 0, false)] && states[1] == AfterIrq(0, n)
    ensures NeverReset(p, states, steps)
  {
    var s := State(multiset{}, 0, None, 0, Waiting, multiset{}, [], []);
    GoOn(p, [s], [], AddIrq(0, 0, false), AfterIrq(0, n));
    states, steps := [s] + [AfterIrq(0, n)], [] + [AddIrq(0, 0, false)];
  }

  /** Then the clock ticks until the timer is due. */
  lemma IrqThenTicks(p: Port, n: nat) returns (states: seq<State>, steps: seq<Step>)
    requires PortOk(p) && n == Ticks(p, IRQ_DELAY_MS) && 2 <= n
    ensures FollowsPromptly(p, states, steps) && |steps| == n + 1 && states[n + 1] == AfterIrq(n, n)
    ensures NeverReset(p, states, steps) && NoneForThePast(steps)
    ensures steps[2].Tick? && states[2] == AfterIrq(1, n)
  {
    states, steps := IrqAdds(p, n);
    for i := 0 to n
      invariant FollowsPromptly(p, states, steps) && |steps| == i + 1 && states[i + 1] == AfterIrq(i, n)
      invariant NeverReset(p, states, steps) && NoneForThePast(steps)
      invariant 1 <= i ==> states[2] == AfterIrq(1, n)
      invariant 2 <= i ==> steps[2].Tick?
    {
      var now := AfterIrq(i + 1, n);
      assert Next(p, AfterIrq(i, n), Tick, now);
      GoOn(p, states, steps, Tick, now);
      states, steps := states + [now], steps + [Tick];
    }
  }

  /** Then the timer wakes the task, and the action is run. */
  lemma IrqFiresLate(p: Port, n: nat, states: seq<State>, steps: seq<Step>)
    returns (states': seq<State>, steps': seq<Step>)
    requires PortOk(p) && 0 < n && FollowsPromptly(p, states, steps) && states[|steps|] == AfterIrq(n, n)
    requires NeverReset(p, states, steps) && NoneForThePast(steps)
    ensures FollowsPromptly(p, states', steps') && states'[|steps'|].fired == [Fire(DUE_NOW, n)]
    ensures NeverReset(p, states', steps') && NoneForThePast(steps')
  {
    var s := AfterIrq(n, n);
    var path := [(Expire, s.(timer := None, notified := 1)),
                 (Wake, s.(timer := None, place := Looking)),
                 (Look, s.(timer := None, place := Testing)),
                 (Test(DUE_NOW), s.(timer := None, place := Taking)),
                 (Take(DUE_NOW), s.(timer := None, place := Running(DUE_NOW), queue := multiset{})),
                 (Invoke, s.(timer := None, place := Ran(DUE_NOW), queue := multiset{},
                             fired := [Fire(DUE_NOW, n)]))];
    assert 0 < Ms(p, s) by {
      ScaledOrder(1, n, p.tickMs);
    }
    states', steps' := states, steps;
    for i := 0 to |path|
      invariant FollowsPromptly(p, states', steps') && NeverReset(p, states', steps') && NoneForThePast(steps')
      invariant states'[|steps'|] == if i == 0 then s else path[i - 1].1
    {
      GoOn(p, states', steps', path[i].0, path[i].1);
      states', steps' := states' + [path[i].1], steps' + [path[i].0];
    }
  }

  /**
    Where nobody resets the timer over something overdue, the interrupt's fixed delay keeps every run in time exactly
    if it is at most one tick. From two ticks on, an action that the interrupt adds for now is overdue while the clock
    ticks, and is run late.
   */
  lemma InterruptDelayDecides(p: Port)
    requires PortOk(p)
    ensures Ticks(p, IRQ_DELAY_MS) <= 1 <==> NeverOverdue(p)
    ensures Ticks(p, IRQ_DELAY_MS) <= 1 <==> FiresInTime(p)
  {
    var n := Ticks(p, IRQ_DELAY_MS);
    if n <= 1 {
      forall states: seq<State>, steps: seq<Step>, k: nat |
        FollowsPromptly(p, states, steps) && NeverReset(p, states, steps) && k < |steps| && steps[k].Tick?
        ensures NothingOverdue(p, states[k])
      {
        NoResetSince(p, states, steps, k);
        OverdueIffReset(p, states, steps, k);
      }
      forall states: seq<State>, steps: seq<Step>, k: nat |
        FollowsPromptly(p, states, steps) && NeverReset(p, states, steps) && NoneForThePast(steps) && k < |states|
        ensures AllAtFirstTick(p, states[k].fired)
      {
        forall i: nat | i < k && steps[i].Tick? ensures !ResetSince(p, states, steps, i) {
          NoResetSince(p, states, steps, i);
        }
        EveryActionAtItsFirstTick(p, states, steps, k);
      }
    } else {
      var states, steps := IrqThenTicks(p, n);
      assert DUE_NOW in states[2].queue && !NothingOverdue(p, states[2]);
      var states', steps' := IrqFiresLate(p, n, states, steps);
      ScaledOrder(1, n - 1, p.tickMs);
      assert !AtFirstTick(p, states'[|steps'|].fired[0]) && !AllAtFirstTick(p, states'[|steps'|].fired);
    }
  }

  /**
    From two ticks on the interrupt also postpones what others added: an action due now has its timer moved away, and
    the clock may tick on over it.
   */
  lemma InterruptCanPostpone(p: Port, afterMs: nat) returns (states: seq<State>, steps: seq<Step>)
    requires PortOk(p) && 2 <= Ticks(p, IRQ_DELAY_MS)
    ensures FollowsPromptly(p, states, steps) && NeverReset(p, states, steps) && |steps| == 4
    ensures steps[0] == Add(0, 0, false, DUE_NOW) && steps[1] == AddIrq(1, afterMs, false)
    ensures steps[3] == Tick && DUE_NOW in states[3].queue && DUE_NOW.due < Ms(p, states[3])
  {
    var e, f := DUE_NOW, Entry(afterMs, 1, afterMs, false);
    var s := State(multiset{}, 0, None, 0, Waiting, multiset{}, [], []);
    var one := s.(queue := multiset{e}, added := multiset{e}, timer := Some(1));
    var two := s.(queue := multiset{e, f}, added := multiset{e, f}, timer := Some(Ticks(p, IRQ_DELAY_MS)));
    assert multiset{} + multiset{e} == multiset{e} && multiset{e} + multiset{f} == multiset{e, f};
    states, steps := [s], [];
    GoOn(p, states, steps, Add(0, 0, false, e), one);
    states, steps := states + [one], steps + [Add(0, 0, false, e)];
    GoOn(p, states, steps, AddIrq(1, afterMs, false), two);
    states, steps := states + [two], steps + [AddIrq(1, afterMs, false)];
    GoOn(p, states, steps, Tick, two.(now := 1));
    states, steps := states + [two.(now := 1)], steps + [Tick];
    GoOn(p, states, steps, Tick, two.(now := 2));
    states, steps := states + [two.(now := 2)], steps + [Tick];
  }

  // ----- adders between expiry and callback

  /** At tick `now` the timer is due over an action added at tick 0, and has not called back yet. */
  function DueAgain(now: nat, queue: multiset<Entry>): State
  {
    State(queue, now, Some(now), 0, Waiting, queue, [], [])
  }

  /** An adder sets the due timer to the next tick. */
  lemma AdderSetsTimer(p: Port, s: State, now: nat, queue: multiset<Entry>, step: Step)
    returns (queue': multiset<Entry>)
    requires PortOk(p) && s == DueAgain(now, queue).(timer := s.timer)
    requires step.Add? || (step.AddIrq? && Ticks(p, IRQ_DELAY_MS) == 1)
    requires if queue == multiset{} then now == 0 && step == Add(0, 0, false, DUE_NOW) else IsTop(queue, DUE_NOW)
    requires 0 <= step.afterMs && (step.Add? ==> step.top == DUE_NOW)
    ensures Next(p, s, step, DueAgain(now, queue').(timer := Some(now + 1))) && IsTop(queue', DUE_NOW)
  {
    queue' := queue + multiset{NewEntry(p, s, step.action, step.afterMs, step.repeated)};
  }

  /** Then the clock comes to it. */
  lemma AdderThenTick(p: Port, states: seq<State>, steps: seq<Step>, now: nat, queue: multiset<Entry>, step: Step)
    returns (queue': multiset<Entry>)
    requires PortOk(p) && FollowsPromptly(p, states, steps)
    requires states[|steps|] == DueAgain(now, queue).(timer := states[|steps|].timer)
    requires step.Add? || (step.AddIrq? && Ticks(p, IRQ_DELAY_MS) == 1)
    requires if queue == multiset{} then now == 0 && step == Add(0, 0, false, DUE_NOW) else IsTop(queue, DUE_NOW)
    requires 0 <= step.afterMs && (step.Add? ==> step.top == DUE_NOW)
    ensures var s := DueAgain(now, queue').(timer := Some(now + 1));
            FollowsPromptly(p, states + [s, DueAgain(now + 1, queue')], steps + [step, Tick])
    ensures IsTop(queue', DUE_NOW)
  {
    queue' := AdderSetsTimer(p, states[|steps|], now, queue, step);
    var s, s' := DueAgain(now, queue').(timer := Some(now + 1)), DueAgain(now + 1, queue');
    assert FollowsPromptly(p, states + [s], steps + [step]) by {
      GoOn(p, states, steps, step, s);
    }
    GoOn(p, states + [s], steps + [step], Tick, s');
    assert states + [s, s'] == (states + [s]) + [s'] && steps + [step, Tick] == (steps + [step]) + [Tick];
  }

  /** First an action for now, and then others, by callers or by the interrupt. */
  function Adder(i: nat, afterMs: nat, irq: bool): Step
  {
    if i == 0 then Add(0, 0, false, DUE_NOW)
    else if irq then AddIrq(1, afterMs, false)
    else Add(1, afterMs, false, DUE_NOW)
  }

  predicate InEveryTick(steps: seq<Step>, n: nat, afterMs: nat, irq: bool)
  {
    |steps| == 2 * n && forall i: nat | i < n :: steps[2 * i] == Adder(i, afterMs, irq) && steps[2 * i + 1] == Tick
  }

  lemma OneTickMore(steps: seq<Step>, n: nat, afterMs: nat, irq: bool)
    requires InEveryTick(steps, n, afterMs, irq)
    ensures InEveryTick(steps + [Adder(n, afterMs, irq), Tick], n + 1, afterMs, irq)
  {
  }

  /**
    An adder in every tick, between the timer's expiry and its callback, keeps the task from an action for as long as it
    goes on: callers at any rate, and the interrupt where its delay is one tick.
   */
  lemma AddersCanStarve(p: Port, n: nat, afterMs: nat, irq: bool) returns (states: seq<State>, steps: seq<Step>)
    requires PortOk(p) && (irq ==> Ticks(p, IRQ_DELAY_MS) == 1)
    ensures FollowsPromptly(p, states, steps) && InEveryTick(steps, n + 1, afterMs, irq)
    ensures var s := states[|steps|];
            s.now == n + 1 && DUE_NOW in s.queue && s.fired == [] && DUE_NOW.due < Ms(p, s)
  {
    states, steps := [State(multiset{}, 0, None, 0, Waiting, multiset{}, [], [])], [];
    var queue: multiset<Entry> := multiset{};
    for i := 0 to n + 1
      invariant FollowsPromptly(p, states, steps) && InEveryTick(steps, i, afterMs, irq)
      invariant states[|steps|] == DueAgain(i, queue).(timer := if i == 0 then None else Some(i))
      invariant if i == 0 then queue == multiset{} else IsTop(queue, DUE_NOW)
    {
      var step := Adder(i, afterMs, irq);
      queue := AdderThenTick(p, states, steps, i, queue, step);
      OneTickMore(steps, i, afterMs, irq);
      states := states + [DueAgain(i, queue).(timer := Some(i + 1)), DueAgain(i + 1, queue)];
      steps := steps + [step, Tick];
    }
    ScaledOrder(1, n + 1, p.tickMs);
  }

  /** The shortest such runs: the second tick leaves the first action overdue, by the second adder's reset alone. */
  lemma OneAdderIsEnough(p: Port, afterMs: nat, irq: bool)
    requires PortOk(p) && (irq ==> Ticks(p, IRQ_DELAY_MS) == 1)
    ensures exists states, steps ::
              && FollowsPromptly(p, states, steps) && |steps| == 4
              && steps[0] == Add(0, 0, false, DUE_NOW) && steps[1] == steps[3] == Tick
              && steps[2] == Adder(1, afterMs, irq)
              && !NothingOverdue(p, states[3]) && ResetSince(p, states, steps, 3)
  {
    var states, steps := AddersCanStarve(p, 1, afterMs, irq);
    assert steps[2 * 0] == Adder(0, afterMs, irq) && steps[2 * 1 + 1] == Tick;
    assert Next(p, states[3], steps[3], states[4]);
    assert DUE_NOW in states[3].queue && states[3].now == 1;
    MissedIffReset(p, states, steps, 3);
  }

  /** The task, woken for an action that is due, finds the queue not empty. */
  lemma AboutToTest(p: Port) returns (states: seq<State>, steps: seq<Step>)
    requires PortOk(p)
    ensures FollowsPromptly(p, states, steps) && steps == [Add(0, 0, false, DUE_NOW), Tick, Expire, Wake, Look]
    ensures states[5] == DueAgain(1, multiset{DUE_NOW}).(timer := None, place := Testing)
  {
    var s := DueAgain(0, multiset{}).(timer := None);
    var one := DueAgain(1, multiset{DUE_NOW});
    var none := one.(timer := None);
    assert multiset{} + multiset{DUE_NOW} == multiset{DUE_NOW};
    var path := [Add(0, 0, false, DUE_NOW), Tick, Expire, Wake, Look];
    var after := [one.(now := 0), one, none.(notified := 1), none.(place := Looking), none.(place := Testing)];
    states, steps := [s], [];
    for i := 0 to 5
      invariant FollowsPromptly(p, states, steps) && steps == path[..i]
      invariant states[i] == if i == 0 then s else after[i - 1]
    {
      GoOn(p, states, steps, path[i], after[i]);
      states, steps := states + [after[i]], steps + [path[i]];
    }
  }

  /** The lock does not come, and the task arms the timer without a look at the top. */
  lemma ArmedBlindly(p: Port) returns (states: seq<State>, steps: seq<Step>)
    requires PortOk(p)
    ensures FollowsPromptly(p, states, steps)
    ensures steps == [Add(0, 0, false, DUE_NOW), Tick, Expire, Wake, Look] + [LockTimesOut, Leave, Arm(DUE_NOW)]
    ensures states[8] == DueAgain(1, multiset{DUE_NOW}).(timer := Some(2))
  {
    states, steps := AboutToTest(p);
    var none := DueAgain(1, multiset{DUE_NOW}).(timer := None);
    var path := [LockTimesOut, Leave, Arm(DUE_NOW)];
    var after := [none.(place := Leaving), none.(place := Arming), none.(timer := Some(2))];
    for i := 0 to 3
      invariant FollowsPromptly(p, states, steps)
      invariant steps == [Add(0, 0, false, DUE_NOW), Tick, Expire, Wake, Look] + path[..i]
      invariant states[5 + i] == if i == 0 then none.(place := Testing) else after[i - 1]
    {
      GoOn(p, states, steps, path[i], after[i]);
      states, steps := states + [after[i]], steps + [path[i]];
    }
  }

  /** A lock that does not come to the task is the other way: the clock may move on with the action overdue. */
  lemma LostLockIsLate(p: Port) returns (states: seq<State>, steps: seq<Step>)
    requires PortOk(p)
    ensures FollowsPromptly(p, states, steps)
    ensures steps == [Add(0, 0, false, DUE_NOW), Tick, Expire, Wake, Look] + [LockTimesOut, Leave, Arm(DUE_NOW)]
    ensures !NothingOverdue(p, states[8]) && Prompt(states[8], Tick) && ResetSince(p, states, steps, 8)
  {
    states, steps := ArmedBlindly(p);
    assert DUE_NOW in states[8].queue && Ms(p, states[8]) == p.tickMs;
    MissedIffReset(p, states, steps, 8);
  }
}
