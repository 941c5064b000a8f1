/** From what callers and the interrupt ask for to what is run: delays in milliseconds from the clock of the moment. */
module SchedulerRequests {
  import opened SchedulerProtocol
  import opened SchedulerTiming

  /** The step adds this action with this delay, from a caller or the interrupt. */
  predicate Asks(step: Step, action: nat, afterMs: int, repeated: bool)
  {
    (step.Add? || step.AddIrq?) && step.action == action && step.afterMs == afterMs && step.repeated == repeated
  }

  /** What a step asks for: due its delay after the milliseconds of the tick it is asked at. */
  function AskedBy(p: Port, s: State, step: Step): multiset<Entry>
  {
    match step
    case Add(action, afterMs, repeated, _) =>
      multiset{Entry(s.now * p.tickMs + afterMs, action, afterMs, repeated)}
    case AddIrq(action, afterMs, repeated) =>
      multiset{Entry(s.now * p.tickMs + afterMs, action, afterMs, repeated)}
    case _ => multiset{}
  }

  /** What a step queues again: due a period after the milliseconds of the tick. */
  function AgainBy(p: Port, s: State, step: Step): seq<Entry>
  {
    if step.AddAgain? && s.place.Ran? && s.place.ran.repeated then
      [Entry(s.now * p.tickMs + s.place.ran.period, s.place.ran.action, s.place.ran.period, true)]
    else []
  }

  /** What the first `n` steps asked for. */
  function Asked(p: Port, states: seq<State>, steps: seq<Step>, n: nat): multiset<Entry>
    requires n <= |steps| < |states|
  {
    if n == 0 then multiset{} else Asked(p, states, steps, n - 1) + AskedBy(p, states[n - 1], steps[n - 1])
  }

  function AskedAgain(p: Port, states: seq<State>, steps: seq<Step>, n: nat): seq<Entry>
    requires n <= |steps| < |states|
  {
    if n == 0 then [] else AskedAgain(p, states, steps, n - 1) + AgainBy(p, states[n - 1], steps[n - 1])
  }

  lemma StepAdds(p: Port, s: State, step: Step, s': State)
    requires PortOk(p) && Next(p, s, step, s')
    ensures s'.added == s.added + AskedBy(p, s, step)
  {
  }

  lemma StepAddsAgain(p: Port, s: State, step: Step, s': State)
    requires PortOk(p) && Next(p, s, step, s')
    ensures s'.again == s.again + AgainBy(p, s, step)
  {
  }

  /** What is counted as queued grows by what step `k` asks for. */
  ghost predicate TalliedAt(p: Port, states: seq<State>, steps: seq<Step>, k: nat)
    requires k < |steps| < |states|
  {
    && states[k + 1].added == states[k].added + AskedBy(p, states[k], steps[k])
    && states[k + 1].again == states[k].again + AgainBy(p, states[k], steps[k])
  }

  lemma {:induction false} TalliedIsAsked(p: Port, states: seq<State>, steps: seq<Step>, n: nat)
    requires n <= |steps| < |states| && states[0].added == multiset{} && states[0].again == []
    requires forall k: nat | k < |steps| :: TalliedAt(p, states, steps, k)
    ensures states[n].added == Asked(p, states, steps, n) && states[n].again == AskedAgain(p, states, steps, n)
  {
    if n > 0 {
      TalliedIsAsked(p, states, steps, n - 1);
      assert TalliedAt(p, states, steps, n - 1);
    }
  }

  /** Over whole runs, what was queued is what was asked for, and what repeated actions asked for again. */
  lemma QueuedIsAsked(p: Port, states: seq<State>, steps: seq<Step>, n: nat)
    requires PortOk(p) && Follows(p, states, steps) && n <= |steps|
    ensures states[n].added == Asked(p, states, steps, n)
    ensures states[n].again == AskedAgain(p, states, steps, n)
  {
    assert Initial(states[0]);
    forall k: nat | k < |steps| ensures TalliedAt(p, states, steps, k) {
      StepAdds(p, states[k], steps[k], states[k + 1]);
      StepAddsAgain(p, states[k], steps[k], states[k + 1]);
    }
    TalliedIsAsked(p, states, steps, n);
  }

  /** However the steps fall, an entry was run as often as it was asked for, less what is queued or in hand. */
  lemma RunsAreAsked(p: Port, states: seq<State>, steps: seq<Step>, n: nat, e: Entry)
    requires PortOk(p) && Follows(p, states, steps) && n <= |steps|
    ensures Runs(states[n].fired, e) + InHand(states[n], e) + states[n].queue[e]
         == Asked(p, states, steps, n)[e] + if e.repeated then multiset(AskedAgain(p, states, steps, n))[e] else 0
  {
    NothingFiresTwice(p, states, steps, n, e);
    QueuedIsAsked(p, states, steps, n);
  }

  lemma {:induction false} AskedFrom(p: Port, states: seq<State>, steps: seq<Step>, n: nat, e: Entry) returns (k: nat)
    requires n <= |steps| < |states| && e in Asked(p, states, steps, n)
    ensures k < n && Asks(steps[k], e.action, e.period, e.repeated) && e.due == states[k].now * p.tickMs + e.period
  {
    k := n - 1;
    if e in Asked(p, states, steps, n - 1) {
      k := AskedFrom(p, states, steps, n - 1, e);
    }
  }

  lemma {:induction false} AgainFrom(p: Port, states: seq<State>, steps: seq<Step>, n: nat, e: Entry) returns (k: nat)
    requires n <= |steps| < |states| && e in AskedAgain(p, states, steps, n)
    ensures k < n && states[k].place.Ran? && e.due == states[k].now * p.tickMs + e.period
    ensures e == states[k].place.ran.(due := e.due)
  {
    k := n - 1;
    if e in AskedAgain(p, states, steps, n - 1) {
      k := AgainFrom(p, states, steps, n - 1, e);
    }
  }

  lemma {:induction false} RanIsIn(fired: seq<Fire>, j: nat)
    requires j < |fired|
    ensures 0 < Runs(fired, fired[j].entry)
  {
    if j < |fired| - 1 {
      RanIsIn(fired[..|fired| - 1], j);
    }
  }

  /**
    Every run of an action goes back to somebody who asked for it, and it is run after the delay that was asked for,
    counted from the tick at which it was asked; one that is not repeated is due exactly then.
   */
  lemma {:induction false} RunWasAsked(p: Port, states: seq<State>, steps: seq<Step>, n: nat, j: nat) returns (k: nat)
    requires PortOk(p) && Follows(p, states, steps) && n <= |steps| && j < |states[n].fired|
    ensures
      var f := states[n].fired[j];
      && k < n && Asks(steps[k], f.entry.action, f.entry.period, f.entry.repeated)
      && states[k].now * p.tickMs + steps[k].afterMs <= f.entry.due < f.at * p.tickMs
      && (!f.entry.repeated ==> f.entry.due == states[k].now * p.tickMs + steps[k].afterMs)
    decreases n, 0
  {
    var f := states[n].fired[j];
    RunKeepsInvariant(p, states, steps, n);
    RanIsIn(states[n].fired, j);
    RunsAreAsked(p, states, steps, n, f.entry);
    if f.entry in Asked(p, states, steps, n) {
      k := AskedFrom(p, states, steps, n, f.entry);
    } else {
      var m := AgainFrom(p, states, steps, n, f.entry);
      k := RanWasAsked(p, states, steps, m);
      RunLater(p, states, steps, k, m, 0);
      ScaledOrder(states[k].now, states[m].now, p.tickMs);
    }
  }

  lemma {:induction false} RanWasAsked(p: Port, states: seq<State>, steps: seq<Step>, m: nat) returns (k: nat)
    requires PortOk(p) && Follows(p, states, steps) && m <= |steps| && states[m].place.Ran?
    ensures
      var ran := states[m].place.ran;
      k < m && Asks(steps[k], ran.action, ran.period, ran.repeated)
    decreases m, 1
  {
    RunKeepsInvariant(p, states, steps, m);
    k := RunWasAsked(p, states, steps, m, |states[m].fired| - 1);
  }

  /** Where nobody resets the timer, an action that is asked for once is run at the first tick past its delay. */
  lemma AskedRunsAtFirstTick(p: Port, states: seq<State>, steps: seq<Step>, n: nat, j: nat) returns (k: nat)
    requires PortOk(p) && FollowsPromptly(p, states, steps) && IrqIsSoon(p, steps) && NoneForThePast(steps)
    requires n <= |steps| && NoResetBefore(p, states, steps, n)
    requires j < |states[n].fired| && !states[n].fired[j].entry.repeated
    ensures
      var f := states[n].fired[j];
      && k < n && Asks(steps[k], f.entry.action, f.entry.period, false)
      && (f.at - 1) * p.tickMs <= states[k].now * p.tickMs + steps[k].afterMs < f.at * p.tickMs
  {
    k := RunWasAsked(p, states, steps, n, j);
    EveryActionAtItsFirstTick(p, states, steps, n);
  }

  lemma {:induction false} AskedStays(p: Port, states: seq<State>, steps: seq<Step>, k: nat, n: nat, e: Entry)
    requires k < n <= |steps| < |states| && e in AskedBy(p, states[k], steps[k])
    ensures e in Asked(p, states, steps, n)
  {
    if k < n - 1 {
      AskedStays(p, states, steps, k, n - 1, e);
    }
  }

  /** And it is run: once the tick past its delay is over, nothing that was asked for is still waiting. */
  lemma AskedHasRun(p: Port, states: seq<State>, steps: seq<Step>, k: nat, n: nat)
    requires PortOk(p) && FollowsPromptly(p, states, steps) && IrqIsSoon(p, steps) && NoneForThePast(steps)
    requires k < n <= |steps| && NoResetBefore(p, states, steps, n) && (steps[k].Add? || steps[k].AddIrq?)
    requires states[k].now * p.tickMs + steps[k].afterMs < (states[n].now - 1) * p.tickMs
    ensures
      var e := Entry(states[k].now * p.tickMs + steps[k].afterMs, steps[k].action, steps[k].afterMs, steps[k].repeated);
      0 < Runs(states[n].fired, e) && e !in states[n].queue && states[n].place != Running(e)
  {
    var e := Entry(states[k].now * p.tickMs + steps[k].afterMs, steps[k].action, steps[k].afterMs, steps[k].repeated);
    assert e in AskedBy(p, states[k], steps[k]);
    AskedStays(p, states, steps, k, n, e);
    RunsAreAsked(p, states, steps, n, e);
    if e in states[n].queue || states[n].place == Running(e) {
      NotLate(p, states, steps, n, e, states[n].now);
      assert false;
    }
  }
}
