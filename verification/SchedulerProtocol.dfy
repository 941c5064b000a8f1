/**
  The time scheduler as a protocol: adders, an interrupt, a one-shot timer and the scheduler's task,
  interleaved between any two of their locked regions.
 */
module SchedulerProtocol {
  import opened Wrappers

  /** A queued action: due in milliseconds, its period, and whether it is added again once it ran. */
  datatype Entry = Entry(due: int, action: nat, period: int, repeated: bool)

  /** An action that was run, with the tick it was run at. */
  datatype Fire = Fire(entry: Entry, at: nat)

  /** Where the scheduler's task is. */
  datatype Place =
    | Waiting                  // for a notification
    | Looking                  // about to see whether the queue is empty
    | Testing                  // it was not; about to compare the top with the clock
    | Taking                   // the top was due; about to pop it
    | Running(running: Entry)  // popped, about to be invoked
    | Ran(ran: Entry)          // invoked, about to be added again if repeated
    | Leaving                  // nothing due; about to see whether to arm the timer
    | Arming                   // the queue was not empty; about to arm the timer

  /**
    The scheduler's state. `now` counts ticks; `timer` is the tick the armed timer expires at. The
    last four fields are history: what callers added, what was added again, what was popped and run.
   */
  datatype State = State(queue: multiset<Entry>, now: nat, timer: Option<nat>, notified: nat, place: Place,
                         added: multiset<Entry>, again: seq<Entry>, fired: seq<Fire>)

  /** The port's tick, in milliseconds: 10 at 100 ticks a second, 1 at 1000. */
  datatype Port = Port(tickMs: nat)

  predicate PortOk(p: Port) { 0 < p.tickMs }

  function Ms(p: Port, s: State): nat { s.now * p.tickMs }

  function Ticks(p: Port, ms: nat): nat
    requires PortOk(p)
  {
    ms / p.tickMs
  }

  const IRQ_DELAY_MS := 10

  predicate IsTop(queue: multiset<Entry>, e: Entry)
  {
    e in queue && forall f | f in queue :: e.due <= f.due
  }

  /** The tick the timer is set to for the queue's top. */
  function Expiry(p: Port, now: nat, top: Entry): nat
    requires PortOk(p)
  {
    var delta := top.due - now * p.tickMs;
    var period := if delta <= 0 then 1 else Ticks(p, delta);
    now + if period == 0 then 1 else period
  }

  function NewEntry(p: Port, s: State, action: nat, afterMs: int, repeated: bool): Entry
  {
    Entry(Ms(p, s) + afterMs, action, afterMs, repeated)
  }

  datatype Step =
    | Add(action: nat, afterMs: int, repeated: bool, top: Entry)
    | AddIrq(action: nat, afterMs: int, repeated: bool)
    | LockTimesOut
    | Tick
    | Expire
    | Wake
    | Look
    | Test(top: Entry)
    | Take(top: Entry)
    | Invoke
    | AddAgain(top: Entry)
    | Leave
    | Arm(top: Entry)

  predicate Initial(s: State)
  {
    s == State(multiset{}, s.now, None, 0, Waiting, multiset{}, [], [])
  }

  /** One locked region, one unlocked read, or one move of the environment. */
  predicate Next(p: Port, s: State, step: Step, s': State)
    requires PortOk(p)
  {
    match step
    case Add(action, afterMs, repeated, top) =>
      var e := NewEntry(p, s, action, afterMs, repeated);
      var queue := s.queue + multiset{e};
      IsTop(queue, top) &&
      s' == s.(queue := queue, added := s.added + multiset{e}, timer := Some(Expiry(p, s.now, top)))
    case AddIrq(action, afterMs, repeated) =>
      var e := NewEntry(p, s, action, afterMs, repeated);
      s' == s.(queue := s.queue + multiset{e}, added := s.added + multiset{e},
               timer := Some(s.now + Ticks(p, IRQ_DELAY_MS)))
    case LockTimesOut =>
      // an adder gives up; or the task does, and takes the queue for not ready
      s' == s || (s.place == Testing && s' == s.(place := Leaving))
    case Tick => s' == s.(now := s.now + 1)
    case Expire =>
      s.timer.Some? && s.timer.value <= s.now && s' == s.(timer := None, notified := s.notified + 1)
    case Wake => s.place == Waiting && 0 < s.notified && s' == s.(place := Looking, notified := 0)
    case Look => s.place == Looking && s' == s.(place := if s.queue == multiset{} then Leaving else Testing)
    case Test(top) =>
      s.place == Testing && IsTop(s.queue, top) &&
      s' == s.(place := if top.due < Ms(p, s) then Taking else Leaving)
    case Take(top) =>
      s.place == Taking && IsTop(s.queue, top) &&
      s' == s.(place := Running(top), queue := s.queue - multiset{top})
    case Invoke =>
      s.place.Running? && s' == s.(place := Ran(s.place.running), fired := s.fired + [Fire(s.place.running, s.now)])
    case AddAgain(top) =>
      s.place.Ran? &&
      var ran := s.place.ran;
      if !ran.repeated then s' == s.(place := Looking)
      else
        var e := NewEntry(p, s, ran.action, ran.period, true);
        var queue := s.queue + multiset{e};
        IsTop(queue, top) &&
        s' == s.(place := Looking, queue := queue, again := s.again + [e],
                 timer := Some(Expiry(p, s.now, top)))
    case Leave => s.place == Leaving && s' == s.(place := if s.queue == multiset{} then Waiting else Arming)
    case Arm(top) =>
      s.place == Arming && IsTop(s.queue, top) && s' == s.(place := Waiting, timer := Some(Expiry(p, s.now, top)))
  }

  // ----- no lost wake-up

  /** While something is queued, something will bring the task to it. */
  predicate WillWake(s: State)
  {
    s.queue != multiset{} ==> s.timer.Some? || 0 < s.notified || s.place != Waiting
  }

  /** The task only looks at the top of a queue that has one. */
  predicate HasTop(s: State)
  {
    s.place == Testing || s.place == Taking || s.place == Arming ==> s.queue != multiset{}
  }

  // ----- nothing too early, nothing lost, nothing twice

  /** An action past its test is due. */
  predicate DueWhenTaken(p: Port, s: State)
  {
    && (s.place == Taking ==> exists e :: e in s.queue && e.due < Ms(p, s))
    && (s.place.Running? ==> s.place.running.due < Ms(p, s))
    && forall k | 0 <= k < |s.fired| :: s.fired[k].entry.due < s.fired[k].at * p.tickMs && s.fired[k].at <= s.now
  }

  /** How often an entry was run. */
  function Runs(fired: seq<Fire>, e: Entry): nat
  {
    if fired == [] then 0
    else Runs(fired[..|fired| - 1], e) + if fired[|fired| - 1].entry == e then 1 else 0
  }

  function InHand(s: State, e: Entry): nat
  {
    if s.place.Running? && s.place.running == e then 1 else 0
  }

  predicate Balanced(s: State, e: Entry)
  {
    s.added[e] + multiset(s.again)[e] == s.queue[e] + InHand(s, e) + Runs(s.fired, e)
  }

  /** Every entry ever queued is queued, in the task's hands, or was run: each once. */
  ghost predicate Conserved(s: State)
  {
    && (forall e :: Balanced(s, e))
    && forall e | e in s.again :: e.repeated
  }

  /** The runs of repeated actions. */
  function Repeated(fired: seq<Fire>): seq<Fire>
  {
    if fired == [] then []
    else Repeated(fired[..|fired| - 1]) + if fired[|fired| - 1].entry.repeated then [fired[|fired| - 1]] else []
  }

  /** The same action again, a period or more after it ran. */
  predicate IsAgain(p: Port, f: Fire, e: Entry)
  {
    e == f.entry.(due := e.due) && f.at * p.tickMs + f.entry.period <= e.due
  }

  /** Every run of a repeated action is followed by adding the same action again, once. */
  predicate AgainOnce(p: Port, s: State)
  {
    var runs := Repeated(s.fired);
    && |s.again| + (if s.place.Ran? && s.place.ran.repeated then 1 else 0) == |runs|
    && (forall k | 0 <= k < |s.again| :: IsAgain(p, runs[k], s.again[k]))
    && (s.place.Ran? ==> s.fired != [] && s.fired[|s.fired| - 1].entry == s.place.ran)
    && (s.fired != [] ==> s.fired[|s.fired| - 1].at <= s.now)
  }

  ghost predicate Invariant(p: Port, s: State)
  {
    WillWake(s) && HasTop(s) && DueWhenTaken(p, s) && Conserved(s) && AgainOnce(p, s)
  }

  lemma RunsGrow(fired: seq<Fire>, f: Fire)
    ensures forall e :: Runs(fired + [f], e) == Runs(fired, e) + if f.entry == e then 1 else 0
    ensures Repeated(fired + [f]) == Repeated(fired) + if f.entry.repeated then [f] else []
  {
    assert (fired + [f])[..|fired|] == fired;
  }

  lemma MsGrows(p: Port, s: State)
    ensures Ms(p, s.(now := s.now + 1)) == Ms(p, s) + p.tickMs
  {
  }

  lemma StepKeepsWakeUp(p: Port, s: State, step: Step, s': State)
    requires PortOk(p) && WillWake(s) && HasTop(s) && Next(p, s, step, s')
    ensures WillWake(s') && HasTop(s')
  {
  }

  lemma StepKeepsDue(p: Port, s: State, step: Step, s': State)
    requires PortOk(p) && DueWhenTaken(p, s) && Next(p, s, step, s')
    ensures DueWhenTaken(p, s')
  {
    MsGrows(p, s);
  }

  lemma StepKeepsBalance(p: Port, s: State, step: Step, s': State, e: Entry)
    requires PortOk(p) && Balanced(s, e) && Next(p, s, step, s')
    ensures Balanced(s', e)
  {
    if step.Invoke? {
      RunsGrow(s.fired, Fire(s.place.running, s.now));
    }
  }

  lemma StepKeepsConserved(p: Port, s: State, step: Step, s': State)
    requires PortOk(p) && Conserved(s) && Next(p, s, step, s')
    ensures Conserved(s')
  {
    forall e
      ensures Balanced(s', e)
    {
      StepKeepsBalance(p, s, step, s', e);
    }
    assert s'.again == s.again || (step.AddAgain? && s'.again[|s.again|].repeated);
  }

  lemma InTimeOrder(p: Port, a: nat, b: nat)
    requires a <= b
    ensures a * p.tickMs <= b * p.tickMs
  {
    assert 0 <= (b - a) * p.tickMs;
  }

  lemma InvokeKeepsAgain(p: Port, s: State, s': State)
    requires PortOk(p) && AgainOnce(p, s) && Next(p, s, Invoke, s')
    ensures AgainOnce(p, s')
  {
    var f := Fire(s.place.running, s.now);
    RunsGrow(s.fired, f);
    assert Repeated(s'.fired)[..|s.again|] == Repeated(s.fired);
  }

  lemma AddAgainKeepsAgain(p: Port, s: State, top: Entry, s': State)
    requires PortOk(p) && AgainOnce(p, s) && Next(p, s, AddAgain(top), s')
    ensures AgainOnce(p, s')
  {
    if s.place.ran.repeated {
      var last := s.fired[|s.fired| - 1];
      var runs := Repeated(s.fired);
      assert runs[|s.again|] == last;
      InTimeOrder(p, last.at, s.now);
      assert IsAgain(p, last, s'.again[|s.again|]);
      forall k | 0 <= k < |s'.again| ensures IsAgain(p, runs[k], s'.again[k]) {
        if k < |s.again| {
          assert s'.again[k] == s.again[k];
        }
      }
    }
  }

  lemma StepKeepsAgain(p: Port, s: State, step: Step, s': State)
    requires PortOk(p) && AgainOnce(p, s) && Next(p, s, step, s')
    ensures AgainOnce(p, s')
  {
    if step.Invoke? {
      InvokeKeepsAgain(p, s, s');
    } else if step.AddAgain? {
      AddAgainKeepsAgain(p, s, step.top, s');
    } else {
      assert s'.again == s.again && s'.fired == s.fired && !s.place.Ran? == !s'.place.Ran? && s.now <= s'.now;
    }
  }

  lemma StepKeepsInvariant(p: Port, s: State, step: Step, s': State)
    requires PortOk(p) && Invariant(p, s) && Next(p, s, step, s')
    ensures Invariant(p, s')
  {
    StepKeepsWakeUp(p, s, step, s');
    StepKeepsDue(p, s, step, s');
    StepKeepsConserved(p, s, step, s');
    StepKeepsAgain(p, s, step, s');
  }

  // ----- whole runs

  /** A run: states linked by the steps between them. */
  ghost predicate Follows(p: Port, states: seq<State>, steps: seq<Step>)
    requires PortOk(p)
  {
    && |states| == |steps| + 1
    && Initial(states[0])
    && forall k | 0 <= k < |steps| :: Next(p, states[k], steps[k], states[k + 1])
  }

  lemma {:induction false} RunKeepsInvariant(p: Port, states: seq<State>, steps: seq<Step>, k: nat)
    requires PortOk(p) && Follows(p, states, steps) && k < |states|
    ensures Invariant(p, states[k])
  {
    if k != 0 {
      RunKeepsInvariant(p, states, steps, k - 1);
      StepKeepsInvariant(p, states[k - 1], steps[k - 1], states[k]);
    }
  }

  /** In every interleaving, queued work keeps the timer armed, a notification pending, or the task at work. */
  lemma NoLostWakeUp(p: Port, states: seq<State>, steps: seq<Step>, k: nat)
    requires PortOk(p) && Follows(p, states, steps) && k < |states|
    requires states[k].queue != multiset{}
    ensures states[k].timer.Some? || 0 < states[k].notified || states[k].place != Waiting
  {
    RunKeepsInvariant(p, states, steps, k);
  }

  /** No action is run before its time, and what is popped is due no later than anything queued. */
  lemma NothingFiresEarly(p: Port, states: seq<State>, steps: seq<Step>, k: nat)
    requires PortOk(p) && Follows(p, states, steps) && k < |steps|
    ensures steps[k].Invoke? ==> states[k].place.Running? && states[k].place.running.due < Ms(p, states[k])
    ensures steps[k].Take? ==>
              && steps[k].top.due < Ms(p, states[k])
              && forall e | e in states[k].queue :: steps[k].top.due <= e.due
  {
    RunKeepsInvariant(p, states, steps, k);
    assert Next(p, states[k], steps[k], states[k + 1]);
  }

  /**
    Nothing is lost and nothing fires twice: however the steps fall, an entry was run as often as it was queued,
    by callers or again, less the times it is still queued and the one time it may be in the task's hands; one that
    is not repeated was queued by callers alone.
   */
  lemma NothingFiresTwice(p: Port, states: seq<State>, steps: seq<Step>, k: nat, e: Entry)
    requires PortOk(p) && Follows(p, states, steps) && k < |states|
    ensures
      var s := states[k];
      Runs(s.fired, e) + InHand(s, e) + s.queue[e] == s.added[e] + if e.repeated then multiset(s.again)[e] else 0
  {
    RunKeepsInvariant(p, states, steps, k);
    assert Balanced(states[k], e);
    assert e in multiset(states[k].again) ==> e in states[k].again;
  }

  /** A repeated action runs on: each of its runs but the one in hand is followed by one entry that adds the
      same action again, due a period or more after the run. */
  lemma RepeatedActionsRunOn(p: Port, states: seq<State>, steps: seq<Step>, k: nat, i: nat)
    requires PortOk(p) && Follows(p, states, steps) && k < |states| && i < |Repeated(states[k].fired)|
    ensures
      if i < |states[k].again| then IsAgain(p, Repeated(states[k].fired)[i], states[k].again[i])
      else i == |Repeated(states[k].fired)| - 1 && states[k].place.Ran?
    ensures |states[k].again| <= |Repeated(states[k].fired)|
  {
    RunKeepsInvariant(p, states, steps, k);
  }
}
