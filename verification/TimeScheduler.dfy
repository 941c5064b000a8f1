/** The scheduler's code: its locked regions, each one step of the protocol, and one turn of its task. */
module TimeScheduler {
  import opened Wrappers
  import opened SchedulerProtocol

  /** Every queue that holds something has a top. */
  lemma {:induction false} SomeTop(queue: multiset<Entry>) returns (top: Entry)
    requires queue != multiset{}
    ensures IsTop(queue, top)
    decreases |queue|
  {
    var e :| e in queue;
    var rest := queue - multiset{e};
    assert queue == rest + multiset{e};
    if rest == multiset{} {
      top := e;
    } else {
      var best := SomeTop(rest);
      top := if best.due < e.due then best else e;
    }
  }

  lemma TopDecides(queue: multiset<Entry>, top: Entry, ms: nat)
    requires IsTop(queue, top)
    ensures top.due < ms <==> HoldsDue(queue, ms)
  {
  }

  /** Something queued is due. */
  predicate HoldsDue(queue: multiset<Entry>, ms: nat)
  {
    exists e | e in queue :: e.due < ms
  }

  /** A queue falls into what is due and what is not. */
  lemma {:induction false} Partition(queue: multiset<Entry>, ms: nat)
    returns (due: multiset<Entry>, rest: multiset<Entry>)
    requires NoneNegative(queue)
    ensures Split(queue, due, rest, ms)
    decreases |queue|
  {
    due, rest := multiset{}, multiset{};
    if queue != multiset{} {
      var e :| e in queue;
      due, rest := Partition(queue - multiset{e}, ms);
      if e.due < ms {
        due := due + multiset{e};
      } else {
        rest := rest + multiset{e};
      }
      assert queue == (queue - multiset{e}) + multiset{e};
    }
  }

  predicate NoneNegative(queue: multiset<Entry>)
  {
    forall e | e in queue :: 0 <= e.period
  }

  /** Entries that are not due yet, and come back no earlier. */
  predicate Later(more: multiset<Entry>, ms: nat)
  {
    forall e | e in more :: ms <= e.due && 0 <= e.period
  }

  predicate Split(queue: multiset<Entry>, due: multiset<Entry>, rest: multiset<Entry>, ms: nat)
  {
    && queue == due + rest && NoneNegative(queue)
    && (forall e | e in due :: e.due < ms)
    && forall e | e in rest :: ms <= e.due
  }

  /** All that was due was run, as often as it was queued. */
  ghost predicate RunsAll(before: seq<Fire>, after: seq<Fire>, was: multiset<Entry>, queue: multiset<Entry>, ms: nat)
  {
    forall e: Entry | e.due < ms :: Runs(after, e) + queue[e] == Runs(before, e) + was[e]
  }

  /** One entry that was due was run, and what was added is not due yet. */
  lemma RanOne(fired: seq<Fire>, was: multiset<Entry>, due: multiset<Entry>, rest: multiset<Entry>, ran: Entry,
               more: multiset<Entry>, queue: multiset<Entry>, f: Fire, ms: nat)
    requires Split(was, due, rest, ms) && IsTop(was, ran) && HoldsDue(was, ms) && f.entry == ran
    requires Later(more, ms) && queue == was - multiset{ran} + more
    ensures Split(queue, due - multiset{ran}, rest + more, ms) && |due - multiset{ran}| < |due|
    ensures RunsAll(fired, fired + [f], was, queue, ms)
  {
    TopDecides(was, ran, ms);
    assert ran in due;
    RunsGrow(fired, f);
    forall e: Entry | e.due < ms ensures Runs(fired + [f], e) + queue[e] == Runs(fired, e) + was[e] {
      assert e !in more;
    }
  }

  lemma RunsInTurn(first: seq<Fire>, initial: multiset<Entry>, before: seq<Fire>, was: multiset<Entry>,
                   after: seq<Fire>, queue: multiset<Entry>, ms: nat)
    requires RunsAll(first, before, initial, was, ms) && RunsAll(before, after, was, queue, ms)
    ensures RunsAll(first, after, initial, queue, ms)
  {
    forall e: Entry | e.due < ms ensures Runs(after, e) + queue[e] == Runs(first, e) + initial[e] {
      assert Runs(before, e) + was[e] == Runs(first, e) + initial[e];
    }
  }

  /** An action that another adds when it is run. */
  datatype Request = Request(action: nat, afterMs: int, repeated: bool)

  predicate NoneBefore(requests: seq<Request>)
  {
    forall i | 0 <= i < |requests| :: 0 <= requests[i].afterMs
  }

  function RequestedEntry(r: Request, ms: nat): Entry { Entry(ms + r.afterMs, r.action, r.afterMs, r.repeated) }

  function Requested(requests: seq<Request>, ms: nat): multiset<Entry>
  {
    if requests == [] then multiset{}
    else
      Requested(requests[..|requests| - 1], ms) + multiset{RequestedEntry(requests[|requests| - 1], ms)}
  }

  lemma {:induction false} RequestedIsLater(requests: seq<Request>, ms: nat)
    requires NoneBefore(requests)
    ensures Later(Requested(requests, ms), ms)
  {
    if requests != [] {
      RequestedIsLater(requests[..|requests| - 1], ms);
    }
  }

  lemma RequestedNext(before: multiset<Entry>, requests: seq<Request>, i: nat, ms: nat)
    requires i < |requests|
    ensures before + Requested(requests[..i], ms) + multiset{RequestedEntry(requests[i], ms)}
         == before + Requested(requests[..i + 1], ms)
  {
    assert requests[..i + 1][..i] == requests[..i];
    JoinedInTurn(before, Requested(requests[..i], ms), multiset{RequestedEntry(requests[i], ms)});
  }

  lemma JoinedInTurn(a: multiset<Entry>, b: multiset<Entry>, c: multiset<Entry>)
    ensures (a + b) + c == a + (b + c)
  {
  }

  /** A repeated action's next entry. */
  function NextRun(e: Entry, ms: nat): multiset<Entry>
  {
    if e.repeated then multiset{Entry(ms + e.period, e.action, e.period, true)} else multiset{}
  }

  /** A round of the task's loop: neither what the action adds nor its own next run is due yet. */
  lemma RoundKeeps(fired: seq<Fire>, was: multiset<Entry>, due: multiset<Entry>, rest: multiset<Entry>, ran: Entry,
                   requests: seq<Request>, more: multiset<Entry>, queue: multiset<Entry>, f: Fire, ms: nat)
    requires Split(was, due, rest, ms) && IsTop(was, ran) && HoldsDue(was, ms) && f.entry == ran
    requires NoneBefore(requests) && more == Requested(requests, ms) + NextRun(ran, ms)
    requires queue == was - multiset{ran} + more
    ensures Split(queue, due - multiset{ran}, rest + more, ms) && |due - multiset{ran}| < |due|
    ensures RunsAll(fired, fired + [f], was, queue, ms)
  {
    RequestedIsLater(requests, ms);
    RanOne(fired, was, due, rest, ran, more, queue, f, ms);
  }

  class TimeScheduler {
    const port: Port
    /** What the actions add when they are run. */
    const adds: nat -> seq<Request>
    var queue: multiset<Entry>
    var timer: Option<nat>
    var notified: nat
    /** The clock, in ticks. */
    var now: nat
    ghost var place: Place
    ghost var added: multiset<Entry>
    ghost var again: seq<Entry>
    ghost var fired: seq<Fire>

    ghost function Value(): State
      reads this
    {
      State(queue, now, timer, notified, place, added, again, fired)
    }

    constructor (port: Port, adds: nat -> seq<Request>)
      requires PortOk(port)
      ensures this.port == port && this.adds == adds && Initial(Value())
    {
      this.port, this.adds := port, adds;
      queue, timer, notified, now := multiset{}, None, 0, 0;
      place, added, again, fired := Waiting, multiset{}, [], [];
    }

    /** An action is queued and the timer set for the top; or the lock does not come and nothing changes. */
    method AddActionDelayed(locked: bool, action: nat, afterMs: int, repeated: bool)
      returns (ok: bool, ghost top: Entry)
      requires PortOk(port)
      modifies this`queue, this`added, this`timer
      ensures ok == locked
      ensures Next(port, old(Value()), if locked then Add(action, afterMs, repeated, top) else LockTimesOut, Value())
      ensures locked ==> queue == old(queue) + multiset{Entry(now * port.tickMs + afterMs, action, afterMs, repeated)}
      ensures !locked ==> Value() == old(Value())
    {
      if !locked {
        return false, Entry(0, 0, 0, false);
      }
      var e := Entry(now * port.tickMs + afterMs, action, afterMs, repeated);
      assert e == NewEntry(port, Value(), action, afterMs, repeated);
      queue, added := queue + multiset{e}, added + multiset{e};
      assert e in queue;
      top := StartTimer();
      ok := true;
    }

    method AddActionDelayedIrq(locked: bool, action: nat, afterMs: int, repeated: bool) returns (ok: bool)
      requires PortOk(port)
      modifies this`queue, this`added, this`timer
      ensures ok == locked
      ensures Next(port, old(Value()), if locked then AddIrq(action, afterMs, repeated) else LockTimesOut, Value())
      ensures locked ==> queue == old(queue) + multiset{Entry(now * port.tickMs + afterMs, action, afterMs, repeated)}
      ensures locked ==> timer == Some(now + 10 / port.tickMs)
      ensures !locked ==> Value() == old(Value())
    {
      if !locked {
        return false;
      }
      var e := Entry(now * port.tickMs + afterMs, action, afterMs, repeated);
      queue, added := queue + multiset{e}, added + multiset{e};
      timer := Some(now + IRQ_DELAY_MS / port.tickMs);
      ok := true;
    }

    /** Sets the timer to the tick at which the top falls due, or to the next one if that is now. */
    method StartTimer() returns (ghost top: Entry)
      requires PortOk(port)
      modifies this`timer
      ensures if queue == multiset{} then timer == old(timer)
              else IsTop(queue, top) && timer == Some(Expiry(port, now, top))
    {
      top := Entry(0, 0, 0, false);
      if queue == multiset{} {
        return;
      }
      ghost var some := SomeTop(queue);
      var first :| IsTop(queue, first);
      var delta := first.due - now * port.tickMs;
      var newPeriod := if delta <= 0 then 1 else delta / port.tickMs;
      newPeriod := if newPeriod == 0 then 1 else newPeriod;
      timer := Some(now + newPeriod);
      top := first;
    }

    /** Looks whether the queue holds something, and then, with the lock, whether the top is due. */
    method IsReadyToFire(locked: bool) returns (ready: bool, ghost top: Entry)
      requires PortOk(port) && place == Looking
      modifies this`place
      ensures place == if ready then Taking else Leaving
      ensures ready ==> HoldsDue(queue, now * port.tickMs)
      ensures locked && HoldsDue(queue, now * port.tickMs) ==> ready
      ensures
        var was, looked := old(Value()), old(Value()).(place := if queue == multiset{} then Leaving else Testing);
        && Next(port, was, Look, looked)
        && if queue == multiset{} then Value() == looked
           else Next(port, looked, if locked then Test(top) else LockTimesOut, Value())
    {
      top := Entry(0, 0, 0, false);
      place := Leaving;
      if queue == multiset{} {
        return false, top;
      }
      if !locked {
        return false, top;
      }
      ghost var some := SomeTop(queue);
      var first :| IsTop(queue, first);
      TopDecides(queue, first, now * port.tickMs);
      ready, top := first.due < now * port.tickMs, first;
      place := if ready then Taking else Leaving;
    }

    /** The test as the task's loop sees it. */
    method Ready(locked: bool) returns (ready: bool)
      requires PortOk(port) && place == Looking
      modifies this`place
      ensures place == if ready then Taking else Leaving
      ensures ready ==> HoldsDue(queue, now * port.tickMs)
      ensures locked && HoldsDue(queue, now * port.tickMs) ==> ready
    {
      ghost var top;
      ready, top := IsReadyToFire(locked);
    }

    method PopTop() returns (action: Entry)
      requires PortOk(port) && place == Taking && queue != multiset{}
      modifies this`queue, this`place
      ensures Next(port, old(Value()), Take(action), Value())
    {
      ghost var some := SomeTop(queue);
      action :| IsTop(queue, action);
      queue := queue - multiset{action};
      place := Running(action);
    }

    /** What a running action adds, each a step of the protocol by itself. */
    method AddRequested(r: Request)
      requires PortOk(port)
      modifies this`queue, this`added, this`timer
      ensures queue == old(queue) + multiset{Entry(now * port.tickMs + r.afterMs, r.action, r.afterMs, r.repeated)}
      ensures added == old(added) + multiset{RequestedEntry(r, now * port.tickMs)}
    {
      var ok;
      ghost var top;
      ok, top := AddActionDelayed(true, r.action, r.afterMs, r.repeated);
    }

    method RunRequests(requests: seq<Request>)
      requires PortOk(port)
      modifies this`queue, this`added, this`timer
      ensures queue == old(queue) + Requested(requests, now * port.tickMs)
      ensures added == old(added) + Requested(requests, now * port.tickMs)
    {
      for i := 0 to |requests|
        invariant queue == old(queue) + Requested(requests[..i], now * port.tickMs)
        invariant added == old(added) + Requested(requests[..i], now * port.tickMs)
      {
        RequestedNext(old(queue), requests, i, now * port.tickMs);
        RequestedNext(old(added), requests, i, now * port.tickMs);
        AddRequested(requests[i]);
      }
      assert requests[..|requests|] == requests;
    }

    /** Runs a popped action and what it adds. */
    method InvokeAction(action: Entry)
      requires PortOk(port) && place == Running(action)
      modifies this`queue, this`added, this`timer, this`fired, this`place
      ensures fired == old(fired) + [Fire(action, now)] && place == Ran(action)
      ensures queue == old(queue) + Requested(adds(action.action), now * port.tickMs)
      ensures added == old(added) + Requested(adds(action.action), now * port.tickMs)
      ensures Next(port, Value().(place := Running(action), fired := old(fired)), Invoke, Value())
    {
      RunRequests(adds(action.action));
      fired, place := fired + [Fire(action, now)], Ran(action);
    }

    /** Pops the top and runs it. */
    method RunTop() returns (ran: Entry)
      requires PortOk(port) && place == Taking && queue != multiset{}
      modifies this`queue, this`added, this`timer, this`fired, this`place
      ensures IsTop(old(queue), ran) && fired == old(fired) + [Fire(ran, now)] && place == Ran(ran)
      ensures queue == old(queue) - multiset{ran} + Requested(adds(ran.action), now * port.tickMs)
    {
      ran := PopTop();
      InvokeAction(ran);
    }

    /** A repeated action is queued again, a period later. */
    method AddAgain(action: Entry) returns (ghost top: Entry)
      requires PortOk(port) && place == Ran(action)
      modifies this`queue, this`place, this`again, this`timer
      ensures Next(port, old(Value()), Step.AddAgain(top), Value())
      ensures queue == old(queue) +
                if !action.repeated then multiset{}
                else multiset{Entry(now * port.tickMs + action.period, action.action, action.period, true)}
    {
      top := action;
      if action.repeated {
        var e := Entry(now * port.tickMs + action.period, action.action, action.period, true);
        queue, again := queue + multiset{e}, again + [e];
        top := StartTimer();
      }
      place := Looking;
    }

    /** What adding again does to the queue. */
    method QueueAgain(action: Entry)
      requires PortOk(port) && place == Ran(action)
      modifies this`queue, this`place, this`again, this`timer
      ensures queue == old(queue) + NextRun(action, now * port.tickMs) && place == Looking
    {
      ghost var top := AddAgain(action);
      assert action.repeated || queue + multiset{} == queue;
    }

    /** Pops the top, runs it, and queues it again if it is repeated. */
    method PrefromAction() returns (ghost ran: Entry, ghost more: multiset<Entry>)
      requires PortOk(port) && place == Taking && queue != multiset{}
      modifies this`queue, this`added, this`timer, this`fired, this`place, this`again
      ensures IsTop(old(queue), ran) && fired == old(fired) + [Fire(ran, now)] && place == Looking
      ensures more == Requested(adds(ran.action), now * port.tickMs) + NextRun(ran, now * port.tickMs)
      ensures queue == old(queue) - multiset{ran} + more
    {
      ghost var was := queue;
      var action := RunTop();
      ran := action;
      ghost var requested, next := Requested(adds(ran.action), now * port.tickMs), NextRun(ran, now * port.tickMs);
      more := requested + next;
      JoinedInTurn(was - multiset{ran}, requested, next);
      QueueAgain(action);
    }

    /** An entry that was due is run. */
    method RunOne(ghost due: multiset<Entry>, ghost rest: multiset<Entry>)
      returns (ghost due': multiset<Entry>, ghost rest': multiset<Entry>)
      requires PortOk(port) && place == Taking && HoldsDue(queue, now * port.tickMs)
      requires Split(queue, due, rest, now * port.tickMs) && forall a :: NoneBefore(adds(a))
      modifies this`queue, this`added, this`timer, this`fired, this`place, this`again
      ensures place == Looking
      ensures Split(queue, due', rest', now * port.tickMs) && |due'| < |due|
      ensures RunsAll(old(fired), fired, old(queue), queue, now * port.tickMs)
    {
      ghost var ms, before, was := now * port.tickMs, fired, queue;
      ghost var ran, more;
      ran, more := PrefromAction();
      RoundKeeps(before, was, due, rest, ran, adds(ran.action), more, queue, Fire(ran, now), ms);
      due', rest' := due - multiset{ran}, rest + more;
    }

    /** One round of the task's loop, and the test for the next. */
    method Round(locked: bool, ghost due: multiset<Entry>, ghost rest: multiset<Entry>)
      returns (ready: bool, ghost due': multiset<Entry>, ghost rest': multiset<Entry>)
      requires PortOk(port) && place == Taking && HoldsDue(queue, now * port.tickMs)
      requires Split(queue, due, rest, now * port.tickMs) && forall a :: NoneBefore(adds(a))
      modifies this`queue, this`added, this`timer, this`fired, this`place, this`again
      ensures place == if ready then Taking else Leaving
      ensures ready ==> HoldsDue(queue, now * port.tickMs)
      ensures locked && HoldsDue(queue, now * port.tickMs) ==> ready
      ensures Split(queue, due', rest', now * port.tickMs) && |due'| < |due|
      ensures RunsAll(old(fired), fired, old(queue), queue, now * port.tickMs)
    {
      due', rest' := RunOne(due, rest);
      ready := Ready(locked);
    }

    /** Runs what is due until nothing is or a lock does not come, with the clock standing still. */
    method RunDue(locks: seq<bool>)
      requires PortOk(port) && place == Looking && NoneNegative(queue) && forall a :: NoneBefore(adds(a))
      modifies this`queue, this`added, this`timer, this`fired, this`place, this`again
      ensures place == Leaving
      ensures (forall i | 0 <= i < |locks| :: locks[i]) ==> !HoldsDue(queue, now * port.tickMs)
      ensures RunsAll(old(fired), fired, old(queue), queue, now * port.tickMs)
    {
      ghost var due, rest := Partition(queue, now * port.tickMs);
      var k := 0;
      var locked := k < |locks| ==> locks[k];
      var ready := Ready(locked);
      while ready
        invariant place == (if ready then Taking else Leaving) && (ready ==> HoldsDue(queue, now * port.tickMs))
        invariant locked == (k < |locks| ==> locks[k]) && (locked && HoldsDue(queue, now * port.tickMs) ==> ready)
        invariant Split(queue, due, rest, now * port.tickMs)
        invariant RunsAll(old(fired), fired, old(queue), queue, now * port.tickMs)
        decreases |due|
      {
        ghost var before, was := fired, queue;
        k := k + 1;
        locked := k < |locks| ==> locks[k];
        ready, due, rest := Round(locked, due, rest);
        RunsInTurn(old(fired), old(queue), before, was, fired, queue, now * port.tickMs);
      }
    }

    method Wake()
      requires PortOk(port) && place == Waiting && 0 < notified
      modifies this`place, this`notified
      ensures Next(port, old(Value()), Step.Wake, Value())
    {
      place, notified := Looking, 0;
    }

    /** The task sets the timer for what is left, and waits. */
    method Settle() returns (ghost top: Entry)
      requires PortOk(port) && place == Leaving
      modifies this`place, this`timer
      ensures
        var left := old(Value()).(place := if queue == multiset{} then Waiting else Arming);
        && Next(port, old(Value()), Leave, left)
        && if queue == multiset{} then Value() == left else Next(port, left, Arm(top), Value())
    {
      top := StartTimer();
      place := Waiting;
    }

    /**
      The task, woken: runs what is due, each entry as often as it was queued, and leaves the timer set for the rest;
      nothing due is left unless a lock did not come.
     */
    method Turn(locks: seq<bool>)
      requires PortOk(port) && place == Waiting && 0 < notified
      requires NoneNegative(queue) && forall a :: NoneBefore(adds(a))
      modifies this`queue, this`added, this`timer, this`fired, this`place, this`again, this`notified
      ensures place == Waiting && notified == 0
      ensures (forall i | 0 <= i < |locks| :: locks[i]) ==> !HoldsDue(queue, now * port.tickMs)
      ensures RunsAll(old(fired), fired, old(queue), queue, now * port.tickMs)
      ensures queue != multiset{} ==> exists top :: IsTop(queue, top) && timer == Some(Expiry(port, now, top))
    {
      Wake();
      RunDue(locks);
      ghost var top := Settle();
    }

    /** The timer calls back. */
    method Timer()
      requires PortOk(port) && timer.Some? && timer.value <= now
      modifies this`timer, this`notified
      ensures Next(port, old(Value()), Expire, Value())
    {
      timer, notified := None, notified + 1;
    }
  }
}
