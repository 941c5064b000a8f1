/** One button of the matrix: debouncing, holding, and the events it reports over time. */
module Button {
  import opened Wrappers

  datatype Action = PRESSED | STILL_PRESSED | RELEASED

  datatype Event = Event(action: Action, durationMs: int)

  datatype Button = Button(durationMs: nat, cycles: nat, previousTick: nat, action: Action)

  /** The debounce and hold times. */
  datatype Config = Config(debounceMs: nat, stillPressedMs: nat)

  /**
    A sample of the line, with the clock as it is read first, and as it is read again for a reset.
    The clock is the tick count in milliseconds, which a whole number of them to the tick makes exact.
   */
  datatype Sample = Sample(pressed: bool, now: nat, later: nat)

  const FRESH := Button(0, 0, 0, RELEASED)

  function Reset(b: Button, now: nat): Button { b.(durationMs := 0, previousTick := now) }

  function Press(b: Button, now: nat): Button { Reset(b.(action := PRESSED, cycles := 0), now) }

  function Release(b: Button): Button { b.(action := RELEASED) }

  function IncrementDuration(b: Button, now: nat): Button
    requires b.previousTick <= now
  {
    b.(durationMs := b.durationMs + (now - b.previousTick), previousTick := now)
  }

  /** What a sample makes of a button, and the event it reports, if any. */
  function Handle(c: Config, b: Button, s: Sample): (r: (Button, seq<Event>))
    requires b.previousTick <= s.now <= s.later
    ensures |r.1| <= 1
  {
    if b.action == RELEASED && s.pressed then (Press(b, s.now), [])
    else if b.action == PRESSED && s.pressed then
      var b' := IncrementDuration(b, s.now);
      if b'.durationMs > c.debounceMs then (Reset(b'.(action := STILL_PRESSED), s.later), [Event(PRESSED, 0)])
      else (b', [])
    else if b.action == STILL_PRESSED && s.pressed then
      var b' := IncrementDuration(b, s.now);
      if b'.durationMs > c.stillPressedMs then
        (Reset(b'.(cycles := b'.cycles + 1), s.later), [Event(STILL_PRESSED, (b'.cycles + 1) * c.stillPressedMs)])
      else (b', [])
    else if b.action == STILL_PRESSED then
      (Release(b), [Event(RELEASED, b.cycles * c.stillPressedMs + b.durationMs)])
    else if b.action == PRESSED then (Release(b), [])
    else (b, [])
  }

  // ----- runs of samples

  /** The clock never goes back. */
  predicate Ordered(samples: seq<Sample>)
  {
    && (forall k | 0 <= k < |samples| :: samples[k].now <= samples[k].later)
    && (forall k | 0 < k < |samples| :: samples[k - 1].later <= samples[k].now)
  }

  /** The button after the first `k` samples, started fresh. */
  function After(c: Config, samples: seq<Sample>, k: nat): (b: Button)
    requires Ordered(samples) && k <= |samples|
    ensures if k == 0 then b == FRESH else b.previousTick <= samples[k - 1].later
    ensures b.action == PRESSED ==> b.cycles == 0
    decreases k, 0
  {
    if k == 0 then FRESH else Handle(c, Before(c, samples, k - 1), samples[k - 1]).0
  }

  /** The button as sample `k` finds it. */
  function Before(c: Config, samples: seq<Sample>, k: nat): (b: Button)
    requires Ordered(samples) && k < |samples|
    ensures b.previousTick <= samples[k].now <= samples[k].later && (b.action == PRESSED ==> b.cycles == 0)
    decreases k, 1
  {
    assert k > 0 ==> samples[k - 1].later <= samples[k].now;
    After(c, samples, k)
  }

  /** What sample `k` made the button report. */
  function Reported(c: Config, samples: seq<Sample>, k: nat): (events: seq<Event>)
    requires Ordered(samples) && k < |samples|
    ensures |events| <= 1
  {
    Handle(c, Before(c, samples, k), samples[k]).1
  }

  /** Everything the first `k` samples made it report. */
  function Events(c: Config, samples: seq<Sample>, k: nat): seq<Event>
    requires Ordered(samples) && k <= |samples|
  {
    if k == 0 then [] else Events(c, samples, k - 1) + Reported(c, samples, k - 1)
  }

  // ----- the order of events

  /** Between presses, or so many hold periods into one. */
  datatype Held = Up | Down(cycles: nat)

  /** What may be reported next: a press when up; when down the next hold period, or the release. */
  function Next(c: Config, h: Held, e: Event): Option<Held>
  {
    match e.action
    case PRESSED => if h == Up && e.durationMs == 0 then Some(Down(0)) else None
    case STILL_PRESSED =>
      if h.Down? && e.durationMs == (h.cycles + 1) * c.stillPressedMs then Some(Down(h.cycles + 1)) else None
    case RELEASED => if h.Down? && h.cycles * c.stillPressedMs <= e.durationMs then Some(Up) else None
  }

  /** Where presses, each with its hold periods in order and then a release, lead; None when they do not. */
  function Leads(c: Config, events: seq<Event>): Option<Held>
  {
    if events == [] then Some(Up)
    else
      match Leads(c, events[..|events| - 1])
      case None => None
      case Some(h) => Next(c, h, events[|events| - 1])
  }

  function HeldBy(b: Button): Held
  {
    if b.action == STILL_PRESSED then Down(b.cycles) else Up
  }

  lemma HandleKeepsOrder(c: Config, b: Button, s: Sample)
    requires b.previousTick <= s.now <= s.later && (b.action == PRESSED ==> b.cycles == 0)
    ensures
      var (b', events) := Handle(c, b, s);
      if events == [] then HeldBy(b') == HeldBy(b) else Next(c, HeldBy(b), events[0]) == Some(HeldBy(b'))
  {
  }

  /** Over every run of samples, a button's events come in order. */
  lemma {:induction false} EventsAreWellOrdered(c: Config, samples: seq<Sample>, k: nat)
    requires Ordered(samples) && k <= |samples|
    ensures Leads(c, Events(c, samples, k)) == Some(HeldBy(After(c, samples, k)))
  {
    if k > 0 {
      EventsAreWellOrdered(c, samples, k - 1);
      HandleKeepsOrder(c, Before(c, samples, k - 1), samples[k - 1]);
      var first, all := Events(c, samples, k - 1), Events(c, samples, k);
      if Reported(c, samples, k - 1) == [] {
        assert all == first;
      } else {
        assert all[..|all| - 1] == first && all[|all| - 1] == Reported(c, samples, k - 1)[0];
      }
    }
  }

  // ----- the times in events

  /** The line was down at every sample from `j` up to `k`. */
  predicate DownFrom(samples: seq<Sample>, j: nat, k: nat)
  {
    j < k <= |samples| && forall i | j <= i < k :: samples[i].pressed
  }

  /** While a press is being debounced, its duration is the time since the first sample that was down. */
  lemma {:induction false} DebouncedSince(c: Config, samples: seq<Sample>, k: nat) returns (j: nat)
    requires Ordered(samples) && k <= |samples| && After(c, samples, k).action == PRESSED
    ensures DownFrom(samples, j, k)
    ensures
      var b := After(c, samples, k);
      samples[j].now <= b.previousTick && b.durationMs == (b.previousTick - samples[j].now)
  {
    if Before(c, samples, k - 1).action == RELEASED {
      j := k - 1;
    } else {
      j := DebouncedSince(c, samples, k - 1);
    }
  }

  /** A press is reported only after the line was down without a break for longer than the debounce time. */
  lemma PressIsDebounced(c: Config, samples: seq<Sample>, k: nat) returns (j: nat)
    requires Ordered(samples) && k < |samples| && Reported(c, samples, k) == [Event(PRESSED, 0)]
    ensures DownFrom(samples, j, k + 1)
    ensures c.debounceMs < (samples[k].now - samples[j].now)
  {
    j := DebouncedSince(c, samples, k);
  }

  /** From a released button on, samples that are down and not yet past the debounce time are a press in the making. */
  lemma {:induction false} StillDebouncing(c: Config, samples: seq<Sample>, j: nat, k: nat)
    requires Ordered(samples) && DownFrom(samples, j, k) && Before(c, samples, j).action == RELEASED
    requires samples[k - 1].now - samples[j].now <= c.debounceMs
    ensures
      var b := After(c, samples, k);
      && b.action == PRESSED && b.previousTick == samples[k - 1].now
      && b.durationMs == samples[k - 1].now - samples[j].now
    ensures Reported(c, samples, k - 1) == []
  {
    if k - 1 > j {
      assert samples[k - 2].now <= samples[k - 2].later <= samples[k - 1].now;
      StillDebouncing(c, samples, j, k - 1);
    }
  }

  /** Then a line that stays down is a press at the first sample past the debounce time, and not before. */
  lemma {:induction false} HeldLinePresses(c: Config, samples: seq<Sample>, j: nat, k: nat) returns (i: nat)
    requires Ordered(samples) && DownFrom(samples, j, k + 1) && Before(c, samples, j).action == RELEASED
    requires c.debounceMs < samples[k].now - samples[j].now
    ensures j < i <= k && Reported(c, samples, i) == [Event(PRESSED, 0)]
    ensures c.debounceMs < samples[i].now - samples[j].now
    ensures forall m | j <= m < i :: samples[m].now - samples[j].now <= c.debounceMs && Reported(c, samples, m) == []
  {
    if samples[k - 1].now - samples[j].now <= c.debounceMs {
      i := k;
      forall m | j <= m < i
        ensures samples[m].now - samples[j].now <= c.debounceMs && Reported(c, samples, m) == []
      {
        NowGrows(samples, m, k - 1);
        StillDebouncing(c, samples, j, m + 1);
      }
      StillDebouncing(c, samples, j, k);
    } else {
      i := HeldLinePresses(c, samples, j, k - 1);
    }
  }

  lemma {:induction false} NowGrows(samples: seq<Sample>, m: nat, k: nat)
    requires Ordered(samples) && m <= k < |samples|
    ensures samples[m].now <= samples[k].now
  {
    if m < k {
      NowGrows(samples, m, k - 1);
      assert samples[k - 1].now <= samples[k - 1].later <= samples[k].now;
    }
  }

  /** A press that is let go within the debounce time is not reported, and the button is up again. */
  lemma ShortPressIsIgnored(c: Config, samples: seq<Sample>, j: nat, k: nat)
    requires Ordered(samples) && k < |samples| && DownFrom(samples, j, k) && !samples[k].pressed
    requires Before(c, samples, j).action == RELEASED && samples[k - 1].now - samples[j].now <= c.debounceMs
    ensures Reported(c, samples, k) == [] && After(c, samples, k + 1).action == RELEASED
  {
    StillDebouncing(c, samples, j, k);
  }

  /** A line that is up at a button that is not pressed reports nothing, and leaves it so. */
  lemma UpStaysUp(c: Config, samples: seq<Sample>, k: nat)
    requires Ordered(samples) && k < |samples| && !samples[k].pressed && Before(c, samples, k).action == RELEASED
    ensures Reported(c, samples, k) == [] && After(c, samples, k + 1).action == RELEASED
  {
  }

  // ----- holding and letting go

  /** Sample `j` reported a press or a hold period. */
  predicate HoldReported(c: Config, samples: seq<Sample>, j: nat)
    requires Ordered(samples) && j < |samples|
  {
    Reported(c, samples, j) != [] && Reported(c, samples, j)[0].action != RELEASED
  }

  lemma HoldStarts(c: Config, samples: seq<Sample>, j: nat)
    requires Ordered(samples) && j < |samples| && HoldReported(c, samples, j)
    ensures
      var b := After(c, samples, j + 1);
      && b.action == STILL_PRESSED && b.durationMs == 0 && b.previousTick == samples[j].later
      && Reported(c, samples, j)[0].durationMs == b.cycles * c.stillPressedMs
  {
  }

  /** After such a report, samples that are down and not yet past the hold time report nothing and add up. */
  lemma {:induction false} StillHolding(c: Config, samples: seq<Sample>, j: nat, k: nat)
    requires Ordered(samples) && k <= |samples| && j < k && HoldReported(c, samples, j) && DownFrom(samples, j, k)
    requires samples[k - 1].now - samples[j].later <= c.stillPressedMs
    ensures
      var b := After(c, samples, k);
      && b.action == STILL_PRESSED && Reported(c, samples, j)[0].durationMs == b.cycles * c.stillPressedMs
      && b.previousTick == (if k - 1 == j then samples[j].later else samples[k - 1].now)
      && b.durationMs == b.previousTick - samples[j].later
    ensures k - 1 > j ==> Reported(c, samples, k - 1) == []
  {
    if k - 1 == j {
      HoldStarts(c, samples, j);
    } else {
      assert samples[k - 2].now <= samples[k - 2].later <= samples[k - 1].now;
      StillHolding(c, samples, j, k - 1);
      assert After(c, samples, k - 1).durationMs <= samples[k - 1].now - samples[j].later;
    }
  }

  /** A line that stays down reports a hold period more at the first sample past the hold time, and not before. */
  lemma {:induction false} HeldLineRepeats(c: Config, samples: seq<Sample>, j: nat, k: nat) returns (i: nat)
    requires Ordered(samples) && j < k < |samples| && HoldReported(c, samples, j) && DownFrom(samples, j, k + 1)
    requires c.stillPressedMs < samples[k].now - samples[j].later
    ensures j < i <= k && c.stillPressedMs < samples[i].now - samples[j].later
    ensures Reported(c, samples, i)
         == [Event(STILL_PRESSED, Reported(c, samples, j)[0].durationMs + c.stillPressedMs)]
    ensures forall m | j < m < i ::
              samples[m].now - samples[j].later <= c.stillPressedMs && Reported(c, samples, m) == []
  {
    if k - 1 == j || samples[k - 1].now - samples[j].later <= c.stillPressedMs {
      i := k;
      forall m | j < m < i
        ensures samples[m].now - samples[j].later <= c.stillPressedMs && Reported(c, samples, m) == []
      {
        NowGrows(samples, m, k - 1);
        StillHolding(c, samples, j, m + 1);
      }
      HoldEnds(c, samples, j, k);
    } else {
      i := HeldLineRepeats(c, samples, j, k - 1);
    }
  }

  /** The next sample that is down and past the hold time. */
  lemma HoldEnds(c: Config, samples: seq<Sample>, j: nat, k: nat)
    requires Ordered(samples) && j < k < |samples| && HoldReported(c, samples, j) && DownFrom(samples, j, k + 1)
    requires samples[k - 1].now - samples[j].later <= c.stillPressedMs < samples[k].now - samples[j].later
    ensures Reported(c, samples, k)
         == [Event(STILL_PRESSED, Reported(c, samples, j)[0].durationMs + c.stillPressedMs)]
  {
    StillHolding(c, samples, j, k);
    var b := Before(c, samples, k);
    assert (b.cycles + 1) * c.stillPressedMs == b.cycles * c.stillPressedMs + c.stillPressedMs;
  }

  /**
    The first sample that is up reports the release: the hold periods so far, and the time from the last report up to
    the last sample that was down.
   */
  lemma ReleaseIsReported(c: Config, samples: seq<Sample>, j: nat, k: nat)
    requires Ordered(samples) && j < k < |samples| && HoldReported(c, samples, j) && DownFrom(samples, j, k)
    requires samples[k - 1].now - samples[j].later <= c.stillPressedMs && !samples[k].pressed
    ensures
      var held := if k - 1 == j then 0 else samples[k - 1].now - samples[j].later;
      Reported(c, samples, k) == [Event(RELEASED, Reported(c, samples, j)[0].durationMs + held)]
    ensures After(c, samples, k + 1).action == RELEASED
  {
    StillHolding(c, samples, j, k);
  }

  // ----- how long a press may last

  /** The time since the press was reported covers the hold periods and the duration. */
  predicate HoldFits(c: Config, b: Button, since: nat)
  {
    since <= b.previousTick && b.cycles * c.stillPressedMs + b.durationMs <= b.previousTick - since
  }

  /** A held button was held before, or the sample ends its debouncing and reports the press. */
  lemma HoldGoesOn(c: Config, b: Button, s: Sample)
    requires b.previousTick <= s.now <= s.later && (b.action == PRESSED ==> b.cycles == 0)
    requires Handle(c, b, s).0.action == STILL_PRESSED
    ensures s.pressed
    ensures if b.action == PRESSED then
              Handle(c, b, s).1 == [Event(PRESSED, 0)] && HoldFits(c, Handle(c, b, s).0, s.now)
            else
              b.action == STILL_PRESSED
              && forall since: nat :: HoldFits(c, b, since) ==> HoldFits(c, Handle(c, b, s).0, since)
  {
    assert (b.cycles + 1) * c.stillPressedMs == b.cycles * c.stillPressedMs + c.stillPressedMs;
  }

  /** While a button is held, its hold periods and its duration fit in the time since its press was reported. */
  lemma {:induction false} HeldSince(c: Config, samples: seq<Sample>, k: nat) returns (j: nat)
    requires Ordered(samples) && k <= |samples|
    ensures
      After(c, samples, k).action == STILL_PRESSED ==>
        && DownFrom(samples, j, k) && Reported(c, samples, j) == [Event(PRESSED, 0)]
        && HoldFits(c, After(c, samples, k), samples[j].now)
  {
    j := 0;
    if After(c, samples, k).action == STILL_PRESSED {
      HoldGoesOn(c, Before(c, samples, k - 1), samples[k - 1]);
      if Before(c, samples, k - 1).action == PRESSED {
        j := k - 1;
      } else {
        j := HeldSince(c, samples, k - 1);
      }
    }
  }

  /** A release reports no more than the time since the press was reported. */
  lemma ReleaseIsNotTooLong(c: Config, samples: seq<Sample>, k: nat) returns (j: nat)
    requires Ordered(samples) && k < |samples|
    ensures
      Reported(c, samples, k) != [] && Reported(c, samples, k)[0].action == RELEASED ==>
        && DownFrom(samples, j, k) && Reported(c, samples, j) == [Event(PRESSED, 0)]
        && Reported(c, samples, k)[0].durationMs <= samples[k].now - samples[j].now
  {
    j := HeldSince(c, samples, k);
  }
}

/** The button matrix: every scan samples each button once. */
module InputGrid {
  import opened Button

  /** A reported event and the button it is about. */
  datatype ButtonEntry = ButtonEntry(index: nat, event: Event)

  /** The button at row `y` and column `x`, counted column by column. */
  function IndexOf(rows: nat, x: nat, y: nat): nat { x * rows + y }

  /** The row and the column of an index. */
  function Row(rows: nat, i: nat): (y: nat)
    requires 0 < rows
    ensures y < rows
  {
    if i < rows then i else Row(rows, i - rows)
  }

  function Column(rows: nat, i: nat): nat
    requires 0 < rows
  {
    if i < rows then 0 else 1 + Column(rows, i - rows)
  }

  lemma OneColumnMore(rows: nat, columns: nat)
    requires 0 < columns
    ensures rows * columns == rows * (columns - 1) + rows && 0 <= rows * (columns - 1)
  {
  }

  /** Every index has one place, and every place one index within the matrix. */
  lemma {:induction false} PlaceOfIndex(rows: nat, columns: nat, x: nat, y: nat)
    requires x < columns && y < rows
    ensures IndexOf(rows, x, y) == x * rows + y < rows * columns
    ensures Row(rows, IndexOf(rows, x, y)) == y && Column(rows, IndexOf(rows, x, y)) == x
    decreases x
  {
    OneColumnMore(rows, columns);
    if x > 0 {
      PlaceOfIndex(rows, columns - 1, x - 1, y);
      OneColumnMore(rows, x);
      assert IndexOf(rows, x, y) == IndexOf(rows, x - 1, y) + rows;
    }
  }

  lemma {:induction false} IndexOfPlace(rows: nat, columns: nat, i: nat)
    requires 0 < rows && i < rows * columns
    ensures Column(rows, i) < columns && IndexOf(rows, Column(rows, i), Row(rows, i)) == i
    decreases i
  {
    if rows <= i {
      OneColumnMore(rows, columns);
      IndexOfPlace(rows, columns - 1, i - rows);
      var x := Column(rows, i - rows);
      assert (x + 1) * rows == x * rows + rows;
    }
  }

  /** What the log says about one button. */
  function EventsOf(log: seq<ButtonEntry>, index: nat): seq<Event>
  {
    if log == [] then []
    else EventsOf(log[..|log| - 1], index) + if log[|log| - 1].index == index then [log[|log| - 1].event] else []
  }

  lemma EventsOfNext(log: seq<ButtonEntry>, e: ButtonEntry, index: nat)
    ensures EventsOf(log + [e], index) == EventsOf(log, index) + if e.index == index then [e.event] else []
  {
    assert (log + [e])[..|log|] == log;
  }

  /** The samples of one button, scan by scan. */
  function SamplesOf(scans: seq<seq<Sample>>, i: nat, buttons: nat): (samples: seq<Sample>)
    requires i < buttons && forall n | 0 <= n < |scans| :: |scans[n]| == buttons
    ensures |samples| == |scans| && forall n | 0 <= n < |scans| :: samples[n] == scans[n][i]
  {
    seq(|scans|, n requires 0 <= n < |scans| => scans[n][i])
  }

  /** The grid after the first `n` scans. */
  ghost predicate ScansDone(c: Config, scans: seq<seq<Sample>>, now: seq<Button>, log: seq<ButtonEntry>, n: nat)
  {
    && n <= |scans| && (forall m | 0 <= m < |scans| :: |scans[m]| == |now|)
    && forall i: nat | i < |now| ::
         && Ordered(SamplesOf(scans, i, |now|))
         && now[i] == After(c, SamplesOf(scans, i, |now|), n)
         && EventsOf(log, i) == Events(c, SamplesOf(scans, i, |now|), n)
  }

  lemma ScansLeadOn(c: Config, scans: seq<seq<Sample>>, now: seq<Button>, log: seq<ButtonEntry>, n: nat)
    requires ScansDone(c, scans, now, log, n) && n < |scans|
    ensures InOrder(now, scans[n])
  {
    forall i: nat | i < |now| ensures now[i].previousTick <= scans[n][i].now <= scans[n][i].later {
      assert now[i] == Before(c, SamplesOf(scans, i, |now|), n);
    }
  }

  lemma ScanDone(c: Config, scans: seq<seq<Sample>>, was: seq<Button>, before: seq<ButtonEntry>,
                 now: seq<Button>, log: seq<ButtonEntry>, n: nat)
    requires ScansDone(c, scans, was, before, n) && n < |scans| && |now| == |was| && InOrder(was, scans[n])
    requires forall i: nat | i < |was| ::
               && now[i] == Handle(c, was[i], scans[n][i]).0
               && EventsOf(log, i) == EventsOf(before, i) + Handle(c, was[i], scans[n][i]).1
    ensures ScansDone(c, scans, now, log, n + 1)
  {
    forall i: nat | i < |now|
      ensures now[i] == After(c, SamplesOf(scans, i, |now|), n + 1)
      ensures EventsOf(log, i) == Events(c, SamplesOf(scans, i, |now|), n + 1)
    {
      assert was[i] == Before(c, SamplesOf(scans, i, |now|), n);
    }
  }

  class InputGrid {
    const rows: nat
    const columns: nat
    const config: Config
    const states: array<Button>
    /** Everything the callback was told. */
    var log: seq<ButtonEntry>

    ghost predicate Valid()
      reads this
    {
      states.Length == rows * columns
    }

    constructor (rows: nat, columns: nat, config: Config)
      ensures Valid() && fresh(states) && log == []
      ensures this.rows == rows && this.columns == columns && this.config == config
      ensures forall i | 0 <= i < states.Length :: states[i] == FRESH
    {
      this.rows, this.columns, this.config := rows, columns, config;
      states := new Button[rows * columns](i => FRESH);
      log := [];
    }

    method HandleButton(index: nat, s: Sample)
      requires Valid() && index < states.Length && states[index].previousTick <= s.now <= s.later
      modifies this`log, states
      ensures states[..] == old(states[..])[index := Handle(config, old(states[index]), s).0]
      ensures log == Logged(old(log), index, Handle(config, old(states[index]), s).1)
    {
      var (b, events) := Handle(config, states[index], s);
      states[index] := b;
      if events != [] {
        log := log + [ButtonEntry(index, events[0])];
      }
    }

    /** The scan comes to the button at row `y` and column `x`. */
    method ScanButton(x: nat, y: nat, samples: seq<Sample>, ghost was: seq<Button>, ghost before: seq<ButtonEntry>)
      requires Valid() && x < columns && y < rows
      requires ScannedUpTo(config, rows, columns, samples, was, before, states[..], log, x, y)
      requires SaidUpTo(rows, before, log, x, y)
      modifies this`log, states
      ensures ScannedUpTo(config, rows, columns, samples, was, before, states[..], log, x + 1, y)
      ensures SaidUpTo(rows, before, log, x + 1, y)
    {
      ghost var now, said := states[..], log;
      NotYetScanned(config, rows, columns, samples, was, before, now, said, x, y);
      var index := IndexOf(rows, x, y);
      ghost var events := Handle(config, states[index], samples[index]).1;
      HandleButton(index, samples[index]);
      assert SaidUpTo(rows, before, log, x + 1, y) by {
        SaidNext(rows, columns, before, said, events, x, y);
      }
      ScanNext(config, rows, columns, samples, was, before, now, said, x, y);
    }

    /** A scan, row by row: every button gets its own sample, once, and nothing else. */
    method Tick(samples: seq<Sample>)
      requires Valid() && |samples| == states.Length && InOrder(states[..], samples)
      modifies this`log, states
      ensures forall i | 0 <= i < states.Length ::
                && states[i] == Handle(config, old(states[i]), samples[i]).0
                && EventsOf(log, i) == EventsOf(old(log), i) + Handle(config, old(states[i]), samples[i]).1
      ensures SaidUpTo(rows, old(log), log, 0, rows)
    {
      ghost var was, before := states[..], log;
      for y := 0 to rows
        invariant ScannedUpTo(config, rows, columns, samples, was, before, states[..], log, 0, y)
        invariant SaidUpTo(rows, before, log, 0, y)
      {
        for x := 0 to columns
          invariant ScannedUpTo(config, rows, columns, samples, was, before, states[..], log, x, y)
          invariant SaidUpTo(rows, before, log, x, y)
        {
          ScanButton(x, y, samples, was, before);
        }
        RowIsDone(config, rows, columns, samples, was, before, states[..], log, y);
        RowIsSaid(rows, columns, before, log, y);
      }
      AllRowsDone(config, rows, columns, samples, was, before, states[..], log);
    }

    /** The task: one scan after the other. Every button becomes and reports what its own samples come to. */
    method Task(scans: seq<seq<Sample>>)
      requires Valid() && log == [] && forall i | 0 <= i < states.Length :: states[i] == FRESH
      requires forall n | 0 <= n < |scans| :: |scans[n]| == states.Length
      requires forall i: nat | i < states.Length :: Ordered(SamplesOf(scans, i, states.Length))
      modifies this`log, states
      ensures forall i: nat | i < states.Length ::
                && states[i] == After(config, SamplesOf(scans, i, states.Length), |scans|)
                && EventsOf(log, i) == Events(config, SamplesOf(scans, i, states.Length), |scans|)
    {
      for n := 0 to |scans|
        invariant ScansDone(config, scans, states[..], log, n)
      {
        ghost var was, before := states[..], log;
        ScansLeadOn(config, scans, was, before, n);
        Tick(scans[n]);
        ScanDone(config, scans, was, before, states[..], log, n);
      }
    }
  }

  // ----- the scan as it goes

  /** Events in the order of the scan: by rows, and by columns within a row. */
  predicate RowByRow(rows: nat, log: seq<ButtonEntry>)
    requires 0 < rows
  {
    forall a, b | 0 <= a < b < |log| ::
      var i, j := log[a].index, log[b].index;
      Row(rows, i) < Row(rows, j) || (Row(rows, i) == Row(rows, j) && Column(rows, i) < Column(rows, j))
  }

  /** What a scan said after `before` is in its order, and is about buttons it has come to. */
  predicate SaidUpTo(rows: nat, before: seq<ButtonEntry>, log: seq<ButtonEntry>, x: nat, y: nat)
  {
    before <= log &&
    (rows == 0 ||
     var said := log[|before|..];
     RowByRow(rows, said) && forall a | 0 <= a < |said| :: IsDone(rows, x, y, said[a].index))
  }

  lemma SaidNext(rows: nat, columns: nat, before: seq<ButtonEntry>, log: seq<ButtonEntry>, events: seq<Event>,
                 x: nat, y: nat)
    requires x < columns && y < rows && |events| <= 1 && SaidUpTo(rows, before, log, x, y)
    ensures SaidUpTo(rows, before, Logged(log, IndexOf(rows, x, y), events), x + 1, y)
  {
    PlaceOfIndex(rows, columns, x, y);
    if events != [] {
      var e := ButtonEntry(IndexOf(rows, x, y), events[0]);
      assert (log + [e])[|before|..] == log[|before|..] + [e];
    }
  }

  lemma RowIsSaid(rows: nat, columns: nat, before: seq<ButtonEntry>, log: seq<ButtonEntry>, y: nat)
    requires y < rows && SaidUpTo(rows, before, log, columns, y)
    ensures SaidUpTo(rows, before, log, 0, y + 1)
  {
    var y' := y + 1;
    forall a | 0 <= a < |log[|before|..]| ensures IsDone(rows, 0, y', log[|before|..][a].index) {
      assert IsDone(rows, columns, y, log[|before|..][a].index);
    }
  }

  predicate InOrder(states: seq<Button>, samples: seq<Sample>)
    requires |samples| == |states|
  {
    forall i | 0 <= i < |states| :: states[i].previousTick <= samples[i].now <= samples[i].later
  }

  function Logged(log: seq<ButtonEntry>, index: nat, events: seq<Event>): seq<ButtonEntry>
  {
    if events == [] then log else log + [ButtonEntry(index, events[0])]
  }

  lemma LoggedFor(log: seq<ButtonEntry>, index: nat, events: seq<Event>, i: nat)
    requires |events| <= 1
    ensures EventsOf(Logged(log, index, events), i) == EventsOf(log, i) + if i == index then events else []
  {
    if events != [] {
      EventsOfNext(log, ButtonEntry(index, events[0]), i);
      assert events == [events[0]];
    }
  }

  /** What became of one button, whether or not the scan has come to it. */
  predicate Treated(c: Config, s: Sample, was: Button, now: Button, before: seq<Event>, after: seq<Event>, done: bool)
    requires was.previousTick <= s.now <= s.later
  {
    if done then now == Handle(c, was, s).0 && after == before + Handle(c, was, s).1
    else now == was && after == before
  }

  /** The scan is done with all rows above `y`, and with row `y` up to column `x`. */
  predicate ScannedUpTo(c: Config, rows: nat, columns: nat, samples: seq<Sample>, was: seq<Button>,
                        before: seq<ButtonEntry>, now: seq<Button>, log: seq<ButtonEntry>, x: nat, y: nat)
  {
    && |was| == |now| == |samples| == rows * columns && InOrder(was, samples)
    && (rows == 0 || forall i | 0 <= i < |was| :: TreatedAt(c, rows, samples, was, before, now, log, x, y, i))
  }

  predicate TreatedAt(c: Config, rows: nat, samples: seq<Sample>, was: seq<Button>, before: seq<ButtonEntry>,
                      now: seq<Button>, log: seq<ButtonEntry>, x: nat, y: nat, i: nat)
    requires i < |was| == |now| == |samples| && InOrder(was, samples) && 0 < rows
  {
    Treated(c, samples[i], was[i], now[i], EventsOf(before, i), EventsOf(log, i), IsDone(rows, x, y, i))
  }

  predicate IsDone(rows: nat, x: nat, y: nat, i: nat)
    requires 0 < rows
  {
    Row(rows, i) < y || (Row(rows, i) == y && Column(rows, i) < x)
  }

  lemma NotYetScanned(c: Config, rows: nat, columns: nat, samples: seq<Sample>, was: seq<Button>,
                      before: seq<ButtonEntry>, now: seq<Button>, log: seq<ButtonEntry>, x: nat, y: nat)
    requires ScannedUpTo(c, rows, columns, samples, was, before, now, log, x, y) && x < columns && y < rows
    ensures var i := IndexOf(rows, x, y);
            i < |was| && now[i] == was[i] && EventsOf(log, i) == EventsOf(before, i)
  {
    PlaceOfIndex(rows, columns, x, y);
    assert TreatedAt(c, rows, samples, was, before, now, log, x, y, IndexOf(rows, x, y));
  }

  /** Index `i` is reached at its own place and no other. */
  lemma DoneNext(rows: nat, columns: nat, x: nat, y: nat, i: nat)
    requires x < columns && y < rows && i < rows * columns
    ensures IsDone(rows, x + 1, y, i) <==> IsDone(rows, x, y, i) || i == IndexOf(rows, x, y)
  {
    PlaceOfIndex(rows, columns, x, y);
    IndexOfPlace(rows, columns, i);
  }

  lemma ScanNext(c: Config, rows: nat, columns: nat, samples: seq<Sample>, was: seq<Button>,
                 before: seq<ButtonEntry>, now: seq<Button>, log: seq<ButtonEntry>, x: nat, y: nat)
    requires ScannedUpTo(c, rows, columns, samples, was, before, now, log, x, y) && x < columns && y < rows
    ensures
      var index := IndexOf(rows, x, y);
      && index < |was|
      && ScannedUpTo(c, rows, columns, samples, was, before, now[index := Handle(c, was[index], samples[index]).0],
                     Logged(log, index, Handle(c, was[index], samples[index]).1), x + 1, y)
  {
    NotYetScanned(c, rows, columns, samples, was, before, now, log, x, y);
    var index := IndexOf(rows, x, y);
    var (b, events) := Handle(c, was[index], samples[index]);
    var now', log', x' := now[index := b], Logged(log, index, events), x + 1;
    forall i | 0 <= i < |was|
      ensures TreatedAt(c, rows, samples, was, before, now', log', x', y, i)
    {
      assert TreatedAt(c, rows, samples, was, before, now, log, x, y, i);
      DoneNext(rows, columns, x, y, i);
      LoggedFor(log, index, events, i);
    }
  }

  lemma RowIsDone(c: Config, rows: nat, columns: nat, samples: seq<Sample>, was: seq<Button>,
                  before: seq<ButtonEntry>, now: seq<Button>, log: seq<ButtonEntry>, y: nat)
    requires ScannedUpTo(c, rows, columns, samples, was, before, now, log, columns, y) && y < rows
    ensures ScannedUpTo(c, rows, columns, samples, was, before, now, log, 0, y + 1)
  {
    var y' := y + 1;
    forall i | 0 <= i < |was|
      ensures TreatedAt(c, rows, samples, was, before, now, log, 0, y', i)
    {
      assert TreatedAt(c, rows, samples, was, before, now, log, columns, y, i);
      IndexOfPlace(rows, columns, i);
    }
  }

  lemma AllRowsDone(c: Config, rows: nat, columns: nat, samples: seq<Sample>, was: seq<Button>,
                    before: seq<ButtonEntry>, now: seq<Button>, log: seq<ButtonEntry>)
    requires ScannedUpTo(c, rows, columns, samples, was, before, now, log, 0, rows)
    ensures forall i | 0 <= i < |was| ::
              now[i] == Handle(c, was[i], samples[i]).0 &&
              EventsOf(log, i) == EventsOf(before, i) + Handle(c, was[i], samples[i]).1
  {
    forall i | 0 <= i < |was|
      ensures now[i] == Handle(c, was[i], samples[i]).0
      ensures EventsOf(log, i) == EventsOf(before, i) + Handle(c, was[i], samples[i]).1
    {
      assert TreatedAt(c, rows, samples, was, before, now, log, 0, rows, i);
    }
  }
}
