/** Sceneries whose jumps all go back: what is played is the timeline with every loop unrolled. */
module SceneryTimeline {
  import opened Scenery
  import opened SceneryEnds

  // ----- the unrolled timeline, from the keyframes and jumps alone

  /** How often the jump from `g` is taken in a row, each pass being one return. */
  function Returns(jumps: seq<RepeatEntry>, g: nat): nat
  {
    var r := FindRepeatPoint(jumps, g);
    if r == -1 then 0 else LeftOf(jumps[r].(counter := 0))
  }

  /** Every jump in effect goes back, or to the keyframe itself, and is counted. */
  predicate Backward(bases: seq<BaseEntry>, jumps: seq<RepeatEntry>)
  {
    forall g | 0 <= g < |bases| ::
      var r := FindRepeatPoint(jumps, g);
      r == -1 || (jumps[r].to <= g && !Endless(jumps[r]))
  }

  function Times(s: seq<Frame>, n: nat): seq<Frame>
  {
    if n == 0 then [] else s + Times(s, n - 1)
  }

  /** The ticks of keyframe `i` from `tick` on, but for its last. */
  function Inner(bases: seq<BaseEntry>, i: nat, tick: nat): seq<Frame>
    requires i < |bases| && tick <= bases[i].timeTicks
    decreases bases[i].timeTicks - tick
  {
    if tick == bases[i].timeTicks then [] else [Frame(i, tick)] + Inner(bases, i, tick + 1)
  }

  function LastFrame(bases: seq<BaseEntry>, i: nat): seq<Frame>
    requires i < |bases|
  {
    [Frame(i, bases[i].timeTicks)]
  }

  /** Keyframe `i` from its first tick to its last. */
  function Hold(bases: seq<BaseEntry>, i: nat): seq<Frame>
    requires i < |bases|
  {
    Inner(bases, i, 0) + LastFrame(bases, i)
  }

  /** Everything the jump from `g` adds after `g` was first played. */
  function Loops(bases: seq<BaseEntry>, jumps: seq<RepeatEntry>, g: nat): seq<Frame>
    requires g < |bases|
    decreases g, 2
  {
    var r := FindRepeatPoint(jumps, g);
    if r == -1 || g < jumps[r].to then [] else Times(Back(bases, jumps, jumps[r].to, g), Returns(jumps, g))
  }

  /** One return from `g` to `t`: the last tick of `t` alone, then everything up to and with `g`. */
  function Back(bases: seq<BaseEntry>, jumps: seq<RepeatEntry>, t: nat, g: nat): seq<Frame>
    requires t <= g < |bases|
    decreases g, 1
  {
    if t == g then LastFrame(bases, t)
    else LastFrame(bases, t) + (Loops(bases, jumps, t) + (Between(bases, jumps, t + 1, g) + Hold(bases, g)))
  }

  /** The keyframes from `a` up to `b`, each with its loops. */
  function Between(bases: seq<BaseEntry>, jumps: seq<RepeatEntry>, a: nat, b: nat): seq<Frame>
    requires a <= b <= |bases|
    decreases b, 0
  {
    if a == b then []
    else Between(bases, jumps, a, b - 1) + Hold(bases, b - 1) + Loops(bases, jumps, b - 1)
  }

  function Timeline(bases: seq<BaseEntry>, jumps: seq<RepeatEntry>): seq<Frame>
  {
    Between(bases, jumps, 0, |bases|)
  }

  // ----- playing

  /** A relation that holds of every tick and of ticks one after another. */
  ghost predicate FollowsTicks(rel: (ChannelEntry, seq<Frame>, ChannelEntry) -> bool)
  {
    && (forall e :: rel(e, [], e))
    && (forall e | Valid(e) && !Done(e) :: rel(e, [FrameOf(e)], Advance(e)))
    && (forall e, a, e', b, e'' :: rel(e, a, e') && rel(e', b, e'') ==> rel(e, a + b, e''))
  }

  /** From `e`, ticks that send `sent` lead to `e'`: the least relation that follows the ticks. */
  ghost predicate Plays(e: ChannelEntry, sent: seq<Frame>, e': ChannelEntry)
  {
    forall rel | FollowsTicks(rel) :: rel(e, sent, e')
  }

  lemma PlaysNothing(e: ChannelEntry)
    ensures Plays(e, [], e)
  {
  }

  lemma PlaysInnerTick(e: ChannelEntry)
    requires Valid(e) && !Done(e) && e.tickCount < e.baseEntries[e.index].timeTicks
    ensures Plays(e, [Frame(e.index, e.tickCount)], e.(tickCount := e.tickCount + 1))
  {
    assert Advance(e) == e.(tickCount := e.tickCount + 1);
  }

  lemma PlaysLastTick(e: ChannelEntry)
    requires Valid(e) && !Done(e) && e.tickCount == e.baseEntries[e.index].timeTicks
    ensures Plays(e, [Frame(e.index, e.tickCount)], Finish(e))
  {
    assert Advance(e) == Finish(e);
  }

  lemma PlaysInTurn(e: ChannelEntry, a: seq<Frame>, e': ChannelEntry, b: seq<Frame>, e'': ChannelEntry)
    requires Plays(e, a, e') && Plays(e', b, e'')
    ensures Plays(e, a + b, e'')
  {
  }

  lemma {:induction false} RunInTurn(e: ChannelEntry, m: nat, n: nat)
    requires Valid(e)
    ensures RunFor(e, m + n) == RunFor(RunFor(e, m), n)
    decreases m
  {
    if m != 0 && !Done(e) {
      RunInTurn(Advance(e), m - 1, n);
    }
  }

  lemma {:induction false} LengthInTurn(e: ChannelEntry, m: nat, n: nat)
    requires Valid(e) && |Shown(e, m)| == m
    ensures |Shown(e, m + n)| == m + |Shown(RunFor(e, m), n)|
    decreases m
  {
    if m != 0 {
      LengthInTurn(Advance(e), m - 1, n);
    }
  }

  lemma SentInTurn(e: ChannelEntry, m: nat, n: nat)
    requires Valid(e) && |Shown(e, m)| == m
    ensures Shown(e, m + n) == Shown(e, m) + Shown(RunFor(e, m), n)
  {
    LengthInTurn(e, m, n);
    var all, first, last := Shown(e, m + n), Shown(e, m), Shown(RunFor(e, m), n);
    forall k | 0 <= k < |all|
      ensures all[k] == (first + last)[k]
    {
      ShownAt(e, m + n, k);
      if k < m {
        ShownAt(e, m, k);
      } else {
        ShownAt(RunFor(e, m), n, k - m);
        RunInTurn(e, m, k - m);
      }
    }
  }

  /** What the player does for as many ticks as `sent` has values. */
  ghost predicate Ticks(e: ChannelEntry, sent: seq<Frame>, e': ChannelEntry)
  {
    Valid(e) ==> Shown(e, |sent|) == sent && RunFor(e, |sent|) == e'
  }

  lemma TicksInTurn(e: ChannelEntry, a: seq<Frame>, e': ChannelEntry, b: seq<Frame>, e'': ChannelEntry)
    requires Ticks(e, a, e') && Ticks(e', b, e'')
    ensures Ticks(e, a + b, e'')
  {
    if Valid(e) {
      SentInTurn(e, |a|, |b|);
      RunInTurn(e, |a|, |b|);
    }
  }

  lemma PlaysIsTicks(e: ChannelEntry, sent: seq<Frame>, e': ChannelEntry)
    requires Plays(e, sent, e') && Valid(e)
    ensures Shown(e, |sent|) == sent && RunFor(e, |sent|) == e'
  {
    var rel := (x, a, y) => Ticks(x, a, y);
    forall x | Valid(x) && !Done(x)
      ensures rel(x, [FrameOf(x)], Advance(x))
    {
      assert Shown(x, 1) == [FrameOf(x)] + Shown(Advance(x), 0);
      assert RunFor(x, 1) == RunFor(Advance(x), 0);
    }
    forall x, a, y, b, z | rel(x, a, y) && rel(y, b, z)
      ensures rel(x, a + b, z)
    {
      TicksInTurn(x, a, y, b, z);
    }
    assert FollowsTicks(rel);
    assert rel(e, sent, e');
  }

  /** The same jumps, whatever the counters. */
  ghost predicate Follows(repeats: seq<RepeatEntry>, jumps: seq<RepeatEntry>)
  {
    && |repeats| == |jumps|
    && forall k | 0 <= k < |jumps| :: repeats[k] == jumps[k].(counter := repeats[k].counter)
  }

  /** No loop that closes before keyframe `i` is under way. */
  ghost predicate Quiet(repeats: seq<RepeatEntry>, i: nat)
  {
    forall f: nat | f < i :: Idle(repeats, f)
  }

  predicate Idle(repeats: seq<RepeatEntry>, f: nat)
  {
    var r := FindRepeatPoint(repeats, f);
    r == -1 || repeats[r].counter == 0
  }

  /** The player plays `bases` with `jumps`, and no loop that closes before keyframe `i` is under way. */
  ghost predicate InPlay(e: ChannelEntry, bases: seq<BaseEntry>, jumps: seq<RepeatEntry>, i: nat)
  {
    && Valid(e) && e.baseEntries == bases && |bases| < 256 && Backward(bases, jumps)
    && Follows(e.repeatEntries, jumps) && Quiet(e.repeatEntries, i)
  }

  /** The player is at the last tick of keyframe `g`. */
  predicate AtLastTick(e: ChannelEntry, g: nat)
  {
    g < |e.baseEntries| && e.index == g && e.tickCount == e.baseEntries[g].timeTicks
  }

  /** `e` moved past keyframe `g`, whose loop is over. */
  function Past(e: ChannelEntry, g: nat): ChannelEntry
    requires g < 0xFF
  {
    var next := e.(index := g + 1, tickCount := 0);
    var r := FindRepeatPoint(e.repeatEntries, g);
    if r == -1 then next else SetCounter(next, r, 0)
  }

  lemma {:induction false} InnerPlays(e: ChannelEntry, tick: nat, t: nat)
    requires Valid(e) && !Done(e) && tick <= e.tickCount == t == e.baseEntries[e.index].timeTicks
    ensures Plays(e.(tickCount := tick), Inner(e.baseEntries, e.index, tick), e)
    decreases t - tick
  {
    var now := e.(tickCount := tick);
    if tick == t {
      assert now == e;
      PlaysNothing(e);
    } else {
      var rest := Inner(e.baseEntries, e.index, tick + 1);
      assert Inner(e.baseEntries, e.index, tick) == [Frame(e.index, tick)] + rest;
      assert Plays(now, [Frame(e.index, tick)] + rest, e) by {
        InnerPlays(e, tick + 1, t);
        PlaysInnerTick(now);
        PlaysInTurn(now, [Frame(e.index, tick)], e.(tickCount := tick + 1), rest, e);
      }
    }
  }

  /** The player sends the whole keyframe it is at. */
  lemma HoldPlays(e: ChannelEntry, last: ChannelEntry)
    requires Valid(e) && !Done(e) && e.tickCount == 0 && last == e.(tickCount := e.baseEntries[e.index].timeTicks)
    ensures Plays(e, Hold(e.baseEntries, e.index), Finish(last))
  {
    InnerPlays(last, 0, last.tickCount);
    assert last.(tickCount := 0) == e;
    PlaysLastTick(last);
    PlaysInTurn(e, Inner(e.baseEntries, e.index, 0), last, LastFrame(e.baseEntries, e.index), Finish(last));
  }

  // ----- one loop

  lemma FoundJump(e: ChannelEntry, bases: seq<BaseEntry>, jumps: seq<RepeatEntry>, i: nat, g: nat)
    requires InPlay(e, bases, jumps, i) && g < |bases|
    ensures
      var r := FindRepeatPoint(jumps, g);
      && FindRepeatPoint(e.repeatEntries, g) == r
      && (r != -1 ==>
            && jumps[r].to <= g && e.repeatEntries[r].to == jumps[r].to && e.repeatEntries[r].from == g
            && e.repeatEntries[r].repeatTimes == jumps[r].repeatTimes
            && !Endless(e.repeatEntries[r]))
  {
    FindRepeatPointByFrom(e.repeatEntries, jumps, g);
    var r := FindRepeatPoint(jumps, g);
  }

  lemma LoopIsOver(e: ChannelEntry, bases: seq<BaseEntry>, jumps: seq<RepeatEntry>, g: nat)
    requires InPlay(e, bases, jumps, g) && AtLastTick(e, g) && Left(e, g) == 0
    ensures Finish(e) == Past(e, g)
  {
    FoundJump(e, bases, jumps, g, g);
    var r := FindRepeatPoint(jumps, g);
    if r != -1 {
      LeftCountsDown(e.repeatEntries[r]);
    }
  }

  /** With one return less to go, the player is back at the loop's first keyframe. */
  lemma JumpBack(e: ChannelEntry, bases: seq<BaseEntry>, jumps: seq<RepeatEntry>, g: nat)
    returns (t: nat, b: ChannelEntry)
    requires InPlay(e, bases, jumps, g) && AtLastTick(e, g) && Left(e, g) != 0
    ensures FindRepeatPoint(jumps, g) != -1 && t == jumps[FindRepeatPoint(jumps, g)].to <= g
    ensures b == Finish(e) && AtLastTick(b, t) && InPlay(b, bases, jumps, g)
    ensures Left(b, g) == Left(e, g) - 1
    ensures Past(b.(index := g, tickCount := e.tickCount), g) == Past(e, g)
  {
    FoundJump(e, bases, jumps, g, g);
    var r := FindRepeatPoint(jumps, g);
    t := jumps[r].to;
    LeftCountsDown(e.repeatEntries[r]);
    b := Finish(e);
    var counter := NextInt16(e.repeatEntries[r].counter);
    assert b == SetCounter(JumpTo(e, t), r, counter);
    CountingKeepsQuiet(e.repeatEntries, jumps, g, r, counter);
  }

  lemma CountingKeepsQuiet(repeats: seq<RepeatEntry>, jumps: seq<RepeatEntry>, g: nat, r: nat, counter: Int16)
    requires Follows(repeats, jumps) && Quiet(repeats, g) && r < |repeats| && repeats[r].from == g
    ensures
      var repeats' := repeats[r := repeats[r].(counter := counter)];
      && Follows(repeats', jumps) && Quiet(repeats', g)
      && FindRepeatPoint(repeats', g) == FindRepeatPoint(repeats, g)
  {
    var repeats' := repeats[r := repeats[r].(counter := counter)];
    FindRepeatPointByFrom(repeats, repeats', g);
    forall f: nat | f < g
      ensures Idle(repeats', f)
    {
      assert Idle(repeats, f);
      FindRepeatPointByFrom(repeats, repeats', f);
    }
  }

  /** All that is left of the loop at `g`. */
  function LoopsLeft(bases: seq<BaseEntry>, jumps: seq<RepeatEntry>, g: nat, left: nat): seq<Frame>
    requires g < |bases|
  {
    var r := FindRepeatPoint(jumps, g);
    if r == -1 || g < jumps[r].to then [] else Times(Back(bases, jumps, jumps[r].to, g), left)
  }

  /** Going past `g` with its loop idle before and after changes nothing but the place. */
  lemma PastKeepsCounters(e: ChannelEntry, bases: seq<BaseEntry>, jumps: seq<RepeatEntry>, g: nat, i: nat)
    requires InPlay(e, bases, jumps, i) && g < i && g < |bases|
    ensures Past(e, g) == e.(index := g + 1, tickCount := 0)
    ensures LoopsLeft(bases, jumps, g, Left(e, g)) == Loops(bases, jumps, g)
  {
    FoundJump(e, bases, jumps, i, g);
    assert Idle(e.repeatEntries, g);
    var r := FindRepeatPoint(jumps, g);
    if r != -1 {
      assert e.repeatEntries[r := e.repeatEntries[r].(counter := 0)] == e.repeatEntries;
    }
  }

  lemma QuietBelow(repeats: seq<RepeatEntry>, i: nat, j: nat)
    requires Quiet(repeats, j) && i <= j
    ensures Quiet(repeats, i)
  {
    forall f: nat | f < i
      ensures Idle(repeats, f)
    {
    }
  }

  /** Where the player is within the timeline does not touch its loops. */
  lemma Moved(e: ChannelEntry, bases: seq<BaseEntry>, jumps: seq<RepeatEntry>, i: nat, j: nat,
              index: nat, tick: nat) returns (e': ChannelEntry)
    requires InPlay(e, bases, jumps, j) && i <= j && index < 256
    requires index < |bases| ==> tick <= bases[index].timeTicks
    ensures e' == e.(index := index, tickCount := tick) && InPlay(e', bases, jumps, i)
  {
    QuietBelow(e.repeatEntries, i, j);
    e' := e.(index := index, tickCount := tick);
  }

  // ----- the four parts of a timeline

  lemma {:induction false} LoopsPlay(e: ChannelEntry, bases: seq<BaseEntry>, jumps: seq<RepeatEntry>, g: nat)
    requires InPlay(e, bases, jumps, g) && AtLastTick(e, g)
    ensures Plays(Finish(e), LoopsLeft(bases, jumps, g, Left(e, g)), Past(e, g))
    decreases g, 2, Left(e, g)
  {
    if Left(e, g) == 0 {
      LoopIsOver(e, bases, jumps, g);
      assert LoopsLeft(bases, jumps, g, 0) == [];
    } else {
      var t, b := JumpBack(e, bases, jumps, g);
      var c := Moved(b, bases, jumps, g, g, g, e.tickCount);
      BackPlays(b, bases, jumps, t, g);
      LoopsPlay(c, bases, jumps, g);
      PlaysInTurn(b, Back(bases, jumps, t, g), Finish(c), LoopsLeft(bases, jumps, g, Left(c, g)), Past(e, g));
    }
  }

  lemma {:induction false} BackPlays(e: ChannelEntry, bases: seq<BaseEntry>, jumps: seq<RepeatEntry>, t: nat, g: nat)
    requires t <= g < |bases| && InPlay(e, bases, jumps, g) && AtLastTick(e, t)
    ensures Plays(e, Back(bases, jumps, t, g), Finish(e.(index := g, tickCount := bases[g].timeTicks)))
    decreases g, 1, 0
  {
    PlaysLastTick(e);
    if t == g {
      assert e == e.(index := g, tickCount := bases[g].timeTicks);
    } else {
      RestPlays(e, bases, jumps, t, g);
      PlaysInTurn(e, LastFrame(bases, t), Finish(e),
                  Loops(bases, jumps, t) + (Between(bases, jumps, t + 1, g) + Hold(bases, g)),
                  Finish(e.(index := g, tickCount := bases[g].timeTicks)));
    }
  }

  /** After the first tick of a return: the loops there, the keyframes after it, and `g` again. */
  lemma {:induction false} RestPlays(e: ChannelEntry, bases: seq<BaseEntry>, jumps: seq<RepeatEntry>, t: nat, g: nat)
    requires t < g < |bases| && InPlay(e, bases, jumps, g) && AtLastTick(e, t)
    ensures Plays(Finish(e), Loops(bases, jumps, t) + (Between(bases, jumps, t + 1, g) + Hold(bases, g)),
                  Finish(e.(index := g, tickCount := bases[g].timeTicks)))
    decreases g, 0, 1
  {
    var e' := Moved(e, bases, jumps, t, g, t, e.tickCount);
    LoopsPlay(e, bases, jumps, t);
    PastKeepsCounters(e, bases, jumps, t, g);
    var a := Moved(e, bases, jumps, g, g, t + 1, 0);
    BetweenPlays(a, bases, jumps, t + 1, g);
    var b := Moved(e, bases, jumps, g, g, g, 0);
    HoldPlays(b, e.(index := g, tickCount := bases[g].timeTicks));
    var end := Finish(e.(index := g, tickCount := bases[g].timeTicks));
    PlaysInTurn(a, Between(bases, jumps, t + 1, g), b, Hold(bases, g), end);
    PlaysInTurn(Finish(e), Loops(bases, jumps, t), a, Between(bases, jumps, t + 1, g) + Hold(bases, g), end);
  }

  lemma {:induction false} BetweenPlays(e: ChannelEntry, bases: seq<BaseEntry>, jumps: seq<RepeatEntry>, a: nat, b: nat)
    requires a <= b <= |bases| && InPlay(e, bases, jumps, b) && e.index == a && e.tickCount == 0
    ensures Plays(e, Between(bases, jumps, a, b), e.(index := b))
    decreases b, 0, 0
  {
    if a < b {
      var g := b - 1;
      var before := Moved(e, bases, jumps, g, b, a, 0);
      BetweenPlays(before, bases, jumps, a, g);
      var c := Moved(e, bases, jumps, g, b, g, 0);
      var d := Moved(e, bases, jumps, g, b, g, bases[g].timeTicks);
      HoldPlays(c, d);
      LoopsPlay(d, bases, jumps, g);
      var d' := Moved(e, bases, jumps, b, b, g, bases[g].timeTicks);
      PastKeepsCounters(d', bases, jumps, g, b);
      PlaysInTurn(e, Between(bases, jumps, a, g), c, Hold(bases, g), Finish(d));
      PlaysInTurn(e, Between(bases, jumps, a, g) + Hold(bases, g), Finish(d), Loops(bases, jumps, g), e.(index := b));
    }
  }

  // ----- whole sceneries

  /** A scenery as it is added: at the start, no jump taken. */
  ghost predicate Started(e: ChannelEntry)
  {
    && Valid(e) && e.index == 0 && e.tickCount == 0
    && forall k | 0 <= k < |e.repeatEntries| :: e.repeatEntries[k].counter == 0
  }

  lemma StartedIsQuiet(e: ChannelEntry, i: nat)
    requires Started(e)
    ensures Quiet(e.repeatEntries, i)
  {
    forall f: nat | f < i
      ensures Idle(e.repeatEntries, f)
    {
    }
  }

  /** Until it is finished, a scenery whose jumps all go back sends its unrolled timeline. */
  lemma BackwardSceneryPlaysTimeline(e: ChannelEntry)
    requires Started(e) && |e.baseEntries| < 256 && Backward(e.baseEntries, e.repeatEntries)
    ensures
      var timeline := Timeline(e.baseEntries, e.repeatEntries);
      && Shown(e, |timeline|) == timeline && Sent(e, |timeline|) == Render(e.baseEntries, timeline)
      && Done(RunFor(e, |timeline|))
      && Finite(e) && Playback(e) == timeline
      && |timeline| == Duration(e.baseEntries, e.repeatEntries, |e.baseEntries|)
  {
    var n := |e.baseEntries|;
    var timeline := Timeline(e.baseEntries, e.repeatEntries);
    StartedIsQuiet(e, n);
    BetweenPlays(e, e.baseEntries, e.repeatEntries, 0, n);
    PlaysIsTicks(e, timeline, e.(index := n));
    SentUntilDone(e, |timeline|);
    BetweenLength(e.baseEntries, e.repeatEntries, 0, n);
  }

  lemma {:induction false} SentUntilDone(e: ChannelEntry, n: nat)
    requires Valid(e) && Untrapped(e) && |e.baseEntries| < 256 && Done(RunFor(e, n))
    ensures Shown(e, n) == Playback(e)
    decreases n
  {
    if !Done(e) {
      var e' := AdvancePlayback(e);
      SentUntilDone(e', n - 1);
    }
  }

  // ----- how long it takes

  /** The ticks of keyframes below `b` from `a` on, loops included, in numbers alone. */
  function DurationBetween(bases: seq<BaseEntry>, jumps: seq<RepeatEntry>, a: nat, b: nat): nat
    requires a <= b <= |bases|
    decreases b, 0
  {
    if a == b then 0
    else DurationBetween(bases, jumps, a, b - 1) + (bases[b - 1].timeTicks + 1) + DurationOfLoops(bases, jumps, b - 1)
  }

  function DurationOfLoops(bases: seq<BaseEntry>, jumps: seq<RepeatEntry>, g: nat): nat
    requires g < |bases|
    decreases g, 1
  {
    var r := FindRepeatPoint(jumps, g);
    if r == -1 || g < jumps[r].to then 0
    else
      var t := jumps[r].to;
      Returns(jumps, g) *
      (if t == g then 1
       else 1 + DurationOfLoops(bases, jumps, t) + DurationBetween(bases, jumps, t + 1, g) + bases[g].timeTicks + 1)
  }

  function Duration(bases: seq<BaseEntry>, jumps: seq<RepeatEntry>, n: nat): nat
    requires n <= |bases|
  {
    DurationBetween(bases, jumps, 0, n)
  }

  lemma {:induction false} TimesLength(s: seq<Frame>, n: nat)
    ensures |Times(s, n)| == n * |s|
  {
    if n != 0 {
      TimesLength(s, n - 1);
      assert n * |s| == (n - 1) * |s| + |s|;
    }
  }

  lemma {:induction false} InnerLength(bases: seq<BaseEntry>, i: nat, tick: nat)
    requires i < |bases| && tick <= bases[i].timeTicks
    ensures |Inner(bases, i, tick)| == bases[i].timeTicks - tick
    decreases bases[i].timeTicks - tick
  {
    if tick < bases[i].timeTicks {
      InnerLength(bases, i, tick + 1);
    }
  }

  lemma {:induction false} BetweenLength(bases: seq<BaseEntry>, jumps: seq<RepeatEntry>, a: nat, b: nat)
    requires a <= b <= |bases|
    ensures |Between(bases, jumps, a, b)| == DurationBetween(bases, jumps, a, b)
    decreases b, 0
  {
    if a < b {
      BetweenLength(bases, jumps, a, b - 1);
      InnerLength(bases, b - 1, 0);
      LoopsLength(bases, jumps, b - 1);
      assert |Between(bases, jumps, a, b)| ==
             |Between(bases, jumps, a, b - 1)| + |Hold(bases, b - 1)| + |Loops(bases, jumps, b - 1)|;
    }
  }

  lemma {:induction false} LoopsLength(bases: seq<BaseEntry>, jumps: seq<RepeatEntry>, g: nat)
    requires g < |bases|
    ensures |Loops(bases, jumps, g)| == DurationOfLoops(bases, jumps, g)
    decreases g, 1
  {
    var r := FindRepeatPoint(jumps, g);
    if r != -1 && jumps[r].to <= g {
      var t := jumps[r].to;
      TimesLength(Back(bases, jumps, t, g), Returns(jumps, g));
      if t < g {
        LoopsLength(bases, jumps, t);
        BetweenLength(bases, jumps, t + 1, g);
        InnerLength(bases, g, 0);
        assert |Back(bases, jumps, t, g)| ==
               1 + |Loops(bases, jumps, t)| + |Between(bases, jumps, t + 1, g)| + |Hold(bases, g)|;
      } else {
        assert |Back(bases, jumps, t, g)| == 1;
      }
    }
  }

  // ----- how often a jump is taken

  /** A jump that counts `n` is taken `n - 1` times: what it repeats is played `n` times. Counts below one wrap. */
  lemma CountedReturns(jumps: seq<RepeatEntry>, r: nat)
    requires r < |jumps| && FindRepeatPoint(jumps, jumps[r].from) == r && !Endless(jumps[r])
    ensures Returns(jumps, jumps[r].from)
         == jumps[r].repeatTimes - 1 + if 0 < jumps[r].repeatTimes then 0 else 65536
  {
    LeftCountsDown(jumps[r]);
  }

  /** The ticks of a keyframe, from 0 to its time. */
  function TicksOf(i: nat, time: nat): seq<Frame> { seq(time + 1, (k: nat) => Frame(i, k)) }

  lemma {:induction false} InnerIsTicks(bases: seq<BaseEntry>, i: nat, tick: nat)
    requires i < |bases| && tick <= bases[i].timeTicks
    ensures Inner(bases, i, tick) + LastFrame(bases, i) == TicksOf(i, bases[i].timeTicks)[tick..]
    decreases bases[i].timeTicks - tick
  {
    if tick < bases[i].timeTicks {
      InnerIsTicks(bases, i, tick + 1);
      var all := TicksOf(i, bases[i].timeTicks);
      assert all[tick..] == [Frame(i, tick)] + all[tick + 1..];
      assert ([Frame(i, tick)] + Inner(bases, i, tick + 1)) + LastFrame(bases, i)
          == [Frame(i, tick)] + (Inner(bases, i, tick + 1) + LastFrame(bases, i));
    }
  }

  lemma HoldIsTicks(bases: seq<BaseEntry>, i: nat)
    requires i < |bases|
    ensures Hold(bases, i) == TicksOf(i, bases[i].timeTicks)
  {
    InnerIsTicks(bases, i, 0);
    var all := TicksOf(i, bases[i].timeTicks);
    assert all[0..] == all;
  }

  lemma TwoTimeline(bases: seq<BaseEntry>, jump: RepeatEntry)
    requires |bases| == 2 && jump.from == 1 && jump.to == 0 && 0 < jump.repeatTimes
    ensures Timeline(bases, [jump])
         == TicksOf(0, bases[0].timeTicks) + TicksOf(1, bases[1].timeTicks)
            + Times([Frame(0, bases[0].timeTicks)] + TicksOf(1, bases[1].timeTicks), jump.repeatTimes - 1)
  {
    var jumps := [jump];
    assert FindRepeatPoint(jumps[1..], 0) == -1 && FindRepeatPoint(jumps, 0) == -1 && FindRepeatPoint(jumps, 1) == 0;
    HoldIsTicks(bases, 0);
    HoldIsTicks(bases, 1);
    CountedReturns(jumps, 0);
    var none: seq<Frame> := [];
    assert Between(bases, jumps, 0, 1) == none + Hold(bases, 0) + none == Hold(bases, 0);
    assert Back(bases, jumps, 0, 1) == LastFrame(bases, 0) + (none + (none + Hold(bases, 1)));
    assert none + (none + Hold(bases, 1)) == Hold(bases, 1);
  }

  /**
    Two keyframes, the second of which jumps to the first and counts `n`: both are played, and then `n - 1` times the
    last tick of the first and all of the second.
   */
  lemma LoopOfTwoIsPlayed(e: ChannelEntry)
    requires Started(e) && |e.baseEntries| == 2 && |e.repeatEntries| == 1
    requires e.repeatEntries[0].from == 1 && e.repeatEntries[0].to == 0 && 0 < e.repeatEntries[0].repeatTimes
    ensures
      var a, b := e.baseEntries[0].timeTicks, e.baseEntries[1].timeTicks;
      var played := TicksOf(0, a) + TicksOf(1, b)
                    + Times([Frame(0, a)] + TicksOf(1, b), e.repeatEntries[0].repeatTimes - 1);
      Shown(e, |played|) == played && Done(RunFor(e, |played|))
  {
    var jump := e.repeatEntries[0];
    assert e.repeatEntries == [jump];
    TwoTimeline(e.baseEntries, jump);
    assert FindRepeatPoint([jump][1..], 0) == -1 && FindRepeatPoint([jump], 0) == -1;
    BackwardSceneryPlaysTimeline(e);
  }

  // ----- endless jumps

  /** Every jump in effect goes back, counted or not. */
  predicate BackwardOnly(e: ChannelEntry)
  {
    forall g | 0 <= g < |e.baseEntries| ::
      var r := FindRepeatPoint(e.repeatEntries, g);
      r == -1 || e.repeatEntries[r].to <= g
  }

  lemma SameJumpsSameTargets(e: ChannelEntry, e': ChannelEntry, index: nat)
    requires SameJumps(e.repeatEntries, e'.repeatEntries, index) && e'.baseEntries == e.baseEntries
    ensures BackwardOnly(e) ==> BackwardOnly(e')
    ensures forall f: nat :: FindRepeatPoint(e'.repeatEntries, f) == FindRepeatPoint(e.repeatEntries, f)
  {
    forall f: nat
      ensures FindRepeatPoint(e'.repeatEntries, f) == FindRepeatPoint(e.repeatEntries, f)
    {
      FindIgnoresCounters(e.repeatEntries, e'.repeatEntries, index, f);
    }
  }

  /** Finishing a keyframe moves the player to the next one, or where its jump leads. */
  lemma FinishGoes(e: ChannelEntry)
    requires Valid(e) && !Done(e)
    ensures
      var r := FindRepeatPoint(e.repeatEntries, e.index);
      || (Finish(e).index == NextByte(e.index) && !EndlessAt(e.repeatEntries, e.index))
      || (r != -1 && Finish(e).index == e.repeatEntries[r].to)
  {
    var r := FindRepeatPoint(e.repeatEntries, e.index);
  }

  /** An endless jump that goes back keeps the player at or before it. */
  lemma EndlessJumpHolds(e: ChannelEntry, f: nat)
    requires Valid(e) && BackwardOnly(e) && e.index <= f < |e.baseEntries| && EndlessAt(e.repeatEntries, f)
    ensures
      var e' := Advance(e);
      BackwardOnly(e') && e'.index <= f && e'.baseEntries == e.baseEntries && EndlessAt(e'.repeatEntries, f)
  {
    var r := FindRepeatPoint(e.repeatEntries, f);
    FinishKeepsJumps(e);
    SameJumpsSameTargets(e, Finish(e), e.index);
    FinishGoes(e);
  }

  lemma {:induction false} EndlessJumpNeverEnds(e: ChannelEntry, f: nat, n: nat)
    requires Valid(e) && BackwardOnly(e) && e.index <= f < |e.baseEntries|
    requires EndlessAt(e.repeatEntries, f)
    ensures !EndsAfter(e, n)
    decreases n
  {
    if n != 0 {
      EndlessJumpHolds(e, f);
      EndlessJumpNeverEnds(Advance(e), f, n - 1);
    }
  }

  /** With jumps that only go back, a scenery ends exactly when none is endless and the keyframes are at most 255. */
  lemma BackwardSceneryEnds(e: ChannelEntry)
    requires Started(e) && BackwardOnly(e)
    ensures Ends(e) <==> Finite(e) && |e.baseEntries| <= 255
  {
    if Finite(e) {
      UntrappedSceneryEnds(e);
    } else {
      var f :| 0 <= f < |e.baseEntries| && EndlessAt(e.repeatEntries, f);
      forall n: nat
        ensures !EndsAfter(e, n)
      {
        EndlessJumpNeverEnds(e, f, n);
      }
    }
  }
}
