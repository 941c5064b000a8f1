/** Which sceneries end: a measure over all keyframes, highest first, for jumps in any direction. */
module SceneryEnds {
  import opened Scenery

  /** A jump that is always taken: marked so, or with the one count the test for the last pass cannot meet. */
  predicate Endless(r: RepeatEntry) { r.repeatTimes == INFINITE || r.repeatTimes == -0x8000 }

  /** Every keyframe's jump, where it has one, is counted. */
  predicate Finite(e: ChannelEntry)
  {
    forall f | 0 <= f < |e.baseEntries| :: !EndlessAt(e.repeatEntries, f)
  }

  /** Every jump that is always taken goes forward. */
  predicate Untrapped(e: ChannelEntry)
  {
    forall f | 0 <= f < |e.baseEntries| && EndlessAt(e.repeatEntries, f) :: f < Target(e.repeatEntries, f)
  }

  /** The jump from `f` is always taken. */
  predicate EndlessAt(repeats: seq<RepeatEntry>, f: nat)
  {
    var r := FindRepeatPoint(repeats, f);
    r != -1 && Endless(repeats[r])
  }

  /** Where the jump from `f` goes, or `f` if there is none. */
  function Target(repeats: seq<RepeatEntry>, f: nat): nat
  {
    var r := FindRepeatPoint(repeats, f);
    if r == -1 then f else repeats[r].to
  }

  /** How often the jump from `f` will still be taken; the counter wraps in 16 bits. */
  function Left(e: ChannelEntry, f: nat): nat
  {
    LeftIn(e.repeatEntries, f)
  }

  function LeftIn(repeats: seq<RepeatEntry>, f: nat): nat
  {
    var r := FindRepeatPoint(repeats, f);
    if r == -1 then 0 else LeftOf(repeats[r])
  }

  function LeftOf(r: RepeatEntry): Word
  {
    var d := r.repeatTimes - 1 - r.counter;
    if 0 <= d then d else d + 0x1_0000
  }

  /** The player's test for the last pass, and its counting, in terms of what is left. */
  lemma LeftCountsDown(r: RepeatEntry)
    requires !Endless(r)
    ensures LeftOf(r) == 0 <==> r.repeatTimes == r.counter + 1
    ensures LeftOf(r) != 0 ==> LeftOf(r.(counter := NextInt16(r.counter))) == LeftOf(r) - 1
  {
  }

  /** One digit of the measure: is `f` still ahead, and how often it will send the player back. */
  function Digit(e: ChannelEntry, f: nat): nat
  {
    (if e.index <= f then 0x1_0000 else 0) + Left(e, f)
  }

  const RADIX: nat := 0x2_0000

  function Place(n: nat): (p: nat)
    ensures 0 < p
  {
    if n == 0 then 1 else RADIX * Place(n - 1)
  }

  /** The digits of the first `n` keyframes as one number, the highest keyframe weighing most. */
  function Measure(e: ChannelEntry, n: nat): nat
  {
    if n == 0 then 0 else Measure(e, n - 1) + Weighed(Digit(e, n - 1), Place(n - 1))
  }

  function Weighed(digit: nat, place: nat): nat { place * digit }

  lemma {:induction false} MeasureBound(e: ChannelEntry, n: nat)
    ensures Measure(e, n) < Place(n)
  {
    if n != 0 {
      MeasureBound(e, n - 1);
      MulMonotone(Place(n - 1), Digit(e, n - 1), RADIX - 1);
    }
  }

  lemma DigitStep(p: nat, m: nat, d: nat, d': nat)
    requires m < p && d < d'
    ensures m + p * d < p * d'
  {
    MulMonotone(p, d + 1, d');
    assert p * (d + 1) == p * d + p;
  }

  /** A smaller digit decides, whatever happens below it, when those above stay. */
  lemma {:induction false} HighestDigitDecides(e: ChannelEntry, e': ChannelEntry, n: nat, k: nat)
    requires k < n && Digit(e', k) < Digit(e, k)
    requires forall g | k < g < n :: Digit(e', g) == Digit(e, g)
    ensures Measure(e', n) < Measure(e, n)
  {
    if k < n - 1 {
      HighestDigitDecides(e, e', n - 1, k);
    } else {
      MeasureBound(e', k);
      DigitStep(Place(k), Measure(e', k), Digit(e', k), Digit(e, k));
    }
  }

  /** The same jumps, up to the counters of those from `index`. */
  ghost predicate SameJumps(repeats: seq<RepeatEntry>, repeats': seq<RepeatEntry>, index: nat)
  {
    && |repeats'| == |repeats|
    && (forall k | 0 <= k < |repeats| :: repeats'[k] == repeats[k].(counter := repeats'[k].counter))
    && (forall k | 0 <= k < |repeats| && repeats[k].from != index :: repeats'[k] == repeats[k])
  }

  lemma FindIgnoresCounters(repeats: seq<RepeatEntry>, repeats': seq<RepeatEntry>, index: nat, f: nat)
    requires SameJumps(repeats, repeats', index)
    ensures FindRepeatPoint(repeats', f) == FindRepeatPoint(repeats, f)
    ensures EndlessAt(repeats', f) == EndlessAt(repeats, f) && Target(repeats', f) == Target(repeats, f)
  {
    FindRepeatPointByFrom(repeats, repeats', f);
  }

  lemma FinishKeepsJumps(e: ChannelEntry)
    requires Valid(e) && !Done(e)
    ensures SameJumps(e.repeatEntries, Finish(e).repeatEntries, e.index)
  {
  }

  /** Finishing a keyframe leaves the other keyframes' jumps alone. */
  lemma FinishLeavesOthers(e: ChannelEntry)
    requires Valid(e) && !Done(e)
    ensures forall f: nat | f != e.index :: Left(Finish(e), f) == Left(e, f)
    ensures Finite(Finish(e)) == Finite(e) && Untrapped(Finish(e)) == Untrapped(e)
    ensures Finish(e).baseEntries == e.baseEntries
  {
    FinishKeepsJumps(e);
    OthersKeepTheirCounts(e, Finish(e), e.index);
  }

  lemma OthersKeepTheirCounts(e: ChannelEntry, e': ChannelEntry, index: nat)
    requires SameJumps(e.repeatEntries, e'.repeatEntries, index) && e'.baseEntries == e.baseEntries
    ensures forall f: nat | f != index :: Left(e', f) == Left(e, f)
    ensures Finite(e') == Finite(e) && Untrapped(e') == Untrapped(e)
  {
    forall f: nat | f != index
      ensures Left(e', f) == Left(e, f)
    {
      FindIgnoresCounters(e.repeatEntries, e'.repeatEntries, index, f);
    }
    forall f: nat
      ensures EndlessAt(e'.repeatEntries, f) == EndlessAt(e.repeatEntries, f)
      ensures Target(e'.repeatEntries, f) == Target(e.repeatEntries, f)
    {
      FindIgnoresCounters(e.repeatEntries, e'.repeatEntries, index, f);
    }
  }

  /**
    At the finished keyframe itself: go on at the next one's first tick with the counter at zero, or jump to the last
    tick of the target and have one less left.
   */
  lemma FinishCounts(e: ChannelEntry)
    requires Valid(e) && !Done(e) && |e.baseEntries| < 256
    ensures
      var r := FindRepeatPoint(e.repeatEntries, e.index);
      var e' := Finish(e);
      if r == -1 || (!Endless(e.repeatEntries[r]) && Left(e, e.index) == 0) then
        && e'.index == e.index + 1 && e'.tickCount == 0
        && (r != -1 ==> e'.repeatEntries[r].counter == 0)
      else
        && e'.index == e.repeatEntries[r].to && e'.tickCount == e.baseEntries[e'.index].timeTicks
        && (!Endless(e.repeatEntries[r]) ==> Left(e', e.index) == Left(e, e.index) - 1)
  {
    FinishKeepsJumps(e);
    FindIgnoresCounters(e.repeatEntries, Finish(e).repeatEntries, e.index, e.index);
    var r := FindRepeatPoint(e.repeatEntries, e.index);
    if r != -1 {
      if !Endless(e.repeatEntries[r]) {
        LeftCountsDown(e.repeatEntries[r]);
      }
    }
  }

  lemma FinishDescends(e: ChannelEntry)
    requires Valid(e) && !Done(e) && |e.baseEntries| < 256 && Untrapped(e)
    ensures Measure(Finish(e), |e.baseEntries|) < Measure(e, |e.baseEntries|)
  {
    var e' := Finish(e);
    FinishCounts(e);
    assert EndlessAt(e.repeatEntries, e.index) ==> e.index < Target(e.repeatEntries, e.index);
    var k := if e'.index <= e.index then e.index else e'.index - 1;
    FinishLeavesOthers(e);
    HighestDigitDecides(e, e', |e.baseEntries|, k);
  }

  /** Every frame until the end: total, because the measure falls. */
  function Playback(e: ChannelEntry): seq<Frame>
    requires Valid(e) && Untrapped(e) && |e.baseEntries| < 256
    decreases Measure(e, |e.baseEntries|), if Done(e) then 0 else e.baseEntries[e.index].timeTicks - e.tickCount
  {
    if Done(e) then []
    else
      FinishDescends(e);
      FinishLeavesOthers(e);
      TickKeepsMeasure(e, |e.baseEntries|);
      [FrameOf(e)] + Playback(Advance(e))
  }

  lemma {:induction false} TickKeepsMeasure(e: ChannelEntry, n: nat)
    ensures Measure(e.(tickCount := e.tickCount + 1), n) == Measure(e, n)
  {
    if n != 0 {
      TickKeepsMeasure(e, n - 1);
    }
  }

  lemma AdvancePlayback(e: ChannelEntry) returns (e': ChannelEntry)
    requires Valid(e) && !Done(e) && Untrapped(e) && |e.baseEntries| < 256
    ensures e' == Advance(e) && Valid(e') && Untrapped(e') && e'.baseEntries == e.baseEntries
    ensures Playback(e) == [FrameOf(e)] + Playback(e')
  {
    FinishLeavesOthers(e);
    e' := Advance(e);
  }

  /** After as many ticks as the playback has values the channel is finished, having sent just those. */
  lemma {:induction false} PlaybackIsWhatIsSent(e: ChannelEntry)
    requires Valid(e) && Untrapped(e) && |e.baseEntries| < 256
    ensures Done(RunFor(e, |Playback(e)|)) && Shown(e, |Playback(e)|) == Playback(e)
    decreases |Playback(e)|
  {
    if !Done(e) {
      var e' := AdvancePlayback(e);
      PlaybackIsWhatIsSent(e');
    }
  }

  /** With 256 keyframes or more the byte index wraps before it gets past them. */
  lemma {:induction false} TooManyKeyframesNeverEnd(e: ChannelEntry, n: nat)
    requires Valid(e) && 256 <= |e.baseEntries|
    ensures !Done(RunFor(e, n))
    decreases n
  {
    if n != 0 {
      AdvanceKeepsKeyframes(e);
      TooManyKeyframesNeverEnd(Advance(e), n - 1);
    }
  }

  lemma AdvanceKeepsKeyframes(e: ChannelEntry)
    requires Valid(e) && !Done(e)
    ensures Advance(e).baseEntries == e.baseEntries && Advance(e).channelIndex == e.channelIndex
  {
  }

  /** The player finishes with the channel, after some number of ticks. */
  ghost predicate Ends(e: ChannelEntry)
    requires Valid(e)
  {
    exists n: nat :: EndsAfter(e, n)
  }

  ghost predicate EndsAfter(e: ChannelEntry, n: nat)
    requires Valid(e)
  {
    Done(RunFor(e, n))
  }

  /**
    A scenery with counted jumps in any direction, nested or crossing, and endless ones that go forward
    ends exactly when it has at most 255 keyframes.
   */
  lemma UntrappedSceneryEnds(e: ChannelEntry)
    requires Valid(e) && Untrapped(e)
    ensures Ends(e) <==> |e.baseEntries| <= 255
  {
    if |e.baseEntries| <= 255 {
      PlaybackIsWhatIsSent(e);
      assert EndsAfter(e, |Playback(e)|);
    } else {
      forall n: nat
        ensures !EndsAfter(e, n)
      {
        TooManyKeyframesNeverEnd(e, n);
      }
    }
  }
}
