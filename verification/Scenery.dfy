/** The DMX scenery player for one channel: keyframes, counted jumps, and what is sent each tick. */
module Scenery {

  const TICK_VALUE_MS := 20
  const INFINITE := -1

  type Byte = n: nat | n < 0x100
  type Word = n: nat | n < 0x1_0000
  type Int16 = n: int | -0x8000 <= n < 0x8000

  /** A keyframe and its time in ticks. */
  datatype BaseEntry = BaseEntry(val: Byte, timeTicks: Word)

  /** After `from`, go to `to`; `counter` is the number of times that was done. */
  datatype RepeatEntry = RepeatEntry(from: Byte, to: Byte, repeatTimes: Int16, counter: Int16)

  datatype ChannelEntry = ChannelEntry(channelIndex: Word, index: Byte, tickCount: nat,
                                       baseEntries: seq<BaseEntry>, repeatEntries: seq<RepeatEntry>)

  /** A keyframe lasts its time in whole ticks of 20 ms, as far as 16 bits count them. */
  function MakeBaseEntry(val: Byte, timeMs: nat): (b: BaseEntry)
    ensures b.val == val
    ensures timeMs < 20 * 0x1_0000 ==> 20 * b.timeTicks <= timeMs < 20 * b.timeTicks + 20
  {
    BaseEntry(val, timeMs / TICK_VALUE_MS % 0x1_0000)
  }

  function NewEntry(channel: Word, bases: seq<BaseEntry>, repeats: seq<RepeatEntry>): ChannelEntry
  {
    ChannelEntry(channel, 0, 0, bases, repeats)
  }

  /** One more in a signed 16-bit counter, and in an unsigned byte. */
  function NextInt16(n: Int16): Int16 { if n == 0x7FFF then -0x8000 else n + 1 }

  function NextByte(n: Byte): Byte { if n == 0xFF then 0 else n + 1 }

  /** Jumps land on keyframes, and no keyframe lasts longer than it should. */
  predicate Valid(e: ChannelEntry)
  {
    && (forall k | 0 <= k < |e.repeatEntries| :: e.repeatEntries[k].to < |e.baseEntries|)
    && (e.index < |e.baseEntries| ==> e.tickCount <= e.baseEntries[e.index].timeTicks)
  }

  predicate Done(e: ChannelEntry) { |e.baseEntries| <= e.index }

  // ----- interpolation

  /** Integer division as the source's language does it: towards zero. */
  function TruncatedDiv(a: int, b: int): int
    requires 0 < b
  {
    if 0 <= a then a / b else -(-a / b)
  }

  function CalculatePosition(from: int, to: int, periodTicks: nat, currentTicks: nat): int
  {
    if periodTicks == 0 then from % 256
    else
      var direction := to - from;
      var currentPosition := currentTicks * 1000 / periodTicks;
      (from + TruncatedDiv(direction * currentPosition, 1000)) % 256
  }

  lemma ThousandthsInRange(period: nat, current: nat)
    requires 0 < period && current <= period
    ensures 0 <= current * 1000 / period <= 1000
    ensures current == period ==> current * 1000 / period == 1000
  {
    assert current * 1000 / period <= period * 1000 / period by {
      DivMonotone(current * 1000, period * 1000, period);
    }
    assert period * 1000 / period == 1000;
  }

  lemma LessByFactor(d: nat, x: int, y: int)
    requires 0 < d && d * x < d * y
    ensures x < y
  {
  }

  lemma DivMonotone(a: nat, b: nat, d: nat)
    requires a <= b && 0 < d
    ensures a / d <= b / d
  {
    assert d * (a / d) <= a < d * (b / d) + d == d * (b / d + 1);
    LessByFactor(d, a / d, b / d + 1);
  }

  lemma MulMonotone(d: nat, x: nat, y: nat)
    requires x <= y
    ensures d * x <= d * y
  {
    assert d * (y - x) >= 0;
  }

  lemma ScaledInRange(distance: nat, position: nat)
    requires position <= 1000
    ensures distance * position / 1000 <= distance
    ensures position == 1000 ==> distance * position / 1000 == distance
  {
    assert distance * position <= distance * 1000;
  }

  /** The offset towards the target, without the byte conversion. */
  function Offset(distance: nat, period: nat, current: nat): nat
    requires 0 < period
  {
    distance * (current * 1000 / period) / 1000
  }

  lemma OffsetMonotone(distance: nat, period: nat, current: nat, later: nat)
    requires 0 < period && current <= later
    ensures Offset(distance, period, current) <= Offset(distance, period, later)
  {
    DivMonotone(current * 1000, later * 1000, period);
    MulMonotone(distance, current * 1000 / period, later * 1000 / period);
    DivMonotone(distance * (current * 1000 / period), distance * (later * 1000 / period), 1000);
  }

  lemma PositionIsOffset(from: nat, to: nat, period: nat, current: nat)
    requires from < 256 && to < 256 && 0 < period && current <= period
    ensures from <= to ==> CalculatePosition(from, to, period, current) == from + Offset(to - from, period, current)
    ensures to <= from ==> CalculatePosition(from, to, period, current) == from - Offset(from - to, period, current)
    ensures from <= to ==> Offset(to - from, period, current) <= to - from
    ensures to <= from ==> Offset(from - to, period, current) <= from - to
  {
    ThousandthsInRange(period, current);
    var position := current * 1000 / period;
    if from <= to {
      ScaledInRange(to - from, position);
    } else {
      ScaledInRange(from - to, position);
      assert (to - from) * position == -((from - to) * position);
    }
  }

  /** The value sent stays between the two keyframes, starts at the first and ends at the second. */
  lemma PositionStaysBetween(from: nat, to: nat, period: nat, current: nat)
    requires from < 256 && to < 256 && current <= period
    ensures var p := CalculatePosition(from, to, period, current);
            if from <= to then from <= p <= to else to <= p <= from
    ensures current == 0 ==> CalculatePosition(from, to, period, current) == from
    ensures current == period ==>
              (CalculatePosition(from, to, period, current) == to <==> 0 < period || from == to)
  {
    if 0 < period {
      PositionIsOffset(from, to, period, current);
      ThousandthsInRange(period, current);
      ScaledInRange(if from <= to then to - from else from - to, current * 1000 / period);
    }
  }

  lemma DivBounds(a: nat, d: nat)
    requires 0 < d
    ensures d * (a / d) <= a < d * (a / d) + d
  {
  }

  /** Rounding down twice loses less than two. */
  lemma OffsetIsClose(distance: nat, period: nat, current: nat)
    requires distance < 256 && 0 < period
    ensures Offset(distance, period, current) * period <= distance * current
    ensures distance * current < (Offset(distance, period, current) + 2) * period
  {
    var position := current * 1000 / period;
    var offset := distance * position / 1000;
    DivBounds(current * 1000, period);
    DivBounds(distance * position, 1000);
    RoundedTwice(distance, period, current, position, offset);
  }

  lemma RoundedTwice(distance: nat, period: nat, current: nat, position: nat, offset: nat)
    requires distance < 256 && 0 < period
    requires period * position <= current * 1000 < period * position + period
    requires 1000 * offset <= distance * position < 1000 * offset + 1000
    ensures offset * period <= distance * current
    ensures distance * current < (offset + 2) * period
  {
    MulMonotone(distance, period * position, current * 1000);
    MulMonotone(distance, current * 1000, period * position + period);
    MulMonotone(period, 1000 * offset, distance * position);
    MulMonotone(period, distance * position + 1, 1000 * offset + 1000);
    MulMonotone(period, distance, 255);
    assert distance * (period * position) == period * (distance * position);
    assert distance * (period * position + period) == period * (distance * position) + period * distance;
    assert period * (distance * position + 1) == period * (distance * position) + period;
    assert period * (1000 * offset + 1000) == 1000 * (offset * period) + 1000 * period;
    assert period * (1000 * offset) == 1000 * (offset * period);
    assert distance * (current * 1000) == 1000 * (distance * current);
  }

  /** A value on the straight line between two others, rounded towards the first by less than two. */
  predicate OnLine(from: int, to: int, period: nat, current: nat, p: int)
  {
    if period == 0 then p == from
    else if from <= to then (p - from) * period <= (to - from) * current < (p - from + 2) * period
    else (from - p) * period <= (from - to) * current < (from - p + 2) * period
  }

  /** Between keyframes the value is on the straight line. */
  lemma PositionIsClose(from: nat, to: nat, period: nat, current: nat)
    requires from < 256 && to < 256 && current <= period
    ensures OnLine(from, to, period, current, CalculatePosition(from, to, period, current))
  {
    if 0 < period {
      PositionIsOffset(from, to, period, current);
      OffsetIsClose(if from <= to then to - from else from - to, period, current);
    }
  }

  /** Later ticks are never further from the target. */
  lemma PositionIsMonotone(from: nat, to: nat, period: nat, current: nat, later: nat)
    requires from < 256 && to < 256 && current <= later <= period
    ensures var p, q := CalculatePosition(from, to, period, current), CalculatePosition(from, to, period, later);
            if from <= to then p <= q else q <= p
  {
    if 0 < period {
      PositionIsOffset(from, to, period, current);
      PositionIsOffset(from, to, period, later);
      OffsetMonotone(if from <= to then to - from else from - to, period, current, later);
    }
  }

  // ----- one tick

  /** The first repeat of `repeats` from `index`, or -1. */
  function FindRepeatPoint(repeats: seq<RepeatEntry>, index: nat): (r: int)
    ensures -1 <= r < |repeats|
    ensures r != -1 ==> repeats[r].from == index
  {
    if repeats == [] then -1
    else if repeats[0].from == index then 0
    else
      var r := FindRepeatPoint(repeats[1..], index);
      if r == -1 then -1 else r + 1
  }

  lemma {:induction false} FindRepeatPointIsFirst(repeats: seq<RepeatEntry>, index: nat)
    ensures
      var r := FindRepeatPoint(repeats, index);
      forall k | 0 <= k < (if r == -1 then |repeats| else r) :: repeats[k].from != index
  {
    if repeats != [] && repeats[0].from != index {
      FindRepeatPointIsFirst(repeats[1..], index);
    }
  }

  /** Which jump is found depends only on where the jumps start. */
  lemma {:induction false} FindRepeatPointByFrom(repeats: seq<RepeatEntry>, repeats': seq<RepeatEntry>, index: nat)
    requires |repeats'| == |repeats|
    requires forall k | 0 <= k < |repeats| :: repeats'[k].from == repeats[k].from
    ensures FindRepeatPoint(repeats', index) == FindRepeatPoint(repeats, index)
  {
    if repeats != [] {
      FindRepeatPointByFrom(repeats[1..], repeats'[1..], index);
    }
  }

  /** The value of keyframe `i` at tick `tick`, on the way from the keyframe before it. */
  function ValueAt(bases: seq<BaseEntry>, i: nat, tick: nat): int
    requires i < |bases|
  {
    CalculatePosition(bases[if i == 0 then 0 else i - 1].val, bases[i].val, bases[i].timeTicks, tick)
  }

  /** One sent tick: keyframe and tick within it. */
  datatype Frame = Frame(i: nat, tick: nat)

  function FrameOf(e: ChannelEntry): Frame { Frame(e.index, e.tickCount) }

  /** The values sent for `frames`. */
  function Render(bases: seq<BaseEntry>, frames: seq<Frame>): (values: seq<int>)
    requires forall k | 0 <= k < |frames| :: frames[k].i < |bases|
    ensures |values| == |frames|
    ensures forall k | 0 <= k < |frames| :: values[k] == ValueAt(bases, frames[k].i, frames[k].tick)
  {
    seq(|frames|, k requires 0 <= k < |frames| => ValueAt(bases, frames[k].i, frames[k].tick))
  }

  function Emitted(e: ChannelEntry): int
    requires !Done(e)
  {
    ValueAt(e.baseEntries, e.index, e.tickCount)
  }

  function JumpTo(e: ChannelEntry, to: Byte): ChannelEntry
    requires to < |e.baseEntries|
  {
    e.(index := to, tickCount := e.baseEntries[to].timeTicks)
  }

  function SetCounter(e: ChannelEntry, r: nat, counter: Int16): ChannelEntry
    requires r < |e.repeatEntries|
  {
    e.(repeatEntries := e.repeatEntries[r := e.repeatEntries[r].(counter := counter)])
  }

  /** The keyframe's last tick was sent: go on, or back. The index is a byte. */
  function Finish(e: ChannelEntry): (e': ChannelEntry)
    requires Valid(e) && !Done(e)
    ensures Valid(e')
  {
    var r := FindRepeatPoint(e.repeatEntries, e.index);
    var next := e.(index := NextByte(e.index), tickCount := 0);
    if r == -1 then next
    else
      var rep := e.repeatEntries[r];
      if rep.repeatTimes == INFINITE then JumpTo(e, rep.to)
      else if rep.repeatTimes == rep.counter + 1 then SetCounter(next, r, 0)
      else SetCounter(JumpTo(e, rep.to), r, NextInt16(rep.counter))
  }

  function Advance(e: ChannelEntry): (e': ChannelEntry)
    requires Valid(e) && !Done(e)
    ensures Valid(e')
  {
    if e.tickCount + 1 <= e.baseEntries[e.index].timeTicks then e.(tickCount := e.tickCount + 1)
    else Finish(e)
  }

  /** The channel after `n` ticks; a finished one no longer changes. */
  function RunFor(e: ChannelEntry, n: nat): (e': ChannelEntry)
    requires Valid(e)
    ensures Valid(e')
    decreases n
  {
    if n == 0 || Done(e) then e else RunFor(Advance(e), n - 1)
  }

  /** The frames of `n` ticks, as far as there are any. */
  function Shown(e: ChannelEntry, n: nat): (frames: seq<Frame>)
    requires Valid(e)
    ensures |frames| <= n && forall k | 0 <= k < |frames| :: frames[k].i < |e.baseEntries|
    decreases n
  {
    if n == 0 || Done(e) then [] else [FrameOf(e)] + Shown(Advance(e), n - 1)
  }

  /** What is sent during `n` ticks. */
  function Sent(e: ChannelEntry, n: nat): seq<int>
    requires Valid(e)
  {
    Render(e.baseEntries, Shown(e, n))
  }

  lemma SentTickByTick(e: ChannelEntry, n: nat)
    requires Valid(e)
    ensures Sent(e, n) == if n == 0 || Done(e) then [] else [Emitted(e)] + Sent(Advance(e), n - 1)
  {
    if n != 0 && !Done(e) {
      assert Shown(e, n) == [FrameOf(e)] + Shown(Advance(e), n - 1);
    }
  }

  /** Any frame is that of the player after the ticks before it. */
  lemma {:induction false} ShownAt(e: ChannelEntry, n: nat, k: nat)
    requires Valid(e) && k < |Shown(e, n)|
    ensures !Done(RunFor(e, k)) && Shown(e, n)[k] == FrameOf(RunFor(e, k))
    ensures RunFor(e, k).baseEntries == e.baseEntries
    decreases k
  {
    if k > 0 {
      var next := Advance(e);
      ShownAt(next, n - 1, k - 1);
      assert Shown(e, n)[k] == Shown(next, n - 1)[k - 1] && RunFor(e, k) == RunFor(next, k - 1);
    }
  }

  /** Whatever is sent lies on the straight line from the keyframe before to the one that is played. */
  lemma SentIsOnLine(e: ChannelEntry, n: nat, k: nat)
    requires Valid(e) && k < |Sent(e, n)|
    ensures
      var q := RunFor(e, k);
      && q.index < |e.baseEntries|
      && OnLine(e.baseEntries[if q.index == 0 then 0 else q.index - 1].val, e.baseEntries[q.index].val,
                e.baseEntries[q.index].timeTicks, q.tickCount, Sent(e, n)[k])
  {
    ShownAt(e, n, k);
    var q := RunFor(e, k);
    var from, to := e.baseEntries[if q.index == 0 then 0 else q.index - 1].val, e.baseEntries[q.index];
    PositionIsClose(from, to.val, to.timeTicks, q.tickCount);
  }

  /** A scenery whose last keyframe was just sent left its channel there, unless that keyframe takes no tick. */
  lemma LeavesLastKeyframe(e: ChannelEntry)
    requires Valid(e) && !Done(e) && Done(Advance(e))
    ensures
      var n := |e.baseEntries|;
      && e.index == n - 1
      && (Emitted(e) == e.baseEntries[n - 1].val <==>
            0 < e.baseEntries[n - 1].timeTicks || n == 1 || e.baseEntries[n - 2].val == e.baseEntries[n - 1].val)
  {
    var n := |e.baseEntries|;
    var last := e.baseEntries[n - 1];
    var before := e.baseEntries[if n == 1 then 0 else n - 2];
    PositionStaysBetween(before.val, last.val, last.timeTicks, last.timeTicks);
  }

  /** Two keyframes, the second at once: the channel stays at the first, not at the last reached value. */
  lemma ImmediateLastKeyframeIsNotReached()
    ensures
      var e := NewEntry(0, [MakeBaseEntry(10, 0), MakeBaseEntry(200, 19)], []);
      Valid(e) && Sent(e, 2) == [10, 10] && Done(RunFor(e, 2))
  {
    assert MakeBaseEntry(10, 0) == BaseEntry(10, 0) && MakeBaseEntry(200, 19) == BaseEntry(200, 0);
    var e := NewEntry(0, [BaseEntry(10, 0), BaseEntry(200, 0)], []);
    var e1 := Advance(e);
    assert e1 == e.(index := 1);
    var e2 := Advance(e1);
    assert Done(e2);
    SentTickByTick(e, 2);
    SentTickByTick(e1, 1);
    SentTickByTick(e2, 0);
  }
}
