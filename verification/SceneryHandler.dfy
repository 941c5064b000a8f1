/** Lists built element by element. */
module FlatMaps {

  function FlatMap<A, B>(f: A -> seq<B>, s: seq<A>): seq<B>
  {
    if s == [] then [] else f(s[0]) + FlatMap(f, s[1..])
  }

  lemma FlatMapOne<A, B>(f: A -> seq<B>, a: A)
    ensures FlatMap(f, [a]) == f(a)
  {
    assert [a][1..] == [];
    assert FlatMap(f, [a]) == f(a) + FlatMap(f, []);
  }

  lemma {:induction false} FlatMapInTurn<A, B>(f: A -> seq<B>, s: seq<A>, t: seq<A>)
    ensures FlatMap(f, s + t) == FlatMap(f, s) + FlatMap(f, t)
  {
    if s == [] {
      assert s + t == t;
    } else {
      assert (s + t)[0] == s[0] && (s + t)[1..] == s[1..] + t;
      FlatMapInTurn(f, s[1..], t);
    }
  }

  /** Mapping twice is mapping once, with what the second makes of the first's result. */
  lemma {:induction false} FlatMapTwice<A, B, C>(f: A -> seq<B>, g: B -> seq<C>, h: A -> seq<C>, s: seq<A>)
    requires forall k | 0 <= k < |s| :: h(s[k]) == FlatMap(g, f(s[k]))
    ensures FlatMap(g, FlatMap(f, s)) == FlatMap(h, s)
  {
    if s != [] {
      FlatMapInTurn(g, f(s[0]), FlatMap(f, s[1..]));
      FlatMapTwice(f, g, h, s[1..]);
    }
  }
}

/** All channels together: one tick for each, finished ones removed, at most one scenery a channel. */
module SceneryHandler {
  import opened Scenery
  import opened FlatMaps

  /** What the consumer is told: a channel and its value. */
  datatype Value = Value(channel: Word, val: int)

  // ----- one tick of the whole list

  /** What becomes of an entry: stepped, or removed when it was finished. */
  function Stepped(e: ChannelEntry): seq<ChannelEntry>
  {
    if Valid(e) && !Done(e) then [Advance(e)] else []
  }

  function Told(e: ChannelEntry): seq<Value>
  {
    if Done(e) then [] else [Value(e.channelIndex, Emitted(e))]
  }

  function Ticked(entries: seq<ChannelEntry>): seq<ChannelEntry> { FlatMap(Stepped, entries) }

  function Consumed(entries: seq<ChannelEntry>): seq<Value> { FlatMap(Told, entries) }

  predicate AllValid(entries: seq<ChannelEntry>)
  {
    forall k | 0 <= k < |entries| :: Valid(entries[k])
  }

  predicate Distinct(entries: seq<ChannelEntry>)
  {
    forall i, j | 0 <= i < j < |entries| :: entries[i].channelIndex != entries[j].channelIndex
  }

  /** The entries whose indices are not among `gone`, in order. */
  function Without(entries: seq<ChannelEntry>, gone: seq<nat>): seq<ChannelEntry>
  {
    if entries == [] then []
    else
      var n := |entries| - 1;
      Without(entries[..n], gone) + if n in gone then [] else [entries[n]]
  }

  lemma {:induction false} WithoutIgnoresBeyond(entries: seq<ChannelEntry>, gone: seq<nat>, gone': seq<nat>)
    requires forall k: nat | k < |entries| :: k in gone <==> k in gone'
    ensures Without(entries, gone) == Without(entries, gone')
  {
    if entries != [] {
      WithoutIgnoresBeyond(entries[..|entries| - 1], gone, gone');
    }
  }

  /** Erasing the last of the noted entries leaves the others where they are. */
  lemma {:induction false} ErasingFromBack(entries: seq<ChannelEntry>, gone: seq<nat>, r: nat)
    requires r < |entries| && forall k | k in gone :: k < r
    ensures Without(entries[..r] + entries[r + 1..], gone) == Without(entries, gone + [r])
  {
    var n := |entries| - 1;
    var rest := entries[..r] + entries[r + 1..];
    if n == r {
      assert rest == entries[..n];
      WithoutIgnoresBeyond(entries[..n], gone, gone + [r]);
    } else {
      assert rest[..|rest| - 1] == entries[..n][..r] + entries[..n][r + 1..];
      ErasingFromBack(entries[..n], gone, r);
    }
  }

  lemma WithoutGone(entries: seq<ChannelEntry>, gone: seq<nat>, i: nat)
    requires i < |entries|
    ensures Without(entries[..i + 1], gone + [i]) == Without(entries[..i], gone)
  {
    assert entries[..i + 1][..i] == entries[..i];
    WithoutIgnoresBeyond(entries[..i], gone, gone + [i]);
  }

  lemma WithoutStaying(entries: seq<ChannelEntry>, gone: seq<nat>, i: nat, e: ChannelEntry)
    requires i < |entries| && forall k | 0 <= k < |gone| :: gone[k] < i
    ensures Without(entries[i := e][..i + 1], gone) == Without(entries[..i], gone) + [e]
  {
    assert entries[i := e][..i + 1][..i] == entries[..i];
  }

  lemma {:induction false} WithoutNone(entries: seq<ChannelEntry>)
    ensures Without(entries, []) == entries
  {
    if entries != [] {
      WithoutNone(entries[..|entries| - 1]);
    }
  }

  ghost predicate Increasing(s: seq<nat>, bound: nat)
  {
    && (forall k | 0 <= k < |s| :: s[k] < bound)
    && (forall j, k | 0 <= j < k < |s| :: s[j] < s[k])
  }

  ghost predicate SameChannels(was: seq<ChannelEntry>, now: seq<ChannelEntry>)
  {
    |now| == |was| && forall k | 0 <= k < |was| :: now[k].channelIndex == was[k].channelIndex
  }

  /** The list while the tick goes through it: the first `i` stepped, those in `gone` to be removed. */
  ghost predicate TickedUpTo(was: seq<ChannelEntry>, now: seq<ChannelEntry>, gone: seq<nat>, i: nat)
  {
    && SameChannels(was, now) && AllValid(now) && i <= |was| && Increasing(gone, i)
    && now[i..] == was[i..]
    && Without(now[..i], gone) == Ticked(was[..i])
  }

  lemma TickedOneMore(entries: seq<ChannelEntry>, i: nat)
    requires i < |entries|
    ensures Ticked(entries[..i + 1]) == Ticked(entries[..i]) + Stepped(entries[i])
    ensures Consumed(entries[..i + 1]) == Consumed(entries[..i]) + Told(entries[i])
  {
    assert entries[..i + 1] == entries[..i] + [entries[i]];
    FlatMapInTurn(Stepped, entries[..i], [entries[i]]);
    FlatMapInTurn(Told, entries[..i], [entries[i]]);
    FlatMapOne(Stepped, entries[i]);
    FlatMapOne(Told, entries[i]);
  }

  lemma FinishedIsNoted(was: seq<ChannelEntry>, now: seq<ChannelEntry>, gone: seq<nat>, i: nat)
    requires TickedUpTo(was, now, gone, i) && i < |was| && Done(now[i])
    ensures TickedUpTo(was, now, gone + [i], i + 1)
  {
    assert now[i] == now[i..][0] == was[i];
    assert now[i + 1..] == now[i..][1..] == was[i..][1..] == was[i + 1..];
    TickedOneMore(was, i);
    WithoutGone(now, gone, i);
  }

  lemma UnfinishedIsStepped(was: seq<ChannelEntry>, now: seq<ChannelEntry>, gone: seq<nat>, i: nat, e: ChannelEntry)
    requires TickedUpTo(was, now, gone, i) && i < |was|
    requires Stepped(now[i]) == [e] && Valid(e) && e.channelIndex == now[i].channelIndex
    ensures TickedUpTo(was, now[i := e], gone, i + 1)
  {
    assert now[i] == now[i..][0] == was[i];
    assert now[i := e][i + 1..] == now[i..][1..] == was[i..][1..] == was[i + 1..];
    TickedOneMore(was, i);
    WithoutStaying(now, gone, i, e);
  }

  class SceneryHandler {
    var entries: seq<ChannelEntry>
    /** Everything the consumer was told. */
    var consumed: seq<Value>

    ghost predicate Valid()
      reads this
    {
      AllValid(entries) && Distinct(entries)
    }

    constructor ()
      ensures Valid() && entries == [] && consumed == []
    {
      entries, consumed := [], [];
    }

    /** Sends an unfinished channel's value and moves its place and counters on. */
    method StepEntry(i: nat)
      requires i < |entries| && Scenery.Valid(entries[i]) && !Done(entries[i])
      modifies this
      ensures entries == old(entries)[i := Advance(old(entries[i]))]
      ensures consumed == old(consumed) + [Value(old(entries[i]).channelIndex, Emitted(old(entries[i])))]
    {
      var entry := entries[i];
      var from := entry.baseEntries[if entry.index == 0 then 0 else entry.index - 1];
      var to := entry.baseEntries[entry.index];
      var position := CalculatePosition(from.val, to.val, to.timeTicks, entry.tickCount);
      consumed := consumed + [Value(entry.channelIndex, position)];
      entry := entry.(tickCount := entry.tickCount + 1);
      if to.timeTicks < entry.tickCount {
        entry := entry.(tickCount := 0);
        var repeatIndex := FindRepeatPoint(entry.repeatEntries, entry.index);
        if repeatIndex == -1 {
          entry := entry.(index := NextByte(entry.index));
        } else {
          var repeat := entry.repeatEntries[repeatIndex];
          if repeat.repeatTimes == INFINITE {
            entry := entry.(index := repeat.to);
            entry := entry.(tickCount := entry.baseEntries[entry.index].timeTicks);
          } else if repeat.repeatTimes == repeat.counter + 1 {
            entry := entry.(index := NextByte(entry.index));
            entry := entry.(repeatEntries := entry.repeatEntries[repeatIndex := repeat.(counter := 0)]);
          } else {
            repeat := repeat.(counter := NextInt16(repeat.counter));
            entry := entry.(repeatEntries := entry.repeatEntries[repeatIndex := repeat]);
            entry := entry.(index := repeat.to);
            entry := entry.(tickCount := entry.baseEntries[entry.index].timeTicks);
          }
        }
      }
      entries := entries[i := entry];
    }

    /** Steps one channel in place, or notes it if it was finished before. */
    method StepOne(i: nat, removeList: seq<nat>, ghost was: seq<ChannelEntry>) returns (removeList': seq<nat>)
      requires i < |entries| == |was| && TickedUpTo(was, entries, removeList, i)
      modifies this
      ensures |entries| == |was| && TickedUpTo(was, entries, removeList', i + 1)
      ensures consumed == old(consumed) + Told(was[i])
    {
      var entry := entries[i];
      assert entry == entries[i..][0] == was[i];
      if Done(entry) {
        FinishedIsNoted(was, entries, removeList, i);
        removeList' := removeList + [i];
      } else {
        UnfinishedIsStepped(was, entries, removeList, i, Advance(entry));
        removeList' := removeList;
        StepEntry(i);
      }
    }

    /** Steps every channel in place and notes those that were finished before. */
    method StepAll() returns (removeList: seq<nat>)
      requires Valid()
      modifies this
      ensures AllValid(entries) && SameChannels(old(entries), entries)
      ensures consumed == old(consumed) + Consumed(old(entries))
      ensures Increasing(removeList, |entries|) && Without(entries, removeList) == Ticked(old(entries))
    {
      removeList := [];
      ghost var was := entries;
      assert was[..0] == [];
      for i := 0 to |entries|
        invariant |entries| == |was| && TickedUpTo(was, entries, removeList, i)
        invariant consumed == old(consumed) + Consumed(was[..i])
      {
        TickedOneMore(was, i);
        removeList := StepOne(i, removeList, was);
      }
      assert was[..|was|] == was && entries[..|entries|] == entries;
    }

    /** Erases the noted entries, the last one first. */
    method EraseFromBack(removeList: seq<nat>)
      requires Valid()
      requires Increasing(removeList, |entries|)
      modifies `entries
      ensures Valid() && entries == Without(old(entries), removeList)
    {
      ghost var was := entries;
      var k := |removeList|;
      assert removeList[..k] == removeList;
      while k > 0
        invariant 0 <= k <= |removeList| && AllValid(entries) && Distinct(entries)
        invariant forall j | 0 <= j < k :: removeList[j] < |entries|
        invariant Without(entries, removeList[..k]) == Without(was, removeList)
      {
        k := k - 1;
        var index := removeList[k];
        assert removeList[..k + 1] == removeList[..k] + [index];
        ErasingFromBack(entries, removeList[..k], index);
        entries := entries[..index] + entries[index + 1..];
      }
      WithoutNone(entries);
    }

    method Tick()
      requires Valid()
      modifies this
      ensures Valid()
      ensures entries == Ticked(old(entries)) && consumed == old(consumed) + Consumed(old(entries))
    {
      var removeList := StepAll();
      EraseFromBack(removeList);
    }

    /** Replaces the channel's scenery where there is one, or adds it at the end. */
    method AddScenery(channel: Word, bases: seq<BaseEntry>, repeats: seq<RepeatEntry>)
      requires Valid() && forall k | 0 <= k < |repeats| :: repeats[k].to < |bases|
      modifies `entries
      ensures Valid()
      ensures
        var e := ChannelEntry(channel, 0, 0, bases, repeats);
        if forall k | 0 <= k < |old(entries)| :: old(entries)[k].channelIndex != channel then
          entries == old(entries) + [e]
        else
          exists k ::
            && 0 <= k < |old(entries)| && old(entries)[k].channelIndex == channel
            && entries == old(entries)[k := e]
    {
      var k := 0;
      while k < |entries| && entries[k].channelIndex != channel
        invariant 0 <= k <= |entries|
        invariant forall j | 0 <= j < k :: entries[j].channelIndex != channel
      {
        k := k + 1;
      }
      ghost var was := entries;
      if k == |entries| {
        entries := entries + [NewEntry(channel, bases, repeats)];
      } else {
        entries := entries[k := NewEntry(channel, bases, repeats)];
        assert was[k].channelIndex == channel;
      }
    }

    method ClearAll()
      modifies `entries
      ensures Valid() && entries == []
    {
      entries := [];
    }
  }

  // ----- each channel as if alone

  /** The entries of one channel. */
  function Of(entries: seq<ChannelEntry>, channel: Word): seq<ChannelEntry>
  {
    FlatMap((e: ChannelEntry) => Mine(e, channel), entries)
  }

  function Mine(e: ChannelEntry, channel: Word): seq<ChannelEntry>
  {
    if e.channelIndex == channel then [e] else []
  }

  /** What one channel's consumer is told. */
  function ToldTo(values: seq<Value>, channel: Word): seq<int>
  {
    FlatMap((v: Value) => ForMe(v, channel), values)
  }

  function ForMe(v: Value, channel: Word): seq<int>
  {
    if v.channel == channel then [v.val] else []
  }

  lemma StepsAlone(e: ChannelEntry, channel: Word)
    ensures Of(Stepped(e), channel) == Ticked(Mine(e, channel))
    ensures ToldTo(Told(e), channel) == ToldTo(Consumed(Mine(e, channel)), channel)
  {
    FlatMapOne(Stepped, e);
    FlatMapOne(Told, e);
    var mine := (x: ChannelEntry) => Mine(x, channel);
    var forMe := (v: Value) => ForMe(v, channel);
    if Valid(e) && !Done(e) {
      FlatMapOne(mine, Advance(e));
    }
    if !Done(e) {
      FlatMapOne(forMe, Told(e)[0]);
    }
  }

  /** One tick of the list, seen from one channel, is one tick of that channel. */
  lemma TickActsAlone(entries: seq<ChannelEntry>, channel: Word)
    ensures Of(Ticked(entries), channel) == Ticked(Of(entries, channel))
    ensures ToldTo(Consumed(entries), channel) == ToldTo(Consumed(Of(entries, channel)), channel)
  {
    var mine := (x: ChannelEntry) => Mine(x, channel);
    var forMe := (v: Value) => ForMe(v, channel);
    var stepped := (x: ChannelEntry) => FlatMap(Stepped, Mine(x, channel));
    var told := (x: ChannelEntry) => FlatMap(Told, Mine(x, channel));
    var heard := (x: ChannelEntry) => FlatMap(forMe, FlatMap(Told, Mine(x, channel)));
    forall e
      ensures stepped(e) == FlatMap(mine, Stepped(e)) && heard(e) == FlatMap(forMe, Told(e))
    {
      StepsAlone(e, channel);
    }
    FlatMapTwice(Stepped, mine, stepped, entries);
    FlatMapTwice(mine, Stepped, stepped, entries);
    FlatMapTwice(Told, forMe, heard, entries);
    FlatMapTwice(mine, Told, told, entries);
    FlatMapTwice(told, forMe, heard, entries);
  }

  function TickedFor(entries: seq<ChannelEntry>, n: nat): seq<ChannelEntry>
    decreases n
  {
    if n == 0 then entries else TickedFor(Ticked(entries), n - 1)
  }

  function ConsumedFor(entries: seq<ChannelEntry>, n: nat): seq<Value>
    decreases n
  {
    if n == 0 then [] else Consumed(entries) + ConsumedFor(Ticked(entries), n - 1)
  }

  /** Seen from one channel, `n` ticks of the list are `n` ticks of that channel. */
  lemma {:induction false} TicksActAlone(entries: seq<ChannelEntry>, channel: Word, n: nat)
    ensures Of(TickedFor(entries, n), channel) == TickedFor(Of(entries, channel), n)
    ensures ToldTo(ConsumedFor(entries, n), channel) == ToldTo(ConsumedFor(Of(entries, channel), n), channel)
    decreases n
  {
    if n != 0 {
      var forMe := (v: Value) => ForMe(v, channel);
      var mine := Of(entries, channel);
      TickActsAlone(entries, channel);
      TicksActAlone(Ticked(entries), channel, n - 1);
      FlatMapInTurn(forMe, Consumed(entries), ConsumedFor(Ticked(entries), n - 1));
      FlatMapInTurn(forMe, Consumed(mine), ConsumedFor(Ticked(mine), n - 1));
    }
  }

  /** A tick of a channel by itself: it is told one value and moves on, or is gone. */
  lemma OneTickAlone(e: ChannelEntry)
    requires Valid(e)
    ensures Ticked([e]) == if Done(e) then [] else [Advance(e)]
    ensures ToldTo(Consumed([e]), e.channelIndex) == if Done(e) then [] else [Emitted(e)]
  {
    var forMe := (v: Value) => ForMe(v, e.channelIndex);
    FlatMapOne(Stepped, e);
    FlatMapOne(Told, e);
    if !Done(e) {
      FlatMapOne(forMe, Told(e)[0]);
    }
  }

  /** A channel by itself is told what its player sends. */
  lemma {:induction false} AloneIsTheirPlayer(e: ChannelEntry, n: nat)
    requires Valid(e)
    ensures ToldTo(ConsumedFor([e], n), e.channelIndex) == Sent(e, n)
    decreases n
  {
    SentTickByTick(e, n);
    if n != 0 {
      OneTickAlone(e);
      FlatMapInTurn((v: Value) => ForMe(v, e.channelIndex), Consumed([e]), ConsumedFor(Ticked([e]), n - 1));
      if Done(e) {
        NothingIsTold(n - 1);
      } else {
        AloneIsTheirPlayer(Advance(e), n - 1);
      }
    }
  }

  lemma {:induction false} NothingIsTold(n: nat)
    ensures ConsumedFor([], n) == []
  {
    if n != 0 {
      NothingIsTold(n - 1);
    }
  }

  lemma {:induction false} OneOf(entries: seq<ChannelEntry>, k: nat)
    requires Distinct(entries) && k < |entries|
    ensures Of(entries, entries[k].channelIndex) == [entries[k]]
  {
    if k == 0 {
      NoneOf(entries[1..], entries[0].channelIndex);
    } else {
      OneOf(entries[1..], k - 1);
    }
  }

  lemma {:induction false} NoneOf(entries: seq<ChannelEntry>, channel: Word)
    requires forall k | 0 <= k < |entries| :: entries[k].channelIndex != channel
    ensures Of(entries, channel) == []
  {
    if entries != [] {
      NoneOf(entries[1..], channel);
    }
  }

  /** Among any other channels, a channel sends over `n` ticks just what its player sends by itself. */
  lemma EveryChannelActsAlone(entries: seq<ChannelEntry>, k: nat, n: nat)
    requires AllValid(entries) && Distinct(entries) && k < |entries|
    ensures ToldTo(ConsumedFor(entries, n), entries[k].channelIndex) == Sent(entries[k], n)
  {
    OneOf(entries, k);
    TicksActAlone(entries, entries[k].channelIndex, n);
    AloneIsTheirPlayer(entries[k], n);
  }
}
