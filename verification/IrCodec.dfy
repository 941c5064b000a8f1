/** Sending commands as bursts of infrared carrier. */
module IrTransmitter {
  import opened Bits

  const HEAL := 0x8305E8
  const KILL := 0x8300E8
  const GLOBAL_LENGTH_BITS: nat := 24
  const ATTACK_LENGTH_BITS: nat := 14

  datatype Symbol = Start | Zero | One

  datatype Burst = Burst(gpio: int, symbol: Symbol)

  function SymbolOf(bit: bool): Symbol { if bit then One else Zero }

  /** The bits of a command as they go out, the highest first. */
  function Message(v: nat, n: nat): (bits: seq<bool>)
    ensures |bits| == n
  {
    Flip(Low(v, n))
  }

  /** The number that bits spell, the highest first. */
  function Spelled(bits: seq<bool>): nat
  {
    if bits == [] then 0 else 2 * Spelled(bits[..|bits| - 1]) + if bits[|bits| - 1] then 1 else 0
  }

  /** The bits of a message spell its value, the highest first. */
  lemma {:induction false} MessageSpellsValue(v: nat, n: nat)
    requires v < Pow2(n)
    ensures Spelled(Message(v, n)) == v
  {
    if n > 0 {
      MessageSpellsValue(v / 2, n - 1);
      var bits := Message(v, n);
      assert bits[..n - 1] == Message(v / 2, n - 1);
    }
  }

  /** What does not fit a command is not sent, and does not disturb the rest. */
  lemma OnlyLowBitsAreSent(v: nat, n: nat)
    ensures Cut(v, n) < Pow2(n) && Message(v, n) == Message(Cut(v, n), n)
  {
    CutFits(v, n);
    forall i | 0 <= i < n ensures Bit(Cut(v, n), i) == Bit(v, i) {
      BitOfCut(v, n, i);
    }
  }

  /** Bits as bursts on a pin. */
  function Bursts(gpio: int, bits: seq<bool>): (r: seq<Burst>)
    ensures |r| == |bits|
  {
    seq(|bits|, i requires 0 <= i < |bits| => Burst(gpio, SymbolOf(bits[i])))
  }

  lemma BurstsAppend(gpio: int, a: seq<bool>, b: seq<bool>)
    ensures Bursts(gpio, a + b) == Bursts(gpio, a) + Bursts(gpio, b)
  {
  }

  /** The bytes of a word in memory, lowest first. */
  function Bytes(word: nat, count: nat): seq<nat>
    decreases count
  {
    if count == 0 then [] else [Cut(word, 8)] + Bytes(Shift(word, 8), count - 1)
  }

  /** The bits of bytes, each lowest first. */
  function BitsOfBytes(data: seq<nat>): seq<bool>
  {
    if data == [] then [] else Low(data[0], 8) + BitsOfBytes(data[1..])
  }

  lemma {:induction false} BitsOfWord(word: nat, count: nat)
    ensures BitsOfBytes(Bytes(word, count)) == Low(word, 8 * count)
    decreases count
  {
    if count > 0 {
      BitsOfWord(Shift(word, 8), count - 1);
      assert Bytes(word, count)[1..] == Bytes(Shift(word, 8), count - 1);
      var all := Low(Cut(word, 8), 8) + Low(Shift(word, 8), 8 * (count - 1));
      forall i | 0 <= i < 8 * count ensures all[i] == Low(word, 8 * count)[i] {
        if i < 8 {
          BitOfCut(word, 8, i);
        } else {
          BitOfShift(word, 8, i - 8);
        }
      }
      assert all == Low(word, 8 * count);
    }
  }

  lemma {:induction false} BitsOfBytesAppend(data: seq<nat>, b: nat)
    ensures BitsOfBytes(data + [b]) == BitsOfBytes(data) + Low(b, 8)
  {
    if data == [] {
      assert BitsOfBytes([b]) == Low(b, 8) + BitsOfBytes([]);
    } else {
      BitsOfBytesAppend(data[1..], b);
      assert (data + [b])[1..] == data[1..] + [b];
    }
  }

  class IrTransmitter {
    var gpios: seq<int>
    /** The bursts that went out. */
    var sent: seq<Burst>

    constructor ()
      ensures gpios == [] && sent == []
    {
      gpios, sent := [], [];
    }

    method AddGpio(gpio: int)
      modifies this`gpios
      ensures gpios == if gpio in old(gpios) then old(gpios) else old(gpios) + [gpio]
    {
      if gpio !in gpios {
        gpios := gpios + [gpio];
      }
    }

    /** A heal command goes out highest bit first, on a pin that was added. */
    method SendHeal(gpio: int)
      modifies this`sent
      ensures sent == old(sent) + if gpio in gpios then Command(gpio, 0x8305E8, 24) else []
    {
      if gpio !in gpios {
        return;
      }
      var data := ReverseInt(HEAL, 24);
      SendBytes(gpio, Bytes(data, 3));
      BitsOfWord(data, 3);
      LowOfReversed(HEAL, 24);
    }

    method SendKill(gpio: int)
      modifies this`sent
      ensures sent == old(sent) + if gpio in gpios then Command(gpio, 0x8300E8, 24) else []
    {
      if gpio !in gpios {
        return;
      }
      var data := ReverseInt(KILL, 24);
      SendBytes(gpio, Bytes(data, 3));
      BitsOfWord(data, 3);
      LowOfReversed(KILL, 24);
    }

    method SendAttack(gpio: int, raw: nat)
      modifies this`sent
      ensures sent == old(sent) + if gpio in gpios then Command(gpio, raw, 14) else []
    {
      if gpio !in gpios {
        return;
      }
      var cmd := ReverseInt(raw, 14);
      sent := sent + [Burst(gpio, Start)];
      for i := 0 to 14
        invariant sent == old(sent) + [Burst(gpio, Start)] + Bursts(gpio, Low(cmd, i))
      {
        sent := sent + [Burst(gpio, SymbolOf(Bit(cmd, i)))];
        LowNext(gpio, cmd, i);
      }
      LowOfReversed(raw, 14);
    }

    method SendBytes(gpio: int, data: seq<nat>)
      modifies this`sent
      ensures sent == old(sent) + [Burst(gpio, Start)] + Bursts(gpio, BitsOfBytes(data))
    {
      sent := sent + [Burst(gpio, Start)];
      for i := 0 to |data|
        invariant sent == old(sent) + [Burst(gpio, Start)] + Bursts(gpio, BitsOfBytes(data[..i]))
      {
        SendByte(gpio, data[i]);
        assert data[..i + 1] == data[..i] + [data[i]];
        BitsOfBytesAppend(data[..i], data[i]);
        BurstsAppend(gpio, BitsOfBytes(data[..i]), Low(data[i], 8));
      }
      assert data[..|data|] == data;
    }

    method SendByte(gpio: int, data: nat)
      modifies this`sent
      ensures sent == old(sent) + Bursts(gpio, Low(data, 8))
    {
      for i := 0 to 8
        invariant sent == old(sent) + Bursts(gpio, Low(data, i))
      {
        sent := sent + [Burst(gpio, SymbolOf(Bit(data, i)))];
        LowNext(gpio, data, i);
      }
    }
  }

  /** A whole command on the air. */
  function Command(gpio: int, v: nat, n: nat): seq<Burst>
  {
    [Burst(gpio, Start)] + Bursts(gpio, Message(v, n))
  }

  lemma LowNext(gpio: int, v: nat, i: nat)
    ensures Bursts(gpio, Low(v, i + 1)) == Bursts(gpio, Low(v, i)) + [Burst(gpio, SymbolOf(Bit(v, i)))]
  {
    assert Low(v, i + 1) == Low(v, i) + [Bit(v, i)];
  }

  /** The half waves in a burst: at the least 2741 for a start, 1157 for a zero and 1690 for a one, in microseconds. */
  function Times(symbol: Symbol): (times: nat)
    ensures CarrierUs(times) == if symbol == Start then 2741 else if symbol == Zero then 1157 else 1690
  {
    match symbol
    case Start => 262
    case Zero => 64
    case One => 131
  }

  /** The least time a burst of so many half waves takes, with its pause. */
  function CarrierUs(times: nat): nat { 645 + 8 * times - 3 * (times % 2) }

  /** The waits of a burst: 5 and 11 in turn, then 6 and 639. */
  method SendCarrier(times: nat) returns (us: nat)
    ensures us == CarrierUs(times)
  {
    var state := true;
    us := 0;
    for i := 0 to times
      invariant state == (i % 2 == 0) && us == 8 * i - 3 * (i % 2)
    {
      us := us + if state then 5 else 11;
      state := !state;
    }
    us := us + 6 + 639;
  }
}

/** Reading commands back from the times of the edges. */
module IrReader {
  import opened Bits
  import T = IrTransmitter

  const SIZE: nat := 64

  /** The gaps between two edges that read as a one, and as a zero. */
  predicate IsOne(gap: int) { 1500 < gap < 2000 }

  predicate IsZero(gap: int) { 900 < gap < 1400 }

  /** The gaps that a bit may be read from: between 1500 and 2000 for a one, between 900 and 1400 for a zero. */
  predicate InWindow(bit: bool, gap: int) { if bit then 1500 < gap < 2000 else 900 < gap < 1400 }

  /** A value handed to the callback, with its length. */
  datatype Report = Report(val: nat, length: nat)

  /** The edges since the last long gap, and whether there may be a message among them. */
  datatype State = State(stamps: seq<int>, flagged: bool)

  // ----- decoding

  function Gap(stamps: seq<int>, i: nat): int
    requires i + 1 < |stamps|
  {
    stamps[i + 1] - stamps[i]
  }

  /** How many of the first `k` gaps read as a bit. */
  function Read(stamps: seq<int>, k: nat): (count: nat)
    requires k < |stamps| || k == 0
    ensures count <= k
  {
    if k == 0 then 0
    else Read(stamps, k - 1) + if IsOne(Gap(stamps, k - 1)) || IsZero(Gap(stamps, k - 1)) then 1 else 0
  }

  /** The ones among the first `k` gaps, each at the place of its gap. */
  function Ones(stamps: seq<int>, k: nat): nat
    requires k < |stamps| || k == 0
  {
    if k == 0 then 0 else Ones(stamps, k - 1) + if IsOne(Gap(stamps, k - 1)) then Pow2(k - 1) else 0
  }

  /** One gap more is read. */
  function AddGap(stamps: seq<int>, i: nat, data: nat, bits: nat): (nat, nat)
    requires i + 1 < |stamps|
  {
    if IsOne(Gap(stamps, i)) then (data + Pow2(i), bits + 1)
    else if IsZero(Gap(stamps, i)) then (data, bits + 1)
    else (data, bits)
  }

  /** What is reported of bits read, with so many edges at the end: only a number of bits that fits. */
  function Checked(edges: nat, data: nat, bits: nat): (reports: seq<Report>)
    ensures |reports| <= 1
  {
    if (bits == T.GLOBAL_LENGTH_BITS || bits == T.ATTACK_LENGTH_BITS) && edges == bits + 1
    then [Report(Reversed(data, bits), bits)] else []
  }

  /** What a look reports during which no edge comes. */
  function Decode(stamps: seq<int>): seq<Report>
    requires stamps != []
  {
    var n := |stamps| - 1;
    Checked(|stamps|, Ones(stamps, n), Read(stamps, n))
  }

  /** The edges of a command: one more than it has bits, and each gap in the window of its bit. */
  predicate Carries(stamps: seq<int>, v: nat, n: nat)
  {
    && |stamps| == n + 1
    && forall i: nat | i < n :: InWindow(T.Message(v, n)[i], Gap(stamps, i))
  }

  lemma {:induction false} AllAreRead(stamps: seq<int>, k: nat)
    requires k < |stamps|
    ensures Read(stamps, k) == k <==> forall i: nat | i < k :: IsOne(Gap(stamps, i)) || IsZero(Gap(stamps, i))
  {
    if k > 0 {
      AllAreRead(stamps, k - 1);
    }
  }

  function OneBits(stamps: seq<int>, k: nat): (bits: seq<bool>)
    requires k < |stamps|
    ensures |bits| == k
  {
    seq(k, i requires 0 <= i < k => IsOne(Gap(stamps, i)))
  }

  lemma {:induction false} OnesAreBits(stamps: seq<int>, k: nat)
    requires k < |stamps|
    ensures Ones(stamps, k) == Number(OneBits(stamps, k))
  {
    if k > 0 {
      OnesAreBits(stamps, k - 1);
      NumberAppend(OneBits(stamps, k - 1), IsOne(Gap(stamps, k - 1)));
      assert OneBits(stamps, k) == OneBits(stamps, k - 1) + [IsOne(Gap(stamps, k - 1))];
    }
  }

  /** Gaps that are all read carry exactly one value. */
  lemma OneValueIsCarried(stamps: seq<int>, n: nat)
    requires |stamps| == n + 1 && Read(stamps, n) == n
    ensures var r := Reversed(Ones(stamps, n), n); r < Pow2(n) && Carries(stamps, r, n)
  {
    AllAreRead(stamps, n);
    OnesAreBits(stamps, n);
    var bits := OneBits(stamps, n);
    LowOfNumber(bits);
    var r := Number(Flip(bits));
    NumberFits(Flip(bits));
    LowOfNumber(Flip(bits));
    assert T.Message(r, n) == bits;
  }

  lemma CarriedIsDecoded(stamps: seq<int>, v: nat, n: nat)
    requires v < Pow2(n) && Carries(stamps, v, n)
    ensures Read(stamps, n) == n && Reversed(Ones(stamps, n), n) == v
  {
    forall i: nat | i < n ensures IsOne(Gap(stamps, i)) || IsZero(Gap(stamps, i)) {
      assert InWindow(T.Message(v, n)[i], Gap(stamps, i));
    }
    AllAreRead(stamps, n);
    OnesAreBits(stamps, n);
    assert OneBits(stamps, n) == T.Message(v, n);
    assert Ones(stamps, n) == Reversed(v, n);
    ReversedTwice(v, n);
  }

  /** A value is reported exactly when the edges carry it: what was sent is read, and nothing else is. */
  lemma ReportedIffCarried(stamps: seq<int>, v: nat, n: nat)
    requires stamps != []
    ensures Decode(stamps) == [Report(v, n)] <==>
            (n == T.GLOBAL_LENGTH_BITS || n == T.ATTACK_LENGTH_BITS) && v < Pow2(n) && Carries(stamps, v, n)
  {
    if Decode(stamps) == [Report(v, n)] {
      OneValueIsCarried(stamps, n);
    }
    if v < Pow2(n) && Carries(stamps, v, n) {
      CarriedIsDecoded(stamps, v, n);
    }
  }

  /** By how much the waits of a burst may run over in all. */
  function Slack(symbol: T.Symbol): nat { if symbol == T.One then 310 else 243 }

  /** A command that was sent is carried by its edges exactly if every burst overruns by less than its slack. */
  lemma SentIsCarriedIffInTime(stamps: seq<int>, late: seq<nat>, gpio: int, v: nat, n: nat)
    requires |stamps| == n + 1 && |late| == n
    requires var sent := T.Command(gpio, v, n);
             forall i: nat | i < n :: Gap(stamps, i) == T.CarrierUs(T.Times(sent[i + 1].symbol)) + late[i]
    ensures Carries(stamps, v, n) <==> forall i: nat | i < n :: late[i] < Slack(T.SymbolOf(T.Message(v, n)[i]))
  {
    var sent := T.Command(gpio, v, n);
    forall i: nat | i < n
      ensures InWindow(T.Message(v, n)[i], Gap(stamps, i)) <==> late[i] < Slack(T.SymbolOf(T.Message(v, n)[i]))
    {
      assert sent[i + 1].symbol == T.SymbolOf(T.Message(v, n)[i]);
    }
  }

  // ----- edges and looks

  /** More than 10000 since the last edge, or less than none: what came before was noise. */
  predicate IsLate(stamps: seq<int>, now: int)
  {
    stamps != [] && !(0 <= now - stamps[|stamps| - 1] <= 10000)
  }

  function Push(s: State, now: int): State
  {
    var stamps := (if IsLate(s.stamps, now) then [] else s.stamps) + [now];
    State(stamps, s.flagged || |stamps| > 14)
  }

  /** What the task makes of the edges so far. */
  function LookAt(s: State): (State, seq<Report>)
  {
    if s.flagged && s.stamps != [] then (s.(flagged := false), Decode(s.stamps)) else (s, [])
  }

  class Entry {
    const stampsUs1: array<int>
    var length: nat
    var messageFlag: bool

    ghost predicate Valid()
      reads this
    {
      stampsUs1.Length == SIZE && length <= SIZE && (messageFlag ==> length > 0)
    }

    ghost function Value(): State
      requires Valid()
      reads this, stampsUs1
    {
      State(stampsUs1[..length], messageFlag)
    }

    constructor ()
      ensures Valid() && fresh(stampsUs1) && Value() == State([], false)
    {
      stampsUs1 := new int[SIZE];
      length, messageFlag := 0, false;
    }

    method LastStamp(def: int) returns (r: int)
      requires Valid()
      ensures r == if length == 0 then def else stampsUs1[length - 1]
    {
      if length <= 0 {
        return def;
      }
      r := stampsUs1[length - 1];
    }

    /** An edge on the pin; a burst has room for as many as the array. */
    method Irq(currentStamp: int)
      requires Valid() && (length < SIZE || IsLate(Value().stamps, currentStamp))
      modifies this, stampsUs1
      ensures Valid() && Value() == Push(old(Value()), currentStamp)
      ensures
        var was, now := old(Value()), Value();
        && now.stamps == (if was.stamps == [] || 0 <= currentStamp - was.stamps[|was.stamps| - 1] <= 10000
                          then was.stamps + [currentStamp] else [currentStamp])
        && now.flagged == (was.flagged || 15 <= |now.stamps|)
    {
      var last := LastStamp(currentStamp);
      if currentStamp - last < 0 || currentStamp - last > 10000 {
        length := 0;
        forall i | 0 <= i < SIZE {
          stampsUs1[i] := 0;
        }
      }
      stampsUs1[length % SIZE] := currentStamp;
      length := length + 1;
      if length > 14 {
        messageFlag := true;
      }
    }

    /** The task sees the flag and takes it down. */
    method TakeFlag() returns (had: bool)
      requires Valid()
      modifies this`messageFlag
      ensures Valid() && had == old(messageFlag) && Value() == old(Value()).(flagged := false)
    {
      had := messageFlag;
      messageFlag := false;
    }

    /** One round of the task's loop: a gap is read as a one, as a zero, or not at all. */
    method ReadGap(i: nat, data: nat, bits: nat) returns (data': nat, bits': nat)
      requires Valid() && i + 1 < length
      ensures (data', bits') == AddGap(Value().stamps, i, data, bits)
    {
      data', bits' := data, bits;
      var delta := stampsUs1[i + 1] - stampsUs1[i];
      if delta > 1500 && delta < 2000 {
        data' := data + Pow2(i);
        bits' := bits + 1;
      } else if delta > 900 && delta < 1400 {
        bits' := bits + 1;
      }
    }

    /** What was read is reported if the edges there are now go with it. */
    method Check(data: nat, bits: nat) returns (reports: seq<Report>)
      requires Valid()
      ensures reports == Checked(length, data, bits)
    {
      reports := [];
      var val := ReverseInt(data, bits);
      if bits == T.GLOBAL_LENGTH_BITS && length == T.GLOBAL_LENGTH_BITS + 1 {
        reports := [Report(val, T.GLOBAL_LENGTH_BITS)];
      } else if bits == T.ATTACK_LENGTH_BITS && length == T.ATTACK_LENGTH_BITS + 1 {
        reports := [Report(val, T.ATTACK_LENGTH_BITS)];
      }
    }

    /** A look at the pin during which no edge comes: at most one value, and not again before another edge. */
    method Task() returns (reports: seq<Report>)
      requires Valid()
      modifies this`messageFlag
      ensures Valid() && (Value(), reports) == LookAt(old(Value()))
    {
      reports := [];
      var had := TakeFlag();
      if !had {
        return;
      }
      ghost var stamps := Value().stamps;
      var data, bits := 0, 0;
      for i := 0 to length - 1
        invariant Value() == State(stamps, false) && data == Ones(stamps, i) && bits == Read(stamps, i)
      {
        data, bits := ReadGap(i, data, bits);
      }
      reports := Check(data, bits);
    }
  }

  // ----- the edges of a command as they come

  /** The gaps within a command are no silence. */
  lemma GapIsShort(stamps: seq<int>, v: nat, n: nat, i: nat)
    requires Carries(stamps, v, n) && i < n
    ensures !IsLate(stamps[..i + 1], stamps[i + 1])
  {
    assert InWindow(T.Message(v, n)[i], Gap(stamps, i));
  }

  /** The first edges of a command decode to the command, to an attack, or to nothing, by their number. */
  lemma PartIsDecoded(stamps: seq<int>, v: nat, n: nat, k: nat)
    requires n == T.GLOBAL_LENGTH_BITS || n == T.ATTACK_LENGTH_BITS
    requires v < Pow2(n) && Carries(stamps, v, n) && 0 < k <= n + 1
    ensures Decode(stamps[..k]) ==
            if k == n + 1 then [Report(v, n)]
            else if k == T.ATTACK_LENGTH_BITS + 1
            then [Report(Shift(v, T.GLOBAL_LENGTH_BITS - T.ATTACK_LENGTH_BITS), T.ATTACK_LENGTH_BITS)]
            else []
  {
    if k == n + 1 {
      assert stamps[..k] == stamps;
      ReportedIffCarried(stamps, v, n);
    } else if k == T.ATTACK_LENGTH_BITS + 1 {
      var high, m := n - T.ATTACK_LENGTH_BITS, T.ATTACK_LENGTH_BITS;
      var first := Shift(v, high);
      ShiftFits(v, high, m);
      forall i: nat | i < m ensures InWindow(T.Message(first, m)[i], Gap(stamps[..k], i)) {
        BitOfShift(v, high, m - 1 - i);
        assert InWindow(T.Message(v, n)[i], Gap(stamps, i));
      }
      ReportedIffCarried(stamps[..k], first, m);
    }
  }
}
