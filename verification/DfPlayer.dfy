/** The ten byte frames of the DFPlayer: header, version, length, command, ack, parameter, checksum, end. */
module DfFrame {

  type Byte = x: int | 0 <= x < 0x100

  type Word = x: int | 0 <= x < 0x1_0000

  const HEADER: Byte := 0x7E
  const VERSION: Byte := 0xFF
  const LENGTH: Byte := 0x06
  const END: Byte := 0xEF
  const SIZE: nat := 10

  /** `w >> 8`, as often as 0x100 goes into the word. */
  function High(w: Word): (h: Byte)
    ensures h * 0x100 <= w < h * 0x100 + 0x100
  {
    if w < 0x100 then 0
    else
      var h: int := High(w - 0x100);
      h + 1
  }

  /** The word cast to a byte. */
  function LowByte(w: Word): Byte { w - High(w) * 0x100 }

  function ToWord(high: Byte, low: Byte): Word { high * 0x100 + low }

  function Sum(f: seq<Byte>): nat
    requires 7 <= |f|
  {
    f[1] as int + f[2] as int + f[3] as int + f[4] as int + f[5] as int + f[6] as int
  }

  /** What brings the sum of version to parameter back to zero, modulo two to the sixteen. */
  function Checksum(f: seq<Byte>): (c: Word)
    requires 7 <= |f|
    ensures (Sum(f) + c) % 0x1_0000 == 0
  {
    if Sum(f) == 0 then 0 else 0x1_0000 - Sum(f)
  }

  predicate WellFormed(f: seq<Byte>)
  {
    && |f| == SIZE
    && f[0] == HEADER && f[1] == VERSION && f[2] == LENGTH && f[9] == END
    && ToWord(f[7], f[8]) == Checksum(f)
  }

  /** The frame for a command and its argument. */
  function Frame(ack: Byte, command: Byte, argument: Word): (f: seq<Byte>)
    ensures |f| == SIZE
  {
    var body: seq<Byte> := [HEADER, VERSION, LENGTH, command, ack, High(argument), LowByte(argument)];
    body + [High(Checksum(body)), LowByte(Checksum(body)), END]
  }

  lemma WordOfBytes(high: Byte, low: Byte)
    ensures High(ToWord(high, low)) == high && LowByte(ToWord(high, low)) == low
  {
  }

  lemma FrameIsWellFormed(ack: Byte, command: Byte, argument: Word)
    ensures var f := Frame(ack, command, argument);
            WellFormed(f) && f[4] == ack && f[3] == command && ToWord(f[5], f[6]) == argument
  {
    var f := Frame(ack, command, argument);
    var body: seq<Byte> := [HEADER, VERSION, LENGTH, command, ack, High(argument), LowByte(argument)];
    assert f[..7] == body;
    assert Sum(f) == Sum(body);
    assert f[7] == High(Checksum(body)) && f[8] == LowByte(Checksum(body));
  }

  /** Frames are exactly the well-formed ten bytes, and each stands for one command and argument. */
  lemma FramesAreWellFormed(f: seq<Byte>, ack: Byte, command: Byte, argument: Word)
    ensures f == Frame(ack, command, argument) <==>
            WellFormed(f) && f[4] == ack && f[3] == command && ToWord(f[5], f[6]) == argument
  {
    FrameIsWellFormed(ack, command, argument);
    if WellFormed(f) && f[4] == ack && f[3] == command && ToWord(f[5], f[6]) == argument {
      var g := Frame(ack, command, argument);
      WordOfBytes(f[5], f[6]);
      WordOfBytes(g[5], g[6]);
      assert Sum(f) == Sum(g);
      WordOfBytes(f[7], f[8]);
      WordOfBytes(g[7], g[8]);
    }
  }

  /** A frame byte by byte: words high byte first, and a checksum that brings the sum of bytes 1 to 6 to zero. */
  lemma FrameBytes(f: seq<Byte>, ack: Byte, command: Byte, argument: Word)
    ensures f == Frame(ack, command, argument) <==>
            && |f| == 10 && f[0] == 0x7E && f[1] == 0xFF && f[2] == 0x06 && f[3] == command && f[4] == ack
            && f[5] as int * 256 + f[6] as int == argument
            && (f[1] as int + f[2] as int + f[3] as int + f[4] as int + f[5] as int + f[6] as int
                + (f[7] as int * 256 + f[8] as int)) % 65536 == 0
            && f[9] == 0xEF
  {
    FramesAreWellFormed(f, ack, command, argument);
    if |f| == 10 {
      ChecksumIsUnique(f, ToWord(f[7], f[8]));
    }
  }

  lemma ChecksumIsUnique(f: seq<Byte>, c: Word)
    requires 7 <= |f|
    ensures c == Checksum(f) <==> (Sum(f) + c) % 0x1_0000 == 0
  {
  }

  /** A frame with any one byte changed is not a frame. */
  lemma OneWrongByteShows(f: seq<Byte>, i: nat, b: Byte)
    requires WellFormed(f) && i < SIZE && b != f[i]
    ensures !WellFormed(f[i := b])
  {
    var g := f[i := b];
    if 1 <= i < 7 {
      assert Sum(g) == Sum(f) + (b - f[i]);
    } else {
      assert Sum(g) == Sum(f);
    }
  }

  /** The sum of version to parameter, negated. */
  method CalculateCheckSum(buffer: array<Byte>) returns (c: Word)
    requires buffer.Length == SIZE
    ensures c == Checksum(buffer[..])
  {
    var sum: Word := 0;
    ghost var f := buffer[..];
    for i := 1 to 7
      invariant sum == PartSum(f, i)
    {
      sum := (sum + buffer[i] as int) % 0x1_0000;
    }
    assert PartSum(f, 7) == Sum(f) by {
      assert PartSum(f, 3) == f[1] as int + f[2] as int;
      assert PartSum(f, 5) == PartSum(f, 3) + f[3] as int + f[4] as int;
    }
    c := (0x1_0000 - sum) % 0x1_0000;
  }

  /** The sum of bytes 1 up to `i`. */
  function PartSum(f: seq<Byte>, i: nat): (s: nat)
    requires 1 <= i <= |f|
    ensures s <= 0xFF * (i - 1)
  {
    if i == 1 then 0 else PartSum(f, i - 1) + f[i - 1] as int
  }
}

/** Packets as the player driver builds and checks them. */
module Packet {
  import opened DfFrame

  class Packet {
    const data: array<Byte>

    ghost predicate Valid() { data.Length == SIZE }

    constructor (cmd: Byte, arg: Word)
      ensures Valid() && fresh(data)
      ensures data[..] == [0x7E, 0xFF, 0x06, cmd, 0, High(arg), LowByte(arg), 0, 0, 0xEF]
    {
      data := new Byte[SIZE](i => 0);
      new;
      data[0], data[1], data[2], data[9] := HEADER, VERSION, LENGTH, END;
      SetCmd(cmd);
      SetArg(arg);
    }

    method SetCmd(cmd: Byte)
      requires Valid()
      modifies data
      ensures data[..] == old(data[..])[3 := cmd]
    {
      data[3] := cmd;
    }

    method SetArg(arg: Word)
      requires Valid()
      modifies data
      ensures data[..] == old(data[..])[5 := High(arg)][6 := LowByte(arg)]
    {
      data[5] := High(arg);
      data[6] := LowByte(arg);
    }

    /** Makes a frame of a packet with its constant bytes in place. */
    method CalculateCRC()
      requires Valid() && data[0] == HEADER && data[1] == VERSION && data[2] == LENGTH && data[9] == END
      modifies data
      ensures data[..] == Frame(old(data[4]), old(data[3]), ToWord(old(data[5]), old(data[6])))
    {
      var crc := CalculateCheckSum(data);
      ghost var was := data[..];
      data[7] := High(crc);
      data[8] := LowByte(crc);
      assert Sum(data[..]) == Sum(was);
      FramesAreWellFormed(data[..], data[4], data[3], ToWord(data[5], data[6]));
    }

    method GetCmd() returns (cmd: Byte)
      requires Valid()
      ensures cmd == data[3]
    {
      cmd := data[3];
    }

    method GetArg() returns (arg: Word)
      requires Valid()
      ensures arg == data[5] as int * 256 + data[6] as int
    {
      arg := ToWord(data[5], data[6]);
    }

    /** Whether the bytes are a frame, given the constant ones. */
    method CheckCRC() returns (ok: bool)
      requires Valid()
      ensures ok <==> ToWord(data[7], data[8]) == Checksum(data[..])
      ensures data[0] == HEADER && data[1] == VERSION && data[2] == LENGTH && data[9] == END ==>
                (ok <==> WellFormed(data[..]))
    {
      var crc := CalculateCheckSum(data);
      ok := crc == ToWord(data[7], data[8]);
    }
  }
}

/** The byte machine that finds frames in what the player says. */
module DfParser {
  import opened DfFrame

  const TIME_OUT: Byte := 0
  const WRONG_STACK: Byte := 1
  const CARD_INSERTED: Byte := 2
  const CARD_REMOVED: Byte := 3
  const CARD_ONLINE: Byte := 4
  const PLAY_FINISHED: Byte := 5
  const PLAYER_ERROR: Byte := 6
  const USB_INSERTED: Byte := 7
  const USB_REMOVED: Byte := 8
  const USB_ONLINE: Byte := 9
  const CARD_USB_ONLINE: Byte := 10
  const FEED_BACK: Byte := 11

  const ACKNOWLEDGED: Byte := 0x41

  /** The bytes of a frame so far, and what came of the last frame. */
  datatype Parser = Parser(buffer: seq<Byte>, handleType: Byte, handleCommand: Byte, handleParameter: Word,
                           isAvailable: bool, isSending: bool)

  function HandleMessage(p: Parser, kind: Byte, parameter: Word): Parser
  {
    p.(buffer := [], handleType := kind, handleParameter := parameter, isAvailable := true)
  }

  function HandleError(p: Parser, kind: Byte): Parser
  {
    HandleMessage(p, kind, 0).(isSending := false)
  }

  /** Commands the player uses to answer. */
  predicate IsFeedBack(command: Byte)
  {
    command == 0x3C || command == 0x3E || 0x42 <= command <= 0x49 || 0x4B <= command <= 0x4F
  }

  predicate IsKnown(command: Byte)
  {
    command == 0x3A || command == 0x3B || command == 0x3D || command == 0x3F || command == 0x40 || IsFeedBack(command)
  }

  /** What a frame makes of the parser; an acknowledgement only ends the sending. */
  function Parse(p: Parser, f: seq<Byte>): Parser
    requires |f| == SIZE
  {
    if f[3] == ACKNOWLEDGED then p.(isSending := false)
    else
      var parameter := ToWord(f[5], f[6]);
      Handle(p.(handleCommand := f[3], handleParameter := parameter), f[3], parameter)
  }

  function Handle(p: Parser, command: Byte, parameter: Word): Parser
  {
    if command == 0x3D then HandleMessage(p, PLAY_FINISHED, parameter)
    else if command == 0x3F then
      if parameter % 2 == 1 then HandleMessage(p, USB_ONLINE, parameter)
      else if parameter / 2 % 2 == 1 then HandleMessage(p, CARD_ONLINE, parameter)
      else if parameter % 4 != 0 then HandleMessage(p, CARD_USB_ONLINE, parameter)
      else p
    else if command == 0x3A then
      if parameter % 2 == 1 then HandleMessage(p, USB_INSERTED, parameter)
      else if parameter / 2 % 2 == 1 then HandleMessage(p, CARD_INSERTED, parameter)
      else p
    else if command == 0x3B then
      if parameter % 2 == 1 then HandleMessage(p, USB_REMOVED, parameter)
      else if parameter / 2 % 2 == 1 then HandleMessage(p, CARD_REMOVED, parameter)
      else p
    else if command == 0x40 then HandleMessage(p, PLAYER_ERROR, parameter)
    else if IsFeedBack(command) then HandleMessage(p, FEED_BACK, parameter)
    else HandleError(p, WRONG_STACK)
  }

  /** Whether a byte can follow the bytes so far. */
  predicate Fits(buffer: seq<Byte>, b: Byte)
  {
    match |buffer|
    case 0 => b == HEADER
    case 1 => b == VERSION
    case 2 => b == LENGTH
    case 9 => b == END && ToWord(buffer[7], buffer[8]) == Checksum(buffer)
    case _ => true
  }

  /** The byte completes a frame. */
  predicate Completes(p: Parser, b: Byte) { |p.buffer| == SIZE - 1 && Fits(p.buffer, b) }

  /** What one byte makes of the parser. */
  function Feed(p: Parser, b: Byte): Parser
  {
    if p.buffer == [] && b != HEADER then p
    else if !Fits(p.buffer, b) then HandleError(p, WRONG_STACK)
    else if |p.buffer| == SIZE - 1 then Parse(p.(buffer := []), p.buffer + [b])
    else p.(buffer := p.buffer + [b])
  }

  function FeedAll(p: Parser, bytes: seq<Byte>): Parser
  {
    if bytes == [] then p else Feed(FeedAll(p, bytes[..|bytes| - 1]), bytes[|bytes| - 1])
  }

  lemma {:induction false} FeedAllInTurn(p: Parser, a: seq<Byte>, b: seq<Byte>)
    ensures FeedAll(p, a + b) == FeedAll(FeedAll(p, a), b)
  {
    if b == [] {
      assert a + b == a;
    } else {
      FeedAllInTurn(p, a, b[..|b| - 1]);
      assert (a + b)[..|a + b| - 1] == a + b[..|b| - 1];
    }
  }

  lemma FedOne(p: Parser, b: Byte)
    ensures FeedAll(p, [b]) == Feed(p, b)
  {
    var one := [b];
    assert one[..0] == [] && FeedAll(p, one[..0]) == p;
  }

  lemma FedFirst(p: Parser, b: Byte, rest: seq<Byte>)
    ensures FeedAll(p, [b] + rest) == FeedAll(Feed(p, b), rest)
  {
    FedOne(p, b);
    FeedAllInTurn(p, [b], rest);
  }

  // ----- the frames it accepts

  /** Fewer than ten bytes, each in its place. */
  predicate InPlace(buffer: seq<Byte>)
  {
    && |buffer| < SIZE
    && (0 < |buffer| ==> buffer[0] == HEADER)
    && (1 < |buffer| ==> buffer[1] == VERSION)
    && (2 < |buffer| ==> buffer[2] == LENGTH)
  }

  predicate EndsWith(bytes: seq<Byte>, last: seq<Byte>)
  {
    |last| <= |bytes| && bytes[|bytes| - |last|..] == last
  }

  /** Over every stream the buffer is short, in place, and the last bytes that came. */
  lemma {:induction false} BufferIsLastBytes(p: Parser, bytes: seq<Byte>)
    requires p.buffer == []
    ensures var q := FeedAll(p, bytes); InPlace(q.buffer) && EndsWith(bytes, q.buffer)
  {
    if bytes != [] {
      var before, b := bytes[..|bytes| - 1], bytes[|bytes| - 1];
      BufferIsLastBytes(p, before);
      var buffer := FeedAll(p, before).buffer;
      assert EndsWith(bytes, buffer + [b]);
      BufferAfter(FeedAll(p, before), b);
    }
  }

  lemma BufferAfter(p: Parser, b: Byte)
    requires InPlace(p.buffer)
    ensures InPlace(Feed(p, b).buffer)
    ensures Feed(p, b).buffer == [] || Feed(p, b).buffer == p.buffer + [b]
  {
  }

  /** Whatever is accepted in a stream is its last ten bytes, and they are a frame. */
  lemma AcceptedIsFrame(p: Parser, bytes: seq<Byte>, b: Byte)
    requires p.buffer == [] && Completes(FeedAll(p, bytes), b)
    ensures SIZE - 1 <= |bytes| && WellFormed(bytes[|bytes| - (SIZE - 1)..] + [b])
  {
    BufferIsLastBytes(p, bytes);
    var f := FeedAll(p, bytes).buffer + [b];
    assert Sum(f) == Sum(FeedAll(p, bytes).buffer);
  }

  /** A frame that comes to an idle parser is accepted. */
  lemma FrameIsAccepted(p: Parser, f: seq<Byte>)
    requires p.buffer == [] && WellFormed(f)
    ensures Completes(FeedAll(p, f[..SIZE - 1]), f[SIZE - 1])
    ensures FeedAll(p, f) == Parse(p, f)
  {
    PartIsKept(p, f, SIZE - 1);
    assert Sum(f[..SIZE - 1]) == Sum(f);
    assert f[..SIZE - 1] + [f[SIZE - 1]] == f;
  }

  /** The next byte of a frame that is not its last. */
  lemma ByteIsKept(p: Parser, f: seq<Byte>, n: nat)
    requires WellFormed(f) && n < SIZE - 1 && p.buffer == f[..n]
    ensures Feed(p, f[n]) == p.(buffer := f[..n] + [f[n]])
  {
    assert n > 0 ==> p.buffer != [];
  }

  lemma {:induction false} PartIsKept(p: Parser, f: seq<Byte>, n: nat)
    requires p.buffer == [] && WellFormed(f) && n < SIZE
    ensures FeedAll(p, f[..n]) == p.(buffer := f[..n])
  {
    if n > 0 {
      PartIsKept(p, f, n - 1);
      ByteIsKept(p.(buffer := f[..n - 1]), f, n - 1);
      assert f[..n][..n - 1] == f[..n - 1] && f[..n - 1] + [f[n - 1]] == f[..n];
    }
  }

  /** Nothing happens to an idle parser without a header. */
  lemma {:induction false} NoiseIsSkipped(p: Parser, noise: seq<Byte>)
    requires p.buffer == [] && HEADER !in noise
    ensures FeedAll(p, noise) == p
  {
    if noise != [] {
      NoiseIsSkipped(p, noise[..|noise| - 1]);
    }
  }

  /** From an idle parser: noise without a header, then a frame, and the frame is what was parsed. */
  lemma FrameAfterNoise(p: Parser, noise: seq<Byte>, ack: Byte, command: Byte, argument: Word)
    requires p.buffer == [] && HEADER !in noise
    ensures FeedAll(p, noise + Frame(ack, command, argument)) == Parse(p, Frame(ack, command, argument))
  {
    var f := Frame(ack, command, argument);
    NoiseIsSkipped(p, noise);
    FeedAllInTurn(p, noise, f);
    FramesAreWellFormed(f, ack, command, argument);
    FrameIsAccepted(p, f);
  }

  /** Known commands keep the argument; others are an error, which clears it. */
  lemma HandleKeepsArgument(p: Parser, command: Byte, parameter: Word)
    requires p.buffer == [] && p.handleCommand == command && p.handleParameter == parameter
    ensures
      var q := Handle(p, command, parameter);
      && q.buffer == [] && q.handleCommand == command
      && if IsKnown(command) then q.handleParameter == parameter else q == HandleError(p, WRONG_STACK)
  {
  }

  /** Except for an acknowledgement, the command and argument come out just when the command is known or it is zero. */
  lemma CommandComesOut(p: Parser, noise: seq<Byte>, ack: Byte, command: Byte, argument: Word)
    requires p.buffer == [] && HEADER !in noise
    ensures
      var q := FeedAll(p, noise + Frame(ack, command, argument));
      if command == ACKNOWLEDGED then q == p.(isSending := false)
      else
        && q.buffer == [] && q.handleCommand == command
        && (q.handleParameter == argument <==> IsKnown(command) || argument == 0)
        && (!IsKnown(command) ==> q.handleType == WRONG_STACK)
  {
    FrameAfterNoise(p, noise, ack, command, argument);
    FrameIsWellFormed(ack, command, argument);
    HandleKeepsArgument(p.(handleCommand := command, handleParameter := argument), command, argument);
  }

  /**
    The type of message by command and, for changes of medium, the two low bits of the argument: 1 is an error, and -1
    is for changes that name neither the stick nor the card.
   */
  function MessageType(command: Byte, argument: Word): int
  {
    var stick, card := argument % 2 == 1, argument % 4 == 2;
    match command
    case 0x3A => if stick then 7 else if card then 2 else -1
    case 0x3B => if stick then 8 else if card then 3 else -1
    case 0x3D => 5
    case 0x3F => if stick then 9 else if card then 4 else -1
    case 0x40 => 6
    case _ =>
      if command in {0x3C, 0x3E} || (0x42 <= command <= 0x4F && command != 0x4A) then 11 else 1
  }

  lemma HandleTells(p: Parser, command: Byte, argument: Word)
    requires p.buffer == []
    ensures
      var q, kind := Handle(p, command, argument), MessageType(command, argument);
      if kind == -1 then q == p
      else q.handleType == kind && q.isAvailable && q.isSending == (p.isSending && kind != 1)
  {
  }

  /** Any frame but an acknowledgement leaves its type of message to be fetched; an error also ends the sending. */
  lemma AnswerIsTyped(p: Parser, noise: seq<Byte>, ack: Byte, command: Byte, argument: Word)
    requires p.buffer == [] && HEADER !in noise && command != 0x41
    ensures
      var q, kind := FeedAll(p, noise + Frame(ack, command, argument)), MessageType(command, argument);
      if kind == -1 then
        q.handleType == p.handleType && q.isAvailable == p.isAvailable && q.isSending == p.isSending
      else q.handleType == kind && q.isAvailable && q.isSending == (p.isSending && kind != 1)
  {
    FrameAfterNoise(p, noise, ack, command, argument);
    FrameIsWellFormed(ack, command, argument);
    HandleTells(p.(handleCommand := command, handleParameter := argument), command, argument);
  }

  /** A byte that is no header goes on with a frame, or ends it, or changes nothing. */
  lemma SilentByte(p: Parser, b: Byte)
    requires InPlace(p.buffer) && b != HEADER
    ensures var q := Feed(p, b);
            InPlace(q.buffer) && (q.buffer == [] || (p.buffer != [] && |q.buffer| == |p.buffer| + 1))
  {
    BufferAfter(p, b);
  }

  /** A parser within a frame is idle after the bytes missing from it, or before, when no header is among them. */
  lemma {:induction false} SilenceResets(p: Parser, noise: seq<Byte>)
    requires InPlace(p.buffer) && HEADER !in noise
    ensures
      var q := FeedAll(p, noise);
      InPlace(q.buffer) && (q.buffer == [] || (p.buffer != [] && |q.buffer| == |p.buffer| + |noise| < SIZE))
  {
    if noise != [] {
      var first := noise[..|noise| - 1];
      SilenceResets(p, first);
      SilentByte(FeedAll(p, first), noise[|noise| - 1]);
    }
  }

  /** Whatever came before, nine bytes without a header are enough for the next frame to be accepted. */
  lemma NineBytesResynchronise(p: Parser, before: seq<Byte>, noise: seq<Byte>, f: seq<Byte>)
    requires p.buffer == [] && HEADER !in noise && SIZE - 1 <= |noise| && WellFormed(f)
    ensures FeedAll(p, before + noise + f) == Parse(FeedAll(p, before + noise), f)
    ensures FeedAll(p, before + noise).buffer == []
  {
    BufferIsLastBytes(p, before);
    SilenceResets(FeedAll(p, before), noise);
    FeedAllInTurn(p, before, noise);
    FeedAllInTurn(p, before + noise, f);
    FrameIsAccepted(FeedAll(p, before + noise), f);
  }

  /** What a buffer holds after more bytes: itself and all of them, or, once it was dropped, not even all of them. */
  lemma {:induction false} BufferGrows(p: Parser, bytes: seq<Byte>)
    requires InPlace(p.buffer)
    ensures
      var buffer := FeedAll(p, bytes).buffer;
      InPlace(buffer) && (|buffer| == |p.buffer| + |bytes| || |buffer| < |bytes|)
  {
    if bytes != [] {
      BufferGrows(p, bytes[..|bytes| - 1]);
      BufferAfter(FeedAll(p, bytes[..|bytes| - 1]), bytes[|bytes| - 1]);
    }
  }

  /** After any stream a frame is accepted if and only if the parser is idle where it starts. */
  lemma AcceptedIffIdle(p: Parser, bytes: seq<Byte>, f: seq<Byte>)
    requires p.buffer == [] && WellFormed(f)
    ensures Completes(FeedAll(p, bytes + f[..SIZE - 1]), f[SIZE - 1]) <==> FeedAll(p, bytes).buffer == []
  {
    var q := FeedAll(p, bytes);
    FeedAllInTurn(p, bytes, f[..SIZE - 1]);
    BufferIsLastBytes(p, bytes);
    if q.buffer == [] {
      FrameIsAccepted(q, f);
    } else {
      BufferGrows(q, f[..SIZE - 1]);
    }
  }

  /** A stray header right before a frame loses the frame, whatever the frame is. */
  lemma StrayHeaderLosesFrame(p: Parser, f: seq<Byte>)
    requires p.buffer == [] && WellFormed(f)
    ensures forall k | 0 <= k < SIZE :: !Completes(FeedAll(p, [HEADER] + f[..k]), f[k])
    ensures FeedAll(p, [HEADER] + f).handleType == 1
  {
    var q := p.(buffer := [HEADER]);
    assert Feed(p, HEADER) == q;
    forall k | 0 <= k < SIZE ensures !Completes(FeedAll(p, [HEADER] + f[..k]), f[k]) {
      FedFirst(p, HEADER, f[..k]);
      if k > 0 {
        StrayHeader(q, f, k);
      } else {
        assert f[..0] == [] && FeedAll(q, f[..0]) == q;
      }
    }
    StrayHeader(q, f, SIZE);
    assert f[..SIZE] == f;
    FedFirst(p, HEADER, f);
  }

  /** Too early in a frame to end one, an error stays what was said last. */
  lemma ErrorStays(p: Parser, b: Byte)
    requires |p.buffer| < SIZE - 1 && p.handleType == WRONG_STACK
    ensures Feed(p, b).handleType == WRONG_STACK && |Feed(p, b).buffer| <= |p.buffer| + 1
  {
  }

  lemma SecondHeader(p: Parser)
    requires p.buffer == [HEADER]
    ensures Feed(p, HEADER) == HandleError(p, WRONG_STACK)
  {
  }

  /** A frame to a parser that took a header already: an error from its first byte on, and too few bytes to its end. */
  lemma {:induction false} StrayHeader(p: Parser, f: seq<Byte>, k: nat)
    requires p.buffer == [HEADER] && WellFormed(f) && 0 < k <= SIZE
    ensures var q := FeedAll(p, f[..k]); q.handleType == WRONG_STACK && |q.buffer| < k
  {
    assert f[..k][..k - 1] == f[..k - 1];
    if k == 1 {
      assert FeedAll(p, f[..0]) == p;
      SecondHeader(p);
    } else {
      StrayHeader(p, f, k - 1);
      ErrorStays(FeedAll(p, f[..k - 1]), f[k - 1]);
    }
  }

  lemma HandleIsNotCardUsb(p: Parser, command: Byte, parameter: Word)
    requires p.handleType != CARD_USB_ONLINE
    ensures Handle(p, command, parameter).handleType != CARD_USB_ONLINE
  {
  }

  lemma FeedIsNotCardUsb(p: Parser, b: Byte)
    requires p.handleType != CARD_USB_ONLINE
    ensures Feed(p, b).handleType != CARD_USB_ONLINE
  {
    if Completes(p, b) {
      var f := p.buffer + [b];
      var parameter := ToWord(f[5], f[6]);
      HandleIsNotCardUsb(p.(buffer := [], handleCommand := f[3], handleParameter := parameter), f[3], parameter);
    }
  }

  /** The case for a card and a stick together is behind those for each alone, and no stream reaches it. */
  lemma {:induction false} CardUsbIsNeverReported(p: Parser, bytes: seq<Byte>)
    requires p.handleType != CARD_USB_ONLINE
    ensures FeedAll(p, bytes).handleType != CARD_USB_ONLINE
  {
    if bytes != [] {
      CardUsbIsNeverReported(p, bytes[..|bytes| - 1]);
      FeedIsNotCardUsb(FeedAll(p, bytes[..|bytes| - 1]), bytes[|bytes| - 1]);
    }
  }

  // ----- calls

  /** The byte ends a call: it completes a frame, or is wrong within one. */
  predicate Returns(p: Parser, b: Byte)
  {
    Completes(p, b) || (p.buffer != [] && !Fits(p.buffer, b))
  }

  /** A call takes bytes up to the end of a frame or an error, or all there are; then the sending may time out. */
  function Call(p: Parser, bytes: seq<Byte>, late: bool): (r: (Parser, seq<Byte>, bool))
    decreases |bytes|
  {
    if bytes == [] then
      if p.isSending && late then (HandleError(p, TIME_OUT), [], false) else (p, [], p.isAvailable)
    else
      var q := Feed(p, bytes[0]);
      if Returns(p, bytes[0]) then (q, bytes[1..], Completes(p, bytes[0]) && q.isAvailable)
      else Call(q, bytes[1..], late)
  }

  /** The call ran out of bytes. */
  predicate Ran(p: Parser, bytes: seq<Byte>)
    decreases |bytes|
  {
    bytes == [] || (!Returns(p, bytes[0]) && Ran(Feed(p, bytes[0]), bytes[1..]))
  }

  /** The bytes a call takes. */
  function Fed(p: Parser, bytes: seq<Byte>): (fed: seq<Byte>)
    decreases |bytes|
  {
    if bytes == [] then []
    else if Returns(p, bytes[0]) then [bytes[0]]
    else [bytes[0]] + Fed(Feed(p, bytes[0]), bytes[1..])
  }

  /** A call takes the first bytes and leaves the others. */
  lemma {:induction false} CallTakes(p: Parser, bytes: seq<Byte>, late: bool)
    ensures bytes == Fed(p, bytes) + Call(p, bytes, late).1
    ensures if Ran(p, bytes) then Fed(p, bytes) == bytes && Call(p, bytes, late).1 == [] else Fed(p, bytes) != []
    decreases |bytes|
  {
    if bytes != [] {
      var b, rest := bytes[0], bytes[1..];
      assert bytes == [b] + rest;
      if !Returns(p, b) {
        var q := Feed(p, b);
        CallTakes(q, rest, late);
        assert bytes == ([b] + Fed(q, rest)) + Call(q, rest, late).1;
      }
    }
  }

  /** What a call leaves of the parser is what its bytes leave, unless the time ran out with them. */
  lemma {:induction false} CallLeaves(p: Parser, bytes: seq<Byte>, late: bool)
    ensures
      var fed := FeedAll(p, Fed(p, bytes));
      Call(p, bytes, late).0 == if Ran(p, bytes) && fed.isSending && late then HandleError(fed, TIME_OUT) else fed
    decreases |bytes|
  {
    if bytes != [] {
      var b, rest := bytes[0], bytes[1..];
      FedOne(p, b);
      if !Returns(p, b) {
        var q := Feed(p, b);
        CallLeaves(q, rest, late);
        FedFirst(p, b, Fed(q, rest));
      }
    }
  }

  /** A call takes the first bytes one by one and in order, whenever it returns, and leaves the others. */
  lemma CallFeeds(p: Parser, bytes: seq<Byte>, late: bool)
    ensures
      var (q, rest, _) := Call(p, bytes, late);
      && bytes == Fed(p, bytes) + rest
      && var fed := FeedAll(p, Fed(p, bytes));
      q == if !Ran(p, bytes) || !fed.isSending || !late then fed
           else fed.(buffer := [], handleType := 0, handleParameter := 0, isAvailable := true, isSending := false)
    ensures Ran(p, bytes) ==> Call(p, bytes, late).1 == []
  {
    CallTakes(p, bytes, late);
    CallLeaves(p, bytes, late);
  }

  /** The call's last byte completed a frame. */
  predicate EndsFrame(p: Parser, fed: seq<Byte>)
  {
    fed != [] && Completes(FeedAll(p, fed[..|fed| - 1]), fed[|fed| - 1])
  }

  lemma FirstOfFed(p: Parser, b: Byte, rest: seq<Byte>)
    requires rest != []
    ensures EndsFrame(p, [b] + rest) == EndsFrame(Feed(p, b), rest)
  {
    assert ([b] + rest)[..|rest|] == [b] + rest[..|rest| - 1];
    FedFirst(p, b, rest[..|rest| - 1]);
  }

  /** A call answers that a message is there if one is, and its bytes ended with a frame, or ran out in time. */
  lemma {:induction false} CallAnswers(p: Parser, bytes: seq<Byte>, late: bool)
    ensures
      var (q, _, ok) := Call(p, bytes, late);
      ok == (q.isAvailable &&
             if Ran(p, bytes) then !(FeedAll(p, bytes).isSending && late) else EndsFrame(p, Fed(p, bytes)))
    decreases |bytes|
  {
    if bytes != [] {
      var b, rest := bytes[0], bytes[1..];
      if Returns(p, b) {
        assert Fed(p, bytes) == [b] && [b][..0] == [];
      } else {
        var q := Feed(p, b);
        CallAnswers(q, rest, late);
        CallTakes(q, rest, late);
        assert bytes == [b] + rest;
        if Ran(q, rest) {
          FedFirst(p, b, rest);
        } else {
          FirstOfFed(p, b, Fed(q, rest));
        }
      }
    }
  }

  /** What comes while a sending waits: at each call more bytes, and whether the time is over. */
  datatype Arrival = Arrival(bytes: seq<Byte>, late: bool)

  /** Calls until the last sending is acknowledged, failed or timed out; what is left, and whether it came to that. */
  function Wait(p: Parser, bytes: seq<Byte>, arrivals: seq<Arrival>): (Parser, seq<Byte>, bool)
    decreases |arrivals|
  {
    if !p.isSending then (p, bytes, true)
    else if arrivals == [] then (p, bytes, false)
    else
      var (q, rest, _) := Call(p, bytes + arrivals[0].bytes, arrivals[0].late);
      Wait(q, rest, arrivals[1..])
  }

  /** The waiting is over exactly when nothing is being sent, and takes nothing if it is over from the start. */
  lemma {:induction false} WaitIsOver(p: Parser, bytes: seq<Byte>, arrivals: seq<Arrival>)
    ensures
      var (q, rest, over) := Wait(p, bytes, arrivals);
      (over <==> !q.isSending) && (!p.isSending ==> q == p && rest == bytes)
    decreases |arrivals|
  {
    if p.isSending && arrivals != [] {
      var (q, rest, _) := Call(p, bytes + arrivals[0].bytes, arrivals[0].late);
      WaitIsOver(q, rest, arrivals[1..]);
    }
  }

  function Silence(n: nat): seq<Arrival> { seq(n, _ => Arrival([], true)) }

  lemma {:induction false} LateCallEndsSending(p: Parser, bytes: seq<Byte>)
    ensures var (q, rest, _) := Call(p, bytes, true);
            !q.isSending || |rest| < |bytes|
    decreases |bytes|
  {
    if bytes != [] && !Returns(p, bytes[0]) {
      LateCallEndsSending(Feed(p, bytes[0]), bytes[1..]);
    }
  }

  /** No waiting outlasts the time: with nothing more coming it takes a call for each byte left and one more. */
  lemma {:induction false} WaitTimesOut(p: Parser, bytes: seq<Byte>, n: nat)
    requires |bytes| < n
    ensures Wait(p, bytes, Silence(n)).2
    decreases n
  {
    if p.isSending {
      var (q, rest, _) := Call(p, bytes, true);
      LateCallEndsSending(p, bytes);
      assert bytes + [] == bytes && Silence(n)[1..] == Silence(n - 1);
      if q.isSending {
        WaitTimesOut(q, rest, n - 1);
      }
    }
  }
}

/** The driver's side of the line: its buffers, and calls that take what bytes have come. */
module DfPlayer {
  import opened DfFrame
  import opened DfParser

  class DfPlayer {
    const received: array<Byte>
    const sending: array<Byte>
    var receivedIndex: nat
    var handleType: Byte
    var handleCommand: Byte
    var handleParameter: Word
    var isAvailable: bool
    var isSending: bool
    /** The bytes that have come and were not read yet, and those that went out. */
    var serialIn: seq<Byte>
    var serialOut: seq<Byte>

    ghost predicate Valid()
      reads this, sending
    {
      && received.Length == SIZE && sending.Length == SIZE && received != sending
      && receivedIndex < SIZE
      && sending[0] == HEADER && sending[1] == VERSION && sending[2] == LENGTH && sending[9] == END
    }

    ghost function Value(): Parser
      requires Valid()
      reads this, sending, received
    {
      Parser(received[..receivedIndex], handleType, handleCommand, handleParameter, isAvailable, isSending)
    }

    constructor ()
      ensures Valid() && fresh(received) && fresh(sending)
      ensures Value().buffer == [] && !isAvailable && !isSending && sending[4] == 1 && serialOut == []
    {
      received := new Byte[SIZE](i => 0);
      sending := new Byte[SIZE] [0x7E, 0xFF, 0x06, 0x00, 0x01, 0x00, 0x00, 0x00, 0x00, 0xEF];
      receivedIndex, handleType, handleCommand, handleParameter := 0, 0, 0, 0;
      isAvailable, isSending, serialIn, serialOut := false, false, [], [];
    }

    method SetACK(on: bool)
      requires Valid()
      modifies sending
      ensures Valid() && sending[..] == old(sending[..])[4 := if on then 1 else 0]
    {
      sending[4] := if on then 0x01 else 0x00;
    }

    method HandleMessage(kind: Byte, parameter: Word)
      requires Valid()
      modifies this`receivedIndex, this`handleType, this`handleParameter, this`isAvailable
      ensures Valid() && Value() == DfParser.HandleMessage(old(Value()), kind, parameter)
    {
      receivedIndex := 0;
      handleType, handleParameter := kind, parameter;
      isAvailable := true;
    }

    method HandleError(kind: Byte, parameter: Word)
      requires Valid() && parameter == 0
      modifies this`receivedIndex, this`handleType, this`handleParameter, this`isAvailable, this`isSending
      ensures Valid() && Value() == DfParser.HandleError(old(Value()), kind)
    {
      HandleMessage(kind, parameter);
      isSending := false;
    }

    method ParseStack()
      requires Valid() && receivedIndex == 0
      modifies this`receivedIndex, this`handleType, this`handleCommand, this`handleParameter, this`isAvailable,
               this`isSending
      ensures Valid() && Value() == Parse(old(Value()), received[..])
    {
      if received[3] == 0x41 {
        isSending := false;
        return;
      }
      handleCommand := received[3];
      handleParameter := ToWord(received[5], received[6]);
      if handleCommand == 0x3D {
        HandleMessage(PLAY_FINISHED, handleParameter);
      } else if handleCommand == 0x3F {
        if handleParameter % 2 == 1 {
          HandleMessage(USB_ONLINE, handleParameter);
        } else if handleParameter / 2 % 2 == 1 {
          HandleMessage(CARD_ONLINE, handleParameter);
        } else if handleParameter % 4 != 0 {
          HandleMessage(CARD_USB_ONLINE, handleParameter);
        }
      } else if handleCommand == 0x3A {
        if handleParameter % 2 == 1 {
          HandleMessage(USB_INSERTED, handleParameter);
        } else if handleParameter / 2 % 2 == 1 {
          HandleMessage(CARD_INSERTED, handleParameter);
        }
      } else if handleCommand == 0x3B {
        if handleParameter % 2 == 1 {
          HandleMessage(USB_REMOVED, handleParameter);
        } else if handleParameter / 2 % 2 == 1 {
          HandleMessage(CARD_REMOVED, handleParameter);
        }
      } else if handleCommand == 0x40 {
        HandleMessage(PLAYER_ERROR, handleParameter);
      } else if IsFeedBack(handleCommand) {
        HandleMessage(FEED_BACK, handleParameter);
      } else {
        HandleError(WRONG_STACK, 0);
      }
    }

    method ValidateStack() returns (ok: bool)
      requires Valid()
      ensures ok <==> ToWord(received[7], received[8]) == Checksum(received[..])
    {
      var sum := CalculateCheckSum(received);
      ok := sum == ToWord(received[7], received[8]);
    }

    /** The last byte has come: a frame is parsed, and anything else is an error. */
    method EndFrame() returns (ok: bool)
      requires Valid() && receivedIndex == 9
      modifies this`receivedIndex, this`handleType, this`handleCommand, this`handleParameter, this`isAvailable,
               this`isSending
      ensures Valid() && Value() == Feed(old(Value()), received[9])
      ensures ok == (Completes(old(Value()), received[9]) && isAvailable)
    {
      ghost var was := Value();
      assert received[..] == was.buffer + [received[9]];
      if received[9] != 0xEF {
        HandleError(WRONG_STACK, 0);
        return false;
      }
      assert Sum(received[..]) == Sum(was.buffer);
      var valid := ValidateStack();
      if !valid {
        HandleError(WRONG_STACK, 0);
        return false;
      }
      receivedIndex := 0;
      ParseStack();
      ok := isAvailable;
    }

    method Available(late: bool) returns (ok: bool)
      requires Valid()
      modifies this, received
      ensures Valid() && serialOut == old(serialOut)
      ensures (Value(), serialIn, ok) == Call(old(Value()), old(serialIn), late)
    {
      while serialIn != []
        invariant Valid() && serialOut == old(serialOut)
        invariant Call(Value(), serialIn, late) == Call(old(Value()), old(serialIn), late)
        decreases |serialIn|
      {
        ghost var was := Value();
        var b := serialIn[0];
        serialIn := serialIn[1..];
        received[receivedIndex] := b;
        assert received[..receivedIndex] == was.buffer && received[..receivedIndex + 1] == was.buffer + [b];
        if receivedIndex == 0 {
          if received[0] == 0x7E {
            receivedIndex := receivedIndex + 1;
          }
        } else if receivedIndex == 1 && received[1] != 0xFF {
          HandleError(WRONG_STACK, 0);
          return false;
        } else if receivedIndex == 2 && received[2] != 0x06 {
          HandleError(WRONG_STACK, 0);
          return false;
        } else if receivedIndex == 9 {
          ok := EndFrame();
          return;
        } else {
          receivedIndex := receivedIndex + 1;
        }
      }
      if isSending && late {
        HandleError(TIME_OUT, 0);
        return false;
      }
      ok := isAvailable;
    }

    /**
      Sends the frame of a command. With acknowledgements on, it waits for the last one first; if it is still waiting
      when the arrivals are over, nothing was sent.
     */
    method SendStack2(command: Byte, argument: Word, arrivals: seq<Arrival>) returns (sent: bool)
      requires Valid()
      modifies this, sending, received
      ensures Valid() && sending[4] == old(sending[4])
      ensures
        var ack := sending[4];
        var (p, rest, over) := if ack == 0 then (old(Value()), old(serialIn), true)
                               else Wait(old(Value()), old(serialIn), arrivals);
        && sent == over && serialIn == rest
        && serialOut == (if sent then old(serialOut) + Frame(ack, command, argument) else old(serialOut))
        && Value() == if sent then p.(isSending := ack != 0) else p
    {
      BuildFrame(command, argument);
      ghost var frame := sending[..];
      if sending[4] != 0 {
        sent := AwaitSending(arrivals);
        if !sent {
          return;
        }
      }
      assert sending[..] == frame;
      serialOut := serialOut + sending[..];
      isSending := sending[4] != 0;
      sent := true;
    }

    method BuildFrame(command: Byte, argument: Word)
      requires Valid()
      modifies sending
      ensures Valid() && sending[..] == Frame(old(sending[4]), command, argument)
    {
      sending[3] := command;
      sending[5], sending[6] := High(argument), LowByte(argument);
      var sum := CalculateCheckSum(sending);
      ghost var was := sending[..];
      sending[7], sending[8] := High(sum), LowByte(sum);
      assert Sum(sending[..]) == Sum(was);
      FramesAreWellFormed(sending[..], sending[4], command, argument);
    }

    method AwaitSending(arrivals: seq<Arrival>) returns (over: bool)
      requires Valid()
      modifies this, received
      ensures Valid() && serialOut == old(serialOut)
      ensures (Value(), serialIn, over) == Wait(old(Value()), old(serialIn), arrivals)
    {
      var k := 0;
      assert arrivals[0..] == arrivals;
      while isSending && k < |arrivals|
        invariant k <= |arrivals| && Valid() && serialOut == old(serialOut)
        invariant Wait(Value(), serialIn, arrivals[k..]) == Wait(old(Value()), old(serialIn), arrivals)
      {
        assert arrivals[k..][0] == arrivals[k] && arrivals[k..][1..] == arrivals[k + 1..];
        serialIn := serialIn + arrivals[k].bytes;
        var ok := Available(arrivals[k].late);
        k := k + 1;
      }
      over := !isSending;
    }
  }
}
