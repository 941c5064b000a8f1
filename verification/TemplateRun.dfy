/** Character-level helpers of the template engine: stream scanning, numbers, option values. */
module TemplateText {
  import opened Wrappers

  predicate IsSpace(c: char) { c == ' ' || '\t' <= c <= '\r' }

  predicate IsDigit(c: char) { '0' <= c <= '9' }

  /** The first position at or after `pos` that holds no white space, or the end. */
  function SkipSpace(s: string, pos: nat): (r: nat)
    requires pos <= |s|
    ensures pos <= r <= |s|
    decreases |s| - pos
  {
    if pos < |s| && IsSpace(s[pos]) then SkipSpace(s, pos + 1) else pos
  }

  /** The first position at or after `pos` that holds white space, or the end. */
  function WordEnd(s: string, pos: nat): (r: nat)
    requires pos <= |s|
    ensures pos <= r <= |s|
    decreases |s| - pos
  {
    if pos < |s| && !IsSpace(s[pos]) then WordEnd(s, pos + 1) else pos
  }

  lemma {:induction false} SkipSpaceStops(s: string, pos: nat, r: nat)
    requires pos <= r <= |s|
    requires forall k | pos <= k < r :: IsSpace(s[k])
    requires r == |s| || !IsSpace(s[r])
    ensures SkipSpace(s, pos) == r
    decreases r - pos
  {
    if pos < r {
      SkipSpaceStops(s, pos + 1, r);
    }
  }

  lemma {:induction false} WordEndIsBeyond(s: string, pos: nat, r: nat)
    requires pos <= r <= |s|
    requires forall k | pos <= k < r :: !IsSpace(s[k])
    ensures r <= WordEnd(s, pos)
    ensures r == |s| || IsSpace(s[r]) ==> WordEnd(s, pos) == r
    decreases r - pos
  {
    if pos < r {
      WordEndIsBeyond(s, pos + 1, r);
    }
  }

  /** What a C string of these bytes compares as: everything before the first NUL. */
  function CString(s: string): (r: string)
    ensures |r| <= |s|
  {
    if s == "" || s[0] == '\0' then "" else [s[0]] + CString(s[1..])
  }

  lemma {:induction false} CStringOfText(s: string)
    requires forall k | 0 <= k < |s| :: s[k] != '\0'
    ensures CString(s) == s
  {
    if s != "" {
      CStringOfText(s[1..]);
    }
  }

  lemma {:induction false} CStringEndsAtNul(s: string, rest: string)
    requires forall k | 0 <= k < |s| :: s[k] != '\0'
    ensures CString(s + "\0" + rest) == s
  {
    if s == "" {
      assert s + "\0" + rest == "\0" + rest;
    } else {
      CStringEndsAtNul(s[1..], rest);
      assert (s + "\0" + rest)[1..] == s[1..] + "\0" + rest;
    }
  }

  function IndexOf(s: string, c: char): (r: Option<nat>)
    ensures r.Some? ==> r.value < |s|
    ensures r.None? <==> c !in s
  {
    if s == "" then None
    else if s[0] == c then Some(0)
    else match IndexOf(s[1..], c)
      case None => None
      case Some(k) => Some(k + 1)
  }

  function DigitValue(c: char): nat
    requires IsDigit(c)
  {
    c as int - '0' as int
  }

  /** `atoi` on the digits after the sign; integers are unbounded here. */
  function Digits(s: string, value: nat): nat
  {
    if s == "" || !IsDigit(s[0]) then value
    else Digits(s[1..], 10 * value + DigitValue(s[0]))
  }

  function Atoi(s: string): int
  {
    var t := s[SkipSpace(s, 0)..];
    if t == "" then 0
    else if t[0] == '-' then 0 - Digits(t[1..], 0)
    else if t[0] == '+' then Digits(t[1..], 0)
    else Digits(t, 0)
  }

  function NatToString(n: nat): (r: string)
    ensures r != "" && forall c | c in r :: IsDigit(c)
  {
    if n < 10 then [('0' as int + n) as char]
    else NatToString(n / 10) + [('0' as int + n % 10) as char]
  }

  function IntToString(n: int): string
  {
    if n < 0 then "-" + NatToString(-n) else NatToString(n)
  }

  lemma {:induction false} DigitsOfConcat(s: string, t: string, value: nat)
    requires forall c | c in s :: IsDigit(c)
    ensures Digits(s + t, value) == Digits(t, Digits(s, value))
  {
    if s == "" {
      assert s + t == t;
    } else {
      assert (s + t)[1..] == s[1..] + t;
      DigitsOfConcat(s[1..], t, 10 * value + DigitValue(s[0]));
    }
  }

  lemma {:induction false} DigitsOfNat(n: nat)
    ensures Digits(NatToString(n), 0) == n
  {
    if n >= 10 {
      DigitsOfNat(n / 10);
      var last := [('0' as int + n % 10) as char];
      DigitsOfConcat(NatToString(n / 10), last, 0);
      assert last[1..] == "";
    } else {
      assert NatToString(n)[1..] == "";
    }
  }

  predicate AllDigits(s: string) { forall k | 0 <= k < |s| :: '0' <= s[k] <= '9' }

  /** The number that decimal digits denote by their places. */
  function Decimal(s: string): nat
    requires AllDigits(s)
  {
    if s == "" then 0 else 10 * Decimal(s[..|s| - 1]) + (s[|s| - 1] as int - 48)
  }

  lemma {:induction false} DigitsAreDecimal(s: string, rest: string)
    requires AllDigits(s) && (rest == "" || !('0' <= rest[0] <= '9'))
    ensures Digits(s, 0) == Decimal(s)
    ensures Digits(s + rest, 0) == Decimal(s)
  {
    if s != "" {
      var first, last := s[..|s| - 1], [s[|s| - 1]];
      DigitsAreDecimal(first, "");
      DigitsOfConcat(first, last, 0);
      assert s == first + last && last[1..] == "";
    }
    DigitsOfConcat(s, rest, 0);
  }

  /** A number is read from blanks, a sign and digits, whatever follows them; without digits it is zero. */
  lemma AtoiReadsNumber(gap: string, sign: string, digits: string, rest: string)
    requires forall k | 0 <= k < |gap| :: gap[k] == ' ' || gap[k] as int in {9, 10, 11, 12, 13}
    requires sign in {"", "-", "+"} && AllDigits(digits) && (rest == "" || !('0' <= rest[0] <= '9'))
    requires sign == "" && digits == "" && rest != "" ==>
               rest[0] != ' ' && rest[0] != '+' && rest[0] != '-' && rest[0] as int !in {9, 10, 11, 12, 13}
    ensures Atoi(gap + sign + digits + rest) == if sign == "-" then 0 - Decimal(digits) else Decimal(digits)
  {
    var s, t := gap + sign + digits + rest, sign + (digits + rest);
    assert s == gap + t;
    SkipSpaceStops(s, 0, |gap|);
    assert s[|gap|..] == t;
    DigitsAreDecimal(digits, rest);
    if sign == "" {
      assert t == digits + rest;
    } else {
      assert t[1..] == digits + rest;
    }
  }

  lemma {:induction false} NatTextIsDecimal(n: nat)
    ensures AllDigits(NatToString(n)) && Decimal(NatToString(n)) == n
    ensures NatToString(n)[0] == '0' <==> n == 0
  {
    if n >= 10 {
      NatTextIsDecimal(n / 10);
      var s := NatToString(n);
      assert s[..|s| - 1] == NatToString(n / 10) && s[0] == NatToString(n / 10)[0];
    } else {
      var s := NatToString(n);
      assert s[..|s| - 1] == "";
    }
  }

  /** The text of an integer: its decimal digits without leading zeros, behind a minus sign if it is negative. */
  lemma IntTextIsDecimal(n: int)
    ensures
      var s := IntToString(n);
      var digits := if n < 0 then s[1..] else s;
      && (n < 0 ==> s[0] == '-') && AllDigits(digits) && digits != "" && (digits[0] == '0' <==> n == 0)
      && Decimal(digits) == if n < 0 then -n else n
  {
    NatTextIsDecimal(if n < 0 then -n else n);
  }

  /** An integer argument survives being stored as text and read back. */
  lemma AtoiOfIntToString(n: int)
    ensures Atoi(IntToString(n)) == n
  {
    var s := IntToString(n);
    if n < 0 {
      DigitsOfNat(-n);
      assert s[1..] == NatToString(-n);
    } else {
      DigitsOfNat(n);
      assert s[0] in NatToString(n);
    }
    assert SkipSpace(s, 0) == 0 && s[0..] == s;
  }
}

/** The engine as a function of its whole state: one call of a state's `process` per step. */
module TemplateRun {
  import opened Wrappers
  import opened TemplateText

  /** A registered argument: text, or a list for `key[...]`. */
  datatype Argument = Argument(value: string, values: seq<string>)

  type Env = map<string, Argument>

  datatype Stage = Initial | Start | Keyword | Args | End | Process | Err

  /** The words the engine compares its command buffer with. */
  datatype CommandWord =
    | PutIntWord | PutStrWord | PutArrWord
    | BeginWord | EndWord
    | IfWord | ElseIfWord | ElseWord | EndIfWord
    | OtherWord

  function Recognise(word: string): CommandWord
  {
    if word == "puti" then PutIntWord
    else if word == "puts" then PutStrWord
    else if word == "puta" then PutArrWord
    else if word == "begin" then BeginWord
    else if word == "end" then EndWord
    else if word == "if" then IfWord
    else if word == "elseif" then ElseIfWord
    else if word == "else" then ElseWord
    else if word == "endif" then EndIfWord
    else OtherWord
  }

  datatype Loop = Loop(active: bool, begin: nat, i: int, count: int)

  datatype Branch = Branch(active: bool, valid: bool, completed: bool)

  /** Chunks already handed to the consumer, and the bytes waiting in the buffer. */
  datatype Sink = Sink(chunks: seq<string>, pending: string)

  datatype Config = Config(stage: Stage, pos: nat, eof: bool,
                           cmd: CommandWord, args: seq<string>, expected: nat,
                           loop: Loop, branch: Branch, sink: Sink)

  /** What a run is given: the file, the arguments and the buffer size. */
  datatype Job = Job(file: string, env: Env, bufferSize: nat)

  // ----- output

  function PutChar(s: Sink, c: char, size: nat): Sink
  {
    var pending := s.pending + [c];
    if |pending| == size then Sink(s.chunks + [pending], "") else s.(pending := pending)
  }

  function PutText(s: Sink, text: string, size: nat): Sink
    decreases text
  {
    if text == "" then s else PutText(PutChar(s, text[0], size), text[1..], size)
  }

  function Flushed(s: Sink): Sink
  {
    if s.pending == "" then s else Sink(s.chunks + [s.pending], "")
  }

  predicate Allowed(b: Branch)
  {
    !b.active || (!b.completed && b.valid)
  }

  function Emit(job: Job, c: Config, text: string): Config
  {
    if Allowed(c.branch) then c.(sink := PutText(c.sink, text, job.bufferSize)) else c
  }

  // ----- arguments

  function ArrayArg(env: Env, key: string, index: int): Option<string>
  {
    if key in env && 0 <= index < |env[key].values| then Some(env[key].values[index]) else None
  }

  /**
    The value a key denotes. `view` is the key; `tail` is the same text on to its NUL,
    which is where the source takes an index from.
   */
  function StrArg(env: Env, i: int, view: string, tail: string): Option<string>
    requires |view| <= |tail| <= |view| + 1
    decreases |view|
  {
    match IndexOf(view, '[')
    case None => if view in env then Some(env[view].value) else None
    case Some(open) =>
      var rest := tail[open + 1..];
      if IndexOf(view, ']') == Some(0) || rest == "" then None
      else
        var index := rest[..|rest| - 1];
        if index == "i" then ArrayArg(env, view[..open], i)
        else match StrArg(env, i, index, rest)
          case None => None
          case Some(value) => ArrayArg(env, view[..open], Atoi(value))
  }

  // ----- the seven stages

  predicate IsLoopWord(cmd: CommandWord) { cmd.BeginWord? || cmd.EndWord? }

  predicate IsIfWord(cmd: CommandWord) { cmd.IfWord? || cmd.ElseIfWord? || cmd.ElseWord? || cmd.EndIfWord? }

  function ExpectedArgs(cmd: CommandWord): nat
  {
    match cmd
    case EndWord => 0
    case EndIfWord => 0
    case ElseWord => 0
    case IfWord => 3
    case ElseIfWord => 3
    case _ => 1
  }

  /** What every reachable state satisfies. */
  predicate Valid(job: Job, c: Config)
  {
    && 0 < job.bufferSize
    && |c.sink.pending| < job.bufferSize
    && c.pos <= |job.file|
    && (c.stage == Args ==> |c.args| <= c.expected)
    && (c.stage == End || c.stage == Process ==> |c.args| == c.expected)
    && (c.stage == Args || c.stage == End || c.stage == Process ==> c.expected == ExpectedArgs(c.cmd))
  }

  lemma {:induction false} PutTextKeepsRoom(s: Sink, text: string, size: nat)
    requires |s.pending| < size
    ensures |PutText(s, text, size).pending| < size
    decreases text
  {
    if text != "" {
      PutTextKeepsRoom(PutChar(s, text[0], size), text[1..], size);
    }
  }

  function Fail(c: Config): Config { c.(stage := Err) }

  function InitialStep(job: Job, c: Config): (r: Config)
    requires Valid(job, c) && c.stage == Initial && !c.eof
    ensures Valid(job, r) && c.pos <= r.pos
    ensures r.eof || (r.stage == Start && c.pos < r.pos)
    ensures r == r.(loop := c.loop, branch := c.branch, cmd := c.cmd, args := c.args, expected := c.expected)
    decreases |job.file| - c.pos
  {
    if c.pos == |job.file| then c.(eof := true, sink := Flushed(c.sink))
    else if job.file[c.pos] == '{' then c.(pos := c.pos + 1, stage := Start)
    else
      PutTextKeepsRoom(c.sink, [job.file[c.pos]], job.bufferSize);
      InitialStep(job, Emit(job, c.(pos := c.pos + 1), [job.file[c.pos]]))
  }

  function StartStep(job: Job, c: Config): (r: Config)
    requires Valid(job, c) && c.stage == Start
    ensures Valid(job, r)
  {
    if c.pos == |job.file| then Fail(c.(eof := true))
    else if job.file[c.pos] == '{' then c.(pos := c.pos + 1, stage := Keyword)
    else
      PutTextKeepsRoom(c.sink, ['{', job.file[c.pos]], job.bufferSize);
      Emit(job, c.(pos := c.pos + 1, stage := Initial), ['{', job.file[c.pos]])
  }

  /** A `%s` conversion that finds a word; the end-of-file flag rises when the word ends the file. */
  function AfterWord(job: Job, c: Config, end: nat): Config
  {
    c.(pos := end, eof := end == |job.file|)
  }

  function KeywordStep(job: Job, c: Config): (r: Config)
    requires Valid(job, c) && c.stage == Keyword
    ensures Valid(job, r)
  {
    var start := SkipSpace(job.file, c.pos);
    if start == |job.file| then Fail(c.(pos := start, eof := true))
    else
      var end := WordEnd(job.file, start);
      var word := Recognise(CString(job.file[start..end]));
      AfterWord(job, c, end).(cmd := word, args := [], expected := ExpectedArgs(word), stage := Args)
  }

  function ArgsStep(job: Job, c: Config): (r: Config)
    requires Valid(job, c) && c.stage == Args
    ensures Valid(job, r)
  {
    if |c.args| == c.expected then c.(stage := End)
    else
      var start := SkipSpace(job.file, c.pos);
      if start == |job.file| then Fail(c.(pos := start, eof := true))
      else
        var end := WordEnd(job.file, start);
        AfterWord(job, c, end).(args := c.args + [CString(job.file[start..end])])
  }

  /** A `%2s` conversion: any two bytes that are no white space close a command. */
  function EndStep(job: Job, c: Config): (r: Config)
    requires Valid(job, c) && c.stage == End
    ensures Valid(job, r)
  {
    var start := SkipSpace(job.file, c.pos);
    if start == |job.file| then Fail(c.(pos := start, eof := true))
    else
      var word := WordEnd(job.file, start);
      if start + 2 <= word then c.(pos := start + 2, stage := Process)
      else c.(pos := word, eof := word == |job.file|, stage := Process)
  }

  /** The text a put command writes. */
  function PutValue(env: Env, i: int, cmd: CommandWord, key: string): Option<string>
  {
    if cmd.PutIntWord? then
      if key in env then Some(IntToString(Atoi(env[key].value))) else None
    else if cmd.PutStrWord? || cmd.PutArrWord? then StrArg(env, i, key, key)
    else None
  }

  function PutStep(job: Job, c: Config): (r: Config)
    requires Valid(job, c) && c.stage == Process && !IsLoopWord(c.cmd) && !IsIfWord(c.cmd)
    ensures Valid(job, r)
  {
    match PutValue(job.env, c.loop.i, c.cmd, c.args[0])
    case None => Fail(c)
    case Some(t) =>
      PutTextKeepsRoom(c.sink, t, job.bufferSize);
      Emit(job, c.(stage := Initial), t)
  }

  /** Where the file is read after a seek; beyond its end there is as little to read as at its end. */
  function SeekTo(job: Job, to: nat): (pos: nat)
    ensures pos <= |job.file| && (to <= |job.file| ==> pos == to)
  {
    if to <= |job.file| then to else |job.file|
  }

  function LoopStep(job: Job, c: Config): (r: Config)
    requires Valid(job, c) && c.stage == Process && IsLoopWord(c.cmd)
    ensures Valid(job, r)
  {
    if c.cmd.BeginWord? then
      match StrArg(job.env, c.loop.i, c.args[0], c.args[0])
      case None => Fail(c)
      case Some(count) =>
        if c.loop.active then Fail(c)
        else c.(loop := Loop(true, c.pos, 0, Atoi(count)), stage := Initial)
    else if !c.loop.active then Fail(c)
    else
      var i := c.loop.i + 1;
      if i >= c.loop.count then c.(loop := c.loop.(i := i, active := false), stage := Initial)
      else c.(loop := c.loop.(i := i), pos := SeekTo(job, c.loop.begin), eof := false, stage := Initial)
  }

  /** The second operand of a comparison without the quotes around it. */
  function Unquoted(word: string): string
  {
    var w := if word != "" && word[0] == '"' then word[1..] else word;
    if w != "" && w[|w| - 1] == '"' then w[..|w| - 1] else w
  }

  function Condition(env: Env, i: int, args: seq<string>): Option<bool>
    requires |args| == 3
  {
    match StrArg(env, i, args[0], args[0])
    case None => None
    case Some(left) =>
      if args[1] == "==" then Some(left == Unquoted(args[2]))
      else if args[1] == "!=" then Some(left != Unquoted(args[2]))
      else None
  }

  function IfStep(job: Job, c: Config): (r: Config)
    requires Valid(job, c) && c.stage == Process && IsIfWord(c.cmd)
    ensures Valid(job, r)
  {
    var b := c.branch.(completed := c.branch.completed || c.branch.valid);
    if c.cmd.IfWord? then
      if b.active then Fail(c.(branch := b))
      else
        match Condition(job.env, c.loop.i, c.args)
        case None => Fail(c.(branch := b.(active := true, completed := false)))
        case Some(holds) => c.(branch := Branch(true, holds, false), stage := Initial)
    else if !b.active then Fail(c.(branch := b))
    else if c.cmd.ElseIfWord? then
      if b.completed then c.(branch := b, stage := Initial)
      else
        match Condition(job.env, c.loop.i, c.args)
        case None => Fail(c.(branch := b))
        case Some(holds) => c.(branch := b.(valid := holds), stage := Initial)
    else if c.cmd.ElseWord? then c.(branch := b.(valid := !b.completed), stage := Initial)
    else c.(branch := b.(active := false), stage := Initial)
  }

  function Step(job: Job, c: Config): (r: Config)
    requires Valid(job, c) && !c.eof && c.stage != Err
    ensures Valid(job, r)
  {
    match c.stage
    case Initial => InitialStep(job, c)
    case Start => StartStep(job, c)
    case Keyword => KeywordStep(job, c)
    case Args => ArgsStep(job, c)
    case End => EndStep(job, c)
    case Process =>
      if IsLoopWord(c.cmd) then LoopStep(job, c)
      else if IsIfWord(c.cmd) then IfStep(job, c)
      else PutStep(job, c)
  }

  predicate Halted(c: Config) { c.eof || c.stage == Err }

  // ----- halting

  function Phase(c: Config): nat
  {
    if c.eof then 0
    else
      match c.stage
      case Err => 0
      case Args => 4
      case End => 3
      case Process => 2
      case Initial => 1
      case Start => 1
      case Keyword => 1
  }

  /** The loop's start was not read in this file yet: a loop that an earlier file left open. */
  predicate Ahead(c: Config)
  {
    c.loop.active && c.pos <= c.loop.begin && !(c.pos == c.loop.begin && c.stage == Initial)
  }

  function MeasureBytes(job: Job, c: Config): nat
    requires Valid(job, c)
  {
    if c.loop.active && !Ahead(c) then |job.file| - c.loop.begin else |job.file| - c.pos
  }

  function MeasureTurns(c: Config): nat
  {
    if c.loop.active && c.loop.count > c.loop.i then c.loop.count - c.loop.i else 0
  }

  /** Getting on: past the start of a loop left open, or in bytes after the loop's start (or after the
      position), out of a loop, in turns left, in bytes left, or in the phase of a command. */
  ghost predicate GetsOn(job: Job, c: Config, d: Config)
    requires Valid(job, c) && Valid(job, d)
  {
    (Ahead(c), MeasureBytes(job, c), !c.loop.active, MeasureTurns(c), |job.file| - c.pos, Phase(c)
      decreases to
      Ahead(d), MeasureBytes(job, d), !d.loop.active, MeasureTurns(d), |job.file| - d.pos, Phase(d))
  }

  lemma LoopGetsOn(job: Job, c: Config)
    requires Valid(job, c) && !c.eof && c.stage == Process && IsLoopWord(c.cmd)
    ensures GetsOn(job, c, LoopStep(job, c))
  {
  }

  /** A step that leaves the loop alone reads on, or goes on to the next phase of its command. */
  lemma ReadingGetsOn(job: Job, c: Config, d: Config)
    requires Valid(job, c) && Valid(job, d) && !Halted(c) && d.loop == c.loop && c.pos <= d.pos
    requires c.pos < d.pos || (Phase(d) < Phase(c) && (c.stage == Initial ==> d.stage == Initial))
    ensures GetsOn(job, c, d)
  {
  }

  lemma StepGetsOn(job: Job, c: Config)
    requires Valid(job, c) && !Halted(c)
    ensures GetsOn(job, c, Step(job, c))
  {
    if c.stage == Process && IsLoopWord(c.cmd) {
      LoopGetsOn(job, c);
    } else {
      ReadingGetsOn(job, c, Step(job, c));
    }
  }

  /** The whole run. It halts on every file, for every set of arguments and in every state, seeks included. */
  function Run(job: Job, c: Config): (r: Config)
    requires Valid(job, c)
    ensures Valid(job, r) && Halted(r)
    decreases Ahead(c), MeasureBytes(job, c), !c.loop.active, MeasureTurns(c), |job.file| - c.pos, Phase(c)
  {
    if Halted(c) then c
    else
      StepGetsOn(job, c);
      Run(job, Step(job, c))
  }

  /** The number of steps a run takes: the induction measure of everything said about runs. */
  function Steps(job: Job, c: Config): nat
    requires Valid(job, c)
    decreases Ahead(c), MeasureBytes(job, c), !c.loop.active, MeasureTurns(c), |job.file| - c.pos, Phase(c)
  {
    if Halted(c) then 0
    else
      StepGetsOn(job, c);
      1 + Steps(job, Step(job, c))
  }
}
