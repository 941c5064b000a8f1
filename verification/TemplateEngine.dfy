/** The engine itself: its fields, its state methods, and its main loop over a file. */
module TemplateEngine {
  import opened Wrappers
  import opened TemplateText
  import opened TemplateRun
  import opened TemplateOutput
  import opened TemplateSyntax
  import opened TemplateTheorem

  /** An open file: position and end-of-file flag, as the C library keeps them. */
  class File {
    const content: string
    var pos: nat
    var eof: bool

    constructor (content: string)
      ensures this.content == content && pos == 0 && !eof
    {
      this.content := content;
      pos, eof := 0, false;
    }

    ghost predicate Valid()
      reads this
    {
      pos <= |content|
    }

    method Getc() returns (c: Option<char>)
      requires Valid()
      modifies this
      ensures Valid()
      ensures if old(pos) == |content| then c == None && pos == old(pos) && eof
              else c == Some(content[old(pos)]) && pos == old(pos) + 1 && eof == old(eof)
    {
      if pos == |content| {
        eof := true;
        return None;
      }
      c := Some(content[pos]);
      pos := pos + 1;
    }

    /** `fscanf` with `%s`, or with `%2s` when the width is limited to two. */
    method ScanWord(limited: bool) returns (word: Option<string>)
      requires Valid() && !eof
      modifies this
      ensures Valid()
      ensures
        var start := SkipSpace(content, old(pos));
        var end := WordEnd(content, start);
        if start == |content| then word == None && pos == start && eof
        else if limited && start + 2 <= end then word == Some(content[start..start + 2]) && pos == start + 2 && !eof
        else word == Some(content[start..end]) && pos == end && eof == (end == |content|)
    {
      var start := SkipSpace(content, pos);
      if start == |content| {
        pos, eof := start, true;
        return None;
      }
      var end := WordEnd(content, start);
      if limited && start + 2 <= end {
        word, pos := Some(content[start..start + 2]), start + 2;
      } else {
        word, pos, eof := Some(content[start..end]), end, end == |content|;
      }
    }

    /** A seek lowers the flag, even one beyond the end, where there is as little to read as at the end. */
    method Seek(to: nat)
      modifies this
      ensures Valid() && pos == (if to <= |content| then to else |content|) && !eof
    {
      pos, eof := if to <= |content| then to else |content|, false;
    }
  }

  lemma PutTwo(s: Sink, a: char, b: char, size: nat)
    ensures PutText(s, [a, b], size) == PutChar(PutChar(s, a, size), b, size)
  {
    var s' := PutChar(s, a, size);
    assert [a, b][1..] == [b] && [b][1..] == "";
    assert PutText(s', [b], size) == PutText(PutChar(s', b, size), "", size);
  }

  /** A branch that was taken is over at the next command, however often that is noted. */
  lemma CompletingTwice(job: Job, c: Config)
    requires TemplateRun.Valid(job, c) && c.stage == Process && IsIfWord(c.cmd)
    ensures IfStep(job, c.(branch := c.branch.(completed := c.branch.completed || c.branch.valid))) == IfStep(job, c)
  {
  }

  /** An ordinary character is written if it may be, and the text state reads on. */
  lemma ReadsOnFrom(job: Job, c: Config, a: char)
    requires TemplateRun.Valid(job, c) && c.stage == Initial && !c.eof
    requires c.pos < |job.file| && job.file[c.pos] == a != '{'
    ensures
      var d := c.(pos := c.pos + 1, sink := if Allowed(c.branch) then PutChar(c.sink, a, job.bufferSize) else c.sink);
      TemplateRun.Valid(job, d) && InitialStep(job, c) == InitialStep(job, d)
  {
    PutTextKeepsRoom(c.sink, [a], job.bufferSize);
    assert [a][1..] == "";
    assert PutText(c.sink, [a], job.bufferSize) == PutText(PutChar(c.sink, a, job.bufferSize), "", job.bufferSize);
  }

  class Engine {
    const buffer: array<char>
    var currentBuffer: nat
    /** What the consumer was handed so far. */
    var consumed: seq<string>

    var args: Env
    var cmdBuffer: string
    var argBuffer: seq<string>
    var expectedArgs: nat

    var loopBeginIndex: nat
    var loopI: int
    var loopCount: int
    var inLoop: bool

    var inBranching: bool
    var isValidBranch: bool
    var isBranchingCompleted: bool

    ghost predicate Valid()
      reads this, buffer
    {
      currentBuffer < buffer.Length
    }

    ghost function Sunk(): Sink
      requires Valid()
      reads this, buffer
    {
      Sink(consumed, buffer[..currentBuffer])
    }

    /** The engine and its file as one state of the run. */
    ghost function State(stage: Stage, f: File): Config
      requires Valid()
      reads this, buffer, f
    {
      Config(stage, f.pos, f.eof, Recognise(cmdBuffer), argBuffer, expectedArgs,
             Loop(inLoop, loopBeginIndex, loopI, loopCount),
             Branch(inBranching, isValidBranch, isBranchingCompleted), Sunk())
    }

    ghost function JobOn(f: File): Job
      reads this
    {
      Job(f.content, args, buffer.Length)
    }

    ghost predicate At(stage: Stage, f: File)
      reads this, buffer, f
    {
      Valid() && TemplateRun.Valid(JobOn(f), State(stage, f))
    }

    constructor (buffer: array<char>)
      requires 0 < buffer.Length
      ensures Valid() && this.buffer == buffer && args == map[]
      ensures Sunk() == Sink([], "") && Recognise(cmdBuffer) == OtherWord && argBuffer == [] && expectedArgs == 0
      ensures !inLoop && loopBeginIndex == 0 && loopI == 0 && loopCount == 0
      ensures !inBranching && !isValidBranch && !isBranchingCompleted
    {
      this.buffer := buffer;
      currentBuffer, consumed, args := 0, [], map[];
      cmdBuffer, argBuffer, expectedArgs := "", [], 0;
      loopBeginIndex, loopI, loopCount, inLoop := 0, 0, 0, false;
      inBranching, isValidBranch, isBranchingCompleted := false, false, false;
    }

    // ----- arguments: the first value registered under a key stays

    method AddIntArg(val: int, key: string)
      modifies `args
      ensures args == if key in old(args) then old(args) else old(args)[key := Argument(IntToString(val), [])]
    {
      if key !in args {
        args := args[key := Argument(IntToString(val), [])];
      }
    }

    method AddArgStr(val: string, key: string)
      modifies `args
      ensures args == if key in old(args) then old(args) else old(args)[key := Argument(val, [])]
    {
      if key !in args {
        args := args[key := Argument(val, [])];
      }
    }

    method AddArgArray(vals: seq<string>, key: string)
      modifies `args
      ensures args == if key in old(args) then old(args) else old(args)[key := Argument("", vals)]
    {
      if key !in args {
        args := args[key := Argument("", vals)];
      }
    }

    method AppendArgArray(val: string, key: string)
      modifies `args
      ensures key in args && args.Keys == old(args).Keys + {key}
      ensures forall k | k in old(args) && k != key :: args[k] == old(args)[k]
      ensures args[key] == if key in old(args) then old(args)[key].(values := old(args)[key].values + [val])
                           else Argument("", [val])
    {
      if key !in args {
        args := args[key := Argument("", [val])];
      } else {
        args := args[key := args[key].(values := args[key].values + [val])];
      }
    }

    // ----- output

    method Flush()
      requires Valid()
      modifies `consumed, `currentBuffer
      ensures Valid() && Sunk() == Flushed(old(Sunk()))
    {
      if currentBuffer > 0 {
        consumed := consumed + [buffer[..currentBuffer]];
        currentBuffer := 0;
      }
    }

    predicate IsWriteAllowed()
      reads this
    {
      if !inBranching then true
      else if isBranchingCompleted then false
      else isValidBranch
    }

    method PutToBuffer(symbol: char)
      requires Valid()
      modifies `consumed, `currentBuffer, buffer
      ensures Valid()
      ensures Sunk() == if IsWriteAllowed() then PutChar(old(Sunk()), symbol, buffer.Length) else old(Sunk())
    {
      if !IsWriteAllowed() {
        return;
      }
      ghost var before := buffer[..currentBuffer];
      buffer[currentBuffer] := symbol;
      currentBuffer := currentBuffer + 1;
      assert buffer[..currentBuffer] == before + [symbol];
      if currentBuffer == buffer.Length {
        consumed := consumed + [buffer[..currentBuffer]];
        currentBuffer := 0;
      }
    }

    method PutStrToBuffer(str: string)
      requires Valid()
      modifies `consumed, `currentBuffer, buffer
      ensures Valid()
      ensures Sunk() == if IsWriteAllowed() then PutText(old(Sunk()), str, buffer.Length) else old(Sunk())
    {
      var i := 0;
      assert str[0..] == str;
      while i < |str|
        invariant 0 <= i <= |str| && Valid()
        invariant if IsWriteAllowed() then
                    PutText(Sunk(), str[i..], buffer.Length) == PutText(old(Sunk()), str, buffer.Length)
                  else Sunk() == old(Sunk())
      {
        assert str[i..][0] == str[i] && str[i..][1..] == str[i + 1..];
        PutToBuffer(str[i]);
        i := i + 1;
      }
    }

    // ----- the states

    method ProcessInitial(f: File) returns (next: Stage)
      requires At(Initial, f) && !f.eof
      modifies this, buffer, f
      ensures At(next, f) && JobOn(f) == old(JobOn(f))
      ensures State(next, f) == InitialStep(old(JobOn(f)), old(State(Initial, f)))
    {
      ghost var job, start := JobOn(f), State(Initial, f);
      while !f.eof
        invariant At(Initial, f) && JobOn(f) == job && !f.eof
        invariant InitialStep(job, State(Initial, f)) == InitialStep(job, start)
        decreases |f.content| - f.pos
      {
        ghost var c := State(Initial, f);
        var val := f.Getc();
        if val == None {
          break;
        }
        if val.value == '{' {
          return Start;
        }
        ReadsOnFrom(job, c, val.value);
        PutToBuffer(val.value);
        assert State(Initial, f) == c.(pos := f.pos, sink := Sunk());
      }
      Flush();
      next := Initial;
    }

    method ProcessStart(f: File) returns (next: Stage)
      requires At(Start, f) && !f.eof
      modifies this, buffer, f
      ensures At(next, f) && JobOn(f) == old(JobOn(f))
      ensures State(next, f) == StartStep(old(JobOn(f)), old(State(Start, f)))
    {
      var val := f.Getc();
      if val == None {
        next := Err;
      } else if val.value == '{' {
        next := Keyword;
      } else {
        ghost var before := Sunk();
        PutTextKeepsRoom(before, ['{', val.value], buffer.Length);
        PutTwo(before, '{', val.value, buffer.Length);
        PutToBuffer('{');
        PutToBuffer(val.value);
        next := Initial;
      }
    }

    method ProcessKeyword(f: File) returns (next: Stage)
      requires At(Keyword, f) && !f.eof
      modifies this, f
      ensures At(next, f) && JobOn(f) == old(JobOn(f))
      ensures State(next, f) == KeywordStep(old(JobOn(f)), old(State(Keyword, f)))
    {
      var word := f.ScanWord(false);
      if word == None {
        return Err;
      }
      cmdBuffer := CString(word.value);
      argBuffer := [];
      expectedArgs := ExpectedArgs(Recognise(cmdBuffer));
      next := Args;
    }

    method ProcessArgs(f: File) returns (next: Stage)
      requires At(Args, f) && !f.eof
      modifies this, f
      ensures At(next, f) && JobOn(f) == old(JobOn(f))
      ensures State(next, f) == ArgsStep(old(JobOn(f)), old(State(Args, f)))
    {
      if expectedArgs == 0 {
        return End;
      }
      if |argBuffer| == expectedArgs {
        return End;
      }
      var word := f.ScanWord(false);
      if word == None {
        return Err;
      }
      argBuffer := argBuffer + [CString(word.value)];
      next := Args;
    }

    method ProcessEnd(f: File) returns (next: Stage)
      requires At(End, f) && !f.eof
      modifies f
      ensures At(next, f) && JobOn(f) == old(JobOn(f))
      ensures State(next, f) == EndStep(old(JobOn(f)), old(State(End, f)))
    {
      var word := f.ScanWord(true);
      next := if word == None then Err else Process;
    }

    method ProcessPut(f: File) returns (next: Stage)
      requires At(Process, f) && !f.eof
      requires !IsLoopWord(Recognise(cmdBuffer)) && !IsIfWord(Recognise(cmdBuffer))
      modifies `consumed, `currentBuffer, buffer
      ensures At(next, f) && JobOn(f) == old(JobOn(f))
      ensures State(next, f) == PutStep(old(JobOn(f)), old(State(Process, f)))
    {
      var cmd := Recognise(cmdBuffer);
      var text: Option<string>;
      if cmd.PutIntWord? {
        text := if argBuffer[0] in args then Some(IntToString(Atoi(args[argBuffer[0]].value))) else None;
      } else if cmd.PutStrWord? || cmd.PutArrWord? {
        text := StrArg(args, loopI, argBuffer[0], argBuffer[0]);
      } else {
        text := None;
      }
      if text == None {
        return Err;
      }
      PutTextKeepsRoom(Sunk(), text.value, buffer.Length);
      PutStrToBuffer(text.value);
      next := Initial;
    }

    method BeginLoop(count: int, f: File) returns (ok: bool)
      modifies `inLoop, `loopCount, `loopI, `loopBeginIndex
      ensures ok == !old(inLoop)
      ensures if ok then inLoop && loopCount == count && loopI == 0 && loopBeginIndex == f.pos
              else unchanged(this)
    {
      if inLoop {
        return false;
      }
      inLoop, loopCount, loopI, loopBeginIndex := true, count, 0, f.pos;
      ok := true;
    }

    method EndLoop(f: File) returns (ok: bool)
      modifies `inLoop, f
      ensures ok == old(inLoop)
      ensures inLoop == (old(inLoop) && loopI < loopCount)
      ensures if inLoop then f.pos == SeekTo(JobOn(f), loopBeginIndex) && !f.eof else unchanged(f)
    {
      if !inLoop {
        return false;
      }
      if loopI >= loopCount {
        inLoop := false;
        return true;
      }
      f.Seek(loopBeginIndex);
      ok := true;
    }

    method ProcessLoop(f: File) returns (next: Stage)
      requires At(Process, f) && !f.eof && IsLoopWord(Recognise(cmdBuffer))
      modifies `inLoop, `loopCount, `loopI, `loopBeginIndex, f
      ensures At(next, f) && JobOn(f) == old(JobOn(f))
      ensures State(next, f) == LoopStep(old(JobOn(f)), old(State(Process, f)))
    {
      if Recognise(cmdBuffer).BeginWord? {
        var arg := StrArg(args, loopI, argBuffer[0], argBuffer[0]);
        if arg == None {
          return Err;
        }
        var ok := BeginLoop(Atoi(arg.value), f);
        next := if ok then Initial else Err;
      } else {
        if !inLoop {
          return Err;
        }
        loopI := loopI + 1;
        var ok := EndLoop(f);
        next := if ok then Initial else Err;
      }
    }

    method ProcessBranching() returns (ok: bool)
      requires |argBuffer| == 3
      modifies `isValidBranch
      ensures
        var holds := Condition(args, loopI, argBuffer);
        ok == holds.Some? && isValidBranch == if ok then holds.value else old(isValidBranch)
    {
      var argword := StrArg(args, loopI, argBuffer[0], argBuffer[0]);
      if argword == None {
        return false;
      }
      var arg2 := Unquoted(argBuffer[2]);
      if argBuffer[1] == "==" {
        isValidBranch := argword.value == arg2;
      } else if argBuffer[1] == "!=" {
        isValidBranch := argword.value != arg2;
      } else {
        return false;
      }
      ok := true;
    }

    /** The commands between an `if` and its `endif`, and that one. */
    method ProcessArmCommand(f: File) returns (next: Stage)
      requires At(Process, f) && !f.eof && IsIfWord(Recognise(cmdBuffer)) && !Recognise(cmdBuffer).IfWord?
      requires isValidBranch ==> isBranchingCompleted
      modifies `inBranching, `isValidBranch
      ensures At(next, f) && JobOn(f) == old(JobOn(f))
      ensures State(next, f) == IfStep(old(JobOn(f)), old(State(Process, f)))
    {
      var cmd := Recognise(cmdBuffer);
      if !inBranching {
        return Err;
      }
      next := Initial;
      if cmd.ElseIfWord? {
        if !isBranchingCompleted {
          var ok := ProcessBranching();
          next := if ok then Initial else Err;
        }
      } else if cmd.ElseWord? {
        isValidBranch := !isBranchingCompleted;
      } else {
        inBranching := false;
      }
    }

    method ProcessIf(f: File) returns (next: Stage)
      requires At(Process, f) && !f.eof && IsIfWord(Recognise(cmdBuffer))
      modifies `inBranching, `isValidBranch, `isBranchingCompleted
      ensures At(next, f) && JobOn(f) == old(JobOn(f))
      ensures State(next, f) == IfStep(old(JobOn(f)), old(State(Process, f)))
    {
      ghost var c := State(Process, f);
      if !isBranchingCompleted {
        isBranchingCompleted := isValidBranch;
      }
      if !Recognise(cmdBuffer).IfWord? {
        CompletingTwice(JobOn(f), c);
        next := ProcessArmCommand(f);
      } else if inBranching {
        next := Err;
      } else {
        inBranching := true;
        isBranchingCompleted := false;
        var ok := ProcessBranching();
        next := if ok then Initial else Err;
      }
    }

    method ProcessCommand(f: File) returns (next: Stage)
      requires At(Process, f) && !f.eof
      modifies this, buffer, f
      ensures At(next, f) && JobOn(f) == old(JobOn(f))
      ensures State(next, f) == Step(old(JobOn(f)), old(State(Process, f)))
    {
      if IsLoopWord(Recognise(cmdBuffer)) {
        next := ProcessLoop(f);
      } else if IsIfWord(Recognise(cmdBuffer)) {
        next := ProcessIf(f);
      } else {
        next := ProcessPut(f);
      }
    }

    /**
      The main loop. It ends on every file, whatever an earlier one left behind; success is not having ended
      in the error stage.
     */
    method ProcessFile(f: File) returns (result: bool, ghost stage: Stage)
      requires Valid() && f.pos == 0 && !f.eof
      modifies this, buffer, f
      ensures At(stage, f) && State(stage, f) == Run(old(JobOn(f)), old(State(Initial, f)))
      ensures result == (stage != Err)
    {
      var state := Initial;
      ghost var job, start := JobOn(f), State(Initial, f);
      while !f.eof && state != Err
        invariant At(state, f) && JobOn(f) == job
        invariant Run(job, State(state, f)) == Run(job, start)
        decreases Steps(job, State(state, f))
      {
        match state
        case Initial => state := ProcessInitial(f);
        case Start => state := ProcessStart(f);
        case Keyword => state := ProcessKeyword(f);
        case Args => state := ProcessArgs(f);
        case End => state := ProcessEnd(f);
        case Process => state := ProcessCommand(f);
        case Err =>
      }
      stage := state;
      result := state != Err;
    }
  }

  /** A fresh engine over a written template, as the page handlers use it. */
  method RenderTemplate(buffer: array<char>, env: Env, text: string, ghost items: Items)
    returns (ok: bool, chunks: seq<string>)
    requires 0 < buffer.Length && ItemsOk(items) && text == Print(items)
    modifies buffer
    ensures ok <==> Meaning(items, env, 0, false, false).Out?
    ensures ok ==> Joined(chunks) == Meaning(items, env, 0, false, false).text
    ensures ok && chunks != [] ==>
              && FullChunks(chunks[..|chunks| - 1], buffer.Length)
              && 0 < |chunks[|chunks| - 1]| <= buffer.Length
  {
    var engine := new Engine(buffer);
    engine.args := env;
    var f := new File(text);
    ghost var stage;
    EngineDeliversMeaning(items, env, buffer.Length);
    assert engine.State(Initial, f) == Fresh();
    ok, stage := engine.ProcessFile(f);
    chunks := engine.consumed;
  }
}
