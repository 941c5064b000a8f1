/** What the consumer receives, for every file and every set of arguments, malformed ones included. */
module TemplateOutput {
  import opened TemplateRun

  function Joined(chunks: seq<string>): string
  {
    if chunks == [] then "" else Joined(chunks[..|chunks| - 1]) + chunks[|chunks| - 1]
  }

  /** Everything written so far, flushed or not. */
  function Written(s: Sink): string
  {
    Joined(s.chunks) + s.pending
  }

  ghost predicate FullChunks(chunks: seq<string>, size: nat)
  {
    forall k | 0 <= k < |chunks| :: |chunks[k]| == size
  }

  lemma {:induction false} PutTextAppends(s: Sink, text: string, size: nat)
    ensures Written(PutText(s, text, size)) == Written(s) + text
    decreases text
  {
    if text == "" {
      assert Written(s) + text == Written(s);
    } else {
      var s' := PutChar(s, text[0], size);
      if |s.pending| + 1 == size {
        assert s'.chunks[..|s'.chunks| - 1] == s.chunks;
      }
      assert Written(s') == Written(s) + [text[0]];
      PutTextAppends(s', text[1..], size);
      assert Written(s) + text == Written(s) + [text[0]] + text[1..];
    }
  }

  lemma {:induction false} PutTextKeepsFull(s: Sink, text: string, size: nat)
    requires FullChunks(s.chunks, size)
    ensures FullChunks(PutText(s, text, size).chunks, size)
    decreases text
  {
    if text != "" {
      PutTextKeepsFull(PutChar(s, text[0], size), text[1..], size);
    }
  }

  lemma FlushedKeepsText(s: Sink)
    ensures Written(Flushed(s)) == Written(s)
  {
    if s.pending != "" {
      assert Flushed(s).chunks[..|s.chunks|] == s.chunks;
    }
  }

  /**
    Every chunk is nonempty and fills the buffer; only the last one of a run that reached the end
    of the file between commands may be shorter, and then nothing is left in the buffer.
   */
  ghost predicate ChunksInShape(job: Job, c: Config)
  {
    var s := c.sink;
    if c.eof && c.stage == Initial then
      && s.pending == ""
      && (s.chunks != [] ==>
            && FullChunks(s.chunks[..|s.chunks| - 1], job.bufferSize)
            && 0 < |s.chunks[|s.chunks| - 1]| <= job.bufferSize)
    else FullChunks(s.chunks, job.bufferSize)
  }

  lemma {:induction false} InitialKeepsShape(job: Job, c: Config)
    requires Valid(job, c) && c.stage == Initial && !c.eof && ChunksInShape(job, c)
    ensures ChunksInShape(job, InitialStep(job, c))
    decreases |job.file| - c.pos
  {
    if c.pos < |job.file| && job.file[c.pos] != '{' {
      PutTextKeepsRoom(c.sink, [job.file[c.pos]], job.bufferSize);
      PutTextKeepsFull(c.sink, [job.file[c.pos]], job.bufferSize);
      InitialKeepsShape(job, Emit(job, c.(pos := c.pos + 1), [job.file[c.pos]]));
    }
  }

  lemma StepKeepsShape(job: Job, c: Config)
    requires Valid(job, c) && !Halted(c) && ChunksInShape(job, c)
    ensures ChunksInShape(job, Step(job, c))
  {
    if c.stage == Initial {
      InitialKeepsShape(job, c);
    } else {
      forall text
        ensures FullChunks(PutText(c.sink, text, job.bufferSize).chunks, job.bufferSize)
      {
        PutTextKeepsFull(c.sink, text, job.bufferSize);
      }
    }
  }

  lemma {:induction false} RunChunksInShape(job: Job, c: Config)
    requires Valid(job, c) && ChunksInShape(job, c)
    ensures ChunksInShape(job, Run(job, c))
    decreases Steps(job, c)
  {
    if !Halted(c) {
      StepKeepsShape(job, c);
      RunChunksInShape(job, Step(job, c));
    }
  }

  // ----- the buffer neither loses, adds nor reorders anything

  /** The same state but for how the text is cut into chunks. */
  ghost predicate SameText(c: Config, d: Config)
  {
    c == d.(sink := c.sink) && Written(c.sink) == Written(d.sink)
  }

  lemma EmitSame(job: Job, size: nat, c: Config, d: Config, text: string)
    requires SameText(c, d)
    ensures SameText(Emit(job, c, text), Emit(job.(bufferSize := size), d, text))
  {
    PutTextAppends(c.sink, text, job.bufferSize);
    PutTextAppends(d.sink, text, size);
  }

  lemma {:induction false} InitialSame(job: Job, size: nat, c: Config, d: Config)
    requires Valid(job, c) && Valid(job.(bufferSize := size), d) && SameText(c, d)
    requires c.stage == Initial && !c.eof
    ensures SameText(InitialStep(job, c), InitialStep(job.(bufferSize := size), d))
    decreases |job.file| - c.pos
  {
    if c.pos == |job.file| {
      FlushedKeepsText(c.sink);
      FlushedKeepsText(d.sink);
    } else if job.file[c.pos] != '{' {
      var text := [job.file[c.pos]];
      PutTextKeepsRoom(c.sink, text, job.bufferSize);
      PutTextKeepsRoom(d.sink, text, size);
      EmitSame(job, size, c.(pos := c.pos + 1), d.(pos := c.pos + 1), text);
      InitialSame(job, size, Emit(job, c.(pos := c.pos + 1), text),
                  Emit(job.(bufferSize := size), d.(pos := d.pos + 1), text));
    }
  }

  lemma ScanSame(job: Job, size: nat, c: Config, d: Config)
    requires Valid(job, c) && Valid(job.(bufferSize := size), d) && SameText(c, d)
    ensures c.stage == Start ==> SameText(StartStep(job, c), StartStep(job.(bufferSize := size), d))
    ensures c.stage == Keyword ==> SameText(KeywordStep(job, c), KeywordStep(job.(bufferSize := size), d))
    ensures c.stage == Args ==> SameText(ArgsStep(job, c), ArgsStep(job.(bufferSize := size), d))
    ensures c.stage == End ==> SameText(EndStep(job, c), EndStep(job.(bufferSize := size), d))
  {
    if c.stage == Start && c.pos < |job.file| {
      EmitSame(job, size, c.(pos := c.pos + 1, stage := Initial), d.(pos := d.pos + 1, stage := Initial),
               ['{', job.file[c.pos]]);
    }
  }

  lemma PutSame(job: Job, size: nat, c: Config, d: Config)
    requires Valid(job, c) && Valid(job.(bufferSize := size), d) && SameText(c, d) && c.stage == Process
    requires !IsLoopWord(c.cmd) && !IsIfWord(c.cmd)
    ensures SameText(PutStep(job, c), PutStep(job.(bufferSize := size), d))
  {
    forall text
      ensures SameText(Emit(job, c.(stage := Initial), text),
                       Emit(job.(bufferSize := size), d.(stage := Initial), text))
    {
      EmitSame(job, size, c.(stage := Initial), d.(stage := Initial), text);
    }
  }

  lemma LoopSame(job: Job, size: nat, c: Config, d: Config)
    requires Valid(job, c) && Valid(job.(bufferSize := size), d) && SameText(c, d) && c.stage == Process
    ensures IsLoopWord(c.cmd) ==> SameText(LoopStep(job, c), LoopStep(job.(bufferSize := size), d))
  {
  }

  lemma IfSame(job: Job, size: nat, c: Config, d: Config)
    requires Valid(job, c) && Valid(job.(bufferSize := size), d) && SameText(c, d) && c.stage == Process
    ensures IsIfWord(c.cmd) ==> SameText(IfStep(job, c), IfStep(job.(bufferSize := size), d))
  {
  }

  lemma StepSame(job: Job, size: nat, c: Config, d: Config)
    requires Valid(job, c) && Valid(job.(bufferSize := size), d) && SameText(c, d) && !Halted(c)
    ensures SameText(Step(job, c), Step(job.(bufferSize := size), d))
  {
    if c.stage == Initial {
      InitialSame(job, size, c, d);
    } else if c.stage == Process {
      LoopSame(job, size, c, d);
      IfSame(job, size, c, d);
      if !IsLoopWord(c.cmd) && !IsIfWord(c.cmd) {
        PutSame(job, size, c, d);
      }
    } else {
      ScanSame(job, size, c, d);
    }
  }

  /** The size of the buffer decides only where the output is cut. */
  lemma {:induction false} BufferSizeOnlyCuts(job: Job, size: nat, c: Config, d: Config)
    requires Valid(job, c) && Valid(job.(bufferSize := size), d) && SameText(c, d)
    ensures SameText(Run(job, c), Run(job.(bufferSize := size), d))
    decreases Steps(job, c)
  {
    if !Halted(c) {
      StepSame(job, size, c, d);
      BufferSizeOnlyCuts(job, size, Step(job, c), Step(job.(bufferSize := size), d));
    }
  }
}
