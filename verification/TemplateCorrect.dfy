/** Running the engine on a written template produces the template's meaning. */
module TemplateCorrect {
  import opened TemplateText
  import opened TemplateRun
  import opened TemplateSyntax

  /** `s` stands in `file` at `pos`. */
  ghost predicate Here(file: string, pos: nat, s: string)
  {
    pos + |s| <= |file| && forall k | pos <= k < pos + |s| :: file[k] == s[k - pos]
  }

  lemma HereSplit(file: string, pos: nat, s: string, t: string)
    requires Here(file, pos, s + t)
    ensures Here(file, pos, s) && Here(file, pos + |s|, t)
  {
    forall k | pos + |s| <= k < pos + |s| + |t|
      ensures file[k] == t[k - pos - |s|]
    {
      assert file[k] == (s + t)[k - pos];
    }
  }

  // ----- words

  lemma SkipsGap(file: string, pos: nat, gap: string)
    requires Here(file, pos, gap) && Blank(gap)
    requires pos + |gap| < |file| && !IsSpace(file[pos + |gap|])
    ensures SkipSpace(file, pos) == pos + |gap|
  {
    SkipSpaceStops(file, pos, pos + |gap|);
  }

  lemma ReadsWord(file: string, pos: nat, word: string)
    requires Here(file, pos, word) && IsWord(word)
    requires pos + |word| < |file| && IsSpace(file[pos + |word|])
    ensures WordEnd(file, pos) == pos + |word|
    ensures CString(file[pos..pos + |word|]) == word
  {
    WordEndIsBeyond(file, pos, pos + |word|);
    assert file[pos..pos + |word|] == word;
    CStringOfText(word);
  }

  /** Reading the gap and the word after it, when another gap follows. */
  lemma ReadsGapAndWord(file: string, pos: nat, gap: string, word: string, rest: string)
    requires Here(file, pos, gap + (word + rest))
    requires Blank(gap) && IsWord(word) && rest != "" && IsSpace(rest[0])
    ensures ScansWord(file, pos, pos + |gap|, pos + |gap| + |word|, word)
    ensures Here(file, pos + |gap| + |word|, rest)
  {
    HereSplit(file, pos, gap, word + rest);
    HereSplit(file, pos + |gap|, word, rest);
    SkipsGap(file, pos, gap);
    ReadsWord(file, pos + |gap|, word);
  }

  /** The words of a command after the first. */
  function ArgsOf(t: Tokens): seq<string>
  {
    match t
    case Close(_) => []
    case Word(_, word, rest) => [word] + ArgsOf(rest)
  }

  ghost predicate ArgsOk(t: Tokens)
  {
    Separates(t.gap) && (t.Word? ==> IsWord(t.word) && ArgsOk(t.rest))
  }

  /** What scanning the next word from `pos` finds. */
  ghost predicate ScansWord(file: string, pos: nat, start: nat, end: nat, word: string)
  {
    && pos <= start <= end < |file|
    && SkipSpace(file, pos) == start
    && WordEnd(file, start) == end
    && CString(file[start..end]) == word
  }

  lemma TokenHere(file: string, pos: nat, t: Tokens)
    requires t.Word? && Blank(t.gap) && IsWord(t.word) && Separates(t.rest.gap)
    requires Here(file, pos, PrintTokens(t))
    ensures ScansWord(file, pos, pos + |t.gap|, pos + |t.gap| + |t.word|, t.word)
    ensures Here(file, pos + |t.gap| + |t.word|, PrintTokens(t.rest))
  {
    var rest := PrintTokens(t.rest);
    assert rest[0] == t.rest.gap[0];
    ReadsGapAndWord(file, pos, t.gap, t.word, rest);
  }

  lemma ClosingHere(file: string, pos: nat, gap: string)
    requires Blank(gap) && Here(file, pos, gap + "}}")
    ensures pos + |gap| + 2 <= |file|
    ensures SkipSpace(file, pos) == pos + |gap|
    ensures pos + |gap| + 2 <= WordEnd(file, pos + |gap|)
  {
    HereSplit(file, pos, gap, "}}");
    assert file[pos + |gap|] == '}' && file[pos + |gap| + 1] == '}';
    SkipsGap(file, pos, gap);
    WordEndIsBeyond(file, pos + |gap|, pos + |gap| + 2);
  }

  /** Scanning from `pos` finds the words of `t`, then the closing braces before `end`. */
  ghost predicate ScansTokens(file: string, pos: nat, t: Tokens, end: nat)
    decreases t
  {
    match t
    case Close(gap) =>
      && end == SkipSpace(file, if pos <= |file| then pos else 0) + 2
      && pos < end <= |file|
      && end <= WordEnd(file, end - 2)
    case Word(gap, word, rest) =>
      && ScansWord(file, pos, pos + |gap|, pos + |gap| + |word|, word)
      && ScansTokens(file, pos + |gap| + |word|, rest, end)
  }

  lemma {:induction false} TokensHere(file: string, pos: nat, t: Tokens)
    requires Here(file, pos, PrintTokens(t))
    requires Blank(t.gap) && (t.Close? || (IsWord(t.word) && ArgsOk(t.rest)))
    ensures ScansTokens(file, pos, t, pos + |PrintTokens(t)|)
    decreases t
  {
    match t
    case Close(gap) => ClosingHere(file, pos, gap);
    case Word(gap, word, rest) =>
      TokenHere(file, pos, t);
      TokensHere(file, pos + |gap| + |word|, rest);
  }

  // ----- commands

  ghost predicate Ready(job: Job, c: Config)
  {
    Valid(job, c) && c.stage == Initial && !c.eof
  }

  predicate OrdinaryNext(job: Job, c: Config)
  {
    c.pos < |job.file| && job.file[c.pos] != '{'
  }

  /** One character of text read and written: a part of the step that reads on to the next brace. */
  function AfterOrdinary(job: Job, c: Config): (r: Config)
    requires Ready(job, c) && OrdinaryNext(job, c)
    ensures Ready(job, r)
  {
    PutTextKeepsRoom(c.sink, [job.file[c.pos]], job.bufferSize);
    Emit(job, c.(pos := c.pos + 1), [job.file[c.pos]])
  }

  lemma OrdinaryKeepsEnd(job: Job, c: Config)
    requires Ready(job, c) && OrdinaryNext(job, c)
    ensures Run(job, c) == Run(job, AfterOrdinary(job, c))
  {
    var d := AfterOrdinary(job, c);
    assert InitialStep(job, c) == InitialStep(job, d);
    assert Step(job, c) == Step(job, d);
  }

  /** A reflexive and transitive relation that holds along every step of the engine. */
  ghost predicate FollowsSteps(job: Job, rel: (Config, Config) -> bool)
  {
    && (forall c :: rel(c, c))
    && (forall c, d, e :: rel(c, d) && rel(d, e) ==> rel(c, e))
    && (forall c | Valid(job, c) && !Halted(c) :: rel(c, Step(job, c)))
    && (forall c | Ready(job, c) && OrdinaryNext(job, c) :: rel(c, AfterOrdinary(job, c)))
  }

  /** Steps lead from `c` to `d`: the least relation that follows the steps, each character of text apart. */
  ghost predicate Leads(job: Job, c: Config, d: Config)
  {
    forall rel | FollowsSteps(job, rel) :: rel(c, d)
  }

  lemma LeadsByStep(job: Job, c: Config)
    requires Valid(job, c) && !Halted(c)
    ensures Leads(job, c, Step(job, c))
  {
  }

  lemma LeadsOn(job: Job, c: Config, d: Config, e: Config)
    requires Leads(job, c, d) && Leads(job, d, e)
    ensures Leads(job, c, e)
  {
  }

  /** A run may be started at any state it passes through. */
  lemma LeadsToSameEnd(job: Job, c: Config, d: Config)
    requires Leads(job, c, d) && Valid(job, c)
    ensures Valid(job, d) && Run(job, c) == Run(job, d)
  {
    var rel := (x, y) => Valid(job, x) ==> Valid(job, y) && Run(job, x) == Run(job, y);
    forall x | Ready(job, x) && OrdinaryNext(job, x)
      ensures rel(x, AfterOrdinary(job, x))
    {
      OrdinaryKeepsEnd(job, x);
    }
    assert FollowsSteps(job, rel);
    assert rel(c, d);
  }

  lemma ReadsArgument(job: Job, c: Config, start: nat, end: nat, word: string) returns (d: Config)
    requires Valid(job, c) && c.stage == Args && !c.eof && |c.args| < c.expected
    requires ScansWord(job.file, c.pos, start, end, word)
    ensures d == c.(pos := end, args := c.args + [word])
    ensures Valid(job, d) && Leads(job, c, d)
  {
    d := Step(job, c);
    LeadsByStep(job, c);
  }

  lemma ReadsClosing(job: Job, c: Config, start: nat) returns (d: Config)
    requires Valid(job, c) && c.stage == Args && !c.eof && |c.args| == c.expected
    requires SkipSpace(job.file, c.pos) == start && start + 2 <= WordEnd(job.file, start)
    ensures d == c.(stage := Process, pos := start + 2)
    ensures Valid(job, d) && Leads(job, c, d)
  {
    var e := Step(job, c);
    LeadsByStep(job, c);
    d := Step(job, e);
    LeadsByStep(job, e);
    LeadsOn(job, c, e, d);
  }

  /** From the argument stage on: the arguments, then the closing braces. */
  lemma {:induction false} RunArguments(job: Job, c: Config, t: Tokens, end: nat) returns (d: Config)
    requires Valid(job, c) && c.stage == Args && !c.eof
    requires |c.args| + |ArgsOf(t)| == c.expected && ScansTokens(job.file, c.pos, t, end)
    ensures d == c.(stage := Process, pos := end, args := c.args + ArgsOf(t))
    ensures Valid(job, d) && Leads(job, c, d)
    decreases t
  {
    match t
    case Close(gap) =>
      d := ReadsClosing(job, c, end - 2);
      assert c.args + [] == c.args;
    case Word(gap, word, rest) =>
      var e := ReadsArgument(job, c, c.pos + |gap|, c.pos + |gap| + |word|, word);
      assert c.args + ([word] + ArgsOf(rest)) == e.args + ArgsOf(rest);
      d := RunArguments(job, e, rest, end);
      LeadsOn(job, c, e, d);
  }

  ghost predicate CommandOk(t: Tokens)
  {
    && t.Word? && Blank(t.gap) && IsWord(t.word) && ArgsOk(t.rest)
    && |ArgsOf(t.rest)| == ExpectedArgs(Recognise(t.word))
  }

  lemma ReadsOpening(job: Job, c: Config) returns (d: Config)
    requires Ready(job, c) && c.pos + 2 <= |job.file|
    requires job.file[c.pos] == '{' && job.file[c.pos + 1] == '{'
    ensures d == c.(stage := Keyword, pos := c.pos + 2)
    ensures Valid(job, d) && Leads(job, c, d)
  {
    var e := Step(job, c);
    LeadsByStep(job, c);
    d := Step(job, e);
    LeadsByStep(job, e);
    LeadsOn(job, c, e, d);
  }

  lemma ReadsKeyword(job: Job, c: Config, start: nat, end: nat, word: string) returns (d: Config)
    requires Valid(job, c) && c.stage == Keyword && !c.eof
    requires ScansWord(job.file, c.pos, start, end, word)
    ensures d == c.(stage := Args, pos := end, cmd := Recognise(word), args := [],
                    expected := ExpectedArgs(Recognise(word)))
    ensures Valid(job, d) && Leads(job, c, d)
  {
    d := Step(job, c);
    LeadsByStep(job, c);
  }

  /** A whole command stands between `pos` and `end`. */
  ghost predicate ScansCommand(file: string, pos: nat, t: Tokens, end: nat)
  {
    && pos + 2 <= |file| && file[pos] == '{' && file[pos + 1] == '{'
    && t.Word? && ScansTokens(file, pos + 2, t, end)
  }

  lemma CommandHere(file: string, pos: nat, t: Tokens)
    requires CommandOk(t) && Here(file, pos, Command(t))
    ensures ScansCommand(file, pos, t, pos + |Command(t)|)
  {
    HereSplit(file, pos, "{{", PrintTokens(t));
    TokensHere(file, pos + 2, t);
  }

  lemma RunTokens(job: Job, c: Config, t: Tokens, end: nat) returns (d: Config)
    requires Valid(job, c) && c.stage == Keyword && !c.eof && t.Word?
    requires |ArgsOf(t.rest)| == ExpectedArgs(Recognise(t.word)) && ScansTokens(job.file, c.pos, t, end)
    ensures d == c.(stage := Process, pos := end, cmd := Recognise(t.word), args := ArgsOf(t.rest),
                    expected := |ArgsOf(t.rest)|)
    ensures Valid(job, d) && Leads(job, c, d)
  {
    var e := ReadsKeyword(job, c, c.pos + |t.gap|, c.pos + |t.gap| + |t.word|, t.word);
    d := RunArguments(job, e, t.rest, end);
    LeadsOn(job, c, e, d);
  }

  /** From the text stage through a whole written command, up to its execution. */
  lemma RunCommand(job: Job, c: Config, t: Tokens, end: nat) returns (d: Config)
    requires Ready(job, c) && ScansCommand(job.file, c.pos, t, end)
    requires |ArgsOf(t.rest)| == ExpectedArgs(Recognise(t.word))
    ensures d == c.(stage := Process, pos := end, cmd := Recognise(t.word), args := ArgsOf(t.rest),
                    expected := |ArgsOf(t.rest)|)
    ensures Valid(job, d) && Leads(job, c, d)
  {
    var e := ReadsOpening(job, c);
    d := RunTokens(job, e, t, end);
    LeadsOn(job, c, e, d);
  }
}
