/** The engine, run on a written template, delivers the template's meaning, or fails where it has none. */
module TemplateTheorem {
  import opened Wrappers
  import opened TemplateText
  import opened TemplateRun
  import opened TemplateOutput
  import opened TemplateSyntax
  import opened TemplateCorrect

  lemma {:induction false} PutTextInTwo(s: Sink, a: string, b: string, size: nat)
    ensures PutText(PutText(s, a, size), b, size) == PutText(s, a + b, size)
    decreases a
  {
    if a == "" {
      assert a + b == b;
    } else {
      assert (a + b)[1..] == a[1..] + b;
      PutTextInTwo(PutChar(s, a[0], size), a[1..], b, size);
    }
  }

  /** What the engine's own memory is after text that means `o` was processed. */
  ghost predicate Memory(c: Config, d: Config, o: Outcome)
    requires o.Out?
  {
    && (if c.loop.active then d.loop == c.loop && o.counter == c.loop.i
        else !d.loop.active && d.loop.i == o.counter)
    && (if c.branch.active then d.branch == c.branch else !d.branch.active)
  }

  function Heard(job: Job, c: Config, text: string): Sink
  {
    if Allowed(c.branch) then PutText(c.sink, text, job.bufferSize) else c.sink
  }

  /** From `c`, processing text that ends before `end` and means `o` leads to `d`. */
  ghost predicate Delivers(job: Job, c: Config, d: Config, end: nat, o: Outcome)
  {
    && Valid(job, d) && Leads(job, c, d)
    && if o.Stuck? then d.stage == Err
       else Ready(job, d) && d.pos == end && d.sink == Heard(job, c, o.text) && Memory(c, d, o)
  }

  lemma DeliversInTurn(job: Job, c: Config, d: Config, e: Config, middle: nat, end: nat, o: Outcome, o': Outcome)
    requires o.Out? && Delivers(job, c, d, middle, o) && Delivers(job, d, e, end, o')
    ensures Delivers(job, c, e, end, Prepend(o.text, o'))
  {
    LeadsOn(job, c, d, e);
    if o'.Out? {
      PutTextInTwo(c.sink, o.text, o'.text, job.bufferSize);
    }
  }

  // ----- text

  lemma ReadsOrdinary(job: Job, c: Config) returns (d: Config)
    requires Ready(job, c) && OrdinaryNext(job, c)
    ensures Delivers(job, c, d, c.pos + 1, Out([job.file[c.pos]], c.loop.i))
  {
    d := AfterOrdinary(job, c);
  }

  lemma ReadsLoneBrace(job: Job, c: Config) returns (d: Config)
    requires Ready(job, c) && c.pos + 1 < |job.file|
    requires job.file[c.pos] == '{' && job.file[c.pos + 1] != '{'
    ensures Delivers(job, c, d, c.pos + 2, Out(['{', job.file[c.pos + 1]], c.loop.i))
  {
    var e := Step(job, c);
    LeadsByStep(job, c);
    d := Step(job, e);
    LeadsByStep(job, e);
    LeadsOn(job, c, e, d);
  }

  /** The first character of a text, or its first two when the first is a brace. */
  lemma RunTextHead(job: Job, c: Config, text: string) returns (d: Config, n: nat)
    requires Ready(job, c) && text != "" && TextOk(text) && Here(job.file, c.pos, text)
    ensures 0 < n <= |text| && TextOk(text[n..])
    ensures Delivers(job, c, d, c.pos + n, Out(text[..n], c.loop.i))
  {
    if text[0] == '{' {
      n := 2;
      assert text[..n] == ['{', job.file[c.pos + 1]];
      d := ReadsLoneBrace(job, c);
    } else {
      n := 1;
      assert text[..n] == [job.file[c.pos]];
      d := ReadsOrdinary(job, c);
    }
  }

  lemma {:induction false} RunText(job: Job, c: Config, text: string) returns (d: Config)
    requires Ready(job, c) && TextOk(text) && Here(job.file, c.pos, text)
    ensures Delivers(job, c, d, c.pos + |text|, Out(text, c.loop.i))
    decreases |text|
  {
    if text == "" {
      d := c;
    } else {
      var e, n := RunTextHead(job, c, text);
      assert text == text[..n] + text[n..];
      HereSplit(job.file, c.pos, text[..n], text[n..]);
      d := RunText(job, e, text[n..]);
      DeliversInTurn(job, c, e, d, c.pos + n, c.pos + |text|, Out(text[..n], c.loop.i), Out(text[n..], c.loop.i));
    }
  }

  // ----- put commands

  lemma RunWords2(job: Job, c: Config, command: string, arg: string, g: Gaps2) returns (d: Config)
    requires Ready(job, c) && Here(job.file, c.pos, Command(Words2(command, arg, g)))
    requires Gaps2Ok(g) && IsWord(command) && IsWord(arg) && ExpectedArgs(Recognise(command)) == 1
    ensures d == c.(stage := Process, pos := c.pos + |Command(Words2(command, arg, g))|,
                    cmd := Recognise(command), args := [arg], expected := 1)
    ensures Valid(job, d) && Leads(job, c, d)
  {
    var t := Words2(command, arg, g);
    assert ArgsOf(t.rest) == [arg];
    CommandHere(job.file, c.pos, t);
    d := RunCommand(job, c, t, c.pos + |Command(t)|);
  }

  lemma RunWords1(job: Job, c: Config, command: string, g: Gaps1) returns (d: Config)
    requires Ready(job, c) && Here(job.file, c.pos, Command(Words1(command, g)))
    requires Gaps1Ok(g) && IsWord(command) && ExpectedArgs(Recognise(command)) == 0
    ensures d == c.(stage := Process, pos := c.pos + |Command(Words1(command, g))|,
                    cmd := Recognise(command), args := [], expected := 0)
    ensures Valid(job, d) && Leads(job, c, d)
  {
    var t := Words1(command, g);
    assert ArgsOf(t.rest) == [];
    CommandHere(job.file, c.pos, t);
    d := RunCommand(job, c, t, c.pos + |Command(t)|);
  }

  lemma CondWordsOk(command: string, cond: Cond, g: Gaps4)
    requires Gaps4Ok(g) && CondOk(cond) && IsWord(command) && ExpectedArgs(Recognise(command)) == 3
    ensures
      var t := CondWords(command, cond, g);
      CommandOk(t) && ArgsOf(t.rest) == [KeyWord(cond.key), OperatorWord(cond), LiteralWord(cond)]
  {
    var t := CondWords(command, cond, g);
    var last := t.rest.rest.rest;
    assert IsWord(OperatorWord(cond));
    assert ArgsOf(last) == [LiteralWord(cond)] && ArgsOk(last);
    assert ArgsOf(t.rest.rest) == [OperatorWord(cond)] + ArgsOf(last);
  }

  lemma RunCondition(job: Job, c: Config, command: string, cond: Cond, g: Gaps4) returns (d: Config)
    requires Ready(job, c) && Here(job.file, c.pos, Command(CondWords(command, cond, g)))
    requires Gaps4Ok(g) && CondOk(cond) && IsWord(command) && ExpectedArgs(Recognise(command)) == 3
    ensures d == c.(stage := Process, pos := c.pos + |Command(CondWords(command, cond, g))|,
                    cmd := Recognise(command), expected := 3,
                    args := [KeyWord(cond.key), OperatorWord(cond), LiteralWord(cond)])
    ensures Valid(job, d) && Leads(job, c, d)
    ensures Condition(job.env, c.loop.i, d.args) == Holds(job.env, c.loop.i, cond)
  {
    var t := CondWords(command, cond, g);
    CondWordsOk(command, cond, g);
    CommandHere(job.file, c.pos, t);
    d := RunCommand(job, c, t, c.pos + |Command(t)|);
    ConditionDenotes(job.env, c.loop.i, cond);
  }

  function ValueOutcome(value: Option<string>, i: int): Outcome
  {
    match value
    case None => Stuck
    case Some(text) => Out(text, i)
  }

  /** A put command that was read is executed. */
  lemma RunPut(job: Job, c: Config, e: Config, value: Option<string>) returns (d: Config)
    requires Valid(job, c) && Leads(job, c, e) && Valid(job, e) && e.stage == Process && !e.eof
    requires e.sink == c.sink && e.loop == c.loop && e.branch == c.branch
    requires !IsLoopWord(e.cmd) && !IsIfWord(e.cmd) && value == PutValue(job.env, c.loop.i, e.cmd, e.args[0])
    ensures Delivers(job, c, d, e.pos, ValueOutcome(value, c.loop.i))
  {
    d := Step(job, e);
    LeadsByStep(job, e);
    LeadsOn(job, c, e, d);
  }

  lemma RunPutInt(job: Job, c: Config, name: string, g: Gaps2) returns (d: Config)
    requires Ready(job, c) && ItemOk(PutInt(name, g)) && Here(job.file, c.pos, PrintItem(PutInt(name, g)))
    ensures Delivers(job, c, d, c.pos + |PrintItem(PutInt(name, g))|,
                     MeaningOfItem(PutInt(name, g), job.env, c.loop.i, c.loop.active, c.branch.active))
  {
    var e := RunWords2(job, c, "puti", name, g);
    d := RunPut(job, c, e, PutValue(job.env, c.loop.i, PutIntWord, name));
  }

  lemma RunPutArg(job: Job, c: Config, command: string, key: Key, g: Gaps2) returns (d: Config)
    requires Ready(job, c) && ItemOk(PutArg(command, key, g))
    requires Here(job.file, c.pos, PrintItem(PutArg(command, key, g)))
    ensures Delivers(job, c, d, c.pos + |PrintItem(PutArg(command, key, g))|,
                     MeaningOfItem(PutArg(command, key, g), job.env, c.loop.i, c.loop.active, c.branch.active))
  {
    var e := RunWords2(job, c, command, KeyWord(key), g);
    KeyDenotes(job.env, c.loop.i, key);
    d := RunPut(job, c, e, Lookup(job.env, c.loop.i, key));
  }

  // ----- loops

  lemma RunBegin(job: Job, c: Config, count: Key, g: Gaps2) returns (d: Config)
    requires Ready(job, c) && KeyOk(count) && Gaps2Ok(g)
    requires Here(job.file, c.pos, Command(Words2("begin", KeyWord(count), g)))
    ensures Valid(job, d) && Leads(job, c, d)
    ensures
      var value := Lookup(job.env, c.loop.i, count);
      if value.None? || c.loop.active then d.stage == Err
      else
        && Ready(job, d) && d.pos == c.pos + |Command(Words2("begin", KeyWord(count), g))|
        && d.loop == Loop(true, d.pos, 0, Atoi(value.value)) && d.branch == c.branch && d.sink == c.sink
  {
    var e := RunWords2(job, c, "begin", KeyWord(count), g);
    KeyDenotes(job.env, c.loop.i, count);
    d := Step(job, e);
    LeadsByStep(job, e);
    LeadsOn(job, c, e, d);
  }

  lemma RunEnd(job: Job, c: Config, g: Gaps1) returns (d: Config)
    requires Ready(job, c) && c.loop.active && c.loop.begin <= |job.file| && Gaps1Ok(g)
    requires Here(job.file, c.pos, Command(Words1("end", g)))
    ensures Leads(job, c, d) && Ready(job, d) && d.branch == c.branch && d.sink == c.sink
    ensures
      if c.loop.count <= c.loop.i + 1 then
        && d.pos == c.pos + |Command(Words1("end", g))|
        && d.loop == c.loop.(i := c.loop.i + 1, active := false)
      else d.pos == c.loop.begin && d.loop == c.loop.(i := c.loop.i + 1)
  {
    var e := RunWords1(job, c, "end", g);
    d := Step(job, e);
    LeadsByStep(job, e);
    LeadsOn(job, c, e, d);
  }

  /** What a turn of a loop, and the turns after it, come to. */
  ghost predicate DeliversTurns(job: Job, c: Config, d: Config, end: nat, o: Outcome)
  {
    && Valid(job, d) && Leads(job, c, d)
    && if o.Stuck? then d.stage == Err
       else
         && Ready(job, d) && d.pos == end && d.sink == Heard(job, c, o.text)
         && !d.loop.active && d.loop.i == o.counter
         && (if c.branch.active then d.branch == c.branch else !d.branch.active)
  }

  lemma {:induction false} RunTurns(job: Job, c: Config, body: Items, g: Gaps1, end: nat) returns (d: Config)
    requires Ready(job, c) && c.loop.active && c.pos == c.loop.begin
    requires ItemsOk(body) && Gaps1Ok(g)
    requires Here(job.file, c.pos, Print(body)) && Here(job.file, c.pos + |Print(body)|, Command(Words1("end", g)))
    requires end == c.pos + |Print(body)| + |Command(Words1("end", g))|
    ensures DeliversTurns(job, c, d, end, MeaningOfTurns(body, job.env, c.loop.i, c.loop.count, c.branch.active))
    decreases body, 1, c.loop.count - c.loop.i
  {
    var o := Meaning(body, job.env, c.loop.i, true, c.branch.active);
    var e := RunItems(job, c, body);
    if o.Stuck? {
      d := e;
    } else {
      var f := RunEnd(job, e, g);
      LeadsOn(job, c, e, f);
      if c.loop.count <= c.loop.i + 1 {
        d := f;
      } else {
        d := RunTurns(job, f, body, g, end);
        LeadsOn(job, c, f, d);
        var o' := MeaningOfTurns(body, job.env, c.loop.i + 1, c.loop.count, c.branch.active);
        if o'.Out? {
          PutTextInTwo(c.sink, o.text, o'.text, job.bufferSize);
        }
      }
    }
  }

  lemma {:induction false} RunRepeat(job: Job, c: Config, item: Item) returns (d: Config)
    requires Ready(job, c) && item.Repeat? && ItemOk(item) && Here(job.file, c.pos, PrintItem(item))
    ensures Delivers(job, c, d, c.pos + |PrintItem(item)|,
                     MeaningOfItem(item, job.env, c.loop.i, c.loop.active, c.branch.active))
    decreases item, 0, 0
  {
    HereInThree(job.file, c.pos, Command(Words2("begin", KeyWord(item.count), item.gaps)),
                Print(item.body), Command(Words1("end", item.endGaps)));
    var e := RunBegin(job, c, item.count, item.gaps);
    if e.stage == Err {
      d := e;
    } else {
      d := RunTurns(job, e, item.body, item.endGaps, c.pos + |PrintItem(item)|);
      LeadsOn(job, c, e, d);
    }
  }

  /** An item was delivered, and then the items after it. */
  lemma ItemDelivered(job: Job, c: Config, d: Config, e: Config, head: Item, tail: Items)
    requires Delivers(job, c, d, c.pos + |PrintItem(head)|,
                      MeaningOfItem(head, job.env, c.loop.i, c.loop.active, c.branch.active))
    requires d.stage != Err
    requires Delivers(job, d, e, d.pos + |Print(tail)|,
                      Meaning(tail, job.env, d.loop.i, d.loop.active, d.branch.active))
    ensures Delivers(job, c, e, c.pos + |Print(Cons(head, tail))|,
                     Meaning(Cons(head, tail), job.env, c.loop.i, c.loop.active, c.branch.active))
  {
    var o := MeaningOfItem(head, job.env, c.loop.i, c.loop.active, c.branch.active);
    DeliversInTurn(job, c, d, e, c.pos + |PrintItem(head)|, d.pos + |Print(tail)|, o,
                   Meaning(tail, job.env, o.counter, c.loop.active, c.branch.active));
  }

  lemma {:induction false} RunItems(job: Job, c: Config, items: Items) returns (d: Config)
    requires Ready(job, c) && ItemsOk(items) && Here(job.file, c.pos, Print(items))
    ensures Delivers(job, c, d, c.pos + |Print(items)|,
                     Meaning(items, job.env, c.loop.i, c.loop.active, c.branch.active))
    decreases items, 0, 0
  {
    match items
    case Nil => d := c;
    case Cons(head, tail) =>
      HereSplit(job.file, c.pos, PrintItem(head), Print(tail));
      d := RunItem(job, c, head);
      if d.stage != Err {
        var e := d;
        d := RunItems(job, e, tail);
        ItemDelivered(job, c, e, d, head, tail);
      }
  }

  lemma {:induction false} RunItem(job: Job, c: Config, item: Item) returns (d: Config)
    requires Ready(job, c) && ItemOk(item) && Here(job.file, c.pos, PrintItem(item))
    ensures Delivers(job, c, d, c.pos + |PrintItem(item)|,
                     MeaningOfItem(item, job.env, c.loop.i, c.loop.active, c.branch.active))
    decreases item, 1, 0
  {
    match item
    case Text(text) => d := RunText(job, c, text);
    case PutInt(name, gaps) => d := RunPutInt(job, c, name, gaps);
    case PutArg(command, key, gaps) => d := RunPutArg(job, c, command, key, gaps);
    case Repeat(_, _, _, _) => d := RunRepeat(job, c, item);
    case Choice(_, _, _, _) => d := RunChoice(job, c, item);
  }

  // ----- choices

  lemma RunIf(job: Job, c: Config, cond: Cond, g: Gaps4) returns (d: Config)
    requires Ready(job, c) && CondOk(cond) && Gaps4Ok(g)
    requires Here(job.file, c.pos, Command(CondWords("if", cond, g)))
    ensures Valid(job, d) && Leads(job, c, d)
    ensures
      var holds := Holds(job.env, c.loop.i, cond);
      if holds.None? || c.branch.active then d.stage == Err
      else
        && Ready(job, d) && d.pos == c.pos + |Command(CondWords("if", cond, g))|
        && d.loop == c.loop && d.branch == Branch(true, holds.value, false) && d.sink == c.sink
  {
    var e := RunCondition(job, c, "if", cond, g);
    d := Step(job, e);
    LeadsByStep(job, e);
    LeadsOn(job, c, e, d);
  }

  /** An arm was chosen before the engine reads on. */
  predicate Taken(b: Branch) { b.completed || b.valid }

  lemma RunElseIf(job: Job, c: Config, cond: Cond, g: Gaps4) returns (d: Config)
    requires Ready(job, c) && c.branch.active && CondOk(cond) && Gaps4Ok(g)
    requires Here(job.file, c.pos, Command(CondWords("elseif", cond, g)))
    ensures Valid(job, d) && Leads(job, c, d)
    ensures
      var holds := if Taken(c.branch) then Some(false) else Holds(job.env, c.loop.i, cond);
      if holds.None? then d.stage == Err
      else
        && Ready(job, d) && d.pos == c.pos + |Command(CondWords("elseif", cond, g))|
        && d.loop == c.loop && d.sink == c.sink
        && d.branch.active && Allowed(d.branch) == holds.value
        && Taken(d.branch) == (Taken(c.branch) || holds.value)
  {
    var e := RunCondition(job, c, "elseif", cond, g);
    d := Step(job, e);
    LeadsByStep(job, e);
    LeadsOn(job, c, e, d);
  }

  lemma RunElse(job: Job, c: Config, g: Gaps1) returns (d: Config)
    requires Ready(job, c) && c.branch.active && Gaps1Ok(g)
    requires Here(job.file, c.pos, Command(Words1("else", g)))
    ensures Leads(job, c, d) && Ready(job, d) && d.pos == c.pos + |Command(Words1("else", g))|
    ensures d.loop == c.loop && d.sink == c.sink
    ensures d.branch.active && Allowed(d.branch) == !Taken(c.branch) && Taken(d.branch)
  {
    var e := RunWords1(job, c, "else", g);
    d := Step(job, e);
    LeadsByStep(job, e);
    LeadsOn(job, c, e, d);
  }

  lemma RunEndIf(job: Job, c: Config, g: Gaps1) returns (d: Config)
    requires Ready(job, c) && c.branch.active && Gaps1Ok(g)
    requires Here(job.file, c.pos, Command(Words1("endif", g)))
    ensures Leads(job, c, d) && Ready(job, d) && d.pos == c.pos + |Command(Words1("endif", g))|
    ensures d.loop == c.loop && d.sink == c.sink && !d.branch.active
  {
    var e := RunWords1(job, c, "endif", g);
    d := Step(job, e);
    LeadsByStep(job, e);
    LeadsOn(job, c, e, d);
  }

  /** What an arm's body and the arms after it come to; the choice itself is not inside another. */
  ghost predicate DeliversArms(job: Job, c: Config, d: Config, end: nat, o: Outcome)
  {
    && Valid(job, d) && Leads(job, c, d)
    && if o.Stuck? then d.stage == Err
       else
         && Ready(job, d) && d.pos == end && d.sink == PutText(c.sink, o.text, job.bufferSize)
         && !d.branch.active
         && (if c.loop.active then d.loop == c.loop && o.counter == c.loop.i
             else !d.loop.active && d.loop.i == o.counter)
  }

  /** The body of an arm, heard or not, and then the arms after it. */
  function ArmOutcome(body: Outcome, heard: bool, rest: Outcome): Outcome
    requires body.Out?
  {
    Prepend(if heard then body.text else "", rest)
  }

  lemma ArmsInTurn(job: Job, c: Config, d: Config, e: Config, middle: nat, end: nat, o: Outcome, o': Outcome)
    requires c.branch.active && o.Out?
    requires Delivers(job, c, d, middle, o) && DeliversArms(job, d, e, end, o')
    ensures DeliversArms(job, c, e, end, ArmOutcome(o, Allowed(c.branch), o'))
  {
    LeadsOn(job, c, d, e);
    if o'.Out? {
      PutTextInTwo(c.sink, if Allowed(c.branch) then o.text else "", o'.text, job.bufferSize);
    }
  }

  /** The command of an arm, its body, and the arms after it. */
  lemma ArmDelivers(job: Job, c: Config, d: Config, e: Config, f: Config, middle: nat, end: nat,
                    o: Outcome, o': Outcome)
    requires Leads(job, c, d) && d.loop == c.loop && d.sink == c.sink && d.branch.active && o.Out?
    requires Delivers(job, d, e, middle, o) && DeliversArms(job, e, f, end, o')
    ensures DeliversArms(job, c, f, end, ArmOutcome(o, Allowed(d.branch), o'))
  {
    ArmsInTurn(job, d, e, f, middle, end, o, o');
    LeadsOn(job, c, d, f);
  }

  /** Whether an arm is chosen, given that an earlier one was or was not; nothing if its key is unknown. */
  function Chosen(arms: Arms, env: Env, i: int, taken: bool): Option<bool>
    requires !arms.EndIf?
  {
    if arms.Else? then Some(!taken)
    else if taken then Some(false)
    else Holds(env, i, arms.cond)
  }

  function ArmTokens(arms: Arms): Tokens
    requires !arms.EndIf?
  {
    if arms.ElseIf? then CondWords("elseif", arms.cond, arms.condGaps) else Words1("else", arms.gaps)
  }

  lemma HereInThree(file: string, pos: nat, a: string, b: string, c: string)
    requires Here(file, pos, a + (b + c))
    ensures Here(file, pos, a) && Here(file, pos + |a|, b) && Here(file, pos + |a| + |b|, c)
    ensures |a + (b + c)| == |a| + |b| + |c|
  {
    HereSplit(file, pos, a, b + c);
    HereSplit(file, pos + |a|, b, c);
  }

  lemma ArmParts(file: string, pos: nat, arms: Arms)
    requires !arms.EndIf? && Here(file, pos, PrintArms(arms))
    ensures
      var command := Command(ArmTokens(arms));
      && Here(file, pos, command)
      && Here(file, pos + |command|, Print(arms.body))
      && Here(file, pos + |command| + |Print(arms.body)|, PrintArms(arms.rest))
      && |PrintArms(arms)| == |command| + |Print(arms.body)| + |PrintArms(arms.rest)|
  {
    HereInThree(file, pos, Command(ArmTokens(arms)), Print(arms.body), PrintArms(arms.rest));
  }

  lemma ChoiceParts(file: string, pos: nat, item: Item)
    requires item.Choice? && Here(file, pos, PrintItem(item))
    ensures
      var command := Command(CondWords("if", item.cond, item.condGaps));
      && Here(file, pos, command)
      && Here(file, pos + |command|, Print(item.body))
      && Here(file, pos + |command| + |Print(item.body)|, PrintArms(item.rest))
      && |PrintItem(item)| == |command| + |Print(item.body)| + |PrintArms(item.rest)|
  {
    HereInThree(file, pos, Command(CondWords("if", item.cond, item.condGaps)), Print(item.body), PrintArms(item.rest));
  }

  /** An arm's command was read: its body comes next, and then the arms after it, which end at `end`. */
  ghost predicate InArm(job: Job, c: Config, d: Config, body: Items, rest: Arms, end: nat)
  {
    && Ready(job, d) && Leads(job, c, d) && d.loop == c.loop && d.sink == c.sink && d.branch.active
    && Here(job.file, d.pos, Print(body)) && Here(job.file, d.pos + |Print(body)|, PrintArms(rest))
    && d.pos + |Print(body)| + |PrintArms(rest)| == end
  }

  lemma RunElseIfArm(job: Job, c: Config, arms: Arms) returns (d: Config)
    requires Ready(job, c) && c.branch.active && ArmsOk(arms) && arms.ElseIf?
    requires Here(job.file, c.pos, PrintArms(arms))
    ensures
      var chosen := Chosen(arms, job.env, c.loop.i, Taken(c.branch));
      if chosen.None? then Valid(job, d) && Leads(job, c, d) && d.stage == Err
      else
        && InArm(job, c, d, arms.body, arms.rest, c.pos + |PrintArms(arms)|)
        && Allowed(d.branch) == chosen.value
        && Taken(d.branch) == (Taken(c.branch) || chosen.value)
  {
    ArmParts(job.file, c.pos, arms);
    d := RunElseIf(job, c, arms.cond, arms.condGaps);
  }

  lemma RunElseArm(job: Job, c: Config, arms: Arms) returns (d: Config)
    requires Ready(job, c) && c.branch.active && ArmsOk(arms) && arms.Else?
    requires Here(job.file, c.pos, PrintArms(arms))
    ensures InArm(job, c, d, arms.body, arms.rest, c.pos + |PrintArms(arms)|)
    ensures Allowed(d.branch) == !Taken(c.branch) && Taken(d.branch)
  {
    ArmParts(job.file, c.pos, arms);
    d := RunElse(job, c, arms.gaps);
  }

  /** The command that opens an arm. */
  lemma RunArmCommand(job: Job, c: Config, arms: Arms) returns (d: Config)
    requires Ready(job, c) && c.branch.active && ArmsOk(arms) && !arms.EndIf?
    requires Here(job.file, c.pos, PrintArms(arms))
    ensures
      var chosen := Chosen(arms, job.env, c.loop.i, Taken(c.branch));
      if chosen.None? then Valid(job, d) && Leads(job, c, d) && d.stage == Err
      else
        && InArm(job, c, d, arms.body, arms.rest, c.pos + |PrintArms(arms)|)
        && Allowed(d.branch) == chosen.value
        && Taken(d.branch) == (Taken(c.branch) || chosen.value)
  {
    if arms.ElseIf? {
      d := RunElseIfArm(job, c, arms);
    } else {
      d := RunElseArm(job, c, arms);
    }
  }

  lemma MeaningOfArm(arms: Arms, env: Env, i: int, inLoop: bool, taken: bool)
    requires !arms.EndIf?
    ensures
      var chosen := Chosen(arms, env, i, taken);
      var body := Meaning(arms.body, env, i, inLoop, true);
      MeaningOfArms(arms, env, i, inLoop, taken) ==
      if chosen.None? || body.Stuck? then Stuck
      else ArmOutcome(body, chosen.value, MeaningOfArms(arms.rest, env, body.counter, inLoop, taken || chosen.value))
  {
  }

  /** The body of an arm whose command was read, and the arms after it. */
  function ArmMeaning(job: Job, d: Config, body: Items, rest: Arms): Outcome
  {
    var o := Meaning(body, job.env, d.loop.i, d.loop.active, true);
    if o.Stuck? then Stuck
    else ArmOutcome(o, Allowed(d.branch), MeaningOfArms(rest, job.env, o.counter, d.loop.active, Taken(d.branch)))
  }

  /** The state behind an arm's body, where the arms after it stand. */
  ghost predicate BehindBody(job: Job, d: Config, e: Config, rest: Arms, end: nat)
  {
    && Ready(job, e) && Here(job.file, e.pos, PrintArms(rest)) && e.pos + |PrintArms(rest)| == end
    && e.branch == d.branch && d.branch.active && e.loop.active == d.loop.active
  }

  lemma BodyDelivered(job: Job, c: Config, d: Config, e: Config, body: Items, rest: Arms, end: nat)
    requires InArm(job, c, d, body, rest, end)
    requires Delivers(job, d, e, d.pos + |Print(body)|, Meaning(body, job.env, d.loop.i, d.loop.active, true))
    ensures
      var o := Meaning(body, job.env, d.loop.i, d.loop.active, true);
      if o.Stuck? then DeliversArms(job, c, e, end, Stuck)
      else BehindBody(job, d, e, rest, end) && e.loop.i == o.counter
  {
    LeadsOn(job, c, d, e);
  }

  /** The arms after a body are delivered too. */
  lemma ArmsDelivered(job: Job, c: Config, d: Config, e: Config, f: Config, body: Items, rest: Arms, end: nat)
    requires InArm(job, c, d, body, rest, end)
    requires
      var o := Meaning(body, job.env, d.loop.i, d.loop.active, true);
      && o.Out? && Delivers(job, d, e, d.pos + |Print(body)|, o) && BehindBody(job, d, e, rest, end)
      && e.loop.i == o.counter
    requires DeliversArms(job, e, f, end, MeaningOfArms(rest, job.env, e.loop.i, e.loop.active, Taken(e.branch)))
    ensures DeliversArms(job, c, f, end, ArmMeaning(job, d, body, rest))
  {
    ArmDelivers(job, c, d, e, f, d.pos + |Print(body)|, end, Meaning(body, job.env, d.loop.i, d.loop.active, true),
                MeaningOfArms(rest, job.env, e.loop.i, e.loop.active, Taken(e.branch)));
  }

  lemma {:induction false} RunArms(job: Job, c: Config, arms: Arms) returns (d: Config)
    requires Ready(job, c) && c.branch.active && ArmsOk(arms)
    requires Here(job.file, c.pos, PrintArms(arms))
    ensures DeliversArms(job, c, d, c.pos + |PrintArms(arms)|,
                         MeaningOfArms(arms, job.env, c.loop.i, c.loop.active, Taken(c.branch)))
    decreases arms, 0, 0
  {
    if arms.EndIf? {
      d := RunEndIf(job, c, arms.gaps);
    } else {
      MeaningOfArm(arms, job.env, c.loop.i, c.loop.active, Taken(c.branch));
      d := RunArmCommand(job, c, arms);
      if d.stage != Err {
        var end := c.pos + |PrintArms(arms)|;
        var e := RunItems(job, d, arms.body);
        BodyDelivered(job, c, d, e, arms.body, arms.rest, end);
        if e.stage == Err {
          return e;
        }
        var f := RunArms(job, e, arms.rest);
        ArmsDelivered(job, c, d, e, f, arms.body, arms.rest, end);
        d := f;
      }
    }
  }

  /** The command that opens a choice. */
  lemma RunChoiceCommand(job: Job, c: Config, item: Item) returns (d: Config)
    requires Ready(job, c) && item.Choice? && ItemOk(item) && Here(job.file, c.pos, PrintItem(item))
    ensures
      var o := MeaningOfItem(item, job.env, c.loop.i, c.loop.active, c.branch.active);
      if d.stage == Err then Valid(job, d) && Leads(job, c, d) && o == Stuck
      else
        && InArm(job, c, d, item.body, item.rest, c.pos + |PrintItem(item)|) && !c.branch.active
        && o == ArmMeaning(job, d, item.body, item.rest)
  {
    ChoiceParts(job.file, c.pos, item);
    d := RunIf(job, c, item.cond, item.condGaps);
  }

  lemma {:induction false} RunChoice(job: Job, c: Config, item: Item) returns (d: Config)
    requires Ready(job, c) && item.Choice? && ItemOk(item) && Here(job.file, c.pos, PrintItem(item))
    ensures Delivers(job, c, d, c.pos + |PrintItem(item)|,
                     MeaningOfItem(item, job.env, c.loop.i, c.loop.active, c.branch.active))
    decreases item, 0, 0
  {
    d := RunChoiceCommand(job, c, item);
    if d.stage != Err {
      var end := c.pos + |PrintItem(item)|;
      var e := RunItems(job, d, item.body);
      BodyDelivered(job, c, d, e, item.body, item.rest, end);
      if e.stage == Err {
        return e;
      }
      var f := RunArms(job, e, item.rest);
      ArmsDelivered(job, c, d, e, f, item.body, item.rest, end);
      d := f;
    }
  }

  // ----- whole templates

  function Fresh(): Config
  {
    Config(Initial, 0, false, OtherWord, [], 0, Loop(false, 0, 0, 0), Branch(false, false, false), Sink([], ""))
  }

  /**
    Running the engine on a written template: it succeeds exactly when the template has a meaning,
    and then what the consumer received, joined, is that meaning, with nothing left in the buffer.
   */
  lemma EngineDeliversMeaning(items: Items, env: Env, size: nat)
    requires ItemsOk(items) && 0 < size
    ensures
      var job := Job(Print(items), env, size);
      var o := Meaning(items, env, 0, false, false);
      var r := Run(job, Fresh());
      && (r.stage != Err <==> o.Out?)
      && (o.Out? ==> r.stage == Initial && r.eof && Joined(r.sink.chunks) == o.text && r.sink.pending == "")
      && ChunksInShape(job, r)
  {
    var job := Job(Print(items), env, size);
    var o := Meaning(items, env, 0, false, false);
    var c := Fresh();
    RunChunksInShape(job, c);
    var d := RunItems(job, c, items);
    LeadsToSameEnd(job, c, d);
    if o.Out? {
      PutTextAppends(c.sink, o.text, size);
      FlushedKeepsText(d.sink);
      var r := Step(job, d);
      assert r == d.(eof := true, sink := Flushed(d.sink));
      assert Run(job, d) == Run(job, r) == r;
      assert Joined(r.sink.chunks) == Written(r.sink);
    }
  }

  /** A brace at the end of the file is no text: behind a written tree the run fails on it, if not before. */
  lemma TrailingBraceFails(items: Items, env: Env, size: nat)
    requires ItemsOk(items) && 0 < size
    ensures Run(Job(Print(items) + "{", env, size), Fresh()).stage == Err
  {
    var job := Job(Print(items) + "{", env, size);
    var d := RunItems(job, Fresh(), items);
    LeadsToSameEnd(job, Fresh(), d);
    if d.stage != Err {
      var e := Step(job, d);
      assert Run(job, d) == Run(job, e) == Run(job, Step(job, e));
    }
  }

  /** Commands that fail outside of loops and choices: none of the nine, and those that go on with or end one. */
  datatype Wrong = Unknown(word: string, arg: string, gaps2: Gaps2) | Stray(word: string, gaps1: Gaps1)
                 | StrayElseIf(cond: Cond, gaps4: Gaps4)

  predicate WrongOk(w: Wrong)
  {
    match w
    case Unknown(word, arg, gaps) =>
      && IsWord(word) && IsWord(arg) && Gaps2Ok(gaps)
      && word !in {"puti", "puts", "puta", "begin", "end", "if", "elseif", "else", "endif"}
    case Stray(word, gaps) => word in {"end", "else", "endif"} && Gaps1Ok(gaps)
    case StrayElseIf(cond, gaps) => CondOk(cond) && Gaps4Ok(gaps)
  }

  function TokensOf(w: Wrong): Tokens
  {
    match w
    case Unknown(word, arg, gaps) => Words2(word, arg, gaps)
    case Stray(word, gaps) => Words1(word, gaps)
    case StrayElseIf(cond, gaps) => CondWords("elseif", cond, gaps)
  }

  lemma RunWrong(job: Job, c: Config, w: Wrong) returns (d: Config)
    requires Ready(job, c) && Here(job.file, c.pos, Command(TokensOf(w))) && WrongOk(w)
    requires !c.loop.active && !c.branch.active
    ensures Valid(job, d) && Leads(job, c, d) && d.stage == Process && !d.eof
    ensures !d.loop.active && !d.branch.active
    ensures d.cmd.OtherWord? || d.cmd.EndWord? || d.cmd.ElseIfWord? || d.cmd.ElseWord? || d.cmd.EndIfWord?
  {
    match w
    case Unknown(word, arg, gaps) => d := RunWords2(job, c, word, arg, gaps);
    case Stray(word, gaps) => d := RunWords1(job, c, word, gaps);
    case StrayElseIf(cond, gaps) => d := RunCondition(job, c, "elseif", cond, gaps);
  }

  lemma WrongFails(job: Job, c: Config, w: Wrong)
    requires Ready(job, c) && Here(job.file, c.pos, Command(TokensOf(w))) && WrongOk(w)
    requires !c.loop.active && !c.branch.active
    ensures Run(job, c).stage == Err
  {
    var d := RunWrong(job, c, w);
    LeadsToSameEnd(job, c, d);
    assert Run(job, d) == Run(job, Step(job, d));
  }

  /** From the start of a file to what stands behind a written tree, or to a failure. */
  lemma RunUpTo(job: Job, items: Items, text: string, rest: string) returns (d: Config)
    requires ItemsOk(items) && 0 < job.bufferSize && job.file == Print(items) + (text + rest)
    ensures Valid(job, d) && Run(job, Fresh()) == Run(job, d)
    ensures d.stage == Err ||
            (Ready(job, d) && Here(job.file, d.pos, text) && !d.loop.active && !d.branch.active)
  {
    d := RunItems(job, Fresh(), items);
    LeadsToSameEnd(job, Fresh(), d);
    assert Here(job.file, |Print(items)|, text);
  }

  /** Such a command fails behind whatever written tree it stands, whatever follows. */
  lemma WrongCommandFails(items: Items, env: Env, size: nat, w: Wrong, rest: string)
    requires ItemsOk(items) && 0 < size && WrongOk(w)
    ensures Run(Job(Print(items) + (Command(TokensOf(w)) + rest), env, size), Fresh()).stage == Err
  {
    var job := Job(Print(items) + (Command(TokensOf(w)) + rest), env, size);
    var d := RunUpTo(job, items, Command(TokensOf(w)), rest);
    if d.stage != Err {
      WrongFails(job, d, w);
    }
  }

  /** An integer argument is written as that integer. */
  lemma IntArgIsWritten(env: Env, name: string, val: int, gaps: Gaps2, i: int, inLoop: bool, inChoice: bool)
    requires name in env && env[name].value == IntToString(val)
    ensures MeaningOfItem(PutInt(name, gaps), env, i, inLoop, inChoice) == Out(IntToString(val), i)
  {
    AtoiOfIntToString(val);
  }
}
