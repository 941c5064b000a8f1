/** Templates as trees: how they are written, and what they mean. */
module TemplateSyntax {
  import opened Wrappers
  import opened TemplateText
  import opened TemplateRun

  /** `name`, `name[i]` with the loop counter, or `name[arg]` with an integer argument. */
  datatype Key = Plain(name: string) | ByCounter(name: string) | ByArg(name: string, arg: string)

  /** `key == literal` or `key != literal`, the literal in quotes or bare. */
  datatype Cond = Cond(key: Key, equal: bool, literal: string, quoted: bool)

  /** A written command: each word with the white space before it, then the closing braces. */
  datatype Tokens = Close(gap: string) | Word(gap: string, word: string, rest: Tokens)

  /** The white space around the words of a command with one, two or four words. */
  datatype Gaps1 = Gaps1(a: string, b: string)
  datatype Gaps2 = Gaps2(a: string, b: string, c: string)
  datatype Gaps4 = Gaps4(a: string, b: string, c: string, d: string, e: string)

  datatype Items = Nil | Cons(head: Item, tail: Items)

  datatype Item =
    | Text(text: string)
    | PutInt(name: string, gaps: Gaps2)
    | PutArg(command: string, key: Key, gaps: Gaps2)
    | Repeat(count: Key, gaps: Gaps2, body: Items, endGaps: Gaps1)
    | Choice(cond: Cond, condGaps: Gaps4, body: Items, rest: Arms)

  datatype Arms =
    | EndIf(gaps: Gaps1)
    | ElseIf(cond: Cond, condGaps: Gaps4, body: Items, rest: Arms)
    | Else(gaps: Gaps1, body: Items, rest: Arms)

  // ----- how templates are written

  function KeyWord(k: Key): string
  {
    match k
    case Plain(name) => name
    case ByCounter(name) => name + "[" + "i" + "]"
    case ByArg(name, arg) => name + "[" + arg + "]"
  }

  function OperatorWord(c: Cond): string
  {
    if c.equal then "==" else "!="
  }

  function LiteralWord(c: Cond): string
  {
    if c.quoted then "\"" + c.literal + "\"" else c.literal
  }

  function Words1(command: string, g: Gaps1): Tokens
  {
    Word(g.a, command, Close(g.b))
  }

  function Words2(command: string, arg: string, g: Gaps2): Tokens
  {
    Word(g.a, command, Word(g.b, arg, Close(g.c)))
  }

  function CondWords(command: string, c: Cond, g: Gaps4): Tokens
  {
    Word(g.a, command, Word(g.b, KeyWord(c.key), Word(g.c, OperatorWord(c), Word(g.d, LiteralWord(c), Close(g.e)))))
  }

  function PrintTokens(t: Tokens): string
  {
    match t
    case Close(gap) => gap + "}}"
    case Word(gap, word, rest) => gap + (word + PrintTokens(rest))
  }

  function Command(t: Tokens): string
  {
    "{{" + PrintTokens(t)
  }

  function Print(items: Items): string
  {
    match items
    case Nil => ""
    case Cons(head, tail) => PrintItem(head) + Print(tail)
  }

  function PrintItem(item: Item): string
  {
    match item
    case Text(text) => text
    case PutInt(name, gaps) => Command(Words2("puti", name, gaps))
    case PutArg(command, key, gaps) => Command(Words2(command, KeyWord(key), gaps))
    case Repeat(count, gaps, body, endGaps) =>
      Command(Words2("begin", KeyWord(count), gaps)) + (Print(body) + Command(Words1("end", endGaps)))
    case Choice(cond, gaps, body, rest) =>
      Command(CondWords("if", cond, gaps)) + (Print(body) + PrintArms(rest))
  }

  function PrintArms(arms: Arms): string
  {
    match arms
    case EndIf(gaps) => Command(Words1("endif", gaps))
    case ElseIf(cond, gaps, body, rest) =>
      Command(CondWords("elseif", cond, gaps)) + (Print(body) + PrintArms(rest))
    case Else(gaps, body, rest) => Command(Words1("else", gaps)) + (Print(body) + PrintArms(rest))
  }

  // ----- which trees can be written down: nothing here restricts nesting

  /** Space, tab, line feed, vertical tab, form feed and carriage return. */
  predicate IsWhite(c: char) { c == ' ' || c as int in {9, 10, 11, 12, 13} }

  predicate Blank(s: string) { forall k | 0 <= k < |s| :: IsWhite(s[k]) }

  predicate IsWord(w: string)
  {
    0 < |w| <= 31 && forall k | 0 <= k < |w| :: !IsWhite(w[k]) && w[k] != '\0'
  }

  predicate IsName(s: string)
  {
    s != "" && '[' !in s && ']' !in s
  }

  predicate KeyOk(k: Key)
  {
    && IsWord(KeyWord(k)) && IsName(k.name)
    && (k.ByArg? ==> IsName(k.arg) && k.arg != "i")
  }

  predicate CondOk(c: Cond)
  {
    && KeyOk(c.key) && IsWord(LiteralWord(c))
    && (!c.quoted ==> c.literal[0] != '"' && c.literal[|c.literal| - 1] != '"')
  }

  /** White space that separates: it may be missing only before the command word. */
  predicate Separates(gap: string) { gap != "" && Blank(gap) }

  predicate Gaps1Ok(g: Gaps1) { Blank(g.a) && Separates(g.b) }

  predicate Gaps2Ok(g: Gaps2) { Blank(g.a) && Separates(g.b) && Separates(g.c) }

  predicate Gaps4Ok(g: Gaps4)
  {
    Blank(g.a) && Separates(g.b) && Separates(g.c) && Separates(g.d) && Separates(g.e)
  }

  /** Plain text: every brace is followed by something else within the same text. */
  predicate TextOk(s: string)
  {
    forall k | 0 <= k < |s| && s[k] == '{' :: k + 1 < |s| && s[k + 1] != '{'
  }

  predicate ItemsOk(items: Items)
  {
    items.Cons? ==> ItemOk(items.head) && ItemsOk(items.tail)
  }

  predicate ItemOk(item: Item)
  {
    match item
    case Text(text) => TextOk(text)
    case PutInt(name, gaps) => IsWord(name) && Gaps2Ok(gaps)
    case PutArg(command, key, gaps) => (command == "puts" || command == "puta") && KeyOk(key) && Gaps2Ok(gaps)
    case Repeat(count, gaps, body, endGaps) => KeyOk(count) && Gaps2Ok(gaps) && ItemsOk(body) && Gaps1Ok(endGaps)
    case Choice(cond, gaps, body, rest) => CondOk(cond) && Gaps4Ok(gaps) && ItemsOk(body) && ArmsOk(rest)
  }

  predicate ArmsOk(arms: Arms)
  {
    match arms
    case EndIf(gaps) => Gaps1Ok(gaps)
    case ElseIf(cond, gaps, body, rest) => CondOk(cond) && Gaps4Ok(gaps) && ItemsOk(body) && ArmsOk(rest)
    case Else(gaps, body, rest) => Gaps1Ok(gaps) && ItemsOk(body) && ArmsOk(rest)
  }

  // ----- what templates mean

  /** `Stuck`: a key does not resolve, or a loop stands in a loop or a choice in a choice. */
  datatype Outcome = Stuck | Out(text: string, counter: int)

  function Lookup(env: Env, i: int, k: Key): Option<string>
  {
    match k
    case Plain(name) => if name in env then Some(env[name].value) else None
    case ByCounter(name) => Nth(env, name, i)
    case ByArg(name, arg) => if arg in env then Nth(env, name, Atoi(env[arg].value)) else None
  }

  /** The value at an index of an array argument, the first at 0. */
  function Nth(env: Env, name: string, n: int): Option<string>
  {
    if name !in env || n < 0 || |env[name].values| <= n then None else Some(env[name].values[n])
  }

  function Holds(env: Env, i: int, c: Cond): Option<bool>
  {
    match Lookup(env, i, c.key)
    case None => None
    case Some(value) => Some((value == c.literal) == c.equal)
  }

  function Prepend(text: string, o: Outcome): Outcome
  {
    if o.Stuck? then Stuck else Out(text + o.text, o.counter)
  }

  /** The text of `items` where the loop counter stands at `i`. */
  function Meaning(items: Items, env: Env, i: int, inLoop: bool, inChoice: bool): Outcome
    decreases items, 0, 0
  {
    match items
    case Nil => Out("", i)
    case Cons(head, tail) =>
      match MeaningOfItem(head, env, i, inLoop, inChoice)
      case Stuck => Stuck
      case Out(text, i') => Prepend(text, Meaning(tail, env, i', inLoop, inChoice))
  }

  function MeaningOfItem(item: Item, env: Env, i: int, inLoop: bool, inChoice: bool): Outcome
    decreases item, 0, 0
  {
    match item
    case Text(text) => Out(text, i)
    case PutInt(name, _) => if name in env then Out(IntToString(Atoi(env[name].value)), i) else Stuck
    case PutArg(_, key, _) =>
      (match Lookup(env, i, key)
       case None => Stuck
       case Some(value) => Out(value, i))
    case Repeat(count, _, body, _) =>
      (match Lookup(env, i, count)
       case None => Stuck
       case Some(value) => if inLoop then Stuck else MeaningOfTurns(body, env, 0, Atoi(value), inChoice))
    case Choice(cond, _, body, rest) =>
      if inChoice then Stuck
      else
        (match Holds(env, i, cond)
         case None => Stuck
         case Some(holds) =>
           match Meaning(body, env, i, inLoop, true)
           case Stuck => Stuck
           case Out(text, i') => Prepend(if holds then text else "", MeaningOfArms(rest, env, i', inLoop, holds)))
  }

  /** The turns of a loop from `i` on: the body is run before the count is looked at. */
  function MeaningOfTurns(body: Items, env: Env, i: int, count: int, inChoice: bool): Outcome
    decreases body, 1, count - i
  {
    match Meaning(body, env, i, true, inChoice)
    case Stuck => Stuck
    case Out(text, _) =>
      if count <= i + 1 then Out(text, i + 1)
      else Prepend(text, MeaningOfTurns(body, env, i + 1, count, inChoice))
  }

  /**
    The remaining arms, where `taken` says that an earlier one was chosen. Every body is run, but
    only the chosen one is heard; after it no further condition is looked at.
   */
  function MeaningOfArms(arms: Arms, env: Env, i: int, inLoop: bool, taken: bool): Outcome
    decreases arms, 0, 0
  {
    match arms
    case EndIf(_) => Out("", i)
    case ElseIf(cond, _, body, rest) =>
      (match if taken then Some(false) else Holds(env, i, cond)
       case None => Stuck
       case Some(holds) =>
         match Meaning(body, env, i, inLoop, true)
         case Stuck => Stuck
         case Out(text, i') =>
           Prepend(if holds then text else "", MeaningOfArms(rest, env, i', inLoop, taken || holds)))
    case Else(_, body, rest) =>
      match Meaning(body, env, i, inLoop, true)
      case Stuck => Stuck
      case Out(text, i') => Prepend(if taken then "" else text, MeaningOfArms(rest, env, i', inLoop, true))
  }

  // ----- closing a command

  /** Any two bytes that are not white close a command, behind any white space. */
  lemma TwoBytesClose(job: Job, c: Config, k: nat)
    requires Valid(job, c) && c.stage == End && c.pos <= k && k + 2 <= |job.file| && Blank(job.file[c.pos..k])
    requires !IsWhite(job.file[k]) && !IsWhite(job.file[k + 1])
    ensures EndStep(job, c) == c.(pos := k + 2, stage := Process)
  {
    forall i | c.pos <= i < k ensures IsSpace(job.file[i]) {
      assert job.file[c.pos..k][i - c.pos] == job.file[i];
    }
    SkipSpaceStops(job.file, c.pos, k);
    WordEndIsBeyond(job.file, k, k + 2);
  }

  // ----- keys

  lemma {:induction false} IndexOfFirst(s: string, t: string, c: char)
    requires c !in s && t != "" && t[0] == c
    ensures IndexOf(s + t, c) == Some(|s|)
  {
    if s == "" {
      assert s + t == t;
    } else {
      assert (s + t)[1..] == s[1..] + t;
      IndexOfFirst(s[1..], t, c);
    }
  }

  lemma IndexedKeyParts(name: string, index: string)
    requires IsName(name)
    ensures
      var word := name + "[" + index + "]";
      && IndexOf(word, '[') == Some(|name|)
      && word[..|name|] == name
      && word[|name| + 1..] == index + "]"
      && word[|name| + 1..][..|index|] == index
      && IndexOf(word, ']') != Some(0)
  {
    var word := name + "[" + index + "]";
    var tail := "[" + index + "]";
    assert word == name + tail;
    IndexOfFirst(name, tail, '[');
    assert word[0] == name[0];
  }

  lemma IndexedArg(env: Env, i: int, name: string, index: string)
    requires IsName(name) && IsName(index)
    ensures
      var word := name + "[" + index + "]";
      StrArg(env, i, word, word) ==
      if index == "i" then ArrayArg(env, name, i)
      else if index in env then ArrayArg(env, name, Atoi(env[index].value))
      else None
  {
    IndexedKeyParts(name, index);
    var rest := index + "]";
    assert rest[..|rest| - 1] == index;
    assert StrArg(env, i, index, rest) == if index in env then Some(env[index].value) else None;
  }

  /** The engine's reading of a written key is the key's meaning. */
  lemma KeyDenotes(env: Env, i: int, k: Key)
    requires KeyOk(k)
    ensures StrArg(env, i, KeyWord(k), KeyWord(k)) == Lookup(env, i, k)
  {
    match k
    case Plain(name) =>
    case ByCounter(name) => IndexedArg(env, i, name, "i");
    case ByArg(name, arg) => IndexedArg(env, i, name, arg);
  }

  lemma LiteralIsUnquoted(c: Cond)
    requires CondOk(c)
    ensures Unquoted(LiteralWord(c)) == c.literal
  {
    if c.quoted {
      assert LiteralWord(c)[1..] == c.literal + "\"";
      assert (c.literal + "\"")[..|c.literal|] == c.literal;
    }
  }

  /** Words other than the two operators make no condition. */
  lemma OtherOperatorFails(env: Env, i: int, args: seq<string>)
    requires |args| == 3 && args[1] != "==" && args[1] != "!="
    ensures Condition(env, i, args).None?
  {
  }

  lemma ConditionDenotes(env: Env, i: int, c: Cond)
    requires CondOk(c)
    ensures Condition(env, i, [KeyWord(c.key), OperatorWord(c), LiteralWord(c)]) == Holds(env, i, c)
  {
    KeyDenotes(env, i, c.key);
    LiteralIsUnquoted(c);
  }
}
