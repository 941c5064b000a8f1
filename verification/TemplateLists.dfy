/** Lists on a page: a loop over the values of an array argument, from the text of the file to what is delivered. */
module TemplateLists {
  import opened TemplateText
  import opened TemplateRun
  import opened TemplateOutput
  import opened TemplateSyntax
  import opened TemplateTheorem

  /** Each value between `before` and `after`, in order. */
  function Framed(values: seq<string>, before: string, after: string): string
  {
    if values == [] then "" else (before + values[0] + after) + Framed(values[1..], before, after)
  }

  /** The file: what stands between `begin` and `end` is written for each value. */
  function ListFile(count: string, name: string, before: string, after: string): string
  {
    "{{ begin " + count + " }}" + before + "{{ puta " + name + "[i] }}" + after + "{{ end }}"
  }

  function Body(name: string, before: string, after: string): Items
  {
    Cons(Text(before), Cons(PutArg("puta", ByCounter(name), Gaps2(" ", " ", " ")), Cons(Text(after), Nil)))
  }

  function List(count: string, name: string, before: string, after: string): Items
  {
    Cons(Repeat(Plain(count), Gaps2(" ", " ", " "), Body(name, before, after), Gaps1(" ", " ")), Nil)
  }

  lemma CommandIsWritten(command: string, arg: string)
    ensures Command(Words2(command, arg, Gaps2(" ", " ", " "))) == "{{ " + command + " " + arg + " }}"
  {
    var last := Close(" ");
    var second := Word(" ", arg, last);
    assert PrintTokens(last) == " }}";
    assert PrintTokens(second) == " " + (arg + " }}");
    assert PrintTokens(Word(" ", command, second)) == " " + (command + (" " + (arg + " }}")));
    assert "{{" + " " == "{{ ";
  }

  lemma BodyIsWritten(name: string, before: string, after: string)
    ensures Print(Body(name, before, after)) == before + "{{ puta " + name + "[i] }}" + after
  {
    var put := PutArg("puta", ByCounter(name), Gaps2(" ", " ", " "));
    assert Print(Cons(Text(after), Nil)) == after;
    assert PrintItem(put) == "{{ puta " + name + "[i] }}" by {
      CommandIsWritten("puta", name + "[" + "i" + "]");
      assert "{{ " + "puta" + " " == "{{ puta " && "[" + "i" + "]" + " }}" == "[i] }}";
      assert name + "[" + "i" + "]" + " }}" == name + ("[" + "i" + "]" + " }}");
    }
    assert Print(Cons(put, Cons(Text(after), Nil))) == PrintItem(put) + after;
  }

  lemma ListIsWritten(count: string, name: string, before: string, after: string)
    ensures Print(List(count, name, before, after)) == ListFile(count, name, before, after)
  {
    BodyIsWritten(name, before, after);
    CommandIsWritten("begin", count);
    assert "{{ " + "begin" + " " == "{{ begin ";
    assert Command(Words1("end", Gaps1(" ", " "))) == "{{ end }}" by {
      assert PrintTokens(Close(" ")) == " }}";
      assert "{{" + (" " + ("end" + " }}")) == "{{ end }}";
    }
    assert Print(List(count, name, before, after)) == PrintItem(List(count, name, before, after).head);
  }

  lemma ListIsOk(count: string, name: string, before: string, after: string)
    requires KeyOk(Plain(count)) && KeyOk(ByCounter(name)) && TextOk(before) && TextOk(after)
    ensures ItemsOk(List(count, name, before, after))
  {
    var body := Body(name, before, after);
    assert ItemsOk(Nil) && ItemsOk(body.tail.tail) && ItemsOk(body.tail) && ItemsOk(body);
  }

  /** One turn of the loop writes one value. */
  lemma TurnWrites(name: string, before: string, after: string, env: Env, i: nat)
    requires name in env && i < |env[name].values|
    ensures Meaning(Body(name, before, after), env, i, true, false)
         == Out(before + env[name].values[i] + after, i)
  {
    var body := Body(name, before, after);
    assert Meaning(body.tail.tail, env, i, true, false) == Out(after, i);
    assert Meaning(body.tail, env, i, true, false) == Out(env[name].values[i] + after, i);
    assert before + env[name].values[i] + after == before + (env[name].values[i] + after);
  }

  lemma {:induction false} TurnsWrite(name: string, before: string, after: string, env: Env, i: nat)
    requires name in env && i < |env[name].values|
    ensures
      var values := env[name].values;
      MeaningOfTurns(Body(name, before, after), env, i, |values|, false)
      == Out(Framed(values[i..], before, after), |values|)
    decreases |env[name].values| - i
  {
    var values := env[name].values;
    TurnWrites(name, before, after, env, i);
    assert values[i..][1..] == values[i + 1..];
    if i + 1 < |values| {
      TurnsWrite(name, before, after, env, i + 1);
    } else {
      assert Framed(values[i + 1..], before, after) == "";
    }
  }

  lemma ListMeans(count: string, name: string, before: string, after: string, env: Env)
    requires count in env && name in env && env[count].value == IntToString(|env[name].values|)
    ensures
      var values := env[name].values;
      Meaning(List(count, name, before, after), env, 0, false, false)
      == if values == [] then Stuck else Out(Framed(values, before, after), |values|)
  {
    var values := env[name].values;
    AtoiOfIntToString(|values|);
    if values == [] {
      var body := Body(name, before, after);
      assert Meaning(body.tail, env, 0, true, false) == Stuck;
      assert Meaning(body, env, 0, true, false) == Stuck;
      assert MeaningOfTurns(body, env, 0, 0, false) == Stuck;
    } else {
      TurnsWrite(name, before, after, env, 0);
      assert values[0..] == values;
    }
    assert Meaning(Nil, env, |values|, false, false) == Out("", |values|);
  }

  /**
    A list is delivered whole and in order: each value of the array argument once, between the texts around it. Over an
    empty list the engine fails, since the body is run before the count is looked at.
   */
  lemma ListIsDelivered(count: string, name: string, before: string, after: string, env: Env, size: nat)
    requires KeyOk(Plain(count)) && KeyOk(ByCounter(name)) && TextOk(before) && TextOk(after) && 0 < size
    requires count in env && name in env && env[count].value == IntToString(|env[name].values|)
    ensures
      var r := Run(Job(ListFile(count, name, before, after), env, size), Fresh());
      if env[name].values == [] then r.stage == Err
      else
        && r.stage == Initial && r.sink.pending == ""
        && Joined(r.sink.chunks) == Framed(env[name].values, before, after)
  {
    ListIsOk(count, name, before, after);
    ListIsWritten(count, name, before, after);
    ListMeans(count, name, before, after, env);
    EngineDeliversMeaning(List(count, name, before, after), env, size);
  }
}
