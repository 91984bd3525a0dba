/** The control file's text read back, and what a message does to a device in plain terms. */
module ControlText {
  import opened Texts
  import opened GrayCode
  import opened NetDevice

  // ---------- reading the text ----------

  const OPENING := "<attribute name=\""
  const MIDDLE := "\" category=\"control\" value=\""
  const CLOSING := "\"/>"

  /** The entries of a control file, one attribute after the other with line ends between; reading
      stops at anything else. */
  function ReadEntries(s: string): seq<Entry>
    decreases |s|
  {
    if !(OPENING <= s) then []
    else
      var afterOpening := s[|OPENING|..];
      var n := FirstOf(afterOpening, '"');
      var afterName := afterOpening[n..];
      if !(MIDDLE <= afterName) then []
      else
        var afterMiddle := afterName[|MIDDLE|..];
        var v := FirstOf(afterMiddle, '"');
        var afterValue := afterMiddle[v..];
        if !(CLOSING <= afterValue) then []
        else
          var rest := afterValue[|CLOSING|..];
          [Entry(afterOpening[..n], afterMiddle[..v])] + ReadEntries(if rest != "" && rest[0] == '\n' then rest[1..] else rest)
  }

  predicate Unquoted(s: string) { forall k :: 0 <= k < |s| ==> s[k] != '"' }

  predicate AllUnquoted(es: seq<Entry>) { forall i :: 0 <= i < |es| ==> Unquoted(es[i].name) && Unquoted(es[i].next) }

  lemma FirstQuote(s: string, rest: string)
    requires Unquoted(s) && rest != "" && rest[0] == '"'
    ensures FirstOf(s + rest, '"') == |s| && (s + rest)[..|s|] == s && (s + rest)[|s|..] == rest
  {
    var k := FirstOf(s + rest, '"');
    assert (s + rest)[|s|] == '"';
    assert forall i :: 0 <= i < |s| ==> (s + rest)[i] == s[i];
  }

  /** One line of the file in front of anything. */
  lemma ReadLine(e: Entry, rest: string)
    requires Unquoted(e.name) && Unquoted(e.next)
    ensures ReadEntries(Line(e) + rest) == [e] + ReadEntries(if rest != "" && rest[0] == '\n' then rest[1..] else rest)
  {
    var tail := CLOSING + rest;
    var middle := MIDDLE + (e.next + tail);
    var s := OPENING + (e.name + middle);
    assert Line(e) + rest == s by { LineForm(e, rest); }
    assert middle[0] == '"' && tail[0] == '"';
    FirstQuote(e.name, middle);
    FirstQuote(e.next, tail);
    assert OPENING <= s && s[|OPENING|..] == e.name + middle;
    assert MIDDLE <= middle && middle[|MIDDLE|..] == e.next + tail;
    assert CLOSING <= tail && tail[|CLOSING|..] == rest;
    hide FirstOf, Unquoted, Line;
  }

  lemma LineForm(e: Entry, rest: string)
    ensures Line(e) + rest == OPENING + (e.name + (MIDDLE + (e.next + (CLOSING + rest))))
  {}

  lemma LineIsText(e: Entry)
    ensures Line(e) != ""
  {}

  lemma {:induction false} LinesFirst(e: Entry, rest: seq<Entry>)
    ensures Lines([e] + rest) == if rest == [] then Line(e) else Line(e) + (['\n'] + Lines(rest))
    decreases |rest|
  {
    hide Line;
    LineIsText(e);
    var all := [e] + rest;
    if rest == [] {
      assert all[..0] == [] && Lines([]) == "";
    } else {
      var front, last := rest[..|rest| - 1], rest[|rest| - 1];
      assert all[..|all| - 1] == [e] + front;
      LinesFirst(e, front);
      if front == [] {
        assert Lines(rest) == Line(last) by { assert rest[..0] == [] && Lines([]) == ""; }
        assert Line(e) + ['\n'] + Line(last) == Line(e) + (['\n'] + Line(last));
      } else {
        LinesAreText(front);
        assert Lines(rest) == Lines(front) + ['\n'] + Line(last);
        assert Line(e) + (['\n'] + Lines(front)) + ['\n'] + Line(last) == Line(e) + (['\n'] + (Lines(front) + ['\n'] + Line(last)));
      }
    }
  }

  lemma LinesAreText(es: seq<Entry>)
    requires es != []
    ensures Lines(es) != ""
  {
    LineIsText(es[|es| - 1]);
    hide Line;
  }

  lemma NothingToRead()
    ensures ReadEntries("") == []
  {}

  /** A control file reads back as the entries it was written from. */
  lemma {:induction false} ReadLines(es: seq<Entry>)
    requires AllUnquoted(es)
    ensures ReadEntries(Lines(es)) == es
    decreases |es|
  {
    hide ReadEntries, Line, Unquoted;
    if es == [] {
      NothingToRead();
    } else {
      var rest := es[1..];
      assert es == [es[0]] + rest;
      LinesFirst(es[0], rest);
      if rest == [] {
        ReadLine(es[0], "");
        assert Line(es[0]) + "" == Line(es[0]);
        NothingToRead();
      } else {
        ReadLine(es[0], ['\n'] + Lines(rest));
        assert (['\n'] + Lines(rest))[1..] == Lines(rest);
        ReadLines(rest);
      }
    }
  }

  lemma {:induction false} CodesUnquoted(n: nat, i: nat)
    requires n >= 1 && i < Pow2(n)
    ensures Unquoted(Codes(n)[i])
    decreases n
  {
    if n > 1 {
      CodesDouble(n - 1);
      var m := Pow2(n - 1);
      var k := if i < m then i else 2 * m - 1 - i;
      CodesUnquoted(n - 1, k);
      hide Codes;
      Prefixed(Codes(n - 1)[k]);
    } else {
      ShortestTexts();
      assert Pow2(0) == 1;
    }
  }

  lemma Prefixed(s: string)
    requires Unquoted(s)
    ensures Unquoted("OFF+" + s) && Unquoted("ON+" + s)
  {}

  /** From the text to the walk: the text a cyclic control file holds, read back, is a table that takes
      every code to the one that follows it. */
  lemma TextGivesTable(n: nat, i: nat)
    requires n >= 1 && i < Pow2(n)
    ensures ReadEntries(Lines(CycleEntries(n))) == CycleEntries(n)
    ensures NextState(TableOf(ReadEntries(Lines(CycleEntries(n)))), Codes(n)[i]) == Codes(n)[Following(n, i)]
  {
    hide Codes, Unquoted, TableOf, Lines, ReadEntries;
    var es := CycleEntries(n);
    forall k | 0 <= k < |es| ensures Unquoted(es[k].name) && Unquoted(es[k].next) {
      CodesUnquoted(n, k);
      CodesUnquoted(n, Following(n, k));
    }
    ReadLines(es);
    NextStateFollows(n, i);
  }

  // ---------- messages ----------

  /** A command's spaces are plus signs; an event of a light switch, whose name begins with LS, means ON;
      every other value is taken as it is. */
  lemma ValuesMean(mtype: string, msubtype: string, value: string)
    ensures var v := Normalize(mtype, msubtype, value);
            && (mtype == "cmd" ==> |v| == |value| && forall k :: 0 <= k < |v| ==> v[k] == if value[k] == ' ' then '+' else value[k])
            && (mtype == "event" && "LS" <= msubtype ==> v == "ON")
            && (mtype != "cmd" && !(mtype == "event" && "LS" <= msubtype) ==> v == value)
  {
    assert |msubtype| >= 2 && msubtype[..2] == "LS" <==> "LS" <= msubtype;
  }

  /** What a device whose components all answer does: nothing for a kind of message that is no trigger,
      for ON at a status that is not in its table, and for one word other than ON and OFF; all components
      off for OFF. */
  lemma CommandEffects(triggers: set<string>, table: map<string, string>, mtype: string, value: string, v: Vector)
    ensures var actions := Actions(triggers, table, mtype, value, JoinParts(v));
            && (mtype !in triggers ==> actions == [])
            && (mtype in triggers && value == "ON" && JoinParts(v) !in table ==> actions == [])
            && (mtype in triggers && |Split(value)| <= 1 && value != "ON" && value != "OFF" ==> actions == [])
            && (mtype in triggers && value == "OFF" && IsOnOff(v) ==>
                  |actions| == |v| && forall i :: 0 <= i < |v| ==> Settled(v, actions, actions)[i] == "OFF")
            && Settled(v, [], []) == v
  {
    hide JoinParts, Split;
    PlainOnOff();
    assert Split("") == [] by { SplitNothing(); }
    SettledPlain(v, []);
    assert Commanded(v, []) == v;
    if mtype in triggers && value == "OFF" && IsOnOff(v) {
      OffActions(triggers, table, mtype, v);
      OnOffIsSolid(AllOff(|v|));
      SettledPlain(v, AllOff(|v|));
      assert Commanded(v, AllOff(|v|)) == AllOff(|v|);
    }
  }

  /** The statuses are the answers: a component whose address is unknown shows the word it answered. */
  lemma AnswersShow(statuses: Vector, actions: seq<string>, answers: seq<string>, i: nat)
    requires |answers| == |actions| <= |statuses| && Solid(answers) && i < |statuses|
    ensures Settled(statuses, actions, answers)[i] == if i < |answers| then answers[i] else statuses[i]
  {
    hide JoinParts, Split;
    SplitJoin(answers);
  }

  /** A component answers with the value it was told, unless it is active, knows its command and its answer,
      and has no address to send the command to: then it answers with the word status. */
  lemma AnswersMean(c: Component, v: string)
    ensures c.resolves || !c.active ==> c.Answer(v) == v
    ensures v !in c.commands || c.commands[v] == "" || v !in c.answers || c.answers[v] == "" ==> c.Answer(v) == v
    ensures !c.resolves && c.active && v in c.commands && c.commands[v] != "" && v in c.answers && c.answers[v] != "" ==>
              c.Answer(v) == "status"
  {}
}
