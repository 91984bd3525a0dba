/** A multi-component device stepped through the Gray code by the successor table that the
    configurator writes for it. */
module NetDevice {
  import opened Texts
  import opened GrayCode

  // ---------- the successor table ----------

  datatype Entry = Entry(name: string, next: string)

  /** One entry a code: the code and the one that follows it, cyclically. */
  function CycleEntries(n: nat): (es: seq<Entry>)
    requires n >= 1
    ensures |es| == Pow2(n)
  {
    seq(Pow2(n), i requires 0 <= i < Pow2(n) => Entry(Codes(n)[i], Codes(n)[Following(n, i)]))
  }

  function Line(e: Entry): string {
    "<attribute name=\"" + e.name + "\" category=\"control\" value=\"" + e.next + "\"/>"
  }

  function Lines(es: seq<Entry>): string {
    if es == [] then ""
    else
      var front := Lines(es[..|es| - 1]);
      (if front != "" then front + ['\n'] else front) + Line(es[|es| - 1])
  }

  /** The text a cyclic control file holds: one line an entry, in order. */
  method MkCyclicControl(n: nat) returns (control: string)
    requires n >= 1
    ensures control == Lines(CycleEntries(n))
  {
    hide Codes;
    var gray := GenerateGrayCode(n);
    control := "";
    ghost var es := CycleEntries(n);
    for i := 0 to |gray|
      invariant control == Lines(es[..i])
    {
      var current := gray[i];
      var next := if i < |gray| - 1 then gray[i + 1] else gray[0];
      assert es[i] == Entry(current, next);
      assert es[..i + 1][..i] == es[..i] && es[..i + 1][i] == es[i];
      if control != "" { control := control + ['\n']; }
      control := control + Line(Entry(current, next));
    }
    assert es[..|gray|] == es;
  }

  /** The table as the parameter file gives it back: the value last written under a name. */
  function TableOf(es: seq<Entry>): map<string, string> {
    if es == [] then map[] else TableOf(es[..|es| - 1])[es[|es| - 1].name := es[|es| - 1].next]
  }

  function NextState(table: map<string, string>, current: string): string {
    if current in table then table[current] else ""
  }

  lemma {:induction false} TableLookup(es: seq<Entry>, i: nat)
    requires i < |es| && forall j :: i < j < |es| ==> es[j].name != es[i].name
    ensures es[i].name in TableOf(es) && TableOf(es)[es[i].name] == es[i].next
    decreases |es|
  {
    if i < |es| - 1 {
      assert es[|es| - 1].name != es[i].name;
      TableLookup(es[..|es| - 1], i);
    }
  }

  /** The table is total on the codes and takes each to the one after it. */
  lemma NextStateFollows(n: nat, i: nat)
    requires n >= 1 && i < Pow2(n)
    ensures NextState(TableOf(CycleEntries(n)), Codes(n)[i]) == Codes(n)[Following(n, i)]
  {
    hide Codes, TableOf;
    var es := CycleEntries(n);
    forall j | i < j < |es| ensures es[j].name != es[i].name {
      if es[j].name == es[i].name { CodesDistinct(n, i, j); }
    }
    TableLookup(es, i);
  }

  // ---------- commands ----------

  /** The statuses a command asks for, from the table and the present status. */
  function Actions(triggers: set<string>, table: map<string, string>, mtype: string, value: string, status: string): seq<string> {
    var values := Split(value);
    if mtype !in triggers then []
    else if |values| > 1 then values
    else if |values| == 1 && value == "ON" then Split(NextState(table, status))
    else if |values| == 1 && value == "OFF" then AllOff(|Split(status)|)
    else []
  }

  function SpacesToPlus(s: string): (r: string)
    ensures |r| == |s|
  {
    seq(|s|, i requires 0 <= i < |s| => if s[i] == ' ' then '+' else s[i])
  }

  /** A command may separate its values by spaces; an event of a light switch means ON. */
  function Normalize(mtype: string, msubtype: string, value: string): string {
    if mtype == "cmd" then SpacesToPlus(value)
    else if mtype == "event" && |msubtype| >= 2 && msubtype[..2] == "LS" then "ON"
    else value
  }

  method AggregateValue(value: string) returns (res: string)
    ensures res == SpacesToPlus(value)
  {
    res := "";
    for i := 0 to |value|
      invariant res == SpacesToPlus(value)[..i]
    {
      if value[i] == ' ' { res := res + "+"; } else { res := res + [value[i]]; }
    }
  }

  function AllOff(n: nat): (v: Vector)
    ensures |v| == n && IsOnOff(v)
  {
    seq(n, _ => "OFF")
  }

  /** The first statuses replaced by the actions. */
  function Commanded(statuses: Vector, actions: seq<string>): Vector
    requires |actions| <= |statuses|
  {
    actions + statuses[|actions|..]
  }

  /** Statuses after a joined status was written back, as far as both reach. */
  function WrittenBack(statuses: Vector, parts: seq<string>): (v: Vector)
    ensures |v| == |statuses|
  {
    seq(|statuses|, i requires 0 <= i < |statuses| => if i < |parts| then parts[i] else statuses[i])
  }

  /** What a command leaves: the components take the actions, then their answers are joined, cut
      apart again and written over the statuses. */
  function Settled(statuses: Vector, actions: seq<string>, answers: seq<string>): (v: Vector)
    requires |actions| <= |statuses|
    ensures |v| == |statuses|
  {
    WrittenBack(Commanded(statuses, actions), Split(JoinParts(answers)))
  }

  predicate AllEmpty(parts: seq<string>) { forall i :: 0 <= i < |parts| ==> parts[i] == "" }

  lemma {:induction false} StrippedStart(parts: seq<string>)
    ensures AllEmpty(parts) ==> Stripped(parts) == []
    ensures !AllEmpty(parts) ==> Stripped(parts) != [] && Stripped(parts)[0] != ""
    decreases |parts|
  {
    if parts != [] && parts[0] == "" { StrippedStart(parts[1..]); }
  }

  /** Actions answered as they are take effect, each at its component, exactly when there are none,
      the first is not empty, or all are empty; parts of a split never hold a `+`. */
  lemma SettledExact(statuses: Vector, actions: seq<string>)
    requires |actions| <= |statuses| && Plain(actions)
    ensures Settled(statuses, actions, actions) == Commanded(statuses, actions) <==>
            actions == [] || actions[0] != "" || AllEmpty(actions)
  {
    hide JoinParts, Split, Plain;
    SplitJoinParts(actions);
    StrippedStart(actions);
    var parts := Trimmed(Stripped(actions));
    var settled, commanded := Settled(statuses, actions, actions), Commanded(statuses, actions);
    if actions == [] || actions[0] != "" || AllEmpty(actions) {
      assert forall i :: 0 <= i < |parts| ==> parts[i] == commanded[i];
    } else {
      assert parts != [] && parts[0] != "" && settled[0] == parts[0] && commanded[0] == "";
    }
  }

  lemma SettledPlain(statuses: Vector, actions: seq<string>)
    requires |actions| <= |statuses| && Solid(actions)
    ensures Settled(statuses, actions, actions) == Commanded(statuses, actions)
  {
    SettledExact(statuses, actions);
  }

  lemma {:induction false} SplitEmpties(s: string)
    requires s != ""
    ensures AllEmpty(Split(s)) <==> forall k :: 0 <= k < |s| ==> s[k] == '+'
    ensures Split(s) != [] && (Split(s)[0] == "" <==> s[0] == '+')
    decreases |s|
  {
    var k := FirstOf(s, '+');
    if k < |s| {
      var rest := s[k + 1..];
      assert s == s[..k] + ['+'] + rest;
      assert Split(s) == [s[..k]] + Split(rest);
      assert AllEmpty(Split(s)) <==> s[..k] == "" && AllEmpty(Split(rest)) by { EmptyCons(s[..k], Split(rest)); }
      if rest != "" { SplitEmpties(rest); }
      assert k > 0 ==> s[0] != '+';
    } else {
      assert s[0] != '+';
      assert Split(s) == [s] && Split(s)[0] != "";
    }
  }

  lemma EmptyCons(first: string, rest: seq<string>)
    ensures AllEmpty([first] + rest) <==> first == "" && AllEmpty(rest)
  {
    assert AllEmpty([first] + rest) ==> forall i :: 0 <= i < |rest| ==> ([first] + rest)[i + 1] == rest[i];
    assert AllEmpty([first] + rest) ==> ([first] + rest)[0] == first;
  }

  lemma ActionsArePlain(triggers: set<string>, table: map<string, string>, mtype: string, value: string, status: string)
    ensures Plain(Actions(triggers, table, mtype, value, status))
  {
    SplitIsPlain(value);
    SplitIsPlain(NextState(table, status));
    assert "OFF"[0] != '+' && "OFF"[1] != '+' && "OFF"[2] != '+';
    hide Split;
  }

  /** When a command takes effect as asked, on a device all of whose components answer: exactly when
      its actions are none, begin with one that is not empty, or are all empty; and for a command of
      several values, exactly when it does not begin with `+` or is nothing but `+`. */
  lemma CommandExact(triggers: set<string>, table: map<string, string>, mtype: string, value: string, statuses: Vector)
    requires |Actions(triggers, table, mtype, value, JoinParts(statuses))| <= |statuses|
    ensures var actions := Actions(triggers, table, mtype, value, JoinParts(statuses));
            && (Settled(statuses, actions, actions) == Commanded(statuses, actions) <==>
                  actions == [] || actions[0] != "" || AllEmpty(actions))
            && (mtype in triggers && |Split(value)| > 1 ==>
                  && actions == Split(value) && value != ""
                  && (Settled(statuses, actions, actions) == Commanded(statuses, actions) <==>
                        value[0] != '+' || forall k :: 0 <= k < |value| ==> value[k] == '+'))
  {
    var actions := Actions(triggers, table, mtype, value, JoinParts(statuses));
    ActionsArePlain(triggers, table, mtype, value, JoinParts(statuses));
    SettledExact(statuses, actions);
    if |Split(value)| > 1 { SplitEmpties(value); }
    hide Settled, Commanded, JoinParts;
  }

  /** A device of two components in state OFF+OFF, told " ON": both end up ON. */
  lemma EmptyPartShifts(triggers: set<string>, table: map<string, string>, msubtype: string)
    requires "cmd" in triggers
    ensures var value := Normalize("cmd", msubtype, " ON");
            var actions := Actions(triggers, table, "cmd", value, "OFF+OFF");
            && actions == ["", "ON"]
            && Settled(["OFF", "OFF"], actions, actions) == ["ON", "ON"]
  {
    assert SpacesToPlus(" ON") == "+ON";
    assert "+ON" == "" + "+" + "ON";
    SplitAt("", "ON");
    PlainOnOff();
    assert Split("+ON") == ["", "ON"];
    hide JoinParts, Split;
    var actions := ["", "ON"];
    assert actions[1..] == ["ON"];
    SplitJoinParts(actions);
    var after := Commanded(["OFF", "OFF"], actions);
    assert after == actions;
    assert WrittenBack(after, ["ON"]) == ["ON", "ON"];
  }

  class Component {
    var status: string
    var active: bool
    const commands: map<string, string>
    const answers: map<string, string>
    const resolves: bool

    constructor (status: string, active: bool, commands: map<string, string>, answers: map<string, string>, resolves: bool)
      ensures this.status == status && this.active == active && this.resolves == resolves
      ensures this.commands == commands && this.answers == answers
    {
      this.status, this.active := status, active;
      this.commands, this.answers, this.resolves := commands, answers, resolves;
    }

    /** A value is sent on only by an active component that knows its command and its answer. */
    predicate SendsOn(v: string)
      reads this
    {
      active && v in commands && commands[v] != "" && v in answers && answers[v] != ""
    }

    function Answer(v: string): string
      reads this
    {
      if SendsOn(v) && !resolves then "status" else v
    }

    /** Takes the value, and answers it unless its agent's address would be needed and is unknown;
        anything that goes wrong makes the component inactive.  What the agent replies is unknown. */
    method SetValue(v: string) returns (answer: string)
      modifies this
      ensures status == v && answer == old(Answer(v))
      ensures active ==> old(SendsOn(v)) && resolves
    {
      status := v;
      if !active { return v; }
      if v !in commands || commands[v] == "" {
        active := false;
        return v;
      }
      if v !in answers || answers[v] == "" {
        active := false;
        return v;
      }
      if !resolves {
        active := false;
        return "status";
      }
      var found: bool := *;
      if !found { active := false; }
      answer := v;
    }
  }

  class Device {
    const component: seq<Component>
    const triggers: set<string>
    const table: map<string, string>

    constructor (component: seq<Component>, triggers: set<string>, table: map<string, string>)
      requires forall i, j :: 0 <= i < j < |component| ==> component[i] != component[j]
      ensures Valid() && this.component == component && this.triggers == triggers && this.table == table
    {
      this.component := component;
      this.triggers := triggers;
      this.table := table;
    }

    ghost predicate Valid() {
      forall i, j :: 0 <= i < j < |component| ==> component[i] != component[j]
    }

    ghost predicate AllResolve() { forall i :: 0 <= i < |component| ==> component[i].resolves }

    ghost function Statuses(): (v: Vector)
      reads component
      ensures |v| == |component|
    {
      seq(|component|, i requires 0 <= i < |component| reads component => component[i].status)
    }

    /** What the components would answer to actions now. */
    ghost function Answers(actions: seq<string>): (v: seq<string>)
      reads component
      requires |actions| <= |component|
      ensures |v| == |actions|
    {
      seq(|actions|, i requires 0 <= i < |actions| reads component => component[i].Answer(actions[i]))
    }

    lemma AllAnswer(actions: seq<string>)
      requires AllResolve() && |actions| <= |component|
      ensures Answers(actions) == actions
    {}

    /** The statuses joined. */
    method Status() returns (s: string)
      ensures s == JoinParts(Statuses())
    {
      s := "";
      ghost var v := Statuses();
      for i := 0 to |component|
        invariant s == JoinParts(v[..i])
      {
        assert v[..i + 1][..i] == v[..i];
        if s != "" { s := s + "+"; }
        s := s + component[i].status;
      }
      assert v[..|component|] == v;
    }

    /** Writes a joined status back to the components, as far as both reach. */
    method SetStatus(s: string)
      requires Valid()
      modifies component
      ensures var st := Split(s);
              forall i :: 0 <= i < |component| ==>
                component[i].status == if i < |st| then st[i] else old(component[i].status)
    {
      var st := Split(s);
      var i := 0;
      while i < |st| && i < |component|
        invariant 0 <= i <= |st| && i <= |component|
        invariant forall j :: 0 <= j < |component| ==>
                    component[j].status == if j < i then st[j] else old(component[j].status)
      {
        component[i].status := st[i];
        i := i + 1;
      }
    }

    /** One message: its value normalized and carried out. */
    method Receive(mtype: string, msubtype: string, raw: string)
      requires Valid()
      requires |Actions(triggers, table, mtype, Normalize(mtype, msubtype, raw), JoinParts(Statuses()))| <= |component|
      modifies component
      ensures var actions := Actions(triggers, table, mtype, Normalize(mtype, msubtype, raw), JoinParts(old(Statuses())));
              Statuses() == Settled(old(Statuses()), actions, old(Answers(actions)))
    {
      hide JoinParts, Split, Actions, NextState, Settled;
      var value := raw;
      if mtype == "cmd" {
        value := AggregateValue(raw);
      } else if mtype == "event" && |msubtype| >= 2 && msubtype[..2] == "LS" {
        value := "ON";
      }
      Command(mtype, value);
    }

    /** One command: each action to its component, then the answers joined and written back. */
    method Command(mtype: string, value: string)
      requires Valid()
      requires |Actions(triggers, table, mtype, value, JoinParts(Statuses()))| <= |component|
      modifies component
      ensures var actions := Actions(triggers, table, mtype, value, JoinParts(old(Statuses())));
              Statuses() == Settled(old(Statuses()), actions, old(Answers(actions)))
    {
      hide JoinParts, Split, Actions, NextState;
      var status := Status();
      var action := Actions(triggers, table, mtype, value, status);
      var nextstatus := "";
      ghost var before := Statuses();
      ghost var answers := Answers(action);
      NoParts();
      for i := 0 to |action|
        invariant nextstatus == JoinParts(answers[..i])
        invariant forall j :: i <= j < |action| ==> component[j].Answer(action[j]) == answers[j]
        invariant forall j :: 0 <= j < |component| ==> component[j].status == if j < i then action[j] else before[j]
      {
        var res := component[i].SetValue(action[i]);
        JoinOneMore(answers, i);
        if nextstatus != "" { nextstatus := nextstatus + "+"; }
        nextstatus := nextstatus + res;
      }
      assert answers[..|action|] == answers;
      assert Statuses() == Commanded(before, action);
      SetStatus(nextstatus);
    }
  }

  lemma JoinOneMore(parts: seq<string>, i: nat)
    requires i < |parts|
    ensures var front := JoinParts(parts[..i]);
            JoinParts(parts[..i + 1]) == (if front != "" then front + "+" else front) + parts[i]
  {
    assert parts[..i + 1][..i] == parts[..i];
  }

  // ---------- walking the cycle ----------

  function Advance(n: nat, i: nat, steps: nat): (j: nat)
    requires i < Pow2(n)
    ensures j < Pow2(n)
    decreases steps
  {
    if steps == 0 then i else Advance(n, Following(n, i), steps - 1)
  }

  lemma {:induction false} AdvanceAdds(n: nat, i: nat, steps: nat)
    requires i < Pow2(n) && steps <= Pow2(n)
    ensures Advance(n, i, steps) == if i + steps < Pow2(n) then i + steps else i + steps - Pow2(n)
    decreases steps
  {
    if steps > 0 { AdvanceAdds(n, Following(n, i), steps - 1); }
  }

  lemma PlainOnOff()
    ensures Split("ON") == ["ON"] && Split("OFF") == ["OFF"]
  {
    hide JoinParts, Split;
    JoinOne("ON");
    JoinOne("OFF");
    SplitJoin(["ON"]);
    SplitJoin(["OFF"]);
  }

  /** On "ON", a device whose statuses are a code takes the code that follows. */
  lemma OnActions(triggers: set<string>, n: nat, mtype: string, i: nat)
    requires n >= 1 && i < Pow2(n) && mtype in triggers
    ensures Actions(triggers, TableOf(CycleEntries(n)), mtype, "ON", JoinParts(Vectors(n)[i])) == Vectors(n)[Following(n, i)]
  {
    hide Codes, TableOf, CycleEntries, Vectors, JoinParts, Split, Following;
    PlainOnOff();
    CodesAreVectors(n, i);
    NextStateFollows(n, i);
    CodesSplit(n, Following(n, i));
  }

  /** A new device at the first code, or any later one, sent "ON" once for each code. */
  method Walk(d: Device, n: nat, mtype: string, ghost start: nat) returns (ghost seen: seq<Vector>)
    requires n >= 1 && start < Pow2(n)
    requires d.Valid() && d.AllResolve() && |d.component| == n
    requires mtype in d.triggers && d.table == TableOf(CycleEntries(n))
    requires d.Statuses() == Vectors(n)[start]
    modifies d.component
    ensures |seen| == Pow2(n)
    ensures forall k :: 0 <= k < Pow2(n) ==> seen[k] == Vectors(n)[Advance(n, start, k)]
    ensures d.Statuses() == Vectors(n)[start]
  {
    hide Codes, TableOf, CycleEntries, Vectors, JoinParts, Actions;
    seen := [];
    var count := PowerOfTwo(n);
    ghost var at := start;
    for k := 0 to count
      invariant |seen| == k
      invariant at == Advance(n, start, k) && d.Statuses() == Vectors(n)[at]
      invariant forall j :: 0 <= j < k ==> seen[j] == Vectors(n)[Advance(n, start, j)]
    {
      seen := seen + [d.Statuses()];
      OnActions(d.triggers, n, mtype, at);
      ghost var next := Vectors(n)[Following(n, at)];
      OnOffIsSolid(next);
      d.AllAnswer(next);
      SettledPlain(d.Statuses(), next);
      d.Command(mtype, "ON");
      AdvanceLast(n, start, k);
      at := Following(n, at);
      assert d.Statuses() == Vectors(n)[at];
    }
    AdvanceAdds(n, start, count);
  }

  lemma {:induction false} AdvanceLast(n: nat, i: nat, steps: nat)
    requires i < Pow2(n)
    ensures Advance(n, i, steps + 1) == Following(n, Advance(n, i, steps))
    decreases steps
  {
    if steps > 0 { AdvanceLast(n, Following(n, i), steps - 1); }
  }

  /** The successor table is one cycle: 2^n steps from any code visit every ON/OFF vector exactly
      once and return to the start. */
  lemma SingleCycle(n: nat, start: nat, v: Vector) returns (k: nat)
    requires n >= 1 && start < Pow2(n) && |v| == n && IsOnOff(v)
    ensures k < Pow2(n) && Vectors(n)[Advance(n, start, k)] == v
    ensures forall j :: 0 <= j < Pow2(n) && Vectors(n)[Advance(n, start, j)] == v ==> j == k
    ensures Advance(n, start, Pow2(n)) == start
  {
    hide Vectors, IsOnOff, Following, Advance;
    var i := EveryVectorOccurs(n, v);
    k := if i >= start then i - start else i + Pow2(n) - start;
    AdvanceAdds(n, start, k);
    AdvanceAdds(n, start, Pow2(n));
    forall j | 0 <= j < Pow2(n) && Vectors(n)[Advance(n, start, j)] == v ensures j == k {
      AdvanceAdds(n, start, j);
      var a := Advance(n, start, j);
      if a < i { VectorsDistinct(n, a, i); }
      if i < a { VectorsDistinct(n, i, a); }
    }
  }

  // ---------- any mixture of commands ----------

  /** Commands a device of n components is meant to get: on, off, or a status for each. */
  predicate FitsDevice(value: string, n: nat) {
    value == "ON" || value == "OFF" || (|Split(value)| == n && n > 1 && IsOnOff(Split(value)))
  }

  lemma OffActions(triggers: set<string>, table: map<string, string>, mtype: string, v: Vector)
    requires mtype in triggers && IsOnOff(v)
    ensures Actions(triggers, table, mtype, "OFF", JoinParts(v)) == AllOff(|v|)
  {
    hide JoinParts, Split;
    PlainOnOff();
    OnOffIsSolid(v);
    SplitJoin(v);
  }

  lemma VectorActions(triggers: set<string>, table: map<string, string>, mtype: string, value: string, status: string, n: nat)
    requires mtype in triggers && n > 1 && |Split(value)| == n
    ensures Actions(triggers, table, mtype, value, status) == Split(value)
  {}

  /** Every such command leaves the device at a code, so it never falls off the table. */
  method CommandKeepsCode(d: Device, n: nat, mtype: string, value: string)
    requires n >= 1 && d.Valid() && d.AllResolve() && |d.component| == n
    requires mtype in d.triggers && d.table == TableOf(CycleEntries(n))
    requires IsOnOff(d.Statuses()) && FitsDevice(value, n)
    modifies d.component
    ensures IsOnOff(d.Statuses())
    ensures value == "OFF" ==> d.Statuses() == AllOff(n)
    ensures value == "ON" ==> Differences(old(d.Statuses()), d.Statuses()) == 1
    ensures value != "ON" && value != "OFF" ==> d.Statuses() == Split(value)
  {
    hide Codes, TableOf, CycleEntries, Vectors, JoinParts, Actions, Split, Differences;
    ghost var v := d.Statuses();
    ghost var i := EveryVectorOccurs(n, v);
    if value == "ON" {
      OnActions(d.triggers, n, mtype, i);
      FollowingDiffers(n, i);
    } else if value == "OFF" {
      OffActions(d.triggers, d.table, mtype, v);
    } else {
      VectorActions(d.triggers, d.table, mtype, value, JoinParts(v), n);
    }
    ghost var actions := Actions(d.triggers, d.table, mtype, value, JoinParts(v));
    OnOffIsSolid(actions);
    d.AllAnswer(actions);
    SettledPlain(v, actions);
    d.Command(mtype, value);
    assert d.Statuses() == actions + v[n..] == actions;
  }
}
