/** A device driven by a finite state machine: written with state names, run with state numbers. */
module StateMachine {

  datatype Condition = Condition(kind: string, subtype: string, value: string)

  datatype Action = Action(kind: string, subtype: string, value: string)

  /** `next` is meaningless until the machine is compiled. */
  datatype Transition = Transition(condition: Condition, newstate: string, actions: seq<Action>, next: nat)

  /** `marked` is the start mark a file may give a state; nothing looks at it. */
  datatype State = State(name: string, marked: bool, number: nat, transitions: seq<Transition>)

  // ---------- compilation ----------

  /** The number `nn` is given to the name `sn` in one transition, one state, all states. */
  function CompileTransition(t: Transition, sn: string, nn: nat): Transition {
    if t.newstate == sn then t.(next := nn) else t
  }

  function CompileState(s: State, sn: string, nn: nat): (r: State)
    ensures r.name == s.name && |r.transitions| == |s.transitions|
  {
    State(s.name, s.marked, if sn == s.name then nn else s.number,
          seq(|s.transitions|, k requires 0 <= k < |s.transitions| => CompileTransition(s.transitions[k], sn, nn)))
  }

  function CompileName(states: seq<State>, sn: string, nn: nat): (r: seq<State>)
    ensures |r| == |states| && forall j :: 0 <= j < |states| ==> r[j] == CompileState(states[j], sn, nn)
  {
    seq(|states|, j requires 0 <= j < |states| => CompileState(states[j], sn, nn))
  }

  /** After the names of the first `k` states have been given their numbers. */
  function Compiled(states: seq<State>, k: nat): (r: seq<State>)
    requires k <= |states|
    ensures |r| == |states| && forall j :: 0 <= j < |states| ==> r[j].name == states[j].name
  {
    if k == 0 then states else CompileName(Compiled(states, k - 1), states[k - 1].name, k - 1)
  }

  predicate DistinctNames(states: seq<State>) { forall i, j :: 0 <= i < j < |states| ==> states[i].name != states[j].name }

  predicate Defined(states: seq<State>, name: string) { exists i :: 0 <= i < |states| && states[i].name == name }

  predicate TargetsDefined(states: seq<State>) {
    forall j, k :: 0 <= j < |states| && 0 <= k < |states[j].transitions| ==> Defined(states, states[j].transitions[k].newstate)
  }

  function IndexOf(states: seq<State>, name: string): (i: nat)
    requires Defined(states, name)
    ensures i < |states| && states[i].name == name
  {
    if states[0].name == name then 0
    else
      assert Defined(states[1..], name) by {
        var i :| 0 <= i < |states| && states[i].name == name;
        assert states[1..][i - 1].name == name;
      }
      1 + IndexOf(states[1..], name)
  }

  lemma IndexUnique(states: seq<State>, name: string, i: nat)
    requires DistinctNames(states) && i < |states| && states[i].name == name
    ensures Defined(states, name) && IndexOf(states, name) == i
  {
    var k := IndexOf(states, name);
  }

  lemma {:induction false} CompiledLengths(states: seq<State>, k: nat, j: nat)
    requires k <= |states| && j < |states|
    ensures |Compiled(states, k)[j].transitions| == |states[j].transitions|
    decreases k
  {
    if k > 0 { CompiledLengths(states, k - 1, j); }
  }

  lemma OneRound(states: seq<State>, k: nat, j: nat, t: nat)
    requires 0 < k <= |states| && j < |states| && t < |states[j].transitions|
    ensures |Compiled(states, k)[j].transitions| == |Compiled(states, k - 1)[j].transitions| == |states[j].transitions|
    ensures Compiled(states, k)[j].transitions[t] ==
            CompileTransition(Compiled(states, k - 1)[j].transitions[t], states[k - 1].name, k - 1)
  {
    CompiledLengths(states, k, j);
    CompiledLengths(states, k - 1, j);
  }

  /** A transition after `k` rounds: only its number changed, to its target's if already named. */
  lemma {:induction false} CompiledTransition(states: seq<State>, k: nat, j: nat, t: nat)
    requires DistinctNames(states) && k <= |states| && j < |states| && t < |states[j].transitions|
    requires Defined(states, states[j].transitions[t].newstate)
    ensures |Compiled(states, k)[j].transitions| == |states[j].transitions|
    ensures var target := IndexOf(states, states[j].transitions[t].newstate);
            Compiled(states, k)[j].transitions[t] ==
            if target < k then states[j].transitions[t].(next := target) else states[j].transitions[t]
    decreases k
  {
    hide IndexOf, DistinctNames, Defined;
    if k == 0 {
      assert Compiled(states, 0) == states;
    } else {
      OneRound(states, k, j, t);
      hide Compiled;
      CompiledTransition(states, k - 1, j, t);
      NamedOnce(states, states[j].transitions[t].newstate, k - 1);
    }
  }

  lemma NamedOnce(states: seq<State>, name: string, i: nat)
    requires DistinctNames(states) && Defined(states, name) && i < |states|
    ensures states[i].name == name <==> IndexOf(states, name) == i
  {
    if states[i].name == name { IndexUnique(states, name, i); }
  }

  lemma {:induction false} NumberAfter(states: seq<State>, k: nat, j: nat)
    requires DistinctNames(states) && k <= |states| && j < |states|
    ensures Compiled(states, k)[j].number == if j < k then j else states[j].number
    decreases k
  {
    if k > 0 { NumberAfter(states, k - 1, j); }
  }

  /** With distinct names every state gets its own position as its number. */
  lemma StatesNumbered(states: seq<State>, j: nat)
    requires DistinctNames(states) && j < |states|
    ensures Compiled(states, |states|)[j].number == j
  {
    NumberAfter(states, |states|, j);
  }

  /** With distinct names and defined targets every transition ends up with its target's number,
      and is otherwise unchanged. */
  lemma CompilationNumbersTargets(states: seq<State>, j: nat, t: nat)
    requires DistinctNames(states) && TargetsDefined(states) && j < |states| && t < |states[j].transitions|
    ensures var target := IndexOf(states, states[j].transitions[t].newstate);
            && |Compiled(states, |states|)[j].transitions| == |states[j].transitions|
            && Compiled(states, |states|)[j].transitions[t] == states[j].transitions[t].(next := target)
  {
    CompiledTransition(states, |states|, j, t);
  }

  // ---------- the numeric machine ----------

  /** Conditions of the transitions, each once, in order. */
  function ActiveConditions(ts: seq<Transition>): (cs: seq<Condition>)
    ensures forall c :: c in cs <==> exists k :: 0 <= k < |ts| && ts[k].condition == c
    ensures forall i, j :: 0 <= i < j < |cs| ==> cs[i] != cs[j]
  {
    if ts == [] then []
    else
      var n := |ts| - 1;
      var cs := ActiveConditions(ts[..n]);
      assert forall k :: 0 <= k < n ==> ts[..n][k] == ts[k];
      if ts[n].condition in cs then cs else cs + [ts[n].condition]
  }

  /** The first transition with the condition; past the end if there is none. */
  function Firing(ts: seq<Transition>, c: Condition): (k: nat)
    ensures k <= |ts| && (k < |ts| ==> ts[k].condition == c) && forall i :: 0 <= i < k ==> ts[i].condition != c
  {
    if ts == [] || ts[0].condition == c then 0 else 1 + Firing(ts[1..], c)
  }

  datatype Machine = Machine(states: seq<State>, current: nat, expected: seq<Condition>)
  {
    predicate InRange() { current < |states| }

    predicate Expecting() { InRange() && expected == ActiveConditions(states[current].transitions) }
  }

  datatype Reply = Refused | Fired(actions: seq<Action>)

  /** One message: accepted if expected; then the first matching transition fires. */
  function Step(m: Machine, c: Condition): (r: (Machine, Reply))
    requires m.InRange()
    ensures r.0.states == m.states
  {
    if c !in m.expected then (m, Refused)
    else
      var ts := m.states[m.current].transitions;
      var k := Firing(ts, c);
      if k == |ts| then (m, Fired([]))
      else
        var next := ts[k].next;
        (Machine(m.states, next, if next < |m.states| then ActiveConditions(m.states[next].transitions) else []), Fired(ts[k].actions))
  }

  predicate NumbersRight(states: seq<State>) {
    forall j, k :: 0 <= j < |states| && 0 <= k < |states[j].transitions| ==> states[j].transitions[k].next < |states|
  }

  /** A message is accepted exactly when a transition fires, and the expectation stays right. */
  lemma AcceptsWhatFires(m: Machine, c: Condition)
    requires m.Expecting() && NumbersRight(m.states)
    ensures Step(m, c).0.Expecting()
    ensures Step(m, c).1.Fired? <==> exists k :: 0 <= k < |m.states[m.current].transitions| && m.states[m.current].transitions[k].condition == c
    ensures Step(m, c).1.Fired? ==> Firing(m.states[m.current].transitions, c) < |m.states[m.current].transitions|
  {}

  // ---------- the machine as written ----------

  /** One message to the machine that follows names. */
  function NamedStep(states: seq<State>, name: string, c: Condition): (string, Reply)
    requires Defined(states, name)
  {
    var ts := states[IndexOf(states, name)].transitions;
    var k := Firing(ts, c);
    if k == |ts| then (name, Refused) else (ts[k].newstate, Fired(ts[k].actions))
  }

  datatype Visit = Visit(state: string, reply: Reply)

  function NamedRun(states: seq<State>, name: string, cs: seq<Condition>): seq<Visit>
    requires Defined(states, name) && TargetsDefined(states)
    decreases |cs|
  {
    if cs == [] then []
    else
      var (next, reply) := NamedStep(states, name, cs[0]);
      [Visit(next, reply)] + NamedRun(states, next, cs[1..])
  }

  function NumericRun(m: Machine, cs: seq<Condition>): seq<Visit>
    requires m.Expecting() && NumbersRight(m.states)
    decreases |cs|
  {
    if cs == [] then []
    else
      AcceptsWhatFires(m, cs[0]);
      var (next, reply) := Step(m, cs[0]);
      [Visit(next.states[next.current].name, reply)] + NumericRun(next, cs[1..])
  }

  function MachineOf(states: seq<State>, current: nat): Machine
    requires current < |states|
  {
    Machine(states, current, ActiveConditions(states[current].transitions))
  }

  /** A transition whose target is named among the first `k` states has one of their numbers. */
  lemma {:induction false} CompiledWithin(states: seq<State>, k: nat, j: nat, t: nat)
    requires k <= |states| && j < |states| && t < |states[j].transitions|
    ensures |Compiled(states, k)[j].transitions| == |states[j].transitions|
    ensures var u := Compiled(states, k)[j].transitions[t];
            && u.newstate == states[j].transitions[t].newstate
            && ((exists i :: 0 <= i < k && states[i].name == u.newstate) ==> u.next < k)
    decreases k
  {
    if k > 0 {
      OneRound(states, k, j, t);
      hide Compiled;
      CompiledWithin(states, k - 1, j, t);
    }
  }

  lemma CompiledInRange(states: seq<State>)
    requires TargetsDefined(states)
    ensures NumbersRight(Compiled(states, |states|))
  {
    var done := Compiled(states, |states|);
    hide Compiled;
    forall j, k | 0 <= j < |done| && 0 <= k < |done[j].transitions| ensures done[j].transitions[k].next < |done| {
      CompiledLengths(states, |states|, j);
      CompiledWithin(states, |states|, j, k);
      assert Defined(states, states[j].transitions[k].newstate);
    }
  }

  lemma {:induction false} SameFiring(ts: seq<Transition>, us: seq<Transition>, c: Condition)
    requires |us| == |ts| && forall k :: 0 <= k < |ts| ==> us[k].condition == ts[k].condition
    ensures Firing(us, c) == Firing(ts, c)
    decreases |ts|
  {
    if ts != [] { SameFiring(ts[1..], us[1..], c); }
  }

  lemma CompiledState(states: seq<State>, j: nat)
    requires DistinctNames(states) && TargetsDefined(states) && j < |states|
    ensures var ts, us := states[j].transitions, Compiled(states, |states|)[j].transitions;
            && |us| == |ts|
            && forall k :: 0 <= k < |ts| ==> Defined(states, ts[k].newstate) && us[k] == ts[k].(next := IndexOf(states, ts[k].newstate))
  {
    hide Compiled, IndexOf;
    CompiledLengths(states, |states|, j);
    forall k | 0 <= k < |states[j].transitions|
      ensures Defined(states, states[j].transitions[k].newstate)
      ensures Compiled(states, |states|)[j].transitions[k] ==
              states[j].transitions[k].(next := IndexOf(states, states[j].transitions[k].newstate))
    {
      CompilationNumbersTargets(states, j, k);
    }
  }

  lemma StepAgrees(states: seq<State>, current: nat, c: Condition)
    requires DistinctNames(states) && TargetsDefined(states) && current < |states|
    ensures Defined(states, states[current].name)
    ensures var done := Compiled(states, |states|);
            var (m, reply) := Step(MachineOf(done, current), c);
            var (name, named) := NamedStep(states, states[current].name, c);
            m.InRange() && m == MachineOf(done, m.current) && states[m.current].name == name && reply == named
  {
    hide Compiled, IndexOf, ActiveConditions, TargetsDefined;
    var done := Compiled(states, |states|);
    IndexUnique(states, states[current].name, current);
    CompiledInRange(states);
    AcceptsWhatFires(MachineOf(done, current), c);
    CompiledState(states, current);
    SameFiring(states[current].transitions, done[current].transitions, c);
  }

  /** FSM compilation: with distinct names and all targets defined, the numeric machine answers
      every sequence of messages as the machine that follows names: the same states, the same
      acceptances, the same actions. */
  lemma {:induction false} CompilationFaithful(states: seq<State>, current: nat, cs: seq<Condition>)
    requires DistinctNames(states) && TargetsDefined(states) && current < |states|
    ensures Defined(states, states[current].name)
    ensures NumbersRight(Compiled(states, |states|))
    ensures NumericRun(MachineOf(Compiled(states, |states|), current), cs) == NamedRun(states, states[current].name, cs)
    decreases |cs|
  {
    hide Step, NamedStep, Compiled, TargetsDefined, ActiveConditions;
    CompiledInRange(states);
    var done := Compiled(states, |states|);
    assert Defined(states, states[current].name);
    if cs != [] {
      StepAgrees(states, current, cs[0]);
      CompilationFaithful(states, Step(MachineOf(done, current), cs[0]).0.current, cs[1..]);
    }
  }

  // ---------- the device ----------

  /** Whether `t` occurs somewhere in `s`. */
  predicate Contains(s: string, t: string) { t <= s || (s != "" && Contains(s[1..], t)) }

  /** The value shown: that of the last event whose subtype has the device's name in it. */
  function ShownValue(name: string, value: string, actions: seq<Action>): string {
    if actions == [] then value
    else
      var n := |actions| - 1;
      if actions[n].kind == "event" && Contains(actions[n].subtype, name) then actions[n].value
      else ShownValue(name, value, actions[..n])
  }

  lemma {:induction false} ContainsMeans(s: string, t: string)
    ensures Contains(s, t) <==> exists i :: 0 <= i <= |s| && t <= s[i..]
    decreases |s|
  {
    assert s[0..] == s;
    if s != "" {
      ContainsMeans(s[1..], t);
      assert forall i :: 0 < i <= |s| ==> s[i..] == s[1..][i - 1..];
      if Contains(s[1..], t) {
        var i :| 0 <= i <= |s| - 1 && t <= s[1..][i..];
        assert s[i + 1..] == s[1..][i..];
      }
    } else {
      assert forall i :: 0 <= i <= |s| ==> s[i..] == s;
    }
  }

  predicate About(name: string, a: Action) { a.kind == "event" && exists i :: 0 <= i <= |a.subtype| && name <= a.subtype[i..] }

  lemma ShownAtEnd(name: string, value: string, actions: seq<Action>)
    requires actions != []
    ensures var n := |actions| - 1;
            ShownValue(name, value, actions) == if About(name, actions[n]) then actions[n].value else ShownValue(name, value, actions[..n])
  {
    ContainsMeans(actions[|actions| - 1].subtype, name);
    hide Contains;
  }

  lemma {:induction false} NoneAbout(name: string, value: string, actions: seq<Action>)
    requires forall i :: 0 <= i < |actions| ==> !About(name, actions[i])
    ensures ShownValue(name, value, actions) == value
    decreases |actions|
  {
    if actions != [] {
      ShownAtEnd(name, value, actions);
      hide About, ShownValue;
      NoneAbout(name, value, actions[..|actions| - 1]);
    }
  }

  /** The value shown after some actions is that of the last event about the device; with none (see
      above) it stays. */
  lemma {:induction false} ShownIsLast(name: string, value: string, actions: seq<Action>, i: nat)
    requires i < |actions| && About(name, actions[i]) && forall j :: i < j < |actions| ==> !About(name, actions[j])
    ensures ShownValue(name, value, actions) == actions[i].value
    decreases |actions|
  {
    hide About, ShownValue;
    ShownAtEnd(name, value, actions);
    if i < |actions| - 1 { ShownIsLast(name, value, actions[..|actions| - 1], i); }
  }

  /** The last state named TRUE is where the device starts, the first state if there is none. */
  function StartIndex(states: seq<State>): (i: nat)
    ensures if states == [] then i == 0 else i < |states|
    ensures i == 0 || states[i].name == "TRUE"
    ensures forall j :: i < j < |states| ==> states[j].name != "TRUE"
  {
    if states == [] then 0
    else if states[|states| - 1].name == "TRUE" then |states| - 1
    else StartIndex(states[..|states| - 1])
  }

  /** With one marked state, the device starts in it exactly when no later state is named TRUE and it
      is itself named TRUE or the first. */
  lemma StartsAtMark(states: seq<State>, m: nat)
    requires m < |states| && forall j :: 0 <= j < |states| ==> (states[j].marked <==> j == m)
    ensures states[StartIndex(states)].marked <==>
            (forall j :: m < j < |states| ==> states[j].name != "TRUE") && (states[m].name == "TRUE" || m == 0)
  {
    var i := StartIndex(states);
  }

  /** A machine whose second state is marked starts in its first. */
  lemma MarkIgnored()
    ensures var states := [State("OFF", false, 0, []), State("ON", true, 0, [])];
            DistinctNames(states) && TargetsDefined(states) && StartIndex(states) == 0 && !states[StartIndex(states)].marked
  {
    var states := [State("OFF", false, 0, []), State("ON", true, 0, [])];
    StartsAtMark(states, 1);
    assert states[1].name != "TRUE";
  }

  class FSMDevice {
    const name: string
    var states: seq<State>
    var current: nat
    var oldstate: nat
    var expected: seq<Condition>
    var currentValue: string
    ghost var notices: seq<Action>

    ghost function View(): Machine
      reads this
    {
      Machine(states, current, expected)
    }

    ghost predicate Valid()
      reads this
    {
      View().Expecting() && NumbersRight(states)
    }

    /** Numbers every name in every state, then waits in the start state. */
    constructor (name: string, written: seq<State>)
      requires written != [] && TargetsDefined(written)
      ensures Valid() && View() == MachineOf(Compiled(written, |written|), StartIndex(written))
      ensures oldstate == current && currentValue == "OFF" && notices == []
    {
      this.name := name;
      states, current, oldstate, expected, currentValue, notices := written, 0, 0, [], "OFF", [];
      new;
      hide Compiled, TargetsDefined, DistinctNames, ActiveConditions, StartIndex;
      CompileAll();
      CompiledInRange(written);
      FindStart();
      FillExpected();
      CompiledNames(written);
    }

    method CompileAll()
      modifies this
      ensures states == Compiled(old(states), |old(states)|)
      ensures unchanged(`current) && unchanged(`oldstate) && unchanged(`expected) && unchanged(`currentValue) && unchanged(`notices)
    {
      for i := 0 to |states|
        invariant |states| == |old(states)| && states == Compiled(old(states), i)
        invariant unchanged(`current) && unchanged(`oldstate) && unchanged(`expected) && unchanged(`currentValue) && unchanged(`notices)
      {
        CompileOne(states[i].name, i);
      }
    }

    method FindStart()
      requires states != [] && current == oldstate == 0
      modifies this
      ensures unchanged(`states) && unchanged(`expected) && unchanged(`currentValue) && unchanged(`notices)
      ensures current == oldstate == StartIndex(states) && current < |states|
    {
      for i := 0 to |states|
        invariant unchanged(`states) && unchanged(`expected) && unchanged(`currentValue) && unchanged(`notices)
        invariant current == oldstate == StartIndex(states[..i]) && current < |states|
      {
        assert states[..i + 1][..i] == states[..i];
        if states[i].name == "TRUE" { current, oldstate := i, i; }
      }
      assert states[..|states|] == states;
    }

    method CompileOne(sn: string, nn: nat)
      modifies this
      ensures states == CompileName(old(states), sn, nn)
      ensures unchanged(`current) && unchanged(`oldstate) && unchanged(`expected) && unchanged(`currentValue) && unchanged(`notices)
    {
      for j := 0 to |states|
        invariant |states| == |old(states)|
        invariant forall x :: 0 <= x < |states| ==> states[x] == if x < j then CompileState(old(states)[x], sn, nn) else old(states)[x]
        invariant unchanged(`current) && unchanged(`oldstate) && unchanged(`expected) && unchanged(`currentValue) && unchanged(`notices)
      {
        var s := CompileOneState(states[j], sn, nn);
        states := states[j := s];
      }
    }

    static method CompileOneState(s: State, sn: string, nn: nat) returns (r: State)
      ensures r == CompileState(s, sn, nn)
    {
      r := s;
      if sn == s.name { r := r.(number := nn); }
      for k := 0 to |s.transitions|
        invariant r == State(s.name, s.marked, if sn == s.name then nn else s.number, r.transitions)
        invariant |r.transitions| == |s.transitions|
        invariant forall x :: 0 <= x < |s.transitions| ==>
                    r.transitions[x] == if x < k then CompileTransition(s.transitions[x], sn, nn) else s.transitions[x]
      {
        if r.transitions[k].newstate == sn {
          r := r.(transitions := r.transitions[k := r.transitions[k].(next := nn)]);
        }
      }
    }

    /** Collects the conditions of the current state, each once. */
    method FillExpected()
      requires current < |states|
      modifies this
      ensures unchanged(`states) && unchanged(`current) && unchanged(`oldstate) && unchanged(`currentValue) && unchanged(`notices)
      ensures expected == ActiveConditions(states[current].transitions)
    {
      hide ActiveConditions;
      expected := [];
      var ts := states[current].transitions;
      NoConditions(ts[..0]);
      for i := 0 to |ts|
        invariant expected == ActiveConditions(ts[..i])
        invariant unchanged(`states) && unchanged(`current) && unchanged(`oldstate) && unchanged(`currentValue) && unchanged(`notices)
      {
        OneMoreCondition(ts, i);
        if ts[i].condition !in expected { expected := expected + [ts[i].condition]; }
      }
      assert ts[..|ts|] == ts;
    }

    /** Runs the transition for a condition, collecting its actions. */
    method Exec(c: Condition) returns (res: seq<Action>)
      requires Valid()
      modifies this
      ensures states == old(states) && expected == old(expected) && currentValue == old(currentValue) && notices == old(notices)
      ensures oldstate == old(current)
      ensures var ts := old(states[current].transitions);
              var k := Firing(ts, c);
              if k < |ts| then res == ts[k].actions && current == ts[k].next && current < |states|
              else res == [] && current == old(current)
    {
      oldstate := current;
      res := [];
      var ts := states[current].transitions;
      var i, done := 0, false;
      while i < |ts| && !done
        invariant 0 <= i <= |ts|
        invariant unchanged(`states) && unchanged(`expected) && unchanged(`currentValue) && unchanged(`notices) && oldstate == old(current)
        invariant forall x :: 0 <= x < i - (if done then 1 else 0) ==> ts[x].condition != c
        invariant if done then i > 0 && ts[i - 1].condition == c && res == ts[i - 1].actions && current == ts[i - 1].next
                  else res == [] && current == old(current)
      {
        if c == ts[i].condition {
          res := ts[i].actions;
          current := ts[i].next;
          done := true;
        }
        i := i + 1;
      }
    }

    /** A message: accepted only if its condition is expected. */
    method ExecCmd(c: Condition) returns (accepted: bool)
      requires Valid()
      modifies this
      ensures Valid()
      ensures var (m, reply) := Step(old(View()), c);
              && View() == m && accepted == reply.Fired?
              && notices == old(notices) + (if accepted then reply.actions else [])
              && currentValue == ShownValue(name, old(currentValue), if accepted then reply.actions else [])
    {
      hide Contains, ActiveConditions;
      if c !in expected {
        assert notices + [] == notices;
        return false;
      }
      AcceptsWhatFires(View(), c);
      var res := Exec(c);
      FillExpected();
      for j := 0 to |res|
        invariant states == old(states) && View() == Step(old(View()), c).0
        invariant notices == old(notices) + res[..j]
        invariant currentValue == ShownValue(name, old(currentValue), res[..j])
      {
        assert res[..j + 1][..j] == res[..j];
        if res[j].kind == "event" && Contains(res[j].subtype, name) { currentValue := res[j].value; }
        notices := notices + [res[j]];
      }
      assert res[..|res|] == res;
      return true;
    }

    /** A change of an input channel: as a message, but the value shown stays. */
    method UpdateChannel(channel: string, value: string) returns (accepted: bool)
      requires Valid()
      modifies this
      ensures Valid() && currentValue == old(currentValue)
      ensures var (m, reply) := Step(old(View()), Condition("local_event", channel, value));
              View() == m && accepted == reply.Fired? && notices == old(notices) + (if accepted then reply.actions else [])
    {
      hide ActiveConditions;
      var c := Condition("local_event", channel, value);
      if c !in expected {
        assert notices + [] == notices;
        return false;
      }
      AcceptsWhatFires(View(), c);
      var res := Exec(c);
      FillExpected();
      notices := notices + res;
      return true;
    }
  }

  lemma CompiledNames(states: seq<State>)
    ensures StartIndex(Compiled(states, |states|)) == StartIndex(states)
  {
    SameStart(states, Compiled(states, |states|));
  }

  lemma {:induction false} SameStart(states: seq<State>, others: seq<State>)
    requires |others| == |states| && forall j :: 0 <= j < |states| ==> others[j].name == states[j].name
    ensures StartIndex(others) == StartIndex(states)
    decreases |states|
  {
    if states != [] { SameStart(states[..|states| - 1], others[..|others| - 1]); }
  }

  lemma NoConditions(ts: seq<Transition>)
    requires ts == []
    ensures ActiveConditions(ts) == []
  {}

  lemma OneMoreCondition(ts: seq<Transition>, i: nat)
    requires i < |ts|
    ensures var cs := ActiveConditions(ts[..i]);
            ActiveConditions(ts[..i + 1]) == if ts[i].condition in cs then cs else cs + [ts[i].condition]
  {
    assert ts[..i + 1][..i] == ts[..i];
  }
}
