/** A rule that is on inside a time window, under conditions, and repeats itself in cycles. */
module TimedRule {

  datatype Behavior = Timed | ProgramTimed | Cyclic | ProgramCyclic | Other

  datatype Act = SetAct | ResetAct

  /** What may be edited between ticks. */
  datatype Settings = Settings(enabled: bool, from: int, to: int, program: string, enabling: seq<string>)

  /** A condition of the set, with whether it holds. */
  datatype Named = Named(name: string, active: bool)

  datatype Conditions = Unchecked | Checked(conditions: seq<Named>)

  /** One tick: clock in seconds, second of the day, program name and switch, conditions. */
  datatype Tick = Tick(settings: Settings, now: int, dayTime: int, programName: string, program: int, conditions: Conditions)

  // ---------- when a rule is in force ----------

  predicate InRange(t: int, from: int, to: int) { if from < t && to < 0 then true else from <= t <= to }

  predicate ProgramFits(program: string, programName: string) {
    program == "" || program == "ALL" || program == programName
  }

  predicate Distinct(names: seq<string>) { forall i, j :: 0 <= i < j < |names| ==> names[i] != names[j] }

  predicate Holds(cs: seq<Named>, name: string) { exists i :: 0 <= i < |cs| && cs[i].active && cs[i].name == name }

  /** All enabling conditions hold, and none is listed twice: a second listing is never met. */
  predicate Satisfied(enabling: seq<string>, c: Conditions) {
    c.Checked? ==> Distinct(enabling) && forall i :: 0 <= i < |enabling| ==> Holds(c.conditions, enabling[i])
  }

  predicate InForce(b: Behavior, t: Tick) {
    && t.settings.enabled
    && InRange(t.dayTime, t.settings.from, t.settings.to)
    && Satisfied(t.settings.enabling, t.conditions)
    && (b == ProgramTimed ==> ProgramFits(t.settings.program, t.programName) && t.program != 0)
  }

  /** The position of a name, or -1. */
  function Find(names: seq<string>, name: string): (k: int)
    ensures -1 <= k < |names|
    ensures k >= 0 ==> names[k] == name && forall i :: 0 <= i < k ==> names[i] != name
    ensures k < 0 ==> name !in names
  {
    if names == [] then -1
    else if names[0] == name then 0
    else var k := Find(names[1..], name); if k < 0 then -1 else k + 1
  }

  /** Marks, for every condition that is active, the first enabling name it has. */
  predicate Marked(enabling: seq<string>, cs: seq<Named>, k: nat) {
    exists i :: 0 <= i < |cs| && cs[i].active && Find(enabling, cs[i].name) == k
  }

  lemma MarkedMeans(enabling: seq<string>, cs: seq<Named>, k: nat)
    requires k < |enabling|
    ensures Marked(enabling, cs, k) <==> Holds(cs, enabling[k]) && Find(enabling, enabling[k]) == k
  {
    if Marked(enabling, cs, k) {
      var i :| 0 <= i < |cs| && cs[i].active && Find(enabling, cs[i].name) == k;
      assert cs[i].name == enabling[k];
    }
    if Holds(cs, enabling[k]) && Find(enabling, enabling[k]) == k {
      var i :| 0 <= i < |cs| && cs[i].active && cs[i].name == enabling[k];
    }
  }

  lemma AllMarked(enabling: seq<string>, cs: seq<Named>)
    ensures (forall k :: 0 <= k < |enabling| ==> Marked(enabling, cs, k)) <==> Satisfied(enabling, Checked(cs))
  {
    hide Marked, Holds, Find;
    forall k | 0 <= k < |enabling|
      ensures Marked(enabling, cs, k) <==> Holds(cs, enabling[k]) && Find(enabling, enabling[k]) == k
    {
      MarkedMeans(enabling, cs, k);
    }
    if Distinct(enabling) {
      forall k | 0 <= k < |enabling| ensures Find(enabling, enabling[k]) == k {}
    }
    if !Distinct(enabling) {
      var i, j :| 0 <= i < j < |enabling| && enabling[i] == enabling[j];
      assert Find(enabling, enabling[j]) != j;
    }
  }

  /** The check as the rule makes it, with one flag for each enabling name. */
  method CheckCondition(enabling: seq<string>, c: Conditions) returns (ok: bool)
    ensures ok <==> Satisfied(enabling, c)
  {
    if c.Unchecked? { return true; }
    var cs := c.conditions;
    var cflag: seq<bool> := [];
    for i := 0 to |enabling|
      invariant |cflag| == i && forall k :: 0 <= k < i ==> !cflag[k]
    {
      cflag := cflag + [false];
    }
    for i := 0 to |cs|
      invariant |cflag| == |enabling|
      invariant forall k :: 0 <= k < |enabling| ==> (cflag[k] <==> Marked(enabling, cs[..i], k))
    {
      MarkMore(enabling, cs, i);
      if cs[i].active {
        var k := FindName(enabling, cs[i].name);
        if k >= 0 { cflag := cflag[k := true]; }
      }
    }
    assert cs[..|cs|] == cs;
    AllMarked(enabling, cs);
    for i := 0 to |cflag|
      invariant forall k :: 0 <= k < i ==> cflag[k]
    {
      if !cflag[i] { return false; }
    }
    return true;
  }

  method FindName(names: seq<string>, name: string) returns (k: int)
    ensures k == Find(names, name)
  {
    for i := 0 to |names|
      invariant name !in names[..i]
    {
      if names[i] == name {
        FindFirst(names, name, i);
        return i;
      }
    }
    return -1;
  }

  lemma FindFirst(names: seq<string>, name: string, i: nat)
    requires i < |names| && names[i] == name && name !in names[..i]
    ensures Find(names, name) == i
  {
    assert forall x :: 0 <= x < i ==> names[x] == names[..i][x];
  }

  lemma MarkMore(enabling: seq<string>, cs: seq<Named>, i: nat)
    requires i < |cs|
    ensures forall k :: 0 <= k < |enabling| ==>
              (Marked(enabling, cs[..i + 1], k) <==> Marked(enabling, cs[..i], k) || (cs[i].active && Find(enabling, cs[i].name) == k))
  {
    forall k | 0 <= k < |enabling|
      ensures Marked(enabling, cs[..i + 1], k) <==> Marked(enabling, cs[..i], k) || (cs[i].active && Find(enabling, cs[i].name) == k)
    {
      if Marked(enabling, cs[..i], k) {
        var x :| 0 <= x < i && cs[..i][x].active && Find(enabling, cs[..i][x].name) == k;
        assert cs[..i + 1][x] == cs[x];
      }
      if Marked(enabling, cs[..i + 1], k) {
        var x :| 0 <= x < i + 1 && cs[..i + 1][x].active && Find(enabling, cs[..i + 1][x].name) == k;
        if x < i { assert cs[..i][x] == cs[x]; }
      }
      if cs[i].active && Find(enabling, cs[i].name) == k { assert cs[..i + 1][i] == cs[i]; }
    }
  }

  // ---------- one tick ----------

  /** `cycleStart` is negative until the first cycle has been laid out. */
  datatype State = State(active: bool, cycleStart: int)

  predicate IsTimed(b: Behavior) { b == Timed || b == ProgramTimed }

  /** The first cycle boundary at or after `now`, counted from the start of the day. */
  function FirstBoundary(start: int, now: int, cycle: int): int
    requires cycle > 0
    decreases now - start
  {
    if start < now then FirstBoundary(start + cycle, now, cycle) else start
  }

  /** Whether a cycle begins at this tick, and when the next one does. */
  function NextCycle(b: Behavior, cycle: int, start: int, t: Tick): (bool, int) {
    if cycle <= 0 || b == Other then (false, start)
    else if start < 0 then
      if IsTimed(b) then (true, t.now + cycle) else (false, FirstBoundary(t.now - t.dayTime, t.now, cycle))
    else if t.now > start then (true, start + cycle)
    else (false, start)
  }

  function Step(b: Behavior, cycle: int, s: State, t: Tick): (State, seq<Act>) {
    var (exec, start) := NextCycle(b, cycle, s.cycleStart, t);
    if !t.settings.enabled then (State(false, start), if s.active then [ResetAct] else [])
    else if IsTimed(b) then
      if InForce(b, t) then (State(true, start), if exec || !s.active then [SetAct] else [])
      else (State(false, start), if s.active then [ResetAct] else [])
    else
      (State(s.active, start),
       if exec && b != Other && InRange(t.dayTime, t.settings.from, t.settings.to) && Satisfied(t.settings.enabling, t.conditions)
          && (b == ProgramCyclic ==> ProgramFits(t.settings.program, t.programName) && t.program != 0)
       then [SetAct] else [])
  }

  function Run(b: Behavior, cycle: int, s: State, ts: seq<Tick>): (State, seq<Act>)
    decreases |ts|
  {
    if ts == [] then (s, [])
    else
      var (t, acts) := Step(b, cycle, s, ts[0]);
      var (u, later) := Run(b, cycle, t, ts[1..]);
      (u, acts + later)
  }

  // ---------- runs ----------

  /** After `before`, what a trace of actions may be: resets only while on, and, when strict, sets
      only while off. */
  predicate Orderly(strict: bool, on: bool, acts: seq<Act>)
    decreases |acts|
  {
    acts == [] ||
    match acts[0]
    case SetAct => (strict ==> !on) && Orderly(strict, true, acts[1..])
    case ResetAct => on && Orderly(strict, false, acts[1..])
  }

  /** Whether the rule is on after a trace. */
  function OnAfter(on: bool, acts: seq<Act>): bool {
    if acts == [] then on else acts[|acts| - 1] == SetAct
  }

  lemma {:induction false} OrderlyAppend(strict: bool, on: bool, a: seq<Act>, b: seq<Act>)
    requires Orderly(strict, on, a) && Orderly(strict, OnAfter(on, a), b)
    ensures Orderly(strict, on, a + b) && OnAfter(on, a + b) == OnAfter(OnAfter(on, a), b)
    decreases |a|
  {
    if a == [] {
      assert a + b == b;
    } else {
      OrderlyAppend(strict, a[0] == SetAct, a[1..], b);
      assert (a + b)[1..] == a[1..] + b;
      if b == [] { assert a + b == a; }
    }
  }

  /** After every tick a timed rule is on exactly when it is in force. */
  lemma {:induction false} ActiveIffInForce(b: Behavior, cycle: int, s: State, ts: seq<Tick>)
    requires IsTimed(b) && ts != []
    ensures Run(b, cycle, s, ts).0.active <==> InForce(b, ts[|ts| - 1])
    decreases |ts|
  {
    hide InForce, NextCycle;
    if |ts| == 1 {
      assert Run(b, cycle, s, ts).0 == Step(b, cycle, s, ts[0]).0;
      if !ts[0].settings.enabled { DisabledIsNotInForce(b, ts[0]); }
    } else {
      ActiveIffInForce(b, cycle, Step(b, cycle, s, ts[0]).0, ts[1..]);
    }
  }

  lemma DisabledIsNotInForce(b: Behavior, t: Tick)
    requires !t.settings.enabled
    ensures !InForce(b, t)
  {}

  lemma StepOrderly(b: Behavior, cycle: int, s: State, t: Tick)
    requires IsTimed(b)
    ensures var (u, acts) := Step(b, cycle, s, t);
            Orderly(cycle <= 0, s.active, acts) && u.active == OnAfter(s.active, acts)
  {
    hide InForce, FirstBoundary;
    var (u, acts) := Step(b, cycle, s, t);
    OneAct(cycle <= 0, s.active, SetAct);
    OneAct(cycle <= 0, s.active, ResetAct);
  }

  lemma OneAct(strict: bool, on: bool, act: Act)
    ensures Orderly(strict, on, [act]) <==> if act == SetAct then strict ==> !on else on
  {
    assert [act][1..] == [];
  }

  /** Timed rule runs: over every run the rule resets only what it has set; its last action tells
      whether it is on; and without a cycle sets and resets strictly alternate, a set first. */
  lemma {:induction false} SetsBeforeResets(b: Behavior, cycle: int, s: State, ts: seq<Tick>)
    requires IsTimed(b)
    ensures var (t, acts) := Run(b, cycle, s, ts);
            Orderly(cycle <= 0, s.active, acts) && t.active == OnAfter(s.active, acts)
    decreases |ts|
  {
    hide Step;
    if ts != [] {
      var (t, acts) := Step(b, cycle, s, ts[0]);
      StepOrderly(b, cycle, s, ts[0]);
      SetsBeforeResets(b, cycle, t, ts[1..]);
      OrderlyAppend(cycle <= 0, s.active, acts, Run(b, cycle, t, ts[1..]).1);
    }
  }

  /** What strict order means position by position, starting from a rule that is off. */
  lemma {:induction false} StrictlyAlternating(on: bool, acts: seq<Act>, i: nat)
    requires Orderly(true, on, acts) && i < |acts|
    ensures acts[i] == if on == (i % 2 == 0) then ResetAct else SetAct
    decreases i
  {
    if i > 0 { StrictlyAlternating(!on, acts[1..], i - 1); }
  }

  /** Without a cycle, the actions of a new timed rule are a set, a reset, a set, and so on, over
      every run. */
  lemma RunAlternates(b: Behavior, cycle: int, ts: seq<Tick>, i: nat)
    requires IsTimed(b) && cycle <= 0 && i < |Run(b, cycle, State(false, -1), ts).1|
    ensures Run(b, cycle, State(false, -1), ts).1[i] == if i % 2 == 0 then SetAct else ResetAct
  {
    hide Run;
    SetsBeforeResets(b, cycle, State(false, -1), ts);
    StrictlyAlternating(false, Run(b, cycle, State(false, -1), ts).1, i);
  }

  // ---------- runs of the cyclic modes ----------

  predicate IsCyclic(b: Behavior) { b == Cyclic || b == ProgramCyclic }

  /** When a run sets. */
  function SetTimes(b: Behavior, cycle: int, s: State, ts: seq<Tick>): seq<int>
    decreases |ts|
  {
    if ts == [] then []
    else
      var (t, acts) := Step(b, cycle, s, ts[0]);
      (if SetAct in acts then [ts[0].now] else []) + SetTimes(b, cycle, t, ts[1..])
  }

  /** The i-th boundary, counted from the one that is laid out. */
  function Boundary(start: int, cycle: int, i: nat): int
    decreases i
  {
    if i == 0 then start else Boundary(start + cycle, cycle, i - 1)
  }

  /** Each time comes after a boundary of its own, the i-th after the i-th. */
  predicate After(times: seq<int>, start: int, cycle: int)
    decreases |times|
  {
    times == [] || (times[0] > start && After(times[1..], start + cycle, cycle))
  }

  lemma {:induction false} AfterMeans(times: seq<int>, start: int, cycle: int, i: nat)
    requires After(times, start, cycle) && i < |times|
    ensures times[i] > Boundary(start, cycle, i)
    decreases i
  {
    if i > 0 { AfterMeans(times[1..], start + cycle, cycle, i - 1); }
  }

  lemma {:induction false} AfterEarlier(times: seq<int>, early: int, late: int, cycle: int)
    requires After(times, late, cycle) && early <= late
    ensures After(times, early, cycle)
    decreases |times|
  {
    if times != [] { AfterEarlier(times[1..], early + cycle, late + cycle, cycle); }
  }

  /** A cyclic rule sets at most once for each boundary passed, and not before it. */
  lemma {:induction false} SetsAfterBoundaries(b: Behavior, cycle: int, s: State, ts: seq<Tick>)
    requires IsCyclic(b) && cycle > 0 && s.cycleStart >= 0
    ensures After(SetTimes(b, cycle, s, ts), s.cycleStart, cycle)
    decreases |ts|
  {
    hide InRange, Satisfied, ProgramFits, FirstBoundary;
    if ts != [] {
      var (t, acts) := Step(b, cycle, s, ts[0]);
      var later := SetTimes(b, cycle, t, ts[1..]);
      SetsAfterBoundaries(b, cycle, t, ts[1..]);
      if SetAct in acts {
        assert ([ts[0].now] + later)[1..] == later;
      } else {
        AfterEarlier(later, s.cycleStart, t.cycleStart, cycle);
        assert [] + later == later;
      }
    }
  }

  lemma {:induction false} FirstBoundaryIs(start: int, now: int, cycle: int)
    requires cycle > 0
    ensures var f := FirstBoundary(start, now, cycle);
            f >= now && (start <= now ==> f < now + cycle) && exists k: nat :: f == Boundary(start, cycle, k)
    decreases now - start
  {
    if start < now {
      FirstBoundaryIs(start + cycle, now, cycle);
      var k: nat :| FirstBoundary(start + cycle, now, cycle) == Boundary(start + cycle, cycle, k);
      assert Boundary(start, cycle, k + 1) == Boundary(start + cycle, cycle, k);
    } else {
      assert Boundary(start, cycle, 0) == start;
    }
  }

  /** A new cyclic rule does nothing at its first tick but lay out the first boundary at or after it,
      a whole number of cycles from the start of that day; from there on the i-th set comes after
      the i-th boundary. */
  lemma NewCyclicRule(b: Behavior, cycle: int, ts: seq<Tick>)
    requires IsCyclic(b) && cycle > 0 && ts != [] && ts[0].now >= 0
    ensures var times := SetTimes(b, cycle, State(false, -1), ts);
            var midnight := ts[0].now - ts[0].dayTime;
            var f := FirstBoundary(midnight, ts[0].now, cycle);
            && f >= ts[0].now && (ts[0].dayTime >= 0 ==> f < ts[0].now + cycle)
            && (exists k: nat :: f == Boundary(midnight, cycle, k))
            && After(times, f, cycle) && forall i :: 0 <= i < |times| ==> times[i] > Boundary(f, cycle, i)
  {
    hide InRange, Satisfied, ProgramFits, FirstBoundary, Boundary;
    var midnight := ts[0].now - ts[0].dayTime;
    FirstBoundaryIs(midnight, ts[0].now, cycle);
    var f := FirstBoundary(midnight, ts[0].now, cycle);
    SetsAfterBoundaries(b, cycle, State(false, f), ts[1..]);
    assert Step(b, cycle, State(false, -1), ts[0]) == (State(false, f), []);
    var times := SetTimes(b, cycle, State(false, -1), ts);
    assert times == SetTimes(b, cycle, State(false, f), ts[1..]);
    forall i | 0 <= i < |times| ensures times[i] > Boundary(f, cycle, i) {
      AfterMeans(times, f, cycle, i);
    }
  }

  /** In the cyclic modes a run from a rule that is off only sets, at the times counted above. */
  lemma {:induction false} CyclicOnlySets(b: Behavior, cycle: int, s: State, ts: seq<Tick>)
    requires !IsTimed(b) && !s.active
    ensures var (t, acts) := Run(b, cycle, s, ts);
            !t.active && |acts| == |SetTimes(b, cycle, s, ts)| && forall i :: 0 <= i < |acts| ==> acts[i] == SetAct
    ensures cycle <= 0 || b == Other ==> Run(b, cycle, s, ts).1 == []
    decreases |ts|
  {
    hide InRange, Satisfied, ProgramFits, FirstBoundary;
    if ts != [] { CyclicOnlySets(b, cycle, Step(b, cycle, s, ts[0]).0, ts[1..]); }
  }

  /** The tick comes with a condition set and the rule lists an enabling name twice. */
  predicate Doubled(t: Tick) { t.conditions.Checked? && !Distinct(t.settings.enabling) }

  /** A rule that lists an enabling name twice sets nothing in any mode, over every run of ticks
      with a condition set, and a timed one is off after each; without a condition set it may be
      in force. */
  lemma {:induction false} DoubledNeverSets(b: Behavior, cycle: int, s: State, ts: seq<Tick>)
    requires forall i :: 0 <= i < |ts| ==> Doubled(ts[i])
    ensures SetAct !in Run(b, cycle, s, ts).1
    ensures IsTimed(b) && ts != [] ==> !Run(b, cycle, s, ts).0.active
    decreases |ts|
  {
    hide NextCycle, InRange, ProgramFits;
    if ts != [] {
      assert Doubled(ts[0]);
      DoubledNeverSets(b, cycle, Step(b, cycle, s, ts[0]).0, ts[1..]);
    }
  }

  lemma DoubledUnchecked()
    ensures InForce(Timed, Tick(Settings(true, 0, 100, "", ["a", "a"]), 0, 50, "", 1, Unchecked))
    ensures !InForce(Timed, Tick(Settings(true, 0, 100, "", ["a", "a"]), 0, 50, "", 1, Checked([Named("a", true)])))
  {
    var enabling := ["a", "a"];
    assert enabling[0] == enabling[1];
  }

  // ---------- the rule as an object ----------

  datatype Message = Message(action: string, comment: string)

  predicate IsNone(action: string) { action == "none" || action == "NONE" || action == "None" }

  /** The messages one set or reset stands for. */
  function MessagesOf(actions: seq<string>, comment: string): seq<Message> {
    if actions == [] then []
    else
      var n := |actions| - 1;
      MessagesOf(actions[..n], comment) + if IsNone(actions[n]) then [] else [Message(actions[n], comment)]
  }

  class TimedRule {
    const behavior: Behavior
    const cycle: int
    const setActions: seq<string>
    const resetActions: seq<string>
    const comment: string
    var active: bool
    var exec: bool
    var nextcyclestart: int
    ghost var acts: seq<Act>

    ghost function View(): State
      reads this
    {
      State(active, nextcyclestart)
    }

    constructor (behavior: Behavior, cycle: int, setActions: seq<string>, resetActions: seq<string>, comment: string)
      ensures View() == State(false, -1) && acts == [] && this.behavior == behavior && this.cycle == cycle
    {
      this.behavior, this.cycle := behavior, cycle;
      this.setActions, this.resetActions, this.comment := setActions, resetActions, comment;
      active, exec, nextcyclestart, acts := false, false, -1, [];
    }

    method TimeUpdate(t: Tick, res0: seq<Message>) returns (res: seq<Message>)
      modifies this
      ensures var (s, done) := Step(behavior, cycle, old(View()), t);
              && View() == s && acts == old(acts) + done && |done| <= 1
              && res == res0 + (if done == [] then [] else if done[0] == SetAct then MessagesOf(setActions, comment) else MessagesOf(resetActions, comment))
    {
      hide Satisfied, InRange, FirstBoundary;
      res := res0;
      assert res0 + [] == res0 && acts + [] == acts;
      exec := false;
      CycleUpdate(t);
      if !t.settings.enabled {
        if active {
          res := MakeAction(ResetAct, res);
          active := false;
        }
        return;
      }
      var ok := CheckCondition(t.settings.enabling, t.conditions);
      var inRange := InRange(t.dayTime, t.settings.from, t.settings.to);
      var fits := ProgramFits(t.settings.program, t.programName) && t.program != 0;
      if behavior == Timed || behavior == ProgramTimed {
        if (behavior == ProgramTimed ==> fits) && inRange && ok {
          if exec || !active {
            res := MakeAction(SetAct, res);
            active := true;
          }
        } else if active {
          res := MakeAction(ResetAct, res);
          active := false;
        }
      } else if behavior == Cyclic && ok {
        if exec && inRange { res := MakeAction(SetAct, res); }
      } else if behavior == ProgramCyclic && ok {
        if fits && exec && inRange { res := MakeAction(SetAct, res); }
      }
    }

    method CycleUpdate(t: Tick)
      requires !exec
      modifies this`exec, this`nextcyclestart
      ensures (exec, nextcyclestart) == NextCycle(behavior, cycle, old(nextcyclestart), t)
    {
      if (behavior == Timed || behavior == ProgramTimed) && cycle > 0 {
        if nextcyclestart < 0 {
          nextcyclestart := t.now + cycle;
          exec := true;
        } else if t.now > nextcyclestart {
          nextcyclestart := nextcyclestart + cycle;
          exec := true;
        }
      } else if (behavior == Cyclic || behavior == ProgramCyclic) && cycle > 0 {
        if nextcyclestart < 0 {
          nextcyclestart := t.now - t.dayTime;
          while nextcyclestart < t.now
            invariant !exec
            invariant FirstBoundary(nextcyclestart, t.now, cycle) == FirstBoundary(t.now - t.dayTime, t.now, cycle)
          {
            nextcyclestart := nextcyclestart + cycle;
          }
        } else if t.now > nextcyclestart {
          nextcyclestart := nextcyclestart + cycle;
          exec := true;
        }
      }
    }

    method MakeAction(act: Act, res0: seq<Message>) returns (res: seq<Message>)
      modifies this`acts
      ensures acts == old(acts) + [act]
      ensures res == res0 + MessagesOf(if act == SetAct then setActions else resetActions, comment)
    {
      acts := acts + [act];
      var actions := if act == SetAct then setActions else resetActions;
      res := res0;
      assert actions[..0] == [];
      for j := 0 to |actions|
        invariant res == res0 + MessagesOf(actions[..j], comment)
      {
        assert actions[..j + 1][..j] == actions[..j];
        if !IsNone(actions[j]) { res := res + [Message(actions[j], comment)]; }
      }
      assert actions[..|actions|] == actions;
    }
  }
}
