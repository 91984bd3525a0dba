/** The timed rule's ticks in plain terms: exactly when it is on, exactly when it acts in each mode, and
    what the messages of an action are. */
module RuleLaws {
  import opened TimedRule

  /** Everything but the mode's own program test. */
  predicate Admitted(t: Tick) {
    && t.settings.enabled
    && (t.settings.from <= t.dayTime <= t.settings.to || (t.settings.to < 0 && t.settings.from < t.dayTime))
    && (t.conditions.Checked? ==> AllHold(t.settings.enabling, t.conditions.conditions))
  }

  /** No name twice, and for every name an active condition. */
  predicate AllHold(enabling: seq<string>, cs: seq<Named>) {
    && (forall i, j :: 0 <= i < j < |enabling| ==> enabling[i] != enabling[j])
    && forall i :: 0 <= i < |enabling| ==> Named(enabling[i], true) in cs
  }

  lemma HoldsIfIn(cs: seq<Named>, name: string)
    ensures Holds(cs, name) <==> Named(name, true) in cs
  {
    if Holds(cs, name) {
      var i :| 0 <= i < |cs| && cs[i].active && cs[i].name == name;
      assert cs[i] == Named(name, true);
    }
    if Named(name, true) in cs {
      var i :| 0 <= i < |cs| && cs[i] == Named(name, true);
      assert cs[i].active && cs[i].name == name;
    }
  }

  lemma AdmittedMeans(t: Tick)
    ensures Admitted(t) <==> t.settings.enabled && InRange(t.dayTime, t.settings.from, t.settings.to) && Satisfied(t.settings.enabling, t.conditions)
  {
    hide Holds;
    if t.conditions.Checked? {
      forall i | 0 <= i < |t.settings.enabling|
        ensures Holds(t.conditions.conditions, t.settings.enabling[i]) <==> Named(t.settings.enabling[i], true) in t.conditions.conditions
      {
        HoldsIfIn(t.conditions.conditions, t.settings.enabling[i]);
      }
    }
  }

  predicate ProgramRuns(t: Tick) {
    t.program != 0 && (t.settings.program == "" || t.settings.program == "ALL" || t.settings.program == t.programName)
  }

  /** Allowed to act, in the rule's mode. */
  predicate Allowed(b: Behavior, t: Tick) { Admitted(t) && (b == ProgramTimed || b == ProgramCyclic ==> ProgramRuns(t)) }

  lemma InForceMeans(b: Behavior, t: Tick)
    requires b == Timed || b == ProgramTimed
    ensures InForce(b, t) <==> Allowed(b, t)
  {
    AdmittedMeans(t);
    hide Admitted, Satisfied, InRange;
  }

  /** After every tick a timed rule is on exactly when it is enabled, in its window, its conditions hold
      without repetition, and a program_timed one's program runs. */
  lemma OnExactly(b: Behavior, cycle: int, s: State, ts: seq<Tick>)
    requires (b == Timed || b == ProgramTimed) && ts != []
    ensures Run(b, cycle, s, ts).0.active <==> Allowed(b, ts[|ts| - 1])
  {
    hide Run, Allowed, InForce;
    ActiveIffInForce(b, cycle, s, ts);
    InForceMeans(b, ts[|ts| - 1]);
  }

  /** A cycle begins: at the first tick of a rule with a cycle, or past the time laid out for it. */
  predicate CycleBegins(cycle: int, s: State, t: Tick) { cycle > 0 && (s.cycleStart < 0 || t.now > s.cycleStart) }

  /** One tick of a timed rule: it sets when it comes on, and again at every cycle while it is on; it
      resets when it goes off; and it does nothing else. */
  lemma TimedTick(b: Behavior, cycle: int, s: State, t: Tick)
    requires b == Timed || b == ProgramTimed
    ensures Step(b, cycle, s, t).1 ==
            if Allowed(b, t) then if !s.active || CycleBegins(cycle, s, t) then [SetAct] else []
            else if s.active then [ResetAct] else []
    ensures Step(b, cycle, s, t).0.cycleStart ==
            if !CycleBegins(cycle, s, t) then s.cycleStart
            else if s.cycleStart < 0 then t.now + cycle else s.cycleStart + cycle
  {
    InForceMeans(b, t);
    assert !t.settings.enabled ==> !Allowed(b, t);
    hide InForce, Allowed, FirstBoundary;
  }

  /** One tick of a cyclic rule: it sets exactly when a boundary was laid out and lies before now and the
      rule is allowed to act; the next boundary is then a cycle later. */
  lemma CyclicTick(b: Behavior, cycle: int, s: State, t: Tick)
    requires b == Cyclic || b == ProgramCyclic
    ensures SetAct in Step(b, cycle, s, t).1 <==> cycle > 0 && 0 <= s.cycleStart < t.now && Allowed(b, t)
    ensures cycle > 0 && s.cycleStart >= 0 ==>
              Step(b, cycle, s, t).0.cycleStart == if t.now > s.cycleStart then s.cycleStart + cycle else s.cycleStart
    ensures ResetAct in Step(b, cycle, s, t).1 <==> !t.settings.enabled && s.active
  {
    hide FirstBoundary;
    AdmittedMeans(t);
    assert ProgramFits(t.settings.program, t.programName) && t.program != 0 <==> ProgramRuns(t);
    hide Satisfied, InRange, Admitted, ProgramRuns, ProgramFits;
  }

  /** A rule in any other mode only goes off when it is disabled. */
  lemma OtherRests(cycle: int, s: State, t: Tick)
    ensures Step(Other, cycle, s, t) ==
            (State(s.active && t.settings.enabled, s.cycleStart), if s.active && !t.settings.enabled then [ResetAct] else [])
  {}

  /** Ticks that never go back and never skip a cycle. */
  predicate NoGaps(from: int, cycle: int, ts: seq<Tick>)
    decreases |ts|
  {
    ts == [] || (ts[0].now <= from + cycle && NoGapsAfter(ts[0].now, cycle, ts[1..]))
  }

  predicate NoGapsAfter(now: int, cycle: int, ts: seq<Tick>)
    decreases |ts|
  {
    ts == [] || (now <= ts[0].now <= now + cycle && NoGapsAfter(ts[0].now, cycle, ts[1..]))
  }

  lemma GapsLater(now: int, from: int, cycle: int, ts: seq<Tick>)
    requires NoGapsAfter(now, cycle, ts) && now <= from
    ensures NoGaps(from, cycle, ts)
  {}

  lemma {:induction false} NeverBack(now: int, cycle: int, ts: seq<Tick>)
    requires NoGapsAfter(now, cycle, ts) && ts != []
    ensures now <= ts[|ts| - 1].now
    decreases |ts|
  {
    if |ts| > 1 { NeverBack(ts[0].now, cycle, ts[1..]); }
  }

  lemma OneTickOn(b: Behavior, cycle: int, s: State, ts: seq<Tick>)
    requires (b == Cyclic || b == ProgramCyclic) && cycle > 0 && s.cycleStart >= 0 && ts != [] && Allowed(b, ts[0])
    ensures var t := Step(b, cycle, s, ts[0]).0;
            && t.cycleStart == (if ts[0].now > s.cycleStart then s.cycleStart + cycle else s.cycleStart)
            && |SetTimes(b, cycle, s, ts)| == |SetTimes(b, cycle, t, ts[1..])| + if ts[0].now > s.cycleStart then 1 else 0
  {
    hide Allowed;
    CyclicTick(b, cycle, s, ts[0]);
    hide Step;
  }

  /** Every boundary passed gets its set: over a run in which a cyclic rule is allowed to act at every
      tick and no gap is longer than the cycle, the sets are exactly as many as the boundaries passed. */
  lemma {:induction false} EveryBoundarySets(b: Behavior, cycle: int, s: State, ts: seq<Tick>)
    requires (b == Cyclic || b == ProgramCyclic) && cycle > 0 && s.cycleStart >= 0
    requires (forall i :: 0 <= i < |ts| ==> Allowed(b, ts[i])) && NoGaps(s.cycleStart, cycle, ts) && ts != []
    ensures var k, last := |SetTimes(b, cycle, s, ts)|, ts[|ts| - 1].now;
            && last <= Boundary(s.cycleStart, cycle, k)
            && (k > 0 ==> Boundary(s.cycleStart, cycle, k - 1) < last)
    decreases |ts|
  {
    hide Allowed, Step, SetTimes, Boundary;
    OneTickOn(b, cycle, s, ts);
    var t := Step(b, cycle, s, ts[0]).0;
    var k, later := |SetTimes(b, cycle, s, ts)|, |SetTimes(b, cycle, t, ts[1..])|;
    var last := ts[|ts| - 1].now;
    NextBoundary(s.cycleStart, cycle, later);
    if |ts| == 1 {
      assert SetTimes(b, cycle, t, ts[1..]) == [] by { NoTicks(b, cycle, t, ts[1..]); }
    } else {
      GapsLater(ts[0].now, t.cycleStart, cycle, ts[1..]);
      EveryBoundarySets(b, cycle, t, ts[1..]);
      NeverBack(ts[0].now, cycle, ts[1..]);
      if later > 0 { NextBoundary(s.cycleStart, cycle, later - 1); }
    }
  }

  lemma NoTicks(b: Behavior, cycle: int, s: State, ts: seq<Tick>)
    requires ts == []
    ensures SetTimes(b, cycle, s, ts) == []
  {}

  lemma NextBoundary(start: int, cycle: int, i: nat)
    ensures Boundary(start, cycle, i + 1) == Boundary(start + cycle, cycle, i) && Boundary(start, cycle, 0) == start
    ensures Boundary(start + cycle, cycle, 0) == start + cycle
  {}

  // ---------- messages ----------

  /** The actions that are not the word none, in order. */
  function Kept(actions: seq<string>): seq<string> {
    if actions == [] then []
    else (if actions[0] == "none" || actions[0] == "NONE" || actions[0] == "None" then [] else [actions[0]]) + Kept(actions[1..])
  }

  lemma {:induction false} KeptLast(actions: seq<string>)
    requires actions != []
    ensures var n := |actions| - 1;
            Kept(actions) == Kept(actions[..n]) + if actions[n] == "none" || actions[n] == "NONE" || actions[n] == "None" then [] else [actions[n]]
    decreases |actions|
  {
    if |actions| > 1 {
      KeptLast(actions[1..]);
      assert actions[1..][..|actions| - 2] == actions[..|actions| - 1][1..];
    }
  }

  /** An action is one message for each of its parts but the word none, in order, with the comment. */
  lemma {:induction false} MessagesAre(actions: seq<string>, comment: string)
    ensures var ms := MessagesOf(actions, comment);
            && |ms| == |Kept(actions)|
            && forall i :: 0 <= i < |ms| ==> ms[i].action == Kept(actions)[i] && ms[i].comment == comment
    decreases |actions|
  {
    if actions != [] {
      KeptLast(actions);
      MessagesAre(actions[..|actions| - 1], comment);
      hide Kept;
    }
  }
}
