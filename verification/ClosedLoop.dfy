/** The scheduler measuring the loads it switches: safety, number of commands, shedding order. */
module ClosedLoop {
  import opened LoadControl

  // ---------- the plant ----------

  /** Power drawn by the loads that are on. */
  function Drawn(cs: seq<Control>, loads: seq<real>): real
    requires |loads| == |cs|
  {
    if cs == [] then 0.0
    else
      var n := |cs| - 1;
      Drawn(cs[..n], loads[..n]) + if cs[n].Running() then loads[n] else 0.0
  }

  function Power(base: real, loads: seq<real>, cs: seq<Control>): real
    requires |loads| == |cs|
  {
    base + Drawn(cs, loads)
  }

  function CountOn(cs: seq<Control>): (n: nat)
    ensures n <= |cs|
  {
    if cs == [] then 0 else CountOn(cs[..|cs| - 1]) + if cs[|cs| - 1].Running() then 1 else 0
  }

  lemma {:induction false} OneChange(cs: seq<Control>, loads: seq<real>, m: nat, d: Control)
    requires |loads| == |cs| && m < |cs|
    ensures var before, after := if cs[m].Running() then loads[m] else 0.0, if d.Running() then loads[m] else 0.0;
            Drawn(cs[m := d], loads) == Drawn(cs, loads) - before + after
    ensures CountOn(cs[m := d]) == CountOn(cs) - (if cs[m].Running() then 1 else 0) + (if d.Running() then 1 else 0)
    decreases |cs|
  {
    var n := |cs| - 1;
    if m == n {
      assert cs[m := d][..n] == cs[..n];
    } else {
      OneChange(cs[..n], loads[..n], m, d);
      assert cs[m := d][..n] == cs[..n][m := d];
    }
  }

  lemma {:induction false} SameModes(cs: seq<Control>, ds: seq<Control>, loads: seq<real>)
    requires |ds| == |cs| == |loads| && forall i :: 0 <= i < |cs| ==> (ds[i].Running() <==> cs[i].Running())
    ensures Drawn(ds, loads) == Drawn(cs, loads) && CountOn(ds) == CountOn(cs)
    decreases |cs|
  {
    if cs != [] {
      var n := |cs| - 1;
      assert ds[n].Running() <==> cs[n].Running();
      SameModes(cs[..n], ds[..n], loads[..n]);
    }
  }

  // ---------- the closed loop ----------

  /** A step of the loop: a measurement of the actual power, or a forced alignment. */
  datatype Step = Measured(now: real) | Alignment(now: real)

  function Take(s: State, base: real, loads: seq<real>, step: Step): (r: (State, seq<Command>))
    requires s.Valid() && |loads| == |s.controls|
    ensures r.0.Valid() && |r.0.controls| == |s.controls|
  {
    match step
    case Measured(now) => Measure(s, now, Power(base, loads, s.controls))
    case Alignment(now) => (Align(s, now), [])
  }

  /** The state after a run, and the automatic commands it issued. */
  function Run(s: State, base: real, loads: seq<real>, steps: seq<Step>): (r: (State, seq<Command>))
    requires s.Valid() && |loads| == |s.controls|
    ensures r.0.Valid() && |r.0.controls| == |s.controls|
    decreases |steps|
  {
    if steps == [] then (s, [])
    else
      var (t, now) := Take(s, base, loads, steps[0]);
      var (u, later) := Run(t, base, loads, steps[1..]);
      (u, now + later)
  }

  /** The estimate is good enough for the load: at least nine tenths of it, if it draws at all. */
  predicate Covers(estimate: real, load: real) { load <= 0.0 || load * 0.9 <= estimate }

  /** This is exactly what the 0.9 headroom needs: whenever a start is allowed, it fits. */
  lemma HeadroomExact(estimate: real, load: real)
    ensures Covers(estimate, load) <==>
            forall available: real :: available > 0.0 && available * 0.9 >= estimate ==> Fits(load, available)
  {
    if !Covers(estimate, load) {
      var least := if estimate > 0.0 then estimate / 0.9 else 0.0;
      var available := (least + load) / 2.0;
      assert available > 0.0 && available * 0.9 >= estimate && !Fits(load, available);
    }
  }

  predicate Fits(load: real, available: real) { load <= available }

  /** The power after one measurement by a scheduler of one control, which may be started. */
  function PowerAfter(c: Control, load: real, base: real, target: real, now: real): real {
    var s := State(true, [c], Limit(target), 0, 0.0, 0.0);
    Power(base, [load], Take(s, base, [load], Measured(now)).0.controls)
  }

  lemma OneControl(c: Control, load: real, base: real, target: real, now: real)
    requires c.Enabled() && !c.Running() && c.priority >= 0 && c.waitUntil <= now && base < target
    ensures Power(base, [load], [c]) == base
    ensures PowerAfter(c, load, base, target, now) == if (target - base) * 0.9 >= c.Load() then base + load else base
  {
    var s := State(true, [c], Limit(target), 0, 0.0, 0.0);
    var available := target - base;
    assert [c][..0] == [] && [load][..0] == [];
    DrawnByOne(c, load);
    assert StartChoice([c], now, available) == (if c.MayStart(now, available) then Pick(0) else Nobody) by {
      StartChoiceNext([c], now, available, 0);
      assert [c][..1] == [c];
      NobodyAmongNone(now, available);
    }
    var d := c.Start(now, false);
    assert [c][0 := d] == [d];
    DrawnByOne(d, load);
  }

  lemma DrawnByOne(c: Control, load: real)
    ensures Drawn([c], [load]) == if c.Running() then load else 0.0
  {
    assert [c][..0] == [] && [load][..0] == [];
  }

  lemma NobodyAmongNone(now: real, available: real)
    ensures StartChoice([], now, available).Nobody?
  {}

  /** The headroom in the scheduler: with a control that may be started, no target lets one
      measurement take the power from below the target to above it, exactly when the control's
      estimate is at least nine tenths of its load or it draws nothing. */
  lemma HeadroomNeeded(c: Control, load: real, base: real, now: real)
    requires c.Enabled() && !c.Running() && c.priority >= 0 && c.waitUntil <= now
    ensures Power(base, [load], [c]) == base
    ensures (forall target: real :: base < target ==> PowerAfter(c, load, base, target, now) <= target) <==> Covers(c.Load(), load)
  {
    hide PowerAfter, Drawn;
    HeadroomExact(c.Load(), load);
    OneControl(c, load, base, base + 1.0, now);
    if Covers(c.Load(), load) {
      forall target: real | base < target ensures PowerAfter(c, load, base, target, now) <= target {
        OneControl(c, load, base, target, now);
        assert (target - base) * 0.9 >= c.Load() ==> Fits(load, target - base);
      }
    } else {
      var available :| available > 0.0 && available * 0.9 >= c.Load() && !Fits(load, available);
      OneControl(c, load, base, base + available, now);
      assert base + available - base == available;
    }
  }

  /** Estimates cover the true loads, and a stop not yet learned from still explains the drop. */
  predicate Covered(s: State, base: real, loads: seq<real>)
    requires s.Valid() && |loads| == |s.controls|
  {
    && (forall i :: 0 <= i < |loads| ==> Covers(s.controls[i].Load(), loads[i]))
    && (s.stopTime > 0.0 ==>
          s.atStop - Power(base, loads, s.controls) == loads[s.lastStopped])
  }

  lemma LearnKeepsCover(s: State, base: real, loads: seq<real>)
    requires s.Valid() && |loads| == |s.controls| && Covered(s, base, loads)
    ensures var t := Learn(s, Power(base, loads, s.controls));
            && t.Valid() && |t.controls| == |s.controls| && Covered(t, base, loads) && t.stopTime <= 0.0
            && Power(base, loads, t.controls) == Power(base, loads, s.controls)
            && CountOn(t.controls) == CountOn(s.controls)
  {
    var t := Learn(s, Power(base, loads, s.controls));
    SameModes(s.controls, t.controls, loads);
  }

  lemma ReduceEffect(s: State, base: real, loads: seq<real>, now: real)
    requires s.Valid() && |loads| == |s.controls| && Covered(s, base, loads) && s.stopTime <= 0.0
    ensures var power := Power(base, loads, s.controls);
            var (t, cmds) := Reduce(s, now, power);
            && t.Valid() && |t.controls| == |s.controls| && Covered(t, base, loads)
            && (cmds == [] ==> t == s)
            && (cmds != [] ==> CountOn(t.controls) == CountOn(s.controls) - 1)
  {
    var choice := StopChoice(s.controls, now);
    if choice.Pick? {
      OneChange(s.controls, loads, choice.index, s.controls[choice.index].Stop(now, false));
    }
  }

  /** The 0.9 headroom: a start never takes the power above the target. */
  lemma IncreaseEffect(s: State, base: real, loads: seq<real>, now: real, target: real)
    requires s.Valid() && |loads| == |s.controls| && Covered(s, base, loads) && s.stopTime <= 0.0
    requires Power(base, loads, s.controls) < target
    ensures var (t, cmds) := Increase(s, now, target - Power(base, loads, s.controls));
            && t.Valid() && |t.controls| == |s.controls| && Covered(t, base, loads)
            && Power(base, loads, t.controls) <= target
            && (cmds == [] ==> t == s)
            && (cmds != [] ==> CountOn(t.controls) == CountOn(s.controls) + 1)
  {
    var available := target - Power(base, loads, s.controls);
    var choice := StartChoice(s.controls, now, available);
    if choice.Pick? {
      OneChange(s.controls, loads, choice.index, s.controls[choice.index].Start(now, false));
      assert Covers(s.controls[choice.index].Load(), loads[choice.index]);
    }
  }

  lemma AlignKeepsModes(s: State, now: real, loads: seq<real>)
    requires |loads| == |s.controls|
    ensures |Align(s, now).controls| == |s.controls|
    ensures Drawn(Align(s, now).controls, loads) == Drawn(s.controls, loads)
    ensures CountOn(Align(s, now).controls) == CountOn(s.controls)
  {
    SameModes(s.controls, Align(s, now).controls, loads);
  }

  /** How many automatic commands a state can still lead to, at most. */
  function Budget(s: State, base: real, loads: seq<real>): nat
    requires |loads| == |s.controls|
  {
    if Power(base, loads, s.controls) <= s.Target() then |s.controls| - CountOn(s.controls)
    else |s.controls| + CountOn(s.controls)
  }

  lemma StepEffect(s: State, base: real, loads: seq<real>, step: Step)
    requires s.Valid() && |loads| == |s.controls| && Covered(s, base, loads)
    ensures var (t, cmds) := Take(s, base, loads, step);
            && Covered(t, base, loads) && t.Target() == s.Target()
            && (Power(base, loads, s.controls) <= s.Target() ==> Power(base, loads, t.controls) <= t.Target())
            && Budget(t, base, loads) + |cmds| <= Budget(s, base, loads)
  {
    if s.active {
      match step
      case Alignment(now) =>
        AlignKeepsModes(s, now, loads);
      case Measured(now) => MeasureEffect(s, base, loads, now);
    }
  }

  lemma MeasureEffect(s: State, base: real, loads: seq<real>, now: real)
    requires s.Valid() && |loads| == |s.controls| && Covered(s, base, loads) && s.active
    ensures var (t, cmds) := Measure(s, now, Power(base, loads, s.controls));
            && Covered(t, base, loads) && t.Target() == s.Target()
            && (Power(base, loads, s.controls) <= s.Target() ==> Power(base, loads, t.controls) <= t.Target())
            && Budget(t, base, loads) + |cmds| <= Budget(s, base, loads)
  {
    hide Covered, Power, CountOn, Reduce, Increase, Learn;
    var power := Power(base, loads, s.controls);
    LearnKeepsCover(s, base, loads);
    var t := Learn(s, power);
    TargetsKept(s, t, now, power);
    if power > s.Target() {
      ReduceEffect(t, base, loads, now);
    } else if power < s.Target() {
      IncreaseEffect(t, base, loads, now, s.Target());
    }
  }

  lemma TargetsKept(s: State, t: State, now: real, power: real)
    requires s.Valid() && t == Learn(s, power)
    ensures t.threshold == s.threshold && Reduce(t, now, power).0.threshold == s.threshold
    ensures Increase(t, now, s.Target() - power).0.threshold == s.threshold
    ensures |Reduce(t, now, power).1| <= 1 && |Increase(t, now, s.Target() - power).1| <= 1
  {
    hide StopChoice, StartChoice;
  }

  /** Closed-loop safety and termination.  If the estimates start at or above nine tenths of the true
      loads, then once the power is at or below the target it stays there, learned estimates included;
      and a run of any length issues at most two automatic commands for each control. */
  lemma {:induction false} ClosedLoopSafe(s: State, base: real, loads: seq<real>, steps: seq<Step>)
    requires s.Valid() && |loads| == |s.controls| && Covered(s, base, loads)
    ensures var (t, cmds) := Run(s, base, loads, steps);
            && Covered(t, base, loads) && t.Target() == s.Target()
            && (Power(base, loads, s.controls) <= s.Target() ==> Power(base, loads, t.controls) <= s.Target())
            && |cmds| <= Budget(s, base, loads) <= 2 * |s.controls|
            && Budget(t, base, loads) + |cmds| <= Budget(s, base, loads)
    decreases |steps|
  {
    hide Covered, Take, Power, CountOn;
    if steps != [] {
      StepEffect(s, base, loads, steps[0]);
      ClosedLoopSafe(Take(s, base, loads, steps[0]).0, base, loads, steps[1..]);
    }
  }

  // ---------- shedding order ----------

  datatype Reading = Reading(now: real, power: real)

  /** Sheddable by the scheduler, now or after its latency. */
  predicate Sheddable(c: Control) { c.Enabled() && c.Running() && c.priority < PRIORITY_LIMIT }

  /** Order of shedding: by priority, and by position among equals. */
  predicate Before(cs: seq<Control>, i: nat, j: nat)
    requires i < |cs| && j < |cs|
  {
    cs[i].priority < cs[j].priority || (cs[i].priority == cs[j].priority && i < j)
  }

  function CountSheddable(cs: seq<Control>): (n: nat)
    ensures n <= |cs|
  {
    if cs == [] then 0 else CountSheddable(cs[..|cs| - 1]) + if Sheddable(cs[|cs| - 1]) then 1 else 0
  }

  lemma {:induction false} CountSheddableChange(cs: seq<Control>, m: nat, d: Control)
    requires m < |cs|
    ensures CountSheddable(cs[m := d]) == CountSheddable(cs) - (if Sheddable(cs[m]) then 1 else 0) + (if Sheddable(d) then 1 else 0)
    decreases |cs|
  {
    var n := |cs| - 1;
    if m == n {
      assert cs[m := d][..n] == cs[..n];
    } else {
      CountSheddableChange(cs[..n], m, d);
      assert cs[m := d][..n] == cs[..n][m := d];
    }
  }

  lemma {:induction false} NoneSheddable(cs: seq<Control>)
    requires forall i :: 0 <= i < |cs| ==> !Sheddable(cs[i])
    ensures CountSheddable(cs) == 0
    decreases |cs|
  {
    if cs != [] { NoneSheddable(cs[..|cs| - 1]); }
  }

  lemma {:induction false} SomeSheddable(cs: seq<Control>, i: nat)
    requires i < |cs| && Sheddable(cs[i])
    ensures CountSheddable(cs) > 0
    decreases |cs|
  {
    if i < |cs| - 1 { SomeSheddable(cs[..|cs| - 1], i); }
  }

  lemma {:induction false} SameSheddable(cs: seq<Control>, ds: seq<Control>)
    requires |ds| == |cs| && forall i :: 0 <= i < |cs| ==> (Sheddable(ds[i]) <==> Sheddable(cs[i]))
    ensures CountSheddable(ds) == CountSheddable(cs)
    decreases |cs|
  {
    if cs != [] {
      var n := |cs| - 1;
      assert Sheddable(ds[n]) <==> Sheddable(cs[n]);
      SameSheddable(cs[..n], ds[..n]);
    }
  }

  /** The controls stopped by a list of readings, in order. */
  function Shed(s: State, rs: seq<Reading>): (r: (State, seq<nat>))
    requires s.Valid()
    ensures r.0.Valid() && |r.0.controls| == |s.controls|
    decreases |rs|
  {
    if rs == [] then (s, [])
    else
      var (t, cmds) := Measure(s, rs[0].now, rs[0].power);
      var (u, later) := Shed(t, rs[1..]);
      (u, (if cmds == [] then [] else [cmds[0].index]) + later)
  }

  predicate Overload(s: State, rs: seq<Reading>) {
    && (forall i :: 0 <= i < |rs| ==> rs[i].power > s.Target())
    && (forall i, j :: 0 <= i < j < |rs| ==> rs[i].now <= rs[j].now)
  }

  /** Every sheddable control may be stopped as soon as the first reading comes. */
  predicate Ready(s: State, rs: seq<Reading>) {
    rs != [] ==> forall i :: 0 <= i < |s.controls| && Sheddable(s.controls[i]) ==> s.controls[i].waitUntil <= rs[0].now
  }

  /** One reading of an overload stopped `m`, the first in shedding order, and nothing else. */
  predicate Stopped(s: State, t: State, m: nat) {
    && |t.controls| == |s.controls|
    && m < |s.controls| && Sheddable(s.controls[m])
    && (forall i :: 0 <= i < |s.controls| && i != m && Sheddable(s.controls[i]) ==> Before(s.controls, m, i))
    && (forall i :: 0 <= i < |s.controls| ==> (Sheddable(t.controls[i]) <==> i != m && Sheddable(s.controls[i])))
    && (forall i :: 0 <= i < |s.controls| && i != m ==> t.controls[i].waitUntil == s.controls[i].waitUntil)
    && (forall i :: 0 <= i < |s.controls| ==> t.controls[i].priority == s.controls[i].priority)
    && CountSheddable(t.controls) == CountSheddable(s.controls) - 1
  }

  /** One reading of an overload found nothing to stop. */
  predicate NoneLeft(s: State, t: State) {
    && |t.controls| == |s.controls|
    && (forall i :: 0 <= i < |s.controls| ==> !Sheddable(s.controls[i]) && !Sheddable(t.controls[i]))
    && CountSheddable(s.controls) == 0 && CountSheddable(t.controls) == 0
  }

  lemma LearnKeepsSheddable(s: State, power: real)
    requires s.Valid()
    ensures var t := Learn(s, power);
            && |t.controls| == |s.controls| && t.active == s.active && t.threshold == s.threshold
            && CountSheddable(t.controls) == CountSheddable(s.controls)
            && forall i :: 0 <= i < |s.controls| ==>
                 && (Sheddable(t.controls[i]) <==> Sheddable(s.controls[i]))
                 && t.controls[i] == s.controls[i].(estimate := t.controls[i].estimate)
  {
    var t := Learn(s, power);
    SameSheddable(s.controls, t.controls);
  }

  lemma ShedStep(s: State, now: real, power: real)
    requires s.Valid() && s.active && power > s.Target()
    requires forall i :: 0 <= i < |s.controls| && Sheddable(s.controls[i]) ==> s.controls[i].waitUntil <= now
    ensures var (t, cmds) := Measure(s, now, power);
            && t.active && t.threshold == s.threshold
            && (cmds == [] ==> NoneLeft(s, t))
            && (cmds != [] ==> !cmds[0].on && Stopped(s, t, cmds[0].index))
  {
    hide Learn, CountSheddable;
    LearnKeepsSheddable(s, power);
    var t := Learn(s, power);
    var choice := StopChoice(t.controls, now);
    if choice.Pick? {
      CountSheddableChange(t.controls, choice.index, t.controls[choice.index].Stop(now, false));
      assert forall i :: 0 <= i < |t.controls| && Sheddable(t.controls[i]) ==> t.controls[i].MayStop(now);
    } else {
      assert forall i :: 0 <= i < |s.controls| && Sheddable(t.controls[i]) ==> t.controls[i].MayStop(now);
      assert forall i :: 0 <= i < |s.controls| ==> !Sheddable(t.controls[i]);
      NoneSheddable(t.controls);
    }
  }

  lemma ReadyAfter(s: State, t: State, rs: seq<Reading>)
    requires rs != [] && Overload(s, rs) && Ready(s, rs) && t.threshold == s.threshold
    requires NoneLeft(s, t) || exists m :: Stopped(s, t, m)
    ensures Overload(t, rs[1..]) && Ready(t, rs[1..])
  {
    hide CountSheddable;
  }

  /** k readings stop the smaller of k and the number of sheddable controls. */
  lemma {:induction false} ShedsOneEach(s: State, rs: seq<Reading>)
    requires s.Valid() && s.active && Overload(s, rs) && Ready(s, rs)
    ensures |Shed(s, rs).1| == if |rs| < CountSheddable(s.controls) then |rs| else CountSheddable(s.controls)
    decreases |rs|
  {
    hide Measure, Overload, Ready;
    if rs != [] {
      assert rs[0].power > s.Target() && (forall i :: 0 <= i < |s.controls| && Sheddable(s.controls[i]) ==> s.controls[i].waitUntil <= rs[0].now) by {
        FirstReading(s, rs);
      }
      ShedStep(s, rs[0].now, rs[0].power);
      var (t, cmds) := Measure(s, rs[0].now, rs[0].power);
      if cmds != [] { SomeSheddable(s.controls, cmds[0].index); }
      ReadyAfter(s, t, rs);
      ShedsOneEach(t, rs[1..]);
    }
  }

  lemma FirstReading(s: State, rs: seq<Reading>)
    requires rs != [] && Overload(s, rs) && Ready(s, rs)
    ensures rs[0].power > s.Target()
    ensures forall i :: 0 <= i < |s.controls| && Sheddable(s.controls[i]) ==> s.controls[i].waitUntil <= rs[0].now
  {}

  predicate StoppedInOrder(s: State, t: State, stopped: seq<nat>) {
    && |t.controls| == |s.controls|
    && (forall p :: 0 <= p < |stopped| ==>
          stopped[p] < |s.controls| && Sheddable(s.controls[stopped[p]]) && !Sheddable(t.controls[stopped[p]]))
    && (forall p, q :: 0 <= p < q < |stopped| ==> Before(s.controls, stopped[p], stopped[q]))
    && (forall p, i :: 0 <= p < |stopped| && 0 <= i < |s.controls| && Sheddable(t.controls[i]) ==>
          Before(s.controls, stopped[p], i))
    && (forall i :: 0 <= i < |s.controls| && Sheddable(t.controls[i]) ==> Sheddable(s.controls[i]))
  }

  lemma StoppedFirst(s: State, t: State, u: State, m: nat, later: seq<nat>)
    requires Stopped(s, t, m) && StoppedInOrder(t, u, later)
    ensures StoppedInOrder(s, u, [m] + later)
  {
    hide CountSheddable, Sheddable;
    assert forall i, j :: 0 <= i < |s.controls| && 0 <= j < |s.controls| ==> (Before(t.controls, i, j) <==> Before(s.controls, i, j));
    var all := [m] + later;
    forall p | 0 <= p < |all|
      ensures all[p] < |s.controls| && Sheddable(s.controls[all[p]]) && !Sheddable(u.controls[all[p]])
    {
      if p > 0 { assert all[p] == later[p - 1]; }
    }
    forall p, q | 0 <= p < q < |all| ensures Before(s.controls, all[p], all[q]) {
      assert all[q] == later[q - 1];
      if p > 0 { assert all[p] == later[p - 1]; }
    }
  }

  /** Shedding order.  Under sustained overload with latencies elapsed, the controls stopped go in
      order of priority, each sheddable when stopped, and no control that stays on comes before
      one that was stopped. */
  lemma {:induction false} ShedsInOrder(s: State, rs: seq<Reading>)
    requires s.Valid() && s.active && Overload(s, rs) && Ready(s, rs)
    ensures StoppedInOrder(s, Shed(s, rs).0, Shed(s, rs).1)
    decreases |rs|
  {
    hide Measure, Overload, Ready, Stopped, StoppedInOrder;
    if rs == [] {
      assert StoppedInOrder(s, s, []) by { NothingStopped(s); }
    } else {
      FirstReading(s, rs);
      ShedStep(s, rs[0].now, rs[0].power);
      var (t, cmds) := Measure(s, rs[0].now, rs[0].power);
      ReadyAfter(s, t, rs);
      ShedsInOrder(t, rs[1..]);
      var (u, later) := Shed(t, rs[1..]);
      if cmds != [] {
        StoppedFirst(s, t, u, cmds[0].index, later);
      } else {
        assert [] + later == later;
        NothingToStop(s, t, u, later);
      }
    }
  }

  // ---------- shedding in the plant ----------

  predicate InTimeOrder(times: seq<real>) { forall i, j :: 0 <= i < j < |times| ==> times[i] <= times[j] }

  /** Every sheddable control may be stopped from the first of these times on. */
  predicate LatenciesOver(s: State, times: seq<real>) {
    times != [] ==> forall i :: 0 <= i < |s.controls| && Sheddable(s.controls[i]) ==> s.controls[i].waitUntil <= times[0]
  }

  function Measurements(times: seq<real>): (steps: seq<Step>)
    ensures |steps| == |times| && forall i :: 0 <= i < |times| ==> steps[i] == Measured(times[i])
  {
    seq(|times|, i requires 0 <= i < |times| => Measured(times[i]))
  }

  /** Shedding reaches the target: with latencies elapsed, some number of measurements, no more
      than there are sheddable controls, brings the power to the target or below it, or leaves
      nothing sheddable; whatever the loads and however wrong the estimates. */
  lemma {:induction false} ShedsToTarget(s: State, base: real, loads: seq<real>, times: seq<real>) returns (k: nat)
    requires s.Valid() && s.active && |loads| == |s.controls|
    requires |times| == CountSheddable(s.controls) && InTimeOrder(times) && LatenciesOver(s, times)
    ensures k <= |times|
    ensures var t := Run(s, base, loads, Measurements(times[..k])).0;
            Power(base, loads, t.controls) <= s.Target() || CountSheddable(t.controls) == 0
    decreases |times|
  {
    hide Measure, Power, CountSheddable, Measurements;
    k := 0;
    assert Measurements(times[..0]) == [];
    if times != [] && Power(base, loads, s.controls) > s.Target() {
      var power := Power(base, loads, s.controls);
      ShedStep(s, times[0], power);
      var (t, cmds) := Measure(s, times[0], power);
      StillOver(s, t, cmds[0].index, times);
      var j := ShedsToTarget(t, base, loads, times[1..]);
      k := j + 1;
      assert times[..k][1..] == times[1..][..j];
      assert times[..k][0] == times[0];
      FirstMeasured(s, base, loads, times[..k]);
    }
  }

  lemma FirstMeasured(s: State, base: real, loads: seq<real>, times: seq<real>)
    requires s.Valid() && |loads| == |s.controls| && times != []
    ensures var t := Measure(s, times[0], Power(base, loads, s.controls)).0;
            Run(s, base, loads, Measurements(times)).0 == Run(t, base, loads, Measurements(times[1..])).0
  {
    hide Measure, Power;
    assert Measurements(times)[1..] == Measurements(times[1..]);
  }

  lemma StillOver(s: State, t: State, m: nat, times: seq<real>)
    requires times != [] && Stopped(s, t, m) && LatenciesOver(s, times) && InTimeOrder(times)
    ensures LatenciesOver(t, times[1..]) && InTimeOrder(times[1..])
  {
    hide CountSheddable;
  }

  lemma NothingStopped(s: State)
    ensures StoppedInOrder(s, s, [])
  {}

  lemma NothingToStop(s: State, t: State, u: State, later: seq<nat>)
    requires NoneLeft(s, t) && StoppedInOrder(t, u, later)
    ensures StoppedInOrder(s, u, later)
  {
    hide CountSheddable;
  }
}
