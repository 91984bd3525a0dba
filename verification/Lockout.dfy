/** Two automatic commands to one control are at least its latency apart, whatever operators and
    forced alignments do in between. */
module Lockout {
  import opened LoadControl

  datatype Op =
    | Reading(power: real)
    | Alignment
    | ModeEvent(name: string, value: string)
    | SetControl(name: string, update: Update)
    | ResetControl(name: string)
    | SetThreshold(threshold: Threshold)
    | SetStatus(value: string)

  datatype Timed = Timed(now: real, op: Op)

  datatype Issued = Issued(index: nat, on: bool, time: real)

  function Reset(cs: seq<Control>, name: string): (r: seq<Control>)
    ensures |r| == |cs|
  {
    if name == "" then UpdateEvery(cs, true, name, RESET) else UpdateFirst(cs, name, RESET)
  }

  /** The state after one message, and the automatic commands it caused. */
  function Step(s: State, step: Timed): (r: (State, seq<Command>))
    requires s.Valid()
    ensures r.0.Valid() && |r.0.controls| == |s.controls|
  {
    match step.op
    case Reading(power) => Measure(s, step.now, power)
    case Alignment => (Align(s, step.now), [])
    case ModeEvent(name, value) =>
      (if s.active then s.(controls := UpdateEvery(s.controls, false, name, ModeUpdate(value))) else s, [])
    case SetControl(name, u) => (s.(controls := UpdateFirst(s.controls, name, u)), [])
    case ResetControl(name) => (s.(controls := Reset(s.controls, name)), [])
    case SetThreshold(threshold) => (s.(threshold := threshold), [])
    case SetStatus(value) => (s.(active := value == "ON"), [])
  }

  function Stamp(cmds: seq<Command>, now: real): (r: seq<Issued>)
    ensures |r| == |cmds| && forall i :: 0 <= i < |r| ==> r[i] == Issued(cmds[i].index, cmds[i].on, now)
  {
    seq(|cmds|, i requires 0 <= i < |cmds| => Issued(cmds[i].index, cmds[i].on, now))
  }

  /** All automatic commands of a run, each with its time. */
  function Trace(s: State, steps: seq<Timed>): seq<Issued>
    requires s.Valid()
    decreases |steps|
  {
    if steps == [] then []
    else
      var (t, cmds) := Step(s, steps[0]);
      Stamp(cmds, steps[0].now) + Trace(t, steps[1..])
  }

  predicate ClockRuns(steps: seq<Timed>) { forall i, j :: 0 <= i < j < |steps| ==> steps[i].now <= steps[j].now }

  /** Earlier commands still keep their controls locked out for a latency. */
  predicate Locked(s: State, past: seq<Issued>) {
    forall p :: 0 <= p < |past| ==>
      past[p].index < |s.controls| &&
      s.controls[past[p].index].waitUntil >= past[p].time + s.controls[past[p].index].Lockout()
  }

  predicate Separated(s: State, trace: seq<Issued>) {
    forall p, q :: 0 <= p < q < |trace| && trace[p].index == trace[q].index ==>
      trace[p].index < |s.controls| && trace[q].time >= trace[p].time + s.controls[trace[p].index].Lockout()
  }

  predicate Up(past: seq<Issued>, now: real) { forall p :: 0 <= p < |past| ==> past[p].time <= now }

  /** A step at `now` moves a lockout only to `now` plus the latency, which never changes. */
  predicate Holds(c: Control, d: Control, now: real) {
    SameIdentity(c, d) && (d.waitUntil == c.waitUntil || d.waitUntil == now + c.Lockout())
  }

  lemma StepHolds(s: State, step: Timed)
    requires s.Valid()
    ensures var (t, cmds) := Step(s, step);
            && (forall i :: 0 <= i < |s.controls| ==> Holds(s.controls[i], t.controls[i], step.now))
            && (forall k :: 0 <= k < |cmds| ==>
                  && cmds[k].index < |s.controls|
                  && s.controls[cmds[k].index].waitUntil <= step.now
                  && t.controls[cmds[k].index].waitUntil == step.now + s.controls[cmds[k].index].Lockout())
  {
    match step.op
    case Reading(power) => MeasureHolds(s, step.now, power);
    case Alignment =>
    case ModeEvent(name, value) =>
    case SetControl(name, u) => UpdateHolds(s.controls, name, u, step.now);
    case ResetControl(name) => if name != "" { UpdateHolds(s.controls, name, RESET, step.now); }
    case SetThreshold(threshold) =>
    case SetStatus(value) =>
  }

  lemma MeasureHolds(s: State, now: real, power: real)
    requires s.Valid()
    ensures var (t, cmds) := Measure(s, now, power);
            && (forall i :: 0 <= i < |s.controls| ==> Holds(s.controls[i], t.controls[i], now))
            && (forall k :: 0 <= k < |cmds| ==>
                  && cmds[k].index < |s.controls|
                  && s.controls[cmds[k].index].waitUntil <= now
                  && t.controls[cmds[k].index].waitUntil == now + s.controls[cmds[k].index].Lockout())
  {
    hide StopChoice, StartChoice;
    var t := Learn(s, power);
    assert forall i :: 0 <= i < |s.controls| ==> t.controls[i] == s.controls[i].(estimate := t.controls[i].estimate);
  }

  lemma UpdateHolds(cs: seq<Control>, name: string, u: Update, now: real)
    ensures forall i :: 0 <= i < |cs| ==> Holds(cs[i], UpdateFirst(cs, name, u)[i], now)
  {
    forall i | 0 <= i < |cs| ensures Holds(cs[i], UpdateFirst(cs, name, u)[i], now) {
      UpdateFirstAt(cs, name, u, i);
    }
  }

  lemma StepLocks(s: State, step: Timed, past: seq<Issued>)
    requires s.Valid() && Locked(s, past) && Separated(s, past) && Up(past, step.now)
    ensures var (t, cmds) := Step(s, step);
            var trace := past + Stamp(cmds, step.now);
            Locked(t, trace) && Separated(t, trace) && Up(trace, step.now) && |cmds| <= 1
  {
    hide Step;
    StepHolds(s, step);
    AtMostOne(s, step);
    var (t, cmds) := Step(s, step);
    var trace := past + Stamp(cmds, step.now);
    forall p | 0 <= p < |trace|
      ensures trace[p].index < |t.controls|
      ensures t.controls[trace[p].index].waitUntil >= trace[p].time + t.controls[trace[p].index].Lockout()
    {
      if p < |past| { assert trace[p] == past[p]; }
    }
    forall p, q | 0 <= p < q < |trace| && trace[p].index == trace[q].index
      ensures trace[p].index < |t.controls|
      ensures trace[q].time >= trace[p].time + t.controls[trace[p].index].Lockout()
    {
      assert trace[p] == past[p];
      if q < |past| { assert trace[q] == past[q]; }
    }
  }

  lemma AtMostOne(s: State, step: Timed)
    requires s.Valid()
    ensures |Step(s, step).1| <= 1
  {}

  lemma {:induction false} RunLocks(s: State, steps: seq<Timed>, past: seq<Issued>)
    requires s.Valid() && ClockRuns(steps) && Locked(s, past) && Separated(s, past)
    requires steps != [] ==> Up(past, steps[0].now)
    ensures Separated(s, past + Trace(s, steps))
    decreases |steps|
  {
    hide Step, Locked;
    if steps == [] {
      assert past + [] == past;
    } else {
      var (t, cmds) := Step(s, steps[0]);
      var trace := past + Stamp(cmds, steps[0].now);
      StepLocks(s, steps[0], past);
      RunLocks(t, steps[1..], trace);
      assert trace + Trace(t, steps[1..]) == past + Trace(s, steps);
      StepHolds(s, steps[0]);
    }
  }

  /** Lockout: in every run with a clock that does not go back, two automatic commands to the
      same control are at least its latency apart. */
  lemma LatencyLockout(s: State, steps: seq<Timed>)
    requires s.Valid() && ClockRuns(steps)
    ensures Separated(s, Trace(s, steps))
  {
    hide Trace;
    RunLocks(s, steps, []);
    assert [] + Trace(s, steps) == Trace(s, steps);
  }

  // ---------- the lockout in the configured latency ----------

  /** As a control starts, and as it stays: the latency is not read yet, or is the configured one. */
  predicate AsConfigured(c: Control) { c.latency < 0.0 || c.latency == c.setting }

  lemma ConfiguredLockout(c: Control)
    requires AsConfigured(c)
    ensures c.Lockout() == c.setting
  {}

  predicate AllConfigured(s: State) { forall i :: 0 <= i < |s.controls| ==> AsConfigured(s.controls[i]) }

  predicate KeepsSetting(c: Control, d: Control) { d.setting == c.setting && (AsConfigured(c) ==> AsConfigured(d)) }

  lemma UpdateKeepsSetting(cs: seq<Control>, name: string, u: Update)
    ensures forall i :: 0 <= i < |cs| ==> KeepsSetting(cs[i], UpdateFirst(cs, name, u)[i])
  {
    forall i | 0 <= i < |cs| ensures KeepsSetting(cs[i], UpdateFirst(cs, name, u)[i]) {
      UpdateFirstAt(cs, name, u, i);
    }
  }

  lemma StepKeepsSettings(s: State, step: Timed)
    requires s.Valid()
    ensures forall i :: 0 <= i < |s.controls| ==> KeepsSetting(s.controls[i], Step(s, step).0.controls[i])
  {
    hide StopChoice, StartChoice;
    match step.op
    case Reading(power) =>
    case Alignment =>
    case ModeEvent(name, value) =>
    case SetControl(name, u) => UpdateKeepsSetting(s.controls, name, u);
    case ResetControl(name) => if name != "" { UpdateKeepsSetting(s.controls, name, RESET); }
    case SetThreshold(threshold) =>
    case SetStatus(value) =>
  }

  /** The state a run leads to. */
  function After(s: State, steps: seq<Timed>): (t: State)
    requires s.Valid()
    ensures t.Valid() && |t.controls| == |s.controls|
    decreases |steps|
  {
    if steps == [] then s else After(Step(s, steps[0]).0, steps[1..])
  }

  lemma {:induction false} RunKeepsSettings(s: State, steps: seq<Timed>)
    requires s.Valid()
    ensures forall i :: 0 <= i < |s.controls| ==> KeepsSetting(s.controls[i], After(s, steps).controls[i])
    decreases |steps|
  {
    hide Step;
    if steps != [] {
      StepKeepsSettings(s, steps[0]);
      RunKeepsSettings(Step(s, steps[0]).0, steps[1..]);
    }
  }

  /** Lockout as configured: from controls whose latency has not been read, or was read as configured,
      two automatic commands to a control are at least its configured latency apart in every run, at
      whose end the latencies are still as configured. */
  lemma LatencyAsConfigured(s: State, steps: seq<Timed>)
    requires s.Valid() && ClockRuns(steps) && AllConfigured(s)
    ensures AllConfigured(After(s, steps))
    ensures var trace := Trace(s, steps);
            forall p, q :: 0 <= p < q < |trace| && trace[p].index == trace[q].index ==>
              trace[p].index < |s.controls| && trace[q].time >= trace[p].time + s.controls[trace[p].index].setting
  {
    hide Trace, After;
    LatencyLockout(s, steps);
    RunKeepsSettings(s, steps);
    forall i | 0 <= i < |s.controls| ensures s.controls[i].Lockout() == s.controls[i].setting {
      ConfiguredLockout(s.controls[i]);
    }
  }
}
