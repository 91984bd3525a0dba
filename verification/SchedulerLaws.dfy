/** The scheduler's steps in plain terms: which control a reading commands and when, what the devices are
    told, what is learned, and what operators change. */
module SchedulerLaws {
  import opened LoadControl
  import opened ClosedLoop
  import Lockout
  import S = Scheduler

  // ---------- which control is commanded ----------

  /** May be stopped automatically now. */
  predicate Stoppable(c: Control, now: real) { c.status == "ON" && c.mode == "ON" && c.waitUntil <= now && c.priority < 1000 }

  /** May be started automatically now, with nine tenths of what is available for its load. */
  predicate Startable(c: Control, now: real, available: real) {
    && c.status == "ON" && c.mode != "ON" && c.waitUntil <= now && c.priority >= 0
    && (if c.estimate == 0.0 then c.nominal else c.estimate) <= available * 0.9
  }

  /** The power aimed at: ten thousand if no limit is set. */
  function Aim(s: State): real {
    match s.threshold
    case Unset => 10000.0
    case Limit(value) => value
  }

  /** A reading above the target stops exactly one control if any may be stopped: one of least priority,
      the first of those; and it stops nothing otherwise. */
  lemma StopsExactly(s: State, now: real, power: real)
    requires s.Valid() && s.active && power > Aim(s)
    ensures var (t, cmds) := Measure(s, now, power);
            if exists i :: 0 <= i < |s.controls| && Stoppable(s.controls[i], now) then
              && |cmds| == 1 && !cmds[0].on
              && var m := cmds[0].index;
                 && m < |s.controls| && Stoppable(s.controls[m], now)
                 && (forall i :: 0 <= i < |s.controls| && Stoppable(s.controls[i], now) ==>
                       s.controls[m].priority < s.controls[i].priority || (s.controls[m].priority == s.controls[i].priority && m <= i))
                 && t.controls[m].mode == "OFF" && t.lastStopped == m && t.stopTime == now && t.atStop == power
                 && forall i :: 0 <= i < |s.controls| && i != m ==> t.controls[i].mode == s.controls[i].mode
            else
              cmds == [] && forall i :: 0 <= i < |s.controls| ==> t.controls[i].mode == s.controls[i].mode
  {
    var t := Learn(s, power);
    assert forall i :: 0 <= i < |s.controls| ==> t.controls[i] == s.controls[i].(estimate := t.controls[i].estimate);
    assert forall i :: 0 <= i < |s.controls| ==> (Stoppable(t.controls[i], now) <==> Stoppable(s.controls[i], now));
    assert forall i :: 0 <= i < |t.controls| ==> (Stoppable(t.controls[i], now) <==> t.controls[i].MayStop(now) && t.controls[i].priority < 1000);
    var choice := StopChoice(t.controls, now);
    hide StopChoice, Learn;
  }

  /** A reading below the target starts exactly one control if any may be started, with what was just
      learned: one of greatest priority, the last of those; and it starts nothing otherwise. */
  lemma StartsExactly(s: State, now: real, power: real)
    requires s.Valid() && s.active && power < Aim(s)
    ensures var (t, cmds) := Measure(s, now, power);
            var cs, available := Learn(s, power).controls, Aim(s) - power;
            if exists i :: 0 <= i < |cs| && Startable(cs[i], now, available) then
              && |cmds| == 1 && cmds[0].on
              && var m := cmds[0].index;
                 && m < |cs| && Startable(cs[m], now, available)
                 && (forall i :: 0 <= i < |cs| && Startable(cs[i], now, available) ==>
                       cs[m].priority > cs[i].priority || (cs[m].priority == cs[i].priority && m >= i))
                 && t.controls[m].mode == "ON"
                 && forall i :: 0 <= i < |cs| && i != m ==> t.controls[i] == cs[i]
            else
              cmds == [] && t.controls == cs
  {
    var cs, available := Learn(s, power).controls, Aim(s) - power;
    assert forall i :: 0 <= i < |cs| ==> (Startable(cs[i], now, available) <==> cs[i].MayStart(now, available) && cs[i].priority >= 0);
    var choice := StartChoice(cs, now, available);
    hide StartChoice, Learn;
  }

  /** An inactive scheduler, or one that reads exactly its target, commands nothing. */
  lemma QuietReadings(s: State, now: real, power: real)
    requires s.Valid() && (!s.active || power == Aim(s))
    ensures Measure(s, now, power).1 == []
  {}

  // ---------- what the devices are told ----------

  /** Every command of a reading tells the control's device the control's new mode. */
  lemma MessagesTellModes(s: State, now: real, power: real, devices: seq<string>)
    requires s.Valid() && |devices| == |s.controls|
    ensures var (t, cmds) := Measure(s, now, power);
            && (forall k :: 0 <= k < |cmds| ==> cmds[k].index < |devices|)
            && forall k :: 0 <= k < |cmds| ==> S.Sent(cmds, devices)[k] == S.Message(devices[cmds[k].index], t.controls[cmds[k].index].mode)
  {
    hide StopChoice, StartChoice;
  }

  lemma AlignmentLast(cs: seq<Control>)
    requires cs != []
    ensures var n := |cs| - 1;
            AlignCommands(cs) ==
            AlignCommands(cs[..n]) +
            if cs[n].status == "ON" && (cs[n].mode == "ON" || cs[n].mode == "OFF") then [Command(n, cs[n].mode == "ON")] else []
  {}

  lemma {:induction false} AlignmentSound(cs: seq<Control>)
    ensures var cmds := AlignCommands(cs);
            && (forall k :: 0 <= k < |cmds| ==>
                  var c := cs[cmds[k].index]; c.status == "ON" && c.mode == if cmds[k].on then "ON" else "OFF")
            && (forall j, k :: 0 <= j < k < |cmds| ==> cmds[j].index < cmds[k].index)
    decreases |cs|
  {
    if cs != [] {
      var n := |cs| - 1;
      AlignmentSound(cs[..n]);
      AlignmentLast(cs);
      var before, cmds := AlignCommands(cs[..n]), AlignCommands(cs);
      assert forall k :: 0 <= k < |before| ==> before[k].index < n && cs[..n][before[k].index] == cs[before[k].index];
      hide AlignCommands;
      forall k | 0 <= k < |cmds|
        ensures var c := cs[cmds[k].index]; c.status == "ON" && c.mode == if cmds[k].on then "ON" else "OFF"
      {
        if k < |before| { assert cmds[k] == before[k]; }
      }
    } else {
      assert AlignCommands(cs) == [];
    }
  }

  lemma {:induction false} AlignmentComplete(cs: seq<Control>, i: nat)
    requires i < |cs| && cs[i].status == "ON" && (cs[i].mode == "ON" || cs[i].mode == "OFF")
    ensures exists k :: 0 <= k < |AlignCommands(cs)| && AlignCommands(cs)[k].index == i
    decreases |cs|
  {
    var n := |cs| - 1;
    var before, cmds := AlignCommands(cs[..n]), AlignCommands(cs);
    AlignmentLast(cs);
    hide AlignCommands;
    if i < n {
      AlignmentComplete(cs[..n], i);
      var k :| 0 <= k < |before| && before[k].index == i;
      assert cmds[k].index == i;
    } else {
      assert cmds[|before|].index == i;
    }
  }

  /** Told of an alignment: each enabled control that is on or off, once, in order, its own mode. */
  lemma AlignmentTellsModes(cs: seq<Control>, devices: seq<string>)
    requires |devices| == |cs|
    ensures var cmds := AlignCommands(cs);
            && (forall k :: 0 <= k < |cmds| ==> S.Sent(cmds, devices)[k] == S.Message(devices[cmds[k].index], cs[cmds[k].index].mode))
            && (forall j, k :: 0 <= j < k < |cmds| ==> cmds[j].index < cmds[k].index)
            && (forall i :: 0 <= i < |cs| ==>
                  ((exists k :: 0 <= k < |cmds| && cmds[k].index == i) <==> cs[i].status == "ON" && (cs[i].mode == "ON" || cs[i].mode == "OFF")))
  {
    hide AlignCommands;
    AlignmentSound(cs);
    forall i | 0 <= i < |cs| && cs[i].status == "ON" && (cs[i].mode == "ON" || cs[i].mode == "OFF")
      ensures exists k :: 0 <= k < |AlignCommands(cs)| && AlignCommands(cs)[k].index == i
    {
      AlignmentComplete(cs, i);
    }
  }

  /** An alignment locks the controls it tells, for their latency, and changes no mode. */
  lemma AlignmentLocks(s: State, now: real, i: nat)
    requires i < |s.controls|
    ensures var c, d := s.controls[i], Align(s, now).controls[i];
            if s.active && c.status == "ON" && (c.mode == "ON" || c.mode == "OFF") then
              var latency := if c.latency < 0.0 then c.setting else c.latency;
              d == c.(latency := latency, waitUntil := now + latency)
            else d == c
  {}

  // ---------- what is learned ----------

  /** The first reading after a stop learns the true load of the control that was stopped, if it drew
      anything, and learns it once. */
  lemma LearnsTheLoad(s: State, base: real, loads: seq<real>, now: real)
    requires s.Valid() && |loads| == |s.controls| && s.stopTime <= 0.0 && now > 0.0
    requires StopChoice(s.controls, now).Pick?
    ensures var m := StopChoice(s.controls, now).index;
            var t := Reduce(s, now, Power(base, loads, s.controls)).0;
            && t.Valid() && |t.controls| == |s.controls|
            && var u := Learn(t, Power(base, loads, t.controls));
               && u.controls == t.controls[m := t.controls[m].(estimate := if loads[m] > 0.0 then loads[m] else s.controls[m].estimate)]
               && u.stopTime == 0.0 && Learn(u, Power(base, loads, u.controls)) == u
  {
    var m := StopChoice(s.controls, now).index;
    hide StopChoice;
    OneChange(s.controls, loads, m, s.controls[m].Stop(now, false));
    hide Drawn;
    var t := Reduce(s, now, Power(base, loads, s.controls)).0;
    assert t.controls[m].estimate == s.controls[m].estimate;
    assert t.controls[m := t.controls[m]] == t.controls;
  }

  // ---------- what operators change ----------

  /** Legal words and given values are set; other words, and fields not given, leave a control as it was. */
  lemma UpdateSets(c: Control, u: Update)
    ensures var d := Updated(c, u);
            && (u.status == "ON" || u.status == "OFF" ==> d.status == u.status)
            && (u.status != "ON" && u.status != "OFF" ==> d.status == c.status)
            && (u.mode == "ON" || u.mode == "OFF" ==> d.mode == u.mode)
            && (u.mode != "ON" && u.mode != "OFF" ==> d.mode == c.mode)
            && (u.priority.Put? ==> d.priority == u.priority.value) && (u.priority.Keep? ==> d.priority == c.priority)
            && (u.nominal.Put? ==> d.nominal == u.nominal.value) && (u.nominal.Keep? ==> d.nominal == c.nominal)
            && d.name == c.name && d.setting == c.setting && d.latency == c.latency && d.estimate == c.estimate && d.waitUntil == c.waitUntil
  {}

  /** An event about a load's name puts all controls of that name on or off: 1 and ON, 0 and OFF. */
  lemma ModeEventSets(s: State, now: real, name: string, value: string, i: nat)
    requires s.Valid() && i < |s.controls|
    ensures var c, d := s.controls[i], Lockout.Step(s, Lockout.Timed(now, Lockout.ModeEvent(name, value))).0.controls[i];
            d == if !s.active || c.name != name then c
                 else if value == "1" || value == "ON" then c.(mode := "ON")
                 else if value == "0" || value == "OFF" then c.(mode := "OFF")
                 else c
  {}

  /** A reset turns the first control of the name off, or every control if no name is given, and sets
      its priority to zero. */
  lemma ResetSets(s: State, now: real, name: string, i: nat)
    requires s.Valid() && i < |s.controls|
    ensures var c, d := s.controls[i], Lockout.Step(s, Lockout.Timed(now, Lockout.Op.ResetControl(name))).0.controls[i];
            d == if name == "" || (c.name == name && forall j :: 0 <= j < i ==> s.controls[j].name != name)
                 then c.(mode := "OFF", priority := 0) else c
  {
    if name != "" { FirstOnly(s.controls, name, RESET, i); }
  }

  lemma {:induction false} FirstOnly(cs: seq<Control>, name: string, u: Update, i: nat)
    requires i < |cs|
    ensures UpdateFirst(cs, name, u)[i] ==
            if cs[i].name == name && forall j :: 0 <= j < i ==> cs[j].name != name then Updated(cs[i], u) else cs[i]
    decreases |cs|
  {
    if cs[0].name != name && i > 0 {
      FirstOnly(cs[1..], name, u, i - 1);
      hide Updated;
      assert (forall j :: 0 <= j < i ==> cs[j].name != name) <==> (forall j :: 0 <= j < i - 1 ==> cs[1..][j].name != name) by {
        if forall j :: 0 <= j < i - 1 ==> cs[1..][j].name != name {
          forall j | 0 <= j < i ensures cs[j].name != name { if j > 0 { assert cs[1..][j - 1].name != name; } }
        }
      }
    }
  }

  /** An operator's update reaches the first control of the name and no other. */
  lemma SetReachesFirst(s: State, now: real, name: string, u: Update, i: nat)
    requires s.Valid() && i < |s.controls|
    ensures var c, d := s.controls[i], Lockout.Step(s, Lockout.Timed(now, Lockout.Op.SetControl(name, u))).0.controls[i];
            d == if c.name == name && forall j :: 0 <= j < i ==> s.controls[j].name != name then Updated(c, u) else c
  {
    FirstOnly(s.controls, name, u, i);
  }

  /** Switching the scheduler and setting its target: ON turns it on and any other word off; a target given
      is the power aimed at; and neither changes a control or what is being learned. */
  lemma SwitchesSet(s: State, now: real, value: string, threshold: Threshold)
    requires s.Valid()
    ensures var t := Lockout.Step(s, Lockout.Timed(now, Lockout.Op.SetStatus(value))).0;
            (t.active <==> value == "ON") && t == s.(active := t.active)
    ensures var t := Lockout.Step(s, Lockout.Timed(now, Lockout.SetThreshold(threshold))).0;
            Aim(t) == (if threshold.Limit? then threshold.value else 10000.0) && t == s.(threshold := threshold)
  {}

  /** A stop or start that is carried out leaves the control off or on; only a forced stop leaves a mode that
      was not ON as it was; and one that is not carried out changes nothing. */
  lemma StopsAndStarts(c: Control, now: real, force: bool)
    ensures var latency := if c.latency < 0.0 then c.setting else c.latency;
            && c.Stop(now, force) == (if c.status == "ON" && (c.mode == "ON" || force)
                 then c.(mode := if c.mode == "ON" then "OFF" else c.mode, latency := latency, waitUntil := now + latency) else c)
            && c.Start(now, force) == (if c.status == "ON" && (c.mode != "ON" || force)
                 then c.(mode := "ON", latency := latency, waitUntil := now + latency) else c)
            && (c.StopActs(force) <==> c.status == "ON" && (c.mode == "ON" || force))
            && (c.StartActs(force) <==> c.status == "ON" && (c.mode != "ON" || force))
  {}
}
