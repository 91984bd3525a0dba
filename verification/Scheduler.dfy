/** The scheduler and its controls as objects that change in place. */
module Scheduler {
  import LC = LoadControl
  import opened Lockout

  datatype Message = Message(device: string, value: string)

  class Control {
    const name: string
    const device: string
    const setting: real
    var status: string
    var mode: string
    var priority: int
    var nominalload: real
    var latency: real
    var load_estimate: real
    var wait_until: real

    constructor (name: string, device: string, setting: real, status: string, mode: string, priority: int, nominalload: real)
      ensures View() == LC.Control(name, status, mode, priority, nominalload, setting, -1.0, 0.0, 0.0)
      ensures this.device == device
    {
      this.name, this.device, this.setting := name, device, setting;
      this.status, this.mode, this.priority, this.nominalload := status, mode, priority, nominalload;
      latency, load_estimate, wait_until := -1.0, 0.0, 0.0;
    }

    ghost function View(): LC.Control
      reads this
    {
      LC.Control(name, status, mode, priority, nominalload, setting, latency, load_estimate, wait_until)
    }

    method MayStart(now: real, available: real) returns (r: bool)
      ensures r == View().MayStart(now, available)
    {
      if wait_until > now { return false; }
      if status != "ON" || mode == "ON" { return false; }
      var load := nominalload;
      if load_estimate != 0.0 { load := load_estimate; }
      r := available * 0.9 >= load;
    }

    method MayStop(now: real) returns (r: bool)
      ensures r == View().MayStop(now)
    {
      if wait_until > now { return false; }
      r := status == "ON" && mode == "ON";
    }

    method Stop(now: real, force: bool, action: seq<Message>) returns (done: bool, sent: seq<Message>)
      modifies this
      ensures View() == old(View()).Stop(now, force)
      ensures done == old(View()).StopActs(force)
      ensures sent == if done then action + [Message(device, "OFF")] else action
    {
      if status == "ON" && (mode == "ON" || force) {
        if mode == "ON" { mode := "OFF"; }
        if latency < 0.0 { latency := setting; }
        wait_until := now + latency;
        return true, action + [Message(device, "OFF")];
      }
      return false, action;
    }

    method Start(now: real, force: bool, action: seq<Message>) returns (done: bool, sent: seq<Message>)
      modifies this
      ensures View() == old(View()).Start(now, force)
      ensures done == old(View()).StartActs(force)
      ensures sent == if done then action + [Message(device, "ON")] else action
    {
      if status == "ON" && (mode != "ON" || force) {
        if mode != "ON" { mode := "ON"; }
        if latency < 0.0 { latency := setting; }
        wait_until := now + latency;
        return true, action + [Message(device, "ON")];
      }
      return false, action;
    }

    method LoadEstimateUpdate(value: real)
      modifies this
      ensures View() == old(View()).(estimate := value)
    {
      load_estimate := value;
    }

    method Apply(u: LC.Update)
      modifies this
      ensures View() == LC.Updated(old(View()), u)
    {
      if u.status == "ON" || u.status == "OFF" { status := u.status; }
      if u.mode == "ON" || u.mode == "OFF" { mode := u.mode; }
      if u.priority.Put? { priority := u.priority.value; }
      if u.nominal.Put? { nominalload := u.nominal.value; }
    }
  }

  /** The messages that carry out a list of commands. */
  function Sent(cmds: seq<LC.Command>, devices: seq<string>): (r: seq<Message>)
    requires forall i :: 0 <= i < |cmds| ==> cmds[i].index < |devices|
    ensures |r| == |cmds|
  {
    seq(|cmds|, i requires 0 <= i < |cmds| => Message(devices[cmds[i].index], if cmds[i].on then "ON" else "OFF"))
  }

  class Scheduler {
    const control: seq<Control>
    var active: bool
    var control_measure: string
    var threshold: LC.Threshold
    var last_stopped: nat
    var stop_time: real
    var targetvalue_atstop: real

    constructor (control: seq<Control>, active: bool, control_measure: string, threshold: LC.Threshold)
      requires forall i, j :: 0 <= i < j < |control| ==> control[i] != control[j]
      ensures Valid() && this.control == control
    {
      this.control, this.active := control, active;
      this.control_measure, this.threshold := control_measure, threshold;
      last_stopped, stop_time, targetvalue_atstop := 0, 0.0, 0.0;
    }

    ghost predicate Distinct() { forall i, j :: 0 <= i < j < |control| ==> control[i] != control[j] }

    ghost predicate Valid()
      reads this
    {
      Distinct() && (stop_time > 0.0 ==> last_stopped < |control|)
    }

    ghost function Views(): (cs: seq<LC.Control>)
      reads control
      ensures |cs| == |control|
    {
      seq(|control|, i requires 0 <= i < |control| reads control => control[i].View())
    }

    ghost function View(): LC.State
      reads this, control
    {
      LC.State(active, Views(), threshold, last_stopped, stop_time, targetvalue_atstop)
    }

    ghost function Devices(): (ds: seq<string>)
      ensures |ds| == |control|
    {
      seq(|control|, i requires 0 <= i < |control| => control[i].device)
    }

    /** One measurement of the controlled quantity. */
    method Measured(now: real, power: real, action: seq<Message>) returns (sent: seq<Message>)
      requires Valid()
      modifies this, control
      ensures Valid()
      ensures var (t, cmds) := LC.Measure(old(View()), now, power);
              && View() == t
              && (forall i :: 0 <= i < |cmds| ==> cmds[i].index < |control|)
              && sent == action + Sent(cmds, Devices())
    {
      hide LC.StopChoice, LC.StartChoice;
      ghost var start := View();
      sent := action;
      assert sent == action + [];
      if !active { return; }
      var target := LC.MAX_THRESHOLD;
      if threshold.Limit? { target := threshold.value; }
      if stop_time > 0.0 {
        var delta := targetvalue_atstop - power;
        if delta > 0.0 { control[last_stopped].LoadEstimateUpdate(delta); }
        stop_time := 0.0;
      }
      assert View() == LC.Learn(start, power);
      if power > target {
        sent := ReduceLoad(now, power, action);
      } else if power < target {
        sent := TryIncreaseLoad(now, target - power, action);
      }
    }

    method ReduceLoad(now: real, current: real, action: seq<Message>) returns (sent: seq<Message>)
      requires Valid()
      modifies this, control
      ensures Valid()
      ensures var (t, cmds) := LC.Reduce(old(View()), now, current);
              && View() == t
              && (forall i :: 0 <= i < |cmds| ==> cmds[i].index < |control|)
              && sent == action + Sent(cmds, Devices())
    {
      hide LC.StopChoice;
      ghost var cs := Views();
      var m := SelectStop(now);
      sent := action;
      assert sent == action + [];
      if m < |control| {
        var done;
        done, sent := control[m].Stop(now, false, action);
        assert forall j :: 0 <= j < |control| && j != m ==> control[j].View() == cs[j];
        assert Views() == cs[m := cs[m].Stop(now, false)];
        last_stopped := m;
        stop_time := now;
        targetvalue_atstop := current;
        assert Views() == cs[m := cs[m].Stop(now, false)];
      }
    }

    /** The first of the stoppable controls of least priority; past the end if there is none. */
    method SelectStop(now: real) returns (m: nat)
      ensures LC.StopChoice(Views(), now) == if m < |control| then LC.Pick(m) else LC.Nobody
    {
      hide LC.StopChoice;
      ghost var cs := Views();
      assert LC.StopChoice(cs[..0], now).Nobody? by { NothingToStop(cs[..0], now); }
      var min_priority := LC.PRIORITY_LIMIT;
      m := |control| + 1;
      for i := 0 to |control|
        invariant m < |control| || m == |control| + 1
        invariant LC.StopChoice(cs[..i], now) == if m < |control| then LC.Pick(m) else LC.Nobody
        invariant min_priority == if m < |control| then cs[m].priority else LC.PRIORITY_LIMIT
      {
        LC.StopChoiceNext(cs, now, i);
        assert control[i].View() == cs[i];
        var may := control[i].MayStop(now);
        if may && control[i].priority < min_priority {
          min_priority := control[i].priority;
          m := i;
        }
      }
      assert cs[..|control|] == cs;
    }

    method TryIncreaseLoad(now: real, available: real, action: seq<Message>) returns (sent: seq<Message>)
      requires Valid()
      modifies control
      ensures Valid()
      ensures var (t, cmds) := LC.Increase(old(View()), now, available);
              && View() == t
              && (forall i :: 0 <= i < |cmds| ==> cmds[i].index < |control|)
              && sent == action + Sent(cmds, Devices())
    {
      hide LC.StartChoice;
      ghost var cs := Views();
      var m := SelectStart(now, available);
      sent := action;
      assert sent == action + [];
      if m < |control| {
        var done;
        done, sent := control[m].Start(now, false, action);
        assert forall j :: 0 <= j < |control| && j != m ==> control[j].View() == cs[j];
        assert Views() == cs[m := cs[m].Start(now, false)];
      }
    }

    /** The last of the startable controls of greatest priority; past the end if there is none. */
    method SelectStart(now: real, available: real) returns (m: nat)
      ensures LC.StartChoice(Views(), now, available) == if m < |control| then LC.Pick(m) else LC.Nobody
    {
      hide LC.StartChoice;
      ghost var cs := Views();
      assert LC.StartChoice(cs[..0], now, available).Nobody? by { NothingToStart(cs[..0], now, available); }
      var max_priority := 0;
      m := |control| + 1;
      for i := 0 to |control|
        invariant m < |control| || m == |control| + 1
        invariant LC.StartChoice(cs[..i], now, available) == if m < |control| then LC.Pick(m) else LC.Nobody
        invariant max_priority == if m < |control| then cs[m].priority else 0
      {
        LC.StartChoiceNext(cs, now, available, i);
        assert control[i].View() == cs[i];
        var may := control[i].MayStart(now, available);
        if may && control[i].priority >= max_priority {
          max_priority := control[i].priority;
          m := i;
        }
      }
      assert cs[..|control|] == cs;
    }

    /** Forced repetition of the command each mode calls for. */
    method AligneControl(now: real, action: seq<Message>) returns (sent: seq<Message>)
      requires Valid()
      modifies control
      ensures View() == LC.Align(old(View()), now)
      ensures sent == action + Sent(if active then LC.AlignCommands(old(Views())) else [], Devices())
    {
      hide LC.Aligned, LC.AlignCommands;
      sent := action;
      assert sent == action + [];
      if !active { return; }
      ghost var cs := Views();
      ghost var msgs: seq<Message> := [];
      AlignNobody(cs[..0]);
      for i := 0 to |control|
        invariant forall j :: 0 <= j < |control| ==> control[j].View() == if j < i then LC.Aligned(cs[j], now) else cs[j]
        invariant msgs == Sent(LC.AlignCommands(cs[..i]), Devices())
        invariant sent == action + msgs
      {
        AlignOneMore(cs, i, Devices());
        assert control[i].View() == cs[i];
        var one := AlignOne(control[i], now);
        sent := sent + one;
        assert action + msgs + one == action + (msgs + one);
        assert msgs + [] == msgs;
        msgs := msgs + one;
      }
      assert cs[..|control|] == cs;
    }

    static method AlignOne(c: Control, now: real) returns (sent: seq<Message>)
      modifies c
      ensures c.View() == LC.Aligned(old(c.View()), now)
      ensures var v := old(c.View());
              sent == if v.Enabled() && (v.mode == "OFF" || v.mode == "ON") then [Message(c.device, v.mode)] else []
    {
      sent := [];
      var done;
      if c.mode == "OFF" {
        done, sent := c.Stop(now, true, []);
      } else if c.mode == "ON" {
        done, sent := c.Start(now, true, []);
      }
    }

    /** Any message the scheduler gets about a value: the controlled measure, or a load's mode. */
    method CheckControl(now: real, subtype: string, power: real, value: string, action: seq<Message>) returns (sent: seq<Message>)
      requires Valid()
      modifies this, control
      ensures Valid()
      ensures var op := if subtype == old(control_measure) then Reading(power) else ModeEvent(subtype, value);
              var (t, cmds) := Step(old(View()), Timed(now, op));
              && View() == t
              && (forall i :: 0 <= i < |cmds| ==> cmds[i].index < |control|)
              && sent == action + Sent(cmds, Devices())
    {
      hide LC.Measure;
      sent := action;
      assert sent == action + [];
      if subtype == control_measure {
        sent := Measured(now, power, action);
      } else if active {
        HandleMode(subtype, value);
      }
    }

    /** Switches the scheduler itself on, or with any other word off. */
    method SetStatus(value: string)
      requires Valid()
      modifies this
      ensures Valid()
      ensures forall now :: View() == Step(old(View()), Timed(now, Op.SetStatus(value))).0
    {
      active := value == "ON";
    }

    method HandleMode(name: string, value: string)
      requires Valid()
      modifies control
      ensures Views() == LC.UpdateEvery(old(Views()), false, name, LC.ModeUpdate(value))
    {
      var mode := value;
      if mode == "1" { mode := "ON"; } else if mode == "0" { mode := "OFF"; }
      for i := 0 to |control|
        invariant forall j :: 0 <= j < |control| ==>
                    control[j].View() == if j < i && control[j].name == name then LC.Updated(old(control[j].View()), LC.ModeUpdate(value)) else old(control[j].View())
      {
        if control[i].name == name { control[i].Apply(LC.Update("", mode, LC.Keep, LC.Keep)); }
      }
    }

    /** Sets what an operator asks for on the first control of that name. */
    method SetControl(name: string, u: LC.Update) returns (found: bool)
      requires Valid()
      modifies control
      ensures Views() == LC.UpdateFirst(old(Views()), name, u)
      ensures found <==> exists i :: 0 <= i < |control| && control[i].name == name
    {
      ghost var cs := Views();
      for i := 0 to |control|
        invariant forall j :: 0 <= j < i ==> control[j].name != name
        invariant Views() == cs
      {
        if control[i].name == name {
          control[i].Apply(u);
          FirstUpdated(cs, name, u, i);
          assert Views() == cs[i := LC.Updated(cs[i], u)];
          return true;
        }
      }
      NoneUpdated(cs, name, u);
      return false;
    }

    method ResetControl(name: string)
      requires Valid()
      modifies control
      ensures Views() == Reset(old(Views()), name)
    {
      if name == "" {
        for i := 0 to |control|
          invariant forall j :: 0 <= j < |control| ==>
                      control[j].View() == if j < i then LC.Updated(old(control[j].View()), LC.RESET) else old(control[j].View())
        {
          control[i].Apply(LC.RESET);
        }
      } else {
        var found := SetControl(name, LC.RESET);
      }
    }
  }

  lemma NothingToStop(cs: seq<LC.Control>, now: real)
    requires cs == []
    ensures LC.StopChoice(cs, now).Nobody?
  {}

  lemma NothingToStart(cs: seq<LC.Control>, now: real, available: real)
    requires cs == []
    ensures LC.StartChoice(cs, now, available).Nobody?
  {}

  lemma AlignNobody(cs: seq<LC.Control>)
    requires cs == []
    ensures LC.AlignCommands(cs) == []
  {}

  lemma AlignOneMore(cs: seq<LC.Control>, i: nat, devices: seq<string>)
    requires i < |cs| == |devices|
    ensures var earlier := Sent(LC.AlignCommands(cs[..i]), devices);
            Sent(LC.AlignCommands(cs[..i + 1]), devices) ==
            if cs[i].Enabled() && (cs[i].mode == "OFF" || cs[i].mode == "ON") then earlier + [Message(devices[i], cs[i].mode)]
            else earlier
  {
    assert cs[..i + 1][..i] == cs[..i];
  }

  lemma {:induction false} FirstUpdated(cs: seq<LC.Control>, name: string, u: LC.Update, i: nat)
    requires i < |cs| && cs[i].name == name && forall j :: 0 <= j < i ==> cs[j].name != name
    ensures LC.UpdateFirst(cs, name, u) == cs[i := LC.Updated(cs[i], u)]
    decreases |cs|
  {
    if i > 0 {
      FirstUpdated(cs[1..], name, u, i - 1);
      assert [cs[0]] + cs[1..][i - 1 := LC.Updated(cs[i], u)] == cs[i := LC.Updated(cs[i], u)];
    }
  }

  lemma {:induction false} NoneUpdated(cs: seq<LC.Control>, name: string, u: LC.Update)
    requires forall j :: 0 <= j < |cs| ==> cs[j].name != name
    ensures LC.UpdateFirst(cs, name, u) == cs
    decreases |cs|
  {
    if cs != [] { NoneUpdated(cs[1..], name, u); }
  }
}
