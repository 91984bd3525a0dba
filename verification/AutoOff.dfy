/** The output and the timer together: how long an output can stay away from its default. */
module AutoOff {
  import opened Timer
  import opened BinaryOutput

  datatype Home = Home(conditions: seq<Condition>, lastPoll: real, output: Output)

  /** What can happen to the pair.  `OtherWait` is a wait message of another device. */
  datatype Step =
    | Command(value: string)
    | PollTimer(period: real, time: real)
    | OtherWait(subtype: string, key: string)

  // ---------- delivery ----------

  function DeliverWaits(num: Number, cs: seq<Condition>, notices: seq<Notice>): seq<Condition>
    decreases |notices|
  {
    if notices == [] then cs
    else
      DeliverWaits(num, if notices[0].Wait? then Waited(num, cs, notices[0].subtype, notices[0].key) else cs, notices[1..])
  }

  function Deliver(num: Number, h: Home, mtype: string, subtype: string, value: string): Home {
    var (o, notices) := Exec(h.output, mtype, subtype, value);
    h.(output := o, conditions := DeliverWaits(num, h.conditions, notices))
  }

  /** Keys that ended, each to the device it addresses. */
  function DeliverEnds(num: Number, h: Home, ended: seq<string>): Home
    decreases |ended|
  {
    if ended == [] then h
    else
      var t := if Addressee(ended[0]) == h.output.name then Deliver(num, h, "wait", "end", ended[0]) else h;
      DeliverEnds(num, t, ended[1..])
  }

  function Take(num: Number, h: Home, step: Step): Home {
    match step
    case Command(value) => Deliver(num, h, "cmd", h.output.name, value)
    case PollTimer(period, time) =>
      if !Accepts(h.lastPoll, period, time) then h
      else
        var lapsed := LapseAll(h.conditions, Lapse(period));
        DeliverEnds(num, h.(conditions := ReportAll(lapsed), lastPoll := time), Reports(lapsed))
    case OtherWait(subtype, key) => h.(conditions := Waited(num, h.conditions, subtype, key))
  }

  function TakeAll(num: Number, h: Home, steps: seq<Step>): Home
    decreases |steps|
  {
    if steps == [] then h else TakeAll(num, Take(num, h, steps[0]), steps[1..])
  }

  // ---------- time since the output was last commanded away ----------

  datatype Since = NotYet | Elapsed(time: real)

  function Clock(h: Home, since: Since, step: Step): Since {
    match step
    case Command(value) => if value != h.output.defaultValue then Elapsed(0.0) else since
    case PollTimer(period, time) =>
      if since.Elapsed? && Accepts(h.lastPoll, period, time) then Elapsed(since.time + Lapse(period)) else since
    case OtherWait(_, _) => since
  }

  function ClockAll(num: Number, h: Home, since: Since, steps: seq<Step>): Since
    decreases |steps|
  {
    if steps == [] then since
    else ClockAll(num, Take(num, h, steps[0]), Clock(h, since, steps[0]), steps[1..])
  }

  // ---------- the bound ----------

  function Limit(num: Number, o: Output): real { num(DurationOf(o.Key())) }

  /** A timed output whose key comes back to it, and whose name is not taken for the message. */
  predicate Governed(num: Number, o: Output) {
    && o.Timed() && Limit(num, o) > 0.0
    && Addressee(o.Key()) == o.name
    && o.name != "end"
  }

  predicate FitsStep(o: Output, step: Step) { step.OtherWait? ==> step.key != o.Key() }

  function Armed(num: Number, o: Output, elapsed: real): Condition {
    Condition("wait", "set", o.Key(), Limit(num, o) - elapsed, false)
  }

  /** Away from the default, once commanded: an unexpired entry holds the time that is left. */
  predicate Guarded(num: Number, h: Home, since: Since) {
    since.Elapsed? && h.output.Away() ==>
      since.time < Limit(num, h.output) && Armed(num, h.output, since.time) in h.conditions
  }

  predicate SameOutput(o: Output, p: Output) { p == o.(value := p.value) }

  lemma CommandGuards(num: Number, h: Home, since: Since, value: string)
    requires Governed(num, h.output) && Guarded(num, h, since)
    ensures var t := Take(num, h, Command(value));
            SameOutput(h.output, t.output) && Guarded(num, t, Clock(h, since, Command(value)))
  {
    hide Addressee, KeyOf, DurationOf, Started;
    var o := h.output;
    var (p, notices) := Exec(o, "cmd", o.name, value);
    if value != o.defaultValue {
      var tc := Fresh(num, "set", o.Key());
      WaitComesLast(num, h.conditions, notices, Wait("set", o.Key()));
      StartedContains(h.conditions, tc);
    }
  }

  lemma WaitComesLast(num: Number, cs: seq<Condition>, notices: seq<Notice>, w: Notice)
    requires w.Wait? && (notices == [w] || (|notices| == 3 && !notices[0].Wait? && !notices[1].Wait? && notices[2] == w))
    ensures DeliverWaits(num, cs, notices) == Waited(num, cs, w.subtype, w.key)
  {
    hide Waited;
    if |notices| == 3 {
      assert notices[1..][1..] == [w] && [w][1..] == [];
    } else {
      assert [w][1..] == [];
    }
  }

  lemma EndTurnsOff(num: Number, h: Home, key: string)
    requires h.output.name != "end"
    ensures var t := Deliver(num, h, "wait", "end", key);
            t.output == h.output.(value := h.output.defaultValue) && t.conditions == h.conditions
  {
    NoWaits(num, h.conditions, Exec(h.output, "wait", "end", key).1);
  }

  lemma {:induction false} NoWaits(num: Number, cs: seq<Condition>, notices: seq<Notice>)
    requires forall i :: 0 <= i < |notices| ==> !notices[i].Wait?
    ensures DeliverWaits(num, cs, notices) == cs
    decreases |notices|
  {
    if notices != [] { NoWaits(num, cs, notices[1..]); }
  }

  lemma {:induction false} EndsTurnOff(num: Number, h: Home, ended: seq<string>)
    requires h.output.name != "end"
    ensures var t := DeliverEnds(num, h, ended);
            && t.conditions == h.conditions && t.lastPoll == h.lastPoll
            && t.output == if exists k :: k in ended && Addressee(k) == h.output.name
                           then h.output.(value := h.output.defaultValue) else h.output
    decreases |ended|
  {
    hide Addressee, Deliver;
    if ended != [] {
      EndTurnsOff(num, h, ended[0]);
      var t := if Addressee(ended[0]) == h.output.name then Deliver(num, h, "wait", "end", ended[0]) else h;
      assert t.lastPoll == h.lastPoll by { DeliverKeepsPoll(num, h, ended[0]); }
      EndsTurnOff(num, t, ended[1..]);
      assert ended == [ended[0]] + ended[1..];
    }
  }

  lemma DeliverKeepsPoll(num: Number, h: Home, key: string)
    ensures Deliver(num, h, "wait", "end", key).lastPoll == h.lastPoll
  {}

  lemma PollGuards(num: Number, h: Home, since: Since, period: real, time: real)
    requires Governed(num, h.output) && Guarded(num, h, since)
    ensures var t := Take(num, h, PollTimer(period, time));
            SameOutput(h.output, t.output) && Guarded(num, t, Clock(h, since, PollTimer(period, time)))
  {
    hide Addressee, KeyOf, DurationOf, DeliverEnds, Reports;
    if Accepts(h.lastPoll, period, time) {
      var d := Lapse(period);
      var lapsed := LapseAll(h.conditions, d);
      var u := h.(conditions := ReportAll(lapsed), lastPoll := time);
      EndsTurnOff(num, u, Reports(lapsed));
      if since.Elapsed? && h.output.Away() {
        var i :| 0 <= i < |h.conditions| && h.conditions[i] == Armed(num, h.output, since.time);
        var now := Armed(num, h.output, since.time + d);
        assert lapsed[i] == now;
        if now.Reports() {
          ReportsContain(lapsed, i);
          assert now.key in Reports(lapsed);
        } else {
          assert u.conditions[i] == now;
        }
      }
    }
  }

  lemma StepGuards(num: Number, h: Home, since: Since, step: Step)
    requires Governed(num, h.output) && Guarded(num, h, since) && FitsStep(h.output, step)
    ensures var t := Take(num, h, step);
            SameOutput(h.output, t.output) && Guarded(num, t, Clock(h, since, step))
  {
    hide Addressee, KeyOf, DurationOf;
    match step
    case Command(value) => CommandGuards(num, h, since, value);
    case PollTimer(period, time) => PollGuards(num, h, since, period, time);
    case OtherWait(subtype, key) =>
      if since.Elapsed? && h.output.Away() {
        WaitedKeepsOthers(num, h.conditions, subtype, key, Armed(num, h.output, since.time));
      }
  }

  lemma {:induction false} RunGuards(num: Number, h: Home, since: Since, steps: seq<Step>)
    requires Governed(num, h.output) && Guarded(num, h, since)
    requires forall i :: 0 <= i < |steps| ==> FitsStep(h.output, steps[i])
    ensures Guarded(num, TakeAll(num, h, steps), ClockAll(num, h, since, steps))
    ensures SameOutput(h.output, TakeAll(num, h, steps).output)
    decreases |steps|
  {
    hide Addressee, KeyOf, DurationOf, Take, Clock, Guarded;
    if steps != [] {
      StepGuards(num, h, since, steps[0]);
      RunGuards(num, Take(num, h, steps[0]), Clock(h, since, steps[0]), steps[1..]);
    }
  }

  /** Auto-off bound: from any state, in every run of commands, polls and other devices' waits, an
      output with a positive duration is back at its default by the time the accepted polls since
      the last command away from it add up to the duration. */
  lemma BackAtDefault(num: Number, h: Home, steps: seq<Step>)
    requires Governed(num, h.output)
    requires forall i :: 0 <= i < |steps| ==> FitsStep(h.output, steps[i])
    ensures var since := ClockAll(num, h, NotYet, steps);
            since.Elapsed? && since.time >= Limit(num, h.output) ==> !TakeAll(num, h, steps).output.Away()
  {
    hide Addressee, KeyOf, DurationOf, TakeAll, ClockAll;
    RunGuards(num, h, NotYet, steps);
  }

  // ---------- where the bound is lost ----------

  /** A key whose end never turns the output off: it does not come back to it, or it comes back as
      a command, to a device called "end". */
  predicate Harmless(o: Output, key: string) {
    Addressee(key) != o.name || (o.name == "end" && key != o.defaultValue)
  }

  predicate AllHarmless(o: Output, cs: seq<Condition>) { forall c :: c in cs ==> Harmless(o, c.key) }

  /** Anything but a command to the default, or a wait that would address the output. */
  predicate HarmlessStep(o: Output, step: Step) {
    && (step.Command? ==> step.value != o.defaultValue)
    && (step.OtherWait? ==> Harmless(o, step.key))
  }

  /** Away, and nothing in the timer will turn it off. */
  predicate Stuck(h: Home) {
    h.output.Away() && Harmless(h.output, h.output.Key()) && AllHarmless(h.output, h.conditions)
  }

  lemma WaitHarmless(num: Number, o: Output, cs: seq<Condition>, subtype: string, key: string)
    requires AllHarmless(o, cs) && Harmless(o, key)
    ensures AllHarmless(o, Waited(num, cs, subtype, key))
  {
    hide Harmless, Waited;
    forall c | c in Waited(num, cs, subtype, key) ensures Harmless(o, c.key) {
      WaitedKeys(num, cs, subtype, key, c);
    }
  }

  lemma {:induction false} WaitsHarmless(num: Number, o: Output, cs: seq<Condition>, notices: seq<Notice>)
    requires AllHarmless(o, cs)
    requires forall i :: 0 <= i < |notices| && notices[i].Wait? ==> Harmless(o, notices[i].key)
    ensures AllHarmless(o, DeliverWaits(num, cs, notices))
    decreases |notices|
  {
    hide Harmless, Waited, AllHarmless;
    if notices != [] {
      var n := notices[0];
      if n.Wait? { WaitHarmless(num, o, cs, n.subtype, n.key); }
      WaitsHarmless(num, o, if n.Wait? then Waited(num, cs, n.subtype, n.key) else cs, notices[1..]);
    }
  }

  /** A command to another value than the default, or what such an end amounts to. */
  lemma CommandedStuck(num: Number, h: Home, mtype: string, value: string)
    requires value != h.output.defaultValue
    requires Harmless(h.output, h.output.Key()) && AllHarmless(h.output, h.conditions)
    ensures var t := Deliver(num, h, mtype, h.output.name, value);
            Stuck(t) && SameOutput(h.output, t.output) && t.lastPoll == h.lastPoll
  {
    hide Addressee, DeliverWaits, KeyOf;
    var (p, notices) := Exec(h.output, mtype, h.output.name, value);
    WaitsHarmless(num, h.output, h.conditions, notices);
  }

  lemma {:induction false} EndsStuck(num: Number, h: Home, ended: seq<string>)
    requires Stuck(h) && forall i :: 0 <= i < |ended| ==> Harmless(h.output, ended[i])
    ensures var t := DeliverEnds(num, h, ended); Stuck(t) && SameOutput(h.output, t.output)
    decreases |ended|
  {
    hide Addressee, Deliver;
    if ended != [] {
      var t := if Addressee(ended[0]) == h.output.name then Deliver(num, h, "wait", "end", ended[0]) else h;
      assert Harmless(h.output, ended[0]);
      if Addressee(ended[0]) == h.output.name { CommandedStuck(num, h, "wait", ended[0]); }
      EndsStuck(num, t, ended[1..]);
    }
  }

  lemma StepStuck(num: Number, h: Home, step: Step)
    requires Stuck(h) && HarmlessStep(h.output, step)
    ensures Stuck(Take(num, h, step)) && SameOutput(h.output, Take(num, h, step).output)
  {
    hide Harmless, Deliver, DeliverEnds, Reports, Waited;
    match step
    case Command(value) => CommandedStuck(num, h, "cmd", value);
    case PollTimer(period, time) =>
      var lapsed := LapseAll(h.conditions, Lapse(period));
      var ended := Reports(lapsed);
      forall i | 0 <= i < |ended| ensures Harmless(h.output, ended[i]) {
        ReportsOnlyDue(lapsed, ended[i]);
        var k :| 0 <= k < |lapsed| && lapsed[k].Reports() && lapsed[k].key == ended[i];
        assert h.conditions[k].key == ended[i];
      }
      var u := h.(conditions := ReportAll(lapsed), lastPoll := time);
      forall c | c in u.conditions ensures Harmless(h.output, c.key) {
        var k :| 0 <= k < |u.conditions| && u.conditions[k] == c;
        assert h.conditions[k].key == c.key;
      }
      EndsStuck(num, u, ended);
    case OtherWait(subtype, key) => WaitHarmless(num, h.output, h.conditions, subtype, key);
  }

  lemma SameSteps(o: Output, p: Output, steps: seq<Step>)
    requires SameOutput(o, p) && forall i :: 0 <= i < |steps| ==> HarmlessStep(o, steps[i])
    ensures forall i :: 0 <= i < |steps| ==> HarmlessStep(p, steps[i])
  {
    hide Addressee;
    forall i | 0 <= i < |steps| ensures HarmlessStep(p, steps[i]) {
      assert HarmlessStep(o, steps[i]);
    }
  }

  /** An output whose key does not come back to it, or comes back as a command, stays away for good:
      over every run of polls, other devices' waits and commands to other values. */
  lemma {:induction false} NeverBack(num: Number, h: Home, steps: seq<Step>)
    requires Stuck(h) && forall i :: 0 <= i < |steps| ==> HarmlessStep(h.output, steps[i])
    ensures TakeAll(num, h, steps).output.Away()
    decreases |steps|
  {
    assert h.output.Away();
    hide HarmlessStep, Stuck, Take;
    if steps != [] {
      assert HarmlessStep(h.output, steps[0]);
      StepStuck(num, h, steps[0]);
      SameSteps(h.output, Take(num, h, steps[0]).output, steps[1..]);
      NeverBack(num, Take(num, h, steps[0]), steps[1..]);
    }
  }

  /** So one command away from the default, on a timer that holds nothing for the output, is enough. */
  lemma StuckAfterCommand(num: Number, h: Home, value: string, steps: seq<Step>)
    requires Harmless(h.output, h.output.Key()) && AllHarmless(h.output, h.conditions) && value != h.output.defaultValue
    requires forall i :: 0 <= i < |steps| ==> HarmlessStep(h.output, steps[i])
    ensures TakeAll(num, Take(num, h, Command(value)), steps).output.Away()
  {
    hide HarmlessStep, Deliver;
    CommandedStuck(num, h, "cmd", value);
    SameSteps(h.output, Take(num, h, Command(value)).output, steps);
    NeverBack(num, Take(num, h, Command(value)), steps);
  }

  /** For a device registered under its own title, with a plain number as duration: the bound
      holds for names of two characters or more without a separator, "end" excepted. */
  lemma GovernedByName(num: Number, o: Output)
    requires o.title == o.name && Free(o.duration, '_') && Free(o.duration, SEPARATOR) && o.Timed()
    requires o.duration != "" && num(o.duration) > 0.0
    ensures Governed(num, o) <==> |o.name| >= 2 && Free(o.name, SEPARATOR) && o.name != "end"
    ensures Limit(num, o) == num(o.duration)
  {
    KeyParts(o.duration, o.name);
    AddresseeOfKey(o.duration, o.name);
  }
}
