/** What reaches the port of an output: the word it was last told, over every run. */
module OutputPort {
  import opened Options
  import opened Timer
  import opened BinaryOutput
  import opened AutoOff

  /** The word for a value, as the output's remapping has it. */
  function Word(o: Output, v: string): string { if v in o.remaps && o.remaps[v] != "" then o.remaps[v] else v }

  /** The last word told to the port. */
  function Heard(port: string, before: Option<string>, notices: seq<Notice>): Option<string>
    decreases |notices|
  {
    if notices == [] then before
    else
      var n := notices[0];
      Heard(port, if n.DevCmd? && n.output == port then Some(n.value) else before, notices[1..])
  }

  /** The same over the ends a poll reports, and over a step and a run of the pair. */
  function EndsHeard(num: Number, h: Home, before: Option<string>, ended: seq<string>): Option<string>
    decreases |ended|
  {
    if ended == [] then before
    else if Addressee(ended[0]) == h.output.name then
      var heard := Heard(h.output.port, before, Exec(h.output, "wait", "end", ended[0]).1);
      EndsHeard(num, Deliver(num, h, "wait", "end", ended[0]), heard, ended[1..])
    else EndsHeard(num, h, before, ended[1..])
  }

  function StepHeard(num: Number, h: Home, before: Option<string>, step: Step): Option<string> {
    match step
    case Command(value) => Heard(h.output.port, before, Exec(h.output, "cmd", h.output.name, value).1)
    case PollTimer(period, time) =>
      if !Accepts(h.lastPoll, period, time) then before
      else
        var lapsed := LapseAll(h.conditions, Lapse(period));
        EndsHeard(num, h.(conditions := ReportAll(lapsed), lastPoll := time), before, Reports(lapsed))
    case OtherWait(_, _) => before
  }

  function RunHeard(num: Number, h: Home, before: Option<string>, steps: seq<Step>): Option<string>
    decreases |steps|
  {
    if steps == [] then before else RunHeard(num, Take(num, h, steps[0]), StepHeard(num, h, before, steps[0]), steps[1..])
  }

  /** A port that was told anything holds the word for the present value. */
  predicate Tracks(o: Output, heard: Option<string>) { heard.Some? ==> heard.value == Word(o, o.value) }

  /** What a change of the output keeps: the port tracks it, and is told of every change. */
  predicate Follows(o: Output, p: Output, before: Option<string>, after: Option<string>) {
    && SameOutput(o, p)
    && (Tracks(o, before) ==> Tracks(p, after))
    && (after.None? ==> before.None? && p.value == o.value)
  }

  lemma FollowsOn(o: Output, p: Output, q: Output, a: Option<string>, b: Option<string>, c: Option<string>)
    requires Follows(o, p, a, b) && Follows(p, q, b, c)
    ensures Follows(o, q, a, c)
  {}

  lemma HeardThree(port: string, before: Option<string>, a: Notice, b: Notice, c: Notice)
    requires a.DevCmd? && a.output == port && !b.DevCmd? && !c.DevCmd?
    ensures Heard(port, before, [a, b]) == Some(a.value) && Heard(port, before, [a, b, c]) == Some(a.value)
    ensures Heard(port, before, [c]) == before && Heard(port, before, []) == before
  {
    assert [a, b][1..] == [b] && [b][1..] == [] && [a, b, c][1..] == [b, c] && [b, c][1..] == [c] && [c][1..] == [];
    assert Heard(port, Some(a.value), [b]) == Heard(port, Some(a.value), []);
    assert Heard(port, Some(a.value), [b, c]) == Heard(port, Some(a.value), [c]) == Heard(port, Some(a.value), []);
  }

  /** One message to the output: a change is told with the word for the new value, nothing else is. */
  lemma ExecFollows(o: Output, before: Option<string>, mtype: string, subtype: string, value: string)
    ensures var (p, notices) := Exec(o, mtype, subtype, value);
            Follows(o, p, before, Heard(o.port, before, notices))
  {
    hide KeyOf, Heard;
    var (p, notices) := Exec(o, mtype, subtype, value);
    var told := DevCmd(o.port, Word(o, p.value));
    HeardThree(o.port, before, told, Event(value), Wait("set", o.Key()));
    HeardThree(o.port, before, told, Event(value), Wait("reset", o.Key()));
    var event, on, off := Event(value), Wait("set", o.Key()), Wait("reset", o.Key());
    if p.value != o.value {
      assert notices == [told, event] || notices == [told, event, on] || notices == [told, event, off];
    } else {
      assert notices == [] || notices == [on];
    }
  }

  lemma {:induction false} EndsFollow(num: Number, h: Home, before: Option<string>, ended: seq<string>)
    ensures Follows(h.output, DeliverEnds(num, h, ended).output, before, EndsHeard(num, h, before, ended))
    decreases |ended|
  {
    hide Addressee, Heard, DeliverWaits, KeyOf, Word, Tracks;
    if ended != [] {
      if Addressee(ended[0]) == h.output.name {
        ExecFollows(h.output, before, "wait", "end", ended[0]);
        var t := Deliver(num, h, "wait", "end", ended[0]);
        var heard := Heard(h.output.port, before, Exec(h.output, "wait", "end", ended[0]).1);
        hide Exec;
        EndsFollow(num, t, heard, ended[1..]);
      } else {
        EndsFollow(num, h, before, ended[1..]);
      }
    }
  }

  lemma StepFollows(num: Number, h: Home, before: Option<string>, step: Step)
    ensures Follows(h.output, Take(num, h, step).output, before, StepHeard(num, h, before, step))
  {
    hide Addressee, Heard, DeliverWaits, DeliverEnds, EndsHeard, Reports, Waited;
    match step
    case Command(value) => ExecFollows(h.output, before, "cmd", h.output.name, value);
    case PollTimer(period, time) =>
      var lapsed := LapseAll(h.conditions, Lapse(period));
      EndsFollow(num, h.(conditions := ReportAll(lapsed), lastPoll := time), before, Reports(lapsed));
    case OtherWait(_, _) =>
  }

  /** The port follows the output: over every run of commands, polls and other waits, a port that was told
      anything holds the word for the output's value, and it was told if the value ever changed. */
  lemma {:induction false} RunFollows(num: Number, h: Home, before: Option<string>, steps: seq<Step>)
    requires Tracks(h.output, before)
    ensures var o, heard := TakeAll(num, h, steps).output, RunHeard(num, h, before, steps);
            && (heard.Some? ==> heard.value == if o.value in o.remaps && o.remaps[o.value] != "" then o.remaps[o.value] else o.value)
            && (heard.None? ==> before.None? && o.value == h.output.value)
    decreases |steps|
  {
    hide Take, StepHeard;
    if steps != [] {
      StepFollows(num, h, before, steps[0]);
      RunFollows(num, Take(num, h, steps[0]), StepHeard(num, h, before, steps[0]), steps[1..]);
    }
  }

  /** An output commanded away whose port was never told anything was away all along. */
  predicate Silent(h: Home, since: Since, heard: Option<string>) { since.Elapsed? && heard.None? ==> h.output.Away() }

  lemma {:induction false} RunSilent(num: Number, h: Home, since: Since, before: Option<string>, steps: seq<Step>)
    requires Silent(h, since, before)
    ensures Silent(TakeAll(num, h, steps), ClockAll(num, h, since, steps), RunHeard(num, h, before, steps))
    decreases |steps|
  {
    hide Take, StepHeard;
    if steps != [] {
      StepFollows(num, h, before, steps[0]);
      if steps[0].Command? { CommandTaken(num, h, steps[0]); }
      RunSilent(num, Take(num, h, steps[0]), Clock(h, since, steps[0]), StepHeard(num, h, before, steps[0]), steps[1..]);
    }
  }

  lemma CommandTaken(num: Number, h: Home, step: Step)
    requires step.Command?
    ensures Take(num, h, step).output.value == step.value
    ensures Take(num, h, step).output == h.output.(value := step.value)
  {
    hide DeliverWaits, KeyOf;
  }

  /** Auto-off at the port: under the conditions of the bound, once the accepted polls since the last
      command away add up to the duration, the port itself holds the word for the default. */
  lemma PortBackAtDefault(num: Number, h: Home, steps: seq<Step>)
    requires Governed(num, h.output)
    requires forall i :: 0 <= i < |steps| ==> FitsStep(h.output, steps[i])
    ensures var since := ClockAll(num, h, NotYet, steps);
            var o := h.output;
            since.Elapsed? && since.time >= Limit(num, o) ==>
              RunHeard(num, h, None, steps) ==
              Some(if o.defaultValue in o.remaps && o.remaps[o.defaultValue] != "" then o.remaps[o.defaultValue] else o.defaultValue)
  {
    hide TakeAll, ClockAll, RunHeard, Addressee, KeyOf, DurationOf;
    BackAtDefault(num, h, steps);
    RunFollows(num, h, None, steps);
    RunSilent(num, h, NotYet, None, steps);
    RunGuards(num, h, NotYet, steps);
  }

  // ---------- what others are told ----------

  /** The event after a command tells the new value; the event at the end of a wait tells the timer's
      key, which is the new value only if the default is spelled like it. */
  lemma EventsTell(o: Output, mtype: string, value: string, key: string)
    ensures value != o.value ==> |Exec(o, mtype, o.name, value).1| >= 2 && Exec(o, mtype, o.name, value).1[1] == Event(value)
    ensures o.name != "end" && o.Away() ==>
              Exec(o, "wait", "end", key) == (o.(value := o.defaultValue), [DevCmd(o.port, Word(o, o.defaultValue)), Event(key)])
    ensures o.name != "end" && o.Away() ==>
              (Exec(o, "wait", "end", key).1[1] == Event(Exec(o, "wait", "end", key).0.value) <==> key == o.defaultValue)
  {
    hide KeyOf;
  }

  /** Messages for others, that are no end of a wait, do nothing to an output. */
  lemma OthersIgnored(o: Output, mtype: string, subtype: string, value: string)
    requires subtype != o.name && (mtype != "wait" || subtype != "end")
    ensures Exec(o, mtype, subtype, value) == (o, [])
  {}
}
