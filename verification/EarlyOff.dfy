/** When exactly an output that was commanded away goes off, which may be before its duration: a
    "reset" leaves an entry of its own in the timer, and that entry too ends in a turn-off. */
module EarlyOff {
  import opened Timer
  import opened BinaryOutput
  import opened AutoOff

  /** An entry of the timer that addresses the output ends within `d`. */
  predicate Due(h: Home, d: real) {
    exists c :: c in h.conditions && !c.expired && c.waitTime <= d && Addressee(c.key) == h.output.name
  }

  function AtDefault(o: Output): Output { o.(value := o.defaultValue) }

  /** One accepted poll turns the output off exactly if an entry addressing it is due. */
  lemma PollTurnsOff(num: Number, h: Home, period: real, time: real)
    requires h.output.name != "end" && Accepts(h.lastPoll, period, time)
    ensures var t := Take(num, h, PollTimer(period, time));
            && t.output == (if Due(h, Lapse(period)) then AtDefault(h.output) else h.output)
            && t.conditions == ReportAll(LapseAll(h.conditions, Lapse(period))) && t.lastPoll == time
  {
    hide Addressee, DeliverEnds, Reports;
    var d := Lapse(period);
    var lapsed := LapseAll(h.conditions, d);
    EndsTurnOff(num, h.(conditions := ReportAll(lapsed), lastPoll := time), Reports(lapsed));
    if Due(h, d) {
      var c :| c in h.conditions && !c.expired && c.waitTime <= d && Addressee(c.key) == h.output.name;
      var i :| 0 <= i < |h.conditions| && h.conditions[i] == c;
      ReportsContain(lapsed, i);
      assert lapsed[i].key in Reports(lapsed);
    }
    forall k | k in Reports(lapsed) && Addressee(k) == h.output.name ensures Due(h, d) {
      ReportsOnlyDue(lapsed, k);
      var i :| 0 <= i < |lapsed| && lapsed[i].Reports() && lapsed[i].key == k;
      assert lapsed[i] == h.conditions[i].Lapsed(d);
      assert h.conditions[i] in h.conditions;
    }
  }

  /** Everything that happens to an output that is not commanded: polls, and waits of other devices. */
  predicate AllPassive(o: Output, steps: seq<Step>) {
    forall i :: 0 <= i < |steps| ==> steps[i].PollTimer? || (steps[i].OtherWait? && Addressee(steps[i].key) != o.name)
  }

  /** The lapses of the polls that are accepted, added up. */
  function Total(last: real, polls: seq<Step>): (d: real)
    ensures d >= 0.0
    decreases |polls|
  {
    if polls == [] then 0.0
    else if polls[0].PollTimer? && Accepts(last, polls[0].period, polls[0].time) then Lapse(polls[0].period) + Total(polls[0].time, polls[1..])
    else Total(last, polls[1..])
  }

  lemma PassiveRest(o: Output, p: Output, steps: seq<Step>)
    requires steps != [] && AllPassive(o, steps) && p.name == o.name
    ensures AllPassive(p, steps[1..])
    ensures steps[0].PollTimer? || (steps[0].OtherWait? && Addressee(steps[0].key) != o.name)
  {
    hide Addressee;
  }

  lemma {:induction false} StaysAtDefault(num: Number, h: Home, steps: seq<Step>)
    requires h.output.name != "end" && !h.output.Away() && AllPassive(h.output, steps)
    ensures TakeAll(num, h, steps).output == h.output
    decreases |steps|
  {
    hide Take, Due, Addressee, AllPassive;
    if steps != [] {
      var p := steps[0];
      PassiveRest(h.output, h.output, steps);
      if p.PollTimer? && Accepts(h.lastPoll, p.period, p.time) {
        PollTurnsOff(num, h, p.period, p.time);
      } else {
        Ignored(num, h, p);
      }
      StaysAtDefault(num, Take(num, h, p), steps[1..]);
    }
  }

  /** A poll that is not accepted changes nothing, a wait of another device nothing about the output. */
  lemma Ignored(num: Number, h: Home, p: Step)
    requires (p.PollTimer? && !Accepts(h.lastPoll, p.period, p.time)) || (p.OtherWait? && Addressee(p.key) != h.output.name)
    ensures var t := Take(num, h, p);
            && t.output == h.output && t.lastPoll == h.lastPoll
            && forall d :: Due(t, d) <==> Due(h, d)
  {
    hide Addressee, Waited;
    var t := Take(num, h, p);
    if p.OtherWait? {
      forall c: Condition | Addressee(c.key) == h.output.name ensures c in t.conditions <==> c in h.conditions {
        WaitedOthers(num, h.conditions, p.subtype, p.key, c);
      }
    }
  }

  /** What is not yet due after `d` is due later by as much less. */
  lemma DueLater(h: Home, t: Home, d: real, later: real)
    requires d > 0.0 && later >= 0.0 && !Due(h, d)
    requires t.conditions == ReportAll(LapseAll(h.conditions, d)) && t.output == h.output
    ensures Due(h, d + later) <==> Due(t, later)
  {
    hide Addressee;
    if Due(h, d + later) {
      var c :| c in h.conditions && !c.expired && c.waitTime <= d + later && Addressee(c.key) == h.output.name;
      assert c.waitTime > d;
      var i :| 0 <= i < |h.conditions| && h.conditions[i] == c;
      assert t.conditions[i] == c.Lapsed(d);
      assert c.Lapsed(d) in t.conditions;
    }
    if Due(t, later) {
      var c :| c in t.conditions && !c.expired && c.waitTime <= later && Addressee(c.key) == t.output.name;
      var i :| 0 <= i < |t.conditions| && t.conditions[i] == c;
      assert h.conditions[i].Lapsed(d) == c;
      assert h.conditions[i] in h.conditions;
    }
  }

  /** When an output goes off: over any polls and waits of other devices it is turned off exactly when
      the accepted polls add up to the time left of some entry that addresses it. */
  lemma {:induction false} WhenBack(num: Number, h: Home, steps: seq<Step>)
    requires h.output.name != "end" && h.output.Away() && AllPassive(h.output, steps)
    ensures var d := Total(h.lastPoll, steps);
            TakeAll(num, h, steps).output == if d > 0.0 && Due(h, d) then AtDefault(h.output) else h.output
    decreases |steps|
  {
    hide Take, Due, Addressee, AllPassive;
    if steps != [] {
      var p := steps[0];
      var t := Take(num, h, p);
      PassiveRest(h.output, h.output, steps);
      if !(p.PollTimer? && Accepts(h.lastPoll, p.period, p.time)) {
        Ignored(num, h, p);
        WhenBack(num, t, steps[1..]);
      } else {
        PollTurnsOff(num, h, p.period, p.time);
        PassiveRest(h.output, t.output, steps);
        var d, later := Lapse(p.period), Total(p.time, steps[1..]);
        if Due(h, d) {
          StaysAtDefault(num, t, steps[1..]);
          DueMonotone(h, d, d + later);
        } else {
          WhenBack(num, t, steps[1..]);
          DueLater(h, t, d, later);
        }
      }
    }
  }

  lemma DueMonotone(h: Home, d: real, e: real)
    requires Due(h, d) && d <= e
    ensures Due(h, e)
  {}

  /** An entry that addresses the output ends before its full duration. */
  predicate DueEarly(num: Number, h: Home) {
    exists c :: c in h.conditions && !c.expired && c.waitTime < Limit(num, h.output) && Addressee(c.key) == h.output.name
  }

  /** Never early: after a command away from the default the output stays away for all of its
      duration, however it is polled and whatever other devices wait for, exactly when no other entry
      addressing it is due sooner. */
  lemma NotEarly(num: Number, h: Home, value: string)
    requires Governed(num, h.output) && value != h.output.defaultValue
    ensures var t := Take(num, h, Command(value));
            && t.output == h.output.(value := value)
            && ((forall steps :: AllPassive(t.output, steps) && Total(t.lastPoll, steps) < Limit(num, h.output) ==> TakeAll(num, t, steps).output.Away())
                <==> !DueEarly(num, t))
  {
    hide Take, TakeAll, Due, Addressee, DueEarly, KeyOf;
    var t := Take(num, h, Command(value));
    Turned(num, h, value);
    var limit := Limit(num, h.output);
    if DueEarly(num, t) {
      var polls := EarlyPoll(num, t);
      WhenBack(num, t, polls);
      assert AllPassive(t.output, polls) && Total(t.lastPoll, polls) < limit && !TakeAll(num, t, polls).output.Away();
    } else {
      forall steps | AllPassive(t.output, steps) && Total(t.lastPoll, steps) < limit ensures TakeAll(num, t, steps).output.Away() {
        WhenBack(num, t, steps);
        if Due(t, Total(t.lastPoll, steps)) { DueIsEarly(num, t, Total(t.lastPoll, steps)); }
      }
    }
  }

  lemma Turned(num: Number, h: Home, value: string)
    ensures Take(num, h, Command(value)).output == h.output.(value := value)
  {
    hide DeliverWaits;
  }

  lemma EarlyPoll(num: Number, t: Home) returns (polls: seq<Step>)
    requires DueEarly(num, t) && Limit(num, t.output) > 0.0
    ensures AllPassive(t.output, polls) && 0.0 < Total(t.lastPoll, polls) < Limit(num, t.output) && Due(t, Total(t.lastPoll, polls))
  {
    hide Addressee, DurationOf;
    var c :| c in t.conditions && !c.expired && c.waitTime < Limit(num, t.output) && Addressee(c.key) == t.output.name;
    var w := c.waitTime;
    var period := if w > 0.0 then w else Limit(num, t.output) / 2.0;
    polls := [PollTimer(period, period / 2.0 + t.lastPoll + 1.0)];
    assert polls[1..] == [];
    assert Total(t.lastPoll, polls) == period;
  }

  lemma DueIsEarly(num: Number, t: Home, d: real)
    requires Due(t, d) && d < Limit(num, t.output)
    ensures DueEarly(num, t)
  {}

  // ---------- regular polls ----------

  /** Polls of one period, each a period after the one before. */
  function Regular(period: real, from: real, n: nat): (steps: seq<Step>)
    ensures |steps| == n
    decreases n
  {
    if n == 0 then [] else [PollTimer(period, from + period)] + Regular(period, from + period, n - 1)
  }

  lemma {:induction false} RegularTotal(o: Output, period: real, from: real, n: nat)
    requires period > 0.0
    ensures AllPassive(o, Regular(period, from, n)) && Total(from, Regular(period, from, n)) == n as real * period
    decreases n
  {
    hide Addressee;
    if n > 0 {
      RegularTotal(o, period, from + period, n - 1);
      var rest := Regular(period, from + period, n - 1);
      var steps := Regular(period, from, n);
      assert steps[1..] == rest;
      assert Total(from, steps) == period + Total(from + period, rest);
      assert n as real * period == period + (n - 1) as real * period;
    }
  }

  /** Regular polling: an output commanded away on a timer that holds nothing is at its default after n
      polls of one period exactly when n periods make up its duration. */
  lemma RegularPolls(num: Number, o: Output, value: string, from: real, period: real, n: nat)
    requires Governed(num, o) && !o.Away() && value != o.defaultValue && period > 0.0
    ensures var h := Take(num, Home([], from, o), Command(value));
            TakeAll(num, h, Regular(period, from, n)).output.Away() <==> n as real * period < Limit(num, o)
  {
    hide Addressee, KeyOf, DurationOf, TakeAll, Take, Due, Total, AllPassive;
    var h0 := Home([], from, o);
    SwitchedOn(num, h0, value);
    var h := Take(num, h0, Command(value));
    RegularTotal(h.output, period, from, n);
    WhenBack(num, h, Regular(period, from, n));
    var d := n as real * period;
    OnlyEntry(num, h, d);
  }

  lemma OnlyEntry(num: Number, h: Home, d: real)
    requires |h.conditions| == 1 && h.conditions[0] == Fresh(num, "set", h.output.Key()) && Addressee(h.output.Key()) == h.output.name
    ensures Due(h, d) <==> Limit(num, h.output) <= d
  {
    hide Addressee, KeyOf, DurationOf;
    assert h.conditions[0] in h.conditions;
  }

  /** Polls closer than half a period to the last one that counted do not count, and a poll without a
      period counts as one second. */
  lemma PollsCount(last: real, period: real, time: real)
    ensures Total(last, [PollTimer(period, time)]) ==
            if time <= last + period / 2.0 then 0.0 else if period > 0.0 then period else 1.0
  {
    assert [PollTimer(period, time)][1..] == [];
    assert Total(time, []) == 0.0 && Total(last, []) == 0.0;
  }

  // ---------- an early turn-off ----------

  lemma OneStep(num: Number, h: Home, since: Since, step: Step, rest: seq<Step>)
    ensures TakeAll(num, h, [step] + rest) == TakeAll(num, Take(num, h, step), rest)
    ensures ClockAll(num, h, since, [step] + rest) == ClockAll(num, Take(num, h, step), Clock(h, since, step), rest)
  {
    hide Take, Clock;
    assert ([step] + rest)[1..] == rest;
  }

  function EarlyRun(d: real, value: string, rest: string): seq<Step> {
    [Command(value)] + ([Command(rest)] + ([PollTimer(d / 2.0, d)] + ([Command(value)] + ([PollTimer(d / 2.0, 2.0 * d)] + []))))
  }

  /** An output can go off early: on, off, half its duration later on again, and after another half
      it is off, although it was commanded on for its full duration.  This holds of every timed
      output that is switched off at all. */
  lemma EndsEarly(num: Number, o: Output, value: string)
    requires Governed(num, o) && !o.Away() && value != o.defaultValue
    ensures var d := Limit(num, o);
            var h, steps := Home([], 0.0, o), EarlyRun(Limit(num, o), value, o.defaultValue);
            && ClockAll(num, h, NotYet, steps) == Elapsed(d / 2.0)
            && d / 2.0 < d
            && !TakeAll(num, h, steps).output.Away()
  {
    hide Addressee, KeyOf, DurationOf, TakeAll, ClockAll, Take, Due;
    var d := Limit(num, o);
    var away := o.(value := value);
    var set1, reset := Condition("wait", "set", o.Key(), d, false), Condition("wait", "reset", o.Key(), d, false);
    var h0 := Home([], 0.0, o);
    var h1 := Home([set1], 0.0, away);
    var h2 := Home([set1, reset], 0.0, o);
    var h3 := Home([set1.(waitTime := d / 2.0), reset.(waitTime := d / 2.0)], d, o);
    var h4 := Home([set1, reset.(waitTime := d / 2.0)], d, away);
    SwitchedOn(num, h0, value);
    assert Take(num, h0, Command(value)) == h1;
    SwitchedOff(num, h1);
    assert Take(num, h1, Command(o.defaultValue)) == h2;
    var half := PollTimer(d / 2.0, d);
    NobodyDue(num, h2, half);
    assert Take(num, h2, half) == h3;
    SwitchedOn(num, h3, value);
    assert h3.conditions[1..] == [reset.(waitTime := d / 2.0)];
    assert Take(num, h3, Command(value)) == h4;
    var last := PollTimer(d / 2.0, 2.0 * d);
    PollTurnsOff(num, h4, d / 2.0, 2.0 * d);
    DueSecond(h4, d / 2.0);
    OneStep(num, h4, Elapsed(0.0), last, []);
    OneStep(num, h3, Elapsed(d / 2.0), Command(value), [last] + []);
    OneStep(num, h2, Elapsed(0.0), half, [Command(value)] + ([last] + []));
    OneStep(num, h1, Elapsed(0.0), Command(o.defaultValue), [half] + ([Command(value)] + ([last] + [])));
    OneStep(num, h0, NotYet, Command(value), [Command(o.defaultValue)] + ([half] + ([Command(value)] + ([last] + []))));
    NoMore(num, Take(num, h4, last), Elapsed(d / 2.0));
  }

  lemma NoMore(num: Number, h: Home, since: Since)
    ensures TakeAll(num, h, []) == h && ClockAll(num, h, since, []) == since
  {}

  lemma DueSecond(h: Home, d: real)
    requires |h.conditions| == 2 && !h.conditions[1].expired && h.conditions[1].waitTime <= d
    requires Addressee(h.conditions[1].key) == h.output.name
    ensures Due(h, d)
  {
    assert h.conditions[1] in h.conditions;
  }

  /** A command away from rest arms the entry at the front of the list anew. */
  lemma SwitchedOn(num: Number, h: Home, value: string)
    requires h.output.Timed() && Limit(num, h.output) > 0.0 && !h.output.Away() && value != h.output.defaultValue
    requires h.conditions != [] ==> h.conditions[0].SameAs(Fresh(num, "set", h.output.Key()))
    ensures var rest := if h.conditions == [] then [] else h.conditions[1..];
            Take(num, h, Command(value)) ==
            Home([Fresh(num, "set", h.output.Key())] + rest, h.lastPoll, h.output.(value := value))
  {
    hide Addressee, KeyOf, DurationOf;
    var (p, notices) := Exec(h.output, "cmd", h.output.name, value);
    WaitComesLast(num, h.conditions, notices, Wait("set", h.output.Key()));
  }

  /** A command back leaves the "set" entry and adds a "reset" entry. */
  lemma SwitchedOff(num: Number, h: Home)
    requires h.output.Timed() && Limit(num, h.output) > 0.0 && h.output.Away()
    requires h.conditions == [Fresh(num, "set", h.output.Key())]
    ensures Take(num, h, Command(h.output.defaultValue)) ==
            Home(h.conditions + [Fresh(num, "reset", h.output.Key())], h.lastPoll, AtDefault(h.output))
  {
    hide Addressee, KeyOf, DurationOf;
    var o := h.output;
    var (p, notices) := Exec(o, "cmd", o.name, o.defaultValue);
    WaitComesLast(num, h.conditions, notices, Wait("reset", o.Key()));
    var tc := Fresh(num, "reset", o.Key());
    assert "set"[0] != "reset"[0];
    StartedNew(h.conditions, tc);
  }

  /** A poll before anything is due only lets time pass. */
  lemma NobodyDue(num: Number, h: Home, p: Step)
    requires p.PollTimer? && Accepts(h.lastPoll, p.period, p.time) && h.output.name != "end"
    requires forall i :: 0 <= i < |h.conditions| ==> !h.conditions[i].expired && h.conditions[i].waitTime > Lapse(p.period)
    ensures Take(num, h, p) == Home(LapseAll(h.conditions, Lapse(p.period)), p.time, h.output)
  {
    hide Addressee, Take;
    PollTurnsOff(num, h, p.period, p.time);
    var lapsed := LapseAll(h.conditions, Lapse(p.period));
    assert ReportAll(lapsed) == lapsed;
  }
}
