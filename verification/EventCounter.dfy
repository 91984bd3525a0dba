/** Event counters: a leaky counter, optionally fed through a delay queue, and a set of them. */
module EventCounter {
  import LeakyCounter
  import opened DelayQueue
  import opened Options

  datatype Message = Message(subtype: string, fields: map<string, string>)
  {
    /** A field that is missing reads as empty. */
    function Get(key: string): string { if key in fields then fields[key] else "" }
  }

  /** A counter with what is queued for it. */
  datatype State = State(leaky: LeakyCounter.State, queue: Queue<Message>)

  function Counted(r: LeakyCounter.Rates, s: LeakyCounter.State): LeakyCounter.State {
    s.(counter := s.counter + r.increment)
  }

  /** A poll: with a queue, a message that is due is counted first and restarts the leak. */
  function Polled(r: LeakyCounter.Rates, queued: bool, s: State, now: real): State
    requires IndexRight(s.queue)
  {
    if queued && CanGet(s.queue, now) then
      State(LeakyCounter.Decay(r, Counted(r, s.leaky).(last := now), now), Get(s.queue, now))
    else s.(leaky := LeakyCounter.Decay(r, s.leaky, now))
  }

  /** A matching message: counted now, or queued, in which case one that is due is counted. */
  function Notified(r: LeakyCounter.Rates, queued: bool, s: State, m: Message, now: real): State
    requires IndexRight(s.queue)
  {
    if !queued then s.(leaky := Counted(r, s.leaky))
    else
      var q := Append(s.queue, m, now);
      if CanGet(q, now) then State(Counted(r, s.leaky), Get(q, now)) else s.(queue := q)
  }

  /** Whether a matching message makes the counter count: itself, or one that is due. */
  predicate Counts(queued: bool, q: Queue<Message>, m: Message, now: real) { queued ==> CanGet(Append(q, m, now), now) }

  /** Delivery skips the leak: compared with letting the time pass and then counting, a poll that
      delivers reads too much by the smaller of the old value and what should have leaked. */
  lemma DeliverySkipsDecay(r: LeakyCounter.Rates, s: State, now: real)
    requires IndexRight(s.queue) && CanGet(s.queue, now)
    requires s.leaky.counter >= 0.0 && r.increment >= 0.0 && r.decrement >= 0.0 && s.leaky.last <= now
    ensures var right := LeakyCounter.Take(r, s.leaky, LeakyCounter.Hit(now)).counter;
            var leak := LeakyCounter.Leak(r, s.leaky.last, now);
            Polled(r, true, s, now).leaky.counter == right + Min(s.leaky.counter, leak)
  {
    LeakyCounter.LeakSign(r, s.leaky.last, now);
    assert LeakyCounter.Leak(r, now, now) == 0.0;
    hide LeakyCounter.Leak;
  }

  function Min(a: real, b: real): real { if a <= b then a else b }

  /** Exactly when delivery is right, for any rates and any counter: when the poll that delivers
      leaves what leaking and then counting leaves. */
  lemma DeliveryRight(r: LeakyCounter.Rates, s: State, now: real)
    requires IndexRight(s.queue) && CanGet(s.queue, now)
    ensures var c, leak := s.leaky.counter, LeakyCounter.Leak(r, s.leaky.last, now);
            Polled(r, true, s, now).leaky == LeakyCounter.Take(r, s.leaky, LeakyCounter.Hit(now)) <==>
            if c + r.increment >= 0.0 then c >= 0.0 && (leak == 0.0 || (c == 0.0 && leak > 0.0))
            else if r.increment == 0.0 then c <= leak
            else r.increment < 0.0 && leak == c + r.increment
  {
    assert LeakyCounter.Leak(r, now, now) == 0.0;
    hide LeakyCounter.Leak;
  }

  /** What a message does to a counter, and what the counter reports: how it stands, if it counted
      something.  `None` is a message that does not match. */
  function Given(r: LeakyCounter.Rates, queued: bool, s: State, m: Option<Message>, now: real): State
    requires IndexRight(s.queue)
  {
    if m.Some? then Notified(r, queued, s, m.value, now) else s
  }

  function Reported(r: LeakyCounter.Rates, queued: bool, s: State, m: Option<Message>, now: real): real
    requires IndexRight(s.queue)
  {
    if m.Some? && Counts(queued, s.queue, m.value, now) then Given(r, queued, s, m, now).leaky.counter else 0.0
  }

  /** Without a queue a message to the set is one input of the leaky counter's trace. */
  lemma DirectInput(r: LeakyCounter.Rates, s: State, m: Option<Message>, now: real)
    requires IndexRight(s.queue)
    ensures Given(r, false, Polled(r, false, s, now), m, now).leaky ==
            LeakyCounter.Take(r, s.leaky, if m.Some? then LeakyCounter.Hit(now) else LeakyCounter.Poll(now))
  {
    hide LeakyCounter.Leak;
  }

  class EventCounter {
    const rates: LeakyCounter.Rates
    const accepted_values: set<string>
    const ty: string
    const alias: set<string>
    const dq: DelayedMessages?<Message>
    var counter: real
    var last_time: real
    var current_time: real

    ghost predicate Valid()
      reads this, dq
    {
      dq != null ==> IndexRight(dq.View())
    }

    ghost function Queued(): Queue<Message>
      reads this, dq
    {
      if dq == null then Empty(0.0) else dq.View()
    }

    ghost function View(): State
      reads this, dq
    {
      State(LeakyCounter.State(counter, last_time), Queued())
    }

    constructor (rates: LeakyCounter.Rates, accepted_values: set<string>, ty: string, alias: set<string>, dq: DelayedMessages?<Message>, now: real)
      requires dq != null ==> IndexRight(dq.View())
      ensures Valid() && this.rates == rates && this.accepted_values == accepted_values && this.ty == ty && this.alias == alias && this.dq == dq
      ensures View().leaky == LeakyCounter.State(0.0, now)
    {
      this.rates, this.accepted_values, this.ty, this.alias, this.dq := rates, accepted_values, ty, alias, dq;
      counter, last_time, current_time := 0.0, now, now;
    }

    function PolledAt(s: State, now: real): (t: State)
      requires IndexRight(s.queue)
      ensures IndexRight(t.queue)
    {
      GetIndex(s.queue, now);
      Polled(rates, dq != null, s, now)
    }

    function Matching(m: Message): Option<Message> { if Matches(m) then Some(m) else None }

    /** An accepted value, and the counter's name or an alias in one of four places; the third is
        the field whose key is the source's value. */
    predicate Matches(m: Message) {
      var source := m.Get("source");
      m.Get("value") in accepted_values &&
      (m.subtype == ty || m.subtype in alias || m.Get(source) == ty || source in alias)
    }

    /** The counter itself goes up; the return value says by how much it now stands. */
    method Update() returns (r: real)
      modifies this
      ensures View() == old(View()).(leaky := Counted(rates, old(View()).leaky)) && r == counter
      ensures Valid() <==> old(Valid())
    {
      counter := counter + rates.increment;
      r := counter;
    }

    method EventUpdate(m: Message, now: real) returns (r: real)
      requires Valid()
      modifies this, dq
      ensures Valid()
      ensures View() == Given(rates, dq != null, old(View()), Matching(m), now)
      ensures r == Reported(rates, dq != null, old(View()), Matching(m), now)
    {
      hide Append, Get;
      if !Matches(m) { return 0.0; }
      if dq != null {
        ghost var q := dq.View();
        var kept := dq.MessageAppend(m, now);
        assert IndexRight(dq.View()) by { AppendIndex(q, m, now); }
        var found, due := dq.MessageGet(now);
        assert IndexRight(dq.View()) by { GetIndex(Append(q, m, now), now); }
        if !found {
          assert dq.View() == Append(q, m, now) by { NothingGot(Append(q, m, now), now); }
          return 0.0;
        }
      }
      r := Update();
    }

    /** Lets the time since the last call leak away. */
    method TimeUpdate(now: real) returns (r: real)
      requires Valid()
      modifies this, dq
      ensures Valid() && r == counter
      ensures View() == PolledAt(old(View()), now)
    {
      hide Get, LeakyCounter.Max, LeakyCounter.Leak;
      ghost var before := View();
      var found := false;
      if dq != null {
        var due;
        found, due := dq.MessageGet(now);
        assert IndexRight(dq.View()) by { GetIndex(before.queue, now); }
        if found {
          var u := Update();
          last_time := now;
          assert View() == State(Counted(rates, before.leaky).(last := now), Get(before.queue, now));
        } else {
          NothingGot(before.queue, now);
        }
      }
      assert !found ==> View() == before;
      ghost var mid := View();
      current_time := now;
      assert mid.leaky == LeakyCounter.State(counter, last_time);
      counter := counter - LeakyCounter.Leak(rates, last_time, current_time);
      ClampIsMax(counter);
      if counter < 0.0 { counter := 0.0; }
      last_time := current_time;
      assert View() == State(LeakyCounter.Decay(rates, mid.leaky, now), mid.queue);
      r := counter;
    }
  }

  /** Which messages count: those with an accepted value that name the counter or an alias of it, as
      subtype or source, or hold the counter's name in the field their source names. */
  lemma MatchesMean(c: EventCounter, m: Message)
    ensures m.Get("value") !in c.accepted_values ==> !c.Matches(m)
    ensures m.Get("value") in c.accepted_values && (m.subtype == c.ty || m.subtype in c.alias || m.Get("source") in c.alias) ==> c.Matches(m)
    ensures m.Get("value") in c.accepted_values && m.Get(m.Get("source")) == c.ty ==> c.Matches(m)
    ensures c.Matches(m) ==> m.subtype == c.ty || m.subtype in c.alias || m.Get("source") in c.alias || m.Get(m.Get("source")) == c.ty
    ensures forall key :: m.Get(key) == if key in m.fields then m.fields[key] else ""
  {}

  /** What a counter without a queue does with a message and reports: the increment more if it matches,
      nothing otherwise; and with a queue it reports only when something is due. */
  lemma ReportsMean(r: LeakyCounter.Rates, s: State, m: Message, now: real)
    requires IndexRight(s.queue)
    ensures Given(r, false, s, Some(m), now).leaky.counter == s.leaky.counter + r.increment
    ensures Reported(r, false, s, Some(m), now) == s.leaky.counter + r.increment
    ensures Given(r, false, s, None, now) == s && Reported(r, false, s, None, now) == 0.0 && Reported(r, true, s, None, now) == 0.0
    ensures var t := Given(r, true, s, Some(m), now);
            if CanGet(Append(s.queue, m, now), now) then
              && t.leaky.counter == s.leaky.counter + r.increment && Reported(r, true, s, Some(m), now) == t.leaky.counter
              && t.queue == Get(Append(s.queue, m, now), now)
            else t.leaky == s.leaky && Reported(r, true, s, Some(m), now) == 0.0 && t.queue == Append(s.queue, m, now)
  {
    hide Append, Get, CanGet;
  }

  lemma ClampIsMax(x: real)
    ensures LeakyCounter.Max(x, 0.0) == if x < 0.0 then 0.0 else x
  {}

  lemma AppendIndex(q: Queue<Message>, m: Message, now: real)
    requires IndexRight(q)
    ensures IndexRight(Append(q, m, now))
  {}

  lemma GetIndex(q: Queue<Message>, now: real)
    requires IndexRight(q)
    ensures IndexRight(Get(q, now))
  {}

  lemma NothingGot(q: Queue<Message>, now: real)
    requires IndexRight(q) && !CanGet(q, now)
    ensures Get(q, now) == q
  {}

  // ---------- the set ----------

  function Sum(rs: seq<real>): real { if rs == [] then 0.0 else Sum(rs[..|rs| - 1]) + rs[|rs| - 1] }

  lemma SumOneMore(rs: seq<real>, r: real)
    ensures Sum(rs + [r]) == Sum(rs) + r
  {
    assert (rs + [r])[..|rs|] == rs;
  }

  class EventCounterSet {
    const counters: seq<EventCounter>

    constructor (counters: seq<EventCounter>)
      requires forall i, j :: 0 <= i < j < |counters| ==> Apart(counters[i], counters[j])
      ensures this.counters == counters && Distinct()
    {
      this.counters := counters;
    }

    /** Counters of a set are different objects and no two have the same queue. */
    ghost predicate Distinct() { forall i, j :: 0 <= i < j < |counters| ==> Apart(counters[i], counters[j]) }

    ghost predicate Valid()
      reads counters, Queues()
    {
      Distinct() && forall i :: 0 <= i < |counters| ==> counters[i].Valid()
    }

    ghost function Queues(): set<object> { set i | 0 <= i < |counters| && counters[i].dq != null :: counters[i].dq }

    /** Every counter leaks first, then every counter that the message matches counts it; the set
        is active if what the counters report adds up to something. */
    method EventUpdate(m: Message, now: real) returns (active: bool, ghost reports: seq<real>)
      requires Valid()
      modifies counters, Queues()
      ensures Valid()
      ensures forall i :: 0 <= i < |counters| ==>
                counters[i].View() ==
                Given(counters[i].rates, counters[i].dq != null, counters[i].PolledAt(old(counters[i].View()), now), counters[i].Matching(m), now)
      ensures active <==> Sum(reports) > 0.0
      ensures |reports| == |counters| && forall i :: 0 <= i < |counters| ==>
                reports[i] ==
                Reported(counters[i].rates, counters[i].dq != null, counters[i].PolledAt(old(counters[i].View()), now), counters[i].Matching(m), now)
    {
      hide Given, Reported, Polled, Sum;
      var polled, readings := TimeUpdate(now);
      active, reports := CountAll(m, now);
    }

    /** Gives the message to every counter. */
    method CountAll(m: Message, now: real) returns (active: bool, ghost reports: seq<real>)
      requires Valid()
      modifies counters, Queues()
      ensures Valid()
      ensures forall i :: 0 <= i < |counters| ==>
                counters[i].View() ==
                Given(counters[i].rates, counters[i].dq != null, old(counters[i].View()), counters[i].Matching(m), now)
      ensures active <==> Sum(reports) > 0.0
      ensures |reports| == |counters| && forall i :: 0 <= i < |counters| ==>
                reports[i] == Reported(counters[i].rates, counters[i].dq != null, old(counters[i].View()), counters[i].Matching(m), now)
    {
      hide Given, Reported, Sum;
      var sum := 0.0;
      reports := [];
      NothingReported();
      for i := 0 to |counters|
        invariant Valid()
        invariant |reports| == i && sum == Sum(reports)
        invariant forall j :: 0 <= j < i ==>
                    reports[j] == Reported(counters[j].rates, counters[j].dq != null, old(counters[j].View()), counters[j].Matching(m), now)
        invariant forall j :: 0 <= j < i ==>
                    counters[j].View() ==
                    Given(counters[j].rates, counters[j].dq != null, old(counters[j].View()), counters[j].Matching(m), now)
        invariant forall j :: i <= j < |counters| ==> counters[j].View() == old(counters[j].View())
      {
        var r := counters[i].EventUpdate(m, now);
        SumOneMore(reports, r);
        reports := reports + [r];
        sum := sum + r;
      }
      active := sum > 0.0;
    }

    /** Every counter is polled; the set is active if the counters add up to something. */
    method TimeUpdate(now: real) returns (active: bool, ghost readings: seq<real>)
      requires Valid()
      modifies counters, Queues()
      ensures Valid()
      ensures forall i :: 0 <= i < |counters| ==>
                counters[i].View() == counters[i].PolledAt(old(counters[i].View()), now)
      ensures active <==> Sum(readings) > 0.0
      ensures |readings| == |counters| && forall i :: 0 <= i < |counters| ==> readings[i] == counters[i].View().leaky.counter
    {
      hide Polled, Sum;
      var sum := 0.0;
      readings := [];
      NothingReported();
      for i := 0 to |counters|
        invariant Valid()
        invariant |readings| == i && sum == Sum(readings)
        invariant forall j :: 0 <= j < i ==> readings[j] == counters[j].View().leaky.counter
        invariant forall j :: 0 <= j < i ==> counters[j].View() == counters[j].PolledAt(old(counters[j].View()), now)
        invariant forall j :: i <= j < |counters| ==> counters[j].View() == old(counters[j].View())
      {
        var r := counters[i].TimeUpdate(now);
        SumOneMore(readings, r);
        readings := readings + [r];
        sum := sum + r;
      }
      active := sum > 0.0;
    }
  }

  lemma NothingReported()
    ensures Sum([]) == 0.0
  {}

  ghost predicate Apart(c: EventCounter, d: EventCounter) { c != d && (c.dq != null ==> c.dq != d.dq) }
}
