/** A counter fed through a delay queue, over whole runs: the leaky counter again, on a clock that
    stands still over every interval that ends in a delivering poll. */
module QueuedCounter {
  import opened DelayQueue
  import opened Options
  import opened EventCounter
  import LC = LeakyCounter

  /** One message to the set: a poll, then the message if it matches. */
  datatype Input = Input(now: real, message: Option<Message>)

  function Step(r: LC.Rates, s: State, i: Input): (t: State)
    requires IndexRight(s.queue)
    ensures IndexRight(t.queue)
  {
    GetIndex(s.queue, i.now);
    var polled := Polled(r, true, s, i.now);
    GivenIndex(r, polled, i.message, i.now);
    Given(r, true, polled, i.message, i.now)
  }

  lemma GivenIndex(r: LC.Rates, s: State, m: Option<Message>, now: real)
    requires IndexRight(s.queue)
    ensures IndexRight(Given(r, true, s, m, now).queue)
  {
    hide Append, Get;
    if m.Some? {
      AppendIndex(s.queue, m.value, now);
      GetIndex(Append(s.queue, m.value, now), now);
    }
  }

  function Run(r: LC.Rates, s: State, inputs: seq<Input>): State
    requires IndexRight(s.queue)
    decreases |inputs|
  {
    if inputs == [] then s else Run(r, Step(r, s, inputs[0]), inputs[1..])
  }

  // ---------- the clock that counts ----------

  predicate Delivers(s: State, now: real) { CanGet(s.queue, now) }

  /** The counter's clock after a poll at `now`, if it showed `w` at the last one. */
  function Clock(s: State, w: real, now: real): real { if Delivers(s, now) then w else w + (now - s.leaky.last) }

  /** What one input amounts to on that clock: a delivery counts where a poll would have been, and a
      message that makes something due counts once more. */
  function Effects(r: LC.Rates, s: State, w: real, i: Input): seq<LC.Input>
    requires IndexRight(s.queue)
  {
    var at := Clock(s, w, i.now);
    [if Delivers(s, i.now) then LC.Hit(at) else LC.Poll(at)] +
    if i.message.Some? && Counts(true, Polled(r, true, s, i.now).queue, i.message.value, i.now) then [LC.Hit(at)] else []
  }

  function Trace(r: LC.Rates, s: State, w: real, inputs: seq<Input>): seq<LC.Input>
    requires IndexRight(s.queue)
    decreases |inputs|
  {
    if inputs == [] then []
    else Effects(r, s, w, inputs[0]) + Trace(r, Step(r, s, inputs[0]), Clock(s, w, inputs[0].now), inputs[1..])
  }

  function EndClock(r: LC.Rates, s: State, w: real, inputs: seq<Input>): real
    requires IndexRight(s.queue)
    decreases |inputs|
  {
    if inputs == [] then w
    else EndClock(r, Step(r, s, inputs[0]), Clock(s, w, inputs[0].now), inputs[1..])
  }

  // ---------- the run is that of a leaky counter ----------

  lemma NoLeak(r: LC.Rates, c: real, w: real)
    requires c >= 0.0
    ensures LC.Decay(r, LC.State(c, w), w) == LC.State(c, w)
  {}

  lemma SameLeak(r: LC.Rates, c: real, last: real, now: real, w: real)
    ensures LC.Decay(r, LC.State(c, w), w + (now - last)).counter == LC.Decay(r, LC.State(c, last), now).counter
  {
    assert w + (now - last) - w == now - last;
  }

  lemma OneInput(r: LC.Rates, s: LC.State, i: LC.Input)
    ensures LC.TakeAll(r, s, [i]) == LC.Take(r, s, i)
  {
    assert [i][1..] == [];
  }

  lemma {:induction false} TakeAllAppend(r: LC.Rates, s: LC.State, a: seq<LC.Input>, b: seq<LC.Input>)
    ensures LC.TakeAll(r, s, a + b) == LC.TakeAll(r, LC.TakeAll(r, s, a), b)
    decreases |a|
  {
    hide LC.Take;
    if a == [] {
      assert a + b == b;
    } else {
      assert (a + b)[1..] == a[1..] + b;
      TakeAllAppend(r, LC.Take(r, s, a[0]), a[1..], b);
    }
  }

  /** A poll, delivering or not, on either clock. */
  lemma PollAgrees(r: LC.Rates, s: State, w: real, now: real)
    requires IndexRight(s.queue) && s.leaky.counter >= 0.0 && r.increment >= 0.0
    ensures var at := Clock(s, w, now);
            var t := Polled(r, true, s, now);
            && t.leaky.last == now && t.leaky.counter >= 0.0
            && LC.Take(r, LC.State(s.leaky.counter, w), if Delivers(s, now) then LC.Hit(at) else LC.Poll(at)) ==
               LC.State(t.leaky.counter, at)
  {
    NoLeak(r, s.leaky.counter, w);
    NoLeak(r, s.leaky.counter + r.increment, now);
    SameLeak(r, s.leaky.counter, s.leaky.last, now, w);
    hide LC.Leak, Get;
  }

  lemma StepAgrees(r: LC.Rates, s: State, w: real, i: Input)
    requires IndexRight(s.queue) && s.leaky.counter >= 0.0 && r.increment >= 0.0
    ensures var t := Step(r, s, i);
            && t.leaky.last == i.now && t.leaky.counter >= 0.0
            && LC.TakeAll(r, LC.State(s.leaky.counter, w), Effects(r, s, w, i)) == LC.State(t.leaky.counter, Clock(s, w, i.now))
  {
    hide LC.TakeAll, LC.Leak, Polled, Clock, Delivers, Append, Get, CanGet;
    GetIndex(s.queue, i.now);
    assert IndexRight(Polled(r, true, s, i.now).queue) by { PolledIndex(r, s, i.now); }
    PollAgrees(r, s, w, i.now);
    var at := Clock(s, w, i.now);
    var polled := Polled(r, true, s, i.now);
    var before := LC.State(s.leaky.counter, w);
    var first := if Delivers(s, i.now) then LC.Hit(at) else LC.Poll(at);
    OneInput(r, before, first);
    NoLeak(r, polled.leaky.counter, at);
    OneInput(r, LC.State(polled.leaky.counter, at), LC.Hit(at));
    TakeAllAppend(r, before, [first], [LC.Hit(at)]);
    assert [first] + [] == [first];
  }

  lemma PolledIndex(r: LC.Rates, s: State, now: real)
    requires IndexRight(s.queue)
    ensures IndexRight(Polled(r, true, s, now).queue)
  {
    GetIndex(s.queue, now);
  }

  /** Whatever is delivered when, a run reads what a leaky counter without a queue reads of the
      deliveries, on the clock that stands still before each delivering poll. */
  lemma {:induction false} RunAgrees(r: LC.Rates, s: State, w: real, inputs: seq<Input>)
    requires IndexRight(s.queue) && s.leaky.counter >= 0.0 && r.increment >= 0.0
    ensures Run(r, s, inputs).leaky.counter >= 0.0
    ensures LC.TakeAll(r, LC.State(s.leaky.counter, w), Trace(r, s, w, inputs)) ==
            LC.State(Run(r, s, inputs).leaky.counter, EndClock(r, s, w, inputs))
    decreases |inputs|
  {
    hide Step, Effects, LC.Take, Clock;
    if inputs != [] {
      var i := inputs[0];
      StepAgrees(r, s, w, i);
      var t := Step(r, s, i);
      RunAgrees(r, t, Clock(s, w, i.now), inputs[1..]);
      TakeAllAppend(r, LC.State(s.leaky.counter, w), Effects(r, s, w, i), Trace(r, t, Clock(s, w, i.now), inputs[1..]));
    }
  }

  predicate ClockRuns(from: real, inputs: seq<Input>)
    decreases |inputs|
  {
    inputs == [] || (from <= inputs[0].now && ClockRuns(inputs[0].now, inputs[1..]))
  }

  lemma OrderCons(w: real, at: real, a: seq<LC.Input>, b: seq<LC.Input>, end: real)
    requires w <= at && (forall k :: 0 <= k < |a| ==> a[k].time == at) && LC.InOrder(at, b, end)
    ensures LC.InOrder(w, a + b, end)
  {}

  lemma {:induction false} TraceInOrder(r: LC.Rates, s: State, w: real, inputs: seq<Input>)
    requires IndexRight(s.queue) && s.leaky.counter >= 0.0 && r.increment >= 0.0 && ClockRuns(s.leaky.last, inputs)
    ensures LC.InOrder(w, Trace(r, s, w, inputs), EndClock(r, s, w, inputs))
    decreases |inputs|
  {
    hide Step, LC.InOrder, Counts, Polled, Delivers;
    if inputs == [] {
      assert LC.InOrder(w, [], w) by { NothingInOrder(w); }
    } else {
      var i := inputs[0];
      StepAgrees(r, s, w, i);
      var t := Step(r, s, i);
      TraceInOrder(r, t, Clock(s, w, i.now), inputs[1..]);
      OrderCons(w, Clock(s, w, i.now), Effects(r, s, w, i), Trace(r, t, Clock(s, w, i.now), inputs[1..]), EndClock(r, s, w, inputs));
    }
  }

  lemma NothingInOrder(w: real)
    ensures LC.InOrder(w, [], w)
  {}

  /** Closed form of a queue-fed counter: after any run from zero, in which every message is preceded
      by a poll, the counter is the largest of zero and, over all deliveries i, the increment times
      the deliveries from i on minus the decrement times the time since i, the intervals that ended
      in a delivering poll left out. */
  lemma QueuedClosedForm(r: LC.Rates, s: State, inputs: seq<Input>)
    requires IndexRight(s.queue) && s.leaky.counter == 0.0
    requires r.increment >= 0.0 && r.decrement >= 0.0 && ClockRuns(s.leaky.last, inputs)
    ensures var start := s.leaky.last;
            Run(r, s, inputs).leaky.counter ==
            LC.Peak(r, LC.Hits(Trace(r, s, start, inputs)), EndClock(r, s, start, inputs))
  {
    hide Trace, EndClock, Run, LC.TakeAll, LC.Take, LC.Peak, LC.Hits, LC.InOrder, LC.Leak;
    var start := s.leaky.last;
    var trace, end := Trace(r, s, start, inputs), EndClock(r, s, start, inputs);
    RunAgrees(r, s, start, inputs);
    TraceInOrder(r, s, start, inputs);
    LC.ClosedForm(r, start, trace, end);
    NoLeak(r, Run(r, s, inputs).leaky.counter, end);
  }
}
