/** A counter that gains on every event and leaks with time, never below zero when polled. */
module LeakyCounter {

  datatype Rates = Rates(increment: real, decrement: real)

  datatype State = State(counter: real, last: real)

  datatype Input = Poll(time: real) | Hit(time: real)

  function Max(a: real, b: real): real { if a >= b then a else b }

  /** What leaks between two instants, and what a number of events adds. */
  function Leak(r: Rates, from: real, to: real): real { (to - from) * r.decrement }

  function Gain(r: Rates, events: nat): real { events as real * r.increment }

  /** Leak up to `now`. */
  function Decay(r: Rates, s: State, now: real): State {
    State(Max(s.counter - Leak(r, s.last, now), 0.0), now)
  }

  /** Every message first lets the time pass; a matching one then counts. */
  function Take(r: Rates, s: State, i: Input): State {
    var t := Decay(r, s, i.time);
    if i.Hit? then t.(counter := t.counter + r.increment) else t
  }

  function TakeAll(r: Rates, s: State, inputs: seq<Input>): State
    decreases |inputs|
  {
    if inputs == [] then s else TakeAll(r, Take(r, s, inputs[0]), inputs[1..])
  }

  /** The counter as read at time `now` after a trace of inputs. */
  function ReadAt(r: Rates, s: State, inputs: seq<Input>, now: real): real {
    Decay(r, TakeAll(r, s, inputs), now).counter
  }

  function Hits(inputs: seq<Input>): seq<real> {
    if inputs == [] then [] else (if inputs[0].Hit? then [inputs[0].time] else []) + Hits(inputs[1..])
  }

  predicate InOrder(start: real, inputs: seq<Input>, end: real) {
    && (forall i :: 0 <= i < |inputs| ==> start <= inputs[i].time <= end)
    && (forall i, j :: 0 <= i < j < |inputs| ==> inputs[i].time <= inputs[j].time)
    && start <= end
  }

  // ---------- the closed form ----------

  /** All events from the i-th on counted, and the leak since the i-th. */
  function Burst(r: Rates, hits: seq<real>, i: nat, now: real): real
    requires i < |hits|
  {
    Gain(r, |hits| - i) - Leak(r, hits[i], now)
  }

  /** The largest of zero and all bursts. */
  function Peak(r: Rates, hits: seq<real>, now: real): (p: real)
    ensures p >= 0.0
  {
    if hits == [] then 0.0 else Max(Burst(r, hits, 0, now), Peak(r, hits[1..], now))
  }

  lemma {:induction false} PeakIsMaximum(r: Rates, hits: seq<real>, now: real)
    ensures forall i :: 0 <= i < |hits| ==> Burst(r, hits, i, now) <= Peak(r, hits, now)
    ensures Peak(r, hits, now) == 0.0 || exists i :: 0 <= i < |hits| && Burst(r, hits, i, now) == Peak(r, hits, now)
    decreases |hits|
  {
    if hits != [] {
      PeakIsMaximum(r, hits[1..], now);
      hide Leak, Gain;
      assert forall i :: 0 <= i < |hits| - 1 ==> Burst(r, hits[1..], i, now) == Burst(r, hits, i + 1, now);
      forall i | 0 <= i < |hits| ensures Burst(r, hits, i, now) <= Peak(r, hits, now) {
        if i > 0 { assert Burst(r, hits[1..], i - 1, now) == Burst(r, hits, i, now); }
      }
      if Peak(r, hits, now) != 0.0 && Peak(r, hits, now) != Burst(r, hits, 0, now) {
        var i :| 0 <= i < |hits| - 1 && Burst(r, hits[1..], i, now) == Peak(r, hits[1..], now);
        assert Burst(r, hits, i + 1, now) == Peak(r, hits, now);
      }
    }
  }

  lemma LeakAdds(r: Rates, a: real, b: real, c: real)
    ensures Leak(r, a, c) == Leak(r, a, b) + Leak(r, b, c)
  {}

  lemma LeakSign(r: Rates, a: real, b: real)
    requires a <= b
    ensures r.decrement >= 0.0 ==> Leak(r, a, b) >= 0.0
    ensures r.decrement < 0.0 ==> Leak(r, a, b) <= 0.0
  {}

  lemma GainOneMore(r: Rates, n: nat)
    ensures Gain(r, n + 1) == Gain(r, n) + r.increment && Gain(r, 0) == 0.0
  {}

  lemma Later(r: Rates, hits: seq<real>, now: real, at: real)
    requires r.decrement >= 0.0 && at <= now && forall i :: 0 <= i < |hits| ==> at <= hits[i]
    ensures Gain(r, |hits|) - Leak(r, at, now) <= Peak(r, hits, now)
  {
    hide Leak, Gain;
    if hits == [] {
      LeakSign(r, at, now);
      GainOneMore(r, 0);
    } else {
      LeakAdds(r, at, hits[0], now);
      LeakSign(r, at, hits[0]);
    }
  }

  lemma {:induction false} HitsInOrder(start: real, inputs: seq<Input>, end: real)
    requires InOrder(start, inputs, end)
    ensures forall i :: 0 <= i < |Hits(inputs)| ==> start <= Hits(inputs)[i] <= end
    decreases |inputs|
  {
    if inputs != [] { HitsInOrder(inputs[0].time, inputs[1..], end); }
  }

  /** From any state: the largest of what the present value leads to and the bursts to come. */
  lemma {:induction false} FromState(r: Rates, s: State, inputs: seq<Input>, now: real)
    requires r.decrement >= 0.0 && InOrder(s.last, inputs, now)
    ensures ReadAt(r, s, inputs, now) ==
            Max(s.counter + Gain(r, |Hits(inputs)|) - Leak(r, s.last, now), Peak(r, Hits(inputs), now))
    decreases |inputs|
  {
    hide Leak, Gain, Hits, Peak;
    NoInputs(r, now);
    if inputs == [] {
      assert inputs == [];
    } else {
      var u := inputs[0].time;
      var rest := Hits(inputs[1..]);
      FromState(r, Take(r, s, inputs[0]), inputs[1..], now);
      LeakAdds(r, s.last, u, now);
      HitsInOrder(u, inputs[1..], now);
      FirstHit(inputs);
      if inputs[0].Hit? {
        GainOneMore(r, |rest|);
        PeakFirst(r, u, rest, now);
      } else {
        Later(r, rest, now, u);
      }
    }
  }

  lemma NoInputs(r: Rates, now: real)
    ensures Hits([]) == [] && Peak(r, [], now) == 0.0 && Gain(r, 0) == 0.0
  {}

  lemma FirstHit(inputs: seq<Input>)
    requires inputs != []
    ensures Hits(inputs) == if inputs[0].Hit? then [inputs[0].time] + Hits(inputs[1..]) else Hits(inputs[1..])
  {}

  lemma PeakFirst(r: Rates, first: real, rest: seq<real>, now: real)
    ensures Peak(r, [first] + rest, now) == Max(Gain(r, |rest| + 1) - Leak(r, first, now), Peak(r, rest, now))
  {
    assert ([first] + rest)[1..] == rest;
  }

  /** Leaky-counter closed form: starting at zero, whatever polls come in between, the counter
      read at `now` is the largest of zero and, over all events i, the increment times the number
      of events from i on minus the decrement times the time since i. */
  lemma ClosedForm(r: Rates, start: real, inputs: seq<Input>, now: real)
    requires r.decrement >= 0.0 && InOrder(start, inputs, now)
    ensures ReadAt(r, State(0.0, start), inputs, now) == Peak(r, Hits(inputs), now)
  {
    hide Leak, Gain, Hits, Peak, TakeAll, InOrder;
    FromState(r, State(0.0, start), inputs, now);
    HitsInOrder(start, inputs, now);
    assert start <= now by { OrderedEnds(start, inputs, now); }
    Later(r, Hits(inputs), now, start);
  }

  lemma OrderedEnds(start: real, inputs: seq<Input>, now: real)
    requires InOrder(start, inputs, now)
    ensures start <= now
  {}

  // ---------- how often it is polled ----------

  /** Rates for which the reading depends on the events alone. */
  predicate PollingIrrelevant(r: Rates) { r.decrement >= 0.0 || r.increment >= 0.0 }

  lemma {:induction false} NeverClamped(r: Rates, s: State, inputs: seq<Input>, now: real)
    requires r.decrement < 0.0 && r.increment >= 0.0 && s.counter >= 0.0 && InOrder(s.last, inputs, now)
    ensures ReadAt(r, s, inputs, now) == s.counter + Gain(r, |Hits(inputs)|) - Leak(r, s.last, now)
    decreases |inputs|
  {
    hide Leak, Gain;
    if inputs == [] {
      LeakSign(r, s.last, now);
      GainOneMore(r, 0);
    } else {
      var u := inputs[0].time;
      LeakSign(r, s.last, u);
      NeverClamped(r, Take(r, s, inputs[0]), inputs[1..], now);
      LeakAdds(r, s.last, u, now);
      GainOneMore(r, |Hits(inputs[1..])|);
      FirstHit(inputs);
      hide Hits;
    }
  }

  lemma PollingDoesNotMatter(r: Rates, start: real, a: seq<Input>, b: seq<Input>, now: real)
    requires PollingIrrelevant(r) && InOrder(start, a, now) && InOrder(start, b, now) && Hits(a) == Hits(b)
    ensures ReadAt(r, State(0.0, start), a, now) == ReadAt(r, State(0.0, start), b, now)
  {
    hide Leak, Gain, Hits, Peak, InOrder, ReadAt;
    if r.decrement >= 0.0 {
      ClosedForm(r, start, a, now);
      ClosedForm(r, start, b, now);
    } else {
      NeverClamped(r, State(0.0, start), a, now);
      NeverClamped(r, State(0.0, start), b, now);
    }
  }

  /** For every other pair of rates there is a trace in which one more poll changes the reading. */
  lemma PollingMatters(r: Rates) returns (now: real)
    requires !PollingIrrelevant(r)
    ensures now >= 0.0
    ensures Hits([Hit(0.0)]) == Hits([Hit(0.0), Poll(0.0)])
    ensures ReadAt(r, State(0.0, 0.0), [Hit(0.0)], now) != ReadAt(r, State(0.0, 0.0), [Hit(0.0), Poll(0.0)], now)
  {
    now := 2.0 * r.increment / r.decrement;
    assert now * r.decrement == 2.0 * r.increment;
    var s := State(0.0, 0.0);
    var t := Take(r, s, Hit(0.0));
    assert t == State(r.increment, 0.0);
    assert Take(r, t, Poll(0.0)) == s;
    assert [Hit(0.0), Poll(0.0)][1..] == [Poll(0.0)] && [Poll(0.0)][1..] == [];
    assert TakeAll(r, s, [Hit(0.0), Poll(0.0)]) == TakeAll(r, t, [Poll(0.0)]) == s;
    assert TakeAll(r, s, [Hit(0.0)]) == t;
    assert [Hit(0.0)][1..] == [];
  }
}
