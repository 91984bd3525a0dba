/** A queue that holds messages back for a fixed delay and remembers which one is due next. */
module DelayQueue {

  const MAX_DELAY_QUEUE := 100

  datatype Deadline = Never | At(time: real)

  datatype Entry<M> = Entry(message: M, appended: real, deadline: real)

  /** How an entry left: delivered at some instant, or dropped by a clear. */
  datatype Departure<M> = Delivered(entry: Entry<M>, time: real) | Dropped(entry: Entry<M>)

  datatype Queue<M> = Queue(
    delay: real, items: seq<Entry<M>>, nextMessage: nat, nextDeadline: Deadline,
    accepted: seq<Entry<M>>, departed: seq<Departure<M>>)

  function Empty<M>(delay: real): Queue<M> { Queue(delay, [], 0, At(0.0), [], []) }

  predicate Due(d: Deadline, now: real) { d.At? && now >= d.time }

  /** Index of the first earliest deadline; zero when there is none. */
  function Earliest<M>(items: seq<Entry<M>>): (k: nat)
    ensures if items == [] then k == 0 else k < |items|
    ensures forall i :: 0 <= i < |items| ==> items[k].deadline <= items[i].deadline
    ensures forall i :: 0 <= i < k ==> items[k].deadline < items[i].deadline
  {
    if |items| <= 1 then 0
    else
      var n := |items| - 1;
      var k := Earliest(items[..n]);
      assert forall i :: 0 <= i < n ==> items[..n][i] == items[i];
      if items[n].deadline < items[k].deadline then n else k
  }

  function Refreshed<M>(q: Queue<M>): Queue<M> {
    var k := Earliest(q.items);
    q.(nextMessage := k, nextDeadline := if q.items == [] then Never else At(q.items[k].deadline))
  }

  predicate CanGet<M>(q: Queue<M>, now: real) { |q.items| != 0 && Due(q.nextDeadline, now) }

  function Get<M>(q: Queue<M>, now: real): Queue<M>
    requires CanGet(q, now) ==> q.nextMessage < |q.items|
  {
    if !CanGet(q, now) then q
    else
      var k := q.nextMessage;
      Refreshed(q.(items := q.items[..k] + q.items[k + 1..], departed := q.departed + [Delivered(q.items[k], now)]))
  }

  predicate CanAppend<M>(q: Queue<M>) { |q.items| <= MAX_DELAY_QUEUE }

  function Append<M>(q: Queue<M>, m: M, now: real): Queue<M> {
    if !CanAppend(q) then q
    else
      var e := Entry(m, now, now + q.delay);
      Refreshed(q.(items := q.items + [e], accepted := q.accepted + [e]))
  }

  function Drops<M>(items: seq<Entry<M>>): (ds: seq<Departure<M>>)
    ensures |ds| == |items| && forall i :: 0 <= i < |items| ==> ds[i] == Dropped(items[i])
  {
    seq(|items|, i requires 0 <= i < |items| => Dropped(items[i]))
  }

  /** Forgets the entries but not the cached deadline. */
  function Clear<M>(q: Queue<M>): Queue<M> {
    q.(items := [], departed := q.departed + Drops(q.items))
  }

  function EntriesOf<M>(ds: seq<Departure<M>>): (es: seq<Entry<M>>)
    ensures |es| == |ds| && forall i :: 0 <= i < |ds| ==> es[i] == ds[i].entry
  {
    seq(|ds|, i requires 0 <= i < |ds| => ds[i].entry)
  }

  // ---------- what every operation keeps ----------

  /** The cache is right whenever the queue is not empty. */
  ghost predicate CacheRight<M>(q: Queue<M>) {
    q.items != [] ==> q.nextMessage == 0 && q.nextDeadline == At(q.items[0].deadline)
  }

  predicate Sorted<M>(items: seq<Entry<M>>) {
    forall i, j :: 0 <= i < j < |items| ==> items[i].deadline <= items[j].deadline
  }

  /** Nothing queued is due later than a message appended now would be. */
  predicate Bounded<M>(items: seq<Entry<M>>, latest: real) { forall i :: 0 <= i < |items| ==> items[i].deadline <= latest }

  /** What was accepted is what left, in that order, followed by what is queued. */
  ghost predicate Conserved<M>(q: Queue<M>) { q.accepted == EntriesOf(q.departed) + q.items }

  predicate Stamped<M>(es: seq<Entry<M>>, delay: real) { forall i :: 0 <= i < |es| ==> es[i].deadline == es[i].appended + delay }

  predicate NoneEarly<M>(ds: seq<Departure<M>>) {
    forall i :: 0 <= i < |ds| && ds[i].Delivered? ==> ds[i].time >= ds[i].entry.deadline
  }

  ghost predicate Valid<M>(q: Queue<M>, clock: real) {
    && CacheRight(q) && Sorted(q.items) && Bounded(q.items, clock + q.delay)
    && |q.items| <= MAX_DELAY_QUEUE + 1
    && Conserved(q) && Stamped(q.accepted, q.delay) && NoneEarly(q.departed)
  }

  lemma FirstIsEarliest<M>(items: seq<Entry<M>>)
    requires items != [] && Sorted(items)
    ensures Earliest(items) == 0
  {}

  lemma RefreshedCache<M>(q: Queue<M>)
    requires Sorted(q.items)
    ensures CacheRight(Refreshed(q))
  {
    if q.items != [] { FirstIsEarliest(q.items); }
  }

  lemma GetValid<M>(q: Queue<M>, clock: real, now: real)
    requires Valid(q, clock) && clock <= now
    ensures Valid(Get(q, now), now)
    ensures CanGet(q, now) <==> q.items != [] && now >= q.items[0].deadline
    ensures CanGet(q, now) ==> Get(q, now).items == q.items[1..] && Get(q, now).departed == q.departed + [Delivered(q.items[0], now)]
  {
    hide Earliest, EntriesOf;
    if CanGet(q, now) {
      var first, rest := q.items[0], q.items[1..];
      var d := Delivered(first, now);
      assert q.items[..0] + q.items[0 + 1..] == rest;
      assert Sorted(rest) && Bounded(rest, now + q.delay);
      var t := q.(items := rest, departed := q.departed + [d]);
      RefreshedCache(t);
      assert Conserved(t) by { LeaveInOrder(q, d); }
      assert NoneEarly(t.departed);
    }
  }

  lemma LeaveInOrder<M>(q: Queue<M>, d: Departure<M>)
    requires Conserved(q) && q.items != [] && d.entry == q.items[0]
    ensures Conserved(q.(items := q.items[1..], departed := q.departed + [d]))
  {
    assert EntriesOf(q.departed + [d]) == EntriesOf(q.departed) + [d.entry];
    assert q.items == [q.items[0]] + q.items[1..];
  }

  lemma AppendValid<M>(q: Queue<M>, clock: real, m: M, now: real)
    requires Valid(q, clock) && clock <= now
    ensures Valid(Append(q, m, now), now)
  {
    hide Earliest, EntriesOf;
    if CanAppend(q) {
      var e := Entry(m, now, now + q.delay);
      var t := q.(items := q.items + [e], accepted := q.accepted + [e]);
      assert Sorted(t.items) && Bounded(t.items, now + q.delay) && Stamped(t.accepted, q.delay);
      RefreshedCache(t);
      assert Conserved(t);
    }
  }

  lemma ClearValid<M>(q: Queue<M>, clock: real)
    requires Valid(q, clock)
    ensures Valid(Clear(q), clock)
  {
    var t := Clear(q);
    assert EntriesOf(t.departed) == EntriesOf(q.departed) + q.items;
    assert t.accepted == EntriesOf(t.departed) + t.items;
  }

  /** A queue of at most a hundred messages takes one more, due after its delay; a fuller one refuses. */
  lemma AppendAccepts<M>(q: Queue<M>, m: M, now: real)
    ensures var t := Append(q, m, now);
            if |q.items| <= 100 then
              && CanAppend(q) && t.items == q.items + [Entry(m, now, now + q.delay)]
              && t.accepted == q.accepted + [Entry(m, now, now + q.delay)] && t.departed == q.departed
            else !CanAppend(q) && t == q
  {}

  /** A clear leaves nothing, and counts what it dropped as dropped. */
  lemma ClearDrops<M>(q: Queue<M>)
    ensures var t := Clear(q);
            && t.items == [] && t.accepted == q.accepted && |t.departed| == |q.departed| + |q.items|
            && forall i :: 0 <= i < |q.items| ==> t.departed[|q.departed| + i] == Dropped(q.items[i])
  {
    var t := Clear(q);
    assert t.departed == q.departed + Drops(q.items);
    hide Clear;
  }

  // ---------- runs ----------

  datatype Op<M> = DoGet | DoAppend(message: M) | DoClear

  datatype Timed<M> = Timed(now: real, op: Op<M>)

  /** The index a step erases is in range: true of every queue a run reaches. */
  predicate IndexRight<M>(q: Queue<M>) { q.items != [] ==> q.nextMessage < |q.items| }

  function Step<M>(q: Queue<M>, step: Timed<M>): (r: Queue<M>)
    requires IndexRight(q)
    ensures IndexRight(r)
  {
    match step.op
    case DoGet => Get(q, step.now)
    case DoAppend(m) => Append(q, m, step.now)
    case DoClear => Clear(q)
  }

  function Run<M>(q: Queue<M>, steps: seq<Timed<M>>): (r: Queue<M>)
    requires IndexRight(q)
    decreases |steps|
  {
    if steps == [] then q else Run(Step(q, steps[0]), steps[1..])
  }

  predicate ClockRuns<M>(clock: real, steps: seq<Timed<M>>) {
    && (forall i :: 0 <= i < |steps| ==> clock <= steps[i].now)
    && (forall i, j :: 0 <= i < j < |steps| ==> steps[i].now <= steps[j].now)
  }

  function EndOf<M>(clock: real, steps: seq<Timed<M>>): real {
    if steps == [] then clock else steps[|steps| - 1].now
  }

  lemma {:induction false} RunValid<M>(q: Queue<M>, clock: real, steps: seq<Timed<M>>)
    requires Valid(q, clock) && ClockRuns(clock, steps)
    ensures Valid(Run(q, steps), EndOf(clock, steps))
    decreases |steps|
  {
    hide Valid, Get, Append, Clear;
    ValidIndex(q, clock);
    if steps != [] {
      var now := steps[0].now;
      match steps[0].op {
        case DoGet => GetValid(q, clock, now);
        case DoAppend(m) => AppendValid(q, clock, m, now);
        case DoClear => ClearValid(q, clock); LaterValid(Clear(q), clock, now);
      }
      RunValid(Step(q, steps[0]), now, steps[1..]);
    }
  }

  lemma ValidIndex<M>(q: Queue<M>, clock: real)
    requires Valid(q, clock)
    ensures IndexRight(q)
  {}

  lemma LaterValid<M>(q: Queue<M>, clock: real, now: real)
    requires Valid(q, clock) && clock <= now
    ensures Valid(q, now)
  {}

  /** Delay queue: in every run of appends, gets and clears, the cached index of a non-empty queue
      points at an earliest deadline, whatever clears left in the cache; entries leave in the
      order they came, none is delivered before its append time plus the delay, at most 101 are
      held, and what was accepted is what left followed by what is queued. */
  lemma QueueDiscipline<M>(delay: real, steps: seq<Timed<M>>)
    requires forall i, j :: 0 <= i < j < |steps| ==> steps[i].now <= steps[j].now
    ensures var q := Run(Empty(delay), steps);
            && (q.items != [] ==> q.nextMessage < |q.items| && q.nextDeadline == At(q.items[q.nextMessage].deadline)
                                  && forall i :: 0 <= i < |q.items| ==> q.items[q.nextMessage].deadline <= q.items[i].deadline)
            && q.accepted == EntriesOf(q.departed) + q.items
            && |q.items| <= 101
            && (forall i :: 0 <= i < |q.departed| && q.departed[i].Delivered? ==>
                  q.departed[i].time >= q.departed[i].entry.appended + delay)
  {
    var q0: Queue<M> := Empty(delay);
    var clock := if steps == [] then 0.0 else steps[0].now;
    assert q0.accepted == EntriesOf(q0.departed) + q0.items;
    RunValid(q0, clock, steps);
    var q := Run(q0, steps);
    RunKeepsDelay(q0, steps);
    forall i | 0 <= i < |q.departed| && q.departed[i].Delivered?
      ensures q.departed[i].time >= q.departed[i].entry.appended + delay
    {
      assert q.accepted[i] == q.departed[i].entry;
    }
  }

  /** Delivery is certain: as many gets as there are messages, at times when all are due, deliver all of
      them, in order. */
  lemma {:induction false} GetsEmpty<M>(q: Queue<M>, clock: real, steps: seq<Timed<M>>)
    requires Valid(q, clock) && ClockRuns(clock, steps) && |steps| == |q.items|
    requires forall i :: 0 <= i < |steps| ==> steps[i].op.DoGet?
    requires steps != [] ==> forall i :: 0 <= i < |q.items| ==> q.items[i].deadline <= steps[0].now
    ensures IndexRight(q)
    ensures var t := Run(q, steps);
            && t.items == [] && |t.departed| == |q.departed| + |q.items|
            && forall i :: 0 <= i < |q.items| ==> t.departed[|q.departed| + i] == Delivered(q.items[i], steps[i].now)
    decreases |steps|
  {
    hide Valid, Get;
    ValidIndex(q, clock);
    if steps != [] {
      GetValid(q, clock, steps[0].now);
      var t := Get(q, steps[0].now);
      GetsEmpty(t, steps[0].now, steps[1..]);
      var d := |q.departed|;
      assert |t.departed| == d + 1 && t.departed[..d] == q.departed;
      KeepsDeparted(t, steps[1..]);
      forall i | 0 <= i < |q.items| ensures Run(q, steps).departed[d + i] == Delivered(q.items[i], steps[i].now) {
        if i > 0 { assert q.items[i] == t.items[i - 1] && steps[i] == steps[1..][i - 1]; }
      }
    }
  }

  lemma {:induction false} KeepsDeparted<M>(q: Queue<M>, steps: seq<Timed<M>>)
    requires IndexRight(q)
    ensures q.departed <= Run(q, steps).departed
    decreases |steps|
  {
    if steps != [] { KeepsDeparted(Step(q, steps[0]), steps[1..]); }
  }

  lemma {:induction false} RunKeepsDelay<M>(q: Queue<M>, steps: seq<Timed<M>>)
    requires IndexRight(q)
    ensures Run(q, steps).delay == q.delay
    decreases |steps|
  {
    if steps != [] { RunKeepsDelay(Step(q, steps[0]), steps[1..]); }
  }

  // ---------- the queue as an object ----------

  class DelayedMessages<M> {
    const delay: real
    var items: seq<Entry<M>>
    var next_message: nat
    var next_deadline: Deadline
    ghost var accepted: seq<Entry<M>>
    ghost var departed: seq<Departure<M>>

    ghost function View(): Queue<M>
      reads this
    {
      Queue(delay, items, next_message, next_deadline, accepted, departed)
    }

    constructor (delay: real)
      ensures View() == Empty(delay)
    {
      this.delay := delay;
      items, next_message, next_deadline := [], 0, At(0.0);
      accepted, departed := [], [];
    }

    /** Scans for the first earliest deadline and caches it. */
    method DeadlineUpdate()
      modifies this
      ensures View() == Refreshed(old(View()))
    {
      next_message := 0;
      next_deadline := Never;
      for i := 0 to |items|
        invariant View() == old(View()).(nextMessage := next_message, nextDeadline := next_deadline)
        invariant next_message == Earliest(items[..i])
        invariant next_deadline == if i == 0 then Never else At(items[next_message].deadline)
      {
        var t := items[i].deadline;
        assert items[..i + 1][..i] == items[..i];
        if next_deadline == Never || t < next_deadline.time {
          next_message := i;
          next_deadline := At(t);
        }
      }
      assert items[..|items|] == items;
    }

    method MessageGet(now: real) returns (found: bool, m: seq<M>)
      requires IndexRight(View())
      modifies this
      ensures View() == Get(old(View()), now)
      ensures found == CanGet(old(View()), now)
      ensures found ==> m == [old(items)[old(next_message)].message]
    {
      if |items| == 0 { return false, []; }
      if next_deadline.At? && now >= next_deadline.time {
        m := [items[next_message].message];
        departed := departed + [Delivered(items[next_message], now)];
        items := items[..next_message] + items[next_message + 1..];
        DeadlineUpdate();
        return true, m;
      }
      return false, [];
    }

    method MessageAppend(m: M, now: real) returns (kept: bool)
      modifies this
      ensures View() == Append(old(View()), m, now)
      ensures kept == CanAppend(old(View()))
    {
      if |items| > MAX_DELAY_QUEUE { return false; }
      var e := Entry(m, now, now + delay);
      items := items + [e];
      accepted := accepted + [e];
      DeadlineUpdate();
      return true;
    }

    method ClearAll()
      modifies this
      ensures View() == Clear(old(View()))
    {
      departed := departed + Drops(items);
      items := [];
    }
  }
}
