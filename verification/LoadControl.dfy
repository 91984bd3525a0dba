/** One controlled load and the scheduler's choices among several, as functions on values.
    The clock is an argument: one instant for each message handled. */
module LoadControl {

  /** `setting` is the configured latency, `latency` the value read from it on first use. */
  datatype Control = Control(
    name: string, status: string, mode: string, priority: int, nominal: real, setting: real,
    latency: real, estimate: real, waitUntil: real)
  {
    predicate Enabled() { status == "ON" }

    predicate Running() { mode == "ON" }

    function Lockout(): real { if latency < 0.0 then setting else latency }

    function Load(): real { if estimate == 0.0 then nominal else estimate }

    predicate MayStart(now: real, available: real) {
      !(waitUntil > now) && Enabled() && !Running() && available * 0.9 >= Load()
    }

    predicate MayStop(now: real) { !(waitUntil > now) && Enabled() && Running() }

    /** A stop or start that takes effect: the mode as asked, and no automatic command for a
        latency from now. */
    function Switched(newMode: string, now: real): Control {
      this.(mode := newMode, latency := Lockout(), waitUntil := now + Lockout())
    }

    predicate StopActs(force: bool) { Enabled() && (Running() || force) }

    predicate StartActs(force: bool) { Enabled() && (!Running() || force) }

    function Stop(now: real, force: bool): Control {
      if StopActs(force) then Switched(if Running() then "OFF" else mode, now) else this
    }

    function Start(now: real, force: bool): Control {
      if StartActs(force) then Switched("ON", now) else this
    }
  }

  datatype Choice = Nobody | Pick(index: nat)

  const PRIORITY_LIMIT := 1000

  /** The first stoppable control of least priority below the limit. */
  function StopChoice(cs: seq<Control>, now: real): (r: Choice)
    ensures r.Pick? ==> r.index < |cs| && cs[r.index].MayStop(now) && cs[r.index].priority < PRIORITY_LIMIT
    ensures r.Pick? ==> forall j :: 0 <= j < |cs| && cs[j].MayStop(now) ==>
                          cs[r.index].priority < cs[j].priority || (cs[r.index].priority == cs[j].priority && r.index <= j)
    ensures r.Nobody? ==> forall j :: 0 <= j < |cs| && cs[j].MayStop(now) ==> cs[j].priority >= PRIORITY_LIMIT
  {
    if cs == [] then Nobody
    else
      var n := |cs| - 1;
      var r := StopChoice(cs[..n], now);
      if cs[n].MayStop(now) && cs[n].priority < (if r.Pick? then cs[r.index].priority else PRIORITY_LIMIT)
      then Pick(n) else r
  }

  /** The last startable control of greatest priority, negative priorities left out. */
  function StartChoice(cs: seq<Control>, now: real, available: real): (r: Choice)
    ensures r.Pick? ==> r.index < |cs| && cs[r.index].MayStart(now, available) && cs[r.index].priority >= 0
    ensures r.Pick? ==> forall j :: 0 <= j < |cs| && cs[j].MayStart(now, available) ==>
                          cs[r.index].priority > cs[j].priority || (cs[r.index].priority == cs[j].priority && r.index >= j)
    ensures r.Nobody? ==> forall j :: 0 <= j < |cs| && cs[j].MayStart(now, available) ==> cs[j].priority < 0
  {
    if cs == [] then Nobody
    else
      var n := |cs| - 1;
      var r := StartChoice(cs[..n], now, available);
      if cs[n].MayStart(now, available) && cs[n].priority >= (if r.Pick? then cs[r.index].priority else 0)
      then Pick(n) else r
  }

  /** Looking at one more control, as the two selection loops do. */
  lemma StopChoiceNext(cs: seq<Control>, now: real, i: nat)
    requires i < |cs|
    ensures var r := StopChoice(cs[..i], now);
            StopChoice(cs[..i + 1], now) ==
            if cs[i].MayStop(now) && cs[i].priority < (if r.Pick? then cs[r.index].priority else PRIORITY_LIMIT) then Pick(i) else r
  {
    assert cs[..i + 1][..i] == cs[..i];
  }

  lemma StartChoiceNext(cs: seq<Control>, now: real, available: real, i: nat)
    requires i < |cs|
    ensures var r := StartChoice(cs[..i], now, available);
            StartChoice(cs[..i + 1], now, available) ==
            if cs[i].MayStart(now, available) && cs[i].priority >= (if r.Pick? then cs[r.index].priority else 0) then Pick(i) else r
  {
    assert cs[..i + 1][..i] == cs[..i];
  }

  // ---------- the scheduler ----------

  const MAX_THRESHOLD := 10000.0

  datatype Threshold = Unset | Limit(value: real)

  datatype State = State(
    active: bool, controls: seq<Control>, threshold: Threshold,
    lastStopped: nat, stopTime: real, atStop: real)
  {
    predicate Valid() { stopTime > 0.0 ==> lastStopped < |controls| }

    function Target(): real { if threshold.Limit? then threshold.value else MAX_THRESHOLD }
  }

  datatype Command = Command(index: nat, on: bool)

  /** What the first measurement after a stop teaches about the load that was stopped. */
  function Learn(s: State, power: real): State
    requires s.Valid()
  {
    if s.stopTime > 0.0 then
      var delta := s.atStop - power;
      s.(controls := if delta > 0.0 then s.controls[s.lastStopped := s.controls[s.lastStopped].(estimate := delta)] else s.controls,
         stopTime := 0.0)
    else s
  }

  function Reduce(s: State, now: real, power: real): (State, seq<Command>) {
    match StopChoice(s.controls, now)
    case Nobody => (s, [])
    case Pick(m) =>
      (s.(controls := s.controls[m := s.controls[m].Stop(now, false)], lastStopped := m, stopTime := now, atStop := power),
       [Command(m, false)])
  }

  function Increase(s: State, now: real, available: real): (State, seq<Command>) {
    match StartChoice(s.controls, now, available)
    case Nobody => (s, [])
    case Pick(m) => (s.(controls := s.controls[m := s.controls[m].Start(now, false)]), [Command(m, true)])
  }

  /** One measurement of the controlled power: learn, then at most one command. */
  function Measure(s: State, now: real, power: real): (r: (State, seq<Command>))
    requires s.Valid()
    ensures r.0.Valid() && |r.0.controls| == |s.controls| && |r.1| <= 1
  {
    if !s.active then (s, [])
    else
      var t := Learn(s, power);
      if power > s.Target() then Reduce(t, now, power)
      else if power < s.Target() then Increase(t, now, s.Target() - power)
      else (t, [])
  }

  /** Forced repetition of the command that matches each mode. */
  function Aligned(c: Control, now: real): Control {
    if c.mode == "OFF" then c.Stop(now, true) else if c.mode == "ON" then c.Start(now, true) else c
  }

  function AlignSome(cs: seq<Control>, now: real, k: nat): (r: seq<Control>)
    requires k <= |cs|
    ensures |r| == |cs|
  {
    seq(|cs|, i requires 0 <= i < |cs| => if i < k then Aligned(cs[i], now) else cs[i])
  }

  function AlignCommands(cs: seq<Control>): (r: seq<Command>)
    ensures forall k :: 0 <= k < |r| ==> r[k].index < |cs|
  {
    if cs == [] then []
    else
      var n := |cs| - 1;
      var c := cs[n];
      AlignCommands(cs[..n]) +
      if c.Enabled() && (c.mode == "OFF" || c.mode == "ON") then [Command(n, c.mode == "ON")] else []
  }

  function Align(s: State, now: real): State {
    if !s.active then s else s.(controls := AlignSome(s.controls, now, |s.controls|))
  }

  // ---------- what operators may change ----------

  predicate OnOff(v: string) { v == "ON" || v == "OFF" }

  datatype Change<T> = Keep | Put(value: T)

  /** An operator's update of one control: a field is left alone, or set if its value is legal. */
  datatype Update = Update(status: string, mode: string, priority: Change<int>, nominal: Change<real>)

  function Updated(c: Control, u: Update): Control {
    c.(status := if OnOff(u.status) then u.status else c.status,
       mode := if OnOff(u.mode) then u.mode else c.mode,
       priority := if u.priority.Put? then u.priority.value else c.priority,
       nominal := if u.nominal.Put? then u.nominal.value else c.nominal)
  }

  /** Only the first control of that name. */
  function UpdateFirst(cs: seq<Control>, name: string, u: Update): (r: seq<Control>)
    ensures |r| == |cs|
  {
    if cs == [] then []
    else if cs[0].name == name then [Updated(cs[0], u)] + cs[1..]
    else [cs[0]] + UpdateFirst(cs[1..], name, u)
  }

  /** Every control of that name; the empty name stands for all when `all` is set. */
  function UpdateEvery(cs: seq<Control>, all: bool, name: string, u: Update): (r: seq<Control>)
    ensures |r| == |cs|
    ensures forall i :: 0 <= i < |cs| ==> r[i] == if all || cs[i].name == name then Updated(cs[i], u) else cs[i]
  {
    seq(|cs|, i requires 0 <= i < |cs| => if all || cs[i].name == name then Updated(cs[i], u) else cs[i])
  }

  const RESET := Update("", "OFF", Put(0), Keep)

  function ModeOf(value: string): string { if value == "1" then "ON" else if value == "0" then "OFF" else value }

  function ModeUpdate(value: string): Update { Update("", ModeOf(value), Keep, Keep) }

  // ---------- one control never changes what a step does not name ----------

  /** Fields that a step of any kind keeps: names and the effective latency. */
  predicate SameIdentity(c: Control, d: Control) { c.name == d.name && c.Lockout() == d.Lockout() }

  lemma {:induction false} UpdateFirstAt(cs: seq<Control>, name: string, u: Update, i: nat)
    requires i < |cs|
    ensures var d := UpdateFirst(cs, name, u)[i]; d == cs[i] || (cs[i].name == name && d == Updated(cs[i], u))
    decreases |cs|
  {
    if cs[0].name != name && i > 0 { UpdateFirstAt(cs[1..], name, u, i - 1); }
  }
}
