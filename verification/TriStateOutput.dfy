/** A motor driven by two relays, one for each direction, which must never both be on. */
module TriStateOutput {

  /** Everything the device is configured with. */
  datatype Settings = Settings(
    name: string, up: string, down: string, upInput: string, downInput: string,
    defaultStatus: string, timed: bool, waitKey: string, remaps: map<string, string>)
  {
    function Remap(v: string): string { if v in remaps && remaps[v] != "" then remaps[v] else v }
  }

  datatype State = State(enabled: bool, status: string, upValue: string, downValue: string)

  datatype Notice = DevCmd(output: string, value: string) | Event(value: string) | Wait(key: string)

  datatype Message =
    | Command(value: string)
    | LocalEvent(channel: string, value: string)
    | WaitEnd

  function UpCase(v: string): string {
    if v == "off" then "OFF" else if v == "up" then "UP" else if v == "down" then "DOWN" else v
  }

  // ---------- what a message does ----------

  function Drive(c: Settings, target: string): seq<Notice> {
    if target == "UP" then [DevCmd(c.down, c.Remap("OFF")), DevCmd(c.up, c.Remap("ON"))]
    else if target == "DOWN" then [DevCmd(c.up, c.Remap("OFF")), DevCmd(c.down, c.Remap("ON"))]
    else if target == "OFF" then [DevCmd(c.up, c.Remap("OFF")), DevCmd(c.down, c.Remap("OFF"))]
    else []
  }

  function DoCommand(c: Settings, s: State, target: string): (State, seq<Notice>) {
    if s.status != target then
      (s.(status := target),
       Drive(c, target) + (if c.timed && target != c.defaultStatus then [Wait(c.waitKey)] else []) + [Event(target)])
    else (s, [Event(target)])
  }

  function DoWait(c: Settings, s: State): (State, seq<Notice>) {
    if s.status != c.defaultStatus then
      (s.(status := c.defaultStatus),
       [DevCmd(c.up, c.Remap(c.defaultStatus)), DevCmd(c.down, c.Remap(c.defaultStatus)), Event(c.defaultStatus)])
    else (s, [])
  }

  /** The direction two button levels call for; other levels call for nothing. */
  function Buttons(upValue: string, downValue: string): string {
    if upValue == "0" && downValue == "1" then "UP"
    else if upValue == "1" && downValue == "0" then "DOWN"
    else if upValue == "1" && downValue == "1" then "OFF"
    else if upValue == "0" && downValue == "0" then "UP"
    else ""
  }

  function Exec(c: Settings, s: State, m: Message): (State, seq<Notice>) {
    if !s.enabled then (s, [])
    else match m
      case Command(value) => DoCommand(c, s, UpCase(value))
      case LocalEvent(channel, value) =>
        var t := if channel == c.upInput then s.(upValue := UpCase(value))
                 else if channel == c.downInput then s.(downValue := UpCase(value)) else s;
        var target := Buttons(t.upValue, t.downValue);
        if target == "" then (t, []) else DoCommand(c, t, target)
      case WaitEnd => DoWait(c, s)
  }

  function Trace(c: Settings, s: State, ms: seq<Message>): seq<Notice>
    decreases |ms|
  {
    if ms == [] then []
    else
      var (t, notices) := Exec(c, s, ms[0]);
      notices + Trace(c, t, ms[1..])
  }

  // ---------- the relays ----------

  /** The two relays, moved by the device commands that reach their outputs. */
  datatype Relays = Relays(up: bool, down: bool)

  function Move(c: Settings, r: Relays, n: Notice): Relays {
    if !n.DevCmd? then r
    else
      var on := n.value == c.Remap("ON");
      var off := n.value == c.Remap("OFF");
      Relays(if n.output == c.up && on then true else if n.output == c.up && off then false else r.up,
             if n.output == c.down && on then true else if n.output == c.down && off then false else r.down)
  }

  function MoveAll(c: Settings, r: Relays, ns: seq<Notice>): Relays
    decreases |ns|
  {
    if ns == [] then r else MoveAll(c, Move(c, r, ns[0]), ns[1..])
  }

  /** Never both on, after any prefix of the commands. */
  predicate Safe(c: Settings, r: Relays, ns: seq<Notice>)
    decreases |ns|
  {
    !(r.up && r.down) && (ns == [] || Safe(c, Move(c, r, ns[0]), ns[1..]))
  }

  lemma {:induction false} SafeMeansPrefixes(c: Settings, r: Relays, ns: seq<Notice>, k: nat)
    requires Safe(c, r, ns) && k <= |ns|
    ensures var q := MoveAll(c, r, ns[..k]); !(q.up && q.down)
    decreases k
  {
    if k > 0 {
      SafeMeansPrefixes(c, Move(c, r, ns[0]), ns[1..], k - 1);
      assert ns[..k][1..] == ns[1..][..k - 1];
    }
  }

  lemma {:induction false} SafeAppend(c: Settings, r: Relays, a: seq<Notice>, b: seq<Notice>)
    requires Safe(c, r, a) && Safe(c, MoveAll(c, r, a), b)
    ensures Safe(c, r, a + b)
    decreases |a|
  {
    hide Move;
    if a == [] {
      assert a + b == b;
    } else {
      SafeAppend(c, Move(c, r, a[0]), a[1..], b);
      assert (a + b)[1..] == a[1..] + b;
    }
  }

  /** Two outputs, told apart, and two words that mean different things to them. */
  predicate WellWired(c: Settings) { c.up != c.down && c.Remap("ON") != c.Remap("OFF") }

  /** The value sent to both relays when a wait ends does not switch them on. */
  predicate RestsOff(c: Settings) { c.Remap(c.defaultStatus) != c.Remap("ON") }

  lemma SafeFour(c: Settings, r: Relays, ns: seq<Notice>)
    requires |ns| <= 4
    requires var r0 := r;
             var r1 := if |ns| > 0 then Move(c, r0, ns[0]) else r0;
             var r2 := if |ns| > 1 then Move(c, r1, ns[1]) else r1;
             var r3 := if |ns| > 2 then Move(c, r2, ns[2]) else r2;
             var r4 := if |ns| > 3 then Move(c, r3, ns[3]) else r3;
             !(r0.up && r0.down) && !(r1.up && r1.down) && !(r2.up && r2.down) && !(r3.up && r3.down) && !(r4.up && r4.down)
    ensures Safe(c, r, ns)
    ensures var q := MoveAll(c, r, ns); !(q.up && q.down)
    decreases |ns|
  {
    hide Move;
    if |ns| > 0 {
      SafeFour(c, Move(c, r, ns[0]), ns[1..]);
    }
  }

  lemma CommandSafe(c: Settings, s: State, r: Relays, target: string)
    requires WellWired(c) && !(r.up && r.down)
    ensures var ns := DoCommand(c, s, target).1;
            Safe(c, r, ns) && var q := MoveAll(c, r, ns); !(q.up && q.down)
  {
    SafeFour(c, r, DoCommand(c, s, target).1);
  }

  lemma StepSafe(c: Settings, s: State, r: Relays, m: Message)
    requires WellWired(c) && RestsOff(c) && !(r.up && r.down)
    ensures var ns := Exec(c, s, m).1;
            Safe(c, r, ns) && var q := MoveAll(c, r, ns); !(q.up && q.down)
  {
    hide DoCommand;
    match m
    case Command(value) =>
      CommandSafe(c, s, r, UpCase(value));
    case LocalEvent(channel, value) =>
      var t := if channel == c.upInput then s.(upValue := UpCase(value))
               else if channel == c.downInput then s.(downValue := UpCase(value)) else s;
      CommandSafe(c, t, r, Buttons(t.upValue, t.downValue));
    case WaitEnd =>
      SafeFour(c, r, DoWait(c, s).1);
  }

  /** Relay interlock: from any state with at most one relay on, no sequence of commands, button
      changes and timer ends ever has both relays on, not even between two of its commands. */
  lemma {:induction false} Interlock(c: Settings, s: State, r: Relays, ms: seq<Message>)
    requires WellWired(c) && RestsOff(c) && !(r.up && r.down)
    ensures Safe(c, r, Trace(c, s, ms))
    decreases |ms|
  {
    hide Exec, Move, WellWired, RestsOff;
    if ms != [] {
      StepSafe(c, s, r, ms[0]);
      var (t, ns) := Exec(c, s, ms[0]);
      Interlock(c, t, MoveAll(c, r, ns), ms[1..]);
      SafeAppend(c, r, ns, Trace(c, t, ms[1..]));
    }
  }

  /** The condition on the default is needed: otherwise a command away from it and the end of a
      wait switch both relays on. */
  lemma InterlockBreaks(c: Settings, s: State)
    requires WellWired(c) && !RestsOff(c) && s.enabled
    ensures exists ms :: !Safe(c, Relays(false, false), Trace(c, s, ms))
  {
    hide Move, MoveAll, Safe, Drive, Trace;
    var away := if c.defaultStatus == "UP" then "DOWN" else "UP";
    var r := Relays(false, false);
    var t, ns := Exec(c, s, Command(away)).0, Exec(c, s, Command(away)).1;
    assert UpCase(away) == away && t.status == away && away != c.defaultStatus;
    var both := [DevCmd(c.up, c.Remap("ON")), DevCmd(c.down, c.Remap("ON"))];
    var rest := [Event(c.defaultStatus)];
    assert Exec(c, t, WaitEnd).1 == both + rest;
    var ms := [Command(away), WaitEnd];
    TraceOfTwo(c, s, Command(away), WaitEnd);
    var trace := Trace(c, s, ms);
    if Safe(c, r, trace) {
      SafeMeansPrefixes(c, r, trace, |ns| + 2);
      assert trace[..|ns| + 2] == ns + both;
      MoveAllAppend(c, r, ns, both);
      BothOn(c, MoveAll(c, r, ns));
    }
    assert !Safe(c, r, trace);
  }

  lemma TraceOfTwo(c: Settings, s: State, m: Message, n: Message)
    ensures Trace(c, s, [m, n]) == Exec(c, s, m).1 + Exec(c, Exec(c, s, m).0, n).1
  {
    hide Exec;
    var t := Exec(c, s, m).0;
    assert [m, n][1..] == [n] && [n][1..] == [];
    assert Trace(c, t, [n]) == Exec(c, t, n).1 + Trace(c, Exec(c, t, n).0, []);
  }

  lemma BothOn(c: Settings, r: Relays)
    ensures MoveAll(c, r, [DevCmd(c.up, c.Remap("ON")), DevCmd(c.down, c.Remap("ON"))]) == Relays(true, true) || c.up == c.down
  {
    var a, b := DevCmd(c.up, c.Remap("ON")), DevCmd(c.down, c.Remap("ON"));
    assert [a, b][1..] == [b] && [b][1..] == [];
    var q := Move(c, r, a);
    assert MoveAll(c, r, [a, b]) == MoveAll(c, q, [b]) == MoveAll(c, Move(c, q, b), []);
  }

  lemma {:induction false} MoveAllAppend(c: Settings, r: Relays, a: seq<Notice>, b: seq<Notice>)
    ensures MoveAll(c, r, a + b) == MoveAll(c, MoveAll(c, r, a), b)
    decreases |a|
  {
    hide Move;
    if a == [] {
      assert a + b == b;
    } else {
      assert (a + b)[1..] == a[1..] + b;
      MoveAllAppend(c, Move(c, r, a[0]), a[1..], b);
    }
  }

  // ---------- the device as an object ----------

  class TriStateOutput {
    const settings: Settings
    var enabled: bool
    var currentStatus: string
    var ing1v: string
    var ing2v: string
    ghost var notices: seq<Notice>

    ghost function View(): State
      reads this
    {
      State(enabled, currentStatus, ing1v, ing2v)
    }

    constructor (settings: Settings, enabled: bool, currentStatus: string, ing1v: string, ing2v: string)
      ensures View() == State(enabled, currentStatus, if ing1v == "" then "1" else ing1v, if ing2v == "" then "1" else ing2v)
      ensures this.settings == settings && notices == []
    {
      this.settings, this.enabled, this.currentStatus := settings, enabled, currentStatus;
      this.ing1v := if ing1v == "" then "1" else ing1v;
      this.ing2v := if ing2v == "" then "1" else ing2v;
      notices := [];
    }

    method ExecCmd(m: Message)
      modifies this
      ensures var (s, ns) := Exec(settings, old(View()), m);
              View() == s && notices == old(notices) + ns
    {
      hide DoCommand, DoWait;
      assert notices + [] == notices;
      if !enabled { return; }
      match m {
        case Command(value) =>
          DoCmdAction(UpCase(value));
        case LocalEvent(channel, value) =>
          if channel == settings.upInput { ing1v := UpCase(value); }
          else if channel == settings.downInput { ing2v := UpCase(value); }
          if ing1v == "0" && ing2v == "1" { DoCmdAction("UP"); }
          else if ing1v == "1" && ing2v == "0" { DoCmdAction("DOWN"); }
          else if ing1v == "1" && ing2v == "1" { DoCmdAction("OFF"); }
          else if ing1v == "0" && ing2v == "0" { DoCmdAction("UP"); }
        case WaitEnd =>
          DoWaitAction();
      }
    }

    method DoCmdAction(newstate: string)
      modifies this`currentStatus, this`notices
      ensures var (s, ns) := DoCommand(settings, old(View()), newstate);
              View() == s && notices == old(notices) + ns
    {
      if currentStatus != newstate {
        if newstate == "UP" {
          Notify(DevCmd(settings.down, settings.Remap("OFF")));
          Notify(DevCmd(settings.up, settings.Remap("ON")));
        } else if newstate == "DOWN" {
          Notify(DevCmd(settings.up, settings.Remap("OFF")));
          Notify(DevCmd(settings.down, settings.Remap("ON")));
        } else if newstate == "OFF" {
          Notify(DevCmd(settings.up, settings.Remap("OFF")));
          Notify(DevCmd(settings.down, settings.Remap("OFF")));
        }
        currentStatus := newstate;
        if settings.timed && currentStatus != settings.defaultStatus { Notify(Wait(settings.waitKey)); }
      }
      Notify(Event(newstate));
    }

    method DoWaitAction()
      modifies this`currentStatus, this`notices
      ensures var (s, ns) := DoWait(settings, old(View()));
              View() == s && notices == old(notices) + ns
    {
      if currentStatus != settings.defaultStatus {
        Notify(DevCmd(settings.up, settings.Remap(settings.defaultStatus)));
        Notify(DevCmd(settings.down, settings.Remap(settings.defaultStatus)));
        Notify(Event(settings.defaultStatus));
        currentStatus := settings.defaultStatus;
      }
    }

    ghost method Notify(n: Notice)
      modifies this`notices
      ensures notices == old(notices) + [n]
    {
      notices := notices + [n];
    }
  }
}
