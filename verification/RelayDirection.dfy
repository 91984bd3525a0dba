/** The two relays show the motor's status: which one is on after commands, buttons and timer ends. */
module RelayDirection {
  import opened TriStateOutput

  /** The relays a status stands for; other words stand for none in particular. */
  predicate Shows(status: string, r: Relays) {
    && (status == "UP" ==> r == Relays(true, false))
    && (status == "DOWN" ==> r == Relays(false, true))
    && (status == "OFF" ==> r == Relays(false, false))
  }

  function RunState(c: Settings, s: State, ms: seq<Message>): State
    decreases |ms|
  {
    if ms == [] then s else RunState(c, Exec(c, s, ms[0]).0, ms[1..])
  }

  /** Two device commands move the relays; what else is told does not. */
  lemma MoveTwo(c: Settings, r: Relays, a: Notice, b: Notice, rest: seq<Notice>)
    requires |rest| <= 2 && forall i :: 0 <= i < |rest| ==> !rest[i].DevCmd?
    ensures MoveAll(c, r, [a, b] + rest) == Move(c, Move(c, r, a), b)
    ensures MoveAll(c, r, rest) == r
  {
    hide Move;
    assert Move(c, r, Event("")) == r by { NothingMoves(c, r, Event("")); }
    Unmoved(c, r, rest);
    Unmoved(c, Move(c, Move(c, r, a), b), rest);
    var all := [a, b] + rest;
    assert all[1..] == [b] + rest && ([b] + rest)[1..] == rest;
    assert MoveAll(c, r, all) == MoveAll(c, Move(c, r, a), [b] + rest);
  }

  lemma NothingMoves(c: Settings, r: Relays, n: Notice)
    requires !n.DevCmd?
    ensures Move(c, r, n) == r
  {}

  lemma {:induction false} Unmoved(c: Settings, r: Relays, ns: seq<Notice>)
    requires forall i :: 0 <= i < |ns| ==> !ns[i].DevCmd?
    ensures MoveAll(c, r, ns) == r
    decreases |ns|
  {
    hide Move;
    if ns != [] {
      NothingMoves(c, r, ns[0]);
      Unmoved(c, r, ns[1..]);
    }
  }

  /** The word for ON to one output and that for OFF to the other, in that order or both OFF. */
  lemma MoveWords(c: Settings, r: Relays)
    requires WellWired(c)
    ensures Move(c, Move(c, r, DevCmd(c.down, c.Remap("OFF"))), DevCmd(c.up, c.Remap("ON"))) == Relays(true, false)
    ensures Move(c, Move(c, r, DevCmd(c.up, c.Remap("OFF"))), DevCmd(c.down, c.Remap("ON"))) == Relays(false, true)
    ensures Move(c, Move(c, r, DevCmd(c.up, c.Remap("OFF"))), DevCmd(c.down, c.Remap("OFF"))) == Relays(false, false)
  {}

  /** A command to a direction, or off, leaves exactly the relay of that direction on. */
  lemma CommandMoves(c: Settings, s: State, r: Relays, target: string)
    requires WellWired(c) && Shows(s.status, r)
    ensures var (t, ns) := DoCommand(c, s, target);
            t.status == target && Shows(target, MoveAll(c, r, ns))
  {
    hide Move, MoveAll;
    var (t, ns) := DoCommand(c, s, target);
    var rest := (if c.timed && target != c.defaultStatus then [Wait(c.waitKey)] else []) + [Event(target)];
    MoveWords(c, r);
    MoveTwo(c, r, DevCmd(c.down, c.Remap("OFF")), DevCmd(c.up, c.Remap("ON")), rest);
    MoveTwo(c, r, DevCmd(c.up, c.Remap("OFF")), DevCmd(c.down, c.Remap("ON")), rest);
    MoveTwo(c, r, DevCmd(c.up, c.Remap("OFF")), DevCmd(c.down, c.Remap("OFF")), rest);
    MoveTwo(c, r, DevCmd(c.up, c.Remap("OFF")), DevCmd(c.down, c.Remap("OFF")), [Event(target)]);
    if s.status != target { assert ns == Drive(c, target) + rest; }
  }

  lemma WaitMoves(c: Settings, s: State, r: Relays)
    requires WellWired(c) && c.defaultStatus == "OFF" && Shows(s.status, r)
    ensures var (t, ns) := DoWait(c, s);
            t.status == "OFF" && Shows("OFF", MoveAll(c, r, ns))
  {
    hide Move, MoveAll;
    MoveWords(c, r);
    MoveTwo(c, r, DevCmd(c.up, c.Remap("OFF")), DevCmd(c.down, c.Remap("OFF")), [Event("OFF")]);
    MoveTwo(c, r, DevCmd(c.up, c.Remap("OFF")), DevCmd(c.down, c.Remap("OFF")), []);
    assert [DevCmd(c.up, c.Remap("OFF")), DevCmd(c.down, c.Remap("OFF")), Event("OFF")] ==
           [DevCmd(c.up, c.Remap("OFF")), DevCmd(c.down, c.Remap("OFF"))] + [Event("OFF")];
  }

  lemma NothingTold(c: Settings, r: Relays)
    ensures MoveAll(c, r, []) == r
  {}

  lemma ExecMoves(c: Settings, s: State, r: Relays, m: Message)
    requires WellWired(c) && c.defaultStatus == "OFF" && Shows(s.status, r)
    ensures var (t, ns) := Exec(c, s, m); Shows(t.status, MoveAll(c, r, ns))
  {
    hide DoCommand, DoWait, MoveAll, Shows, UpCase;
    NothingTold(c, r);
    match m
    case Command(value) => CommandMoves(c, s, r, UpCase(value));
    case LocalEvent(channel, value) =>
      var t := if channel == c.upInput then s.(upValue := UpCase(value))
               else if channel == c.downInput then s.(downValue := UpCase(value)) else s;
      CommandMoves(c, t, r, Buttons(t.upValue, t.downValue));
    case WaitEnd => WaitMoves(c, s, r);
  }

  /** The relays follow the status: with the default OFF, over every run of commands, button changes and
      timer ends, UP means exactly the up relay on, DOWN exactly the down relay, OFF neither. */
  lemma {:induction false} RelaysFollowStatus(c: Settings, s: State, r: Relays, ms: seq<Message>)
    requires WellWired(c) && c.defaultStatus == "OFF" && Shows(s.status, r)
    ensures Shows(RunState(c, s, ms).status, MoveAll(c, r, Trace(c, s, ms)))
    decreases |ms|
  {
    hide Exec, Move, Shows, WellWired;
    if ms == [] {
      NothingTold(c, r);
    } else {
      var (t, ns) := Exec(c, s, ms[0]);
      ExecMoves(c, s, r, ms[0]);
      RelaysFollowStatus(c, t, MoveAll(c, r, ns), ms[1..]);
      MoveAllAppend(c, r, ns, Trace(c, t, ms[1..]));
    }
  }

  /** What a command does to an enabled motor: up, down or off, in small letters too. */
  lemma CommandDirection(c: Settings, s: State, r: Relays, value: string)
    requires WellWired(c) && s.enabled && Shows(s.status, r)
    ensures var after := MoveAll(c, r, Exec(c, s, Command(value)).1);
            && (value == "UP" || value == "up" ==> after == Relays(true, false))
            && (value == "DOWN" || value == "down" ==> after == Relays(false, true))
            && (value == "OFF" || value == "off" ==> after == Relays(false, false))
  {
    hide DoCommand, MoveAll;
    CommandMoves(c, s, r, UpCase(value));
  }

  /** What the buttons do: the up button drives up whatever the other does, the down button alone drives
      down, none stops the motor; and other levels do nothing. */
  lemma ButtonDirection(c: Settings, s: State, r: Relays, channel: string, value: string)
    requires WellWired(c) && s.enabled && Shows(s.status, r)
    ensures var (t, ns) := Exec(c, s, LocalEvent(channel, value));
            var after := MoveAll(c, r, ns);
            && t.upValue == (if channel == c.upInput then UpCase(value) else s.upValue)
            && t.downValue == (if channel != c.upInput && channel == c.downInput then UpCase(value) else s.downValue)
            && (t.upValue == "0" && (t.downValue == "0" || t.downValue == "1") ==> after == Relays(true, false))
            && (t.upValue == "1" && t.downValue == "0" ==> after == Relays(false, true))
            && (t.upValue == "1" && t.downValue == "1" ==> after == Relays(false, false))
            && ((t.upValue != "0" && t.upValue != "1") || (t.downValue != "0" && t.downValue != "1") ==> ns == [] && t.status == s.status)
  {
    var t := if channel == c.upInput then s.(upValue := UpCase(value))
             else if channel == c.downInput then s.(downValue := UpCase(value)) else s;
    var target := Buttons(t.upValue, t.downValue);
    CommandMoves(c, t, r, target);
    DoCommandKeepsLevels(c, t, target);
    hide DoCommand, MoveAll, UpCase;
  }

  lemma DoCommandKeepsLevels(c: Settings, s: State, target: string)
    ensures DoCommand(c, s, target).0 == s.(status := target)
  {}

  /** The timer is asked for a wait exactly when a timed motor's status changes to another than its
      default; every command ends with an event that tells the status asked for. */
  lemma WaitsAndEvents(c: Settings, s: State, target: string)
    ensures var ns := DoCommand(c, s, target).1;
            && ((exists i :: 0 <= i < |ns| && ns[i].Wait?) <==> c.timed && s.status != target && target != c.defaultStatus)
            && (forall i :: 0 <= i < |ns| && ns[i].Wait? ==> ns[i].key == c.waitKey)
            && ns != [] && ns[|ns| - 1] == Event(target)
  {
    var ns := DoCommand(c, s, target).1;
    if c.timed && s.status != target && target != c.defaultStatus {
      assert ns[|ns| - 2] == Wait(c.waitKey);
    }
  }

  /** A disabled motor does nothing. */
  lemma DisabledRests(c: Settings, s: State, m: Message)
    requires !s.enabled
    ensures Exec(c, s, m) == (s, [])
  {}

  /** The words the relays are told, remapped: ON to the relay of the direction and OFF to the other. */
  lemma WordsTold(c: Settings, s: State)
    ensures var on := if "ON" in c.remaps && c.remaps["ON"] != "" then c.remaps["ON"] else "ON";
            var off := if "OFF" in c.remaps && c.remaps["OFF"] != "" then c.remaps["OFF"] else "OFF";
            && (s.status != "UP" ==> DoCommand(c, s, "UP").1[..2] == [DevCmd(c.down, off), DevCmd(c.up, on)])
            && (s.status != "DOWN" ==> DoCommand(c, s, "DOWN").1[..2] == [DevCmd(c.up, off), DevCmd(c.down, on)])
            && (s.status != "OFF" ==> DoCommand(c, s, "OFF").1[..2] == [DevCmd(c.up, off), DevCmd(c.down, off)])
  {}

  /** The end of a wait takes a motor away from its default back to it, telling both relays the default's
      word and then the event; a motor at its default is left alone. */
  lemma WaitEnds(c: Settings, s: State)
    requires s.enabled
    ensures var (t, ns) := Exec(c, s, WaitEnd);
            var word := if c.defaultStatus in c.remaps && c.remaps[c.defaultStatus] != "" then c.remaps[c.defaultStatus] else c.defaultStatus;
            && t == s.(status := c.defaultStatus)
            && ns == if s.status == c.defaultStatus then [] else [DevCmd(c.up, word), DevCmd(c.down, word), Event(c.defaultStatus)]
  {}
}
