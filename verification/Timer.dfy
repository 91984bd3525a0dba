/** The timer agent: a list of conditions that count down on polls and report once when due. */
module Timer {
  import opened Texts

  datatype Condition = Condition(kind: string, subtype: string, key: string, waitTime: real, expired: bool)
  {
    predicate SameAs(c: Condition) { kind == c.kind && subtype == c.subtype && key == c.key }

    function Lapsed(d: real): Condition { if expired then this else this.(waitTime := waitTime - d) }

    predicate Reports() { !(waitTime > 0.0) && !expired }

    function Reported(): Condition { if Reports() then this.(expired := true) else this }
  }

  type Number = string -> real

  /** The duration a key starts with: what comes before its first underscore. */
  function DurationOf(key: string): string { key[..FirstOf(key, '_')] }

  function Fresh(num: Number, subtype: string, key: string): Condition {
    Condition("wait", subtype, key, num(DurationOf(key)), false)
  }

  function Started(cs: seq<Condition>, tc: Condition): seq<Condition> {
    if cs == [] then [tc] else if cs[0].SameAs(tc) then [tc] + cs[1..] else [cs[0]] + Started(cs[1..], tc)
  }

  lemma {:induction false} StartedAt(cs: seq<Condition>, tc: Condition, i: nat)
    requires i < |cs| && cs[i].SameAs(tc) && forall j :: 0 <= j < i ==> !cs[j].SameAs(tc)
    ensures Started(cs, tc) == cs[i := tc]
    decreases |cs|
  {
    if i > 0 {
      StartedAt(cs[1..], tc, i - 1);
      assert [cs[0]] + cs[1..][i - 1 := tc] == cs[i := tc];
    }
  }

  lemma {:induction false} StartedNew(cs: seq<Condition>, tc: Condition)
    requires forall j :: 0 <= j < |cs| ==> !cs[j].SameAs(tc)
    ensures Started(cs, tc) == cs + [tc]
    decreases |cs|
  {
    if cs != [] {
      StartedNew(cs[1..], tc);
      assert [cs[0]] + (cs[1..] + [tc]) == cs + [tc];
    }
  }

  /** Only the first condition is ever looked at. */
  function ResetFirst(cs: seq<Condition>, tc: Condition): seq<Condition> {
    if cs != [] && cs[0].SameAs(tc) then cs[0 := cs[0].(waitTime := 0.0)] else cs
  }

  /** A wait message: keys with no positive duration are ignored. */
  function Waited(num: Number, cs: seq<Condition>, subtype: string, key: string): seq<Condition> {
    if !(num(DurationOf(key)) > 0.0) then cs
    else if subtype == "set" then Started(cs, Fresh(num, subtype, key))
    else if subtype == "reset" then ResetFirst(Started(cs, Fresh(num, subtype, key)), Fresh(num, subtype, key))
    else cs
  }

  /** A poll counts if it comes more than half a period after the last one that did. */
  predicate Accepts(last: real, period: real, time: real) { time > period / 2.0 + last }

  function Lapse(period: real): real { if period > 0.0 then period else 1.0 }

  function LapseAll(cs: seq<Condition>, d: real): (r: seq<Condition>)
    ensures |r| == |cs| && forall i :: 0 <= i < |cs| ==> r[i] == cs[i].Lapsed(d)
  {
    seq(|cs|, i requires 0 <= i < |cs| => cs[i].Lapsed(d))
  }

  function ReportAll(cs: seq<Condition>): (r: seq<Condition>)
    ensures |r| == |cs| && forall i :: 0 <= i < |cs| ==> r[i] == cs[i].Reported()
  {
    seq(|cs|, i requires 0 <= i < |cs| => cs[i].Reported())
  }

  /** The keys reported, in the order of the list. */
  function Reports(cs: seq<Condition>): seq<string> {
    if cs == [] then [] else (if cs[0].Reports() then [cs[0].key] else []) + Reports(cs[1..])
  }

  lemma {:induction false} ReportsContain(cs: seq<Condition>, i: nat)
    requires i < |cs| && cs[i].Reports()
    ensures cs[i].key in Reports(cs)
    decreases |cs|
  {
    if i > 0 { ReportsContain(cs[1..], i - 1); }
  }

  lemma {:induction false} ReportsOnlyDue(cs: seq<Condition>, key: string)
    requires key in Reports(cs)
    ensures exists i :: 0 <= i < |cs| && cs[i].Reports() && cs[i].key == key
    decreases |cs|
  {
    if !(cs[0].Reports() && cs[0].key == key) {
      assert key in Reports(cs[1..]);
      ReportsOnlyDue(cs[1..], key);
      var i :| 0 <= i < |cs| - 1 && cs[1..][i].Reports() && cs[1..][i].key == key;
      assert cs[i + 1] == cs[1..][i];
    }
  }

  /** One entry: it counts down until it is reported, once, when nothing is left; after that it rests. */
  lemma EntryLife(c: Condition, d: real)
    ensures !c.expired ==> c.Lapsed(d).waitTime == c.waitTime - d && c.Lapsed(d) == c.(waitTime := c.waitTime - d)
    ensures c.expired ==> c.Lapsed(d) == c && c.Reported() == c && !c.Reports()
    ensures !c.expired && c.waitTime <= 0.0 ==> c.Reports() && c.Reported() == c.(expired := true)
    ensures c.waitTime > 0.0 ==> !c.Reports() && c.Reported() == c
    ensures !c.Reported().Reports()
  {}

  /** What was reported is not reported again. */
  lemma {:induction false} ReportedOnce(cs: seq<Condition>)
    ensures Reports(ReportAll(cs)) == []
    decreases |cs|
  {
    if cs != [] {
      EntryLife(cs[0], 0.0);
      assert ReportAll(cs)[1..] == ReportAll(cs[1..]);
      ReportedOnce(cs[1..]);
    }
  }

  /** A wait without a positive duration is ignored. */
  lemma WaitIgnored(num: Number, cs: seq<Condition>, subtype: string, key: string)
    requires num(DurationOf(key)) <= 0.0
    ensures Waited(num, cs, subtype, key) == cs
  {}

  /** A "reset" wait: on a timer that is empty or begins with such an entry, that entry has no time left,
      so the next poll that counts reports it; otherwise the entry runs for its duration. */
  lemma ResetMeans(num: Number, cs: seq<Condition>, key: string)
    requires num(DurationOf(key)) > 0.0
    ensures var entry := Condition("wait", "reset", key, num(DurationOf(key)), false);
            var after := Waited(num, cs, "reset", key);
            && (cs == [] ==> after == [entry.(waitTime := 0.0)])
            && (cs != [] && cs[0].SameAs(entry) ==> after == [entry.(waitTime := 0.0)] + cs[1..])
            && (cs != [] && !cs[0].SameAs(entry) ==> after == Started(cs, entry))
  {
    hide DurationOf;
  }

  /** Starting a condition leaves it in the list, and every other one that is not the same. */
  lemma {:induction false} StartedContains(cs: seq<Condition>, tc: Condition)
    ensures tc in Started(cs, tc)
    ensures forall c :: c in cs && !c.SameAs(tc) ==> c in Started(cs, tc)
    decreases |cs|
  {
    if cs != [] {
      StartedContains(cs[1..], tc);
      assert cs == [cs[0]] + cs[1..];
      if cs[0].SameAs(tc) {
        forall c | c in cs && !c.SameAs(tc) ensures c in Started(cs, tc) {
          assert c in cs[1..];
        }
      }
    }
  }

  /** Another wait message never touches a running "set" condition of a different key. */
  lemma WaitedKeepsOthers(num: Number, cs: seq<Condition>, subtype: string, key: string, c: Condition)
    requires c in cs && c.subtype == "set" && (c.key != key || subtype != "set")
    ensures c in Waited(num, cs, subtype, key)
  {
    var tc := Fresh(num, subtype, key);
    StartedContains(cs, tc);
    var started := Started(cs, tc);
    if subtype == "reset" {
      var i :| 0 <= i < |started| && started[i] == c;
      assert ResetFirst(started, tc)[i] == c;
    }
  }

  /** A wait message brings in no key but its own. */
  lemma {:induction false} StartedKeys(cs: seq<Condition>, tc: Condition)
    ensures forall c :: c in Started(cs, tc) ==> c == tc || c in cs
    decreases |cs|
  {
    if cs != [] {
      StartedKeys(cs[1..], tc);
      assert cs == [cs[0]] + cs[1..];
    }
  }

  lemma WaitedKeys(num: Number, cs: seq<Condition>, subtype: string, key: string, c: Condition)
    requires c in Waited(num, cs, subtype, key)
    ensures c.key == key || exists b :: b in cs && b.key == c.key
  {
    var tc := Fresh(num, subtype, key);
    StartedKeys(cs, tc);
    hide Started, DurationOf;
    if subtype == "reset" && num(DurationOf(key)) > 0.0 {
      var started := Started(cs, tc);
      var i :| 0 <= i < |started| && ResetFirst(started, tc)[i] == c;
      assert started[i].key == c.key;
    }
  }

  lemma {:induction false} StartedOthers(cs: seq<Condition>, tc: Condition, c: Condition)
    requires c.key != tc.key
    ensures c in Started(cs, tc) <==> c in cs
    decreases |cs|
  {
    if cs != [] {
      StartedOthers(cs[1..], tc, c);
      assert cs == [cs[0]] + cs[1..];
    }
  }

  lemma ResetOthers(cs: seq<Condition>, tc: Condition, c: Condition)
    requires c.key != tc.key
    ensures c in ResetFirst(cs, tc) <==> c in cs
  {
    if cs != [] { assert cs == [cs[0]] + cs[1..] && ResetFirst(cs, tc) == [ResetFirst(cs, tc)[0]] + cs[1..]; }
  }

  /** A wait message changes no entry of another key. */
  lemma WaitedOthers(num: Number, cs: seq<Condition>, subtype: string, key: string, c: Condition)
    requires c.key != key
    ensures c in Waited(num, cs, subtype, key) <==> c in cs
  {
    var tc := Fresh(num, subtype, key);
    StartedOthers(cs, tc, c);
    ResetOthers(Started(cs, tc), tc, c);
    hide Started, ResetFirst, DurationOf;
  }

  class Timer {
    const num: Number
    var condition: seq<Condition>
    var last_update_time: real

    constructor (num: Number)
      ensures condition == [] && last_update_time == 0.0 && this.num == num
    {
      this.num := num;
      condition, last_update_time := [], 0.0;
    }

    method Update(d: real)
      modifies this
      ensures condition == LapseAll(old(condition), d) && last_update_time == old(last_update_time)
    {
      for i := 0 to |condition|
        invariant |condition| == |old(condition)| && last_update_time == old(last_update_time)
        invariant forall j :: 0 <= j < |condition| ==>
                    condition[j] == if j < i then old(condition)[j].Lapsed(d) else old(condition)[j]
      {
        if !condition[i].expired {
          condition := condition[i := condition[i].(waitTime := condition[i].waitTime - d)];
        }
      }
    }

    /** A poll: the keys that became due, each reported once. */
    method OnPoll(period: real, time: real) returns (ended: seq<string>)
      modifies this
      ensures var lapsed := LapseAll(old(condition), Lapse(period));
              if Accepts(old(last_update_time), period, time)
              then condition == ReportAll(lapsed) && ended == Reports(lapsed) && last_update_time == time
              else condition == old(condition) && ended == [] && last_update_time == old(last_update_time)
    {
      ended := [];
      if time > period / 2.0 + last_update_time {
        if period > 0.0 { Update(period); } else { Update(1.0); }
        ended := ReportEnded();
        last_update_time := time;
      }
    }

    method ReportEnded() returns (ended: seq<string>)
      modifies this
      ensures condition == ReportAll(old(condition)) && ended == Reports(old(condition))
      ensures last_update_time == old(last_update_time)
    {
      ended := [];
      ghost var lapsed := condition;
      assert lapsed[0..] == lapsed;
      for i := 0 to |condition|
        invariant |condition| == |lapsed| && last_update_time == old(last_update_time)
        invariant forall j :: 0 <= j < |condition| ==> condition[j] == if j < i then lapsed[j].Reported() else lapsed[j]
        invariant ended + Reports(lapsed[i..]) == Reports(lapsed)
      {
        assert lapsed[i..][1..] == lapsed[i + 1..] && lapsed[i..][0] == condition[i];
        ghost var rest := Reports(lapsed[i + 1..]);
        if !(condition[i].waitTime > 0.0) && !condition[i].expired {
          assert ended + ([condition[i].key] + rest) == ended + [condition[i].key] + rest;
          ended := ended + [condition[i].key];
          condition := condition[i := condition[i].(expired := true)];
        } else {
          assert [] + rest == rest;
        }
      }
      assert lapsed[|lapsed|..] == [];
    }

    method OnWait(subtype: string, key: string)
      modifies this
      ensures condition == Waited(num, old(condition), subtype, key) && last_update_time == old(last_update_time)
    {
      if num(DurationOf(key)) > 0.0 {
        if subtype == "set" {
          StartTimer(Fresh(num, subtype, key));
        } else if subtype == "reset" {
          StartTimer(Fresh(num, subtype, key));
          ResetTimer(Fresh(num, subtype, key));
        }
      }
    }

    method StartTimer(tc: Condition)
      modifies this
      ensures condition == Started(old(condition), tc) && last_update_time == old(last_update_time)
    {
      for i := 0 to |condition|
        invariant condition == old(condition) && last_update_time == old(last_update_time)
        invariant forall j :: 0 <= j < i ==> !condition[j].SameAs(tc)
      {
        if condition[i].SameAs(tc) {
          StartedAt(condition, tc, i);
          condition := condition[i := tc];
          return;
        }
      }
      StartedNew(condition, tc);
      condition := condition + [tc];
    }

    method ResetTimer(tc: Condition)
      modifies this
      ensures condition == ResetFirst(old(condition), tc) && last_update_time == old(last_update_time)
    {
      var found := false;
      var i := 0;
      while i < |condition| && !found
        invariant 0 <= i <= |condition| && last_update_time == old(last_update_time)
        invariant if i == 0 then !found && condition == old(condition) else found && condition == ResetFirst(old(condition), tc)
      {
        if condition[i].SameAs(tc) { condition := condition[i := condition[i].(waitTime := 0.0)]; }
        found := true;
        i := i + 1;
      }
    }
  }
}
