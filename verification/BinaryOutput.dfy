/** An output that is commanded, remembers its value, and is sent back to its default by the
    timer; with the way a timer key finds its device again. */
module BinaryOutput {
  import opened Texts
  import opened Timer

  // ---------- from a timer key to a device name ----------

  const SEPARATOR := '$'

  /** What the device table is asked for when a key comes back.  The comparison with the length
      less two is made on unsigned numbers, so keys shorter than two always lose their front. */
  function Addressee(key: string): string {
    var i := FirstOf(key, '_');
    var rest := if |key| >= 2 && i >= |key| - 2 then key else if i < |key| then key[i + 1..] else "";
    rest[..FirstOf(rest, SEPARATOR)]
  }

  /** Scans for a character the way both loops of the handler do. */
  method ScanTo(s: string, c: char) returns (i: nat)
    ensures i == FirstOf(s, c)
  {
    i := 0;
    while i < |s| && s[i] != c
      invariant 0 <= i <= |s| && forall j :: 0 <= j < i ==> s[j] != c
    {
      i := i + 1;
    }
  }

  method ExecWaitName(key: string) returns (dev: string)
    ensures dev == Addressee(key)
  {
    dev := key;
    var i := ScanTo(dev, '_');
    if |dev| < 2 || i < |dev| - 2 {
      dev := if i + 1 <= |dev| then dev[i + 1..] else "";
    }
    i := ScanTo(dev, SEPARATOR);
    dev := dev[..i];
  }

  function KeyOf(duration: string, name: string): string { duration + "_" + name }

  predicate Free(s: string, c: char) { forall i :: 0 <= i < |s| ==> s[i] != c }

  lemma KeyParts(duration: string, name: string)
    requires Free(duration, '_')
    ensures FirstOf(KeyOf(duration, name), '_') == |duration|
    ensures DurationOf(KeyOf(duration, name)) == duration
    ensures KeyOf(duration, name)[|duration| + 1..] == name
  {
    var key := KeyOf(duration, name);
    assert key[|duration|] == '_';
    assert forall i :: 0 <= i < |duration| ==> key[i] == duration[i];
  }

  /** A key finds its own device again exactly when the device's name has at least two characters
      and no separator in it. */
  lemma AddresseeOfKey(duration: string, name: string)
    requires duration != "" && Free(duration, '_') && Free(duration, SEPARATOR)
    ensures Addressee(KeyOf(duration, name)) == name <==> |name| >= 2 && Free(name, SEPARATOR)
  {
    var key := KeyOf(duration, name);
    KeyParts(duration, name);
    if |name| >= 2 {
      var k := FirstOf(name, SEPARATOR);
      assert Addressee(key) == name[..k];
      if k == |name| { assert name[..k] == name; }
    } else {
      assert forall i :: 0 <= i <= |duration| ==> key[i] != SEPARATOR by {
        assert forall i :: 0 <= i < |duration| ==> key[i] == duration[i];
      }
      var k := FirstOf(key, SEPARATOR);
      assert k > |duration|;
      assert Addressee(key) == key[..k];
      assert |key[..k]| > |duration| >= 1;
    }
  }

  // ---------- the output ----------

  datatype Notice = DevCmd(output: string, value: string) | Event(value: string) | Wait(subtype: string, key: string)

  /** `title` is the name in the device's own parameters, `name` the one it is registered under. */
  datatype Output = Output(name: string, title: string, duration: string, defaultValue: string, port: string,
                           remaps: map<string, string>, value: string)
  {
    predicate Timed() { duration != "0" }

    function Key(): string { KeyOf(duration, title) }

    function Remap(v: string): string { if v in remaps && remaps[v] != "" then remaps[v] else v }

    predicate Away() { value != defaultValue }
  }

  function Exec(o: Output, mtype: string, subtype: string, value: string): (Output, seq<Notice>) {
    if subtype == o.name then
      if o.value != value then
        (o.(value := value),
         [DevCmd(o.port, o.Remap(value)), Event(value)] +
         if !o.Timed() then [] else if value != o.defaultValue then [Wait("set", o.Key())] else [Wait("reset", o.Key())])
      else if o.Away() && o.Timed() then (o, [Wait("set", o.Key())])
      else (o, [])
    else if mtype == "wait" && subtype == "end" && o.Away() then
      (o.(value := o.defaultValue), [DevCmd(o.port, o.Remap(o.defaultValue)), Event(value)])
    else (o, [])
  }

  class BinaryOutput {
    const name: string
    const title: string
    const duration: string
    const default_value: string
    const out: string
    const remaps: map<string, string>
    const wait_condition: string
    var currentValue: string
    ghost var notices: seq<Notice>

    ghost function View(): Output
      reads this
    {
      Output(name, title, duration, default_value, out, remaps, currentValue)
    }

    ghost predicate Valid() { duration != "0" ==> wait_condition == KeyOf(duration, title) }

    /** The stored value is taken up again; no timer is armed for it. */
    constructor (name: string, title: string, configured: string, default_value: string, out: string,
                 remaps: map<string, string>, stored: string)
      ensures Valid() && notices == [] && this.name == name && this.title == title && this.default_value == default_value
      ensures duration == if configured == "" || configured == "0" || configured == "-1" then "0" else configured
      ensures currentValue == if stored != "" then stored else if default_value != "" then default_value else "OFF"
    {
      this.name, this.title, this.default_value, this.out, this.remaps := name, title, default_value, out, remaps;
      var d := if configured == "" || configured == "0" || configured == "-1" then "0" else configured;
      duration := d;
      wait_condition := if d != "0" then d + "_" + title else "";
      currentValue := if stored != "" then stored else if default_value != "" then default_value else "OFF";
      notices := [];
    }

    method ExecCmd(mtype: string, subtype: string, value: string) returns (done: bool)
      requires Valid()
      modifies this
      ensures Valid()
      ensures var (o, sent) := Exec(old(View()), mtype, subtype, value);
              View() == o && notices == old(notices) + sent
      ensures done <==> subtype == name || (mtype == "wait" && subtype == "end")
    {
      if subtype == name {
        if currentValue != value {
          currentValue := value;
          var tvalue := Remap(value);
          notices := notices + [DevCmd(out, tvalue)];
          notices := notices + [Event(value)];
          if duration != "0" && currentValue != default_value {
            notices := notices + [Wait("set", wait_condition)];
          } else if duration != "0" && currentValue == default_value {
            notices := notices + [Wait("reset", wait_condition)];
          }
        } else if currentValue != default_value && duration != "0" {
          notices := notices + [Wait("set", wait_condition)];
        }
        return true;
      }
      if mtype == "wait" && subtype == "end" {
        if currentValue != default_value {
          currentValue := default_value;
          var tvalue := Remap(default_value);
          notices := notices + [DevCmd(out, tvalue)];
          notices := notices + [Event(value)];
        }
        return true;
      }
      return false;
    }

    method Remap(v: string) returns (r: string)
      ensures r == View().Remap(v)
    {
      r := if v in remaps then remaps[v] else "";
      if r == "" { r := v; }
    }
  }
}
