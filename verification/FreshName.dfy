/** Naming a new one-wire device so that no other device has the name. */
module FreshName {

  function Digit(d: nat): char
    requires d < 10
  {
    "0123456789"[d]
  }

  /** The decimal digits of a number. */
  function Decimal(n: nat): (s: string)
    ensures s != ""
  {
    if n < 10 then [Digit(n)] else Decimal(n / 10) + [Digit(n % 10)]
  }

  function Numbered(n: nat): string { "PR" + Decimal(n) }

  function DigitValue(c: char): int { c as int - '0' as int }

  /** The number a string of digits stands for. */
  function ValueOf(s: string): int { if s == "" then 0 else ValueOf(s[..|s| - 1]) * 10 + DigitValue(s[|s| - 1]) }

  lemma DigitIs(d: nat)
    requires d < 10
    ensures DigitValue(Digit(d)) == d && '0' <= Digit(d) <= '9' && (d > 0 ==> Digit(d) != '0')
  {}

  /** Decimal digits: only digits, the number's own, and no leading zero. */
  lemma {:induction false} DecimalMeans(n: nat)
    ensures ValueOf(Decimal(n)) == n
    ensures forall i :: 0 <= i < |Decimal(n)| ==> '0' <= Decimal(n)[i] <= '9'
    ensures n > 0 ==> Decimal(n)[0] != '0'
  {
    hide Digit, DigitValue;
    DigitIs(n % 10);
    var s := Decimal(n);
    if n < 10 {
      assert s[..0] == "" && ValueOf("") == 0;
    } else {
      DecimalMeans(n / 10);
      assert s[..|s| - 1] == Decimal(n / 10);
    }
  }

  lemma {:induction false} DecimalInjective(m: nat, n: nat)
    requires Decimal(m) == Decimal(n)
    ensures m == n
    decreases m
  {
    var a, b := Decimal(m), Decimal(n);
    assert a[|a| - 1] == Digit(m % 10) && b[|b| - 1] == Digit(n % 10);
    assert m % 10 == n % 10;
    assert (m >= 10 <==> |a| > 1) && (n >= 10 <==> |b| > 1);
    if m >= 10 {
      assert a[..|a| - 1] == Decimal(m / 10) && b[..|b| - 1] == Decimal(n / 10);
      DecimalInjective(m / 10, n / 10);
    }
  }

  lemma NumberedInjective(m: nat, n: nat)
    requires Numbered(m) == Numbered(n)
    ensures m == n
  {
    assert Numbered(m)[2..] == Decimal(m) && Numbered(n)[2..] == Decimal(n);
    DecimalInjective(m, n);
  }

  /** A name is PR and the digits of its number. */
  lemma NumberedMeans(n: nat)
    ensures var s := Numbered(n); |s| > 2 && s[..2] == "PR" && ValueOf(s[2..]) == n
  {
    DecimalMeans(n);
    assert Numbered(n)[2..] == Decimal(n);
  }

  /** The names PR1 up to PRk, as a set. */
  function FirstNames(k: nat): (s: set<string>)
  {
    if k == 0 then {} else FirstNames(k - 1) + {Numbered(k)}
  }

  lemma {:induction false} FirstNamesCount(k: nat)
    ensures |FirstNames(k)| == k
    ensures forall n :: n > k ==> Numbered(n) !in FirstNames(k)
  {
    hide Numbered;
    if k > 0 {
      FirstNamesCount(k - 1);
      forall n | n > k ensures Numbered(n) !in FirstNames(k) {
        if Numbered(n) == Numbered(k) { NumberedInjective(n, k); }
      }
    }
  }

  lemma {:induction false} FirstNamesWithin(names: seq<string>, k: nat)
    requires forall i :: 1 <= i <= k ==> Numbered(i) in names
    ensures forall x :: x in FirstNames(k) ==> x in names
  {
    hide Numbered;
    if k > 0 { FirstNamesWithin(names, k - 1); }
  }

  function NameSet(names: seq<string>): (s: set<string>)
    ensures forall x :: x in s <==> x in names
  {
    set x | x in names
  }

  lemma {:induction false} NameSetSize(names: seq<string>)
    ensures |NameSet(names)| <= |names|
    decreases |names|
  {
    if names != [] {
      NameSetSize(names[1..]);
      assert names == [names[0]] + names[1..];
      assert NameSet(names) == NameSet(names[1..]) + {names[0]};
    }
  }

  lemma SubsetSize(a: set<string>, b: set<string>)
    requires a <= b
    ensures |a| <= |b|
  {
    assert b == a + (b - a);
  }

  /** Pigeonhole: if n devices use up all of PR1 to PRn, none of them is called PR(n+1). */
  lemma NextNumberFree(names: seq<string>)
    requires forall i :: 1 <= i <= |names| ==> Numbered(i) in names
    ensures Numbered(|names| + 1) !in names
  {
    hide Numbered;
    var n := |names|;
    if Numbered(n + 1) in names {
      FirstNamesWithin(names, n + 1);
      SubsetSize(FirstNames(n + 1), NameSet(names));
      FirstNamesCount(n + 1);
      NameSetSize(names);
    }
  }

  /** Fresh names: whatever the devices are called, the name made is none of theirs; it is the
      first of PR1, PR2, ... that is free. */
  method MkName(names: seq<string>) returns (tname: string)
    ensures tname !in names
    ensures exists k :: 1 <= k <= |names| + 1 && tname == Numbered(k) && forall j :: 1 <= j < k ==> Numbered(j) in names
  {
    hide Decimal, Digit;
    tname := "";
    var i := 0;
    while i < |names| && tname == ""
      invariant 0 <= i <= |names|
      invariant if tname == "" then forall k :: 1 <= k <= i ==> Numbered(k) in names
                else tname !in names && i > 0 && tname == Numbered(i) && forall k :: 1 <= k < i ==> Numbered(k) in names
    {
      tname := Numbered(i + 1);
      for j := 0 to |names|
        invariant if tname == "" then Numbered(i + 1) in names
                  else tname == Numbered(i + 1) && tname !in names[..j]
      {
        if tname == names[j] { tname := ""; }
      }
      assert names[..|names|] == names;
      i := i + 1;
    }
    if tname == "" {
      tname := Numbered(|names| + 1);
      NextNumberFree(names);
    }
  }
}
