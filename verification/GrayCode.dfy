/** The reflected Gray code a cyclic device is configured with, as ON/OFF vectors and as text. */
module GrayCode {
  import opened Texts

  type Vector = seq<string>

  predicate IsOnOff(v: Vector) { forall k :: 0 <= k < |v| ==> v[k] == "ON" || v[k] == "OFF" }

  function Pow2(n: nat): (p: nat)
    ensures p >= 1
  {
    if n == 0 then 1 else 2 * Pow2(n - 1)
  }

  // ---------- the code as vectors ----------

  /** Twice the previous code, once in order below OFF and once reversed below ON. */
  function Vectors(n: nat): (vs: seq<Vector>)
    requires n >= 1
    ensures |vs| == Pow2(n)
    ensures forall i :: 0 <= i < |vs| ==> |vs[i]| == n && IsOnOff(vs[i])
  {
    if n == 1 then [["OFF"], ["ON"]]
    else
      var g := Vectors(n - 1);
      seq(2 * |g|, i requires 0 <= i < 2 * |g| => if i < |g| then ["OFF"] + g[i] else ["ON"] + g[2 * |g| - 1 - i])
  }

  lemma VectorAt(n: nat, i: nat)
    requires n >= 2 && i < Pow2(n)
    ensures var m, g := Pow2(n - 1), Vectors(n - 1);
            && Pow2(n) == 2 * m
            && Vectors(n)[i] == if i < m then ["OFF"] + g[i] else ["ON"] + g[2 * m - 1 - i]
  {}

  function Differences(u: Vector, v: Vector): nat
    requires |u| == |v|
  {
    if u == [] then 0 else (if u[0] == v[0] then 0 else 1) + Differences(u[1..], v[1..])
  }

  lemma {:induction false} DifferencesSymmetric(u: Vector, v: Vector)
    requires |u| == |v|
    ensures Differences(u, v) == Differences(v, u) && (Differences(u, v) == 0 <==> u == v)
    decreases |u|
  {
    if u != [] {
      DifferencesSymmetric(u[1..], v[1..]);
      assert u == [u[0]] + u[1..] && v == [v[0]] + v[1..];
    }
  }

  lemma DifferencesBelow(a: string, b: string, u: Vector, v: Vector)
    requires |u| == |v|
    ensures Differences([a] + u, [b] + v) == (if a == b then 0 else 1) + Differences(u, v)
  {
    assert ([a] + u)[1..] == u && ([b] + v)[1..] == v;
  }

  lemma ShortestCode()
    ensures Pow2(1) == 2 && Vectors(1) == [["OFF"], ["ON"]]
    ensures Differences(["OFF"], ["ON"]) == 1 && Differences(["ON"], ["OFF"]) == 1
  {
    assert Pow2(0) == 1;
    DifferencesBelow("OFF", "ON", [], []);
    DifferencesBelow("ON", "OFF", [], []);
    assert ["OFF"] + [] == ["OFF"] && ["ON"] + [] == ["ON"];
  }

  lemma LowerHalf(n: nat, i: nat)
    requires n >= 2 && i + 1 < Pow2(n - 1) && Differences(Vectors(n - 1)[i], Vectors(n - 1)[i + 1]) == 1
    ensures i + 1 < Pow2(n) && Differences(Vectors(n)[i], Vectors(n)[i + 1]) == 1
  {
    hide Vectors, Differences, IsOnOff;
    VectorAt(n, i);
    VectorAt(n, i + 1);
    DifferencesBelow("OFF", "OFF", Vectors(n - 1)[i], Vectors(n - 1)[i + 1]);
  }

  lemma MiddlePair(n: nat)
    requires n >= 2
    ensures Pow2(n - 1) < Pow2(n)
    ensures Differences(Vectors(n)[Pow2(n - 1) - 1], Vectors(n)[Pow2(n - 1)]) == 1
  {
    hide Vectors, Differences, IsOnOff;
    var m := Pow2(n - 1);
    var v := Vectors(n - 1)[m - 1];
    VectorAt(n, m - 1);
    VectorAt(n, m);
    DifferencesBelow("OFF", "ON", v, v);
    DifferencesSymmetric(v, v);
  }

  lemma UpperHalf(n: nat, j: nat)
    requires n >= 2 && j + 1 < Pow2(n - 1) && Differences(Vectors(n - 1)[j], Vectors(n - 1)[j + 1]) == 1
    ensures Pow2(n) == 2 * Pow2(n - 1)
    ensures Differences(Vectors(n)[Pow2(n) - 2 - j], Vectors(n)[Pow2(n) - 1 - j]) == 1
  {
    hide Vectors, Differences, IsOnOff;
    VectorAt(n, Pow2(n) - 2 - j);
    VectorAt(n, Pow2(n) - 1 - j);
    var u, v := Vectors(n - 1)[j + 1], Vectors(n - 1)[j];
    DifferencesSymmetric(u, v);
    DifferencesBelow("ON", "ON", u, v);
  }

  lemma {:induction false} NeighboursDiffer(n: nat, i: nat)
    requires n >= 1 && i + 1 < Pow2(n)
    ensures Differences(Vectors(n)[i], Vectors(n)[i + 1]) == 1
  {
    hide Vectors, Differences, IsOnOff;
    if n == 1 {
      ShortestCode();
    } else {
      var m := Pow2(n - 1);
      if i + 1 < m {
        NeighboursDiffer(n - 1, i);
        LowerHalf(n, i);
      } else if i == m - 1 {
        MiddlePair(n);
      } else {
        NeighboursDiffer(n - 1, Pow2(n) - 2 - i);
        UpperHalf(n, Pow2(n) - 2 - i);
      }
    }
  }

  lemma EndsDiffer(n: nat)
    requires n >= 1
    ensures Differences(Vectors(n)[Pow2(n) - 1], Vectors(n)[0]) == 1
  {
    hide Vectors, Differences;
    if n == 1 {
      ShortestCode();
    } else {
      VectorAt(n, 0);
      VectorAt(n, Pow2(n) - 1);
      var first := Vectors(n - 1)[0];
      DifferencesBelow("ON", "OFF", first, first);
      DifferencesSymmetric(first, first);
    }
  }

  lemma ConsInjective(x: string, u: Vector, y: string, v: Vector)
    requires [x] + u == [y] + v
    ensures x == y && u == v
  {
    assert ([x] + u)[0] == x && ([y] + v)[0] == y;
    assert ([x] + u)[1..] == u && ([y] + v)[1..] == v;
  }

  lemma {:induction false} VectorsInjective(n: nat, i: nat, j: nat)
    requires n >= 1 && i < Pow2(n) && j < Pow2(n) && Vectors(n)[i] == Vectors(n)[j]
    ensures i == j
    decreases n
  {
    hide Vectors, Pow2, IsOnOff;
    assert "OFF"[1] != "ON"[1];
    if n == 1 {
      ShortestCode();
      assert ["OFF"][0] != ["ON"][0];
    } else {
      VectorAt(n, i);
      VectorAt(n, j);
      var m, g := Pow2(n - 1), Vectors(n - 1);
      var a, b := if i < m then i else 2 * m - 1 - i, if j < m then j else 2 * m - 1 - j;
      ConsInjective(if i < m then "OFF" else "ON", g[a], if j < m then "OFF" else "ON", g[b]);
      VectorsInjective(n - 1, a, b);
    }
  }

  lemma VectorsDistinct(n: nat, i: nat, j: nat)
    requires n >= 1 && i < j < Pow2(n)
    ensures Vectors(n)[i] != Vectors(n)[j]
  {
    hide Vectors, Pow2;
    if Vectors(n)[i] == Vectors(n)[j] { VectorsInjective(n, i, j); }
  }

  lemma {:induction false} EveryVectorOccurs(n: nat, v: Vector) returns (i: nat)
    requires n >= 1 && |v| == n && IsOnOff(v)
    ensures i < Pow2(n) && Vectors(n)[i] == v
  {
    hide Vectors;
    if n == 1 {
      ShortestCode();
      i := if v[0] == "OFF" then 0 else 1;
      assert v == [v[0]];
    } else {
      var m := Pow2(n - 1);
      var k := EveryVectorOccurs(n - 1, v[1..]);
      i := if v[0] == "OFF" then k else 2 * m - 1 - k;
      VectorAt(n, i);
      assert v == [v[0]] + v[1..];
    }
  }

  function Following(n: nat, i: nat): (j: nat)
    ensures j < Pow2(n)
  {
    if i + 1 < Pow2(n) then i + 1 else 0
  }

  lemma FollowingDiffers(n: nat, i: nat)
    requires n >= 1 && i < Pow2(n)
    ensures Differences(Vectors(n)[i], Vectors(n)[Following(n, i)]) == 1
  {
    hide Vectors, Differences;
    if i + 1 < Pow2(n) { NeighboursDiffer(n, i); } else { EndsDiffer(n); }
  }

  /** The code of length n: 2^n vectors, all ON/OFF vectors of length n, none twice, and each
      differs from the one after it, cyclically, in exactly one component. */
  lemma GrayCycle(n: nat)
    requires n >= 1
    ensures |Vectors(n)| == Pow2(n)
    ensures forall i, j :: 0 <= i < j < Pow2(n) ==> Vectors(n)[i] != Vectors(n)[j]
    ensures forall v: Vector :: |v| == n && IsOnOff(v) ==> v in Vectors(n)
    ensures forall i :: 0 <= i < Pow2(n) ==> Differences(Vectors(n)[i], Vectors(n)[Following(n, i)]) == 1
  {
    hide Vectors, Differences, Pow2, IsOnOff, Following;
    forall i, j | 0 <= i < j < Pow2(n) ensures Vectors(n)[i] != Vectors(n)[j] {
      VectorsDistinct(n, i, j);
    }
    forall v: Vector | |v| == n && IsOnOff(v) ensures v in Vectors(n) {
      var i := EveryVectorOccurs(n, v);
    }
    forall i | 0 <= i < Pow2(n) ensures Differences(Vectors(n)[i], Vectors(n)[Following(n, i)]) == 1 {
      FollowingDiffers(n, i);
    }
  }

  // ---------- vectors as text ----------

  /** Parts joined with `+`, which an empty prefix does not get. */
  function JoinParts(parts: seq<string>): string {
    if parts == [] then ""
    else
      var front := JoinParts(parts[..|parts| - 1]);
      (if front != "" then front + "+" else front) + parts[|parts| - 1]
  }

  /** Splitting at every `+`; a last empty part is dropped. */
  function Split(s: string): seq<string>
    decreases |s|
  {
    var k := FirstOf(s, '+');
    if k < |s| then [s[..k]] + Split(s[k + 1..]) else if s != "" then [s] else []
  }

  predicate Solid(parts: seq<string>) {
    forall i :: 0 <= i < |parts| ==> parts[i] != "" && forall k :: 0 <= k < |parts[i]| ==> parts[i][k] != '+'
  }

  lemma JoinLast(parts: seq<string>, last: string)
    ensures var front := JoinParts(parts);
            JoinParts(parts + [last]) == (if front != "" then front + "+" else front) + last
  {
    assert (parts + [last])[..|parts|] == parts;
  }

  lemma NoParts()
    ensures JoinParts([]) == ""
  {}

  lemma JoinOne(part: string)
    ensures JoinParts([part]) == part
  {
    assert [part][..0] == [];
  }

  lemma SplitAt(first: string, rest: string)
    requires forall k :: 0 <= k < |first| ==> first[k] != '+'
    ensures Split(first + "+" + rest) == [first] + Split(rest)
  {
    var s := first + "+" + rest;
    assert s[|first|] == '+';
    assert FirstOf(s, '+') == |first| by {
      assert forall k :: 0 <= k < |first| ==> s[k] == first[k];
    }
    assert s[..|first|] == first && s[|first| + 1..] == rest;
  }

  /** Parts without `+`, as every split gives them. */
  predicate Plain(parts: seq<string>) { forall i, k :: 0 <= i < |parts| && 0 <= k < |parts[i]| ==> parts[i][k] != '+' }

  lemma {:induction false} SplitIsPlain(s: string)
    ensures Plain(Split(s))
    decreases |s|
  {
    var k := FirstOf(s, '+');
    if k < |s| { SplitIsPlain(s[k + 1..]); }
  }

  /** Every further part with its `+`. */
  function Tail(rest: seq<string>): string { if rest == [] then "" else "+" + rest[0] + Tail(rest[1..]) }

  lemma {:induction false} TailLast(rest: seq<string>, last: string)
    ensures Tail(rest + [last]) == Tail(rest) + "+" + last
    decreases |rest|
  {
    if rest == [] {
      assert [] + [last] == [last] && [last][1..] == [];
    } else {
      assert (rest + [last])[1..] == rest[1..] + [last];
      TailLast(rest[1..], last);
    }
  }

  /** From a part that is not empty on, nothing is dropped. */
  lemma {:induction false} JoinIsTail(first: string, rest: seq<string>)
    requires first != ""
    ensures JoinParts([first] + rest) == first + Tail(rest)
    decreases |rest|
  {
    hide JoinParts;
    JoinOne(first);
    if rest == [] {
      assert [first] + rest == [first] && first + "" == first;
    } else {
      var front, last := rest[..|rest| - 1], rest[|rest| - 1];
      JoinIsTail(first, front);
      assert [first] + rest == [first] + front + [last] && rest == front + [last];
      JoinLast([first] + front, last);
      TailLast(front, last);
      assert first + Tail(front) + "+" + last == first + (Tail(front) + "+" + last);
    }
  }

  lemma JoinFront(first: string, rest: seq<string>)
    requires first != "" && rest != [] && rest[0] != ""
    ensures JoinParts([first] + rest) == first + "+" + JoinParts(rest)
  {
    hide JoinParts;
    JoinIsTail(first, rest);
    JoinIsTail(rest[0], rest[1..]);
    assert [rest[0]] + rest[1..] == rest;
    assert first + ("+" + rest[0] + Tail(rest[1..])) == first + "+" + (rest[0] + Tail(rest[1..]));
  }

  /** An empty first part is lost. */
  lemma {:induction false} JoinSkips(rest: seq<string>)
    ensures JoinParts([""] + rest) == JoinParts(rest)
    decreases |rest|
  {
    hide JoinParts;
    if rest == [] {
      JoinOne("");
      NoParts();
      assert [""] + rest == [""];
    } else {
      var front, last := rest[..|rest| - 1], rest[|rest| - 1];
      JoinSkips(front);
      assert [""] + rest == [""] + front + [last] && rest == front + [last];
      JoinLast([""] + front, last);
      JoinLast(front, last);
    }
  }

  /** Without a last empty part. */
  function Trimmed(parts: seq<string>): seq<string> {
    if parts != [] && parts[|parts| - 1] == "" then parts[..|parts| - 1] else parts
  }

  /** Without the first empty parts. */
  function Stripped(parts: seq<string>): seq<string> {
    if parts != [] && parts[0] == "" then Stripped(parts[1..]) else parts
  }

  lemma SplitSingle(part: string)
    requires Plain([part])
    ensures Split(part) == Trimmed([part])
  {
    assert forall k :: 0 <= k < |part| ==> part[k] == [part][0][k] != '+';
    var k := FirstOf(part, '+');
  }

  lemma TrimmedFront(first: string, rest: seq<string>)
    requires rest != []
    ensures Trimmed([first] + rest) == [first] + Trimmed(rest)
  {}

  lemma {:induction false} SplitTail(first: string, rest: seq<string>)
    requires Plain([first] + rest)
    ensures Split(first + Tail(rest)) == Trimmed([first] + rest)
    decreases |rest|
  {
    hide Split, Trimmed;
    if rest == [] {
      assert first + "" == first && [first] + rest == [first];
      SplitSingle(first);
    } else {
      assert forall k :: 0 <= k < |first| ==> ([first] + rest)[0][k] != '+';
      PlainRest([first] + rest);
      hide Plain;
      assert ([first] + rest)[1..] == rest && [rest[0]] + rest[1..] == rest;
      var later := rest[0] + Tail(rest[1..]);
      assert first + Tail(rest) == first + "+" + later;
      SplitAt(first, later);
      SplitTail(rest[0], rest[1..]);
      TrimmedFront(first, rest);
    }
  }

  /** What a joined status is cut into: the parts without the empty ones in front and without an
      empty last one. */
  lemma {:induction false} SplitJoinParts(parts: seq<string>)
    requires Plain(parts)
    ensures Split(JoinParts(parts)) == Trimmed(Stripped(parts))
    decreases |parts|
  {
    hide JoinParts, Split, Plain;
    if parts == [] {
      NoParts();
      assert Split("") == [] by { SplitNothing(); }
    } else {
      assert parts == [parts[0]] + parts[1..];
      if parts[0] == "" {
        JoinSkips(parts[1..]);
        assert Plain(parts[1..]) by { PlainRest(parts); }
        SplitJoinParts(parts[1..]);
      } else {
        JoinIsTail(parts[0], parts[1..]);
        SplitTail(parts[0], parts[1..]);
      }
    }
  }

  lemma SplitNothing()
    ensures Split("") == []
  {}

  lemma PlainRest(parts: seq<string>)
    requires parts != [] && Plain(parts)
    ensures Plain(parts[1..])
  {}

  /** Joining and splitting are inverse on parts that are not empty and hold no `+`. */
  lemma SplitJoin(parts: seq<string>)
    requires Solid(parts)
    ensures Split(JoinParts(parts)) == parts
  {
    SplitJoinParts(parts);
  }

  lemma OnOffIsSolid(v: Vector)
    requires IsOnOff(v)
    ensures Solid(v)
  {}

  /** The list of codes as the configurator writes them. */
  function Codes(n: nat): (cs: seq<string>)
    requires n >= 1
    ensures |cs| == Pow2(n)
  {
    if n == 1 then ["OFF", "ON"]
    else
      var g := Codes(n - 1);
      seq(2 * |g|, i requires 0 <= i < 2 * |g| => if i < |g| then "OFF+" + g[i] else "ON+" + g[2 * |g| - 1 - i])
  }

  lemma {:induction false} CodesAreVectors(n: nat, i: nat)
    requires n >= 1 && i < Pow2(n)
    ensures Codes(n)[i] == JoinParts(Vectors(n)[i])
  {
    hide Vectors, Codes, JoinParts, Pow2;
    if n == 1 {
      ShortestCode();
      ShortestTexts();
    } else {
      VectorAt(n, i);
      CodesDouble(n - 1);
      var m := Pow2(n - 1);
      var k := if i < m then i else 2 * m - 1 - i;
      CodesAreVectors(n - 1, k);
      var below := Vectors(n - 1)[k];
      OnOffIsSolid(below);
      JoinFront(if i < m then "OFF" else "ON", below);
      assert "OFF+" == "OFF" + "+" && "ON+" == "ON" + "+";
    }
  }

  lemma ShortestTexts()
    ensures Codes(1) == ["OFF", "ON"] && JoinParts(["OFF"]) == "OFF" && JoinParts(["ON"]) == "ON"
  {
    JoinOne("OFF");
    JoinOne("ON");
  }

  /** A code read back is its vector, so no two codes are equal. */
  lemma CodesSplit(n: nat, i: nat)
    requires n >= 1 && i < Pow2(n)
    ensures Split(Codes(n)[i]) == Vectors(n)[i]
  {
    CodesAreVectors(n, i);
    OnOffIsSolid(Vectors(n)[i]);
    SplitJoin(Vectors(n)[i]);
  }

  lemma CodesDistinct(n: nat, i: nat, j: nat)
    requires n >= 1 && i < Pow2(n) && j < Pow2(n) && Codes(n)[i] == Codes(n)[j]
    ensures i == j
  {
    CodesSplit(n, i);
    CodesSplit(n, j);
    if i < j { VectorsDistinct(n, i, j); }
    if j < i { VectorsDistinct(n, j, i); }
  }

  // ---------- the doubling loop ----------

  lemma Pow2Monotone(a: nat, b: nat)
    requires a <= b
    ensures Pow2(a) <= Pow2(b)
  {
    if a < b { Pow2Monotone(a, b - 1); }
  }

  /** Builds the code in place: copy the first half in reverse to the second, then put OFF in
      front of the first half and ON in front of the second. */
  method GenerateGrayCode(length: nat) returns (codes: seq<string>)
    requires length >= 1
    ensures codes == Codes(length)
  {
    var size := PowerOfTwo(length);
    Pow2Monotone(1, length);
    assert Pow2(0) == 1;
    var grey := new string[size](_ => "");
    var n := 2;
    grey[0], grey[1] := "OFF", "ON";
    ghost var k := 1;
    while n < size
      invariant 1 <= k <= length && n == Pow2(k) <= size
      invariant grey[..n] == Codes(k)
      decreases size - n
    {
      if k == length { assert false; }
      Pow2Monotone(k + 1, length);
      n := n * 2;
      DoubleInPlace(grey, n, k);
      k := k + 1;
    }
    if k < length { Pow2Monotone(k + 1, length); }
    codes := [];
    for i := 0 to n
      invariant codes == grey[..i]
    {
      codes := codes + [grey[i]];
    }
  }

  method PowerOfTwo(n: nat) returns (p: nat)
    ensures p == Pow2(n)
  {
    p := 1;
    for i := 0 to n
      invariant p == Pow2(i)
    {
      p := 2 * p;
    }
  }

  method DoubleInPlace(grey: array<string>, n: nat, ghost k: nat)
    requires k >= 1 && n == 2 * Pow2(k) && n <= grey.Length
    requires grey[..n / 2] == Codes(k)
    modifies grey
    ensures grey[..n] == Codes(k + 1)
  {
    hide Codes, Pow2;
    var m := n / 2;
    ghost var g := grey[..m];
    MirrorHalf(grey, m);
    ghost var mid := grey[..n];
    assert forall x :: 0 <= x < m ==> mid[x] == grey[..m][x];
    PrefixRange(grey, 0, m, "OFF+");
    PrefixRange(grey, m, n, "ON+");
    Doubled(k, g, mid, grey[..n]);
  }

  /** What mirroring and prefixing make of the code of k components. */
  lemma Doubled(k: nat, g: seq<string>, mid: seq<string>, done: seq<string>)
    requires k >= 1 && g == Codes(k) && |mid| == |done| == 2 * |g|
    requires forall x :: 0 <= x < |g| ==> mid[x] == g[x]
    requires forall x :: |g| <= x < |mid| ==> mid[x] == g[2 * |g| - 1 - x]
    requires forall x :: 0 <= x < |mid| ==> done[x] == (if x < |g| then "OFF+" else "ON+") + mid[x]
    ensures done == Codes(k + 1)
  {
    hide Codes;
    CodesDouble(k);
  }

  lemma CodesDouble(k: nat)
    requires k >= 1
    ensures var g, h := Codes(k), Codes(k + 1);
            && |h| == 2 * |g|
            && (forall x :: 0 <= x < |g| ==> h[x] == "OFF+" + g[x])
            && (forall x :: |g| <= x < |h| ==> h[x] == "ON+" + g[2 * |g| - 1 - x])
  {}

  /** Copies the first m entries in reverse order to the next m. */
  method MirrorHalf(grey: array<string>, m: nat)
    requires 2 * m <= grey.Length
    modifies grey
    ensures grey[..m] == old(grey[..m])
    ensures forall x :: 2 * m <= x < grey.Length ==> grey[x] == old(grey[x])
    ensures forall x :: m <= x < 2 * m ==> grey[x] == old(grey[2 * m - 1 - x])
  {
    var i, j := m, m - 1;
    while i < 2 * m && j >= 0
      invariant m <= i <= 2 * m && j == 2 * m - 1 - i
      invariant forall x :: 0 <= x < m ==> grey[x] == old(grey[x])
      invariant forall x :: m <= x < i ==> grey[x] == old(grey[2 * m - 1 - x])
      invariant forall x :: 2 * m <= x < grey.Length ==> grey[x] == old(grey[x])
    {
      grey[i] := grey[j];
      i, j := i + 1, j - 1;
    }
  }

  /** Puts a prefix in front of the entries from lo up to hi exclusive. */
  method PrefixRange(grey: array<string>, lo: nat, hi: nat, prefix: string)
    requires lo <= hi <= grey.Length
    modifies grey
    ensures forall x :: 0 <= x < grey.Length ==> grey[x] == if lo <= x < hi then prefix + old(grey[x]) else old(grey[x])
  {
    for i := lo to hi
      invariant forall x :: 0 <= x < grey.Length ==> grey[x] == if lo <= x < i then prefix + old(grey[x]) else old(grey[x])
    {
      grey[i] := prefix + grey[i];
    }
  }
}
