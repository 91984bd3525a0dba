/** RFC 6455 section 5.2 frames: how one frame is laid out in bytes (`Encode`) and how the
    first frame of a byte stream is recognised (`Next`), with the laws that tie the two. */
module Frames {
  import opened Options

  type byte = bv8

  const CONTINUATION: byte := 0
  const TEXT_FRAME: byte := 1
  const BINARY_FRAME: byte := 2
  const CLOSE: byte := 8
  const PING: byte := 9
  const PONG: byte := 10

  const TWO_TO_THE_16 := 0x1_0000
  const TWO_TO_THE_64 := 0x1_0000_0000_0000_0000

  // ---------- bytes and big-endian numbers ----------

  function LowByte(n: nat): byte { (n % 256) as byte }

  function ByteValue(b: byte): nat { b as nat }

  function BigEndian(s: seq<byte>): nat {
    if s == [] then 0 else BigEndian(s[..|s| - 1]) * 256 + ByteValue(s[|s| - 1])
  }

  function ToBigEndian(n: nat, width: nat): (s: seq<byte>)
    ensures |s| == width
  {
    if width == 0 then [] else ToBigEndian(n / 256, width - 1) + [LowByte(n)]
  }

  function Pow256(k: nat): nat { if k == 0 then 1 else 256 * Pow256(k - 1) }

  lemma ByteRoundTrip(n: nat)
    requires n < 256
    ensures ByteValue(n as byte) == n
  {}

  lemma LowByteValue(n: nat)
    ensures ByteValue(LowByte(n)) == n % 256
  {
    hide ByteValue;
    ByteRoundTrip(n % 256);
  }

  lemma QuotientBelow(n: nat, p: nat)
    requires n < 256 * p
    ensures n / 256 < p && n / 256 * 256 + n % 256 == n
  {}

  lemma {:induction false} BigEndianRoundTrip(n: nat, width: nat)
    requires n < Pow256(width)
    ensures BigEndian(ToBigEndian(n, width)) == n
  {
    if width > 0 {
      QuotientBelow(n, Pow256(width - 1));
      BigEndianRoundTrip(n / 256, width - 1);
      LowByteValue(n);
      assert ToBigEndian(n, width)[..width - 1] == ToBigEndian(n / 256, width - 1);
    }
  }

  // ---------- masking (section 5.3) ----------

  type Key = k: seq<byte> | |k| == 4 witness [0, 0, 0, 0]

  function Xor(data: seq<byte>, key: Key): (r: seq<byte>)
    ensures |r| == |data|
    ensures forall i :: 0 <= i < |data| ==> r[i] == data[i] ^ key[i % 4]
  {
    seq(|data|, i requires 0 <= i < |data| => data[i] ^ key[i % 4])
  }

  lemma XorByteTwice(a: byte, b: byte)
    ensures (a ^ b) ^ b == a && a ^ 0 == a
  {}

  lemma XorTwice(data: seq<byte>, key: Key)
    ensures Xor(Xor(data, key), key) == data
  {
    forall i | 0 <= i < |data| ensures Xor(Xor(data, key), key)[i] == data[i] {
      XorByteTwice(data[i], key[i % 4]);
    }
  }

  // ---------- frames ----------

  datatype Frame = Frame(fin: bool, opcode: byte, payload: seq<byte>)

  datatype Mask = Plain | Masked(key: Key)

  ghost predicate ValidFrame(f: Frame) { f.opcode < 16 && |f.payload| < TWO_TO_THE_64 }

  function FlagBit(on: bool): byte { if on then 0x80 else 0 }

  /** The length field that follows the opcode byte, without the mask flag: shortest form. */
  function LengthCode(n: nat): byte {
    if n < 126 then LowByte(n) else if n < TWO_TO_THE_16 then 126 else 127
  }

  function LengthBytes(n: nat): seq<byte> {
    if n < 126 then [] else if n < TWO_TO_THE_16 then ToBigEndian(n, 2) else ToBigEndian(n, 8)
  }

  function Head(fin: bool, opcode: byte, size: nat, masked: bool): (h: seq<byte>)
    ensures |h| == 2 + |LengthBytes(size)|
  {
    [FirstByte(fin, opcode), SecondByte(size, masked)] + LengthBytes(size)
  }

  function Body(payload: seq<byte>, m: Mask): seq<byte>
  {
    match m
    case Plain => payload
    case Masked(key) => key + Xor(payload, key)
  }

  function Encode(f: Frame, m: Mask): seq<byte>
  {
    Head(f.fin, f.opcode, |f.payload|, m.Masked?) + Body(f.payload, m)
  }

  /** A complete header at the front of a stream: `size` is its own length in bytes and
      `length` the announced payload length. */
  datatype Header = Header(fin: bool, opcode: byte, masked: bool, size: nat, length: nat, key: Key)
  {
    ghost predicate Wide() { size + length < TWO_TO_THE_64 }
  }

  function Fin(b: byte): bool { b & 0x80 == 0x80 }

  function Opcode(b: byte): (r: byte)
    ensures r < 16
  {
    b & 0x0f
  }

  function MaskBit(b: byte): bool { b & 0x80 == 0x80 }

  function Code(b: byte): byte { b & 0x7f }

  function FirstByte(fin: bool, opcode: byte): byte { FlagBit(fin) | opcode }

  function SecondByte(size: nat, masked: bool): byte { LengthCode(size) | FlagBit(masked) }

  function ExtraLength(code: byte): (n: nat)
    ensures n <= 8
  {
    if code == 126 then 2 else if code == 127 then 8 else 0
  }

  function HeaderSize(s: seq<byte>): (n: nat)
    requires |s| >= 2
    ensures 2 <= n <= 14
  {
    2 + ExtraLength(Code(s[1])) + (if MaskBit(s[1]) then 4 else 0)
  }

  function ReadHeader(s: seq<byte>): (r: Option<Header>)
    ensures r.Some? ==> 2 <= r.value.size <= |s| && r.value.opcode < 16
    ensures r.None? <==> |s| < 2 || |s| < HeaderSize(s)
  {
    if |s| < 2 || |s| < HeaderSize(s) then None
    else
      var code := Code(s[1]);
      var i := 2 + ExtraLength(code);
      Some(Header(
             Fin(s[0]), Opcode(s[0]), MaskBit(s[1]), HeaderSize(s),
             if code < 126 then ByteValue(code) else BigEndian(s[2..i]),
             if MaskBit(s[1]) then s[i..i + 4] else [0, 0, 0, 0]))
  }

  datatype Parsed = Incomplete | Whole(frame: Frame, size: nat)

  /** The first frame of a stream, or `Incomplete` while more bytes are needed. */
  function Next(s: seq<byte>): (r: Parsed)
    ensures r.Whole? ==> 2 <= r.size <= |s|
    ensures r.Whole? ==> r.frame.opcode < 16
  {
    match ReadHeader(s)
    case None => Incomplete
    case Some(h) =>
      if |s| < h.size + h.length then Incomplete
      else
        var raw := s[h.size..h.size + h.length];
        Whole(Frame(h.fin, h.opcode, if h.masked then Xor(raw, h.key) else raw), h.size + h.length)
  }

  /** All whole frames at the front of a stream ... */
  function Decode(s: seq<byte>): seq<Frame>
    decreases |s|
  {
    match Next(s)
    case Incomplete => []
    case Whole(f, n) => [f] + Decode(s[n..])
  }

  /** ... and the bytes after them. */
  function Leftover(s: seq<byte>): (r: seq<byte>)
    decreases |s|
    ensures Next(r).Incomplete?
  {
    match Next(s)
    case Incomplete => s
    case Whole(_, n) => Leftover(s[n..])
  }

  /** No header met while decoding announces a size that wraps in 64-bit arithmetic. */
  ghost predicate NoWrap(s: seq<byte>)
    decreases |s|
  {
    match ReadHeader(s)
    case None => true
    case Some(h) => h.Wide() && (h.size + h.length <= |s| ==> NoWrap(s[h.size + h.length..]))
  }

  // ---------- more bytes never change what was already recognised ----------

  lemma HeaderOfPrefix(s: seq<byte>, more: seq<byte>)
    requires ReadHeader(s).Some?
    ensures ReadHeader(s + more) == ReadHeader(s)
  {
    var i := 2 + ExtraLength(Code(s[1]));
    assert (s + more)[2..i] == s[2..i];
    if MaskBit(s[1]) { assert (s + more)[i..i + 4] == s[i..i + 4]; }
  }

  lemma NextOfPrefix(s: seq<byte>, more: seq<byte>)
    requires Next(s).Whole?
    ensures Next(s + more) == Next(s)
    ensures (s + more)[Next(s).size..] == s[Next(s).size..] + more
  {
    HeaderOfPrefix(s, more);
    var h := ReadHeader(s).value;
    var n := h.size + h.length;
    assert n <= |s|;
    assert (s + more)[h.size..n] == s[h.size..n];
    hide ReadHeader, Xor;
    assert (s + more)[n..] == s[n..] + more by { SuffixOf(s, more, n); }
  }

  lemma SuffixOf(s: seq<byte>, more: seq<byte>, n: nat)
    requires n <= |s|
    ensures (s + more)[n..] == s[n..] + more
  {}

  /** Decoding a stream in two instalments is decoding it at once. */
  lemma {:induction false} DecodeAppend(s: seq<byte>, more: seq<byte>)
    ensures Decode(s + more) == Decode(s) + Decode(Leftover(s) + more)
    ensures Leftover(s + more) == Leftover(Leftover(s) + more)
    decreases |s|
  {
    hide Next;
    match Next(s)
    case Incomplete =>
    case Whole(f, n) =>
      NextOfPrefix(s, more);
      DecodeAppend(s[n..], more);

  }

  lemma {:induction false} NoWrapSplits(s: seq<byte>, more: seq<byte>)
    requires NoWrap(s + more)
    ensures NoWrap(s) && NoWrap(Leftover(s) + more)
    decreases |s|
  {
    hide ReadHeader, Xor;
    if ReadHeader(s).Some? {
      HeaderOfPrefix(s, more);
      var n := ReadHeader(s).value.size + ReadHeader(s).value.length;
      if n <= |s| {
        NextOfPrefix(s, more);
        NoWrapSplits(s[n..], more);
      }
    }
  }

  // ---------- round trip ----------

  lemma FirstByteRoundTrip(fin: bool, opcode: byte)
    requires opcode < 16
    ensures Opcode(FirstByte(fin, opcode)) == opcode && Fin(FirstByte(fin, opcode)) == fin
  {}

  lemma FlaggedCode(code: byte, masked: bool)
    requires code < 128
    ensures Code(code | FlagBit(masked)) == code && MaskBit(code | FlagBit(masked)) == masked
  {}

  lemma LengthCodeFacts(n: nat)
    requires n < TWO_TO_THE_64
    ensures LengthCode(n) < 128
    ensures |LengthBytes(n)| == ExtraLength(LengthCode(n))
    ensures LengthCode(n) < 126 <==> n < 126
    ensures n < 126 ==> ByteValue(LengthCode(n)) == n
    ensures n >= 126 ==> BigEndian(LengthBytes(n)) == n
  {
    if n < 126 {
      LowByteValue(n);
    } else if n < TWO_TO_THE_16 {
      assert Pow256(2) == 0x1_0000;
      BigEndianRoundTrip(n, 2);
    } else {
      assert Pow256(4) == 0x1_0000_0000;
      assert Pow256(8) == TWO_TO_THE_64;
      BigEndianRoundTrip(n, 8);
    }
  }

  lemma EncodedBytes(f: Frame, m: Mask)
    ensures var s, i := Encode(f, m), 2 + |LengthBytes(|f.payload|)|;
            && |s| >= i + (if m.Masked? then 4 else 0)
            && s[0] == FirstByte(f.fin, f.opcode) && s[1] == SecondByte(|f.payload|, m.Masked?) && s[2..i] == LengthBytes(|f.payload|)
            && (m.Masked? ==> s[i..i + 4] == m.key && s[i + 4..] == Xor(f.payload, m.key))
            && (m.Plain? ==> s[i..] == f.payload)
  {
    hide FirstByte, SecondByte, LengthBytes, Xor;
  }

  lemma EncodedHeader(f: Frame, m: Mask)
    requires ValidFrame(f)
    ensures ReadHeader(Encode(f, m)).Some?
    ensures var h := ReadHeader(Encode(f, m)).value;
            && h.fin == f.fin && h.opcode == f.opcode && h.length == |f.payload|
            && h.masked == m.Masked? && h.size == 2 + |LengthBytes(|f.payload|)| + (if m.Masked? then 4 else 0)
            && (m.Masked? ==> h.key == m.key)
  {
    EncodedBytes(f, m);
    FirstByteRoundTrip(f.fin, f.opcode);
    LengthCodeFacts(|f.payload|);
    FlaggedCode(LengthCode(|f.payload|), m.Masked?);
    hide Encode, Code, MaskBit, Fin, Opcode, LengthCode, LengthBytes, FirstByte, BigEndian;
  }

  lemma NextOfOneFrame(f: Frame, m: Mask)
    requires ValidFrame(f)
    ensures Next(Encode(f, m)) == Whole(f, |Encode(f, m)|)
  {
    hide Encode, ReadHeader, Xor, LengthBytes, FirstByte, SecondByte, BigEndian;
    EncodedHeader(f, m);
    EncodedBytes(f, m);
    var s, h := Encode(f, m), ReadHeader(Encode(f, m)).value;
    assert s[h.size..h.size + h.length] == s[h.size..];
    match m
    case Plain => assert s[h.size..] == f.payload;
    case Masked(key) =>
      assert s[h.size..] == Xor(f.payload, key);
      XorTwice(f.payload, key);
  }

  /** One encoded frame in front of anything is read back whole, in every length form. */
  lemma NextOfEncoded(f: Frame, m: Mask, rest: seq<byte>)
    requires ValidFrame(f)
    ensures Next(Encode(f, m) + rest) == Whole(f, |Encode(f, m)|)
  {
    hide Encode, Next;
    NextOfOneFrame(f, m);
    NextOfPrefix(Encode(f, m), rest);
  }

  /** A frame together with the mask it travels under. */
  datatype Outgoing = Outgoing(frame: Frame, mask: Mask)

  function EncodeAll(os: seq<Outgoing>): seq<byte>
  {
    if os == [] then [] else Encode(os[0].frame, os[0].mask) + EncodeAll(os[1..])
  }

  function FramesOf(os: seq<Outgoing>): (fs: seq<Frame>)
    ensures |fs| == |os| && forall i :: 0 <= i < |os| ==> fs[i] == os[i].frame
  {
    seq(|os|, i requires 0 <= i < |os| => os[i].frame)
  }

  /** Frame round trip (sections 5.2 and 5.3): any list of frames, each masked or not, in any
      of the three length forms, is decoded to exactly that list and nothing is left over. */
  lemma {:induction false} DecodeEncodeAll(os: seq<Outgoing>)
    requires forall i :: 0 <= i < |os| ==> ValidFrame(os[i].frame)
    ensures Decode(EncodeAll(os)) == FramesOf(os) && Leftover(EncodeAll(os)) == []
  {
    hide Encode, Next;
    if os != [] {
      var e := Encode(os[0].frame, os[0].mask);
      NextOfEncoded(os[0].frame, os[0].mask, EncodeAll(os[1..]));
      assert EncodeAll(os)[|e|..] == EncodeAll(os[1..]);
      DecodeEncodeAll(os[1..]);
      assert FramesOf(os) == [os[0].frame] + FramesOf(os[1..]);
    }
  }

  /** Appending one encoded frame to a stream of whole frames appends that frame. */
  lemma DecodeExtended(s: seq<byte>, f: Frame, m: Mask)
    requires Leftover(s) == [] && ValidFrame(f)
    ensures Decode(s + Encode(f, m)) == Decode(s) + [f]
    ensures Leftover(s + Encode(f, m)) == []
  {
    var e := Encode(f, m);
    DecodeAppend(s, e);
    NextOfEncoded(f, m, []);
    hide Next, Encode;
    assert e + [] == e && [] + e == e;
    assert e[|e|..] == [];
  }
}
