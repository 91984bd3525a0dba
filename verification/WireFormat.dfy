/** The bytes on the wire, in the terms of RFC 6455 section 5.2: what each request and reply looks like,
    byte by byte, and what each opcode makes an endpoint do. */
module WireFormat {
  import opened Frames
  import opened Session
  import opened WireDiscipline
  import opened WebSocket

  /** Where the length field ends. */
  function HeadSize(n: nat): (h: nat)
    ensures h == if n < 126 then 2 else if n < 65536 then 4 else 10
  {
    if n < 126 then 2 else if n < 65536 then 4 else 10
  }

  lemma LengthSize(n: nat)
    ensures 2 + |LengthBytes(n)| == HeadSize(n)
  {
    hide ToBigEndian;
  }

  lemma SmallByte(n: nat)
    requires n < 126
    ensures LowByte(n) == n as byte
  {}

  lemma ByteForms(fin: bool, opcode: byte, n: nat, masked: bool)
    ensures FirstByte(fin, opcode) == if fin then 0x80 | opcode else opcode
    ensures SecondByte(n, masked) == (if n < 126 then LowByte(n) else if n < 65536 then 126 else 127) | (if masked then 0x80 else 0)
  {
    hide LowByte;
  }

  /** First byte: flag and opcode.  Second byte: mask flag and length, 126 or 127. */
  lemma FirstBytes(f: Frame, m: Mask)
    requires ValidFrame(f)
    ensures var s, n := Encode(f, m), |f.payload|;
            && |s| >= 2
            && s[0] == (if f.fin then 0x80 | f.opcode else f.opcode)
            && s[1] == (if n < 126 then n as byte else if n < 65536 then 126 else 127) | (if m.Masked? then 0x80 else 0)
  {
    hide Encode, LengthBytes, FirstByte, SecondByte, LowByte;
    EncodedBytes(f, m);
    ByteForms(f.fin, f.opcode, |f.payload|, m.Masked?);
    if |f.payload| < 126 { SmallByte(|f.payload|); }
  }

  /** The length field is the payload's length, high byte first. */
  lemma LengthField(f: Frame, m: Mask)
    requires ValidFrame(f)
    ensures var s, n := Encode(f, m), |f.payload|;
            && |s| >= HeadSize(n)
            && (126 <= n < 65536 ==> s[2] as nat * 0x100 + s[3] as nat == n)
            && (n >= 65536 ==>
                  s[2] as nat * 0x100_0000_0000_0000 + s[3] as nat * 0x1_0000_0000_0000 +
                  s[4] as nat * 0x100_0000_0000 + s[5] as nat * 0x1_0000_0000 +
                  s[6] as nat * 0x100_0000 + s[7] as nat * 0x1_0000 +
                  s[8] as nat * 0x100 + s[9] as nat == n)
  {
    hide Encode, LengthBytes, BigEndian;
    EncodedBytes(f, m);
    LengthSize(|f.payload|);
    LengthCodeFacts(|f.payload|);
    var s, n := Encode(f, m), |f.payload|;
    if 126 <= n < 65536 {
      ReadTwoBytes(s[2..4]);
    } else if n >= 65536 {
      ReadEightBytes(s[2..10]);
    }
  }

  /** Then key and masked payload, or the payload as it is, and nothing more. */
  lemma PayloadField(f: Frame, m: Mask)
    ensures var s, n := Encode(f, m), |f.payload|;
            var h := HeadSize(n);
            && |s| == h + (if m.Masked? then 4 else 0) + n
            && (m.Plain? ==> s[h..] == f.payload)
            && (m.Masked? ==> s[h..h + 4] == m.key && forall i :: 0 <= i < n ==> s[h + 4 + i] == f.payload[i] ^ m.key[i % 4])
  {
    EncodedBytes(f, m);
    LengthSize(|f.payload|);
    hide Encode, LengthBytes;
    var s, n := Encode(f, m), |f.payload|;
    var h := HeadSize(n);
    if m.Masked? {
      assert |s[h + 4..]| == n;
      forall i | 0 <= i < n ensures s[h + 4 + i] == f.payload[i] ^ m.key[i % 4] {
        assert s[h + 4..][i] == s[h + 4 + i];
      }
    }
  }

  // ---------- requests ----------

  /** The mask of everything but a close frame. */
  function UsualMask(useMask: bool): Mask { if useMask then Masked([0x12, 0x34, 0x56, 0x78]) else Plain }

  /** What requests come to on the wire, up to the first close: opcode 1 for text, 2 for binary, 9 for
      a ping, and for a close six fixed bytes, after which nothing is queued. */
  function Requested(useMask: bool, rs: seq<Request>): seq<byte> {
    if |rs| == 0 then []
    else match rs[0]
      case SendMessage(m) => Encode(Frame(true, if m.text then 1 else 2, m.payload), UsualMask(useMask)) + Requested(useMask, rs[1..])
      case SendPing => Encode(Frame(true, 9, []), UsualMask(useMask)) + Requested(useMask, rs[1..])
      case CloseConnection => [0x88, 0x80, 0x00, 0x00, 0x00, 0x00]
  }

  function MessagesRequested(rs: seq<Request>): seq<seq<byte>> {
    if |rs| == 0 || rs[0].CloseConnection? then []
    else (if rs[0].SendMessage? then [rs[0].message.payload] else []) + MessagesRequested(rs[1..])
  }

  lemma {:induction false} EndedAsks(s: State, rs: seq<Request>)
    requires s.Ended()
    ensures AskAll(s, rs) == s
    decreases |rs|
  {
    if |rs| != 0 { EndedAsks(s, rs[1..]); }
  }

  predicate AsksClose(rs: seq<Request>) { exists i :: 0 <= i < |rs| && rs[i].CloseConnection? }

  lemma NothingAsked(rs: seq<Request>)
    requires |rs| == 0
    ensures !AsksClose(rs)
  {}

  lemma CloseLater(rs: seq<Request>)
    requires |rs| != 0 && !rs[0].CloseConnection?
    ensures AsksClose(rs) <==> AsksClose(rs[1..])
  {
    if AsksClose(rs) {
      var i :| 0 <= i < |rs| && rs[i].CloseConnection?;
      assert rs[1..][i - 1].CloseConnection?;
    }
  }

  lemma CloseAsked(s: State)
    requires !s.Ended()
    ensures Ask(s, CloseConnection) == s.(ready := CLOSING, tx := s.tx + Encode(CLOSE_FRAME, Masked(ZERO_KEY)))
  {}

  ghost predicate Queues(s: State, rs: seq<Request>) {
    var t := AskAll(s, rs);
    && t.tx == s.tx + Requested(s.useMask, rs)
    && t.asked == s.asked + MessagesRequested(rs)
    && t.ready == if AsksClose(rs) then CLOSING else s.ready
  }

  lemma FirstIsClose(s: State, rs: seq<Request>)
    requires !s.Ended() && |rs| != 0 && rs[0].CloseConnection?
    ensures Queues(s, rs)
  {
    var closeFrame: seq<byte> := [0x88, 0x80, 0x00, 0x00, 0x00, 0x00];
    CloseFrameBytes(closeFrame);
    CloseAsked(s);
    EndedAsks(Ask(s, rs[0]), rs[1..]);
    hide Encode, Ask;
    assert s.asked + [] == s.asked;
  }

  lemma RequestedFirst(useMask: bool, rs: seq<Request>)
    requires |rs| != 0 && !rs[0].CloseConnection?
    ensures Requested(useMask, rs) == Alone(useMask, rs[0]) + Requested(useMask, rs[1..])
    ensures MessagesRequested(rs) == (if rs[0].SendMessage? then [rs[0].message.payload] else []) + MessagesRequested(rs[1..])
  {
    hide Encode;
  }

  function Alone(useMask: bool, r: Request): seq<byte>
    requires !r.CloseConnection?
  {
    if r.SendMessage? then Encode(Frame(true, if r.message.text then 1 else 2, r.message.payload), UsualMask(useMask))
    else Encode(Frame(true, 9, []), UsualMask(useMask))
  }

  lemma FirstIsOther(s: State, rs: seq<Request>)
    requires !s.Ended() && |rs| != 0 && !rs[0].CloseConnection? && Queues(Ask(s, rs[0]), rs[1..])
    ensures Queues(s, rs)
  {
    hide Encode, Ask, AsksClose;
    var t := Ask(s, rs[0]);
    assert AskAll(s, rs) == AskAll(t, rs[1..]);
    hide AskAll;
    OneRequest(s, rs[0]);
    CloseLater(rs);
    RequestedFirst(s.useMask, rs);
    hide Requested, MessagesRequested;
    var front := Alone(s.useMask, rs[0]);
    assert t.tx == s.tx + front;
    assert s.tx + front + Requested(s.useMask, rs[1..]) == s.tx + (front + Requested(s.useMask, rs[1..]));
    hide Alone;
  }

  /** An open endpoint queues what it is asked for, in order, up to the first close. */
  lemma {:induction false} RequestsQueued(s: State, rs: seq<Request>)
    requires !s.Ended()
    ensures var t := AskAll(s, rs);
            && t.tx == s.tx + Requested(s.useMask, rs)
            && t.asked == s.asked + MessagesRequested(rs)
            && t.ready == if AsksClose(rs) then CLOSING else s.ready
    decreases |rs|
  {
    hide Encode, Ask, AsksClose;
    if |rs| == 0 {
      NothingAsked(rs);
      assert s.tx + [] == s.tx && s.asked + [] == s.asked;
    } else {
      hide AskAll, Requested, MessagesRequested;
      if rs[0].CloseConnection? {
        FirstIsClose(s, rs);
      } else {
        OneRequest(s, rs[0]);
        RequestsQueued(Ask(s, rs[0]), rs[1..]);
        FirstIsOther(s, rs);
      }
    }
  }

  lemma OneRequest(s: State, r: Request)
    requires !s.Ended() && !r.CloseConnection?
    ensures var t := Ask(s, r);
            && t.useMask == s.useMask && t.ready == s.ready
            && t.tx == s.tx + (if r.SendMessage? then Encode(Frame(true, if r.message.text then 1 else 2, r.message.payload), UsualMask(s.useMask))
                               else Encode(Frame(true, 9, []), UsualMask(s.useMask)))
            && t.asked == s.asked + if r.SendMessage? then [r.message.payload] else []
  {
    hide Encode;
  }

  // ---------- received frames ----------

  /** What each opcode does: 0, 1 and 2 carry data, 9 is answered by opcode 10 with the same payload,
      10 does nothing, and any other makes an open endpoint queue its close frame. */
  lemma OpcodeMeaning(s: State, f: Frame)
    ensures var t := Handle(s, f);
            && (f.opcode <= 2 && f.fin ==> t.callbacks == s.callbacks + [s.received + f.payload] && t.received == [])
            && (f.opcode <= 2 && !f.fin ==> t == s.(received := s.received + f.payload))
            && (f.opcode > 2 ==> t.callbacks == s.callbacks && t.received == s.received)
            && (f.opcode == 9 && (s.ready == OPEN || s.ready == CONNECTING) ==>
                  t == s.(tx := s.tx + Encode(Frame(true, 10, f.payload), UsualMask(s.useMask))))
            && (f.opcode == 10 ==> t == s)
            && (f.opcode > 2 && f.opcode != 9 && f.opcode != 10 && (s.ready == OPEN || s.ready == CONNECTING) ==>
                  t == s.(ready := CLOSING, tx := s.tx + [0x88, 0x80, 0x00, 0x00, 0x00, 0x00]))
            && (f.opcode > 2 && (s.ready == CLOSING || s.ready == CLOSED) ==> t == s)
  {
    hide Encode, AskAll;
    var closeFrame: seq<byte> := [0x88, 0x80, 0x00, 0x00, 0x00, 0x00];
    CloseFrameBytes(closeFrame);
    var t := s.(received := [], callbacks := s.callbacks + [s.received + f.payload]);
    AskKeeps(t, t.app(t.callbacks), t.rx, []);
  }
}
