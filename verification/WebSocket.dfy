/** The endpoint itself: byte buffers grown, masked and erased in place. */
module WebSocket {
  import opened Options
  import opened Frames
  import opened Session
  import opened WireDiscipline

  // ---------- numbers as eight shifted bytes ----------

  lemma TwoShiftedBytes(n: nat)
    ensures ToBigEndian(n, 2) == [LowByte(n / 256), LowByte(n)]
  {
    assert ToBigEndian(n / 256 / 256, 0) == [];
    assert ToBigEndian(n / 256, 1) == [LowByte(n / 256)];
  }

  lemma OneMoreByte(q: nat, width: nat)
    ensures ToBigEndian(q, width + 1) == ToBigEndian(q / 256, width) + [LowByte(q)]
  {
    hide LowByte;
  }

  lemma ShiftedAgain(n: nat)
    ensures n / 0x100 / 0x100 == n / 0x1_0000 && n / 0x1_0000 / 0x100 == n / 0x100_0000
    ensures n / 0x100_0000 / 0x100 == n / 0x1_0000_0000
  {}

  lemma FourShiftedBytes(n: nat, width: nat)
    ensures ToBigEndian(n, width + 4) ==
            ToBigEndian(n / 0x1_0000_0000, width) +
            [LowByte(n / 0x100_0000), LowByte(n / 0x1_0000), LowByte(n / 0x100), LowByte(n)]
  {
    hide LowByte, ToBigEndian;
    ShiftedAgain(n);
    OneMoreByte(n / 0x100_0000, width);
    OneMoreByte(n / 0x1_0000, width + 1);
    OneMoreByte(n / 0x100, width + 2);
    OneMoreByte(n, width + 3);
  }

  lemma EightShiftedBytes(n: nat)
    ensures ToBigEndian(n, 8) == [
              LowByte(n / 0x100_0000_0000_0000), LowByte(n / 0x1_0000_0000_0000),
              LowByte(n / 0x100_0000_0000), LowByte(n / 0x1_0000_0000),
              LowByte(n / 0x100_0000), LowByte(n / 0x1_0000), LowByte(n / 0x100), LowByte(n)]
  {
    hide LowByte;
    var q := n / 0x1_0000_0000;
    FourShiftedBytes(n, 4);
    FourShiftedBytes(q, 0);
    assert ToBigEndian(q / 0x1_0000_0000, 0) == [];
    hide ToBigEndian;
    DivideAgain(n);
  }

  lemma DivideAgain(n: nat)
    ensures var q := n / 0x1_0000_0000;
            && q / 0x100 == n / 0x100_0000_0000
            && q / 0x1_0000 == n / 0x1_0000_0000_0000
            && q / 0x100_0000 == n / 0x100_0000_0000_0000
  {}

  /** The three header layouts, byte by byte. */
  lemma HeadForms(opcode: byte, size: nat, masked: bool)
    requires size < TWO_TO_THE_64
    ensures var h := Head(true, opcode, size, masked);
            h == if size < 126 then
              [0x80 | opcode, LowByte(size) | FlagBit(masked)]
            else if size < 65536 then
              [0x80 | opcode, 126 | FlagBit(masked), LowByte(size / 0x100), LowByte(size)]
            else
              [0x80 | opcode, 127 | FlagBit(masked),
               LowByte(size / 0x100_0000_0000_0000), LowByte(size / 0x1_0000_0000_0000),
               LowByte(size / 0x100_0000_0000), LowByte(size / 0x1_0000_0000),
               LowByte(size / 0x100_0000), LowByte(size / 0x1_0000), LowByte(size / 0x100), LowByte(size)]
  {
    hide LowByte, ToBigEndian, FlagBit;
    FlagOn();
    assert FirstByte(true, opcode) == 0x80 | opcode;
    if size < 126 {
    } else if size < 65536 {
      TwoShiftedBytes(size);
    } else {
      EightShiftedBytes(size);
      assert SecondByte(size, masked) == 127 | FlagBit(masked);
      assert LengthBytes(size) == ToBigEndian(size, 8);
    }
  }

  lemma FlagOn()
    ensures FlagBit(true) == 0x80
  {}

  lemma BigEndianStep(s: seq<byte>, b: byte)
    ensures BigEndian(s + [b]) == BigEndian(s) * 256 + ByteValue(b)
  {
    assert (s + [b])[..|s|] == s;
  }

  function TwoBytes(a: byte, b: byte): nat { ByteValue(a) * 0x100 + ByteValue(b) }

  lemma ReadTwoBytes(s: seq<byte>)
    requires |s| == 2
    ensures BigEndian(s) == TwoBytes(s[0], s[1])
  {
    BigEndianStep([], s[0]);
    BigEndianStep([s[0]], s[1]);
    assert s == [s[0]] + [s[1]] && [] + [s[0]] == [s[0]];
  }

  lemma ReadMoreBytes(s: seq<byte>)
    requires |s| >= 2
    ensures BigEndian(s) == BigEndian(s[..|s| - 2]) * 0x1_0000 + TwoBytes(s[|s| - 2], s[|s| - 1])
  {
    hide ByteValue;
    assert s[..|s| - 1][..|s| - 2] == s[..|s| - 2];
    assert s[..|s| - 1][|s| - 2] == s[|s| - 2];
  }

  function FourDigits(a: nat, b: nat, c: nat, d: nat): nat { a * 0x100_0000 + b * 0x1_0000 + c * 0x100 + d }

  lemma ReadFourBytes(front: seq<byte>, s: seq<byte>)
    requires |s| == 4
    ensures BigEndian(front + s) == BigEndian(front) * 0x1_0000_0000 +
                                    FourDigits(ByteValue(s[0]), ByteValue(s[1]), ByteValue(s[2]), ByteValue(s[3]))
  {
    hide ByteValue, BigEndian;
    ReadMoreBytes(front + s);
    assert (front + s)[..|front| + 2] == front + s[..2];
    ReadMoreBytes(front + s[..2]);
    assert (front + s[..2])[..|front|] == front;
  }

  lemma ReadEightBytes(s: seq<byte>)
    requires |s| == 8
    ensures BigEndian(s) ==
            ByteValue(s[0]) * 0x100_0000_0000_0000 + ByteValue(s[1]) * 0x1_0000_0000_0000 +
            ByteValue(s[2]) * 0x100_0000_0000 + ByteValue(s[3]) * 0x1_0000_0000 +
            ByteValue(s[4]) * 0x100_0000 + ByteValue(s[5]) * 0x1_0000 +
            ByteValue(s[6]) * 0x100 + ByteValue(s[7])
  {
    hide ByteValue, BigEndian, FourDigits;
    ReadFourBytes([], s[..4]);
    assert [] + s[..4] == s[..4];
    ReadFourBytes(s[..4], s[4..]);
    assert s[..4] + s[4..] == s;
    NoBytes();
    EightDigits(ByteValue(s[0]), ByteValue(s[1]), ByteValue(s[2]), ByteValue(s[3]),
                ByteValue(s[4]), ByteValue(s[5]), ByteValue(s[6]), ByteValue(s[7]));
  }

  lemma NoBytes()
    ensures BigEndian([]) == 0
  {}

  lemma EightDigits(a: nat, b: nat, c: nat, d: nat, e: nat, f: nat, g: nat, h: nat)
    ensures FourDigits(a, b, c, d) * 0x1_0000_0000 + FourDigits(e, f, g, h) ==
            a * 0x100_0000_0000_0000 + b * 0x1_0000_0000_0000 + c * 0x100_0000_0000 + d * 0x1_0000_0000 +
            e * 0x100_0000 + f * 0x1_0000 + g * 0x100 + h
  {}

  lemma FourBytes(s: seq<byte>, i: nat)
    requires i + 4 <= |s|
    ensures s[i..i + 4] == [s[i], s[i + 1], s[i + 2], s[i + 3]]
  {}

  // ---------- masking in place ----------

  /** `s` with the bytes from `start` up to `start + count` exclusive-ored with the key. */
  function MaskedRange(s: seq<byte>, start: nat, count: nat, key: Key): (r: seq<byte>)
    requires start + count <= |s|
    ensures |r| == |s|
  {
    seq(|s|, i requires 0 <= i < |s| => if start <= i < start + count then s[i] ^ key[(i - start) % 4] else s[i])
  }

  lemma MaskOneMore(s: seq<byte>, start: nat, i: nat, key: Key)
    requires start + i < |s|
    ensures var t := MaskedRange(s, start, i, key);
            t[start + i := t[start + i] ^ key[i % 4]] == MaskedRange(s, start, i + 1, key)
  {}

  lemma MaskedSlices(s: seq<byte>, start: nat, count: nat, key: Key)
    requires start + count <= |s|
    ensures var t := MaskedRange(s, start, count, key);
            && t[..start] == s[..start] && t[start + count..] == s[start + count..]
            && t[start..start + count] == Xor(s[start..start + count], key)
  {
    var a, b := MaskedRange(s, start, count, key)[start..start + count], Xor(s[start..start + count], key);
    forall i | 0 <= i < count ensures a[i] == b[i] {
      assert s[start..start + count][i] == s[start + i];
    }
  }

  // ---------- the transmit buffer after a send ----------

  lemma PlainSend(tx: seq<byte>, header: seq<byte>, f: Frame)
    requires header == Head(f.fin, f.opcode, |f.payload|, false)
    ensures tx + header + f.payload == tx + Encode(f, Plain)
  {
    hide Head;
  }

  lemma MaskedTail(front: seq<byte>, data: seq<byte>, key: Key)
    ensures MaskedRange(front + data, |front|, |data|, key) == front + Xor(data, key)
  {
    var t := MaskedRange(front + data, |front|, |data|, key);
    var u := front + Xor(data, key);
    forall i | 0 <= i < |t| ensures t[i] == u[i] {
      if i >= |front| { assert (front + data)[i] == data[i - |front|]; }
    }
  }

  lemma MaskedSend(tx: seq<byte>, header: seq<byte>, f: Frame, key: Key)
    requires header == Head(f.fin, f.opcode, |f.payload|, true) + key
    ensures var t := tx + header + f.payload;
            MaskedRange(t, |t| - |f.payload|, |f.payload|, key) == tx + Encode(f, Masked(key))
  {
    hide Head, Xor, MaskedRange;
    MaskedTail(tx + header, f.payload, key);
    var h, x := Head(f.fin, f.opcode, |f.payload|, true), Xor(f.payload, key);
    assert tx + (h + key) + x == tx + (h + (key + x));
  }

  /** The test the dispatch loop makes, its sum taken in 64-bit arithmetic. */
  lemma NextByHeader(s: seq<byte>)
    requires NoWrap(s)
    ensures var h := ReadHeader(s);
            && (Next(s).Incomplete? <==> h.None? || |s| < (h.value.size + h.value.length) % TWO_TO_THE_64)
            && (Next(s).Whole? ==> Next(s).size == h.value.size + h.value.length && NoWrap(s[Next(s).size..]))
  {
    hide ReadHeader, Xor;
    if ReadHeader(s).Some? { SmallModulo(ReadHeader(s).value.size + ReadHeader(s).value.length, TWO_TO_THE_64); }
  }

  /** The application is called before the buffers are cut; that makes no difference to it. */
  lemma CallbackFirst(s: State, f: Frame, rx: seq<byte>, received: seq<byte>)
    requires IsData(f) && f.fin && received == s.received + f.payload
    ensures var t := s.(rx := rx, received := received, callbacks := s.callbacks + [received]);
            && AskAll(t, t.app(t.callbacks)) == Handle(s, f).(rx := rx, received := received)
            && Handle(s, f).received == []
  {
    hide AskAll;
    var t := s.(received := [], callbacks := s.callbacks + [received]);
    AskKeeps(t, t.app(t.callbacks), rx, received);
  }

  lemma SmallModulo(n: nat, m: nat)
    requires n < m
    ensures n % m == n
  {}

  class RealWebSocket {
    const useMask: bool
    const app: Application
    var rxbuf: seq<byte>
    var txbuf: seq<byte>
    var receivedData: seq<byte>
    var readyState: ReadyState
    var callbacks: seq<seq<byte>>
    ghost var sent: seq<byte>
    ghost var asked: seq<seq<byte>>

    ghost function View(): State
      reads this
    {
      State(useMask, app, readyState, rxbuf, receivedData, callbacks, txbuf, sent, asked)
    }

    constructor (useMask: bool, app: Application)
      ensures View() == Opened(useMask, app)
    {
      this.useMask, this.app := useMask, app;
      rxbuf, txbuf, receivedData, readyState := [], [], [], OPEN;
      callbacks, sent, asked := [], [], [];
    }

    /** Queues header and payload, then masks the payload inside the transmit buffer. */
    method SendData(opcode: byte, message: seq<byte>)
      requires opcode < 16 && |message| < TWO_TO_THE_64
      modifies this
      ensures View() == Session.Send(old(View()), opcode, message)
    {
      hide Head, Xor, Encode, MaskedRange;
      if readyState == CLOSING || readyState == CLOSED { return; }
      ghost var f := Frame(true, opcode, message);
      if IsDataCode(opcode) { asked := asked + [message]; }
      var header := BuildHeader(opcode, |message|);
      txbuf := txbuf + header;
      txbuf := txbuf + message;
      if useMask {
        MaskedSend(old(txbuf), header, f, MASKING_KEY);
        MaskTail(|message|);
      } else {
        PlainSend(old(txbuf), header, f);
      }
    }

    /** Masks the last bytes of the transmit buffer in place. */
    method MaskTail(count: nat)
      requires count <= |txbuf|
      modifies this
      ensures View() == old(View()).(tx := txbuf)
      ensures txbuf == MaskedRange(old(txbuf), |old(txbuf)| - count, count, MASKING_KEY)
    {
      var offset := |txbuf| - count;
      var i := 0;
      while i != count
        invariant 0 <= i <= count && |txbuf| == |old(txbuf)|
        invariant txbuf == MaskedRange(old(txbuf), offset, i, MASKING_KEY)
        invariant View() == old(View()).(tx := txbuf)
      {
        MaskOneMore(old(txbuf), offset, i, MASKING_KEY);
        txbuf := txbuf[offset + i := txbuf[offset + i] ^ MASKING_KEY[i % 4]];
        i := i + 1;
      }
    }

    /** The header of a final frame: opcode, length in its shortest form, key. */
    method BuildHeader(opcode: byte, size: nat) returns (header: seq<byte>)
      requires size < TWO_TO_THE_64
      ensures header == Head(true, opcode, size, useMask) + (if useMask then MASKING_KEY else [])
    {
      hide LowByte, Head;
      HeadForms(opcode, size, useMask);
      if size < 126 {
        header := [0x80 | opcode, LowByte(size) | FlagBit(useMask)];
      } else if size < 65536 {
        header := [0x80 | opcode, 126 | FlagBit(useMask), LowByte(size / 0x100), LowByte(size)];
      } else {
        header := [0x80 | opcode, 127 | FlagBit(useMask),
                   LowByte(size / 0x100_0000_0000_0000), LowByte(size / 0x1_0000_0000_0000),
                   LowByte(size / 0x100_0000_0000), LowByte(size / 0x1_0000_0000),
                   LowByte(size / 0x100_0000), LowByte(size / 0x1_0000), LowByte(size / 0x100), LowByte(size)];
      }
      if useMask {
        header := header + [MASKING_KEY[0], MASKING_KEY[1], MASKING_KEY[2], MASKING_KEY[3]];
      }
    }

    method Close()
      modifies this
      ensures View() == RequestClose(old(View()))
    {
      if readyState == CLOSING || readyState == CLOSED { return; }
      readyState := CLOSING;
      var closeFrame: seq<byte> := [0x88, 0x80, 0x00, 0x00, 0x00, 0x00];
      CloseFrameBytes(closeFrame);
      txbuf := txbuf + closeFrame;
    }

    /** The three requests an application can make. */
    method Perform(r: Request)
      modifies this
      ensures View() == Ask(old(View()), r)
    {
      hide Session.Send, RequestClose;
      match r {
        case SendMessage(m) => SendData(FrameOf(m).opcode, m.payload);
        case SendPing => SendData(PING, []);
        case CloseConnection => Close();
      }
    }

    /** The callback: the application gets the message and makes its requests at once. */
    method Deliver(message: seq<byte>)
      modifies this
      ensures var s := old(View()).(callbacks := old(callbacks) + [message]);
              View() == AskAll(s, s.app(s.callbacks))
      ensures rxbuf == old(rxbuf) && receivedData == old(receivedData)
    {
      hide Ask;
      callbacks := callbacks + [message];
      var requests := app(callbacks);
      ghost var start := View();
      AskKeeps(start, requests, rxbuf, receivedData);
      var i := 0;
      assert requests[0..] == requests;
      while i < |requests|
        invariant 0 <= i <= |requests|
        invariant AskAll(View(), requests[i..]) == AskAll(start, requests)
      {
        assert requests[i..][1..] == requests[i + 1..];
        Perform(requests[i]);
        i := i + 1;
      }
    }

    /** Takes every whole frame off the receive buffer, unmasking its payload in place. */
    method DispatchBinary()
      requires NoWrap(rxbuf)
      modifies this
      ensures View() == Drain(old(View()))
    {
      hide ReadHeader, Next, Handle;
      while true
        invariant Drain(View()) == Drain(old(View()))
        invariant NoWrap(rxbuf)
        decreases |rxbuf|
      {
        var h := PeekHeader();
        NextByHeader(rxbuf);
        if h.None? || |rxbuf| < (h.value.size + h.value.length) % TWO_TO_THE_64 {
          return;
        }
        DispatchOne(h.value);
      }
    }

    /** The header at the front of the receive buffer, if it is complete. */
    method PeekHeader() returns (r: Option<Header>)
      ensures r == ReadHeader(rxbuf)
    {
      hide BigEndian, ByteValue;
      if |rxbuf| < 2 { return None; }
      var fin := rxbuf[0] & 0x80 == 0x80;
      var opcode := rxbuf[0] & 0x0f;
      var masked := rxbuf[1] & 0x80 == 0x80;
      var code := rxbuf[1] & 0x7f;
      var size := 2 + (if code == 126 then 2 else 0) + (if code == 127 then 8 else 0) + (if masked then 4 else 0);
      if |rxbuf| < size { return None; }
      var length, i := PeekLength(code);
      var key: Key := [0, 0, 0, 0];
      if masked {
        key := [rxbuf[i], rxbuf[i + 1], rxbuf[i + 2], rxbuf[i + 3]];
        FourBytes(rxbuf, i);
      }
      r := Some(Header(fin, opcode, masked, size, length, key));
    }

    method PeekLength(code: byte) returns (length: nat, i: nat)
      requires |rxbuf| >= 2 && code == Code(rxbuf[1]) && |rxbuf| >= 2 + ExtraLength(code)
      ensures i == 2 + ExtraLength(code)
      ensures length == if code < 126 then ByteValue(code) else BigEndian(rxbuf[2..i])
    {
      hide BigEndian, ByteValue;
      if code < 126 {
        return ByteValue(code), 2;
      }
      CodeIsLong(code, rxbuf[1]);
      if code == 126 {
        ReadTwoBytes(rxbuf[2..4]);
        return ByteValue(rxbuf[2]) * 0x100 + ByteValue(rxbuf[3]), 4;
      }
      ReadEightBytes(rxbuf[2..10]);
      length := ByteValue(rxbuf[2]) * 0x100_0000_0000_0000 + ByteValue(rxbuf[3]) * 0x1_0000_0000_0000 +
                ByteValue(rxbuf[4]) * 0x100_0000_0000 + ByteValue(rxbuf[5]) * 0x1_0000_0000 +
                ByteValue(rxbuf[6]) * 0x100_0000 + ByteValue(rxbuf[7]) * 0x1_0000 +
                ByteValue(rxbuf[8]) * 0x100 + ByteValue(rxbuf[9]);
      i := 10;
    }

    /** Handles the whole frame at the front of the buffer and erases it. */
    method DispatchOne(h: Header)
      requires ReadHeader(rxbuf) == Some(h) && Next(rxbuf).Whole?
      modifies this
      ensures var n := Next(old(rxbuf));
              View() == Handle(old(View()), n.frame).(rx := old(rxbuf)[n.size..])
    {
      hide AskAll, Encode, ReadHeader, Xor;
      ghost var whole := Next(rxbuf);
      NextIsValid(rxbuf);
      var size := h.size + h.length;
      if h.opcode == TEXT_FRAME || h.opcode == BINARY_FRAME || h.opcode == CONTINUATION {
        Unmask(h);
        receivedData := receivedData + rxbuf[h.size..size];
        if h.fin {
          Deliver(receivedData);
          CallbackFirst(old(View()), whole.frame, rxbuf, receivedData);
          receivedData := [];
        }
      } else if h.opcode == PING {
        Unmask(h);
        var data := rxbuf[h.size..size];
        SendData(PONG, data);
      } else if h.opcode == PONG {
      } else {
        Close();
      }
      rxbuf := rxbuf[size..];
    }

    method Unmask(h: Header)
      requires h.size + h.length <= |rxbuf|
      modifies this
      ensures View() == old(View()).(rx := rxbuf)
      ensures |rxbuf| == |old(rxbuf)|
      ensures rxbuf[h.size + h.length..] == old(rxbuf)[h.size + h.length..]
      ensures var raw := old(rxbuf)[h.size..h.size + h.length];
              rxbuf[h.size..h.size + h.length] == if h.masked then Xor(raw, h.key) else raw
    {
      if h.masked {
        var i := 0;
        while i != h.length
          invariant 0 <= i <= h.length && |rxbuf| == |old(rxbuf)|
          invariant rxbuf == MaskedRange(old(rxbuf), h.size, i, h.key)
          invariant View() == old(View()).(rx := rxbuf)
        {
          MaskOneMore(old(rxbuf), h.size, i, h.key);
          rxbuf := rxbuf[h.size + i := rxbuf[h.size + i] ^ h.key[i % 4]];
          i := i + 1;
        }
        MaskedSlices(old(rxbuf), h.size, h.length, h.key);
      }
    }

    /** One poll of the socket, whose calls return the given results in order. */
    method PollOnce(recvs: seq<RecvResult>, sends: seq<SendResult>)
      modifies this
      ensures View() == Poll(old(View()), recvs, sends)
    {
      if readyState == CLOSED { return; }
      ReceiveLoop(recvs);
      SendLoop(sends);
      if |txbuf| == 0 && readyState == CLOSING { readyState := CLOSED; }
    }

    method ReceiveLoop(recvs: seq<RecvResult>)
      modifies this
      ensures View() == ReceiveAll(old(View()), recvs)
    {
      var i := 0;
      while i < |recvs| && recvs[i].Received?
        invariant 0 <= i <= |recvs|
        invariant ReceiveAll(View(), recvs[i..]) == ReceiveAll(old(View()), recvs)
      {
        assert recvs[i..][1..] == recvs[i + 1..];
        rxbuf := rxbuf + recvs[i].bytes;
        i := i + 1;
      }
      if i < |recvs| && recvs[i].RecvEnded? { readyState := CLOSED; }
    }

    method SendLoop(sends: seq<SendResult>)
      modifies this
      ensures View() == TransmitAll(old(View()), sends)
    {
      var i := 0;
      while |txbuf| != 0 && i < |sends| && sends[i].Accepted?
        invariant 0 <= i <= |sends|
        invariant TransmitAll(View(), sends[i..]) == TransmitAll(old(View()), sends)
        decreases |sends| - i
      {
        assert sends[i..][1..] == sends[i + 1..];
        var k := sends[i].Count(|txbuf|);
        sent := sent + txbuf[..k];
        txbuf := txbuf[k..];
        i := i + 1;
      }
      if |txbuf| != 0 && i < |sends| && sends[i].SendEnded? { readyState := CLOSED; }
    }
  }

  lemma CloseFrameBytes(bytes: seq<byte>)
    requires bytes == [0x88, 0x80, 0x00, 0x00, 0x00, 0x00]
    ensures Encode(CLOSE_FRAME, Masked(ZERO_KEY)) == bytes
  {
    assert FirstByte(true, CLOSE) == 0x88;
    assert LengthCode(0) == 0;
    assert LengthBytes(0) == [];
    assert Body([], Masked(ZERO_KEY)) == ZERO_KEY;
  }

  lemma FeedKeepsNoWrap(s: State, piece: seq<byte>, rest: seq<byte>)
    requires NoWrap(s.rx + (piece + rest))
    ensures NoWrap(s.rx + piece) && NoWrap(Feed(s, piece).rx + rest)
  {
    hide NoWrap, Drain, Decode, Leftover, Handle;
    assert s.rx + (piece + rest) == s.rx + piece + rest;
    NoWrapSplits(s.rx + piece, rest);
    DrainHandlesFrames(s.(rx := s.rx + piece));
  }

  /** A connection fed in pieces, with a dispatch after each one. */
  method FeedPieces(ws: RealWebSocket, pieces: seq<seq<byte>>)
    requires pieces != [] && NoWrap(ws.rxbuf + Concat(pieces))
    modifies ws
    ensures ws.View() == Feed(old(ws.View()), Concat(pieces))
  {
    hide NoWrap, Drain;
    var i := 0;
    ghost var start := ws.View();
    assert pieces[0..] == pieces;
    while i < |pieces|
      invariant 0 <= i <= |pieces|
      invariant FeedAll(ws.View(), pieces[i..]) == FeedAll(start, pieces)
      invariant NoWrap(ws.rxbuf + Concat(pieces[i..]))
    {
      assert pieces[i..][0] == pieces[i] && pieces[i..][1..] == pieces[i + 1..];
      FeedKeepsNoWrap(ws.View(), pieces[i], Concat(pieces[i + 1..]));
      ws.rxbuf := ws.rxbuf + pieces[i];
      ws.DispatchBinary();
      i := i + 1;
    }
    ChunkingDoesNotMatter(start, pieces);
  }
}
