/** What a WebSocket endpoint does with the frames it receives and the requests it is given,
    as functions on values.  `sent` records the bytes already handed to the socket, `asked` the
    messages accepted for sending; the application may make requests from its callback. */
module Session {
  import opened Frames

  datatype ReadyState = CLOSING | CLOSED | CONNECTING | OPEN

  /** The fixed masking key of `sendData` and the all-zero one of the close frame. */
  const MASKING_KEY: Key := [0x12, 0x34, 0x56, 0x78]
  const ZERO_KEY: Key := [0, 0, 0, 0]
  const CLOSE_FRAME := Frame(true, CLOSE, [])

  type Payload = p: seq<byte> | |p| < TWO_TO_THE_64

  datatype Message = Message(text: bool, payload: Payload)

  datatype Request = SendMessage(message: Message) | SendPing | CloseConnection

  /** What the application asks for when a message is delivered, knowing all delivered so far. */
  type Application = seq<seq<byte>> -> seq<Request>

  datatype State = State(
    useMask: bool,
    app: Application,
    ready: ReadyState,
    rx: seq<byte>,                 // received, not yet dispatched
    received: seq<byte>,           // payload of the fragments seen so far
    callbacks: seq<seq<byte>>,     // messages delivered to the application
    tx: seq<byte>,                 // queued, not yet sent
    sent: seq<byte>,               // already sent
    asked: seq<seq<byte>>)         // messages accepted for sending
  {
    /** The application only listens. */
    ghost predicate Silent() { forall seen :: app(seen) == [] }

    function Mask(): Mask { if useMask then Masked(MASKING_KEY) else Plain }

    predicate Ended() { ready == CLOSING || ready == CLOSED }

    /** Everything this endpoint ever put on the wire or queued for it. */
    function Out(): seq<byte> { sent + tx }
  }

  // ---------- one request, one received frame ----------

  function Send(s: State, opcode: byte, payload: seq<byte>): State {
    if s.Ended() then s
    else
      s.(tx := s.tx + Encode(Frame(true, opcode, payload), s.Mask()),
         asked := if IsDataCode(opcode) then s.asked + [payload] else s.asked)
  }

  function RequestClose(s: State): State {
    if s.Ended() then s else s.(ready := CLOSING, tx := s.tx + Encode(CLOSE_FRAME, Masked(ZERO_KEY)))
  }

  function FrameOf(m: Message): Frame { Frame(true, if m.text then TEXT_FRAME else BINARY_FRAME, m.payload) }

  function Ask(s: State, r: Request): State {
    match r
    case SendMessage(m) => Send(s, FrameOf(m).opcode, m.payload)
    case SendPing => Send(s, PING, [])
    case CloseConnection => RequestClose(s)
  }

  function AskAll(s: State, rs: seq<Request>): State
    decreases |rs|
  {
    if |rs| == 0 then s else AskAll(Ask(s, rs[0]), rs[1..])
  }

  predicate IsDataCode(opcode: byte) { opcode == TEXT_FRAME || opcode == BINARY_FRAME || opcode == CONTINUATION }

  predicate IsData(f: Frame) { IsDataCode(f.opcode) }

  predicate IsPing(f: Frame) { f.opcode == PING }

  predicate IsPong(f: Frame) { f.opcode == PONG }

  function Handle(s: State, f: Frame): State {
    if IsData(f) then
      if f.fin then
        var t := s.(received := [], callbacks := s.callbacks + [s.received + f.payload]);
        AskAll(t, t.app(t.callbacks))
      else s.(received := s.received + f.payload)
    else if IsPing(f) then Send(s, PONG, f.payload)
    else if IsPong(f) then s
    else RequestClose(s)
  }

  function HandleAll(s: State, fs: seq<Frame>): State
    decreases |fs|
  {
    if fs == [] then s else HandleAll(Handle(s, fs[0]), fs[1..])
  }

  // ---------- dispatching a buffer ----------

  /** The dispatch loop: take whole frames off the front of the buffer until none is left. */
  function Drain(s: State): State
    decreases |s.rx|
  {
    match Next(s.rx)
    case Incomplete => s
    case Whole(f, n) => Drain(Handle(s, f).(rx := s.rx[n..]))
  }

  function Feed(s: State, bytes: seq<byte>): State { Drain(s.(rx := s.rx + bytes)) }

  function FeedAll(s: State, chunks: seq<seq<byte>>): State
    decreases |chunks|
  {
    if chunks == [] then s else FeedAll(Feed(s, chunks[0]), chunks[1..])
  }

  function Concat(chunks: seq<seq<byte>>): seq<byte> {
    if chunks == [] then [] else chunks[0] + Concat(chunks[1..])
  }

  /** Requests touch nothing but the ready state and what is queued. */
  lemma {:induction false} AskKeeps(s: State, rs: seq<Request>, rx: seq<byte>, received: seq<byte>)
    ensures var t := AskAll(s, rs);
            && t == s.(ready := t.ready, tx := t.tx, asked := t.asked)
            && AskAll(s.(rx := rx, received := received), rs) == t.(rx := rx, received := received)
    decreases |rs|
  {
    hide Encode;
    if rs != [] { AskKeeps(Ask(s, rs[0]), rs[1..], rx, received); }
  }

  lemma HandleIgnoresBuffer(s: State, f: Frame, rx: seq<byte>)
    ensures Handle(s.(rx := rx), f) == Handle(s, f).(rx := rx) && Handle(s, f).rx == s.rx
  {
    hide Encode, AskAll;
    var t := s.(received := [], callbacks := s.callbacks + [s.received + f.payload]);
    AskKeeps(t, t.app(t.callbacks), rx, []);
  }

  lemma {:induction false} HandleAllIgnoresBuffer(s: State, fs: seq<Frame>, rx: seq<byte>)
    ensures HandleAll(s.(rx := rx), fs) == HandleAll(s, fs).(rx := rx)
    ensures HandleAll(s, fs).rx == s.rx
    decreases |fs|
  {
    hide Handle;
    if fs != [] {
      HandleIgnoresBuffer(s, fs[0], rx);
      HandleIgnoresBuffer(s, fs[0], s.rx);
      HandleAllIgnoresBuffer(Handle(s, fs[0]), fs[1..], rx);
    }
  }

  /** The loop handles exactly the whole frames of the buffer, in order, and keeps the rest. */
  lemma {:induction false} DrainHandlesFrames(s: State)
    ensures Drain(s) == HandleAll(s, Decode(s.rx)).(rx := Leftover(s.rx))
    decreases |s.rx|
  {
    hide Handle, Next;
    match Next(s.rx)
    case Incomplete =>
    case Whole(f, n) =>
      var t := Handle(s, f).(rx := s.rx[n..]);
      DrainHandlesFrames(t);
      HandleAllIgnoresBuffer(Handle(s, f), Decode(t.rx), t.rx);
  }

  lemma {:induction false} HandleAllAppend(s: State, fs: seq<Frame>, gs: seq<Frame>)
    ensures HandleAll(s, fs + gs) == HandleAll(HandleAll(s, fs), gs)
    decreases |fs|
  {
    hide Handle;
    if fs == [] {
      assert fs + gs == gs;
    } else {
      HandleAllAppend(Handle(s, fs[0]), fs[1..], gs);
      assert (fs + gs)[1..] == fs[1..] + gs;
    }
  }

  /** Dispatching after a first instalment and again after a second is dispatching once. */
  lemma FeedTwice(s: State, a: seq<byte>, b: seq<byte>)
    ensures Feed(Feed(s, a), b) == Feed(s, a + b)
  {
    hide Handle, Drain, Next, Decode, Leftover;
    var s1 := s.(rx := s.rx + a);
    var s2 := Feed(s, a);
    var s3 := s2.(rx := s2.rx + b);
    DrainHandlesFrames(s1);
    DrainHandlesFrames(s3);
    DrainHandlesFrames(s.(rx := s.rx + (a + b)));
    assert s.rx + (a + b) == s1.rx + b;
    DecodeAppend(s1.rx, b);
    HandleAllAppend(s, Decode(s1.rx), Decode(s3.rx));
    HandleAllIgnoresBuffer(s, Decode(s1.rx), s1.rx);
    HandleAllIgnoresBuffer(s, Decode(s1.rx) + Decode(s3.rx), s.rx + (a + b));
    HandleAllIgnoresBuffer(HandleAll(s, Decode(s1.rx)), Decode(s3.rx), s3.rx);
  }

  /** Chunking does not matter: however a byte stream is cut into pieces, with a dispatch after
      each piece, the callbacks, the replies queued, the fragment under assembly, the ready
      state and the undispatched bytes are those of feeding the whole stream at once. */
  lemma {:induction false} ChunkingDoesNotMatter(s: State, chunks: seq<seq<byte>>)
    requires chunks != []
    ensures FeedAll(s, chunks) == Feed(s, Concat(chunks))
    decreases |chunks|
  {
    hide Feed;
    if |chunks| == 1 {
      assert Concat(chunks) == chunks[0] + [] == chunks[0];
      assert FeedAll(s, chunks) == FeedAll(Feed(s, chunks[0]), []);
    } else {
      ChunkingDoesNotMatter(Feed(s, chunks[0]), chunks[1..]);
      FeedTwice(s, chunks[0], Concat(chunks[1..]));
    }
  }

  lemma SplittingsAgree(s: State, chunks: seq<seq<byte>>, others: seq<seq<byte>>)
    requires chunks != [] && others != [] && Concat(chunks) == Concat(others)
    ensures FeedAll(s, chunks) == FeedAll(s, others)
  {
    ChunkingDoesNotMatter(s, chunks);
    ChunkingDoesNotMatter(s, others);
  }

  // ---------- what a list of frames amounts to ----------

  /** The messages completed by a list of frames, given the fragments seen before. */
  function Messages(partial: seq<byte>, fs: seq<Frame>): seq<seq<byte>>
    decreases |fs|
  {
    if fs == [] then []
    else if !IsData(fs[0]) then Messages(partial, fs[1..])
    else if fs[0].fin then [partial + fs[0].payload] + Messages([], fs[1..])
    else Messages(partial + fs[0].payload, fs[1..])
  }

  /** The fragments still waiting for their final frame. */
  function Pending(partial: seq<byte>, fs: seq<Frame>): seq<byte>
    decreases |fs|
  {
    if fs == [] then partial
    else if !IsData(fs[0]) then Pending(partial, fs[1..])
    else if fs[0].fin then Pending([], fs[1..])
    else Pending(partial + fs[0].payload, fs[1..])
  }

  lemma {:induction false} MessagesAppend(partial: seq<byte>, fs: seq<Frame>, gs: seq<Frame>)
    ensures Messages(partial, fs + gs) == Messages(partial, fs) + Messages(Pending(partial, fs), gs)
    ensures Pending(partial, fs + gs) == Pending(Pending(partial, fs), gs)
    decreases |fs|
  {
    if fs == [] {
      assert fs + gs == gs;
    } else {
      assert (fs + gs)[1..] == fs[1..] + gs;
      MessagesAppend(partial, fs[1..], gs);
      MessagesAppend([], fs[1..], gs);
      MessagesAppend(partial + fs[0].payload, fs[1..], gs);
    }
  }

  predicate Known(f: Frame) { IsData(f) || IsPing(f) || IsPong(f) }

  predicate AllKnown(fs: seq<Frame>) { forall i :: 0 <= i < |fs| ==> Known(fs[i]) }

  /** What an open endpoint queues in reply: a pong for each ping up to the first frame that is
      none of data, ping, pong; that one is answered by the close frame and ends the replies. */
  function Replies(fs: seq<Frame>, m: Mask): seq<Outgoing> {
    if fs == [] then []
    else if IsPing(fs[0]) then [Outgoing(Frame(true, PONG, fs[0].payload), m)] + Replies(fs[1..], m)
    else if Known(fs[0]) then Replies(fs[1..], m)
    else [Outgoing(CLOSE_FRAME, Masked(ZERO_KEY))]
  }

  /** Frames in: every final data frame delivers the fragments since the previous one. */
  lemma {:induction false} HandleAllDelivers(s: State, fs: seq<Frame>)
    ensures HandleAll(s, fs).callbacks == s.callbacks + Messages(s.received, fs)
    ensures HandleAll(s, fs).received == Pending(s.received, fs)
    decreases |fs|
  {
    hide Encode, AskAll;
    if fs != [] {
      var t := s.(received := [], callbacks := s.callbacks + [s.received + fs[0].payload]);
      AskKeeps(t, t.app(t.callbacks), t.rx, []);
      HandleAllDelivers(Handle(s, fs[0]), fs[1..]);
    }
  }

  /** Frames out: the replies of an endpoint that is open, and silence of one that is not. */
  lemma {:induction false} HandleAllReplies(s: State, fs: seq<Frame>)
    requires s.Silent()
    ensures var r := HandleAll(s, fs);
            && r.tx == s.tx + (if s.Ended() then [] else EncodeAll(Replies(fs, s.Mask())))
            && r.ready == (if s.Ended() || AllKnown(fs) then s.ready else CLOSING)
            && r.sent == s.sent && r.useMask == s.useMask && r.app == s.app
    decreases |fs|
  {
    hide Encode, Messages, Pending;
    if fs != [] {
      HandleAllReplies(Handle(s, fs[0]), fs[1..]);
      AllKnownCons(fs);
      EncodeReplies(fs, s.Mask());
    }
  }

  lemma AllKnownCons(fs: seq<Frame>)
    requires fs != []
    ensures AllKnown(fs) <==> Known(fs[0]) && AllKnown(fs[1..])
  {
    assert fs == [fs[0]] + fs[1..];
  }

  lemma EncodeReplies(fs: seq<Frame>, m: Mask)
    requires fs != []
    ensures EncodeAll(Replies(fs, m)) ==
            if IsPing(fs[0]) then Encode(Frame(true, PONG, fs[0].payload), m) + EncodeAll(Replies(fs[1..], m))
            else if Known(fs[0]) then EncodeAll(Replies(fs[1..], m))
            else Encode(CLOSE_FRAME, Masked(ZERO_KEY))
  {
    hide Encode;
    var os := Replies(fs, m);
    if IsPing(fs[0]) {
      assert os[1..] == Replies(fs[1..], m);
    } else if !Known(fs[0]) {
      assert os[1..] == [];
      assert EncodeAll([]) == [];
    }
  }

  /** Receiving the bytes of any list of frames: the complete observable effect. */
  lemma FeedFrames(s: State, os: seq<Outgoing>)
    requires s.rx == [] && forall i :: 0 <= i < |os| ==> ValidFrame(os[i].frame)
    ensures var r := Feed(s, EncodeAll(os));
            && r.rx == []
            && r.callbacks == s.callbacks + Messages(s.received, FramesOf(os))
            && r.received == Pending(s.received, FramesOf(os))
            && (s.Silent() ==>
                  && r.tx == s.tx + (if s.Ended() then [] else EncodeAll(Replies(FramesOf(os), s.Mask())))
                  && r.ready == if s.Ended() || AllKnown(FramesOf(os)) then s.ready else CLOSING)
  {
    hide Encode, Next, Handle;
    var t := s.(rx := s.rx + EncodeAll(os));
    assert t.rx == EncodeAll(os);
    DecodeEncodeAll(os);
    DrainHandlesFrames(t);
    HandleAllDelivers(t, FramesOf(os));
    if t.Silent() { HandleAllReplies(t, FramesOf(os)); }
  }

  // ---------- round trip of whole messages ----------

  function SendAll(s: State, ms: seq<Message>): State
    decreases |ms|
  {
    if ms == [] then s else SendAll(Send(s, FrameOf(ms[0]).opcode, ms[0].payload), ms[1..])
  }

  function Payloads(ms: seq<Message>): seq<seq<byte>> {
    if ms == [] then [] else [ms[0].payload] + Payloads(ms[1..])
  }

  function Wire(ms: seq<Message>, m: Mask): (os: seq<Outgoing>)
    ensures |os| == |ms| && forall i :: 0 <= i < |os| ==> os[i].frame == FrameOf(ms[i])
  {
    if ms == [] then [] else [Outgoing(FrameOf(ms[0]), m)] + Wire(ms[1..], m)
  }

  lemma {:induction false} SendAllQueues(s: State, ms: seq<Message>)
    requires !s.Ended()
    ensures SendAll(s, ms) == s.(tx := s.tx + EncodeAll(Wire(ms, s.Mask())), asked := s.asked + Payloads(ms))
    decreases |ms|
  {
    hide Encode;
    if ms != [] {
      SendAllQueues(Send(s, FrameOf(ms[0]).opcode, ms[0].payload), ms[1..]);
      assert Wire(ms, s.Mask())[1..] == Wire(ms[1..], s.Mask());
    }
  }

  lemma {:induction false} WholeMessages(fs: seq<Frame>, ms: seq<Message>)
    requires |fs| == |ms| && forall i :: 0 <= i < |ms| ==> fs[i] == FrameOf(ms[i])
    ensures Messages([], fs) == Payloads(ms) && Pending([], fs) == []
    decreases |fs|
  {
    if fs != [] {
      assert [] + ms[0].payload == ms[0].payload;
      WholeMessages(fs[1..], ms[1..]);
    }
  }

  /** Message round trip: what one open endpoint sends, masked or not, text or binary, in any
      number of messages of any length, the other end delivers as exactly those payloads in
      order, with nothing left undispatched, whatever its application asks for meanwhile. */
  lemma MessagesArrive(sender: State, receiver: State, ms: seq<Message>)
    requires !sender.Ended() && sender.tx == []
    requires receiver.rx == [] && receiver.received == []
    ensures var r := Feed(receiver, SendAll(sender, ms).tx);
            && r.callbacks == receiver.callbacks + Payloads(ms)
            && r.rx == [] && r.received == []
            && (receiver.Silent() ==> r.tx == receiver.tx && r.ready == receiver.ready)
  {
    hide Encode, Feed;
    var os := Wire(ms, sender.Mask());
    SendAllQueues(sender, ms);
    assert sender.tx + EncodeAll(os) == EncodeAll(os);
    forall i | 0 <= i < |os| ensures ValidFrame(os[i].frame) {
      assert os[i].frame == FrameOf(ms[i]);
    }
    FeedFrames(receiver, os);
    WholeMessages(FramesOf(os), ms);
    NoReplies(FramesOf(os), receiver.Mask());
  }

  lemma {:induction false} NoReplies(fs: seq<Frame>, m: Mask)
    requires forall i :: 0 <= i < |fs| ==> IsData(fs[i]) || IsPong(fs[i])
    ensures Replies(fs, m) == [] && AllKnown(fs)
    decreases |fs|
  {
    if fs != [] { NoReplies(fs[1..], m); }
  }

  // ---------- fragmented messages (sections 5.4, 5.5.2, 5.5.3) ----------

  /** Data frames of which only the last one is final, with pings and pongs in between. */
  predicate IsFragmented(fs: seq<Frame>) {
    && fs != []
    && IsData(fs[|fs| - 1]) && fs[|fs| - 1].fin
    && forall i :: 0 <= i < |fs| - 1 ==> (IsData(fs[i]) && !fs[i].fin) || IsPing(fs[i]) || IsPong(fs[i])
  }

  /** The payloads of the data frames, joined. */
  function DataOf(fs: seq<Frame>): seq<byte> {
    if fs == [] then [] else (if IsData(fs[0]) then fs[0].payload else []) + DataOf(fs[1..])
  }

  function PingPayloads(fs: seq<Frame>): seq<seq<byte>> {
    if fs == [] then [] else (if IsPing(fs[0]) then [fs[0].payload] else []) + PingPayloads(fs[1..])
  }

  function Pongs(payloads: seq<seq<byte>>, m: Mask): seq<Outgoing> {
    seq(|payloads|, i requires 0 <= i < |payloads| => Outgoing(Frame(true, PONG, payloads[i]), m))
  }

  lemma {:induction false} FragmentsJoin(partial: seq<byte>, fs: seq<Frame>)
    requires IsFragmented(fs)
    ensures Messages(partial, fs) == [partial + DataOf(fs)] && Pending(partial, fs) == []
    decreases |fs|
  {
    if |fs| == 1 {
      assert DataOf(fs[1..]) == [];
      assert DataOf(fs) == fs[0].payload;
      assert Messages([], fs[1..]) == [];
    } else if IsData(fs[0]) {
      FragmentsJoin(partial + fs[0].payload, fs[1..]);
      assert partial + fs[0].payload + DataOf(fs[1..]) == partial + DataOf(fs);
    } else {
      FragmentsJoin(partial, fs[1..]);
      assert DataOf(fs) == DataOf(fs[1..]);
    }
  }

  lemma PongsCons(first: seq<byte>, rest: seq<seq<byte>>, m: Mask)
    ensures Pongs([first] + rest, m) == [Outgoing(Frame(true, PONG, first), m)] + Pongs(rest, m)
  {}

  lemma {:induction false} PingsAnswered(fs: seq<Frame>, m: Mask)
    requires AllKnown(fs)
    ensures Replies(fs, m) == Pongs(PingPayloads(fs), m)
    decreases |fs|
  {
    if fs != [] {
      PingsAnswered(fs[1..], m);
      if IsPing(fs[0]) {
        PongsCons(fs[0].payload, PingPayloads(fs[1..]), m);
      } else {
        assert PingPayloads(fs) == PingPayloads(fs[1..]);
      }
    }
  }

  /** Fragment reassembly: a message cut into any number of fragments, with any pings and pongs
      in between and its bytes arriving in any pieces, gives exactly one callback with the
      joined payload, and, if the application only listens, each ping gives one pong with its
      payload, in order, and nothing else is queued. */
  lemma FragmentsArrive(s: State, os: seq<Outgoing>, chunks: seq<seq<byte>>)
    requires s.rx == [] && s.received == [] && !s.Ended()
    requires forall i :: 0 <= i < |os| ==> ValidFrame(os[i].frame)
    requires IsFragmented(FramesOf(os))
    requires chunks != [] && Concat(chunks) == EncodeAll(os)
    ensures var r := FeedAll(s, chunks);
            && r.callbacks == s.callbacks + [DataOf(FramesOf(os))]
            && r.received == [] && r.rx == []
            && (s.Silent() ==>
                  r.tx == s.tx + EncodeAll(Pongs(PingPayloads(FramesOf(os)), s.Mask())) && r.ready == s.ready)
  {
    hide Encode, Feed;
    var fs := FramesOf(os);
    ChunkingDoesNotMatter(s, chunks);
    FeedFrames(s, os);
    FragmentsJoin([], fs);
    assert [] + DataOf(fs) == DataOf(fs);
    PingsAnswered(fs, s.Mask());
  }
}
