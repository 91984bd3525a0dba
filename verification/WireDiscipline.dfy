/** What an endpoint ever puts on the wire, over every run of application calls, dispatches and
    polls: whole frames only, and at most one close frame, which is the last (RFC 6455
    section 5.5.1). */
module WireDiscipline {
  import opened Frames
  import opened Session

  // ---------- the socket, as the results its calls return ----------

  datatype RecvResult = Received(bytes: seq<byte>) | RecvWouldBlock | RecvEnded

  datatype SendResult = Accepted(more: nat) | SendWouldBlock | SendEnded
  {
    /** A successful call takes at least one byte and at most the buffer it was given. */
    function Count(size: nat): (k: nat)
      requires Accepted? && size > 0
      ensures 0 < k <= size
    {
      if more < size then more + 1 else size
    }
  }

  function ReceiveAll(s: State, rs: seq<RecvResult>): State
    decreases |rs|
  {
    if rs == [] then s
    else match rs[0]
      case RecvWouldBlock => s
      case RecvEnded => s.(ready := CLOSED)
      case Received(bytes) => ReceiveAll(s.(rx := s.rx + bytes), rs[1..])
  }

  function TransmitAll(s: State, rs: seq<SendResult>): State
    decreases |rs|
  {
    if s.tx == [] || rs == [] then s
    else match rs[0]
      case SendWouldBlock => s
      case SendEnded => s.(ready := CLOSED)
      case Accepted(_) =>
        var k := rs[0].Count(|s.tx|);
        TransmitAll(s.(sent := s.sent + s.tx[..k], tx := s.tx[k..]), rs[1..])
  }

  /** One poll; a list of results that runs out counts as a call that would block. */
  function Poll(s: State, recvs: seq<RecvResult>, sends: seq<SendResult>): State {
    if s.ready == CLOSED then s
    else
      var t := TransmitAll(ReceiveAll(s, recvs), sends);
      if t.tx == [] && t.ready == CLOSING then t.(ready := CLOSED) else t
  }

  // ---------- what a poll moves ----------

  /** The bytes a list of receive results brings in. */
  function BytesOf(rs: seq<RecvResult>): seq<byte> {
    if rs == [] || !rs[0].Received? then [] else rs[0].bytes + BytesOf(rs[1..])
  }

  /** How the receiving ends: at the first result that is not bytes. */
  predicate ReceivesEnd(rs: seq<RecvResult>) {
    rs != [] && if rs[0].Received? then ReceivesEnd(rs[1..]) else rs[0].RecvEnded?
  }

  lemma {:induction false} ReceiveMoves(s: State, rs: seq<RecvResult>)
    ensures ReceiveAll(s, rs) == s.(rx := s.rx + BytesOf(rs), ready := if ReceivesEnd(rs) then CLOSED else s.ready)
    decreases |rs|
  {
    if rs != [] && rs[0].Received? {
      ReceiveMoves(s.(rx := s.rx + rs[0].bytes), rs[1..]);
      assert s.rx + rs[0].bytes + BytesOf(rs[1..]) == s.rx + BytesOf(rs);
    }
  }

  /** How many bytes the socket is ready to take before it blocks or ends. */
  function Offered(rs: seq<SendResult>): nat {
    if rs == [] || !rs[0].Accepted? then 0 else rs[0].more + 1 + Offered(rs[1..])
  }

  /** Whether the first result that is not an acceptance is the end of the connection. */
  predicate SendsEnd(rs: seq<SendResult>) {
    rs != [] && if rs[0].Accepted? then SendsEnd(rs[1..]) else rs[0].SendEnded?
  }

  function Least(a: nat, b: nat): nat { if a <= b then a else b }

  lemma TwoSlices(sent: seq<byte>, tx: seq<byte>, k: nat, m: nat)
    requires k + m <= |tx|
    ensures sent + tx[..k] + tx[k..][..m] == sent + tx[..k + m] && tx[k..][m..] == tx[k + m..]
  {}

  /** Sending moves as many bytes as the socket takes, in order, from the queue to what is sent, and
      meets the end of the connection only with bytes still to send. */
  lemma {:induction false} TransmitMoves(s: State, rs: seq<SendResult>)
    ensures var n := Least(Offered(rs), |s.tx|);
            TransmitAll(s, rs) ==
            s.(sent := s.sent + s.tx[..n], tx := s.tx[n..],
               ready := if Offered(rs) < |s.tx| && SendsEnd(rs) then CLOSED else s.ready)
    decreases |rs|
  {
    if s.tx != [] && rs != [] && rs[0].Accepted? {
      var k := rs[0].Count(|s.tx|);
      var t := s.(sent := s.sent + s.tx[..k], tx := s.tx[k..]);
      TransmitMoves(t, rs[1..]);
      var m := Least(Offered(rs[1..]), |t.tx|);
      assert k == Least(rs[0].more + 1, |s.tx|) && k + m == Least(Offered(rs), |s.tx|);
      TwoSlices(s.sent, s.tx, k, m);
    } else {
      assert s.sent + [] == s.sent;
    }
  }

  /** One poll, in full: what is received, what is sent, and when the connection is closed after it. */
  lemma PollMoves(s: State, recvs: seq<RecvResult>, sends: seq<SendResult>)
    requires s.ready != CLOSED
    ensures var n := Least(Offered(sends), |s.tx|);
            var t := Poll(s, recvs, sends);
            && t.rx == s.rx + BytesOf(recvs) && t.sent == s.sent + s.tx[..n] && t.tx == s.tx[n..]
            && t.callbacks == s.callbacks && t.received == s.received && t.asked == s.asked
            && (t.ready == CLOSED <==> ReceivesEnd(recvs) || (n < |s.tx| && SendsEnd(sends)) || (n == |s.tx| && s.ready == CLOSING))
            && (t.ready != CLOSED ==> t.ready == s.ready)
  {
    hide ReceiveAll, TransmitAll, BytesOf, Offered, ReceivesEnd, SendsEnd;
    ReceiveMoves(s, recvs);
    TransmitMoves(ReceiveAll(s, recvs), sends);
  }

  lemma {:induction false} OfferedAtLeast(rs: seq<SendResult>)
    requires forall i :: 0 <= i < |rs| ==> rs[i].Accepted?
    ensures Offered(rs) >= |rs| && !SendsEnd(rs)
    decreases |rs|
  {
    if rs != [] { OfferedAtLeast(rs[1..]); }
  }

  /** Progress: as many accepted sends as there are bytes empty the queue, and finish a close. */
  lemma PollEmpties(s: State, recvs: seq<RecvResult>, sends: seq<SendResult>)
    requires s.ready != CLOSED && !ReceivesEnd(recvs)
    requires |sends| >= |s.tx| && forall i :: 0 <= i < |sends| ==> sends[i].Accepted?
    ensures var t := Poll(s, recvs, sends);
            t.tx == [] && t.sent == s.Out() && t.ready == if s.ready == CLOSING then CLOSED else s.ready
  {
    hide Poll, Offered, SendsEnd, ReceivesEnd, BytesOf;
    OfferedAtLeast(sends);
    PollMoves(s, recvs, sends);
    assert s.tx[..|s.tx|] == s.tx && s.tx[|s.tx|..] == [];
  }

  // ---------- runs ----------

  datatype Op =
    | Requested(request: Request)
    | Dispatch
    | PollSocket(recvs: seq<RecvResult>, sends: seq<SendResult>)

  function Step(s: State, op: Op): State {
    match op
    case Requested(r) => Ask(s, r)
    case Dispatch => Drain(s)
    case PollSocket(recvs, sends) => Poll(s, recvs, sends)
  }

  function Run(s: State, ops: seq<Op>): State
    decreases |ops|
  {
    if |ops| == 0 then s else Run(Step(s, ops[0]), ops[1..])
  }

  function Opened(useMask: bool, app: Application): State { State(useMask, app, OPEN, [], [], [], [], [], []) }

  // ---------- the discipline ----------

  predicate NoClose(fs: seq<Frame>) { forall i :: 0 <= i < |fs| ==> fs[i].opcode != CLOSE }

  predicate CloseOnlyLast(fs: seq<Frame>) { forall i :: 0 <= i < |fs| - 1 ==> fs[i].opcode != CLOSE }

  predicate EndsWithClose(fs: seq<Frame>) { fs != [] && fs[|fs| - 1].opcode == CLOSE }

  ghost predicate Disciplined(s: State) {
    var fs := Decode(s.Out());
    && Leftover(s.Out()) == []
    && CloseOnlyLast(fs)
    && (!s.Ended() ==> NoClose(fs))
    && (s.ready == CLOSING ==> EndsWithClose(fs))
    && Messages([], fs) == s.asked && Pending([], fs) == []
  }

  /** `t` continues `s`: it queued only after what `s` had queued, and nothing once ended. */
  ghost predicate Continues(s: State, t: State) {
    && s.Out() <= t.Out()
    && s.sent <= t.sent
    && s.asked <= t.asked
    && (s.Ended() ==> t.Ended() && t.Out() == s.Out())
    && t.useMask == s.useMask
  }

  lemma {:induction false} BigEndianBound(s: seq<byte>)
    ensures BigEndian(s) < Pow256(|s|)
  {
    if s != [] { BigEndianBound(s[..|s| - 1]); }
  }

  lemma NextIsValid(s: seq<byte>)
    requires Next(s).Whole?
    ensures ValidFrame(Next(s).frame)
  {
    var h := ReadHeader(s).value;
    var code := Code(s[1]);
    var i := 2 + ExtraLength(code);
    if code < 126 {
      assert h.length < 256;
    } else {
      CodeIsLong(code, s[1]);
      BigEndianBound(s[2..i]);
      assert Pow256(4) == 0x1_0000_0000;
      assert Pow256(8) == TWO_TO_THE_64;
    }
  }

  lemma CodeIsLong(code: byte, b: byte)
    requires code == Code(b) && code >= 126
    ensures code == 126 || code == 127
  {}

  lemma SendDisciplined(s: State, opcode: byte, payload: seq<byte>)
    requires Disciplined(s) && opcode < 16 && opcode != CLOSE && |payload| < TWO_TO_THE_64
    ensures Disciplined(Send(s, opcode, payload)) && Continues(s, Send(s, opcode, payload))
  {
    hide Encode, Decode, Leftover;
    if !s.Ended() {
      var f := Frame(true, opcode, payload);
      DecodeExtended(s.Out(), f, s.Mask());
      assert Send(s, opcode, payload).Out() == s.Out() + Encode(f, s.Mask());
      MessagesAppend([], Decode(s.Out()), [f]);
      OneFrame(f);
    }
  }

  lemma OneFrame(f: Frame)
    requires f.fin
    ensures Messages([], [f]) == (if IsData(f) then [f.payload] else []) && Pending([], [f]) == []
  {
    assert [f][1..] == [] && [] + f.payload == f.payload;
    assert Messages([], []) == [] && Pending([], []) == [];
  }

  lemma CloseDisciplined(s: State)
    requires Disciplined(s)
    ensures Disciplined(RequestClose(s)) && Continues(s, RequestClose(s))
  {
    hide Encode, Decode, Leftover;
    if !s.Ended() {
      DecodeExtended(s.Out(), CLOSE_FRAME, Masked(ZERO_KEY));
      assert RequestClose(s).Out() == s.Out() + Encode(CLOSE_FRAME, Masked(ZERO_KEY));
      MessagesAppend([], Decode(s.Out()), [CLOSE_FRAME]);
      OneFrame(CLOSE_FRAME);
    }
  }

  lemma AskDisciplined(s: State, r: Request)
    requires Disciplined(s)
    ensures Disciplined(Ask(s, r)) && Continues(s, Ask(s, r))
  {
    hide Disciplined, Continues, Send, RequestClose;
    match r
    case SendMessage(m) => SendDisciplined(s, FrameOf(m).opcode, m.payload);
    case SendPing => SendDisciplined(s, PING, []);
    case CloseConnection => CloseDisciplined(s);
  }

  lemma {:induction false} AskAllDisciplined(s: State, rs: seq<Request>)
    requires Disciplined(s)
    ensures Disciplined(AskAll(s, rs)) && Continues(s, AskAll(s, rs))
    decreases |rs|
  {
    hide Disciplined, Ask;
    if rs != [] {
      AskDisciplined(s, rs[0]);
      AskAllDisciplined(Ask(s, rs[0]), rs[1..]);
      ContinuesTransitive(s, Ask(s, rs[0]), AskAll(s, rs));
    }
  }

  lemma HandleDisciplined(s: State, f: Frame)
    requires Disciplined(s) && ValidFrame(f)
    ensures Disciplined(Handle(s, f)) && Continues(s, Handle(s, f))
  {
    hide Decode, Leftover, Encode, AskAll, Messages, Pending;
    if IsData(f) {
      var t := s.(received := [], callbacks := s.callbacks + [s.received + f.payload]);
      assert t.Out() == s.Out();
      AskAllDisciplined(t, t.app(t.callbacks));
    } else if IsPing(f) {
      SendDisciplined(s, PONG, f.payload);
    } else if !IsPong(f) {
      CloseDisciplined(s);
    }
  }

  lemma ContinuesTransitive(s: State, t: State, u: State)
    requires Continues(s, t) && Continues(t, u)
    ensures Continues(s, u)
  {}

  lemma {:induction false} DrainDisciplined(s: State)
    requires Disciplined(s)
    ensures Disciplined(Drain(s)) && Continues(s, Drain(s))
    decreases |s.rx|
  {
    hide Decode, Leftover, Handle, Next;
    match Next(s.rx)
    case Incomplete =>
    case Whole(f, n) =>
      NextIsValid(s.rx);
      HandleDisciplined(s, f);
      var t := Handle(s, f).(rx := s.rx[n..]);
      DrainDisciplined(t);
  }

  lemma {:induction false} ReceiveKeepsOut(s: State, rs: seq<RecvResult>)
    ensures var t := ReceiveAll(s, rs);
            t == s.(rx := t.rx, ready := t.ready) && (t.ready == s.ready || t.ready == CLOSED)
    decreases |rs|
  {
    if rs != [] && rs[0].Received? { ReceiveKeepsOut(s.(rx := s.rx + rs[0].bytes), rs[1..]); }
  }

  lemma {:induction false} TransmitKeepsOut(s: State, rs: seq<SendResult>)
    ensures var t := TransmitAll(s, rs);
            && t == s.(ready := t.ready, tx := t.tx, sent := t.sent)
            && t.Out() == s.Out() && s.sent <= t.sent
            && (t.ready == s.ready || t.ready == CLOSED)
    decreases |rs|
  {
    if s.tx != [] && rs != [] && rs[0].Accepted? {
      var k := rs[0].Count(|s.tx|);
      assert s.tx[..k] + s.tx[k..] == s.tx;
      TransmitKeepsOut(s.(sent := s.sent + s.tx[..k], tx := s.tx[k..]), rs[1..]);
    }
  }

  /** Sending piecemeal, losing the connection or finishing the close leaves the stream alone. */
  lemma PollDisciplined(s: State, recvs: seq<RecvResult>, sends: seq<SendResult>)
    requires Disciplined(s)
    ensures Disciplined(Poll(s, recvs, sends)) && Continues(s, Poll(s, recvs, sends))
    ensures Poll(s, recvs, sends).Out() == s.Out()
  {
    hide Decode, Leftover, Messages, Pending;
    ReceiveKeepsOut(s, recvs);
    TransmitKeepsOut(ReceiveAll(s, recvs), sends);
  }

  lemma StepDisciplined(s: State, op: Op)
    requires Disciplined(s)
    ensures Disciplined(Step(s, op)) && Continues(s, Step(s, op))
  {
    hide Disciplined, Continues, Poll, Drain, Ask;
    match op
    case Requested(r) => AskDisciplined(s, r);
    case Dispatch => DrainDisciplined(s);
    case PollSocket(recvs, sends) => PollDisciplined(s, recvs, sends);
  }

  lemma {:induction false} RunDisciplined(s: State, ops: seq<Op>)
    requires Disciplined(s)
    ensures Disciplined(Run(s, ops)) && Continues(s, Run(s, ops))
    decreases |ops|
  {
    hide Disciplined, Step;
    if ops == [] {
    } else {
      StepDisciplined(s, ops[0]);
      RunDisciplined(Step(s, ops[0]), ops[1..]);
      ContinuesTransitive(s, Step(s, ops[0]), Run(s, ops));
    }
  }

  /** Outgoing stream discipline: in every run from a new connection, what was sent followed by
      what is queued is a concatenation of whole frames, of which only the last can be a close
      frame; the peer, having only what was sent, decodes a prefix of them; and their messages
      are those accepted for sending, in order. */
  lemma OutgoingStreamDiscipline(useMask: bool, app: Application, ops: seq<Op>)
    ensures var s := Run(Opened(useMask, app), ops);
            && Leftover(s.Out()) == []
            && CloseOnlyLast(Decode(s.Out()))
            && (s.ready == CLOSING ==> EndsWithClose(Decode(s.Out())))
            && Decode(s.sent) <= Decode(s.Out())
            && Messages([], Decode(s.Out())) == s.asked
  {
    hide Step, Next;
    assert Opened(useMask, app).Out() == [];
    assert Next([]).Incomplete?;
    RunDisciplined(Opened(useMask, app), ops);
    var s := Run(Opened(useMask, app), ops);
    DecodeAppend(s.sent, s.tx);
  }

  /** ... and once the close frame is queued, or the connection is gone, nothing follows: any
      continuation of the run leaves the stream as it is. */
  lemma NothingAfterClose(useMask: bool, app: Application, ops: seq<Op>, later: seq<Op>)
    requires Run(Opened(useMask, app), ops).Ended() || EndsWithClose(Decode(Run(Opened(useMask, app), ops).Out()))
    ensures var s := Run(Opened(useMask, app), ops);
            Run(s, later).Out() == s.Out()
  {
    hide Step, Next, Decode, Leftover;
    assert Opened(useMask, app).Out() == [];
    EmptyStream();
    RunDisciplined(Opened(useMask, app), ops);
    RunDisciplined(Run(Opened(useMask, app), ops), later);
  }

  lemma EmptyStream()
    ensures Decode([]) == [] && Leftover([]) == []
  {}
}
