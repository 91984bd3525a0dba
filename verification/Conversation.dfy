/** Two endpoints and the two byte streams between them: over every interleaving of requests,
    dispatches and partial polls, what each application is given is what the other accepted for sending. */
module Conversation {
  import opened Frames
  import opened Session
  import opened WireDiscipline

  // ---------- what a dispatch takes off a buffer ----------

  function Consumed(s: seq<byte>): seq<byte>
    requires |Leftover(s)| <= |s|
  {
    s[..|s| - |Leftover(s)|]
  }

  lemma HeaderCutShort(s: seq<byte>, n: nat)
    requires ReadHeader(s).Some? && ReadHeader(s).value.size <= n <= |s|
    ensures ReadHeader(s[..n]) == ReadHeader(s)
  {
    var front := s[..n];
    assert front[1] == s[1];
    assert HeaderSize(front) == HeaderSize(s) == ReadHeader(s).value.size;
    hide ReadHeader, HeaderSize;
    assert front + s[n..] == s;
    HeaderOfPrefix(front, s[n..]);
  }

  lemma NextCutShort(s: seq<byte>)
    requires Next(s).Whole?
    ensures Next(s[..Next(s).size]) == Next(s)
  {
    hide ReadHeader, Xor;
    var h := ReadHeader(s).value;
    var n := h.size + h.length;
    HeaderCutShort(s, n);
    assert s[..n][h.size..n] == s[h.size..n];
  }

  lemma FirstFrame(s: seq<byte>)
    requires Next(s).Whole?
    ensures var rest := s[Next(s).size..];
            Decode(s) == [Next(s).frame] + Decode(rest) && Leftover(s) == Leftover(rest)
  {
    hide Next;
  }

  /** A stream is the whole frames at its front and its leftover. */
  lemma {:induction false} ConsumedIsWhole(s: seq<byte>)
    ensures |Leftover(s)| <= |s| && s == Consumed(s) + Leftover(s)
    ensures Decode(Consumed(s)) == Decode(s) && Leftover(Consumed(s)) == []
    decreases |s|
  {
    hide Next, Decode, Leftover;
    if Next(s).Incomplete? {
      NothingWhole(s);
      assert Consumed(s) == [];
    } else {
      var n := Next(s).size;
      FirstFrame(s);
      ConsumedIsWhole(s[n..]);
      var rest := Consumed(s[n..]);
      assert Consumed(s) == s[..n] + rest;
      NextCutShort(s);
      NextOfPrefix(s[..n], rest);
      assert (s[..n] + rest)[n..] == rest;
      FirstFrame(s[..n] + rest);
    }
  }

  lemma NothingWhole(s: seq<byte>)
    requires Next(s).Incomplete?
    ensures Decode(s) == [] && Leftover(s) == s && Decode([]) == [] && Leftover([]) == []
  {
    hide Next;
    EmptyIsIncomplete();
  }

  lemma EmptyIsIncomplete()
    ensures Next([]).Incomplete?
  {}

  // ---------- one direction ----------

  /** `b` was given the first `took` bytes that `a` sent; all but those still in its buffer are
      whole frames, and its callbacks are their messages. */
  ghost predicate Linked(a: State, b: State, took: nat) {
    && Disciplined(a)
    && |b.rx| <= took <= |a.sent|
    && var read := a.sent[..took - |b.rx|];
       && b.rx == a.sent[took - |b.rx|..took]
       && Leftover(read) == []
       && b.callbacks == Messages([], Decode(read))
       && b.received == Pending([], Decode(read))
  }

  /** Whatever the sender does next, what was already sent stays. */
  lemma SenderSteps(a: State, b: State, took: nat, op: Op)
    requires Linked(a, b, took)
    ensures Linked(Step(a, op), b, took)
  {
    hide Disciplined, Decode, Leftover, Messages, Pending, Step;
    StepDisciplined(a, op);
    var t := Step(a, op);
    var used := took - |b.rx|;
    assert t.sent[..|a.sent|] == a.sent;
    assert t.sent[..used] == a.sent[..used] && t.sent[used..took] == a.sent[used..took];
  }

  function Taken(s: State, op: Op): seq<byte> {
    if op.PollSocket? && s.ready != CLOSED then BytesOf(op.recvs) else []
  }

  lemma PollReceives(s: State, recvs: seq<RecvResult>, sends: seq<SendResult>)
    ensures var t := Poll(s, recvs, sends);
            t.rx == s.rx + Taken(s, PollSocket(recvs, sends)) && t.callbacks == s.callbacks && t.received == s.received
  {
    hide BytesOf, ReceiveAll, TransmitAll;
    ReceiveMoves(s, recvs);
    TransmitKeepsOut(ReceiveAll(s, recvs), sends);
  }

  lemma ReceiverDrains(a: State, b: State, took: nat)
    requires Linked(a, b, took)
    ensures Linked(a, Drain(b), took)
  {
    hide Disciplined, Decode, Leftover, Messages, Pending, Drain, HandleAll;
    var fs := Decode(b.rx);
    DrainHandlesFrames(b);
    HandleAllDelivers(b, fs);
    ConsumedIsWhole(b.rx);
    var used := took - |b.rx|;
    var read := a.sent[..used];
    var part := Consumed(b.rx);
    DecodeAppend(read, part);
    assert [] + part == part;
    MessagesAppend([], Decode(read), fs);
    assert a.sent[..took - |Leftover(b.rx)|] == read + part;
    assert Leftover(b.rx) == a.sent[took - |Leftover(b.rx)|..took];
  }

  /** The receiver may do anything, as long as its socket returns what comes next in the stream. */
  lemma ReceiverSteps(a: State, b: State, took: nat, op: Op)
    requires Linked(a, b, took)
    requires Taken(b, op) <= a.sent[took..]
    ensures Linked(a, Step(b, op), took + |Taken(b, op)|)
  {
    hide Disciplined, Decode, Leftover, Messages, Pending, Drain, Poll, AskAll, BytesOf;
    match op
    case Requested(r) => RequestKeeps(b, r);
    case Dispatch => ReceiverDrains(a, b, took);
    case PollSocket(recvs, sends) =>
      PollReceives(b, recvs, sends);
      var bytes := Taken(b, op);
      assert a.sent[took - |b.rx|..took + |bytes|] == b.rx + a.sent[took..][..|bytes|];
  }

  lemma RequestKeeps(s: State, r: Request)
    ensures var t := Ask(s, r); t == s.(ready := t.ready, tx := t.tx, asked := t.asked)
  {
    hide Encode;
  }

  /** What a linked receiver was given is a prefix of what the sender accepted for sending, and all
      of it once everything queued has been taken and dispatched. */
  lemma LinkedDelivers(a: State, b: State, took: nat)
    requires Linked(a, b, took)
    ensures b.callbacks <= a.asked
    ensures took == |a.Out()| ==> Drain(b).callbacks == a.asked && Drain(b).rx == []
  {
    hide Decode, Leftover, Messages, Pending, Drain, HandleAll;
    var used := took - |b.rx|;
    var read, rest := a.sent[..used], a.sent[used..] + a.tx;
    assert a.Out() == read + rest;
    DecodeAppend(read, rest);
    assert [] + rest == rest;
    MessagesAppend([], Decode(read), Decode(rest));
    if took == |a.Out()| {
      assert a.tx == [] && rest == b.rx;
      DrainHandlesFrames(b);
      HandleAllDelivers(b, Decode(b.rx));
    }
  }

  // ---------- both directions ----------

  /** `leftTook` and `rightTook` count the bytes each socket has returned of what the other sent. */
  datatype Pair = Pair(left: State, right: State, leftTook: nat, rightTook: nat)

  datatype Move = LeftMoves(op: Op) | RightMoves(op: Op)

  /** A socket returns nothing but what the other end sent, in order. */
  predicate Possible(p: Pair, m: Move) {
    match m
    case LeftMoves(op) => p.leftTook <= |p.right.sent| && Taken(p.left, op) <= p.right.sent[p.leftTook..]
    case RightMoves(op) => p.rightTook <= |p.left.sent| && Taken(p.right, op) <= p.left.sent[p.rightTook..]
  }

  function Play(p: Pair, m: Move): Pair {
    match m
    case LeftMoves(op) => p.(left := Step(p.left, op), leftTook := p.leftTook + |Taken(p.left, op)|)
    case RightMoves(op) => p.(right := Step(p.right, op), rightTook := p.rightTook + |Taken(p.right, op)|)
  }

  predicate AllPossible(p: Pair, ms: seq<Move>)
    decreases |ms|
  {
    |ms| == 0 || (Possible(p, ms[0]) && AllPossible(Play(p, ms[0]), ms[1..]))
  }

  function PlayAll(p: Pair, ms: seq<Move>): Pair
    decreases |ms|
  {
    if |ms| == 0 then p else PlayAll(Play(p, ms[0]), ms[1..])
  }

  ghost predicate Joined(p: Pair) { Linked(p.left, p.right, p.rightTook) && Linked(p.right, p.left, p.leftTook) }

  lemma PlayKeepsJoined(p: Pair, m: Move)
    requires Joined(p) && Possible(p, m)
    ensures Joined(Play(p, m))
  {
    hide Linked, Step, Taken;
    match m
    case LeftMoves(op) =>
      assert p.leftTook <= |p.right.sent|;
      SenderSteps(p.left, p.right, p.rightTook, op);
      ReceiverSteps(p.right, p.left, p.leftTook, op);
    case RightMoves(op) =>
      SenderSteps(p.right, p.left, p.leftTook, op);
      ReceiverSteps(p.left, p.right, p.rightTook, op);
  }

  lemma {:induction false} PlayAllKeepsJoined(p: Pair, ms: seq<Move>)
    requires Joined(p) && AllPossible(p, ms)
    ensures Joined(PlayAll(p, ms))
    decreases |ms|
  {
    hide Joined, Play, Possible;
    if |ms| != 0 {
      PlayKeepsJoined(p, ms[0]);
      PlayAllKeepsJoined(Play(p, ms[0]), ms[1..]);
    }
  }

  function Opening(leftMask: bool, leftApp: Application, rightMask: bool, rightApp: Application): Pair {
    Pair(Opened(leftMask, leftApp), Opened(rightMask, rightApp), 0, 0)
  }

  lemma OpeningIsJoined(leftMask: bool, leftApp: Application, rightMask: bool, rightApp: Application)
    ensures Joined(Opening(leftMask, leftApp, rightMask, rightApp))
  {
    EmptyStream();
    var left, right := Opened(leftMask, leftApp), Opened(rightMask, rightApp);
    assert left.Out() == [] && right.Out() == [];
    assert left.sent[..0] == [] && right.sent[..0] == [];
    assert left.sent[0..0] == [] && right.sent[0..0] == [];
  }

  function Acceptances(n: nat): (rs: seq<SendResult>)
    ensures |rs| == n && forall i :: 0 <= i < n ==> rs[i].Accepted?
  {
    seq(n, _ => Accepted(0))
  }

  /** What the sockets still have to do for everything the left end queued to arrive. */
  function Flush(p: Pair): seq<Move>
    requires p.rightTook <= |p.left.Out()|
  {
    var bytes := p.left.Out()[p.rightTook..];
    [LeftMoves(PollSocket([], Acceptances(|p.left.tx|)))] +
    ([RightMoves(PollSocket(if bytes == [] then [] else [Received(bytes)], []))] + [RightMoves(Dispatch)])
  }

  lemma PlayFirst(p: Pair, m: Move, ms: seq<Move>)
    ensures PlayAll(p, [m] + ms) == PlayAll(Play(p, m), ms)
    ensures AllPossible(p, [m] + ms) <==> Possible(p, m) && AllPossible(Play(p, m), ms)
    ensures PlayAll(p, []) == p && AllPossible(p, [])
  {
    hide Play, Possible;
    assert ([m] + ms)[1..] == ms;
  }

  lemma LeftFlushes(p: Pair)
    requires Joined(p) && p.left.ready != CLOSED
    ensures var m := LeftMoves(PollSocket([], Acceptances(|p.left.tx|)));
            var q := Play(p, m);
            && Possible(p, m) && Joined(q) && q.left.tx == [] && q.left.sent == p.left.Out() && q.left.asked == p.left.asked
            && q.right == p.right && q.rightTook == p.rightTook
  {
    hide Linked, Poll, BytesOf, ReceivesEnd, Offered, SendsEnd, Least;
    var sends := Acceptances(|p.left.tx|);
    NoBytesTaken();
    PollMoves(p.left, [], sends);
    PollEmpties(p.left, [], sends);
    LinkedTook(p.right, p.left, p.leftTook);
    PlayKeepsJoined(p, LeftMoves(PollSocket([], sends)));
  }

  lemma RightTakes(p: Pair, bytes: seq<byte>)
    requires Joined(p) && p.right.ready != CLOSED && p.rightTook <= |p.left.sent| && bytes == p.left.sent[p.rightTook..]
    ensures var m := RightMoves(PollSocket(if bytes == [] then [] else [Received(bytes)], []));
            var q := Play(p, m);
            Possible(p, m) && Joined(q) && q.left == p.left && q.rightTook == |p.left.sent|
  {
    NoBytesTaken();
    OneTaken(bytes);
    hide Linked, Poll, BytesOf;
    PlayKeepsJoined(p, RightMoves(PollSocket(if bytes == [] then [] else [Received(bytes)], [])));
  }

  lemma RightDispatches(p: Pair)
    requires Joined(p) && p.rightTook == |p.left.Out()|
    ensures Possible(p, RightMoves(Dispatch))
    ensures var q := Play(p, RightMoves(Dispatch)); q.right.callbacks == p.left.asked && q.right.rx == [] && q.left == p.left
  {
    LinkedTook(p.left, p.right, p.rightTook);
    LinkedDelivers(p.left, p.right, p.rightTook);
    hide Linked, Drain;
  }

  /** Progress: from every state of a conversation with both ends connected, sockets that take and
      give everything, and one dispatch, complete it: the right application has been given exactly
      the messages the left end accepted. */
  lemma EverythingArrives(p: Pair)
    requires Joined(p) && p.left.ready != CLOSED && p.right.ready != CLOSED
    ensures p.rightTook <= |p.left.Out()|
    ensures AllPossible(p, Flush(p))
    ensures var q := PlayAll(p, Flush(p)); q.right.callbacks == p.left.asked && q.right.rx == [] && q.left.asked == p.left.asked
  {
    LinkedTook(p.left, p.right, p.rightTook);
    LeftFlushes(p);
    hide Joined, Play, Possible, PlayAll, AllPossible;
    var bytes := p.left.Out()[p.rightTook..];
    var flush := LeftMoves(PollSocket([], Acceptances(|p.left.tx|)));
    var take := RightMoves(PollSocket(if bytes == [] then [] else [Received(bytes)], []));
    var p1 := Play(p, flush);
    RightTakes(p1, bytes);
    var p2 := Play(p1, take);
    assert p1.left.Out() == p1.left.sent + [] == p1.left.sent;
    RightDispatches(p2);
    PlayFirst(p, flush, [take] + [RightMoves(Dispatch)]);
    PlayFirst(p1, take, [RightMoves(Dispatch)]);
    PlayFirst(p2, RightMoves(Dispatch), []);
    PlayFirst(Play(p2, RightMoves(Dispatch)), flush, []);
    assert [RightMoves(Dispatch)] + [] == [RightMoves(Dispatch)];
  }

  lemma LinkedTook(a: State, b: State, took: nat)
    requires Linked(a, b, took)
    ensures took <= |a.sent| <= |a.Out()|
  {
    hide Disciplined;
  }

  lemma NoBytesTaken()
    ensures BytesOf([]) == [] && !ReceivesEnd([])
  {}

  lemma OneTaken(bytes: seq<byte>)
    ensures BytesOf([Received(bytes)]) == bytes && !ReceivesEnd([Received(bytes)])
  {
    assert [Received(bytes)][1..] == [];
  }

  /** Two endpoints: in every interleaving of requests (pings and closes among them, from callbacks
      too), dispatches and polls that send and receive in any portions, the messages each
      application was given are a prefix, in order, of those the other accepted for sending; and when
      one end has taken everything the other queued, a dispatch completes them. */
  lemma MessagesInOrder(leftMask: bool, leftApp: Application, rightMask: bool, rightApp: Application, ms: seq<Move>)
    requires AllPossible(Opening(leftMask, leftApp, rightMask, rightApp), ms)
    ensures var p := PlayAll(Opening(leftMask, leftApp, rightMask, rightApp), ms);
            && p.right.callbacks <= p.left.asked
            && p.left.callbacks <= p.right.asked
            && (p.rightTook == |p.left.Out()| ==> Drain(p.right).callbacks == p.left.asked && Drain(p.right).rx == [])
            && (p.leftTook == |p.right.Out()| ==> Drain(p.left).callbacks == p.right.asked && Drain(p.left).rx == [])
  {
    hide Play, Possible, Linked, AllPossible, PlayAll, Opening, Drain;
    var start := Opening(leftMask, leftApp, rightMask, rightApp);
    OpeningIsJoined(leftMask, leftApp, rightMask, rightApp);
    PlayAllKeepsJoined(start, ms);
    var p := PlayAll(start, ms);
    LinkedDelivers(p.left, p.right, p.rightTook);
    LinkedDelivers(p.right, p.left, p.leftTook);
  }
}
