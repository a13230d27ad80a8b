// From SendData to the receive callback: producers, the ring, the sender loop, the byte stream and
// the receiver loop, in every interleaving and with every way of cutting up what is sent.
module MessageFlow {
  import opened Words
  import opened Readers
  import opened Channel

  type Msg = seq<byte>

  /** done counts the bytes of the frame that were written since its last beginning. */
  datatype Sender = Idle | Sending(msg: Msg, done: nat)

  datatype Receiver = Header(got: seq<byte>) | Body(size: nat, got: seq<byte>)

  /** accepted: what was enqueued successfully; delivered: what the callback was given. */
  datatype State = State(
    queue: seq<Msg>,
    sender: Sender,
    wire: seq<byte>,
    read: nat,
    receiver: Receiver,
    accepted: seq<Msg>,
    delivered: seq<Msg>)

  /**
   * sendInFrame, recvInFrame: at that end time may run out while a frame is under way; else only before its
   * first byte. losses: the connection may be lost while something on it was not read; else only then.
   */
  datatype Setup = Setup(capacity: nat, big: bool, sendInFrame: bool, recvInFrame: bool, losses: bool)

  predicate OnTime(c: Setup) {
    !c.sendInFrame && !c.recvInFrame
  }

  datatype Action = Enqueue(msg: Msg) | Dequeue | Send(k: nat) | SendTimeout | Recv(k: nat) | RecvTimeout

  const START: State := State([], Idle, [], 0, Header([]), [], [])

  predicate Enabled(c: Setup, s: State, a: Action) {
    match a
    case Enqueue(msg) => Sized(msg)
    case Dequeue => s.sender.Idle? && s.queue != []
    case Send(k) => s.sender.Sending? && k > 0 && s.sender.done + k <= WriteEnd(s.sender)
    case SendTimeout => s.sender.Sending? && (c.sendInFrame || s.sender.done == 0)
    case Recv(k) => 0 < k <= Wanted(s.receiver) && s.read + k <= |s.wire|
    case RecvTimeout => c.recvInFrame || s.receiver == Header([])
  }

  /** The size is written by one loop and the data by another. */
  function WriteEnd(sender: Sender): nat
    requires sender.Sending?
  {
    if sender.done < 8 then 8 else 8 + |sender.msg|
  }

  function Wanted(r: Receiver): int {
    match r
    case Header(got) => 8 - |got|
    case Body(size, got) => size - |got|
  }

  function Apply(c: Setup, s: State, a: Action): State
    requires Enabled(c, s, a)
  {
    match a
    case Enqueue(msg) =>
      if |s.queue| < c.capacity then s.(queue := s.queue + [msg], accepted := s.accepted + [msg]) else s
    case Dequeue => s.(sender := Sending(s.queue[0], 0), queue := s.queue[1..])
    case Send(k) =>
      var f, to := Frame(s.sender.msg, c.big), s.sender.done + k;
      s.(wire := s.wire + f[s.sender.done..to], sender := if to == |f| then Idle else Sending(s.sender.msg, to))
    case SendTimeout => s.(sender := Sending(s.sender.msg, 0))
    case Recv(k) => Receive(c, s.(read := s.read + k), s.wire[s.read..s.read + k])
    case RecvTimeout => s.(receiver := Header([]))
  }

  function Receive(c: Setup, s: State, bytes: seq<byte>): State {
    var got := s.receiver.got + bytes;
    match s.receiver
    case Header(_) =>
      if |got| < 8 then s.(receiver := Header(got))
      else if Wrap32(UInt(got, c.big)) == 0 then s.(receiver := Header([]), delivered := s.delivered + [[]])
      else s.(receiver := Body(Wrap32(UInt(got, c.big)), []))
    case Body(size, _) =>
      if |got| < size then s.(receiver := Body(size, got))
      else s.(receiver := Header([]), delivered := s.delivered + [got])
  }

  ghost predicate Reaches(c: Setup, s: State, run: seq<Action>, s': State)
    decreases |run|
  {
    if run == [] then s' == s else Enabled(c, s, run[0]) && Reaches(c, Apply(c, s, run[0]), run[1..], s')
  }

  // ---------------------------------------------------------------------------
  // Streams of frames
  // ---------------------------------------------------------------------------

  function Stream(msgs: seq<Msg>, big: bool): seq<byte> {
    if msgs == [] then [] else Stream(msgs[..|msgs| - 1], big) + Frame(msgs[|msgs| - 1], big)
  }

  lemma {:induction false} StreamSplit(msgs: seq<Msg>, big: bool, d: nat)
    requires d < |msgs|
    ensures Stream(msgs[..d], big) + Frame(msgs[d], big) <= Stream(msgs, big)
  {
    hide Frame;
    if d == |msgs| - 1 {
      assert Stream(msgs, big) == Stream(msgs[..d], big) + Frame(msgs[d], big);
    } else {
      var front := msgs[..|msgs| - 1];
      StreamSplit(front, big, d);
      assert front[..d] == msgs[..d] && front[d] == msgs[d];
    }
  }

  /** What follows the first d frames on a stream, as far as the next frame goes, is part of that frame. */
  lemma NextBytes(msgs: seq<Msg>, big: bool, d: nat, wire: seq<byte>, read: nat, consumed: seq<byte>, k: nat)
    requires d <= |msgs| && wire <= Stream(msgs, big) && read + k <= |wire| && k > 0
    requires wire[..read] == Stream(msgs[..d], big) + consumed
    ensures d < |msgs|
    ensures |consumed| + k <= 8 + |msgs[d]| ==> consumed + wire[read..read + k] <= Frame(msgs[d], big)
  {
    hide Frame;
    var whole := Stream(msgs, big);
    WholePrefix(msgs);
    assert |wire| <= |whole|;
    StreamSplit(msgs, big, d);
    var front, f := Stream(msgs[..d], big), Frame(msgs[d], big);
    var more := wire[read..read + k];
    if |consumed| + k <= |f| {
      var n := |front| + |consumed| + k;
      assert wire[..read + k] == front + (consumed + more);
      assert wire[..read + k] == whole[..n] == (front + f)[..n];
      assert (front + f)[..n] == front + f[..|consumed| + k];
      SameTail(front, consumed + more, f[..|consumed| + k]);
    }
  }

  lemma WholePrefix(msgs: seq<Msg>)
    ensures msgs[..|msgs|] == msgs
  {
  }

  lemma SameTail(a: seq<byte>, b: seq<byte>, c: seq<byte>)
    requires a + b == a + c
    ensures b == c
  {
    assert b == (a + b)[|a|..] && c == (a + c)[|a|..];
  }

  // ---------------------------------------------------------------------------
  // First in, first out
  // ---------------------------------------------------------------------------

  /** How many messages have been written completely. */
  function Written(s: State): int {
    |s.accepted| - |s.queue| - if s.sender.Sending? then 1 else 0
  }

  /** The bytes that the receiver has of the frame it is reading. */
  function Consumed(c: Setup, r: Receiver): seq<byte> {
    match r
    case Header(got) => got
    case Body(size, got) => EncodeUInt(size, 8, c.big) + got
  }

  ghost predicate SenderInv(c: Setup, s: State) {
    && |s.queue| <= c.capacity && Written(s) >= 0
    && s.queue == s.accepted[|s.accepted| - |s.queue|..]
    && match s.sender
       case Idle => s.wire == Stream(s.accepted[..Written(s)], c.big)
       case Sending(msg, done) =>
         && msg == s.accepted[Written(s)] && done < 8 + |msg|
         && s.wire == Stream(s.accepted[..Written(s)], c.big) + Frame(msg, c.big)[..done]
  }

  ghost predicate ReceiverInv(c: Setup, s: State) {
    var d := |s.delivered|;
    && s.read <= |s.wire| && d <= |s.accepted| && s.delivered == s.accepted[..d]
    && s.wire[..s.read] == Stream(s.accepted[..d], c.big) + Consumed(c, s.receiver)
    && match s.receiver
       case Header(got) => |got| < 8 && (got != [] ==> d < |s.accepted| && got <= Frame(s.accepted[d], c.big))
       case Body(size, got) => d < |s.accepted| && size == |s.accepted[d]| && |got| < size && got <= s.accepted[d]
  }

  ghost predicate Inv(c: Setup, s: State) {
    && (forall i :: 0 <= i < |s.accepted| ==> Sized(s.accepted[i]))
    && SenderInv(c, s) && ReceiverInv(c, s)
  }

  /** The wire never runs ahead of what was accepted. */
  lemma WireBehind(c: Setup, s: State)
    requires SenderInv(c, s)
    ensures s.wire <= Stream(s.accepted, c.big)
  {
    hide Frame;
    var n := Written(s);
    if n < |s.accepted| {
      StreamSplit(s.accepted, c.big, n);
    } else {
      assert s.accepted[..n] == s.accepted;
    }
  }

  lemma EnqueueKeeps(c: Setup, s: State, msg: Msg)
    requires Inv(c, s) && Sized(msg)
    ensures Inv(c, Apply(c, s, Enqueue(msg)))
  {
    hide Stream, Frame, Sized;
    var s' := Apply(c, s, Enqueue(msg));
    assert s'.accepted[..Written(s)] == s.accepted[..Written(s)];
    assert s'.accepted[..|s.delivered|] == s.accepted[..|s.delivered|];
    assert forall i :: 0 <= i < |s.accepted| ==> s'.accepted[i] == s.accepted[i];
  }

  lemma DequeueKeeps(c: Setup, s: State)
    requires Inv(c, s) && Enabled(c, s, Dequeue)
    ensures Inv(c, Apply(c, s, Dequeue))
  {
    hide Stream, Frame, Sized;
    var n := |s.accepted| - |s.queue|;
    assert s.queue[0] == s.accepted[n] && s.queue[1..] == s.accepted[n + 1..];
  }

  /** A longer wire does not change what was read of it. */
  lemma ReceiverKept(c: Setup, s: State, s': State)
    requires ReceiverInv(c, s) && s.wire <= s'.wire
    requires s'.read == s.read && s'.receiver == s.receiver && s'.accepted == s.accepted && s'.delivered == s.delivered
    ensures ReceiverInv(c, s')
  {
    hide Stream, Frame, Consumed;
    assert s'.wire[..s.read] == s.wire[..s.read];
  }

  lemma FramePart(front: seq<byte>, f: seq<byte>, done: nat, k: nat)
    requires done + k <= |f|
    ensures front + f[..done] + f[done..done + k] == front + f[..done + k]
    ensures f[..|f|] == f
  {
    assert f[..done] + f[done..done + k] == f[..done + k];
  }

  lemma SendKeeps(c: Setup, s: State, k: nat)
    requires Inv(c, s) && Enabled(c, s, Send(k))
    ensures Inv(c, Apply(c, s, Send(k)))
  {
    hide Sized, Stream, Frame, ReceiverInv;
    var s', n := Apply(c, s, Send(k)), Written(s);
    var f, done := Frame(s.sender.msg, c.big), s.sender.done;
    FramePart(Stream(s.accepted[..n], c.big), f, done, k);
    NextFrame(s.accepted, c.big, n);
    ReceiverKept(c, s, s');
  }

  /** Reading on in the frame of message d. */
  lemma ReadOn(c: Setup, s: State, k: nat)
    requires Inv(c, s) && Enabled(c, s, Recv(k))
    ensures var d, more := |s.delivered|, Consumed(c, s.receiver) + s.wire[s.read..s.read + k];
      && d < |s.accepted|
      && (|more| <= 8 + |s.accepted[d]| ==> more <= Frame(s.accepted[d], c.big))
      && s.wire[..s.read + k] == Stream(s.accepted[..d], c.big) + more
  {
    hide Stream, Frame, Sized;
    WireBehind(c, s);
    NextBytes(s.accepted, c.big, |s.delivered|, s.wire, s.read, Consumed(c, s.receiver), k);
    var front, consumed := Stream(s.accepted[..|s.delivered|], c.big), Consumed(c, s.receiver);
    assert s.wire[..s.read + k] == s.wire[..s.read] + s.wire[s.read..s.read + k];
    assert front + consumed + s.wire[s.read..s.read + k] == front + (consumed + s.wire[s.read..s.read + k]);
  }

  lemma HeaderKeeps(c: Setup, s: State, k: nat)
    requires Inv(c, s) && Enabled(c, s, Recv(k)) && s.receiver.Header?
    ensures ReceiverInv(c, Apply(c, s, Recv(k)))
  {
    hide Stream, Frame, Wrap32, UInt, EncodeUInt, SenderInv, Sized;
    var d, got := |s.delivered|, s.receiver.got + s.wire[s.read..s.read + k];
    ReadOn(c, s, k);
    var msg := s.accepted[d];
    assert Sized(msg);
    if |got| == 8 {
      HeaderDone(c, s, k, got, msg);
    }
  }

  lemma HeaderDone(c: Setup, s: State, k: nat, got: seq<byte>, msg: Msg)
    requires Enabled(c, s, Recv(k)) && s.receiver.Header? && |s.delivered| < |s.accepted|
    requires got == s.receiver.got + s.wire[s.read..s.read + k] && |got| == 8 && got <= Frame(msg, c.big)
    requires msg == s.accepted[|s.delivered|] && Sized(msg) && s.delivered == s.accepted[..|s.delivered|]
    requires s.wire[..s.read + k] == Stream(s.accepted[..|s.delivered|], c.big) + got
    ensures ReceiverInv(c, Apply(c, s, Recv(k)))
  {
    hide Stream, Frame, Wrap32, UInt, EncodeUInt;
    var d, s' := |s.delivered|, Apply(c, s, Recv(k));
    FrameHeader(msg, c.big);
    NextFrame(s.accepted, c.big, d);
    assert got == Frame(msg, c.big)[..8];
    if |msg| == 0 {
      assert Frame(msg, c.big) == got && msg == [];
      assert s'.delivered == s.accepted[..d + 1];
      assert Stream(s.accepted[..d + 1], c.big) + [] == Stream(s.accepted[..d + 1], c.big);
    } else {
      assert s'.receiver == Body(|msg|, []);
      assert got + [] == got;
    }
  }

  lemma BodyKeeps(c: Setup, s: State, k: nat)
    requires Inv(c, s) && Enabled(c, s, Recv(k)) && s.receiver.Body?
    ensures ReceiverInv(c, Apply(c, s, Recv(k)))
  {
    hide Stream, Wrap32, UInt, EncodeUInt, SenderInv, Sized;
    var d, got := |s.delivered|, s.receiver.got + s.wire[s.read..s.read + k];
    ReadOn(c, s, k);
    var msg, header := s.accepted[d], EncodeUInt(s.receiver.size, 8, c.big);
    NextFrame(s.accepted, c.big, d);
    assert header + s.receiver.got + s.wire[s.read..s.read + k] == header + got;
    BehindHeader(header, got, msg);
    var s' := Apply(c, s, Recv(k));
    if |got| == |msg| {
      assert got == msg && Frame(msg, c.big) == header + got;
      assert s'.delivered == s.accepted[..d + 1];
      assert Stream(s.accepted[..d + 1], c.big) + [] == Stream(s.accepted[..d + 1], c.big);
    }
  }

  lemma BehindHeader(header: seq<byte>, got: seq<byte>, msg: seq<byte>)
    requires header + got <= header + msg
    ensures got <= msg
  {
    assert got == (header + got)[|header|..] && msg == (header + msg)[|header|..];
    assert (header + got)[|header|..] == (header + msg)[|header|..|header| + |got|];
  }

  lemma ReceiveKeeps(c: Setup, s: State, k: nat)
    requires Inv(c, s) && Enabled(c, s, Recv(k))
    ensures Inv(c, Apply(c, s, Recv(k)))
  {
    hide Stream, Frame, Wrap32, UInt, ReceiverInv, SenderInv, Sized;
    if s.receiver.Header? {
      HeaderKeeps(c, s, k);
    } else {
      BodyKeeps(c, s, k);
    }
    SenderKept(c, s, Apply(c, s, Recv(k)));
  }

  lemma SenderKept(c: Setup, s: State, s': State)
    requires SenderInv(c, s)
    requires s'.queue == s.queue && s'.sender == s.sender && s'.wire == s.wire && s'.accepted == s.accepted
    ensures SenderInv(c, s')
  {
    hide Stream, Frame;
  }

  lemma NextFrame(msgs: seq<Msg>, big: bool, d: nat)
    requires d < |msgs|
    ensures Stream(msgs[..d + 1], big) == Stream(msgs[..d], big) + Frame(msgs[d], big)
  {
    assert msgs[..d + 1][..d] == msgs[..d];
  }

  lemma StepKeepsInv(c: Setup, s: State, a: Action)
    requires OnTime(c) && Inv(c, s) && Enabled(c, s, a)
    ensures Inv(c, Apply(c, s, a))
  {
    hide Stream, Frame, Sized;
    match a {
      case Enqueue(msg) => EnqueueKeeps(c, s, msg);
      case Dequeue => DequeueKeeps(c, s);
      case Send(k) => SendKeeps(c, s, k);
      case SendTimeout => assert Apply(c, s, a) == s;
      case Recv(k) => ReceiveKeeps(c, s, k);
      case RecvTimeout => assert Apply(c, s, a) == s;
    }
  }

  lemma {:induction false} RunKeepsInv(c: Setup, s: State, run: seq<Action>, s': State)
    requires OnTime(c) && Inv(c, s) && Reaches(c, s, run, s')
    ensures Inv(c, s')
    decreases |run|
  {
    hide Inv, Enabled, Apply;
    if run != [] {
      StepKeepsInv(c, s, run[0]);
      RunKeepsInv(c, Apply(c, s, run[0]), run[1..], s');
    }
  }

  /**
   * At all times the callback has been given the first of the messages that were enqueued, in order,
   * each once and unchanged; and the ring has never held more than it may.
   */
  lemma Fifo(c: Setup, run: seq<Action>, s: State)
    requires OnTime(c) && Reaches(c, START, run, s)
    ensures s.delivered <= s.accepted && |s.queue| <= c.capacity
  {
    RunKeepsInv(c, START, run, s);
  }

  /** When everything has been sent and read, everything has been delivered. */
  lemma AllDelivered(c: Setup, run: seq<Action>, s: State)
    requires OnTime(c) && Reaches(c, START, run, s)
    requires s.queue == [] && s.sender.Idle? && s.read == |s.wire|
    ensures s.delivered == s.accepted
  {
    hide Frame;
    RunKeepsInv(c, START, run, s);
    var d := |s.delivered|;
    assert s.accepted[..Written(s)] == s.accepted && s.wire[..s.read] == s.wire;
    if d < |s.accepted| {
      StreamSplit(s.accepted, c.big, d);
    } else {
      assert s.accepted[..d] == s.accepted;
    }
  }

  // ---------------------------------------------------------------------------
  // When the connection is lost
  // ---------------------------------------------------------------------------

  /** The flow over the connection there is; sent and got are what went over earlier ones. */
  datatype Link = Link(flow: State, sent: seq<Msg>, got: seq<Msg>)

  datatype Event = Step(a: Action) | Lose

  const FIRST: Link := Link(START, [], [])

  function Accepted(l: Link): seq<Msg> {
    l.sent + l.flow.accepted
  }

  function Delivered(l: Link): seq<Msg> {
    l.got + l.flow.delivered
  }

  predicate MayHappen(c: Setup, l: Link, e: Event) {
    match e
    case Step(a) => Enabled(c, l.flow, a)
    case Lose => 0 <= Written(l.flow) <= |l.flow.accepted| && (c.losses || l.flow.read == |l.flow.wire|)
  }

  /** The next connection: what was written completely is gone, and a frame under way begins again. */
  function Reconnected(s: State): State
    requires 0 <= Written(s) <= |s.accepted|
  {
    State(s.queue, if s.sender.Idle? then Idle else Sending(s.sender.msg, 0), [], 0, Header([]), s.accepted[Written(s)..], [])
  }

  function Happens(c: Setup, l: Link, e: Event): Link
    requires MayHappen(c, l, e)
  {
    match e
    case Step(a) => l.(flow := Apply(c, l.flow, a))
    case Lose => Link(Reconnected(l.flow), l.sent + l.flow.accepted[..Written(l.flow)], Delivered(l))
  }

  ghost predicate Leads(c: Setup, l: Link, run: seq<Event>, l': Link)
    decreases |run|
  {
    if run == [] then l' == l else MayHappen(c, l, run[0]) && Leads(c, Happens(c, l, run[0]), run[1..], l')
  }

  /** a is b with some messages missing. */
  ghost predicate Subsequence(a: seq<Msg>, b: seq<Msg>) {
    exists at: seq<nat> :: Places(a, b, at)
  }

  ghost predicate Places(a: seq<Msg>, b: seq<Msg>, at: seq<nat>) {
    && |at| == |a| && (forall k :: 0 <= k < |a| ==> at[k] < |b| && a[k] == b[at[k]])
    && forall k, m :: 0 <= k < m < |a| ==> at[k] < at[m]
  }

  lemma PrefixIsSubsequence(a: seq<Msg>, b: seq<Msg>)
    requires a <= b
    ensures Subsequence(a, b)
  {
    assert Places(a, b, seq(|a|, k requires 0 <= k => k));
  }

  lemma SubsequenceAppend(a: seq<Msg>, b: seq<Msg>, c: seq<Msg>, d: seq<Msg>)
    requires Subsequence(a, b) && Subsequence(c, d)
    ensures Subsequence(a + c, b + d)
  {
    var x, y :| Places(a, b, x) && Places(c, d, y);
    var z := x + seq(|y|, k requires 0 <= k < |y| => |b| + y[k]);
    assert Places(a + c, b + d, z);
  }

  lemma StreamGrows(msgs: seq<Msg>, big: bool, a: nat, b: nat)
    requires a < b <= |msgs|
    ensures |Stream(msgs[..a], big)| + 8 + |msgs[a]| <= |Stream(msgs[..b], big)|
  {
    hide Stream;
    StreamSplit(msgs[..b], big, a);
    assert msgs[..b][..a] == msgs[..a] && msgs[..b][a] == msgs[a];
  }

  /** No frame is delivered before it was written, and none is missing when all was read. */
  lemma DeliveredWritten(c: Setup, s: State)
    requires Inv(c, s)
    ensures |s.delivered| <= Written(s)
    ensures s.read == |s.wire| ==> |s.delivered| == Written(s)
  {
    hide Frame, Stream, Sized;
    var d, n := |s.delivered|, Written(s);
    assert |s.wire[..s.read]| == s.read;
    if d > n {
      StreamGrows(s.accepted, c.big, n, d);
    } else if d < n && s.read == |s.wire| {
      StreamGrows(s.accepted, c.big, d, n);
    }
  }

  lemma ReconnectedInv(c: Setup, s: State)
    requires Inv(c, s)
    ensures Inv(c, Reconnected(s))
  {
    hide Frame, Sized, Stream, ReceiverInv;
    var s', n := Reconnected(s), Written(s);
    assert forall i :: 0 <= i < |s'.accepted| ==> s'.accepted[i] == s.accepted[n + i];
    NothingYet(c, s');
    var k := |s'.accepted| - |s'.queue|;
    assert s'.accepted[k..] == s.accepted[n + k..];
    assert Written(s') == 0;
  }

  lemma NothingYet(c: Setup, s: State)
    requires s.wire == [] && s.read == 0 && s.receiver == Header([]) && s.delivered == []
    ensures ReceiverInv(c, s) && Stream(s.accepted[..0], c.big) == []
  {
  }

  /** Over earlier connections nothing was delivered that was not sent, nor in another order; without losses all was. */
  ghost predicate LinkInv(c: Setup, l: Link) {
    Inv(c, l.flow) && Subsequence(l.got, l.sent) && (!c.losses ==> l.got == l.sent)
  }

  lemma EventKeepsInv(c: Setup, l: Link, e: Event)
    requires OnTime(c) && LinkInv(c, l) && MayHappen(c, l, e)
    ensures LinkInv(c, Happens(c, l, e))
  {
    hide Inv, Enabled, Apply, Subsequence, Reconnected;
    match e {
      case Step(a) => StepKeepsInv(c, l.flow, a);
      case Lose =>
        ReconnectedInv(c, l.flow);
        DeliveredIsPrefix(c, l.flow);
        DeliveredWritten(c, l.flow);
        PrefixIsSubsequence(l.flow.delivered, l.flow.accepted[..Written(l.flow)]);
        SubsequenceAppend(l.got, l.sent, l.flow.delivered, l.flow.accepted[..Written(l.flow)]);
    }
  }

  lemma DeliveredIsPrefix(c: Setup, s: State)
    requires Inv(c, s)
    ensures s.delivered <= s.accepted && |s.queue| <= c.capacity
  {
  }

  lemma {:induction false} LinkKeepsInv(c: Setup, l: Link, run: seq<Event>, l': Link)
    requires OnTime(c) && LinkInv(c, l) && Leads(c, l, run, l')
    ensures LinkInv(c, l')
    decreases |run|
  {
    hide LinkInv, MayHappen, Happens;
    if run != [] {
      EventKeepsInv(c, l, run[0]);
      LinkKeepsInv(c, Happens(c, l, run[0]), run[1..], l');
    }
  }

  lemma FirstInv(c: Setup)
    ensures LinkInv(c, FIRST)
  {
    PrefixIsSubsequence([], []);
  }

  /** Over any number of connections: nothing is delivered twice, changed or out of order, and without losses nothing is missing. */
  lemma LinkFifo(c: Setup, run: seq<Event>, l: Link)
    requires OnTime(c) && Leads(c, FIRST, run, l)
    ensures Subsequence(Delivered(l), Accepted(l))
    ensures !c.losses ==> Delivered(l) <= Accepted(l)
  {
    hide Inv, Subsequence;
    FirstInv(c);
    LinkKeepsInv(c, FIRST, run, l);
    DeliveredIsPrefix(c, l.flow);
    PrefixIsSubsequence(l.flow.delivered, l.flow.accepted);
    SubsequenceAppend(l.got, l.sent, l.flow.delivered, l.flow.accepted);
  }

  // ---------------------------------------------------------------------------
  // What breaks the order
  // ---------------------------------------------------------------------------

  ghost predicate AlwaysFifo(c: Setup) {
    forall run, l :: Leads(c, FIRST, run, l) ==> Delivered(l) <= Accepted(l)
  }

  ghost predicate AlwaysSubsequence(c: Setup) {
    forall run, l :: Leads(c, FIRST, run, l) ==> Subsequence(Delivered(l), Accepted(l))
  }

  function Steps(run: seq<Action>): (events: seq<Event>)
    ensures |events| == |run|
  {
    seq(|run|, k requires 0 <= k < |run| => Step(run[k]))
  }

  /** A run over one connection. */
  lemma {:induction false} StepsLead(c: Setup, s: State, run: seq<Action>, s': State, l: Link)
    requires Reaches(c, s, run, s') && l.flow == s
    ensures Leads(c, l, Steps(run), l.(flow := s'))
    decreases |run|
  {
    hide Enabled, Apply;
    if run != [] {
      StepsLead(c, Apply(c, s, run[0]), run[1..], s', l.(flow := Apply(c, s, run[0])));
      assert Steps(run)[1..] == Steps(run[1..]);
    }
  }

  /** WriteMsg starts the frame again behind the part that was sent: here behind the whole size. */
  function RestartRun(msg: Msg): seq<Action> {
    [Enqueue(msg), Dequeue, Send(8), SendTimeout, Send(8), Recv(8), Recv(8)]
  }

  lemma StepThenRest(c: Setup, s: State, run: seq<Action>, k: nat, s': State)
    requires k < |run| && Enabled(c, s, run[k]) && Reaches(c, Apply(c, s, run[k]), run[k + 1..], s')
    ensures Reaches(c, s, run[k..], s')
  {
    assert run[k..][1..] == run[k + 1..];
  }

  lemma HalfWay(c: Setup, msg: Msg, header: seq<byte>)
    requires c.capacity > 0 && |msg| == 8 && header == EncodeUInt(8, 8, c.big)
    ensures var s := State([], Sending(msg, 0), [], 0, Header([]), [msg], []);
      && Enabled(c, START, Enqueue(msg)) && Enabled(c, Apply(c, START, Enqueue(msg)), Dequeue)
      && Apply(c, Apply(c, START, Enqueue(msg)), Dequeue) == s
      && Enabled(c, s, Send(8))
      && Apply(c, s, Send(8)) == State([], Sending(msg, 8), header, 0, Header([]), [msg], [])
  {
    hide EncodeUInt;
    assert Frame(msg, c.big)[0..8] == header;
    assert [] + header == header;
  }

  lemma SecondHalf(c: Setup, msg: Msg, header: seq<byte>, s: State)
    requires c.sendInFrame && |msg| == 8 && header == EncodeUInt(8, 8, c.big)
    requires s == State([], Sending(msg, 0), header, 0, Header([]), [msg], [])
    ensures var s1 := State([], Sending(msg, 8), header + header, 0, Header([]), [msg], []);
      var s2 := State([], Sending(msg, 8), header + header, 8, Body(8, []), [msg], []);
      && Enabled(c, s, Send(8)) && Apply(c, s, Send(8)) == s1
      && Enabled(c, s1, Recv(8)) && Apply(c, s1, Recv(8)) == s2
      && Enabled(c, s2, Recv(8))
      && Apply(c, s2, Recv(8)) == State([], Sending(msg, 8), header + header, 16, Header([]), [msg], [header])
  {
    hide EncodeUInt, UInt, Wrap32;
    FrameHeader(msg, c.big);
    assert Frame(msg, c.big)[0..8] == header;
    assert (header + header)[0..8] == header && (header + header)[8..16] == header;
    assert [] + header == header;
  }

  lemma Restarted(c: Setup, msg: Msg) returns (s: State)
    requires c.sendInFrame && c.capacity > 0 && |msg| == 8
    ensures Reaches(c, START, RestartRun(msg), s)
    ensures s.accepted == [msg] && s.delivered == [EncodeUInt(8, 8, c.big)]
  {
    hide EncodeUInt, Enabled, Apply;
    var h, run := EncodeUInt(8, 8, c.big), RestartRun(msg);
    HalfWay(c, msg, h);
    var s2 := State([], Sending(msg, 0), [], 0, Header([]), [msg], []);
    var s3 := State([], Sending(msg, 8), h, 0, Header([]), [msg], []);
    var s4 := State([], Sending(msg, 0), h, 0, Header([]), [msg], []);
    TimeOut(c, s3);
    SecondHalf(c, msg, h, s4);
    var s5 := State([], Sending(msg, 8), h + h, 0, Header([]), [msg], []);
    var s6 := State([], Sending(msg, 8), h + h, 8, Body(8, []), [msg], []);
    s := State([], Sending(msg, 8), h + h, 16, Header([]), [msg], [h]);
    StepThenRest(c, s6, run, 6, s);
    StepThenRest(c, s5, run, 5, s);
    StepThenRest(c, s4, run, 4, s);
    StepThenRest(c, s3, run, 3, s);
    StepThenRest(c, s2, run, 2, s);
    StepThenRest(c, Apply(c, START, Enqueue(msg)), run, 1, s);
    StepThenRest(c, START, run, 0, s);
    assert run[0..] == run;
  }

  lemma TimeOut(c: Setup, s: State)
    requires c.sendInFrame && s.sender.Sending?
    ensures Enabled(c, s, SendTimeout) && Apply(c, s, SendTimeout) == s.(sender := Sending(s.sender.msg, 0))
  {
  }

  /** A receiver that gave up behind the size takes the data for the next size: here 0. */
  function MisreadRun(msg: Msg): seq<Action> {
    [Enqueue(msg), Dequeue, Send(8), Send(8), Recv(8), RecvTimeout, Recv(8)]
  }

  /** The eight bytes of 0. */
  const NULLS: Msg := [0, 0, 0, 0, 0, 0, 0, 0]

  lemma NullsAre0(big: bool)
    ensures Wrap32(UInt(NULLS, big)) == 0
  {
    ZerosAre0(NULLS);
  }

  lemma {:induction false} ZerosAre0(bs: seq<byte>)
    requires forall i :: 0 <= i < |bs| ==> bs[i] == 0
    ensures BigEndian(bs) == LittleEndian(bs) == 0
  {
    if bs != [] {
      ZerosAre0(bs[1..]);
      ZerosAre0(bs[..|bs| - 1]);
    }
  }

  lemma AllSent(c: Setup, header: seq<byte>)
    requires c.capacity > 0 && header == EncodeUInt(8, 8, c.big)
    ensures var s1 := State([], Sending(NULLS, 8), header, 0, Header([]), [NULLS], []);
      && Enabled(c, s1, Send(8))
      && Apply(c, s1, Send(8)) == State([], Idle, header + NULLS, 0, Header([]), [NULLS], [])
  {
    hide EncodeUInt;
    assert Frame(NULLS, c.big)[8..16] == NULLS;
  }

  lemma ReadTwice(c: Setup, header: seq<byte>)
    requires c.recvInFrame && header == EncodeUInt(8, 8, c.big)
    ensures var w := header + NULLS;
      var s2 := State([], Idle, w, 0, Header([]), [NULLS], []);
      var s3 := State([], Idle, w, 8, Body(8, []), [NULLS], []);
      var s4 := State([], Idle, w, 8, Header([]), [NULLS], []);
      && Enabled(c, s2, Recv(8)) && Apply(c, s2, Recv(8)) == s3
      && Enabled(c, s3, RecvTimeout) && Apply(c, s3, RecvTimeout) == s4
      && Enabled(c, s4, Recv(8)) && Apply(c, s4, Recv(8)) == State([], Idle, w, 16, Header([]), [NULLS], [[]])
  {
    hide EncodeUInt, UInt, Wrap32;
    FrameHeader(NULLS, c.big);
    NullsAre0(c.big);
    assert (header + NULLS)[0..8] == header && (header + NULLS)[8..16] == NULLS;
    assert [] + header == header && [] + NULLS == NULLS;
  }

  lemma Misread(c: Setup) returns (s: State)
    requires c.recvInFrame && c.capacity > 0
    ensures Reaches(c, START, MisreadRun(NULLS), s)
    ensures s.accepted == [NULLS] && s.delivered == [[]]
  {
    hide EncodeUInt, Enabled, Apply;
    var h, run := EncodeUInt(8, 8, c.big), MisreadRun(NULLS);
    HalfWay(c, NULLS, h);
    AllSent(c, h);
    ReadTwice(c, h);
    var s1 := State([], Sending(NULLS, 0), [], 0, Header([]), [NULLS], []);
    var s2 := State([], Sending(NULLS, 8), h, 0, Header([]), [NULLS], []);
    var s3 := State([], Idle, h + NULLS, 0, Header([]), [NULLS], []);
    var s4 := State([], Idle, h + NULLS, 8, Body(8, []), [NULLS], []);
    var s5 := State([], Idle, h + NULLS, 8, Header([]), [NULLS], []);
    s := State([], Idle, h + NULLS, 16, Header([]), [NULLS], [[]]);
    StepThenRest(c, s5, run, 6, s);
    StepThenRest(c, s4, run, 5, s);
    StepThenRest(c, s3, run, 4, s);
    StepThenRest(c, s2, run, 3, s);
    StepThenRest(c, s1, run, 2, s);
    StepThenRest(c, Apply(c, START, Enqueue(NULLS)), run, 1, s);
    StepThenRest(c, START, run, 0, s);
    assert run[0..] == run;
  }

  lemma {:induction false} LeadsOn(c: Setup, l: Link, a: seq<Event>, l1: Link, b: seq<Event>, l2: Link)
    requires Leads(c, l, a, l1) && Leads(c, l1, b, l2)
    ensures Leads(c, l, a + b, l2)
    decreases |a|
  {
    hide MayHappen, Happens;
    if a == [] {
      assert a + b == b;
    } else {
      assert (a + b)[1..] == a[1..] + b;
      LeadsOn(c, Happens(c, l, a[0]), a[1..], l1, b, l2);
    }
  }

  /** One message over a connection that has not been used. */
  lemma WriteOne(c: Setup, msg: Msg) returns (run: seq<Action>, s: State)
    requires c.capacity > 0 && |msg| <= 1
    ensures Reaches(c, START, run, s)
    ensures s == State([], Idle, Frame(msg, c.big), 0, Header([]), [msg], [])
    ensures run == [Enqueue(msg), Dequeue, Send(8)] + if msg == [] then [] else [Send(1)]
  {
    hide Frame, Enabled, Apply;
    var f := Frame(msg, c.big);
    WriteSteps(c, msg);
    var s1, s2 := Apply(c, START, Enqueue(msg)), State([], Sending(msg, 0), [], 0, Header([]), [msg], []);
    var s3 := State([], Sending(msg, 8), f[..8], 0, Header([]), [msg], []);
    s := State([], Idle, f, 0, Header([]), [msg], []);
    run := [Enqueue(msg), Dequeue, Send(8)] + if msg == [] then [] else [Send(1)];
    if msg != [] {
      StepThenRest(c, s3, run, 3, s);
      StepThenRest(c, s2, run, 2, s);
    } else {
      StepThenRest(c, s2, run, 2, s);
    }
    StepThenRest(c, s1, run, 1, s);
    StepThenRest(c, START, run, 0, s);
    assert run[0..] == run;
  }

  lemma WriteSteps(c: Setup, msg: Msg)
    requires c.capacity > 0 && |msg| <= 1
    ensures var f := Frame(msg, c.big);
      var s1, s2 := Apply(c, START, Enqueue(msg)), State([], Sending(msg, 0), [], 0, Header([]), [msg], []);
      var s3 := State([], Sending(msg, 8), f[..8], 0, Header([]), [msg], []);
      var s := State([], Idle, f, 0, Header([]), [msg], []);
      && Enabled(c, START, Enqueue(msg)) && Enabled(c, s1, Dequeue) && Apply(c, s1, Dequeue) == s2
      && Enabled(c, s2, Send(8)) && Apply(c, s2, Send(8)) == (if msg == [] then s else s3)
      && (msg != [] ==> Enabled(c, s3, Send(1)) && Apply(c, s3, Send(1)) == s)
  {
    hide Frame;
    var f := Frame(msg, c.big);
    assert [] + f[0..8] == f[..8] && (|f| == 8 ==> f[..8] == f) && (|f| == 9 ==> f[..8] + f[8..9] == f);
  }

  /** And its delivery. */
  lemma ReadOne(c: Setup, msg: Msg) returns (s: State)
    requires |msg| == 1
    ensures Reaches(c, State([], Idle, Frame(msg, c.big), 0, Header([]), [msg], []), [Recv(8), Recv(1)], s)
    ensures s == State([], Idle, Frame(msg, c.big), 9, Header([]), [msg], [msg])
  {
    hide Frame, UInt, Wrap32, EncodeUInt;
    var f, run := Frame(msg, c.big), [Recv(8), Recv(1)];
    FrameHeader(msg, c.big);
    assert f[0..8] == f[..8] && f[8..9] == f[8..];
    assert [] + f[..8] == f[..8] && [] + msg == msg;
    var s0 := State([], Idle, f, 0, Header([]), [msg], []);
    var s1 := State([], Idle, f, 8, Body(1, []), [msg], []);
    s := State([], Idle, f, 9, Header([]), [msg], [msg]);
    assert Enabled(c, s0, Recv(8)) && Apply(c, s0, Recv(8)) == s1;
    assert Enabled(c, s1, Recv(1)) && Apply(c, s1, Recv(1)) == s;
    assert run[1..] == [Recv(1)] && run[1..][1..] == [];
  }

  /** An empty message is written and lost, and the next one arrives. */
  lemma Lost(c: Setup) returns (run: seq<Event>, l: Link)
    requires c.losses && c.capacity > 0
    ensures Leads(c, FIRST, run, l) && Accepted(l) == [[], [1]] && Delivered(l) == [[1]]
  {
    hide Frame, Reaches;
    var a, s1 := WriteOne(c, []);
    StepsLead(c, START, a, s1, FIRST);
    var l1 := FIRST.(flow := s1);
    var l2 := Link(START, [[]], []);
    assert s1.accepted[..1] == [[]] && s1.accepted[1..] == [];
    assert MayHappen(c, l1, Lose) && Happens(c, l1, Lose) == l2;
    var b, s2 := WriteOne(c, [1]);
    StepsLead(c, START, b, s2, l2);
    var s3 := ReadOne(c, [1]);
    StepsLead(c, s2, [Recv(8), Recv(1)], s3, l2.(flow := s2));
    l := l2.(flow := s3);
    LeadsOn(c, l2, Steps(b), l2.(flow := s2), Steps([Recv(8), Recv(1)]), l);
    var tail := Steps(b) + Steps([Recv(8), Recv(1)]);
    assert ([Lose] + tail)[1..] == tail;
    assert Leads(c, l1, [Lose] + tail, l);
    LeadsOn(c, FIRST, Steps(a), l1, [Lose] + tail, l);
    run := Steps(a) + ([Lose] + tail);
  }

  /** A ring without room accepts nothing. */
  ghost predicate Nothing(l: Link) {
    && l.flow.queue == [] && l.flow.sender.Idle? && l.flow.wire == [] && l.flow.read == 0
    && Delivered(l) == []
  }

  lemma {:induction false} NothingSent(c: Setup, l: Link, run: seq<Event>, l': Link)
    requires c.capacity == 0 && Nothing(l) && Leads(c, l, run, l')
    ensures Nothing(l')
    decreases |run|
  {
    if run != [] {
      NothingSent(c, Happens(c, l, run[0]), run[1..], l');
    }
  }

  /** A run over one connection that ends with a single message and something else delivered. */
  lemma WrongMessage(c: Setup, run: seq<Action>, s: State, msg: Msg, other: Msg)
    requires Reaches(c, START, run, s) && s.accepted == [msg] && s.delivered == [other] && msg != other
    ensures !AlwaysFifo(c) && !AlwaysSubsequence(c)
  {
    hide Reaches;
    StepsLead(c, START, run, s, FIRST);
    var l := FIRST.(flow := s);
    assert Delivered(l) == [other] && Accepted(l) == [msg];
    assert Delivered(l)[0] != Accepted(l)[0];
  }

  lemma InFrameBreaks(c: Setup)
    requires !OnTime(c) && c.capacity > 0
    ensures !AlwaysFifo(c) && !AlwaysSubsequence(c)
  {
    hide AlwaysFifo, AlwaysSubsequence;
    if c.sendInFrame {
      var msg: Msg := [1, 1, 1, 1, 1, 1, 1, 1];
      var s := Restarted(c, msg);
      HeaderOf8(c.big);
      assert s.delivered[0][if c.big then 7 else 0] != msg[if c.big then 7 else 0];
      WrongMessage(c, RestartRun(msg), s, msg, s.delivered[0]);
    } else {
      var s := Misread(c);
      WrongMessage(c, MisreadRun(NULLS), s, NULLS, []);
    }
  }

  lemma HeaderOf8(big: bool)
    ensures EncodeUInt(8, 8, big)[if big then 7 else 0] == 8
  {
  }

  /**
   * What is delivered is what was accepted with messages missing at most, in all runs, exactly when time
   * never runs out inside a frame at either end.
   */
  lemma SubsequenceIff(c: Setup)
    ensures AlwaysSubsequence(c) <==> OnTime(c) || c.capacity == 0
  {
    hide Subsequence;
    if OnTime(c) {
      forall run, l | Leads(c, FIRST, run, l)
        ensures Subsequence(Delivered(l), Accepted(l))
      {
        LinkFifo(c, run, l);
      }
    } else if c.capacity == 0 {
      forall run, l | Leads(c, FIRST, run, l)
        ensures Subsequence(Delivered(l), Accepted(l))
      {
        NothingSent(c, FIRST, run, l);
        PrefixIsSubsequence(Delivered(l), Accepted(l));
      }
    } else {
      InFrameBreaks(c);
    }
  }

  /** And none are missing in front of one that is delivered exactly when moreover nothing unread is lost. */
  lemma FifoIff(c: Setup)
    ensures AlwaysFifo(c) <==> (OnTime(c) && !c.losses) || c.capacity == 0
  {
    if OnTime(c) && !c.losses {
      forall run, l | Leads(c, FIRST, run, l)
        ensures Delivered(l) <= Accepted(l)
      {
        LinkFifo(c, run, l);
      }
    } else if c.capacity == 0 {
      forall run, l | Leads(c, FIRST, run, l)
        ensures Delivered(l) <= Accepted(l)
      {
        NothingSent(c, FIRST, run, l);
      }
    } else if OnTime(c) {
      var run, l := Lost(c);
      assert Delivered(l)[0] != Accepted(l)[0];
    } else {
      InFrameBreaks(c);
    }
  }
}
