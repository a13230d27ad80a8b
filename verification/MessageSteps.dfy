// The code that runs at both ends makes the steps of MessageFlow: each call on the ring or on a socket,
// however it ends, takes a state of the flow to another that agrees with the ring and the socket.
module MessageSteps {
  import opened Words
  import opened Readers
  import opened Channel
  import opened MessageFlow
  import Q = MessageQueue

  /** The ring holds the queue of the flow. */
  ghost predicate OnRing(q: Q.MtQueue<Msg>, c: Setup, s: State)
    reads q, q.ring
  {
    q.Valid() && !q.locked && q.cElements == c.capacity + 1 && q.Contents() == s.queue
  }

  /** SendData: one try of a producer's call; without memory nothing happens. */
  method Produce(q: Q.MtQueue<Msg>, msg: Msg, memory: bool, ghost c: Setup, ghost s: State)
    returns (code: Q.Code, ghost s': State)
    requires OnRing(q, c, s) && Sized(msg)
    modifies q, q.ring
    ensures OnRing(q, c, s') && s' == if code == Q.MemError then s else Apply(c, s, Enqueue(msg))
    ensures s'.accepted == if code == Q.None_ then s.accepted + [msg] else s.accepted
  {
    q.FullIff();
    ghost var seen;
    code, seen := q.Enqueue(msg, 1, memory);
    s' := if code == Q.MemError then s else Apply(c, s, Enqueue(msg));
  }

  /** DriveSendLoop: one try at the next message. */
  method Consume(q: Q.MtQueue<Msg>, ghost c: Setup, ghost s: State)
    returns (code: Q.Code, msg: Option<Msg>, ghost s': State)
    requires OnRing(q, c, s) && s.sender.Idle?
    modifies q, q.ring
    ensures OnRing(q, c, s')
    ensures if s.queue == [] then code == Q.Empty && msg == None && s' == s
            else code == Q.None_ && msg.Some? && s' == Apply(c, s, Dequeue) && s'.sender == Sending(msg.value, 0)
  {
    ghost var seen;
    code, msg, seen := q.Dequeue(1);
    s' := s;
    if code == Q.None_ {
      FrontOf(msg.value, q.Contents(), s.queue);
      s' := Apply(c, s, Dequeue);
    }
  }

  lemma FrontOf(msg: Msg, rest: seq<Msg>, whole: seq<Msg>)
    requires [msg] + rest == whole
    ensures whole != [] && whole[0] == msg && whole[1..] == rest
  {
  }

  /** writeMsgLoop: what was written of the frame, in two steps at most. */
  method Transmit(socket: Socket, msg: Msg, ghost c: Setup, big: bool, ghost s: State)
    returns (ec: Code, ghost run: seq<Action>, ghost s': State)
    requires Sized(msg) && s.sender == Sending(msg, 0) && c.big == big && socket.sent == s.wire
    modifies socket
    ensures Reaches(c, s, run, s') && socket.sent == s'.wire
    ensures ec == None_ <==> s'.sender.Idle?
  {
    ghost var n;
    ec, n := WriteMsgLoop(socket, msg, big);
    run, s' := SendRun(c, s, msg, n);
  }

  lemma SendRun(c: Setup, s: State, msg: Msg, n: nat) returns (run: seq<Action>, s': State)
    requires s.sender == Sending(msg, 0) && n <= 8 + |msg|
    ensures Reaches(c, s, run, s') && s'.wire == s.wire + Frame(msg, c.big)[..n]
    ensures s'.sender == if n == 8 + |msg| then Idle else Sending(msg, n)
  {
    hide Frame;
    var f := Frame(msg, c.big);
    if n == 0 {
      run, s' := [], s;
    } else if n <= 8 {
      s' := Apply(c, s, Send(n));
      OneAction(c, s, Send(n));
      run := [Send(n)];
      assert f[0..n] == f[..n];
    } else {
      var s1 := Apply(c, s, Send(8));
      s' := Apply(c, s1, Send(n - 8));
      OneAction(c, s1, Send(n - 8));
      run := [Send(8)] + [Send(n - 8)];
      FirstAction(c, s, Send(8), [Send(n - 8)], s');
      assert f[0..8] + f[8..n] == f[..n];
    }
  }

  lemma OneAction(c: Setup, s: State, a: Action)
    requires Enabled(c, s, a)
    ensures Reaches(c, s, [a], Apply(c, s, a))
  {
    hide Enabled, Apply;
    assert [a][1..] == [];
  }

  lemma FirstAction(c: Setup, s: State, a: Action, run: seq<Action>, s': State)
    requires Enabled(c, s, a) && Reaches(c, Apply(c, s, a), run, s')
    ensures Reaches(c, s, [a] + run, s')
  {
    hide Enabled, Apply;
    assert ([a] + run)[1..] == run;
  }

  /**
   * readMsgLoop: what was taken off the stream, in two steps at most; a whole frame is delivered. Without
   * memory for the frame the connection, and this flow with it, comes to its end.
   */
  method TakeMessage(socket: Socket, memory: nat, ghost c: Setup, big: bool, ghost s: State)
    returns (ec: Code, msg: Msg, ghost run: seq<Action>, ghost s': State)
    requires s.receiver == Header([]) && c.big == big && s.read <= |s.wire| && socket.incoming == s.wire[s.read..]
    modifies socket
    ensures ec != Memory ==>
      && Reaches(c, s, run, s') && s'.read <= |s'.wire| && socket.incoming == s'.wire[s'.read..]
      && s'.delivered == if ec == None_ then s.delivered + [msg] else s.delivered
    ensures ec == None_ ==> s'.receiver == Header([])
  {
    ghost var taken;
    ec, msg, taken := ReadMsgLoop(socket, big, memory);
    TakenFront(s.wire[s.read..], taken, socket.incoming);
    run, s' := [], s;
    if ec != Memory {
      run, s' := RecvRun(c, s, taken);
    }
  }

  lemma TakenFront(stream: seq<byte>, taken: seq<byte>, rest: seq<byte>)
    requires taken + rest == stream
    ensures |taken| <= |stream| && taken == stream[..|taken|] && rest == stream[|taken|..]
  {
  }

  lemma NothingFirst(s: seq<byte>)
    ensures [] + s == s
  {
  }

  lemma WholeHeader(s: seq<byte>)
    ensures [] + s == s && (|s| == 8 ==> s[..8] == s && s[8..] == [])
  {
    NothingFirst(s);
  }

  lemma SlicesOf(wire: seq<byte>, at: nat, k: nat, n: nat)
    requires k <= n && at + n <= |wire|
    ensures wire[at..at + n][..k] == wire[at..at + k] && wire[at..at + n][k..] == wire[at + k..at + n]
  {
    var whole := wire[at..at + n];
    assert |whole[..k]| == |wire[at..at + k]| && |whole[k..]| == |wire[at + k..at + n]|;
    assert whole[..k] == wire[at..at + k];
    assert whole[k..] == wire[at + k..at + n];
  }

  lemma RecvRun(c: Setup, s: State, taken: seq<byte>) returns (run: seq<Action>, s': State)
    requires s.receiver == Header([]) && s.read + |taken| <= |s.wire| && taken == s.wire[s.read..s.read + |taken|]
    requires |taken| > 8 ==> |taken| <= 8 + Wrap32(UInt(taken[..8], c.big))
    ensures Reaches(c, s, run, s') && s'.wire == s.wire && s'.read == s.read + |taken|
    ensures |taken| >= 8 && |taken| == 8 + Wrap32(UInt(taken[..8], c.big)) ==>
      s'.delivered == s.delivered + [taken[8..]] && s'.receiver == Header([])
    ensures |taken| < 8 || |taken| < 8 + Wrap32(UInt(taken[..8], c.big)) ==> s'.delivered == s.delivered
  {
    hide UInt, Wrap32;
    var n := |taken|;
    if n == 0 {
      run, s' := [], s;
    } else if n <= 8 {
      WholeHeader(taken);
      s' := Apply(c, s, Recv(n));
      OneAction(c, s, Recv(n));
      run := [Recv(n)];
    } else {
      var header, body := taken[..8], taken[8..];
      SlicesOf(s.wire, s.read, 8, n);
      WholeHeader(header);
      var s1 := Apply(c, s, Recv(8));
      assert s1.receiver == Body(Wrap32(UInt(header, c.big)), []);
      NothingFirst(body);
      s' := Apply(c, s1, Recv(n - 8));
      OneAction(c, s1, Recv(n - 8));
      run := [Recv(8)] + [Recv(n - 8)];
      FirstAction(c, s, Recv(8), [Recv(n - 8)], s');
    }
  }
}
