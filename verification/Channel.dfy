// Messages on a byte stream: a size of eight bytes, then that many bytes, in pieces of any length.
module Channel {
  import opened Words
  import opened Readers

  datatype Code = None_ | Timeout | Network | Memory

  /** What send or recv does when it is called: moves some bytes, would block, or fails. */
  datatype Call = Moves(n: nat) | WouldBlock(expired: bool) | Fails

  /** A message is at most as long as an unsigned int can say. */
  predicate Sized(msg: seq<byte>) {
    |msg| < U32
  }

  /** A message as it is sent; big is the byte order of the sender. */
  function Frame(msg: seq<byte>, big: bool): (f: seq<byte>)
    ensures |f| == 8 + |msg|
  {
    EncodeUInt(|msg|, 8, big) + msg
  }

  lemma Pow256Of8()
    ensures Pow256(8) > U32
  {
    assert Pow256(4) == U32;
    assert Pow256(5) == 256 * U32;
  }

  lemma FrameHeader(msg: seq<byte>, big: bool)
    requires Sized(msg)
    ensures Frame(msg, big)[..8] == EncodeUInt(|msg|, 8, big) && UInt(EncodeUInt(|msg|, 8, big), big) == |msg|
    ensures Wrap32(|msg|) == |msg|
    ensures Frame(msg, big)[8..] == msg
  {
    Pow256Of8();
    UIntRoundTrip(|msg|, 8, big);
  }

  /** One end of a connection: the bytes sent, the bytes to come, and how the next calls will behave. */
  class Socket {
    var sent: seq<byte>
    var incoming: seq<byte>
    var calls: seq<Call>

    constructor (incoming: seq<byte>, calls: seq<Call>)
      ensures this.incoming == incoming && this.calls == calls && sent == []
    {
      this.incoming, this.calls, sent := incoming, calls, [];
    }

    /** The call that comes next; a connection that nothing more is known of has failed. */
    method NextCall() returns (c: Call)
      modifies `calls
      ensures old(calls) != [] ==> |calls| < |old(calls)|
      ensures old(calls) == [] ==> c == Fails && calls == []
      ensures c.Fails? || |calls| < |old(calls)|
    {
      if calls == [] {
        return Fails;
      }
      c := calls[0];
      calls := calls[1..];
    }

    /** send, of at least one byte. */
    method Send(bytes: seq<byte>) returns (n: nat, code: Call)
      requires bytes != []
      modifies `calls, `sent
      ensures n <= |bytes| && sent == old(sent) + bytes[..n]
      ensures n == 0 ==> !code.Moves?
      ensures n > 0 || !code.Fails? ==> |calls| < |old(calls)|
    {
      code := NextCall();
      n := 0;
      if code.Moves? {
        n := if code.n > |bytes| then |bytes| else if code.n == 0 then 1 else code.n;
      }
      sent := sent + bytes[..n];
    }

    /** recv, of at most max bytes. */
    method Recv(max: nat) returns (bytes: seq<byte>, code: Call)
      requires max > 0
      modifies `calls, `incoming
      ensures |bytes| <= max && bytes + incoming == old(incoming)
      ensures bytes == [] ==> !code.Moves?
      ensures bytes != [] || !code.Fails? ==> |calls| < |old(calls)|
    {
      code := NextCall();
      var n := 0;
      if code.Moves? {
        if incoming == [] {
          code := WouldBlock(false);
        } else {
          n := if code.n == 0 then 1 else code.n;
          n := if n > max then max else n;
          n := if n > |incoming| then |incoming| else n;
        }
      }
      bytes := incoming[..n];
      incoming := incoming[n..];
    }
  }

  /** writeMsgTimeout: all of the bytes, or a part of them and an error. */
  method WriteAll(s: Socket, bytes: seq<byte>) returns (ec: Code, ghost n: nat)
    modifies s
    ensures n <= |bytes| && s.sent == old(s.sent) + bytes[..n] && s.incoming == old(s.incoming)
    ensures ec != Memory && (ec == None_ <==> n == |bytes|)
  {
    var written := 0;
    n := 0;
    while written < |bytes|
      invariant n == written <= |bytes| && s.sent == old(s.sent) + bytes[..n] && s.incoming == old(s.incoming)
      decreases |s.calls|
    {
      var k, call := s.Send(bytes[written..]);
      if k == 0 {
        if call.Fails? {
          return Network, n;
        }
        if call.expired {
          return Timeout, n;
        }
      } else {
        assert bytes[..written + k] == bytes[..written] + bytes[written..][..k];
        written := written + k;
        n := written;
      }
    }
    assert bytes[..n] == bytes;
    ec := None_;
  }

  /** readMsgTimeout: size bytes, or fewer and an error. */
  method ReadAll(s: Socket, size: nat) returns (ec: Code, bytes: seq<byte>)
    modifies s
    ensures |bytes| <= size && bytes + s.incoming == old(s.incoming) && s.sent == old(s.sent)
    ensures ec != Memory && (ec == None_ <==> |bytes| == size)
  {
    bytes := [];
    while |bytes| < size
      invariant |bytes| <= size && bytes + s.incoming == old(s.incoming) && s.sent == old(s.sent)
      decreases |s.calls|
    {
      var more, call := s.Recv(size - |bytes|);
      if more == [] {
        if call.Fails? {
          return Network, bytes;
        }
        if call.expired {
          return Timeout, bytes;
        }
      } else {
        bytes := bytes + more;
      }
    }
    ec := None_;
  }

  /** writeMsgLoop on a connected socket; a reconnection after a failure is not followed. */
  method WriteMsgLoop(s: Socket, msg: seq<byte>, big: bool) returns (ec: Code, ghost n: nat)
    requires Sized(msg)
    modifies s
    ensures n <= |Frame(msg, big)| && s.sent == old(s.sent) + Frame(msg, big)[..n] && s.incoming == old(s.incoming)
    ensures ec != Memory && (ec == None_ <==> n == |Frame(msg, big)|)
  {
    ghost var f := Frame(msg, big);
    FrameHeader(msg, big);
    ec, n := WriteAll(s, EncodeUInt(|msg|, 8, big));
    assert f[..n] == EncodeUInt(|msg|, 8, big)[..n];
    if ec != None_ {
      return;
    }
    ghost var k;
    ec, k := WriteAll(s, msg);
    assert f[..8 + k] == EncodeUInt(|msg|, 8, big) + msg[..k];
    n := n + k;
  }

  /**
   * readMsgLoop on a connected socket: what it took off the stream, and the message when that is complete.
   * my_malloc gives at most memory bytes; the size that is read is cut to an unsigned int.
   */
  method ReadMsgLoop(s: Socket, big: bool, memory: nat) returns (ec: Code, msg: seq<byte>, ghost taken: seq<byte>)
    modifies s
    ensures taken + s.incoming == old(s.incoming) && s.sent == old(s.sent)
    ensures ec == None_ ==> |taken| == 8 + |msg| && Wrap32(UInt(taken[..8], big)) == |msg| && taken[8..] == msg
    ensures ec == Memory <==> |taken| == 8 && UInt(taken, big) > memory
    ensures ec == Timeout || ec == Network ==> |taken| < 8 || |taken| < 8 + Wrap32(UInt(taken[..8], big))
  {
    var header, body;
    ec, header := ReadAll(s, 8);
    msg, taken := [], header;
    if ec != None_ {
      return;
    }
    if UInt(header, big) > memory {
      return Memory, [], header;
    }
    ec, body := ReadAll(s, Wrap32(UInt(header, big)));
    taken := header + body;
    assert taken[..8] == header && taken[8..] == body;
    assert body == [] ==> taken == header;
    if ec == None_ {
      msg := body;
    }
  }

  /** A reader takes exactly the frame that a writer put in front of the stream, however both were cut up. */
  method ReadWritten(s: Socket, big: bool, memory: nat, ghost sent: seq<byte>, ghost rest: seq<byte>)
    returns (ec: Code, msg: seq<byte>)
    requires Sized(sent) && s.incoming == Frame(sent, big) + rest
    modifies s
    ensures ec == None_ ==> msg == sent && s.incoming == rest
    ensures ec != None_ ==> |s.incoming| > |rest|
  {
    ghost var taken;
    FrameHeader(sent, big);
    ghost var f := Frame(sent, big);
    ec, msg, taken := ReadMsgLoop(s, big, memory);
    if |taken| >= 8 {
      assert taken[..8] == (taken + s.incoming)[..8] == (f + rest)[..8] == f[..8];
    }
    if ec == None_ {
      assert taken == (taken + s.incoming)[..|f|] == (f + rest)[..|f|] == f;
      assert s.incoming == (taken + s.incoming)[|f|..] == (f + rest)[|f|..] == rest;
    }
  }

  /** The first n bytes of f for each n in turn. */
  function Pieces(f: seq<byte>, ns: seq<nat>): seq<byte> {
    if ns == [] then [] else
      var n := ns[|ns| - 1];
      Pieces(f, ns[..|ns| - 1]) + f[..if n <= |f| then n else |f|]
  }

  /**
   * WriteMsg: a try after a timeout starts from the first byte again, behind what earlier ones wrote.
   * Without any tries nothing is sent, and success is reported.
   */
  method WriteMsg(s: Socket, msg: seq<byte>, nRetries: int, big: bool) returns (ec: Code, ghost partial: seq<nat>)
    requires Sized(msg)
    modifies s
    ensures nRetries <= 0 ==> ec == None_ && s.sent == old(s.sent)
    ensures nRetries > 0 ==>
      && |partial| <= nRetries && (forall i :: 0 <= i < |partial| ==> partial[i] < |Frame(msg, big)|)
      && s.sent == old(s.sent) + Pieces(Frame(msg, big), partial) + if ec == None_ then Frame(msg, big) else []
  {
    hide Frame;
    ghost var f, start := Frame(msg, big), s.sent;
    ec, partial := None_, [];
    var i := 0;
    while i < nRetries
      invariant i > 0 ==> i <= nRetries && ec == Timeout
      invariant i == |partial| && (i == 0 ==> ec == None_)
      invariant s.sent == start + Pieces(f, partial)
      invariant forall i :: 0 <= i < |partial| ==> partial[i] < |f|
    {
      ghost var n;
      ec, n := WriteMsgLoop(s, msg, big);
      if ec == None_ {
        assert f[..n] == f;
        return;
      }
      MorePieces(start, f, partial, n);
      partial := partial + [n];
      if ec != Timeout {
        return;
      }
      i := i + 1;
    }
  }

  lemma MorePieces(start: seq<byte>, f: seq<byte>, ns: seq<nat>, n: nat)
    requires n <= |f|
    ensures start + Pieces(f, ns + [n]) == start + Pieces(f, ns) + f[..n]
  {
    hide Pieces;
    LastPiece(f, ns, n);
    Regrouped(start, Pieces(f, ns), f[..n]);
  }

  lemma LastPiece(f: seq<byte>, ns: seq<nat>, n: nat)
    requires n <= |f|
    ensures Pieces(f, ns + [n]) == Pieces(f, ns) + f[..n]
  {
    assert (ns + [n])[..|ns|] == ns;
  }

  lemma Regrouped(a: seq<byte>, b: seq<byte>, c: seq<byte>)
    ensures a + (b + c) == a + b + c
  {
  }
}
