/** `UTP::Socket` (utpsocket.h:7-53, utpsocket.cpp): the adapter state of one
    endpoint. Calls into the operating system and into the transport engine
    are replaced by parameters (their outcomes) and out-parameters (the
    descriptor or session they would close). */
module UtpSocket {
  import opened UtpTypes
  import Outbound
  import Inbound
  import StateFlags
  import AcceptQueue

  class Socket {
    var addressFamily: int
    var bound: bool
    var isWritable: bool
    var isClosed: bool
    /** The inbound allocation; only its first `insize` bytes are live. */
    var inbuffer: seq<byte>
    var insize: nat
    var outbuffer: seq<byte>
    var outsize: nat
    /** The datagram descriptor, -1 when there is none. */
    var udpSock: int
    var utpSock: Option<SessionId>
    /** Head of the pending-connection chain, linked through `next`. */
    var next: Socket?
    /** The chain starting at `next`, head first. */
    ghost var pending: seq<Socket>

    ghost predicate BuffersValid()
      reads this
    {
      insize <= |inbuffer| && outsize == |outbuffer| <= MaxBuffer
    }

    /** `pending` lists, head first, the sockets reached by following `next`
        from this one until null; none of them is this socket or repeated. */
    ghost predicate QueueValid()
      reads this, pending
    {
      this !in pending &&
      (forall i, j :: 0 <= i < j < |pending| ==> pending[i] != pending[j]) &&
      (if pending == [] then next == null
       else next == pending[0] && pending[|pending| - 1].next == null) &&
      (forall i :: 0 <= i < |pending| - 1 ==> pending[i].next == pending[i + 1])
    }

    ghost predicate Valid()
      reads this, pending
    {
      BuffersValid() && QueueValid()
    }

    /** The socket `accept` would take, as a frame: empty when none is pending. */
    function Head(): set<Socket>
      reads this
    {
      if next == null then {} else {next}
    }

    /** The bytes waiting to be received. */
    function Contents(): (c: seq<byte>)
      reads this
      requires BuffersValid()
      ensures |c| == insize
    {
      inbuffer[..insize]
    }

    /** `Socket(int af)`: no descriptor, no session, empty buffers. */
    constructor (af: int)
      ensures Valid()
      ensures addressFamily == af && !bound && !isWritable && !isClosed
      ensures udpSock == -1 && utpSock == None && next == null && pending == []
      ensures Contents() == [] && outbuffer == []
    {
      addressFamily := af;
      bound, isWritable, isClosed := false, false, false;
      udpSock := -1;
      utpSock := None;
      next := null;
      inbuffer, outbuffer := [], [];
      insize, outsize := 0, 0;
      pending := [];
    }

    /** `Socket(UTPSocket *s)`: sets the session and leaves every other
        field uninitialised, so nothing is known of them. */
    constructor FromSession(s: SessionId)
      ensures utpSock == Some(s)
    {
      utpSock := Some(s);
    }

    /** `~Socket`: the descriptor to close, only when this socket bound it,
        and the session to close, whenever there is one. */
    method Destroy() returns (closeFd: Option<int>, closeSession: Option<SessionId>)
      ensures closeFd.Some? <==> bound && udpSock != -1
      ensures closeFd.Some? ==> closeFd.value == udpSock
      ensures closeSession == utpSock
    {
      closeFd := if bound && udpSock != -1 then Some(udpSock) else None;
      closeSession := utpSock;
    }

    /** `bindsocket`: a no-op returning 0 once bound. Otherwise takes the
        descriptor `socket()` yields (`newFd`) when there is none, and binds
        it; on failure closes it, keeps its number and returns -1. */
    method BindSocket(newFd: int, bindOk: bool) returns (r: int, closedFd: Option<int>)
      modifies this`udpSock, this`bound
      ensures old(bound) ==> r == 0 && closedFd == None && bound && udpSock == old(udpSock)
      ensures !old(bound) ==> udpSock == (if old(udpSock) == -1 then newFd else old(udpSock))
      ensures !old(bound) ==> bound == bindOk && r == (if bindOk then 0 else -1)
      ensures !old(bound) ==> closedFd == (if bindOk then None else Some(udpSock))
    {
      r, closedFd := 0, None;
      if !bound {
        if udpSock == -1 {
          udpSock := newFd;
        }
        if !bindOk {
          return -1, Some(udpSock);
        }
        bound := true;
      }
    }

    /** `listen`: binds; only the failure result is defined. */
    method Listen(newFd: int, bindOk: bool) returns (r: int, closedFd: Option<int>)
      modifies this`udpSock, this`bound
      ensures bound == (old(bound) || bindOk)
      ensures !bound ==> r == -1 && closedFd == Some(udpSock)
      ensures bound ==> closedFd == None
      ensures udpSock == (if !old(bound) && old(udpSock) == -1 then newFd else old(udpSock))
    {
      r, closedFd := BindSocket(newFd, bindOk);
    }

    /** `connect`: binds, creates the session `created` only if there is
        none yet, and issues the connect to the session it then has
        (`connectTo`). Only the failure result is defined. */
    method Connect(newFd: int, bindOk: bool, created: SessionId)
      returns (r: int, closedFd: Option<int>, connectTo: Option<SessionId>)
      modifies this`udpSock, this`bound, this`utpSock
      ensures bound == (old(bound) || bindOk)
      ensures udpSock == (if !old(bound) && old(udpSock) == -1 then newFd else old(udpSock))
      ensures !bound ==> r == -1 && closedFd == Some(udpSock) && connectTo == None
      ensures !bound ==> utpSock == old(utpSock)
      ensures bound ==> closedFd == None
      ensures bound ==> utpSock == (if old(utpSock) == None then Some(created) else old(utpSock))
      ensures bound ==> connectTo == utpSock
    {
      r, closedFd := BindSocket(newFd, bindOk);
      if r == -1 {
        return -1, closedFd, None;
      }
      if utpSock == None {
        utpSock := Some(created);
      }
      connectTo := utpSock;
    }

    /** `_UTPGotIncomingConnection`: a new socket for session `s`, sharing
        this socket's address family and descriptor, linked in at the head
        of the pending chain. */
    method GotIncomingConnection(s: SessionId)
      requires Valid()
      modifies this`next, this`pending
      ensures Valid()
      ensures |pending| == |old(pending)| + 1 && pending[1..] == old(pending)
      ensures pending == AcceptQueue.ArriveAtHead(old(pending), [pending[0]])
      ensures fresh(pending[0])
      ensures pending[0].utpSock == Some(s)
      ensures pending[0].addressFamily == addressFamily
      ensures pending[0].udpSock == udpSock
    {
      var nextSocket := new Socket.FromSession(s);
      nextSocket.next := next;
      next := nextSocket;
      nextSocket.addressFamily := addressFamily;
      nextSocket.udpSock := udpSock;
      pending := [nextSocket] + pending;
    }

    /** `accept`: unlinks the head of the pending chain, the most recently
        arrived connection, and clears its link; null when none is pending. */
    method Accept() returns (sock: Socket?)
      requires Valid()
      modifies this`next, this`pending, Head()`next, Head()`pending
      ensures Valid()
      ensures old(pending) == [] ==> sock == null && pending == [] && next == null
      ensures old(pending) != [] ==> sock == old(pending[0]) && pending == old(pending[1..])
      ensures sock != null ==> sock.next == null && sock.pending == []
      ensures sock != null ==> AcceptQueue.AcceptAll(old(pending)) == [sock] + AcceptQueue.AcceptAll(pending)
    {
      sock := next;
      if sock != null {
        next := sock.next;
        sock.next := null;
        sock.pending := [];
        pending := pending[1..];
      }
    }

    /** `recv`: -1 without a descriptor or a session. Otherwise returns
        min(len, insize); the bytes land in the caller's buffer only when
        all are taken (`got`), since the partial path's memmove overwrites
        that buffer from beyond its end. The partial path lowers insize
        without moving any stored byte. */
    method Recv(len: nat) returns (r: int, got: Option<seq<byte>>)
      requires Valid()
      modifies this`inbuffer, this`insize
      ensures Valid()
      ensures udpSock == -1 || utpSock == None ==>
        r == -1 && got == None && inbuffer == old(inbuffer) && insize == old(insize)
      ensures udpSock != -1 && utpSock != None ==>
        r == Inbound.RecvCount(old(insize), len) &&
        Contents() == Inbound.KeptAfterRecv(old(Contents()), len) &&
        got == (if old(insize) <= len then Some(old(Contents())) else None)
      ensures udpSock != -1 && utpSock != None && old(insize) > len ==> inbuffer == old(inbuffer)
    {
      if udpSock == -1 || utpSock == None {
        return -1, None;
      }
      if insize > len {
        insize := insize - len;
        r, got := len, None;
      } else {
        got := Some(inbuffer[..insize]);
        r := insize;
        insize := 0;
        inbuffer := [];
      }
    }

    /** `send`: buffers the first Accepted(outsize, |data|) bytes of `data`.
        Returns 0 when that is none and -1 when the buffer cannot grow, in
        both cases changing nothing; otherwise returns the count and sets
        writability through the `writable(bool)` hook to the engine's
        answer for a write intent of that newly buffered count. */
    method Send(data: seq<byte>, allocOk: bool, utpWrite: nat -> bool) returns (r: int)
      requires Valid()
      modifies this`outbuffer, this`outsize, this`isWritable
      ensures Valid()
      ensures var n := Outbound.Accepted(old(outsize), |data|);
        r == (if n == 0 then 0 else if !allocOk then -1 else n) &&
        outbuffer == (if r > 0 then old(outbuffer) + data[..n] else old(outbuffer)) &&
        isWritable == (if r > 0 then utpWrite(n) else old(isWritable))
      ensures r != -1 ==>
        Outbound.RunOutbound(old(outbuffer), [Outbound.Send(data)]) ==
        Some(Outbound.OutRun(outbuffer, data[..Outbound.Accepted(old(outsize), |data|)], []))
    {
      var len := Outbound.Accepted(outsize, |data|);
      if len == 0 {
        assert old(outbuffer) + data[..0] == outbuffer && data[..0] + [] == data[..0];
        return 0;
      }
      if !allocOk {
        return -1;
      }
      outbuffer := outbuffer + data[..len];
      outsize := outsize + len;
      SetWritable(utpWrite(len));
      r := len;
      assert data[..len] + [] == data[..len];
    }

    /** `_UTPOnReadProc`: appends the delivered bytes after the live ones;
        when the buffer cannot grow they are dropped. */
    method OnRead(bytes: seq<byte>, allocOk: bool)
      requires Valid()
      modifies this`inbuffer, this`insize
      ensures Valid()
      ensures allocOk ==> Contents() == old(Contents()) + bytes && inbuffer == Contents()
      ensures !allocOk ==> inbuffer == old(inbuffer) && insize == old(insize)
      ensures allocOk ==>
        Inbound.RunFifo(old(Contents()), [Inbound.Deliver(bytes)]) == Inbound.InRun(Contents(), bytes, [])
    {
      if allocOk {
        inbuffer := inbuffer[..insize] + bytes;
        insize := insize + |bytes|;
        assert bytes + [] == bytes && Contents() == old(Contents()) + bytes;
      }
    }

    /** `_UTPOnWriteProc`: hands the first `count` bytes to the engine and
        keeps the rest, in order, at the front of the buffer. */
    method OnWrite(count: nat) returns (bytes: seq<byte>)
      requires Valid() && count <= outsize
      modifies this`outbuffer, this`outsize
      ensures Valid()
      ensures bytes == old(outbuffer[..count]) && outbuffer == old(outbuffer[count..])
      ensures bytes + outbuffer == old(outbuffer)
      ensures Outbound.RunOutbound(old(outbuffer), [Outbound.Drain(count)]) ==
        Some(Outbound.OutRun(outbuffer, [], bytes))
    {
      bytes := outbuffer[..count];
      if outsize - count != 0 {
        outbuffer := outbuffer[count..];
        outsize := outsize - count;
      } else {
        outbuffer := [];
        outsize := 0;
      }
      assert old(outbuffer)[count..] == outbuffer && bytes + [] == bytes;
    }

    /** `_UTPGetRBSize`: the number of bytes waiting to be received. */
    function GetRBSize(): (n: nat)
      reads this
      requires BuffersValid()
      ensures n == |Contents()|
    {
      insize
    }

    /** `_UTPOnStateChange`: recomputes both flags from the event alone. */
    method OnStateChange(state: UtpState)
      modifies this`isWritable, this`isClosed
      ensures StateFlags.Flags(isWritable, isClosed) == StateFlags.OnState(state)
    {
      isWritable := state == StateConnect || state == StateWritable;
      isClosed := state == StateEof;
    }

    /** `_UTPOnError`: passes the code to the `error` hook. */
    method OnError(errorCode: int)
      ensures unchanged(this)
    {
      Error(errorCode);
    }

    /** `_UTPOnOverhead`: ignores its arguments. */
    method OnOverhead(send: bool, count: nat, kind: int)
      ensures unchanged(this)
    {
    }

    /** `get_sock()`. */
    function GetSock(): (fd: int)
      reads this
      ensures fd == udpSock
    {
      udpSock
    }

    /** `writable()`. */
    function Writable(): (w: bool)
      reads this
      ensures w == isWritable
    {
      isWritable
    }

    /** `closed()`. */
    function Closed(): (c: bool)
      reads this
      ensures c == isClosed
    {
      isClosed
    }

    /** The default `writable(bool)` hook: records the engine's answer. */
    method SetWritable(w: bool)
      modifies this`isWritable
      ensures isWritable == w
    {
      isWritable := w;
    }

    /** The default `error` hook: does nothing. */
    method Error(errorCode: int)
      ensures unchanged(this)
    {
    }

    /** The default `overhead` hook: does nothing. */
    method Overhead(send: bool, count: nat, kind: int)
      ensures unchanged(this)
    {
    }
  }
}
