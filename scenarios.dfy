/** Short runs of the adapter driven through the class. Each first connects
    or listens, as an application's event loop does before anything else. */
module Scenarios {
  import opened UtpTypes
  import opened UtpSocket

  /** "hello" sent before the session is writable is buffered, and the
      engine's next data request after the writable event receives it. */
  method SendBeforeWritable(utpWrite: nat -> bool) returns (accepted: int, handed: seq<byte>)
    ensures accepted == 5 && handed == [104, 101, 108, 108, 111]
  {
    var s := new Socket(2);
    var r, closedFd, connectTo := s.Connect(3, true, 7);
    var hello: seq<byte> := [104, 101, 108, 108, 111];
    accepted := s.Send(hello, true, utpWrite);
    s.OnStateChange(StateWritable);
    handed := s.OnWrite(5);
  }

  /** Sends of 70000 and then 10 bytes: the first fills the buffer, the
      second is refused, and a drain makes room again. */
  method SendPastCapacity(data: seq<byte>, utpWrite: nat -> bool)
    returns (first: int, second: int, third: int)
    requires |data| == 70000
    ensures first == MaxBuffer && second == 0 && third == 10
  {
    var s := new Socket(2);
    var r, closedFd, connectTo := s.Connect(3, true, 7);
    first := s.Send(data, true, utpWrite);
    second := s.Send(data[..10], true, utpWrite);
    var handed := s.OnWrite(100);
    third := s.Send(data[..10], true, utpWrite);
  }

  /** Bytes 1, 2 arrive; `recv` of one byte is followed by a `recv` that
      takes everything: it returns byte 1 again, never byte 2. */
  method RecvAfterPartialRead() returns (first: int, second: int, got: Option<seq<byte>>)
    ensures first == 1 && second == 1 && got == Some([1])
  {
    var s := new Socket(2);
    var r, closedFd, connectTo := s.Connect(3, true, 7);
    s.OnRead([1, 2], true);
    var partial;
    first, partial := s.Recv(1);
    assert s.Contents() == [1];
    second, got := s.Recv(10);
  }

  /** Two connections arrive at a listener; `accept` returns the later one
      first. */
  method AcceptNewestFirst() returns (a: Option<SessionId>, b: Option<SessionId>, c: bool)
    ensures a == Some(2) && b == Some(1) && c
  {
    var l := new Socket(2);
    var r, closedFd := l.Listen(3, true);
    l.GotIncomingConnection(1);
    l.GotIncomingConnection(2);
    var x := l.Accept();
    a := x.utpSock;
    var y := l.Accept();
    b := y.utpSock;
    var z := l.Accept();
    c := z == null;
  }

  /** An end-of-stream event followed by a writable event: `closed()`
      reports false again. */
  method ClosedThenWritable() returns (afterEof: bool, afterWritable: bool)
    ensures afterEof && !afterWritable
  {
    var s := new Socket(2);
    var r, closedFd, connectTo := s.Connect(3, true, 7);
    s.OnStateChange(StateEof);
    afterEof := s.Closed();
    s.OnStateChange(StateWritable);
    afterWritable := s.Closed();
  }
}
