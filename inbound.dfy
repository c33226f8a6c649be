/** The unbounded inbound buffer: the engine's read callback appends
    (utpsocket.cpp:163-172) and `recv` takes bytes out (utpsocket.cpp:108-124). */
module Inbound {
  import opened UtpTypes

  /** The count `recv(buf, len)` returns when `insize` bytes are buffered. */
  function RecvCount(insize: nat, len: nat): (n: nat)
    ensures n <= len && n <= insize
    ensures n == len || n == insize
  {
    Min(len, insize)
  }

  /** The bytes `recv` leaves buffered, as written: the count shrinks but
      nothing moves inside the buffer, so the OLD PREFIX stays. */
  function KeptAfterRecv(contents: seq<byte>, len: nat): (k: seq<byte>)
    ensures |k| == |contents| - RecvCount(|contents|, len)
    ensures k <= contents
  {
    if |contents| > len then contents[..|contents| - len] else []
  }

  /** The bytes a first-in-first-out `recv` would leave: the unread tail. */
  function FifoKept(contents: seq<byte>, len: nat): (k: seq<byte>)
    ensures |k| == |contents| - RecvCount(|contents|, len)
    ensures contents[..RecvCount(|contents|, len)] + k == contents
  {
    contents[RecvCount(|contents|, len)..]
  }

  /** The code keeps the unread tail only by accident: when `recv` empties
      the buffer, or when the buffer repeats itself with period `len`. */
  lemma {:induction false} KeptIsTailOnlyWhenPeriodic(contents: seq<byte>, len: nat)
    ensures |contents| <= len ==> KeptAfterRecv(contents, len) == FifoKept(contents, len) == []
    ensures len < |contents| ==>
      (KeptAfterRecv(contents, len) == FifoKept(contents, len) <==>
       forall i :: 0 <= i < |contents| - len ==> contents[i] == contents[i + len])
  {
    if len < |contents| {
      var k, f := KeptAfterRecv(contents, len), FifoKept(contents, len);
      assert |k| == |f| == |contents| - len;
      assert forall i :: 0 <= i < |k| ==> k[i] == contents[i] && f[i] == contents[i + len];
    }
  }

  /** The engine delivering bytes, or the caller receiving up to `len`. */
  datatype InEvent = Deliver(bytes: seq<byte>) | Take(len: nat)

  /** What a run of inbound events leaves: the buffer, every byte delivered
      and every byte received, each in order. */
  datatype InRun = InRun(buffer: seq<byte>, delivered: seq<byte>, received: seq<byte>)

  /** Replays deliveries (allocations succeeding) and receives under the
      first-in-first-out reading of `recv`. */
  function RunFifo(buffer: seq<byte>, evs: seq<InEvent>): InRun
    decreases |evs|
  {
    if evs == [] then InRun(buffer, [], [])
    else match evs[0]
      case Deliver(bytes) =>
        var rest := RunFifo(buffer + bytes, evs[1..]);
        rest.(delivered := bytes + rest.delivered)
      case Take(len) =>
        var n := RecvCount(|buffer|, len);
        var rest := RunFifo(FifoKept(buffer, len), evs[1..]);
        rest.(received := buffer[..n] + rest.received)
  }

  /** Under the first-in-first-out reading, what is received followed by what
      is still buffered is exactly what was buffered and then delivered. */
  lemma {:induction false} FifoKeepsStream(buffer: seq<byte>, evs: seq<InEvent>)
    ensures var r := RunFifo(buffer, evs); r.received + r.buffer == buffer + r.delivered
    decreases |evs|
  {
    if evs != [] {
      match evs[0]
      case Deliver(bytes) =>
        FifoKeepsStream(buffer + bytes, evs[1..]);
        var r' := RunFifo(buffer + bytes, evs[1..]);
        assert buffer + bytes + r'.delivered == buffer + (bytes + r'.delivered);
      case Take(len) =>
        var n := RecvCount(|buffer|, len);
        FifoKeepsStream(FifoKept(buffer, len), evs[1..]);
        var r' := RunFifo(FifoKept(buffer, len), evs[1..]);
        assert buffer[..n] + r'.received + r'.buffer == buffer[..n] + (r'.received + r'.buffer);
    }
  }
}
