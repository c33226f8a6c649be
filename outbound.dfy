/** The bounded outbound buffer: what `send` accepts (utpsocket.cpp:126-138)
    and what the engine's write callback drains (utpsocket.cpp:174-186). */
module Outbound {
  import opened UtpTypes

  /** How many of `len` offered bytes `send` buffers when `outsize` are
      already held: the offer, cut down to the room left under MaxBuffer. */
  function Accepted(outsize: nat, len: nat): (n: nat)
    requires outsize <= MaxBuffer
    ensures n <= len && outsize + n <= MaxBuffer
    ensures n < len ==> outsize + n == MaxBuffer
  {
    if len + outsize > MaxBuffer then MaxBuffer - outsize else len
  }

  function Sum(lens: seq<nat>): nat
  {
    if lens == [] then 0 else lens[0] + Sum(lens[1..])
  }

  /** Total accepted by consecutive sends of the given lengths, with no
      drain in between and every allocation succeeding. */
  function SendTotal(outsize: nat, lens: seq<nat>): nat
    requires outsize <= MaxBuffer
    decreases |lens|
  {
    if lens == [] then 0
    else
      var n := Accepted(outsize, lens[0]);
      n + SendTotal(outsize + n, lens[1..])
  }

  /** A run of sends accepts everything offered until the buffer is full,
      and never more than the room that was left. */
  lemma {:induction false} SendTotalIsMin(outsize: nat, lens: seq<nat>)
    requires outsize <= MaxBuffer
    ensures SendTotal(outsize, lens) == Min(Sum(lens), MaxBuffer - outsize)
    decreases |lens|
  {
    if lens != [] {
      var n := Accepted(outsize, lens[0]);
      SendTotalIsMin(outsize + n, lens[1..]);
    }
  }

  /** A caller's send, or the engine's request for `count` bytes. */
  datatype OutEvent = Send(data: seq<byte>) | Drain(count: nat)

  /** What a run of outbound events leaves: the buffer, every byte accepted
      by `send`, and every byte handed to the engine, each in order. */
  datatype OutRun = OutRun(buffer: seq<byte>, accepted: seq<byte>, handed: seq<byte>)

  /** Replays sends (allocations succeeding) and drains; `None` when a drain
      asks for more than is buffered, which the engine's contract excludes. */
  function RunOutbound(buffer: seq<byte>, evs: seq<OutEvent>): Option<OutRun>
    requires |buffer| <= MaxBuffer
    decreases |evs|
  {
    if evs == [] then Some(OutRun(buffer, [], []))
    else match evs[0]
      case Send(data) =>
        var n := Accepted(|buffer|, |data|);
        var rest := RunOutbound(buffer + data[..n], evs[1..]);
        if rest.None? then None
        else Some(rest.value.(accepted := data[..n] + rest.value.accepted))
      case Drain(count) =>
        if count > |buffer| then None
        else
          var rest := RunOutbound(buffer[count..], evs[1..]);
          if rest.None? then None
          else Some(rest.value.(handed := buffer[..count] + rest.value.handed))
  }

  /** Bytes reach the engine in the order `send` accepted them, none lost or
      repeated, and the buffer never holds more than MaxBuffer bytes. */
  lemma {:induction false} OutboundKeepsOrder(buffer: seq<byte>, evs: seq<OutEvent>)
    requires |buffer| <= MaxBuffer
    requires RunOutbound(buffer, evs).Some?
    ensures var r := RunOutbound(buffer, evs).value;
      r.handed + r.buffer == buffer + r.accepted && |r.buffer| <= MaxBuffer
    decreases |evs|
  {
    if evs != [] {
      match evs[0]
      case Send(data) =>
        var n := Accepted(|buffer|, |data|);
        OutboundKeepsOrder(buffer + data[..n], evs[1..]);
        var r' := RunOutbound(buffer + data[..n], evs[1..]).value;
        assert buffer + data[..n] + r'.accepted == buffer + (data[..n] + r'.accepted);
      case Drain(count) =>
        OutboundKeepsOrder(buffer[count..], evs[1..]);
        var r' := RunOutbound(buffer[count..], evs[1..]).value;
        assert buffer[..count] + buffer[count..] == buffer;
        assert buffer[..count] + r'.handed + r'.buffer == buffer[..count] + (r'.handed + r'.buffer);
    }
  }
}
