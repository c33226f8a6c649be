/** The writable/closed flags the state-change callback sets
    (utpsocket.cpp:194-201), and a latched alternative. */
module StateFlags {
  import opened UtpTypes

  datatype Flags = Flags(writable: bool, closed: bool)

  /** The flags after one state event, as written: both are recomputed from
      the event alone, whatever they were before. */
  function OnState(s: UtpState): (f: Flags)
    ensures f.writable <==> s == StateConnect || s == StateWritable
    ensures f.closed <==> s == StateEof
    ensures !(f.writable && f.closed)
  {
    Flags(s == StateConnect || s == StateWritable, s == StateEof)
  }

  /** The flags after a run of state events, starting from `f`. */
  function AfterEvents(f: Flags, evs: seq<UtpState>): Flags
    decreases |evs|
  {
    if evs == [] then f else AfterEvents(OnState(evs[0]), evs[1..])
  }

  /** Only the last event matters: nothing is remembered from earlier ones. */
  lemma {:induction false} LastEventDecides(f: Flags, evs: seq<UtpState>)
    requires evs != []
    ensures AfterEvents(f, evs) == OnState(evs[|evs| - 1])
    decreases |evs|
  {
    if |evs| > 1 {
      LastEventDecides(OnState(evs[0]), evs[1..]);
    }
  }

  /** `closed` is not latched: an end-of-stream event followed by any other
      event leaves the endpoint reported open. */
  lemma ClosedIsCleared(f: Flags, evs: seq<UtpState>, s: UtpState)
    requires StateEof in evs && s != StateEof
    ensures !AfterEvents(f, evs + [s]).closed
  {
    LastEventDecides(f, evs + [s]);
  }

  /** The latched reading: `closed` stays true once an end-of-stream
      event has been seen. */
  function OnStateLatched(f: Flags, s: UtpState): (g: Flags)
    ensures g.closed <==> f.closed || s == StateEof
    ensures g.writable == OnState(s).writable
  {
    Flags(s == StateConnect || s == StateWritable, f.closed || s == StateEof)
  }

  function AfterEventsLatched(f: Flags, evs: seq<UtpState>): Flags
    decreases |evs|
  {
    if evs == [] then f else AfterEventsLatched(OnStateLatched(f, evs[0]), evs[1..])
  }

  /** Under the latched reading, closed is true after a run exactly when it
      was true before or the run holds an end-of-stream event. */
  lemma {:induction false} LatchedClosedIsTerminal(f: Flags, evs: seq<UtpState>)
    ensures AfterEventsLatched(f, evs).closed <==> f.closed || StateEof in evs
    decreases |evs|
  {
    if evs != [] {
      LatchedClosedIsTerminal(OnStateLatched(f, evs[0]), evs[1..]);
      assert evs == [evs[0]] + evs[1..];
    }
  }
}
