/** The order in which `accept` hands out pending connections. New
    connections are linked in at the head of the listener's `next` chain
    (utpsocket.cpp:97-106) and `accept` unlinks the head
    (utpsocket.cpp:152-161); on values that is a stack. */
module AcceptQueue {

  function Reversed<T>(xs: seq<T>): (r: seq<T>)
    ensures |r| == |xs|
    decreases |xs|
  {
    if xs == [] then [] else Reversed(xs[1..]) + [xs[0]]
  }

  /** The pending list after connections `xs` arrive in order, each
      inserted at the head as the code does. */
  function ArriveAtHead<T>(q: seq<T>, xs: seq<T>): seq<T>
    decreases |xs|
  {
    if xs == [] then q else ArriveAtHead([xs[0]] + q, xs[1..])
  }

  /** The order in which successive `accept` calls return the pending list:
      each takes the head and leaves the rest in order. A helper naming that
      run of calls; the ordering result rests on `ArriveAtHeadReverses`. */
  function AcceptAll<T>(q: seq<T>): seq<T>
    decreases |q|
  {
    if q == [] then [] else [q[0]] + AcceptAll(q[1..])
  }

  lemma {:induction false} AcceptAllInListOrder<T>(q: seq<T>)
    ensures AcceptAll(q) == q
    decreases |q|
  {
    if q != [] {
      AcceptAllInListOrder(q[1..]);
    }
  }

  lemma {:induction false} ArriveAtHeadReverses<T>(q: seq<T>, xs: seq<T>)
    ensures ArriveAtHead(q, xs) == Reversed(xs) + q
    decreases |xs|
  {
    if xs != [] {
      ArriveAtHeadReverses([xs[0]] + q, xs[1..]);
      assert Reversed(xs[1..]) + ([xs[0]] + q) == Reversed(xs[1..]) + [xs[0]] + q;
    }
  }

  /** Connections are accepted newest first: the reverse of arrival order. */
  lemma {:induction false} AcceptIsLastInFirstOut<T>(xs: seq<T>)
    ensures AcceptAll(ArriveAtHead([], xs)) == Reversed(xs)
    ensures xs != [] ==> AcceptAll(ArriveAtHead([], xs))[0] == xs[|xs| - 1]
  {
    ArriveAtHeadReverses([], xs);
    assert Reversed(xs) + [] == Reversed(xs);
    AcceptAllInListOrder(Reversed(xs));
    if xs != [] {
      ReversedFirst(xs);
    }
  }

  lemma {:induction false} ReversedFirst<T>(xs: seq<T>)
    requires xs != []
    ensures Reversed(xs)[0] == xs[|xs| - 1]
    decreases |xs|
  {
    if |xs| > 1 {
      ReversedFirst(xs[1..]);
      assert Reversed(xs) == Reversed(xs[1..]) + [xs[0]];
    }
  }

  /** The first-in-first-out alternative: each arrival linked at the tail. */
  function ArriveAtTail<T>(q: seq<T>, xs: seq<T>): seq<T>
    decreases |xs|
  {
    if xs == [] then q else ArriveAtTail(q + [xs[0]], xs[1..])
  }

  /** With tail insertion, connections are accepted in arrival order. */
  lemma {:induction false} TailArrivalIsFifo<T>(q: seq<T>, xs: seq<T>)
    ensures AcceptAll(ArriveAtTail(q, xs)) == q + xs
    decreases |xs|
  {
    if xs == [] {
      AcceptAllInListOrder(q);
    } else {
      TailArrivalIsFifo(q + [xs[0]], xs[1..]);
      assert q + [xs[0]] + xs[1..] == q + xs;
    }
  }
}
