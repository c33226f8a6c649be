# uTP socket adapter — a Dafny model

This project models `UTP::Socket`, the adapter that gives one endpoint a
stream-socket interface (`listen`, `connect`, `accept`, `send`, `recv`) on
top of a uTP transport engine that runs over one shared UDP descriptor.
What remains once the operating system and the engine are taken out is the
adapter's own bookkeeping, and that is what is modelled:

- the bounded outbound byte buffer (`send` appends at most up to
  `MAXBUFFER` = 65536 bytes; the engine's write callback drains the head
  and compacts the rest);
- the unbounded inbound buffer (the engine's read callback appends, `recv`
  takes bytes out, the receive-window callback reports its size);
- the `writable`/`closed` flags set by the state-change callback and by the
  `writable(bool)` hook;
- the pending-connection chain a listener builds through `next` pointers
  (`_UTPGotIncomingConnection` links in, `accept` unlinks);
- the bound/session bookkeeping of `bindsocket`, `listen`, `connect` and the
  destructor.

Files:

- `types.dfy` — `byte`, `MaxBuffer`, the engine's state codes, the opaque
  `SessionId`, `Option`.
- `outbound.dfy`, `inbound.dfy`, `stateflags.dfy`, `acceptqueue.dfy` —
  specification functions for each piece of bookkeeping, with lemmas about
  single calls and about whole runs of calls. Where the code's behaviour
  differs from the natural reading of the API, the module also holds that
  reading (first-in-first-out `recv`, latched `closed`, tail insertion)
  with its intended property proved, as a reference to compare against.
- `socket.dfy` — class `Socket`, with the fields of the C++ class. Each
  member function that touches adapter state becomes a method; the
  observers `get_sock()`, `writable()`, `closed()` and the receive-window
  query become functions. `handle_readable`, `check_timeouts` and
  `_SendToProc` have no member (see "Left out"). Methods update the fields
  in place, and each `ensures` gives the new state in terms of the old.
  `Recv`, `Send`, `OnRead`, `OnWrite`, `OnStateChange`,
  `GotIncomingConnection` and `Accept` also state their step through the
  specification functions. Those are `Inbound.RecvCount`/`KeptAfterRecv`,
  one step of `Outbound.RunOutbound` or `Inbound.RunFifo`,
  `StateFlags.OnState`, and `AcceptQueue.ArriveAtHead`/`AcceptAll`. So the
  lemmas about runs of sends and drains, and about arrivals and accepts,
  are lemmas about runs of these methods. For the inbound side only
  `OnRead` is such a step: `Recv` keeps `KeptAfterRecv`, not the reference
  reading that `Inbound.RunFifo` replays. The object
  invariant `Valid()` says that the live inbound bytes are
  `inbuffer[..insize]`, that `outsize` is the outbound length and at most
  `MaxBuffer`, and that the ghost sequence `pending` is exactly the
  acyclic chain reached through `next`.
- `scenarios.dfy` — short runs of the class. Each first connects or
  listens, as the application's driving loop does, and then sends, receives,
  accepts or takes state events.

The operating system and the engine appear only as inputs and outputs.
`socket()` becomes the descriptor `newFd` it would return. `bind()`, each
`realloc()` and `UTP_Write()` become `bindOk`, `allocOk` and a function
`utpWrite` from the write intent to the engine's boolean answer.
`UTP_Create` becomes the `SessionId` it would return. `close()`,
`UTP_Connect()` and `UTP_Close()` become out-parameters naming the
descriptor or session they act on.

## Behaviour of the code that the model keeps

The model states what the code does. In these places that is not what a
caller of a stream socket would expect:

- **`recv` keeps the wrong bytes.** On a partial read, the `memmove` at
  utpsocket.cpp:113 shifts the caller's buffer instead of `inbuffer`. Only
  `insize` shrinks, so the bytes kept are the first insize − len old bytes,
  not the unread tail. They begin with the bytes just handed out, and the
  last len unread bytes are lost (`Inbound.KeptAfterRecv`,
  `Inbound.KeptIsTailOnlyWhenPeriodic`,
  `Scenarios.RecvAfterPartialRead`). Under the first-in-first-out reading
  (`Inbound.FifoKept`), received bytes followed by buffered bytes equal the
  delivered bytes (`Inbound.FifoKeepsStream`).
- **`accept` is last-in-first-out.** New connections are linked in at the
  head (utpsocket.cpp:101-102), and that is also where `accept` takes from.
  So connections come out newest first (`AcceptQueue.AcceptIsLastInFirstOut`,
  `Scenarios.AcceptNewestFirst`). Linking at the tail gives arrival order
  (`AcceptQueue.TailArrivalIsFifo`).
- **`closed` is not latched.** Every state event overwrites both flags
  (utpsocket.cpp:197-200). A later non-EOF event therefore clears `closed`
  again (`StateFlags.ClosedIsCleared`, `Scenarios.ClosedThenWritable`).
  With the latched reading, `closed` is terminal
  (`StateFlags.LatchedClosedIsTerminal`).
- **The write intent is the new count.** `send` tells the engine about
  `len`, the bytes this call buffered, and not about `outsize`, the bytes
  now waiting (utpsocket.cpp:136). `Socket.Send` states this as
  `isWritable == utpWrite(n)`, where `n` is the newly buffered count.
- **A failed bind keeps the closed descriptor.** `bindsocket` closes the
  descriptor on failure but does not reset `udp_sock` to -1
  (utpsocket.cpp:75-77). A retry therefore binds the closed number again
  instead of creating a new socket (`Socket.BindSocket`).

## Model

| member | source | states |
|---|---|---|
| `Outbound.Accepted` | utpsocket.cpp:128-129 | `send` accepts the whole offer when it fits; otherwise exactly the room left, so the buffer ends exactly full and never above MAXBUFFER |
| `Outbound.SendTotalIsMin` | utpsocket.cpp:128-135 | a run of sends with no drain between them accepts min(total offered, room left at the start) in all |
| `Outbound.OutboundKeepsOrder` | utpsocket.cpp:174-186 | over any run of sends and engine drains, the bytes handed out followed by the bytes still buffered equal the starting bytes followed by every accepted byte: order kept, nothing lost or repeated; the buffer stays within MAXBUFFER |
| `Inbound.RecvCount` | utpsocket.cpp:111-122 | `recv` returns min(len, insize): never more than asked for or buffered, and one of the two |
| `Inbound.KeptAfterRecv` | utpsocket.cpp:111-115 | after `recv`, the buffer holds insize − count bytes, and they are a prefix of what it held before |
| `Inbound.FifoKept` | utpsocket.cpp:108-124 | reference reading of `recv`: the bytes kept are the unread tail, so the bytes taken followed by the bytes kept are the old buffer |
| `Inbound.KeptIsTailOnlyWhenPeriodic` | utpsocket.cpp:113-114 | the bytes the code keeps equal the unread tail only when `recv` empties the buffer, or when the buffer repeats with period len; on any other partial read the code keeps the wrong bytes |
| `Inbound.FifoKeepsStream` | utpsocket.cpp:163-172 | with appends at the tail and the reference `recv`, the bytes received followed by the bytes buffered equal the bytes delivered, in order |
| `StateFlags.OnState` | utpsocket.cpp:197-200 | after a state event, writable holds exactly for CONNECT or WRITABLE and closed exactly for EOF, whatever the flags were before; never both |
| `StateFlags.LastEventDecides` | utpsocket.cpp:194-201 | after any non-empty run of state events, the flags are those of the last event alone |
| `StateFlags.ClosedIsCleared` | utpsocket.cpp:200 | an EOF event followed later by a non-EOF event leaves closed false |
| `StateFlags.OnStateLatched` | utpsocket.cpp:200 | latched reading of the state event: closed becomes true on EOF and stays true; writable is as in the code |
| `StateFlags.LatchedClosedIsTerminal` | utpsocket.cpp:200 | under the latched reading, closed after a run holds exactly when it held before or the run contains EOF |
| `AcceptQueue.AcceptAllInListOrder` | utpsocket.cpp:154-157 | repeated `accept` returns the pending chain in chain order, each call taking the head and keeping the rest in order |
| `AcceptQueue.ArriveAtHeadReverses` | utpsocket.cpp:101-102 | linking each arrival at the head leaves the arrivals in reverse order, in front of what was pending |
| `AcceptQueue.AcceptIsLastInFirstOut` | utpsocket.cpp:154-156 | connections are accepted in reverse arrival order; the first accepted is the last to arrive |
| `AcceptQueue.TailArrivalIsFifo` | utpsocket.cpp:101-102 | reference: with arrivals linked at the tail, connections are accepted in arrival order |
| `UtpSocket.Socket.constructor` | utpsocket.cpp:22-35 | a new socket has no descriptor, no session, no pending connections, empty buffers and all flags false |
| `UtpSocket.Socket.FromSession` | utpsocket.cpp:37-40 | an accepted socket gets its session; every other field is left unknown |
| `UtpSocket.Socket.Destroy` | utpsocket.cpp:42-48 | the destructor closes the descriptor exactly when this socket bound it and it is not -1, and closes the session exactly when there is one |
| `UtpSocket.Socket.BindSocket` | utpsocket.cpp:67-84 | once bound: returns 0 and changes nothing. Otherwise: creates a descriptor only if there is none, then on bind failure closes it, keeps its number, stays unbound and returns -1; on success becomes bound and returns 0 |
| `UtpSocket.Socket.Listen` | utpsocket.cpp:50-54 | `listen` binds; when the bind fails it returns -1 and closes the descriptor; when it succeeds, or the socket was already bound, it closes nothing and stays bound |
| `UtpSocket.Socket.Connect` | utpsocket.cpp:56-65 | `connect` returns -1 without touching the session when the bind fails; otherwise creates a session only if there is none and issues the connect on the session it then has |
| `UtpSocket.Socket.GotIncomingConnection` | utpsocket.cpp:97-106 | a fresh socket for the new session, with the listener's address family and descriptor, goes to the head of the pending chain; the rest of the chain is unchanged and stays well formed; the step is one `AcceptQueue.ArriveAtHead` arrival |
| `UtpSocket.Socket.Accept` | utpsocket.cpp:152-161 | returns null and changes nothing when nothing is pending; otherwise unlinks and returns the head (most recent arrival) with its link cleared, and leaves the rest of the chain in order; the step is the first element of `AcceptQueue.AcceptAll` |
| `UtpSocket.Socket.Recv` | utpsocket.cpp:108-124 | -1 with nothing changed without a descriptor or session; otherwise returns min(len, insize) and lowers insize by it. Everything taken: the caller gets all bytes and the buffer is empty. Partial: no stored byte moves, so the old prefix remains |
| `UtpSocket.Socket.Send` | utpsocket.cpp:126-138 | returns 0 with nothing changed when nothing fits, and -1 with nothing changed when the buffer cannot grow; otherwise appends the accepted prefix after the existing bytes, returns its length, and sets writability to the engine's answer for a write intent of that length; outsize stays within MAXBUFFER; unless allocation fails, the step is one `Send` event of `Outbound.RunOutbound` |
| `UtpSocket.Socket.OnRead` | utpsocket.cpp:163-172 | delivered bytes are appended after the live bytes and insize grows by their count; if the buffer cannot grow they are dropped and nothing changes; when allocation succeeds, the step is one `Deliver` event of `Inbound.RunFifo` |
| `UtpSocket.Socket.OnWrite` | utpsocket.cpp:174-186 | given count ≤ outsize, hands out the first count bytes and keeps exactly the remaining suffix, in order; draining everything leaves the buffer empty; the step is one `Drain` event of `Outbound.RunOutbound` |
| `UtpSocket.Socket.GetRBSize` | utpsocket.cpp:188-192 | the receive-window query reports the number of bytes waiting to be received and changes nothing |
| `UtpSocket.Socket.OnStateChange` | utpsocket.cpp:194-201 | both flags are overwritten from the event alone, as `StateFlags.OnState` gives them |
| `UtpSocket.Socket.OnError` | utpsocket.cpp:203-207 | an engine error is passed to the `error` hook and changes no state |
| `UtpSocket.Socket.OnOverhead` | utpsocket.cpp:209-214 | the overhead callback ignores its arguments and changes no state |
| `UtpSocket.Socket.GetSock` | utpsocket.h:19 | `get_sock()` returns the descriptor |
| `UtpSocket.Socket.Writable` | utpsocket.h:20 | `writable()` returns the writable flag |
| `UtpSocket.Socket.Closed` | utpsocket.h:21 | `closed()` returns the closed flag |
| `UtpSocket.Socket.SetWritable` | utpsocket.h:27 | the default `writable(bool)` hook overwrites the writable flag with its argument and nothing else |
| `UtpSocket.Socket.Error` | utpsocket.h:28 | the default `error` hook changes no state |
| `UtpSocket.Socket.Overhead` | utpsocket.h:29 | the default `overhead` hook changes no state |
| `Scenarios.SendBeforeWritable` | utpsocket.cpp:133-136 | on a connected socket, "hello" sent before the session is writable is accepted in full (5 bytes). After a writable event, the engine's next request for 5 bytes receives exactly "hello" |
| `Scenarios.SendPastCapacity` | utpsocket.h:10 | MAXBUFFER caps the buffer at 65536 bytes: on a connected socket, sends of 70000 then 10 bytes accept 65536 then 0; after the engine drains 100 bytes, the 10-byte send is accepted |
| `Scenarios.RecvAfterPartialRead` | utpsocket.cpp:111-121 | with bytes 1, 2 buffered, reading one byte and then everything returns byte 1 again in place of byte 2 |
| `Scenarios.AcceptNewestFirst` | utpsocket.cpp:152-161 | after two connections arrive at a listening socket, `accept` returns the second, then the first, then null |
| `Scenarios.ClosedThenWritable` | utpsocket.cpp:194-201 | after EOF `closed()` is true; after a following writable event it is false |

## Left out

- `handle_readable` (utpsocket.cpp:140-150): its `recvfrom` loop is datagram I/O, and `UTP_IsIncomingUTP` (utpsocket.cpp:148) belongs to the engine. What the engine does with each datagram reaches the adapter only through its callbacks. For a new connection that is `GotIncomingConnection`. For an existing session it is the read, write and state-change callbacks, modelled by `OnRead`, `OnWrite` and `OnStateChange`.
- `_SendToProc` (utpsocket.cpp:91-95): a plain `sendto` on the descriptor.
- `check_timeouts` (utpsocket.cpp:86-89): passes straight through to the engine's timer sweep.
- The transport engine (`utp.h` and its implementation) is not part of this model. Its calls appear only as inputs and outputs. `UTP_SetCallbacks`, and the peer address `accept` reads with `UTP_GetPeerName`, are not represented.
- The `ioctl` that makes the descriptor non-blocking, and the wildcard address passed to `bind`: operating-system detail. Only the outcome of `bind` is an input.
- Buffers are sequences. `realloc`/`free` pointer identity and the NULL-versus-empty distinction are not modelled; a failed allocation is the flag `allocOk`.
- `UtpSocket.Socket.FromSession`: the fields the C++ constructor leaves uninitialised (bound, flags, buffers, sizes, next) are left arbitrary, so nothing is promised about them. An accepted socket therefore need not satisfy `Valid()`, and its destructor may close the shared descriptor if the garbage `bound` is true.
- `UtpSocket.Socket.Listen`: says nothing about the result on success, because `listen` falls off the end of a non-void function there.
- `UtpSocket.Socket.Connect`: says nothing about the result on success, for the same reason.
- `UtpSocket.Socket.Recv`: says nothing about what the caller's buffer holds after a partial read, because the `memmove` there reads and writes beyond that buffer (undefined behaviour). It also does not model the result's conversion to `int` when more than 2^31 − 1 bytes are buffered.
- `UtpSocket.Socket.Send`: treats `UTP_Write` as a function of the write intent alone. It does not model the engine draining the buffer through the write callback while `UTP_Write` runs. It does not model `size_t` wrap-around of `len + outsize`, which needs an offer close to 2^64 bytes. Nor does it model `UTP_Write` being called when there is no session.
- Virtual dispatch: the hooks `writable(bool)`, `error` and `overhead` are modelled by their default bodies; overriding subclasses are not part of this model.
- `test.cpp`: an interactive poll/stdin/stdout driver with no logic of its own.
