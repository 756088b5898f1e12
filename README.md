# Epoll echo reactor — a Dafny model

`echo_server.py` is a single-threaded TCP echo server built on Linux epoll.
Its `main()` keeps two dictionaries:

- `conns`, mapping an fd to its socket;
- `outbuf`, mapping an fd to the bytes received and not yet sent back.

It also keeps one epoll interest mask per fd. On each readiness event it does one or more of these things:

- it drains the listening socket's accept queue;
- it ignores an event for an fd no longer in `conns`;
- it cleans up a connection that reports hangup or error;
- on a readable event, it runs a recv loop that queues what arrives, then arms write interest if output is pending;
- on a writable event, it runs a send loop that sends from the front of the queue until the queue empties, a send would block, or the connection is closed.

An event that is both readable and writable runs the recv loop and then the send loop.

When an exception escapes the loop, a `finally` block unregisters the listener, closes epoll and cleans up every remaining connection.

This project models that bookkeeping and proves what it promises. The tables stay in lockstep. Write interest is armed exactly when output is pending. For every open connection, the bytes echoed followed by the bytes pending are exactly the bytes received, so nothing is lost or reordered. Cleanup touches only its own fd.

Every socket and epoll call is an outcome the caller supplies:

- an accepted socket or an exception;
- the bytes a recv returned (empty for the peer's orderly close) or an exception;
- the count a send reported or an exception.

Exceptions are Python's `BlockingIOError` or an `OSError` with its errno. As in the source, `EAGAIN`/`EWOULDBLOCK` (11 on Linux) count as "would block".

The files:

- `epoll.dfy`, module `Epoll`: the vocabulary. It holds fds, bytes, the Linux values of `EPOLLIN`/`EPOLLOUT`/`EPOLLERR`/`EPOLLHUP`, errno values, the would-block test, and the outcome datatypes.
- `reactor_spec.dfy`, module `ReactorSpec`: the reactor's state as a value (`Tables`) and each step of the loop as a function of it. It also holds the table invariant `Valid` and the lemmas that every step keeps it. Two ghost histories per connection, `received` and `echoed`, state the echo property. The server does not keep them.
- `echo_server.dfy`, module `EchoServer`: class `Reactor`. Its fields are updated in place by methods with the source's loops: accept drain, recv loop, send loop and teardown loop. Each method is proved to produce exactly the state the matching `ReactorSpec` function describes.
- `reactor_properties.dfy`, module `ReactorProperties`: what the steps promise, stated over the spec functions. It ends with a concrete exchange in which a client sends "hi" and gets it back.

How the model reads the source:

- The send loop's `del buf[:sent]` removes `min(sent, len(buf))` bytes, because a Python slice clamps.
- The accept loop stores the new socket and an empty buffer before registering the fd with epoll. Registering an fd epoll already watches fails with `EEXIST`, which is not a would-block error, so the exception propagates to the teardown. The model follows that order rather than assuming accepted fds are fresh.
- The two `while True` loops (accept, recv) end only on particular outcomes: a failure of accept or recv, or an empty read. The accept loop also ends when registering a new fd raises. The accept and recv methods therefore require that their script of outcomes contains one (`AcceptTerminates`, `RecvTerminates`).
- The send loop `while buf` ends on a zero send or a failure, or when positive sends empty the buffer. The model still requires that the send script contains an ending outcome (`SendTerminates`), and that outcome goes unused when the buffer drains first. No run is lost: `ReactorProperties.DrainedIgnoresEnd` proves that a draining script followed by any ending outcome sends the whole buffer and leaves the connection open.

Two behaviours of the code matter for the echo property:

- The read path (lines 83-85) only arms write interest and never sends. Sending waits for a write-readiness event.
- An empty read (lines 69-72) cleans up and drops any unsent bytes.

`ReactorProperties.ScenarioEofDropsOutput` shows the second point on a concrete input.

## Model

| member | source | states |
|---|---|---|
| `EchoServer.Reactor.constructor` | echo_server.py:22-29 | a new reactor has the listener registered and empty tables, which are valid |
| `EchoServer.Reactor.Cleanup` | echo_server.py:127-139 | removes `fd` from the connection, buffer and interest tables, as `ReactorSpec.Cleanup` describes |
| `EchoServer.Reactor.Accept` | echo_server.py:37-52 | the drain loop ends in the state and with the ending (drained, or the errno that propagates) that `ReactorSpec.AcceptLoop` gives for the same outcomes |
| `EchoServer.Reactor.RecvPending` | echo_server.py:66-81 | the recv loop either cleans the connection up (empty read, non-transient error) or appends exactly the data read before the ending outcome to the buffer and the received history, changing nothing else |
| `EchoServer.Reactor.ReadReady` | echo_server.py:65-85 | the read phase produces the state `ReactorSpec.ReadReady` gives |
| `EchoServer.Reactor.SendPending` | echo_server.py:96-109 | the send loop either cleans the connection up or leaves the buffer as the rest of `SendLoop` and appends the bytes it sent to the echoed history |
| `EchoServer.Reactor.WriteReady` | echo_server.py:88-113 | the write phase produces the state `ReactorSpec.WriteReady` gives |
| `EchoServer.Reactor.HandleEvent` | echo_server.py:55-113 | one event on a connection fd produces the state `ReactorSpec.HandleEvent` gives, and the tables stay valid |
| `EchoServer.Reactor.Shutdown` | echo_server.py:115-124 | the teardown loop leaves the state `ReactorSpec.Teardown` gives: nothing listening, no connection, no interest |
| `EchoServer.Reactor.Serve` | echo_server.py:32-124 | the event loop over a batch of events ends in the state and with the ending `ReactorSpec.Serve` gives, keeping the tables valid after every event |
| `ReactorSpec.RecvStop` | echo_server.py:66-81 | the recv loop stops at the first empty read or failure, and every outcome before it is a non-empty chunk |
| `ReactorSpec.ArrivedAppend` | echo_server.py:74 | the bytes queued by two runs of recv outcomes are those of the first followed by those of the second |
| `ReactorSpec.ArrivedStep` | echo_server.py:74 | one more chunk is appended at the end of what was queued before |
| `ReactorSpec.SendLoopSplits` | echo_server.py:96-109 | the bytes `send` reported as taken, followed by the bytes it leaves pending, are the buffer it started with |
| `ReactorSpec.SendLoopTakes` | echo_server.py:98-102 | a send that reports n > 0 bytes removes exactly the first min(n, len) bytes and the loop goes on with the rest |
| `ReactorSpec.SendLoopEnds` | echo_server.py:99-109 | a send of zero bytes or a failure ends the loop with nothing sent; only a would-block failure leaves the connection open |
| `ReactorSpec.CleanupValid` | echo_server.py:127-129 | cleanup keeps the tables valid |
| `ReactorSpec.RegisterValid` | echo_server.py:41-45 | admitting a connection whose fd epoll does not watch, with an empty buffer and read interest, keeps the tables valid |
| `ReactorSpec.AcceptLoopKeys` | echo_server.py:37-52 | however the accept loop ends, the buffer and history tables keep the connection table's keys |
| `ReactorSpec.AcceptLoopValid` | echo_server.py:37-52 | an accept loop drained by a would-block leaves valid tables |
| `ReactorSpec.ReadReadyValid` | echo_server.py:65-85 | the read phase keeps the tables valid: lockstep, interest tracking pending output, echoed ++ pending == received |
| `ReactorSpec.WriteReadyIdles` | echo_server.py:89-94 | write readiness with nothing pending only resets the fd's interest to read, hangup and error |
| `ReactorSpec.WriteReadyValid` | echo_server.py:88-113 | the write phase keeps the tables valid |
| `ReactorSpec.HandleEventValid` | echo_server.py:55-113 | every event on a connection keeps the tables valid and the listener unchanged |
| `ReactorSpec.TeardownValid` | echo_server.py:115-124 | from tables in lockstep the teardown leaves every table empty and the listener unregistered |
| `ReactorSpec.ServeValid` | echo_server.py:31-124 | the event loop keeps the tables valid; when accept raises, the teardown leaves no connection, no buffer and no listener registration |
| `ReactorProperties.CleanupIsolated` | echo_server.py:127-129 | cleanup removes `fd` from every table, the two histories included, and leaves every other fd's entries as they were |
| `ReactorProperties.CleanupIdempotent` | echo_server.py:127-129 | a second cleanup of the same fd changes nothing |
| `ReactorProperties.CleanupAbsent` | echo_server.py:127-129 | cleanup of an fd that is not open is a no-op |
| `ReactorProperties.CleanupEachRemoves` | echo_server.py:122-123 | cleaning up a list of fds in turn removes exactly those fds from every table |
| `ReactorProperties.TeardownIsCleanupEach` | echo_server.py:115-124 | the teardown equals cleanup of every open fd in turn with the listener unregistered and epoll closed; from valid tables it leaves everything empty |
| `ReactorProperties.AcceptStop` | echo_server.py:37-52 | the accept loop's last outcome is the first failure, and every outcome before it is an accepted connection |
| `ReactorProperties.AcceptLoopEnd` | echo_server.py:37-52 | the accept loop raises EEXIST if an accepted fd is already watched or repeated; otherwise it drains at a would-block failure and propagates any other errno |
| `ReactorProperties.AcceptLoopGrows` | echo_server.py:41-45 | over fresh fds the accept loop adds exactly the accepted fds to the connection table |
| `ReactorProperties.AcceptLoopKeeps` | echo_server.py:37-52 | over fresh fds the accept loop leaves every existing connection's entries unchanged |
| `ReactorProperties.AcceptLoopAdmits` | echo_server.py:41-45 | every connection accepted before the loop stops is stored with an empty buffer and interest IN, HUP and ERR |
| `ReactorProperties.RegisterIsolated` | echo_server.py:42-45 | registering one connection touches no other fd |
| `ReactorProperties.HandleEventDispatch` | echo_server.py:55-62 | an event for an fd that is not open changes nothing; hangup or error cleans up before any read or write, discarding pending output |
| `ReactorProperties.ChunksInArrivalOrder` | echo_server.py:66-74 | each chunk read lands after all earlier chunks and before all later ones |
| `ReactorProperties.ReadReadyOutcome` | echo_server.py:65-85 | the read phase closes the connection exactly on an empty read or a non-transient error, dropping the buffer. Otherwise the buffer and received history grow by the chunks read, and write interest is armed exactly when output is pending. Other fds are untouched |
| `ReactorProperties.WriteAfterClose` | echo_server.py:88-94 | the write phase on an fd the read phase closed leaves no state behind |
| `ReactorProperties.EndingAppended` | echo_server.py:96-109 | a send script followed by a zero send or a failure always reaches an outcome that ends the send loop |
| `ReactorProperties.DrainedIgnoresEnd` | echo_server.py:96-101 | when positive sends take the whole buffer, `while buf` ends without consulting the next outcome, whatever it is: everything is sent, nothing is left and the connection stays open |
| `ReactorProperties.SendLoopCloses` | echo_server.py:96-109 | the send loop closes the connection if and only if a zero-byte send or a non-transient failure comes while bytes are still pending |
| `ReactorProperties.WriteReadyOutcome` | echo_server.py:88-113 | the write phase closes the connection exactly when the send loop does. Otherwise the sent bytes move from the front of the buffer to the end of the echoed history, and write interest stays armed exactly while output is pending. Other fds are untouched |
| `ReactorProperties.InterestAndEcho` | echo_server.py:83-113 | in valid tables an open fd's interest contains IN, HUP and ERR, and it contains OUT if and only if output is pending; the echoed bytes are a prefix of the received bytes |
| `ReactorProperties.ReadReadyLocal` | echo_server.py:65-85 | the read phase touches only its own fd and only extends its received history |
| `ReactorProperties.WriteReadyLocal` | echo_server.py:88-113 | the write phase touches only its own fd and only extends its echoed history |
| `ReactorProperties.HandleEventLocal` | echo_server.py:55-113 | an event touches no other connection, and the histories of the connection it leaves open only grow |
| `ReactorProperties.ScenarioAccept` | echo_server.py:37-52 | accepting fd 5 and then hitting a would-block registers fd 5 for read with an empty buffer |
| `ReactorProperties.ScenarioRead` | echo_server.py:65-85 | reading "hi" and then hitting a would-block queues "hi" and arms write interest without sending |
| `ReactorProperties.ScenarioEofDropsOutput` | echo_server.py:68-72 | a read of "hi" followed by the empty read closes the connection and drops "hi" unsent |
| `ReactorProperties.ScenarioWrite` | echo_server.py:88-113 | a send that takes both bytes echoes "hi" and drops write interest |
| `ReactorProperties.EchoScenario` | echo_server.py:32-113 | the three events run by the event loop leave fd 5 open with nothing pending, read interest, and exactly "hi" echoed |

## Left out

- Creating the listening socket, `SO_REUSEADDR`, bind and listen (echo_server.py:15-20): operating-system I/O. The constructor starts from a listener that is already registered.
- Setting accepted sockets non-blocking (echo_server.py:40): I/O with no effect on the tables. A failure there is not modelled.
- The `poll(1)` wait and its one-second timeout (echo_server.py:33): timing only. The event loop is modelled over a finite batch of events supplied by the caller.
- Closing sockets, closing epoll, and unregistering (echo_server.py:117-121, 130-139): modelled only through what they do to the tables. Their swallowed failures do not change the tables.
- The startup `print` (echo_server.py:13): output only.
- echo_client.py is not part of this model. It is a one-shot interactive client with no reactor state.
- Failures of `ep.modify`, and of `ep.register` other than EEXIST: not modelled. The model treats those calls as succeeding.
- The 4096-byte size of each recv: not modelled. A recv outcome may carry any number of bytes, which covers every chunk size the kernel can return.
- Runs of the drain loops that never end, such as a peer whose data never runs out: not modelled. Each loop requires that its script of outcomes reaches an outcome that ends it.
- Exceptions other than those of accept: not modelled. This includes a keyboard interrupt that would end `main()` through the `finally` block. The teardown is modelled as reached only when an accept raises.
- EchoServer.Reactor.Shutdown: requires the buffer table and the history tables to have the connection table's keys. Every state the reactor reaches has this, and `Serve` proves it before calling. It is not stated for arbitrary tables.
- ReactorSpec.SendLoop, ReactorSpec.WriteReady, EchoServer.Reactor.SendPending, EchoServer.Reactor.WriteReady: require the send script to contain an ending outcome (a zero send or a failure), even when positive sends empty the buffer first and `while buf` ends without one. The outcome is then unused. `ReactorProperties.DrainedIgnoresEnd` proves that appending one to a draining script changes nothing.
