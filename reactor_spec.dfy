// The echo reactor's bookkeeping as values: the state the event loop of
// echo_server.py keeps (the connection table, the output-buffer table and
// the epoll interest of every connection), what each step of the loop does
// to it, and the invariants every step keeps. The class in echo_server.dfy
// is proved to do exactly what these functions say.
module ReactorSpec {
  import opened Epoll

  /** The reactor's state. `received` and `echoed` are per-connection
      histories (every byte read from the peer, every byte `send` reported as taken);
      the server does not keep them, they exist to state the echo property. */
  datatype Tables = Tables(
    listener: Fd,
    listening: bool,
    conns: map<Fd, Socket>,
    outbuf: map<Fd, seq<byte>>,
    interest: map<Fd, Mask>,
    received: map<Fd, seq<byte>>,
    echoed: map<Fd, seq<byte>>)

  /** The state right after the listening socket is registered. */
  function Start(listener: Fd): Tables
  {
    Tables(listener, true, map[], map[], map[], map[], map[])
  }

  /** The interest a connection should have, given its pending output. */
  function InterestFor(pending: seq<byte>): Mask
  {
    if pending == [] then READ_INTEREST else WRITE_INTEREST
  }

  // ---------------------------------------------------------------------
  // Invariants

  /** Every table has exactly the open connections as keys, and the
      listener is not one of them. */
  predicate InLockstep(t: Tables)
  {
    && t.outbuf.Keys == t.conns.Keys
    && t.interest.Keys == t.conns.Keys
    && t.received.Keys == t.conns.Keys
    && t.echoed.Keys == t.conns.Keys
    && t.listener !in t.conns
  }

  /** Write interest is armed exactly when output is pending on `fd`. */
  predicate InterestTracksOutput(t: Tables, fd: Fd)
    requires fd in t.interest && fd in t.outbuf
  {
    t.interest[fd] == InterestFor(t.outbuf[fd])
  }

  /** Bytes echoed so far to `fd`, followed by its pending output, are
      exactly the bytes received from it: nothing lost, nothing reordered. */
  predicate EchoesInOrder(t: Tables, fd: Fd)
    requires fd in t.echoed && fd in t.outbuf && fd in t.received
  {
    t.echoed[fd] + t.outbuf[fd] == t.received[fd]
  }

  /** The invariants of one open connection. */
  predicate ConnValid(t: Tables, fd: Fd)
    requires InLockstep(t) && fd in t.conns
  {
    t.conns[fd].fd == fd && InterestTracksOutput(t, fd) && EchoesInOrder(t, fd)
  }

  predicate Valid(t: Tables)
  {
    InLockstep(t) && forall fd :: fd in t.conns ==> ConnValid(t, fd)
  }

  // ---------------------------------------------------------------------
  // cleanup(ep, conns, outbuf, fd)

  /** Forget `fd` everywhere; an absent fd leaves the tables as they are. */
  function Cleanup(t: Tables, fd: Fd): Tables
  {
    t.(conns := t.conns - {fd}, outbuf := t.outbuf - {fd},
       interest := t.interest - {fd},
       received := t.received - {fd}, echoed := t.echoed - {fd})
  }

  /** A non-empty set of fds has a member to pick. */
  lemma SomeMember(s: set<Fd>)
    requires s != {}
    ensures exists fd :: fd in s
  {
    if forall fd :: fd !in s {
      assert false;
    }
  }

  /** Removing a key forgets what was last stored under it. */
  lemma RemoveUpdated<V>(m: map<Fd, V>, fd: Fd, v: V)
    ensures m[fd := v] - {fd} == m - {fd}
  {
  }

  // ---------------------------------------------------------------------
  // The accept drain loop

  /** The scripted accept calls end with a failure before running out. */
  predicate AcceptTerminates(accepts: seq<AcceptOutcome>)
  {
    |accepts| > 0 && (accepts[0].AcceptFailed? || AcceptTerminates(accepts[1..]))
  }

  /** How the accept loop ended: drained by a would-block, or by an
      exception that propagates out of the event loop. */
  datatype AcceptEnd = Drained | Raised(errno: int)

  /** `fd` is already registered with the epoll object. */
  predicate Registered(t: Tables, fd: Fd)
  {
    fd == t.listener || fd in t.interest
  }

  /** Enter a new connection in the tables with an empty buffer and empty
      histories (before it is registered with epoll). */
  function Admit(t: Tables, conn: Socket): Tables
  {
    t.(conns := t.conns[conn.fd := conn], outbuf := t.outbuf[conn.fd := []],
       received := t.received[conn.fd := []], echoed := t.echoed[conn.fd := []])
  }

  /** Admit a new connection and register it with epoll for read, hangup
      and error. */
  function Register(t: Tables, conn: Socket): Tables
  {
    var admitted := Admit(t, conn);
    admitted.(interest := admitted.interest[conn.fd := READ_INTEREST])
  }

  /** The accept loop: admit and register each new connection until a
      failure. A would-block failure ends the loop; any other failure, or
      registering an fd epoll already watches (EEXIST), raises. */
  function AcceptLoop(t: Tables, accepts: seq<AcceptOutcome>): (Tables, AcceptEnd)
    requires AcceptTerminates(accepts)
    decreases |accepts|
  {
    match accepts[0]
    case Accepted(conn) =>
      if Registered(t, conn.fd) then (Admit(t, conn), Raised(EEXIST))
      else AcceptLoop(Register(t, conn), accepts[1..])
    case AcceptFailed(why) =>
      if Transient(why) then (t, Drained) else (t, Raised(why.errno))
  }

  // ---------------------------------------------------------------------
  // The read phase

  /** A recv outcome that ends the read loop: an empty read or a failure. */
  predicate EndsRead(o: RecvOutcome)
  {
    o.RecvFailed? || o.data == []
  }

  /** A recv outcome after which the connection is cleaned up. */
  predicate ClosesOnRead(o: RecvOutcome)
  {
    (o.Received? && o.data == []) || (o.RecvFailed? && !Transient(o.why))
  }

  /** The scripted recv calls reach an outcome that ends the loop. */
  predicate RecvTerminates(recvs: seq<RecvOutcome>)
  {
    |recvs| > 0 && (EndsRead(recvs[0]) || RecvTerminates(recvs[1..]))
  }

  /** The index of the recv outcome that ends the read loop. */
  function RecvStop(recvs: seq<RecvOutcome>): (k: nat)
    requires RecvTerminates(recvs)
    ensures k < |recvs| && EndsRead(recvs[k])
    ensures forall j :: 0 <= j < k ==> !EndsRead(recvs[j])
    decreases |recvs|
  {
    if EndsRead(recvs[0]) then 0 else 1 + RecvStop(recvs[1..])
  }

  /** The concatenation, in order, of the data of the given recv outcomes. */
  function Arrived(recvs: seq<RecvOutcome>): seq<byte>
  {
    if recvs == [] then []
    else (if recvs[0].Received? then recvs[0].data else []) + Arrived(recvs[1..])
  }

  /** Arrived distributes over concatenation of outcome sequences. */
  lemma {:induction false} ArrivedAppend(a: seq<RecvOutcome>, b: seq<RecvOutcome>)
    ensures Arrived(a + b) == Arrived(a) + Arrived(b)
    decreases |a|
  {
    if a != [] {
      assert (a + b)[0] == a[0] && (a + b)[1..] == a[1..] + b;
      ArrivedAppend(a[1..], b);
    } else {
      assert a + b == b;
    }
  }

  /** One more recv outcome appends its data, if any, at the end. */
  lemma ArrivedStep(recvs: seq<RecvOutcome>, i: nat)
    requires i < |recvs|
    ensures Arrived(recvs[..i + 1])
         == Arrived(recvs[..i]) + (if recvs[i].Received? then recvs[i].data else [])
  {
    assert recvs[..i + 1] == recvs[..i] + [recvs[i]];
    ArrivedAppend(recvs[..i], [recvs[i]]);
  }

  /** The read phase for an open connection: append every chunk before the
      ending outcome to its buffer, clean it up if that outcome closes it,
      and arm write interest if output is now pending. */
  function ReadReady(t: Tables, fd: Fd, recvs: seq<RecvOutcome>): Tables
    requires InLockstep(t) && fd in t.conns && RecvTerminates(recvs)
  {
    var k := RecvStop(recvs);
    if ClosesOnRead(recvs[k]) then Cleanup(t, fd)
    else
      var chunk := Arrived(recvs[..k]);
      var pending := t.outbuf[fd] + chunk;
      t.(outbuf := t.outbuf[fd := pending],
         received := t.received[fd := t.received[fd] + chunk],
         interest := if pending != [] then t.interest[fd := WRITE_INTEREST] else t.interest)
  }

  // ---------------------------------------------------------------------
  // The write phase

  /** A send outcome that ends the send loop: zero bytes taken, or a failure. */
  predicate EndsWrite(o: SendOutcome)
  {
    o.SendFailed? || o.count == 0
  }

  /** The scripted send calls reach an outcome that ends the loop. */
  predicate SendTerminates(sends: seq<SendOutcome>)
  {
    |sends| > 0 && (EndsWrite(sends[0]) || SendTerminates(sends[1..]))
  }

  /** What the send loop did to a buffer: the bytes taken by the kernel, the
      bytes still pending, and whether the connection is still open. */
  datatype Flush = Flush(sent: seq<byte>, rest: seq<byte>, open: bool)

  /** The send loop over `buf`: each send of n bytes removes the first n
      (all of them when n exceeds the length, as `del buf[:n]` does); a send
      of 0 bytes or a non-transient failure closes the connection. */
  function SendLoop(buf: seq<byte>, sends: seq<SendOutcome>): (f: Flush)
    requires buf != [] ==> SendTerminates(sends)
    decreases |sends|
  {
    if buf == [] then Flush([], [], true)
    else
      match sends[0]
      case Sent(n) =>
        if n == 0 then Flush([], buf, false)
        else
          var m := if n < |buf| then n else |buf|;
          var f := SendLoop(buf[m..], sends[1..]);
          Flush(buf[..m] + f.sent, f.rest, f.open)
      case SendFailed(why) => Flush([], buf, Transient(why))
  }

  /** The bytes `send` reported as taken, followed by the bytes it
      leaves pending, are the buffer it started with. */
  lemma {:induction false} SendLoopSplits(buf: seq<byte>, sends: seq<SendOutcome>)
    requires buf != [] ==> SendTerminates(sends)
    ensures SendLoop(buf, sends).sent + SendLoop(buf, sends).rest == buf
    decreases |sends|
  {
    if buf != [] && sends[0].Sent? && sends[0].count != 0 {
      var n := sends[0].count;
      var m := if n < |buf| then n else |buf|;
      SendLoopSplits(buf[m..], sends[1..]);
      var f := SendLoop(buf[m..], sends[1..]);
      assert SendLoop(buf, sends) == Flush(buf[..m] + f.sent, f.rest, f.open);
      PrefixThenSplit(buf, m, f.sent, f.rest);
    }
  }

  /** A prefix of `a` followed by a split of the remainder is `a`. */
  lemma PrefixThenSplit<T>(a: seq<T>, m: nat, front: seq<T>, back: seq<T>)
    requires m <= |a| && front + back == a[m..]
    ensures (a[..m] + front) + back == a
  {
    assert (a[..m] + front) + back == a[..m] + a[m..];
  }

  /** A flush preceded by bytes already sent. */
  function SentBefore(sent: seq<byte>, f: Flush): Flush
  {
    Flush(sent + f.sent, f.rest, f.open)
  }

  /** Unfolding one successful send of the send loop. */
  lemma SendLoopTakes(sent: seq<byte>, buf: seq<byte>, sends: seq<SendOutcome>, m: nat)
    requires buf != [] && SendTerminates(sends)
    requires sends[0].Sent? && sends[0].count != 0
    requires m == if sends[0].count < |buf| then sends[0].count else |buf|
    ensures buf[m..] != [] ==> SendTerminates(sends[1..])
    ensures SentBefore(sent, SendLoop(buf, sends))
         == SentBefore(sent + buf[..m], SendLoop(buf[m..], sends[1..]))
  {
    var later := SendLoop(buf[m..], sends[1..]);
    assert sent + (buf[..m] + later.sent) == (sent + buf[..m]) + later.sent;
  }

  /** Unfolding the send that ends the send loop. */
  lemma SendLoopEnds(buf: seq<byte>, sends: seq<SendOutcome>)
    requires buf != [] && SendTerminates(sends) && EndsWrite(sends[0])
    ensures SendLoop(buf, sends)
         == Flush([], buf, sends[0].SendFailed? && Transient(sends[0].why))
  {
  }

  /** The write phase: with nothing pending, only reset the interest of an
      open connection; otherwise run the send loop, clean up if it closed
      the connection, and drop write interest once the buffer is empty. */
  function WriteReady(t: Tables, fd: Fd, sends: seq<SendOutcome>): Tables
    requires InLockstep(t) && SendTerminates(sends)
  {
    if fd !in t.outbuf || t.outbuf[fd] == [] then
      if fd in t.conns then t.(interest := t.interest[fd := READ_INTEREST]) else t
    else
      var f := SendLoop(t.outbuf[fd], sends);
      if !f.open then Cleanup(t, fd)
      else
        var flushed := t.(outbuf := t.outbuf[fd := f.rest],
                          echoed := t.echoed[fd := t.echoed[fd] + f.sent]);
        if f.rest == [] then flushed.(interest := flushed.interest[fd := READ_INTEREST])
        else flushed
  }

  // ---------------------------------------------------------------------
  // Dispatch of one event on a connection fd

  /** The scripts an event's handling consumes end where the loops need. */
  predicate EventScripted(ev: Mask, recvs: seq<RecvOutcome>, sends: seq<SendOutcome>)
  {
    ((ev & EPOLLIN) != 0 ==> RecvTerminates(recvs))
    && ((ev & EPOLLOUT) != 0 ==> SendTerminates(sends))
  }

  /** Unknown fds are ignored; hangup or error cleans up before anything
      else; otherwise the read phase, then the write phase. */
  function HandleEvent(t: Tables, fd: Fd, ev: Mask, recvs: seq<RecvOutcome>, sends: seq<SendOutcome>): Tables
    requires Valid(t) && EventScripted(ev, recvs, sends)
  {
    if fd !in t.conns then t
    else if (ev & (EPOLLHUP | EPOLLERR)) != 0 then Cleanup(t, fd)
    else
      var afterRead := if (ev & EPOLLIN) != 0 then ReadReady(t, fd, recvs) else t;
      if (ev & EPOLLOUT) != 0 then WriteReady(afterRead, fd, sends) else afterRead
  }

  // ---------------------------------------------------------------------
  // The `finally` teardown and the event loop

  /** Unregister the listener, close epoll (dropping every registration) and
      clean up every fd in the connection table. */
  function Teardown(t: Tables): Tables
  {
    var open := t.conns.Keys;
    Tables(t.listener, false, map[], t.outbuf - open, map[], t.received - open, t.echoed - open)
  }

  /** One readiness event as epoll reports it, with the outcomes of the
      socket calls its handling makes. */
  datatype Ready = Ready(fd: Fd, ev: Mask, accepts: seq<AcceptOutcome>,
                         recvs: seq<RecvOutcome>, sends: seq<SendOutcome>)

  predicate Scripted(e: Ready, listener: Fd)
  {
    if e.fd == listener then AcceptTerminates(e.accepts)
    else EventScripted(e.ev, e.recvs, e.sends)
  }

  /** The event loop over a finite batch of events: events on the listener
      drain the accept queue, all others are dispatched per connection; an
      exception from accept runs the teardown and ends the loop. */
  function Serve(t: Tables, batch: seq<Ready>): (Tables, AcceptEnd)
    requires Valid(t)
    requires forall i :: 0 <= i < |batch| ==> Scripted(batch[i], t.listener)
    decreases |batch|
  {
    if batch == [] then (t, Drained)
    else
      var e := batch[0];
      assert Scripted(e, t.listener);
      if e.fd == t.listener then
        var (next, end) := AcceptLoop(t, e.accepts);
        AcceptLoopValid(t, e.accepts);
        AcceptLoopKeys(t, e.accepts);
        if end.Raised? then (Teardown(next), end) else Serve(next, batch[1..])
      else
        HandleEventValid(t, e.fd, e.ev, e.recvs, e.sends);
        Serve(HandleEvent(t, e.fd, e.ev, e.recvs, e.sends), batch[1..])
  }

  // ---------------------------------------------------------------------
  // Every step keeps the invariants

  lemma CleanupValid(t: Tables, fd: Fd)
    requires Valid(t)
    ensures Valid(Cleanup(t, fd))
  {
  }

  /** Registering a connection whose fd epoll does not watch yet keeps the
      tables valid. */
  lemma RegisterValid(t: Tables, conn: Socket)
    requires Valid(t) && !Registered(t, conn.fd)
    ensures Valid(Register(t, conn))
  {
    var r := Register(t, conn);
    assert InLockstep(r);
    forall fd | fd in r.conns
      ensures ConnValid(r, fd)
    {
      if fd != conn.fd {
        assert ConnValid(t, fd);
      }
    }
  }

  /** Whatever the accept loop does, the connection table and the buffer and
      history tables keep the same keys, and the listener stays as it was. */
  lemma {:induction false} AcceptLoopKeys(t: Tables, accepts: seq<AcceptOutcome>)
    requires InLockstep(t) && AcceptTerminates(accepts)
    ensures var (r, _) := AcceptLoop(t, accepts);
      && r.listener == t.listener && r.listening == t.listening
      && r.outbuf.Keys == r.conns.Keys && r.received.Keys == r.conns.Keys
      && r.echoed.Keys == r.conns.Keys
    decreases |accepts|
  {
    if accepts[0].Accepted? && !Registered(t, accepts[0].conn.fd) {
      AcceptLoopKeys(Register(t, accepts[0].conn), accepts[1..]);
    }
  }

  /** An accept loop drained by a would-block keeps the tables valid. */
  lemma {:induction false} AcceptLoopValid(t: Tables, accepts: seq<AcceptOutcome>)
    requires Valid(t) && AcceptTerminates(accepts)
    ensures AcceptLoop(t, accepts).1.Drained? ==> Valid(AcceptLoop(t, accepts).0)
    decreases |accepts|
  {
    if accepts[0].Accepted? && !Registered(t, accepts[0].conn.fd) {
      RegisterValid(t, accepts[0].conn);
      AcceptLoopValid(Register(t, accepts[0].conn), accepts[1..]);
    }
  }

  /** Overwrite every entry of connection `fd` except its socket. */
  function Put(t: Tables, fd: Fd, pending: seq<byte>, mask: Mask, got: seq<byte>, gave: seq<byte>): Tables
  {
    t.(outbuf := t.outbuf[fd := pending], interest := t.interest[fd := mask],
       received := t.received[fd := got], echoed := t.echoed[fd := gave])
  }

  /** Changing one open connection's entries in a way that keeps its own
      invariants keeps the tables valid. */
  lemma PutValid(t: Tables, fd: Fd, pending: seq<byte>, mask: Mask, got: seq<byte>, gave: seq<byte>)
    requires Valid(t) && fd in t.conns
    requires mask == InterestFor(pending) && gave + pending == got
    ensures Valid(Put(t, fd, pending, mask, got, gave))
  {
    var r := Put(t, fd, pending, mask, got, gave);
    assert InLockstep(r);
    forall g | g in r.conns
      ensures ConnValid(r, g)
    {
      if g != fd {
        assert ConnValid(t, g);
      }
    }
  }

  /** The read phase of a connection it leaves open only changes that
      connection's buffer, history and interest. */
  lemma ReadReadyPuts(t: Tables, fd: Fd, recvs: seq<RecvOutcome>)
    requires InLockstep(t) && fd in t.conns && RecvTerminates(recvs)
    requires !ClosesOnRead(recvs[RecvStop(recvs)])
    ensures var chunk := Arrived(recvs[..RecvStop(recvs)]);
      var pending := t.outbuf[fd] + chunk;
      ReadReady(t, fd, recvs)
        == Put(t, fd, pending, if pending != [] then WRITE_INTEREST else t.interest[fd],
               t.received[fd] + chunk, t.echoed[fd])
  {
    assert t.interest[fd := t.interest[fd]] == t.interest;
    assert t.echoed[fd := t.echoed[fd]] == t.echoed;
  }

  lemma ReadReadyValid(t: Tables, fd: Fd, recvs: seq<RecvOutcome>)
    requires Valid(t) && fd in t.conns && RecvTerminates(recvs)
    ensures Valid(ReadReady(t, fd, recvs))
  {
    var k := RecvStop(recvs);
    if !ClosesOnRead(recvs[k]) {
      var chunk := Arrived(recvs[..k]);
      var pending := t.outbuf[fd] + chunk;
      var mask := if pending != [] then WRITE_INTEREST else t.interest[fd];
      ReadReadyPuts(t, fd, recvs);
      assert ConnValid(t, fd);
      assert t.echoed[fd] + pending == t.received[fd] + chunk;
      PutValid(t, fd, pending, mask, t.received[fd] + chunk, t.echoed[fd]);
    } else {
      CleanupValid(t, fd);
    }
  }

  /** The write phase of a connection with nothing pending only resets its
      interest to read. */
  lemma WriteReadyIdles(t: Tables, fd: Fd, sends: seq<SendOutcome>)
    requires InLockstep(t) && SendTerminates(sends)
    requires fd in t.conns && t.outbuf[fd] == []
    ensures WriteReady(t, fd, sends) == Put(t, fd, [], READ_INTEREST, t.received[fd], t.echoed[fd])
  {
    assert t.received[fd := t.received[fd]] == t.received;
    assert t.outbuf[fd := t.outbuf[fd]] == t.outbuf;
    assert t.echoed[fd := t.echoed[fd]] == t.echoed;
  }

  /** The write phase of a connection the send loop leaves open only
      changes that connection's buffer, history and interest. */
  lemma WriteReadyPuts(t: Tables, fd: Fd, sends: seq<SendOutcome>)
    requires InLockstep(t) && SendTerminates(sends)
    requires fd in t.conns && t.outbuf[fd] != [] && SendLoop(t.outbuf[fd], sends).open
    ensures var f := SendLoop(t.outbuf[fd], sends);
      WriteReady(t, fd, sends)
        == Put(t, fd, f.rest, if f.rest == [] then READ_INTEREST else t.interest[fd],
               t.received[fd], t.echoed[fd] + f.sent)
  {
    assert t.received[fd := t.received[fd]] == t.received;
    assert t.interest[fd := t.interest[fd]] == t.interest;
  }

  /** A send loop that leaves the connection open keeps the tables valid. */
  lemma WriteFlushValid(t: Tables, fd: Fd, sends: seq<SendOutcome>)
    requires Valid(t) && SendTerminates(sends)
    requires fd in t.conns && t.outbuf[fd] != [] && SendLoop(t.outbuf[fd], sends).open
    ensures Valid(WriteReady(t, fd, sends))
  {
    var f := SendLoop(t.outbuf[fd], sends);
    var mask := if f.rest == [] then READ_INTEREST else t.interest[fd];
    WriteReadyPuts(t, fd, sends);
    assert ConnValid(t, fd);
    SendLoopSplits(t.outbuf[fd], sends);
    assert (t.echoed[fd] + f.sent) + f.rest == t.echoed[fd] + t.outbuf[fd];
    PutValid(t, fd, f.rest, mask, t.received[fd], t.echoed[fd] + f.sent);
  }

  lemma WriteReadyValid(t: Tables, fd: Fd, sends: seq<SendOutcome>)
    requires Valid(t) && SendTerminates(sends)
    ensures Valid(WriteReady(t, fd, sends))
  {
    if fd in t.outbuf {
      assert ConnValid(t, fd);
      if t.outbuf[fd] == [] {
        WriteReadyIdles(t, fd, sends);
        PutValid(t, fd, [], READ_INTEREST, t.received[fd], t.echoed[fd]);
      } else {
        if SendLoop(t.outbuf[fd], sends).open {
          WriteFlushValid(t, fd, sends);
        } else {
          CleanupValid(t, fd);
        }
      }
    }
  }

  lemma HandleEventValid(t: Tables, fd: Fd, ev: Mask, recvs: seq<RecvOutcome>, sends: seq<SendOutcome>)
    requires Valid(t) && EventScripted(ev, recvs, sends)
    ensures Valid(HandleEvent(t, fd, ev, recvs, sends))
    ensures HandleEvent(t, fd, ev, recvs, sends).listener == t.listener
  {
    if fd in t.conns && (ev & (EPOLLHUP | EPOLLERR)) == 0 {
      if (ev & EPOLLIN) != 0 {
        ReadReadyValid(t, fd, recvs);
      }
      var afterRead := if (ev & EPOLLIN) != 0 then ReadReady(t, fd, recvs) else t;
      if (ev & EPOLLOUT) != 0 {
        WriteReadyValid(afterRead, fd, sends);
      }
    }
  }

  lemma TeardownValid(t: Tables)
    requires t.outbuf.Keys == t.conns.Keys && t.received.Keys == t.conns.Keys
    requires t.echoed.Keys == t.conns.Keys
    ensures Valid(Teardown(t))
    ensures Teardown(t) == Tables(t.listener, false, map[], map[], map[], map[], map[])
  {
    assert t.outbuf - t.conns.Keys == map[];
    assert t.received - t.conns.Keys == map[];
    assert t.echoed - t.conns.Keys == map[];
  }

  /** The event loop keeps the tables valid; an exception from accept leaves
      them empty with the listener unregistered. */
  lemma {:induction false} ServeValid(t: Tables, batch: seq<Ready>)
    requires Valid(t)
    requires forall i :: 0 <= i < |batch| ==> Scripted(batch[i], t.listener)
    ensures var (r, end) := Serve(t, batch);
      && Valid(r) && r.listener == t.listener
      && (end.Raised? ==> r.conns == map[] && r.outbuf == map[] && !r.listening)
    decreases |batch|
  {
    if batch != [] {
      var e := batch[0];
      if e.fd == t.listener {
        var (next, end) := AcceptLoop(t, e.accepts);
        AcceptLoopValid(t, e.accepts);
        AcceptLoopKeys(t, e.accepts);
        if end.Raised? {
          TeardownValid(next);
        } else {
          ServeValid(next, batch[1..]);
        }
      } else {
        HandleEventValid(t, e.fd, e.ev, e.recvs, e.sends);
        ServeValid(HandleEvent(t, e.fd, e.ev, e.recvs, e.sends), batch[1..]);
      }
    }
  }
}
