// What the echo reactor's bookkeeping promises, stated over the functions of
// ReactorSpec: cleanup touches only its own fd, teardown is cleanup of every
// connection, the accept loop registers fresh connections and stops where
// echo_server.py says, reads append in arrival order, sends remove exact
// prefixes, and every event leaves other connections alone and only extends
// the byte histories of its own.
module ReactorProperties {
  import opened Epoll
  import opened ReactorSpec

  // ---------------------------------------------------------------------
  // Per-fd comparison of two states

  /** `g` has the same entry, or none, in both maps. */
  predicate Same<V(==)>(a: map<Fd, V>, b: map<Fd, V>, g: Fd)
  {
    (g in a <==> g in b) && (g in a ==> a[g] == b[g])
  }

  /** Connection `g` has the same entries in `t` and in `r`. */
  predicate Untouched(t: Tables, r: Tables, g: Fd)
  {
    && Same(t.conns, r.conns, g) && Same(t.outbuf, r.outbuf, g)
    && Same(t.interest, r.interest, g)
    && Same(t.received, r.received, g) && Same(t.echoed, r.echoed, g)
  }

  // ---------------------------------------------------------------------
  // cleanup and the teardown

  /** cleanup forgets `fd` in every table and leaves every other fd and the
      listener as they were. */
  lemma CleanupIsolated(t: Tables, fd: Fd)
    ensures var r := Cleanup(t, fd);
      && fd !in r.conns && fd !in r.outbuf && fd !in r.interest
      && fd !in r.received && fd !in r.echoed
      && r.listener == t.listener && r.listening == t.listening
      && forall g :: g != fd ==> Untouched(t, r, g)
  {
  }

  /** A second cleanup of the same fd changes nothing. */
  lemma CleanupIdempotent(t: Tables, fd: Fd)
    ensures Cleanup(Cleanup(t, fd), fd) == Cleanup(t, fd)
  {
    var once := Cleanup(t, fd);
    assert once.conns - {fd} == once.conns;
    assert once.outbuf - {fd} == once.outbuf;
    assert once.interest - {fd} == once.interest;
    assert once.received - {fd} == once.received;
    assert once.echoed - {fd} == once.echoed;
  }

  /** cleanup of an fd that is not an open connection is a no-op. */
  lemma CleanupAbsent(t: Tables, fd: Fd)
    requires InLockstep(t) && fd !in t.conns
    ensures Cleanup(t, fd) == t
  {
    assert t.conns - {fd} == t.conns;
    assert t.outbuf - {fd} == t.outbuf;
    assert t.interest - {fd} == t.interest;
    assert t.received - {fd} == t.received;
    assert t.echoed - {fd} == t.echoed;
  }

  /** cleanup applied to each fd of a list in turn, as the teardown does
      for a snapshot of the connection table's keys. */
  function CleanupEach(t: Tables, fds: seq<Fd>): Tables
    decreases |fds|
  {
    if fds == [] then t else CleanupEach(Cleanup(t, fds[0]), fds[1..])
  }

  /** Removing one key and then a set of keys removes their union. */
  lemma RemoveThenRemove<V>(m: map<Fd, V>, fd: Fd, later: set<Fd>)
    ensures (m - {fd}) - later == m - ({fd} + later)
  {
  }

  /** Cleaning up a list of fds removes exactly the listed fds from every
      table. */
  lemma {:induction false} CleanupEachRemoves(t: Tables, fds: seq<Fd>)
    ensures var gone := set fd | fd in fds;
      CleanupEach(t, fds)
        == t.(conns := t.conns - gone, outbuf := t.outbuf - gone, interest := t.interest - gone,
              received := t.received - gone, echoed := t.echoed - gone)
    decreases |fds|
  {
    var gone := set fd | fd in fds;
    if fds == [] {
      assert gone == {};
      assert t.conns - gone == t.conns && t.outbuf - gone == t.outbuf;
      assert t.interest - gone == t.interest;
      assert t.received - gone == t.received && t.echoed - gone == t.echoed;
    } else {
      var later := set fd | fd in fds[1..];
      assert gone == {fds[0]} + later by {
        assert fds == [fds[0]] + fds[1..];
      }
      CleanupEachRemoves(Cleanup(t, fds[0]), fds[1..]);
      RemoveThenRemove(t.conns, fds[0], later);
      RemoveThenRemove(t.outbuf, fds[0], later);
      RemoveThenRemove(t.interest, fds[0], later);
      RemoveThenRemove(t.received, fds[0], later);
      RemoveThenRemove(t.echoed, fds[0], later);
    }
  }

  /** The teardown is: unregister the listener, close epoll (no fd keeps an
      interest), then clean up every open connection; from valid tables it
      leaves every table empty. */
  lemma TeardownIsCleanupEach(t: Tables, fds: seq<Fd>)
    requires (set fd | fd in fds) == t.conns.Keys
    ensures Teardown(t) == CleanupEach(t, fds).(listening := false, interest := map[])
    ensures Valid(t) ==> Teardown(t) == Tables(t.listener, false, map[], map[], map[], map[], map[])
  {
    CleanupEachRemoves(t, fds);
    if Valid(t) {
      TeardownValid(t);
    }
  }

  /** Overwriting one open connection's entries touches no other fd. */
  lemma PutIsolated(t: Tables, fd: Fd, pending: seq<byte>, mask: Mask, got: seq<byte>, gave: seq<byte>)
    requires fd in t.conns
    ensures var r := Put(t, fd, pending, mask, got, gave);
      && r.listener == t.listener && r.listening == t.listening && r.conns == t.conns
      && fd in r.outbuf && r.outbuf[fd] == pending && fd in r.interest && r.interest[fd] == mask
      && fd in r.received && r.received[fd] == got && fd in r.echoed && r.echoed[fd] == gave
      && forall g :: g != fd ==> Untouched(t, r, g)
  {
  }

  // ---------------------------------------------------------------------
  // The accept drain loop

  /** The index of the accept outcome that ends the loop unless an fd is
      refused first: the first failure. */
  function AcceptStop(accepts: seq<AcceptOutcome>): (k: nat)
    requires AcceptTerminates(accepts)
    ensures k < |accepts| && accepts[k].AcceptFailed?
    ensures forall j :: 0 <= j < k ==> accepts[j].Accepted?
    decreases |accepts|
  {
    if accepts[0].AcceptFailed? then 0 else 1 + AcceptStop(accepts[1..])
  }

  /** The accepted connections have pairwise distinct fds, none of which
      epoll watches already in `t`. */
  predicate Fresh(t: Tables, accepted: seq<AcceptOutcome>)
  {
    && (forall j :: 0 <= j < |accepted| ==> accepted[j].Accepted? && !Registered(t, accepted[j].conn.fd))
    && (forall i, j :: 0 <= i < j < |accepted| && accepted[i].Accepted? && accepted[j].Accepted?
          ==> accepted[i].conn.fd != accepted[j].conn.fd)
  }

  /** The fds of the accepted connections. */
  function NewFds(accepted: seq<AcceptOutcome>): set<Fd>
  {
    set j | 0 <= j < |accepted| && accepted[j].Accepted? :: accepted[j].conn.fd
  }

  /** How the accept loop ends: with EEXIST as soon as an accepted fd is
      already registered, otherwise at the first failure, which drains the
      loop if it is a would-block and propagates otherwise. */
  lemma {:induction false} AcceptLoopEnd(t: Tables, accepts: seq<AcceptOutcome>)
    requires InLockstep(t) && AcceptTerminates(accepts)
    ensures var k := AcceptStop(accepts);
      AcceptLoop(t, accepts).1
        == if !Fresh(t, accepts[..k]) then Raised(EEXIST)
           else if Transient(accepts[k].why) then Drained
           else Raised(accepts[k].why.errno)
    decreases |accepts|
  {
    var k := AcceptStop(accepts);
    if accepts[0].Accepted? {
      var c := accepts[0].conn;
      if Registered(t, c.fd) {
        assert !Fresh(t, accepts[..k]) by {
          assert accepts[..k][0] == accepts[0];
        }
      } else {
        var t' := Register(t, c);
        AcceptLoopEnd(t', accepts[1..]);
        assert accepts[1..][..k - 1] == accepts[..k][1..];
        FreshStep(t, c, accepts[..k]);
      }
    } else {
      assert accepts[..k] == [];
    }
  }

  /** Freshness of a list of accepts headed by a connection `c` that epoll
      does not watch, and freshness of the rest once `c` is registered. */
  lemma FreshStep(t: Tables, c: Socket, accepted: seq<AcceptOutcome>)
    requires InLockstep(t) && !Registered(t, c.fd)
    requires |accepted| > 0 && accepted[0] == Accepted(c)
    ensures Fresh(t, accepted) <==> Fresh(Register(t, c), accepted[1..])
  {
    var t' := Register(t, c);
    var rest := accepted[1..];
    if Fresh(t, accepted) {
      forall j | 0 <= j < |rest|
        ensures rest[j].Accepted? && !Registered(t', rest[j].conn.fd)
      {
        assert rest[j] == accepted[j + 1];
      }
      forall i, j | 0 <= i < j < |rest| && rest[i].Accepted? && rest[j].Accepted?
        ensures rest[i].conn.fd != rest[j].conn.fd
      {
        assert rest[i] == accepted[i + 1] && rest[j] == accepted[j + 1];
      }
    }
    if Fresh(t', rest) {
      forall j | 0 <= j < |accepted|
        ensures accepted[j].Accepted? && !Registered(t, accepted[j].conn.fd)
      {
        if j > 0 {
          assert accepted[j] == rest[j - 1];
        }
      }
      forall i, j | 0 <= i < j < |accepted| && accepted[i].Accepted? && accepted[j].Accepted?
        ensures accepted[i].conn.fd != accepted[j].conn.fd
      {
        assert accepted[j] == rest[j - 1];
        if i > 0 {
          assert accepted[i] == rest[i - 1];
        }
      }
    }
  }

  /** The fds of a list of accepts headed by `c`. */
  lemma NewFdsStep(accepted: seq<AcceptOutcome>, c: Socket)
    requires |accepted| > 0 && accepted[0] == Accepted(c)
    ensures NewFds(accepted) == {c.fd} + NewFds(accepted[1..])
  {
    var rest := accepted[1..];
    forall fd | fd in NewFds(accepted)
      ensures fd in {c.fd} + NewFds(rest)
    {
      var j :| 0 <= j < |accepted| && accepted[j].Accepted? && accepted[j].conn.fd == fd;
      if j > 0 {
        assert rest[j - 1] == accepted[j];
      }
    }
    forall fd | fd in NewFds(rest)
      ensures fd in NewFds(accepted)
    {
      var j :| 0 <= j < |rest| && rest[j].Accepted? && rest[j].conn.fd == fd;
      assert accepted[j + 1] == rest[j];
    }
  }

  /** Registering `c` touches no other fd and enters `c` with an empty
      buffer and read interest. */
  lemma RegisterIsolated(t: Tables, c: Socket)
    ensures var r := Register(t, c);
      && r.listener == t.listener && r.listening == t.listening
      && r.conns.Keys == t.conns.Keys + {c.fd}
      && c.fd in r.conns && r.conns[c.fd] == c
      && c.fd in r.outbuf && r.outbuf[c.fd] == []
      && c.fd in r.interest && r.interest[c.fd] == READ_INTEREST
      && forall fd :: fd != c.fd ==> Untouched(t, r, fd)
  {
  }

  /** One fresh accepted connection: the loop registers it and goes on
      with the rest of the accepts, which are fresh for the new tables. */
  lemma AcceptStep(t: Tables, accepts: seq<AcceptOutcome>)
    requires InLockstep(t) && AcceptTerminates(accepts) && accepts[0].Accepted?
    requires Fresh(t, accepts[..AcceptStop(accepts)])
    ensures var c := accepts[0].conn;
      var k := AcceptStop(accepts);
      && !Registered(t, c.fd) && InLockstep(Register(t, c))
      && AcceptTerminates(accepts[1..]) && AcceptStop(accepts[1..]) == k - 1
      && Fresh(Register(t, c), accepts[1..][..k - 1])
      && NewFds(accepts[..k]) == {c.fd} + NewFds(accepts[1..][..k - 1])
      && AcceptLoop(t, accepts) == AcceptLoop(Register(t, c), accepts[1..])
  {
    var k := AcceptStop(accepts);
    var p := accepts[..k];
    var c := accepts[0].conn;
    assert p[0] == accepts[0];
    assert accepts[1..][..k - 1] == p[1..];
    FreshStep(t, c, p);
    NewFdsStep(p, c);
  }

  /** An accept loop over fresh connections adds exactly the accepted fds
      to the connection table and keeps the listener as it was. */
  lemma {:induction false} AcceptLoopGrows(t: Tables, accepts: seq<AcceptOutcome>)
    requires InLockstep(t) && AcceptTerminates(accepts)
    requires Fresh(t, accepts[..AcceptStop(accepts)])
    ensures var r := AcceptLoop(t, accepts).0;
      && r.listener == t.listener && r.listening == t.listening
      && r.conns.Keys == t.conns.Keys + NewFds(accepts[..AcceptStop(accepts)])
    decreases |accepts|
  {
    if accepts[0].Accepted? {
      AcceptStep(t, accepts);
      AcceptLoopGrows(Register(t, accepts[0].conn), accepts[1..]);
    } else {
      assert accepts[..AcceptStop(accepts)] == [];
      assert NewFds([]) == {};
    }
  }

  /** An accept loop over fresh connections keeps every existing entry. */
  lemma {:induction false} AcceptLoopKeeps(t: Tables, accepts: seq<AcceptOutcome>)
    requires InLockstep(t) && AcceptTerminates(accepts)
    requires Fresh(t, accepts[..AcceptStop(accepts)])
    ensures forall fd :: fd in t.conns ==> Untouched(t, AcceptLoop(t, accepts).0, fd)
    decreases |accepts|
  {
    if accepts[0].Accepted? {
      var c := accepts[0].conn;
      var t' := Register(t, c);
      AcceptStep(t, accepts);
      RegisterIsolated(t, c);
      AcceptLoopKeeps(t', accepts[1..]);
      var r := AcceptLoop(t', accepts[1..]).0;
      forall fd | fd in t.conns
        ensures Untouched(t, r, fd)
      {
        assert fd != c.fd;
        assert Untouched(t, t', fd) && Untouched(t', r, fd);
      }
    }
  }

  /** An accept loop over fresh connections enters each of them in every
      table with an empty buffer and read interest. */
  lemma {:induction false} AcceptLoopAdmits(t: Tables, accepts: seq<AcceptOutcome>)
    requires InLockstep(t) && AcceptTerminates(accepts)
    requires Fresh(t, accepts[..AcceptStop(accepts)])
    ensures var r := AcceptLoop(t, accepts).0;
      forall j :: 0 <= j < AcceptStop(accepts) ==>
        var c := accepts[j].conn;
        && c.fd in r.conns && r.conns[c.fd] == c
        && c.fd in r.outbuf && r.outbuf[c.fd] == []
        && c.fd in r.interest && r.interest[c.fd] == READ_INTEREST
    decreases |accepts|
  {
    if accepts[0].Accepted? {
      var c := accepts[0].conn;
      var t' := Register(t, c);
      AcceptStep(t, accepts);
      RegisterIsolated(t, c);
      AcceptLoopAdmits(t', accepts[1..]);
      AcceptLoopKeeps(t', accepts[1..]);
      var r := AcceptLoop(t', accepts[1..]).0;
      assert Untouched(t', r, c.fd);
      forall j | 0 <= j < AcceptStop(accepts)
        ensures var c := accepts[j].conn;
          && c.fd in r.conns && r.conns[c.fd] == c
          && c.fd in r.outbuf && r.outbuf[c.fd] == []
          && c.fd in r.interest && r.interest[c.fd] == READ_INTEREST
      {
        if j > 0 {
          assert accepts[1..][j - 1] == accepts[j];
        }
      }
    }
  }

  // ---------------------------------------------------------------------
  // Dispatch of one event

  /** An event on an fd that is not an open connection changes nothing; a
      hangup or error cleans the connection up before any read or write,
      discarding its pending output. */
  lemma HandleEventDispatch(t: Tables, fd: Fd, ev: Mask, recvs: seq<RecvOutcome>, sends: seq<SendOutcome>)
    requires Valid(t) && EventScripted(ev, recvs, sends)
    ensures fd !in t.conns ==> HandleEvent(t, fd, ev, recvs, sends) == t
    ensures fd in t.conns && (ev & (EPOLLHUP | EPOLLERR)) != 0 ==>
      var r := HandleEvent(t, fd, ev, recvs, sends);
      fd !in r.conns && fd !in r.outbuf && forall g :: g != fd ==> Untouched(t, r, g)
  {
  }

  // ---------------------------------------------------------------------
  // The read phase

  /** The data of the recv outcomes before the one that ends the read loop
      lands in arrival order: the data of outcome `j` follows that of all
      outcomes before it and precedes that of all outcomes after it. */
  lemma ChunksInArrivalOrder(recvs: seq<RecvOutcome>, j: nat, k: nat)
    requires j < k <= |recvs| && recvs[j].Received?
    ensures Arrived(recvs[..k]) == Arrived(recvs[..j]) + recvs[j].data + Arrived(recvs[j + 1..k])
  {
    assert recvs[..k] == recvs[..j + 1] + recvs[j + 1..k];
    ArrivedAppend(recvs[..j + 1], recvs[j + 1..k]);
    ArrivedStep(recvs, j);
  }

  /** The read phase: an empty read or a failure other than a would-block
      closes the connection and drops its buffer, unsent bytes included;
      otherwise the buffer and the received history grow by the chunks read,
      in order, and write interest is armed exactly when output is pending.
      No other connection is touched. */
  lemma ReadReadyOutcome(t: Tables, fd: Fd, recvs: seq<RecvOutcome>)
    requires Valid(t) && fd in t.conns && RecvTerminates(recvs)
    ensures var k := RecvStop(recvs);
      var r := ReadReady(t, fd, recvs);
      && (ClosesOnRead(recvs[k]) <==> fd !in r.conns)
      && (ClosesOnRead(recvs[k]) ==> fd !in r.outbuf && fd !in r.interest)
      && (!ClosesOnRead(recvs[k]) ==>
            && fd in r.outbuf && fd in r.received && fd in r.interest && fd in r.echoed
            && r.outbuf[fd] == t.outbuf[fd] + Arrived(recvs[..k])
            && r.received[fd] == t.received[fd] + Arrived(recvs[..k])
            && r.echoed[fd] == t.echoed[fd]
            && r.interest[fd] == InterestFor(r.outbuf[fd]))
      && forall g :: g != fd ==> Untouched(t, r, g)
  {
    var k := RecvStop(recvs);
    if ClosesOnRead(recvs[k]) {
      CleanupIsolated(t, fd);
    } else {
      var chunk := Arrived(recvs[..k]);
      var pending := t.outbuf[fd] + chunk;
      assert ConnValid(t, fd);
      ReadReadyPuts(t, fd, recvs);
      PutIsolated(t, fd, pending, if pending != [] then WRITE_INTEREST else t.interest[fd],
                  t.received[fd] + chunk, t.echoed[fd]);
    }
  }

  // ---------------------------------------------------------------------
  // The write phase

  /** The write phase on an fd the read phase closed does nothing. */
  lemma WriteAfterClose(t: Tables, fd: Fd, sends: seq<SendOutcome>)
    requires InLockstep(t) && fd !in t.conns && SendTerminates(sends)
    ensures WriteReady(t, fd, sends) == t
  {
  }

  /** `while buf` also ends without an ending outcome: the positive sends of
      `sends` take the whole of `buf`, one after the other. */
  predicate Drains(buf: seq<byte>, sends: seq<SendOutcome>)
    decreases |sends|
  {
    buf == []
    || (&& |sends| > 0 && sends[0].Sent? && sends[0].count > 0
        && var m := if sends[0].count < |buf| then sends[0].count else |buf|;
           Drains(buf[m..], sends[1..]))
  }

  /** Any script followed by an ending outcome reaches that outcome. */
  lemma {:induction false} EndingAppended(sends: seq<SendOutcome>, e: SendOutcome)
    requires EndsWrite(e)
    ensures SendTerminates(sends + [e])
    decreases |sends|
  {
    if sends != [] {
      EndingAppended(sends[1..], e);
      assert (sends + [e])[1..] == sends[1..] + [e];
    }
  }

  /** When the positive sends drain the buffer, an ending outcome appended
      after them is never consulted: whatever it is, the whole buffer is
      sent, nothing is left and the connection stays open. */
  lemma {:induction false} DrainedIgnoresEnd(buf: seq<byte>, sends: seq<SendOutcome>, e: SendOutcome)
    requires Drains(buf, sends) && EndsWrite(e)
    ensures SendTerminates(sends + [e])
    ensures SendLoop(buf, sends + [e]) == Flush(buf, [], true)
    decreases |sends|
  {
    EndingAppended(sends, e);
    if buf != [] {
      var n := sends[0].count;
      var m := if n < |buf| then n else |buf|;
      assert (sends + [e])[1..] == sends[1..] + [e];
      DrainedIgnoresEnd(buf[m..], sends[1..], e);
      assert buf[..m] + buf[m..] == buf;
    }
  }

  /** A send loop over a pending buffer closes the connection exactly when a
      send of zero bytes or a failure other than a would-block comes before
      the buffer empties. */
  lemma {:induction false} SendLoopCloses(buf: seq<byte>, sends: seq<SendOutcome>)
    requires buf != [] ==> SendTerminates(sends)
    ensures var f := SendLoop(buf, sends);
      !f.open <==> exists j :: 0 <= j < |sends| && ClosingSendAt(buf, sends, j)
    decreases |sends|
  {
    if buf != [] {
      match sends[0] {
        case Sent(n) =>
          if n == 0 {
            assert ClosingSendAt(buf, sends, 0);
          } else {
            var m := if n < |buf| then n else |buf|;
            SendLoopCloses(buf[m..], sends[1..]);
            ClosingSendShift(buf, sends, m);
          }
        case SendFailed(why) =>
          if !Transient(why) {
            assert ClosingSendAt(buf, sends, 0);
          } else {
            NoClosingSendAfterStop(buf, sends);
          }
      }
    } else {
      NoClosingSendOnEmpty(sends);
    }
  }

  /** The bytes left after the first `j` sends of the loop over `buf`
      (each taking the first n bytes, clamped to what is left), provided
      none of them ended the loop. */
  function LeftAfter(buf: seq<byte>, sends: seq<SendOutcome>, j: nat): seq<byte>
    requires j <= |sends|
    decreases j
  {
    if j == 0 || buf == [] || EndsWrite(sends[0]) then buf
    else
      var n := sends[0].count;
      var m := if n < |buf| then n else |buf|;
      LeftAfter(buf[m..], sends[1..], j - 1)
  }

  /** Send `j` is reached with bytes still pending, every send before it
      took bytes, and it is a send of zero bytes or a non-transient failure. */
  predicate ClosingSendAt(buf: seq<byte>, sends: seq<SendOutcome>, j: nat)
    requires j < |sends|
  {
    && (forall i :: 0 <= i < j ==> !EndsWrite(sends[i]))
    && LeftAfter(buf, sends, j) != []
    && (match sends[j]
        case Sent(n) => n == 0
        case SendFailed(why) => !Transient(why))
  }

  lemma ClosingSendShift(buf: seq<byte>, sends: seq<SendOutcome>, m: nat)
    requires buf != [] && |sends| > 0 && sends[0].Sent? && sends[0].count != 0
    requires m == if sends[0].count < |buf| then sends[0].count else |buf|
    ensures (exists j :: 0 <= j < |sends| && ClosingSendAt(buf, sends, j))
        <==> (exists j :: 0 <= j < |sends[1..]| && ClosingSendAt(buf[m..], sends[1..], j))
  {
    var rest := sends[1..];
    if exists j :: 0 <= j < |sends| && ClosingSendAt(buf, sends, j) {
      var j :| 0 <= j < |sends| && ClosingSendAt(buf, sends, j);
      assert j > 0;
      forall i | 0 <= i < j - 1
        ensures !EndsWrite(rest[i])
      {
        assert rest[i] == sends[i + 1];
      }
      assert rest[j - 1] == sends[j];
      assert ClosingSendAt(buf[m..], rest, j - 1);
    }
    if exists j :: 0 <= j < |rest| && ClosingSendAt(buf[m..], rest, j) {
      var j :| 0 <= j < |rest| && ClosingSendAt(buf[m..], rest, j);
      forall i | 0 <= i < j + 1
        ensures !EndsWrite(sends[i])
      {
        if i > 0 {
          assert sends[i] == rest[i - 1];
        }
      }
      assert sends[j + 1] == rest[j];
      assert ClosingSendAt(buf, sends, j + 1);
    }
  }

  lemma NoClosingSendAfterStop(buf: seq<byte>, sends: seq<SendOutcome>)
    requires |sends| > 0 && sends[0].SendFailed? && Transient(sends[0].why)
    ensures !exists j :: 0 <= j < |sends| && ClosingSendAt(buf, sends, j)
  {
  }

  lemma NoClosingSendOnEmpty(sends: seq<SendOutcome>)
    ensures !exists j :: 0 <= j < |sends| && ClosingSendAt([], sends, j)
  {
  }

  /** The write phase on an open connection with pending output: it is
      closed exactly when the send loop closes it; otherwise the bytes `send`
      reported as taken move, in order, from the front of the buffer to the end of
      the echoed history, and write interest stays armed exactly while
      output is pending. No other connection is touched. */
  lemma WriteReadyOutcome(t: Tables, fd: Fd, sends: seq<SendOutcome>)
    requires Valid(t) && fd in t.conns && t.outbuf[fd] != [] && SendTerminates(sends)
    ensures var f := SendLoop(t.outbuf[fd], sends);
      var r := WriteReady(t, fd, sends);
      && (f.open <==> fd in r.conns)
      && (!f.open ==> fd !in r.outbuf && fd !in r.interest)
      && (f.open ==>
            && fd in r.outbuf && fd in r.echoed && fd in r.received && fd in r.interest
            && t.outbuf[fd] == f.sent + r.outbuf[fd]
            && r.echoed[fd] == t.echoed[fd] + f.sent
            && r.received[fd] == t.received[fd]
            && r.interest[fd] == InterestFor(r.outbuf[fd]))
      && forall g :: g != fd ==> Untouched(t, r, g)
  {
    var f := SendLoop(t.outbuf[fd], sends);
    if f.open {
      assert ConnValid(t, fd);
      WriteReadyPuts(t, fd, sends);
      SendLoopSplits(t.outbuf[fd], sends);
      PutIsolated(t, fd, f.rest, if f.rest == [] then READ_INTEREST else t.interest[fd],
                  t.received[fd], t.echoed[fd] + f.sent);
    } else {
      CleanupIsolated(t, fd);
    }
  }

  // ---------------------------------------------------------------------
  // What every event keeps

  /** In valid tables, every open connection's interest contains read,
      hangup and error, and contains write exactly when output is pending;
      the bytes echoed to it are a prefix of the bytes received from it. */
  lemma InterestAndEcho(t: Tables, fd: Fd)
    requires Valid(t) && fd in t.conns
    ensures (t.interest[fd] & READ_INTEREST) == READ_INTEREST
    ensures (t.interest[fd] & EPOLLOUT) != 0 <==> t.outbuf[fd] != []
    ensures t.echoed[fd] <= t.received[fd]
  {
    assert ConnValid(t, fd);
    assert t.received[fd] == t.echoed[fd] + t.outbuf[fd];
  }

  /** `r` differs from `t` only in connection `fd`, and if `fd` is still
      open in `r` it was open in `t` and its byte histories only grew. */
  ghost predicate LocalStep(t: Tables, r: Tables, fd: Fd)
  {
    && r.listener == t.listener && r.listening == t.listening
    && (forall g :: g != fd ==> Untouched(t, r, g))
    && (fd in r.conns ==>
          && fd in t.conns && fd in t.received && fd in t.echoed
          && fd in r.received && fd in r.echoed
          && t.received[fd] <= r.received[fd] && t.echoed[fd] <= r.echoed[fd])
  }

  lemma LocalStepChains(t: Tables, a: Tables, r: Tables, fd: Fd)
    requires LocalStep(t, a, fd) && LocalStep(a, r, fd)
    ensures LocalStep(t, r, fd)
  {
    forall g | g != fd
      ensures Untouched(t, r, g)
    {
      assert Untouched(t, a, g) && Untouched(a, r, g);
    }
    if fd in r.conns {
      PrefixChains(t.received[fd], a.received[fd], r.received[fd]);
      PrefixChains(t.echoed[fd], a.echoed[fd], r.echoed[fd]);
    }
  }

  lemma PrefixChains<T>(a: seq<T>, b: seq<T>, c: seq<T>)
    requires a <= b && b <= c
    ensures a <= c
  {
    assert c[..|a|] == b[..|a|];
  }

  lemma ReadReadyLocal(t: Tables, fd: Fd, recvs: seq<RecvOutcome>)
    requires Valid(t) && fd in t.conns && RecvTerminates(recvs)
    ensures LocalStep(t, ReadReady(t, fd, recvs), fd)
  {
    ReadReadyOutcome(t, fd, recvs);
    var chunk := Arrived(recvs[..RecvStop(recvs)]);
    assert t.received[fd] <= t.received[fd] + chunk;
  }

  lemma WriteReadyLocal(t: Tables, fd: Fd, sends: seq<SendOutcome>)
    requires Valid(t) && SendTerminates(sends)
    ensures LocalStep(t, WriteReady(t, fd, sends), fd)
  {
    if fd !in t.conns {
      WriteAfterClose(t, fd, sends);
    } else if t.outbuf[fd] == [] {
      WriteReadyIdles(t, fd, sends);
    } else {
      WriteReadyOutcome(t, fd, sends);
      var f := SendLoop(t.outbuf[fd], sends);
      assert t.echoed[fd] <= t.echoed[fd] + f.sent;
    }
  }

  /** One event on a connection touches no other connection, and the byte
      histories of the connection it leaves open only grow. */
  lemma HandleEventLocal(t: Tables, fd: Fd, ev: Mask, recvs: seq<RecvOutcome>, sends: seq<SendOutcome>)
    requires Valid(t) && EventScripted(ev, recvs, sends)
    ensures LocalStep(t, HandleEvent(t, fd, ev, recvs, sends), fd)
  {
    if fd in t.conns && (ev & (EPOLLHUP | EPOLLERR)) == 0 {
      var afterRead := if (ev & EPOLLIN) != 0 then ReadReady(t, fd, recvs) else t;
      if (ev & EPOLLIN) != 0 {
        ReadReadyLocal(t, fd, recvs);
        ReadReadyValid(t, fd, recvs);
      }
      if (ev & EPOLLOUT) != 0 {
        WriteReadyLocal(afterRead, fd, sends);
        if (ev & EPOLLIN) != 0 {
          LocalStepChains(t, afterRead, WriteReady(afterRead, fd, sends), fd);
        }
      }
    }
  }

  // ---------------------------------------------------------------------
  // A scenario: a client on fd 5 of a server listening on fd 3

  /** The bytes "hi". */
  function Hi(): seq<byte>
  {
    [104, 105]
  }

  /** The tables with connection 5 holding `pending`, having sent `gave`
      of the bytes `got`, with interest `mask`. */
  function Conn5(pending: seq<byte>, mask: Mask, got: seq<byte>, gave: seq<byte>): Tables
  {
    Tables(3, true, map[5 := Socket(5)], map[5 := pending], map[5 := mask],
           map[5 := got], map[5 := gave])
  }

  /** Accepting fd 5 and then hitting a would-block registers it for read. */
  lemma ScenarioAccept()
    ensures AcceptLoop(Start(3), [Accepted(Socket(5)), AcceptFailed(Blocking)])
         == (Conn5([], READ_INTEREST, [], []), Drained)
  {
    var accepts := [Accepted(Socket(5)), AcceptFailed(Blocking)];
    assert accepts[1..] == [AcceptFailed(Blocking)];
  }

  /** Reading "hi" and then hitting a would-block queues "hi" and arms write
      interest; nothing is sent yet. */
  lemma ScenarioRead()
    ensures var t := Conn5([], READ_INTEREST, [], []);
      Valid(t) && ReadReady(t, 5, [Received(Hi()), RecvFailed(Blocking)])
                  == Conn5(Hi(), WRITE_INTEREST, Hi(), [])
  {
    var recvs := [Received(Hi()), RecvFailed(Blocking)];
    assert recvs[1..] == [RecvFailed(Blocking)];
    assert RecvStop(recvs) == 1;
    assert recvs[..1] == [Received(Hi())];
    assert Arrived(recvs[..1]) == Hi() by {
      assert recvs[..1][1..] == [];
      assert Hi() + [] == Hi();
    }
    var t := Conn5([], READ_INTEREST, [], []);
    assert Valid(t) by {
      assert forall fd :: fd in t.conns ==> fd == 5;
      assert ConnValid(t, 5);
    }
    assert [] + Hi() == Hi();
    assert t.outbuf[5 := Hi()] == map[5 := Hi()];
    assert t.received[5 := Hi()] == map[5 := Hi()];
    assert t.interest[5 := WRITE_INTEREST] == map[5 := WRITE_INTEREST];
  }

  /** A read of "hi" followed by the empty read closes the connection and
      drops "hi" unsent. */
  lemma ScenarioEofDropsOutput()
    ensures var t := Conn5([], READ_INTEREST, [], []);
      var r := ReadReady(t, 5, [Received(Hi()), Received([])]);
      5 !in r.conns && 5 !in r.outbuf
  {
    var recvs := [Received(Hi()), Received([])];
    assert recvs[1..] == [Received([])];
    assert RecvStop(recvs) == 1;
  }

  /** A write-ready event whose send takes both bytes echoes "hi" and drops
      write interest. */
  lemma ScenarioWrite()
    ensures var t := Conn5(Hi(), WRITE_INTEREST, Hi(), []);
      WriteReady(t, 5, [Sent(2), SendFailed(Blocking)]) == Conn5([], READ_INTEREST, Hi(), Hi())
  {
    var sends := [Sent(2), SendFailed(Blocking)];
    assert sends[1..] == [SendFailed(Blocking)];
    assert Hi()[2..] == [] && Hi()[..2] + [] == Hi();
    assert SendLoop(Hi(), sends) == Flush(Hi(), [], true);
    var t := Conn5(Hi(), WRITE_INTEREST, Hi(), []);
    assert [] + Hi() == Hi();
    assert t.outbuf[5 := []] == map[5 := []];
    assert t.echoed[5 := Hi()] == map[5 := Hi()];
    assert t.interest[5 := READ_INTEREST] == map[5 := READ_INTEREST];
  }

  /** Connection 5's tables are valid whenever its history is consistent. */
  lemma ScenarioValid(pending: seq<byte>, got: seq<byte>, gave: seq<byte>)
    requires gave + pending == got
    ensures Valid(Conn5(pending, InterestFor(pending), got, gave))
  {
    var t := Conn5(pending, InterestFor(pending), got, gave);
    assert forall fd :: fd in t.conns ==> fd == 5;
    assert ConnValid(t, 5);
  }

  /** The three events of the exchange. */
  function ScenarioBatch(): seq<Ready>
  {
    [Ready(3, EPOLLIN, [Accepted(Socket(5)), AcceptFailed(Blocking)], [], []),
     Ready(5, EPOLLIN, [], [Received(Hi()), RecvFailed(Blocking)], []),
     Ready(5, EPOLLOUT, [], [], [Sent(2), SendFailed(Blocking)])]
  }

  /** The last event of the exchange, on the tables the read left. */
  lemma ScenarioServeWrite()
    ensures var t := Conn5(Hi(), WRITE_INTEREST, Hi(), []);
      var batch := ScenarioBatch()[2..];
      && Valid(t) && (forall i :: 0 <= i < |batch| ==> Scripted(batch[i], 3))
      && Serve(t, batch) == (Conn5([], READ_INTEREST, Hi(), Hi()), Drained)
  {
    var batch := ScenarioBatch()[2..];
    var e2 := ScenarioBatch()[2];
    assert batch == [e2] && batch[1..] == [];
    assert [] + Hi() == Hi();
    ScenarioValid(Hi(), Hi(), []);
    ScenarioValid([], Hi(), Hi());
    ScenarioWrite();
    var t3 := Conn5([], READ_INTEREST, Hi(), Hi());
    assert HandleEvent(Conn5(Hi(), WRITE_INTEREST, Hi(), []), 5, EPOLLOUT, e2.recvs, e2.sends) == t3;
  }

  /** The last two events of the exchange, on the tables the accept left. */
  lemma ScenarioServeRead()
    ensures var t := Conn5([], READ_INTEREST, [], []);
      var batch := ScenarioBatch()[1..];
      && Valid(t) && (forall i :: 0 <= i < |batch| ==> Scripted(batch[i], 3))
      && Serve(t, batch) == (Conn5([], READ_INTEREST, Hi(), Hi()), Drained)
  {
    var batch := ScenarioBatch()[1..];
    var e1 := ScenarioBatch()[1];
    assert batch[0] == e1 && batch[1..] == ScenarioBatch()[2..];
    assert e1.recvs[1..] == [RecvFailed(Blocking)];
    ScenarioValid([], [], []);
    ScenarioRead();
    ScenarioServeWrite();
    var t2 := Conn5(Hi(), WRITE_INTEREST, Hi(), []);
    assert HandleEvent(Conn5([], READ_INTEREST, [], []), 5, EPOLLIN, e1.recvs, e1.sends) == t2;
  }

  /** The whole exchange as the event loop runs it: afterwards connection 5
      is open, nothing is pending, write interest is off, and exactly "hi"
      was echoed. */
  lemma EchoScenario()
    ensures var batch := ScenarioBatch();
      && Valid(Start(3)) && (forall i :: 0 <= i < |batch| ==> Scripted(batch[i], 3))
      && Serve(Start(3), batch) == (Conn5([], READ_INTEREST, Hi(), Hi()), Drained)
  {
    var batch := ScenarioBatch();
    var e0 := batch[0];
    assert e0.accepts[1..] == [AcceptFailed(Blocking)];
    ScenarioAccept();
    ScenarioServeRead();
    assert Scripted(e0, 3);
  }
}
