// The epoll echo server's event loop as an object: the connection table,
// the output-buffer table and the epoll interest map are fields that its
// methods update in place, and every socket call is an outcome the caller
// supplies. Each method is proved to do what the matching function of
// ReactorSpec says, and to keep the tables valid.
module EchoServer {
  import opened Epoll
  import opened ReactorSpec

  class Reactor {
    /** The listening socket's fd. */
    const listener: Fd
    /** The listening socket is registered with epoll. */
    var listening: bool
    /** fd -> socket of every open connection. */
    var conns: map<Fd, Socket>
    /** fd -> bytes received and not yet sent back. */
    var outbuf: map<Fd, seq<byte>>
    /** fd -> the event mask it is registered with in epoll. */
    var interest: map<Fd, Mask>
    /** fd -> every byte read from that connection. */
    ghost var received: map<Fd, seq<byte>>
    /** fd -> every byte `send` reported as taken on that connection. */
    ghost var echoed: map<Fd, seq<byte>>

    ghost function Model(): Tables
      reads this
    {
      Tables(listener, listening, conns, outbuf, interest, received, echoed)
    }

    ghost predicate Valid()
      reads this
    {
      ReactorSpec.Valid(Model())
    }

    /** The listening socket is bound, listening and registered for input;
        both tables are empty. */
    constructor (listener: Fd)
      ensures Model() == Start(listener) && Valid()
    {
      this.listener := listener;
      listening := true;
      conns, outbuf, interest := map[], map[], map[];
      received, echoed := map[], map[];
    }

    /** cleanup: remove `fd` from both tables and from epoll and close its
        socket; for an fd that is not there, nothing happens. */
    method Cleanup(fd: Fd)
      modifies this
      ensures Model() == ReactorSpec.Cleanup(old(Model()), fd)
    {
      conns := conns - {fd};
      outbuf := outbuf - {fd};
      // unregistering from epoll; a failure there is ignored
      interest := interest - {fd};
      received := received - {fd};
      echoed := echoed - {fd};
    }

    /** The accept drain loop run when the listening socket is ready. */
    method Accept(accepts: seq<AcceptOutcome>) returns (end: AcceptEnd)
      requires AcceptTerminates(accepts)
      modifies this
      ensures (Model(), end) == AcceptLoop(old(Model()), accepts)
    {
      var i := 0;
      while true
        invariant 0 <= i < |accepts| && AcceptTerminates(accepts[i..])
        invariant AcceptLoop(old(Model()), accepts) == AcceptLoop(Model(), accepts[i..])
        decreases |accepts| - i
      {
        match accepts[i] {
        case Accepted(conn) =>
          var cfd := conn.fd;
          var watched := cfd == listener || cfd in interest;
          conns := conns[cfd := conn];
          outbuf := outbuf[cfd := []];
          received := received[cfd := []];
          echoed := echoed[cfd := []];
          // registering an fd epoll already watches fails with EEXIST
          if watched {
            return Raised(EEXIST);
          }
          interest := interest[cfd := READ_INTEREST];
        case AcceptFailed(why) =>
          if Transient(why) {
            return Drained;
          }
          return Raised(why.errno);
        }
        assert accepts[i..][1..] == accepts[i + 1..];
        i := i + 1;
      }
    }

    /** The recv loop of the read phase: append each chunk to the buffer
        until a recv would block, the peer closes, or a recv fails. */
    method RecvPending(fd: Fd, recvs: seq<RecvOutcome>)
      requires fd in conns && fd in outbuf && fd in received && RecvTerminates(recvs)
      modifies this
      ensures var k := RecvStop(recvs);
        var chunk := Arrived(recvs[..k]);
        if ClosesOnRead(recvs[k]) then Model() == ReactorSpec.Cleanup(old(Model()), fd)
        else
          && conns == old(conns) && interest == old(interest) && echoed == old(echoed)
          && listening == old(listening)
          && outbuf == old(outbuf)[fd := old(outbuf)[fd] + chunk]
          && received == old(received)[fd := old(received)[fd] + chunk]
    {
      ghost var k := RecvStop(recvs);
      var i := 0;
      assert recvs[..0] == [];
      assert outbuf[fd] + [] == outbuf[fd] && received[fd] + [] == received[fd];
      assert outbuf[fd := outbuf[fd]] == outbuf && received[fd := received[fd]] == received;
      while true
        invariant 0 <= i <= k
        invariant conns == old(conns) && interest == old(interest) && echoed == old(echoed)
        invariant listening == old(listening)
        invariant outbuf == old(outbuf)[fd := old(outbuf)[fd] + Arrived(recvs[..i])]
        invariant received == old(received)[fd := old(received)[fd] + Arrived(recvs[..i])]
        decreases k - i
      {
        match recvs[i] {
        case Received(data) =>
          if data == [] {
            // the peer closed its side
            assert i == k;
            Cleanup(fd);
            RemoveUpdated(old(outbuf), fd, old(outbuf)[fd] + Arrived(recvs[..i]));
            RemoveUpdated(old(received), fd, old(received)[fd] + Arrived(recvs[..i]));
            return;
          }
          ArrivedStep(recvs, i);
          assert old(outbuf)[fd] + Arrived(recvs[..i + 1])
              == (old(outbuf)[fd] + Arrived(recvs[..i])) + data;
          assert old(received)[fd] + Arrived(recvs[..i + 1])
              == (old(received)[fd] + Arrived(recvs[..i])) + data;
          outbuf := outbuf[fd := outbuf[fd] + data];
          received := received[fd := received[fd] + data];
        case RecvFailed(why) =>
          assert i == k;
          if Transient(why) {
            return;
          }
          Cleanup(fd);
          RemoveUpdated(old(outbuf), fd, old(outbuf)[fd] + Arrived(recvs[..i]));
          RemoveUpdated(old(received), fd, old(received)[fd] + Arrived(recvs[..i]));
          return;
        }
        i := i + 1;
      }
    }

    /** The read phase of an event on connection `fd`: the recv loop, then
        write interest if output is now pending. */
    method ReadReady(fd: Fd, recvs: seq<RecvOutcome>)
      requires Valid() && fd in conns && RecvTerminates(recvs)
      modifies this
      ensures Model() == ReactorSpec.ReadReady(old(Model()), fd, recvs)
    {
      RecvPending(fd, recvs);
      if fd in conns && outbuf[fd] != [] {
        interest := interest[fd := WRITE_INTEREST];
      }
    }

    /** The send loop of the write phase: send from the front of the
        buffer until it is empty, a send would block, or the connection is
        closed by a send of zero bytes or a send error. */
    method SendPending(fd: Fd, sends: seq<SendOutcome>)
      requires fd in conns && fd in outbuf && fd in echoed && outbuf[fd] != []
      requires SendTerminates(sends)
      modifies this
      ensures var f := SendLoop(old(outbuf[fd]), sends);
        if f.open then
          && conns == old(conns) && interest == old(interest) && received == old(received)
          && listening == old(listening)
          && outbuf == old(outbuf)[fd := f.rest]
          && echoed == old(echoed)[fd := old(echoed[fd]) + f.sent]
        else Model() == ReactorSpec.Cleanup(old(Model()), fd)
    {
      ghost var flush := SendLoop(outbuf[fd], sends);
      ghost var sent: seq<byte> := [];
      var outcomes := sends;
      assert echoed[fd] + [] == echoed[fd];
      assert echoed[fd := echoed[fd]] == echoed;
      assert outbuf[fd := outbuf[fd]] == outbuf;
      while outbuf[fd] != []
        invariant fd in outbuf
        invariant conns == old(conns) && interest == old(interest) && received == old(received)
        invariant listening == old(listening)
        invariant outbuf == old(outbuf)[fd := outbuf[fd]]
        invariant echoed == old(echoed)[fd := old(echoed)[fd] + sent]
        invariant outbuf[fd] != [] ==> SendTerminates(outcomes)
        invariant flush == SentBefore(sent, SendLoop(outbuf[fd], outcomes))
        decreases |outcomes|
      {
        ghost var pending := outbuf[fd];
        if EndsWrite(outcomes[0]) {
          SendLoopEnds(pending, outcomes);
        }
        match outcomes[0] {
        case Sent(n) =>
          if n == 0 {
            assert !flush.open;
            Cleanup(fd);
            RemoveUpdated(old(outbuf), fd, pending);
            RemoveUpdated(old(echoed), fd, old(echoed)[fd] + sent);
            return;
          }
          var buf := outbuf[fd];
          var m := if n < |buf| then n else |buf|;
          // the kernel took the first m bytes: drop them from the buffer
          SendLoopTakes(sent, buf, outcomes, m);
          assert (old(echoed)[fd] + sent) + buf[..m] == old(echoed)[fd] + (sent + buf[..m]);
          echoed := echoed[fd := echoed[fd] + buf[..m]];
          sent := sent + buf[..m];
          outbuf := outbuf[fd := buf[m..]];
        case SendFailed(why) =>
          if Transient(why) {
            assert sent + [] == sent;
            return;
          }
          assert !flush.open;
          Cleanup(fd);
          RemoveUpdated(old(outbuf), fd, pending);
          RemoveUpdated(old(echoed), fd, old(echoed)[fd] + sent);
          return;
        }
        outcomes := outcomes[1..];
      }
      assert sent + [] == sent;
    }

    /** The write phase of an event on `fd`, which the read phase may have
        closed already. */
    method WriteReady(fd: Fd, sends: seq<SendOutcome>)
      requires Valid() && SendTerminates(sends)
      modifies this
      ensures Model() == ReactorSpec.WriteReady(old(Model()), fd, sends)
    {
      if fd !in outbuf || outbuf[fd] == [] {
        if fd in conns {
          interest := interest[fd := READ_INTEREST];
        }
        return;
      }
      SendPending(fd, sends);
      if fd in conns && outbuf[fd] == [] {
        interest := interest[fd := READ_INTEREST];
      }
    }

    /** One event on a connection fd: ignored for an unknown fd, cleanup on
        hangup or error, else the read phase and then the write phase. */
    method HandleEvent(fd: Fd, ev: Mask, recvs: seq<RecvOutcome>, sends: seq<SendOutcome>)
      requires Valid() && EventScripted(ev, recvs, sends)
      modifies this
      ensures Model() == ReactorSpec.HandleEvent(old(Model()), fd, ev, recvs, sends)
      ensures Valid()
    {
      HandleEventValid(Model(), fd, ev, recvs, sends);
      if fd !in conns {
        return;
      }
      if (ev & (EPOLLHUP | EPOLLERR)) != 0 {
        Cleanup(fd);
        return;
      }
      if (ev & EPOLLIN) != 0 {
        ReadReadyValid(Model(), fd, recvs);
        ReadReady(fd, recvs);
      }
      if (ev & EPOLLOUT) != 0 {
        WriteReady(fd, sends);
      }
    }

    /** The `finally` block: unregister the listener, close epoll, and clean
        up every connection still in the table. */
    method Shutdown()
      requires outbuf.Keys == conns.Keys && received.Keys == conns.Keys && echoed.Keys == conns.Keys
      modifies this
      ensures Model() == Teardown(old(Model()))
    {
      // unregistering the listener; a failure there is ignored
      listening := false;
      // closing epoll drops every registration
      interest := map[];
      var fds := conns.Keys;
      while fds != {}
        invariant conns.Keys == fds && outbuf.Keys == fds
        invariant received.Keys == fds && echoed.Keys == fds
        invariant !listening && interest == map[]
        decreases fds
      {
        SomeMember(fds);
        var fd :| fd in fds;
        Cleanup(fd);
        fds := fds - {fd};
      }
      TeardownValid(old(Model()));
      assert conns == map[] && outbuf == map[] && received == map[] && echoed == map[];
    }

    /** The event loop over a finite batch of readiness events; an exception
        from accept runs the teardown and ends it. */
    method Serve(batch: seq<Ready>) returns (end: AcceptEnd)
      requires Valid()
      requires forall i :: 0 <= i < |batch| ==> Scripted(batch[i], listener)
      modifies this
      ensures (Model(), end) == ReactorSpec.Serve(old(Model()), batch)
    {
      var i := 0;
      while i < |batch|
        invariant 0 <= i <= |batch| && Valid()
        invariant forall j :: 0 <= j < |batch[i..]| ==> Scripted(batch[i..][j], listener)
        invariant ReactorSpec.Serve(old(Model()), batch) == ReactorSpec.Serve(Model(), batch[i..])
      {
        var e := batch[i];
        assert Scripted(e, listener);
        assert batch[i..][1..] == batch[i + 1..];
        if e.fd == listener {
          ghost var before := Model();
          AcceptLoopValid(before, e.accepts);
          AcceptLoopKeys(before, e.accepts);
          end := Accept(e.accepts);
          if end.Raised? {
            Shutdown();
            return;
          }
        } else {
          HandleEvent(e.fd, e.ev, e.recvs, e.sends);
        }
        i := i + 1;
      }
      end := Drained;
    }
  }
}
