// The operating-system vocabulary the echo reactor works in: file
// descriptors, bytes, epoll event masks, errno values, and the outcomes a
// non-blocking socket call can report. Every socket call of the server is
// modelled as an outcome supplied by the caller.
module Epoll {

  /** A file descriptor number. */
  type Fd = int

  newtype byte = x: int | 0 <= x < 256

  /** An epoll event or interest mask. */
  type Mask = bv32

  // Linux values of the epoll flags the server uses.
  const EPOLLIN: Mask := 0x001
  const EPOLLOUT: Mask := 0x004
  const EPOLLERR: Mask := 0x008
  const EPOLLHUP: Mask := 0x010

  /** Interest of a connection with nothing pending: read, hangup, error. */
  const READ_INTEREST: Mask := EPOLLIN | EPOLLHUP | EPOLLERR
  /** Interest of a connection with pending output: the above plus write. */
  const WRITE_INTEREST: Mask := EPOLLIN | EPOLLOUT | EPOLLHUP | EPOLLERR

  // Linux errno values. EAGAIN and EWOULDBLOCK are the same number there.
  const EAGAIN: int := 11
  const EWOULDBLOCK: int := 11
  /** What `epoll_ctl(EPOLL_CTL_ADD)` reports for an fd already registered. */
  const EEXIST: int := 17

  /** An exception a socket call can raise: Python's `BlockingIOError`, or
      any other `OSError` with its errno. */
  datatype Failure = Blocking | OsError(errno: int)

  /** The failures every loop of the server treats as "would block": it stops
      that loop and leaves the connection alone. */
  predicate Transient(f: Failure)
  {
    f.Blocking? || f.errno == EAGAIN || f.errno == EWOULDBLOCK
  }

  /** A socket object, identified by its descriptor. */
  datatype Socket = Socket(fd: Fd)

  /** What one accept call on the listening socket does. */
  datatype AcceptOutcome = Accepted(conn: Socket) | AcceptFailed(why: Failure)

  /** What one recv call on a connection does (it asks for at most 4096
      bytes); `Received([])` is the empty read that signals the peer's
      orderly shutdown. */
  datatype RecvOutcome = Received(data: seq<byte>) | RecvFailed(why: Failure)

  /** What one send call of the pending buffer does: the number of bytes
      it reports as taken, or the exception it raises. */
  datatype SendOutcome = Sent(count: nat) | SendFailed(why: Failure)
}
