/** The socket handle `JDWX\Socket\Socket`: the few of its operations that add
    logic around the extension calls. A handle owns one descriptor and has no
    other state, so each operation takes the descriptor, the OS oracle and
    the trace so far, and returns its outcome with the extended trace. */
module Sockets {
  import opened Wrappers
  import opened Os
  import Readiness

  // ---------------------------------------------------------------------
  // Extension calls, each with the type test the wrapper applies to its reply

  /** `create`: one `socket_create`; a new socket on success, otherwise the
      plain exception on the global slot. */
  function Create(env: Env, t: Trace, domain: Domain, sockType: int, protocol: int): (s: Step<HandleId>)
    ensures s.trace == t + [SocketCreate(domain, sockType, protocol)]
    ensures var reply := env.respond(t, SocketCreate(domain, sockType, protocol));
            && (s.result.Success? <==> reply.NewSocket?)
            && (s.result.Success? ==> s.result.value == reply.socket)
            && (s.result.Failure? ==> s.result.error == Raised(GenericError, None))
  {
    var call := SocketCreate(domain, sockType, protocol);
    match env.respond(t, call)
    case NewSocket(h) => Step(Success(h), t + [call])
    case _ => Step(Failure(Raised(GenericError, None)), t + [call])
  }

  /** `bind`: one `socket_bind`; only a reply of `true` succeeds, anything
      else is a connection exception on this socket. */
  function Bind(env: Env, t: Trace, h: HandleId, address: string, port: int): (s: Step<()>)
    ensures s.trace == t + [SocketBind(h, address, port)]
    ensures s.result.Success? <==> env.respond(t, SocketBind(h, address, port)) == Done
    ensures s.result.Failure? ==> s.result.error == Raised(ConnectionError, Some(h))
  {
    var call := SocketBind(h, address, port);
    if env.respond(t, call) == Done then Step(Success(()), t + [call])
    else Step(Failure(Raised(ConnectionError, Some(h))), t + [call])
  }

  /** `listen`: one `socket_listen`; only a reply of `true` succeeds, anything
      else is a generic exception on this socket. */
  function Listen(env: Env, t: Trace, h: HandleId, backlog: int): (s: Step<()>)
    ensures s.trace == t + [SocketListen(h, backlog)]
    ensures s.result.Success? <==> env.respond(t, SocketListen(h, backlog)) == Done
    ensures s.result.Failure? ==> s.result.error == Raised(GenericError, Some(h))
  {
    var call := SocketListen(h, backlog);
    if env.respond(t, call) == Done then Step(Success(()), t + [call])
    else Step(Failure(Raised(GenericError, Some(h))), t + [call])
  }

  /** `read`: one `socket_read`; the string it returns, or a read exception
      on this socket for any other reply. */
  function Read(env: Env, t: Trace, h: HandleId, maxLength: int, mode: int): (s: Step<seq<byte>>)
    ensures s.trace == t + [SocketRead(h, maxLength, mode)]
    ensures var reply := env.respond(t, SocketRead(h, maxLength, mode));
            && (s.result.Success? <==> reply.Str?)
            && (s.result.Success? ==> s.result.value == reply.chunk)
            && (s.result.Failure? ==> s.result.error == Raised(ReadError, Some(h)))
  {
    var call := SocketRead(h, maxLength, mode);
    match env.respond(t, call)
    case Str(data) => Step(Success(data), t + [call])
    case _ => Step(Failure(Raised(ReadError, Some(h))), t + [call])
  }

  /** `recv`: one `socket_recv`; its int count and the buffer it filled, or a
      read exception on this socket for any other reply. */
  function Recv(env: Env, t: Trace, h: HandleId, length: int, flags: int): (s: Step<RecvOut>)
    ensures s.trace == t + [SocketRecv(h, length, flags)]
    ensures var reply := env.respond(t, SocketRecv(h, length, flags));
            && (s.result.Success? <==> reply.Received?)
            && (s.result.Success? ==> s.result.value == Got(reply.count, reply.received))
            && (s.result.Failure? ==> s.result.error == Raised(ReadError, Some(h)))
  {
    var call := SocketRecv(h, length, flags);
    match env.respond(t, call)
    case Received(n, data) => Step(Success(Got(n, data)), t + [call])
    case _ => Step(Failure(Raised(ReadError, Some(h))), t + [call])
  }

  /** The tail `send`, `sendTo` and `write` share: the call is made once; an
      int reply is returned, anything else is a write exception on this socket. */
  function SendResult(env: Env, t: Trace, h: HandleId, call: Syscall): (s: Step<int>)
    ensures s.trace == t + [call]
    ensures s.result.Success? <==> env.respond(t, call).Int?
    ensures s.result.Success? ==> s.result.value == env.respond(t, call).n
    ensures s.result.Failure? ==> s.result.error == Raised(WriteError, Some(h))
  {
    match env.respond(t, call)
    case Int(n) => Step(Success(n), t + [call])
    case _ => Step(Failure(Raised(WriteError, Some(h))), t + [call])
  }

  // ---------------------------------------------------------------------
  // Creation

  /** `createByAddress`: an address with a colon anywhere is IPv6; otherwise
      one starting with a slash is a Unix-domain path; anything else is IPv4.
      The colon test is made first, so it wins. */
  function DomainFor(address: string): (d: Domain)
    ensures d == AfInet6 <==> exists i :: 0 <= i < |address| && address[i] == ':'
    ensures d == AfUnix <==>
              (forall i :: 0 <= i < |address| ==> address[i] != ':') && |address| > 0 && address[0] == '/'
    ensures d == AfInet <==>
              (forall i :: 0 <= i < |address| ==> address[i] != ':') && (|address| == 0 || address[0] != '/')
  {
    if ':' in address then AfInet6
    else if |address| > 0 && address[0] == '/' then AfUnix
    else AfInet
  }

  /** `createByAddress`: one creation call in the inferred domain. */
  function CreateByAddress(env: Env, t: Trace, address: string, sockType: int, protocol: int): (s: Step<HandleId>)
    ensures s.trace == t + [SocketCreate(DomainFor(address), sockType, protocol)]
    ensures s.result.Success? <==> env.respond(t, SocketCreate(DomainFor(address), sockType, protocol)).NewSocket?
    ensures s.result.Success? ==> s.result.value == env.respond(t, SocketCreate(DomainFor(address), sockType, protocol)).socket
    ensures s.result.Failure? ==> s.result.error == Raised(GenericError, None)
  {
    Create(env, t, DomainFor(address), sockType, protocol)
  }

  /** `createBound`: create in the inferred domain, bind to the given address
      and port, and listen (backlog 0) only for stream sockets. The calls are
      made in that order and each failure stops the sequence, with the
      exception class of the call that failed. */
  function CreateBound(env: Env, t: Trace, address: string, port: int, sockType: int, protocol: int): (s: Step<HandleId>)
    ensures |t| < |s.trace| <= |t| + 3 && s.trace[..|t|] == t
    ensures var create := SocketCreate(DomainFor(address), sockType, protocol);
            var reply := env.respond(t, create);
            && (!reply.NewSocket? ==> s == Step(Failure(Raised(GenericError, None)), t + [create]))
            && (reply.NewSocket? ==>
                  var bind := SocketBind(reply.socket, address, port);
                  var bindReply := env.respond(t + [create], bind);
                  && (bindReply != Done ==>
                        s == Step(Failure(Raised(ConnectionError, Some(reply.socket))), t + [create, bind]))
                  && (bindReply == Done && sockType != SOCK_STREAM ==>
                        s == Step(Success(reply.socket), t + [create, bind]))
                  && (bindReply == Done && sockType == SOCK_STREAM ==>
                        var listen := SocketListen(reply.socket, 0);
                        var listenReply := env.respond(t + [create, bind], listen);
                        && s.trace == t + [create, bind, listen]
                        && (listenReply == Done ==> s.result == Success(reply.socket))
                        && (listenReply != Done ==> s.result == Failure(Raised(GenericError, Some(reply.socket))))))
    ensures s.result.Success? ==> |s.trace| == |t| + (if sockType == SOCK_STREAM then 3 else 2)
    ensures forall i :: |t| <= i < |s.trace| && s.trace[i].SocketListen? ==>
              i > |t| && s.trace[i - 1] == SocketBind(s.trace[i].listenHandle, address, port)
  {
    var created := CreateByAddress(env, t, address, sockType, protocol);
    if created.result.Failure? then created
    else
      var h := created.result.value;
      var bound := Bind(env, created.trace, h, address, port);
      assert bound.trace == t + [SocketCreate(DomainFor(address), sockType, protocol), SocketBind(h, address, port)];
      if bound.result.Failure? then Step(Failure(bound.result.error), bound.trace)
      else if sockType == SOCK_STREAM then
        var listened := Listen(env, bound.trace, h, 0);
        if listened.result.Failure? then Step(Failure(listened.result.error), listened.trace)
        else Step(Success(h), listened.trace)
      else Step(Success(h), bound.trace)
  }

  // ---------------------------------------------------------------------
  // Readiness of one handle

  /** The OS wait `selectForRead` issues: this socket alone, for reading. */
  function ReadinessCall(h: HandleId, seconds: int, microseconds: int): Syscall {
    SocketSelect(Some([h]), None, None, seconds, microseconds)
  }

  /** The OS wait `selectForWrite` issues: this socket alone, for writing. */
  function WritabilityCall(h: HandleId, seconds: int, microseconds: int): Syscall {
    SocketSelect(None, Some([h]), None, seconds, microseconds)
  }

  /** The wait returned a positive count and left the watched read list non-empty. */
  predicate ReportsReadable(reply: Reply) {
    reply.Ready? && reply.rc > 0 && |reply.readReady| > 0
  }

  /** The wait returned a positive count and left the watched write list non-empty. */
  predicate ReportsWritable(reply: Reply) {
    reply.Ready? && reply.rc > 0 && |reply.writeReady| > 0
  }

  /** `selectForRead`: one wait; true exactly when it reports readiness, and a
      generic exception on the global slot when the wait does not return an int. */
  function SelectForRead(env: Env, t: Trace, h: HandleId, seconds: int, microseconds: int): (s: Step<bool>)
    ensures s.trace == t + [ReadinessCall(h, seconds, microseconds)]
    ensures s.result.Success? <==> env.respond(t, ReadinessCall(h, seconds, microseconds)).Ready?
    ensures s.result.Failure? ==> s.result.error == Raised(GenericError, None)
    ensures s.result.Success? ==>
              (s.result.value <==> ReportsReadable(env.respond(t, ReadinessCall(h, seconds, microseconds))))
  {
    var call := ReadinessCall(h, seconds, microseconds);
    match env.respond(t, call)
    case Ready(rc, read, _, _) => Step(Success(rc > 0 && |read| > 0), t + [call])
    case _ => Step(Failure(Raised(GenericError, None)), t + [call])
  }

  /** `selectForWrite`: as `selectForRead`, watching for writability. */
  function SelectForWrite(env: Env, t: Trace, h: HandleId, seconds: int, microseconds: int): (s: Step<bool>)
    ensures s.trace == t + [WritabilityCall(h, seconds, microseconds)]
    ensures s.result.Success? <==> env.respond(t, WritabilityCall(h, seconds, microseconds)).Ready?
    ensures s.result.Failure? ==> s.result.error == Raised(GenericError, None)
    ensures s.result.Success? ==>
              (s.result.value <==> ReportsWritable(env.respond(t, WritabilityCall(h, seconds, microseconds))))
  {
    var call := WritabilityCall(h, seconds, microseconds);
    match env.respond(t, call)
    case Ready(rc, _, write, _) => Step(Success(rc > 0 && |write| > 0), t + [call])
    case _ => Step(Failure(Raised(GenericError, None)), t + [call])
  }

  // ---------------------------------------------------------------------
  // Single-shot timed I/O

  /** What `recvTimed` yields: `NotReady` is its early `return 0` that leaves
      the caller's buffer untouched; `Got` is the result of its one `recv`. */
  datatype RecvOut = NotReady | Got(count: int, data: Option<seq<byte>>)

  /** `recvTimed`: one readiness wait; when it does not report readable, the
      result is 0 and no read is attempted; otherwise exactly one `recv` is
      made and its result returned. */
  function RecvTimed(env: Env, t: Trace, h: HandleId, length: int, seconds: int, microseconds: int,
                     flags: int): (s: Step<RecvOut>)
    ensures |t| < |s.trace| <= |t| + 2 && s.trace[..|t| + 1] == t + [ReadinessCall(h, seconds, microseconds)]
    ensures var wait := env.respond(t, ReadinessCall(h, seconds, microseconds));
            && (!wait.Ready? ==> s.result == Failure(Raised(GenericError, None)))
            && (wait.Ready? && !ReportsReadable(wait) ==> s.result == Success(NotReady))
            && (|s.trace| == |t| + 2 <==> ReportsReadable(wait))
    ensures |s.trace| == |t| + 2 ==>
              var recv := env.respond(t + [ReadinessCall(h, seconds, microseconds)], SocketRecv(h, length, flags));
              && s.trace[|t| + 1] == SocketRecv(h, length, flags)
              && (recv.Received? ==> s.result == Success(Got(recv.count, recv.received)))
              && (!recv.Received? ==> s.result == Failure(Raised(ReadError, Some(h))))
  {
    var waited := SelectForRead(env, t, h, seconds, microseconds);
    match waited.result
    case Failure(e) => Step(Failure(e), waited.trace)
    case Success(ready) =>
      if !ready then Step(Success(NotReady), waited.trace)
      else Recv(env, waited.trace, h, length, flags)
  }

  /** The length `send`, `sendTo` and `write` pass on: the given one, or the
      whole data when none is given. */
  function DefaultLength(data: seq<byte>, length: Option<int>): int {
    if length.None? then |data| else length.value
  }

  /** `send`: one `socket_send` of `length` bytes, defaulting to all of `data`. */
  function Send(env: Env, t: Trace, h: HandleId, data: seq<byte>, length: Option<int>, flags: int): (s: Step<int>)
    ensures length.None? ==> s.trace == t + [SocketSend(h, data, |data|, flags)]
    ensures length.Some? ==> s.trace == t + [SocketSend(h, data, length.value, flags)]
    ensures var reply := env.respond(t, s.trace[|t|]);
            && (reply.Int? ==> s.result == Success(reply.n))
            && (!reply.Int? ==> s.result == Failure(Raised(WriteError, Some(h))))
  {
    SendResult(env, t, h, SocketSend(h, data, DefaultLength(data, length), flags))
  }

  /** `sendTo`: one `socket_sendto` of `length` bytes, defaulting to all of `data`. */
  function SendTo(env: Env, t: Trace, h: HandleId, data: seq<byte>, length: Option<int>, address: string,
                  port: Option<int>, flags: int): (s: Step<int>)
    ensures length.None? ==> s.trace == t + [SocketSendTo(h, data, |data|, flags, address, port)]
    ensures length.Some? ==> s.trace == t + [SocketSendTo(h, data, length.value, flags, address, port)]
    ensures var reply := env.respond(t, s.trace[|t|]);
            && (reply.Int? ==> s.result == Success(reply.n))
            && (!reply.Int? ==> s.result == Failure(Raised(WriteError, Some(h))))
  {
    SendResult(env, t, h, SocketSendTo(h, data, DefaultLength(data, length), flags, address, port))
  }

  /** `write`: one `socket_write` of `length` bytes, defaulting to all of `data`. */
  function Write(env: Env, t: Trace, h: HandleId, data: seq<byte>, length: Option<int>): (s: Step<int>)
    ensures length.None? ==> s.trace == t + [SocketWrite(h, data, |data|)]
    ensures length.Some? ==> s.trace == t + [SocketWrite(h, data, length.value)]
    ensures var reply := env.respond(t, s.trace[|t|]);
            && (reply.Int? ==> s.result == Success(reply.n))
            && (!reply.Int? ==> s.result == Failure(Raised(WriteError, Some(h))))
  {
    SendResult(env, t, h, SocketWrite(h, data, DefaultLength(data, length)))
  }

  /** `sendTimed`: one writability wait; when it does not report writable, the
      result is 0 and nothing is sent; otherwise exactly one `send` is made,
      with the default length rule, and its result returned. */
  function SendTimed(env: Env, t: Trace, h: HandleId, data: seq<byte>, length: Option<int>, seconds: int,
                     microseconds: int, flags: int): (s: Step<int>)
    ensures |t| < |s.trace| <= |t| + 2 && s.trace[..|t| + 1] == t + [WritabilityCall(h, seconds, microseconds)]
    ensures var wait := env.respond(t, WritabilityCall(h, seconds, microseconds));
            && (!wait.Ready? ==> s.result == Failure(Raised(GenericError, None)))
            && (wait.Ready? && !ReportsWritable(wait) ==> s.result == Success(0))
            && (|s.trace| == |t| + 2 <==> ReportsWritable(wait))
    ensures |s.trace| == |t| + 2 ==>
              var sent := env.respond(t + [WritabilityCall(h, seconds, microseconds)], s.trace[|t| + 1]);
              && s.trace[|t| + 1] == SocketSend(h, data, DefaultLength(data, length), flags)
              && (sent.Int? ==> s.result == Success(sent.n))
              && (!sent.Int? ==> s.result == Failure(Raised(WriteError, Some(h))))
  {
    var waited := SelectForWrite(env, t, h, seconds, microseconds);
    match waited.result
    case Failure(e) => Step(Failure(e), waited.trace)
    case Success(ready) =>
      if !ready then Step(Success(0), waited.trace)
      else Send(env, waited.trace, h, data, length, flags)
  }

  // ---------------------------------------------------------------------
  // Ports

  /** The port out of a name query: an OS failure is a generic exception on
      this socket, a family without ports is a logic error, not a socket error. */
  function PortOf(reply: Reply, h: HandleId): Result<int, Error> {
    match reply
    case Name(_, Some(port)) => Success(port)
    case Name(_, None) => Failure(LogicError)
    case _ => Failure(Raised(GenericError, Some(h)))
  }

  /** `localPort`: one `socket_getsockname`; its port, a logic error when the
      family has none, or a socket exception when the query fails. */
  function LocalPort(env: Env, t: Trace, h: HandleId): (s: Step<int>)
    ensures s.trace == t + [SocketGetSockName(h)]
    ensures var reply := env.respond(t, SocketGetSockName(h));
            && (reply.Name? && reply.namePort.Some? <==> s.result.Success?)
            && (s.result.Success? ==> s.result.value == reply.namePort.value)
            && (reply.Name? && reply.namePort.None? <==> s.result == Failure(LogicError))
            && (!reply.Name? <==> s.result == Failure(Raised(GenericError, Some(h))))
  {
    Step(PortOf(env.respond(t, SocketGetSockName(h)), h), t + [SocketGetSockName(h)])
  }

  /** `remotePort`: as `localPort`, through `socket_getpeername`. */
  function RemotePort(env: Env, t: Trace, h: HandleId): (s: Step<int>)
    ensures s.trace == t + [SocketGetPeerName(h)]
    ensures var reply := env.respond(t, SocketGetPeerName(h));
            && (reply.Name? && reply.namePort.Some? <==> s.result.Success?)
            && (s.result.Success? ==> s.result.value == reply.namePort.value)
            && (reply.Name? && reply.namePort.None? <==> s.result == Failure(LogicError))
            && (!reply.Name? <==> s.result == Failure(Raised(GenericError, Some(h))))
  {
    Step(PortOf(env.respond(t, SocketGetPeerName(h)), h), t + [SocketGetPeerName(h)])
  }

  // ---------------------------------------------------------------------
  // Exact-length timed read

  /** What `readTimed` yields: the bytes and its out-flag `$o_bComplete`. */
  datatype TimedRead = TimedRead(data: seq<byte>, complete: bool)

  /** The contract the loop relies on from the OS: a read of n > 0 bytes that
      returns a string returns between 1 and n bytes. (An end-of-stream read
      that returns no bytes after a readable wait would make the loop spin.) */
  ghost predicate ReadsProgress(env: Env, h: HandleId, mode: int) {
    forall t: Trace, n: int {:trigger env.respond(t, SocketRead(h, n, mode))} ::
      n > 0 && env.respond(t, SocketRead(h, n, mode)).Str? ==>
        1 <= |env.respond(t, SocketRead(h, n, mode)).chunk| <= n
  }

  /** The bytes a call made after trace `t` hands back: the string a read
      returned, and nothing for any other call or a failed read. */
  function Handed(env: Env, t: Trace, c: Syscall): seq<byte> {
    var reply := env.respond(t, c);
    if c.SocketRead? && reply.Str? then reply.chunk else []
  }

  /** The bytes the reads among `calls` returned, in the order they arrived,
      when `calls` were made after the trace `t`. */
  function Delivered(env: Env, t: Trace, calls: seq<Syscall>): seq<byte>
    decreases |calls|
  {
    if calls == [] then []
    else Handed(env, t, calls[0]) + Delivered(env, t + [calls[0]], calls[1..])
  }

  /** `calls`, made after trace `t` while `missing` bytes were still wanted,
      is a run of complete `readTimed` rounds: each, made only while bytes
      are missing, is a readiness wait on this socket that reported it
      readable, then a read of this socket in the given mode asking for
      exactly the bytes still missing, which returned a string. */
  ghost predicate Rounds(env: Env, t: Trace, calls: seq<Syscall>, h: HandleId, missing: int,
                         seconds: int, microseconds: int, mode: int)
    decreases |calls|
  {
    if calls == [] then true
    else
      && |calls| >= 2
      && missing > 0
      && calls[0] == ReadinessCall(h, seconds, microseconds)
      && ReportsReadable(env.respond(t, calls[0]))
      && calls[1] == SocketRead(h, missing, mode)
      && env.respond(t + [calls[0]], calls[1]).Str?
      && Rounds(env, t + calls[..2], calls[2..], h, missing - |Handed(env, t + [calls[0]], calls[1])|,
                seconds, microseconds, mode)
  }

  /** The calls of one `readTimed`: complete rounds, possibly followed,
      while bytes were still missing, either by one last wait after which
      no read was made, or by a readable wait and a read of the missing
      bytes that did not return a string, after which nothing was made. */
  ghost predicate WaitThenRead(env: Env, t: Trace, calls: seq<Syscall>, h: HandleId, exactLength: int,
                               seconds: int, microseconds: int, mode: int)
  {
    || Rounds(env, t, calls, h, exactLength, seconds, microseconds, mode)
    || (&& |calls| > 0
        && Rounds(env, t, calls[..|calls| - 1], h, exactLength, seconds, microseconds, mode)
        && |Delivered(env, t, calls[..|calls| - 1])| < exactLength
        && calls[|calls| - 1] == ReadinessCall(h, seconds, microseconds))
    || (&& |calls| >= 2
        && FailedRead(env, t, calls[..|calls| - 2], calls[|calls| - 2], calls[|calls| - 1],
                      h, exactLength, seconds, microseconds, mode))
  }

  /** After the rounds `done`, a readable `wait` was followed by a `read` of
      the bytes still missing that did not return a string. */
  ghost predicate FailedRead(env: Env, t: Trace, done: seq<Syscall>, wait: Syscall, read: Syscall,
                             h: HandleId, exactLength: int, seconds: int, microseconds: int, mode: int)
  {
    && Rounds(env, t, done, h, exactLength, seconds, microseconds, mode)
    && |Delivered(env, t, done)| < exactLength
    && wait == ReadinessCall(h, seconds, microseconds)
    && ReportsReadable(env.respond(t + done, wait))
    && read == SocketRead(h, exactLength - |Delivered(env, t, done)|, mode)
    && !env.respond(t + done + [wait], read).Str?
  }

  /** The bytes of consecutive runs of calls are the bytes of each, in order. */
  lemma {:induction false} DeliveredAppend(env: Env, t: Trace, calls: seq<Syscall>, more: seq<Syscall>)
    ensures Delivered(env, t, calls + more) == Delivered(env, t, calls) + Delivered(env, t + calls, more)
    decreases |calls|
  {
    if calls == [] {
      assert calls + more == more;
      assert t + calls == t;
    } else {
      assert (calls + more)[0] == calls[0];
      assert (calls + more)[1..] == calls[1..] + more;
      DeliveredAppend(env, t + [calls[0]], calls[1..], more);
      assert t + [calls[0]] + calls[1..] == t + calls;
    }
  }

  /** A wait that ends `readTimed` leaves its calls well formed and adds no bytes. */
  lemma WaitStep(env: Env, t: Trace, calls: seq<Syscall>, h: HandleId, exactLength: int,
                 seconds: int, microseconds: int, mode: int)
    requires Rounds(env, t, calls, h, exactLength, seconds, microseconds, mode)
    requires |Delivered(env, t, calls)| < exactLength
    ensures WaitThenRead(env, t, calls + [ReadinessCall(h, seconds, microseconds)], h, exactLength,
                         seconds, microseconds, mode)
    ensures Delivered(env, t, calls + [ReadinessCall(h, seconds, microseconds)]) == Delivered(env, t, calls)
  {
    var calls' := calls + [ReadinessCall(h, seconds, microseconds)];
    assert calls'[..|calls'| - 1] == calls;
    DeliveredAppend(env, t, calls, [ReadinessCall(h, seconds, microseconds)]);
    assert [ReadinessCall(h, seconds, microseconds)][1..] == [];
  }

  /** A readable wait followed by a read of the bytes still missing that
      returns a string, made while some are missing, completes a round. */
  lemma {:induction false} RoundsExtend(env: Env, t: Trace, calls: seq<Syscall>, h: HandleId, missing: int,
                                        seconds: int, microseconds: int, mode: int)
    requires Rounds(env, t, calls, h, missing, seconds, microseconds, mode)
    requires |Delivered(env, t, calls)| < missing
    requires ReportsReadable(env.respond(t + calls, ReadinessCall(h, seconds, microseconds)))
    requires env.respond(t + calls + [ReadinessCall(h, seconds, microseconds)],
                         SocketRead(h, missing - |Delivered(env, t, calls)|, mode)).Str?
    ensures Rounds(env, t, calls + [ReadinessCall(h, seconds, microseconds),
                                    SocketRead(h, missing - |Delivered(env, t, calls)|, mode)],
                   h, missing, seconds, microseconds, mode)
    decreases |calls|
  {
    var ext := [ReadinessCall(h, seconds, microseconds),
                SocketRead(h, missing - |Delivered(env, t, calls)|, mode)];
    if calls == [] {
      assert ext[2..] == [];
      assert t + calls == t;
    } else {
      var t' := t + calls[..2];
      var chunk := Handed(env, t + [calls[0]], calls[1]);
      assert Delivered(env, t, calls) == chunk + Delivered(env, t', calls[2..]) by {
        assert calls[1..][1..] == calls[2..];
        assert t + [calls[0]] + [calls[1]] == t';
      }
      assert t' + calls[2..] == t + calls;
      assert ext[1] == SocketRead(h, missing - |chunk| - |Delivered(env, t', calls[2..])|, mode);
      RoundsExtend(env, t', calls[2..], h, missing - |chunk|, seconds, microseconds, mode);
      assert (calls + ext)[2..] == calls[2..] + ext;
      assert (calls + ext)[..2] == calls[..2];
    }
  }

  /** A completed round adds what its read handed back. */
  lemma DeliveredPair(env: Env, t: Trace, calls: seq<Syscall>, wait: Syscall, read: Syscall)
    requires !wait.SocketRead?
    ensures Delivered(env, t, calls + [wait, read])
         == Delivered(env, t, calls) + Handed(env, t + calls + [wait], read)
  {
    DeliveredAppend(env, t, calls, [wait, read]);
    assert [wait, read][1..] == [read];
    assert [read][1..] == [];
    assert Delivered(env, t + calls + [wait], [read]) == Handed(env, t + calls + [wait], read);
    assert Delivered(env, t + calls, [wait, read]) == Handed(env, t + calls + [wait], read);
  }

  /** The last call of a non-empty trace. */
  function LastCall(trace: Trace): Syscall
    requires trace != []
  {
    trace[|trace| - 1]
  }

  /** The reply the last call of a non-empty trace received. */
  function LastReply(env: Env, trace: Trace): Reply
    requires trace != []
  {
    env.respond(trace[..|trace| - 1], trace[|trace| - 1])
  }

  /** A trace that ends with `c` made after `before` has `c` as its last call
      and `c`'s reply to `before` as its last reply. */
  lemma LastOf(env: Env, before: Trace, c: Syscall)
    ensures LastCall(before + [c]) == c
    ensures LastReply(env, before + [c]) == env.respond(before, c)
  {
    assert (before + [c])[..|before|] == before;
  }

  /** What `readTimed` promises of its outcome `s`, started after trace `t`.
      A non-positive length returns at once, complete and empty, with no
      call. Otherwise the calls are rounds of a readable wait and a read of
      the missing length, possibly ending with one more wait; the bytes
      returned are those the reads delivered, in arrival order, never more
      than `exactLength`; and the outcome is decided by the last call and its
      reply: a wait that does not return an int is the generic exception, a
      wait that reports nothing returns the bytes so far as incomplete, a
      read that does not return a string is the read exception, and a read
      that does return one ends the call complete. */
  ghost predicate TimedReadPost(env: Env, t: Trace, h: HandleId, exactLength: int, seconds: int,
                                microseconds: int, mode: int, s: Step<TimedRead>)
  {
    && |t| <= |s.trace| && s.trace[..|t|] == t
    && WaitThenRead(env, t, s.trace[|t|..], h, exactLength, seconds, microseconds, mode)
    && (exactLength <= 0 ==> s == Step(Success(TimedRead([], true)), t))
    && (s.result.Success? ==> s.result.value.data == Delivered(env, t, s.trace[|t|..]))
    && (s.result.Success? && exactLength > 0 ==>
          && |s.result.value.data| <= exactLength
          && (s.result.value.complete <==> |s.result.value.data| == exactLength))
    && (s.result.Failure? ==>
          s.result.error == Raised(GenericError, None) || s.result.error == Raised(ReadError, Some(h)))
    && (exactLength > 0 ==>
          && |s.trace| > |t|
          && (s.result == Failure(Raised(GenericError, None)) <==>
                LastCall(s.trace) == ReadinessCall(h, seconds, microseconds) && !LastReply(env, s.trace).Ready?)
          && (s.result.Success? && !s.result.value.complete <==>
                && LastCall(s.trace) == ReadinessCall(h, seconds, microseconds)
                && LastReply(env, s.trace).Ready? && !ReportsReadable(LastReply(env, s.trace)))
          && (s.result == Failure(Raised(ReadError, Some(h))) <==>
                LastCall(s.trace).SocketRead? && !LastReply(env, s.trace).Str?)
          && (s.result.Success? && s.result.value.complete <==>
                LastCall(s.trace).SocketRead? && LastReply(env, s.trace).Str?))
  }

  /** The exit through a wait that failed or reported nothing. */
  lemma PostAfterWait(env: Env, t: Trace, h: HandleId, exactLength: int, seconds: int, microseconds: int,
                      mode: int, calls: seq<Syscall>, st: seq<byte>, s: Step<TimedRead>)
    requires Rounds(env, t, calls, h, exactLength, seconds, microseconds, mode)
    requires st == Delivered(env, t, calls) && 0 <= |st| < exactLength
    requires var waited := SelectForRead(env, t + calls, h, seconds, microseconds);
             || (waited.result.Failure? && s == Step(Failure(waited.result.error), waited.trace))
             || (waited.result.Success? && !waited.result.value && s == Step(Success(TimedRead(st, false)), waited.trace))
    ensures TimedReadPost(env, t, h, exactLength, seconds, microseconds, mode, s)
  {
    var wait := ReadinessCall(h, seconds, microseconds);
    WaitStep(env, t, calls, h, exactLength, seconds, microseconds, mode);
    LastOf(env, t + calls, wait);
    assert (t + calls + [wait])[..|t|] == t;
    assert (t + calls + [wait])[|t|..] == calls + [wait];
  }

  /** One pass of the loop: after a readable wait, the read of the missing
      length either fails, which ends `readTimed` with the read exception,
      or extends the rounds by the bytes it returned. */
  lemma ReadRound(env: Env, t: Trace, h: HandleId, exactLength: int, seconds: int, microseconds: int,
                  mode: int, calls: seq<Syscall>, st: seq<byte>, got: Step<seq<byte>>)
    requires ReadsProgress(env, h, mode)
    requires Rounds(env, t, calls, h, exactLength, seconds, microseconds, mode)
    requires st == Delivered(env, t, calls) && 0 <= |st| < exactLength
    requires ReportsReadable(env.respond(t + calls, ReadinessCall(h, seconds, microseconds)))
    requires got == Read(env, t + calls + [ReadinessCall(h, seconds, microseconds)], h, exactLength - |st|, mode)
    ensures got.result.Failure? ==>
              TimedReadPost(env, t, h, exactLength, seconds, microseconds, mode, Step(Failure(got.result.error), got.trace))
    ensures got.result.Success? ==>
              var calls' := calls + [ReadinessCall(h, seconds, microseconds), SocketRead(h, exactLength - |st|, mode)];
              && got.trace == t + calls + [ReadinessCall(h, seconds, microseconds)] + [SocketRead(h, exactLength - |st|, mode)]
              && Rounds(env, t, calls', h, exactLength, seconds, microseconds, mode)
              && st + got.result.value == Delivered(env, t, calls')
              && |st| < |st + got.result.value| <= exactLength
              && env.respond(t + calls + [ReadinessCall(h, seconds, microseconds)],
                             SocketRead(h, exactLength - |st|, mode)).Str?
  {
    var wait, read := ReadinessCall(h, seconds, microseconds), SocketRead(h, exactLength - |st|, mode);
    if got.result.Failure? {
      PostAfterFailedRead(env, t, h, exactLength, seconds, microseconds, mode, calls, st);
    } else {
      assert t + calls + [wait] + [read] == t + (calls + [wait, read]);
      RoundsExtend(env, t, calls, h, exactLength, seconds, microseconds, mode);
      DeliveredPair(env, t, calls, wait, read);
    }
  }

  /** The exit through a read, after a readable wait, that did not return a
      string: the read exception, with the read as the last call. */
  lemma PostAfterFailedRead(env: Env, t: Trace, h: HandleId, exactLength: int, seconds: int, microseconds: int,
                            mode: int, calls: seq<Syscall>, st: seq<byte>)
    requires Rounds(env, t, calls, h, exactLength, seconds, microseconds, mode)
    requires st == Delivered(env, t, calls) && 0 <= |st| < exactLength
    requires ReportsReadable(env.respond(t + calls, ReadinessCall(h, seconds, microseconds)))
    requires !env.respond(t + calls + [ReadinessCall(h, seconds, microseconds)],
                          SocketRead(h, exactLength - |st|, mode)).Str?
    ensures TimedReadPost(env, t, h, exactLength, seconds, microseconds, mode,
                          Step(Failure(Raised(ReadError, Some(h))),
                               t + calls + [ReadinessCall(h, seconds, microseconds)] + [SocketRead(h, exactLength - |st|, mode)]))
  {
    var wait, read := ReadinessCall(h, seconds, microseconds), SocketRead(h, exactLength - |st|, mode);
    var calls' := calls + [wait, read];
    assert t + calls + [wait] + [read] == t + calls';
    LastOf(env, t + calls + [wait], read);
    assert (t + calls')[..|t|] == t;
    assert (t + calls')[|t|..] == calls';
    FailedReadEnds(env, t, h, exactLength, seconds, microseconds, mode, calls);
  }

  /** Rounds followed by a readable wait and a failed read of the missing
      bytes are the calls of one `readTimed`. */
  lemma FailedReadEnds(env: Env, t: Trace, h: HandleId, exactLength: int, seconds: int, microseconds: int,
                       mode: int, calls: seq<Syscall>)
    requires FailedRead(env, t, calls, ReadinessCall(h, seconds, microseconds),
                        SocketRead(h, exactLength - |Delivered(env, t, calls)|, mode),
                        h, exactLength, seconds, microseconds, mode)
    ensures WaitThenRead(env, t, calls + [ReadinessCall(h, seconds, microseconds),
                                          SocketRead(h, exactLength - |Delivered(env, t, calls)|, mode)],
                         h, exactLength, seconds, microseconds, mode)
  {
    var calls' := calls + [ReadinessCall(h, seconds, microseconds),
                           SocketRead(h, exactLength - |Delivered(env, t, calls)|, mode)];
    assert calls'[..|calls'| - 2] == calls;
  }

  /** The exit once the loop condition fails, after the last round's read
      (`before` is the trace just before that read). */
  lemma PostComplete(env: Env, t: Trace, h: HandleId, exactLength: int, seconds: int, microseconds: int,
                     mode: int, calls: seq<Syscall>, st: seq<byte>, before: Trace)
    requires Rounds(env, t, calls, h, exactLength, seconds, microseconds, mode)
    requires st == Delivered(env, t, calls) && |st| >= exactLength
    requires exactLength > 0 ==> |st| <= exactLength
    requires exactLength <= 0 ==> calls == [] && st == []
    requires calls != [] ==>
               && t + calls == before + [calls[|calls| - 1]]
               && calls[|calls| - 1].SocketRead?
               && env.respond(before, calls[|calls| - 1]).Str?
    ensures TimedReadPost(env, t, h, exactLength, seconds, microseconds, mode,
                          Step(Success(TimedRead(st, true)), t + calls))
  {
    assert (t + calls)[..|t|] == t;
    assert (t + calls)[|t|..] == calls;
    if calls != [] {
      LastOf(env, before, calls[|calls| - 1]);
    }
  }

  /** Every read of a run of rounds returned a string. */
  lemma {:induction false} RoundsReadsSucceed(env: Env, t: Trace, calls: seq<Syscall>, h: HandleId, missing: int,
                                              seconds: int, microseconds: int, mode: int)
    requires Rounds(env, t, calls, h, missing, seconds, microseconds, mode)
    ensures forall i :: 0 <= i < |calls| && calls[i].SocketRead? ==> env.respond(t + calls[..i], calls[i]).Str?
    decreases |calls|
  {
    if calls != [] {
      var t' := t + calls[..2];
      RoundsReadsSucceed(env, t', calls[2..], h, missing - |Handed(env, t + [calls[0]], calls[1])|,
                         seconds, microseconds, mode);
      forall i | 0 <= i < |calls| && calls[i].SocketRead?
        ensures env.respond(t + calls[..i], calls[i]).Str?
      {
        if i == 1 {
          assert calls[..1] == [calls[0]];
        } else if i >= 2 {
          assert calls[2..][i - 2] == calls[i];
          assert t' + calls[2..][..i - 2] == t + calls[..i];
        }
      }
    }
  }

  /** A read that does not return a string ends `readTimed`: every read
      before the last call of its trace returned a string, so a failed read
      is never followed by another wait or read. */
  lemma ReadFailureEndsReadTimed(env: Env, t: Trace, h: HandleId, exactLength: int, seconds: int,
                                 microseconds: int, mode: int, s: Step<TimedRead>)
    requires TimedReadPost(env, t, h, exactLength, seconds, microseconds, mode, s)
    ensures forall i :: |t| <= i < |s.trace| - 1 && s.trace[i].SocketRead? ==>
              env.respond(s.trace[..i], s.trace[i]).Str?
  {
    var calls := s.trace[|t|..];
    assert s.trace == t + calls;
    var done := calls;
    if !Rounds(env, t, calls, h, exactLength, seconds, microseconds, mode) {
      if calls[|calls| - 1] == ReadinessCall(h, seconds, microseconds) {
        done := calls[..|calls| - 1];
      } else {
        done := calls[..|calls| - 2];
        assert calls[|calls| - 2] == ReadinessCall(h, seconds, microseconds);
      }
    }
    RoundsReadsSucceed(env, t, done, h, exactLength, seconds, microseconds, mode);
    forall i | |t| <= i < |s.trace| - 1 && s.trace[i].SocketRead?
      ensures env.respond(s.trace[..i], s.trace[i]).Str?
    {
      var j := i - |t|;
      assert s.trace[i] == calls[j];
      if j < |done| {
        assert done[j] == calls[j];
        assert s.trace[..i] == t + done[..j];
      }
    }
  }

  /** `readTimed`: wait for readable, read up to the missing length, and
      repeat until `exactLength` bytes are in or a wait reports nothing. */
  method ReadTimed(env: Env, t: Trace, h: HandleId, exactLength: int, seconds: int, microseconds: int,
                   mode: int) returns (s: Step<TimedRead>)
    requires ReadsProgress(env, h, mode)
    ensures TimedReadPost(env, t, h, exactLength, seconds, microseconds, mode, s)
  {
    var st: seq<byte> := [];
    ghost var calls: seq<Syscall> := [];
    ghost var before: Trace := t;
    var tr := t;
    while |st| < exactLength
      invariant tr == t + calls
      invariant Rounds(env, t, calls, h, exactLength, seconds, microseconds, mode)
      invariant st == Delivered(env, t, calls)
      invariant exactLength > 0 ==> |st| <= exactLength
      invariant exactLength <= 0 ==> calls == [] && st == []
      invariant calls != [] ==>
                  && tr == before + [calls[|calls| - 1]]
                  && calls[|calls| - 1].SocketRead?
                  && env.respond(before, calls[|calls| - 1]).Str?
      decreases exactLength - |st|
    {
      var waited := SelectForRead(env, tr, h, seconds, microseconds);
      if waited.result.Failure? {
        s := Step(Failure(waited.result.error), waited.trace);
        PostAfterWait(env, t, h, exactLength, seconds, microseconds, mode, calls, st, s);
        return;
      }
      if !waited.result.value {
        s := Step(Success(TimedRead(st, false)), waited.trace);
        PostAfterWait(env, t, h, exactLength, seconds, microseconds, mode, calls, st, s);
        return;
      }
      var got := Read(env, waited.trace, h, exactLength - |st|, mode);
      ReadRound(env, t, h, exactLength, seconds, microseconds, mode, calls, st, got);
      if got.result.Failure? {
        return Step(Failure(got.result.error), got.trace);
      }
      before := waited.trace;
      calls := calls + [ReadinessCall(h, seconds, microseconds), SocketRead(h, exactLength - |st|, mode)];
      st := st + got.result.value;
      tr := got.trace;
    }
    PostComplete(env, t, h, exactLength, seconds, microseconds, mode, calls, st, before);
    return Step(Success(TimedRead(st, true)), tr);
  }
}
