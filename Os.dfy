/** The boundary to PHP's sockets extension and the operating system.

    Every call the wrapper makes into the extension is a `Syscall`; the calls
    made so far form a `Trace`. The operating system is an oracle `Env` that
    answers each call from the whole history before it, so timing, kernel
    buffers and the network are all folded into that one function. A `Reply`
    carries the PHP type the extension returned; the wrapper's type tests
    (`instanceof \Socket`, `is_int`, `is_string`, `true ===`) decide between
    the success and the failure branch. */
module Os {
  import opened Wrappers

  /** One octet of a PHP binary string. */
  newtype byte = x: int | 0 <= x < 256

  /** An OS socket descriptor (a PHP `\Socket` object) by its identity. */
  type HandleId = nat

  /** The address families `createByAddress` chooses between. */
  datatype Domain = AfInet | AfInet6 | AfUnix

  /** Socket type constant compared against in `createBound` (Linux value). */
  const SOCK_STREAM: int := 1

  /** An element of a readiness list: either a raw `\Socket`, or a wrapper
      object (with its own identity) around a raw `\Socket`. */
  datatype SocketRef =
    | Raw(handle: HandleId)
    | Wrapped(wrapper: nat, handle: HandleId)

  /** The extension calls the core makes, named after the PHP functions. */
  datatype Syscall =
    | SocketCreate(domain: Domain, sockType: int, protocol: int)
    | SocketBind(bindHandle: HandleId, address: string, port: int)
    | SocketListen(listenHandle: HandleId, backlog: int)
    | SocketSelect(read: Option<seq<HandleId>>, write: Option<seq<HandleId>>,
                   except: Option<seq<HandleId>>, seconds: int, microseconds: int)
    | SocketRead(readHandle: HandleId, maxLength: int, mode: int)
    | SocketRecv(recvHandle: HandleId, length: int, recvFlags: int)
    | SocketSend(sendHandle: HandleId, data: seq<byte>, sendLength: int, sendFlags: int)
    | SocketSendTo(sendToHandle: HandleId, payload: seq<byte>, sendToLength: int, sendToFlags: int,
                   toAddress: string, toPort: Option<int>)
    | SocketWrite(writeHandle: HandleId, bytes: seq<byte>, writeLength: int)
    | SocketGetSockName(sockNameHandle: HandleId)
    | SocketGetPeerName(peerNameHandle: HandleId)

  /** What the extension hands back, by PHP type. */
  datatype Reply =
    | Refused                                          // false, or any other type
    | NewSocket(socket: HandleId)                      // a \Socket object
    | Done                                             // true
    | Int(n: int)                                      // an int
    | Str(chunk: seq<byte>)                            // a string
    | Received(count: int, received: Option<seq<byte>>) // int result of socket_recv and its buffer
    | Ready(rc: int, readReady: seq<HandleId>, writeReady: seq<HandleId>,
            exceptReady: seq<HandleId>)                // int result of socket_select and its lists
    | Name(nameAddress: string, namePort: Option<int>) // true from socket_get*name and its outputs

  type Trace = seq<Syscall>

  /** The operating system: the reply to a call, given every call before it. */
  datatype Env = Env(respond: (Trace, Syscall) -> Reply)

  /** The exception classes the core throws: `Exception`, `ConnectionException`,
      `ReadException`, `WriteException`. */
  datatype ErrorKind = GenericError | ConnectionError | ReadError | WriteError

  /** A thrown failure: a socket exception of some class, built against the
      last-error slot of `slot` (`None` is the global slot), or the
      `LogicException` raised when a family has no ports. */
  datatype Error =
    | Raised(kind: ErrorKind, slot: Option<HandleId>)
    | LogicError

  /** The outcome of a core operation together with the trace after it. */
  datatype Step<+T> = Step(result: Result<T, Error>, trace: Trace)
}
