# jdwx/socket — a Dafny model of the socket wrapper's own logic

`JDWX\Socket\Socket` is a thin object wrapper around PHP's sockets
extension. Most of its methods forward one extension call and turn a
failure into an exception. This project models the parts that add logic of
their own:

- choosing the address family from an address string (`createByAddress`),
  and the create → bind → listen sequence of `createBound`;
- the readiness multiplexer `select`. It flattens the caller's lists of
  wrappers and raw sockets for the OS wait. It then rebuilds each list from
  the sockets the OS reported, through `processArray`;
- the one-socket waits `selectForRead` and `selectForWrite`, and the timed
  operations built on them: `recvTimed`, `sendTimed`, and the exact-length
  loop `readTimed`;
- the default length (the whole string) of `send`, `sendTo` and `write`;
- the null-port guard of `localPort` and `remotePort`;
- how `Exceptions\Exception` composes its final message from the caller's
  message and the socket's last OS error.

The operating system is an oracle. `Os.Env` answers each extension call
(`Os.Syscall`) from the whole history of calls before it (`Os.Trace`).
Every operation takes the trace so far and returns its outcome with the
extended trace (`Os.Step`). Contracts can therefore say which calls were
made, in which order, with which arguments, and how each reply decides the
result. A thrown exception becomes a `Failure` carrying the exception class
and the last-error slot it was built against (`Os.Error`). The `Socket`
object holds only its descriptor and never changes it, so it is modelled
as the descriptor's identity (`Os.HandleId`), not as a class. A wrapper in
a readiness list is `Os.SocketRef.Wrapped`, with an identity of its own.

Files:

- `Wrappers.dfy`: `Option` and `Result`.
- `Os.dfy`: the extension boundary, its replies and the error values.
- `Exceptions.dfy`: the exception constructor's message composition.
- `Readiness.dfy`: `select`, its flattening loops and `processArray`.
- `Sockets.dfy`: creation, the single-socket waits, timed I/O, default
  lengths, ports and `readTimed`.

A failed `socket_create` in `create` throws the plain `Exceptions\Exception`
class (src/Socket.php:87); here it is `Raised(GenericError, None)`.

## Model

| member | source | states |
|---|---|---|
| Exceptions.ErrorSlot | src/Socket.php:152-158 | The last-error slot consulted is the raw socket's own slot: a wrapper is looked through to the socket it holds, and no socket means the global slot. |
| Exceptions.NewException | src/Exceptions/Exception.php:16-29 | Kind, code and the previous throwable (a socket exception or any other PHP throwable) pass through. With no pending error the message is the caller's unchanged. With a pending error and an empty message (`""` or `"0"`, PHP's `empty`), the message is the error text alone. Otherwise it is the caller's message followed by `" ["`, the error text and `"]"`. |
| Exceptions.CallerMessageIsPrefix | src/Exceptions/Exception.php:19-26 | A non-empty caller message is always a prefix of the final message, whether or not an error is pending. |
| Exceptions.CallerMessageRoundTrip | src/Exceptions/Exception.php:19-26 | With a pending error and a non-empty caller message, stripping the bracketed error text from the final message gives back exactly the caller's message. |
| Exceptions.WrapperSharesErrorSlot | src/Socket.php:152-158 | Building an exception against a wrapper gives the same exception as building it against the raw socket inside it. |
| Readiness.Handles | src/Socket.php:172-196 | Flattening keeps the list's length, and element i is the raw socket of entry i. |
| Readiness.ToRaw | src/Socket.php:171-196 | Each flattening loop returns the raw sockets of the caller's list in order, with wrappers replaced by their socket. An absent list is flattened as an empty one. |
| Readiness.FirstMatch | src/Socket.php:230-239 | The inner search finds nothing exactly when no entry is the reported socket or a wrapper of it. What it finds is an entry of the list that stands for that socket. |
| Readiness.FirstMatchIsFirst | src/Socket.php:230-239 | The `break` makes the search return the entry at the least index that stands for the reported socket. |
| Readiness.Processed | src/Socket.php:225-243 | The rebuilt list is never longer than the ready list. It only holds caller entries whose socket was reported. |
| Readiness.ProcessArray | src/Socket.php:225-243 | An absent list stays absent. A present list becomes, for each reported socket in reported order, the first caller entry standing for it; reported sockets with no entry are skipped. |
| Readiness.ProcessedAppend | src/Socket.php:229-241 | The rebuilt list follows the ready list's order: processing a concatenation of ready lists concatenates the results. |
| Readiness.ProcessedSkipsUnwatched | src/Socket.php:229-241 | A reported socket the caller never listed adds nothing. |
| Readiness.ProcessedStepWatched | src/Socket.php:229-241 | A reported socket the caller did list adds exactly one entry: the first one standing for it. |
| Readiness.ProcessedOnePerReady | src/Socket.php:229-241 | When every reported socket came from the caller's list, the rebuilt list has one entry per reported socket. Its k-th entry is the first caller entry for the k-th reported socket. |
| Readiness.ProcessedAllWatched | src/Socket.php:229-241 | Under the same condition, the raw sockets of the rebuilt list are exactly the reported ones, in reported order. |
| Readiness.Select | src/Socket.php:170-211 | Exactly one OS wait is made, on the three flattened lists. A reply that is not an int throws a generic exception on the global slot. Otherwise the count is returned, each list keeps its presence, and each present list is rebuilt from its ready list. When the OS reports only listed sockets, each rebuilt list's raw sockets equal the reported ones. |
| Sockets.Create | src/Socket.php:82-88 | One `socket_create`. It succeeds, returning the new socket, exactly when a socket comes back. Otherwise it throws the plain exception on the global slot. |
| Sockets.Bind | src/Socket.php:267-272 | One `socket_bind`. It succeeds exactly when the reply is `true`. Otherwise it throws a connection exception on the socket. |
| Sockets.Listen | src/Socket.php:317-322 | One `socket_listen` with the given backlog. It succeeds exactly when the reply is `true`. Otherwise it throws a generic exception on the socket. |
| Sockets.Read | src/Socket.php:342-348 | One `socket_read`. It returns the string exactly when a string comes back. Otherwise it throws a read exception on the socket. |
| Sockets.Recv | src/Socket.php:368-374 | One `socket_recv`. It returns the int count and the buffer exactly when an int comes back. Otherwise it throws a read exception on the socket. |
| Sockets.SendResult | src/Socket.php:464-471 | The shared tail of `send`, `sendTo` and `write`: the call is made once. An int reply is returned exactly when one comes back; anything else throws a write exception on the socket. |
| Sockets.DomainFor | src/Socket.php:102-110 | IPv6 exactly when the address contains a colon. Unix domain exactly when there is no colon and the address starts with `/`. IPv4 exactly in every other case, including the empty address. |
| Sockets.CreateByAddress | src/Socket.php:82-110 | One create call in the inferred family, with the given type and protocol. It succeeds, returning the new socket, exactly when the extension returns a socket. Otherwise it throws a generic exception on the global slot. |
| Sockets.CreateBound | src/Socket.php:91-99 | Create in the inferred family. If that fails, the result is a generic exception on the global slot after that one call. Otherwise bind the new socket to the given address and port. A bind that does not reply `true` ends with a connection exception on the socket after two calls. A successful bind ends with the new socket after two calls for a non-stream type. For `SOCK_STREAM` a third call, listen with backlog 0, always follows a successful bind: the socket is returned exactly when it replies `true`, otherwise a generic exception on the socket. A listen is always directly preceded by a bind of the same socket. |
| Sockets.SelectForRead | src/Socket.php:440-449 | One wait on this socket alone, for reading. It is true exactly when the wait returns a positive count and a non-empty read list. A non-int reply throws a generic exception on the global slot. |
| Sockets.SelectForWrite | src/Socket.php:452-461 | The same as `selectForRead`, for writability and the write list. |
| Sockets.RecvTimed | src/Socket.php:414-420 | One readiness wait. A second call, a `recv` of the given length and flags, is made exactly when the wait reports readable. Without it the result is 0 and no data is read. With it, the result is the `recv` count and buffer, or a read exception on the socket. A failing wait propagates its exception. |
| Sockets.SendTimed | src/Socket.php:489-495 | One writability wait. A `send` follows exactly when the wait reports writable, using the default-length rule. Without it the result is 0 and nothing is sent. With it, the result is the sent count or a write exception on the socket. |
| Sockets.Send | src/Socket.php:464-471 | One `socket_send` with the given length, or the whole data's length when none is given. An int reply is returned; anything else throws a write exception on the socket. |
| Sockets.SendTo | src/Socket.php:499-507 | The same as `send`, for `socket_sendto` with the address and port passed on unchanged. |
| Sockets.Write | src/Socket.php:557-564 | The same as `send`, for `socket_write`. |
| Sockets.LocalPort | src/Socket.php:333-339 | One `socket_getsockname`. A successful query with an int port returns it. A successful query with no port (a family without ports) is a logic error, not a socket exception. A failed query throws a generic exception on the socket. Each case holds exactly when its reply does. |
| Sockets.RemotePort | src/Socket.php:431-437 | The same as `localPort`, through `socket_getpeername`. |
| Sockets.DeliveredAppend | src/Socket.php:357-362 | The bytes read during two consecutive runs of calls are those of the first run followed by those of the second. |
| Sockets.RoundsExtend | src/Socket.php:357-362 | While bytes are missing, a wait that reported readable followed by a read of exactly the missing bytes that returned a string extends a well-formed run of `readTimed` rounds. |
| Sockets.RoundsReadsSucceed | src/Socket.php:357-362 | Every read in a run of completed rounds returned a string: the loop only goes round again after a read that did not throw. |
| Sockets.ReadRound | src/Socket.php:357-362 | One pass of the loop after a readable wait. A failed read ends `readTimed` with the read exception, as its last call, meeting its whole promise. A successful read extends the rounds, adds the bytes it returned to those delivered, makes progress, and never passes the requested length. |
| Sockets.ReadTimed | src/Socket.php:352-365 | A non-positive length returns the empty string, complete, with no call. Otherwise the calls are rounds, made only while bytes are missing, of a wait that reported readable followed by a read asking for exactly the missing bytes that returned a string. They may end, while bytes are still missing, with one more wait and nothing after it, or with a readable wait and a read that did not return a string and nothing after it. The bytes returned are those the reads delivered, in arrival order, never more than the length, and `complete` holds exactly when all arrived. The outcome is fixed by the last call and its reply, in both directions: a wait that does not return an int gives the generic exception on the global slot; a wait that reports nothing returns the bytes so far, incomplete; a read that does not return a string gives the read exception on the socket; a read that returns one ends the call complete. |
| Sockets.ReadFailureEndsReadTimed | src/Socket.php:342-365 | For any outcome `readTimed` may produce, every read before the last call returned a string: a read that fails throws out of the loop, so no wait or read ever follows it. |

## Left out

- The remaining operations are single extension calls whose only logic is the type test on the reply. Those the modelled operations use are `Sockets.Create`, `Sockets.Bind`, `Sockets.Listen`, `Sockets.Read`, `Sockets.Recv` and `Sockets.SendResult`; `getSockName` and `getPeerName` are folded into `Sockets.LocalPort` and `Sockets.RemotePort`. The rest (`accept`, `connect`, `recvFrom`, `setOption`, `shutdown`, `createListen`, `createPair`, `importStream`, `cmsgSpace` and the like) follow the same pattern and are not modelled one by one.
- `clearError` looks a wrapper through to its socket as `lastError` does (the slot choice of `Exceptions.ErrorSlot`), then calls `socket_clear_error`; `atMark` returns the reply of `socket_atmark` with no test. Both are foreign calls with no logic of their own beyond that, and are not modelled.
- `addrInfoBind`, `addrInfoConnect`, `addrInfoExplain`, `addrInfoLookup`: they depend on `\AddressInfo` resources and the resolver, which the oracle does not describe.
- `recvMsg`, `sendMsg` and out-of-band data: the control-message arrays are opaque to the wrapper.
- `localAddress`, `remoteAddress`: these are `getSockName`/`getPeerName` plus an `assert` on the type.
- The destructor closing the descriptor: resource lifetime is not modelled.
- `Socket::strError` and `socket_last_error` are parameters of `Exceptions.NewException` (`strError`, `lastError`). The socket operations record only the exception class and the slot an exception is built against, not its message text. The interpolated text of each "failed" message is not modelled.
- Real time: timeouts are passed to the wait call unchanged. How long a wait lasts, and what it reports, belong to the oracle.
- Sockets.ReadTimed: requires `ReadsProgress`, meaning a read of n > 0 bytes that returns a string returns 1 to n bytes. Without it, a read that returns an empty string at end of stream after a readable wait makes the PHP loop spin. The model does not describe that non-terminating run.
- Sockets.ReadTimed: the out-flag `$o_bComplete` is set to `false` before the loop. When an exception escapes, the caller sees that `false`. The model's `Failure` carries no flag.
- Sockets.RecvTimed: the out-parameter buffer is left as the caller passed it on the early `return 0`. The model returns `NotReady` and does not carry the caller's buffer.
- The exception subclasses `ConnectionException`, `ReadException` and `WriteException` are not part of this model beyond their class (`Os.ErrorKind`). They add no behaviour to the base constructor.
- PHP's `assert` calls in `select` (each list entry is a socket) and in `lastError` (its unwrapped argument is a socket or null): the model's `SocketRef` and `Option` types admit only those values, so the assertions always hold.
- PHP warnings: `getSockName`, `recv`, `send` and `write` call the extension without the `@` operator (src/Socket.php:309, 369, 466, 559), unlike the other extension calls the modelled socket operations make. (`socket_last_error` and `socket_strerror`, reached by the exception constructor, are also called without `@`; here they are the parameters `lastError` and `strError`.) A failure there also raises an `E_WARNING`. Under an error handler that turns warnings into exceptions, the caller gets that error instead of the wrapper's exception. `Sockets.LocalPort`, `Sockets.Recv`, `Sockets.RecvTimed`, `Sockets.Send`, `Sockets.SendTimed` and `Sockets.Write` always yield the wrapper's exception, as if no such handler were installed.
- Default arguments: every model member takes all its parameters explicitly. The defaults of the PHP signatures are not modelled as such: `createBound`'s port 0 and type `SOCK_STREAM` (src/Socket.php:91-92); the zero timeouts of `select`, `selectForRead`, `selectForWrite`, `recvTimed`, `sendTimed` and `readTimed`; the `PHP_BINARY_READ` mode of `read` and `readTimed`; and the zero flags of `recv` and `send`. A caller relying on a default passes that value.
