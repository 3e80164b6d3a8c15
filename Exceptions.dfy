/** Error translation: how an exception's final message is composed from the
    caller's message and the last OS error recorded for a socket. */
module Exceptions {
  import opened Wrappers
  import opened Os

  /** A constructed exception: its class, final message, code and the
      throwable it chains to. */
  datatype Exception = Exception(kind: ErrorKind, message: string, code: int, previous: Option<Throwable>)

  /** Anything PHP can chain as the previous throwable: one of the socket
      exceptions, or any other `\Throwable`, known by its class and message. */
  datatype Throwable = Thrown(exception: Exception) | Foreign(className: string, message: string)

  /** The injectable last-error source (`socket_last_error`): the error code
      pending on a socket's slot, or on the global slot for `None`. */
  type ErrorSource = Option<HandleId> -> int

  /** The slot `Socket::lastError` consults: a wrapper is looked through to
      its raw socket, and no socket means the global slot. */
  function ErrorSlot(socket: Option<SocketRef>): (slot: Option<HandleId>)
    ensures slot.Some? <==> socket.Some?
    ensures slot.Some? ==> slot.value == socket.value.handle
  {
    match socket
    case None => None
    case Some(Raw(h)) => Some(h)
    case Some(Wrapped(_, h)) => Some(h)
  }

  /** PHP's `empty()` on a string: the empty string and the string "0". */
  predicate IsEmptyString(s: string) {
    s == "" || s == "0"
  }

  /** The text appended to a non-empty caller message when an error is pending. */
  function Bracketed(errorText: string): string {
    " [" + errorText + "]"
  }

  /** The exception constructor: the code and the previous throwable pass
      through; the message is the caller's when no error is pending, the
      error text alone when the caller's message is empty, and the caller's
      message followed by the bracketed error text otherwise. */
  function NewException(kind: ErrorKind, lastError: ErrorSource, strError: int -> string,
                        socket: Option<SocketRef>, message: string, code: int,
                        previous: Option<Throwable>): (e: Exception)
    ensures e.kind == kind && e.code == code && e.previous == previous
    ensures lastError(ErrorSlot(socket)) == 0 ==> e.message == message
    ensures lastError(ErrorSlot(socket)) != 0 && IsEmptyString(message) ==>
              e.message == strError(lastError(ErrorSlot(socket)))
    ensures lastError(ErrorSlot(socket)) != 0 && !IsEmptyString(message) ==>
              e.message == message + " [" + strError(lastError(ErrorSlot(socket))) + "]"
  {
    var uLastError := lastError(ErrorSlot(socket));
    var finalMessage :=
      if uLastError == 0 then message
      else if IsEmptyString(message) then strError(uLastError)
      else message + Bracketed(strError(uLastError));
    Exception(kind, finalMessage, code, previous)
  }

  /** Recovers the caller's message from a final message by removing the
      bracketed `errorText` at its end, if it is there. */
  function CallerMessage(final: string, errorText: string): string {
    var suffix := Bracketed(errorText);
    if |suffix| <= |final| && final[|final| - |suffix|..] == suffix
    then final[..|final| - |suffix|]
    else final
  }

  /** A non-empty caller message always survives as the start of the final
      message, whatever the error state. */
  lemma CallerMessageIsPrefix(kind: ErrorKind, lastError: ErrorSource, strError: int -> string,
                              socket: Option<SocketRef>, message: string, code: int,
                              previous: Option<Throwable>)
    requires !IsEmptyString(message)
    ensures message <= NewException(kind, lastError, strError, socket, message, code, previous).message
  {
    var e := NewException(kind, lastError, strError, socket, message, code, previous);
    if lastError(ErrorSlot(socket)) != 0 {
      assert e.message == message + Bracketed(strError(lastError(ErrorSlot(socket))));
      assert e.message[..|message|] == message;
    }
  }

  /** When an error is pending and the caller gave a message, stripping the
      bracketed error text from the final message gives back the caller's
      message exactly. */
  lemma CallerMessageRoundTrip(kind: ErrorKind, lastError: ErrorSource, strError: int -> string,
                               socket: Option<SocketRef>, message: string, code: int,
                               previous: Option<Throwable>)
    requires lastError(ErrorSlot(socket)) != 0 && !IsEmptyString(message)
    ensures CallerMessage(NewException(kind, lastError, strError, socket, message, code, previous).message,
                          strError(lastError(ErrorSlot(socket)))) == message
  {
    var text := strError(lastError(ErrorSlot(socket)));
    var final := message + Bracketed(text);
    assert final[|final| - |Bracketed(text)|..] == Bracketed(text);
    assert final[..|final| - |Bracketed(text)|] == message;
  }

  /** The error source is consulted through the socket a wrapper holds: a
      wrapper and its raw socket yield the same exception. */
  lemma WrapperSharesErrorSlot(kind: ErrorKind, lastError: ErrorSource, strError: int -> string,
                               wrapper: nat, h: HandleId, message: string, code: int,
                               previous: Option<Throwable>)
    ensures NewException(kind, lastError, strError, Some(Wrapped(wrapper, h)), message, code, previous)
         == NewException(kind, lastError, strError, Some(Raw(h)), message, code, previous)
  {
  }
}
