/** The readiness multiplexer behind `Socket::select`: the caller's lists of
    wrappers and raw sockets are flattened to raw sockets for the OS wait,
    and each list is then rebuilt as those of its members the OS reported
    ready. */
module Readiness {
  import opened Wrappers
  import opened Os

  /** The raw sockets of a list, element by element. */
  function Handles(list: seq<SocketRef>): (hs: seq<HandleId>)
    ensures |hs| == |list|
    ensures forall i :: 0 <= i < |list| ==> hs[i] == list[i].handle
  {
    if list == [] then [] else Handles(list[..|list| - 1]) + [list[|list| - 1].handle]
  }

  /** A list the caller did not pass is watched as an empty list. */
  function OrEmpty(list: Option<seq<SocketRef>>): seq<SocketRef> {
    if list.Some? then list.value else []
  }

  /** One of the three flattening loops of `select`: each wrapper is replaced
      by its raw socket, raw sockets are kept, in order. */
  method ToRaw(list: Option<seq<SocketRef>>) returns (raw: seq<HandleId>)
    ensures raw == Handles(OrEmpty(list))
  {
    var entries := OrEmpty(list);
    raw := [];
    var i := 0;
    while i < |entries|
      invariant 0 <= i <= |entries|
      invariant raw == Handles(entries[..i])
    {
      var sock := entries[i];
      var h := match sock case Raw(r) => r case Wrapped(_, s) => s;
      raw := raw + [h];
      assert entries[..i + 1][..i] == entries[..i];
      i := i + 1;
    }
    assert entries[..i] == entries;
  }

  /** An input entry stands for a reported raw socket when it is that very
      socket, or a wrapper whose `socket()` is that socket. */
  predicate Matches(h: HandleId, entry: SocketRef) {
    match entry
    case Raw(r) => r == h
    case Wrapped(_, s) => s == h
  }

  /** The first entry of `input` that stands for `h`, if any. */
  function FirstMatch(input: seq<SocketRef>, h: HandleId): (m: Option<SocketRef>)
    ensures m.None? <==> forall k :: 0 <= k < |input| ==> !Matches(h, input[k])
    ensures m.Some? ==> m.value in input && Matches(h, m.value)
  {
    if input == [] then None
    else if Matches(h, input[0]) then Some(input[0])
    else FirstMatch(input[1..], h)
  }

  /** The entries `processArray` keeps for a ready list: for each reported
      socket in turn, the first input entry that stands for it. */
  function Processed(input: seq<SocketRef>, ready: seq<HandleId>): (out: seq<SocketRef>)
    ensures |out| <= |ready|
    ensures forall e :: e in out ==> e in input && e.handle in ready
  {
    if ready == [] then []
    else
      var rest := Processed(input, ready[..|ready| - 1]);
      match FirstMatch(input, ready[|ready| - 1])
      case None => rest
      case Some(e) => rest + [e]
  }

  /** `processArray`: an absent list stays absent; a present one becomes the
      entries that match the reported sockets, in the order reported. */
  method ProcessArray(input: Option<seq<SocketRef>>, ready: seq<HandleId>) returns (out: Option<seq<SocketRef>>)
    ensures out.None? <==> input.None?
    ensures input.Some? ==> out == Some(Processed(input.value, ready))
  {
    if input.None? {
      return None;
    }
    var entries := input.value;
    var rOut: seq<SocketRef> := [];
    var i := 0;
    while i < |ready|
      invariant 0 <= i <= |ready|
      invariant rOut == Processed(entries, ready[..i])
    {
      var outSock := ready[i];
      assert ready[..i + 1][..i] == ready[..i];
      var j := 0;
      while j < |entries|
        invariant 0 <= j <= |entries|
        invariant FirstMatch(entries[j..], outSock) == FirstMatch(entries, outSock)
        invariant rOut == Processed(entries, ready[..i])
      {
        var inSock := entries[j];
        if inSock == Raw(outSock) {
          rOut := rOut + [inSock];
          break;
        }
        if inSock.Wrapped? && outSock == inSock.handle {
          rOut := rOut + [inSock];
          break;
        }
        assert entries[j..][1..] == entries[j + 1..];
        j := j + 1;
      }
      i := i + 1;
    }
    assert ready[..i] == ready;
    return Some(rOut);
  }

  /** What `Socket::select` gives back: the OS count and the rebuilt lists. */
  datatype Selected = Selected(count: int, read: Option<seq<SocketRef>>,
                               write: Option<seq<SocketRef>>, except: Option<seq<SocketRef>>)

  /** The OS wait `select` issues for the three caller lists. */
  function SelectCall(read: Option<seq<SocketRef>>, write: Option<seq<SocketRef>>,
                      except: Option<seq<SocketRef>>, seconds: int, microseconds: int): Syscall
  {
    SocketSelect(Some(Handles(OrEmpty(read))), Some(Handles(OrEmpty(write))),
                 Some(Handles(OrEmpty(except))), seconds, microseconds)
  }

  /** `Socket::select`: exactly one OS wait on the flattened lists; if it does
      not return an int the call fails with a generic exception on the
      global slot, otherwise its count is returned and every list the caller
      passed is rebuilt from the sockets reported for it. */
  method Select(env: Env, t: Trace, read: Option<seq<SocketRef>>, write: Option<seq<SocketRef>>,
                except: Option<seq<SocketRef>>, seconds: int, microseconds: int)
    returns (s: Step<Selected>)
    ensures s.trace == t + [SelectCall(read, write, except, seconds, microseconds)]
    ensures env.respond(t, SelectCall(read, write, except, seconds, microseconds)).Ready? <==> s.result.Success?
    ensures s.result.Failure? ==> s.result.error == Raised(GenericError, None)
    ensures s.result.Success? ==>
              var reply := env.respond(t, SelectCall(read, write, except, seconds, microseconds));
              && s.result.value.count == reply.rc
              && (s.result.value.read.Some? <==> read.Some?)
              && (s.result.value.write.Some? <==> write.Some?)
              && (s.result.value.except.Some? <==> except.Some?)
              && (read.Some? ==> s.result.value.read.value == Processed(read.value, reply.readReady))
              && (write.Some? ==> s.result.value.write.value == Processed(write.value, reply.writeReady))
              && (except.Some? ==> s.result.value.except.value == Processed(except.value, reply.exceptReady))
    ensures s.result.Success? ==>
              var reply := env.respond(t, SelectCall(read, write, except, seconds, microseconds));
              && (read.Some? && ReportsListed(read.value, reply.readReady) ==>
                    Handles(s.result.value.read.value) == reply.readReady)
              && (write.Some? && ReportsListed(write.value, reply.writeReady) ==>
                    Handles(s.result.value.write.value) == reply.writeReady)
              && (except.Some? && ReportsListed(except.value, reply.exceptReady) ==>
                    Handles(s.result.value.except.value) == reply.exceptReady)
  {
    var rawRead := ToRaw(read);
    var rawWrite := ToRaw(write);
    var rawExcept := ToRaw(except);
    var call := SocketSelect(Some(rawRead), Some(rawWrite), Some(rawExcept), seconds, microseconds);
    var reply := env.respond(t, call);
    if !reply.Ready? {
      return Step(Failure(Raised(GenericError, None)), t + [call]);
    }
    var outRead := ProcessArray(read, reply.readReady);
    var outWrite := ProcessArray(write, reply.writeReady);
    var outExcept := ProcessArray(except, reply.exceptReady);
    if read.Some? && ReportsListed(read.value, reply.readReady) {
      ProcessedAllWatched(read.value, reply.readReady);
    }
    if write.Some? && ReportsListed(write.value, reply.writeReady) {
      ProcessedAllWatched(write.value, reply.writeReady);
    }
    if except.Some? && ReportsListed(except.value, reply.exceptReady) {
      ProcessedAllWatched(except.value, reply.exceptReady);
    }
    return Step(Success(Selected(reply.rc, outRead, outWrite, outExcept)), t + [call]);
  }

  // ---------------------------------------------------------------------
  // Properties of the rebuilt lists

  /** `FirstMatch` finds the entry at the least index that stands for `h`. */
  lemma {:induction false} FirstMatchIsFirst(input: seq<SocketRef>, h: HandleId, j: nat)
    requires j < |input| && Matches(h, input[j])
    requires forall k :: 0 <= k < j ==> !Matches(h, input[k])
    ensures FirstMatch(input, h) == Some(input[j])
  {
    if j > 0 {
      assert !Matches(h, input[0]);
      forall k | 0 <= k < j - 1 ensures !Matches(h, input[1..][k]) {
        assert input[1..][k] == input[k + 1];
      }
      FirstMatchIsFirst(input[1..], h, j - 1);
    }
  }

  /** The rebuilt list follows the order of the ready list: processing two
      ready lists one after the other is processing their concatenation. */
  lemma {:induction false} ProcessedAppend(input: seq<SocketRef>, r1: seq<HandleId>, r2: seq<HandleId>)
    ensures Processed(input, r1 + r2) == Processed(input, r1) + Processed(input, r2)
    decreases |r2|
  {
    if r2 == [] {
      assert r1 + r2 == r1;
    } else {
      var r2' := r2[..|r2| - 1];
      var last := r2[|r2| - 1];
      assert (r1 + r2)[..|r1 + r2| - 1] == r1 + r2';
      assert (r1 + r2)[|r1 + r2| - 1] == last;
      ProcessedAppend(input, r1, r2');
    }
  }

  /** A socket the caller never listed contributes nothing. */
  lemma ProcessedSkipsUnwatched(input: seq<SocketRef>, ready: seq<HandleId>, h: HandleId)
    requires h !in Handles(input)
    ensures Processed(input, ready + [h]) == Processed(input, ready)
  {
    assert (ready + [h])[..|ready|] == ready;
  }

  /** Appending a reported socket the caller listed appends exactly one entry,
      the first one standing for it. */
  lemma ProcessedStepWatched(input: seq<SocketRef>, ready: seq<HandleId>)
    requires ready != [] && ready[|ready| - 1] in Handles(input)
    ensures FirstMatch(input, ready[|ready| - 1]).Some?
    ensures Processed(input, ready)
         == Processed(input, ready[..|ready| - 1]) + [FirstMatch(input, ready[|ready| - 1]).value]
  {
    var last := ready[|ready| - 1];
    var i :| 0 <= i < |input| && Handles(input)[i] == last;
    assert Matches(last, input[i]);
  }

  /** When every reported socket is one the caller listed (as the OS wait
      guarantees), each reported socket yields exactly one entry: the rebuilt
      list has the ready list's length and its k-th entry is the first input
      entry standing for the k-th reported socket. */
  lemma {:induction false} ProcessedOnePerReady(input: seq<SocketRef>, ready: seq<HandleId>)
    requires ReportsListed(input, ready)
    ensures |Processed(input, ready)| == |ready|
    ensures forall k :: 0 <= k < |ready| ==> Some(Processed(input, ready)[k]) == FirstMatch(input, ready[k])
  {
    if ready != [] {
      var front := ready[..|ready| - 1];
      assert ReportsListed(input, front) by {
        forall k | 0 <= k < |front| ensures front[k] in Handles(input) {
          assert front[k] == ready[k];
        }
      }
      ProcessedOnePerReady(input, front);
      ProcessedStepWatched(input, ready);
      MatchesAppend(input, ready, Processed(input, front), FirstMatch(input, ready[|ready| - 1]).value);
    }
  }

  /** Entry-wise first matches of all but the last reported socket extend
      by the last one's match. */
  lemma MatchesAppend(input: seq<SocketRef>, ready: seq<HandleId>, rest: seq<SocketRef>, e: SocketRef)
    requires |ready| > 0 && |rest| == |ready| - 1
    requires forall k :: 0 <= k < |rest| ==> Some(rest[k]) == FirstMatch(input, ready[k])
    requires Some(e) == FirstMatch(input, ready[|ready| - 1])
    ensures forall k :: 0 <= k < |ready| ==> Some((rest + [e])[k]) == FirstMatch(input, ready[k])
  {
    forall k | 0 <= k < |ready| ensures Some((rest + [e])[k]) == FirstMatch(input, ready[k]) {
      if k < |rest| {
        assert (rest + [e])[k] == rest[k];
      }
    }
  }

  /** Under the same condition the raw sockets of the rebuilt list are
      exactly the reported ones, in the reported order. */
  lemma ProcessedAllWatched(input: seq<SocketRef>, ready: seq<HandleId>)
    requires ReportsListed(input, ready)
    ensures Handles(Processed(input, ready)) == ready
  {
    ProcessedOnePerReady(input, ready);
    var out := Processed(input, ready);
    forall k | 0 <= k < |ready| ensures Handles(out)[k] == ready[k] {
      assert Some(out[k]) == FirstMatch(input, ready[k]);
    }
  }

  /** The OS wait reports, for a list, only sockets taken from that list. */
  predicate ReportsListed(watched: seq<SocketRef>, reported: seq<HandleId>) {
    forall k :: 0 <= k < |reported| ==> reported[k] in Handles(watched)
  }
}
