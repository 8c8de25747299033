// The send stream as an object that gives the transport stream away and takes it back, against
// the functions of module SendStream.
module SendStreamObjects {
  import opened Base
  import S = SendStream

  /** The transport's own send stream. */
  class Transport {
    var accepted: Bytes

    constructor ()
      ensures accepted == []
    {
      accepted := [];
    }
  }

  /** The reusable write future: never used, holding the transport stream and a chunk, or done. */
  datatype WriteFuture = Placeholder | InFlight(stream: Transport, chunk: Bytes) | Spent

  class SendStream {
    var stream: Transport?
    var writing: Option<S.WriteBuf>
    var writeFut: WriteFuture
    ghost const transport: Transport

    /** The transport stream is owned by the slot or by the write future, never by both or neither. */
    ghost predicate Owned()
      reads this
    {
      if writeFut.InFlight? then stream == null && writeFut.stream == transport else stream == transport
    }

    ghost function View(): S.State
      reads this, transport
    {
      S.State(if writeFut.InFlight? then S.InFuture(writeFut.chunk) else S.InSlot, writing, transport.accepted)
    }

    constructor (transport: Transport)
      requires transport.accepted == []
      ensures this.transport == transport && Owned() && View() == S.NEW_STREAM
    {
      this.transport := transport;
      stream, writing, writeFut := transport, None, Placeholder;
    }

    /** A panic ends the model: nothing is promised after it. */
    method PollReady(polls: seq<S.WritePoll>) returns (r: S.Poll)
      requires Owned()
      modifies this, transport
      ensures r == S.PollReady(old(View()), polls).1
      ensures !r.Panic? ==> Owned() && View() == S.PollReady(old(View()), polls).0
    {
      var i := 0;
      assert polls[0..] == polls;
      while writing.Some? && writing.value.Remaining() != []
        invariant 0 <= i <= |polls| && Owned()
        invariant S.PollReady(View(), polls[i..]) == S.PollReady(old(View()), polls)
        decreases |polls| - i
      {
        if stream != null {
          writeFut := InFlight(stream, writing.value.Chunk());
          stream := null;
        }
        // the future that is polled is a write in flight, never the placeholder
        assert writeFut.InFlight? && writeFut.stream == transport;
        if i == |polls| || polls[i].WritePending? || !S.Possible(writeFut.chunk, polls[i]) {
          return S.Pending;
        }
        var poll := polls[i];
        assert polls[i..][0] == poll && polls[i..][1..] == polls[i + 1..];
        i := i + 1;
        var chunk := writeFut.chunk;
        stream, writeFut := writeFut.stream, Spent;
        if poll.WriteFailed? {
          return S.ReadyError;
        }
        stream.accepted := stream.accepted + chunk[..poll.n];
        if poll.n > |writing.value.Remaining()| {
          return S.Panic;
        }
        writing := Some(writing.value.Advance(poll.n));
      }
      writing := None;
      return S.Ready;
    }

    method SendData(data: S.WriteBuf)
      requires Owned()
      modifies this
      ensures Owned() && View() == S.SendData(old(View()), data)
    {
      writing := Some(data);
    }

    /** The caller's buffer is advanced: it is `rest` afterwards. */
    method PollSend(data: S.WriteBuf, poll: S.WritePoll) returns (rest: S.WriteBuf, r: S.Poll)
      requires Owned()
      modifies transport
      ensures Owned() && (View(), rest, r) == S.PollSend(old(View()), data, poll)
    {
      rest := data;
      if writing.Some? || stream == null {
        return rest, S.Panic;
      }
      if poll.WritePending? || !S.Possible(data.Chunk(), poll) {
        return rest, S.Pending;
      }
      if poll.WriteFailed? {
        return rest, S.ReadyError;
      }
      stream.accepted := stream.accepted + data.Chunk()[..poll.n];
      return data.Advance(poll.n), S.Written(poll.n);
    }

    /** `finished` is whether the transport could finish. */
    method PollFinish(finished: bool) returns (r: S.Poll)
      requires Owned()
      ensures (View(), r) == S.PollFinish(View(), finished)
    {
      if stream == null {
        return S.Panic;
      }
      return if finished then S.Ready else S.ReadyError;
    }
  }
}
