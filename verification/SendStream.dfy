// The send stream of the HTTP/3 adapter (h3-iroh/src/lib.rs): it is polled, and hands the
// transport stream to a write future and takes it back.
module SendStream {
  import opened Base

  /** A buffer to be sent: a frame header, and the payload behind it. */
  datatype WriteBuf = WriteBuf(header: Bytes, payload: Bytes) {
    function Remaining(): Bytes {
      header + payload
    }

    /** The next contiguous bytes: not empty unless nothing remains. */
    function Chunk(): Bytes {
      if header != [] then header else payload
    }

    function Advance(n: nat): WriteBuf
      requires n <= |Remaining()|
    {
      if n <= |header| then WriteBuf(header[n..], payload) else WriteBuf([], payload[n - |header|..])
    }
  }

  lemma AdvanceDrops(b: WriteBuf, n: nat)
    requires n <= |b.Chunk()|
    ensures b.Chunk()[..n] + b.Advance(n).Remaining() == b.Remaining()
    ensures b.Remaining() != [] ==> b.Chunk() != []
  {
  }

  /** What one poll of a write future gives: the write goes on, it accepted some bytes, or it failed. */
  datatype WritePoll = WritePending | Wrote(n: nat) | WriteFailed

  /** What a poll of the stream gives. `Written` is the ready result of a direct write. */
  datatype Poll = Pending | Ready | Written(n: nat) | ReadyError | Panic

  /** Where the transport stream is: in its slot, or in the write future with the chunk to write. */
  datatype Owner = InSlot | InFuture(chunk: Bytes)

  /**
   * The send stream with the transport behind it. `accepted` is what the transport took.
   * Before its first use the write future is a placeholder that must not be polled.
   */
  datatype State = State(owner: Owner, writing: Option<WriteBuf>, accepted: Bytes)

  const NEW_STREAM := State(InSlot, None, [])

  /** A write accepts some of the chunk it was given, and something of a chunk that is not empty. */
  predicate Possible(chunk: Bytes, p: WritePoll) {
    p.Wrote? ==> p.n <= |chunk| && (chunk != [] ==> p.n > 0)
  }

  /** `poll_ready` starts a write when the stream is in its slot and something remains. */
  function StartWrite(s: State): State {
    if s.writing.Some? && s.writing.value.Remaining() != [] && s.owner.InSlot?
    then s.(owner := InFuture(s.writing.value.Chunk()))
    else s
  }

  /**
   * `poll_ready` over the polls of the write futures that it meets. When they run out the write
   * in flight is pending; so it is at a poll that no transport gives. A count beyond the bytes
   * that remain is a panic.
   */
  function PollReady(s: State, polls: seq<WritePoll>): (State, Poll)
    decreases |polls|
  {
    if s.writing.None? || s.writing.value.Remaining() == [] then (s.(writing := None), Ready)
    else
      var t := StartWrite(s);
      if polls == [] || polls[0].WritePending? || !Possible(t.owner.chunk, polls[0]) then (t, Pending)
      else if polls[0].WriteFailed? then (t.(owner := InSlot), ReadyError)
      else
        var n := polls[0].n;
        var accepted := t.accepted + t.owner.chunk[..n];
        if n > |t.writing.value.Remaining()| then (State(InSlot, t.writing, accepted), Panic)
        else PollReady(State(InSlot, Some(t.writing.value.Advance(n)), accepted), polls[1..])
  }

  /** `send_data` replaces whatever is being written. */
  function SendData(s: State, data: WriteBuf): State {
    s.(writing := Some(data))
  }

  /**
   * `poll_send` writes the next chunk of the caller's buffer directly, and advances that buffer by
   * what was written. It must not be called while a buffer is being written.
   */
  function PollSend(s: State, data: WriteBuf, poll: WritePoll): (State, WriteBuf, Poll) {
    if s.writing.Some? || !s.owner.InSlot? then (s, data, Panic)
    else if poll.WritePending? || !Possible(data.Chunk(), poll) then (s, data, Pending)
    else if poll.WriteFailed? then (s, data, ReadyError)
    else (s.(accepted := s.accepted + data.Chunk()[..poll.n]), data.Advance(poll.n), Written(poll.n))
  }

  /** `poll_finish` needs the stream in its slot, and passes on whether the transport could finish. */
  function PollFinish(s: State, finished: bool): (State, Poll) {
    (s, if !s.owner.InSlot? then Panic else if finished then Ready else ReadyError)
  }

  // ----- runs

  datatype Op =
    | DoPollReady(polls: seq<WritePoll>)
    | DoSendData(buf: WriteBuf)
    | DoPollSend(data: WriteBuf, poll: WritePoll)
    | DoPollFinish(finished: bool)

  function Step(s: State, op: Op): (State, Poll) {
    match op
    case DoPollReady(polls) => PollReady(s, polls)
    case DoSendData(buf) => (SendData(s, buf), Ready)
    case DoPollSend(data, poll) => var (t, _, r) := PollSend(s, data, poll); (t, r)
    case DoPollFinish(finished) => PollFinish(s, finished)
  }

  /** What an operation takes over for sending: a whole buffer, or what leaves the caller's buffer. */
  function Given(s: State, op: Op): Bytes {
    match op
    case DoSendData(buf) => buf.Remaining()
    case DoPollSend(data, poll) =>
      data.Remaining()[..|data.Remaining()| - |PollSend(s, data, poll).1.Remaining()|]
    case _ => []
  }

  function Buffered(s: State): Bytes {
    if s.writing.Some? then s.writing.value.Remaining() else []
  }

  /** The bytes on their way to the peer: what the transport took, and what is still buffered. */
  function Outgoing(s: State): Bytes {
    s.accepted + Buffered(s)
  }

  /** A write in flight is a write of the next bytes of the buffer, and there are some. */
  ghost predicate Valid(s: State) {
    s.owner.InFuture? ==>
      s.writing.Some? && s.writing.value.Remaining() != [] && s.owner.chunk == s.writing.value.Chunk()
  }

  /** `poll_ready` loses no byte and invents none, over any polls. */
  lemma {:induction false} PollReadyConserves(s: State, polls: seq<WritePoll>)
    requires Valid(s)
    ensures var (t, r) := PollReady(s, polls);
            && Valid(t) && Outgoing(t) == Outgoing(s) && !r.Panic?
            && (r.Ready? ==> t.writing == None && t.owner == InSlot)
            && (r.ReadyError? ==> t.owner == InSlot)
            && (r.Pending? ==> t.owner.InFuture?)
    decreases |polls|
  {
    if s.writing.Some? && s.writing.value.Remaining() != [] {
      var t := StartWrite(s);
      if polls != [] && polls[0].Wrote? && Possible(t.owner.chunk, polls[0]) {
        var b, n := t.writing.value, polls[0].n;
        AdvanceDrops(b, n);
        ConcatAssociative(t.accepted, b.Chunk()[..n], b.Advance(n).Remaining());
        PollReadyConserves(State(InSlot, Some(b.Advance(n)), t.accepted + b.Chunk()[..n]), polls[1..]);
      }
    }
  }

  /** The bytes that the first writes of `polls` report. */
  function Reported(polls: seq<WritePoll>): nat {
    if polls == [] || !polls[0].Wrote? then 0 else polls[0].n + Reported(polls[1..])
  }

  /**
   * `poll_ready` went through the first `k` polls, all of them writes, to the state `t`, and ended there with `r`:
   * ready when nothing was left, with an error at a failed write, and pending at a poll that is
   * pending, that is none, or that no transport gives.
   */
  ghost predicate WentThrough(s: State, polls: seq<WritePoll>, k: nat, t: State, r: Poll) {
    && k <= |polls| && (forall i :: 0 <= i < k ==> polls[i].Wrote?)
    && var m := Reported(polls[..k]);
    && m <= |Buffered(s)|
    && t.accepted == s.accepted + Buffered(s)[..m] && Buffered(t) == Buffered(s)[m..]
    && (if m == |Buffered(s)| then r == Ready
        else if k == |polls| || polls[k].WritePending? then r == Pending
        else if polls[k].WriteFailed? then r == ReadyError
        else r == Pending && t.owner.InFuture? && !Possible(t.owner.chunk, polls[k]))
  }

  /** What `poll_ready` returns over any polls: the first failed write that it meets is reported. */
  lemma {:induction false} PollReadyResult(s: State, polls: seq<WritePoll>) returns (k: nat)
    requires Valid(s)
    ensures WentThrough(s, polls, k, PollReady(s, polls).0, PollReady(s, polls).1)
    decreases |polls|
  {
    k := 0;
    assert polls[..0] == [];
    if s.writing.Some? && s.writing.value.Remaining() != [] {
      var t := StartWrite(s);
      if polls != [] && polls[0].Wrote? && Possible(t.owner.chunk, polls[0]) {
        var b, n := t.writing.value, polls[0].n;
        AdvanceDrops(b, n);
        var next := State(InSlot, Some(b.Advance(n)), t.accepted + b.Chunk()[..n]);
        k := PollReadyResult(next, polls[1..]);
        AfterFirstWrite(s, next, polls, k, PollReady(s, polls).0, PollReady(s, polls).1);
        k := k + 1;
      }
    }
  }

  lemma AfterFirstWrite(s: State, next: State, polls: seq<WritePoll>, k: nat, t: State, r: Poll)
    requires polls != [] && polls[0].Wrote? && polls[0].n <= |Buffered(s)|
    requires next.accepted == s.accepted + Buffered(s)[..polls[0].n] && Buffered(next) == Buffered(s)[polls[0].n..]
    requires WentThrough(next, polls[1..], k, t, r)
    ensures WentThrough(s, polls, k + 1, t, r)
  {
    hide Buffered, Possible;
    var n, m := polls[0].n, Reported(polls[1..][..k]);
    assert polls[..k + 1][1..] == polls[1..][..k];
    assert Buffered(s)[n..][..m] == Buffered(s)[n..n + m] && Buffered(s)[n..][m..] == Buffered(s)[n + m..];
    assert Buffered(s)[..n] + Buffered(s)[n..n + m] == Buffered(s)[..n + m];
    ConcatAssociative(s.accepted, Buffered(s)[..n], Buffered(s)[n..n + m]);
  }

  /** What the other polls return. */
  lemma PollResults(s: State, data: WriteBuf, poll: WritePoll, finished: bool)
    ensures var r := PollSend(s, data, poll).2;
            && (r.Panic? <==> s.writing != None || s.owner != InSlot)
            && (r.ReadyError? <==> !r.Panic? && poll.WriteFailed?)
            && (r.Written? <==> !r.Panic? && poll.Wrote? && Possible(data.Chunk(), poll))
    ensures PollFinish(s, finished) ==
            (s, if s.owner != InSlot then Panic else if finished then Ready else ReadyError)
  {
  }

  /** One operation keeps the outgoing bytes, but for what it takes over, if it does not replace a buffer. */
  lemma StepConserves(s: State, op: Op)
    requires Valid(s) && (op.DoSendData? ==> Buffered(s) == [])
    ensures var t := Step(s, op).0; Valid(t) && Outgoing(t) == Outgoing(s) + Given(s, op)
  {
    if op.DoPollReady? {
      PollReadyConserves(s, op.polls);
    } else if op.DoPollSend? {
      PollSendMoves(s, op.data, op.poll);
    }
  }

  /** A direct write moves bytes from the front of the caller's buffer to the transport, and reports their number. */
  lemma PollSendMoves(s: State, data: WriteBuf, poll: WritePoll)
    ensures var (t, rest, r) := PollSend(s, data, poll);
            var moved := Given(s, DoPollSend(data, poll));
            && moved + rest.Remaining() == data.Remaining() && t == s.(accepted := s.accepted + moved)
            && (if r.Written? then |moved| == r.n else moved == [])
            && (moved == [] || s.writing == None)
  {
    if PollSend(s, data, poll).2.Written? {
      AdvanceDrops(data, poll.n);
      var chunk, rest := data.Chunk()[..poll.n], data.Advance(poll.n).Remaining();
      assert (chunk + rest)[..|chunk + rest| - |rest|] == chunk;
    }
  }

  function Run(s: State, ops: seq<Op>): State
    decreases |ops|
  {
    if ops == [] then s else Run(Step(s, ops[0]).0, ops[1..])
  }

  function AllGiven(s: State, ops: seq<Op>): Bytes
    decreases |ops|
  {
    if ops == [] then [] else Given(s, ops[0]) + AllGiven(Step(s, ops[0]).0, ops[1..])
  }

  predicate NoPanic(s: State, ops: seq<Op>)
    decreases |ops|
  {
    ops == [] || (!Step(s, ops[0]).1.Panic? && NoPanic(Step(s, ops[0]).0, ops[1..]))
  }

  /** The caller sends a new buffer only when nothing is buffered, as it is after `poll_ready` was ready. */
  predicate Disciplined(s: State, ops: seq<Op>)
    decreases |ops|
  {
    ops == [] ||
    ((ops[0].DoSendData? ==> Buffered(s) == []) && Disciplined(Step(s, ops[0]).0, ops[1..]))
  }

  /**
   * Conservation: over any sequence of calls by a caller that sends only when nothing is buffered,
   * with any pending, partial or failed writes in between, what the transport accepted followed
   * by what is buffered is the concatenation of all that was sent.
   */
  lemma {:induction false} RunConserves(s: State, ops: seq<Op>)
    requires Valid(s) && Disciplined(s, ops)
    ensures Valid(Run(s, ops)) && Outgoing(Run(s, ops)) == Outgoing(s) + AllGiven(s, ops)
    decreases |ops|
  {
    if ops != [] {
      StepConserves(s, ops[0]);
      RunConserves(Step(s, ops[0]).0, ops[1..]);
      ConcatAssociative(Outgoing(s), Given(s, ops[0]), AllGiven(Step(s, ops[0]).0, ops[1..]));
    }
  }

  /** Of a new stream, all that ever reaches the transport is a prefix of what was sent. */
  lemma SentInOrder(ops: seq<Op>)
    requires Disciplined(NEW_STREAM, ops)
    ensures Outgoing(Run(NEW_STREAM, ops)) == AllGiven(NEW_STREAM, ops)
    ensures Run(NEW_STREAM, ops).accepted <= AllGiven(NEW_STREAM, ops)
  {
    RunConserves(NEW_STREAM, ops);
  }

  // ----- without the discipline

  /** How many bytes are still buffered when a new buffer takes their place, summed over a run. */
  function Replaced(s: State, ops: seq<Op>): nat
    decreases |ops|
  {
    if ops == [] then 0
    else (if ops[0].DoSendData? then |Buffered(s)| else 0) + Replaced(Step(s, ops[0]).0, ops[1..])
  }

  /** From any state, with any chunk in flight: `poll_ready` keeps the number of outgoing bytes or panics. */
  lemma {:induction false} PollReadyCounts(s: State, polls: seq<WritePoll>)
    ensures var (t, r) := PollReady(s, polls); r.Panic? || |Outgoing(t)| == |Outgoing(s)|
    decreases |polls|
  {
    if s.writing.Some? && s.writing.value.Remaining() != [] {
      var t := StartWrite(s);
      if polls != [] && polls[0].Wrote? && Possible(t.owner.chunk, polls[0]) {
        var b, n := t.writing.value, polls[0].n;
        if n <= |b.Remaining()| {
          PollReadyCounts(State(InSlot, Some(b.Advance(n)), t.accepted + t.owner.chunk[..n]), polls[1..]);
        }
      }
    }
  }

  /** Exact loss: a run that does not panic loses as many bytes as were replaced, no more and no less. */
  lemma {:induction false} RunLoses(s: State, ops: seq<Op>)
    requires NoPanic(s, ops)
    ensures |Outgoing(Run(s, ops))| + Replaced(s, ops) == |Outgoing(s)| + |AllGiven(s, ops)|
    decreases |ops|
  {
    if ops != [] {
      if ops[0].DoPollReady? {
        PollReadyCounts(s, ops[0].polls);
      } else if ops[0].DoPollSend? {
        PollSendMoves(s, ops[0].data, ops[0].poll);
      }
      RunLoses(Step(s, ops[0]).0, ops[1..]);
    }
  }

  lemma {:induction false} DisciplinedIff(s: State, ops: seq<Op>)
    ensures Disciplined(s, ops) <==> Replaced(s, ops) == 0
    decreases |ops|
  {
    if ops != [] {
      DisciplinedIff(Step(s, ops[0]).0, ops[1..]);
    }
  }

  /**
   * The discipline is exact, since `send_data` never refuses: a run that does not panic keeps
   * all bytes if and only if every `send_data` finds nothing buffered.
   */
  lemma RunConservesIff(s: State, ops: seq<Op>)
    requires Valid(s) && NoPanic(s, ops)
    ensures Outgoing(Run(s, ops)) == Outgoing(s) + AllGiven(s, ops) <==> Disciplined(s, ops)
  {
    if Disciplined(s, ops) {
      RunConserves(s, ops);
    } else {
      RunLoses(s, ops);
      DisciplinedIff(s, ops);
    }
  }

  /**
   * Which bytes are lost depends on the write in flight: here the new buffer is lost, since the
   * count that the write reports is taken off it, though the transport took the old one.
   */
  lemma SendDataDuringWrite()
    ensures var s := Run(NEW_STREAM, [DoSendData(WriteBuf([], [1, 2])), DoPollReady([]),
                                      DoSendData(WriteBuf([], [3, 4])), DoPollReady([Wrote(2)])]);
            s.accepted == [1, 2] && s.writing == None
  {
    var a, b := WriteBuf([], [1, 2]), WriteBuf([], [3, 4]);
    var s1 := State(InFuture([1, 2]), Some(a), []);
    assert PollReady(SendData(NEW_STREAM, a), []) == (s1, Pending);
    var s2 := SendData(s1, b);
    assert a.payload[..2] == [1, 2];
    assert b.Advance(2) == WriteBuf([], []);
    var polls := [Wrote(2)];
    assert polls[1..] == [];
    assert PollReady(s2, polls).0 == State(InSlot, None, [1, 2]);
    var ops := [DoSendData(a), DoPollReady([]), DoSendData(b), DoPollReady(polls)];
    assert ops[1..] == [DoPollReady([]), DoSendData(b), DoPollReady(polls)];
    assert ops[1..][1..] == [DoSendData(b), DoPollReady(polls)];
    assert ops[1..][1..][1..] == [DoPollReady(polls)];
    assert ops[1..][1..][1..][1..] == [];
  }
}
