// What a receiver makes of any bytes, frame by frame and over a whole run, whoever sends them.
module ReceiverRuns {
  import opened Base
  import opened Ipld
  import opened Tables
  import opened Traversal
  import opened Sync

  /**
   * Only the end of a finished stream, within a header, is no frame. So whatever else goes wrong
   * with a frame is an error.
   */
  lemma NoFrameIff(libs: Libs, t: Rows, c: Cid, stream: Bytes, lost: bool)
    ensures ReceiveFrame(libs, t, c, stream, lost).NoFrame? <==> !lost && |stream| < 33
    ensures lost && |stream| < 33 ==> ReceiveFrame(libs, t, c, stream, lost) == BadFrame(ConnectionLost, None)
  {
  }

  /** A header starts with 0, for a hash alone, or 1, for a hash with data, and is malformed otherwise. */
  lemma HeaderVerdict(libs: Libs, t: Rows, c: Cid, stream: Bytes, lost: bool)
    requires |stream| >= 33
    ensures stream[0] == 0 ==> ReceiveFrame(libs, t, c, stream, lost) == GotFrame(t, None, stream[33..])
    ensures stream[0] > 1 ==> ReceiveFrame(libs, t, c, stream, lost) == BadFrame(MalformedHeader, None)
  {
  }

  /** A frame with data that ends too early, or that does not verify, is an error, and nothing is stored. */
  lemma TransferVerdict(libs: Libs, t: Rows, c: Cid, h: Hash, body: Bytes, lost: bool)
    ensures var got := ReceiveFrame(libs, t, c, [1] + h + body, lost);
            var early := BadFrame(if lost then ConnectionLost else TruncatedData, None);
            if |body| < 8 then got == early
            else
              var size := FromLittleEndian(body[..8]);
              size < 0x1_0000_0000_0000_0000 &&
              var read := libs.baoDecode(h, size, body[8..]);
              && (read.BaoTruncated? ==> got == early)
              && (read.BaoInvalid? ==> got == BadFrame(InvalidData, None))
              && (read.BaoData? && read.size > |body| - 8 ==> got == early)
  {
    HeaderOfData(h, body);
    if |body| >= 8 {
      SizeFitsU64(body[..8]);
    }
  }

  lemma HeaderOfData(h: Hash, body: Bytes)
    ensures ReadHeader([1] + h + body) == GotHeader(DataOf(h), body)
  {
    HeaderRoundTrip(DataOf(h), body);
  }

  /**
   * The checks of verified data in their order, and the error for each. Data with the wrong multihash is not
   * stored; data that fails a later check is. What passes is stored, with its rows.
   */
  lemma DataVerdict(libs: Libs, t: Rows, c: Cid, h: Hash, body: Bytes, d: Data, n: nat, lost: bool)
    requires |body| >= 8 && n <= |body| - 8 && FromLittleEndian(body[..8]) < 0x1_0000_0000_0000_0000
    requires libs.baoDecode(h, FromLittleEndian(body[..8]), body[8..]) == BaoData(d, n)
    ensures var got, digest := ReceiveFrame(libs, t, c, [1] + h + body, lost), libs.digest(c.hash.code, d);
            && (digest == None ==> got == BadFrame(UnknownHashCode, None))
            && (digest.Some? && digest != Some(c.hash.digest) ==> got == BadFrame(UserHashMismatch, None))
            && (digest == Some(c.hash.digest) && libs.blake3(d) != h ==> got == BadFrame(Blake3Mismatch, Some(d)))
            && (digest == Some(c.hash.digest) && libs.blake3(d) == h && libs.links(d) == None ==>
                  got == BadFrame(LinkExtraction, Some(d)))
            && (digest == Some(c.hash.digest) && libs.blake3(d) == h && libs.links(d).Some? ==>
                  var ls := libs.links(d).value;
                  var rows := if ls == [] then t.dataToLinks else t.dataToLinks[(c.codec, h) := libs.encodeLinks(ls)];
                  got == GotFrame(Rows(t.hashToBlake3[c.hash := h], rows), Some(d), body[8 + n..]))
  {
    HeaderOfData(h, body);
  }

  // ----- whole runs

  /** A receiver between two frames. */
  datatype Progress = Progress(replica: Replica, walker: Walker, rest: Bytes)

  function Stored(libs: Libs, r: Replica, stored: Option<Data>): map<Hash, Data> {
    if stored.None? then r.blobs else r.blobs[libs.blake3(stored.value) := stored.value]
  }

  /** A receiver after `k` frames that it took, if there are as many. */
  function TakeFrames(libs: Libs, r: Replica, w: Walker, stream: Bytes, lost: bool, k: nat): Option<Progress> {
    if k == 0 then Some(Progress(r, w, stream))
    else
      var before := TakeFrames(libs, r, w, stream, lost, k - 1);
      if before.None? then None
      else
        var p := before.value;
        var step := WalkerNext(libs, p.replica.tables, p.walker);
        if !step.Item? then None
        else
          var got := ReceiveFrame(libs, p.replica.tables, step.cid, p.rest, lost);
          if !got.GotFrame? then None
          else Some(Progress(Replica(got.tables, Stored(libs, p.replica, got.stored)), step.next, got.rest))
  }

  lemma {:induction false} TakeFramesFirst(libs: Libs, r: Replica, w: Walker, stream: Bytes, lost: bool, k: nat)
    requires WalkerNext(libs, r.tables, w).Item?
    requires ReceiveFrame(libs, r.tables, WalkerNext(libs, r.tables, w).cid, stream, lost).GotFrame?
    ensures var step := WalkerNext(libs, r.tables, w);
            var got := ReceiveFrame(libs, r.tables, step.cid, stream, lost);
            TakeFrames(libs, r, w, stream, lost, k + 1) ==
              TakeFrames(libs, Replica(got.tables, Stored(libs, r, got.stored)), step.next, got.rest, lost, k)
  {
    hide WalkerNext, ReceiveFrame;
    assert TakeFrames(libs, r, w, stream, lost, 0) == Some(Progress(r, w, stream));
    if k > 0 {
      TakeFramesFirst(libs, r, w, stream, lost, k - 1);
    }
  }

  /** How a receiver ends that is at `p`: with the traversal, with the stream, or with an error. */
  ghost predicate EndsAt(libs: Libs, p: Progress, lost: bool, end: Replica, error: Option<Error>) {
    var step := WalkerNext(libs, p.replica.tables, p.walker);
    && (step.End? ==> error == None)
    && (step.Failed? ==> error == Some(step.error))
    && (step.Item? && |p.rest| < 33 ==> error == if lost then Some(ConnectionLost) else None)
    && (step.Item? && |p.rest| >= 33 ==>
          var got := ReceiveFrame(libs, p.replica.tables, step.cid, p.rest, lost);
          && got.BadFrame? && error == Some(got.error)
          && end == p.replica.(blobs := Stored(libs, p.replica, got.stored)))
    && (step.Item? ==> |p.rest| < 33 ==> end == p.replica)
    && (!step.Item? ==> end == p.replica)
  }

  /**
   * Any receiver, any bytes. It takes frame after frame, each for the next cid of its traversal, as long as
   * there is a frame that it can take. It ends without error if and only if then its traversal
   * has ended, or the stream is finished with less than a header left.
   */
  lemma {:induction false} ReceiverEnds(libs: Libs, r: Replica, w: Walker, stream: Bytes, lost: bool)
    ensures var end := Receive(libs, r, w, stream, lost);
            var taken := TakeFrames(libs, r, w, stream, lost, |end.cids|);
            && taken.Some?
            && EndsAt(libs, taken.value, lost, end.replica, end.error)
            && var step := WalkerNext(libs, taken.value.replica.tables, taken.value.walker);
            && (end.error.None? <==> step.End? || (step.Item? && !lost && |taken.value.rest| < 33))
    decreases |stream|
  {
    hide WalkerNext, ReceiveFrame, Receive, TakeFrames;
    ReceiveStep(libs, r, w, stream, lost);
    assert TakeFrames(libs, r, w, stream, lost, 0) == Some(Progress(r, w, stream)) by {
      NoFramesYet(libs, r, w, stream, lost);
    }
    var step := WalkerNext(libs, r.tables, w);
    if step.Item? {
      var got := ReceiveFrame(libs, r.tables, step.cid, stream, lost);
      NoFrameIff(libs, r.tables, step.cid, stream, lost);
      if got.GotFrame? {
        var next := Replica(got.tables, Stored(libs, r, got.stored));
        ReceiverEnds(libs, next, step.next, got.rest, lost);
        TakeFramesFirst(libs, r, w, stream, lost, |Receive(libs, next, step.next, got.rest, lost).cids|);
      }
    }
  }

  lemma NoFramesYet(libs: Libs, r: Replica, w: Walker, stream: Bytes, lost: bool)
    ensures TakeFrames(libs, r, w, stream, lost, 0) == Some(Progress(r, w, stream))
  {
  }

  /** The cids of a run are those that the traversal yields before each frame. */
  lemma {:induction false} ReceiverCids(libs: Libs, r: Replica, w: Walker, stream: Bytes, lost: bool, i: nat)
    requires i < |Receive(libs, r, w, stream, lost).cids|
    ensures var taken := TakeFrames(libs, r, w, stream, lost, i);
            && taken.Some?
            && var step := WalkerNext(libs, taken.value.replica.tables, taken.value.walker);
            && step.Item? && step.cid == Receive(libs, r, w, stream, lost).cids[i]
    decreases i
  {
    hide WalkerNext, ReceiveFrame, Receive, TakeFrames;
    ReceiveStep(libs, r, w, stream, lost);
    NoFramesYet(libs, r, w, stream, lost);
    var step := WalkerNext(libs, r.tables, w);
    var got := ReceiveFrame(libs, r.tables, step.cid, stream, lost);
    if i > 0 {
      ReceiverCids(libs, Replica(got.tables, Stored(libs, r, got.stored)), step.next, got.rest, lost, i - 1);
      TakeFramesFirst(libs, r, w, stream, lost, i - 1);
    }
  }

  /** The sync command commits if and only if the run ends so; then the tables are those after its last frame. */
  lemma CommitsIff(libs: Libs, r: Replica, opts: TraversalOpts, stream: Bytes, lost: bool)
    ensures var w := GetTraversal(opts);
            var taken := TakeFrames(libs, r, w, stream, lost, |Receive(libs, r, w, stream, lost).cids|);
            && taken.Some?
            && var p := taken.value;
            && var step := WalkerNext(libs, p.replica.tables, p.walker);
            SyncCommand(libs, r, opts, stream, lost).tables ==
              if step.End? || (step.Item? && !lost && |p.rest| < 33) then p.replica.tables else r.tables
  {
    hide WalkerNext, ReceiveFrame, Receive, TakeFrames, GetTraversal;
    ReceiverEnds(libs, r, GetTraversal(opts), stream, lost);
  }
}
