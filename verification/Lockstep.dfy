// Sender and receiver run the same traversal over different databases, with frames that
// carry no cids. This module proves that they stay in lockstep, wherever the stream is cut.
module Lockstep {
  import opened Base
  import opened Ipld
  import opened Tables
  import opened Traversal
  import opened Replication
  import opened Sync

  /** The library properties that a run with an honest sender relies on. */
  ghost predicate LibsWork(libs: Libs) {
    libs.BaoInverts() && libs.BaoDetectsTruncation()
  }

  // ----- the two traversals take the same steps

  ghost predicate FollowsLinks(w: Walker, c: Cid) {
    w.FullWalker? && c.codec != RAW
  }

  /** The frame for `c` is to be sent, with its data. */
  predicate Delivered(w: Walker, inline: InlineOpts, c: Cid) {
    Keeps(FilterOf(w), c) && Inlines(inline, c)
  }

  /** The sender has the data that it is to deliver for `c`. */
  ghost predicate Delivers(source: Replica, w: Walker, inline: InlineOpts, c: Cid) {
    Delivered(w, inline, c) && HasBlob(source, c)
  }

  /** Where the sender has what it is to deliver, this is right. It need not have all, nor what it does not deliver. */
  ghost predicate Honest(libs: Libs, source: Replica, w: Walker, inline: InlineOpts) {
    forall c :: c in Inner(libs, source.tables, w) && Delivers(source, w, inline, c) ==> Faithful(libs, source, c)
  }

  /**
   * The tables `t` of a receiver suffice to follow a sender with tables `u`: for every cid
   * whose links the sender can follow, either the data will be delivered, or the two agree already.
   */
  ghost predicate CanFollow(libs: Libs, t: Rows, u: Rows, w: Walker, inline: InlineOpts) {
    forall c :: c in Inner(libs, u, w) && FollowsLinks(w, c) && Children(libs, u, c).Ok? ==>
      Delivered(w, inline, c) || Agree(t, u, c)
  }

  ghost predicate NoStaleRows(libs: Libs, t: Rows, source: Replica, w: Walker, inline: InlineOpts) {
    forall c :: c in Inner(libs, source.tables, w) && Delivers(source, w, inline, c) ==>
      NoStaleRow(t, source.tables, c)
  }

  /** The links deferred by a full traversal, if the sender can read them, are the same to both sides. */
  ghost predicate AgreeOnDeferred(libs: Libs, t: Rows, u: Rows, w: Walker) {
    w.FullWalker? && Deferred(libs, u, w.state).Ok? ==> Deferred(libs, t, w.state) == Deferred(libs, u, w.state)
  }

  /** A node with tables `t` can follow `source` through a traversal, as far as `source` itself gets. */
  ghost predicate InStep(libs: Libs, t: Rows, source: Replica, w: Walker, inline: InlineOpts) {
    && Honest(libs, source, w, inline)
    && AgreeOnDeferred(libs, t, source.tables, w)
    && CanFollow(libs, t, source.tables, w, inline)
    && NoStaleRows(libs, t, source, w, inline)
  }

  /** `next` is what is left of `w` after it yielded `c`. */
  ghost predicate Continues(libs: Libs, t: Rows, w: Walker, c: Cid, next: Walker) {
    && c in Inner(libs, t, w) && Keeps(FilterOf(w), c)
    && (forall x :: x in Inner(libs, t, next) ==> x in Inner(libs, t, w))
    && FilterOf(next) == FilterOf(w)
    && next.FullWalker? == w.FullWalker?
    && (w.FullWalker? ==> next.state.prev == Some(c))
  }

  /** What a traversal yields, and what it goes through later, it goes through. */
  lemma {:induction false} ItemIsInner(libs: Libs, t: Rows, w: Walker)
    requires WalkerNext(libs, t, w).Item?
    ensures Continues(libs, t, w, WalkerNext(libs, t, w).cid, WalkerNext(libs, t, w).next)
    decreases Budget(libs, t, w)
  {
    if w.FullWalker? {
      var step := Next(libs, t, w.state);
      InnerSteps(libs, t, w);
      if !Keeps(w.filter, step.cid) {
        PendingDecreases(libs, t, w.state);
        ItemIsInner(libs, t, FullWalker(step.next, w.filter));
      }
    }
  }

  /** Unless the sender fails, one `next` on both sides gives the same cid and the same state. */
  lemma {:induction false} SameNext(libs: Libs, t: Rows, source: Replica, w: Walker, inline: InlineOpts)
    requires InStep(libs, t, source, w, inline)
    ensures !WalkerNext(libs, source.tables, w).Failed? ==> WalkerNext(libs, t, w) == WalkerNext(libs, source.tables, w)
    decreases Budget(libs, source.tables, w)
  {
    if w.FullWalker? {
      var step := Next(libs, source.tables, w.state);
      if step.Yield? && !Keeps(w.filter, step.cid) {
        PendingDecreases(libs, source.tables, w.state);
        RejectedKeepsInStep(libs, t, source, w, inline);
        SameNext(libs, t, source, FullWalker(step.next, w.filter), inline);
      }
    }
  }

  /** A rejected cid is followed only if its links are known to both. */
  lemma RejectedKeepsInStep(libs: Libs, t: Rows, source: Replica, w: Walker, inline: InlineOpts)
    requires InStep(libs, t, source, w, inline) && w.FullWalker?
    requires Next(libs, source.tables, w.state).Yield?
    requires !Keeps(w.filter, Next(libs, source.tables, w.state).cid)
    ensures InStep(libs, t, source, FullWalker(Next(libs, source.tables, w.state).next, w.filter), inline)
  {
    InnerSteps(libs, source.tables, w);
    var c := Next(libs, source.tables, w.state).cid;
    if c.codec != RAW && Children(libs, source.tables, c).Ok? {
      AgreeSameChildren(libs, t, source.tables, c);
    }
  }

  lemma InnerSteps(libs: Libs, t: Rows, w: Walker)
    requires w.FullWalker? && Next(libs, t, w.state).Yield?
    ensures var step := Next(libs, t, w.state);
            Inner(libs, t, w) == [step.cid] + Inner(libs, t, FullWalker(step.next, w.filter))
  {
  }

  // ----- frames

  /** The frame for one cid. */
  function Frame(libs: Libs, source: Replica, inline: InlineOpts, c: Cid): Bytes {
    SendItem(libs, source, inline, c).bytes
  }

  /** The sender has the mapping for a frame, and rightly the data if it goes into the frame. */
  ghost predicate CanFrame(libs: Libs, source: Replica, inline: InlineOpts, c: Cid) {
    c.hash in source.tables.hashToBlake3 && (Inlines(inline, c) ==> Faithful(libs, source, c))
  }

  lemma DataFrameRead(libs: Libs, h: Hash, d: Data, rest: Bytes)
    ensures ReadHeader(DataFrame(libs, h, d) + rest) ==
            GotHeader(DataOf(h), LittleEndian(|d|, 8) + (libs.baoEncode(d) + rest))
  {
    var header, size, bao := HeaderBytes(DataOf(h)), LittleEndian(|d|, 8), libs.baoEncode(d);
    Regroup(header, size, bao, rest);
    HeaderRoundTrip(DataOf(h), size + (bao + rest));
  }

  lemma Regroup(a: Bytes, b: Bytes, c: Bytes, d: Bytes)
    ensures a + b + c + d == a + (b + (c + d))
    ensures a + b + c == a + (b + c)
  {
  }

  lemma SizeRead(d: Data, rest: Bytes)
    ensures var stream := LittleEndian(|d|, 8) + rest;
            stream[8..] == rest && FromLittleEndian(stream[..8]) == |d|
  {
    var size := LittleEndian(|d|, 8);
    SizeFitsU64(size);
    LittleEndianRoundTrip(|d|, 8);
    assert (size + rest)[..8] == size;
  }

  lemma DropBoth(a: Bytes, b: Bytes, c: Bytes)
    ensures (a + (b + c))[|a| + |b|..] == c
  {
  }

  lemma DataRead(libs: Libs, d: Data, rest: Bytes)
    requires libs.BaoInverts()
    ensures ReadData(libs, libs.blake3(d), LittleEndian(|d|, 8) + (libs.baoEncode(d) + rest)) == GotData(d, rest)
  {
    var bao := libs.baoEncode(d);
    var stream := LittleEndian(|d|, 8) + (bao + rest);
    SizeRead(d, bao + rest);
    DropBoth(LittleEndian(|d|, 8), bao, rest);
  }

  /** A whole honest frame, whatever follows it, is taken, and its data stored if it has any. */
  lemma FrameTaken(libs: Libs, r: Replica, source: Replica, inline: InlineOpts, c: Cid, rest: Bytes, lost: bool)
    requires libs.BaoInverts() && CanFrame(libs, source, inline, c)
    ensures var got := ReceiveFrame(libs, r.tables, c, Frame(libs, source, inline, c) + rest, lost);
            && got.GotFrame? && got.rest == rest
            && Replica(got.tables, AddBlob(libs, r.blobs, got.stored)) == Merge(r, source, InlinedOf(inline, [c]))
  {
    var h := source.tables.hashToBlake3[c.hash];
    if Inlines(inline, c) {
      DataFrameRead(libs, h, source.blobs[h], rest);
      DataRead(libs, source.blobs[h], rest);
      InsertIsMerge(libs, r, source, c);
      assert InlinedOf(inline, [c]) == {c};
    } else {
      HeaderRoundTrip(HashOf(h), rest);
      MergeNothing(r, source);
      assert InlinedOf(inline, [c]) == {};
    }
  }

  /** A frame without data leaves nothing behind, whoever sends it: the mapping it brings is dropped. */
  lemma HashFrameDropped(libs: Libs, t: Rows, c: Cid, h: Hash, rest: Bytes, lost: bool)
    ensures ReceiveFrame(libs, t, c, HeaderBytes(HashOf(h)) + rest, lost) == GotFrame(t, None, rest)
  {
    HeaderRoundTrip(HashOf(h), rest);
  }

  /**
   * A verified block is taken if and only if it has the multihash of the expected cid and its
   * links can be extracted, whatever the codec of the cid: a raw block needs that too.
   */
  lemma BlockTakenIff(libs: Libs, t: Rows, c: Cid, d: Data, rest: Bytes, lost: bool)
    requires libs.BaoInverts()
    ensures ReceiveFrame(libs, t, c, DataFrame(libs, libs.blake3(d), d) + rest, lost).GotFrame? <==>
            libs.Hashes(c.hash, d) && libs.links(d).Some?
  {
    hide DataFrame, ReadHeader, ReadData;
    DataFrameRead(libs, libs.blake3(d), d, rest);
    DataRead(libs, d, rest);
  }

  lemma DataCut(libs: Libs, d: Data, n: nat)
    requires libs.BaoDetectsTruncation() && n < 8 + |libs.baoEncode(d)|
    ensures ReadData(libs, libs.blake3(d), (LittleEndian(|d|, 8) + libs.baoEncode(d))[..n]) == DataTruncated
  {
    var size, bao := LittleEndian(|d|, 8), libs.baoEncode(d);
    if n >= 8 {
      assert (size + bao)[..n] == size + bao[..n - 8];
      SizeRead(d, bao[..n - 8]);
    }
  }

  /** The error of a receiver whose stream stops `n` bytes into a frame: none if it is finished within the header. */
  function CutError(n: nat, lost: bool): Option<Error> {
    if lost then Some(ConnectionLost) else if n >= HEADER_SIZE then Some(TruncatedData) else None
  }

  function CutResult(n: nat, lost: bool): FrameResult {
    var error := CutError(n, lost);
    if error.None? then NoFrame else BadFrame(error.value, None)
  }

  /** An honest frame that is cut short is not taken. */
  lemma FrameCut(libs: Libs, t: Rows, source: Replica, inline: InlineOpts, c: Cid, n: nat, lost: bool)
    requires libs.BaoDetectsTruncation() && CanFrame(libs, source, inline, c)
    requires n < |Frame(libs, source, inline, c)|
    ensures ReceiveFrame(libs, t, c, Frame(libs, source, inline, c)[..n], lost) == CutResult(n, lost)
  {
    if n >= HEADER_SIZE {
      var h := source.tables.hashToBlake3[c.hash];
      var d := source.blobs[h];
      var header, size, bao := HeaderBytes(DataOf(h)), LittleEndian(|d|, 8), libs.baoEncode(d);
      var body := (size + bao)[..n - HEADER_SIZE];
      Regroup(header, size, bao, []);
      CutInSecond(header, size + bao, n);
      HeaderRoundTrip(DataOf(h), body);
      DataCut(libs, d, n - HEADER_SIZE);
    }
  }

  lemma CutInFirst(a: Bytes, b: Bytes, n: nat)
    requires n <= |a|
    ensures (a + b)[..n] == a[..n]
  {
  }

  lemma CutInSecond(a: Bytes, b: Bytes, n: nat)
    requires |a| <= n <= |a| + |b|
    ensures (a + b)[..n] == a + b[..n - |a|]
  {
  }

  // ----- the whole stream

  /** The frames of `cids`, one after the other. */
  function Stream(libs: Libs, source: Replica, inline: InlineOpts, cids: seq<Cid>): Bytes {
    if cids == [] then [] else Frame(libs, source, inline, cids[0]) + Stream(libs, source, inline, cids[1..])
  }

  /** The cids whose frames the sender writes whole. */
  function SentCids(libs: Libs, source: Replica, w: Walker, inline: InlineOpts): seq<Cid>
    decreases Budget(libs, source.tables, w)
  {
    match WalkerNext(libs, source.tables, w)
    case Item(c, next) =>
      if SendItem(libs, source, inline, c).error.Some? then [] else [c] + SentCids(libs, source, next, inline)
    case _ => []
  }

  /** What the sender writes after the last whole frame: a header, if it lacks the data to go with it. */
  function SentTail(libs: Libs, source: Replica, w: Walker, inline: InlineOpts): Bytes
    decreases Budget(libs, source.tables, w)
  {
    match WalkerNext(libs, source.tables, w)
    case Item(c, next) =>
      if SendItem(libs, source, inline, c).error.Some? then SendItem(libs, source, inline, c).bytes
      else SentTail(libs, source, next, inline)
    case _ => []
  }

  /** Of any sender: it writes `sent` and `tail` of the cids `all` of a traversal that ends with `error`. */
  ghost predicate SendsFrames(libs: Libs, source: Replica, inline: InlineOpts, all: seq<Cid>, error: Option<Error>,
                              sent: seq<Cid>, tail: Bytes, written: Sent)
  {
    && sent <= all && (forall c :: c in sent ==> SendItem(libs, source, inline, c).error.None?)
    && written.bytes == Stream(libs, source, inline, sent) + tail
    && if |sent| < |all| then
         var item := SendItem(libs, source, inline, all[|sent|]);
         item.error.Some? && written.error == item.error && tail == item.bytes
       else
         written.error == error && tail == []
  }

  lemma SendsFirst(libs: Libs, source: Replica, inline: InlineOpts, c: Cid, all: seq<Cid>, error: Option<Error>,
                   sent: seq<Cid>, tail: Bytes, written: Sent)
    requires SendsFrames(libs, source, inline, all, error, sent, tail, written)
    requires SendItem(libs, source, inline, c).error.None?
    ensures SendsFrames(libs, source, inline, [c] + all, error, [c] + sent, tail,
                        Sent(Frame(libs, source, inline, c) + written.bytes, written.error))
  {
    assert ([c] + sent)[1..] == sent;
    ConcatAssociative(Frame(libs, source, inline, c), Stream(libs, source, inline, sent), tail);
  }

  /**
   * Any sender writes the frames of the cids of its traversal, in order, up to the first that it lacks
   * the mapping or the data for, and fails then; or else up to the end of its traversal, and
   * fails only if that does.
   */
  lemma {:induction false} SendsStream(libs: Libs, source: Replica, w: Walker, inline: InlineOpts)
    ensures var all := WalkAll(libs, source.tables, w);
            SendsFrames(libs, source, inline, all.0, all.1, SentCids(libs, source, w, inline),
                        SentTail(libs, source, w, inline), Send(libs, source, w, inline))
    decreases Budget(libs, source.tables, w)
  {
    hide WalkerNext, SendItem, SendsFrames;
    var step := WalkerNext(libs, source.tables, w);
    if step.Item? && SendItem(libs, source, inline, step.cid).error.None? {
      SendsStream(libs, source, step.next, inline);
      var all := WalkAll(libs, source.tables, step.next);
      SendsFirst(libs, source, inline, step.cid, all.0, all.1, SentCids(libs, source, step.next, inline),
                 SentTail(libs, source, step.next, inline), Send(libs, source, step.next, inline));
    } else {
      SendsNothing(libs, source, w, inline);
    }
  }

  lemma SendsNothing(libs: Libs, source: Replica, w: Walker, inline: InlineOpts)
    requires var step := WalkerNext(libs, source.tables, w);
      step.Item? ==> SendItem(libs, source, inline, step.cid).error.Some?
    ensures var all := WalkAll(libs, source.tables, w);
            SendsFrames(libs, source, inline, all.0, all.1, SentCids(libs, source, w, inline),
                        SentTail(libs, source, w, inline), Send(libs, source, w, inline))
  {
    hide WalkerNext, SendItem;
  }

  /**
   * A sender succeeds if and only if its traversal does, and it has the mapping of every cid
   * and the data of every inlined one.
   */
  lemma SendSucceedsIff(libs: Libs, source: Replica, w: Walker, inline: InlineOpts)
    ensures var all := WalkAll(libs, source.tables, w);
            Send(libs, source, w, inline).error.None? <==>
              all.1.None? && forall c :: c in all.0 ==>
                c.hash in source.tables.hashToBlake3 && (Inlines(inline, c) ==> HasBlob(source, c))
  {
    hide WalkAll, Send, SentCids, SentTail;
    SendsStream(libs, source, w, inline);
    var all, sent := WalkAll(libs, source.tables, w).0, SentCids(libs, source, w, inline);
    if |sent| < |all| {
      assert all[|sent|] in all;
    } else {
      assert sent == all;
    }
  }

  lemma SendOnItem(libs: Libs, source: Replica, w: Walker, inline: InlineOpts)
    requires WalkerNext(libs, source.tables, w).Item?
    requires SendItem(libs, source, inline, WalkerNext(libs, source.tables, w).cid).error.None?
    ensures var step := WalkerNext(libs, source.tables, w);
            var later := Send(libs, source, step.next, inline);
            && Send(libs, source, w, inline) == Sent(Frame(libs, source, inline, step.cid) + later.bytes, later.error)
            && SentCids(libs, source, w, inline) == [step.cid] + SentCids(libs, source, step.next, inline)
  {
  }

  lemma DeferredAgrees(libs: Libs, t: Rows, u: Rows, next: Walker, c: Cid)
    requires next.FullWalker? ==> next.state.prev == Some(c)
    requires FollowsLinks(next, c) && Children(libs, u, c).Ok? ==> Agree(t, u, c)
    ensures AgreeOnDeferred(libs, t, u, next)
  {
    if FollowsLinks(next, c) && Children(libs, u, c).Ok? {
      AgreeSameChildren(libs, t, u, c);
    }
  }

  /** After a step, a node is in step as long as it still agrees where it did, and with the links of the yielded cid. */
  lemma StillInStep(libs: Libs, t: Rows, source: Replica, w: Walker, inline: InlineOpts, t': Rows, c: Cid, next: Walker)
    requires InStep(libs, t, source, w, inline)
    requires Continues(libs, source.tables, w, c, next)
    requires forall x :: x in Inner(libs, source.tables, w) ==>
      && (Agree(t, source.tables, x) ==> Agree(t', source.tables, x))
      && (Delivers(source, w, inline, x) ==> NoStaleRow(t', source.tables, x))
    requires FollowsLinks(w, c) && Children(libs, source.tables, c).Ok? ==> Agree(t', source.tables, c)
    ensures InStep(libs, t', source, next, inline)
  {
    hide Inner, Agree, NoStaleRow, Faithful, HasBlob, Children;
    DeferredAgrees(libs, t', source.tables, next, c);
    assert CanFollow(libs, t', source.tables, next, inline);
  }

  function InlinedOf(inline: InlineOpts, cids: seq<Cid>): set<Cid> {
    set c | c in cids && Inlines(inline, c)
  }

  /** What is sent whole for a yielded cid is right. */
  lemma YieldedCanFrame(libs: Libs, t: Rows, source: Replica, w: Walker, inline: InlineOpts)
    requires InStep(libs, t, source, w, inline) && WalkerNext(libs, source.tables, w).Item?
    requires SendItem(libs, source, inline, WalkerNext(libs, source.tables, w).cid).error.None?
    ensures CanFrame(libs, source, inline, WalkerNext(libs, source.tables, w).cid)
    ensures Supplies(libs, source, InlinedOf(inline, [WalkerNext(libs, source.tables, w).cid]))
  {
    hide Inner, Faithful, WalkerNext, AgreeOnDeferred, CanFollow, NoStaleRows;
    ItemIsInner(libs, source.tables, w);
  }

  /** Taking over what the source rightly supplies spoils nothing for a traversal. */
  lemma MergeKeepsAgreements(libs: Libs, r: Replica, source: Replica, w: Walker, inline: InlineOpts, cids: set<Cid>)
    requires NoStaleRows(libs, r.tables, source, w, inline) && Supplies(libs, source, cids)
    ensures forall x :: x in Inner(libs, source.tables, w) ==>
      && (Agree(r.tables, source.tables, x) ==> Agree(Merge(r, source, cids).tables, source.tables, x))
      && (Delivers(source, w, inline, x) ==> NoStaleRow(Merge(r, source, cids).tables, source.tables, x))
  {
    hide Inner, Merge, Faithful;
    forall x | x in Inner(libs, source.tables, w) && x.hash in source.tables.hashToBlake3
      ensures Agree(r.tables, source.tables, x) ==> Agree(Merge(r, source, cids).tables, source.tables, x)
      ensures NoStaleRow(r.tables, source.tables, x) ==> NoStaleRow(Merge(r, source, cids).tables, source.tables, x)
    {
      MergeKeepsAgreement(libs, r, source, cids, x);
    }
  }

  /** The frame for the yielded cid, once taken, keeps the receiver in step. */
  lemma FrameKeepsInStep(libs: Libs, r: Replica, source: Replica, w: Walker, inline: InlineOpts)
    requires InStep(libs, r.tables, source, w, inline) && WalkerNext(libs, source.tables, w).Item?
    requires SendItem(libs, source, inline, WalkerNext(libs, source.tables, w).cid).error.None?
    ensures var step := WalkerNext(libs, source.tables, w);
            InStep(libs, Merge(r, source, InlinedOf(inline, [step.cid])).tables, source, step.next, inline)
  {
    hide Inner, Merge, Faithful, WalkerNext, SendItem, Children, Agree, NoStaleRow;
    ItemIsInner(libs, source.tables, w);
    YieldedCanFrame(libs, r.tables, source, w, inline);
    var c := WalkerNext(libs, source.tables, w).cid;
    var taken := InlinedOf(inline, [c]);
    var r' := Merge(r, source, taken);
    MergeKeepsAgreements(libs, r, source, w, inline, taken);
    if Inlines(inline, c) {
      FaithfulHasBlob(libs, source, c);
      MergedAgrees(libs, r, source, taken, c);
    }
    StillInStep(libs, r.tables, source, w, inline, r'.tables, c, WalkerNext(libs, source.tables, w).next);
  }

  function FrameSizes(libs: Libs, source: Replica, inline: InlineOpts, cids: seq<Cid>): seq<nat> {
    seq(|cids|, i requires 0 <= i < |cids| => |Frame(libs, source, inline, cids[i])|)
  }

  /** The outcome of a receiver that takes all frames that are whole in the first `n` bytes, then ends with `last`. */
  function Cut(r: Replica, source: Replica, inline: InlineOpts, cids: seq<Cid>, sizes: seq<nat>, n: nat, lost: bool,
               last: Option<Error>): Received
    requires |cids| == |sizes|
    decreases |cids|
  {
    if cids == [] then Received(r, [], last)
    else if n < sizes[0] then Received(r, [], CutError(n, lost))
    else
      var next := Merge(r, source, InlinedOf(inline, [cids[0]]));
      var later := Cut(next, source, inline, cids[1..], sizes[1..], n - sizes[0], lost, last);
      later.(cids := [cids[0]] + later.cids)
  }

  /** The receiver takes a whole frame and goes on with the bytes after it. */
  lemma ReceiveWhole(libs: Libs, r: Replica, source: Replica, w: Walker, inline: InlineOpts, later: Bytes, n: nat,
                     lost: bool)
    requires libs.BaoInverts() && WalkerNext(libs, r.tables, w).Item?
    requires CanFrame(libs, source, inline, WalkerNext(libs, r.tables, w).cid)
    requires var size := |Frame(libs, source, inline, WalkerNext(libs, r.tables, w).cid)|; size <= n <= size + |later|
    ensures var step := WalkerNext(libs, r.tables, w);
            var frame := Frame(libs, source, inline, step.cid);
            var r' := Merge(r, source, InlinedOf(inline, [step.cid]));
            var rest := Receive(libs, r', step.next, later[..n - |frame|], lost);
            Receive(libs, r, w, (frame + later)[..n], lost) == rest.(cids := [step.cid] + rest.cids)
  {
    hide ReceiveFrame, Frame, WalkerNext, Merge, InlinedOf, CanFrame;
    var frame := Frame(libs, source, inline, WalkerNext(libs, r.tables, w).cid);
    CutInSecond(frame, later, n);
    FrameTaken(libs, r, source, inline, WalkerNext(libs, r.tables, w).cid, later[..n - |frame|], lost);
  }

  /** The receiver ends at a result that is a cut. */
  lemma ReceiveAtCut(libs: Libs, r: Replica, w: Walker, stream: Bytes, n: nat, lost: bool)
    requires WalkerNext(libs, r.tables, w).Item?
    requires ReceiveFrame(libs, r.tables, WalkerNext(libs, r.tables, w).cid, stream, lost) == CutResult(n, lost)
    ensures Receive(libs, r, w, stream, lost) == Received(r, [], CutError(n, lost))
  {
    hide ReceiveFrame, WalkerNext;
  }

  lemma ReceivePart(libs: Libs, r: Replica, source: Replica, w: Walker, inline: InlineOpts, later: Bytes, n: nat,
                    lost: bool)
    requires libs.BaoDetectsTruncation() && WalkerNext(libs, r.tables, w).Item?
    requires CanFrame(libs, source, inline, WalkerNext(libs, r.tables, w).cid)
    requires n < |Frame(libs, source, inline, WalkerNext(libs, r.tables, w).cid)|
    ensures Receive(libs, r, w, (Frame(libs, source, inline, WalkerNext(libs, r.tables, w).cid) + later)[..n], lost) ==
            Received(r, [], CutError(n, lost))
  {
    hide ReceiveFrame, Frame, WalkerNext, CanFrame, CutResult;
    var c := WalkerNext(libs, r.tables, w).cid;
    CutInFirst(Frame(libs, source, inline, c), later, n);
    FrameCut(libs, r.tables, source, inline, c, n, lost);
    ReceiveAtCut(libs, r, w, (Frame(libs, source, inline, c) + later)[..n], n, lost);
  }

  /** What a sender writes before it fails for a cid is no frame. */
  lemma TailCut(libs: Libs, t: Rows, source: Replica, inline: InlineOpts, c: Cid, n: nat, lost: bool)
    requires SendItem(libs, source, inline, c).error.Some? && n <= |Frame(libs, source, inline, c)|
    ensures ReceiveFrame(libs, t, c, Frame(libs, source, inline, c)[..n], lost) == CutResult(n, lost)
  {
    if n >= HEADER_SIZE {
      var header := Frame(libs, source, inline, c);
      assert header[..n] == header + [];
      HeaderRoundTrip(DataOf(source.tables.hashToBlake3[c.hash]), []);
    }
  }

  lemma NothingToRead(libs: Libs, r: Replica, w: Walker, lost: bool)
    ensures var end := Receive(libs, r, w, [], lost); end.replica == r && end.cids == []
  {
  }

  lemma CutOnFrame(libs: Libs, r: Replica, source: Replica, inline: InlineOpts, c: Cid, rest: seq<Cid>, n: nat,
                   lost: bool, last: Option<Error>)
    ensures var first, sizes := |Frame(libs, source, inline, c)|, FrameSizes(libs, source, inline, [c] + rest);
            Cut(r, source, inline, [c] + rest, sizes, n, lost, last) ==
              if n < first then Received(r, [], CutError(n, lost))
              else
                var later := Cut(Merge(r, source, InlinedOf(inline, [c])), source, inline,
                                 rest, FrameSizes(libs, source, inline, rest), n - first, lost, last);
                later.(cids := [c] + later.cids)
  {
    hide Frame, Merge, InlinedOf;
    var cids := [c] + rest;
    assert cids[0] == c && cids[1..] == rest;
    assert FrameSizes(libs, source, inline, cids)[1..] == FrameSizes(libs, source, inline, rest);
  }

  /**
   * The error of a receiver that took all frames its sender wrote: none when these are all of the
   * traversal, that of a cut when the sender failed for the next. When the sender's traversal failed,
   * it depends on what the receiver itself holds.
   */
  ghost predicate LastError(libs: Libs, source: Replica, w: Walker, inline: InlineOpts, n: nat, lost: bool,
                            last: Option<Error>)
  {
    var all, sent := WalkAll(libs, source.tables, w), SentCids(libs, source, w, inline);
    var sizes := FrameSizes(libs, source, inline, sent);
    WholeFrames(sizes, n) == |sent| && (|sent| < |all.0| || all.1.None?) ==>
      last == if |sent| == |all.0| then None else CutError(LeftOver(sizes, n), lost)
  }

  lemma SizesOnFrame(libs: Libs, source: Replica, inline: InlineOpts, c: Cid, rest: seq<Cid>, n: nat)
    ensures var first, sizes := |Frame(libs, source, inline, c)|, FrameSizes(libs, source, inline, [c] + rest);
            if n < first then WholeFrames(sizes, n) == 0
            else
              var sizes' := FrameSizes(libs, source, inline, rest);
              && WholeFrames(sizes, n) == 1 + WholeFrames(sizes', n - first)
              && LeftOver(sizes, n) == LeftOver(sizes', n - first)
  {
    hide Frame;
    var cids := [c] + rest;
    assert cids[0] == c && cids[1..] == rest;
    assert FrameSizes(libs, source, inline, cids)[1..] == FrameSizes(libs, source, inline, rest);
  }

  /** The last error is that after the first frame. */
  lemma LastErrorOnFrame(libs: Libs, source: Replica, w: Walker, inline: InlineOpts, n: nat, lost: bool,
                         last: Option<Error>)
    requires WalkerNext(libs, source.tables, w).Item?
    requires SendItem(libs, source, inline, WalkerNext(libs, source.tables, w).cid).error.None?
    requires var step := WalkerNext(libs, source.tables, w);
      var size := |Frame(libs, source, inline, step.cid)|;
      n >= size ==> LastError(libs, source, step.next, inline, n - size, lost, last)
    ensures LastError(libs, source, w, inline, n, lost, last)
  {
    hide WalkerNext, SendItem, Frame, FrameSizes, WholeFrames, LeftOver, SentCids, WalkAll, CutError;
    var step := WalkerNext(libs, source.tables, w);
    SendOnItem(libs, source, w, inline);
    WalkAllOnItem(libs, source.tables, w);
    SizesOnFrame(libs, source, inline, step.cid, SentCids(libs, source, step.next, inline), n);
  }

  /** The receiver on the first `n` bytes of an honest stream, for every `n`. */
  lemma {:induction false} ReceiveCut(libs: Libs, r: Replica, source: Replica, w: Walker, inline: InlineOpts, n: nat,
                                      lost: bool)
    returns (last: Option<Error>)
    requires LibsWork(libs) && InStep(libs, r.tables, source, w, inline)
    requires n <= |Send(libs, source, w, inline).bytes|
    ensures Receive(libs, r, w, Send(libs, source, w, inline).bytes[..n], lost) ==
            var sent := SentCids(libs, source, w, inline);
            Cut(r, source, inline, sent, FrameSizes(libs, source, inline, sent), n, lost, last)
    ensures LastError(libs, source, w, inline, n, lost, last)
    decreases Budget(libs, source.tables, w), 1
  {
    hide InStep, Receive, Send, WalkAll, SendItem, LastError, SentCids, Cut;
    var step := WalkerNext(libs, source.tables, w);
    if step.Item? && SendItem(libs, source, inline, step.cid).error.None? {
      last := ReceiveCutItem(libs, r, source, w, inline, n, lost);
    } else {
      last := ReceiveStops(libs, r, source, w, inline, n, lost);
    }
  }

  /** After the last frame of the sender. */
  lemma ReceiveStops(libs: Libs, r: Replica, source: Replica, w: Walker, inline: InlineOpts, n: nat, lost: bool)
    returns (last: Option<Error>)
    requires InStep(libs, r.tables, source, w, inline) && n <= |Send(libs, source, w, inline).bytes|
    requires var step := WalkerNext(libs, source.tables, w);
      step.Item? ==> SendItem(libs, source, inline, step.cid).error.Some?
    ensures Receive(libs, r, w, Send(libs, source, w, inline).bytes[..n], lost) ==
            var sent := SentCids(libs, source, w, inline);
            Cut(r, source, inline, sent, FrameSizes(libs, source, inline, sent), n, lost, last)
    ensures LastError(libs, source, w, inline, n, lost, last)
  {
    hide InStep, WalkerNext, ReceiveFrame, SendItem, CutResult, CutError;
    var step, bytes := WalkerNext(libs, source.tables, w), Send(libs, source, w, inline).bytes[..n];
    SameNext(libs, r.tables, source, w, inline);
    assert SentCids(libs, source, w, inline) == [];
    last := Receive(libs, r, w, bytes, lost).error;
    if step.Item? {
      TailCut(libs, r.tables, source, inline, step.cid, n, lost);
      ReceiveAtCut(libs, r, w, bytes, n, lost);
    } else {
      assert bytes == [];
      NothingToRead(libs, r, w, lost);
    }
  }

  lemma {:induction false} ReceiveCutItem(libs: Libs, r: Replica, source: Replica, w: Walker, inline: InlineOpts,
                                          n: nat, lost: bool)
    returns (last: Option<Error>)
    requires LibsWork(libs) && InStep(libs, r.tables, source, w, inline)
    requires n <= |Send(libs, source, w, inline).bytes|
    requires WalkerNext(libs, source.tables, w).Item?
    requires SendItem(libs, source, inline, WalkerNext(libs, source.tables, w).cid).error.None?
    ensures Receive(libs, r, w, Send(libs, source, w, inline).bytes[..n], lost) ==
            var sent := SentCids(libs, source, w, inline);
            Cut(r, source, inline, sent, FrameSizes(libs, source, inline, sent), n, lost, last)
    ensures LastError(libs, source, w, inline, n, lost, last)
    decreases Budget(libs, source.tables, w), 0
  {
    hide ReceiveFrame, Frame, WalkerNext, Merge, InlinedOf, Receive, Send, WalkAll, Cut, FrameSizes, CutError;
    hide InStep, CanFrame, Inner, SendItem, SentCids, LastError;
    var step := WalkerNext(libs, source.tables, w);
    var rest := SentCids(libs, source, step.next, inline);
    SameNext(libs, r.tables, source, w, inline);
    YieldedCanFrame(libs, r.tables, source, w, inline);
    SendOnItem(libs, source, w, inline);
    last := None;
    var later := Send(libs, source, step.next, inline).bytes;
    var size := |Frame(libs, source, inline, step.cid)|;
    if n < size {
      ReceivePart(libs, r, source, w, inline, later, n, lost);
    } else {
      ReceiveWhole(libs, r, source, w, inline, later, n, lost);
      FrameKeepsInStep(libs, r, source, w, inline);
      last := ReceiveCut(libs, Merge(r, source, InlinedOf(inline, [step.cid])), source, step.next, inline, n - size,
                         lost);
    }
    CutOnFrame(libs, r, source, inline, step.cid, rest, n, lost, last);
    LastErrorOnFrame(libs, source, w, inline, n, lost, last);
  }

  // ----- where a stream is cut

  /** How many frames of the given sizes fit whole into `n` bytes. */
  function WholeFrames(sizes: seq<nat>, n: nat): (k: nat)
    ensures k <= |sizes|
  {
    if sizes == [] || n < sizes[0] then 0 else 1 + WholeFrames(sizes[1..], n - sizes[0])
  }

  function Sum(sizes: seq<nat>): nat {
    if sizes == [] then 0 else sizes[0] + Sum(sizes[1..])
  }

  /** The bytes after the last whole frame. */
  function LeftOver(sizes: seq<nat>, n: nat): nat {
    if sizes == [] || n < sizes[0] then n else LeftOver(sizes[1..], n - sizes[0])
  }

  /** The whole frames and the bytes left over make up the `n` bytes, and the next frame does not fit. */
  lemma {:induction false} WholeFramesMeaning(sizes: seq<nat>, n: nat)
    ensures var k, left := WholeFrames(sizes, n), LeftOver(sizes, n);
            Sum(sizes[..k]) + left == n && (k < |sizes| ==> left < sizes[k])
  {
    if sizes != [] && n >= sizes[0] {
      WholeFramesMeaning(sizes[1..], n - sizes[0]);
      var k := WholeFrames(sizes, n);
      assert sizes[..k][1..] == sizes[1..][..k - 1];
    }
  }

  /** At the end of a frame nothing is left over. */
  lemma {:induction false} CutAtFrame(sizes: seq<nat>, k: nat)
    requires k <= |sizes| && forall i :: 0 <= i < |sizes| ==> sizes[i] > 0
    ensures WholeFrames(sizes, Sum(sizes[..k])) == k && LeftOver(sizes, Sum(sizes[..k])) == 0
  {
    if k > 0 {
      CutAtFrame(sizes[1..], k - 1);
      assert sizes[..k][1..] == sizes[1..][..k - 1];
    }
  }

  lemma {:induction false} StreamSize(libs: Libs, source: Replica, inline: InlineOpts, cids: seq<Cid>)
    ensures |Stream(libs, source, inline, cids)| == Sum(FrameSizes(libs, source, inline, cids))
  {
    if cids != [] {
      StreamSize(libs, source, inline, cids[1..]);
      assert FrameSizes(libs, source, inline, cids)[1..] == FrameSizes(libs, source, inline, cids[1..]);
    }
  }

  lemma InlinedSteps(inline: InlineOpts, cids: seq<Cid>, k: nat)
    requires k < |cids|
    ensures InlinedOf(inline, [cids[0]]) + InlinedOf(inline, cids[1..][..k]) == InlinedOf(inline, cids[..k + 1])
  {
    assert cids[..k + 1] == [cids[0]] + cids[1..][..k];
  }

  lemma MergeMore(r: Replica, source: Replica, inline: InlineOpts, cids: seq<Cid>, k: nat)
    requires k < |cids|
    ensures Merge(Merge(r, source, InlinedOf(inline, [cids[0]])), source, InlinedOf(inline, cids[1..][..k])) ==
            Merge(r, source, InlinedOf(inline, cids[..k + 1]))
  {
    MergeTwice(r, source, InlinedOf(inline, [cids[0]]), InlinedOf(inline, cids[1..][..k]));
    InlinedSteps(inline, cids, k);
  }

  lemma {:induction false} CutReplica(r: Replica, source: Replica, inline: InlineOpts, cids: seq<Cid>, sizes: seq<nat>,
                                      n: nat, lost: bool, last: Option<Error>, k: nat)
    requires |cids| == |sizes| && k == WholeFrames(sizes, n)
    ensures Cut(r, source, inline, cids, sizes, n, lost, last).replica == Merge(r, source, InlinedOf(inline, cids[..k]))
    decreases |cids|
  {
    if k == 0 {
      assert InlinedOf(inline, cids[..0]) == {};
      MergeNothing(r, source);
    } else {
      var first := Merge(r, source, InlinedOf(inline, [cids[0]]));
      CutReplica(first, source, inline, cids[1..], sizes[1..], n - sizes[0], lost, last, k - 1);
      MergeMore(r, source, inline, cids, k - 1);
    }
  }

  lemma {:induction false} CutEnd(r: Replica, source: Replica, inline: InlineOpts, cids: seq<Cid>, sizes: seq<nat>,
                                  n: nat, lost: bool, last: Option<Error>)
    requires |cids| == |sizes|
    ensures var k := WholeFrames(sizes, n);
            var cut := Cut(r, source, inline, cids, sizes, n, lost, last);
            && cut.cids == cids[..k]
            && cut.error == if k == |cids| then last else CutError(LeftOver(sizes, n), lost)
    decreases |cids|
  {
    if cids != [] && n >= sizes[0] {
      CutEnd(Merge(r, source, InlinedOf(inline, [cids[0]])), source, inline, cids[1..], sizes[1..], n - sizes[0],
             lost, last);
      var k := WholeFrames(sizes[1..], n - sizes[0]);
      assert cids[..k + 1] == [cids[0]] + cids[1..][..k];
    }
  }
}
