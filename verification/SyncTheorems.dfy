// Whole runs of the sync protocol: lockstep, interruption, resumption, staged syncs, and what
// holds of the receiver whoever sends.
module SyncTheorems {
  import opened Base
  import opened Ipld
  import opened Tables
  import opened Traversal
  import opened Coverage
  import opened Replication
  import opened Sync
  import opened Lockstep

  /** What the sender writes for a request. */
  function Response(libs: Libs, source: Replica, opts: TraversalOpts, inline: InlineOpts): Sent {
    Send(libs, source, GetTraversal(opts), inline)
  }

  /** The cids of a requested traversal, as the sender sees it. */
  function Requested(libs: Libs, source: Replica, opts: TraversalOpts): seq<Cid> {
    WalkAll(libs, source.tables, GetTraversal(opts)).0
  }

  /** The cids whose frames the sender writes whole: all that were requested, if it does not fail. */
  function Served(libs: Libs, source: Replica, opts: TraversalOpts, inline: InlineOpts): seq<Cid> {
    SentCids(libs, source, GetTraversal(opts), inline)
  }

  /** The sender may fail for want of a mapping or of data, but not for want of links. */
  predicate FindsLinks(libs: Libs, source: Replica, opts: TraversalOpts, inline: InlineOpts) {
    || |Served(libs, source, opts, inline)| < |Requested(libs, source, opts)|
    || WalkAll(libs, source.tables, GetTraversal(opts)).1.None?
  }

  function Take(bytes: Bytes, n: nat): Bytes {
    if n <= |bytes| then bytes[..n] else bytes
  }

  /** No two data of the two nodes clash under a hash function. */
  ghost predicate NoClash(libs: Libs, r: Replica, source: Replica) {
    && libs.NoBlake3Clash(r.blobs.Values + source.blobs.Values)
    && libs.NoDigestClash(r.blobs.Values + source.blobs.Values)
  }

  /** The two nodes have the same links for `c`, as tables that agree do, and nodes that both hold it faithfully. */
  ghost predicate BothKnow(libs: Libs, r: Replica, source: Replica, c: Cid) {
    Agree(r.tables, source.tables, c) || (Faithful(libs, r, c) && Faithful(libs, source, c))
  }

  /**
   * The sender is honest, complete or not. The receiver, whose link rows are backed, gets or already
   * knows every block whose links the sender can follow.
   */
  ghost predicate CanSync(libs: Libs, r: Replica, source: Replica, opts: TraversalOpts, inline: InlineOpts) {
    var w := GetTraversal(opts);
    && LibsWork(libs) && LinkRowsBacked(libs, r) && NoClash(libs, r, source)
    && Honest(libs, source, w, inline)
    && forall c :: c in Inner(libs, source.tables, w) && FollowsLinks(w, c) && Children(libs, source.tables, c).Ok? ==>
         Delivered(w, inline, c) || BothKnow(libs, r, source, c)
  }

  lemma CanSyncInStep(libs: Libs, r: Replica, source: Replica, opts: TraversalOpts, inline: InlineOpts)
    requires CanSync(libs, r, source, opts, inline)
    ensures LibsWork(libs) && InStep(libs, r.tables, source, GetTraversal(opts), inline)
  {
    hide LinkRowsBacked, NoClash, Faithful, Inner, Children;
    var w := GetTraversal(opts);
    forall c | c in Inner(libs, source.tables, w) && Faithful(libs, source, c)
      ensures c.hash in source.tables.hashToBlake3 && NoStaleRow(r.tables, source.tables, c)
      ensures Faithful(libs, r, c) ==> Agree(r.tables, source.tables, c)
    {
      BackedAgreesNoClash(libs, r, source, c);
    }
  }

  lemma BackedAgreesNoClash(libs: Libs, r: Replica, source: Replica, c: Cid)
    requires LinkRowsBacked(libs, r) && NoClash(libs, r, source) && Faithful(libs, source, c)
    ensures c.hash in source.tables.hashToBlake3 && NoStaleRow(r.tables, source.tables, c)
    ensures Faithful(libs, r, c) ==> Agree(r.tables, source.tables, c)
  {
    FaithfulHasBlob(libs, source, c);
    BackedAgrees(libs, r, source, c);
  }

  /** What was sent whole, with its data, the traversal goes through, and the sender delivers. */
  lemma SentDelivers(libs: Libs, source: Replica, w: Walker, inline: InlineOpts, c: Cid)
    requires c in SentCids(libs, source, w, inline)
    ensures c in WalkAll(libs, source.tables, w).0 && c in Inner(libs, source.tables, w)
    ensures SendItem(libs, source, inline, c).error.None?
    ensures Inlines(inline, c) ==> Delivers(source, w, inline, c)
  {
    hide WalkAll, Inner, SentCids, SentTail, Send, Stream;
    SendsStream(libs, source, w, inline);
    WalkedIsInner(libs, source.tables, w);
  }

  lemma SentIsRight(libs: Libs, source: Replica, w: Walker, inline: InlineOpts, k: nat)
    requires Honest(libs, source, w, inline) && k <= |SentCids(libs, source, w, inline)|
    ensures Supplies(libs, source, InlinedOf(inline, SentCids(libs, source, w, inline)[..k]))
  {
    hide Inner, SentCids, Faithful, WalkAll;
    forall c | c in InlinedOf(inline, SentCids(libs, source, w, inline)[..k]) ensures Faithful(libs, source, c) {
      SentDelivers(libs, source, w, inline, c);
    }
  }

  // ----- lockstep and interruption

  /**
   * Interruption: for every honest sender, complete or not, for every request and every number `n` of
   * bytes that arrive before the stream is finished or lost. The receiver takes exactly the frames
   * that arrived whole, in the sender's order, and ends with exactly the rows and blobs that they
   * delivered on top of its own. It reports no error if and only if it has all frames of the
   * request, or the stream is finished and less than a header is left over.
   */
  lemma SyncInterrupted(libs: Libs, r: Replica, source: Replica, opts: TraversalOpts, inline: InlineOpts, n: nat,
                        lost: bool)
    requires CanSync(libs, r, source, opts, inline)
    ensures var cids := Served(libs, source, opts, inline);
            var sizes := FrameSizes(libs, source, inline, cids);
            var bytes := Take(Response(libs, source, opts, inline).bytes, n);
            var k := WholeFrames(sizes, |bytes|);
            var end := Receive(libs, r, GetTraversal(opts), bytes, lost);
            && cids <= Requested(libs, source, opts)
            && end.cids == cids[..k]
            && end.replica == Merge(r, source, InlinedOf(inline, cids[..k]))
            && (k < |cids| || FindsLinks(libs, source, opts, inline) ==>
                  (end.error.None? <==>
                     || k == |Requested(libs, source, opts)|
                     || (!lost && LeftOver(sizes, |bytes|) < HEADER_SIZE)))
  {
    hide CanSync, InStep, Receive, Send, WalkAll, FrameSizes, Merge, WholeFrames, LeftOver, SentCids, SentTail, Stream;
    CanSyncInStep(libs, r, source, opts, inline);
    CutRun(libs, r, source, GetTraversal(opts), inline, n, lost);
    SendsStream(libs, source, GetTraversal(opts), inline);
  }

  /** In particular: finished after any `k` whole frames, the receiver ends well, with the first `k` cids. */
  lemma SyncCutAfterFrames(libs: Libs, r: Replica, source: Replica, opts: TraversalOpts, inline: InlineOpts, k: nat)
    requires CanSync(libs, r, source, opts, inline) && k <= |Served(libs, source, opts, inline)|
    requires k < |Served(libs, source, opts, inline)| || FindsLinks(libs, source, opts, inline)
    ensures var cids := Served(libs, source, opts, inline);
            var n := |Stream(libs, source, inline, cids[..k])|;
            Receive(libs, r, GetTraversal(opts), Take(Response(libs, source, opts, inline).bytes, n), false) ==
              Received(Merge(r, source, InlinedOf(inline, cids[..k])), cids[..k], None)
  {
    hide CanSync, Receive, Merge, Send, FindsLinks, SentCids, SentTail, Frame, SendItem, WholeFrames, LeftOver, WalkAll;
    var cids := Served(libs, source, opts, inline);
    var sizes := FrameSizes(libs, source, inline, cids);
    var n := |Stream(libs, source, inline, cids[..k])|;
    SyncInterrupted(libs, r, source, opts, inline, n, false);
    StreamSize(libs, source, inline, cids[..k]);
    assert FrameSizes(libs, source, inline, cids[..k]) == sizes[..k];
    forall i | 0 <= i < |sizes| ensures sizes[i] > 0 {
      assert cids[i] in cids;
      SentDelivers(libs, source, GetTraversal(opts), inline, cids[i]);
      WholeHasHeader(libs, source, inline, cids[i]);
    }
    CutAtFrame(sizes, k);
    SendsStream(libs, source, GetTraversal(opts), inline);
    StreamSize(libs, source, inline, cids);
    SumOfPrefix(sizes, k);
  }

  lemma {:induction false} SumOfPrefix(sizes: seq<nat>, k: nat)
    requires k <= |sizes|
    ensures Sum(sizes[..k]) <= Sum(sizes)
  {
    if k > 0 {
      assert sizes[..k][1..] == sizes[1..][..k - 1];
      SumOfPrefix(sizes[1..], k - 1);
    }
  }

  lemma WholeHasHeader(libs: Libs, source: Replica, inline: InlineOpts, c: Cid)
    requires SendItem(libs, source, inline, c).error.None?
    ensures |Frame(libs, source, inline, c)| >= HEADER_SIZE
  {
  }

  lemma CutRun(libs: Libs, r: Replica, source: Replica, w: Walker, inline: InlineOpts, n: nat, lost: bool)
    requires LibsWork(libs) && InStep(libs, r.tables, source, w, inline)
    ensures var cids, all := SentCids(libs, source, w, inline), WalkAll(libs, source.tables, w);
            var sizes := FrameSizes(libs, source, inline, cids);
            var bytes := Take(Send(libs, source, w, inline).bytes, n);
            var k := WholeFrames(sizes, |bytes|);
            var end := Receive(libs, r, w, bytes, lost);
            && k <= |cids|
            && end.cids == cids[..k]
            && end.replica == Merge(r, source, InlinedOf(inline, cids[..k]))
            && (k < |cids| || |cids| < |all.0| || all.1.None? ==>
                  end.error == if k == |cids| == |all.0| then None else CutError(LeftOver(sizes, |bytes|), lost))
  {
    hide InStep, Receive, Send, WalkAll, Cut, FrameSizes, Merge, InlinedOf, WholeFrames, LeftOver, SentCids, CutError;
    var bytes, cids := Send(libs, source, w, inline).bytes, SentCids(libs, source, w, inline);
    var sizes := FrameSizes(libs, source, inline, cids);
    var m := if n <= |bytes| then n else |bytes|;
    var last := ReceiveCut(libs, r, source, w, inline, m, lost);
    assert bytes[..m] == Take(bytes, n);
    assert |sizes| == |cids| by { SameLength(libs, source, inline, cids); }
    CutReplica(r, source, inline, cids, sizes, m, lost, last, WholeFrames(sizes, m));
    CutEnd(r, source, inline, cids, sizes, m, lost, last);
  }

  lemma SameLength(libs: Libs, source: Replica, inline: InlineOpts, cids: seq<Cid>)
    ensures |FrameSizes(libs, source, inline, cids)| == |cids|
  {
  }

  lemma {:induction false} NothingAfterLast(sizes: seq<nat>, n: nat)
    requires n >= Sum(sizes)
    ensures WholeFrames(sizes, n) == |sizes|
  {
    if sizes != [] {
      NothingAfterLast(sizes[1..], n - sizes[0]);
    }
  }

  /** After whole frames, only the rest is left over. */
  lemma {:induction false} LeftAfterAll(sizes: seq<nat>, n: nat)
    requires n >= Sum(sizes)
    ensures LeftOver(sizes, n) == n - Sum(sizes)
  {
    if sizes != [] {
      LeftAfterAll(sizes[1..], n - sizes[0]);
    }
  }

  /**
   * Lockstep: over a whole run with an honest sender the receiver yields exactly the cids that were
   * sent, and in the end every inlined one is held faithfully. All else of the receiver is as before.
   * If the sender does not fail, then neither does the receiver, and all that was requested is
   * sent.
   */
  lemma SyncLockstep(libs: Libs, r: Replica, source: Replica, opts: TraversalOpts, inline: InlineOpts, lost: bool)
    requires CanSync(libs, r, source, opts, inline)
    ensures var cids := Served(libs, source, opts, inline);
            var sent := Response(libs, source, opts, inline);
            var end := Receive(libs, r, GetTraversal(opts), sent.bytes, lost);
            && end.cids == cids && end.replica == Merge(r, source, InlinedOf(inline, cids))
            && (forall c :: c in cids && Inlines(inline, c) ==> Faithful(libs, end.replica, c))
            && (sent.error.None? ==> end.error.None? && cids == Requested(libs, source, opts))
  {
    hide Faithful, Merge, Inner, SentCids, Receive, LinkRowsBacked, NoClash, WalkAll, Send;
    var w, cids := GetTraversal(opts), Served(libs, source, opts, inline);
    CanSyncInStep(libs, r, source, opts, inline);
    FullRun(libs, r, source, w, inline, lost);
    SentIsRight(libs, source, w, inline, |cids|);
    assert cids[..|cids|] == cids;
    forall c | c in cids && Inlines(inline, c)
      ensures Faithful(libs, Merge(r, source, InlinedOf(inline, cids)), c)
    {
      SentDelivers(libs, source, w, inline, c);
      BackedAgreesNoClash(libs, r, source, c);
      MergedAgrees(libs, r, source, InlinedOf(inline, cids), c);
    }
  }

  /**
   * When an honest sender fails for want of a mapping, it stops between two frames, and for want of data,
   * after a header. So the receiver takes a failed sender for a complete one if and only if it is a
   * mapping that was missing, and the stream is finished all the same.
   */
  lemma SenderFails(libs: Libs, r: Replica, source: Replica, opts: TraversalOpts, inline: InlineOpts, lost: bool)
    requires CanSync(libs, r, source, opts, inline)
    requires |Served(libs, source, opts, inline)| < |Requested(libs, source, opts)|
    ensures var c := Requested(libs, source, opts)[|Served(libs, source, opts, inline)|];
            var sent := Response(libs, source, opts, inline);
            && sent.error == Some(if c.hash in source.tables.hashToBlake3 then DataNotFound else Blake3NotFound)
            && (Receive(libs, r, GetTraversal(opts), sent.bytes, lost).error.None? <==>
                  !lost && c.hash !in source.tables.hashToBlake3)
  {
    hide CanSync, InStep, Receive, WalkAll, Send, Merge, InlinedOf, SentCids, SentTail, Stream;
    CanSyncInStep(libs, r, source, opts, inline);
    FullRun(libs, r, source, GetTraversal(opts), inline, lost);
    SendsStream(libs, source, GetTraversal(opts), inline);
  }

  /**
   * Which mappings a sync leaves: those that were there, and those of the inlined cids. So, after a
   * complete one, a requested cid has a mapping if and only if it had one, or an inlined one has
   * its multihash.
   */
  lemma MappedIff(libs: Libs, r: Replica, source: Replica, opts: TraversalOpts, inline: InlineOpts, lost: bool,
                  mh: Multihash)
    requires CanSync(libs, r, source, opts, inline)
    ensures var end := Receive(libs, r, GetTraversal(opts), Response(libs, source, opts, inline).bytes, lost);
            mh in end.replica.tables.hashToBlake3 <==>
              || mh in r.tables.hashToBlake3
              || exists c :: c in Served(libs, source, opts, inline) && Inlines(inline, c) && c.hash == mh
  {
    hide CanSync, Receive, Send, SentCids, SendItem, Inner, WalkAll;
    SyncLockstep(libs, r, source, opts, inline, lost);
    var cids := Served(libs, source, opts, inline);
    forall c | c in cids ensures Inlines(inline, c) ==> c.hash in source.tables.hashToBlake3 {
      SentDelivers(libs, source, GetTraversal(opts), inline, c);
    }
  }

  lemma FullRun(libs: Libs, r: Replica, source: Replica, w: Walker, inline: InlineOpts, lost: bool)
    requires LibsWork(libs) && InStep(libs, r.tables, source, w, inline)
    ensures var sent, all := SentCids(libs, source, w, inline), WalkAll(libs, source.tables, w);
            var end := Receive(libs, r, w, Send(libs, source, w, inline).bytes, lost);
            && end.cids == sent && end.replica == Merge(r, source, InlinedOf(inline, sent))
            && (|sent| < |all.0| || all.1.None? ==>
                  var tail := SentTail(libs, source, w, inline);
                  end.error == if |sent| == |all.0| then None else CutError(|tail|, lost))
            && (Send(libs, source, w, inline).error.None? ==> sent == all.0 && all.1.None? && end.error.None?)
  {
    hide InStep, Receive, Send, WalkAll, FrameSizes, Merge, InlinedOf, WholeFrames, LeftOver, SentCids, SentTail;
    hide Stream, SendItem, CutError;
    var bytes, sent := Send(libs, source, w, inline).bytes, SentCids(libs, source, w, inline);
    var sizes := FrameSizes(libs, source, inline, sent);
    CutRun(libs, r, source, w, inline, |bytes|, lost);
    assert Take(bytes, |bytes|) == bytes;
    SendsStream(libs, source, w, inline);
    StreamSize(libs, source, inline, sent);
    NothingAfterLast(sizes, |bytes|);
    LeftAfterAll(sizes, |bytes|);
    SameLength(libs, source, inline, sent);
    assert sent[..|sent|] == sent;
  }

  lemma {:induction false} WalkedIsInner(libs: Libs, t: Rows, w: Walker)
    ensures forall c :: c in WalkAll(libs, t, w).0 ==> c in Inner(libs, t, w) && Keeps(FilterOf(w), c)
    decreases Budget(libs, t, w)
  {
    hide Inner;
    if WalkerNext(libs, t, w).Item? {
      ItemIsInner(libs, t, w);
      WalkedIsInner(libs, t, WalkerNext(libs, t, w).next);
    }
  }

  // ----- resumption

  /** Having taken over some of a source's blocks does not bring a node out of step with it. */
  lemma MergeStaysInStep(libs: Libs, r: Replica, source: Replica, w: Walker, inline: InlineOpts, cids: set<Cid>)
    requires InStep(libs, r.tables, source, w, inline) && Supplies(libs, source, cids)
    requires w.FullWalker? ==> w.state.prev.None?
    ensures InStep(libs, Merge(r, source, cids).tables, source, w, inline)
  {
    hide Inner, Merge, Faithful, Children, Agree, NoStaleRow;
    MergeKeepsAgreements(libs, r, source, w, inline, cids);
  }

  lemma MergeAgain(r: Replica, source: Replica, part: set<Cid>, whole: set<Cid>)
    requires part <= whole
    ensures Merge(Merge(r, source, part), source, whole) == Merge(r, source, whole)
    ensures Merge(Merge(r, source, part).(tables := r.tables), source, whole) == Merge(r, source, whole)
  {
    MergeTwice(r, source, part, whole);
    assert part + whole == whole;
  }

  /** What a node holds after runs of one request that were all cut: after how many bytes, and whether lost there. */
  function AfterCuts(libs: Libs, r: Replica, opts: TraversalOpts, bytes: Bytes, cuts: seq<(nat, bool)>): Replica
    decreases |cuts|
  {
    if cuts == [] then r
    else
      var next := SyncCommand(libs, r, opts, Take(bytes, cuts[0].0), cuts[0].1);
      AfterCuts(libs, next, opts, bytes, cuts[1..])
  }

  /**
   * Resumption: however often a sync is cut, wherever, and whether or not the receiver notices,
   * running the same request again gives what an uninterrupted run gives. So the command then
   * leads to the same tables and blobs.
   */
  lemma SyncResumed(libs: Libs, r: Replica, source: Replica, opts: TraversalOpts, inline: InlineOpts,
                    cuts: seq<(nat, bool)>)
    requires CanSync(libs, r, source, opts, inline)
    ensures var sent := Response(libs, source, opts, inline);
            var r' := AfterCuts(libs, r, opts, sent.bytes, cuts);
            var end, end' := Receive(libs, r, GetTraversal(opts), sent.bytes, false),
                             Receive(libs, r', GetTraversal(opts), sent.bytes, false);
            && end'.replica == end.replica && end'.cids == end.cids
            && (FindsLinks(libs, source, opts, inline) ==> end'.error == end.error)
            && (sent.error.None? ==>
                  SyncCommand(libs, r', opts, sent.bytes, false) == SyncCommand(libs, r, opts, sent.bytes, false))
  {
    hide CanSync, InStep, Receive, AfterCuts, Send, Merge, InlinedOf, SentCids, SentTail, WalkAll;
    CanSyncInStep(libs, r, source, opts, inline);
    CutsStayInStep(libs, r, source, opts, inline, cuts);
    FullRun(libs, r, source, GetTraversal(opts), inline, false);
    FullRun(libs, AfterCuts(libs, r, opts, Response(libs, source, opts, inline).bytes, cuts), source,
            GetTraversal(opts), inline, false);
  }

  /** After any cuts a node is still in step, and taking over all that is sent makes up for them. */
  lemma {:induction false} CutsStayInStep(libs: Libs, r: Replica, source: Replica, opts: TraversalOpts,
                                          inline: InlineOpts, cuts: seq<(nat, bool)>)
    requires LibsWork(libs) && InStep(libs, r.tables, source, GetTraversal(opts), inline)
    ensures var end := AfterCuts(libs, r, opts, Response(libs, source, opts, inline).bytes, cuts);
            var whole := InlinedOf(inline, Served(libs, source, opts, inline));
            && InStep(libs, end.tables, source, GetTraversal(opts), inline)
            && Merge(end, source, whole) == Merge(r, source, whole)
    decreases |cuts|
  {
    hide InStep, SyncCommand, Response, Take, Merge;
    if cuts != [] {
      var bytes := Response(libs, source, opts, inline).bytes;
      CutOnce(libs, r, source, opts, inline, cuts[0].0, cuts[0].1);
      var next := SyncCommand(libs, r, opts, Take(bytes, cuts[0].0), cuts[0].1);
      CutsStayInStep(libs, next, source, opts, inline, cuts[1..]);
    }
  }

  lemma CutOnce(libs: Libs, r: Replica, source: Replica, opts: TraversalOpts, inline: InlineOpts, n: nat, lost: bool)
    requires LibsWork(libs) && InStep(libs, r.tables, source, GetTraversal(opts), inline)
    ensures var cut := SyncCommand(libs, r, opts, Take(Response(libs, source, opts, inline).bytes, n), lost);
            var whole := InlinedOf(inline, Served(libs, source, opts, inline));
            && InStep(libs, cut.tables, source, GetTraversal(opts), inline)
            && Merge(cut, source, whole) == Merge(r, source, whole)
  {
    hide Receive, Send, SentCids, Merge, Inner, Children, WalkAll, CutError, FrameSizes, WholeFrames, LeftOver, Take;
    hide CanFollow, NoStaleRows;
    var w, cids := GetTraversal(opts), Served(libs, source, opts, inline);
    var bytes := Take(Response(libs, source, opts, inline).bytes, n);
    var k := WholeFrames(FrameSizes(libs, source, inline, cids), |bytes|);
    assert k <= |cids| by { SameLength(libs, source, inline, cids); }
    var part, whole := InlinedOf(inline, cids[..k]), InlinedOf(inline, cids);
    CutRun(libs, r, source, w, inline, n, lost);
    SentIsRight(libs, source, w, inline, k);
    MergeStaysInStep(libs, r, source, w, inline, part);
    assert part <= whole;
    MergeAgain(r, source, part, whole);
  }

  // ----- two stages

  function Staged(root: Cid, visited: Option<set<Cid>>, filter: TraversalFilter): TraversalOpts {
    FullOpts(root, visited, Some(filter))
  }

  /** One sync of everything that a filter lets through, with all data inlined. */
  function FullSync(libs: Libs, r: Replica, source: Replica, opts: TraversalOpts): Replica {
    SyncCommand(libs, r, opts, Response(libs, source, opts, InlineAll).bytes, false)
  }

  lemma FullSyncMerges(libs: Libs, r: Replica, source: Replica, root: Cid, visited: Option<set<Cid>>,
                       filter: TraversalFilter)
    requires LibsWork(libs) && InStep(libs, r.tables, source, GetTraversal(Staged(root, visited, filter)), InlineAll)
    requires Response(libs, source, Staged(root, visited, filter), InlineAll).error.None?
    ensures FullSync(libs, r, source, Staged(root, visited, filter)) ==
            var cids := Inner(libs, source.tables, GetTraversal(Staged(root, visited, filter)));
            Merge(r, source, Elems(Kept(filter, cids)))
  {
    hide InStep, Merge, Send, Receive, WalkAll, Run, SentCids, SentTail;
    var w := GetTraversal(Staged(root, visited, filter));
    FullRun(libs, r, source, w, InlineAll, false);
    FilteredRun(libs, source.tables, w.state, filter);
    var cids := Kept(filter, Inner(libs, source.tables, w));
    assert InlinedOf(InlineAll, cids) == Elems(cids);
  }

  /** A sender serves a staged request if and only if its traversal ends and it has the data that the filter keeps. */
  lemma ServesStagedIff(libs: Libs, source: Replica, root: Cid, visited: Option<set<Cid>>, filter: TraversalFilter)
    ensures var w := GetTraversal(Staged(root, visited, filter));
            Response(libs, source, Staged(root, visited, filter), InlineAll).error.None? <==>
              && Run(libs, source.tables, w.state).error.None?
              && forall c :: c in Inner(libs, source.tables, w) && Keeps(filter, c) ==> HasBlob(source, c)
  {
    hide WalkAll, Run, Send;
    var w := GetTraversal(Staged(root, visited, filter));
    SendSucceedsIff(libs, source, w, InlineAll);
    FilteredRun(libs, source.tables, w.state, filter);
  }

  /**
   * Two stages: a sync without the raw blocks, then one of just the raw blocks, leaves a node
   * with the same tables and blobs as one sync of everything.
   */
  lemma TwoStages(libs: Libs, r: Replica, source: Replica, root: Cid, visited: Option<set<Cid>>)
    requires CanSync(libs, r, source, Staged(root, visited, All), InlineAll)
    requires Response(libs, source, Staged(root, visited, All), InlineAll).error.None?
    ensures var stem := FullSync(libs, r, source, Staged(root, visited, NoRaw));
            FullSync(libs, stem, source, Staged(root, visited, JustRaw)) ==
            FullSync(libs, r, source, Staged(root, visited, All))
  {
    hide FullSync, Inner, Merge, InStep, CanSync, Response, Run, HasBlob;
    var cids := Inner(libs, source.tables, GetTraversal(Staged(root, visited, All)));
    var stem, leaves := Elems(Kept(NoRaw, cids)), Elems(Kept(JustRaw, cids));
    SameInner(libs, source.tables, root, visited);
    CanSyncInStep(libs, r, source, Staged(root, visited, All), InlineAll);
    ServesStagedIff(libs, source, root, visited, All);
    ServesStagedIff(libs, source, root, visited, NoRaw);
    ServesStagedIff(libs, source, root, visited, JustRaw);
    FullSyncMerges(libs, r, source, root, visited, All);
    StagesInStep(libs, r, source, root, visited);
    FullSyncMerges(libs, r, source, root, visited, NoRaw);
    FullSyncMerges(libs, Merge(r, source, stem), source, root, visited, JustRaw);
    MergeTwice(r, source, stem, leaves);
    assert stem + leaves == Elems(Kept(All, cids));
  }

  lemma SameInner(libs: Libs, t: Rows, root: Cid, visited: Option<set<Cid>>)
    ensures forall f :: Inner(libs, t, GetTraversal(Staged(root, visited, f))) ==
                        Inner(libs, t, GetTraversal(Staged(root, visited, All)))
  {
  }

  lemma StagesInStep(libs: Libs, r: Replica, source: Replica, root: Cid, visited: Option<set<Cid>>)
    requires InStep(libs, r.tables, source, GetTraversal(Staged(root, visited, All)), InlineAll)
    requires forall c :: c in Inner(libs, source.tables, GetTraversal(Staged(root, visited, All))) ==>
      HasBlob(source, c)
    ensures InStep(libs, r.tables, source, GetTraversal(Staged(root, visited, NoRaw)), InlineAll)
    ensures var stem := Elems(Kept(NoRaw, Inner(libs, source.tables, GetTraversal(Staged(root, visited, All)))));
            InStep(libs, Merge(r, source, stem).tables, source, GetTraversal(Staged(root, visited, JustRaw)), InlineAll)
  {
    hide Run, Merge, Faithful, Children;
    var w := GetTraversal(Staged(root, visited, All));
    var cids := Inner(libs, source.tables, w);
    var stem := Elems(Kept(NoRaw, cids));
    assert forall c :: c in cids ==> Delivers(source, w, InlineAll, c);
    assert Supplies(libs, source, stem);
    forall c | c in cids
      ensures c.codec != RAW ==> Agree(Merge(r, source, stem).tables, source.tables, c)
      ensures NoStaleRow(Merge(r, source, stem).tables, source.tables, c)
    {
      MergeKeepsAgreement(libs, r, source, stem, c);
      if c.codec != RAW {
        MergedAgrees(libs, r, source, stem, c);
      }
    }
  }

  /** A sender that holds just the stem below a root can serve it: it need not know of the raw blocks. */
  lemma StemServed(libs: Libs, r: Replica, source: Replica, root: Cid, visited: Option<set<Cid>>)
    requires LibsWork(libs) && libs.LinkRowsInvert() && LinkRowsBacked(libs, r) && NoClash(libs, r, source)
    requires forall c | c in Inner(libs, source.tables, GetTraversal(Staged(root, visited, NoRaw))) ::
      c.codec != RAW ==> Faithful(libs, source, c)
    ensures CanSync(libs, r, source, Staged(root, visited, NoRaw), InlineAll)
    ensures Response(libs, source, Staged(root, visited, NoRaw), InlineAll).error.None?
  {
    hide LinkRowsBacked, NoClash, Faithful, HasBlob, Run, Send, Links;
    var w := GetTraversal(Staged(root, visited, NoRaw));
    ServesStagedIff(libs, source, root, visited, NoRaw);
    forall c | c in Inner(libs, source.tables, w) && c.codec != RAW
      ensures HasBlob(source, c) && Children(libs, source.tables, c).Ok?
    {
      FaithfulHasBlob(libs, source, c);
      FaithfulChildren(libs, source, c);
    }
    FailsOnSomeLinks(libs, source.tables, root, w.state.visited);
  }

  /**
   * The first stage is needed: a sync of just the raw blocks below a root that is not held, and
   * not raw itself, fails before it reads a byte, whatever is sent.
   */
  lemma JustRawNeedsStem(libs: Libs, r: Replica, root: Cid, stream: Bytes, lost: bool)
    requires root.codec != RAW && root.hash !in r.tables.hashToBlake3
    ensures Receive(libs, r, GetTraversal(Staged(root, None, JustRaw)), stream, lost) ==
            Received(r, [], Some(Blake3NotFound))
  {
    hide Next, Receive;
    var s, next := Start(root, {}), State(Some(root), [], {root});
    NextAtTop(libs, r.tables, [root], {});
    NextAfterDeferred(libs, r.tables, next);
    assert Next(libs, r.tables, s) == Yield(root, next);
    assert WalkerNext(libs, r.tables, FullWalker(next, JustRaw)).Failed?;
    ReceiveStep(libs, r, FullWalker(s, JustRaw), stream, lost);
  }

  // ----- any sender

  ghost predicate NoClashIn(libs: Libs, r: Replica, payloads: set<Data>) {
    libs.NoBlake3Clash(r.blobs.Values + payloads)
  }

  lemma NoClashAfter(libs: Libs, r: Replica, t: Rows, stored: Option<Data>, later: set<Data>)
    requires NoClashIn(libs, r, AsSet(stored) + later)
    ensures NoClashIn(libs, r, AsSet(stored))
    ensures NoClashIn(libs, Replica(t, AddBlob(libs, r.blobs, stored)), later)
  {
    assert AddBlob(libs, r.blobs, stored).Values <= r.blobs.Values + AsSet(stored);
  }

  /** The assumption on the data of a run splits into one on the first payload and one on the rest. */
  lemma NoClashSteps(libs: Libs, r: Replica, w: Walker, stream: Bytes, lost: bool)
    requires WalkerNext(libs, r.tables, w).Item?
    requires NoClashIn(libs, r, Payloads(libs, r, w, stream, lost))
    ensures var step := WalkerNext(libs, r.tables, w);
            var got := ReceiveFrame(libs, r.tables, step.cid, stream, lost);
            && ((got.BadFrame? || got.GotFrame?) && got.stored.Some? ==> NoClashIn(libs, r, {got.stored.value}))
            && (got.GotFrame? ==>
                  var r' := Replica(got.tables, AddBlob(libs, r.blobs, got.stored));
                  NoClashIn(libs, r', Payloads(libs, r', step.next, got.rest, lost)))
  {
    hide WalkerNext, ReceiveFrame, AddBlob, NoClashIn;
    var step := WalkerNext(libs, r.tables, w);
    var got := ReceiveFrame(libs, r.tables, step.cid, stream, lost);
    if got.GotFrame? {
      var r' := Replica(got.tables, AddBlob(libs, r.blobs, got.stored));
      NoClashAfter(libs, r, got.tables, got.stored, Payloads(libs, r', step.next, got.rest, lost));
    }
  }

  /**
   * Between `r` and `end` a node lost no blob and no row, and each of its rows is the one it
   * had or is backed: true rows only were added or put in the place of others.
   */
  ghost predicate AddsBackedRows(libs: Libs, r: Replica, end: Replica) {
    && BlobsAddressed(libs, end.blobs) && Extends(r.blobs, end.blobs)
    && r.tables.hashToBlake3.Keys <= end.tables.hashToBlake3.Keys
    && r.tables.dataToLinks.Keys <= end.tables.dataToLinks.Keys
    && (forall mh :: mh in end.tables.hashToBlake3 ==>
          || MappingBacked(libs, end, mh)
          || (mh in r.tables.hashToBlake3 && end.tables.hashToBlake3[mh] == r.tables.hashToBlake3[mh]))
    && (forall key :: key in end.tables.dataToLinks ==>
          || LinkRowBacked(libs, end, key)
          || (key in r.tables.dataToLinks && end.tables.dataToLinks[key] == r.tables.dataToLinks[key]))
  }

  lemma AddsNothing(libs: Libs, r: Replica)
    ensures BlobsAddressed(libs, r.blobs) <==> AddsBackedRows(libs, r, r)
  {
  }

  lemma AddsBackedTwice(libs: Libs, r: Replica, mid: Replica, end: Replica)
    requires AddsBackedRows(libs, r, mid) && AddsBackedRows(libs, mid, end)
    ensures AddsBackedRows(libs, r, end)
  {
  }

  lemma AddedIsAddressed(libs: Libs, r: Replica, end: Replica)
    requires AddsBackedRows(libs, r, end)
    ensures BlobsAddressed(libs, end.blobs)
  {
  }

  lemma BlobKeepsBlobs(libs: Libs, r: Replica, d: Data)
    requires BlobsAddressed(libs, r.blobs) && NoClashIn(libs, r, {d})
    ensures BlobsAddressed(libs, AddBlob(libs, r.blobs, Some(d))) && Extends(r.blobs, AddBlob(libs, r.blobs, Some(d)))
  {
    if libs.blake3(d) in r.blobs {
      assert r.blobs[libs.blake3(d)] in r.blobs.Values + {d} && d in r.blobs.Values + {d};
    }
  }

  /** Whatever a frame is, what it leaves behind is backed. */
  lemma FrameAddsBacked(libs: Libs, r: Replica, c: Cid, stream: Bytes, lost: bool)
    requires BlobsAddressed(libs, r.blobs)
    requires var got := ReceiveFrame(libs, r.tables, c, stream, lost);
      (got.BadFrame? || got.GotFrame?) && got.stored.Some? ==> NoClashIn(libs, r, {got.stored.value})
    ensures var got := ReceiveFrame(libs, r.tables, c, stream, lost);
      && (got.BadFrame? ==> AddsBackedRows(libs, r, r.(blobs := AddBlob(libs, r.blobs, got.stored))))
      && (got.GotFrame? ==> AddsBackedRows(libs, r, Replica(got.tables, AddBlob(libs, r.blobs, got.stored))))
  {
    var got := ReceiveFrame(libs, r.tables, c, stream, lost);
    if (got.BadFrame? || got.GotFrame?) && got.stored.Some? {
      BlobKeepsBlobs(libs, r, got.stored.value);
    }
  }

  /**
   * Whoever sends, and whatever bytes arrive at whatever node: each row in the end is the row that
   * was there before, or is backed by stored data, a mapping with both hashes and a link row with
   * the links. No row and no blob is lost. The only assumptions are a blob store that answers to
   * a hash with data of that hash, and no two data of the run that clash under blake3.
   */
  lemma {:induction false} AnySenderAddsBacked(libs: Libs, r: Replica, w: Walker, stream: Bytes, lost: bool)
    requires BlobsAddressed(libs, r.blobs) && NoClashIn(libs, r, Payloads(libs, r, w, stream, lost))
    ensures AddsBackedRows(libs, r, Receive(libs, r, w, stream, lost).replica)
    decreases |stream|
  {
    hide AddsBackedRows, BlobsAddressed, NoClashIn, Payloads, WalkerNext, ReceiveFrame, AddBlob;
    var step := WalkerNext(libs, r.tables, w);
    AddsNothing(libs, r);
    if step.Item? {
      var got := ReceiveFrame(libs, r.tables, step.cid, stream, lost);
      NoClashSteps(libs, r, w, stream, lost);
      FrameAddsBacked(libs, r, step.cid, stream, lost);
      if got.GotFrame? {
        var next := Replica(got.tables, AddBlob(libs, r.blobs, got.stored));
        AddedIsAddressed(libs, r, next);
        AnySenderAddsBacked(libs, next, step.next, got.rest, lost);
        AddsBackedTwice(libs, r, next, Receive(libs, next, step.next, got.rest, lost).replica);
      }
    }
  }

  lemma AddedToBacked(libs: Libs, r: Replica, end: Replica)
    requires Backed(libs, r) && AddsBackedRows(libs, r, end)
    ensures Backed(libs, end)
  {
  }

  /** In particular a run neither removes nor replaces a blob. */
  lemma BlobsOnlyGrow(libs: Libs, r: Replica, w: Walker, stream: Bytes, lost: bool)
    requires BlobsAddressed(libs, r.blobs) && NoClashIn(libs, r, Payloads(libs, r, w, stream, lost))
    ensures Extends(r.blobs, Receive(libs, r, w, stream, lost).replica.blobs)
  {
    AnySenderAddsBacked(libs, r, w, stream, lost);
  }

  /** So a node whose rows are all backed stays so, whoever sends. */
  lemma AnySenderKeepsBacked(libs: Libs, r: Replica, w: Walker, stream: Bytes, lost: bool)
    requires Backed(libs, r) && NoClashIn(libs, r, Payloads(libs, r, w, stream, lost))
    ensures Backed(libs, Receive(libs, r, w, stream, lost).replica)
  {
    AnySenderAddsBacked(libs, r, w, stream, lost);
    AddedToBacked(libs, r, Receive(libs, r, w, stream, lost).replica);
  }

  lemma AddedToLinkRows(libs: Libs, r: Replica, end: Replica)
    requires LinkRowsBacked(libs, r) && AddsBackedRows(libs, r, end)
    ensures LinkRowsBacked(libs, end)
  {
  }

  /**
   * The same of the sync command, at whatever node. When the receiver fails, the tables are
   * what they were.
   */
  lemma SyncCommandCommits(libs: Libs, r: Replica, opts: TraversalOpts, stream: Bytes, lost: bool)
    ensures Receive(libs, r, GetTraversal(opts), stream, lost).error.Some? ==>
      SyncCommand(libs, r, opts, stream, lost).tables == r.tables
    ensures BlobsAddressed(libs, r.blobs) && NoClashIn(libs, r, Payloads(libs, r, GetTraversal(opts), stream, lost)) ==>
      AddsBackedRows(libs, r, SyncCommand(libs, r, opts, stream, lost))
    ensures Backed(libs, r) && NoClashIn(libs, r, Payloads(libs, r, GetTraversal(opts), stream, lost)) ==>
      Backed(libs, SyncCommand(libs, r, opts, stream, lost))
    ensures LinkRowsBacked(libs, r) && NoClashIn(libs, r, Payloads(libs, r, GetTraversal(opts), stream, lost)) ==>
      LinkRowsBacked(libs, SyncCommand(libs, r, opts, stream, lost))
  {
    hide Receive, GetTraversal, Payloads, NoClashIn;
    if BlobsAddressed(libs, r.blobs) && NoClashIn(libs, r, Payloads(libs, r, GetTraversal(opts), stream, lost)) {
      AnySenderAddsBacked(libs, r, GetTraversal(opts), stream, lost);
      if LinkRowsBacked(libs, r) {
        AddedToLinkRows(libs, r, SyncCommand(libs, r, opts, stream, lost));
      }
      if Backed(libs, r) {
        AddedToBacked(libs, r, SyncCommand(libs, r, opts, stream, lost));
      }
    }
  }
}
