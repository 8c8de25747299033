// Nodes over their whole life: what any imports and syncs leave of a node, and how a node that
// was synced serves others in turn.
module Nodes {
  import opened Base
  import opened Ipld
  import opened Tables
  import opened Traversal
  import opened Coverage
  import opened Replication
  import opened Sync
  import opened Lockstep
  import opened SyncTheorems
  import Car

  // ----- any history

  /** A command that changes a node: an import of any archive, or a sync with whatever bytes arrive. */
  datatype Command =
    | ImportArchive(archive: Bytes)
    | SyncWith(opts: TraversalOpts, stream: Bytes, lost: bool)

  function Execute(libs: Libs, r: Replica, cmd: Command): Replica {
    match cmd
    case ImportArchive(archive) => Car.Import(libs, r, archive).replica
    case SyncWith(opts, stream, lost) => SyncCommand(libs, r, opts, stream, lost)
  }

  /** The data that a command puts into the blob store. */
  function Arrived(libs: Libs, r: Replica, cmd: Command): set<Data> {
    match cmd
    case ImportArchive(archive) => Car.BlockData(Car.Import(libs, r, archive).blocks)
    case SyncWith(opts, stream, lost) => Payloads(libs, r, GetTraversal(opts), stream, lost)
  }

  function ExecuteAll(libs: Libs, r: Replica, cmds: seq<Command>): Replica
    decreases |cmds|
  {
    if cmds == [] then r else ExecuteAll(libs, Execute(libs, r, cmds[0]), cmds[1..])
  }

  function ArrivedInAll(libs: Libs, r: Replica, cmds: seq<Command>): set<Data>
    decreases |cmds|
  {
    if cmds == [] then {}
    else Arrived(libs, r, cmds[0]) + ArrivedInAll(libs, Execute(libs, r, cmds[0]), cmds[1..])
  }

  lemma {:induction false} ReceiveStores(libs: Libs, r: Replica, w: Walker, stream: Bytes, lost: bool)
    ensures Receive(libs, r, w, stream, lost).replica.blobs.Values <=
            r.blobs.Values + Payloads(libs, r, w, stream, lost)
    decreases |stream|
  {
    hide WalkerNext, ReceiveFrame;
    var step := WalkerNext(libs, r.tables, w);
    if step.Item? {
      var got := ReceiveFrame(libs, r.tables, step.cid, stream, lost);
      if got.GotFrame? {
        ReceiveStores(libs, Replica(got.tables, AddBlob(libs, r.blobs, got.stored)), step.next, got.rest, lost);
      }
    }
  }

  lemma {:induction false} ImportStores(libs: Libs, r: Replica, stream: Bytes)
    ensures var end := Car.ImportBlocks(libs, r, stream);
            end.replica.blobs.Values <= r.blobs.Values + Car.BlockData(end.blocks)
    decreases |stream|
  {
    hide Car.ReadBlock;
    var read := Car.ReadBlock(libs, stream);
    if read.GotBlock? && Car.ImportBlock(libs, r, read.cid, read.data).Ok? {
      var next := Car.ImportBlock(libs, r, read.cid, read.data).value;
      var blocks := Car.ImportBlocks(libs, next, read.rest).blocks;
      ImportStores(libs, next, read.rest);
      DataOfFirst(read.cid, read.data, blocks);
    }
  }

  lemma DataOfFirst(c: Cid, d: Data, blocks: seq<(Cid, Data)>)
    ensures Car.BlockData([(c, d)] + blocks) == {d} + Car.BlockData(blocks)
  {
    var all := [(c, d)] + blocks;
    assert all[0].1 == d;
    forall i | 0 <= i < |blocks| ensures blocks[i].1 in Car.BlockData(all) {
      assert all[i + 1] == blocks[i];
    }
  }

  /** A command stores nothing but its data. */
  lemma CommandStores(libs: Libs, r: Replica, cmd: Command)
    ensures Execute(libs, r, cmd).blobs.Values <= r.blobs.Values + Arrived(libs, r, cmd)
  {
    hide Car.ImportBlocks, Receive, Car.ReadFramed;
    match cmd
    case ImportArchive(archive) =>
      var header := Car.ReadFramed(archive);
      if header.Some? {
        ImportStores(libs, r, header.value.1);
      }
    case SyncWith(opts, stream, lost) => ReceiveStores(libs, r, GetTraversal(opts), stream, lost);
  }

  lemma CommandKeepsLinkRows(libs: Libs, r: Replica, cmd: Command)
    requires LinkRowsBacked(libs, r) && libs.NoBlake3Clash(r.blobs.Values + Arrived(libs, r, cmd))
    ensures LinkRowsBacked(libs, Execute(libs, r, cmd))
  {
    hide LinkRowsBacked;
    match cmd
    case ImportArchive(archive) => Car.ImportKeepsLinkRows(libs, r, archive);
    case SyncWith(opts, stream, lost) => SyncCommandCommits(libs, r, opts, stream, lost);
  }

  /**
   * Whatever archives a node imports and whatever senders it syncs with, honest or not, completed or
   * cut: its link rows stay backed. The only assumption is that no two of all data clash under blake3.
   */
  lemma {:induction false} AnyHistoryKeepsLinkRows(libs: Libs, r: Replica, cmds: seq<Command>)
    requires LinkRowsBacked(libs, r) && libs.NoBlake3Clash(r.blobs.Values + ArrivedInAll(libs, r, cmds))
    ensures LinkRowsBacked(libs, ExecuteAll(libs, r, cmds))
    decreases |cmds|
  {
    hide LinkRowsBacked, Execute, Arrived;
    if cmds != [] {
      CommandKeepsLinkRows(libs, r, cmds[0]);
      CommandStores(libs, r, cmds[0]);
      AnyHistoryKeepsLinkRows(libs, Execute(libs, r, cmds[0]), cmds[1..]);
    }
  }

  const EMPTY_NODE := Replica(NO_ROWS, map[])

  /**
   * So every node that began empty can take part in a sync: with an honest source, and every block that
   * is followed delivered or known, all that is proved of syncs applies.
   */
  lemma AnyHistoryCanSync(libs: Libs, cmds: seq<Command>, source: Replica, opts: TraversalOpts, inline: InlineOpts)
    requires LibsWork(libs) && libs.NoBlake3Clash(ArrivedInAll(libs, EMPTY_NODE, cmds))
    requires NoClash(libs, ExecuteAll(libs, EMPTY_NODE, cmds), source)
    requires Honest(libs, source, GetTraversal(opts), inline)
    requires var w := GetTraversal(opts);
      forall c :: c in Inner(libs, source.tables, w) && FollowsLinks(w, c) && Children(libs, source.tables, c).Ok? ==>
        Delivered(w, inline, c) || BothKnow(libs, ExecuteAll(libs, EMPTY_NODE, cmds), source, c)
    ensures CanSync(libs, ExecuteAll(libs, EMPTY_NODE, cmds), source, opts, inline)
  {
    hide ExecuteAll, ArrivedInAll, Inner, Faithful, Honest, NoClash, BothKnow, Children;
    assert EMPTY_NODE.blobs.Values + ArrivedInAll(libs, EMPTY_NODE, cmds) == ArrivedInAll(libs, EMPTY_NODE, cmds);
    AnyHistoryKeepsLinkRows(libs, EMPTY_NODE, cmds);
  }

  // ----- serving in turn

  /** A node answers about `c` as the source does, and holds the same data for it. */
  ghost predicate Mirrors(r: Replica, source: Replica, c: Cid) {
    && Agree(r.tables, source.tables, c) && HasBlob(r, c) && HasBlob(source, c)
    && r.blobs[r.tables.hashToBlake3[c.hash]] == source.blobs[source.tables.hashToBlake3[c.hash]]
  }

  /** A node mirrors all that a traversal yields or follows. It may lack raw cids that the filter rejects. */
  ghost predicate MirrorsFor(libs: Libs, r: Replica, source: Replica, w: Walker) {
    forall c :: c in Inner(libs, source.tables, w) && Needs(w, c) ==> Mirrors(r, source, c)
  }

  ghost predicate Needs(w: Walker, c: Cid) {
    Keeps(FilterOf(w), c) || FollowsLinks(w, c)
  }

  ghost predicate SameDeferred(libs: Libs, t: Rows, u: Rows, w: Walker) {
    w.FullWalker? ==> Deferred(libs, t, w.state) == Deferred(libs, u, w.state)
  }

  lemma MirrorSendsSameItem(libs: Libs, r: Replica, source: Replica, inline: InlineOpts, c: Cid)
    requires Mirrors(r, source, c)
    ensures SendItem(libs, r, inline, c) == SendItem(libs, source, inline, c)
  {
  }

  /** What is left of a traversal after `c` is mirrored like the whole. */
  lemma MirrorsLater(libs: Libs, r: Replica, source: Replica, w: Walker, c: Cid, next: Walker)
    requires MirrorsFor(libs, r, source, w) && c in Inner(libs, source.tables, w)
    requires forall x :: x in Inner(libs, source.tables, next) ==> x in Inner(libs, source.tables, w)
    requires FilterOf(next) == FilterOf(w) && next.FullWalker? == w.FullWalker?
    requires w.FullWalker? ==> next.state.prev == Some(c)
    ensures MirrorsFor(libs, r, source, next) && SameDeferred(libs, r.tables, source.tables, next)
  {
    hide Inner, Agree;
    if FollowsLinks(w, c) {
      AgreeSameChildren(libs, r.tables, source.tables, c);
    }
  }

  lemma {:induction false} MirrorSameNext(libs: Libs, r: Replica, source: Replica, w: Walker)
    requires MirrorsFor(libs, r, source, w) && SameDeferred(libs, r.tables, source.tables, w)
    ensures WalkerNext(libs, r.tables, w) == WalkerNext(libs, source.tables, w)
    decreases Budget(libs, source.tables, w)
  {
    hide Inner, Mirrors;
    if w.FullWalker? {
      var step := Next(libs, source.tables, w.state);
      if step.Yield? && !Keeps(w.filter, step.cid) {
        PendingDecreases(libs, source.tables, w.state);
        InnerSteps(libs, source.tables, w);
        MirrorsLater(libs, r, source, w, step.cid, FullWalker(step.next, w.filter));
        MirrorSameNext(libs, r, source, FullWalker(step.next, w.filter));
      }
    }
  }

  lemma {:induction false} MirrorSends(libs: Libs, r: Replica, source: Replica, w: Walker, inline: InlineOpts)
    requires MirrorsFor(libs, r, source, w) && SameDeferred(libs, r.tables, source.tables, w)
    ensures Send(libs, r, w, inline) == Send(libs, source, w, inline)
    decreases Budget(libs, source.tables, w)
  {
    hide Inner, Mirrors, SendItem, Send, WalkerNext, SameDeferred;
    MirrorSameNext(libs, r, source, w);
    SendStep(libs, r, w, inline);
    SendStep(libs, source, w, inline);
    var step := WalkerNext(libs, source.tables, w);
    if step.Item? {
      ItemIsInner(libs, source.tables, w);
      MirrorSendsSameItem(libs, r, source, inline, step.cid);
      MirrorsLater(libs, r, source, w, step.cid, step.next);
      MirrorSends(libs, r, source, step.next, inline);
    }
  }

  /** What a receiver took over from a source, it mirrors and holds faithfully. */
  lemma TakenMirrors(libs: Libs, r: Replica, source: Replica, cids: set<Cid>, c: Cid)
    requires Supplies(libs, source, cids) && c in cids && NoStaleRow(r.tables, source.tables, c)
    ensures Mirrors(Merge(r, source, cids), source, c) && Faithful(libs, Merge(r, source, cids), c)
  {
    MergedAgrees(libs, r, source, cids, c);
    assert source.tables.hashToBlake3[c.hash] in Blake3Hashes(source, cids);
  }

  /** A sync leaves a mirror of all that was sent with its data. */
  lemma SyncedMirrors(libs: Libs, r: Replica, source: Replica, opts: TraversalOpts, inline: InlineOpts, c: Cid)
    requires CanSync(libs, r, source, opts, inline)
    requires c in Served(libs, source, opts, inline) && Inlines(inline, c)
    ensures var end := Receive(libs, r, GetTraversal(opts), Response(libs, source, opts, inline).bytes, false).replica;
            Mirrors(end, source, c) && Faithful(libs, end, c)
  {
    hide Merge, Mirrors, Faithful, Send, Receive, SentCids, Inner, WalkAll, LinkRowsBacked, NoClash;
    var cids := Served(libs, source, opts, inline);
    SyncLockstep(libs, r, source, opts, inline, false);
    SentIsRight(libs, source, GetTraversal(opts), inline, |cids|);
    assert cids[..|cids|] == cids;
    BackedAgreesNoClash(libs, r, source, c);
    TakenMirrors(libs, r, source, InlinedOf(inline, cids), c);
  }

  /**
   * A node that was synced serves in turn: a request that yields and follows only cids that were
   * requested with their data, it answers with exactly the bytes of the source, and honestly.
   */
  lemma SyncedServes(libs: Libs, r: Replica, source: Replica, opts: TraversalOpts, inline: InlineOpts,
                     opts': TraversalOpts, inline': InlineOpts)
    requires CanSync(libs, r, source, opts, inline) && Response(libs, source, opts, inline).error.None?
    requires forall c :: c in Inner(libs, source.tables, GetTraversal(opts')) && Needs(GetTraversal(opts'), c) ==>
      c in Requested(libs, source, opts) && Inlines(inline, c)
    ensures var end := SyncCommand(libs, r, opts, Response(libs, source, opts, inline).bytes, false);
            && Inner(libs, end.tables, GetTraversal(opts')) == Inner(libs, source.tables, GetTraversal(opts'))
            && Honest(libs, end, GetTraversal(opts'), inline')
            && Response(libs, end, opts', inline') == Response(libs, source, opts', inline')
  {
    hide Mirrors, Faithful, Inner, Send, Receive, SentCids, WalkAll, CanSync;
    var w := GetTraversal(opts');
    var end := SyncCommand(libs, r, opts, Response(libs, source, opts, inline).bytes, false);
    SyncLockstep(libs, r, source, opts, inline, false);
    forall c | c in Inner(libs, source.tables, w) && Needs(w, c)
      ensures Mirrors(end, source, c) && Faithful(libs, end, c)
    {
      SyncedMirrors(libs, r, source, opts, inline, c);
    }
    MirrorSends(libs, end, source, w, inline');
    MirrorsSameInner(libs, end, source, w);
  }

  lemma MirrorsSameInner(libs: Libs, r: Replica, source: Replica, w: Walker)
    requires MirrorsFor(libs, r, source, w) && (w.FullWalker? ==> w.state.prev.None?)
    ensures Inner(libs, r.tables, w) == Inner(libs, source.tables, w)
  {
    if w.FullWalker? {
      assert forall c :: c in Inner(libs, source.tables, w) && c.codec != RAW ==> Mirrors(r, source, c);
      RunAgrees(libs, r.tables, source.tables, w.state);
    }
  }

  /**
   * In particular: after all that a filter keeps below a root, a node answers every request for that root whose
   * filter keeps no more, whatever it names as visited and has inlined. The links must have been kept:
   * so after all blocks it answers any request, and after the stem any request for stem blocks.
   */
  lemma SyncedServesRoot(libs: Libs, r: Replica, source: Replica, root: Cid, filter: TraversalFilter,
                         visited': Option<set<Cid>>, filter': TraversalFilter, inline': InlineOpts)
    requires CanSync(libs, r, source, Staged(root, None, filter), InlineAll)
    requires Response(libs, source, Staged(root, None, filter), InlineAll).error.None?
    requires forall c: Cid :: c.codec != RAW || Keeps(filter', c) ==> Keeps(filter, c)
    ensures var end := FullSync(libs, r, source, Staged(root, None, filter));
            && Honest(libs, end, GetTraversal(Staged(root, visited', filter')), inline')
            && Response(libs, end, Staged(root, visited', filter'), inline') ==
               Response(libs, source, Staged(root, visited', filter'), inline')
  {
    hide Run, CanSync, Send, WalkAll, Honest;
    var opts, opts' := Staged(root, None, filter), Staged(root, visited', filter');
    ServesStagedIff(libs, source, root, None, filter);
    FilteredRun(libs, source.tables, Start(root, {}), filter);
    VisitedNarrows(libs, source.tables, root, if visited'.Some? then visited'.value else {});
    SyncedServes(libs, r, source, opts, InlineAll, opts', inline');
  }
}
