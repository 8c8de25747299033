// Incremental syncs: a node that holds a part of a DAG asks for the rest.
module Incremental {
  import opened Base
  import opened Ipld
  import opened Tables
  import opened Traversal
  import opened Coverage
  import opened Replication
  import opened Sync
  import opened Lockstep
  import opened SyncTheorems

  /** A block that was held faithfully still is after blocks of the source were taken over, with the same links. */
  lemma MergeKeepsFaithful(libs: Libs, r: Replica, source: Replica, cids: set<Cid>, c: Cid)
    requires NoClash(libs, r, source) && Supplies(libs, source, cids) && Faithful(libs, r, c)
    ensures var r' := Merge(r, source, cids);
            Faithful(libs, r', c) && Agree(r'.tables, r.tables, c)
  {
    var h := r.tables.hashToBlake3[c.hash];
    var d, r' := r.blobs[h], Merge(r, source, cids);
    assert d in r.blobs.Values + source.blobs.Values;
    SameMapping(libs, r, source, cids, c);
    assert r'.blobs[h] == d by { SameData(libs, r, source, cids, h); }
    var key := (c.codec, h);
    if x :| x in cids && x.hash in source.tables.hashToBlake3 && key == (x.codec, source.tables.hashToBlake3[x.hash]) {
      assert Faithful(libs, source, x);
      assert source.blobs[h] == d by { SameData(libs, r, source, cids, h); }
    }
  }

  /** What is taken over replaces no mapping of what is held faithfully. */
  lemma SameMapping(libs: Libs, r: Replica, source: Replica, cids: set<Cid>, c: Cid)
    requires NoClash(libs, r, source) && Supplies(libs, source, cids) && Faithful(libs, r, c)
    ensures c.hash in Merge(r, source, cids).tables.hashToBlake3
    ensures Merge(r, source, cids).tables.hashToBlake3[c.hash] == r.tables.hashToBlake3[c.hash]
  {
    var d := r.blobs[r.tables.hashToBlake3[c.hash]];
    assert d in r.blobs.Values + source.blobs.Values;
    if x :| x in cids && x.hash == c.hash {
      assert Faithful(libs, source, x);
      var d' := source.blobs[source.tables.hashToBlake3[x.hash]];
      assert d' in r.blobs.Values + source.blobs.Values;
      assert libs.Hashes(c.hash, d) && libs.Hashes(c.hash, d');
      assert d == d';
    }
  }

  /** Nor any blob. */
  lemma SameData(libs: Libs, r: Replica, source: Replica, cids: set<Cid>, h: Hash)
    requires NoClash(libs, r, source) && Supplies(libs, source, cids)
    requires h in r.blobs && libs.blake3(r.blobs[h]) == h
    ensures var r' := Merge(r, source, cids); h in r'.blobs && r'.blobs[h] == r.blobs[h]
    ensures h in Blake3Hashes(source, cids) ==> h in source.blobs && source.blobs[h] == r.blobs[h]
  {
    if x :| x in cids && x.hash in source.tables.hashToBlake3 && source.tables.hashToBlake3[x.hash] == h {
      assert Faithful(libs, source, x);
      assert r.blobs[h] in r.blobs.Values + source.blobs.Values;
      assert source.blobs[h] in r.blobs.Values + source.blobs.Values;
    }
  }

  function Known(root: Cid, known: set<Cid>): TraversalOpts {
    Staged(root, Some(known), All)
  }

  /** The cids that the sender yields to a request that names `known` as visited. */
  function Missing(libs: Libs, source: Replica, root: Cid, known: set<Cid>): seq<Cid> {
    Run(libs, source.tables, Start(root, known)).out
  }

  /** What was missing is taken over, as it is at the source; what was held faithfully still is, with its links. */
  lemma AfterIncrement(libs: Libs, r: Replica, source: Replica, root: Cid, known: set<Cid>, c: Cid)
    requires CanSync(libs, r, source, Known(root, known), InlineAll)
    requires Response(libs, source, Known(root, known), InlineAll).error.None?
    ensures Run(libs, source.tables, Start(root, known)).error.None?
    ensures var end := FullSync(libs, r, source, Known(root, known));
            && (c in Missing(libs, source, root, known) ==>
                  Faithful(libs, end, c) && Agree(end.tables, source.tables, c))
            && (Faithful(libs, r, c) ==> Faithful(libs, end, c) && Agree(end.tables, r.tables, c))
  {
    hide Merge, Faithful, Run, LinkRowsBacked, NoClash, FullSync, Agree, Children;
    var missing := Missing(libs, source, root, known);
    var taken := Elems(Kept(All, missing));
    CanSyncInStep(libs, r, source, Known(root, known), InlineAll);
    FullSyncMerges(libs, r, source, root, Some(known), All);
    ServesStagedIff(libs, source, root, Some(known), All);
    assert forall x :: x in missing <==> x in taken;
    assert Supplies(libs, source, taken);
    if c in missing {
      BackedAgreesNoClash(libs, r, source, c);
      MergedAgrees(libs, r, source, taken, c);
    }
    if Faithful(libs, r, c) {
      MergeKeepsFaithful(libs, r, source, taken, c);
    }
  }

  /**
   * Incremental sync, as the source sees it: a node names any set as visited. If it holds whatever
   * below the root cannot be reached around that set, it ends with everything below the root.
   */
  lemma IncrementalSync(libs: Libs, r: Replica, source: Replica, root: Cid, known: set<Cid>)
    requires CanSync(libs, r, source, Known(root, known), InlineAll)
    requires Response(libs, source, Known(root, known), InlineAll).error.None?
    requires forall c | c in Run(libs, source.tables, Start(root, {})).out ::
      !Reachable(libs, source.tables, [root], known, c) ==> Faithful(libs, r, c)
    ensures forall c :: c in Run(libs, source.tables, Start(root, {})).out ==>
      Faithful(libs, FullSync(libs, r, source, Known(root, known)), c)
  {
    hide CanSync, Response, Faithful, Run, Reachable, FullSync, Agree;
    forall c | c in Run(libs, source.tables, Start(root, {})).out
      ensures Faithful(libs, FullSync(libs, r, source, Known(root, known)), c)
    {
      AfterIncrement(libs, r, source, root, known, c);
      ExactCoverage(libs, source.tables, root, known);
    }
  }

  /** In particular: when the visited cids below the root link to visited ones only, and are held. */
  lemma IncrementalSyncClosed(libs: Libs, r: Replica, source: Replica, root: Cid, known: set<Cid>)
    requires CanSync(libs, r, source, Known(root, known), InlineAll)
    requires Response(libs, source, Known(root, known), InlineAll).error.None?
    requires ClosedUnderLinks(libs, source.tables, known, Run(libs, source.tables, Start(root, {})).out)
    requires forall c :: c in Run(libs, source.tables, Start(root, {})).out && c in known ==> Faithful(libs, r, c)
    ensures forall c :: c in Run(libs, source.tables, Start(root, {})).out ==>
      Faithful(libs, FullSync(libs, r, source, Known(root, known)), c)
  {
    hide CanSync, Response, Faithful, Run, Reachable, FullSync;
    var all := Run(libs, source.tables, Start(root, {})).out;
    IncrementalTraversal(libs, source.tables, root, known);
    WithoutMembers(all, known);
    ExactCoverage(libs, source.tables, root, known);
    forall c | c in all && c !in known ensures Reachable(libs, source.tables, [root], known, c) {
      assert c in Elems(all) && c in Elems(Run(libs, source.tables, Start(root, known)).out);
    }
    IncrementalSync(libs, r, source, root, known);
  }

  // ----- as the receiver sees it

  /** By its own tables, the node holds everything below `c`, and `c` itself. */
  ghost predicate HoldsBelow(libs: Libs, r: Replica, c: Cid) {
    forall x :: Reachable(libs, r.tables, [c], {}, x) ==> Faithful(libs, r, x)
  }

  /** A visited cid that the request comes upon: the root, or the target of a link of a missing block. */
  ghost predicate CutsOff(libs: Libs, source: Replica, root: Cid, known: set<Cid>, k: Cid) {
    k in known && (k == root || exists c :: c in Missing(libs, source, root, known) && Edge(libs, source.tables, c, k))
  }

  /** `x` was missing, or is below a visited cid that the request came upon. */
  ghost predicate Accounted(libs: Libs, r: Replica, source: Replica, root: Cid, known: set<Cid>, x: Cid) {
    || x in Missing(libs, source, root, known)
    || exists k :: CutsOff(libs, source, root, known, k) && Reachable(libs, r.tables, [k], {}, x)
  }

  lemma KnownIsAccounted(libs: Libs, r: Replica, source: Replica, root: Cid, known: set<Cid>, k: Cid)
    requires CutsOff(libs, source, root, known, k)
    ensures Accounted(libs, r, source, root, known, k)
  {
    ReachableSelf(libs, r.tables, k, {});
  }

  lemma SameEdges(libs: Libs, t: Rows, u: Rows, a: Cid, b: Cid)
    requires Agree(t, u, a)
    ensures Edge(libs, t, a, b) <==> Edge(libs, u, a, b)
  {
    AgreeSameChildren(libs, t, u, a);
  }

  lemma RootAccounted(libs: Libs, r: Replica, source: Replica, root: Cid, known: set<Cid>)
    requires Run(libs, source.tables, Start(root, known)).error.None?
    ensures Accounted(libs, r, source, root, known, root)
  {
    if root in known {
      KnownIsAccounted(libs, r, source, root, known, root);
    } else {
      ReachableSelf(libs, source.tables, root, known);
      ExactCoverage(libs, source.tables, root, known);
    }
  }

  /** A link of the synced node leads from what is accounted for to what is. */
  lemma LinkAccounted(libs: Libs, r: Replica, source: Replica, root: Cid, known: set<Cid>, a: Cid, b: Cid)
    requires CanSync(libs, r, source, Known(root, known), InlineAll)
    requires Response(libs, source, Known(root, known), InlineAll).error.None?
    requires forall k :: CutsOff(libs, source, root, known, k) ==> HoldsBelow(libs, r, k)
    requires Accounted(libs, r, source, root, known, a)
    requires Edge(libs, FullSync(libs, r, source, Known(root, known)).tables, a, b)
    ensures Accounted(libs, r, source, root, known, b)
  {
    hide CanSync, Response, Faithful, Run, Reachable, FullSync, Agree, Edge;
    var end := FullSync(libs, r, source, Known(root, known));
    AfterIncrement(libs, r, source, root, known, a);
    if a in Missing(libs, source, root, known) {
      SameEdges(libs, end.tables, source.tables, a, b);
      if b in known {
        assert CutsOff(libs, source, root, known, b);
        KnownIsAccounted(libs, r, source, root, known, b);
      } else {
        ExactCoverage(libs, source.tables, root, known);
        ReachableStep(libs, source.tables, [root], known, a, b);
      }
    } else {
      var k :| CutsOff(libs, source, root, known, k) && Reachable(libs, r.tables, [k], {}, a);
      SameEdges(libs, end.tables, r.tables, a, b);
      ReachableStep(libs, r.tables, [k], {}, a, b);
    }
  }

  lemma {:induction false} PathAccounted(libs: Libs, r: Replica, source: Replica, root: Cid, known: set<Cid>,
                                         path: seq<Cid>, n: nat)
    requires CanSync(libs, r, source, Known(root, known), InlineAll)
    requires Response(libs, source, Known(root, known), InlineAll).error.None?
    requires forall k :: CutsOff(libs, source, root, known, k) ==> HoldsBelow(libs, r, k)
    requires IsPath(libs, FullSync(libs, r, source, Known(root, known)).tables, [root], {}, path) && n < |path|
    ensures Accounted(libs, r, source, root, known, path[n])
  {
    hide CanSync, Response, FullSync, Edge, Accounted, CutsOff, HoldsBelow, Run;
    if n == 0 {
      AfterIncrement(libs, r, source, root, known, root);
      RootAccounted(libs, r, source, root, known);
    } else {
      PathAccounted(libs, r, source, root, known, path, n - 1);
      LinkAccounted(libs, r, source, root, known, path[n - 1], path[n]);
    }
  }

  /**
   * Incremental sync, as the receiver sees it: a node names any set as visited. If it holds everything
   * below those visited cids that the request comes upon, then it ends with everything below
   * the root: by its own tables nothing is missing there. The last element of a list is such a set.
   */
  lemma IncrementalSyncHolds(libs: Libs, r: Replica, source: Replica, root: Cid, known: set<Cid>)
    requires CanSync(libs, r, source, Known(root, known), InlineAll) && libs.LinkRowsInvert()
    requires Response(libs, source, Known(root, known), InlineAll).error.None?
    requires forall k :: CutsOff(libs, source, root, known, k) ==> HoldsBelow(libs, r, k)
    ensures var end := FullSync(libs, r, source, Known(root, known));
            && HoldsBelow(libs, end, root)
            && Run(libs, end.tables, Start(root, {})).error.None?
  {
    hide CanSync, Response, FullSync, Edge, CutsOff, Run, Faithful, Children, Agree;
    var end := FullSync(libs, r, source, Known(root, known));
    forall x | Reachable(libs, end.tables, [root], {}, x)
      ensures Faithful(libs, end, x) && Children(libs, end.tables, x).Ok?
    {
      var path :| IsPath(libs, end.tables, [root], {}, path) && Last(path) == x;
      PathAccounted(libs, r, source, root, known, path, |path| - 1);
      AfterIncrement(libs, r, source, root, known, x);
      FaithfulChildren(libs, end, x);
    }
    FailsIffLinksMissing(libs, end.tables, root, {});
  }
}
