// Taking over blocks from another node, as one order-free step.
module Replication {
  import opened Base
  import opened Ipld
  import opened Tables

  /** `source` can supply all of `cids`. */
  ghost predicate Supplies(libs: Libs, source: Replica, cids: set<Cid>) {
    forall c :: c in cids ==> Faithful(libs, source, c)
  }

  ghost predicate SuppliesList(libs: Libs, source: Replica, cids: seq<Cid>) {
    forall c :: c in cids ==> Faithful(libs, source, c)
  }

  function Multihashes(cids: set<Cid>): set<Multihash> {
    set c | c in cids :: c.hash
  }

  function Blake3Hashes(source: Replica, cids: set<Cid>): set<Hash> {
    set c | c in cids && c.hash in source.tables.hashToBlake3 :: source.tables.hashToBlake3[c.hash]
  }

  function LinkKeys(source: Replica, cids: set<Cid>): set<(u64, Hash)> {
    set c | c in cids && c.hash in source.tables.hashToBlake3 :: (c.codec, source.tables.hashToBlake3[c.hash])
  }

  function Only<K, V>(m: map<K, V>, keys: set<K>): map<K, V> {
    map k | k in m && k in keys :: m[k]
  }

  /** `r` after it took over the rows and blobs that `source` has for `cids`. */
  function Merge(r: Replica, source: Replica, cids: set<Cid>): Replica {
    Replica(
      Rows(r.tables.hashToBlake3 + Only(source.tables.hashToBlake3, Multihashes(cids)),
           r.tables.dataToLinks + Only(source.tables.dataToLinks, LinkKeys(source, cids))),
      r.blobs + Only(source.blobs, Blake3Hashes(source, cids)))
  }

  /** Taking over blocks in two rounds is taking over all of them at once. */
  lemma MergeTwice(r: Replica, source: Replica, a: set<Cid>, b: set<Cid>)
    ensures Merge(Merge(r, source, a), source, b) == Merge(r, source, a + b)
  {
    assert Multihashes(a + b) == Multihashes(a) + Multihashes(b);
    assert LinkKeys(source, a + b) == LinkKeys(source, a) + LinkKeys(source, b);
    assert Blake3Hashes(source, a + b) == Blake3Hashes(source, a) + Blake3Hashes(source, b);
    OverlayTwice(r.tables.hashToBlake3, source.tables.hashToBlake3, Multihashes(a), Multihashes(b));
    OverlayTwice(r.tables.dataToLinks, source.tables.dataToLinks, LinkKeys(source, a), LinkKeys(source, b));
    OverlayTwice(r.blobs, source.blobs, Blake3Hashes(source, a), Blake3Hashes(source, b));
  }

  lemma OverlayTwice<K, V>(m: map<K, V>, n: map<K, V>, a: set<K>, b: set<K>)
    ensures m + Only(n, a) + Only(n, b) == m + Only(n, a + b)
  {
  }

  lemma MergeNothing(r: Replica, source: Replica)
    ensures Merge(r, source, {}) == r
  {
    assert r.tables.hashToBlake3 + map[] == r.tables.hashToBlake3;
    assert r.tables.dataToLinks + map[] == r.tables.dataToLinks;
    assert r.blobs + map[] == r.blobs;
  }

  /** Storing one faithfully supplied block is merging it. */
  lemma InsertIsMerge(libs: Libs, r: Replica, source: Replica, c: Cid)
    requires Faithful(libs, source, c)
    ensures var h := source.tables.hashToBlake3[c.hash];
            var stored := InsertLinks(libs, r.tables, c, h, source.blobs[h]);
            stored.Ok? && Replica(stored.value, r.blobs[h := source.blobs[h]]) == Merge(r, source, {c})
  {
    var h := source.tables.hashToBlake3[c.hash];
    assert Multihashes({c}) == {c.hash} && Blake3Hashes(source, {c}) == {h} && LinkKeys(source, {c}) == {(c.codec, h)};
    assert r.tables.hashToBlake3[c.hash := h] == r.tables.hashToBlake3 + Only(source.tables.hashToBlake3, {c.hash});
    assert r.blobs[h := source.blobs[h]] == r.blobs + Only(source.blobs, {h});
    var ls := libs.links(source.blobs[h]).value;
    assert (if ls == [] then r.tables.dataToLinks else r.tables.dataToLinks[(c.codec, h) := libs.encodeLinks(ls)])
      == r.tables.dataToLinks + Only(source.tables.dataToLinks, {(c.codec, h)});
  }

  /** What agreed with the source before still does, and there are still no stale rows. */
  lemma MergeKeepsAgreement(libs: Libs, r: Replica, source: Replica, cids: set<Cid>, c: Cid)
    requires Supplies(libs, source, cids) && c.hash in source.tables.hashToBlake3
    ensures Agree(r.tables, source.tables, c) ==> Agree(Merge(r, source, cids).tables, source.tables, c)
    ensures NoStaleRow(r.tables, source.tables, c) ==> NoStaleRow(Merge(r, source, cids).tables, source.tables, c)
  {
  }

  /** What was taken over agrees with the source, and is as faithful. */
  lemma MergedAgrees(libs: Libs, r: Replica, source: Replica, cids: set<Cid>, c: Cid)
    requires Supplies(libs, source, cids) && c in cids
    requires NoStaleRow(r.tables, source.tables, c)
    ensures Agree(Merge(r, source, cids).tables, source.tables, c)
    ensures Faithful(libs, Merge(r, source, cids), c)
  {
    var h := source.tables.hashToBlake3[c.hash];
    assert c.hash in Multihashes(cids) && h in Blake3Hashes(source, cids) && (c.codec, h) in LinkKeys(source, cids);
  }

  /**
   * Storing a block makes it faithfully held if and only if there was no stale row for it: a row
   * for links that its data does not have is never removed.
   */
  lemma MergedFaithfulIff(libs: Libs, r: Replica, source: Replica, c: Cid)
    requires Faithful(libs, source, c)
    ensures Faithful(libs, Merge(r, source, {c}), c) <==> NoStaleRow(r.tables, source.tables, c)
  {
    var h, key := source.tables.hashToBlake3[c.hash], (c.codec, source.tables.hashToBlake3[c.hash]);
    assert Multihashes({c}) == {c.hash} && Blake3Hashes(source, {c}) == {h} && LinkKeys(source, {c}) == {key};
    var r' := Merge(r, source, {c});
    assert r'.tables.hashToBlake3[c.hash] == h && r'.blobs[h] == source.blobs[h];
    assert key in r'.tables.dataToLinks <==> key in r.tables.dataToLinks || key in source.tables.dataToLinks;
  }

  /**
   * With no two of their data clashing: a node whose link rows are backed has no stale rows, and
   * what it holds faithfully agrees with the source.
   */
  lemma BackedAgrees(libs: Libs, r: Replica, source: Replica, c: Cid)
    requires LinkRowsBacked(libs, r) && Faithful(libs, source, c)
    requires libs.NoBlake3Clash(r.blobs.Values + source.blobs.Values)
    requires libs.NoDigestClash(r.blobs.Values + source.blobs.Values)
    ensures NoStaleRow(r.tables, source.tables, c)
    ensures Faithful(libs, r, c) ==> Agree(r.tables, source.tables, c)
  {
    var h := source.tables.hashToBlake3[c.hash];
    var d, ds := source.blobs[h], r.blobs.Values + source.blobs.Values;
    assert d in ds;
    if (c.codec, h) in r.tables.dataToLinks {
      assert r.blobs[h] in ds;
      assert r.blobs[h] == d;
    }
    if Faithful(libs, r, c) {
      var mine := r.blobs[r.tables.hashToBlake3[c.hash]];
      assert mine in ds;
      assert mine == d;
    }
  }
}
