// Archives as files: when an export succeeds, and what an import makes of an archive that is cut.
module Archives {
  import opened Base
  import opened Ipld
  import opened Tables
  import opened Traversal
  import opened Replication
  import opened Car
  import L = Lockstep

  // ----- export

  /** A block can be exported: it is held, and its length fits. */
  ghost predicate Exportable(libs: Libs, source: Replica, c: Cid) {
    && c.hash in source.tables.hashToBlake3
    && source.tables.hashToBlake3[c.hash] in source.blobs
    && |libs.encodeCid(c) + source.blobs[source.tables.hashToBlake3[c.hash]]| < 0x8000_0000_0000_0000
  }

  lemma ItemVerdict(libs: Libs, source: Replica, c: Cid)
    ensures var item := ExportItem(libs, source, c);
            && (item.error.None? <==> Exportable(libs, source, c))
            && (item.error.Some? ==>
                  && item.bytes == []
                  && item.error == Some(if c.hash !in source.tables.hashToBlake3 then Blake3NotFound
                                        else if HasBlob(source, c) then BlockTooLarge
                                        else DataNotFound))
  {
    if HasBlob(source, c) {
      LengthFits(|Block(libs, c, source.blobs[source.tables.hashToBlake3[c.hash]])|);
    }
  }

  /** The framed blocks of `cids`. */
  function Blocks(libs: Libs, source: Replica, cids: seq<Cid>): Bytes {
    if cids == [] then [] else Framed(Block(libs, cids[0], HeldData(source, cids[0]))) + Blocks(libs, source, cids[1..])
  }

  /** The first `k` of the cids `all` are written, and `k` is all of them or the first that cannot be exported. */
  ghost predicate WritesBlocks(libs: Libs, source: Replica, all: seq<Cid>, error: Option<Error>, k: nat,
                               written: Exported)
  {
    && k <= |all| && (forall i :: 0 <= i < k ==> Exportable(libs, source, all[i]))
    && written.bytes == Blocks(libs, source, all[..k])
    && if k == |all| then written.error == error
       else
         && !Exportable(libs, source, all[k])
         && written.error == Some(if all[k].hash !in source.tables.hashToBlake3 then Blake3NotFound
                                  else if HasBlob(source, all[k]) then BlockTooLarge
                                  else DataNotFound)
  }

  lemma WritesFirst(libs: Libs, source: Replica, c: Cid, all: seq<Cid>, error: Option<Error>, k: nat,
                    written: Exported)
    requires WritesBlocks(libs, source, all, error, k, written) && Exportable(libs, source, c)
    ensures WritesBlocks(libs, source, [c] + all, error, k + 1,
                         Exported(ExportItem(libs, source, c).bytes + written.bytes, written.error))
  {
    hide Framed, Block;
    ItemVerdict(libs, source, c);
    var cids := [c] + all;
    assert cids[..k + 1][1..] == all[..k];
    assert forall i :: 0 < i <= k ==> cids[i] == all[i - 1];
  }

  /** Any export writes the blocks of its traversal in order, up to the first that it cannot write. */
  lemma {:induction false} ExportWrites(libs: Libs, source: Replica, w: Walker) returns (k: nat)
    ensures var all := WalkAll(libs, source.tables, w);
            WritesBlocks(libs, source, all.0, all.1, k, ExportBlocks(libs, source, w))
    decreases Budget(libs, source.tables, w)
  {
    hide WalkerNext, ExportItem, WritesBlocks, Exportable;
    var step := WalkerNext(libs, source.tables, w);
    ExportStep(libs, source, w);
    if step.Item? {
      ItemVerdict(libs, source, step.cid);
      if Exportable(libs, source, step.cid) {
        k := ExportWrites(libs, source, step.next);
        var all := WalkAll(libs, source.tables, step.next);
        WritesFirst(libs, source, step.cid, all.0, all.1, k, ExportBlocks(libs, source, step.next));
        k := k + 1;
        return;
      }
    }
    k := 0;
    WritesNothing(libs, source, w);
  }

  lemma WritesNothing(libs: Libs, source: Replica, w: Walker)
    requires var step := WalkerNext(libs, source.tables, w); step.Item? ==> !Exportable(libs, source, step.cid)
    ensures var all := WalkAll(libs, source.tables, w);
            WritesBlocks(libs, source, all.0, all.1, 0, ExportBlocks(libs, source, w))
  {
    hide WalkerNext, ExportItem, Exportable;
    var step := WalkerNext(libs, source.tables, w);
    if step.Item? {
      ItemVerdict(libs, source, step.cid);
    }
  }

  /**
   * An export succeeds if and only if its traversal does, and every cid has a mapping, data, and a block of less
   * than two to the power of 63 bytes. Then the archive is the header and all blocks.
   */
  lemma ExportSucceedsIff(libs: Libs, source: Replica, w: Walker)
    ensures var all, archive := WalkAll(libs, source.tables, w), Export(libs, source, w);
            && (archive.error.None? <==>
                  all.1.None? && forall c :: c in all.0 ==> Exportable(libs, source, c))
            && (archive.error.None? ==>
                  archive.bytes == Framed(libs.encodeRoots(Roots(w))) + Blocks(libs, source, all.0))
  {
    hide Exportable, WalkAll, ExportBlocks, Framed;
    var all := WalkAll(libs, source.tables, w).0;
    var k := ExportWrites(libs, source, w);
    if k == |all| {
      assert all[..k] == all;
    } else {
      assert all[k] in all;
    }
  }

  // ----- archives that are cut

  /** A part of an archive that is cut is not read. */
  lemma FramedCut(block: Bytes, n: nat)
    requires n < |Framed(block)|
    ensures ReadFramed(Framed(block)[..n]) == None
  {
    var length := Varint(|block|);
    if n < |length| {
      L.CutInFirst(length, block, n);
      VarintCut(|block|, n);
    } else {
      L.CutInSecond(length, block, n);
      VarintRoundTrip(|block|, block[..n - |length|]);
    }
  }

  /** Nothing but the end of the archive is no block. */
  lemma NoBlockIff(libs: Libs, stream: Bytes)
    ensures ReadBlock(libs, stream).NoBlock? <==> stream == []
  {
  }

  lemma BlockCut(libs: Libs, c: Cid, d: Data, n: nat)
    requires n < |Framed(Block(libs, c, d))|
    ensures ReadBlock(libs, Framed(Block(libs, c, d))[..n]) == if n == 0 then NoBlock else Unreadable
  {
    FramedCut(Block(libs, c, d), n);
  }

  function Sizes(libs: Libs, source: Replica, cids: seq<Cid>): seq<nat> {
    seq(|cids|, i requires 0 <= i < |cids| => |Framed(Block(libs, cids[i], HeldData(source, cids[i])))|)
  }

  lemma SizesOfFirst(libs: Libs, source: Replica, cids: seq<Cid>)
    requires cids != []
    ensures Sizes(libs, source, cids)[0] == |Framed(Block(libs, cids[0], HeldData(source, cids[0])))|
    ensures Sizes(libs, source, cids)[1..] == Sizes(libs, source, cids[1..])
  {
    hide Framed, Block;
  }

  ghost predicate Supplied(libs: Libs, source: Replica, cids: seq<Cid>) {
    SuppliesList(libs, source, cids) && forall c :: c in cids ==> FitsBuffer(libs, source, c)
  }

  /** The import of the first `n` bytes of some blocks: the whole ones are imported, and more is an error. */
  lemma {:induction false} ImportCut(libs: Libs, r: Replica, source: Replica, cids: seq<Cid>, n: nat)
    requires libs.CidInverts() && Supplied(libs, source, cids) && n <= |Blocks(libs, source, cids)|
    ensures var k := L.WholeFrames(Sizes(libs, source, cids), n);
            var end := ImportBlocks(libs, r, Blocks(libs, source, cids)[..n]);
            && end.replica == Merge(r, source, Elems(cids[..k])) && end.blocks == Pairs(source, cids[..k])
            && (end.error.None? <==> L.LeftOver(Sizes(libs, source, cids), n) == 0)
    decreases |cids|
  {
    hide Framed, Block, HeldData, Merge, FitsBuffer, Faithful, ReadBlock, ImportBlock, Sizes, ImportBlocks;
    if cids == [] {
      NothingImported(libs, r, source);
      assert |Sizes(libs, source, cids)| == 0 by { SizesLength(libs, source, cids); }
      NoBlockIff(libs, []);
      ImportStep(libs, r, []);
      assert cids[..0] == [];
    } else {
      var c, rest := cids[0], cids[1..];
      var d := HeldData(source, c);
      var first, later := Framed(Block(libs, c, d)), Blocks(libs, source, rest);
      SizesLength(libs, source, cids);
      SizesOfFirst(libs, source, cids);
      if n < |first| {
        L.CutInFirst(first, later, n);
        BlockCut(libs, c, d, n);
        ImportStep(libs, r, first[..n]);
        NothingImported(libs, r, source);
        assert cids[..0] == [];
      } else {
        var k := L.WholeFrames(Sizes(libs, source, rest), n - |first|);
        L.CutInSecond(first, later, n);
        ImportOnBlock(libs, r, source, c, later[..n - |first|]);
        ImportCut(libs, Merge(r, source, {c}), source, rest, n - |first|);
        SizesLength(libs, source, rest);
        assert cids[..k + 1] == [c] + rest[..k];
        MergeTwice(r, source, {c}, Elems(rest[..k]));
        ConsElems(c, rest[..k]);
        assert ([c] + rest[..k])[1..] == rest[..k];
      }
    }
  }

  lemma SizesLength(libs: Libs, source: Replica, cids: seq<Cid>)
    ensures |Sizes(libs, source, cids)| == |cids|
  {
  }

  lemma NothingImported(libs: Libs, r: Replica, source: Replica)
    ensures Merge(r, source, Elems([])) == r && Pairs(source, []) == []
  {
    assert Elems<Cid>([]) == {};
    MergeNothing(r, source);
  }

  /**
   * An archive that is cut at any byte, of an export of blocks that are held faithfully: the import succeeds if and
   * only if the cut is after the header, at the end of a block. It then takes over the blocks before the
   * cut, and else leaves the tables alone.
   */
  lemma ArchiveCut(libs: Libs, r: Replica, source: Replica, w: Walker, n: nat)
    requires ArchivesWork(libs) && Export(libs, source, w).error.None? && n <= |Export(libs, source, w).bytes|
    requires Supplied(libs, source, WalkAll(libs, source.tables, w).0)
    requires Roots(w) != [] && |libs.encodeRoots(Roots(w))| < LENGTH_LIMIT
    ensures var cids, header := WalkAll(libs, source.tables, w).0, |Framed(libs.encodeRoots(Roots(w)))|;
            var end := Import(libs, r, Export(libs, source, w).bytes[..n]);
            if n < header then end == Imported(r, [], Some(BadBlock))
            else
              var k := L.WholeFrames(Sizes(libs, source, cids), n - header);
              && end.blocks == Pairs(source, cids[..k])
              && (end.error.None? <==> L.LeftOver(Sizes(libs, source, cids), n - header) == 0)
              && (end.error.None? ==> end.replica == Merge(r, source, Elems(cids[..k])))
              && (end.error.Some? ==> end.replica.tables == r.tables)
  {
    hide WalkAll, ExportBlocks, Framed, Merge, Sizes, ImportBlocks, ReadFramed, Pairs, Blocks, Exportable;
    hide L.WholeFrames, L.LeftOver, Supplied;
    ExportSucceedsIff(libs, source, w);
    var cids, roots := WalkAll(libs, source.tables, w).0, libs.encodeRoots(Roots(w));
    var header, blocks := Framed(roots), Blocks(libs, source, cids);
    assert Export(libs, source, w).bytes == header + blocks;
    assert libs.decodeRoots(roots) == Some(Roots(w));
    if n < |header| {
      L.CutInFirst(header, blocks, n);
      FramedCut(roots, n);
    } else {
      L.CutInSecond(header, blocks, n);
      FramedRead(roots, blocks[..n - |header|]);
      ImportCut(libs, r, source, cids, n - |header|);
    }
  }

  /** An archive whose header cannot be decoded is not imported at all. */
  lemma BadHeaderFails(libs: Libs, r: Replica, header: Bytes, rest: Bytes)
    requires |header| < LENGTH_LIMIT && libs.decodeRoots(header) == None
    ensures Import(libs, r, Framed(header) + rest) == Imported(r, [], Some(BadBlock))
  {
    hide Framed, ReadFramed, ImportBlocks;
    FramedRead(header, rest);
  }
}
