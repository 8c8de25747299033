// Export of a traversal to an archive, and import of an archive (iroh-dag-sync/src/main.rs,
// and the "Data" section of the CARv1 specification for the reader).
module Car {
  import opened Base
  import opened Ipld
  import opened Tables
  import opened Traversal
  import opened Replication

  // ----- lengths

  /** Unsigned LEB128: seven bits a byte, low bits first, the high bit set on all but the last byte. */
  function Varint(n: nat): (r: Bytes)
    ensures r != []
  {
    if n < 128 then [n] else [n % 128 + 128] + Varint(n / 128)
  }

  /** The number at the start of a stream, and how many bytes it takes. */
  function ReadVarint(s: Bytes): (r: Option<(nat, nat)>)
    ensures r.Some? ==> 0 < r.value.1 <= |s|
  {
    if s == [] then None
    else if s[0] < 128 then Some((s[0], 1))
    else match ReadVarint(s[1..])
      case None => None
      case Some((high, size)) => Some((s[0] - 128 + 128 * high, size + 1))
  }

  lemma {:induction false} VarintRoundTrip(n: nat, rest: Bytes)
    ensures ReadVarint(Varint(n) + rest) == Some((n, |Varint(n)|))
  {
    var bytes := Varint(n) + rest;
    if n >= 128 {
      VarintRoundTrip(n / 128, rest);
      assert bytes[1..] == Varint(n / 128) + rest;
    }
  }

  function Pow128(k: nat): nat {
    if k == 0 then 1 else 128 * Pow128(k - 1)
  }

  /** `k` bytes hold exactly the numbers below 128 to the power of `k`. */
  lemma {:induction false} VarintSize(n: nat, k: nat)
    requires k > 0
    ensures |Varint(n)| <= k <==> n < Pow128(k)
  {
    if n >= 128 && k > 1 {
      VarintSize(n / 128, k - 1);
    } else if n >= 128 {
      assert Pow128(1) == 128;
    } else {
      PowGrows(k);
    }
  }

  lemma PowGrows(k: nat)
    requires k > 0
    ensures Pow128(k) >= 128
  {
    if k > 1 {
      PowGrows(k - 1);
    }
  }

  /** The size of the buffer for the length of a block. */
  const LENGTH_BUFFER: nat := 9

  const LENGTH_LIMIT: nat := 0x8000_0000_0000_0000

  lemma LengthFits(n: nat)
    ensures |Varint(n)| <= LENGTH_BUFFER <==> n < LENGTH_LIMIT
  {
    VarintSize(n, 9);
    assert Pow128(3) == 0x20_0000;
    assert Pow128(6) == 0x400_0000_0000;
    assert Pow128(9) == 0x8000_0000_0000_0000;
  }

  /** The form of a length: the high bit is set on all bytes but the last, and the low bits come first. */
  lemma {:induction false} VarintFormat(n: nat)
    ensures var r := Varint(n);
            && Last(r) < 128 && (forall i :: 0 <= i < |r| - 1 ==> r[i] >= 128)
            && r[0] % 128 == n % 128
            && (n < 128 <==> |r| == 1) && (n >= 128 ==> r[1..] == Varint(n / 128))
  {
    if n >= 128 {
      VarintFormat(n / 128);
      assert Varint(n)[1..] == Varint(n / 128);
    }
  }

  /** No proper prefix of a length is a length. */
  lemma {:induction false} VarintCut(n: nat, k: nat)
    requires k < |Varint(n)|
    ensures ReadVarint(Varint(n)[..k]) == None
  {
    if n >= 128 && k > 0 {
      VarintCut(n / 128, k - 1);
      assert Varint(n)[..k][1..] == Varint(n / 128)[..k - 1];
    }
  }

  // ----- export

  datatype Exported = Exported(bytes: Bytes, error: Option<Error>)

  function Block(libs: Libs, c: Cid, d: Data): Bytes {
    libs.encodeCid(c) + d
  }

  function Framed(block: Bytes): Bytes {
    Varint(|block|) + block
  }

  /** What is written for one cid. */
  function ExportItem(libs: Libs, source: Replica, c: Cid): Exported {
    if c.hash !in source.tables.hashToBlake3 then Exported([], Some(Blake3NotFound))
    else
      var h := source.tables.hashToBlake3[c.hash];
      if h !in source.blobs then Exported([], Some(DataNotFound))
      else
        var block := Block(libs, c, source.blobs[h]);
        if |Varint(|block|)| > LENGTH_BUFFER then Exported([], Some(BlockTooLarge))
        else Exported(Framed(block), None)
  }

  /** The blocks of a traversal over fixed tables and blobs. */
  function ExportBlocks(libs: Libs, source: Replica, w: Walker): Exported
    decreases Budget(libs, source.tables, w)
  {
    match WalkerNext(libs, source.tables, w)
    case Failed(e, _) => Exported([], Some(e))
    case End(_) => Exported([], None)
    case Item(c, next) =>
      var item := ExportItem(libs, source, c);
      if item.error.Some? then item
      else
        var later := ExportBlocks(libs, source, next);
        Exported(item.bytes + later.bytes, later.error)
  }

  lemma ExportStep(libs: Libs, source: Replica, w: Walker)
    ensures var step := WalkerNext(libs, source.tables, w);
            ExportBlocks(libs, source, w) ==
              if step.Failed? then Exported([], Some(step.error))
              else if step.End? then Exported([], None)
              else
                var item, later := ExportItem(libs, source, step.cid), ExportBlocks(libs, source, step.next);
                if item.error.Some? then item else Exported(item.bytes + later.bytes, later.error)
  {
  }

  function Export(libs: Libs, source: Replica, w: Walker): Exported {
    var blocks := ExportBlocks(libs, source, w);
    blocks.(bytes := Framed(libs.encodeRoots(Roots(w))) + blocks.bytes)
  }

  // ----- import

  datatype BlockRead = NoBlock | Unreadable | GotBlock(cid: Cid, data: Data, rest: Bytes)

  /** The next length-prefixed part of an archive, and what follows. */
  function ReadFramed(stream: Bytes): (r: Option<(Bytes, Bytes)>)
    ensures r.Some? ==> |r.value.1| < |stream| && |r.value.0| < 0x1_0000_0000_0000_0000
  {
    match ReadVarint(stream)
    case None => None
    case Some((length, size)) =>
      if length >= 0x1_0000_0000_0000_0000 || |stream| - size < length then None
      else Some((stream[size..size + length], stream[size + length..]))
  }

  function ReadBlock(libs: Libs, stream: Bytes): (r: BlockRead)
    ensures r.GotBlock? ==> |r.rest| < |stream|
  {
    if stream == [] then NoBlock
    else match ReadFramed(stream)
      case None => Unreadable
      case Some((block, rest)) =>
        match libs.decodeCid(block)
        case None => Unreadable
        case Some((c, size)) => if size <= |block| then GotBlock(c, block[size..], rest) else Unreadable
  }

  /** Import of one block. Its data is not compared with the hash in its cid. */
  function ImportBlock(libs: Libs, r: Replica, c: Cid, d: Data): Result<Replica, Error> {
    match InsertLinks(libs, r.tables, c, libs.blake3(d), d)
    case Err(e) => Err(e)
    case Ok(t) => Ok(Replica(t, r.blobs[libs.blake3(d) := d]))
  }

  datatype Imported = Imported(replica: Replica, blocks: seq<(Cid, Data)>, error: Option<Error>)

  /** Imports block by block, to the end of the stream or the first error. */
  function ImportBlocks(libs: Libs, r: Replica, stream: Bytes): Imported
    decreases |stream|
  {
    match ReadBlock(libs, stream)
    case NoBlock => Imported(r, [], None)
    case Unreadable => Imported(r, [], Some(BadBlock))
    case GotBlock(c, d, rest) =>
      match ImportBlock(libs, r, c, d)
      case Err(e) => Imported(r, [], Some(e))
      case Ok(r') =>
        var later := ImportBlocks(libs, r', rest);
        later.(blocks := [(c, d)] + later.blocks)
  }

  lemma ImportStep(libs: Libs, r: Replica, stream: Bytes)
    ensures var read := ReadBlock(libs, stream);
            ImportBlocks(libs, r, stream) ==
              if read.NoBlock? then Imported(r, [], None)
              else if read.Unreadable? then Imported(r, [], Some(BadBlock))
              else
                var stored := ImportBlock(libs, r, read.cid, read.data);
                if stored.Err? then Imported(r, [], Some(stored.error))
                else
                  var later := ImportBlocks(libs, stored.value, read.rest);
                  later.(blocks := [(read.cid, read.data)] + later.blocks)
  {
  }

  /** The import command: the tables are committed only at the end of a readable archive. */
  function Import(libs: Libs, r: Replica, stream: Bytes): Imported {
    match ReadFramed(stream)
    case None => Imported(r, [], Some(BadBlock))
    case Some((header, rest)) =>
      if libs.decodeRoots(header).None? then Imported(r, [], Some(BadBlock))
      else
        var end := ImportBlocks(libs, r, rest);
        if end.error.None? then end else end.(replica := end.replica.(tables := r.tables))
  }

  // ----- export, then import

  ghost predicate ArchivesWork(libs: Libs) {
    libs.LinkRowsInvert() && libs.CidInverts() && libs.RootsInvert()
  }

  function HeldData(source: Replica, c: Cid): Data {
    if c.hash in source.tables.hashToBlake3 && source.tables.hashToBlake3[c.hash] in source.blobs
    then source.blobs[source.tables.hashToBlake3[c.hash]]
    else []
  }

  ghost predicate FitsBuffer(libs: Libs, source: Replica, c: Cid) {
    |Block(libs, c, HeldData(source, c))| < LENGTH_LIMIT
  }

  function Pairs(source: Replica, cids: seq<Cid>): (r: seq<(Cid, Data)>)
    ensures |r| == |cids|
  {
    if cids == [] then [] else [(cids[0], HeldData(source, cids[0]))] + Pairs(source, cids[1..])
  }

  lemma FramedRead(block: Bytes, rest: Bytes)
    requires |block| < LENGTH_LIMIT
    ensures ReadFramed(Framed(block) + rest) == Some((block, rest))
    ensures Framed(block) + rest != []
  {
    var length := Varint(|block|);
    var stream := Framed(block) + rest;
    assert stream == length + (block + rest);
    VarintRoundTrip(|block|, block + rest);
    assert stream[|length|..|length| + |block|] == block;
    assert stream[|length| + |block|..] == rest;
  }

  lemma BlockReadBack(libs: Libs, c: Cid, d: Data, rest: Bytes)
    requires libs.CidInverts() && |Block(libs, c, d)| < LENGTH_LIMIT
    ensures ReadBlock(libs, Framed(Block(libs, c, d)) + rest) == GotBlock(c, d, rest)
  {
    FramedRead(Block(libs, c, d), rest);
    assert Block(libs, c, d)[|libs.encodeCid(c)|..] == d;
  }

  /** A faithfully held block is imported as it was held. */
  lemma ImportIsMerge(libs: Libs, r: Replica, source: Replica, c: Cid)
    requires Faithful(libs, source, c)
    ensures ImportBlock(libs, r, c, HeldData(source, c)) == Ok(Merge(r, source, {c}))
  {
    InsertIsMerge(libs, r, source, c);
  }

  lemma ImportOnBlock(libs: Libs, r: Replica, source: Replica, c: Cid, rest: Bytes)
    requires libs.CidInverts() && Faithful(libs, source, c) && FitsBuffer(libs, source, c)
    ensures var later := ImportBlocks(libs, Merge(r, source, {c}), rest);
            ImportBlocks(libs, r, Framed(Block(libs, c, HeldData(source, c))) + rest) ==
              later.(blocks := [(c, HeldData(source, c))] + later.blocks)
  {
    hide Framed, Block, HeldData, ReadBlock, ImportBlock, Merge;
    BlockReadBack(libs, c, HeldData(source, c), rest);
    ImportIsMerge(libs, r, source, c);
  }

  lemma ExportOnItem(libs: Libs, source: Replica, w: Walker)
    requires WalkerNext(libs, source.tables, w).Item?
    requires HasBlob(source, WalkerNext(libs, source.tables, w).cid)
    ensures var step := WalkerNext(libs, source.tables, w);
            var later := ExportBlocks(libs, source, step.next);
            ExportBlocks(libs, source, w) ==
              if FitsBuffer(libs, source, step.cid)
              then later.(bytes := Framed(Block(libs, step.cid, HeldData(source, step.cid))) + later.bytes)
              else Exported([], Some(BlockTooLarge))
  {
    hide WalkerNext, Framed, Varint;
    var c := WalkerNext(libs, source.tables, w).cid;
    LengthFits(|Block(libs, c, HeldData(source, c))|);
  }

  /**
   * An export of blocks that are all held fails if and only if one of them is too large for
   * the length buffer.
   */
  lemma {:induction false} ExportFailsIffTooLarge(libs: Libs, source: Replica, w: Walker)
    requires WalkAll(libs, source.tables, w).1 == None
    requires forall c :: c in WalkAll(libs, source.tables, w).0 ==> HasBlob(source, c)
    ensures ExportBlocks(libs, source, w).error.None? <==>
            forall c :: c in WalkAll(libs, source.tables, w).0 ==> FitsBuffer(libs, source, c)
    decreases Budget(libs, source.tables, w)
  {
    hide HasBlob, FitsBuffer, WalkerNext, Framed;
    var step := WalkerNext(libs, source.tables, w);
    if step.Item? {
      WalkAllOnItem(libs, source.tables, w);
      assert step.cid in WalkAll(libs, source.tables, w).0;
      ExportOnItem(libs, source, w);
      ExportFailsIffTooLarge(libs, source, step.next);
    }
  }

  /** Exported blocks are imported as the same list, into any node, as if merged from the source. */
  lemma {:induction false} ImportExported(libs: Libs, r: Replica, source: Replica, w: Walker)
    requires libs.CidInverts()
    requires WalkAll(libs, source.tables, w).1 == None
    requires SuppliesList(libs, source, WalkAll(libs, source.tables, w).0)
    requires forall c :: c in WalkAll(libs, source.tables, w).0 ==> FitsBuffer(libs, source, c)
    ensures var cids := WalkAll(libs, source.tables, w).0;
            ImportBlocks(libs, r, ExportBlocks(libs, source, w).bytes) ==
              Imported(Merge(r, source, Elems(cids)), Pairs(source, cids), None)
    decreases Budget(libs, source.tables, w)
  {
    hide Faithful, FitsBuffer, WalkerNext, Framed, Merge, Block, HeldData, ImportBlock;
    var step := WalkerNext(libs, source.tables, w);
    if step.Item? {
      var c, cids := step.cid, WalkAll(libs, source.tables, step.next).0;
      WalkAllOnItem(libs, source.tables, w);
      assert ([c] + cids)[1..] == cids;
      assert c in WalkAll(libs, source.tables, w).0;
      FaithfulHasBlob(libs, source, c);
      ExportOnItem(libs, source, w);
      ImportOnBlock(libs, r, source, c, ExportBlocks(libs, source, step.next).bytes);
      ImportExported(libs, Merge(r, source, {c}), source, step.next);
      MergeTwice(r, source, {c}, Elems(cids));
      ConsElems(c, cids);
    } else {
      MergeNothing(r, source);
      assert Elems<Cid>([]) == {};
    }
  }

  /**
   * Export, then import into an empty node: the archive is read back as the blocks of the
   * traversal, in order, and a traversal of the new node from the same root yields the same cids.
   */
  lemma ExportThenImport(libs: Libs, source: Replica, root: Cid)
    requires ArchivesWork(libs)
    requires SuppliesList(libs, source, Run(libs, source.tables, Start(root, {})).out)
    requires Run(libs, source.tables, Start(root, {})).error.None?
    requires forall c :: c in Run(libs, source.tables, Start(root, {})).out ==> FitsBuffer(libs, source, c)
    requires |libs.encodeRoots([root])| < LENGTH_LIMIT
    ensures var cids := Run(libs, source.tables, Start(root, {})).out;
            var archive := Export(libs, source, FullWalker(Start(root, {}), All));
            var end := Import(libs, Replica(NO_ROWS, map[]), archive.bytes);
            && archive.error == None && end.error == None
            && end.blocks == Pairs(source, cids)
            && Run(libs, end.replica.tables, Start(root, {})) == Run(libs, source.tables, Start(root, {}))
            && (forall c :: c in cids ==> Faithful(libs, end.replica, c))
  {
    hide Faithful, HasBlob, FitsBuffer, Framed, Merge, Block, HeldData, ImportBlock, ExportBlocks, ImportBlocks;
    hide ReadFramed;
    var s, empty := Start(root, {}), Replica(NO_ROWS, map[]);
    var w, cids := FullWalker(s, All), Run(libs, source.tables, s).out;
    FilteredRun(libs, source.tables, s, All);
    KeptAll(cids);
    forall c | c in cids ensures HasBlob(source, c) {
      FaithfulHasBlob(libs, source, c);
    }
    ExportFailsIffTooLarge(libs, source, w);
    ImportExported(libs, empty, source, w);
    var header := libs.encodeRoots([root]);
    assert libs.decodeRoots(header) == Some([root]);
    FramedRead(header, ExportBlocks(libs, source, w).bytes);
    forall c | c in cids
      ensures Agree(Merge(empty, source, Elems(cids)).tables, source.tables, c)
      ensures Faithful(libs, Merge(empty, source, Elems(cids)), c)
    {
      TakenFromEmpty(libs, source, Elems(cids), c);
    }
    RunAgrees(libs, Merge(empty, source, Elems(cids)).tables, source.tables, s);
  }

  lemma TakenFromEmpty(libs: Libs, source: Replica, cids: set<Cid>, c: Cid)
    requires Supplies(libs, source, cids) && c in cids
    ensures var r := Merge(Replica(NO_ROWS, map[]), source, cids);
            Agree(r.tables, source.tables, c) && Faithful(libs, r, c)
  {
    MergedAgrees(libs, Replica(NO_ROWS, map[]), source, cids, c);
  }

  // ----- import of any archive

  function BlockData(blocks: seq<(Cid, Data)>): set<Data> {
    set i | 0 <= i < |blocks| :: blocks[i].1
  }

  /** Block `i` is the last with its multihash. */
  predicate IsLast(blocks: seq<(Cid, Data)>, i: nat)
    requires i < |blocks|
  {
    forall j :: i < j < |blocks| ==> blocks[j].0.hash != blocks[i].0.hash
  }

  /** For every multihash, the last block with it has data with this hash. */
  ghost predicate LastHashed(libs: Libs, blocks: seq<(Cid, Data)>) {
    forall i :: 0 <= i < |blocks| && IsLast(blocks, i) ==> libs.Hashes(blocks[i].0.hash, blocks[i].1)
  }

  /** The data of the last block with a multihash. */
  function LastData(blocks: seq<(Cid, Data)>, mh: Multihash): Option<Data> {
    if blocks == [] then None
    else if LastData(blocks[1..], mh).Some? then LastData(blocks[1..], mh)
    else if blocks[0].0.hash == mh then Some(blocks[0].1)
    else None
  }

  lemma {:induction false} LastDataMeaning(blocks: seq<(Cid, Data)>, mh: Multihash)
    ensures match LastData(blocks, mh)
            case Some(d) =>
              exists i :: 0 <= i < |blocks| && IsLast(blocks, i) && blocks[i].0.hash == mh && blocks[i].1 == d
            case None => forall i :: 0 <= i < |blocks| ==> blocks[i].0.hash != mh
  {
    if blocks != [] {
      var rest := blocks[1..];
      LastDataMeaning(rest, mh);
      if LastData(rest, mh).Some? {
        var i :| 0 <= i < |rest| && IsLast(rest, i) && rest[i].0.hash == mh && rest[i].1 == LastData(rest, mh).value;
        assert IsLast(blocks, i + 1);
      } else if blocks[0].0.hash == mh {
        assert IsLast(blocks, 0);
      }
    }
  }

  lemma LastHashedIff(libs: Libs, blocks: seq<(Cid, Data)>)
    ensures LastHashed(libs, blocks) <==>
            forall mh :: LastData(blocks, mh).Some? ==> libs.Hashes(mh, LastData(blocks, mh).value)
  {
    forall mh ensures LastHashed(libs, blocks) && LastData(blocks, mh).Some? ==>
                      libs.Hashes(mh, LastData(blocks, mh).value)
    {
      LastDataMeaning(blocks, mh);
    }
    if !LastHashed(libs, blocks) {
      var i :| 0 <= i < |blocks| && IsLast(blocks, i) && !libs.Hashes(blocks[i].0.hash, blocks[i].1);
      LastDataMeaning(blocks, blocks[i].0.hash);
      assert LastData(blocks, blocks[i].0.hash) == Some(blocks[i].1);
    }
  }

  /**
   * From `r`, the import of `blocks` led to `end`: all that was stored is still there, each link row
   * is the old one or is backed, and the mappings are the old ones under the last of each block.
   */
  ghost predicate ImportLedTo(libs: Libs, r: Replica, blocks: seq<(Cid, Data)>, end: Replica) {
    && BlobsAddressed(libs, end.blobs) && Extends(r.blobs, end.blobs)
    && (forall key :: key in end.tables.dataToLinks ==>
          || LinkRowBacked(libs, end, key)
          || (key in r.tables.dataToLinks && end.tables.dataToLinks[key] == r.tables.dataToLinks[key]))
    && (forall mh :: LastMapping(libs, r, blocks, mh, end))
  }

  /** A mapping in `end` is to the last data imported for its multihash, or is that of `r`. */
  ghost predicate LastMapping(libs: Libs, r: Replica, blocks: seq<(Cid, Data)>, mh: Multihash, end: Replica) {
    var last := LastData(blocks, mh);
    if last.Some? then
      && mh in end.tables.hashToBlake3 && end.tables.hashToBlake3[mh] == libs.blake3(last.value)
      && libs.blake3(last.value) in end.blobs && end.blobs[libs.blake3(last.value)] == last.value
    else
      && (mh in end.tables.hashToBlake3 <==> mh in r.tables.hashToBlake3)
      && (mh in r.tables.hashToBlake3 ==> end.tables.hashToBlake3[mh] == r.tables.hashToBlake3[mh])
  }

  lemma ImportedOne(libs: Libs, r: Replica, c: Cid, d: Data)
    requires BlobsAddressed(libs, r.blobs) && ImportBlock(libs, r, c, d).Ok?
    requires libs.NoBlake3Clash(r.blobs.Values + {d})
    ensures ImportLedTo(libs, r, [(c, d)], ImportBlock(libs, r, c, d).value)
  {
    if libs.blake3(d) in r.blobs {
      assert r.blobs[libs.blake3(d)] in r.blobs.Values + {d} && d in r.blobs.Values + {d};
    }
    var block := [(c, d)];
    assert forall mh :: LastData(block, mh) == if mh == c.hash then Some(d) else None;
  }

  lemma ImportedThen(libs: Libs, r: Replica, c: Cid, d: Data, mid: Replica, blocks: seq<(Cid, Data)>, end: Replica)
    requires ImportLedTo(libs, r, [(c, d)], mid) && ImportLedTo(libs, mid, blocks, end)
    ensures ImportLedTo(libs, r, [(c, d)] + blocks, end)
  {
    var all, block := [(c, d)] + blocks, [(c, d)];
    assert all[1..] == blocks;
    forall mh ensures LastMapping(libs, r, all, mh, end) {
      assert LastData(block, mh) == if mh == c.hash then Some(d) else None;
      assert LastMapping(libs, r, block, mh, mid) && LastMapping(libs, mid, blocks, mh, end);
    }
  }

  lemma ImportedNothing(libs: Libs, r: Replica)
    requires BlobsAddressed(libs, r.blobs)
    ensures ImportLedTo(libs, r, [], r)
  {
  }

  lemma LedToAddressed(libs: Libs, r: Replica, blocks: seq<(Cid, Data)>, end: Replica)
    requires ImportLedTo(libs, r, blocks, end)
    ensures BlobsAddressed(libs, end.blobs)
  {
  }

  lemma NoClashLater(libs: Libs, r: Replica, c: Cid, d: Data, blocks: seq<(Cid, Data)>)
    requires libs.NoBlake3Clash(r.blobs.Values + BlockData([(c, d)] + blocks))
    ensures libs.NoBlake3Clash(r.blobs.Values + {d})
    ensures ImportBlock(libs, r, c, d).Ok? ==>
      libs.NoBlake3Clash(ImportBlock(libs, r, c, d).value.blobs.Values + BlockData(blocks))
  {
    var all := [(c, d)] + blocks;
    assert all[0].1 == d && d in BlockData(all);
    assert forall i :: 0 <= i < |blocks| ==> all[i + 1] == blocks[i];
    assert BlockData(blocks) <= BlockData(all);
  }

  /** The import of any stream into any node, as far as it goes. */
  lemma {:induction false} ImportLeads(libs: Libs, r: Replica, stream: Bytes)
    requires BlobsAddressed(libs, r.blobs)
    requires libs.NoBlake3Clash(r.blobs.Values + BlockData(ImportBlocks(libs, r, stream).blocks))
    ensures var end := ImportBlocks(libs, r, stream); ImportLedTo(libs, r, end.blocks, end.replica)
    decreases |stream|
  {
    hide ImportLedTo, ReadBlock, ImportBlock, BlobsAddressed, BlockData, ImportBlocks;
    ImportStep(libs, r, stream);
    ImportedNothing(libs, r);
    var read := ReadBlock(libs, stream);
    if read.GotBlock? && ImportBlock(libs, r, read.cid, read.data).Ok? {
      var next := ImportBlock(libs, r, read.cid, read.data).value;
      var later := ImportBlocks(libs, next, read.rest);
      NoClashLater(libs, r, read.cid, read.data, later.blocks);
      ImportedOne(libs, r, read.cid, read.data);
      LedToAddressed(libs, r, [(read.cid, read.data)], next);
      ImportLeads(libs, next, read.rest);
      ImportedThen(libs, r, read.cid, read.data, next, later.blocks, later.replica);
    }
  }

  lemma LedToBackedIff(libs: Libs, r: Replica, blocks: seq<(Cid, Data)>, end: Replica)
    requires Backed(libs, r) && ImportLedTo(libs, r, blocks, end)
    ensures Backed(libs, end.(tables := r.tables))
    ensures Backed(libs, end) <==> LastHashed(libs, blocks)
  {
    hide LastHashed, LastData;
    LastHashedIff(libs, blocks);
    forall key | key in end.tables.dataToLinks ensures LinkRowBacked(libs, end, key) {
      assert key in r.tables.dataToLinks ==> LinkRowBacked(libs, r, key);
    }
    if LastHashed(libs, blocks) {
      forall mh | mh in end.tables.hashToBlake3 ensures MappingBacked(libs, end, mh) {
        assert LastMapping(libs, r, blocks, mh, end);
        if LastData(blocks, mh).Some? {
          assert libs.Hashes(mh, LastData(blocks, mh).value);
        } else {
          assert MappingBacked(libs, r, mh);
          assert r.tables.hashToBlake3[mh] in r.blobs;
        }
      }
    } else {
      var mh :| LastData(blocks, mh).Some? && !libs.Hashes(mh, LastData(blocks, mh).value);
      assert LastMapping(libs, r, blocks, mh, end) && !MappingBacked(libs, end, mh);
    }
  }

  // ----- what an archive holds, before any import

  /** The blocks up to the end of an archive, or up to its first unreadable one. */
  datatype Archive = Archive(blocks: seq<(Cid, Data)>, readable: bool)

  function ReadBlocks(libs: Libs, stream: Bytes): Archive
    decreases |stream|
  {
    match ReadBlock(libs, stream)
    case NoBlock => Archive([], true)
    case Unreadable => Archive([], false)
    case GotBlock(c, d, rest) =>
      var later := ReadBlocks(libs, rest);
      later.(blocks := [(c, d)] + later.blocks)
  }

  function ReadArchive(libs: Libs, archive: Bytes): Archive {
    match ReadFramed(archive)
    case None => Archive([], false)
    case Some((header, rest)) =>
      if libs.decodeRoots(header).None? then Archive([], false) else ReadBlocks(libs, rest)
  }

  /** The blocks before the first whose links cannot be extracted. */
  function Extractable(libs: Libs, blocks: seq<(Cid, Data)>): seq<(Cid, Data)> {
    if blocks == [] || libs.links(blocks[0].1).None? then [] else [blocks[0]] + Extractable(libs, blocks[1..])
  }

  ghost predicate Importable(libs: Libs, a: Archive) {
    a.readable && forall b :: b in a.blocks ==> libs.links(b.1).Some?
  }

  lemma {:induction false} ExtractableAll(libs: Libs, blocks: seq<(Cid, Data)>)
    ensures (forall b :: b in blocks ==> libs.links(b.1).Some?) <==> Extractable(libs, blocks) == blocks
  {
    if blocks != [] && libs.links(blocks[0].1).Some? {
      ExtractableAll(libs, blocks[1..]);
      assert blocks == [blocks[0]] + blocks[1..];
      assert Extractable(libs, blocks)[1..] == Extractable(libs, blocks[1..]);
    }
  }

  lemma {:induction false} ImportReads(libs: Libs, r: Replica, stream: Bytes)
    ensures var end, all := ImportBlocks(libs, r, stream), ReadBlocks(libs, stream);
            && end.blocks == Extractable(libs, all.blocks)
            && (end.error.None? <==> all.readable && end.blocks == all.blocks)
    decreases |stream|
  {
    hide ReadBlock;
    var read := ReadBlock(libs, stream);
    if read.GotBlock? {
      var first, later := [(read.cid, read.data)], ReadBlocks(libs, read.rest).blocks;
      assert (first + later)[1..] == later;
      var stored := ImportBlock(libs, r, read.cid, read.data);
      if stored.Ok? {
        ImportReads(libs, stored.value, read.rest);
        var taken := ImportBlocks(libs, stored.value, read.rest).blocks;
        assert (first + taken)[1..] == taken;
      }
    }
  }

  /**
   * An import, into any node, takes the blocks of its archive up to the first without extractable
   * links. It succeeds if and only if the archive is readable and has no such block.
   */
  lemma ImportSucceedsIff(libs: Libs, r: Replica, archive: Bytes)
    ensures var end, all := Import(libs, r, archive), ReadArchive(libs, archive);
            && end.blocks == Extractable(libs, all.blocks)
            && (end.error.None? <==> Importable(libs, all))
            && (end.error.None? ==> end.blocks == all.blocks)
  {
    hide ImportBlocks, ReadBlocks, ReadFramed;
    var header := ReadFramed(archive);
    if header.Some? && libs.decodeRoots(header.value.0).Some? {
      ImportReads(libs, r, header.value.1);
      ExtractableAll(libs, ReadBlocks(libs, header.value.1).blocks);
    }
  }

  /**
   * The import command trusts its archive. It leaves a backed node backed if and only if the archive
   * cannot be imported, or its last block with each multihash has data with this hash.
   */
  lemma ImportBackedIffHashed(libs: Libs, r: Replica, archive: Bytes)
    requires Backed(libs, r)
    requires libs.NoBlake3Clash(r.blobs.Values + BlockData(Extractable(libs, ReadArchive(libs, archive).blocks)))
    ensures var all := ReadArchive(libs, archive);
            Backed(libs, Import(libs, r, archive).replica) <==> !Importable(libs, all) || LastHashed(libs, all.blocks)
  {
    hide ImportBlocks, ImportLedTo, LastHashed, ReadFramed, ReadArchive, Importable;
    ImportSucceedsIff(libs, r, archive);
    var header := ReadFramed(archive);
    if header.Some? && libs.decodeRoots(header.value.0).Some? {
      var end := ImportBlocks(libs, r, header.value.1);
      ImportLeads(libs, r, header.value.1);
      LedToBackedIff(libs, r, end.blocks, end.replica);
    }
  }

  /** No import leaves a link row that is not backed. */
  lemma ImportKeepsLinkRows(libs: Libs, r: Replica, archive: Bytes)
    requires LinkRowsBacked(libs, r)
    requires libs.NoBlake3Clash(r.blobs.Values + BlockData(Import(libs, r, archive).blocks))
    ensures LinkRowsBacked(libs, Import(libs, r, archive).replica)
  {
    hide ImportBlocks, ImportLedTo, ReadFramed;
    var header := ReadFramed(archive);
    if header.Some? && libs.decodeRoots(header.value.0).Some? {
      var end := ImportBlocks(libs, r, header.value.1);
      ImportLeads(libs, r, header.value.1);
      LedToLinkRows(libs, r, end.blocks, end.replica);
    }
  }

  lemma LedToLinkRows(libs: Libs, r: Replica, blocks: seq<(Cid, Data)>, end: Replica)
    requires LinkRowsBacked(libs, r) && ImportLedTo(libs, r, blocks, end)
    ensures LinkRowsBacked(libs, end) && LinkRowsBacked(libs, end.(tables := r.tables))
  {
    forall key | key in end.tables.dataToLinks ensures LinkRowBacked(libs, end, key) {
      assert key in r.tables.dataToLinks ==> LinkRowBacked(libs, r, key);
    }
  }

  /** An archive of one block. */
  function OneBlock(libs: Libs, c: Cid, d: Data): Bytes {
    Framed(libs.encodeRoots([c])) + Framed(Block(libs, c, d))
  }

  /** The input: a block with the data of another, imported into an empty node, leaves a mapping that is not backed. */
  lemma ImportUnhashed(libs: Libs, c: Cid, d: Data)
    requires ArchivesWork(libs) && libs.links(d).Some? && !libs.Hashes(c.hash, d)
    requires |libs.encodeRoots([c])| < LENGTH_LIMIT && |Block(libs, c, d)| < LENGTH_LIMIT
    ensures var end := Import(libs, Replica(NO_ROWS, map[]), OneBlock(libs, c, d));
            && end.error == None && end.blocks == [(c, d)]
            && c.hash in end.replica.tables.hashToBlake3 && !MappingBacked(libs, end.replica, c.hash)
  {
    hide Framed, Block, ReadFramed, ReadBlock;
    var empty := Replica(NO_ROWS, map[]);
    var block := Framed(Block(libs, c, d));
    assert libs.decodeRoots(libs.encodeRoots([c])) == Some([c]);
    FramedRead(libs.encodeRoots([c]), block);
    assert block + [] == block;
    BlockReadBack(libs, c, d, []);
    ImportStep(libs, empty, block);
    var stored := ImportBlock(libs, empty, c, d).value;
    assert ReadBlock(libs, []) == NoBlock by { EmptyStream(libs); }
    ImportStep(libs, stored, []);
  }

  lemma EmptyStream(libs: Libs)
    ensures ReadBlock(libs, []) == NoBlock
  {
  }
}
