// Export and import as programs over files, each against the functions of module Car.
module CarFiles {
  import opened Base
  import opened Ipld
  import opened Tables
  import opened Car
  import opened SyncNode
  import opened TraversalObjects
  import T = Traversal

  /** Writes one block with its length, through a buffer that bounds the encoded length. */
  method WriteBlock(libs: Libs, file: ByteSink, tables: TableStore, store: BlobStore, cid: Cid)
    returns (error: Option<Error>)
    modifies file
    ensures var item := ExportItem(libs, Replica(tables.View(), store.blobs), cid);
            file.written == old(file.written) + item.bytes && error == item.error
  {
    if cid.hash !in tables.hashToBlake3 {
      return Some(Blake3NotFound);
    }
    var hash := tables.hashToBlake3[cid.hash];
    if hash !in store.blobs {
      return Some(DataNotFound);
    }
    var block := libs.encodeCid(cid) + store.blobs[hash];
    var size := Varint(|block|);
    if |size| > LENGTH_BUFFER {
      return Some(BlockTooLarge);
    }
    file.WriteAll(size);
    file.WriteAll(block);
    return None;
  }

  method ExportTraversal(libs: Libs, traversal: BoxedTraversal, store: BlobStore, file: ByteSink)
    returns (error: Option<Error>)
    modifies file, traversal.Footprint()
    ensures var archive := Export(libs, Replica(traversal.Db().View(), store.blobs), old(traversal.View()));
            file.written == old(file.written) + archive.bytes && error == archive.error
  {
    hide T.WalkerNext, T.Budget, ExportItem, ExportBlocks, Framed;
    ghost var source := Replica(traversal.Db().View(), store.blobs);
    ghost var start := file.written;
    ghost var whole := ExportBlocks(libs, source, traversal.View());
    var roots := traversal.Roots();
    ghost var header := Framed(libs.encodeRoots(roots));
    WriteFramed(file, libs.encodeRoots(roots));
    ConcatAssociative(start, header, whole.bytes);
    while true
      invariant source == Replica(traversal.Db().View(), store.blobs)
      invariant var later := ExportBlocks(libs, source, traversal.View());
                start + (header + whole.bytes) == file.written + later.bytes && whole.error == later.error
      decreases T.Budget(libs, source.tables, traversal.View())
    {
      ExportStep(libs, source, traversal.View());
      var item := traversal.Next(libs);
      if item.Err? {
        return Some(item.error);
      }
      if item.value.None? {
        return None;
      }
      ghost var before := file.written;
      error := WriteBlock(libs, file, traversal.Db(), store, item.value.value);
      if error.Some? {
        return;
      }
      ghost var block := ExportItem(libs, source, item.value.value).bytes;
      ConcatAssociative(before, block, ExportBlocks(libs, source, traversal.View()).bytes);
    }
  }

  method WriteFramed(file: ByteSink, part: Bytes)
    modifies file
    ensures file.written == old(file.written) + Framed(part)
  {
    file.WriteAll(Varint(|part|));
    file.WriteAll(part);
  }

  /** Imports one block: its links are extracted before anything is stored. */
  method StoreBlock(libs: Libs, tables: TableStore, store: BlobStore, cid: Cid, data: Data)
    returns (error: Option<Error>)
    modifies tables, store
    ensures match ImportBlock(libs, old(Replica(tables.View(), store.blobs)), cid, data)
            case Ok(r) => error == None && Replica(tables.View(), store.blobs) == r
            case Err(e) =>
              error == Some(e) && Replica(tables.View(), store.blobs) == old(Replica(tables.View(), store.blobs))
  {
    var links := libs.links(data);
    if links.None? {
      return Some(LinkExtraction);
    }
    var hash := store.AddBytes(libs, data);
    if links.value != [] {
      tables.dataToLinks := tables.dataToLinks[(cid.codec, hash) := libs.encodeLinks(links.value)];
    }
    tables.hashToBlake3 := tables.hashToBlake3[cid.hash := hash];
    return None;
  }

  method ImportAll(libs: Libs, archive: Bytes, tables: TableStore, store: BlobStore)
    returns (first: Option<Cid>, blocks: seq<(Cid, Data)>, error: Option<Error>)
    modifies tables, store
    ensures Imported(Replica(tables.View(), store.blobs), blocks, error) ==
            ImportBlocks(libs, old(Replica(tables.View(), store.blobs)), archive)
    ensures first == if blocks == [] then None else Some(blocks[0].0)
  {
    hide ReadBlock, ImportBlock, ImportBlocks;
    ghost var whole := ImportBlocks(libs, Replica(tables.View(), store.blobs), archive);
    var stream := archive;
    first, blocks := None, [];
    while true
      invariant var later := ImportBlocks(libs, Replica(tables.View(), store.blobs), stream);
                whole == Imported(later.replica, blocks + later.blocks, later.error)
      invariant first == if blocks == [] then None else Some(blocks[0].0)
      decreases |stream|
    {
      ImportStep(libs, Replica(tables.View(), store.blobs), stream);
      var read := ReadBlock(libs, stream);
      if read.NoBlock? {
        return first, blocks, None;
      }
      if read.Unreadable? {
        return first, blocks, Some(BadBlock);
      }
      error := StoreBlock(libs, tables, store, read.cid, read.data);
      if error.Some? {
        return;
      }
      if first.None? {
        first := Some(read.cid);
      }
      ConcatAssociative(blocks, [(read.cid, read.data)],
                        ImportBlocks(libs, Replica(tables.View(), store.blobs), read.rest).blocks);
      blocks, stream := blocks + [(read.cid, read.data)], read.rest;
    }
  }

  /** The import command: one write transaction, which an error abandons. */
  method ImportFile(libs: Libs, archive: Bytes, db: Database, store: BlobStore)
    returns (root: Option<Cid>, error: Option<Error>)
    modifies db, store
    ensures var end := Import(libs, old(Replica(db.committed, store.blobs)), archive);
            && Replica(db.committed, store.blobs) == end.replica && error == end.error
            && (error.None? ==> root == if end.blocks == [] then None else Some(end.blocks[0].0))
  {
    var header := ReadFramed(archive);
    if header.None? || libs.decodeRoots(header.value.0).None? {
      return None, Some(BadBlock);
    }
    var tables := new TableStore(db.committed);
    var blocks;
    root, blocks, error := ImportAll(libs, header.value.1, tables, store);
    if error.None? {
      db.committed := tables.View();
    }
  }
}
