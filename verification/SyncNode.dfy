// Sender and receiver as programs that step a traversal, write and read a stream, and fill
// tables, each against the functions of module Sync.
module SyncNode {
  import opened Base
  import opened Ipld
  import opened Tables
  import opened Sync
  import opened TraversalObjects
  import T = Traversal

  /** A stream or file that is written front to back. */
  class ByteSink {
    var written: Bytes

    constructor ()
      ensures written == []
    {
      written := [];
    }

    method WriteAll(bytes: Bytes)
      modifies this
      ensures written == old(written) + bytes
    {
      written := written + bytes;
    }
  }

  /** Why a buffer was not filled. */
  datatype ReadError = UnexpectedEof | Lost

  /**
   * A stream that is read front to back. `pending` is all that will still arrive, and `lost` says
   * that the connection breaks after it, where else the stream is finished.
   */
  class ByteSource {
    var pending: Bytes
    const lost: bool

    constructor (bytes: Bytes, lost: bool)
      ensures pending == bytes && this.lost == lost
    {
      pending, this.lost := bytes, lost;
    }

    method ReadExact(buf: array<byte>) returns (error: Option<ReadError>)
      modifies this, buf
      ensures error == if buf.Length <= |old(pending)| then None else if lost then Some(Lost) else Some(UnexpectedEof)
      ensures error.None? ==> buf[..] == old(pending)[..buf.Length] && pending == old(pending)[buf.Length..]
    {
      var n := if buf.Length <= |pending| then buf.Length else |pending|;
      for i := 0 to n
        invariant pending == old(pending)
        invariant buf[..i] == pending[..i]
      {
        buf[i] := pending[i];
      }
      pending := pending[n..];
      return if n == buf.Length then None else if lost then Some(Lost) else Some(UnexpectedEof);
    }
  }

  /** The blob store. */
  class BlobStore {
    var blobs: map<Hash, Data>

    constructor (blobs: map<Hash, Data>)
      ensures this.blobs == blobs
    {
      this.blobs := blobs;
    }

    method AddBytes(libs: Libs, data: Data) returns (hash: Hash)
      modifies this
      ensures hash == libs.blake3(data) && blobs == old(blobs)[hash := data]
    {
      hash := libs.blake3(data);
      blobs := blobs[hash := data];
    }
  }

  // ----- frame headers

  /** A header in a buffer of its fixed size. */
  method AsBytes(header: Header) returns (slice: array<byte>)
    ensures fresh(slice) && slice[..] == HeaderBytes(header)
  {
    slice := new byte[HEADER_SIZE];
    slice[0] := if header.HashOf? then 0 else 1;
    for i := 0 to |header.hash|
      invariant slice[0] == HeaderBytes(header)[0]
      invariant slice[1..i + 1] == header.hash[..i]
    {
      slice[i + 1] := header.hash[i];
    }
    assert slice[..] == [slice[0]] + slice[1..];
  }

  method FromStream(stream: ByteSource) returns (r: Result<Option<Header>, Error>)
    modifies stream
    ensures match ReadHeader(old(stream.pending))
            case NoHeader => r == if stream.lost then Err(ConnectionLost) else Ok(None)
            case BadHeader => r == Err(MalformedHeader)
            case GotHeader(header, rest) => r == Ok(Some(header)) && stream.pending == rest
  {
    var buf := new byte[HEADER_SIZE];
    var error := stream.ReadExact(buf);
    if error == Some(UnexpectedEof) {
      return Ok(None);
    }
    if error.Some? {
      return Err(ConnectionLost);
    }
    assert buf[1..] == old(stream.pending)[1..HEADER_SIZE];
    if buf[0] == 0 {
      return Ok(Some(HashOf(buf[1..])));
    } else if buf[0] == 1 {
      return Ok(Some(DataOf(buf[1..])));
    } else {
      return Err(MalformedHeader);
    }
  }

  // ----- sender

  method WriteItem(libs: Libs, send: ByteSink, tables: TableStore, store: BlobStore, inline: T.InlineOpts, cid: Cid)
    returns (error: Option<Error>)
    modifies send
    ensures var item := SendItem(libs, Replica(tables.View(), store.blobs), inline, cid);
            send.written == old(send.written) + item.bytes && error == item.error
  {
    if cid.hash !in tables.hashToBlake3 {
      return Some(Blake3NotFound);
    }
    var hash := tables.hashToBlake3[cid.hash];
    if T.Inlines(inline, cid) {
      var header := AsBytes(DataOf(hash));
      send.WriteAll(header[..]);
      if hash !in store.blobs {
        return Some(DataNotFound);
      }
      var data := store.blobs[hash];
      send.WriteAll(LittleEndian(|data|, 8));
      send.WriteAll(libs.baoEncode(data));
    } else {
      var header := AsBytes(HashOf(hash));
      send.WriteAll(header[..]);
    }
    return None;
  }

  method WriteSyncResponse(libs: Libs, send: ByteSink, traversal: BoxedTraversal, store: BlobStore,
                           inline: T.InlineOpts)
    returns (error: Option<Error>)
    modifies send, traversal.Footprint()
    ensures var sent := Send(libs, Replica(traversal.Db().View(), store.blobs), old(traversal.View()), inline);
            send.written == old(send.written) + sent.bytes && error == sent.error
  {
    hide T.WalkerNext, T.Budget, SendItem, Send;
    ghost var source := Replica(traversal.Db().View(), store.blobs);
    ghost var whole := Send(libs, source, traversal.View(), inline);
    while true
      invariant source == Replica(traversal.Db().View(), store.blobs)
      invariant var later := Send(libs, source, traversal.View(), inline);
                old(send.written) + whole.bytes == send.written + later.bytes && whole.error == later.error
      decreases T.Budget(libs, source.tables, traversal.View())
    {
      SendStep(libs, source, traversal.View(), inline);
      var item := traversal.Next(libs);
      if item.Err? {
        return Some(item.error);
      }
      if item.value.None? {
        return None;
      }
      ghost var before := send.written;
      error := WriteItem(libs, send, traversal.Db(), store, inline, item.value.value);
      if error.Some? {
        return;
      }
      ghost var sent := SendItem(libs, source, inline, item.value.value).bytes;
      ConcatAssociative(before, sent, Send(libs, source, traversal.View(), inline).bytes);
    }
  }

  // ----- receiver

  /** The size and the verified data that follow a header. */
  method ReadVerified(libs: Libs, recv: ByteSource, hash: Hash) returns (r: Result<Data, Error>)
    modifies recv
    ensures match ReadData(libs, hash, old(recv.pending))
            case DataTruncated => r == Err(if recv.lost then ConnectionLost else TruncatedData)
            case DataInvalid => r == Err(InvalidData)
            case GotData(d, rest) => r == Ok(d) && recv.pending == rest
  {
    var buf := new byte[8];
    var error := recv.ReadExact(buf);
    if error.Some? {
      return Err(if error.value.Lost? then ConnectionLost else TruncatedData);
    }
    SizeFitsU64(buf[..]);
    assert buf[..] == old(recv.pending)[..8];
    var decoded := libs.baoDecode(hash, FromLittleEndian(buf[..]), recv.pending);
    if decoded.BaoInvalid? {
      return Err(InvalidData);
    }
    if decoded.BaoTruncated? || decoded.size > |recv.pending| {
      return Err(if recv.lost then ConnectionLost else TruncatedData);
    }
    recv.pending := recv.pending[decoded.size..];
    return Ok(decoded.data);
  }

  /** Reads the frame for `cid`. `ended` says that there was none. */
  method ReadItem(libs: Libs, recv: ByteSource, tables: TableStore, store: BlobStore, cid: Cid)
    returns (ended: bool, error: Option<Error>)
    modifies recv, tables, store
    ensures var t, blobs := old(tables.View()), old(store.blobs);
            match ReceiveFrame(libs, t, cid, old(recv.pending), recv.lost)
            case NoFrame => ended && error == None && tables.View() == t && store.blobs == blobs
            case BadFrame(e, stored) =>
              !ended && error == Some(e) && tables.View() == t && store.blobs == AddBlob(libs, blobs, stored)
            case GotFrame(t', stored, rest) =>
              && !ended && error == None && tables.View() == t' && store.blobs == AddBlob(libs, blobs, stored)
              && recv.pending == rest
  {
    ended := false;
    var header := FromStream(recv);
    if header.Err? {
      return false, Some(header.error);
    }
    if header.value.None? {
      return true, None;
    }
    if header.value.value.HashOf? {
      // the mapping is not stored: it could not be checked without the data
      return false, None;
    }
    var hash := header.value.value.hash;
    var read := ReadVerified(libs, recv, hash);
    if read.Err? {
      return false, Some(read.error);
    }
    var data := read.value;
    var digest := libs.digest(cid.hash.code, data);
    if digest.None? {
      return false, Some(UnknownHashCode);
    }
    if digest.value != cid.hash.digest {
      return false, Some(UserHashMismatch);
    }
    var tag := store.AddBytes(libs, data);
    if tag != hash {
      return false, Some(Blake3Mismatch);
    }
    var inserted := tables.Insert(libs, cid, hash, data);
    return false, if inserted.Err? then Some(inserted.error) else None;
  }

  method HandleSyncResponse(libs: Libs, recv: ByteSource, tables: TableStore, store: BlobStore, opts: T.TraversalOpts)
    returns (cids: seq<Cid>, error: Option<Error>)
    modifies recv, tables, store
    ensures Received(Replica(tables.View(), store.blobs), cids, error) ==
            Receive(libs, old(Replica(tables.View(), store.blobs)), T.GetTraversal(opts), old(recv.pending), recv.lost)
  {
    hide T.WalkerNext, T.Budget, ReceiveFrame, T.GetTraversal, Receive, AddBlob;
    var traversal := GetTraversal(opts, tables);
    ghost var whole :=
      Receive(libs, Replica(tables.View(), store.blobs), traversal.View(), recv.pending, recv.lost);
    cids := [];
    while true
      invariant traversal.Db() == tables && fresh(traversal.Footprint())
      invariant var r := Replica(tables.View(), store.blobs);
                var later := Receive(libs, r, traversal.View(), recv.pending, recv.lost);
                whole == Received(later.replica, cids + later.cids, later.error)
      decreases |recv.pending|
    {
      ReceiveStep(libs, Replica(tables.View(), store.blobs), traversal.View(), recv.pending, recv.lost);
      var item := traversal.Next(libs);
      if item.Err? {
        return cids, Some(item.error);
      }
      if item.value.None? {
        return cids, None;
      }
      var ended, failure := ReadItem(libs, recv, tables, store, item.value.value);
      if ended || failure.Some? {
        return cids, failure;
      }
      ghost var r := Replica(tables.View(), store.blobs);
      ConcatAssociative(cids, [item.value.value],
                        Receive(libs, r, traversal.View(), recv.pending, recv.lost).cids);
      cids := cids + [item.value.value];
    }
  }

  /** The mapping database: the tables as last committed. */
  class Database {
    var committed: Rows

    constructor (rows: Rows)
      ensures committed == rows
    {
      committed := rows;
    }

    /** Runs the receiver in one write transaction, which an error abandons. */
    method SyncFrom(libs: Libs, recv: ByteSource, store: BlobStore, opts: T.TraversalOpts)
      returns (error: Option<Error>)
      modifies this, recv, store
      ensures Replica(committed, store.blobs) ==
              SyncCommand(libs, old(Replica(committed, store.blobs)), opts, old(recv.pending), recv.lost)
      ensures error == Receive(libs, old(Replica(committed, store.blobs)), T.GetTraversal(opts), old(recv.pending),
                               recv.lost).error
    {
      var tables := new TableStore(committed);
      var cids;
      cids, error := HandleSyncResponse(libs, recv, tables, store, opts);
      if error.None? {
        committed := tables.View();
      }
    }
  }
}
