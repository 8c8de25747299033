// The sync protocol (iroh-dag-sync/src/sync.rs): what the sender writes, and what the
// receiver makes of any byte stream.
module Sync {
  import opened Base
  import opened Ipld
  import opened Tables
  import opened Traversal

  // ----- wire format

  /** The header of a frame: a hash mapping only, or a hash with data to follow. */
  datatype Header = HashOf(hash: Hash) | DataOf(hash: Hash)

  const HEADER_SIZE: nat := 33

  function HeaderBytes(h: Header): (r: Bytes)
    ensures |r| == HEADER_SIZE
  {
    [if h.HashOf? then 0 else 1] + h.hash
  }

  datatype HeaderRead = NoHeader | BadHeader | GotHeader(header: Header, rest: Bytes)

  /** A stream too short for a header counts as ended. */
  function ReadHeader(stream: Bytes): HeaderRead {
    if |stream| < HEADER_SIZE then NoHeader
    else
      var hash, rest := stream[1..HEADER_SIZE], stream[HEADER_SIZE..];
      match stream[0]
      case 0 => GotHeader(HashOf(hash), rest)
      case 1 => GotHeader(DataOf(hash), rest)
      case _ => BadHeader
  }

  lemma HeaderRoundTrip(h: Header, rest: Bytes)
    ensures ReadHeader(HeaderBytes(h) + rest) == GotHeader(h, rest)
  {
    var bytes := HeaderBytes(h) + rest;
    assert bytes[1..HEADER_SIZE] == h.hash && bytes[HEADER_SIZE..] == rest;
  }

  /** Only what a header encodes to is read as that header. */
  lemma HeaderCanonical(stream: Bytes)
    requires ReadHeader(stream).GotHeader?
    ensures HeaderBytes(ReadHeader(stream).header) + ReadHeader(stream).rest == stream
  {
  }

  function Pow256(k: nat): nat {
    if k == 0 then 1 else 256 * Pow256(k - 1)
  }

  /** The `k` low bytes of `n`, least significant first. */
  function LittleEndian(n: nat, k: nat): (r: Bytes)
    ensures |r| == k
  {
    if k == 0 then [] else [n % 256] + LittleEndian(n / 256, k - 1)
  }

  function FromLittleEndian(s: Bytes): (r: nat)
    ensures r < Pow256(|s|)
  {
    if s == [] then 0 else s[0] + 256 * FromLittleEndian(s[1..])
  }

  lemma {:induction false} LittleEndianRoundTrip(n: nat, k: nat)
    requires n < Pow256(k)
    ensures FromLittleEndian(LittleEndian(n, k)) == n
  {
    if k > 0 {
      LittleEndianRoundTrip(n / 256, k - 1);
      assert LittleEndian(n, k)[1..] == LittleEndian(n / 256, k - 1);
    }
  }

  /** The last byte is the most significant. */
  lemma {:induction false} MostSignificantLast(s: Bytes, b: byte)
    ensures FromLittleEndian(s + [b]) == FromLittleEndian(s) + b * Pow256(|s|)
  {
    if s == [] {
      assert [b][1..] == [];
    } else {
      assert (s + [b])[1..] == s[1..] + [b];
      MostSignificantLast(s[1..], b);
      assert 256 * (b * Pow256(|s| - 1)) == b * Pow256(|s|);
    }
  }

  lemma SizeFitsU64(s: Bytes)
    requires |s| == 8
    ensures FromLittleEndian(s) < 0x1_0000_0000_0000_0000
    ensures Pow256(8) == 0x1_0000_0000_0000_0000
  {
    assert Pow256(2) == 0x1_0000;
    assert Pow256(4) == 0x1_0000_0000;
    assert Pow256(6) == 0x1_0000_0000_0000;
    assert Pow256(8) == 0x1_0000_0000_0000_0000;
  }

  function DataFrame(libs: Libs, h: Hash, d: Data): Bytes {
    HeaderBytes(DataOf(h)) + LittleEndian(|d|, 8) + libs.baoEncode(d)
  }

  // ----- sender

  datatype Sent = Sent(bytes: Bytes, error: Option<Error>)

  /** What the sender writes for one cid. */
  function SendItem(libs: Libs, source: Replica, inline: InlineOpts, c: Cid): Sent {
    if c.hash !in source.tables.hashToBlake3 then Sent([], Some(Blake3NotFound))
    else
      var h := source.tables.hashToBlake3[c.hash];
      if !Inlines(inline, c) then Sent(HeaderBytes(HashOf(h)), None)
      else if h in source.blobs then Sent(DataFrame(libs, h, source.blobs[h]), None)
      else Sent(HeaderBytes(DataOf(h)), Some(DataNotFound))  // the header is out before the export fails
  }

  /**
   * The frame for a cid that is held, byte by byte: with the data, after its size in eight bytes, for just those
   * codecs that the options name, and else with the hash alone.
   */
  lemma FrameFormat(libs: Libs, source: Replica, inline: InlineOpts, c: Cid)
    requires HasBlob(source, c)
    ensures var h := source.tables.hashToBlake3[c.hash];
            var withData :=
              || inline == InlineAll
              || (inline == InlineNoRaw && c.codec != 0x55)
              || (inline.InlineExclude? && c.codec !in inline.codecs);
            var d := source.blobs[h];
            SendItem(libs, source, inline, c) ==
              Sent(if withData then [1] + h + LittleEndian(|d|, 8) + libs.baoEncode(d) else [0] + h, None)
  {
  }

  /** Everything the sender writes, in a run over its fixed tables and blobs. */
  function Send(libs: Libs, source: Replica, w: Walker, inline: InlineOpts): Sent
    decreases Budget(libs, source.tables, w)
  {
    match WalkerNext(libs, source.tables, w)
    case Failed(e, _) => Sent([], Some(e))
    case End(_) => Sent([], None)
    case Item(c, next) =>
      var item := SendItem(libs, source, inline, c);
      if item.error.Some? then item
      else
        var later := Send(libs, source, next, inline);
        Sent(item.bytes + later.bytes, later.error)
  }

  /** One round of the sender loop. */
  lemma SendStep(libs: Libs, source: Replica, w: Walker, inline: InlineOpts)
    ensures var step := WalkerNext(libs, source.tables, w);
            Send(libs, source, w, inline) ==
              if step.Failed? then Sent([], Some(step.error))
              else if step.End? then Sent([], None)
              else
                var item, later := SendItem(libs, source, inline, step.cid), Send(libs, source, step.next, inline);
                if item.error.Some? then item else Sent(item.bytes + later.bytes, later.error)
  {
  }

  // ----- receiver

  /** What becomes of the next frame. `stored` is the data that went into the blob store, if any. */
  datatype FrameResult =
    | NoFrame
    | BadFrame(error: Error, stored: Option<Data>)
    | GotFrame(tables: Rows, stored: Option<Data>, rest: Bytes)

  function AddBlob(libs: Libs, blobs: map<Hash, Data>, stored: Option<Data>): map<Hash, Data> {
    if stored.Some? then blobs[libs.blake3(stored.value) := stored.value] else blobs
  }

  datatype DataRead = GotData(data: Data, rest: Bytes) | DataTruncated | DataInvalid

  /** The size and verified stream of the data with blake3 hash `h`, and what follows. */
  function ReadData(libs: Libs, h: Hash, stream: Bytes): (r: DataRead)
    ensures r.GotData? ==> |r.rest| <= |stream|
  {
    if |stream| < 8 then DataTruncated
    else
      SizeFitsU64(stream[..8]);
      match libs.baoDecode(h, FromLittleEndian(stream[..8]), stream[8..])
      case BaoData(d, n) => if n <= |stream| - 8 then GotData(d, stream[8 + n..]) else DataTruncated
      case BaoTruncated => DataTruncated
      case BaoInvalid => DataInvalid
  }

  /** Checks and stores the data received for `c` under the hash `h`. */
  function Accept(libs: Libs, t: Rows, c: Cid, h: Hash, d: Data, rest: Bytes): (r: FrameResult)
    ensures r.GotFrame? ==> r.rest == rest
  {
    match libs.digest(c.hash.code, d)
    case None => BadFrame(UnknownHashCode, None)
    case Some(digest) =>
      if digest != c.hash.digest then BadFrame(UserHashMismatch, None)
      else if libs.blake3(d) != h then BadFrame(Blake3Mismatch, Some(d))
      else match InsertLinks(libs, t, c, h, d)
        case Err(e) => BadFrame(e, Some(d))
        case Ok(t') => GotFrame(t', Some(d), rest)
  }

  /** What becomes of the bytes of the next frame. `lost` says that the stream breaks off after them, not finished. */
  function ReceiveFrame(libs: Libs, t: Rows, c: Cid, stream: Bytes, lost: bool): (r: FrameResult)
    ensures r.GotFrame? ==> |r.rest| < |stream|
  {
    match ReadHeader(stream)
    case NoHeader => if lost then BadFrame(ConnectionLost, None) else NoFrame
    case BadHeader => BadFrame(MalformedHeader, None)
    case GotHeader(HashOf(_), rest) => GotFrame(t, None, rest)
    case GotHeader(DataOf(h), rest) =>
      match ReadData(libs, h, rest)
      case DataTruncated => BadFrame(if lost then ConnectionLost else TruncatedData, None)
      case DataInvalid => BadFrame(InvalidData, None)
      case GotData(d, rest') => Accept(libs, t, c, h, d, rest')
  }

  /** The end of a receiver run: what the node holds, the cids whose frames it took, and its error if any. */
  datatype Received = Received(replica: Replica, cids: seq<Cid>, error: Option<Error>)

  /**
   * A receiver run over any byte stream, which the sender finishes or which is lost after these
   * bytes. The traversal reads the tables as they grow.
   */
  function Receive(libs: Libs, r: Replica, w: Walker, stream: Bytes, lost: bool): Received
    decreases |stream|
  {
    match WalkerNext(libs, r.tables, w)
    case Failed(e, _) => Received(r, [], Some(e))
    case End(_) => Received(r, [], None)
    case Item(c, next) =>
      match ReceiveFrame(libs, r.tables, c, stream, lost)
      case NoFrame => Received(r, [], None)
      case BadFrame(e, stored) => Received(r.(blobs := AddBlob(libs, r.blobs, stored)), [], Some(e))
      case GotFrame(t, stored, rest) =>
        var later := Receive(libs, Replica(t, AddBlob(libs, r.blobs, stored)), next, rest, lost);
        later.(cids := [c] + later.cids)
  }

  /** One round of the receiver loop. */
  lemma ReceiveStep(libs: Libs, r: Replica, w: Walker, stream: Bytes, lost: bool)
    ensures var step := WalkerNext(libs, r.tables, w);
            Receive(libs, r, w, stream, lost) ==
              if step.Failed? then Received(r, [], Some(step.error))
              else if step.End? then Received(r, [], None)
              else
                var got := ReceiveFrame(libs, r.tables, step.cid, stream, lost);
                if got.NoFrame? then Received(r, [], None)
                else if got.BadFrame? then
                  Received(r.(blobs := AddBlob(libs, r.blobs, got.stored)), [], Some(got.error))
                else
                  var r' := Replica(got.tables, AddBlob(libs, r.blobs, got.stored));
                  var later := Receive(libs, r', step.next, got.rest, lost);
                  later.(cids := [step.cid] + later.cids)
  {
  }

  /** The data that a receiver run puts into the blob store. */
  function Payloads(libs: Libs, r: Replica, w: Walker, stream: Bytes, lost: bool): set<Data>
    decreases |stream|
  {
    match WalkerNext(libs, r.tables, w)
    case Failed(_, _) => {}
    case End(_) => {}
    case Item(c, next) =>
      match ReceiveFrame(libs, r.tables, c, stream, lost)
      case NoFrame => {}
      case BadFrame(_, stored) => AsSet(stored)
      case GotFrame(t, stored, rest) =>
        AsSet(stored) + Payloads(libs, Replica(t, AddBlob(libs, r.blobs, stored)), next, rest, lost)
  }

  /** The sync command: the tables are committed only when the receiver ends without error. */
  function SyncCommand(libs: Libs, r: Replica, opts: TraversalOpts, stream: Bytes, lost: bool): Replica {
    var end := Receive(libs, r, GetTraversal(opts), stream, lost);
    if end.error.None? then end.replica else end.replica.(tables := r.tables)
  }
}
