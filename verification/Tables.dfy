// The two tables of the mapping database (iroh-dag-sync/src/tables.rs), and what it
// means for their rows to be true.
module Tables {
  import opened Base
  import opened Ipld

  /**
   * The tables as values: `hash_to_blake3`, keyed by hash code and digest, and
   * `data_to_links`, keyed by codec and blake3 hash, whose rows are encoded lists of links.
   */
  datatype Rows = Rows(
    hashToBlake3: map<Multihash, Hash>,
    dataToLinks: map<(u64, Hash), Bytes>)

  const NO_ROWS := Rows(map[], map[])

  /** The stored links of a cid, None when its data has no row. */
  function Links(libs: Libs, t: Rows, c: Cid): Result<Option<seq<Cid>>, Error> {
    if c.hash !in t.hashToBlake3 then Err(Blake3NotFound)
    else
      var key := (c.codec, t.hashToBlake3[c.hash]);
      if key !in t.dataToLinks then Ok(None)
      else match libs.decodeLinks(t.dataToLinks[key])
        case None => Err(BadLinkRow)
        case Some(ls) => Ok(Some(ls))
  }

  /** The tables after the links of `d`, stored under the blake3 hash `h`, are inserted for `c`. */
  function InsertLinks(libs: Libs, t: Rows, c: Cid, h: Hash, d: Data): Result<Rows, Error> {
    match libs.links(d)
    case None => Err(LinkExtraction)
    case Some(ls) =>
      Ok(Rows(t.hashToBlake3[c.hash := h],
              if ls == [] then t.dataToLinks
              else t.dataToLinks[(c.codec, h) := libs.encodeLinks(ls)]))
  }

  /** The tables of an open write transaction. */
  class TableStore {
    var hashToBlake3: map<Multihash, Hash>
    var dataToLinks: map<(u64, Hash), Bytes>

    function View(): Rows
      reads this
    {
      Rows(hashToBlake3, dataToLinks)
    }

    constructor (t: Rows)
      ensures View() == t
    {
      hashToBlake3, dataToLinks := t.hashToBlake3, t.dataToLinks;
    }

    method GetLinks(libs: Libs, c: Cid) returns (r: Result<Option<seq<Cid>>, Error>)
      ensures r == Links(libs, View(), c)
    {
      if c.hash !in hashToBlake3 {
        return Err(Blake3NotFound);
      }
      var hash := hashToBlake3[c.hash];
      if (c.codec, hash) !in dataToLinks {
        return Ok(None);
      }
      var decoded := libs.decodeLinks(dataToLinks[(c.codec, hash)]);
      r := if decoded.Some? then Ok(Some(decoded.value)) else Err(BadLinkRow);
    }

    method Insert(libs: Libs, c: Cid, h: Hash, d: Data) returns (r: Result<(), Error>)
      modifies this
      ensures match InsertLinks(libs, old(View()), c, h, d)
              case Ok(t) => r == Ok(()) && View() == t
              case Err(e) => r == Err(e) && View() == old(View())
    {
      var links := libs.links(d);
      if links.None? {
        return Err(LinkExtraction);
      }
      hashToBlake3 := hashToBlake3[c.hash := h];
      if links.value != [] {
        dataToLinks := dataToLinks[(c.codec, h) := libs.encodeLinks(links.value)];
      }
      return Ok(());
    }
  }

  /** What a node holds: its tables, and its blobs by blake3 hash. */
  datatype Replica = Replica(tables: Rows, blobs: map<Hash, Data>)

  /** A blob store answers to a hash only with data that has this hash. */
  ghost predicate BlobsAddressed(libs: Libs, blobs: map<Hash, Data>) {
    forall h :: h in blobs ==> libs.blake3(blobs[h]) == h
  }

  /** A mapping that is there, and belongs to stored data with this multihash. */
  ghost predicate MappingBacked(libs: Libs, r: Replica, mh: Multihash) {
    && mh in r.tables.hashToBlake3
    && r.tables.hashToBlake3[mh] in r.blobs
    && libs.Hashes(mh, r.blobs[r.tables.hashToBlake3[mh]])
  }

  /** A link row that is there, for stored data whose links, of which there are some, are the row. */
  ghost predicate LinkRowBacked(libs: Libs, r: Replica, key: (u64, Hash)) {
    && key in r.tables.dataToLinks
    && key.1 in r.blobs
    && libs.links(r.blobs[key.1]).Some?
    && libs.links(r.blobs[key.1]).value != []
    && r.tables.dataToLinks[key] == libs.encodeLinks(libs.links(r.blobs[key.1]).value)
  }

  /** Every link row is backed. */
  ghost predicate LinkRowsBacked(libs: Libs, r: Replica) {
    && BlobsAddressed(libs, r.blobs)
    && (forall key :: key in r.tables.dataToLinks ==> LinkRowBacked(libs, r, key))
  }

  /** Every row is backed: a mapping by data with both hashes, a link row by data with these links. */
  ghost predicate Backed(libs: Libs, r: Replica) {
    LinkRowsBacked(libs, r) && (forall mh :: mh in r.tables.hashToBlake3 ==> MappingBacked(libs, r, mh))
  }

  /** `more` has all blobs of `blobs`, unchanged. */
  ghost predicate Extends(blobs: map<Hash, Data>, more: map<Hash, Data>) {
    forall h :: h in blobs ==> h in more && more[h] == blobs[h]
  }

  /**
   * The node holds the data of `c`, and the row under the codec of `c` says exactly which
   * links this data has: the encoded list, or no row when there are no links.
   */
  ghost predicate Faithful(libs: Libs, r: Replica, c: Cid) {
    && c.hash in r.tables.hashToBlake3
    && var h := r.tables.hashToBlake3[c.hash];
    && h in r.blobs
    && libs.blake3(r.blobs[h]) == h
    && libs.Hashes(c.hash, r.blobs[h])
    && libs.links(r.blobs[h]).Some?
    && var ls := libs.links(r.blobs[h]).value;
    && ((c.codec, h) in r.tables.dataToLinks <==> ls != [])
    && (ls != [] ==> r.tables.dataToLinks[(c.codec, h)] == libs.encodeLinks(ls))
  }

  ghost predicate HasBlob(r: Replica, c: Cid) {
    c.hash in r.tables.hashToBlake3 && r.tables.hashToBlake3[c.hash] in r.blobs
  }

  lemma FaithfulHasBlob(libs: Libs, r: Replica, c: Cid)
    requires Faithful(libs, r, c)
    ensures HasBlob(r, c)
  {
  }

  /** Two sets of tables answer every question about `c` in the same way. */
  ghost predicate Agree(t: Rows, u: Rows, c: Cid) {
    && c.hash in t.hashToBlake3 && c.hash in u.hashToBlake3
    && t.hashToBlake3[c.hash] == u.hashToBlake3[c.hash]
    && var key := (c.codec, t.hashToBlake3[c.hash]);
    && (key in t.dataToLinks <==> key in u.dataToLinks)
    && (key in t.dataToLinks ==> t.dataToLinks[key] == u.dataToLinks[key])
  }

  /** `t` has no link row for the data of `c` that `source` lacks. */
  ghost predicate NoStaleRow(t: Rows, source: Rows, c: Cid)
    requires c.hash in source.hashToBlake3
  {
    var key := (c.codec, source.hashToBlake3[c.hash]);
    key in t.dataToLinks ==> key in source.dataToLinks
  }
}
