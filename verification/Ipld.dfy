// Content identifiers, and the libraries the programs call but do not define.
module Ipld {
  import opened Base

  /** The data of a block. Sizes are 64-bit. */
  type Data = d: Bytes | |d| < 0x1_0000_0000_0000_0000 witness []

  /** A blake3 hash, 32 bytes. */
  type Hash = h: Bytes | |h| == 32 witness seq(32, i => 0)

  datatype Version = V0 | V1

  /** A multihash: the code of a hash function and a digest. */
  datatype Multihash = Multihash(code: u64, digest: Bytes)

  /** The codec of dag-pb blocks, and the code of sha2-256 with its digest size: all that version 0 can express. */
  const DAG_PB: u64 := 0x70
  const SHA2_256: u64 := 0x12
  const SHA2_256_SIZE: nat := 32

  /** No cid has a longer digest. */
  const MAX_DIGEST: nat := 64

  datatype CidParts = Cid(version: Version, codec: u64, hash: Multihash) {
    predicate Valid() {
      && |hash.digest| <= MAX_DIGEST
      && (version.V0? ==> codec == DAG_PB && hash.code == SHA2_256 && |hash.digest| == SHA2_256_SIZE)
    }
  }

  type Cid = c: CidParts | c.Valid() witness Cid(V1, 0, Multihash(0, []))

  /** The codec of raw blocks. They are never searched for links. */
  const RAW: u64 := 0x55

  datatype Error =
    | Blake3NotFound
    | BadLinkRow
    | LinkExtraction
    | DataNotFound
    | MalformedHeader
    | ConnectionLost
    | TruncatedData
    | InvalidData
    | UnknownHashCode
    | UserHashMismatch
    | Blake3Mismatch
    | BadBlock
    | BlockTooLarge

  /** A verified stream decodes to data and the number of bytes it consumed, or ends too early, or does not verify. */
  datatype BaoRead = BaoData(data: Data, size: nat) | BaoTruncated | BaoInvalid

  /**
   * The library functions, none of which is defined here.
   *  - `digest(code, data)`: the multihash digest, None for a code without implementation
   *  - `links(data)`: the DAG-CBOR link extractor, None for data it cannot decode
   *  - `encodeLinks`, `decodeLinks`: the DAG-CBOR form of a list of links
   *  - `baoEncode(data)`, `baoDecode(hash, size, stream)`: the verified stream that follows a size
   *  - `encodeCid`, `decodeCid`: the binary form of a cid, and the reader of a leading cid
   *  - `encodeRoots`, `decodeRoots`: the header of an archive
   */
  datatype Libs = Libs(
    blake3: Data -> Hash,
    digest: (u64, Data) -> Option<Bytes>,
    links: Data -> Option<seq<Cid>>,
    encodeLinks: seq<Cid> -> Bytes,
    decodeLinks: Bytes -> Option<seq<Cid>>,
    baoEncode: Data -> Bytes,
    baoDecode: (Hash, u64, Bytes) -> BaoRead,
    encodeCid: Cid -> Bytes,
    decodeCid: Bytes -> Option<(Cid, nat)>,
    encodeRoots: seq<Cid> -> Bytes,
    decodeRoots: Bytes -> Option<seq<Cid>>)
  {
    /** Decoding a list of links undoes encoding it. */
    ghost predicate LinkRowsInvert() {
      forall ls :: decodeLinks(encodeLinks(ls)) == Some(ls)
    }

    /** The verified stream of some data decodes to that data, and consumes its own bytes only. */
    ghost predicate BaoInverts() {
      forall d: Data, rest: Bytes ::
        baoDecode(blake3(d), |d|, baoEncode(d) + rest) == BaoData(d, |baoEncode(d)|)
    }

    /** A verified stream that is cut short ends too early. */
    ghost predicate BaoDetectsTruncation() {
      forall d: Data, n: nat :: n < |baoEncode(d)| ==>
        baoDecode(blake3(d), |d|, baoEncode(d)[..n]) == BaoTruncated
    }

    /** A leading cid is read back, and no byte after it is consumed. */
    ghost predicate CidInverts() {
      forall c: Cid, rest: Bytes :: decodeCid(encodeCid(c) + rest) == Some((c, |encodeCid(c)|))
    }

    /** The header of an archive with roots is read back. */
    ghost predicate RootsInvert() {
      forall cids: seq<Cid> :: cids != [] ==> decodeRoots(encodeRoots(cids)) == Some(cids)
    }

    predicate Hashes(mh: Multihash, d: Data) {
      digest(mh.code, d) == Some(mh.digest)
    }

    /** No two of the given data have the same blake3 hash. */
    ghost predicate NoBlake3Clash(ds: set<Data>) {
      forall a, b :: a in ds && b in ds && blake3(a) == blake3(b) ==> a == b
    }

    /** No two of the given data have the same digest under the same hash function. */
    ghost predicate NoDigestClash(ds: set<Data>) {
      forall mh, a, b :: a in ds && b in ds && Hashes(mh, a) && Hashes(mh, b) ==> a == b
    }
  }
}
