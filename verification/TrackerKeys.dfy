// The keys of the tracker's tables, their byte order, and ordered scans
// (content-discovery/iroh-content-tracker/src/tracker.rs).
module TrackerKeys {
  import opened Base

  type Bytes32 = b: Bytes | |b| == 32 witness seq(32, i => 0)

  datatype BlobFormat = Raw | HashSeq

  datatype AnnounceKind = Partial | Complete

  datatype HashAndFormat = HashAndFormat(hash: Bytes32, format: BlobFormat)

  type EndpointId = Bytes32

  /** The key of the announces and probes tables. */
  datatype AnnouncePath = AnnouncePath(hash: Bytes32, format: byte, kind: byte, endpoint: Bytes32)

  function NewPath(content: HashAndFormat, kind: AnnounceKind, endpoint: EndpointId): AnnouncePath {
    AnnouncePath(content.hash, if content.format.Raw? then 0 else 1, if kind.Partial? then 0 else 1, endpoint)
  }

  function Content(p: AnnouncePath): HashAndFormat {
    HashAndFormat(p.hash, if p.format == 0 then Raw else HashSeq)
  }

  function KindOf(p: AnnouncePath): AnnounceKind {
    if p.kind == 0 then Partial else Complete
  }

  function Repeat(b: byte): Bytes32 {
    seq(32, i => b)
  }

  function ContentMin(content: HashAndFormat): AnnouncePath {
    AnnouncePath(content.hash, 0, 0, Repeat(0))
  }

  function ContentMax(content: HashAndFormat): AnnouncePath {
    AnnouncePath(content.hash, 255, 255, Repeat(255))
  }

  lemma PathKeepsParts(content: HashAndFormat, kind: AnnounceKind, endpoint: EndpointId)
    ensures var p := NewPath(content, kind, endpoint);
            Content(p) == content && KindOf(p) == kind && p.endpoint == endpoint
  {
  }

  /** Of any key, whatever its bytes: only 0 stands for a raw format, and only 0 for a partial kind. */
  lemma PartsOfAnyKey(p: AnnouncePath)
    ensures Content(p).hash == p.hash && (Content(p).format == Raw <==> p.format == 0)
    ensures KindOf(p) == Partial <==> p.kind == 0
  {
  }

  // ----- byte form

  const PATH_SIZE: nat := 66

  function PathBytes(p: AnnouncePath): (r: Bytes)
    ensures |r| == PATH_SIZE
  {
    p.hash + [p.format, p.kind] + p.endpoint
  }

  function PathFromBytes(data: Bytes): AnnouncePath
    requires |data| == PATH_SIZE
  {
    AnnouncePath(data[0..32], data[32], data[33], data[34..66])
  }

  /** Where in a key its parts are, and how they are coded. */
  lemma KeyFormat(content: HashAndFormat, kind: AnnounceKind, endpoint: EndpointId)
    ensures PathBytes(NewPath(content, kind, endpoint)) ==
            content.hash + [if content.format == Raw then 0 else 1] + [if kind == Partial then 0 else 1] + endpoint
  {
  }

  /** The byte form and the fields determine each other. */
  lemma PathRoundTrip(p: AnnouncePath)
    ensures PathFromBytes(PathBytes(p)) == p
  {
    var data := PathBytes(p);
    assert data[0..32] == p.hash && data[34..66] == p.endpoint;
  }

  lemma PathBytesRoundTrip(data: Bytes)
    requires |data| == PATH_SIZE
    ensures PathBytes(PathFromBytes(data)) == data
  {
  }

  method PathAsBytes(value: AnnouncePath) returns (res: array<byte>)
    ensures fresh(res) && res[..] == PathBytes(value)
  {
    res := new byte[PATH_SIZE];
    CopyFromSlice(res, 0, value.hash);
    res[32] := value.format;
    res[33] := value.kind;
    label parts:
    CopyFromSlice(res, 34, value.endpoint);
    assert res[..34] == value.hash + [value.format, value.kind];
    assert res[..] == res[..34] + res[34..66];
  }

  /** Overwrites `a` from index `start` on. */
  method CopyFromSlice(a: array<byte>, start: nat, slice: Bytes)
    requires start + |slice| <= a.Length
    modifies a
    ensures a[start..start + |slice|] == slice
    ensures forall i :: 0 <= i < a.Length && !(start <= i < start + |slice|) ==> a[i] == old(a[i])
  {
    for i := 0 to |slice|
      invariant a[start..start + i] == slice[..i]
      invariant forall j :: 0 <= j < a.Length && !(start <= j < start + i) ==> a[j] == old(a[j])
    {
      a[start + i] := slice[i];
      assert a[start..start + i + 1] == a[start..start + i] + [slice[i]];
    }
  }

  // ----- order

  datatype Ordering = Less | Equal | Greater

  /** The order of byte strings that decides where a key is kept. */
  function Compare(a: Bytes, b: Bytes): Ordering {
    if a == [] then if b == [] then Equal else Less
    else if b == [] then Greater
    else if a[0] < b[0] then Less
    else if a[0] > b[0] then Greater
    else Compare(a[1..], b[1..])
  }

  function Then(first: Ordering, second: Ordering): Ordering {
    if first.Equal? then second else first
  }

  function CompareByte(a: byte, b: byte): Ordering {
    if a < b then Less else if a > b then Greater else Equal
  }

  /** Field by field: hash, format, kind, endpoint. */
  function CompareFields(p: AnnouncePath, q: AnnouncePath): Ordering {
    Then(Compare(p.hash, q.hash),
         Then(CompareByte(p.format, q.format),
              Then(CompareByte(p.kind, q.kind), Compare(p.endpoint, q.endpoint))))
  }

  lemma {:induction false} CompareConcat(a: Bytes, a': Bytes, b: Bytes, b': Bytes)
    requires |a| == |b|
    ensures Compare(a + a', b + b') == Then(Compare(a, b), Compare(a', b'))
  {
    if a == [] {
      assert a + a' == a' && b + b' == b';
    } else {
      assert (a + a')[1..] == a[1..] + a' && (b + b')[1..] == b[1..] + b';
      CompareConcat(a[1..], a', b[1..], b');
    }
  }

  lemma {:induction false} CompareProperties(a: Bytes, b: Bytes)
    ensures Compare(a, b) == Equal <==> a == b
    ensures Compare(a, b) == Less <==> Compare(b, a) == Greater
  {
    if a != [] && b != [] {
      CompareProperties(a[1..], b[1..]);
      assert a == [a[0]] + a[1..] && b == [b[0]] + b[1..];
    }
  }

  lemma {:induction false} CompareTransitive(a: Bytes, b: Bytes, c: Bytes)
    requires Compare(a, b) == Less && Compare(b, c) == Less
    ensures Compare(a, c) == Less
  {
    if a != [] && b != [] && c != [] && a[0] == b[0] == c[0] {
      CompareTransitive(a[1..], b[1..], c[1..]);
    }
  }

  /** The order of the encoded keys is the order of their fields. */
  lemma ByteOrderIsFieldOrder(p: AnnouncePath, q: AnnouncePath)
    ensures Compare(PathBytes(p), PathBytes(q)) == CompareFields(p, q)
  {
    hide Compare;
    var mid, mid' := [p.format, p.kind], [q.format, q.kind];
    ConcatAssociative(p.hash, mid, p.endpoint);
    ConcatAssociative(q.hash, mid', q.endpoint);
    CompareConcat(p.hash, mid + p.endpoint, q.hash, mid' + q.endpoint);
    CompareConcat(mid, p.endpoint, mid', q.endpoint);
    CompareTwo(p.format, p.kind, q.format, q.kind);
  }

  lemma CompareTwo(a: byte, a': byte, b: byte, b': byte)
    ensures Compare([a, a'], [b, b']) == Then(CompareByte(a, b), CompareByte(a', b'))
  {
    assert [a, a'] == [a] + [a'] && [b, b'] == [b] + [b'];
    CompareConcat([a], [a'], [b], [b']);
    assert [a][1..] == [] && [b][1..] == [] && [a'][1..] == [] && [b'][1..] == [];
  }

  predicate Before(p: AnnouncePath, q: AnnouncePath) {
    Compare(PathBytes(p), PathBytes(q)) == Less
  }

  /** At the first place where two byte strings differ, the lesser has the lesser byte. */
  lemma {:induction false} LessMeaning(a: Bytes, b: Bytes)
    requires |a| == |b|
    ensures Compare(a, b) == Less <==> exists i :: 0 <= i < |a| && a[..i] == b[..i] && a[i] < b[i]
  {
    if a != [] && a[0] == b[0] {
      LessMeaning(a[1..], b[1..]);
      if i :| 0 <= i < |a[1..]| && a[1..][..i] == b[1..][..i] && a[1..][i] < b[1..][i] {
        assert a[..i + 1] == [a[0]] + a[1..][..i] && b[..i + 1] == [b[0]] + b[1..][..i];
        assert a[i + 1] < b[i + 1];
      }
      if i :| 0 <= i < |a| && a[..i] == b[..i] && a[i] < b[i] {
        assert a[1..][..i - 1] == a[..i][1..] && b[1..][..i - 1] == b[..i][1..];
        assert a[1..][i - 1] < b[1..][i - 1];
      }
    } else if a != [] && a[0] < b[0] {
      assert a[..0] == b[..0];
    }
    if i :| a != [] && 0 < i < |a| && a[..i] == b[..i] {
      assert a[0] == a[..i][0] && b[0] == b[..i][0];
    }
  }

  /** A key is before another if its bytes are the lesser at the first place where they differ. */
  lemma BeforeMeaning(p: AnnouncePath, q: AnnouncePath)
    ensures var a, b := PathBytes(p), PathBytes(q);
            Before(p, q) <==> exists i :: 0 <= i < |a| && a[..i] == b[..i] && a[i] < b[i]
  {
    hide PathBytes, Compare;
    LessMeaning(PathBytes(p), PathBytes(q));
  }

  /** Keys are strictly and totally ordered. */
  lemma BeforeIsTotal(p: AnnouncePath, q: AnnouncePath)
    ensures !(Before(p, q) && Before(q, p))
    ensures p == q || Before(p, q) || Before(q, p)
    ensures !Before(p, p)
  {
    hide Compare, PathBytes, PathFromBytes;
    CompareProperties(PathBytes(p), PathBytes(q));
    CompareProperties(PathBytes(q), PathBytes(p));
    CompareProperties(PathBytes(p), PathBytes(p));
    PathRoundTrip(p);
    PathRoundTrip(q);
  }

  lemma BeforeTransitive(p: AnnouncePath, q: AnnouncePath, r: AnnouncePath)
    requires Before(p, q) && Before(q, r)
    ensures Before(p, r)
  {
    CompareTransitive(PathBytes(p), PathBytes(q), PathBytes(r));
  }

  // ----- ranges

  predicate InRange(p: AnnouncePath, lo: AnnouncePath, hi: AnnouncePath) {
    !Before(p, lo) && !Before(hi, p)
  }

  lemma {:induction false} NothingBelowZeros(b: Bytes, n: nat)
    requires |b| == n
    ensures Compare(b, seq(n, i => 0)) != Less && Compare(seq(n, i => 255), b) != Less
  {
    if n > 0 {
      NothingBelowZeros(b[1..], n - 1);
      assert seq(n, i => 0 as byte)[1..] == seq(n - 1, i => 0);
      assert seq(n, i => 255 as byte)[1..] == seq(n - 1, i => 255);
    }
  }

  /** The range of a content holds exactly the keys with its hash, whatever their format. */
  lemma RangeIsHash(content: HashAndFormat, p: AnnouncePath)
    ensures InRange(p, ContentMin(content), ContentMax(content)) <==> p.hash == content.hash
  {
    var lo, hi := ContentMin(content), ContentMax(content);
    ByteOrderIsFieldOrder(p, lo);
    ByteOrderIsFieldOrder(hi, p);
    CompareProperties(p.hash, content.hash);
    CompareProperties(content.hash, p.hash);
    NothingBelowZeros(p.endpoint, 32);
  }

  // ----- ordered scans

  ghost predicate Ascending(s: seq<AnnouncePath>) {
    forall i, j :: 0 <= i < j < |s| ==> Before(s[i], s[j])
  }

  predicate IsLeast(p: AnnouncePath, s: set<AnnouncePath>) {
    p in s && forall q :: q in s && q != p ==> Before(p, q)
  }

  lemma {:induction false} LeastExists(s: set<AnnouncePath>) returns (p: AnnouncePath)
    requires s != {}
    ensures IsLeast(p, s)
    decreases |s|
  {
    hide Before;
    var x :| x in s;
    if s == {x} {
      p := x;
    } else {
      var y := LeastExists(s - {x});
      BeforeIsTotal(x, y);
      if Before(y, x) {
        p := y;
      } else {
        p := x;
        forall q | q in s && q != x ensures Before(x, q) {
          if q != y {
            BeforeTransitive(x, y, q);
          }
        }
      }
    }
  }

  lemma LeastIsUnique(s: set<AnnouncePath>)
    requires s != {}
    ensures exists p :: IsLeast(p, s)
    ensures forall p, q :: IsLeast(p, s) && IsLeast(q, s) ==> p == q
  {
    var p := LeastExists(s);
    forall p, q | IsLeast(p, s) && IsLeast(q, s) ensures p == q {
      BeforeIsTotal(p, q);
    }
  }

  function Least(s: set<AnnouncePath>): (p: AnnouncePath)
    requires s != {}
    ensures IsLeast(p, s)
  {
    LeastIsUnique(s);
    var p :| p in s && IsLeast(p, s);
    p
  }

  /** The keys in their order, as a scan meets them. */
  function Sorted(s: set<AnnouncePath>): seq<AnnouncePath>
    decreases |s|
  {
    if s == {} then [] else [Least(s)] + Sorted(s - {Least(s)})
  }

  lemma {:induction false} SortedElems(s: set<AnnouncePath>)
    ensures Elems(Sorted(s)) == s
    decreases |s|
  {
    hide Before, IsLeast;
    if s != {} {
      SortedElems(s - {Least(s)});
      ConsElems(Least(s), Sorted(s - {Least(s)}));
    }
  }

  lemma {:induction false} SortedAscends(s: set<AnnouncePath>)
    ensures Ascending(Sorted(s))
    decreases |s|
  {
    hide Before;
    if s != {} {
      var p, rest := Least(s), Sorted(s - {Least(s)});
      SortedElems(s - {p});
      SortedAscends(s - {p});
      forall j | 0 <= j < |rest| ensures Before(p, rest[j]) {
        assert rest[j] in Elems(rest);
      }
    }
  }

  /** What is kept of a scan, in its order. */
  function Keep(s: seq<AnnouncePath>, keep: set<AnnouncePath>): seq<AnnouncePath> {
    if s == [] then [] else (if s[0] in keep then [s[0]] else []) + Keep(s[1..], keep)
  }

  lemma {:induction false} KeepAppend(s: seq<AnnouncePath>, p: AnnouncePath, keep: set<AnnouncePath>)
    ensures Keep(s + [p], keep) == if p in keep then Keep(s, keep) + [p] else Keep(s, keep)
  {
    if s == [] {
      assert [p][1..] == [];
    } else {
      KeepAppend(s[1..], p, keep);
      assert (s + [p])[0] == s[0] && (s + [p])[1..] == s[1..] + [p];
      ConcatAssociative(if s[0] in keep then [s[0]] else [], Keep(s[1..], keep), if p in keep then [p] else []);
    }
  }

  /** To scan and then select is to scan the selection. */
  lemma {:induction false} KeepSorted(s: set<AnnouncePath>, keep: set<AnnouncePath>)
    ensures Keep(Sorted(s), keep) == Sorted(s * keep)
    decreases |s|
  {
    hide Before;
    if s == {} {
      assert s * keep == {};
    } else {
      var p := Least(s);
      KeepSorted(s - {p}, keep);
      assert ([p] + Sorted(s - {p}))[1..] == Sorted(s - {p});
      if p in keep {
        assert IsLeast(p, s * keep);
        LeastIsUnique(s * keep);
        assert s * keep - {p} == (s - {p}) * keep;
      } else {
        assert s * keep == (s - {p}) * keep;
      }
    }
  }

  /** A range scan. */
  function Range(keys: set<AnnouncePath>, lo: AnnouncePath, hi: AnnouncePath): seq<AnnouncePath> {
    Sorted(set p | p in keys && InRange(p, lo, hi))
  }

  /** The scan of a content's range is the ordered list of all keys with its hash. */
  lemma RangeScan(keys: set<AnnouncePath>, content: HashAndFormat)
    ensures Range(keys, ContentMin(content), ContentMax(content)) ==
            Sorted(set p | p in keys && p.hash == content.hash)
  {
    forall p | p in keys ensures InRange(p, ContentMin(content), ContentMax(content)) <==> p.hash == content.hash {
      RangeIsHash(content, p);
    }
    assert (set p | p in keys && InRange(p, ContentMin(content), ContentMax(content))) ==
           (set p | p in keys && p.hash == content.hash);
  }
}
