// The tracker as a sequential interpreter of its messages
// (content-discovery/iroh-content-tracker/src/tracker.rs).
module Tracker {
  import opened Base
  import opened TrackerKeys

  /** Absolute time, in microseconds. */
  type Time = u64

  datatype Announce = Announce(host: EndpointId, content: HashAndFormat, kind: AnnounceKind, timestamp: Time)

  datatype SignedAnnounce = SignedAnnounce(announce: Announce, signature: Bytes)

  datatype AnnounceValue = AnnounceValue(timestamp: Time, signature: Bytes)

  function PathOf(a: Announce): AnnouncePath {
    NewPath(a.content, a.kind, a.host)
  }

  function Split(a: SignedAnnounce): (AnnouncePath, AnnounceValue) {
    (PathOf(a.announce), AnnounceValue(a.announce.timestamp, a.signature))
  }

  function Join(p: AnnouncePath, v: AnnounceValue): SignedAnnounce {
    SignedAnnounce(Announce(p.endpoint, Content(p), KindOf(p), v.timestamp), v.signature)
  }

  /** Nothing of an announce is lost in the table. */
  lemma JoinSplit(a: SignedAnnounce)
    ensures Join(Split(a).0, Split(a).1) == a
  {
  }

  // ----- state and messages

  datatype Tables = Tables(announces: map<AnnouncePath, AnnounceValue>, probes: map<AnnouncePath, Time>)

  /** The tables, and the sizes remembered between probes. */
  datatype State = State(
    tables: Tables,
    sizes: map<Bytes32, u64>,
    collections: map<Bytes32, (Bytes, seq<u64>)>)

  /**
   * Durations are in microseconds. Ages are whole microseconds, so rounding a duration down
   * to them changes no comparison. `verify` is the check of a signature against its announce.
   */
  datatype Config = Config(
    announceTimeout: nat,
    announceExpiry: nat,
    probeTimeout: nat,
    probeExpiry: nat,
    verify: SignedAnnounce -> bool)

  datatype Query = Query(content: HashAndFormat, complete: bool, verified: bool)

  datatype ProbeResult = ProbeResult(content: HashAndFormat, kind: AnnounceKind, ok: bool)

  /** `now` in a message is the clock reading of its handler. */
  datatype Message =
    | AnnounceMsg(announce: SignedAnnounce)
    | QueryMsg(query: Query, now: Time)
    | GetSize(hash: Bytes32)
    | GetSizes(hash: Bytes32)
    | SetSize(hash: Bytes32, size: u64)
    | SetSizes(hash: Bytes32, sizes: (Bytes, seq<u64>))
    | GetContentForEndpoint(endpoint: EndpointId)
    | StoreProbeResult(endpoint: EndpointId, results: seq<ProbeResult>, now: Time)
    | GetDistinctContent
    | Gc(now: Time)
    | Dump
    | Stop

  datatype Reply =
    | NoReply
    | Rejected
    | Announced(newContent: bool, newHostForContent: bool)
    | Hosts(hosts: seq<SignedAnnounce>)
    | SizeReply(size: Option<u64>)
    | SizesReply(sizes: Option<(Bytes, seq<u64>)>)
    | ContentReply(content: map<AnnounceKind, HashAndFormat>)
    | DistinctReply(contents: set<HashAndFormat>, endpoints: set<EndpointId>)
    | GcDone

  datatype Category = ReadWrite | ReadOnly

  function CategoryOf(m: Message): Category {
    if m.AnnounceMsg? || m.SetSize? || m.SetSizes? || m.StoreProbeResult? || m.Gc? then ReadWrite else ReadOnly
  }

  // ----- handlers

  /** Ages wrap around: a timestamp after `now` looks very old. */
  function Elapsed(now: Time, t: Time): (r: Time)
    ensures r == if t <= now then now - t else now - t + 0x1_0000_0000_0000_0000
  {
    (now - t) % 0x1_0000_0000_0000_0000
  }

  function HandleAnnounce(cfg: Config, t: Tables, a: SignedAnnounce): (Tables, Reply) {
    if !cfg.verify(a) then (t, Rejected)
    else
      var (path, value) := Split(a);
      var known := exists p :: p in t.announces && p.hash == path.hash;
      var update := path !in t.announces || t.announces[path].timestamp < value.timestamp;
      (if update then t.(announces := t.announces[path := value]) else t, Announced(!known, path !in t.announces))
  }

  /** An announce that a query asks for. The format of the content does not matter. */
  predicate Matches(cfg: Config, t: Tables, q: Query, now: Time, p: AnnouncePath)
    requires p in t.announces
  {
    && p.hash == q.content.hash
    && (q.complete ==> KindOf(p) == Complete)
    && Elapsed(now, t.announces[p].timestamp) <= cfg.announceTimeout
    && (q.verified ==> p in t.probes && Elapsed(now, t.probes[p]) <= cfg.probeTimeout)
  }

  function MatchSet(cfg: Config, t: Tables, q: Query, now: Time): set<AnnouncePath> {
    set p | p in t.announces && Matches(cfg, t, q, now, p)
  }

  function JoinAll(announces: map<AnnouncePath, AnnounceValue>, paths: seq<AnnouncePath>): seq<SignedAnnounce> {
    if paths == [] then []
    else (if paths[0] in announces then [Join(paths[0], announces[paths[0]])] else []) + JoinAll(announces, paths[1..])
  }

  /** All announces of the table that match, in key order. */
  function HandleQuery(cfg: Config, t: Tables, q: Query, now: Time): seq<SignedAnnounce> {
    JoinAll(t.announces, Sorted(MatchSet(cfg, t, q, now)))
  }

  /** For each kind, the content that a scan meets last. */
  function LastPerKind(paths: seq<AnnouncePath>, endpoint: EndpointId): map<AnnounceKind, HashAndFormat> {
    if paths == [] then map[]
    else
      var before, p := LastPerKind(paths[..|paths| - 1], endpoint), Last(paths);
      if p.endpoint == endpoint then before[KindOf(p) := Content(p)] else before
  }

  function StoreProbes(probes: map<AnnouncePath, Time>, endpoint: EndpointId, results: seq<ProbeResult>, now: Time)
    : map<AnnouncePath, Time>
  {
    probes + map p | p in Probed(endpoint, results) :: now
  }

  function Probed(endpoint: EndpointId, results: seq<ProbeResult>): set<AnnouncePath> {
    set r | r in results && r.ok :: NewPath(r.content, r.kind, endpoint)
  }

  /** Both ages are computed from the time of the probe. */
  predicate Expired(cfg: Config, now: Time, probed: Time) {
    Elapsed(now, probed) > cfg.announceExpiry && Elapsed(now, probed) > cfg.probeExpiry
  }

  function ExpiredPaths(cfg: Config, t: Tables, now: Time): set<AnnouncePath> {
    set p | p in t.probes && Expired(cfg, now, t.probes[p])
  }

  function GcTables(cfg: Config, t: Tables, now: Time): Tables {
    Tables(t.announces - ExpiredPaths(cfg, t, now), t.probes - ExpiredPaths(cfg, t, now))
  }

  // ----- one message after the other

  function Get<K, V>(m: map<K, V>, k: K): Option<V> {
    if k in m then Some(m[k]) else None
  }

  function Handle(cfg: Config, s: State, m: Message): (State, Reply) {
    match m
    case AnnounceMsg(a) => var (t, reply) := HandleAnnounce(cfg, s.tables, a); (s.(tables := t), reply)
    case QueryMsg(q, now) => (s, Hosts(HandleQuery(cfg, s.tables, q, now)))
    case GetSize(hash) => (s, SizeReply(Get(s.sizes, hash)))
    case GetSizes(hash) => (s, SizesReply(Get(s.collections, hash)))
    case SetSize(hash, size) => (s.(sizes := s.sizes[hash := size]), NoReply)
    case SetSizes(hash, sizes) => (s.(collections := s.collections[hash := sizes]), NoReply)
    case GetContentForEndpoint(endpoint) =>
      (s, ContentReply(LastPerKind(Sorted(s.tables.announces.Keys), endpoint)))
    case StoreProbeResult(endpoint, results, now) =>
      (s.(tables := s.tables.(probes := StoreProbes(s.tables.probes, endpoint, results, now))), NoReply)
    case GetDistinctContent =>
      (s, DistinctReply((set p | p in s.tables.announces :: Content(p)),
                        (set p | p in s.tables.announces :: p.endpoint)))
    case Gc(now) => (s.(tables := GcTables(cfg, s.tables, now)), GcDone)
    case Dump => (s, NoReply)
    case Stop => (s, NoReply)
  }

  /** Handles messages one at a time, in order. */
  function Interpret(cfg: Config, s: State, msgs: seq<Message>): (r: (State, seq<Reply>))
    ensures |r.1| == |msgs|
  {
    if msgs == [] then (s, [])
    else
      var (before, replies) := Interpret(cfg, s, msgs[..|msgs| - 1]);
      var (after, reply) := Handle(cfg, before, Last(msgs));
      (after, replies + [reply])
  }

  /** One message more. */
  lemma InterpretNext(cfg: Config, s: State, queue: seq<Message>, n: nat)
    requires n < |queue|
    ensures var before, after := Interpret(cfg, s, queue[..n]), Interpret(cfg, s, queue[..n + 1]);
            var (state, reply) := Handle(cfg, before.0, queue[n]);
            after == (state, before.1 + [reply])
  {
    hide Handle;
    assert queue[..n + 1][..n] == queue[..n];
  }

  /** To interpret two stretches of messages is to interpret them as one. */
  lemma {:induction false} InterpretAppend(cfg: Config, s: State, a: seq<Message>, b: seq<Message>)
    ensures var mid := Interpret(cfg, s, a);
            var end := Interpret(cfg, mid.0, b);
            Interpret(cfg, s, a + b) == (end.0, mid.1 + end.1)
    decreases |b|
  {
    hide Handle;
    if b == [] {
      assert a + b == a;
      assert Interpret(cfg, s, a).1 + [] == Interpret(cfg, s, a).1;
    } else {
      var n := |b| - 1;
      hide Interpret;
      InterpretAppend(cfg, s, a, b[..n]);
      InterpretNext(cfg, Interpret(cfg, s, a).0, b, n);
      InterpretNext(cfg, s, a + b, |a| + n);
      var mid := Interpret(cfg, s, a);
      var most := Interpret(cfg, mid.0, b[..n]);
      ConcatAssociative(mid.1, most.1, [Handle(cfg, most.0, b[n]).1]);
      assert (a + b)[|a| + n] == b[n] && (a + b)[..|a| + n] == a + b[..n];
      assert (a + b)[..|a| + n + 1] == a + b && b[..n + 1] == b;
    }
  }

  lemma StoreProbesNext(probes: map<AnnouncePath, Time>, endpoint: EndpointId, results: seq<ProbeResult>, n: nat,
                        now: Time)
    requires n < |results|
    ensures var before := StoreProbes(probes, endpoint, results[..n], now);
            StoreProbes(probes, endpoint, results[..n + 1], now) ==
              if results[n].ok then before[NewPath(results[n].content, results[n].kind, endpoint) := now] else before
  {
    hide NewPath;
    assert results[..n + 1] == results[..n] + [results[n]];
    var path := NewPath(results[n].content, results[n].kind, endpoint);
    assert Probed(endpoint, results[..n + 1]) == Probed(endpoint, results[..n]) + if results[n].ok then {path} else {};
  }

  lemma {:induction false} JoinAllAppend(announces: map<AnnouncePath, AnnounceValue>, paths: seq<AnnouncePath>,
                                         p: AnnouncePath)
    requires p in announces
    ensures JoinAll(announces, paths + [p]) == JoinAll(announces, paths) + [Join(p, announces[p])]
  {
    hide Join;
    if paths == [] {
      assert [p][1..] == [];
    } else {
      JoinAllAppend(announces, paths[1..], p);
      assert (paths + [p])[0] == paths[0] && (paths + [p])[1..] == paths[1..] + [p];
    }
  }
}
