// What holds of the tracker over all runs.
module TrackerTheorems {
  import opened Base
  import opened TrackerKeys
  import opened Tracker

  // ----- the announce table

  /** The message at `i` is an announce for `p` that verifies. */
  ghost predicate Arrives(cfg: Config, msgs: seq<Message>, i: nat, p: AnnouncePath) {
    && i < |msgs| && msgs[i].AnnounceMsg?
    && cfg.verify(msgs[i].announce) && PathOf(msgs[i].announce.announce) == p
  }

  ghost function Stamp(msgs: seq<Message>, i: nat): Time
    requires i < |msgs| && msgs[i].AnnounceMsg?
  {
    msgs[i].announce.announce.timestamp
  }

  /** The announce at `i` has the greatest timestamp for `p`, and is the first with it. */
  ghost predicate Wins(cfg: Config, msgs: seq<Message>, i: nat, p: AnnouncePath) {
    && Arrives(cfg, msgs, i, p)
    && forall j: nat :: Arrives(cfg, msgs, j, p) ==>
         Stamp(msgs, j) < Stamp(msgs, i) || (Stamp(msgs, j) == Stamp(msgs, i) && i <= j)
  }

  ghost predicate NoGc(msgs: seq<Message>) {
    forall m :: m in msgs ==> !m.Gc?
  }

  /** The entry that the table had for `p` before the messages: none of them is newer. */
  ghost predicate OldWins(cfg: Config, first: map<AnnouncePath, AnnounceValue>, msgs: seq<Message>, p: AnnouncePath) {
    p in first && forall j: nat :: Arrives(cfg, msgs, j, p) ==> Stamp(msgs, j) <= first[p].timestamp
  }

  /** The announce at `i` wins, and is newer than the entry that the table had. */
  ghost predicate NewWins(cfg: Config, first: map<AnnouncePath, AnnounceValue>, msgs: seq<Message>, i: nat,
                          p: AnnouncePath)
  {
    Wins(cfg, msgs, i, p) && (p in first ==> first[p].timestamp < Stamp(msgs, i))
  }

  /** After the messages the table has, for `p`, the first of the newest of the entry it had and all that arrived. */
  ghost predicate HoldsWinner(cfg: Config, first: map<AnnouncePath, AnnounceValue>, msgs: seq<Message>,
                              announces: map<AnnouncePath, AnnounceValue>, p: AnnouncePath)
  {
    && (p in announces <==> p in first || exists i: nat :: Arrives(cfg, msgs, i, p))
    && (p in announces ==>
          || (OldWins(cfg, first, msgs, p) && announces[p] == first[p])
          || exists i: nat :: NewWins(cfg, first, msgs, i, p) && announces[p] == Split(msgs[i].announce).1)
  }

  function After(cfg: Config, s: State, msgs: seq<Message>): State {
    Interpret(cfg, s, msgs).0
  }

  /**
   * Last writer wins: after any messages without gc, a tracker holds, for exactly the paths that it
   * had or that a verified announce arrived for, the first among those with the greatest
   * timestamp, where the entry it had counts as the first to arrive.
   */
  lemma {:induction false} AnnounceTable(cfg: Config, s: State, msgs: seq<Message>, p: AnnouncePath)
    requires NoGc(msgs)
    ensures HoldsWinner(cfg, s.tables.announces, msgs, After(cfg, s, msgs).tables.announces, p)
    decreases |msgs|
  {
    if msgs != [] {
      var front, m := msgs[..|msgs| - 1], Last(msgs);
      assert m in msgs && forall x :: x in front ==> x in msgs;
      AnnounceTable(cfg, s, front, p);
      OneMoreMessage(cfg, s.tables.announces, front, m, After(cfg, s, front), p);
      assert msgs == front + [m];
    }
  }

  lemma OneMoreMessage(cfg: Config, first: map<AnnouncePath, AnnounceValue>, front: seq<Message>, m: Message, s: State,
                       p: AnnouncePath)
    requires HoldsWinner(cfg, first, front, s.tables.announces, p) && !m.Gc?
    ensures HoldsWinner(cfg, first, front + [m], Handle(cfg, s, m).0.tables.announces, p)
  {
    hide Handle, Split, PathOf;
    var msgs := front + [m];
    assert forall i: nat :: i < |front| ==> (Arrives(cfg, msgs, i, p) <==> Arrives(cfg, front, i, p));
    var before, after := s.tables.announces, Handle(cfg, s, m).0.tables.announces;
    if Arrives(cfg, msgs, |front|, p) {
      ArrivalUpdates(cfg, s, m, p);
      StampIsTimestamp(m.announce);
      if p in before {
        ArrivalAgainst(cfg, first, front, m, before[p], p);
      } else {
        assert NewWins(cfg, first, msgs, |front|, p) && after[p] == Split(msgs[|front|].announce).1;
      }
    } else {
      OthersKeep(cfg, s, m, p);
      if p in before && !(OldWins(cfg, first, front, p) && before[p] == first[p]) {
        var i: nat :| NewWins(cfg, first, front, i, p) && before[p] == Split(front[i].announce).1;
        assert NewWins(cfg, first, msgs, i, p) && after[p] == Split(msgs[i].announce).1;
      }
    }
  }

  /** The winner against one more arrival: it stays unless the arrival is newer. */
  lemma ArrivalAgainst(cfg: Config, first: map<AnnouncePath, AnnounceValue>, front: seq<Message>, m: Message,
                       v: AnnounceValue, p: AnnouncePath)
    requires || (OldWins(cfg, first, front, p) && v == first[p])
             || exists i: nat :: NewWins(cfg, first, front, i, p) && v == Split(front[i].announce).1
    requires Arrives(cfg, front + [m], |front|, p)
    ensures var msgs := front + [m];
            if v.timestamp < Split(m.announce).1.timestamp then
              NewWins(cfg, first, msgs, |front|, p) && msgs[|front|] == m
            else
              || (OldWins(cfg, first, msgs, p) && v == first[p])
              || exists i: nat :: NewWins(cfg, first, msgs, i, p) && v == Split(msgs[i].announce).1
  {
    hide Split, PathOf;
    var msgs := front + [m];
    assert forall i: nat :: i < |front| ==> (Arrives(cfg, msgs, i, p) <==> Arrives(cfg, front, i, p));
    StampIsTimestamp(m.announce);
    if !(OldWins(cfg, first, front, p) && v == first[p]) {
      var i: nat :| NewWins(cfg, first, front, i, p) && v == Split(front[i].announce).1;
      StampIsTimestamp(front[i].announce);
      if v.timestamp >= Split(m.announce).1.timestamp {
        assert NewWins(cfg, first, msgs, i, p) && v == Split(msgs[i].announce).1;
      }
    }
  }

  lemma StampIsTimestamp(a: SignedAnnounce)
    ensures Split(a).1.timestamp == a.announce.timestamp
  {
  }

  lemma ArrivalUpdates(cfg: Config, s: State, m: Message, p: AnnouncePath)
    requires m.AnnounceMsg? && cfg.verify(m.announce) && PathOf(m.announce.announce) == p
    ensures var after, v := Handle(cfg, s, m).0.tables.announces, Split(m.announce).1;
            && p in after
            && after[p] == if p in s.tables.announces && !(s.tables.announces[p].timestamp < v.timestamp)
                          then s.tables.announces[p] else v
  {
  }

  lemma OthersKeep(cfg: Config, s: State, m: Message, p: AnnouncePath)
    requires !m.Gc?
    requires m.AnnounceMsg? && cfg.verify(m.announce) ==> PathOf(m.announce.announce) != p
    ensures var before, after := s.tables.announces, Handle(cfg, s, m).0.tables.announces;
            (p in after <==> p in before) && (p in before ==> after[p] == before[p])
  {
  }

  ghost predicate Announces(cfg: Config, msgs: seq<Message>, a: SignedAnnounce) {
    AnnounceMsg(a) in msgs && cfg.verify(a)
  }

  /** Every stored entry joins to an announce that verifies, and that belongs under its key. */
  ghost predicate AllVerify(cfg: Config, t: Tables) {
    forall p :: p in t.announces ==>
      cfg.verify(Join(p, t.announces[p])) && PathOf(Join(p, t.announces[p]).announce) == p
  }

  /** In every run, gc included, all entries stay verified. So no query answers with a forged announce. */
  lemma {:induction false} RunsStayVerified(cfg: Config, s: State, msgs: seq<Message>)
    requires AllVerify(cfg, s.tables)
    ensures AllVerify(cfg, After(cfg, s, msgs).tables)
    decreases |msgs|
  {
    if msgs != [] {
      RunsStayVerified(cfg, s, msgs[..|msgs| - 1]);
      HandleKeepsVerified(cfg, After(cfg, s, msgs[..|msgs| - 1]), Last(msgs));
    }
  }

  lemma HandleKeepsVerified(cfg: Config, s: State, m: Message)
    requires AllVerify(cfg, s.tables)
    ensures AllVerify(cfg, Handle(cfg, s, m).0.tables)
  {
    hide NewPath, Join;
    if m.AnnounceMsg? {
      JoinSplit(m.announce);
    }
  }

  /** A tracker has the announce from the start. */
  ghost predicate Stored(t: Tables, a: SignedAnnounce) {
    var p := PathOf(a.announce);
    p in t.announces && a == Join(p, t.announces[p])
  }

  /** A tracker got the announce: it had it from the start, or it arrived and verified. */
  ghost predicate Got(cfg: Config, t: Tables, msgs: seq<Message>, a: SignedAnnounce) {
    Stored(t, a) || Announces(cfg, msgs, a)
  }

  /** No two announces for the same path have the same timestamp. */
  ghost predicate DistinctStamps(cfg: Config, t: Tables, msgs: seq<Message>) {
    forall a, b :: Got(cfg, t, msgs, a) && Got(cfg, t, msgs, b) ==>
      PathOf(a.announce) == PathOf(b.announce) && a.announce.timestamp == b.announce.timestamp ==> a == b
  }

  /** For `p`, the table has the newest of the announces that the tracker got, if it got any. */
  ghost predicate HoldsNewest(cfg: Config, t: Tables, msgs: seq<Message>, announces: map<AnnouncePath, AnnounceValue>,
                              p: AnnouncePath)
  {
    && (p in announces <==> exists a :: Got(cfg, t, msgs, a) && PathOf(a.announce) == p)
    && (p in announces ==>
          var newest := Join(p, announces[p]);
          && Got(cfg, t, msgs, newest) && PathOf(newest.announce) == p
          && forall a :: Got(cfg, t, msgs, a) && PathOf(a.announce) == p ==>
               a.announce.timestamp <= newest.announce.timestamp)
  }

  lemma ArrivalIsGot(cfg: Config, t: Tables, msgs: seq<Message>, i: nat, p: AnnouncePath)
    requires Arrives(cfg, msgs, i, p)
    ensures Got(cfg, t, msgs, msgs[i].announce) && Join(p, Split(msgs[i].announce).1) == msgs[i].announce
  {
    JoinSplit(msgs[i].announce);
    assert msgs[i] in msgs;
  }

  lemma GotArrived(cfg: Config, t: Tables, msgs: seq<Message>, a: SignedAnnounce)
    requires Got(cfg, t, msgs, a)
    ensures Stored(t, a) || exists i: nat :: Arrives(cfg, msgs, i, PathOf(a.announce)) && msgs[i].announce == a
  {
    if !Stored(t, a) {
      var i: nat :| i < |msgs| && msgs[i] == AnnounceMsg(a);
      assert Arrives(cfg, msgs, i, PathOf(a.announce));
    }
  }

  lemma JoinedStamp(p: AnnouncePath, v: AnnounceValue)
    ensures Join(p, v).announce.timestamp == v.timestamp
  {
  }

  lemma EntryIsStored(cfg: Config, t: Tables, p: AnnouncePath)
    requires AllVerify(cfg, t) && p in t.announces
    ensures Stored(t, Join(p, t.announces[p])) && PathOf(Join(p, t.announces[p]).announce) == p
  {
  }

  lemma StoredIsGot(cfg: Config, t: Tables, msgs: seq<Message>, a: SignedAnnounce)
    ensures Stored(t, a) ==> Got(cfg, t, msgs, a)
    ensures var p := PathOf(a.announce); Stored(t, a) <==> p in t.announces && a == Join(p, t.announces[p])
  {
  }

  /** A winner is the newest, for an announce that the tracker got. */
  lemma WinnerIsNewest(cfg: Config, t: Tables, msgs: seq<Message>, announces: map<AnnouncePath, AnnounceValue>,
                       p: AnnouncePath)
    requires AllVerify(cfg, t) && HoldsWinner(cfg, t.announces, msgs, announces, p)
    ensures HoldsNewest(cfg, t, msgs, announces, p)
  {
    hide Split, Join, PathOf, AllVerify, Got, Stored;
    if p in t.announces {
      EntryIsStored(cfg, t, p);
      JoinedStamp(p, t.announces[p]);
      StoredIsGot(cfg, t, msgs, Join(p, t.announces[p]));
    }
    forall i: nat | Arrives(cfg, msgs, i, p)
      ensures Got(cfg, t, msgs, msgs[i].announce) && Join(p, Split(msgs[i].announce).1) == msgs[i].announce
    {
      ArrivalIsGot(cfg, t, msgs, i, p);
    }
    forall a | Got(cfg, t, msgs, a) && PathOf(a.announce) == p
      ensures (p in t.announces && a == Join(p, t.announces[p])) ||
              exists i: nat :: Arrives(cfg, msgs, i, p) && msgs[i].announce == a
    {
      GotArrived(cfg, t, msgs, a);
      StoredIsGot(cfg, t, msgs, a);
    }
  }

  /**
   * Convergence: two trackers that got the same verified announces, at the start or in a run
   * without gc, in whatever order and however often each, end with the same announce table,
   * if the timestamps are distinct.
   */
  lemma AnnouncesConverge(cfg: Config, s: State, s': State, msgs: seq<Message>, msgs': seq<Message>)
    requires AllVerify(cfg, s.tables) && AllVerify(cfg, s'.tables)
    requires NoGc(msgs) && NoGc(msgs') && DistinctStamps(cfg, s.tables, msgs)
    requires forall a :: Got(cfg, s.tables, msgs, a) <==> Got(cfg, s'.tables, msgs', a)
    ensures After(cfg, s, msgs).tables.announces == After(cfg, s', msgs').tables.announces
  {
    hide After, Split, Join, Got, AllVerify, PathOf;
    var r, r' := After(cfg, s, msgs).tables.announces, After(cfg, s', msgs').tables.announces;
    forall p ensures (p in r <==> p in r') && (p in r ==> r[p] == r'[p]) {
      AnnounceTable(cfg, s, msgs, p);
      AnnounceTable(cfg, s', msgs', p);
      WinnerIsNewest(cfg, s.tables, msgs, r, p);
      WinnerIsNewest(cfg, s'.tables, msgs', r', p);
      if p in r {
        assert Join(p, r[p]) == Join(p, r'[p]);
        JoinInjective(p, r[p], r'[p]);
      }
    }
  }

  lemma JoinInjective(p: AnnouncePath, v: AnnounceValue, w: AnnounceValue)
    requires Join(p, v) == Join(p, w)
    ensures v == w
  {
  }

  lemma {:induction false} JoinAllMembers(announces: map<AnnouncePath, AnnounceValue>, paths: seq<AnnouncePath>)
    ensures forall a :: a in JoinAll(announces, paths) <==>
      exists p :: p in paths && p in announces && a == Join(p, announces[p])
  {
    hide Join;
    if paths != [] {
      JoinAllMembers(announces, paths[1..]);
    }
  }

  lemma MatchingAnswers(cfg: Config, t: Tables, q: Query, now: Time)
    ensures forall a :: a in HandleQuery(cfg, t, q, now) <==>
      exists p :: p in t.announces && Matches(cfg, t, q, now, p) && a == Join(p, t.announces[p])
  {
    hide Join, Matches;
    JoinAllMembers(t.announces, Sorted(MatchSet(cfg, t, q, now)));
    SortedElems(MatchSet(cfg, t, q, now));
    assert forall p :: p in Sorted(MatchSet(cfg, t, q, now)) <==> p in Elems(Sorted(MatchSet(cfg, t, q, now)));
  }

  /** Of the announces in a table, `hosts` are those that a query is to be answered with. */
  ghost predicate Answers(cfg: Config, t: Tables, q: Query, now: Time, hosts: seq<SignedAnnounce>) {
    forall a :: a in hosts <==>
      exists p :: p in t.announces && a == Join(p, t.announces[p])
        && p.hash == q.content.hash
        && (q.complete ==> p.kind != 0)
        && Elapsed(now, t.announces[p].timestamp) <= cfg.announceTimeout
        && (q.verified ==> p in t.probes && Elapsed(now, t.probes[p]) <= cfg.probeTimeout)
  }

  /**
   * A query answers with exactly the announces of the table that have the hash, are complete if it asks for
   * that, are not older than the announce timeout, and, if it asks for verified ones, were
   * probed within the probe timeout. All of them verify if all entries do.
   */
  lemma QueryAnswers(cfg: Config, t: Tables, q: Query, now: Time)
    ensures Answers(cfg, t, q, now, HandleQuery(cfg, t, q, now))
    ensures AllVerify(cfg, t) ==> forall a :: a in HandleQuery(cfg, t, q, now) ==> cfg.verify(a)
  {
    hide Join, HandleQuery;
    MatchingAnswers(cfg, t, q, now);
    forall p | p in t.announces
      ensures Matches(cfg, t, q, now, p) <==>
        && p.hash == q.content.hash
        && (q.complete ==> p.kind != 0)
        && Elapsed(now, t.announces[p].timestamp) <= cfg.announceTimeout
        && (q.verified ==> p in t.probes && Elapsed(now, t.probes[p]) <= cfg.probeTimeout)
    {
    }
  }

  /** Every query for the content, at any time, is answered with announces of just this content. */
  ghost predicate AnswersExactly(cfg: Config, t: Tables, content: HashAndFormat) {
    forall q: Query, now: Time, a | q.content == content && a in HandleQuery(cfg, t, q, now) ::
      a.announce.content == content
  }

  /**
   * A query names a hash and a format, and is answered by the hash. So its answers have the format
   * if and only if the table has no announce of the same hash in another format.
   */
  lemma AnswersExactlyIff(cfg: Config, t: Tables, content: HashAndFormat)
    ensures AnswersExactly(cfg, t, content) <==>
            forall p :: p in t.announces && p.hash == content.hash ==> Content(p) == content
  {
    hide HandleQuery, Content;
    forall q: Query, now: Time, a | q.content == content && a in HandleQuery(cfg, t, q, now)
      ensures exists p :: p in t.announces && p.hash == content.hash && Content(p) == a.announce.content
    {
      MatchingAnswers(cfg, t, q, now);
    }
    if p :| p in t.announces && p.hash == content.hash && Content(p) != content {
      // asked for at the time of its timestamp, the announce is not too old
      var q, now := Query(content, false, false), t.announces[p].timestamp;
      assert Matches(cfg, t, q, now, p);
      MatchingAnswers(cfg, t, q, now);
      assert Join(p, t.announces[p]) in HandleQuery(cfg, t, q, now);
    }
  }

  lemma {:induction false} JoinAllKeepsOrder(announces: map<AnnouncePath, AnnounceValue>, paths: seq<AnnouncePath>)
    requires forall p :: p in paths ==> p in announces && PathOf(Join(p, announces[p]).announce) == p
    ensures |JoinAll(announces, paths)| == |paths|
    ensures forall i :: 0 <= i < |paths| ==> PathOf(JoinAll(announces, paths)[i].announce) == paths[i]
  {
    hide Join, PathOf;
    if paths != [] {
      JoinAllKeepsOrder(announces, paths[1..]);
    }
  }

  /** A query answers in the strict order of keys: no endpoint twice for the same content and kind. */
  lemma QueryInOrder(cfg: Config, t: Tables, q: Query, now: Time)
    requires AllVerify(cfg, t)
    ensures var hosts := HandleQuery(cfg, t, q, now);
            forall i, j :: 0 <= i < j < |hosts| ==> Before(PathOf(hosts[i].announce), PathOf(hosts[j].announce))
  {
    hide Join, Matches, Before, PathOf;
    var matching := MatchSet(cfg, t, q, now);
    SortedElems(matching);
    SortedAscends(matching);
    assert forall p :: p in Sorted(matching) <==> p in Elems(Sorted(matching));
    JoinAllKeepsOrder(t.announces, Sorted(matching));
  }

  // ----- probes

  /** `p` is the last of the paths of an endpoint with this kind. */
  ghost predicate LastOfKind(paths: seq<AnnouncePath>, endpoint: EndpointId, kind: AnnounceKind, p: AnnouncePath) {
    && p in paths && p.endpoint == endpoint && KindOf(p) == kind
    && forall q :: q in paths && q.endpoint == endpoint && KindOf(q) == kind ==> q == p || Before(q, p)
  }

  /** One more path is the last of its kind, and leaves the last of another kind the last. */
  lemma LastStays(front: seq<AnnouncePath>, p: AnnouncePath, endpoint: EndpointId, kind: AnnounceKind)
    requires Ascending(front + [p])
    ensures p.endpoint == endpoint && KindOf(p) == kind ==> LastOfKind(front + [p], endpoint, kind, p)
    ensures !(p.endpoint == endpoint && KindOf(p) == kind) ==>
      forall q :: LastOfKind(front, endpoint, kind, q) ==> LastOfKind(front + [p], endpoint, kind, q)
  {
    hide Before, KindOf;
    var paths := front + [p];
    assert paths[|front|] == p;
    forall q | q in front ensures Before(q, p) {
      var i :| 0 <= i < |front| && front[i] == q;
      assert paths[i] == q;
    }
  }

  lemma {:induction false} LastPerKindMeaning(paths: seq<AnnouncePath>, endpoint: EndpointId, kind: AnnounceKind)
    requires Ascending(paths)
    ensures var r := LastPerKind(paths, endpoint);
            && (kind in r <==> exists p :: p in paths && p.endpoint == endpoint && KindOf(p) == kind)
            && (kind in r ==> exists p :: LastOfKind(paths, endpoint, kind, p) && r[kind] == Content(p))
    decreases |paths|
  {
    hide Before, KindOf, Content;
    if paths != [] {
      var front, p := paths[..|paths| - 1], Last(paths);
      LastPerKindMeaning(front, endpoint, kind);
      assert paths == front + [p];
      LastStays(front, p, endpoint, kind);
    }
  }

  /**
   * The content to probe at an endpoint is, for each kind it announced, the one with the greatest
   * key: an endpoint with several contents of a kind has only that one probed.
   */
  lemma OneContentPerKind(cfg: Config, s: State, endpoint: EndpointId, kind: AnnounceKind)
    ensures var keys := s.tables.announces.Keys;
            var r := Handle(cfg, s, GetContentForEndpoint(endpoint)).1.content;
            && (kind in r <==> exists p :: p in keys && p.endpoint == endpoint && KindOf(p) == kind)
            && (kind in r ==> exists p :: LastOfKind(Sorted(keys), endpoint, kind, p) && r[kind] == Content(p))
  {
    hide Before, KindOf;
    var keys := s.tables.announces.Keys;
    SortedElems(keys);
    SortedAscends(keys);
    assert forall p :: p in Sorted(keys) <==> p in Elems(Sorted(keys));
    LastPerKindMeaning(Sorted(keys), endpoint, kind);
  }

  /** Every content that the endpoint announced is in the reply, under each kind it was announced with. */
  ghost predicate CoversAll(s: State, endpoint: EndpointId, reply: map<AnnounceKind, HashAndFormat>) {
    forall p :: OfEndpoint(s, endpoint, p) ==> Get(reply, KindOf(p)) == Some(Content(p))
  }

  ghost predicate OfEndpoint(s: State, endpoint: EndpointId, p: AnnouncePath) {
    p in s.tables.announces && p.endpoint == endpoint
  }

  /** The contents to probe are complete if and only if the endpoint announced no two contents with one kind. */
  lemma CoversAllIff(cfg: Config, s: State, endpoint: EndpointId)
    ensures CoversAll(s, endpoint, Handle(cfg, s, GetContentForEndpoint(endpoint)).1.content) <==>
            forall p, q :: OfEndpoint(s, endpoint, p) && OfEndpoint(s, endpoint, q) && KindOf(p) == KindOf(q) ==>
              Content(p) == Content(q)
  {
    hide KindOf, Content;
    var keys := s.tables.announces.Keys;
    SortedElems(keys);
    var reply := Handle(cfg, s, GetContentForEndpoint(endpoint)).1.content;
    forall p | OfEndpoint(s, endpoint, p)
      ensures exists q :: OfEndpoint(s, endpoint, q) && KindOf(q) == KindOf(p) &&
                          Get(reply, KindOf(p)) == Some(Content(q))
    {
      OneContentPerKind(cfg, s, endpoint, KindOf(p));
      var q :| LastOfKind(Sorted(keys), endpoint, KindOf(p), q) && reply[KindOf(p)] == Content(q);
      assert q in Elems(Sorted(keys));
    }
  }

  /** A good probe sets the time of its path; a failed one leaves the time of the last good one. */
  lemma ProbeTimes(cfg: Config, s: State, endpoint: EndpointId, results: seq<ProbeResult>, now: Time, p: AnnouncePath)
    ensures var probes := Handle(cfg, s, StoreProbeResult(endpoint, results, now)).0.tables.probes;
            if exists r :: r in results && r.ok && NewPath(r.content, r.kind, endpoint) == p
            then p in probes && probes[p] == now
            else Get(probes, p) == Get(s.tables.probes, p)
  {
  }

  // ----- garbage collection

  const MAX_TIME: nat := 0xFFFF_FFFF_FFFF_FFFF

  /** The later of the two expiries. */
  function Expiry(cfg: Config): nat {
    if cfg.announceExpiry < cfg.probeExpiry then cfg.probeExpiry else cfg.announceExpiry
  }

  ghost predicate ProbedBefore(t: Tables, now: Time) {
    forall p :: p in t.probes ==> t.probes[p] <= now
  }

  /**
   * Garbage collection removes exactly the paths whose last probe is older than both expiries,
   * from both tables, and nothing else. An announce that was never probed stays for ever.
   */
  lemma GcRemoves(cfg: Config, t: Tables, now: Time)
    requires ProbedBefore(t, now)
    ensures var u := GcTables(cfg, t, now);
            && (forall p :: p in u.announces <==>
                  p in t.announces && !(p in t.probes && now - t.probes[p] > Expiry(cfg)))
            && (forall p :: p in u.probes <==> p in t.probes && now - t.probes[p] <= Expiry(cfg))
            && (forall p :: p in u.announces ==> u.announces[p] == t.announces[p])
            && (forall p :: p in u.probes ==> u.probes[p] == t.probes[p])
  {
  }

  /** The age of the announce, and of the last good probe, of a path. */
  function AnnounceAge(t: Tables, now: Time, p: AnnouncePath): Time
    requires p in t.announces
  {
    Elapsed(now, t.announces[p].timestamp)
  }

  function ProbeAge(t: Tables, now: Time, p: AnnouncePath): Time
    requires p in t.probes
  {
    Elapsed(now, t.probes[p])
  }

  /** An announce that is to be removed: it is older than its expiry, and not probed within that of probes. */
  predicate Outdated(cfg: Config, t: Tables, now: Time, p: AnnouncePath)
    requires p in t.announces
  {
    && AnnounceAge(t, now, p) > cfg.announceExpiry
    && !(p in t.probes && ProbeAge(t, now, p) <= cfg.probeExpiry)
  }

  /** Of the announces, gc removes those that are outdated. */
  ghost predicate GcRemovesOutdated(cfg: Config, t: Tables, now: Time) {
    forall p :: p in t.announces ==> (p !in GcTables(cfg, t, now).announces <==> Outdated(cfg, t, now, p))
  }

  /**
   * It does so if and only if every unprobed announce is within its expiry, and for every other whose
   * probe is past the expiry of probes, announce and probe are past the expiry of announces together.
   */
  lemma GcRemovesOutdatedIff(cfg: Config, t: Tables, now: Time)
    ensures GcRemovesOutdated(cfg, t, now) <==>
            && (forall p :: p in t.announces && p !in t.probes ==> AnnounceAge(t, now, p) <= cfg.announceExpiry)
            && (forall p :: p in t.announces && p in t.probes && ProbeAge(t, now, p) > cfg.probeExpiry ==>
                  (ProbeAge(t, now, p) > cfg.announceExpiry <==> AnnounceAge(t, now, p) > cfg.announceExpiry))
  {
    forall p | p in t.announces
      ensures p !in GcTables(cfg, t, now).announces <==>
              p in t.probes && ProbeAge(t, now, p) > cfg.announceExpiry && ProbeAge(t, now, p) > cfg.probeExpiry
    {
    }
  }

  /** An input for the one direction: an announce of this instant is removed, since its last good probe is old. */
  lemma GcRemovesRecent(cfg: Config, p: AnnouncePath, signature: Bytes)
    requires Expiry(cfg) < MAX_TIME
    ensures var now: Time := Expiry(cfg) + 1;
            var t := Tables(map[p := AnnounceValue(now, signature)], map[p := 0]);
            AnnounceAge(t, now, p) == 0 && p !in GcTables(cfg, t, now).announces
  {
    var now: Time := Expiry(cfg) + 1;
    var t := Tables(map[p := AnnounceValue(now, signature)], map[p := 0]);
    GcRemoves(cfg, t, now);
  }

  /** And for the other: an announce of any age is kept, if no probe of it was ever good. */
  lemma GcKeepsUnprobed(cfg: Config, p: AnnouncePath, v: AnnounceValue, now: Time)
    requires Elapsed(now, v.timestamp) > cfg.announceExpiry
    ensures var t := Tables(map[p := v], map[]);
            Outdated(cfg, t, now, p) && GcTables(cfg, t, now) == t
  {
    var t := Tables(map[p := v], map[]);
    assert ExpiredPaths(cfg, t, now) == {};
  }

  /** A second collection at the same time removes nothing. */
  lemma GcIdempotent(cfg: Config, t: Tables, now: Time)
    ensures GcTables(cfg, GcTables(cfg, t, now), now) == GcTables(cfg, t, now)
  {
    assert ExpiredPaths(cfg, GcTables(cfg, t, now), now) == {};
  }

  /** On some tables, some verified query at some time after a collection is answered differently because of it. */
  ghost predicate GcVisible(cfg: Config) {
    exists t: Tables, q: Query, now: Time, later: Time ::
      && ProbedBefore(t, now) && now <= later && q.verified
      && HandleQuery(cfg, GcTables(cfg, t, now), q, later) != HandleQuery(cfg, t, q, later)
  }

  lemma {:induction false} JoinAllAgrees(a: map<AnnouncePath, AnnounceValue>, b: map<AnnouncePath, AnnounceValue>,
                                         paths: seq<AnnouncePath>)
    requires forall p :: p in paths ==> p in a && p in b && a[p] == b[p]
    ensures JoinAll(a, paths) == JoinAll(b, paths)
  {
    if paths != [] {
      JoinAllAgrees(a, b, paths[1..]);
    }
  }

  lemma GcInvisible(cfg: Config, t: Tables, q: Query, now: Time, later: Time)
    requires cfg.probeTimeout <= Expiry(cfg) || MAX_TIME <= Expiry(cfg)
    requires ProbedBefore(t, now) && now <= later && q.verified
    ensures HandleQuery(cfg, GcTables(cfg, t, now), q, later) == HandleQuery(cfg, t, q, later)
  {
    var u := GcTables(cfg, t, now);
    GcRemoves(cfg, t, now);
    var matching := MatchSet(cfg, t, q, later);
    assert MatchSet(cfg, u, q, later) == matching;
    SortedElems(matching);
    forall p | p in Sorted(matching) ensures p in u.announces && p in t.announces {
      assert p in Elems(Sorted(matching));
    }
    JoinAllAgrees(u.announces, t.announces, Sorted(matching));
  }

  /** A tracker with one announce, probed so long before `now` that the next collection removes it. */
  lemma GcHidesOne(cfg: Config)
    requires Expiry(cfg) < cfg.probeTimeout && Expiry(cfg) < MAX_TIME
    ensures GcVisible(cfg)
  {
    var now: Time := Expiry(cfg) + 1;
    var content := HashAndFormat(Repeat(0), Raw);
    var p := NewPath(content, Complete, Repeat(0));
    var v := AnnounceValue(now, []);
    var t, q := Tables(map[p := v], map[p := 0]), Query(content, true, true);
    assert MatchSet(cfg, t, q, now) == {p};
    SortedElems({p});
    var sorted := Sorted({p});
    assert p in Elems(sorted);
    JoinAllMembers(t.announces, sorted);
    assert Join(p, v) in HandleQuery(cfg, t, q, now);
    var u := GcTables(cfg, t, now);
    assert MatchSet(cfg, u, q, now) == {};
    assert HandleQuery(cfg, u, q, now) == [];
  }

  /**
   * Collections are invisible to verified queries if and only if the probe timeout is not longer
   * than the later of the two expiries, or that one is too long for any age to exceed it.
   */
  lemma GcInvisibleIff(cfg: Config)
    ensures !GcVisible(cfg) <==> cfg.probeTimeout <= Expiry(cfg) || MAX_TIME <= Expiry(cfg)
  {
    if cfg.probeTimeout <= Expiry(cfg) || MAX_TIME <= Expiry(cfg) {
      forall t: Tables, q: Query, now: Time, later: Time | ProbedBefore(t, now) && now <= later && q.verified
        ensures HandleQuery(cfg, GcTables(cfg, t, now), q, later) == HandleQuery(cfg, t, q, later)
      {
        GcInvisible(cfg, t, q, now, later);
      }
    } else {
      GcHidesOne(cfg);
    }
  }
}
