// What the tracker replies in a run, and what each message does to its state.
module TrackerReplies {
  import opened Base
  import opened TrackerKeys
  import opened Tracker
  import opened TrackerTheorems

  /** The reply to a message is that to it alone, in the state after the messages before it. */
  lemma {:induction false} ReplyAt(cfg: Config, s: State, msgs: seq<Message>, i: nat)
    requires i < |msgs|
    ensures Interpret(cfg, s, msgs).1[i] == Handle(cfg, After(cfg, s, msgs[..i]), msgs[i]).1
    decreases |msgs|
  {
    hide Handle, Interpret;
    var n := |msgs| - 1;
    assert msgs[..n + 1] == msgs;
    InterpretNext(cfg, s, msgs, n);
    if i < n {
      ReplyAt(cfg, s, msgs[..n], i);
      assert msgs[..n][..i] == msgs[..i];
    }
  }

  /** The state after a message more. */
  lemma AfterNext(cfg: Config, s: State, msgs: seq<Message>, n: nat)
    requires n < |msgs|
    ensures After(cfg, s, msgs[..n + 1]) == Handle(cfg, After(cfg, s, msgs[..n]), msgs[n]).0
  {
    hide Handle, Interpret;
    InterpretNext(cfg, s, msgs, n);
  }

  // ----- queries

  /**
   * In every run, each query is replied to with exactly the announces, of the table at that point, that meet
   * its conditions. Over tables whose entries verify, these verify, and are in strict key order.
   */
  lemma QueryReplies(cfg: Config, s: State, msgs: seq<Message>, i: nat)
    requires i < |msgs| && msgs[i].QueryMsg?
    ensures var reply := Interpret(cfg, s, msgs).1[i];
            && reply.Hosts?
            && Answers(cfg, After(cfg, s, msgs[..i]).tables, msgs[i].query, msgs[i].now, reply.hosts)
            && (AllVerify(cfg, s.tables) ==>
                  && (forall a :: a in reply.hosts ==> cfg.verify(a))
                  && (forall j, k :: 0 <= j < k < |reply.hosts| ==>
                        Before(PathOf(reply.hosts[j].announce), PathOf(reply.hosts[k].announce))))
  {
    hide Interpret, After, HandleQuery, Join, Before, PathOf, AllVerify;
    ReplyAt(cfg, s, msgs, i);
    var t := After(cfg, s, msgs[..i]).tables;
    QueryAnswers(cfg, t, msgs[i].query, msgs[i].now);
    if AllVerify(cfg, s.tables) {
      RunsStayVerified(cfg, s, msgs[..i]);
      QueryInOrder(cfg, t, msgs[i].query, msgs[i].now);
    }
  }

  // ----- announces

  /**
   * An announce is rejected if and only if it does not verify. Else the reply says whether no announce of the
   * same hash, in any format, and none of the same content, kind and host, was there before.
   */
  lemma AnnounceReplies(cfg: Config, s: State, msgs: seq<Message>, i: nat)
    requires i < |msgs| && msgs[i].AnnounceMsg?
    ensures var a, t := msgs[i].announce, After(cfg, s, msgs[..i]).tables;
            Interpret(cfg, s, msgs).1[i] ==
              if !cfg.verify(a) then Rejected
              else
                Announced(forall p :: p in t.announces ==> p.hash != a.announce.content.hash,
                          NewPath(a.announce.content, a.announce.kind, a.announce.host) !in t.announces)
  {
    hide Interpret, After;
    ReplyAt(cfg, s, msgs, i);
  }

  // ----- sizes

  /** The last size set for a hash, or else that of the start. */
  function LastSize(s: State, msgs: seq<Message>, hash: Bytes32): Option<u64> {
    if msgs == [] then Get(s.sizes, hash)
    else
      var m := Last(msgs);
      if m.SetSize? && m.hash == hash then Some(m.size) else LastSize(s, msgs[..|msgs| - 1], hash)
  }

  function LastSizes(s: State, msgs: seq<Message>, hash: Bytes32): Option<(Bytes, seq<u64>)> {
    if msgs == [] then Get(s.collections, hash)
    else
      var m := Last(msgs);
      if m.SetSizes? && m.hash == hash then Some(m.sizes) else LastSizes(s, msgs[..|msgs| - 1], hash)
  }

  lemma {:induction false} SizesAfter(cfg: Config, s: State, msgs: seq<Message>, hash: Bytes32)
    ensures Get(After(cfg, s, msgs).sizes, hash) == LastSize(s, msgs, hash)
    ensures Get(After(cfg, s, msgs).collections, hash) == LastSizes(s, msgs, hash)
    decreases |msgs|
  {
    if msgs != [] {
      hide After, HandleAnnounce, StoreProbes, GcTables;
      var n := |msgs| - 1;
      assert msgs[..n + 1] == msgs;
      SizesAfter(cfg, s, msgs[..n], hash);
      AfterNext(cfg, s, msgs, n);
    }
  }

  /** A size that was asked for is the last that was set before. */
  lemma SizeReplies(cfg: Config, s: State, msgs: seq<Message>, i: nat)
    requires i < |msgs|
    ensures msgs[i].GetSize? ==> Interpret(cfg, s, msgs).1[i] == SizeReply(LastSize(s, msgs[..i], msgs[i].hash))
    ensures msgs[i].GetSizes? ==> Interpret(cfg, s, msgs).1[i] == SizesReply(LastSizes(s, msgs[..i], msgs[i].hash))
  {
    hide Interpret, After, LastSize, LastSizes;
    ReplyAt(cfg, s, msgs, i);
    if msgs[i].GetSize? || msgs[i].GetSizes? {
      SizesAfter(cfg, s, msgs[..i], msgs[i].hash);
    }
  }

  // ----- contents

  /** The contents to probe at an endpoint: for each kind that it announced, the one with the greatest key. */
  lemma ContentReplies(cfg: Config, s: State, msgs: seq<Message>, i: nat, kind: AnnounceKind)
    requires i < |msgs| && msgs[i].GetContentForEndpoint?
    ensures var keys, reply := After(cfg, s, msgs[..i]).tables.announces.Keys, Interpret(cfg, s, msgs).1[i];
            && reply.ContentReply?
            && (kind in reply.content <==>
                  exists p :: p in keys && p.endpoint == msgs[i].endpoint && KindOf(p) == kind)
            && (kind in reply.content ==>
                  exists p :: LastOfKind(Sorted(keys), msgs[i].endpoint, kind, p) && reply.content[kind] == Content(p))
  {
    hide Interpret, After, KindOf, Before;
    ReplyAt(cfg, s, msgs, i);
    OneContentPerKind(cfg, After(cfg, s, msgs[..i]), msgs[i].endpoint, kind);
  }

  /** All contents and all endpoints of the table at that point. */
  lemma DistinctReplies(cfg: Config, s: State, msgs: seq<Message>, i: nat)
    requires i < |msgs| && msgs[i].GetDistinctContent?
    ensures var t, reply := After(cfg, s, msgs[..i]).tables, Interpret(cfg, s, msgs).1[i];
            && reply.DistinctReply?
            && (forall c :: c in reply.contents <==> exists p :: p in t.announces && Content(p) == c)
            && (forall e :: e in reply.endpoints <==> exists p :: p in t.announces && p.endpoint == e)
  {
    hide Interpret, After, Content;
    ReplyAt(cfg, s, msgs, i);
  }

  // ----- state

  /** What only reads changes nothing. */
  lemma ReadsChangeNothing(cfg: Config, s: State, m: Message)
    requires m.QueryMsg? || m.GetSize? || m.GetSizes? || m.GetContentForEndpoint? || m.GetDistinctContent? ||
             m.Dump? || m.Stop?
    ensures Handle(cfg, s, m).0 == s
  {
  }

  /**
   * Garbage collection takes from both tables the paths whose last good probe is older than both
   * expiries, and changes nothing else.
   */
  lemma GcMessage(cfg: Config, s: State, now: Time)
    ensures var (s', reply) := Handle(cfg, s, Gc(now));
            var t, u := s.tables, s'.tables;
            && reply == GcDone && s'.sizes == s.sizes && s'.collections == s.collections
            && (forall p ::
                  var expired := p in t.probes && Elapsed(now, t.probes[p]) > cfg.announceExpiry &&
                              Elapsed(now, t.probes[p]) > cfg.probeExpiry;
                  && Get(u.announces, p) == (if expired then None else Get(t.announces, p))
                  && Get(u.probes, p) == (if expired then None else Get(t.probes, p)))
  {
  }

  /** The message at `i` reports a good probe of `p`. */
  predicate ProbedAt(msgs: seq<Message>, i: nat, p: AnnouncePath)
    requires i < |msgs|
  {
    && msgs[i].StoreProbeResult?
    && exists r :: r in msgs[i].results && r.ok && NewPath(r.content, r.kind, msgs[i].endpoint) == p
  }

  /** The last good probe of `p` in a run is at `i`. */
  ghost predicate LastProbedAt(msgs: seq<Message>, i: nat, p: AnnouncePath) {
    i < |msgs| && ProbedAt(msgs, i, p) && forall j :: i < j < |msgs| ==> !ProbedAt(msgs, j, p)
  }

  /** Without gc, the probes table has for each path the time of its last good probe, or the time it had. */
  lemma {:induction false} ProbeTable(cfg: Config, s: State, msgs: seq<Message>, p: AnnouncePath)
    requires NoGc(msgs)
    ensures var probes := After(cfg, s, msgs).tables.probes;
            && (forall i: nat :: LastProbedAt(msgs, i, p) ==> Get(probes, p) == Some(msgs[i].now))
            && ((forall i :: 0 <= i < |msgs| ==> !ProbedAt(msgs, i, p)) ==> Get(probes, p) == Get(s.tables.probes, p))
    decreases |msgs|
  {
    hide After, NewPath, ProbedAt;
    var probes := After(cfg, s, msgs).tables.probes;
    if msgs == [] {
      AfterNothing(cfg, s);
    } else {
      var n := |msgs| - 1;
      var front := msgs[..n];
      assert msgs[..n + 1] == msgs && forall m :: m in front ==> m in msgs;
      ProbeTable(cfg, s, front, p);
      AfterNext(cfg, s, msgs, n);
      ProbesNext(cfg, After(cfg, s, front), msgs, n, p);
      forall i | 0 <= i < n ensures ProbedAt(msgs, i, p) <==> ProbedAt(front, i, p) {
        SameProbe(msgs, front, i, p);
      }
      forall i: nat | LastProbedAt(msgs, i, p) && i < n ensures LastProbedAt(front, i, p) {
      }
    }
  }

  lemma AfterNothing(cfg: Config, s: State)
    ensures After(cfg, s, []) == s
  {
  }

  lemma SameProbe(msgs: seq<Message>, front: seq<Message>, i: nat, p: AnnouncePath)
    requires i < |front| && front <= msgs
    ensures ProbedAt(msgs, i, p) <==> ProbedAt(front, i, p)
  {
    assert msgs[i] == front[i];
  }

  lemma ProbesNext(cfg: Config, s: State, msgs: seq<Message>, n: nat, p: AnnouncePath)
    requires n < |msgs| && !msgs[n].Gc?
    ensures Get(Handle(cfg, s, msgs[n]).0.tables.probes, p) ==
            if ProbedAt(msgs, n, p) then Some(msgs[n].now) else Get(s.tables.probes, p)
  {
    hide NewPath;
    if msgs[n].StoreProbeResult? {
      ProbeTimes(cfg, s, msgs[n].endpoint, msgs[n].results, msgs[n].now, p);
    }
  }
}
