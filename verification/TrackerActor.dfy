// The tracker actor: it batches its queue into transactions, and must be indistinguishable
// from the interpreter of module Tracker.
module TrackerActor {
  import opened Base
  import opened TrackerKeys
  import opened Tracker

  /**
   * A receiver with room for one message that was taken too early. `channel` is all that the
   * channel will still deliver before it closes.
   */
  class PeekableReceiver<T> {
    var msg: Option<T>
    var channel: seq<T>

    /** The messages still to be received. */
    function Queue(): seq<T>
      reads this
    {
      if msg.Some? then [msg.value] + channel else channel
    }

    constructor (messages: seq<T>)
      ensures msg == None && Queue() == messages
    {
      msg, channel := None, messages;
    }

    method RecvChannel() returns (r: Option<T>)
      modifies this`channel
      ensures if old(channel) == [] then r == None && channel == []
              else r == Some(old(channel)[0]) && channel == old(channel)[1..]
    {
      if channel == [] {
        return None;
      }
      r, channel := Some(channel[0]), channel[1..];
    }

    method Peek() returns (r: Option<T>)
      modifies this
      ensures Queue() == old(Queue()) && r == msg
      ensures r == if Queue() == [] then None else Some(Queue()[0])
    {
      if msg.None? {
        msg := RecvChannel();
      }
      r := msg;
    }

    method Recv() returns (r: Option<T>)
      modifies this
      ensures msg == None
      ensures if old(Queue()) == [] then r == None && Queue() == []
              else r == Some(old(Queue())[0]) && Queue() == old(Queue())[1..]
    {
      if msg.Some? {
        r, msg := msg, None;
        return;
      }
      r := RecvChannel();
    }

    /** Works if and only if there is room; a refused message is returned. */
    method PushBack(m: T) returns (r: Result<(), T>)
      modifies this
      ensures if old(msg).None? then r == Ok(()) && Queue() == [m] + old(Queue())
              else r == Err(m) && Queue() == old(Queue()) && msg == old(msg)
    {
      if msg.None? {
        msg := Some(m);
        return Ok(());
      }
      return Err(m);
    }
  }

  /** The tables of an open transaction, or of a snapshot. */
  class TableObjects {
    var announces: map<AnnouncePath, AnnounceValue>
    var probes: map<AnnouncePath, Time>

    function View(): Tables
      reads this
    {
      Tables(announces, probes)
    }

    constructor (t: Tables)
      ensures View() == t
    {
      announces, probes := t.announces, t.probes;
    }
  }

  /** The database: the tables as last committed. */
  class Database {
    var committed: Tables

    constructor (t: Tables)
      ensures committed == t
    {
      committed := t;
    }
  }

  /**
   * What the clock does around one receive: whether the batch timeout fires instead of it, and
   * whether, after the message, the batch has taken too long.
   */
  datatype Tick = Tick(timeout: bool, slow: bool)

  datatype BatchEnd = TimedOut | Closed | PushedBack | Full | Slow | Unobserved

  const BATCH_LIMIT: nat := 1000

  class Actor {
    const cfg: Config
    var sizes: map<Bytes32, u64>
    var collections: map<Bytes32, (Bytes, seq<u64>)>

    constructor (cfg: Config)
      ensures this.cfg == cfg && sizes == map[] && collections == map[]
    {
      this.cfg := cfg;
      sizes, collections := map[], map[];
    }

    /** The state of the tracker, given its tables. */
    function View(t: Tables): State
      reads this
    {
      State(t, sizes, collections)
    }

    // ----- handlers

    method ApplyAnnounce(tables: TableObjects, signed: SignedAnnounce) returns (reply: Reply)
      modifies tables
      ensures (tables.View(), reply) == HandleAnnounce(cfg, old(tables.View()), signed)
    {
      if !cfg.verify(signed) {
        return Rejected;
      }
      var content := signed.announce.content;
      var (path, value1) := Split(signed);
      var range := Range(tables.announces.Keys, ContentMin(content), ContentMax(content));
      RangeScan(tables.announces.Keys, content);
      var newContent := range == [];
      SortedElems(set p | p in tables.announces.Keys && p.hash == content.hash);
      assert newContent <==> Elems(range) == {};
      assert newContent <==> !exists p :: p in tables.announces && p.hash == path.hash by {
        assert forall p :: p in Elems(range) <==> p in tables.announces && p.hash == path.hash;
      }
      var newHost, update := true, true;
      if path in tables.announces {
        newHost, update := false, tables.announces[path].timestamp < value1.timestamp;
      }
      if update {
        tables.announces := tables.announces[path := value1];
      }
      return Announced(newContent, newHost);
    }

    method AnswerQuery(tables: TableObjects, query: Query, now: Time) returns (announces: seq<SignedAnnounce>)
      ensures announces == HandleQuery(cfg, tables.View(), query, now)
    {
      hide Sorted, Join;
      var paths := Range(tables.announces.Keys, ContentMin(query.content), ContentMax(query.content));
      ghost var keys := set p | p in tables.announces.Keys && p.hash == query.content.hash;
      ghost var matching := MatchSet(cfg, tables.View(), query, now);
      RangeScan(tables.announces.Keys, query.content);
      SortedElems(keys);
      announces := [];
      for i := 0 to |paths|
        invariant announces == JoinAll(tables.announces, Keep(paths[..i], matching))
      {
        var path := paths[i];
        assert path in Elems(paths);
        assert paths[..i + 1] == paths[..i] + [path];
        KeepAppend(paths[..i], path, matching);
        var value := tables.announces[path];
        if query.complete && KindOf(path) == Partial {
          continue;
        }
        if Elapsed(now, value.timestamp) > cfg.announceTimeout {
          continue;
        }
        if query.verified {
          if path !in tables.probes || Elapsed(now, tables.probes[path]) > cfg.probeTimeout {
            continue;
          }
        }
        JoinAllAppend(tables.announces, Keep(paths[..i], matching), path);
        announces := announces + [Join(path, value)];
      }
      assert paths[..|paths|] == paths;
      KeepSorted(keys, matching);
      assert keys * matching == matching;
    }

    method ContentForEndpoint(tables: TableObjects, endpoint: EndpointId)
      returns (content: map<AnnounceKind, HashAndFormat>)
      ensures content == LastPerKind(Sorted(tables.announces.Keys), endpoint)
    {
      var paths := Sorted(tables.announces.Keys);
      content := map[];
      for i := 0 to |paths|
        invariant content == LastPerKind(paths[..i], endpoint)
      {
        assert paths[..i + 1][..i] == paths[..i];
        if paths[i].endpoint != endpoint {
          continue;
        }
        content := content[KindOf(paths[i]) := Content(paths[i])];
      }
      assert paths[..|paths|] == paths;
    }

    method DistinctContent(tables: TableObjects) returns (contents: set<HashAndFormat>, endpoints: set<EndpointId>)
      ensures contents == set p | p in tables.announces :: Content(p)
      ensures endpoints == set p | p in tables.announces :: p.endpoint
    {
      var paths := Sorted(tables.announces.Keys);
      contents, endpoints := {}, {};
      for i := 0 to |paths|
        invariant contents == set p | p in paths[..i] :: Content(p)
        invariant endpoints == set p | p in paths[..i] :: p.endpoint
      {
        assert paths[..i + 1] == paths[..i] + [paths[i]];
        contents, endpoints := contents + {Content(paths[i])}, endpoints + {paths[i].endpoint};
      }
      SortedElems(tables.announces.Keys);
      assert forall p :: p in paths[..|paths|] <==> p in Elems(paths);
    }

    method SaveProbeResult(tables: TableObjects, endpoint: EndpointId, results: seq<ProbeResult>, now: Time)
      modifies tables
      ensures tables.View() == old(tables.View()).(probes := StoreProbes(old(tables.probes), endpoint, results, now))
    {
      hide NewPath, StoreProbes;
      StoreNoProbes(tables.probes, endpoint, now);
      for i := 0 to |results|
        invariant tables.announces == old(tables.announces)
        invariant tables.probes == StoreProbes(old(tables.probes), endpoint, results[..i], now)
      {
        StoreProbesNext(old(tables.probes), endpoint, results, i, now);
        if results[i].ok {
          var path := NewPath(results[i].content, results[i].kind, endpoint);
          tables.probes := tables.probes[path := now];
        }
      }
      assert results[..|results|] == results;
    }

    method CollectGarbage(tables: TableObjects, now: Time)
      modifies tables
      ensures tables.View() == GcTables(cfg, old(tables.View()), now)
    {
      hide Sorted;
      var paths := Sorted(tables.probes.Keys);
      SortedElems(tables.probes.Keys);
      ghost var expired := ExpiredPaths(cfg, tables.View(), now);
      var toRemove := [];
      for i := 0 to |paths|
        invariant tables.View() == old(tables.View())
        invariant toRemove == Keep(paths[..i], expired)
      {
        var path := paths[i];
        assert path in Elems(paths);
        assert paths[..i + 1] == paths[..i] + [path];
        KeepAppend(paths[..i], path, expired);
        // the announce age is the age of the probe
        var announceAge := Elapsed(now, tables.probes[path]);
        if announceAge <= cfg.announceExpiry {
          continue;
        }
        if path in tables.probes && Elapsed(now, tables.probes[path]) <= cfg.probeExpiry {
          continue;
        }
        toRemove := toRemove + [path];
      }
      assert paths[..|paths|] == paths;
      KeepSorted(tables.probes.Keys, expired);
      assert tables.probes.Keys * expired == expired;
      SortedElems(expired);
      RemoveAll(tables, toRemove);
    }

    method RemoveAll(tables: TableObjects, paths: seq<AnnouncePath>)
      modifies tables
      ensures tables.announces == old(tables.announces) - Elems(paths)
      ensures tables.probes == old(tables.probes) - Elems(paths)
    {
      for i := 0 to |paths|
        invariant tables.announces == old(tables.announces) - Elems(paths[..i])
        invariant tables.probes == old(tables.probes) - Elems(paths[..i])
      {
        assert paths[..i + 1] == paths[..i] + [paths[i]];
        assert Elems(paths[..i + 1]) == Elems(paths[..i]) + {paths[i]};
        tables.announces := tables.announces - {paths[i]};
        tables.probes := tables.probes - {paths[i]};
      }
      assert paths[..|paths|] == paths;
    }

    /** Handles the message, unless it is not one that reads only: then it is given back. */
    method HandleReadonly(m: Message, tables: TableObjects) returns (back: Option<Message>, reply: Reply)
      ensures if CategoryOf(m) == ReadOnly && !m.Stop? then
                back == None && (View(tables.View()), reply) == Handle(cfg, View(tables.View()), m)
              else back == Some(m)
    {
      back, reply := None, NoReply;
      match m
      case QueryMsg(query, now) =>
        var hosts := AnswerQuery(tables, query, now);
        reply := Hosts(hosts);
      case GetSize(hash) => reply := SizeReply(Get(sizes, hash));
      case GetSizes(hash) => reply := SizesReply(Get(collections, hash));
      case GetContentForEndpoint(endpoint) =>
        var content := ContentForEndpoint(tables, endpoint);
        reply := ContentReply(content);
      case GetDistinctContent =>
        var contents, endpoints := DistinctContent(tables);
        reply := DistinctReply(contents, endpoints);
      case Dump =>
      case _ => back := Some(m);
    }

    /** Handles the message, unless it is not one that may write: then it is given back. */
    method HandleReadwrite(m: Message, tables: TableObjects) returns (back: Option<Message>, reply: Reply)
      modifies this, tables
      ensures if CategoryOf(m) == ReadWrite then
                back == None && (View(tables.View()), reply) == Handle(cfg, old(View(tables.View())), m)
              else back == Some(m) && View(tables.View()) == old(View(tables.View()))
    {
      back, reply := None, NoReply;
      match m
      case AnnounceMsg(announce) => reply := ApplyAnnounce(tables, announce);
      case SetSize(hash, size) => sizes := sizes[hash := size];
      case SetSizes(hash, entry) => collections := collections[hash := entry];
      case StoreProbeResult(endpoint, results, now) => SaveProbeResult(tables, endpoint, results, now);
      case Gc(now) =>
        CollectGarbage(tables, now);
        reply := GcDone;
      case _ => back := Some(m);
    }

    method Dispatch(category: Category, m: Message, tables: TableObjects) returns (back: Option<Message>, reply: Reply)
      modifies this, tables
      ensures if Handled(category, m) then
                back == None && (View(tables.View()), reply) == Handle(cfg, old(View(tables.View())), m)
              else back == Some(m) && View(tables.View()) == old(View(tables.View()))
      ensures category == ReadOnly ==> tables.View() == old(tables.View())
    {
      hide Handle;
      if category == ReadWrite {
        back, reply := HandleReadwrite(m, tables);
      } else {
        back, reply := HandleReadonly(m, tables);
      }
    }

    // ----- batches

    /**
     * One transaction of either category, over the part of the clock that is observed. It
     * handles messages as they come until one is of the other kind, or the batch is over.
     */
    method Batch(category: Category, msgs: PeekableReceiver<Message>, tables: TableObjects, clock: seq<Tick>)
      returns (replies: seq<Reply>, used: nat, end: BatchEnd)
      modifies this, msgs, tables
      ensures BatchOutcome(category, old(msgs.Queue()), clock, |replies|, used, end)
      ensures msgs.Queue() == old(msgs.Queue())[|replies|..]
      ensures (View(tables.View()), replies) ==
              Interpret(cfg, old(View(tables.View())), old(msgs.Queue())[..|replies|])
      ensures category == ReadOnly ==> tables.View() == old(tables.View())
    {
      hide Interpret, Handle, Handled, PeekableReceiver.Queue;
      replies, used := [], 0;
      ghost var queue, start := msgs.Queue(), View(tables.View());
      InterpretNothing(cfg, start);
      var n := 0;
      while used < |clock|
        invariant used == |replies| == n <= |queue| && n <= BATCH_LIMIT + 1 && used <= |clock|
        invariant msgs.Queue() == queue[n..]
        invariant (View(tables.View()), replies) == Interpret(cfg, start, queue[..n])
        invariant forall i :: 0 <= i < n ==> Handled(category, queue[i]) && !clock[i].timeout && !clock[i].slow
        invariant category == ReadOnly ==> tables.View() == old(tables.View())
      {
        var tick := clock[used];
        used := used + 1;
        if tick.timeout {
          return replies, used, TimedOut;
        }
        var m := msgs.Recv();
        if m.None? {
          return replies, used, Closed;
        }
        InterpretNext(cfg, start, queue, n);
        var back, reply := Dispatch(category, m.value, tables);
        if back.Some? {
          var pushed := msgs.PushBack(back.value);
          assert pushed.Ok?;
          assert [queue[n]] + queue[n + 1..] == queue[n..];
          return replies, used, PushedBack;
        }
        replies := replies + [reply];
        if n > BATCH_LIMIT {
          return replies, used, Full;
        }
        if tick.slow {
          return replies, used, Slow;
        }
        n := n + 1;
      }
      end := Unobserved;
    }

    /** A batch over a write transaction, committed at its end, or over a snapshot. */
    method Transaction(category: Category, db: Database, msgs: PeekableReceiver<Message>, clock: seq<Tick>)
      returns (replies: seq<Reply>, used: nat, end: BatchEnd)
      requires msgs.Queue() != [] && Handled(category, msgs.Queue()[0]) && clock != []
      modifies this, msgs, db
      ensures |replies| <= |old(msgs.Queue())| && |replies| <= BATCH_LIMIT + 2
      ensures msgs.Queue() == old(msgs.Queue())[|replies|..]
      ensures (View(db.committed), replies) ==
              Interpret(cfg, old(View(db.committed)), old(msgs.Queue())[..|replies|])
      ensures Stop !in old(msgs.Queue())[..|replies|]
      ensures 0 < used <= |clock| && used <= |replies| + 1
      ensures end == TimedOut <==> clock[used - 1].timeout
      ensures end != TimedOut ==> replies != []
    {
      hide Interpret, PeekableReceiver.Queue;
      var tables := new TableObjects(db.committed);
      replies, used, end := Batch(category, msgs, tables, clock);
      if category == ReadWrite {
        db.committed := tables.View();
      }
    }

    /**
     * The actor, over the part of the clock that is observed. `finished` says that it ended on its
     * own, rather than that the observation did.
     */
    method Run(db: Database, msgs: PeekableReceiver<Message>, clock: seq<Tick>)
      returns (replies: seq<Reply>, batches: nat, timeouts: nat, used: nat, finished: bool)
      modifies this, msgs, db
      // the replies and the state are those of the interpreter on the messages handled so far
      ensures |replies| <= |old(msgs.Queue())| && msgs.Queue() == old(msgs.Queue())[|replies|..]
      ensures (View(db.committed), replies) ==
              Interpret(cfg, old(View(db.committed)), old(msgs.Queue())[..|replies|])
      // Stop is never handled, and nothing after it is
      ensures Stop !in old(msgs.Queue())[..|replies|]
      // the actor ends on its own only at a Stop, or when the queue is closed and empty
      ensures finished ==> |replies| == |old(msgs.Queue())| || old(msgs.Queue())[|replies|] == Stop
      ensures !finished ==> used == |clock|
      // progress: apart from timeouts, every transaction handles a message
      ensures batches <= |replies| + timeouts && used <= |replies| + batches
      ensures used <= |clock| && timeouts <= TimeoutsIn(clock)
      // so with clock enough for two ticks a message, timeouts aside, the actor ends on its own
      ensures |clock| > 2 * |old(msgs.Queue())| + TimeoutsIn(clock) ==> finished
    {
      hide Interpret, Handle, TimeoutsIn, PeekableReceiver.Queue;
      replies, batches, timeouts, used, finished := [], 0, 0, 0, false;
      ghost var queue, start := msgs.Queue(), View(db.committed);
      InterpretNothing(cfg, start);
      while used < |clock|
        invariant used <= |clock| && |replies| <= |queue| && msgs.Queue() == queue[|replies|..]
        invariant (View(db.committed), replies) == Interpret(cfg, start, queue[..|replies|])
        invariant Stop !in queue[..|replies|]
        invariant batches <= |replies| + timeouts && used <= |replies| + batches
        invariant timeouts <= TimeoutsIn(clock[..used])
        decreases |clock| - used
      {
        var msg := msgs.Peek();
        if msg.None? || msg.value.Stop? {
          finished := true;
          TimeoutsMonotone(clock, used);
          return;
        }
        var category := CategoryOf(msg.value);
        ghost var k, q := |replies|, msgs.Queue();
        var more, ticks, end := Transaction(category, db, msgs, clock[used..]);
        InterpretAppend(cfg, start, queue[..k], q[..|more|]);
        SliceStep(queue, k, |more|);
        TimeoutsStep(clock, used, ticks, end == TimedOut);
        replies, used, batches := replies + more, used + ticks, batches + 1;
        if end == TimedOut {
          timeouts := timeouts + 1;
        }
      }
      assert clock[..|clock|] == clock;
    }
  }

  /** A batch of the category handles the message: all but Stop have exactly one category. */
  predicate Handled(category: Category, m: Message) {
    CategoryOf(m) == category && !m.Stop?
  }

  /** After `k` messages a batch waits for another: it is not full, and has not taken too long. */
  predicate GoesOn(clock: seq<Tick>, k: nat)
    requires k <= |clock|
  {
    k <= BATCH_LIMIT + 1 && (k > 0 ==> !clock[k - 1].slow)
  }

  /** A batch may end in this way, with `k` messages of the queue handled and `used` ticks of the clock gone. */
  predicate BatchOutcome(category: Category, queue: seq<Message>, clock: seq<Tick>, k: nat, used: nat, end: BatchEnd) {
    && k <= |queue| && k <= used <= |clock|
    && (forall i :: 0 <= i < k ==> Handled(category, queue[i]) && !clock[i].timeout)
    && (forall i :: 0 <= i < k - 1 ==> !clock[i].slow)
    && match end
       case Full => used == k == BATCH_LIMIT + 2
       case Slow => used == k && 0 < k <= BATCH_LIMIT + 1 && clock[k - 1].slow
       case Unobserved => used == k == |clock| && GoesOn(clock, k)
       case TimedOut => used == k + 1 && GoesOn(clock, k) && clock[k].timeout
       case Closed => used == k + 1 && GoesOn(clock, k) && !clock[k].timeout && k == |queue|
       case PushedBack =>
         used == k + 1 && GoesOn(clock, k) && !clock[k].timeout && k < |queue| && !Handled(category, queue[k])
  }

  lemma NoMoreHandled(category: Category, queue: seq<Message>, clock: seq<Tick>, k: nat, used: nat, end: BatchEnd,
                      k': nat, used': nat, end': BatchEnd)
    requires BatchOutcome(category, queue, clock, k, used, end)
    requires BatchOutcome(category, queue, clock, k', used', end')
    ensures k' <= k
  {
    hide Handled;
  }

  /** Queue and clock leave a batch exactly one outcome. */
  lemma OneOutcome(category: Category, queue: seq<Message>, clock: seq<Tick>, k: nat, used: nat, end: BatchEnd,
                   k': nat, used': nat, end': BatchEnd)
    requires BatchOutcome(category, queue, clock, k, used, end)
    requires BatchOutcome(category, queue, clock, k', used', end')
    ensures k == k' && used == used' && end == end'
  {
    NoMoreHandled(category, queue, clock, k, used, end, k', used', end');
    NoMoreHandled(category, queue, clock, k', used', end', k, used, end);
  }

  /**
   * A batch ends full, with exactly 1002 messages handled, if and only if that many of the category are
   * waiting and come in time: the count is compared with the limit of 1000 before it is increased.
   */
  lemma FullIff(category: Category, queue: seq<Message>, clock: seq<Tick>, k: nat, used: nat, end: BatchEnd)
    requires BatchOutcome(category, queue, clock, k, used, end)
    ensures end == Full <==>
            && 1002 <= |queue| && 1002 <= |clock|
            && (forall i :: 0 <= i < 1002 ==> Handled(category, queue[i]) && !clock[i].timeout)
            && (forall i :: 0 <= i < 1001 ==> !clock[i].slow)
    ensures end == Full ==> k == 1002
  {
    hide Handled;
    if && 1002 <= |queue| && 1002 <= |clock|
       && (forall i :: 0 <= i < 1002 ==> Handled(category, queue[i]) && !clock[i].timeout)
       && (forall i :: 0 <= i < 1001 ==> !clock[i].slow) {
      OneOutcome(category, queue, clock, k, used, end, 1002, 1002, Full);
    }
  }

  function TimeoutsIn(clock: seq<Tick>): nat {
    if clock == [] then 0
    else TimeoutsIn(clock[..|clock| - 1]) + if Last(clock).timeout then 1 else 0
  }

  lemma {:induction false} TimeoutsMonotone(clock: seq<Tick>, n: nat)
    requires n <= |clock|
    ensures TimeoutsIn(clock[..n]) <= TimeoutsIn(clock)
    decreases |clock|
  {
    if n == |clock| {
      assert clock[..n] == clock;
    } else {
      TimeoutsMonotone(clock[..|clock| - 1], n);
      assert clock[..|clock| - 1][..n] == clock[..n];
    }
  }

  lemma TimeoutsStep(clock: seq<Tick>, used: nat, ticks: nat, timedOut: bool)
    requires used + ticks <= |clock|
    requires timedOut ==> ticks > 0 && clock[used..][ticks - 1].timeout
    ensures TimeoutsIn(clock[..used]) + (if timedOut then 1 else 0) <= TimeoutsIn(clock[..used + ticks])
  {
    var to := clock[..used + ticks];
    if timedOut {
      TimeoutsMonotone(to[..|to| - 1], used);
      assert to[..|to| - 1][..used] == clock[..used];
    } else {
      TimeoutsMonotone(to, used);
      assert to[..used] == clock[..used];
    }
  }

  lemma SliceStep(queue: seq<Message>, k: nat, m: nat)
    requires k + m <= |queue|
    ensures queue[..k] + queue[k..][..m] == queue[..k + m]
    ensures queue[k..][m..] == queue[k + m..]
    ensures Stop !in queue[..k] && Stop !in queue[k..][..m] ==> Stop !in queue[..k + m]
  {
    assert queue[..k] + queue[k..][..m] == queue[..k + m];
  }

  lemma InterpretNothing(cfg: Config, s: State)
    ensures Interpret(cfg, s, []) == (s, [])
  {
  }

  lemma StoreNoProbes(probes: map<AnnouncePath, Time>, endpoint: EndpointId, now: Time)
    ensures StoreProbes(probes, endpoint, [], now) == probes
  {
    assert Probed(endpoint, []) == {};
  }
}
