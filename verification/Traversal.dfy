// The traversals as state machines on values (iroh-dag-sync/src/traversal.rs).
module Traversal {
  import opened Base
  import opened Ipld
  import opened Tables

  // ----- options (iroh-dag-sync/src/protocol.rs)

  datatype TraversalFilter = All | NoRaw | JustRaw | Exclude(codecs: set<u64>)

  datatype TraversalOpts =
    | SequenceOpts(cids: seq<Cid>)
    | FullOpts(root: Cid, visited: Option<set<Cid>>, filter: Option<TraversalFilter>)

  datatype InlineOpts = InlineAll | InlineNoRaw | InlineExclude(codecs: set<u64>) | InlineNone

  predicate Keeps(f: TraversalFilter, c: Cid) {
    match f
    case All => true
    case NoRaw => c.codec != RAW
    case JustRaw => c.codec == RAW
    case Exclude(codecs) => c.codec !in codecs
  }

  predicate Inlines(o: InlineOpts, c: Cid) {
    match o
    case InlineAll => true
    case InlineNoRaw => c.codec != RAW
    case InlineExclude(codecs) => c.codec !in codecs
    case InlineNone => false
  }

  /** The cids that pass a filter, in their order. */
  function Kept(f: TraversalFilter, cids: seq<Cid>): (r: seq<Cid>)
    ensures forall c :: c in r <==> c in cids && Keeps(f, c)
  {
    if cids == [] then []
    else if Keeps(f, cids[0]) then [cids[0]] + Kept(f, cids[1..])
    else Kept(f, cids[1..])
  }

  // ----- the full traversal

  /** `prev` is the cid yielded last, whose links are read by the next call only. */
  datatype State = State(prev: Option<Cid>, stack: seq<Cid>, visited: set<Cid>)

  datatype Step = Yield(cid: Cid, next: State) | Done(next: State) | Fail(error: Error, next: State)

  function Start(root: Cid, visited: set<Cid>): State {
    State(None, [root], visited)
  }

  /** The cids a traversal goes to from `c`: none from a raw cid. */
  function Children(libs: Libs, t: Rows, c: Cid): Result<seq<Cid>, Error> {
    if c.codec == RAW then Ok([])
    else match Links(libs, t, c)
      case Err(e) => Err(e)
      case Ok(None) => Ok([])
      case Ok(Some(ls)) => Ok(ls)
  }

  /** From a block that is held faithfully, the traversal goes to the links of its data, unless it is raw. */
  lemma FaithfulChildren(libs: Libs, r: Replica, c: Cid)
    requires Faithful(libs, r, c) && libs.LinkRowsInvert()
    ensures Children(libs, r.tables, c) ==
            Ok(if c.codec == 0x55 then [] else libs.links(r.blobs[r.tables.hashToBlake3[c.hash]]).value)
  {
    var d := r.blobs[r.tables.hashToBlake3[c.hash]];
    var ls := libs.links(d).value;
    assert libs.decodeLinks(libs.encodeLinks(ls)) == Some(ls);
  }

  /** Links cannot be read of a cid, not raw, that has no mapping, or whose row does not decode. */
  lemma ChildrenMissing(libs: Libs, t: Rows, c: Cid)
    ensures Children(libs, t, c).Err? <==>
            && c.codec != 0x55
            && (c.hash in t.hashToBlake3 ==>
                  var key := (c.codec, t.hashToBlake3[c.hash]);
                  key in t.dataToLinks && libs.decodeLinks(t.dataToLinks[key]).None?)
    ensures Children(libs, t, c).Err? ==>
      Children(libs, t, c).error == if c.hash in t.hashToBlake3 then BadLinkRow else Blake3NotFound
  {
  }

  lemma AgreeSameChildren(libs: Libs, t: Rows, u: Rows, c: Cid)
    requires Agree(t, u, c)
    ensures Children(libs, t, c) == Children(libs, u, c)
  {
  }

  /** The links that a state still has to read. */
  function Deferred(libs: Libs, t: Rows, s: State): Result<seq<Cid>, Error> {
    if s.prev.None? then Ok([]) else Children(libs, t, s.prev.value)
  }

  /** The stack, top last, without the visited cids on its top. */
  function Unwind(stack: seq<Cid>, visited: set<Cid>): (r: seq<Cid>)
    ensures r <= stack
    ensures r != [] ==> Last(r) !in visited
  {
    if stack != [] && Last(stack) in visited then Unwind(stack[..|stack| - 1], visited) else stack
  }

  /** Every cid that occurs in some link row. */
  ghost function LinkTargets(libs: Libs, t: Rows): set<Cid> {
    set key, c | key in t.dataToLinks && libs.decodeLinks(t.dataToLinks[key]).Some?
                 && c in libs.decodeLinks(t.dataToLinks[key]).value :: c
  }

  /** The cids a traversal over fixed tables might still yield. */
  ghost function Pending(libs: Libs, t: Rows, s: State): set<Cid> {
    LinkTargets(libs, t) + Elems(s.stack) - s.visited
  }

  /** One call of `next`. */
  function Next(libs: Libs, t: Rows, s: State): (r: Step)
    ensures r.Yield? ==>
      && r.cid !in s.visited
      && r.next.visited == s.visited + {r.cid}
      && r.next.prev == Some(r.cid)
  {
    match Deferred(libs, t, s)
    case Err(e) => Fail(e, s.(prev := None))
    case Ok(links) =>
      var stack := Unwind(s.stack + Reverse(links), s.visited);
      if stack == [] then Done(State(None, [], s.visited))
      else
        var c := Last(stack);
        Yield(c, State(Some(c), stack[..|stack| - 1], s.visited + {c}))
  }

  /** The deferred work: `next` is the same once the links of `prev` are on the stack. */
  lemma NextAfterDeferred(libs: Libs, t: Rows, s: State)
    ensures match Deferred(libs, t, s)
            case Ok(links) => Next(libs, t, s) == Next(libs, t, State(None, s.stack + Reverse(links), s.visited))
            case Err(e) => Next(libs, t, s) == Fail(e, s.(prev := None))
  {
    if Deferred(libs, t, s).Ok? {
      var stack := s.stack + Reverse(Deferred(libs, t, s).value);
      assert stack + Reverse<Cid>([]) == stack;
    }
  }

  /** With nothing deferred, `next` skips the top of the stack if it was visited, and else yields it. */
  lemma NextAtTop(libs: Libs, t: Rows, stack: seq<Cid>, visited: set<Cid>)
    ensures Next(libs, t, State(None, stack, visited)) ==
            if stack == [] then Done(State(None, [], visited))
            else
              var c, below := Last(stack), stack[..|stack| - 1];
              if c in visited then Next(libs, t, State(None, below, visited))
              else Yield(c, State(Some(c), below, visited + {c}))
  {
    assert stack + Reverse<Cid>([]) == stack;
    if stack != [] {
      assert stack[..|stack| - 1] + Reverse<Cid>([]) == stack[..|stack| - 1];
    }
  }

  lemma {:induction false} UnwindSkips(stack: seq<Cid>, links: seq<Cid>, visited: set<Cid>, i: nat)
    requires i < |links| && links[i] !in visited && forall j :: 0 <= j < i ==> links[j] in visited
    ensures Unwind(stack + Reverse(links), visited) == stack + Reverse(links[i..])
  {
    var all, rest := stack + Reverse(links), stack + Reverse(links[1..]);
    assert all == rest + [links[0]];
    if i == 0 {
      assert links[0..] == links;
    } else {
      UnwindSkips(stack, links[1..], visited, i - 1);
      assert links[1..][i - 1..] == links[i..];
      assert all[..|all| - 1] == rest;
    }
  }

  /**
   * Left to right, and children before all that waits: the next cid is the first of the deferred links that
   * was not visited. The links after it wait on top of the stack, the first of them uppermost.
   */
  lemma NextIsFirstChild(libs: Libs, t: Rows, s: State, i: nat)
    requires Deferred(libs, t, s).Ok? && i < |Deferred(libs, t, s).value|
    requires var links := Deferred(libs, t, s).value;
      links[i] !in s.visited && forall j :: 0 <= j < i ==> links[j] in s.visited
    ensures var links, step := Deferred(libs, t, s).value, Next(libs, t, s);
            step.Yield? && step.cid == links[i] && Waits(step.next.stack, s.stack, links[i + 1..])
  {
    hide Deferred, Children;
    var links := Deferred(libs, t, s).value;
    UnwindSkips(s.stack, links, s.visited, i);
    var rest := links[i + 1..];
    assert links[i..][1..] == rest;
    var below := s.stack + Reverse(rest);
    assert s.stack + Reverse(links[i..]) == below + [links[i]];
    assert (below + [links[i]])[..|below|] == below;
    ReversedWaits(s.stack, rest);
  }

  /** `links` lie on `below`, the first of them uppermost. */
  ghost predicate Waits(stack: seq<Cid>, below: seq<Cid>, links: seq<Cid>) {
    && |stack| == |below| + |links|
    && (forall k :: 0 <= k < |below| ==> stack[k] == below[k])
    && (forall k :: 0 <= k < |links| ==> links[k] == stack[|stack| - 1 - k])
  }

  lemma ReversedWaits(below: seq<Cid>, links: seq<Cid>)
    ensures Waits(below + Reverse(links), below, links)
  {
    forall k | 0 <= k < |links| ensures links[k] == Reverse(links)[|links| - 1 - k] {
      ReverseAt(links, |links| - 1 - k);
    }
  }

  /** A call that fails drops the deferred cid only: another call goes on with what is on the stack. */
  lemma NextAfterFailure(libs: Libs, t: Rows, s: State)
    ensures Next(libs, t, s).Fail? ==> Next(libs, t, s).next == State(None, s.stack, s.visited)
  {
  }

  lemma ChildrenAreTargets(libs: Libs, t: Rows, s: State)
    ensures Deferred(libs, t, s).Ok? ==> Elems(Deferred(libs, t, s).value) <= LinkTargets(libs, t)
  {
  }

  /** What a whole traversal produces: the cids in order, the final visited set, and its error if any. */
  datatype Walk = Walk(out: seq<Cid>, visited: set<Cid>, error: Option<Error>)

  /** Calls `next` over fixed tables until it has no more cids or fails. */
  function Run(libs: Libs, t: Rows, s: State): Walk
    decreases |Pending(libs, t, s)|
  {
    match Next(libs, t, s)
    case Fail(e, next) => Walk([], next.visited, Some(e))
    case Done(next) => Walk([], next.visited, None)
    case Yield(c, next) =>
      PendingDecreases(libs, t, s);
      var rest := Run(libs, t, next);
      rest.(out := [c] + rest.out)
  }

  /** Every yield leaves less to yield, on any link graph. */
  lemma PendingDecreases(libs: Libs, t: Rows, s: State)
    ensures var step := Next(libs, t, s);
            step.Yield? ==>
              && step.cid in Pending(libs, t, s)
              && Pending(libs, t, step.next) <= Pending(libs, t, s) - {step.cid}
              && |Pending(libs, t, step.next)| < |Pending(libs, t, s)|
  {
    var step := Next(libs, t, s);
    if step.Yield? {
      ChildrenAreTargets(libs, t, s);
      var stack := Unwind(s.stack + Reverse(Deferred(libs, t, s).value), s.visited);
      assert step.cid in stack;
      SmallerSet(Pending(libs, t, step.next), Pending(libs, t, s));
    }
  }

  lemma SmallerSet<T>(a: set<T>, b: set<T>)
    requires a < b
    ensures |a| < |b|
  {
    var x :| x in b && x !in a;
    assert a <= b - {x};
    SubsetCardinality(a, b - {x});
  }

  lemma SubsetCardinality<T>(a: set<T>, b: set<T>)
    requires a <= b
    ensures |a| <= |b|
  {
    if a != {} {
      var x :| x in a;
      SubsetCardinality(a - {x}, b - {x});
    }
  }

  lemma SameChildren(libs: Libs, t: Rows, u: Rows, c: Cid)
    requires c.codec != RAW ==> Agree(t, u, c)
    ensures Children(libs, t, c) == Children(libs, u, c)
  {
    if c.codec != RAW {
      AgreeSameChildren(libs, t, u, c);
    }
  }

  /** Traversals over tables that agree on every cid they go through, raw ones apart, are the same. */
  lemma {:induction false} RunAgrees(libs: Libs, t: Rows, u: Rows, s: State)
    requires Deferred(libs, t, s) == Deferred(libs, u, s)
    requires forall c :: c in Run(libs, u, s).out && c.codec != RAW ==> Agree(t, u, c)
    ensures Run(libs, t, s) == Run(libs, u, s)
    decreases |Pending(libs, u, s)|
  {
    hide Agree, Children;
    var step := Next(libs, u, s);
    assert Next(libs, t, s) == step;
    if step.Yield? {
      PendingDecreases(libs, u, s);
      assert step.cid in Run(libs, u, s).out;
      SameChildren(libs, t, u, step.cid);
      RunAgrees(libs, t, u, step.next);
    }
  }

  // ----- any traversal

  /** A traversal as its options select it: a fixed list, or a full traversal behind a filter. */
  datatype Walker = SequenceWalker(cids: seq<Cid>) | FullWalker(state: State, filter: TraversalFilter)

  datatype Advance = Item(cid: Cid, next: Walker) | End(next: Walker) | Failed(error: Error, next: Walker)

  function GetTraversal(opts: TraversalOpts): Walker {
    match opts
    case SequenceOpts(cids) => SequenceWalker(cids)
    case FullOpts(root, visited, filter) =>
      FullWalker(Start(root, if visited.Some? then visited.value else {}),
                 if filter.Some? then filter.value else All)
  }

  /** The cids that a traversal starts from. */
  function Roots(w: Walker): seq<Cid> {
    match w
    case SequenceWalker(cids) => cids
    case FullWalker(state, _) => state.stack
  }

  ghost function Budget(libs: Libs, t: Rows, w: Walker): nat {
    match w
    case SequenceWalker(cids) => |cids|
    case FullWalker(state, _) => |Pending(libs, t, state)|
  }

  /** One call of `next` on any traversal: a filter passes over the cids it rejects. */
  function WalkerNext(libs: Libs, t: Rows, w: Walker): (r: Advance)
    ensures r.Item? ==> Budget(libs, t, r.next) < Budget(libs, t, w)
    ensures r.Item? && w.FullWalker? ==> Keeps(w.filter, r.cid)
    decreases Budget(libs, t, w)
  {
    match w
    case SequenceWalker(cids) =>
      if cids == [] then End(w) else Item(cids[0], SequenceWalker(cids[1..]))
    case FullWalker(state, filter) =>
      match Next(libs, t, state)
      case Fail(e, next) => Failed(e, FullWalker(next, filter))
      case Done(next) => End(FullWalker(next, filter))
      case Yield(c, next) =>
        PendingDecreases(libs, t, state);
        if Keeps(filter, c) then Item(c, FullWalker(next, filter))
        else WalkerNext(libs, t, FullWalker(next, filter))
  }

  /** The cids of a whole traversal over fixed tables, and its error if any. */
  function WalkAll(libs: Libs, t: Rows, w: Walker): (seq<Cid>, Option<Error>)
    decreases Budget(libs, t, w)
  {
    match WalkerNext(libs, t, w)
    case Failed(e, _) => ([], Some(e))
    case End(_) => ([], None)
    case Item(c, next) =>
      var rest := WalkAll(libs, t, next);
      ([c] + rest.0, rest.1)
  }

  lemma WalkAllOnItem(libs: Libs, t: Rows, w: Walker)
    requires WalkerNext(libs, t, w).Item?
    ensures var step := WalkerNext(libs, t, w);
            && WalkAll(libs, t, w).0 == [step.cid] + WalkAll(libs, t, step.next).0
            && WalkAll(libs, t, w).1 == WalkAll(libs, t, step.next).1
  {
  }

  /** The cids that a traversal goes through, before any filter. */
  function Inner(libs: Libs, t: Rows, w: Walker): seq<Cid> {
    match w
    case SequenceWalker(cids) => cids
    case FullWalker(state, _) => Run(libs, t, state).out
  }

  function FilterOf(w: Walker): TraversalFilter {
    if w.FullWalker? then w.filter else All
  }

  lemma {:induction false} FilteredRun(libs: Libs, t: Rows, s: State, filter: TraversalFilter)
    ensures WalkAll(libs, t, FullWalker(s, filter)) ==
            (Kept(filter, Run(libs, t, s).out), Run(libs, t, s).error)
    decreases |Pending(libs, t, s)|
  {
    var step := Next(libs, t, s);
    if step.Yield? {
      PendingDecreases(libs, t, s);
      FilteredRun(libs, t, step.next, filter);
      var c, rest := step.cid, Run(libs, t, step.next);
      assert ([c] + rest.out)[1..] == rest.out;
      var w, next := FullWalker(s, filter), FullWalker(step.next, filter);
      if Keeps(filter, c) {
        assert WalkerNext(libs, t, w) == Item(c, next);
      } else {
        assert WalkerNext(libs, t, w) == WalkerNext(libs, t, next);
      }
    }
  }

  /** A sequence traversal yields its list. */
  lemma {:induction false} SequenceRun(libs: Libs, t: Rows, cids: seq<Cid>)
    ensures WalkAll(libs, t, SequenceWalker(cids)) == (cids, None)
  {
    if cids != [] {
      SequenceRun(libs, t, cids[1..]);
      assert [cids[0]] + cids[1..] == cids;
    }
  }

  // ----- what a request yields

  /** `x` is somewhere before `y`. */
  ghost predicate Precedes(cids: seq<Cid>, x: Cid, y: Cid) {
    exists p, q :: 0 <= p < q < |cids| && cids[p] == x && cids[q] == y
  }

  /** What precedes another in `some` precedes it in `all`. */
  ghost predicate InOrderOf(some: seq<Cid>, all: seq<Cid>) {
    forall i, j :: 0 <= i < j < |some| ==> Precedes(all, some[i], some[j])
  }

  lemma PrecedesLater(cids: seq<Cid>, x: Cid, y: Cid)
    requires cids != [] && Precedes(cids[1..], x, y)
    ensures Precedes(cids, x, y)
  {
    var p, q :| 0 <= p < q < |cids[1..]| && cids[1..][p] == x && cids[1..][q] == y;
    assert cids[p + 1] == x && cids[q + 1] == y;
  }

  lemma FirstPrecedes(cids: seq<Cid>, y: Cid)
    requires cids != [] && y in cids[1..]
    ensures Precedes(cids, cids[0], y)
  {
    var q :| 0 <= q < |cids[1..]| && cids[1..][q] == y;
    assert cids[q + 1] == y;
  }

  lemma {:induction false} KeptInOrder(f: TraversalFilter, cids: seq<Cid>, i: nat, j: nat)
    requires i < j < |Kept(f, cids)|
    ensures Precedes(cids, Kept(f, cids)[i], Kept(f, cids)[j])
  {
    hide Precedes;
    var rest, kept := cids[1..], Kept(f, cids);
    if !Keeps(f, cids[0]) {
      KeptInOrder(f, rest, i, j);
      PrecedesLater(cids, kept[i], kept[j]);
    } else if i > 0 {
      KeptInOrder(f, rest, i - 1, j - 1);
      PrecedesLater(cids, kept[i], kept[j]);
    } else {
      assert kept[j] == Kept(f, rest)[j - 1];
      FirstPrecedes(cids, kept[j]);
    }
  }

  lemma {:induction false} KeptAll(cids: seq<Cid>)
    ensures Kept(All, cids) == cids
  {
    if cids != [] {
      KeptAll(cids[1..]);
    }
  }

  /** A request for a root, without visited cids or a filter: all that a search from the root finds. */
  lemma BareRequest(libs: Libs, t: Rows, root: Cid)
    ensures var run := Run(libs, t, State(None, [root], {}));
            WalkAll(libs, t, GetTraversal(FullOpts(root, None, None))) == (run.out, run.error)
  {
    FilteredRun(libs, t, Start(root, {}), All);
    KeptAll(Run(libs, t, Start(root, {})).out);
  }

  /** The visited cids of a request, none if it names none. */
  function VisitedIn(visited: Option<set<Cid>>): set<Cid> {
    if visited.Some? then visited.value else {}
  }

  /** A request with or without visited cids, without a filter or with the one that keeps all. */
  lemma UnfilteredRequest(libs: Libs, t: Rows, root: Cid, visited: Option<set<Cid>>)
    ensures var run := Run(libs, t, State(None, [root], VisitedIn(visited)));
            && WalkAll(libs, t, GetTraversal(FullOpts(root, visited, None))) == (run.out, run.error)
            && WalkAll(libs, t, GetTraversal(FullOpts(root, visited, Some(All)))) == (run.out, run.error)
  {
    FilteredRun(libs, t, Start(root, VisitedIn(visited)), All);
    KeptAll(Run(libs, t, Start(root, VisitedIn(visited))).out);
  }

  /** A request with a filter: the cids with the codecs that the filter names, in the order of the search. */
  lemma FilteredRequest(libs: Libs, t: Rows, root: Cid, visited: Option<set<Cid>>, filter: TraversalFilter)
    ensures var run := Run(libs, t, State(None, [root], VisitedIn(visited)));
            var (cids, error) := WalkAll(libs, t, GetTraversal(FullOpts(root, visited, Some(filter))));
            && error == run.error
            && (filter == NoRaw ==> forall c :: c in cids <==> c in run.out && c.codec != 0x55)
            && (filter == JustRaw ==> forall c :: c in cids <==> c in run.out && c.codec == 0x55)
            && (filter.Exclude? ==> forall c :: c in cids <==> c in run.out && c.codec !in filter.codecs)
            && InOrderOf(cids, run.out)
  {
    hide Run, WalkAll, InOrderOf;
    var s := Start(root, VisitedIn(visited));
    FilteredRun(libs, t, s, filter);
    KeptIsInOrder(filter, Run(libs, t, s).out);
  }

  lemma KeptIsInOrder(f: TraversalFilter, cids: seq<Cid>)
    ensures InOrderOf(Kept(f, cids), cids)
  {
    hide Precedes;
    forall i, j | 0 <= i < j < |Kept(f, cids)| ensures Precedes(cids, Kept(f, cids)[i], Kept(f, cids)[j]) {
      KeptInOrder(f, cids, i, j);
    }
  }

  /** A request for a list of cids: the list. */
  lemma SequenceRequest(libs: Libs, t: Rows, cids: seq<Cid>)
    ensures WalkAll(libs, t, GetTraversal(SequenceOpts(cids))) == (cids, None)
  {
    SequenceRun(libs, t, cids);
  }

  /** What an archive names as its roots. */
  lemma RequestRoots(root: Cid, visited: Option<set<Cid>>, filter: Option<TraversalFilter>, cids: seq<Cid>)
    ensures Roots(GetTraversal(FullOpts(root, visited, filter))) == [root]
    ensures Roots(GetTraversal(SequenceOpts(cids))) == cids
  {
  }
}
