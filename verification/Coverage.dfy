// What a full traversal yields: exact coverage, incremental traversals, laziness.
module Coverage {
  import opened Base
  import opened Ipld
  import opened Tables
  import opened Traversal
  import opened DepthFirst

  // ----- exact coverage

  ghost predicate Edge(libs: Libs, t: Rows, a: Cid, b: Cid) {
    Children(libs, t, a).Ok? && b in Children(libs, t, a).value
  }

  /** A path from one of `from` that follows links and avoids `avoid`. */
  ghost predicate IsPath(libs: Libs, t: Rows, from: seq<Cid>, avoid: set<Cid>, path: seq<Cid>) {
    && path != [] && path[0] in from
    && (forall i :: 0 <= i < |path| ==> path[i] !in avoid)
    && (forall i :: 0 < i < |path| ==> Edge(libs, t, path[i - 1], path[i]))
  }

  ghost predicate Reachable(libs: Libs, t: Rows, from: seq<Cid>, avoid: set<Cid>, c: Cid) {
    exists path :: IsPath(libs, t, from, avoid, path) && Last(path) == c
  }

  /** The stack once the deferred links are pushed. */
  function Pushed(libs: Libs, t: Rows, s: State): seq<Cid>
    requires Deferred(libs, t, s).Ok?
  {
    s.stack + Reverse(Deferred(libs, t, s).value)
  }

  /** A traversal marks what it yields, and yields nothing marked. */
  lemma {:induction false} RunMarks(libs: Libs, t: Rows, s: State)
    ensures Elems(Run(libs, t, s).out) !! s.visited
    ensures Run(libs, t, s).visited == s.visited + Elems(Run(libs, t, s).out)
    decreases |Pending(libs, t, s)|
  {
    hide Deferred, Unwind, Pending, Reverse;
    var step := Next(libs, t, s);
    if step.Yield? {
      PendingDecreases(libs, t, s);
      RunMarks(libs, t, step.next);
      RunOnYield(libs, t, s);
      var rest := Run(libs, t, step.next).out;
      ConsElems(step.cid, rest);
    }
  }

  lemma {:induction false} RunNoDuplicates(libs: Libs, t: Rows, s: State)
    ensures NoDuplicates(Run(libs, t, s).out)
    decreases |Pending(libs, t, s)|
  {
    var step := Next(libs, t, s);
    if step.Yield? {
      PendingDecreases(libs, t, s);
      RunNoDuplicates(libs, t, step.next);
      RunMarks(libs, t, step.next);
      RunOnYield(libs, t, s);
      var rest := Run(libs, t, step.next).out;
      assert step.cid !in Elems(rest);
      ConsNoDuplicates(step.cid, rest);
    }
  }

  /** A traversal fails on the links of the cid it yielded last. */
  lemma {:induction false} RunFailsOnLast(libs: Libs, t: Rows, s: State)
    requires Run(libs, t, s).error.Some?
    ensures var r := Run(libs, t, s);
            Err(r.error.value) == if r.out == [] then Deferred(libs, t, s) else Children(libs, t, Last(r.out))
    decreases |Pending(libs, t, s)|
  {
    var step := Next(libs, t, s);
    if step.Yield? {
      PendingDecreases(libs, t, s);
      RunFailsOnLast(libs, t, step.next);
      RunOnYield(libs, t, s);
    }
  }

  lemma {:induction false} UnwindDropsVisited(stack: seq<Cid>, visited: set<Cid>)
    ensures Elems(stack) <= Elems(Unwind(stack, visited)) + visited
  {
    if stack != [] && Last(stack) in visited {
      UnwindDropsVisited(stack[..|stack| - 1], visited);
      assert stack == stack[..|stack| - 1] + [Last(stack)];
    }
  }

  /** A call of `next` loses no cid of its stack. */
  lemma NextCovers(libs: Libs, t: Rows, s: State)
    requires Deferred(libs, t, s).Ok?
    ensures var step := Next(libs, t, s);
            Elems(Pushed(libs, t, s)) <= s.visited + if step.Yield? then {step.cid} + Elems(step.next.stack) else {}
  {
    var stack := Unwind(Pushed(libs, t, s), s.visited);
    UnwindDropsVisited(Pushed(libs, t, s), s.visited);
    assert stack != [] ==> stack == stack[..|stack| - 1] + [Last(stack)];
  }

  /** A traversal without error covers its stack, and all children of what it yields. */
  lemma {:induction false} RunCovers(libs: Libs, t: Rows, s: State)
    requires Run(libs, t, s).error.None?
    ensures Deferred(libs, t, s).Ok? && Elems(Pushed(libs, t, s)) <= Run(libs, t, s).visited
    ensures forall c :: c in Run(libs, t, s).out ==>
      Children(libs, t, c).Ok? && Elems(Children(libs, t, c).value) <= Run(libs, t, s).visited
    decreases |Pending(libs, t, s)|
  {
    var step := Next(libs, t, s);
    NextCovers(libs, t, s);
    RunMarks(libs, t, s);
    if step.Yield? {
      PendingDecreases(libs, t, s);
      RunCovers(libs, t, step.next);
      RunMarks(libs, t, step.next);
      RunOnYield(libs, t, s);
      PushedElems(libs, t, step.next);
    }
  }

  lemma PushedElems(libs: Libs, t: Rows, s: State)
    requires Deferred(libs, t, s).Ok?
    ensures Elems(Pushed(libs, t, s)) == Elems(s.stack) + Elems(Deferred(libs, t, s).value)
  {
  }

  lemma ReachableWeaken(libs: Libs, t: Rows, from: seq<Cid>, avoid: set<Cid>,
                        from': seq<Cid>, avoid': set<Cid>, c: Cid)
    requires Reachable(libs, t, from, avoid, c) && avoid' <= avoid
    requires forall x :: x in from ==> x in from'
    ensures Reachable(libs, t, from', avoid', c)
  {
    var path :| IsPath(libs, t, from, avoid, path) && Last(path) == c;
    assert IsPath(libs, t, from', avoid', path);
  }

  /** What is reachable after `a` was yielded was reachable before, if need be through `a`. */
  lemma ReachableThrough(libs: Libs, t: Rows, a: Cid, stack: seq<Cid>, from: seq<Cid>, avoid: set<Cid>, c: Cid)
    requires Children(libs, t, a).Ok? && a in from && a !in avoid
    requires forall x :: x in stack ==> x in from
    requires Reachable(libs, t, stack + Reverse(Children(libs, t, a).value), avoid, c)
    ensures Reachable(libs, t, from, avoid, c)
  {
    var path :| IsPath(libs, t, stack + Reverse(Children(libs, t, a).value), avoid, path) && Last(path) == c;
    if path[0] in stack {
      assert IsPath(libs, t, from, avoid, path);
    } else {
      var longer := [a] + path;
      assert forall i :: 0 < i < |longer| ==> longer[i] == path[i - 1];
      assert Edge(libs, t, longer[0], longer[1]);
      assert IsPath(libs, t, from, avoid, longer);
    }
  }

  /** Whatever a traversal yields is reachable, even when it fails. */
  lemma {:induction false} RunSound(libs: Libs, t: Rows, s: State, c: Cid)
    requires c in Run(libs, t, s).out
    ensures Deferred(libs, t, s).Ok? && Reachable(libs, t, Pushed(libs, t, s), s.visited, c)
    decreases |Pending(libs, t, s)|
  {
    var step := Next(libs, t, s);
    var from, a, next := Pushed(libs, t, s), step.cid, step.next;
    assert a in from && forall x :: x in next.stack ==> x in from;
    if c == a {
      assert IsPath(libs, t, from, s.visited, [a]) && Last([a]) == c;
    } else {
      PendingDecreases(libs, t, s);
      RunSound(libs, t, next, c);
      ReachableWeaken(libs, t, Pushed(libs, t, next), next.visited, Pushed(libs, t, next), s.visited, c);
      ReachableThrough(libs, t, a, next.stack, from, s.visited, c);
    }
  }

  lemma {:induction false} PathIsCovered(libs: Libs, t: Rows, root: Cid, avoid: set<Cid>, path: seq<Cid>, n: nat)
    requires IsPath(libs, t, [root], avoid, path) && n < |path|
    requires Run(libs, t, Start(root, avoid)).error.None?
    ensures path[n] in Run(libs, t, Start(root, avoid)).out
  {
    var s := Start(root, avoid);
    RunCovers(libs, t, s);
    RunMarks(libs, t, s);
    if n > 0 {
      PathIsCovered(libs, t, root, avoid, path, n - 1);
      assert Edge(libs, t, path[n - 1], path[n]);
      assert path[n] in Elems(Children(libs, t, path[n - 1]).value);
    } else {
      assert root in Elems(Pushed(libs, t, s));
    }
  }

  /**
   * Exact coverage, for all tables, roots and initial visited sets. A traversal that ends
   * without error yields, once each, the cids reachable from the root along a path that avoids
   * the initial visited set and leaves no raw cid. In general it yields only such cids.
   */
  lemma ExactCoverage(libs: Libs, t: Rows, root: Cid, visited: set<Cid>)
    ensures var r := Run(libs, t, Start(root, visited));
            && NoDuplicates(r.out)
            && (forall c :: c in r.out ==> Reachable(libs, t, [root], visited, c))
            && (r.error.None? ==> forall c :: Reachable(libs, t, [root], visited, c) ==> c in r.out)
  {
    var s := Start(root, visited);
    var r := Run(libs, t, s);
    RunNoDuplicates(libs, t, s);
    assert Pushed(libs, t, s) == [root];
    forall c | c in r.out ensures Reachable(libs, t, [root], visited, c) {
      RunSound(libs, t, s, c);
    }
    if r.error.None? {
      forall c | Reachable(libs, t, [root], visited, c) ensures c in r.out {
        var path :| IsPath(libs, t, [root], visited, path) && Last(path) == c;
        PathIsCovered(libs, t, root, visited, path, |path| - 1);
      }
    }
  }

  /** A traversal fails if and only if it can reach a cid, not raw, whose links cannot be read. */
  lemma FailsIffLinksMissing(libs: Libs, t: Rows, root: Cid, visited: set<Cid>)
    ensures Run(libs, t, Start(root, visited)).error.None? <==>
            forall c :: Reachable(libs, t, [root], visited, c) ==> Children(libs, t, c).Ok?
  {
    var s := Start(root, visited);
    var r := Run(libs, t, s);
    ExactCoverage(libs, t, root, visited);
    if r.error.None? {
      RunCovers(libs, t, s);
    } else {
      RunFailsOnLast(libs, t, s);
      assert r.out != [] && Last(r.out) in r.out;
    }
  }

  /** And in terms of the tables: on a cid, not raw, without mapping, or with a link row that does not decode. */
  lemma FailsIffRowsMissing(libs: Libs, t: Rows, root: Cid, visited: set<Cid>)
    ensures var r := Run(libs, t, Start(root, visited));
            && (r.error.None? <==>
                  forall c :: Reachable(libs, t, [root], visited, c) && c.codec != 0x55 ==>
                    && c.hash in t.hashToBlake3
                    && var key := (c.codec, t.hashToBlake3[c.hash]);
                    && (key in t.dataToLinks ==> libs.decodeLinks(t.dataToLinks[key]).Some?))
            && (r.error.Some? ==>
                  && r.out != []
                  && r.error == Some(if Last(r.out).hash in t.hashToBlake3 then BadLinkRow else Blake3NotFound))
  {
    hide Children, Run, Reachable;
    var s := Start(root, visited);
    FailsIffLinksMissing(libs, t, root, visited);
    forall c
      ensures Children(libs, t, c).Ok? <==>
        (c.codec != 0x55 ==>
           && c.hash in t.hashToBlake3
           && var key := (c.codec, t.hashToBlake3[c.hash]);
           && (key in t.dataToLinks ==> libs.decodeLinks(t.dataToLinks[key]).Some?))
    {
      ChildrenMissing(libs, t, c);
    }
    if Run(libs, t, s).error.Some? {
      RunFailsOnLast(libs, t, s);
      ChildrenMissing(libs, t, Last(Run(libs, t, s).out));
    }
  }

  // ----- coverage of data

  /** The data that a node holds for `c`. */
  function DataFor(r: Replica, c: Cid): Data
    requires HasBlob(r, c)
  {
    r.blobs[r.tables.hashToBlake3[c.hash]]
  }

  /** The data of `a` has a link to `b`, and `a` is not raw. */
  ghost predicate DataEdge(libs: Libs, r: Replica, a: Cid, b: Cid) {
    a.codec != 0x55 && HasBlob(r, a) && libs.links(DataFor(r, a)).Some? && b in libs.links(DataFor(r, a)).value
  }

  /** A path from the root along the links of stored data, around `avoid`. */
  ghost predicate IsDataPath(libs: Libs, r: Replica, root: Cid, avoid: set<Cid>, path: seq<Cid>) {
    && path != [] && path[0] == root
    && (forall i :: 0 <= i < |path| ==> path[i] !in avoid)
    && (forall i :: 0 < i < |path| ==> DataEdge(libs, r, path[i - 1], path[i]))
  }

  ghost predicate DataReachable(libs: Libs, r: Replica, root: Cid, avoid: set<Cid>, c: Cid) {
    exists path :: IsDataPath(libs, r, root, avoid, path) && Last(path) == c
  }

  lemma DataEdgeIsEdge(libs: Libs, r: Replica, a: Cid, b: Cid)
    requires libs.LinkRowsInvert() && Faithful(libs, r, a)
    ensures DataEdge(libs, r, a, b) <==> Edge(libs, r.tables, a, b)
    ensures Children(libs, r.tables, a).Ok?
  {
    FaithfulChildren(libs, r, a);
    FaithfulHasBlob(libs, r, a);
  }

  lemma PrefixOfDataPath(libs: Libs, r: Replica, root: Cid, avoid: set<Cid>, path: seq<Cid>, n: nat)
    requires IsDataPath(libs, r, root, avoid, path) && n < |path|
    ensures DataReachable(libs, r, root, avoid, path[n])
  {
    assert IsDataPath(libs, r, root, avoid, path[..n + 1]) && Last(path[..n + 1]) == path[n];
  }

  /** Paths over faithfully held blocks are paths along the links of their data. */
  lemma {:induction false} PathIsDataPath(libs: Libs, r: Replica, root: Cid, avoid: set<Cid>, path: seq<Cid>)
    requires libs.LinkRowsInvert() && IsPath(libs, r.tables, [root], avoid, path)
    requires forall c :: DataReachable(libs, r, root, avoid, c) ==> Faithful(libs, r, c)
    ensures IsDataPath(libs, r, root, avoid, path)
    decreases |path|
  {
    hide Faithful, Edge, DataEdge;
    if |path| > 1 {
      var front := path[..|path| - 1];
      assert IsPath(libs, r.tables, [root], avoid, front);
      PathIsDataPath(libs, r, root, avoid, front);
      assert DataReachable(libs, r, root, avoid, Last(front));
      DataEdgeIsEdge(libs, r, Last(front), Last(path));
    }
  }

  lemma DataPathIsPath(libs: Libs, r: Replica, root: Cid, avoid: set<Cid>, path: seq<Cid>)
    requires libs.LinkRowsInvert() && IsDataPath(libs, r, root, avoid, path)
    requires forall c :: DataReachable(libs, r, root, avoid, c) ==> Faithful(libs, r, c)
    ensures IsPath(libs, r.tables, [root], avoid, path)
  {
    hide Faithful, Edge, DataEdge, DataReachable;
    forall i | 0 < i < |path| ensures Edge(libs, r.tables, path[i - 1], path[i]) {
      PrefixOfDataPath(libs, r, root, avoid, path, i - 1);
      DataEdgeIsEdge(libs, r, path[i - 1], path[i]);
    }
  }

  /**
   * When every block that the links of stored data lead to is held faithfully: a traversal does not fail, and
   * yields, each once, exactly the cids that these links lead to from the root around the visited ones.
   */
  lemma DataCoverage(libs: Libs, r: Replica, root: Cid, visited: set<Cid>)
    requires libs.LinkRowsInvert()
    requires forall c :: DataReachable(libs, r, root, visited, c) ==> Faithful(libs, r, c)
    ensures var run := Run(libs, r.tables, Start(root, visited));
            && run.error.None? && NoDuplicates(run.out)
            && forall c :: c in run.out <==> DataReachable(libs, r, root, visited, c)
  {
    hide Faithful, Run, Children, Edge, DataEdge;
    forall c ensures Reachable(libs, r.tables, [root], visited, c) <==> DataReachable(libs, r, root, visited, c) {
      if Reachable(libs, r.tables, [root], visited, c) {
        var path :| IsPath(libs, r.tables, [root], visited, path) && Last(path) == c;
        PathIsDataPath(libs, r, root, visited, path);
      }
      if DataReachable(libs, r, root, visited, c) {
        var path :| IsDataPath(libs, r, root, visited, path) && Last(path) == c;
        DataPathIsPath(libs, r, root, visited, path);
      }
    }
    forall c | DataReachable(libs, r, root, visited, c) ensures Children(libs, r.tables, c).Ok? {
      FaithfulChildren(libs, r, c);
    }
    FailsIffLinksMissing(libs, r.tables, root, visited);
    ExactCoverage(libs, r.tables, root, visited);
  }

  /** A traversal that is told what was visited goes only where one that is not told does. */
  lemma VisitedNarrows(libs: Libs, t: Rows, root: Cid, visited: set<Cid>)
    requires Run(libs, t, Start(root, {})).error.None?
    ensures forall c :: c in Run(libs, t, Start(root, visited)).out ==> c in Run(libs, t, Start(root, {})).out
  {
    ExactCoverage(libs, t, root, visited);
    ExactCoverage(libs, t, root, {});
    forall c | c in Run(libs, t, Start(root, visited)).out ensures Reachable(libs, t, [root], {}, c) {
      ReachableWeaken(libs, t, [root], visited, [root], {}, c);
    }
  }

  lemma ReachableStep(libs: Libs, t: Rows, from: seq<Cid>, avoid: set<Cid>, a: Cid, b: Cid)
    requires Reachable(libs, t, from, avoid, a) && Edge(libs, t, a, b) && b !in avoid
    ensures Reachable(libs, t, from, avoid, b)
  {
    var path :| IsPath(libs, t, from, avoid, path) && Last(path) == a;
    assert IsPath(libs, t, from, avoid, path + [b]);
  }

  lemma ReachableSelf(libs: Libs, t: Rows, c: Cid, avoid: set<Cid>)
    requires c !in avoid
    ensures Reachable(libs, t, [c], avoid, c)
  {
    assert IsPath(libs, t, [c], avoid, [c]);
  }

  lemma FailsOnSomeLinks(libs: Libs, t: Rows, root: Cid, visited: set<Cid>)
    ensures var r := Run(libs, t, Start(root, visited));
            r.error.Some? ==> exists c :: c in r.out && Children(libs, t, c).Err?
  {
    var s := Start(root, visited);
    if Run(libs, t, s).error.Some? {
      RunFailsOnLast(libs, t, s);
      assert Last(Run(libs, t, s).out) in Run(libs, t, s).out;
    }
  }

  /** How many cids a whole traversal pushes on its stack, after the root. */
  function Pushes(libs: Libs, t: Rows, s: State): nat
    decreases |Pending(libs, t, s)|
  {
    PendingDecreases(libs, t, s);
    var step := Next(libs, t, s);
    OutDegree(Deferred(libs, t, s)) + if step.Yield? then Pushes(libs, t, step.next) else 0
  }

  function OutDegree(links: Result<seq<Cid>, Error>): nat {
    if links.Ok? then |links.value| else 0
  }

  function OutDegrees(libs: Libs, t: Rows, cids: seq<Cid>): nat {
    if cids == [] then 0 else OutDegree(Children(libs, t, cids[0])) + OutDegrees(libs, t, cids[1..])
  }

  lemma {:induction false} PushesOfRun(libs: Libs, t: Rows, s: State)
    ensures Pushes(libs, t, s) == OutDegree(Deferred(libs, t, s)) + OutDegrees(libs, t, Run(libs, t, s).out)
    decreases |Pending(libs, t, s)|
  {
    var step := Next(libs, t, s);
    if step.Yield? {
      PendingDecreases(libs, t, s);
      PushesOfRun(libs, t, step.next);
      RunOnYield(libs, t, s);
      var rest := Run(libs, t, step.next).out;
      assert ([step.cid] + rest)[1..] == rest;
    }
  }

  /** The stack work of a traversal is the out-degrees of the cids it yields, on any link graph. */
  lemma PushesBounded(libs: Libs, t: Rows, root: Cid, visited: set<Cid>)
    ensures Pushes(libs, t, Start(root, visited)) == OutDegrees(libs, t, Run(libs, t, Start(root, visited)).out)
  {
    PushesOfRun(libs, t, Start(root, visited));
  }

  // ----- incremental traversals

  /** All links of the known cids among `cids` can be read, and lead to known cids. */
  ghost predicate ClosedUnderLinks(libs: Libs, t: Rows, known: set<Cid>, cids: seq<Cid>) {
    forall c :: c in cids && c in known ==> LinksInside(libs, t, known, c)
  }

  ghost predicate LinksInside(libs: Libs, t: Rows, known: set<Cid>, c: Cid) {
    Children(libs, t, c).Ok? && Elems(Children(libs, t, c).value) <= known
  }

  /**
   * `a` runs beside `b` with `known` visited from the start: apart from cids that `a` visited,
   * the two have the same cids to go to, in the same order.
   */
  ghost predicate Beside(libs: Libs, t: Rows, a: State, b: State, known: set<Cid>) {
    && a.visited == b.visited + known
    && match (Deferred(libs, t, a), Deferred(libs, t, b))
       case (Ok(_), Ok(_)) =>
         Without(Pushed(libs, t, a), a.visited) == Without(Pushed(libs, t, b), a.visited)
       case (Err(e), Err(f)) => e == f
       case _ => false
  }

  /** Unwinding drops visited cids only. */
  lemma {:induction false} UnwindKeepsRest(stack: seq<Cid>, visited: set<Cid>, more: set<Cid>)
    requires visited <= more
    ensures Without(Unwind(stack, visited), more) == Without(stack, more)
  {
    if stack != [] && Last(stack) in visited {
      var shorter := stack[..|stack| - 1];
      UnwindKeepsRest(shorter, visited, more);
      WithoutAppend(shorter, [Last(stack)], more);
      assert stack == shorter + [Last(stack)];
    }
  }

  lemma {:induction false} WithoutMore(s: seq<Cid>, drop: set<Cid>, c: Cid)
    ensures Without(s, drop + {c}) == Without(Without(s, drop), {c})
  {
    if s != [] {
      WithoutMore(s[1..], drop, c);
      if s[0] !in drop {
        assert ([s[0]] + Without(s[1..], drop))[1..] == Without(s[1..], drop);
      }
    }
  }

  lemma NothingLeft(s: seq<Cid>, drop: set<Cid>)
    ensures Without(s, drop) == [] <==> Elems(s) <= drop
  {
    WithoutMembers(s, drop);
    assert Without(s, drop) != [] ==> Without(s, drop)[0] in Elems(Without(s, drop));
  }

  /** When `b` yields a known cid, `a` is still beside it. */
  lemma BesideKnown(libs: Libs, t: Rows, a: State, b: State, known: set<Cid>)
    requires Beside(libs, t, a, b, known)
    requires Next(libs, t, b).Yield? && Next(libs, t, b).cid in known
    requires LinksInside(libs, t, known, Next(libs, t, b).cid)
    ensures Beside(libs, t, a, Next(libs, t, b).next, known)
  {
    var c, next := Next(libs, t, b).cid, Next(libs, t, b).next;
    var stack := Unwind(Pushed(libs, t, b), b.visited);
    assert stack == next.stack + [c];
    UnwindKeepsRest(Pushed(libs, t, b), b.visited, a.visited);
    WithoutAppend(next.stack, [c], a.visited);
    var links := Reverse(Children(libs, t, c).value);
    WithoutAppend(next.stack, links, a.visited);
    assert Elems(links) == Elems(Children(libs, t, c).value);
    NothingLeft(links, a.visited);
    assert b.visited + {c} + known == b.visited + known;
  }

  lemma WithoutLast(s: seq<Cid>, drop: set<Cid>)
    requires s != [] && Last(s) !in drop
    ensures Without(s, drop) == Without(s[..|s| - 1], drop) + [Last(s)]
  {
    assert s == s[..|s| - 1] + [Last(s)];
    WithoutAppend(s[..|s| - 1], [Last(s)], drop);
  }

  lemma SnocInjective(p: seq<Cid>, x: Cid, q: seq<Cid>, y: Cid)
    requires p + [x] == q + [y]
    ensures p == q && x == y
  {
    assert (p + [x])[|p|] == x && (q + [y])[|q|] == y;
    assert p == (p + [x])[..|p|] == (q + [y])[..|q|] == q;
  }

  lemma SameLast(x: seq<Cid>, y: seq<Cid>, drop: set<Cid>)
    requires Without(x, drop) == Without(y, drop)
    requires y != [] && Last(y) !in drop && (x != [] ==> Last(x) !in drop)
    ensures x != [] && Last(x) == Last(y)
    ensures Without(x[..|x| - 1], drop) == Without(y[..|y| - 1], drop)
  {
    WithoutLast(y, drop);
    if x != [] {
      WithoutLast(x, drop);
      SnocInjective(Without(x[..|x| - 1], drop), Last(x), Without(y[..|y| - 1], drop), Last(y));
    }
  }

  /** When `b` yields an unknown cid, so does `a`. */
  lemma BesideYields(libs: Libs, t: Rows, a: State, b: State, known: set<Cid>)
    requires Beside(libs, t, a, b, known)
    requires Next(libs, t, b).Yield? && Next(libs, t, b).cid !in known
    ensures var n, m := Next(libs, t, a), Next(libs, t, b);
            && n.Yield? && n.cid == m.cid
            && Without(n.next.stack, a.visited) == Without(m.next.stack, a.visited)
  {
    UnwindKeepsRest(Pushed(libs, t, a), a.visited, a.visited);
    UnwindKeepsRest(Pushed(libs, t, b), b.visited, a.visited);
    SameLast(Unwind(Pushed(libs, t, a), a.visited), Unwind(Pushed(libs, t, b), b.visited), a.visited);
  }

  /** Then the two remain beside each other. */
  lemma BesideNew(libs: Libs, t: Rows, a: State, b: State, known: set<Cid>)
    requires Beside(libs, t, a, b, known)
    requires Next(libs, t, b).Yield? && Next(libs, t, b).cid !in known
    requires Next(libs, t, a).Yield? && Next(libs, t, a).cid == Next(libs, t, b).cid
    requires Without(Next(libs, t, a).next.stack, a.visited) == Without(Next(libs, t, b).next.stack, a.visited)
    ensures Beside(libs, t, Next(libs, t, a).next, Next(libs, t, b).next, known)
  {
    var n, m := Next(libs, t, a).next, Next(libs, t, b).next;
    BesideAfter(libs, t, n.stack, m.stack, n.prev.value, a.visited);
    assert n.visited == m.visited + known;
  }

  lemma BesideAfter(libs: Libs, t: Rows, x: seq<Cid>, y: seq<Cid>, c: Cid, drop: set<Cid>)
    requires Without(x, drop) == Without(y, drop)
    ensures Children(libs, t, c).Ok? ==>
      var links := Reverse(Children(libs, t, c).value);
      Without(x + links, drop + {c}) == Without(y + links, drop + {c})
  {
    WithoutMore(x, drop, c);
    WithoutMore(y, drop, c);
    if Children(libs, t, c).Ok? {
      var links := Reverse(Children(libs, t, c).value);
      WithoutAppend(x, links, drop + {c});
      WithoutAppend(y, links, drop + {c});
    }
  }

  lemma {:induction false} RunBeside(libs: Libs, t: Rows, a: State, b: State, known: set<Cid>)
    requires ClosedUnderLinks(libs, t, known, Run(libs, t, b).out) && Beside(libs, t, a, b, known)
    ensures Run(libs, t, a).out == Without(Run(libs, t, b).out, known)
    ensures Run(libs, t, a).error == Run(libs, t, b).error
    decreases |Pending(libs, t, b)|
  {
    var step := Next(libs, t, b);
    match step
    case Fail(_, _) =>
    case Done(_) =>
      UnwindKeepsRest(Pushed(libs, t, a), a.visited, a.visited);
      UnwindKeepsRest(Pushed(libs, t, b), b.visited, a.visited);
      NothingLeft(Unwind(Pushed(libs, t, a), a.visited), a.visited);
      var x := Unwind(Pushed(libs, t, a), a.visited);
      assert x != [] ==> Last(x) in Elems(x);
    case Yield(c, next) =>
      PendingDecreases(libs, t, b);
      RunOnYield(libs, t, b);
      WithoutAppend([c], Run(libs, t, next).out, known);
      if c in known {
        BesideKnown(libs, t, a, b, known);
        RunBeside(libs, t, a, next, known);
      } else {
        BesideYields(libs, t, a, b, known);
        BesideNew(libs, t, a, b, known);
        RunBeside(libs, t, Next(libs, t, a).next, next, known);
        RunOnYield(libs, t, a);
      }
  }

  /**
   * Incremental traversal: when the visited cids that an unrestricted traversal yields link to
   * visited cids only, the traversal yields the unrestricted sequence without the visited cids,
   * in the same order, with the same error if any.
   */
  lemma IncrementalTraversal(libs: Libs, t: Rows, root: Cid, visited: set<Cid>)
    requires ClosedUnderLinks(libs, t, visited, Run(libs, t, Start(root, {})).out)
    ensures Run(libs, t, Start(root, visited)).out == Without(Run(libs, t, Start(root, {})).out, visited)
    ensures Run(libs, t, Start(root, visited)).error == Run(libs, t, Start(root, {})).error
  {
    RunBeside(libs, t, Start(root, visited), Start(root, {}), visited);
  }

  // ----- laziness

  datatype Drive = Drive(out: seq<Cid>, end: Step)

  /** Calls `next` once for each of `ts`, the tables as they are at that call, unless it ends before. */
  function DriveOver(libs: Libs, ts: seq<Rows>, s: State): Drive
    requires ts != []
  {
    var step := Next(libs, ts[0], s);
    if !step.Yield? then Drive([], step)
    else if |ts| == 1 then Drive([step.cid], step)
    else
      var rest := DriveOver(libs, ts[1..], step.next);
      Drive([step.cid] + rest.out, rest.end)
  }

  /** At each call, two evolving databases agree on the children of the cid yielded just before. */
  ghost predicate AgreeOnYielded(libs: Libs, ts: seq<Rows>, us: seq<Rows>, out: seq<Cid>) {
    && |ts| == |us|
    && forall i :: 0 < i < |ts| && i <= |out| ==>
         Children(libs, ts[i], out[i - 1]) == Children(libs, us[i], out[i - 1])
  }

  lemma {:induction false} DriveAgrees(libs: Libs, ts: seq<Rows>, us: seq<Rows>, s: State)
    requires ts != [] && AgreeOnYielded(libs, ts, us, DriveOver(libs, ts, s).out)
    requires Deferred(libs, ts[0], s) == Deferred(libs, us[0], s)
    ensures DriveOver(libs, ts, s) == DriveOver(libs, us, s)
    decreases |ts|
  {
    var step := Next(libs, ts[0], s);
    assert step == Next(libs, us[0], s);
    if step.Yield? && |ts| > 1 {
      var out, rest := DriveOver(libs, ts, s).out, DriveOver(libs, ts[1..], step.next).out;
      assert out == [step.cid] + rest;
      forall i | 0 < i < |ts| - 1 && i <= |rest|
        ensures Children(libs, ts[1..][i], rest[i - 1]) == Children(libs, us[1..][i], rest[i - 1])
      {
        assert out[i] == rest[i - 1];
        assert Children(libs, ts[i + 1], out[i + 1 - 1]) == Children(libs, us[i + 1], out[i + 1 - 1]);
      }
      assert Children(libs, ts[1], out[1 - 1]) == Children(libs, us[1], out[1 - 1]);
      DriveAgrees(libs, ts[1..], us[1..], step.next);
    }
  }

  /**
   * Laziness: a traversal over a database that changes between calls depends on nothing but the
   * links of the cids it has yielded, as they are at the call that follows.
   */
  lemma Laziness(libs: Libs, ts: seq<Rows>, us: seq<Rows>, root: Cid, visited: set<Cid>)
    requires ts != [] && AgreeOnYielded(libs, ts, us, DriveOver(libs, ts, Start(root, visited)).out)
    ensures DriveOver(libs, ts, Start(root, visited)) == DriveOver(libs, us, Start(root, visited))
  {
    DriveAgrees(libs, ts, us, Start(root, visited));
  }
}
