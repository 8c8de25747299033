// The full traversal against its specification: a recursive depth-first search.
module DepthFirst {
  import opened Base
  import opened Ipld
  import opened Tables
  import opened Traversal

  /** What a search for `cids` might still find. */
  ghost function Unseen(libs: Libs, t: Rows, cids: seq<Cid>, visited: set<Cid>): set<Cid> {
    LinkTargets(libs, t) + Elems(cids) - visited
  }

  /**
   * Recursive depth-first search, pre-order and left to right, threading the visited set.
   * It ends early when the links of a cid that it visited cannot be read.
   */
  function Dfs(libs: Libs, t: Rows, cids: seq<Cid>, visited: set<Cid>): (r: Walk)
    ensures visited <= r.visited
    decreases |Unseen(libs, t, cids, visited)|, |cids|
  {
    if cids == [] then Walk([], visited, None)
    else
      UnseenShrinks(libs, t, cids, visited);
      if cids[0] in visited then Dfs(libs, t, cids[1..], visited)
      else
        var c, marked := cids[0], visited + {cids[0]};
        match Children(libs, t, c)
        case Err(e) => Walk([c], marked, Some(e))
        case Ok(links) =>
          var below := Dfs(libs, t, links, marked);
          UnseenAntitone(libs, t, cids[1..], marked, below.visited);
          if below.error.Some? then Walk([c] + below.out, below.visited, below.error)
          else
            var beside := Dfs(libs, t, cids[1..], below.visited);
            Walk([c] + below.out + beside.out, beside.visited, beside.error)
  }

  lemma UnseenAntitone(libs: Libs, t: Rows, cids: seq<Cid>, visited: set<Cid>, more: set<Cid>)
    requires visited <= more
    ensures |Unseen(libs, t, cids, more)| <= |Unseen(libs, t, cids, visited)|
  {
    SubsetCardinality(Unseen(libs, t, cids, more), Unseen(libs, t, cids, visited));
  }

  lemma UnseenShrinks(libs: Libs, t: Rows, cids: seq<Cid>, visited: set<Cid>)
    requires cids != []
    ensures |Unseen(libs, t, cids[1..], visited)| <= |Unseen(libs, t, cids, visited)|
    ensures cids[0] !in visited ==>
      |Unseen(libs, t, cids[1..], visited + {cids[0]})| < |Unseen(libs, t, cids, visited)|
    ensures cids[0] !in visited && Children(libs, t, cids[0]).Ok? ==>
      |Unseen(libs, t, Children(libs, t, cids[0]).value, visited + {cids[0]})| < |Unseen(libs, t, cids, visited)|
  {
    hide Children, LinkTargets;
    var before := Unseen(libs, t, cids, visited);
    SubsetCardinality(Unseen(libs, t, cids[1..], visited), before);
    if cids[0] !in visited {
      assert cids[0] in before;
      SmallerSet(Unseen(libs, t, cids[1..], visited + {cids[0]}), before);
      if Children(libs, t, cids[0]).Ok? {
        ChildrenAreTargets(libs, t, State(Some(cids[0]), [], {}));
        SmallerSet(Unseen(libs, t, Children(libs, t, cids[0]).value, visited + {cids[0]}), before);
      }
    }
  }

  // ----- the stack machine is the recursive search

  /** Searching for `b` after `a`. */
  function Then(libs: Libs, t: Rows, a: Walk, b: seq<Cid>): Walk {
    if a.error.Some? then a
    else
      var rest := Dfs(libs, t, b, a.visited);
      rest.(out := a.out + rest.out)
  }

  lemma {:induction false} DfsAppend(libs: Libs, t: Rows, a: seq<Cid>, b: seq<Cid>, visited: set<Cid>)
    ensures Dfs(libs, t, a + b, visited) == Then(libs, t, Dfs(libs, t, a, visited), b)
    decreases |a|
  {
    if a == [] {
      assert a + b == b;
    } else {
      assert (a + b)[1..] == a[1..] + b;
      if a[0] in visited {
        DfsAppend(libs, t, a[1..], b, visited);
      } else if Children(libs, t, a[0]).Ok? {
        var below := Dfs(libs, t, Children(libs, t, a[0]).value, visited + {a[0]});
        if below.error.None? {
          DfsAppend(libs, t, a[1..], b, below.visited);
        }
      }
    }
  }

  lemma NextOnTop(libs: Libs, t: Rows, c: Cid, rest: seq<Cid>, visited: set<Cid>)
    ensures Next(libs, t, State(None, Reverse([c] + rest), visited)) ==
              if c in visited then Next(libs, t, State(None, Reverse(rest), visited))
              else Yield(c, State(Some(c), Reverse(rest), visited + {c}))
  {
    hide Next;
    assert ([c] + rest)[1..] == rest;
    assert Reverse([c] + rest)[..|rest|] == Reverse(rest);
    NextAtTop(libs, t, Reverse([c] + rest), visited);
  }

  function Prepend(c: Cid, walk: Walk): Walk {
    walk.(out := [c] + walk.out)
  }

  lemma DfsOnTop(libs: Libs, t: Rows, c: Cid, rest: seq<Cid>, visited: set<Cid>)
    ensures Dfs(libs, t, [c] + rest, visited) ==
            if c in visited then Dfs(libs, t, rest, visited)
            else match Children(libs, t, c)
              case Err(e) => Prepend(c, Walk([], visited + {c}, Some(e)))
              case Ok(links) => Prepend(c, Then(libs, t, Dfs(libs, t, links, visited + {c}), rest))
  {
    var cids := [c] + rest;
    assert cids[0] == c && cids[1..] == rest;
    if c !in visited && Children(libs, t, c).Ok? {
      var below := Dfs(libs, t, Children(libs, t, c).value, visited + {c});
      if below.error.None? {
        ConsAppend(c, below.out, Dfs(libs, t, rest, below.visited).out);
      }
    }
  }

  lemma ConsAppend(c: Cid, a: seq<Cid>, b: seq<Cid>)
    ensures [c] + a + b == [c] + (a + b)
  {
  }

  lemma RunOnYield(libs: Libs, t: Rows, s: State)
    requires Next(libs, t, s).Yield?
    ensures Run(libs, t, s) == Prepend(Next(libs, t, s).cid, Run(libs, t, Next(libs, t, s).next))
  {
  }

  lemma {:induction false} RunIsDfs(libs: Libs, t: Rows, cids: seq<Cid>, visited: set<Cid>)
    ensures Run(libs, t, State(None, Reverse(cids), visited)) == Dfs(libs, t, cids, visited)
    decreases |Unseen(libs, t, cids, visited)|, |cids|
  {
    if cids == [] {
      assert Unwind([], visited) == [];
    } else {
      assert cids == [cids[0]] + cids[1..];
      RunIsDfsOnTop(libs, t, cids[0], cids[1..], visited);
    }
  }

  lemma {:induction false} RunIsDfsOnTop(libs: Libs, t: Rows, c: Cid, rest: seq<Cid>, visited: set<Cid>)
    ensures Run(libs, t, State(None, Reverse([c] + rest), visited)) == Dfs(libs, t, [c] + rest, visited)
    decreases |Unseen(libs, t, [c] + rest, visited)|, |rest| + 1, 0
  {
    var s := State(None, Reverse([c] + rest), visited);
    NextOnTop(libs, t, c, rest, visited);
    DfsOnTop(libs, t, c, rest, visited);
    if c in visited {
      assert ([c] + rest)[1..] == rest;
      UnseenShrinks(libs, t, [c] + rest, visited);
      RunIsDfs(libs, t, rest, visited);
      SameNextSameRun(libs, t, s, State(None, Reverse(rest), visited));
    } else {
      RunOnYield(libs, t, s);
      if Children(libs, t, c).Ok? {
        RunAfterYield(libs, t, c, rest, visited);
      } else {
        assert Next(libs, t, State(Some(c), Reverse(rest), visited + {c})).Fail?;
      }
    }
  }

  lemma SameNextSameRun(libs: Libs, t: Rows, a: State, b: State)
    requires Next(libs, t, a) == Next(libs, t, b)
    ensures Run(libs, t, a) == Run(libs, t, b)
  {
  }

  lemma {:induction false} RunAfterYield(libs: Libs, t: Rows, c: Cid, rest: seq<Cid>, visited: set<Cid>)
    requires c !in visited && Children(libs, t, c).Ok?
    ensures Run(libs, t, State(Some(c), Reverse(rest), visited + {c})) ==
            Then(libs, t, Dfs(libs, t, Children(libs, t, c).value, visited + {c}), rest)
    decreases |Unseen(libs, t, [c] + rest, visited)|, 0
  {
    hide Next, Reverse;
    var links, marked := Children(libs, t, c).value, visited + {c};
    var agenda := State(None, Reverse(links + rest), marked);
    ReverseAppend(links, rest);
    NextAfterDeferred(libs, t, State(Some(c), Reverse(rest), marked));
    ChildrenAreTargets(libs, t, State(Some(c), [], {}));
    assert c in Unseen(libs, t, [c] + rest, visited);
    SmallerSet(Unseen(libs, t, links + rest, marked), Unseen(libs, t, [c] + rest, visited));
    SameNextSameRun(libs, t, State(Some(c), Reverse(rest), marked), agenda);
    RunIsDfs(libs, t, links + rest, marked);
    DfsAppend(libs, t, links, rest, marked);
  }

  /**
   * For all tables, roots and initial visited sets: the traversal yields what the recursive
   * search finds, in the same order, and fails exactly when the search does, with the same error.
   */
  lemma TraversalIsDfs(libs: Libs, t: Rows, root: Cid, visited: set<Cid>)
    ensures Run(libs, t, Start(root, visited)) == Dfs(libs, t, [root], visited)
  {
    assert Reverse([root]) == [root];
    RunIsDfs(libs, t, [root], visited);
  }
}
