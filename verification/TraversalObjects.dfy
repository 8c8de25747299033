// The traversals as objects that update their fields, each against the state machine of
// module Traversal.
module TraversalObjects {
  import opened Base
  import opened Ipld
  import opened Tables
  import T = Traversal

  /** A depth-first traversal with an explicit stack, over a database that may change between calls. */
  class FullTraversal {
    var prev: Option<Cid>
    var stack: seq<Cid>
    var visited: set<Cid>
    const db: TableStore

    function View(): T.State
      reads this
    {
      T.State(prev, stack, visited)
    }

    constructor (db: TableStore, root: Cid, visited: set<Cid>)
      ensures View() == T.Start(root, visited) && this.db == db
    {
      this.stack := [root];
      this.visited := visited;
      this.db := db;
      this.prev := None;
    }

    method Next(libs: Libs) returns (r: Result<Option<Cid>, Error>)
      modifies this
      ensures match T.Next(libs, db.View(), old(View()))
              case Yield(c, next) => r == Ok(Some(c)) && View() == next
              case Done(next) => r == Ok(None) && View() == next
              case Fail(e, next) => r == Err(e) && View() == next
    {
      hide T.Next;
      while true
        invariant T.Next(libs, db.View(), View()) == T.Next(libs, db.View(), old(View()))
        decreases if prev.Some? then 1 else 0, |stack|
      {
        T.NextAfterDeferred(libs, db.View(), View());
        // the links of the last cid could not be read before its data had arrived
        if prev.Some? {
          var cid := prev.value;
          prev := None;
          if cid.codec == RAW {
            assert stack + Reverse<Cid>([]) == stack;
            continue;
          }
          var links := db.GetLinks(libs, cid);
          if links.Err? {
            return Err(links.error);
          }
          if links.value.Some? {
            PushReversed(links.value.value);
          } else {
            assert stack + Reverse<Cid>([]) == stack;
          }
        }
        T.NextAtTop(libs, db.View(), stack, visited);
        if stack == [] {
          return Ok(None);
        }
        var cid := stack[|stack| - 1];
        stack := stack[..|stack| - 1];
        if cid in visited {
          continue;
        }
        visited := visited + {cid};
        prev := Some(cid);
        return Ok(Some(cid));
      }
    }

    method PushReversed(links: seq<Cid>)
      modifies this`stack
      ensures stack == old(stack) + Reverse(links)
    {
      var i := |links|;
      assert links[i..] == [];
      while i > 0
        invariant 0 <= i <= |links|
        invariant stack == old(stack) + Reverse(links[i..])
      {
        i := i - 1;
        assert links[i..][1..] == links[i + 1..];
        stack := stack + [links[i]];
      }
      assert links[0..] == links;
    }
  }

  /** A full traversal behind a filter. */
  class Filtered {
    const inner: FullTraversal
    const filter: T.TraversalFilter

    function View(): T.Walker
      reads this, inner
    {
      T.FullWalker(inner.View(), filter)
    }

    constructor (inner: FullTraversal, filter: T.TraversalFilter)
      ensures this.inner == inner && this.filter == filter
    {
      this.inner := inner;
      this.filter := filter;
    }

    method Next(libs: Libs) returns (r: Result<Option<Cid>, Error>)
      modifies inner
      ensures Stepped(T.WalkerNext(libs, inner.db.View(), old(View())), r, View())
    {
      while true
        invariant T.WalkerNext(libs, inner.db.View(), View()) == T.WalkerNext(libs, inner.db.View(), old(View()))
        decreases |T.Pending(libs, inner.db.View(), inner.View())|
      {
        T.PendingDecreases(libs, inner.db.View(), inner.View());
        var item := inner.Next(libs);
        if item.Err? || item.value.None? || T.Keeps(filter, item.value.value) {
          return item;
        }
      }
    }
  }

  /** What a caller of `next` sees of one step. */
  ghost predicate Stepped(step: T.Advance, r: Result<Option<Cid>, Error>, view: T.Walker) {
    && view == step.next
    && r == match step
            case Item(c, _) => Ok(Some(c))
            case End(_) => Ok(None)
            case Failed(e, _) => Err(e)
  }

  /** A fixed list of cids. */
  class SequenceTraversal {
    var cids: seq<Cid>
    const db: TableStore

    function View(): T.Walker
      reads this
    {
      T.SequenceWalker(cids)
    }

    constructor (db: TableStore, cids: seq<Cid>)
      ensures View() == T.SequenceWalker(cids) && this.db == db
    {
      this.cids := cids;
      this.db := db;
    }

    method Next(libs: Libs) returns (r: Result<Option<Cid>, Error>)
      modifies this
      ensures Stepped(T.WalkerNext(libs, db.View(), old(View())), r, View())
    {
      if cids == [] {
        return Ok(None);
      }
      r := Ok(Some(cids[0]));
      cids := cids[1..];
    }
  }

  /** A traversal whose kind is known at run time only. */
  datatype BoxedTraversal =
    | BoxedSequence(sequence: SequenceTraversal)
    | BoxedFull(full: FullTraversal)
    | BoxedFiltered(filtered: Filtered)
  {
    function Db(): TableStore {
      match this
      case BoxedSequence(s) => s.db
      case BoxedFull(f) => f.db
      case BoxedFiltered(f) => f.inner.db
    }

    function Footprint(): set<object> {
      match this
      case BoxedSequence(s) => {s}
      case BoxedFull(f) => {f}
      case BoxedFiltered(f) => {f, f.inner}
    }

    function View(): T.Walker
      reads Footprint()
    {
      match this
      case BoxedSequence(s) => s.View()
      case BoxedFull(f) => T.FullWalker(f.View(), T.All)
      case BoxedFiltered(f) => f.View()
    }

    method Next(libs: Libs) returns (r: Result<Option<Cid>, Error>)
      modifies Footprint()
      ensures Stepped(T.WalkerNext(libs, Db().View(), old(View())), r, View())
    {
      match this
      case BoxedSequence(s) => r := s.Next(libs);
      case BoxedFull(f) =>
        ghost var before := f.View();
        r := f.Next(libs);
        assert T.Next(libs, f.db.View(), before).Yield? ==> T.Keeps(T.All, T.Next(libs, f.db.View(), before).cid);
      case BoxedFiltered(f) => r := f.Next(libs);
    }

    method Roots() returns (r: seq<Cid>)
      ensures r == T.Roots(View())
    {
      match this
      case BoxedSequence(s) => r := s.cids;
      case BoxedFull(f) => r := f.stack;
      case BoxedFiltered(f) => r := f.inner.stack;
    }
  }

  method GetTraversal(opts: T.TraversalOpts, db: TableStore) returns (t: BoxedTraversal)
    ensures t.View() == T.GetTraversal(opts) && t.Db() == db
    ensures fresh(t.Footprint())
  {
    match opts
    case SequenceOpts(cids) =>
      var s := new SequenceTraversal(db, cids);
      t := BoxedSequence(s);
    case FullOpts(root, visited, filter) =>
      var full := new FullTraversal(db, root, if visited.Some? then visited.value else {});
      var f := if filter.Some? then filter.value else T.All;
      if f.All? {
        t := BoxedFull(full);
      } else {
        var filtered := new Filtered(full, f);
        t := BoxedFiltered(filtered);
      }
  }
}
