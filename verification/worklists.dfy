/** Explicit stacks of subtrees still to be processed in place, shared by the loops of ts_subtree_edit
    and ts_subtree_balance.  A stacked pointer is a path; stacked subtrees do not overlap. */
module Worklists {
  import opened Options
  import opened Subtrees

  /** A subtree to process, with what its parent passed down to it. */
  datatype Entry<+C> = Entry(tree: Path, ctx: C)

  predicate Apart(p: Path, q: Path) {
    !(p <= q) && !(q <= p)
  }

  ghost predicate Ready<C>(t: Subtree, stack: seq<Entry<C>>) {
    && (forall i | 0 <= i < |stack| :: ValidPath(t, stack[i].tree))
    && forall i, j | 0 <= i < j < |stack| :: Apart(stack[i].tree, stack[j].tree)
  }

  /** Writing at one path leaves paths apart from it alone. */
  lemma {:induction false} PutApart(t: Subtree, p: Path, n: Subtree, q: Path)
    requires ValidPath(t, p) && Apart(p, q)
    ensures ValidPath(Put(t, p, n), q) <==> ValidPath(t, q)
    ensures ValidPath(t, q) ==> At(Put(t, p, n), q) == At(t, q)
    decreases p
  {
    if p[0] != q[0] || p[0] >= |t.children| {
    } else {
      assert p == [p[0]] + p[1..] && q == [q[0]] + q[1..];
      PutApart(t.children[p[0]], p[1..], n, q[1..]);
    }
  }

  lemma ReadyAfterPut<C>(t: Subtree, stack: seq<Entry<C>>, p: Path, n: Subtree)
    requires Ready(t, stack) && ValidPath(t, p)
    requires forall i | 0 <= i < |stack| :: Apart(p, stack[i].tree)
    ensures Ready(Put(t, p, n), stack)
  {
    forall i | 0 <= i < |stack| {
      PutApart(t, p, n, stack[i].tree);
    }
  }

  lemma TopApart<C>(t: Subtree, stack: seq<Entry<C>>)
    requires Ready(t, stack) && stack != []
    ensures Ready(t, stack[..|stack| - 1])
    ensures forall i | 0 <= i < |stack| - 1 :: Apart(stack[|stack| - 1].tree, stack[i].tree)
  {
    forall i | 0 <= i < |stack| - 1
      ensures Apart(stack[|stack| - 1].tree, stack[i].tree)
    {
      assert Apart(stack[i].tree, stack[|stack| - 1].tree);
    }
  }

  /** The tree once f has been applied to everything on the stack, top first. */
  ghost function Finish<C>(f: (Subtree, C) -> Subtree, t: Subtree, stack: seq<Entry<C>>): Subtree
    requires Ready(t, stack)
    decreases |stack|
  {
    if stack == [] then t
    else
      var (top, rest) := (stack[|stack| - 1], stack[..|stack| - 1]);
      TopApart(t, stack);
      ReadyAfterPut(t, rest, top.tree, f(At(t, top.tree), top.ctx));
      Finish(f, Put(t, top.tree, f(At(t, top.tree), top.ctx)), rest)
  }

  /** The nodes below the stacked paths. */
  ghost function Work<C>(t: Subtree, stack: seq<Entry<C>>): nat
    requires Ready(t, stack)
  {
    if stack == [] then 0
    else Work(t, stack[..|stack| - 1]) + NodeCount(At(t, stack[|stack| - 1].tree))
  }

  lemma {:induction false} WorkAfterPut<C>(t: Subtree, stack: seq<Entry<C>>, p: Path, n: Subtree)
    requires Ready(t, stack) && ValidPath(t, p) && Ready(Put(t, p, n), stack)
    requires forall i | 0 <= i < |stack| :: Apart(p, stack[i].tree)
    ensures Work(Put(t, p, n), stack) == Work(t, stack)
    decreases |stack|
  {
    if stack == [] {
    } else {
      WorkAfterPut(t, stack[..|stack| - 1], p, n);
      PutApart(t, p, n, stack[|stack| - 1].tree);
    }
  }

  // ----- The entries pushed for the children of one node -----

  /** The entries pushed for the first |plan| children of the node at p. */
  function Entries<C>(p: Path, plan: seq<Option<C>>): seq<Entry<C>> {
    if plan == [] then []
    else
      var k := |plan| - 1;
      Entries(p, plan[..k]) + (if plan[k].Some? then [Entry(p + [k], plan[k].value)] else [])
  }

  function SetChild(m: Subtree, k: nat, c: Subtree): Subtree
    requires k < |m.children|
  {
    m.(children := m.children[k := c])
  }

  function Mapped<C>(f: (Subtree, C) -> Subtree, c: Subtree, queued: Option<C>): Subtree {
    if queued.Some? then f(c, queued.value) else c
  }

  /** A node whose children have been processed as planned. */
  function WithMapped<C>(f: (Subtree, C) -> Subtree, m: Subtree, plan: seq<Option<C>>): Subtree
    requires |plan| <= |m.children|
  {
    m.(children := seq(|m.children|, i requires 0 <= i < |m.children| =>
                         if i < |plan| then Mapped(f, m.children[i], plan[i]) else m.children[i]))
  }

  lemma WithMappedLast<C>(f: (Subtree, C) -> Subtree, m: Subtree, plan: seq<Option<C>>, k: nat)
    requires k + 1 == |plan| <= |m.children|
    ensures WithMapped(f, m, plan) == WithMapped(f, SetChild(m, k, Mapped(f, m.children[k], plan[k])), plan[..k])
  {
    var m' := SetChild(m, k, Mapped(f, m.children[k], plan[k]));
    assert WithMapped(f, m, plan).children == WithMapped(f, m', plan[..k]).children;
  }

  lemma {:induction false} EntriesExtend<C>(p: Path, plan: seq<Option<C>>, i: nat)
    requires i < |Entries(p, plan)|
    ensures exists k :: 0 <= k < |plan| && Entries(p, plan)[i].tree == p + [k]
  {
    var k := |plan| - 1;
    if i < |Entries(p, plan[..k])| {
      EntriesExtend(p, plan[..k], i);
    }
  }

  lemma ExtensionApart(p: Path, k: nat, q: Path)
    requires Apart(p, q)
    ensures Apart(p + [k], q)
  {
  }

  /** Pushing the entries for a node keeps the stack ready. */
  lemma {:induction false} ReadyEntries<C>(t: Subtree, rest: seq<Entry<C>>, p: Path, plan: seq<Option<C>>)
    requires Ready(t, rest) && ValidPath(t, p) && |plan| <= |At(t, p).children|
    requires forall i | 0 <= i < |rest| :: Apart(p, rest[i].tree)
    ensures Ready(t, rest + Entries(p, plan))
    decreases |plan|
  {
    if plan == [] {
      assert rest + Entries(p, plan) == rest;
    } else {
      var k := |plan| - 1;
      var shorter := rest + Entries(p, plan[..k]);
      ReadyEntries(t, rest, p, plan[..k]);
      if plan[k].Some? {
        var top := Entry(p + [k], plan[k].value);
        PutSame(t, p);
        PutAt(t, p, At(t, p), [k]);
        assert rest + Entries(p, plan) == shorter + [top];
        forall i | 0 <= i < |shorter|
          ensures Apart(shorter[i].tree, top.tree)
        {
          if i < |rest| {
            ExtensionApart(p, k, rest[i].tree);
          } else {
            EntriesExtend(p, plan[..k], i - |rest|);
            var j :| 0 <= j < k && shorter[i].tree == p + [j];
            assert (p + [j])[|p|] == j && (p + [k])[|p|] == k;
          }
        }
      } else {
        assert rest + Entries(p, plan) == shorter;
      }
    }
  }

  lemma PopEntry<C>(f: (Subtree, C) -> Subtree, t: Subtree, rest: seq<Entry<C>>, p: Path, m: Subtree,
                    plan: seq<Option<C>>, k: nat)
    requires ValidPath(t, p) && k + 1 == |plan| <= |m.children|
    requires Ready(Put(t, p, m), rest + Entries(p, plan))
    ensures var m' := SetChild(m, k, Mapped(f, m.children[k], plan[k]));
            && Ready(Put(t, p, m'), rest + Entries(p, plan[..k]))
            && Finish(f, Put(t, p, m), rest + Entries(p, plan))
               == Finish(f, Put(t, p, m'), rest + Entries(p, plan[..k]))
  {
    var (all, shorter) := (rest + Entries(p, plan), rest + Entries(p, plan[..k]));
    var c := Mapped(f, m.children[k], plan[k]);
    if plan[k].None? {
      assert all == shorter;
      assert SetChild(m, k, c) == m;
    } else {
      assert all == shorter + [Entry(p + [k], plan[k].value)];
      assert all[..|all| - 1] == shorter;
      PutAt(t, p, m, [k]);
      PutPut(t, p, m, [k], c);
      assert Put(m, [k], c) == SetChild(m, k, c);
      TopApart(Put(t, p, m), all);
      ReadyAfterPut(Put(t, p, m), shorter, p + [k], c);
    }
  }

  /** Finishing the entries pushed for a node processes its children as planned, and only them. */
  lemma {:induction false} FinishEntries<C>(
    f: (Subtree, C) -> Subtree, t: Subtree, rest: seq<Entry<C>>, p: Path, m: Subtree, plan: seq<Option<C>>)
    requires ValidPath(t, p) && |plan| <= |m.children|
    requires Ready(Put(t, p, m), rest + Entries(p, plan))
    ensures Ready(Put(t, p, WithMapped(f, m, plan)), rest)
    ensures Finish(f, Put(t, p, m), rest + Entries(p, plan)) == Finish(f, Put(t, p, WithMapped(f, m, plan)), rest)
    decreases |plan|
  {
    if plan == [] {
      assert rest + Entries(p, plan) == rest;
      assert WithMapped(f, m, plan).children == m.children;
    } else {
      var k := |plan| - 1;
      PopEntry(f, t, rest, p, m, plan, k);
      FinishEntries(f, t, rest, p, SetChild(m, k, Mapped(f, m.children[k], plan[k])), plan[..k]);
      WithMappedLast(f, m, plan, k);
    }
  }

  lemma WorkOfTop<C>(t: Subtree, stack: seq<Entry<C>>, top: Entry<C>)
    requires Ready(t, stack + [top]) && Ready(t, stack) && ValidPath(t, top.tree)
    ensures Work(t, stack + [top]) == Work(t, stack) + NodeCount(At(t, top.tree))
  {
    var all := stack + [top];
    assert all[..|all| - 1] == stack && all[|all| - 1] == top;
  }

  lemma {:induction false} WorkOfEntries<C>(t: Subtree, rest: seq<Entry<C>>, p: Path, plan: seq<Option<C>>)
    requires ValidPath(t, p) && |plan| <= |At(t, p).children|
    requires Ready(t, rest) && forall i | 0 <= i < |rest| :: Apart(p, rest[i].tree)
    ensures Ready(t, rest + Entries(p, plan))
    ensures Work(t, rest + Entries(p, plan)) <= Work(t, rest) + NodeCounts(At(t, p).children[..|plan|])
    decreases |plan|
  {
    var (cs, all) := (At(t, p).children, rest + Entries(p, plan));
    ReadyEntries(t, rest, p, plan);
    if plan == [] {
      assert all == rest;
    } else {
      var k := |plan| - 1;
      WorkOfEntries(t, rest, p, plan[..k]);
      assert NodeCounts(cs[..|plan|]) == NodeCounts(cs[..k]) + NodeCount(cs[k]) by {
        assert cs[..|plan|][..k] == cs[..k];
      }
      if plan[k].Some? {
        var top := Entry(p + [k], plan[k].value);
        assert all == (rest + Entries(p, plan[..k])) + [top];
        PutSame(t, p);
        PutAt(t, p, At(t, p), [k]);
        WorkOfTop(t, rest + Entries(p, plan[..k]), top);
      } else {
        assert all == rest + Entries(p, plan[..k]);
      }
    }
  }

  /** One turn of a worklist loop: the node at the popped path becomes `result`, and entries are pushed
      for its children.  The finished tree stays the same and the work shrinks. */
  lemma Processed<C>(f: (Subtree, C) -> Subtree, t: Subtree, rest: seq<Entry<C>>, entry: Entry<C>,
                     result: Subtree, plan: seq<Option<C>>)
    requires Ready(t, rest + [entry]) && ValidPath(t, entry.tree) && |plan| == |result.children|
    requires WithMapped(f, result, plan) == f(At(t, entry.tree), entry.ctx)
    requires NodeCount(result) <= NodeCount(At(t, entry.tree))
    ensures var (t', stack') := (Put(t, entry.tree, result), rest + Entries(entry.tree, plan));
            && Ready(t', stack')
            && Finish(f, t', stack') == Finish(f, t, rest + [entry])
            && Work(t', stack') < Work(t, rest + [entry])
  {
    var (p, all) := (entry.tree, rest + [entry]);
    assert all[..|all| - 1] == rest && all[|all| - 1] == entry;
    TopApart(t, all);
    assert forall i | 0 <= i < |rest| :: rest[i] == all[i];
    var t' := Put(t, p, result);
    ReadyAfterPut(t, rest, p, result);
    PutAt(t, p, result, []);
    assert p + [] == p;
    ReadyEntries(t', rest, p, plan);
    FinishEntries(f, t, rest, p, result, plan);
    WorkOfEntries(t', rest, p, plan);
    WorkAfterPut(t, rest, p, result);
    assert result.children[..|plan|] == result.children;
  }

  /** Popping a subtree that f leaves alone. */
  lemma Unprocessed<C>(f: (Subtree, C) -> Subtree, t: Subtree, rest: seq<Entry<C>>, entry: Entry<C>)
    requires Ready(t, rest + [entry]) && ValidPath(t, entry.tree)
    requires f(At(t, entry.tree), entry.ctx) == At(t, entry.tree)
    ensures Ready(t, rest)
    ensures Finish(f, t, rest) == Finish(f, t, rest + [entry])
    ensures Work(t, rest) < Work(t, rest + [entry])
  {
    var all := rest + [entry];
    assert all[..|all| - 1] == rest && all[|all| - 1] == entry;
    PutSame(t, entry.tree);
  }
}
