/** Rebalancing the repetitions of a whole tree (ts_subtree_balance). */
module Balancing {
  import opened Options
  import opened Subtrees
  import opened Worklists
  import opened Rotations
  import opened RotationMeaning

  /** Compressions by i, i / 2, i / 4, ... */
  function HalveTree(sm: Summarizing, t: Subtree, i: nat): Subtree
    decreases i
  {
    if i == 0 then t else HalveTree(sm, CompressTree(sm, t, t.head.symbol, i), i / 2)
  }

  /** How much deeper the repetition is on the left than on the right. */
  function RepeatDelta(t: Subtree): int
    requires |t.children| > 0
  {
    First(t).repeatDepth - Last(t).repeatDepth
  }

  /** What happens to one node when it is popped: rotations, if it heads a lopsided repetition. */
  function Rebalanced(sm: Summarizing, t: Subtree): Subtree {
    if |t.children| > 0 && t.repeatDepth > 0 && RepeatDelta(t) > 0 then HalveTree(sm, t, RepeatDelta(t) / 2) else t
  }

  /** Is the node visited?  Shared nodes are left alone. */
  predicate IsVisited(t: Subtree) {
    |t.children| > 0 && t.head.refCount == 1
  }

  lemma {:induction false} HalveKeepsText(sm: Summarizing, t: Subtree, i: nat)
    requires KeepsText(sm)
    ensures SameText(HalveTree(sm, t, i), t)
    decreases i
  {
    if i == 0 {
    } else {
      CompressKeepsText(sm, t, t.head.symbol, i);
      HalveKeepsText(sm, CompressTree(sm, t, t.head.symbol, i), i / 2);
    }
  }

  lemma RebalancedKeepsText(lang: Language, t: Subtree)
    ensures SameText(Rebalanced(Summarizer(lang), t), t)
  {
    SummarizerKeepsText(lang);
    if |t.children| > 0 && t.repeatDepth > 0 && RepeatDelta(t) > 0 {
      HalveKeepsText(Summarizer(lang), t, RepeatDelta(t) / 2);
    }
  }

  lemma {:induction false} CountOfChild(cs: seq<Subtree>, i: nat)
    requires i < |cs|
    ensures NodeCount(cs[i]) <= NodeCounts(cs)
  {
    if i >= |cs| - 1 {
    } else {
      CountOfChild(cs[..|cs| - 1], i);
    }
  }

  /** The balanced tree: each visited node is rebalanced, then its children in turn. */
  ghost function BalanceTree(lang: Language, t: Subtree): Subtree
    decreases NodeCount(t)
  {
    var m := Rebalanced(Summarizer(lang), t);
    m.(children := seq(|m.children|, i requires 0 <= i < |m.children| => BalancedChild(lang, t, m, i)))
  }

  ghost function BalancedChild(lang: Language, t: Subtree, m: Subtree, i: nat): Subtree
    requires m == Rebalanced(Summarizer(lang), t) && i < |m.children|
    decreases NodeCount(t), 0
  {
    RebalancedKeepsText(lang, t);
    CountOfChild(m.children, i);
    if IsVisited(m.children[i]) then BalanceTree(lang, m.children[i]) else m.children[i]
  }

  /** What ts_subtree_balance makes of a tree. */
  ghost function Balanced(lang: Language, t: Subtree): Subtree {
    if IsVisited(t) then BalanceTree(lang, t) else t
  }

  // ----- What balancing keeps -----

  lemma {:induction false} HalveKeepsSummary(repeats: set<Symbol>, lang: Language, t: Subtree, i: nat)
    requires Sound(repeats, lang, t) && t.head.symbol in repeats
    ensures var r := HalveTree(Summarizer(lang), t, i);
            Sound(repeats, lang, r) && r.sum == t.sum && r.head == t.head && |r.children| == |t.children|
    decreases i
  {
    if i == 0 {
    } else {
      CompressKeepsSummary(repeats, lang, t, i);
      HalveKeepsSummary(repeats, lang, CompressTree(Summarizer(lang), t, t.head.symbol, i), i / 2);
    }
  }

  lemma RebalancedKeepsSummary(repeats: set<Symbol>, lang: Language, t: Subtree)
    requires Sound(repeats, lang, t)
    ensures var r := Rebalanced(Summarizer(lang), t);
            Sound(repeats, lang, r) && r.sum == t.sum && r.head == t.head && |r.children| == |t.children|
  {
    if |t.children| > 0 && t.repeatDepth > 0 && RepeatDelta(t) > 0 {
      HalveKeepsSummary(repeats, lang, t, RepeatDelta(t) / 2);
    }
  }

  lemma {:induction false} EqualTextChildren(a: seq<Subtree>, b: seq<Subtree>)
    requires |a| == |b| && forall i | 0 <= i < |a| :: EqualText(a[i], b[i])
    ensures LeavesOf(a) == LeavesOf(b) && NodeCounts(a) == NodeCounts(b)
  {
    if a == [] {
    } else {
      EqualTextChildren(a[..|a| - 1], b[..|b| - 1]);
    }
  }

  /** Balancing keeps the left-to-right leaves, the number of nodes, and the root's whole summary: padding,
      size, lookahead, error cost, child and descendant counts, first leaf.  And every node's stored summary
      is still the one its children give. */
  lemma {:induction false} BalanceKeepsMeaning(repeats: set<Symbol>, lang: Language, t: Subtree)
    requires Sound(repeats, lang, t)
    ensures var r := BalanceTree(lang, t);
            && Sound(repeats, lang, r)
            && r.sum == t.sum && r.head == t.head
            && SameText(r, t)
    decreases NodeCount(t)
  {
    var m := Rebalanced(Summarizer(lang), t);
    var r := BalanceTree(lang, t);
    RebalancedKeepsText(lang, t);
    RebalancedKeepsSummary(repeats, lang, t);
    forall i | 0 <= i < |m.children|
      ensures SameView(r.children[i], m.children[i]) && Sound(repeats, lang, r.children[i])
      ensures EqualText(r.children[i], m.children[i])
    {
      CountOfChild(m.children, i);
      assert r.children[i] == BalancedChild(lang, t, m, i);
      if IsVisited(m.children[i]) {
        BalanceKeepsMeaning(repeats, lang, m.children[i]);
      }
    }
    EqualTextChildren(r.children, m.children);
    if |m.children| > 0 {
      SameSummary(lang, r, m);
    }
  }

  // ----- The worklist -----

  ghost function Balancer(lang: Language): (Subtree, ()) -> Subtree {
    (t, unit) => BalanceTree(lang, t)
  }

  /** The children pushed for a node. */
  function Visits(cs: seq<Subtree>): (r: seq<Option<()>>)
    ensures |r| == |cs|
  {
    seq(|cs|, i requires 0 <= i < |cs| => if IsVisited(cs[i]) then Some(()) else None)
  }

  lemma BalanceByChildren(lang: Language, t: Subtree)
    ensures var m := Rebalanced(Summarizer(lang), t);
            WithMapped(Balancer(lang), m, Visits(m.children)) == BalanceTree(lang, t)
  {
    var m := Rebalanced(Summarizer(lang), t);
    assert WithMapped(Balancer(lang), m, Visits(m.children)).children == BalanceTree(lang, t).children;
  }

  method PushVisited(stack: seq<Entry<()>>, p: Path, children: seq<Subtree>) returns (r: seq<Entry<()>>)
    ensures r == stack + Entries(p, Visits(children))
  {
    r := stack;
    ghost var plan := Visits(children);
    for i := 0 to |children|
      invariant r == stack + Entries(p, plan[..i])
    {
      assert plan[..i + 1][..i] == plan[..i];
      if |children[i].children| > 0 && children[i].head.refCount == 1 {
        r := r + [Entry(p + [i], ())];
      }
    }
    assert plan[..|plan|] == plan;
  }

  /** The rotations on one popped node. */
  method Rebalance(lang: Language, popped: Subtree) returns (tree: Subtree)
    requires |popped.children| > 0
    ensures tree == Rebalanced(Summarizer(lang), popped)
  {
    tree := popped;
    if tree.repeatDepth > 0 {
      var child1, child2 := First(tree), Last(tree);
      var repeatDelta := child1.repeatDepth - child2.repeatDepth;
      if repeatDelta > 0 {
        var n := repeatDelta;
        var i := n / 2;
        while i > 0
          invariant i >= 0
          invariant HalveTree(Summarizer(lang), tree, i) == HalveTree(Summarizer(lang), popped, repeatDelta / 2)
        {
          tree := Compress(lang, tree, i);
          n := n - i;
          i := i / 2;
        }
      }
    }
  }

  /** ts_subtree_balance. */
  method BalanceSubtree(lang: Language, self: Subtree) returns (r: Subtree)
    ensures r == Balanced(lang, self)
  {
    r := self;
    var stack: seq<Entry<()>> := [];
    if |self.children| > 0 && self.head.refCount == 1 {
      stack := [Entry([], ())];
    }
    ghost var goal := Balanced(lang, self);
    while stack != []
      invariant Ready(r, stack) && forall i | 0 <= i < |stack| :: |At(r, stack[i].tree).children| > 0
      invariant Finish(Balancer(lang), r, stack) == goal
      decreases Work(r, stack)
    {
      var entry := stack[|stack| - 1];
      ghost var (t, all) := (r, stack);
      stack := stack[..|stack| - 1];
      assert all == stack + [entry];
      var tree := Rebalance(lang, At(r, entry.tree));
      ghost var plan := Visits(tree.children);
      BalanceByChildren(lang, At(r, entry.tree));
      RebalancedKeepsText(lang, At(r, entry.tree));
      Processed(Balancer(lang), r, stack, entry, tree, plan);
      r := Put(r, entry.tree, tree);
      ghost var rest := stack;
      stack := PushVisited(stack, entry.tree, tree.children);
      StillInterior(t, rest, entry, tree, plan);
    }
  }

  lemma {:induction false} VisitsInterior(p: Path, cs: seq<Subtree>, plan: seq<Option<()>>, i: nat)
    requires |plan| <= |cs| && plan == Visits(cs)[..|plan|] && i < |Entries(p, plan)|
    ensures exists k :: 0 <= k < |cs| && Entries(p, plan)[i].tree == p + [k] && |cs[k].children| > 0
    decreases |plan|
  {
    var k := |plan| - 1;
    if i < |Entries(p, plan[..k])| {
      assert plan[..k] == Visits(cs)[..k];
      VisitsInterior(p, cs, plan[..k], i);
    } else {
      assert Entries(p, plan)[i].tree == p + [k];
    }
  }

  /** Everything on the stack has children. */
  lemma StillInterior(t: Subtree, rest: seq<Entry<()>>, entry: Entry<()>, tree: Subtree, plan: seq<Option<()>>)
    requires Ready(t, rest + [entry]) && ValidPath(t, entry.tree) && plan == Visits(tree.children)
    requires forall i | 0 <= i < |rest| :: ValidPath(t, rest[i].tree) && |At(t, rest[i].tree).children| > 0
    requires Ready(Put(t, entry.tree, tree), rest + Entries(entry.tree, plan))
    ensures var (t', stack) := (Put(t, entry.tree, tree), rest + Entries(entry.tree, plan));
            forall i | 0 <= i < |stack| :: |At(t', stack[i].tree).children| > 0
  {
    var (p, all) := (entry.tree, rest + [entry]);
    assert all[|all| - 1] == entry && forall i | 0 <= i < |rest| :: all[i] == rest[i];
    TopApart(t, all);
    var (t', stack) := (Put(t, p, tree), rest + Entries(p, plan));
    forall i | 0 <= i < |stack|
      ensures |At(t', stack[i].tree).children| > 0
    {
      if i < |rest| {
        PutApart(t, p, tree, rest[i].tree);
      } else {
        assert plan == Visits(tree.children)[..|plan|];
        VisitsInterior(p, tree.children, plan, i - |rest|);
        var k :| 0 <= k < |tree.children| && stack[i].tree == p + [k] && |tree.children[k].children| > 0;
        PutAt(t, p, tree, [k]);
      }
    }
  }
}
