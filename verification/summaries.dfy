/** What an interior node records about its children (ts_subtree_summarize_children).

    The summary is a product in a monoid of extents and counts, so a hidden node stands for its
    children: this is what lets trees be rebalanced. */
module Summaries {
  import opened Lengths
  import opened Subtrees

  /** The sums over a sequence of siblings.  `reach` is the furthest byte any of them looked at. */
  datatype Sums =
    | Nothing
    | Sums(padding: Length, size: Length, reach: nat, cost: nat, visible: nat, named: nat, descendants: nat,
           external: bool)

  function Max(a: nat, b: nat): nat {
    if a < b then b else a
  }

  function Combine(a: Sums, b: Sums): Sums {
    match (a, b)
    case (Nothing, _) => b
    case (_, Nothing) => a
    case (Sums(p, s, r, c, v, n, d, x), Sums(p', s', r', c', v', n', d', x')) =>
      Sums(p, LengthAdd(s, LengthAdd(p', s')), Max(r, p.bytes + s.bytes + r'), c + c', v + v', n + n', d + d', x || x')
  }

  lemma CombineAssociative(a: Sums, b: Sums, c: Sums)
    ensures Combine(Combine(a, b), c) == Combine(a, Combine(b, c))
  {
  }

  /** What an error node pays for skipping over a child. */
  function SkipCost(parent: Subtree, c: Subtree): nat {
    if !parent.IsErrorSymbol() || c.head.extra || (c.head.symbol == SYM_ERROR && |c.children| == 0) then 0
    else if c.head.visible then COST_PER_SKIPPED_TREE
    else COST_PER_SKIPPED_TREE * c.VisibleChildCount()
  }

  /** Has the child an alias in this place? */
  predicate IsAliased(lang: Language, parent: Subtree, structuralIndex: nat, c: Subtree) {
    AliasAt(lang, parent.head.productionId, structuralIndex) != 0 && !c.head.extra
  }

  /** What one child contributes. */
  function SumsOf(lang: Language, parent: Subtree, structuralIndex: nat, c: Subtree): Sums {
    var aliased := IsAliased(lang, parent, structuralIndex, c);
    Sums(
      c.sum.padding,
      c.sum.size,
      c.TotalBytes() + c.sum.lookaheadBytes,
      (if c.head.symbol == SYM_ERROR_REPEAT then 0 else c.ErrorCost()) + SkipCost(parent, c),
      if aliased || c.head.visible then 1 else c.VisibleChildCount(),
      if aliased then (if lang.isNamed(AliasAt(lang, parent.head.productionId, structuralIndex)) then 1 else 0)
      else if c.head.visible then (if c.head.named then 1 else 0)
      else c.NamedChildCount(),
      c.VisibleDescendantCount() + (if aliased || c.head.visible then 1 else 0),
      c.sum.hasExternalTokens)
  }

  function StructuralIndex(cs: seq<Subtree>, k: nat): nat
    requires k <= |cs|
  {
    if k == 0 then 0 else StructuralIndex(cs, k - 1) + (if cs[k - 1].head.extra then 0 else 1)
  }

  /** The sums over the first k children. */
  function Product(lang: Language, parent: Subtree, k: nat): (r: Sums)
    requires k <= |parent.children|
    ensures k > 0 ==> r.Sums? && r.padding == parent.children[0].sum.padding
    ensures k > 0 ==> r.reach >= r.padding.bytes + r.size.bytes
  {
    if k == 0 then Nothing
    else Combine(Product(lang, parent, k - 1),
                 SumsOf(lang, parent, StructuralIndex(parent.children, k - 1), parent.children[k - 1]))
  }

  /** The summary of an interior node. */
  function SummaryOf(lang: Language, t: Subtree): Summary
    requires |t.children| > 0
  {
    var p := Product(lang, t, |t.children|);
    var own := if t.IsErrorSymbol() then
                 COST_PER_RECOVERY + COST_PER_SKIPPED_CHAR * p.size.bytes + COST_PER_SKIPPED_LINE * p.size.extent.row
               else 0;
    Summary(p.padding, p.size, p.reach - p.size.bytes - p.padding.bytes, p.cost + own, p.visible, p.named,
            p.descendants, p.external, t.children[0].LeafSymbol(), t.children[0].LeafState())
  }

  function RepeatDepthOf(t: Subtree): nat {
    if |t.children| >= 2 && !t.head.visible && !t.head.named && t.children[0].head.symbol == t.head.symbol then
      Max(t.children[0].repeatDepth, t.children[|t.children| - 1].repeatDepth) + 1
    else 0
  }

  function Summarized(lang: Language, t: Subtree): Subtree {
    if |t.children| == 0 then t
    else t.(sum := SummaryOf(lang, t), repeatDepth := RepeatDepthOf(t))
  }

  /** Every interior node's summary is what its children say. */
  predicate WellSummarized(lang: Language, t: Subtree) {
    && (|t.children| > 0 ==> t.sum == SummaryOf(lang, t))
    && forall i | 0 <= i < |t.children| :: WellSummarized(lang, t.children[i])
  }

  /** The error cost of one more child. */
  method AddCost(self: Subtree, child: Subtree, costSoFar: nat) returns (cost: nat)
    ensures cost == costSoFar + (if child.head.symbol == SYM_ERROR_REPEAT then 0 else child.ErrorCost())
                    + (if || (self.head.symbol != SYM_ERROR && self.head.symbol != SYM_ERROR_REPEAT)
                          || child.head.extra || (child.head.symbol == SYM_ERROR && |child.children| == 0) then 0
                       else 100 * if child.head.visible then 1 else child.VisibleChildCount())
  {
    cost := costSoFar;
    if child.head.symbol != SYM_ERROR_REPEAT {
      cost := cost + child.ErrorCost();
    }
    if self.head.symbol == SYM_ERROR || self.head.symbol == SYM_ERROR_REPEAT {
      if !child.head.extra && !(child.head.symbol == SYM_ERROR && |child.children| == 0) {
        if child.head.visible {
          cost := cost + COST_PER_SKIPPED_TREE;
        } else if |child.children| > 0 {
          cost := cost + COST_PER_SKIPPED_TREE * child.sum.visibleChildCount;
        }
      }
    }
  }

  /** The visible, named and descendant counts of one more child. */
  method AddCounts(lang: Language, self: Subtree, child: Subtree, structuralIndex: nat, v: nat, n: nat, d: nat)
    returns (visible: nat, named: nat, descendants: nat)
    ensures var s := SumsOf(lang, self, structuralIndex, child);
            visible == v + s.visible && named == n + s.named && descendants == d + s.descendants
  {
    visible, named, descendants := v, n, d + child.VisibleDescendantCount();
    var alias := AliasAt(lang, self.head.productionId, structuralIndex);
    if alias != 0 && !child.head.extra {
      descendants, visible := descendants + 1, visible + 1;
      if lang.isNamed(alias) {
        named := named + 1;
      }
    } else if child.head.visible {
      descendants, visible := descendants + 1, visible + 1;
      if child.head.named {
        named := named + 1;
      }
    } else if |child.children| > 0 {
      visible := visible + child.sum.visibleChildCount;
      named := named + child.sum.namedChildCount;
    }
  }

  /** The loop over the children. */
  method SumChildren(lang: Language, self: Subtree)
    returns (padding: Length, size: Length, reach: nat, cost: nat, visible: nat, named: nat, descendants: nat,
             external: bool)
    requires |self.children| > 0
    ensures Product(lang, self, |self.children|)
            == Sums(padding, size, reach, cost, visible, named, descendants, external)
  {
    reach, cost, visible, named, descendants, external := 0, 0, 0, 0, 0, false;
    padding, size := LENGTH_ZERO, LENGTH_ZERO;
    var structuralIndex: nat := 0;
    var cs := self.children;
    for i := 0 to |cs|
      invariant structuralIndex == StructuralIndex(cs, i)
      invariant i == 0 ==> reach == cost == visible == named == descendants == 0 && !external
      invariant i > 0 ==>
                  Product(lang, self, i) == Sums(padding, size, reach, cost, visible, named, descendants, external)
    {
      var child := cs[i];
      assert Product(lang, self, i + 1)
             == Combine(Product(lang, self, i), SumsOf(lang, self, structuralIndex, child));
      if i == 0 {
        padding := child.sum.padding;
        size := child.sum.size;
      } else {
        size := LengthAdd(size, child.TotalSize());
      }
      var childReach := padding.bytes + size.bytes + child.sum.lookaheadBytes;
      if childReach > reach {
        reach := childReach;
      }
      cost := AddCost(self, child, cost);
      visible, named, descendants := AddCounts(lang, self, child, structuralIndex, visible, named, descendants);
      if child.sum.hasExternalTokens {
        external := true;
      }
      if !child.head.extra {
        structuralIndex := structuralIndex + 1;
      }
    }
  }

  /** What summarizing makes of a node without children, which keeps its extent: the counts, the flags and the repeat
      depth are reset, an error node pays for itself, and the lookahead is counted back from byte 0. */
  function WithoutChildren(t: Subtree): Subtree {
    var own := if t.IsErrorSymbol() then
                 COST_PER_RECOVERY + COST_PER_SKIPPED_CHAR * t.sum.size.bytes
                 + COST_PER_SKIPPED_LINE * t.sum.size.extent.row
               else 0;
    var lookahead: int := 0 - t.TotalBytes();
    t.(repeatDepth := 0,
       sum := t.sum.(lookaheadBytes := lookahead % (UINT32_MAX + 1), errorCost := own,
                     visibleChildCount := 0, namedChildCount := 0, visibleDescendantCount := 0,
                     hasExternalTokens := false))
  }

  /** ts_subtree_summarize_children. */
  method SummarizeChildren(lang: Language, self: Subtree) returns (r: Subtree)
    ensures r == if |self.children| > 0 then Summarized(lang, self) else WithoutChildren(self)
  {
    var padding, size, reach, cost, visible, named, descendants, external :=
      self.sum.padding, self.sum.size, 0, 0, 0, 0, 0, false;
    if |self.children| > 0 {
      padding, size, reach, cost, visible, named, descendants, external := SumChildren(lang, self);
    }
    var lookahead := reach - size.bytes - padding.bytes;
    if lookahead < 0 {
      lookahead := lookahead % (UINT32_MAX + 1);
    }
    if self.head.symbol == SYM_ERROR || self.head.symbol == SYM_ERROR_REPEAT {
      cost := cost + COST_PER_RECOVERY + COST_PER_SKIPPED_CHAR * size.bytes + COST_PER_SKIPPED_LINE * size.extent.row;
    }
    var depth, firstLeafSymbol, firstLeafState := 0, self.sum.firstLeafSymbol, self.sum.firstLeafState;
    if |self.children| > 0 {
      var first, last := self.children[0], self.children[|self.children| - 1];
      firstLeafSymbol, firstLeafState := first.LeafSymbol(), first.LeafState();
      if |self.children| >= 2 && !self.head.visible && !self.head.named && first.head.symbol == self.head.symbol {
        if first.repeatDepth > last.repeatDepth {
          depth := first.repeatDepth + 1;
        } else {
          depth := last.repeatDepth + 1;
        }
      }
    }
    r := self.(
      repeatDepth := depth,
      sum := Summary(padding, size, lookahead, cost, visible, named, descendants, external,
                     firstLeafSymbol, firstLeafState));
  }

  // ----- What the summary means -----

  lemma {:induction false} ProductExtent(lang: Language, t: Subtree, k: nat)
    requires 0 < k <= |t.children|
    ensures var p := Product(lang, t, k); LengthAdd(p.padding, p.size) == Prefix(t.children, k)
  {
    if k <= 1 {
    } else {
      ProductExtent(lang, t, k - 1);
    }
  }

  /** Summaries give the tree its byte layout. */
  lemma SummariesLayOut(lang: Language, t: Subtree)
    requires WellSummarized(lang, t)
    ensures Layout(t)
  {
    if |t.children| == 0 {
    } else {
      ProductExtent(lang, t, |t.children|);
      forall i | 0 <= i < |t.children| {
        SummariesLayOut(lang, t.children[i]);
      }
    }
  }

  /** The furthest byte that the first k children looked at. */
  function Reach(cs: seq<Subtree>, k: nat): nat
    requires k <= |cs|
  {
    if k == 0 then 0 else Max(Reach(cs, k - 1), Left(cs, k) + cs[k - 1].sum.lookaheadBytes)
  }

  lemma {:induction false} ReachIsMax(cs: seq<Subtree>, k: nat)
    requires k <= |cs|
    ensures forall i | 0 <= i < k :: Left(cs, i + 1) + cs[i].sum.lookaheadBytes <= Reach(cs, k)
  {
    if k == 0 {
    } else {
      ReachIsMax(cs, k - 1);
    }
  }

  lemma {:induction false} ProductReach(lang: Language, t: Subtree, k: nat)
    requires 0 < k <= |t.children|
    ensures Product(lang, t, k).reach == Reach(t.children, k)
  {
    var cs := t.children;
    assert Left(cs, k) == Left(cs, k - 1) + cs[k - 1].TotalBytes();
    if k > 1 {
      ProductReach(lang, t, k - 1);
      ProductExtent(lang, t, k - 1);
    } else {
      assert Product(lang, t, 0) == Nothing && Left(cs, 0) == Reach(cs, 0) == 0;
    }
  }

  lemma SummaryReach(lang: Language, t: Subtree)
    requires |t.children| > 0 && t.sum == SummaryOf(lang, t)
    ensures t.TotalBytes() + t.sum.lookaheadBytes == Reach(t.children, |t.children|)
  {
    ProductReach(lang, t, |t.children|);
  }

  /** Summarized lookaheads satisfy what the edit relies on. */
  lemma SummariesLookAhead(lang: Language, t: Subtree)
    requires WellSummarized(lang, t)
    ensures LooksAhead(t)
  {
    if |t.children| == 0 {
    } else {
      SummaryReach(lang, t);
      ReachIsMax(t.children, |t.children|);
      SummariesLayOut(lang, t);
      forall i | 0 <= i < |t.children| {
        SummariesLookAhead(lang, t.children[i]);
      }
    }
  }

  /** Some child looks as far ahead as the children together. */
  lemma {:induction false} ReachingChild(cs: seq<Subtree>, k: nat) returns (i: nat)
    requires 0 < k <= |cs|
    ensures i < k
    ensures Reach(cs, k) == Left(cs, i) + cs[i].TotalBytes() + cs[i].sum.lookaheadBytes
  {
    i := k - 1;
    if k > 1 && Reach(cs, k) == Reach(cs, k - 1) {
      i := ReachingChild(cs, k - 1);
    } else if k == 1 {
      assert Reach(cs, 0) == 0;
    }
  }

  lemma ReachedThroughChild(t: Subtree, i: nat, q: Path)
    requires i < |t.children| && ValidPath(t.children[i], q)
    ensures ValidPath(t, [i] + q) && At(t, [i] + q) == At(t.children[i], q)
    ensures ReachedBy(t, [i] + q) == Left(t.children, i) + ReachedBy(t.children[i], q)
  {
    assert ([i] + q)[1..] == q;
  }

  /** No node reaches further than some leaf below it: lookahead is exactly the furthest look of a leaf. */
  lemma {:induction false} ReachedByALeaf(lang: Language, t: Subtree) returns (p: Path)
    requires WellSummarized(lang, t)
    ensures ValidPath(t, p) && |At(t, p).children| == 0
    ensures ReachedBy(t, p) == t.TotalBytes() + t.sum.lookaheadBytes
    decreases t
  {
    if |t.children| == 0 {
      p := [];
    } else {
      SummaryReach(lang, t);
      var i := ReachingChild(t.children, |t.children|);
      var q := ReachedByALeaf(lang, t.children[i]);
      ReachedThroughChild(t, i, q);
      p := [i] + q;
    }
  }
}
