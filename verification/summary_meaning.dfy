/** What the summarized fields of a node say about the tree below it: error cost, named children, first leaf. */
module SummaryMeaning {
  import opened Options
  import opened Lengths
  import opened Subtrees
  import opened Summaries
  import opened VisibleTrees

  /** The structural index of a child is the number of children before it that are not extra. */
  lemma {:induction false} StructuralIndexMeans(cs: seq<Subtree>, k: nat)
    requires k <= |cs|
    ensures StructuralIndex(cs, k) == |set i | 0 <= i < k && !cs[i].head.extra|
    decreases k
  {
    if k == 0 {
    } else {
      var j := k - 1;
      StructuralIndexMeans(cs, j);
      var (before, all) := (set i | 0 <= i < j && !cs[i].head.extra, set i | 0 <= i < k && !cs[i].head.extra);
      assert all == before + if cs[j].head.extra then {} else {j};
    }
  }

  // ----- Error cost -----

  /** What a child adds: nothing if it is itself a repetition of errors, 610 if it is missing, else its stored cost. */
  function CostOf(c: Subtree): nat {
    if c.head.symbol == SYM_ERROR_REPEAT then 0 else if c.head.missing then 610 else c.sum.errorCost
  }

  function CostsOf(cs: seq<Subtree>): nat {
    if cs == [] then 0 else CostsOf(cs[..|cs| - 1]) + CostOf(cs[|cs| - 1])
  }

  /** The trees that an error node skips with child i: the child if it is visible, and otherwise its visible children.
      Nothing is skipped with extra children and errors without children. */
  function SkippedWith(lang: Language, t: Subtree, i: nat): seq<Path>
    requires i < |t.children|
  {
    var c := t.children[i];
    if c.head.extra || (c.head.symbol == SYM_ERROR && c.children == []) then []
    else if c.head.visible then [[i]]
    else Prepend(i, VisibleChildren(lang, c))
  }

  /** The trees that it skips with its first k children. */
  function SkippedUpTo(lang: Language, t: Subtree, k: nat): seq<Path>
    requires k <= |t.children|
  {
    if k == 0 then [] else SkippedUpTo(lang, t, k - 1) + SkippedWith(lang, t, k - 1)
  }

  lemma CostStep(lang: Language, t: Subtree, j: nat, k: nat)
    requires k == j + 1 <= |t.children| && CountsRight(lang, t.children[j])
    ensures SkippedUpTo(lang, t, k) == SkippedUpTo(lang, t, j) + SkippedWith(lang, t, j)
    ensures CostsOf(t.children[..k]) == CostsOf(t.children[..j]) + CostOf(t.children[j])
    ensures SkipCost(t, t.children[j]) == if t.IsErrorSymbol() then 100 * |SkippedWith(lang, t, j)| else 0
  {
    assert t.children[..k][..j] == t.children[..j];
    CountsAreSizes(lang, t.children[j]);
  }

  lemma CostOfProduct(lang: Language, t: Subtree, j: nat, k: nat)
    requires k == j + 1 <= |t.children|
    ensures Product(lang, t, k).Sums? && (j > 0 ==> Product(lang, t, j).Sums?)
    ensures Product(lang, t, k).cost
            == (if j == 0 then 0 else Product(lang, t, j).cost) + CostOf(t.children[j]) + SkipCost(t, t.children[j])
  {
    assert Product(lang, t, 0) == Nothing;
  }

  /** The sums hold the costs of the children and, for an error node, 100 for each tree that it skips. */
  lemma {:induction false} ProductCost(lang: Language, t: Subtree, k: nat)
    requires 0 < k <= |t.children| && forall i | 0 <= i < k :: CountsRight(lang, t.children[i])
    ensures Product(lang, t, k).cost
            == CostsOf(t.children[..k]) + if t.IsErrorSymbol() then 100 * |SkippedUpTo(lang, t, k)| else 0
    decreases k
  {
    var j := k - 1;
    CostStep(lang, t, j, k);
    CostOfProduct(lang, t, j, k);
    if j == 0 {
      assert t.children[..0] == [];
    } else {
      ProductCost(lang, t, j);
    }
  }

  /** The error cost of a node with children.  Whatever its symbol, it costs what its children cost, unless they are
      repetitions of errors.  An error costs 500 more, 1 for each byte, 30 for each line break, and 100 for each tree
      that it skips. */
  lemma ErrorCostMeans(lang: Language, t: Subtree)
    requires WellSummarized(lang, t) && |t.children| > 0
    ensures t.sum.errorCost
            == CostsOf(t.children)
               + if t.head.symbol == SYM_ERROR || t.head.symbol == SYM_ERROR_REPEAT then
                   500 + t.sum.size.bytes + 30 * t.sum.size.extent.row + 100 * |SkippedUpTo(lang, t, |t.children|)|
                 else 0
  {
    forall i | 0 <= i < |t.children| {
      SummariesCount(lang, t.children[i]);
    }
    ProductCost(lang, t, |t.children|);
    assert t.children[..|t.children|] == t.children;
  }

  // ----- Repeat depth -----

  /** A node of a repetition: hidden and unnamed, with two or more children of which the first has its symbol. */
  predicate IsRepetition(t: Subtree) {
    |t.children| >= 2 && !t.head.visible && !t.head.named && t.children[0].head.symbol == t.head.symbol
  }

  /** The way p goes through nodes of repetitions only, to their first or last children. */
  predicate IsRepeatedWay(t: Subtree, p: Path)
    decreases p
  {
    p != [] ==>
      && IsRepetition(t) && (p[0] == 0 || p[0] == |t.children| - 1)
      && IsRepeatedWay(t.children[p[0]], p[1..])
  }

  /** Every node's stored repeat depth is what summarizing gives it. */
  predicate DepthsRight(t: Subtree) {
    t.repeatDepth == RepeatDepthOf(t) && forall i | 0 <= i < |t.children| :: DepthsRight(t.children[i])
  }

  /** The stored repeat depth is the length of the longest such way. */
  lemma {:induction false} RepeatDepthMeans(t: Subtree, q: Path) returns (p: Path)
    requires DepthsRight(t)
    ensures IsRepeatedWay(t, p) && |p| == t.repeatDepth
    ensures IsRepeatedWay(t, q) ==> |q| <= t.repeatDepth
    decreases t
  {
    if IsRepetition(t) {
      var last := |t.children| - 1;
      var i := if q != [] && q[0] == 0 then 0 else last;
      var rest := RepeatDepthMeans(t.children[i], if q == [] then [] else q[1..]);
      var k := if t.children[0].repeatDepth > t.children[last].repeatDepth then 0 else last;
      rest := RepeatDepthMeans(t.children[k], []);
      p := [k] + rest;
      assert p[1..] == rest;
    } else {
      p := [];
    }
  }

  // ----- Named children -----

  /** Is the visible node at p named: by its alias, if its place gives it one, or else by itself? */
  predicate IsNamedAt(lang: Language, t: Subtree, p: Path)
    requires ValidPath(t, p) && p != []
    decreases p
  {
    if |p| > 1 then IsNamedAt(lang, t.children[p[0]], p[1..])
    else
      var (c, place) := (t.children[p[0]], StructuralIndex(t.children, p[0]));
      if IsAliased(lang, t, place, c) then lang.isNamed(AliasAt(lang, t.head.productionId, place)) else c.head.named
  }

  /** Every path on the list leads to a node below. */
  predicate AllBelow(t: Subtree, ps: seq<Path>) {
    forall k | 0 <= k < |ps| :: ps[k] != [] && ValidPath(t, ps[k])
  }

  /** The named nodes on a list. */
  function NamedOn(lang: Language, t: Subtree, ps: seq<Path>): nat
    requires AllBelow(t, ps)
  {
    if ps == [] then 0
    else NamedOn(lang, t, ps[..|ps| - 1]) + if IsNamedAt(lang, t, ps[|ps| - 1]) then 1 else 0
  }

  lemma {:induction false} NamedOnBoth(lang: Language, t: Subtree, ps: seq<Path>, qs: seq<Path>)
    requires AllBelow(t, ps) && AllBelow(t, qs)
    ensures AllBelow(t, ps + qs)
    ensures NamedOn(lang, t, ps + qs) == NamedOn(lang, t, ps) + NamedOn(lang, t, qs)
    decreases |qs|
  {
    if qs == [] {
      assert ps + qs == ps;
    } else {
      var front := qs[..|qs| - 1];
      NamedOnBoth(lang, t, ps, front);
      assert (ps + qs)[..|ps + qs| - 1] == ps + front;
    }
  }

  lemma {:induction false} NamedOnPrepended(lang: Language, t: Subtree, i: nat, ps: seq<Path>)
    requires i < |t.children| && AllBelow(t.children[i], ps)
    ensures AllBelow(t, Prepend(i, ps))
    ensures NamedOn(lang, t, Prepend(i, ps)) == NamedOn(lang, t.children[i], ps)
    decreases |ps|
  {
    forall k | 0 <= k < |ps|
      ensures ValidPath(t, Prepend(i, ps)[k])
    {
      assert Prepend(i, ps)[k][1..] == ps[k];
    }
    if ps == [] {
    } else {
      var (n, front) := (|ps| - 1, ps[..|ps| - 1]);
      NamedOnPrepended(lang, t, i, front);
      assert Prepend(i, ps)[..n] == Prepend(i, front) && Prepend(i, ps)[n][1..] == ps[n];
    }
  }

  lemma PathsStart(lang: Language, t: Subtree, i: nat)
    requires i <= |t.children|
    ensures AllBelow(t, PathsFrom(lang, t, i))
  {
    forall k | 0 <= k < |PathsFrom(lang, t, i)| {
      PathsFromStart(lang, t, i, k);
    }
  }

  /** The named children that the first k children stand for, by the stored counts. */
  function NamedBefore(lang: Language, t: Subtree, k: nat): nat
    requires k <= |t.children|
  {
    if k == 0 then 0
    else
      NamedBefore(lang, t, k - 1)
      + (if !IsVisibleChild(lang, t, k - 1) then t.children[k - 1].NamedChildCount()
         else if IsNamedAt(lang, t, [k - 1]) then 1 else 0)
  }

  lemma {:induction false} ProductNamed(lang: Language, t: Subtree, k: nat)
    requires 0 < k <= |t.children|
    ensures Product(lang, t, k).named == NamedBefore(lang, t, k)
    decreases k
  {
    if k == 1 {
      assert Product(lang, t, 0) == Nothing && NamedBefore(lang, t, 0) == 0;
    } else {
      ProductNamed(lang, t, k - 1);
    }
  }

  /** Every node's stored named child count is the sum over its children. */
  predicate NamedRight(lang: Language, t: Subtree) {
    && t.NamedChildCount() == NamedBefore(lang, t, |t.children|)
    && forall i | 0 <= i < |t.children| :: NamedRight(lang, t.children[i])
  }

  lemma {:induction false} SummariesCountNamed(lang: Language, t: Subtree)
    requires WellSummarized(lang, t)
    ensures NamedRight(lang, t)
    decreases t
  {
    if |t.children| == 0 {
    } else {
      ProductNamed(lang, t, |t.children|);
      forall i | 0 <= i < |t.children| {
        SummariesCountNamed(lang, t.children[i]);
      }
    }
  }

  lemma {:induction false} NamedFrom(lang: Language, t: Subtree, i: nat)
    requires NamedRight(lang, t) && i <= |t.children|
    ensures AllBelow(t, PathsFrom(lang, t, i))
    ensures NamedBefore(lang, t, i) + NamedOn(lang, t, PathsFrom(lang, t, i)) == NamedBefore(lang, t, |t.children|)
    decreases t, 0, |t.children| - i
  {
    PathsStart(lang, t, i);
    if i < |t.children| {
      var next := i + 1;
      NamedFrom(lang, t, next);
      NamedThrough(lang, t, i, next);
      NamedOnBoth(lang, t, PathsThrough(lang, t, i), PathsFrom(lang, t, next));
    }
  }

  lemma {:induction false} NamedThrough(lang: Language, t: Subtree, i: nat, next: nat)
    requires NamedRight(lang, t) && next == i + 1 <= |t.children|
    ensures AllBelow(t, PathsThrough(lang, t, i))
    ensures NamedBefore(lang, t, next) == NamedBefore(lang, t, i) + NamedOn(lang, t, PathsThrough(lang, t, i))
    decreases t, 0, 0
  {
    NamedStep(lang, t, i, next);
    if IsVisibleChild(lang, t, i) {
      NamedOnOne(lang, t, [i]);
    } else {
      NamedChildrenMean(lang, t.children[i]);
      NamedOnPrepended(lang, t, i, VisibleChildren(lang, t.children[i]));
    }
  }

  lemma NamedStep(lang: Language, t: Subtree, i: nat, next: nat)
    requires next == i + 1 <= |t.children|
    ensures NamedBefore(lang, t, next)
            == NamedBefore(lang, t, i)
               + (if !IsVisibleChild(lang, t, i) then t.children[i].NamedChildCount()
                  else if IsNamedAt(lang, t, [i]) then 1 else 0)
  {
  }

  lemma NamedOnOne(lang: Language, t: Subtree, p: Path)
    requires p != [] && ValidPath(t, p)
    ensures AllBelow(t, [p]) && NamedOn(lang, t, [p]) == if IsNamedAt(lang, t, p) then 1 else 0
  {
    assert [p][..0] == [] && NamedOn(lang, t, [p][..0]) == 0;
  }

  /** The stored named child count is the number of visible children that are named. */
  lemma {:induction false} NamedChildrenMean(lang: Language, t: Subtree)
    requires NamedRight(lang, t)
    ensures AllBelow(t, VisibleChildren(lang, t))
    ensures t.NamedChildCount() == NamedOn(lang, t, VisibleChildren(lang, t))
    decreases t, 1
  {
    NamedFrom(lang, t, 0);
  }

  // ----- First leaf -----

  lemma {:induction false} FirstOfLeaves(cs: seq<Subtree>)
    requires |cs| > 0
    ensures |Leaves(cs[0])| > 0 && LeavesOf(cs) != [] && LeavesOf(cs)[0] == Leaves(cs[0])[0]
    decreases |cs|, 0
  {
    LeavesExist(cs[0]);
    if |cs| == 1 {
      assert cs[..0] == [] && LeavesOf(cs) == LeavesOf([]) + Leaves(cs[0]);
    } else {
      FirstOfLeaves(cs[..|cs| - 1]);
    }
  }

  lemma {:induction false} LeavesExist(t: Subtree)
    ensures Leaves(t) != []
    decreases t
  {
    if |t.children| == 0 {
    } else {
      var last := |t.children| - 1;
      LeavesExist(t.children[last]);
      assert LeavesOf(t.children) == LeavesOf(t.children[..last]) + Leaves(t.children[last]);
    }
  }

  /** The stored first leaf is the first leaf. */
  lemma {:induction false} FirstLeafMeans(lang: Language, t: Subtree)
    requires WellSummarized(lang, t)
    ensures Leaves(t) != []
    ensures t.LeafSymbol() == Leaves(t)[0].head.symbol && t.LeafState() == Leaves(t)[0].head.parseState
    decreases t
  {
    if |t.children| == 0 {
    } else {
      FirstLeafMeans(lang, t.children[0]);
      FirstOfLeaves(t.children);
    }
  }
}
