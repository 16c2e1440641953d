/** The tree that users see: hidden nodes are replaced by their children (tree_cursor.c, node.c). */
module VisibleTrees {
  import opened Options
  import opened Subtrees
  import opened Summaries

  /** Child i is visible, by itself or through an alias of its parent's production. */
  predicate IsVisibleChild(lang: Language, t: Subtree, i: nat)
    requires i < |t.children|
  {
    t.children[i].head.visible || IsAliased(lang, t, StructuralIndex(t.children, i), t.children[i])
  }

  function Prepend(i: nat, ps: seq<Path>): (r: seq<Path>)
    ensures |r| == |ps| && forall k | 0 <= k < |ps| :: r[k] == [i] + ps[k]
  {
    seq(|ps|, k requires 0 <= k < |ps| => [i] + ps[k])
  }

  /** The visible nodes that child i stands for: itself, or its own visible children. */
  function PathsThrough(lang: Language, t: Subtree, i: nat): seq<Path>
    requires i < |t.children|
    decreases t, 0
  {
    if IsVisibleChild(lang, t, i) then [[i]] else Prepend(i, PathsFrom(lang, t.children[i], 0))
  }

  /** The paths to the visible children found in the children from i on. */
  function PathsFrom(lang: Language, t: Subtree, i: nat): seq<Path>
    requires i <= |t.children|
    decreases t, 1, |t.children| - i
  {
    if i == |t.children| then [] else PathsThrough(lang, t, i) + PathsFrom(lang, t, i + 1)
  }

  /** The paths to a node's visible children, in order. */
  function VisibleChildren(lang: Language, t: Subtree): seq<Path> {
    PathsFrom(lang, t, 0)
  }

  /** The visible nodes that child i and everything below it contribute, in pre-order. */
  function DescendantsThrough(lang: Language, t: Subtree, i: nat): seq<Path>
    requires i < |t.children|
    decreases t, 0
  {
    (if IsVisibleChild(lang, t, i) then [[i]] else [])
    + Prepend(i, DescendantsUpTo(lang, t.children[i], |t.children[i].children|))
  }

  /** The paths to the visible nodes in and below the first k children, in pre-order. */
  function DescendantsUpTo(lang: Language, t: Subtree, k: nat): seq<Path>
    requires k <= |t.children|
    decreases t, 1, k
  {
    if k == 0 then [] else DescendantsUpTo(lang, t, k - 1) + DescendantsThrough(lang, t, k - 1)
  }

  /** The paths to all visible nodes below, in pre-order. */
  function VisibleDescendants(lang: Language, t: Subtree): seq<Path> {
    DescendantsUpTo(lang, t, |t.children|)
  }

  // ----- The stored counts are the sizes of these lists -----

  /** Visible nodes below the first i children, by the stored counts. */
  function DescendantsBefore(lang: Language, t: Subtree, i: nat): nat
    requires i <= |t.children|
  {
    if i == 0 then 0
    else
      DescendantsBefore(lang, t, i - 1) + t.children[i - 1].VisibleDescendantCount()
      + (if IsVisibleChild(lang, t, i - 1) then 1 else 0)
  }

  /** Visible nodes that the first i children stand for, by the stored counts. */
  function VisibleBefore(lang: Language, t: Subtree, i: nat): nat
    requires i <= |t.children|
  {
    if i == 0 then 0
    else
      VisibleBefore(lang, t, i - 1)
      + (if IsVisibleChild(lang, t, i - 1) then 1 else t.children[i - 1].VisibleChildCount())
  }

  lemma {:induction false} ProductCounts(lang: Language, t: Subtree, k: nat)
    requires 0 < k <= |t.children|
    ensures Product(lang, t, k).visible == VisibleBefore(lang, t, k)
    ensures Product(lang, t, k).descendants == DescendantsBefore(lang, t, k)
  {
    if k > 1 {
      ProductCounts(lang, t, k - 1);
    } else {
      assert Product(lang, t, 0) == Nothing;
      assert VisibleBefore(lang, t, 0) == 0 && DescendantsBefore(lang, t, 0) == 0;
    }
  }

  /** Every node's stored counts are the sums over its children. */
  predicate CountsRight(lang: Language, t: Subtree) {
    && t.VisibleChildCount() == VisibleBefore(lang, t, |t.children|)
    && t.VisibleDescendantCount() == DescendantsBefore(lang, t, |t.children|)
    && forall i | 0 <= i < |t.children| :: CountsRight(lang, t.children[i])
  }

  lemma {:induction false} SummariesCount(lang: Language, t: Subtree)
    requires WellSummarized(lang, t)
    ensures CountsRight(lang, t)
    decreases t
  {
    if |t.children| == 0 {
    } else {
      ProductCounts(lang, t, |t.children|);
      forall i | 0 <= i < |t.children| {
        SummariesCount(lang, t.children[i]);
      }
    }
  }

  /** A node's stored visible child count and visible descendant count are the numbers of its visible children
      and visible descendants. */
  lemma {:induction false} CountsAreSizes(lang: Language, t: Subtree)
    requires CountsRight(lang, t)
    ensures t.VisibleChildCount() == |VisibleChildren(lang, t)|
    ensures t.VisibleDescendantCount() == |VisibleDescendants(lang, t)|
    decreases t, 1
  {
    SizesFrom(lang, t, 0);
    SizesUpTo(lang, t, |t.children|);
  }

  lemma {:induction false} SizesFrom(lang: Language, t: Subtree, i: nat)
    requires CountsRight(lang, t) && i <= |t.children|
    ensures VisibleBefore(lang, t, i) + |PathsFrom(lang, t, i)| == VisibleBefore(lang, t, |t.children|)
    decreases t, 0, |t.children| - i
  {
    if i >= |t.children| {
    } else {
      CountsAreSizes(lang, t.children[i]);
      SizesFrom(lang, t, i + 1);
    }
  }

  lemma {:induction false} SizesUpTo(lang: Language, t: Subtree, k: nat)
    requires CountsRight(lang, t) && k <= |t.children|
    ensures |DescendantsUpTo(lang, t, k)| == DescendantsBefore(lang, t, k)
    decreases t, 0, k
  {
    if k == 0 {
    } else {
      SizesUpTo(lang, t, k - 1);
      CountsAreSizes(lang, t.children[k - 1]);
    }
  }

  // ----- Next siblings -----

  function FirstOf(ps: seq<Path>): Option<Path> {
    if ps == [] then None else Some(ps[0])
  }

  /** The visible sibling after q, looked for level by level. */
  function NextPath(lang: Language, t: Subtree, q: Path): Option<Path>
    requires ValidPath(t, q) && q != []
    decreases q
  {
    var beside := FirstOf(PathsFrom(lang, t, q[0] + 1));
    if |q| == 1 then beside
    else
      match NextPath(lang, t.children[q[0]], q[1..])
      case Some(r) => Some([q[0]] + r)
      case None => beside
  }

  lemma {:induction false} PathsFromStart(lang: Language, t: Subtree, i: nat, k: nat)
    requires i <= |t.children| && k < |PathsFrom(lang, t, i)|
    ensures var p := PathsFrom(lang, t, i)[k]; p != [] && i <= p[0] && ValidPath(t, p)
    decreases t, |t.children| - i
  {
    var own := PathsThrough(lang, t, i);
    if k < |own| {
      if !IsVisibleChild(lang, t, i) {
        PathsFromStart(lang, t.children[i], 0, k);
        assert own[k][1..] == PathsFrom(lang, t.children[i], 0)[k];
      }
    } else {
      PathsFromStart(lang, t, i + 1, k - |own|);
    }
  }

  /** Looking level by level finds the next visible child in the list. */
  lemma {:induction false} NextIsSuccessor(lang: Language, t: Subtree, i: nat, k: nat)
    requires i <= |t.children| && k < |PathsFrom(lang, t, i)|
    ensures var ps := PathsFrom(lang, t, i);
            && ps[k] != [] && ValidPath(t, ps[k])
            && NextPath(lang, t, ps[k]) == if k + 1 < |ps| then Some(ps[k + 1]) else None
    decreases t, |t.children| - i
  {
    PathsFromStart(lang, t, i, k);
    var (own, rest) := (PathsThrough(lang, t, i), PathsFrom(lang, t, i + 1));
    if k >= |own| {
      NextIsSuccessor(lang, t, i + 1, k - |own|);
    } else if !IsVisibleChild(lang, t, i) {
      var inner := PathsFrom(lang, t.children[i], 0);
      NextIsSuccessor(lang, t.children[i], 0, k);
      assert own[k][1..] == inner[k];
    }
  }

  // ----- Pre-order numbers -----

  /** The number of visible nodes below t that come before the one at p. */
  function PreorderNumber(lang: Language, t: Subtree, p: Path): nat
    requires ValidPath(t, p)
    decreases p
  {
    if p == [] then 0
    else
      DescendantsBefore(lang, t, p[0])
      + (if |p| > 1 && IsVisibleChild(lang, t, p[0]) then 1 else 0)
      + PreorderNumber(lang, t.children[p[0]], p[1..])
  }

  /** Is the node at p visible?  A cursor's root always counts as visible. */
  predicate IsVisibleAt(lang: Language, t: Subtree, p: Path)
    requires ValidPath(t, p)
    decreases p
  {
    if p == [] then true
    else if |p| == 1 then IsVisibleChild(lang, t, p[0])
    else IsVisibleAt(lang, t.children[p[0]], p[1..])
  }

  lemma {:induction false} DescendantsAt(lang: Language, t: Subtree, i: nat, k: nat, n: nat, upTo: nat)
    requires CountsRight(lang, t) && i < upTo <= |t.children| && k < |DescendantsThrough(lang, t, i)|
    requires n == DescendantsBefore(lang, t, i) + k
    ensures n < |DescendantsUpTo(lang, t, upTo)|
    ensures DescendantsUpTo(lang, t, upTo)[n] == DescendantsThrough(lang, t, i)[k]
    decreases upTo
  {
    var last := upTo - 1;
    if i < last {
      DescendantsAt(lang, t, i, k, n, last);
    } else {
      SizesUpTo(lang, t, i);
    }
  }

  /** The pre-order list holds each visible node at its number. */
  lemma {:induction false} NumberFindsNode(lang: Language, t: Subtree, p: Path)
    requires CountsRight(lang, t) && ValidPath(t, p) && p != [] && IsVisibleAt(lang, t, p)
    ensures PreorderNumber(lang, t, p) < |VisibleDescendants(lang, t)|
    ensures VisibleDescendants(lang, t)[PreorderNumber(lang, t, p)] == p
    decreases p
  {
    var (i, n) := (p[0], PreorderNumber(lang, t, p));
    var c := t.children[i];
    var own := if IsVisibleChild(lang, t, i) then 1 else 0;
    if |p| == 1 {
      assert p == [i] && PreorderNumber(lang, c, p[1..]) == 0;
      DescendantsAt(lang, t, i, 0, n, |t.children|);
    } else {
      var k := PreorderNumber(lang, c, p[1..]);
      NumberFindsNode(lang, c, p[1..]);
      assert Prepend(i, VisibleDescendants(lang, c))[k] == [i] + p[1..] == p;
      DescendantsAt(lang, t, i, own + k, n, |t.children|);
    }
  }

  /** Every entry of the pre-order list is a visible node whose number is its place: no node occurs twice, and the
      node itself does not occur. */
  lemma {:induction false} NodeHasNumber(lang: Language, t: Subtree, k: nat, n: nat)
    requires CountsRight(lang, t) && k <= |t.children| && n < |DescendantsUpTo(lang, t, k)|
    ensures var p := DescendantsUpTo(lang, t, k)[n];
            p != [] && ValidPath(t, p) && IsVisibleAt(lang, t, p) && PreorderNumber(lang, t, p) == n
    decreases t, k
  {
    var i := k - 1;
    SizesUpTo(lang, t, i);
    if n < |DescendantsUpTo(lang, t, i)| {
      NodeHasNumber(lang, t, i, n);
    } else {
      var (c, m) := (t.children[i], n - |DescendantsUpTo(lang, t, i)|);
      var own := if IsVisibleChild(lang, t, i) then 1 else 0;
      if m < own {
        assert DescendantsUpTo(lang, t, k)[n] == [i] && PreorderNumber(lang, c, [i][1..]) == 0;
      } else {
        NodeHasNumber(lang, c, |c.children|, m - own);
        var below := VisibleDescendants(lang, c)[m - own];
        assert DescendantsUpTo(lang, t, k)[n] == [i] + below && ([i] + below)[1..] == below;
      }
    }
  }
}
