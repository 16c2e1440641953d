/** Syntax trees and the summaries every interior node keeps of its children (subtree.h, subtree.c).

    Inline and heap-allocated subtrees are one datatype.  A node's own fields sit beside `sum`, the
    fields that summarizing recomputes from the children; a leaf's `sum` holds what the lexer gave it. */
module Subtrees {
  import opened Lengths

  type Symbol = nat

  const SYM_ERROR: Symbol := 0xFFFF
  const SYM_ERROR_REPEAT: Symbol := 0xFFFE

  const COST_PER_RECOVERY := 500
  const COST_PER_MISSING_TREE := 110
  const COST_PER_SKIPPED_TREE := 100
  const COST_PER_SKIPPED_LINE := 30
  const COST_PER_SKIPPED_CHAR := 1

  /** The alias table and the symbol metadata of a grammar. */
  datatype Language = Language(aliases: (nat, nat) -> Symbol, isNamed: Symbol -> bool)

  /** The alias of a structural child, 0 for none; production 0 has no aliases. */
  function AliasAt(lang: Language, productionId: nat, structuralIndex: nat): Symbol {
    if productionId == 0 then 0 else lang.aliases(productionId, structuralIndex)
  }

  datatype Summary = Summary(
    padding: Length,
    size: Length,
    lookaheadBytes: nat,
    errorCost: nat,
    visibleChildCount: nat,
    namedChildCount: nat,
    visibleDescendantCount: nat,
    hasExternalTokens: bool,
    firstLeafSymbol: Symbol,
    firstLeafState: nat)

  /** The fields of a node that neither editing nor summarizing changes. */
  datatype Head = Head(
    symbol: Symbol,
    productionId: nat,
    parseState: nat,
    refCount: nat,
    visible: bool,
    named: bool,
    extra: bool,
    missing: bool,
    dependsOnColumn: bool)

  datatype Subtree = Subtree(head: Head, hasChanges: bool, repeatDepth: nat, sum: Summary, children: seq<Subtree>)
  {
    function TotalSize(): Length {
      LengthAdd(sum.padding, sum.size)
    }

    function TotalBytes(): nat {
      sum.padding.bytes + sum.size.bytes
    }

    function ErrorCost(): nat {
      if head.missing then COST_PER_MISSING_TREE + COST_PER_RECOVERY else sum.errorCost
    }

    function VisibleChildCount(): nat {
      if |children| == 0 then 0 else sum.visibleChildCount
    }

    function NamedChildCount(): nat {
      if |children| == 0 then 0 else sum.namedChildCount
    }

    function VisibleDescendantCount(): nat {
      if |children| == 0 then 0 else sum.visibleDescendantCount
    }

    function LeafSymbol(): Symbol {
      if |children| == 0 then head.symbol else sum.firstLeafSymbol
    }

    function LeafState(): nat {
      if |children| == 0 then head.parseState else sum.firstLeafState
    }

    predicate IsErrorSymbol() {
      head.symbol == SYM_ERROR || head.symbol == SYM_ERROR_REPEAT
    }
  }

  /** The extent of the first k children. */
  function Prefix(cs: seq<Subtree>, k: nat): (r: Length)
    requires k <= |cs|
    ensures r.bytes >= 0
  {
    if k == 0 then LENGTH_ZERO else LengthAdd(Prefix(cs, k - 1), cs[k - 1].TotalSize())
  }

  function Left(cs: seq<Subtree>, k: nat): nat
    requires k <= |cs|
  {
    Prefix(cs, k).bytes
  }

  lemma LeftMonotonic(cs: seq<Subtree>, i: nat, j: nat)
    requires i <= j <= |cs|
    ensures Left(cs, i) <= Left(cs, j)
  {
    if i >= j {
    } else {
      LeftMonotonic(cs, i, j - 1);
    }
  }

  /** The byte layout of a tree: an interior node starts where its first child starts and spans
      exactly its children. */
  predicate Layout(t: Subtree) {
    && (|t.children| > 0 ==>
          && t.sum.padding.bytes == t.children[0].sum.padding.bytes
          && t.TotalBytes() == Left(t.children, |t.children|))
    && forall i | 0 <= i < |t.children| :: Layout(t.children[i])
  }

  // ----- Paths stand for the pointers into a tree that the C code keeps -----

  type Path = seq<nat>

  predicate ValidPath(t: Subtree, p: Path)
    decreases p
  {
    p != [] ==> p[0] < |t.children| && ValidPath(t.children[p[0]], p[1..])
  }

  function At(t: Subtree, p: Path): Subtree
    requires ValidPath(t, p)
    decreases p
  {
    if p == [] then t else At(t.children[p[0]], p[1..])
  }

  /** The tree with the subtree at p overwritten. */
  function Put(t: Subtree, p: Path, n: Subtree): Subtree
    requires ValidPath(t, p)
    decreases p
  {
    if p == [] then n
    else t.(children := t.children[p[0] := Put(t.children[p[0]], p[1..], n)])
  }

  lemma {:induction false} ValidSnoc(t: Subtree, p: Path, i: nat)
    ensures ValidPath(t, p + [i]) <==> ValidPath(t, p) && i < |At(t, p).children|
    ensures ValidPath(t, p + [i]) ==> At(t, p + [i]) == At(t, p).children[i]
    decreases p
  {
    if p == [] {
      assert (p + [i])[1..] == [];
    } else {
      assert (p + [i])[1..] == p[1..] + [i];
      if p[0] < |t.children| {
        ValidSnoc(t.children[p[0]], p[1..], i);
      }
    }
  }

  function Front(p: Path): Path
    requires p != []
  {
    p[..|p| - 1]
  }

  function Back(p: Path): nat
    requires p != []
  {
    p[|p| - 1]
  }

  lemma ValidFront(t: Subtree, p: Path)
    requires p != [] && ValidPath(t, p)
    ensures ValidPath(t, Front(p)) && Back(p) < |At(t, Front(p)).children|
    ensures At(t, p) == At(t, Front(p)).children[Back(p)]
  {
    ValidSnoc(t, Front(p), Back(p));
    assert Front(p) + [Back(p)] == p;
  }

  /** The left edge, before its padding, of the node at p. */
  function LeftEdge(t: Subtree, p: Path): nat
    requires ValidPath(t, p)
    decreases p
  {
    if p == [] then 0 else Left(t.children, p[0]) + LeftEdge(t.children[p[0]], p[1..])
  }

  /** Where child i starts when its parent starts at the given position: a child iterator adds the
      previous child's size and the next child's padding, and gives the first child its parent's start. */
  function ChildStart(cs: seq<Subtree>, i: nat, start: Length): Length
    requires i < |cs|
  {
    if i == 0 then start
    else LengthAdd(LengthAdd(ChildStart(cs, i - 1, start), cs[i - 1].sum.size), cs[i].sum.padding)
  }

  /** Where a walk down from a node that starts at `start` finds the node at p. */
  function WalkStart(t: Subtree, start: Length, p: Path): Length
    requires ValidPath(t, p)
    decreases p
  {
    if p == [] then start else WalkStart(t.children[p[0]], ChildStart(t.children, p[0], start), p[1..])
  }

  lemma {:induction false} ChildStartAtEdge(t: Subtree, i: nat, start: Length)
    requires i < |t.children| && Layout(t)
    ensures ChildStart(t.children, i, start).bytes + t.sum.padding.bytes
            == start.bytes + Left(t.children, i) + t.children[i].sum.padding.bytes
  {
    if i == 0 {
    } else {
      ChildStartAtEdge(t, i - 1, start);
    }
  }

  /** Walking down finds every node at its left edge plus its padding. */
  lemma {:induction false} WalkFindsEdge(t: Subtree, start: Length, p: Path)
    requires ValidPath(t, p) && Layout(t)
    ensures WalkStart(t, start, p).bytes + t.sum.padding.bytes
            == start.bytes + LeftEdge(t, p) + At(t, p).sum.padding.bytes
    decreases p
  {
    if p == [] {
    } else {
      ChildStartAtEdge(t, p[0], start);
      WalkFindsEdge(t.children[p[0]], ChildStart(t.children, p[0], start), p[1..]);
    }
  }

  /** A node lies inside the node above it. */
  lemma {:induction false} EdgeWithin(t: Subtree, p: Path)
    requires ValidPath(t, p) && Layout(t)
    ensures LeftEdge(t, p) + At(t, p).TotalBytes() <= t.TotalBytes()
    decreases p
  {
    if p == [] {
    } else {
      EdgeWithin(t.children[p[0]], p[1..]);
      LeftMonotonic(t.children, p[0] + 1, |t.children|);
    }
  }

  /** A node looks ahead at least as far as its children do. */
  predicate LooksAhead(t: Subtree) {
    forall i | 0 <= i < |t.children| ::
      && Left(t.children, i + 1) + t.children[i].sum.lookaheadBytes <= t.TotalBytes() + t.sum.lookaheadBytes
      && LooksAhead(t.children[i])
  }

  /** How far the node at p looks ahead, from the left edge of t. */
  function ReachedBy(t: Subtree, p: Path): nat
    requires ValidPath(t, p)
  {
    LeftEdge(t, p) + At(t, p).TotalBytes() + At(t, p).sum.lookaheadBytes
  }

  lemma {:induction false} ReachWithin(t: Subtree, p: Path)
    requires ValidPath(t, p) && LooksAhead(t)
    ensures ReachedBy(t, p) <= t.TotalBytes() + t.sum.lookaheadBytes
    decreases p
  {
    if p == [] {
    } else {
      ReachWithin(t.children[p[0]], p[1..]);
    }
  }

  // ----- Writing through paths -----

  lemma {:induction false} PutAt(t: Subtree, p: Path, n: Subtree, q: Path)
    requires ValidPath(t, p)
    ensures ValidPath(Put(t, p, n), p + q) <==> ValidPath(n, q)
    ensures ValidPath(n, q) ==> At(Put(t, p, n), p + q) == At(n, q)
    decreases p
  {
    if p == [] {
      assert p + q == q;
    } else {
      assert (p + q)[1..] == p[1..] + q;
      PutAt(t.children[p[0]], p[1..], n, q);
    }
  }

  lemma {:induction false} PutPut(t: Subtree, p: Path, n: Subtree, q: Path, m: Subtree)
    requires ValidPath(t, p) && ValidPath(n, q)
    ensures ValidPath(Put(t, p, n), p + q)
    ensures Put(Put(t, p, n), p + q, m) == Put(t, p, Put(n, q, m))
    decreases p
  {
    PutAt(t, p, n, q);
    if p == [] {
      assert p + q == q;
    } else {
      assert (p + q)[1..] == p[1..] + q;
      PutPut(t.children[p[0]], p[1..], n, q, m);
    }
  }

  lemma {:induction false} PutSame(t: Subtree, p: Path)
    requires ValidPath(t, p)
    ensures Put(t, p, At(t, p)) == t
    decreases p
  {
    if p == [] {
    } else {
      PutSame(t.children[p[0]], p[1..]);
    }
  }

  /** The leaves from left to right. */
  function Leaves(t: Subtree): seq<Subtree> {
    if |t.children| == 0 then [t] else LeavesOf(t.children)
  }

  function LeavesOf(cs: seq<Subtree>): seq<Subtree> {
    if cs == [] then [] else LeavesOf(cs[..|cs| - 1]) + Leaves(cs[|cs| - 1])
  }

  lemma {:induction false} LeavesConcat(a: seq<Subtree>, b: seq<Subtree>)
    ensures LeavesOf(a + b) == LeavesOf(a) + LeavesOf(b)
  {
    if b == [] {
      assert a + b == a;
    } else {
      LeavesConcat(a, b[..|b| - 1]);
      assert (a + b)[..|a + b| - 1] == a + b[..|b| - 1];
    }
  }

  function NodeCount(t: Subtree): (n: nat)
    ensures n > 0
  {
    1 + NodeCounts(t.children)
  }

  function NodeCounts(cs: seq<Subtree>): nat {
    if cs == [] then 0 else NodeCounts(cs[..|cs| - 1]) + NodeCount(cs[|cs| - 1])
  }
}
