/** Balancing a tree whose nodes are shared with other trees (ts_subtree_balance on the memory of RefCounts): nodes are
    rotated and summarized in place, but none that another tree can see. */
module SharedBalancing {
  import opened Subtrees
  import opened Summaries
  import opened Worklists
  import opened Rotations
  import opened RotationMeaning
  import opened Balancing
  import opened RefCounts
  import opened SharedTrees
  import opened SharedEdits

  // ----- Nodes with their counts -----

  /** A cell with its count among its fields: balancing looks at the counts of the nodes. */
  function ShownCell(c: Cell): Cell {
    if c.Live? then c.(fields := c.fields.(head := c.fields.head.(refCount := c.refCount))) else c
  }

  function Shown(cells: seq<Cell>): (r: seq<Cell>)
    ensures |r| == |cells|
  {
    seq(|cells|, x requires 0 <= x < |cells| => ShownCell(cells[x]))
  }

  lemma ShownCount(cells: seq<Cell>, handles: multiset<nat>, x: nat)
    requires x < |cells| && CountMatches(cells, handles, x)
    ensures CountMatches(Shown(cells), handles, x)
  {
    SameChildrenSameParents(cells, Shown(cells), x);
  }

  lemma ShownRefs(cells: seq<Cell>, rank: seq<nat>, p: nat)
    requires |rank| == |cells| && p < |cells|
    requires AllLive(cells, ChildrenOf(cells[p])) && RanksBelow(ChildrenOf(cells[p]), rank, rank[p])
    ensures var r := Shown(cells); AllLive(r, ChildrenOf(r[p])) && RanksBelow(ChildrenOf(r[p]), rank, rank[p])
  {
    var r := Shown(cells);
    assert ChildrenOf(r[p]) == ChildrenOf(cells[p]);
    forall i | 0 <= i < |ChildrenOf(r[p])| && ChildrenOf(r[p])[i].Ptr?
      ensures IsLive(r, ChildrenOf(r[p])[i].address)
    {
      assert IsLive(cells, ChildrenOf(cells[p])[i].address);
    }
  }

  lemma ShownConsistent(cells: seq<Cell>, handles: multiset<nat>, rank: seq<nat>)
    requires IsConsistent(cells, handles, rank)
    ensures IsConsistent(Shown(cells), handles, rank)
  {
    var r := Shown(cells);
    assert NothingDangles(r, handles) && IsRanked(r, rank) by {
      forall p | 0 <= p < |r|
        ensures AllLive(r, ChildrenOf(r[p])) && RanksBelow(ChildrenOf(r[p]), rank, rank[p])
      {
        ShownRefs(cells, rank, p);
      }
    }
    assert CountsMatch(r, handles) by {
      forall p | 0 <= p < |r|
        ensures CountMatches(r, handles, p)
      {
        ShownCount(cells, handles, p);
      }
    }
  }

  /** Balancing changes no count and nothing in a node's head. */
  predicate HeadsKept(before: seq<Cell>, after: seq<Cell>) {
    && |before| == |after|
    && forall x | 0 <= x < |before| ::
         && before[x].Live? == after[x].Live?
         && (before[x].Live? ==>
               before[x].fields.head == after[x].fields.head && before[x].refCount == after[x].refCount)
  }

  lemma {:induction false} PathShown(cells: seq<Cell>, handles: multiset<nat>, path: seq<nat>)
    requires IsPath(cells, handles, path)
    ensures IsPath(Shown(cells), handles, path)
    decreases |path|
  {
    if |path| == 1 {
    } else {
      PathShown(cells, handles, path[..|path| - 1]);
    }
  }

  /** What other handles lead to is as it was, with the counts that the nodes have. */
  ghost predicate Untouched(before: seq<Cell>, after: seq<Cell>, others: multiset<nat>) {
    HeadsKept(before, after) && IsKept(Shown(before), Shown(after), others)
  }

  lemma UntouchedIsKept(before: seq<Cell>, after: seq<Cell>, others: multiset<nat>)
    requires Untouched(before, after, others)
    ensures IsKept(before, after, others)
  {
    forall path | IsPath(before, others, path)
      ensures IsUnchanged(before, after, path[|path| - 1])
    {
      PathShown(before, others, path);
      var x := path[|path| - 1];
      assert IsUnchanged(Shown(before), Shown(after), x);
      assert SameNode(Shown(before)[x], Shown(after)[x]);
    }
  }

  lemma UntouchedTwice(a: seq<Cell>, b: seq<Cell>, c: seq<Cell>, others: multiset<nat>)
    requires Untouched(a, b, others) && Untouched(b, c, others)
    ensures Untouched(a, c, others)
  {
    KeptTwice(Shown(a), Shown(b), Shown(c), others);
  }

  // ----- A rotation in memory -----

  /** A node, its first child and that one's first child, with at least two children each. */
  predicate IsLeftmost(cells: seq<Cell>, a: nat, c: nat, g: nat) {
    && HasSlot(cells, a, 0, Ptr(c)) && HasSlot(cells, c, 0, Ptr(g)) && IsLive(cells, g)
    && |cells[a].children| >= 2 && |cells[c].children| >= 2 && |cells[g].children| >= 2
    && a != c && c != g && a != g
  }

  /** The three assignments of a rotation. */
  function RotatedCells(cells: seq<Cell>, a: nat, c: nat, g: nat): (r: seq<Cell>)
    requires IsLeftmost(cells, a, c, g)
    ensures |r| == |cells| && forall x | 0 <= x < |cells| && x !in [a, c, g] :: r[x] == cells[x]
    ensures r[a] == cells[a].(children := cells[a].children[0 := Ptr(g)])
    ensures var kids := cells[g].children;
            && r[c] == cells[c].(children := cells[c].children[0 := kids[|kids| - 1]])
            && r[g] == cells[g].(children := kids[|kids| - 1 := Ptr(c)])
  {
    var last := |cells[g].children| - 1;
    var one := WithSlot(cells, a, 0, Ptr(g));
    var two := WithSlot(one, c, 0, cells[g].children[last]);
    WithSlot(two, g, last, Ptr(c))
  }

  /** Writing three references that were in the three slots, in another order. */
  lemma ThreeSlots(cells: seq<Cell>, a: nat, c: nat, g: nat, last: nat, one: seq<Cell>, two: seq<Cell>, x: nat)
    requires IsLeftmost(cells, a, c, g) && last == |cells[g].children| - 1
    requires one == WithSlot(cells, a, 0, Ptr(g)) && two == WithSlot(one, c, 0, cells[g].children[last])
    ensures IsLive(two, g) && last < |two[g].children|
    ensures Parents(WithSlot(two, g, last, Ptr(c)), x) == Parents(cells, x)
  {
    assert one[c] == cells[c] && two[g] == cells[g];
    ParentsAfterSlot(cells, a, 0, Ptr(g), x);
    ParentsAfterSlot(one, c, 0, cells[g].children[last], x);
    ParentsAfterSlot(two, g, last, Ptr(c), x);
  }

  lemma RotatedInSteps(cells: seq<Cell>, a: nat, c: nat, g: nat, last: nat, one: seq<Cell>, two: seq<Cell>)
    requires IsLeftmost(cells, a, c, g) && last == |cells[g].children| - 1
    requires one == WithSlot(cells, a, 0, Ptr(g)) && two == WithSlot(one, c, 0, cells[g].children[last])
    ensures RotatedCells(cells, a, c, g) == WithSlot(two, g, last, Ptr(c))
  {
  }

  lemma RotatedParents(cells: seq<Cell>, a: nat, c: nat, g: nat, x: nat)
    requires IsLeftmost(cells, a, c, g)
    ensures Parents(RotatedCells(cells, a, c, g), x) == Parents(cells, x)
  {
    var last := |cells[g].children| - 1;
    var one := WithSlot(cells, a, 0, Ptr(g));
    var two := WithSlot(one, c, 0, cells[g].children[last]);
    ThreeSlots(cells, a, c, g, last, one, two, x);
    RotatedInSteps(cells, a, c, g, last, one, two);
  }

  /** An exclusive cell is in one slot only. */
  lemma OnlySlot(cells: seq<Cell>, handles: multiset<nat>, x: nat, p: nat, i: nat, q: nat, j: nat)
    requires CountsMatch(cells, handles) && IsExclusive(cells, x)
    requires HasSlot(cells, p, i, Ptr(x)) && HasSlot(cells, q, j, Ptr(x))
    ensures p == q && i == j
  {
    ExclusiveCount(cells, handles, x);
    assert IsChild(cells, p, x) && IsChild(cells, q, x);
    SoleParent(cells, p, q, x);
    ParentsCounted(cells, p, x);
    if i != j {
      SoleSlot(cells[p].children, if i < j then i else j, if i < j then j else i, x);
    }
  }

  /** The ranks after a rotation: the child just below the grandchild that adopts it. */
  function RotatedRanks(rank: seq<nat>, c: nat, g: nat): (r: seq<nat>)
    requires c < |rank|
    ensures |r| == |rank|
  {
    seq(|rank|, x requires 0 <= x < |rank| =>
      if x == c then 2 * rank[c] else if x == g then 2 * rank[c] + 1 else 2 * rank[x] + 1)
  }

  lemma ChildRank(cells: seq<Cell>, handles: multiset<nat>, rank: seq<nat>, p: nat, i: nat, x: nat)
    requires NothingDangles(cells, handles) && IsRanked(cells, rank) && HasSlot(cells, p, i, Ptr(x))
    ensures x < |rank| && rank[x] < rank[p]
  {
    assert AllLive(cells, ChildrenOf(cells[p])) && IsLive(cells, x);
    assert RanksBelow(ChildrenOf(cells[p]), rank, rank[p]);
  }

  /** Where the references after a rotation were before. */
  lemma RotatedSlot(cells: seq<Cell>, a: nat, c: nat, g: nat, p: nat, i: nat, x: nat)
    requires IsLeftmost(cells, a, c, g) && HasSlot(RotatedCells(cells, a, c, g), p, i, Ptr(x))
    ensures || (p == a && x == g)
            || (p == g && x == c)
            || (p == c && i == 0 && HasSlot(cells, g, |cells[g].children| - 1, Ptr(x)))
            || (HasSlot(cells, p, i, Ptr(x)) && !(p == c && i == 0))
  {
    if p !in [a, c, g] {
      assert RotatedCells(cells, a, c, g)[p] == cells[p];
    }
  }

  lemma RanksStillBelow(rank: seq<nat>, c: nat, g: nat, x: nat, p: nat)
    requires c < |rank| && g < |rank| && x < |rank| && p < |rank| && rank[g] < rank[c]
    ensures x != g && rank[x] < rank[p] ==> RotatedRanks(rank, c, g)[x] < RotatedRanks(rank, c, g)[p]
    ensures rank[c] < rank[p] ==> RotatedRanks(rank, c, g)[g] < RotatedRanks(rank, c, g)[p]
    ensures RotatedRanks(rank, c, g)[c] < RotatedRanks(rank, c, g)[g]
  {
  }

  lemma RotatedSlotRank(cells: seq<Cell>, handles: multiset<nat>, rank: seq<nat>, a: nat, c: nat, g: nat, p: nat,
                        i: nat, x: nat)
    requires IsConsistent(cells, handles, rank) && IsLeftmost(cells, a, c, g) && IsExclusive(cells, g)
    requires HasSlot(RotatedCells(cells, a, c, g), p, i, Ptr(x))
    ensures x < |rank| && RotatedRanks(rank, c, g)[x] < RotatedRanks(rank, c, g)[p]
  {
    ChildRank(cells, handles, rank, a, 0, c);
    ChildRank(cells, handles, rank, c, 0, g);
    RotatedSlot(cells, a, c, g, p, i, x);
    if (p == a && x == g) || (p == g && x == c) {
      RanksStillBelow(rank, c, g, x, p);
    } else if HasSlot(cells, p, i, Ptr(x)) && !(p == c && i == 0) {
      ChildRank(cells, handles, rank, p, i, x);
      if x == g {
        OnlySlot(cells, handles, g, c, 0, p, i);
      }
      RanksStillBelow(rank, c, g, x, p);
    } else {
      ChildRank(cells, handles, rank, g, |cells[g].children| - 1, x);
      RanksStillBelow(rank, c, g, x, p);
    }
  }

  lemma RotatedRefs(cells: seq<Cell>, handles: multiset<nat>, rank: seq<nat>, a: nat, c: nat, g: nat, p: nat)
    requires IsConsistent(cells, handles, rank) && IsLeftmost(cells, a, c, g) && IsExclusive(cells, g) && p < |cells|
    ensures var (after, newRank) := (RotatedCells(cells, a, c, g), RotatedRanks(rank, c, g));
            AllLive(after, ChildrenOf(after[p])) && RanksBelow(ChildrenOf(after[p]), newRank, newRank[p])
  {
    var (after, newRank) := (RotatedCells(cells, a, c, g), RotatedRanks(rank, c, g));
    var refs := ChildrenOf(after[p]);
    assert AllLive(cells, ChildrenOf(cells[p])) && AllLive(cells, ChildrenOf(cells[g]));
    forall i | 0 <= i < |refs| && refs[i].Ptr?
      ensures IsLive(after, refs[i].address) && newRank[refs[i].address] < newRank[p]
    {
      assert HasSlot(after, p, i, Ptr(refs[i].address));
      RotatedSlotRank(cells, handles, rank, a, c, g, p, i, refs[i].address);
    }
  }

  lemma RotatedCount(cells: seq<Cell>, handles: multiset<nat>, a: nat, c: nat, g: nat, x: nat)
    requires IsLeftmost(cells, a, c, g) && x < |cells| && CountMatches(cells, handles, x)
    ensures CountMatches(RotatedCells(cells, a, c, g), handles, x)
  {
    RotatedParents(cells, a, c, g, x);
  }

  lemma RotatedConsistent(cells: seq<Cell>, handles: multiset<nat>, rank: seq<nat>, a: nat, c: nat, g: nat)
    requires IsConsistent(cells, handles, rank) && IsLeftmost(cells, a, c, g) && IsExclusive(cells, g)
    ensures IsConsistent(RotatedCells(cells, a, c, g), handles, RotatedRanks(rank, c, g))
  {
    var (after, newRank) := (RotatedCells(cells, a, c, g), RotatedRanks(rank, c, g));
    assert NothingDangles(after, handles) && IsRanked(after, newRank) by {
      forall p | 0 <= p < |after|
        ensures AllLive(after, ChildrenOf(after[p])) && RanksBelow(ChildrenOf(after[p]), newRank, newRank[p])
      {
        RotatedRefs(cells, handles, rank, a, c, g, p);
      }
    }
    assert CountsMatch(after, handles) by {
      forall p | 0 <= p < |after|
        ensures CountMatches(after, handles, p)
      {
        RotatedCount(cells, handles, a, c, g, p);
      }
    }
  }

  lemma ShownRotated(cells: seq<Cell>, a: nat, c: nat, g: nat)
    requires IsLeftmost(cells, a, c, g)
    ensures IsLeftmost(Shown(cells), a, c, g)
    ensures Shown(RotatedCells(cells, a, c, g)) == RotatedCells(Shown(cells), a, c, g)
  {
    var (l, r) := (Shown(RotatedCells(cells, a, c, g)), RotatedCells(Shown(cells), a, c, g));
    forall x | 0 <= x < |cells|
      ensures l[x] == r[x]
    {
      if x !in [a, c, g] {
        assert r[x] == Shown(cells)[x];
      }
    }
  }

  /** The assignments to the three slots. */
  method RotateNodes(pool: SubtreePool, a: nat, c: nat, g: nat)
    requires pool.Valid() && IsLeftmost(pool.cells, a, c, g) && IsExclusive(pool.cells, g)
    modifies pool
    ensures pool.Valid() && pool.handles == old(pool.handles)
    ensures pool.cells == RotatedCells(old(pool.cells), a, c, g)
  {
    RotatedConsistent(pool.cells, pool.handles, pool.rank, a, c, g);
    pool.Install(RotatedCells(pool.cells, a, c, g), pool.handles, RotatedRanks(pool.rank, c, g));
  }

  // ----- What a rotation does to the tree -----

  /** Below the three nodes nothing changes. */
  lemma SubtreesHeld(before: seq<Cell>, after: seq<Cell>, handles: multiset<nat>, chain: seq<nat>, k: nat, next: nat,
                     t: Subtree)
    requires CountsMatch(before, handles) && IsChain(before, handles, chain) && AgreesOff(before, after, chain)
    requires next == k + 1 < |chain| && HasSlot(before, chain[k], 0, Ptr(chain[next]))
    requires Holds(before, Ptr(chain[k]), t)
    ensures |t.children| == |before[chain[k]].children|
    ensures Holds(before, Ptr(chain[next]), First(t))
    ensures forall j | 1 <= j < |t.children| :: Holds(after, before[chain[k]].children[j], t.children[j])
  {
    forall j | 1 <= j < |t.children|
      ensures Holds(after, before[chain[k]].children[j], t.children[j])
    {
      SiblingHeld(before, after, handles, chain, k, next, 0, j, t.children[j]);
    }
  }

  lemma LowestHeld(before: seq<Cell>, after: seq<Cell>, handles: multiset<nat>, chain: seq<nat>, t: Subtree)
    requires CountsMatch(before, handles) && IsChain(before, handles, chain) && AgreesOff(before, after, chain)
    requires Holds(before, Ptr(chain[|chain| - 1]), t)
    ensures HoldAll(after, before[chain[|chain| - 1]].children, t)
  {
    HeldBelow(before, after, handles, chain, chain, |chain|, t);
  }

  lemma FirstReplaced(cells: seq<Cell>, a: nat, refs: seq<Ref>, r: Ref, t: Subtree, x: Subtree)
    requires IsLive(cells, a) && |refs| == |t.children| > 0 && cells[a].children == refs[0 := r]
    requires cells[a].fields == FieldsOf(t) && Holds(cells, r, x)
    requires forall j | 1 <= j < |refs| :: Holds(cells, refs[j], t.children[j])
    ensures Holds(cells, Ptr(a), SetFirst(t, x))
  {
    assert HoldAll(cells, cells[a].children, SetFirst(t, x));
  }

  lemma LastReplaced(cells: seq<Cell>, a: nat, refs: seq<Ref>, r: Ref, t: Subtree, x: Subtree)
    requires IsLive(cells, a) && |refs| > 0 && cells[a].children == refs[|refs| - 1 := r]
    requires cells[a].fields == FieldsOf(t) && Holds(cells, r, x) && HoldAll(cells, refs, t)
    ensures |t.children| > 0 && Holds(cells, Ptr(a), SetLast(t, x))
  {
    assert HoldAll(cells, cells[a].children, SetLast(t, x));
  }

  lemma RotatedNodeHolds(before: seq<Cell>, handles: multiset<nat>, chain: seq<nat>, n: nat, a: nat, c: nat, g: nat,
                         t: Subtree)
    requires CountsMatch(before, handles) && IsChain(before, handles, chain)
    requires |chain| == n + 3 && chain[n] == a && chain[n + 1] == c && chain[n + 2] == g && IsLeftmost(before, a, c, g)
    requires Holds(before, Ptr(a), t)
    ensures |t.children| >= 2 && |First(t).children| >= 2 && |First(First(t)).children| >= 2
    ensures Holds(RotatedCells(before, a, c, g), Ptr(a), Rotate(t))
  {
    var after := RotatedCells(before, a, c, g);
    assert AgreesOff(before, after, chain);
    SubtreesHeld(before, after, handles, chain, n, n + 1, t);
    SubtreesHeld(before, after, handles, chain, n + 1, n + 2, First(t));
    LowestHeld(before, after, handles, chain, First(First(t)));
    RotatedAssembled(before, a, c, g, t);
  }

  /** The three nodes, put together anew from the parts that have stayed. */
  lemma RotatedAssembled(before: seq<Cell>, a: nat, c: nat, g: nat, t: Subtree)
    requires IsLeftmost(before, a, c, g) && |t.children| == |before[a].children|
    requires |First(t).children| == |before[c].children| && |First(First(t)).children| == |before[g].children|
    requires before[a].fields == FieldsOf(t) && before[c].fields == FieldsOf(First(t))
    requires before[g].fields == FieldsOf(First(First(t)))
    requires var after := RotatedCells(before, a, c, g);
             && (forall j | 1 <= j < |t.children| :: Holds(after, before[a].children[j], t.children[j]))
             && (forall j | 1 <= j < |First(t).children| :: Holds(after, before[c].children[j], First(t).children[j]))
             && HoldAll(after, before[g].children, First(First(t)))
    ensures Holds(RotatedCells(before, a, c, g), Ptr(a), Rotate(t))
  {
    var after := RotatedCells(before, a, c, g);
    var (child, grandchild) := (First(t), First(First(t)));
    var kids := before[g].children;
    assert Holds(after, kids[|kids| - 1], Last(grandchild));
    FirstReplaced(after, c, before[c].children, kids[|kids| - 1], child, Last(grandchild));
    LastReplaced(after, g, kids, Ptr(c), grandchild, SetFirst(child, Last(grandchild)));
    FirstReplaced(after, a, before[a].children, Ptr(g), t, SetLast(grandchild, SetFirst(child, Last(grandchild))));
  }

  lemma ChainToGrandchild(cells: seq<Cell>, handles: multiset<nat>, p: Path, spine: seq<nat>, a: nat, c: nat, g: nat)
    requires CountsMatch(cells, handles) && IsSpine(cells, handles, p, spine) && spine[|p|] == a
    requires IsLeftmost(cells, a, c, g) && IsExclusive(cells, c) && IsExclusive(cells, g)
    ensures IsChain(cells, handles, spine + [c, g])
  {
    SpineIsChain(cells, handles, p, spine);
    PathDown(cells, handles, spine, c);
    PathDown(cells, handles, spine + [c], g);
    assert spine + [c, g] == spine + [c] + [g];
  }

  /** A rotation at the end of a spine is one in the tree. */
  lemma RotatedHolds(before: seq<Cell>, handles: multiset<nat>, p: Path, spine: seq<nat>, a: nat, c: nat, g: nat,
                     t: Subtree)
    requires CountsMatch(before, handles) && IsSpine(before, handles, p, spine) && spine[|p|] == a
    requires IsLeftmost(before, a, c, g) && IsExclusive(before, c) && IsExclusive(before, g)
    requires Holds(before, Ptr(spine[0]), t) && ValidPath(t, p)
    ensures var m := At(t, p); |m.children| >= 2 && |First(m).children| >= 2 && |First(First(m)).children| >= 2
    ensures Holds(RotatedCells(before, a, c, g), Ptr(spine[0]), Put(t, p, Rotate(At(t, p))))
    ensures IsChain(before, handles, spine + [c, g])
    ensures AgreesOff(before, RotatedCells(before, a, c, g), spine + [c, g])
  {
    var (after, chain, n) := (RotatedCells(before, a, c, g), spine + [c, g], |p|);
    ChainToGrandchild(before, handles, p, spine, a, c, g);
    RefAtSpine(before, handles, p, spine);
    HeldAt(before, Ptr(spine[0]), t, p);
    RotatedNodeHolds(before, handles, chain, n, a, c, g, At(t, p));
    assert chain[n..] == [a, c, g] && chain[..n + 1] == spine;
    SpineHolds(before, after, handles, chain, n, p, t, Rotate(At(t, p)));
  }

  // ----- What a rotation does to exclusive ways -----

  lemma {:induction false} SpineBegins(cells: seq<Cell>, handles: multiset<nat>, q: Path, spine: seq<nat>, j: nat)
    requires IsSpine(cells, handles, q, spine) && j <= |q|
    ensures IsSpine(cells, handles, q[..j], spine[..j + 1])
    decreases |q|
  {
    if j == |q| {
      assert q[..j] == q && spine[..j + 1] == spine;
    } else {
      SpineBegins(cells, handles, Front(q), spine[..|q|], j);
      assert Front(q)[..j] == q[..j] && spine[..|q|][..j + 1] == spine[..j + 1];
    }
  }

  /** Exclusive nodes have one path. */
  lemma {:induction false} SamePath(cells: seq<Cell>, handles: multiset<nat>, p: Path, q: Path, spine: seq<nat>)
    requires CountsMatch(cells, handles) && IsSpine(cells, handles, p, spine) && IsSpine(cells, handles, q, spine)
    ensures p == q
    decreases |p|
  {
    if p == [] {
    } else {
      SamePath(cells, handles, Front(p), Front(q), spine[..|p|]);
      OnlySlot(cells, handles, spine[|p|], spine[|p| - 1], Back(p), spine[|p| - 1], Back(q));
      assert p == Front(p) + [Back(p)] && q == Front(q) + [Back(q)];
    }
  }

  lemma PathOfNode(cells: seq<Cell>, handles: multiset<nat>, p: Path, spine: seq<nat>, q: Path, other: seq<nat>,
                   j: nat)
    requires CountsMatch(cells, handles) && IsSpine(cells, handles, p, spine) && IsSpine(cells, handles, q, other)
    requires j <= |q| && other[j] == spine[|p|]
    ensures q[..j] == p
  {
    SpineIsChain(cells, handles, p, spine);
    SpineIsChain(cells, handles, q, other);
    PathOnChain(cells, handles, other, j, spine);
    SpineBegins(cells, handles, q, other, j);
    SamePath(cells, handles, p, q[..j], spine);
  }

  lemma NodeAbove(cells: seq<Cell>, handles: multiset<nat>, p: Path, spine: seq<nat>, q: Path, other: seq<nat>)
    requires CountsMatch(cells, handles) && IsSpine(cells, handles, p, spine) && IsSpine(cells, handles, q, other)
    requires q != [] && other[|q| - 1] == spine[|p|]
    ensures q == p + [Back(q)]
  {
    var end := |q| - 1;
    PathOfNode(cells, handles, p, spine, q, other, end);
    assert q == q[..end] + [Back(q)];
  }

  /** A slot on an exclusive way is not written to unless the way leads to the child that is moved. */
  lemma SlotNotRotated(before: seq<Cell>, handles: multiset<nat>, u: Path, spine: seq<nat>, a: nat, c: nat, g: nat,
                       q: Path, other: seq<nat>)
    requires CountsMatch(before, handles) && IsSpine(before, handles, u, spine) && spine[|u|] == a
    requires IsLeftmost(before, a, c, g) && IsExclusive(before, c) && IsExclusive(before, g)
    requires q != [] && IsSpine(before, handles, q, other) && !(u + [0] <= q)
    ensures var y := other[|q| - 1]; y != c && y != g && (y == a ==> Back(q) != 0)
  {
    var y := other[|q| - 1];
    var v := u + [0];
    assert Front(v) == u;
    LongerSpine(before, handles, v, spine, c);
    if y == a {
      NodeAbove(before, handles, u, spine, q, other);
    } else if y == c {
      NodeAbove(before, handles, v, spine + [c], q, other);
    } else if y == g {
      var w := v + [0];
      assert Front(w) == v;
      LongerSpine(before, handles, w, spine + [c], g);
      NodeAbove(before, handles, w, spine + [c] + [g], q, other);
    }
  }

  lemma {:induction false} SpineNotRotated(
    before: seq<Cell>, handles: multiset<nat>, u: Path, spine: seq<nat>, a: nat, c: nat, g: nat, q: Path,
    other: seq<nat>)
    requires CountsMatch(before, handles) && IsSpine(before, handles, u, spine) && spine[|u|] == a
    requires IsLeftmost(before, a, c, g) && IsExclusive(before, c) && IsExclusive(before, g)
    requires IsSpine(before, handles, q, other) && !(u + [0] <= q)
    ensures IsSpine(RotatedCells(before, a, c, g), handles, q, other)
    decreases |q|
  {
    var after := RotatedCells(before, a, c, g);
    assert IsExclusive(after, other[|q|]);
    if q == [] {
    } else {
      assert q == Front(q) + [Back(q)];
      SpineNotRotated(before, handles, u, spine, a, c, g, Front(q), other[..|q|]);
      SlotNotRotated(before, handles, u, spine, a, c, g, q, other);
      assert HasSlot(before, other[|q| - 1], Back(q), Ptr(other[|q|]));
    }
  }

  /** The way to a node at the given address. */
  ghost predicate OwnedAt(cells: seq<Cell>, handles: multiset<nat>, root: nat, q: Path, a: nat) {
    exists spine :: IsSpine(cells, handles, q, spine) && spine[0] == root && spine[|q|] == a
  }

  lemma OwnedBelow(cells: seq<Cell>, handles: multiset<nat>, root: nat, q: Path, a: nat, i: nat, c: nat)
    requires OwnedAt(cells, handles, root, q, a) && HasSlot(cells, a, i, Ptr(c)) && IsExclusive(cells, c)
    ensures OwnedAt(cells, handles, root, q + [i], c)
  {
    var spine :| IsSpine(cells, handles, q, spine) && spine[0] == root && spine[|q|] == a;
    assert Front(q + [i]) == q;
    LongerSpine(cells, handles, q + [i], spine, c);
    assert (spine + [c])[0] == root && (spine + [c])[|q + [i]|] == c;
  }

  lemma HeldAtOwned(cells: seq<Cell>, handles: multiset<nat>, root: nat, q: Path, a: nat, t: Subtree)
    requires OwnedAt(cells, handles, root, q, a) && Holds(cells, Ptr(root), t) && ValidPath(t, q)
    ensures IsExclusive(cells, a) && Holds(cells, Ptr(a), At(t, q))
  {
    var spine :| IsSpine(cells, handles, q, spine) && spine[0] == root && spine[|q|] == a;
    RefAtSpine(cells, handles, q, spine);
    HeldAt(cells, Ptr(root), t, q);
  }

  // ----- Reading and summarizing a node -----

  function FieldsIn(cells: seq<Cell>, r: Ref): Fields
    requires r.Ptr? ==> IsLive(cells, r.address)
  {
    if r.Ptr? then ShownCell(cells[r.address]).fields else r.fields
  }

  /** A node as its parent sees it: of its children, only their number. */
  function ChildView(cells: seq<Cell>, r: Ref): Subtree
    requires r.Ptr? ==> IsLive(cells, r.address)
  {
    var node := NodeOf(FieldsIn(cells, r));
    node.(children := seq(|KidsOf(cells, r)|, _ => node))
  }

  /** A node with its children. */
  function NodeView(cells: seq<Cell>, a: nat): Subtree
    requires IsLive(cells, a) && AllLive(cells, cells[a].children)
  {
    var refs := cells[a].children;
    NodeOf(FieldsIn(cells, Ptr(a))).(
      children := seq(|refs|, i requires 0 <= i < |refs| => ChildView(cells, refs[i])))
  }

  /** As far as the parent looks at them. */
  predicate IsViewOf(v: Subtree, t: Subtree) {
    FieldsOf(v) == FieldsOf(t) && |v.children| == |t.children|
  }

  lemma ChildViewHeld(cells: seq<Cell>, r: Ref, t: Subtree)
    requires Holds(Shown(cells), r, t)
    ensures (r.Ptr? ==> IsLive(cells, r.address)) && IsViewOf(ChildView(cells, r), t)
  {
    if r.Ptr? {
      assert Shown(cells)[r.address] == ShownCell(cells[r.address]);
    }
  }

  lemma NodeViewHeld(cells: seq<Cell>, a: nat, t: Subtree)
    requires Holds(Shown(cells), Ptr(a), t)
    ensures IsLive(cells, a) && AllLive(cells, cells[a].children) && IsViewOf(NodeView(cells, a), t)
    ensures forall i | 0 <= i < |t.children| :: IsViewOf(NodeView(cells, a).children[i], t.children[i])
  {
    var refs := cells[a].children;
    assert Shown(cells)[a] == ShownCell(cells[a]) && HoldAll(Shown(cells), refs, t);
    forall i | 0 <= i < |refs|
      ensures (refs[i].Ptr? ==> IsLive(cells, refs[i].address)) && IsViewOf(ChildView(cells, refs[i]), t.children[i])
    {
      assert Holds(Shown(cells), refs[i], t.children[i]);
      ChildViewHeld(cells, refs[i], t.children[i]);
    }
  }

  lemma ViewSummarized(lang: Language, v: Subtree, t: Subtree)
    requires IsViewOf(v, t) && |t.children| > 0
    requires forall i | 0 <= i < |t.children| :: IsViewOf(v.children[i], t.children[i])
    ensures FieldsOf(Summarized(lang, v)) == FieldsOf(Summarized(lang, t))
  {
    SameSummary(lang, v, t);
    assert IsViewOf(v.children[0], t.children[0]) && IsViewOf(Last(v), Last(t));
  }

  lemma ShownFields(cells: seq<Cell>, a: nat, f: Fields, g: Fields)
    requires IsLive(cells, a) && f.head == cells[a].fields.head
    requires g == f.(head := f.head.(refCount := cells[a].refCount))
    ensures Shown(WithFields(cells, a, f)) == WithFields(Shown(cells), a, g)
    ensures HeadsKept(cells, WithFields(cells, a, f))
  {
  }

  /** ts_subtree_summarize_children on a node in memory. */
  method SummarizeNode(pool: SubtreePool, lang: Language, a: nat, ghost t: Subtree)
    requires pool.Valid() && Holds(Shown(pool.cells), Ptr(a), t) && |t.children| > 0
    modifies pool
    ensures pool.Valid() && pool.handles == old(pool.handles) && HeadsKept(old(pool.cells), pool.cells)
    ensures IsLive(Shown(old(pool.cells)), a)
    ensures Shown(pool.cells) == WithFields(Shown(old(pool.cells)), a, FieldsOf(Summarized(lang, t)))
  {
    NodeViewHeld(pool.cells, a, t);
    var view := NodeView(pool.cells, a);
    var node := SummarizeChildren(lang, view);
    ViewSummarized(lang, view, t);
    var f := pool.cells[a].fields.(sum := node.sum, repeatDepth := node.repeatDepth);
    ShownFields(pool.cells, a, f, FieldsOf(Summarized(lang, t)));
    SetFields(pool, a, f);
  }

  // ----- The tree that is being balanced -----

  /** Where it is: below the root of a whole tree, apart from the nodes waiting on the stack. */
  datatype Place = Place(root: nat, others: multiset<nat>, whole: Subtree, path: Path, entries: seq<Entry<()>>,
                         stack: seq<nat>)
  {
    function Handles(): multiset<nat> {
      others + multiset{root}
    }
  }

  ghost predicate AllOwned(cells: seq<Cell>, handles: multiset<nat>, root: nat, entries: seq<Entry<()>>,
                           stack: seq<nat>)
  {
    |entries| == |stack| && forall i | 0 <= i < |stack| :: OwnedAt(cells, handles, root, entries[i].tree, stack[i])
  }

  /** The tree r is in its place, and its root is at the given address. */
  ghost predicate IsInPlace(cells: seq<Cell>, place: Place, r: Subtree, tree: nat) {
    && ValidPath(place.whole, place.path)
    && Holds(cells, Ptr(place.root), Put(place.whole, place.path, r))
    && OwnedAt(cells, place.Handles(), place.root, place.path, tree)
    && AllOwned(cells, place.Handles(), place.root, place.entries, place.stack)
    && forall i | 0 <= i < |place.entries| :: Apart(place.path, place.entries[i].tree)
  }

  ghost predicate StillOwned(before: seq<Cell>, after: seq<Cell>, place: Place) {
    forall q, x | OwnedAt(before, place.Handles(), place.root, q, x) ::
      OwnedAt(after, place.Handles(), place.root, q, x)
  }

  function Zeros(k: nat): (p: Path)
    ensures |p| == k
  {
    seq(k, _ => 0)
  }

  /** The left spine as a path. */
  lemma {:induction false} SpinePath(t: Subtree, k: nat)
    ensures HasSpine(t, k) <==> ValidPath(t, Zeros(k))
    ensures HasSpine(t, k) ==> At(t, Zeros(k)) == SpineAt(t, k)
    ensures forall n | HasSpine(t, k) :: Put(t, Zeros(k), n) == SpinePut(t, k, n)
    decreases k
  {
    if k == 0 {
    } else {
      assert Zeros(k)[1..] == Zeros(k - 1);
      if |t.children| > 0 {
        SpinePath(First(t), k - 1);
      }
    }
  }

  /** Depth k of a tree in its place. */
  lemma SpineInPlace(whole: Subtree, path: Path, r: Subtree, k: nat, n: Subtree)
    requires ValidPath(whole, path) && HasSpine(r, k)
    ensures var (w, u) := (Put(whole, path, r), path + Zeros(k));
            && ValidPath(w, u) && At(w, u) == SpineAt(r, k)
            && Put(w, u, n) == Put(whole, path, SpinePut(r, k, n))
  {
    SpinePath(r, k);
    PutAt(whole, path, r, Zeros(k));
    PutPut(whole, path, r, Zeros(k), n);
  }

  lemma FieldsWrittenOwned(before: seq<Cell>, place: Place, a: nat, f: Fields)
    requires IsLive(before, a)
    ensures StillOwned(before, WithFields(before, a, f), place)
  {
    var (after, handles) := (WithFields(before, a, f), place.Handles());
    forall p, x | OwnedAt(before, handles, place.root, p, x)
      ensures OwnedAt(after, handles, place.root, p, x)
    {
      var other :| IsSpine(before, handles, p, other) && other[0] == place.root && other[|p|] == x;
      SpineAfterWrite(before, handles, a, f, p, other);
    }
  }

  /** Writing the fields of an owned node. */
  lemma FieldsWritten(before: seq<Cell>, rank: seq<nat>, place: Place, w: Subtree, q: Path, a: nat, n: Subtree)
    requires IsConsistent(before, place.Handles(), rank)
    requires OwnedAt(before, place.Handles(), place.root, q, a) && IsLive(before, a)
    requires Holds(before, Ptr(place.root), w) && ValidPath(w, q) && n.children == At(w, q).children
    ensures var after := WithFields(before, a, FieldsOf(n));
            && Holds(after, Ptr(place.root), Put(w, q, n))
            && IsKept(before, after, place.others) && StillOwned(before, after, place)
  {
    var spine :| IsSpine(before, place.Handles(), q, spine) && spine[0] == place.root && spine[|q|] == a;
    RewrittenInPlace(before, place.others, rank, q, spine, a, FieldsOf(n), w, n);
    FieldsWrittenOwned(before, place, a, FieldsOf(n));
  }

  /** Rotating at an owned node. */
  lemma RotatedInTree(before: seq<Cell>, place: Place, w: Subtree, u: Path, a: nat, c: nat, g: nat)
    requires CountsMatch(before, place.Handles()) && NothingDangles(before, place.Handles())
    requires OwnedAt(before, place.Handles(), place.root, u, a)
    requires IsLeftmost(before, a, c, g) && IsExclusive(before, c) && IsExclusive(before, g)
    requires Holds(before, Ptr(place.root), w) && ValidPath(w, u)
    ensures var m := At(w, u); |m.children| >= 2 && |First(m).children| >= 2 && |First(First(m)).children| >= 2
    ensures var after := RotatedCells(before, a, c, g);
            && Holds(after, Ptr(place.root), Put(w, u, Rotate(At(w, u))))
            && IsKept(before, after, place.others)
            && forall q, x | OwnedAt(before, place.Handles(), place.root, q, x) && !(u + [0] <= q) ::
                 OwnedAt(after, place.Handles(), place.root, q, x)
  {
    var (after, handles) := (RotatedCells(before, a, c, g), place.Handles());
    var spine :| IsSpine(before, handles, u, spine) && spine[0] == place.root && spine[|u|] == a;
    RotatedHolds(before, handles, u, spine, a, c, g, w);
    KeptOffChain(before, after, place.others, spine + [c, g]);
    forall q, x | OwnedAt(before, handles, place.root, q, x) && !(u + [0] <= q)
      ensures OwnedAt(after, handles, place.root, q, x)
    {
      var other :| IsSpine(before, handles, q, other) && other[0] == place.root && other[|q|] == x;
      SpineNotRotated(before, handles, u, spine, a, c, g, q, other);
    }
  }

  /** The moved nodes belong to the tree alone, like before. */
  lemma MovedOwned(before: seq<Cell>, place: Place, u: Path, a: nat, c: nat, g: nat, last: nat)
    requires IsLeftmost(before, a, c, g) && IsExclusive(before, c) && IsExclusive(before, g)
    requires last == |before[g].children| - 1
    requires OwnedAt(RotatedCells(before, a, c, g), place.Handles(), place.root, u, a)
    ensures var after := RotatedCells(before, a, c, g);
            && OwnedAt(after, place.Handles(), place.root, u + [0], g)
            && OwnedAt(after, place.Handles(), place.root, u + [0] + [last], c)
  {
    var after := RotatedCells(before, a, c, g);
    OwnedBelow(after, place.Handles(), place.root, u, a, 0, g);
    OwnedBelow(after, place.Handles(), place.root, u + [0], g, last, c);
  }

  // ----- ts_subtree__compress: the first loop -----

  /** The path of the child that the rotation at depth k has moved. */
  function MovedPath(path: Path, r: Subtree, k: nat): Path
    requires HasSpine(r, k + 1) && |SpineAt(r, k + 1).children| > 0
  {
    path + Zeros(k + 1) + [|SpineAt(r, k + 1).children| - 1]
  }

  /** The rotated nodes, from the top down, with the children that were moved: all may be written to. */
  ghost predicate IsStacked(cells: seq<Cell>, place: Place, r: Subtree, rotated: seq<nat>, moved: seq<nat>) {
    && |moved| == |rotated|
    && forall k | 0 <= k < |rotated| :: IsMoved(cells, place, r, k, rotated[k], moved[k])
  }

  ghost predicate IsMoved(cells: seq<Cell>, place: Place, r: Subtree, k: nat, a: nat, c: nat) {
    && HasSpine(r, k + 1) && |SpineAt(r, k + 1).children| >= 2
    && OwnedAt(cells, place.Handles(), place.root, place.path + Zeros(k), a)
    && OwnedAt(cells, place.Handles(), place.root, MovedPath(place.path, r, k), c)
  }

  /** Nodes on the spine keep the number of their children. */
  lemma {:induction false} SpineWidths(t: Subtree, k: nat, n: Subtree, j: nat)
    requires HasSpine(t, k) && |n.children| == |SpineAt(t, k).children| && j <= k
    ensures HasSpine(t, j) && HasSpine(SpinePut(t, k, n), j)
    ensures |SpineAt(SpinePut(t, k, n), j).children| == |SpineAt(t, j).children|
    decreases k
  {
    if j == 0 {
    } else {
      SpineWidths(First(t), k - 1, n, j - 1);
    }
  }

  /** The path of a moved child does not lead through the first child of a deeper node. */
  lemma MovedNotBelow(path: Path, k: nat, j: nat, last: nat)
    requires j < k && last > 0
    ensures !(path + Zeros(k) + [0] <= path + Zeros(j + 1) + [last])
    ensures !(path + Zeros(k) + [0] <= path + Zeros(j))
  {
    var (u, q) := (path + Zeros(k) + [0], path + Zeros(j + 1) + [last]);
    assert u[|path| + j + 1] == 0 && q[|path| + j + 1] == last;
  }

  lemma NotBelowApart(path: Path, k: nat, q: Path)
    requires Apart(path, q) || q == path
    ensures !(path + Zeros(k) + [0] <= q)
  {
    assert path <= path + Zeros(k) + [0];
  }

  /** The three nodes of a rotation hold the tree's. */
  lemma LeftmostHeld(cells: seq<Cell>, a: nat, c: nat, g: nat, t: Subtree)
    requires IsLeftmost(cells, a, c, g) && Holds(cells, Ptr(a), t)
    ensures |t.children| >= 2 && |First(t).children| >= 2
    ensures |First(First(t)).children| == |cells[g].children| >= 2
  {
    assert HoldAll(cells, cells[a].children, t) && Holds(cells, cells[a].children[0], First(t));
    assert HoldAll(cells, cells[c].children, First(t)) && Holds(cells, cells[c].children[0], First(First(t)));
    assert HoldAll(cells, cells[g].children, First(First(t)));
  }

  lemma RotatedSpine(r: Subtree, k: nat, below: nat)
    requires below == k + 1 && HasSpine(r, k) && |SpineAt(r, k).children| > 0
    requires |First(SpineAt(r, k)).children| > 0 && |First(First(SpineAt(r, k))).children| > 0
    ensures var r' := SpinePut(r, k, Rotate(SpineAt(r, k)));
            HasSpine(r', below) && |SpineAt(r', below).children| == |First(First(SpineAt(r, k))).children|
  {
    var m := Rotate(SpineAt(r, k));
    SpineAfterPut(r, k, m);
    SpineBelow(SpinePut(r, k, m), k);
  }

  /** One rotation in its place. */
  lemma RotatedInPlace(before: seq<Cell>, place: Place, r: Subtree, tree: nat, k: nat, u: Path, a: nat, c: nat, g: nat)
    requires CountsMatch(before, place.Handles()) && NothingDangles(before, place.Handles())
    requires IsInPlace(before, place, r, tree) && HasSpine(r, k) && u == place.path + Zeros(k)
    requires OwnedAt(before, place.Handles(), place.root, u, a)
    requires IsLeftmost(before, a, c, g) && IsExclusive(before, c) && IsExclusive(before, g)
    ensures var m := SpineAt(r, k);
            |m.children| >= 2 && |First(m).children| >= 2 && |First(First(m)).children| == |before[g].children| >= 2
    ensures var after := RotatedCells(before, a, c, g);
            && IsInPlace(after, place, SpinePut(r, k, Rotate(SpineAt(r, k))), tree)
            && IsKept(before, after, place.others)
            && forall q, x | OwnedAt(before, place.Handles(), place.root, q, x) && !(u + [0] <= q) ::
                 OwnedAt(after, place.Handles(), place.root, q, x)
  {
    var w := Put(place.whole, place.path, r);
    SpineInPlace(place.whole, place.path, r, k, r);
    HeldAtOwned(before, place.Handles(), place.root, u, a, w);
    LeftmostHeld(before, a, c, g, SpineAt(r, k));
    SpineInPlace(place.whole, place.path, r, k, Rotate(SpineAt(r, k)));
    RotatedInTree(before, place, w, u, a, c, g);
    NotBelowApart(place.path, k, place.path);
    forall i | 0 <= i < |place.entries| {
      NotBelowApart(place.path, k, place.entries[i].tree);
    }
  }

  lemma StillMoved(before: seq<Cell>, after: seq<Cell>, place: Place, r: Subtree, r': Subtree, u: Path, k: nat, j: nat,
                   a: nat, c: nat)
    requires j < k && u == place.path + Zeros(k) && IsMoved(before, place, r, j, a, c)
    requires HasSpine(r', j + 1) && |SpineAt(r', j + 1).children| == |SpineAt(r, j + 1).children|
    requires forall q, x | OwnedAt(before, place.Handles(), place.root, q, x) && !(u + [0] <= q) ::
               OwnedAt(after, place.Handles(), place.root, q, x)
    ensures IsMoved(after, place, r', j, a, c)
  {
    MovedNotBelow(place.path, k, j, |SpineAt(r, j + 1).children| - 1);
    assert MovedPath(place.path, r, j) == MovedPath(place.path, r', j);
  }

  lemma NowMoved(before: seq<Cell>, place: Place, r: Subtree, u: Path, k: nat, a: nat, c: nat, g: nat)
    requires IsLeftmost(before, a, c, g) && IsExclusive(before, c) && IsExclusive(before, g)
    requires u == place.path + Zeros(k) && HasSpine(r, k + 1)
    requires |SpineAt(r, k + 1).children| == |before[g].children|
    requires OwnedAt(RotatedCells(before, a, c, g), place.Handles(), place.root, u, a)
    ensures IsMoved(RotatedCells(before, a, c, g), place, r, k, a, c)
    ensures OwnedAt(RotatedCells(before, a, c, g), place.Handles(), place.root, place.path + Zeros(k + 1), g)
  {
    MovedOwned(before, place, u, a, c, g, |before[g].children| - 1);
    assert u + [0] == place.path + Zeros(k + 1);
  }

  lemma AllStillMoved(before: seq<Cell>, after: seq<Cell>, place: Place, r: Subtree, m: Subtree, u: Path, k: nat,
                      rotated: seq<nat>, moved: seq<nat>)
    requires IsStacked(before, place, r, rotated, moved) && k == |rotated| && u == place.path + Zeros(k)
    requires HasSpine(r, k) && |m.children| == |SpineAt(r, k).children|
    requires forall q, x | OwnedAt(before, place.Handles(), place.root, q, x) && !(u + [0] <= q) ::
               OwnedAt(after, place.Handles(), place.root, q, x)
    ensures IsStacked(after, place, SpinePut(r, k, m), rotated, moved)
  {
    forall j | 0 <= j < k
      ensures IsMoved(after, place, SpinePut(r, k, m), j, rotated[j], moved[j])
    {
      assert IsMoved(before, place, r, j, rotated[j], moved[j]);
      SpineWidths(r, k, m, j + 1);
      StillMoved(before, after, place, r, SpinePut(r, k, m), u, k, j, rotated[j], moved[j]);
    }
  }

  lemma StackLonger(cells: seq<Cell>, place: Place, r: Subtree, rotated: seq<nat>, moved: seq<nat>, k: nat, a: nat,
                    c: nat)
    requires IsStacked(cells, place, r, rotated, moved) && k == |rotated| && IsMoved(cells, place, r, k, a, c)
    ensures IsStacked(cells, place, r, rotated + [a], moved + [c])
  {
    forall j | 0 <= j < k + 1
      ensures IsMoved(cells, place, r, j, (rotated + [a])[j], (moved + [c])[j])
    {
      if j < k {
        assert IsMoved(cells, place, r, j, rotated[j], moved[j]);
      }
    }
  }

  /** The state of the first loop: the next rotation is at the given node. */
  ghost predicate IsRotating(cells: seq<Cell>, place: Place, r: Subtree, tree: nat, rotated: seq<nat>,
                             moved: seq<nat>, node: nat)
  {
    && IsInPlace(cells, place, r, tree) && HasSpine(r, |rotated|) && IsStacked(cells, place, r, rotated, moved)
    && OwnedAt(cells, place.Handles(), place.root, place.path + Zeros(|rotated|), node)
  }

  lemma NotBelowSelf(u: Path)
    ensures !(u + [0] <= u)
  {
  }

  /** What one rotation makes of the state of the loop. */
  lemma RotationGoesOn(before: seq<Cell>, place: Place, r: Subtree, tree: nat, rotated: seq<nat>, moved: seq<nat>,
                       k: nat, below: nat, a: nat, c: nat, g: nat) returns (r': Subtree)
    requires CountsMatch(before, place.Handles()) && NothingDangles(before, place.Handles())
    requires IsRotating(before, place, r, tree, rotated, moved, a) && k == |rotated| && below == k + 1
    requires IsLeftmost(before, a, c, g) && IsExclusive(before, c) && IsExclusive(before, g)
    ensures var m := SpineAt(r, k); |m.children| >= 2 && |First(m).children| >= 2 && |First(First(m)).children| >= 2
    ensures r' == SpinePut(r, k, Rotate(SpineAt(r, k)))
    ensures var after := RotatedCells(before, a, c, g);
            && IsRotating(after, place, r', tree, rotated + [a], moved + [c], g) && IsKept(before, after, place.others)
  {
    var (after, u) := (RotatedCells(before, a, c, g), place.path + Zeros(k));
    RotatedInPlace(before, place, r, tree, k, u, a, c, g);
    RotatedSpine(r, k, below);
    r' := SpinePut(r, k, Rotate(SpineAt(r, k)));
    NotBelowSelf(u);
    NowMoved(before, place, r', u, k, a, c, g);
    AllStillMoved(before, after, place, r, Rotate(SpineAt(r, k)), u, k, rotated, moved);
    StackLonger(after, place, r', rotated, moved, k, a, c);
    assert |rotated + [a]| == below;
  }

  predicate IsLinkAt(cells: seq<Cell>, r: Ref, symbol: Symbol) {
    && r.Ptr? && IsLive(cells, r.address)
    && |cells[r.address].children| >= 2 && cells[r.address].refCount <= 1
    && cells[r.address].fields.head.symbol == symbol
  }

  /** What stops the first loop. */
  predicate CanRotateAt(cells: seq<Cell>, a: nat, symbol: Symbol) {
    && IsLive(cells, a) && cells[a].refCount <= 1 && |cells[a].children| >= 2
    && IsLinkAt(cells, cells[a].children[0], symbol)
    && IsLinkAt(cells, cells[cells[a].children[0].address].children[0], symbol)
  }

  lemma LinkHeld(cells: seq<Cell>, r: Ref, symbol: Symbol, t: Subtree)
    requires Holds(Shown(cells), r, t)
    ensures IsLinkAt(cells, r, symbol) <==> IsLink(t, symbol)
    ensures |t.children| > 0 ==>
              r.Ptr? && IsLive(cells, r.address) && |cells[r.address].children| == |t.children|
              && Holds(Shown(cells), cells[r.address].children[0], First(t))
  {
    if r.Ptr? {
      assert Shown(cells)[r.address] == ShownCell(cells[r.address]);
      assert HoldAll(Shown(cells), cells[r.address].children, t);
    }
  }

  lemma CanRotateHeld(cells: seq<Cell>, a: nat, symbol: Symbol, t: Subtree)
    requires Holds(Shown(cells), Ptr(a), t)
    ensures CanRotateAt(cells, a, symbol) <==> CanRotate(t, symbol)
  {
    assert Shown(cells)[a] == ShownCell(cells[a]);
    LinkHeld(cells, Ptr(a), symbol, t);
    if |t.children| > 0 {
      LinkHeld(cells, cells[a].children[0], symbol, First(t));
      if |First(t).children| > 0 {
        LinkHeld(cells, cells[cells[a].children[0].address].children[0], symbol, First(First(t)));
      }
    }
  }

  lemma CanRotateLeftmost(cells: seq<Cell>, handles: multiset<nat>, rank: seq<nat>, a: nat, symbol: Symbol)
    requires IsConsistent(cells, handles, rank) && CanRotateAt(cells, a, symbol)
    ensures var c := cells[a].children[0].address; var g := cells[c].children[0].address;
            IsLeftmost(cells, a, c, g) && IsExclusive(cells, c) && IsExclusive(cells, g)
  {
    var c := cells[a].children[0].address;
    var g := cells[c].children[0].address;
    ChildRank(cells, handles, rank, a, 0, c);
    ChildRank(cells, handles, rank, c, 0, g);
  }

  lemma RotatingHeld(cells: seq<Cell>, place: Place, r: Subtree, tree: nat, rotated: seq<nat>, moved: seq<nat>,
                     node: nat)
    requires IsRotating(cells, place, r, tree, rotated, moved, node)
    ensures Holds(cells, Ptr(node), SpineAt(r, |rotated|))
  {
    SpineInPlace(place.whole, place.path, r, |rotated|, r);
    HeldAtOwned(cells, place.Handles(), place.root, place.path + Zeros(|rotated|), node,
                Put(place.whole, place.path, r));
  }

  lemma RotatedHeads(cells: seq<Cell>, a: nat, c: nat, g: nat)
    requires IsLeftmost(cells, a, c, g)
    ensures HeadsKept(cells, RotatedCells(cells, a, c, g))
  {
    forall x | 0 <= x < |cells|
      ensures var (l, r) := (cells[x], RotatedCells(cells, a, c, g)[x]);
              l.Live? == r.Live? && (l.Live? ==> l.fields == r.fields && l.refCount == r.refCount)
    {
      if x !in [a, c, g] {
        assert RotatedCells(cells, a, c, g)[x] == cells[x];
      }
    }
  }

  /** What one turn of the first loop does. */
  lemma RotateTurn(cells: seq<Cell>, rank: seq<nat>, place: Place, r: Subtree, tree: nat, rotated: seq<nat>,
                   moved: seq<nat>, k: nat, below: nat, a: nat, c: nat, g: nat)
    returns (r': Subtree)
    requires IsConsistent(cells, place.Handles(), rank) && k == |rotated| && below == k + 1
    requires IsRotating(Shown(cells), place, r, tree, rotated, moved, a)
    requires IsLeftmost(cells, a, c, g) && IsExclusive(cells, c) && IsExclusive(cells, g)
    ensures var m := SpineAt(r, k); |m.children| >= 2 && |First(m).children| >= 2 && |First(First(m)).children| >= 2
    ensures r' == SpinePut(r, k, Rotate(SpineAt(r, k)))
    ensures var after := RotatedCells(cells, a, c, g);
            && IsRotating(Shown(after), place, r', tree, rotated + [a], moved + [c], g)
            && Untouched(cells, after, place.others)
  {
    ShownConsistent(cells, place.Handles(), rank);
    ShownRotated(cells, a, c, g);
    RotatedHeads(cells, a, c, g);
    r' := RotationGoesOn(Shown(cells), place, r, tree, rotated, moved, k, below, a, c, g);
    SameView(RotatedCells(Shown(cells), a, c, g), Shown(RotatedCells(cells, a, c, g)), place, r', tree, rotated + [a],
             moved + [c], g, Shown(cells));
  }

  lemma SameView(cells: seq<Cell>, view: seq<Cell>, place: Place, r: Subtree, tree: nat, rotated: seq<nat>,
                 moved: seq<nat>, node: nat, before: seq<Cell>)
    requires IsRotating(cells, place, r, tree, rotated, moved, node) && IsKept(before, cells, place.others)
    requires view == cells
    ensures IsRotating(view, place, r, tree, rotated, moved, node) && IsKept(before, view, place.others)
  {
  }

  lemma MayRotate(cells: seq<Cell>, place: Place, r: Subtree, tree: nat, rotated: seq<nat>, moved: seq<nat>, k: nat,
                  a: nat, symbol: Symbol)
    requires IsRotating(Shown(cells), place, r, tree, rotated, moved, a) && k == |rotated|
    ensures CanRotateAt(cells, a, symbol) <==> CanRotate(SpineAt(r, k), symbol)
  {
    RotatingHeld(Shown(cells), place, r, tree, rotated, moved, a);
    CanRotateHeld(cells, a, symbol, SpineAt(r, k));
  }

  lemma UntouchedAtFirst(cells: seq<Cell>, rank: seq<nat>, place: Place)
    requires IsConsistent(cells, place.Handles(), rank)
    ensures Untouched(cells, cells, place.others)
  {
    ShownConsistent(cells, place.Handles(), rank);
    KeptByExtension(Shown(cells), Shown(cells), place.Handles(), place.others);
  }

  /** The state of the first loop, with n rotations left to do. */
  ghost predicate IsTurning(cells: seq<Cell>, place: Place, sm: Summarizing, r: Subtree, symbol: Symbol, tree: nat,
                            rotated: seq<nat>, moved: seq<nat>, node: nat, n: nat, goal: Subtree)
  {
    && IsRotating(Shown(cells), place, r, tree, rotated, moved, node)
    && Outcome(sm, r, symbol, |rotated|, n) == goal
  }

  lemma NextTurn(cells: seq<Cell>, rank: seq<nat>, place: Place, sm: Summarizing, r: Subtree, symbol: Symbol,
                 tree: nat, rotated: seq<nat>, moved: seq<nat>, a: nat, c: nat, g: nat, k: nat, n: nat, rest: nat,
                 goal: Subtree)
    returns (r': Subtree)
    requires IsConsistent(cells, place.Handles(), rank) && k == |rotated| && n == rest + 1
    requires IsTurning(cells, place, sm, r, symbol, tree, rotated, moved, a, n, goal) && CanRotateAt(cells, a, symbol)
    requires IsLeftmost(cells, a, c, g) && IsExclusive(cells, c) && IsExclusive(cells, g)
    ensures var after := RotatedCells(cells, a, c, g);
            && IsTurning(after, place, sm, r', symbol, tree, rotated + [a], moved + [c], g, rest, goal)
            && Untouched(cells, after, place.others)
  {
    var below := k + 1;
    MayRotate(cells, place, r, tree, rotated, moved, k, a, symbol);
    RotationStep(sm, r, symbol, k, n, below, rest);
    r' := RotateTurn(cells, rank, place, r, tree, rotated, moved, k, below, a, c, g);
    assert |rotated + [a]| == below;
  }

  /** One turn of the first loop. */
  method RotateOnce(pool: SubtreePool, node: nat, stack: seq<nat>, symbol: Symbol, ghost place: Place,
                    ghost sm: Summarizing, ghost r: Subtree, ghost tree: nat, ghost moved: seq<nat>, ghost n: nat,
                    ghost goal: Subtree, ghost start: seq<Cell>)
    returns (grandchild: nat, rotated: seq<nat>, ghost r': Subtree, ghost moved': seq<nat>, ghost rest: nat)
    requires pool.Valid() && pool.handles == place.Handles() && n > 0 && Untouched(start, pool.cells, place.others)
    requires IsTurning(pool.cells, place, sm, r, symbol, tree, stack, moved, node, n, goal)
    requires CanRotateAt(pool.cells, node, symbol)
    modifies pool
    ensures pool.Valid() && pool.handles == place.Handles() && Untouched(start, pool.cells, place.others)
    ensures IsTurning(pool.cells, place, sm, r', symbol, tree, rotated, moved', grandchild, rest, goal)
    ensures rest == n - 1
  {
    CanRotateLeftmost(pool.cells, pool.handles, pool.rank, node, symbol);
    var child := pool.cells[node].children[0].address;
    grandchild := pool.cells[child].children[0].address;
    rest := n - 1;
    r' := NextTurn(pool.cells, pool.rank, place, sm, r, symbol, tree, stack, moved, node, child, grandchild, |stack|,
                   n, rest, goal);
    UntouchedTwice(start, pool.cells, RotatedCells(pool.cells, node, child, grandchild), place.others);
    RotateNodes(pool, node, child, grandchild);
    rotated, moved' := stack + [node], moved + [child];
  }

  lemma FirstTurn(cells: seq<Cell>, rank: seq<nat>, place: Place, sm: Summarizing, t: Subtree, symbol: Symbol,
                  tree: nat, count: nat)
    requires IsConsistent(cells, place.Handles(), rank) && IsInPlace(Shown(cells), place, t, tree)
    ensures IsTurning(cells, place, sm, t, symbol, tree, [], [], tree, count, CompressTree(sm, t, symbol, count))
    ensures Untouched(cells, cells, place.others)
  {
    assert place.path + Zeros(0) == place.path;
    UntouchedAtFirst(cells, rank, place);
  }

  lemma LastTurn(cells: seq<Cell>, place: Place, sm: Summarizing, r: Subtree, symbol: Symbol, tree: nat,
                 rotated: seq<nat>, moved: seq<nat>, node: nat, n: nat, goal: Subtree)
    requires IsTurning(cells, place, sm, r, symbol, tree, rotated, moved, node, n, goal)
    requires n == 0 || !CanRotateAt(cells, node, symbol)
    ensures ResummarizedSpine(sm, r, |rotated|) == goal
  {
    MayRotate(cells, place, r, tree, rotated, moved, |rotated|, node, symbol);
    NothingLeft(sm, r, symbol, |rotated|, n);
  }

  /** The first loop: rotates down the left spine and stacks the rotated nodes. */
  method RotateNodesDown(pool: SubtreePool, tree: nat, symbol: Symbol, count: nat, ghost sm: Summarizing,
                         ghost place: Place, ghost t: Subtree)
    returns (stack: seq<nat>, ghost r: Subtree, ghost moved: seq<nat>)
    requires pool.Valid() && pool.handles == place.Handles() && IsInPlace(Shown(pool.cells), place, t, tree)
    modifies pool
    ensures pool.Valid() && pool.handles == place.Handles() && Untouched(old(pool.cells), pool.cells, place.others)
    ensures IsInPlace(Shown(pool.cells), place, r, tree) && HasSpine(r, |stack|)
    ensures IsStacked(Shown(pool.cells), place, r, stack, moved)
    ensures ResummarizedSpine(sm, r, |stack|) == CompressTree(sm, t, symbol, count)
  {
    stack, r, moved := [], t, [];
    var node, i := tree, 0;
    ghost var (left, goal, start) := (count, CompressTree(sm, t, symbol, count), pool.cells);
    FirstTurn(pool.cells, pool.rank, place, sm, t, symbol, tree, count);
    while i < count && CanRotateAt(pool.cells, node, symbol)
      invariant pool.Valid() && pool.handles == place.Handles() && Untouched(start, pool.cells, place.others)
      invariant IsTurning(pool.cells, place, sm, r, symbol, tree, stack, moved, node, left, goal)
      invariant i + left == count
    {
      node, stack, r, moved, left :=
        RotateOnce(pool, node, stack, symbol, place, sm, r, tree, moved, left, goal, start);
      i := i + 1;
    }
    LastTurn(pool.cells, place, sm, r, symbol, tree, stack, moved, node, left, goal);
  }

  // ----- ts_subtree__compress: the second loop -----

  /** Summarizes an owned node. */
  method SummarizeOwned(pool: SubtreePool, lang: Language, a: nat, ghost place: Place, ghost w: Subtree, ghost q: Path)
    requires pool.Valid() && pool.handles == place.Handles()
    requires Holds(Shown(pool.cells), Ptr(place.root), w) && ValidPath(w, q) && |At(w, q).children| > 0
    requires OwnedAt(Shown(pool.cells), place.Handles(), place.root, q, a)
    modifies pool
    ensures pool.Valid() && pool.handles == place.Handles() && Untouched(old(pool.cells), pool.cells, place.others)
    ensures Holds(Shown(pool.cells), Ptr(place.root), Put(w, q, Summarized(lang, At(w, q))))
    ensures StillOwned(Shown(old(pool.cells)), Shown(pool.cells), place)
  {
    HeldAtOwned(Shown(pool.cells), place.Handles(), place.root, q, a, w);
    ShownConsistent(pool.cells, pool.handles, pool.rank);
    FieldsWritten(Shown(pool.cells), pool.rank, place, w, q, a, Summarized(lang, At(w, q)));
    SummarizeNode(pool, lang, a, At(w, q));
  }

  lemma OwnedAbove(cells: seq<Cell>, handles: multiset<nat>, root: nat, q: Path, i: nat, x: nat) returns (a: nat)
    requires OwnedAt(cells, handles, root, q + [i], x)
    ensures OwnedAt(cells, handles, root, q, a)
  {
    var spine :| IsSpine(cells, handles, q + [i], spine) && spine[0] == root && spine[|q + [i]|] == x;
    assert Front(q + [i]) == q;
    a := spine[..|q| + 1][|q|];
    assert IsSpine(cells, handles, q, spine[..|q| + 1]) && spine[..|q| + 1][0] == root;
  }

  lemma OwnedOnce(cells: seq<Cell>, handles: multiset<nat>, root: nat, q: Path, a: nat, b: nat)
    requires OwnedAt(cells, handles, root, q, a) && OwnedAt(cells, handles, root, q, b)
    ensures a == b
  {
    var s :| IsSpine(cells, handles, q, s) && s[0] == root && s[|q|] == a;
    var t :| IsSpine(cells, handles, q, t) && t[0] == root && t[|q|] == b;
    RefAtSpine(cells, handles, q, s);
    RefAtSpine(cells, handles, q, t);
  }

  lemma OwnedInSlot(cells: seq<Cell>, handles: multiset<nat>, root: nat, q: Path, a: nat, i: nat, x: nat)
    requires OwnedAt(cells, handles, root, q, a) && OwnedAt(cells, handles, root, q + [i], x)
    ensures HasSlot(cells, a, i, Ptr(x))
  {
    var spine :| IsSpine(cells, handles, q + [i], spine) && spine[0] == root && spine[|q + [i]|] == x;
    assert Front(q + [i]) == q && Back(q + [i]) == i;
    assert IsSpine(cells, handles, q, spine[..|q| + 1]) && spine[..|q| + 1][0] == root;
    OwnedOnce(cells, handles, root, q, a, spine[..|q| + 1][|q|]);
  }

  /** Summarizing the three nodes one by one, in the whole tree. */
  lemma ThreeSummaries(w: Subtree, u: Path, last: nat, lang: Language) returns (w1: Subtree, w2: Subtree)
    requires ValidPath(w, u) && |At(w, u).children| > 0
    requires |First(At(w, u)).children| > 0 && last == |First(At(w, u)).children| - 1
    ensures ValidPath(w, u + [0] + [last]) && At(w, u + [0] + [last]) == Last(First(At(w, u)))
    ensures w1 == Put(w, u + [0] + [last], Summarized(lang, Last(First(At(w, u)))))
    ensures ValidPath(w1, u + [0]) && |At(w1, u + [0]).children| > 0
    ensures w2 == Put(w1, u + [0], Summarized(lang, At(w1, u + [0])))
    ensures ValidPath(w2, u) && |At(w2, u).children| > 0
    ensures Put(w2, u, Summarized(lang, At(w2, u))) == Put(w, u, Resummarized(Summarizer(lang), At(w, u)))
  {
    var (v, z, t) := (u + [0], u + [0] + [last], At(w, u));
    assert Front(v) == u && Front(z) == v;
    ValidSnoc(w, u, 0);
    ValidSnoc(w, v, last);
    var x := SetLast(First(t), Summarized(lang, Last(First(t))));
    w1 := Put(w, z, Summarized(lang, Last(First(t))));
    PutBack(w, z, Summarized(lang, Last(First(t))));
    PutTwice(w, v, x, Summarized(lang, x));
    w2 := Put(w1, v, Summarized(lang, x));
    var y := SetFirst(t, Summarized(lang, x));
    PutBack(w, v, Summarized(lang, x));
    PutTwice(w, u, y, Summarized(lang, y));
  }

  lemma PutTwice(t: Subtree, p: Path, n: Subtree, m: Subtree)
    requires ValidPath(t, p)
    ensures ValidPath(Put(t, p, n), p) && At(Put(t, p, n), p) == n && Put(Put(t, p, n), p, m) == Put(t, p, m)
  {
    assert p + [] == p;
    PutAt(t, p, n, []);
    PutPut(t, p, n, [], m);
  }

  /** The addresses that the second loop reads. */
  lemma MovedAddresses(cells: seq<Cell>, place: Place, w: Subtree, u: Path, last: nat, a: nat, g: nat)
    returns (c: nat)
    requires OwnedAt(cells, place.Handles(), place.root, u, a)
    requires OwnedAt(cells, place.Handles(), place.root, u + [0] + [last], g)
    requires Holds(cells, Ptr(place.root), w) && ValidPath(w, u) && |At(w, u).children| > 0
    requires last == |First(At(w, u)).children| - 1
    ensures HasSlot(cells, a, 0, Ptr(c)) && HasSlot(cells, c, last, Ptr(g)) && last == |cells[c].children| - 1
    ensures OwnedAt(cells, place.Handles(), place.root, u + [0], c)
  {
    c := OwnedAbove(cells, place.Handles(), place.root, u + [0], last, g);
    OwnedInSlot(cells, place.Handles(), place.root, u, a, 0, c);
    OwnedInSlot(cells, place.Handles(), place.root, u + [0], c, last, g);
    ValidSnoc(w, u, 0);
    HeldAtOwned(cells, place.Handles(), place.root, u + [0], c, w);
  }

  /** Summarizes the child that was moved; it has children, like every node that is moved. */
  method SummarizeMovedChild(pool: SubtreePool, lang: Language, g: nat, ghost place: Place, ghost w: Subtree,
                             ghost q: Path)
    requires pool.Valid() && pool.handles == place.Handles()
    requires Holds(Shown(pool.cells), Ptr(place.root), w) && ValidPath(w, q)
    requires OwnedAt(Shown(pool.cells), place.Handles(), place.root, q, g)
    modifies pool
    ensures pool.Valid() && pool.handles == place.Handles() && Untouched(old(pool.cells), pool.cells, place.others)
    ensures Holds(Shown(pool.cells), Ptr(place.root), Put(w, q, Summarized(lang, At(w, q))))
    ensures StillOwned(Shown(old(pool.cells)), Shown(pool.cells), place)
  {
    HeldAtOwned(Shown(pool.cells), place.Handles(), place.root, q, g, w);
    if |pool.cells[g].children| > 0 {
      SummarizeOwned(pool, lang, g, place, w, q);
    } else {
      PutSame(w, q);
      UntouchedAtFirst(pool.cells, pool.rank, place);
    }
  }

  /** Child and tree, after the grandchild. */
  method SummarizeChain(pool: SubtreePool, lang: Language, a: nat, c: nat, ghost place: Place, ghost w: Subtree,
                        ghost u: Path)
    requires pool.Valid() && pool.handles == place.Handles()
    requires Holds(Shown(pool.cells), Ptr(place.root), w) && ValidPath(w, u + [0]) && |At(w, u + [0]).children| > 0
    requires var n := Put(w, u + [0], Summarized(lang, At(w, u + [0]))); ValidPath(n, u) && |At(n, u).children| > 0
    requires OwnedAt(Shown(pool.cells), place.Handles(), place.root, u, a)
    requires OwnedAt(Shown(pool.cells), place.Handles(), place.root, u + [0], c)
    modifies pool
    ensures pool.Valid() && pool.handles == place.Handles() && Untouched(old(pool.cells), pool.cells, place.others)
    ensures var n := Put(w, u + [0], Summarized(lang, At(w, u + [0])));
            Holds(Shown(pool.cells), Ptr(place.root), Put(n, u, Summarized(lang, At(n, u))))
    ensures StillOwned(Shown(old(pool.cells)), Shown(pool.cells), place)
  {
    ghost var n := Put(w, u + [0], Summarized(lang, At(w, u + [0])));
    SummarizeOwned(pool, lang, c, place, w, u + [0]);
    ghost var cells := pool.cells;
    SummarizeOwned(pool, lang, a, place, n, u);
    UntouchedTwice(old(pool.cells), cells, pool.cells, place.others);
  }

  lemma ReadMoved(cells: seq<Cell>, a: nat, c: nat, last: nat, g: nat)
    requires HasSlot(Shown(cells), a, 0, Ptr(c)) && HasSlot(Shown(cells), c, last, Ptr(g))
    requires last == |Shown(cells)[c].children| - 1
    ensures HasSlot(cells, a, 0, Ptr(c)) && HasSlot(cells, c, last, Ptr(g)) && last == |cells[c].children| - 1
  {
  }

  /** Summarizes the grandchild, the child and the tree that a rotation has moved. */
  method SummarizeThree(pool: SubtreePool, lang: Language, a: nat, ghost place: Place, ghost w: Subtree, ghost u: Path,
                        ghost last: nat, ghost g: nat)
    requires pool.Valid() && pool.handles == place.Handles()
    requires Holds(Shown(pool.cells), Ptr(place.root), w) && ValidPath(w, u) && |At(w, u).children| > 0
    requires |First(At(w, u)).children| > 0 && last == |First(At(w, u)).children| - 1
    requires OwnedAt(Shown(pool.cells), place.Handles(), place.root, u, a)
    requires OwnedAt(Shown(pool.cells), place.Handles(), place.root, u + [0] + [last], g)
    modifies pool
    ensures pool.Valid() && pool.handles == place.Handles() && Untouched(old(pool.cells), pool.cells, place.others)
    ensures Holds(Shown(pool.cells), Ptr(place.root), Put(w, u, Resummarized(Summarizer(lang), At(w, u))))
    ensures StillOwned(Shown(old(pool.cells)), Shown(pool.cells), place)
  {
    ghost var c := MovedAddresses(Shown(pool.cells), place, w, u, last, a, g);
    ReadMoved(pool.cells, a, c, last, g);
    var child := pool.cells[a].children[0].address;
    var grandchild := pool.cells[child].children[|pool.cells[child].children| - 1].address;
    ghost var w1, w2 := ThreeSummaries(w, u, last, lang);
    SummarizeMovedChild(pool, lang, grandchild, place, w, u + [0] + [last]);
    ghost var cells := pool.cells;
    SummarizeChain(pool, lang, a, child, place, w1, u);
    UntouchedTwice(old(pool.cells), cells, pool.cells, place.others);
  }

  /** The state of the second loop. */
  ghost predicate IsSummarizing(cells: seq<Cell>, place: Place, sm: Summarizing, r: Subtree, tree: nat,
                                rotated: seq<nat>, moved: seq<nat>, goal: Subtree)
  {
    && IsInPlace(Shown(cells), place, r, tree) && HasSpine(r, |rotated|)
    && IsStacked(Shown(cells), place, r, rotated, moved) && ResummarizedSpine(sm, r, |rotated|) == goal
  }

  lemma SpineAbove(r: Subtree, k: nat, below: nat)
    requires below == k + 1 && HasSpine(r, below)
    ensures HasSpine(r, k) && |SpineAt(r, k).children| > 0 && SpineAt(r, below) == First(SpineAt(r, k))
  {
    SpineWidths(r, below, SpineAt(r, below), k);
    SpineBelow(r, k);
  }

  lemma MovedAt(path: Path, r: Subtree, k: nat, below: nat, u: Path, last: nat)
    requires below == k + 1 && HasSpine(r, k + 1) && |SpineAt(r, k + 1).children| > 0 && u == path + Zeros(k)
    requires last == |SpineAt(r, below).children| - 1
    ensures MovedPath(path, r, k) == u + [0] + [last]
  {
    assert u + [0] == path + Zeros(below);
  }

  /** What is on top of the stack. */
  lemma TopRotated(cells: seq<Cell>, place: Place, sm: Summarizing, r: Subtree, tree: nat, rotated: seq<nat>,
                   moved: seq<nat>, goal: Subtree, k: nat, below: nat, w: Subtree, u: Path)
    returns (last: nat)
    requires IsSummarizing(cells, place, sm, r, tree, rotated, moved, goal) && |rotated| == below == k + 1
    requires w == Put(place.whole, place.path, r) && u == place.path + Zeros(k)
    ensures HasSpine(r, k) && ValidPath(w, u) && At(w, u) == SpineAt(r, k)
    ensures |At(w, u).children| > 0 && |First(At(w, u)).children| > 0 && last == |First(At(w, u)).children| - 1
    ensures OwnedAt(Shown(cells), place.Handles(), place.root, u, rotated[k])
    ensures OwnedAt(Shown(cells), place.Handles(), place.root, u + [0] + [last], moved[k])
  {
    assert IsMoved(Shown(cells), place, r, k, rotated[k], moved[k]);
    SpineAbove(r, k, below);
    SpineInPlace(place.whole, place.path, r, k, r);
    last := |SpineAt(r, below).children| - 1;
    MovedAt(place.path, r, k, below, u, last);
  }

  lemma StackShorter(cells: seq<Cell>, place: Place, r: Subtree, rotated: seq<nat>, moved: seq<nat>, k: nat)
    requires IsStacked(cells, place, r, rotated, moved) && k <= |rotated|
    ensures IsStacked(cells, place, r, rotated[..k], moved[..k])
  {
    forall j | 0 <= j < k
      ensures IsMoved(cells, place, r, j, rotated[..k][j], moved[..k][j])
    {
      assert IsMoved(cells, place, r, j, rotated[j], moved[j]);
    }
  }

  /** What is left on the stack. */
  lemma RestRotated(before: seq<Cell>, after: seq<Cell>, place: Place, sm: Summarizing, r: Subtree, tree: nat,
                    rotated: seq<nat>, moved: seq<nat>, goal: Subtree, k: nat, w: Subtree, u: Path)
    returns (r': Subtree)
    requires IsSummarizing(before, place, sm, r, tree, rotated, moved, goal) && |rotated| == k + 1
    requires w == Put(place.whole, place.path, r) && u == place.path + Zeros(k)
    requires HasSpine(r, k) && ValidPath(w, u) && At(w, u) == SpineAt(r, k)
    requires Holds(Shown(after), Ptr(place.root), Put(w, u, Resummarized(sm, At(w, u))))
    requires StillOwned(Shown(before), Shown(after), place) && KeepsText(sm)
    ensures IsSummarizing(after, place, sm, r', tree, rotated[..k], moved[..k], goal)
  {
    var m := Resummarized(sm, SpineAt(r, k));
    r' := SpinePut(r, k, m);
    SummarizeStep(sm, r, k);
    ResummarizedKeepsText(sm, SpineAt(r, k));
    SpineInPlace(place.whole, place.path, r, k, m);
    SpineAfterPut(r, k, m);
    StackShorter(Shown(before), place, r, rotated, moved, k);
    AllStillMoved(Shown(before), Shown(after), place, r, m, u, k, rotated[..k], moved[..k]);
  }

  /** One turn of the second loop. */
  method SummarizeTop(pool: SubtreePool, lang: Language, stack: seq<nat>, ghost place: Place, ghost r: Subtree,
                      ghost tree: nat, ghost moved: seq<nat>, ghost goal: Subtree)
    returns (rest: seq<nat>, ghost r': Subtree, ghost moved': seq<nat>)
    requires pool.Valid() && pool.handles == place.Handles() && |stack| > 0
    requires IsSummarizing(pool.cells, place, Summarizer(lang), r, tree, stack, moved, goal)
    modifies pool
    ensures pool.Valid() && pool.handles == place.Handles() && Untouched(old(pool.cells), pool.cells, place.others)
    ensures |rest| == |stack| - 1
    ensures IsSummarizing(pool.cells, place, Summarizer(lang), r', tree, rest, moved', goal)
  {
    ghost var (before, k) := (pool.cells, |stack| - 1);
    ghost var (w, u) := (Put(place.whole, place.path, r), place.path + Zeros(k));
    ghost var last := TopRotated(before, place, Summarizer(lang), r, tree, stack, moved, goal, k, |stack|, w, u);
    SummarizeThree(pool, lang, stack[|stack| - 1], place, w, u, last, moved[k]);
    SummarizerKeepsText(lang);
    r' := RestRotated(before, pool.cells, place, Summarizer(lang), r, tree, stack, moved, goal, k, w, u);
    rest, moved' := stack[..|stack| - 1], moved[..k];
  }

  /** ts_subtree__compress. */
  method CompressNodes(pool: SubtreePool, lang: Language, tree: nat, count: nat, ghost place: Place, ghost t: Subtree)
    returns (ghost r: Subtree)
    requires pool.Valid() && pool.handles == place.Handles() && IsInPlace(Shown(pool.cells), place, t, tree)
    modifies pool
    ensures pool.Valid() && pool.handles == place.Handles() && Untouched(old(pool.cells), pool.cells, place.others)
    ensures r == CompressTree(Summarizer(lang), t, t.head.symbol, count) && IsInPlace(Shown(pool.cells), place, r, tree)
  {
    ghost var (start, goal) := (pool.cells, CompressTree(Summarizer(lang), t, t.head.symbol, count));
    TreeHeld(pool.cells, place, t, tree);
    var symbol := pool.cells[tree].fields.head.symbol;
    var stack;
    ghost var moved;
    stack, r, moved := RotateNodesDown(pool, tree, symbol, count, Summarizer(lang), place, t);
    while |stack| > 0
      invariant pool.Valid() && pool.handles == place.Handles() && Untouched(start, pool.cells, place.others)
      invariant IsSummarizing(pool.cells, place, Summarizer(lang), r, tree, stack, moved, goal)
      decreases |stack|
    {
      ghost var cells := pool.cells;
      stack, r, moved := SummarizeTop(pool, lang, stack, place, r, tree, moved, goal);
      UntouchedTwice(start, cells, pool.cells, place.others);
    }
  }

  lemma TreeHeld(cells: seq<Cell>, place: Place, t: Subtree, tree: nat)
    requires IsInPlace(Shown(cells), place, t, tree)
    ensures Holds(Shown(cells), Ptr(tree), t) && IsLive(cells, tree) && IsExclusive(Shown(cells), tree)
    ensures cells[tree].fields.head.symbol == t.head.symbol && cells[tree].fields.repeatDepth == t.repeatDepth
    ensures |cells[tree].children| == |t.children|
  {
    var w := Put(place.whole, place.path, t);
    PutTwice(place.whole, place.path, t, t);
    HeldAtOwned(Shown(cells), place.Handles(), place.root, place.path, tree, w);
    assert Shown(cells)[tree] == ShownCell(cells[tree]);
  }

  // ----- ts_subtree_balance -----

  lemma HalvedOnce(sm: Summarizing, t: Subtree, i: nat, half: nat)
    requires i > 0 && half == i / 2
    ensures HalveTree(sm, t, i) == HalveTree(sm, CompressTree(sm, t, t.head.symbol, i), half)
  {
  }

  /** One turn of the halving loop. */
  method HalveOnce(pool: SubtreePool, lang: Language, tree: nat, i: nat, ghost place: Place, ghost t: Subtree,
                   ghost start: seq<Cell>)
    returns (half: nat, ghost r: Subtree)
    requires pool.Valid() && pool.handles == place.Handles() && Untouched(start, pool.cells, place.others) && i > 0
    requires IsInPlace(Shown(pool.cells), place, t, tree)
    modifies pool
    ensures pool.Valid() && pool.handles == place.Handles() && Untouched(start, pool.cells, place.others) && half < i
    ensures IsInPlace(Shown(pool.cells), place, r, tree)
    ensures HalveTree(Summarizer(lang), r, half) == HalveTree(Summarizer(lang), t, i)
  {
    ghost var cells := pool.cells;
    r := CompressNodes(pool, lang, tree, i, place, t);
    half := i / 2;
    UntouchedTwice(start, cells, pool.cells, place.others);
    HalvedOnce(Summarizer(lang), t, i, half);
  }

  /** The halving loop, from half of the difference in depth. */
  method HalveNodes(pool: SubtreePool, lang: Language, tree: nat, half: nat, ghost place: Place, ghost t: Subtree)
    returns (ghost r: Subtree)
    requires pool.Valid() && pool.handles == place.Handles() && IsInPlace(Shown(pool.cells), place, t, tree)
    modifies pool
    ensures pool.Valid() && pool.handles == place.Handles() && Untouched(old(pool.cells), pool.cells, place.others)
    ensures r == HalveTree(Summarizer(lang), t, half) && IsInPlace(Shown(pool.cells), place, r, tree)
  {
    var i: nat := half;
    ghost var (start, goal) := (pool.cells, HalveTree(Summarizer(lang), t, half));
    UntouchedAtFirst(pool.cells, pool.rank, place);
    r := t;
    while i > 0
      invariant pool.Valid() && pool.handles == place.Handles() && Untouched(start, pool.cells, place.others)
      invariant i >= 0 && IsInPlace(Shown(pool.cells), place, r, tree) && HalveTree(Summarizer(lang), r, i) == goal
      decreases i
    {
      i, r := HalveOnce(pool, lang, tree, i, place, r, start);
    }
  }

  lemma RepeatDepthsHeld(cells: seq<Cell>, place: Place, t: Subtree, tree: nat)
    requires IsInPlace(Shown(cells), place, t, tree) && |t.children| > 0
    ensures IsLive(cells, tree) && AllLive(cells, cells[tree].children)
    ensures var v := NodeView(cells, tree);
            && v.repeatDepth == t.repeatDepth && |v.children| > 0
            && First(v).repeatDepth == First(t).repeatDepth && Last(v).repeatDepth == Last(t).repeatDepth
  {
    TreeHeld(cells, place, t, tree);
    NodeViewHeld(cells, tree, t);
    var v := NodeView(cells, tree);
    assert IsViewOf(First(v), First(t)) && IsViewOf(Last(v), Last(t));
  }

  lemma RebalancedBy(sm: Summarizing, t: Subtree, delta: int, half: int)
    requires |t.children| > 0 && delta == RepeatDelta(t) && half == delta / 2
    ensures t.repeatDepth > 0 && delta > 0 ==> half >= 0 && Rebalanced(sm, t) == HalveTree(sm, t, half)
    ensures !(t.repeatDepth > 0 && delta > 0) ==> Rebalanced(sm, t) == t
  {
  }

  /** The rotations on one popped node. */
  method RebalanceNode(pool: SubtreePool, lang: Language, tree: nat, ghost place: Place, ghost t: Subtree)
    returns (ghost r: Subtree)
    requires pool.Valid() && pool.handles == place.Handles() && IsInPlace(Shown(pool.cells), place, t, tree)
    requires |t.children| > 0
    modifies pool
    ensures pool.Valid() && pool.handles == place.Handles() && Untouched(old(pool.cells), pool.cells, place.others)
    ensures r == Rebalanced(Summarizer(lang), t) && IsInPlace(Shown(pool.cells), place, r, tree)
  {
    RepeatDepthsHeld(pool.cells, place, t, tree);
    var node := NodeView(pool.cells, tree);
    var repeatDelta := First(node).repeatDepth - Last(node).repeatDepth;
    var half := repeatDelta / 2;
    RebalancedBy(Summarizer(lang), t, repeatDelta, half);
    if node.repeatDepth > 0 && repeatDelta > 0 {
      r := HalveNodes(pool, lang, tree, half, place, t);
      return;
    }
    UntouchedAtFirst(pool.cells, pool.rank, place);
    r := t;
  }

  predicate IsVisitedAt(cells: seq<Cell>, r: Ref) {
    r.Ptr? && IsLive(cells, r.address) && |cells[r.address].children| > 0 && cells[r.address].refCount == 1
  }

  lemma VisitedHeld(cells: seq<Cell>, r: Ref, t: Subtree)
    requires Holds(Shown(cells), r, t)
    ensures IsVisitedAt(cells, r) <==> IsVisited(t)
  {
    if r.Ptr? {
      assert Shown(cells)[r.address] == ShownCell(cells[r.address]);
    }
  }

  lemma PushedOwned(cells: seq<Cell>, handles: multiset<nat>, root: nat, p: Path, a: nat, i: nat,
                    entries: seq<Entry<()>>, stack: seq<nat>)
    requires AllOwned(Shown(cells), handles, root, entries, stack) && OwnedAt(Shown(cells), handles, root, p, a)
    requires IsLive(cells, a) && i < |cells[a].children| && IsVisitedAt(cells, cells[a].children[i])
    ensures AllOwned(Shown(cells), handles, root, entries + [Entry(p + [i], ())],
                     stack + [cells[a].children[i].address])
  {
    var (all, more) := (entries + [Entry(p + [i], ())], stack + [cells[a].children[i].address]);
    OwnedBelow(Shown(cells), handles, root, p, a, i, cells[a].children[i].address);
    forall k | 0 <= k < |more|
      ensures OwnedAt(Shown(cells), handles, root, all[k].tree, more[k])
    {
      if k < |stack| {
        assert OwnedAt(Shown(cells), handles, root, entries[k].tree, stack[k]);
      }
    }
  }

  /** Stacks the children that are visited next. */
  method PushVisitedNodes(cells: seq<Cell>, stack: seq<nat>, tree: nat, ghost handles: multiset<nat>, ghost root: nat,
                          ghost p: Path, ghost m: Subtree, ghost entries: seq<Entry<()>>)
    returns (r: seq<nat>)
    requires AllOwned(Shown(cells), handles, root, entries, stack) && OwnedAt(Shown(cells), handles, root, p, tree)
    requires Holds(Shown(cells), Ptr(tree), m)
    ensures AllOwned(Shown(cells), handles, root, entries + Entries(p, Visits(m.children)), r)
  {
    r := stack;
    ghost var plan := Visits(m.children);
    var refs := cells[tree].children;
    assert entries + Entries(p, plan[..0]) == entries;
    for i := 0 to |refs|
      invariant AllOwned(Shown(cells), handles, root, entries + Entries(p, plan[..i]), r)
    {
      assert plan[..i + 1][..i] == plan[..i];
      assert HoldAll(Shown(cells), refs, m) && Holds(Shown(cells), refs[i], m.children[i]);
      VisitedHeld(cells, refs[i], m.children[i]);
      if IsVisitedAt(cells, refs[i]) {
        PushedOwned(cells, handles, root, p, tree, i, entries + Entries(p, plan[..i]), r);
        assert entries + Entries(p, plan[..i + 1]) == entries + Entries(p, plan[..i]) + [Entry(p + [i], ())];
        r := r + [refs[i].address];
      } else {
        assert entries + Entries(p, plan[..i + 1]) == entries + Entries(p, plan[..i]);
      }
    }
    assert plan[..|plan|] == plan;
  }

  /** The state of the worklist: t is the tree so far, and finishing the stack makes it the goal. */
  ghost predicate IsBalancing(cells: seq<Cell>, handles: multiset<nat>, root: nat, t: Subtree,
                              entries: seq<Entry<()>>, stack: seq<nat>, lang: Language, goal: Subtree)
  {
    && Holds(Shown(cells), Ptr(root), t) && AllOwned(Shown(cells), handles, root, entries, stack)
    && Ready(t, entries) && Finish(Balancer(lang), t, entries) == goal
    && forall i | 0 <= i < |entries| :: |At(t, entries[i].tree).children| > 0
  }

  /** The top of the stack and what is below it. */
  ghost predicate IsTop(stack: seq<nat>, entries: seq<Entry<()>>, rest: seq<nat>, tree: nat, left: seq<Entry<()>>,
                        entry: Entry<()>)
  {
    stack == rest + [tree] && entries == left + [entry] && |rest| == |left|
  }

  lemma TopInPlace(cells: seq<Cell>, place: Place, t: Subtree, entries: seq<Entry<()>>, entry: Entry<()>,
                   stack: seq<nat>, tree: nat, lang: Language, goal: Subtree)
    requires IsBalancing(cells, place.Handles(), place.root, t, entries, stack, lang, goal)
    requires IsTop(stack, entries, place.stack, tree, place.entries, entry)
    requires place.whole == t && place.path == entry.tree
    ensures ValidPath(t, entry.tree) && |At(t, entry.tree).children| > 0
    ensures IsInPlace(Shown(cells), place, At(t, entry.tree), tree)
  {
    var k := |place.entries|;
    assert entries[k] == entry && stack[k] == tree && entries[..k] == place.entries;
    PutSame(t, entry.tree);
    TopApart(t, entries);
    forall i | 0 <= i < k
      ensures Apart(entry.tree, place.entries[i].tree)
      ensures OwnedAt(Shown(cells), place.Handles(), place.root, place.entries[i].tree, place.stack[i])
    {
      assert entries[i] == place.entries[i] && stack[i] == place.stack[i];
    }
  }

  /** The same turn on the tree as a value. */
  lemma TurnOfValue(t: Subtree, left: seq<Entry<()>>, entry: Entry<()>, entries: seq<Entry<()>>, lang: Language,
                    goal: Subtree, r: Subtree, next: Subtree, pushed: seq<Entry<()>>)
    requires entries == left + [entry] && Ready(t, entries) && ValidPath(t, entry.tree)
    requires Finish(Balancer(lang), t, entries) == goal
    requires forall i | 0 <= i < |entries| :: |At(t, entries[i].tree).children| > 0
    requires r == Rebalanced(Summarizer(lang), At(t, entry.tree))
    requires next == Put(t, entry.tree, r) && pushed == left + Entries(entry.tree, Visits(r.children))
    ensures Ready(next, pushed) && Finish(Balancer(lang), next, pushed) == goal
    ensures forall i | 0 <= i < |pushed| :: |At(next, pushed[i].tree).children| > 0
    ensures WorkLeft(next, pushed) < WorkLeft(t, entries)
  {
    var plan := Visits(r.children);
    assert forall i | 0 <= i < |left| :: left[i] == entries[i];
    BalanceByChildren(lang, At(t, entry.tree));
    RebalancedKeepsText(lang, At(t, entry.tree));
    Processed(Balancer(lang), t, left, entry, r, plan);
    StillInterior(t, left, entry, r, plan);
  }

  /** One turn of the worklist: balances the popped node and stacks its children. */
  method BalanceNode(pool: SubtreePool, lang: Language, rest: seq<nat>, tree: nat, ghost place: Place,
                     ghost t: Subtree, ghost stack: seq<nat>, ghost entries: seq<Entry<()>>, ghost entry: Entry<()>,
                     ghost goal: Subtree, ghost start: seq<Cell>)
    returns (pushed: seq<nat>, ghost next: Subtree, ghost nextEntries: seq<Entry<()>>)
    requires pool.Valid() && pool.handles == place.Handles() && Untouched(start, pool.cells, place.others)
    requires IsBalancing(pool.cells, place.Handles(), place.root, t, entries, stack, lang, goal)
    requires IsTop(stack, entries, place.stack, tree, place.entries, entry) && rest == place.stack
    requires place.whole == t && place.path == entry.tree
    modifies pool
    ensures pool.Valid() && pool.handles == place.Handles() && Untouched(start, pool.cells, place.others)
    ensures IsBalancing(pool.cells, place.Handles(), place.root, next, nextEntries, pushed, lang, goal)
    ensures WorkLeft(next, nextEntries) < WorkLeft(t, entries)
  {
    TopInPlace(pool.cells, place, t, entries, entry, stack, tree, lang, goal);
    ghost var cells := pool.cells;
    ghost var r := RebalanceNode(pool, lang, tree, place, At(t, entry.tree));
    UntouchedTwice(start, cells, pool.cells, place.others);
    TreeHeld(pool.cells, place, r, tree);
    pushed := PushVisitedNodes(pool.cells, rest, tree, place.Handles(), place.root, entry.tree, r, place.entries);
    next, nextEntries := Put(t, entry.tree, r), place.entries + Entries(entry.tree, Visits(r.children));
    TurnOfValue(t, place.entries, entry, entries, lang, goal, r, next, nextEntries);
  }

  lemma SplitStack(cells: seq<Cell>, handles: multiset<nat>, root: nat, t: Subtree, entries: seq<Entry<()>>,
                   stack: seq<nat>, lang: Language, goal: Subtree)
    requires IsBalancing(cells, handles, root, t, entries, stack, lang, goal) && |stack| > 0
    ensures |entries| == |stack|
    ensures var k := |stack| - 1; IsTop(stack, entries, stack[..k], stack[k], entries[..k], entries[k])
  {
  }

  lemma StartOfBalancing(cells: seq<Cell>, others: multiset<nat>, rank: seq<nat>, root: nat, t: Subtree,
                         lang: Language)
    requires IsConsistent(cells, others + multiset{root}, rank) && Holds(Shown(cells), Ptr(root), t) && IsVisited(t)
    ensures IsBalancing(cells, others + multiset{root}, root, t, [Entry([], ())], [root], lang, BalanceTree(lang, t))
    ensures Untouched(cells, cells, others)
  {
    var (handles, stack) := (others + multiset{root}, [Entry([], ())]);
    UntouchedAtFirst(cells, rank, Place(root, others, t, [], [], []));
    assert Shown(cells)[root] == ShownCell(cells[root]) && root in handles;
    assert IsSpine(Shown(cells), handles, [], [root]);
    assert OwnedAt(Shown(cells), handles, root, [], root);
    assert stack[..0] == [];
    assert Ready(BalanceTree(lang, t), stack[..0]);
  }

  /** The worklist, from a root with children and a count of one. */
  method BalanceBelow(pool: SubtreePool, lang: Language, self: nat, ghost others: multiset<nat>, ghost t: Subtree)
    requires pool.Valid() && pool.handles == others + multiset{self}
    requires Holds(Shown(pool.cells), Ptr(self), t) && IsVisited(t)
    modifies pool
    ensures pool.Valid() && pool.handles == others + multiset{self} && Untouched(old(pool.cells), pool.cells, others)
    ensures Holds(Shown(pool.cells), Ptr(self), BalanceTree(lang, t))
  {
    var stack := [self];
    ghost var (start, goal, now, entries) := (pool.cells, BalanceTree(lang, t), t, [Entry([], ())]);
    StartOfBalancing(pool.cells, others, pool.rank, self, t, lang);
    while |stack| > 0
      invariant pool.Valid() && pool.handles == others + multiset{self} && Untouched(start, pool.cells, others)
      invariant IsBalancing(pool.cells, pool.handles, self, now, entries, stack, lang, goal)
      decreases WorkLeft(now, entries)
    {
      SplitStack(pool.cells, pool.handles, self, now, entries, stack, lang, goal);
      ghost var (left, entry) := (entries[..|stack| - 1], entries[|stack| - 1]);
      var tree, rest := stack[|stack| - 1], stack[..|stack| - 1];
      ghost var place := Place(self, others, now, entry.tree, left, rest);
      stack, now, entries := BalanceNode(pool, lang, rest, tree, place, now, stack, entries, entry, goal, start);
    }
  }

  /** ts_subtree_balance.  Balances the tree behind a reference in place; whatever other handles lead to is as it was,
      and no count changes. */
  method BalanceShared(pool: SubtreePool, lang: Language, self: Ref, ghost t: Subtree)
    requires pool.Valid() && (self.Ptr? ==> self.address in pool.handles) && Holds(Shown(pool.cells), self, t)
    modifies pool
    ensures pool.Valid() && pool.handles == old(pool.handles)
    ensures Holds(Shown(pool.cells), self, Balanced(lang, t))
    ensures IsKept(old(pool.cells), pool.cells, old(pool.handles) - HandleOf(self))
    ensures HeadsKept(old(pool.cells), pool.cells)
  {
    VisitedHeld(pool.cells, self, t);
    ghost var others := pool.handles - HandleOf(self);
    if IsVisitedAt(pool.cells, self) {
      assert pool.handles == others + multiset{self.address};
      BalanceBelow(pool, lang, self.address, others, t);
      UntouchedIsKept(old(pool.cells), pool.cells, others);
    } else {
      NothingChanged(pool.cells, pool.handles, others);
    }
  }

  /** Balancing one of two trees that share nodes keeps the text and the meaning of the one and leaves the other one
      alone. */
  method BalanceOneOfTwo(pool: SubtreePool, lang: Language, self: Ref, other: nat, ghost repeats: set<Symbol>,
                         ghost t: Subtree, ghost u: Subtree)
    returns (ghost r: Subtree)
    requires pool.Valid() && (self.Ptr? ==> self.address in pool.handles) && Holds(Shown(pool.cells), self, t)
    requires Sound(repeats, lang, t)
    requires other in pool.handles - HandleOf(self) && Holds(pool.cells, Ptr(other), u)
    modifies pool
    ensures pool.Valid() && pool.handles == old(pool.handles)
    ensures Holds(Shown(pool.cells), self, r) && SameText(r, t) && r.sum == t.sum && Sound(repeats, lang, r)
    ensures Holds(pool.cells, Ptr(other), u)
  {
    ghost var (before, others) := (pool.cells, pool.handles - HandleOf(self));
    BalanceShared(pool, lang, self, t);
    OtherTreesKept(before, pool.cells, others, other, u);
    BalanceKeepsMeaning(repeats, lang, t);
    r := Balanced(lang, t);
  }
}
