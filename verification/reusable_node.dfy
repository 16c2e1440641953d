/** The walk over an old tree that offers its nodes for reuse (reusable_node.h, subtree.c). */
module ReusableNodes {
  import opened Options
  import opened Lengths
  import opened Subtrees
  import opened Summaries

  // ----- The leaves before a node -----

  function LeavesUpTo(t: Subtree, k: nat): seq<Subtree>
    requires k <= |t.children|
  {
    if k == 0 then [] else LeavesUpTo(t, k - 1) + Leaves(t.children[k - 1])
  }

  /** The leaves to the left of the node at p. */
  function LeavesBefore(t: Subtree, p: Path): seq<Subtree>
    requires ValidPath(t, p)
    decreases p
  {
    if p == [] then [] else LeavesUpTo(t, p[0]) + LeavesBefore(t.children[p[0]], p[1..])
  }

  function LeafBytes(ls: seq<Subtree>): nat {
    if ls == [] then 0 else LeafBytes(ls[..|ls| - 1]) + ls[|ls| - 1].TotalBytes()
  }

  function LastExternal(ls: seq<Subtree>): Option<Subtree> {
    if ls == [] then None
    else if ls[|ls| - 1].sum.hasExternalTokens then Some(ls[|ls| - 1])
    else LastExternal(ls[..|ls| - 1])
  }

  lemma {:induction false} LeafBytesConcat(a: seq<Subtree>, b: seq<Subtree>)
    ensures LeafBytes(a + b) == LeafBytes(a) + LeafBytes(b)
  {
    if b == [] {
      assert a + b == a;
    } else {
      LeafBytesConcat(a, b[..|b| - 1]);
      assert (a + b)[..|a + b| - 1] == a + b[..|b| - 1];
    }
  }

  lemma {:induction false} LastExternalConcat(a: seq<Subtree>, b: seq<Subtree>)
    ensures LastExternal(a + b) == if LastExternal(b) == None then LastExternal(a) else LastExternal(b)
  {
    if b == [] {
      assert a + b == a;
    } else {
      LastExternalConcat(a, b[..|b| - 1]);
      assert (a + b)[..|a + b| - 1] == a + b[..|b| - 1];
    }
  }

  lemma {:induction false} LeavesUpToAll(t: Subtree, k: nat)
    requires k <= |t.children|
    ensures LeavesUpTo(t, k) == LeavesOf(t.children[..k])
  {
    if k == 0 {
    } else {
      LeavesUpToAll(t, k - 1);
      assert t.children[..k][..k - 1] == t.children[..k - 1];
    }
  }

  lemma AllLeaves(t: Subtree)
    requires |t.children| > 0
    ensures LeavesUpTo(t, |t.children|) == Leaves(t)
  {
    LeavesUpToAll(t, |t.children|);
    assert t.children[..|t.children|] == t.children;
  }

  lemma {:induction false} BeforeSnoc(t: Subtree, p: Path, i: nat)
    requires ValidPath(t, p) && i < |At(t, p).children|
    ensures ValidPath(t, p + [i]) && At(t, p + [i]) == At(t, p).children[i]
    ensures LeavesBefore(t, p + [i]) == LeavesBefore(t, p) + LeavesUpTo(At(t, p), i)
    ensures LeftEdge(t, p + [i]) == LeftEdge(t, p) + Left(At(t, p).children, i)
    decreases p
  {
    var q := p + [i];
    if p == [] {
      assert q[1..] == [];
      assert LeavesBefore(t, q) == LeavesUpTo(t, i) + [] == LeavesUpTo(t, i);
    } else {
      assert q[1..] == p[1..] + [i];
      BeforeSnoc(t.children[p[0]], p[1..], i);
    }
  }

  /** The text of a tree is the text of its leaves. */
  lemma {:induction false} BytesOfLeaves(t: Subtree)
    requires Layout(t)
    ensures LeafBytes(Leaves(t)) == t.TotalBytes()
    decreases t, 1
  {
    if |t.children| == 0 {
      assert Leaves(t)[..0] == [];
    } else {
      BytesUpTo(t, |t.children|);
      AllLeaves(t);
    }
  }

  lemma {:induction false} BytesUpTo(t: Subtree, k: nat)
    requires Layout(t) && k <= |t.children|
    ensures LeafBytes(LeavesUpTo(t, k)) == Left(t.children, k)
    decreases t, 0, k
  {
    if k == 0 {
    } else {
      BytesUpTo(t, k - 1);
      BytesOfLeaves(t.children[k - 1]);
      LeafBytesConcat(LeavesUpTo(t, k - 1), Leaves(t.children[k - 1]));
    }
  }

  /** A node's left edge is the text before it. */
  lemma {:induction false} BytesBefore(t: Subtree, p: Path)
    requires Layout(t) && ValidPath(t, p)
    ensures LeafBytes(LeavesBefore(t, p)) == LeftEdge(t, p)
    decreases p
  {
    if p == [] {
    } else {
      BytesUpTo(t, p[0]);
      BytesBefore(t.children[p[0]], p[1..]);
      LeafBytesConcat(LeavesUpTo(t, p[0]), LeavesBefore(t.children[p[0]], p[1..]));
    }
  }

  lemma {:induction false} UpToIsPrefix(t: Subtree, k: nat, n: nat)
    requires k <= n <= |t.children|
    ensures LeavesUpTo(t, k) <= LeavesUpTo(t, n)
  {
    if k >= n {
    } else {
      UpToIsPrefix(t, k, n - 1);
    }
  }

  /** The leaves of a node come right after the leaves before it. */
  lemma {:induction false} LeavesInOrder(t: Subtree, p: Path)
    requires ValidPath(t, p)
    ensures LeavesBefore(t, p) + Leaves(At(t, p)) <= Leaves(t)
    decreases p
  {
    if p == [] {
      assert LeavesBefore(t, p) + Leaves(t) == Leaves(t);
    } else {
      var c := t.children[p[0]];
      LeavesInOrder(c, p[1..]);
      UpToIsPrefix(t, p[0] + 1, |t.children|);
      AllLeaves(t);
      assert LeavesBefore(t, p) + Leaves(At(t, p))
             == LeavesUpTo(t, p[0]) + (LeavesBefore(c, p[1..]) + Leaves(At(t, p)));
    }
  }

  lemma {:induction false} SomeLeaf(t: Subtree)
    ensures Leaves(t) != []
    decreases t
  {
    if |t.children| == 0 {
    } else {
      SomeLeaf(t.children[|t.children| - 1]);
    }
  }

  // ----- External tokens -----

  predicate AnyExternal(cs: seq<Subtree>, k: nat)
    requires k <= |cs|
  {
    k > 0 && (AnyExternal(cs, k - 1) || cs[k - 1].sum.hasExternalTokens)
  }

  /** Every interior node is flagged exactly if one of its children is. */
  predicate ExternalsMarked(t: Subtree) {
    && (|t.children| > 0 ==> (t.sum.hasExternalTokens <==> AnyExternal(t.children, |t.children|)))
    && forall i | 0 <= i < |t.children| :: ExternalsMarked(t.children[i])
  }

  lemma {:induction false} ProductExternal(lang: Language, t: Subtree, k: nat)
    requires 0 < k <= |t.children|
    ensures Product(lang, t, k).external <==> AnyExternal(t.children, k)
  {
    if k > 1 {
      ProductExternal(lang, t, k - 1);
    } else {
      assert Product(lang, t, 0) == Nothing;
    }
  }

  lemma {:induction false} SummariesMarkExternals(lang: Language, t: Subtree)
    requires WellSummarized(lang, t)
    ensures ExternalsMarked(t)
    decreases t
  {
    if |t.children| == 0 {
    } else {
      ProductExternal(lang, t, |t.children|);
      forall i | 0 <= i < |t.children| {
        SummariesMarkExternals(lang, t.children[i]);
      }
    }
  }

  /** A tree is flagged exactly if one of its leaves is. */
  lemma {:induction false} ExternalLeaf(t: Subtree)
    requires ExternalsMarked(t)
    ensures t.sum.hasExternalTokens <==> LastExternal(Leaves(t)).Some?
    decreases t, 1
  {
    if |t.children| == 0 {
      assert Leaves(t)[..0] == [];
    } else {
      ExternalUpTo(t, |t.children|);
      AllLeaves(t);
    }
  }

  lemma {:induction false} ExternalUpTo(t: Subtree, k: nat)
    requires ExternalsMarked(t) && k <= |t.children|
    ensures AnyExternal(t.children, k) <==> LastExternal(LeavesUpTo(t, k)).Some?
    decreases t, 0, k
  {
    if k == 0 {
    } else {
      ExternalUpTo(t, k - 1);
      ExternalLeaf(t.children[k - 1]);
      LastExternalConcat(LeavesUpTo(t, k - 1), Leaves(t.children[k - 1]));
    }
  }

  lemma {:induction false} SomeExternal(cs: seq<Subtree>, k: nat)
    requires k <= |cs| && AnyExternal(cs, k)
    ensures exists i | 0 <= i < k :: cs[i].sum.hasExternalTokens
  {
    if cs[k - 1].sum.hasExternalTokens {
    } else {
      SomeExternal(cs, k - 1);
    }
  }

  /** The last flagged child holds the last external leaf. */
  lemma {:induction false} LastExternalInside(t: Subtree, i: nat, k: nat)
    requires ExternalsMarked(t) && i < k <= |t.children| && t.children[i].sum.hasExternalTokens
    requires forall j | i < j < k :: !t.children[j].sum.hasExternalTokens
    ensures LastExternal(LeavesUpTo(t, k)) == LastExternal(Leaves(t.children[i]))
    decreases k
  {
    ExternalLeaf(t.children[k - 1]);
    LastExternalConcat(LeavesUpTo(t, k - 1), Leaves(t.children[k - 1]));
    if i < k - 1 {
      LastExternalInside(t, i, k - 1);
    }
  }

  /** The search from the right finds the last external leaf. */
  method LastExternalToken(self: Subtree) returns (result: Option<Subtree>)
    requires ExternalsMarked(self)
    ensures result == LastExternal(Leaves(self))
  {
    ExternalLeaf(self);
    if !self.sum.hasExternalTokens {
      return None;
    }
    var tree := self;
    while |tree.children| > 0
      invariant ExternalsMarked(tree) && tree.sum.hasExternalTokens
      invariant LastExternal(Leaves(tree)) == LastExternal(Leaves(self))
      decreases tree
    {
      SomeExternal(tree.children, |tree.children|);
      var i := |tree.children| - 1;
      while !tree.children[i].sum.hasExternalTokens
        invariant 0 <= i < |tree.children|
        invariant forall j | i < j < |tree.children| :: !tree.children[j].sum.hasExternalTokens
        decreases i
      {
        i := i - 1;
      }
      LastExternalInside(tree, i, |tree.children|);
      AllLeaves(tree);
      tree := tree.children[i];
    }
    assert Leaves(tree) == [tree];
    return Some(tree);
  }

  // ----- The walk -----

  datatype StackEntry = StackEntry(tree: Subtree, childIndex: nat, byteOffset: nat)

  ghost function EntriesOf(root: Subtree, p: Path): (es: seq<StackEntry>)
    requires ValidPath(root, p)
    ensures |es| == |p| + 1
    ensures es[|p|] == StackEntry(At(root, p), if p == [] then 0 else Back(p), LeftEdge(root, p))
    decreases |p|
  {
    if p == [] then [StackEntry(root, 0, 0)]
    else
      ValidFront(root, p);
      EntriesOf(root, Front(p)) + [StackEntry(At(root, p), Back(p), LeftEdge(root, p))]
  }

  lemma {:induction false} ExternalsMarkedBelow(t: Subtree, p: Path)
    requires ValidPath(t, p) && ExternalsMarked(t)
    ensures ExternalsMarked(At(t, p))
    decreases p
  {
    if p == [] {
    } else {
      ExternalsMarkedBelow(t.children[p[0]], p[1..]);
    }
  }

  lemma {:induction false} LayoutBelow(t: Subtree, p: Path)
    requires ValidPath(t, p) && Layout(t)
    ensures Layout(At(t, p))
    decreases p
  {
    if p == [] {
    } else {
      LayoutBelow(t.children[p[0]], p[1..]);
    }
  }

  lemma LeavesOfNext(t: Subtree, above: Path, i: nat, next: nat)
    requires ValidPath(t, above) && next == i + 1 && next <= |At(t, above).children|
    ensures ValidPath(t, above + [i]) && At(t, above + [i]) == At(t, above).children[i]
    ensures LeavesBefore(t, above + [i]) + Leaves(At(t, above).children[i])
            == LeavesBefore(t, above) + LeavesUpTo(At(t, above), next)
    ensures LeftEdge(t, above + [i]) + At(t, above).children[i].TotalBytes()
            == LeftEdge(t, above) + Left(At(t, above).children, next)
  {
    BeforeSnoc(t, above, i);
  }

  lemma ParentEnds(t: Subtree, above: Path, count: nat)
    requires ValidPath(t, above) && Layout(t) && count == |At(t, above).children| > 0
    ensures LeavesBefore(t, above) + LeavesUpTo(At(t, above), count) == LeavesBefore(t, above) + Leaves(At(t, above))
    ensures Left(At(t, above).children, count) == At(t, above).TotalBytes()
  {
    AllLeaves(At(t, above));
    LayoutBelow(t, above);
  }

  /** Where a child ends, its next sibling starts or its parent ends. */
  lemma NextPlace(t: Subtree, p: Path, next: nat)
    requires ValidPath(t, p) && p != [] && next == Back(p) + 1 && Layout(t)
    ensures ValidPath(t, Front(p)) && next <= |At(t, Front(p)).children|
    ensures var (here, end) := (LeavesBefore(t, p) + Leaves(At(t, p)), LeftEdge(t, p) + At(t, p).TotalBytes());
            if next < |At(t, Front(p)).children| then
              && ValidPath(t, Front(p) + [next])
              && At(t, Front(p) + [next]) == At(t, Front(p)).children[next]
              && LeavesBefore(t, Front(p) + [next]) == here && LeftEdge(t, Front(p) + [next]) == end
            else
              && LeavesBefore(t, Front(p)) + Leaves(At(t, Front(p))) == here
              && LeftEdge(t, Front(p)) + At(t, Front(p)).TotalBytes() == end
  {
    ValidFront(t, p);
    assert Front(p) + [Back(p)] == p;
    LeavesOfNext(t, Front(p), Back(p), next);
    if next < |At(t, Front(p)).children| {
      BeforeSnoc(t, Front(p), next);
    } else {
      ParentEnds(t, Front(p), next);
    }
  }

  class ReusableNode {
    var stack: seq<StackEntry>
    var lastExternalToken: Option<Subtree>
    ghost var root: Subtree
    ghost var path: Path
    /** The leaves on offer, and those already passed. */
    ghost var leaves: seq<Subtree>
    ghost var passed: seq<Subtree>

    ghost predicate StandsAt(p: Path)
      reads this
    {
      && ValidPath(root, p)
      && stack == EntriesOf(root, p)
      && leaves == Leaves(root) && passed == LeavesBefore(root, p)
    }

    ghost predicate Valid()
      reads this
    {
      && Layout(root) && ExternalsMarked(root)
      && lastExternalToken == LastExternal(passed)
      && if stack == [] then passed == leaves else StandsAt(path)
    }

    constructor ()
      ensures Valid() && stack == [] && leaves == []
    {
      stack, lastExternalToken, leaves, passed, path := [], None, [], [], [];
      var nothing := Summary(LENGTH_ZERO, LENGTH_ZERO, 0, 0, 0, 0, 0, false, 0, 0);
      root := Subtree(Head(0, 0, 0, 0, false, false, false, false, false), false, 0, nothing, []);
    }

    method Clear()
      requires Valid()
      modifies `stack, `lastExternalToken, `leaves, `passed
      ensures Valid() && stack == [] && leaves == []
    {
      stack, lastExternalToken, leaves, passed := [], None, [], [];
    }

    function Tree(): Option<Subtree>
      reads `stack
    {
      if |stack| > 0 then Some(stack[|stack| - 1].tree) else None
    }

    function ByteOffset(): nat
      reads `stack
    {
      if |stack| > 0 then stack[|stack| - 1].byteOffset else UINT32_MAX
    }

    /** The current node's leaves are the next ones on offer; the byte offset is the text passed so far. */
    lemma Offers()
      requires Valid() && stack != []
      ensures Leaves(Tree().value) != []
      ensures passed + Leaves(Tree().value) <= leaves
      ensures ByteOffset() == LeafBytes(passed)
    {
      LeavesInOrder(root, path);
      BytesBefore(root, path);
      SomeLeaf(At(root, path));
    }

    /** Enters the first child; a leaf cannot be entered. */
    method Descend() returns (moved: bool)
      requires Valid() && stack != []
      modifies `stack, `path
      ensures Valid()
      ensures moved <==> |old(Tree()).value.children| > 0
      ensures if moved then path == old(path) + [0] && Tree() == Some(old(Tree()).value.children[0])
              else unchanged(this)
    {
      var lastEntry := stack[|stack| - 1];
      if |lastEntry.tree.children| > 0 {
        BeforeSnoc(root, path, 0);
        assert LeavesBefore(root, path) + [] == LeavesBefore(root, path);
        assert Front(path + [0]) == path && Back(path + [0]) == 0;
        stack := stack + [StackEntry(lastEntry.tree.children[0], 0, lastEntry.byteOffset)];
        path := path + [0];
        moved := true;
      } else {
        moved := false;
      }
    }

    /** Passes the current node: exactly its leaves are dropped. */
    method Advance()
      requires Valid() && stack != []
      modifies `stack, `lastExternalToken, `path, `passed
      ensures Valid()
      ensures passed == old(passed) + Leaves(old(Tree()).value)
    {
      var lastEntry := stack[|stack| - 1];
      var byteOffset := lastEntry.byteOffset + lastEntry.tree.TotalBytes();
      TopEntry();
      PassTokens(lastEntry.tree);
      GoOn(byteOffset);
    }

    lemma TopEntry()
      requires Valid() && stack != []
      ensures ValidPath(root, path) && stack == EntriesOf(root, path) && passed == LeavesBefore(root, path)
      ensures stack[|stack| - 1].tree == At(root, path) && stack[|stack| - 1].byteOffset == LeftEdge(root, path)
      ensures ExternalsMarked(At(root, path))
    {
      ExternalsMarkedBelow(root, path);
    }

    /** Goes on to the next node once the leaves of the current one have been passed. */
    method GoOn(byteOffset: nat)
      requires Layout(root) && ValidPath(root, path) && stack == EntriesOf(root, path)
      requires passed == LeavesBefore(root, path) + Leaves(At(root, path))
      requires byteOffset == LeftEdge(root, path) + At(root, path).TotalBytes()
      modifies `stack, `path
      ensures if stack == [] then passed == Leaves(root)
              else ValidPath(root, path) && stack == EntriesOf(root, path) && passed == LeavesBefore(root, path)
    {
      var tree, nextIndex := PopFinished(byteOffset);
      if tree.Some? {
        PushChild(tree.value, nextIndex, byteOffset);
      }
    }

    /** The leaves of a tree are passed. */
    method PassTokens(tree: Subtree)
      requires ExternalsMarked(tree) && lastExternalToken == LastExternal(passed)
      modifies `lastExternalToken, `passed
      ensures passed == old(passed) + Leaves(tree) && lastExternalToken == LastExternal(passed)
    {
      ExternalLeaf(tree);
      LastExternalConcat(passed, Leaves(tree));
      if tree.sum.hasExternalTokens {
        lastExternalToken := LastExternalToken(tree);
      }
      passed := passed + Leaves(tree);
    }

    method PushChild(tree: Subtree, nextIndex: nat, byteOffset: nat)
      requires ValidPath(root, path) && stack == EntriesOf(root, path) && tree == At(root, path)
      requires nextIndex < |tree.children| && ValidPath(root, path + [nextIndex])
      requires At(root, path + [nextIndex]) == tree.children[nextIndex]
      requires byteOffset == LeftEdge(root, path + [nextIndex])
      modifies `stack, `path
      ensures stack != [] && path == old(path) + [nextIndex] && stack == EntriesOf(root, path)
    {
      stack := stack + [StackEntry(tree.children[nextIndex], nextIndex, byteOffset)];
      assert Front(path + [nextIndex]) == path && Back(path + [nextIndex]) == nextIndex;
      path := path + [nextIndex];
    }

    /** Pops entries until one has a later sibling, and gives its parent and the sibling's index. */
    method PopFinished(byteOffset: nat) returns (tree: Option<Subtree>, nextIndex: nat)
      requires Layout(root) && ValidPath(root, path) && stack == EntriesOf(root, path)
      requires passed == LeavesBefore(root, path) + Leaves(At(root, path))
      requires byteOffset == LeftEdge(root, path) + At(root, path).TotalBytes()
      modifies `stack, `path
      ensures tree == None ==> stack == [] && passed == Leaves(root)
      ensures tree.Some? ==>
                && ValidPath(root, path) && stack == EntriesOf(root, path) && tree == Some(At(root, path))
                && nextIndex < |tree.value.children| && ValidPath(root, path + [nextIndex])
                && At(root, path + [nextIndex]) == tree.value.children[nextIndex]
                && passed == LeavesBefore(root, path + [nextIndex])
                && byteOffset == LeftEdge(root, path + [nextIndex])
    {
      while true
        invariant ValidPath(root, path) && stack == EntriesOf(root, path)
        invariant passed == LeavesBefore(root, path) + Leaves(At(root, path))
        invariant byteOffset == LeftEdge(root, path) + At(root, path).TotalBytes()
        decreases |path|
      {
        var poppedEntry := stack[|stack| - 1];
        stack := stack[..|stack| - 1];
        nextIndex := poppedEntry.childIndex + 1;
        if |stack| == 0 {
          assert passed == Leaves(root);
          return None, nextIndex;
        }
        NextPlace(root, path, nextIndex);
        path := Front(path);
        tree := Some(stack[|stack| - 1].tree);
        if |tree.value.children| > nextIndex {
          return;
        }
      }
    }

    /** Passes one leaf. */
    method AdvancePastLeaf()
      requires Valid() && stack != []
      modifies `stack, `lastExternalToken, `path, `passed
      ensures Valid()
      ensures |old(passed)| < |leaves| && passed == leaves[..|old(passed)| + 1]
    {
      var moved := true;
      while moved
        invariant Valid() && stack != [] && passed == old(passed)
        invariant !moved ==> |Tree().value.children| == 0
        decreases Tree().value, moved
      {
        moved := Descend();
      }
      Offers();
      assert passed + [Tree().value] == leaves[..|passed| + 1];
      Advance();
    }

    /** Starts over below the root of the given tree, which itself is never offered. */
    method Reset(tree: Subtree)
      requires Valid() && Layout(tree) && ExternalsMarked(tree)
      modifies this
      ensures Valid() && passed == [] && root == tree
      ensures if |tree.children| == 0 then stack == [] && leaves == []
              else leaves == Leaves(tree) && Tree() == Some(tree.children[0])
    {
      Clear();
      stack := stack + [StackEntry(tree, 0, 0)];
      root, path, leaves := tree, [], Leaves(tree);
      var moved := Descend();
      if !moved {
        Clear();
      }
    }
  }
}
