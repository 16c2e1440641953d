/** Trees in a memory of shared cells: the value behind a reference, ways down that nothing else shares, and what
    stays as it is when the node at the end of such a way is written to. */
module SharedTrees {
  import opened Subtrees
  import opened Worklists
  import opened RefCounts

  // ----- The tree that a reference leads to -----

  /** A node's own fields.  The count of a node is kept in its cell; `head.refCount` plays no part here. */
  function FieldsOf(t: Subtree): Fields {
    Fields(t.head, t.hasChanges, t.repeatDepth, t.sum)
  }

  /** A node's own fields as a tree without children. */
  function NodeOf(f: Fields): Subtree {
    Subtree(f.head, f.hasChanges, f.repeatDepth, f.sum, [])
  }

  ghost predicate Holds(cells: seq<Cell>, r: Ref, t: Subtree)
    decreases t, 1
  {
    match r
    case Inline(f) => f == FieldsOf(t) && |t.children| == 0
    case Ptr(a) => IsLive(cells, a) && cells[a].fields == FieldsOf(t) && HoldAll(cells, cells[a].children, t)
  }

  ghost predicate HoldAll(cells: seq<Cell>, refs: seq<Ref>, t: Subtree)
    decreases t, 0
  {
    && |refs| == |t.children|
    && forall i | 0 <= i < |refs| :: Holds(cells, refs[i], t.children[i])
  }

  /** The tree behind a reference. */
  ghost function TreeOf(cells: seq<Cell>, rank: seq<nat>, r: Ref): Subtree
    requires NothingDangles(cells, multiset{}) && IsRanked(cells, rank) && (r.Ptr? ==> IsLive(cells, r.address))
    decreases if r.Ptr? then rank[r.address] + 1 else 0
  {
    if r.Inline? then NodeOf(r.fields)
    else
      var refs := ChildrenOf(cells[r.address]);
      assert AllLive(cells, refs) && RanksBelow(refs, rank, rank[r.address]);
      NodeOf(cells[r.address].fields).(
        children := seq(|refs|, i requires 0 <= i < |refs| => TreeOf(cells, rank, refs[i])))
  }

  /** In an acyclic memory every reference leads to a tree. */
  lemma {:induction false} TreeIsHeld(cells: seq<Cell>, rank: seq<nat>, r: Ref)
    requires NothingDangles(cells, multiset{}) && IsRanked(cells, rank) && (r.Ptr? ==> IsLive(cells, r.address))
    ensures Holds(cells, r, TreeOf(cells, rank, r))
    decreases if r.Ptr? then rank[r.address] + 1 else 0
  {
    if r.Inline? {
    } else {
      var refs := ChildrenOf(cells[r.address]);
      assert AllLive(cells, refs) && RanksBelow(refs, rank, rank[r.address]);
      forall i | 0 <= i < |refs|
        ensures Holds(cells, refs[i], TreeOf(cells, rank, r).children[i])
      {
        TreeIsHeld(cells, rank, refs[i]);
      }
      assert HoldAll(cells, refs, TreeOf(cells, rank, r));
    }
  }

  /** There may be new cells, and one old one may differ. */
  predicate AgreesBut(before: seq<Cell>, after: seq<Cell>, d: nat) {
    && |before| <= |after|
    && forall x | 0 <= x < |before| && x != d :: SameNode(before[x], after[x])
  }

  /** There may be new cells, and these old ones may differ. */
  predicate AgreesOff(before: seq<Cell>, after: seq<Cell>, written: seq<nat>) {
    && |before| <= |after|
    && forall x | 0 <= x < |before| && x !in written :: SameNode(before[x], after[x])
  }

  // ----- Exclusive ways down -----

  predicate IsExclusive(cells: seq<Cell>, a: nat) {
    IsLive(cells, a) && cells[a].refCount == 1
  }

  /** A chain of references from a handle down, each the only one to its cell. */
  predicate IsChain(cells: seq<Cell>, handles: multiset<nat>, chain: seq<nat>) {
    && IsPath(cells, handles, chain)
    && forall k | 0 <= k < |chain| :: IsExclusive(cells, chain[k])
  }

  lemma {:induction false} TwoParents(cells: seq<Cell>, p: nat, q: nat, a: nat)
    requires p < q < |cells|
    ensures Occurrences(ChildrenOf(cells[p]), a) + Occurrences(ChildrenOf(cells[q]), a) <= Parents(cells, a)
  {
    if q < |cells| - 1 {
      TwoParents(cells[..|cells| - 1], p, q, a);
    } else {
      ParentsCounted(cells[..|cells| - 1], p, a);
    }
  }

  lemma SoleParent(cells: seq<Cell>, p: nat, q: nat, a: nat)
    requires IsChild(cells, p, a) && IsChild(cells, q, a) && Parents(cells, a) <= 1
    ensures p == q
  {
    OccursIfCounted(ChildrenOf(cells[p]), a);
    OccursIfCounted(ChildrenOf(cells[q]), a);
    if p < q {
      TwoParents(cells, p, q, a);
    } else if q < p {
      TwoParents(cells, q, p, a);
    }
  }

  lemma {:induction false} SoleSlot(refs: seq<Ref>, i: nat, j: nat, a: nat)
    requires i < j < |refs| && refs[i] == Ptr(a) == refs[j]
    ensures Occurrences(refs, a) >= 2
  {
    if i > 0 {
      SoleSlot(refs[1..], i - 1, j - 1, a);
    } else {
      assert refs[1..][j - 1] == Ptr(a);
      OccursIfCounted(refs[1..], a);
    }
  }

  /** An exclusive cell has either one handle and no parent, or no handle and one parent. */
  lemma ExclusiveCount(cells: seq<Cell>, handles: multiset<nat>, a: nat)
    requires CountsMatch(cells, handles) && IsExclusive(cells, a)
    ensures handles[a] + Parents(cells, a) == 1
  {
    assert CountMatches(cells, handles, a);
  }

  lemma ChildIsCounted(cells: seq<Cell>, p: nat, a: nat)
    requires IsChild(cells, p, a)
    ensures Parents(cells, a) > 0
  {
    ParentsCounted(cells, p, a);
    OccursIfCounted(ChildrenOf(cells[p]), a);
  }

  /** There is no other way to the end of an exclusive chain. */
  lemma {:induction false} UniquePath(cells: seq<Cell>, handles: multiset<nat>, chain: seq<nat>, path: seq<nat>)
    requires CountsMatch(cells, handles) && IsChain(cells, handles, chain) && IsPath(cells, handles, path)
    requires path[|path| - 1] == chain[|chain| - 1]
    ensures path == chain
    decreases |path|
  {
    SameLastStep(cells, handles, chain, path);
    if |chain| > 1 {
      UniquePath(cells, handles, chain[..|chain| - 1], path[..|path| - 1]);
    }
    SameSteps(chain, path);
  }

  lemma SameSteps(a: seq<nat>, b: seq<nat>)
    requires a != [] && b != [] && a[..|a| - 1] == b[..|b| - 1] && a[|a| - 1] == b[|b| - 1]
    ensures a == b
  {
    assert a == a[..|a| - 1] + [a[|a| - 1]];
    assert b == b[..|b| - 1] + [b[|b| - 1]];
  }

  lemma SameLastStep(cells: seq<Cell>, handles: multiset<nat>, chain: seq<nat>, path: seq<nat>)
    requires CountsMatch(cells, handles) && IsChain(cells, handles, chain) && IsPath(cells, handles, path)
    requires path[|path| - 1] == chain[|chain| - 1]
    ensures |chain| == 1 <==> |path| == 1
    ensures |chain| > 1 ==>
              var (upper, above) := (chain[..|chain| - 1], path[..|path| - 1]);
              && IsChain(cells, handles, upper) && IsPath(cells, handles, above)
              && upper[|upper| - 1] == above[|above| - 1]
  {
    LastStep(cells, handles, chain);
    LastStep(cells, handles, path);
    if |chain| > 1 {
      ChainAbove(cells, handles, chain);
      SoleParent(cells, chain[..|chain| - 1][|chain| - 2], path[..|path| - 1][|path| - 2], path[|path| - 1]);
    }
  }

  lemma ChainAbove(cells: seq<Cell>, handles: multiset<nat>, chain: seq<nat>)
    requires IsChain(cells, handles, chain) && |chain| > 1
    ensures IsChain(cells, handles, chain[..|chain| - 1])
  {
  }

  /** The last step of a way to an exclusive cell: from its handle, if it has one, or else from its parent. */
  lemma LastStep(cells: seq<Cell>, handles: multiset<nat>, path: seq<nat>)
    requires CountsMatch(cells, handles) && IsPath(cells, handles, path) && IsExclusive(cells, path[|path| - 1])
    ensures var (a, above) := (path[|path| - 1], path[..|path| - 1]);
            && (|above| > 0 <==> Parents(cells, a) == 1) && Parents(cells, a) <= 1
            && (|above| > 0 ==> IsPath(cells, handles, above) && IsChild(cells, above[|above| - 1], a))
  {
    var (a, above) := (path[|path| - 1], path[..|path| - 1]);
    ExclusiveCount(cells, handles, a);
    if |above| > 0 {
      ChildIsCounted(cells, above[|above| - 1], a);
    }
  }

  /** The path leaves the chain at its k-th step at the latest. */
  predicate IsOff(path: seq<nat>, chain: seq<nat>, k: nat) {
    k < |path| && (k < |chain| ==> path[k] != chain[k])
  }

  lemma PathDown(cells: seq<Cell>, handles: multiset<nat>, path: seq<nat>, a: nat)
    requires IsPath(cells, handles, path) && IsChild(cells, path[|path| - 1], a)
    ensures IsPath(cells, handles, path + [a])
  {
    assert (path + [a])[..|path|] == path;
  }

  lemma {:induction false} PathAbove(cells: seq<Cell>, handles: multiset<nat>, path: seq<nat>, n: nat)
    requires IsPath(cells, handles, path) && 0 < n <= |path|
    ensures IsPath(cells, handles, path[..n])
    decreases |path|
  {
    if n == |path| {
      assert path[..n] == path;
    } else {
      PathAbove(cells, handles, path[..|path| - 1], n);
      assert path[..|path| - 1][..n] == path[..n];
    }
  }

  lemma ChainBegins(cells: seq<Cell>, handles: multiset<nat>, chain: seq<nat>, n: nat)
    requires IsChain(cells, handles, chain) && 0 < n <= |chain|
    ensures IsChain(cells, handles, chain[..n])
  {
    PathAbove(cells, handles, chain, n);
  }

  /** A path to a cell on an exclusive chain is the part of the chain down to it. */
  lemma PathOnChain(cells: seq<Cell>, handles: multiset<nat>, chain: seq<nat>, j: nat, path: seq<nat>)
    requires CountsMatch(cells, handles) && IsChain(cells, handles, chain) && IsPath(cells, handles, path)
    requires j < |chain| && path[|path| - 1] == chain[j]
    ensures path == chain[..j + 1]
  {
    ChainBegins(cells, handles, chain, j + 1);
    UniquePath(cells, handles, chain[..j + 1], path);
  }

  lemma NotOnChain(cells: seq<Cell>, handles: multiset<nat>, chain: seq<nat>, path: seq<nat>, k: nat)
    requires CountsMatch(cells, handles) && IsChain(cells, handles, chain) && IsPath(cells, handles, path)
    requires IsOff(path, chain, k)
    ensures path[|path| - 1] !in chain
  {
    if path[|path| - 1] in chain {
      var j :| 0 <= j < |chain| && chain[j] == path[|path| - 1];
      PathOnChain(cells, handles, chain, j, path);
    }
  }

  /** What lies off a chain does not change when only cells on the chain are written to. */
  lemma {:induction false} HeldOffChain(
    before: seq<Cell>, after: seq<Cell>, handles: multiset<nat>, chain: seq<nat>, path: seq<nat>, k: nat, t: Subtree)
    requires CountsMatch(before, handles) && IsChain(before, handles, chain) && AgreesOff(before, after, chain)
    requires IsPath(before, handles, path) && IsOff(path, chain, k)
    requires Holds(before, Ptr(path[|path| - 1]), t)
    ensures Holds(after, Ptr(path[|path| - 1]), t)
    decreases t, 1
  {
    NotOnChain(before, handles, chain, path, k);
    HeldBelow(before, after, handles, chain, path, k, t);
  }

  lemma {:induction false} HeldBelow(
    before: seq<Cell>, after: seq<Cell>, handles: multiset<nat>, chain: seq<nat>, path: seq<nat>, k: nat, t: Subtree)
    requires CountsMatch(before, handles) && IsChain(before, handles, chain) && AgreesOff(before, after, chain)
    requires IsPath(before, handles, path) && k <= |path|
    requires forall a: nat :: IsChild(before, path[|path| - 1], a) ==> IsOff(path + [a], chain, k)
    requires IsLive(before, path[|path| - 1]) && HoldAll(before, before[path[|path| - 1]].children, t)
    ensures HoldAll(after, before[path[|path| - 1]].children, t)
    decreases t, 0
  {
    var refs := before[path[|path| - 1]].children;
    forall i | 0 <= i < |refs|
      ensures Holds(after, refs[i], t.children[i])
    {
      assert Holds(before, refs[i], t.children[i]);
      if refs[i].Ptr? {
        var a := refs[i].address;
        assert IsChild(before, path[|path| - 1], a);
        PathDown(before, handles, path, a);
        HeldOffChain(before, after, handles, chain, path + [a], k, t.children[i]);
      }
    }
  }

  /** The cells on the way to the node at q, all exclusive. */
  predicate IsSpine(cells: seq<Cell>, handles: multiset<nat>, q: Path, spine: seq<nat>)
    decreases |q|
  {
    && |spine| == |q| + 1 && IsExclusive(cells, spine[|q|])
    && if q == [] then spine[0] in handles
       else IsSpine(cells, handles, Front(q), spine[..|q|]) && HasSlot(cells, spine[|q| - 1], Back(q), Ptr(spine[|q|]))
  }

  predicate HasSlot(cells: seq<Cell>, a: nat, i: nat, r: Ref) {
    IsLive(cells, a) && i < |cells[a].children| && cells[a].children[i] == r
  }

  lemma {:induction false} SpineIsChain(cells: seq<Cell>, handles: multiset<nat>, q: Path, spine: seq<nat>)
    requires IsSpine(cells, handles, q, spine)
    ensures IsChain(cells, handles, spine)
    decreases |q|
  {
    if q == [] {
    } else {
      SpineIsChain(cells, handles, Front(q), spine[..|q|]);
      PathDown(cells, handles, spine[..|q|], spine[|q|]);
      assert spine == spine[..|q|] + [spine[|q|]];
    }
  }

  /** The reference at a path. */
  function RefAt(cells: seq<Cell>, root: Ref, q: Path): Ref
    decreases |q|
  {
    if q == [] then root
    else
      var r := RefAt(cells, root, Front(q));
      if r.Ptr? && IsLive(cells, r.address) && Back(q) < |cells[r.address].children|
      then cells[r.address].children[Back(q)] else r
  }

  lemma {:induction false} RefAtSpine(cells: seq<Cell>, handles: multiset<nat>, q: Path, spine: seq<nat>)
    requires IsSpine(cells, handles, q, spine)
    ensures RefAt(cells, Ptr(spine[0]), q) == Ptr(spine[|q|])
    decreases |q|
  {
    if q == [] {
    } else {
      RefAtSpine(cells, handles, Front(q), spine[..|q|]);
    }
  }

  lemma {:induction false} HeldAt(cells: seq<Cell>, root: Ref, t: Subtree, q: Path)
    requires Holds(cells, root, t) && ValidPath(t, q)
    ensures Holds(cells, RefAt(cells, root, q), At(t, q))
    decreases |q|
  {
    if q == [] {
    } else {
      ValidFront(t, q);
      HeldAt(cells, root, t, Front(q));
    }
  }

  lemma PutBack(t: Subtree, q: Path, m: Subtree)
    requires q != [] && ValidPath(t, q)
    ensures ValidPath(t, Front(q)) && Back(q) < |At(t, Front(q)).children|
    ensures Put(t, Front(q), SetChild(At(t, Front(q)), Back(q), m)) == Put(t, q, m)
  {
    ValidFront(t, q);
    PutSame(t, Front(q));
    PutPut(t, Front(q), At(t, Front(q)), [Back(q)], m);
    assert Front(q) + [Back(q)] == q;
  }

  /** A way down that leaves the spine for a sibling is off it. */
  lemma SiblingOff(cells: seq<Cell>, handles: multiset<nat>, chain: seq<nat>, k: nat, next: nat, i: nat, j: nat, a: nat)
    requires CountsMatch(cells, handles) && IsChain(cells, handles, chain) && next == k + 1 < |chain|
    requires HasSlot(cells, chain[k], i, Ptr(chain[next])) && HasSlot(cells, chain[k], j, Ptr(a)) && i != j
    ensures IsOff(chain[..next] + [a], chain, next)
  {
    if a == chain[next] {
      ExclusiveCount(cells, handles, a);
      ParentsCounted(cells, chain[k], a);
      SoleSlot(cells[chain[k]].children, if i < j then i else j, if i < j then j else i, a);
    }
  }

  lemma SiblingHeld(before: seq<Cell>, after: seq<Cell>, handles: multiset<nat>, chain: seq<nat>, k: nat, next: nat,
                    i: nat, j: nat, t: Subtree)
    requires CountsMatch(before, handles) && IsChain(before, handles, chain) && next == k + 1 < |chain|
    requires AgreesOff(before, after, chain)
    requires HasSlot(before, chain[k], i, Ptr(chain[next])) && j < |before[chain[k]].children| && i != j
    requires Holds(before, before[chain[k]].children[j], t)
    ensures Holds(after, before[chain[k]].children[j], t)
  {
    var r := before[chain[k]].children[j];
    if r.Ptr? {
      var path := chain[..next];
      PathAbove(before, handles, chain, next);
      SiblingOff(before, handles, chain, k, next, i, j, r.address);
      PathDown(before, handles, path, r.address);
      HeldOffChain(before, after, handles, chain, path + [r.address], next, t);
    }
  }

  lemma ChainDistinct(cells: seq<Cell>, handles: multiset<nat>, chain: seq<nat>, j: nat, k: nat)
    requires CountsMatch(cells, handles) && IsChain(cells, handles, chain) && j < k < |chain|
    ensures chain[j] != chain[k]
  {
    if chain[j] == chain[k] {
      PathAbove(cells, handles, chain, k + 1);
      PathOnChain(cells, handles, chain, j, chain[..k + 1]);
    }
  }

  lemma UpperNotWritten(cells: seq<Cell>, handles: multiset<nat>, chain: seq<nat>, from: nat, k: nat)
    requires CountsMatch(cells, handles) && IsChain(cells, handles, chain) && k < from < |chain|
    ensures chain[k] !in chain[from..]
  {
    forall j | from <= j < |chain|
      ensures chain[k] != chain[j]
    {
      ChainDistinct(cells, handles, chain, k, j);
    }
  }

  lemma AgreesOffMore(before: seq<Cell>, after: seq<Cell>, chain: seq<nat>, from: nat)
    requires from <= |chain| && AgreesOff(before, after, chain[from..])
    ensures AgreesOff(before, after, chain)
  {
    assert forall x | x in chain[from..] :: x in chain;
  }

  lemma AgreesButEnd(before: seq<Cell>, after: seq<Cell>, chain: seq<nat>)
    requires chain != [] && AgreesBut(before, after, chain[|chain| - 1])
    ensures AgreesOff(before, after, chain[|chain| - 1..]) && AgreesOff(before, after, chain)
  {
    assert chain[|chain| - 1..] == [chain[|chain| - 1]];
    AgreesOffMore(before, after, chain, |chain| - 1);
  }

  /** Replacing what lies below one slot of a spine. */
  lemma ParentHolds(before: seq<Cell>, after: seq<Cell>, handles: multiset<nat>, chain: seq<nat>, from: nat, k: nat,
                    next: nat, i: nat, t: Subtree, m: Subtree)
    requires CountsMatch(before, handles) && IsChain(before, handles, chain) && next == k + 1 <= from < |chain|
    requires AgreesOff(before, after, chain[from..])
    requires HasSlot(before, chain[k], i, Ptr(chain[next]))
    requires Holds(before, Ptr(chain[k]), t) && Holds(after, Ptr(chain[next]), m)
    ensures i < |t.children| && Holds(after, Ptr(chain[k]), SetChild(t, i, m))
  {
    UpperNotWritten(before, handles, chain, from, k);
    AgreesOffMore(before, after, chain, from);
    var refs := before[chain[k]].children;
    assert SameNode(before[chain[k]], after[chain[k]]);
    forall j | 0 <= j < |refs|
      ensures Holds(after, refs[j], SetChild(t, i, m).children[j])
    {
      if j != i {
        SiblingHeld(before, after, handles, chain, k, next, i, j, t.children[j]);
      }
    }
    assert HoldAll(after, refs, SetChild(t, i, m));
  }

  /** Replacing what lies below a node on a spine replaces it in the whole tree, if nothing above it is written to. */
  lemma {:induction false} SpineHolds(before: seq<Cell>, after: seq<Cell>, handles: multiset<nat>, chain: seq<nat>,
                                      from: nat, q: Path, t: Subtree, m: Subtree)
    requires CountsMatch(before, handles) && IsChain(before, handles, chain)
    requires |q| <= from < |chain| && AgreesOff(before, after, chain[from..])
    requires IsSpine(before, handles, q, chain[..|q| + 1])
    requires Holds(before, Ptr(chain[0]), t) && ValidPath(t, q) && Holds(after, Ptr(chain[|q|]), m)
    ensures Holds(after, Ptr(chain[0]), Put(t, q, m))
    decreases |q|
  {
    if q == [] {
    } else {
      var (k, spine) := (|q| - 1, chain[..|q| + 1]);
      PutBack(t, q, m);
      assert spine[..|q|] == chain[..k + 1];
      RefAtSpine(before, handles, Front(q), spine[..|q|]);
      HeldAt(before, Ptr(chain[0]), t, Front(q));
      ParentHolds(before, after, handles, chain, from, k, |q|, Back(q), At(t, Front(q)), m);
      SpineHolds(before, after, handles, chain, from, Front(q), t, SetChild(At(t, Front(q)), Back(q), m));
    }
  }

  // ----- Other trees -----

  /** Everything that these handles lead to is as it was. */
  ghost predicate IsKept(before: seq<Cell>, after: seq<Cell>, others: multiset<nat>) {
    forall path :: IsPath(before, others, path) ==> IsUnchanged(before, after, path[|path| - 1])
  }

  predicate IsUnchanged(before: seq<Cell>, after: seq<Cell>, a: nat) {
    IsLive(before, a) && a < |after| && SameNode(before[a], after[a])
  }

  lemma {:induction false} PathKept(before: seq<Cell>, after: seq<Cell>, others: multiset<nat>, path: seq<nat>)
    requires IsKept(before, after, others) && IsPath(before, others, path)
    ensures IsPath(after, others, path)
    decreases |path|
  {
    if |path| <= 1 {
    } else {
      PathKept(before, after, others, path[..|path| - 1]);
    }
  }

  lemma KeptTwice(a: seq<Cell>, b: seq<Cell>, c: seq<Cell>, others: multiset<nat>)
    requires IsKept(a, b, others) && IsKept(b, c, others)
    ensures IsKept(a, c, others)
  {
    forall path | IsPath(a, others, path)
      ensures IsUnchanged(a, c, path[|path| - 1])
    {
      PathKept(a, b, others, path);
    }
  }

  lemma {:induction false} KeptBelow(
    before: seq<Cell>, after: seq<Cell>, others: multiset<nat>, path: seq<nat>, t: Subtree)
    requires IsKept(before, after, others) && IsPath(before, others, path)
    requires Holds(before, Ptr(path[|path| - 1]), t)
    ensures Holds(after, Ptr(path[|path| - 1]), t)
    decreases t
  {
    var a := path[|path| - 1];
    var refs := before[a].children;
    assert IsUnchanged(before, after, a);
    forall i | 0 <= i < |refs|
      ensures Holds(after, refs[i], t.children[i])
    {
      assert Holds(before, refs[i], t.children[i]);
      if refs[i].Ptr? {
        PathDown(before, others, path, refs[i].address);
        KeptBelow(before, after, others, path + [refs[i].address], t.children[i]);
      }
    }
    assert HoldAll(after, refs, t);
  }

  /** The trees behind the other handles are still there. */
  lemma OtherTreesKept(before: seq<Cell>, after: seq<Cell>, others: multiset<nat>, a: nat, t: Subtree)
    requires IsKept(before, after, others) && a in others && Holds(before, Ptr(a), t)
    ensures Holds(after, Ptr(a), t)
  {
    KeptBelow(before, after, others, [a], t);
  }

  lemma {:induction false} PathOfMore(cells: seq<Cell>, some: multiset<nat>, all: multiset<nat>, path: seq<nat>)
    requires IsPath(cells, some, path) && some <= all
    ensures IsPath(cells, all, path)
    decreases |path|
  {
    if |path| <= 1 {
    } else {
      PathOfMore(cells, some, all, path[..|path| - 1]);
    }
  }

  lemma {:induction false} PathStarts(cells: seq<Cell>, handles: multiset<nat>, path: seq<nat>)
    requires IsPath(cells, handles, path)
    ensures path[0] in handles
    decreases |path|
  {
    if |path| <= 1 {
    } else {
      PathStarts(cells, handles, path[..|path| - 1]);
    }
  }

  /** Writing to an exclusive chain does not touch what other handles lead to. */
  lemma KeptOffChain(before: seq<Cell>, after: seq<Cell>, others: multiset<nat>, chain: seq<nat>)
    requires chain != []
    requires var handles := others + multiset{chain[0]};
             CountsMatch(before, handles) && IsChain(before, handles, chain) && NothingDangles(before, handles)
    requires AgreesOff(before, after, chain)
    ensures IsKept(before, after, others)
  {
    var handles := others + multiset{chain[0]};
    ExclusiveCount(before, handles, chain[0]);
    forall path | IsPath(before, others, path)
      ensures IsUnchanged(before, after, path[|path| - 1])
    {
      PathOfMore(before, others, handles, path);
      PathStarts(before, others, path);
      PathIsLive(before, handles, path);
      assert IsOff(path, chain, 0);
      NotOnChain(before, handles, chain, path, 0);
    }
  }

  lemma KeptByExtension(before: seq<Cell>, after: seq<Cell>, handles: multiset<nat>, others: multiset<nat>)
    requires NothingDangles(before, handles) && others <= handles && IsExtension(before, after)
    ensures IsKept(before, after, others)
  {
    forall path | IsPath(before, others, path)
      ensures IsUnchanged(before, after, path[|path| - 1])
    {
      PathOfMore(before, others, handles, path);
      PathIsLive(before, handles, path);
    }
  }
}
