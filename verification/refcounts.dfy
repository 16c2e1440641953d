/** Shared ownership of subtrees (ts_subtree_retain, ts_subtree_release, ts_subtree_make_mut).

    Memory is a sequence of cells and a pointer is an index into it.  Cells are shared: the live ones form
    a directed acyclic graph. */
module RefCounts {
  import Subtrees

  /** What a node holds besides its count and its children. */
  datatype Fields = Fields(head: Subtrees.Head, hasChanges: bool, repeatDepth: nat, sum: Subtrees.Summary)

  /** A reference to a subtree: small leaves are stored in the reference itself. */
  datatype Ref = Inline(fields: Fields) | Ptr(address: nat)

  datatype Cell = Freed | Live(refCount: nat, fields: Fields, children: seq<Ref>)

  // ----- Counting references -----

  function Occurrences(refs: seq<Ref>, a: nat): nat {
    if refs == [] then 0 else (if refs[0] == Ptr(a) then 1 else 0) + Occurrences(refs[1..], a)
  }

  function ChildrenOf(c: Cell): seq<Ref> {
    if c.Live? then c.children else []
  }

  /** How often the address occurs as a child of a live cell. */
  function Parents(cells: seq<Cell>, a: nat): nat {
    if cells == [] then 0
    else Parents(cells[..|cells| - 1], a) + Occurrences(ChildrenOf(cells[|cells| - 1]), a)
  }

  predicate IsLive(cells: seq<Cell>, a: nat) {
    a < |cells| && cells[a].Live?
  }

  /** No reference leads to freed memory. */
  predicate NothingDangles(cells: seq<Cell>, handles: multiset<nat>) {
    && (forall a | a in handles :: IsLive(cells, a))
    && forall p | 0 <= p < |cells| :: AllLive(cells, ChildrenOf(cells[p]))
  }

  predicate AllLive(cells: seq<Cell>, refs: seq<Ref>) {
    forall i | 0 <= i < |refs| && refs[i].Ptr? :: IsLive(cells, refs[i].address)
  }

  /** The count of a live cell is the number of outside handles on it plus the number of its parents. */
  predicate CountMatches(cells: seq<Cell>, handles: multiset<nat>, a: nat) {
    IsLive(cells, a) ==> cells[a].refCount == handles[a] + Parents(cells, a)
  }

  predicate CountsMatch(cells: seq<Cell>, handles: multiset<nat>) {
    forall a | 0 <= a < |cells| :: CountMatches(cells, handles, a)
  }

  /** Children rank below their parents: the graph is acyclic. */
  predicate IsRanked(cells: seq<Cell>, rank: seq<nat>) {
    && |rank| == |cells|
    && forall p | 0 <= p < |cells| :: RanksBelow(ChildrenOf(cells[p]), rank, rank[p])
  }

  predicate RanksBelow(refs: seq<Ref>, rank: seq<nat>, bound: nat) {
    forall i | 0 <= i < |refs| && refs[i].Ptr? :: refs[i].address < |rank| ==> rank[refs[i].address] < bound
  }

  lemma {:induction false} OccursIfCounted(refs: seq<Ref>, a: nat)
    ensures Occurrences(refs, a) > 0 <==> Ptr(a) in refs
  {
    if refs == [] {
    } else {
      OccursIfCounted(refs[1..], a);
      assert refs == [refs[0]] + refs[1..];
    }
  }

  /** Changing one cell changes the count of parents by the difference. */
  lemma {:induction false} ParentsAfterUpdate(cells: seq<Cell>, p: nat, c: Cell, a: nat)
    requires p < |cells|
    ensures Parents(cells[p := c], a) + Occurrences(ChildrenOf(cells[p]), a)
            == Parents(cells, a) + Occurrences(ChildrenOf(c), a)
  {
    var k := |cells| - 1;
    if p < k {
      ParentsAfterUpdate(cells[..k], p, c, a);
      assert cells[p := c][..k] == cells[..k][p := c];
    } else {
      assert cells[p := c][..k] == cells[..k];
    }
  }

  lemma {:induction false} ParentsCounted(cells: seq<Cell>, p: nat, a: nat)
    requires p < |cells|
    ensures Occurrences(ChildrenOf(cells[p]), a) <= Parents(cells, a)
  {
    if p >= |cells| - 1 {
    } else {
      ParentsCounted(cells[..|cells| - 1], p, a);
    }
  }

  lemma {:induction false} SomeParent(cells: seq<Cell>, a: nat) returns (p: nat)
    requires Parents(cells, a) > 0
    ensures p < |cells| && Ptr(a) in ChildrenOf(cells[p])
  {
    var k := |cells| - 1;
    OccursIfCounted(ChildrenOf(cells[k]), a);
    if Occurrences(ChildrenOf(cells[k]), a) > 0 {
      p := k;
    } else {
      p := SomeParent(cells[..k], a);
    }
  }

  // ----- Reachability -----

  predicate IsChild(cells: seq<Cell>, p: nat, a: nat) {
    p < |cells| && Ptr(a) in ChildrenOf(cells[p])
  }

  /** A chain of references from a handle down. */
  predicate IsPath(cells: seq<Cell>, handles: multiset<nat>, path: seq<nat>)
    decreases |path|
  {
    && path != []
    && if |path| == 1 then path[0] in handles
       else
         var upper := path[..|path| - 1];
         IsPath(cells, handles, upper) && IsChild(cells, upper[|upper| - 1], path[|path| - 1])
  }

  ghost predicate IsReachable(cells: seq<Cell>, handles: multiset<nat>, a: nat) {
    exists path :: IsPath(cells, handles, path) && path[|path| - 1] == a
  }

  /** The state between operations. */
  predicate IsConsistent(cells: seq<Cell>, handles: multiset<nat>, rank: seq<nat>) {
    && NothingDangles(cells, handles)
    && CountsMatch(cells, handles)
    && IsRanked(cells, rank)
    && forall a | 0 <= a < |cells| && cells[a].Live? :: cells[a].refCount > 0
  }

  lemma {:induction false} PathIsLive(cells: seq<Cell>, handles: multiset<nat>, path: seq<nat>)
    requires NothingDangles(cells, handles) && IsPath(cells, handles, path)
    ensures IsLive(cells, path[|path| - 1])
    decreases |path|
  {
    if |path| <= 1 {
    } else {
      PathIsLive(cells, handles, path[..|path| - 1]);
    }
  }

  function MaxRank(rank: seq<nat>): nat {
    if rank == [] then 0
    else
      var m := MaxRank(rank[..|rank| - 1]);
      if m < rank[|rank| - 1] then rank[|rank| - 1] else m
  }

  lemma {:induction false} RankBelowMax(rank: seq<nat>, i: nat)
    requires i < |rank|
    ensures rank[i] <= MaxRank(rank)
  {
    if i >= |rank| - 1 {
    } else {
      RankBelowMax(rank[..|rank| - 1], i);
    }
  }

  lemma ChildRanksBelow(cells: seq<Cell>, rank: seq<nat>, p: nat, a: nat)
    requires IsRanked(cells, rank) && IsChild(cells, p, a) && a < |cells|
    ensures rank[a] < rank[p]
  {
    var i :| 0 <= i < |ChildrenOf(cells[p])| && ChildrenOf(cells[p])[i] == Ptr(a);
  }

  /** Every live cell can be reached: follow parents upward until there is a handle. */
  lemma {:induction false} LiveIsReachable(cells: seq<Cell>, handles: multiset<nat>, rank: seq<nat>, a: nat)
    returns (path: seq<nat>)
    requires IsConsistent(cells, handles, rank) && IsLive(cells, a)
    ensures IsPath(cells, handles, path) && path[|path| - 1] == a
    decreases MaxRank(rank) - rank[a]
  {
    RankBelowMax(rank, a);
    if a in handles {
      path := [a];
    } else {
      assert CountMatches(cells, handles, a);
      var p := SomeParent(cells, a);
      RankBelowMax(rank, p);
      ChildRanksBelow(cells, rank, p, a);
      var upper := LiveIsReachable(cells, handles, rank, p);
      path := upper + [a];
      assert path[..|path| - 1] == upper;
    }
  }

  /** In a consistent memory exactly the cells that some handle leads to are live. */
  lemma LiveIffReachable(cells: seq<Cell>, handles: multiset<nat>, rank: seq<nat>, a: nat)
    requires IsConsistent(cells, handles, rank)
    ensures IsLive(cells, a) <==> IsReachable(cells, handles, a)
  {
    if IsLive(cells, a) {
      var path := LiveIsReachable(cells, handles, rank, a);
    }
    if IsReachable(cells, handles, a) {
      var path :| IsPath(cells, handles, path) && path[|path| - 1] == a;
      PathIsLive(cells, handles, path);
    }
  }

  // ----- Releasing -----

  /** The state inside a release: the cells whose count has dropped to zero are still in memory and still
      hold their references. */
  predicate IsDraining(cells: seq<Cell>, handles: multiset<nat>, rank: seq<nat>, zeros: set<nat>) {
    && NothingDangles(cells, handles)
    && CountsMatch(cells, handles)
    && IsRanked(cells, rank)
    && AreZeros(cells, zeros)
  }

  predicate AreZeros(cells: seq<Cell>, zeros: set<nat>) {
    && (forall a | a in zeros :: IsLive(cells, a))
    && forall a | 0 <= a < |cells| && cells[a].Live? :: cells[a].refCount == 0 <==> a in zeros
  }

  /** The memory with the children of t cut down to those from the i-th on. */
  function Cut(cells: seq<Cell>, t: nat, i: nat): seq<Cell>
    requires IsLive(cells, t) && i <= |cells[t].children|
  {
    cells[t := cells[t].(children := cells[t].children[i..])]
  }

  function Decremented(cells: seq<Cell>, a: nat): seq<Cell>
    requires IsLive(cells, a) && cells[a].refCount > 0
  {
    cells[a := cells[a].(refCount := cells[a].refCount - 1)]
  }

  /** The same up to the count. */
  predicate SameNode(c: Cell, d: Cell) {
    c.Live? == d.Live? && (c.Live? ==> c.fields == d.fields && c.children == d.children)
  }

  /** Nothing has happened but that one count went down by one. */
  predicate IsDecrement(before: seq<Cell>, after: seq<Cell>, a: nat)
    requires IsLive(before, a)
  {
    && |before| == |after|
    && forall x | 0 <= x < |before| ::
         if x != a then after[x] == before[x]
         else SameNode(before[x], after[x]) && after[x].refCount == before[x].refCount - 1
  }

  /** The same cells are live; each has the same children, or all but the first of them. */
  predicate IsThinned(before: seq<Cell>, after: seq<Cell>) {
    && |before| == |after|
    && forall a | 0 <= a < |before| ::
         && before[a].Live? == after[a].Live?
         && (|| ChildrenOf(after[a]) == ChildrenOf(before[a])
             || (ChildrenOf(before[a]) != [] && ChildrenOf(after[a]) == ChildrenOf(before[a])[1..]))
  }

  lemma ThinnedStructure(cells: seq<Cell>, after: seq<Cell>, handles: multiset<nat>, rank: seq<nat>)
    requires NothingDangles(cells, handles) && IsRanked(cells, rank) && IsThinned(cells, after)
    ensures NothingDangles(after, handles) && IsRanked(after, rank)
  {
    forall p | 0 <= p < |after|
      ensures AllLive(after, ChildrenOf(after[p])) && RanksBelow(ChildrenOf(after[p]), rank, rank[p])
    {
      var (olds, news) := (ChildrenOf(cells[p]), ChildrenOf(after[p]));
      assert AllLive(cells, olds) && RanksBelow(olds, rank, rank[p]);
      forall i | 0 <= i < |news| && news[i].Ptr?
        ensures IsLive(after, news[i].address)
        ensures news[i].address < |rank| ==> rank[news[i].address] < rank[p]
      {
        var j := if news == olds then i else i + 1;
        assert news[i] == olds[j] && IsLive(cells, olds[j].address);
      }
    }
  }

  lemma ParentsAfterCut(cells: seq<Cell>, t: nat, a: nat)
    requires IsLive(cells, t) && |cells[t].children| > 0
    ensures Parents(Cut(cells, t, 1), a) + (if cells[t].children[0] == Ptr(a) then 1 else 0) == Parents(cells, a)
  {
    ParentsAfterUpdate(cells, t, Cut(cells, t, 1)[t], a);
  }

  /** Dropping a reference that is stored inline. */
  lemma DropInline(cells: seq<Cell>, handles: multiset<nat>, rank: seq<nat>, zeros: set<nat>, t: nat)
    requires IsDraining(cells, handles, rank, zeros) && t in zeros
    requires |cells[t].children| > 0 && cells[t].children[0].Inline?
    ensures IsDraining(Cut(cells, t, 1), handles, rank, zeros)
  {
    var cut := Cut(cells, t, 1);
    ThinnedStructure(cells, cut, handles, rank);
    forall a | 0 <= a < |cut|
      ensures CountMatches(cut, handles, a)
    {
      assert CountMatches(cells, handles, a);
      ParentsAfterCut(cells, t, a);
    }
  }

  lemma FirstChildIsCounted(cells: seq<Cell>, handles: multiset<nat>, rank: seq<nat>, zeros: set<nat>, t: nat)
    requires IsDraining(cells, handles, rank, zeros) && t in zeros
    requires |cells[t].children| > 0 && cells[t].children[0].Ptr?
    ensures var c := cells[t].children[0].address; c != t && IsLive(cells, c) && cells[c].refCount > 0
  {
    var c := cells[t].children[0].address;
    assert AllLive(cells, ChildrenOf(cells[t])) && CountMatches(cells, handles, c);
    ParentsCounted(cells, t, c);
    ChildRanksBelow(cells, rank, t, c);
  }

  function WithoutFirst(cells: seq<Cell>, t: nat, c: nat): seq<Cell>
    requires t != c && IsLive(cells, t) && |cells[t].children| > 0
    requires IsLive(cells, c) && cells[c].refCount > 0
  {
    Decremented(Cut(cells, t, 1), c)
  }

  lemma DropPointerCount(cells: seq<Cell>, t: nat, c: nat, a: nat)
    requires t != c && IsLive(cells, t) && |cells[t].children| > 0 && cells[t].children[0] == Ptr(c)
    requires IsLive(cells, c) && cells[c].refCount > 0 && IsLive(cells, a)
    ensures var after := WithoutFirst(cells, t, c);
            && IsLive(after, a)
            && after[a].refCount + Parents(cells, a) == cells[a].refCount + Parents(after, a)
  {
    var cut := Cut(cells, t, 1);
    ParentsAfterCut(cells, t, a);
    ParentsAfterUpdate(cut, c, Decremented(cut, c)[c], a);
  }

  lemma DropPointerThins(cells: seq<Cell>, t: nat, c: nat)
    requires t != c && IsLive(cells, t) && |cells[t].children| > 0 && cells[t].children[0] == Ptr(c)
    requires IsLive(cells, c) && cells[c].refCount > 0
    ensures var after := WithoutFirst(cells, t, c);
            && IsThinned(cells, after)
            && forall a | 0 <= a < |cells| && cells[a].Live? ::
                 after[a].refCount == if a == c then cells[a].refCount - 1 else cells[a].refCount
  {
  }

  /** Dropping a reference to a cell, whose count goes down by one. */
  lemma DropPointer(cells: seq<Cell>, handles: multiset<nat>, rank: seq<nat>, zeros: set<nat>, t: nat, c: nat)
    requires IsDraining(cells, handles, rank, zeros) && t in zeros
    requires |cells[t].children| > 0 && cells[t].children[0] == Ptr(c)
    requires c != t && IsLive(cells, c) && cells[c].refCount > 0
    ensures IsDraining(WithoutFirst(cells, t, c), handles, rank, if cells[c].refCount == 1 then zeros + {c} else zeros)
  {
    var after := WithoutFirst(cells, t, c);
    DropPointerThins(cells, t, c);
    ThinnedStructure(cells, after, handles, rank);
    DropPointerZeros(cells, zeros, t, c);
    forall a | 0 <= a < |after|
      ensures CountMatches(after, handles, a)
    {
      assert CountMatches(cells, handles, a);
      if IsLive(after, a) {
        DropPointerCount(cells, t, c, a);
      }
    }
  }

  lemma DropPointerZeros(cells: seq<Cell>, zeros: set<nat>, t: nat, c: nat)
    requires AreZeros(cells, zeros) && t != c && IsLive(cells, t) && IsLive(cells, c)
    requires |cells[t].children| > 0 && cells[t].children[0] == Ptr(c) && cells[c].refCount > 0
    ensures AreZeros(WithoutFirst(cells, t, c), if cells[c].refCount == 1 then zeros + {c} else zeros)
  {
  }

  lemma NoParent(cells: seq<Cell>, t: nat, p: nat)
    requires Parents(cells, t) == 0 && p < |cells|
    ensures Ptr(t) !in ChildrenOf(cells[p])
  {
    ParentsCounted(cells, p, t);
    OccursIfCounted(ChildrenOf(cells[p]), t);
  }

  lemma FreedRefs(cells: seq<Cell>, t: nat, refs: seq<Ref>)
    requires AllLive(cells, refs) && IsLive(cells, t) && Ptr(t) !in refs
    ensures AllLive(cells[t := Freed], refs)
  {
  }

  lemma FreedStructure(cells: seq<Cell>, rank: seq<nat>, handles: multiset<nat>, t: nat)
    requires NothingDangles(cells, handles) && IsRanked(cells, rank) && IsLive(cells, t)
    requires Parents(cells, t) == 0 && t !in handles
    ensures NothingDangles(cells[t := Freed], handles) && IsRanked(cells[t := Freed], rank)
  {
    FreedDangles(cells, handles, t);
    FreedRanks(cells, rank, t);
  }

  lemma FreedDangles(cells: seq<Cell>, handles: multiset<nat>, t: nat)
    requires NothingDangles(cells, handles) && IsLive(cells, t) && Parents(cells, t) == 0 && t !in handles
    ensures NothingDangles(cells[t := Freed], handles)
  {
    var after := cells[t := Freed];
    forall a | a in handles
      ensures IsLive(after, a)
    {
      assert IsLive(cells, a) && a != t;
    }
    forall p | 0 <= p < |after|
      ensures AllLive(after, ChildrenOf(after[p]))
    {
      FreedChildren(cells, handles, t, p);
    }
  }

  lemma FreedChildren(cells: seq<Cell>, handles: multiset<nat>, t: nat, p: nat)
    requires NothingDangles(cells, handles) && IsLive(cells, t) && Parents(cells, t) == 0 && p < |cells|
    ensures AllLive(cells[t := Freed], ChildrenOf(cells[t := Freed][p]))
  {
    NoParent(cells, t, p);
    FreedRefs(cells, t, ChildrenOf(cells[p]));
  }

  lemma FreedRanks(cells: seq<Cell>, rank: seq<nat>, t: nat)
    requires IsRanked(cells, rank) && t < |cells|
    ensures IsRanked(cells[t := Freed], rank)
  {
    forall p | 0 <= p < |cells|
      ensures RanksBelow(ChildrenOf(cells[t := Freed][p]), rank, rank[p])
    {
      assert RanksBelow(ChildrenOf(cells[p]), rank, rank[p]);
    }
  }

  lemma FreedZeros(cells: seq<Cell>, zeros: set<nat>, t: nat)
    requires AreZeros(cells, zeros) && t in zeros
    ensures AreZeros(cells[t := Freed], zeros - {t})
  {
  }

  /** A cell with count zero and no children left can be freed. */
  lemma FreeCell(cells: seq<Cell>, handles: multiset<nat>, rank: seq<nat>, zeros: set<nat>, t: nat)
    requires IsDraining(cells, handles, rank, zeros) && t in zeros && |cells[t].children| == 0
    ensures IsDraining(cells[t := Freed], handles, rank, zeros - {t})
  {
    assert CountMatches(cells, handles, t);
    FreedStructure(cells, rank, handles, t);
    FreedZeros(cells, zeros, t);
    var after := cells[t := Freed];
    forall a | 0 <= a < |after|
      ensures CountMatches(after, handles, a)
    {
      FreedCount(cells, handles, t, a);
    }
  }

  lemma FreedCount(cells: seq<Cell>, handles: multiset<nat>, t: nat, a: nat)
    requires IsLive(cells, t) && |cells[t].children| == 0 && CountMatches(cells, handles, a)
    requires cells[t].refCount == 0
    ensures CountMatches(cells[t := Freed], handles, a)
  {
    ParentsAfterUpdate(cells, t, Freed, a);
  }

  function Incremented(cells: seq<Cell>, a: nat): seq<Cell>
    requires IsLive(cells, a)
  {
    cells[a := cells[a].(refCount := cells[a].refCount + 1)]
  }

  lemma RetainCount(cells: seq<Cell>, handles: multiset<nat>, a: nat, x: nat)
    requires IsLive(cells, a) && CountMatches(cells, handles, x)
    ensures CountMatches(Incremented(cells, a), handles + multiset{a}, x)
  {
    ParentsAfterUpdate(cells, a, Incremented(cells, a)[a], x);
  }

  lemma RetainKeeps(cells: seq<Cell>, handles: multiset<nat>, rank: seq<nat>, a: nat)
    requires IsConsistent(cells, handles, rank) && IsLive(cells, a)
    ensures IsConsistent(Incremented(cells, a), handles + multiset{a}, rank)
  {
    var after := Incremented(cells, a);
    ThinnedStructure(cells, after, handles, rank);
    forall x | 0 <= x < |after|
      ensures CountMatches(after, handles + multiset{a}, x)
    {
      RetainCount(cells, handles, a, x);
    }
  }

  lemma RetainExtends(cells: seq<Cell>, a: nat)
    requires IsLive(cells, a)
    ensures HasGained(cells, Incremented(cells, a))
  {
  }

  /** All the old cells are still there with their fields and children. */
  predicate IsExtension(before: seq<Cell>, after: seq<Cell>) {
    && |before| <= |after|
    && forall a | 0 <= a < |before| :: SameNode(before[a], after[a])
  }

  /** The same cells are there, and no live one has lost references. */
  predicate HasGained(before: seq<Cell>, after: seq<Cell>) {
    && |after| == |before| && IsExtension(before, after)
    && forall a | 0 <= a < |before| && before[a].Live? :: after[a].Live? && before[a].refCount <= after[a].refCount
  }

  lemma DecrementRemains(cells: seq<Cell>, a: nat)
    requires IsLive(cells, a) && cells[a].refCount > 0
    ensures IsRemainder(cells, Decremented(cells, a)) && IsDecrement(cells, Decremented(cells, a), a)
  {
  }

  lemma CopyStays(before: seq<Cell>, copied: seq<Cell>, after: seq<Cell>, a: nat)
    requires IsCopied(before, copied, a) && IsLive(copied, a) && IsDecrement(copied, after, a)
    ensures IsCopied(before, after, a)
  {
  }

  /** There is one more cell, which is like a but has one reference. */
  predicate IsCopied(before: seq<Cell>, after: seq<Cell>, a: nat) {
    && IsLive(before, a) && |after| == |before| + 1 && IsExtension(before, after)
    && after[|before|] == before[a].(refCount := 1)
  }

  lemma CopyAppended(before: seq<Cell>, cells: seq<Cell>, a: nat)
    requires IsLive(before, a) && HasGained(before, cells)
    ensures var after := cells + [before[a].(refCount := 1)];
            IsCopied(before, after, a)
  {
  }

  lemma ExtendsTwice(a: seq<Cell>, b: seq<Cell>, c: seq<Cell>)
    requires HasGained(a, b) && HasGained(b, c)
    ensures HasGained(a, c)
  {
  }

  // ----- The memory and its operations -----

  /** Everything still live was live, with the same fields and children. */
  predicate IsRemainder(before: seq<Cell>, after: seq<Cell>) {
    && |before| == |after|
    && forall a | 0 <= a < |before| && after[a].Live? :: SameNode(before[a], after[a])
  }

  /** The handles that a reference stands for. */
  function HandleOf(r: Ref): multiset<nat> {
    if r.Ptr? then multiset{r.address} else multiset{}
  }

  /** The handles once the first i references have been retained. */
  function WithHandles(before: multiset<nat>, refs: seq<Ref>, i: nat): multiset<nat>
    requires i <= |refs|
  {
    before + Pointers(refs[..i])
  }

  lemma NextHandle(before: multiset<nat>, refs: seq<Ref>, i: nat, next: nat)
    requires i < |refs| && next == i + 1
    ensures WithHandles(before, refs, next) == WithHandles(before, refs, i) + HandleOf(refs[i])
  {
    assert refs[..next][..i] == refs[..i];
  }

  lemma FreedRemainder(before: seq<Cell>, now: seq<Cell>, cells: seq<Cell>, t: nat)
    requires IsRemainder(before, now) && IsRemainder(now, cells) && t < |cells|
    ensures IsRemainder(before, cells[t := Freed])
  {
  }

  class SubtreePool {
    var cells: seq<Cell>
    /** The references held outside the memory. */
    ghost var handles: multiset<nat>
    ghost var rank: seq<nat>

    ghost predicate Valid()
      reads `cells, `handles, `rank
    {
      IsConsistent(cells, handles, rank)
    }

    constructor ()
      ensures Valid() && cells == [] && handles == multiset{}
    {
      cells := [];
      handles := multiset{};
      rank := [];
    }

    /** ts_subtree_retain. */
    method Retain(self: Ref)
      requires Valid() && (self.Ptr? ==> IsLive(cells, self.address))
      modifies this`cells, this`handles
      ensures Valid()
      ensures cells == if self.Ptr? then Incremented(old(cells), self.address) else old(cells)
      ensures handles == old(handles) + HandleOf(self)
    {
      if self.Ptr? {
        RetainKeeps(cells, handles, rank, self.address);
        handles := handles + multiset{self.address};
        cells := Incremented(cells, self.address);
      }
    }

    method Install(newCells: seq<Cell>, ghost newHandles: multiset<nat>, ghost newRank: seq<nat>)
      requires IsConsistent(newCells, newHandles, newRank)
      modifies this
      ensures Valid() && cells == newCells && handles == newHandles && rank == newRank
    {
      cells, handles, rank := newCells, newHandles, newRank;
    }

    /** ts_subtree_new_node: the new node takes over the handles on its children.  A node without children is
        ts_subtree_new_leaf. */
    method NewNode(fields: Fields, children: seq<Ref>) returns (r: Ref)
      requires Valid() && Pointers(children) <= handles
      modifies this
      ensures Valid()
      ensures r == Ptr(|old(cells)|) && cells == old(cells) + [Live(1, fields, children)]
      ensures handles == old(handles) - Pointers(children) + multiset{|old(cells)|}
    {
      r := Ptr(|cells|);
      var newCells := cells + [Live(1, fields, children)];
      ghost var newHandles := handles - Pointers(children) + multiset{|cells|};
      ghost var newRank := rank + [MaxRank(rank) + 1];
      NewNodeKeeps(cells, handles, rank, fields, children, newCells, newHandles);
      Install(newCells, newHandles, newRank);
    }

    /** The loop of ts_subtree_clone over the copied children. */
    method RetainAll(children: seq<Ref>)
      requires Valid() && AllLive(cells, children)
      modifies this`cells, this`handles
      ensures Valid() && handles == old(handles) + Pointers(children)
      ensures HasGained(old(cells), cells)
    {
      var i := 0;
      while i < |children|
        invariant 0 <= i <= |children| && Valid() && handles == WithHandles(old(handles), children, i)
        invariant HasGained(old(cells), cells)
      {
        NextHandle(old(handles), children, i, i + 1);
        RetainNext(children[i], old(cells));
        i := i + 1;
      }
      assert children[..i] == children;
    }

    method RetainNext(child: Ref, ghost before: seq<Cell>)
      requires Valid() && (child.Ptr? ==> IsLive(cells, child.address))
      requires HasGained(before, cells)
      modifies this`cells, this`handles
      ensures Valid() && handles == old(handles) + HandleOf(child)
      ensures HasGained(before, cells)
    {
      ghost var now := cells;
      Retain(child);
      if child.Ptr? {
        RetainExtends(now, child.address);
        ExtendsTwice(before, now, cells);
      }
    }

    /** ts_subtree_clone: a second node over the same children, each of which gains a reference. */
    method Clone(self: nat) returns (r: Ref)
      requires Valid() && IsLive(cells, self)
      modifies this
      ensures Valid()
      ensures r == Ptr(|old(cells)|) && handles == old(handles) + multiset{|old(cells)|}
      ensures IsCopied(old(cells), cells, self) && cells[self].refCount >= old(cells)[self].refCount
    {
      var fields, children := cells[self].fields, cells[self].children;
      assert AllLive(cells, ChildrenOf(cells[self]));
      ghost var before := cells;
      RetainAll(children);
      CopyAppended(before, cells, self);
      r := NewNode(fields, children);
    }

    /** Trades a handle on a shared cell for one on a copy. */
    method Unshare(self: nat) returns (r: nat)
      requires Valid() && self in handles && IsLive(cells, self) && cells[self].refCount > 1
      modifies this
      ensures Valid()
      ensures r == |old(cells)| && handles == old(handles) + multiset{r} - multiset{self}
      ensures IsCopied(old(cells), cells, self)
    {
      var clone := Clone(self);
      r := clone.address;
      ghost var now := cells;
      GiveUp(self);
      CopyStays(old(cells), now, cells, self);
    }

    /** ts_subtree_make_mut: trades a handle for one on a cell that nothing else refers to.  Everything else
        in memory is left as it is. */
    method MakeMut(self: Ref) returns (r: Ref)
      requires Valid() && (self.Ptr? ==> self.address in handles)
      modifies this
      ensures Valid() && handles == old(handles) + HandleOf(r) - HandleOf(self)
      ensures self.Ptr? ==> IsLive(old(cells), self.address) && old(cells)[self.address].refCount > 0
      ensures if self.Ptr? && old(cells)[self.address].refCount > 1
              then r == Ptr(|old(cells)|) && IsCopied(old(cells), cells, self.address)
              else r == self && cells == old(cells)
    {
      r := self;
      if self.Ptr? {
        assert IsLive(cells, self.address);
        if cells[self.address].refCount != 1 {
          var a := Unshare(self.address);
          r := Ptr(a);
        }
      }
    }

    /** The inner loop of ts_subtree_release: drops the children of a cell whose count is zero.  `others` are
        the other such cells, which are stacked. */
    method ReleaseChildren(tree: nat, pending: seq<nat>, ghost others: set<nat>)
      returns (stack: seq<nat>, ghost left: set<nat>)
      requires tree !in others && IsStackOf(pending, others)
      requires IsDraining(cells, handles, rank, others + {tree})
      modifies this`cells
      ensures tree !in left && IsStackOf(stack, left)
      ensures IsLive(cells, tree) && LiveCount(cells) == LiveCount(old(cells)) && IsRemainder(old(cells), cells)
      ensures IsDraining(Cut(cells, tree, |cells[tree].children|), handles, rank, left + {tree})
    {
      stack, left := pending, others;
      var children := cells[tree].children;
      var i := 0;
      assert Cut(cells, tree, 0) == cells;
      while i < |children|
        invariant i <= |children|
        invariant IsReleasing(old(cells), cells, handles, rank, tree, children, i, stack, left)
      {
        var child := children[i];
        var next := i + 1;
        if child.Inline? {
          ReleasingInline(old(cells), cells, handles, rank, tree, children, i, next, stack, left);
        } else {
          var c := child.address;
          ReleasingStep(old(cells), cells, handles, rank, tree, children, i, next, c, stack, left);
          cells := Decremented(cells, c);
          if cells[c].refCount == 0 {
            stack, left := stack + [c], left + {c};
          }
        }
        i := next;
      }
    }

    /** The outer loop of ts_subtree_release: frees the stacked cells and what they alone kept alive. */
    method Drain(pending: seq<nat>, ghost stacked: set<nat>)
      requires IsDraining(cells, handles, rank, stacked) && IsStackOf(pending, stacked)
      modifies this`cells
      ensures IsDraining(cells, handles, rank, {}) && IsRemainder(old(cells), cells)
    {
      var stack := pending;
      ghost var zeros, before := stacked, cells;
      while stack != []
        invariant IsDraining(cells, handles, rank, zeros) && IsStackOf(stack, zeros)
        invariant IsRemainder(before, cells)
        decreases LiveCount(cells)
      {
        var tree := stack[|stack| - 1];
        PopZero(stack, zeros);
        stack := stack[..|stack| - 1];
        ghost var now := cells;
        stack, zeros := ReleaseChildren(tree, stack, zeros - {tree});
        FreeReleased(cells, handles, rank, zeros, tree);
        LiveCountAfterUpdate(cells, tree, Freed);
        FreedRemainder(before, now, cells, tree);
        cells := cells[tree := Freed];
      }
      assert zeros == {};
    }

    method GiveUp(address: nat)
      requires Valid() && address in handles
      modifies this`cells, this`handles
      ensures Valid() && handles == old(handles) - multiset{address} && IsRemainder(old(cells), cells)
      ensures old(cells)[address].refCount > 1 ==> IsDecrement(old(cells), cells, address)
    {
      ghost var before := cells;
      StartRelease(cells, handles, rank, address);
      DecrementRemains(cells, address);
      handles := handles - multiset{address};
      cells := Decremented(cells, address);
      if cells[address].refCount == 0 {
        DrainFrom(address, before);
      }
      Drained(cells, handles, rank);
    }

    method DrainFrom(address: nat, ghost before: seq<Cell>)
      requires IsDraining(cells, handles, rank, {address}) && IsRemainder(before, cells)
      modifies this`cells
      ensures IsDraining(cells, handles, rank, {}) && IsRemainder(before, cells)
    {
      Drain([address], {address});
    }

    /** ts_subtree_release: gives up one handle.  Exactly the cells that the remaining handles lead to stay in
        memory, with the children they had. */
    method Release(self: Ref)
      requires Valid() && (self.Ptr? ==> self.address in handles)
      modifies this`cells, this`handles
      ensures Valid()
      ensures handles == old(handles) - HandleOf(self)
      ensures IsRemainder(old(cells), cells)
      ensures forall a: nat :: IsLive(cells, a) <==> IsReachable(old(cells), handles, a)
      ensures self.Ptr? && old(cells)[self.address].refCount > 1 ==> IsDecrement(old(cells), cells, self.address)
    {
      ghost var before := cells;
      if self.Ptr? {
        GiveUp(self.address);
      }
      ReleasedExactly(before, cells, handles, rank);
    }
  }

  lemma PopZero(stack: seq<nat>, zeros: set<nat>)
    requires IsStackOf(stack, zeros) && stack != []
    ensures var top := stack[|stack| - 1];
            top in zeros && IsStackOf(stack[..|stack| - 1], zeros - {top}) && zeros - {top} + {top} == zeros
  {
    var (top, rest) := (stack[|stack| - 1], stack[..|stack| - 1]);
    forall a | a in zeros - {top}
      ensures a in rest
    {
      var i :| 0 <= i < |stack| && stack[i] == a;
      assert rest[i] == a;
    }
  }

  lemma StartCount(cells: seq<Cell>, handles: multiset<nat>, a: nat, x: nat)
    requires IsLive(cells, a) && cells[a].refCount > 0 && a in handles && CountMatches(cells, handles, x)
    ensures CountMatches(Decremented(cells, a), handles - multiset{a}, x)
  {
    ParentsAfterUpdate(cells, a, Decremented(cells, a)[a], x);
  }

  lemma StartRelease(cells: seq<Cell>, handles: multiset<nat>, rank: seq<nat>, a: nat)
    requires IsConsistent(cells, handles, rank) && a in handles
    ensures IsLive(cells, a) && cells[a].refCount > 0
    ensures IsDraining(Decremented(cells, a), handles - multiset{a}, rank, if cells[a].refCount == 1 then {a} else {})
  {
    var after := Decremented(cells, a);
    ThinnedStructure(cells, after, handles, rank);
    forall x | 0 <= x < |after|
      ensures CountMatches(after, handles - multiset{a}, x)
    {
      StartCount(cells, handles, a, x);
    }
    assert AreZeros(after, if cells[a].refCount == 1 then {a} else {});
  }

  lemma FreeReleased(cells: seq<Cell>, handles: multiset<nat>, rank: seq<nat>, left: set<nat>, t: nat)
    requires IsLive(cells, t) && t !in left
    requires IsDraining(Cut(cells, t, |cells[t].children|), handles, rank, left + {t})
    ensures IsDraining(cells[t := Freed], handles, rank, left)
  {
    var view := Cut(cells, t, |cells[t].children|);
    FreeCell(view, handles, rank, left + {t}, t);
    assert view[t := Freed] == cells[t := Freed];
    assert left + {t} - {t} == left;
  }

  lemma {:induction false} PathStays(before: seq<Cell>, after: seq<Cell>, handles: multiset<nat>, path: seq<nat>)
    requires IsRemainder(before, after) && NothingDangles(after, handles)
    requires IsPath(before, handles, path) || IsPath(after, handles, path)
    ensures IsPath(before, handles, path) && IsPath(after, handles, path) && IsLive(after, path[|path| - 1])
    decreases |path|
  {
    if |path| <= 1 {
    } else {
      var upper := path[..|path| - 1];
      PathStays(before, after, handles, upper);
      assert AllLive(after, ChildrenOf(after[upper[|upper| - 1]]));
    }
  }

  lemma Drained(cells: seq<Cell>, handles: multiset<nat>, rank: seq<nat>)
    requires IsDraining(cells, handles, rank, {})
    ensures IsConsistent(cells, handles, rank)
  {
  }

  /** What is left is what the handles could reach before. */
  lemma ReleasedExactly(before: seq<Cell>, after: seq<Cell>, handles: multiset<nat>, rank: seq<nat>)
    requires IsConsistent(after, handles, rank) && IsRemainder(before, after)
    ensures forall a: nat :: IsLive(after, a) <==> IsReachable(before, handles, a)
  {
    forall a: nat
      ensures IsLive(after, a) <==> IsReachable(before, handles, a)
    {
      if IsLive(after, a) {
        var path := LiveIsReachable(after, handles, rank, a);
        PathStays(before, after, handles, path);
      }
      if IsReachable(before, handles, a) {
        var path :| IsPath(before, handles, path) && path[|path| - 1] == a;
        PathStays(before, after, handles, path);
      }
    }
  }

  /** The state of the loop over the children of `tree`, at the i-th. */
  predicate IsReleasing(before: seq<Cell>, cells: seq<Cell>, handles: multiset<nat>, rank: seq<nat>, tree: nat,
                        children: seq<Ref>, i: nat, stack: seq<nat>, left: set<nat>)
  {
    && i <= |children| && IsLive(cells, tree) && cells[tree].children == children
    && LiveCount(cells) == LiveCount(before) && IsRemainder(before, cells)
    && tree !in left && IsStackOf(stack, left)
    && IsDraining(Cut(cells, tree, i), handles, rank, left + {tree})
  }

  lemma ReleasingInline(before: seq<Cell>, cells: seq<Cell>, handles: multiset<nat>, rank: seq<nat>, tree: nat,
                        children: seq<Ref>, i: nat, next: nat, stack: seq<nat>, left: set<nat>)
    requires IsReleasing(before, cells, handles, rank, tree, children, i, stack, left)
    requires next == i + 1 <= |children| && children[i].Inline?
    ensures IsReleasing(before, cells, handles, rank, tree, children, next, stack, left)
  {
    CutInline(cells, handles, rank, left, tree, i, next);
  }

  lemma ReleasingStep(before: seq<Cell>, cells: seq<Cell>, handles: multiset<nat>, rank: seq<nat>, tree: nat,
                      children: seq<Ref>, i: nat, next: nat, c: nat, stack: seq<nat>, left: set<nat>)
    requires IsReleasing(before, cells, handles, rank, tree, children, i, stack, left)
    requires next == i + 1 <= |children| && children[i] == Ptr(c)
    ensures IsLive(cells, c) && cells[c].refCount > 0
    ensures cells[c].refCount == 1 ==>
              IsReleasing(before, Decremented(cells, c), handles, rank, tree, children, next, stack + [c], left + {c})
    ensures cells[c].refCount > 1 ==>
              IsReleasing(before, Decremented(cells, c), handles, rank, tree, children, next, stack, left)
  {
    CutPointer(cells, handles, rank, left, tree, i, next, c);
  }

  /** The stack holds each of these addresses once. */
  predicate IsStackOf(stack: seq<nat>, addresses: set<nat>) {
    && (forall i | 0 <= i < |stack| :: stack[i] in addresses)
    && (forall a | a in addresses :: a in stack)
    && forall i, j | 0 <= i < j < |stack| :: stack[i] != stack[j]
  }

  /** One turn of the loop over the children, at a child stored inline. */
  lemma CutInline(cells: seq<Cell>, handles: multiset<nat>, rank: seq<nat>, left: set<nat>, t: nat, i: nat, next: nat)
    requires IsLive(cells, t) && next == i + 1 <= |cells[t].children| && cells[t].children[i].Inline?
    requires IsDraining(Cut(cells, t, i), handles, rank, left + {t})
    ensures IsDraining(Cut(cells, t, next), handles, rank, left + {t})
  {
    CutTwice(cells, t, i, next);
    DropInline(Cut(cells, t, i), handles, rank, left + {t}, t);
  }

  /** One turn at a child that is a cell: its count goes down, perhaps to zero. */
  lemma CutPointer(cells: seq<Cell>, handles: multiset<nat>, rank: seq<nat>, left: set<nat>, t: nat, i: nat, next: nat,
                   c: nat)
    requires IsLive(cells, t) && next == i + 1 <= |cells[t].children| && cells[t].children[i] == Ptr(c)
    requires IsDraining(Cut(cells, t, i), handles, rank, left + {t})
    ensures c != t && c !in left && IsLive(cells, c) && cells[c].refCount > 0
    ensures LiveCount(Decremented(cells, c)) == LiveCount(cells)
    ensures IsDraining(Cut(Decremented(cells, c), t, next), handles, rank,
                       (if cells[c].refCount == 1 then left + {c} else left) + {t})
  {
    var view := Cut(cells, t, i);
    CutTwice(cells, t, i, next);
    FirstChildIsCounted(view, handles, rank, left + {t}, t);
    DropPointer(view, handles, rank, left + {t}, t, c);
    LiveCountAfterUpdate(cells, c, Decremented(cells, c)[c]);
    CutDecremented(cells, t, i, next, c);
    assert left + {c} + {t} == left + {t} + {c};
  }

  lemma CutDecremented(cells: seq<Cell>, t: nat, i: nat, next: nat, c: nat)
    requires IsLive(cells, t) && next == i + 1 <= |cells[t].children|
    requires c != t && IsLive(cells, c) && cells[c].refCount > 0
    ensures WithoutFirst(Cut(cells, t, i), t, c) == Cut(Decremented(cells, c), t, next)
  {
  }

  lemma CutTwice(cells: seq<Cell>, t: nat, i: nat, next: nat)
    requires IsLive(cells, t) && next == i + 1 <= |cells[t].children|
    ensures Cut(Cut(cells, t, i), t, 1) == Cut(cells, t, next)
    ensures Cut(cells, t, i)[t].children[0] == cells[t].children[i]
  {
  }

  function LiveCount(cells: seq<Cell>): nat {
    if cells == [] then 0
    else LiveCount(cells[..|cells| - 1]) + (if cells[|cells| - 1].Live? then 1 else 0)
  }

  lemma {:induction false} LiveCountAfterUpdate(cells: seq<Cell>, a: nat, c: Cell)
    requires a < |cells|
    ensures LiveCount(cells[a := c]) + (if cells[a].Live? then 1 else 0)
            == LiveCount(cells) + (if c.Live? then 1 else 0)
  {
    var k := |cells| - 1;
    if a < k {
      LiveCountAfterUpdate(cells[..k], a, c);
      assert cells[a := c][..k] == cells[..k][a := c];
    } else {
      assert cells[a := c][..k] == cells[..k];
    }
  }

  // ----- Creating and copying -----

  lemma {:induction false} OccurrencesAfterUpdate(refs: seq<Ref>, i: nat, r: Ref, a: nat)
    requires i < |refs|
    ensures Occurrences(refs[i := r], a) + (if refs[i] == Ptr(a) then 1 else 0)
            == Occurrences(refs, a) + (if r == Ptr(a) then 1 else 0)
  {
    if i > 0 {
      assert refs[i := r][1..] == refs[1..][i - 1 := r];
      OccurrencesAfterUpdate(refs[1..], i - 1, r, a);
    } else {
      assert refs[i := r][1..] == refs[1..];
    }
  }

  function Pointers(refs: seq<Ref>): multiset<nat> {
    if refs == [] then multiset{}
    else
      Pointers(refs[..|refs| - 1]) + HandleOf(refs[|refs| - 1])
  }

  lemma {:induction false} PointersCount(refs: seq<Ref>, a: nat)
    ensures Pointers(refs)[a] == Occurrences(refs, a)
    decreases |refs|
  {
    if refs == [] {
    } else {
      var k := |refs| - 1;
      PointersCount(refs[..k], a);
      OccurrencesFromEnd(refs, a);
    }
  }

  lemma {:induction false} OccurrencesFromEnd(refs: seq<Ref>, a: nat)
    requires refs != []
    ensures Occurrences(refs, a)
            == Occurrences(refs[..|refs| - 1], a) + (if refs[|refs| - 1] == Ptr(a) then 1 else 0)
    decreases |refs|
  {
    if |refs| <= 1 {
    } else {
      OccurrencesFromEnd(refs[1..], a);
      assert refs[1..][..|refs[1..]| - 1] == refs[..|refs| - 1][1..];
    }
  }

  lemma PointersLive(cells: seq<Cell>, handles: multiset<nat>, children: seq<Ref>)
    requires NothingDangles(cells, handles) && Pointers(children) <= handles
    ensures AllLive(cells, children)
  {
    forall i | 0 <= i < |children| && children[i].Ptr?
      ensures IsLive(cells, children[i].address)
    {
      PointersCount(children, children[i].address);
      OccursIfCounted(children, children[i].address);
    }
  }

  lemma AppendedCounts(cells: seq<Cell>, handles: multiset<nat>, fields: Fields, children: seq<Ref>, x: nat)
    requires NothingDangles(cells, handles) && CountsMatch(cells, handles) && Pointers(children) <= handles
    ensures CountMatches(cells + [Live(1, fields, children)], handles - Pointers(children) + multiset{|cells|}, x)
  {
    var after := cells + [Live(1, fields, children)];
    assert after[..|after| - 1] == cells;
    PointersCount(children, x);
    if x < |cells| {
      assert CountMatches(cells, handles, x);
    } else if x == |cells| {
      PointersLive(cells, handles, children);
      OccursIfCounted(children, x);
      ParentsOnlyOfLive(cells, handles, x);
    }
  }

  lemma ParentsOnlyOfLive(cells: seq<Cell>, handles: multiset<nat>, x: nat)
    requires NothingDangles(cells, handles)
    ensures Parents(cells, x) > 0 ==> IsLive(cells, x)
  {
    if Parents(cells, x) > 0 {
      var p := SomeParent(cells, x);
      assert AllLive(cells, ChildrenOf(cells[p]));
    }
  }

  lemma NewNodeStructure(cells: seq<Cell>, handles: multiset<nat>, rank: seq<nat>, fields: Fields, children: seq<Ref>)
    requires NothingDangles(cells, handles) && IsRanked(cells, rank) && Pointers(children) <= handles
    ensures var after := cells + [Live(1, fields, children)];
            && NothingDangles(after, handles - Pointers(children) + multiset{|cells|})
            && IsRanked(after, rank + [MaxRank(rank) + 1])
  {
    var after := cells + [Live(1, fields, children)];
    var newRank := rank + [MaxRank(rank) + 1];
    PointersLive(cells, handles, children);
    forall p | 0 <= p < |after|
      ensures AllLive(after, ChildrenOf(after[p])) && RanksBelow(ChildrenOf(after[p]), newRank, newRank[p])
    {
      var refs := ChildrenOf(after[p]);
      if p < |cells| {
        assert AllLive(cells, ChildrenOf(cells[p])) && RanksBelow(ChildrenOf(cells[p]), rank, rank[p]);
      }
      assert AllLive(cells, refs);
      forall i | 0 <= i < |refs| && refs[i].Ptr?
        ensures IsLive(after, refs[i].address) && newRank[refs[i].address] < newRank[p]
      {
        assert IsLive(cells, refs[i].address);
        RankBelowMax(rank, refs[i].address);
      }
    }
  }

  lemma NewNodeKeeps(cells: seq<Cell>, handles: multiset<nat>, rank: seq<nat>, fields: Fields, children: seq<Ref>,
                     newCells: seq<Cell>, newHandles: multiset<nat>)
    requires IsConsistent(cells, handles, rank) && Pointers(children) <= handles
    requires newCells == cells + [Live(1, fields, children)]
    requires newHandles == handles - Pointers(children) + multiset{|cells|}
    ensures IsConsistent(newCells, newHandles, rank + [MaxRank(rank) + 1])
  {
    NewNodeStructure(cells, handles, rank, fields, children);
    forall x | 0 <= x < |newCells|
      ensures CountMatches(newCells, newHandles, x)
    {
      AppendedCounts(cells, handles, fields, children, x);
    }
  }
}
