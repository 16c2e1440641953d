/** Editing a tree whose nodes are shared with other trees (ts_subtree_edit on the memory of RefCounts): a
    node is copied before it is written unless nothing else refers to it. */
module SharedEdits {
  import opened Options
  import opened Lengths
  import opened Subtrees
  import opened Edits
  import opened Worklists
  import opened EditWorklist
  import opened RefCounts
  import opened SharedTrees

  // ----- Writing to memory -----

  function WithSlot(cells: seq<Cell>, a: nat, i: nat, r: Ref): seq<Cell>
    requires IsLive(cells, a) && i < |cells[a].children|
  {
    cells[a := cells[a].(children := cells[a].children[i := r])]
  }

  function WithFields(cells: seq<Cell>, a: nat, f: Fields): seq<Cell>
    requires IsLive(cells, a)
  {
    cells[a := cells[a].(fields := f)]
  }

  lemma ParentsAfterSlot(cells: seq<Cell>, a: nat, i: nat, r: Ref, x: nat)
    requires IsLive(cells, a) && i < |cells[a].children|
    ensures Parents(WithSlot(cells, a, i, r), x) + (if cells[a].children[i] == Ptr(x) then 1 else 0)
            == Parents(cells, x) + (if r == Ptr(x) then 1 else 0)
  {
    ParentsAfterUpdate(cells, a, WithSlot(cells, a, i, r)[a], x);
    OccurrencesAfterUpdate(cells[a].children, i, r, x);
  }

  /** Exchanging the reference in a slot for one held by a handle. */
  function Exchanged(handles: multiset<nat>, given: Ref, taken: Ref): multiset<nat> {
    handles - HandleOf(given) + HandleOf(taken)
  }

  lemma HandlesBack(handles: multiset<nat>, c: Ref, m: Ref, blank: Ref)
    requires blank.Inline?
    ensures var held := handles + HandleOf(c) + HandleOf(m) - HandleOf(c);
            HandleOf(m) <= held && Exchanged(held, m, blank) == handles
  {
    assert handles + HandleOf(c) + HandleOf(m) - HandleOf(c) == handles + HandleOf(m);
  }

  lemma SlotCount(cells: seq<Cell>, handles: multiset<nat>, a: nat, i: nat, r: Ref, x: nat)
    requires IsLive(cells, a) && i < |cells[a].children| && HandleOf(r) <= handles
    requires CountMatches(cells, handles, x)
    ensures CountMatches(WithSlot(cells, a, i, r), Exchanged(handles, r, cells[a].children[i]), x)
  {
    ParentsAfterSlot(cells, a, i, r, x);
  }

  lemma SlotIsLive(cells: seq<Cell>, handles: multiset<nat>, a: nat, i: nat, r: Ref, p: nat)
    requires NothingDangles(cells, handles) && IsLive(cells, a) && i < |cells[a].children| && HandleOf(r) <= handles
    requires p < |cells|
    ensures AllLive(WithSlot(cells, a, i, r), ChildrenOf(WithSlot(cells, a, i, r)[p]))
  {
    var refs := ChildrenOf(WithSlot(cells, a, i, r)[p]);
    assert AllLive(cells, ChildrenOf(cells[p]));
    forall j | 0 <= j < |refs| && refs[j].Ptr?
      ensures IsLive(WithSlot(cells, a, i, r), refs[j].address)
    {
      if p == a && j == i {
        assert refs[j].address in handles;
      }
    }
  }

  lemma SlotKeeps(cells: seq<Cell>, handles: multiset<nat>, rank: seq<nat>, newRank: seq<nat>, a: nat, i: nat, r: Ref)
    requires IsConsistent(cells, handles, rank) && IsLive(cells, a) && i < |cells[a].children|
    requires HandleOf(r) <= handles && IsRanked(WithSlot(cells, a, i, r), newRank)
    ensures IsConsistent(WithSlot(cells, a, i, r), Exchanged(handles, r, cells[a].children[i]), newRank)
  {
    var (after, held) := (WithSlot(cells, a, i, r), Exchanged(handles, r, cells[a].children[i]));
    assert AllLive(cells, ChildrenOf(cells[a]));
    forall x | x in held
      ensures IsLive(after, x)
    {
      assert x in handles || cells[a].children[i] == Ptr(x);
    }
    forall x | 0 <= x < |after|
      ensures AllLive(after, ChildrenOf(after[x])) && CountMatches(after, held, x)
    {
      SlotIsLive(cells, handles, a, i, r, x);
      SlotCount(cells, handles, a, i, r, x);
    }
  }

  /** `*slot = r`. */
  method SetSlot(pool: SubtreePool, a: nat, i: nat, r: Ref, ghost newRank: seq<nat>)
    requires pool.Valid() && IsLive(pool.cells, a) && i < |pool.cells[a].children|
    requires HandleOf(r) <= pool.handles && IsRanked(WithSlot(pool.cells, a, i, r), newRank)
    modifies pool
    ensures pool.Valid() && pool.cells == WithSlot(old(pool.cells), a, i, r) && pool.rank == newRank
    ensures pool.handles == Exchanged(old(pool.handles), r, old(pool.cells)[a].children[i])
  {
    SlotKeeps(pool.cells, pool.handles, pool.rank, newRank, a, i, r);
    pool.Install(WithSlot(pool.cells, a, i, r), Exchanged(pool.handles, r, pool.cells[a].children[i]), newRank);
  }

  lemma FieldsKeep(cells: seq<Cell>, handles: multiset<nat>, rank: seq<nat>, a: nat, f: Fields)
    requires IsConsistent(cells, handles, rank) && IsLive(cells, a)
    ensures IsConsistent(WithFields(cells, a, f), handles, rank)
  {
    var after := WithFields(cells, a, f);
    ThinnedStructure(cells, after, handles, rank);
    forall x | 0 <= x < |after|
      ensures CountMatches(after, handles, x)
    {
      assert CountMatches(cells, handles, x);
      ParentsAfterUpdate(cells, a, after[a], x);
    }
  }

  method SetFields(pool: SubtreePool, a: nat, f: Fields)
    requires pool.Valid() && IsLive(pool.cells, a)
    modifies pool
    ensures pool.Valid() && pool.cells == WithFields(old(pool.cells), a, f) && pool.handles == old(pool.handles)
  {
    FieldsKeep(pool.cells, pool.handles, pool.rank, a, f);
    pool.Install(WithFields(pool.cells, a, f), pool.handles, pool.rank);
  }

  function KidsOf(cells: seq<Cell>, r: Ref): seq<Ref> {
    if r.Ptr? && IsLive(cells, r.address) then cells[r.address].children else []
  }

  /** The slot has got a new node with these fields, over the children of the node it had before. */
  predicate IsNewSlot(before: seq<Cell>, after: seq<Cell>, a: nat, i: nat, r: Ref, f: Fields)
    requires IsLive(before, a) && i < |before[a].children|
  {
    && IsExtension(WithSlot(before, a, i, r), after)
    && if r.Ptr? then
         && r.address == |before| == |after| - 1
         && after[r.address] == Live(1, f, KidsOf(before, before[a].children[i]))
       else
         r == Inline(f) && before[a].children[i].Inline? && |after| == |before|
  }

  /** The ranks once a copy of the given reference's node, or a leaf, has been added: the copy ranks as the original. */
  function RanksWith(rank: seq<nat>, c: Ref): (r: seq<nat>)
    ensures |r| == |rank| + 1
  {
    seq(|rank| + 1, x requires 0 <= x <= |rank| =>
      if x < |rank| then rank[x] + 1 else if c.Ptr? && c.address < |rank| then rank[c.address] + 1 else 0)
  }

  lemma NewSlotRanked(before: seq<Cell>, after: seq<Cell>, handles: multiset<nat>, rank: seq<nat>,
                      a: nat, i: nat, r: Ref, f: Fields)
    requires NothingDangles(before, handles) && IsRanked(before, rank)
    requires IsLive(before, a) && i < |before[a].children| && r.Ptr? && IsNewSlot(before, after, a, i, r, f)
    ensures IsRanked(after, RanksWith(rank, before[a].children[i]))
  {
    var c := before[a].children[i];
    var newRank := RanksWith(rank, c);
    assert AllLive(before, ChildrenOf(before[a]));
    forall p | 0 <= p < |after|
      ensures RanksBelow(ChildrenOf(after[p]), newRank, newRank[p])
    {
      if p < |before| {
        assert SameNode(WithSlot(before, a, i, r)[p], after[p]);
        RaisedRanks(before, handles, rank, c, p);
        if p == a {
          SlotRanked(before, handles, rank, a, i, r.address);
        }
      } else if c.Ptr? {
        RaisedRanks(before, handles, rank, c, c.address);
      }
    }
  }

  lemma RaisedRanks(cells: seq<Cell>, handles: multiset<nat>, rank: seq<nat>, c: Ref, p: nat)
    requires NothingDangles(cells, handles) && IsRanked(cells, rank) && p < |cells|
    ensures RanksBelow(ChildrenOf(cells[p]), RanksWith(rank, c), RanksWith(rank, c)[p])
  {
    var refs := ChildrenOf(cells[p]);
    assert RanksBelow(refs, rank, rank[p]) && AllLive(cells, refs);
    forall j | 0 <= j < |refs| && refs[j].Ptr?
      ensures RanksWith(rank, c)[refs[j].address] < RanksWith(rank, c)[p]
    {
      assert IsLive(cells, refs[j].address);
    }
  }

  lemma SlotRanked(cells: seq<Cell>, handles: multiset<nat>, rank: seq<nat>, a: nat, i: nat, r: nat)
    requires NothingDangles(cells, handles) && IsRanked(cells, rank) && r == |cells|
    requires IsLive(cells, a) && i < |cells[a].children|
    ensures var newRank := RanksWith(rank, cells[a].children[i]); newRank[r] < newRank[a]
  {
    var c := cells[a].children[i];
    assert RanksBelow(ChildrenOf(cells[a]), rank, rank[a]) && AllLive(cells, ChildrenOf(cells[a]));
    if c.Ptr? {
      assert IsLive(cells, c.address);
    }
  }

  lemma ChildIsElsewhere(cells: seq<Cell>, handles: multiset<nat>, rank: seq<nat>, a: nat, i: nat)
    requires IsConsistent(cells, handles, rank) && IsLive(cells, a) && i < |cells[a].children|
    requires cells[a].children[i].Ptr?
    ensures var c := cells[a].children[i].address; c != a && IsLive(cells, c) && cells[c].refCount > 0
  {
    assert AllLive(cells, ChildrenOf(cells[a])) && IsChild(cells, a, cells[a].children[i].address);
    ChildRanksBelow(cells, rank, a, cells[a].children[i].address);
  }

  /** Taking a reference out of a slot and putting it back. */
  lemma SlotTwice(cells: seq<Cell>, a: nat, i: nat, blank: Ref, r: Ref)
    requires IsLive(cells, a) && i < |cells[a].children|
    ensures WithSlot(WithSlot(cells, a, i, blank), a, i, r) == WithSlot(cells, a, i, r)
    ensures r == cells[a].children[i] ==> WithSlot(cells, a, i, r) == cells
  {
    var refs := cells[a].children;
    assert refs[i := blank][i := r] == refs[i := r];
    assert r == refs[i] ==> refs[i := r] == refs && cells[a].(children := refs[i := r]) == cells[a];
  }

  lemma EmptySlotRanked(cells: seq<Cell>, rank: seq<nat>, a: nat, i: nat, blank: Ref)
    requires IsRanked(cells, rank) && IsLive(cells, a) && i < |cells[a].children| && blank.Inline?
    ensures IsRanked(WithSlot(cells, a, i, blank), rank)
  {
    forall p | 0 <= p < |cells|
      ensures RanksBelow(ChildrenOf(WithSlot(cells, a, i, blank)[p]), rank, rank[p])
    {
      assert RanksBelow(ChildrenOf(cells[p]), rank, rank[p]);
    }
  }

  lemma CopyInSlot(before: seq<Cell>, copied: seq<Cell>, a: nat, i: nat, c: nat, blank: Ref)
    requires IsLive(before, a) && i < |before[a].children| && before[a].children[i] == Ptr(c)
    requires IsLive(before, c) && c != a && IsCopied(WithSlot(before, a, i, blank), copied, c)
    ensures HasSlot(copied, a, i, blank)
    ensures IsNewSlot(before, WithSlot(copied, a, i, Ptr(|before|)), a, i, Ptr(|before|), before[c].fields)
  {
    assert SameNode(WithSlot(before, a, i, blank)[a], copied[a]);
  }

  /** The node in a slot may be written to: it was exclusive before or is a copy. */
  predicate IsMadeMut(before: seq<Cell>, after: seq<Cell>, a: nat, i: nat, r: nat)
    requires IsLive(before, a) && i < |before[a].children| && before[a].children[i].Ptr?
  {
    var c := before[a].children[i].address;
    && IsLive(before, c) && IsExclusive(after, r)
    && if IsExclusive(before, c) then r == c && after == before
       else IsNewSlot(before, after, a, i, Ptr(r), before[c].fields)
  }

  lemma MadeMut(before: seq<Cell>, handles: multiset<nat>, rank: seq<nat>, a: nat, i: nat, c: nat, blank: Ref,
                now: seq<Cell>, r: nat) returns (newRank: seq<nat>)
    requires IsConsistent(before, handles, rank) && IsLive(before, a) && i < |before[a].children|
    requires before[a].children[i] == Ptr(c) && blank.Inline? && c != a && IsLive(before, c) && before[c].refCount > 0
    requires if before[c].refCount > 1 then r == |before| && IsCopied(WithSlot(before, a, i, blank), now, c)
             else r == c && now == WithSlot(before, a, i, blank)
    ensures HasSlot(now, a, i, blank) && IsRanked(WithSlot(now, a, i, Ptr(r)), newRank)
    ensures IsMadeMut(before, WithSlot(now, a, i, Ptr(r)), a, i, r)
  {
    if before[c].refCount > 1 {
      CopyInSlot(before, now, a, i, c, blank);
      NewSlotRanked(before, WithSlot(now, a, i, Ptr(r)), handles, rank, a, i, Ptr(r), before[c].fields);
      newRank := RanksWith(rank, Ptr(c));
    } else {
      SlotTwice(before, a, i, blank, Ptr(r));
      newRank := rank;
    }
  }

  method TakeSlot(pool: SubtreePool, a: nat, i: nat, blank: Ref)
    requires pool.Valid() && IsLive(pool.cells, a) && i < |pool.cells[a].children| && blank.Inline?
    modifies pool
    ensures pool.Valid() && pool.cells == WithSlot(old(pool.cells), a, i, blank)
    ensures pool.handles == old(pool.handles) + HandleOf(old(pool.cells)[a].children[i])
  {
    EmptySlotRanked(pool.cells, pool.rank, a, i, blank);
    SetSlot(pool, a, i, blank, pool.rank);
  }

  /** ts_subtree_make_mut on the reference in a slot: while the call owns the reference the slot counts as empty. */
  method MakeMutSlot(pool: SubtreePool, a: nat, i: nat) returns (r: nat)
    requires pool.Valid() && IsLive(pool.cells, a) && i < |pool.cells[a].children| && pool.cells[a].children[i].Ptr?
    modifies pool
    ensures pool.Valid() && pool.handles == old(pool.handles)
    ensures IsMadeMut(old(pool.cells), pool.cells, a, i, r)
  {
    ghost var (before, rank) := (pool.cells, pool.rank);
    var c := pool.cells[a].children[i].address;
    ChildIsElsewhere(pool.cells, pool.handles, pool.rank, a, i);
    var blank := Inline(pool.cells[c].fields);
    TakeSlot(pool, a, i, blank);
    var m := pool.MakeMut(Ptr(c));
    r := m.address;
    rank := MadeMut(before, old(pool.handles), rank, a, i, c, blank, pool.cells, r);
    HandlesBack(old(pool.handles), Ptr(c), m, blank);
    SetSlot(pool, a, i, m, rank);
  }

  /** ts_subtree_can_inline. */
  predicate CanInline(padding: Length, size: Length, lookaheadBytes: nat) {
    && padding.bytes < 255 && padding.extent.row < 16 && padding.extent.column < 255
    && size.extent.row == 0 && size.extent.column < 255 && lookaheadBytes < 16
  }

  function FieldsAt(cells: seq<Cell>, r: Ref): Fields
    requires r.Ptr? ==> IsLive(cells, r.address)
  {
    if r.Ptr? then cells[r.address].fields else r.fields
  }

  /** The fields of an edited node. */
  function Edited(f: Fields, shape: (Length, Length)): Fields {
    f.(hasChanges := true, sum := f.sum.(padding := shape.0, size := shape.1))
  }

  /** The new reference for an edited leaf that was stored inline; a leaf too large for that moves to the heap. */
  method EditLeaf(pool: SubtreePool, f: Fields, shape: (Length, Length)) returns (r: Ref)
    requires pool.Valid()
    modifies pool
    ensures pool.Valid() && pool.handles == old(pool.handles) + HandleOf(r)
    ensures if r.Inline? then r.fields == Edited(f, shape) && pool.cells == old(pool.cells)
            else r == Ptr(|old(pool.cells)|) && pool.cells == old(pool.cells) + [Live(1, Edited(f, shape), [])]
  {
    if CanInline(shape.0, shape.1, f.sum.lookaheadBytes) {
      r := Inline(Edited(f, shape));
    } else {
      r := pool.NewNode(Edited(f, shape), []);
    }
  }

  /** What an edit of the node in a slot does to memory. */
  predicate IsRewrite(before: seq<Cell>, after: seq<Cell>, a: nat, i: nat, r: Ref, shape: (Length, Length))
    requires IsLive(before, a) && i < |before[a].children|
  {
    var c := before[a].children[i];
    && (c.Ptr? ==> IsLive(before, c.address))
    && if c.Ptr? && IsExclusive(before, c.address)
       then r == c && after == WithFields(before, c.address, Edited(FieldsAt(before, c), shape))
       else IsNewSlot(before, after, a, i, r, Edited(FieldsAt(before, c), shape))
  }

  lemma NewLeafInSlot(before: seq<Cell>, a: nat, i: nat, r: Ref, f: Fields)
    requires IsLive(before, a) && i < |before[a].children| && before[a].children[i].Inline?
    requires r == Ptr(|before|) || r == Inline(f)
    ensures var now := if r.Ptr? then before + [Live(1, f, [])] else before;
            && HasSlot(now, a, i, before[a].children[i])
            && IsNewSlot(before, WithSlot(now, a, i, r), a, i, r, f)
  {
  }

  method RewriteLeaf(pool: SubtreePool, a: nat, i: nat, shape: (Length, Length)) returns (r: Ref)
    requires pool.Valid() && IsLive(pool.cells, a) && i < |pool.cells[a].children| && pool.cells[a].children[i].Inline?
    modifies pool
    ensures pool.Valid() && pool.handles == old(pool.handles)
    ensures IsRewrite(old(pool.cells), pool.cells, a, i, r, shape)
  {
    ghost var (before, rank) := (pool.cells, pool.rank);
    var leaf := pool.cells[a].children[i];
    r := EditLeaf(pool, leaf.fields, shape);
    NewLeafInSlot(before, a, i, r, Edited(leaf.fields, shape));
    if r.Ptr? {
      NewSlotRanked(before, WithSlot(pool.cells, a, i, r), old(pool.handles), rank, a, i, r,
                    Edited(leaf.fields, shape));
      rank := RanksWith(rank, leaf);
    } else {
      EmptySlotRanked(pool.cells, pool.rank, a, i, r);
      rank := pool.rank;
    }
    SetSlot(pool, a, i, r, rank);
  }

  lemma WrittenCopy(before: seq<Cell>, made: seq<Cell>, a: nat, i: nat, m: nat, shape: (Length, Length))
    requires IsLive(before, a) && i < |before[a].children| && before[a].children[i].Ptr?
    requires IsMadeMut(before, made, a, i, m)
    ensures made[m].fields == before[before[a].children[i].address].fields
    ensures IsRewrite(before, WithFields(made, m, Edited(made[m].fields, shape)), a, i, Ptr(m), shape)
  {
  }

  /** Edits the node in a slot: in place if nothing else refers to it, otherwise on a copy. */
  method RewriteSlot(pool: SubtreePool, a: nat, i: nat, shape: (Length, Length)) returns (r: Ref)
    requires pool.Valid() && IsLive(pool.cells, a) && i < |pool.cells[a].children|
    modifies pool
    ensures pool.Valid() && pool.handles == old(pool.handles)
    ensures IsRewrite(old(pool.cells), pool.cells, a, i, r, shape)
  {
    if pool.cells[a].children[i].Inline? {
      r := RewriteLeaf(pool, a, i, shape);
    } else {
      var m := MakeMutSlot(pool, a, i);
      r := Ptr(m);
      WrittenCopy(old(pool.cells), pool.cells, a, i, m, shape);
      SetFields(pool, m, Edited(pool.cells[m].fields, shape));
    }
  }

  // ----- What a step does to the tree -----

  /** What lies below the end of a spine does not change when only that end is written to. */
  lemma EndHolds(before: seq<Cell>, after: seq<Cell>, handles: multiset<nat>, spine: seq<nat>, t: Subtree)
    requires CountsMatch(before, handles) && IsChain(before, handles, spine)
    requires AgreesBut(before, after, spine[|spine| - 1]) && Holds(before, Ptr(spine[|spine| - 1]), t)
    ensures HoldAll(after, before[spine[|spine| - 1]].children, t)
  {
    AgreesButEnd(before, after, spine);
    HeldBelow(before, after, handles, spine, spine, |spine|, t);
  }

  lemma InPlaceHolds(before: seq<Cell>, handles: multiset<nat>, p: Path, spine: seq<nat>, f: Fields, t: Subtree,
                     n: Subtree)
    requires CountsMatch(before, handles) && IsSpine(before, handles, p, spine)
    requires Holds(before, Ptr(spine[0]), t) && ValidPath(t, p)
    requires FieldsOf(n) == f && n.children == At(t, p).children
    ensures Holds(WithFields(before, spine[|p|], f), Ptr(spine[0]), Put(t, p, n))
  {
    var (after, c) := (WithFields(before, spine[|p|], f), spine[|p|]);
    SpineIsChain(before, handles, p, spine);
    RefAtSpine(before, handles, p, spine);
    HeldAt(before, Ptr(spine[0]), t, p);
    EndHolds(before, after, handles, spine, At(t, p));
    assert HoldAll(after, after[c].children, n);
    assert spine[..|p| + 1] == spine;
    AgreesButEnd(before, after, spine);
    SpineHolds(before, after, handles, spine, |p|, p, t, n);
  }

  /** Below the end of a spine, in a cell that stays. */
  lemma ChildHolds(before: seq<Cell>, after: seq<Cell>, handles: multiset<nat>, spine: seq<nat>, c: nat, t: Subtree)
    requires CountsMatch(before, handles) && IsChain(before, handles, spine)
    requires AgreesBut(before, after, spine[|spine| - 1]) && IsChild(before, spine[|spine| - 1], c)
    requires IsLive(before, c) && HoldAll(before, before[c].children, t)
    ensures HoldAll(after, before[c].children, t)
  {
    PathDown(before, handles, spine, c);
    AgreesButEnd(before, after, spine);
    HeldBelow(before, after, handles, spine, spine + [c], |spine|, t);
  }

  lemma NewNodeHolds(before: seq<Cell>, after: seq<Cell>, handles: multiset<nat>, spine: seq<nat>, i: nat, r: Ref,
                     f: Fields, t: Subtree, n: Subtree)
    requires CountsMatch(before, handles) && IsChain(before, handles, spine)
    requires var a := spine[|spine| - 1];
             && i < |before[a].children| && AgreesBut(before, after, a) && IsNewSlot(before, after, a, i, r, f)
             && Holds(before, before[a].children[i], t)
    requires FieldsOf(n) == f && n.children == t.children
    ensures Holds(after, r, n)
  {
    var a := spine[|spine| - 1];
    var c := before[a].children[i];
    if r.Ptr? {
      if c.Ptr? {
        ChildHolds(before, after, handles, spine, c.address, t);
      }
      assert HoldAll(after, KidsOf(before, c), n);
    }
  }

  lemma NewSlotAgrees(before: seq<Cell>, after: seq<Cell>, a: nat, i: nat, r: Ref, f: Fields)
    requires IsLive(before, a) && i < |before[a].children| && IsNewSlot(before, after, a, i, r, f)
    ensures AgreesBut(before, after, a) && IsLive(after, a)
    ensures after[a].fields == before[a].fields && after[a].children == before[a].children[i := r]
  {
    assert SameNode(WithSlot(before, a, i, r)[a], after[a]);
    forall x | 0 <= x < |before| && x != a
      ensures SameNode(before[x], after[x])
    {
      assert SameNode(WithSlot(before, a, i, r)[x], after[x]);
    }
  }

  lemma NewSlotHolds(before: seq<Cell>, after: seq<Cell>, handles: multiset<nat>, p: Path, spine: seq<nat>, r: Ref,
                     f: Fields, t: Subtree, n: Subtree)
    requires CountsMatch(before, handles) && p != [] && IsSpine(before, handles, Front(p), spine)
    requires Back(p) < |before[spine[|spine| - 1]].children|
    requires IsNewSlot(before, after, spine[|spine| - 1], Back(p), r, f)
    requires Holds(before, Ptr(spine[0]), t) && ValidPath(t, p)
    requires FieldsOf(n) == f && n.children == At(t, p).children
    ensures Holds(after, Ptr(spine[0]), Put(t, p, n))
  {
    var (a, i, q) := (spine[|spine| - 1], Back(p), Front(p));
    ValidFront(t, p);
    SpineIsChain(before, handles, q, spine);
    RefAtSpine(before, handles, q, spine);
    HeldAt(before, Ptr(spine[0]), t, q);
    NewSlotAgrees(before, after, a, i, r, f);
    EndHolds(before, after, handles, spine, At(t, q));
    NewNodeHolds(before, after, handles, spine, i, r, f, At(t, p), n);
    var m := SetChild(At(t, q), i, n);
    assert HoldAll(after, after[a].children, m);
    assert spine[..|q| + 1] == spine;
    AgreesButEnd(before, after, spine);
    SpineHolds(before, after, handles, spine, |q|, q, t, m);
    PutBack(t, p, n);
  }

  // ----- What a step does to spines -----

  lemma {:induction false} SpineAfterWrite(
    before: seq<Cell>, handles: multiset<nat>, a: nat, f: Fields, q: Path, spine: seq<nat>)
    requires IsLive(before, a) && IsSpine(before, handles, q, spine)
    ensures IsSpine(WithFields(before, a, f), handles, q, spine)
    decreases |q|
  {
    if q == [] {
    } else {
      SpineAfterWrite(before, handles, a, f, Front(q), spine[..|q|]);
    }
  }

  lemma {:induction false} SameChildrenSameParents(s: seq<Cell>, t: seq<Cell>, x: nat)
    requires |s| == |t| && forall p | 0 <= p < |s| :: ChildrenOf(s[p]) == ChildrenOf(t[p])
    ensures Parents(s, x) == Parents(t, x)
  {
    if s == [] {
    } else {
      SameChildrenSameParents(s[..|s| - 1], t[..|t| - 1], x);
    }
  }

  lemma ParentsAfterNewSlot(before: seq<Cell>, after: seq<Cell>, a: nat, i: nat, r: Ref, f: Fields, x: nat)
    requires IsLive(before, a) && i < |before[a].children| && IsNewSlot(before, after, a, i, r, f) && x < |before|
    ensures Parents(after, x) <= Parents(before, x) + Occurrences(KidsOf(before, before[a].children[i]), x)
  {
    var now := WithSlot(before, a, i, r);
    ParentsAfterSlot(before, a, i, r, x);
    ParentsInExtension(now, after, x);
  }

  lemma ParentsInExtension(before: seq<Cell>, after: seq<Cell>, x: nat)
    requires IsExtension(before, after) && |after| <= |before| + 1
    ensures Parents(after, x)
            == Parents(before, x) + (if |after| > |before| then Occurrences(ChildrenOf(after[|before|]), x) else 0)
  {
    var kept := after[..|before|];
    forall p | 0 <= p < |before|
      ensures ChildrenOf(kept[p]) == ChildrenOf(before[p])
    {
      assert SameNode(before[p], after[p]);
    }
    SameChildrenSameParents(kept, before, x);
    if |after| > |before| {
      assert after[..|after| - 1] == kept;
    } else {
      assert after == kept;
    }
  }

  /** Copying the node in a slot, or moving it to the heap, leaves exclusive ways exclusive: a child that the copy
      now refers to as well had a shared parent. */
  lemma StillExclusive(before: seq<Cell>, after: seq<Cell>, handles: multiset<nat>, a: nat, i: nat, r: Ref, f: Fields,
                       x: nat, y: nat)
    requires CountsMatch(before, handles) && CountsMatch(after, handles)
    requires IsLive(before, a) && i < |before[a].children| && IsNewSlot(before, after, a, i, r, f)
    requires before[a].children[i].Ptr? ==> !IsExclusive(before, before[a].children[i].address)
    requires IsExclusive(before, x) && (x in handles || (IsExclusive(before, y) && IsChild(before, y, x)))
    requires IsLive(after, x) ==> after[x].refCount > 0
    ensures IsExclusive(after, x)
  {
    var c := before[a].children[i];
    ExclusiveCount(before, handles, x);
    NewSlotAgrees(before, after, a, i, r, f);
    if Ptr(x) in KidsOf(before, c) {
      ChildIsCounted(before, c.address, x);
      SoleParent(before, y, c.address, x);
    }
    OccursIfCounted(KidsOf(before, c), x);
    ParentsAfterNewSlot(before, after, a, i, r, f, x);
    assert CountMatches(after, handles, x);
  }

  lemma {:induction false} SpineAfterNewSlot(
    before: seq<Cell>, after: seq<Cell>, handles: multiset<nat>, rank: seq<nat>, a: nat, i: nat, r: Ref, f: Fields,
    q: Path, spine: seq<nat>)
    requires CountsMatch(before, handles) && IsConsistent(after, handles, rank)
    requires IsLive(before, a) && i < |before[a].children| && IsNewSlot(before, after, a, i, r, f)
    requires before[a].children[i].Ptr? ==> !IsExclusive(before, before[a].children[i].address)
    requires IsSpine(before, handles, q, spine)
    ensures IsSpine(after, handles, q, spine)
    decreases |q|
  {
    if q == [] {
      StillExclusive(before, after, handles, a, i, r, f, spine[0], 0);
    } else {
      var (x, y) := (spine[|q|], spine[..|q|][|q| - 1]);
      SpineAfterNewSlot(before, after, handles, rank, a, i, r, f, Front(q), spine[..|q|]);
      assert IsChild(before, y, x);
      StillExclusive(before, after, handles, a, i, r, f, x, y);
      SlotStays(before, after, a, i, r, f, y, Back(q), x);
    }
  }

  lemma SlotStays(before: seq<Cell>, after: seq<Cell>, a: nat, i: nat, r: Ref, f: Fields, y: nat, j: nat, x: nat)
    requires IsLive(before, a) && i < |before[a].children| && IsNewSlot(before, after, a, i, r, f)
    requires before[a].children[i].Ptr? ==> !IsExclusive(before, before[a].children[i].address)
    requires HasSlot(before, y, j, Ptr(x)) && IsExclusive(before, x)
    ensures HasSlot(after, y, j, Ptr(x))
  {
    NewSlotAgrees(before, after, a, i, r, f);
    if y != a {
      assert SameNode(before[y], after[y]);
    }
  }

  /** The slot at the end of a spine, once its node may be written to, prolongs the spine. */
  lemma LongerSpine(cells: seq<Cell>, handles: multiset<nat>, p: Path, spine: seq<nat>, c: nat)
    requires p != [] && IsSpine(cells, handles, Front(p), spine)
    requires IsExclusive(cells, c) && HasSlot(cells, spine[|spine| - 1], Back(p), Ptr(c))
    ensures IsSpine(cells, handles, p, spine + [c])
  {
    assert (spine + [c])[..|p|] == spine;
  }

  /** The node at q may be written to in place: everything on the way down to it is exclusive. */
  ghost predicate IsOwned(cells: seq<Cell>, handles: multiset<nat>, root: Ref, q: Path) {
    root.Ptr? && exists spine :: IsSpine(cells, handles, q, spine) && spine[0] == root.address
  }

  // ----- One turn of the loop -----

  /** The edited tree is in memory below the new root, and other trees are as they were. */
  ghost predicate IsEdited(before: seq<Cell>, after: seq<Cell>, others: multiset<nat>, r: Ref, t: Subtree) {
    Holds(after, r, t) && IsKept(before, after, others)
  }

  lemma RewrittenInPlace(before: seq<Cell>, others: multiset<nat>, rank: seq<nat>, p: Path, spine: seq<nat>, c: nat,
                         f: Fields, t: Subtree, n: Subtree)
    requires spine != [] && IsConsistent(before, others + multiset{spine[0]}, rank)
    requires IsSpine(before, others + multiset{spine[0]}, p, spine) && c == spine[|p|]
    requires Holds(before, Ptr(spine[0]), t) && ValidPath(t, p)
    requires FieldsOf(n) == f && n.children == At(t, p).children
    ensures IsEdited(before, WithFields(before, c, f), others, Ptr(spine[0]), Put(t, p, n))
  {
    var handles := others + multiset{spine[0]};
    InPlaceHolds(before, handles, p, spine, f, t, n);
    SpineIsChain(before, handles, p, spine);
    AgreesButEnd(before, WithFields(before, c, f), spine);
    KeptOffChain(before, WithFields(before, c, f), others, spine);
  }

  lemma RewrittenNew(before: seq<Cell>, after: seq<Cell>, others: multiset<nat>, rank: seq<nat>, p: Path,
                     spine: seq<nat>, r: Ref, f: Fields, t: Subtree, n: Subtree)
    requires spine != [] && IsConsistent(before, others + multiset{spine[0]}, rank)
    requires p != [] && IsSpine(before, others + multiset{spine[0]}, Front(p), spine)
    requires Back(p) < |before[spine[|spine| - 1]].children|
    requires IsNewSlot(before, after, spine[|spine| - 1], Back(p), r, f)
    requires Holds(before, Ptr(spine[0]), t) && ValidPath(t, p)
    requires FieldsOf(n) == f && n.children == At(t, p).children
    ensures IsEdited(before, after, others, Ptr(spine[0]), Put(t, p, n))
  {
    var (handles, a) := (others + multiset{spine[0]}, spine[|spine| - 1]);
    NewSlotHolds(before, after, handles, p, spine, r, f, t, n);
    SpineIsChain(before, handles, Front(p), spine);
    NewSlotAgrees(before, after, a, Back(p), r, f);
    AgreesButEnd(before, after, spine);
    KeptOffChain(before, after, others, spine);
  }

  lemma OwnedSlot(cells: seq<Cell>, handles: multiset<nat>, root: Ref, t: Subtree, p: Path) returns (spine: seq<nat>)
    requires p != [] && ValidPath(t, p) && Holds(cells, root, t) && IsOwned(cells, handles, root, Front(p))
    ensures IsSpine(cells, handles, Front(p), spine) && root == Ptr(spine[0])
    ensures RefAt(cells, root, Front(p)) == Ptr(spine[|spine| - 1])
    ensures Back(p) < |cells[spine[|spine| - 1]].children|
    ensures RefAt(cells, root, p) == cells[spine[|spine| - 1]].children[Back(p)]
    ensures Holds(cells, RefAt(cells, root, p), At(t, p))
  {
    spine :| IsSpine(cells, handles, Front(p), spine) && spine[0] == root.address;
    RefAtSpine(cells, handles, Front(p), spine);
    ValidFront(t, p);
    HeldAt(cells, root, t, Front(p));
    HeldAt(cells, root, t, p);
  }

  /** What an edit in a slot does to the tree that the slot belongs to. */
  lemma SlotStep(before: seq<Cell>, after: seq<Cell>, others: multiset<nat>, rank: seq<nat>, root: Ref, p: Path,
                 spine: seq<nat>, r: Ref, shape: (Length, Length), t: Subtree, n: Subtree)
    requires root.Ptr? && spine != [] && root.address == spine[0]
    requires IsConsistent(before, others + multiset{spine[0]}, rank)
    requires p != [] && IsSpine(before, others + multiset{spine[0]}, Front(p), spine)
    requires Back(p) < |before[spine[|spine| - 1]].children| && ValidPath(t, p)
    requires Holds(before, before[spine[|spine| - 1]].children[Back(p)], At(t, p))
    requires IsRewrite(before, after, spine[|spine| - 1], Back(p), r, shape)
    requires Holds(before, root, t)
    requires FieldsOf(n) == Edited(FieldsOf(At(t, p)), shape) && n.children == At(t, p).children
    ensures IsEdited(before, after, others, root, Put(t, p, n))
  {
    var (handles, a, i) := (others + multiset{spine[0]}, spine[|spine| - 1], Back(p));
    var c := before[a].children[i];
    assert FieldsAt(before, c) == FieldsOf(At(t, p));
    if c.Ptr? && IsExclusive(before, c.address) {
      LongerSpine(before, handles, p, spine, c.address);
      RewrittenInPlace(before, others, rank, p, spine + [c.address], c.address, FieldsOf(n), t, n);
    } else {
      RewrittenNew(before, after, others, rank, p, spine, r, FieldsOf(n), t, n);
    }
  }

  /** An edit in a slot keeps every owned way, and the way to the slot becomes owned. */
  lemma SlotOwned(before: seq<Cell>, after: seq<Cell>, handles: multiset<nat>, rank: seq<nat>, newRank: seq<nat>,
                  a: nat, i: nat, r: Ref, shape: (Length, Length), root: Ref, q: Path)
    requires IsConsistent(before, handles, rank) && IsConsistent(after, handles, newRank)
    requires IsLive(before, a) && i < |before[a].children| && IsRewrite(before, after, a, i, r, shape)
    requires IsOwned(before, handles, root, q)
    ensures IsOwned(after, handles, root, q)
  {
    var spine :| IsSpine(before, handles, q, spine) && spine[0] == root.address;
    var c := before[a].children[i];
    var f := Edited(FieldsAt(before, c), shape);
    if c.Ptr? && IsExclusive(before, c.address) {
      SpineAfterWrite(before, handles, c.address, f, q, spine);
    } else {
      SpineAfterNewSlot(before, after, handles, newRank, a, i, r, f, q, spine);
    }
  }

  lemma WrittenIsOwned(before: seq<Cell>, handles: multiset<nat>, p: Path, spine: seq<nat>, c: nat, f: Fields)
    requires p != [] && IsSpine(before, handles, Front(p), spine)
    requires IsExclusive(before, c) && HasSlot(before, spine[|spine| - 1], Back(p), Ptr(c))
    ensures IsOwned(WithFields(before, c, f), handles, Ptr(spine[0]), p)
  {
    LongerSpine(before, handles, p, spine, c);
    SpineAfterWrite(before, handles, c, f, p, spine + [c]);
    assert (spine + [c])[0] == spine[0];
  }

  lemma NewIsOwned(before: seq<Cell>, after: seq<Cell>, handles: multiset<nat>, newRank: seq<nat>,
                   p: Path, spine: seq<nat>, a: nat, i: nat, r: nat, f: Fields)
    requires CountsMatch(before, handles) && IsConsistent(after, handles, newRank)
    requires p != [] && IsSpine(before, handles, Front(p), spine) && a == spine[|spine| - 1] && i == Back(p)
    requires i < |before[a].children| && IsNewSlot(before, after, a, i, Ptr(r), f)
    requires before[a].children[i].Ptr? ==> !IsExclusive(before, before[a].children[i].address)
    ensures IsOwned(after, handles, Ptr(spine[0]), p)
  {
    SpineAfterNewSlot(before, after, handles, newRank, a, i, Ptr(r), f, Front(p), spine);
    NewSlotLinks(before, after, a, i, r, f);
    LongerSpine(after, handles, p, spine, r);
    assert (spine + [r])[0] == spine[0];
  }

  lemma NewSlotLinks(before: seq<Cell>, after: seq<Cell>, a: nat, i: nat, r: nat, f: Fields)
    requires IsLive(before, a) && i < |before[a].children| && IsNewSlot(before, after, a, i, Ptr(r), f)
    ensures IsExclusive(after, r) && HasSlot(after, a, i, Ptr(r))
  {
    NewSlotAgrees(before, after, a, i, Ptr(r), f);
  }

  lemma EditedIsOwned(before: seq<Cell>, after: seq<Cell>, handles: multiset<nat>, newRank: seq<nat>,
                      p: Path, spine: seq<nat>, a: nat, i: nat, r: Ref, shape: (Length, Length))
    requires CountsMatch(before, handles) && IsConsistent(after, handles, newRank)
    requires p != [] && IsSpine(before, handles, Front(p), spine) && a == spine[|spine| - 1] && i == Back(p)
    requires i < |before[a].children| && IsRewrite(before, after, a, i, r, shape) && r.Ptr?
    ensures IsOwned(after, handles, Ptr(spine[0]), p)
  {
    var c := before[a].children[i];
    var f := Edited(FieldsAt(before, c), shape);
    if c.Ptr? && IsExclusive(before, c.address) {
      WrittenIsOwned(before, handles, p, spine, c.address, f);
    } else {
      NewIsOwned(before, after, handles, newRank, p, spine, a, i, r.address, f);
    }
  }

  /** What an edit does to the root that a handle refers to. */
  predicate IsNewRoot(before: seq<Cell>, after: seq<Cell>, root: Ref, r: Ref, shape: (Length, Length)) {
    && (root.Ptr? ==> IsLive(before, root.address))
    && var f := Edited(FieldsAt(before, root), shape);
       if root.Ptr? && IsExclusive(before, root.address) then
         r == root && after == WithFields(before, root.address, f)
       else
         && IsExtension(before, after)
         && if r.Ptr? then r.address < |after| && after[r.address] == Live(1, f, KidsOf(before, root))
            else r == Inline(f) && root.Inline?
  }

  lemma {:induction false} HeldInExtension(before: seq<Cell>, after: seq<Cell>, r: Ref, t: Subtree)
    requires Holds(before, r, t) && IsExtension(before, after)
    ensures Holds(after, r, t)
    decreases t
  {
    if r.Inline? {
    } else {
      var refs := before[r.address].children;
      assert SameNode(before[r.address], after[r.address]);
      forall i | 0 <= i < |refs|
        ensures Holds(after, refs[i], t.children[i])
      {
        HeldInExtension(before, after, refs[i], t.children[i]);
      }
      assert HoldAll(after, refs, t);
    }
  }

  lemma RootStep(before: seq<Cell>, after: seq<Cell>, others: multiset<nat>, rank: seq<nat>, root: Ref, r: Ref,
                 shape: (Length, Length), t: Subtree, n: Subtree)
    requires IsConsistent(before, others + HandleOf(root), rank) && IsNewRoot(before, after, root, r, shape)
    requires Holds(before, root, t)
    requires FieldsOf(n) == Edited(FieldsOf(t), shape) && n.children == t.children
    ensures IsEdited(before, after, others, r, n)
  {
    var handles := others + HandleOf(root);
    if root.Ptr? && IsExclusive(before, root.address) {
      RewrittenInPlace(before, others, rank, [], [root.address], root.address, FieldsOf(n), t, n);
    } else {
      KeptByExtension(before, after, handles, others);
      if r.Ptr? {
        var refs := KidsOf(before, root);
        forall i | 0 <= i < |refs|
          ensures Holds(after, refs[i], n.children[i])
        {
          HeldInExtension(before, after, refs[i], t.children[i]);
        }
        assert HoldAll(after, refs, n);
      }
    }
  }

  lemma RootOwned(cells: seq<Cell>, handles: multiset<nat>, r: Ref)
    requires r.Ptr? && IsExclusive(cells, r.address) && r.address in handles
    ensures IsOwned(cells, handles, r, [])
  {
    assert IsSpine(cells, handles, [], [r.address]);
  }

  lemma CopiedRoot(before: seq<Cell>, made: seq<Cell>, a: nat, m: nat, shape: (Length, Length))
    requires IsLive(before, a) && before[a].refCount > 0
    requires if before[a].refCount > 1 then m == |before| && IsCopied(before, made, a) else m == a && made == before
    ensures IsLive(made, m) && made[m].fields == before[a].fields
    ensures IsNewRoot(before, WithFields(made, m, Edited(made[m].fields, shape)), Ptr(a), Ptr(m), shape)
  {
  }

  lemma NewLeafRoot(before: seq<Cell>, after: seq<Cell>, root: Ref, r: Ref, shape: (Length, Length))
    requires root.Inline?
    requires var f := Edited(root.fields, shape);
             if r.Inline? then r.fields == f && after == before
             else r == Ptr(|before|) && after == before + [Live(1, f, [])]
    ensures IsNewRoot(before, after, root, r, shape)
  {
  }

  /** Edits the root of a tree, which a handle refers to. */
  method RewriteRoot(pool: SubtreePool, root: Ref, shape: (Length, Length)) returns (r: Ref)
    requires pool.Valid() && (root.Ptr? ==> root.address in pool.handles)
    modifies pool
    ensures pool.Valid() && pool.handles == old(pool.handles) + HandleOf(r) - HandleOf(root)
    ensures IsNewRoot(old(pool.cells), pool.cells, root, r, shape)
  {
    if root.Inline? {
      r := EditLeaf(pool, root.fields, shape);
      NewLeafRoot(old(pool.cells), pool.cells, root, r, shape);
    } else {
      r := pool.MakeMut(root);
      CopiedRoot(old(pool.cells), pool.cells, root.address, r.address, shape);
      SetFields(pool, r.address, Edited(pool.cells[r.address].fields, shape));
    }
  }

  // ----- What the loop reads of a node -----

  /** The children of the node behind a reference, each without its own children. */
  function ChildNodes(cells: seq<Cell>, r: Ref): seq<Subtree>
    requires AllLive(cells, KidsOf(cells, r))
  {
    var refs := KidsOf(cells, r);
    seq(|refs|, i requires 0 <= i < |refs| => NodeOf(FieldsAt(cells, refs[i])))
  }

  /** As far as an edit looks at them. */
  predicate LookAlike(c: Subtree, d: Subtree) {
    c.sum == d.sum && c.head.dependsOnColumn == d.head.dependsOnColumn
  }

  predicate AllLookAlike(cs: seq<Subtree>, ds: seq<Subtree>) {
    |cs| == |ds| && forall i | 0 <= i < |cs| :: LookAlike(cs[i], ds[i])
  }

  lemma {:induction false} SamePrefix(cs: seq<Subtree>, ds: seq<Subtree>, k: nat)
    requires AllLookAlike(cs, ds) && k <= |cs|
    ensures Prefix(cs, k) == Prefix(ds, k)
  {
    if k == 0 {
    } else {
      SamePrefix(cs, ds, k - 1);
      assert LookAlike(cs[k - 1], ds[k - 1]);
    }
  }

  lemma SameChoices(cs: seq<Subtree>, ds: seq<Subtree>, i: nat, next: nat, e: Edit, f: Frame)
    requires AllLookAlike(cs, ds) && next == i + 1 <= |cs| && e.Ordered()
    ensures Left(cs, next) == Left(ds, next)
    ensures Passes(cs, i, e) == Passes(ds, i, e) && Queue(cs, i, e, f) == Queue(ds, i, e, f)
    ensures Continues(cs, i, e, f) == Continues(ds, i, e, f) && AfterChild(cs, i, e) == AfterChild(ds, i, e)
  {
    SamePrefix(cs, ds, i);
    SamePrefix(cs, ds, next);
    assert LookAlike(cs[i], ds[i]);
  }

  lemma PlanFrom(cs: seq<Subtree>, i: nat, next: nat, e: Edit, f: Frame)
    requires next == i + 1 <= |cs| && e.Ordered()
    ensures Plan(cs, i, e, f)
            == if Continues(cs, i, e, f) then
                 [if Passes(cs, i, e) then None else Queue(cs, i, e, f)] + Plan(cs, next, AfterChild(cs, i, e), f)
               else seq(|cs| - i, _ => None)
  {
  }

  lemma {:induction false} SamePlan(cs: seq<Subtree>, ds: seq<Subtree>, i: nat, e: Edit, f: Frame)
    requires AllLookAlike(cs, ds) && i <= |cs| && e.Ordered()
    ensures Plan(cs, i, e, f) == Plan(ds, i, e, f)
    decreases |cs| - i
  {
    if i >= |cs| {
    } else {
      var next := i + 1;
      SameChoices(cs, ds, i, next, e, f);
      PlanFrom(cs, i, next, e, f);
      PlanFrom(ds, i, next, e, f);
      if Continues(cs, i, e, f) {
        SamePlan(cs, ds, next, AfterChild(cs, i, e), f);
      }
    }
  }

  lemma NodeLooksAlike(cells: seq<Cell>, r: Ref, t: Subtree)
    requires Holds(cells, r, t)
    ensures LookAlike(NodeOf(FieldsAt(cells, r)), t)
  {
  }

  lemma ChildrenLookAlike(cells: seq<Cell>, r: Ref, t: Subtree)
    requires Holds(cells, r, t)
    ensures AllLive(cells, KidsOf(cells, r)) && AllLookAlike(ChildNodes(cells, r), t.children)
  {
    var refs := KidsOf(cells, r);
    forall i | 0 <= i < |refs|
      ensures Holds(cells, refs[i], t.children[i])
    {
    }
    forall i | 0 <= i < |refs|
      ensures LookAlike(NodeOf(FieldsAt(cells, refs[i])), t.children[i])
    {
      NodeLooksAlike(cells, refs[i], t.children[i]);
    }
  }

  // ----- The loop -----

  /** The slots of the stacked entries: the root's, or one in a node that may be written to in place. */
  ghost predicate SlotsOwned(cells: seq<Cell>, handles: multiset<nat>, root: Ref, stack: seq<Entry<Edit>>) {
    forall k | 0 <= k < |stack| && |stack[k].tree| > 0 :: IsOwned(cells, handles, root, Front(stack[k].tree))
  }

  ghost predicate AllOrdered(stack: seq<Entry<Edit>>) {
    forall s | s in stack :: s.ctx.Ordered()
  }

  lemma SlotsOwnedBelow(cells: seq<Cell>, handles: multiset<nat>, root: Ref, rest: seq<Entry<Edit>>, p: Path,
                        plan: seq<Option<Edit>>)
    requires SlotsOwned(cells, handles, root, rest) && (|plan| > 0 ==> IsOwned(cells, handles, root, p))
    ensures SlotsOwned(cells, handles, root, rest + Entries(p, plan))
  {
    var (all, pushed) := (rest + Entries(p, plan), Entries(p, plan));
    forall k | 0 <= k < |all| && |all[k].tree| > 0
      ensures IsOwned(cells, handles, root, Front(all[k].tree))
    {
      if k >= |rest| {
        EntriesExtend(p, plan, k - |rest|);
        var j :| 0 <= j < |plan| && pushed[k - |rest|].tree == p + [j];
        assert Front(p + [j]) == p;
      }
    }
  }

  /** Edits the node at a path, which is reached through its slot. */
  method RewriteNode(pool: SubtreePool, root: Ref, p: Path, shape: (Length, Length),
                     ghost others: multiset<nat>, ghost rest: seq<Entry<Edit>>, ghost t: Subtree, ghost n: Subtree)
    returns (r: Ref)
    requires pool.Valid() && pool.handles == others + HandleOf(root) && Holds(pool.cells, root, t) && ValidPath(t, p)
    requires FieldsOf(n) == Edited(FieldsOf(At(t, p)), shape) && n.children == At(t, p).children
    requires if p == [] then rest == [] else IsOwned(pool.cells, pool.handles, root, Front(p))
    requires SlotsOwned(pool.cells, pool.handles, root, rest)
    modifies pool
    ensures pool.Valid() && pool.handles == others + HandleOf(r)
    ensures IsEdited(old(pool.cells), pool.cells, others, r, Put(t, p, n))
    ensures SlotsOwned(pool.cells, pool.handles, r, rest)
    ensures |n.children| > 0 ==> IsOwned(pool.cells, pool.handles, r, p)
  {
    if p == [] {
      r := RewriteAtRoot(pool, root, shape, others, t, n);
    } else {
      RewriteInSlot(pool, root, p, shape, others, rest, t, n);
      r := root;
    }
  }

  method RewriteAtRoot(pool: SubtreePool, root: Ref, shape: (Length, Length),
                       ghost others: multiset<nat>, ghost t: Subtree, ghost n: Subtree) returns (r: Ref)
    requires pool.Valid() && pool.handles == others + HandleOf(root) && Holds(pool.cells, root, t)
    requires FieldsOf(n) == Edited(FieldsOf(t), shape) && n.children == t.children
    modifies pool
    ensures pool.Valid() && pool.handles == others + HandleOf(r)
    ensures IsEdited(old(pool.cells), pool.cells, others, r, n)
    ensures |n.children| > 0 ==> IsOwned(pool.cells, pool.handles, r, [])
  {
    r := RewriteRoot(pool, root, shape);
    RootStep(old(pool.cells), pool.cells, others, old(pool.rank), root, r, shape, t, n);
    HandleTraded(others, root, r);
    if |n.children| > 0 {
      RootOwned(pool.cells, pool.handles, r);
    }
  }

  lemma HandleTraded(others: multiset<nat>, root: Ref, r: Ref)
    ensures others + HandleOf(root) + HandleOf(r) - HandleOf(root) == others + HandleOf(r)
    ensures r.Ptr? ==> r.address in others + HandleOf(r)
  {
  }

  method RewriteInSlot(pool: SubtreePool, root: Ref, p: Path, shape: (Length, Length),
                       ghost others: multiset<nat>, ghost rest: seq<Entry<Edit>>, ghost t: Subtree, ghost n: Subtree)
    requires pool.Valid() && pool.handles == others + HandleOf(root) && Holds(pool.cells, root, t) && ValidPath(t, p)
    requires FieldsOf(n) == Edited(FieldsOf(At(t, p)), shape) && n.children == At(t, p).children
    requires p != [] && IsOwned(pool.cells, pool.handles, root, Front(p))
    requires SlotsOwned(pool.cells, pool.handles, root, rest)
    modifies pool
    ensures pool.Valid() && pool.handles == old(pool.handles)
    ensures IsEdited(old(pool.cells), pool.cells, others, root, Put(t, p, n))
    ensures SlotsOwned(pool.cells, pool.handles, root, rest)
    ensures |n.children| > 0 ==> IsOwned(pool.cells, pool.handles, root, p)
  {
    ghost var (before, rank, handles) := (pool.cells, pool.rank, pool.handles);
    ghost var spine := OwnedSlot(before, handles, root, t, p);
    var parent := RefAt(pool.cells, root, Front(p)).address;
    var r := RewriteSlot(pool, parent, Back(p), shape);
    SlotStep(before, pool.cells, others, rank, root, p, spine, r, shape, t, n);
    SlotsStayOwned(before, pool.cells, handles, rank, pool.rank, parent, Back(p), r, shape, root, rest);
    if |n.children| > 0 {
      EditedIsOwned(before, pool.cells, handles, pool.rank, p, spine, parent, Back(p), r, shape);
    }
  }

  lemma SlotsStayOwned(before: seq<Cell>, after: seq<Cell>, handles: multiset<nat>, rank: seq<nat>, newRank: seq<nat>,
                       a: nat, i: nat, r: Ref, shape: (Length, Length), root: Ref, rest: seq<Entry<Edit>>)
    requires IsConsistent(before, handles, rank) && IsConsistent(after, handles, newRank)
    requires IsLive(before, a) && i < |before[a].children| && IsRewrite(before, after, a, i, r, shape)
    requires SlotsOwned(before, handles, root, rest)
    ensures SlotsOwned(after, handles, root, rest)
  {
    forall k | 0 <= k < |rest| && |rest[k].tree| > 0
      ensures IsOwned(after, handles, root, Front(rest[k].tree))
    {
      SlotOwned(before, after, handles, rank, newRank, a, i, r, shape, root, Front(rest[k].tree));
    }
  }

  /** The state of the loop: t is the tree so far, and finishing the stack makes it the goal. */
  ghost predicate InTurn(cells: seq<Cell>, handles: multiset<nat>, root: Ref, t: Subtree, stack: seq<Entry<Edit>>,
                         goal: Subtree)
  {
    && Holds(cells, root, t) && SlotsOwned(cells, handles, root, stack)
    && AllOrdered(stack) && Ready(t, stack) && Finish(EditOrKeep, t, stack) == goal
  }

  ghost function WorkLeft<C>(t: Subtree, stack: seq<Entry<C>>): nat {
    if Ready(t, stack) then Work(t, stack) else 0
  }

  /** An entry off the stack, the others being left. */
  ghost predicate IsPopped(cells: seq<Cell>, handles: multiset<nat>, root: Ref, t: Subtree, rest: seq<Entry<Edit>>,
                           entry: Entry<Edit>)
  {
    && ValidPath(t, entry.tree) && entry.ctx.Ordered() && AllOrdered(rest) && SlotsOwned(cells, handles, root, rest)
    && if entry.tree == [] then rest == [] else IsOwned(cells, handles, root, Front(entry.tree))
  }

  lemma TopOfStack(cells: seq<Cell>, handles: multiset<nat>, root: Ref, t: Subtree, rest: seq<Entry<Edit>>,
                   entry: Entry<Edit>, goal: Subtree)
    requires InTurn(cells, handles, root, t, rest + [entry], goal)
    ensures IsPopped(cells, handles, root, t, rest, entry)
  {
    var all := rest + [entry];
    assert all[|rest|] == entry;
    assert forall k | 0 <= k < |rest| :: rest[k] == all[k];
    if |rest| > 0 {
      assert Apart(all[0].tree, all[|rest|].tree);
    }
  }

  lemma SkipEntry(cells: seq<Cell>, handles: multiset<nat>, root: Ref, t: Subtree, rest: seq<Entry<Edit>>,
                  entry: Entry<Edit>, goal: Subtree)
    requires InTurn(cells, handles, root, t, rest + [entry], goal) && IsPopped(cells, handles, root, t, rest, entry)
    requires Skips(At(t, entry.tree), entry.ctx)
    ensures InTurn(cells, handles, root, t, rest, goal) && WorkLeft(t, rest) < WorkLeft(t, rest + [entry])
  {
    Unprocessed(EditOrKeep, t, rest, entry);
  }

  /** The same edit of the tree as a value. */
  lemma TurnOnValue(t: Subtree, rest: seq<Entry<Edit>>, entry: Entry<Edit>, goal: Subtree, next: Subtree,
                    stack: seq<Entry<Edit>>)
    requires Ready(t, rest + [entry]) && ValidPath(t, entry.tree) && Finish(EditOrKeep, t, rest + [entry]) == goal
    requires entry.ctx.Ordered() && !Skips(At(t, entry.tree), entry.ctx) && AllOrdered(rest)
    requires next == Put(t, entry.tree, Reshaped(At(t, entry.tree), entry.ctx))
    requires var tree := At(t, entry.tree);
             stack == rest + Entries(entry.tree, Plan(tree.children, 0, entry.ctx, FrameOf(tree, entry.ctx)))
    ensures Ready(next, stack) && AllOrdered(stack) && Finish(EditOrKeep, next, stack) == goal
    ensures WorkLeft(next, stack) < WorkLeft(t, rest + [entry])
  {
    EditStep(t, rest, entry);
  }

  lemma NothingChanged(cells: seq<Cell>, handles: multiset<nat>, others: multiset<nat>)
    requires NothingDangles(cells, handles) && others <= handles
    ensures IsKept(cells, cells, others)
  {
    KeptByExtension(cells, cells, handles, others);
  }

  /** The loop over the children reads what the plan for the tree reads. */
  lemma PlanInMemory(cells: seq<Cell>, root: Ref, next: Subtree, p: Path, t: Subtree, node: Subtree, e: Edit)
    requires Holds(cells, root, next) && ValidPath(next, p) && At(next, p).children == t.children
    requires LookAlike(node, t) && e.Ordered()
    ensures AllLive(cells, KidsOf(cells, RefAt(cells, root, p)))
    ensures Plan(ChildNodes(cells, RefAt(cells, root, p)), 0, e, FrameOf(node, e))
            == Plan(t.children, 0, e, FrameOf(t, e))
  {
    HeldAt(cells, root, next, p);
    ChildrenLookAlike(cells, RefAt(cells, root, p), At(next, p));
    SamePlan(ChildNodes(cells, RefAt(cells, root, p)), t.children, 0, e, FrameOf(node, e));
  }

  lemma EditedAt(t: Subtree, p: Path, e: Edit)
    requires ValidPath(t, p) && e.Ordered()
    ensures var next := Put(t, p, Reshaped(At(t, p), e));
            ValidPath(next, p) && At(next, p).children == At(t, p).children
  {
    PutAt(t, p, Reshaped(At(t, p), e), []);
    assert p + [] == p;
  }

  lemma ReshapedFields(t: Subtree, node: Subtree, e: Edit, n: Subtree)
    requires LookAlike(node, t) && e.Ordered() && n == Reshaped(t, e)
    ensures FieldsOf(n) == Edited(FieldsOf(t), Reshape(node, e)) && n.children == t.children
  {
  }

  /** The popped subtree is edited, and entries for its children are pushed. */
  method ReshapeEntry(pool: SubtreePool, root: Ref, rest: seq<Entry<Edit>>, entry: Entry<Edit>, node: Subtree,
                      ghost t: Subtree, ghost others: multiset<nat>, ghost goal: Subtree)
    returns (r: Ref, stack: seq<Entry<Edit>>, ghost next: Subtree)
    requires pool.Valid() && pool.handles == others + HandleOf(root)
    requires InTurn(pool.cells, pool.handles, root, t, rest + [entry], goal)
    requires IsPopped(pool.cells, pool.handles, root, t, rest, entry)
    requires !Skips(At(t, entry.tree), entry.ctx) && LookAlike(node, At(t, entry.tree))
    modifies pool
    ensures pool.Valid() && pool.handles == others + HandleOf(r)
    ensures InTurn(pool.cells, pool.handles, r, next, stack, goal) && IsKept(old(pool.cells), pool.cells, others)
    ensures WorkLeft(next, stack) < WorkLeft(t, rest + [entry])
  {
    var p, edit := entry.tree, entry.ctx;
    ghost var tree := At(t, p);
    ghost var plan := Plan(tree.children, 0, edit, FrameOf(tree, edit));
    ghost var result := Reshaped(tree, edit);
    next := Put(t, p, result);
    ReshapedFields(tree, node, edit, result);
    r := RewriteNode(pool, root, p, Reshape(node, edit), others, rest, t, result);
    EditedAt(t, p, edit);
    PlanInMemory(pool.cells, r, next, p, tree, node, edit);
    var children := ChildNodes(pool.cells, RefAt(pool.cells, r, p));
    stack := PushChildren(rest, p, children, edit, FrameOf(node, edit));
    SlotsOwnedBelow(pool.cells, pool.handles, r, rest, p, plan);
    TurnOnValue(t, rest, entry, goal, next, stack);
  }

  lemma FieldsInMemory(cells: seq<Cell>, root: Ref, t: Subtree, p: Path, e: Edit)
    requires Holds(cells, root, t) && ValidPath(t, p)
    ensures var r := RefAt(cells, root, p); (r.Ptr? ==> IsLive(cells, r.address))
    ensures var node := NodeOf(FieldsAt(cells, RefAt(cells, root, p)));
            LookAlike(node, At(t, p)) && Skips(node, e) == Skips(At(t, p), e)
  {
    HeldAt(cells, root, t, p);
    NodeLooksAlike(cells, RefAt(cells, root, p), At(t, p));
  }

  /** One turn of the loop. */
  method EditEntry(pool: SubtreePool, root: Ref, rest: seq<Entry<Edit>>, entry: Entry<Edit>, ghost t: Subtree,
                   ghost others: multiset<nat>, ghost goal: Subtree)
    returns (r: Ref, stack: seq<Entry<Edit>>, ghost next: Subtree)
    requires pool.Valid() && pool.handles == others + HandleOf(root)
    requires InTurn(pool.cells, pool.handles, root, t, rest + [entry], goal)
    modifies pool
    ensures pool.Valid() && pool.handles == others + HandleOf(r)
    ensures InTurn(pool.cells, pool.handles, r, next, stack, goal) && IsKept(old(pool.cells), pool.cells, others)
    ensures WorkLeft(next, stack) < WorkLeft(t, rest + [entry])
  {
    TopOfStack(pool.cells, pool.handles, root, t, rest, entry, goal);
    FieldsInMemory(pool.cells, root, t, entry.tree, entry.ctx);
    var node := NodeOf(FieldsAt(pool.cells, RefAt(pool.cells, root, entry.tree)));
    var skips := Skips(node, entry.ctx);
    if skips {
      SkipEntry(pool.cells, pool.handles, root, t, rest, entry, goal);
      NothingChanged(pool.cells, pool.handles, others);
      r, stack, next := root, rest, t;
    } else {
      r, stack, next := ReshapeEntry(pool, root, rest, entry, node, t, others, goal);
    }
  }

  /** ts_subtree_edit.  The tree behind the reference is edited; a handle on the old root is traded for one on the
      new root, and all that the other handles lead to stays as it is. */
  method EditShared(pool: SubtreePool, self: Ref, inputEdit: Edit, ghost t: Subtree) returns (r: Ref)
    requires pool.Valid() && (self.Ptr? ==> self.address in pool.handles)
    requires inputEdit.Ordered() && Holds(pool.cells, self, t)
    modifies pool
    ensures pool.Valid() && pool.handles == old(pool.handles) - HandleOf(self) + HandleOf(r)
    ensures Holds(pool.cells, r, EditTree(t, inputEdit))
    ensures IsKept(old(pool.cells), pool.cells, old(pool.handles) - HandleOf(self))
  {
    r := self;
    var stack := [Entry([], inputEdit)];
    ghost var (others, now, before, goal) := (pool.handles - HandleOf(self), t, pool.cells, EditTree(t, inputEdit));
    NothingChanged(pool.cells, pool.handles, others);
    StartOfEdit(pool.cells, pool.handles, self, t, inputEdit);
    while |stack| > 0
      invariant pool.Valid() && pool.handles == others + HandleOf(r)
      invariant InTurn(pool.cells, pool.handles, r, now, stack, goal) && IsKept(before, pool.cells, others)
      decreases WorkLeft(now, stack)
    {
      var entry, rest := stack[|stack| - 1], stack[..|stack| - 1];
      assert stack == rest + [entry];
      ghost var cells := pool.cells;
      r, stack, now := EditEntry(pool, r, rest, entry, now, others, goal);
      KeptTwice(before, cells, pool.cells, others);
    }
  }

  lemma StartOfEdit(cells: seq<Cell>, handles: multiset<nat>, r: Ref, t: Subtree, e: Edit)
    requires e.Ordered() && Holds(cells, r, t)
    ensures InTurn(cells, handles, r, t, [Entry([], e)], EditTree(t, e))
  {
    var stack := [Entry([], e)];
    assert stack[..0] == [];
    assert Ready(EditTree(t, e), stack[..0]);
  }

  /** Editing one tree leaves every other tree as it was, however much they share. */
  method EditOneOfTwo(pool: SubtreePool, self: Ref, inputEdit: Edit, other: nat, ghost t: Subtree, ghost u: Subtree)
    returns (r: Ref)
    requires pool.Valid() && (self.Ptr? ==> self.address in pool.handles)
    requires inputEdit.Ordered() && Holds(pool.cells, self, t)
    requires other in pool.handles - HandleOf(self) && Holds(pool.cells, Ptr(other), u)
    modifies pool
    ensures pool.Valid() && pool.handles == old(pool.handles) - HandleOf(self) + HandleOf(r)
    ensures Holds(pool.cells, r, EditTree(t, inputEdit)) && Holds(pool.cells, Ptr(other), u)
  {
    ghost var before, others := pool.cells, pool.handles - HandleOf(self);
    r := EditShared(pool, self, inputEdit, t);
    OtherTreesKept(before, pool.cells, others, other, u);
  }
}
