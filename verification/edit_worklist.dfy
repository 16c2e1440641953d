/** The loop of ts_subtree_edit: an explicit stack of subtrees still to be edited, each named by its
    path, and in-place updates of the tree.  It computes Edits.EditTree. */
module EditWorklist {
  import opened Options
  import opened Lengths
  import opened Subtrees
  import opened Edits
  import opened Worklists

  function EditOrKeep(t: Subtree, e: Edit): Subtree {
    if e.Ordered() then EditTree(t, e) else t
  }

  lemma EntriesTo(p: Path, plan: seq<Option<Edit>>, i: nat, next: nat)
    requires next == i + 1 <= |plan|
    ensures Entries(p, plan[..next])
            == Entries(p, plan[..i]) + if plan[i].Some? then [Entry(p + [i], plan[i].value)] else []
  {
    assert plan[..next][..i] == plan[..i];
  }

  lemma PlanTail(plan: seq<Option<Edit>>, tail: seq<Option<Edit>>, i: nat, next: nat)
    requires next == i + 1 <= |plan| && tail == plan[i..]
    ensures tail[0] == plan[i] && tail[1..] == plan[next..]
  {
  }

  /** The loop over the children of an edited node, which pushes the planned entries. */
  method PushChildren(stack: seq<Entry<Edit>>, p: Path, children: seq<Subtree>, wholeEdit: Edit, frame: Frame)
    returns (r: seq<Entry<Edit>>)
    requires wholeEdit.Ordered()
    ensures r == stack + Entries(p, Plan(children, 0, wholeEdit, frame))
  {
    r := stack;
    var edit := wholeEdit;
    ghost var plan := Plan(children, 0, edit, frame);
    var childLeft, childRight := LENGTH_ZERO, LENGTH_ZERO;
    for i := 0 to |children|
      invariant childRight == Prefix(children, i) && edit.Ordered()
      invariant Plan(children, i, edit, frame) == plan[i..]
      invariant r == stack + Entries(p, plan[..i])
    {
      var child := children[i];
      childLeft := childRight;
      childRight := LengthAdd(childLeft, child.TotalSize());
      EntriesTo(p, plan, i, i + 1);
      PlanTail(plan, plan[i..], i, i + 1);
      if childRight.bytes + child.sum.lookaheadBytes < edit.start.bytes {
        continue;
      }
      if Stops(child, i, childLeft, edit, frame) {
        assert forall k | i <= k < |plan| :: plan[k] == plan[i..][k - i];
        NothingQueued(p, plan, i);
        return;
      }
      var childEdit := edit.Relative(childLeft);
      if edit.Touches(childRight.bytes) {
        edit := edit.Consumed();
      } else {
        childEdit := childEdit.Collapsed();
      }
      r := r + [Entry(p + [i], childEdit)];
    }
    assert plan[..|plan|] == plan;
  }

  lemma {:induction false} NothingQueued(p: Path, plan: seq<Option<Edit>>, i: nat)
    requires i <= |plan| && forall k | i <= k < |plan| :: plan[k].None?
    ensures Entries(p, plan) == Entries(p, plan[..i])
    decreases |plan|
  {
    if i < |plan| {
      var k := |plan| - 1;
      NothingQueued(p, plan[..k], i);
      assert plan[..k][..i] == plan[..i];
    } else {
      assert plan[..i] == plan;
    }
  }

  lemma {:induction false} EntriesOrdered(p: Path, plan: seq<Option<Edit>>)
    requires forall k | 0 <= k < |plan| && plan[k].Some? :: plan[k].value.Ordered()
    ensures forall s | s in Entries(p, plan) :: s.ctx.Ordered()
  {
    if plan == [] {
    } else {
      EntriesOrdered(p, plan[..|plan| - 1]);
    }
  }

  /** A node whose own extents have been edited, its children still as they were. */
  function Reshaped(t: Subtree, e: Edit): Subtree
    requires e.Ordered()
  {
    var (padding, size) := Reshape(t, e);
    t.(sum := t.sum.(padding := padding, size := size), hasChanges := true)
  }

  lemma EditByChildren(t: Subtree, e: Edit)
    requires e.Ordered() && !Skips(t, e)
    ensures WithMapped(EditOrKeep, Reshaped(t, e), Plan(t.children, 0, e, FrameOf(t, e))) == EditTree(t, e)
  {
    var plan := Plan(t.children, 0, e, FrameOf(t, e));
    forall i | 0 <= i < |t.children|
      ensures WithMapped(EditOrKeep, Reshaped(t, e), plan).children[i] == EditTree(t, e).children[i]
    {
      ChildOfEdited(t, e, i);
    }
    assert WithMapped(EditOrKeep, Reshaped(t, e), plan).children == EditTree(t, e).children;
  }

  /** Editing one node and queueing its children leaves the outcome as it was. */
  lemma EditStep(t: Subtree, rest: seq<Entry<Edit>>, entry: Entry<Edit>)
    requires Ready(t, rest + [entry]) && ValidPath(t, entry.tree)
    requires entry.ctx.Ordered() && !Skips(At(t, entry.tree), entry.ctx)
    requires forall s | s in rest :: s.ctx.Ordered()
    ensures var (tree, edit) := (At(t, entry.tree), entry.ctx);
            var t' := Put(t, entry.tree, Reshaped(tree, edit));
            var stack' := rest + Entries(entry.tree, Plan(tree.children, 0, edit, FrameOf(tree, edit)));
            && Ready(t', stack') && (forall s | s in stack' :: s.ctx.Ordered())
            && Finish(EditOrKeep, t', stack') == Finish(EditOrKeep, t, rest + [entry])
            && Work(t', stack') < Work(t, rest + [entry])
  {
    var (tree, edit) := (At(t, entry.tree), entry.ctx);
    var plan := Plan(tree.children, 0, edit, FrameOf(tree, edit));
    EditByChildren(tree, edit);
    EntriesOrdered(entry.tree, plan);
    Processed(EditOrKeep, t, rest, entry, Reshaped(tree, edit), plan);
  }

  /** ts_subtree_edit. */
  method EditSubtree(self: Subtree, inputEdit: Edit) returns (r: Subtree)
    requires inputEdit.Ordered()
    ensures r == EditTree(self, inputEdit)
  {
    r := self;
    var stack := [Entry([], inputEdit)];
    while |stack| > 0
      invariant Ready(r, stack) && forall s | s in stack :: s.ctx.Ordered()
      invariant Finish(EditOrKeep, r, stack) == EditTree(self, inputEdit)
      decreases Work(r, stack)
    {
      var entry := stack[|stack| - 1];
      ghost var all := stack;
      stack := stack[..|stack| - 1];
      assert all == stack + [entry];
      var tree, edit := At(r, entry.tree), entry.ctx;
      if Skips(tree, edit) {
        Unprocessed(EditOrKeep, r, stack, entry);
        continue;
      }
      EditStep(r, stack, entry);
      var (padding, size) := Reshape(tree, edit);
      var result := tree.(sum := tree.sum.(padding := padding, size := size), hasChanges := true);
      r := Put(r, entry.tree, result);
      stack := PushChildren(stack, entry.tree, tree.children, edit, FrameOf(tree, edit));
    }
  }
}
