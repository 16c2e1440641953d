/** Editing a syntax tree (ts_subtree_edit), as a function on trees.  EditWorklist has the loop. */
module Edits {
  import opened Options
  import opened Lengths
  import opened Subtrees

  /** A replacement of the text between start and oldEnd by the text between start and newEnd. */
  datatype Edit = Edit(start: Length, oldEnd: Length, newEnd: Length) {
    /** What the API asks of an edit. */
    predicate Ordered() {
      start.bytes <= oldEnd.bytes && start.bytes <= newEnd.bytes
    }

    predicate IsPureInsertion() {
      oldEnd.bytes == start.bytes
    }

    predicate IsNoop() {
      IsPureInsertion() && newEnd.bytes == start.bytes
    }

    /** The edit in the coordinates of a child that begins at left. */
    function Relative(left: Length): (r: Edit)
      ensures Ordered() ==> r.Ordered()
    {
      Edit(LengthSaturatingSub(start, left), LengthSaturatingSub(oldEnd, left), LengthSaturatingSub(newEnd, left))
    }

    /** What remains of the edit once some child has taken the inserted text. */
    function Consumed(): Edit {
      this.(newEnd := start)
    }

    /** The edit as seen by a child that lies wholly before it. */
    function Collapsed(): Edit {
      Edit(start, start, start)
    }

    /** Does a text of this many bytes, starting at 0, touch the edit? */
    predicate Touches(total: nat) {
      total > start.bytes || (total == start.bytes && IsPureInsertion())
    }
  }

  /** The subtree and the bytes it looked at end before the edit. */
  predicate Skips(t: Subtree, e: Edit) {
    var end := t.TotalBytes() + t.sum.lookaheadBytes;
    e.start.bytes > end || (e.IsNoop() && e.start.bytes == end)
  }

  /** The new padding and size of an edited node. */
  function Reshape(t: Subtree, e: Edit): (r: (Length, Length))
    requires e.Ordered()
  {
    var (padding, size, total) := (t.sum.padding, t.sum.size, t.TotalSize());
    if e.oldEnd.bytes <= padding.bytes then
      (LengthAdd(e.newEnd, LengthSub(padding, e.oldEnd)), size)
    else if e.start.bytes < padding.bytes then
      (e.newEnd, LengthSaturatingSub(size, LengthSub(e.oldEnd, padding)))
    else if e.start.bytes == padding.bytes && e.IsPureInsertion() then
      (e.newEnd, size)
    else if e.Touches(total.bytes) then
      (padding, LengthAdd(LengthSub(e.newEnd, padding), LengthSaturatingSub(total, e.oldEnd)))
    else
      (padding, size)
  }

  /** What the loop over the children reads besides the edit. */
  datatype Frame = Frame(parentDependsOnColumn: bool, columnShifted: bool, padding: Length)

  function FrameOf(t: Subtree, e: Edit): Frame
    requires e.Ordered()
  {
    Frame(t.head.dependsOnColumn, e.newEnd.extent.column != e.oldEnd.extent.column, Reshape(t, e).0)
  }

  /** The loop over the children stops at a child that starts after the edit. */
  predicate Stops(child: Subtree, i: nat, left: Length, e: Edit, f: Frame) {
    && (left.bytes > e.oldEnd.bytes || (left.bytes == e.oldEnd.bytes && child.TotalBytes() > 0 && i > 0))
    && (!f.parentDependsOnColumn || left.extent.row > f.padding.extent.row)
    && (!child.head.dependsOnColumn || !f.columnShifted || left.extent.row > e.oldEnd.extent.row)
  }

  /** The loop passes over a child that ends, with its lookahead, before the edit. */
  predicate Passes(cs: seq<Subtree>, i: nat, e: Edit)
    requires i < |cs|
  {
    Left(cs, i + 1) + cs[i].sum.lookaheadBytes < e.start.bytes
  }

  /** The edit the loop queues for one child, in the child's coordinates. */
  function Queue(cs: seq<Subtree>, i: nat, e: Edit, f: Frame): (r: Option<Edit>)
    requires i < |cs| && e.Ordered()
    ensures r.Some? ==> r.value.Ordered()
  {
    var left := Prefix(cs, i);
    if Passes(cs, i, e) || Stops(cs[i], i, left, e, f) then None
    else if e.Touches(Left(cs, i + 1)) then Some(e.Relative(left))
    else Some(e.Relative(left).Collapsed())
  }

  /** The edits queued for the children from the i-th on. */
  function Plan(cs: seq<Subtree>, i: nat, e: Edit, f: Frame): (r: seq<Option<Edit>>)
    requires i <= |cs| && e.Ordered()
    ensures |r| == |cs| - i
    ensures forall k | 0 <= k < |r| && r[k].Some? :: r[k].value.Ordered()
    decreases |cs| - i
  {
    if i == |cs| then []
    else if Passes(cs, i, e) then [None] + Plan(cs, i + 1, e, f)
    else if Stops(cs[i], i, Prefix(cs, i), e, f) then seq(|cs| - i, _ => None)
    else [Queue(cs, i, e, f)] + Plan(cs, i + 1, if e.Touches(Left(cs, i + 1)) then e.Consumed() else e, f)
  }

  /** The tree after an edit. */
  function EditTree(t: Subtree, e: Edit): (r: Subtree)
    requires e.Ordered()
    ensures |r.children| == |t.children|
    decreases t
  {
    if Skips(t, e) then t
    else
      var (padding, size) := Reshape(t, e);
      var plan := Plan(t.children, 0, e, FrameOf(t, e));
      t.(sum := t.sum.(padding := padding, size := size),
         hasChanges := true,
         children := seq(|t.children|, i requires 0 <= i < |t.children| =>
                           if plan[i].Some? then EditTree(t.children[i], plan[i].value) else t.children[i]))
  }

  /** The edited child, whether or not an edit was queued for it. */
  function EditedChild(c: Subtree, queued: Option<Edit>): Subtree
    requires queued.Some? ==> queued.value.Ordered()
  {
    if queued.Some? then EditTree(c, queued.value) else c
  }

  // ----- Layout: edits move every byte position of the tree the way they move the text -----

  /** An edit with everything but its byte offsets forgotten. */
  datatype Cut = Cut(start: nat, oldEnd: nat, newEnd: nat) {
    predicate Ordered() {
      start <= oldEnd && start <= newEnd
    }

    predicate Touches(total: nat) {
      total > start || (total == start && oldEnd == start)
    }

    /** Where the edit moves a byte position. */
    function Move(x: nat): nat
      requires Ordered()
    {
      if x >= oldEnd then newEnd + (x - oldEnd) else if x > start then newEnd else x
    }

    /** The total the edit gives to a subtree of the given total. */
    function NewTotal(total: nat): nat {
      if Touches(total) then newEnd + Monus(total, oldEnd) else total
    }

    function Relative(left: nat): Cut {
      Cut(Monus(start, left), Monus(oldEnd, left), Monus(newEnd, left))
    }

    function Consumed(): Cut {
      this.(newEnd := start)
    }

    function Collapsed(): Cut {
      Cut(start, start, start)
    }

    /** The left edge, after the edit, of a child with the given left edge; the first child stays at 0. */
    function NewLeft(left: nat, isFirst: bool): nat {
      if !isFirst && Touches(left) then NewTotal(left) else left
    }

    /** The edit as the loop over the children has it when it comes to such a child. */
    function Remaining(left: nat, isFirst: bool): Cut {
      if !isFirst && Touches(left) then Consumed() else this
    }

    /** What the loop queues for a child that it neither passes over nor stops at. */
    function ForChild(left: nat, right: nat): Cut {
      if Touches(right) then Relative(left) else Relative(left).Collapsed()
    }
  }

  function CutOf(e: Edit): Cut {
    Cut(e.start.bytes, e.oldEnd.bytes, e.newEnd.bytes)
  }

  /** A queued child moves its byte positions as the whole edit does, and ends where the next one starts. */
  lemma QueuedChildMoves(c: Cut, left: nat, total: nat, isFirst: bool, x: nat)
    requires c.Ordered() && x <= total && (isFirst ==> left == 0)
    ensures var q := c.Remaining(left, isFirst).ForChild(left, left + total);
            && q.Ordered()
            && c.Move(left + x) == c.NewLeft(left, isFirst) + q.Move(x)
            && c.NewLeft(left, isFirst) + q.NewTotal(total) == c.NewLeft(left + total, false)
  {
  }

  /** A child left alone, before or after the edit, moves as a block. */
  lemma UnqueuedChildMoves(c: Cut, left: nat, total: nat, isFirst: bool, x: nat)
    requires c.Ordered() && x <= total && (isFirst ==> left == 0)
    requires left + total < c.start || left > c.oldEnd || (left == c.oldEnd && !isFirst)
    ensures c.Move(left + x) == c.NewLeft(left, isFirst) + x
    ensures c.NewLeft(left, isFirst) + total == c.NewLeft(left + total, false)
  {
  }

  lemma TotalOfEdited(t: Subtree, e: Edit)
    requires e.Ordered()
    ensures EditTree(t, e).TotalBytes() == CutOf(e).NewTotal(t.TotalBytes())
  {
  }

  /** What the plan may hold for a child with these edges: its share of the edit, or nothing when the
      child is clear of the edit. */
  predicate IsShare(c: Cut, q: Option<Edit>, left: nat, right: nat, isFirst: bool) {
    if q.Some? then CutOf(q.value) == c.Remaining(left, isFirst).ForChild(left, right)
    else right < c.start || left > c.oldEnd || (left == c.oldEnd && !isFirst)
  }

  /** The loop goes on after child i. */
  predicate Continues(cs: seq<Subtree>, i: nat, e: Edit, f: Frame)
    requires i < |cs|
  {
    Passes(cs, i, e) || !Stops(cs[i], i, Prefix(cs, i), e, f)
  }

  /** The edit with which it goes on. */
  function AfterChild(cs: seq<Subtree>, i: nat, e: Edit): (r: Edit)
    requires i < |cs| && e.Ordered()
    ensures r.Ordered()
  {
    if !Passes(cs, i, e) && e.Touches(Left(cs, i + 1)) then e.Consumed() else e
  }

  lemma PlanOfLater(cs: seq<Subtree>, i: nat, next: nat, k: nat, e: Edit, f: Frame)
    requires next == i + 1 <= k < |cs| && e.Ordered() && Continues(cs, i, e, f)
    ensures Plan(cs, i, e, f)[k - i] == Plan(cs, next, AfterChild(cs, i, e), f)[k - next]
  {
  }

  /** Every entry of the plan is the child's share, however far the loop has run. */
  lemma {:induction false} PlanEntry(cs: seq<Subtree>, i: nat, k: nat, e0: Edit, e: Edit, f: Frame)
    requires i <= k < |cs| && e0.Ordered() && e.Ordered()
    requires CutOf(e) == CutOf(e0).Remaining(Left(cs, i), i == 0)
    ensures IsShare(CutOf(e0), Plan(cs, i, e, f)[k - i], Left(cs, k), Left(cs, k + 1), k == 0)
    decreases k - i
  {
    LeftMonotonic(cs, i, k);
    if i < k && Continues(cs, i, e, f) {
      var next := i + 1;
      PlanOfLater(cs, i, next, k, e, f);
      PlanEntry(cs, next, k, e0, AfterChild(cs, i, e), f);
    }
  }

  /** The edit queued for child i. */
  function QueuedFor(t: Subtree, e: Edit, i: nat): (q: Option<Edit>)
    requires e.Ordered() && i < |t.children|
    ensures q.Some? ==> q.value.Ordered()
  {
    Plan(t.children, 0, e, FrameOf(t, e))[i]
  }

  lemma ChildOfEdited(t: Subtree, e: Edit, i: nat)
    requires e.Ordered() && !Skips(t, e) && i < |t.children|
    ensures EditTree(t, e).children[i] == EditedChild(t.children[i], QueuedFor(t, e, i))
  {
  }

  predicate Moves(c: Cut, q: Option<Edit>, left: nat, total: nat, isFirst: bool, x: nat)
    requires c.Ordered() && (q.Some? ==> q.value.Ordered())
  {
    var newLeft := c.NewLeft(left, isFirst);
    && c.Move(left + x) == newLeft + (if q.Some? then CutOf(q.value).Move(x) else x)
    && newLeft + (if q.Some? then CutOf(q.value).NewTotal(total) else total) == c.NewLeft(left + total, false)
  }

  lemma SharesMove(c: Cut, q: Option<Edit>, left: nat, total: nat, isFirst: bool, x: nat)
    requires c.Ordered() && (q.Some? ==> q.value.Ordered())
    requires x <= total && (isFirst ==> left == 0)
    requires IsShare(c, q, left, left + total, isFirst)
    ensures Moves(c, q, left, total, isFirst, x)
  {
    if q.Some? {
      QueuedChildMoves(c, left, total, isFirst, x);
    } else {
      UnqueuedChildMoves(c, left, total, isFirst, x);
    }
  }

  /** Whatever is queued for child i, every byte position inside it moves as the whole edit moves it. */
  lemma QueueMoves(t: Subtree, e: Edit, i: nat, x: nat)
    requires e.Ordered() && i < |t.children| && x <= t.children[i].TotalBytes()
    ensures Moves(CutOf(e), QueuedFor(t, e, i), Left(t.children, i), t.children[i].TotalBytes(), i == 0, x)
  {
    PlanEntry(t.children, 0, i, e, e, FrameOf(t, e));
    SharesMove(CutOf(e), QueuedFor(t, e, i), Left(t.children, i), t.children[i].TotalBytes(), i == 0, x);
  }

  lemma EditedChildTotal(t: Subtree, e: Edit, i: nat)
    requires e.Ordered() && !Skips(t, e) && i < |t.children|
    ensures var (q, total) := (QueuedFor(t, e, i), t.children[i].TotalBytes());
            EditTree(t, e).children[i].TotalBytes() == if q.Some? then CutOf(q.value).NewTotal(total) else total
  {
    ChildOfEdited(t, e, i);
    var q := QueuedFor(t, e, i);
    if q.Some? {
      TotalOfEdited(t.children[i], q.value);
    }
  }

  /** The left edges of the edited tree's children are where the edit moves the old ones. */
  lemma {:induction false} NewLefts(t: Subtree, e: Edit, i: nat)
    requires e.Ordered() && !Skips(t, e) && i <= |t.children|
    ensures Left(EditTree(t, e).children, i) == CutOf(e).NewLeft(Left(t.children, i), i == 0)
  {
    if i == 0 {
    } else {
      NewLefts(t, e, i - 1);
      NextLeft(t, e, i - 1, i);
    }
  }

  /** The edited child ends where the edit moves its end. */
  lemma NextLeft(t: Subtree, e: Edit, i: nat, next: nat)
    requires e.Ordered() && !Skips(t, e) && next == i + 1 <= |t.children|
    ensures CutOf(e).NewLeft(Left(t.children, i), i == 0) + EditTree(t, e).children[i].TotalBytes()
            == CutOf(e).NewLeft(Left(t.children, next), false)
  {
    var (q, left, total) := (QueuedFor(t, e, i), Left(t.children, i), t.children[i].TotalBytes());
    QueueMoves(t, e, i, 0);
    EditedChildTotal(t, e, i);
    NextEdge(t.children, i, next);
    MovedEnd(CutOf(e), q, left, total, i == 0, EditTree(t, e).children[i].TotalBytes(), Left(t.children, next));
  }

  lemma NextEdge(cs: seq<Subtree>, i: nat, next: nat)
    requires next == i + 1 <= |cs|
    ensures Left(cs, next) == Left(cs, i) + cs[i].TotalBytes()
  {
  }

  lemma MovedEnd(c: Cut, q: Option<Edit>, left: nat, total: nat, isFirst: bool, newTotal: nat, right: nat)
    requires c.Ordered() && (q.Some? ==> q.value.Ordered()) && Moves(c, q, left, total, isFirst, 0)
    requires newTotal == (if q.Some? then CutOf(q.value).NewTotal(total) else total) && right == left + total
    ensures c.NewLeft(left, isFirst) + newTotal == c.NewLeft(right, false)
  {
  }

  /** Editing keeps the layout, all the way down, and the whole tree changes its length as the text does:
      only one child at each level takes in the inserted text. */
  lemma {:induction false} EditKeepsLayout(t: Subtree, e: Edit)
    requires Layout(t) && e.Ordered()
    ensures Layout(EditTree(t, e))
    ensures EditTree(t, e).TotalBytes() ==
            if e.Touches(t.TotalBytes()) then e.newEnd.bytes + Monus(t.TotalBytes(), e.oldEnd.bytes)
            else t.TotalBytes()
    decreases t
  {
    TotalOfEdited(t, e);
    var r := EditTree(t, e);
    if !Skips(t, e) && |t.children| > 0 {
      var cs := t.children;
      NewLefts(t, e, |cs|);
      forall i | 0 <= i < |cs|
        ensures Layout(r.children[i])
      {
        ChildOfEdited(t, e, i);
        var q := QueuedFor(t, e, i);
        if q.Some? {
          EditKeepsLayout(cs[i], q.value);
        }
      }
      FirstChildKeepsPadding(t, e);
    }
  }

  lemma FirstChildKeepsPadding(t: Subtree, e: Edit)
    requires Layout(t) && e.Ordered() && !Skips(t, e) && |t.children| > 0
    ensures EditTree(t, e).children[0].sum.padding.bytes == EditTree(t, e).sum.padding.bytes
  {
    var q := QueuedFor(t, e, 0);
    ChildOfEdited(t, e, 0);
    PlanEntry(t.children, 0, 0, e, e, FrameOf(t, e));
    PaddingOfEdited(t, e);
    if q.Some? {
      PaddingOfEdited(t.children[0], q.value);
    }
    LeftMonotonic(t.children, 1, |t.children|);
  }

  /** The content of a node starts where the edit moves it. */
  lemma PaddingOfEdited(t: Subtree, e: Edit)
    requires e.Ordered()
    ensures EditTree(t, e).sum.padding.bytes == CutOf(e).Move(t.sum.padding.bytes)
  {
  }
}
