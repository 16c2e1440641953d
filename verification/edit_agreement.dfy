/** Node handles kept across an edit agree with the edited tree (ts_node_edit in node.c). */
module EditAgreement {
  import opened Lengths
  import opened Subtrees
  import opened Edits

  /** The edited start position of a node handle. */
  function NodeEdit(start: Length, e: Edit): Length
    requires e.Ordered()
  {
    if start.bytes >= e.oldEnd.bytes then
      Length(e.newEnd.bytes + (start.bytes - e.oldEnd.bytes),
             PointAdd(e.newEnd.extent, PointSub(start.extent, e.oldEnd.extent)))
    else if start.bytes > e.start.bytes then e.newEnd
    else start
  }

  /** A handle on a node: its start position, fixed when the handle was made. */
  class NodeHandle {
    var position: Length

    constructor (start: Length)
      ensures position == start
    {
      position := start;
    }

    method Edit(e: Edit)
      requires e.Ordered()
      modifies this
      ensures position == NodeEdit(old(position), e)
    {
      var startByte, startPoint := position.bytes, position.extent;
      if startByte >= e.oldEnd.bytes {
        startByte := e.newEnd.bytes + (startByte - e.oldEnd.bytes);
        startPoint := PointAdd(e.newEnd.extent, PointSub(startPoint, e.oldEnd.extent));
      } else if startByte > e.start.bytes {
        startByte := e.newEnd.bytes;
        startPoint := e.newEnd.extent;
      }
      position := Length(startByte, startPoint);
    }
  }

  lemma {:induction false} EditKeepsPaths(t: Subtree, e: Edit, p: Path)
    requires e.Ordered()
    ensures ValidPath(EditTree(t, e), p) <==> ValidPath(t, p)
    decreases p
  {
    if p == [] || Skips(t, e) || p[0] >= |t.children| {
    } else {
      ChildOfEdited(t, e, p[0]);
      var q := QueuedFor(t, e, p[0]);
      if q.Some? {
        EditKeepsPaths(t.children[p[0]], q.value, p[1..]);
      }
    }
  }

  /** The edge where the content of the node at p starts. */
  function StartEdge(t: Subtree, p: Path): nat
    requires ValidPath(t, p)
  {
    LeftEdge(t, p) + At(t, p).sum.padding.bytes
  }

  /** Content edges anywhere in the tree move as the text does. */
  lemma {:induction false} StartEdgesMove(t: Subtree, e: Edit, p: Path)
    requires ValidPath(t, p) && Layout(t) && e.Ordered()
    ensures ValidPath(EditTree(t, e), p)
    ensures StartEdge(EditTree(t, e), p) == CutOf(e).Move(StartEdge(t, p))
    decreases p
  {
    EditKeepsPaths(t, e, p);
    EdgeWithin(t, p);
    if p == [] {
      PaddingOfEdited(t, e);
    } else if Skips(t, e) {
      SkippedStays(CutOf(e), t.TotalBytes() + t.sum.lookaheadBytes, StartEdge(t, p));
    } else {
      var c := t.children[p[0]];
      EdgeWithin(c, p[1..]);
      QueueMoves(t, e, p[0], StartEdge(c, p[1..]));
      NewLefts(t, e, p[0]);
      ChildOfEdited(t, e, p[0]);
      var q := QueuedFor(t, e, p[0]);
      if q.Some? {
        StartEdgesMove(c, q.value, p[1..]);
      }
    }
  }

  lemma SkippedStays(c: Cut, end: nat, x: nat)
    requires c.Ordered() && x <= end
    requires c.start > end || (c.oldEnd == c.start == c.newEnd == end)
    ensures c.Move(x) == x
  {
  }

  /** The start that ts_node_edit computes for a node is the start found by walking down the edited
      tree, for every node of every tree and every edit. */
  lemma HandlesAgreeWithTree(t: Subtree, e: Edit, p: Path)
    requires ValidPath(t, p) && Layout(t) && e.Ordered()
    ensures ValidPath(EditTree(t, e), p)
    ensures var r := EditTree(t, e);
            WalkStart(r, r.sum.padding, p).bytes == NodeEdit(WalkStart(t, t.sum.padding, p), e).bytes
  {
    var r := EditTree(t, e);
    StartEdgesMove(t, e, p);
    EditKeepsLayout(t, e);
    WalkFindsEdge(t, t.sum.padding, p);
    WalkFindsEdge(r, r.sum.padding, p);
  }
}
