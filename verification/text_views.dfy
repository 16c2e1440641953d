/** Where cursors and node views find the nodes of a document: at the rows and columns of its text. */
module TextViews {
  import opened Options
  import opened Lengths
  import opened Subtrees
  import opened VisibleTrees
  import opened Texts
  import opened CursorPaths
  import opened NodeViews

  /** A cursor that was put on a node of the document shows every node below at the extent of the text before it. */
  lemma CursorInText(lang: Language, root: TreeCursorEntry, w: Text, left: nat, p: Path)
    requires Measures(root.subtree, w, left) && ValidPath(root.subtree, p)
    requires root.position == Span(w, 0, left + root.subtree.sum.padding.bytes)
    ensures var x := left + LeftEdge(root.subtree, p) + At(root.subtree, p).sum.padding.bytes;
            x <= |w| && TopOf(lang, root, p).position == Extent(w[..x])
  {
    TopFacts(lang, root, p);
    WalkInText(root.subtree, w, left, root.position, p);
    ExtentOfFront(w, left + LeftEdge(root.subtree, p) + At(root.subtree, p).sum.padding.bytes);
  }

  /** So does the search for the k-th child of a node. */
  lemma ChildInText(lang: Language, self: Node, w: Text, left: nat, k: nat)
    requires CountsRight(lang, self.subtree) && Measures(self.subtree, w, left)
    requires self.position == Span(w, 0, left + self.subtree.sum.padding.bytes)
    requires k < self.RelevantChildCount()
    ensures var ps := VisibleChildren(lang, self.subtree);
            && k < |ps| && ValidPath(self.subtree, ps[k]) && NthChild(lang, self, k).Some?
            && var x := left + LeftEdge(self.subtree, ps[k]) + At(self.subtree, ps[k]).sum.padding.bytes;
               x <= |w| && NthChild(lang, self, k).value.position == Extent(w[..x])
  {
    NthChildFacts(lang, self, k);
    var p := VisibleChildren(lang, self.subtree)[k];
    WalkInText(self.subtree, w, left, self.position, p);
    ExtentOfFront(w, left + LeftEdge(self.subtree, p) + At(self.subtree, p).sum.padding.bytes);
  }
}
