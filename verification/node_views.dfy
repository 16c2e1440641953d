/** Nodes handed to users, and the search for their i-th child (node.c). */
module NodeViews {
  import opened Options
  import opened Lengths
  import opened Subtrees
  import opened Summaries
  import opened VisibleTrees

  datatype Node = Node(subtree: Subtree, position: Length, alias: Symbol)
  {
    /** Anonymous nodes included. */
    predicate IsRelevant() {
      subtree.head.visible || alias != 0
    }

    function RelevantChildCount(): nat {
      if |subtree.children| > 0 then subtree.sum.visibleChildCount else 0
    }
  }

  function ChildAlias(lang: Language, t: Subtree, i: nat): Symbol
    requires i < |t.children|
  {
    if t.children[i].head.extra then 0 else AliasAt(lang, t.head.productionId, StructuralIndex(t.children, i))
  }

  /** Child i as a node, where the parent starts at the given position. */
  function ChildNode(lang: Language, parent: Node, i: nat): (n: Node)
    requires i < |parent.subtree.children|
    ensures n.IsRelevant() <==> IsVisibleChild(lang, parent.subtree, i)
    ensures n.RelevantChildCount() == parent.subtree.children[i].VisibleChildCount()
  {
    var cs := parent.subtree.children;
    Node(cs[i], ChildStart(cs, i, parent.position), ChildAlias(lang, parent.subtree, i))
  }

  class NodeChildIterator {
    const lang: Language
    var parent: Option<Subtree>
    var position: Length
    var childIndex: nat
    var structuralChildIndex: nat
    ghost const node: Node

    /** Between children, the position is the end of the previous child. */
    ghost predicate Valid()
      reads this
    {
      var cs := node.subtree.children;
      && parent == (if cs == [] then None else Some(node.subtree))
      && childIndex <= |cs|
      && structuralChildIndex == StructuralIndex(cs, childIndex)
      && (cs != [] ==>
            position == if childIndex == 0 then node.position
                        else LengthAdd(ChildStart(cs, childIndex - 1, node.position), cs[childIndex - 1].sum.size))
    }

    constructor (lang: Language, node: Node)
      ensures Valid() && childIndex == 0 && this.lang == lang && this.node == node
    {
      this.lang, this.node := lang, node;
      childIndex, structuralChildIndex := 0, 0;
      if |node.subtree.children| == 0 {
        parent, position := None, LENGTH_ZERO;
      } else {
        parent, position := Some(node.subtree), node.position;
      }
    }

    method Next() returns (result: Option<Node>)
      requires Valid()
      modifies this
      ensures Valid()
      ensures var i := old(childIndex);
              if i == |node.subtree.children| then result == None && childIndex == i
              else result == Some(ChildNode(lang, node, i)) && childIndex == i + 1
    {
      if parent == None || childIndex == |parent.value.children| {
        return None;
      }
      var child := parent.value.children[childIndex];
      var alias: Symbol := 0;
      if !child.head.extra {
        alias := AliasAt(lang, parent.value.head.productionId, structuralChildIndex);
        structuralChildIndex := structuralChildIndex + 1;
      }
      if childIndex > 0 {
        position := LengthAdd(position, child.sum.padding);
      }
      result := Some(Node(child, position, alias));
      position := LengthAdd(position, child.sum.size);
      childIndex := childIndex + 1;
    }
  }

  /** The node at p, seen from the given node. */
  ghost function NodeAt(lang: Language, node: Node, p: Path): Node
    requires ValidPath(node.subtree, p)
    decreases p
  {
    if p == [] then node else NodeAt(lang, ChildNode(lang, node, p[0]), p[1..])
  }

  lemma {:induction false} NodeAtFacts(lang: Language, node: Node, p: Path)
    requires ValidPath(node.subtree, p)
    ensures NodeAt(lang, node, p).subtree == At(node.subtree, p)
    ensures NodeAt(lang, node, p).position == WalkStart(node.subtree, node.position, p)
    decreases p
  {
    if p == [] {
    } else {
      NodeAtFacts(lang, ChildNode(lang, node, p[0]), p[1..]);
    }
  }

  /** Child k of a node is the visible child it gets from its children from i on, k - index places further. */
  ghost predicate Remains(lang: Language, node: Node, i: nat, k: int, sought: Option<Node>)
    requires i <= |node.subtree.children|
  {
    var ps := PathsFrom(lang, node.subtree, i);
    && k >= 0
    && if k >= |ps| then sought == None
       else ps[k] != [] && ValidPath(node.subtree, ps[k]) && sought == Some(NodeAt(lang, node, ps[k]))
  }

  /** Child k in the flattened list of visible children. */
  ghost function NthChild(lang: Language, node: Node, k: nat): Option<Node> {
    var ps := VisibleChildren(lang, node.subtree);
    if k < |ps| then PathsFromStart(lang, node.subtree, 0, k); Some(NodeAt(lang, node, ps[k])) else None
  }

  /** Passing a child, and entering a hidden one. */
  lemma RemainsStep(lang: Language, node: Node, i: nat, next: nat, k: nat, rest: int, sought: Option<Node>)
    requires i < |node.subtree.children| && next == i + 1 && CountsRight(lang, node.subtree)
    requires Remains(lang, node, i, k, sought)
    requires var c := ChildNode(lang, node, i); rest == k - if c.IsRelevant() then 1 else c.RelevantChildCount()
    ensures rest >= 0 ==> Remains(lang, node, next, rest, sought)
    ensures var c := ChildNode(lang, node, i);
            rest < 0 ==> sought.Some? && sought == if c.IsRelevant() then Some(c) else NthChild(lang, c, k)
  {
    var t := node.subtree;
    var c := ChildNode(lang, node, i);
    var (own, later) := (PathsThrough(lang, t, i), PathsFrom(lang, t, next));
    assert PathsFrom(lang, t, i) == own + later;
    CountsAreSizes(lang, t.children[i]);
    if k < |own| {
      assert PathsFrom(lang, t, i)[k] == own[k];
      if c.IsRelevant() {
        assert own[k] == [i] && own[k][1..] == [];
        assert NodeAt(lang, node, own[k]) == c;
      } else {
        assert own[k][0] == i && own[k][1..] == VisibleChildren(lang, c.subtree)[k];
      }
    }
  }

  lemma AllRemain(lang: Language, node: Node, k: nat)
    ensures Remains(lang, node, 0, k, NthChild(lang, node, k))
  {
    if k < |VisibleChildren(lang, node.subtree)| {
      PathsFromStart(lang, node.subtree, 0, k);
    }
  }

  /** One round of the child search: the child sought, or the hidden child to look into. */
  method ChildOrHiddenParent(lang: Language, self: Node, index: nat)
    returns (result: Option<Node>, didDescend: bool, grandchildIndex: nat)
    requires CountsRight(lang, self.subtree)
    ensures didDescend ==>
              && result.Some? && result.value.subtree in self.subtree.children
              && NthChild(lang, self, index) == NthChild(lang, result.value, grandchildIndex)
    ensures !didDescend ==> result == NthChild(lang, self, index)
  {
    didDescend, grandchildIndex := false, 0;
    var i := 0;
    var children := new NodeChildIterator(lang, self);
    ghost var (sought, at, rest) := (NthChild(lang, self, index), 0, index);
    AllRemain(lang, self, index);
    while true
      invariant children.Valid() && children.lang == lang && children.node == self
      invariant at == children.childIndex && rest == index - i
      invariant Remains(lang, self, at, rest, sought)
      decreases |self.subtree.children| - at
    {
      result := children.Next();
      if result == None {
        return;
      }
      ghost var (k, next) := (rest, at + 1);
      rest := k - if result.value.IsRelevant() then 1 else result.value.RelevantChildCount();
      RemainsStep(lang, self, at, next, k, rest, sought);
      at := next;
      if result.value.IsRelevant() {
        if i == index {
          return;
        }
        i := i + 1;
      } else {
        grandchildIndex := index - i;
        var grandchildCount := result.value.RelevantChildCount();
        if grandchildIndex < grandchildCount {
          didDescend := true;
          return;
        }
        i := i + grandchildCount;
      }
    }
  }

  /** The child search finds the k-th element of the flattened list of visible children, or nothing if there
      are not that many. */
  method Child(lang: Language, self: Node, index: nat) returns (result: Option<Node>)
    requires CountsRight(lang, self.subtree)
    ensures result == NthChild(lang, self, index)
  {
    var current, childIndex, didDescend := self, index, true;
    result := None;
    while didDescend
      invariant CountsRight(lang, current.subtree)
      invariant NthChild(lang, self, index) == if didDescend then NthChild(lang, current, childIndex) else result
      decreases current.subtree, didDescend
    {
      result, didDescend, childIndex := ChildOrHiddenParent(lang, current, childIndex);
      if didDescend {
        current := result.value;
      }
    }
  }

  /** A node has a k-th child exactly for the k below its stored visible child count, and it starts where a
      walk down the tree finds it. */
  lemma NthChildFacts(lang: Language, self: Node, k: nat)
    requires CountsRight(lang, self.subtree)
    ensures NthChild(lang, self, k) == None <==> k >= self.RelevantChildCount()
    ensures k < self.RelevantChildCount() ==>
              var ps := VisibleChildren(lang, self.subtree);
              && k < |ps| && ValidPath(self.subtree, ps[k])
              && NthChild(lang, self, k).value.subtree == At(self.subtree, ps[k])
              && NthChild(lang, self, k).value.position == WalkStart(self.subtree, self.position, ps[k])
  {
    CountsAreSizes(lang, self.subtree);
    if k < self.RelevantChildCount() {
      PathsFromStart(lang, self.subtree, 0, k);
      NodeAtFacts(lang, self, VisibleChildren(lang, self.subtree)[k]);
    }
  }
}
