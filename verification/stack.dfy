/** The parse stack: versions whose histories share nodes (stack.c). */
module Stacks {
  import opened Options
  import opened Lengths
  import opened Subtrees
  import opened Searches
  import opened StackGraphs
  import opened StackTrails

  const ERROR_STATE := 0

  datatype StackStatus = Active | Paused | Halted

  datatype StackHead = StackHead(
    node: nat,
    nodeCountAtLastError: nat,
    lastExternalToken: Option<Subtree>,
    lookaheadWhenPaused: Option<Subtree>,
    status: StackStatus)

  datatype StackSlice = StackSlice(subtrees: seq<Subtree>, version: nat)

  predicate HasVersion(slices: seq<StackSlice>, v: nat) {
    exists i | 0 <= i < |slices| :: slices[i].version == v
  }

  /** Slices come in groups of one version each; the versions from `first` on are theirs, with different nodes. */
  ghost predicate AreGrouped(heads: seq<StackHead>, slices: seq<StackSlice>, first: nat) {
    && (forall i | 0 <= i < |slices| :: first <= slices[i].version < |heads|)
    && InOrder(slices)
    && (forall v | first <= v < |heads| :: HasVersion(slices, v))
    && (forall v, w | first <= v < w < |heads| :: heads[v].node != heads[w].node)
  }

  function Insert<T>(xs: seq<T>, i: nat, x: T): seq<T>
    requires i <= |xs|
  {
    xs[..i] + [x] + xs[i..]
  }

  lemma InsertMultiset<T>(xs: seq<T>, i: nat, x: T)
    requires i <= |xs|
    ensures multiset(Insert(xs, i, x)) == multiset(xs) + multiset{x}
  {
    assert xs == xs[..i] + xs[i..];
  }

  predicate InOrder(slices: seq<StackSlice>) {
    forall i, j | 0 <= i < j < |slices| :: slices[i].version <= slices[j].version
  }

  lemma InsertInOrder(slices: seq<StackSlice>, i: nat, slice: StackSlice)
    requires InOrder(slices) && i < |slices| && slice.version == slices[i].version
    ensures InOrder(Insert(slices, i + 1, slice))
  {
    var b := Insert(slices, i + 1, slice);
    forall j, k | 0 <= j < k < |b|
      ensures b[j].version <= b[k].version
    {
      assert b[j].version == slices[if j <= i then j else j - 1].version;
      assert b[k].version == slices[if k <= i then k else k - 1].version;
    }
  }

  lemma GroupedInsert(heads: seq<StackHead>, slices: seq<StackSlice>, first: nat, i: nat, slice: StackSlice)
    requires AreGrouped(heads, slices, first) && i < |slices| && slice.version == slices[i].version
    ensures AreGrouped(heads, Insert(slices, i + 1, slice), first)
  {
    var b := Insert(slices, i + 1, slice);
    InsertInOrder(slices, i, slice);
    forall v | first <= v < |heads|
      ensures HasVersion(b, v)
    {
      assert HasVersion(slices, v);
      var k :| 0 <= k < |slices| && slices[k].version == v;
      assert b[if k <= i then k else k + 1] == slices[k];
    }
  }

  lemma GroupedAppend(heads: seq<StackHead>, slices: seq<StackSlice>, first: nat, head: StackHead, slice: StackSlice)
    requires AreGrouped(heads, slices, first) && first <= |heads| && slice.version == |heads|
    requires forall i | 0 <= i < |slices| :: slices[i].version < |heads| && heads[slices[i].version].node != head.node
    ensures AreGrouped(heads + [head], slices + [slice], first)
  {
    var (hs, b) := (heads + [head], slices + [slice]);
    forall v | first <= v < |heads|
      ensures HasVersion(b, v) && heads[v].node != head.node
    {
      assert HasVersion(slices, v);
      var k :| 0 <= k < |slices| && slices[k].version == v;
      assert b[k].version == v;
    }
    assert b[|slices|].version == |heads|;
    assert HasVersion(b, |heads|);
  }

  /** The slice holds the subtrees along its trail; its version is at the end of the trail. */
  ghost predicate IsSlice(nodes: seq<StackNode>, heads: seq<StackHead>, start: nat, slice: StackSlice, origin: Trail) {
    && slice.version < |heads| && IsTrail(nodes, start, origin)
    && heads[slice.version].node == EndOf(nodes, start, origin)
    && slice.subtrees == SubtreesAlong(nodes, start, origin)
  }

  ghost predicate ComeFrom(nodes: seq<StackNode>, heads: seq<StackHead>, start: nat,
                           slices: seq<StackSlice>, origins: seq<Trail>)
  {
    |origins| == |slices| && forall i | 0 <= i < |slices| :: IsSlice(nodes, heads, start, slices[i], origins[i])
  }

  lemma ComeFromInsert(nodes: seq<StackNode>, heads: seq<StackHead>, start: nat, slices: seq<StackSlice>,
                       origins: seq<Trail>, i: nat, slice: StackSlice, origin: Trail)
    requires ComeFrom(nodes, heads, start, slices, origins) && i <= |slices|
    requires IsSlice(nodes, heads, start, slice, origin)
    ensures ComeFrom(nodes, heads, start, Insert(slices, i, slice), Insert(origins, i, origin))
  {
  }

  lemma ComeFromAppend(nodes: seq<StackNode>, heads: seq<StackHead>, head: StackHead, start: nat,
                       slices: seq<StackSlice>, origins: seq<Trail>, slice: StackSlice, origin: Trail)
    requires ComeFrom(nodes, heads, start, slices, origins)
    requires IsSlice(nodes, heads + [head], start, slice, origin)
    ensures ComeFrom(nodes, heads + [head], start, slices + [slice], origins + [origin])
  {
    forall i | 0 <= i < |slices|
      ensures IsSlice(nodes, heads + [head], start, slices[i], origins[i])
    {
      assert IsSlice(nodes, heads, start, slices[i], origins[i]);
    }
  }

  function NodeCountOf(s: Option<Subtree>): nat {
    if s == None then 0
    else
      s.value.VisibleDescendantCount() + (if s.value.head.visible then 1 else 0)
      + (if s.value.head.symbol == SYM_ERROR_REPEAT then 1 else 0)
  }

  class Stack {
    const precedence: Subtree -> int
    var nodes: seq<StackNode>
    ghost var rank: seq<nat>
    var heads: seq<StackHead>
    var slices: seq<StackSlice>
    var iterators: seq<StackIterator>
    /** The trail each slice was popped along. */
    ghost var origins: seq<Trail>
    /** The iterators with the trails they have come along. */
    ghost var live: seq<Live<StackIterator>>

    ghost predicate Valid()
      reads `nodes, `rank, `heads
    {
      && IsStack(rank, nodes) && IsReduced(nodes)
      && forall v | 0 <= v < |heads| :: heads[v].node < |nodes|
    }

    constructor (precedence: Subtree -> int)
      ensures Valid()
      ensures heads == [StackHead(0, 0, None, None, Active)] && |nodes| == 1 && nodes[0].state == 1
    {
      this.precedence := precedence;
      nodes, rank := [StackNode(1, LENGTH_ZERO, [], 0, 0, 0)], [0];
      heads := [StackHead(0, 0, None, None, Active)];
      slices, iterators, origins, live := [], [], [], [];
    }

    function PrecedenceOf(s: Option<Subtree>): int {
      if s == None then 0 else precedence(s.value)
    }

    /** Equality stands for equality of references: two missing subtrees are the same reference, and two references to
        equal subtrees pass the other tests. */
    predicate IsEquivalent(left: Option<Subtree>, right: Option<Subtree>) {
      || left == right
      || (&& left.Some? && right.Some?
          && left.value.head.symbol == right.value.head.symbol
          && (|| (left.value.ErrorCost() > 0 && right.value.ErrorCost() > 0)
              || (&& left.value.sum.padding.bytes == right.value.sum.padding.bytes
                  && left.value.sum.size.bytes == right.value.sum.size.bytes
                  && |left.value.children| == |right.value.children|
                  && left.value.head.extra == right.value.head.extra
                  && ScannerStateOf(left) == ScannerStateOf(right))))
    }

    // ----- Growing -----

    /** A new node on top of a version's node. */
    method Push(version: nat, subtree: Option<Subtree>, pending: bool, state: nat)
      requires Valid() && version < |heads|
      modifies `nodes, `rank, `heads
      ensures Valid()
      ensures |heads| == |old(heads)| && heads == old(heads)[version := heads[version]]
      ensures var below := old(nodes[heads[version].node]);
              && |nodes| == |old(nodes)| + 1 && nodes[..|old(nodes)|] == old(nodes)
              && heads[version].node == |old(nodes)|
              && nodes[|old(nodes)|].links == [StackLink(old(heads[version].node), subtree, pending)]
              && KeyOf(nodes[|old(nodes)|])
                 == Key(state, below.position.bytes + BytesOf(subtree), below.errorCost + CostOf(subtree))
              && nodes[|old(nodes)|].position
                 == if subtree.Some? then LengthAdd(below.position, subtree.value.TotalSize()) else below.position
    {
      var head := heads[version];
      var below := nodes[head.node];
      var node := StackNode(state, below.position, [StackLink(head.node, subtree, pending)], below.errorCost,
                            below.nodeCount, below.dynamicPrecedence);
      if subtree.Some? {
        node := node.(
          errorCost := node.errorCost + subtree.value.ErrorCost(),
          position := LengthAdd(node.position, subtree.value.TotalSize()),
          nodeCount := node.nodeCount + NodeCountOf(subtree),
          dynamicPrecedence := node.dynamicPrecedence + precedence(subtree.value));
      }
      StackGrows(rank, nodes, node, StackLink(head.node, subtree, pending));
      StackIsLinked(rank, nodes);
      ReducedGrows(nodes, node);
      if subtree == None {
        head := head.(nodeCountAtLastError := node.nodeCount);
      }
      heads := heads[version := head.(node := |nodes|)];
      nodes, rank := nodes + [node], rank + [rank[head.node] + 1];
    }

    // ----- Merging -----

    /** Only this node and nodes in scope on lower levels were touched. */
    ghost predicate OnlyBelow(layers: Layers, a: seq<StackNode>, b: seq<StackNode>, top: nat)
      requires top < |a|
    {
      && |a| == |b|
      && forall n | && 0 <= n < |a| && n != top
                    && (n in layers.scope ==> layers.level(KeyOf(a[top])) <= layers.level(KeyOf(a[n]))) :: b[n] == a[n]
    }

    /** What adding a link makes of a graph. */
    ghost predicate Merged(layers: Layers, a: seq<StackNode>, b: seq<StackNode>, e: Edge) {
      IsGraph(layers, b) && SameKeys(a, b) && AllLinksKept(a, b) && NoOtherEdges(a, b, e)
    }

    lemma UpdateNode(layers: Layers, a: seq<StackNode>, i: nat, x: StackNode, link: StackLink)
      requires IsGraph(layers, a) && 0 < i < |a| && i in layers.scope && KeyOf(x) == KeyOf(a[i])
      requires FitsIn(layers, a, a[i], link)
      requires LinksKept(a[i].links, x.links) && |x.links| <= MAX_LINK_COUNT
      requires forall k | 0 <= k < |x.links| ::
                 || (k < |a[i].links| && x.links[k] == a[i].links[k])
                 || (x.links[k].node == link.node && x.links[k].subtree == link.subtree)
      ensures Merged(layers, a, a[i := x], EdgeOf(a, KeyOf(a[i]), link))
    {
      var e := EdgeOf(a, KeyOf(a[i]), link);
      forall k | 0 <= k < |x.links|
        ensures FitsIn(layers, a, x, x.links[k])
        ensures EdgeOf(a, KeyOf(x), x.links[k]) == e || HasEdge(a, EdgeOf(a, KeyOf(x), x.links[k]))
      {
        if k < |a[i].links| && x.links[k] == a[i].links[k] {
          assert FitsIn(layers, a, a[i], a[i].links[k]);
        }
      }
      GraphStill(layers, a, i, x);
      UpdateEdges(a, i, x, e);
      KeptByUpdate(a, i, x);
    }

    /** Replaces the subtree of a link by an equivalent one with more precedence. */
    method ReplaceSubtree(self: nat, i: nat, link: StackLink, ghost layers: Layers)
      requires IsGraph(layers, nodes) && IsReduced(nodes) && 0 < self < |nodes| && self in layers.scope
      requires FitsIn(layers, nodes, nodes[self], link)
      requires i < |nodes[self].links| && nodes[self].links[i].node == link.node
      requires IsAlike(nodes[self].links[i].subtree, link.subtree)
      modifies `nodes
      ensures Merged(layers, old(nodes), nodes, EdgeOf(old(nodes), KeyOf(old(nodes)[self]), link))
      ensures OnlyBelow(layers, old(nodes), nodes, self) && IsReduced(nodes)
      ensures CoversLink(layers.level, old(nodes), nodes, self, link)
    {
      var node := nodes[self];
      var links := node.links[i := node.links[i].(subtree := link.subtree)];
      var x := node.(
        links := links,
        dynamicPrecedence := nodes[link.node].dynamicPrecedence + PrecedenceOf(link.subtree));
      UpdateNode(layers, nodes, self, x, link);
      NoTwinsAfterReplacement(nodes, node, x, i, link.subtree);
      ReducedStill(nodes, self, x);
      nodes := nodes[self := x];
      CoversItself(layers, old(nodes), nodes, link.node);
      assert links[i].node == link.node;
    }

    method AppendLink(self: nat, link: StackLink, ghost layers: Layers)
      requires IsGraph(layers, nodes) && IsReduced(nodes) && 0 < self < |nodes| && self in layers.scope
      requires FitsIn(layers, nodes, nodes[self], link)
      requires |nodes[self].links| < MAX_LINK_COUNT
      requires forall k | 0 <= k < |nodes[self].links| :: !AreTwins(nodes, nodes[self].links[k], link)
      modifies `nodes
      ensures Merged(layers, old(nodes), nodes, EdgeOf(old(nodes), KeyOf(old(nodes)[self]), link))
      ensures OnlyBelow(layers, old(nodes), nodes, self) && IsReduced(nodes)
      ensures CoversLink(layers.level, old(nodes), nodes, self, link)
    {
      var node := nodes[self];
      var nodeCount := nodes[link.node].nodeCount;
      var dynamicPrecedence := nodes[link.node].dynamicPrecedence;
      var x := node.(links := node.links + [link]);
      if link.subtree.Some? {
        nodeCount := nodeCount + NodeCountOf(link.subtree);
        dynamicPrecedence := dynamicPrecedence + precedence(link.subtree.value);
      }
      if nodeCount > x.nodeCount {
        x := x.(nodeCount := nodeCount);
      }
      if dynamicPrecedence > x.dynamicPrecedence {
        x := x.(dynamicPrecedence := dynamicPrecedence);
      }
      UpdateNode(layers, nodes, self, x, link);
      assert HasNoTwins(nodes, node);
      ReducedStill(nodes, self, x);
      nodes := nodes[self := x];
      CoversItself(layers, old(nodes), nodes, link.node);
      assert nodes[self].links[|node.links|] == link;
    }

    /** Adds a link, or merges the node it leads to with the node of an equivalent link. */
    method AddLink(self: nat, link: StackLink, ghost layers: Layers)
      requires IsGraph(layers, nodes) && IsReduced(nodes) && 0 < self < |nodes| && self in layers.scope
      requires link.node == self || FitsIn(layers, nodes, nodes[self], link)
      modifies `nodes
      ensures IsReduced(nodes)
      ensures link.node == self ==> nodes == old(nodes)
      ensures link.node != self ==>
                && Merged(layers, old(nodes), nodes, EdgeOf(old(nodes), KeyOf(old(nodes)[self]), link))
                && OnlyBelow(layers, old(nodes), nodes, self)
                && CoversLink(layers.level, old(nodes), nodes, self, link)
      decreases layers.level(KeyOf(nodes[self])), 1
    {
      if link.node == self {
        return;
      }
      var i := 0;
      while i < |nodes[self].links|
        invariant nodes == old(nodes) && i <= |nodes[self].links|
        invariant forall k | 0 <= k < i :: !AreTwins(nodes, nodes[self].links[k], link)
      {
        var existing := nodes[self].links[i];
        assert FitsAll(layers, nodes, nodes[self]) && FitsIn(layers, nodes, nodes[self], existing);
        if IsEquivalent(existing.subtree, link.subtree) {
          if existing.node == link.node {
            if PrecedenceOf(link.subtree) > PrecedenceOf(existing.subtree) {
              ReplaceSubtree(self, i, link, layers);
            } else {
              CoversItself(layers, nodes, nodes, link.node);
            }
            return;
          }
          if KeyOf(nodes[existing.node]) == KeyOf(nodes[link.node]) {
            MergePredecessors(self, i, link, layers);
            return;
          }
        }
        i := i + 1;
      }
      if |nodes[self].links| < MAX_LINK_COUNT {
        AppendLink(self, link, layers);
      }
    }

    /** Merges the node the link leads to into the node that link i leads to. */
    method MergePredecessors(self: nat, i: nat, link: StackLink, ghost layers: Layers)
      requires IsGraph(layers, nodes) && IsReduced(nodes) && 0 < self < |nodes| && self in layers.scope
      requires FitsIn(layers, nodes, nodes[self], link)
      requires i < |nodes[self].links| && nodes[self].links[i].node < |nodes|
      requires nodes[self].links[i].node != link.node && IsAlike(nodes[self].links[i].subtree, link.subtree)
      requires KeyOf(nodes[nodes[self].links[i].node]) == KeyOf(nodes[link.node])
      modifies `nodes
      ensures Merged(layers, old(nodes), nodes, EdgeOf(old(nodes), KeyOf(old(nodes)[self]), link))
      ensures OnlyBelow(layers, old(nodes), nodes, self) && IsReduced(nodes)
      ensures CoversLink(layers.level, old(nodes), nodes, self, link)
      decreases layers.level(KeyOf(nodes[self])), 0
    {
      var existing := nodes[self].links[i];
      MergeLinks(existing.node, link.node, layers);
      ghost var merged := nodes;
      assert CoversLink(layers.level, old(nodes), merged, self, link) by {
        assert merged[self].links[i].node == existing.node;
      }
      var dynamicPrecedence := nodes[link.node].dynamicPrecedence + PrecedenceOf(link.subtree);
      if dynamicPrecedence > nodes[self].dynamicPrecedence {
        var x := nodes[self].(dynamicPrecedence := dynamicPrecedence);
        FitsStill(layers, old(nodes), merged, merged[self], link);
        UpdateNode(layers, nodes, self, x, link);
        assert HasNoTwins(nodes, nodes[self]);
        ReducedStill(nodes, self, x);
        nodes := nodes[self := x];
        KeptTransitive(old(nodes), merged, nodes);
        CoversLinkLater(layers.level, old(nodes), merged, nodes, self, link);
      }
    }

    /** Adds all links of one node to another with the same key, or to itself. */
    method MergeLinks(target: nat, source: nat, ghost layers: Layers)
      requires IsGraph(layers, nodes) && IsReduced(nodes) && target in layers.scope && source in layers.scope
      requires KeyOf(nodes[target]) == KeyOf(nodes[source])
      modifies `nodes
      ensures IsGraph(layers, nodes) && SameKeys(old(nodes), nodes) && AllLinksKept(old(nodes), nodes)
      ensures forall e | HasEdge(nodes, e) :: HasEdge(old(nodes), e)
      ensures OnlyBelow(layers, old(nodes), nodes, target) && IsReduced(nodes)
      ensures Covers(layers.level, old(nodes), nodes, target, source)
      decreases layers.level(KeyOf(nodes[target])), 2
    {
      var j := 0;
      while j < |nodes[source].links|
        invariant |nodes| == |old(nodes)| && j <= |nodes[source].links|
        invariant IsGraph(layers, nodes) && SameKeys(old(nodes), nodes) && AllLinksKept(old(nodes), nodes)
        invariant forall e | HasEdge(nodes, e) :: HasEdge(old(nodes), e)
        invariant OnlyBelow(layers, old(nodes), nodes, target) && IsReduced(nodes)
        invariant target != source ==>
                    && nodes[source] == old(nodes)[source]
                    && forall k | 0 <= k < j ::
                         CoversLink(layers.level, old(nodes), nodes, target, nodes[source].links[k])
        decreases MAX_LINK_COUNT - j
      {
        ghost var merged := nodes;
        MergeLink(target, source, j, old(nodes), layers);
        KeptTransitive(old(nodes), merged, nodes);
        j := j + 1;
      }
      if target == source {
        CoversItself(layers, old(nodes), nodes, target);
      } else {
        assert FitsAll(layers, old(nodes), old(nodes)[source]);
      }
    }

    /** Adds link j of one node to another with the same key; z is the graph before any link was added. */
    method MergeLink(target: nat, source: nat, j: nat, ghost z: seq<StackNode>, ghost layers: Layers)
      requires IsGraph(layers, nodes) && IsReduced(nodes) && target in layers.scope && source in layers.scope
      requires KeyOf(nodes[target]) == KeyOf(nodes[source]) && j < |nodes[source].links|
      requires IsGraph(layers, z) && SameKeys(z, nodes) && AllLinksKept(z, nodes)
      modifies `nodes
      ensures IsGraph(layers, nodes) && SameKeys(old(nodes), nodes) && AllLinksKept(old(nodes), nodes)
      ensures forall e | HasEdge(nodes, e) :: HasEdge(old(nodes), e)
      ensures OnlyBelow(layers, old(nodes), nodes, target) && IsReduced(nodes)
      ensures target != source ==> nodes[source] == old(nodes)[source]
      ensures CoversLink(layers.level, z, nodes, target, old(nodes)[source].links[j])
      ensures forall link: StackLink | link.node < |z| && CoversLink(layers.level, z, old(nodes), target, link) ::
                CoversLink(layers.level, z, nodes, target, link)
      decreases layers.level(KeyOf(nodes[target])), 2, 0
    {
      ghost var before := nodes;
      var link := nodes[source].links[j];
      assert FitsIn(layers, nodes, nodes[source], link);
      SameEdges(nodes, nodes, source, j);
      AddLink(target, link, layers);
      CoversLinkEarlier(layers, z, before, nodes, target, link, link);
      forall other: StackLink | other.node < |z| && CoversLink(layers.level, z, before, target, other)
        ensures CoversLink(layers.level, z, nodes, target, other)
      {
        CoversLinkLater(layers.level, z, before, nodes, target, other);
      }
    }

    // ----- Versions -----

    predicate CanMerge(version1: nat, version2: nat)
      requires version1 < |heads| && version2 < |heads|
      requires heads[version1].node < |nodes| && heads[version2].node < |nodes|
      reads `nodes, `heads
    {
      var (head1, head2) := (heads[version1], heads[version2]);
      && head1.status == Active
      && head2.status == Active
      && nodes[head1.node].state == nodes[head2.node].state
      && nodes[head1.node].position.bytes == nodes[head2.node].position.bytes
      && nodes[head1.node].errorCost == nodes[head2.node].errorCost
      && ScannerStateOf(head1.lastExternalToken) == ScannerStateOf(head2.lastExternalToken)
    }

    /** Node by node, what merging the second node into the first makes of the graph: no link between two keys is
        invented, so that every way down is a walk along links that were there, nodes not below the two are as they
        were, and the first node stands for both in the graph as it was. */
    ghost predicate NodesMerged(level: Key -> nat, a: seq<StackNode>, b: seq<StackNode>, node1: nat, node2: nat) {
      && SameKeys(a, b) && AllLinksKept(a, b)
      && (forall e | HasEdge(b, e) :: HasEdge(a, e))
      && IsLayered(level, NodesBelow(a, node1, node2), b)
      && (forall n | 0 <= n < |a| && n !in NodesBelow(a, node1, node2) :: b[n] == a[n])
      && node1 < |a| && node2 < |a| && Covers(level, a, b, node1, node1) && Covers(level, a, b, node1, node2)
    }

    method MergeNodes(node1: nat, node2: nat, ghost level: Key -> nat)
      requires IsStack(rank, nodes) && IsReduced(nodes) && node1 < |nodes| && node2 < |nodes|
      requires KeyOf(nodes[node1]) == KeyOf(nodes[node2]) && IsLayered(level, NodesBelow(nodes, node1, node2), nodes)
      modifies `nodes, `rank
      ensures IsStack(rank, nodes) && IsReduced(nodes) && NodesMerged(level, old(nodes), nodes, node1, node2)
    {
      ghost var layers := Layers(level, NodesBelow(nodes, node1, node2));
      LayeredStack(rank, level, nodes, node1, node2);
      MergeLinks(node1, node2, layers);
      CoversItself(layers, old(nodes), nodes, node1);
      GraphIsLayered(layers, nodes);
      GraphIsStack(rank, layers, old(nodes), nodes);
      rank := RanksBy(layers, rank, nodes);
    }

    method RemoveVersion(version: nat)
      requires version < |heads|
      modifies `heads
      ensures heads == old(heads)[..version] + old(heads)[version + 1..]
      ensures old(Valid()) ==> Valid()
    {
      heads := heads[..version] + heads[version + 1..];
    }

    ghost function MergedHeads(before: seq<StackHead>, version1: nat, version2: nat, node: StackNode): seq<StackHead>
      requires version1 < |before| && version2 < |before|
    {
      var count := if node.state == ERROR_STATE then node.nodeCount else before[version1].nodeCountAtLastError;
      var kept := before[version1 := before[version1].(nodeCountAtLastError := count)];
      kept[..version2] + kept[version2 + 1..]
    }

    /** Drops the second of two merged versions; on an error state the first one counts its nodes anew. */
    method MergeHeads(version1: nat, version2: nat, node: nat)
      requires version1 < |heads| && version2 < |heads| && node < |nodes|
      modifies `heads
      ensures heads == MergedHeads(old(heads), version1, version2, nodes[node])
    {
      if nodes[node].state == ERROR_STATE {
        heads := heads[version1 := heads[version1].(nodeCountAtLastError := nodes[node].nodeCount)];
      }
      RemoveVersion(version2);
    }

    /** Merges the second version into the first. */
    method Merge(version1: nat, version2: nat, ghost level: Key -> nat) returns (merged: bool)
      requires Valid() && version1 < |heads| && version2 < |heads|
      requires CanMerge(version1, version2) ==>
                 IsLayered(level, NodesBelow(nodes, heads[version1].node, heads[version2].node), nodes)
      modifies `nodes, `rank, `heads
      ensures Valid()
      ensures var (head1, head2) := (old(heads)[version1], old(heads)[version2]);
              merged <==> && head1.status == head2.status == Active
                          && KeyOf(old(nodes)[head1.node]) == KeyOf(old(nodes)[head2.node])
                          && ScannerStateOf(head1.lastExternalToken) == ScannerStateOf(head2.lastExternalToken)
      ensures !merged ==> nodes == old(nodes) && heads == old(heads)
      ensures merged ==>
                NodesMerged(level, old(nodes), nodes, old(heads)[version1].node, old(heads)[version2].node)
      ensures merged ==>
                heads == MergedHeads(old(heads), version1, version2, nodes[old(heads)[version1].node])
    {
      merged := CanMerge(version1, version2);
      if merged {
        var node := heads[version1].node;
        MergeNodes(node, heads[version2].node, level);
        MergeHeads(version1, version2, node);
      }
    }

    method CopyVersion(version: nat) returns (copy: nat)
      requires Valid() && version < |heads|
      modifies `heads
      ensures Valid() && copy == |old(heads)| && heads == old(heads) + [old(heads)[version]]
    {
      heads := heads + [heads[version]];
      copy := |heads| - 1;
    }

    // ----- Popping -----

    method AddVersion(originalVersion: nat, node: nat) returns (version: nat)
      requires originalVersion < |heads|
      modifies `heads
      ensures version == |old(heads)|
      ensures heads == old(heads) + [StackHead(node, old(heads)[originalVersion].nodeCountAtLastError,
                                               old(heads)[originalVersion].lastExternalToken, None, Active)]
    {
      heads := heads + [StackHead(node, heads[originalVersion].nodeCountAtLastError,
                                  heads[originalVersion].lastExternalToken, None, Active)];
      version := |heads| - 1;
    }

    /** The slices belong to trails from the start, and their versions to the nodes where the trails end. */
    ghost predicate SlicesAlong(start: nat, before: seq<StackHead>)
      reads `nodes, `heads, `slices, `origins
    {
      && before <= heads && AreGrouped(heads, slices, |before|)
      && ComeFrom(nodes, heads, start, slices, origins)
    }

    method InsertSlice(i: nat, subtrees: seq<Subtree>, ghost start: nat, ghost before: seq<StackHead>,
                       ghost origin: Trail)
      requires SlicesAlong(start, before) && i < |slices|
      requires IsSlice(nodes, heads, start, StackSlice(subtrees, slices[i].version), origin)
      modifies `slices, `origins
      ensures SlicesAlong(start, before)
      ensures multiset(origins) == multiset(old(origins)) + multiset{origin}
    {
      var slice := StackSlice(subtrees, slices[i].version);
      InsertMultiset(origins, i + 1, origin);
      GroupedInsert(heads, slices, |before|, i, slice);
      ComeFromInsert(nodes, heads, start, slices, origins, i + 1, slice, origin);
      slices, origins := Insert(slices, i + 1, slice), Insert(origins, i + 1, origin);
    }

    method AppendSlice(originalVersion: nat, node: nat, subtrees: seq<Subtree>,
                       ghost start: nat, ghost before: seq<StackHead>, ghost origin: Trail)
      requires originalVersion < |before| && SlicesAlong(start, before) && IsTrail(nodes, start, origin)
      requires node == EndOf(nodes, start, origin) && subtrees == SubtreesAlong(nodes, start, origin)
      requires forall i | 0 <= i < |slices| :: slices[i].version < |heads| && heads[slices[i].version].node != node
      modifies `heads, `slices, `origins
      ensures SlicesAlong(start, before)
      ensures multiset(origins) == multiset(old(origins)) + multiset{origin}
    {
      ghost var shorter := heads;
      var version := AddVersion(originalVersion, node);
      var slice := StackSlice(subtrees, version);
      GroupedAppend(shorter, slices, |before|, heads[version], slice);
      ComeFromAppend(nodes, shorter, heads[version], start, slices, origins, slice, origin);
      slices, origins := slices + [slice], origins + [origin];
    }

    method AddSlice(originalVersion: nat, node: nat, subtrees: seq<Subtree>,
                    ghost start: nat, ghost before: seq<StackHead>, ghost origin: Trail)
      requires originalVersion < |before| && SlicesAlong(start, before) && IsTrail(nodes, start, origin)
      requires node == EndOf(nodes, start, origin) && subtrees == SubtreesAlong(nodes, start, origin)
      modifies `heads, `slices, `origins
      ensures SlicesAlong(start, before)
      ensures multiset(origins) == multiset(old(origins)) + multiset{origin}
    {
      var i := |slices| - 1;
      while i + 1 > 0
        invariant -1 <= i < |slices|
        invariant forall j | i < j < |slices| :: heads[slices[j].version].node != node
      {
        var version := slices[i].version;
        if heads[version].node == node {
          InsertSlice(i, subtrees, start, before, origin);
          return;
        }
        i := i - 1;
      }
      AppendSlice(originalVersion, node, subtrees, start, before, origin);
    }

    ghost predicate Tracks()
      reads `iterators, `live
    {
      |live| == |iterators| && forall k | 0 <= k < |live| :: live[k].it == iterators[k]
    }

    /** A new iterator for link j of an iterator's node. */
    method Fork(i: nat, j: nat)
      requires i < |iterators| && iterators[i].node < |nodes| && j < |nodes[iterators[i].node].links|
      modifies `iterators
      ensures iterators == old(iterators) + [NextOf(nodes, old(iterators)[i])[j]]
    {
      iterators := iterators + [Advance(iterators[i], nodes[iterators[i].node].links[j])];
    }

    /** How many iterators have been forked when the loop over the links has come to link j. */
    function ForksBefore(live: nat, links: nat, j: nat): (k: nat)
      requires 0 < j <= links
      ensures k <= ForkCount(live, links) < links && k <= j - 1
    {
      if j - 1 < ForkCount(live, links) then j - 1 else ForkCount(live, links)
    }

    /** Forks an iterator for all links but the first, as far as there is room. */
    method ForkOthers(i: nat)
      requires i < |iterators| && iterators[i].node < |nodes| && |nodes[iterators[i].node].links| > 0
      modifies `iterators
      ensures var next := NextOf(nodes, old(iterators)[i]);
              iterators == old(iterators) + next[1..ForkCount(|old(iterators)|, |next|) + 1]
    {
      ghost var before, next := iterators, NextOf(nodes, iterators[i]);
      var linkCount := |nodes[iterators[i].node].links|;
      var j := 1;
      assert next[1..1] == [];
      while j < linkCount
        invariant 1 <= j <= linkCount
        invariant iterators == before + next[1..ForksBefore(|before|, linkCount, j) + 1]
      {
        if |iterators| < MAX_ITERATOR_COUNT {
          ForkAdds(before, next, j, j + 1);
          Fork(i, j);
        }
        j := j + 1;
      }
    }

    lemma ForkAdds(before: seq<StackIterator>, next: seq<StackIterator>, j: nat, following: nat)
      requires 0 < j < |next| && following == j + 1
      requires |before| + ForksBefore(|before|, |next|, j) < MAX_ITERATOR_COUNT
      ensures before + next[1..ForksBefore(|before|, |next|, j) + 1] + [next[j]]
              == before + next[1..ForksBefore(|before|, |next|, following) + 1]
    {
      assert next[1..j] + [next[j]] == next[1..following];
    }

    /** Moves an iterator along its node's first link, after forking it for the others. */
    method FollowLinks(i: nat, ghost s: Search<StackIterator>)
      requires Tracks() && i < |iterators| && iterators[i].node < |nodes| && !Stops(s, iterators[i])
      requires s.next(iterators[i]) == NextOf(nodes, iterators[i])
      modifies `iterators, `live
      ensures Tracks() && live == Stepped(s, old(live), i)
    {
      ghost var before := iterators;
      ForkOthers(i);
      iterators := iterators[i := Advance(iterators[i], nodes[iterators[i].node].links[0])];
      live := Stepped(s, live, i);
      StepTracks(s, old(live), before, i, iterators);
    }

    lemma StepTracks(s: Search<StackIterator>, ls: seq<Live<StackIterator>>, its: seq<StackIterator>, i: nat,
                     after: seq<StackIterator>)
      requires |ls| == |its| && i < |its| && !Stops(s, its[i]) && forall k | 0 <= k < |ls| :: ls[k].it == its[k]
      requires var next := s.next(its[i]);
               after == (its + next[1..ForkCount(|its|, |next|) + 1])[i := next[0]]
      ensures var stepped := Stepped(s, ls, i);
              |stepped| == |after| && forall k | 0 <= k < |after| :: stepped[k].it == after[k]
    {
    }

    method Erase(i: nat, ghost s: Search<StackIterator>)
      requires Tracks() && i < |iterators| && Stops(s, iterators[i])
      modifies `iterators, `live
      ensures Tracks() && live == Stepped(s, old(live), i)
    {
      iterators := iterators[..i] + iterators[i + 1..];
      live := Stepped(s, live, i);
    }

    /** The search runs on this stack, and its iterators are where their trails lead. */
    ghost predicate Searching(s: Search<StackIterator>, start: nat)
      reads `nodes, `rank, `iterators, `live
    {
      && IsStack(rank, nodes) && Descends(s) && s == SearchOf(rank, nodes, s.callback)
      && Tracks() && AllAt(nodes, start, live)
    }

    lemma SearchingFacts(s: Search<StackIterator>, start: nat, i: nat)
      requires Searching(s, start) && i < |iterators|
      ensures live[i].it == iterators[i] && iterators[i].node < |nodes|
      ensures IsAt(nodes, start, iterators[i], live[i].trail)
      ensures s.next(iterators[i]) == NextOf(nodes, iterators[i])
    {
    }

    /** Pops a slice if the callback says so. */
    method PopAt(version: nat, pop: bool, i: nat, ghost s: Search<StackIterator>, ghost start: nat,
                 ghost before: seq<StackHead>)
      requires Searching(s, start) && i < |iterators| && version < |before| && SlicesAlong(start, before)
      requires pop == s.callback(iterators[i]).pop
      modifies `heads, `slices, `origins
      ensures SlicesAlong(start, before)
      ensures multiset(origins) == multiset(old(origins)) + OwnPops(s, live[i].it, live[i].trail)
    {
      SearchingFacts(s, start, i);
      if pop {
        AddSlice(version, iterators[i].node, Reverse(iterators[i].subtrees), start, before, live[i].trail);
      } else {
        assert multiset(origins) + multiset{} == multiset(origins);
      }
    }

    /** One step of an iterator: it pops, stops or moves on. */
    method Step(version: nat, callback: StackIterator -> StackAction, i: nat,
                ghost s: Search<StackIterator>, ghost start: nat, ghost before: seq<StackHead>)
      returns (erased: bool)
      requires Searching(s, start) && i < |iterators| && version < |before| && SlicesAlong(start, before)
      requires s.callback == callback
      modifies `heads, `slices, `origins, `iterators, `live
      ensures Searching(s, start) && SlicesAlong(start, before)
      ensures multiset(origins) == multiset(old(origins)) + OwnPops(s, old(live)[i].it, old(live)[i].trail)
      ensures live == Stepped(s, old(live), i) && erased == Stops(s, old(live)[i].it)
    {
      var action := callback(iterators[i]);
      SearchingFacts(s, start, i);
      StepKeepsAt(rank, nodes, s, start, live, i);
      var shouldStop := action.stop || |nodes[iterators[i].node].links| == 0;
      PopAt(version, action.pop, i, s, start, before);
      erased := shouldStop;
      if shouldStop {
        Erase(i, s);
      } else {
        FollowLinks(i, s);
      }
    }

    /** The search in the middle of a round, in balance. */
    ghost predicate InRound(s: Search<StackIterator>, start: nat, before: seq<StackHead>, i: nat, size: nat,
                            peak: nat, done: Account, lost: Account)
      reads `nodes, `rank, `heads, `slices, `origins, `iterators, `live
    {
      && Searching(s, start) && SlicesAlong(start, before)
      && InBalance(s, live, i, size, peak, AccountOf(s, StackIterator(start, [], 0, true), []), done, lost, origins)
    }

    method BalancedStep(version: nat, callback: StackIterator -> StackAction, i: nat, size: nat,
                        ghost s: Search<StackIterator>, ghost start: nat, ghost before: seq<StackHead>,
                        ghost peak: nat, ghost done: Account, ghost lost: Account)
      returns (nextIndex: nat, nextSize: nat, ghost done': Account, ghost lost': Account)
      requires InRound(s, start, before, i, size, peak, done, lost) && i < size
      requires s.callback == callback && version < |before|
      modifies `heads, `slices, `origins, `iterators, `live
      ensures InRound(s, start, before, nextIndex, nextSize, peak, done', lost')
      ensures nextSize - nextIndex < size - i
      ensures Total(s, live).work < Total(s, old(live)).work
    {
      ghost var (ls, popped, total) := (live, origins, AccountOf(s, StackIterator(start, [], 0, true), []));
      var erased := Step(version, callback, i, s, start, before);
      nextIndex, nextSize := if erased then i else i + 1, if erased then size - 1 else size;
      done', lost' := StepBalanced(s, ls, i, size, peak, total, done, lost, popped, origins);
    }

    /** Follows all paths down at once: rounds of steps, one for each iterator that is live at the start of the
        round. */
    method Run(version: nat, callback: StackIterator -> StackAction,
               ghost s: Search<StackIterator>, ghost start: nat, ghost before: seq<StackHead>, ghost peak: nat)
      returns (ghost done: Account, ghost lost: Account)
      requires InRound(s, start, before, 0, |live|, peak, NOTHING, NOTHING)
      requires s.callback == callback && version < |before|
      modifies `heads, `slices, `origins, `iterators, `live
      ensures InRound(s, start, before, 0, 0, peak, done, lost) && live == []
    {
      done, lost := NOTHING, NOTHING;
      while |iterators| > 0
        invariant InRound(s, start, before, 0, |live|, peak, done, lost) && |live| == |iterators|
        decreases Total(s, live).work
      {
        done, lost := Round(version, callback, s, start, before, peak, done, lost);
      }
    }

    method Round(version: nat, callback: StackIterator -> StackAction,
                 ghost s: Search<StackIterator>, ghost start: nat, ghost before: seq<StackHead>, ghost peak: nat,
                 ghost done: Account, ghost lost: Account)
      returns (ghost done': Account, ghost lost': Account)
      requires InRound(s, start, before, 0, |live|, peak, done, lost) && |iterators| > 0
      requires s.callback == callback && version < |before|
      modifies `heads, `slices, `origins, `iterators, `live
      ensures InRound(s, start, before, 0, |live|, peak, done', lost')
      ensures Total(s, live).work < Total(s, old(live)).work
    {
      done', lost' := done, lost;
      var i: nat, size: nat := 0, |iterators|;
      ghost var steps, work := 0, Total(s, live).work;
      while i < size
        invariant i <= size && InRound(s, start, before, i, size, peak, done', lost')
        invariant Total(s, live).work + steps <= work && (steps == 0 ==> i == 0 < size)
        decreases size - i
      {
        steps := steps + 1;
        i, size, done', lost' := BalancedStep(version, callback, i, size, s, start, before, peak, done', lost');
      }
      RoundDone(s, start, before, i, peak, done', lost');
    }

    lemma RoundDone(s: Search<StackIterator>, start: nat, before: seq<StackHead>, i: nat, peak: nat, done: Account,
                    lost: Account)
      requires InRound(s, start, before, i, i, peak, done, lost)
      ensures InRound(s, start, before, 0, |live|, peak, done, lost)
    {
      NextRound(s, live, i, peak, AccountOf(s, StackIterator(start, [], 0, true), []), done, lost, origins);
    }

    lemma NewHeadsInRange(start: nat, before: seq<StackHead>)
      requires SlicesAlong(start, before)
      ensures forall v | |before| <= v < |heads| :: heads[v].node < |nodes|
    {
      forall v | |before| <= v < |heads|
        ensures heads[v].node < |nodes|
      {
        assert HasVersion(slices, v);
        var i :| 0 <= i < |slices| && slices[i].version == v;
        assert IsSlice(nodes, heads, start, slices[i], origins[i]);
      }
    }

    /** The most iterators that are alive at one time when all paths down from a node are followed. */
    ghost function IteratorsAtOnce(callback: StackIterator -> StackAction, start: nat): nat
      requires IsStack(rank, nodes)
      reads `nodes, `rank
    {
      SearchDescends(rank, nodes, callback);
      Peak(SearchOf(rank, nodes, callback), [Live(StackIterator(start, [], 0, true), [])], 0, 1)
    }

    /** There are never more iterators than ends to the paths: places where the callback stops or the base. */
    lemma EndsAreEnough(callback: StackIterator -> StackAction, start: nat)
      requires IsStack(rank, nodes)
      ensures Descends(SearchOf(rank, nodes, callback))
      ensures IteratorsAtOnce(callback, start)
              <= AccountOf(SearchOf(rank, nodes, callback), StackIterator(start, [], 0, true), []).width
    {
      SearchDescends(rank, nodes, callback);
      var (s, l) := (SearchOf(rank, nodes, callback), Live(StackIterator(start, [], 0, true), []));
      PeakBelowWidth(s, [l], 0, 1);
      TotalOne(s, l);
    }

    /** Every slice comes from its own trail, one to pop; and every trail to pop gives a slice, unless at some time
        there would be more iterators than there may be. */
    ghost predicate Enumerates(callback: StackIterator -> StackAction, start: nat)
      requires IsStack(rank, nodes)
      reads `nodes, `rank, `origins
    {
      var (s, it) := (SearchOf(rank, nodes, callback), StackIterator(start, [], 0, true));
      && Descends(s)
      && forall t: Trail ::
           && (t in origins ==> IsPop(s, it, t))
           && multiset(origins)[t] <= 1
           && (IsPop(s, it, t) && IteratorsAtOnce(callback, start) <= MAX_ITERATOR_COUNT ==> t in origins)
    }

    lemma StartsInRound(callback: StackIterator -> StackAction, s: Search<StackIterator>, start: nat,
                        before: seq<StackHead>, peak: nat)
      requires Valid() && start < |nodes| && s == SearchOf(rank, nodes, callback) && Descends(s)
      requires iterators == [StackIterator(start, [], 0, true)] && live == [Live(StackIterator(start, [], 0, true), [])]
      requires slices == [] && origins == [] && heads == before && peak == IteratorsAtOnce(callback, start)
      ensures InRound(s, start, before, 0, |live|, peak, NOTHING, NOTHING)
    {
      BalanceAtStart(s, StackIterator(start, [], 0, true));
    }

    /** Follows all paths down from a version at once. */
    method Iterate(version: nat, callback: StackIterator -> StackAction)
      requires Valid() && version < |heads|
      modifies `heads, `slices, `origins, `iterators, `live
      ensures Valid() && SlicesAlong(old(heads)[version].node, old(heads))
      ensures Enumerates(callback, old(heads)[version].node)
    {
      ghost var s := SearchOf(rank, nodes, callback);
      SearchDescends(rank, nodes, callback);
      ghost var before := heads;
      var it := StackIterator(heads[version].node, [], 0, true);
      slices, origins, iterators, live := [], [], [it], [Live(it, [])];
      ghost var peak := IteratorsAtOnce(callback, it.node);
      StartsInRound(callback, s, it.node, before, peak);
      ghost var done, lost := Run(version, callback, s, it.node, before, peak);
      NewHeadsInRange(it.node, before);
      AllFound(callback, s, it.node, before, peak, done, lost);
    }

    lemma AllFound(callback: StackIterator -> StackAction, s: Search<StackIterator>, start: nat, before: seq<StackHead>,
                   peak: nat, done: Account, lost: Account)
      requires InRound(s, start, before, 0, 0, peak, done, lost) && live == [] && s.callback == callback
      requires peak == IteratorsAtOnce(callback, start)
      ensures Enumerates(callback, start)
    {
      var it := StackIterator(start, [], 0, true);
      forall t: Trail
        ensures t in origins ==> IsPop(s, it, t)
        ensures multiset(origins)[t] <= 1
        ensures IsPop(s, it, t) && peak <= MAX_ITERATOR_COUNT ==> t in origins
      {
        Enumerated(s, it, peak, done, lost, origins, t);
      }
    }

    /** Two slices share a version exactly if they end at the same node; the slices of a version are contiguous;
        and every slice spans the text and has the cost between the two nodes. */
    lemma SliceFacts(start: nat, before: seq<StackHead>, i: nat, j: nat)
      requires IsStack(rank, nodes) && start < |nodes| && SlicesAlong(start, before) && i <= j < |slices|
      ensures IsTrail(nodes, start, origins[i]) && IsTrail(nodes, start, origins[j])
      ensures slices[i].version == slices[j].version
              <==> EndOf(nodes, start, origins[i]) == EndOf(nodes, start, origins[j])
      ensures slices[i].version == slices[j].version ==>
                forall k | i <= k <= j :: slices[k].version == slices[i].version
      ensures nodes[start].position.bytes
              == nodes[EndOf(nodes, start, origins[i])].position.bytes + TotalBytesOf(slices[i].subtrees)
      ensures nodes[start].errorCost
              == nodes[EndOf(nodes, start, origins[i])].errorCost + TotalCostOf(slices[i].subtrees)
    {
      assert IsSlice(nodes, heads, start, slices[i], origins[i]);
      assert IsSlice(nodes, heads, start, slices[j], origins[j]);
      TrailsFillGaps(rank, nodes, start, origins[i]);
    }

    /** Pops the given number of subtrees along all paths, not counting extra ones: one slice for each trail that ends
        with the last subtree to be counted, and none else.  A missing subtree counts, although no slice holds it. */
    method PopCount(version: nat, count: nat) returns (pop: seq<StackSlice>)
      requires Valid() && version < |heads|
      modifies `heads, `slices, `origins, `iterators, `live
      ensures Valid() && pop == slices && SlicesAlong(old(heads)[version].node, old(heads))
      ensures var start := old(heads)[version].node;
              && (forall t: Trail ::
                    && (t in origins ==> Passes(nodes, start, count, t))
                    && multiset(origins)[t] <= 1
                    && (&& Passes(nodes, start, count, t)
                        && IteratorsAtOnce(CountCallback(count), start) <= MAX_ITERATOR_COUNT
                        ==> t in origins))
              && (forall i | 0 <= i < |pop| ::
                    && IsTrail(nodes, start, origins[i])
                    && |Solid(pop[i].subtrees)| + MissingAlong(nodes, start, origins[i]) == count)
    {
      var it := StackIterator(heads[version].node, [], 0, true);
      Iterate(version, CountCallback(count));
      forall t: Trail
        ensures IsPop(SearchOf(rank, nodes, CountCallback(count)), it, t) <==> Passes(nodes, it.node, count, t)
      {
        PopsAtCount(rank, nodes, it, count, t);
        FirstReachPasses(nodes, it.node, count, t);
      }
      forall i | 0 <= i < |slices|
        ensures IsTrail(nodes, it.node, origins[i])
        ensures |Solid(slices[i].subtrees)| + MissingAlong(nodes, it.node, origins[i]) == count
      {
        assert IsSlice(nodes, heads, it.node, slices[i], origins[i]) && origins[i] in origins;
      }
      pop := slices;
    }

    /** Pops everything: one slice for each way down to the base. */
    method PopAll(version: nat) returns (pop: seq<StackSlice>)
      requires Valid() && version < |heads|
      modifies `heads, `slices, `origins, `iterators, `live
      ensures Valid() && pop == slices && SlicesAlong(old(heads)[version].node, old(heads))
      ensures var start := old(heads)[version].node;
              forall t: Trail ::
                && (t in origins ==> IsTrail(nodes, start, t) && EndOf(nodes, start, t) == 0)
                && multiset(origins)[t] <= 1
                && (&& IsTrail(nodes, start, t) && EndOf(nodes, start, t) == 0
                    && IteratorsAtOnce(AllCallback(nodes), start) <= MAX_ITERATOR_COUNT
                    ==> t in origins)
    {
      var it := StackIterator(heads[version].node, [], 0, true);
      Iterate(version, AllCallback(nodes));
      forall t: Trail
        ensures IsPop(SearchOf(rank, nodes, AllCallback(nodes)), it, t)
                <==> IsTrail(nodes, it.node, t) && EndOf(nodes, it.node, t) == 0
      {
        PopsAtBase(rank, nodes, it, t);
      }
      pop := slices;
    }
  }
}
