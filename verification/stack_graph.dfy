/** The graph behind the parse stack: nodes share their predecessors, links carry subtrees (stack.c). */
module StackGraphs {
  import opened Options
  import opened Lengths
  import opened Subtrees
  import opened Searches

  const MAX_LINK_COUNT := 8

  /** Node references are indices into the list of all nodes; a missing subtree marks an error discontinuity. */
  datatype StackLink = StackLink(node: nat, subtree: Option<Subtree>, isPending: bool)

  datatype StackNode = StackNode(
    state: nat,
    position: Length,
    links: seq<StackLink>,
    errorCost: nat,
    nodeCount: nat,
    dynamicPrecedence: int)

  function BytesOf(s: Option<Subtree>): nat {
    if s.Some? then s.value.TotalBytes() else 0
  }

  function CostOf(s: Option<Subtree>): nat {
    if s.Some? then s.value.ErrorCost() else 0
  }

  /** What merging compares. */
  datatype Key = Key(state: nat, bytes: nat, errorCost: nat)

  function KeyOf(n: StackNode): Key {
    Key(n.state, n.position.bytes, n.errorCost)
  }

  /** A link joins a node to one below it: the node ends where the link's subtree ends and has its cost added. */
  predicate Joins(nodes: seq<StackNode>, n: StackNode, link: StackLink) {
    && link.node < |nodes|
    && n.position.bytes == nodes[link.node].position.bytes + BytesOf(link.subtree)
    && n.errorCost == nodes[link.node].errorCost + CostOf(link.subtree)
  }

  /** Links lead down in some ranking of the nodes. */
  predicate RestsOn(rank: seq<nat>, nodes: seq<StackNode>, n: nat, link: StackLink)
    requires n < |rank| == |nodes|
  {
    Joins(nodes, nodes[n], link) && rank[link.node] < rank[n]
  }

  predicate Rests(rank: seq<nat>, nodes: seq<StackNode>, n: nat)
    requires n < |rank| == |nodes|
  {
    forall i | 0 <= i < |nodes[n].links| :: RestsOn(rank, nodes, n, nodes[n].links[i])
  }

  /** The invariant of the stack.  Node 0 is the base, the only node without predecessors. */
  predicate IsStack(rank: seq<nat>, nodes: seq<StackNode>) {
    && |rank| == |nodes| > 0 && |nodes[0].links| == 0 && nodes[0].position.bytes == 0 && nodes[0].errorCost == 0
    && forall n | 0 <= n < |nodes| ::
         Rests(rank, nodes, n) && |nodes[n].links| <= MAX_LINK_COUNT && (n > 0 ==> |nodes[n].links| > 0)
  }

  // ----- Paths down the stack -----

  predicate IsTrail(nodes: seq<StackNode>, n: nat, t: Trail)
    decreases t
  {
    && n < |nodes|
    && (t != [] ==> t[0] < |nodes[n].links| && IsTrail(nodes, nodes[n].links[t[0]].node, t[1..]))
  }

  function EndOf(nodes: seq<StackNode>, n: nat, t: Trail): (e: nat)
    requires IsTrail(nodes, n, t)
    ensures e < |nodes|
    decreases t
  {
    if t == [] then n else EndOf(nodes, nodes[n].links[t[0]].node, t[1..])
  }

  /** The subtrees along a trail, in document order: the first link taken holds the last subtree. */
  function SubtreesAlong(nodes: seq<StackNode>, n: nat, t: Trail): seq<Subtree>
    requires IsTrail(nodes, n, t)
    decreases t
  {
    if t == [] then []
    else
      var link := nodes[n].links[t[0]];
      SubtreesAlong(nodes, link.node, t[1..]) + (if link.subtree.Some? then [link.subtree.value] else [])
  }

  function TotalBytesOf(ss: seq<Subtree>): nat {
    if ss == [] then 0 else TotalBytesOf(ss[..|ss| - 1]) + ss[|ss| - 1].TotalBytes()
  }

  function TotalCostOf(ss: seq<Subtree>): nat {
    if ss == [] then 0 else TotalCostOf(ss[..|ss| - 1]) + ss[|ss| - 1].ErrorCost()
  }

  /** Whatever links are followed, the subtrees passed fill the gap between the two nodes. */
  lemma {:induction false} TrailsFillGaps(rank: seq<nat>, nodes: seq<StackNode>, n: nat, t: Trail)
    requires IsStack(rank, nodes) && IsTrail(nodes, n, t)
    ensures nodes[n].position.bytes
            == nodes[EndOf(nodes, n, t)].position.bytes + TotalBytesOf(SubtreesAlong(nodes, n, t))
    ensures nodes[n].errorCost == nodes[EndOf(nodes, n, t)].errorCost + TotalCostOf(SubtreesAlong(nodes, n, t))
    decreases t
  {
    if t == [] {
    } else {
      var link := nodes[n].links[t[0]];
      assert Rests(rank, nodes, n) && RestsOn(rank, nodes, n, link);
      TrailsFillGaps(rank, nodes, link.node, t[1..]);
      var below := SubtreesAlong(nodes, link.node, t[1..]);
      if link.subtree.Some? {
        assert (below + [link.subtree.value])[..|below|] == below;
      } else {
        assert below + [] == below;
      }
    }
  }

  /** All ways down from a node to the base have the same length and the same cost. */
  lemma AllPathsAgree(rank: seq<nat>, nodes: seq<StackNode>, n: nat, t: Trail, u: Trail)
    requires IsStack(rank, nodes) && IsTrail(nodes, n, t) && IsTrail(nodes, n, u)
    requires EndOf(nodes, n, t) == 0 && EndOf(nodes, n, u) == 0
    ensures TotalBytesOf(SubtreesAlong(nodes, n, t)) == nodes[n].position.bytes
            == TotalBytesOf(SubtreesAlong(nodes, n, u))
    ensures TotalCostOf(SubtreesAlong(nodes, n, t)) == nodes[n].errorCost == TotalCostOf(SubtreesAlong(nodes, n, u))
  {
    TrailsFillGaps(rank, nodes, n, t);
    TrailsFillGaps(rank, nodes, n, u);
  }

  /** A new node on top of an old one. */
  lemma StackGrows(rank: seq<nat>, nodes: seq<StackNode>, x: StackNode, link: StackLink)
    requires IsStack(rank, nodes) && x.links == [link] && Joins(nodes, x, link)
    ensures IsStack(rank + [rank[link.node] + 1], nodes + [x])
  {
    var (after, ranks) := (nodes + [x], rank + [rank[link.node] + 1]);
    forall n | 0 <= n < |after|
      ensures Rests(ranks, after, n)
    {
      forall i | 0 <= i < |after[n].links|
        ensures RestsOn(ranks, after, n, after[n].links[i])
      {
        if n < |nodes| {
          assert Rests(rank, nodes, n) && RestsOn(rank, nodes, n, nodes[n].links[i]);
        }
      }
    }
  }

  // ----- Graphs whose keys come in layers -----

  /** The nodes a merge may come across, and layers for their keys. */
  datatype Layers = Layers(level: Key -> nat, scope: set<nat>)

  /** A link fits below a node: it joins them, and leads down in the given layering of keys. */
  ghost predicate Fits(level: Key -> nat, nodes: seq<StackNode>, n: StackNode, link: StackLink) {
    Joins(nodes, n, link) && level(KeyOf(nodes[link.node])) < level(KeyOf(n))
  }

  ghost predicate FitsIn(layers: Layers, nodes: seq<StackNode>, n: StackNode, link: StackLink) {
    link.node in layers.scope && Fits(layers.level, nodes, n, link)
  }

  ghost predicate FitsAll(layers: Layers, nodes: seq<StackNode>, n: StackNode) {
    forall i | 0 <= i < |n.links| :: FitsIn(layers, nodes, n, n.links[i])
  }

  ghost predicate LeadsTo(nodes: seq<StackNode>, n: nat, m: nat) {
    exists t: Trail :: IsTrail(nodes, n, t) && EndOf(nodes, n, t) == m
  }

  /** The nodes on the ways down from either of two nodes. */
  ghost function NodesBelow(nodes: seq<StackNode>, n: nat, m: nat): set<nat> {
    set k: nat | k < |nodes| && (LeadsTo(nodes, n, k) || LeadsTo(nodes, m, k))
  }

  /** What merging two nodes needs of the links below them: nodes that could be merged are never above each other. */
  ghost predicate IsLayered(level: Key -> nat, scope: set<nat>, nodes: seq<StackNode>) {
    forall n, i | n in scope && n < |nodes| && 0 <= i < |nodes[n].links| ::
      Fits(level, nodes, nodes[n], nodes[n].links[i])
  }

  /** Where every subtree has bytes, positions are layers. */
  lemma PositionsAreLayers(rank: seq<nat>, nodes: seq<StackNode>, scope: set<nat>)
    requires IsStack(rank, nodes)
    requires forall n, i | n in scope && n < |nodes| && 0 <= i < |nodes[n].links| ::
               BytesOf(nodes[n].links[i].subtree) > 0
    ensures IsLayered((k: Key) => k.bytes, scope, nodes)
  {
    forall n, i | n in scope && n < |nodes| && 0 <= i < |nodes[n].links|
      ensures Fits((k: Key) => k.bytes, nodes, nodes[n], nodes[n].links[i])
    {
      assert Rests(rank, nodes, n) && RestsOn(rank, nodes, n, nodes[n].links[i]);
    }
  }

  lemma {:induction false} LeadsOn(nodes: seq<StackNode>, n: nat, t: Trail, i: nat)
    requires IsTrail(nodes, n, t) && i < |nodes[EndOf(nodes, n, t)].links|
    requires nodes[EndOf(nodes, n, t)].links[i].node < |nodes|
    ensures IsTrail(nodes, n, t + [i])
    ensures EndOf(nodes, n, t + [i]) == nodes[EndOf(nodes, n, t)].links[i].node
    decreases t
  {
    if t == [] {
      assert (t + [i])[1..] == [];
    } else {
      LeadsOn(nodes, nodes[n].links[t[0]].node, t[1..], i);
      assert (t + [i])[1..] == t[1..] + [i];
    }
  }

  /** Links lead from the nodes below two nodes to such nodes. */
  lemma BelowIsClosed(nodes: seq<StackNode>, n: nat, m: nat, k: nat, i: nat)
    requires k in NodesBelow(nodes, n, m) && i < |nodes[k].links| && nodes[k].links[i].node < |nodes|
    ensures nodes[k].links[i].node in NodesBelow(nodes, n, m)
  {
    var top := if LeadsTo(nodes, n, k) then n else m;
    var t: Trail :| IsTrail(nodes, top, t) && EndOf(nodes, top, t) == k;
    LeadsOn(nodes, top, t, i);
  }

  lemma IsBelowItself(nodes: seq<StackNode>, n: nat)
    requires n < |nodes|
    ensures LeadsTo(nodes, n, n)
  {
    assert IsTrail(nodes, n, []) && EndOf(nodes, n, []) == n;
  }

  /** All nodes have their links among the nodes, and not too many. */
  ghost predicate IsLinked(nodes: seq<StackNode>) {
    && |nodes| > 0 && |nodes[0].links| == 0 && nodes[0].position.bytes == 0 && nodes[0].errorCost == 0
    && (forall n | 0 <= n < |nodes| :: |nodes[n].links| <= MAX_LINK_COUNT)
    && forall n, i | 0 <= n < |nodes| && 0 <= i < |nodes[n].links| :: nodes[n].links[i].node < |nodes|
  }

  ghost predicate IsGraph(layers: Layers, nodes: seq<StackNode>) {
    && IsLinked(nodes)
    && forall n | n in layers.scope ::
         && n < |nodes| && FitsAll(layers, nodes, nodes[n])
         && (n > 0 ==> |nodes[n].links| > 0 && layers.level(KeyOf(nodes[0])) < layers.level(KeyOf(nodes[n])))
  }

  lemma StackIsLinked(rank: seq<nat>, nodes: seq<StackNode>)
    requires IsStack(rank, nodes)
    ensures IsLinked(nodes)
  {
    forall n, i | 0 <= n < |nodes| && 0 <= i < |nodes[n].links|
      ensures nodes[n].links[i].node < |nodes|
    {
      assert Rests(rank, nodes, n) && RestsOn(rank, nodes, n, nodes[n].links[i]);
    }
  }

  lemma {:induction false} BaseIsLowest(rank: seq<nat>, layers: Layers, nodes: seq<StackNode>, n: nat)
    requires IsStack(rank, nodes) && 0 < n < |nodes| && n in layers.scope
    requires forall k | k in layers.scope :: k < |nodes| && FitsAll(layers, nodes, nodes[k])
    ensures layers.level(KeyOf(nodes[0])) < layers.level(KeyOf(nodes[n]))
    decreases rank[n]
  {
    var link := nodes[n].links[0];
    assert Rests(rank, nodes, n) && RestsOn(rank, nodes, n, link);
    assert FitsAll(layers, nodes, nodes[n]) && FitsIn(layers, nodes, nodes[n], link);
    if link.node == 0 {
    } else {
      BaseIsLowest(rank, layers, nodes, link.node);
    }
  }

  /** The nodes below two nodes make a graph if they are layered. */
  lemma LayeredStack(rank: seq<nat>, level: Key -> nat, nodes: seq<StackNode>, n: nat, m: nat)
    requires IsStack(rank, nodes) && n < |nodes| && m < |nodes| && IsLayered(level, NodesBelow(nodes, n, m), nodes)
    ensures var layers := Layers(level, NodesBelow(nodes, n, m));
            IsGraph(layers, nodes) && n in layers.scope && m in layers.scope
  {
    var layers := Layers(level, NodesBelow(nodes, n, m));
    StackIsLinked(rank, nodes);
    IsBelowItself(nodes, n);
    IsBelowItself(nodes, m);
    forall k | k in layers.scope
      ensures FitsAll(layers, nodes, nodes[k])
    {
      forall i | 0 <= i < |nodes[k].links| {
        BelowIsClosed(nodes, n, m, k, i);
      }
    }
    forall k | k in layers.scope && k > 0
      ensures level(KeyOf(nodes[0])) < level(KeyOf(nodes[k]))
    {
      BaseIsLowest(rank, layers, nodes, k);
    }
  }

  lemma GraphIsLayered(layers: Layers, nodes: seq<StackNode>)
    requires IsGraph(layers, nodes)
    ensures IsLayered(layers.level, layers.scope, nodes)
  {
    forall n, i | n in layers.scope && n < |nodes| && 0 <= i < |nodes[n].links|
      ensures Fits(layers.level, nodes, nodes[n], nodes[n].links[i])
    {
      assert FitsAll(layers, nodes, nodes[n]) && FitsIn(layers, nodes, nodes[n], nodes[n].links[i]);
    }
  }

  /** A number above the levels of the first k nodes. */
  ghost function LevelsEnd(level: Key -> nat, nodes: seq<StackNode>, k: nat): (top: nat)
    requires k <= |nodes|
    ensures forall n | 0 <= n < k :: level(KeyOf(nodes[n])) < top
  {
    if k == 0 then 0
    else
      var (rest, last) := (LevelsEnd(level, nodes, k - 1), level(KeyOf(nodes[k - 1])));
      if last < rest then rest else last + 1
  }

  /** Ranks by layers for the nodes of a graph, above which the others keep their order. */
  ghost function RanksBy(layers: Layers, rank: seq<nat>, nodes: seq<StackNode>): (r: seq<nat>)
    requires |rank| == |nodes|
    ensures |r| == |nodes|
  {
    var top := LevelsEnd(layers.level, nodes, |nodes|);
    seq<nat>(|nodes|, n requires 0 <= n < |nodes| =>
      if n in layers.scope then layers.level(KeyOf(nodes[n])) else top + rank[n])
  }

  /** Changing only nodes of a graph leaves the whole a stack. */
  lemma GraphIsStack(rank: seq<nat>, layers: Layers, a: seq<StackNode>, b: seq<StackNode>)
    requires IsStack(rank, a) && IsGraph(layers, b) && |a| == |b| && SameKeys(a, b)
    requires forall n | 0 <= n < |a| && n !in layers.scope :: b[n] == a[n]
    ensures IsStack(RanksBy(layers, rank, b), b)
  {
    var r := RanksBy(layers, rank, b);
    forall n | 0 <= n < |b|
      ensures Rests(r, b, n)
    {
      forall i | 0 <= i < |b[n].links|
        ensures RestsOn(r, b, n, b[n].links[i])
      {
        var link := b[n].links[i];
        if n in layers.scope {
          assert FitsAll(layers, b, b[n]) && FitsIn(layers, b, b[n], link);
        } else {
          assert Rests(rank, a, n) && RestsOn(rank, a, n, link);
          assert KeyOf(b[link.node]) == KeyOf(a[link.node]);
        }
      }
    }
  }

  // ----- Changing the graph -----

  ghost predicate SameKeys(a: seq<StackNode>, b: seq<StackNode>) {
    |a| <= |b| && forall n | 0 <= n < |a| :: KeyOf(b[n]) == KeyOf(a[n])
  }

  lemma FitsStill(layers: Layers, a: seq<StackNode>, b: seq<StackNode>, n: StackNode, link: StackLink)
    requires SameKeys(a, b) && FitsIn(layers, a, n, link)
    ensures FitsIn(layers, b, n, link)
  {
    assert KeyOf(b[link.node]) == KeyOf(a[link.node]);
  }

  lemma FitsAllStill(layers: Layers, a: seq<StackNode>, b: seq<StackNode>, n: StackNode)
    requires SameKeys(a, b) && FitsAll(layers, a, n)
    ensures FitsAll(layers, b, n)
  {
    forall i | 0 <= i < |n.links| {
      FitsStill(layers, a, b, n, n.links[i]);
    }
  }

  /** Replacing one node by a node with the same key whose links fit. */
  lemma GraphStill(layers: Layers, a: seq<StackNode>, i: nat, x: StackNode)
    requires IsGraph(layers, a) && 0 < i < |a|
    requires KeyOf(x) == KeyOf(a[i]) && FitsAll(layers, a, x) && 0 < |x.links| <= MAX_LINK_COUNT
    ensures IsGraph(layers, a[i := x]) && SameKeys(a, a[i := x])
  {
    var b := a[i := x];
    forall k | 0 <= k < |x.links|
      ensures x.links[k].node < |a|
    {
      assert FitsIn(layers, a, x, x.links[k]);
    }
    forall n | n in layers.scope
      ensures FitsAll(layers, b, b[n])
    {
      FitsAllStill(layers, a, b, b[n]);
    }
  }

  // ----- Edges between keys -----

  /** A link with its two ends seen as merging sees them. */
  datatype Edge = Edge(from: Key, subtree: Option<Subtree>, to: Key)

  function EdgeOf(nodes: seq<StackNode>, from: Key, link: StackLink): Edge
    requires link.node < |nodes|
  {
    Edge(from, link.subtree, KeyOf(nodes[link.node]))
  }

  ghost predicate HasEdge(nodes: seq<StackNode>, e: Edge) {
    exists n, i | 0 <= n < |nodes| && 0 <= i < |nodes[n].links| ::
      nodes[n].links[i].node < |nodes| && EdgeOf(nodes, KeyOf(nodes[n]), nodes[n].links[i]) == e
  }

  /** Every edge of b, but for e, is one of a: there are no other links between keys. */
  ghost predicate NoOtherEdges(a: seq<StackNode>, b: seq<StackNode>, e: Edge) {
    forall f | HasEdge(b, f) :: f == e || HasEdge(a, f)
  }

  lemma SameEdges(a: seq<StackNode>, b: seq<StackNode>, n: nat, i: nat)
    requires SameKeys(a, b) && n < |a| && i < |a[n].links| && a[n].links[i].node < |a|
    ensures b[a[n].links[i].node] in b
    ensures EdgeOf(b, KeyOf(b[n]), a[n].links[i]) == EdgeOf(a, KeyOf(a[n]), a[n].links[i])
    ensures HasEdge(a, EdgeOf(a, KeyOf(a[n]), a[n].links[i]))
  {
    assert KeyOf(b[a[n].links[i].node]) == KeyOf(a[a[n].links[i].node]);
  }

  lemma UpdateEdges(a: seq<StackNode>, i: nat, x: StackNode, e: Edge)
    requires i < |a| && KeyOf(x) == KeyOf(a[i])
    requires forall k | 0 <= k < |x.links| ::
               && x.links[k].node < |a|
               && (EdgeOf(a, KeyOf(x), x.links[k]) == e || HasEdge(a, EdgeOf(a, KeyOf(x), x.links[k])))
    requires forall n, k | 0 <= n < |a| && 0 <= k < |a[n].links| :: a[n].links[k].node < |a|
    ensures NoOtherEdges(a, a[i := x], e)
  {
    var b := a[i := x];
    forall f | HasEdge(b, f)
      ensures f == e || HasEdge(a, f)
    {
      var n, k :| 0 <= n < |b| && 0 <= k < |b[n].links| && b[n].links[k].node < |b|
                  && EdgeOf(b, KeyOf(b[n]), b[n].links[k]) == f;
      assert EdgeOf(a, KeyOf(b[n]), b[n].links[k]) == f;
    }
  }

  /** The edges along a trail, from the top down. */
  ghost function EdgesAlong(nodes: seq<StackNode>, n: nat, t: Trail): seq<Edge>
    requires IsTrail(nodes, n, t)
    decreases t
  {
    if t == [] then []
    else
      var link := nodes[n].links[t[0]];
      assert IsTrail(nodes, link.node, t[1..]);
      [EdgeOf(nodes, KeyOf(nodes[n]), link)] + EdgesAlong(nodes, link.node, t[1..])
  }

  /** Every edge starts at the key where the one before it ends. */
  ghost predicate IsWalk(es: seq<Edge>, from: Key, to: Key) {
    if es == [] then from == to else es[0].from == from && IsWalk(es[1..], es[0].to, to)
  }

  ghost function SubtreesOnWalk(es: seq<Edge>): seq<Subtree> {
    if es == [] then []
    else SubtreesOnWalk(es[1..]) + (if es[0].subtree.Some? then [es[0].subtree.value] else [])
  }

  /** If b has no edges but those of a and some new ones, every trail of b is a walk along such edges and passes the
      subtrees on them.  The walk need not be a trail of a: its edges may come from different nodes with one key. */
  lemma {:induction false} WaysAreWalks(a: seq<StackNode>, b: seq<StackNode>, added: set<Edge>, n: nat, t: Trail)
    requires forall f | HasEdge(b, f) :: f in added || HasEdge(a, f)
    requires IsTrail(b, n, t)
    ensures var es := EdgesAlong(b, n, t);
            && |es| == |t| && IsWalk(es, KeyOf(b[n]), KeyOf(b[EndOf(b, n, t)]))
            && SubtreesOnWalk(es) == SubtreesAlong(b, n, t)
            && forall i | 0 <= i < |es| :: es[i] in added || HasEdge(a, es[i])
    decreases t
  {
    if t == [] {
    } else {
      var link := b[n].links[t[0]];
      assert IsTrail(b, link.node, t[1..]);
      WaysAreWalks(a, b, added, link.node, t[1..]);
      assert HasEdge(b, EdgeOf(b, KeyOf(b[n]), link));
      assert EdgesAlong(b, n, t)[1..] == EdgesAlong(b, link.node, t[1..]);
    }
  }

  // ----- What merging keeps -----

  /** What the external scanner has saved in a leaf it made, as one number; other subtrees have the empty state 0.  The
      state lies where a node with children keeps its first leaf. */
  function ScannerStateOf(s: Option<Subtree>): nat {
    if s.Some? && s.value.sum.hasExternalTokens && |s.value.children| == 0 then s.value.sum.firstLeafState else 0
  }

  /** Subtrees that may stand for each other: both are missing, or they have one symbol and both have errors, or they
      have one symbol, no errors and the same padding, size, number of children, extra flag and scanner state. */
  predicate IsAlike(a: Option<Subtree>, b: Option<Subtree>) {
    && a.Some? == b.Some?
    && (a.Some? ==>
          && a.value.head.symbol == b.value.head.symbol
          && (a.value.ErrorCost() > 0 <==> b.value.ErrorCost() > 0)
          && (a.value.ErrorCost() == 0 ==>
                && a.value.sum.padding.bytes == b.value.sum.padding.bytes
                && a.value.sum.size.bytes == b.value.sum.size.bytes
                && |a.value.children| == |b.value.children|
                && a.value.head.extra == b.value.head.extra
                && ScannerStateOf(a) == ScannerStateOf(b)))
  }

  lemma AlikeIsEquivalence(a: Option<Subtree>, b: Option<Subtree>, c: Option<Subtree>)
    ensures IsAlike(a, a) && (IsAlike(a, b) <==> IsAlike(b, a))
    ensures IsAlike(a, b) ==> (IsAlike(a, c) <==> IsAlike(b, c))
  {
  }

  /** Two links that merging should have made one: their subtrees are alike and they lead to nodes with one key. */
  ghost predicate AreTwins(nodes: seq<StackNode>, a: StackLink, b: StackLink) {
    && a.node < |nodes| && b.node < |nodes|
    && IsAlike(a.subtree, b.subtree) && KeyOf(nodes[a.node]) == KeyOf(nodes[b.node])
  }

  ghost predicate HasNoTwins(nodes: seq<StackNode>, n: StackNode) {
    forall i, j | 0 <= i < j < |n.links| :: !AreTwins(nodes, n.links[i], n.links[j])
  }

  /** No ambiguity is kept twice: no node has two links that could be merged. */
  ghost predicate IsReduced(nodes: seq<StackNode>) {
    forall n | 0 <= n < |nodes| :: HasNoTwins(nodes, nodes[n])
  }

  lemma ReducedStill(a: seq<StackNode>, i: nat, x: StackNode)
    requires IsReduced(a) && i < |a| && KeyOf(x) == KeyOf(a[i]) && HasNoTwins(a, x)
    ensures IsReduced(a[i := x])
  {
    var b := a[i := x];
    forall n | 0 <= n < |b|
      ensures HasNoTwins(b, b[n])
    {
      assert HasNoTwins(a, b[n]);
      forall j, k | 0 <= j < k < |b[n].links|
        ensures !AreTwins(b, b[n].links[j], b[n].links[k])
      {
        assert !AreTwins(a, b[n].links[j], b[n].links[k]);
      }
    }
  }

  /** Replacing a subtree by one like it. */
  lemma NoTwinsAfterReplacement(nodes: seq<StackNode>, n: StackNode, x: StackNode, i: nat, s: Option<Subtree>)
    requires HasNoTwins(nodes, n) && i < |n.links| && IsAlike(n.links[i].subtree, s)
    requires x.links == n.links[i := n.links[i].(subtree := s)]
    ensures HasNoTwins(nodes, x)
  {
    forall j, k | 0 <= j < k < |x.links|
      ensures !AreTwins(nodes, x.links[j], x.links[k])
    {
      assert !AreTwins(nodes, n.links[j], n.links[k]);
      AlikeIsEquivalence(n.links[i].subtree, s, n.links[j].subtree);
      AlikeIsEquivalence(n.links[i].subtree, s, n.links[k].subtree);
      AlikeIsEquivalence(s, n.links[j].subtree, s);
      AlikeIsEquivalence(n.links[i].subtree, n.links[j].subtree, s);
    }
  }

  /** A new node on top. */
  lemma ReducedGrows(nodes: seq<StackNode>, x: StackNode)
    requires IsReduced(nodes) && |x.links| <= 1
    requires forall n, i | 0 <= n < |nodes| && 0 <= i < |nodes[n].links| :: nodes[n].links[i].node < |nodes|
    ensures IsReduced(nodes + [x])
  {
    var b := nodes + [x];
    forall n | 0 <= n < |b|
      ensures HasNoTwins(b, b[n])
    {
      if n < |nodes| {
        forall j, k | 0 <= j < k < |b[n].links|
          ensures !AreTwins(b, b[n].links[j], b[n].links[k])
        {
          assert !AreTwins(nodes, nodes[n].links[j], nodes[n].links[k]);
        }
      }
    }
  }

  /** Links stay where they are; only their subtrees may give way to others like them. */
  ghost predicate LinksKept(a: seq<StackLink>, b: seq<StackLink>) {
    && |a| <= |b|
    && forall i | 0 <= i < |a| ::
         b[i].node == a[i].node && b[i].isPending == a[i].isPending && IsAlike(b[i].subtree, a[i].subtree)
  }

  ghost predicate AllLinksKept(a: seq<StackNode>, b: seq<StackNode>) {
    |a| == |b| && forall n | 0 <= n < |a| :: LinksKept(a[n].links, b[n].links)
  }

  predicate IsFull(n: StackNode) {
    |n.links| == MAX_LINK_COUNT
  }

  /** Node n of the graph b stands for node m of the earlier graph a: they have the same key, and n is full or has for
      each link of m one with a subtree like its own that leads to a node standing for the one below. */
  ghost predicate Covers(level: Key -> nat, a: seq<StackNode>, b: seq<StackNode>, n: nat, m: nat)
    requires m < |a|
    decreases level(KeyOf(a[m])), 0
  {
    && n < |b| && KeyOf(b[n]) == KeyOf(a[m])
    && forall j | 0 <= j < |a[m].links| ::
         Fits(level, a, a[m], a[m].links[j]) && CoversLink(level, a, b, n, a[m].links[j])
  }

  ghost predicate CoversLink(level: Key -> nat, a: seq<StackNode>, b: seq<StackNode>, n: nat, link: StackLink)
    requires link.node < |a| && n < |b|
    decreases level(KeyOf(a[link.node])), 1
  {
    || IsFull(b[n])
    || exists i | 0 <= i < |b[n].links| ::
         IsAlike(b[n].links[i].subtree, link.subtree) && Covers(level, a, b, b[n].links[i].node, link.node)
  }

  /** A graph that has only grown stands for itself. */
  lemma {:induction false} CoversItself(layers: Layers, a: seq<StackNode>, b: seq<StackNode>, n: nat)
    requires IsGraph(layers, a) && AllLinksKept(a, b) && SameKeys(a, b) && n in layers.scope
    ensures Covers(layers.level, a, b, n, n)
    decreases layers.level(KeyOf(a[n]))
  {
    var level := layers.level;
    assert LinksKept(a[n].links, b[n].links) && KeyOf(b[n]) == KeyOf(a[n]) && FitsAll(layers, a, a[n]);
    forall j | 0 <= j < |a[n].links|
      ensures Fits(level, a, a[n], a[n].links[j]) && CoversLink(level, a, b, n, a[n].links[j])
    {
      assert FitsIn(layers, a, a[n], a[n].links[j]);
      CoversItself(layers, a, b, a[n].links[j].node);
      assert IsAlike(b[n].links[j].subtree, a[n].links[j].subtree);
    }
  }

  /** It goes on standing for it when the later graph grows. */
  lemma {:induction false} CoversLater(
    level: Key -> nat, a: seq<StackNode>, b: seq<StackNode>, c: seq<StackNode>, n: nat, m: nat)
    requires IsLinked(c) && AllLinksKept(b, c) && SameKeys(b, c) && m < |a| && Covers(level, a, b, n, m)
    ensures Covers(level, a, c, n, m)
    decreases level(KeyOf(a[m])), 0
  {
    forall j | 0 <= j < |a[m].links|
      ensures CoversLink(level, a, c, n, a[m].links[j])
    {
      assert Fits(level, a, a[m], a[m].links[j]);
      CoversLinkLater(level, a, b, c, n, a[m].links[j]);
    }
  }

  lemma {:induction false} CoversLinkLater(
    level: Key -> nat, a: seq<StackNode>, b: seq<StackNode>, c: seq<StackNode>, n: nat, link: StackLink)
    requires IsLinked(c) && AllLinksKept(b, c) && SameKeys(b, c)
    requires link.node < |a| && n < |b| && CoversLink(level, a, b, n, link)
    ensures CoversLink(level, a, c, n, link)
    decreases level(KeyOf(a[link.node])), 1
  {
    assert LinksKept(b[n].links, c[n].links) && |c[n].links| <= MAX_LINK_COUNT;
    if !IsFull(b[n]) {
      var i :| 0 <= i < |b[n].links| && IsAlike(b[n].links[i].subtree, link.subtree)
               && Covers(level, a, b, b[n].links[i].node, link.node);
      CoversLater(level, a, b, c, b[n].links[i].node, link.node);
      assert c[n].links[i].node == b[n].links[i].node && IsAlike(c[n].links[i].subtree, link.subtree);
    }
  }

  /** It also stands for what the earlier graph has grown from. */
  lemma {:induction false} CoversEarlier(
    layers: Layers, z: seq<StackNode>, a: seq<StackNode>, b: seq<StackNode>, n: nat, m: nat)
    requires IsGraph(layers, z) && AllLinksKept(z, a) && SameKeys(z, a) && m in layers.scope
    requires Covers(layers.level, a, b, n, m)
    ensures Covers(layers.level, z, b, n, m)
    decreases layers.level(KeyOf(z[m])), 0
  {
    var level := layers.level;
    assert LinksKept(z[m].links, a[m].links) && KeyOf(a[m]) == KeyOf(z[m]) && FitsAll(layers, z, z[m]);
    forall j | 0 <= j < |z[m].links|
      ensures Fits(level, z, z[m], z[m].links[j]) && CoversLink(level, z, b, n, z[m].links[j])
    {
      assert FitsIn(layers, z, z[m], z[m].links[j]) && CoversLink(level, a, b, n, a[m].links[j]);
      CoversLinkEarlier(layers, z, a, b, n, z[m].links[j], a[m].links[j]);
    }
  }

  lemma {:induction false} CoversLinkEarlier(
    layers: Layers, z: seq<StackNode>, a: seq<StackNode>, b: seq<StackNode>, n: nat,
    original: StackLink, link: StackLink)
    requires IsGraph(layers, z) && AllLinksKept(z, a) && SameKeys(z, a)
    requires original.node == link.node && original.node in layers.scope && IsAlike(link.subtree, original.subtree)
    requires n < |b| && CoversLink(layers.level, a, b, n, link)
    ensures CoversLink(layers.level, z, b, n, original)
    decreases layers.level(KeyOf(z[original.node])), 1
  {
    if !IsFull(b[n]) {
      var i :| 0 <= i < |b[n].links| && IsAlike(b[n].links[i].subtree, link.subtree)
               && Covers(layers.level, a, b, b[n].links[i].node, link.node);
      CoversEarlier(layers, z, a, b, b[n].links[i].node, link.node);
    }
  }

  /** Two trails look the same: the same keys, under subtrees that are alike. */
  ghost predicate SameWay(a: seq<StackNode>, m: nat, t: Trail, b: seq<StackNode>, n: nat, u: Trail)
    requires IsTrail(a, m, t) && IsTrail(b, n, u)
    decreases t
  {
    && KeyOf(a[m]) == KeyOf(b[n]) && |t| == |u|
    && (t != [] ==>
          var (link, other) := (a[m].links[t[0]], b[n].links[u[0]]);
          IsAlike(other.subtree, link.subtree) && SameWay(a, link.node, t[1..], b, other.node, u[1..]))
  }

  lemma {:induction false} TrailBegins(nodes: seq<StackNode>, n: nat, t: Trail, k: nat)
    requires IsTrail(nodes, n, t) && k <= |t|
    ensures IsTrail(nodes, n, t[..k])
    decreases t
  {
    if k == 0 {
    } else {
      TrailBegins(nodes, nodes[n].links[t[0]].node, t[1..], k - 1);
      assert t[..k][1..] == t[1..][..k - 1];
    }
  }

  /** No way down is lost: every trail from m looks like one from the node that stands for it, as far as the first
      full node. */
  lemma {:induction false} WaysKept(level: Key -> nat, a: seq<StackNode>, b: seq<StackNode>, n: nat, m: nat, t: Trail)
    returns (u: Trail)
    requires m < |a| && Covers(level, a, b, n, m) && IsTrail(a, m, t)
    ensures |u| <= |t| && IsTrail(a, m, t[..|u|]) && IsTrail(b, n, u) && SameWay(a, m, t[..|u|], b, n, u)
    ensures |u| == |t| || IsFull(b[EndOf(b, n, u)])
    decreases t
  {
    u := [];
    assert t[..0] == [];
    if t != [] && !IsFull(b[n]) {
      var link := a[m].links[t[0]];
      assert CoversLink(level, a, b, n, link);
      var i :| 0 <= i < |b[n].links| && IsAlike(b[n].links[i].subtree, link.subtree)
               && Covers(level, a, b, b[n].links[i].node, link.node);
      var rest := WaysKept(level, a, b, b[n].links[i].node, link.node, t[1..]);
      u := [i] + rest;
      TrailBegins(a, m, t, |u|);
      assert u[1..] == rest && t[..|u|][1..] == t[1..][..|rest|];
    }
  }

  lemma KeptTransitive(a: seq<StackNode>, b: seq<StackNode>, c: seq<StackNode>)
    requires AllLinksKept(a, b) && AllLinksKept(b, c)
    ensures AllLinksKept(a, c)
  {
    forall n | 0 <= n < |a|
      ensures LinksKept(a[n].links, c[n].links)
    {
      assert LinksKept(a[n].links, b[n].links) && LinksKept(b[n].links, c[n].links);
    }
  }

  lemma KeptByUpdate(a: seq<StackNode>, i: nat, x: StackNode)
    requires i < |a| && LinksKept(a[i].links, x.links)
    ensures AllLinksKept(a, a[i := x])
  {
  }
}
