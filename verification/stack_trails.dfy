/** Iterators on the parse stack (stack.c). */
module StackTrails {
  import opened Subtrees
  import opened Searches
  import opened StackGraphs

  datatype StackIterator = StackIterator(node: nat, subtrees: seq<Subtree>, subtreeCount: nat, isPending: bool)

  /** A link counts unless its subtree is extra. */
  predicate IsCounted(link: StackLink) {
    link.subtree.Some? ==> !link.subtree.value.head.extra
  }

  function Advance(it: StackIterator, link: StackLink): StackIterator {
    StackIterator(
      link.node,
      if link.subtree.Some? then it.subtrees + [link.subtree.value] else it.subtrees,
      it.subtreeCount + (if IsCounted(link) then 1 else 0),
      it.isPending && link.subtree.Some? && (IsCounted(link) ==> link.isPending))
  }

  /** Where an iterator goes on, for every link of its node. */
  function NextOf(nodes: seq<StackNode>, it: StackIterator): (r: seq<StackIterator>)
    ensures it.node < |nodes| ==> |r| == |nodes[it.node].links|
  {
    if it.node < |nodes| then
      var links := nodes[it.node].links;
      seq(|links|, j requires 0 <= j < |links| => Advance(it, links[j]))
    else []
  }

  function RankOf(rank: seq<nat>, it: StackIterator): nat {
    if it.node < |rank| then rank[it.node] else 0
  }

  function SearchOf(rank: seq<nat>, nodes: seq<StackNode>, callback: StackIterator -> StackAction)
    : Search<StackIterator>
  {
    Search(callback, (it: StackIterator) => NextOf(nodes, it), (it: StackIterator) => RankOf(rank, it))
  }

  lemma SearchDescends(rank: seq<nat>, nodes: seq<StackNode>, callback: StackIterator -> StackAction)
    requires IsStack(rank, nodes)
    ensures Descends(SearchOf(rank, nodes, callback))
  {
    forall it: StackIterator, j: nat | j < |NextOf(nodes, it)|
      ensures RankOf(rank, NextOf(nodes, it)[j]) < RankOf(rank, it)
    {
      assert Rests(rank, nodes, it.node) && RestsOn(rank, nodes, it.node, nodes[it.node].links[j]);
    }
  }

  // ----- Iterators know where they are -----

  function Reverse<T>(xs: seq<T>): (r: seq<T>)
    ensures |r| == |xs| && forall i | 0 <= i < |xs| :: r[i] == xs[|xs| - 1 - i]
  {
    if xs == [] then [] else [xs[|xs| - 1]] + Reverse(xs[..|xs| - 1])
  }

  lemma ReverseSnoc<T>(xs: seq<T>, x: T)
    ensures Reverse(xs + [x]) == [x] + Reverse(xs)
  {
    assert (xs + [x])[..|xs|] == xs;
  }

  function CountAlong(nodes: seq<StackNode>, n: nat, t: Trail): nat
    requires IsTrail(nodes, n, t)
    decreases t
  {
    if t == [] then 0
    else
      var link := nodes[n].links[t[0]];
      (if IsCounted(link) then 1 else 0) + CountAlong(nodes, link.node, t[1..])
  }

  /** The iterator stands at the end of the trail with the subtrees passed on the way. */
  ghost predicate IsAt(nodes: seq<StackNode>, start: nat, it: StackIterator, t: Trail) {
    && IsTrail(nodes, start, t)
    && it.node == EndOf(nodes, start, t)
    && it.subtreeCount == CountAlong(nodes, start, t)
    && Reverse(it.subtrees) == SubtreesAlong(nodes, start, t)
  }

  lemma {:induction false} TrailSnoc(nodes: seq<StackNode>, n: nat, t: Trail, j: nat)
    requires IsTrail(nodes, n, t) && j < |nodes[EndOf(nodes, n, t)].links|
    requires nodes[EndOf(nodes, n, t)].links[j].node < |nodes|
    ensures var link := nodes[EndOf(nodes, n, t)].links[j];
            && IsTrail(nodes, n, t + [j])
            && EndOf(nodes, n, t + [j]) == link.node
            && CountAlong(nodes, n, t + [j]) == CountAlong(nodes, n, t) + (if IsCounted(link) then 1 else 0)
            && SubtreesAlong(nodes, n, t + [j])
               == (if link.subtree.Some? then [link.subtree.value] else []) + SubtreesAlong(nodes, n, t)
    decreases t
  {
    var u := t + [j];
    if t == [] {
      assert u[1..] == [];
    } else {
      assert u[1..] == t[1..] + [j];
      TrailSnoc(nodes, nodes[n].links[t[0]].node, t[1..], j);
    }
  }

  lemma NextIsAt(rank: seq<nat>, nodes: seq<StackNode>, start: nat, it: StackIterator, t: Trail, j: nat)
    requires IsStack(rank, nodes) && IsAt(nodes, start, it, t) && j < |NextOf(nodes, it)|
    ensures IsAt(nodes, start, NextOf(nodes, it)[j], t + [j])
  {
    var link := nodes[it.node].links[j];
    assert Rests(rank, nodes, it.node) && RestsOn(rank, nodes, it.node, link);
    TrailSnoc(nodes, start, t, j);
    if link.subtree.Some? {
      ReverseSnoc(it.subtrees, link.subtree.value);
    } else {
      assert [] + SubtreesAlong(nodes, start, t) == SubtreesAlong(nodes, start, t);
    }
  }

  ghost predicate AllAt(nodes: seq<StackNode>, start: nat, ls: seq<Live<StackIterator>>) {
    forall k | 0 <= k < |ls| :: IsAt(nodes, start, ls[k].it, ls[k].trail)
  }

  lemma ChildrenAt(rank: seq<nat>, nodes: seq<StackNode>, s: Search<StackIterator>, start: nat,
                   l: Live<StackIterator>)
    requires IsStack(rank, nodes) && s.next(l.it) == NextOf(nodes, l.it) && IsAt(nodes, start, l.it, l.trail)
    ensures AllAt(nodes, start, ChildrenOf(s, l))
  {
    var cs := ChildrenOf(s, l);
    forall j | 0 <= j < |cs|
      ensures IsAt(nodes, start, cs[j].it, cs[j].trail)
    {
      NextIsAt(rank, nodes, start, l.it, l.trail, j);
    }
  }

  /** A step leaves all iterators where their trails lead. */
  lemma StepKeepsAt(rank: seq<nat>, nodes: seq<StackNode>, s: Search<StackIterator>, start: nat,
                    ls: seq<Live<StackIterator>>, i: nat)
    requires IsStack(rank, nodes) && AllAt(nodes, start, ls) && i < |ls|
    requires s.next(ls[i].it) == NextOf(nodes, ls[i].it)
    ensures AllAt(nodes, start, Stepped(s, ls, i))
  {
    ChildrenAt(rank, nodes, s, start, ls[i]);
  }

  // ----- Popping a number of subtrees, or everything -----

  function CountCallback(goal: nat): StackIterator -> StackAction {
    (it: StackIterator) => StackAction(it.subtreeCount == goal, it.subtreeCount == goal)
  }

  /** The trail ends at the first node where the structural count is reached. */
  predicate FirstReaches(nodes: seq<StackNode>, n: nat, goal: int, t: Trail)
    decreases t
  {
    && n < |nodes|
    && if t == [] then goal == 0
       else
         && goal != 0 && t[0] < |nodes[n].links|
         && var link := nodes[n].links[t[0]];
         FirstReaches(nodes, link.node, goal - (if IsCounted(link) then 1 else 0), t[1..])
  }

  lemma {:induction false} PopsAtCount(rank: seq<nat>, nodes: seq<StackNode>, it: StackIterator, goal: nat, t: Trail)
    requires IsStack(rank, nodes) && it.node < |nodes|
    ensures IsPop(SearchOf(rank, nodes, CountCallback(goal)), it, t)
            <==> FirstReaches(nodes, it.node, goal - it.subtreeCount, t)
    decreases t
  {
    if t == [] || t[0] >= |nodes[it.node].links| {
    } else {
      var link := nodes[it.node].links[t[0]];
      assert Rests(rank, nodes, it.node) && RestsOn(rank, nodes, it.node, link);
      assert NextOf(nodes, it)[t[0]] == Advance(it, link);
      PopsAtCount(rank, nodes, Advance(it, link), goal, t[1..]);
    }
  }

  ghost predicate StaysBelow(nodes: seq<StackNode>, n: nat, goal: int, t: Trail, k: nat)
    requires IsTrail(nodes, n, t) && k <= |t|
  {
    TrailBegins(nodes, n, t, k);
    CountAlong(nodes, n, t[..k]) < goal
  }

  lemma BelowStep(nodes: seq<StackNode>, n: nat, goal: int, t: Trail, k: nat, j: nat)
    requires IsTrail(nodes, n, t) && 0 < k <= |t| && k == j + 1
    ensures var link := nodes[n].links[t[0]];
            StaysBelow(nodes, n, goal, t, k)
            <==> StaysBelow(nodes, link.node, goal - (if IsCounted(link) then 1 else 0), t[1..], j)
  {
    TrailBegins(nodes, n, t, k);
    assert t[..k][1..] == t[1..][..j];
  }

  /** The first node to reach the count: the whole trail has it, and no shorter part of the trail. */
  lemma {:induction false} FirstReachMeans(nodes: seq<StackNode>, n: nat, goal: nat, t: Trail)
    requires IsTrail(nodes, n, t)
    ensures FirstReaches(nodes, n, goal, t) <==>
            CountAlong(nodes, n, t) == goal && forall k | 0 <= k < |t| :: StaysBelow(nodes, n, goal, t, k)
    decreases t
  {
    if t == [] {
    } else {
      var link := nodes[n].links[t[0]];
      var less := goal - if IsCounted(link) then 1 else 0;
      assert t[..0] == [] && (StaysBelow(nodes, n, goal, t, 0) <==> 0 < goal);
      if goal > 0 {
        FirstReachMeans(nodes, link.node, less, t[1..]);
        forall j | 0 <= j < |t[1..]|
          ensures StaysBelow(nodes, n, goal, t, j + 1) <==> StaysBelow(nodes, link.node, less, t[1..], j)
        {
          BelowStep(nodes, n, goal, t, j + 1, j);
        }
        if forall k | 0 <= k < |t| :: StaysBelow(nodes, n, goal, t, k) {
          forall j | 0 <= j < |t[1..]|
            ensures StaysBelow(nodes, link.node, less, t[1..], j)
          {
            assert StaysBelow(nodes, n, goal, t, j + 1);
          }
        }
        if forall j | 0 <= j < |t[1..]| :: StaysBelow(nodes, link.node, less, t[1..], j) {
          forall k | 0 <= k < |t|
            ensures StaysBelow(nodes, n, goal, t, k)
          {
            assert k > 0 ==> StaysBelow(nodes, link.node, less, t[1..], k - 1);
          }
        }
      }
    }
  }

  // ----- What is counted, by the subtrees themselves -----

  /** The subtrees that are not extra. */
  function Solid(ss: seq<Subtree>): seq<Subtree> {
    if ss == [] then []
    else
      var last := ss[|ss| - 1];
      Solid(ss[..|ss| - 1]) + if last.head.extra then [] else [last]
  }

  /** The links along a trail that hold no subtree. */
  function MissingAlong(nodes: seq<StackNode>, n: nat, t: Trail): nat
    requires IsTrail(nodes, n, t)
    decreases t
  {
    if t == [] then 0
    else
      var link := nodes[n].links[t[0]];
      MissingAlong(nodes, link.node, t[1..]) + if link.subtree.None? then 1 else 0
  }

  function LastLink(nodes: seq<StackNode>, n: nat, t: Trail): StackLink
    requires IsTrail(nodes, n, t) && t != []
    decreases t
  {
    var link := nodes[n].links[t[0]];
    if |t| == 1 then link else LastLink(nodes, link.node, t[1..])
  }

  /** The trail passes this many missing subtrees and subtrees that are not extra, and the last link is one of them. */
  predicate Passes(nodes: seq<StackNode>, n: nat, count: nat, t: Trail) {
    && IsTrail(nodes, n, t)
    && |Solid(SubtreesAlong(nodes, n, t))| + MissingAlong(nodes, n, t) == count
    && (t == [] <==> count == 0)
    && (t != [] ==> var s := LastLink(nodes, n, t).subtree; s.Some? ==> !s.value.head.extra)
  }

  /** Iterators count the missing subtrees and those that are not extra. */
  lemma {:induction false} CountMeans(nodes: seq<StackNode>, n: nat, t: Trail)
    requires IsTrail(nodes, n, t)
    ensures CountAlong(nodes, n, t) == |Solid(SubtreesAlong(nodes, n, t))| + MissingAlong(nodes, n, t)
    decreases t
  {
    if t == [] {
    } else {
      var link := nodes[n].links[t[0]];
      var below := SubtreesAlong(nodes, link.node, t[1..]);
      CountMeans(nodes, link.node, t[1..]);
      if link.subtree.Some? {
        assert (below + [link.subtree.value])[..|below|] == below;
      } else {
        assert below + [] == below;
      }
    }
  }

  lemma {:induction false} LastIsCounted(nodes: seq<StackNode>, n: nat, t: Trail)
    requires IsTrail(nodes, n, t) && t != [] && IsCounted(LastLink(nodes, n, t))
    ensures CountAlong(nodes, n, t) > 0
    decreases t
  {
    if |t| > 1 {
      LastIsCounted(nodes, nodes[n].links[t[0]].node, t[1..]);
    } else {
      assert CountAlong(nodes, nodes[n].links[t[0]].node, t[1..]) == 0;
    }
  }

  lemma {:induction false} FirstReachIsLast(nodes: seq<StackNode>, n: nat, goal: int, t: Trail)
    ensures FirstReaches(nodes, n, goal, t)
            <==> && IsTrail(nodes, n, t) && CountAlong(nodes, n, t) == goal
                 && (t == [] <==> goal == 0)
                 && (t != [] ==> IsCounted(LastLink(nodes, n, t)))
    decreases t
  {
    if t != [] && n < |nodes| && t[0] < |nodes[n].links| {
      var link := nodes[n].links[t[0]];
      FirstReachIsLast(nodes, link.node, goal - (if IsCounted(link) then 1 else 0), t[1..]);
      if IsTrail(nodes, n, t) && |t| > 1 && IsCounted(LastLink(nodes, n, t)) {
        LastIsCounted(nodes, link.node, t[1..]);
      }
    }
  }

  /** The stopping rule, by the subtrees themselves: the trail ends with the missing subtree, or the one that is not
      extra, that makes up the count. */
  lemma FirstReachPasses(nodes: seq<StackNode>, n: nat, count: nat, t: Trail)
    ensures FirstReaches(nodes, n, count, t) <==> Passes(nodes, n, count, t)
  {
    FirstReachIsLast(nodes, n, count, t);
    if IsTrail(nodes, n, t) {
      CountMeans(nodes, n, t);
    }
  }

  function AllCallback(nodes: seq<StackNode>): StackIterator -> StackAction {
    (it: StackIterator) => StackAction(it.node < |nodes| && |nodes[it.node].links| == 0, false)
  }

  lemma {:induction false} PopsAtBase(rank: seq<nat>, nodes: seq<StackNode>, it: StackIterator, t: Trail)
    requires IsStack(rank, nodes) && it.node < |nodes|
    ensures IsPop(SearchOf(rank, nodes, AllCallback(nodes)), it, t)
            <==> IsTrail(nodes, it.node, t) && EndOf(nodes, it.node, t) == 0
    decreases t
  {
    if t == [] || t[0] >= |nodes[it.node].links| {
    } else {
      var link := nodes[it.node].links[t[0]];
      assert Rests(rank, nodes, it.node) && RestsOn(rank, nodes, it.node, link);
      assert NextOf(nodes, it)[t[0]] == Advance(it, link);
      PopsAtBase(rank, nodes, Advance(it, link), t[1..]);
    }
  }
}
