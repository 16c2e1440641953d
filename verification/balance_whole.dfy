/** What balancing a whole tree does to the repetitions in it, wherever they are. */
module BalanceWhole {
  import opened Subtrees
  import opened Summaries
  import opened Rotations
  import opened RotationMeaning
  import opened Balancing
  import opened BalanceBound
  import opened Worklists

  // ----- The chain that the halving loop leaves needs no more rotations -----

  /** A node of a repetition that belongs to one tree only. */
  predicate IsOwnLink(c: Subtree, symbol: Symbol) {
    && |c.children| >= 2 && c.head.refCount == 1 && c.head.symbol == symbol && !c.head.visible && !c.head.named
    && c.repeatDepth == RepeatDepthOf(c)
  }

  /** Below t hang as many links as told, each of which leans to the left by one at most, and then the base. */
  predicate Settled(t: Subtree, symbol: Symbol, links: nat, base: Subtree)
    decreases links
  {
    && |t.children| >= 2
    && if links == 0 then First(t) == base
       else
         var c := First(t);
         && IsOwnLink(c, symbol) && First(c).repeatDepth <= Last(c).repeatDepth + 1
         && Settled(c, symbol, links - 1, base)
  }

  /** A link after k rounds of halving: its last child is what k rounds have built. */
  predicate IsRoundLink(c: Subtree, symbol: Symbol, k: nat) {
    && IsOwnLink(c, symbol)
    && k <= Last(c).repeatDepth + 1 && Last(c).repeatDepth <= k
    && (k > 0 ==> Last(c).head.symbol == symbol)
  }

  /** Below t hang links after k rounds, and then a settled chain that is no deeper than k. */
  predicate Tower(t: Subtree, symbol: Symbol, links: nat, k: nat, settled: nat, base: Subtree)
    decreases links
  {
    && |t.children| >= 2 && t.head.refCount == 1
    && if links == 0 then First(t).repeatDepth <= k && Settled(t, symbol, settled, base)
       else IsRoundLink(First(t), symbol, k) && Tower(First(t), symbol, links - 1, k, settled, base)
  }

  /** Only the first child matters. */
  lemma SameTower(a: Subtree, b: Subtree, symbol: Symbol, links: nat, k: nat, settled: nat, base: Subtree)
    requires Tower(a, symbol, links, k, settled, base)
    requires |b.children| >= 2 && b.head.refCount == 1 && First(a) == First(b)
    ensures Tower(b, symbol, links, k, settled, base)
  {
  }

  lemma LastLinkSettles(t: Subtree, symbol: Symbol, k: nat, settled: nat, more: nat, base: Subtree)
    requires Tower(t, symbol, 1, k, settled, base) && more == settled + 1
    ensures Settled(t, symbol, more, base) && First(t).repeatDepth <= k + 1
  {
    assert Tower(First(t), symbol, 0, k, settled, base);
  }

  lemma RotatedTower(t: Subtree, symbol: Symbol, links: nat, below: nat, k: nat, settled: nat, base: Subtree)
    requires links == below + 2 && Tower(t, symbol, links, k, settled, base)
    ensures CanRotate(t, symbol)
    ensures var (c, g, g') := (First(t), First(First(t)), First(Rotate(t)));
            && IsRoundLink(c, symbol, k) && IsRoundLink(g, symbol, k)
            && Tower(g', symbol, below, k, settled, base)
            && g'.head == g.head && |g'.children| == |g.children| && Last(g') == SetFirst(c, Last(g))
  {
    var (c, g) := (First(t), First(First(t)));
    assert Tower(c, symbol, below + 1, k, settled, base) && Tower(g, symbol, below, k, settled, base);
    SameTower(g, First(Rotate(t)), symbol, below, k, settled, base);
  }

  /** The child that a rotation moves aside is built by one round more. */
  lemma MovedAside(lang: Language, c: Subtree, g: Subtree, symbol: Symbol, k: nat, next: nat)
    requires IsRoundLink(c, symbol, k) && IsRoundLink(g, symbol, k) && next == k + 1
    ensures var m := Summarized(lang, SetFirst(c, Last(g)));
            m.head.symbol == symbol && next <= m.repeatDepth + 1 && m.repeatDepth <= next
  {
  }

  /** The grandchild, summarized over the child that was moved below it, is a link of the next round. */
  lemma LinkRefreshed(lang: Language, x: Subtree, c: Subtree, g: Subtree, symbol: Symbol, k: nat, next: nat)
    requires next == k + 1 && IsRoundLink(c, symbol, k) && IsRoundLink(g, symbol, k)
    requires x.head == g.head && |x.children| == |g.children| && Last(x) == SetFirst(c, Last(g))
    ensures var y := Refreshed(Summarizer(lang), x);
            IsRoundLink(y, symbol, next) && |y.children| == |x.children| && First(y) == First(x)
  {
    MovedAside(lang, c, g, symbol, k, next);
  }

  lemma LinkOnTower(lang: Language, t: Subtree, symbol: Symbol, x: Subtree, links: nat, more: nat, k: nat, next: nat,
                    settled: nat, base: Subtree, c: Subtree, g: Subtree)
    requires more == links + 1 && next == k + 1 && |t.children| >= 2 && t.head.refCount == 1
    requires IsRoundLink(c, symbol, k) && IsRoundLink(g, symbol, k)
    requires x.head == g.head && |x.children| == |g.children| && Last(x) == SetFirst(c, Last(g))
    requires Tower(x, symbol, links, next, settled, base)
    ensures Tower(Summarizer(lang)(SetFirst(t, Refreshed(Summarizer(lang), x))), symbol, more, next, settled, base)
  {
    var y := Refreshed(Summarizer(lang), x);
    LinkRefreshed(lang, x, c, g, symbol, k, next);
    SameTower(x, y, symbol, links, next, settled, base);
    TowerOver(Summarizer(lang)(SetFirst(t, y)), y, symbol, links, more, next, settled, base);
  }

  lemma TowerOver(r: Subtree, y: Subtree, symbol: Symbol, links: nat, more: nat, k: nat, settled: nat, base: Subtree)
    requires more == links + 1 && |r.children| >= 2 && r.head.refCount == 1 && First(r) == y
    requires IsRoundLink(y, symbol, k) && Tower(y, symbol, links, k, settled, base)
    ensures Tower(r, symbol, more, k, settled, base)
  {
  }

  /** A round of the halving loop. */
  lemma {:induction false} RoundOnTower(lang: Language, t: Subtree, symbol: Symbol, i: nat, links: nat, k: nat,
                                        next: nat, settled: nat, later: nat, base: Subtree)
    requires Tower(t, symbol, links, k, settled, base) && next == k + 1
    requires links == 2 * i + (later - settled) && (later == settled || later == settled + 1)
    ensures Tower(CompressTree(Summarizer(lang), t, symbol, i), symbol, i, next, later, base)
    decreases i
  {
    if i == 0 {
      if links == 1 {
        LastLinkSettles(t, symbol, k, settled, later, base);
      }
    } else {
      var sm := Summarizer(lang);
      var (j, below, g') := (i - 1, links - 2, First(Rotate(t)));
      RotatedTower(t, symbol, links, below, k, settled, base);
      RoundOnTower(lang, g', symbol, j, below, k, next, settled, later, base);
      CompressKeepsLast(lang, g', symbol, j);
      CompressByFirst(sm, t, Rotate(t), symbol, i, j);
      var y := CompressTree(sm, g', symbol, j);
      LinkOnTower(lang, t, symbol, y, j, i, k, next, later, base, First(t), First(First(t)));
    }
  }

  lemma HalveUnrolled(sm: Summarizing, t: Subtree, i: nat, half: nat)
    requires half == i / 2
    ensures i > 0 ==> HalveTree(sm, t, i) == HalveTree(sm, CompressTree(sm, t, t.head.symbol, i), half)
    ensures i == 0 ==> HalveTree(sm, t, i) == t
  {
  }

  /** What the loop leaves of a tower: as many links as its height has one bits, and none of them needs a rotation. */
  lemma {:induction false} HalvedTower(lang: Language, t: Subtree, symbol: Symbol, links: nat, i: nat, k: nat,
                                       settled: nat, bits: nat, depth: nat, base: Subtree)
    requires links > 0 && i == links / 2 && t.head.symbol == symbol && Tower(t, symbol, links, k, settled, base)
    requires bits == settled + Popcount(links) && depth == k + Log2(links) + 1
    ensures var r := HalveTree(Summarizer(lang), t, i);
            Settled(r, symbol, bits, base) && First(r).repeatDepth <= depth && r.head == t.head
    decreases links
  {
    if i == 0 {
      LastLinkSettles(t, symbol, k, settled, bits, base);
    } else {
      var (next, later, half, t') := (k + 1, settled + links % 2, i / 2, CompressTree(Summarizer(lang), t, symbol, i));
      RoundOnTower(lang, t, symbol, i, links, k, next, settled, later, base);
      CompressKeepsLast(lang, t, symbol, i);
      HalveUnrolled(Summarizer(lang), t, i, half);
      HalvedTower(lang, t', symbol, i, half, next, later, bits, depth, base);
    }
  }

  // ----- Repetitions that lean to the left -----

  /** All links of a repetition belong to this tree only. */
  predicate OwnsChain(t: Subtree) {
    t.repeatDepth > 0 ==> |t.children| > 0 && t.head.refCount == 1 && OwnsChain(First(t))
  }

  lemma {:induction false} LeaningTower(t: Subtree, n: nat, below: nat)
    requires IsLeftLeaning(t) && OwnsChain(t) && t.repeatDepth > 0 && n == First(t).repeatDepth && below == n + 1
    ensures HasSpine(t, below) && SpineAt(t, below).repeatDepth == 0
    ensures Tower(t, t.head.symbol, n, 0, 0, SpineAt(t, below))
    decreases t
  {
    if n == 0 {
      assert HasSpine(First(t), 0) && SpineAt(t, 1) == SpineAt(First(t), 0) == First(t);
    } else {
      var c := First(t);
      LeaningTower(c, n - 1, n);
      assert SpineAt(t, below) == SpineAt(c, n);
      assert IsRoundLink(c, t.head.symbol, 0);
    }
  }

  /** The spine below x: so many nodes of the repetition, and then a node of any kind. */
  predicate IsChain(x: Subtree, symbol: Symbol, links: nat, base: Subtree)
    decreases links
  {
    && |x.children| > 0
    && if links == 0 then First(x) == base
       else |First(x).children| >= 2 && First(x).head.symbol == symbol && IsChain(First(x), symbol, links - 1, base)
  }

  lemma CalmIsKept(lang: Language, t: Subtree)
    requires |t.children| > 0 && (t.repeatDepth == 0 || RepeatDelta(t) <= 1)
    ensures Rebalanced(Summarizer(lang), t) == t
  {
  }

  lemma ChildBalanced(lang: Language, t: Subtree, i: nat)
    requires i < |Rebalanced(Summarizer(lang), t).children|
    ensures var m := Rebalanced(Summarizer(lang), t);
            && |BalanceTree(lang, t).children| == |m.children|
            && BalanceTree(lang, t).children[i] == Balanced(lang, m.children[i])
            && BalanceTree(lang, t).head == m.head && BalanceTree(lang, t).repeatDepth == m.repeatDepth
  {
    assert BalanceTree(lang, t).children[i] == BalancedChild(lang, t, Rebalanced(Summarizer(lang), t), i);
  }

  /** Balancing what hangs below a settled chain leaves the chain as it is. */
  lemma {:induction false} SettledStays(lang: Language, r: Subtree, x: Subtree, symbol: Symbol, links: nat,
                                        base: Subtree)
    requires Settled(r, symbol, links, base) && base.repeatDepth == 0
    requires |x.children| == |r.children| && First(x) == Balanced(lang, First(r))
    ensures IsChain(x, symbol, links, Balanced(lang, base))
    ensures First(x).repeatDepth == First(r).repeatDepth
    decreases links
  {
    var c := First(r);
    if |c.children| > 0 {
      CalmIsKept(lang, c);
      ChildBalanced(lang, c, 0);
    }
    if links > 0 {
      SettledStays(lang, c, First(x), symbol, links - 1, base);
    }
  }

  /** A repetition that leans to the left by n, balanced with all that is in it: the first child has a repeat depth of
      at most one more than the logarithm of n, and of the n links on its spine as many are left as n has one bits, with
      the same node, balanced, at their end. */
  lemma LeaningBalanced(lang: Language, t: Subtree)
    requires IsLeftLeaning(t) && OwnsChain(t) && t.repeatDepth > 1
    ensures var (n, r) := (First(t).repeatDepth, BalanceTree(lang, t));
            && |r.children| > 0 && First(r).repeatDepth <= Log2(n) + 1
            && HasSpine(t, n + 1)
            && IsChain(r, t.head.symbol, Popcount(n), Balanced(lang, SpineAt(t, n + 1)))
  {
    var (n, s) := (First(t).repeatDepth, t.head.symbol);
    LeaningTower(t, n, n + 1);
    var base := SpineAt(t, n + 1);
    RebalancedIsHalved(Summarizer(lang), t, n, n / 2);
    HalvedTower(lang, t, s, n, n / 2, 0, 0, Popcount(n), Log2(n) + 1, base);
    var m := Rebalanced(Summarizer(lang), t);
    ChildBalanced(lang, t, 0);
    SettledStays(lang, m, BalanceTree(lang, t), s, Popcount(n), base);
  }

  // ----- Repetitions below other nodes -----

  /** On the way p down from t all nodes have children and belong to this tree only, and those above the last one are
      no repetitions. */
  predicate IsOpenWay(t: Subtree, p: Path)
    decreases p
  {
    && |t.children| > 0 && t.head.refCount == 1
    && (p != [] ==> t.repeatDepth == 0 && p[0] < |t.children| && IsOpenWay(t.children[p[0]], p[1..]))
  }

  lemma {:induction false} BalancedAlong(lang: Language, t: Subtree, p: Path)
    requires IsOpenWay(t, p)
    ensures ValidPath(t, p) && ValidPath(Balanced(lang, t), p)
    ensures At(Balanced(lang, t), p) == BalanceTree(lang, At(t, p))
    decreases p
  {
    if p == [] {
    } else {
      CalmIsKept(lang, t);
      ChildBalanced(lang, t, p[0]);
      BalancedAlong(lang, t.children[p[0]], p[1..]);
    }
  }

  /** Balancing reaches every repetition below nodes that are none, as under the root of a file: if it leans to the
      left by n, the node in its place has a first child of a repeat depth of at most one more than the logarithm of n,
      and as many links of n are left as it has one bits. */
  lemma BalanceDepthBelow(lang: Language, t: Subtree, p: Path)
    requires IsOpenWay(t, p) && ValidPath(t, p)
    requires IsLeftLeaning(At(t, p)) && OwnsChain(At(t, p)) && At(t, p).repeatDepth > 1
    ensures ValidPath(Balanced(lang, t), p)
    ensures var (x, n, r) := (At(t, p), First(At(t, p)).repeatDepth, At(Balanced(lang, t), p));
            && |r.children| > 0 && First(r).repeatDepth <= Log2(n) + 1
            && HasSpine(x, n + 1)
            && IsChain(r, x.head.symbol, Popcount(n), Balanced(lang, SpineAt(x, n + 1)))
  {
    BalancedAlong(lang, t, p);
    LeaningBalanced(lang, At(t, p));
  }

  // ----- What lies inside repetitions -----

  /** A node with children that belongs to this tree only. */
  predicate IsOpen(c: Subtree) {
    |c.children| > 0 && c.head.refCount == 1
  }

  /** Below such nodes of t lies x, under a parent with another symbol. */
  predicate Contains(t: Subtree, x: Subtree)
    decreases t, 1
  {
    exists i | 0 <= i < |t.children| :: ContainsAt(t, i, x)
  }

  predicate ContainsAt(t: Subtree, i: nat, x: Subtree)
    requires i < |t.children|
    decreases t, 0
  {
    || (t.children[i] == x && x.head.symbol != t.head.symbol)
    || (IsOpen(t.children[i]) && Contains(t.children[i], x))
  }

  /** Every node is referred to by something. */
  predicate AllCounted(t: Subtree) {
    t.head.refCount > 0 && forall i | 0 <= i < |t.children| :: AllCounted(t.children[i])
  }

  lemma ContainsWhere(t: Subtree, x: Subtree) returns (i: nat)
    requires Contains(t, x)
    ensures i < |t.children| && ContainsAt(t, i, x)
  {
    i :| 0 <= i < |t.children| && ContainsAt(t, i, x);
  }

  /** What is reached through a child with its parent's symbol lies inside that child. */
  lemma ContainsInside(t: Subtree, i: nat, x: Subtree)
    requires i < |t.children| && ContainsAt(t, i, x) && t.children[i].head.symbol == t.head.symbol
    ensures IsOpen(t.children[i]) && Contains(t.children[i], x)
  {
  }

  /** The parent of a place may change, but for its symbol. */
  lemma ContainsElsewhere(t: Subtree, i: nat, x: Subtree, r: Subtree, j: nat)
    requires i < |t.children| && ContainsAt(t, i, x)
    requires j < |r.children| && r.children[j] == t.children[i] && r.head.symbol == t.head.symbol
    ensures Contains(r, x)
  {
    assert ContainsAt(r, j, x);
  }

  /** Summarizing a node changes nothing below it. */
  lemma SummarizedContains(sm: Summarizing, t: Subtree, x: Subtree)
    requires Contains(t, x) && sm(t).head == t.head && sm(t).children == t.children
    ensures Contains(sm(t), x)
  {
    var i := ContainsWhere(t, x);
    ContainsElsewhere(t, i, x, sm(t), i);
  }

  /** Through a new child. */
  lemma ContainsThrough(t: Subtree, k: nat, c: Subtree, x: Subtree)
    requires k < |t.children| && IsOpen(c) && Contains(c, x)
    ensures Contains(SetChild(t, k, c), x)
  {
    assert ContainsAt(SetChild(t, k, c), k, x);
  }

  /** A rotation moves what is inside the repetition, and loses nothing. */
  lemma RotatedContains(t: Subtree, x: Subtree)
    requires CanRotate(t, t.head.symbol) && First(First(t)).head.refCount == 1 && Contains(t, x)
    ensures Contains(Rotate(t), x)
  {
    var (c, g) := (First(t), First(First(t)));
    var (c', last) := (SetFirst(c, Last(g)), |g.children| - 1);
    var g' := SetLast(g, c');
    var i := ContainsWhere(t, x);
    if i > 0 {
      ContainsElsewhere(t, i, x, SetFirst(t, g'), i);
    } else {
      ContainsInside(t, 0, x);
      var j := ContainsWhere(c, x);
      if j > 0 {
        ContainsElsewhere(c, j, x, c', j);
        ContainsThrough(g, last, c', x);
      } else {
        ContainsInside(c, 0, x);
        var l := ContainsWhere(g, x);
        if l < last {
          ContainsElsewhere(g, l, x, g', l);
        } else {
          ContainsElsewhere(g, l, x, c', 0);
          ContainsThrough(g, last, c', x);
        }
      }
      ContainsThrough(t, 0, g', x);
    }
  }

  lemma RefreshedContains(lang: Language, y: Subtree, x: Subtree)
    requires |y.children| > 0 && IsOpen(Last(y)) && Last(y).head.symbol == y.head.symbol && Contains(y, x)
    ensures Contains(Refreshed(Summarizer(lang), y), x)
  {
    var (sm, last) := (Summarizer(lang), |y.children| - 1);
    var u := SetLast(y, sm(Last(y)));
    var i := ContainsWhere(y, x);
    if i < last {
      ContainsElsewhere(y, i, x, u, i);
    } else {
      ContainsInside(y, i, x);
      SummarizedContains(sm, Last(y), x);
      ContainsThrough(y, last, sm(Last(y)), x);
    }
    SummarizedContains(sm, u, x);
  }

  lemma RotatedCounted(t: Subtree, symbol: Symbol)
    requires AllCounted(t) && CanRotate(t, symbol)
    ensures AllCounted(First(t)) && AllCounted(First(First(t))) && AllCounted(Last(First(First(t))))
    ensures AllCounted(First(Rotate(t)))
  {
    var (c, g) := (First(t), First(First(t)));
    assert AllCounted(c) && AllCounted(g) && AllCounted(g.children[|g.children| - 1]);
    SetChildCounted(c, 0, Last(g));
    SetChildCounted(g, |g.children| - 1, SetFirst(c, Last(g)));
  }

  lemma SetChildCounted(t: Subtree, k: nat, c: Subtree)
    requires AllCounted(t) && k < |t.children| && AllCounted(c)
    ensures AllCounted(SetChild(t, k, c))
  {
  }

  lemma RefreshedCounted(lang: Language, y: Subtree)
    requires AllCounted(y) && |y.children| > 0
    ensures AllCounted(Refreshed(Summarizer(lang), y))
  {
    assert AllCounted(Last(y));
    SetChildCounted(y, |y.children| - 1, Summarizer(lang)(Last(y)));
  }

  lemma {:induction false} CompressCounted(lang: Language, t: Subtree, symbol: Symbol, count: nat)
    requires AllCounted(t) && |t.children| >= 2
    ensures AllCounted(CompressTree(Summarizer(lang), t, symbol, count))
    decreases count
  {
    if count > 0 && CanRotate(t, symbol) {
      var (g', rest) := (First(Rotate(t)), count - 1);
      RotatedCounted(t, symbol);
      CompressCounted(lang, g', symbol, rest);
      CompressKeepsLast(lang, g', symbol, rest);
      CompressByFirst(Summarizer(lang), t, Rotate(t), symbol, count, rest);
      var y := CompressTree(Summarizer(lang), g', symbol, rest);
      RefreshedCounted(lang, y);
      SetChildCounted(t, 0, Refreshed(Summarizer(lang), y));
    }
  }

  /** Nor does compression lose anything that is inside the repetition. */
  lemma {:induction false} CompressContains(lang: Language, t: Subtree, symbol: Symbol, count: nat, x: Subtree)
    requires AllCounted(t) && |t.children| >= 2 && t.head.symbol == symbol && Contains(t, x)
    ensures Contains(CompressTree(Summarizer(lang), t, symbol, count), x)
    decreases count
  {
    if count > 0 && CanRotate(t, symbol) {
      var (sm, r, rest) := (Summarizer(lang), Rotate(t), count - 1);
      var g' := First(r);
      var y := CompressTree(sm, g', symbol, rest);
      RotatedCounted(t, symbol);
      RotatedContains(t, x);
      CompressKeepsLast(lang, g', symbol, rest);
      CompressByFirst(sm, t, r, symbol, count, rest);
      var z := Refreshed(sm, y);
      var i := ContainsWhere(r, x);
      if i > 0 {
        ContainsElsewhere(r, i, x, SetFirst(t, z), i);
      } else {
        ContainsInside(r, 0, x);
        CompressContains(lang, g', symbol, rest, x);
        RefreshedContains(lang, y, x);
        ContainsThrough(t, 0, z, x);
      }
      SummarizedContains(sm, SetFirst(t, z), x);
    }
  }

  lemma {:induction false} HalveContains(lang: Language, t: Subtree, i: nat, x: Subtree)
    requires AllCounted(t) && |t.children| >= 2 && Contains(t, x)
    ensures var r := HalveTree(Summarizer(lang), t, i); Contains(r, x) && AllCounted(r) && r.head == t.head
    decreases i
  {
    HalveUnrolled(Summarizer(lang), t, i, i / 2);
    if i > 0 {
      CompressContains(lang, t, t.head.symbol, i, x);
      CompressCounted(lang, t, t.head.symbol, i);
      CompressKeepsLast(lang, t, t.head.symbol, i);
      HalveContains(lang, CompressTree(Summarizer(lang), t, t.head.symbol, i), i / 2, x);
    }
  }

  lemma RebalancedContains(lang: Language, t: Subtree, x: Subtree)
    requires AllCounted(t) && Contains(t, x)
    ensures var m := Rebalanced(Summarizer(lang), t); Contains(m, x) && AllCounted(m) && m.head == t.head
  {
    if t.repeatDepth > 0 && RepeatDelta(t) > 0 {
      HalveContains(lang, t, RepeatDelta(t) / 2, x);
    }
  }

  lemma RebalancedHead(lang: Language, t: Subtree)
    requires |t.children| > 0
    ensures BalanceTree(lang, t).head == t.head && |BalanceTree(lang, t).children| == |t.children|
  {
    if t.repeatDepth > 0 && RepeatDelta(t) > 0 {
      HalveKeepsHead(lang, t, RepeatDelta(t) / 2);
    }
    ChildBalanced(lang, t, 0);
  }

  lemma {:induction false} HalveKeepsHead(lang: Language, t: Subtree, i: nat)
    requires |t.children| >= 2
    ensures var r := HalveTree(Summarizer(lang), t, i); r.head == t.head && |r.children| == |t.children|
    decreases i
  {
    HalveUnrolled(Summarizer(lang), t, i, i / 2);
    if i > 0 {
      CompressKeepsLast(lang, t, t.head.symbol, i);
      HalveKeepsHead(lang, CompressTree(Summarizer(lang), t, t.head.symbol, i), i / 2);
    }
  }

  /** Whatever lies in a tree below nodes that belong to it alone, also inside repetitions that are rotated, is itself
      balanced, as if it stood alone, if it belongs to the tree alone and has children; otherwise it is as it was.
      Links of a repetition are not meant, since they have their parents' symbol. */
  lemma {:induction false} ContentsBalanced(lang: Language, t: Subtree, x: Subtree)
    requires AllCounted(t) && Contains(t, x)
    ensures Contains(BalanceTree(lang, t), if IsOpen(x) then BalanceTree(lang, x) else x)
    decreases NodeCount(t)
  {
    var (m, r) := (Rebalanced(Summarizer(lang), t), BalanceTree(lang, t));
    RebalancedContains(lang, t, x);
    RebalancedKeepsText(lang, t);
    var i := ContainsWhere(m, x);
    CountOfChild(m.children, i);
    ChildBalanced(lang, t, i);
    if m.children[i] == x && x.head.symbol != m.head.symbol {
      if IsOpen(x) {
        RebalancedHead(lang, x);
      }
    } else {
      assert AllCounted(m.children[i]);
      ContentsBalanced(lang, m.children[i], x);
      RebalancedHead(lang, m.children[i]);
    }
    assert ContainsAt(r, i, if IsOpen(x) then BalanceTree(lang, x) else x);
  }

  /** Hence the bound holds for every repetition that leans to the left, wherever it lies below nodes that belong to the
      tree alone. */
  lemma BalanceDepthInside(lang: Language, t: Subtree, x: Subtree)
    requires IsOpen(t) && AllCounted(t) && Contains(t, x)
    requires IsLeftLeaning(x) && OwnsChain(x) && x.repeatDepth > 1
    ensures var (n, r) := (First(x).repeatDepth, BalanceTree(lang, x));
            && Contains(Balanced(lang, t), r)
            && |r.children| > 0 && First(r).repeatDepth <= Log2(n) + 1
            && HasSpine(x, n + 1)
            && IsChain(r, x.head.symbol, Popcount(n), Balanced(lang, SpineAt(x, n + 1)))
  {
    assert IsOpen(x);
    ContentsBalanced(lang, t, x);
    LeaningBalanced(lang, x);
  }
}
