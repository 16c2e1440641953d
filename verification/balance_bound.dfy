/** How shallow the halving loop of ts_subtree_balance leaves a repetition. */
module BalanceBound {
  import opened Subtrees
  import opened Summaries
  import opened Rotations
  import opened RotationMeaning
  import opened Balancing

  function Popcount(n: nat): nat {
    if n == 0 then 0 else n % 2 + Popcount(n / 2)
  }

  function Log2(n: nat): nat {
    if n <= 1 then 0 else 1 + Log2(n / 2)
  }

  /** The links on the left spine below t. */
  function ChainLength(t: Subtree, symbol: Symbol): nat {
    if |t.children| > 0 && |First(t).children| >= 2 && First(t).head.symbol == symbol then
      1 + ChainLength(First(t), symbol)
    else 0
  }

  /** How many of the requested rotations find their nodes in place. */
  function RotationsDone(sm: Summarizing, t: Subtree, symbol: Symbol, count: nat): nat
    decreases count
  {
    if count == 0 || !CanRotate(t, symbol) then 0
    else 1 + RotationsDone(sm, First(Rotate(t)), symbol, count - 1)
  }

  /** Every rotation that the halving loop asks for is done. */
  predicate AllRotationsDone(sm: Summarizing, t: Subtree, i: nat)
    decreases i
  {
    i > 0 ==>
      && RotationsDone(sm, t, t.head.symbol, i) == i
      && AllRotationsDone(sm, CompressTree(sm, t, t.head.symbol, i), i / 2)
  }

  /** Below t hangs a chain of `links` unshared links whose last children have repeat depth at most `side`;
      what hangs below the chain has at most `rest`. */
  predicate Profile(t: Subtree, symbol: Symbol, links: nat, side: nat, rest: nat)
    decreases links
  {
    && |t.children| >= 2 && t.head.refCount <= 1
    && if links == 0 then First(t).repeatDepth <= rest
       else
         var c := First(t);
         && IsLink(c, symbol)
         && Last(c).repeatDepth <= side
         && c.repeatDepth == RepeatDepthOf(c)
         && Profile(c, symbol, links - 1, side, rest)
  }

  /** Only the first child and the reference count matter. */
  lemma SameProfile(a: Subtree, b: Subtree, symbol: Symbol, links: nat, side: nat, rest: nat)
    requires Profile(a, symbol, links, side, rest)
    requires |b.children| >= 2 && b.head.refCount <= 1 && First(a) == First(b)
    ensures Profile(b, symbol, links, side, rest) && ChainLength(b, symbol) == ChainLength(a, symbol)
  {
  }

  lemma ProfileDepth(t: Subtree, symbol: Symbol, links: nat, side: nat, rest: nat)
    requires links <= 1 && Profile(t, symbol, links, side, rest)
    ensures First(t).repeatDepth <= Max(side, rest) + 1
  {
  }

  /** Rotations keep the head, the number of children and the last child. */
  lemma {:induction false} CompressKeepsLast(lang: Language, t: Subtree, symbol: Symbol, count: nat)
    requires |t.children| >= 2
    ensures var r := CompressTree(Summarizer(lang), t, symbol, count);
            r.head == t.head && |r.children| == |t.children| && Last(r) == Last(t)
    decreases count
  {
    if count == 0 || !CanRotate(t, symbol) {
    } else {
      var rest := count - 1;
      var g' := First(Rotate(t));
      CompressKeepsLast(lang, g', symbol, rest);
      CompressByFirst(Summarizer(lang), t, Rotate(t), symbol, count, rest);
    }
  }

  /** One rotation, with what the rotations below it made of the grandchild, adds a link to the chain. */
  lemma LinkOnTop(lang: Language, t: Subtree, symbol: Symbol, x: Subtree, links: nat, more: nat, bound: nat)
    requires CanRotate(t, symbol) && more == links + 1
    requires var (c, g) := (First(t), First(First(t)));
             && Last(c).repeatDepth < bound && Last(g).repeatDepth < bound
             && x.head == g.head && |x.children| == |g.children| && Last(x) == SetFirst(c, Last(g))
    requires Profile(x, symbol, links, bound, bound)
    ensures var sm := Summarizer(lang);
            var r := sm(SetFirst(t, Refreshed(sm, x)));
            && Profile(r, symbol, more, bound, bound)
            && ChainLength(r, symbol) == 1 + ChainLength(x, symbol)
  {
    var sm := Summarizer(lang);
    var y := Refreshed(sm, x);
    assert First(y) == First(x) && Last(y) == sm(SetFirst(First(t), Last(First(First(t)))));
    SameProfile(x, y, symbol, links, bound, bound);
  }

  lemma RotatedProfile(t: Subtree, symbol: Symbol, links: nat, below: nat, side: nat, rest: nat)
    requires links == below + 2 && Profile(t, symbol, links, side, rest)
    ensures CanRotate(t, symbol)
    ensures var g' := First(Rotate(t));
            && Profile(g', symbol, below, side, rest)
            && ChainLength(g', symbol) + 2 == ChainLength(t, symbol)
            && Last(g') == SetFirst(First(t), Last(First(First(t))))
            && Last(First(t)).repeatDepth <= side && Last(First(First(t))).repeatDepth <= side
  {
    var g := First(First(t));
    SameProfile(g, First(Rotate(t)), symbol, below, side, rest);
  }

  lemma RotationsUnrolled(sm: Summarizing, t: Subtree, symbol: Symbol, count: nat, fewer: nat)
    requires count == fewer + 1 && CanRotate(t, symbol)
    ensures RotationsDone(sm, t, symbol, count) == 1 + RotationsDone(sm, First(Rotate(t)), symbol, fewer)
  {
    assert fewer == count - 1;
  }

  /** Compressing by half the chain's length finds every rotation in place, and halves the chain. */
  lemma {:induction false} CompressHalves(
    lang: Language, t: Subtree, symbol: Symbol, i: nat, links: nat, side: nat, rest: nat, bound: nat)
    requires Profile(t, symbol, links, side, rest) && (links == 2 * i || links == 2 * i + 1)
    requires bound == Max(side, rest) + 1
    ensures var (sm, r) := (Summarizer(lang), CompressTree(Summarizer(lang), t, symbol, i));
            && RotationsDone(sm, t, symbol, i) == i
            && Profile(r, symbol, i, bound, bound)
            && ChainLength(r, symbol) + i == ChainLength(t, symbol)
    decreases i
  {
    if i == 0 {
      ProfileDepth(t, symbol, links, side, rest);
    } else {
      var sm := Summarizer(lang);
      var (j, below, g') := (i - 1, links - 2, First(Rotate(t)));
      RotatedProfile(t, symbol, links, below, side, rest);
      CompressHalves(lang, g', symbol, j, below, side, rest, bound);
      CompressKeepsLast(lang, g', symbol, j);
      CompressByFirst(sm, t, Rotate(t), symbol, i, j);
      RotationsUnrolled(sm, t, symbol, i, j);
      LinkOnTop(lang, t, symbol, CompressTree(sm, g', symbol, j), j, i, bound);
    }
  }

  lemma HalvingUnrolled(sm: Summarizing, t: Subtree, i: nat, half: nat)
    requires i > 0 && half == i / 2 && RotationsDone(sm, t, t.head.symbol, i) == i
    ensures var t' := CompressTree(sm, t, t.head.symbol, i);
            && HalveTree(sm, t, i) == HalveTree(sm, t', half)
            && (AllRotationsDone(sm, t', half) ==> AllRotationsDone(sm, t, i))
  {
  }

  lemma {:induction false} HalvingProfile(
    lang: Language, t: Subtree, symbol: Symbol, links: nat, i: nat, k: nat, depth: nat)
    requires links > 0 && i == links / 2 && depth == k + Log2(links)
    requires t.head.symbol == symbol && Profile(t, symbol, links, k, k)
    ensures var (sm, r) := (Summarizer(lang), HalveTree(Summarizer(lang), t, i));
            && AllRotationsDone(sm, t, i)
            && Profile(r, symbol, 1, depth, depth)
            && ChainLength(r, symbol) + links == ChainLength(t, symbol) + Popcount(links)
    decreases links
  {
    if i > 0 {
      var (next, half) := (k + 1, i / 2);
      CompressHalves(lang, t, symbol, i, links, k, k, next);
      var t' := CompressTree(Summarizer(lang), t, symbol, i);
      CompressKeepsLast(lang, t, symbol, i);
      HalvingUnrolled(Summarizer(lang), t, i, half);
      HalvingProfile(lang, t', symbol, i, half, next, depth);
    } else {
      assert Popcount(0) == 0;
    }
  }

  /** A repetition that leans fully to the left: its nodes are unshared, their last children are no
      repetitions, and the stored repeat depths are right. */
  predicate IsLeftLeaning(t: Subtree) {
    && t.repeatDepth == RepeatDepthOf(t)
    && (t.repeatDepth > 0 ==>
          t.head.refCount <= 1 && Last(t).repeatDepth == 0 && IsLeftLeaning(First(t)))
  }

  lemma {:induction false} LeftLeaningProfile(t: Subtree)
    requires IsLeftLeaning(t) && t.repeatDepth > 0
    ensures Profile(t, t.head.symbol, First(t).repeatDepth, 0, 0)
    decreases t
  {
    if First(t).repeatDepth == 0 {
    } else {
      LeftLeaningProfile(First(t));
    }
  }

  lemma RebalancedIsHalved(sm: Summarizing, t: Subtree, n: nat, half: nat)
    requires IsLeftLeaning(t) && t.repeatDepth > 1 && n == First(t).repeatDepth && half == n / 2
    ensures RepeatDelta(t) == n && Rebalanced(sm, t) == HalveTree(sm, t, half)
  {
  }

  lemma HalvedDepth(lang: Language, t: Subtree, n: nat, half: nat, depth: nat)
    requires n > 0 && half == n / 2 && depth == Log2(n) && Profile(t, t.head.symbol, n, 0, 0)
    ensures var (s, r) := (t.head.symbol, HalveTree(Summarizer(lang), t, half));
            && AllRotationsDone(Summarizer(lang), t, half)
            && |r.children| > 0 && First(r).repeatDepth <= depth + 1
            && ChainLength(r, s) + n == ChainLength(t, s) + Popcount(n)
  {
    HalvingProfile(lang, t, t.head.symbol, n, half, 0, depth);
    ProfileDepth(HalveTree(Summarizer(lang), t, half), t.head.symbol, 1, depth, depth);
  }

  /** Rebalancing a repetition that leans to the left by n: every rotation the loop asks for is done; of
      the n links at the top of the chain as many are left as n has one bits; and the first child's
      repeat depth drops from n to at most one more than the logarithm of n. */
  lemma BalanceDepth(lang: Language, t: Subtree)
    requires IsLeftLeaning(t) && t.repeatDepth > 1
    ensures var (n, s, r) := (First(t).repeatDepth, t.head.symbol, Rebalanced(Summarizer(lang), t));
            && RepeatDelta(t) == n
            && AllRotationsDone(Summarizer(lang), t, n / 2)
            && |r.children| > 0 && First(r).repeatDepth <= Log2(n) + 1
            && ChainLength(r, s) == ChainLength(t, s) - n + Popcount(n)
            && n <= ChainLength(t, s)
  {
    var n := First(t).repeatDepth;
    LeftLeaningProfile(t);
    RebalancedIsHalved(Summarizer(lang), t, n, n / 2);
    HalvedDepth(lang, t, n, n / 2, Log2(n));
    LeftLeaningLength(t);
  }

  lemma {:induction false} LeftLeaningLength(t: Subtree)
    requires IsLeftLeaning(t) && t.repeatDepth > 0
    ensures First(t).repeatDepth <= ChainLength(t, t.head.symbol)
    decreases t
  {
    if First(t).repeatDepth == 0 {
    } else {
      LeftLeaningLength(First(t));
    }
  }
}
