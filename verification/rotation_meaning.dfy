/** Rotations regroup the children of hidden repeat nodes; they change neither the text below a tree nor
    what its summary says. */
module RotationMeaning {
  import opened Subtrees
  import opened Summaries
  import opened Rotations

  lemma {:induction false} CountConcat(a: seq<Subtree>, b: seq<Subtree>)
    ensures NodeCounts(a + b) == NodeCounts(a) + NodeCounts(b)
  {
    if b == [] {
      assert a + b == a;
    } else {
      CountConcat(a, b[..|b| - 1]);
      assert (a + b)[..|a + b| - 1] == a + b[..|b| - 1];
    }
  }

  lemma {:induction false} PlainConcat(symbol: Symbol, a: seq<Subtree>, b: seq<Subtree>)
    ensures PlainProduct(symbol, a + b) == Combine(PlainProduct(symbol, a), PlainProduct(symbol, b))
  {
    if b == [] {
      assert a + b == a;
    } else {
      var k := |b| - 1;
      PlainConcat(symbol, a, b[..k]);
      assert (a + b)[..|a + b| - 1] == a + b[..k];
      CombineAssociative(PlainProduct(symbol, a), PlainProduct(symbol, b[..k]), PlainSums(symbol, b[k]));
    }
  }

  lemma Cons(c: Subtree, cs: seq<Subtree>)
    ensures LeavesOf([c] + cs) == Leaves(c) + LeavesOf(cs)
    ensures NodeCounts([c] + cs) == NodeCount(c) + NodeCounts(cs)
  {
    assert [c][..0] == [];
    LeavesConcat([c], cs);
    CountConcat([c], cs);
  }

  lemma Snoc(cs: seq<Subtree>, c: Subtree)
    ensures LeavesOf(cs + [c]) == LeavesOf(cs) + Leaves(c)
    ensures NodeCounts(cs + [c]) == NodeCounts(cs) + NodeCount(c)
  {
    assert (cs + [c])[..|cs + [c]| - 1] == cs;
  }

  lemma PlainCons(symbol: Symbol, c: Subtree, cs: seq<Subtree>)
    ensures PlainProduct(symbol, [c] + cs) == Combine(PlainSums(symbol, c), PlainProduct(symbol, cs))
  {
    assert [c][..0] == [];
    PlainConcat(symbol, [c], cs);
  }

  lemma PlainSnoc(symbol: Symbol, cs: seq<Subtree>, c: Subtree)
    ensures PlainProduct(symbol, cs + [c]) == Combine(PlainProduct(symbol, cs), PlainSums(symbol, c))
  {
    assert (cs + [c])[..|cs + [c]| - 1] == cs;
  }

  /** What a child contributes to a node of a repetition, which has no aliases. */
  function PlainSums(symbol: Symbol, c: Subtree): Sums {
    Sums(c.sum.padding,
         c.sum.size,
         c.TotalBytes() + c.sum.lookaheadBytes,
         (if c.head.symbol == SYM_ERROR_REPEAT then 0 else c.ErrorCost())
         + (if symbol == SYM_ERROR_REPEAT then SkippedCost(c) else 0),
         if c.head.visible then 1 else c.VisibleChildCount(),
         if c.head.visible then (if c.head.named then 1 else 0) else c.NamedChildCount(),
         c.VisibleDescendantCount() + (if c.head.visible then 1 else 0),
         c.sum.hasExternalTokens)
  }

  /** What a repetition of errors pays for a child. */
  function SkippedCost(c: Subtree): nat {
    if c.head.extra || (c.head.symbol == SYM_ERROR && |c.children| == 0) then 0
    else if c.head.visible then COST_PER_SKIPPED_TREE
    else COST_PER_SKIPPED_TREE * c.VisibleChildCount()
  }

  function PlainProduct(symbol: Symbol, cs: seq<Subtree>): Sums {
    if cs == [] then Nothing
    else Combine(PlainProduct(symbol, cs[..|cs| - 1]), PlainSums(symbol, cs[|cs| - 1]))
  }

  /** The production gives no child an alias; it may still name fields. */
  ghost predicate HasNoAliases(lang: Language, productionId: nat) {
    forall i: nat :: AliasAt(lang, productionId, i) == 0
  }

  /** A node of a repetition: hidden, without aliases, no error other than the repetition of errors. */
  ghost predicate IsHidden(lang: Language, h: Head) {
    && !h.visible && !h.missing && HasNoAliases(lang, h.productionId)
    && h.symbol != SYM_ERROR && (h.symbol == SYM_ERROR_REPEAT ==> !h.extra)
  }

  /** What a node of a repetition hands on of its children's sums: everything, but that a repetition of errors pays
      for its visible children anew, in place of their costs. */
  function HandedOn(symbol: Symbol, s: Sums): Sums {
    if symbol == SYM_ERROR_REPEAT && s.Sums? then s.(cost := COST_PER_SKIPPED_TREE * s.visible) else s
  }

  lemma HandedOnTwice(symbol: Symbol, a: Sums, b: Sums)
    ensures HandedOn(symbol, Combine(HandedOn(symbol, a), b)) == HandedOn(symbol, Combine(a, b))
    ensures HandedOn(symbol, Combine(a, HandedOn(symbol, b))) == HandedOn(symbol, Combine(a, b))
  {
  }

  /** The nodes of the given repeat symbols that can be rotated are hidden, and only they have a repeat depth. */
  ghost predicate RepeatRule(repeats: set<Symbol>, lang: Language, t: Subtree) {
    && (t.head.symbol in repeats && |t.children| >= 2 ==> IsHidden(lang, t.head))
    && (t.repeatDepth > 0 ==> t.head.symbol in repeats)
    && forall i | 0 <= i < |t.children| :: RepeatRule(repeats, lang, t.children[i])
  }

  ghost predicate Sound(repeats: set<Symbol>, lang: Language, t: Subtree) {
    WellSummarized(lang, t) && RepeatRule(repeats, lang, t)
  }

  /** What a parent's summary reads of a child. */
  predicate SameView(a: Subtree, b: Subtree) {
    a.head == b.head && a.sum == b.sum && (|a.children| == 0 <==> |b.children| == 0)
  }

  predicate SameChildViews(a: Subtree, b: Subtree) {
    && a.head == b.head
    && |a.children| == |b.children|
    && forall i | 0 <= i < |a.children| :: SameView(a.children[i], b.children[i])
  }

  lemma {:induction false} SameProduct(lang: Language, a: Subtree, b: Subtree, k: nat)
    requires SameChildViews(a, b) && k <= |a.children|
    ensures StructuralIndex(a.children, k) == StructuralIndex(b.children, k)
    ensures Product(lang, a, k) == Product(lang, b, k)
  {
    if k == 0 {
    } else {
      SameProduct(lang, a, b, k - 1);
      SameSums(lang, a, b, k - 1, StructuralIndex(a.children, k - 1));
    }
  }

  lemma SameSums(lang: Language, a: Subtree, b: Subtree, i: nat, structuralIndex: nat)
    requires SameChildViews(a, b) && i < |a.children|
    ensures a.children[i].head == b.children[i].head
    ensures SumsOf(lang, a, structuralIndex, a.children[i]) == SumsOf(lang, b, structuralIndex, b.children[i])
  {
    assert SameView(a.children[i], b.children[i]);
  }

  /** A summary depends on nothing but the node's head and its children's heads and summaries. */
  lemma SameSummary(lang: Language, a: Subtree, b: Subtree)
    requires SameChildViews(a, b) && |a.children| > 0
    ensures SummaryOf(lang, a) == SummaryOf(lang, b)
  {
    SameProduct(lang, a, b, |a.children|);
  }

  lemma SoundChildren(repeats: set<Symbol>, lang: Language, t: Subtree)
    requires forall i | 0 <= i < |t.children| :: Sound(repeats, lang, t.children[i])
    requires t.head.symbol in repeats && IsHidden(lang, t.head) && |t.children| > 0
    ensures Sound(repeats, lang, Summarized(lang, t))
  {
    SameSummary(lang, t, Summarized(lang, t));
  }

  lemma PlainChild(lang: Language, t: Subtree, structuralIndex: nat, c: Subtree)
    requires IsHidden(lang, t.head)
    ensures SumsOf(lang, t, structuralIndex, c) == PlainSums(t.head.symbol, c)
  {
  }

  lemma {:induction false} ProductIsPlain(lang: Language, t: Subtree, k: nat)
    requires IsHidden(lang, t.head) && k <= |t.children|
    ensures Product(lang, t, k) == PlainProduct(t.head.symbol, t.children[..k])
  {
    if k == 0 {
    } else {
      ProductIsPlain(lang, t, k - 1);
      PlainChild(lang, t, StructuralIndex(t.children, k - 1), t.children[k - 1]);
      PlainSnoc(t.head.symbol, t.children[..k - 1], t.children[k - 1]);
      assert t.children[..k] == t.children[..k - 1] + [t.children[k - 1]];
    }
  }

  /** A hidden node contributes what its children do, to a node with the same symbol. */
  lemma HiddenNodeStandsForChildren(lang: Language, t: Subtree, symbol: Symbol)
    requires IsHidden(lang, t.head) && |t.children| > 0 && t.sum == SummaryOf(lang, t) && symbol == t.head.symbol
    ensures PlainSums(symbol, t) == HandedOn(symbol, PlainProduct(symbol, t.children))
  {
    ProductIsPlain(lang, t, |t.children|);
    assert t.children[..|t.children|] == t.children;
  }

  /** Summaries agree when the contributions and the first leaves agree. */
  lemma SameContributions(lang: Language, a: Subtree, b: Subtree)
    requires a.head == b.head && IsHidden(lang, a.head) && |a.children| > 0 && |b.children| > 0
    requires PlainProduct(a.head.symbol, a.children) == PlainProduct(a.head.symbol, b.children)
    requires First(a).LeafSymbol() == First(b).LeafSymbol() && First(a).LeafState() == First(b).LeafState()
    ensures SummaryOf(lang, a) == SummaryOf(lang, b)
  {
    ProductIsPlain(lang, a, |a.children|);
    ProductIsPlain(lang, b, |b.children|);
    assert a.children[..|a.children|] == a.children && b.children[..|b.children|] == b.children;
  }

  // ----- Splitting children into first, middle and last -----

  lemma FirstAndRest(t: Subtree, c: Subtree)
    requires |t.children| > 0
    ensures SetFirst(t, c).children == [c] + t.children[1..]
    ensures t.children == [First(t)] + t.children[1..]
  {
  }

  lemma FrontAndLast(t: Subtree, c: Subtree)
    requires |t.children| > 0
    ensures SetLast(t, c).children == t.children[..|t.children| - 1] + [c]
    ensures t.children == t.children[..|t.children| - 1] + [Last(t)]
  {
  }

  // ----- Text -----

  /** The same leaves in the same order, under as many nodes. */
  predicate EqualText(a: Subtree, b: Subtree) {
    Leaves(a) == Leaves(b) && NodeCount(a) == NodeCount(b)
  }

  /** What rotations never touch. */
  predicate SameText(a: Subtree, b: Subtree) {
    a.head == b.head && |a.children| == |b.children| && EqualText(a, b)
  }

  lemma SwapFirst(t: Subtree, c: Subtree)
    requires |t.children| > 0 && EqualText(c, First(t))
    ensures SameText(SetFirst(t, c), t)
  {
    FirstAndRest(t, c);
    Cons(c, t.children[1..]);
    Cons(First(t), t.children[1..]);
  }

  lemma SwapLast(t: Subtree, c: Subtree)
    requires |t.children| > 0 && EqualText(c, Last(t))
    ensures SameText(SetLast(t, c), t)
  {
    FrontAndLast(t, c);
    Snoc(t.children[..|t.children| - 1], c);
    Snoc(t.children[..|t.children| - 1], Last(t));
  }

  /** Summarizing looks only at children that it leaves alone. */
  ghost predicate KeepsText(sm: Summarizing) {
    forall t :: sm(t).children == t.children && SameText(sm(t), t)
  }

  lemma SummarizerKeepsText(lang: Language)
    ensures KeepsText(Summarizer(lang))
  {
    forall t
      ensures var s := Summarizer(lang)(t); s.children == t.children && SameText(s, t)
    {
    }
  }

  lemma RefreshedKeepsText(sm: Summarizing, t: Subtree)
    requires |t.children| > 0 && KeepsText(sm)
    ensures SameText(Refreshed(sm, t), t)
  {
    SwapLast(t, sm(Last(t)));
  }

  lemma ResummarizedKeepsText(sm: Summarizing, t: Subtree)
    requires KeepsText(sm)
    ensures SameText(Resummarized(sm, t), t)
  {
    if |t.children| > 0 && |First(t).children| > 0 {
      RefreshedKeepsText(sm, First(t));
      SwapFirst(t, Refreshed(sm, First(t)));
    }
  }

  /** The child c with first child g, and g once it has adopted c, hold the same text. */
  lemma Regrouped(c: Subtree, g: Subtree)
    requires |c.children| >= 2 && First(c) == g && |g.children| >= 2
    ensures EqualText(SetLast(g, SetFirst(c, Last(g))), c)
  {
    var (gs, x, cs) := (g.children[..|g.children| - 1], Last(g), c.children[1..]);
    var c' := SetFirst(c, x);
    FrontAndLast(g, c');
    FirstAndRest(c, x);
    Snoc(gs, x);
    Snoc(gs, c');
    Cons(g, cs);
    Cons(x, cs);
    assert LeavesOf(gs) + Leaves(x) + LeavesOf(cs) == LeavesOf(gs) + (Leaves(x) + LeavesOf(cs));
  }

  lemma RotateKeepsText(t: Subtree, symbol: Symbol)
    requires CanRotate(t, symbol)
    ensures SameText(Rotate(t), t)
  {
    var (c, g) := (First(t), First(First(t)));
    Regrouped(c, g);
    SwapFirst(t, SetLast(g, SetFirst(c, Last(g))));
  }

  /** Compressing keeps the leaves in order and the number of nodes. */
  lemma {:induction false} CompressKeepsText(sm: Summarizing, t: Subtree, symbol: Symbol, count: nat)
    requires KeepsText(sm)
    ensures SameText(CompressTree(sm, t, symbol, count), t)
    decreases count
  {
    if count == 0 || !CanRotate(t, symbol) {
    } else {
      var r := Rotate(t);
      var x := CompressTree(sm, First(r), symbol, count - 1);
      RotateKeepsText(t, symbol);
      CompressKeepsText(sm, First(r), symbol, count - 1);
      SwapFirst(r, x);
      ResummarizedKeepsText(sm, SetFirst(r, x));
    }
  }

  // ----- Summaries -----

  /** The same to a node with the given symbol. */
  predicate SameContribution(symbol: Symbol, a: Subtree, b: Subtree) {
    PlainSums(symbol, a) == PlainSums(symbol, b) && a.LeafSymbol() == b.LeafSymbol() && a.LeafState() == b.LeafState()
  }

  /** Putting a child with the same contribution first, and summarizing, leaves the summary as it was. */
  lemma SwapFirstSound(repeats: set<Symbol>, lang: Language, u: Subtree, c: Subtree, symbol: Symbol)
    requires Sound(repeats, lang, u) && u.head.symbol in repeats && |u.children| >= 2 && symbol == u.head.symbol
    requires Sound(repeats, lang, c) && SameContribution(symbol, c, First(u))
    ensures var r := Summarized(lang, SetFirst(u, c)); Sound(repeats, lang, r) && r.sum == u.sum
  {
    FirstAndRest(u, c);
    PlainCons(symbol, c, u.children[1..]);
    PlainCons(symbol, First(u), u.children[1..]);
    SoundChildren(repeats, lang, SetFirst(u, c));
    SameContributions(lang, SetFirst(u, c), u);
  }

  lemma RegroupedSums(symbol: Symbol, gs: Sums, x: Sums, cs: Sums)
    ensures HandedOn(symbol, Combine(gs, HandedOn(symbol, Combine(x, cs))))
            == HandedOn(symbol, Combine(HandedOn(symbol, Combine(gs, x)), cs))
  {
    HandedOnTwice(symbol, gs, Combine(x, cs));
    HandedOnTwice(symbol, Combine(gs, x), cs);
    CombineAssociative(gs, x, cs);
  }

  /** The adopted child, summarized, and then the adopting grandchild: the grandchild now contributes what
      the child did. */
  lemma GrandchildTakesOver(repeats: set<Symbol>, lang: Language, c: Subtree, g: Subtree, symbol: Symbol)
    requires Sound(repeats, lang, c) && Sound(repeats, lang, g) && symbol in repeats
    requires c.head.symbol == symbol && g.head.symbol == symbol
    requires |c.children| >= 2 && First(c) == g && |g.children| >= 2
    ensures var r := Summarized(lang, SetLast(g, Summarized(lang, SetFirst(c, Last(g)))));
            Sound(repeats, lang, r) && SameContribution(symbol, r, c)
  {
    var (gs, x, cs) := (g.children[..|g.children| - 1], Last(g), c.children[1..]);
    var c' := Summarized(lang, SetFirst(c, x));
    var r := Summarized(lang, SetLast(g, c'));
    FrontAndLast(g, c');
    FirstAndRest(c, x);
    SoundChildren(repeats, lang, SetFirst(c, x));
    SoundChildren(repeats, lang, SetLast(g, c'));
    HiddenNodeStandsForChildren(lang, c', symbol);
    HiddenNodeStandsForChildren(lang, r, symbol);
    HiddenNodeStandsForChildren(lang, c, symbol);
    HiddenNodeStandsForChildren(lang, g, symbol);
    PlainSnoc(symbol, gs, x);
    PlainSnoc(symbol, gs, c');
    PlainCons(symbol, g, cs);
    PlainCons(symbol, x, cs);
    RegroupedSums(symbol, PlainProduct(symbol, gs), PlainSums(symbol, x), PlainProduct(symbol, cs));
    assert First(r) == First(g);
  }

  lemma RefreshedAfterSwap(lang: Language, t: Subtree, c: Subtree)
    requires |t.children| >= 2
    ensures var (sm, u) := (Summarizer(lang), Refreshed(Summarizer(lang), t));
            && Refreshed(sm, sm(SetFirst(t, c))) == Summarized(lang, SetFirst(u, c))
            && First(u) == First(t) && u.head == t.head && |u.children| == |t.children|
  {
    var (sm, u) := (Summarizer(lang), Refreshed(Summarizer(lang), t));
    var r := sm(SetFirst(t, c));
    assert Refreshed(sm, r).children == SetFirst(u, c).children;
    SameSummary(lang, SetLast(r, sm(Last(r))), SetFirst(u, c));
  }

  lemma {:induction false} CompressUnrolled(sm: Summarizing, t: Subtree, r: Subtree, symbol: Symbol, count: nat)
    requires count > 0 && CanRotate(t, symbol) && r == Rotate(t)
    ensures CompressTree(sm, t, symbol, count)
            == Resummarized(sm, SetFirst(r, CompressTree(sm, First(r), symbol, count - 1)))
  {
  }

  lemma ResummarizedFirst(sm: Summarizing, t: Subtree, g: Subtree, x: Subtree)
    requires |t.children| > 0 && |x.children| > 0
    ensures Resummarized(sm, SetFirst(SetFirst(t, g), x)) == sm(SetFirst(t, Refreshed(sm, x)))
  {
    SetFirstTwice(t, g, x);
    SetFirstTwice(t, x, Refreshed(sm, x));
  }

  lemma SameRest(sm: Summarizing, t: Subtree, symbol: Symbol, count: nat, rest: nat)
    requires count == rest + 1
    ensures CompressTree(sm, t, symbol, count - 1) == CompressTree(sm, t, symbol, rest)
  {
  }

  /** The tree after a first rotation has a first child that went through the remaining rotations. */
  lemma CompressByFirst(sm: Summarizing, t: Subtree, r: Subtree, symbol: Symbol, count: nat, rest: nat)
    requires count == rest + 1 && CanRotate(t, symbol) && r == Rotate(t)
    requires |CompressTree(sm, First(r), symbol, rest).children| > 0
    ensures CompressTree(sm, t, symbol, count)
            == sm(SetFirst(t, Refreshed(sm, CompressTree(sm, First(r), symbol, rest))))
  {
    SameRest(sm, First(r), symbol, count, rest);
    CompressUnrolled(sm, t, r, symbol, count);
    ResummarizedFirst(sm, t, First(r), CompressTree(sm, First(r), symbol, rest));
  }

  lemma RotatedChildRefreshed(lang: Language, c: Subtree, g: Subtree)
    requires |c.children| >= 2 && First(c) == g && |g.children| >= 2
    ensures var g' := SetLast(g, SetFirst(c, Last(g)));
            Refreshed(Summarizer(lang), g') == Summarized(lang, SetLast(g, Summarized(lang, SetFirst(c, Last(g)))))
  {
    var (sm, g') := (Summarizer(lang), SetLast(g, SetFirst(c, Last(g))));
    assert SetLast(g', sm(Last(g'))) == SetLast(g, sm(Last(g')));
  }

  /** Compressing recomputes the same summaries.  The node that is handed on from one rotation to the next
      has a last child that is yet to be summarized, hence `Refreshed`. */
  lemma {:induction false} CompressRefreshed(
    repeats: set<Symbol>, lang: Language, t: Subtree, symbol: Symbol, count: nat)
    requires symbol in repeats && t.head.symbol == symbol && |t.children| >= 2
    requires Sound(repeats, lang, Refreshed(Summarizer(lang), t))
    ensures var (sm, r) := (Summarizer(lang), CompressTree(Summarizer(lang), t, symbol, count));
            && r.head == t.head && |r.children| == |t.children|
            && Sound(repeats, lang, Refreshed(sm, r))
            && Refreshed(sm, r).sum == Refreshed(sm, t).sum
    decreases count, 1
  {
    if count > 0 && CanRotate(t, symbol) {
      RefreshedAfterSwap(lang, t, First(t));
      var c := CompressedFirst(repeats, lang, t, symbol, count);
      SwapFirstSound(repeats, lang, Refreshed(Summarizer(lang), t), c, symbol);
      RefreshedAfterSwap(lang, t, c);
    }
  }

  /** After rotating, the new first child is summarized and contributes what the old one did. */
  lemma {:induction false} CompressedFirst(
    repeats: set<Symbol>, lang: Language, t: Subtree, symbol: Symbol, count: nat) returns (c: Subtree)
    requires symbol in repeats && count > 0 && CanRotate(t, symbol) && Sound(repeats, lang, First(t))
    ensures CompressTree(Summarizer(lang), t, symbol, count) == Summarized(lang, SetFirst(t, c))
    ensures Sound(repeats, lang, c) && SameContribution(symbol, c, First(t))
    decreases count, 0
  {
    var sm := Summarizer(lang);
    var r := Rotate(t);
    var rest := count - 1;
    TakenOver(repeats, lang, t, symbol);
    CompressRefreshed(repeats, lang, First(r), symbol, rest);
    CompressByFirst(sm, t, r, symbol, count, rest);
    c := Refreshed(sm, CompressTree(sm, First(r), symbol, rest));
    SameSumContributes(symbol, c, Refreshed(sm, First(r)), First(t));
  }

  /** The grandchild, once it has the child's place and is summarized, contributes what the child did. */
  lemma TakenOver(repeats: set<Symbol>, lang: Language, t: Subtree, symbol: Symbol)
    requires symbol in repeats && CanRotate(t, symbol) && Sound(repeats, lang, First(t))
    ensures var (g', r) := (First(Rotate(t)), Refreshed(Summarizer(lang), First(Rotate(t))));
            && g'.head.symbol == symbol && |g'.children| >= 2
            && Sound(repeats, lang, r) && SameContribution(symbol, r, First(t))
            && r.head == g'.head && |r.children| == |g'.children|
  {
    var (child, g) := (First(t), First(First(t)));
    assert First(Rotate(t)) == SetLast(g, SetFirst(child, Last(g)));
    GrandchildTakesOver(repeats, lang, child, g, symbol);
    RotatedChildRefreshed(lang, child, g);
  }

  lemma SameSumContributes(symbol: Symbol, a: Subtree, b: Subtree, c: Subtree)
    requires a.sum == b.sum && a.head == b.head && |a.children| == |b.children| && SameContribution(symbol, b, c)
    ensures SameContribution(symbol, a, c)
  {
  }

  /** Rotations on a summarized tree keep its summary and leave every node below it summarized. */
  lemma CompressKeepsSummary(repeats: set<Symbol>, lang: Language, t: Subtree, count: nat)
    requires Sound(repeats, lang, t) && t.head.symbol in repeats
    ensures var r := CompressTree(Summarizer(lang), t, t.head.symbol, count);
            Sound(repeats, lang, r) && r.sum == t.sum && r.head == t.head && |r.children| == |t.children|
  {
    if count > 0 && CanRotate(t, t.head.symbol) {
      var c := CompressedFirst(repeats, lang, t, t.head.symbol, count);
      SwapFirstSound(repeats, lang, t, c, t.head.symbol);
    }
  }
}
