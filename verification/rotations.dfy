/** Rotating chains of repeat nodes (ts_subtree__compress), and what rotations keep. */
module Rotations {
  import opened Subtrees
  import opened Summaries
  import opened Worklists

  function First(t: Subtree): Subtree
    requires |t.children| > 0
  {
    t.children[0]
  }

  function Last(t: Subtree): Subtree
    requires |t.children| > 0
  {
    t.children[|t.children| - 1]
  }

  function SetFirst(t: Subtree, c: Subtree): Subtree
    requires |t.children| > 0
  {
    SetChild(t, 0, c)
  }

  function SetLast(t: Subtree, c: Subtree): Subtree
    requires |t.children| > 0
  {
    SetChild(t, |t.children| - 1, c)
  }

  /** The tree, its first child and that one's first child are unshared, and the two are nodes of this symbol. */
  predicate CanRotate(t: Subtree, symbol: Symbol) {
    && t.head.refCount <= 1
    && |t.children| >= 2
    && IsLink(First(t), symbol)
    && IsLink(First(First(t)), symbol)
  }

  predicate IsLink(c: Subtree, symbol: Symbol) {
    |c.children| >= 2 && c.head.refCount <= 1 && c.head.symbol == symbol
  }

  /** The grandchild takes the child's place and adopts it as its last child; summaries are not touched. */
  function Rotate(t: Subtree): Subtree
    requires |t.children| > 0 && |First(t).children| > 0 && |First(First(t)).children| > 0
  {
    var (child, grandchild) := (First(t), First(First(t)));
    SetFirst(t, SetLast(grandchild, SetFirst(child, Last(grandchild))))
  }

  /** How a node's summary is recomputed; rotations only decide which nodes it is applied to. */
  type Summarizing = Subtree -> Subtree

  function Summarizer(lang: Language): Summarizing {
    t => Summarized(lang, t)
  }

  /** Summarizes the last child of a node, then the node. */
  function Refreshed(sm: Summarizing, t: Subtree): Subtree
    requires |t.children| > 0
  {
    sm(SetLast(t, sm(Last(t))))
  }

  /** Summarizes, from the bottom up, the three nodes that took part in a rotation. */
  function Resummarized(sm: Summarizing, t: Subtree): Subtree {
    if |t.children| == 0 || |First(t).children| == 0 then t else sm(SetFirst(t, Refreshed(sm, First(t))))
  }

  /** Up to `count` rotations, each one level below the last. */
  function CompressTree(sm: Summarizing, t: Subtree, symbol: Symbol, count: nat): Subtree
    decreases count
  {
    if count == 0 || !CanRotate(t, symbol) then t
    else
      var r := Rotate(t);
      Resummarized(sm, SetFirst(r, CompressTree(sm, First(r), symbol, count - 1)))
  }

  // ----- The two loops; a pointer to a node on the left spine is its depth -----

  predicate HasSpine(t: Subtree, k: nat) {
    k > 0 ==> |t.children| > 0 && HasSpine(First(t), k - 1)
  }

  function SpineAt(t: Subtree, k: nat): Subtree
    requires HasSpine(t, k)
  {
    if k == 0 then t else SpineAt(First(t), k - 1)
  }

  function SpinePut(t: Subtree, k: nat, n: Subtree): (r: Subtree)
    requires HasSpine(t, k)
  {
    if k == 0 then n else SetFirst(t, SpinePut(First(t), k - 1, n))
  }

  /** The summarizing loop, run from depth k - 1 up to the root. */
  function ResummarizedSpine(sm: Summarizing, t: Subtree, k: nat): Subtree
    requires HasSpine(t, k)
    decreases k
  {
    if k == 0 then t else Resummarized(sm, SetFirst(t, ResummarizedSpine(sm, First(t), k - 1)))
  }

  lemma {:induction false} SpineAfterPut(t: Subtree, k: nat, n: Subtree)
    requires HasSpine(t, k)
    ensures HasSpine(SpinePut(t, k, n), k) && SpineAt(SpinePut(t, k, n), k) == n
    decreases k
  {
    if k == 0 {
    } else {
      SpineAfterPut(First(t), k - 1, n);
    }
  }

  lemma SetFirstTwice(t: Subtree, x: Subtree, y: Subtree)
    requires |t.children| > 0
    ensures SetFirst(SetFirst(t, x), y) == SetFirst(t, y)
  {
    assert SetFirst(SetFirst(t, x), y).children == SetFirst(t, y).children;
  }

  lemma {:induction false} SpinePutTwice(t: Subtree, k: nat, n: Subtree, m: Subtree)
    requires HasSpine(t, k)
    ensures HasSpine(SpinePut(t, k, n), k)
    ensures SpinePut(SpinePut(t, k, n), k, m) == SpinePut(t, k, m)
    decreases k
  {
    if k == 0 {
    } else {
      SpinePutTwice(First(t), k - 1, n, m);
      var x := SpinePut(First(t), k - 1, n);
      SetFirstTwice(t, x, SpinePut(x, k - 1, m));
    }
  }

  lemma {:induction false} SpinePutSame(t: Subtree, k: nat)
    requires HasSpine(t, k)
    ensures SpinePut(t, k, SpineAt(t, k)) == t
    decreases k
  {
    if k == 0 {
    } else {
      SpinePutSame(First(t), k - 1);
      assert SetFirst(t, First(t)) == t;
    }
  }

  lemma {:induction false} SpineBelow(t: Subtree, k: nat)
    requires HasSpine(t, k)
    ensures HasSpine(t, k + 1) <==> |SpineAt(t, k).children| > 0
    ensures HasSpine(t, k + 1) ==> SpineAt(t, k + 1) == First(SpineAt(t, k))
    decreases k
  {
    if k == 0 {
    } else {
      SpineBelow(First(t), k - 1);
    }
  }

  lemma {:induction false} SpinePutBelow(t: Subtree, k: nat, x: Subtree)
    requires HasSpine(t, k) && HasSpine(t, k + 1) && |SpineAt(t, k).children| > 0
    ensures SpinePut(t, k + 1, x) == SpinePut(t, k, SetFirst(SpineAt(t, k), x))
    decreases k
  {
    if k == 0 {
    } else {
      SpineBelow(First(t), k - 1);
      SpinePutBelow(First(t), k - 1, x);
    }
  }

  lemma {:induction false} SummarizeStep(sm: Summarizing, t: Subtree, k: nat)
    requires HasSpine(t, k + 1)
    ensures HasSpine(t, k)
    ensures var t' := SpinePut(t, k, Resummarized(sm, SpineAt(t, k)));
            && HasSpine(t', k)
            && ResummarizedSpine(sm, t, k + 1) == ResummarizedSpine(sm, t', k)
    decreases k
  {
    if k == 0 {
      assert SetFirst(t, First(t)) == t;
      assert ResummarizedSpine(sm, First(t), 0) == First(t);
    } else {
      SummarizeStep(sm, First(t), k - 1);
      var t' := SpinePut(t, k, Resummarized(sm, SpineAt(t, k)));
      var x := ResummarizedSpine(sm, First(t'), k - 1);
      assert SetFirst(t', x) == SetFirst(t, x);
    }
  }

  /** The outcome when k levels have been rotated and n rotations are left to do. */
  ghost function Outcome(sm: Summarizing, t: Subtree, symbol: Symbol, k: nat, n: nat): Subtree
    requires HasSpine(t, k)
  {
    SpineAfterPut(t, k, CompressTree(sm, SpineAt(t, k), symbol, n));
    ResummarizedSpine(sm, SpinePut(t, k, CompressTree(sm, SpineAt(t, k), symbol, n)), k)
  }

  lemma RotationStep(sm: Summarizing, t: Subtree, symbol: Symbol, k: nat, n: nat, below: nat, rest: nat)
    requires below == k + 1 && n == rest + 1
    requires HasSpine(t, k) && CanRotate(SpineAt(t, k), symbol)
    ensures var r := SpinePut(t, k, Rotate(SpineAt(t, k)));
            HasSpine(r, below) && Outcome(sm, r, symbol, below, rest) == Outcome(sm, t, symbol, k, n)
  {
    var ra := Rotate(SpineAt(t, k));
    var x := CompressTree(sm, First(ra), symbol, n - 1);
    var (r, u) := (SpinePut(t, k, ra), SpinePut(t, k, SetFirst(ra, x)));
    SpineAfterPut(t, k, ra);
    SpineBelow(r, k);
    SpinePutBelow(r, k, x);
    SpinePutTwice(t, k, ra, SetFirst(ra, x));
    SpineAfterPut(t, k, SetFirst(ra, x));
    SpineBelow(u, k);
    SummarizeStep(sm, u, k);
    SpinePutTwice(t, k, SetFirst(ra, x), Resummarized(sm, SetFirst(ra, x)));
  }

  lemma NothingLeft(sm: Summarizing, t: Subtree, symbol: Symbol, k: nat, n: nat)
    requires HasSpine(t, k) && (n == 0 || !CanRotate(SpineAt(t, k), symbol))
    ensures Outcome(sm, t, symbol, k, n) == ResummarizedSpine(sm, t, k)
  {
    SpinePutSame(t, k);
  }

  /** Summarizes the grandchild, the child and the tree that a rotation has moved; it leaves all three with
      children. */
  method SummarizeMoved(lang: Language, tree: Subtree) returns (r: Subtree)
    requires |tree.children| > 0
    ensures r == Resummarized(Summarizer(lang), tree)
  {
    if |First(tree).children| == 0 {
      return tree;
    }
    var grandchild := Last(First(tree));
    if |grandchild.children| > 0 {
      grandchild := SummarizeChildren(lang, grandchild);
    }
    var child := SummarizeChildren(lang, SetLast(First(tree), grandchild));
    assert child == Refreshed(Summarizer(lang), First(tree));
    r := SummarizeChildren(lang, SetFirst(tree, child));
  }

  /** Summarizes what the rotation at depth k has moved. */
  method SummarizeAt(lang: Language, self: Subtree, k: nat, ghost below: nat) returns (r: Subtree)
    requires below == k + 1 && HasSpine(self, below)
    ensures HasSpine(r, k)
    ensures ResummarizedSpine(Summarizer(lang), r, k) == ResummarizedSpine(Summarizer(lang), self, below)
  {
    SummarizeStep(Summarizer(lang), self, k);
    SpineBelow(self, k);
    var tree := SummarizeMoved(lang, SpineAt(self, k));
    SpineAfterPut(self, k, tree);
    r := SpinePut(self, k, tree);
  }

  /** The second loop of ts_subtree__compress: pops the rotated trees, the deepest first. */
  method SummarizeStack(lang: Language, self: Subtree, rotated: seq<nat>) returns (r: Subtree)
    requires forall k | 0 <= k < |rotated| :: rotated[k] == k
    requires HasSpine(self, |rotated|)
    ensures r == ResummarizedSpine(Summarizer(lang), self, |rotated|)
  {
    r := self;
    var stack := rotated;
    while |stack| > 0
      invariant forall k | 0 <= k < |stack| :: stack[k] == k
      invariant HasSpine(r, |stack|)
      invariant ResummarizedSpine(Summarizer(lang), r, |stack|) == ResummarizedSpine(Summarizer(lang), self, |rotated|)
      decreases |stack|
    {
      ghost var below := |stack|;
      var top := stack[|stack| - 1];
      stack := stack[..|stack| - 1];
      r := SummarizeAt(lang, r, top, below);
    }
  }

  /** The first loop of ts_subtree__compress: rotates down the left spine and stacks the rotated trees. */
  method RotateDown(self: Subtree, symbol: Symbol, count: nat, ghost sm: Summarizing)
    returns (r: Subtree, stack: seq<nat>)
    ensures (forall k | 0 <= k < |stack| :: stack[k] == k) && HasSpine(r, |stack|)
    ensures ResummarizedSpine(sm, r, |stack|) == CompressTree(sm, self, symbol, count)
  {
    r, stack := self, [];
    var tree: nat := 0;
    ghost var left, goal := count, Outcome(sm, self, symbol, 0, count);
    while tree < count
      invariant tree + left == count && |stack| == tree
      invariant forall k | 0 <= k < |stack| :: stack[k] == k
      invariant HasSpine(r, tree) && Outcome(sm, r, symbol, tree, left) == goal
    {
      if !CanRotate(SpineAt(r, tree), symbol) {
        break;
      }
      var below := tree + 1;
      ghost var rest := left - 1;
      RotationStep(sm, r, symbol, tree, left, below, rest);
      r := SpinePut(r, tree, Rotate(SpineAt(r, tree)));
      stack := stack + [tree];
      tree, left := below, rest;
    }
    NothingLeft(sm, r, symbol, tree, left);
  }

  /** ts_subtree__compress. */
  method Compress(lang: Language, self: Subtree, count: nat) returns (r: Subtree)
    ensures r == CompressTree(Summarizer(lang), self, self.head.symbol, count)
  {
    var rotated, stack := RotateDown(self, self.head.symbol, count, Summarizer(lang));
    r := SummarizeStack(lang, rotated, stack);
  }
}
