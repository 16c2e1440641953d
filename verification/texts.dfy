/** The texts that extents measure, and trees laid over a text (length.h, point.h, lexer.c). */
module Texts {
  import opened Lengths
  import opened Subtrees
  import opened Summaries

  /** A text as its bytes. */
  type Text = seq<int>

  const LINE_FEED := 10

  /** The line breaks among the bytes from i to j. */
  function Breaks(w: Text, i: nat, j: nat): nat
    requires i <= j <= |w|
  {
    if i == j then 0 else Breaks(w, i, j - 1) + (if w[j - 1] == LINE_FEED then 1 else 0)
  }

  /** The bytes after the last line break among those from i to j. */
  function LastLine(w: Text, i: nat, j: nat): nat
    requires i <= j <= |w|
  {
    if i == j || w[j - 1] == LINE_FEED then 0 else LastLine(w, i, j - 1) + 1
  }

  /** How the lexer measures the bytes from i to j: their number, the line breaks, and the bytes since the last one. */
  function Span(w: Text, i: nat, j: nat): (r: Length)
    requires i <= j <= |w|
    ensures r.bytes == j - i
  {
    Length(j - i, Point(Breaks(w, i, j), LastLine(w, i, j)))
  }

  /** The extent of a text. */
  function Extent(s: Text): Length {
    Span(s, 0, |s|)
  }

  lemma {:induction false} BreaksOfSum(w: Text, i: nat, j: nat, k: nat)
    requires i <= j <= k <= |w|
    ensures Breaks(w, i, k) == Breaks(w, i, j) + Breaks(w, j, k)
    decreases k
  {
    if j == k {
    } else {
      BreaksOfSum(w, i, j, k - 1);
    }
  }

  /** A text without line breaks is all last line. */
  lemma {:induction false} LastLineOfSum(w: Text, i: nat, j: nat, k: nat)
    requires i <= j <= k <= |w|
    ensures LastLine(w, i, k) == if Breaks(w, j, k) > 0 then LastLine(w, j, k) else LastLine(w, i, j) + (k - j)
    ensures Breaks(w, j, k) == 0 ==> LastLine(w, j, k) == k - j
    decreases k
  {
    if j == k {
    } else {
      LastLineOfSum(w, i, j, k - 1);
    }
  }

  /** `length_add` measures texts laid end to end, and the subtractions take a text off the front. */
  lemma SpanOfSum(w: Text, i: nat, j: nat, k: nat)
    requires i <= j <= k <= |w|
    ensures Span(w, i, k) == LengthAdd(Span(w, i, j), Span(w, j, k))
    ensures LengthSub(Span(w, i, k), Span(w, i, j)) == Span(w, j, k)
    ensures LengthSaturatingSub(Span(w, i, k), Span(w, i, j)) == Span(w, j, k)
  {
    BreaksOfSum(w, i, j, k);
    LastLineOfSum(w, i, j, k);
    SubUndoesAdd(Span(w, i, j), Span(w, j, k));
    SaturatingSubUndoesAdd(Span(w, i, j), Span(w, j, k));
    EmptySpan(w, j);
  }

  lemma EmptySpan(w: Text, i: nat)
    requires i <= |w|
    ensures Span(w, i, i) == LENGTH_ZERO
  {
  }

  /** The same n bytes in two texts. */
  predicate SameBytes(v: Text, i: nat, w: Text, j: nat, n: nat) {
    i + n <= |v| && j + n <= |w| && v[i..i + n] == w[j..j + n]
  }

  lemma {:induction false} SameSpan(v: Text, i: nat, w: Text, j: nat, n: nat)
    requires SameBytes(v, i, w, j, n)
    ensures Span(v, i, i + n) == Span(w, j, j + n)
    decreases n
  {
    if n == 0 {
    } else {
      var m := n - 1;
      assert v[i..i + m] == v[i..i + n][..m] && w[j..j + m] == w[j..j + n][..m];
      assert v[i + m] == v[i..i + n][m] && w[j + m] == w[j..j + n][m];
      SameSpan(v, i, w, j, m);
    }
  }

  /** `length_add` and `length_sub` on texts that are put together. */
  lemma ExtentOfSum(s: Text, t: Text)
    ensures Extent(s + t) == LengthAdd(Extent(s), Extent(t))
    ensures LengthSub(Extent(s + t), Extent(s)) == Extent(t)
    ensures LengthSaturatingSub(Extent(s + t), Extent(s)) == Extent(t)
  {
    assert (s + t)[0..0 + |s|] == s == s[0..0 + |s|];
    assert (s + t)[|s|..|s| + |t|] == t == t[0..0 + |t|];
    SameSpan(s + t, 0, s, 0, |s|);
    SameSpan(s + t, |s|, t, 0, |t|);
    SpanOfSum(s + t, 0, |s|, |s + t|);
  }

  lemma {:induction false} NoBreaks(w: Text, i: nat, j: nat)
    requires i <= j <= |w| && forall k | i <= k < j :: w[k] != LINE_FEED
    ensures Breaks(w, i, j) == 0
    decreases j
  {
    if i == j {
    } else {
      NoBreaks(w, i, j - 1);
    }
  }

  /** The lexer measures a text character by character: a line feed starts a new row, and any other character adds its
      bytes to the column. */
  lemma AdvanceMeasures(s: Text, c: Text)
    requires c == [LINE_FEED] || LINE_FEED !in c
    ensures var at := Extent(s);
            Extent(s + c) == if c == [LINE_FEED] then Length(at.bytes + 1, Point(at.extent.row + 1, 0))
                             else Length(at.bytes + |c|, Point(at.extent.row, at.extent.column + |c|))
  {
    ExtentOfSum(s, c);
    if c == [LINE_FEED] {
      assert Breaks(c, 0, 0) == 0 && Breaks(c, 0, 1) == 1;
    } else {
      NoBreaks(c, 0, |c|);
      LastLineOfSum(c, 0, 0, |c|);
    }
  }

  lemma ExtentOfFront(w: Text, j: nat)
    requires j <= |w|
    ensures Extent(w[..j]) == Span(w, 0, j)
  {
    assert w[..j][0..0 + j] == w[0..0 + j];
    SameSpan(w[..j], 0, w, 0, j);
  }

  // ----- Trees laid over a text -----

  /** From its left edge on, the node lies over this text: its padding and size are the extents of what they cover. */
  predicate LiesOver(t: Subtree, w: Text, left: nat) {
    && left + t.TotalBytes() <= |w|
    && t.sum.padding == Span(w, left, left + t.sum.padding.bytes)
    && t.sum.size == Span(w, left + t.sum.padding.bytes, left + t.TotalBytes())
  }

  /** So does everything below it. */
  predicate Measures(t: Subtree, w: Text, left: nat)
    decreases t, 1
  {
    && LiesOver(t, w, left)
    && (|t.children| > 0 ==>
          t.children[0].sum.padding.bytes == t.sum.padding.bytes && Left(t.children, |t.children|) == t.TotalBytes())
    && forall i | 0 <= i < |t.children| :: ChildMeasures(t, i, w, left)
  }

  predicate ChildMeasures(t: Subtree, i: nat, w: Text, left: nat)
    requires i < |t.children|
    decreases t, 0
  {
    Measures(t.children[i], w, left + Left(t.children, i))
  }

  lemma MeasuredChild(t: Subtree, i: nat, w: Text, left: nat)
    requires Measures(t, w, left) && i < |t.children|
    ensures Measures(t.children[i], w, left + Left(t.children, i))
  {
    assert ChildMeasures(t, i, w, left);
  }

  lemma {:induction false} MeasuresLaysOut(t: Subtree, w: Text, left: nat)
    requires Measures(t, w, left)
    ensures Layout(t)
    decreases t
  {
    if |t.children| == 0 {
    } else {
      forall i | 0 <= i < |t.children|
        ensures Layout(t.children[i])
      {
        MeasuredChild(t, i, w, left);
        MeasuresLaysOut(t.children[i], w, left + Left(t.children, i));
      }
    }
  }

  lemma TotalInText(t: Subtree, w: Text, left: nat)
    requires LiesOver(t, w, left)
    ensures t.TotalSize() == Span(w, left, left + t.TotalBytes())
  {
    SpanOfSum(w, left, left + t.sum.padding.bytes, left + t.TotalBytes());
  }

  predicate ChildLies(cs: seq<Subtree>, i: nat, w: Text, left: nat)
    requires i < |cs|
  {
    LiesOver(cs[i], w, left + Left(cs, i))
  }

  lemma ChildrenLie(t: Subtree, w: Text, left: nat)
    requires forall i | 0 <= i < |t.children| :: ChildMeasures(t, i, w, left)
    ensures forall i | 0 <= i < |t.children| :: ChildLies(t.children, i, w, left)
  {
    forall i | 0 <= i < |t.children|
      ensures ChildLies(t.children, i, w, left)
    {
      assert ChildMeasures(t, i, w, left);
      assert Measures(t.children[i], w, left + Left(t.children, i));
    }
  }

  lemma StepInText(cs: seq<Subtree>, w: Text, left: nat, i: nat, next: nat)
    requires next == i + 1 <= |cs| && left <= |w| && ChildLies(cs, i, w, left)
    ensures Left(cs, next) == Left(cs, i) + cs[i].TotalBytes() && left + Left(cs, next) <= |w|
    ensures Prefix(cs, next) == LengthAdd(Prefix(cs, i), Span(w, left + Left(cs, i), left + Left(cs, next)))
  {
    TotalInText(cs[i], w, left + Left(cs, i));
  }

  /** The children before the k-th have the extent of the text before it. */
  lemma {:induction false} PrefixInText(cs: seq<Subtree>, w: Text, left: nat, k: nat)
    requires k <= |cs| && left <= |w| && forall i | 0 <= i < k :: ChildLies(cs, i, w, left)
    ensures left + Left(cs, k) <= |w|
    ensures Prefix(cs, k) == Span(w, left, left + Left(cs, k))
    decreases k
  {
    if k == 0 {
      EmptySpan(w, left);
    } else {
      var i := k - 1;
      PrefixInText(cs, w, left, i);
      StepInText(cs, w, left, i, k);
      SpanOfSum(w, left, left + Left(cs, i), left + Left(cs, k));
    }
  }

  /** Every node lies over its own part of the text. */
  lemma {:induction false} MeasuresAt(t: Subtree, w: Text, left: nat, p: Path)
    requires Measures(t, w, left) && ValidPath(t, p)
    ensures Measures(At(t, p), w, left + LeftEdge(t, p))
    decreases p
  {
    if p == [] {
    } else {
      MeasuredChild(t, p[0], w, left);
      MeasuresAt(t.children[p[0]], w, left + Left(t.children, p[0]), p[1..]);
    }
  }

  lemma NextStart(a: Subtree, b: Subtree, w: Text, from: nat, to: nat)
    requires LiesOver(a, w, from) && LiesOver(b, w, to) && to == from + a.TotalBytes()
    ensures LengthAdd(LengthAdd(Span(w, 0, from + a.sum.padding.bytes), a.sum.size), b.sum.padding)
            == Span(w, 0, to + b.sum.padding.bytes)
  {
    SpanOfSum(w, 0, from + a.sum.padding.bytes, to);
    SpanOfSum(w, 0, to, to + b.sum.padding.bytes);
  }

  /** A child iterator gives every child the extent of the text before its content. */
  lemma {:induction false} ChildStartInText(cs: seq<Subtree>, w: Text, left: nat, i: nat, start: Length)
    requires i < |cs| && left <= |w| && forall j | 0 <= j < |cs| :: ChildLies(cs, j, w, left)
    requires left + cs[0].sum.padding.bytes <= |w| && start == Span(w, 0, left + cs[0].sum.padding.bytes)
    ensures var x := left + Left(cs, i) + cs[i].sum.padding.bytes;
            x <= |w| && ChildStart(cs, i, start) == Span(w, 0, x)
    decreases i
  {
    assert ChildLies(cs, i, w, left);
    if i > 0 {
      var j := i - 1;
      ChildStartInText(cs, w, left, j, start);
      assert ChildLies(cs, j, w, left);
      StepInText(cs, w, left, j, i);
      NextStart(cs[j], cs[i], w, left + Left(cs, j), left + Left(cs, i));
    }
  }

  lemma StepDownInText(t: Subtree, w: Text, left: nat, start: Length, i: nat)
    requires Measures(t, w, left) && i < |t.children| && start == Span(w, 0, left + t.sum.padding.bytes)
    ensures var (c, from) := (t.children[i], left + Left(t.children, i));
            Measures(c, w, from) && ChildStart(t.children, i, start) == Span(w, 0, from + c.sum.padding.bytes)
  {
    ChildrenLie(t, w, left);
    ChildStartInText(t.children, w, left, i, start);
    MeasuredChild(t, i, w, left);
  }

  /** Walking down finds every node at the extent of the text before its content: its row is the number of line
      breaks there, its column the number of bytes after the last of them. */
  lemma {:induction false} WalkInText(t: Subtree, w: Text, left: nat, start: Length, p: Path)
    requires Measures(t, w, left) && ValidPath(t, p)
    requires start == Span(w, 0, left + t.sum.padding.bytes)
    ensures var x := left + LeftEdge(t, p) + At(t, p).sum.padding.bytes;
            x <= |w| && WalkStart(t, start, p) == Span(w, 0, x)
    decreases p
  {
    if p == [] {
    } else {
      StepDownInText(t, w, left, start, p[0]);
      WalkInText(t.children[p[0]], w, left + Left(t.children, p[0]), ChildStart(t.children, p[0], start), p[1..]);
    }
  }

  // ----- Summaries measure the text of the leaves -----

  /** The leaves cover the text, each with the extents of its own part. */
  predicate LeavesMeasure(t: Subtree, w: Text, left: nat)
    decreases t, 1
  {
    && left <= |w|
    && (|t.children| == 0 ==> LiesOver(t, w, left))
    && forall i | 0 <= i < |t.children| :: LeavesOfChildMeasure(t, i, w, left)
  }

  predicate LeavesOfChildMeasure(t: Subtree, i: nat, w: Text, left: nat)
    requires i < |t.children|
    decreases t, 0
  {
    LeavesMeasure(t.children[i], w, left + Left(t.children, i))
  }

  /** Summarizing measures every node by the text of the leaves below it. */
  lemma {:induction false} SummariesMeasure(lang: Language, t: Subtree, w: Text, left: nat)
    requires WellSummarized(lang, t) && LeavesMeasure(t, w, left)
    ensures Measures(t, w, left)
    decreases t, 1
  {
    if |t.children| == 0 {
    } else {
      assert forall i | 0 <= i < |t.children| :: ChildSummarized(lang, t, i);
      SummariesMeasureChildren(lang, t, w, left);
      ChildrenLie(t, w, left);
      SummaryInText(lang, t, w, left);
    }
  }

  predicate ChildSummarized(lang: Language, t: Subtree, i: nat)
    requires i < |t.children|
  {
    WellSummarized(lang, t.children[i])
  }

  lemma {:induction false} SummariesMeasureChildren(lang: Language, t: Subtree, w: Text, left: nat)
    requires forall i | 0 <= i < |t.children| :: ChildSummarized(lang, t, i)
    requires forall i | 0 <= i < |t.children| :: LeavesOfChildMeasure(t, i, w, left)
    ensures forall i | 0 <= i < |t.children| :: ChildMeasures(t, i, w, left)
    decreases t, 0
  {
    forall i | 0 <= i < |t.children|
      ensures ChildMeasures(t, i, w, left)
    {
      assert ChildSummarized(lang, t, i) && LeavesOfChildMeasure(t, i, w, left);
      SummariesMeasure(lang, t.children[i], w, left + Left(t.children, i));
    }
  }

  lemma SummaryInText(lang: Language, t: Subtree, w: Text, left: nat)
    requires |t.children| > 0 && t.sum == SummaryOf(lang, t) && left <= |w|
    requires forall i | 0 <= i < |t.children| :: ChildLies(t.children, i, w, left)
    ensures LiesOver(t, w, left)
    ensures t.children[0].sum.padding.bytes == t.sum.padding.bytes
    ensures Left(t.children, |t.children|) == t.TotalBytes()
  {
    ProductInText(lang, t, w, left, |t.children|);
  }

  /** The sums over children from `left` to `end` are extents of the text. */
  predicate IsMeasured(p: Sums, w: Text, left: nat, end: nat) {
    && p.Sums? && left + p.padding.bytes + p.size.bytes == end <= |w|
    && p.padding == Span(w, left, left + p.padding.bytes) && p.size == Span(w, left + p.padding.bytes, end)
  }

  lemma CombineInText(p: Sums, q: Sums, w: Text, left: nat, middle: nat, end: nat)
    requires IsMeasured(p, w, left, middle) && IsMeasured(q, w, middle, end)
    ensures IsMeasured(Combine(p, q), w, left, end) && Combine(p, q).padding == p.padding
  {
    SpanOfSum(w, middle, middle + q.padding.bytes, end);
    SpanOfSum(w, left + p.padding.bytes, middle, end);
  }

  lemma {:induction false} ProductInText(lang: Language, t: Subtree, w: Text, left: nat, k: nat)
    requires 0 < k <= |t.children| && left <= |w|
    requires forall i | 0 <= i < |t.children| :: ChildLies(t.children, i, w, left)
    ensures IsMeasured(Product(lang, t, k), w, left, left + Left(t.children, k))
    ensures Product(lang, t, k).padding == t.children[0].sum.padding
    decreases k
  {
    if k == 1 {
      FirstInText(lang, t, w, left);
    } else {
      ProductInText(lang, t, w, left, k - 1);
      ProductStep(lang, t, w, left, k - 1, k);
    }
  }

  function SumsAt(lang: Language, t: Subtree, i: nat): Sums
    requires i < |t.children|
  {
    SumsOf(lang, t, StructuralIndex(t.children, i), t.children[i])
  }

  lemma OneInText(lang: Language, t: Subtree, i: nat, w: Text, from: nat)
    requires i < |t.children| && LiesOver(t.children[i], w, from)
    ensures IsMeasured(SumsAt(lang, t, i), w, from, from + t.children[i].TotalBytes())
    ensures SumsAt(lang, t, i).padding == t.children[i].sum.padding
  {
  }

  lemma FirstInText(lang: Language, t: Subtree, w: Text, left: nat)
    requires |t.children| > 0 && left <= |w| && ChildLies(t.children, 0, w, left)
    ensures IsMeasured(Product(lang, t, 1), w, left, left + Left(t.children, 1))
    ensures Product(lang, t, 1).padding == t.children[0].sum.padding
  {
    assert Product(lang, t, 0) == Nothing;
    assert Product(lang, t, 1) == SumsAt(lang, t, 0);
    StepInText(t.children, w, left, 0, 1);
    assert Left(t.children, 0) == 0;
    OneInText(lang, t, 0, w, left);
  }

  lemma ProductStep(lang: Language, t: Subtree, w: Text, left: nat, j: nat, k: nat)
    requires 0 < j && k == j + 1 <= |t.children| && left <= |w| && ChildLies(t.children, j, w, left)
    requires IsMeasured(Product(lang, t, j), w, left, left + Left(t.children, j))
    ensures IsMeasured(Product(lang, t, k), w, left, left + Left(t.children, k))
    ensures Product(lang, t, k).padding == Product(lang, t, j).padding
  {
    var (from, to) := (left + Left(t.children, j), left + Left(t.children, k));
    StepInText(t.children, w, left, j, k);
    OneInText(lang, t, j, w, from);
    CombineInText(Product(lang, t, j), SumsAt(lang, t, j), w, left, from, to);
  }
}
