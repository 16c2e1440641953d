/** Edits with their rows and columns: a tree that measures the old text measures the new text afterwards. */
module EditTexts {
  import opened Options
  import opened Lengths
  import opened Subtrees
  import opened Edits
  import opened EditAgreement
  import opened Texts

  lemma SameWithin(v: Text, i: nat, w: Text, j: nat, n: nat, skip: nat, m: nat)
    requires SameBytes(v, i, w, j, n) && skip + m <= n
    ensures SameBytes(v, i + skip, w, j + skip, m)
    ensures Span(v, i + skip, i + skip + m) == Span(w, j + skip, j + skip + m)
  {
    StretchWithin(v, i, n, skip, m);
    StretchWithin(w, j, n, skip, m);
    SameSpan(v, i + skip, w, j + skip, m);
  }

  lemma StretchWithin(v: Text, i: nat, n: nat, skip: nat, m: nat)
    requires i + n <= |v| && skip + m <= n
    ensures v[i + skip..i + skip + m] == v[i..i + n][skip..skip + m]
  {
    var (a, b) := (v[i + skip..i + skip + m], v[i..i + n][skip..skip + m]);
    assert forall k | 0 <= k < m :: a[k] == v[i + (skip + k)] == b[k];
  }

  /** The points of the edit are those of the texts before and after it. */
  predicate HasPoints(v: Text, from: nat, w: Text, to: nat, e: Edit) {
    && from + e.start.bytes <= |v| && from + e.oldEnd.bytes <= |v| && to + e.newEnd.bytes <= |w|
    && e.start == Span(v, from, from + e.start.bytes)
    && e.oldEnd == Span(v, from, from + e.oldEnd.bytes)
    && e.newEnd == Span(w, to, to + e.newEnd.bytes)
  }

  /** The texts agree up to the start of the edit and, as far as `total` goes, from its ends on. */
  predicate Replaces(v: Text, from: nat, w: Text, to: nat, c: Cut, total: nat) {
    && SameBytes(v, from, w, to, c.start)
    && SameBytes(v, from + c.oldEnd, w, to + c.newEnd, Monus(total, c.oldEnd))
  }

  /** The edit turns text v into text w, as seen from a node of this total that begins at `from` in v and at `to` in
      w. */
  predicate Rewrites(v: Text, from: nat, w: Text, to: nat, e: Edit, total: nat) {
    && e.Ordered() && from + total <= |v|
    && HasPoints(v, from, w, to, e)
    && Replaces(v, from, w, to, CutOf(e), total)
  }

  // ----- The share of a child, with its points -----

  /** The edit that the loop has when it comes to child k. */
  function EditAt(cs: seq<Subtree>, k: nat, e: Edit): (r: Edit)
    requires k <= |cs| && e.Ordered()
    ensures r.Ordered()
  {
    if k > 0 && e.Touches(Left(cs, k)) then e.Consumed() else e
  }

  /** What it queues for child k, if anything. */
  function ShareOf(cs: seq<Subtree>, k: nat, e: Edit): (r: Edit)
    requires k < |cs| && e.Ordered()
    ensures r.Ordered()
  {
    var r := EditAt(cs, k, e).Relative(Prefix(cs, k));
    if e.Touches(Left(cs, k + 1)) then r else r.Collapsed()
  }

  lemma {:induction false} PlanShare(cs: seq<Subtree>, i: nat, k: nat, e0: Edit, e: Edit, f: Frame)
    requires i <= k < |cs| && e0.Ordered() && e == EditAt(cs, i, e0)
    ensures var q := Plan(cs, i, e, f)[k - i]; q.Some? ==> q.value == ShareOf(cs, k, e0)
    decreases k - i
  {
    LeftMonotonic(cs, i, k);
    if i < k && Continues(cs, i, e, f) {
      var next := i + 1;
      PlanOfLater(cs, i, next, k, e, f);
      PlanShare(cs, next, k, e0, AfterChild(cs, i, e), f);
    }
  }

  lemma QueuedIsShare(t: Subtree, e: Edit, k: nat)
    requires k < |t.children| && e.Ordered()
    ensures QueuedFor(t, e, k).Some? ==> QueuedFor(t, e, k).value == ShareOf(t.children, k, e)
  {
    PlanShare(t.children, 0, k, e, e, FrameOf(t, e));
  }

  // ----- Every child sees the edit as a rewriting of the text -----

  lemma ShiftedPoints(v: Text, from: nat, left: nat, x: nat)
    requires from + left <= |v| && from + x <= |v|
    ensures LengthSaturatingSub(Span(v, from, from + x), Span(v, from, from + left))
            == Span(v, from + left, from + left + Monus(x, left))
  {
    if x > left {
      SpanOfSum(v, from, from + left, from + x);
    } else {
      EmptySpan(v, from + left);
    }
  }

  lemma ConsumedBytes(v: Text, from: nat, w: Text, to: nat, c: Cut, total: nat, left: nat, size: nat)
    requires c.Ordered() && Replaces(v, from, w, to, c, total) && left + size <= total && c.Touches(left)
    requires from + total <= |v| && from + c.oldEnd <= |v| && to + c.newEnd <= |w|
    ensures Replaces(v, from + left, w, to + c.NewTotal(left), c.Consumed().Relative(left), size)
  {
    var (o, newLeft) := (c.oldEnd, c.NewTotal(left));
    SameWithin(v, from + o, w, to + c.newEnd, Monus(total, o), Monus(left, o), Monus(size, Monus(o, left)));
    SameBytesNone(v, from + left, w, to + newLeft);
  }

  /** A child that the insertion has passed can only lose text at its front. */
  lemma ConsumedShare(v: Text, from: nat, w: Text, to: nat, e: Edit, total: nat, left: nat, size: nat)
    requires Rewrites(v, from, w, to, e, total) && left + size <= total && e.Touches(left)
    ensures Rewrites(v, from + left, w, to + CutOf(e).NewTotal(left),
                     e.Consumed().Relative(Span(v, from, from + left)), size)
  {
    ConsumedBytes(v, from, w, to, CutOf(e), total, left, size);
    ShiftedPoints(v, from, left, e.oldEnd.bytes);
    EmptySpan(v, from + left);
    EmptySpan(w, to + CutOf(e).NewTotal(left));
  }

  lemma TouchingBytes(v: Text, from: nat, w: Text, to: nat, c: Cut, total: nat, left: nat, size: nat)
    requires c.Ordered() && Replaces(v, from, w, to, c, total) && left + size <= total && left <= c.start
    ensures Replaces(v, from + left, w, to + left, c.Relative(left), size)
  {
    SameWithin(v, from, w, to, c.start, left, c.start - left);
    SameWithin(v, from + c.oldEnd, w, to + c.newEnd, Monus(total, c.oldEnd), 0, Monus(size, c.oldEnd - left));
  }

  /** The first child to touch the edit takes all of it. */
  lemma TouchingShare(v: Text, from: nat, w: Text, to: nat, e: Edit, total: nat, left: nat, size: nat)
    requires Rewrites(v, from, w, to, e, total) && left + size <= total && left <= e.start.bytes
    ensures Rewrites(v, from + left, w, to + left, e.Relative(Span(v, from, from + left)), size)
  {
    TouchingBytes(v, from, w, to, CutOf(e), total, left, size);
    SameWithin(v, from, w, to, e.start.bytes, 0, left);
    ShiftedPoints(v, from, left, e.start.bytes);
    ShiftedPoints(v, from, left, e.oldEnd.bytes);
    ShiftedPoints(w, to, left, e.newEnd.bytes);
  }

  /** A child before the edit keeps its text. */
  lemma CollapsedShare(v: Text, from: nat, w: Text, to: nat, e: Edit, total: nat, left: nat, size: nat)
    requires Rewrites(v, from, w, to, e, total) && left + size <= total && left + size <= e.start.bytes
    ensures Rewrites(v, from + left, w, to + left, e.Relative(Span(v, from, from + left)).Collapsed(), size)
  {
    var s := e.start.bytes;
    SameWithin(v, from, w, to, s, left, s - left);
    ShiftedPoints(v, from, left, s);
    SameBytesNone(v, from + s, w, to + s);
  }

  lemma SameBytesNone(v: Text, i: nat, w: Text, j: nat)
    requires i <= |v| && j <= |w|
    ensures SameBytes(v, i, w, j, 0)
  {
    assert v[i..i] == w[j..j];
  }

  /** A child without a share keeps its text too. */
  lemma UnqueuedBytes(v: Text, from: nat, w: Text, to: nat, c: Cut, total: nat, left: nat, size: nat, isFirst: bool)
    requires c.Ordered() && Replaces(v, from, w, to, c, total) && left + size <= total && (isFirst ==> left == 0)
    requires left + size < c.start || left > c.oldEnd || (left == c.oldEnd && !isFirst)
    ensures SameBytes(v, from + left, w, to + c.NewLeft(left, isFirst), size)
  {
    if left + size < c.start {
      SameWithin(v, from, w, to, c.start, left, size);
    } else {
      SameWithin(v, from + c.oldEnd, w, to + c.newEnd, Monus(total, c.oldEnd), left - c.oldEnd, size);
    }
  }

  lemma LiesSame(t: Subtree, v: Text, from: nat, w: Text, to: nat)
    requires LiesOver(t, v, from) && SameBytes(v, from, w, to, t.TotalBytes())
    ensures LiesOver(t, w, to)
  {
    var (n, total) := (t.sum.padding.bytes, t.TotalBytes());
    SameWithin(v, from, w, to, total, 0, n);
    SameWithin(v, from, w, to, total, n, total - n);
  }

  lemma ChildSame(t: Subtree, i: nat, v: Text, from: nat, w: Text, to: nat, left: nat)
    requires i < |t.children| && left == Left(t.children, i)
    requires Measures(t, v, from) && SameBytes(v, from, w, to, t.TotalBytes())
    ensures Measures(t.children[i], v, from + left)
    ensures SameBytes(v, from + left, w, to + left, t.children[i].TotalBytes())
  {
    MeasuredChild(t, i, v, from);
    LeftMonotonic(t.children, i + 1, |t.children|);
    NextEdge(t.children, i, i + 1);
    SameWithin(v, from, w, to, t.TotalBytes(), left, t.children[i].TotalBytes());
  }

  /** A tree measures equal stretches of text alike. */
  lemma {:induction false} MeasuresSame(t: Subtree, v: Text, from: nat, w: Text, to: nat)
    requires Measures(t, v, from) && SameBytes(v, from, w, to, t.TotalBytes())
    ensures Measures(t, w, to)
    decreases t
  {
    LiesSame(t, v, from, w, to);
    forall i | 0 <= i < |t.children|
      ensures ChildMeasures(t, i, w, to)
    {
      var left := Left(t.children, i);
      ChildSame(t, i, v, from, w, to, left);
      MeasuresSame(t.children[i], v, from + left, w, to + left);
    }
  }

  /** Padding and size are the extents of stretches of text that lie end to end. */
  predicate Fits(padding: Length, size: Length, w: Text, to: nat) {
    && to + padding.bytes + size.bytes <= |w|
    && padding == Span(w, to, to + padding.bytes)
    && size == Span(w, to + padding.bytes, to + padding.bytes + size.bytes)
  }

  lemma ShiftedSpans(v: Text, from: nat, w: Text, to: nat, o: nat, n: nat, pad: nat, total: nat)
    requires o <= pad <= total && SameBytes(v, from + o, w, to + n, total - o)
    ensures LengthAdd(Span(w, to, to + n), LengthSub(Span(v, from, from + pad), Span(v, from, from + o)))
            == Span(w, to, to + n + (pad - o))
    ensures Span(v, from + pad, from + total) == Span(w, to + n + (pad - o), to + n + (total - o))
  {
    SpanOfSum(v, from, from + o, from + pad);
    SameWithin(v, from + o, w, to + n, total - o, 0, pad - o);
    SpanOfSum(w, to, to + n, to + n + (pad - o));
    SameWithin(v, from + o, w, to + n, total - o, pad - o, total - pad);
  }

  lemma PaddingShifted(t: Subtree, e: Edit, v: Text, from: nat, w: Text, to: nat)
    requires LiesOver(t, v, from) && Rewrites(v, from, w, to, e, t.TotalBytes())
    requires e.oldEnd.bytes <= t.sum.padding.bytes
    ensures Fits(LengthAdd(e.newEnd, LengthSub(t.sum.padding, e.oldEnd)), t.sum.size, w, to)
  {
    ShiftedSpans(v, from, w, to, e.oldEnd.bytes, e.newEnd.bytes, t.sum.padding.bytes, t.TotalBytes());
  }

  lemma ContentShrunk(t: Subtree, e: Edit, v: Text, from: nat, w: Text, to: nat, pad: nat, o: nat, n: nat)
    requires LiesOver(t, v, from) && Rewrites(v, from, w, to, e, t.TotalBytes())
    requires e.start.bytes < pad == t.sum.padding.bytes && pad < o == e.oldEnd.bytes && n == e.newEnd.bytes
    ensures Fits(e.newEnd, LengthSaturatingSub(t.sum.size, LengthSub(e.oldEnd, t.sum.padding)), w, to)
  {
    var kept := Monus(t.TotalBytes(), o);
    SpanOfSum(v, from, from + pad, from + o);
    ShiftedPoints(v, from + pad, o - pad, t.sum.size.bytes);
    SameWithin(v, from + o, w, to + n, kept, 0, kept);
  }

  lemma ResizedSpans(v: Text, from: nat, w: Text, to: nat, pad: nat, o: nat, n: nat, total: nat)
    requires pad <= n && pad <= total && to + n <= |w| && from + o <= |v| && from + total <= |v|
    requires SameBytes(v, from, w, to, pad) && SameBytes(v, from + o, w, to + n, Monus(total, o))
    ensures Span(v, from, from + pad) == Span(w, to, to + pad)
    ensures LengthAdd(LengthSub(Span(w, to, to + n), Span(w, to, to + pad)),
                      LengthSaturatingSub(Span(v, from, from + total), Span(v, from, from + o)))
            == Span(w, to + pad, to + n + Monus(total, o))
  {
    var kept := Monus(total, o);
    SameSpan(v, from, w, to, pad);
    SameSpan(v, from + o, w, to + n, kept);
    SpanOfSum(w, to, to + pad, to + n);
    ShiftedPoints(v, from, o, total);
    SpanOfSum(w, to + pad, to + n, to + n + kept);
  }

  lemma ContentResized(t: Subtree, e: Edit, v: Text, from: nat, w: Text, to: nat)
    requires LiesOver(t, v, from) && Rewrites(v, from, w, to, e, t.TotalBytes())
    requires t.sum.padding.bytes <= e.start.bytes
    ensures var size := LengthAdd(LengthSub(e.newEnd, t.sum.padding), LengthSaturatingSub(t.TotalSize(), e.oldEnd));
            Fits(t.sum.padding, size, w, to)
  {
    TotalInText(t, v, from);
    SameWithin(v, from, w, to, e.start.bytes, 0, t.sum.padding.bytes);
    ResizedSpans(v, from, w, to, t.sum.padding.bytes, e.oldEnd.bytes, e.newEnd.bytes, t.TotalBytes());
  }

  lemma ContentKept(t: Subtree, e: Edit, v: Text, from: nat, w: Text, to: nat)
    requires LiesOver(t, v, from) && Rewrites(v, from, w, to, e, t.TotalBytes()) && t.TotalBytes() <= e.start.bytes
    ensures Fits(t.sum.padding, t.sum.size, w, to)
  {
    SameWithin(v, from, w, to, e.start.bytes, 0, t.sum.padding.bytes);
    SameWithin(v, from, w, to, e.start.bytes, t.sum.padding.bytes, t.sum.size.bytes);
  }

  /** The new padding and size of a node are the extents of its new text. */
  lemma ReshapeInText(t: Subtree, e: Edit, v: Text, from: nat, w: Text, to: nat)
    requires LiesOver(t, v, from) && Rewrites(v, from, w, to, e, t.TotalBytes())
    ensures Fits(Reshape(t, e).0, Reshape(t, e).1, w, to)
  {
    var (pad, o, n) := (t.sum.padding.bytes, e.oldEnd.bytes, e.newEnd.bytes);
    if o <= pad {
      PaddingShifted(t, e, v, from, w, to);
    } else if e.start.bytes < pad {
      ContentShrunk(t, e, v, from, w, to, pad, o, n);
    } else if e.Touches(t.TotalBytes()) {
      ContentResized(t, e, v, from, w, to);
    } else {
      ContentKept(t, e, v, from, w, to);
    }
  }

  // ----- The whole tree -----

  /** The share of a child by its edges. */
  function ShareBetween(e: Edit, prefix: Length, left: nat, right: nat, isFirst: bool): (r: Edit)
    requires e.Ordered()
    ensures r.Ordered()
  {
    if !isFirst && e.Touches(left) then e.Consumed().Relative(prefix)
    else if e.Touches(right) then e.Relative(prefix)
    else e.Relative(prefix).Collapsed()
  }

  lemma QueuedByEdges(t: Subtree, e: Edit, k: nat, prefix: Length, left: nat, right: nat)
    requires k < |t.children| && e.Ordered() && QueuedFor(t, e, k).Some?
    requires prefix == Prefix(t.children, k) && left == Left(t.children, k) && right == Left(t.children, k + 1)
    ensures QueuedFor(t, e, k).value == ShareBetween(e, prefix, left, right, k == 0)
  {
    QueuedIsShare(t, e, k);
    NextEdge(t.children, k, k + 1);
  }

  /** Whatever a child's share is, it turns the child's old text into its new text. */
  lemma ShareInText(e: Edit, v: Text, from: nat, w: Text, to: nat, total: nat, left: nat, size: nat, isFirst: bool)
    requires Rewrites(v, from, w, to, e, total) && left + size <= total && (isFirst ==> left == 0)
    ensures Rewrites(v, from + left, w, to + CutOf(e).NewLeft(left, isFirst),
                     ShareBetween(e, Span(v, from, from + left), left, left + size, isFirst), size)
  {
    if !isFirst && e.Touches(left) {
      ConsumedShare(v, from, w, to, e, total, left, size);
    } else if e.Touches(left + size) {
      TouchingShare(v, from, w, to, e, total, left, size);
    } else {
      CollapsedShare(v, from, w, to, e, total, left, size);
    }
  }

  /** Child k of a measured tree: where it lies, and what lies before it. */
  lemma ChildInText(t: Subtree, k: nat, v: Text, from: nat)
    requires k < |t.children| && Measures(t, v, from)
    ensures Measures(t.children[k], v, from + Left(t.children, k))
    ensures Left(t.children, k + 1) == Left(t.children, k) + t.children[k].TotalBytes() <= t.TotalBytes()
    ensures Prefix(t.children, k) == Span(v, from, from + Left(t.children, k))
    ensures Left(t.children, 0) == 0
  {
    MeasuredChild(t, k, v, from);
    ChildrenLie(t, v, from);
    PrefixInText(t.children, v, from, k);
    NextEdge(t.children, k, k + 1);
    LeftMonotonic(t.children, k + 1, |t.children|);
  }

  lemma QueuedIsBetween(t: Subtree, k: nat, e: Edit, v: Text, from: nat, left: nat, size: nat)
    requires k < |t.children| && e.Ordered() && QueuedFor(t, e, k).Some? && from + left <= |v|
    requires left == Left(t.children, k) && Left(t.children, k + 1) == left + size
    requires Prefix(t.children, k) == Span(v, from, from + left)
    ensures QueuedFor(t, e, k).value == ShareBetween(e, Span(v, from, from + left), left, left + size, k == 0)
  {
    QueuedByEdges(t, e, k, Span(v, from, from + left), left, left + size);
  }

  lemma QueuedText(t: Subtree, k: nat, e: Edit, v: Text, from: nat, w: Text, to: nat, left: nat)
    requires k < |t.children| && Measures(t, v, from) && Rewrites(v, from, w, to, e, t.TotalBytes())
    requires left == Left(t.children, k) && QueuedFor(t, e, k).Some?
    ensures Measures(t.children[k], v, from + left)
    ensures Rewrites(v, from + left, w, to + CutOf(e).NewLeft(left, k == 0), QueuedFor(t, e, k).value,
                     t.children[k].TotalBytes())
  {
    var size := t.children[k].TotalBytes();
    ChildInText(t, k, v, from);
    QueuedIsBetween(t, k, e, v, from, left, size);
    ShareInText(e, v, from, w, to, t.TotalBytes(), left, size, k == 0);
  }

  lemma UnqueuedIsClear(t: Subtree, k: nat, e: Edit, left: nat, right: nat)
    requires k < |t.children| && e.Ordered() && QueuedFor(t, e, k).None?
    requires left == Left(t.children, k) && right == Left(t.children, k + 1)
    ensures right < e.start.bytes || left > e.oldEnd.bytes || (left == e.oldEnd.bytes && k != 0)
  {
    PlanEntry(t.children, 0, k, e, e, FrameOf(t, e));
  }

  lemma UnqueuedStretch(t: Subtree, k: nat, e: Edit, v: Text, from: nat, w: Text, to: nat, left: nat, right: nat)
    requires k < |t.children| && Rewrites(v, from, w, to, e, t.TotalBytes()) && QueuedFor(t, e, k).None?
    requires left == Left(t.children, k) && right == Left(t.children, k + 1) <= t.TotalBytes()
    ensures left <= right && SameBytes(v, from + left, w, to + CutOf(e).NewLeft(left, k == 0), right - left)
  {
    UnqueuedIsClear(t, k, e, left, right);
    NextEdge(t.children, k, k + 1);
    UnqueuedBytes(v, from, w, to, CutOf(e), t.TotalBytes(), left, right - left, k == 0);
  }

  lemma UnqueuedText(t: Subtree, k: nat, e: Edit, v: Text, from: nat, w: Text, to: nat, left: nat)
    requires k < |t.children| && Measures(t, v, from) && Rewrites(v, from, w, to, e, t.TotalBytes())
    requires left == Left(t.children, k) && QueuedFor(t, e, k).None?
    ensures Measures(t.children[k], w, to + CutOf(e).NewLeft(left, k == 0))
  {
    ChildInText(t, k, v, from);
    UnqueuedStretch(t, k, e, v, from, w, to, left, left + t.children[k].TotalBytes());
    MeasuresSame(t.children[k], v, from + left, w, to + CutOf(e).NewLeft(left, k == 0));
  }

  /** A node that the edit skips keeps its text. */
  lemma SkippedText(t: Subtree, e: Edit, v: Text, from: nat, w: Text, to: nat)
    requires Measures(t, v, from) && Rewrites(v, from, w, to, e, t.TotalBytes()) && Skips(t, e)
    ensures Measures(t, w, to)
  {
    SameWithin(v, from, w, to, e.start.bytes, 0, t.TotalBytes());
    MeasuresSame(t, v, from, w, to);
  }

  lemma {:induction false} EditedChildText(t: Subtree, k: nat, e: Edit, v: Text, from: nat, w: Text, to: nat, left: nat)
    requires Measures(t, v, from) && Rewrites(v, from, w, to, e, t.TotalBytes())
    requires k < |t.children| && left == Left(t.children, k)
    ensures Measures(EditedChild(t.children[k], QueuedFor(t, e, k)), w, to + CutOf(e).NewLeft(left, k == 0))
    decreases t, 0
  {
    if QueuedFor(t, e, k).Some? {
      QueuedText(t, k, e, v, from, w, to, left);
      EditKeepsText(t.children[k], QueuedFor(t, e, k).value, v, from + left, w, to + CutOf(e).NewLeft(left, k == 0));
    } else {
      UnqueuedText(t, k, e, v, from, w, to, left);
    }
  }

  lemma {:induction false} EditedChildrenText(t: Subtree, e: Edit, r: Subtree, v: Text, from: nat, w: Text, to: nat)
    requires Measures(t, v, from) && Rewrites(v, from, w, to, e, t.TotalBytes()) && !Skips(t, e)
    requires r == EditTree(t, e)
    ensures forall k | 0 <= k < |r.children| :: ChildMeasures(r, k, w, to)
    decreases t, 1
  {
    forall k | 0 <= k < |r.children|
      ensures ChildMeasures(r, k, w, to)
    {
      NewLefts(t, e, k);
      ChildOfEdited(t, e, k);
      EditedChildText(t, k, e, v, from, w, to, Left(t.children, k));
    }
  }

  /** A tree that measures the old text measures the new text after the edit, in bytes, rows and columns, all the way
      down. */
  lemma {:induction false} EditKeepsText(t: Subtree, e: Edit, v: Text, from: nat, w: Text, to: nat)
    requires Measures(t, v, from) && Rewrites(v, from, w, to, e, t.TotalBytes())
    ensures Measures(EditTree(t, e), w, to)
    decreases t, 2
  {
    if Skips(t, e) {
      SkippedText(t, e, v, from, w, to);
    } else {
      EditedChildrenText(t, e, EditTree(t, e), v, from, w, to);
      EditedLies(t, e, v, from, w, to);
    }
  }

  lemma EditedLies(t: Subtree, e: Edit, v: Text, from: nat, w: Text, to: nat)
    requires Measures(t, v, from) && Rewrites(v, from, w, to, e, t.TotalBytes()) && !Skips(t, e)
    ensures var r := EditTree(t, e);
            && LiesOver(r, w, to)
            && (|r.children| > 0 ==>
                  && r.children[0].sum.padding.bytes == r.sum.padding.bytes
                  && Left(r.children, |r.children|) == r.TotalBytes())
  {
    ReshapeInText(t, e, v, from, w, to);
    FitsLies(t, e, w, to);
    MeasuresLaysOut(t, v, from);
    EditedLayout(t, e);
  }

  lemma FitsLies(t: Subtree, e: Edit, w: Text, to: nat)
    requires e.Ordered() && !Skips(t, e) && Fits(Reshape(t, e).0, Reshape(t, e).1, w, to)
    ensures LiesOver(EditTree(t, e), w, to)
  {
  }

  lemma EditedLayout(t: Subtree, e: Edit)
    requires Layout(t) && e.Ordered()
    ensures var r := EditTree(t, e);
            |r.children| > 0 ==>
              && r.children[0].sum.padding.bytes == r.sum.padding.bytes
              && Left(r.children, |r.children|) == r.TotalBytes()
  {
    EditKeepsLayout(t, e);
  }

  // ----- Edits of a document -----

  /** The document after its bytes from `start` to `oldEnd` have been replaced. */
  function Replaced(v: Text, start: nat, oldEnd: nat, inserted: Text): Text
    requires start <= oldEnd <= |v|
  {
    v[..start] + inserted + v[oldEnd..]
  }

  /** The edit as a user has to describe it. */
  function DocumentEdit(v: Text, start: nat, oldEnd: nat, inserted: Text): (e: Edit)
    requires start <= oldEnd <= |v|
    ensures e.Ordered()
  {
    Edit(Extent(v[..start]), Extent(v[..oldEnd]), Extent(v[..start] + inserted))
  }

  lemma DocumentRewritten(v: Text, start: nat, oldEnd: nat, inserted: Text)
    requires start <= oldEnd <= |v|
    ensures Rewrites(v, 0, Replaced(v, start, oldEnd, inserted), 0, DocumentEdit(v, start, oldEnd, inserted), |v|)
  {
    var w := Replaced(v, start, oldEnd, inserted);
    var newEnd := start + |inserted|;
    ExtentOfFront(v, start);
    ExtentOfFront(v, oldEnd);
    ExtentOfFront(w, newEnd);
    assert v[..start] + inserted == w[..newEnd];
    assert v[0..start] == w[0..start];
    assert v[oldEnd..oldEnd + (|v| - oldEnd)] == v[oldEnd..] == w[newEnd..newEnd + (|v| - oldEnd)];
  }

  /** A tree over a document lies over the new document once the edit has been applied to both: every padding and every
      size has the bytes, rows and columns of the new text. */
  lemma EditFollowsDocument(t: Subtree, v: Text, start: nat, oldEnd: nat, inserted: Text)
    requires start <= oldEnd <= |v| && Measures(t, v, 0) && t.TotalBytes() == |v|
    ensures var (w, r) := (Replaced(v, start, oldEnd, inserted), EditTree(t, DocumentEdit(v, start, oldEnd, inserted)));
            Measures(r, w, 0) && r.TotalBytes() == |w|
  {
    var (w, e) := (Replaced(v, start, oldEnd, inserted), DocumentEdit(v, start, oldEnd, inserted));
    DocumentRewritten(v, start, oldEnd, inserted);
    EditKeepsText(t, e, v, 0, w, 0);
    TotalOfEdited(t, e);
  }

  /** The points that an edit moves, moved as a node handle moves them. */
  lemma HandleInText(v: Text, w: Text, e: Edit, total: nat, x: nat)
    requires Rewrites(v, 0, w, 0, e, total) && x <= total
    ensures CutOf(e).Move(x) <= |w| && NodeEdit(Span(v, 0, x), e) == Span(w, 0, CutOf(e).Move(x))
  {
    var (o, n) := (e.oldEnd.bytes, e.newEnd.bytes);
    if x >= o {
      SameWithin(v, o, w, n, total - o, 0, x - o);
      ShiftedSpans(v, 0, w, 0, o, n, x, x);
    } else if x <= e.start.bytes {
      SameWithin(v, 0, w, 0, e.start.bytes, 0, x);
    }
  }

  /** A walk from the start of a document. */
  lemma WalkFromStart(t: Subtree, v: Text, p: Path)
    requires Measures(t, v, 0) && ValidPath(t, p)
    ensures StartEdge(t, p) <= |v|
    ensures WalkStart(t, t.sum.padding, p) == Span(v, 0, StartEdge(t, p))
  {
    RootInText(t, v);
    WalkInText(t, v, 0, t.sum.padding, p);
  }

  lemma RootInText(t: Subtree, v: Text)
    requires Measures(t, v, 0)
    ensures t.sum.padding.bytes <= |v| && t.sum.padding == Span(v, 0, 0 + t.sum.padding.bytes)
  {
  }

  lemma StartWithin(t: Subtree, v: Text, p: Path)
    requires Measures(t, v, 0) && ValidPath(t, p)
    ensures StartEdge(t, p) <= t.TotalBytes()
  {
    MeasuresLaysOut(t, v, 0);
    EdgeWithin(t, p);
  }

  lemma HandleOnRewritten(t: Subtree, e: Edit, v: Text, w: Text, p: Path)
    requires Measures(t, v, 0) && Rewrites(v, 0, w, 0, e, t.TotalBytes()) && ValidPath(t, p)
    ensures var r := EditTree(t, e);
            && ValidPath(r, p) && StartEdge(r, p) <= |w|
            && WalkStart(r, r.sum.padding, p) == Span(w, 0, StartEdge(r, p))
            && NodeEdit(WalkStart(t, t.sum.padding, p), e) == Span(w, 0, StartEdge(r, p))
  {
    MeasuresLaysOut(t, v, 0);
    StartEdgesMove(t, e, p);
    StartWithin(t, v, p);
    EditKeepsText(t, e, v, 0, w, 0);
    WalkFromStart(t, v, p);
    WalkFromStart(EditTree(t, e), w, p);
    HandleInText(v, w, e, t.TotalBytes(), StartEdge(t, p));
  }

  /** The position that ts_node_edit computes for a node, with its row and column, is the one found by walking down the
      edited tree, and the extent of the new text before the node. */
  lemma HandlesAgreeInText(t: Subtree, v: Text, start: nat, oldEnd: nat, inserted: Text, p: Path)
    requires start <= oldEnd <= |v| && Measures(t, v, 0) && t.TotalBytes() == |v| && ValidPath(t, p)
    ensures var (w, e) := (Replaced(v, start, oldEnd, inserted), DocumentEdit(v, start, oldEnd, inserted));
            var r := EditTree(t, e);
            && ValidPath(r, p) && StartEdge(r, p) <= |w|
            && WalkStart(r, r.sum.padding, p) == NodeEdit(WalkStart(t, t.sum.padding, p), e)
            && WalkStart(r, r.sum.padding, p) == Extent(w[..StartEdge(r, p)])
  {
    var (w, e) := (Replaced(v, start, oldEnd, inserted), DocumentEdit(v, start, oldEnd, inserted));
    DocumentRewritten(v, start, oldEnd, inserted);
    HandleOnRewritten(t, e, v, w, p);
    ExtentOfFront(w, StartEdge(EditTree(t, e), p));
  }
}
