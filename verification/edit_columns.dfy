/** Which children an edit marks, exactly: those it touches and, where columns matter, those behind it on the same
    row. */
module EditColumns {
  import opened Options
  import opened Lengths
  import opened Subtrees
  import opened Edits
  import opened EditAgreement
  import opened Texts
  import opened EditTexts

  /** Child k begins after the replaced text; a child with text may begin right at its end, unless it is the first. */
  predicate IsBehind(t: Subtree, e: Edit, k: nat)
    requires k < |t.children|
  {
    || Left(t.children, k) > e.oldEnd.bytes
    || (k > 0 && Left(t.children, k) == e.oldEnd.bytes && t.children[k].TotalBytes() > 0)
  }

  /** The column of child k matters and may have changed: to its parent, if the child begins no lower than the edited
      parent's content, or to the child itself, if the edit moves columns and the child begins no lower than its end. */
  predicate FeelsColumns(t: Subtree, e: Edit, k: nat)
    requires e.Ordered() && k < |t.children|
  {
    var row := Prefix(t.children, k).extent.row;
    || (t.head.dependsOnColumn && row <= EditTree(t, e).sum.padding.extent.row)
    || (&& t.children[k].head.dependsOnColumn
        && e.newEnd.extent.column != e.oldEnd.extent.column
        && row <= e.oldEnd.extent.row)
  }

  /** Nothing behind the edit ends the scan before it has come to child k. */
  predicate IsReached(t: Subtree, e: Edit, k: nat)
    requires e.Ordered() && k < |t.children|
  {
    forall j | 0 <= j <= k && IsBehind(t, e, j) :: FeelsColumns(t, e, j)
  }

  /** The edit, as child k sees it, touches what the child is made of or has looked at. */
  predicate IsTouched(t: Subtree, e: Edit, k: nat)
    requires k < |t.children|
  {
    var (c, left, right) := (t.children[k], Left(t.children, k), Left(t.children, k + 1));
    || (&& e.start.bytes < right + c.sum.lookaheadBytes
        && (c.TotalBytes() + c.sum.lookaheadBytes > 0 || left < e.oldEnd.bytes))
    || (&& e.start.bytes == e.oldEnd.bytes == right && c.sum.lookaheadBytes == 0
        && e.newEnd.bytes > e.start.bytes && (left < e.start.bytes || k == 0))
  }

  lemma BehindIsNotPassed(t: Subtree, e: Edit, k: nat)
    requires e.Ordered() && k < |t.children| && IsBehind(t, e, k)
    ensures !Passes(t.children, k, e)
  {
    NextEdge(t.children, k, k + 1);
  }

  /** The scan goes on at child k unless the child is behind the edit and no column matters. */
  lemma ContinuesUnlessBehind(t: Subtree, e: Edit, k: nat)
    requires e.Ordered() && k < |t.children| && !Skips(t, e)
    ensures Continues(t.children, k, e, FrameOf(t, e)) <==> (IsBehind(t, e, k) ==> FeelsColumns(t, e, k))
  {
    if IsBehind(t, e, k) {
      BehindIsNotPassed(t, e, k);
    }
  }

  /** Only the ends of the edit matter for how far the loop goes. */
  lemma ContinuesAlike(cs: seq<Subtree>, j: nat, e: Edit, e': Edit, f: Frame)
    requires j < |cs| && e'.start == e.start && e'.oldEnd == e.oldEnd
    ensures Continues(cs, j, e, f) <==> Continues(cs, j, e', f)
  {
  }

  /** The loop queues an edit for child k exactly if it goes on up to there and does not pass over it. */
  lemma {:induction false} PlanGetsTo(cs: seq<Subtree>, i: nat, k: nat, e: Edit, f: Frame)
    requires i <= k < |cs| && e.Ordered()
    ensures Plan(cs, i, e, f)[k - i].Some?
            <==> !Passes(cs, k, e) && forall j | i <= j <= k :: Continues(cs, j, e, f)
    decreases k - i
  {
    if i == k {
      assert Plan(cs, i, e, f)[0].Some? <==> !Passes(cs, i, e) && Continues(cs, i, e, f);
    } else if Continues(cs, i, e, f) {
      var next := i + 1;
      var later := AfterChild(cs, i, e);
      PlanOfLater(cs, i, next, k, e, f);
      PlanGetsTo(cs, next, k, later, f);
      forall j | i <= j <= k
        ensures Continues(cs, j, e, f) <==> Continues(cs, j, later, f)
      {
        ContinuesAlike(cs, j, e, later, f);
      }
    } else {
      assert Plan(cs, i, e, f)[k - i].None?;
    }
  }

  lemma QueuedIfReached(t: Subtree, e: Edit, k: nat)
    requires e.Ordered() && k < |t.children| && !Skips(t, e)
    ensures QueuedFor(t, e, k).Some? <==> !Passes(t.children, k, e) && IsReached(t, e, k)
  {
    var f := FrameOf(t, e);
    PlanGetsTo(t.children, 0, k, e, f);
    forall j | 0 <= j <= k
      ensures Continues(t.children, j, e, f) <==> (IsBehind(t, e, j) ==> FeelsColumns(t, e, j))
    {
      ContinuesUnlessBehind(t, e, j);
    }
  }

  /** The share of a child that is not passed over is skipped exactly if it touches nothing. */
  lemma ShareSkipped(e: Edit, prefix: Length, left: nat, total: nat, look: nat, isFirst: bool)
    requires e.Ordered() && prefix.bytes == left && (isFirst ==> left == 0) && left + total + look >= e.start.bytes
    ensures var (q, right) := (ShareBetween(e, prefix, left, left + total, isFirst), left + total);
            (q.start.bytes > total + look || (q.IsNoop() && q.start.bytes == total + look))
            <==> !(|| (e.start.bytes < right + look && (total + look > 0 || left < e.oldEnd.bytes))
                   || (&& e.start.bytes == e.oldEnd.bytes == right && look == 0
                       && e.newEnd.bytes > e.start.bytes && (left < e.start.bytes || isFirst)))
  {
  }

  lemma QueuedSkips(t: Subtree, e: Edit, k: nat)
    requires e.Ordered() && k < |t.children| && QueuedFor(t, e, k).Some? && !Passes(t.children, k, e)
    ensures Skips(t.children[k], QueuedFor(t, e, k).value) <==> !IsTouched(t, e, k)
  {
    var (cs, prefix) := (t.children, Prefix(t.children, k));
    NextEdge(cs, k, k + 1);
    QueuedByEdges(t, e, k, prefix, prefix.bytes, Left(cs, k + 1));
    ShareSkipped(e, prefix, prefix.bytes, cs[k].TotalBytes(), cs[k].sum.lookaheadBytes, k == 0);
  }

  lemma PassedIsUntouched(t: Subtree, e: Edit, k: nat)
    requires e.Ordered() && k < |t.children| && Passes(t.children, k, e)
    ensures !IsTouched(t, e, k)
  {
  }

  /** The marking law for the children of an edited node, in both directions.  A child comes out marked exactly if it
      was marked before, or the scan comes to it and it is touched; otherwise it is left as it was. */
  lemma ChildMarks(t: Subtree, e: Edit, k: nat)
    requires e.Ordered() && k < |t.children| && !Skips(t, e)
    ensures var (c, r) := (t.children[k], EditTree(t, e).children[k]);
            && (r.hasChanges <==> c.hasChanges || (IsReached(t, e, k) && IsTouched(t, e, k)))
            && (!(IsReached(t, e, k) && IsTouched(t, e, k)) ==> r == c)
  {
    ChildOfEdited(t, e, k);
    QueuedIfReached(t, e, k);
    if Passes(t.children, k, e) {
      PassedIsUntouched(t, e, k);
    } else if QueuedFor(t, e, k).Some? {
      QueuedSkips(t, e, k);
    }
  }

  /** Behind the edit, children with text or lookahead are marked as far as columns matter without a break. */
  lemma MarksBehind(t: Subtree, e: Edit, k: nat)
    requires e.Ordered() && k < |t.children| && !Skips(t, e) && IsBehind(t, e, k)
    ensures var (c, r) := (t.children[k], EditTree(t, e).children[k]);
            && (r.hasChanges <==>
                  || c.hasChanges
                  || (&& c.TotalBytes() + c.sum.lookaheadBytes > 0
                      && forall j | 0 <= j <= k && IsBehind(t, e, j) :: FeelsColumns(t, e, j)))
            && (!FeelsColumns(t, e, k) ==> r == c)
  {
    ChildMarks(t, e, k);
    NextEdge(t.children, k, k + 1);
    assert Left(t.children, 0) == 0;
  }

  // ----- Below a child that begins behind the edit -----

  /** What such a child is given: nothing changes at its start. */
  const NOWHERE := Edit(LENGTH_ZERO, LENGTH_ZERO, LENGTH_ZERO)

  lemma QueuedBehind(t: Subtree, e: Edit, k: nat)
    requires e.Ordered() && k < |t.children| && IsBehind(t, e, k) && QueuedFor(t, e, k).Some?
    ensures QueuedFor(t, e, k).value == NOWHERE
  {
    assert Left(t.children, 0) == 0;
    QueuedByEdges(t, e, k, Prefix(t.children, k), Left(t.children, k), Left(t.children, k + 1));
  }

  lemma QueuedNowhere(t: Subtree, k: nat)
    requires k < |t.children| && QueuedFor(t, NOWHERE, k).Some?
    ensures QueuedFor(t, NOWHERE, k).value == NOWHERE
  {
    QueuedByEdges(t, NOWHERE, k, Prefix(t.children, k), Left(t.children, k), Left(t.children, k + 1));
  }

  lemma NowhereKeepsSummary(t: Subtree)
    ensures EditTree(t, NOWHERE).sum == t.sum && EditTree(t, NOWHERE).head == t.head
  {
  }

  /** Something comes before the content of child j, or before its end. */
  predicate IsLater(t: Subtree, j: nat)
    requires j < |t.children|
  {
    Left(t.children, j) > 0 || (j > 0 && t.children[j].TotalBytes() > 0)
  }

  predicate FeelsOwnRow(t: Subtree, j: nat)
    requires j < |t.children|
  {
    t.head.dependsOnColumn && Prefix(t.children, j).extent.row <= t.sum.padding.extent.row
  }

  /** The marks spread from a node to the one at p: along first children, and in nodes that depend on their column along
      the row on which their content begins, as long as there is text or lookahead. */
  predicate Spreads(t: Subtree, p: Path)
    requires ValidPath(t, p)
    decreases p
  {
    && t.TotalBytes() + t.sum.lookaheadBytes > 0
    && (p != [] ==>
          && (forall j | 0 <= j <= p[0] && IsLater(t, j) :: FeelsOwnRow(t, j))
          && Spreads(t.children[p[0]], p[1..]))
  }

  lemma NowhereMarksChild(t: Subtree, k: nat)
    requires k < |t.children| && t.TotalBytes() + t.sum.lookaheadBytes > 0
    ensures IsReached(t, NOWHERE, k)
            <==> forall j | 0 <= j <= k && IsLater(t, j) :: FeelsOwnRow(t, j)
    ensures IsTouched(t, NOWHERE, k) <==> t.children[k].TotalBytes() + t.children[k].sum.lookaheadBytes > 0
  {
    NowhereKeepsSummary(t);
    NextEdge(t.children, k, k + 1);
    forall j | 0 <= j <= k
      ensures IsBehind(t, NOWHERE, j) <==> IsLater(t, j)
      ensures FeelsColumns(t, NOWHERE, j) <==> FeelsOwnRow(t, j)
    {
    }
  }

  /** An edit that changes nothing marks exactly the nodes it spreads to, and nothing else about the tree. */
  lemma {:induction false} SpreadMarks(t: Subtree, p: Path)
    requires ValidPath(t, p)
    ensures ValidPath(EditTree(t, NOWHERE), p)
    ensures var (r, n) := (At(EditTree(t, NOWHERE), p), At(t, p));
            && (r.hasChanges <==> n.hasChanges || Spreads(t, p))
            && r.sum == n.sum && r.head == n.head
    decreases p
  {
    EditKeepsPaths(t, NOWHERE, p);
    NowhereKeepsSummary(t);
    if p != [] && !Skips(t, NOWHERE) {
      var (k, c) := (p[0], t.children[p[0]]);
      ChildOfEdited(t, NOWHERE, k);
      QueuedIfReached(t, NOWHERE, k);
      NowhereMarksChild(t, k);
      if QueuedFor(t, NOWHERE, k).Some? {
        QueuedNowhere(t, k);
        SpreadMarks(c, p[1..]);
      }
    }
  }

  /** The marking law for all nodes below a child that begins behind the edit: they are marked exactly if they were, or
      the scan comes to the child and the marks spread from there; their extents stay as they were. */
  lemma MarksBelow(t: Subtree, e: Edit, k: nat, p: Path)
    requires e.Ordered() && k < |t.children| && !Skips(t, e) && IsBehind(t, e, k) && ValidPath(t.children[k], p)
    ensures ValidPath(EditTree(t, e).children[k], p)
    ensures var (r, n) := (At(EditTree(t, e).children[k], p), At(t.children[k], p));
            && (r.hasChanges <==> n.hasChanges || (IsReached(t, e, k) && Spreads(t.children[k], p)))
            && r.sum == n.sum && r.head == n.head
  {
    ChildOfEdited(t, e, k);
    QueuedIfReached(t, e, k);
    BehindIsNotPassed(t, e, k);
    if QueuedFor(t, e, k).Some? {
      QueuedBehind(t, e, k);
      SpreadMarks(t.children[k], p);
    }
  }

  // ----- What the marks are for: columns that move -----

  lemma EdgeBehind(t: Subtree, e: Edit, k: nat)
    requires e.Ordered() && k < |t.children| && IsBehind(t, e, k) && !Skips(t, e)
    ensures e.oldEnd.bytes <= Left(t.children, k)
    ensures Left(EditTree(t, e).children, k) == e.newEnd.bytes + (Left(t.children, k) - e.oldEnd.bytes)
  {
    assert Left(t.children, 0) == 0;
    NewLefts(t, e, k);
  }

  lemma PrefixBehind(t: Subtree, v: Text, k: nat, end: Length, from: nat, left: nat)
    requires Measures(t, v, 0) && k < |t.children| && left == Left(t.children, k) && from <= left
    requires from <= |v| && end == Span(v, 0, from)
    ensures left <= |v| && Prefix(t.children, k) == LengthAdd(end, Span(v, from, left))
  {
    ChildInText(t, k, v, 0);
    SpanOfSum(v, 0, from, left);
  }

  lemma SameBehind(e: Edit, v: Text, w: Text, total: nat, left: nat, o: nat, n: nat)
    requires Rewrites(v, 0, w, 0, e, total) && o == e.oldEnd.bytes <= left <= total && n == e.newEnd.bytes
    ensures left <= |v| && n + (left - o) <= |w|
    ensures e.oldEnd == Span(v, 0, o) && e.newEnd == Span(w, 0, n) && Span(w, n, n + (left - o)) == Span(v, o, left)
  {
    SameWithin(v, o, w, n, Monus(total, o), 0, left - o);
  }

  lemma LeftWithin(t: Subtree, v: Text, k: nat)
    requires Measures(t, v, 0) && k < |t.children|
    ensures Left(t.children, k) <= t.TotalBytes()
  {
    ChildInText(t, k, v, 0);
  }

  lemma MovedPrefix(t: Subtree, e: Edit, v: Text, w: Text, k: nat, left: nat, o: nat, n: nat)
    requires Measures(t, v, 0) && Rewrites(v, 0, w, 0, e, t.TotalBytes()) && !Skips(t, e)
    requires k < |t.children| && IsBehind(t, e, k)
    requires left == Left(t.children, k) && o == e.oldEnd.bytes && n == e.newEnd.bytes
    ensures o <= left <= |v|
    ensures Prefix(t.children, k) == LengthAdd(e.oldEnd, Span(v, o, left))
    ensures Prefix(EditTree(t, e).children, k) == LengthAdd(e.newEnd, Span(v, o, left))
  {
    EdgeBehind(t, e, k);
    LeftWithin(t, v, k);
    SameBehind(e, v, w, t.TotalBytes(), left, o, n);
    PrefixBehind(t, v, k, e.oldEnd, o, left);
    EditKeepsText(t, e, v, 0, w, 0);
    PrefixBehind(EditTree(t, e), w, k, e.newEnd, n, n + (left - o));
  }

  /** Behind an edit of a document a child moves to another column exactly if the edit moves columns and the child
      begins on the row on which the edit ends. */
  lemma MovedColumns(t: Subtree, e: Edit, v: Text, w: Text, k: nat)
    requires Measures(t, v, 0) && Rewrites(v, 0, w, 0, e, t.TotalBytes()) && !Skips(t, e)
    requires k < |t.children| && IsBehind(t, e, k)
    ensures Prefix(EditTree(t, e).children, k).extent.column != Prefix(t.children, k).extent.column
            <==> && e.newEnd.extent.column != e.oldEnd.extent.column
                 && Prefix(t.children, k).extent.row == e.oldEnd.extent.row
  {
    MovedPrefix(t, e, v, w, k, Left(t.children, k), e.oldEnd.bytes, e.newEnd.bytes);
  }

  /** A child that depends on its column and moves to another one is marked exactly if it was, or no earlier child
      behind the edit has ended the scan.  So it may be missed, although the scan is meant to go on to the end of the
      row. */
  lemma MovedColumnsMarked(t: Subtree, e: Edit, v: Text, w: Text, k: nat)
    requires Measures(t, v, 0) && Rewrites(v, 0, w, 0, e, t.TotalBytes()) && !Skips(t, e)
    requires k < |t.children| && IsBehind(t, e, k) && t.children[k].head.dependsOnColumn
    requires t.children[k].TotalBytes() + t.children[k].sum.lookaheadBytes > 0
    requires Prefix(EditTree(t, e).children, k).extent.column != Prefix(t.children, k).extent.column
    ensures EditTree(t, e).children[k].hasChanges
            <==> || t.children[k].hasChanges
                 || forall j | 0 <= j < k && IsBehind(t, e, j) :: FeelsColumns(t, e, j)
  {
    MovedColumns(t, e, v, w, k);
    MarksBehind(t, e, k);
    assert FeelsColumns(t, e, k);
  }

  /** A leaf of one byte that has looked no further. */
  predicate IsWord(t: Subtree, padding: Length, dependsOnColumn: bool) {
    && t.sum.padding == padding && t.sum.size == Length(1, Point(0, 1)) && t.sum.lookaheadBytes == 0
    && t.children == [] && t.head.dependsOnColumn == dependsOnColumn && !t.hasChanges
  }

  lemma FourPrefixes(cs: seq<Subtree>, a: Length, b: Length, c: Length)
    requires |cs| == 4 && cs[0].TotalSize() == a && cs[1].TotalSize() == b && cs[2].TotalSize() == c
    ensures Prefix(cs, 0) == LENGTH_ZERO && Prefix(cs, 1) == a
    ensures Prefix(cs, 2) == LengthAdd(a, b) && Prefix(cs, 3) == LengthAdd(LengthAdd(a, b), c)
  {
    assert Prefix(cs, 1) == LengthAdd(Prefix(cs, 0), a);
    assert Prefix(cs, 2) == LengthAdd(Prefix(cs, 1), b);
    assert Prefix(cs, 3) == LengthAdd(Prefix(cs, 2), c);
  }

  lemma WordGrows(b: Subtree, q: Edit)
    requires IsWord(b, Length(1, Point(1, 0)), false)
    requires q == Edit(Length(1, Point(1, 0)), Length(2, Point(1, 1)), Length(3, Point(1, 2)))
    ensures EditTree(b, q).TotalSize() == Length(3, Point(1, 2))
  {
  }

  lemma SecondWordGrows(t: Subtree, a: Subtree, b: Subtree, c: Subtree, d: Subtree, e: Edit)
    requires t.children == [a, b, c, d] && t.TotalBytes() == 5
    requires IsWord(a, LENGTH_ZERO, false) && IsWord(b, Length(1, Point(1, 0)), false)
    requires e == Edit(Length(2, Point(1, 0)), Length(3, Point(1, 1)), Length(4, Point(1, 2)))
    requires Prefix(t.children, 0) == LENGTH_ZERO && Prefix(t.children, 1) == Length(1, Point(0, 1))
    requires Prefix(t.children, 2) == Length(3, Point(1, 1))
    ensures EditTree(t, e).children[0] == a && EditTree(t, e).children[1].TotalSize() == Length(3, Point(1, 2))
  {
    ChildMarks(t, e, 0);
    ChildOfEdited(t, e, 1);
    QueuedIfReached(t, e, 1);
    assert !IsBehind(t, e, 0) && !IsBehind(t, e, 1) && !Passes(t.children, 1, e);
    QueuedByEdges(t, e, 1, Prefix(t.children, 1), 1, 3);
    WordGrows(b, QueuedFor(t, e, 1).value);
  }

  /** Four words on two rows, of which the last depends on its column.  Their parent does not: that word is not on its
      first row.  When the second word grows by a byte, the third one ends the scan, and the last one is not marked,
      although it moves from column 2 to column 3. */
  lemma MissedColumnExample(t: Subtree, a: Subtree, b: Subtree, c: Subtree, d: Subtree, e: Edit)
    requires t.children == [a, b, c, d] && !t.head.dependsOnColumn && t.TotalBytes() == 5
    requires IsWord(a, LENGTH_ZERO, false) && IsWord(b, Length(1, Point(1, 0)), false)
    requires IsWord(c, LENGTH_ZERO, false) && IsWord(d, LENGTH_ZERO, true)
    requires e == Edit(Length(2, Point(1, 0)), Length(3, Point(1, 1)), Length(4, Point(1, 2)))
    ensures e.Ordered() && t.children[3].head.dependsOnColumn
    ensures var r := EditTree(t, e);
            && Prefix(t.children, 3) == Length(4, Point(1, 2)) && Prefix(r.children, 3) == Length(5, Point(1, 3))
            && !r.children[3].hasChanges
  {
    var (cs, rs, word) := (t.children, EditTree(t, e).children, Length(1, Point(0, 1)));
    FourPrefixes(cs, word, Length(2, Point(1, 1)), word);
    SecondWordGrows(t, a, b, c, d, e);
    assert IsBehind(t, e, 2) && !FeelsColumns(t, e, 2) && IsBehind(t, e, 3);
    MarksBehind(t, e, 2);
    MarksBehind(t, e, 3);
    FourPrefixes(rs, word, Length(3, Point(1, 2)), word);
  }
}
