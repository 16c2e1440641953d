/** Differences between two lists of included ranges (get_changed_ranges.c). */
module Ranges {
  import opened Lengths

  const LENGTH_MAX := Length(UINT32_MAX, Point(UINT32_MAX, UINT32_MAX))

  datatype Range = Range(startPoint: Point, endPoint: Point, startByte: nat, endByte: nat) {
    function Start(): Length {
      Length(startByte, startPoint)
    }

    function End(): Length {
      Length(endByte, endPoint)
    }
  }

  predicate Covers(rs: seq<Range>, b: nat) {
    exists i | 0 <= i < |rs| :: rs[i].startByte <= b < rs[i].endByte
  }

  /** What ts_lexer_set_included_ranges accepts.  Ranges may be empty and may touch. */
  predicate IsRangeList(rs: seq<Range>) {
    && (forall i | 0 <= i < |rs| :: rs[i].startByte <= rs[i].endByte <= UINT32_MAX)
    && forall i, j | 0 <= i < j < |rs| :: rs[i].endByte <= rs[j].startByte
  }

  /** Sorted, without empty ranges, without ranges that touch. */
  predicate IsCanonical(rs: seq<Range>) {
    && (forall i | 0 <= i < |rs| :: rs[i].startByte < rs[i].endByte)
    && forall i, j | 0 <= i < j < |rs| :: rs[i].endByte < rs[j].startByte
  }

  predicate EndsBy(rs: seq<Range>, p: nat) {
    forall i | 0 <= i < |rs| :: rs[i].endByte <= p
  }

  /** The byte and the point of every start and end in the list. */
  function Boundaries(rs: seq<Range>): set<Length> {
    (set r | r in rs :: r.Start()) + (set r | r in rs :: r.End())
  }

  /** The boundaries that differences may have: those of the two lists, and the sentinel. */
  function Marks(olds: seq<Range>, news: seq<Range>): set<Length> {
    Boundaries(olds) + Boundaries(news) + {LENGTH_MAX}
  }

  function AddRange(rs: seq<Range>, start: Length, end: Length): seq<Range> {
    if rs != [] && start.bytes <= rs[|rs| - 1].endByte then
      rs[|rs| - 1 := rs[|rs| - 1].(endByte := end.bytes, endPoint := end.extent)]
    else if start.bytes < end.bytes then
      rs + [Range(start.extent, end.extent, start.bytes, end.bytes)]
    else rs
  }

  class RangeArray {
    var contents: seq<Range>

    constructor ()
      ensures contents == []
    {
      contents := [];
    }

    /** ts_range_array_add. */
    method Add(start: Length, end: Length)
      modifies this
      ensures contents == AddRange(old(contents), start, end)
    {
      if |contents| > 0 {
        var last := contents[|contents| - 1];
        if start.bytes <= last.endByte {
          last := last.(endByte := end.bytes);
          last := last.(endPoint := end.extent);
          contents := contents[|contents| - 1 := last];
          return;
        }
      }
      if start.bytes < end.bytes {
        contents := contents + [Range(start.extent, end.extent, start.bytes, end.bytes)];
      }
    }
  }

  /** Adding a stretch at or after the end of a canonical list keeps it canonical and covers that stretch. */
  lemma AddCovers(rs: seq<Range>, start: Length, end: Length)
    requires IsCanonical(rs) && EndsBy(rs, start.bytes) && start.bytes <= end.bytes
    ensures var r := AddRange(rs, start, end);
            && IsCanonical(r) && EndsBy(r, end.bytes)
            && forall b: nat :: Covers(r, b) <==> Covers(rs, b) || start.bytes <= b < end.bytes
  {
    var r := AddRange(rs, start, end);
    forall b: nat
      ensures Covers(r, b) <==> Covers(rs, b) || start.bytes <= b < end.bytes
    {
      if Covers(rs, b) {
        var i :| 0 <= i < |rs| && rs[i].startByte <= b < rs[i].endByte;
        assert r[i].startByte <= b < r[i].endByte;
      }
      if start.bytes <= b < end.bytes {
        assert r[|r| - 1].startByte <= b < r[|r| - 1].endByte;
      }
    }
  }

  lemma AddBoundaries(rs: seq<Range>, start: Length, end: Length, marks: set<Length>)
    requires Boundaries(rs) <= marks && start in marks && end in marks
    ensures Boundaries(AddRange(rs, start, end)) <= marks
  {
    var r := AddRange(rs, start, end);
    forall x | x in r
      ensures x.Start() in marks && x.End() in marks
    {
      var i :| 0 <= i < |r| && r[i] == x;
      if i < |rs| {
        assert rs[i] in rs && rs[i].Start() in Boundaries(rs) && rs[i].End() in Boundaries(rs);
      }
    }
  }

  /** How far the sweep has come in one list: `index` ranges lie behind position p, and p is inside the
      next one or at or before its start. */
  predicate At(rs: seq<Range>, index: nat, inside: bool, p: nat) {
    && index <= |rs|
    && (forall i | 0 <= i < index :: rs[i].endByte <= p)
    && (inside ==> index < |rs| && rs[index].startByte <= p <= rs[index].endByte)
    && (!inside && index < |rs| ==> p <= rs[index].startByte)
  }

  /** The next position at which the list is entered or left. */
  function Next(rs: seq<Range>, index: nat, inside: bool): Length
    requires index <= |rs| && (inside ==> index < |rs|)
  {
    if inside then rs[index].End() else if index < |rs| then rs[index].Start() else LENGTH_MAX
  }

  /** At the sentinel, to which exhausted lists are sent too, nothing is left but boundaries there. */
  predicate AtSentinel(rs: seq<Range>, index: nat, inside: bool) {
    && index <= |rs|
    && forall i | index <= i < |rs| ::
         rs[i].endByte == UINT32_MAX && (rs[i].startByte == UINT32_MAX || (inside && i == index))
  }

  predicate Follows(rs: seq<Range>, index: nat, inside: bool, p: nat) {
    if p < UINT32_MAX then At(rs, index, inside, p) else p == UINT32_MAX && AtSentinel(rs, index, inside)
  }

  /** The boundaries still to cross; -1 if the sweep thinks itself inside a range beyond the end of the list. */
  function Remaining(rs: seq<Range>, index: nat, inside: bool): int {
    2 * (|rs| - index) - (if inside then 1 else 0)
  }

  /** Between p and the next boundary the list covers everything or nothing. */
  lemma CoverageIsConstant(rs: seq<Range>, index: nat, inside: bool, p: nat, b: nat)
    requires IsRangeList(rs) && Follows(rs, index, inside, p) && (inside ==> index < |rs|)
    requires p <= b < Next(rs, index, inside).bytes
    ensures Covers(rs, b) <==> inside
  {
    if inside {
      assert rs[index].startByte <= b < rs[index].endByte;
    }
  }

  /** One list's state when the position moves up to q: the next boundary is crossed if it is there. */
  lemma MoveUp(rs: seq<Range>, index: nat, inside: bool, p: nat, q: nat)
    requires IsRangeList(rs) && Follows(rs, index, inside, p) && (inside ==> index < |rs|)
    requires p <= q <= Next(rs, index, inside).bytes
    ensures q < Next(rs, index, inside).bytes ==> Follows(rs, index, inside, q)
    ensures q == Next(rs, index, inside).bytes ==> Follows(rs, if inside then index + 1 else index, !inside, q)
  {
  }

  lemma NextIsAhead(rs: seq<Range>, index: nat, inside: bool, p: nat)
    requires IsRangeList(rs) && Follows(rs, index, inside, p) && (inside ==> index < |rs|)
    ensures p <= Next(rs, index, inside).bytes <= UINT32_MAX
  {
  }

  /** How many boundaries of the ranges from `index` on are at the sentinel. */
  function SentinelCount(rs: seq<Range>, index: nat): nat
    requires index <= |rs|
    decreases |rs| - index
  {
    if index == |rs| then 0
    else
      (if rs[index].startByte == UINT32_MAX then 1 else 0) + (if rs[index].endByte == UINT32_MAX then 1 else 0)
      + SentinelCount(rs, index + 1)
  }

  lemma {:induction false} NoneBefore(rs: seq<Range>, index: nat)
    requires index <= |rs| && forall i | 0 <= i < index :: rs[i].startByte < UINT32_MAX && rs[i].endByte < UINT32_MAX
    ensures SentinelCount(rs, 0) == SentinelCount(rs, index)
  {
    if index == 0 {
    } else {
      NoneBefore(rs, index - 1);
    }
  }

  lemma {:induction false} AllFrom(rs: seq<Range>, index: nat)
    requires index <= |rs|
    requires forall i | index <= i < |rs| :: rs[i].startByte == UINT32_MAX && rs[i].endByte == UINT32_MAX
    ensures SentinelCount(rs, index) == Remaining(rs, index, false)
    decreases |rs| - index
  {
    if index == |rs| {
    } else {
      AllFrom(rs, index + 1);
    }
  }

  /** When the next boundary is at the sentinel, so are all others, and none were before. */
  lemma RemainingAtSentinel(rs: seq<Range>, index: nat, inside: bool, p: nat)
    requires IsRangeList(rs) && At(rs, index, inside, p) && p < UINT32_MAX
    requires Next(rs, index, inside).bytes == UINT32_MAX
    ensures SentinelCount(rs, 0) == Remaining(rs, index, inside)
  {
    NoneBefore(rs, index);
    AllFrom(rs, if inside then index + 1 else index);
  }

  lemma NextIsBoundary(rs: seq<Range>, index: nat, inside: bool)
    requires index < |rs|
    ensures Next(rs, index, inside) in Boundaries(rs)
  {
    assert rs[index] in rs;
  }

  /** The sweep has dealt with all bytes below p. */
  predicate Swept(olds: seq<Range>, news: seq<Range>, differences: seq<Range>, p: nat) {
    && IsCanonical(differences) && EndsBy(differences, p)
    && forall b | 0 <= b < p :: Covers(differences, b) <==> (Covers(olds, b) != Covers(news, b))
  }

  lemma SweepOn(olds: seq<Range>, news: seq<Range>, before: seq<Range>, after: seq<Range>,
                oi: nat, inOld: bool, ni: nat, inNew: bool, p: Length, q: Length)
    requires IsRangeList(olds) && IsRangeList(news) && Swept(olds, news, before, p.bytes)
    requires Follows(olds, oi, inOld, p.bytes) && (inOld ==> oi < |olds|)
    requires Follows(news, ni, inNew, p.bytes) && (inNew ==> ni < |news|)
    requires p.bytes <= q.bytes <= Next(olds, oi, inOld).bytes && q.bytes <= Next(news, ni, inNew).bytes
    requires after == if inOld != inNew then AddRange(before, p, q) else before
    ensures Swept(olds, news, after, q.bytes)
  {
    AddCovers(before, p, q);
    forall b | 0 <= b < q.bytes
      ensures Covers(after, b) <==> (Covers(olds, b) != Covers(news, b))
    {
      if b >= p.bytes {
        CoverageIsConstant(olds, oi, inOld, p.bytes, b);
        CoverageIsConstant(news, ni, inNew, p.bytes, b);
        NothingAbove(before, p.bytes, b);
      }
    }
  }

  /** Nothing is left to sweep above p. */
  lemma NothingAbove(rs: seq<Range>, p: nat, b: nat)
    requires EndsBy(rs, p) && p <= b
    ensures !Covers(rs, b)
  {
  }

  /** Where the sweep is. */
  datatype State = State(oldIndex: nat, newIndex: nat, inOld: bool, inNew: bool, position: Length)

  predicate IsDone(olds: seq<Range>, news: seq<Range>, s: State) {
    s.oldIndex >= |olds| && s.newIndex >= |news|
  }

  /** No flag says that the sweep is inside a range that does not exist. */
  predicate IsInBounds(olds: seq<Range>, news: seq<Range>, s: State) {
    && s.oldIndex <= |olds| && (s.inOld ==> s.oldIndex < |olds|)
    && s.newIndex <= |news| && (s.inNew ==> s.newIndex < |news|)
  }

  /** The state after the next boundary of either list, or of both. */
  function NextState(olds: seq<Range>, news: seq<Range>, s: State): State
    requires IsInBounds(olds, news, s)
  {
    var (o, n) := (Next(olds, s.oldIndex, s.inOld), Next(news, s.newIndex, s.inNew));
    var (crossOld, crossNew) := (o.bytes <= n.bytes, n.bytes <= o.bytes);
    State(if crossOld && s.inOld then s.oldIndex + 1 else s.oldIndex,
          if crossNew && s.inNew then s.newIndex + 1 else s.newIndex,
          crossOld != s.inOld,
          crossNew != s.inNew,
          if o.bytes < n.bytes then o else n)
  }

  /** How many more boundaries the old list has left than the new one. */
  function Lead(olds: seq<Range>, news: seq<Range>, s: State): int {
    Remaining(olds, s.oldIndex, s.inOld) - Remaining(news, s.newIndex, s.inNew)
  }

  /** How many more of its boundaries are at the sentinel. */
  function SentinelLead(olds: seq<Range>, news: seq<Range>): int {
    SentinelCount(olds, 0) - SentinelCount(news, 0)
  }

  predicate FollowsBoth(olds: seq<Range>, news: seq<Range>, s: State) {
    && Follows(olds, s.oldIndex, s.inOld, s.position.bytes)
    && Follows(news, s.newIndex, s.inNew, s.position.bytes)
    && (s.position.bytes == UINT32_MAX ==> Lead(olds, news, s) == SentinelLead(olds, news))
  }

  predicate Invariant(olds: seq<Range>, news: seq<Range>, differences: seq<Range>, s: State) {
    && FollowsBoth(olds, news, s)
    && Swept(olds, news, differences, s.position.bytes)
    && Boundaries(differences) <= Marks(olds, news)
    && (s.inOld || s.inNew ==> s.position in Marks(olds, news))
  }

  /** At the sentinel every turn crosses a boundary of each list, or takes it for one. */
  lemma StepFollows(olds: seq<Range>, news: seq<Range>, s: State)
    requires IsRangeList(olds) && IsRangeList(news) && FollowsBoth(olds, news, s) && IsInBounds(olds, news, s)
    ensures var (o, n) := (Next(olds, s.oldIndex, s.inOld).bytes, Next(news, s.newIndex, s.inNew).bytes);
            s.position.bytes <= NextState(olds, news, s).position.bytes == if o < n then o else n
    ensures FollowsBoth(olds, news, NextState(olds, news, s))
  {
    var (p, q) := (s.position.bytes, NextState(olds, news, s).position.bytes);
    NextIsAhead(olds, s.oldIndex, s.inOld, p);
    NextIsAhead(news, s.newIndex, s.inNew, p);
    MoveUp(olds, s.oldIndex, s.inOld, p, q);
    MoveUp(news, s.newIndex, s.inNew, p, q);
    if p < UINT32_MAX && q == UINT32_MAX {
      RemainingAtSentinel(olds, s.oldIndex, s.inOld, p);
      RemainingAtSentinel(news, s.newIndex, s.inNew, p);
    }
  }

  lemma StepMarks(olds: seq<Range>, news: seq<Range>, s: State)
    requires IsInBounds(olds, news, s)
    ensures NextState(olds, news, s).position in Marks(olds, news)
  {
    if s.oldIndex < |olds| {
      NextIsBoundary(olds, s.oldIndex, s.inOld);
    }
    if s.newIndex < |news| {
      NextIsBoundary(news, s.newIndex, s.inNew);
    }
  }

  /** One turn of the sweep. */
  lemma SweepStep(olds: seq<Range>, news: seq<Range>, before: seq<Range>, s: State)
    requires IsRangeList(olds) && IsRangeList(news)
    requires Invariant(olds, news, before, s) && IsInBounds(olds, news, s)
    ensures var s' := NextState(olds, news, s);
            Invariant(olds, news, if s.inOld != s.inNew then AddRange(before, s.position, s'.position) else before, s')
  {
    var s' := NextState(olds, news, s);
    var after := if s.inOld != s.inNew then AddRange(before, s.position, s'.position) else before;
    StepFollows(olds, news, s);
    StepMarks(olds, news, s);
    if s.inOld != s.inNew {
      AddBoundaries(before, s.position, s'.position, Marks(olds, news));
    }
    SweepOn(olds, news, before, after, s.oldIndex, s.inOld, s.newIndex, s.inNew, s.position, s'.position);
  }

  /** If the sweep can end, the lists have about as many boundaries at the sentinel. */
  lemma LeadWhenDone(olds: seq<Range>, news: seq<Range>, s: State)
    requires IsRangeList(olds) && IsRangeList(news) && FollowsBoth(olds, news, s) && IsDone(olds, news, s)
    ensures -1 <= SentinelLead(olds, news) <= 1
    ensures EndsBy(olds, s.position.bytes) && EndsBy(news, s.position.bytes)
  {
    if s.position.bytes < UINT32_MAX {
      RemainingAtSentinel(olds, s.oldIndex, s.inOld, s.position.bytes);
      RemainingAtSentinel(news, s.newIndex, s.inNew, s.position.bytes);
    }
  }

  /** If it goes on inside a range beyond the end of a list, they have not. */
  lemma LeadOutOfBounds(olds: seq<Range>, news: seq<Range>, s: State)
    requires FollowsBoth(olds, news, s) && !IsDone(olds, news, s) && !IsInBounds(olds, news, s)
    ensures !(-1 <= SentinelLead(olds, news) <= 1)
  {
  }

  /** When the sweep ends, it has dealt with all bytes. */
  lemma SweptAll(olds: seq<Range>, news: seq<Range>, differences: seq<Range>, s: State)
    requires IsRangeList(olds) && IsRangeList(news) && Invariant(olds, news, differences, s) && IsDone(olds, news, s)
    ensures -1 <= SentinelLead(olds, news) <= 1
    ensures forall b: nat :: Covers(differences, b) <==> (Covers(olds, b) != Covers(news, b))
  {
    LeadWhenDone(olds, news, s);
    forall b: nat
      ensures Covers(differences, b) <==> (Covers(olds, b) != Covers(news, b))
    {
      if b >= s.position.bytes {
        NothingAbove(olds, s.position.bytes, b);
        NothingAbove(news, s.position.bytes, b);
        NothingAbove(differences, s.position.bytes, b);
      }
    }
  }

  /** ts_range_array_get_changed_ranges: the differences cover exactly the bytes that one list covers and the
      other does not, in canonical form, with points taken from the boundaries of the two lists.  The sweep takes the
      sentinel for a boundary of an exhausted list; where the original would then read beyond the list, the result says
      so.  This happens exactly if one list has at least two more boundaries at the sentinel than the other. */
  method GetChangedRanges(olds: seq<Range>, news: seq<Range>, differences: RangeArray) returns (inBounds: bool)
    requires IsRangeList(olds) && IsRangeList(news) && differences.contents == []
    modifies differences
    ensures inBounds <==> -1 <= SentinelLead(olds, news) <= 1
    ensures inBounds ==> IsCanonical(differences.contents)
    ensures inBounds ==>
              forall b: nat :: Covers(differences.contents, b) <==> (Covers(olds, b) != Covers(news, b))
    ensures inBounds ==> Boundaries(differences.contents) <= Marks(olds, news)
  {
    var newIndex, oldIndex := 0, 0;
    var currentPosition := LENGTH_ZERO;
    var inOldRange, inNewRange := false, false;

    while oldIndex < |olds| || newIndex < |news|
      invariant 0 <= oldIndex <= |olds| && 0 <= newIndex <= |news|
      invariant Invariant(
                  olds, news, differences.contents, State(oldIndex, newIndex, inOldRange, inNewRange, currentPosition))
      decreases Remaining(olds, oldIndex, inOldRange) + Remaining(news, newIndex, inNewRange) + 2
    {
      ghost var s := State(oldIndex, newIndex, inOldRange, inNewRange, currentPosition);
      if (inOldRange && oldIndex == |olds|) || (inNewRange && newIndex == |news|) {
        LeadOutOfBounds(olds, news, s);
        return false;
      }

      var nextOldPosition := LENGTH_MAX;
      if inOldRange {
        nextOldPosition := olds[oldIndex].End();
      } else if oldIndex < |olds| {
        nextOldPosition := olds[oldIndex].Start();
      }

      var nextNewPosition := LENGTH_MAX;
      if inNewRange {
        nextNewPosition := news[newIndex].End();
      } else if newIndex < |news| {
        nextNewPosition := news[newIndex].Start();
      }

      SweepStep(olds, news, differences.contents, s);

      if nextOldPosition.bytes < nextNewPosition.bytes {
        if inOldRange != inNewRange {
          differences.Add(currentPosition, nextOldPosition);
        }
        if inOldRange {
          oldIndex := oldIndex + 1;
        }
        currentPosition := nextOldPosition;
        inOldRange := !inOldRange;
      } else if nextNewPosition.bytes < nextOldPosition.bytes {
        if inOldRange != inNewRange {
          differences.Add(currentPosition, nextNewPosition);
        }
        if inNewRange {
          newIndex := newIndex + 1;
        }
        currentPosition := nextNewPosition;
        inNewRange := !inNewRange;
      } else {
        if inOldRange != inNewRange {
          differences.Add(currentPosition, nextNewPosition);
        }
        if inOldRange {
          oldIndex := oldIndex + 1;
        }
        if inNewRange {
          newIndex := newIndex + 1;
        }
        inOldRange := !inOldRange;
        inNewRange := !inNewRange;
        currentPosition := nextNewPosition;
      }
      assert State(oldIndex, newIndex, inOldRange, inNewRange, currentPosition) == NextState(olds, news, s);
    }
    SweptAll(olds, news, differences.contents, State(oldIndex, newIndex, inOldRange, inNewRange, currentPosition));
    inBounds := true;
  }

  /** One range that is empty at the sentinel, against none: the sweep reads beyond the empty list. */
  lemma SentinelExample(p: Point)
    ensures var olds := [Range(p, p, UINT32_MAX, UINT32_MAX)];
            IsRangeList(olds) && SentinelLead(olds, []) == 2
  {
    var olds := [Range(p, p, UINT32_MAX, UINT32_MAX)];
    AllFrom(olds, 0);
  }

  /** Lists that cover the same bytes, however they are cut up, have no differences. */
  lemma SameCoverageNoDifferences(olds: seq<Range>, news: seq<Range>, differences: seq<Range>)
    requires IsCanonical(differences)
    requires forall b: nat :: Covers(differences, b) <==> (Covers(olds, b) != Covers(news, b))
    ensures differences == [] <==> forall b: nat :: Covers(olds, b) == Covers(news, b)
  {
    if differences != [] {
      var b := differences[0].startByte;
      assert differences[0].startByte <= b < differences[0].endByte;
      assert Covers(differences, b);
    }
  }

  /** Canonical lists that cover the same bytes are byte for byte the same list. */
  lemma {:induction false} CanonicalIsUnique(a: seq<Range>, b: seq<Range>)
    requires IsCanonical(a) && IsCanonical(b)
    requires forall x: nat :: Covers(a, x) <==> Covers(b, x)
    ensures |a| == |b|
    ensures forall i | 0 <= i < |a| :: a[i].startByte == b[i].startByte && a[i].endByte == b[i].endByte
    decreases |a|
  {
    if a == [] || b == [] {
      SameCoverageNoDifferences(a, [], a);
      SameCoverageNoDifferences(b, [], b);
    } else {
      FirstRangeSame(a, b);
      FirstRangeSame(b, a);
      forall x: nat
        ensures Covers(a[1..], x) <==> Covers(b[1..], x)
      {
        CoversRest(a, x);
        CoversRest(b, x);
      }
      CanonicalIsUnique(a[1..], b[1..]);
    }
  }

  lemma CoversRest(a: seq<Range>, x: nat)
    requires IsCanonical(a) && a != []
    ensures Covers(a[1..], x) <==> Covers(a, x) && x >= a[0].endByte
  {
    if Covers(a, x) && x >= a[0].endByte {
      var i :| 0 <= i < |a| && a[i].startByte <= x < a[i].endByte;
      assert a[1..][i - 1].startByte <= x < a[1..][i - 1].endByte;
    }
  }

  lemma FirstRangeSame(a: seq<Range>, b: seq<Range>)
    requires IsCanonical(a) && IsCanonical(b) && a != [] && b != []
    requires forall x: nat :: Covers(a, x) <==> Covers(b, x)
    ensures a[0].startByte <= b[0].startByte
    ensures a[0].startByte == b[0].startByte ==> a[0].endByte <= b[0].endByte
  {
    var s := b[0].startByte;
    assert b[0].startByte <= s < b[0].endByte;
    assert Covers(a, s);
    var e := b[0].endByte;
    assert !Covers(b, e) && !Covers(a, e);
  }
}
