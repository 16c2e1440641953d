/** Cursor states: the stack of entries along a path, and how paths relate to the visible tree. */
module CursorPaths {
  import opened Options
  import opened Lengths
  import opened Subtrees
  import opened Summaries
  import opened VisibleTrees

  datatype TreeCursorEntry = TreeCursorEntry(
    subtree: Subtree,
    position: Length,
    childIndex: nat,
    structuralChildIndex: nat,
    descendantIndex: nat)

  /** The entry for child i of the node in another entry. */
  function ChildEntry(lang: Language, parent: TreeCursorEntry, isVisible: bool, i: nat): TreeCursorEntry
    requires i < |parent.subtree.children|
  {
    var cs := parent.subtree.children;
    TreeCursorEntry(
      cs[i],
      ChildStart(cs, i, parent.position),
      i,
      StructuralIndex(cs, i),
      parent.descendantIndex + (if isVisible then 1 else 0) + DescendantsBefore(lang, parent.subtree, i))
  }

  /** The entries of a cursor at p. */
  ghost function EntriesOf(lang: Language, root: TreeCursorEntry, p: Path): (es: seq<TreeCursorEntry>)
    requires ValidPath(root.subtree, p)
    ensures |es| == |p| + 1 && es[|p|].subtree == At(root.subtree, p)
    decreases |p|
  {
    if p == [] then [root]
    else
      ValidFront(root.subtree, p);
      var above := EntriesOf(lang, root, Front(p));
      above + [ChildEntry(lang, above[|p| - 1], IsVisibleAt(lang, root.subtree, Front(p)), Back(p))]
  }

  /** The alias of the node at p by its place among its siblings; extra nodes have none. */
  function AliasOf(lang: Language, t: Subtree, rootAlias: Symbol, p: Path): Symbol
    requires ValidPath(t, p)
  {
    if At(t, p).head.extra then 0
    else if p == [] then rootAlias
    else
      ValidFront(t, p);
      var parent := At(t, Front(p));
      AliasAt(lang, parent.head.productionId, StructuralIndex(parent.children, Back(p)))
  }

  ghost function TopOf(lang: Language, root: TreeCursorEntry, p: Path): TreeCursorEntry
    requires ValidPath(root.subtree, p)
  {
    EntriesOf(lang, root, p)[|p|]
  }

  lemma {:induction false} SnocFacts(lang: Language, t: Subtree, start: Length, p: Path, i: nat)
    requires ValidPath(t, p) && i < |At(t, p).children|
    ensures ValidPath(t, p + [i])
    ensures WalkStart(t, start, p + [i]) == ChildStart(At(t, p).children, i, WalkStart(t, start, p))
    ensures IsVisibleAt(lang, t, p + [i]) <==> IsVisibleChild(lang, At(t, p), i)
    ensures PreorderNumber(lang, t, p + [i])
            == PreorderNumber(lang, t, p) + (if p != [] && IsVisibleAt(lang, t, p) then 1 else 0)
               + DescendantsBefore(lang, At(t, p), i)
    decreases p
  {
    var q := p + [i];
    if p == [] {
      assert q[1..] == [];
    } else {
      assert q[1..] == p[1..] + [i];
      SnocFacts(lang, t.children[p[0]], ChildStart(t.children, p[0], start), p[1..], i);
    }
  }

  /** The top entry of a cursor has the position found by walking down to its node, and its descendant index is
      the node's pre-order number, where the root has number 0. */
  lemma {:induction false} TopFacts(lang: Language, root: TreeCursorEntry, p: Path)
    requires ValidPath(root.subtree, p)
    ensures TopOf(lang, root, p).position == WalkStart(root.subtree, root.position, p)
    ensures TopOf(lang, root, p).descendantIndex
            == root.descendantIndex + (if p == [] then 0 else 1 + PreorderNumber(lang, root.subtree, p))
    decreases |p|
  {
    if p == [] {
    } else {
      ValidFront(root.subtree, p);
      TopFacts(lang, root, Front(p));
      SnocFacts(lang, root.subtree, root.position, Front(p), Back(p));
      assert Front(p) + [Back(p)] == p;
    }
  }

  lemma {:induction false} EntriesPrefix(lang: Language, root: TreeCursorEntry, p: Path, d: nat)
    requires ValidPath(root.subtree, p) && d <= |p|
    ensures ValidPath(root.subtree, p[..d])
    ensures EntriesOf(lang, root, p)[..d + 1] == EntriesOf(lang, root, p[..d])
    decreases |p|
  {
    if d == |p| {
      assert p[..d] == p;
      assert EntriesOf(lang, root, p)[..d + 1] == EntriesOf(lang, root, p);
    } else {
      ValidFront(root.subtree, p);
      EntriesPrefix(lang, root, Front(p), d);
      assert Front(p)[..d] == p[..d];
      assert EntriesOf(lang, root, p)[..d + 1] == EntriesOf(lang, root, Front(p))[..d + 1];
    }
  }

  // ----- Addresses in the visible tree -----

  /** Counting visible children from the root down: [2, 0] is the first child of the third child. */
  type Address = seq<nat>

  predicate IsAddress(lang: Language, t: Subtree, v: Address)
    decreases |v|, 0
  {
    v != [] ==>
      && IsAddress(lang, t, v[..|v| - 1])
      && ValidPath(t, PathOf(lang, t, v[..|v| - 1]))
      && v[|v| - 1] < |VisibleChildren(lang, At(t, PathOf(lang, t, v[..|v| - 1])))|
  }

  /** The path to the node with this address. */
  function PathOf(lang: Language, t: Subtree, v: Address): Path
    requires IsAddress(lang, t, v)
    decreases |v|, 1
  {
    if v == [] then []
    else
      var above := PathOf(lang, t, v[..|v| - 1]);
      above + VisibleChildren(lang, At(t, above))[v[|v| - 1]]
  }

  lemma {:induction false} AtAppend(lang: Language, t: Subtree, p: Path, q: Path)
    requires ValidPath(t, p)
    ensures ValidPath(t, p + q) <==> ValidPath(At(t, p), q)
    ensures ValidPath(t, p + q) ==> At(t, p + q) == At(At(t, p), q)
    ensures ValidPath(t, p + q) && q != [] ==> (IsVisibleAt(lang, t, p + q) <==> IsVisibleAt(lang, At(t, p), q))
    decreases p
  {
    if p == [] {
      assert p + q == q;
    } else {
      assert (p + q)[1..] == p[1..] + q;
      AtAppend(lang, t.children[p[0]], p[1..], q);
    }
  }

  /** Every node strictly between t and the one at q is hidden. */
  predicate HiddenBetween(lang: Language, t: Subtree, q: Path)
    requires ValidPath(t, q)
    decreases q
  {
    |q| > 1 ==> !IsVisibleChild(lang, t, q[0]) && HiddenBetween(lang, t.children[q[0]], q[1..])
  }

  /** A visible child is visible, and only hidden nodes lie between it and its parent. */
  lemma {:induction false} OnlyHiddenBetween(lang: Language, t: Subtree, i: nat, k: nat)
    requires i <= |t.children| && k < |PathsFrom(lang, t, i)|
    ensures var q := PathsFrom(lang, t, i)[k];
            q != [] && ValidPath(t, q) && IsVisibleAt(lang, t, q) && HiddenBetween(lang, t, q)
    decreases t, |t.children| - i
  {
    var own := PathsThrough(lang, t, i);
    if k >= |own| {
      OnlyHiddenBetween(lang, t, i + 1, k - |own|);
    } else if !IsVisibleChild(lang, t, i) {
      OnlyHiddenBetween(lang, t.children[i], 0, k);
      assert own[k][1..] == PathsFrom(lang, t.children[i], 0)[k];
    }
  }

  lemma {:induction false} AddressIsVisible(lang: Language, t: Subtree, v: Address)
    requires IsAddress(lang, t, v)
    ensures ValidPath(t, PathOf(lang, t, v)) && IsVisibleAt(lang, t, PathOf(lang, t, v))
    decreases |v|
  {
    if v == [] {
    } else {
      var above := PathOf(lang, t, v[..|v| - 1]);
      AddressIsVisible(lang, t, v[..|v| - 1]);
      OnlyHiddenBetween(lang, At(t, above), 0, v[|v| - 1]);
      AtAppend(lang, t, above, VisibleChildren(lang, At(t, above))[v[|v| - 1]]);
    }
  }

  lemma AddressSnoc(lang: Language, t: Subtree, v: Address, k: nat)
    requires IsAddress(lang, t, v)
    ensures ValidPath(t, PathOf(lang, t, v))
    ensures var kids := VisibleChildren(lang, At(t, PathOf(lang, t, v)));
            && (IsAddress(lang, t, v + [k]) <==> k < |kids|)
            && (k < |kids| ==> PathOf(lang, t, v + [k]) == PathOf(lang, t, v) + kids[k])
  {
    AddressIsVisible(lang, t, v);
    assert (v + [k])[..|v + [k]| - 1] == v;
  }

  // ----- Climbing -----

  function Extend(p: Path, o: Option<Path>): Option<Path> {
    if o.Some? then Some(p + o.value) else None
  }

  lemma ExtendTwice(p: Path, q: Path, o: Option<Path>)
    ensures Extend(p, Extend(q, o)) == Extend(p + q, o)
    ensures Extend([], o) == o
  {
    if o.Some? {
      assert p + (q + o.value) == p + q + o.value;
      assert [] + o.value == o.value;
    }
  }

  /** The first visible node among the later children of the parent of the node at p. */
  function Behind(lang: Language, t: Subtree, p: Path): Option<Path>
    requires ValidPath(t, p) && p != []
  {
    ValidFront(t, p);
    Extend(Front(p), FirstOf(PathsFrom(lang, At(t, Front(p)), Back(p) + 1)))
  }

  /** What the sibling loop finds: it looks behind the node at p, then behind the ancestors of p, but not
      beyond a visible ancestor. */
  function Climb(lang: Language, t: Subtree, p: Path, isStart: bool): Option<Path>
    requires ValidPath(t, p)
    decreases |p|
  {
    if p == [] || (!isStart && IsVisibleAt(lang, t, p)) then None
    else
      ValidFront(t, p);
      if Behind(lang, t, p).Some? then Behind(lang, t, p) else Climb(lang, t, Front(p), false)
  }

  lemma BehindWithin(lang: Language, t: Subtree, p: Path, q: Path)
    requires ValidPath(t, p) && ValidPath(At(t, p), q) && q != []
    ensures ValidPath(t, p + q)
    ensures Behind(lang, t, p + q) == Extend(p, Behind(lang, At(t, p), q))
  {
    var a := At(t, p);
    AtAppend(lang, t, p, q);
    ValidFront(a, q);
    assert Front(p + q) == p + Front(q) && Back(p + q) == Back(q);
    AtAppend(lang, t, p, Front(q));
    ExtendTwice(p, Front(q), FirstOf(PathsFrom(lang, At(a, Front(q)), Back(q) + 1)));
  }

  /** Climbing from a node below a visible one stays below it. */
  lemma {:induction false} ClimbWithin(lang: Language, t: Subtree, p: Path, q: Path, isStart: bool)
    requires ValidPath(t, p) && IsVisibleAt(lang, t, p) && ValidPath(At(t, p), q)
    requires q == [] ==> !isStart
    ensures ValidPath(t, p + q)
    ensures Climb(lang, t, p + q, isStart) == Extend(p, Climb(lang, At(t, p), q, isStart))
    decreases |q|
  {
    AtAppend(lang, t, p, q);
    if q == [] {
      assert p + q == p;
    } else {
      BehindWithin(lang, t, p, q);
      ValidFront(At(t, p), q);
      assert Front(p + q) == p + Front(q);
      ClimbWithin(lang, t, p, Front(q), false);
    }
  }

  lemma {:induction false} HiddenFront(lang: Language, t: Subtree, q: Path)
    requires ValidPath(t, q) && HiddenBetween(lang, t, q) && |q| > 1
    ensures ValidPath(t, Front(q)) && HiddenBetween(lang, t, Front(q)) && !IsVisibleAt(lang, t, Front(q))
    decreases q
  {
    ValidFront(t, q);
    assert Front(q)[1..] == Front(q[1..]);
    if |q| > 2 {
      HiddenFront(lang, t.children[q[0]], q[1..]);
    }
  }

  lemma BehindFirst(lang: Language, t: Subtree, q: Path)
    requires ValidPath(t, q) && |q| > 1
    ensures Behind(lang, t, q) == Extend([q[0]], Behind(lang, t.children[q[0]], q[1..]))
  {
    assert ValidPath(t, [q[0]]) && At(t, [q[0]]) == t.children[q[0]];
    assert [q[0]] + q[1..] == q;
    BehindWithin(lang, t, [q[0]], q[1..]);
  }

  /** Climbing, seen from the first step of the path. */
  lemma {:induction false} ClimbFromFirst(lang: Language, t: Subtree, q: Path, isStart: bool)
    requires ValidPath(t, q) && q != [] && HiddenBetween(lang, t, q)
    requires isStart || !IsVisibleAt(lang, t, q)
    ensures var found := Extend([q[0]], Climb(lang, t.children[q[0]], q[1..], isStart));
            Climb(lang, t, q, isStart) == if found.Some? then found else FirstOf(PathsFrom(lang, t, q[0] + 1))
    decreases |q|
  {
    if |q| == 1 {
      ExtendTwice([], [], FirstOf(PathsFrom(lang, t, q[0] + 1)));
    } else {
      BehindFirst(lang, t, q);
      HiddenFront(lang, t, q);
      assert Front(q)[1..] == Front(q[1..]);
      ClimbFromFirst(lang, t, Front(q), false);
    }
  }

  lemma {:induction false} ClimbIsNext(lang: Language, t: Subtree, q: Path)
    requires ValidPath(t, q) && q != [] && HiddenBetween(lang, t, q)
    ensures Climb(lang, t, q, true) == NextPath(lang, t, q)
    decreases q
  {
    ClimbFromFirst(lang, t, q, true);
    if |q| > 1 {
      ClimbIsNext(lang, t.children[q[0]], q[1..]);
    }
  }

  lemma ClimbAmongSiblings(lang: Language, t: Subtree, above: Path, k: nat, next: nat)
    requires ValidPath(t, above) && IsVisibleAt(lang, t, above) && next == k + 1
    requires k < |VisibleChildren(lang, At(t, above))|
    ensures var kids := VisibleChildren(lang, At(t, above));
            && ValidPath(t, above + kids[k])
            && Climb(lang, t, above + kids[k], true)
               == if next < |kids| then Some(above + kids[next]) else None
  {
    var a := At(t, above);
    var q := VisibleChildren(lang, a)[k];
    OnlyHiddenBetween(lang, a, 0, k);
    NextIsSuccessor(lang, a, 0, k);
    ClimbWithin(lang, t, above, q, true);
    ClimbIsNext(lang, a, q);
  }

  /** From the node at address v + [k], climbing finds the node at v + [k + 1] or, if that is no address,
      nothing. */
  lemma ClimbFindsSibling(lang: Language, t: Subtree, v: Address, k: nat, next: nat)
    requires IsAddress(lang, t, v) && IsAddress(lang, t, v + [k]) && next == k + 1
    ensures ValidPath(t, PathOf(lang, t, v + [k]))
    ensures Climb(lang, t, PathOf(lang, t, v + [k]), true)
            == if IsAddress(lang, t, v + [next]) then Some(PathOf(lang, t, v + [next])) else None
  {
    AddressSnoc(lang, t, v, k);
    AddressSnoc(lang, t, v, next);
    AddressIsVisible(lang, t, v);
    ClimbAmongSiblings(lang, t, PathOf(lang, t, v), k, next);
  }

  // ----- Every visible node has an address -----

  /** A visible node with only hidden nodes above it is a visible child. */
  lemma {:induction false} IndexOfChild(lang: Language, t: Subtree, i: nat, q: Path) returns (k: nat)
    requires ValidPath(t, q) && q != [] && i <= q[0]
    requires IsVisibleAt(lang, t, q) && HiddenBetween(lang, t, q)
    ensures k < |PathsFrom(lang, t, i)| && PathsFrom(lang, t, i)[k] == q
    decreases q, |t.children| - i
  {
    if i < q[0] {
      k := IndexOfChild(lang, t, i + 1, q);
      k := |PathsThrough(lang, t, i)| + k;
    } else if |q| == 1 {
      assert q == [i];
      k := 0;
    } else {
      k := IndexOfChild(lang, t.children[i], 0, q[1..]);
      assert q == [i] + q[1..];
    }
  }

  /** The first visible node on the way to a visible node. */
  lemma {:induction false} FirstVisible(lang: Language, t: Subtree, q: Path) returns (d: nat)
    requires ValidPath(t, q) && q != [] && IsVisibleAt(lang, t, q)
    ensures 0 < d <= |q| && ValidPath(t, q[..d]) && IsVisibleAt(lang, t, q[..d]) && HiddenBetween(lang, t, q[..d])
    decreases q
  {
    if |q| == 1 || IsVisibleChild(lang, t, q[0]) {
      d := 1;
      assert q[..1][1..] == [];
    } else {
      d := FirstVisible(lang, t.children[q[0]], q[1..]);
      d := d + 1;
      assert q[..d][1..] == q[1..][..d - 1];
    }
  }

  /** The address of the first visible node on the way, and the rest of the way. */
  lemma AddressOnWay(lang: Language, t: Subtree, v: Address, q: Path) returns (k: nat, r: Path, s: Path)
    requires IsAddress(lang, t, v) && ValidPath(t, PathOf(lang, t, v)) && q != []
    requires ValidPath(At(t, PathOf(lang, t, v)), q) && IsVisibleAt(lang, At(t, PathOf(lang, t, v)), q)
    ensures r != [] && r + s == q
    ensures IsAddress(lang, t, v + [k]) && PathOf(lang, t, v + [k]) == PathOf(lang, t, v) + r
    ensures ValidPath(t, PathOf(lang, t, v + [k])) && ValidPath(At(t, PathOf(lang, t, v + [k])), s)
    ensures IsVisibleAt(lang, At(t, PathOf(lang, t, v + [k])), s)
  {
    var p := PathOf(lang, t, v);
    var a := At(t, p);
    var d := FirstVisible(lang, a, q);
    r, s := q[..d], q[d..];
    assert r + s == q;
    k := IndexOfChild(lang, a, 0, r);
    AddressSnoc(lang, t, v, k);
    AtAppend(lang, t, p, r);
    AtAppend(lang, a, r, s);
  }

  lemma {:induction false} AddressBelow(lang: Language, t: Subtree, v: Address, q: Path) returns (w: Address)
    requires IsAddress(lang, t, v) && ValidPath(t, PathOf(lang, t, v))
    requires ValidPath(At(t, PathOf(lang, t, v)), q) && IsVisibleAt(lang, At(t, PathOf(lang, t, v)), q)
    ensures IsAddress(lang, t, w) && PathOf(lang, t, w) == PathOf(lang, t, v) + q
    decreases |q|
  {
    var p := PathOf(lang, t, v);
    if q == [] {
      w := v;
      assert p + q == p;
    } else {
      var k, r, s := AddressOnWay(lang, t, v, q);
      w := AddressBelow(lang, t, v + [k], s);
      assert (p + r) + s == p + q;
    }
  }

  /** Every visible node has an address. */
  lemma AddressOf(lang: Language, t: Subtree, p: Path) returns (v: Address)
    requires ValidPath(t, p) && IsVisibleAt(lang, t, p)
    ensures IsAddress(lang, t, v) && PathOf(lang, t, v) == p
  {
    v := AddressBelow(lang, t, [], p);
    assert [] + p == p;
  }

  /** Below the root, a node is visible exactly if it is so by itself or has an alias. */
  lemma {:induction false} VisibleOrAliased(lang: Language, t: Subtree, rootAlias: Symbol, p: Path)
    requires ValidPath(t, p) && p != []
    ensures IsVisibleAt(lang, t, p) <==> At(t, p).head.visible || AliasOf(lang, t, rootAlias, p) != 0
    decreases p
  {
    ValidFront(t, p);
    if |p| == 1 {
      assert Front(p) == [] && p[1..] == [];
    } else {
      var (c, rest) := (t.children[p[0]], p[1..]);
      VisibleOrAliased(lang, c, rootAlias, rest);
      ValidFront(c, rest);
      assert Front(p)[1..] == Front(rest) && Back(p) == Back(rest);
    }
  }
}
