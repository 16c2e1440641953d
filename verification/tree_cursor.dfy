/** Tree cursors: a stack of entries with hidden nodes in it, simulating a walk of the visible tree
    (tree_cursor.c). */
module TreeCursors {
  import opened Options
  import opened Lengths
  import opened Subtrees
  import opened Summaries
  import opened VisibleTrees
  import opened CursorPaths

  /** The descendant index that child i of the entry's node gets. */
  function NumberAt(lang: Language, entry: TreeCursorEntry, isVisible: bool, i: nat): nat
    requires i <= |entry.subtree.children|
  {
    entry.descendantIndex + (if isVisible then 1 else 0) + DescendantsBefore(lang, entry.subtree, i)
  }

  datatype TreeCursorStep = StepNone | StepHidden | StepVisible

  /** A step that pushes child i, the first of the later children that leads to visible nodes. */
  ghost predicate StepsTo(lang: Language, t: Subtree, from: nat, step: TreeCursorStep, i: nat)
    requires from <= |t.children|
  {
    var ps := PathsFrom(lang, t, from);
    match step
    case StepNone => ps == []
    case StepVisible => i < |t.children| && ps != [] && ps[0] == [i]
    case StepHidden =>
      && i < |t.children| && ps != [] && VisibleChildren(lang, t.children[i]) != []
      && ps[0] == [i] + VisibleChildren(lang, t.children[i])[0]
  }

  lemma ChildSteps(lang: Language, t: Subtree, from: nat, i: nat, next: nat)
    requires from <= i < |t.children| && next == i + 1 && CountsRight(lang, t)
    requires PathsFrom(lang, t, from) == PathsFrom(lang, t, i)
    ensures if IsVisibleChild(lang, t, i) then StepsTo(lang, t, from, StepVisible, i)
            else if t.children[i].VisibleChildCount() > 0 then StepsTo(lang, t, from, StepHidden, i)
            else PathsFrom(lang, t, from) == PathsFrom(lang, t, next)
  {
    var (own, rest) := (PathsThrough(lang, t, i), PathsFrom(lang, t, next));
    assert PathsFrom(lang, t, from) == own + rest;
    if !IsVisibleChild(lang, t, i) {
      CountsAreSizes(lang, t.children[i]);
      if own == [] {
        assert own + rest == rest;
      }
    }
  }

  /** Enumerates the children of the node in a cursor entry. */
  class CursorChildIterator {
    const lang: Language
    var parent: Option<Subtree>
    var position: Length
    var childIndex: nat
    var structuralChildIndex: nat
    var descendantIndex: nat
    ghost const last: TreeCursorEntry
    ghost const isVisible: bool

    /** The fields describe the child to come. */
    ghost predicate Valid()
      reads this
    {
      var cs := last.subtree.children;
      && parent == (if cs == [] then None else Some(last.subtree))
      && childIndex <= |cs|
      && (childIndex < |cs| ==>
            TreeCursorEntry(cs[childIndex], position, childIndex, structuralChildIndex, descendantIndex)
            == ChildEntry(lang, last, isVisible, childIndex))
      && (cs != [] ==> descendantIndex == NumberAt(lang, last, isVisible, childIndex))
    }

    constructor (lang: Language, last: TreeCursorEntry, isVisible: bool)
      ensures Valid() && childIndex == 0
      ensures this.lang == lang && this.last == last && this.isVisible == isVisible
    {
      this.lang, this.last, this.isVisible := lang, last, isVisible;
      childIndex, structuralChildIndex := 0, 0;
      if |last.subtree.children| == 0 {
        parent, position, descendantIndex := None, LENGTH_ZERO, 0;
      } else {
        parent, position := Some(last.subtree), last.position;
        descendantIndex := last.descendantIndex + (if isVisible then 1 else 0);
      }
    }

    method Next() returns (result: Option<TreeCursorEntry>, visible: bool)
      requires Valid()
      modifies this
      ensures Valid()
      ensures var (cs, i) := (last.subtree.children, old(childIndex));
              if i == |cs| then result == None && childIndex == i
              else
                && result == Some(ChildEntry(lang, last, isVisible, i))
                && childIndex == i + 1
                && (visible <==> IsVisibleChild(lang, last.subtree, i))
    {
      if parent == None || childIndex == |parent.value.children| {
        return None, false;
      }
      var child := parent.value.children[childIndex];
      result := Some(TreeCursorEntry(child, position, childIndex, structuralChildIndex, descendantIndex));
      visible := child.head.visible;
      if !child.head.extra {
        visible := visible || AliasAt(lang, parent.value.head.productionId, structuralChildIndex) != 0;
        structuralChildIndex := structuralChildIndex + 1;
      }
      descendantIndex := descendantIndex + child.VisibleDescendantCount();
      if visible {
        descendantIndex := descendantIndex + 1;
      }
      position := LengthAdd(position, child.sum.size);
      childIndex := childIndex + 1;
      if childIndex < |parent.value.children| {
        position := LengthAdd(position, parent.value.children[childIndex].sum.padding);
      }
    }

    /** Takes children up to the next one that is visible or has visible children. */
    method NextLeading() returns (result: Option<TreeCursorEntry>, step: TreeCursorStep, ghost i: nat)
      requires Valid() && CountsRight(lang, last.subtree)
      modifies this
      ensures StepsTo(lang, last.subtree, old(childIndex), step, i)
      ensures step != StepNone ==> result == Some(ChildEntry(lang, last, isVisible, i))
    {
      ghost var (t, from) := (last.subtree, childIndex);
      while true
        invariant Valid()
        invariant PathsFrom(lang, t, from) == PathsFrom(lang, t, childIndex)
        decreases |t.children| - childIndex
      {
        i := childIndex;
        var entry, visible := Next();
        if entry == None {
          return None, StepNone, i;
        }
        ChildSteps(lang, t, from, i, childIndex);
        if visible {
          return entry, StepVisible, i;
        }
        if entry.value.subtree.VisibleChildCount() > 0 {
          return entry, StepHidden, i;
        }
      }
    }

    /** Takes children up to the first one that ends past the goal. */
    method NextPast(goal: nat) returns (result: Option<TreeCursorEntry>, visible: bool, ghost i: nat)
      requires Valid() && (|last.subtree.children| > 0 ==> descendantIndex <= goal)
      modifies this
      ensures match result
              case None =>
                |last.subtree.children| == 0 || NumberAt(lang, last, isVisible, |last.subtree.children|) <= goal
              case Some(entry) =>
                && i < |last.subtree.children| && entry == ChildEntry(lang, last, isVisible, i)
                && (visible <==> IsVisibleChild(lang, last.subtree, i))
                && NumberAt(lang, last, isVisible, i) <= goal < NumberAt(lang, last, isVisible, i + 1)
    {
      while true
        invariant Valid() && (|last.subtree.children| > 0 ==> descendantIndex <= goal)
        decreases |last.subtree.children| - childIndex
      {
        i := childIndex;
        result, visible := Next();
        if result == None || descendantIndex > goal {
          return;
        }
      }
    }
  }

  lemma EntriesSnoc(lang: Language, root: TreeCursorEntry, p: Path, i: nat)
    requires ValidPath(root.subtree, p) && i < |At(root.subtree, p).children|
    ensures ValidPath(root.subtree, p + [i]) && At(root.subtree, p + [i]) == At(root.subtree, p).children[i]
    ensures EntriesOf(lang, root, p + [i])
            == EntriesOf(lang, root, p)
               + [ChildEntry(lang, TopOf(lang, root, p), IsVisibleAt(lang, root.subtree, p), i)]
  {
    ValidSnoc(root.subtree, p, i);
    assert Front(p + [i]) == p && Back(p + [i]) == i;
  }

  predicate IsVisibleEntry(lang: Language, entries: seq<TreeCursorEntry>, index: nat)
    requires index < |entries|
  {
    var entry := entries[index];
    if index == 0 || entry.subtree.head.visible then true
    else if !entry.subtree.head.extra then
      AliasAt(lang, entries[index - 1].subtree.head.productionId, entry.structuralChildIndex) != 0
    else false
  }

  lemma SameVisibility(lang: Language, entries: seq<TreeCursorEntry>, d: nat)
    requires d < |entries|
    ensures IsVisibleEntry(lang, entries[..d + 1], d) <==> IsVisibleEntry(lang, entries, d)
  {
  }

  lemma EntryVisibility(lang: Language, root: TreeCursorEntry, p: Path)
    requires ValidPath(root.subtree, p)
    ensures IsVisibleEntry(lang, EntriesOf(lang, root, p), |p|) <==> IsVisibleAt(lang, root.subtree, p)
  {
    if p != [] {
      ValidFront(root.subtree, p);
      SnocFacts(lang, root.subtree, root.position, Front(p), Back(p));
      assert Front(p) + [Back(p)] == p;
    }
  }

  lemma {:induction false} CountsRightBelow(lang: Language, t: Subtree, p: Path)
    requires ValidPath(t, p) && CountsRight(lang, t)
    ensures CountsRight(lang, At(t, p))
    decreases p
  {
    if p == [] {
    } else {
      CountsRightBelow(lang, t.children[p[0]], p[1..]);
    }
  }

  /** A step to q that leads to the visible node sought. */
  ghost predicate Finds(lang: Language, t: Subtree, sought: Option<Path>, step: TreeCursorStep, q: Path) {
    match step
    case StepNone => sought == None
    case StepVisible => sought == Some(q)
    case StepHidden =>
      && ValidPath(t, q) && VisibleChildren(lang, At(t, q)) != []
      && sought == Some(q + VisibleChildren(lang, At(t, q))[0])
  }

  lemma ClimbStep(lang: Language, t: Subtree, q: Path)
    requires ValidPath(t, q) && q != []
    ensures ValidPath(t, Front(q)) && Back(q) < |At(t, Front(q)).children|
    ensures IsVisibleAt(lang, t, q) <==> IsVisibleChild(lang, At(t, Front(q)), Back(q))
    ensures Climb(lang, t, q, true)
            == (if Behind(lang, t, q).Some? then Behind(lang, t, q) else Climb(lang, t, Front(q), false))
    ensures Climb(lang, t, q, false) == if IsVisibleAt(lang, t, q) then None else Climb(lang, t, q, true)
  {
    ValidFront(t, q);
    SnocFacts(lang, t, LENGTH_ZERO, Front(q), Back(q));
    assert Front(q) + [Back(q)] == q;
  }

  lemma StepFinds(lang: Language, t: Subtree, q: Path, next: nat, step: TreeCursorStep, k: nat)
    requires ValidPath(t, q) && q != [] && ValidPath(t, Front(q)) && next == Back(q) + 1
    requires next <= |At(t, Front(q)).children| && StepsTo(lang, At(t, Front(q)), next, step, k)
    ensures Finds(lang, t, Behind(lang, t, q), step, Front(q) + [k])
  {
    var above := Front(q);
    ValidSnoc(t, above, k);
    if step == StepHidden {
      var first := VisibleChildren(lang, At(t, above).children[k])[0];
      assert above + ([k] + first) == above + [k] + first;
    }
  }

  function NextAddress(v: Address): Address
    requires v != []
  {
    Front(v) + [Back(v) + 1]
  }

  lemma NextAddressByClimbing(lang: Language, t: Subtree, v: Address)
    requires IsAddress(lang, t, v)
    ensures ValidPath(t, PathOf(lang, t, v))
    ensures Climb(lang, t, PathOf(lang, t, v), true)
            == if v != [] && IsAddress(lang, t, NextAddress(v)) then Some(PathOf(lang, t, NextAddress(v))) else None
  {
    AddressIsVisible(lang, t, v);
    if v != [] {
      assert Front(v) + [Back(v)] == v;
      ClimbFindsSibling(lang, t, Front(v), Back(v), Back(v) + 1);
    }
  }

  lemma ParentIsAbove(lang: Language, t: Subtree, v: Address)
    requires IsAddress(lang, t, v)
    ensures v != [] ==> |PathOf(lang, t, Front(v))| < |PathOf(lang, t, v)|
    ensures v == [] ==> PathOf(lang, t, v) == []
  {
    if v != [] {
      OnlyHiddenBetween(lang, At(t, PathOf(lang, t, Front(v))), 0, Back(v));
    }
  }

  /** The nearest visible ancestor of a visible node is its parent. */
  lemma ParentIsNearest(lang: Language, t: Subtree, v: Address, i: nat)
    requires IsAddress(lang, t, v) && v != []
    requires |PathOf(lang, t, Front(v))| <= i < |PathOf(lang, t, v)|
    ensures var p := PathOf(lang, t, v);
            && ValidPath(t, p[..i])
            && (IsVisibleAt(lang, t, p[..i]) <==> p[..i] == PathOf(lang, t, Front(v)))
            && (i == |PathOf(lang, t, Front(v))| ==> p[..i] == PathOf(lang, t, Front(v)))
  {
    var above := PathOf(lang, t, Front(v));
    AddressIsVisible(lang, t, Front(v));
    var (a, j) := (At(t, above), i - |above|);
    var q := VisibleChildren(lang, a)[Back(v)];
    OnlyHiddenBetween(lang, a, 0, Back(v));
    assert (above + q)[..i] == above + q[..j];
    if j > 0 {
      HiddenPrefix(lang, a, q, j);
      AtAppend(lang, t, above, q[..j]);
    } else {
      assert above + q[..j] == above;
    }
  }

  lemma {:induction false} HiddenPrefix(lang: Language, t: Subtree, q: Path, d: nat)
    requires ValidPath(t, q) && HiddenBetween(lang, t, q) && 0 < d < |q|
    ensures ValidPath(t, q[..d]) && !IsVisibleAt(lang, t, q[..d])
    decreases |q|
  {
    HiddenFront(lang, t, q);
    if d < |q| - 1 {
      HiddenPrefix(lang, t, Front(q), d);
      assert Front(q)[..d] == q[..d];
    }
  }

  class TreeCursor {
    const lang: Language
    const rootAliasSymbol: Symbol
    /** The stack's storage; entries beyond `size` are stale until overwritten. */
    var contents: seq<TreeCursorEntry>
    var size: nat
    ghost var root: TreeCursorEntry
    ghost var address: Address

    /** The stack holds the entries along the path p. */
    ghost predicate StandsAt(p: Path)
      reads `contents, `size, `root
    {
      && size <= |contents|
      && root.descendantIndex == 0
      && CountsRight(lang, root.subtree)
      && ValidPath(root.subtree, p)
      && contents[..size] == EntriesOf(lang, root, p)
    }

    /** The cursor is at a node of the visible tree. */
    ghost predicate Valid()
      reads this
    {
      && IsAddress(lang, root.subtree, address)
      && StandsAt(PathOf(lang, root.subtree, address))
    }

    ghost function Current(): Path
      requires Valid()
      reads this
    {
      PathOf(lang, root.subtree, address)
    }

    constructor (lang: Language, subtree: Subtree, position: Length, rootAliasSymbol: Symbol)
      requires CountsRight(lang, subtree)
      ensures Valid() && address == [] && this.lang == lang && this.rootAliasSymbol == rootAliasSymbol
      ensures root == TreeCursorEntry(subtree, position, 0, 0, 0)
    {
      this.lang, this.rootAliasSymbol := lang, rootAliasSymbol;
      contents, size := [TreeCursorEntry(subtree, position, 0, 0, 0)], 1;
      root, address := TreeCursorEntry(subtree, position, 0, 0, 0), [];
    }

    function Top(): TreeCursorEntry
      requires 0 < size <= |contents|
      reads `contents, `size
    {
      contents[size - 1]
    }

    predicate IsEntryVisible(index: nat)
      requires index < size <= |contents|
      reads `contents, `size
    {
      IsVisibleEntry(lang, contents, index)
    }

    lemma CurrentIsVisible(p: Path)
      requires StandsAt(p)
      ensures IsEntryVisible(size - 1) <==> IsVisibleAt(lang, root.subtree, p)
    {
      EntryVisibility(lang, root, p);
      SameVisibility(lang, contents, size - 1);
    }

    /** Dropping entries moves up the path. */
    lemma Truncated(p: Path, d: nat)
      requires StandsAt(p) && d <= |p|
      ensures ValidPath(root.subtree, p[..d])
      ensures contents[..d + 1] == EntriesOf(lang, root, p[..d])
      ensures IsEntryVisible(d) <==> IsVisibleAt(lang, root.subtree, p[..d])
    {
      EntriesPrefix(lang, root, p, d);
      EntryVisibility(lang, root, p[..d]);
      assert contents[..d + 1] == contents[..size][..d + 1];
      SameVisibility(lang, contents, d);
    }

    /** The number after the last visible node at or below the top node. */
    function NextNumber(): nat
      requires 0 < size <= |contents|
      reads `contents, `size
    {
      Top().descendantIndex + (if IsEntryVisible(size - 1) then 1 else 0) + Top().subtree.VisibleDescendantCount()
    }

    lemma TopChildVisible(p: Path, i: nat)
      requires ValidPath(root.subtree, p) && i < |At(root.subtree, p).children|
      requires ValidPath(root.subtree, p + [i]) && StandsAt(p + [i])
      ensures IsEntryVisible(size - 1) <==> IsVisibleChild(lang, At(root.subtree, p), i)
    {
      CurrentIsVisible(p + [i]);
      SnocFacts(lang, root.subtree, root.position, p, i);
    }

    method PushChild(entry: TreeCursorEntry, ghost p: Path, ghost i: nat)
      requires StandsAt(p) && i < |At(root.subtree, p).children|
      requires entry == ChildEntry(lang, Top(), IsVisibleAt(lang, root.subtree, p), i)
      modifies `contents, `size
      ensures StandsAt(p + [i]) && Top() == entry
      ensures IsEntryVisible(size - 1) <==> IsVisibleChild(lang, At(root.subtree, p), i)
      ensures Top().descendantIndex == NumberAt(lang, old(Top()), IsVisibleAt(lang, root.subtree, p), i)
      ensures NextNumber() == NumberAt(lang, old(Top()), IsVisibleAt(lang, root.subtree, p), i + 1)
    {
      EntriesSnoc(lang, root, p, i);
      contents, size := contents[..size] + [entry], size + 1;
      assert contents[..size] == contents;
      TopChildVisible(p, i);
    }

    /** The iterator comes to child i of the node at p. */
    ghost predicate Walks(walk: CursorChildIterator, p: Path, i: nat)
      reads `contents, `size, `root, walk
    {
      && walk.Valid() && StandsAt(p) && walk.childIndex == i
      && walk.lang == lang && walk.last == Top()
      && walk.isVisible == IsVisibleAt(lang, root.subtree, p)
    }

    method IterateChildren(ghost p: Path) returns (walk: CursorChildIterator)
      requires StandsAt(p)
      ensures fresh(walk) && Walks(walk, p, 0)
    {
      CurrentIsVisible(p);
      walk := new CursorChildIterator(lang, Top(), IsEntryVisible(size - 1));
    }

    /** Pushes the next child that is visible or has visible children. */
    method PushNext(walk: CursorChildIterator, ghost p: Path, ghost from: nat)
      returns (step: TreeCursorStep, ghost i: nat)
      requires Walks(walk, p, from)
      modifies `contents, `size, walk
      ensures from <= |At(root.subtree, p).children|
      ensures StepsTo(lang, At(root.subtree, p), from, step, i)
      ensures if step == StepNone then unchanged(this) else StandsAt(p + [i])
    {
      CountsRightBelow(lang, root.subtree, p);
      var entry;
      entry, step, i := walk.NextLeading();
      if step != StepNone {
        PushChild(entry.value, p, i);
      }
    }

    method GotoFirstChildInternal(ghost p: Path) returns (step: TreeCursorStep, ghost i: nat)
      requires StandsAt(p)
      modifies `contents, `size
      ensures StepsTo(lang, At(root.subtree, p), 0, step, i)
      ensures if step == StepNone then unchanged(this) else StandsAt(p + [i])
    {
      var children := IterateChildren(p);
      step, i := PushNext(children, p, 0);
    }

    lemma Deeper(q: Path, i: nat, below: Option<Path>)
      ensures below.Some? ==> q + ([i] + below.value) == q + [i] + below.value
    {
    }

    /** Goes down from any node, hidden or not, to its first visible child. */
    method Descend(ghost p: Path) returns (moved: bool)
      requires StandsAt(p)
      modifies `contents, `size
      ensures moved <==> VisibleChildren(lang, At(root.subtree, p)) != []
      ensures if moved then StandsAt(p + VisibleChildren(lang, At(root.subtree, p))[0]) else unchanged(this)
    {
      ghost var q := p;
      ghost var kids := VisibleChildren(lang, At(root.subtree, p));
      while true
        invariant StandsAt(q)
        invariant q == p ==> unchanged(this)
        invariant var below := VisibleChildren(lang, At(root.subtree, q));
                  && (below == [] ==> kids == [] && q == p)
                  && (below != [] ==> kids != [] && q + below[0] == p + kids[0])
        decreases At(root.subtree, q)
      {
        ghost var t := At(root.subtree, q);
        var step, i := GotoFirstChildInternal(q);
        match step
        case StepNone =>
          return false;
        case StepVisible =>
          return true;
        case StepHidden =>
          ValidSnoc(root.subtree, q, i);
          Deeper(q, i, FirstOf(VisibleChildren(lang, t.children[i])));
          q := q + [i];
      }
    }

    /** Goes to the first child in the visible tree; without one, the cursor stays. */
    method GotoFirstChild() returns (moved: bool)
      requires Valid()
      modifies `contents, `size, `address
      ensures Valid()
      ensures moved <==> IsAddress(lang, root.subtree, old(address) + [0])
      ensures if moved then address == old(address) + [0] else unchanged(this)
    {
      AddressSnoc(lang, root.subtree, address, 0);
      moved := Descend(Current());
      if moved {
        address := address + [0];
      }
    }

    /** An iterator over the top node's children that has just passed the one in the given entry. */
    method ResumeAfter(entry: TreeCursorEntry, ghost p: Path, ghost i: nat)
      returns (children: CursorChildIterator, visible: bool)
      requires StandsAt(p) && i < |At(root.subtree, p).children|
      requires entry == ChildEntry(lang, Top(), IsVisibleAt(lang, root.subtree, p), i)
      ensures fresh(children) && Walks(children, p, i + 1)
      ensures visible <==> IsVisibleChild(lang, At(root.subtree, p), i)
    {
      children := IterateChildren(p);
      children.childIndex := entry.childIndex;
      children.structuralChildIndex := entry.structuralChildIndex;
      children.position := entry.position;
      children.descendantIndex := entry.descendantIndex;
      var _, v := children.Next();
      visible := v;
    }

    lemma TopEntry(p: Path)
      requires StandsAt(p) && p != []
      ensures ValidPath(root.subtree, Front(p)) && Back(p) < |At(root.subtree, Front(p)).children|
      ensures contents[..size - 1] == EntriesOf(lang, root, Front(p))
      ensures Top() == ChildEntry(lang, contents[size - 2], IsVisibleAt(lang, root.subtree, Front(p)), Back(p))
    {
      ValidFront(root.subtree, p);
      assert contents[..size - 1] == contents[..size][..size - 1];
      assert Top() == contents[..size][|p|];
    }

    /** Pops the node at q; the iterator continues after it. */
    method PopIntoParent(ghost q: Path) returns (children: CursorChildIterator, visible: bool)
      requires StandsAt(q) && q != []
      modifies `size
      ensures StandsAt(Front(q)) && size == old(size) - 1
      ensures fresh(children) && Walks(children, Front(q), Back(q) + 1)
      ensures visible <==> IsVisibleAt(lang, root.subtree, q)
    {
      var entry := Top();
      TopEntry(q);
      ClimbStep(lang, root.subtree, q);
      size := size - 1;
      children, visible := ResumeAfter(entry, Front(q), Back(q));
    }

    /** Pushes the next of the later children of the parent of the node at q. */
    method PushBehind(children: CursorChildIterator, ghost q: Path) returns (step: TreeCursorStep, ghost r: Path)
      requires q != [] && ValidPath(root.subtree, q) && Walks(children, Front(q), Back(q) + 1)
      modifies `contents, `size, children
      ensures Finds(lang, root.subtree, Behind(lang, root.subtree, q), step, r)
      ensures if step == StepNone then unchanged(this) else StandsAt(r)
    {
      ghost var k;
      step, k := PushNext(children, Front(q), Back(q) + 1);
      StepFinds(lang, root.subtree, q, Back(q) + 1, step, k);
      r := Front(q) + [k];
    }

    /** The node at q is on top, and climbing from there still finds what is sought. */
    ghost predicate Seeks(sought: Option<Path>, q: Path, isStart: bool)
      reads `contents, `size, `root
    {
      StandsAt(q) && sought == Climb(lang, root.subtree, q, isStart)
    }

    /** One turn of the search for a sibling.  It is over when one has been pushed or a visible ancestor is left. */
    method SeekBehind(initialSize: nat, ghost q: Path, ghost sought: Option<Path>)
      returns (isOver: bool, step: TreeCursorStep, ghost r: Path)
      requires 1 < size <= initialSize && Seeks(sought, q, size == initialSize)
      modifies `contents, `size
      ensures isOver ==> Finds(lang, root.subtree, sought, step, r)
      ensures step == StepNone ==> contents == old(contents) && size == old(size) - 1 > 0
      ensures step != StepNone ==> isOver && StandsAt(r)
      ensures !isOver ==> Seeks(sought, r, false)
    {
      ClimbStep(lang, root.subtree, q);
      var children, visible := PopIntoParent(q);
      if visible && size + 1 < initialSize {
        return true, StepNone, q;
      }
      step, r := PushBehind(children, q);
      isOver := step != StepNone;
      if !isOver {
        r := Front(q);
      }
    }

    /** Looks for the next sibling of the node at p; a hidden one still has to be entered. */
    method GotoNextSiblingInternal(ghost p: Path) returns (step: TreeCursorStep, ghost q: Path)
      requires StandsAt(p)
      modifies `contents, `size
      ensures Finds(lang, root.subtree, Climb(lang, root.subtree, p, true), step, q)
      ensures if step == StepNone then unchanged(this) else StandsAt(q)
    {
      var initialSize := size;
      ghost var sought := Climb(lang, root.subtree, p, true);
      q := p;
      while size > 1
        invariant 0 < size <= initialSize && contents == old(contents)
        invariant Seeks(sought, q, size == initialSize)
      {
        var isOver;
        isOver, step, q := SeekBehind(initialSize, q, sought);
        if step != StepNone {
          return;
        }
        if isOver {
          size := initialSize;
          return;
        }
      }
      size := initialSize;
      step := StepNone;
    }

    /** Goes to the next sibling in the visible tree; without one, the cursor stays. */
    method GotoNextSibling() returns (moved: bool)
      requires Valid()
      modifies `contents, `size, `address
      ensures Valid()
      ensures moved <==> old(address) != [] && IsAddress(lang, root.subtree, NextAddress(old(address)))
      ensures if moved then address == NextAddress(old(address)) else unchanged(this)
    {
      NextAddressByClimbing(lang, root.subtree, address);
      ghost var sought := Climb(lang, root.subtree, Current(), true);
      var step, q := GotoNextSiblingInternal(Current());
      if step == StepNone {
        return false;
      }
      moved := true;
      if step == StepHidden {
        var _ := Descend(q);
      }
      assert StandsAt(sought.value);
      address := NextAddress(address);
    }

    lemma CheckAncestor(i: nat)
      requires Valid() && address != []
      requires |PathOf(lang, root.subtree, Front(address))| <= i < |Current()|
      ensures i == |PathOf(lang, root.subtree, Front(address))| ==> IsEntryVisible(i)
      ensures IsEntryVisible(i) ==> ValidPath(root.subtree, PathOf(lang, root.subtree, Front(address)))
      ensures IsEntryVisible(i) ==>
                contents[..i + 1] == EntriesOf(lang, root, PathOf(lang, root.subtree, Front(address)))
    {
      Truncated(Current(), i);
      ParentIsNearest(lang, root.subtree, address, i);
    }

    /** Goes to the parent in the visible tree; at the root, the cursor stays. */
    method GotoParent() returns (moved: bool)
      requires Valid()
      modifies `size, `address
      ensures Valid()
      ensures moved <==> old(address) != []
      ensures if moved then address == Front(old(address)) else unchanged(this)
    {
      ghost var p := Current();
      var i: int := size - 2;
      ParentIsAbove(lang, root.subtree, address);
      while i + 1 > 0
        invariant -1 <= i <= |p| - 1 && unchanged(this)
        invariant address != [] ==> |PathOf(lang, root.subtree, Front(address))| <= i
      {
        CheckAncestor(i);
        if IsEntryVisible(i) {
          size, address := i + 1, Front(address);
          return true;
        }
        i := i - 1;
      }
      return false;
    }

    /** The goal's number is taken by the top node or a node below it. */
    predicate Contains(goal: nat)
      requires 0 < size <= |contents|
      reads `contents, `size
    {
      Top().descendantIndex <= goal < NextNumber()
    }

    method Pop(ghost q: Path)
      requires StandsAt(q) && q != []
      modifies `size
      ensures size == old(size) - 1 && StandsAt(Front(q))
    {
      TopEntry(q);
      size := size - 1;
    }

    /** Goes up to the lowest ancestor that contains the goal. */
    method AscendTo(goal: nat, ghost p: Path) returns (found: bool, ghost q: Path)
      requires StandsAt(p)
      modifies `size
      ensures StandsAt(q) && (found <==> Contains(goal)) && (!found ==> q == [])
    {
      q := p;
      while true
        invariant StandsAt(q)
        decreases size
      {
        if Contains(goal) {
          return true, q;
        } else if size <= 1 {
          return false, q;
        }
        Pop(q);
        q := Front(q);
      }
    }

    lemma TopRange(p: Path)
      requires StandsAt(p)
      ensures IsEntryVisible(size - 1) <==> IsVisibleAt(lang, root.subtree, p)
      ensures NextNumber() == NumberAt(lang, Top(), IsVisibleAt(lang, root.subtree, p), |Top().subtree.children|)
    {
      CurrentIsVisible(p);
      CountsRightBelow(lang, root.subtree, p);
    }

    /** Finds the child that contains the goal, if the goal is below the top node. */
    method FindContaining(goal: nat, ghost p: Path)
      returns (entry: Option<TreeCursorEntry>, visible: bool, ghost i: nat)
      requires StandsAt(p) && Contains(goal)
      ensures var (top, isVisible) := (Top(), IsVisibleAt(lang, root.subtree, p));
              match entry
              case None => goal < NumberAt(lang, top, isVisible, 0)
              case Some(e) =>
                && i < |top.subtree.children| && e == ChildEntry(lang, top, isVisible, i)
                && (visible <==> IsVisibleChild(lang, top.subtree, i))
                && NumberAt(lang, top, isVisible, i) <= goal < NumberAt(lang, top, isVisible, i + 1)
    {
      TopRange(p);
      entry, visible, i := None, false, 0;
      var children := IterateChildren(p);
      if children.descendantIndex <= goal {
        entry, visible, i := children.NextPast(goal);
      }
    }

    method EnterChild(entry: TreeCursorEntry, ghost goal: nat, ghost p: Path, ghost i: nat)
      requires StandsAt(p) && i < |At(root.subtree, p).children|
      requires entry == ChildEntry(lang, Top(), IsVisibleAt(lang, root.subtree, p), i)
      requires NumberAt(lang, Top(), IsVisibleAt(lang, root.subtree, p), i) <= goal
      requires goal < NumberAt(lang, Top(), IsVisibleAt(lang, root.subtree, p), i + 1)
      modifies `contents, `size
      ensures StandsAt(p + [i]) && Contains(goal)
      ensures IsEntryVisible(size - 1) <==> IsVisibleChild(lang, At(root.subtree, p), i)
      ensures At(root.subtree, p + [i]) == At(root.subtree, p).children[i]
    {
      PushChild(entry, p, i);
      ValidSnoc(root.subtree, p, i);
    }

    /** Pushes the child that contains the goal, if the goal is below the top node. */
    method DescendTowards(goal: nat, ghost p: Path) returns (pushed: bool, visible: bool, ghost i: nat)
      requires StandsAt(p) && Contains(goal)
      modifies `contents, `size
      ensures size > 0 && size <= |contents| && Contains(goal)
      ensures pushed ==>
                && i < |At(root.subtree, p).children| && StandsAt(p + [i])
                && (visible <==> IsEntryVisible(size - 1))
                && At(root.subtree, p + [i]) == At(root.subtree, p).children[i]
      ensures !pushed ==> StandsAt(p) && IsEntryVisible(size - 1) && Top().descendantIndex == goal
    {
      var entry;
      entry, visible, i := FindContaining(goal, p);
      pushed := entry != None;
      if pushed {
        EnterChild(entry.value, goal, p, i);
      } else {
        CurrentIsVisible(p);
      }
    }

    /** The visible nodes are numbered in pre-order: the root is 0, the list of its descendants starts at 1. */
    lemma NumberedNode(p: Path)
      requires StandsAt(p) && IsVisibleAt(lang, root.subtree, p)
      ensures var number := Top().descendantIndex;
              && number <= |VisibleDescendants(lang, root.subtree)|
              && p == if number == 0 then [] else VisibleDescendants(lang, root.subtree)[number - 1]
    {
      TopFacts(lang, root, p);
      assert Top() == contents[..size][|p|];
      if p != [] {
        NumberFindsNode(lang, root.subtree, p);
      }
    }

    lemma RootNumbers(goal: nat)
      requires StandsAt([])
      ensures Contains(goal) <==> goal <= |VisibleDescendants(lang, root.subtree)|
    {
      CountsAreSizes(lang, root.subtree);
      assert Top() == contents[..size][0];
    }

    method DescendTo(goal: nat, ghost p: Path) returns (ghost q: Path)
      requires StandsAt(p) && Contains(goal)
      modifies `contents, `size
      ensures StandsAt(q) && IsEntryVisible(size - 1) && Top().descendantIndex == goal
    {
      q := p;
      var didDescend := true;
      while didDescend
        invariant StandsAt(q) && Contains(goal)
        invariant !didDescend ==> IsEntryVisible(size - 1) && Top().descendantIndex == goal
        decreases At(root.subtree, q), didDescend
      {
        var pushed, visible, i := DescendTowards(goal, q);
        q := if pushed then q + [i] else q;
        didDescend := pushed && !(visible && Top().descendantIndex == goal);
      }
    }

    ghost method Settle(p: Path)
      requires StandsAt(p) && IsVisibleAt(lang, root.subtree, p)
      modifies `address
      ensures Valid() && Current() == p
    {
      address := AddressOf(lang, root.subtree, p);
    }

    /** Goes to the visible node with the given pre-order number, from wherever the cursor is; to the root if
        there is no such node. */
    method GotoDescendant(goal: nat)
      requires Valid()
      modifies `contents, `size, `address
      ensures Valid()
      ensures var all := VisibleDescendants(lang, root.subtree);
              && (goal <= |all| ==> Top().descendantIndex == goal)
              && Current() == if 0 < goal <= |all| then all[goal - 1] else []
    {
      var found, p := AscendTo(goal, Current());
      if !found {
        RootNumbers(goal);
      } else {
        p := DescendTo(goal, p);
        CurrentIsVisible(p);
        NumberedNode(p);
      }
      Settle(p);
    }

    method CurrentDescendantIndex() returns (number: nat)
      requires Valid()
      ensures number == Top().descendantIndex
      ensures var all := VisibleDescendants(lang, root.subtree);
              number <= |all| && Current() == if number == 0 then [] else all[number - 1]
    {
      AddressIsVisible(lang, root.subtree, address);
      NumberedNode(Current());
      number := Top().descendantIndex;
    }

    /** Jumping to a number and asking for it again: the number comes back, or 0 if no node has it. */
    method GotoAndReport(goal: nat) returns (number: nat)
      requires Valid()
      modifies `contents, `size, `address
      ensures Valid() && number == if goal <= |VisibleDescendants(lang, root.subtree)| then goal else 0
    {
      GotoDescendant(goal);
      number := CurrentDescendantIndex();
      NoSecondNumber(number);
    }

    /** Asking for the number, going anywhere else and jumping to the number: the cursor is back. */
    method ReportAndReturn(elsewhere: nat) returns (number: nat)
      requires Valid()
      modifies `contents, `size, `address
      ensures Valid() && Current() == old(Current())
    {
      number := CurrentDescendantIndex();
      GotoDescendant(elsewhere);
      GotoDescendant(number);
    }

    /** The root does not occur in the list of its descendants. */
    lemma NoSecondNumber(number: nat)
      requires CountsRight(lang, root.subtree) && number <= |VisibleDescendants(lang, root.subtree)|
      ensures number > 0 ==> VisibleDescendants(lang, root.subtree)[number - 1] != []
    {
      if number > 0 {
        NodeHasNumber(lang, root.subtree, |root.subtree.children|, number - 1);
      }
    }

    /** The entry below the top one is the parent's. */
    lemma EntriesBelow(p: Path)
      requires StandsAt(p) && p != []
      ensures ValidPath(root.subtree, Front(p)) && Back(p) < |At(root.subtree, Front(p)).children| && size == |p| + 1
      ensures contents[size - 2].subtree == At(root.subtree, Front(p))
      ensures Top().structuralChildIndex == StructuralIndex(At(root.subtree, Front(p)).children, Back(p))
    {
      ValidFront(root.subtree, p);
      var above := EntriesOf(lang, root, Front(p));
      assert EntriesOf(lang, root, p)
             == above + [ChildEntry(lang, above[|p| - 1], IsVisibleAt(lang, root.subtree, Front(p)), Back(p))];
      assert contents[size - 2] == contents[..size][|p| - 1] && Top() == contents[..size][|p|];
    }

    /** The node at the cursor's address, at the position found by walking down, with the alias that its place in
        the tree gives it. */
    method CurrentNode() returns (subtree: Subtree, position: Length, alias: Symbol)
      requires Valid()
      ensures ValidPath(root.subtree, Current()) && subtree == At(root.subtree, Current())
      ensures position == WalkStart(root.subtree, root.position, Current())
      ensures alias == AliasOf(lang, root.subtree, rootAliasSymbol, Current())
    {
      TopFacts(lang, root, Current());
      assert Top() == contents[..size][|Current()|];
      subtree, position := Top().subtree, Top().position;
      alias := if subtree.head.extra then 0 else rootAliasSymbol;
      if size > 1 {
        EntriesBelow(Current());
        if !subtree.head.extra {
          alias := AliasAt(lang, contents[size - 2].subtree.head.productionId, Top().structuralChildIndex);
        }
      }
    }
  }
}
