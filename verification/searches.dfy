/** Searching a graph with many iterators at once: what there is to find, and that nothing gets lost
    unless the number of iterators is cut off (stack.c). */
module Searches {
  /** The choices made on the way down from the start, one index per node passed. */
  type Trail = seq<nat>

  const MAX_ITERATOR_COUNT := 64

  datatype StackAction = StackAction(pop: bool, stop: bool)

  /** When to pop and stop is decided by a callback; an iterator that goes on splits up into those that come
      next, which are on lower levels. */
  datatype Search<!I> = Search(callback: I -> StackAction, next: I -> seq<I>, level: I -> nat)

  ghost predicate Descends<I(!new)>(s: Search<I>) {
    forall it: I, j: nat | j < |s.next(it)| :: s.level(s.next(it)[j]) < s.level(it)
  }

  predicate Stops<I>(s: Search<I>, it: I) {
    s.callback(it).stop || |s.next(it)| == 0
  }

  /** The trail v, continuing from the iterator, is popped at its end and not stopped before. */
  predicate IsPop<I>(s: Search<I>, it: I, v: Trail)
    decreases v
  {
    if v == [] then s.callback(it).pop
    else !Stops(s, it) && v[0] < |s.next(it)| && IsPop(s, s.next(it)[v[0]], v[1..])
  }

  /** What is below an iterator: the trails to pop, how many iterators it can split into, and the work left. */
  datatype Account = Account(pops: multiset<Trail>, width: nat, work: nat)

  const NOTHING := Account(multiset{}, 0, 0)

  function Plus(a: Account, b: Account): Account {
    Account(a.pops + b.pops, a.width + b.width, a.work + b.work)
  }

  /** An iterator's own pop. */
  function OwnPops<I>(s: Search<I>, it: I, trail: Trail): multiset<Trail> {
    if s.callback(it).pop then multiset{trail} else multiset{}
  }

  /** The sum of the first k accounts. */
  function SumTo(xs: seq<Account>, k: nat): Account
    requires k <= |xs|
  {
    if k == 0 then NOTHING else Plus(SumTo(xs, k - 1), xs[k - 1])
  }

  ghost function AccountOf<I(!new)>(s: Search<I>, it: I, trail: Trail): (a: Account)
    requires Descends(s)
    ensures a.width > 0 && a.work > 0
    decreases s.level(it), 1
  {
    if Stops(s, it) then Account(OwnPops(s, it, trail), 1, 1)
    else
      var parts := PartsOf(s, it, trail);
      Plus(SumTo(parts, |parts|), Account(OwnPops(s, it, trail), 0, 1))
  }

  /** The accounts of the iterators that come next. */
  ghost function PartsOf<I(!new)>(s: Search<I>, it: I, trail: Trail): (parts: seq<Account>)
    requires Descends(s)
    ensures |parts| == |s.next(it)| && forall j | 0 <= j < |parts| :: parts[j].width > 0
    decreases s.level(it), 0
  {
    seq(|s.next(it)|, j requires 0 <= j < |s.next(it)| => AccountOf(s, s.next(it)[j], trail + [j]))
  }

  /** Each trail to pop is on account once. */
  lemma {:induction false} PopsOnce<I(!new)>(s: Search<I>, it: I, trail: Trail, t: Trail)
    requires Descends(s)
    ensures AccountOf(s, it, trail).pops[t] == if trail <= t && IsPop(s, it, t[|trail|..]) then 1 else 0
    decreases s.level(it)
  {
    if trail <= t && |t| == |trail| {
      assert t == trail && t[|trail|..] == [];
    }
    if !Stops(s, it) {
      var parts := PartsOf(s, it, trail);
      var found := trail <= t && IsPop(s, it, t[|trail|..]);
      forall j: nat | j < |parts|
        ensures parts[j].pops[t] == if trail + [j] <= t && found then 1 else 0
      {
        PopsOnce(s, s.next(it)[j], trail + [j], t);
        if trail + [j] <= t {
          PopsThrough(s, it, trail, t, j);
        }
      }
      CountThrough(parts, trail, t, found, |parts|);
    }
  }

  lemma PopsThrough<I(!new)>(s: Search<I>, it: I, trail: Trail, t: Trail, j: nat)
    requires !Stops(s, it) && j < |s.next(it)| && trail + [j] <= t
    ensures trail <= t
    ensures IsPop(s, it, t[|trail|..]) <==> IsPop(s, s.next(it)[j], t[|trail + [j]|..])
  {
    assert t[|trail|..][0] == j && t[|trail|..][1..] == t[|trail + [j]|..];
  }

  /** The trail t leads through one of the first k children of the node at the end of the given trail. */
  predicate LeadsThrough(trail: Trail, t: Trail, k: nat) {
    trail < t && t[|trail|] < k
  }

  /** At most one child's account can hold the trail. */
  lemma {:induction false} CountThrough(parts: seq<Account>, trail: Trail, t: Trail, found: bool, k: nat)
    requires forall j: nat | j < |parts| :: parts[j].pops[t] == if trail + [j] <= t && found then 1 else 0
    requires k <= |parts|
    ensures SumTo(parts, k).pops[t] == if LeadsThrough(trail, t, k) && found then 1 else 0
  {
    if k == 0 {
    } else {
      CountThrough(parts, trail, t, found, k - 1);
      assert trail + [k - 1] <= t <==> LeadsThrough(trail, t, k) && !LeadsThrough(trail, t, k - 1);
    }
  }

  // ----- Live iterators -----

  /** An iterator with the trail it has come along. */
  datatype Live<+I> = Live(it: I, trail: Trail)

  function ChildrenOf<I>(s: Search<I>, l: Live<I>): (cs: seq<Live<I>>)
    ensures |cs| == |s.next(l.it)|
  {
    seq(|s.next(l.it)|, j requires 0 <= j < |s.next(l.it)| => Live(s.next(l.it)[j], l.trail + [j]))
  }

  /** How many of the next iterators there is room for, besides the first, which takes its parent's place. */
  function ForkCount(live: nat, children: nat): (k: nat)
    requires children > 0
    ensures k < children
  {
    var room := if live < MAX_ITERATOR_COUNT then MAX_ITERATOR_COUNT - live else 0;
    if children - 1 < room then children - 1 else room
  }

  /** What one step makes of the live iterators when the i-th one is allowed the given number of forks. */
  function WithForks<I>(s: Search<I>, ls: seq<Live<I>>, i: nat, forks: nat): seq<Live<I>>
    requires i < |ls| && (Stops(s, ls[i].it) || forks < |s.next(ls[i].it)|)
  {
    if Stops(s, ls[i].it) then ls[..i] + ls[i + 1..]
    else
      var cs := ChildrenOf(s, ls[i]);
      ls[i := cs[0]] + cs[1..forks + 1]
  }

  /** One step: the i-th iterator stops or moves on, and splits as far as there is room. */
  function Stepped<I>(s: Search<I>, ls: seq<Live<I>>, i: nat): seq<Live<I>>
    requires i < |ls|
  {
    if Stops(s, ls[i].it) then WithForks(s, ls, i, 0)
    else WithForks(s, ls, i, ForkCount(|ls|, |s.next(ls[i].it)|))
  }

  /** The same without a limit on the number of iterators. */
  function SteppedFreely<I>(s: Search<I>, ls: seq<Live<I>>, i: nat): seq<Live<I>>
    requires i < |ls|
  {
    if Stops(s, ls[i].it) then WithForks(s, ls, i, 0) else WithForks(s, ls, i, |s.next(ls[i].it)| - 1)
  }

  // ----- Sums of accounts -----

  function Sum(xs: seq<Account>): Account {
    if xs == [] then NOTHING else Plus(Sum(xs[..|xs| - 1]), xs[|xs| - 1])
  }

  lemma PlusNothing(a: Account)
    ensures Plus(a, NOTHING) == a
  {
    assert a.pops + multiset{} == a.pops;
  }

  lemma PlusAssociative(a: Account, b: Account, c: Account)
    ensures Plus(Plus(a, b), c) == Plus(a, Plus(b, c))
  {
  }

  lemma PlusSwap(a: Account, b: Account, c: Account)
    ensures Plus(Plus(a, b), c) == Plus(Plus(a, c), b)
  {
  }

  lemma SumSnoc(xs: seq<Account>, x: Account)
    ensures Sum(xs + [x]) == Plus(Sum(xs), x)
  {
    assert (xs + [x])[..|xs|] == xs;
  }

  lemma {:induction false} SumConcat(xs: seq<Account>, ys: seq<Account>)
    ensures Sum(xs + ys) == Plus(Sum(xs), Sum(ys))
  {
    if ys == [] {
      assert xs + ys == xs;
      PlusNothing(Sum(xs));
      assert Sum(ys) == NOTHING;
    } else {
      var (zs, y) := (ys[..|ys| - 1], ys[|ys| - 1]);
      SumConcat(xs, zs);
      assert xs + ys == (xs + zs) + [y];
      SumSnoc(xs + zs, y);
      PlusAssociative(Sum(xs), Sum(zs), y);
    }
  }

  lemma SumOne(x: Account)
    ensures Sum([x]) == x
  {
    SumSnoc([], x);
    assert [] + [x] == [x] && multiset{} + x.pops == x.pops;
  }

  lemma {:induction false} SumSet(xs: seq<Account>, i: nat, x: Account)
    requires i < |xs|
    ensures Plus(Sum(xs[i := x]), xs[i]) == Plus(Sum(xs), x)
  {
    var k := |xs| - 1;
    if i == k {
      assert xs[i := x][..k] == xs[..k];
      PlusSwap(Sum(xs[..k]), x, xs[i]);
    } else {
      var (ys, last) := (xs[..k], xs[k]);
      SumSet(ys, i, x);
      assert xs[i := x][..k] == ys[i := x];
      PlusSwap(Sum(ys[i := x]), last, xs[i]);
      PlusSwap(Sum(ys), last, x);
    }
  }

  lemma {:induction false} SumErase(xs: seq<Account>, i: nat)
    requires i < |xs|
    ensures Plus(Sum(xs[..i] + xs[i + 1..]), xs[i]) == Sum(xs)
  {
    var k := |xs| - 1;
    if i == k {
      assert xs[..i] + xs[i + 1..] == xs[..k];
    } else {
      var (ys, last) := (xs[..k], xs[k]);
      SumErase(ys, i);
      assert xs[..i] + xs[i + 1..] == (ys[..i] + ys[i + 1..]) + [last];
      SumSnoc(ys[..i] + ys[i + 1..], last);
      PlusSwap(Sum(ys[..i] + ys[i + 1..]), last, xs[i]);
    }
  }

  lemma {:induction false} SumToIsSum(xs: seq<Account>, k: nat)
    requires k <= |xs|
    ensures SumTo(xs, k) == Sum(xs[..k])
  {
    if k > 0 {
      SumToIsSum(xs, k - 1);
      assert xs[..k] == xs[..k - 1] + [xs[k - 1]];
      SumSnoc(xs[..k - 1], xs[k - 1]);
    } else {
      assert xs[..0] == [];
    }
  }

  // ----- What is still to be found below the live iterators -----

  ghost function AccountsOf<I(!new)>(s: Search<I>, ls: seq<Live<I>>): (xs: seq<Account>)
    requires Descends(s)
    ensures |xs| == |ls| && forall i | 0 <= i < |xs| :: xs[i].width > 0 && xs[i].work > 0
  {
    seq(|ls|, i requires 0 <= i < |ls| => AccountOf(s, ls[i].it, ls[i].trail))
  }

  ghost function Total<I(!new)>(s: Search<I>, ls: seq<Live<I>>): Account
    requires Descends(s)
  {
    Sum(AccountsOf(s, ls))
  }

  lemma TotalConcat<I(!new)>(s: Search<I>, ls: seq<Live<I>>, ms: seq<Live<I>>)
    requires Descends(s)
    ensures Total(s, ls + ms) == Plus(Total(s, ls), Total(s, ms))
  {
    assert AccountsOf(s, ls + ms) == AccountsOf(s, ls) + AccountsOf(s, ms);
    SumConcat(AccountsOf(s, ls), AccountsOf(s, ms));
  }

  lemma TotalSet<I(!new)>(s: Search<I>, ls: seq<Live<I>>, i: nat, l: Live<I>)
    requires Descends(s) && i < |ls|
    ensures Plus(Total(s, ls[i := l]), AccountOf(s, ls[i].it, ls[i].trail))
            == Plus(Total(s, ls), AccountOf(s, l.it, l.trail))
  {
    var x := AccountOf(s, l.it, l.trail);
    assert AccountsOf(s, ls[i := l]) == AccountsOf(s, ls)[i := x];
    SumSet(AccountsOf(s, ls), i, x);
  }

  lemma TotalErase<I(!new)>(s: Search<I>, ls: seq<Live<I>>, i: nat)
    requires Descends(s) && i < |ls|
    ensures Plus(Total(s, ls[..i] + ls[i + 1..]), AccountOf(s, ls[i].it, ls[i].trail)) == Total(s, ls)
  {
    var xs := AccountsOf(s, ls);
    assert AccountsOf(s, ls[..i] + ls[i + 1..]) == xs[..i] + xs[i + 1..];
    SumErase(xs, i);
  }

  lemma TotalOne<I(!new)>(s: Search<I>, l: Live<I>)
    requires Descends(s)
    ensures Total(s, [l]) == AccountOf(s, l.it, l.trail)
  {
    assert AccountsOf(s, [l]) == [AccountOf(s, l.it, l.trail)];
    SumOne(AccountOf(s, l.it, l.trail));
  }

  lemma {:induction false} EnoughWidth(xs: seq<Account>)
    requires forall i | 0 <= i < |xs| :: xs[i].width > 0
    ensures |xs| <= Sum(xs).width
  {
    if xs == [] {
    } else {
      EnoughWidth(xs[..|xs| - 1]);
    }
  }

  /** An iterator that goes on accounts for itself and for those that come next. */
  lemma ChildrenAccount<I(!new)>(s: Search<I>, l: Live<I>)
    requires Descends(s) && !Stops(s, l.it)
    ensures AccountOf(s, l.it, l.trail)
            == Plus(Total(s, ChildrenOf(s, l)), Account(OwnPops(s, l.it, l.trail), 0, 1))
  {
    var parts := PartsOf(s, l.it, l.trail);
    assert AccountsOf(s, ChildrenOf(s, l)) == parts;
    SumToIsSum(parts, |parts|);
    assert parts[..|parts|] == parts;
  }

  /** What an iterator is done with when it has been stepped. */
  ghost function OwnAccount<I>(s: Search<I>, l: Live<I>): Account {
    Account(OwnPops(s, l.it, l.trail), if Stops(s, l.it) then 1 else 0, 1)
  }

  /** The accounts of the iterators that there is no room for. */
  ghost function Refused<I(!new)>(s: Search<I>, l: Live<I>, forks: nat): Account
    requires Descends(s) && (Stops(s, l.it) || forks < |s.next(l.it)|)
  {
    if Stops(s, l.it) then NOTHING else Total(s, ChildrenOf(s, l)[forks + 1..])
  }

  lemma ChildrenSplit<I(!new)>(s: Search<I>, l: Live<I>, forks: nat)
    requires Descends(s) && !Stops(s, l.it) && forks < |s.next(l.it)|
    ensures var cs := ChildrenOf(s, l);
            AccountOf(s, l.it, l.trail)
            == Plus(Plus(AccountOf(s, cs[0].it, cs[0].trail), Plus(Total(s, cs[1..forks + 1]), Refused(s, l, forks))),
                    OwnAccount(s, l))
  {
    ChildrenAccount(s, l);
    TotalSplit(s, ChildrenOf(s, l), forks);
  }

  lemma TotalSplit<I(!new)>(s: Search<I>, ls: seq<Live<I>>, k: nat)
    requires Descends(s) && k < |ls|
    ensures Total(s, ls)
            == Plus(AccountOf(s, ls[0].it, ls[0].trail), Plus(Total(s, ls[1..k + 1]), Total(s, ls[k + 1..])))
  {
    var (first, some, rest) := ([ls[0]], ls[1..k + 1], ls[k + 1..]);
    assert ls == first + (some + rest);
    TotalConcat(s, first, some + rest);
    TotalConcat(s, some, rest);
    TotalOne(s, ls[0]);
  }

  lemma StopTotal<I(!new)>(s: Search<I>, ls: seq<Live<I>>, i: nat)
    requires Descends(s) && i < |ls| && Stops(s, ls[i].it)
    ensures Plus(Plus(Total(s, WithForks(s, ls, i, 0)), NOTHING), OwnAccount(s, ls[i])) == Total(s, ls)
  {
    TotalErase(s, ls, i);
    PlusNothing(Total(s, WithForks(s, ls, i, 0)));
  }

  lemma MoveTotal<I(!new)>(s: Search<I>, ls: seq<Live<I>>, i: nat, forks: nat)
    requires Descends(s) && i < |ls| && !Stops(s, ls[i].it) && forks < |s.next(ls[i].it)|
    ensures Plus(Plus(Total(s, WithForks(s, ls, i, forks)), Refused(s, ls[i], forks)), OwnAccount(s, ls[i]))
            == Total(s, ls)
  {
    var (l, cs) := (ls[i], ChildrenOf(s, ls[i]));
    TotalSet(s, ls, i, cs[0]);
    TotalConcat(s, ls[i := cs[0]], cs[1..forks + 1]);
    ChildrenSplit(s, l, forks);
    MovedOn(Total(s, ls), AccountOf(s, l.it, l.trail), AccountOf(s, cs[0].it, cs[0].trail),
            Total(s, ls[i := cs[0]]), Total(s, cs[1..forks + 1]), Refused(s, l, forks), OwnAccount(s, l));
  }

  /** A step turns work into results and losses, and nothing else gets lost. */
  lemma StepTotal<I(!new)>(s: Search<I>, ls: seq<Live<I>>, i: nat, forks: nat)
    requires Descends(s) && i < |ls|
    requires if Stops(s, ls[i].it) then forks == 0 else forks < |s.next(ls[i].it)|
    ensures Plus(Plus(Total(s, WithForks(s, ls, i, forks)), Refused(s, ls[i], forks)), OwnAccount(s, ls[i]))
            == Total(s, ls)
  {
    if Stops(s, ls[i].it) {
      StopTotal(s, ls, i);
    } else {
      MoveTotal(s, ls, i, forks);
    }
  }

  lemma MovedOn(all: Account, parent: Account, first: Account, moved: Account, kept: Account, lost: Account,
                own: Account)
    requires Plus(moved, parent) == Plus(all, first)
    requires parent == Plus(Plus(first, Plus(kept, lost)), own)
    ensures Plus(Plus(Plus(moved, kept), lost), own) == all
  {
    forall t: Trail
      ensures (((moved.pops + kept.pops) + lost.pops) + own.pops)[t] == all.pops[t]
    {
      assert (moved.pops + parent.pops)[t] == (all.pops + first.pops)[t];
    }
    assert ((moved.pops + kept.pops) + lost.pops) + own.pops == all.pops;
  }

  // ----- The most iterators alive at one time -----

  /** How far the round is after a step. */
  function NextIndex<I>(s: Search<I>, ls: seq<Live<I>>, i: nat): nat
    requires i < |ls|
  {
    if Stops(s, ls[i].it) then i else i + 1
  }

  function NextSize<I>(s: Search<I>, ls: seq<Live<I>>, i: nat, size: nat): nat
    requires i < |ls| && i < size
  {
    if Stops(s, ls[i].it) then size - 1 else size
  }

  function Larger(a: nat, b: nat): nat {
    if a < b then b else a
  }

  lemma StepWorks<I(!new)>(s: Search<I>, ls: seq<Live<I>>, i: nat, forks: nat)
    requires Descends(s) && i < |ls|
    requires if Stops(s, ls[i].it) then forks == 0 else forks < |s.next(ls[i].it)|
    ensures Total(s, WithForks(s, ls, i, forks)).work < Total(s, ls).work
    ensures Total(s, WithForks(s, ls, i, forks)).width <= Total(s, ls).width
  {
    StepTotal(s, ls, i, forks);
  }

  lemma FreeStepWorks<I(!new)>(s: Search<I>, ls: seq<Live<I>>, i: nat)
    requires Descends(s) && i < |ls|
    ensures Total(s, SteppedFreely(s, ls, i)).work < Total(s, ls).work
    ensures Total(s, SteppedFreely(s, ls, i)).width <= Total(s, ls).width
    ensures |SteppedFreely(s, ls, i)| >= |ls| - (if Stops(s, ls[i].it) then 1 else 0)
  {
    StepWorks(s, ls, i, if Stops(s, ls[i].it) then 0 else |s.next(ls[i].it)| - 1);
  }

  /** The most iterators alive at one time in the rest of a search without a limit, from the i-th of the iterators
      that the current round steps. */
  ghost function Peak<I(!new)>(s: Search<I>, ls: seq<Live<I>>, i: nat, size: nat): nat
    requires Descends(s) && i <= size <= |ls|
    decreases Total(s, ls).work, if i == size then 1 else 0
  {
    if |ls| == 0 then 0
    else if i == size then Peak(s, ls, 0, |ls|)
    else
      FreeStepWorks(s, ls, i);
      var next := SteppedFreely(s, ls, i);
      Larger(|next|, Peak(s, next, NextIndex(s, ls, i), NextSize(s, ls, i, size)))
  }

  lemma FewerThanWidth<I(!new)>(s: Search<I>, ls: seq<Live<I>>)
    requires Descends(s)
    ensures |ls| <= Total(s, ls).width
  {
    EnoughWidth(AccountsOf(s, ls));
  }

  /** There are never more of them than there are ends to the search. */
  lemma {:induction false} PeakBelowWidth<I(!new)>(s: Search<I>, ls: seq<Live<I>>, i: nat, size: nat)
    requires Descends(s) && i <= size <= |ls|
    ensures Peak(s, ls, i, size) <= Total(s, ls).width
    decreases Total(s, ls).work, if i == size then 1 else 0
  {
    if |ls| == 0 {
    } else {
      if i == size {
        PeakBelowWidth(s, ls, 0, |ls|);
      } else {
        FreeStepWorks(s, ls, i);
        var next := SteppedFreely(s, ls, i);
        FewerThanWidth(s, next);
        PeakBelowWidth(s, next, NextIndex(s, ls, i), NextSize(s, ls, i, size));
      }
    }
  }

  // ----- A search in progress -----

  /** The total is accounted for by the work left, the results and the losses. */
  ghost predicate Balanced(total: Account, left: Account, done: Account, lost: Account, origins: seq<Trail>) {
    Plus(Plus(left, done), lost) == total && done.pops == multiset(origins)
  }

  /** Nothing has been lost and nothing will be, if there is room for all iterators at all times. */
  ghost predicate HasRoom<I(!new)>(s: Search<I>, ls: seq<Live<I>>, i: nat, size: nat, peak: nat, lost: Account) {
    && Descends(s) && i <= size <= |ls|
    && (peak <= MAX_ITERATOR_COUNT ==> lost == NOTHING && Peak(s, ls, i, size) <= peak)
  }

  ghost predicate InBalance<I(!new)>(s: Search<I>, ls: seq<Live<I>>, i: nat, size: nat, peak: nat, total: Account,
                                     done: Account, lost: Account, origins: seq<Trail>)
  {
    HasRoom(s, ls, i, size, peak, lost) && Balanced(total, Total(s, ls), done, lost, origins)
  }

  lemma BalanceAtStart<I(!new)>(s: Search<I>, it: I)
    requires Descends(s)
    ensures var ls := [Live(it, [])];
            InBalance(s, ls, 0, 1, Peak(s, ls, 0, 1), AccountOf(s, it, []), NOTHING, NOTHING, [])
  {
    TotalOne(s, Live(it, []));
    PlusNothing(AccountOf(s, it, []));
  }

  lemma NextRound<I(!new)>(s: Search<I>, ls: seq<Live<I>>, i: nat, peak: nat, total: Account, done: Account,
                           lost: Account, origins: seq<Trail>)
    requires InBalance(s, ls, i, i, peak, total, done, lost, origins)
    ensures InBalance(s, ls, 0, |ls|, peak, total, done, lost, origins)
  {
  }

  /** Unless the peak is too high, the limit plays no part in a step. */
  lemma RoomForAll<I(!new)>(s: Search<I>, ls: seq<Live<I>>, i: nat, size: nat)
    requires Descends(s) && i < size <= |ls| && Peak(s, ls, i, size) <= MAX_ITERATOR_COUNT
    ensures Stepped(s, ls, i) == SteppedFreely(s, ls, i)
    ensures Refused(s, ls[i], ForksAt(s, ls, i)) == NOTHING
  {
    PeakOfNext(s, ls, i, size, SteppedFreely(s, ls, i));
    if !Stops(s, ls[i].it) {
      var n := |s.next(ls[i].it)|;
      assert |SteppedFreely(s, ls, i)| == |ls| + n - 1;
      assert ForkCount(|ls|, n) == n - 1;
      assert ChildrenOf(s, ls[i])[n..] == [];
    }
  }

  /** How many forks the limit leaves. */
  function ForksAt<I>(s: Search<I>, ls: seq<Live<I>>, i: nat): (forks: nat)
    requires i < |ls|
    ensures if Stops(s, ls[i].it) then forks == 0 else forks < |s.next(ls[i].it)|
    ensures Stepped(s, ls, i) == WithForks(s, ls, i, forks)
  {
    if Stops(s, ls[i].it) then 0 else ForkCount(|ls|, |s.next(ls[i].it)|)
  }

  lemma FreelyIfRoom<I(!new)>(s: Search<I>, ls: seq<Live<I>>, i: nat, size: nat, peak: nat, lost: Account)
    requires HasRoom(s, ls, i, size, peak, lost) && i < size
    ensures peak <= MAX_ITERATOR_COUNT ==>
              Stepped(s, ls, i) == SteppedFreely(s, ls, i) && Refused(s, ls[i], ForksAt(s, ls, i)) == NOTHING
  {
    if peak <= MAX_ITERATOR_COUNT {
      RoomForAll(s, ls, i, size);
    }
  }

  lemma RoomStays<I(!new)>(s: Search<I>, ls: seq<Live<I>>, i: nat, size: nat, peak: nat, lost: Account,
                           next: seq<Live<I>>, nextIndex: nat, nextSize: nat, more: Account)
    requires HasRoom(s, ls, i, size, peak, lost) && i < size
    requires peak <= MAX_ITERATOR_COUNT ==> next == SteppedFreely(s, ls, i) && more == NOTHING
    requires nextIndex == NextIndex(s, ls, i) <= nextSize == NextSize(s, ls, i, size) <= |next|
    ensures HasRoom(s, next, nextIndex, nextSize, peak, Plus(lost, more))
  {
    if peak <= MAX_ITERATOR_COUNT {
      PeakShrinks(s, ls, i, size, next, nextIndex, nextSize, peak);
      NothingTwice(lost, more);
      RoomLeft(s, next, nextIndex, nextSize, peak, Plus(lost, more));
    } else {
      RoomLeft(s, next, nextIndex, nextSize, peak, Plus(lost, more));
    }
  }

  lemma NothingTwice(a: Account, b: Account)
    requires a == NOTHING && b == NOTHING
    ensures Plus(a, b) == NOTHING
  {
    PlusNothing(a);
  }

  lemma PeakShrinks<I(!new)>(s: Search<I>, ls: seq<Live<I>>, i: nat, size: nat, next: seq<Live<I>>, nextIndex: nat,
                             nextSize: nat, peak: nat)
    requires Descends(s) && i < size <= |ls| && next == SteppedFreely(s, ls, i) && Peak(s, ls, i, size) <= peak
    requires nextIndex == NextIndex(s, ls, i) <= nextSize == NextSize(s, ls, i, size) <= |next|
    ensures Peak(s, next, nextIndex, nextSize) <= peak
  {
    PeakOfNext(s, ls, i, size, next);
  }

  lemma RoomLeft<I(!new)>(s: Search<I>, ls: seq<Live<I>>, i: nat, size: nat, peak: nat, lost: Account)
    requires Descends(s) && i <= size <= |ls|
    requires peak <= MAX_ITERATOR_COUNT ==> lost == NOTHING && Peak(s, ls, i, size) <= peak
    ensures HasRoom(s, ls, i, size, peak, lost)
  {
  }

  lemma RoundGoesOn<I>(s: Search<I>, ls: seq<Live<I>>, i: nat, size: nat)
    requires i < size <= |ls|
    ensures NextIndex(s, ls, i) <= NextSize(s, ls, i, size) <= |Stepped(s, ls, i)|
  {
  }

  lemma PeakOfNext<I(!new)>(s: Search<I>, ls: seq<Live<I>>, i: nat, size: nat, next: seq<Live<I>>)
    requires Descends(s) && i < size <= |ls| && next == SteppedFreely(s, ls, i)
    ensures NextIndex(s, ls, i) <= NextSize(s, ls, i, size) <= |next|
    ensures Peak(s, ls, i, size) == Larger(|next|, Peak(s, next, NextIndex(s, ls, i), NextSize(s, ls, i, size)))
  {
    FreeStepWorks(s, ls, i);
  }

  /** One step keeps the balance: the iterator's own pop is among the results. */
  lemma StepBalanced<I(!new)>(s: Search<I>, ls: seq<Live<I>>, i: nat, size: nat, peak: nat, total: Account,
                              done: Account, lost: Account, origins: seq<Trail>, origins': seq<Trail>)
    returns (done': Account, lost': Account)
    requires InBalance(s, ls, i, size, peak, total, done, lost, origins) && i < size
    requires multiset(origins') == multiset(origins) + OwnPops(s, ls[i].it, ls[i].trail)
    ensures InBalance(s, Stepped(s, ls, i), NextIndex(s, ls, i), NextSize(s, ls, i, size), peak, total,
                      done', lost', origins')
    ensures Total(s, Stepped(s, ls, i)).work < Total(s, ls).work
  {
    var (own, more) := (OwnAccount(s, ls[i]), Refused(s, ls[i], ForksAt(s, ls, i)));
    StepTotal(s, ls, i, ForksAt(s, ls, i));
    StepWorks(s, ls, i, ForksAt(s, ls, i));
    done', lost' := Plus(done, own), Plus(lost, more);
    FreelyIfRoom(s, ls, i, size, peak, lost);
    RoundGoesOn(s, ls, i, size);
    RoomStays(s, ls, i, size, peak, lost, Stepped(s, ls, i), NextIndex(s, ls, i), NextSize(s, ls, i, size), more);
    BalanceStays(total, Total(s, ls), done, lost, origins, Total(s, Stepped(s, ls, i)), own, more, origins');
  }

  lemma BalanceStays(total: Account, left: Account, done: Account, lost: Account, origins: seq<Trail>,
                     left': Account, own: Account, more: Account, origins': seq<Trail>)
    requires Balanced(total, left, done, lost, origins) && Plus(Plus(left', more), own) == left
    requires multiset(origins') == multiset(origins) + own.pops
    ensures Balanced(total, left', Plus(done, own), Plus(lost, more), origins')
  {
    MovedOver(left, done, lost, left', own, more);
  }

  lemma MovedOver(left: Account, done: Account, lost: Account, left': Account, own: Account, more: Account)
    requires Plus(Plus(left', more), own) == left
    ensures Plus(Plus(left', Plus(done, own)), Plus(lost, more)) == Plus(Plus(left, done), lost)
  {
    Shuffled(left'.pops, more.pops, own.pops, left.pops, done.pops, lost.pops);
  }

  lemma Shuffled(left': multiset<Trail>, more: multiset<Trail>, own: multiset<Trail>,
                 left: multiset<Trail>, done: multiset<Trail>, lost: multiset<Trail>)
    requires left' + more + own == left
    ensures left' + (done + own) + (lost + more) == left + done + lost
  {
  }

  /** With no work left, the results come from the trails to pop, each once, and from all of them if the iterators
      never were too many. */
  lemma Enumerated<I(!new)>(s: Search<I>, it: I, peak: nat, done: Account, lost: Account, origins: seq<Trail>, t: Trail)
    requires Descends(s) && InBalance(s, [], 0, 0, peak, AccountOf(s, it, []), done, lost, origins)
    ensures t in origins ==> IsPop(s, it, t)
    ensures multiset(origins)[t] <= 1
    ensures IsPop(s, it, t) && peak <= MAX_ITERATOR_COUNT ==> t in origins
  {
    PopsOnce(s, it, [], t);
    assert t[0..] == t;
    assert t in origins <==> t in multiset(origins);
    assert Total(s, []) == NOTHING;
    assert (NOTHING.pops + done.pops + lost.pops)[t] == done.pops[t] + lost.pops[t];
  }
}
