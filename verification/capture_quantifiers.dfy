/** The quantifiers of all captures of a pattern, and how parsing a query works them out (query.c). */
module PatternQuantifiers {
  import opened Quantifiers

  // ----- Patterns, and the captures of a match -----

  const UINT16_RANGE := 0x1_0000

  type CaptureId = id: nat | id < UINT16_RANGE

  const LAST_ID: CaptureId := 0xFFFF

  datatype Suffix = Plus | Star | Optional | Capture(id: CaptureId)

  /** A parsed pattern with its suffixes.  A named node and a group both hold a sequence of patterns. */
  datatype Pattern = Pattern(body: Body, suffixes: seq<Suffix>)

  datatype Body = Leaf | Sequence(items: seq<Pattern>) | Alternation(branches: seq<Pattern>) | Field(pattern: Pattern)

  /** The number of rounds that the suffixes let a pattern go: each suffix applies to what is before it. */
  ghost predicate Rounds(ss: seq<Suffix>, k: nat)
    decreases |ss|, 0
  {
    if ss == [] then k == 1
    else
      var (before, last) := (ss[..|ss| - 1], ss[|ss| - 1]);
      match last
      case Plus => exists m: nat :: m > 0 && RoundsSum(before, m, k)
      case Star => exists m: nat :: RoundsSum(before, m, k)
      case Optional => k == 0 || Rounds(before, k)
      case Capture(_) => Rounds(before, k)
  }

  /** k is the sum of m numbers of rounds. */
  ghost predicate RoundsSum(ss: seq<Suffix>, m: nat, k: nat)
    decreases |ss|, 1, m
  {
    if m == 0 then k == 0
    else
      var others := m - 1;
      exists a: nat, b: nat :: a + b == k && Rounds(ss, a) && RoundsSum(ss, others, b)
  }

  function CapturesIn(ss: seq<Suffix>, id: CaptureId): nat {
    if ss == [] then 0 else CapturesIn(ss[..|ss| - 1], id) + (if ss[|ss| - 1] == Capture(id) then 1 else 0)
  }

  /** A match of the pattern can have the capture n times. */
  ghost predicate Unfolds(p: Pattern, id: CaptureId, n: nat)
    decreases p, 2
  {
    exists k: nat :: Rounds(p.suffixes, k) && UnfoldsRounds(p, id, k, n)
  }

  /** n captures in k rounds. */
  ghost predicate UnfoldsRounds(p: Pattern, id: CaptureId, k: nat, n: nat)
    decreases p, 1, k
  {
    if k == 0 then n == 0
    else
      var (own, others) := (CapturesIn(p.suffixes, id), k - 1);
      exists a: nat, b: nat :: a + own + b == n && UnfoldsBody(p.body, id, a) && UnfoldsRounds(p, id, others, b)
  }

  ghost predicate UnfoldsBody(b: Body, id: CaptureId, n: nat)
    decreases b, 1
  {
    match b
    case Leaf => n == 0
    case Sequence(items) => UnfoldsSequence(items, id, |items|, n)
    case Alternation(branches) => exists i | 0 <= i < |branches| :: Unfolds(branches[i], id, n)
    case Field(pattern) => Unfolds(pattern, id, n)
  }

  /** n captures in the first j items. */
  ghost predicate UnfoldsSequence(items: seq<Pattern>, id: CaptureId, j: nat, n: nat)
    requires j <= |items|
    decreases items, 0, j
  {
    if j == 0 then n == 0
    else
      var (before, last) := (j - 1, items[j - 1]);
      exists a: nat, b: nat :: a + b == n && UnfoldsSequence(items, id, before, a) && Unfolds(last, id, b)
  }

  // ----- The quantifier that parsing computes -----

  function SuffixQuantifier(ss: seq<Suffix>): Quantifier {
    if ss == [] then One
    else
      var before := SuffixQuantifier(ss[..|ss| - 1]);
      match ss[|ss| - 1]
      case Plus => Join(OneOrMore, before)
      case Star => Join(ZeroOrMore, before)
      case Optional => Join(ZeroOrOne, before)
      case Capture(_) => before
  }

  /** The quantifier of a capture once the suffixes have been seen that add to it. */
  function WithCaptures(q: Quantifier, ss: seq<Suffix>, id: CaptureId): Quantifier {
    if ss == [] then q
    else
      var before := WithCaptures(q, ss[..|ss| - 1], id);
      if ss[|ss| - 1] == Capture(id) then Add(before, One) else before
  }

  function QuantifierOf(p: Pattern, id: CaptureId): Quantifier
    decreases p, 2
  {
    Mul(WithCaptures(BodyQuantifier(p.body, id), p.suffixes, id), SuffixQuantifier(p.suffixes))
  }

  function BodyQuantifier(b: Body, id: CaptureId): Quantifier
    decreases b, 1
  {
    match b
    case Leaf => Zero
    case Sequence(items) => SequenceQuantifier(items, id, |items|)
    case Alternation(branches) => BranchQuantifier(branches, id, |branches|)
    case Field(pattern) => QuantifierOf(pattern, id)
  }

  function SequenceQuantifier(items: seq<Pattern>, id: CaptureId, j: nat): Quantifier
    requires j <= |items|
    decreases items, 0, j
  {
    if j == 0 then Zero else Add(SequenceQuantifier(items, id, j - 1), QuantifierOf(items[j - 1], id))
  }

  function BranchQuantifier(branches: seq<Pattern>, id: CaptureId, j: nat): Quantifier
    requires j <= |branches|
    decreases branches, 0, j
  {
    if j == 0 then Zero
    else if j == 1 then QuantifierOf(branches[0], id)
    else Join(BranchQuantifier(branches, id, j - 1), QuantifierOf(branches[j - 1], id))
  }

  // ----- Soundness -----

  lemma {:induction false} CapturesAllowed(q: Quantifier, ss: seq<Suffix>, id: CaptureId, n: nat)
    requires Allows(q, n)
    ensures Allows(WithCaptures(q, ss, id), n + CapturesIn(ss, id))
  {
    if ss == [] {
    } else {
      CapturesAllowed(q, ss[..|ss| - 1], id, n);
    }
  }

  lemma {:induction false} RoundsAllowed(ss: seq<Suffix>, k: nat)
    requires Rounds(ss, k)
    ensures Allows(SuffixQuantifier(ss), k)
    decreases |ss|, 0
  {
    if ss == [] {
    } else {
      var before := ss[..|ss| - 1];
      match ss[|ss| - 1]
      case Plus =>
        var m: nat :| m > 0 && RoundsSum(before, m, k);
        RoundsSumAllowed(before, m, k);
        SumsOf(SuffixQuantifier(before), m, k);
      case Star =>
      case Optional =>
        if k > 0 {
          RoundsAllowed(before, k);
        }
      case Capture(_) =>
        RoundsAllowed(before, k);
    }
  }

  lemma {:induction false} RoundsSumAllowed(ss: seq<Suffix>, m: nat, k: nat)
    requires RoundsSum(ss, m, k)
    ensures AllowsSum(SuffixQuantifier(ss), m, k)
    decreases |ss|, 1, m
  {
    if m == 0 {
    } else {
      var a: nat, b: nat :| a + b == k && Rounds(ss, a) && RoundsSum(ss, m - 1, b);
      RoundsAllowed(ss, a);
      RoundsSumAllowed(ss, m - 1, b);
      assert Allows(SuffixQuantifier(ss), a) && AllowsSum(SuffixQuantifier(ss), m - 1, k - a);
    }
  }

  /** The computed quantifier allows every number of captures that a match can have. */
  lemma {:induction false} QuantifierSound(p: Pattern, id: CaptureId, n: nat)
    requires Unfolds(p, id, n)
    ensures Allows(QuantifierOf(p, id), n)
    decreases p, 2
  {
    var k: nat :| Rounds(p.suffixes, k) && UnfoldsRounds(p, id, k, n);
    RoundsAllowed(p.suffixes, k);
    RoundsOfCaptures(p, id, k, n);
    MulSound(WithCaptures(BodyQuantifier(p.body, id), p.suffixes, id), SuffixQuantifier(p.suffixes), k, n);
  }

  lemma {:induction false} RoundsOfCaptures(p: Pattern, id: CaptureId, k: nat, n: nat)
    requires UnfoldsRounds(p, id, k, n)
    ensures AllowsSum(WithCaptures(BodyQuantifier(p.body, id), p.suffixes, id), k, n)
    decreases p, 1, k
  {
    if k == 0 {
    } else {
      var own := CapturesIn(p.suffixes, id);
      var a: nat, b: nat :| a + own + b == n && UnfoldsBody(p.body, id, a) && UnfoldsRounds(p, id, k - 1, b);
      BodySound(p.body, id, a);
      CapturesAllowed(BodyQuantifier(p.body, id), p.suffixes, id, a);
      RoundsOfCaptures(p, id, k - 1, b);
      var q := WithCaptures(BodyQuantifier(p.body, id), p.suffixes, id);
      assert Allows(q, a + own) && AllowsSum(q, k - 1, n - (a + own));
    }
  }

  lemma {:induction false} BodySound(b: Body, id: CaptureId, n: nat)
    requires UnfoldsBody(b, id, n)
    ensures Allows(BodyQuantifier(b, id), n)
    decreases b, 1
  {
    match b
    case Leaf =>
    case Sequence(items) =>
      SequenceSound(items, id, |items|, n);
    case Alternation(branches) =>
      var i :| 0 <= i < |branches| && Unfolds(branches[i], id, n);
      QuantifierSound(branches[i], id, n);
      BranchSound(branches, id, i, |branches|, n);
    case Field(pattern) =>
      QuantifierSound(pattern, id, n);
  }

  lemma {:induction false} SequenceSound(items: seq<Pattern>, id: CaptureId, j: nat, n: nat)
    requires j <= |items| && UnfoldsSequence(items, id, j, n)
    ensures Allows(SequenceQuantifier(items, id, j), n)
    decreases items, 0, j
  {
    if j == 0 {
    } else {
      var a: nat, b: nat :| a + b == n && UnfoldsSequence(items, id, j - 1, a) && Unfolds(items[j - 1], id, b);
      SequenceSound(items, id, j - 1, a);
      QuantifierSound(items[j - 1], id, b);
    }
  }

  lemma {:induction false} BranchSound(branches: seq<Pattern>, id: CaptureId, i: nat, j: nat, n: nat)
    requires i < j <= |branches| && Allows(QuantifierOf(branches[i], id), n)
    ensures Allows(BranchQuantifier(branches, id, j), n)
    decreases j
  {
    if j <= 1 {
    } else {
      var (before, last) := (BranchQuantifier(branches, id, j - 1), QuantifierOf(branches[j - 1], id));
      JoinIsBest(before, last, last);
      if i < j - 1 {
        BranchSound(branches, id, i, j - 1, n);
      }
    }
  }

  // ----- Precision -----

  /** n is as large a count as q allows, as far as quantifiers can tell. */
  predicate Reaches(q: Quantifier, n: nat) {
    if Most(q) == 2 then n >= 2 else n == Most(q)
  }

  /** No alternation in the pattern is empty: one of those matches nothing, but has the quantifier zero. */
  predicate HasBranches(p: Pattern)
    decreases p, 1
  {
    BodyHasBranches(p.body)
  }

  predicate BodyHasBranches(b: Body)
    decreases b, 0
  {
    match b
    case Leaf => true
    case Sequence(items) => forall i | 0 <= i < |items| :: HasBranches(items[i])
    case Alternation(branches) => |branches| > 0 && forall i | 0 <= i < |branches| :: HasBranches(branches[i])
    case Field(pattern) => HasBranches(pattern)
  }

  lemma {:induction false} TwoRounds(ss: seq<Suffix>, k: nat)
    requires Rounds(ss, k)
    ensures RoundsSum(ss, 1, k) && RoundsSum(ss, 2, 2 * k)
  {
    assert RoundsSum(ss, 0, 0);
    assert k + 0 == k && RoundsSum(ss, 1, k);
    assert k + k == 2 * k;
  }

  lemma {:induction false} SuffixesNotZero(ss: seq<Suffix>)
    ensures SuffixQuantifier(ss) != Zero
  {
    if ss == [] {
    } else {
      SuffixesNotZero(ss[..|ss| - 1]);
    }
  }

  lemma {:induction false} RoundsReached(ss: seq<Suffix>) returns (k: nat)
    ensures Rounds(ss, k) && Reaches(SuffixQuantifier(ss), k)
  {
    if ss == [] {
      k := 1;
    } else {
      var before := ss[..|ss| - 1];
      SuffixesNotZero(before);
      var most := RoundsReached(before);
      TwoRounds(before, most);
      match ss[|ss| - 1]
      case Plus =>
        k := 2 * most;
      case Star =>
        k := 2 * most;
      case Optional =>
        k := most;
      case Capture(_) =>
        k := most;
    }
  }

  lemma {:induction false} NoRounds(ss: seq<Suffix>)
    requires Allows(SuffixQuantifier(ss), 0)
    ensures Rounds(ss, 0)
  {
    if ss == [] {
    } else {
      var before := ss[..|ss| - 1];
      match ss[|ss| - 1]
      case Plus =>
        NoRounds(before);
        TwoRounds(before, 0);
      case Star =>
        assert RoundsSum(before, 0, 0);
      case Optional =>
      case Capture(_) =>
        NoRounds(before);
    }
  }

  lemma {:induction false} CapturesReached(q: Quantifier, ss: seq<Suffix>, id: CaptureId, n: nat)
    ensures Reaches(q, n) ==> Reaches(WithCaptures(q, ss, id), n + CapturesIn(ss, id))
    ensures Allows(WithCaptures(q, ss, id), 0) ==> Allows(q, 0) && CapturesIn(ss, id) == 0
  {
    if ss == [] {
    } else {
      CapturesReached(q, ss[..|ss| - 1], id, n);
    }
  }

  lemma MulReached(left: Quantifier, right: Quantifier, k: nat, n: nat)
    requires Reaches(left, n) && Reaches(right, k)
    ensures Reaches(Mul(left, right), k * n)
  {
    if k > 0 && n > 0 {
      assert k * n >= k && k * n >= n;
    }
  }

  /** The same number of captures in each of k rounds. */
  lemma {:induction false} EqualRounds(p: Pattern, id: CaptureId, k: nat, a: nat) returns (n: nat)
    requires UnfoldsBody(p.body, id, a)
    ensures UnfoldsRounds(p, id, k, n) && n == k * (a + CapturesIn(p.suffixes, id))
    decreases k
  {
    if k == 0 {
      n := 0;
    } else {
      var (own, others) := (CapturesIn(p.suffixes, id), k - 1);
      var b := EqualRounds(p, id, others, a);
      n := a + own + b;
      OneMore(k, others, a + own);
    }
  }

  lemma OneMore(k: nat, others: nat, x: nat)
    requires k == others + 1
    ensures k * x == x + others * x
  {
  }

  /** Some match has as many captures as the quantifier allows. */
  lemma {:induction false} MostUnfolded(p: Pattern, id: CaptureId) returns (n: nat)
    requires HasBranches(p)
    ensures Unfolds(p, id, n) && Reaches(QuantifierOf(p, id), n)
    decreases p, 2
  {
    var a := MostInBody(p.body, id);
    var k := RoundsReached(p.suffixes);
    CapturesReached(BodyQuantifier(p.body, id), p.suffixes, id, a);
    n := EqualRounds(p, id, k, a);
    MulReached(WithCaptures(BodyQuantifier(p.body, id), p.suffixes, id), SuffixQuantifier(p.suffixes), k,
               a + CapturesIn(p.suffixes, id));
  }

  lemma {:induction false} MostInBody(b: Body, id: CaptureId) returns (n: nat)
    requires BodyHasBranches(b)
    ensures UnfoldsBody(b, id, n) && Reaches(BodyQuantifier(b, id), n)
    decreases b, 1
  {
    match b
    case Leaf =>
      n := 0;
    case Sequence(items) =>
      n := MostInSequence(items, id, |items|);
    case Alternation(branches) =>
      var i;
      i, n := MostInBranches(branches, id, |branches|);
    case Field(pattern) =>
      n := MostUnfolded(pattern, id);
  }

  lemma AfterItem(items: seq<Pattern>, id: CaptureId, j: nat, a: nat, b: nat, n: nat)
    requires 0 < j <= |items| && a + b == n
    requires UnfoldsSequence(items, id, j - 1, a) && Unfolds(items[j - 1], id, b)
    ensures UnfoldsSequence(items, id, j, n)
  {
    var (before, last) := (j - 1, items[j - 1]);
    assert exists x: nat, y: nat :: x + y == n && UnfoldsSequence(items, id, before, x) && Unfolds(last, id, y);
  }

  lemma {:induction false} MostInSequence(items: seq<Pattern>, id: CaptureId, j: nat) returns (n: nat)
    requires j <= |items| && forall i | 0 <= i < |items| :: HasBranches(items[i])
    ensures UnfoldsSequence(items, id, j, n) && Reaches(SequenceQuantifier(items, id, j), n)
    decreases items, 0, j
  {
    if j == 0 {
      n := 0;
    } else {
      var a := MostInSequence(items, id, j - 1);
      var b := MostUnfolded(items[j - 1], id);
      n := a + b;
      AfterItem(items, id, j, a, b, n);
    }
  }

  lemma {:induction false} MostInBranches(branches: seq<Pattern>, id: CaptureId, j: nat) returns (i: nat, n: nat)
    requires 0 < j <= |branches| && forall k | 0 <= k < |branches| :: HasBranches(branches[k])
    ensures i < j && Unfolds(branches[i], id, n) && Reaches(BranchQuantifier(branches, id, j), n)
    decreases branches, 0, j
  {
    i := j - 1;
    n := MostUnfolded(branches[j - 1], id);
    if j > 1 {
      var k, m := MostInBranches(branches, id, j - 1);
      if Most(BranchQuantifier(branches, id, j - 1)) > Most(QuantifierOf(branches[j - 1], id)) {
        i, n := k, m;
      }
    }
  }

  /** Some match has no capture if the quantifier allows that. */
  lemma {:induction false} NoneUnfolded(p: Pattern, id: CaptureId)
    requires HasBranches(p) && Allows(QuantifierOf(p, id), 0)
    ensures Unfolds(p, id, 0)
    decreases p, 2
  {
    var q := WithCaptures(BodyQuantifier(p.body, id), p.suffixes, id);
    if Allows(SuffixQuantifier(p.suffixes), 0) {
      NoRounds(p.suffixes);
      assert UnfoldsRounds(p, id, 0, 0);
    } else {
      assert Allows(q, 0);
      CapturesReached(BodyQuantifier(p.body, id), p.suffixes, id, 0);
      NoneInBody(p.body, id);
      var k := RoundsReached(p.suffixes);
      var n := EqualRounds(p, id, k, 0);
    }
  }

  lemma {:induction false} NoneInBody(b: Body, id: CaptureId)
    requires BodyHasBranches(b) && Allows(BodyQuantifier(b, id), 0)
    ensures UnfoldsBody(b, id, 0)
    decreases b, 1
  {
    match b
    case Leaf =>
    case Sequence(items) =>
      NoneInSequence(items, id, |items|);
    case Alternation(branches) =>
      var i := NoneInBranches(branches, id, |branches|);
    case Field(pattern) =>
      NoneUnfolded(pattern, id);
  }

  lemma {:induction false} NoneInSequence(items: seq<Pattern>, id: CaptureId, j: nat)
    requires j <= |items| && forall i | 0 <= i < |items| :: HasBranches(items[i])
    requires Allows(SequenceQuantifier(items, id, j), 0)
    ensures UnfoldsSequence(items, id, j, 0)
    decreases items, 0, j
  {
    if j == 0 {
    } else {
      NoneInSequence(items, id, j - 1);
      NoneUnfolded(items[j - 1], id);
      AfterItem(items, id, j, 0, 0, 0);
    }
  }

  lemma {:induction false} NoneInBranches(branches: seq<Pattern>, id: CaptureId, j: nat) returns (i: nat)
    requires 0 < j <= |branches| && forall k | 0 <= k < |branches| :: HasBranches(branches[k])
    requires Allows(BranchQuantifier(branches, id, j), 0)
    ensures i < j && Unfolds(branches[i], id, 0)
    decreases branches, 0, j
  {
    if Allows(QuantifierOf(branches[j - 1], id), 0) {
      i := j - 1;
      NoneUnfolded(branches[j - 1], id);
    } else {
      i := NoneInBranches(branches, id, j - 1);
    }
  }

  /** The computed quantifier is the best abstraction of a pattern: a quantifier allows all that can happen if and only
      if it covers the computed one. */
  lemma QuantifierIsBest(p: Pattern, id: CaptureId, q: Quantifier)
    requires HasBranches(p)
    ensures (forall n: nat | Unfolds(p, id, n) :: Allows(q, n)) <==> Covers(q, QuantifierOf(p, id))
  {
    if forall n: nat | Unfolds(p, id, n) :: Allows(q, n) {
      var most := MostUnfolded(p, id);
      if Allows(QuantifierOf(p, id), 0) {
        NoneUnfolded(p, id);
      }
      CoversWitnesses(q, QuantifierOf(p, id), most);
    }
    if Covers(q, QuantifierOf(p, id)) {
      forall n: nat | Unfolds(p, id, n)
        ensures Allows(q, n)
      {
        QuantifierSound(p, id, n);
      }
    }
  }

  // ----- What parsing leaves in its arrays -----

  /** The loops that add and multiply arrays count with 16 bits: of an array of 65536 entries they see none. */
  predicate SeenByLoops(size: nat) {
    size < UINT16_RANGE
  }

  function SizeWithCaptures(size: nat, ss: seq<Suffix>): nat {
    if ss == [] then size
    else
      var before := SizeWithCaptures(size, ss[..|ss| - 1]);
      var last := ss[|ss| - 1];
      if last.Capture? && before <= last.id then last.id + 1 else before
  }

  /** The length of a pattern's array. */
  function ArraySize(p: Pattern): nat
    decreases p, 2
  {
    SizeWithCaptures(BodySize(p.body), p.suffixes)
  }

  function BodySize(b: Body): nat
    decreases b, 1
  {
    match b
    case Leaf => 0
    case Sequence(items) => LargestSize(items, |items|)
    case Alternation(branches) => LargestSize(branches, |branches|)
    case Field(pattern) => ArraySize(pattern)
  }

  function LargestSize(items: seq<Pattern>, j: nat): nat
    requires j <= |items|
    decreases items, 0, j
  {
    if j == 0 then 0
    else
      var (before, last) := (LargestSize(items, j - 1), ArraySize(items[j - 1]));
      if before < last then last else before
  }

  /** The entry of a capture in a pattern's array. */
  function ArrayQuantifier(p: Pattern, id: CaptureId): Quantifier
    decreases p, 2
  {
    var q := WithCaptures(ArrayBody(p.body, id), p.suffixes, id);
    if SeenByLoops(ArraySize(p)) then Mul(q, SuffixQuantifier(p.suffixes)) else q
  }

  function ArrayBody(b: Body, id: CaptureId): Quantifier
    decreases b, 1
  {
    match b
    case Leaf => Zero
    case Sequence(items) => ArraySequence(items, id, |items|)
    case Alternation(branches) => ArrayBranches(branches, id, |branches|)
    case Field(pattern) => if SeenByLoops(ArraySize(pattern)) then ArrayQuantifier(pattern, id) else Zero
  }

  function ArraySequence(items: seq<Pattern>, id: CaptureId, j: nat): Quantifier
    requires j <= |items|
    decreases items, 0, j
  {
    if j == 0 then Zero
    else
      var before := ArraySequence(items, id, j - 1);
      if SeenByLoops(ArraySize(items[j - 1])) then Add(before, ArrayQuantifier(items[j - 1], id)) else before
  }

  function ArrayBranches(branches: seq<Pattern>, id: CaptureId, j: nat): Quantifier
    requires j <= |branches|
    decreases branches, 0, j
  {
    if j == 0 then Zero
    else if j == 1 then ArrayQuantifier(branches[0], id)
    else Join(ArrayBranches(branches, id, j - 1), ArrayQuantifier(branches[j - 1], id))
  }

  // ----- When the arrays are right -----

  /** Is the capture used somewhere in the pattern? */
  predicate Mentions(p: Pattern, id: CaptureId)
    decreases p, 1
  {
    Capture(id) in p.suffixes || BodyMentions(p.body, id)
  }

  predicate BodyMentions(b: Body, id: CaptureId)
    decreases b, 0
  {
    match b
    case Leaf => false
    case Sequence(items) => exists i | 0 <= i < |items| :: Mentions(items[i], id)
    case Alternation(branches) => exists i | 0 <= i < |branches| :: Mentions(branches[i], id)
    case Field(pattern) => Mentions(pattern, id)
  }

  /** The array is full exactly if the last capture id occurs. */
  lemma {:induction false} FullSuffixes(size: nat, ss: seq<Suffix>)
    requires size <= UINT16_RANGE
    ensures SizeWithCaptures(size, ss) <= UINT16_RANGE
    ensures SizeWithCaptures(size, ss) == UINT16_RANGE <==> size == UINT16_RANGE || Capture(LAST_ID) in ss
  {
    if ss == [] {
    } else {
      var (before, last) := (ss[..|ss| - 1], ss[|ss| - 1]);
      FullSuffixes(size, before);
      assert ss == before + [last];
    }
  }

  lemma {:induction false} FullIfMentioned(p: Pattern)
    ensures ArraySize(p) <= UINT16_RANGE && (SeenByLoops(ArraySize(p)) <==> !Mentions(p, LAST_ID))
    decreases p, 2
  {
    BodyFull(p.body);
    FullSuffixes(BodySize(p.body), p.suffixes);
  }

  lemma {:induction false} BodyFull(b: Body)
    ensures BodySize(b) <= UINT16_RANGE && (SeenByLoops(BodySize(b)) <==> !BodyMentions(b, LAST_ID))
    decreases b, 1
  {
    match b
    case Leaf =>
    case Sequence(items) =>
      LargestFull(items, |items|);
    case Alternation(branches) =>
      LargestFull(branches, |branches|);
    case Field(pattern) =>
      FullIfMentioned(pattern);
  }

  lemma {:induction false} LargestFull(items: seq<Pattern>, j: nat)
    requires j <= |items|
    ensures LargestSize(items, j) <= UINT16_RANGE
    ensures SeenByLoops(LargestSize(items, j)) <==> forall i | 0 <= i < j :: !Mentions(items[i], LAST_ID)
    decreases items, 0, j
  {
    if j == 0 {
    } else {
      LargestFull(items, j - 1);
      FullIfMentioned(items[j - 1]);
    }
  }

  /** Without the last capture id the arrays hold the quantifiers. */
  lemma {:induction false} ArraysRight(p: Pattern, id: CaptureId)
    requires !Mentions(p, LAST_ID)
    ensures ArrayQuantifier(p, id) == QuantifierOf(p, id)
    decreases p, 2
  {
    FullIfMentioned(p);
    BodiesRight(p.body, id);
  }

  lemma {:induction false} BodiesRight(b: Body, id: CaptureId)
    requires !BodyMentions(b, LAST_ID)
    ensures ArrayBody(b, id) == BodyQuantifier(b, id)
    decreases b, 1
  {
    match b
    case Leaf =>
    case Sequence(items) =>
      SequencesRight(items, id, |items|);
    case Alternation(branches) =>
      BranchesRight(branches, id, |branches|);
    case Field(pattern) =>
      FullIfMentioned(pattern);
      ArraysRight(pattern, id);
  }

  lemma {:induction false} SequencesRight(items: seq<Pattern>, id: CaptureId, j: nat)
    requires j <= |items| && forall i | 0 <= i < |items| :: !Mentions(items[i], LAST_ID)
    ensures ArraySequence(items, id, j) == SequenceQuantifier(items, id, j)
    decreases items, 0, j
  {
    if j == 0 {
    } else {
      SequencesRight(items, id, j - 1);
      FullIfMentioned(items[j - 1]);
      ArraysRight(items[j - 1], id);
    }
  }

  lemma {:induction false} BranchesRight(branches: seq<Pattern>, id: CaptureId, j: nat)
    requires j <= |branches| && forall i | 0 <= i < |branches| :: !Mentions(branches[i], LAST_ID)
    ensures ArrayBranches(branches, id, j) == BranchQuantifier(branches, id, j)
    decreases branches, 0, j
  {
    if j == 0 {
    } else {
      BranchesRight(branches, id, j - 1);
      ArraysRight(branches[j - 1], id);
    }
  }

  /** The array of a pattern that does not use the last id allows what can happen. */
  lemma ArraySound(p: Pattern, id: CaptureId, n: nat)
    requires !Mentions(p, LAST_ID) && Unfolds(p, id, n)
    ensures Allows(ArrayQuantifier(p, id), n)
  {
    QuantifierSound(p, id, n);
    ArraysRight(p, id);
  }

  /** Multiplying by the quantifier of the suffixes changes nothing. */
  predicate IsFixed(q: Quantifier, quantifier: Quantifier) {
    match quantifier
    case Zero => q == Zero
    case One => true
    case OneOrMore => q !in {One, ZeroOrOne}
    case ZeroOrOne => q !in {One, OneOrMore}
    case ZeroOrMore => q in {Zero, ZeroOrMore}
  }

  /** The suffixes' own quantifier leaves all others of the pattern as they are. */
  ghost predicate NothingToMultiply(p: Pattern) {
    forall id: CaptureId ::
      IsFixed(WithCaptures(BodyQuantifier(p.body, id), p.suffixes, id), SuffixQuantifier(p.suffixes))
  }

  ghost predicate IsRight(p: Pattern) {
    forall id: CaptureId :: ArrayQuantifier(p, id) == QuantifierOf(p, id)
  }

  ghost predicate BodyIsRight(b: Body) {
    forall id: CaptureId :: ArrayBody(b, id) == BodyQuantifier(b, id)
  }

  /** A suffix that captures makes the quantifier at least one. */
  lemma {:induction false} CapturedOnce(q: Quantifier, ss: seq<Suffix>, id: CaptureId)
    requires Capture(id) in ss
    ensures WithCaptures(q, ss, id) in {One, OneOrMore}
  {
    var (before, last) := (ss[..|ss| - 1], ss[|ss| - 1]);
    assert ss == before + [last];
    if last != Capture(id) {
      CapturedOnce(q, before, id);
    }
  }

  lemma {:induction false} BranchesJoined(branches: seq<Pattern>, id: CaptureId, j: nat)
    requires j <= |branches| && forall i | 0 <= i < |branches| :: IsRight(branches[i])
    ensures ArrayBranches(branches, id, j) == BranchQuantifier(branches, id, j)
  {
    if j == 0 {
    } else {
      BranchesJoined(branches, id, j - 1);
      assert IsRight(branches[j - 1]);
    }
  }

  /** Joining does not lose long arrays: an alternation of patterns with right arrays has a right body, and so has every
      body in which the last id does not occur. */
  lemma BodyRight(b: Body)
    requires !BodyMentions(b, LAST_ID) || (b.Alternation? && forall i | 0 <= i < |b.branches| :: IsRight(b.branches[i]))
    ensures BodyIsRight(b)
  {
    forall id: CaptureId
      ensures ArrayBody(b, id) == BodyQuantifier(b, id)
    {
      if !BodyMentions(b, LAST_ID) {
        BodiesRight(b, id);
      } else {
        BranchesJoined(b.branches, id, |b.branches|);
      }
    }
  }

  /** When a pattern's array is right before its suffixes are seen: exactly when it still is after them. */
  lemma RightAfterSuffixes(p: Pattern)
    requires BodyIsRight(p.body)
    ensures IsRight(p) <==> !Mentions(p, LAST_ID) || NothingToMultiply(p)
  {
    FullIfMentioned(p);
    SuffixesNotZero(p.suffixes);
    forall id: CaptureId
      ensures ArrayQuantifier(p, id) == QuantifierOf(p, id)
              <==> (|| !Mentions(p, LAST_ID)
                    || IsFixed(WithCaptures(BodyQuantifier(p.body, id), p.suffixes, id),
                               SuffixQuantifier(p.suffixes)))
    {
      assert ArrayBody(p.body, id) == BodyQuantifier(p.body, id);
    }
  }

  lemma {:induction false} CapturedOften(q: Quantifier, ss: seq<Suffix>, id: CaptureId)
    ensures WithCaptures(q, ss, id)
            == match CapturesIn(ss, id) { case 0 => q case 1 => Add(q, One) case _ => OneOrMore }
  {
    if ss == [] {
    } else {
      CapturedOften(q, ss[..|ss| - 1], id);
    }
  }

  /** Inside a group, a node or a field the last id is lost.  Its entry counts the pattern's own suffixes only, which is
      right exactly if they capture it twice and let the pattern match at least once. */
  lemma LostInside(p: Pattern)
    requires (p.body.Sequence? || p.body.Field?) && BodyMentions(p.body, LAST_ID)
    ensures ArrayQuantifier(p, LAST_ID)
            == match CapturesIn(p.suffixes, LAST_ID) { case 0 => Zero case 1 => One case _ => OneOrMore }
    ensures ArrayQuantifier(p, LAST_ID) == QuantifierOf(p, LAST_ID)
            <==> CapturesIn(p.suffixes, LAST_ID) >= 2 && SuffixQuantifier(p.suffixes) in {One, OneOrMore}
  {
    FullIfMentioned(p);
    SuffixesNotZero(p.suffixes);
    NothingInside(p.body);
    BodyNotZero(p.body, LAST_ID);
    CapturedOften(Zero, p.suffixes, LAST_ID);
    CapturedOften(BodyQuantifier(p.body, LAST_ID), p.suffixes, LAST_ID);
  }

  /** What an array is worth: it allows all that can happen if and only if it covers the quantifier. */
  lemma ArraySoundIfCovering(p: Pattern, id: CaptureId)
    requires HasBranches(p)
    ensures (forall n: nat | Unfolds(p, id, n) :: Allows(ArrayQuantifier(p, id), n))
            <==> Covers(ArrayQuantifier(p, id), QuantifierOf(p, id))
  {
    QuantifierIsBest(p, id, ArrayQuantifier(p, id));
  }

  lemma {:induction false} NotCaptured(q: Quantifier, ss: seq<Suffix>, id: CaptureId)
    requires Capture(id) !in ss
    ensures WithCaptures(q, ss, id) == q
  {
    if ss == [] {
    } else {
      NotCaptured(q, ss[..|ss| - 1], id);
    }
  }

  lemma NothingInside(b: Body)
    requires b.Sequence? || b.Field?
    ensures ArrayBody(b, LAST_ID) == Zero
  {
    match b
    case Sequence(items) =>
      NothingInItems(items, |items|);
    case Field(pattern) =>
      NothingWithoutMention(pattern);
  }

  lemma {:induction false} NothingInItems(items: seq<Pattern>, j: nat)
    requires j <= |items|
    ensures ArraySequence(items, LAST_ID, j) == Zero
  {
    if j == 0 {
    } else {
      NothingInItems(items, j - 1);
      NothingWithoutMention(items[j - 1]);
    }
  }

  lemma NothingWithoutMention(p: Pattern)
    ensures SeenByLoops(ArraySize(p)) ==> ArrayQuantifier(p, LAST_ID) == Zero
  {
    FullIfMentioned(p);
    if !Mentions(p, LAST_ID) {
      ArraysRight(p, LAST_ID);
      MentionedNotZero(p, LAST_ID);
    }
  }

  /** A capture has the quantifier zero exactly if it does not occur. */
  lemma {:induction false} MentionedNotZero(p: Pattern, id: CaptureId)
    ensures QuantifierOf(p, id) == Zero <==> !Mentions(p, id)
    decreases p, 2
  {
    SuffixesNotZero(p.suffixes);
    BodyNotZero(p.body, id);
    if Capture(id) in p.suffixes {
      CapturedOnce(BodyQuantifier(p.body, id), p.suffixes, id);
    } else {
      NotCaptured(BodyQuantifier(p.body, id), p.suffixes, id);
    }
  }

  lemma {:induction false} BodyNotZero(b: Body, id: CaptureId)
    ensures BodyQuantifier(b, id) == Zero <==> !BodyMentions(b, id)
    decreases b, 1
  {
    match b
    case Leaf =>
    case Sequence(items) =>
      SequenceNotZero(items, id, |items|);
    case Alternation(branches) =>
      BranchesNotZero(branches, id, |branches|);
    case Field(pattern) =>
      MentionedNotZero(pattern, id);
  }

  lemma {:induction false} SequenceNotZero(items: seq<Pattern>, id: CaptureId, j: nat)
    requires j <= |items|
    ensures SequenceQuantifier(items, id, j) == Zero <==> forall i | 0 <= i < j :: !Mentions(items[i], id)
    decreases items, 0, j
  {
    if j == 0 {
    } else {
      SequenceNotZero(items, id, j - 1);
      MentionedNotZero(items[j - 1], id);
    }
  }

  lemma {:induction false} BranchesNotZero(branches: seq<Pattern>, id: CaptureId, j: nat)
    requires j <= |branches|
    ensures BranchQuantifier(branches, id, j) == Zero <==> forall i | 0 <= i < j :: !Mentions(branches[i], id)
    decreases branches, 0, j
  {
    if j == 0 {
    } else {
      BranchesNotZero(branches, id, j - 1);
      MentionedNotZero(branches[j - 1], id);
    }
  }

  /** A pattern that need not match at all, yet whose array says that the capture with the last id occurs exactly
      once. */
  lemma LastCaptureExample()
    ensures var p := Pattern(Leaf, [Capture(LAST_ID), Star]);
            && ArrayQuantifier(p, LAST_ID) == One && QuantifierOf(p, LAST_ID) == ZeroOrMore
            && Unfolds(p, LAST_ID, 0) && !Allows(ArrayQuantifier(p, LAST_ID), 0)
  {
    var ss := [Capture(LAST_ID), Star];
    var p := Pattern(Leaf, ss);
    assert ss[..1] == [Capture(LAST_ID)] && ss[..1][..0] == [];
    assert ss[0] == Capture(LAST_ID) && Mentions(p, LAST_ID);
    FullIfMentioned(p);
    assert WithCaptures(Zero, ss[..1], LAST_ID) == One && SuffixQuantifier(ss[..1]) == One;
    assert RoundsSum(ss[..1], 0, 0);
    assert Rounds(ss, 0) && UnfoldsRounds(p, LAST_ID, 0, 0);
  }

  // ----- The arrays in which parsing collects them -----

  /** One quantifier for each capture id; ids beyond the end have Zero. */
  class CaptureQuantifiers {
    var quantifiers: seq<Quantifier>

    constructor ()
      ensures quantifiers == []
    {
      quantifiers := [];
    }

    method Clear()
      modifies this
      ensures quantifiers == []
    {
      quantifiers := [];
    }

    method Replace(other: CaptureQuantifiers)
      modifies this
      ensures quantifiers == old(other.quantifiers)
    {
      quantifiers := other.quantifiers;
    }

    function ForId(id: nat): Quantifier
      reads this
    {
      if |quantifiers| <= id then Zero else quantifiers[id]
    }

    method GrowTo(size: nat)
      modifies this
      ensures |quantifiers| == if |old(quantifiers)| < size then size else |old(quantifiers)|
      ensures forall id: nat :: ForId(id) == old(ForId(id))
    {
      if |quantifiers| < size {
        quantifiers := quantifiers + seq(size - |quantifiers|, _ => Zero);
      }
    }

    method AddForId(id: nat, quantifier: Quantifier)
      modifies this
      ensures |quantifiers| == if |old(quantifiers)| <= id then id + 1 else |old(quantifiers)|
      ensures forall i: nat :: ForId(i) == if i == id then Add(old(ForId(i)), quantifier) else old(ForId(i))
    {
      GrowTo(id + 1);
      quantifiers := quantifiers[id := Add(quantifiers[id], quantifier)];
    }

    /** The counter of the loop has 16 bits, like capture ids: of 65536 entries the loop would see none. */
    method AddAll(other: CaptureQuantifiers)
      requires other != this
      modifies this
      ensures |quantifiers| == if |old(quantifiers)| < |other.quantifiers| then |other.quantifiers|
                               else |old(quantifiers)|
      ensures forall id: nat :: ForId(id) == if id < |other.quantifiers| % UINT16_RANGE
                                             then Add(old(ForId(id)), other.ForId(id)) else old(ForId(id))
    {
      GrowTo(|other.quantifiers|);
      ghost var grown := quantifiers;
      for id := 0 to |other.quantifiers| % UINT16_RANGE
        invariant |quantifiers| == |grown|
        invariant forall i | 0 <= i < |grown| ::
                    quantifiers[i] == if i < id then Add(grown[i], other.quantifiers[i]) else grown[i]
      {
        quantifiers := quantifiers[id := Add(quantifiers[id], other.quantifiers[id])];
      }
      assert forall id: nat | id < |grown| :: grown[id] == old(ForId(id));
    }

    method MulAll(quantifier: Quantifier)
      modifies this
      ensures |quantifiers| == |old(quantifiers)|
      ensures forall id: nat :: ForId(id) == if id < |quantifiers| % UINT16_RANGE
                                             then Mul(old(ForId(id)), quantifier) else old(ForId(id))
    {
      for id := 0 to |quantifiers| % UINT16_RANGE
        invariant |quantifiers| == |old(quantifiers)|
        invariant forall i | 0 <= i < |quantifiers| ::
                    quantifiers[i] == if i < id then Mul(old(quantifiers)[i], quantifier) else old(quantifiers)[i]
      {
        quantifiers := quantifiers[id := Mul(quantifiers[id], quantifier)];
      }
    }

    method JoinAll(other: CaptureQuantifiers)
      requires other != this
      modifies this
      ensures |quantifiers| == if |old(quantifiers)| < |other.quantifiers| then |other.quantifiers|
                               else |old(quantifiers)|
      ensures forall id: nat :: ForId(id) == Join(old(ForId(id)), other.ForId(id))
    {
      GrowTo(|other.quantifiers|);
      ghost var grown := quantifiers;
      for id := 0 to |other.quantifiers|
        invariant |quantifiers| == |grown|
        invariant forall i | 0 <= i < |grown| ::
                    quantifiers[i] == if i < id then Join(grown[i], other.quantifiers[i]) else grown[i]
      {
        quantifiers := quantifiers[id := Join(quantifiers[id], other.quantifiers[id])];
      }
      for id := |other.quantifiers| to |quantifiers|
        invariant |quantifiers| == |grown|
        invariant forall i | 0 <= i < |grown| ::
                    quantifiers[i] == if i < |other.quantifiers| then Join(grown[i], other.quantifiers[i])
                                      else if i < id then Join(grown[i], Zero) else grown[i]
      {
        quantifiers := quantifiers[id := Join(quantifiers[id], Zero)];
      }
      assert forall id: nat | id < |grown| :: grown[id] == old(ForId(id));
    }
  }

  /** What parsing a pattern leaves in an array that was empty. */
  method QuantifyPattern(p: Pattern, captures: CaptureQuantifiers)
    requires captures.quantifiers == []
    modifies captures
    ensures |captures.quantifiers| == ArraySize(p)
    ensures forall id: CaptureId :: captures.ForId(id) == ArrayQuantifier(p, id)
    ensures !Mentions(p, LAST_ID) ==> forall id: CaptureId :: captures.ForId(id) == QuantifierOf(p, id)
    decreases p, 2
  {
    match p.body {
      case Leaf =>
      case Sequence(items) =>
        QuantifyItems(items, captures);
      case Alternation(branches) =>
        QuantifyBranches(branches, captures);
      case Field(pattern) =>
        var field := new CaptureQuantifiers();
        FullIfMentioned(pattern);
        QuantifyPattern(pattern, field);
        captures.AddAll(field);
    }
    FullIfMentioned(p);
    assert forall id: CaptureId :: captures.ForId(id) == ArrayBody(p.body, id);
    var quantifier := QuantifySuffixes(p, captures);
    assert forall id: CaptureId :: captures.ForId(id) == WithCaptures(ArrayBody(p.body, id), p.suffixes, id);
    captures.MulAll(quantifier);
    forall id: CaptureId | !Mentions(p, LAST_ID)
      ensures ArrayQuantifier(p, id) == QuantifierOf(p, id)
    {
      ArraysRight(p, id);
    }
  }

  method QuantifyItems(items: seq<Pattern>, captures: CaptureQuantifiers)
    requires captures.quantifiers == []
    modifies captures
    ensures |captures.quantifiers| == LargestSize(items, |items|)
    ensures forall id: CaptureId :: captures.ForId(id) == ArraySequence(items, id, |items|)
    decreases items, 0
  {
    var child := new CaptureQuantifiers();
    for j := 0 to |items|
      invariant child != captures && child.quantifiers == []
      invariant |captures.quantifiers| == LargestSize(items, j)
      invariant forall id: CaptureId :: captures.ForId(id) == ArraySequence(items, id, j)
    {
      FullIfMentioned(items[j]);
      QuantifyPattern(items[j], child);
      captures.AddAll(child);
      child.Clear();
    }
  }

  method QuantifyBranches(branches: seq<Pattern>, captures: CaptureQuantifiers)
    requires captures.quantifiers == []
    modifies captures
    ensures |captures.quantifiers| == LargestSize(branches, |branches|)
    ensures forall id: CaptureId :: captures.ForId(id) == ArrayBranches(branches, id, |branches|)
    decreases branches, 0
  {
    var branch := new CaptureQuantifiers();
    for j := 0 to |branches|
      invariant branch != captures && branch.quantifiers == []
      invariant |captures.quantifiers| == LargestSize(branches, j)
      invariant forall id: CaptureId :: captures.ForId(id) == ArrayBranches(branches, id, j)
    {
      QuantifyPattern(branches[j], branch);
      if j == 0 {
        captures.Replace(branch);
      } else {
        captures.JoinAll(branch);
      }
      branch.Clear();
    }
  }

  /** The loop over the suffixes of a pattern. */
  method QuantifySuffixes(p: Pattern, captures: CaptureQuantifiers) returns (quantifier: Quantifier)
    modifies captures
    ensures |captures.quantifiers| == SizeWithCaptures(|old(captures.quantifiers)|, p.suffixes)
    ensures quantifier == SuffixQuantifier(p.suffixes)
    ensures forall id: CaptureId :: captures.ForId(id) == WithCaptures(old(captures.ForId(id)), p.suffixes, id)
  {
    quantifier := One;
    for j := 0 to |p.suffixes|
      invariant |captures.quantifiers| == SizeWithCaptures(|old(captures.quantifiers)|, p.suffixes[..j])
      invariant quantifier == SuffixQuantifier(p.suffixes[..j])
      invariant forall id: CaptureId :: captures.ForId(id) == WithCaptures(old(captures.ForId(id)), p.suffixes[..j], id)
    {
      assert p.suffixes[..j + 1][..j] == p.suffixes[..j];
      match p.suffixes[j]
      case Plus => quantifier := Join(OneOrMore, quantifier);
      case Star => quantifier := Join(ZeroOrMore, quantifier);
      case Optional => quantifier := Join(ZeroOrOne, quantifier);
      case Capture(id) => captures.AddForId(id, One);
    }
    assert p.suffixes[..|p.suffixes|] == p.suffixes;
  }
}
