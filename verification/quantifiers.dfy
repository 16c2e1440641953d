/** Quantifiers as an abstract domain: how often a capture can occur (query.c). */
module Quantifiers {
  datatype Quantifier = Zero | ZeroOrOne | ZeroOrMore | One | OneOrMore

  /** The counts that a quantifier allows. */
  predicate Allows(q: Quantifier, n: nat) {
    match q
    case Zero => n == 0
    case ZeroOrOne => n <= 1
    case ZeroOrMore => true
    case One => n == 1
    case OneOrMore => n >= 1
  }

  function Mul(left: Quantifier, right: Quantifier): Quantifier {
    match left
    case Zero => Zero
    case ZeroOrOne => (
      match right
      case Zero => Zero
      case ZeroOrOne => ZeroOrOne
      case One => ZeroOrOne
      case ZeroOrMore => ZeroOrMore
      case OneOrMore => ZeroOrMore)
    case ZeroOrMore => if right == Zero then Zero else ZeroOrMore
    case One => right
    case OneOrMore => (
      match right
      case Zero => Zero
      case ZeroOrOne => ZeroOrMore
      case ZeroOrMore => ZeroOrMore
      case One => OneOrMore
      case OneOrMore => OneOrMore)
  }

  function Join(left: Quantifier, right: Quantifier): Quantifier {
    match left
    case Zero => (
      match right
      case Zero => Zero
      case ZeroOrOne => ZeroOrOne
      case One => ZeroOrOne
      case ZeroOrMore => ZeroOrMore
      case OneOrMore => ZeroOrMore)
    case ZeroOrOne => (
      match right
      case Zero => ZeroOrOne
      case ZeroOrOne => ZeroOrOne
      case One => ZeroOrOne
      case ZeroOrMore => ZeroOrMore
      case OneOrMore => ZeroOrMore)
    case ZeroOrMore => ZeroOrMore
    case One => (
      match right
      case Zero => ZeroOrOne
      case ZeroOrOne => ZeroOrOne
      case ZeroOrMore => ZeroOrMore
      case One => One
      case OneOrMore => OneOrMore)
    case OneOrMore => (
      match right
      case Zero => ZeroOrMore
      case ZeroOrOne => ZeroOrMore
      case ZeroOrMore => ZeroOrMore
      case One => OneOrMore
      case OneOrMore => OneOrMore)
  }

  function Add(left: Quantifier, right: Quantifier): Quantifier {
    match left
    case Zero => right
    case ZeroOrOne => (
      match right
      case Zero => ZeroOrOne
      case ZeroOrOne => ZeroOrMore
      case ZeroOrMore => ZeroOrMore
      case One => OneOrMore
      case OneOrMore => OneOrMore)
    case ZeroOrMore => if right == One || right == OneOrMore then OneOrMore else ZeroOrMore
    case One => if right == Zero then One else OneOrMore
    case OneOrMore => OneOrMore
  }

  // ----- Each operation is the best abstraction of what it stands for -----

  /** n is the sum of k counts that q allows. */
  predicate AllowsSum(q: Quantifier, k: nat, n: nat) {
    if k == 0 then n == 0 else exists a | 0 <= a <= n :: Allows(q, a) && AllowsSum(q, k - 1, n - a)
  }

  /** n is the sum of as many counts of the left quantifier as the right one allows. */
  ghost predicate AllowsRepeated(left: Quantifier, right: Quantifier, n: nat) {
    exists k: nat :: Allows(right, k) && AllowsSum(left, k, n)
  }

  predicate AllowsAdded(left: Quantifier, right: Quantifier, n: nat) {
    exists a | 0 <= a <= n :: Allows(left, a) && Allows(right, n - a)
  }

  /** q allows everything that p does. */
  ghost predicate Covers(q: Quantifier, p: Quantifier) {
    forall n: nat | Allows(p, n) :: Allows(q, n)
  }

  lemma JoinIsBest(left: Quantifier, right: Quantifier, q: Quantifier)
    ensures Covers(Join(left, right), left) && Covers(Join(left, right), right)
    ensures Covers(q, left) && Covers(q, right) ==> Covers(q, Join(left, right))
  {
    if Covers(q, left) && Covers(q, right) {
      var p := if Most(left) >= Most(right) then left else right;
      assert Allows(p, Most(p)) && (Allows(left, 0) ==> Allows(q, 0)) && (Allows(right, 0) ==> Allows(q, 0));
      CoversWitnesses(q, Join(left, right), Most(p));
    }
  }

  lemma AddSound(left: Quantifier, right: Quantifier, n: nat)
    requires AllowsAdded(left, right, n)
    ensures Allows(Add(left, right), n)
  {
  }

  /** The largest count up to 2 that q allows; numbers from two on look alike to every quantifier. */
  function Most(q: Quantifier): nat {
    match q
    case Zero => 0
    case ZeroOrOne => 1
    case One => 1
    case ZeroOrMore => 2
    case OneOrMore => 2
  }

  lemma CoversWitnesses(q: Quantifier, p: Quantifier, most: nat)
    requires Allows(p, 0) ==> Allows(q, 0)
    requires Allows(q, most) && (if Most(p) == 2 then most >= 2 else most == Most(p))
    ensures Covers(q, p)
  {
  }

  lemma AddIsBest(left: Quantifier, right: Quantifier, q: Quantifier)
    requires forall n: nat | AllowsAdded(left, right, n) :: Allows(q, n)
    ensures Covers(q, Add(left, right))
  {
    var most := Most(left) + Most(right);
    assert AllowsAdded(left, right, most) by {
      assert Allows(left, Most(left)) && Allows(right, most - Most(left));
    }
    if Allows(Add(left, right), 0) {
      assert Allows(left, 0) && Allows(right, 0 - 0);
      assert AllowsAdded(left, right, 0);
    }
    CoversWitnesses(q, Add(left, right), most);
  }

  /** The sums of k counts, in closed form. */
  lemma {:induction false} SumsOf(q: Quantifier, k: nat, n: nat)
    ensures AllowsSum(q, k, n) <==> IsSumOf(q, k, n)
    decreases k
  {
    if k == 0 {
    } else {
      var j := k - 1;
      forall m: nat | m <= n
        ensures AllowsSum(q, j, m) <==> IsSumOf(q, j, m)
      {
        SumsOf(q, j, m);
      }
      var a := match q
        case Zero => 0
        case ZeroOrOne => if n < k then 0 else 1
        case ZeroOrMore => n
        case One => 1
        case OneOrMore => n - k + 1;
      if IsSumOf(q, k, n) {
        assert 0 <= a <= n && Allows(q, a) && IsSumOf(q, k - 1, n - a);
      }
    }
  }

  predicate IsSumOf(q: Quantifier, k: nat, n: nat) {
    match q
    case Zero => n == 0
    case ZeroOrOne => n <= k
    case ZeroOrMore => k == 0 ==> n == 0
    case One => n == k
    case OneOrMore => n >= k && (k == 0 ==> n == 0)
  }

  lemma MulSound(left: Quantifier, right: Quantifier, k: nat, n: nat)
    requires Allows(right, k) && AllowsSum(left, k, n)
    ensures Allows(Mul(left, right), n)
  {
    SumsOf(left, k, n);
  }

  lemma MulIsBest(left: Quantifier, right: Quantifier, q: Quantifier)
    requires forall n: nat | AllowsRepeated(left, right, n) :: Allows(q, n)
    ensures Covers(q, Mul(left, right))
  {
    var k := Most(right);
    var most := Most(left) * k;
    assert AllowsRepeated(left, right, most) by {
      assert Allows(right, k) && IsSumOf(left, k, most);
      SumsOf(left, k, most);
    }
    if Allows(Mul(left, right), 0) {
      var none := if Allows(right, 0) then 0 else 1;
      SumsOf(left, none, 0);
      assert Allows(right, none) && AllowsSum(left, none, 0);
      assert AllowsRepeated(left, right, 0);
    }
    CoversWitnesses(q, Mul(left, right), most);
  }
}
