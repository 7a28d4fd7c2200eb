/** The bounded subset-sum search of the split matcher. It tries one
    candidate, then a pair, then (for at most ten candidates) every non-empty
    subset in ascending bit-mask order, and returns the ids of the first
    choice whose amounts sum to within the tolerance of the target. */
module SubsetSearch {
  import opened Wrappers
  import opened Records
  import opened Utils

  /** A candidate target row: its index and its amount on the matching side. */
  datatype Amount = Amount(id: nat, value: real)

  /** The exhaustive search is attempted only up to this many candidates. */
  const MaxExhaustive: nat := 10

  function Pow2(n: nat): (r: nat)
    ensures r >= 1
  {
    if n == 0 then 1 else 2 * Pow2(n - 1)
  }

  /** A choice among the candidates: `sel[k]` says whether candidate `k` is taken. */
  type Selection = seq<bool>

  /** The ids of the chosen candidates, in candidate order. */
  function Picked(cs: seq<Amount>, sel: Selection): (r: seq<nat>)
    requires |sel| == |cs|
    ensures |r| <= |cs|
  {
    if sel == [] then [] else (if sel[0] then [cs[0].id] else []) + Picked(cs[1..], sel[1..])
  }

  /** The total amount of the chosen candidates. */
  function PickedSum(cs: seq<Amount>, sel: Selection): real
    requires |sel| == |cs|
  {
    if sel == [] then 0.0 else (if sel[0] then cs[0].value else 0.0) + PickedSum(cs[1..], sel[1..])
  }

  /** The ids of all candidates, in order. */
  function IdsOf(cs: seq<Amount>): (r: seq<nat>)
    ensures |r| == |cs| && forall k :: 0 <= k < |cs| ==> r[k] == cs[k].id
  {
    if cs == [] then [] else [cs[0].id] + IdsOf(cs[1..])
  }

  /** Only ids of candidates are picked, and candidates listed by increasing
      id are picked by increasing id. */
  lemma {:induction false} PickedFromCandidates(cs: seq<Amount>, sel: Selection)
    requires |sel| == |cs|
    ensures forall x :: x in Picked(cs, sel) ==> x in IdsOf(cs)
    ensures Increasing(IdsOf(cs)) ==> Increasing(Picked(cs, sel))
    decreases |cs|
  {
    if sel != [] {
      var rest := Picked(cs[1..], sel[1..]);
      PickedFromCandidates(cs[1..], sel[1..]);
      assert IdsOf(cs) == [cs[0].id] + IdsOf(cs[1..]);
      if Increasing(IdsOf(cs)) {
        assert Increasing(IdsOf(cs[1..]));
        forall x | x in rest ensures cs[0].id < x {
          var k :| 0 <= k < |cs| - 1 && IdsOf(cs[1..])[k] == x;
          assert IdsOf(cs)[k + 1] == x;
        }
        if sel[0] {
          IncreasingPrepend(cs[0].id, rest);
        } else {
          assert Picked(cs, sel) == rest;
        }
      }
    }
  }

  /** The selection of candidate `k` alone. */
  function Only(n: nat, k: nat): (r: Selection)
    ensures |r| == n
  {
    seq(n, q => q == k)
  }

  /** The selection of candidates `a` and `b`. */
  function Two(n: nat, a: nat, b: nat): (r: Selection)
    ensures |r| == n
  {
    seq(n, q => q == a || q == b)
  }

  /** The selection of bit mask `mask` over `n` candidates: bit `k` chooses candidate `k`. */
  function Bits(mask: nat, n: nat): (r: Selection)
    ensures |r| == n
  {
    if n == 0 then [] else [mask % 2 == 1] + Bits(mask / 2, n - 1)
  }

  lemma {:induction false} PickNone(cs: seq<Amount>, sel: Selection)
    requires |sel| == |cs| && forall q :: 0 <= q < |sel| ==> !sel[q]
    ensures Picked(cs, sel) == [] && PickedSum(cs, sel) == 0.0
    decreases |cs|
  {
    if sel != [] {
      PickNone(cs[1..], sel[1..]);
    }
  }

  /** Choosing candidate `k` alone picks its id and its amount. */
  lemma {:induction false} PickOnly(cs: seq<Amount>, k: nat)
    requires k < |cs|
    ensures Picked(cs, Only(|cs|, k)) == [cs[k].id]
    ensures PickedSum(cs, Only(|cs|, k)) == cs[k].value
    decreases k
  {
    var sel := Only(|cs|, k);
    if k == 0 {
      PickNone(cs[1..], sel[1..]);
    } else {
      assert sel[1..] == Only(|cs| - 1, k - 1);
      PickOnly(cs[1..], k - 1);
    }
  }

  /** Choosing candidates `a < b` picks their ids in order and the sum of their amounts. */
  lemma {:induction false} PickTwo(cs: seq<Amount>, a: nat, b: nat)
    requires a < b < |cs|
    ensures Picked(cs, Two(|cs|, a, b)) == [cs[a].id, cs[b].id]
    ensures PickedSum(cs, Two(|cs|, a, b)) == cs[a].value + cs[b].value
    decreases a
  {
    var sel := Two(|cs|, a, b);
    if a == 0 {
      assert sel[1..] == Only(|cs| - 1, b - 1);
      PickOnly(cs[1..], b - 1);
    } else {
      assert sel[1..] == Two(|cs| - 1, a - 1, b - 1);
      PickTwo(cs[1..], a - 1, b - 1);
    }
  }

  /** A choice of at least one candidate picks at least one id. */
  lemma {:induction false} PickSome(cs: seq<Amount>, sel: Selection)
    requires |sel| == |cs| && true in sel
    ensures Picked(cs, sel) != []
    decreases |cs|
  {
    if !sel[0] {
      PickSome(cs[1..], sel[1..]);
    }
  }

  /** Every mask in `[1, 2^n)` chooses at least one candidate. */
  lemma {:induction false} BitsNonEmpty(mask: nat, n: nat)
    requires 1 <= mask < Pow2(n)
    ensures true in Bits(mask, n)
  {
    if mask % 2 == 0 {
      BitsNonEmpty(mask / 2, n - 1);
    }
  }

  predicate SingleFits(cs: seq<Amount>, k: nat, target: real, tol: real)
    requires k < |cs|
  {
    Near(cs[k].value, target, tol)
  }

  predicate PairFits(cs: seq<Amount>, a: nat, b: nat, target: real, tol: real)
    requires a < |cs| && b < |cs|
  {
    Near(cs[a].value + cs[b].value, target, tol)
  }

  predicate MaskFits(cs: seq<Amount>, mask: nat, target: real, tol: real) {
    Near(PickedSum(cs, Bits(mask, |cs|)), target, tol)
  }

  /** The first position at or after `k` whose single amount fits. */
  function FirstSingle(cs: seq<Amount>, target: real, tol: real, k: nat): (r: Option<nat>)
    ensures r.Some? ==> k <= r.value < |cs| && SingleFits(cs, r.value, target, tol)
    ensures r.Some? ==> forall q :: k <= q < r.value ==> !SingleFits(cs, q, target, tol)
    ensures r.None? ==> forall q :: k <= q < |cs| ==> !SingleFits(cs, q, target, tol)
    decreases |cs| - k
  {
    if k >= |cs| then None
    else if SingleFits(cs, k, target, tol) then Some(k)
    else FirstSingle(cs, target, tol, k + 1)
  }

  /** The first partner `b >= from` of position `a` whose pair sum fits. */
  function FirstPartner(cs: seq<Amount>, target: real, tol: real, a: nat, from: nat): (r: Option<nat>)
    requires a < |cs|
    ensures r.Some? ==> from <= r.value < |cs| && PairFits(cs, a, r.value, target, tol)
    ensures r.Some? ==> forall b :: from <= b < r.value ==> !PairFits(cs, a, b, target, tol)
    ensures r.None? ==> forall b :: from <= b < |cs| ==> !PairFits(cs, a, b, target, tol)
    decreases |cs| - from
  {
    if from >= |cs| then None
    else if PairFits(cs, a, from, target, tol) then Some(from)
    else FirstPartner(cs, target, tol, a, from + 1)
  }

  /** Pairs are ordered by first position, then by second. */
  predicate PairBefore(a: nat, b: nat, a': nat, b': nat) {
    a < a' || (a == a' && b < b')
  }

  /** The first pair `a < b` with `a >= k`, in nested-loop order, whose sum fits. */
  function FirstPair(cs: seq<Amount>, target: real, tol: real, k: nat): (r: Option<(nat, nat)>)
    ensures r.Some? ==> k <= r.value.0 < r.value.1 < |cs| && PairFits(cs, r.value.0, r.value.1, target, tol)
    ensures r.Some? ==> forall a, b :: k <= a < b < |cs| && PairBefore(a, b, r.value.0, r.value.1) ==>
      !PairFits(cs, a, b, target, tol)
    ensures r.None? ==> forall a, b :: k <= a < b < |cs| ==> !PairFits(cs, a, b, target, tol)
    decreases |cs| - k
  {
    if k >= |cs| then None
    else match FirstPartner(cs, target, tol, k, k + 1)
      case Some(b) => Some((k, b))
      case None => FirstPair(cs, target, tol, k + 1)
  }

  /** The first mask in `[from, 2^|cs|)`, in ascending order, whose chosen amounts fit. */
  function FirstMask(cs: seq<Amount>, target: real, tol: real, from: nat): (r: Option<nat>)
    ensures r.Some? ==> from <= r.value < Pow2(|cs|) && MaskFits(cs, r.value, target, tol)
    ensures r.Some? ==> forall m: nat :: from <= m < r.value ==> !MaskFits(cs, m, target, tol)
    ensures r.None? ==> forall m: nat :: from <= m < Pow2(|cs|) ==> !MaskFits(cs, m, target, tol)
    decreases Pow2(|cs|) - from
  {
    if from >= Pow2(|cs|) then None
    else if MaskFits(cs, from, target, tol) then Some(from)
    else FirstMask(cs, target, tol, from + 1)
  }

  /** The subset search. `Some([])` means the target is already within the
      tolerance of zero; `None` means no choice was found. */
  function SubsetSum(cs: seq<Amount>, target: real, tol: real): (r: Option<seq<nat>>)
  {
    if Abs(target) < tol then Some([])
    else match FirstSingle(cs, target, tol, 0)
      case Some(k) => Some([cs[k].id])
      case None =>
        match (if |cs| >= 2 then FirstPair(cs, target, tol, 0) else None)
        case Some((a, b)) => Some([cs[a].id, cs[b].id])
        case None =>
          if |cs| <= MaxExhaustive then
            match FirstMask(cs, target, tol, 1)
            case Some(m) => Some(Picked(cs, Bits(m, |cs|)))
            case None => None
          else None
  }

  /** A non-empty answer is the ids, in candidate order, of a non-empty
      choice of candidates whose amounts sum to within `tol` of the target;
      an empty answer happens exactly when the target itself is within `tol`
      of zero. */
  lemma SubsetSumSound(cs: seq<Amount>, target: real, tol: real)
    ensures SubsetSum(cs, target, tol) == Some([]) <==> Abs(target) < tol
    ensures var r := SubsetSum(cs, target, tol);
      r.Some? && r.value != [] ==>
        exists sel: Selection :: |sel| == |cs| && true in sel &&
          r.value == Picked(cs, sel) && Near(PickedSum(cs, sel), target, tol)
  {
    var r := SubsetSum(cs, target, tol);
    if Abs(target) >= tol {
      match FirstSingle(cs, target, tol, 0)
      case Some(k) =>
        var sel := Only(|cs|, k);
        PickOnly(cs, k);
        assert sel[k];
        assert |sel| == |cs| && true in sel && r.value == Picked(cs, sel) && Near(PickedSum(cs, sel), target, tol);
      case None =>
        var pr := if |cs| >= 2 then FirstPair(cs, target, tol, 0) else None;
        match pr
        case Some((a, b)) =>
          var sel := Two(|cs|, a, b);
          PickTwo(cs, a, b);
          assert sel[a];
          assert |sel| == |cs| && true in sel && r.value == Picked(cs, sel) && Near(PickedSum(cs, sel), target, tol);
        case None =>
          if |cs| <= MaxExhaustive {
            match FirstMask(cs, target, tol, 1)
            case Some(m) =>
              var sel := Bits(m, |cs|);
              BitsNonEmpty(m, |cs|);
              PickSome(cs, sel);
              assert |sel| == |cs| && true in sel && r.value == Picked(cs, sel) && Near(PickedSum(cs, sel), target, tol);
            case None =>
          }
    }
  }

  /** The search finds nothing exactly when the target is not near zero, no
      single candidate and no pair fits, and either there are more than ten
      candidates or no non-empty subset fits. */
  lemma SubsetSumNoneExactly(cs: seq<Amount>, target: real, tol: real)
    ensures SubsetSum(cs, target, tol).None? <==>
      && Abs(target) >= tol
      && (forall k :: 0 <= k < |cs| ==> !SingleFits(cs, k, target, tol))
      && (forall a, b :: 0 <= a < b < |cs| ==> !PairFits(cs, a, b, target, tol))
      && (|cs| <= MaxExhaustive ==> forall m :: 1 <= m < Pow2(|cs|) ==> !MaskFits(cs, m, target, tol))
  {
  }

  /** The search prefers the first single candidate that fits, then the first
      fitting pair in nested-loop order, then the smallest fitting mask. */
  lemma SubsetSumPriority(cs: seq<Amount>, target: real, tol: real)
    requires Abs(target) >= tol
    ensures forall k ::
      (&& 0 <= k < |cs| && SingleFits(cs, k, target, tol)
       && (forall q :: 0 <= q < k ==> !SingleFits(cs, q, target, tol)))
      ==> SubsetSum(cs, target, tol) == Some([cs[k].id])
    ensures (forall k :: 0 <= k < |cs| ==> !SingleFits(cs, k, target, tol)) ==>
      forall a, b ::
        (&& 0 <= a < b < |cs| && PairFits(cs, a, b, target, tol)
         && (forall a', b' :: 0 <= a' < b' < |cs| && PairBefore(a', b', a, b) ==> !PairFits(cs, a', b', target, tol)))
        ==> SubsetSum(cs, target, tol) == Some([cs[a].id, cs[b].id])
  {
  }

  /** With no fitting single candidate and no fitting pair, the search answers
      with the smallest fitting mask when there are at most ten candidates. */
  lemma SubsetSumMaskPriority(cs: seq<Amount>, target: real, tol: real, m: nat)
    requires Abs(target) >= tol
    requires forall k :: 0 <= k < |cs| ==> !SingleFits(cs, k, target, tol)
    requires forall a, b :: 0 <= a < b < |cs| ==> !PairFits(cs, a, b, target, tol)
    requires |cs| <= MaxExhaustive
    requires 1 <= m < Pow2(|cs|) && MaskFits(cs, m, target, tol)
    requires forall m': nat :: 1 <= m' < m ==> !MaskFits(cs, m', target, tol)
    ensures SubsetSum(cs, target, tol) == Some(Picked(cs, Bits(m, |cs|)))
  {
    var f := FirstMask(cs, target, tol, 1);
    assert f.Some?;
    assert f.value == m;
  }
}
