/** Mutation operators of the genetic algorithm (ex2/Mutator.py).
    A candidate solution holds an integer job-assignment array; each operator
    overwrites that array in place and hands back the same candidate.
    The random draws the operators make (a Bernoulli mask, a ternary mask, a
    swap position and the replacement values) are passed in as parameters,
    which makes every operator deterministic. */
module Mutator {

  datatype Option<T> = None | Some(value: T)

  /** Why a call to `mutate` raises instead of returning the candidate. */
  datatype MutationError =
    | InvalidRate        // the Bernoulli probability is outside [0, 1]
    | EmptyAssignments   // max()/min() of an empty array, or no position to draw
    | EmptyDrawRange     // values drawn from [0, max) with max <= 0

  /** The candidate solution; only its job-assignment array is modelled. */
  class Individual {
    var jobAssignments: array<int>

    constructor (jobAssignments: array<int>)
      ensures this.jobAssignments == jobAssignments
    {
      this.jobAssignments := jobAssignments;
    }
  }

  /** What `mutate` hands back: the candidate it was given, or the error it raised. */
  datatype Outcome = Mutated(individual: Individual) | Failed(error: MutationError)

  // ---------------------------------------------------------------------------
  // Array reductions (numpy's max() and min())
  // ---------------------------------------------------------------------------

  function Max(s: seq<int>): (m: int)
    requires |s| > 0
    ensures m in s
    ensures forall k :: 0 <= k < |s| ==> s[k] <= m
  {
    if |s| == 1 then s[0]
    else
      var rest := Max(s[1..]);
      if s[0] >= rest then s[0] else rest
  }

  function Min(s: seq<int>): (m: int)
    requires |s| > 0
    ensures m in s
    ensures forall k :: 0 <= k < |s| ==> m <= s[k]
  {
    if |s| == 1 then s[0]
    else
      var rest := Min(s[1..]);
      if s[0] <= rest then s[0] else rest
  }

  // ---------------------------------------------------------------------------
  // SwapMutator: exchange a position with its cyclic successor
  // ---------------------------------------------------------------------------

  /** The position after p in a cyclic array of n elements. */
  function Successor(p: nat, n: nat): (q: nat)
    requires p < n
    ensures q < n
    ensures q == if p == n - 1 then 0 else p + 1
  {
    (p + 1) % n
  }

  /** s with positions p and its cyclic successor exchanged. */
  function Swapped(s: seq<int>, p: nat): (r: seq<int>)
    requires p < |s|
    ensures |r| == |s|
    ensures r[p] == s[Successor(p, |s|)] && r[Successor(p, |s|)] == s[p]
    ensures forall k :: 0 <= k < |s| && k != p && k != Successor(p, |s|) ==> r[k] == s[k]
    ensures multiset(r) == multiset(s)
  {
    var q := Successor(p, |s|);
    s[p := s[q]][q := s[p]]
  }

  /** Swapping the same pair twice restores the original array. */
  lemma SwapTwiceRestores(s: seq<int>, p: nat)
    requires p < |s|
    ensures Swapped(Swapped(s, p), p) == s
  {
  }

  /** On a one-element array the swap exchanges the element with itself. */
  lemma SwapSingletonIsIdentity(s: seq<int>)
    requires |s| == 1
    ensures Swapped(s, 0) == s
  {
  }

  // ---------------------------------------------------------------------------
  // BoundaryMutator: masked overwrite with the original min and max
  // ---------------------------------------------------------------------------

  /** s with every position whose mask entry is `tag` replaced by v,
      the effect of numpy's `a[mask == tag] = v`. */
  function Overwrite(s: seq<int>, mask: seq<int>, tag: int, v: int): (r: seq<int>)
    requires |mask| == |s|
    ensures |r| == |s|
  {
    if s == [] then []
    else [if mask[0] == tag then v else s[0]] + Overwrite(s[1..], mask[1..], tag, v)
  }

  /** Overwrite changes exactly the positions tagged `tag`, each to v. */
  lemma {:induction false} OverwriteAt(s: seq<int>, mask: seq<int>, tag: int, v: int, k: nat)
    requires |mask| == |s| && k < |s|
    ensures Overwrite(s, mask, tag, v)[k] == if mask[k] == tag then v else s[k]
  {
    if k > 0 {
      OverwriteAt(s[1..], mask[1..], tag, v, k - 1);
    }
  }

  /** The array after BoundaryMutator.mutate: min and max are read first,
      then the 0-tagged positions get the min and the 2-tagged ones the max. */
  function BoundaryMutated(s: seq<int>, mask: seq<int>): (r: seq<int>)
    requires |mask| == |s| && |s| > 0
    ensures |r| == |s|
  {
    var lo, hi := Min(s), Max(s);
    Overwrite(Overwrite(s, mask, 0, lo), mask, 2, hi)
  }

  /** Each position of the boundary mutation, by its mask entry. */
  lemma BoundaryMutatedAt(s: seq<int>, mask: seq<int>, k: nat)
    requires |mask| == |s| && k < |s|
    ensures mask[k] == 0 ==> BoundaryMutated(s, mask)[k] == Min(s)
    ensures mask[k] == 2 ==> BoundaryMutated(s, mask)[k] == Max(s)
    ensures mask[k] != 0 && mask[k] != 2 ==> BoundaryMutated(s, mask)[k] == s[k]
  {
    OverwriteAt(s, mask, 0, Min(s), k);
    OverwriteAt(Overwrite(s, mask, 0, Min(s)), mask, 2, Max(s), k);
  }

  /** Every element after the boundary mutation lies between the original min and max. */
  lemma BoundaryMutatedInRange(s: seq<int>, mask: seq<int>)
    requires |mask| == |s| && |s| > 0
    ensures forall k :: 0 <= k < |s| ==> Min(s) <= BoundaryMutated(s, mask)[k] <= Max(s)
  {
    forall k | 0 <= k < |s|
      ensures Min(s) <= BoundaryMutated(s, mask)[k] <= Max(s)
    {
      BoundaryMutatedAt(s, mask, k);
    }
  }

  /** The boundary mutation only introduces the original min and max. */
  lemma BoundaryIntroducesOnlyBounds(s: seq<int>, mask: seq<int>, k: nat)
    requires |mask| == |s| && k < |s|
    ensures BoundaryMutated(s, mask)[k] in {s[k], Min(s), Max(s)}
  {
    BoundaryMutatedAt(s, mask, k);
  }

  // ---------------------------------------------------------------------------
  // RandomMutator: masked overwrite with drawn values
  // ---------------------------------------------------------------------------

  /** The number of marked positions: the size of the boolean selection `a[mask]`. */
  function CountMarked(mask: seq<bool>): (n: nat)
    ensures n <= |mask|
  {
    if mask == [] then 0 else (if mask[0] then 1 else 0) + CountMarked(mask[1..])
  }

  lemma {:induction false} CountMarkedSnoc(mask: seq<bool>, i: nat)
    requires i < |mask|
    ensures CountMarked(mask[..i + 1]) == CountMarked(mask[..i]) + (if mask[i] then 1 else 0)
  {
    if i == 0 {
      assert mask[..1][1..] == [];
    } else {
      assert mask[..i + 1][1..] == mask[1..][..i];
      assert mask[..i][1..] == mask[1..][..i - 1];
      CountMarkedSnoc(mask[1..], i - 1);
    }
  }

  /** A marked position's place among the marked ones is below their number. */
  lemma {:induction false} CountMarkedBefore(mask: seq<bool>, i: nat)
    requires i < |mask| && mask[i]
    ensures CountMarked(mask[..i]) < CountMarked(mask)
  {
    if i > 0 {
      assert mask[..i][1..] == mask[1..][..i - 1];
      CountMarkedBefore(mask[1..], i - 1);
    }
  }

  /** numpy's `a[mask] = draws`: the marked positions receive the drawn values
      in order, the others keep theirs. */
  function Scatter(s: seq<int>, mask: seq<bool>, draws: seq<int>): (r: seq<int>)
    requires |mask| == |s| && |draws| == CountMarked(mask)
    ensures |r| == |s|
  {
    if s == [] then []
    else if mask[0] then [draws[0]] + Scatter(s[1..], mask[1..], draws[1..])
    else [s[0]] + Scatter(s[1..], mask[1..], draws)
  }

  /** Position k of the scatter: the draw whose index is the number of marked
      positions before k, or the old value when k is unmarked. */
  lemma {:induction false} ScatterAt(s: seq<int>, mask: seq<bool>, draws: seq<int>, k: nat)
    requires |mask| == |s| && |draws| == CountMarked(mask) && k < |s|
    ensures mask[k] ==> CountMarked(mask[..k]) < |draws|
    ensures Scatter(s, mask, draws)[k] ==
            if mask[k] then draws[CountMarked(mask[..k])] else s[k]
  {
    if mask[k] {
      CountMarkedBefore(mask, k);
    }
    if k == 0 {
      assert mask[..0] == [];
    } else {
      assert mask[..k][1..] == mask[1..][..k - 1];
      if mask[0] {
        ScatterAt(s[1..], mask[1..], draws[1..], k - 1);
      } else {
        ScatterAt(s[1..], mask[1..], draws, k - 1);
      }
    }
  }

  /** The draw range of randint(0, max): every value v with 0 <= v < Max(s). */
  predicate DrawsInRange(s: seq<int>, draws: seq<int>)
  {
    |s| > 0 && Max(s) > 0 ==> forall k :: 0 <= k < |draws| ==> 0 <= draws[k] < Max(s)
  }

  /** After the random mutation, unmarked positions are unchanged and every
      marked position holds a value in [0, original max). */
  lemma RandomMutatedInRange(s: seq<int>, mask: seq<bool>, draws: seq<int>)
    requires |mask| == |s| && |draws| == CountMarked(mask)
    requires |s| > 0 && Max(s) > 0 && DrawsInRange(s, draws)
    ensures forall k :: 0 <= k < |s| && !mask[k] ==> Scatter(s, mask, draws)[k] == s[k]
    ensures forall k :: 0 <= k < |s| && mask[k] ==> 0 <= Scatter(s, mask, draws)[k] < Max(s)
  {
    forall k | 0 <= k < |s|
      ensures !mask[k] ==> Scatter(s, mask, draws)[k] == s[k]
      ensures mask[k] ==> 0 <= Scatter(s, mask, draws)[k] < Max(s)
    {
      ScatterAt(s, mask, draws, k);
      if mask[k] {
        CountMarkedBefore(mask, k);
      }
    }
  }

  /** A Bernoulli probability that np.random.choice accepts for p = [rate, 1 - rate]. */
  predicate ValidRate(rate: real)
  {
    0.0 <= rate <= 1.0
  }

  /** The error RandomMutator.mutate raises, in the order `mutate` meets them:
      the mask draw, then `max()` of the array, then the value draw. */
  function RandomMutationError(rate: real, s: seq<int>, marked: nat): (e: Option<MutationError>)
    ensures e == None <==> ValidRate(rate) && |s| > 0 && (marked == 0 || Max(s) > 0)
    ensures e == Some(EmptyDrawRange) ==> marked > 0
  {
    if !ValidRate(rate) then Some(InvalidRate)
    else if |s| == 0 then Some(EmptyAssignments)
    else if marked > 0 && Max(s) <= 0 then Some(EmptyDrawRange)
    else None
  }

  /** The rate after dynamic adaptation at the given progress fraction. */
  function AdaptedRate(origRate: real, progress: real): (rate: real)
    ensures progress == 0.2 ==> rate == origRate
    ensures progress == 1.0 ==> rate == 0.2 * origRate
  {
    origRate * (1.2 - progress)
  }

  /** From progress 0.2 on the adapted rate decays linearly and stays a valid
      probability no larger than the original. */
  lemma AdaptedRateDecays(origRate: real, progress: real, later: real)
    requires ValidRate(origRate) && 0.2 <= progress <= later <= 1.2
    ensures ValidRate(AdaptedRate(origRate, progress))
    ensures AdaptedRate(origRate, later) <= AdaptedRate(origRate, progress) <= origRate
  {
    var factor, laterFactor := 1.2 - progress, 1.2 - later;
    assert 0.0 <= laterFactor <= factor <= 1.0;
    assert 0.0 <= origRate * factor <= origRate;
    var gap := origRate * (factor - laterFactor);
    assert 0.0 <= gap;
    assert origRate * factor == origRate * laterFactor + gap;
    assert AdaptedRate(origRate, progress) == origRate * factor;
    assert AdaptedRate(origRate, later) == origRate * laterFactor;
  }

  /** The formula is not clamped: early in the run a high original rate is
      pushed above 1, and the next mutate then fails on the mask draw. */
  lemma AdaptedRateCanLeaveRange()
    ensures !ValidRate(AdaptedRate(1.0, 0.0))
    ensures RandomMutationError(AdaptedRate(1.0, 0.0), [1], 1) == Some(InvalidRate)
  {
  }

  // ---------------------------------------------------------------------------
  // The operators
  // ---------------------------------------------------------------------------

  /** numpy's `a[mask == tag] = v`: one pass of the boundary mutation. */
  method OverwriteWhere(a: array<int>, mask: seq<int>, tag: int, v: int)
    requires |mask| == a.Length
    modifies a
    ensures a[..] == Overwrite(old(a[..]), mask, tag, v)
  {
    var i := 0;
    while i < a.Length
      invariant 0 <= i <= a.Length
      invariant forall k :: 0 <= k < i ==> a[k] == if mask[k] == tag then v else old(a[k])
      invariant forall k :: i <= k < a.Length ==> a[k] == old(a[k])
    {
      if mask[i] == tag {
        a[i] := v;
      }
      i := i + 1;
    }
    ghost var was := old(a[..]);
    forall k | 0 <= k < a.Length
      ensures a[..][k] == Overwrite(was, mask, tag, v)[k]
    {
      OverwriteAt(was, mask, tag, v, k);
    }
  }

  /** numpy's `a[mask] = draws`: the marked positions receive the draws in order. */
  method ScatterInto(a: array<int>, mask: seq<bool>, draws: seq<int>)
    requires |mask| == a.Length && |draws| == CountMarked(mask)
    modifies a
    ensures a[..] == Scatter(old(a[..]), mask, draws)
  {
    forall k | 0 <= k < |mask| && mask[k]
      ensures CountMarked(mask[..k]) < |draws|
    {
      CountMarkedBefore(mask, k);
    }
    var i, j := 0, 0;
    while i < a.Length
      invariant 0 <= i <= a.Length
      invariant j == CountMarked(mask[..i])
      invariant forall k :: 0 <= k < i ==>
        a[k] == if mask[k] then draws[CountMarked(mask[..k])] else old(a[k])
      invariant forall k :: i <= k < a.Length ==> a[k] == old(a[k])
    {
      CountMarkedSnoc(mask, i);
      if mask[i] {
        CountMarkedBefore(mask, i);
        a[i] := draws[j];
        j := j + 1;
      }
      i := i + 1;
    }
    ghost var was := old(a[..]);
    forall k | 0 <= k < a.Length
      ensures a[..][k] == Scatter(was, mask, draws)[k]
    {
      ScatterAt(was, mask, draws, k);
    }
  }

  /** Replaces each position marked by a Bernoulli(mutationRate) draw with a
      value drawn from [0, max of the array). */
  class RandomMutator {
    var mutationRate: real
    const origMutationRate: real
    const dynAdapt: bool

    constructor (mutationRate: real := 0.5, dynAdapt: bool := false)
      ensures this.mutationRate == mutationRate && origMutationRate == mutationRate
      ensures this.dynAdapt == dynAdapt
    {
      this.mutationRate := mutationRate;
      this.origMutationRate := mutationRate;
      this.dynAdapt := dynAdapt;
    }

    /** `mutPos` is the Bernoulli mask, `draws` the values randint produced for
        the marked positions, in order. */
    method Mutate(toMutate: Individual, mutPos: seq<bool>, draws: seq<int>) returns (r: Outcome)
      requires |mutPos| == toMutate.jobAssignments.Length
      requires |draws| == CountMarked(mutPos)
      requires DrawsInRange(toMutate.jobAssignments[..], draws)
      modifies toMutate.jobAssignments
      ensures var e := RandomMutationError(mutationRate, old(toMutate.jobAssignments[..]), |draws|);
        match e
        case Some(err) => r == Failed(err) && unchanged(toMutate.jobAssignments)
        case None => (r == Mutated(toMutate) &&
          toMutate.jobAssignments[..] == Scatter(old(toMutate.jobAssignments[..]), mutPos, draws))
    {
      var a := toMutate.jobAssignments;
      var e := RandomMutationError(mutationRate, a[..], |draws|);
      if e.Some? {
        return Failed(e.value);
      }
      ScatterInto(a, mutPos, draws);
      r := Mutated(toMutate);
    }

    /** Rescales the rate from the original one when adaptation is switched on. */
    method DynamicAdaptation(progress: real)
      modifies this
      ensures mutationRate == if dynAdapt then AdaptedRate(origMutationRate, progress) else old(mutationRate)
    {
      if dynAdapt {
        mutationRate := origMutationRate * (1.2 - progress);
      }
    }
  }

  /** Sets each position to the array's min or max, or keeps it, by a ternary mask. */
  class BoundaryMutator {
    constructor ()
    {
    }

    /** `mask` holds the ternary draws: 0 selects the min, 2 the max, 1 keeps the value. */
    method Mutate(toMutate: Individual, mask: seq<int>) returns (r: Outcome)
      requires |mask| == toMutate.jobAssignments.Length
      modifies toMutate.jobAssignments
      ensures toMutate.jobAssignments.Length == 0 ==> r == Failed(EmptyAssignments)
      ensures toMutate.jobAssignments.Length > 0 ==> (r == Mutated(toMutate) &&
        toMutate.jobAssignments[..] == BoundaryMutated(old(toMutate.jobAssignments[..]), mask))
    {
      var a := toMutate.jobAssignments;
      if a.Length == 0 {
        return Failed(EmptyAssignments);
      }
      var max := Max(a[..]);
      var min := Min(a[..]);
      ghost var was := a[..];
      OverwriteWhere(a, mask, 0, min);
      OverwriteWhere(a, mask, 2, max);
      assert a[..] == BoundaryMutated(was, mask);
      r := Mutated(toMutate);
    }

    /** The boundary mutator has nothing to adapt: it changes no state. */
    method DynamicAdaptation(progress: real)
    {
    }
  }

  /** Exchanges one position with its cyclic successor. */
  class SwapMutator {
    constructor ()
    {
    }

    /** `mutPos` is the position randint drew from [0, size). */
    method Mutate(toMutate: Individual, mutPos: nat) returns (r: Outcome)
      requires toMutate.jobAssignments.Length > 0 ==> mutPos < toMutate.jobAssignments.Length
      modifies toMutate.jobAssignments
      ensures toMutate.jobAssignments.Length == 0 ==> r == Failed(EmptyAssignments)
      ensures toMutate.jobAssignments.Length > 0 ==> (r == Mutated(toMutate) &&
        toMutate.jobAssignments[..] == Swapped(old(toMutate.jobAssignments[..]), mutPos))
    {
      var a := toMutate.jobAssignments;
      var size := a.Length;
      if size == 0 {
        return Failed(EmptyAssignments);
      }
      var next := (mutPos + 1) % size;
      // the right-hand tuple is evaluated before either store
      var atNext, atPos := a[next], a[mutPos];
      a[mutPos] := atNext;
      a[next] := atPos;
      r := Mutated(toMutate);
    }

    /** The swap mutator has nothing to adapt: it changes no state. */
    method DynamicAdaptation(progress: real)
    {
    }
  }
}
