/** What the transforms of src/signal_processing/fourier.rs guarantee: which input positions
    the recursion of fft_core reads, when a factor plan is complete enough for it to succeed,
    how the inverse scaling and the 2-D passes are ordered, and the failures that an
    incomplete factorisation causes. */
module FourierLaws {
  import opened Panics
  import opened ComplexNumbers
  import opened Fourier
  import Numbers

  // ---------------------------------------------------------------------------
  // The positions the leaves read

  /** The positions of the signal that the leaves of fft_core(size, factors, start, step)
      read, left to right (a plan with a zero factor fails before reading anything). */
  function Leaves(size: nat, factors: seq<nat>, start: nat, step: nat): seq<nat>
    decreases |factors|
  {
    if size == 1 || |factors| == 0 then [start]
    else if factors[0] == 0 then []
    else LeavesUpTo(size, factors, start, step, factors[0])
  }

  /** The leaves of the first `count` sub-transforms. */
  function LeavesUpTo(size: nat, factors: seq<nat>, start: nat, step: nat, count: nat): seq<nat>
    requires |factors| > 0 && factors[0] > 0
    decreases |factors|, count
  {
    if count == 0 then []
    else
      LeavesUpTo(size, factors, start, step, count - 1)
        + Leaves(size / factors[0], factors[1..], start + (count - 1) * step, step * factors[0])
  }

  /** x and y hold the same values at the given positions, and have them or lack them alike. */
  predicate AgreeOn(x: Signal, y: Signal, positions: seq<nat>) {
    forall j :: j in positions ==> (j < |x| <==> j < |y|) && (j < |x| ==> x[j] == y[j])
  }

  /** fft_core reads the signal only at its leaves: two signals that agree there give the
      same outcome, success or failure. */
  lemma {:induction false} CoreReadsOnlyLeaves(x: Signal, y: Signal, size: nat, factors: seq<nat>, start: nat, step: nat,
                                                 inverse: bool, w: Twiddle)
    requires AgreeOn(x, y, Leaves(size, factors, start, step))
    ensures CoreSpec(x, size, factors, start, step, inverse, w) == CoreSpec(y, size, factors, start, step, inverse, w)
    decreases |factors|
  {
    if size == 1 || |factors| == 0 {
      assert start in Leaves(size, factors, start, step);
    } else if factors[0] > 0 {
      ChunksReadOnlyLeaves(x, y, size, factors, start, step, inverse, w, factors[0]);
    }
  }

  lemma {:induction false} ChunksReadOnlyLeaves(x: Signal, y: Signal, size: nat, factors: seq<nat>, start: nat, step: nat,
                                                  inverse: bool, w: Twiddle, count: nat)
    requires |factors| > 0 && 0 < factors[0] && count <= factors[0]
    requires AgreeOn(x, y, LeavesUpTo(size, factors, start, step, count))
    ensures Chunks(x, size, factors, start, step, inverse, w, count) == Chunks(y, size, factors, start, step, inverse, w, count)
    decreases |factors|, count
  {
    if count > 0 {
      var p := factors[0];
      AgreeOnParts(x, y, LeavesUpTo(size, factors, start, step, count - 1),
        Leaves(size / p, factors[1..], start + (count - 1) * step, step * p));
      ChunksReadOnlyLeaves(x, y, size, factors, start, step, inverse, w, count - 1);
      CoreReadsOnlyLeaves(x, y, size / p, factors[1..], start + (count - 1) * step, step * p, inverse, w);
    }
  }

  lemma AgreeOnParts(x: Signal, y: Signal, a: seq<nat>, b: seq<nat>)
    requires AgreeOn(x, y, a + b)
    ensures AgreeOn(x, y, a) && AgreeOn(x, y, b)
  {
    forall j | j in a
      ensures j in a + b
    {
    }
    forall j | j in b
      ensures j in a + b
    {
    }
  }

  // ---------------------------------------------------------------------------
  // Digit reversal: with factors multiplying to size, the leaves are a permutation

  predicate Positive(factors: seq<nat>) {
    forall i :: 0 <= i < |factors| ==> factors[i] >= 1
  }

  /** The m of the position start + m·step that the leaf at place q reads: q's mixed-radix
      digits, most significant first, read back least significant first. */
  function Reversal(factors: seq<nat>, q: nat): nat
    requires Positive(factors)
    decreases |factors|
  {
    if |factors| == 0 then 0
    else
      ProductPositive(factors[1..]);
      var inner := Numbers.Product(factors[1..]);
      q / inner + factors[0] * Reversal(factors[1..], q % inner)
  }

  /** The place of the leaf that reads start + m·step. */
  function Unreversal(factors: seq<nat>, m: nat): nat
    requires Positive(factors)
    decreases |factors|
  {
    if |factors| == 0 then 0
    else (m % factors[0]) * Numbers.Product(factors[1..]) + Unreversal(factors[1..], m / factors[0])
  }

  lemma {:induction false} ProductPositive(factors: seq<nat>)
    requires Positive(factors)
    ensures Numbers.Product(factors) >= 1
    decreases |factors|
  {
    if |factors| > 0 {
      ProductPositive(factors[1..]);
      Numbers.MulAtLeast(factors[0], Numbers.Product(factors[1..]));
    }
  }

  lemma {:induction false} ReversalZero(factors: seq<nat>)
    requires Positive(factors)
    ensures Reversal(factors, 0) == 0
    decreases |factors|
  {
    if |factors| > 0 {
      ProductPositive(factors[1..]);
      ReversalZero(factors[1..]);
    }
  }

  lemma {:induction false} ReversalBelow(factors: seq<nat>, q: nat)
    requires Positive(factors) && q < Numbers.Product(factors)
    ensures Reversal(factors, q) < Numbers.Product(factors)
    decreases |factors|
  {
    if |factors| > 0 {
      var p, inner := factors[0], Numbers.Product(factors[1..]);
      ProductPositive(factors[1..]);
      DigitSplit(q, p, inner);
      ReversalBelow(factors[1..], q % inner);
      DigitsBelow(q / inner, Reversal(factors[1..], q % inner), p, inner);
    }
  }

  lemma {:induction false} UnreversalBelow(factors: seq<nat>, m: nat)
    requires Positive(factors) && m < Numbers.Product(factors)
    ensures Unreversal(factors, m) < Numbers.Product(factors)
    decreases |factors|
  {
    if |factors| > 0 {
      var p, inner := factors[0], Numbers.Product(factors[1..]);
      ProductPositive(factors[1..]);
      DigitSplit(m, inner, p);
      UnreversalBelow(factors[1..], m / p);
      DigitsBelowSwapped(m % p, Unreversal(factors[1..], m / p), p, inner);
    }
  }

  /** Reversal undoes Unreversal below the product. */
  lemma {:induction false} ReversalOfUnreversal(factors: seq<nat>, m: nat)
    requires Positive(factors) && m < Numbers.Product(factors)
    ensures Reversal(factors, Unreversal(factors, m)) == m
    decreases |factors|
  {
    if |factors| > 0 {
      var p, inner := factors[0], Numbers.Product(factors[1..]);
      ProductPositive(factors[1..]);
      DigitSplit(m, inner, p);
      var u := Unreversal(factors[1..], m / p);
      UnreversalBelow(factors[1..], m / p);
      ReversalOfUnreversal(factors[1..], m / p);
      DivModOf(m % p, u, inner);
      assert Unreversal(factors, m) == (m % p) * inner + u;
      DigitRecombine(m, p);
    }
  }

  /** Unreversal undoes Reversal below the product. */
  lemma {:induction false} UnreversalOfReversal(factors: seq<nat>, q: nat)
    requires Positive(factors) && q < Numbers.Product(factors)
    ensures Unreversal(factors, Reversal(factors, q)) == q
    decreases |factors|
  {
    if |factors| > 0 {
      var p, inner := factors[0], Numbers.Product(factors[1..]);
      ProductPositive(factors[1..]);
      DigitSplit(q, p, inner);
      var a: nat, b: nat := q / inner, q % inner;
      var r := Reversal(factors[1..], b);
      ReversalBelow(factors[1..], b);
      UnreversalOfReversal(factors[1..], b);
      var whole := Reversal(factors, q);
      assert whole == a + p * r;
      DivModOf(r, a, p);
      assert Unreversal(factors, whole) == (whole % p) * inner + Unreversal(factors[1..], whole / p);
    }
  }

  /** The place of each leaf: leaf q of fft_core(size, factors, start, step) reads
      start + Reversal(factors, q)·step. */
  lemma {:induction false} LeavesAt(size: nat, factors: seq<nat>, start: nat, step: nat)
    requires Positive(factors) && Numbers.Product(factors) == size
    ensures |Leaves(size, factors, start, step)| == size
    ensures forall q :: 0 <= q < size ==> Leaves(size, factors, start, step)[q] == start + Reversal(factors, q) * step
    decreases |factors|, 1
  {
    if |factors| == 0 {
      assert Reversal(factors, 0) == 0;
    } else if size == 1 {
      ReversalZero(factors);
    } else {
      ProductPositive(factors[1..]);
      ExactQuotient(size, factors[0], Numbers.Product(factors[1..]));
      LeavesUpToAt(size, factors, start, step, factors[0]);
    }
  }

  lemma {:induction false} LeavesUpToAt(size: nat, factors: seq<nat>, start: nat, step: nat, count: nat)
    requires Positive(factors) && |factors| > 0 && Numbers.Product(factors) == size && count <= factors[0]
    ensures var inner := Numbers.Product(factors[1..]);
      |LeavesUpTo(size, factors, start, step, count)| == count * inner &&
      forall q :: 0 <= q < count * inner ==> LeavesUpTo(size, factors, start, step, count)[q] == start + Reversal(factors, q) * step
    decreases |factors|, 0, count
  {
    var p, inner := factors[0], Numbers.Product(factors[1..]);
    ProductPositive(factors[1..]);
    if count > 0 {
      ExactQuotient(size, p, inner);
      LeavesUpToAt(size, factors, start, step, count - 1);
      var chunkStart := start + (count - 1) * step;
      LeavesAt(inner, factors[1..], chunkStart, step * p);
      var before := LeavesUpTo(size, factors, start, step, count - 1);
      var last := Leaves(inner, factors[1..], chunkStart, step * p);
      assert |before| == (count - 1) * inner;
      NextMultiple(count - 1, inner);
      forall q | (count - 1) * inner <= q < count * inner
        ensures LeavesUpTo(size, factors, start, step, count)[q] == start + Reversal(factors, q) * step
      {
        LastChunkLeaf(size, factors, start, step, count, q);
      }
    }
  }

  /** Leaf q of the last of the first count sub-transforms, given where the leaves of that
      sub-transform lie. */
  lemma LastChunkLeaf(size: nat, factors: seq<nat>, start: nat, step: nat, count: nat, q: nat)
    requires Positive(factors) && |factors| > 0 && Numbers.Product(factors) == size && 0 < count <= factors[0]
    requires Numbers.Product(factors[1..]) > 0 && size / factors[0] == Numbers.Product(factors[1..])
    requires var inner := Numbers.Product(factors[1..]);
      |LeavesUpTo(size, factors, start, step, count - 1)| == (count - 1) * inner &&
      (count - 1) * inner <= q < count * inner
    requires var inner, p := Numbers.Product(factors[1..]), factors[0];
      var chunkStart := start + (count - 1) * step;
      var last := Leaves(inner, factors[1..], chunkStart, step * p);
      |last| == inner &&
      forall r :: 0 <= r < inner ==> last[r] == chunkStart + Reversal(factors[1..], r) * (step * p)
    ensures LeavesUpTo(size, factors, start, step, count)[q] == start + Reversal(factors, q) * step
  {
    var p, inner := factors[0], Numbers.Product(factors[1..]);
    var r: nat := q - (count - 1) * inner;
    DivModOf(count - 1, r, inner);
    assert q / inner == count - 1 && q % inner == r;
    assert LeavesUpTo(size, factors, start, step, count)[q]
      == Leaves(inner, factors[1..], start + (count - 1) * step, step * p)[r];
    PlaceArithmetic(start, count - 1, Reversal(factors[1..], r), step, p);
  }

  /** The partition: when the factors multiply to size, the leaves of fft_core read every
      position start + m·step with m < size, each at exactly one place. */
  lemma LeavesPartition(size: nat, factors: seq<nat>, start: nat, step: nat)
    requires Positive(factors) && Numbers.Product(factors) == size
    ensures |Leaves(size, factors, start, step)| == size
    ensures forall q :: 0 <= q < size ==>
      exists m :: 0 <= m < size && Leaves(size, factors, start, step)[q] == start + m * step
    ensures forall m :: 0 <= m < size ==>
      Unreversal(factors, m) < size && Leaves(size, factors, start, step)[Unreversal(factors, m)] == start + m * step
    ensures step > 0 ==> forall q, q' :: 0 <= q < q' < size ==>
      Leaves(size, factors, start, step)[q] != Leaves(size, factors, start, step)[q']
  {
    LeavesAt(size, factors, start, step);
    var leaves := Leaves(size, factors, start, step);
    forall q | 0 <= q < size
      ensures exists m :: 0 <= m < size && leaves[q] == start + m * step
    {
      ReversalBelow(factors, q);
    }
    forall m | 0 <= m < size
      ensures Unreversal(factors, m) < size && leaves[Unreversal(factors, m)] == start + m * step
    {
      UnreversalBelow(factors, m);
      ReversalOfUnreversal(factors, m);
    }
    if step > 0 {
      forall q, q' | 0 <= q < q' < size
        ensures leaves[q] != leaves[q']
      {
        if leaves[q] == leaves[q'] {
          CancelStep(Reversal(factors, q), Reversal(factors, q'), step);
          UnreversalOfReversal(factors, q);
          UnreversalOfReversal(factors, q');
        }
      }
    }
  }

  // ---------------------------------------------------------------------------
  // Complete plans succeed

  /** With factors (all at least 1) multiplying to size and every position
      start + m·step (m < size) inside the signal, fft_core succeeds with size values. */
  lemma {:induction false} CompletePlanSucceeds(x: Signal, size: nat, factors: seq<nat>, start: nat, step: nat,
                                                  inverse: bool, w: Twiddle)
    requires Positive(factors) && Numbers.Product(factors) == size
    requires start + (size - 1) * step < |x|
    ensures CoreSpec(x, size, factors, start, step, inverse, w).Ok?
    ensures |CoreSpec(x, size, factors, start, step, inverse, w).value| == size
    decreases |factors|, 1
  {
    ProductPositive(factors);
    if size != 1 && |factors| > 0 {
      var p, inner := factors[0], Numbers.Product(factors[1..]);
      ProductPositive(factors[1..]);
      ExactQuotient(size, p, inner);
      ChunksSucceed(x, size, factors, start, step, inverse, w, p);
      var chunks := Chunks(x, size, factors, start, step, inverse, w, p).value;
      assert forall i :: 0 <= i < |chunks| ==> Min(size, inner) <= |chunks[i]|;
    }
  }

  lemma {:induction false} ChunksSucceed(x: Signal, size: nat, factors: seq<nat>, start: nat, step: nat,
                                           inverse: bool, w: Twiddle, count: nat)
    requires Positive(factors) && |factors| > 0 && Numbers.Product(factors) == size && count <= factors[0]
    requires start + (size - 1) * step < |x|
    ensures Chunks(x, size, factors, start, step, inverse, w, count).Ok?
    ensures forall i :: 0 <= i < count ==>
      |Chunks(x, size, factors, start, step, inverse, w, count).value[i]| == Numbers.Product(factors[1..])
    decreases |factors|, 0, count
  {
    if count > 0 {
      var p, inner := factors[0], Numbers.Product(factors[1..]);
      ProductPositive(factors[1..]);
      ExactQuotient(size, p, inner);
      ChunksSucceed(x, size, factors, start, step, inverse, w, count - 1);
      InsideSignal(start, count - 1, step, p, inner, |x|);
      CompletePlanSucceeds(x, inner, factors[1..], start + (count - 1) * step, step * p, inverse, w);
    }
  }

  lemma {:induction false} ProductOfInsert(x: nat, s: seq<nat>)
    ensures Numbers.Product(Insert(x, s)) == x * Numbers.Product(s)
    decreases |s|
  {
    if |s| == 0 || x >= s[0] {
      assert ([x] + s)[1..] == s;
    } else {
      var rest := Insert(x, s[1..]);
      ProductOfInsert(x, s[1..]);
      assert ([s[0]] + rest)[1..] == rest;
      Numbers.MulRegroup(s[0], x, Numbers.Product(s[1..]));
    }
  }

  lemma {:induction false} ProductOfSorted(s: seq<nat>)
    ensures Numbers.Product(SortDescending(s)) == Numbers.Product(s)
    decreases |s|
  {
    if |s| > 0 {
      ProductOfSorted(s[1..]);
      ProductOfInsert(s[0], SortDescending(s[1..]));
    }
  }

  /** When factorize leaves no cofactor, the sorted plan is complete: its factors are primes
      and multiply to n. */
  lemma PlanIsComplete(n: nat)
    requires 1 <= n <= Numbers.U32_MAX && Numbers.Leftover(n) == 1
    ensures Positive(Plan(n)) && Numbers.Product(Plan(n)) == n
  {
    TruncateBelow(n);
    var factors := Numbers.Factors(n);
    Numbers.FactorsCorrect(n);
    SortDescendingCorrect(factors);
    ProductOfSorted(factors);
    PrimesArePositive(SortDescending(factors), factors);
  }

  /** A rearrangement of a list of primes has no factor below one. */
  lemma PrimesArePositive(plan: seq<nat>, factors: seq<nat>)
    requires multiset(plan) == multiset(factors)
    requires forall f :: f in factors ==> Numbers.Prime(f)
    ensures Positive(plan)
  {
    forall i | 0 <= i < |plan|
      ensures plan[i] >= 1
    {
      assert plan[i] in multiset(factors);
      assert plan[i] in factors;
    }
  }

  /** When factorize finds every prime factor of n (no cofactor is dropped) and the signal
      has at least n values, fft and ifft of size n both succeed with n values. */
  lemma TransformsSucceedOnCompleteSizes(x: Signal, size: Option<nat>, w: Twiddle)
    requires 1 <= TransformSize(x, size) <= Numbers.U32_MAX
    requires Numbers.Leftover(TransformSize(x, size)) == 1 && TransformSize(x, size) <= |x|
    ensures FftSpec(x, size, w).Ok? && |FftSpec(x, size, w).value| == TransformSize(x, size)
    ensures IfftSpec(x, size, w).Ok? && |IfftSpec(x, size, w).value| == TransformSize(x, size)
  {
    var n := TransformSize(x, size);
    TruncateBelow(n);
    PlanIsComplete(n);
    CompletePlanSucceeds(x, n, Plan(n), 0, 1, false, w);
    CompletePlanSucceeds(x, n, Plan(n), 0, 1, true, w);
  }

  /** The 6-point signal of the transform tests: fft and ifft both return 6 values. */
  lemma SixPointTransforms(x: Signal, w: Twiddle)
    requires |x| == 6
    ensures FftSpec(x, None, w).Ok? && |FftSpec(x, None, w).value| == 6
    ensures IfftSpec(x, None, w).Ok? && |IfftSpec(x, None, w).value| == 6
  {
    Numbers.FactorizeCompleteExamples();
    TransformsSucceedOnCompleteSizes(x, None, w);
  }

  // ---------------------------------------------------------------------------
  // Failures inherited from factorize

  /** A prime length such as 7: factorize returns no factor, so fft returns only the first
      value and ifft then indexes past that single value. */
  lemma PrimeLengthCollapses(x: Signal, w: Twiddle)
    requires |x| == 7
    ensures FftSpec(x, None, w) == Ok([x[0]])
    ensures IfftSpec(x, None, w) == Err(IndexOutOfBounds)
  {
    var n := |x|;
    Numbers.FactorsOfSevenAndFourteen(n);
    TruncateBelow(n);
    assert Plan(n) == [];
    assert CoreSpec(x, n, Plan(n), 0, 1, true, w) == Ok([x[0]]);
    IfftOfShortCore(x, None, w);
  }

  /** ifft panics on `result[i]` when the recursion returned fewer than n values. */
  lemma IfftOfShortCore(x: Signal, size: Option<nat>, w: Twiddle)
    requires var n := TransformSize(x, size);
      Truncate(n) != 0 && CoreSpec(x, n, Plan(n), 0, 1, true, w).Ok? &&
      |CoreSpec(x, n, Plan(n), 0, 1, true, w).value| < n
    ensures IfftSpec(x, size, w) == Err(IndexOutOfBounds)
  {
  }

  /** Length 14: the plan is [2] (the cofactor 7 is dropped), so both sub-transforms are single
      values while the combination indexes them up to k % 7. */
  lemma Length14Panics(x: Signal, w: Twiddle)
    requires |x| == 14
    ensures FftSpec(x, None, w) == Err(IndexOutOfBounds)
    ensures IfftSpec(x, None, w) == Err(IndexOutOfBounds)
  {
    PlanOfFourteen(|x|);
    SingleFactorPlanPanics(x, 14, 2, false, w);
    SingleFactorPlanPanics(x, 14, 2, true, w);
  }

  /** factorize(14) drops the cofactor 7, so the plan for 14 values is the single factor 2. */
  lemma PlanOfFourteen(n: nat)
    requires n == 14
    ensures Truncate(n) == 14 && Plan(n) == [2]
  {
    TruncateBelow(n);
    Numbers.FactorsOfSevenAndFourteen(n);
    var factors := Numbers.Factors(n);
    assert factors == [2];
    SortDescendingSingle(2);
    assert Plan(n) == SortDescending(factors);
  }

  lemma SortDescendingSingle(p: nat)
    ensures SortDescending([p]) == [p]
  {
    assert [p][1..] == [];
  }

  /** A plan of one factor p for a size with cofactor at least 2 panics: its chunks are
      single values, indexed up to the cofactor. */
  lemma SingleFactorPlanPanics(x: Signal, n: nat, p: nat, inverse: bool, w: Twiddle)
    requires 2 <= p <= |x| && n / p >= 2
    ensures CoreSpec(x, n, [p], 0, 1, inverse, w) == Err(IndexOutOfBounds)
  {
    SingleFactorChunks(x, n, p, 0, 1, inverse, w, p);
    var chunks := seq(p, i requires 0 <= i < p => [x[0 + i * 1]]);
    assert |chunks[0]| < Min(n, n / p);
  }

  /** With a single factor p, the sub-transforms are leaves: chunk i is the one value at
      start + i·step. */
  lemma {:induction false} SingleFactorChunks(x: Signal, size: nat, p: nat, start: nat, step: nat,
                                                inverse: bool, w: Twiddle, count: nat)
    requires 0 < p && count <= p
    requires forall i :: 0 <= i < count ==> start + i * step < |x|
    ensures Chunks(x, size, [p], start, step, inverse, w, count)
      == Ok(seq(count, i requires 0 <= i < count => [x[start + i * step]]))
  {
    assert |seq(count, i requires 0 <= i < count => [x[start + i * step]])| == count;
    if count > 0 {
      var last := start + (count - 1) * step;
      assert last < |x|;
      SingleFactorChunks(x, size, p, start, step, inverse, w, count - 1);
      var prev := seq(count - 1, i requires 0 <= i < count - 1 => [x[start + i * step]]);
      SingleFactorChunkStep(x, size, p, start, step, inverse, w, count, prev, last);
      LeafListAppend(x, start, step, count);
    }
  }

  /** The list of single-value chunks grows by the leaf at its next position. */
  lemma LeafListAppend(x: Signal, start: nat, step: nat, count: nat)
    requires count > 0 && forall i :: 0 <= i < count ==> start + i * step < |x|
    ensures seq(count - 1, i requires 0 <= i < count - 1 => [x[start + i * step]]) + [[x[start + (count - 1) * step]]]
      == seq(count, i requires 0 <= i < count => [x[start + i * step]])
  {
  }

  /** With a single factor, chunk count − 1 is the leaf at its start. */
  lemma SingleFactorChunkStep(x: Signal, size: nat, p: nat, start: nat, step: nat, inverse: bool, w: Twiddle,
                              count: nat, prev: seq<Signal>, last: nat)
    requires 0 < p && 0 < count <= p
    requires last == start + (count - 1) * step && last < |x|
    requires Chunks(x, size, [p], start, step, inverse, w, count - 1) == Ok(prev)
    ensures Chunks(x, size, [p], start, step, inverse, w, count) == Ok(prev + [[x[last]]])
  {
    LeafChunk(x, size / p, [p][1..], last, step * p, inverse, w);
  }

  /** A sub-transform with no factors left is the single value at its start. */
  lemma LeafChunk(x: Signal, size: nat, rest: seq<nat>, start: nat, step: nat, inverse: bool, w: Twiddle)
    requires rest == [] && start < |x|
    ensures CoreSpec(x, size, rest, start, step, inverse, w) == Ok([x[start]])
  {
  }

  /** There is no zero padding: a requested size beyond the signal reads past its end. */
  lemma NoZeroPadding(x: Signal, w: Twiddle)
    requires |x| == 1
    ensures FftSpec(x, Some(2), w) == Err(IndexOutOfBounds)
  {
    Numbers.FactorizeCompleteExamples();
    assert Plan(2) == [2];
    assert [2][1..] == [];
    assert CoreSpec(x, 1, [], 1, 2, false, w) == Err(IndexOutOfBounds);
  }

  /** An empty signal with no explicit size asks for factorize(0), which never returns. */
  lemma EmptySignalDiverges(w: Twiddle)
    ensures FftSpec([], None, w) == Err(Diverges) && IfftSpec([], None, w) == Err(Diverges)
  {
  }

  // ---------------------------------------------------------------------------
  // Scaling and direction

  /** ifft divides each of the n values of the unscaled recursion by n exactly once:
      multiplying back by n restores them. */
  lemma IfftScalesOnce(x: Signal, size: Option<nat>, w: Twiddle)
    requires IfftSpec(x, size, w).Ok?
    ensures var n := TransformSize(x, size);
      Truncate(n) != 0 && CoreSpec(x, n, Plan(n), 0, 1, true, w).Ok? &&
      |IfftSpec(x, size, w).value| == |CoreSpec(x, n, Plan(n), 0, 1, true, w).value| == n &&
      forall i :: 0 <= i < n ==>
        Mul(IfftSpec(x, size, w).value[i], FromReal(n as real)) == CoreSpec(x, n, Plan(n), 0, 1, true, w).value[i]
  {
    var n := TransformSize(x, size);
    var v := CoreSpec(x, n, Plan(n), 0, 1, true, w).value;
    NormSquaredOfCount(n);
    forall i | 0 <= i < n
      ensures Mul(IfftSpec(x, size, w).value[i], FromReal(n as real)) == v[i]
    {
      DivMulCancel(v[i], FromReal(n as real));
    }
  }

  /** idft divides the positive-sign sum by n exactly once. */
  lemma IdftScalesOnce(x: Signal, w: Twiddle, k: nat)
    requires k < |x|
    ensures Mul(IdftSpec(x, w)[k], FromReal(|x| as real)) == DftSum(x, k, |x|, true, w, |x|)
  {
    NormSquaredOfCount(|x|);
    DivMulCancel(DftSum(x, k, |x|, true, w, |x|), FromReal(|x| as real));
  }

  /** The twiddle of the opposite direction: w with the sign of its angle flipped. */
  function Flipped(w: Twiddle): Twiddle {
    (num: nat, den: nat, inverse: bool) => w(num, den, !inverse)
  }

  /** One butterfly of the inverse is the forward butterfly under the flipped twiddle. */
  lemma {:induction false} ButterflyFlipped(chunks: seq<Signal>, k: nat, size: nat, cs: nat, w: Twiddle, count: nat)
    requires cs > 0 && count <= |chunks|
    requires forall i :: 0 <= i < count ==> k % cs < |chunks[i]|
    ensures Butterfly(chunks, k, size, cs, true, w, count) == Butterfly(chunks, k, size, cs, false, Flipped(w), count)
  {
    if count > 0 {
      ButterflyFlipped(chunks, k, size, cs, w, count - 1);
    }
  }

  lemma CombineFlipped(chunks: seq<Signal>, size: nat, cs: nat, w: Twiddle)
    ensures CombineSpec(chunks, size, cs, true, w) == CombineSpec(chunks, size, cs, false, Flipped(w))
  {
    var inv := CombineSpec(chunks, size, cs, true, w);
    if inv.Ok? && size > 0 {
      var fwd := CombineSpec(chunks, size, cs, false, Flipped(w));
      forall k | 0 <= k < size
        ensures inv.value[k] == fwd.value[k]
      {
        ButterflyInRange(chunks, k, size, cs);
        ButterflyFlipped(chunks, k, size, cs, w, |chunks|);
      }
      assert inv.value == fwd.value;
    }
  }

  /** fft_core's two directions differ only in the sign of the rotation factor: the
      inverse recursion is the forward recursion run with the flipped twiddle. */
  lemma {:induction false} CoreFlipped(x: Signal, size: nat, factors: seq<nat>, start: nat, step: nat, w: Twiddle)
    ensures CoreSpec(x, size, factors, start, step, true, w) == CoreSpec(x, size, factors, start, step, false, Flipped(w))
    decreases |factors|, 1
  {
    if size != 1 && |factors| != 0 && factors[0] != 0 {
      ChunksFlipped(x, size, factors, start, step, w, factors[0]);
      var chunks := Chunks(x, size, factors, start, step, true, w, factors[0]);
      if chunks.Ok? {
        CombineFlipped(chunks.value, size, size / factors[0], w);
      }
    }
  }

  lemma {:induction false} ChunksFlipped(x: Signal, size: nat, factors: seq<nat>, start: nat, step: nat, w: Twiddle, count: nat)
    requires |factors| > 0 && 0 < factors[0] && count <= factors[0]
    ensures Chunks(x, size, factors, start, step, true, w, count) == Chunks(x, size, factors, start, step, false, Flipped(w), count)
    decreases |factors|, 0, count
  {
    if count > 0 {
      ChunksFlipped(x, size, factors, start, step, w, count - 1);
      CoreFlipped(x, size / factors[0], factors[1..], start + (count - 1) * step, step * factors[0], w);
    }
  }

  /** Hence ifft is fft under the flipped twiddle followed by the one division by n. */
  lemma IfftIsScaledFlippedFft(x: Signal, size: Option<nat>, w: Twiddle)
    requires IfftSpec(x, size, w).Ok?
    ensures FftSpec(x, size, Flipped(w)).Ok?
    ensures IfftSpec(x, size, w).value == Scaled(FftSpec(x, size, Flipped(w)).value, TransformSize(x, size))
  {
    var n := TransformSize(x, size);
    CoreFlipped(x, n, Plan(n), 0, 1, w);
  }

  /** The same holds for the unscaled direct sum of idft. */
  lemma {:induction false} DftSumFlipped(x: Signal, k: nat, n: nat, w: Twiddle, count: nat)
    requires count <= |x|
    ensures DftSum(x, k, n, true, w, count) == DftSum(x, k, n, false, Flipped(w), count)
  {
    if count > 0 {
      DftSumFlipped(x, k, n, w, count - 1);
    }
  }

  // ---------------------------------------------------------------------------
  // The 2-D transforms: rows then columns forward, columns then rows inverse

  /** Column j of g exists and its transform at length rows has at least rows values. */
  predicate ColumnSucceeds(g: Grid, j: nat, rows: nat, inverse: bool, w: Twiddle) {
    var column := ColumnOf(g, j);
    column.Ok? &&
    var col := Transform(column.value, rows, inverse, w);
    col.Ok? && rows <= |col.value|
  }

  /** Column j of h holds the first rows values of the transform of column j of g. */
  predicate ColumnHolds(g: Grid, h: Grid, j: nat, rows: nat, inverse: bool, w: Twiddle) {
    ColumnSucceeds(g, j, rows, inverse, w) && |h| == rows &&
    var col := Transform(ColumnOf(g, j).value, rows, inverse, w).value;
    forall i :: 0 <= i < rows ==> j < |h[i]| && h[i][j] == col[i]
  }

  /** The row pass succeeds exactly when every row 0..count exists and transforms. */
  lemma {:induction false} RowPassSucceeds(g: Grid, cols: nat, inverse: bool, w: Twiddle, count: nat)
    ensures RowPass(g, cols, inverse, w, count).Ok? <==>
      forall i :: 0 <= i < count ==> RowOf(g, i, cols, inverse, w).Ok?
  {
    if count > 0 {
      RowPassSucceeds(g, cols, inverse, w, count - 1);
    }
  }

  /** Row i of a successful row pass is the transform of row i of g. */
  lemma {:induction false} RowPassRows(g: Grid, cols: nat, inverse: bool, w: Twiddle, count: nat)
    requires RowPass(g, cols, inverse, w, count).Ok?
    ensures count <= |g|
    ensures forall i :: 0 <= i < count ==>
      RowOf(g, i, cols, inverse, w) == Ok(RowPass(g, cols, inverse, w, count).value[i])
  {
    if count > 0 {
      RowPassRows(g, cols, inverse, w, count - 1);
      var prev := RowPass(g, cols, inverse, w, count - 1);
      var row := RowOf(g, count - 1, cols, inverse, w);
      assert RowPass(g, cols, inverse, w, count).value == prev.value + [row.value];
    }
  }

  /** Column j of a grid whose column j and row lengths agree with g's is g's column j. */
  lemma ColumnUntouched(g: Grid, h: Grid, j: nat)
    requires |h| == |g| && forall i :: 0 <= i < |g| ==> |h[i]| == |g[i]|
    requires forall i :: 0 <= i < |g| && j < |g[i]| ==> h[i][j] == g[i][j]
    ensures ColumnOf(h, j) == ColumnOf(g, j)
  {
    if ColumnOf(g, j).Ok? {
      assert ColumnOf(h, j).value == ColumnOf(g, j).value;
    }
  }

  /** After a successful column pass of fft2 over columns 0..count, column j < count holds
      the fft of column j of the grid it started from, and every other entry is unchanged.
      Column j is read after columns 0..j have been rewritten, but those writes never touch
      column j. */
  lemma {:induction false} ForwardColumnsHold(g: Grid, rows: nat, w: Twiddle, count: nat)
    requires |g| == rows && ForwardColumns(g, rows, w, count).Ok?
    ensures var h := ForwardColumns(g, rows, w, count).value;
      (forall j :: 0 <= j < count ==> ColumnHolds(g, h, j, rows, false, w)) &&
      forall i, j :: 0 <= i < rows && count <= j < |g[i]| ==> h[i][j] == g[i][j]
  {
    if count > 0 {
      ForwardColumnsUnfold(g, rows, w, count);
      ForwardColumnsHold(g, rows, w, count - 1);
      ForwardColumnHoldsStep(g, ForwardColumns(g, rows, w, count - 1).value, rows, w, count - 1);
    }
  }

  lemma ForwardColumnsUnfold(g: Grid, rows: nat, w: Twiddle, count: nat)
    requires |g| == rows && 0 < count && ForwardColumns(g, rows, w, count).Ok?
    ensures var prev := ForwardColumns(g, rows, w, count - 1);
      prev.Ok? && ForwardColumns(g, rows, w, count) == ForwardColumn(prev.value, count - 1, rows, w)
  {
  }

  /** One step of fft2's column pass: column k now holds its transform, the columns done
      before keep theirs, and the later columns are still those of the grid. */
  lemma ForwardColumnHoldsStep(g: Grid, h: Grid, rows: nat, w: Twiddle, k: nat)
    requires |g| == rows && |h| == rows && forall i :: 0 <= i < rows ==> |h[i]| == |g[i]|
    requires forall j :: 0 <= j < k ==> ColumnHolds(g, h, j, rows, false, w)
    requires forall i, j :: 0 <= i < rows && k <= j < |g[i]| ==> h[i][j] == g[i][j]
    requires ForwardColumn(h, k, rows, w).Ok?
    ensures var h' := ForwardColumn(h, k, rows, w).value;
      (forall j :: 0 <= j <= k ==> ColumnHolds(g, h', j, rows, false, w)) &&
      forall i, j :: 0 <= i < rows && k < j < |g[i]| ==> h'[i][j] == g[i][j]
  {
    ColumnUntouched(g, h, k);
    var col := FftSpec(ColumnOf(h, k).value, Some(rows), w).value;
    var h' := WriteColumn(h, k, col, rows).value;
    assert h' == ForwardColumn(h, k, rows, w).value;
    forall j | 0 <= j < k
      ensures ColumnHolds(g, h', j, rows, false, w)
    {
      ColumnHoldsKept(g, h, h', j, rows, false, w);
    }
    assert ColumnHolds(g, h', k, rows, false, w);
  }

  /** fft2's column pass over columns 0..count succeeds when each of those columns of the
      grid it starts from transforms to at least rows values. */
  lemma {:induction false} ForwardColumnsComplete(g: Grid, rows: nat, w: Twiddle, count: nat)
    requires |g| == rows && forall j :: 0 <= j < count ==> ColumnSucceeds(g, j, rows, false, w)
    ensures ForwardColumns(g, rows, w, count).Ok?
  {
    if count > 0 {
      ForwardColumnsComplete(g, rows, w, count - 1);
      var prev := ForwardColumns(g, rows, w, count - 1).value;
      ForwardColumnsLeaveNext(g, rows, w, count - 1);
      assert ColumnSucceeds(g, count - 1, rows, false, w);
      ForwardColumnSucceeds(g, prev, count - 1, rows, w);
    }
  }

  /** The column after those fft2's column pass has done still reads as in the grid it
      started from. */
  lemma ForwardColumnsLeaveNext(g: Grid, rows: nat, w: Twiddle, count: nat)
    requires |g| == rows && ForwardColumns(g, rows, w, count).Ok?
    ensures ColumnOf(ForwardColumns(g, rows, w, count).value, count) == ColumnOf(g, count)
  {
    ForwardColumnsHold(g, rows, w, count);
    ColumnUntouched(g, ForwardColumns(g, rows, w, count).value, count);
  }

  /** One step of fft2's column pass succeeds when the column it reads is still the
      column of the grid it started from and that column transforms. */
  lemma ForwardColumnSucceeds(g: Grid, h: Grid, j: nat, rows: nat, w: Twiddle)
    requires |h| == rows
    requires ColumnOf(h, j) == ColumnOf(g, j) && ColumnSucceeds(g, j, rows, false, w)
    ensures ForwardColumn(h, j, rows, w).Ok?
  {
  }

  /** fft2's column pass over columns 0..count succeeds exactly when each of those columns
      of the grid it starts from transforms to at least rows values. */
  lemma ForwardColumnsSucceed(g: Grid, rows: nat, w: Twiddle, count: nat)
    requires |g| == rows
    ensures ForwardColumns(g, rows, w, count).Ok? <==>
      forall j :: 0 <= j < count ==> ColumnSucceeds(g, j, rows, false, w)
  {
    if forall j :: 0 <= j < count ==> ColumnSucceeds(g, j, rows, false, w) {
      ForwardColumnsComplete(g, rows, w, count);
    }
    if ForwardColumns(g, rows, w, count).Ok? {
      ForwardColumnsHold(g, rows, w, count);
      var h := ForwardColumns(g, rows, w, count).value;
      forall j | 0 <= j < count
        ensures ColumnSucceeds(g, j, rows, false, w)
      {
        assert ColumnHolds(g, h, j, rows, false, w);
      }
    }
  }

  /** After a successful column pass of ifft2 over columns 0..count, column j < count of the
      result holds the ifft of column j of the input, and every later column is still zero. */
  lemma {:induction false} InverseColumnsHold(g: Grid, rows: nat, cols: nat, w: Twiddle, count: nat)
    requires count <= cols && InverseColumns(g, rows, cols, w, count).Ok?
    ensures var h := InverseColumns(g, rows, cols, w, count).value;
      (forall j :: 0 <= j < count ==> ColumnHolds(g, h, j, rows, true, w)) &&
      forall i, j :: 0 <= i < rows && count <= j < cols ==> h[i][j] == Zero()
  {
    if count > 0 {
      InverseColumnsUnfold(g, rows, cols, w, count);
      InverseColumnsHold(g, rows, cols, w, count - 1);
      InverseColumnStep(g, InverseColumns(g, rows, cols, w, count - 1).value, rows, cols, w, count - 1);
    }
  }

  lemma InverseColumnsUnfold(g: Grid, rows: nat, cols: nat, w: Twiddle, count: nat)
    requires 0 < count <= cols && InverseColumns(g, rows, cols, w, count).Ok?
    ensures var prev := InverseColumns(g, rows, cols, w, count - 1);
      prev.Ok? && InverseColumns(g, rows, cols, w, count) == InverseColumn(g, prev.value, count - 1, rows, w)
  {
  }

  /** One step of ifft2's column pass: writing column k keeps columns 0..k and the zeros
      beyond column k. */
  lemma InverseColumnStep(g: Grid, h: Grid, rows: nat, cols: nat, w: Twiddle, k: nat)
    requires k < cols && |h| == rows && forall i :: 0 <= i < rows ==> |h[i]| == cols
    requires forall j :: 0 <= j < k ==> ColumnHolds(g, h, j, rows, true, w)
    requires forall i, j :: 0 <= i < rows && k <= j < cols ==> h[i][j] == Zero()
    requires InverseColumn(g, h, k, rows, w).Ok?
    ensures var h' := InverseColumn(g, h, k, rows, w).value;
      (forall j :: 0 <= j <= k ==> ColumnHolds(g, h', j, rows, true, w)) &&
      forall i, j :: 0 <= i < rows && k < j < cols ==> h'[i][j] == Zero()
  {
    var col := IfftSpec(ColumnOf(g, k).value, Some(rows), w).value;
    var h' := WriteColumn(h, k, col, rows).value;
    assert h' == InverseColumn(g, h, k, rows, w).value;
    forall j | 0 <= j < k
      ensures ColumnHolds(g, h', j, rows, true, w)
    {
      ColumnHoldsKept(g, h, h', j, rows, true, w);
    }
    assert ColumnHolds(g, h', k, rows, true, w);
  }

  /** A column that holds its transform keeps holding it when no entry of it changes. */
  lemma ColumnHoldsKept(g: Grid, h: Grid, h': Grid, j: nat, rows: nat, inverse: bool, w: Twiddle)
    requires ColumnHolds(g, h, j, rows, inverse, w) && |h'| == rows
    requires forall i :: 0 <= i < rows ==> j < |h'[i]| && h'[i][j] == h[i][j]
    ensures ColumnHolds(g, h', j, rows, inverse, w)
  {
  }

  /** ifft2's column pass over columns 0..count succeeds when each of those columns of the
      input inverts to at least rows values. */
  lemma {:induction false} InverseColumnsComplete(g: Grid, rows: nat, cols: nat, w: Twiddle, count: nat)
    requires count <= cols && forall j :: 0 <= j < count ==> ColumnSucceeds(g, j, rows, true, w)
    ensures InverseColumns(g, rows, cols, w, count).Ok?
  {
    if count > 0 {
      InverseColumnsComplete(g, rows, cols, w, count - 1);
      assert ColumnSucceeds(g, count - 1, rows, true, w);
    }
  }

  /** ifft2's column pass over columns 0..count succeeds exactly when each of those columns
      of the input inverts to at least rows values. */
  lemma InverseColumnsSucceed(g: Grid, rows: nat, cols: nat, w: Twiddle, count: nat)
    requires count <= cols
    ensures InverseColumns(g, rows, cols, w, count).Ok? <==>
      forall j :: 0 <= j < count ==> ColumnSucceeds(g, j, rows, true, w)
  {
    if forall j :: 0 <= j < count ==> ColumnSucceeds(g, j, rows, true, w) {
      InverseColumnsComplete(g, rows, cols, w, count);
    }
    if InverseColumns(g, rows, cols, w, count).Ok? {
      InverseColumnsHold(g, rows, cols, w, count);
    }
  }

  /** fft2 is rows × cols: every row of the input is transformed first, and then every
      column of that row-transformed grid. */
  lemma Fft2RowsThenColumns(g: Grid, size: Option<(nat, nat)>, w: Twiddle)
    requires Fft2Spec(g, size, w).Ok?
    ensures Dims(g, size).Ok?
    ensures var (rows, cols) := Dims(g, size).value;
      var r := Fft2Spec(g, size, w).value;
      var rowPass := RowPass(g, cols, false, w, rows);
      rowPass.Ok? && |r| == rows &&
      (forall i :: 0 <= i < rows ==> RowOf(g, i, cols, false, w) == Ok(rowPass.value[i])) &&
      (forall j :: 0 <= j < cols ==> ColumnHolds(rowPass.value, r, j, rows, false, w)) &&
      forall i :: 0 <= i < rows ==> |r[i]| == cols
  {
    var (rows, cols) := Dims(g, size).value;
    var rowPass := RowPass(g, cols, false, w, rows);
    RowPassRows(g, cols, false, w, rows);
    ForwardColumnsHold(rowPass.value, rows, w, cols);
    forall i | 0 <= i < rows
      ensures |rowPass.value[i]| == cols
    {
      RowLength(g, i, cols, false, w, rowPass.value[i]);
    }
  }

  /** A row transformed at length cols has cols values, or one value when the plan is empty;
      a length of one still leaves room for every column only when cols is at most 1. */
  lemma RowLength(g: Grid, i: nat, cols: nat, inverse: bool, w: Twiddle, row: Signal)
    requires RowOf(g, i, cols, inverse, w) == Ok(row) && cols <= |row|
    ensures |row| == cols
  {
  }

  /** ifft2 is rows × cols: every column of the input is inverted first, into a zero grid,
      and then every row of that grid. */
  lemma Ifft2ColumnsThenRows(g: Grid, size: Option<(nat, nat)>, w: Twiddle)
    requires Ifft2Spec(g, size, w).Ok?
    ensures Dims(g, size).Ok?
    ensures var (rows, cols) := Dims(g, size).value;
      var r := Ifft2Spec(g, size, w).value;
      var columnPass := InverseColumns(g, rows, cols, w, cols);
      columnPass.Ok? && |r| == rows &&
      (forall j :: 0 <= j < cols ==> ColumnHolds(g, columnPass.value, j, rows, true, w)) &&
      forall i :: 0 <= i < rows ==> RowOf(columnPass.value, i, cols, true, w) == Ok(r[i]) && |r[i]| == cols
  {
    var (rows, cols) := Dims(g, size).value;
    var columnPass := InverseColumns(g, rows, cols, w, cols);
    InverseColumnsHold(g, rows, cols, w, cols);
    RowPassRows(columnPass.value, cols, true, w, rows);
  }

  // ---------------------------------------------------------------------------
  // Arithmetic on mixed-radix digits

  lemma DigitSplit(q: nat, p: nat, inner: nat)
    requires inner >= 1 && q < p * inner
    ensures 0 <= q / inner < p && 0 <= q % inner < inner && q == (q / inner) * inner + q % inner
  {
    if q / inner >= p {
      Numbers.MulMono(p, inner, q / inner, inner);
    }
  }

  lemma DigitsBelow(a: nat, b: nat, p: nat, inner: nat)
    requires a < p && b < inner
    ensures a + p * b < p * inner
  {
    Numbers.MulMono(p, b + 1, p, inner);
  }

  lemma DigitsBelowSwapped(a: nat, b: nat, p: nat, inner: nat)
    requires a < p && b < inner
    ensures a * inner + b < p * inner
  {
    Numbers.MulMono(a + 1, inner, p, inner);
  }

  lemma TruncateBelow(n: nat)
    requires n <= Numbers.U32_MAX
    ensures Truncate(n) == n
  {
    DivModOf(0, n, 0x1_0000_0000);
  }

  lemma DivModOf(a: nat, b: nat, d: nat)
    requires b < d
    ensures (a * d + b) / d == a && (a * d + b) % d == b
  {
    var n := a * d + b;
    var q, r := n / d, n % d;
    assert (a + 1) * d == a * d + d;
    assert (q + 1) * d == q * d + d;
    if q > a {
      Numbers.MulMono(a + 1, d, q, d);
    } else if q < a {
      Numbers.MulMono(q + 1, d, a, d);
    }
  }

  lemma DigitRecombine(m: nat, p: nat)
    requires p >= 1
    ensures m % p + p * (m / p) == m
  {
  }

  lemma ExactQuotient(size: nat, p: nat, inner: nat)
    requires p >= 1 && size == p * inner
    ensures size / p == inner
  {
    DivModOf(inner, 0, p);
  }

  lemma InsideSignal(start: nat, i: nat, step: nat, p: nat, inner: nat, length: nat)
    requires i < p && inner >= 1 && start + (p * inner - 1) * step < length
    ensures (start + i * step) + (inner - 1) * (step * p) < length
  {
    assert i + (inner - 1) * p <= p * inner - 1;
    Numbers.MulMono(i + (inner - 1) * p, step, p * inner - 1, step);
    assert (i + (inner - 1) * p) * step == i * step + (inner - 1) * (step * p);
  }

  lemma NextMultiple(c: nat, inner: nat)
    ensures c * inner + inner == (c + 1) * inner
  {
  }

  lemma PlaceArithmetic(start: nat, i: nat, r: nat, step: nat, p: nat)
    ensures start + i * step + r * (step * p) == start + (i + p * r) * step
  {
  }

  lemma CancelStep(a: nat, b: nat, step: nat)
    requires step > 0 && a * step == b * step
    ensures a == b
  {
  }
}
