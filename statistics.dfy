/** src/gmath/statistics.rs over exact `real` values (mean, square mean, harmonic mean,
    population variance and the median) and over any type with equality (mode, unique). */
module Statistics {
  import opened Panics

  // ---------------------------------------------------------------------------
  // The folds

  /** `fold(0, |acc, x| acc + x)`, from the left. */
  function Sum(s: seq<real>): real {
    if |s| == 0 then 0.0 else Sum(s[..|s| - 1]) + s[|s| - 1]
  }

  /** `fold(0, |acc, x| acc + x * x)`. */
  function SumOfSquares(s: seq<real>): real {
    if |s| == 0 then 0.0 else SumOfSquares(s[..|s| - 1]) + s[|s| - 1] * s[|s| - 1]
  }

  /** `fold(0, |acc, x| acc + (x - m) * (x - m))`. */
  function SumOfSquaredDeviations(s: seq<real>, m: real): real {
    if |s| == 0 then 0.0
    else SumOfSquaredDeviations(s[..|s| - 1], m) + (s[|s| - 1] - m) * (s[|s| - 1] - m)
  }

  /** `fold(0, |acc, x| acc + 1 / x)`, over values none of which is zero. */
  function SumOfReciprocals(s: seq<real>): real
    requires forall i :: 0 <= i < |s| ==> s[i] != 0.0
  {
    if |s| == 0 then 0.0 else SumOfReciprocals(s[..|s| - 1]) + 1.0 / s[|s| - 1]
  }

  // ---------------------------------------------------------------------------
  // The means and the variance

  /** `average`: zero for no data, otherwise the sum over the count. */
  function Average(s: seq<real>): (r: real)
    ensures |s| == 0 ==> r == 0.0
    ensures |s| > 0 ==> r * (|s| as real) == Sum(s)
  {
    if |s| == 0 then 0.0 else Sum(s) / (|s| as real)
  }

  /** `square_mean`: zero for no data, otherwise Σx² over the count. */
  function SquareMean(s: seq<real>): (r: real)
    ensures |s| == 0 ==> r == 0.0
    ensures |s| > 0 ==> r * (|s| as real) == SumOfSquares(s)
  {
    if |s| == 0 then 0.0 else SumOfSquares(s) / (|s| as real)
  }

  /** `harmonic_mean`: zero for no data, otherwise the count over Σ 1/x. A zero value, or
      reciprocals that cancel to zero, is a division by zero. */
  function HarmonicMean(s: seq<real>): (r: Result<real>)
    ensures |s| == 0 ==> r == Ok(0.0)
    ensures r.Err? <==> |s| > 0 && ((exists i :: 0 <= i < |s| && s[i] == 0.0) || SumOfReciprocals(s) == 0.0)
    ensures r.Ok? && |s| > 0 ==> r.value * SumOfReciprocals(s) == |s| as real
  {
    if |s| == 0 then Ok(0.0)
    else if exists i :: 0 <= i < |s| && s[i] == 0.0 then Err(DivisionByZero)
    else
      var total := SumOfReciprocals(s);
      if total == 0.0 then Err(DivisionByZero) else Ok((|s| as real) / total)
  }

  /** `variance`: the population variance, Σ(x − mean)² divided by the count (not by the
      count less one); zero for no data. */
  function Variance(s: seq<real>): (r: real)
    ensures |s| == 0 ==> r == 0.0
    ensures |s| > 0 ==> r * (|s| as real) == SumOfSquaredDeviations(s, Average(s))
  {
    if |s| == 0 then 0.0 else SumOfSquaredDeviations(s, Average(s)) / (|s| as real)
  }

  // ---------------------------------------------------------------------------
  // Laws of the means

  lemma {:induction false} SumBounds(s: seq<real>, lo: real, hi: real)
    requires forall i :: 0 <= i < |s| ==> lo <= s[i] <= hi
    ensures (|s| as real) * lo <= Sum(s) <= (|s| as real) * hi
  {
    if |s| > 0 {
      SumBounds(s[..|s| - 1], lo, hi);
    }
  }

  /** The mean lies between the least and the greatest value. */
  lemma AverageBounds(s: seq<real>, lo: real, hi: real)
    requires |s| > 0 && forall i :: 0 <= i < |s| ==> lo <= s[i] <= hi
    ensures lo <= Average(s) <= hi
  {
    SumBounds(s, lo, hi);
    var n := |s| as real;
    var a := Average(s);
    CancelBelow(lo, a, n);
    CancelBelow(a, hi, n);
  }

  /** x·n ≤ y·n with n positive gives x ≤ y. */
  lemma CancelBelow(x: real, y: real, n: real)
    requires n > 0.0 && x * n <= y * n
    ensures x <= y
  {
    assert y - x == (y * n - x * n) / n;
  }

  lemma SquareNonNegative(d: real)
    ensures d * d >= 0.0
  {
  }

  lemma {:induction false} DeviationsNonNegative(s: seq<real>, m: real)
    ensures SumOfSquaredDeviations(s, m) >= 0.0
  {
    if |s| > 0 {
      DeviationsNonNegative(s[..|s| - 1], m);
      SquareNonNegative(s[|s| - 1] - m);
    }
  }

  /** Σ(x − m)² == Σx² − 2m·Σx + n·m². */
  lemma {:induction false} DeviationsExpand(s: seq<real>, m: real)
    ensures SumOfSquaredDeviations(s, m) == SumOfSquares(s) - 2.0 * m * Sum(s) + (|s| as real) * m * m
  {
    if |s| > 0 {
      var x := s[|s| - 1];
      DeviationsExpand(s[..|s| - 1], m);
      assert (x - m) * (x - m) == x * x - 2.0 * m * x + m * m;
    }
  }

  /** The population variance is the square mean less the squared mean. */
  lemma VarianceIsSquareMeanLessSquaredMean(s: seq<real>)
    ensures Variance(s) == SquareMean(s) - Average(s) * Average(s)
  {
    if |s| > 0 {
      var n, a := |s| as real, Average(s);
      VarianceScaled(s);
      assert (SquareMean(s) - a * a) * n == SumOfSquares(s) - n * a * a;
      CancelBelow(Variance(s), SquareMean(s) - a * a, n);
      CancelBelow(SquareMean(s) - a * a, Variance(s), n);
    }
  }

  /** n times the variance is Σx² − n·mean². */
  lemma VarianceScaled(s: seq<real>)
    requires |s| > 0
    ensures Variance(s) * (|s| as real) == SumOfSquares(s) - (|s| as real) * Average(s) * Average(s)
  {
    DeviationsAtMean(s, Average(s));
  }

  /** Around the mean m (m·n == Σx), Σ(x − m)² == Σx² − n·m². */
  lemma DeviationsAtMean(s: seq<real>, m: real)
    requires m * (|s| as real) == Sum(s)
    ensures SumOfSquaredDeviations(s, m) == SumOfSquares(s) - (|s| as real) * m * m
  {
    DeviationsExpand(s, m);
    assert 2.0 * m * Sum(s) == 2.0 * (|s| as real) * m * m;
  }

  lemma VarianceNonNegative(s: seq<real>)
    ensures Variance(s) >= 0.0
  {
    DeviationsNonNegative(s, Average(s));
  }

  /** Around m, the squared deviations of values that all equal m vanish. */
  lemma {:induction false} DeviationsOfConstant(s: seq<real>, m: real)
    requires forall i :: 0 <= i < |s| ==> s[i] == m
    ensures SumOfSquaredDeviations(s, m) == 0.0
  {
    if |s| > 0 {
      DeviationsOfConstant(s[..|s| - 1], m);
    }
  }

  lemma {:induction false} SumOfConstant(s: seq<real>, c: real)
    requires forall i :: 0 <= i < |s| ==> s[i] == c
    ensures Sum(s) == (|s| as real) * c
  {
    if |s| > 0 {
      SumOfConstant(s[..|s| - 1], c);
    }
  }

  /** When all the values are equal, the mean is that value and the variance is zero. */
  lemma VarianceOfConstant(s: seq<real>)
    requires |s| > 0 && forall i :: 0 <= i < |s| ==> s[i] == s[0]
    ensures Average(s) == s[0] && Variance(s) == 0.0
  {
    var n, a := |s| as real, Average(s);
    SumOfConstant(s, s[0]);
    CancelBelow(a, s[0], n);
    CancelBelow(s[0], a, n);
    DeviationsOfConstant(s, a);
  }

  /** Each reciprocal is at least 1/hi, so n ≤ Σ(1/x)·hi. */
  lemma {:induction false} ReciprocalsAbove(s: seq<real>, lo: real, hi: real)
    requires 0.0 < lo && forall i :: 0 <= i < |s| ==> lo <= s[i] <= hi
    ensures |s| as real <= SumOfReciprocals(s) * hi
  {
    if |s| > 0 {
      var init, x := s[..|s| - 1], s[|s| - 1];
      ReciprocalsAbove(init, lo, hi);
      ReciprocalOrder(x, lo, hi);
      AddAbove(SumOfReciprocals(init), 1.0 / x, hi, |init| as real);
    }
  }

  /** Each reciprocal is at most 1/lo, so Σ(1/x)·lo ≤ n. */
  lemma {:induction false} ReciprocalsBelow(s: seq<real>, lo: real, hi: real)
    requires 0.0 < lo && forall i :: 0 <= i < |s| ==> lo <= s[i] <= hi
    ensures SumOfReciprocals(s) * lo <= |s| as real
  {
    if |s| > 0 {
      var init, x := s[..|s| - 1], s[|s| - 1];
      ReciprocalsBelow(init, lo, hi);
      ReciprocalOrder(x, lo, hi);
      AddBelow(SumOfReciprocals(init), 1.0 / x, lo, |init| as real);
    }
  }

  lemma AddAbove(total: real, r: real, c: real, k: real)
    requires k <= total * c && 1.0 <= r * c
    ensures k + 1.0 <= (total + r) * c
  {
  }

  lemma AddBelow(total: real, r: real, c: real, k: real)
    requires total * c <= k && r * c <= 1.0
    ensures (total + r) * c <= k + 1.0
  {
  }

  lemma ReciprocalOrder(x: real, lo: real, hi: real)
    requires 0.0 < lo <= x <= hi
    ensures (1.0 / x) * lo <= 1.0 <= (1.0 / x) * hi
  {
    var r := 1.0 / x;
    assert r * x == 1.0;
    assert r > 0.0;
    assert r * (x - lo) >= 0.0;
    assert r * (hi - x) >= 0.0;
  }

  /** For positive values the harmonic mean exists and lies between the least and the
      greatest value. */
  lemma HarmonicMeanBounds(s: seq<real>, lo: real, hi: real)
    requires |s| > 0 && 0.0 < lo && forall i :: 0 <= i < |s| ==> lo <= s[i] <= hi
    ensures HarmonicMean(s).Ok? && lo <= HarmonicMean(s).value <= hi
  {
    ReciprocalsAbove(s, lo, hi);
    ReciprocalsBelow(s, lo, hi);
    assert lo <= s[0] <= hi;
    QuotientBounds(SumOfReciprocals(s), lo, hi, |s| as real);
  }

  /** With total·lo ≤ n ≤ total·hi for positive lo and n, total is positive and n / total
      lies in [lo, hi]. */
  lemma QuotientBounds(total: real, lo: real, hi: real, n: real)
    requires 0.0 < lo <= hi && 0.0 < n && total * lo <= n <= total * hi
    ensures total > 0.0 && lo <= n / total <= hi
  {
    PositiveFactor(total, hi, n);
    var h := n / total;
    assert h * total == n;
    CancelBelow(lo, h, total);
    CancelBelow(h, hi, total);
  }

  lemma PositiveFactor(x: real, y: real, n: real)
    requires 0.0 < n <= x * y && y > 0.0
    ensures x > 0.0
  {
    assert x == (x * y) / y;
  }

  // ---------------------------------------------------------------------------
  // median

  predicate Sorted(s: seq<real>) {
    forall p, q :: 0 <= p < q < |s| ==> s[p] <= s[q]
  }

  /** The median of sorted data: the middle value for an odd count, the mean of the two
      middle values for an even count. */
  function MedianOfSorted(s: seq<real>): real
    requires |s| > 0
  {
    var mid := |s| / 2;
    if |s| % 2 == 0 then (s[mid - 1] + s[mid]) / 2.0 else s[mid]
  }

  /** `median`: zero for no data; otherwise the caller's data is sorted in place and the
      median of the sorted data returned. */
  method Median(a: array<real>) returns (m: real)
    modifies a
    ensures Sorted(a[..]) && multiset(a[..]) == multiset(old(a[..]))
    ensures a.Length == 0 ==> m == 0.0
    ensures a.Length > 0 ==> m == MedianOfSorted(a[..])
  {
    if a.Length == 0 {
      return 0.0;
    }
    SortInPlace(a);
    var mid := a.Length / 2;
    if a.Length % 2 == 0 {
      m := (a[mid - 1] + a[mid]) / 2.0;
    } else {
      m := a[mid];
    }
  }

  /** `data.sort_by(...)`: an insertion sort, one element at a time. */
  method SortInPlace(a: array<real>)
    modifies a
    ensures Sorted(a[..]) && multiset(a[..]) == multiset(old(a[..]))
  {
    for i := 0 to a.Length
      invariant Sorted(a[..i])
      invariant multiset(a[..]) == multiset(old(a[..]))
    {
      InsertInPlace(a, i);
    }
    assert a[..a.Length] == a[..];
  }

  /** Moves a[i] down into the sorted prefix a[..i]. */
  method InsertInPlace(a: array<real>, i: nat)
    requires i < a.Length && Sorted(a[..i])
    modifies a
    ensures Sorted(a[..i + 1]) && multiset(a[..]) == multiset(old(a[..]))
  {
    var j: nat := i;
    SortedPrefixSinking(a[..], i);
    while j > 0 && a[j - 1] > a[j]
      invariant j <= i
      invariant Sinking(a[..], j, i)
      invariant multiset(a[..]) == multiset(old(a[..]))
    {
      ghost var before := a[..];
      a[j - 1], a[j] := a[j], a[j - 1];
      assert a[..] == before[j - 1 := before[j]][j := before[j - 1]];
      SinkStep(before, j, i);
      j := j - 1;
    }
    SinkDone(a[..], j, i);
  }

  /** s[..i + 1] is sorted except for the element at j, which is below everything after it. */
  predicate Sinking(s: seq<real>, j: nat, i: nat) {
    j <= i < |s| &&
    (forall p, q :: 0 <= p < q <= i && p != j && q != j ==> s[p] <= s[q]) &&
    (forall q :: j < q <= i ==> s[j] < s[q])
  }

  lemma SortedPrefixSinking(s: seq<real>, i: nat)
    requires i < |s| && Sorted(s[..i])
    ensures Sinking(s, i, i)
  {
    assert forall p :: 0 <= p < i ==> s[..i][p] == s[p];
  }

  lemma SinkStep(s: seq<real>, j: nat, i: nat)
    requires Sinking(s, j, i) && 0 < j && s[j - 1] > s[j]
    ensures Sinking(s[j - 1 := s[j]][j := s[j - 1]], j - 1, i)
    ensures multiset(s[j - 1 := s[j]][j := s[j - 1]]) == multiset(s)
  {
  }

  lemma SinkDone(s: seq<real>, j: nat, i: nat)
    requires Sinking(s, j, i) && (j == 0 || s[j - 1] <= s[j])
    ensures Sorted(s[..i + 1])
  {
    forall p, q | 0 <= p < q <= i
      ensures s[p] <= s[q]
    {
      if q == j && p < j - 1 {
        assert s[p] <= s[j - 1];
      }
    }
  }

  /** Two sorted arrangements of the same values are the same sequence. */
  lemma {:induction false} SortedUnique(s: seq<real>, t: seq<real>)
    requires Sorted(s) && Sorted(t) && multiset(s) == multiset(t)
    ensures s == t
    decreases |s|
  {
    assert |t| == |multiset(t)| == |multiset(s)| == |s|;
    if |s| > 0 {
      SortedHeadIsLeast(t, s[0]);
      SortedHeadIsLeast(s, t[0]);
      assert s[0] == t[0];
      SplitHead(s);
      SplitHead(t);
      assert multiset(s[1..]) == multiset(t[1..]);
      SortedUnique(s[1..], t[1..]);
    }
  }

  lemma SortedHeadIsLeast(s: seq<real>, x: real)
    requires Sorted(s) && x in multiset(s)
    ensures s[0] <= x
  {
    var k :| 0 <= k < |s| && s[k] == x;
  }

  lemma SplitHead(s: seq<real>)
    requires Sorted(s) && |s| > 0
    ensures Sorted(s[1..]) && multiset(s[1..]) == multiset(s) - multiset{s[0]} && s == [s[0]] + s[1..]
  {
    assert s == [s[0]] + s[1..];
    assert multiset(s) == multiset{s[0]} + multiset(s[1..]);
  }

  /** The median depends only on the values, not on the order they come in. */
  lemma MedianOrderFree(s: seq<real>, t: seq<real>)
    requires Sorted(s) && Sorted(t) && multiset(s) == multiset(t) && |s| > 0
    ensures |t| > 0 && MedianOfSorted(s) == MedianOfSorted(t)
  {
    SortedUnique(s, t);
  }

  /** The lower half of the sorted values is at most the median and the upper half at
      least the median. */
  lemma MedianSplits(s: seq<real>)
    requires Sorted(s) && |s| > 0
    ensures forall i :: 0 <= i < |s| / 2 ==> s[i] <= MedianOfSorted(s)
    ensures forall i :: |s| / 2 <= i < |s| ==> MedianOfSorted(s) <= s[i]
  {
  }

  // ---------------------------------------------------------------------------
  // mode and unique

  predicate NoDuplicates<T(==)>(s: seq<T>) {
    forall p, q :: 0 <= p < q < |s| ==> s[p] != s[q]
  }

  /** x occurs in data at least as often as any other value. */
  predicate IsMode<T(==)>(data: seq<T>, x: T) {
    x in multiset(data) && forall y :: y in multiset(data) ==> multiset(data)[y] <= multiset(data)[x]
  }

  /** `mode`: the occurrences are counted in a map, their maximum found (zero when there are
      none), and every value with that count collected, in no particular order. */
  method Mode<T(==)>(data: seq<T>) returns (r: seq<T>)
    ensures NoDuplicates(r)
    ensures forall x :: x in r <==> IsMode(data, x)
  {
    var occurrences := CountOccurrences(data);
    var maxCount := MaxCount(occurrences);
    r := KeysWithCount(occurrences, maxCount);
  }

  /** The first loop of `mode`: each value of data mapped to its number of occurrences. */
  method CountOccurrences<T(==)>(data: seq<T>) returns (occurrences: map<T, nat>)
    ensures forall x :: x in occurrences <==> x in multiset(data)
    ensures forall x :: x in occurrences ==> occurrences[x] == multiset(data)[x]
  {
    occurrences := map[];
    for i := 0 to |data|
      invariant forall x :: x in occurrences <==> x in multiset(data[..i])
      invariant forall x :: x in occurrences ==> occurrences[x] == multiset(data[..i])[x]
    {
      var item := data[i];
      assert data[..i + 1] == data[..i] + [item];
      occurrences := occurrences[item := (if item in occurrences then occurrences[item] else 0) + 1];
    }
    assert data[..|data|] == data;
  }

  /** The greatest count in the map, or zero for an empty map. */
  method MaxCount<T>(occurrences: map<T, nat>) returns (maxCount: nat)
    ensures forall x :: x in occurrences ==> occurrences[x] <= maxCount
    ensures maxCount == 0 || exists x :: x in occurrences && occurrences[x] == maxCount
  {
    maxCount := 0;
    var pending := occurrences.Keys;
    while pending != {}
      invariant pending <= occurrences.Keys
      invariant forall x :: x in occurrences && x !in pending ==> occurrences[x] <= maxCount
      invariant maxCount == 0 || exists x :: x in occurrences && occurrences[x] == maxCount
      decreases |pending|
    {
      var key :| key in pending;
      if occurrences[key] > maxCount {
        maxCount := occurrences[key];
      }
      pending := pending - {key};
    }
  }

  /** The keys whose count is exactly count, each once. */
  method KeysWithCount<T>(occurrences: map<T, nat>, count: nat) returns (r: seq<T>)
    ensures NoDuplicates(r)
    ensures forall x :: x in r <==> x in occurrences && occurrences[x] == count
  {
    r := [];
    var pending := occurrences.Keys;
    while pending != {}
      invariant pending <= occurrences.Keys
      invariant NoDuplicates(r)
      invariant forall x :: x in r <==> x in occurrences && x !in pending && occurrences[x] == count
      decreases |pending|
    {
      var key :| key in pending;
      if occurrences[key] == count {
        r := r + [key];
      }
      pending := pending - {key};
    }
  }

  /** Nonempty data has a mode, and all its modes occur equally often. */
  lemma ModesExist<T>(data: seq<T>)
    requires |data| > 0
    ensures exists x :: IsMode(data, x)
    ensures forall x, y :: IsMode(data, x) && IsMode(data, y) ==> multiset(data)[x] == multiset(data)[y]
  {
    var x := MostFrequent(data, |data|);
    assert IsMode(data, x);
  }

  /** A value of data[..count] occurring in data at least as often as any value of data[..count]. */
  function MostFrequent<T(==)>(data: seq<T>, count: nat): (x: T)
    requires 0 < count <= |data|
    ensures x in data[..count]
    ensures forall i :: 0 <= i < count ==> multiset(data)[data[i]] <= multiset(data)[x]
  {
    if count == 1 then data[0]
    else
      var best := MostFrequent(data, count - 1);
      if multiset(data)[data[count - 1]] > multiset(data)[best] then data[count - 1] else best
  }

  /** The values unique keeps: those not seen earlier in the data, in their original order. */
  function UniqueOf<T(==)>(s: seq<T>): seq<T> {
    if |s| == 0 then []
    else if s[|s| - 1] in s[..|s| - 1] then UniqueOf(s[..|s| - 1])
    else UniqueOf(s[..|s| - 1]) + [s[|s| - 1]]
  }

  /** `unique`: filters the data through `seen.insert`, which succeeds only for a value not
      inserted before. */
  method Unique<T(==)>(data: seq<T>) returns (r: seq<T>)
    ensures r == UniqueOf(data)
  {
    var seen: set<T> := {};
    r := [];
    for i := 0 to |data|
      invariant forall x :: x in seen <==> x in data[..i]
      invariant r == UniqueOf(data[..i])
    {
      var item := data[i];
      assert data[..i + 1][..i] == data[..i];
      var inserted := item !in seen;
      seen := seen + {item};
      if inserted {
        r := r + [item];
      }
    }
    assert data[..|data|] == data;
  }

  /** The position of the first occurrence of x. */
  function FirstIndex<T(==)>(s: seq<T>, x: T): (i: nat)
    requires x in s
    ensures i < |s| && s[i] == x && x !in s[..i]
  {
    if s[0] == x then 0 else 1 + FirstIndex(s[1..], x)
  }

  /** unique keeps every value exactly once, in the order of first occurrences. */
  lemma {:induction false} UniqueKeepsFirstOccurrences<T>(s: seq<T>)
    ensures NoDuplicates(UniqueOf(s))
    ensures forall x :: x in UniqueOf(s) <==> x in s
    ensures forall p, q :: 0 <= p < q < |UniqueOf(s)| ==> FirstIndex(s, UniqueOf(s)[p]) < FirstIndex(s, UniqueOf(s)[q])
  {
    if |s| > 0 {
      var init := s[..|s| - 1];
      var last := s[|s| - 1];
      UniqueKeepsFirstOccurrences(init);
      assert s == init + [last];
      forall x | x in init
        ensures FirstIndex(s, x) == FirstIndex(init, x)
      {
        FirstIndexOfPrefix(s, init, x);
      }
      if last !in init {
        assert s[..|s| - 1] == init;
      }
    }
  }

  lemma FirstIndexOfPrefix<T>(s: seq<T>, init: seq<T>, x: T)
    requires init <= s && x in init
    ensures FirstIndex(s, x) == FirstIndex(init, x)
  {
  }

  /** unique changes nothing in data without duplicates, so applying it twice is applying
      it once. */
  lemma {:induction false} UniqueOfDistinct<T>(s: seq<T>)
    requires NoDuplicates(s)
    ensures UniqueOf(s) == s
  {
    if |s| > 0 {
      var init := s[..|s| - 1];
      UniqueOfDistinct(init);
      assert s[|s| - 1] !in init;
      assert s == init + [s[|s| - 1]];
    }
  }

  lemma UniqueIdempotent<T>(s: seq<T>)
    ensures UniqueOf(UniqueOf(s)) == UniqueOf(s)
  {
    UniqueKeepsFirstOccurrences(s);
    UniqueOfDistinct(UniqueOf(s));
  }
}
