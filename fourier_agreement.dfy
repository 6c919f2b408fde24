/** Agreement of the mixed-radix recursion of src/signal_processing/fourier.rs with the
    direct transforms `dft` and `idft`.

    The twiddle stays a parameter. The agreement holds for every twiddle that obeys three
    laws which from_polar(1, ∓2π·num/den) obeys over exact reals: a whole number of turns
    gives one, only the angle num/den matters, and angles add. */
module FourierAgreement {
  import opened Panics
  import opened ComplexNumbers
  import opened Fourier
  import FourierLaws
  import Numbers

  // ---------------------------------------------------------------------------
  // The laws of the twiddle

  /** Names the angle num/den of a twiddle. The laws below are triggered on it, so a
      proof applies them only to the angles it names. */
  predicate Angle(num: nat, den: nat, inverse: bool) {
    true
  }

  /** e^{∓2πi·a} = 1: an angle of a whole turns. */
  ghost predicate WholeTurns(w: Twiddle) {
    forall a: nat, n: nat, inv: bool {:trigger Angle(a, n, inv)} :: n == 1 ==> w(a, n, inv) == One()
  }

  /** The twiddle depends on the angle a/n only: a/n = c/d gives the same value. */
  ghost predicate AngleOnly(w: Twiddle) {
    forall a: nat, n: nat, c: nat, d: nat, inv: bool {:trigger Angle(a, n, inv), Angle(c, d, inv)} ::
      n >= 1 && d >= 1 && a * d == c * n ==> w(a, n, inv) == w(c, d, inv)
  }

  /** e^{i(α+β)} = e^{iα}·e^{iβ}. */
  ghost predicate AnglesAdd(w: Twiddle) {
    forall a: nat, b: nat, n: nat, inv: bool {:trigger Angle(a, n, inv), Angle(b, n, inv)} ::
      w(a + b, n, inv) == Mul(w(a, n, inv), w(b, n, inv))
  }

  ghost predicate RootOfUnityLaws(w: Twiddle) {
    WholeTurns(w) && AngleOnly(w) && AnglesAdd(w)
  }

  /** A twiddle that is one at every angle. */
  function UnitTwiddle(num: nat, den: nat, inverse: bool): Complex {
    One()
  }

  /** The laws can be met: the constant twiddle one obeys them. */
  lemma LawsAreConsistent()
    ensures RootOfUnityLaws(UnitTwiddle)
  {
    UnitWholeTurns();
    UnitAngleOnly();
    UnitAnglesAdd();
  }

  lemma UnitWholeTurns()
    ensures WholeTurns(UnitTwiddle)
  {
    forall a: nat, n: nat, inv: bool ensures UnitTwiddle(a, n, inv) == One() {
    }
  }

  lemma UnitAngleOnly()
    ensures AngleOnly(UnitTwiddle)
  {
    forall a: nat, n: nat, inv: bool ensures UnitTwiddle(a, n, inv) == One() {
    }
  }

  lemma UnitAnglesAdd()
    ensures AnglesAdd(UnitTwiddle)
  {
    forall a: nat, b: nat, n: nat, inv: bool
      ensures UnitTwiddle(a + b, n, inv) == Mul(UnitTwiddle(a, n, inv), UnitTwiddle(b, n, inv))
    {
      OneIdentity(One());
    }
  }

  lemma WholeTurn(w: Twiddle, a: nat, inv: bool)
    requires WholeTurns(w)
    ensures w(a, 1, inv) == One()
  {
    assert Angle(a, 1, inv);
  }

  lemma SameAngle(w: Twiddle, a: nat, n: nat, c: nat, d: nat, inv: bool)
    requires AngleOnly(w) && n >= 1 && d >= 1 && a * d == c * n
    ensures w(a, n, inv) == w(c, d, inv)
  {
    assert Angle(a, n, inv) && Angle(c, d, inv);
  }

  lemma AddAngles(w: Twiddle, a: nat, b: nat, n: nat, inv: bool)
    requires AnglesAdd(w)
    ensures w(a + b, n, inv) == Mul(w(a, n, inv), w(b, n, inv))
  {
    assert Angle(a, n, inv) && Angle(b, n, inv);
  }

  /** Whole turns drop out: the twiddle of a + n·q over n is that of a. */
  lemma Period(w: Twiddle, a: nat, q: nat, n: nat, inv: bool)
    requires RootOfUnityLaws(w) && n >= 1
    ensures w(a + n * q, n, inv) == w(a, n, inv)
  {
    AddAngles(w, a, n * q, n, inv);
    SameAngle(w, n * q, n, q, 1, inv);
    WholeTurn(w, q, inv);
    OneIdentity(w(a, n, inv));
  }

  /** The twiddle that chunk i applies to its own term j, times the twiddle of the
      combination, is the twiddle of place i + p·j in the whole transform. */
  lemma TwiddleCombine(w: Twiddle, k: nat, i: nat, j: nat, p: nat, m: nat, inv: bool)
    requires RootOfUnityLaws(w) && p >= 1 && m >= 1
    ensures Mul(w((k % m) * j, m, inv), w(k * i, p * m, inv)) == w(k * (i + p * j), p * m, inv)
  {
    var r, q, a := Turns(k, j, m);
    var s, n := Scale(a, p, m);
    var b, t := Spread(k, i, j, p, a, s);
    TwiddleChain(w, r, q, a, s, b, t, m, n, inv);
  }

  /** k·j split into whole turns of m and the turn left over, (k mod m)·j. */
  lemma Turns(k: nat, j: nat, m: nat) returns (r: nat, q: nat, a: nat)
    requires m >= 1
    ensures r == (k % m) * j && a == k * j && a == r + m * q
  {
    assert k == m * (k / m) + k % m;
    assert k * j == (m * (k / m) + k % m) * j;
    r, q, a := (k % m) * j, (k / m) * j, k * j;
  }

  /** a/m == s/(p·m) with s = a·p. */
  lemma Scale(a: nat, p: nat, m: nat) returns (s: nat, n: nat)
    requires p >= 1 && m >= 1
    ensures n == p * m && s == a * p && a * n == s * m && n >= 1
  {
    Numbers.MulAtLeast(p, m);
    s, n := a * p, p * m;
  }

  /** k·(i + p·j) == k·j·p + k·i. */
  lemma Spread(k: nat, i: nat, j: nat, p: nat, a: nat, s: nat) returns (b: nat, t: nat)
    requires a == k * j && s == a * p
    ensures b == k * i && t == k * (i + p * j) && t == s + b
  {
    b, t := k * i, k * (i + p * j);
  }

  /** The steps of TwiddleCombine on named quantities: r + m·q = a turns of the sub-transform
      (q of them whole), a/m = s/n, and t = s + b. */
  lemma TwiddleChain(w: Twiddle, r: nat, q: nat, a: nat, s: nat, b: nat, t: nat, m: nat, n: nat, inv: bool)
    requires RootOfUnityLaws(w) && m >= 1 && n >= 1
    requires a == r + m * q && a * n == s * m && t == s + b
    ensures Mul(w(r, m, inv), w(b, n, inv)) == w(t, n, inv)
  {
    Period(w, r, q, m, inv);
    SameAngle(w, a, m, s, n, inv);
    AddAngles(w, s, b, n, inv);
    MulCommutative(w(s, n, inv), w(b, n, inv));
  }

  // ---------------------------------------------------------------------------
  // Finite sums of complex values

  /** Σ_{t < n} f(t), accumulated from zero, first term first. */
  function Sum(n: nat, f: nat -> Complex): Complex {
    if n == 0 then Zero() else Add(Sum(n - 1, f), f(n - 1))
  }

  lemma {:induction false} SumExt(n: nat, f: nat -> Complex, g: nat -> Complex)
    requires forall t: nat :: t < n ==> f(t) == g(t)
    ensures Sum(n, f) == Sum(n, g)
  {
    if n > 0 {
      SumExt(n - 1, f, g);
    }
  }

  /** Σ (f + g) = Σ f + Σ g. */
  lemma {:induction false} SumAdd(n: nat, f: nat -> Complex, g: nat -> Complex, h: nat -> Complex)
    requires forall t: nat :: t < n ==> h(t) == Add(f(t), g(t))
    ensures Sum(n, h) == Add(Sum(n, f), Sum(n, g))
  {
    if n > 0 {
      SumAdd(n - 1, f, g, h);
    }
  }

  /** (Σ f)·c = Σ (f·c). */
  lemma {:induction false} SumMulRight(n: nat, f: nat -> Complex, c: Complex, h: nat -> Complex)
    requires forall t: nat :: t < n ==> h(t) == Mul(f(t), c)
    ensures Sum(n, h) == Mul(Sum(n, f), c)
  {
    if n > 0 {
      SumMulRight(n - 1, f, c, h);
      MulCommutative(Add(Sum(n - 1, f), f(n - 1)), c);
      MulDistributesOverAdd(c, Sum(n - 1, f), f(n - 1));
      MulCommutative(c, Sum(n - 1, f));
      MulCommutative(c, f(n - 1));
    }
  }

  /** f with its argument shifted by a. */
  function Shift(f: nat -> Complex, a: nat): nat -> Complex {
    (t: nat) => f(a + t)
  }

  /** Σ_{t < a+b} f(t) = Σ_{t < a} f(t) + Σ_{t < b} f(a + t). */
  lemma {:induction false} SumSplit(a: nat, b: nat, f: nat -> Complex)
    ensures Sum(a + b, f) == Add(Sum(a, f), Sum(b, Shift(f, a)))
  {
    if b > 0 {
      SumSplit(a, b - 1, f);
      assert Shift(f, a)(b - 1) == f(a + b - 1);
    }
  }

  /** Place i + p·j as a function of j: the terms of chunk i. */
  function RowOf(f: nat -> Complex, p: nat, i: nat): nat -> Complex {
    (j: nat) => f(i + p * j)
  }

  /** Place i + p·j as a function of i: the terms with the same j. */
  function ColumnOf(f: nat -> Complex, p: nat, j: nat): nat -> Complex {
    (i: nat) => f(i + p * j)
  }

  /** i ↦ Σ_{j < m} f(i + p·j). */
  function RowSums(f: nat -> Complex, p: nat, m: nat): nat -> Complex {
    (i: nat) => Sum(m, RowOf(f, p, i))
  }

  /** j ↦ Σ_{i < q} f(i + p·j). */
  function ColumnSums(f: nat -> Complex, p: nat, q: nat): nat -> Complex {
    (j: nat) => Sum(q, ColumnOf(f, p, j))
  }

  /** The two orders of a double sum agree. */
  lemma {:induction false} SumSwap(q: nat, p: nat, m: nat, f: nat -> Complex)
    ensures Sum(q, RowSums(f, p, m)) == Sum(m, ColumnSums(f, p, q))
  {
    if q == 0 {
      SumExt(m, ColumnSums(f, p, 0), (_: nat) => Zero());
      SumOfZeros(m);
    } else {
      SumSwap(q - 1, p, m, f);
      forall j: nat | j < m
        ensures ColumnSums(f, p, q)(j) == Add(ColumnSums(f, p, q - 1)(j), RowOf(f, p, q - 1)(j))
      {
      }
      SumAdd(m, ColumnSums(f, p, q - 1), RowOf(f, p, q - 1), ColumnSums(f, p, q));
    }
  }

  lemma {:induction false} SumOfZeros(m: nat)
    ensures Sum(m, (_: nat) => Zero()) == Zero()
  {
    if m > 0 {
      SumOfZeros(m - 1);
    }
  }

  /** Summing the places i + p·j (i < p) block by block for j < m sums the places below p·m. */
  lemma {:induction false} SumBlocks(m: nat, p: nat, f: nat -> Complex)
    ensures Sum(m, ColumnSums(f, p, p)) == Sum(p * m, f)
  {
    if m > 0 {
      SumBlocks(m - 1, p, f);
      assert p * m == p * (m - 1) + p;
      SumSplit(p * (m - 1), p, f);
      SumExt(p, ColumnOf(f, p, m - 1), Shift(f, p * (m - 1)));
    }
  }

  // ---------------------------------------------------------------------------
  // The transforms as sums

  /** x[pos]·w(num, den, inverse), or zero past the end of x. */
  function Term(x: Signal, pos: nat, num: nat, den: nat, inverse: bool, w: Twiddle): Complex {
    if pos < |x| then Mul(x[pos], w(num, den, inverse)) else Zero()
  }

  /** The terms of output k of the direct transform of the size values x[start + t·step]. */
  function DftTerms(x: Signal, size: nat, start: nat, step: nat, k: nat, inverse: bool, w: Twiddle)
    : nat -> Complex
  {
    (t: nat) => Term(x, start + t * step, k * t, size, inverse, w)
  }

  /** The terms of one output of fft_core's combination. */
  function ButterflyTerms(chunks: seq<Signal>, k: nat, size: nat, cs: nat, inverse: bool, w: Twiddle)
    : nat -> Complex
  {
    (i: nat) => if cs > 0 && i < |chunks| && k % cs < |chunks[i]| then Mul(chunks[i][k % cs], w(k * i, size, inverse))
         else Zero()
  }

  lemma {:induction false} DftSumAsSum(x: Signal, k: nat, n: nat, inverse: bool, w: Twiddle, count: nat)
    requires count <= |x|
    ensures DftSum(x, k, n, inverse, w, count) == Sum(count, DftTerms(x, n, 0, 1, k, inverse, w))
  {
    if count > 0 {
      DftSumAsSum(x, k, n, inverse, w, count - 1);
    }
  }

  lemma {:induction false} ButterflyAsSum(chunks: seq<Signal>, k: nat, size: nat, cs: nat, inverse: bool, w: Twiddle,
                                          count: nat)
    requires cs > 0 && count <= |chunks|
    requires forall i :: 0 <= i < count ==> k % cs < |chunks[i]|
    ensures Butterfly(chunks, k, size, cs, inverse, w, count) == Sum(count, ButterflyTerms(chunks, k, size, cs, inverse, w))
  {
    if count > 0 {
      ButterflyAsSum(chunks, k, size, cs, inverse, w, count - 1);
    }
  }

  // ---------------------------------------------------------------------------
  // fft_core computes the direct transform of the positions it reads

  /** Term j of chunk i (which reads from start + i·step with stride step·p at size m),
      times the combination's twiddle, is term i + p·j of the whole transform. */
  lemma TermCombine(x: Signal, start: nat, step: nat, i: nat, j: nat, k: nat, p: nat, m: nat,
                    inverse: bool, w: Twiddle)
    requires RootOfUnityLaws(w) && p >= 1 && m >= 1
    ensures DftTerms(x, p * m, start, step, k, inverse, w)(i + p * j)
         == Mul(DftTerms(x, m, start + i * step, step * p, k % m, inverse, w)(j), w(k * i, p * m, inverse))
  {
    var pos := start + (i + p * j) * step;
    FourierLaws.PlaceArithmetic(start, i, j, step, p);
    if pos < |x| {
      MulAssociative(x[pos], w((k % m) * j, m, inverse), w(k * i, p * m, inverse));
      TwiddleCombine(w, k, i, j, p, m, inverse);
    }
  }

  /** Output k of the combination over chunks that are the direct transforms of the
      interleaved sub-signals is output k of the direct transform of the whole. */
  lemma CombineIsDft(x: Signal, chunks: seq<Signal>, size: nat, p: nat, m: nat, start: nat, step: nat,
                     inverse: bool, w: Twiddle, k: nat)
    requires RootOfUnityLaws(w) && p >= 1 && m >= 1 && size == p * m && |chunks| == p && k < size
    requires forall i :: 0 <= i < p ==> |chunks[i]| == m
    requires forall i, j :: 0 <= i < p && 0 <= j < m ==>
      chunks[i][j] == Sum(m, DftTerms(x, m, start + i * step, step * p, j, inverse, w))
    ensures Butterfly(chunks, k, size, m, inverse, w, p) == Sum(size, DftTerms(x, size, start, step, k, inverse, w))
  {
    var f := DftTerms(x, size, start, step, k, inverse, w);
    ButterflyAsSum(chunks, k, size, m, inverse, w, p);
    forall i: nat | i < p
      ensures ButterflyTerms(chunks, k, size, m, inverse, w)(i) == RowSums(f, p, m)(i)
    {
      ButterflyRow(x, chunks, size, p, m, start, step, inverse, w, k, i);
    }
    SumExt(p, ButterflyTerms(chunks, k, size, m, inverse, w), RowSums(f, p, m));
    SumSwap(p, p, m, f);
    SumBlocks(m, p, f);
  }

  /** Term i of the butterfly is the sum of the size-point terms at places i + p·j. */
  lemma ButterflyRow(x: Signal, chunks: seq<Signal>, size: nat, p: nat, m: nat, start: nat, step: nat,
                     inverse: bool, w: Twiddle, k: nat, i: nat)
    requires RootOfUnityLaws(w) && p >= 1 && m >= 1 && size == p * m && |chunks| == p && k < size && i < p
    requires |chunks[i]| == m
    requires chunks[i][k % m] == Sum(m, DftTerms(x, m, start + i * step, step * p, k % m, inverse, w))
    ensures ButterflyTerms(chunks, k, size, m, inverse, w)(i)
         == RowSums(DftTerms(x, size, start, step, k, inverse, w), p, m)(i)
  {
    var f := DftTerms(x, size, start, step, k, inverse, w);
    var g := DftTerms(x, m, start + i * step, step * p, k % m, inverse, w);
    var c := w(k * i, size, inverse);
    RowTerms(x, start, step, p, m, inverse, w, k, i);
    SumMulRight(m, g, c, RowOf(f, p, i));
    assert ButterflyTerms(chunks, k, size, m, inverse, w)(i) == Mul(chunks[i][k % m], c);
  }

  /** Term j of row i of the size-point terms is term j of sub-transform i, turned by the
      twiddle of k·i. */
  lemma RowTerms(x: Signal, start: nat, step: nat, p: nat, m: nat, inverse: bool, w: Twiddle, k: nat, i: nat)
    requires RootOfUnityLaws(w) && p >= 1 && m >= 1
    ensures forall j: nat :: j < m ==>
      RowOf(DftTerms(x, p * m, start, step, k, inverse, w), p, i)(j)
      == Mul(DftTerms(x, m, start + i * step, step * p, k % m, inverse, w)(j), w(k * i, p * m, inverse))
  {
    forall j: nat | j < m
      ensures RowOf(DftTerms(x, p * m, start, step, k, inverse, w), p, i)(j)
           == Mul(DftTerms(x, m, start + i * step, step * p, k % m, inverse, w)(j), w(k * i, p * m, inverse))
    {
      TermCombine(x, start, step, i, j, k, p, m, inverse, w);
    }
  }

  /** The chunks of fft_core are its sub-transforms, in order. */
  lemma {:induction false} ChunkValues(x: Signal, size: nat, factors: seq<nat>, start: nat, step: nat,
                                       inverse: bool, w: Twiddle, count: nat)
    requires |factors| > 0 && 0 < factors[0] && count <= factors[0]
    requires Chunks(x, size, factors, start, step, inverse, w, count).Ok?
    ensures forall i :: 0 <= i < count ==>
      CoreSpec(x, size / factors[0], factors[1..], start + i * step, step * factors[0], inverse, w).Ok? &&
      Chunks(x, size, factors, start, step, inverse, w, count).value[i] ==
      CoreSpec(x, size / factors[0], factors[1..], start + i * step, step * factors[0], inverse, w).value
  {
    if count > 0 {
      ChunkValues(x, size, factors, start, step, inverse, w, count - 1);
    }
  }

  /** A transform of size one is its single value. */
  lemma CoreBase(x: Signal, size: nat, factors: seq<nat>, start: nat, step: nat, inverse: bool, w: Twiddle)
    requires RootOfUnityLaws(w)
    requires size == 1 && start < |x|
    ensures CoreSpec(x, size, factors, start, step, inverse, w) == Ok([Sum(size, DftTerms(x, size, start, step, 0, inverse, w))])
  {
    WholeTurn(w, 0, inverse);
    OneIdentity(x[start]);
    ZeroIdentity(x[start]);
  }

  /** The butterflies over chunks that hold the p sub-transforms of stride step·p give the
      transform of size p·m. */
  lemma CombineAll(x: Signal, chunks: seq<Signal>, size: nat, p: nat, m: nat, start: nat, step: nat,
                   inverse: bool, w: Twiddle)
    requires RootOfUnityLaws(w) && p >= 1 && m >= 1 && size == p * m && |chunks| == p
    requires forall i :: 0 <= i < p ==> |chunks[i]| == m
    requires forall i, j :: 0 <= i < p && 0 <= j < m ==>
      chunks[i][j] == Sum(m, DftTerms(x, m, start + i * step, step * p, j, inverse, w))
    ensures CombineSpec(chunks, size, m, inverse, w).Ok?
    ensures |CombineSpec(chunks, size, m, inverse, w).value| == size
    ensures forall k :: 0 <= k < size ==>
      CombineSpec(chunks, size, m, inverse, w).value[k] == Sum(size, DftTerms(x, size, start, step, k, inverse, w))
  {
    Numbers.MulAtLeast(m, p);
    assert Min(size, m) == m;
    forall k | 0 <= k < size
      ensures CombineSpec(chunks, size, m, inverse, w).value[k] == Sum(size, DftTerms(x, size, start, step, k, inverse, w))
    {
      ButterflyInRange(chunks, k, size, m);
      CombineIsDft(x, chunks, size, p, m, start, step, inverse, w, k);
    }
  }

  /** With factors (all at least 1) multiplying to size and every position read inside
      the signal, fft_core returns the direct transform of x[start + t·step], t < size:
      unscaled, with the twiddle's sign chosen by `inverse`. */
  lemma {:induction false} CoreIsDft(x: Signal, size: nat, factors: seq<nat>, start: nat, step: nat,
                                     inverse: bool, w: Twiddle)
    requires RootOfUnityLaws(w)
    requires FourierLaws.Positive(factors) && Numbers.Product(factors) == size
    requires start + (size - 1) * step < |x|
    ensures CoreSpec(x, size, factors, start, step, inverse, w).Ok?
    ensures |CoreSpec(x, size, factors, start, step, inverse, w).value| == size
    ensures forall k :: 0 <= k < size ==>
      CoreSpec(x, size, factors, start, step, inverse, w).value[k] == Sum(size, DftTerms(x, size, start, step, k, inverse, w))
    decreases |factors|
  {
    FourierLaws.ProductPositive(factors);
    if size == 1 || |factors| == 0 {
      CoreBase(x, size, factors, start, step, inverse, w);
    } else {
      var p, rest := factors[0], factors[1..];
      var m := Numbers.Product(rest);
      FourierLaws.ProductPositive(rest);
      FourierLaws.ExactQuotient(size, p, m);
      FourierLaws.ChunksSucceed(x, size, factors, start, step, inverse, w, p);
      var chunks := Chunks(x, size, factors, start, step, inverse, w, p).value;
      ChunkValues(x, size, factors, start, step, inverse, w, p);
      forall i | 0 <= i < p
        ensures |chunks[i]| == m
        ensures forall j :: 0 <= j < m ==>
          chunks[i][j] == Sum(m, DftTerms(x, m, start + i * step, step * p, j, inverse, w))
      {
        FourierLaws.InsideSignal(start, i, step, p, m, |x|);
        CoreIsDft(x, m, rest, start + i * step, step * p, inverse, w);
      }
      CombineAll(x, chunks, size, p, m, start, step, inverse, w);
    }
  }

  // ---------------------------------------------------------------------------
  // fft and ifft agree with dft and idft

  /** The direct sum over the first n values of x, written with DftTerms. */
  lemma PrefixSum(x: Signal, n: nat, k: nat, inverse: bool, w: Twiddle)
    requires n <= |x|
    ensures Sum(n, DftTerms(x, n, 0, 1, k, inverse, w)) == DftSum(x[..n], k, n, inverse, w, n)
  {
    SumExt(n, DftTerms(x, n, 0, 1, k, inverse, w), DftTerms(x[..n], n, 0, 1, k, inverse, w));
    DftSumAsSum(x[..n], k, n, inverse, w, n);
  }

  /** When factorize drops no cofactor of the size n, fft returns dft of the first n
      values and ifft returns idft of them: the fast path agrees with the direct one. */
  lemma FftIsDft(x: Signal, size: Option<nat>, w: Twiddle)
    requires RootOfUnityLaws(w)
    requires 1 <= TransformSize(x, size) <= |x| && TransformSize(x, size) <= Numbers.U32_MAX
    requires Numbers.Leftover(TransformSize(x, size)) == 1
    ensures FftSpec(x, size, w) == Ok(DftSpec(x[..TransformSize(x, size)], w))
    ensures IfftSpec(x, size, w) == Ok(IdftSpec(x[..TransformSize(x, size)], w))
  {
    var n := TransformSize(x, size);
    FourierLaws.TruncateBelow(n);
    FourierLaws.PlanIsComplete(n);
    CoreIsDft(x, n, Plan(n), 0, 1, false, w);
    CoreIsDft(x, n, Plan(n), 0, 1, true, w);
    var fwd := CoreSpec(x, n, Plan(n), 0, 1, false, w).value;
    var bwd := CoreSpec(x, n, Plan(n), 0, 1, true, w).value;
    forall k | 0 <= k < n
      ensures fwd[k] == DftSpec(x[..n], w)[k]
      ensures Scaled(bwd, n)[k] == IdftSpec(x[..n], w)[k]
    {
      PrefixSum(x, n, k, false, w);
      PrefixSum(x, n, k, true, w);
    }
    assert fwd == DftSpec(x[..n], w);
    assert Scaled(bwd, n) == IdftSpec(x[..n], w);
  }

  /** The 6-point signal of the transform tests: fft equals dft and ifft equals idft. */
  lemma SixPointAgreement(x: Signal, w: Twiddle)
    requires RootOfUnityLaws(w) && |x| == 6
    ensures FftSpec(x, None, w) == Ok(DftSpec(x, w))
    ensures IfftSpec(x, None, w) == Ok(IdftSpec(x, w))
  {
    Numbers.FactorizeCompleteExamples();
    FftIsDft(x, None, w);
    assert x[..6] == x;
  }
}
