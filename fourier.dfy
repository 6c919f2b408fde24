/** src/signal_processing/fourier.rs: the direct transforms `dft`/`idft`, the mixed-radix
    recursion `fft_core`, its wrappers `fft`/`ifft` and the 2-D forms `fft2`/`ifft2`.

    The twiddle factor `Complex::from_polar(1, ∓2π·num/den)` is kept abstract: it is the
    parameter `w`, applied to (num, den, inverse) where `inverse` selects the + sign. */
module Fourier {
  import opened Panics
  import opened ComplexNumbers
  import Numbers

  type Signal = seq<Complex>

  /** w(num, den, inverse) stands for from_polar(1, -2π·num/den), or +2π·num/den when
      `inverse` holds. */
  type Twiddle = (nat, nat, bool) -> Complex

  // ---------------------------------------------------------------------------
  // dft and idft

  /** Σ_{t < count} x[t] · w(k·t, n, inverse), accumulated from zero left to right. */
  function DftSum(x: Signal, k: nat, n: nat, inverse: bool, w: Twiddle, count: nat): Complex
    requires count <= |x|
  {
    if count == 0 then Zero()
    else Add(DftSum(x, k, n, inverse, w, count - 1), Mul(x[count - 1], w(k * (count - 1), n, inverse)))
  }

  /** What dft(x) computes: no scaling. */
  function DftSpec(x: Signal, w: Twiddle): Signal {
    seq(|x|, k requires 0 <= k < |x| => DftSum(x, k, |x|, false, w, |x|))
  }

  /** What idft(x) computes: the positive-sign sum divided once by n. */
  function IdftSpec(x: Signal, w: Twiddle): Signal {
    seq(|x|, k requires 0 <= k < |x| => Div(DftSum(x, k, |x|, true, w, |x|), FromReal(|x| as real)))
  }

  lemma NormSquaredOfCount(n: nat)
    requires n >= 1
    ensures NormSquared(FromReal(n as real)) >= 1.0
  {
    var r := n as real;
    assert r * r >= r * 1.0;
  }

  /** dft: `result[k] += signal[t] * twiddle` for every k and t. */
  method Dft(x: Signal, w: Twiddle) returns (r: Signal)
    ensures r == DftSpec(x, w)
  {
    var n := |x|;
    r := seq(n, _ => Zero());
    for k := 0 to n
      invariant |r| == n
      invariant forall m :: 0 <= m < k ==> r[m] == DftSum(x, m, n, false, w, n)
      invariant forall m :: k <= m < n ==> r[m] == Zero()
    {
      for t := 0 to n
        invariant |r| == n
        invariant r[k] == DftSum(x, k, n, false, w, t)
        invariant forall m :: 0 <= m < k ==> r[m] == DftSum(x, m, n, false, w, n)
        invariant forall m :: k < m < n ==> r[m] == Zero()
      {
        r := r[k := Add(r[k], Mul(x[t], w(k * t, n, false)))];
      }
    }
  }

  /** idft: the same double loop with the opposite sign, then `result[k] /= n` once per k. */
  method Idft(x: Signal, w: Twiddle) returns (r: Signal)
    ensures r == IdftSpec(x, w)
  {
    var n := |x|;
    r := seq(n, _ => Zero());
    for k := 0 to n
      invariant |r| == n
      invariant forall m :: 0 <= m < k ==> r[m] == IdftSpec(x, w)[m]
      invariant forall m :: k <= m < n ==> r[m] == Zero()
    {
      for t := 0 to n
        invariant |r| == n
        invariant r[k] == DftSum(x, k, n, true, w, t)
        invariant forall m :: 0 <= m < k ==> r[m] == IdftSpec(x, w)[m]
        invariant forall m :: k < m < n ==> r[m] == Zero()
      {
        r := r[k := Add(r[k], Mul(x[t], w(k * t, n, true)))];
      }
      NormSquaredOfCount(n);
      r := r[k := Div(r[k], FromReal(n as real))];
    }
  }

  // ---------------------------------------------------------------------------
  // fft_core

  /** Σ_{i < count} chunks[i][k % cs] · w(k·i, size, inverse): output k of one butterfly. */
  function Butterfly(chunks: seq<Signal>, k: nat, size: nat, cs: nat, inverse: bool, w: Twiddle, count: nat): Complex
    requires cs > 0 && count <= |chunks|
    requires forall i :: 0 <= i < count ==> k % cs < |chunks[i]|
  {
    if count == 0 then Zero()
    else
      Add(Butterfly(chunks, k, size, cs, inverse, w, count - 1),
          Mul(chunks[count - 1][k % cs], w(k * (count - 1), size, inverse)))
  }

  /** The combination loop of fft_core over the sub-results: output k reads
      chunks[i][k % cs] for every i. Panics on `k % cs` with cs == 0 and on a sub-result
      too short for some k % cs with k < size. */
  function CombineSpec(chunks: seq<Signal>, size: nat, cs: nat, inverse: bool, w: Twiddle): Result<Signal> {
    if size == 0 then Ok([])
    else if cs == 0 then Err(DivisionByZero)
    else if exists i :: 0 <= i < |chunks| && |chunks[i]| < Min(size, cs) then Err(IndexOutOfBounds)
    else
      Ok(seq(size, k requires 0 <= k < size =>
        ButterflyInRange(chunks, k, size, cs);
        Butterfly(chunks, k, size, cs, inverse, w, |chunks|)))
  }

  /** fft_core(signal, size, factors, start, step, reverse). */
  function CoreSpec(x: Signal, size: nat, factors: seq<nat>, start: nat, step: nat, inverse: bool, w: Twiddle)
    : (r: Result<Signal>)
    ensures r.Ok? ==> |r.value| == if size == 1 || |factors| == 0 then 1 else size
    decreases |factors|
  {
    if size == 1 || |factors| == 0 then
      if start < |x| then Ok([x[start]]) else Err(IndexOutOfBounds)
    else if factors[0] == 0 then Err(DivisionByZero)
    else
      match Chunks(x, size, factors, start, step, inverse, w, factors[0])
      case Err(f) => Err(f)
      case Ok(chunks) => CombineSpec(chunks, size, size / factors[0], inverse, w)
  }

  /** The first `count` sub-transforms of fft_core, in order, stopping at the first
      failure: chunk i starts at start + i·step, with stride step·p, size size / p and the
      remaining factors, where p = factors[0]. */
  function Chunks(x: Signal, size: nat, factors: seq<nat>, start: nat, step: nat, inverse: bool, w: Twiddle, count: nat)
    : (c: Result<seq<Signal>>)
    requires |factors| > 0 && 0 < factors[0] && count <= factors[0]
    ensures c.Ok? ==> |c.value| == count
    decreases |factors|, count
  {
    if count == 0 then Ok([])
    else
      var p := factors[0];
      match Chunks(x, size, factors, start, step, inverse, w, count - 1)
      case Err(f) => Err(f)
      case Ok(vs) =>
        match CoreSpec(x, size / p, factors[1..], start + (count - 1) * step, step * p, inverse, w)
        case Err(f) => Err(f)
        case Ok(v) => Ok(vs + [v])
  }

  /** Once a sub-transform has failed, so has the whole loop. */
  lemma {:induction false} ChunksFailureSticks(x: Signal, size: nat, factors: seq<nat>, start: nat, step: nat, inverse: bool, w: Twiddle, i: nat, count: nat)
    requires |factors| > 0 && 0 < factors[0] && i <= count <= factors[0]
    requires Chunks(x, size, factors, start, step, inverse, w, i).Err?
    ensures Chunks(x, size, factors, start, step, inverse, w, count) == Chunks(x, size, factors, start, step, inverse, w, i)
    decreases count
  {
    if i < count {
      ChunksFailureSticks(x, size, factors, start, step, inverse, w, i, count - 1);
    }
  }

  /** fft_core: a leaf returns signal[start]; otherwise the sub-transforms are computed in
      order and combined. */
  method FftCore(x: Signal, size: nat, factors: seq<nat>, start: nat, step: nat, inverse: bool, w: Twiddle)
    returns (r: Result<Signal>)
    ensures r == CoreSpec(x, size, factors, start, step, inverse, w)
    decreases |factors|, 1
  {
    if size == 1 || |factors| == 0 {
      if start < |x| {
        return Ok([x[start]]);
      }
      return Err(IndexOutOfBounds);
    }
    var p := factors[0];
    if p == 0 {
      return Err(DivisionByZero);
    }
    var chunkSize := size / p;
    var chunks := SubTransforms(x, size, factors, start, step, inverse, w);
    if chunks.Err? {
      return Err(chunks.failure);
    }
    r := Combine(chunks.value, size, chunkSize, inverse, w);
  }

  /** The loop `for i in 0..chunk_number { chunks.push(fft_core(...)) }`. */
  method SubTransforms(x: Signal, size: nat, factors: seq<nat>, start: nat, step: nat, inverse: bool, w: Twiddle)
    returns (r: Result<seq<Signal>>)
    requires |factors| > 0 && factors[0] > 0
    ensures r == Chunks(x, size, factors, start, step, inverse, w, factors[0])
    decreases |factors|, 0
  {
    var p := factors[0];
    var chunkSize := size / p;
    var remaining := factors[1..];
    var chunks: seq<Signal> := [];
    var i := 0;
    while i < p
      invariant 0 <= i <= p
      invariant Chunks(x, size, factors, start, step, inverse, w, i) == Ok(chunks)
    {
      var c := FftCore(x, chunkSize, remaining, start + i * step, step * p, inverse, w);
      if c.Err? {
        ChunksFailureSticks(x, size, factors, start, step, inverse, w, i + 1, p);
        return Err(c.failure);
      }
      chunks := chunks + [c.value];
      i := i + 1;
    }
    r := Ok(chunks);
  }

  /** The double loop `result[k] += chunks[i][k % chunk_size] * twiddle`. */
  method Combine(chunks: seq<Signal>, size: nat, cs: nat, inverse: bool, w: Twiddle) returns (r: Result<Signal>)
    ensures r == CombineSpec(chunks, size, cs, inverse, w)
  {
    var result := seq(size, _ => Zero());
    if size > 0 && cs == 0 {
      return Err(DivisionByZero);  // the first `k % chunk_size`, at k = 0
    }
    var k := 0;
    while k < size
      invariant 0 <= k <= size && |result| == size
      invariant k > 0 ==> cs > 0
      invariant forall j :: 0 <= j < |chunks| ==> Min(k, cs) <= |chunks[j]|
      invariant forall m :: 0 <= m < k ==> ButterflyDefined(chunks, m, cs) && result[m] == Butterfly(chunks, m, size, cs, inverse, w, |chunks|)
      invariant forall m :: k <= m < size ==> result[m] == Zero()
    {
      var next := AccumulateOutput(chunks, result, k, size, cs, inverse, w);
      if next.Err? {
        CombineFails(chunks, size, cs, inverse, w);
        return Err(IndexOutOfBounds);
      }
      result := next.value;
      MinStep(chunks, k, cs);
      k := k + 1;
    }
    if size == 0 {
      return Ok([]);
    }
    CombineSucceeds(chunks, size, cs, inverse, w, result);
    r := Ok(result);
  }

  /** The inner loop for one output k: `result[k]` accumulates every chunk's term; a
      chunk too short for index k % cs panics. */
  method AccumulateOutput(chunks: seq<Signal>, result: Signal, k: nat, size: nat, cs: nat, inverse: bool, w: Twiddle)
    returns (r: Result<Signal>)
    requires cs > 0 && k < size == |result| && result[k] == Zero()
    ensures r.Err? ==> exists j :: 0 <= j < |chunks| && |chunks[j]| < Min(size, cs)
    ensures r.Ok? ==>
      ButterflyDefined(chunks, k, cs) && r.value == result[k := Butterfly(chunks, k, size, cs, inverse, w, |chunks|)]
  {
    var acc := result;
    var j := 0;
    while j < |chunks|
      invariant 0 <= j <= |chunks| && |acc| == size
      invariant forall i :: 0 <= i < j ==> k % cs < |chunks[i]|
      invariant acc == result[k := Butterfly(chunks, k, size, cs, inverse, w, j)]
    {
      var index := k % cs;
      if index >= |chunks[j]| {
        ShortChunk(chunks, j, k, size, cs);
        return Err(IndexOutOfBounds);
      }
      acc := acc[k := Add(acc[k], Mul(chunks[j][index], w(k * j, size, inverse)))];
      j := j + 1;
    }
    return Ok(acc);
  }

  function Min(a: nat, b: nat): nat {
    if a <= b then a else b
  }

  predicate ButterflyDefined(chunks: seq<Signal>, k: nat, cs: nat) {
    cs > 0 && forall i :: 0 <= i < |chunks| ==> k % cs < |chunks[i]|
  }

  lemma ShortChunk(chunks: seq<Signal>, j: nat, k: nat, size: nat, cs: nat)
    requires cs > 0 && j < |chunks| && k < size && k % cs >= |chunks[j]|
    ensures |chunks[j]| < Min(size, cs)
  {
  }

  lemma MinStep(chunks: seq<Signal>, k: nat, cs: nat)
    requires cs > 0
    requires forall j :: 0 <= j < |chunks| ==> Min(k, cs) <= |chunks[j]|
    requires forall i :: 0 <= i < |chunks| ==> k % cs < |chunks[i]|
    ensures forall j :: 0 <= j < |chunks| ==> Min(k + 1, cs) <= |chunks[j]|
    ensures ButterflyDefined(chunks, k, cs)
  {
    if k < cs {
      assert k % cs == k;
    }
  }

  lemma CombineFails(chunks: seq<Signal>, size: nat, cs: nat, inverse: bool, w: Twiddle)
    requires size > 0 && cs > 0
    requires exists j :: 0 <= j < |chunks| && |chunks[j]| < Min(size, cs)
    ensures CombineSpec(chunks, size, cs, inverse, w) == Err(IndexOutOfBounds)
  {
  }

  lemma CombineSucceeds(chunks: seq<Signal>, size: nat, cs: nat, inverse: bool, w: Twiddle, result: Signal)
    requires size > 0 && cs > 0 && |result| == size
    requires forall j :: 0 <= j < |chunks| ==> Min(size, cs) <= |chunks[j]|
    requires forall m :: 0 <= m < size ==>
      ButterflyDefined(chunks, m, cs) && result[m] == Butterfly(chunks, m, size, cs, inverse, w, |chunks|)
    ensures CombineSpec(chunks, size, cs, inverse, w) == Ok(result)
  {
    CompleteChunks(chunks, size, cs);
    assert result == seq(size, k requires 0 <= k < size => Butterfly(chunks, k, size, cs, inverse, w, |chunks|));
  }

  lemma CompleteChunks(chunks: seq<Signal>, size: nat, cs: nat)
    requires forall j :: 0 <= j < |chunks| ==> Min(size, cs) <= |chunks[j]|
    ensures !exists i :: 0 <= i < |chunks| && |chunks[i]| < Min(size, cs)
  {
  }

  lemma ButterflyInRange(chunks: seq<Signal>, k: nat, size: nat, cs: nat)
    requires cs > 0 && k < size
    requires forall j :: 0 <= j < |chunks| ==> Min(size, cs) <= |chunks[j]|
    ensures forall i :: 0 <= i < |chunks| ==> k % cs < |chunks[i]|
  {
  }

  // ---------------------------------------------------------------------------
  // fft and ifft

  /** `sort_unstable_by(|a, b| b.cmp(a))`: the factors in non-increasing order, by insertion. */
  function SortDescending(s: seq<nat>): seq<nat> {
    if |s| == 0 then [] else Insert(s[0], SortDescending(s[1..]))
  }

  /** x placed before the first element it is at least as large as. */
  function Insert(x: nat, s: seq<nat>): seq<nat> {
    if |s| == 0 || x >= s[0] then [x] + s else [s[0]] + Insert(x, s[1..])
  }

  predicate Descending(s: seq<nat>) {
    forall i, j :: 0 <= i < j < |s| ==> s[i] >= s[j]
  }

  lemma {:induction false} InsertCorrect(x: nat, s: seq<nat>)
    requires Descending(s)
    ensures multiset(Insert(x, s)) == multiset(s) + multiset{x}
    ensures Descending(Insert(x, s))
    ensures Insert(x, s)[0] == x || (|s| > 0 && Insert(x, s)[0] == s[0])
  {
    if |s| == 0 || x >= s[0] {
      PrependDescending(x, s);
    } else {
      assert s == [s[0]] + s[1..];
      InsertCorrect(x, s[1..]);
      PrependDescending(s[0], Insert(x, s[1..]));
    }
  }

  lemma PrependDescending(x: nat, s: seq<nat>)
    requires Descending(s) && (|s| == 0 || x >= s[0])
    ensures Descending([x] + s)
  {
    var r := [x] + s;
    forall i, j | 0 <= i < j < |r|
      ensures r[i] >= r[j]
    {
      if i == 0 {
        assert r[j] == s[j - 1] <= s[0];
      } else {
        assert r[i] == s[i - 1] && r[j] == s[j - 1];
      }
    }
  }

  /** The sorted list is a permutation of the input, in non-increasing order (which
      determines it, so the unstable sort's result is unique). */
  lemma {:induction false} SortDescendingCorrect(s: seq<nat>)
    ensures multiset(SortDescending(s)) == multiset(s)
    ensures Descending(SortDescending(s))
  {
    if |s| > 0 {
      assert s == [s[0]] + s[1..];
      SortDescendingCorrect(s[1..]);
      InsertCorrect(s[0], SortDescending(s[1..]));
    }
  }

  /** `fft_size as u32`: the size the factorisation sees. */
  function Truncate(n: nat): (t: nat)
    ensures t < 0x1_0000_0000
    ensures n < 0x1_0000_0000 ==> t == n
    ensures t == 0 ==> n == 0 || n >= 0x1_0000_0000
  {
    n % 0x1_0000_0000
  }

  /** `size.unwrap_or(signal.len())`. */
  function TransformSize(x: Signal, size: Option<nat>): nat {
    if size.Some? then size.value else |x|
  }

  /** The factor list fft and ifft hand to fft_core: factorize(n as u32), largest first. */
  function Plan(n: nat): seq<nat>
    requires Truncate(n) >= 1
  {
    SortDescending(Numbers.Factors(Truncate(n)))
  }

  /** fft(signal, size): the recursion on the whole signal with the sorted factors. A size
      that truncates to 0 makes factorize loop forever. */
  function FftSpec(x: Signal, size: Option<nat>, w: Twiddle): (r: Result<Signal>)
    ensures r.Ok? ==> |r.value| == TransformSize(x, size) || |r.value| == 1
  {
    var n := TransformSize(x, size);
    if Truncate(n) == 0 then Err(Diverges)
    else CoreSpec(x, n, Plan(n), 0, 1, false, w)
  }

  /** ifft(signal, size): the positive-sign recursion, then `result[i] /= n` for i < n,
      which panics when the recursion returned fewer than n values. */
  function IfftSpec(x: Signal, size: Option<nat>, w: Twiddle): (r: Result<Signal>)
    ensures r.Ok? ==> |r.value| == TransformSize(x, size)
  {
    var n := TransformSize(x, size);
    if Truncate(n) == 0 then Err(Diverges)
    else
      var core := CoreSpec(x, n, Plan(n), 0, 1, true, w);
      if core.Err? then core
      else if |core.value| < n then Err(IndexOutOfBounds)
      else Ok(Scaled(core.value, n))
  }

  /** The first n values divided by n, the rest unchanged. */
  function Scaled(v: Signal, n: nat): (r: Signal)
    requires n >= 1
    ensures |r| == |v|
  {
    NormSquaredOfCount(n);
    seq(|v|, i requires 0 <= i < |v| => if i < n then Div(v[i], FromReal(n as real)) else v[i])
  }

  method Fft(x: Signal, size: Option<nat>, w: Twiddle) returns (r: Result<Signal>)
    ensures r == FftSpec(x, size, w)
  {
    var n := TransformSize(x, size);
    if Truncate(n) == 0 {
      return Err(Diverges);
    }
    var factors := Numbers.Factorize(Truncate(n));
    factors := SortDescending(factors);
    r := FftCore(x, n, factors, 0, 1, false, w);
  }

  method Ifft(x: Signal, size: Option<nat>, w: Twiddle) returns (r: Result<Signal>)
    ensures r == IfftSpec(x, size, w)
  {
    var n := TransformSize(x, size);
    if Truncate(n) == 0 {
      return Err(Diverges);
    }
    var factors := Numbers.Factorize(Truncate(n));
    factors := SortDescending(factors);
    var core := FftCore(x, n, factors, 0, 1, true, w);
    if core.Err? {
      return Err(core.failure);
    }
    var result := core.value;
    for i := 0 to n
      invariant |result| == |core.value|
      invariant i > 0 ==> i <= |core.value|
      invariant forall m :: 0 <= m < |result| ==> result[m] == if m < i then Scaled(core.value, n)[m] else core.value[m]
    {
      if i >= |result| {
        return Err(IndexOutOfBounds);
      }
      NormSquaredOfCount(n);
      result := result[i := Div(result[i], FromReal(n as real))];
    }
    assert result == Scaled(core.value, n);
    return Ok(result);
  }

  // ---------------------------------------------------------------------------
  // fft2 and ifft2

  /** A 2-D signal, row by row. */
  type Grid = seq<Signal>

  /** `size.unwrap_or((signal.len(), signal[0].len()))`: the default is evaluated before the
      call, so an empty signal panics on `signal[0]` even when a size is given. */
  function Dims(g: Grid, size: Option<(nat, nat)>): Result<(nat, nat)> {
    if |g| == 0 then Err(IndexOutOfBounds)
    else if size.Some? then Ok(size.value)
    else Ok((|g|, |g[0]|))
  }

  /** fft or ifft of one row or column at an explicit size. */
  function Transform(x: Signal, size: nat, inverse: bool, w: Twiddle): Result<Signal> {
    if inverse then IfftSpec(x, Some(size), w) else FftSpec(x, Some(size), w)
  }

  /** The transforms of rows 0..count of g at length cols, in order, stopping at the first
      failure; a missing row panics on `get_mut(i).unwrap()`. */
  function RowPass(g: Grid, cols: nat, inverse: bool, w: Twiddle, count: nat): (r: Result<Grid>)
    ensures r.Ok? ==> |r.value| == count
  {
    if count == 0 then Ok([])
    else
      var prev := RowPass(g, cols, inverse, w, count - 1);
      if prev.Err? then prev
      else
        var row := RowOf(g, count - 1, cols, inverse, w);
        if row.Err? then Err(row.failure) else Ok(prev.value + [row.value])
  }

  /** Row i transformed at length cols; a missing row panics on `get_mut(i).unwrap()`. */
  function RowOf(g: Grid, i: nat, cols: nat, inverse: bool, w: Twiddle): Result<Signal> {
    if i >= |g| then Err(IndexOutOfBounds) else Transform(g[i], cols, inverse, w)
  }

  /** `g.iter().map(|r| r[j]).collect()`: column j, panicking on a row too short for it. */
  function ColumnOf(g: Grid, j: nat): (r: Result<Signal>)
    ensures r.Ok? <==> forall i :: 0 <= i < |g| ==> j < |g[i]|
    ensures r.Ok? ==> |r.value| == |g| && forall i :: 0 <= i < |g| ==> r.value[i] == g[i][j]
  {
    if exists i :: 0 <= i < |g| && |g[i]| <= j then Err(IndexOutOfBounds)
    else Ok(seq(|g|, i requires 0 <= i < |g| => g[i][j]))
  }

  /** `for i in 0..rows { result[i][j] = col[i] }`: column j of h overwritten, panicking
      when the transformed column is shorter than rows. */
  function WriteColumn(h: Grid, j: nat, col: Signal, rows: nat): (r: Result<Grid>)
    requires |h| == rows && forall i :: 0 <= i < rows ==> j < |h[i]|
    ensures r.Ok? <==> rows <= |col|
    ensures r.Ok? ==> |r.value| == rows && forall i :: 0 <= i < rows ==>
      |r.value[i]| == |h[i]| && r.value[i][j] == col[i] &&
      forall c :: 0 <= c < |h[i]| && c != j ==> r.value[i][c] == h[i][c]
  {
    if |col| < rows then Err(IndexOutOfBounds)
    else Ok(seq(rows, i requires 0 <= i < rows => h[i][j := col[i]]))
  }

  /** fft2's column pass over columns 0..count: each column is read from the current
      result, transformed at length rows and written back. */
  function ForwardColumns(g: Grid, rows: nat, w: Twiddle, count: nat): (r: Result<Grid>)
    requires |g| == rows
    ensures r.Ok? ==> |r.value| == rows && forall i :: 0 <= i < rows ==> count <= |r.value[i]| == |g[i]|
  {
    if count == 0 then Ok(g)
    else
      var prev := ForwardColumns(g, rows, w, count - 1);
      if prev.Err? then prev else ForwardColumn(prev.value, count - 1, rows, w)
  }

  /** One step of fft2's column pass: column j read from h, transformed, written back. */
  function ForwardColumn(h: Grid, j: nat, rows: nat, w: Twiddle): (r: Result<Grid>)
    requires |h| == rows
    ensures r.Ok? ==> |r.value| == rows && forall i :: 0 <= i < rows ==> j < |r.value[i]| == |h[i]|
  {
    var column := ColumnOf(h, j);
    if column.Err? then Err(column.failure)
    else
      var col := FftSpec(column.value, Some(rows), w);
      if col.Err? then Err(col.failure)
      else WriteColumn(h, j, col.value, rows)
  }

  /** ifft2's column pass over columns 0..count: each column is read from the input signal,
      inverted at length rows and written into a rows x cols result that starts at zero. */
  function InverseColumns(g: Grid, rows: nat, cols: nat, w: Twiddle, count: nat): (r: Result<Grid>)
    requires count <= cols
    ensures r.Ok? ==> |r.value| == rows && forall i :: 0 <= i < rows ==> |r.value[i]| == cols
  {
    if count == 0 then Ok(seq(rows, _ => seq(cols, _ => Zero())))
    else
      var prev := InverseColumns(g, rows, cols, w, count - 1);
      if prev.Err? then prev else InverseColumn(g, prev.value, count - 1, rows, w)
  }

  /** One step of ifft2's column pass: column j of g inverted and written into column j of h. */
  function InverseColumn(g: Grid, h: Grid, j: nat, rows: nat, w: Twiddle): (r: Result<Grid>)
    requires |h| == rows && forall i :: 0 <= i < rows ==> j < |h[i]|
    ensures r.Ok? ==> |r.value| == rows && forall i :: 0 <= i < rows ==> |r.value[i]| == |h[i]|
  {
    var column := ColumnOf(g, j);
    if column.Err? then Err(column.failure)
    else
      var col := IfftSpec(column.value, Some(rows), w);
      if col.Err? then Err(col.failure)
      else WriteColumn(h, j, col.value, rows)
  }

  /** fft2: every row first, then every column of the row-transformed grid. */
  function Fft2Spec(g: Grid, size: Option<(nat, nat)>, w: Twiddle): Result<Grid> {
    var dims := Dims(g, size);
    if dims.Err? then Err(dims.failure)
    else
      var rows, cols := dims.value.0, dims.value.1;
      var rowPass := RowPass(g, cols, false, w, rows);
      if rowPass.Err? then rowPass
      else ForwardColumns(rowPass.value, rows, w, cols)
  }

  /** ifft2: every column of the input first, then every row of the result. */
  function Ifft2Spec(g: Grid, size: Option<(nat, nat)>, w: Twiddle): Result<Grid> {
    var dims := Dims(g, size);
    if dims.Err? then Err(dims.failure)
    else
      var rows, cols := dims.value.0, dims.value.1;
      var columnPass := InverseColumns(g, rows, cols, w, cols);
      if columnPass.Err? then columnPass
      else RowPass(columnPass.value, cols, true, w, rows)
  }

  /** One more row: the pass so far extended by row i, or row i's failure. */
  lemma RowPassStep(g: Grid, cols: nat, inverse: bool, w: Twiddle, i: nat, prev: Grid)
    requires RowPass(g, cols, inverse, w, i) == Ok(prev)
    ensures var row := RowOf(g, i, cols, inverse, w);
      RowPass(g, cols, inverse, w, i + 1) == if row.Err? then Err(row.failure) else Ok(prev + [row.value])
  {
  }

  lemma {:induction false} RowPassFailureSticks(g: Grid, cols: nat, inverse: bool, w: Twiddle, i: nat, count: nat)
    requires i <= count && RowPass(g, cols, inverse, w, i).Err?
    ensures RowPass(g, cols, inverse, w, count) == RowPass(g, cols, inverse, w, i)
    decreases count
  {
    if i < count {
      RowPassFailureSticks(g, cols, inverse, w, i, count - 1);
    }
  }

  lemma {:induction false} ForwardColumnsFailureSticks(g: Grid, rows: nat, w: Twiddle, j: nat, count: nat)
    requires |g| == rows && j <= count && ForwardColumns(g, rows, w, j).Err?
    ensures ForwardColumns(g, rows, w, count) == ForwardColumns(g, rows, w, j)
    decreases count
  {
    if j < count {
      ForwardColumnsFailureSticks(g, rows, w, j, count - 1);
      assert ForwardColumns(g, rows, w, count - 1).Err?;
      ForwardColumnsErrStep(g, rows, w, count);
    }
  }

  lemma ForwardColumnsErrStep(g: Grid, rows: nat, w: Twiddle, count: nat)
    requires |g| == rows && count > 0 && ForwardColumns(g, rows, w, count - 1).Err?
    ensures ForwardColumns(g, rows, w, count) == ForwardColumns(g, rows, w, count - 1)
  {
  }

  lemma {:induction false} InverseColumnsFailureSticks(g: Grid, rows: nat, cols: nat, w: Twiddle, j: nat, count: nat)
    requires j <= count <= cols && InverseColumns(g, rows, cols, w, j).Err?
    ensures InverseColumns(g, rows, cols, w, count) == InverseColumns(g, rows, cols, w, j)
    decreases count
  {
    if j < count {
      InverseColumnsFailureSticks(g, rows, cols, w, j, count - 1);
      InverseColumnsErrStep(g, rows, cols, w, count);
    }
  }

  lemma InverseColumnsErrStep(g: Grid, rows: nat, cols: nat, w: Twiddle, count: nat)
    requires 0 < count <= cols && InverseColumns(g, rows, cols, w, count - 1).Err?
    ensures InverseColumns(g, rows, cols, w, count) == InverseColumns(g, rows, cols, w, count - 1)
  {
  }

  /** The loop that copies a transformed column into column j of result, in place. */
  method StoreColumn(result: Grid, j: nat, col: Signal, rows: nat) returns (r: Result<Grid>)
    requires |result| == rows && forall i :: 0 <= i < rows ==> j < |result[i]|
    ensures r == WriteColumn(result, j, col, rows)
  {
    var h := result;
    for i := 0 to rows
      invariant |h| == rows
      invariant i == 0 || i <= |col|
      invariant forall m :: 0 <= m < i ==> h[m] == result[m][j := col[m]]
      invariant forall m :: i <= m < rows ==> h[m] == result[m]
    {
      if i >= |col| {
        return Err(IndexOutOfBounds);
      }
      h := h[i := h[i][j := col[i]]];
    }
    assert h == seq(rows, i requires 0 <= i < rows => result[i][j := col[i]]);
    return Ok(h);
  }

  /** fft2: `result[i] = fft(row i)` for each row, then each column is read from result,
      transformed and written back element by element. */
  method Fft2(g: Grid, size: Option<(nat, nat)>, w: Twiddle) returns (r: Result<Grid>)
    ensures r == Fft2Spec(g, size, w)
  {
    if |g| == 0 {
      return Err(IndexOutOfBounds);
    }
    var rows, cols := if size.Some? then size.value.0 else |g|, if size.Some? then size.value.1 else |g[0]|;
    var result: Grid := seq(rows, _ => seq(cols, _ => Zero()));
    var rowPass := TransformRows(g, result, cols, false, w);
    if rowPass.Err? {
      return rowPass;
    }
    r := TransformColumnsInPlace(rowPass.value, rows, cols, w);
  }

  /** ifft2: each column of the input is inverted and written into result, then
      `result[i] = ifft(result[i])` for each row. */
  method Ifft2(g: Grid, size: Option<(nat, nat)>, w: Twiddle) returns (r: Result<Grid>)
    ensures r == Ifft2Spec(g, size, w)
  {
    if |g| == 0 {
      return Err(IndexOutOfBounds);
    }
    var rows, cols := if size.Some? then size.value.0 else |g|, if size.Some? then size.value.1 else |g[0]|;
    var result: Grid := seq(rows, _ => seq(cols, _ => Zero()));
    var columnPass := InvertColumns(g, result, cols, w);
    if columnPass.Err? {
      return columnPass;
    }
    r := TransformRows(columnPass.value, columnPass.value, cols, true, w);
  }

  /** `for i in 0..rows { result[i] = fft(source row i, Some(cols)) }` (or ifft), where
      result has |result| rows. */
  method TransformRows(g: Grid, result: Grid, cols: nat, inverse: bool, w: Twiddle) returns (r: Result<Grid>)
    ensures r == RowPass(g, cols, inverse, w, |result|)
  {
    var rows := |result|;
    var h := result;
    for i := 0 to rows
      invariant |h| == rows
      invariant RowPass(g, cols, inverse, w, i) == Ok(h[..i])
    {
      RowPassStep(g, cols, inverse, w, i, h[..i]);
      if i >= |g| {
        RowPassFailureSticks(g, cols, inverse, w, i + 1, rows);
        return Err(IndexOutOfBounds);
      }
      var row;
      if inverse {
        row := Ifft(g[i], Some(cols), w);
      } else {
        row := Fft(g[i], Some(cols), w);
      }
      if row.Err? {
        RowPassFailureSticks(g, cols, inverse, w, i + 1, rows);
        return Err(row.failure);
      }
      ghost var before := h[..i];
      h := h[i := row.value];
      assert h[..i + 1] == before + [row.value];
    }
    assert h[..rows] == h;
    return Ok(h);
  }

  /** fft2's column loop: `result.iter().map(|r| r[j])`, fft at length rows, and the
      element-wise write back, for each j < cols. */
  method TransformColumnsInPlace(result: Grid, rows: nat, cols: nat, w: Twiddle) returns (r: Result<Grid>)
    requires |result| == rows
    ensures r == ForwardColumns(result, rows, w, cols)
  {
    var h := result;
    for j := 0 to cols
      invariant ForwardColumns(result, rows, w, j) == Ok(h)
    {
      var next := ForwardColumnStep(h, j, rows, w);
      if next.Err? {
        ForwardColumnsFailureSticks(result, rows, w, j + 1, cols);
        return next;
      }
      h := next.value;
    }
    return Ok(h);
  }

  /** ifft2's column loop: column j of the input, ifft at length rows, written into column
      j of result, for each j < cols. */
  method InvertColumns(g: Grid, result: Grid, cols: nat, w: Twiddle) returns (r: Result<Grid>)
    requires result == seq(|result|, _ => seq(cols, _ => Zero()))
    ensures r == InverseColumns(g, |result|, cols, w, cols)
  {
    var rows := |result|;
    var h := result;
    for j := 0 to cols
      invariant InverseColumns(g, rows, cols, w, j) == Ok(h)
    {
      var next := InverseColumnStep(g, h, j, rows, w);
      if next.Err? {
        InverseColumnsFailureSticks(g, rows, cols, w, j + 1, cols);
        return next;
      }
      h := next.value;
    }
    return Ok(h);
  }

  /** One iteration of fft2's column loop. */
  method ForwardColumnStep(h: Grid, j: nat, rows: nat, w: Twiddle) returns (r: Result<Grid>)
    requires |h| == rows
    ensures r == ForwardColumn(h, j, rows, w)
  {
    var column := ColumnOf(h, j);
    if column.Err? {
      return Err(column.failure);
    }
    var col := Fft(column.value, Some(rows), w);
    if col.Err? {
      return Err(col.failure);
    }
    r := StoreColumn(h, j, col.value, rows);
  }

  /** One iteration of ifft2's column loop; the write cannot fail, since a successful ifft
      has exactly `rows` values. */
  method InverseColumnStep(g: Grid, h: Grid, j: nat, rows: nat, w: Twiddle) returns (r: Result<Grid>)
    requires |h| == rows && forall i :: 0 <= i < rows ==> j < |h[i]|
    ensures r == InverseColumn(g, h, j, rows, w)
  {
    var column := ColumnOf(g, j);
    if column.Err? {
      return Err(column.failure);
    }
    var col := Ifft(column.value, Some(rows), w);
    if col.Err? {
      return Err(col.failure);
    }
    r := StoreColumn(h, j, col.value, rows);
  }
}
