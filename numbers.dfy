/** Integer number theory of src/gmath/numbers.rs: the trial-division prime list,
    `is_prime`, `factorize`, `gcd` and `lcm`. */
module Numbers {
  import opened Panics

  const U32_MAX: nat := 0xFFFF_FFFF

  // ---------------------------------------------------------------------------
  // Reference notions

  /** n is prime: at least 2 and without a divisor strictly between 1 and n. */
  predicate Prime(n: nat) {
    n >= 2 && forall d :: 2 <= d < n ==> n % d != 0
  }

  /** d divides n, with the quotient as witness (so that 0 divides only 0). */
  ghost predicate Divides(d: nat, n: nat) {
    exists k: nat :: d * k == n
  }

  function Product(s: seq<nat>): nat {
    if s == [] then 1 else s[0] * Product(s[1..])
  }

  predicate Ascending(s: seq<nat>) {
    forall i, j :: 0 <= i < j < |s| ==> s[i] < s[j]
  }

  predicate NonDecreasing(s: seq<nat>) {
    forall i, j :: 0 <= i < j < |s| ==> s[i] <= s[j]
  }

  // ---------------------------------------------------------------------------
  // Arithmetic helpers

  lemma MulMono(a: nat, b: nat, c: nat, d: nat)
    requires a <= c && b <= d
    ensures a * b <= c * d
  {
    assert a * b <= c * b;
    assert c * b <= c * d;
  }

  lemma DividesFromMod(d: nat, n: nat)
    requires d > 0 && n % d == 0
    ensures Divides(d, n)
  {
    assert d * (n / d) == n;
  }

  lemma ModFromDivides(d: nat, n: nat)
    requires d > 0 && Divides(d, n)
    ensures n % d == 0
  {
    var k: nat :| d * k == n;
    MulModZero(d, k);
  }

  lemma MulModZero(d: nat, k: nat)
    requires d > 0
    ensures (d * k) % d == 0
  {
    var x := d * k;
    var q, r := x / d, x % d;
    assert x == d * q + r;
    var e := k - q;
    assert d * e == r;
    if e > 0 {
      MulAtLeast(d, e);
    } else if e < 0 {
      MulAtLeast(d, -e);
    }
  }

  lemma MulAtLeast(d: nat, t: int)
    requires t >= 1
    ensures d * t >= d
  {
  }

  lemma DividesTrans(a: nat, b: nat, c: nat)
    requires Divides(a, b) && Divides(b, c)
    ensures Divides(a, c)
  {
    var j: nat :| a * j == b;
    var k: nat :| b * k == c;
    assert a * (j * k) == (a * j) * k;
  }

  lemma DividesLe(d: nat, n: nat)
    requires Divides(d, n) && n >= 1
    ensures d <= n
  {
    var k: nat :| d * k == n;
    MulMono(d, 1, d, k);
  }

  lemma DividesSelf(n: nat)
    ensures Divides(n, n) && Divides(n, 0)
  {
    assert n * 1 == n && n * 0 == 0;
  }

  /** Every n >= 2 has a prime divisor no larger than itself. */
  lemma {:induction false} PrimeFactorExists(n: nat) returns (q: nat)
    requires n >= 2
    ensures Prime(q) && q <= n && Divides(q, n)
    decreases n
  {
    if Prime(n) {
      DividesSelf(n);
      q := n;
    } else {
      var d :| 2 <= d < n && n % d == 0;
      DividesFromMod(d, n);
      q := PrimeFactorExists(d);
      DividesTrans(q, d, n);
    }
  }

  /** A number all of whose prime divisors exceed `b`, and which is below (b+1)², is prime. */
  lemma PrimeIfNoSmallFactor(m: nat, b: nat)
    requires m >= 2 && m < (b + 1) * (b + 1)
    requires forall q: nat :: Prime(q) && Divides(q, m) ==> q > b
    ensures Prime(m)
  {
    if !Prime(m) {
      var d :| 2 <= d < m && m % d == 0;
      var e := Cofactor(m, d);
      var q1 := PrimeFactorExists(d);
      var q2 := PrimeFactorExists(e);
      DividesTrans(q1, d, m);
      DividesTrans(q2, e, m);
      MulMono(b + 1, b + 1, d, e);
      assert false;
    }
  }

  lemma Cofactor(m: nat, d: nat) returns (e: nat)
    requires 2 <= d < m && m % d == 0
    ensures d * e == m && e >= 2 && Divides(d, m) && Divides(e, m)
  {
    e := m / d;
    assert d * e == m && e * d == m;
    if e <= 1 {
      MulMono(d, e, d, 1);
      assert false;
    }
  }

  // ---------------------------------------------------------------------------
  // Integer square root

  /** `(n as f64).sqrt() as u32`: the floor of the square root, which the f64
      computation yields exactly for every u32 argument. */
  function Isqrt(n: nat): (r: nat)
    ensures r * r <= n < (r + 1) * (r + 1)
  {
    if n == 0 then 0
    else
      var s := Isqrt(n - 1);
      if (s + 1) * (s + 1) <= n then
        assert (s + 1) * (s + 1) < (s + 2) * (s + 2) by { MulMono(s + 1, s + 1, s + 2, s + 2); }
        s + 1
      else s
  }

  lemma IsqrtBelow(n: nat)
    requires n >= 3
    ensures Isqrt(n) + 1 < n
  {
    var r := Isqrt(n);
    if r + 1 >= n {
      MulMono(2, r, r, r);
      assert false;
    }
  }

  // ---------------------------------------------------------------------------
  // get_primes_number

  /** What get_primes_number(limit) collects: 2, then every odd prime up to `limit`
      in increasing order. */
  function PrimeList(limit: nat): (ps: seq<nat>)
    ensures forall p :: p in ps ==> p >= 2
    ensures forall j :: 0 <= j < |ps| ==> ps[j] >= 2
  {
    if limit < 3 then [2]
    else PrimeList(limit - 1) + (if limit % 2 == 1 && Prime(limit) then [limit] else [])
  }

  /** The list always starts with 2, even when limit < 2, and holds exactly 2 and the
      primes up to `limit`. */
  lemma {:induction false} PrimeListMembers(limit: nat)
    ensures |PrimeList(limit)| >= 1 && PrimeList(limit)[0] == 2
    ensures forall p: nat :: p in PrimeList(limit) <==> p == 2 || (Prime(p) && p <= limit)
  {
    if limit >= 3 {
      PrimeListMembers(limit - 1);
      if Prime(limit) {
        assert limit % 2 != 0;
      }
    }
  }

  /** The list is strictly ascending. */
  lemma {:induction false} PrimeListAscending(limit: nat)
    ensures Ascending(PrimeList(limit))
  {
    if limit >= 3 {
      PrimeListAscending(limit - 1);
      PrimeListMembers(limit - 1);
      var ps := PrimeList(limit - 1);
      forall i | 0 <= i < |ps|
        ensures ps[i] < limit
      {
        assert ps[i] in ps;
      }
    }
  }

  /** An odd c >= 3 is prime exactly when no element of PrimeList(c - 1) divides it:
      the test the inner loop of get_primes_number performs. */
  lemma TrialDivisionDecides(c: nat)
    requires c >= 3 && c % 2 == 1
    ensures Prime(c) <==> forall p :: p in PrimeList(c - 1) ==> c % p != 0
  {
    PrimeListMembers(c - 1);
    if !Prime(c) {
      var d :| 2 <= d < c && c % d == 0;
      DividesFromMod(d, c);
      var q := PrimeFactorExists(d);
      DividesTrans(q, d, c);
      ModFromDivides(q, c);
      assert q in PrimeList(c - 1);
    }
  }

  /** get_primes_number: trial division of each odd candidate 3, 5, ... up to `limit`
      by the primes found so far. */
  method GetPrimesNumber(limit: nat) returns (primes: seq<nat>)
    ensures primes == PrimeList(limit)
  {
    primes := [2];
    var counter := 3;
    while counter <= limit
      invariant 3 <= counter && counter % 2 == 1
      invariant counter <= limit + 2 || counter == 3
      invariant primes == PrimeList(counter - 1)
    {
      var isPrime := true;
      var j := 0;
      while j < |primes| && isPrime
        invariant 0 <= j <= |primes|
        invariant isPrime <==> forall q :: 0 <= q < j ==> counter % primes[q] != 0
      {
        if counter % primes[j] == 0 {
          isPrime := false;  // the source leaves the loop with `break` here
        }
        j := j + 1;
      }
      TrialLoopDecides(counter, primes, isPrime, j);
      if isPrime {
        primes := primes + [counter];
      }
      PrimeListEven(counter + 1);
      OddStep(counter);
      counter := counter + 2;
    }
    PrimeListDone(counter, limit);
  }

  /** What the inner loop of get_primes_number concludes about the candidate c: the
      list grows by c exactly when no listed prime divides c. */
  lemma TrialLoopDecides(c: nat, primes: seq<nat>, isPrime: bool, j: nat)
    requires c >= 3 && c % 2 == 1 && primes == PrimeList(c - 1)
    requires j <= |primes|
    requires isPrime <==> forall q :: 0 <= q < j ==> c % primes[q] != 0
    requires isPrime ==> j == |primes|
    ensures isPrime <==> Prime(c)
    ensures PrimeList(c) == primes + (if isPrime then [c] else [])
  {
    TrialDivisionDecides(c);
    if !isPrime {
      var q :| 0 <= q < j && c % primes[q] == 0;
      assert primes[q] in PrimeList(c - 1);
    } else {
      forall p | p in primes
        ensures c % p != 0
      {
        var q :| 0 <= q < |primes| && primes[q] == p;
      }
    }
  }

  lemma OddStep(c: nat)
    requires c % 2 == 1
    ensures (c + 1) % 2 == 0 && (c + 2) % 2 == 1
  {
  }

  /** An even bound adds nothing to the list. */
  lemma PrimeListEven(c: nat)
    requires c >= 4 && c % 2 == 0
    ensures PrimeList(c) == PrimeList(c - 1)
  {
  }

  /** When the candidate passes the limit the list built so far is PrimeList(limit). */
  lemma PrimeListDone(counter: nat, limit: nat)
    requires 3 <= counter && counter % 2 == 1 && counter > limit
    requires counter <= limit + 2 || counter == 3
    ensures PrimeList(counter - 1) == PrimeList(limit)
  {
    if counter - 1 != limit && counter > 3 {
      assert counter - 1 == limit + 1;
      PrimeListEven(counter - 1);
    }
  }

  // ---------------------------------------------------------------------------
  // is_prime

  /** is_prime as written: after the small cases it asks whether n itself occurs in
      the prime list up to ⌊√n⌋ + 1. A true answer is never wrong. */
  function IsPrime(n: nat): (r: bool)
    ensures r ==> Prime(n)
    ensures n < 2 ==> !r
    ensures n > 2 && n % 2 == 0 ==> !r
  {
    if n < 2 then false
    else if n == 2 then true
    else if n % 2 == 0 then false
    else
      PrimeListMembers(Isqrt(n) + 1);
      n in PrimeList(Isqrt(n) + 1)
  }

  /** As written, is_prime holds for 2 and for nothing else: the list stops at
      ⌊√n⌋ + 1 < n, so it never contains an odd n >= 3. */
  lemma IsPrimeOnlyTwo(n: nat)
    ensures IsPrime(n) <==> n == 2
  {
    if n >= 3 && n % 2 == 1 {
      IsqrtBelow(n);
      PrimeListMembers(Isqrt(n) + 1);
    }
  }

  /** is_prime as evidently intended: trial division by the primes up to ⌊√n⌋ + 1. */
  function IsPrimeFixed(n: nat): (r: bool)
    ensures r <==> Prime(n)
  {
    if n < 2 then false
    else if n == 2 then true
    else if n % 2 == 0 then false
    else
      var r := forall p :: p in PrimeList(Isqrt(n) + 1) ==> n % p != 0;
      IsPrimeFixedCorrect(n, r);
      r
  }

  lemma IsPrimeFixedCorrect(n: nat, r: bool)
    requires n >= 3 && n % 2 == 1
    requires r == forall p :: p in PrimeList(Isqrt(n) + 1) ==> n % p != 0
    ensures r <==> Prime(n)
  {
    var b := Isqrt(n) + 1;
    PrimeListMembers(b);
    IsqrtBelow(n);
    if r {
      forall q: nat | Prime(q) && Divides(q, n)
        ensures q > b
      {
        ModFromDivides(q, n);
      }
      MulMono(Isqrt(n) + 1, Isqrt(n) + 1, b + 1, b + 1);
      PrimeIfNoSmallFactor(n, b);
    }
  }

  // ---------------------------------------------------------------------------
  // factorize

  /** The loop of factorize from candidate index i on: divide n by ps[i] for as long as
      it divides, then move on to ps[i + 1]. Returns the factors found and the cofactor
      that is left. */
  function TrialDivide(n: nat, ps: seq<nat>, i: nat): (seq<nat>, nat)
    requires n >= 1 && i <= |ps|
    requires forall j :: 0 <= j < |ps| ==> ps[j] >= 2
    decreases |ps| - i, n
  {
    if i == |ps| then ([], n)
    else if n % ps[i] == 0 then
      QuotientBounds(n, ps[i]);
      var r := TrialDivide(n / ps[i], ps, i);
      ([ps[i]] + r.0, r.1)
    else TrialDivide(n, ps, i + 1)
  }

  lemma QuotientBounds(n: nat, p: nat)
    requires n >= 1 && p >= 2 && n % p == 0
    ensures 1 <= n / p < n
  {
    assert p * (n / p) == n;
    if n / p == 0 {
      assert false;
    }
    MulMono(2, n / p, p, n / p);
  }

  /** A divisor m of n (n = f·m) is not divisible by a p that does not divide n. */
  lemma CofactorKeepsNonDivisor(f: nat, m: nat, n: nat, p: nat)
    requires f * m == n && p >= 2 && n % p != 0
    ensures m % p != 0
  {
    if m % p == 0 {
      DividesFromMod(p, m);
      DividesProduct(f, m, n);
      DividesTrans(p, m, n);
      ModFromDivides(p, n);
    }
  }

  /** Both factors of a product divide it. */
  lemma DividesProduct(a: nat, b: nat, n: nat)
    requires a * b == n
    ensures Divides(a, n) && Divides(b, n)
  {
    assert b * a == n;
  }

  /** One division step of trial division, multiplied back out. */
  lemma ProductPrepend(p: nat, f: seq<nat>, m: nat, n: nat)
    requires p >= 2 && n % p == 0 && Product(f) * m == n / p
    ensures Product([p] + f) * m == n
  {
    assert ([p] + f)[1..] == f;
    assert p * (n / p) == n;
    assert (p * Product(f)) * m == p * (Product(f) * m);
  }

  /** The factors multiply, with the cofactor, back to n; every factor is a candidate;
      no candidate from index i on divides the cofactor. */
  lemma {:induction false} TrialDivideFacts(n: nat, ps: seq<nat>, i: nat)
    requires n >= 1 && i <= |ps|
    requires forall j :: 0 <= j < |ps| ==> ps[j] >= 2
    ensures Product(TrialDivide(n, ps, i).0) * TrialDivide(n, ps, i).1 == n
    ensures TrialDivide(n, ps, i).1 >= 1
    ensures forall x :: x in TrialDivide(n, ps, i).0 ==> x in ps
    ensures forall j :: i <= j < |ps| ==> TrialDivide(n, ps, i).1 % ps[j] != 0
    decreases |ps| - i, n
  {
    if i == |ps| {
    } else if n % ps[i] == 0 {
      QuotientBounds(n, ps[i]);
      TrialDivideFacts(n / ps[i], ps, i);
      var r := TrialDivide(n / ps[i], ps, i);
      ProductPrepend(ps[i], r.0, r.1, n);
    } else {
      TrialDivideFacts(n, ps, i + 1);
      var r := TrialDivide(n, ps, i + 1);
      CofactorKeepsNonDivisor(Product(r.0), r.1, n, ps[i]);
    }
  }

  /** With ascending candidates the factors come out non-decreasing, none below ps[i]. */
  lemma {:induction false} TrialDivideSorted(n: nat, ps: seq<nat>, i: nat)
    requires n >= 1 && i <= |ps|
    requires forall j :: 0 <= j < |ps| ==> ps[j] >= 2
    requires Ascending(ps)
    ensures NonDecreasing(TrialDivide(n, ps, i).0)
    ensures forall x :: x in TrialDivide(n, ps, i).0 ==> i < |ps| && x >= ps[i]
    decreases |ps| - i, n
  {
    if i == |ps| {
    } else if n % ps[i] == 0 {
      var p := ps[i];
      QuotientBounds(n, p);
      TrialDivideSorted(n / p, ps, i);
      var f := TrialDivide(n / p, ps, i).0;
      assert TrialDivide(n, ps, i).0 == [p] + f;
      forall a, b | 0 <= a < b < |[p] + f|
        ensures ([p] + f)[a] <= ([p] + f)[b]
      {
        assert ([p] + f)[b] == f[b - 1] && f[b - 1] in f;
        if a > 0 {
          assert ([p] + f)[a] == f[a - 1];
        }
      }
    } else {
      TrialDivideSorted(n, ps, i + 1);
      if i + 1 < |ps| {
        assert ps[i] < ps[i + 1];
      }
    }
  }

  /** The factors that factorize(n) returns. */
  function Factors(n: nat): seq<nat>
    requires n >= 1
  {
    TrialDivide(n, PrimeList(Isqrt(n) + 1), 0).0
  }

  /** The cofactor that factorize(n) leaves undivided and does not report. */
  function Leftover(n: nat): nat
    requires n >= 1
  {
    TrialDivide(n, PrimeList(Isqrt(n) + 1), 0).1
  }

  /** factorize: the primes up to ⌊√n⌋ + 1, each divided out for as long as it divides. */
  method Factorize(n: nat) returns (factors: seq<nat>)
    requires n >= 1  // factorize(0) never returns: 0 % 2 == 0 at every step
    ensures factors == Factors(n)
  {
    var primes := GetPrimesNumber(Isqrt(n) + 1);
    factors := [];
    var m := n;
    var i := 0;
    while i < |primes|
      invariant 0 <= i <= |primes| && m >= 1
      invariant factors + TrialDivide(m, primes, i).0 == TrialDivide(n, primes, 0).0
      invariant TrialDivide(m, primes, i).1 == TrialDivide(n, primes, 0).1
    {
      var p := primes[i];
      while m % p == 0
        invariant m >= 1
        invariant factors + TrialDivide(m, primes, i).0 == TrialDivide(n, primes, 0).0
        invariant TrialDivide(m, primes, i).1 == TrialDivide(n, primes, 0).1
        decreases m
      {
        TrialDivideDivides(m, primes, i);
        assert factors + [p] + TrialDivide(m / p, primes, i).0 == factors + TrialDivide(m, primes, i).0;
        factors := factors + [p];
        m := m / p;
      }
      TrialDivideSkips(m, primes, i);
      i := i + 1;
    }
  }

  /** One step of TrialDivide when the current prime divides: it is reported once and the
      quotient is divided further. */
  lemma TrialDivideDivides(m: nat, ps: seq<nat>, i: nat)
    requires m >= 1 && i < |ps| && forall j :: 0 <= j < |ps| ==> ps[j] >= 2
    requires m % ps[i] == 0
    ensures 1 <= m / ps[i] < m
    ensures TrialDivide(m, ps, i).0 == [ps[i]] + TrialDivide(m / ps[i], ps, i).0
    ensures TrialDivide(m, ps, i).1 == TrialDivide(m / ps[i], ps, i).1
  {
    QuotientBounds(m, ps[i]);
  }

  /** One step of TrialDivide when the current prime does not divide: move to the next. */
  lemma TrialDivideSkips(m: nat, ps: seq<nat>, i: nat)
    requires m >= 1 && i < |ps| && forall j :: 0 <= j < |ps| ==> ps[j] >= 2
    requires m % ps[i] != 0
    ensures TrialDivide(m, ps, i) == TrialDivide(m, ps, i + 1)
  {
  }

  /** For n >= 1, factorize(n) is a non-decreasing list of primes whose product times the
      dropped cofactor is n; the cofactor is 1 or a single prime above ⌊√n⌋ + 1. */
  lemma FactorsCorrect(n: nat)
    requires n >= 1
    ensures forall f :: f in Factors(n) ==> Prime(f) && f <= Isqrt(n) + 1
    ensures NonDecreasing(Factors(n))
    ensures Product(Factors(n)) * Leftover(n) == n
    ensures Leftover(n) == 1 || (Prime(Leftover(n)) && Leftover(n) > Isqrt(n) + 1)
  {
    var b := Isqrt(n) + 1;
    var ps := PrimeList(b);
    PrimeListMembers(b);
    PrimeListAscending(b);
    TrialDivideFacts(n, ps, 0);
    TrialDivideSorted(n, ps, 0);
    var f := TrialDivide(n, ps, 0).0;
    var m := TrialDivide(n, ps, 0).1;
    DividesProduct(Product(f), m, n);
    forall q: nat | Prime(q) && q <= b
      ensures m % q != 0
    {
      var j :| 0 <= j < |ps| && ps[j] == q;
    }
    LeftoverIsPrime(n, m, b);
  }

  /** A divisor of n that no prime up to ⌊√n⌋ + 1 divides is 1 or a prime above that bound. */
  lemma LeftoverIsPrime(n: nat, m: nat, b: nat)
    requires n >= 1 && b == Isqrt(n) + 1 && m >= 1 && Divides(m, n)
    requires forall q: nat :: Prime(q) && q <= b ==> m % q != 0
    ensures m == 1 || (Prime(m) && m > b)
  {
    if m > 1 {
      DividesLe(m, n);
      forall q: nat | Prime(q) && Divides(q, m)
        ensures q > b
      {
        ModFromDivides(q, m);
      }
      MulMono(Isqrt(n) + 1, Isqrt(n) + 1, b + 1, b + 1);
      PrimeIfNoSmallFactor(m, b);
      DividesSelf(m);
    }
  }

  /** The factor lists of a prime and of twice a prime, for sizes held in variables. */
  lemma FactorsOfSevenAndFourteen(n: nat)
    requires n == 7 || n == 14
    ensures Factors(n) == if n == 7 then [] else [2]
  {
    FactorizeExamples();
  }

  /** Two sizes the factorisation handles completely. */
  lemma FactorizeCompleteExamples()
    ensures Factors(2) == [2] && Leftover(2) == 1
    ensures Factors(6) == [2, 3] && Leftover(6) == 1
  {
    IsqrtIs(2, 1);
    IsqrtIs(6, 2);
    PrimeListSmall();
    TrialDivideSmall();
    assert TrialDivide(2, [2], 0) == ([2], 1);
  }

  lemma IsqrtIs(n: nat, r: nat)
    requires r * r <= n < (r + 1) * (r + 1)
    ensures Isqrt(n) == r
  {
    var s := Isqrt(n);
    if s < r {
      MulMono(s + 1, s + 1, r, r);
    } else if s > r {
      MulMono(r + 1, r + 1, s, s);
    }
  }

  lemma PrimeListSmall()
    ensures PrimeList(2) == [2] && PrimeList(3) == [2, 3] && PrimeList(4) == [2, 3]
  {
    assert Prime(3);
  }

  lemma TrialDivideSmall()
    ensures TrialDivide(1, [2], 0) == ([], 1)
    ensures TrialDivide(7, [2, 3], 0) == ([], 7)
    ensures TrialDivide(12, [2, 3], 0) == ([2, 2, 3], 1)
    ensures TrialDivide(14, [2, 3], 0) == ([2], 7)
    ensures TrialDivide(6, [2, 3], 0) == ([2, 3], 1)
  {
    assert [3] + [] == [3] && [2] + [3] == [2, 3] && [2] + [2, 3] == [2, 2, 3] && [2] + [] == [2];
    assert TrialDivide(1, [2, 3], 1) == ([], 1);
    assert TrialDivide(3, [2, 3], 1) == ([3], 1);
    assert TrialDivide(3, [2, 3], 0) == ([3], 1);
    assert TrialDivide(6, [2, 3], 0) == ([2, 3], 1);
    assert TrialDivide(7, [2, 3], 0) == ([], 7);
  }

  /** factorize(12) = [2, 2, 3] and factorize(1) = [], but factorize(7) = [] and
      factorize(14) = [2]: the prime 7 is left over and dropped. */
  lemma FactorizeExamples()
    ensures Factors(1) == [] && Leftover(1) == 1
    ensures Factors(12) == [2, 2, 3] && Leftover(12) == 1
    ensures Factors(7) == [] && Leftover(7) == 7
    ensures Factors(14) == [2] && Leftover(14) == 7
  {
    IsqrtIs(1, 1);
    IsqrtIs(7, 2);
    IsqrtIs(12, 3);
    IsqrtIs(14, 3);
    PrimeListSmall();
    TrialDivideSmall();
  }

  /** factorize as evidently intended: the dropped cofactor is appended as the last
      factor, so the product is exactly n. */
  function FactorizeFixed(n: nat): (r: seq<nat>)
    requires n >= 1
    ensures Product(r) == n
    ensures forall f :: f in r ==> Prime(f)
    ensures NonDecreasing(r)
  {
    FactorsCorrect(n);
    var f := Factors(n);
    var m := Leftover(n);
    if m > 1 then
      AppendCofactor(f, m, n, Isqrt(n) + 1);
      f + [m]
    else
      f
  }

  /** Appending the cofactor, a prime above every factor, completes the factorization. */
  lemma AppendCofactor(f: seq<nat>, m: nat, n: nat, b: nat)
    requires forall x :: x in f ==> Prime(x) && x <= b
    requires NonDecreasing(f) && Product(f) * m == n
    requires Prime(m) && m > b
    ensures Product(f + [m]) == n
    ensures NonDecreasing(f + [m])
    ensures forall x :: x in f + [m] ==> Prime(x)
  {
    ProductAppend(f, m);
    var g := f + [m];
    forall i, j | 0 <= i < j < |g|
      ensures g[i] <= g[j]
    {
      assert g[i] == f[i] && f[i] in f;
      if j < |f| {
        assert g[j] == f[j];
      }
    }
  }

  lemma {:induction false} ProductAppend(s: seq<nat>, x: nat)
    ensures Product(s + [x]) == Product(s) * x
  {
    if s != [] {
      assert (s + [x])[1..] == s[1..] + [x];
      ProductAppend(s[1..], x);
      assert s[0] * (Product(s[1..]) * x) == (s[0] * Product(s[1..])) * x;
    }
  }

  // ---------------------------------------------------------------------------
  // gcd and lcm

  lemma DividesCombination(d: nat, x: nat, y: nat, q: nat)
    requires Divides(d, x) && Divides(d, y)
    ensures Divides(d, q * x + y)
  {
    var i: nat :| d * i == x;
    var j: nat :| d * j == y;
    assert d * (q * i + j) == q * (d * i) + d * j;
  }

  lemma DividesRemainder(d: nat, a: nat, b: nat)
    requires b > 0 && Divides(d, a) && Divides(d, b)
    ensures Divides(d, a % b)
  {
    var i: nat :| d * i == a;
    var j: nat :| d * j == b;
    var q := a / b;
    assert a == q * b + a % b;
    assert d * (q * j) == q * b;
    var e: int := i - q * j;
    assert d * e == d * i - d * (q * j);
    NonNegativeFactor(d, e);
    assert d * (e as nat) == a % b;
  }

  lemma NonNegativeFactor(d: nat, e: int)
    requires d > 0 && d * e >= 0
    ensures e >= 0
  {
  }

  lemma GcdStep(a: nat, b: nat, r: nat)
    requires b > 0
    requires Divides(r, b) && Divides(r, a % b)
    requires forall d :: Divides(d, b) && Divides(d, a % b) ==> Divides(d, r)
    ensures Divides(r, a) && Divides(r, b)
    ensures forall d :: Divides(d, a) && Divides(d, b) ==> Divides(d, r)
  {
    assert a == (a / b) * b + a % b;
    DividesCombination(r, b, a % b, a / b);
    forall d | Divides(d, a) && Divides(d, b)
      ensures Divides(d, r)
    {
      DividesRemainder(d, a, b);
    }
  }

  /** gcd: Euclid's recursion, which ends because the second argument strictly decreases.
      The result divides both arguments and every common divisor divides it. */
  function Gcd(a: nat, b: nat): (r: nat)
    ensures b == 0 ==> r == a
    ensures Divides(r, a) && Divides(r, b)
    ensures forall d :: Divides(d, a) && Divides(d, b) ==> Divides(d, r)
    decreases b
  {
    if b == 0 then
      DividesSelf(a);
      a
    else
      var r := Gcd(b, a % b);
      GcdStep(a, b, r);
      r
  }

  lemma MulDivCancel(g: nat, k: nat)
    requires g > 0
    ensures (g * k) / g == k
  {
    MulModZero(g, k);
    var x := (g * k) / g;
    assert g * x == g * k;
    if x < k {
      MulMono(g, x + 1, g, k);
    } else if x > k {
      MulMono(g, k + 1, g, x);
    }
  }

  /** lcm: `(a * b) / gcd(a, b)` on u32. The product overflows (a debug-build panic) when
      it exceeds u32, and lcm(0, 0) divides by zero; otherwise lcm · gcd = a · b and the
      result is a common multiple of a and b. */
  function Lcm(a: nat, b: nat): (r: Result<nat>)
    requires a <= U32_MAX && b <= U32_MAX
    ensures r == Err(ArithmeticOverflow) <==> a * b > U32_MAX
    ensures r == Err(DivisionByZero) <==> a == 0 && b == 0
    ensures r.Ok? ==> r.value * Gcd(a, b) == a * b && Divides(a, r.value) && Divides(b, r.value)
  {
    if a * b > U32_MAX then Err(ArithmeticOverflow)
    else
      var g := Gcd(a, b);
      if g == 0 then
        assert a == 0 && b == 0 by {
          var i: nat :| g * i == a;
          var j: nat :| g * j == b;
        }
        Err(DivisionByZero)
      else
        LcmFacts(a, b, g);
        Ok((a * b) / g)
  }

  lemma LcmFacts(a: nat, b: nat, g: nat)
    requires g > 0 && Divides(g, a) && Divides(g, b)
    ensures ((a * b) / g) * g == a * b
    ensures Divides(a, (a * b) / g) && Divides(b, (a * b) / g)
  {
    var i: nat :| g * i == a;
    var j: nat :| g * j == b;
    var l := i * b;
    MulRegroup(g, i, b);
    MulDivCancel(g, l);
    MulRegroup(g, j, i);
    assert a * j == l;
    assert b * i == l;
  }

  lemma MulRegroup(x: nat, y: nat, z: nat)
    ensures (x * y) * z == x * (y * z) == y * (x * z)
  {
  }
}
