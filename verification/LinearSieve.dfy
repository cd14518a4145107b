/** get_primes of cpp/race/race_template.cpp: the linear sieve. */
module LinearSieve {
  import opened Divisibility
  import opened Sequences

  /** `primes` lists exactly the primes up to `m`, in increasing order. */
  ghost predicate PrimesUpTo(primes: seq<int>, m: int) {
    && Increasing(primes)
    && (forall k :: 0 <= k < |primes| ==> IsPrime(primes[k]) && primes[k] <= m)
    && (forall p :: IsPrime(p) && p <= m ==> p in primes)
  }

  /** One write check[n] = 1, made for the prime `prime`. */
  datatype Mark = Mark(n: int, prime: int)

  /** Composite `n` has its cofactor below `i`, or equal to `i` with a smallest prime factor below `b`. */
  ghost predicate Crossed(n: int, i: int, b: int) {
    n >= 2 && !IsPrime(n) && (n / Spf(n) < i || (n / Spf(n) == i && Spf(n) < b))
  }

  /** The writes so far: exactly the crossed numbers up to maxV, each once, by its smallest prime factor. */
  ghost predicate LogOk(log: seq<Mark>, maxV: int, i: int, b: int) {
    && (forall k :: 0 <= k < |log| ==> log[k].n <= maxV && Crossed(log[k].n, i, b) && log[k].prime == Spf(log[k].n))
    && (forall j, k :: 0 <= j < k < |log| ==> log[j].n != log[k].n)
    && (forall n :: 2 <= n <= maxV && Crossed(n, i, b) ==> Mark(n, Spf(n)) in log)
  }

  ghost predicate CheckOk(check: seq<int>, maxV: int, i: int, b: int) {
    && |check| == maxV + 1
    && (forall n :: 0 <= n <= maxV ==> (check[n] != 0 <==> n < 2 || Crossed(n, i, b)))
  }

  ghost predicate SieveOk(check: seq<int>, log: seq<Mark>, maxV: int, i: int, b: int) {
    CheckOk(check, maxV, i, b) && LogOk(log, maxV, i, b)
  }

  /** Nothing is crossed before the first round. */
  lemma Untouched(n: int)
    ensures !Crossed(n, 2, 0)
  {
    if n >= 2 && !IsPrime(n) {
      CompositeSplit(n);
    }
  }

  /** When the outer loop reaches i, i is crossed exactly when it is composite. */
  lemma ReachedIffComposite(i: int)
    requires i >= 2
    ensures Crossed(i, i, 0) <==> !IsPrime(i)
  {
    if !IsPrime(i) {
      CompositeSplit(i);
    }
  }

  /** Writing p * i extends what is crossed by exactly one number, not crossed before. */
  lemma CrossOne(p: int, i: int, b: int, n: int)
    requires i >= 2 && IsPrime(p) && b <= p <= Spf(i)
    requires forall q :: IsPrime(q) && b <= q ==> p <= q
    ensures p * i >= 2 && Spf(p * i) == p && !Crossed(p * i, i, b)
    ensures Crossed(n, i, p + 1) <==> Crossed(n, i, b) || n == p * i
  {
    SpfProduct(p, i);
    if n >= 2 && !IsPrime(n) {
      CompositeSplit(n);
      SpfPrime(n);
    }
  }

  /** Once every prime up to Spf(i), or up to the bound maxV / i, has been used, round i is complete. */
  lemma RoundComplete(i: int, b: int, maxV: int, n: int)
    requires i >= 2 && n <= maxV
    requires b > Spf(i) || forall q :: IsPrime(q) && b <= q ==> q * i > maxV
    ensures Crossed(n, i, b) <==> Crossed(n, i + 1, 0)
  {
    if n >= 2 && !IsPrime(n) {
      CompositeSplit(n);
      SpfPrime(n);
    }
  }

  /** The bound reached after the first `j` primes have been used. */
  function Used(primes: seq<int>, j: nat): int
    requires j <= |primes|
  {
    if j == 0 then 0 else primes[j - 1] + 1
  }

  lemma NextUnused(primes: seq<int>, m: int, j: nat, q: int)
    requires PrimesUpTo(primes, m) && j < |primes| && IsPrime(q) && Used(primes, j) <= q
    ensures primes[j] <= q
  {
    if q <= m {
      assert q in primes;
      var k :| 0 <= k < |primes| && primes[k] == q;
      assert k >= j;
    }
  }

  lemma AllUsed(primes: seq<int>, i: int)
    requires i >= 2 && PrimesUpTo(primes, i)
    ensures Spf(i) < Used(primes, |primes|)
  {
    SpfPrime(i);
    assert Spf(i) in primes;
    var k :| 0 <= k < |primes| && primes[k] == Spf(i);
  }

  lemma CheckCross(check: seq<int>, maxV: int, i: int, b: int, p: int)
    requires i >= 2 && IsPrime(p) && b <= p <= Spf(i) && 0 <= p * i <= maxV
    requires forall q :: IsPrime(q) && b <= q ==> p <= q
    requires CheckOk(check, maxV, i, b)
    ensures CheckOk(check[p * i := 1], maxV, i, p + 1)
  {
    var check' := check[p * i := 1];
    forall n | 0 <= n <= maxV ensures check'[n] != 0 <==> n < 2 || Crossed(n, i, p + 1) {
      CrossOne(p, i, b, n);
    }
  }

  lemma LogCross(log: seq<Mark>, maxV: int, i: int, b: int, p: int)
    requires i >= 2 && IsPrime(p) && b <= p <= Spf(i) && 0 <= p * i <= maxV
    requires forall q :: IsPrime(q) && b <= q ==> p <= q
    requires LogOk(log, maxV, i, b)
    ensures LogOk(log + [Mark(p * i, p)], maxV, i, p + 1)
  {
    var log' := log + [Mark(p * i, p)];
    CrossOne(p, i, b, p * i);
    forall k | 0 <= k < |log'|
      ensures log'[k].n <= maxV && Crossed(log'[k].n, i, p + 1) && log'[k].prime == Spf(log'[k].n)
    {
      CrossOne(p, i, b, log'[k].n);
    }
    forall n | 2 <= n <= maxV && Crossed(n, i, p + 1) ensures Mark(n, Spf(n)) in log' {
      CrossOne(p, i, b, n);
      assert log'[|log|] == Mark(p * i, p);
    }
  }

  lemma RoundDone(check: seq<int>, log: seq<Mark>, maxV: int, i: int, b: int)
    requires i >= 2 && SieveOk(check, log, maxV, i, b)
    requires b > Spf(i) || forall q :: IsPrime(q) && b <= q ==> q * i > maxV
    ensures SieveOk(check, log, maxV, i + 1, 0)
  {
    forall n | n <= maxV ensures Crossed(n, i, b) <==> Crossed(n, i + 1, 0) {
      RoundComplete(i, b, maxV, n);
    }
  }

  /** The inner loop: cross out p * i for the primes p up to the smallest prime factor of i. */
  method CrossMultiples(i: int, primes: seq<int>, check: array<int>, maxV: int, ghost before: seq<Mark>)
    returns (ghost log: seq<Mark>)
    requires 2 <= i <= maxV && PrimesUpTo(primes, i) && SieveOk(check[..], before, maxV, i, 0)
    modifies check
    ensures SieveOk(check[..], log, maxV, i + 1, 0)
  {
    log := before;
    var j := 0;
    while j < |primes|
      invariant 0 <= j <= |primes| && (j < |primes| ==> Used(primes, j) <= Spf(i))
      invariant SieveOk(check[..], log, maxV, i, Used(primes, j))
    {
      var p := primes[j];
      ghost var b := Used(primes, j);
      forall q | IsPrime(q) && b <= q ensures p <= q {
        NextUnused(primes, i, j, q);
      }
      if p * i > maxV {
        forall q | IsPrime(q) && b <= q ensures q * i > maxV {
          MulMonotone(p, q, i);
        }
        RoundDone(check[..], log, maxV, i, b);
        return;
      }
      SpfPrime(i);
      MulMonotone(2, p, i);
      CheckCross(check[..], maxV, i, b, p);
      LogCross(log, maxV, i, b, p);
      ghost var was := check[..];
      check[p * i] := 1;
      assert check[..] == was[p * i := 1];
      log := log + [Mark(p * i, p)];
      if i % p == 0 {
        SpfLeast(i, p);
        RoundDone(check[..], log, maxV, i, p + 1);
        return;
      }
      j := j + 1;
    }
    AllUsed(primes, i);
    RoundDone(check[..], log, maxV, i, Used(primes, j));
  }

  /**
   The list is exactly the primes up to maxV in increasing order, and the log of writes shows that every
   composite number up to maxV is marked exactly once, by its smallest prime factor, and nothing else is.
   */
  method GetPrimes(maxV: int) returns (primes: seq<int>, ghost log: seq<Mark>)
    requires maxV >= 1
    ensures PrimesUpTo(primes, maxV)
    ensures forall k :: 0 <= k < |log| ==> 2 <= log[k].n <= maxV && !IsPrime(log[k].n) && log[k].prime == Spf(log[k].n)
    ensures forall j, k :: 0 <= j < k < |log| ==> log[j].n != log[k].n
    ensures forall n :: 2 <= n <= maxV && !IsPrime(n) ==> Mark(n, Spf(n)) in log
  {
    primes, log := [], [];
    var check := new int[maxV + 1](_ => 0);
    check[0], check[1] := 1, 1;
    forall n ensures !Crossed(n, 2, 0) {
      Untouched(n);
    }
    for i := 2 to maxV + 1
      invariant PrimesUpTo(primes, i - 1) && SieveOk(check[..], log, maxV, i, 0)
    {
      ReachedIffComposite(i);
      assert check[..][i] == check[i];
      if check[i] == 0 {
        primes := primes + [i];
      }
      log := CrossMultiples(i, primes, check, maxV, log);
    }
    forall n | 2 <= n <= maxV && !IsPrime(n) ensures Mark(n, Spf(n)) in log {
      CompositeSplit(n);
    }
  }
}
