/** Snippets.java: the table of composites and the primality test that reads it. */
module Sieve {
  ghost predicate Divides(d: int, n: int) {
    exists k :: n == d * k
  }

  ghost predicate IsPrime(n: int) {
    n >= 2 && forall d :: 2 <= d < n ==> !Divides(d, n)
  }

  /** The table has a mark at i: a multiple of some j in 2..limit that is larger than j. */
  ghost predicate IsMarked(i: int, limit: int) {
    exists j :: 2 <= j < limit && j < i && Divides(j, i)
  }

  /** `isPrimeFast`. */
  predicate IsPrimeFast(table: array<int>, n: int)
    requires 0 <= n < table.Length
    reads table
  {
    table[n] == 0
  }

  /** The cells have a mark on exactly what the rounds before `limit` mark. */
  ghost predicate HasMarks(cells: seq<int>, limit: int) {
    forall i :: 0 <= i < |cells| ==> (cells[i] == 0 <==> !IsMarked(i, limit))
  }

  /** In the middle of round j: its multiples below i have their marks too. */
  ghost predicate HasMarksUpTo(cells: seq<int>, j: int, i: int) {
    forall m :: 0 <= m < |cells| ==> (cells[m] == 0 <==> !IsMarked(m, j) && !(j < m < i && Divides(j, m)))
  }

  lemma FreshHasMarks(cells: seq<int>)
    requires forall i :: 0 <= i < |cells| ==> cells[i] == 0
    ensures HasMarks(cells, 2)
  {
  }

  lemma RoundStarts(cells: seq<int>, j: int)
    requires HasMarks(cells, j) && j >= 2
    ensures HasMarksUpTo(cells, j, j * 2)
  {
    NoMultipleBetween(j, 1);
  }

  lemma RoundStep(cells: seq<int>, j: int, k: int)
    requires HasMarksUpTo(cells, j, j * k) && 2 <= j && 2 <= k && 0 <= j * k < |cells|
    ensures HasMarksUpTo(cells[j * k := 1], j, j * k + j)
  {
    var i := j * k;
    NoMultipleBetween(j, k);
    assert Divides(j, i) && j < i;
    hide Divides, IsMarked;
  }

  lemma RoundEnds(cells: seq<int>, j: int, i: int)
    requires HasMarksUpTo(cells, j, i) && j >= 2 && i >= |cells|
    ensures HasMarks(cells, j + 1)
  {
    forall m | 0 <= m < |cells| ensures cells[m] == 0 <==> !IsMarked(m, j + 1) {
      MarkedNext(m, j);
    }
  }

  lemma MarkedNext(m: int, j: int)
    requires j >= 2
    ensures IsMarked(m, j + 1) <==> IsMarked(m, j) || (j < m && Divides(j, m))
  {
    hide Divides;
  }

  lemma NoRoundsBelowTwo(cells: seq<int>, limit: int)
    requires HasMarks(cells, 2) && limit <= 2
    ensures HasMarks(cells, limit)
  {
    assert forall i :: IsMarked(i, 2) <==> IsMarked(i, limit);
  }

  /** What `preparePrimes` leaves in a fresh table. */
  ghost predicate IsPrepared(table: array<int>, limit: int)
    reads table
  {
    HasMarks(table[..], limit)
  }

  /** The fast test is right on the whole table. */
  ghost predicate FastTestIsExact(table: array<int>)
    reads table
  {
    forall n :: 2 <= n < table.Length ==> (IsPrimeFast(table, n) <==> IsPrime(n))
  }

  /** No prime from `limit` on has its square in the table. */
  ghost predicate NoSquareMissed(size: int, limit: int) {
    forall p :: limit <= p && IsPrime(p) ==> p * p >= size
  }

  /**
   * `preparePrimes` on a fresh table: afterwards the fast test holds for exactly the
   * primes of the table if and only if no prime from `limit` on has its square there.
   */
  method PreparePrimes(table: array<int>, limit: int)
    requires forall i :: 0 <= i < table.Length ==> table[i] == 0
    modifies table
    ensures IsPrepared(table, limit)
    ensures (forall n :: 2 <= n < table.Length ==> (IsPrimeFast(table, n) <==> IsPrime(n))) <==> NoSquareMissed(table.Length, limit)
    ensures limit >= 0 && limit * limit >= table.Length ==>
              forall n :: 2 <= n < table.Length ==> (IsPrimeFast(table, n) <==> IsPrime(n))
  {
    hide HasMarks, HasMarksUpTo;
    FreshHasMarks(table[..]);
    var j := 2;
    while j < limit
      invariant j >= 2 && (j > 2 ==> j <= limit)
      invariant HasMarks(table[..], j)
    {
      var i := j * 2;
      ghost var k := 2;
      RoundStarts(table[..], j);
      while i < table.Length
        invariant i == j * k && k >= 2
        invariant HasMarksUpTo(table[..], j, i)
        decreases table.Length - i
      {
        RoundStep(table[..], j, k);
        ghost var before := table[..];
        table[i] := 1;
        assert table[..] == before[i := 1];
        i := i + j;
        k := k + 1;
      }
      RoundEnds(table[..], j, i);
      j := j + 1;
    }
    if limit <= 2 {
      NoRoundsBelowTwo(table[..], limit);
    }
    FastTestIsExactIff(table, limit);
    if limit >= 0 && limit * limit >= table.Length {
      ExactFromSquareRoot(table, limit);
    }
  }

  lemma NoMultipleBetween(j: int, k: int)
    requires j >= 2
    ensures forall m :: j * k < m < j * (k + 1) ==> !Divides(j, m)
  {
    forall m | j * k < m < j * (k + 1) ensures !Divides(j, m) {
      if Divides(j, m) {
        var q :| m == j * q;
        MultiplesInOrder(j, q, k);
        MultiplesInOrder(j, k + 1, q);
      }
    }
  }

  lemma MultiplesInOrder(j: int, a: int, b: int)
    requires j >= 0
    ensures a <= b ==> j * a <= j * b
  {
  }

  /** A composite number has a prime divisor that is at most its square root. */
  lemma SmallPrimeDivisor(n: int) returns (p: int)
    requires n >= 2 && !IsPrime(n)
    ensures IsPrime(p) && Divides(p, n) && p < n && p * p <= n
  {
    p := 2;
    var divisor :| 2 <= divisor < n && Divides(divisor, n);
    hide Divides;
    while !Divides(p, n)
      invariant 2 <= p <= divisor
      invariant forall d :: 2 <= d < p ==> !Divides(d, n)
      decreases n - p
    {
      p := p + 1;
    }
    forall d | 2 <= d < p ensures !Divides(d, p) {
      if Divides(d, p) {
        DividesTransitive(d, p, n);
      }
    }
    LeastDivisorIsSmall(n, p);
  }

  lemma LeastDivisorIsSmall(n: int, p: int)
    requires 2 <= p < n && Divides(p, n)
    requires forall d :: 2 <= d < p ==> !Divides(d, n)
    ensures p * p <= n
  {
    var q :| n == p * q;
    Cofactor(n, p, q);
    if q < p {
      assert Divides(q, n);
      assert false;
    }
    MultiplesInOrder(p, p, q);
  }

  lemma Cofactor(n: int, p: int, q: int)
    requires 2 <= p < n && n == p * q
    ensures q >= 2 && n == q * p
  {
    MultiplesInOrder(p, q, 1);
  }

  lemma DividesTransitive(a: int, b: int, c: int)
    requires Divides(a, b) && Divides(b, c)
    ensures Divides(a, c)
  {
    var x :| b == a * x;
    var y :| c == b * y;
    assert c == a * (x * y);
  }

  /** A divisor of a prime's square that is below the prime is 1. */
  lemma DivisorOfPrimeSquare(p: int, j: int)
    requires IsPrime(p) && 1 <= j < p && Divides(j, p * p)
    ensures j == 1
  {
    assert Divides(j, j * p);
    var r := LeastMultiplier(j, p);
    LeastMultiplierDivides(j, p, r, p);
    assert r == 1;
    assert Divides(j, p);
  }

  /** The least r with j dividing r * p. */
  lemma LeastMultiplier(j: int, p: int) returns (r: int)
    requires j >= 1
    ensures 1 <= r <= j && Divides(j, r * p)
    ensures forall s :: 1 <= s < r ==> !Divides(j, s * p)
  {
    r := 1;
    assert Divides(j, j * p);
    while !Divides(j, r * p)
      invariant 1 <= r <= j
      invariant forall s :: 1 <= s < r ==> !Divides(j, s * p)
      decreases j - r
    {
      r := r + 1;
    }
  }

  lemma LeastMultiplierDivides(j: int, p: int, r: int, s: int)
    requires j >= 1 && 1 <= r && s >= 1
    requires Divides(j, r * p) && Divides(j, s * p)
    requires forall t :: 1 <= t < r ==> !Divides(j, t * p)
    ensures Divides(r, s)
  {
    var q, t := s / r, s % r;
    var x :| r * p == j * x;
    var y :| s * p == j * y;
    Remainder(j, p, r, q, t, x, y);
    assert Divides(j, t * p);
    assert t == 0;
    assert s == r * q;
  }

  lemma Remainder(j: int, p: int, r: int, q: int, t: int, x: int, y: int)
    requires r * p == j * x && (r * q + t) * p == j * y
    ensures t * p == j * (y - q * x)
  {
    assert (r * q + t) * p == q * (r * p) + t * p;
    assert q * (j * x) == j * (q * x);
  }

  /**
   * On a prepared table the fast test is exact precisely when no prime from `limit`
   * on has its square in the table.
   */
  lemma FastTestIsExactIff(table: array<int>, limit: int)
    requires IsPrepared(table, limit)
    ensures FastTestIsExact(table) <==> NoSquareMissed(table.Length, limit)
  {
    if NoSquareMissed(table.Length, limit) {
      forall n | 2 <= n < table.Length ensures IsPrimeFast(table, n) <==> IsPrime(n) {
        ExactAt(n, table.Length, limit);
      }
    } else {
      var p :| limit <= p && IsPrime(p) && p * p < table.Length;
      MissedSquare(p, limit);
      assert IsPrimeFast(table, p * p);
    }
  }

  /** In particular it is exact once limit * limit reaches the end of the table. */
  lemma ExactFromSquareRoot(table: array<int>, limit: int)
    requires IsPrepared(table, limit) && limit >= 0 && limit * limit >= table.Length
    ensures FastTestIsExact(table)
  {
    forall p | limit <= p && IsPrime(p) ensures p * p >= table.Length {
      MultiplesInOrder(limit, limit, p);
      MultiplesInOrder(p, limit, p);
    }
    FastTestIsExactIff(table, limit);
  }

  lemma ExactAt(n: int, size: int, limit: int)
    requires 2 <= n < size
    requires NoSquareMissed(size, limit)
    ensures !IsMarked(n, limit) <==> IsPrime(n)
  {
    if !IsPrime(n) {
      var p := SmallPrimeDivisor(n);
      assert p < limit;
    }
  }

  /** The square of an unsieved prime is taken for a prime. */
  lemma MissedSquare(p: int, limit: int)
    requires IsPrime(p) && limit <= p
    ensures !IsMarked(p * p, limit) && !IsPrime(p * p) && p * p >= 4
  {
    assert Divides(p, p * p);
    assert p < p * p;
    if IsMarked(p * p, limit) {
      var j :| 2 <= j < limit && j < p * p && Divides(j, p * p);
      DivisorOfPrimeSquare(p, j);
    }
  }
}
