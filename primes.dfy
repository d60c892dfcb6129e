/** is_prime (mul-encoder.c:1058-1070): it divides its argument by a fixed
    table of the 55 primes from 2 to 257 and answers at the first entry
    that divides it; when none does it aborts on assert(0).  The table is
    proved to hold exactly the primes up to 257, so on 2 .. 257 the answer
    is primality. */
module Primes {
  import opened Optional
  import opened Grid

  /** n is a prime number. */
  predicate IsPrimeNumber(n: int) {
    n >= 2 && forall d :: 2 <= d < n ==> n % d != 0
  }

  // The table of is_prime, in six pieces so that each piece can be checked
  // entry by entry.
  const Primes0: seq<int> := [2, 3, 5, 7, 11, 13, 17, 19, 23, 29]
  const Primes1: seq<int> := [31, 37, 41, 43, 47, 53, 59, 61, 67, 71]
  const Primes2: seq<int> := [73, 79, 83, 89, 97, 101, 103, 107, 109, 113]
  const Primes3: seq<int> := [127, 131, 137, 139, 149, 151, 157, 163, 167, 173]
  const Primes4: seq<int> := [179, 181, 191, 193, 197, 199, 211, 223, 227, 229]
  const Primes5: seq<int> := [233, 239, 241, 251, 257]

  /** prime55: the primes 2 .. 257 in increasing order. */
  const Primes55: seq<int> := Primes0 + Primes1 + Primes2 + Primes3 + Primes4 + Primes5

  /** n is not divisible by a prime below 17 other than itself. */
  predicate NoSmallFactor(n: int) {
    (n % 2 != 0 || n == 2) && (n % 3 != 0 || n == 3) && (n % 5 != 0 || n == 5) &&
    (n % 7 != 0 || n == 7) && (n % 11 != 0 || n == 11) && (n % 13 != 0 || n == 13)
  }

  /** n is divisible by a prime below 17. */
  predicate SmallFactor(n: int) {
    n % 2 == 0 || n % 3 == 0 || n % 5 == 0 || n % 7 == 0 || n % 11 == 0 || n % 13 == 0
  }

  /** Every entry lies in 2 .. 257 and has no small factor but itself. */
  predicate Sieved(c: seq<int>) {
    forall i :: 0 <= i < |c| ==> 2 <= c[i] <= 257 && NoSmallFactor(c[i])
  }

  lemma SievedLow() ensures Sieved(Primes0) && Sieved(Primes1) {}
  lemma SievedMiddle() ensures Sieved(Primes2) && Sieved(Primes3) {}
  lemma SievedHigh() ensures Sieved(Primes4) && Sieved(Primes5) {}

  lemma SievedAppend(a: seq<int>, b: seq<int>)
    requires Sieved(a) && Sieved(b)
    ensures Sieved(a + b)
  {
    forall i | 0 <= i < |a + b|
      ensures 2 <= (a + b)[i] <= 257 && NoSmallFactor((a + b)[i])
    {
      if i >= |a| {
        assert (a + b)[i] == b[i - |a|];
      }
    }
  }

  lemma TableLength()
    ensures |Primes55| == 55
  {
  }

  lemma TableSieved()
    ensures Sieved(Primes55)
  {
    SievedLow();
    SievedMiddle();
    SievedHigh();
    SievedAppend(Primes0, Primes1);
    SievedAppend(Primes0 + Primes1, Primes2);
    SievedAppend(Primes0 + Primes1 + Primes2, Primes3);
    SievedAppend(Primes0 + Primes1 + Primes2 + Primes3, Primes4);
    SievedAppend(Primes0 + Primes1 + Primes2 + Primes3 + Primes4, Primes5);
  }

  /** Every entry of the table is a prime between 2 and 257. */
  lemma TableEntryPrime(i: int)
    requires 0 <= i < |Primes55|
    ensures 2 <= Primes55[i] <= 257 && IsPrimeNumber(Primes55[i])
  {
    TableSieved();
    SmallFactorsSuffice(Primes55[i]);
  }

  // Below 289 = 17 * 17 a number without a small factor is prime.

  /** Every number from 2 to 16 has a prime factor below 17. */
  lemma SmallNumberFactor(e: nat) returns (f: nat)
    requires 2 <= e <= 16
    ensures f in {2, 3, 5, 7, 11, 13} && e % f == 0 && f <= e
  {
    f := if e % 2 == 0 then 2 else if e % 3 == 0 then 3 else if e % 5 == 0 then 5
      else if e % 7 == 0 then 7 else if e % 11 == 0 then 11 else 13;
  }

  /** A divisor of a divisor divides. */
  lemma DividesTransitive(n: nat, e: nat, o: nat, f: nat)
    requires f > 0 && n == e * o && e % f == 0
    ensures n % f == 0
  {
    DivMod(e, f);
    var g := e / f;
    assert n == (g * o) * f;
    ModUnique(n, f, g * o, 0);
  }

  /** Of two factors of a number below 289, one is at most 16. */
  lemma SmallerFactor(n: nat, a: nat, b: nat)
    requires n == a * b && n < 289
    ensures a <= 16 || b <= 16
  {
    if a > 16 && b > 16 {
      MulMonotone(17, a, b);
    }
  }

  lemma NotDivisible(n: nat, d: nat)
    requires 2 <= n < 289 && NoSmallFactor(n) && 2 <= d < n
    ensures n % d != 0
  {
    if n % d == 0 {
      DivMod(n, d);
      var q := n / d;
      assert n == q * d;
      var e, o := if d <= q then d else q, if d <= q then q else d;
      assert n == e * o;
      SmallerFactor(n, d, q);
      var f := SmallNumberFactor(e);
      DividesTransitive(n, e, o, f);
    }
  }

  lemma SmallFactorsSuffice(n: nat)
    requires 2 <= n < 289 && NoSmallFactor(n)
    ensures IsPrimeNumber(n)
  {
    forall d | 2 <= d < n
      ensures n % d != 0
    {
      NotDivisible(n, d);
    }
  }

  // The converse on the table's range: a number from 2 to 257 is in the
  // table or has a small factor.

  lemma Range0(n: int) requires 2 <= n <= 16 ensures n in Primes0 || SmallFactor(n) {}
  lemma Range1(n: int) requires 16 < n <= 30 ensures n in Primes0 || SmallFactor(n) {}
  lemma Range2(n: int) requires 30 < n <= 44 ensures n in Primes1 || SmallFactor(n) {}
  lemma Range3(n: int) requires 44 < n <= 58 ensures n in Primes1 || SmallFactor(n) {}
  lemma Range4(n: int) requires 58 < n <= 72 ensures n in Primes1 || SmallFactor(n) {}
  lemma Range5(n: int) requires 72 < n <= 81 ensures n in Primes2 || SmallFactor(n) {}
  lemma Range6(n: int) requires 81 < n <= 90 ensures n in Primes2 || SmallFactor(n) {}
  lemma Range7(n: int) requires 90 < n <= 108 ensures n in Primes2 || SmallFactor(n) {}
  lemma Range8(n: int) requires 108 < n <= 126 ensures n in Primes2 || SmallFactor(n) {}
  lemma Range9(n: int) requires 126 < n <= 140 ensures n in Primes3 || SmallFactor(n) {}
  lemma Range10(n: int) requires 140 < n <= 158 ensures n in Primes3 || SmallFactor(n) {}
  lemma Range11(n: int) requires 158 < n <= 178 ensures n in Primes3 || SmallFactor(n) {}
  lemma Range12(n: int) requires 178 < n <= 196 ensures n in Primes4 || SmallFactor(n) {}
  lemma Range13(n: int) requires 196 < n <= 214 ensures n in Primes4 || SmallFactor(n) {}
  lemma Range14(n: int) requires 214 < n <= 232 ensures n in Primes4 || SmallFactor(n) {}
  lemma Range15(n: int) requires 232 < n <= 245 ensures n in Primes5 || SmallFactor(n) {}
  lemma Range16(n: int) requires 245 < n <= 257 ensures n in Primes5 || SmallFactor(n) {}

  lemma TableOrSmallFactor(n: int)
    requires 2 <= n <= 257
    ensures n in Primes55 || SmallFactor(n)
  {
    if n <= 16 { Range0(n); }
    else if n <= 30 { Range1(n); }
    else if n <= 44 { Range2(n); }
    else if n <= 58 { Range3(n); }
    else if n <= 72 { Range4(n); }
    else if n <= 81 { Range5(n); }
    else if n <= 90 { Range6(n); }
    else if n <= 108 { Range7(n); }
    else if n <= 126 { Range8(n); }
    else if n <= 140 { Range9(n); }
    else if n <= 158 { Range10(n); }
    else if n <= 178 { Range11(n); }
    else if n <= 196 { Range12(n); }
    else if n <= 214 { Range13(n); }
    else if n <= 232 { Range14(n); }
    else if n <= 245 { Range15(n); }
    else { Range16(n); }
  }

  /** The table holds every prime up to 257. */
  lemma TableComplete(n: int)
    requires IsPrimeNumber(n) && n <= 257
    ensures n in Primes55
  {
    TableOrSmallFactor(n);
  }

  /** Every entry of a divisor table is at least 2. */
  predicate Divisors(tab: seq<int>) {
    forall j :: 0 <= j < |tab| ==> tab[j] >= 2
  }

  lemma TableDivisors()
    ensures Divisors(Primes55)
  {
    TableSieved();
  }

  // ---------------------------------------------------------------------
  // is_prime

  /** What the scan of a divisor table answers once entries 0 .. i - 1 have
      been tried and none divides w: Some(true) when the first entry that
      divides w is w itself, Some(false) when it is another one, and None
      when no entry divides w (is_prime then aborts on assert(0)). */
  function Scan(tab: seq<int>, w: int, i: nat): Option<bool>
    requires Divisors(tab) && i <= |tab|
    decreases |tab| - i
  {
    if i == |tab| then None
    else if w % tab[i] == 0 then Some(w == tab[i])
    else Scan(tab, w, i + 1)
  }

  /** The scan as the loop of is_prime. */
  method ScanTable(tab: seq<int>, w: int) returns (r: Option<bool>)
    requires Divisors(tab)
    ensures r == Scan(tab, w, 0)
  {
    var i := 0;
    while i < |tab|
      invariant 0 <= i <= |tab|
      invariant Scan(tab, w, i) == Scan(tab, w, 0)
    {
      if w % tab[i] == 0 {
        return Some(w == tab[i]);
      }
      i := i + 1;
    }
    return None;
  }

  /** is_prime's answer: the scan of prime55. */
  function PrimeAnswer(w: int): Option<bool> {
    TableDivisors();
    Scan(Primes55, w, 0)
  }

  /** is_prime(w). */
  method IsPrime(w: int) returns (r: Option<bool>)
    ensures r == PrimeAnswer(w)
  {
    TableDivisors();
    r := ScanTable(Primes55, w);
  }

  /** The scan aborts exactly when no entry from i on divides w. */
  lemma {:induction false} ScanAborts(tab: seq<int>, w: int, i: nat)
    requires Divisors(tab) && i <= |tab|
    ensures Scan(tab, w, i) == None <==> forall j :: i <= j < |tab| ==> w % tab[j] != 0
    decreases |tab| - i
  {
    if i < |tab| {
      ScanAborts(tab, w, i + 1);
    }
  }

  /** The scan answers Some(true) only for an entry of the table. */
  lemma {:induction false} ScanTrue(tab: seq<int>, w: int, i: nat)
    requires Divisors(tab) && i <= |tab| && Scan(tab, w, i) == Some(true)
    ensures w in tab[i..]
    decreases |tab| - i
  {
    if w % tab[i] != 0 {
      ScanTrue(tab, w, i + 1);
      assert tab[i + 1..] == tab[i..][1..];
    }
  }

  /** A prime that appears in the table from i on is answered Some(true):
      no earlier entry divides it. */
  lemma {:induction false} ScanFindsPrime(tab: seq<int>, w: int, i: nat)
    requires Divisors(tab) && IsPrimeNumber(w) && i <= |tab| && w in tab[i..]
    ensures Scan(tab, w, i) == Some(true)
    decreases |tab| - i
  {
    var p := tab[i];
    if w != p {
      assert w % p != 0 by {
        if p < w {
          assert 2 <= p < w;
        } else {
          assert 0 <= w < p;
        }
      }
      assert w in tab[i + 1..] by {
        assert tab[i..] == [p] + tab[i + 1..];
      }
      ScanFindsPrime(tab, w, i + 1);
    }
  }

  /** A number outside the table with a divisor at entry j >= i is
      answered Some(false). */
  lemma {:induction false} ScanFindsFactor(tab: seq<int>, w: int, i: nat, j: nat)
    requires Divisors(tab) && i <= j < |tab| && w % tab[j] == 0 && w !in tab
    ensures Scan(tab, w, i) == Some(false)
    decreases j - i
  {
    if w % tab[i] != 0 {
      ScanFindsFactor(tab, w, i + 1, j);
    }
  }

  /** is_prime answers Some(true) exactly for the entries of its table. */
  lemma IsPrimeTrue(w: int)
    ensures PrimeAnswer(w) == Some(true) <==> w in Primes55
  {
    TableDivisors();
    if PrimeAnswer(w) == Some(true) {
      ScanTrue(Primes55, w, 0);
    }
    if w in Primes55 {
      var j :| 0 <= j < |Primes55| && Primes55[j] == w;
      TableEntryPrime(j);
      ScanFindsPrime(Primes55, w, 0);
    }
  }

  /** On 2 .. 257 is_prime never aborts and answers whether w is prime. */
  lemma IsPrimeCorrect(w: int)
    requires 2 <= w <= 257
    ensures PrimeAnswer(w) == Some(IsPrimeNumber(w))
  {
    TableDivisors();
    if IsPrimeNumber(w) {
      TableComplete(w);
      ScanFindsPrime(Primes55, w, 0);
    } else {
      if w in Primes55 {
        var j :| 0 <= j < |Primes55| && Primes55[j] == w;
        TableEntryPrime(j);
      }
      TableOrSmallFactor(w);
      var j := SmallFactorEntry(w);
      ScanFindsFactor(Primes55, w, 0, j);
    }
  }

  /** The entry of the table that is a small factor of n. */
  lemma SmallFactorEntry(n: int) returns (j: nat)
    requires SmallFactor(n)
    ensures j < 6 && j < |Primes55| && n % Primes55[j] == 0
  {
    assert Primes55[0] == 2 && Primes55[1] == 3 && Primes55[2] == 5;
    assert Primes55[3] == 7 && Primes55[4] == 11 && Primes55[5] == 13;
    j := if n % 2 == 0 then 0 else if n % 3 == 0 then 1 else if n % 5 == 0 then 2
      else if n % 7 == 0 then 3 else if n % 11 == 0 then 4 else 5;
  }

  /** A prime beyond the table makes is_prime abort. */
  lemma LargePrimeAborts(w: int)
    requires IsPrimeNumber(w) && w > 257
    ensures PrimeAnswer(w) == None
  {
    TableSieved();
    forall j | 0 <= j < |Primes55|
      ensures w % Primes55[j] != 0
    {
      assert 2 <= Primes55[j] < w;
    }
    ScanAborts(Primes55, w, 0);
  }

  /** is_prime(0) is 0: 2 divides 0 and is not 0. */
  lemma ZeroIsNotPrime()
    ensures PrimeAnswer(0) == Some(false)
  {
    TableDivisors();
    assert Primes55[0] == 2;
  }

  /** is_prime(1) aborts: no entry divides 1. */
  lemma OneAborts()
    ensures PrimeAnswer(1) == None
  {
    TableDivisors();
    ScanOfOne(Primes55);
  }

  /** No divisor table has an entry that divides 1. */
  lemma ScanOfOne(tab: seq<int>)
    requires Divisors(tab)
    ensures Scan(tab, 1, 0) == None
  {
    ScanAborts(tab, 1, 0);
  }
}
