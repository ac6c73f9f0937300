// The first sixty-four primes, by counting: p is the i-th prime, from zero, when it
// is a prime with exactly i primes before it.  Below 324 a number is a prime
// exactly when no smaller one of the seven primes up to 17 divides it.
module Primes {
  import opened Bits

  predicate IsPrime(n: nat) {
    n >= 2 && forall d :: 2 <= d < n ==> n % d != 0
  }

  // The number of primes below n.
  function Before(n: nat): nat {
    if n == 0 then 0 else Before(n - 1) + if IsPrime(n - 1) then 1 else 0
  }

  predicate NthPrime(i: nat, p: nat) {
    IsPrime(p) && Before(p) == i
  }

  lemma {:induction false} BeforeGrows(m: nat, n: nat)
    requires m <= n
    ensures Before(m) <= Before(n)
  {
    if m < n {
      BeforeGrows(m, n - 1);
    }
  }

  // There is only one i-th prime.
  lemma NthPrimeUnique(i: nat, p: nat, q: nat)
    requires NthPrime(i, p) && NthPrime(i, q)
    ensures p == q
  {
    if p < q {
      BeforeGrows(p + 1, q);
    } else if q < p {
      BeforeGrows(q + 1, p);
    }
  }

  predicate Passes(n: nat) {
    && (n % 2 != 0 || n == 2) && (n % 3 != 0 || n == 3) && (n % 5 != 0 || n == 5) && (n % 7 != 0 || n == 7)
    && (n % 11 != 0 || n == 11) && (n % 13 != 0 || n == 13) && (n % 17 != 0 || n == 17)
  }

  lemma Multiple(q: nat, k: nat)
    requires q > 0
    ensures (q * k) % q == 0
  {
    DivUnique(q * k, q, k, 0);
  }

  // A divisor of a divisor divides.
  lemma DividesThrough(n: nat, m: nat, k: nat, q: nat)
    requires q > 0 && n == m * k && m % q == 0
    ensures n % q == 0
  {
    var j := m / q;
    assert m == q * j;
    assert n == q * (j * k);
    Multiple(q, j * k);
  }

  predicate Sieving(q: nat) {
    q == 2 || q == 3 || q == 5 || q == 7 || q == 11 || q == 13 || q == 17
  }

  lemma SomeFactor(m: nat) returns (q: nat)
    requires 2 <= m <= 17
    ensures Sieving(q) && q <= m && m % q == 0
  {
    q := if m % 2 == 0 then 2 else if m % 3 == 0 then 3 else m;
  }

  lemma FactorFails(n: nat, q: nat)
    requires Sieving(q) && q < n && n % q == 0
    ensures !Passes(n)
  {}

  lemma MultipleFails(n: nat, m: nat, k: nat)
    requires 2 <= m <= 17 && m < n && n == m * k
    ensures !Passes(n)
  {
    var q := SomeFactor(m);
    DividesThrough(n, m, k, q);
    FactorFails(n, q);
  }

  lemma DivisorFails(n: nat, d: nat)
    requires n < 324 && 2 <= d < n && n % d == 0
    ensures !Passes(n)
  {
    var k := n / d;
    assert n == d * k;
    if d <= 17 {
      MultipleFails(n, d, k);
    } else {
      Cofactor(n, d, k);
      MultipleFails(n, k, d);
    }
  }

  lemma MulGrows(d: nat, k: nat)
    requires d >= 18 && k >= 18
    ensures d * k >= 324
  {
    assert d * k >= 18 * k;
  }

  lemma Cofactor(n: nat, d: nat, k: nat)
    requires n < 324 && 18 <= d < n && n == d * k
    ensures 2 <= k <= 17
  {
    if k >= 18 {
      MulGrows(d, k);
      assert false;
    }
  }

  lemma PassesIsPrime(n: nat)
    requires 2 <= n < 324
    ensures Passes(n) <==> IsPrime(n)
  {
    if Passes(n) {
      forall d | 2 <= d < n
        ensures n % d != 0
      {
        if n % d == 0 {
          DivisorFails(n, d);
        }
      }
    }
  }

  predicate NonePass(n: nat, q: nat)
    decreases q - n
  {
    n >= q || (!Passes(n) && NonePass(n + 1, q))
  }

  lemma {:induction false} NoneBetween(n: nat, q: nat)
    requires 2 <= n <= q <= 324 && NonePass(n, q)
    ensures Before(q) == Before(n)
    decreases q - n
  {
    if n < q {
      PassesIsPrime(n);
      NoneBetween(n + 1, q);
    }
  }

  lemma Next(i: nat, p: nat, q: nat)
    requires NthPrime(i, p) && p < q < 324 && NonePass(p + 1, q) && Passes(q)
    ensures NthPrime(i + 1, q)
  {
    NoneBetween(p + 1, q);
    PassesIsPrime(q);
  }

  function Pick(i: nat, a: nat, b: nat, c: nat, d: nat, e: nat, f: nat, g: nat, h: nat): nat {
    if i == 0 then a else if i == 1 then b else if i == 2 then c else if i == 3 then d
    else if i == 4 then e else if i == 5 then f else if i == 6 then g else h
  }

  function Prime(i: nat): nat {
    if i < 32 then
      if i < 16 then
        if i < 8 then Pick(i, 2, 3, 5, 7, 11, 13, 17, 19)
        else Pick(i - 8, 23, 29, 31, 37, 41, 43, 47, 53)
      else
        if i < 24 then Pick(i - 16, 59, 61, 67, 71, 73, 79, 83, 89)
        else Pick(i - 24, 97, 101, 103, 107, 109, 113, 127, 131)
    else
      if i < 48 then
        if i < 40 then Pick(i - 32, 137, 139, 149, 151, 157, 163, 167, 173)
        else Pick(i - 40, 179, 181, 191, 193, 197, 199, 211, 223)
      else
        if i < 56 then Pick(i - 48, 227, 229, 233, 239, 241, 251, 257, 263)
        else Pick(i - 56, 269, 271, 277, 281, 283, 293, 307, 311)
  }

  // Nothing is missing between a prime of the list and the next.
  predicate NextTo(p: nat, q: nat) {
    p < q < 324 && NonePass(p + 1, q) && Passes(q)
  }

  lemma Row0(i: nat)
    requires 1 <= i < 8
    ensures NextTo(Prime(i - 1), Prime(i))
  {
    if i == 1 {
      assert NonePass(3, 3);
    } else if i == 2 {
      assert NonePass(4, 5);
    } else if i == 3 {
      assert NonePass(6, 7);
    } else if i == 4 {
      assert NonePass(8, 11);
    } else if i == 5 {
      assert NonePass(12, 13);
    } else if i == 6 {
      assert NonePass(14, 17);
    } else {
      assert NonePass(18, 19);
    }
  }

  lemma Row1(i: nat)
    requires 8 <= i < 16
    ensures NextTo(Prime(i - 1), Prime(i))
  {
    if i == 8 {
      assert NonePass(20, 23);
    } else if i == 9 {
      assert NonePass(24, 29);
    } else if i == 10 {
      assert NonePass(30, 31);
    } else if i == 11 {
      assert NonePass(32, 37);
    } else if i == 12 {
      assert NonePass(38, 41);
    } else if i == 13 {
      assert NonePass(42, 43);
    } else if i == 14 {
      assert NonePass(44, 47);
    } else {
      assert NonePass(48, 53);
    }
  }

  lemma Row2(i: nat)
    requires 16 <= i < 24
    ensures NextTo(Prime(i - 1), Prime(i))
  {
    if i == 16 {
      assert NonePass(54, 59);
    } else if i == 17 {
      assert NonePass(60, 61);
    } else if i == 18 {
      assert NonePass(62, 67);
    } else if i == 19 {
      assert NonePass(68, 71);
    } else if i == 20 {
      assert NonePass(72, 73);
    } else if i == 21 {
      assert NonePass(74, 79);
    } else if i == 22 {
      assert NonePass(80, 83);
    } else {
      assert NonePass(84, 89);
    }
  }

  lemma Row3(i: nat)
    requires 24 <= i < 32
    ensures NextTo(Prime(i - 1), Prime(i))
  {
    if i == 24 {
      assert NonePass(90, 97);
    } else if i == 25 {
      assert NonePass(98, 101);
    } else if i == 26 {
      assert NonePass(102, 103);
    } else if i == 27 {
      assert NonePass(104, 107);
    } else if i == 28 {
      assert NonePass(108, 109);
    } else if i == 29 {
      assert NonePass(110, 113);
    } else if i == 30 {
      assert NonePass(114, 127);
    } else {
      assert NonePass(128, 131);
    }
  }

  lemma Row4(i: nat)
    requires 32 <= i < 40
    ensures NextTo(Prime(i - 1), Prime(i))
  {
    if i == 32 {
      assert NonePass(132, 137);
    } else if i == 33 {
      assert NonePass(138, 139);
    } else if i == 34 {
      assert NonePass(140, 149);
    } else if i == 35 {
      assert NonePass(150, 151);
    } else if i == 36 {
      assert NonePass(152, 157);
    } else if i == 37 {
      assert NonePass(158, 163);
    } else if i == 38 {
      assert NonePass(164, 167);
    } else {
      assert NonePass(168, 173);
    }
  }

  lemma Row5(i: nat)
    requires 40 <= i < 48
    ensures NextTo(Prime(i - 1), Prime(i))
  {
    if i == 40 {
      assert NonePass(174, 179);
    } else if i == 41 {
      assert NonePass(180, 181);
    } else if i == 42 {
      assert NonePass(182, 191);
    } else if i == 43 {
      assert NonePass(192, 193);
    } else if i == 44 {
      assert NonePass(194, 197);
    } else if i == 45 {
      assert NonePass(198, 199);
    } else if i == 46 {
      assert NonePass(200, 211);
    } else {
      assert NonePass(212, 223);
    }
  }

  lemma Row6(i: nat)
    requires 48 <= i < 56
    ensures NextTo(Prime(i - 1), Prime(i))
  {
    if i == 48 {
      assert NonePass(224, 227);
    } else if i == 49 {
      assert NonePass(228, 229);
    } else if i == 50 {
      assert NonePass(230, 233);
    } else if i == 51 {
      assert NonePass(234, 239);
    } else if i == 52 {
      assert NonePass(240, 241);
    } else if i == 53 {
      assert NonePass(242, 251);
    } else if i == 54 {
      assert NonePass(252, 257);
    } else {
      assert NonePass(258, 263);
    }
  }

  lemma Row7(i: nat)
    requires 56 <= i < 64
    ensures NextTo(Prime(i - 1), Prime(i))
  {
    if i == 56 {
      assert NonePass(264, 269);
    } else if i == 57 {
      assert NonePass(270, 271);
    } else if i == 58 {
      assert NonePass(272, 277);
    } else if i == 59 {
      assert NonePass(278, 281);
    } else if i == 60 {
      assert NonePass(282, 283);
    } else if i == 61 {
      assert NonePass(284, 293);
    } else if i == 62 {
      assert NonePass(294, 307);
    } else {
      assert NonePass(308, 311);
    }
  }

  lemma PrimesAdjacent(i: nat)
    requires 1 <= i < 64
    ensures NextTo(Prime(i - 1), Prime(i))
  {
    if i < 8 {
      Row0(i);
    } else if i < 16 {
      Row1(i);
    } else if i < 24 {
      Row2(i);
    } else if i < 32 {
      Row3(i);
    } else if i < 40 {
      Row4(i);
    } else if i < 48 {
      Row5(i);
    } else if i < 56 {
      Row6(i);
    } else {
      Row7(i);
    }
  }

  lemma {:induction false} PrimeIsNth(i: nat)
    requires i < 64
    ensures NthPrime(i, Prime(i))
  {
    if i == 0 {
      assert Before(2) == Before(1) && Before(1) == Before(0);
    } else {
      PrimeIsNth(i - 1);
      PrimesAdjacent(i);
      Next(i - 1, Prime(i - 1), Prime(i));
    }
  }

  // The i-th prime is the one listed and no other.
  lemma NthPrimeIs(i: nat, p: nat)
    requires i < 64
    ensures NthPrime(i, p) <==> p == Prime(i)
  {
    PrimeIsNth(i);
    if NthPrime(i, p) {
      NthPrimeUnique(i, p, Prime(i));
    }
  }
}
