// Where the numbers of SHA-256 come from, without the tables of the source
// (kernel/crypto/sha256.c): bits of the cube roots and the square roots of the
// first primes, sections 4.2.2 and 5.3.3 of FIPS 180-4.
//
// Constant 55 of the source is not the one of the standard.
module Sha256Roots {
  import opened Values
  import opened Primes
  import opened Sha256Spec

  function Cube(x: nat): nat { x * x * x }

  // x is the whole part of the cube root of p, 2^32 times as large.
  predicate IsCubeRoot(p: nat, x: nat) {
    Cube(x) <= p * (TWO32 * TWO32 * TWO32) < Cube(x + 1)
  }

  predicate CubeRootWith(p: nat, n: nat, k: bv32) {
    IsCubeRoot(p, n * TWO32 + k as nat)
  }

  // k is the first thirty-two bits of the fraction of the cube root of p.
  ghost predicate CubeRootBits(p: nat, k: bv32) {
    exists n: nat :: CubeRootWith(p, n, k)
  }

  function Square(x: nat): nat { x * x }

  predicate SquareRootWith(p: nat, n: nat, k: bv32) {
    Square(n * TWO32 + k as nat) <= p * (TWO32 * TWO32) < Square(n * TWO32 + k as nat + 1)
  }

  // k is the first thirty-two bits of the fraction of the square root of p.
  ghost predicate SquareRootBits(p: nat, k: bv32) {
    exists n: nat :: SquareRootWith(p, n, k)
  }

  lemma Cubes0(i: nat)
    requires 0 <= i < 8
    ensures CubeRootBits(Prime(i), K[i])
  {
    if i == 0 {
      assert CubeRootWith(2, 1, K[0]);
    } else if i == 1 {
      assert CubeRootWith(3, 1, K[1]);
    } else if i == 2 {
      assert CubeRootWith(5, 1, K[2]);
    } else if i == 3 {
      assert CubeRootWith(7, 1, K[3]);
    } else if i == 4 {
      assert CubeRootWith(11, 2, K[4]);
    } else if i == 5 {
      assert CubeRootWith(13, 2, K[5]);
    } else if i == 6 {
      assert CubeRootWith(17, 2, K[6]);
    } else {
      assert CubeRootWith(19, 2, K[7]);
    }
  }

  lemma Cubes1(i: nat)
    requires 8 <= i < 16
    ensures CubeRootBits(Prime(i), K[i])
  {
    if i == 8 {
      assert CubeRootWith(23, 2, K[8]);
    } else if i == 9 {
      assert CubeRootWith(29, 3, K[9]);
    } else if i == 10 {
      assert CubeRootWith(31, 3, K[10]);
    } else if i == 11 {
      assert CubeRootWith(37, 3, K[11]);
    } else if i == 12 {
      assert CubeRootWith(41, 3, K[12]);
    } else if i == 13 {
      assert CubeRootWith(43, 3, K[13]);
    } else if i == 14 {
      assert CubeRootWith(47, 3, K[14]);
    } else {
      assert CubeRootWith(53, 3, K[15]);
    }
  }

  lemma Cubes2(i: nat)
    requires 16 <= i < 24
    ensures CubeRootBits(Prime(i), K[i])
  {
    if i == 16 {
      assert CubeRootWith(59, 3, K[16]);
    } else if i == 17 {
      assert CubeRootWith(61, 3, K[17]);
    } else if i == 18 {
      assert CubeRootWith(67, 4, K[18]);
    } else if i == 19 {
      assert CubeRootWith(71, 4, K[19]);
    } else if i == 20 {
      assert CubeRootWith(73, 4, K[20]);
    } else if i == 21 {
      assert CubeRootWith(79, 4, K[21]);
    } else if i == 22 {
      assert CubeRootWith(83, 4, K[22]);
    } else {
      assert CubeRootWith(89, 4, K[23]);
    }
  }

  lemma Cubes3(i: nat)
    requires 24 <= i < 32
    ensures CubeRootBits(Prime(i), K[i])
  {
    if i == 24 {
      assert CubeRootWith(97, 4, K[24]);
    } else if i == 25 {
      assert CubeRootWith(101, 4, K[25]);
    } else if i == 26 {
      assert CubeRootWith(103, 4, K[26]);
    } else if i == 27 {
      assert CubeRootWith(107, 4, K[27]);
    } else if i == 28 {
      assert CubeRootWith(109, 4, K[28]);
    } else if i == 29 {
      assert CubeRootWith(113, 4, K[29]);
    } else if i == 30 {
      assert CubeRootWith(127, 5, K[30]);
    } else {
      assert CubeRootWith(131, 5, K[31]);
    }
  }

  lemma Cubes4(i: nat)
    requires 32 <= i < 40
    ensures CubeRootBits(Prime(i), K[i])
  {
    if i == 32 {
      assert CubeRootWith(137, 5, K[32]);
    } else if i == 33 {
      assert CubeRootWith(139, 5, K[33]);
    } else if i == 34 {
      assert CubeRootWith(149, 5, K[34]);
    } else if i == 35 {
      assert CubeRootWith(151, 5, K[35]);
    } else if i == 36 {
      assert CubeRootWith(157, 5, K[36]);
    } else if i == 37 {
      assert CubeRootWith(163, 5, K[37]);
    } else if i == 38 {
      assert CubeRootWith(167, 5, K[38]);
    } else {
      assert CubeRootWith(173, 5, K[39]);
    }
  }

  lemma Cubes5(i: nat)
    requires 40 <= i < 48
    ensures CubeRootBits(Prime(i), K[i])
  {
    if i == 40 {
      assert CubeRootWith(179, 5, K[40]);
    } else if i == 41 {
      assert CubeRootWith(181, 5, K[41]);
    } else if i == 42 {
      assert CubeRootWith(191, 5, K[42]);
    } else if i == 43 {
      assert CubeRootWith(193, 5, K[43]);
    } else if i == 44 {
      assert CubeRootWith(197, 5, K[44]);
    } else if i == 45 {
      assert CubeRootWith(199, 5, K[45]);
    } else if i == 46 {
      assert CubeRootWith(211, 5, K[46]);
    } else {
      assert CubeRootWith(223, 6, K[47]);
    }
  }

  lemma Cubes6(i: nat)
    requires 48 <= i < 56 && i != 55
    ensures CubeRootBits(Prime(i), K[i])
  {
    if i == 48 {
      assert CubeRootWith(227, 6, K[48]);
    } else if i == 49 {
      assert CubeRootWith(229, 6, K[49]);
    } else if i == 50 {
      assert CubeRootWith(233, 6, K[50]);
    } else if i == 51 {
      assert CubeRootWith(239, 6, K[51]);
    } else if i == 52 {
      assert CubeRootWith(241, 6, K[52]);
    } else if i == 53 {
      assert CubeRootWith(251, 6, K[53]);
    } else {
      assert CubeRootWith(257, 6, K[54]);
    }
  }

  lemma Cubes7(i: nat)
    requires 56 <= i < 64
    ensures CubeRootBits(Prime(i), K[i])
  {
    if i == 56 {
      assert CubeRootWith(269, 6, K[56]);
    } else if i == 57 {
      assert CubeRootWith(271, 6, K[57]);
    } else if i == 58 {
      assert CubeRootWith(277, 6, K[58]);
    } else if i == 59 {
      assert CubeRootWith(281, 6, K[59]);
    } else if i == 60 {
      assert CubeRootWith(283, 6, K[60]);
    } else if i == 61 {
      assert CubeRootWith(293, 6, K[61]);
    } else if i == 62 {
      assert CubeRootWith(307, 6, K[62]);
    } else {
      assert CubeRootWith(311, 6, K[63]);
    }
  }

  lemma Squares(i: nat)
    requires i < 8
    ensures SquareRootBits(Prime(i), INITIAL[i])
  {
    if i == 0 {
      assert SquareRootWith(2, 1, INITIAL[0]);
    } else if i == 1 {
      assert SquareRootWith(3, 1, INITIAL[1]);
    } else if i == 2 {
      assert SquareRootWith(5, 2, INITIAL[2]);
    } else if i == 3 {
      assert SquareRootWith(7, 2, INITIAL[3]);
    } else if i == 4 {
      assert SquareRootWith(11, 3, INITIAL[4]);
    } else if i == 5 {
      assert SquareRootWith(13, 3, INITIAL[5]);
    } else if i == 6 {
      assert SquareRootWith(17, 4, INITIAL[6]);
    } else {
      assert SquareRootWith(19, 4, INITIAL[7]);
    }
  }

  lemma CubeGrows(x: nat, y: nat)
    requires x <= y
    ensures Cube(x) <= Cube(y)
  {
    assert x * x <= y * y;
    assert x * x * x <= y * y * x <= y * y * y;
  }

  lemma CubeRootUnique(p: nat, x: nat, y: nat)
    requires IsCubeRoot(p, x) && IsCubeRoot(p, y)
    ensures x == y
  {
    if x < y {
      CubeGrows(x + 1, y);
    } else if y < x {
      CubeGrows(y + 1, x);
    }
  }

  // The cube root of the prime 263 begins 6 and 0x682e6ff3.
  lemma Constant55()
    ensures !CubeRootBits(263, 0x6f1c0e5b)
  {
    forall n: nat
      ensures !CubeRootWith(263, n, 0x6f1c0e5b)
    {
      if CubeRootWith(263, n, 0x6f1c0e5b) {
        CubeRootUnique(263, n * TWO32 + 0x6f1c0e5b, 0x6_682e6ff3);
        assert false;
      }
    }
  }

  // Section 4.2.2 of FIPS 180-4, for every constant of the source but one.
  lemma ConstantIsCubeRoot(i: nat, p: nat)
    requires i < 64 && NthPrime(i, p)
    ensures CubeRootBits(p, K[i]) <==> i != 55
  {
    NthPrimeIs(i, p);
    if i < 8 {
      Cubes0(i);
    } else if i < 16 {
      Cubes1(i);
    } else if i < 24 {
      Cubes2(i);
    } else if i < 32 {
      Cubes3(i);
    } else if i < 40 {
      Cubes4(i);
    } else if i < 48 {
      Cubes5(i);
    } else if i == 55 {
      Constant55();
      assert K[55] == 0x6f1c0e5b;
    } else if i < 56 {
      Cubes6(i);
    } else {
      Cubes7(i);
    }
  }

  // Section 5.3.3: every word of the initial hash value.
  lemma InitialIsSquareRoot(i: nat, p: nat)
    requires i < 8 && NthPrime(i, p)
    ensures SquareRootBits(p, INITIAL[i])
  {
    NthPrimeIs(i, p);
    Squares(i);
  }
}
