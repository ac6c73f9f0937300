// SHA-256 as FIPS 180-4 describes it, without the formulas of the source: the six
// functions of section 4.1.2 by their bits, the message schedule, and the
// compression as two sequences.  The source agrees with all of that; what its one
// wrong constant changes is at the end.
module Sha256Standard {
  import opened Values
  import opened Words
  import opened Primes
  import opened Sha256Spec
  import opened Sha256Stream
  import opened Sha256Roots

  // ------------------------------------------------------------------------
  // The functions, bit by bit
  // ------------------------------------------------------------------------

  // Ch takes y wherever x is set and z wherever it is clear; m is any set of places.
  lemma ChChooses(x: bv32, y: bv32, z: bv32, m: bv32)
    ensures x & m == m ==> Ch(x, y, z) & m == y & m
    ensures x & m == 0 ==> Ch(x, y, z) & m == z & m
  {}

  // Maj is what any two agree on.
  lemma MajAgrees(x: bv32, y: bv32, z: bv32, m: bv32)
    requires x & m == y & m
    ensures Maj(x, y, z) & m == x & m
  {
    var t := (x & y) ^ (x & z) ^ (y & z);
    assert t & m == ((x & m) & (y & m)) ^ ((x & m) & z) ^ ((y & m) & z);
  }

  lemma MajTurns(x: bv32, y: bv32, z: bv32)
    ensures Maj(x, y, z) == Maj(y, z, x)
  {}

  // Bit i of a word, the least significant first.
  function Bit(x: bv32, i: bv6): bv32
    requires i < 32
  {
    (x >> i) & 1
  }

  lemma BitXor(x: bv32, y: bv32, i: bv6)
    requires i < 32
    ensures Bit(x ^ y, i) == Bit(x, i) ^ Bit(y, i)
  {}

  lemma BitXor3(x: bv32, y: bv32, z: bv32, i: bv6, a: bv32, b: bv32, c: bv32)
    requires i < 32 && Bit(x, i) == a && Bit(y, i) == b && Bit(z, i) == c
    ensures Bit(x ^ y ^ z, i) == a ^ b ^ c
  {
    BitXor(x ^ y, z, i);
    BitXor(x, y, i);
  }

  lemma Rotr2Bit(x: bv32, i: bv6)
    requires i < 32
    ensures Bit(Rotr(x, 2), i) == Bit(x, (i + 2) % 32)
  {}

  lemma Rotr13Bit(x: bv32, i: bv6)
    requires i < 32
    ensures Bit(Rotr(x, 13), i) == Bit(x, (i + 13) % 32)
  {}

  lemma Rotr22Bit(x: bv32, i: bv6)
    requires i < 32
    ensures Bit(Rotr(x, 22), i) == Bit(x, (i + 22) % 32)
  {}

  lemma Rotr6Bit(x: bv32, i: bv6)
    requires i < 32
    ensures Bit(Rotr(x, 6), i) == Bit(x, (i + 6) % 32)
  {}

  lemma Rotr11Bit(x: bv32, i: bv6)
    requires i < 32
    ensures Bit(Rotr(x, 11), i) == Bit(x, (i + 11) % 32)
  {}

  lemma Rotr25Bit(x: bv32, i: bv6)
    requires i < 32
    ensures Bit(Rotr(x, 25), i) == Bit(x, (i + 25) % 32)
  {}

  lemma Rotr7Bit(x: bv32, i: bv6)
    requires i < 32
    ensures Bit(Rotr(x, 7), i) == Bit(x, (i + 7) % 32)
  {}

  lemma Rotr18Bit(x: bv32, i: bv6)
    requires i < 32
    ensures Bit(Rotr(x, 18), i) == Bit(x, (i + 18) % 32)
  {}

  lemma Rotr17Bit(x: bv32, i: bv6)
    requires i < 32
    ensures Bit(Rotr(x, 17), i) == Bit(x, (i + 17) % 32)
  {}

  lemma Rotr19Bit(x: bv32, i: bv6)
    requires i < 32
    ensures Bit(Rotr(x, 19), i) == Bit(x, (i + 19) % 32)
  {}

  lemma Shift3Bit(x: bv32, i: bv6)
    requires i < 32
    ensures Bit(x >> 3, i) == if i + 3 < 32 then Bit(x, i + 3) else 0
  {}

  lemma Shift10Bit(x: bv32, i: bv6)
    requires i < 32
    ensures Bit(x >> 10, i) == if i + 10 < 32 then Bit(x, i + 10) else 0
  {}

  lemma BigSigma0Bit(x: bv32, i: bv6)
    requires i < 32
    ensures Bit(BigSigma0(x), i) == Bit(x, (i + 2) % 32) ^ Bit(x, (i + 13) % 32) ^ Bit(x, (i + 22) % 32)
  {
    Rotr2Bit(x, i);
    Rotr13Bit(x, i);
    Rotr22Bit(x, i);
    BitXor3(Rotr(x, 2), Rotr(x, 13), Rotr(x, 22), i,
            Bit(x, (i + 2) % 32), Bit(x, (i + 13) % 32), Bit(x, (i + 22) % 32));
  }

  lemma BigSigma1Bit(x: bv32, i: bv6)
    requires i < 32
    ensures Bit(BigSigma1(x), i) == Bit(x, (i + 6) % 32) ^ Bit(x, (i + 11) % 32) ^ Bit(x, (i + 25) % 32)
  {
    Rotr6Bit(x, i);
    Rotr11Bit(x, i);
    Rotr25Bit(x, i);
    BitXor3(Rotr(x, 6), Rotr(x, 11), Rotr(x, 25), i,
            Bit(x, (i + 6) % 32), Bit(x, (i + 11) % 32), Bit(x, (i + 25) % 32));
  }

  lemma SmallSigma0Bit(x: bv32, i: bv6)
    requires i < 32
    ensures Bit(SmallSigma0(x), i)
         == Bit(x, (i + 7) % 32) ^ Bit(x, (i + 18) % 32) ^ (if i + 3 < 32 then Bit(x, i + 3) else 0)
  {
    Rotr7Bit(x, i);
    Rotr18Bit(x, i);
    Shift3Bit(x, i);
    BitXor3(Rotr(x, 7), Rotr(x, 18), x >> 3, i,
            Bit(x, (i + 7) % 32), Bit(x, (i + 18) % 32), if i + 3 < 32 then Bit(x, i + 3) else 0);
  }

  lemma SmallSigma1Bit(x: bv32, i: bv6)
    requires i < 32
    ensures Bit(SmallSigma1(x), i)
         == Bit(x, (i + 17) % 32) ^ Bit(x, (i + 19) % 32) ^ (if i + 10 < 32 then Bit(x, i + 10) else 0)
  {
    Rotr17Bit(x, i);
    Rotr19Bit(x, i);
    Shift10Bit(x, i);
    BitXor3(Rotr(x, 17), Rotr(x, 19), x >> 10, i,
            Bit(x, (i + 17) % 32), Bit(x, (i + 19) % 32), if i + 10 < 32 then Bit(x, i + 10) else 0);
  }

  // ------------------------------------------------------------------------
  // The message schedule
  // ------------------------------------------------------------------------

  // Section 6.2.2: the first sixteen words are the bytes of the chunk, in order,
  lemma ScheduleStart(block: Chunk, t: nat, r: nat)
    requires t < 16 && r < 4
    ensures WordByte(Word(block, t), r) == block[4 * t + r]
  {
    BytesOfWord(block[4 * t], block[4 * t + 1], block[4 * t + 2], block[4 * t + 3]);
  }

  // and every further one a sum of four before it.
  lemma ScheduleNext(block: Chunk, t: nat, a: bv32, b: bv32, c: bv32, d: bv32)
    requires 16 <= t
    requires a == Word(block, t - 16) && b == Word(block, t - 15) && c == Word(block, t - 7) && d == Word(block, t - 2)
    ensures Word(block, t) == Plus(Plus(Plus(SmallSigma1(d), c), SmallSigma0(b)), a)
  {}

  // ------------------------------------------------------------------------
  // The compression as two sequences
  // ------------------------------------------------------------------------

  // The eight working variables are the last four terms of two sequences, one
  // led by a and one led by e.
  datatype Pair = Pair(a: bv32, e: bv32)

  // The next terms from the last four pairs, the latest first.
  function NextPair(p: Pair, q: Pair, r: Pair, s: Pair, k: bv32, w: bv32): Pair {
    var t1 := Plus(Plus(Plus(Plus(s.e, BigSigma1(p.e)), Ch(p.e, q.e, r.e)), k), w);
    Pair(Plus(t1, Plus(BigSigma0(p.a), Maj(p.a, q.a, r.a))), Plus(s.a, t1))
  }

  function PairAt(k: Constants, block: Chunk, v: Vars, t: nat): Pair
    requires t < 68
  {
    if t == 0 then Pair(v.d, v.h)
    else if t == 1 then Pair(v.c, v.g)
    else if t == 2 then Pair(v.b, v.f)
    else if t == 3 then Pair(v.a, v.e)
    else
      NextPair(PairAt(k, block, v, t - 1), PairAt(k, block, v, t - 2), PairAt(k, block, v, t - 3),
               PairAt(k, block, v, t - 4), k[t - 4], Word(block, t - 4))
  }

  predicate VarsAre(x: Vars, p: Pair, q: Pair, r: Pair, s: Pair) {
    && x.a == p.a && x.b == q.a && x.c == r.a && x.d == s.a
    && x.e == p.e && x.f == q.e && x.g == r.e && x.h == s.e
  }

  lemma StepIs(x: Vars, p: Pair, q: Pair, r: Pair, s: Pair, k: bv32, w: bv32)
    requires VarsAre(x, p, q, r, s)
    ensures VarsAre(Step(x, k, w), NextPair(p, q, r, s, k, w), p, q, r)
  {}

  lemma {:induction false} StepsAre(k: Constants, block: Chunk, v: Vars, t: nat)
    requires t <= 64
    ensures VarsAre(Steps(k, block, v, t), PairAt(k, block, v, t + 3), PairAt(k, block, v, t + 2),
                    PairAt(k, block, v, t + 1), PairAt(k, block, v, t))
  {
    if t == 0 {
    } else {
      StepsAre(k, block, v, t - 1);
      StepIs(Steps(k, block, v, t - 1), PairAt(k, block, v, t + 2), PairAt(k, block, v, t + 1),
             PairAt(k, block, v, t), PairAt(k, block, v, t - 1), k[t - 1], Word(block, t - 1));
    }
  }

  lemma PlusIsAddition(x: bv32, y: bv32)
    ensures Plus(x, y) == x + y
  {}

  function AddPairs(h: Hash, p: Pair, q: Pair, r: Pair, s: Pair): Hash {
    [Plus(h[0], p.a), Plus(h[1], q.a), Plus(h[2], r.a), Plus(h[3], s.a),
     Plus(h[4], p.e), Plus(h[5], q.e), Plus(h[6], r.e), Plus(h[7], s.e)]
  }

  lemma AddedAre(h: Hash, x: Vars, p: Pair, q: Pair, r: Pair, s: Pair)
    requires VarsAre(x, p, q, r, s)
    ensures Same(AddVars(h, x), AddPairs(h, p, q, r, s))
  {
    assert x == Vars(p.a, q.a, r.a, s.a, p.e, q.e, r.e, s.e);
  }

  // Section 6.2.2: the words of the hash grow by the last four terms of each.
  lemma CompressionIs(k: Constants, h: Hash, block: Chunk)
    ensures Same(Compressor(k).Apply(h, block),
                 AddPairs(h, PairAt(k, block, Load(h), 67), PairAt(k, block, Load(h), 66),
                          PairAt(k, block, Load(h), 65), PairAt(k, block, Load(h), 64)))
  {
    var v := Load(h);
    StepsAre(k, block, v, 64);
    AddedAre(h, Steps(k, block, v, 64), PairAt(k, block, v, 67), PairAt(k, block, v, 66),
             PairAt(k, block, v, 65), PairAt(k, block, v, 64));
  }

  // ------------------------------------------------------------------------
  // What the one constant changes
  // ------------------------------------------------------------------------

  const STANDARD: Constants := K[55 := 0x682e6ff3]

  // The constants of section 4.2.2.
  lemma StandardConstants(i: nat, p: nat)
    requires i < 64 && NthPrime(i, p)
    ensures CubeRootBits(p, STANDARD[i])
  {
    if i == 55 {
      NthPrimeIs(i, p);
      assert CubeRootWith(263, 6, 0x682e6ff3);
    } else {
      ConstantIsCubeRoot(i, p);
    }
  }

  function Minus(x: bv32, y: bv32): bv32 { x - y }

  lemma MinusSum(x: bv32, y: bv32)
    ensures Minus(x + y, x) == y && Minus(y + x, x) == y
  {}

  lemma MinusPlus(x: bv32, y: bv32)
    ensures Minus(Plus(x, y), x) == y && Minus(Plus(y, x), x) == y
  {
    MinusSum(x, y);
  }

  lemma PlusCancels(x: bv32, y: bv32, z: bv32)
    ensures Plus(x, y) == Plus(x, z) ==> y == z
    ensures Plus(y, x) == Plus(z, x) ==> y == z
  {
    MinusPlus(x, y);
    MinusPlus(x, z);
  }

  // The sum that enters both new variables of a step.
  function Sum1(v: Vars, k: bv32, w: bv32): bv32 {
    Plus(Plus(Plus(Plus(v.h, BigSigma1(v.e)), Ch(v.e, v.f, v.g)), k), w)
  }

  lemma Sum1Injective(u: Vars, v: Vars, k: bv32, w: bv32)
    requires u.e == v.e && u.f == v.f && u.g == v.g && Sum1(u, k, w) == Sum1(v, k, w)
    ensures u.h == v.h
  {
    var x, y := BigSigma1(v.e), Ch(v.e, v.f, v.g);
    PlusCancels(w, Plus(Plus(Plus(u.h, x), y), k), Plus(Plus(Plus(v.h, x), y), k));
    PlusCancels(k, Plus(Plus(u.h, x), y), Plus(Plus(v.h, x), y));
    PlusCancels(y, Plus(u.h, x), Plus(v.h, x));
    PlusCancels(x, u.h, v.h);
  }

  lemma StepInjective(u: Vars, v: Vars, k: bv32, w: bv32)
    requires Step(u, k, w) == Step(v, k, w)
    ensures u == v
  {
    var s, t := Sum1(u, k, w), Sum1(v, k, w);
    PlusCancels(Plus(BigSigma0(v.a), Maj(v.a, v.b, v.c)), s, t);
    PlusCancels(t, u.d, v.d);
    Sum1Injective(u, v, k, w);
  }

  lemma StepSeparates(v: Vars, j: bv32, k: bv32, w: bv32)
    requires j != k
    ensures Step(v, j, w) != Step(v, k, w)
  {
    var x := Plus(Plus(v.h, BigSigma1(v.e)), Ch(v.e, v.f, v.g));
    PlusCancels(x, j, k);
    PlusCancels(w, Plus(x, j), Plus(x, k));
    PlusCancels(v.d, Sum1(v, j, w), Sum1(v, k, w));
  }

  // Two lists of constants that differ in place n alone part there for good.
  lemma {:induction false} StepsPart(j: Constants, k: Constants, n: nat, block: Chunk, v: Vars, t: nat)
    requires n < 64 && t <= 64 && j[n] != k[n] && forall i: nat :: i < 64 && i != n ==> j[i] == k[i]
    ensures Steps(j, block, v, t) == Steps(k, block, v, t) <==> t <= n
  {
    if t == 0 {
    } else {
      StepsPart(j, k, n, block, v, t - 1);
      var x, y, w := Steps(j, block, v, t - 1), Steps(k, block, v, t - 1), Word(block, t - 1);
      if t == n + 1 {
        StepSeparates(x, j[n], k[n], w);
      } else if t > n + 1 && Step(x, k[t - 1], w) == Step(y, k[t - 1], w) {
        StepInjective(x, y, k[t - 1], w);
      }
    }
  }

  lemma AddVarsInjective(h: Hash, u: Vars, v: Vars)
    requires AddVars(h, u) == AddVars(h, v)
    ensures u == v
  {
    var x, y := AddVars(h, u), AddVars(h, v);
    assert x[0] == y[0] && x[1] == y[1] && x[2] == y[2] && x[3] == y[3];
    assert x[4] == y[4] && x[5] == y[5] && x[6] == y[6] && x[7] == y[7];
    PlusCancels(h[0], u.a, v.a);
    PlusCancels(h[1], u.b, v.b);
    PlusCancels(h[2], u.c, v.c);
    PlusCancels(h[3], u.d, v.d);
    PlusCancels(h[4], u.e, v.e);
    PlusCancels(h[5], u.f, v.f);
    PlusCancels(h[6], u.g, v.g);
    PlusCancels(h[7], u.h, v.h);
  }

  // Whatever the hash so far and the chunk, the source's compression of it is not
  // the standard's.
  lemma CompressionDiffers(h: Hash, block: Chunk)
    ensures Compressor(K).Apply(h, block) != Compressor(STANDARD).Apply(h, block)
  {
    assert K[55] == 0x6f1c0e5b;
    StepsPart(K, STANDARD, 55, block, Load(h), 64);
    if Compressor(K).Apply(h, block) == Compressor(STANDARD).Apply(h, block) {
      AddVarsInjective(h, Steps(K, block, Load(h), 64), Steps(STANDARD, block, Load(h), 64));
    }
  }

  lemma ShortIsOneChunk(m: seq<bv8>)
    requires |m| < 56
    ensures |Padded(m)| == 64
  {
    assert Gap(|m|) == 55 - |m|;
  }

  // Every message that fits one chunk hashes to something else than the standard
  // says.
  lemma ShortHashDiffers(m: seq<bv8>)
    requires |m| < 56
    ensures Sha256(Compressor(K).Apply, INITIAL, m) != Sha256(Compressor(STANDARD).Apply, INITIAL, m)
  {
    var p := Padded(m);
    ShortIsOneChunk(m);
    OneChunk(Compressor(K).Apply, INITIAL, p);
    OneChunk(Compressor(STANDARD).Apply, INITIAL, p);
    CompressionDiffers(INITIAL, p);
  }
}
