// The hash of kernel/crypto/sha256.c as a function: padding, the message schedule,
// the compression function and the fold of it over the padded message.  Bytes and
// words are bit vectors; addition is modulo 2^32.
//
// The padding is that of section 5.1.1 of FIPS 180-4 (`PaddedIsStandard`); the
// functions, the compression and the constants are compared with the standard in
// Sha256Standard, where one of the sixty-four constants differs.
module Sha256Spec {
  import opened Values
  import opened Words

  type Hash = s: seq<bv32> | |s| == 8 witness seq(8, i => 0)
  type Chunk = s: seq<bv8> | |s| == 64 witness seq(64, i => 0)
  type Constants = s: seq<bv32> | |s| == 64 witness seq(64, i => 0)

  // ------------------------------------------------------------------------
  // The six functions of section 4.1.2
  // ------------------------------------------------------------------------

  function Rotr(x: bv32, n: nat): bv32
    requires 0 < n < 32
  {
    (x >> n) | (x << (32 - n))
  }

  function Ch(x: bv32, y: bv32, z: bv32): bv32 { (x & y) ^ (!x & z) }

  function Maj(x: bv32, y: bv32, z: bv32): bv32 { (x & y) ^ (x & z) ^ (y & z) }

  function BigSigma0(x: bv32): bv32 { Rotr(x, 2) ^ Rotr(x, 13) ^ Rotr(x, 22) }

  function BigSigma1(x: bv32): bv32 { Rotr(x, 6) ^ Rotr(x, 11) ^ Rotr(x, 25) }

  function SmallSigma0(x: bv32): bv32 { Rotr(x, 7) ^ Rotr(x, 18) ^ (x >> 3) }

  function SmallSigma1(x: bv32): bv32 { Rotr(x, 17) ^ Rotr(x, 19) ^ (x >> 10) }

  function Plus(a: bv32, b: bv32): bv32 { a + b }

  // ------------------------------------------------------------------------
  // Compression of one chunk
  // ------------------------------------------------------------------------

  // Word t of the message schedule.
  function Word(block: Chunk, t: nat): bv32 {
    if t < 16 then BigEndian(block[4 * t], block[4 * t + 1], block[4 * t + 2], block[4 * t + 3])
    else Plus(Plus(Plus(SmallSigma1(Word(block, t - 2)), Word(block, t - 7)), SmallSigma0(Word(block, t - 15))),
              Word(block, t - 16))
  }

  datatype Vars = Vars(a: bv32, b: bv32, c: bv32, d: bv32, e: bv32, f: bv32, g: bv32, h: bv32)

  function Step(v: Vars, k: bv32, w: bv32): Vars {
    var t1 := Plus(Plus(Plus(Plus(v.h, BigSigma1(v.e)), Ch(v.e, v.f, v.g)), k), w);
    var t2 := Plus(BigSigma0(v.a), Maj(v.a, v.b, v.c));
    Vars(Plus(t1, t2), v.a, v.b, v.c, Plus(v.d, t1), v.e, v.f, v.g)
  }

  // The working variables after t steps.
  function Steps(k: Constants, block: Chunk, v: Vars, t: nat): Vars
    requires t <= 64
  {
    if t == 0 then v else Step(Steps(k, block, v, t - 1), k[t - 1], Word(block, t - 1))
  }

  function Load(s: Hash): Vars {
    Vars(s[0], s[1], s[2], s[3], s[4], s[5], s[6], s[7])
  }

  function AddVars(s: Hash, v: Vars): Hash {
    [Plus(s[0], v.a), Plus(s[1], v.b), Plus(s[2], v.c), Plus(s[3], v.d),
     Plus(s[4], v.e), Plus(s[5], v.f), Plus(s[6], v.g), Plus(s[7], v.h)]
  }

  datatype Compressor = Compressor(k: Constants) {
    function Apply(s: Hash, block: Chunk): Hash {
      AddVars(s, Steps(k, block, Load(s), 64))
    }
  }

  // ------------------------------------------------------------------------
  // The padded message
  // ------------------------------------------------------------------------

  // A number as n bytes, most significant first.
  function Bytes(x: nat, n: nat): (b: seq<bv8>)
    ensures |b| == n
  {
    if n == 0 then [] else Bytes(x / 256, n - 1) + [Low8(x)]
  }

  function Zeros(n: nat): (z: seq<bv8>)
    ensures |z| == n
  {
    seq(n, i => 0)
  }

  // The number of zero bytes between the marker and the length of an n-byte
  // message: the least that completes a chunk.
  function Gap(n: nat): nat {
    (119 - n % 64) % 64
  }

  lemma GapIsLeast(n: nat, z: nat)
    ensures (n + 1 + Gap(n) + 8) % 64 == 0
    ensures (n + 1 + z + 8) % 64 == 0 ==> Gap(n) <= z
  {}

  // The length field counts bits modulo 2^64; the standard asks for messages of
  // fewer bits than that, where it is the length.
  function Padding(n: nat): seq<bv8> {
    [0x80] + Zeros(Gap(n)) + Bytes((8 * n) % TWO64, 8)
  }

  function Padded(m: seq<bv8>): seq<bv8> {
    m + Padding(|m|)
  }

  lemma PaddedIsWhole(m: seq<bv8>)
    ensures |Padded(m)| % 64 == 0
  {
    GapIsLeast(|m|, Gap(|m|));
    assert |Padded(m)| == |m| + 1 + Gap(|m|) + 8;
  }

  // ------------------------------------------------------------------------
  // The padding of the standard
  // ------------------------------------------------------------------------

  // The number that bytes stand for, most significant first.
  function Number(b: seq<bv8>): nat {
    if b == [] then 0 else Join(Number(b[..|b| - 1]), b[|b| - 1])
  }

  function Join(high: nat, low: bv8): nat { 256 * high + low as nat }

  lemma JoinSplit(high: nat, low: bv8)
    ensures Join(high, low) / 256 == high && Low8(Join(high, low)) == low
  {}

  lemma SplitJoin(x: nat)
    ensures Join(x / 256, Low8(x)) == x
  {
    ByteOfByte(x % 256);
  }

  lemma JoinBound(high: nat, low: bv8, limit: nat)
    requires high < limit
    ensures Join(high, low) < 256 * limit
  {}

  lemma {:induction false} BytesOfNumber(b: seq<bv8>)
    ensures Same(Bytes(Number(b), |b|), b) && Number(b) < Pow256(|b|)
  {
    if b != [] {
      var front, last := b[..|b| - 1], b[|b| - 1];
      BytesOfNumber(front);
      JoinSplit(Number(front), last);
      JoinBound(Number(front), last, Pow256(|front|));
      assert front + [last] == b;
    }
  }

  lemma {:induction false} NumberOfBytes(x: nat, n: nat)
    requires x < Pow256(n)
    ensures Number(Bytes(x, n)) == x
  {
    if n > 0 {
      NumberOfBytes(x / 256, n - 1);
      SplitJoin(x);
      var b := Bytes(x, n);
      assert b[..n - 1] == Bytes(x / 256, n - 1) && b[n - 1] == Low8(x);
    }
  }

  lemma SmallCount(n: nat)
    requires 8 * n < TWO64
    ensures (8 * n) % TWO64 == 8 * n
  {}

  // Eight bytes that stand for the bit length of n bytes are the length field.
  lemma FieldIs(n: nat, field: seq<bv8>)
    requires |field| == 8 && Number(field) == 8 * n
    ensures 8 * n < TWO64 && Same(field, Bytes((8 * n) % TWO64, 8))
  {
    BytesOfNumber(field);
    EightBytes();
    SmallCount(n);
  }

  lemma FieldOf(n: nat)
    requires 8 * n < TWO64
    ensures Number(Bytes((8 * n) % TWO64, 8)) == 8 * n
  {
    SmallCount(n);
    assert 8 * n < Pow256(8) by { EightBytes(); }
    NumberOfBytes(8 * n, 8);
  }

  // An n-byte message with y zeros fills whole chunks.
  predicate Fills(n: nat, y: nat) {
    (n + 1 + y + 8) % 64 == 0
  }

  // z is the least number of zeros that does.
  ghost predicate FillsFirst(n: nat, z: nat) {
    Fills(n, z) && forall y: nat :: Fills(n, y) ==> z <= y
  }

  lemma GapFillsFirst(n: nat, z: nat)
    ensures FillsFirst(n, z) <==> z == Gap(n)
  {
    forall y: nat | Fills(n, y)
      ensures Gap(n) <= y
    {
      GapIsLeast(n, y);
    }
    GapIsLeast(n, Gap(n));
    assert Fills(n, Gap(n));
  }

  // Section 5.1.1 of FIPS 180-4: the marker, the fewest zeros that complete a
  // chunk, and the length in bits in the last eight bytes.
  ghost predicate PaddedWith(m: seq<bv8>, p: seq<bv8>, z: nat, field: seq<bv8>) {
    && Same(p, m + ([0x80] + Zeros(z) + field)) && FillsFirst(|m|, z)
    && |field| == 8 && Number(field) == 8 * |m|
  }

  ghost predicate StandardPadding(m: seq<bv8>, p: seq<bv8>) {
    exists z: nat, field :: PaddedWith(m, p, z, field)
  }

  // Below 2^61 bytes the padded message is the one of the standard and no other;
  // longer messages have none.
  lemma PaddedIsStandard(m: seq<bv8>, p: seq<bv8>)
    ensures StandardPadding(m, p) <==> 8 * |m| < TWO64 && Same(p, Padded(m))
  {
    if StandardPadding(m, p) {
      var z: nat, field :| PaddedWith(m, p, z, field);
      FieldIs(|m|, field);
      GapFillsFirst(|m|, z);
    }
    if 8 * |m| < TWO64 && Same(p, Padded(m)) {
      FieldOf(|m|);
      GapFillsFirst(|m|, Gap(|m|));
      assert PaddedWith(m, p, Gap(|m|), Bytes((8 * |m|) % TWO64, 8));
    }
  }

  // ------------------------------------------------------------------------
  // The hash
  // ------------------------------------------------------------------------

  // Whole chunks only, so that no byte is dropped.
  function Fold(c: (Hash, Chunk) -> Hash, s: Hash, bytes: seq<bv8>): Hash
    requires |bytes| % 64 == 0
    decreases |bytes|
  {
    if bytes == [] then s else Fold(c, c(s, bytes[..64]), bytes[64..])
  }

  // Folding whole chunks and then more is folding the two together.
  lemma {:induction false} FoldConcat(c: (Hash, Chunk) -> Hash, s: Hash, a: seq<bv8>, b: seq<bv8>)
    requires |a| % 64 == 0 && |b| % 64 == 0
    ensures (|a| + |b|) % 64 == 0 && Fold(c, s, a + b) == Fold(c, Fold(c, s, a), b)
    decreases |a|
  {
    if a == [] {
      assert a + b == b;
    } else {
      assert (a + b)[..64] == a[..64] && (a + b)[64..] == a[64..] + b;
      FoldConcat(c, c(s, a[..64]), a[64..], b);
    }
  }

  const INITIAL: Hash := [
    0x6a09e667, 0xbb67ae85, 0x3c6ef372, 0xa54ff53a, 0x510e527f, 0x9b05688c, 0x1f83d9ab, 0x5be0cd19]

  const K0: seq<bv32> := [
    0x428a2f98, 0x71374491, 0xb5c0fbcf, 0xe9b5dba5, 0x3956c25b, 0x59f111f1, 0x923f82a4, 0xab1c5ed5,
    0xd807aa98, 0x12835b01, 0x243185be, 0x550c7dc3, 0x72be5d74, 0x80deb1fe, 0x9bdc06a7, 0xc19bf174]
  const K1: seq<bv32> := [
    0xe49b69c1, 0xefbe4786, 0x0fc19dc6, 0x240ca1cc, 0x2de92c6f, 0x4a7484aa, 0x5cb0a9dc, 0x76f988da,
    0x983e5152, 0xa831c66d, 0xb00327c8, 0xbf597fc7, 0xc6e00bf3, 0xd5a79147, 0x06ca6351, 0x14292967]
  const K2: seq<bv32> := [
    0x27b70a85, 0x2e1b2138, 0x4d2c6dfc, 0x53380d13, 0x650a7354, 0x766a0abb, 0x81c2c92e, 0x92722c85,
    0xa2bfe8a1, 0xa81a664b, 0xc24b8b70, 0xc76c51a3, 0xd192e819, 0xd6990624, 0xf40e3585, 0x106aa070]
  const K3: seq<bv32> := [
    0x19a4c116, 0x1e376c08, 0x2748774c, 0x34b0bcb5, 0x391c0cb3, 0x4ed8aa4a, 0x5b9cca4f, 0x6f1c0e5b,
    0x748f82ee, 0x78a5636f, 0x84c87814, 0x8cc70208, 0x90befffa, 0xa4506ceb, 0xbef9a3f7, 0xc67178f2]

  const K: Constants := K0 + K1 + K2 + K3

  function Sha256(c: (Hash, Chunk) -> Hash, start: Hash, m: seq<bv8>): Hash {
    PaddedIsWhole(m);
    Fold(c, start, Padded(m))
  }
}
