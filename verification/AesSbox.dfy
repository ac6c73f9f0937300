// The substitution table of AES against section 5.1.1 of FIPS-197: every entry
// is the affine image of the multiplicative inverse of its index.
module AesSbox {
  import opened Gf256
  import opened AesTables

  function Bit(b: bv8, i: bv8): bv8
    requires i < 8
  {
    (b >> i) & 1
  }

  // Bit i of the affine map of the standard.
  function AffineBit(y: bv8, i: bv8): bv8
    requires i < 8
  {
    Bit(y, i) ^ Bit(y, (i + 4) % 8) ^ Bit(y, (i + 5) % 8) ^ Bit(y, (i + 6) % 8) ^ Bit(y, (i + 7) % 8) ^ Bit(0x63, i)
  }

  // The same map on whole bytes: rotations by one to four.
  function Affine(y: bv8): bv8 {
    y ^ ((y << 1) | (y >> 7)) ^ ((y << 2) | (y >> 6)) ^ ((y << 3) | (y >> 5)) ^ ((y << 4) | (y >> 4)) ^ 0x63
  }

  lemma AffineBits(y: bv8, i: bv8)
    requires i < 8
    ensures Bit(Affine(y), i) == AffineBit(y, i)
  {}

  // ------------------------------------------------------------------------
  // Inverses in the field
  // ------------------------------------------------------------------------

  function Reciprocal(x: bv8): bv8 {
    if x & 0x80 == 0 then
      if x & 0x40 == 0 then
        if x & 0x20 == 0 then
          if x & 0x10 == 0 then
            Pick(x, 0x00, 0x01, 0x8d, 0xf6, 0xcb, 0x52, 0x7b, 0xd1, 0xe8, 0x4f, 0x29, 0xc0, 0xb0, 0xe1, 0xe5, 0xc7)
          else
            Pick(x, 0x74, 0xb4, 0xaa, 0x4b, 0x99, 0x2b, 0x60, 0x5f, 0x58, 0x3f, 0xfd, 0xcc, 0xff, 0x40, 0xee, 0xb2)
        else
          if x & 0x10 == 0 then
            Pick(x, 0x3a, 0x6e, 0x5a, 0xf1, 0x55, 0x4d, 0xa8, 0xc9, 0xc1, 0x0a, 0x98, 0x15, 0x30, 0x44, 0xa2, 0xc2)
          else
            Pick(x, 0x2c, 0x45, 0x92, 0x6c, 0xf3, 0x39, 0x66, 0x42, 0xf2, 0x35, 0x20, 0x6f, 0x77, 0xbb, 0x59, 0x19)
      else
        if x & 0x20 == 0 then
          if x & 0x10 == 0 then
            Pick(x, 0x1d, 0xfe, 0x37, 0x67, 0x2d, 0x31, 0xf5, 0x69, 0xa7, 0x64, 0xab, 0x13, 0x54, 0x25, 0xe9, 0x09)
          else
            Pick(x, 0xed, 0x5c, 0x05, 0xca, 0x4c, 0x24, 0x87, 0xbf, 0x18, 0x3e, 0x22, 0xf0, 0x51, 0xec, 0x61, 0x17)
        else
          if x & 0x10 == 0 then
            Pick(x, 0x16, 0x5e, 0xaf, 0xd3, 0x49, 0xa6, 0x36, 0x43, 0xf4, 0x47, 0x91, 0xdf, 0x33, 0x93, 0x21, 0x3b)
          else
            Pick(x, 0x79, 0xb7, 0x97, 0x85, 0x10, 0xb5, 0xba, 0x3c, 0xb6, 0x70, 0xd0, 0x06, 0xa1, 0xfa, 0x81, 0x82)
    else
      if x & 0x40 == 0 then
        if x & 0x20 == 0 then
          if x & 0x10 == 0 then
            Pick(x, 0x83, 0x7e, 0x7f, 0x80, 0x96, 0x73, 0xbe, 0x56, 0x9b, 0x9e, 0x95, 0xd9, 0xf7, 0x02, 0xb9, 0xa4)
          else
            Pick(x, 0xde, 0x6a, 0x32, 0x6d, 0xd8, 0x8a, 0x84, 0x72, 0x2a, 0x14, 0x9f, 0x88, 0xf9, 0xdc, 0x89, 0x9a)
        else
          if x & 0x10 == 0 then
            Pick(x, 0xfb, 0x7c, 0x2e, 0xc3, 0x8f, 0xb8, 0x65, 0x48, 0x26, 0xc8, 0x12, 0x4a, 0xce, 0xe7, 0xd2, 0x62)
          else
            Pick(x, 0x0c, 0xe0, 0x1f, 0xef, 0x11, 0x75, 0x78, 0x71, 0xa5, 0x8e, 0x76, 0x3d, 0xbd, 0xbc, 0x86, 0x57)
      else
        if x & 0x20 == 0 then
          if x & 0x10 == 0 then
            Pick(x, 0x0b, 0x28, 0x2f, 0xa3, 0xda, 0xd4, 0xe4, 0x0f, 0xa9, 0x27, 0x53, 0x04, 0x1b, 0xfc, 0xac, 0xe6)
          else
            Pick(x, 0x7a, 0x07, 0xae, 0x63, 0xc5, 0xdb, 0xe2, 0xea, 0x94, 0x8b, 0xc4, 0xd5, 0x9d, 0xf8, 0x90, 0x6b)
        else
          if x & 0x10 == 0 then
            Pick(x, 0xb1, 0x0d, 0xd6, 0xeb, 0xc6, 0x0e, 0xcf, 0xad, 0x08, 0x4e, 0xd7, 0xe3, 0x5d, 0x50, 0x1e, 0xb3)
          else
            Pick(x, 0x5b, 0x23, 0x38, 0x34, 0x68, 0x46, 0x03, 0x8c, 0xdd, 0x9c, 0x7d, 0xa0, 0xcd, 0x1a, 0x41, 0x1c)
  }

  // The product written out, one term for each bit of the second factor, for a
  // multiplication by x that is left open.
  function Term(a: bv8, b: bv8, n: bv8): bv8 { if b & n != 0 then a else 0 }

  function LowTerms(xt: bv8 -> bv8, a: bv8, b: bv8): bv8 {
    var a1 := xt(a);
    var a2 := xt(a1);
    Term(a, b, 1) ^ Term(a1, b, 2) ^ Term(a2, b, 4) ^ Term(xt(a2), b, 8)
  }

  function Product(xt: bv8 -> bv8, a: bv8, b: bv8): bv8 {
    LowTerms(xt, a, b) ^ LowTerms(xt, xt(xt(xt(xt(a)))), b >> 4)
  }

  ghost predicate ShiftAndAdd(xt: bv8 -> bv8, mul: (bv8, bv8) -> bv8) {
    (forall a, b :: mul(a, b) == Xor(Pass(a, b), mul(xt(a), Half(b)))) && (forall a :: mul(a, 0) == 0)
  }

  lemma Halves(b: bv8)
    ensures Half(b) == b >> 1 && Half(b >> 1) == b >> 2 && Half(b >> 2) == b >> 3 && Half(b >> 3) == b >> 4
  {}

  lemma Terms(a: bv8, b: bv8)
    ensures Pass(a, b) == Term(a, b, 1) && Pass(a, b >> 1) == Term(a, b, 2)
    ensures Pass(a, b >> 2) == Term(a, b, 4) && Pass(a, b >> 3) == Term(a, b, 8)
  {}

  lemma Nested(p: bv8, q: bv8, r: bv8, s: bv8, t: bv8)
    ensures Xor(p, Xor(q, Xor(r, Xor(s, t)))) == Xor(p ^ q ^ r ^ s, t)
  {}

  lemma LowTermsMul(xt: bv8 -> bv8, mul: (bv8, bv8) -> bv8, a: bv8, b: bv8)
    requires ShiftAndAdd(xt, mul)
    ensures mul(a, b) == Xor(LowTerms(xt, a, b), mul(xt(xt(xt(xt(a)))), b >> 4))
  {
    var a1 := xt(a);
    var a2 := xt(a1);
    var a3 := xt(a2);
    Halves(b);
    assert mul(a, b) == Xor(Pass(a, b), mul(a1, b >> 1));
    assert mul(a1, b >> 1) == Xor(Pass(a1, b >> 1), mul(a2, b >> 2));
    assert mul(a2, b >> 2) == Xor(Pass(a2, b >> 2), mul(a3, b >> 3));
    assert mul(a3, b >> 3) == Xor(Pass(a3, b >> 3), mul(xt(a3), b >> 4));
    Terms(a, b);
    Terms(a1, b);
    Terms(a2, b);
    Terms(a3, b);
    Nested(Term(a, b, 1), Term(a1, b, 2), Term(a2, b, 4), Term(a3, b, 8), mul(xt(a3), b >> 4));
  }

  lemma ProductIs(xt: bv8 -> bv8, mul: (bv8, bv8) -> bv8, a: bv8, b: bv8)
    requires ShiftAndAdd(xt, mul)
    ensures Product(xt, a, b) == mul(a, b)
  {
    LowTermsMul(xt, mul, a, b);
    LowTermsMul(xt, mul, xt(xt(xt(xt(a)))), b >> 4);
    assert (b >> 4) >> 4 == 0;
    XorZero(LowTerms(xt, xt(xt(xt(xt(a)))), b >> 4));
  }

  lemma MulShiftsAndAdds(xt: bv8 -> bv8, mul: (bv8, bv8) -> bv8)
    requires xt == Xtime && mul == Mul
    ensures ShiftAndAdd(xt, mul)
  {
    forall a, b
      ensures mul(a, b) == Xor(Pass(a, b), mul(xt(a), Half(b)))
    {
      MulStep(a, b);
    }
  }

  predicate Inverts(x: bv8) {
    x == 0 || Product(Xtime, x, Reciprocal(x)) == 1
  }

  // The sixteen bytes with the high half h.
  predicate RowHolds(good: bv8 -> bool, h: bv8) {
    && good(h << 4) && good((h << 4) | 1) && good((h << 4) | 2) && good((h << 4) | 3)
    && good((h << 4) | 4) && good((h << 4) | 5) && good((h << 4) | 6) && good((h << 4) | 7)
    && good((h << 4) | 8) && good((h << 4) | 9) && good((h << 4) | 10) && good((h << 4) | 11)
    && good((h << 4) | 12) && good((h << 4) | 13) && good((h << 4) | 14) && good((h << 4) | 15)
  }

  lemma InRow(good: bv8 -> bool, h: bv8, x: bv8)
    requires h < 16 && x >> 4 == h && RowHolds(good, h)
    ensures good(x)
  {}

  lemma Row0()
    ensures RowHolds(Inverts, 0)
  {}

  lemma Row1()
    ensures RowHolds(Inverts, 1)
  {}

  lemma Row2()
    ensures RowHolds(Inverts, 2)
  {}

  lemma Row3()
    ensures RowHolds(Inverts, 3)
  {}

  lemma Row4()
    ensures RowHolds(Inverts, 4)
  {}

  lemma Row5()
    ensures RowHolds(Inverts, 5)
  {}

  lemma Row6()
    ensures RowHolds(Inverts, 6)
  {}

  lemma Row7()
    ensures RowHolds(Inverts, 7)
  {}

  lemma Row8()
    ensures RowHolds(Inverts, 8)
  {}

  lemma Row9()
    ensures RowHolds(Inverts, 9)
  {}

  lemma Row10()
    ensures RowHolds(Inverts, 10)
  {}

  lemma Row11()
    ensures RowHolds(Inverts, 11)
  {}

  lemma Row12()
    ensures RowHolds(Inverts, 12)
  {}

  lemma Row13()
    ensures RowHolds(Inverts, 13)
  {}

  lemma Row14()
    ensures RowHolds(Inverts, 14)
  {}

  lemma Row15()
    ensures RowHolds(Inverts, 15)
  {}

  lemma AnyByte(good: bv8 -> bool, x: bv8)
    requires RowHolds(good, 0) && RowHolds(good, 1) && RowHolds(good, 2) && RowHolds(good, 3)
    requires RowHolds(good, 4) && RowHolds(good, 5) && RowHolds(good, 6) && RowHolds(good, 7)
    requires RowHolds(good, 8) && RowHolds(good, 9) && RowHolds(good, 10) && RowHolds(good, 11)
    requires RowHolds(good, 12) && RowHolds(good, 13) && RowHolds(good, 14) && RowHolds(good, 15)
    ensures good(x)
  {
    InRow(good, x >> 4, x);
  }

  lemma ReciprocalInverts(x: bv8)
    requires x != 0
    ensures Mul(x, Reciprocal(x)) == 1
  {
    var good := Inverts;
    Row0(); Row1(); Row2(); Row3(); Row4(); Row5(); Row6(); Row7();
    Row8(); Row9(); Row10(); Row11(); Row12(); Row13(); Row14(); Row15();
    AnyByte(good, x);
    MulShiftsAndAdds(Xtime, Mul);
    ProductIs(Xtime, Mul, x, Reciprocal(x));
  }

  // A byte has one inverse.
  lemma InverseUnique(x: bv8, y: bv8, z: bv8)
    requires Mul(x, y) == 1 && Mul(x, z) == 1
    ensures y == z
  {
    MulAssoc(y, x, z);
    MulComm(x, y);
    MulOne(z);
    MulComm(y, 1);
    MulOne(y);
  }

  // ------------------------------------------------------------------------
  // The table
  // ------------------------------------------------------------------------

  lemma AffineOfReciprocal(x: bv8)
    ensures Affine(Reciprocal(x)) == Sbox(x)
  {}

  // Bit i of an entry is that of the affine map applied to the inverse of the
  // index, where 0 stands for its own inverse.
  lemma SboxIsStandard(x: bv8, y: bv8, i: bv8)
    requires i < 8 && (Mul(x, y) == 1 || (x == 0 && y == 0))
    ensures Bit(Sbox(x), i) == AffineBit(y, i)
  {
    if x == 0 {
      MulZero(y);
      assert Reciprocal(0) == 0;
    } else {
      ReciprocalInverts(x);
      MulZero(0);
      InverseUnique(x, y, Reciprocal(x));
    }
    AffineOfReciprocal(x);
    AffineBits(y, i);
  }

  // Every byte but 0 has an inverse, so the statement above is about all bytes.
  lemma HasInverse(x: bv8)
    ensures exists y :: Mul(x, y) == 1 || (x == 0 && y == 0)
  {
    if x == 0 {
      var y: bv8 := 0;
      assert Mul(x, y) == 1 || (x == 0 && y == 0);
    } else {
      ReciprocalInverts(x);
    }
  }
}
