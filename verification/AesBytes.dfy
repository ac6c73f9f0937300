// The transformations of AES byte by byte, in the terms of section 5 of FIPS-197:
// the state is bytes in rows and columns, byte r of column c at r + 4 * c, and a
// word of the key schedule is four bytes, the first one on top.
module AesBytes {
  import opened Words
  import opened Gf256
  import opened AesRound
  import opened AesKeys

  // ------------------------------------------------------------------------
  // Each transformation, by row and column
  // ------------------------------------------------------------------------

  lemma Place(r: nat, c: nat)
    requires r < 4 && c < 4
    ensures r + 4 * c < 16 && (r + 4 * c) / 4 == c && (r + 4 * c) % 4 == r
  {}

  // Row r moves left by r.
  lemma ShiftRowsAt(s: Block, r: nat, c: nat)
    requires r < 4 && c < 4
    ensures ShiftRows(s)[r + 4 * c] == s[r + 4 * ((c + r) % 4)]
  {
    Place(r, c);
    assert (r + 4 * c + 4 * r) % 16 == r + 4 * ((c + r) % 4);
  }

  lemma MulTwo(x: bv8)
    ensures Mul(2, x) == Xtime(x)
  {
    MulXtime(1, x);
    MulOne(Xtime(x));
    assert Xtime(1) == 2;
  }

  // A sum of four may start anywhere.
  lemma AroundTwo(p: bv8, q: bv8, r: bv8, t: bv8)
    ensures Xor(Xor(Xor(p, q), r), t) == Xor(Xor(p, q), Xor(r, t))
    ensures Xor(Xor(Xor(p, q), r), t) == Xor(Xor(r, t), Xor(p, q))
  {
    XorAssoc(Xor(p, q), r, t);
    XorComm(Xor(p, q), Xor(r, t));
  }

  lemma AroundOne(p: bv8, q: bv8, r: bv8, t: bv8)
    ensures Xor(Xor(Xor(p, q), r), t) == Xor(Xor(q, r), Xor(t, p))
    ensures Xor(Xor(Xor(p, q), r), t) == Xor(Xor(t, p), Xor(q, r))
  {
    var m := Xor(q, r);
    XorAssoc(p, q, r);
    XorComm(p, m);
    XorAssoc(m, p, t);
    XorComm(p, t);
    XorComm(m, Xor(t, p));
  }

  lemma DotIs(k: Quad, s: Quad, p: bv8, q: bv8, r: bv8, t: bv8)
    requires p == Mul(k.a, s.a) && q == Mul(k.b, s.b) && r == Mul(k.c, s.c) && t == Mul(k.d, s.d)
    ensures Dot(k, s) == Xor(Xor(p, q), Xor(r, t)) && Dot(k, s) == Xor(Xor(r, t), Xor(p, q))
    ensures Dot(k, s) == Xor(Xor(q, r), Xor(t, p)) && Dot(k, s) == Xor(Xor(t, p), Xor(q, r))
  {
    assert Dot(k, s) == Xor(Xor(Xor(p, q), r), t);
    AroundTwo(p, q, r, t);
    AroundOne(p, q, r, t);
  }

  // A coefficient of the product with {03}x^3 + {01}x^2 + {01}x + {02}.
  function Mixed(w: bv8, x: bv8, y: bv8, z: bv8): bv8 {
    Xor(Xor(Mul(2, w), Mul(3, x)), Xor(y, z))
  }

  lemma Mixed0(q: Quad)
    ensures Dot(MIX0, q) == Mixed(q.a, q.b, q.c, q.d)
  {
    MulOne(q.c);
    MulOne(q.d);
    DotIs(MIX0, q, Mul(2, q.a), Mul(3, q.b), q.c, q.d);
  }

  lemma Mixed1(q: Quad)
    ensures Dot(MIX1, q) == Mixed(q.b, q.c, q.d, q.a)
  {
    MulOne(q.a);
    MulOne(q.d);
    DotIs(MIX1, q, q.a, Mul(2, q.b), Mul(3, q.c), q.d);
  }

  lemma Mixed2(q: Quad)
    ensures Dot(MIX2, q) == Mixed(q.c, q.d, q.a, q.b)
  {
    MulOne(q.a);
    MulOne(q.b);
    DotIs(MIX2, q, q.a, q.b, Mul(2, q.c), Mul(3, q.d));
  }

  lemma Mixed3(q: Quad)
    ensures Dot(MIX3, q) == Mixed(q.d, q.a, q.b, q.c)
  {
    MulOne(q.b);
    MulOne(q.c);
    DotIs(MIX3, q, Mul(3, q.a), q.b, q.c, Mul(2, q.d));
  }

  lemma MixColumnAt(q: Quad, r: nat)
    requires r < 4
    ensures Entry(MixColumn(q), r)
         == Mixed(Entry(q, r), Entry(q, (r + 1) % 4), Entry(q, (r + 2) % 4), Entry(q, (r + 3) % 4))
  {
    if r == 0 {
      Mixed0(q);
    } else if r == 1 {
      Mixed1(q);
    } else if r == 2 {
      Mixed2(q);
    } else {
      Mixed3(q);
    }
  }

  lemma ColumnsAt(f: Quad -> Quad, s: Block, r: nat, c: nat)
    requires r < 4 && c < 4
    ensures Columns(f, s)[r + 4 * c] == Entry(f(Column(s, c)), r)
  {
    Place(r, c);
  }

  lemma EntryAt(s: Block, r: nat, c: nat)
    requires r < 4 && c < 4
    ensures Entry(Column(s, c), r) == s[r + 4 * c]
  {}

  lemma MixColumnsAt(s: Block, r: nat, c: nat)
    requires r < 4 && c < 4
    ensures MixColumns(s)[r + 4 * c]
         == Mixed(s[r + 4 * c], s[(r + 1) % 4 + 4 * c], s[(r + 2) % 4 + 4 * c], s[(r + 3) % 4 + 4 * c])
  {
    ColumnsAt(MixColumn, s, r, c);
    MixColumnAt(Column(s, c), r);
    EntryAt(s, r, c);
    EntryAt(s, (r + 1) % 4, c);
    EntryAt(s, (r + 2) % 4, c);
    EntryAt(s, (r + 3) % 4, c);
  }

  lemma AddRoundKeyAt(s: Block, k: seq<bv32>, r: nat, c: nat)
    requires |k| == 4 && r < 4 && c < 4
    ensures AddRoundKey(s, k)[r + 4 * c] == Xor(s[r + 4 * c], WordByte(k[c], r))
  {
    Place(r, c);
  }

  // ------------------------------------------------------------------------
  // The words of the key schedule
  // ------------------------------------------------------------------------

  lemma RotWordAt(w: bv32, r: nat)
    requires r < 4
    ensures WordByte(RotWord(w), r) == WordByte(w, (r + 1) % 4)
  {}

  lemma SubWordAt(sub: bv8 -> bv8, w: bv32, r: nat)
    requires r < 4
    ensures WordByte(SubWord(sub, w), r) == sub(WordByte(w, r))
  {
    BytesOfWord(sub(WordByte(w, 0)), sub(WordByte(w, 1)), sub(WordByte(w, 2)), sub(WordByte(w, 3)));
  }

  lemma XorByte0(v: bv32, w: bv32)
    ensures WordByte(XorWord(v, w), 0) == Xor(WordByte(v, 0), WordByte(w, 0))
  {}

  lemma XorByte1(v: bv32, w: bv32)
    ensures WordByte(XorWord(v, w), 1) == Xor(WordByte(v, 1), WordByte(w, 1))
  {}

  lemma XorByte2(v: bv32, w: bv32)
    ensures WordByte(XorWord(v, w), 2) == Xor(WordByte(v, 2), WordByte(w, 2))
  {}

  lemma XorByte3(v: bv32, w: bv32)
    ensures WordByte(XorWord(v, w), 3) == Xor(WordByte(v, 3), WordByte(w, 3))
  {}

  lemma XorWordAt(v: bv32, w: bv32, r: nat)
    requires r < 4
    ensures WordByte(XorWord(v, w), r) == Xor(WordByte(v, r), WordByte(w, r))
  {
    if r == 0 {
      XorByte0(v, w);
    } else if r == 1 {
      XorByte1(v, w);
    } else if r == 2 {
      XorByte2(v, w);
    } else {
      XorByte3(v, w);
    }
  }

  // The powers of x in the field.
  function PowerOfX(n: nat): bv8 {
    if n == 0 then 1 else Mul(2, PowerOfX(n - 1))
  }

  lemma PowerStep(n: nat)
    ensures PowerOfX(n + 1) == Xtime(PowerOfX(n))
  {
    MulTwo(PowerOfX(n));
  }

  lemma FirstPowers()
    ensures PowerOfX(0) == 0x01 && PowerOfX(1) == 0x02 && PowerOfX(2) == 0x04 && PowerOfX(3) == 0x08
    ensures PowerOfX(4) == 0x10 && PowerOfX(5) == 0x20 && PowerOfX(6) == 0x40 && PowerOfX(7) == 0x80
    ensures PowerOfX(8) == 0x1b && PowerOfX(9) == 0x36
  {
    PowerStep(0); PowerStep(1); PowerStep(2); PowerStep(3); PowerStep(4);
    PowerStep(5); PowerStep(6); PowerStep(7); PowerStep(8);
  }

  // The n-th round constant is x to the n - 1.
  lemma RoundConstantIsPower(n: nat)
    requires 1 <= n <= 10
    ensures RCON[n] == PowerOfX(n - 1)
  {
    FirstPowers();
  }

  lemma RoundConstantAt(n: nat, r: nat)
    requires 1 <= n <= 10 && r < 4
    ensures WordByte(RoundConstant(n), r) == if r == 0 then PowerOfX(n - 1) else 0
  {
    RoundConstantIsPower(n);
    TopByte(RCON[n], r);
  }

  lemma TopByte(b: bv8, r: nat)
    requires r < 4
    ensures WordByte((b as bv32) << 24, r) == if r == 0 then b else 0
  {}
}
