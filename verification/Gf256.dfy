// The field of 256 elements behind AES (kernel/crypto/aes256.c, gmul and the
// two column mixers): bytes under exclusive-or and multiplication modulo
// x^8 + x^4 + x^3 + x + 1.
//
// `Mul` is shift-and-add multiplication and `Gmul` is the source's loop, proved
// to compute it.  `XorMul` and `MulXor` say that Mul is additive in both
// arguments; from them `UnmixMix` derives that the inverse mixing matrix undoes
// the mixing matrix on every column.
module Gf256 {

  function Xor(a: bv8, b: bv8): bv8 { a ^ b }

  function Half(b: bv8): bv8 { b >> 1 }

  // Multiplication by x.
  function Xtime(a: bv8): bv8 {
    if a & 0x80 != 0 then Xor(a << 1, 0x1b) else a << 1
  }

  function Pass(a: bv8, b: bv8): bv8 {
    if b & 1 != 0 then a else 0
  }

  lemma HalfIsLess(b: bv8)
    requires b != 0
    ensures Half(b) < b
  {}

  function Mul(a: bv8, b: bv8): bv8
    decreases b
  {
    if b == 0 then 0 else HalfIsLess(b); Xor(Pass(a, b), Mul(Xtime(a), Half(b)))
  }

  lemma MulStep(a: bv8, b: bv8)
    ensures Mul(a, b) == Xor(Pass(a, b), Mul(Xtime(a), Half(b)))
  {}

  // ------------------------------------------------------------------------
  // Exclusive-or
  // ------------------------------------------------------------------------

  lemma XorComm(p: bv8, q: bv8)
    ensures Xor(p, q) == Xor(q, p)
  {}

  lemma XorAssoc(p: bv8, q: bv8, r: bv8)
    ensures Xor(Xor(p, q), r) == Xor(p, Xor(q, r))
  {}

  lemma XorZero(p: bv8)
    ensures Xor(p, 0) == p && Xor(0, p) == p
  {}

  lemma XorCancel(p: bv8, q: bv8)
    ensures Xor(Xor(p, q), q) == p
  {}

  lemma XorSwap(p: bv8, q: bv8, r: bv8, s: bv8)
    ensures Xor(Xor(p, q), Xor(r, s)) == Xor(Xor(p, r), Xor(q, s))
  {
    calc {
      Xor(Xor(p, q), Xor(r, s));
      { XorAssoc(p, q, Xor(r, s)); }
      Xor(p, Xor(q, Xor(r, s)));
      { XorAssoc(q, r, s); XorComm(q, r); XorAssoc(r, q, s); }
      Xor(p, Xor(r, Xor(q, s)));
      { XorAssoc(p, r, Xor(q, s)); }
      Xor(Xor(p, r), Xor(q, s));
    }
  }

  // ------------------------------------------------------------------------
  // The loop of gmul
  // ------------------------------------------------------------------------

  lemma Balance(a: bv8, b: bv8, p: bv8)
    ensures Xor(Xor(p, Pass(a, b)), Mul(Xtime(a), Half(b))) == Xor(p, Mul(a, b))
  {
    MulStep(a, b);
    XorAssoc(p, Pass(a, b), Mul(Xtime(a), Half(b)));
  }

  // The largest value left in the multiplier after i halvings.
  function Remaining(i: nat): bv8 {
    match i
    case 0 => 0xff
    case 1 => 0x7f
    case 2 => 0x3f
    case 3 => 0x1f
    case 4 => 0x0f
    case 5 => 0x07
    case 6 => 0x03
    case 7 => 0x01
    case _ => 0
  }

  lemma RemainingHalves(b: bv8, i: nat)
    requires i < 8 && b <= Remaining(i)
    ensures Half(b) <= Remaining(i + 1)
  {
    match i {
      case 0 => case 1 => case 2 => case 3 => case 4 => case 5 => case 6 => case 7 =>
    }
  }

  method GmulTurn(a: bv8, b: bv8, p: bv8) returns (a': bv8, b': bv8, p': bv8)
    ensures a' == Xtime(a) && b' == Half(b) && p' == Xor(p, Pass(a, b))
  {
    p' := p;
    if b & 1 != 0 {
      p' := Xor(p', a);
    }
    XorZero(p);
    var hiBit := a & 0x80;
    a' := a << 1;
    if hiBit != 0 {
      a' := Xor(a', 0x1b);
    }
    b' := b >> 1;
  }

  method Gmul(x: bv8, y: bv8) returns (p: bv8)
    ensures p == Mul(x, y)
  {
    var a, b := x, y;
    p := 0;
    XorZero(Mul(x, y));
    var i: nat := 0;
    while i < 8
      invariant i <= 8
      invariant b <= Remaining(i)
      invariant Xor(p, Mul(a, b)) == Mul(x, y)
    {
      RemainingHalves(b, i);
      Balance(a, b, p);
      a, b, p := GmulTurn(a, b, p);
      i := i + 1;
    }
    XorZero(p);
  }

  // ------------------------------------------------------------------------
  // Multiplication is additive in both arguments and has a unit
  // ------------------------------------------------------------------------

  lemma ShlXor(a: bv8, b: bv8)
    ensures (a ^ b) << 1 == (a << 1) ^ (b << 1)
  {}

  lemma TopXor(a: bv8, b: bv8)
    ensures (a ^ b) & 0x80 == (a & 0x80) ^ (b & 0x80)
  {}

  lemma TopBit(a: bv8)
    ensures a & 0x80 == 0 || a & 0x80 == 0x80
  {}

  lemma LowXor(a: bv8, b: bv8)
    ensures (a ^ b) & 1 == (a & 1) ^ (b & 1)
  {}

  lemma LowBit(a: bv8)
    ensures a & 1 == 0 || a & 1 == 1
  {}

  lemma HalfXor(a: bv8, b: bv8)
    ensures Half(Xor(a, b)) == Xor(Half(a), Half(b))
  {}

  lemma HalfAtMost(b: bv8)
    ensures Half(b) <= b
    ensures Half(b) == b ==> b == 0
  {}

  lemma XtimeXor(a: bv8, b: bv8)
    ensures Xtime(Xor(a, b)) == Xor(Xtime(a), Xtime(b))
  {
    ShlXor(a, b);
    TopXor(a, b);
    TopBit(a);
    TopBit(b);
  }

  lemma PassXor(a: bv8, c: bv8, b: bv8)
    ensures Pass(Xor(a, c), b) == Xor(Pass(a, b), Pass(c, b))
  {}

  lemma XorPass(c: bv8, a: bv8, b: bv8)
    ensures Pass(c, Xor(a, b)) == Xor(Pass(c, a), Pass(c, b))
  {
    LowXor(a, b);
    LowBit(a);
    LowBit(b);
  }

  lemma {:induction false} XorMul(a: bv8, c: bv8, b: bv8)
    ensures Mul(Xor(a, c), b) == Xor(Mul(a, b), Mul(c, b))
    decreases b
  {
    if b == 0 {
    } else {
      HalfIsLess(b);
      XorMul(Xtime(a), Xtime(c), Half(b));
      XtimeXor(a, c);
      PassXor(a, c, b);
      XorSwap(Pass(a, b), Pass(c, b), Mul(Xtime(a), Half(b)), Mul(Xtime(c), Half(b)));
    }
  }

  lemma {:induction false} MulXor(a: bv8, x: bv8, y: bv8)
    ensures Mul(a, Xor(x, y)) == Xor(Mul(a, x), Mul(a, y))
    decreases x, y
  {
    if x == 0 && y == 0 {
    } else {
      HalfAtMost(x);
      HalfAtMost(y);
      MulXor(Xtime(a), Half(x), Half(y));
      MulStep(a, x);
      MulStep(a, y);
      MulStep(a, Xor(x, y));
      HalfXor(x, y);
      XorPass(a, x, y);
      XorSwap(Pass(a, x), Pass(a, y), Mul(Xtime(a), Half(x)), Mul(Xtime(a), Half(y)));
    }
  }

  lemma MulOneHigh(t: bv8)
    requires t < 0x10
    ensures Mul(0x10, t) == t << 4
  {
    MulStep(0x10, t);
    MulStep(0x20, t >> 1);
    MulStep(0x40, t >> 2);
    MulStep(0x80, t >> 3);
  }

  lemma MulOne(s: bv8)
    ensures Mul(1, s) == s
  {
    MulStep(1, s);
    MulStep(2, s >> 1);
    MulStep(4, s >> 2);
    MulStep(8, s >> 3);
    MulOneHigh(s >> 4);
  }

  lemma {:induction false} MulZero(s: bv8)
    ensures Mul(0, s) == 0
    decreases s
  {
    if s == 0 {
    } else {
      HalfIsLess(s);
      MulZero(Half(s));
    }
  }

  // ------------------------------------------------------------------------
  // Multiplying twice
  // ------------------------------------------------------------------------

  // The modulus as seen by one multiplier: c * 0x1b is c * x^8.
  ghost predicate Reduces(c: bv8) {
    Mul(c, 0x1b) == Mul(Xtime(c), 0x80)
  }

  lemma MulShl(c: bv8, x: bv8)
    requires x & 0x80 == 0
    ensures Mul(c, Xtime(x)) == Mul(Xtime(c), x)
  {
    assert Half(x << 1) == x;
    assert Pass(c, x << 1) == 0;
    MulStep(c, x << 1);
    XorZero(Mul(Xtime(c), x));
  }

  lemma XorReduces(a: bv8, b: bv8)
    requires Reduces(a) && Reduces(b)
    ensures Reduces(Xor(a, b))
  {
    XorMul(a, b, 0x1b);
    XtimeXor(a, b);
    XorMul(Xtime(a), Xtime(b), 0x80);
  }

  function Xtime2(a: bv8): bv8 { Xtime(Xtime(a)) }

  lemma MulTop(a: bv8)
    ensures Mul(a, 0x80) == Xtime(Xtime2(Xtime2(Xtime2(a))))
  {
    var b, c, d := Xtime2(a), Xtime2(Xtime2(a)), Xtime2(Xtime2(Xtime2(a)));
    MulStep(a, 0x80);
    MulStep(Xtime(a), 0x40);
    MulStep(b, 0x20);
    MulStep(Xtime(b), 0x10);
    MulStep(c, 0x08);
    MulStep(Xtime(c), 0x04);
    MulStep(d, 0x02);
    MulStep(Xtime(d), 0x01);
  }

  lemma MulModulus(a: bv8)
    ensures var b := Xtime2(Xtime(a)); Mul(a, 0x1b) == Xor(Xor(a, Xtime(a)), Xor(b, Xtime(b)))
  {
    var b := Xtime2(Xtime(a));
    MulStep(a, 0x1b);
    MulStep(Xtime(a), 0x0d);
    MulStep(Xtime2(a), 0x06);
    MulStep(b, 0x03);
    MulStep(Xtime(b), 0x01);
    XorAssoc(a, Xtime(a), Xor(b, Xtime(b)));
  }

  predicate Power(c: bv8) {
    c == 0x01 || c == 0x02 || c == 0x04 || c == 0x08 || c == 0x10 || c == 0x20 || c == 0x40 || c == 0x80
  }

  lemma PowerReduces(c: bv8)
    requires c == 0 || Power(c)
    ensures Reduces(c)
  {
    MulTop(Xtime(c));
    MulModulus(c);
  }

  lemma OneBit(c: bv8, m: bv8)
    requires Power(m)
    ensures c & m == 0 || c & m == m
  {}

  lemma BitReduces(c: bv8, m: bv8)
    requires Power(m)
    ensures Reduces(c & m)
  {
    OneBit(c, m);
    PowerReduces(if c & m == 0 then 0 else m);
  }

  lemma NibbleReduces(c: bv8, m: bv8, n: bv8, p: bv8, q: bv8)
    requires Power(m) && Power(n) && Power(p) && Power(q)
    ensures Reduces(Xor(Xor(c & m, c & n), Xor(c & p, c & q)))
  {
    BitReduces(c, m);
    BitReduces(c, n);
    BitReduces(c, p);
    BitReduces(c, q);
    XorReduces(c & m, c & n);
    XorReduces(c & p, c & q);
    XorReduces(Xor(c & m, c & n), Xor(c & p, c & q));
  }

  // A byte is the sum of its bits.
  lemma SumOfBits(c: bv8)
    ensures Xor(Xor(Xor(c & 0x01, c & 0x02), Xor(c & 0x04, c & 0x08)),
                Xor(Xor(c & 0x10, c & 0x20), Xor(c & 0x40, c & 0x80))) == c
  {}

  lemma AllReduce(c: bv8)
    ensures Reduces(c)
  {
    NibbleReduces(c, 0x01, 0x02, 0x04, 0x08);
    NibbleReduces(c, 0x10, 0x20, 0x40, 0x80);
    XorReduces(Xor(Xor(c & 0x01, c & 0x02), Xor(c & 0x04, c & 0x08)),
               Xor(Xor(c & 0x10, c & 0x20), Xor(c & 0x40, c & 0x80)));
    SumOfBits(c);
  }

  // Multiplication by x can be moved from one factor to the other.
  lemma MulXtime(c: bv8, x: bv8)
    ensures Mul(c, Xtime(x)) == Mul(Xtime(c), x)
  {
    if x & 0x80 == 0 {
      MulShl(c, x);
    } else {
      var y := Xor(x, 0x80);
      assert y & 0x80 == 0 by { TopXor(x, 0x80); TopBit(x); }
      XorCancel(x, 0x80);
      XtimeXor(y, 0x80);
      MulXor(c, Xtime(y), 0x1b);
      MulShl(c, y);
      AllReduce(c);
      MulXor(Xtime(c), y, 0x80);
    }
  }

  lemma {:induction false} XtimeMul(a: bv8, b: bv8)
    ensures Mul(Xtime(a), b) == Xtime(Mul(a, b))
    decreases b
  {
    if b == 0 {
    } else {
      HalfIsLess(b);
      XtimeMul(Xtime(a), Half(b));
      XtimeXor(Pass(a, b), Mul(Xtime(a), Half(b)));
    }
  }

  lemma MulPass(u: bv8, m: bv8, x: bv8)
    ensures Mul(u, Pass(m, x)) == Pass(Mul(u, m), x)
  {}

  lemma {:induction false} MulAssoc(u: bv8, m: bv8, x: bv8)
    ensures Mul(u, Mul(m, x)) == Mul(Mul(u, m), x)
    decreases x
  {
    if x == 0 {
    } else {
      HalfIsLess(x);
      MulXor(u, Pass(m, x), Mul(Xtime(m), Half(x)));
      MulPass(u, m, x);
      MulAssoc(u, Xtime(m), Half(x));
      MulXtime(u, m);
      XtimeMul(u, m);
    }
  }

  // A byte is its low bit plus x times the rest.
  lemma LowAndHalf(b: bv8)
    ensures b == Xor(b & 1, Xtime(Half(b)))
  {
    assert Half(b) & 0x80 == 0;
    assert b == Xor(b & 1, Half(b) << 1);
  }

  lemma MulLow(a: bv8, b: bv8)
    ensures Mul(b & 1, a) == Pass(a, b)
  {
    if b & 1 == 0 {
      MulZero(a);
    } else {
      assert b & 1 == 1;
      MulOne(a);
    }
  }

  lemma {:induction false} MulComm(a: bv8, b: bv8)
    ensures Mul(a, b) == Mul(b, a)
    decreases b
  {
    if b == 0 {
      MulZero(a);
    } else {
      HalfIsLess(b);
      LowAndHalf(b);
      XorMul(b & 1, Xtime(Half(b)), a);
      MulLow(a, b);
      MulXtime(Half(b), a);
      MulComm(Xtime(a), Half(b));
    }
  }

  // ------------------------------------------------------------------------
  // Columns and rows
  // ------------------------------------------------------------------------

  datatype Quad = Quad(a: bv8, b: bv8, c: bv8, d: bv8)

  function Sum(q: Quad): bv8 {
    Xor(Xor(Xor(q.a, q.b), q.c), q.d)
  }

  function Add(q: Quad, r: Quad): Quad {
    Quad(Xor(q.a, r.a), Xor(q.b, r.b), Xor(q.c, r.c), Xor(q.d, r.d))
  }

  lemma SumAdd(q: Quad, r: Quad)
    ensures Sum(Add(q, r)) == Xor(Sum(q), Sum(r))
  {
    XorSwap(q.a, q.b, r.a, r.b);
    XorSwap(Xor(q.a, q.b), q.c, Xor(r.a, r.b), r.c);
    XorSwap(Xor(Xor(q.a, q.b), q.c), q.d, Xor(Xor(r.a, r.b), r.c), r.d);
  }

  function Scaled(k: Quad, s: Quad): Quad {
    Quad(Mul(k.a, s.a), Mul(k.b, s.b), Mul(k.c, s.c), Mul(k.d, s.d))
  }

  function Dot(k: Quad, s: Quad): bv8 {
    Sum(Scaled(k, s))
  }

  lemma AddDot(k: Quad, l: Quad, s: Quad)
    ensures Dot(Add(k, l), s) == Xor(Dot(k, s), Dot(l, s))
  {
    XorMul(k.a, l.a, s.a);
    XorMul(k.b, l.b, s.b);
    XorMul(k.c, l.c, s.c);
    XorMul(k.d, l.d, s.d);
    SumAdd(Scaled(k, s), Scaled(l, s));
  }

  function ScaleRow(u: bv8, k: Quad): Quad {
    Quad(Mul(u, k.a), Mul(u, k.b), Mul(u, k.c), Mul(u, k.d))
  }

  lemma MulSum(u: bv8, q: Quad)
    ensures Mul(u, Sum(q)) == Sum(Scaled(Quad(u, u, u, u), q))
  {
    MulXor(u, Xor(Xor(q.a, q.b), q.c), q.d);
    MulXor(u, Xor(q.a, q.b), q.c);
    MulXor(u, q.a, q.b);
  }

  lemma ScaledTwice(u: bv8, k: Quad, s: Quad)
    ensures Scaled(Quad(u, u, u, u), Scaled(k, s)) == Scaled(ScaleRow(u, k), s)
  {
    MulAssoc(u, k.a, s.a);
    MulAssoc(u, k.b, s.b);
    MulAssoc(u, k.c, s.c);
    MulAssoc(u, k.d, s.d);
  }

  lemma MulDot(u: bv8, k: Quad, s: Quad)
    ensures Mul(u, Dot(k, s)) == Dot(ScaleRow(u, k), s)
  {
    MulSum(u, Scaled(k, s));
    ScaledTwice(u, k, s);
  }

  // ------------------------------------------------------------------------
  // The two mixing matrices
  // ------------------------------------------------------------------------

  const MIX0 := Quad(2, 3, 1, 1)
  const MIX1 := Quad(1, 2, 3, 1)
  const MIX2 := Quad(1, 1, 2, 3)
  const MIX3 := Quad(3, 1, 1, 2)

  const UNMIX0 := Quad(0x0e, 0x0b, 0x0d, 0x09)
  const UNMIX1 := Quad(0x09, 0x0e, 0x0b, 0x0d)
  const UNMIX2 := Quad(0x0d, 0x09, 0x0e, 0x0b)
  const UNMIX3 := Quad(0x0b, 0x0d, 0x09, 0x0e)

  function MixColumn(s: Quad): Quad {
    Quad(Dot(MIX0, s), Dot(MIX1, s), Dot(MIX2, s), Dot(MIX3, s))
  }

  function UnmixColumn(s: Quad): Quad {
    Quad(Dot(UNMIX0, s), Dot(UNMIX1, s), Dot(UNMIX2, s), Dot(UNMIX3, s))
  }

  // The row of the product matrix that a row of coefficients makes with MIX.
  function RowProduct(u: Quad): Quad {
    Add(Add(Add(ScaleRow(u.a, MIX0), ScaleRow(u.b, MIX1)), ScaleRow(u.c, MIX2)), ScaleRow(u.d, MIX3))
  }

  lemma DotMix(u: Quad, s: Quad)
    ensures Dot(u, MixColumn(s)) == Dot(RowProduct(u), s)
  {
    MulDot(u.a, MIX0, s);
    MulDot(u.b, MIX1, s);
    MulDot(u.c, MIX2, s);
    MulDot(u.d, MIX3, s);
    var k0, k1, k2, k3 := ScaleRow(u.a, MIX0), ScaleRow(u.b, MIX1), ScaleRow(u.c, MIX2), ScaleRow(u.d, MIX3);
    AddDot(k0, k1, s);
    AddDot(Add(k0, k1), k2, s);
    AddDot(Add(Add(k0, k1), k2), k3, s);
  }

  lemma TopProductRows()
    ensures RowProduct(UNMIX0) == Quad(1, 0, 0, 0)
    ensures RowProduct(UNMIX1) == Quad(0, 1, 0, 0)
  {}

  lemma BottomProductRows()
    ensures RowProduct(UNMIX2) == Quad(0, 0, 1, 0)
    ensures RowProduct(UNMIX3) == Quad(0, 0, 0, 1)
  {}

  lemma DotUnit(s: Quad)
    ensures Dot(Quad(1, 0, 0, 0), s) == s.a
    ensures Dot(Quad(0, 1, 0, 0), s) == s.b
    ensures Dot(Quad(0, 0, 1, 0), s) == s.c
    ensures Dot(Quad(0, 0, 0, 1), s) == s.d
  {
    MulOne(s.a); MulOne(s.b); MulOne(s.c); MulOne(s.d);
    MulZero(s.a); MulZero(s.b); MulZero(s.c); MulZero(s.d);
    XorZero(s.a); XorZero(s.b); XorZero(s.c); XorZero(s.d);
  }

  lemma UnmixMix(s: Quad)
    ensures UnmixColumn(MixColumn(s)) == s
  {
    TopProductRows();
    BottomProductRows();
    DotUnit(s);
    DotMix(UNMIX0, s);
    DotMix(UNMIX1, s);
    DotMix(UNMIX2, s);
    DotMix(UNMIX3, s);
  }
}
