/** Bitwise operators of C on unsigned integers, as functions on natural numbers, and the
    facts that turn masks, shifts and disjoint ORs into division, remainder and addition. */
module Bits {

  function Pow2(n: nat): (p: nat)
    ensures p > 0
  {
    if n == 0 then 1 else 2 * Pow2(n - 1)
  }

  /** `a | b` */
  function Or(a: nat, b: nat): nat
    decreases a + b
  {
    if a == 0 && b == 0 then 0
    else 2 * Or(a / 2, b / 2) + (if a % 2 == 1 || b % 2 == 1 then 1 else 0)
  }

  /** `a & b` */
  function And(a: nat, b: nat): nat
    decreases a + b
  {
    if a == 0 && b == 0 then 0
    else 2 * And(a / 2, b / 2) + (if a % 2 == 1 && b % 2 == 1 then 1 else 0)
  }

  /** `a << n` in a machine word of `width` bits: the bits shifted out are lost. */
  function Shl(a: nat, n: nat, width: nat): nat {
    a * Pow2(n) % Pow2(width)
  }

  /** `a >> n` */
  function Shr(a: nat, n: nat): nat {
    DivNonnegative(a, Pow2(n));
    a / Pow2(n)
  }

  lemma DivNonnegative(a: nat, d: nat)
    requires d > 0
    ensures a / d >= 0
  {
  }

  lemma {:induction false} Pow2Add(m: nat, n: nat)
    ensures Pow2(m + n) == Pow2(m) * Pow2(n)
  {
    if m == 0 {
    } else {
      Pow2Add(m - 1, n);
      assert 2 * Pow2(m - 1) * Pow2(n) == 2 * (Pow2(m - 1) * Pow2(n));
    }
  }

  lemma {:induction false} Pow2Mono(m: nat, n: nat)
    requires m <= n
    ensures Pow2(m) <= Pow2(n)
  {
    if m < n {
      Pow2Mono(m, n - 1);
    }
  }

  /** An OR whose operands share no bit is a sum. */
  lemma {:induction false} OrDisjoint(hi: nat, lo: nat, n: nat)
    requires lo < Pow2(n)
    ensures Or(hi * Pow2(n), lo) == Or(lo, hi * Pow2(n)) == hi * Pow2(n) + lo
    decreases n, hi
  {
    if n == 0 {
      OrZero(hi);
    } else {
      var p := Pow2(n - 1);
      assert hi * Pow2(n) == 2 * (hi * p);
      OrDisjoint(hi, lo / 2, n - 1);
    }
  }

  /** OR acts on the low n bits alone when the other operand has no higher ones. */
  lemma {:induction false} OrSplit(hi: nat, a: nat, b: nat, n: nat)
    requires a < Pow2(n) && b < Pow2(n)
    ensures Or(a, b) < Pow2(n)
    ensures Or(hi * Pow2(n) + a, b) == hi * Pow2(n) + Or(a, b)
  {
    if n == 0 {
      OrZero(hi);
    } else {
      var h := hi * Pow2(n - 1);
      assert hi * Pow2(n) == 2 * h;
      OrSplit(hi, a / 2, b / 2, n - 1);
      assert (2 * h + a) / 2 == h + a / 2 && (2 * h + a) % 2 == a % 2;
    }
  }

  lemma {:induction false} OrZero(a: nat)
    ensures Or(a, 0) == Or(0, a) == a
  {
    if a > 0 {
      OrZero(a / 2);
    }
  }

  lemma {:induction false} AndZero(a: nat)
    ensures And(a, 0) == And(0, a) == 0
  {
    if a > 0 {
      AndZero(a / 2);
    }
  }

  /** Masking with m ones keeps the low m bits. */
  lemma {:induction false} AndMask(x: nat, m: nat)
    ensures And(x, Pow2(m) - 1) == x % Pow2(m)
  {
    if m == 0 {
      AndZero(x);
    } else {
      var p := Pow2(m - 1);
      AndMask(x / 2, m - 1);
      HalfMod(x, p);
      assert (2 * p - 1) / 2 == p - 1 && (2 * p - 1) % 2 == 1;
    }
  }

  /** Masking with m ones shifted left by n keeps the m-bit field at bit n. */
  lemma {:induction false} AndField(x: nat, n: nat, m: nat, k: nat)
    requires k == Pow2(m) - 1
    ensures And(x, k * Pow2(n)) == x / Pow2(n) % Pow2(m) * Pow2(n)
  {
    if n == 0 {
      AndMask(x, m);
    } else {
      AndField(x / 2, n - 1, m, k);
      AndFieldStep(x, k, Pow2(n - 1), Pow2(m));
    }
  }

  lemma AndFieldStep(x: nat, k: nat, p: nat, w: nat)
    requires p > 0 && w > 0 && And(x / 2, k * p) == x / 2 / p % w * p
    ensures And(x, k * (2 * p)) == x / (2 * p) % w * (2 * p)
  {
    MulDouble(k, p);
    AndEven(x, k * p);
    DivDiv(x, 2, p);
    MulDouble(x / (2 * p) % w, p);
  }

  lemma MulDouble(k: nat, p: nat)
    ensures k * (2 * p) == 2 * (k * p)
  {
  }

  lemma AndEven(x: nat, y: nat)
    ensures And(x, 2 * y) == 2 * And(x / 2, y)
  {
    assert 2 * y / 2 == y && 2 * y % 2 == 0;
    if x == 0 && y == 0 {
    }
  }

  lemma DivDiv(x: nat, a: nat, b: nat)
    requires a > 0 && b > 0
    ensures a * b > 0 && x / a / b == x / (a * b)
  {
    var q, s := x / a / b, x / a % b;
    var r := a * s + x % a;
    calc {
      x;
      a * (x / a) + x % a;
      { assert x / a == b * q + s; }
      a * (b * q + s) + x % a;
      { assert a * (b * q + s) == a * (b * q) + a * s; }
      a * (b * q) + r;
      { MulAssoc(a, b, q); }
      (a * b) * q + r;
    }
    assert r < a * b by {
      MulMono(a, s + 1, b);
      assert a * (s + 1) == a * s + a;
    }
    DivUnique(x, a * b, q, r);
  }

  /** a * b by repeated addition, for predicates that only carry a product along. */
  function Times(a: nat, b: nat): nat {
    if a == 0 then 0 else Times(a - 1, b) + b
  }

  lemma {:induction false} TimesIs(a: nat, b: nat)
    ensures Times(a, b) == a * b
  {
    if a > 0 {
      TimesIs(a - 1, b);
      assert a * b == (a - 1) * b + b;
    }
  }

  lemma {:induction false} TimesMono(a: nat, b: nat, k: nat)
    requires a < b
    ensures Times(a, k) + k <= Times(b, k)
  {
    if a + 1 < b {
      TimesMono(a, b - 1, k);
    }
  }

  lemma MulAssoc(a: int, b: int, c: int)
    ensures a * (b * c) == (a * b) * c
  {
  }

  lemma MulMono(a: nat, b: int, c: int)
    requires b <= c
    ensures a * b <= a * c
  {
  }

  lemma MulStrict(a: int, b: int, c: int)
    requires a > 0 && b < c
    ensures a * b + a <= a * c
  {
    MulMono(a, b + 1, c);
  }

  /** Quotient and remainder are determined by the division equation. */
  lemma DivUnique(x: int, d: int, q: int, r: int)
    requires 0 <= r < d
    requires x == d * q + r
    ensures x / d == q && x % d == r
  {
    var q' := x / d;
    assert d * q' <= x < d * q' + d;
    if q < q' {
      MulStrict(d, q, q');
      assert false;
    }
    if q' < q {
      MulStrict(d, q', q);
      assert false;
    }
  }

  lemma QuotRem(x: int, d: int, q: int, r: int)
    requires 0 <= r < d && x == q * d + r
    ensures x / d == q && x % d == r
  {
    assert q * d == d * q;
    DivUnique(x, d, q, r);
  }

  lemma ModSmall(x: nat, d: nat)
    requires x < d
    ensures x % d == x
  {
    DivUnique(x, d, 0, x);
  }

  lemma HalfMod(x: nat, p: nat)
    requires p > 0
    ensures x % (2 * p) == 2 * (x / 2 % p) + x % 2
  {
    ModSplit(x, 2, p);
  }

  /** The low digits of x in mixed base (b, m). */
  lemma ModSplit(x: nat, b: nat, m: nat)
    requires b > 0 && m > 0
    ensures b * m > 0 && x % (b * m) == b * (x / b % m) + x % b
  {
    DivDiv(x, b, m);
    var q, r := x / b / m, x / b % m;
    calc {
      x;
      b * (x / b) + x % b;
      { assert x / b == m * q + r; }
      b * (m * q + r) + x % b;
      { assert b * (m * q + r) == b * (m * q) + b * r; MulAssoc(b, m, q); }
      (b * m) * q + (b * r + x % b);
    }
    MulStrict(b, r, m);
    DivUnique(x, b * m, q, b * r + x % b);
  }

  /** The powers of two used as word sizes and field widths. */
  lemma Powers()
    ensures Pow2(1) == 2 && Pow2(4) == 0x10 && Pow2(5) == 0x20 && Pow2(6) == 0x40 && Pow2(7) == 0x80
    ensures Pow2(8) == 0x100 && Pow2(9) == 0x200 && Pow2(11) == 0x800 && Pow2(12) == 0x1000
    ensures Pow2(16) == 0x1_0000 && Pow2(21) == 0x20_0000 && Pow2(27) == 0x800_0000
    ensures Pow2(28) == 0x1000_0000 && Pow2(30) == 0x4000_0000 && Pow2(32) == 0x1_0000_0000
    ensures Pow2(36) == 0x10_0000_0000 && Pow2(39) == 0x80_0000_0000 && Pow2(48) == 0x1_0000_0000_0000
    ensures Pow2(52) == 0x10_0000_0000_0000 && Pow2(64) == 0x1_0000_0000_0000_0000
    ensures Pow2(128) == 0x1_0000_0000_0000_0000_0000_0000_0000_0000
  {
    assert Pow2(2) == 4 && Pow2(4) == 0x10 && Pow2(6) == 0x40;
    assert Pow2(8) == 0x100;
    Pow2Add(8, 8); Pow2Add(16, 16); Pow2Add(32, 32); Pow2Add(64, 64);
    Pow2Add(8, 1); Pow2Add(9, 2); Pow2Add(8, 4); Pow2Add(12, 9); Pow2Add(21, 6); Pow2Add(27, 1);
    Pow2Add(28, 2); Pow2Add(32, 4); Pow2Add(30, 9); Pow2Add(32, 16); Pow2Add(48, 4);
  }
}
