/** kernel/core/compiler_builtins.c: 128-bit division by shift and subtract. */
module Division {
  import opened Bits

  const TWO128 := 0x1_0000_0000_0000_0000_0000_0000_0000_0000

  /** The state of the loop before it handles bit j - 1: the quotient of the leading bits is q, and
      it is stored j bits to the left. */
  ghost predicate Partial(a: nat, b: nat, j: nat, q: nat, quotient: nat, remainder: nat) {
    && remainder < b && quotient == q * Pow2(j)
    && Shr(a, j) == q * b + remainder
  }

  /** One more bit: (a >> i) == 2 * (a >> (i + 1)) + bit i. */
  lemma NextBit(a: nat, i: nat)
    ensures Shr(a, i) == 2 * Shr(a, i + 1) + Shr(a, i) % 2
  {
    DivDiv(a, Pow2(i), 2);
    assert Pow2(i) * 2 == Pow2(i + 1);
  }

  lemma ShrLe(a: nat, i: nat)
    ensures Shr(a, i) <= a
  {
    DivLe(a, Pow2(i));
  }

  lemma DivLe(a: nat, p: nat)
    requires p > 0
    ensures a / p <= a
  {
    var q := a / p;
    assert a == p * q + a % p;
    DivNonnegative(a, p);
    MulMono(q, 1, p);
  }

  lemma LowBit(x: nat)
    ensures And(x, 1) == x % 2
  {
    assert Pow2(1) == 2;
    AndMask(x, 1);
  }

  lemma OrBit(r: nat, bit: nat)
    requires bit < 2
    ensures Or(2 * r, bit) == 2 * r + bit
  {
    assert Pow2(1) == 2;
    OrDisjoint(r, bit, 1);
  }

  lemma ShlOne(r: nat)
    requires 2 * r < TWO128
    ensures Shl(r, 1, 128) == 2 * r
  {
    assert Pow2(1) == 2;
    assert Pow2(128) == TWO128 by { Powers(); }
  }

  /** The remainder takes the next bit without losing one, whatever the divisor: it is at most
      the leading bits of a. */
  lemma ShiftFits(a: nat, b: nat, i: nat, q: nat, quotient: nat, remainder: nat)
    requires a < TWO128 && Partial(a, b, i + 1, q, quotient, remainder)
    ensures Or(Shl(remainder, 1, 128), And(Shr(a, i), 1)) == 2 * remainder + Shr(a, i) % 2 < TWO128
  {
    NextBit(a, i);
    ShrLe(a, i);
    assert q * b >= 0;
    ShlOne(remainder);
    LowBit(Shr(a, i));
    OrBit(remainder, Shr(a, i) % 2);
  }

  /** A quotient stored i + 1 bits to the left takes bit i. */
  lemma QuotientBit(q: nat, i: nat)
    requires i < 128
    ensures Or(q * Pow2(i + 1), Shl(1, i, 128)) == (2 * q + 1) * Pow2(i)
    ensures q * Pow2(i + 1) == (2 * q) * Pow2(i)
  {
    var p := Pow2(i);
    ShlBit(i);
    OrDisjoint(q, p, i + 1);
    DoubleThenAdd(q, p);
  }

  lemma DoubleThenAdd(q: nat, p: nat)
    ensures q * (2 * p) == (2 * q) * p && q * (2 * p) + p == (2 * q + 1) * p
  {
  }

  lemma ShlBit(i: nat)
    requires i < 128
    ensures Shl(1, i, 128) == Pow2(i)
  {
    var p, w := Pow2(i), Pow2(128);
    assert 2 * p <= w by { Pow2Mono(i + 1, 128); }
    DivUnique(p, w, 0, p);
  }

  /** One iteration keeps the division equation. */
  lemma StepKeeps(a: nat, b: nat, i: nat, q: nat, quotient: nat, remainder: nat)
    requires a < TWO128 && i < 128 && Partial(a, b, i + 1, q, quotient, remainder)
    ensures var r := 2 * remainder + Shr(a, i) % 2;
            if r >= b then Partial(a, b, i, 2 * q + 1, Or(quotient, Shl(1, i, 128)), r - b)
            else Partial(a, b, i, 2 * q, quotient, r)
  {
    NextBit(a, i);
    QuotientBit(q, i);
    assert (2 * q) * b == 2 * (q * b);
    assert (2 * q + 1) * b == 2 * (q * b) + b;
  }

  method Udivti3(a: nat, b: nat) returns (result: nat)
    requires a < TWO128 && b < TWO128
    ensures result == if b == 0 then 0 else a / b
  {
    if b == 0 {
      return 0;
    }
    if b > a {
      DivUnique(a, b, 0, a);
      return 0;
    }
    if b == a {
      DivUnique(a, b, 1, 0);
      return 1;
    }
    var quotient: nat, remainder: nat := 0, 0;
    ghost var q: nat := 0;
    PartialStart(a, b);
    for i := 128 downto 0
      invariant Partial(a, b, i, q, quotient, remainder)
    {
      ShiftFits(a, b, i, q, quotient, remainder);
      StepKeeps(a, b, i, q, quotient, remainder);
      remainder := Shl(remainder, 1, 128);
      remainder := Or(remainder, And(Shr(a, i), 1));
      q := 2 * q;
      if remainder >= b {
        remainder := remainder - b;
        quotient := Or(quotient, Shl(1, i, 128));
        q := q + 1;
      }
    }
    PartialEnd(a, b, q, quotient, remainder);
    result := quotient;
  }

  method Umodti3(a: nat, b: nat) returns (result: nat)
    requires a < TWO128 && b < TWO128
    ensures result == if b == 0 then 0 else a % b
  {
    if b == 0 {
      return 0;
    }
    if b > a {
      DivUnique(a, b, 0, a);
      return a;
    }
    if b == a {
      DivUnique(a, b, 1, 0);
      return 0;
    }
    var remainder: nat := 0;
    ghost var q: nat, quotient: nat := 0, 0;
    PartialStart(a, b);
    for i := 128 downto 0
      invariant Partial(a, b, i, q, quotient, remainder)
    {
      ShiftFits(a, b, i, q, quotient, remainder);
      StepKeeps(a, b, i, q, quotient, remainder);
      remainder := Shl(remainder, 1, 128);
      remainder := Or(remainder, And(Shr(a, i), 1));
      q := 2 * q;
      if remainder >= b {
        remainder := remainder - b;
        quotient := Or(quotient, Shl(1, i, 128));
        q := q + 1;
      }
    }
    PartialEnd(a, b, q, quotient, remainder);
    result := remainder;
  }

  lemma PartialStart(a: nat, b: nat)
    requires a < TWO128 && b > 0
    ensures Partial(a, b, 128, 0, 0, 0)
  {
    assert Pow2(128) == TWO128 by { Powers(); }
    DivUnique(a, TWO128, 0, a);
  }

  lemma PartialEnd(a: nat, b: nat, q: nat, quotient: nat, remainder: nat)
    requires Partial(a, b, 0, q, quotient, remainder)
    ensures a == quotient * b + remainder && a / b == quotient && a % b == remainder
  {
    assert Pow2(0) == 1;
    assert quotient == q;
    DivUnique(a, b, quotient, remainder);
  }
}
