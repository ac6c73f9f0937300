/** Division and the Euclidean gcd of kernel/crypto/bn.c, on top of the 128-bit division of
    kernel/core/compiler_builtins.c: where they are right, and what they answer where they are not. */
module BigNumDiv {
  import opened Bits
  import opened Values
  import opened BnValue
  import opened BigNum
  import opened BigNumShift
  import opened BigNumBytes
  import opened Division

  /** Dividing one more word with the remainder of the words above. */
  lemma DivStep(w: nat, high: nat, q: nat, rem: nat, d: nat, val: nat)
    requires d > 0 && high == q * d + rem && rem < d && val == rem * BASE + w && w < BASE
    ensures w + BASE * high == (val / d + BASE * q) * d + val % d
    ensures d < BASE ==> val / d < BASE && val < BASE * BASE
  {
    var x, y := val / d, val % d;
    assert val == d * x + y;
    DistributeRight(x, BASE * q, d);
    MulAssoc(BASE, q, d);
    if d < BASE {
      assert val < d * BASE;
      if x >= BASE {
        MulMono(d, BASE, x);
        assert false;
      }
      MulMono(BASE, d, BASE);
    }
  }

  /** (rem << 64) | w as a 128-bit value. */
  function Join(rem: Word, w: Word): (v: nat)
    ensures v == rem * BASE + w
  {
    assert Pow2(64) == BASE && Pow2(128) == BASE * BASE by { Powers(); }
    OrDisjoint(rem, w, 64);
    ModSmall(rem * BASE, BASE * BASE);
    Or(Shl(rem, 64, 128), w)
  }

  /** Quotient words from the top down. */
  method DivLoop(q: Bn, a: seq<Word>, n: nat, d: Word) returns (rem: Word)
    requires n <= |a| && n <= |q.words| && ClearFrom(q.words, n) && d > 0
    modifies q`words
    ensures |q.words| == |old(q.words)| && ClearFrom(q.words, n)
    ensures rem < d && Sum(a, n) == Sum(q.words, n) * d + rem
  {
    rem := 0;
    var i := n;
    while i > 0
      invariant 0 <= i <= n && |q.words| == |old(q.words)| && ClearFrom(q.words, n) && rem < d
      invariant Sum(a[i..], n - i) == Sum(q.words[i..], n - i) * d + rem
    {
      var val := Join(rem, a[i - 1]);
      DivNext(q.words, a, n, i - 1, rem, d, val);
      var x := Udivti3(val, d);
      rem := Umodti3(val, d);
      q.words := q.words[i - 1 := x];
      i := i - 1;
    }
    assert a[0..] == a && q.words[0..] == q.words;
  }

  /** Storing the next quotient word keeps the equation of the division. */
  lemma DivNext(ws: seq<Word>, a: seq<Word>, n: nat, j: nat, rem: nat, d: nat, val: nat)
    requires j < n <= |a| && n <= |ws| && rem < d < BASE && val == rem * BASE + a[j]
    requires Sum(a[j + 1..], n - j - 1) == Sum(ws[j + 1..], n - j - 1) * d + rem
    ensures 0 <= val / d < BASE && val < BASE * BASE
    ensures Sum(a[j..], n - j) == Sum(ws[j := val / d][j..], n - j) * d + val % d
  {
    DivNonnegative(val, d);
    DivStep(a[j], Sum(a[j + 1..], n - j - 1), Sum(ws[j + 1..], n - j - 1), rem, d, val);
    var now := ws[j := val / d];
    assert now[j + 1..] == ws[j + 1..];
    SumCons(a, j, n - j - 1);
    SumCons(now, j, n - j - 1);
  }

  /** The dividend is smaller than the divisor, and an output object overwrites it before it is
      copied to the remainder. */
  ghost predicate Clobbered(quotient: Bn?, remainder: Bn?, a: Bn, b: Bn)
    reads a, b
  {
    a.Val() < b.Val() && (quotient == a || remainder == a)
  }

  /** The divisor has several words and is not greater than the dividend: the bitwise loop runs. */
  ghost predicate Long(a: Bn, b: Bn)
    reads a, b
  {
    b.top > 1 && a.Val() >= b.Val()
  }

  /** bn_div.  The results are quotient and remainder except where the dividend object is clobbered,
      which makes the remainder 0, and where the bitwise loop runs, which makes both 0. */
  method Div(quotient: Bn?, remainder: Bn?, a: Bn, b: Bn) returns (err: Status)
    requires a.Valid() && b.Valid()
    requires quotient == null || quotient != remainder
    modifies quotient, remainder
    ensures err == Ok <==> old(b.Val()) != 0
    ensures err == Ok && quotient != null ==> quotient.Valid()
    ensures err == Ok && quotient != null && !old(Long(a, b)) ==> quotient.Val() == old(a.Val()) / old(b.Val())
    ensures err == Ok && quotient != null && old(Long(a, b)) ==> quotient.Val() == 0
    ensures err == Ok && remainder != null && !old(Clobbered(quotient, remainder, a, b)) ==> remainder.Valid()
    ensures err == Ok && remainder != null && !old(Clobbered(quotient, remainder, a, b)) && !old(Long(a, b)) ==>
              remainder.Val() == old(a.Val()) % old(b.Val())
    ensures err == Ok && remainder != null && (old(Clobbered(quotient, remainder, a, b)) || old(Long(a, b))) ==>
              remainder.Val() == 0
  {
    Significant(a);
    Significant(b);
    if b.top == 0 {
      return InvalidArg;
    }
    NonZero(b);
    var c := a.Cmp(b);
    if c < 0 {
      SmallDividend(a.Val(), b.Val());
      DivSmaller(quotient, remainder, a);
      return Ok;
    }
    if b.top == 1 {
      OneWord(b);
      DivOneWord(quotient, remainder, a, b.words[0]);
      return Ok;
    }
    DivLong(quotient, remainder, a, b);
    err := Ok;
  }

  /** Quotient and remainder are right on a call that reaches the bitwise loop only as far as 0 is:
      the quotient never, the remainder when the divisor divides the dividend. */
  lemma LongIsRightIff(x: nat, y: nat)
    requires x >= y > 0
    ensures x / y != 0
    ensures x % y == 0 <==> Divides(y, x)
  {
    DivNonnegative(x, y);
    assert x == y * (x / y) + x % y;
    if Divides(y, x) {
      var k: nat :| x == y * k;
      DivUnique(x, y, k, 0);
    }
  }

  /** Bit i of the dividend. */
  predicate BitSet(w: Word, i: nat) {
    And(w, Shl(1, i, 64)) != 0
  }

  /** One turn of the bitwise loop: shift r, store bit i - 1 of a in its lowest word without raising
      top, and compare with b.  An r without words stays one, and b is greater. */
  method DivLongTurn(r: Bn, a: Bn, b: Bn, i: nat) returns (c: int)
    requires a.Valid() && b.Valid() && b.top > 1 && 0 < i <= 64 * a.top
    requires r.top == 0 && |r.words| > 0 && r != a && r != b
    modifies r
    ensures r.top == 0 && |r.words| > 0 && c == -1
  {
    LShift(r, r, 1);
    Empty(r);
    var wordIdx := (i - 1) / 64;
    var bitIdx := (i - 1) % 64;
    if BitSet(a.words[wordIdx], bitIdx) {
      r.words := r.words[0 := LowBit(r.words[0])];
    }
    c := r.Cmp(b);
  }

  /** The bitwise loop.  The bit a turn stores lies above top, so the next shift, which copies top
      words, drops it: the comparison never succeeds, and both results are 0. */
  method DivLong(quotient: Bn?, remainder: Bn?, a: Bn, b: Bn)
    requires a.Valid() && b.Valid() && b.top > 1 && (quotient == null || quotient != remainder)
    modifies quotient, remainder
    ensures quotient != null ==> quotient.Valid() && quotient.Val() == 0
    ensures remainder != null ==> remainder.Valid() && remainder.Val() == 0
  {
    var q := new Bn();
    var r := new Bn();
    q.FromInt(0);
    r.FromInt(0);
    Empty(r);
    var i := BitCount(a);
    while i > 0
      invariant i <= 64 * a.top && r.top == 0 && |r.words| > 0
      modifies r
    {
      var c := DivLongTurn(r, a, b, i);
      if c >= 0 {
        assert false;  // b is greater
      }
      i := i - 1;
    }
    if quotient != null {
      quotient.Copy(q);
    }
    if remainder != null {
      remainder.Copy(r);
    }
  }

  /** w | 1 */
  function LowBit(w: Word): Word {
    OrOne(w);
    Or(w, 1)
  }

  lemma OrOne(w: Word)
    ensures Or(w, 1) < BASE
  {
    assert Or(w, 1) == 2 * Or(w / 2, 0) + 1;
    OrZero(w / 2);
  }

  /** A number without value has no words. */
  lemma Empty(a: Bn)
    requires a.Valid() && a.Val() == 0
    ensures a.top == 0
  {
    if a.top > 0 {
      NonZero(a);
    }
  }

  /** The dividend is less than the divisor: zero, and the dividend itself. */
  method DivSmaller(quotient: Bn?, remainder: Bn?, a: Bn)
    requires a.Valid() && (quotient == null || quotient != remainder)
    modifies quotient, remainder
    ensures quotient != null ==> quotient.Valid() && quotient.Val() == 0
    ensures remainder != null && quotient != a && remainder != a ==>
              remainder.Valid() && remainder.Val() == old(a.Val())
    ensures remainder != null && (quotient == a || remainder == a) ==> remainder.Val() == 0
  {
    if quotient != null {
      quotient.FromInt(0);
    }
    if remainder != null {
      remainder.Copy(a);
    }
  }

  method DivOneWord(quotient: Bn?, remainder: Bn?, a: Bn, divisor: Word)
    requires a.Valid() && divisor > 0 && (quotient == null || quotient != remainder)
    modifies quotient, remainder
    ensures quotient != null ==> quotient.Valid() && quotient.Val() == old(a.Val()) / divisor
    ensures remainder != null ==> remainder.Valid() && remainder.Val() == old(a.Val()) % divisor
  {
    Significant(a);
    ghost var x := a.Val();
    var q := new Bn();
    q.Ensure(a.top);
    var rem := DivLoop(q, a.words, a.top, divisor);
    SumZeros(q.words, a.top, |q.words|);
    QuotRem(x, divisor, q.Val(), rem);
    if quotient != null {
      q.FixTop();
      quotient.Copy(q);
    }
    if remainder != null {
      remainder.FromInt(rem);
    }
  }

  lemma NonZero(b: Bn)
    requires b.Valid() && b.top > 0
    ensures b.Val() > 0
  {
    Significant(b);
    TopWord(b.words, b.top);
  }

  lemma OneWord(b: Bn)
    requires b.Valid() && b.top == 1
    ensures b.Val() == b.words[0]
  {
    Significant(b);
    assert Pow(0) == 1;
    assert Sum(b.words, 0) == 0;
  }

  lemma SmallDividend(x: nat, y: nat)
    requires x < y
    ensures x / y == 0 && x % y == x
  {
    DivUnique(x, y, 0, x);
  }

  // ---------------------------------------------------------------- gcd

  /** Euclid's recursion. */
  function Gcd(x: nat, y: nat): nat
    decreases y
  {
    if y == 0 then x else Gcd(y, x % y)
  }

  ghost predicate Divides(d: nat, x: nat) {
    exists k: nat {:trigger d * k} :: x == d * k
  }

  lemma DividesSum(d: nat, x: nat, y: nat)
    requires Divides(d, x) && Divides(d, y)
    ensures Divides(d, x + y)
  {
    var j: nat :| x == d * j;
    var k: nat :| y == d * k;
    Distribute(d, j, k);
  }

  lemma DividesDifference(d: nat, x: nat, y: nat)
    requires Divides(d, x + y) && Divides(d, y)
    ensures Divides(d, x)
  {
    var j: nat :| x + y == d * j;
    var k: nat :| y == d * k;
    if j < k {
      MulMono(d, j, k);
      assert x == d * 0;
    } else {
      assert d * (j - k) == d * j - d * k;
      assert x == d * (j - k);
    }
  }

  lemma DividesMultiple(d: nat, q: nat, y: nat)
    requires Divides(d, y)
    ensures Divides(d, q * y)
  {
    var k: nat :| y == d * k;
    assert q * (d * k) == d * (q * k);
  }

  /** The common divisors of x and y are exactly the divisors of their gcd. */
  lemma {:induction false} GcdDivisors(x: nat, y: nat, d: nat)
    ensures Divides(d, x) && Divides(d, y) <==> Divides(d, Gcd(x, y))
    decreases y
  {
    if y == 0 {
      assert 0 == d * 0;
    } else {
      GcdDivisors(y, x % y, d);
      if Divides(d, y) {
        DivNonnegative(x, y);
        DividesMultiple(d, x / y, y);
        assert x == x % y + x / y * y;
        if Divides(d, x) {
          DividesDifference(d, x % y, x / y * y);
        }
        if Divides(d, x % y) {
          DividesSum(d, x % y, x / y * y);
        }
      }
    }
  }

  /** What bn_gcd computes: Euclid's recursion, until a step divides by several words. */
  function CodeGcd(x: nat, y: nat): nat
    decreases y
  {
    if y == 0 then x
    else if x >= y >= BASE then y
    else CodeGcd(y, x % y)
  }

  lemma {:induction false} CodeGcdShort(x: nat, y: nat)
    requires y < BASE
    ensures CodeGcd(x, y) == Gcd(x, y)
    decreases y
  {
    if y > 0 {
      CodeGcdShort(y, x % y);
    }
  }

  lemma GcdIsDivisor(x: nat, y: nat)
    ensures Gcd(x, y) == y && y > 0 <==> Divides(y, x) && y > 0
  {
    if y > 0 {
      if Gcd(x, y) == y {
        assert y == y * 1;
        GcdDivisors(x, y, y);
      }
      if Divides(y, x) {
        var k: nat :| x == y * k;
        DivUnique(x, y, k, 0);
      }
    }
  }

  /** The result is the gcd if and only if the smaller operand has one word or divides the other. */
  lemma GcdRightIff(x: nat, y: nat)
    ensures CodeGcd(x, y) == Gcd(x, y) <==> Min(x, y) < BASE || Divides(Min(x, y), if x < y then y else x)
  {
    if y < BASE {
      CodeGcdShort(x, y);
    } else if x >= y {
      GcdIsDivisor(x, y);
    } else {
      SmallDividend(x, y);
      if x < BASE {
        CodeGcdShort(y, x);
      } else {
        GcdIsDivisor(y, x);
      }
    }
  }

  /** bn_gcd for any operands. */
  method GcdBn(result: Bn, a: Bn, b: Bn)
    requires a.Valid() && b.Valid()
    modifies result
    ensures result.Valid() && result.Val() == CodeGcd(old(a.Val()), old(b.Val()))
  {
    var t1 := new Bn();
    var t2 := new Bn();
    var temp := new Bn();
    ghost var x, y := a.Val(), b.Val();
    t1.Copy(a);
    t2.Copy(b);
    while t2.top > 0
      modifies t1, t2, temp
      invariant fresh(t1) && fresh(t2) && fresh(temp) && t1 != t2 && t2 != temp && t1 != temp
      invariant t1.Valid() && t2.Valid()
      invariant CodeGcd(t1.Val(), t2.Val()) == CodeGcd(x, y)
      decreases t2.Val()
    {
      NonZero(t2);
      SeveralWords(t2);
      var err := Div(null, temp, t1, t2);
      t1.Copy(t2);
      t2.Copy(temp);
    }
    Significant(t2);
    result.Copy(t1);
  }

  /** A number has more than one word exactly when it does not fit in one. */
  lemma SeveralWords(b: Bn)
    requires b.Valid()
    ensures b.top > 1 <==> b.Val() >= BASE
  {
    Significant(b);
    assert Pow(1) == BASE;
    if b.top > 1 {
      TopWord(b.words, b.top);
      PowMono(1, b.top - 1);
    } else {
      SumBound(b.words, b.top);
      PowMono(b.top, 1);
    }
  }
}
