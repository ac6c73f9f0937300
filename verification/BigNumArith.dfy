/** Addition, subtraction and multiplication of kernel/crypto/bn.c on numbers of any length. */
module BigNumArith {
  import opened Bits
  import opened Values
  import opened BnValue
  import opened BigNum

  /** Word i of a number of `top` words. */
  function Digit(ws: seq<Word>, top: nat, i: nat): Word
    requires top <= |ws|
  {
    if i < top then ws[i] else 0
  }

  /** The number formed by the first n digits. */
  ghost function DigitSum(ws: seq<Word>, top: nat, n: nat): nat
    requires top <= |ws|
  {
    if n == 0 then 0 else DigitSum(ws, top, n - 1) + Scaled(Digit(ws, top, n - 1), n - 1)
  }

  lemma {:induction false} DigitSumIs(ws: seq<Word>, top: nat, n: nat)
    requires top <= |ws|
    ensures n <= top ==> DigitSum(ws, top, n) == Sum(ws, n)
    ensures n >= top ==> DigitSum(ws, top, n) == Sum(ws, top)
  {
    if n > 0 {
      DigitSumIs(ws, top, n - 1);
    }
  }

  /** The words of a from i on are still those of the snapshot. */
  ghost predicate Ahead(a: Bn, was: seq<Word>, i: nat)
    reads a
  {
    |a.words| == |was| && forall k :: i <= k < |was| ==> a.words[k] == was[k]
  }

  // ---------------------------------------------------------------- addition

  lemma AddStep(s: nat, x: nat, y: nat, wa: Word, wb: Word, c: nat, sum: Word, out: nat, i: nat)
    requires s + Scaled(c, i) == x + y && wa + wb + c == sum + out * BASE
    ensures s + Scaled(sum, i) + Scaled(out, i + 1) == (x + Scaled(wa, i)) + (y + Scaled(wb, i))
  {
    ScaledAdd(wa, wb, i);
    ScaledAdd(wa + wb, c, i);
    ScaledAdd(sum, out * BASE, i);
    ScaledCarry(out, i);
  }

  /** The value left in result words that addition does not reach. */
  ghost function Stale(ws: seq<Word>, n: nat): nat {
    if n <= |ws| then Pow(n) * Sum(ws[n..], |ws| - n) else 0
  }

  lemma StaleIsZero(ws: seq<Word>, n: nat)
    ensures Stale(ws, n) == 0 <==> forall k :: n <= k < |ws| ==> ws[k] == 0
  {
    if n <= |ws| {
      SumIsZero(ws[n..], |ws| - n);
      MulMono(Sum(ws[n..], |ws| - n), 1, Pow(n));
    }
  }

  /** The result is the sum plus whatever the result object still held above the longer operand: the
      sum is exact if and only if those words were zero, as they are when the result is an operand
      or freshly allocated. */
  method Add(result: Bn, a: Bn, b: Bn)
    requires a.Valid() && b.Valid()
    modifies result
    ensures result.Valid()
    ensures result.Val() == old(a.Val()) + old(b.Val()) + Stale(old(result.words), Max(old(a.top), old(b.top)) + 1)
  {
    Significant(a);
    Significant(b);
    var maxLen := Max(a.top, b.top) + 1;
    ghost var stale := result.words;
    result.Ensure(maxLen);
    ghost var A, B, R := a.words, b.words, result.words;
    OperandsGrown(old(a.words), A, a.top);
    OperandsGrown(old(b.words), B, b.top);
    StaleGrown(stale, R, maxLen);
    var carry := AddLoop(result, a, b, maxLen, A, B, R);
    DigitSumIs(A, a.top, maxLen);
    DigitSumIs(B, b.top, maxLen);
    NoCarryOut(Sum(result.words, maxLen), Sum(A, a.top), Sum(B, b.top), carry, A, B, a.top, b.top, maxLen);
    assert Sum(result.words, |result.words|) == Sum(result.words, maxLen) + Stale(stale, maxLen) by {
      SumSplit(result.words, maxLen, |result.words|);
      assert result.words[maxLen..] == R[maxLen..];
    }
    result.FixTop();
  }

  method AddLoop(result: Bn, a: Bn, b: Bn, n: nat, ghost A: seq<Word>, ghost B: seq<Word>, ghost R: seq<Word>)
    returns (carry: nat)
    requires a.words == A && b.words == B && result.words == R
    requires a.top <= |A| && b.top <= |B| && n <= |R|
    modifies result`words
    ensures carry <= 1 && Ahead(result, R, n)
    ensures Sum(result.words, n) + Scaled(carry, n) == DigitSum(A, a.top, n) + DigitSum(B, b.top, n)
  {
    carry := 0;
    for i := 0 to n
      invariant carry <= 1 && Ahead(a, A, i) && Ahead(b, B, i) && Ahead(result, R, i)
      invariant Sum(result.words, i) + Scaled(carry, i) == DigitSum(A, a.top, i) + DigitSum(B, b.top, i)
    {
      var wa := if i < a.top then a.words[i] else 0;
      var wb := if i < b.top then b.words[i] else 0;
      var (sum, out) := AddWord(wa, wb, carry);
      AddStep(Sum(result.words, i), DigitSum(A, a.top, i), DigitSum(B, b.top, i), wa, wb, carry, sum, out, i);
      SumPrefix(result.words[i := sum], result.words, i);
      result.words := result.words[i := sum];
      carry := out;
    }
  }

  lemma OperandsGrown(was: seq<Word>, now: seq<Word>, top: nat)
    requires top <= |was| <= |now| && now[..|was|] == was
    ensures Sum(now, top) == Sum(was, top)
  {
    assert now[..top] == was[..top];
    SumPrefix(now, was, top);
  }

  lemma StaleGrown(was: seq<Word>, now: seq<Word>, n: nat)
    requires |was| <= |now| && n <= |now| && now[..|was|] == was && forall k :: |was| <= k < |now| ==> now[k] == 0
    ensures Pow(n) * Sum(now[n..], |now| - n) == Stale(was, n)
  {
    if n <= |was| {
      SumZeros(now[n..], |was| - n, |now| - n);
      assert now[n..][..|was| - n] == was[n..];
      SumPrefix(now[n..], was[n..], |was| - n);
      assert Sum(now[n..], |now| - n) == Sum(was[n..], |was| - n);
    } else {
      SumZeros(now[n..], 0, |now| - n);
      assert Sum(now[n..], |now| - n) == 0;
    }
  }

  /** The extra word takes the last carry. */
  lemma NoCarryOut(s: nat, x: nat, y: nat, carry: nat, A: seq<Word>, B: seq<Word>, ta: nat, tb: nat, n: nat)
    requires ta <= |A| && tb <= |B| && ta < n && tb < n && x == Sum(A, ta) && y == Sum(B, tb) && carry <= 1
    requires s + Scaled(carry, n) == x + y
    ensures carry == 0
  {
    SumBound(A, ta);
    SumBound(B, tb);
    PowMono(ta, n - 1);
    PowMono(tb, n - 1);
    assert Pow(n) == BASE * Pow(n - 1);
  }

  // ---------------------------------------------------------------- subtraction

  lemma SubStep(s: nat, x: nat, y: nat, wa: Word, wb: Word, c: nat, diff: Word, out: nat, i: nat)
    requires s + y == x + Scaled(c, i) && wa + out * BASE == diff + wb + c
    ensures s + Scaled(diff, i) + (y + Scaled(wb, i)) == x + Scaled(wa, i) + Scaled(out, i + 1)
  {
    ScaledAdd(wa, out * BASE, i);
    ScaledCarry(out, i);
    ScaledAdd(diff, wb, i);
    ScaledAdd(diff + wb, c, i);
  }

  method SubLoop(result: Bn, a: Bn, b: Bn, n: nat, ghost A: seq<Word>, ghost B: seq<Word>, ghost R: seq<Word>)
    returns (borrow: nat)
    requires a.words == A && b.words == B && result.words == R
    requires n == a.top <= |A| && b.top <= |B| && n <= |R|
    modifies result`words
    ensures borrow <= 1 && Ahead(result, R, n)
    ensures Sum(result.words, n) + DigitSum(B, b.top, n) == Sum(A, n) + Scaled(borrow, n)
  {
    borrow := 0;
    for i := 0 to n
      invariant borrow <= 1 && Ahead(a, A, i) && Ahead(b, B, i) && Ahead(result, R, i)
      invariant Sum(result.words, i) + DigitSum(B, b.top, i) == Sum(A, i) + Scaled(borrow, i)
    {
      var wa := a.words[i];
      var wb := if i < b.top then b.words[i] else 0;
      var (diff, out) := SubWord(wa, wb, borrow);
      SubStep(Sum(result.words, i), Sum(A, i), DigitSum(B, b.top, i), wa, wb, borrow, diff, out, i);
      SumPrefix(result.words[i := diff], result.words, i);
      result.words := result.words[i := diff];
      borrow := out;
    }
  }

  /** The difference when it is not negative; otherwise an error and nothing changes. */
  method Sub(result: Bn, a: Bn, b: Bn) returns (err: Status)
    requires a.Valid() && b.Valid()
    modifies result
    ensures old(a.Val()) < old(b.Val()) ==>
              err == InvalidArg && result.words == old(result.words) && result.top == old(result.top)
    ensures old(a.Val()) >= old(b.Val()) ==> err == Ok && result.Valid() && result.Val() == old(a.Val()) - old(b.Val())
  {
    var c := a.Cmp(b);
    if c < 0 {
      return InvalidArg;
    }
    SubInto(result, a, b);
    err := Ok;
  }

  method SubInto(result: Bn, a: Bn, b: Bn)
    requires a.Valid() && b.Valid() && a.Val() >= b.Val()
    modifies result
    ensures result.Valid() && result.Val() == old(a.Val()) - old(b.Val())
  {
    Significant(a);
    Significant(b);
    if a.top < b.top {
      LongerIsGreater(a, b);
    }
    var n := a.top;
    result.Ensure(n);
    ghost var A, B := a.words, b.words;
    OperandsGrown(old(a.words), A, n);
    OperandsGrown(old(b.words), B, b.top);
    var borrow := SubLoop(result, a, b, n, A, B, result.words);
    DigitSumIs(B, b.top, n);
    NoBorrowOut(result.words, n, Sum(A, n), Sum(B, b.top), borrow);
    ClearAbove(result, n);
    result.FixTop();
  }

  /** memset of the words from n on. */
  method ClearAbove(result: Bn, n: nat)
    requires n <= |result.words|
    modifies result`words
    ensures result.Val() == Sum(old(result.words), n)
  {
    ghost var low := result.words;
    result.words := result.words[..n] + Zeros(|result.words| - n);
    SumPrefix(result.words, low, n);
    SumZeros(result.words, n, |result.words|);
  }

  lemma NoBorrowOut(ws: seq<Word>, n: nat, x: nat, y: nat, borrow: nat)
    requires n <= |ws| && borrow <= 1 && x >= y && Sum(ws, n) + y == x + Scaled(borrow, n)
    ensures borrow == 0
  {
    SumBound(ws, n);
  }

  // ---------------------------------------------------------------- multiplication

  /** One 128-bit multiply-accumulate, split into low and high word.  The accumulator never
      overflows, so its reductions modulo 2^128 change nothing. */
  function MulWord(x: Word, y: Word, r: Word, c: Word): (p: (Word, Word))
    ensures x * y + r + c == p.0 + p.1 * BASE
  {
    ProductBound(x, y);
    Accumulate(x * y, r, c)
  }

  lemma ProductBound(x: Word, y: Word)
    ensures 0 <= x * y <= WORD_MAX * WORD_MAX
  {
    MulMono(x, 0, y);
    MulMono(x, y, WORD_MAX);
    MulMono(WORD_MAX, x, WORD_MAX);
  }

  function Accumulate(xy: nat, r: Word, c: Word): (p: (Word, Word))
    requires xy <= WORD_MAX * WORD_MAX
    ensures xy + r + c == p.0 + p.1 * BASE
  {
    var prod := ((xy + r) % (BASE * BASE) + c) % (BASE * BASE);
    (prod % BASE, prod / BASE)
  }

  /** One inner step: the low half stays, the high half is the next carry. */
  lemma MulStep(total: nat, total': nat, base: nat, X: nat, xy: nat, y: Word, r: Word, c: Word, lo: Word, hi: Word,
                k: nat, j: nat, sum: nat)
    requires total + Scaled(c, k) == base + X * sum
    requires xy + r + c == lo + hi * BASE && Scaled(xy, k) == X * Scaled(y, j)
    requires total' + Scaled(r, k) == total + Scaled(lo, k)
    ensures total' + Scaled(hi, k + 1) == base + X * (sum + Scaled(y, j))
  {
    ScaledCarry(hi, k);
    ScaledAdd(lo, hi * BASE, k);
    ScaledAdd(xy, r, k);
    ScaledAdd(xy + r, c, k);
    Distribute(X, sum, Scaled(y, j));
  }

  lemma ScaledProduct(x: nat, y: nat, i: nat, j: nat)
    ensures Scaled(x * y, i + j) == Scaled(x, i) * Scaled(y, j)
  {
    PowAdd(i, j);
    var p, q := Pow(i), Pow(j);
    calc {
      x * y * (p * q);
      { MulAssoc(x, y, p * q); }
      x * (y * (p * q));
      { ThreeWay(y, p, q); }
      x * (p * (y * q));
      { MulAssoc(x, p, y * q); }
      (x * p) * (y * q);
    }
  }

  /** Add a[i] * b into res at word i. */
  method MulRow(res: Bn, a: seq<Word>, b: seq<Word>, i: nat, m: nat)
    requires i < |a| && m <= |b| && i + m < |res.words|
    requires forall k :: i + m <= k < |res.words| ==> res.words[k] == 0
    modifies res`words
    ensures |res.words| == |old(res.words)|
    ensures forall k :: i + m < k < |res.words| ==> res.words[k] == 0
    ensures res.Val() == old(res.Val()) + Scaled(a[i], i) * Sum(b, m)
  {
    var carry: Word := 0;
    ghost var start := res.Val();
    for j := 0 to m
      invariant |res.words| == |old(res.words)|
      invariant forall k :: i + m <= k < |res.words| ==> res.words[k] == 0
      invariant RowDone(res.words, carry, i + j, start, a[i], i, Sum(b, j))
    {
      var (lo, hi) := MulWord(a[i], b[j], res.words[i + j], carry);
      MulRowStep(res.words, start, a[i], b, i, j, carry, lo, hi);
      res.words := res.words[i + j := lo];
      carry := hi;
    }
    SumUpdate(res.words, i + m, carry, |res.words|);
    ModSmall(carry, BASE);
    res.words := res.words[i + m := (res.words[i + m] + carry) % BASE];
  }

  /** The value, with the carry at word k, is the start plus word x at place i times s. */
  ghost predicate RowDone(ws: seq<Word>, carry: nat, k: nat, start: nat, x: Word, i: nat, s: nat) {
    Sum(ws, |ws|) + Scaled(carry, k) == start + Scaled(x, i) * s
  }

  lemma MulRowStep(ws: seq<Word>, start: nat, x: Word, b: seq<Word>, i: nat, j: nat, carry: Word, lo: Word, hi: Word)
    requires j < |b| && i + j < |ws| && x * b[j] + ws[i + j] + carry == lo + hi * BASE
    requires RowDone(ws, carry, i + j, start, x, i, Sum(b, j))
    ensures RowDone(ws[i + j := lo], hi, i + j + 1, start, x, i, Sum(b, j + 1))
  {
    ProductBound(x, b[j]);
    SumUpdate(ws, i + j, lo, |ws|);
    ScaledProduct(x, b[j], i, j);
    assert Sum(b, j + 1) == Sum(b, j) + Scaled(b[j], j);
    MulStep(Sum(ws, |ws|), Sum(ws[i + j := lo], |ws|), start, Scaled(x, i), x * b[j], b[j], ws[i + j], carry, lo, hi,
            i + j, j, Sum(b, j));
  }

  /** The product, whatever aliases what: it is built in a fresh number. */
  method Mul(result: Bn, a: Bn, b: Bn)
    requires a.Valid() && b.Valid()
    modifies result
    ensures result.Valid() && result.Val() == old(a.Val()) * old(b.Val())
  {
    Significant(a);
    Significant(b);
    var res := new Bn();
    res.Ensure(a.top + b.top);
    for i := 0 to a.top
      modifies res
      invariant fresh(res) && |res.words| >= a.top + b.top
      invariant forall k :: i + b.top <= k < |res.words| ==> res.words[k] == 0
      invariant res.Val() == Sum(a.words, i) * Sum(b.words, b.top)
    {
      MulRow(res, a.words, b.words, i, b.top);
      DistributeRight(Sum(a.words, i), Scaled(a.words[i], i), Sum(b.words, b.top));
    }
    res.FixTop();
    result.Copy(res);
  }
}
