/** Shifts of kernel/crypto/bn.c: multiplication and flooring division by a power of two. */
module BigNumShift {
  import opened Bits
  import opened BnValue
  import opened BigNum

  /** Word powers as powers of two. */
  lemma {:induction false} PowIsPow2(n: nat)
    ensures Pow(n) == Pow2(64 * n)
  {
    if n > 0 {
      PowIsPow2(n - 1);
      Pow2Add(64, 64 * (n - 1));
      assert Pow2(64) == BASE by { Powers(); }
    }
  }

  lemma SplitShift(bits: nat)
    ensures Pow2(bits) == Pow(bits / 64) * Pow2(bits % 64)
  {
    PowIsPow2(bits / 64);
    Pow2Add(64 * (bits / 64), bits % 64);
  }

  /** The two parts of a word under a shift by b: s * t is the word base. */
  lemma Halves(b: nat)
    requires 0 < b < 64
    ensures Pow2(b) * Pow2(64 - b) == BASE && Pow2(b) > 1
  {
    Pow2Add(b, 64 - b);
    assert Pow2(64) == BASE by { Powers(); }
    Pow2Mono(1, b);
  }

  // ---------------------------------------------------------------- left

  lemma LeftParts(w: nat, s: nat, t: nat)
    requires s > 0 && t > 0 && s * t == BASE && w < BASE
    ensures w * s % BASE == (w % t) * s
    ensures w / t < s
    ensures w * s == (w % t) * s + (w / t) * BASE
  {
    var q, r := w / t, w % t;
    assert w == t * q + r;
    DivNonnegative(w, t);
    assert w * s == (w / t) * BASE + r * s by {
      calc {
        w * s;
        (t * q + r) * s;
        { assert (t * q + r) * s == (t * q) * s + r * s; }
        (t * q) * s + r * s;
        { assert (t * q) * s == q * (s * t); }
        q * BASE + r * s;
      }
    }
    MulStrict(s, r, t);
    DivUnique(w * s, BASE, q, r * s);
    if q >= s {
      MulMono(t, s, q);
      assert false;
    }
  }

  /** (w << b) | carry, and the bits shifted out. */
  function LeftWord(w: Word, b: nat, carry: nat): (r: (Word, nat))
    requires 0 < b < 64 && carry < Pow2(b)
    ensures w * Pow2(b) + carry == r.0 + r.1 * BASE && r.1 < Pow2(b)
  {
    assert Pow2(64) == BASE by { Powers(); }
    Halves(b);
    LeftParts(w, Pow2(b), Pow2(64 - b));
    OrDisjoint(w % Pow2(64 - b), carry, b);
    LeftRoom(w % Pow2(64 - b), Pow2(b), Pow2(64 - b), carry);
    (Or(Shl(w, b, 64), carry), Shr(w, 64 - b))
  }

  lemma LeftRoom(r: nat, s: nat, t: nat, carry: nat)
    requires r < t && carry < s && s * t == BASE
    ensures r * s + carry < BASE
  {
    MulStrict(s, r, t);
  }

  /** Words from k on are zero. */
  ghost predicate ClearFrom(ws: seq<Word>, k: nat) {
    forall j :: k <= j < |ws| ==> ws[j] == 0
  }

  /** Storing the next shifted word. */
  lemma LeftStep(ws: seq<Word>, a: seq<Word>, i: nat, shift: nat, s: nat, carry: nat, out: Word, next: nat)
    requires i < |a| && i + shift < |ws| && ws[i + shift] == 0
    requires a[i] * s + carry == out + next * BASE
    requires Sum(ws, |ws|) + Scaled(carry, i + shift) == Sum(a, i) * (Pow(shift) * s)
    ensures Sum(ws[i + shift := out], |ws|) + Scaled(next, i + 1 + shift) == Sum(a, i + 1) * (Pow(shift) * s)
  {
    SumUpdate(ws, i + shift, out, |ws|);
    WordsBalance(a[i] * s, carry, out, next, i + shift);
    LeftWeight(a[i], i, shift, s);
    DistributeRight(Sum(a, i), Scaled(a[i], i), Pow(shift) * s);
  }

  lemma WordsBalance(x: nat, carry: nat, out: nat, next: nat, k: nat)
    requires x + carry == out + next * BASE
    ensures Scaled(x, k) + Scaled(carry, k) == Scaled(out, k) + Scaled(next, k + 1)
  {
    ScaledAdd(x, carry, k);
    ScaledAdd(out, next * BASE, k);
    ScaledCarry(next, k);
  }

  lemma LeftWeight(w: nat, i: nat, shift: nat, s: nat)
    ensures Scaled(w, i) * (Pow(shift) * s) == Scaled(w * s, i + shift)
  {
    PowAdd(i, shift);
    var p, q := Pow(i), Pow(shift);
    calc {
      (w * p) * (q * s);
      { MulAssoc(w, p, q * s); }
      w * (p * (q * s));
      { MulAssoc(p, q, s); }
      w * ((p * q) * s);
      { assert (p * q) * s == s * (p * q); MulAssoc(w, s, p * q); }
      (w * s) * (p * q);
    }
  }

  /** Fill res, which is zero, with a shifted by whole words and b bits. */
  method LeftFill(res: Bn, a: seq<Word>, n: nat, shift: nat, b: nat)
    requires n <= |a| && n + shift < |res.words| && ClearFrom(res.words, 0) && b < 64
    modifies res`words
    ensures res.Val() == Sum(a, n) * (Pow(shift) * Pow2(b))
  {
    SumZeros(res.words, 0, |res.words|);
    if b == 0 {
      for i := 0 to n
        invariant |res.words| == |old(res.words)| && ClearFrom(res.words, i + shift)
        invariant res.Val() == Sum(a, i) * (Pow(shift) * 1)
      {
        LeftStep(res.words, a, i, shift, 1, 0, a[i], 0);
        res.words := res.words[i + shift := a[i]];
      }
    } else {
      var carry := 0;
      for i := 0 to n
        invariant |res.words| == |old(res.words)| && ClearFrom(res.words, i + shift) && carry < Pow2(b)
        invariant res.Val() + Scaled(carry, i + shift) == Sum(a, i) * (Pow(shift) * Pow2(b))
      {
        var (out, next) := LeftWord(a[i], b, carry);
        LeftStep(res.words, a, i, shift, Pow2(b), carry, out, next);
        res.words := res.words[i + shift := out];
        carry := next;
      }
      CarryIsWord(carry, b);
      SumUpdate(res.words, n + shift, carry, |res.words|);
      res.words := res.words[n + shift := carry];
    }
  }

  lemma CarryIsWord(carry: nat, b: nat)
    requires carry < Pow2(b) && b < 64
    ensures carry < BASE
  {
    Pow2Mono(b, 64);
    assert Pow2(64) == BASE by { Powers(); }
  }

  /** A shift by a non-zero count multiplies by 2^bits; a shift by zero is bn_copy, which clears a
      number shifted in place. */
  method LShift(result: Bn, a: Bn, bits: nat)
    requires a.top <= |a.words|
    modifies result
    ensures |result.words| >= old(|result.words|)
    ensures bits > 0 ==> result.Valid() && result.Val() == Sum(old(a.words), old(a.top)) * Pow2(bits)
    ensures old(a.Valid()) && (bits > 0 || result != a) ==>
              result.Valid() && result.Val() == old(a.Val()) * Pow2(bits)
    ensures bits == 0 && result == a ==> result.Val() == 0 && result.top == old(a.top)
  {
    if bits == 0 {
      result.Copy(a);
      return;
    }
    if a.Valid() {
      Significant(a);
    }
    SplitShift(bits);
    var res := new Bn();
    res.Ensure(a.top + bits / 64 + 1);
    LeftFill(res, a.words, a.top, bits / 64, bits % 64);
    res.FixTop();
    result.Copy(res);
  }

  // ---------------------------------------------------------------- right

  /** (w >> b) | carry, and the bits that move into the next lower word; the carry holds the h
      that fell out of the word above, already at the top of the word. */
  function RightWord(w: Word, b: nat, carry: nat, ghost h: nat): (r: (Word, nat))
    requires 0 < b < 64 && h < Pow2(b) && carry == h * Pow2(64 - b)
    ensures r.0 == w / Pow2(b) + carry && r.1 == (w % Pow2(b)) * Pow2(64 - b)
  {
    Halves(b);
    RightParts(w, b, h, Pow2(b), Pow2(64 - b));
    (Or(Shr(w, b), carry), Shl(w, 64 - b, 64))
  }

  lemma RightParts(w: Word, b: nat, h: nat, s: nat, t: nat)
    requires 0 < b < 64 && s == Pow2(b) && t == Pow2(64 - b) && s * t == BASE && h < s
    ensures Or(Shr(w, b), h * t) == w / s + h * t < BASE
    ensures Shl(w, 64 - b, 64) == (w % s) * t
  {
    assert Pow2(64) == BASE by { Powers(); }
    LeftParts(w, t, s);
    DivNonnegative(w, s);
    OrDisjoint(h, w / s, 64 - b);
    LeftRoom(h, t, s, w / s);
  }

  /** A number by its lowest word and the rest. */
  lemma SumCons(ws: seq<Word>, j: nat, m: nat)
    requires j + m < |ws|
    ensures Sum(ws[j..], m + 1) == ws[j] + BASE * Sum(ws[j + 1..], m)
  {
    var v := ws[j..];
    SumSplit(v, 1, m + 1);
    assert v[1..] == ws[j + 1..];
    assert Sum(v, 1) == v[0] by { assert Pow(0) == 1; }
    assert Pow(1) == BASE;
  }

  /** Dividing one more word: the quotient and remainder of the words above continue. */
  lemma RightStep(w: nat, high: nat, q: nat, h: nat, s: nat, t: nat)
    requires s > 0 && s * t == BASE && high == q * s + h
    ensures w + BASE * high == (w / s + h * t + BASE * q) * s + w % s
  {
    var x, y := w / s, w % s;
    assert w == s * x + y;
    calc {
      (x + h * t + BASE * q) * s + y;
      { assert (x + h * t + BASE * q) * s == x * s + (h * t) * s + (BASE * q) * s; }
      x * s + (h * t) * s + (BASE * q) * s + y;
      { assert (h * t) * s == h * (s * t); assert (BASE * q) * s == BASE * (q * s); }
      x * s + y + BASE * h + BASE * (q * s);
      w + BASE * high;
    }
  }

  /** Storing the next word keeps quotient and remainder of the words seen so far. */
  lemma RightStore(ws: seq<Word>, a: seq<Word>, n: nat, shift: nat, idx: nat, out: Word, h: nat, s: nat, t: nat)
    requires shift <= idx < n <= |a| && n - shift <= |ws| && s > 0 && s * t == BASE && out == a[idx] / s + h * t
    requires Sum(a[idx + 1..], n - idx - 1) == Sum(ws[idx + 1 - shift..], n - idx - 1) * s + h
    ensures Sum(a[idx..], n - idx) == Sum(ws[idx - shift := out][idx - shift..], n - idx) * s + a[idx] % s
  {
    var now := ws[idx - shift := out];
    var m := n - idx - 1;
    assert now[idx - shift + 1..] == ws[idx + 1 - shift..];
    SumCons(a, idx, m);
    SumCons(now, idx - shift, m);
    RightStep(a[idx], Sum(a[idx + 1..], m), Sum(ws[idx + 1 - shift..], m), h, s, t);
  }

  method RightFill(res: Bn, a: seq<Word>, n: nat, shift: nat, b: nat)
    requires shift < n <= |a| && n - shift <= |res.words| && ClearFrom(res.words, 0) && 0 < b < 64
    modifies res`words
    ensures |res.words| == |old(res.words)| && ClearFrom(res.words, n - shift)
    ensures Sum(res.words, n - shift) == Sum(a[shift..], n - shift) / Pow2(b)
  {
    ghost var h := RightLoop(res, a, n, shift, b);
    DivUnique(Sum(a[shift..], n - shift), Pow2(b), Sum(res.words, n - shift), h);
  }

  /** Quotient words from the top down; what falls out at the bottom is the remainder. */
  method RightLoop(res: Bn, a: seq<Word>, n: nat, shift: nat, b: nat) returns (ghost h: nat)
    requires shift < n <= |a| && n - shift <= |res.words| && ClearFrom(res.words, 0) && 0 < b < 64
    modifies res`words
    ensures |res.words| == |old(res.words)| && ClearFrom(res.words, n - shift) && h < Pow2(b)
    ensures Sum(a[shift..], n - shift) == Sum(res.words, n - shift) * Pow2(b) + h
  {
    Halves(b);
    var carry := 0;
    ghost var s, t := Pow2(b), Pow2(64 - b);
    h := 0;
    var i := n;
    while i > shift
      invariant shift <= i <= n && |res.words| == |old(res.words)| && ClearFrom(res.words, n - shift)
      invariant h < s && carry == h * t
      invariant Sum(a[i..], n - i) == Sum(res.words[i - shift..], n - i) * s + h
    {
      var idx := i - 1;
      var (out, next) := RightWord(a[idx], b, carry, h);
      RightStore(res.words, a, n, shift, idx, out, h, s, t);
      res.words := res.words[idx - shift := out];
      h := a[idx] % s;
      carry := next;
      i := idx;
    }
    assert res.words[0..] == res.words;
  }

  /** Copying the words above the shift. */
  method WordsFill(res: Bn, a: seq<Word>, n: nat, shift: nat)
    requires shift < n <= |a| && n - shift <= |res.words| && ClearFrom(res.words, 0)
    modifies res`words
    ensures |res.words| == |old(res.words)| && ClearFrom(res.words, n - shift)
    ensures Sum(res.words, n - shift) == Sum(a[shift..], n - shift)
  {
    for i := shift to n
      invariant |res.words| == |old(res.words)| && ClearFrom(res.words, i - shift)
      invariant forall k :: 0 <= k < i - shift ==> res.words[k] == a[shift + k]
    {
      res.words := res.words[i - shift := a[i]];
    }
    assert res.words[..n - shift] == a[shift..][..n - shift];
    SumPrefix(res.words, a[shift..], n - shift);
  }

  /** The words above the shift are the quotient by BASE^shift. */
  lemma HighWords(a: seq<Word>, n: nat, shift: nat, b: nat)
    requires shift <= n <= |a|
    ensures Sum(a[shift..], n - shift) / Pow2(b) == Sum(a, n) / (Pow(shift) * Pow2(b))
  {
    SumSplit(a, shift, n);
    SumBound(a, shift);
    DivUnique(Sum(a, n), Pow(shift), Sum(a[shift..], n - shift), Sum(a, shift));
    DivDiv(Sum(a, n), Pow(shift), Pow2(b));
  }

  /** A shift by a non-zero count divides by 2^bits, rounding down. */
  method RShift(result: Bn, a: Bn, bits: nat)
    requires a.Valid()
    modifies result
    ensures bits > 0 || result != a ==> result.Valid() && result.Val() == old(a.Val()) / Pow2(bits)
    ensures bits == 0 && result == a ==> result.Val() == 0 && result.top == old(a.top)
  {
    if bits == 0 {
      result.Copy(a);
      return;
    }
    Significant(a);
    SplitShift(bits);
    var shift, b := bits / 64, bits % 64;
    ghost var value := a.Val();
    if shift >= a.top {
      SmallValue(a.words, a.top, shift, b);
      result.FromInt(0);
      return;
    }
    var n := a.top;
    HighWords(a.words, n, shift, b);
    var res := new Bn();
    res.Ensure(n - shift);
    if b == 0 {
      WordsFill(res, a.words, n, shift);
    } else {
      RightFill(res, a.words, n, shift, b);
    }
    SumZeros(res.words, n - shift, |res.words|);
    res.FixTop();
    result.Copy(res);
  }

  lemma SmallValue(a: seq<Word>, n: nat, shift: nat, b: nat)
    requires n <= |a| && n <= shift
    ensures Sum(a, n) / (Pow(shift) * Pow2(b)) == 0
  {
    SumBound(a, n);
    PowMono(n, shift);
    MulMono(Pow(shift), 1, Pow2(b));
    DivUnique(Sum(a, n), Pow(shift) * Pow2(b), 0, Sum(a, n));
  }
}
