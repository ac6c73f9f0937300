/** Little-endian sequences of 64-bit words as natural numbers. */
module BnValue {
  import opened Bits

  const BASE := 0x1_0000_0000_0000_0000
  const WORD_MAX := 0xFFFF_FFFF_FFFF_FFFF

  type Word = w: nat | w < BASE

  /** BASE to the n. */
  function Pow(n: nat): (p: nat)
    ensures p > 0
  {
    if n == 0 then 1 else BASE * Pow(n - 1)
  }

  /** The number formed by the first n words. */
  function Sum(ws: seq<Word>, n: nat): (v: nat)
    requires n <= |ws|
  {
    if n == 0 then 0 else Sum(ws, n - 1) + Scaled(ws[n - 1], n - 1)
  }

  /** w * BASE^n */
  function Scaled(w: nat, n: nat): nat {
    w * Pow(n)
  }

  lemma ScaledAdd(a: nat, b: nat, n: nat)
    ensures Scaled(a + b, n) == Scaled(a, n) + Scaled(b, n)
  {
  }

  lemma ScaledCarry(c: nat, n: nat)
    ensures Scaled(c * BASE, n) == Scaled(c, n + 1)
  {
    assert c * BASE * Pow(n) == c * (BASE * Pow(n));
  }

  lemma ScaledMono(a: nat, b: nat, n: nat)
    requires a <= b
    ensures Scaled(a, n) <= Scaled(b, n)
  {
    MulMono(Pow(n), a, b);
  }

  lemma {:induction false} PowAdd(m: nat, n: nat)
    ensures Pow(m + n) == Pow(m) * Pow(n)
  {
    if m > 0 {
      PowAdd(m - 1, n);
      MulAssoc(BASE, Pow(m - 1), Pow(n));
    }
  }

  /** Only the first n words matter. */
  lemma {:induction false} SumPrefix(ws: seq<Word>, vs: seq<Word>, n: nat)
    requires n <= |ws| && n <= |vs| && ws[..n] == vs[..n]
    ensures Sum(ws, n) == Sum(vs, n)
  {
    if n > 0 {
      assert ws[n - 1] == ws[..n][n - 1] && vs[n - 1] == vs[..n][n - 1];
      assert ws[..n - 1] == ws[..n][..n - 1] && vs[..n - 1] == vs[..n][..n - 1];
      SumPrefix(ws, vs, n - 1);
    }
  }

  /** Zero words on top add nothing. */
  lemma {:induction false} SumZeros(ws: seq<Word>, m: nat, n: nat)
    requires m <= n <= |ws| && forall k :: m <= k < n ==> ws[k] == 0
    ensures Sum(ws, n) == Sum(ws, m)
  {
    if m < n {
      SumZeros(ws, m, n - 1);
    }
  }

  lemma {:induction false} SumBound(ws: seq<Word>, n: nat)
    requires n <= |ws|
    ensures Sum(ws, n) < Pow(n)
  {
    if n > 0 {
      SumBound(ws, n - 1);
      ScaledMono(ws[n - 1], BASE - 1, n - 1);
      ScaledAdd(BASE - 1, 1, n - 1);
      ScaledCarry(1, n - 1);
    }
  }

  /** Changing one word changes the number by that much at that place. */
  lemma {:induction false} SumUpdate(ws: seq<Word>, k: nat, w: Word, n: nat)
    requires k < n <= |ws|
    ensures Sum(ws[k := w], n) + Scaled(ws[k], k) == Sum(ws, n) + Scaled(w, k)
  {
    if n - 1 == k {
      SumPrefix(ws[k := w], ws, k);
    } else {
      SumUpdate(ws, k, w, n - 1);
    }
  }

  /** The words above m, as a number of their own. */
  lemma {:induction false} SumSplit(ws: seq<Word>, m: nat, n: nat)
    requires m <= n <= |ws|
    ensures Sum(ws, n) == Sum(ws, m) + Pow(m) * Sum(ws[m..], n - m)
  {
    if m < n {
      SumSplit(ws, m, n - 1);
      var j := n - 1 - m;
      PowAdd(m, j);
      assert Scaled(ws[n - 1], n - 1) == Pow(m) * Scaled(ws[m..][j], j) by {
        ThreeWay(ws[n - 1], Pow(m), Pow(j));
      }
      Distribute(Pow(m), Sum(ws[m..], j), Scaled(ws[m..][j], j));
    }
  }

  lemma ThreeWay(w: nat, p: nat, q: nat)
    ensures w * (p * q) == p * (w * q)
  {
  }

  lemma Distribute(p: nat, a: nat, b: nat)
    ensures p * (a + b) == p * a + p * b
  {
  }

  lemma DistributeRight(x: nat, y: nat, z: nat)
    ensures (x + y) * z == x * z + y * z
  {
  }

  /** Zero exactly when every word is. */
  lemma {:induction false} SumIsZero(ws: seq<Word>, n: nat)
    requires n <= |ws|
    ensures Sum(ws, n) == 0 <==> forall k :: 0 <= k < n ==> ws[k] == 0
  {
    if n > 0 {
      SumIsZero(ws, n - 1);
      if ws[n - 1] > 0 {
        ScaledMono(1, ws[n - 1], n - 1);
      }
    }
  }

  /** A number whose top word is not zero has at least the weight of that word. */
  lemma TopWord(ws: seq<Word>, n: nat)
    requires 0 < n <= |ws| && ws[n - 1] != 0
    ensures Pow(n - 1) <= Sum(ws, n)
  {
    ScaledMono(1, ws[n - 1], n - 1);
  }

  lemma {:induction false} PowMono(m: nat, n: nat)
    requires m <= n
    ensures Pow(m) <= Pow(n)
  {
    if m < n {
      PowMono(m, n - 1);
    }
  }

  /** The highest word where two numbers differ decides their order. */
  lemma {:induction false} SumOrder(ws: seq<Word>, vs: seq<Word>, k: nat, n: nat)
    requires k < n <= |ws| && n <= |vs| && ws[k] < vs[k] && forall j :: k < j < n ==> ws[j] == vs[j]
    ensures Sum(ws, n) < Sum(vs, n)
  {
    if n - 1 == k {
      SumBound(ws, k);
      ScaledAdd(ws[k], 1, k);
      ScaledMono(ws[k] + 1, vs[k], k);
    } else {
      SumOrder(ws, vs, k, n - 1);
    }
  }
}
