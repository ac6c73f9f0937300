/** kernel/crypto/bn.c: arithmetic on numbers held as growable arrays of 64-bit words.  Operands
    and result may be the same object wherever the C code allows it. */
module BigNum {
  import opened BnValue

  const DEFAULT_CAPACITY := 32

  function Zeros(n: nat): (z: seq<Word>)
    ensures |z| == n && forall k :: 0 <= k < n ==> z[k] == 0
  {
    seq(n, _ => 0)
  }

  function Max(a: nat, b: nat): nat { if a > b then a else b }

  // ---------------------------------------------------------------- carries and borrows

  /** 64-bit addition with carry in: the test on the truncated sum finds the carry out. */
  function AddWord(wa: Word, wb: Word, carry: nat): (r: (Word, nat))
    requires carry <= 1
    ensures r.1 <= 1 && wa + wb + carry == r.0 + r.1 * BASE
  {
    var sum := (wa + wb + carry) % BASE;
    (sum, if sum < wa || (carry == 1 && sum == wa) then 1 else 0)
  }

  /** 64-bit subtraction with borrow in. */
  function SubWord(wa: Word, wb: Word, borrow: nat): (r: (Word, nat))
    requires borrow <= 1
    ensures r.1 <= 1 && wa + r.1 * BASE == r.0 + wb + borrow
  {
    ((wa - wb - borrow) % BASE,
     if wa < (wb + borrow) % BASE || (borrow == 1 && wb == WORD_MAX) then 1 else 0)
  }

  class Bn {
    var words: seq<Word>
    var top: nat

    /** Normal form: no words above top, and the top word is not zero. */
    ghost predicate Valid()
      reads this
    {
      && top <= |words|
      && (forall k :: top <= k < |words| ==> words[k] == 0)
      && (top > 0 ==> words[top - 1] != 0)
    }

    /** The number represented. */
    ghost function Val(): nat
      reads this
    {
      Sum(words, |words|)
    }

    constructor ()
      ensures Valid() && Val() == 0 && words == Zeros(DEFAULT_CAPACITY) && top == 0
    {
      words := Zeros(DEFAULT_CAPACITY);
      top := 0;
      new;
      SumZeros(words, 0, |words|);
    }

    /** Make room for n words; the new ones are zero. */
    method Ensure(n: nat)
      modifies this`words
      ensures |words| >= n && |words| >= |old(words)| && words[..|old(words)|] == old(words)
      ensures forall k :: |old(words)| <= k < |words| ==> words[k] == 0
      ensures Val() == old(Val())
      ensures old(Valid()) ==> Valid()
    {
      if |words| >= n {
        return;
      }
      var newSize := if n > |words| * 2 then n else |words| * 2;
      if newSize < DEFAULT_CAPACITY {
        newSize := DEFAULT_CAPACITY;
      }
      ghost var before := words;
      words := words + Zeros(newSize - |words|);
      SumZeros(words, |before|, |words|);
      SumPrefix(words, before, |before|);
    }

    /** Drop leading zero words. */
    method FixTop()
      modifies this`top
      ensures Valid()
    {
      var i := |words|;
      while i > 0 && words[i - 1] == 0
        invariant 0 <= i <= |words| && forall k :: i <= k < |words| ==> words[k] == 0
      {
        i := i - 1;
      }
      top := i;
    }

    /** bn_copy; copying a number onto itself clears its words. */
    method Copy(src: Bn)
      requires src.top <= |src.words|
      modifies this
      ensures |words| >= old(|words|)
      ensures src != this ==> top == src.top && Val() == Sum(src.words, src.top)
      ensures src != this && (src.Valid() || src.top == 0) ==> Valid()
      ensures src != this && src.Valid() ==> Val() == src.Val()
      ensures src == this ==> Val() == 0 && top == old(top)
    {
      Ensure(src.top);
      words := Zeros(|words|);
      words := src.words[..src.top] + words[src.top..];
      top := src.top;
      if src != this {
        SumZeros(words, src.top, |words|);
        SumPrefix(words, src.words, src.top);
        if src.Valid() {
          Significant(src);
        }
      } else {
        SumZeros(words, 0, |words|);
      }
    }

    method FromInt(value: Word)
      modifies this
      ensures Valid() && Val() == value && top <= 1 && |words| > 0
    {
      Ensure(1);
      words := Zeros(|words|)[0 := value];
      top := if value == 0 then 0 else 1;
      SumZeros(words, 1, |words|);
      assert Sum(words, 1) == value;
    }

    /** -1, 0 or 1 as this number is less than, equal to or greater than b; a shorter object counts
        as less without a look at its words. */
    method Cmp(b: Bn) returns (r: int)
      requires b.Valid() && (Valid() || top < b.top)
      ensures Valid() ==> r == if Val() < b.Val() then -1 else if Val() > b.Val() then 1 else 0
      ensures top < b.top ==> r == -1
    {
      if top < b.top {
        if Valid() {
          LongerIsGreater(this, b);
        }
        return -1;
      }
      Significant(this);
      Significant(b);
      if top > b.top {
        LongerIsGreater(b, this);
        return 1;
      }
      var i := top;
      while i > 0
        invariant 0 <= i <= top && forall j :: i <= j < top ==> words[j] == b.words[j]
      {
        if words[i - 1] > b.words[i - 1] {
          SumOrder(b.words, words, i - 1, top);
          return 1;
        }
        if words[i - 1] < b.words[i - 1] {
          SumOrder(words, b.words, i - 1, top);
          return -1;
        }
        i := i - 1;
      }
      assert words[..top] == b.words[..top];
      SumPrefix(words, b.words, top);
      r := 0;
    }
  }

  lemma Significant(a: Bn)
    requires a.Valid()
    ensures a.Val() == Sum(a.words, a.top)
  {
    SumZeros(a.words, a.top, |a.words|);
  }

  lemma LongerIsGreater(a: Bn, b: Bn)
    requires a.Valid() && b.Valid() && a.top < b.top
    ensures a.Val() < b.Val()
  {
    Significant(a);
    Significant(b);
    SumBound(a.words, a.top);
    TopWord(b.words, b.top);
    PowMono(a.top, b.top - 1);
  }
}
