/** Concrete calls of kernel/crypto/bn.c whose result is not the number a caller expects. */
module BigNumCases {
  import opened Bits
  import opened BnValue
  import opened BigNum
  import opened BigNumArith
  import opened BigNumShift
  import opened BigNumDiv

  /** 1 + 1 into an object that holds 2^128 is 2 + 2^128. */
  method AddKeepsStaleWord() returns (result: Bn)
    ensures result.Val() == 2 + BASE * BASE
  {
    result := new Bn();
    result.words, result.top := [0, 0, 1], 3;
    var one := new Bn();
    one.FromInt(1);
    Significant(one);
    ghost var stale := result.words;
    Add(result, one, one);
    assert one.top == 1;
    assert stale[2..] == [1] && Sum([1], 1) == 1 && Pow(2) == BASE * BASE;
  }

  /** 5 divided by 7 with the remainder stored over the dividend: 0 instead of 5. */
  method DivLosesRemainder() returns (a: Bn)
    ensures a.Val() == 0
  {
    a := new Bn();
    a.FromInt(5);
    var b := new Bn();
    b.FromInt(7);
    var err := Div(null, a, a, b);
  }

  /** 2^64 divided by itself: 0 instead of 1. */
  method LongDivisionAnswersZero() returns (q: Bn)
    ensures q.Val() == 0
  {
    var a := new Bn();
    a.FromInt(1);
    LShift(a, a, 64);
    assert Pow2(64) == BASE by { Powers(); }
    SeveralWords(a);
    q := new Bn();
    var err := Div(q, null, a, a);
  }

  /** 1 shifted in place by no bits: 0 instead of 1. */
  method ShiftByZeroClears() returns (a: Bn)
    ensures a.Val() == 0
  {
    a := new Bn();
    a.FromInt(1);
    LShift(a, a, 0);
  }
}
