// The AES block cipher and its chaining mode (kernel/crypto/aes256.c, aes128.c
// and aes192.c): the rounds, cipher block chaining, and the law the module is
// for, that decryption recovers the plaintext of an encryption for every key
// and every initial vector.
//
// The functions say what is computed; AesBlock holds the loops that compute it.
module AesCipher {
  import opened Values
  import opened Gf256
  import opened AesRound

  // ------------------------------------------------------------------------
  // The rounds, for any five steps
  // ------------------------------------------------------------------------

  // What a round is made of: a substitution and a mixing with their inverses,
  // and the addition of the n-th round key.
  datatype Steps<!T> = Steps(sub: T -> T, unsub: T -> T, mix: T -> T, unmix: T -> T, add: (nat, T) -> T)

  ghost predicate Undoes<T(!new)>(c: Steps<T>) {
    && (forall x: T :: Same(c.unsub(c.sub(x)), x))
    && (forall x: T :: Same(c.unmix(c.mix(x)), x))
    && (forall n: nat, x: T :: Same(c.add(n, c.add(n, x)), x))
  }

  // The state before the substitution of round n + 1.
  function Forward<T>(c: Steps<T>, n: nat, s: T): T {
    if n == 0 then c.add(0, s) else c.add(n, c.mix(c.sub(Forward(c, n - 1, s))))
  }

  type Rounds = n: nat | n > 0 witness 1

  function Encrypt<T>(c: Steps<T>, rounds: Rounds, s: T): T {
    c.add(rounds, c.sub(Forward(c, rounds - 1, s)))
  }

  // The state after the decryption rounds down to n have run.
  function Backward<T>(c: Steps<T>, rounds: Rounds, n: nat, x: T): T
    decreases rounds - n
  {
    if n >= rounds then c.add(rounds, x) else c.unmix(c.add(n, c.unsub(Backward(c, rounds, n + 1, x))))
  }

  function Decrypt<T>(c: Steps<T>, rounds: Rounds, x: T): T {
    c.add(0, c.unsub(Backward(c, rounds, 1, x)))
  }

  // Decryption meets encryption in the middle of every round.
  lemma {:induction false} BackwardMeetsForward<T(!new)>(c: Steps<T>, rounds: Rounds, n: nat, s: T)
    requires Undoes(c) && 1 <= n <= rounds
    ensures Backward(c, rounds, n, Encrypt(c, rounds, s)) == c.sub(Forward(c, n - 1, s))
    decreases rounds - n
  {
    if n == rounds {
    } else {
      BackwardMeetsForward(c, rounds, n + 1, s);
      assert Forward(c, n, s) == c.add(n, c.mix(c.sub(Forward(c, n - 1, s))));
    }
  }

  lemma DecryptEncrypt<T(!new)>(c: Steps<T>, rounds: Rounds, s: T)
    requires Undoes(c)
    ensures Decrypt(c, rounds, Encrypt(c, rounds, s)) == s
  {
    BackwardMeetsForward(c, rounds, 1, s);
  }

  // ------------------------------------------------------------------------
  // The steps of AES
  // ------------------------------------------------------------------------

  // The words of an expanded key, four to a round.
  datatype Schedule = Schedule(words: seq<bv32>) {
    function RoundKey(n: nat): (k: seq<bv32>)
      ensures |k| == 4
    {
      if 4 * n + 4 <= |words| then words[4 * n..4 * n + 4] else [0, 0, 0, 0]
    }

    function AddTo(n: nat, s: Block): Block {
      AddRoundKey(s, RoundKey(n))
    }
  }

  // The byte substitution and the row rotation of a round, and their inverse.
  datatype Stirring = Stirring(box: Box) {
    function Forth(s: Block): Block {
      ShiftRows(Substitute(box.sub, s))
    }

    function Back(s: Block): Block {
      Substitute(box.inv, UnshiftRows(s))
    }
  }

  function AesSteps(box: Box, keys: seq<bv32>): Steps<Block> {
    Steps(Stirring(box).Forth, Stirring(box).Back, MixColumns, UnmixColumns, Schedule(keys).AddTo)
  }

  lemma SubstitutionBack(box: Box, s: Block)
    requires Inverse(box)
    ensures Substitute(box.inv, UnshiftRows(ShiftRows(Substitute(box.sub, s)))) == s
  {
    UnshiftShift(Substitute(box.sub, s));
    SubstituteBack(box, s);
  }

  lemma UnsubSub(box: Box, keys: seq<bv32>, x: Block)
    requires Inverse(box)
    ensures Same(AesSteps(box, keys).unsub(AesSteps(box, keys).sub(x)), x)
  {
    SubstitutionBack(box, x);
  }

  lemma UnmixMixStep(box: Box, keys: seq<bv32>, x: Block)
    ensures Same(AesSteps(box, keys).unmix(AesSteps(box, keys).mix(x)), x)
  {
    UnmixMixColumns(x);
  }

  lemma AddAdd(box: Box, keys: seq<bv32>, n: nat, x: Block)
    ensures Same(AesSteps(box, keys).add(n, AesSteps(box, keys).add(n, x)), x)
  {
    AddTwice(x, Schedule(keys).RoundKey(n));
  }

  lemma AesStepsUndo(box: Box, keys: seq<bv32>)
    requires Inverse(box)
    ensures Undoes(AesSteps(box, keys))
  {
    var c := AesSteps(box, keys);
    forall x: Block
      ensures Same(c.unsub(c.sub(x)), x)
    {
      UnsubSub(box, keys, x);
    }
    forall x: Block
      ensures Same(c.unmix(c.mix(x)), x)
    {
      UnmixMixStep(box, keys, x);
    }
    forall n: nat, x: Block
      ensures Same(c.add(n, c.add(n, x)), x)
    {
      AddAdd(box, keys, n, x);
    }
  }

  // ------------------------------------------------------------------------
  // Cipher block chaining
  // ------------------------------------------------------------------------

  function XorBlocks(a: Block, b: Block): Block {
    seq(16, i requires 0 <= i < 16 => Xor(a[i], b[i]))
  }

  lemma XorBlocksCancel(a: Block, b: Block)
    ensures XorBlocks(XorBlocks(a, b), b) == a
  {
    var t := XorBlocks(XorBlocks(a, b), b);
    forall i | 0 <= i < 16
      ensures t[i] == a[i]
    {
      XorCancel(a[i], b[i]);
    }
  }

  function CbcEncrypt(e: Block -> Block, prev: Block, p: seq<bv8>): (c: seq<bv8>)
    ensures |p| % 16 == 0 ==> |c| == |p|
    decreases |p|
  {
    if |p| < 16 then []
    else
      var c := e(XorBlocks(p[..16], prev));
      c + CbcEncrypt(e, c, p[16..])
  }

  function CbcDecrypt(d: Block -> Block, prev: Block, c: seq<bv8>): (p: seq<bv8>)
    ensures |c| % 16 == 0 ==> |p| == |c|
    decreases |c|
  {
    if |c| < 16 then []
    else XorBlocks(d(c[..16]), prev) + CbcDecrypt(d, c[..16], c[16..])
  }

  lemma {:induction false} CbcRoundTrip(e: Block -> Block, d: Block -> Block, prev: Block, p: seq<bv8>)
    requires |p| % 16 == 0
    requires forall b :: d(e(b)) == b
    ensures CbcDecrypt(d, prev, CbcEncrypt(e, prev, p)) == p
    decreases |p|
  {
    if |p| < 16 {
    } else {
      var x := XorBlocks(p[..16], prev);
      var c := e(x);
      var whole := CbcEncrypt(e, prev, p);
      assert whole[..16] == c && whole[16..] == CbcEncrypt(e, c, p[16..]);
      CbcRoundTrip(e, d, c, p[16..]);
      XorBlocksCancel(p[..16], prev);
      assert p == p[..16] + p[16..];
    }
  }

  // The block cipher under one key schedule.
  datatype Cipher = Cipher(c: Steps<Block>, rounds: Rounds) {
    function Forth(b: Block): Block {
      Encrypt(c, rounds, b)
    }

    function Back(b: Block): Block {
      Decrypt(c, rounds, b)
    }
  }

  lemma CipherRoundTrip(k: Cipher, iv: Block, p: seq<bv8>)
    requires Undoes(k.c) && |p| % 16 == 0
    ensures CbcDecrypt(k.Back, iv, CbcEncrypt(k.Forth, iv, p)) == p
  {
    forall b: Block
      ensures k.Back(k.Forth(b)) == b
    {
      DecryptEncrypt(k.c, k.rounds, b);
    }
    CbcRoundTrip(k.Forth, k.Back, iv, p);
  }
}
