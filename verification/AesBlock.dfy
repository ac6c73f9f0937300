// The loops of the three AES files (kernel/crypto/aes256.c:224-334, and the same
// text in aes128.c and aes192.c): encrypting and decrypting one block in place,
// and chaining the blocks of a buffer.
module AesBlock {
  import opened Values
  import opened Gf256
  import opened AesRound
  import opened AesState
  import opened AesCipher

  method AddKeyAt(keys: array<bv32>, n: nat, state: array<bv8>)
    requires state.Length == 16 && 4 * n + 4 <= keys.Length
    modifies state
    ensures Same(state[..], AddRoundKey(old(state[..]), Schedule(keys[..]).RoundKey(n)))
  {
    AddKey(state, keys[4 * n..4 * n + 4]);
    assert keys[4 * n..4 * n + 4] == Schedule(keys[..]).RoundKey(n);
  }

  method EncryptRound(box: Box, keys: array<bv32>, round: nat, state: array<bv8>)
    requires state.Length == 16 && 4 * round + 4 <= keys.Length
    modifies state
    ensures var c := AesSteps(box, keys[..]); Same(state[..], c.add(round, c.mix(c.sub(old(state[..])))))
  {
    SubstituteBytes(box.sub, state);
    RotateRows(state);
    MixAll(state);
    AddKeyAt(keys, round, state);
  }

  method DecryptRound(box: Box, keys: array<bv32>, round: nat, state: array<bv8>)
    requires state.Length == 16 && 4 * round + 4 <= keys.Length
    modifies state
    ensures var c := AesSteps(box, keys[..]); Same(state[..], c.unmix(c.add(round, c.unsub(old(state[..])))))
  {
    UnrotateRows(state);
    SubstituteBytes(box.inv, state);
    AddKeyAt(keys, round, state);
    UnmixAll(state);
  }

  method EncryptState(box: Box, keys: array<bv32>, rounds: Rounds, state: array<bv8>)
    requires state.Length == 16 && keys.Length == 4 * (rounds + 1)
    modifies state
    ensures Same(state[..], Encrypt(AesSteps(box, keys[..]), rounds, old(state[..])))
  {
    ghost var s, c := state[..], AesSteps(box, keys[..]);
    AddKeyAt(keys, 0, state);
    for round := 1 to rounds
      invariant Same(state[..], Forward(c, round - 1, s))
    {
      EncryptRound(box, keys, round, state);
      assert Same(Forward(c, round, s), c.add(round, c.mix(c.sub(Forward(c, round - 1, s)))));
    }
    EncryptLastRound(box, keys, rounds, state);
  }

  method EncryptLastRound(box: Box, keys: array<bv32>, rounds: nat, state: array<bv8>)
    requires state.Length == 16 && keys.Length == 4 * (rounds + 1)
    modifies state
    ensures var c := AesSteps(box, keys[..]); Same(state[..], c.add(rounds, c.sub(old(state[..]))))
  {
    SubstituteBytes(box.sub, state);
    RotateRows(state);
    AddKeyAt(keys, rounds, state);
  }

  method DecryptState(box: Box, keys: array<bv32>, rounds: Rounds, state: array<bv8>)
    requires state.Length == 16 && keys.Length == 4 * (rounds + 1)
    modifies state
    ensures Same(state[..], Decrypt(AesSteps(box, keys[..]), rounds, old(state[..])))
  {
    ghost var x, c := state[..], AesSteps(box, keys[..]);
    AddKeyAt(keys, rounds, state);
    for round := rounds downto 1
      invariant Same(state[..], Backward(c, rounds, round, x))
    {
      DecryptRound(box, keys, round, state);
      assert Same(Backward(c, rounds, round, x), c.unmix(c.add(round, c.unsub(Backward(c, rounds, round + 1, x)))));
    }
    DecryptLastRound(box, keys, state);
  }

  method DecryptLastRound(box: Box, keys: array<bv32>, state: array<bv8>)
    requires state.Length == 16 && keys.Length >= 4
    modifies state
    ensures var c := AesSteps(box, keys[..]); Same(state[..], c.add(0, c.unsub(old(state[..]))))
  {
    UnrotateRows(state);
    SubstituteBytes(box.inv, state);
    AddKeyAt(keys, 0, state);
  }

  // ------------------------------------------------------------------------
  // Chaining
  // ------------------------------------------------------------------------

  method XorInto(src: array<bv8>, at: nat, prev: array<bv8>, state: array<bv8>)
    requires at + 16 <= src.Length && prev.Length == 16 && state.Length == 16
    requires state != src && state != prev
    modifies state
    ensures Same(state[..], XorBlocks(src[at..at + 16], prev[..]))
  {
    for i := 0 to 16
      invariant forall j :: 0 <= j < i ==> state[j] == Xor(src[at + j], prev[j])
    {
      state[i] := Xor(src[at + i], prev[i]);
    }
    assert state[..] == XorBlocks(src[at..at + 16], prev[..]);
  }

  method CopyBytes(src: array<bv8>, from: nat, dst: array<bv8>, to: nat)
    requires from + 16 <= src.Length && to + 16 <= dst.Length && src != dst
    modifies dst
    ensures dst[..] == old(dst[..to]) + src[from..from + 16] + old(dst[to + 16..])
  {
    for i := 0 to 16
      invariant dst[to..to + i] == src[from..from + i]
      invariant dst[..to] == old(dst[..to]) && dst[to + i..] == old(dst[to + i..])
    {
      dst[to + i] := src[from + i];
    }
  }

  // The block that chaining starts from: the given vector, or zeros.
  ghost function Initial(iv: array?<bv8>): Block
    requires iv != null ==> iv.Length == 16
    reads iv
  {
    if iv == null then seq(16, i => 0) else iv[..]
  }

  method StartChain(iv: array?<bv8>) returns (prev: array<bv8>)
    requires iv != null ==> iv.Length == 16
    ensures fresh(prev) && prev.Length == 16
    ensures Same(prev[..], Initial(iv))
  {
    prev := new bv8[16](i => 0);
    if iv != null {
      CopyBytes(iv, 0, prev, 0);
    }
    assert prev[..] == Initial(iv);
  }

  // What is done and what the rest of the buffer still yields make the whole.
  ghost predicate EncryptedTo(e: Block -> Block, start: Block, p: seq<bv8>, at: nat, prev: Block, done: seq<bv8>) {
    at <= |p| && Same(done + CbcEncrypt(e, prev, p[at..]), CbcEncrypt(e, start, p))
  }

  lemma EncryptNext(e: Block -> Block, start: Block, p: seq<bv8>, at: nat, prev: Block, done: seq<bv8>, x: Block)
    requires at + 16 <= |p| && EncryptedTo(e, start, p, at, prev, done)
    requires Same(x, e(XorBlocks(p[at..at + 16], prev)))
    ensures EncryptedTo(e, start, p, at + 16, x, done + x)
  {
    assert p[at..][..16] == p[at..at + 16] && p[at..][16..] == p[at + 16..];
    assert done + CbcEncrypt(e, prev, p[at..]) == (done + x) + CbcEncrypt(e, x, p[at + 16..]);
  }

  ghost predicate DecryptedTo(d: Block -> Block, start: Block, c: seq<bv8>, at: nat, prev: Block, done: seq<bv8>) {
    at <= |c| && Same(done + CbcDecrypt(d, prev, c[at..]), CbcDecrypt(d, start, c))
  }

  lemma DecryptNext(d: Block -> Block, start: Block, c: seq<bv8>, at: nat, prev: Block, done: seq<bv8>, x: Block)
    requires at + 16 <= |c| && DecryptedTo(d, start, c, at, prev, done)
    requires Same(x, XorBlocks(d(c[at..at + 16]), prev))
    ensures DecryptedTo(d, start, c, at + 16, c[at..at + 16], done + x)
  {
    assert c[at..][..16] == c[at..at + 16] && c[at..][16..] == c[at + 16..];
    assert done + CbcDecrypt(d, prev, c[at..]) == (done + x) + CbcDecrypt(d, c[at..at + 16], c[at + 16..]);
  }

  lemma EncryptStart(e: Block -> Block, start: Block, p: seq<bv8>)
    ensures EncryptedTo(e, start, p, 0, start, [])
  {
    assert p[0..] == p;
    assert [] + CbcEncrypt(e, start, p) == CbcEncrypt(e, start, p);
  }

  lemma DecryptStart(d: Block -> Block, start: Block, c: seq<bv8>)
    ensures DecryptedTo(d, start, c, 0, start, [])
  {
    assert c[0..] == c;
    assert [] + CbcDecrypt(d, start, c) == CbcDecrypt(d, start, c);
  }

  lemma EncryptDone(e: Block -> Block, start: Block, p: seq<bv8>, prev: Block, done: seq<bv8>)
    requires EncryptedTo(e, start, p, |p|, prev, done)
    ensures done == CbcEncrypt(e, start, p)
  {
    assert done + CbcEncrypt(e, prev, p[|p|..]) == done;
  }

  lemma DecryptDone(d: Block -> Block, start: Block, c: seq<bv8>, prev: Block, done: seq<bv8>)
    requires DecryptedTo(d, start, c, |c|, prev, done)
    ensures done == CbcDecrypt(d, start, c)
  {
    assert done + CbcDecrypt(d, prev, c[|c|..]) == done;
  }

  // One block of the encryption loop: mix in the previous ciphertext block,
  // encrypt, store, and remember it.
  method EncryptOne(box: Box, keys: array<bv32>, rounds: Rounds, prev: array<bv8>,
                    plaintext: array<bv8>, at: nat, ciphertext: array<bv8>)
    requires keys.Length == 4 * (rounds + 1) && prev.Length == 16
    requires at + 16 <= plaintext.Length && at + 16 <= ciphertext.Length
    requires prev != plaintext && prev != ciphertext
    modifies prev, ciphertext
    ensures var k := Cipher(AesSteps(box, keys[..]), rounds);
            Same(prev[..], k.Forth(XorBlocks(old(plaintext[at..at + 16]), old(prev[..]))))
    ensures ciphertext[..] == old(ciphertext[..at]) + prev[..] + old(ciphertext[at + 16..])
  {
    var state := new bv8[16];
    XorInto(plaintext, at, prev, state);
    EncryptState(box, keys, rounds, state);
    CopyBytes(state, 0, ciphertext, at);
    CopyBytes(state, 0, prev, 0);
    assert state[0..16] == state[..] == prev[..];
  }

  method XorOut(state: array<bv8>, prev: array<bv8>, dst: array<bv8>, at: nat)
    requires state.Length == 16 && prev.Length == 16 && at + 16 <= dst.Length
    requires dst != state && dst != prev
    modifies dst
    ensures dst[..] == old(dst[..at]) + XorBlocks(state[..], prev[..]) + old(dst[at + 16..])
  {
    ghost var x := XorBlocks(state[..], prev[..]);
    for i := 0 to 16
      invariant dst[at..at + i] == x[..i]
      invariant dst[..at] == old(dst[..at]) && dst[at + i..] == old(dst[at + i..])
    {
      dst[at + i] := Xor(state[i], prev[i]);
    }
  }

  method DecryptOne(box: Box, keys: array<bv32>, rounds: Rounds, prev: array<bv8>,
                    ciphertext: array<bv8>, at: nat, plaintext: array<bv8>)
    requires keys.Length == 4 * (rounds + 1) && prev.Length == 16
    requires at + 16 <= plaintext.Length && at + 16 <= ciphertext.Length
    requires prev != plaintext && prev != ciphertext
    modifies prev, plaintext
    ensures Same(prev[..], old(ciphertext[at..at + 16]))
    ensures var k := Cipher(AesSteps(box, keys[..]), rounds);
            plaintext[..] == old(plaintext[..at])
              + XorBlocks(k.Back(old(ciphertext[at..at + 16])), old(prev[..])) + old(plaintext[at + 16..])
  {
    var state := new bv8[16];
    CopyBytes(ciphertext, at, state, 0);
    var saved := new bv8[16];
    CopyBytes(state, 0, saved, 0);
    assert saved[..] == state[0..16] == state[..] == ciphertext[at..at + 16];
    DecryptState(box, keys, rounds, state);
    XorOut(state, prev, plaintext, at);
    CopyBytes(saved, 0, prev, 0);
    assert saved[0..16] == saved[..] == prev[..];
  }

  method EncryptStep(box: Box, keys: array<bv32>, rounds: Rounds, prev: array<bv8>, plaintext: array<bv8>, at: nat,
                     n: nat, ciphertext: array<bv8>, ghost e: Block -> Block, ghost start: Block, ghost p: seq<bv8>)
    requires keys.Length == 4 * (rounds + 1) && prev.Length == 16 && prev != plaintext && prev != ciphertext
    requires e == Cipher(AesSteps(box, keys[..]), rounds).Forth
    requires at + 16 <= n == |p| && n <= plaintext.Length && n <= ciphertext.Length
    requires plaintext[at..n] == p[at..] && EncryptedTo(e, start, p, at, prev[..], ciphertext[..at])
    modifies prev, ciphertext
    ensures plaintext[at + 16..n] == p[at + 16..] && ciphertext[n..] == old(ciphertext[n..])
    ensures EncryptedTo(e, start, p, at + 16, prev[..], ciphertext[..at + 16])
  {
    ghost var was, done := prev[..], ciphertext[..at];
    assert plaintext[at..at + 16] == plaintext[at..n][..16] == p[at..at + 16];
    EncryptOne(box, keys, rounds, prev, plaintext, at, ciphertext);
    EncryptNext(e, start, p, at, was, done, prev[..]);
    assert ciphertext[..at + 16] == done + prev[..];
  }

  method DecryptStep(box: Box, keys: array<bv32>, rounds: Rounds, prev: array<bv8>, ciphertext: array<bv8>, at: nat,
                     n: nat, plaintext: array<bv8>, ghost d: Block -> Block, ghost start: Block, ghost c: seq<bv8>)
    requires keys.Length == 4 * (rounds + 1) && prev.Length == 16 && prev != plaintext && prev != ciphertext
    requires d == Cipher(AesSteps(box, keys[..]), rounds).Back
    requires at + 16 <= n == |c| && n <= plaintext.Length && n <= ciphertext.Length
    requires ciphertext[at..n] == c[at..] && DecryptedTo(d, start, c, at, prev[..], plaintext[..at])
    modifies prev, plaintext
    ensures ciphertext[at + 16..n] == c[at + 16..] && plaintext[n..] == old(plaintext[n..])
    ensures DecryptedTo(d, start, c, at + 16, prev[..], plaintext[..at + 16])
  {
    ghost var was, done := prev[..], plaintext[..at];
    assert ciphertext[at..at + 16] == ciphertext[at..n][..16] == c[at..at + 16];
    DecryptOne(box, keys, rounds, prev, ciphertext, at, plaintext);
    ghost var x := XorBlocks(d(c[at..at + 16]), was);
    DecryptNext(d, start, c, at, was, done, x);
    assert plaintext[..at + 16] == done + x;
  }

  // The buffer after its first n bytes are encrypted; the source may run in place.
  method EncryptBuffer(box: Box, keys: array<bv32>, rounds: Rounds, iv: array?<bv8>,
                       plaintext: array<bv8>, n: nat, ciphertext: array<bv8>)
    requires keys.Length == 4 * (rounds + 1) && (iv != null ==> iv.Length == 16)
    requires n % 16 == 0 && n <= plaintext.Length && n <= ciphertext.Length
    modifies ciphertext
    ensures var k := Cipher(AesSteps(box, keys[..]), rounds);
            ciphertext[..n] == CbcEncrypt(k.Forth, old(Initial(iv)), old(plaintext[..n]))
    ensures ciphertext[n..] == old(ciphertext[n..])
  {
    ghost var e := Cipher(AesSteps(box, keys[..]), rounds).Forth;
    ghost var p, start := plaintext[..n], Initial(iv);
    var prev := StartChain(iv);
    EncryptStart(e, start, p);
    for block := 0 to n / 16
      invariant fresh(prev) && prev.Length == 16
      invariant plaintext[16 * block..n] == p[16 * block..] && ciphertext[n..] == old(ciphertext[n..])
      invariant EncryptedTo(e, start, p, 16 * block, prev[..], ciphertext[..16 * block])
    {
      EncryptStep(box, keys, rounds, prev, plaintext, 16 * block, n, ciphertext, e, start, p);
    }
    EncryptDone(e, start, p, prev[..], ciphertext[..n]);
  }

  method DecryptBuffer(box: Box, keys: array<bv32>, rounds: Rounds, iv: array?<bv8>,
                       ciphertext: array<bv8>, n: nat, plaintext: array<bv8>)
    requires keys.Length == 4 * (rounds + 1) && (iv != null ==> iv.Length == 16)
    requires n % 16 == 0 && n <= plaintext.Length && n <= ciphertext.Length
    modifies plaintext
    ensures var k := Cipher(AesSteps(box, keys[..]), rounds);
            plaintext[..n] == CbcDecrypt(k.Back, old(Initial(iv)), old(ciphertext[..n]))
    ensures plaintext[n..] == old(plaintext[n..])
  {
    ghost var d := Cipher(AesSteps(box, keys[..]), rounds).Back;
    ghost var c, start := ciphertext[..n], Initial(iv);
    var prev := StartChain(iv);
    DecryptStart(d, start, c);
    for block := 0 to n / 16
      invariant fresh(prev) && prev.Length == 16
      invariant ciphertext[16 * block..n] == c[16 * block..] && plaintext[n..] == old(plaintext[n..])
      invariant DecryptedTo(d, start, c, 16 * block, prev[..], plaintext[..16 * block])
    {
      DecryptStep(box, keys, rounds, prev, ciphertext, 16 * block, n, plaintext, d, start, c);
    }
    DecryptDone(d, start, c, prev[..], plaintext[..n]);
  }
}
