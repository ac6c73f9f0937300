// AES as sections 5.1 and 5.2 of FIPS-197 describe it, byte by byte, and that
// the block cipher of the source is this one for every key of 128 and 256 bits.
// For 192 bits the source's key schedule substitutes one word more in every six.
module AesStandard {
  import opened Words
  import opened Gf256
  import opened AesRound
  import opened AesCipher
  import opened AesKeys
  import opened AesBytes
  import opened Aes

  // ------------------------------------------------------------------------
  // Section 5.2: the key schedule
  // ------------------------------------------------------------------------

  // What byte r of word i adds to the byte nk words back, given the byte of the
  // previous word and that word's byte one place further round.  The standard
  // substitutes in the middle of a key length only when it is greater than six
  // words.
  datatype Rule = Rule(sub: bv8 -> bv8, nk: nat, mid: bool) {
    function Stir(i: nat, r: nat, prev: bv8, turned: bv8): bv8 {
      if nk == 0 || i < nk then 0
      else if i % nk == 0 then
        QuotientPositive(i, nk); Xor(sub(turned), if r == 0 then PowerOfX(i / nk - 1) else 0)
      else if mid && i % nk == 4 then sub(prev)
      else prev
    }
  }

  type Stirrer = (nat, nat, bv8, bv8) -> bv8

  // Byte r of word i of the schedule.
  datatype Keys = Keys(key: seq<bv8>, nk: nat, stir: Stirrer) {
    function At(i: nat, r: nat): bv8 {
      if nk == 0 || |key| != 4 * nk || r >= 4 then 0
      else if i < nk then key[4 * i + r]
      else Xor(At(i - nk, r), stir(i, r, At(i - 1, r), At(i - 1, (r + 1) % 4)))
    }
  }

  lemma FirstWordAt(key: seq<bv8>, nk: nat, i: nat, r: nat)
    requires |key| == 4 * nk && i < nk && r < 4
    ensures WordByte(FirstWords(key, nk)[i], r) == key[4 * i + r]
  {
    BytesOfWord(key[4 * i], key[4 * i + 1], key[4 * i + 2], key[4 * i + 3]);
  }

  lemma TurnedAt(sub: bv8 -> bv8, w: bv32, n: nat, r: nat)
    requires 1 <= n <= 10 && r < 4
    ensures WordByte(XorWord(SubWord(sub, RotWord(w)), RoundConstant(n)), r)
         == Xor(sub(WordByte(w, (r + 1) % 4)), if r == 0 then PowerOfX(n - 1) else 0)
  {
    XorWordAt(SubWord(sub, RotWord(w)), RoundConstant(n), r);
    SubWordAt(sub, RotWord(w), r);
    RotWordAt(w, r);
    RoundConstantAt(n, r);
  }

  lemma StirAt(sub: bv8 -> bv8, nk: nat, i: nat, w: bv32, r: nat)
    requires 0 < nk <= i && i / nk <= 10 && r < 4
    ensures WordByte(Source(sub, nk).Stir(i, w), r)
         == Rule(sub, nk, true).Stir(i, r, WordByte(w, r), WordByte(w, (r + 1) % 4))
    ensures WordByte(Standard(sub, nk).Stir(i, w), r)
         == Rule(sub, nk, nk > 6).Stir(i, r, WordByte(w, r), WordByte(w, (r + 1) % 4))
  {
    QuotientPositive(i, nk);
    if i % nk == 0 {
      TurnedAt(sub, w, i / nk, r);
    } else if i % nk == 4 {
      SubWordAt(sub, w, r);
    }
  }

  lemma QuotientPositive(i: nat, nk: nat)
    requires 0 < nk <= i
    ensures i / nk >= 1
  {
    assert i == nk * (i / nk) + i % nk;
  }

  // A step of the words does to their bytes what the byte rule says.
  predicate Alike(byte: (bv32, nat) -> bv8, stir: (nat, bv32) -> bv32, rule: Stirrer,
                  i: nat, x: bv32, w: bv32, r: nat)
  {
    byte(XorWord(x, stir(i, w)), r) == Xor(byte(x, r), rule(i, r, byte(w, r), byte(w, (r + 1) % 4)))
  }

  ghost predicate AllAlike(byte: (bv32, nat) -> bv8, stir: (nat, bv32) -> bv32, rule: Stirrer, nk: nat, n: nat) {
    forall i: nat, x, w, r: nat :: nk <= i < n && r < 4 ==> Alike(byte, stir, rule, i, x, w, r)
  }

  // A step of the schedule's bytes.
  predicate ByteStep(at: (nat, nat) -> bv8, rule: Stirrer, nk: nat, i: nat, r: nat)
    requires 0 < nk <= i
  {
    at(i, r) == Xor(at(i - nk, r), rule(i, r, at(i - 1, r), at(i - 1, (r + 1) % 4)))
  }

  ghost predicate BytesFollow(at: (nat, nat) -> bv8, rule: Stirrer, nk: nat)
    requires nk > 0
  {
    forall i: nat, r: nat :: nk <= i && r < 4 ==> ByteStep(at, rule, nk, i, r)
  }

  lemma KeyBytesFollow(k: Keys)
    requires k.nk > 0 && |k.key| == 4 * k.nk
    ensures BytesFollow(k.At, k.stir, k.nk)
  {
    forall i: nat, r: nat | k.nk <= i && r < 4
      ensures ByteStep(k.At, k.stir, k.nk, i, r)
    {
      assert k.At(i, r) == Xor(k.At(i - k.nk, r), k.stir(i, r, k.At(i - 1, r), k.At(i - 1, (r + 1) % 4)));
    }
  }

  lemma {:induction false} KeyWordAt(byte: (bv32, nat) -> bv8, stir: (nat, bv32) -> bv32, rule: Stirrer,
                                     at: (nat, nat) -> bv8, first: seq<bv32>, i: nat, r: nat, n: nat)
    requires |first| > 0 && i < n && r < 4
    requires forall j: nat, t: nat :: j < |first| && t < 4 ==> byte(first[j], t) == at(j, t)
    requires AllAlike(byte, stir, rule, |first|, n) && BytesFollow(at, rule, |first|)
    ensures byte(KeyWord(stir, first, i), r) == at(i, r)
    decreases i
  {
    if i < |first| {
    } else {
      KeyWordAt(byte, stir, rule, at, first, i - |first|, r, n);
      KeyWordAt(byte, stir, rule, at, first, i - 1, r, n);
      KeyWordAt(byte, stir, rule, at, first, i - 1, (r + 1) % 4, n);
      assert Alike(byte, stir, rule, i, KeyWord(stir, first, i - |first|), KeyWord(stir, first, i - 1), r);
      assert ByteStep(at, rule, |first|, i, r);
    }
  }

  lemma BelowEleven(i: nat, nk: nat)
    requires nk > 0 && i < 11 * nk
    ensures i / nk <= 10
  {
    assert i == nk * (i / nk) + i % nk;
  }

  lemma SourceAlike(sub: bv8 -> bv8, nk: nat)
    requires nk > 0
    ensures AllAlike(WordByte, Source(sub, nk).Stir, Rule(sub, nk, true).Stir, nk, 11 * nk)
  {
    var stir, rule := Source(sub, nk).Stir, Rule(sub, nk, true).Stir;
    forall i: nat, x, w, r: nat | nk <= i < 11 * nk && r < 4
      ensures Alike(WordByte, stir, rule, i, x, w, r)
    {
      BelowEleven(i, nk);
      StirAt(sub, nk, i, w, r);
      XorWordAt(x, stir(i, w), r);
    }
  }

  lemma StandardAlike(sub: bv8 -> bv8, nk: nat)
    requires nk > 0
    ensures AllAlike(WordByte, Standard(sub, nk).Stir, Rule(sub, nk, nk > 6).Stir, nk, 11 * nk)
  {
    var stir, rule := Standard(sub, nk).Stir, Rule(sub, nk, nk > 6).Stir;
    forall i: nat, x, w, r: nat | nk <= i < 11 * nk && r < 4
      ensures Alike(WordByte, stir, rule, i, x, w, r)
    {
      BelowEleven(i, nk);
      StirAt(sub, nk, i, w, r);
      XorWordAt(x, stir(i, w), r);
    }
  }

  lemma WordBytes(key: seq<bv8>, nk: nat, stir: (nat, bv32) -> bv32, rule: Stirrer, i: nat, r: nat)
    requires nk > 0 && |key| == 4 * nk && i < 11 * nk && r < 4
    requires AllAlike(WordByte, stir, rule, nk, 11 * nk)
    ensures WordByte(KeyWord(stir, FirstWords(key, nk), i), r) == Keys(key, nk, rule).At(i, r)
  {
    var k, first := Keys(key, nk, rule), FirstWords(key, nk);
    forall j: nat, t: nat | j < nk && t < 4
      ensures WordByte(first[j], t) == k.At(j, t)
    {
      FirstWordAt(key, nk, j, t);
    }
    KeyBytesFollow(k);
    KeyWordAt(WordByte, stir, rule, k.At, first, i, r, 11 * nk);
  }

  // The source's schedule byte by byte: it always substitutes in the middle.
  lemma ExpandedAt(sub: bv8 -> bv8, key: seq<bv8>, size: KeySize, nk: nat, i: nat, r: nat)
    requires nk == size.Words() && |key| == 4 * nk && i < 4 * (size.Rounds() + 1) && r < 4
    ensures WordByte(Expanded(sub, key, size)[i], r) == Keys(key, nk, Rule(sub, nk, true).Stir).At(i, r)
  {
    SourceAlike(sub, nk);
    WordBytes(key, nk, Source(sub, nk).Stir, Rule(sub, nk, true).Stir, i, r);
  }

  // The standard's: it does so for 256 bits.
  lemma StandardAt(sub: bv8 -> bv8, key: seq<bv8>, nk: nat, i: nat, r: nat)
    requires nk > 0 && |key| == 4 * nk && i < 11 * nk && r < 4
    ensures WordByte(KeyWord(Standard(sub, nk).Stir, FirstWords(key, nk), i), r)
         == Keys(key, nk, Rule(sub, nk, nk > 6).Stir).At(i, r)
  {
    StandardAlike(sub, nk);
    WordBytes(key, nk, Standard(sub, nk).Stir, Rule(sub, nk, nk > 6).Stir, i, r);
  }

  // ------------------------------------------------------------------------
  // Section 5.1: the cipher
  // ------------------------------------------------------------------------

  // The state by row and column, and what a round brings there before its key
  // is added.
  datatype State = State(sub: bv8 -> bv8, s: Block) {
    function Byte(r: nat, c: nat): bv8 {
      if r < 4 && c < 4 then s[r + 4 * c] else 0
    }

    // The substituted bytes, row r shifted left by r.
    function Shifted(r: nat, c: nat): bv8 {
      sub(Byte(r, (c + r) % 4))
    }

    // The columns of those, mixed.
    function Stirred(r: nat, c: nat): bv8 {
      Mixed(Shifted(r, c), Shifted((r + 1) % 4, c), Shifted((r + 2) % 4, c), Shifted((r + 3) % 4, c))
    }
  }

  // The bytes f gives for each row and column, with words 4 * n to 4 * n + 3 of
  // the key schedule added.
  function Keyed(k: (nat, nat) -> bv8, n: nat, f: (nat, nat) -> bv8): Block {
    seq(16, i requires 0 <= i < 16 => Xor(f(i % 4, i / 4), k(4 * n + i / 4, i % 4)))
  }

  function StateAfter(sub: bv8 -> bv8, k: (nat, nat) -> bv8, b: Block, n: nat): Block {
    if n == 0 then Keyed(k, 0, State(sub, b).Byte)
    else Keyed(k, n, State(sub, StateAfter(sub, k, b, n - 1)).Stirred)
  }

  // The last round does not mix the columns.
  function StandardCipher(sub: bv8 -> bv8, k: (nat, nat) -> bv8, rounds: Rounds, b: Block): Block {
    Keyed(k, rounds, State(sub, StateAfter(sub, k, b, rounds - 1)).Shifted)
  }

  ghost predicate KeysAre(keys: seq<bv32>, k: (nat, nat) -> bv8) {
    forall i: nat, r: nat :: i < |keys| && r < 4 ==> WordByte(keys[i], r) == k(i, r)
  }

  ghost predicate GridOf(s: Block, f: (nat, nat) -> bv8) {
    forall r: nat, c: nat :: r < 4 && c < 4 ==> s[r + 4 * c] == f(r, c)
  }

  lemma KeyedAt(keys: seq<bv32>, k: (nat, nat) -> bv8, n: nat, s: Block, f: (nat, nat) -> bv8, i: nat)
    requires |keys| >= 4 * (n + 1) && KeysAre(keys, k) && GridOf(s, f) && i < 16
    ensures Schedule(keys).AddTo(n, s)[i] == Keyed(k, n, f)[i]
  {
    AddRoundKeyAt(s, Schedule(keys).RoundKey(n), i % 4, i / 4);
    assert Schedule(keys).RoundKey(n)[i / 4] == keys[4 * n + i / 4];
    assert s[i % 4 + 4 * (i / 4)] == f(i % 4, i / 4);
  }

  lemma AddToIs(keys: seq<bv32>, k: (nat, nat) -> bv8, n: nat, s: Block, f: (nat, nat) -> bv8)
    requires |keys| >= 4 * (n + 1) && KeysAre(keys, k) && GridOf(s, f)
    ensures Schedule(keys).AddTo(n, s) == Keyed(k, n, f)
  {
    forall i: nat | i < 16
      ensures Schedule(keys).AddTo(n, s)[i] == Keyed(k, n, f)[i]
    {
      KeyedAt(keys, k, n, s, f, i);
    }
  }

  lemma ForthIs(box: Box, s: Block)
    ensures GridOf(Stirring(box).Forth(s), State(box.sub, s).Shifted)
  {
    forall r: nat, c: nat | r < 4 && c < 4
      ensures Stirring(box).Forth(s)[r + 4 * c] == State(box.sub, s).Shifted(r, c)
    {
      ShiftRowsAt(Substitute(box.sub, s), r, c);
    }
  }

  lemma MixIs(m: State, t: Block)
    requires GridOf(t, m.Shifted)
    ensures GridOf(MixColumns(t), m.Stirred)
  {
    forall r: nat, c: nat | r < 4 && c < 4
      ensures MixColumns(t)[r + 4 * c] == m.Stirred(r, c)
    {
      MixColumnsAt(t, r, c);
      var f := m.Shifted;
      assert t[r + 4 * c] == f(r, c) && t[(r + 1) % 4 + 4 * c] == f((r + 1) % 4, c);
      assert t[(r + 2) % 4 + 4 * c] == f((r + 2) % 4, c) && t[(r + 3) % 4 + 4 * c] == f((r + 3) % 4, c);
    }
  }

  // What the steps of a cipher do to whole blocks, in the standard's terms.
  ghost predicate StepsAre(c: Steps<Block>, sub: bv8 -> bv8, k: (nat, nat) -> bv8, rounds: nat) {
    && (forall s :: c.add(0, s) == Keyed(k, 0, State(sub, s).Byte))
    && (forall n: nat, s :: n <= rounds ==> c.add(n, c.mix(c.sub(s))) == Keyed(k, n, State(sub, s).Stirred))
    && (forall n: nat, s :: n <= rounds ==> c.add(n, c.sub(s)) == Keyed(k, n, State(sub, s).Shifted))
  }

  lemma {:induction false} ForwardIs(c: Steps<Block>, sub: bv8 -> bv8, k: (nat, nat) -> bv8, b: Block, n: nat)
    requires StepsAre(c, sub, k, n)
    ensures Forward(c, n, b) == StateAfter(sub, k, b, n)
  {
    if n == 0 {
    } else {
      ForwardIs(c, sub, k, b, n - 1);
    }
  }

  lemma AesStepsAre(box: Box, keys: seq<bv32>, k: (nat, nat) -> bv8, rounds: nat)
    requires |keys| == 4 * (rounds + 1) && KeysAre(keys, k)
    ensures StepsAre(AesSteps(box, keys), box.sub, k, rounds)
  {
    var c := AesSteps(box, keys);
    forall n: nat, s | n <= rounds
      ensures c.add(n, s) == Keyed(k, n, State(box.sub, s).Byte)
      ensures c.add(n, c.mix(c.sub(s))) == Keyed(k, n, State(box.sub, s).Stirred)
      ensures c.add(n, c.sub(s)) == Keyed(k, n, State(box.sub, s).Shifted)
    {
      var m := State(box.sub, s);
      AddToIs(keys, k, n, s, m.Byte);
      ForthIs(box, s);
      AddToIs(keys, k, n, c.sub(s), m.Shifted);
      MixIs(m, c.sub(s));
      AddToIs(keys, k, n, c.mix(c.sub(s)), m.Stirred);
    }
  }

  lemma CipherIs(c: Steps<Block>, sub: bv8 -> bv8, k: (nat, nat) -> bv8, rounds: Rounds, b: Block)
    requires StepsAre(c, sub, k, rounds)
    ensures Cipher(c, rounds).Forth(b) == StandardCipher(sub, k, rounds, b)
  {
    ForwardIs(c, sub, k, b, rounds - 1);
  }

  // The key bytes of section 5.2 for a key of this size.
  function StandardKeys(size: KeySize, key: seq<bv8>): Keys {
    Keys(key, size.Words(), Rule(TableBox().sub, size.Words(), size.Words() > 6).Stir)
  }

  // The key bytes of the source, which substitutes in the middle of every size
  // that has one.
  function SourceKeys(size: KeySize, key: seq<bv8>): Keys {
    Keys(key, size.Words(), Rule(TableBox().sub, size.Words(), true).Stir)
  }

  lemma SourceBytes(size: KeySize, key: seq<bv8>)
    requires |key| == 4 * size.Words()
    ensures KeysAre(Expanded(TableBox().sub, key, size), SourceKeys(size, key).At)
  {
    forall i: nat, r: nat | i < 4 * (size.Rounds() + 1) && r < 4
      ensures WordByte(Expanded(TableBox().sub, key, size)[i], r) == SourceKeys(size, key).At(i, r)
    {
      ExpandedAt(TableBox().sub, key, size, size.Words(), i, r);
    }
  }

  lemma StandardBytes(size: KeySize, key: seq<bv8>)
    requires |key| == 4 * size.Words() && size != Aes192
    ensures KeysAre(Expanded(TableBox().sub, key, size), StandardKeys(size, key).At)
  {
    SourceScheduleIsStandard(key, size);
    forall i: nat, r: nat | i < 4 * (size.Rounds() + 1) && r < 4
      ensures WordByte(Expanded(TableBox().sub, key, size)[i], r) == StandardKeys(size, key).At(i, r)
    {
      StandardAt(TableBox().sub, key, size.Words(), i, r);
    }
  }

  // For 128 and 256 bits a block is encrypted as the standard says.
  lemma CipherIsStandard(size: KeySize, key: seq<bv8>, b: Block)
    requires |key| == 4 * size.Words()
    ensures var e := KeyedCipher(size, key).Forth(b);
            && e == StandardCipher(TableBox().sub, SourceKeys(size, key).At, size.Rounds(), b)
            && (size != Aes192 ==> e == StandardCipher(TableBox().sub, StandardKeys(size, key).At, size.Rounds(), b))
  {
    var box := TableBox();
    var keys := Expanded(box.sub, key, size);
    SourceBytes(size, key);
    AesStepsAre(box, keys, SourceKeys(size, key).At, size.Rounds());
    CipherIs(AesSteps(box, keys), box.sub, SourceKeys(size, key).At, size.Rounds(), b);
    if size != Aes192 {
      StandardBytes(size, key);
      AesStepsAre(box, keys, StandardKeys(size, key).At, size.Rounds());
      CipherIs(AesSteps(box, keys), box.sub, StandardKeys(size, key).At, size.Rounds(), b);
    }
  }

  // ------------------------------------------------------------------------
  // Cipher block chaining
  // ------------------------------------------------------------------------

  // Block j of p added to the block before it.
  function Chained(p: seq<bv8>, prev: Block, j: nat): Block
    requires 16 * j + 16 <= |p|
  {
    seq(16, i requires 0 <= i < 16 => p[16 * j + i] ^ prev[i])
  }

  function BlockAt(s: seq<bv8>, j: nat): Block
    requires 16 * j + 16 <= |s|
  {
    s[16 * j..16 * j + 16]
  }

  lemma FirstBlock(head: Block, tail: seq<bv8>)
    ensures BlockAt(head + tail, 0) == head
  {}

  lemma LaterBlock(head: Block, tail: seq<bv8>, j: nat)
    requires j > 0 && 16 * j <= |tail|
    ensures BlockAt(head + tail, j) == BlockAt(tail, j - 1)
  {}

  lemma ChainedLater(p: seq<bv8>, prev: Block, j: nat)
    requires j > 0 && 16 * j + 16 <= |p|
    ensures Chained(p[16..], prev, j - 1) == Chained(p, prev, j)
  {}

  lemma ChainedFirst(p: seq<bv8>, iv: Block)
    requires 16 <= |p|
    ensures XorBlocks(p[..16], iv) == Chained(p, iv, 0)
  {}

  ghost predicate ChainedTo(e: Block -> Block, iv: Block, p: seq<bv8>, c: seq<bv8>, j: nat)
    requires |c| == |p| && 16 * j + 16 <= |p|
  {
    BlockAt(c, j) == e(Chained(p, if j == 0 then iv else BlockAt(c, j - 1), j))
  }

  lemma ChainedStep(e: Block -> Block, iv: Block, p: seq<bv8>, head: Block, tail: seq<bv8>, j: nat)
    requires |tail| == |p| - 16 && 0 < j && 16 * j + 16 <= |p|
    requires ChainedTo(e, head, p[16..], tail, j - 1)
    ensures ChainedTo(e, iv, p, head + tail, j)
  {
    LaterBlock(head, tail, j);
    if j == 1 {
      FirstBlock(head, tail);
      ChainedLater(p, head, 1);
    } else {
      LaterBlock(head, tail, j - 1);
      ChainedLater(p, BlockAt(tail, j - 2), j);
    }
  }

  lemma {:induction false} CbcBlock(e: Block -> Block, iv: Block, p: seq<bv8>, j: nat)
    requires |p| % 16 == 0 && 16 * j < |p|
    ensures |CbcEncrypt(e, iv, p)| == |p| && ChainedTo(e, iv, p, CbcEncrypt(e, iv, p), j)
    decreases |p|
  {
    var head := e(XorBlocks(p[..16], iv));
    var tail := CbcEncrypt(e, head, p[16..]);
    if j == 0 {
      FirstBlock(head, tail);
      ChainedFirst(p, iv);
    } else {
      CbcBlock(e, head, p[16..], j - 1);
      ChainedStep(e, iv, p, head, tail, j);
    }
  }

  // Every block that is written, for every key of 128 or 256 bits.
  lemma EncryptedBlock(size: KeySize, key: seq<bv8>, iv: Block, p: seq<bv8>, j: nat)
    requires |key| == 4 * size.Words() && |p| % 16 == 0 && 16 * j < |p|
    ensures |Encrypted(size, key, iv, p)| == |p|
    ensures size != Aes192 ==> var c := Encrypted(size, key, iv, p);
            BlockAt(c, j) == StandardCipher(TableBox().sub, StandardKeys(size, key).At, size.Rounds(),
                                            Chained(p, if j == 0 then iv else BlockAt(c, j - 1), j))
  {
    var c := Encrypted(size, key, iv, p);
    CbcBlock(KeyedCipher(size, key).Forth, iv, p, j);
    CipherIsStandard(size, key, Chained(p, if j == 0 then iv else BlockAt(c, j - 1), j));
  }
}
