// The encrypted disk of kernel/fs/disk_encryption.c as a value: what the blocks
// of the underlying device mean to a reader of the wrapper, and the vector each
// block is encrypted under.
module EncryptedView {
  import opened Values
  import opened Bits
  import opened Words
  import opened Gf256
  import opened AesRound
  import opened AesKeys
  import opened Aes
  import opened BlockDevice

  const BLOCK_SIZE := 512

  // ------------------------------------------------------------------------
  // The initial vector of a block
  // ------------------------------------------------------------------------

  function Quotient(n: nat, d: nat): nat
    requires d > 0
  {
    n / d
  }

  // Byte i of a block number, least significant first.
  function NumberByte(n: nat, i: nat): bv8 {
    Low8(Quotient(n, Pow256(i)))
  }

  // The block number in the first eight bytes, the first of them flipped by 0x5a.
  function IvOf(n: nat): Block {
    seq(16, i requires 0 <= i < 16 =>
      if i == 0 then Xor(NumberByte(n, 0), 0x5a) else if i < 8 then NumberByte(n, i) else 0)
  }

  lemma SameByte(n: nat, m: nat, i: nat)
    requires i < 8 && IvOf(n) == IvOf(m)
    ensures NumberByte(n, i) == NumberByte(m, i)
  {
    assert IvOf(n)[i] == IvOf(m)[i];
    if i == 0 {
      XorCancel(NumberByte(n, 0), 0x5a);
      XorCancel(NumberByte(m, 0), 0x5a);
    }
  }

  lemma LowByte(x: nat, y: nat)
    requires Low8(x) == Low8(y)
    ensures x % 256 == y % 256
  {
    ByteOfByte(x % 256);
    ByteOfByte(y % 256);
  }

  lemma NextQuotient(x: nat, i: nat)
    ensures Quotient(Quotient(x, Pow256(i)), 256) == Quotient(x, Pow256(i + 1))
  {
    DivDiv(x, Pow256(i), 256);
  }

  lemma SameParts(x: nat, y: nat)
    requires Quotient(x, 256) == Quotient(y, 256) && Low8(x) == Low8(y)
    ensures x == y
  {
    LowByte(x, y);
  }

  lemma NothingAbove(n: nat)
    requires n < TWO64
    ensures Quotient(n, Pow256(8)) == 0
  {
    EightBytes();
  }

  // Numbers whose bytes from i on are the same have the same quotient.
  lemma {:induction false} BytesDetermine(n: nat, m: nat, i: nat)
    requires i <= 8 && n < TWO64 && m < TWO64
    requires forall j: nat :: i <= j < 8 ==> NumberByte(n, j) == NumberByte(m, j)
    ensures Quotient(n, Pow256(i)) == Quotient(m, Pow256(i))
    decreases 8 - i
  {
    if i == 8 {
      NothingAbove(n);
      NothingAbove(m);
    } else {
      BytesDetermine(n, m, i + 1);
      assert NumberByte(n, i) == NumberByte(m, i);
      NextQuotient(n, i);
      NextQuotient(m, i);
      SameParts(Quotient(n, Pow256(i)), Quotient(m, Pow256(i)));
    }
  }

  // No two blocks of a device are encrypted under the same vector.
  lemma IvOfInjective(n: nat, m: nat)
    requires n < TWO64 && m < TWO64 && IvOf(n) == IvOf(m)
    ensures n == m
  {
    forall j: nat | j < 8
      ensures NumberByte(n, j) == NumberByte(m, j)
    {
      SameByte(n, m, j);
    }
    BytesDetermine(n, m, 0);
    assert Pow256(0) == 1;
  }

  // ------------------------------------------------------------------------
  // Sealing and opening a block
  // ------------------------------------------------------------------------

  datatype Config = Config(key: seq<bv8>, enabled: bool) {
    ghost predicate Valid() {
      |key| == 32
    }

    function Seal(n: nat, b: seq<bv8>): seq<bv8> {
      if enabled && |key| == 32 then Encrypted(Aes256, key, IvOf(n), b) else b
    }

    function Open(n: nat, c: seq<bv8>): seq<bv8> {
      if enabled && |key| == 32 then Decrypted(Aes256, key, IvOf(n), c) else c
    }
  }

  // The vector of block n, byte by byte.
  ghost predicate Vector(n: nat, iv: Block) {
    && iv[0] == Low8(n) ^ 0x5a
    && (forall i: nat :: 1 <= i < 8 ==> iv[i] == Low8(Quotient(n, Pow256(i))))
    && (forall i: nat :: 8 <= i < 16 ==> iv[i] == 0)
  }

  // What the device holds where the wrapper wrote b to block n.
  ghost predicate OnDisk(config: Config, n: nat, b: seq<bv8>, raw: seq<bv8>)
    requires config.Valid()
  {
    exists iv :: Vector(n, iv) && Same(raw, if config.enabled then Encrypted(Aes256, config.key, iv, b) else b)
  }

  // What the wrapper reads from block n where the device holds raw.
  ghost predicate FromDisk(config: Config, n: nat, raw: seq<bv8>, b: seq<bv8>)
    requires config.Valid()
  {
    exists iv :: Vector(n, iv) && Same(b, if config.enabled then Decrypted(Aes256, config.key, iv, raw) else raw)
  }

  lemma IvIsVector(n: nat)
    ensures Vector(n, IvOf(n))
  {
    assert Pow256(0) == 1;
  }

  lemma SealedOnDisk(config: Config, n: nat, b: seq<bv8>, raw: seq<bv8>)
    requires config.Valid() && Same(raw, config.Seal(n, b))
    ensures OnDisk(config, n, b, raw)
  {
    IvIsVector(n);
  }

  lemma OpenedFromDisk(config: Config, n: nat, raw: seq<bv8>, b: seq<bv8>)
    requires config.Valid() && Same(b, config.Open(n, raw))
    ensures FromDisk(config, n, raw, b)
  {
    IvIsVector(n);
  }

  ghost predicate OpensSealed(seal: (nat, seq<bv8>) -> seq<bv8>, open: (nat, seq<bv8>) -> seq<bv8>) {
    forall n: nat, b :: |b| == BLOCK_SIZE ==> |seal(n, b)| == BLOCK_SIZE && Same(open(n, seal(n, b)), b)
  }

  lemma OpenSeal(config: Config)
    ensures OpensSealed(config.Seal, config.Open)
    ensures forall n: nat, c :: |c| == BLOCK_SIZE ==> |config.Open(n, c)| == BLOCK_SIZE
  {
    forall n: nat, b | |b| == BLOCK_SIZE
      ensures |config.Seal(n, b)| == BLOCK_SIZE && Same(config.Open(n, config.Seal(n, b)), b)
    {
      if config.enabled && |config.key| == 32 {
        DecryptsWhatWasEncrypted(Aes256, config.key, IvOf(n), b);
      }
    }
  }

  // ------------------------------------------------------------------------
  // What the wrapper shows
  // ------------------------------------------------------------------------

  // The blocks a reader of the wrapper sees: all but the header, opened.
  function View(open: (nat, seq<bv8>) -> seq<bv8>, blocks: seq<seq<bv8>>): seq<seq<bv8>> {
    if |blocks| == 0 then [] else seq(|blocks| - 1, i requires 0 <= i < |blocks| - 1 => open(i, blocks[i + 1]))
  }

  // Consecutive blocks sealed under the numbers from start on, which wrap.
  function SealAll(seal: (nat, seq<bv8>) -> seq<bv8>, start: nat, new_: seq<seq<bv8>>): seq<seq<bv8>> {
    seq(|new_|, i requires 0 <= i < |new_| => seal(Add64(start, i), new_[i]))
  }

  function OpenAll(open: (nat, seq<bv8>) -> seq<bv8>, start: nat, raw: seq<seq<bv8>>): seq<seq<bv8>> {
    seq(|raw|, i requires 0 <= i < |raw| => open(Add64(start, i), raw[i]))
  }

  ghost predicate AllBlocks(blocks: seq<seq<bv8>>) {
    forall i :: 0 <= i < |blocks| ==> |blocks[i]| == BLOCK_SIZE
  }

  lemma ViewWrite(seal: (nat, seq<bv8>) -> seq<bv8>, open: (nat, seq<bv8>) -> seq<bv8>, blocks: seq<seq<bv8>>, n: nat,
                  b: seq<bv8>)
    requires OpensSealed(seal, open) && |b| == BLOCK_SIZE && n + 1 < |blocks|
    ensures View(open, blocks[n + 1 := seal(n, b)]) == View(open, blocks)[n := b]
  {
    assert Same(open(n, seal(n, b)), b);
  }

  lemma AddSmall(a: nat, b: nat)
    requires a + b < TWO64
    ensures Add64(a, b) == a + b
  {}

  lemma SealedAt(seal: (nat, seq<bv8>) -> seq<bv8>, start: nat, new_: seq<seq<bv8>>, j: nat, n: nat)
    requires j < |new_| && Add64(start, j) == n
    ensures SealAll(seal, start, new_)[j] == seal(n, new_[j])
  {}

  // Each block is the sealed new block of its number.
  ghost predicate SealedFrom(seal: (nat, seq<bv8>) -> seq<bv8>, start: nat, new_: seq<seq<bv8>>,
                             sealed: seq<seq<bv8>>) {
    |sealed| == |new_| && forall j: nat :: j < |new_| ==> Same(sealed[j], seal(start + j, new_[j]))
  }

  lemma SealAllPlain(seal: (nat, seq<bv8>) -> seq<bv8>, start: nat, new_: seq<seq<bv8>>)
    requires start + |new_| < TWO64
    ensures SealedFrom(seal, start, new_, SealAll(seal, start, new_))
  {
    forall j: nat | j < |new_|
      ensures Same(SealAll(seal, start, new_)[j], seal(start + j, new_[j]))
    {
      AddSmall(start, j);
    }
  }

  lemma ReplacedAt(blocks: seq<seq<bv8>>, start: nat, new_: seq<seq<bv8>>, i: nat)
    requires start + |new_| <= |blocks| && i < |blocks|
    ensures Same(Replace(blocks, start, new_)[i], if start <= i < start + |new_| then new_[i - start] else blocks[i])
  {}

  lemma ViewOfSealedAt(seal: (nat, seq<bv8>) -> seq<bv8>, open: (nat, seq<bv8>) -> seq<bv8>, blocks: seq<seq<bv8>>,
                       start: nat, new_: seq<seq<bv8>>, sealed: seq<seq<bv8>>, i: nat)
    requires OpensSealed(seal, open) && AllBlocks(new_) && start + 1 + |new_| <= |blocks| && i + 1 < |blocks|
    requires SealedFrom(seal, start, new_, sealed)
    ensures Same(View(open, Replace(blocks, start + 1, sealed))[i], Replace(View(open, blocks), start, new_)[i])
  {
    ReplacedAt(blocks, start + 1, sealed, i + 1);
    ReplacedAt(View(open, blocks), start, new_, i);
    ViewIndex(open, Replace(blocks, start + 1, sealed), i);
    ViewIndex(open, blocks, i);
    if start <= i < start + |new_| {
      OpensAt(seal, open, start, new_, sealed, i - start);
    }
  }

  lemma ViewIndex(open: (nat, seq<bv8>) -> seq<bv8>, blocks: seq<seq<bv8>>, i: nat)
    requires i + 1 < |blocks|
    ensures Same(View(open, blocks)[i], open(i, blocks[i + 1]))
  {}

  lemma OpensAt(seal: (nat, seq<bv8>) -> seq<bv8>, open: (nat, seq<bv8>) -> seq<bv8>, start: nat, new_: seq<seq<bv8>>,
                sealed: seq<seq<bv8>>, j: nat)
    requires OpensSealed(seal, open) && AllBlocks(new_) && SealedFrom(seal, start, new_, sealed) && j < |new_|
    ensures Same(open(start + j, sealed[j]), new_[j])
  {
    assert Same(sealed[j], seal(start + j, new_[j]));
    assert Same(open(start + j, seal(start + j, new_[j])), new_[j]);
  }

  lemma ViewOfSealed(seal: (nat, seq<bv8>) -> seq<bv8>, open: (nat, seq<bv8>) -> seq<bv8>, blocks: seq<seq<bv8>>,
                     start: nat, new_: seq<seq<bv8>>, sealed: seq<seq<bv8>>)
    requires OpensSealed(seal, open) && AllBlocks(new_) && start + 1 + |new_| <= |blocks|
    requires SealedFrom(seal, start, new_, sealed)
    ensures Same(View(open, Replace(blocks, start + 1, sealed)), Replace(View(open, blocks), start, new_))
  {
    var seen, goal := View(open, Replace(blocks, start + 1, sealed)), Replace(View(open, blocks), start, new_);
    forall i | 0 <= i < |blocks| - 1
      ensures Same(seen[i], goal[i])
    {
      ViewOfSealedAt(seal, open, blocks, start, new_, sealed, i);
    }
    assert seen == goal;
  }

  // Writing inside the wrapper replaces what is seen and leaves the header.
  lemma ViewReplace(seal: (nat, seq<bv8>) -> seq<bv8>, open: (nat, seq<bv8>) -> seq<bv8>, blocks: seq<seq<bv8>>,
                    start: nat, new_: seq<seq<bv8>>, after: seq<seq<bv8>>)
    requires OpensSealed(seal, open) && AllBlocks(new_)
    requires start + 1 + |new_| <= |blocks| < TWO64
    requires Same(after, Replace(blocks, start + 1, SealAll(seal, start, new_)))
    ensures Same(View(open, after), Replace(View(open, blocks), start, new_))
    ensures Same(after[0], blocks[0])
  {
    SealAllPlain(seal, start, new_);
    ViewOfSealed(seal, open, blocks, start, new_, SealAll(seal, start, new_));
  }

  lemma SealAllWrapped(seal: (nat, seq<bv8>) -> seq<bv8>, new_: seq<seq<bv8>>)
    requires 0 < |new_| < TWO64
    ensures Same(SealAll(seal, TWO64 - 1, new_)[0], seal(TWO64 - 1, new_[0]))
    ensures SealedFrom(seal, 0, new_[1..], SealAll(seal, TWO64 - 1, new_)[1..])
  {
    SealedAt(seal, TWO64 - 1, new_, 0, TWO64 - 1);
    forall j: nat | j < |new_| - 1
      ensures Same(SealAll(seal, TWO64 - 1, new_)[1..][j], seal(0 + j, new_[1..][j]))
    {
      SealedAt(seal, TWO64 - 1, new_, j + 1, j);
    }
  }

  lemma HeaderUnseen(open: (nat, seq<bv8>) -> seq<bv8>, blocks: seq<seq<bv8>>, sealed: seq<seq<bv8>>)
    requires 0 < |sealed| <= |blocks|
    ensures Same(View(open, Replace(blocks, 0, sealed)), View(open, Replace(blocks, 1, sealed[1..])))
  {
    assert Replace(blocks, 0, sealed)[1..] == Replace(blocks, 1, sealed[1..])[1..];
    forall i | 0 <= i < |blocks| - 1
      ensures View(open, Replace(blocks, 0, sealed))[i] == View(open, Replace(blocks, 1, sealed[1..]))[i]
    {
      assert Replace(blocks, 0, sealed)[i + 1] == Replace(blocks, 0, sealed)[1..][i];
      assert Replace(blocks, 1, sealed[1..])[i + 1] == Replace(blocks, 1, sealed[1..])[1..][i];
    }
    assert View(open, Replace(blocks, 0, sealed)) == View(open, Replace(blocks, 1, sealed[1..]));
  }

  lemma WrappedHeader(seal: (nat, seq<bv8>) -> seq<bv8>, blocks: seq<seq<bv8>>, new_: seq<seq<bv8>>)
    requires 0 < |new_| <= |blocks| < TWO64
    ensures Same(Replace(blocks, 0, SealAll(seal, TWO64 - 1, new_))[0], seal(TWO64 - 1, new_[0]))
  {
    SealAllWrapped(seal, new_);
    ReplacedAt(blocks, 0, SealAll(seal, TWO64 - 1, new_), 0);
  }

  // A request at the last block number comes round to the header.
  lemma ViewWrapped(seal: (nat, seq<bv8>) -> seq<bv8>, open: (nat, seq<bv8>) -> seq<bv8>, blocks: seq<seq<bv8>>,
                    new_: seq<seq<bv8>>, after: seq<seq<bv8>>)
    requires OpensSealed(seal, open) && AllBlocks(new_)
    requires 0 < |new_| <= |blocks| < TWO64
    requires |after| == |blocks| && Same(after, Replace(blocks, 0, SealAll(seal, TWO64 - 1, new_)))
    ensures Same(View(open, after), Replace(View(open, blocks), 0, new_[1..]))
    ensures Same(after[0], seal(TWO64 - 1, new_[0]))
  {
    WrappedHeader(seal, blocks, new_);
    HeaderUnseen(open, blocks, SealAll(seal, TWO64 - 1, new_));
    SeenFromZero(seal, open, blocks, new_);
  }

  lemma SeenFromZero(seal: (nat, seq<bv8>) -> seq<bv8>, open: (nat, seq<bv8>) -> seq<bv8>, blocks: seq<seq<bv8>>,
                     new_: seq<seq<bv8>>)
    requires OpensSealed(seal, open) && AllBlocks(new_)
    requires 0 < |new_| <= |blocks| < TWO64
    ensures Same(View(open, Replace(blocks, 1, SealAll(seal, TWO64 - 1, new_)[1..])),
                 Replace(View(open, blocks), 0, new_[1..]))
  {
    SealAllWrapped(seal, new_);
    ViewOfSealed(seal, open, blocks, 0, new_[1..], SealAll(seal, TWO64 - 1, new_)[1..]);
  }

  lemma ViewReadAt(open: (nat, seq<bv8>) -> seq<bv8>, blocks: seq<seq<bv8>>, start: nat, raw: seq<seq<bv8>>, i: nat)
    requires start + 1 + |raw| <= |blocks| < TWO64 && i < |raw|
    requires Same(raw[i], blocks[start + 1 + i])
    ensures Same(OpenAll(open, start, raw)[i], View(open, blocks)[start + i])
  {
    AddSmall(start, i);
    assert Same(OpenAll(open, start, raw)[i], open(start + i, raw[i]));
    ViewIndex(open, blocks, start + i);
  }

  lemma ViewRead(open: (nat, seq<bv8>) -> seq<bv8>, blocks: seq<seq<bv8>>, start: nat, count: nat)
    requires start + 1 + count <= |blocks| < TWO64
    ensures Same(OpenAll(open, start, blocks[start + 1..start + 1 + count]), View(open, blocks)[start..start + count])
  {
    var raw := blocks[start + 1..start + 1 + count];
    forall i | 0 <= i < count
      ensures Same(OpenAll(open, start, raw)[i], View(open, blocks)[start..start + count][i])
    {
      ViewReadAt(open, blocks, start, raw, i);
    }
    assert OpenAll(open, start, raw) == View(open, blocks)[start..start + count];
  }

  // ------------------------------------------------------------------------
  // The same, for the cipher of a configuration
  // ------------------------------------------------------------------------

  lemma Written(config: Config, blocks: seq<seq<bv8>>, n: nat, b: seq<bv8>, sealed: seq<bv8>)
    requires |b| == BLOCK_SIZE && Same(sealed, config.Seal(n, b))
    ensures |sealed| == BLOCK_SIZE
    ensures n + 1 < |blocks| ==> Same(View(config.Open, blocks[n + 1 := sealed]), View(config.Open, blocks)[n := b])
  {
    OpenSeal(config);
    if n + 1 < |blocks| {
      ViewWrite(config.Seal, config.Open, blocks, n, b);
    }
  }

  // A sealed buffer cuts back into the sealed blocks.
  lemma CutSealed(config: Config, start: nat, new_: seq<seq<bv8>>, sealed: seq<bv8>)
    requires AllBlocks(new_) && Same(sealed, Flatten(SealAll(config.Seal, start, new_)))
    ensures |sealed| == |new_| * BLOCK_SIZE
    ensures Same(Cut(sealed, |new_|, BLOCK_SIZE), SealAll(config.Seal, start, new_))
  {
    OpenSeal(config);
    CutFlatten(SealAll(config.Seal, start, new_), BLOCK_SIZE);
  }

  lemma WrittenInside(config: Config, blocks: seq<seq<bv8>>, start: nat, new_: seq<seq<bv8>>, sealed: seq<seq<bv8>>)
    requires AllBlocks(new_) && start + 1 + |new_| <= |blocks| < TWO64
    requires |sealed| == |new_| && Same(sealed, SealAll(config.Seal, start, new_))
    ensures Same(View(config.Open, Replace(blocks, start + 1, sealed)), Replace(View(config.Open, blocks), start, new_))
    ensures Same(Replace(blocks, start + 1, sealed)[0], blocks[0])
  {
    OpenSeal(config);
    ViewReplace(config.Seal, config.Open, blocks, start, new_, Replace(blocks, start + 1, sealed));
  }

  lemma WrittenWrapped(config: Config, blocks: seq<seq<bv8>>, new_: seq<seq<bv8>>, sealed: seq<seq<bv8>>)
    requires AllBlocks(new_) && 0 < |new_| <= |blocks| < TWO64
    requires |sealed| == |new_| && Same(sealed, SealAll(config.Seal, TWO64 - 1, new_))
    ensures Same(View(config.Open, Replace(blocks, 0, sealed)), Replace(View(config.Open, blocks), 0, new_[1..]))
    ensures Same(Replace(blocks, 0, sealed)[0], config.Seal(TWO64 - 1, new_[0]))
  {
    OpenSeal(config);
    ViewWrapped(config.Seal, config.Open, blocks, new_, Replace(blocks, 0, sealed));
  }

  // Different blocks are sealed differently.
  lemma SealsDiffer(seal: (nat, seq<bv8>) -> seq<bv8>, open: (nat, seq<bv8>) -> seq<bv8>, n: nat, b: seq<bv8>,
                    c: seq<bv8>)
    requires OpensSealed(seal, open) && |b| == BLOCK_SIZE && |c| == BLOCK_SIZE && b != c
    ensures !Same(seal(n, b), seal(n, c))
  {
    assert Same(open(n, seal(n, b)), b) && Same(open(n, seal(n, c)), c);
  }

  // Whatever the header holds, some block seals to something else.
  lemma SomeBlockSealsOtherwise(config: Config, n: nat, header: seq<bv8>) returns (b: seq<bv8>)
    ensures |b| == BLOCK_SIZE && !Same(config.Seal(n, b), header)
  {
    OpenSeal(config);
    b := seq(BLOCK_SIZE, i => 0 as bv8);
    var c := seq(BLOCK_SIZE, i => 1 as bv8);
    assert b[0] != c[0];
    SealsDiffer(config.Seal, config.Open, n, b, c);
    if Same(config.Seal(n, b), header) {
      b := c;
    }
  }
}
