// kernel/fs/disk_encryption.c: the encrypting wrapper of a block device, reached
// through the bounds checks of kernel/fs/block.c.  Block n of the wrapper is
// block n + 1 of the device, encrypted under a vector made from n; block 0 of
// the device is the header.
//
// Each operation is proved to act on the plain array of blocks that
// EncryptedView.View describes.
module DiskEncryption {
  import opened Values
  import opened AesKeys
  import Aes
  import opened Gf256
  import opened BlockDevice
  import opened EncryptedView

  method GenerateIv(n: nat) returns (iv: array<bv8>)
    ensures fresh(iv) && iv.Length == 16 && Same(iv[..], IvOf(n))
  {
    iv := new bv8[16](i => 0);
    for i := 0 to 8
      invariant forall j :: 0 <= j < i ==> iv[j] == NumberByte(n, j)
      invariant forall j :: i <= j < 16 ==> iv[j] == 0
    {
      iv[i] := NumberByte(n, i);
    }
    iv[0] := Xor(iv[0], 0x5a);
    assert iv[..] == IvOf(n);
  }

  method SealBlock(config: Config, n: nat, b: seq<bv8>) returns (c: seq<bv8>)
    requires config.Valid() && n < TWO64 && |b| == BLOCK_SIZE
    ensures Same(c, config.Seal(n, b))
  {
    if !config.enabled {
      return b;
    }
    var iv := GenerateIv(n);
    var key := new bv8[32](i requires 0 <= i < |config.key| => config.key[i]);
    var plain := new bv8[BLOCK_SIZE](i requires 0 <= i < |b| => b[i]);
    var cipher := new bv8[BLOCK_SIZE];
    var err := Aes.Encrypt(Aes256, key, iv, plain, BLOCK_SIZE, cipher);
    assert key[..] == config.key && plain[..BLOCK_SIZE] == b;
    c := cipher[..];
    assert cipher[..] == cipher[..BLOCK_SIZE];
  }

  method OpenBlock(config: Config, n: nat, c: seq<bv8>) returns (b: seq<bv8>)
    requires config.Valid() && n < TWO64 && |c| == BLOCK_SIZE
    ensures Same(b, config.Open(n, c))
  {
    if !config.enabled {
      return c;
    }
    var iv := GenerateIv(n);
    var key := new bv8[32](i requires 0 <= i < |config.key| => config.key[i]);
    var cipher := new bv8[BLOCK_SIZE](i requires 0 <= i < |c| => c[i]);
    var plain := new bv8[BLOCK_SIZE];
    var err := Aes.Decrypt(Aes256, key, iv, cipher, BLOCK_SIZE, plain);
    assert key[..] == config.key && cipher[..BLOCK_SIZE] == c;
    b := plain[..];
    assert plain[..] == plain[..BLOCK_SIZE];
  }

  // ------------------------------------------------------------------------
  // Buffers of several blocks
  // ------------------------------------------------------------------------

  lemma SealAllSnoc(seal: (nat, seq<bv8>) -> seq<bv8>, start: nat, cut: seq<seq<bv8>>, i: nat)
    requires i < |cut|
    ensures Flatten(SealAll(seal, start, cut[..i + 1]))
         == Flatten(SealAll(seal, start, cut[..i])) + seal(Add64(start, i), cut[i])
  {
    FlattenSnoc(SealAll(seal, start, cut[..i]), seal(Add64(start, i), cut[i]));
    assert SealAll(seal, start, cut[..i + 1]) == SealAll(seal, start, cut[..i]) + [seal(Add64(start, i), cut[i])];
  }

  lemma OpenAllSnoc(open: (nat, seq<bv8>) -> seq<bv8>, start: nat, raw: seq<seq<bv8>>, i: nat)
    requires i < |raw|
    ensures Flatten(OpenAll(open, start, raw[..i + 1]))
         == Flatten(OpenAll(open, start, raw[..i])) + open(Add64(start, i), raw[i])
  {
    FlattenSnoc(OpenAll(open, start, raw[..i]), open(Add64(start, i), raw[i]));
    assert OpenAll(open, start, raw[..i + 1]) == OpenAll(open, start, raw[..i]) + [open(Add64(start, i), raw[i])];
  }

  method SealBuffer(config: Config, start: nat, count: nat, buf: seq<bv8>) returns (out: seq<bv8>)
    requires config.Valid() && start < TWO64 && |buf| == count * BLOCK_SIZE
    ensures Same(out, Flatten(SealAll(config.Seal, start, Cut(buf, count, BLOCK_SIZE))))
  {
    ghost var cut := Cut(buf, count, BLOCK_SIZE);
    out := [];
    for i := 0 to count
      invariant Same(out, Flatten(SealAll(config.Seal, start, cut[..i])))
    {
      InBuffer(i, count, BLOCK_SIZE);
      SliceBounds(i, BLOCK_SIZE);
      assert cut[i] == Slice(buf, i, BLOCK_SIZE);
      var c := SealBlock(config, Add64(start, i), Slice(buf, i, BLOCK_SIZE));
      SealAllSnoc(config.Seal, start, cut, i);
      out := out + c;
    }
    assert cut[..count] == cut;
  }

  method OpenBuffer(config: Config, start: nat, buf: seq<bv8>, ghost raw: seq<seq<bv8>>) returns (out: seq<bv8>)
    requires config.Valid() && start < TWO64 && AllBlocks(raw) && buf == Flatten(raw)
    ensures Same(out, Flatten(OpenAll(config.Open, start, raw)))
  {
    FlattenLength(raw, BLOCK_SIZE);
    var count := |buf| / BLOCK_SIZE;
    out := [];
    for i := 0 to count
      invariant Same(out, Flatten(OpenAll(config.Open, start, raw[..i])))
    {
      SliceOfFlatten(raw, i, BLOCK_SIZE);
      var b := OpenBlock(config, Add64(start, i), Slice(buf, i, BLOCK_SIZE));
      OpenAllSnoc(config.Open, start, raw, i);
      out := out + b;
    }
    assert raw[..count] == raw;
  }

  // ------------------------------------------------------------------------
  // The wrapper
  // ------------------------------------------------------------------------

  // The request lies inside the wrapper of a device of n blocks.
  ghost predicate Inside(start: nat, count: nat, n: nat) {
    count > 0 && start + 1 + count <= n
  }

  // The request starts at the last block number and passes the wrapping check.
  ghost predicate ComesRound(start: nat, count: nat, n: nat) {
    0 < count <= n && start == TWO64 - 1
  }

  // How many blocks the wrapper of a device of n blocks shows.
  function Capacity(n: nat): nat {
    if n == 0 then 0 else n - 1
  }

  // How many blocks of a request reach the device.
  ghost function Landed(start: nat, count: nat, n: nat): nat {
    if Inside(start, count, n) || ComesRound(start, count, n) then count
    else if Spills(start, count, Capacity(n)) then Capacity(n) - start
    else 0
  }

  lemma LandedFits(start: nat, count: nat, n: nat)
    requires start < TWO64 && 0 < count < TWO64 && n < TWO64
    ensures var m := Landed(start, count, n);
            m <= count && (m > 0 ==> Inside(start, m, n) || ComesRound(start, m, n))
  {}

  // A request that passes the wrapper's check moves that many blocks of the device.
  lemma Requests(start: nat, count: nat, n: nat)
    requires start < TWO64 && 0 < count < TWO64 && n < TWO64
    requires Add64(start, count) <= (n + TWO64 - 1) % TWO64
    ensures Moved(Add64(1, start), count, n) == Landed(start, count, n)
    ensures Add64(1, start) + count <= n <==> Inside(start, count, n) || ComesRound(start, count, n)
    ensures Inside(start, count, n) ==> Add64(1, start) == start + 1
    ensures ComesRound(start, count, n) ==> Add64(1, start) == 0
  {}

  lemma Refused(start: nat, count: nat, n: nat)
    requires start < TWO64 && 0 < count < TWO64 && n < TWO64
    requires Add64(start, count) > (n + TWO64 - 1) % TWO64
    ensures Landed(start, count, n) == 0 && !Inside(start, count, n) && !ComesRound(start, count, n)
  {}

  // What a write of several blocks does to a device: inside the wrapper it
  // replaces the blocks shown and keeps the header; from the last block number
  // on it seals the first block over the header and shows the rest from 0.
  ghost predicate Wrote(config: Config, before: seq<seq<bv8>>, after: seq<seq<bv8>>, start: nat, new_: seq<seq<bv8>>) {
    && |after| == |before|
    && (Inside(start, |new_|, |before|) ==>
          Same(View(config.Open, after), Replace(View(config.Open, before), start, new_)) && Same(after[0], before[0]))
    && (ComesRound(start, |new_|, |before|) ==>
          Same(View(config.Open, after), Replace(View(config.Open, before), 0, new_[1..]))
          && Same(after[0], config.Seal(TWO64 - 1, new_[0])))
  }

  lemma WroteInside(config: Config, before: seq<seq<bv8>>, start: nat, new_: seq<seq<bv8>>, cut: seq<seq<bv8>>)
    requires AllBlocks(new_) && |before| < TWO64 && Inside(start, |new_|, |before|)
    requires |cut| == |new_| && Same(cut, SealAll(config.Seal, start, new_))
    ensures Wrote(config, before, Replace(before, start + 1, cut), start, new_)
  {
    WrittenInside(config, before, start, new_, cut);
  }

  lemma WroteAround(config: Config, before: seq<seq<bv8>>, new_: seq<seq<bv8>>, cut: seq<seq<bv8>>)
    requires AllBlocks(new_) && |before| < TWO64 && ComesRound(TWO64 - 1, |new_|, |before|)
    requires |cut| == |new_| && Same(cut, SealAll(config.Seal, TWO64 - 1, new_))
    ensures Wrote(config, before, Replace(before, 0, cut), TWO64 - 1, new_)
  {
    WrittenWrapped(config, before, new_, cut);
  }

  lemma WroteSealed(config: Config, before: seq<seq<bv8>>, start: nat, new_: seq<seq<bv8>>, cut: seq<seq<bv8>>)
    requires AllBlocks(new_) && start < TWO64 && |before| < TWO64
    requires |cut| == |new_| && Same(cut, SealAll(config.Seal, start, new_))
    ensures Inside(start, |new_|, |before|) || ComesRound(start, |new_|, |before|) ==>
              Add64(1, start) + |new_| <= |before|
              && Wrote(config, before, Replace(before, Add64(1, start), cut), start, new_)
  {
    if Inside(start, |new_|, |before|) {
      AddSmall(1, start);
      WroteInside(config, before, start, new_, cut);
    } else if ComesRound(start, |new_|, |before|) {
      assert Add64(1, TWO64 - 1) == 0;
      WroteAround(config, before, new_, cut);
    }
  }

  // The device after a request to write count blocks of a buffer, accepted or not.
  ghost predicate AfterRequest(config: Config, before: seq<seq<bv8>>, after: seq<seq<bv8>>, start: nat, count: nat,
                               buf: seq<bv8>)
  {
    var m := Landed(start, count, |before|);
    if m == 0 then after == before
    else m * BLOCK_SIZE <= |buf| && Wrote(config, before, after, start, Cut(buf, m, BLOCK_SIZE))
  }

  // The same on the raw device: the blocks that landed hold the encrypted blocks of
  // the buffer in order, under the numbers the caller gave, and the others are as
  // they were.
  ghost predicate RawAfter(config: Config, before: seq<seq<bv8>>, after: seq<seq<bv8>>, start: nat, count: nat,
                           buf: seq<bv8>)
    requires config.Valid()
  {
    var m, first := Landed(start, count, |before|), Add64(1, start);
    && |after| == |before| && (m > 0 ==> first + m <= |before|) && m * BLOCK_SIZE <= |buf|
    && (forall i: nat :: i < |before| && !(first <= i < first + m) ==> Same(after[i], before[i]))
    && (forall j: nat :: j < m ==> OnDiskAt(config, after, first, start, buf, j))
  }

  // Block j of the buffer is on the device j blocks after the first.
  ghost predicate OnDiskAt(config: Config, after: seq<seq<bv8>>, first: nat, start: nat, buf: seq<bv8>, j: nat)
    requires config.Valid()
  {
    && first + j < |after| && (j + 1) * BLOCK_SIZE <= |buf|
    && OnDisk(config, Add64(start, j), Slice(buf, j, BLOCK_SIZE), after[first + j])
  }

  lemma PutAt(blocks: seq<seq<bv8>>, first: nat, cut: seq<seq<bv8>>, i: nat)
    requires (cut != [] ==> first + |cut| <= |blocks|) && i < |blocks|
    ensures Same(Put(blocks, first, cut)[i], if first <= i < first + |cut| then cut[i - first] else blocks[i])
  {}

  lemma SealedAtPlace(config: Config, start: nat, buf: seq<bv8>, cut: seq<seq<bv8>>, j: nat)
    requires config.Valid() && j < |cut| && |cut| * BLOCK_SIZE <= |buf|
    requires Same(cut, SealAll(config.Seal, start, Cut(buf, |cut|, BLOCK_SIZE)))
    ensures (j + 1) * BLOCK_SIZE <= |buf| && OnDisk(config, Add64(start, j), Slice(buf, j, BLOCK_SIZE), cut[j])
  {
    InBuffer(j, |cut|, BLOCK_SIZE);
    SealedAt(config.Seal, start, Cut(buf, |cut|, BLOCK_SIZE), j, Add64(start, j));
    SealedOnDisk(config, Add64(start, j), Slice(buf, j, BLOCK_SIZE), cut[j]);
  }

  lemma RawLanded(config: Config, before: seq<seq<bv8>>, start: nat, count: nat, buf: seq<bv8>, cut: seq<seq<bv8>>)
    requires config.Valid() && |cut| * BLOCK_SIZE <= |buf| && |cut| == Landed(start, count, |before|)
    requires cut != [] ==> Add64(1, start) + |cut| <= |before|
    requires Same(cut, SealAll(config.Seal, start, Cut(buf, |cut|, BLOCK_SIZE)))
    ensures RawAfter(config, before, Put(before, Add64(1, start), cut), start, count, buf)
  {
    var first := Add64(1, start);
    var after := Put(before, first, cut);
    forall i: nat | i < |before| && !(first <= i < first + |cut|)
      ensures Same(after[i], before[i])
    {
      PutAt(before, first, cut, i);
    }
    forall j: nat | j < |cut|
      ensures OnDiskAt(config, after, first, start, buf, j)
    {
      PutAt(before, first, cut, first + j);
      SealedAtPlace(config, start, buf, cut, j);
    }
  }

  // Block j of what was read comes from j blocks after the first.
  ghost predicate FromDiskAt(config: Config, blocks: seq<seq<bv8>>, first: nat, start: nat, buf: seq<bv8>, j: nat)
    requires config.Valid()
  {
    && first + j < |blocks| && (j + 1) * BLOCK_SIZE <= |buf|
    && FromDisk(config, Add64(start, j), blocks[first + j], Slice(buf, j, BLOCK_SIZE))
  }

  lemma OpenedAtPlace(config: Config, blocks: seq<seq<bv8>>, first: nat, start: nat, raw: seq<seq<bv8>>, buf: seq<bv8>,
                      j: nat)
    requires config.Valid() && AllBlocks(raw) && first + |raw| <= |blocks| && j < |raw|
    requires Same(raw, blocks[first..first + |raw|])
    requires Same(buf, Flatten(OpenAll(config.Open, start, raw)))
    ensures FromDiskAt(config, blocks, first, start, buf, j)
  {
    OpenSeal(config);
    SliceOfFlatten(OpenAll(config.Open, start, raw), j, BLOCK_SIZE);
    assert raw[j] == blocks[first + j];
    OpenedFromDisk(config, Add64(start, j), raw[j], Slice(buf, j, BLOCK_SIZE));
  }

  lemma RawRead(config: Config, blocks: seq<seq<bv8>>, first: nat, start: nat, raw: seq<seq<bv8>>, buf: seq<bv8>)
    requires config.Valid() && AllBlocks(raw) && first + |raw| <= |blocks|
    requires Same(raw, blocks[first..first + |raw|])
    requires Same(buf, Flatten(OpenAll(config.Open, start, raw)))
    ensures |buf| == |raw| * BLOCK_SIZE
    ensures forall j: nat :: j < |raw| ==> FromDiskAt(config, blocks, first, start, buf, j)
  {
    OpenSeal(config);
    FlattenLength(OpenAll(config.Open, start, raw), BLOCK_SIZE);
    forall j: nat | j < |raw|
      ensures FromDiskAt(config, blocks, first, start, buf, j)
    {
      OpenedAtPlace(config, blocks, first, start, raw, buf, j);
    }
  }

  // The first m blocks of a sealed buffer are the first m blocks sealed.
  lemma CutSealedFirst(config: Config, start: nat, buf: seq<bv8>, count: nat, sealed: seq<bv8>, m: nat)
    requires |buf| == count * BLOCK_SIZE && m <= count
    requires Same(sealed, Flatten(SealAll(config.Seal, start, Cut(buf, count, BLOCK_SIZE))))
    ensures |sealed| == count * BLOCK_SIZE
    ensures Same(Cut(sealed, m, BLOCK_SIZE), SealAll(config.Seal, start, Cut(buf, m, BLOCK_SIZE)))
  {
    var new_ := Cut(buf, count, BLOCK_SIZE);
    CutSealed(config, start, new_, sealed);
    CutFirst(buf, count, m);
    CutFirst(sealed, count, m);
    assert SealAll(config.Seal, start, new_)[..m] == SealAll(config.Seal, start, new_[..m]);
  }

  lemma CutFirst(buf: seq<bv8>, count: nat, m: nat)
    requires |buf| == count * BLOCK_SIZE && m <= count
    ensures Same(Cut(buf, m, BLOCK_SIZE), Cut(buf, count, BLOCK_SIZE)[..m])
  {
    assert Cut(buf, m, BLOCK_SIZE) == Cut(buf, count, BLOCK_SIZE)[..m];
  }

  lemma WroteLanded(config: Config, before: seq<seq<bv8>>, start: nat, count: nat, buf: seq<bv8>, cut: seq<seq<bv8>>)
    requires start < TWO64 && 0 < count < TWO64 && |before| < TWO64 && |buf| == count * BLOCK_SIZE
    requires |cut| == Landed(start, count, |before|) <= count
    requires Same(cut, SealAll(config.Seal, start, Cut(buf, |cut|, BLOCK_SIZE)))
    ensures |cut| > 0 ==> Add64(1, start) + |cut| <= |before|
    ensures AfterRequest(config, before, Put(before, Add64(1, start), cut), start, count, buf)
  {
    LandedFits(start, count, |before|);
    if cut != [] {
      WroteSealed(config, before, start, Cut(buf, |cut|, BLOCK_SIZE), cut);
    }
  }

  // An accepted write keeps the header whatever it writes.
  ghost predicate HeaderSafe(config: Config, before: seq<seq<bv8>>, start: nat, count: nat) {
    forall new_, after :: |new_| == count && AllBlocks(new_) && Wrote(config, before, after, start, new_)
      ==> |after| > 0 && |before| > 0 && Same(after[0], before[0])
  }

  // A write from the last block number on, and a content that changes the header.
  lemma HeaderOverwritten(config: Config, before: seq<seq<bv8>>, count: nat)
    requires |before| < TWO64 && ComesRound(TWO64 - 1, count, |before|)
    ensures !HeaderSafe(config, before, TWO64 - 1, count)
  {
    var b := SomeBlockSealsOtherwise(config, TWO64 - 1, before[0]);
    var new_ := seq(count, i => b);
    var sealed := SealAll(config.Seal, TWO64 - 1, new_);
    WroteAround(config, before, new_, sealed);
    assert new_[0] == b;
  }

  // The header is safe from an accepted write exactly when the sum of start and
  // count does not pass the last block number.
  lemma HeaderSafeIff(config: Config, before: seq<seq<bv8>>, start: nat, count: nat)
    requires start < TWO64 && |before| < TWO64
    requires Inside(start, count, |before|) || ComesRound(start, count, |before|)
    ensures HeaderSafe(config, before, start, count) <==> start + count < TWO64
  {
    if start + count >= TWO64 {
      HeaderOverwritten(config, before, count);
    }
  }

  // The bytes the device hands back for an accepted request.
  lemma AcceptedStretch(start: nat, count: nat, blocks: seq<seq<bv8>>)
    requires start < TWO64 && 0 < count < TWO64 && |blocks| < TWO64
    requires Inside(start, count, |blocks|) || ComesRound(start, count, |blocks|)
    ensures Add64(1, start) + count <= |blocks|
    ensures Inside(start, count, |blocks|) ==>
              Same(Stretch(blocks, Add64(1, start), count), Flatten(blocks[start + 1..start + 1 + count]))
    ensures ComesRound(start, count, |blocks|) ==>
              Same(Stretch(blocks, Add64(1, start), count), Flatten(blocks[..count]))
  {
    if ComesRound(start, count, |blocks|) {
      assert blocks[0..0 + count] == blocks[..count];
    }
  }

  class EncryptedDisk {
    const disk: Disk<bv8>
    const blockCount: nat
    var config: Config

    ghost predicate Valid()
      reads this, disk
    {
      && disk.Valid() && disk.blockSize == BLOCK_SIZE && config.Valid()
      && blockCount == (|disk.blocks| + TWO64 - 1) % TWO64
    }

    // The blocks that the wrapper shows.
    ghost function Shown(): seq<seq<bv8>>
      reads this, disk
    {
      View(config.Open, disk.blocks)
    }

    constructor (disk: Disk<bv8>, key: seq<bv8>)
      requires disk.Valid() && disk.blockSize == BLOCK_SIZE && |key| == 32
      ensures Valid() && this.disk == disk && config == Config(key, true)
    {
      this.disk := disk;
      this.config := Config(key, true);
      this.blockCount := (|disk.blocks| + TWO64 - 1) % TWO64;
    }

    method Read(n: nat) returns (err: Status, buf: seq<bv8>)
      requires Valid() && n < TWO64
      ensures err == Ok <==> n < |Shown()|
      ensures err == Ok ==> Same(buf, Shown()[n]) && FromDisk(config, n, disk.blocks[n + 1], buf)
    {
      buf := [];
      if n >= blockCount {
        return InvalidArg, buf;
      }
      err, buf := disk.Read(Add64(1, n));
      if err != Ok {
        return;
      }
      ghost var raw := buf;
      buf := OpenBlock(config, n, buf);
      OpenedFromDisk(config, n, raw, buf);
    }

    method Write(n: nat, buf: seq<bv8>) returns (err: Status)
      requires Valid() && n < TWO64 && |buf| == BLOCK_SIZE
      modifies disk
      ensures Valid()
      ensures err == Ok <==> n < |old(Shown())|
      ensures err == Ok ==> Same(Shown(), old(Shown())[n := buf]) && disk.blocks[0] == old(disk.blocks[0])
      ensures err == Ok ==> OnDisk(config, n, buf, disk.blocks[n + 1])
      ensures err == Ok ==> disk.blocks == old(disk.blocks)[n + 1 := disk.blocks[n + 1]]
      ensures err != Ok ==> disk.blocks == old(disk.blocks)
    {
      if n >= blockCount {
        return InvalidArg;
      }
      var sealed := SealBlock(config, n, buf);
      Written(config, disk.blocks, n, buf, sealed);
      SealedOnDisk(config, n, buf, sealed);
      err := disk.Write(Add64(1, n), sealed);
    }

    // The last block number plus one is 0, so a request that starts there is
    // let through and begins at the header.
    method ReadBlocks(start: nat, count: nat) returns (err: Status, buf: seq<bv8>)
      requires Valid() && start < TWO64 && count < TWO64
      ensures err == Ok <==> Inside(start, count, |disk.blocks|) || ComesRound(start, count, |disk.blocks|)
      ensures Inside(start, count, |disk.blocks|) ==> Same(buf, Flatten(Shown()[start..start + count]))
      ensures ComesRound(start, count, |disk.blocks|) ==>
                Same(buf, Flatten(OpenAll(config.Open, start, disk.blocks[..count])))
      ensures err == Ok ==> |buf| == count * BLOCK_SIZE
      ensures err == Ok ==> forall j: nat :: j < count ==>
                FromDiskAt(config, disk.blocks, Add64(1, start), start, buf, j)
    {
      buf := [];
      if count == 0 {
        return InvalidArg, buf;
      }
      if Add64(start, count) > blockCount {
        Refused(start, count, |disk.blocks|);
        return InvalidArg, buf;
      }
      Requests(start, count, |disk.blocks|);
      err, buf := disk.ReadBlocks(Add64(1, start), count);
      if err != Ok {
        return;
      }
      AcceptedStretch(start, count, disk.blocks);
      ghost var raw;
      if Inside(start, count, |disk.blocks|) {
        raw := disk.blocks[start + 1..start + 1 + count];
        ViewRead(config.Open, disk.blocks, start, count);
      } else {
        raw := disk.blocks[..count];
      }
      buf := OpenBuffer(config, start, buf, raw);
      RawRead(config, disk.blocks, Add64(1, start), start, raw, buf);
    }

    // The size in bytes of the buffer for the sealed blocks is a 64-bit product.
    method WriteBlocks(start: nat, count: nat, buf: seq<bv8>) returns (err: Status)
      requires Valid() && start < TWO64 && count * BLOCK_SIZE < TWO64 && |buf| == count * BLOCK_SIZE
      modifies disk
      ensures Valid()
      ensures err == Ok <==> Inside(start, count, old(|disk.blocks|)) || ComesRound(start, count, old(|disk.blocks|))
      ensures AfterRequest(config, old(disk.blocks), disk.blocks, start, count, buf)
      ensures RawAfter(config, old(disk.blocks), disk.blocks, start, count, buf)
    {
      if count == 0 {
        return InvalidArg;
      }
      if Add64(start, count) > blockCount {
        Refused(start, count, |disk.blocks|);
        return InvalidArg;
      }
      Requests(start, count, |disk.blocks|);
      var sealed := SealBuffer(config, start, count, buf);
      err := PutSealed(start, count, buf, sealed);
    }

    // Hand sealed blocks to the device.
    method PutSealed(start: nat, count: nat, ghost buf: seq<bv8>, sealed: seq<bv8>) returns (err: Status)
      requires Valid() && start < TWO64 && 0 < count < TWO64 && |buf| == count * BLOCK_SIZE
      requires Same(sealed, Flatten(SealAll(config.Seal, start, Cut(buf, count, BLOCK_SIZE))))
      requires Moved(Add64(1, start), count, |disk.blocks|) == Landed(start, count, |disk.blocks|)
      modifies disk
      ensures Valid()
      ensures err == Ok <==> Add64(1, start) + count <= old(|disk.blocks|)
      ensures AfterRequest(config, old(disk.blocks), disk.blocks, start, count, buf)
      ensures RawAfter(config, old(disk.blocks), disk.blocks, start, count, buf)
    {
      ghost var before, m := disk.blocks, Landed(start, count, |disk.blocks|);
      LandedFits(start, count, |before|);
      CutSealedFirst(config, start, buf, count, sealed, m);
      ghost var cut := Cut(sealed, m, BLOCK_SIZE);
      WroteLanded(config, before, start, count, buf, cut);
      RawLanded(config, before, start, count, buf, cut);
      err := disk.WriteBlocks(Add64(1, start), count, sealed);
      assert Same(disk.blocks, Put(before, Add64(1, start), cut));
    }
  }
}
