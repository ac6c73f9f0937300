/** kernel/fs/block.c: bounds-checked single- and multi-block access to a device that is an array
    of blocks.  Positions are 64-bit words, so `start + count` may wrap around. */
module BlockDevice {
  import opened Bits
  import opened Values

  function Add64(a: nat, b: nat): nat {
    (a + b) % TWO64
  }

  // ---------------------------------------------------------------- bytes and blocks

  /** The i-th stretch of `size` bytes: the C expression buf + i * size. */
  function Slice<T>(buf: seq<T>, i: nat, size: nat): seq<T>
    requires (i + 1) * size <= |buf|
  {
    SliceBounds(i, size);
    buf[i * size..(i + 1) * size]
  }

  lemma SliceBounds(i: nat, size: nat)
    ensures 0 <= i * size <= (i + 1) * size == i * size + size
  {
  }

  /** Stretch i lies inside a buffer of n stretches. */
  lemma InBuffer(i: nat, n: nat, size: nat)
    requires i < n
    ensures (i + 1) * size <= n * size
  {
    MulMono(size, i + 1, n);
  }

  /** The first n blocks of a buffer. */
  ghost function Cut<T>(buf: seq<T>, n: nat, size: nat): (blocks: seq<seq<T>>)
    requires n * size <= |buf|
    ensures |blocks| == n && forall i :: 0 <= i < n ==> |blocks[i]| == size
  {
    seq(n, i requires 0 <= i < n => InBuffer(i, n, size); SliceBounds(i, size); Slice(buf, i, size))
  }

  lemma {:induction false} FlattenLength<T>(blocks: seq<seq<T>>, size: nat)
    requires forall i :: 0 <= i < |blocks| ==> |blocks[i]| == size
    ensures |Flatten(blocks)| == |blocks| * size
  {
    if blocks != [] {
      FlattenLength(blocks[1..], size);
      SliceBounds(|blocks| - 1, size);
    }
  }

  /** Block i of a flattened sequence of equal blocks. */
  lemma {:induction false} SliceOfFlatten<T>(blocks: seq<seq<T>>, i: nat, size: nat)
    requires i < |blocks| && forall j :: 0 <= j < |blocks| ==> |blocks[j]| == size
    ensures (i + 1) * size <= |Flatten(blocks)| && Slice(Flatten(blocks), i, size) == blocks[i]
  {
    FlattenLength(blocks, size);
    InBuffer(i, |blocks|, size);
    FlattenLength(blocks[..i], size);
    FlattenConcat(blocks[..i], blocks[i..]);
    assert blocks == blocks[..i] + blocks[i..];
    assert blocks[i..][0] == blocks[i];
    SliceBounds(i, size);
    assert Flatten(blocks) == Flatten(blocks[..i]) + (blocks[i] + Flatten(blocks[i..][1..]));
  }

  /** Cutting and flattening undo each other. */
  lemma {:induction false} FlattenCut<T>(buf: seq<T>, n: nat, size: nat)
    requires |buf| == n * size
    ensures Flatten(Cut(buf, n, size)) == buf
  {
    if n > 0 {
      var m := n - 1;
      SliceBounds(m, size);
      var front := buf[..m * size];
      FlattenCut(front, m, size);
      InBuffer(m, n, size);
      forall i | 0 <= i < m
        ensures Cut(buf, n, size)[i] == Cut(front, m, size)[i]
      {
        InBuffer(i, m, size);
        InBuffer(i, n, size);
        SliceBounds(i, size);
      }
      assert Cut(buf, n, size) == Cut(front, m, size) + [Slice(buf, m, size)];
      FlattenSnoc(Cut(front, m, size), Slice(buf, m, size));
    }
  }

  lemma CutFlatten<T>(blocks: seq<seq<T>>, size: nat)
    requires forall j :: 0 <= j < |blocks| ==> |blocks[j]| == size
    ensures |Flatten(blocks)| == |blocks| * size && Cut(Flatten(blocks), |blocks|, size) == blocks
  {
    FlattenLength(blocks, size);
    forall i | 0 <= i < |blocks|
      ensures Cut(Flatten(blocks), |blocks|, size)[i] == blocks[i]
    {
      SliceOfFlatten(blocks, i, size);
    }
  }

  /** The blocks `start..start+|new|` replaced. */
  function Replace<T>(blocks: seq<seq<T>>, start: nat, new_: seq<seq<T>>): seq<seq<T>>
    requires start + |new_| <= |blocks|
  {
    blocks[..start] + new_ + blocks[start + |new_|..]
  }

  lemma ReplaceNone<T>(blocks: seq<seq<T>>, start: nat)
    requires start <= |blocks|
    ensures Replace(blocks, start, []) == blocks
  {
  }

  lemma ReplaceSnoc<T>(blocks: seq<seq<T>>, start: nat, new_: seq<seq<T>>, b: seq<T>)
    requires start + |new_| < |blocks|
    ensures Replace(blocks, start, new_)[start + |new_| := b] == Replace(blocks, start, new_ + [b])
  {
  }

  // ---------------------------------------------------------------- the wrapping bounds check

  /** The request starts inside a device of n blocks, runs past the last block number, and its
      wrapped sum passes the check. */
  predicate Spills(start: nat, count: nat, n: nat) {
    0 < count && start < n && start + count >= TWO64 && start + count - TWO64 <= n
  }

  /** The blocks a request moves before it returns. */
  function Moved(start: nat, count: nat, n: nat): nat {
    if count > 0 && start + count <= n then count
    else if Spills(start, count, n) then n - start
    else 0
  }

  /** A request that passes the check moves blocks from its start on, up to the first number
      outside the device; it moves all of them exactly when it lies inside. */
  lemma PassedCheck(start: nat, count: nat, n: nat)
    requires start < TWO64 && 0 < count < TWO64 && n < TWO64 && Add64(start, count) <= n
    ensures var m := Moved(start, count, n);
            m <= count && (m > 0 ==> start + m <= n) && (m == count <==> start + count <= n)
    ensures forall i :: 0 <= i <= Moved(start, count, n) && i < count ==>
              (Add64(start, i) < n <==> i < Moved(start, count, n)) && (start < n ==> Add64(start, i) == start + i)
  {
  }

  /** A request that fails the check moves nothing. */
  lemma FailedCheck(start: nat, count: nat, n: nat)
    requires start < TWO64 && 0 < count < TWO64 && n < TWO64 && Add64(start, count) > n
    ensures Moved(start, count, n) == 0 && start + count > n
  {
  }

  /** The bytes of m blocks from start on; none when m is 0, wherever start is. */
  function Stretch<T>(blocks: seq<seq<T>>, start: nat, m: nat): seq<T>
    requires m > 0 ==> start + m <= |blocks|
  {
    if m == 0 then [] else Flatten(blocks[start..start + m])
  }

  lemma StretchNext<T>(blocks: seq<seq<T>>, start: nat, i: nat)
    requires start + i < |blocks|
    ensures Same(Stretch(blocks, start, i) + blocks[start + i], Stretch(blocks, start, i + 1))
  {
    if i == 0 {
      assert blocks[start..start] == [];
    }
    FlattenSnoc(blocks[start..start + i], blocks[start + i]);
    assert blocks[start..start + i + 1] == blocks[start..start + i] + [blocks[start + i]];
  }

  /** The device once blocks were put from start on; itself when none were, wherever start is. */
  function Put<T>(blocks: seq<seq<T>>, start: nat, new_: seq<seq<T>>): (after: seq<seq<T>>)
    requires new_ != [] ==> start + |new_| <= |blocks|
    ensures |after| == |blocks|
  {
    if new_ == [] then blocks else Replace(blocks, start, new_)
  }

  lemma PutNext<T>(blocks: seq<seq<T>>, start: nat, cut: seq<seq<T>>, i: nat)
    requires i < |cut| && start + |cut| <= |blocks|
    ensures Same(Put(blocks, start, cut[..i])[start + i := cut[i]], Put(blocks, start, cut[..i + 1]))
  {
    if i == 0 {
      ReplaceNone(blocks, start);
    }
    ReplaceSnoc(blocks, start, cut[..i], cut[i]);
    assert cut[..i + 1] == cut[..i] + [cut[i]];
  }

  /** A write that must fail leaves the device alone, whatever it writes. */
  ghost predicate FailsCleanly<T(!new)>(blocks: seq<seq<T>>, start: nat, count: nat, size: nat) {
    forall new_ :: |new_| == Moved(start, count, |blocks|) && (forall i :: 0 <= i < |new_| ==> |new_[i]| == size)
      ==> Put(blocks, start, new_) == blocks
  }

  /** A failed write changes nothing exactly when the sum of start and count does not wrap back
      into the check from a start inside the device; a and b are two values a byte can have. */
  lemma FailsCleanlyIff<T(!new)>(blocks: seq<seq<T>>, start: nat, count: nat, size: nat, a: T, b: T)
    requires size > 0 && a != b && !(count > 0 && start + count <= |blocks|)
    requires forall i :: 0 <= i < |blocks| ==> |blocks[i]| == size
    ensures FailsCleanly(blocks, start, count, size) <==> !Spills(start, count, |blocks|)
  {
    if Spills(start, count, |blocks|) {
      var other := if blocks[start][0] == a then b else a;
      var new_ := seq(|blocks| - start, i => seq(size, j => other));
      assert Put(blocks, start, new_)[start][0] == other;
    }
  }

  /** Start 5 and count 2^64 - 3 on ten blocks: the check sees 2, five blocks are overwritten and
      the call fails. */
  lemma SpillExample<T>(blocks: seq<seq<T>>, new_: seq<seq<T>>)
    requires |blocks| == 10 && |new_| == 5
    ensures Add64(5, TWO64 - 3) == 2 && Spills(5, TWO64 - 3, 10)
    ensures Put(blocks, 5, new_) == blocks[..5] + new_
  {
  }

  // ---------------------------------------------------------------- the device

  /** A device with no multi-block operations of its own: block.c goes block by block. */
  class Disk<T> {
    var blocks: seq<seq<T>>
    const blockSize: nat

    ghost predicate Valid()
      reads this
    {
      blockSize > 0 && |blocks| < TWO64 && forall i :: 0 <= i < |blocks| ==> |blocks[i]| == blockSize
    }

    constructor (blocks: seq<seq<T>>, blockSize: nat)
      requires blockSize > 0 && |blocks| < TWO64 && forall i :: 0 <= i < |blocks| ==> |blocks[i]| == blockSize
      ensures Valid() && this.blocks == blocks && this.blockSize == blockSize
    {
      this.blocks := blocks;
      this.blockSize := blockSize;
    }

    method Read(n: nat) returns (err: Status, buf: seq<T>)
      requires Valid()
      ensures if n < |blocks| then err == Ok && buf == blocks[n] else err == InvalidArg && buf == []
    {
      if n >= |blocks| {
        return InvalidArg, [];
      }
      return Ok, blocks[n];
    }

    method Write(n: nat, buf: seq<T>) returns (err: Status)
      requires Valid() && |buf| == blockSize
      modifies this
      ensures Valid()
      ensures if n < old(|blocks|) then err == Ok && blocks == old(blocks)[n := buf]
              else err == InvalidArg && blocks == old(blocks)
    {
      if n >= |blocks| {
        return InvalidArg;
      }
      blocks := blocks[n := buf];
      return Ok;
    }

    method ReadBlocks(start: nat, count: nat) returns (err: Status, buf: seq<T>)
      requires Valid() && start < TWO64 && count < TWO64
      ensures err == Ok <==> count > 0 && start + count <= |blocks|
      ensures Same(buf, Stretch(blocks, start, Moved(start, count, |blocks|)))
    {
      buf := [];
      if count == 0 {
        return InvalidArg, buf;
      }
      if Add64(start, count) > |blocks| {
        FailedCheck(start, count, |blocks|);
        return InvalidArg, buf;
      }
      PassedCheck(start, count, |blocks|);
      for i := 0 to count
        invariant i <= Moved(start, count, |blocks|)
        invariant Same(buf, Stretch(blocks, start, i))
      {
        var b;
        err, b := Read(Add64(start, i));
        if err != Ok {
          return;
        }
        StretchNext(blocks, start, i);
        buf := buf + b;
      }
      err := Ok;
    }

    /** block_device_write tests the block number before it touches the buffer. */
    method WriteBlocks(start: nat, count: nat, buf: seq<T>) returns (err: Status)
      requires Valid() && start < TWO64 && count < TWO64 && Moved(start, count, |blocks|) * blockSize <= |buf|
      modifies this
      ensures Valid()
      ensures err == Ok <==> count > 0 && start + count <= old(|blocks|)
      ensures Same(blocks, Put(old(blocks), start, Cut(buf, Moved(start, count, old(|blocks|)), blockSize)))
    {
      if count == 0 {
        return InvalidArg;
      }
      if Add64(start, count) > |blocks| {
        FailedCheck(start, count, |blocks|);
        return InvalidArg;
      }
      PassedCheck(start, count, |blocks|);
      ghost var m := Moved(start, count, |blocks|);
      ghost var cut := Cut(buf, m, blockSize);
      for i := 0 to count
        invariant Valid() && i <= m && Same(blocks, Put(old(blocks), start, cut[..i]))
      {
        if Add64(start, i) >= |blocks| {
          assert cut[..i] == cut;
          return InvalidArg;
        }
        InBuffer(i, m, blockSize);
        SliceBounds(i, blockSize);
        PutNext(old(blocks), start, cut, i);
        err := Write(Add64(start, i), Slice(buf, i, blockSize));
      }
      assert cut[..count] == cut;
      err := Ok;
    }
  }
}
