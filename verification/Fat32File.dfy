/** kernel/fs/fat32_file.c: an open file with a one-cluster write-back buffer.  Seeks, reads and
    in-place writes behave as slices of one byte array: the clusters on disk overlaid by the
    buffer. */
module Fat32File {
  import opened Values
  import opened Bits
  import opened BlockDevice
  import opened Fat32Table
  import opened Fat32

  datatype Buffer = NoBuffer | Buffer(data: seq<Byte>)
  datatype Result = Done | Denied | BadArg

  // ---------------------------------------------------------------- bytes of a list of clusters

  /** What the file sees of cluster c: the buffer when it is loaded, else the disk. */
  ghost function Seen(g: Geometry, blocks: seq<seq<Byte>>, current: nat, buffer: Buffer, c: nat): (r: seq<Byte>)
    requires DiskOk(g, blocks) && InRange(g, c)
    requires buffer.Buffer? ==> |buffer.data| == g.bytesPerCluster
    ensures |r| == g.bytesPerCluster
  {
    if buffer.Buffer? && c == current then buffer.data else ClusterData(g, blocks, c)
  }

  ghost predicate AllInRange(g: Geometry, chain: seq<nat>) {
    forall i :: 0 <= i < |chain| ==> InRange(g, chain[i])
  }

  ghost function SeenAll(g: Geometry, blocks: seq<seq<Byte>>, current: nat, buffer: Buffer,
                         chain: seq<nat>): (r: seq<seq<Byte>>)
    requires DiskOk(g, blocks) && AllInRange(g, chain)
    requires buffer.Buffer? ==> |buffer.data| == g.bytesPerCluster
  {
    if chain == [] then []
    else [Seen(g, blocks, current, buffer, chain[0])] + SeenAll(g, blocks, current, buffer, chain[1..])
  }

  lemma {:induction false} SeenShape(g: Geometry, blocks: seq<seq<Byte>>, current: nat, buffer: Buffer, chain: seq<nat>)
    requires DiskOk(g, blocks) && AllInRange(g, chain)
    requires buffer.Buffer? ==> |buffer.data| == g.bytesPerCluster
    ensures var r := SeenAll(g, blocks, current, buffer, chain);
            |r| == |chain|
            && forall i :: 0 <= i < |r| ==>
                 |r[i]| == g.bytesPerCluster && r[i] == Seen(g, blocks, current, buffer, chain[i])
  {
    if chain != [] {
      SeenShape(g, blocks, current, buffer, chain[1..]);
    }
  }

  lemma FlattenAround<T>(blocks: seq<seq<T>>, i: nat)
    requires i < |blocks|
    ensures Flatten(blocks) == Flatten(blocks[..i]) + (blocks[i] + Flatten(blocks[i + 1..]))
  {
    assert blocks[..i] + blocks[i..] == blocks;
    FlattenConcat(blocks[..i], blocks[i..]);
    assert blocks[i..][0] == blocks[i] && blocks[i..][1..] == blocks[i + 1..];
  }

  /** Offset off of block i sits at i * size + off of the flat sequence. */
  lemma StretchAt<T>(blocks: seq<seq<T>>, size: nat, i: nat, off: nat, n: nat)
    requires i < |blocks| && off + n <= size
    requires forall j :: 0 <= j < |blocks| ==> |blocks[j]| == size
    ensures i * size + off + n <= |Flatten(blocks)|
    ensures Flatten(blocks)[i * size + off..i * size + off + n] == blocks[i][off..off + n]
  {
    var front, back := Flatten(blocks[..i]), Flatten(blocks[i + 1..]);
    FlattenAround(blocks, i);
    FlattenLength(blocks[..i], size);
    assert |front| == i * size;
    StretchMiddle(front, blocks[i], back, off, n);
  }

  lemma StretchMiddle<T>(front: seq<T>, mid: seq<T>, back: seq<T>, off: nat, n: nat)
    requires off + n <= |mid|
    ensures (front + (mid + back))[|front| + off..|front| + off + n] == mid[off..off + n]
  {
  }

  lemma PatchMiddle<T>(front: seq<T>, mid: seq<T>, back: seq<T>, off: nat, data: seq<T>)
    requires off + |data| <= |mid|
    ensures Patch(front + (mid + back), |front| + off, data) == front + (Patch(mid, off, data) + back)
  {
  }

  /** Overwriting a stretch of block i is overwriting it in the flat sequence. */
  lemma PatchAt<T>(blocks: seq<seq<T>>, size: nat, i: nat, off: nat, data: seq<T>)
    requires i < |blocks| && off + |data| <= size
    requires forall j :: 0 <= j < |blocks| ==> |blocks[j]| == size
    ensures i * size + off + |data| <= |Flatten(blocks)|
    ensures Flatten(blocks[i := Patch(blocks[i], off, data)]) == Patch(Flatten(blocks), i * size + off, data)
  {
    var front, back := Flatten(blocks[..i]), Flatten(blocks[i + 1..]);
    FlattenAround(blocks, i);
    FlattenSet(blocks, i, Patch(blocks[i], off, data));
    FlattenLength(blocks[..i], size);
    PatchMiddle(front, blocks[i], back, off, data);
  }

  lemma FlattenSet<T>(blocks: seq<seq<T>>, i: nat, b: seq<T>)
    requires i < |blocks|
    ensures Flatten(blocks[i := b]) == Flatten(blocks[..i]) + (b + Flatten(blocks[i + 1..]))
  {
    FlattenAround(blocks[i := b], i);
    assert blocks[i := b][..i] == blocks[..i] && blocks[i := b][i + 1..] == blocks[i + 1..];
  }

  lemma IndexInside(p: nat, size: nat, n: nat)
    requires size > 0 && p < Times(n, size)
    ensures 0 <= p / size < n && p == p / size * size + p % size
  {
    TimesIs(n, size);
    DivNonnegative(p, size);
    if p / size >= n {
      MulMono(size, n, p / size);
      assert false;
    }
  }

  /** memcpy(s + at, data, |data|) */
  function Patch<T>(s: seq<T>, at: nat, data: seq<T>): (r: seq<T>)
    requires at + |data| <= |s|
    ensures |r| == |s|
  {
    s[..at] + data + s[at + |data|..]
  }

  /** Writing the first n bytes and then the rest is writing all. */
  lemma PatchSplit<T>(s: seq<T>, at: nat, src: seq<T>, n: nat)
    requires at + |src| <= |s| && n <= |src|
    ensures Same(Patch(Patch(s, at, src[..n]), at + n, src[n..]), Patch(s, at, src))
  {
    assert Patch(Patch(s, at, src[..n]), at + n, src[n..]) == Patch(s, at, src);
  }

  lemma PatchNone<T>(s: seq<T>, at: nat)
    requires at <= |s|
    ensures Patch(s, at, []) == s
  {
  }

  lemma PatchPrefix<T>(s: seq<T>, n: nat, at: nat, data: seq<T>)
    requires at + |data| <= n <= |s|
    ensures Patch(s, at, data)[..n] == Patch(s[..n], at, data)
  {
  }

  /** A stretch read up to m and then to the end is the whole stretch. */
  lemma StretchSplit<T>(out: seq<T>, s: seq<T>, a: nat, m: nat, c: nat)
    requires a <= m <= c <= |s|
    ensures Same((out + s[a..m]) + s[m..c], out + s[a..c])
  {
    assert (out + s[a..m]) + s[m..c] == out + s[a..c];
  }

  lemma StretchPrefix<T>(s: seq<T>, n: nat, a: nat, b: nat)
    requires a <= b <= n <= |s|
    ensures s[..n][a..b] == s[a..b]
  {
  }

  // ---------------------------------------------------------------- the chain of a file

  /** The clusters of the file in order: linked in the table, no cluster twice. */
  ghost predicate IsChain(g: Geometry, fat: seq<nat>, first: nat, chain: seq<nat>) {
    && |fat| == g.totalClusters + 2 && AllInRange(g, chain)
    && (chain != [] ==> chain[0] == first)
    && (forall i {:trigger fat[chain[i]]} :: 0 <= i < |chain| - 1 ==> Link(fat[chain[i]]) == chain[i + 1])
    && (forall i, j :: 0 <= i < j < |chain| ==> chain[i] != chain[j])
  }

  /** Replacing the buffer's bytes replaces one block of what is seen. */
  lemma SeenPatched(g: Geometry, blocks: seq<seq<Byte>>, chain: seq<nat>, i: nat, buffer: Buffer, data: seq<Byte>)
    requires DiskOk(g, blocks) && AllInRange(g, chain) && i < |chain|
    requires forall a, b :: 0 <= a < b < |chain| ==> chain[a] != chain[b]
    requires buffer.Buffer? && |buffer.data| == |data| == g.bytesPerCluster
    ensures |SeenAll(g, blocks, chain[i], buffer, chain)| == |chain|
    ensures SeenAll(g, blocks, chain[i], Buffer(data), chain) == SeenAll(g, blocks, chain[i], buffer, chain)[i := data]
  {
    SeenShape(g, blocks, chain[i], buffer, chain);
    SeenShape(g, blocks, chain[i], Buffer(data), chain);
  }

  /** Writing the buffer to its cluster changes nothing that is seen, and the disk now agrees. */
  lemma SeenFlushed(g: Geometry, blocks: seq<seq<Byte>>, chain: seq<nat>, current: nat, buffer: Buffer)
    requires DiskOk(g, blocks) && AllInRange(g, chain) && InRange(g, current)
    requires buffer.Buffer? && |buffer.data| == g.bytesPerCluster
    ensures SeenAll(g, WithCluster(g, blocks, current, buffer.data), current, buffer, chain)
         == SeenAll(g, blocks, current, buffer, chain)
    ensures ClusterData(g, WithCluster(g, blocks, current, buffer.data), current) == buffer.data
  {
    ClusterWritten(g, blocks, current, buffer.data);
    SeenShape(g, blocks, current, buffer, chain);
    SeenShape(g, WithCluster(g, blocks, current, buffer.data), current, buffer, chain);
  }

  /** A clean buffer shows what the disk shows, so it can be dropped or exchanged. */
  lemma SeenClean(g: Geometry, blocks: seq<seq<Byte>>, chain: seq<nat>, current: nat, buffer: Buffer, current': nat,
                  buffer': Buffer)
    requires DiskOk(g, blocks) && AllInRange(g, chain)
    requires buffer.Buffer? ==> InRange(g, current) && buffer.data == ClusterData(g, blocks, current)
    requires buffer'.Buffer? ==> InRange(g, current') && buffer'.data == ClusterData(g, blocks, current')
    ensures SeenAll(g, blocks, current, buffer, chain) == SeenAll(g, blocks, current', buffer', chain)
  {
    SeenShape(g, blocks, current, buffer, chain);
    SeenShape(g, blocks, current', buffer', chain);
  }

  // ---------------------------------------------------------------- one file as values

  /** The first `size` bytes seen. */
  ghost function ViewOf(g: Geometry, blocks: seq<seq<Byte>>, current: nat, buffer: Buffer, chain: seq<nat>,
                        size: nat): (r: seq<Byte>)
    requires DiskOk(g, blocks) && AllInRange(g, chain) && size <= Times(|chain|, g.bytesPerCluster)
    requires buffer.Buffer? ==> |buffer.data| == g.bytesPerCluster
    ensures |r| == size
  {
    SeenFlat(g, blocks, current, buffer, chain);
    Flatten(SeenAll(g, blocks, current, buffer, chain))[..size]
  }

  lemma SeenFlat(g: Geometry, blocks: seq<seq<Byte>>, current: nat, buffer: Buffer, chain: seq<nat>)
    requires DiskOk(g, blocks) && AllInRange(g, chain)
    requires buffer.Buffer? ==> |buffer.data| == g.bytesPerCluster
    ensures |Flatten(SeenAll(g, blocks, current, buffer, chain))| == Times(|chain|, g.bytesPerCluster)
  {
    SeenShape(g, blocks, current, buffer, chain);
    FlattenLength(SeenAll(g, blocks, current, buffer, chain), g.bytesPerCluster);
    TimesIs(|chain|, g.bytesPerCluster);
  }

  /** The buffer is absent, or holds the bytes of one cluster; a clean one agrees with the disk. */
  ghost predicate BufferOk(g: Geometry, blocks: seq<seq<Byte>>, current: nat, buffer: Buffer, dirty: bool)
    requires DiskOk(g, blocks)
  {
    match buffer
    case NoBuffer => !dirty && current == 0
    case Buffer(data) =>
      |data| == g.bytesPerCluster && InRange(g, current) && (!dirty ==> data == ClusterData(g, blocks, current))
  }

  /** Disk clusters overlaid by the buffer show exactly `content`. */
  ghost predicate Shows(g: Geometry, blocks: seq<seq<Byte>>, chain: seq<nat>, current: nat, buffer: Buffer,
                        dirty: bool, content: seq<Byte>) {
    && DiskOk(g, blocks) && AllInRange(g, chain) && |content| <= Times(|chain|, g.bytesPerCluster)
    && BufferOk(g, blocks, current, buffer, dirty)
    && Same(content, ViewOf(g, blocks, current, buffer, chain, |content|))
  }

  /** Position p is offset `off` of the i-th cluster of the chain. */
  ghost predicate Lies(g: Geometry, chain: seq<nat>, p: nat, i: nat, off: nat) {
    i < |chain| && off < g.bytesPerCluster && p == Times(i, g.bytesPerCluster) + off
  }

  lemma ShowsFlush(g: Geometry, blocks: seq<seq<Byte>>, chain: seq<nat>, current: nat, buffer: Buffer,
                   content: seq<Byte>)
    requires Shows(g, blocks, chain, current, buffer, true, content)
    ensures Shows(g, WithCluster(g, blocks, current, buffer.data), chain, current, buffer, false, content)
  {
    SeenFlushed(g, blocks, chain, current, buffer);
  }

  lemma ShowsLoad(g: Geometry, blocks: seq<seq<Byte>>, chain: seq<nat>, current: nat, buffer: Buffer,
                  content: seq<Byte>, cluster: nat)
    requires Shows(g, blocks, chain, current, buffer, false, content) && InRange(g, cluster)
    ensures Shows(g, blocks, chain, cluster, Buffer(ClusterData(g, blocks, cluster)), false, content)
  {
    SeenClean(g, blocks, chain, current, buffer, cluster, Buffer(ClusterData(g, blocks, cluster)));
  }

  lemma ShowsDrop(g: Geometry, blocks: seq<seq<Byte>>, chain: seq<nat>, current: nat, buffer: Buffer,
                  content: seq<Byte>)
    requires Shows(g, blocks, chain, current, buffer, false, content)
    ensures Shows(g, blocks, chain, 0, NoBuffer, false, content)
  {
    SeenClean(g, blocks, chain, current, buffer, 0, NoBuffer);
  }

  /** The buffered bytes are the content's. */
  lemma ShowsStretch(g: Geometry, blocks: seq<seq<Byte>>, chain: seq<nat>, i: nat, buffer: Buffer, dirty: bool,
                     content: seq<Byte>, p: nat, off: nat, n: nat)
    requires i < |chain| && buffer.Buffer? && Shows(g, blocks, chain, chain[i], buffer, dirty, content)
    requires Lies(g, chain, p, i, off) && off + n <= g.bytesPerCluster && p + n <= |content|
    ensures Same(content[p..p + n], buffer.data[off..off + n])
  {
    var len := g.bytesPerCluster;
    var bs := SeenAll(g, blocks, chain[i], buffer, chain);
    SeenShape(g, blocks, chain[i], buffer, chain);
    SeenFlat(g, blocks, chain[i], buffer, chain);
    TimesIs(i, len);
    StretchAt(bs, len, i, off, n);
    StretchPrefix(Flatten(bs), |content|, p, p + n);
  }

  /** Patching the buffer patches the content. */
  lemma ShowsPatch(g: Geometry, blocks: seq<seq<Byte>>, chain: seq<nat>, i: nat, buffer: Buffer, dirty: bool,
                   content: seq<Byte>, p: nat, off: nat, piece: seq<Byte>)
    requires i < |chain| && buffer.Buffer? && Shows(g, blocks, chain, chain[i], buffer, dirty, content)
    requires forall a, b :: 0 <= a < b < |chain| ==> chain[a] != chain[b]
    requires Lies(g, chain, p, i, off) && off + |piece| <= g.bytesPerCluster && p + |piece| <= |content|
    ensures Shows(g, blocks, chain, chain[i], Buffer(Patch(buffer.data, off, piece)), true, Patch(content, p, piece))
  {
    var len := g.bytesPerCluster;
    var bs := SeenAll(g, blocks, chain[i], buffer, chain);
    SeenShape(g, blocks, chain[i], buffer, chain);
    SeenPatched(g, blocks, chain, i, buffer, Patch(buffer.data, off, piece));
    SeenFlat(g, blocks, chain[i], buffer, chain);
    TimesIs(i, len);
    PatchAt(bs, len, i, off, piece);
    PatchPrefix(Flatten(bs), |content|, p, piece);
  }

  // ---------------------------------------------------------------- the open file

  class File {
    const vol: Volume
    const firstCluster: nat
    const readOnly: bool
    var currentCluster: nat
    var position: nat
    var size: nat
    var buffer: Buffer
    var dirty: bool
    ghost const fat: seq<nat>      // the table does not change while the file is read and overwritten
    ghost const chain: seq<nat>
    ghost var content: seq<Byte>   // the file as one byte array

    ghost predicate Valid()
      reads this, vol, vol.device
    {
      && vol.Valid() && Same(vol.Table(), fat) && IsChain(vol.g, fat, firstCluster, chain)
      && position <= size == |content| < TWO32
      && Shows(vol.g, vol.device.blocks, chain, currentCluster, buffer, dirty, content)
    }

    /** What is on the disk, without the buffer. */
    ghost function OnDisk(): (r: seq<Byte>)
      reads this, vol, vol.device
      requires Valid()
    {
      ViewOf(vol.g, vol.device.blocks, 0, NoBuffer, chain, size)
    }

    constructor (vol: Volume, firstCluster: nat, size: nat, readOnly: bool, ghost chain: seq<nat>)
      requires vol.Valid() && IsChain(vol.g, vol.Table(), firstCluster, chain)
      requires size <= Times(|chain|, vol.g.bytesPerCluster) && size < TWO32
      ensures Valid() && this.vol == vol && this.size == size && this.chain == chain && position == 0
      ensures content == OnDisk()
    {
      this.vol, this.firstCluster, this.readOnly, this.chain := vol, firstCluster, readOnly, chain;
      this.currentCluster, this.position, this.size := 0, 0, size;
      this.buffer, this.dirty := NoBuffer, false;
      this.fat := vol.Table();
      this.content := ViewOf(vol.g, vol.device.blocks, 0, NoBuffer, chain, size);
    }

    /** Write the buffer back if it is dirty. */
    method Flush()
      requires Valid()
      modifies this`dirty, vol.device
      ensures Valid() && !dirty
    {
      if dirty && buffer.Buffer? && currentCluster >= 2 {
        ShowsFlush(vol.g, vol.device.blocks, chain, currentCluster, buffer, content);
        var err := vol.WriteCluster(currentCluster, buffer.data);
        dirty := false;
      }
    }

    method LoadCluster(cluster: nat)
      requires Valid() && InRange(vol.g, cluster)
      modifies this`dirty, this`buffer, this`currentCluster, vol.device
      ensures Valid() && currentCluster == cluster && buffer.Buffer?
    {
      Flush();
      var err, data := vol.ReadCluster(cluster);
      ShowsLoad(vol.g, vol.device.blocks, chain, currentCluster, buffer, content, cluster);
      buffer := Buffer(data);
      currentCluster := cluster;
    }

    /** The cluster that holds a position: a walk along the chain. */
    method ClusterForPosition(p: nat) returns (cluster: nat, ghost i: nat, ghost off: nat)
      requires Valid()
      modifies vol
      ensures Valid() && vol.device.blocks == old(vol.device.blocks)
      ensures p >= size ==> cluster == 0
      ensures p < size ==> Lies(vol.g, chain, p, i, off) && cluster == chain[i]
    {
      if p >= size {
        return 0, 0, 0;
      }
      ClusterNotEmpty(vol.g);
      var steps := p / vol.g.bytesPerCluster;
      i, off := ChainIndex(vol.g, chain, p);
      cluster := firstCluster;
      for k := 0 to steps
        invariant Valid() && vol.device.blocks == old(vol.device.blocks)
        invariant cluster == chain[k]
      {
        cluster := vol.GetNextCluster(cluster);
        if cluster >= CLUSTER_EOF_MIN {
          assert false;  // the chain covers the size
        }
      }
    }

    /** The buffer holds the cluster of the position, which is at `off` in it. */
    ghost predicate Seated(i: nat, off: nat)
      reads this
    {
      position < size && buffer.Buffer? && Lies(vol.g, chain, position, i, off) && currentCluster == chain[i]
    }

    /** Make the cluster of the current position the buffered one. */
    method Seat() returns (off: nat, ghost i: nat)
      requires Valid() && position < size
      modifies this`dirty, this`buffer, this`currentCluster, vol, vol.device
      ensures Valid() && Seated(i, off)
    {
      var cluster;
      ghost var o;
      cluster, i, o := ClusterForPosition(position);
      if currentCluster != cluster {
        LoadCluster(cluster);
      }
      OffsetIs(position, vol.g.bytesPerCluster, i, o);
      off := position % vol.g.bytesPerCluster;
    }

    /** The buffered bytes from the position on are the content's. */
    lemma Buffered(i: nat, off: nat, n: nat)
      requires Valid() && Seated(i, off) && off + n <= vol.g.bytesPerCluster && position + n <= size
      ensures off + n <= |buffer.data| && |buffer.data[off..off + n]| == n
      ensures Same(buffer.data[off..off + n], content[position..position + n])
    {
      ShowsStretch(vol.g, vol.device.blocks, chain, i, buffer, dirty, content, position, off, n);
    }

    /** The bytes from the position to the end of its cluster, or as many as asked for. */
    method Peek(toRead: nat) returns (piece: seq<Byte>)
      requires Valid() && toRead > 0 && position + toRead <= size
      modifies this`dirty, this`buffer, this`currentCluster, vol, vol.device
      ensures Valid() && 0 < |piece| <= toRead && Same(piece, content[position..position + |piece|])
    {
      var off, i := Seat();
      var n := Min(toRead, vol.g.bytesPerCluster - off);
      Buffered(i, off, n);
      piece := buffer.data[off..off + n];
    }

    /** One pass of the read loop: the rest of the current cluster, or less. */
    method ReadPiece(toRead: nat) returns (piece: seq<Byte>)
      requires Valid() && toRead > 0 && position + toRead <= size
      modifies this`dirty, this`buffer, this`currentCluster, this`position, vol, vol.device
      ensures Valid() && position == old(position) + |piece| && 0 < |piece| <= toRead
      ensures Same(piece, content[old(position)..position])
    {
      piece := Peek(toRead);
      position := position + |piece|;
    }

    /** One pass of the write loop. */
    method WritePiece(src: seq<Byte>) returns (n: nat)
      requires Valid() && src != [] && position + |src| <= size
      modifies this`dirty, this`buffer, this`currentCluster, this`position, this`content, vol, vol.device
      ensures 0 < n <= |src| && Valid() && position == old(position) + n
      ensures content == Patch(old(content), old(position), src[..n])
    {
      var off, i := Seat();
      n := Min(|src|, vol.g.bytesPerCluster - off);
      ShowsPatch(vol.g, vol.device.blocks, chain, i, buffer, dirty, content, position, off, src[..n]);
      buffer := Buffer(Patch(buffer.data, off, src[..n]));
      dirty := true;
      content := Patch(content, position, src[..n]);
      position := position + n;
    }

    /** A read returns the slice of the content at the position, cut at the end of the file. */
    method Read(count: nat) returns (out: seq<Byte>)
      requires Valid()
      modifies this`dirty, this`buffer, this`currentCluster, this`position, vol, vol.device
      ensures Valid()
      ensures position == old(position) + |out| && |out| == Min(count, size - old(position))
      ensures out == content[old(position)..position]
    {
      out := [];
      if position >= size {
        return;
      }
      var toRead: nat := Min(count, size - position);
      ghost var end := position + toRead;
      assert out + content[position..end] == content[position..end];
      while toRead > 0
        invariant Valid() && position + toRead == end <= size
        invariant Same(out + content[position..end], content[old(position)..end])
      {
        ghost var at := position;
        var piece := ReadPiece(toRead);
        StretchSplit(out, content, at, position, end);
        out := out + piece;
        toRead := toRead - |piece|;
      }
      assert out + content[end..end] == out;
    }

    /** An in-place write replaces the slice of the content at the position. */
    method Write(data: seq<Byte>) returns (res: Result, written: nat)
      requires Valid() && position + |data| <= size
      modifies this`dirty, this`buffer, this`currentCluster, this`position, this`content, vol, vol.device
      ensures Valid()
      ensures readOnly ==> res == Denied && content == old(content) && position == old(position)
      ensures !readOnly ==> res == Done && written == |data| && position == old(position) + |data|
      ensures !readOnly ==> content == Patch(old(content), old(position), data)
    {
      if readOnly {
        return Denied, 0;
      }
      written := 0;
      var src := data;
      while src != []
        invariant Valid() && position == old(position) + written && written + |src| == |data|
        invariant Same(Patch(content, position, src), Patch(old(content), old(position), data))
      {
        ghost var before, at := content, position;
        var n := WritePiece(src);
        PatchSplit(before, at, src, n);
        src := src[n..];
        written := written + n;
      }
      PatchNone(content, position);
      res := Done;
    }

    /** fat32_file_seek: 64-bit arithmetic, then clamped to the size. */
    method Seek(offset: int, whence: int) returns (res: Result)
      requires Valid() && -TWO63 <= offset < TWO63
      modifies this`position
      ensures Valid()
      ensures whence !in {0, 1, 2} ==> res == BadArg && position == old(position)
      ensures whence in {0, 1, 2} ==> res == Done && position == SeekTarget(old(position), size, offset, whence)
      ensures whence == 0 && 0 <= offset <= size ==> position == offset
      ensures whence == 1 && 0 <= old(position) + offset <= size ==> position - old(position) == offset
      ensures whence == 2 && 0 <= -offset <= size ==> size - position == -offset
    {
      if whence != 0 && whence != 1 && whence != 2 {
        return BadArg;
      }
      var base := if whence == 0 then 0 else if whence == 1 then position else size;
      var newPosition := (base + offset) % TWO64;
      SeekWraps(base, size, offset);
      if newPosition > size {
        newPosition := size;
      }
      position := newPosition;
      res := Done;
    }

    /** Closing writes the buffer back: the disk then holds exactly the content. */
    method Close()
      requires Valid()
      modifies this`dirty, this`buffer, this`currentCluster, vol.device
      ensures Valid() && OnDisk() == content
    {
      Flush();
      ShowsDrop(vol.g, vol.device.blocks, chain, currentCluster, buffer, content);
      buffer := NoBuffer;
      currentCluster := 0;
    }
  }

  /** Where a seek lands: the target when it is inside the file, otherwise (also when it lies before
      the beginning) the end. */
  function SeekTarget(position: nat, size: nat, offset: int, whence: int): nat {
    var t := (if whence == 0 then 0 else if whence == 1 then position else size) + offset;
    if 0 <= t <= size then t else size
  }

  /** Five bytes back from position 3 of a file of ten bytes: the end, not the beginning. */
  lemma SeekExample()
    ensures SeekTarget(3, 10, -5, 1) == 10
  {
  }

  lemma SeekWraps(base: nat, size: nat, offset: int)
    requires base <= size < TWO32 && -TWO63 <= offset < TWO63
    ensures var t := base + offset;
            if t >= 0 then t % TWO64 == t else t % TWO64 == t + TWO64 > size
  {
  }

  lemma ChainIndex(g: Geometry, chain: seq<nat>, p: nat) returns (i: nat, off: nat)
    requires p < Times(|chain|, g.bytesPerCluster) && g.bytesPerCluster > 0
    ensures Lies(g, chain, p, i, off) && i == p / g.bytesPerCluster
  {
    IndexInside(p, g.bytesPerCluster, |chain|);
    i, off := p / g.bytesPerCluster, p % g.bytesPerCluster;
    TimesIs(i, g.bytesPerCluster);
  }

  lemma OffsetIs(p: nat, len: nat, i: nat, off: nat)
    requires off < len && p == Times(i, len) + off
    ensures p % len == off
  {
    TimesIs(i, len);
    DivUnique(p, len, i, off);
  }

  lemma ClusterNotEmpty(g: Geometry)
    ensures g.bytesPerCluster > 0
  {
    TimesIs(g.sectorsPerCluster, g.bytesPerSector);
    MulMono(g.sectorsPerCluster, 1, g.bytesPerSector);
  }

  // ---------------------------------------------------------------- whole runs

  datatype Op = DoSeek(offset: int, whence: int) | DoRead(count: nat) | DoWrite(data: seq<Byte>)

  /** A byte array with a position. */
  datatype Model = Model(content: seq<Byte>, position: nat)

  predicate Fits(m: Model, op: Op) {
    match op
    case DoSeek(offset, _) => -TWO63 <= offset < TWO63
    case DoRead(_) => true
    case DoWrite(data) => m.position + |data| <= |m.content|
  }

  /** One operation on the byte array, and the bytes it returns. */
  function Step(m: Model, readOnly: bool, op: Op): (Model, seq<Byte>)
    requires m.position <= |m.content| && Fits(m, op)
  {
    match op
    case DoSeek(offset, whence) =>
      (if whence in {0, 1, 2} then m.(position := SeekTarget(m.position, |m.content|, offset, whence)) else m, [])
    case DoRead(count) =>
      var end := m.position + Min(count, |m.content| - m.position);
      (m.(position := end), m.content[m.position..end])
    case DoWrite(data) =>
      (if readOnly then m else Model(Patch(m.content, m.position, data), m.position + |data|), [])
  }

  /** The state after a run, operation by operation; None when a write would pass the end. */
  datatype Outcome = Broken | Reached(m: Model, outs: seq<seq<Byte>>)

  function RunModel(m: Model, readOnly: bool, ops: seq<Op>): (r: Outcome)
    requires m.position <= |m.content|
    ensures r.Reached? ==> r.m.position <= |r.m.content| == |m.content| && |r.outs| == |ops|
  {
    if ops == [] then Reached(m, [])
    else
      var before := RunModel(m, readOnly, ops[..|ops| - 1]);
      var op := ops[|ops| - 1];
      if before.Broken? || !Fits(before.m, op) then Broken
      else
        var (m', out) := Step(before.m, readOnly, op);
        Reached(m', before.outs + [out])
  }

  /** A run that never breaks has no broken beginning. */
  lemma {:induction false} PrefixReached(m: Model, readOnly: bool, ops: seq<Op>, n: nat)
    requires m.position <= |m.content| && n <= |ops| && RunModel(m, readOnly, ops).Reached?
    ensures RunModel(m, readOnly, ops[..n]).Reached?
  {
    if n < |ops| {
      PrefixReached(m, readOnly, ops[..|ops| - 1], n);
      assert ops[..|ops| - 1][..n] == ops[..n];
    } else {
      assert ops[..n] == ops;
    }
  }

  /** Every run of seeks, reads and in-place writes on an open file is the run on the byte array. */
  method Run(f: File, ops: seq<Op>) returns (outs: seq<seq<Byte>>)
    requires f.Valid() && RunModel(Model(f.content, f.position), f.readOnly, ops).Reached?
    modifies f`dirty, f`buffer, f`currentCluster, f`position, f`content, f.vol, f.vol.device
    ensures f.Valid()
    ensures Same(RunModel(Model(old(f.content), old(f.position)), f.readOnly, ops),
                 Reached(Model(f.content, f.position), outs))
  {
    outs := [];
    ghost var start := Model(f.content, f.position);
    for i := 0 to |ops|
      invariant f.Valid()
      invariant Same(RunModel(start, f.readOnly, ops[..i]), Reached(Model(f.content, f.position), outs))
    {
      PrefixReached(start, f.readOnly, ops, i + 1);
      assert ops[..i + 1][..i] == ops[..i] && ops[..i + 1][i] == ops[i];
      var out := RunOne(f, ops[i]);
      outs := outs + [out];
    }
    assert ops[..|ops|] == ops;
  }

  method RunOne(f: File, op: Op) returns (out: seq<Byte>)
    requires f.Valid() && Fits(Model(f.content, f.position), op)
    modifies f`dirty, f`buffer, f`currentCluster, f`position, f`content, f.vol, f.vol.device
    ensures f.Valid()
    ensures Same((Model(f.content, f.position), out), Step(Model(old(f.content), old(f.position)), f.readOnly, op))
  {
    out := [];
    match op
    case DoSeek(offset, whence) =>
      var res := f.Seek(offset, whence);
    case DoRead(count) =>
      out := f.Read(count);
    case DoWrite(data) =>
      var res, written := f.Write(data);
  }
}
