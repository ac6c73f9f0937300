/** The file allocation table on disk: where each entry lives, the mirrored copies, and the table
    as an array of 32-bit words of which 28 bits are the link (section 4 of the Microsoft FAT
    Specification). */
module Fat32Table {
  import opened Bits
  import opened Values
  import opened BlockDevice

  const CLUSTER_FREE := 0
  const CLUSTER_EOF_MIN := 0x0FFF_FFF8
  const NO_SECTOR := 0xFFFF_FFFF
  const TWO28 := 0x1000_0000

  // ---------------------------------------------------------------- little-endian words in a sector

  /** *(uint32_t*)(s + off) */
  function Word(s: seq<Byte>, off: nat): (w: nat)
    requires off + 4 <= |s|
    ensures w < TWO32
  {
    var b0: nat, b1: nat, b2: nat, b3: nat := s[off], s[off + 1], s[off + 2], s[off + 3];
    b0 + 0x100 * b1 + 0x1_0000 * b2 + 0x100_0000 * b3
  }

  function PutWord(s: seq<Byte>, off: nat, w: nat): (r: seq<Byte>)
    requires off + 4 <= |s|
    ensures |r| == |s|
  {
    s[off := w % 0x100][off + 1 := w / 0x100 % 0x100]
     [off + 2 := w / 0x1_0000 % 0x100][off + 3 := w / 0x100_0000 % 0x100]
  }

  lemma WordOfPut(s: seq<Byte>, off: nat, w: nat, at: nat)
    requires off + 4 <= |s| && at + 4 <= |s| && w < TWO32
    requires at == off || at + 4 <= off || off + 4 <= at
    ensures Word(PutWord(s, off, w), at) == if at == off then w else Word(s, at)
  {
    var r := PutWord(s, off, w);
    if at == off {
      assert r[off] == w % 0x100 && r[off + 1] == w / 0x100 % 0x100;
      assert r[off + 2] == w / 0x1_0000 % 0x100 && r[off + 3] == w / 0x100_0000 % 0x100;
      ByteDigits(w);
    } else {
      assert r[at] == s[at] && r[at + 1] == s[at + 1] && r[at + 2] == s[at + 2] && r[at + 3] == s[at + 3];
    }
  }

  /** A word is stored with its least significant byte first. */
  lemma WordBytes(s: seq<Byte>, off: nat, k: nat)
    requires off + 4 <= |s| && k < 4
    ensures s[off + k] == Word(s, off) / Pow256(k) % 256
  {
    var a: nat, b: nat, c: nat, d: nat := s[off], s[off + 1], s[off + 2], s[off + 3];
    assert Pow256(1) == 0x100 && Pow256(2) == 0x1_0000 && Pow256(3) == 0x100_0000;
    DigitsOf(a, b, c, d);
  }

  lemma DigitsOf(a: nat, b: nat, c: nat, d: nat)
    requires a < 256 && b < 256 && c < 256 && d < 256
    ensures var w := a + 0x100 * b + 0x1_0000 * c + 0x100_0000 * d;
            w % 256 == a && w / 0x100 % 256 == b && w / 0x1_0000 % 256 == c && w / 0x100_0000 % 256 == d
  {
    var w := a + 0x100 * b + 0x1_0000 * c + 0x100_0000 * d;
    assert w / 0x100 == b + 0x100 * c + 0x1_0000 * d;
    assert w / 0x1_0000 == c + 0x100 * d;
    assert w / 0x100_0000 == d;
  }

  lemma ByteDigits(w: nat)
    requires w < TWO32
    ensures w % 0x100 + 0x100 * (w / 0x100 % 0x100) + 0x1_0000 * (w / 0x1_0000 % 0x100)
            + 0x100_0000 * (w / 0x100_0000 % 0x100) == w
  {
    DivDiv(w, 0x100, 0x100);
    DivDiv(w, 0x1_0000, 0x100);
    ModSmall(w / 0x100_0000, 0x100);
  }

  // ---------------------------------------------------------------- geometry

  datatype Fields = Fields(
    bytesPerSector: nat,
    sectorsPerCluster: nat,
    bytesPerCluster: nat,
    fatStart: nat,
    fatSize: nat,
    numFats: nat,
    dataStart: nat,
    totalClusters: nat)

  /** A volume the driver can mount: the table has room for every cluster, sector numbers are
      32-bit words, cluster numbers stay below the end-of-chain marks. */
  predicate GeometryOk(g: Fields) {
    && g.bytesPerSector > 0 && g.bytesPerSector % 4 == 0 && g.sectorsPerCluster > 0 && g.numFats > 0
    && g.totalClusters + 2 <= 0x0FFF_FFF7
    && g.bytesPerCluster == Times(g.sectorsPerCluster, g.bytesPerSector)
    && (g.totalClusters + 2) * 4 <= Times(g.fatSize, g.bytesPerSector)
    && g.dataStart == g.fatStart + Times(g.numFats, g.fatSize) && g.fatStart + g.fatSize <= g.dataStart
    && g.dataStart + Times(g.totalClusters, g.sectorsPerCluster) < NO_SECTOR
  }

  type Geometry = g: Fields | GeometryOk(g) witness Fields(8, 1, 8, 0, 1, 1, 1, 0)

  /** The sector after the last cluster. */
  function DataEnd(g: Geometry): nat {
    g.dataStart + Times(g.totalClusters, g.sectorsPerCluster)
  }

  predicate InRange(g: Geometry, c: nat) {
    2 <= c < g.totalClusters + 2
  }

  /** The sector of entry c, counted from the start of a table copy, and the offset inside it. */
  function EntrySector(g: Geometry, c: nat): nat
  {
    DivNonnegative(c * 4, g.bytesPerSector);
    c * 4 / g.bytesPerSector
  }

  function EntryOffset(g: Geometry, c: nat): nat
  {
    c * 4 % g.bytesPerSector
  }

  lemma EntryPlace(g: Geometry, c: nat)
    requires c < g.totalClusters + 2
    ensures EntrySector(g, c) < g.fatSize
    ensures EntryOffset(g, c) % 4 == 0 && EntryOffset(g, c) + 4 <= g.bytesPerSector
    ensures c * 4 == g.bytesPerSector * EntrySector(g, c) + EntryOffset(g, c)
  {
    var b, q, r := g.bytesPerSector, EntrySector(g, c), EntryOffset(g, c);
    assert c * 4 == b * q + r;
    TimesIs(g.fatSize, b);
    if q >= g.fatSize {
      MulMono(b, g.fatSize, q);
      assert false;
    }
    FourDivides(c, b, q, r);
  }

  lemma FourDivides(c: nat, b: nat, q: nat, r: nat)
    requires c * 4 == b * q + r && b % 4 == 0 && r < b
    ensures r % 4 == 0 && r + 4 <= b
  {
    var e := b / 4;
    MulAssoc(4, e, q);
    var k := c - e * q;
    assert r == 4 * k;
  }

  /** Different entries never overlap. */
  lemma EntriesApart(g: Geometry, c: nat, d: nat)
    requires c < g.totalClusters + 2 && d < g.totalClusters + 2 && c != d
    ensures EntrySector(g, c) != EntrySector(g, d)
         || EntryOffset(g, c) + 4 <= EntryOffset(g, d) || EntryOffset(g, d) + 4 <= EntryOffset(g, c)
  {
    EntryPlace(g, c);
    EntryPlace(g, d);
  }

  /** Sector j of table copy k. */
  function CopySector(g: Geometry, k: nat, j: nat): nat {
    g.fatStart + k * g.fatSize + j
  }

  lemma CopyPlace(g: Geometry, k: nat, j: nat)
    requires k < g.numFats && j < g.fatSize
    ensures g.fatStart <= CopySector(g, k, j) < g.dataStart
  {
    TimesIs(g.numFats, g.fatSize);
    MulStrict(g.fatSize, k, g.numFats);
  }

  lemma CopiesApart(g: Geometry, k: nat, j: nat, k': nat, j': nat)
    requires j < g.fatSize && j' < g.fatSize && CopySector(g, k, j) == CopySector(g, k', j')
    ensures k == k' && j == j'
  {
    DivUnique(k * g.fatSize + j, g.fatSize, k, j);
    DivUnique(k' * g.fatSize + j', g.fatSize, k', j');
  }

  // ---------------------------------------------------------------- the table as an array

  ghost predicate DiskOk(g: Geometry, blocks: seq<seq<Byte>>) {
    && DataEnd(g) <= |blocks|
    && forall i :: 0 <= i < |blocks| ==> |blocks[i]| == g.bytesPerSector
  }

  /** All copies of the table are equal. */
  ghost predicate Mirrored(g: Geometry, blocks: seq<seq<Byte>>)
    requires DiskOk(g, blocks)
  {
    forall k, j :: 0 <= k < g.numFats && 0 <= j < g.fatSize ==>
      CopySector(g, k, j) < |blocks| && blocks[CopySector(g, k, j)] == blocks[g.fatStart + j]
  }

  /** Entry c of the first copy, all 32 bits. */
  ghost function EntryAt(g: Geometry, blocks: seq<seq<Byte>>, c: nat): (w: nat)
    requires DiskOk(g, blocks) && c < g.totalClusters + 2
    ensures w < TWO32
  {
    EntryPlace(g, c);
    Word(FirstCopy(g, blocks)[EntrySector(g, c)], EntryOffset(g, c))
  }

  ghost function Fat(g: Geometry, blocks: seq<seq<Byte>>): (fat: seq<nat>)
    requires DiskOk(g, blocks)
    ensures |fat| == g.totalClusters + 2
    ensures forall c :: 0 <= c < |fat| ==> fat[c] == EntryAt(g, blocks, c) < TWO32
  {
    seq(g.totalClusters + 2, c requires 0 <= c < g.totalClusters + 2 => EntryAt(g, blocks, c))
  }

  /** The 28-bit link of a table word, and the word with a new link and its top four bits kept. */
  function Link(w: nat): nat { w % TWO28 }
  function WithLink(w: nat, next: nat): nat { w / TWO28 * TWO28 + next % TWO28 }

  lemma LinkBits(w: nat, next: nat)
    requires w < TWO32
    ensures And(w, 0x0FFF_FFFF) == Link(w)
    ensures Or(And(w, 0xF000_0000), And(next, 0x0FFF_FFFF)) == WithLink(w, next) < TWO32
    ensures Link(WithLink(w, next)) == next % TWO28
  {
    var hi, lo := w / TWO28, next % TWO28;
    assert hi < 16;
    assert And(w, 0x0FFF_FFFF) == Link(w) by { Low28(w); }
    assert And(next, 0x0FFF_FFFF) == lo by { Low28(next); }
    assert And(w, 0xF000_0000) == hi * TWO28 by { High4(w, hi); }
    assert Or(hi * TWO28, lo) == hi * TWO28 + lo by { Or28(hi, lo); }
    DivUnique(hi * TWO28 + lo, TWO28, hi, lo);
  }

  lemma Low28(w: nat)
    ensures And(w, 0x0FFF_FFFF) == w % TWO28
  {
    Powers();
    AndMask(w, 28);
  }

  lemma High4(w: nat, hi: nat)
    requires hi == w / TWO28 && hi < 16
    ensures And(w, 0xF000_0000) == hi * TWO28
  {
    var h := hi % 16;
    assert h == hi;
    assert And(w, 15 * TWO28) == h * TWO28 by {
      Powers();
      AndField(w, 28, 4, 15);
    }
  }

  lemma Or28(hi: nat, lo: nat)
    requires lo < TWO28
    ensures Or(hi * TWO28, lo) == hi * TWO28 + lo
  {
    Powers();
    OrDisjoint(hi, lo, 28);
  }

  /** The sectors of the first copy. */
  ghost function FirstCopy(g: Geometry, blocks: seq<seq<Byte>>): (t: seq<seq<Byte>>)
    requires DiskOk(g, blocks)
    ensures |t| == g.fatSize && forall j :: 0 <= j < g.fatSize ==> |t[j]| == g.bytesPerSector
  {
    blocks[g.fatStart..g.fatStart + g.fatSize]
  }

  /** Entry c is a word of one sector, well away from the end-of-sector. */
  lemma EntryInSector(g: Geometry, blocks: seq<seq<Byte>>, c: nat)
    requires DiskOk(g, blocks) && c < g.totalClusters + 2
    ensures EntrySector(g, c) < g.fatSize && EntryOffset(g, c) + 4 <= g.bytesPerSector
    ensures g.fatStart + EntrySector(g, c) < |blocks| && g.fatStart + EntrySector(g, c) < NO_SECTOR
    ensures EntryAt(g, blocks, c) == Word(blocks[g.fatStart + EntrySector(g, c)], EntryOffset(g, c))
  {
    EntryPlace(g, c);
    SectorInside(g, |blocks|);
  }

  lemma SectorInside(g: Geometry, n: nat)
    requires DataEnd(g) <= n
    ensures g.dataStart <= n && g.dataStart < NO_SECTOR
  {
  }

  // ---------------------------------------------------------------- the mirrored copies

  /** Sector q replaced in the first n copies, one after the other. */
  ghost function WriteCopies(g: Geometry, blocks: seq<seq<Byte>>, q: nat, data: seq<Byte>, n: nat): (r: seq<seq<Byte>>)
    requires DiskOk(g, blocks) && q < g.fatSize && n <= g.numFats && |data| == g.bytesPerSector
    ensures DiskOk(g, r) && |r| == |blocks|
  {
    if n == 0 then blocks
    else
      CopyPlace(g, n - 1, q);
      SectorInside(g, |blocks|);
      WriteCopies(g, blocks, q, data, n - 1)[CopySector(g, n - 1, q) := data]
  }

  lemma {:induction false} CopyAfter(g: Geometry, blocks: seq<seq<Byte>>, q: nat, data: seq<Byte>, n: nat, k: nat,
                                     j: nat)
    requires DiskOk(g, blocks) && q < g.fatSize && n <= g.numFats && |data| == g.bytesPerSector
    requires k < g.numFats && j < g.fatSize
    ensures CopySector(g, k, j) < |blocks|
    ensures WriteCopies(g, blocks, q, data, n)[CopySector(g, k, j)]
            == if k < n && j == q then data else blocks[CopySector(g, k, j)]
  {
    CopyPlace(g, k, j);
    SectorInside(g, |blocks|);
    if n > 0 {
      CopyPlace(g, n - 1, q);
      CopyAfter(g, blocks, q, data, n - 1, k, j);
      if CopySector(g, n - 1, q) == CopySector(g, k, j) {
        CopiesApart(g, n - 1, q, k, j);
      }
    }
  }

  lemma {:induction false} OutsideAfter(g: Geometry, blocks: seq<seq<Byte>>, q: nat, data: seq<Byte>, n: nat, i: nat)
    requires DiskOk(g, blocks) && q < g.fatSize && n <= g.numFats && |data| == g.bytesPerSector
    requires i < |blocks| && !(g.fatStart <= i < g.dataStart)
    ensures WriteCopies(g, blocks, q, data, n)[i] == blocks[i]
  {
    if n > 0 {
      CopyPlace(g, n - 1, q);
      OutsideAfter(g, blocks, q, data, n - 1, i);
    }
  }

  /** Replacing a sector in every copy keeps the copies equal and touches nothing else. */
  lemma AllCopiesWritten(g: Geometry, blocks: seq<seq<Byte>>, q: nat, data: seq<Byte>)
    requires DiskOk(g, blocks) && Mirrored(g, blocks) && q < g.fatSize && |data| == g.bytesPerSector
    ensures Mirrored(g, WriteCopies(g, blocks, q, data, g.numFats))
    ensures FirstCopy(g, WriteCopies(g, blocks, q, data, g.numFats)) == FirstCopy(g, blocks)[q := data]
    ensures SameOutside(g, blocks, WriteCopies(g, blocks, q, data, g.numFats))
  {
    var now := WriteCopies(g, blocks, q, data, g.numFats);
    FirstCopyAfter(g, blocks, q, data);
    forall k, j | 0 <= k < g.numFats && 0 <= j < g.fatSize
      ensures CopySector(g, k, j) < |now| && now[CopySector(g, k, j)] == now[g.fatStart + j]
    {
      CopyAfter(g, blocks, q, data, g.numFats, k, j);
      FirstAfter(g, blocks, q, data, j);
    }
    forall i | 0 <= i < |blocks| && !(g.fatStart <= i < g.dataStart)
      ensures now[i] == blocks[i]
    {
      OutsideAfter(g, blocks, q, data, g.numFats, i);
    }
  }

  lemma FirstCopyAfter(g: Geometry, blocks: seq<seq<Byte>>, q: nat, data: seq<Byte>)
    requires DiskOk(g, blocks) && q < g.fatSize && |data| == g.bytesPerSector
    ensures FirstCopy(g, WriteCopies(g, blocks, q, data, g.numFats)) == FirstCopy(g, blocks)[q := data]
  {
    var now := FirstCopy(g, WriteCopies(g, blocks, q, data, g.numFats));
    forall j | 0 <= j < g.fatSize
      ensures now[j] == FirstCopy(g, blocks)[q := data][j]
    {
      FirstAfter(g, blocks, q, data, j);
    }
  }

  lemma FirstAfter(g: Geometry, blocks: seq<seq<Byte>>, q: nat, data: seq<Byte>, j: nat)
    requires DiskOk(g, blocks) && q < g.fatSize && |data| == g.bytesPerSector && j < g.fatSize
    ensures g.fatStart + j < |blocks|
    ensures WriteCopies(g, blocks, q, data, g.numFats)[g.fatStart + j]
         == if j == q then data else blocks[g.fatStart + j]
  {
    CopyAfter(g, blocks, q, data, g.numFats, 0, j);
    assert CopySector(g, 0, j) == g.fatStart + j;
  }

  /** Sectors that belong to no copy of the table are the same. */
  ghost predicate SameOutside(g: Geometry, was: seq<seq<Byte>>, now: seq<seq<Byte>>) {
    |now| == |was| && forall i :: 0 <= i < |was| && !(g.fatStart <= i < g.dataStart) ==> now[i] == was[i]
  }

  // ---------------------------------------------------------------- updates

  /** Writing the word for entry c into its sector changes exactly entry c of the table. */
  lemma FatUpdate(g: Geometry, blocks: seq<seq<Byte>>, blocks': seq<seq<Byte>>, c: nat, w: nat)
    requires DiskOk(g, blocks) && DiskOk(g, blocks') && c < g.totalClusters + 2 && w < TWO32
    requires EntryOffset(g, c) + 4 <= g.bytesPerSector && EntrySector(g, c) < g.fatSize
    requires var q := EntrySector(g, c);
             FirstCopy(g, blocks') == FirstCopy(g, blocks)[q := PutWord(FirstCopy(g, blocks)[q], EntryOffset(g, c), w)]
    ensures Fat(g, blocks') == Fat(g, blocks)[c := w]
  {
    forall d | 0 <= d < g.totalClusters + 2
      ensures EntryAt(g, blocks', d) == if d == c then w else EntryAt(g, blocks, d)
    {
      EntryUpdate(g, blocks, blocks', c, w, d);
    }
  }

  /** The value the driver computes for an entry and puts into its sector. */
  lemma SetEntry(g: Geometry, was: seq<seq<Byte>>, now: seq<seq<Byte>>, c: nat, next: nat, entry: nat)
    requires DiskOk(g, was) && DiskOk(g, now) && c < g.totalClusters + 2
    requires EntryOffset(g, c) + 4 <= g.bytesPerSector && EntrySector(g, c) < g.fatSize
    requires var q, off := EntrySector(g, c), EntryOffset(g, c);
             && entry == Or(And(Word(FirstCopy(g, was)[q], off), 0xF000_0000), And(next, 0x0FFF_FFFF))
             && FirstCopy(g, now) == FirstCopy(g, was)[q := PutWord(FirstCopy(g, was)[q], off, entry)]
    ensures Fat(g, now) == Fat(g, was)[c := WithLink(Fat(g, was)[c], next)]
  {
    LinkBits(Word(FirstCopy(g, was)[EntrySector(g, c)], EntryOffset(g, c)), next);
    FatUpdate(g, was, now, c, entry);
  }

  lemma EntryUpdate(g: Geometry, blocks: seq<seq<Byte>>, blocks': seq<seq<Byte>>, c: nat, w: nat, d: nat)
    requires DiskOk(g, blocks) && DiskOk(g, blocks') && c < g.totalClusters + 2 && d < g.totalClusters + 2 && w < TWO32
    requires EntryOffset(g, c) + 4 <= g.bytesPerSector && EntrySector(g, c) < g.fatSize
    requires var q := EntrySector(g, c);
             FirstCopy(g, blocks') == FirstCopy(g, blocks)[q := PutWord(FirstCopy(g, blocks)[q], EntryOffset(g, c), w)]
    ensures EntryAt(g, blocks', d) == if d == c then w else EntryAt(g, blocks, d)
  {
    EntryPlace(g, d);
    if d != c {
      EntriesApart(g, c, d);
    }
    if EntrySector(g, d) == EntrySector(g, c) {
      WordOfPut(FirstCopy(g, blocks)[EntrySector(g, c)], EntryOffset(g, c), w, EntryOffset(g, d));
    }
  }

  /** Sectors outside the table region do not matter to it. */
  lemma FatFrame(g: Geometry, blocks: seq<seq<Byte>>, blocks': seq<seq<Byte>>)
    requires DiskOk(g, blocks) && DiskOk(g, blocks') && |blocks'| == |blocks|
    requires forall i :: g.fatStart <= i < g.dataStart ==> blocks'[i] == blocks[i]
    ensures Fat(g, blocks') == Fat(g, blocks)
    ensures Mirrored(g, blocks) ==> Mirrored(g, blocks')
  {
    forall k, j | 0 <= k < g.numFats && 0 <= j < g.fatSize
      ensures g.fatStart <= CopySector(g, k, j) < g.dataStart && g.fatStart <= g.fatStart + j < g.dataStart
    {
      CopyPlace(g, k, j);
      CopyPlace(g, 0, j);
    }
    assert FirstCopy(g, blocks') == FirstCopy(g, blocks);
  }

  // ---------------------------------------------------------------- data clusters

  /** First sector of a cluster. */
  function ClusterStart(g: Geometry, c: nat): nat
    requires InRange(g, c)
  {
    g.dataStart + Times(c - 2, g.sectorsPerCluster)
  }

  /** The clusters fill the data region in order, the first one numbered 2. */
  lemma ClustersTile(g: Geometry, c: nat)
    requires InRange(g, c)
    ensures c == 2 ==> ClusterStart(g, c) == g.dataStart
    ensures ClusterStart(g, c) + g.sectorsPerCluster
         == if InRange(g, c + 1) then ClusterStart(g, c + 1) else DataEnd(g)
  {
    assert Times(c - 1, g.sectorsPerCluster) == Times(c - 2, g.sectorsPerCluster) + g.sectorsPerCluster;
  }

  lemma ClusterPlace(g: Geometry, n: nat, c: nat)
    requires InRange(g, c) && DataEnd(g) <= n
    ensures g.dataStart <= ClusterStart(g, c) && ClusterStart(g, c) + g.sectorsPerCluster <= n
  {
    TimesMono(c - 2, g.totalClusters, g.sectorsPerCluster);
  }

  lemma ClusterIs32Bit(g: Geometry)
    requires g.totalClusters > 0
    ensures DataEnd(g) < TWO32 && g.sectorsPerCluster < TWO32
  {
    TimesMono(0, g.totalClusters, g.sectorsPerCluster);
  }

  lemma ClustersApart(g: Geometry, c: nat, d: nat)
    requires InRange(g, c) && InRange(g, d) && c < d && g.sectorsPerCluster > 0
    ensures ClusterStart(g, c) + g.sectorsPerCluster <= ClusterStart(g, d)
  {
    TimesMono(c - 2, d - 2, g.sectorsPerCluster);
  }

  /** The bytes of cluster c on the device. */
  ghost function ClusterData(g: Geometry, blocks: seq<seq<Byte>>, c: nat): (r: seq<Byte>)
    requires DiskOk(g, blocks) && InRange(g, c)
    ensures |r| == g.bytesPerCluster
  {
    ClusterPlace(g, |blocks|, c);
    var sectors := blocks[ClusterStart(g, c)..ClusterStart(g, c) + g.sectorsPerCluster];
    FlattenLength(sectors, g.bytesPerSector);
    TimesIs(g.sectorsPerCluster, g.bytesPerSector);
    Flatten(sectors)
  }

  /** The device after the sectors of cluster c are replaced by the bytes of a buffer. */
  ghost function WithCluster(g: Geometry, blocks: seq<seq<Byte>>, c: nat, buf: seq<Byte>): (r: seq<seq<Byte>>)
    requires DiskOk(g, blocks) && InRange(g, c) && |buf| == g.bytesPerCluster
    ensures |r| == |blocks| && DiskOk(g, r)
  {
    ClusterPlace(g, |blocks|, c);
    TimesIs(g.sectorsPerCluster, g.bytesPerSector);
    Replace(blocks, ClusterStart(g, c), Cut(buf, g.sectorsPerCluster, g.bytesPerSector))
  }

  /** Writing a cluster changes that cluster alone: not the others, not the table or its copies. */
  lemma ClusterWritten(g: Geometry, blocks: seq<seq<Byte>>, c: nat, buf: seq<Byte>)
    requires DiskOk(g, blocks) && InRange(g, c) && |buf| == g.bytesPerCluster
    ensures ClusterData(g, WithCluster(g, blocks, c, buf), c) == buf
    ensures forall d :: InRange(g, d) && d != c ==>
              ClusterData(g, WithCluster(g, blocks, c, buf), d) == ClusterData(g, blocks, d)
    ensures forall i :: 0 <= i < g.dataStart && i < |blocks| ==> WithCluster(g, blocks, c, buf)[i] == blocks[i]
  {
    var now := WithCluster(g, blocks, c, buf);
    var n := g.sectorsPerCluster;
    ClusterPlace(g, |blocks|, c);
    TimesIs(n, g.bytesPerSector);
    assert now[ClusterStart(g, c)..ClusterStart(g, c) + n] == Cut(buf, n, g.bytesPerSector);
    FlattenCut(buf, n, g.bytesPerSector);
    forall d: nat | InRange(g, d) && d != c
      ensures ClusterData(g, now, d) == ClusterData(g, blocks, d)
    {
      ClusterPlace(g, |blocks|, d);
      if d < c {
        ClustersApart(g, d, c);
      } else {
        ClustersApart(g, c, d);
      }
      assert now[ClusterStart(g, d)..ClusterStart(g, d) + n] == blocks[ClusterStart(g, d)..ClusterStart(g, d) + n];
    }
  }
}
