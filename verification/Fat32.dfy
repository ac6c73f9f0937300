/** kernel/fs/fat32.c: the allocation table behind a one-sector write-through cache, with mirrored
    copies; first-fit allocation; freeing of chains; whole-cluster reads and writes. */
module Fat32 {
  import opened Bits
  import opened Values
  import opened BlockDevice
  import opened Fat32Table
  import opened Fat32Chain

  class Volume {
    const device: Disk<Byte>
    const g: Geometry
    var fatCache: seq<Byte>
    var fatCacheSector: nat

    /** Well-formed volume; equal copies; a valid cached sector equals the device sector. */
    ghost predicate Valid()
      reads this, device
    {
      && device.Valid() && device.blockSize == g.bytesPerSector
      && DiskOk(g, device.blocks) && Mirrored(g, device.blocks)
      && |fatCache| == g.bytesPerSector
      && (fatCacheSector != NO_SECTOR ==>
            && g.fatStart <= fatCacheSector < g.dataStart && fatCacheSector < |device.blocks|
            && fatCache == device.blocks[fatCacheSector])
    }

    /** The table as an array of words. */
    ghost function Table(): seq<nat>
      reads this, device
      requires Valid()
    {
      Fat(g, device.blocks)
    }

    constructor (device: Disk<Byte>, g: Geometry)
      requires device.Valid() && device.blockSize == g.bytesPerSector
      requires DiskOk(g, device.blocks) && Mirrored(g, device.blocks)
      ensures Valid() && this.device == device && this.g == g
    {
      this.device := device;
      this.g := g;
      this.fatCache := seq(g.bytesPerSector, _ => 0);
      this.fatCacheSector := NO_SECTOR;
    }

    method ReadCluster(cluster: nat) returns (err: Status, buf: seq<Byte>)
      requires Valid()
      ensures err == Ok <==> InRange(g, cluster)
      ensures err == Ok ==> buf == ClusterData(g, device.blocks, cluster)
    {
      if cluster < 2 || cluster >= g.totalClusters + 2 {
        return InvalidArg, [];
      }
      ClusterPlace(g, |device.blocks|, cluster);
      TimesIs(cluster - 2, g.sectorsPerCluster);
      var firstSector := g.dataStart + (cluster - 2) * g.sectorsPerCluster;
      ClusterIs32Bit(g);
      err, buf := device.ReadBlocks(firstSector, g.sectorsPerCluster);
    }

    method WriteCluster(cluster: nat, buf: seq<Byte>) returns (err: Status)
      requires Valid() && |buf| == g.bytesPerCluster
      modifies device
      ensures Valid() && Table() == old(Table())
      ensures err == Ok <==> InRange(g, cluster)
      ensures err == Ok ==> device.blocks == WithCluster(g, old(device.blocks), cluster, buf)
      ensures err != Ok ==> device.blocks == old(device.blocks)
    {
      if cluster < 2 || cluster >= g.totalClusters + 2 {
        return InvalidArg;
      }
      ClusterPlace(g, |device.blocks|, cluster);
      TimesIs(cluster - 2, g.sectorsPerCluster);
      var firstSector := g.dataStart + (cluster - 2) * g.sectorsPerCluster;
      ClusterIs32Bit(g);
      TimesIs(g.sectorsPerCluster, g.bytesPerSector);
      ClusterWritten(g, device.blocks, cluster, buf);
      ghost var before := device.blocks;
      err := device.WriteBlocks(firstSector, g.sectorsPerCluster, buf);
      FatFrame(g, before, device.blocks);
    }

    /** Bring the sector into the cache unless it is there. */
    method LoadFatSector(sector: nat)
      requires Valid() && g.fatStart <= sector < g.fatStart + g.fatSize
      modifies this
      ensures Valid() && fatCacheSector == sector
    {
      SectorInside(g, |device.blocks|);
      if sector != fatCacheSector {
        var err, data := device.Read(sector);
        fatCache := data;
        fatCacheSector := sector;
      }
    }

    method GetNextCluster(cluster: nat) returns (next: nat)
      requires Valid()
      modifies this
      ensures Valid()
      ensures next == if InRange(g, cluster) then Link(Table()[cluster]) else CLUSTER_EOF_MIN
    {
      if cluster < 2 || cluster >= g.totalClusters + 2 {
        return CLUSTER_EOF_MIN;
      }
      EntryInSector(g, device.blocks, cluster);
      var fatSector := g.fatStart + EntrySector(g, cluster);
      var entryOffset := EntryOffset(g, cluster);
      LoadFatSector(fatSector);
      LinkBits(Word(fatCache, entryOffset), 0);
      next := And(Word(fatCache, entryOffset), 0x0FFF_FFFF);
    }

    /** Entry `cluster` gets a new link; its top four bits and every other entry stay. */
    method SetNextCluster(cluster: nat, next: nat) returns (err: Status)
      requires Valid()
      modifies this, device
      ensures Valid() && SameOutside(g, old(device.blocks), device.blocks)
      ensures !InRange(g, cluster) ==> err == InvalidArg && device.blocks == old(device.blocks)
      ensures InRange(g, cluster) ==>
                err == Ok && Table() == old(Table())[cluster := WithLink(old(Table())[cluster], next)]
    {
      if cluster < 2 || cluster >= g.totalClusters + 2 {
        return InvalidArg;
      }
      EntryInSector(g, device.blocks, cluster);
      var fatSector := g.fatStart + EntrySector(g, cluster);
      var entryOffset := EntryOffset(g, cluster);
      LoadFatSector(fatSector);
      ghost var before := device.blocks;
      var entry := Or(And(Word(fatCache, entryOffset), 0xF000_0000), And(next, 0x0FFF_FFFF));
      WriteThrough(EntrySector(g, cluster), PutWord(fatCache, entryOffset, entry));
      SetEntry(g, before, device.blocks, cluster, next, entry);
      err := Ok;
    }

    /** New contents for the cached sector q of the table: cache, first copy and all other copies. */
    method WriteThrough(q: nat, data: seq<Byte>)
      requires Valid() && q < g.fatSize && fatCacheSector == g.fatStart + q && |data| == g.bytesPerSector
      modifies this, device
      ensures Valid() && SameOutside(g, old(device.blocks), device.blocks)
      ensures FirstCopy(g, device.blocks) == FirstCopy(g, old(device.blocks))[q := data]
    {
      ghost var before := device.blocks;
      SectorInside(g, |before|);
      fatCache := data;
      var err := device.Write(fatCacheSector, fatCache);
      assert CopySector(g, 0, q) == fatCacheSector;
      assert WriteCopies(g, before, q, data, 0) == before;
      var i := 1;
      while i < g.numFats
        invariant 1 <= i <= g.numFats
        invariant device.Valid() && fatCache == data && fatCacheSector == g.fatStart + q
        invariant device.blocks == WriteCopies(g, before, q, data, i)
      {
        CopyPlace(g, i, q);
        err := device.Write(fatCacheSector + i * g.fatSize, fatCache);
        i := i + 1;
      }
      AllCopiesWritten(g, before, q, data);
      CopyAfter(g, before, q, data, g.numFats, 0, q);
    }

    /** First fit: the lowest free cluster becomes an end of chain; 0 only when none is free. */
    method AllocCluster() returns (cluster: nat)
      requires Valid()
      modifies this, device
      ensures Valid() && SameOutside(g, old(device.blocks), device.blocks)
      ensures cluster == 0 ==>
                Table() == old(Table())
                && forall c :: 2 <= c < g.totalClusters + 2 ==> Link(old(Table())[c]) != CLUSTER_FREE
      ensures cluster != 0 ==>
                && InRange(g, cluster) && Link(old(Table())[cluster]) == CLUSTER_FREE
                && (forall c :: 2 <= c < cluster ==> Link(old(Table())[c]) != CLUSTER_FREE)
                && Table() == old(Table())[cluster := WithLink(old(Table())[cluster], CLUSTER_EOF_MIN)]
    {
      cluster := 2;
      while cluster < g.totalClusters + 2
        invariant 2 <= cluster <= g.totalClusters + 2
        invariant Valid() && device.blocks == old(device.blocks)
        invariant forall c :: 2 <= c < cluster ==> Link(old(Table())[c]) != CLUSTER_FREE
      {
        var next := GetNextCluster(cluster);
        if next == CLUSTER_FREE {
          var err := SetNextCluster(cluster, CLUSTER_EOF_MIN);
          return;
        }
        cluster := cluster + 1;
      }
      cluster := 0;
    }

    /** Frees exactly the clusters reachable from the start, on every table: a cycle ends the loop
        because the entry it returns to has already been cleared. */
    method FreeCluster(start: nat) returns (err: Status)
      requires Valid()
      modifies this, device
      ensures Valid() && SameOutside(g, old(device.blocks), device.blocks)
      ensures start < 2 ==> err == InvalidArg && device.blocks == old(device.blocks)
      ensures start >= 2 ==> err == Ok && Table() == Freed(old(Table()), start)
    {
      if start < 2 {
        return InvalidArg;
      }
      ghost var fat := Table();
      ghost var trail: seq<nat> := [];
      ghost var visited: set<nat> := {};
      var cluster: nat := start;
      while cluster >= 2 && cluster < g.totalClusters + 2
        invariant Valid() && SameOutside(g, old(device.blocks), device.blocks)
        invariant Freeing(fat, start, trail, visited, cluster)
        invariant Table() == ClearedAt(fat, trail)
        decreases Clusters(fat) - visited, Live(fat, cluster)
      {
        var next := ClearLink(cluster, old(device.blocks));
        trail, visited := FreeingStep(fat, start, trail, visited, cluster);
        cluster := next;
        if next >= CLUSTER_EOF_MIN {
          break;
        }
      }
      ClearedIsFreed(fat, start, trail);
      err := Ok;
    }

    /** One pass of the loop: read the link, then clear it. */
    method ClearLink(cluster: nat, ghost origin: seq<seq<Byte>>) returns (next: nat)
      requires Valid() && InRange(g, cluster) && SameOutside(g, origin, device.blocks)
      modifies this, device
      ensures Valid() && SameOutside(g, origin, device.blocks)
      ensures next == Link(old(Table())[cluster])
      ensures Table() == old(Table())[cluster := WithLink(old(Table())[cluster], CLUSTER_FREE)]
    {
      next := GetNextCluster(cluster);
      var err := SetNextCluster(cluster, CLUSTER_FREE);
    }
  }

  /** The freeing loop stands at `cluster` after clearing the trail: at the next cluster of the walk,
      or out of the table after finding its own trail. */
  ghost predicate Freeing(fat: seq<nat>, start: nat, trail: seq<nat>, visited: set<nat>, cluster: nat) {
    && IsTrail(fat, start, trail) && (forall x :: x in trail <==> x in visited)
    && (cluster == Nth(fat, start, |trail|) || (!Live(fat, cluster) && Nth(fat, start, |trail|) in trail))
  }

  lemma FreeingStep(fat: seq<nat>, start: nat, trail: seq<nat>, visited: set<nat>, cluster: nat)
    returns (trail': seq<nat>, visited': set<nat>)
    requires Freeing(fat, start, trail, visited, cluster) && Live(fat, cluster)
    ensures var now := ClearedAt(fat, trail);
            && Freeing(fat, start, trail', visited', Link(now[cluster]))
            && now[cluster := WithLink(now[cluster], CLUSTER_FREE)] == ClearedAt(fat, trail')
            && (if cluster in visited then visited' == visited && Link(now[cluster]) == 0
                else visited' == visited + {cluster})
  {
    if cluster in visited {
      ClearAgain(fat, trail, cluster);
      trail', visited' := trail, visited;
    } else {
      ClearNext(fat, start, trail, cluster);
      trail', visited' := trail + [cluster], visited + {cluster};
    }
  }

  ghost function Clusters(fat: seq<nat>): (r: set<nat>)
    ensures forall x: nat :: x in r <==> Live(fat, x)
  {
    set x: nat | x < |fat| && Live(fat, x)
  }

  /** The table with the links of the listed clusters cleared. */
  ghost function ClearedAt(fat: seq<nat>, trail: seq<nat>): (r: seq<nat>)
    ensures |r| == |fat|
  {
    seq(|fat|, x requires 0 <= x < |fat| => if x in trail then WithLink(fat[x], CLUSTER_FREE) else fat[x])
  }

  lemma ClearAgain(fat: seq<nat>, trail: seq<nat>, c: nat)
    requires Live(fat, c) && c in trail
    ensures Link(ClearedAt(fat, trail)[c]) == 0
    ensures ClearedAt(fat, trail)[c := WithLink(ClearedAt(fat, trail)[c], CLUSTER_FREE)] == ClearedAt(fat, trail)
  {
    DivUnique(WithLink(fat[c], CLUSTER_FREE), TWO28, fat[c] / TWO28, 0);
  }

  lemma ClearNext(fat: seq<nat>, start: nat, trail: seq<nat>, c: nat)
    requires Live(fat, c) && c !in trail && IsTrail(fat, start, trail) && c == Nth(fat, start, |trail|)
    ensures IsTrail(fat, start, trail + [c])
    ensures ClearedAt(fat, trail)[c] == fat[c]
    ensures ClearedAt(fat, trail)[c := WithLink(fat[c], CLUSTER_FREE)] == ClearedAt(fat, trail + [c])
    ensures Nth(fat, start, |trail + [c]|) == Link(fat[c])
  {
  }

  lemma ClearedIsFreed(fat: seq<nat>, start: nat, trail: seq<nat>)
    requires IsTrail(fat, start, trail)
    requires !Live(fat, Nth(fat, start, |trail|)) || Nth(fat, start, |trail|) in trail
    ensures ClearedAt(fat, trail) == Freed(fat, start)
  {
    forall x | 0 <= x < |fat|
      ensures ClearedAt(fat, trail)[x] == Freed(fat, start)[x]
    {
      TrailIsAll(fat, start, trail, x);
    }
  }

  // ---------------------------------------------------------------- whole runs

  datatype Op = Get(c: nat) | Set(c: nat, next: nat) | Alloc | Free(c: nat)

  /** The lowest free cluster from `from` on, or 0. */
  ghost function FirstFree(fat: seq<nat>, from: nat): (c: nat)
    requires from >= 2
    ensures c == 0 ==> forall x :: from <= x < |fat| ==> Link(fat[x]) != CLUSTER_FREE
    ensures c != 0 ==> from <= c < |fat| && Link(fat[c]) == CLUSTER_FREE
    ensures c != 0 ==> forall x :: from <= x < c ==> Link(fat[x]) != CLUSTER_FREE
    decreases |fat| - from
  {
    if from >= |fat| then 0
    else if Link(fat[from]) == CLUSTER_FREE then from
    else FirstFree(fat, from + 1)
  }

  /** One operation on the table as an array of words, and its result (0 for success). */
  ghost function Step(fat: seq<nat>, op: Op): (seq<nat>, nat) {
    match op
    case Get(c) => (fat, if Live(fat, c) then Link(fat[c]) else CLUSTER_EOF_MIN)
    case Set(c, next) => if Live(fat, c) then (fat[c := WithLink(fat[c], next)], 0) else (fat, 1)
    case Alloc =>
      var c := FirstFree(fat, 2);
      if c == 0 then (fat, 0) else (fat[c := WithLink(fat[c], CLUSTER_EOF_MIN)], c)
    case Free(c) => if c < 2 then (fat, 1) else (Freed(fat, c), 0)
  }

  ghost function RunModel(fat: seq<nat>, ops: seq<Op>): (seq<nat>, seq<nat>) {
    if ops == [] then (fat, [])
    else
      var (fat1, rs) := RunModel(fat, ops[..|ops| - 1]);
      var (fat2, r) := Step(fat1, ops[|ops| - 1]);
      (fat2, rs + [r])
  }

  /** Every run of get, set, alloc and free through the cache is the run on the array of words; the
      cache stays coherent, the copies stay equal and no data sector is touched. */
  method Run(v: Volume, ops: seq<Op>) returns (rs: seq<nat>)
    requires v.Valid()
    modifies v, v.device
    ensures v.Valid() && SameOutside(v.g, old(v.device.blocks), v.device.blocks)
    ensures RunModel(old(v.Table()), ops) == (v.Table(), rs)
  {
    rs := [];
    for i := 0 to |ops|
      invariant v.Valid() && SameOutside(v.g, old(v.device.blocks), v.device.blocks)
      invariant RunModel(old(v.Table()), ops[..i]) == (v.Table(), rs)
    {
      assert ops[..i + 1][..i] == ops[..i] && ops[..i + 1][i] == ops[i];
      var r := RunOne(v, ops[i]);
      rs := rs + [r];
    }
    assert ops[..|ops|] == ops;
  }

  method RunOne(v: Volume, op: Op) returns (r: nat)
    requires v.Valid()
    modifies v, v.device
    ensures v.Valid() && SameOutside(v.g, old(v.device.blocks), v.device.blocks)
    ensures Step(old(v.Table()), op) == (v.Table(), r)
  {
    match op
    case Get(c) =>
      r := v.GetNextCluster(c);
    case Set(c, next) =>
      var err := v.SetNextCluster(c, next);
      r := if err == Ok then 0 else 1;
    case Alloc =>
      r := v.AllocCluster();
    case Free(c) =>
      var err := v.FreeCluster(c);
      r := if err == Ok then 0 else 1;
  }
}
