/** The mounted volume: the partition, the in-memory allocation bitmap and the superblock fields of
    fs/exfat/exfat_cluster.c, with the routines that touch one FAT entry, one bitmap bit or one cluster.

    Every device access may fail.  A failed write leaves the partition as it was.  Failures are counted,
    so that a contract can say what holds when none occurred.
 */
module Volumes {
  import opened Bytes
  import opened Layout
  import opened Bitmap
  import opened Chains

  datatype Errno = OK | EINVAL | EIO | ENOSPC | EFBIG | EISDIR
  datatype Next = Next(clu: nat) | NoNext(err: Errno)

  const UNTRACKED: nat := 0xFFFF_FFFF

  /** What exfat_get_next_cluster returns for a link read without a fault. */
  function NextResult(link: Link): Next {
    match link
    case Eof => Next(EOF_CLUSTER)
    case To(c) => Next(c)
    case Broken => NoNext(EIO)
  }

  predicate Mounted(g: Geometry, lay: Map) {
    g.Ok() && lay == g.Regions()
  }

  /** The on-disk bitmap is a run of `span` whole clusters from `clu`, of which it uses `sectors` sectors. */
  predicate Placed(g: Geometry, clu: nat, span: nat, sectors: nat) {
    && FIRST_CLUSTER <= clu && clu + span <= g.numClusters && sectors <= span * g.spc
    && g.numClusters - FIRST_CLUSTER <= 8 * SectorAddr(g, sectors)
  }

  lemma MountedFacts(g: Geometry, lay: Map)
    requires Mounted(g, lay)
    ensures lay.Ok() && 32 <= g.blockSize && 1 <= g.spc && lay.numClusters == g.numClusters && lay.numFats == g.numFats
    ensures 1 <= g.numFats <= 2 && g.numClusters < BAD_CLUSTER
  {
    RegionsOk(g);
  }

  /** The cluster heap with the `span` clusters from `clu` blanked out. */
  function Blank(data: seq<seq<byte>>, clu: nat, span: nat): (r: seq<seq<byte>>)
    ensures |r| == |data|
    ensures forall c :: 0 <= c < |data| ==> r[c] == if clu <= c < clu + span then [] else data[c]
  {
    seq(|data|, c requires 0 <= c < |data| => if clu <= c < clu + span then [] else data[c])
  }

  lemma BlankPut(data: seq<seq<byte>>, clu: nat, span: nat, c: nat, v: seq<byte>)
    requires c < |data|
    ensures Blank(data[c := v], clu, span)
         == if clu <= c < clu + span then Blank(data, clu, span) else Blank(data, clu, span)[c := v]
  {
  }

  /** The on-disk copy of sector s of the bitmap agrees with memory. */
  predicate SectorAgrees(g: Geometry, clu: nat, data: seq<seq<byte>>, amap: seq<byte>, s: nat) {
    && g.spc > 0 && RunCluster(g, clu, s) < |data|
    && SectorOff(g, s) + g.blockSize <= |data[RunCluster(g, clu, s)]|
    && SectorAddr(g, s) + g.blockSize <= |amap|
    && data[RunCluster(g, clu, s)][SectorOff(g, s)..SectorOff(g, s) + g.blockSize]
       == amap[SectorAddr(g, s)..SectorAddr(g, s) + g.blockSize]
  }

  predicate MapAgrees(g: Geometry, clu: nat, sectors: nat, data: seq<seq<byte>>, amap: seq<byte>) {
    forall s :: 0 <= s < sectors ==> SectorAgrees(g, clu, data, amap, s)
  }

  /** After a change, sector s agrees, and so does every other sector that agreed before. */
  ghost predicate AgreesFrom(g: Geometry, clu: nat, data: seq<seq<byte>>, data': seq<seq<byte>>, amap: seq<byte>, s: nat) {
    && SectorAgrees(g, clu, data', amap, s)
    && forall t: nat :: t != s && SectorAgrees(g, clu, data, amap, t) ==> SectorAgrees(g, clu, data', amap, t)
  }

  lemma FlushAgrees(g: Geometry, lay: Map, clu: nat, data: seq<seq<byte>>, amap: seq<byte>, s: nat)
    requires Mounted(g, lay) && g.spc > 0 && RunCluster(g, clu, s) < |data|
    requires SectorOff(g, s) + g.blockSize <= |data[RunCluster(g, clu, s)]| && SectorAddr(g, s) + g.blockSize <= |amap|
    ensures var c, buf := RunCluster(g, clu, s), amap[SectorAddr(g, s)..SectorAddr(g, s) + g.blockSize];
            AgreesFrom(g, clu, data, data[c := Splice(data[c], SectorOff(g, s), buf)], amap, s)
  {
    hide RunCluster, SectorOff, SectorAddr, Splice;
    var c, off, b := RunCluster(g, clu, s), SectorOff(g, s), g.blockSize;
    var buf := amap[SectorAddr(g, s)..SectorAddr(g, s) + b];
    var data' := data[c := Splice(data[c], off, buf)];
    SpliceInside(data[c], off, buf, off, off + b);
    assert buf[0..b] == buf;
    forall t: nat | t != s && SectorAgrees(g, clu, data, amap, t)
      ensures SectorAgrees(g, clu, data', amap, t)
    {
      if RunCluster(g, clu, t) == c {
        SectorsApart(g, clu, s, t);
        SpliceOutside(data[c], off, buf, SectorOff(g, t), SectorOff(g, t) + b);
      }
    }
  }

  /** Changing one byte in memory leaves every other sector's agreement alone. */
  lemma PutAgrees(g: Geometry, clu: nat, data: seq<seq<byte>>, amap: seq<byte>, i: nat, v: byte, t: nat)
    requires g.blockSize > 0 && i < |amap| && t != ByteSector(g, i) && SectorAgrees(g, clu, data, amap, t)
    ensures SectorAgrees(g, clu, data, amap[i := v], t)
  {
    hide RunCluster, SectorOff, SectorAddr, ByteSector;
    ByteInSector(g, i, t);
    var lo, hi := SectorAddr(g, t), SectorAddr(g, t) + g.blockSize;
    assert amap[i := v][lo..hi] == amap[lo..hi];
  }

  lemma PutFlushAgrees(g: Geometry, clu: nat, n: nat, data: seq<seq<byte>>, data': seq<seq<byte>>,
                       amap: seq<byte>, i: nat, v: byte)
    requires g.blockSize > 0 && i < |amap| && MapAgrees(g, clu, n, data, amap)
    requires AgreesFrom(g, clu, data, data', amap[i := v], ByteSector(g, i))
    ensures MapAgrees(g, clu, n, data', amap[i := v])
  {
    hide SectorAgrees, ByteSector;
    var amap' := amap[i := v];
    forall t: nat | t < n
      ensures SectorAgrees(g, clu, data', amap', t)
    {
      if t != ByteSector(g, i) {
        PutAgrees(g, clu, data, amap, i, v, t);
      }
    }
  }

  /** Changes outside the clusters of the on-disk bitmap leave its agreement alone. */
  lemma AgreesFrame(g: Geometry, clu: nat, span: nat, n: nat, data: seq<seq<byte>>, data': seq<seq<byte>>, amap: seq<byte>)
    requires g.spc > 0 && |data| == |data'| && MapAgrees(g, clu, n, data, amap)
    requires forall s: nat :: s < n ==> clu <= RunCluster(g, clu, s) < clu + span
    requires forall c :: clu <= c < clu + span && c < |data| ==> data'[c] == data[c]
    ensures MapAgrees(g, clu, n, data', amap)
  {
    hide RunCluster, SectorOff, SectorAddr;
    forall s: nat | s < n
      ensures SectorAgrees(g, clu, data', amap, s)
    {
      assert SectorAgrees(g, clu, data, amap, s);
    }
  }

  class Volume {
    const geo: Geometry
    const lay: Map             // the same geometry in bytes
    const mapClu: nat          // first cluster of the on-disk bitmap
    const mapSectors: nat
    const mapSpan: nat         // clusters the on-disk bitmap occupies
    var disk: seq<byte>        // the partition
    var amap: seq<byte>        // vol_amap
    var used: nat              // used_clusters
    var searchPtr: nat         // clu_srch_ptr
    var readFaults: nat
    var writeFaults: nat
    ghost var writes: nat      // sector writes that succeeded
    ghost var Fat: seq<u32>
    ghost var Data: seq<seq<byte>>
    ghost var Bits: seq<bool>

    /** The superblock after the boot sector is parsed and the bitmap loaded. */
    constructor (geo: Geometry, mapClu: nat, mapSpan: nat, mapSectors: nat, disk: seq<byte>, amap: seq<byte>)
      requires geo.Ok() && geo.Regions().Fits(disk) && Placed(geo, mapClu, mapSpan, mapSectors)
      requires |amap| == SectorAddr(geo, mapSectors) && geo.Regions().numClusters == geo.numClusters
      ensures Valid() && this.geo == geo && this.disk == disk && this.amap == amap
      ensures this.mapClu == mapClu && this.mapSpan == mapSpan && this.mapSectors == mapSectors
      ensures used == UNTRACKED && searchPtr == FIRST_CLUSTER && readFaults == writeFaults == writes == 0
    {
      hide Map.ClusterAt;
      this.geo, this.lay, this.mapClu, this.mapSpan, this.mapSectors := geo, geo.Regions(), mapClu, mapSpan, mapSectors;
      this.disk, this.amap, this.used, this.searchPtr := disk, amap, UNTRACKED, FIRST_CLUSTER;
      this.readFaults, this.writeFaults, this.writes := 0, 0, 0;
      this.Fat, this.Data := FatOf(geo.Regions(), disk), DataOf(geo.Regions(), disk);
      this.Bits := BitsOf(amap, geo.numClusters);
    }

    ghost predicate Valid()
      reads this`disk, this`amap, this`Fat, this`Data, this`Bits
    {
      && Mounted(geo, lay) && lay.Fits(disk)
      && Placed(geo, mapClu, mapSpan, mapSectors) && |amap| == SectorAddr(geo, mapSectors)
      && lay.numClusters == geo.numClusters
      && Fat == FatOf(lay, disk) && Data == DataOf(lay, disk) && Bits == BitsOf(amap, geo.numClusters)
    }

    /** used_clusters is untracked or at most the number of data clusters. */
    ghost predicate UsedOk()
      reads this`used
    {
      used == UNTRACKED || used + FIRST_CLUSTER <= geo.numClusters
    }

    /** used_clusters is untracked or exactly the number of marked data clusters. */
    ghost predicate UsedExact()
      reads this`used, this`Bits
    {
      used == UNTRACKED || used + CountFree(Bits) + FIRST_CLUSTER == geo.numClusters
    }

    /** Clusters that hold the on-disk bitmap. */
    ghost predicate Reserved(c: int) { mapClu <= c < mapClu + mapSpan }

    /** The contents of every other cluster. */
    ghost function UserData(): seq<seq<byte>>
      reads this`Data
    {
      Blank(Data, mapClu, mapSpan)
    }

    // ----- the device

    method ReadSectors(sector: nat, count: nat) returns (ok: bool, buf: seq<byte>)
      requires SectorAddr(geo, sector) + SectorAddr(geo, count) <= |disk|
      modifies this`readFaults
      ensures ok ==> buf == disk[SectorAddr(geo, sector)..SectorAddr(geo, sector) + SectorAddr(geo, count)]
      ensures readFaults == old(readFaults) + (if ok then 0 else 1)
    {
      hide SectorAddr;
      ok, buf := *, [];
      if ok {
        buf := disk[SectorAddr(geo, sector)..SectorAddr(geo, sector) + SectorAddr(geo, count)];
      } else {
        readFaults := readFaults + 1;
      }
    }

    method WriteSectors(sector: nat, buf: seq<byte>) returns (ok: bool)
      requires SectorAddr(geo, sector) + |buf| <= |disk|
      modifies this`disk, this`writeFaults, this`writes
      ensures disk == if ok then Splice(old(disk), SectorAddr(geo, sector), buf) else old(disk)
      ensures writeFaults == old(writeFaults) + (if ok then 0 else 1) && writes == old(writes) + (if ok then 1 else 0)
    {
      hide SectorAddr;
      ok := *;
      if ok {
        disk := Splice(disk, SectorAddr(geo, sector), buf);
        writes := writes + 1;
      } else {
        writeFaults := writeFaults + 1;
      }
    }

    lemma FatSectorHere(mirror: bool, c: nat)
      requires Valid() && lay.InHeap(c) && (mirror ==> geo.numFats == 2)
      ensures geo.blockSize > 0 && SectorAddr(geo, 1) == geo.blockSize
      ensures SectorAddr(geo, EntrySector(geo, mirror, c)) + EntryOff(geo, c)
           == (if mirror then lay.fat2Base else lay.fatBase) + 4 * c
      ensures SectorAddr(geo, EntrySector(geo, mirror, c)) + geo.blockSize <= lay.heapBase <= |disk|
      ensures EntryOff(geo, c) + 4 <= geo.blockSize && EntryOff(geo, c) % 4 == 0 && EntryOff(geo, c) <= 4 * c
      ensures geo.blockSize % 4 == 0
    {
      hide EntrySector, EntryOff, SectorAddr, Geometry.Regions, Geometry.Ok, Valid;
      WhereHere();
      FatSector(geo, mirror, c);
    }

    lemma WhereHere()
      requires Valid()
      ensures geo.Ok() && lay == geo.Regions() && lay.numClusters == geo.numClusters && lay.heapBase <= |disk|
    {
      hide FatOf, DataOf, BitsOf, SectorAddr, Map.ClusterAt;
    }

    // ----- one FAT entry

    /** exfat_get_next_cluster: range check, sector read, and the entry's link. */
    method GetNext(cur: nat) returns (r: Next)
      requires Valid()
      modifies this`readFaults
      ensures Valid()
      ensures !lay.InHeap(cur) ==> r == NoNext(EIO) && readFaults == old(readFaults)
      ensures lay.InHeap(cur) ==> r == NoNext(EIO) || r == NextResult(NextOf(Fat, cur))
      ensures lay.InHeap(cur) && readFaults == old(readFaults) ==> r == NextResult(NextOf(Fat, cur))
      ensures old(readFaults) <= readFaults <= old(readFaults) + 1 && (r.Next? ==> readFaults == old(readFaults))
    {
      hide SectorAddr, EntrySector, EntryOff, Mounted, Placed, DataOf, BitsOf, Map.ClusterAt;
      if cur < FIRST_CLUSTER || cur >= geo.numClusters {
        return NoNext(EIO);
      }
      FatSectorHere(false, cur);
      var at, inSector := SectorAddr(geo, EntrySector(geo, false, cur)), EntryOff(geo, cur);
      var ok, buf := ReadSectors(EntrySector(geo, false, cur), 1);
      if !ok {
        return NoNext(EIO);
      }
      SliceOfSlice(disk, at, at + geo.blockSize, inSector, inSector + 4);
      var raw := Of32(buf[inSector..inSector + 4]);
      assert raw == Fat[cur];
      var mapped := if raw > BAD_CLUSTER then EOF_CLUSTER else raw;
      if mapped == FREE_CLUSTER || mapped == BAD_CLUSTER {
        return NoNext(EIO);
      }
      if mapped != EOF_CLUSTER && (mapped < FIRST_CLUSTER || mapped >= geo.numClusters) {
        return NoNext(EIO);
      }
      return Next(mapped);
    }

    /** Values exfat_ent_set accepts. */
    predicate Storable(v: nat) {
      v != BAD_CLUSTER && (v == EOF_CLUSTER || v == FREE_CLUSTER || FIRST_CLUSTER <= v < geo.numClusters)
    }

    /** The second FAT, when there is one, holds the same entries. */
    ghost predicate Mirrored()
      reads this`disk, this`amap, this`Fat, this`Data, this`Bits
      requires Valid()
    {
      geo.numFats == 2 ==> MirrorFits() && Table(disk, lay.fat2Base, lay.numClusters) == Fat
    }

    /** The entries of the second FAT. */
    ghost function SecondTable(): seq<u32>
      reads this`disk
    {
      if MirrorFits() then Table(disk, lay.fat2Base, lay.numClusters) else []
    }

    ghost predicate MirrorFits()
      reads this`disk
    {
      lay.fat2Base + 4 * lay.numClusters <= |disk|
    }

    /** Read-modify-write of the entry's sector in the first FAT. */
    method WriteEntry(loc: nat, value: u32) returns (ok: bool, buf: seq<byte>)
      requires Valid() && lay.InHeap(loc)
      modifies this`disk, this`Fat, this`readFaults, this`writeFaults, this`writes
      ensures Valid() && |disk| == old(|disk|)
      ensures Fat == if ok then old(Fat)[loc := value] else old(Fat)
      ensures ok ==> geo.blockSize > 0 && disk == Splice(old(disk), lay.fatBase + 4 * loc, Le32(value))
      ensures ok ==> var at := SectorAddr(geo, EntrySector(geo, false, loc));
                     at + geo.blockSize <= |disk| && buf == disk[at..at + geo.blockSize]
      ensures readFaults >= old(readFaults) && writeFaults >= old(writeFaults)
      ensures readFaults + writeFaults == old(readFaults + writeFaults) + (if ok then 0 else 1)
      ensures writes == old(writes) + (if ok then 1 else 0) && (!ok ==> disk == old(disk))
    {
      hide SectorAddr, EntrySector, EntryOff, Mounted, Placed, BitsOf, Map.ClusterAt, Splice, Le32, DataOf, FatOf;
      FatSectorHere(false, loc);
      var at, off := SectorAddr(geo, EntrySector(geo, false, loc)), EntryOff(geo, loc);
      ok, buf := ReadSectors(EntrySector(geo, false, loc), 1);
      if !ok {
        return;
      }
      buf := Splice(buf, off, Le32(value));
      ReadModifyWrite(disk, at, geo.blockSize, off, Le32(value));
      EntryWrite(lay, disk, loc, value);
      SpliceInside(disk, at, buf, at, at + geo.blockSize);
      assert buf[0..geo.blockSize] == buf;
      ok := WriteSectors(EntrySector(geo, false, loc), buf);
      if ok {
        Fat := Fat[loc := value];
      }
    }

    /** Writes the patched sector over the mirror's copy of it. */
    method WriteMirror(loc: nat, buf: seq<byte>, ghost before: seq<byte>, ghost value: u32) returns (ok: bool)
      requires Valid() && lay.InHeap(loc) && geo.numFats == 2 && lay.Fits(before) && |before| == |disk|
      requires geo.blockSize > 0 && |buf| == geo.blockSize
      requires var at := SectorAddr(geo, EntrySector(geo, false, loc));
               at + geo.blockSize <= |disk| && buf == disk[at..at + geo.blockSize]
      requires MirrorFits() && disk == Splice(before, lay.fatBase + 4 * loc, Le32(value))
      modifies this`disk, this`writeFaults, this`writes
      ensures Valid() && |disk| == old(|disk|)
      ensures ok && Table(before, lay.fat2Base, lay.numClusters) == FatOf(lay, before) ==> Mirrored()
      ensures writeFaults == old(writeFaults) + (if ok then 0 else 1) && writes == old(writes) + (if ok then 1 else 0)
      ensures !ok ==> disk == old(disk)
    {
      hide SectorAddr, EntrySector, EntryOff, Mounted, Placed, BitsOf, Map.ClusterAt, Splice, Le32, DataOf, Entry;
      MountedHere();
      FatSectorHere(false, loc);
      FatSectorHere(true, loc);
      var at2 := SectorAddr(geo, EntrySector(geo, true, loc));
      TableApart(disk, at2, buf, lay.fatBase, lay.numClusters);
      DataApart(lay, disk, at2, buf);
      if Table(before, lay.fat2Base, lay.numClusters) == FatOf(lay, before) {
        var n := lay.numClusters;
        TableSet(before, lay.fatBase, n, loc, value);
        TableApart(before, lay.fatBase + 4 * loc, Le32(value), lay.fat2Base, n);
        MirrorBlock(disk, lay.fatBase, lay.fat2Base, n, 4 * loc - EntryOff(geo, loc), buf);
      }
      ok := WriteSectors(EntrySector(geo, true, loc), buf);
    }

    /** exfat_ent_set: range checks, the first FAT, then the same sector of the mirror.  With one FAT a
        failure changes nothing; with two, a failed mirror write leaves the first FAT already changed. */
    method EntSet(loc: nat, value: u32) returns (e: Errno)
      requires Valid()
      modifies this`disk, this`Fat, this`readFaults, this`writeFaults, this`writes
      ensures Valid() && |disk| == old(|disk|)
      ensures e == if !lay.InHeap(loc) || !Storable(value) then EINVAL
                   else if readFaults + writeFaults == old(readFaults + writeFaults) then OK else EIO
      ensures e == OK ==> Fat == old(Fat)[loc := value]
      ensures e == EINVAL ==> Fat == old(Fat) && disk == old(disk)
      ensures e == OK ==> writes == old(writes) + geo.numFats
      ensures e == EIO ==>
                if writes == old(writes) then Fat == old(Fat) && disk == old(disk)
                else && geo.numFats == 2 && writes == old(writes) + 1 && writeFaults == old(writeFaults) + 1
                     && Fat == old(Fat)[loc := value] && SecondTable() == old(SecondTable())
      ensures e == OK && old(Mirrored()) ==> Mirrored()
      ensures readFaults >= old(readFaults) && writeFaults >= old(writeFaults)
      ensures e == EIO ==> readFaults + writeFaults == old(readFaults + writeFaults) + 1
    {
      hide SectorAddr, EntrySector, EntryOff, Mounted, Placed, BitsOf, Map.ClusterAt, Splice, Le32, DataOf, Table;
      MountedHere();
      if loc < FIRST_CLUSTER || loc >= geo.numClusters || !Storable(value) {
        return EINVAL;
      }
      var ok, buf := WriteEntry(loc, value);
      if !ok {
        return EIO;
      }
      if geo.numFats == 2 {
        TableApart(old(disk), lay.fatBase + 4 * loc, Le32(value), lay.fat2Base, lay.numClusters);
        ok := WriteMirror(loc, buf, old(disk), value);
        if !ok {
          return EIO;
        }
      }
      return OK;
    }

    lemma MountedHere()
      requires Valid()
      ensures lay.Ok() && 32 <= geo.blockSize && 1 <= geo.spc && lay.numClusters == geo.numClusters < BAD_CLUSTER
      ensures geo.numFats == lay.numFats && 1 <= geo.numFats <= 2
      ensures FIRST_CLUSTER <= geo.numClusters <= MAX_CHAIN_LEN + FIRST_CLUSTER
      ensures |Fat| == geo.numClusters == |Bits| == |Data| && Bits[0] && Bits[1]
      ensures FIRST_CLUSTER <= mapClu && mapClu + mapSpan <= geo.numClusters
    {
      MountedFacts(geo, lay);
    }

    // ----- one bitmap bit

    lemma MapSectorHere(s: nat)
      requires Valid() && s < mapSectors
      ensures geo.spc > 0 && lay.InHeap(RunCluster(geo, mapClu, s)) && Reserved(RunCluster(geo, mapClu, s))
      ensures FIRST_CLUSTER <= mapClu
      ensures SectorAddr(geo, ClusterSector(geo, mapClu) + s)
           == lay.ClusterAt(RunCluster(geo, mapClu, s)) + SectorOff(geo, s)
      ensures SectorOff(geo, s) + geo.blockSize <= lay.clusterSize == |Data[RunCluster(geo, mapClu, s)]|
      ensures SectorAddr(geo, s) + geo.blockSize <= |amap|
    {
      hide FatOf, BitsOf, Map.ClusterAt, SectorOff, RunCluster, ClusterSector;
      RunSector(geo, mapClu, mapSpan, s);
      ScaleLe(s + 1, mapSectors, geo.blockSize);
      assert SectorAddr(geo, s + 1) == SectorAddr(geo, s) + geo.blockSize;
    }

    /** The on-disk bitmap agrees with the one in memory. */
    ghost predicate Synced()
      reads this`Data, this`amap
    {
      MapAgrees(geo, mapClu, mapSectors, Data, amap)
    }

    /** Writing a cluster outside the on-disk bitmap does not disturb it. */
    lemma SyncedThrough(data': seq<seq<byte>>)
      requires Valid() && Synced() && |data'| == |Data|
      requires forall c :: 0 <= c < |Data| && Reserved(c) ==> data'[c] == Data[c]
      ensures MapAgrees(geo, mapClu, mapSectors, data', amap)
    {
      hide Valid, Synced, MapAgrees, RunCluster;
      MountedHere();
      forall s: nat | s < mapSectors
        ensures Reserved(RunCluster(geo, mapClu, s))
      {
        MapSectorHere(s);
      }
      SyncedSays();
      AgreesFrame(geo, mapClu, mapSpan, mapSectors, Data, data', amap);
    }

    lemma SyncedSays()
      ensures Synced() <==> MapAgrees(geo, mapClu, mapSectors, Data, amap)
    {
    }

    /** Writes sector s of the in-memory bitmap to its place in the cluster heap. */
    method FlushSector(s: nat) returns (ok: bool)
      requires Valid() && s < mapSectors
      modifies this`disk, this`Data, this`writeFaults, this`writes
      ensures Valid() && |disk| == old(|disk|)
      ensures UserData() == old(UserData())
      ensures ok ==> AgreesFrom(geo, mapClu, old(Data), Data, amap, s)
      ensures writeFaults == old(writeFaults) + (if ok then 0 else 1)
      ensures !ok ==> Data == old(Data)
    {
      hide SectorAddr, Mounted, Placed, BitsOf, Map.ClusterAt, Splice, FatOf, DataOf, SectorOff, RunCluster;
      hide ClusterSector, AgreesFrom, Blank;
      MapSectorHere(s);
      var c, off := RunCluster(geo, mapClu, s), SectorOff(geo, s);
      var buf := amap[SectorAddr(geo, s)..SectorAddr(geo, s) + geo.blockSize];
      ClusterWrite(lay, disk, c, off, buf);
      FlushAgrees(geo, lay, mapClu, Data, amap, s);
      ok := WriteSectors(ClusterSector(geo, mapClu) + s, buf);
      if ok {
        BlankPut(Data, mapClu, mapSpan, c, Splice(Data[c], off, buf));
        Data := Data[c := Splice(Data[c], off, buf)];
      }
    }

    lemma AmapCovers()
      requires Valid()
      ensures geo.numClusters - FIRST_CLUSTER <= 8 * |amap|
    {
    }

    lemma MapByteHere(c: nat)
      requires Valid() && lay.InHeap(c)
      ensures (c - FIRST_CLUSTER) / 8 < |amap| && geo.blockSize > 0
      ensures geo.numClusters - FIRST_CLUSTER <= 8 * |amap|
      ensures ByteSector(geo, (c - FIRST_CLUSTER) / 8) < mapSectors
    {
      hide SectorAddr, BitsOf, FatOf, DataOf, Map.ClusterAt, ByteSector;
      assert (c - FIRST_CLUSTER) / 8 < |amap|;
      SectorBelow(geo, (c - FIRST_CLUSTER) / 8, mapSectors);
    }

    /** exfat_set_bitmap and exfat_clear_bitmap, which differ in the bit they store: the in-memory bit
        changes whether or not the write of its sector succeeds. */
    method StoreBit(c: nat, v: bool) returns (ok: bool)
      requires Valid() && lay.InHeap(c)
      modifies this`amap, this`Bits, this`disk, this`Data, this`writeFaults, this`writes
      ensures Valid() && |disk| == old(|disk|)
      ensures Bits == old(Bits)[c := v]
      ensures UserData() == old(UserData())
      ensures ok && old(Synced()) ==> Synced()
      ensures writeFaults == old(writeFaults) + (if ok then 0 else 1)
    {
      hide SectorAddr, Mounted, Placed, Map.ClusterAt, FatOf, DataOf;
      hide ByteSector, PutByte, AgreesFrom, MapAgrees, BitAt, Blank;
      MapByteHere(c);
      var i := (c - FIRST_CLUSTER) / 8;
      PutClusterBits(amap, geo.numClusters, c, v);
      amap := amap[i := PutByte(amap[i], (c - FIRST_CLUSTER) % 8, v)];
      Bits := Bits[c := v];
      ok := FlushSector(ByteSector(geo, i));
      if ok && old(Synced()) {
        PutFlushAgrees(geo, mapClu, mapSectors, old(Data), Data, old(amap), i, amap[i]);
      }
    }

    method SetBitmap(c: nat) returns (e: Errno)
      requires Valid()
      modifies this`amap, this`Bits, this`disk, this`Data, this`writeFaults, this`writes
      ensures Valid() && |disk| == old(|disk|)
      ensures e == if !lay.InHeap(c) then EINVAL else if writeFaults == old(writeFaults) then OK else EIO
      ensures Bits == if lay.InHeap(c) then old(Bits)[c := true] else old(Bits)
      ensures UserData() == old(UserData())
      ensures e != EIO && old(Synced()) ==> Synced()
      ensures writeFaults == old(writeFaults) + (if e == EIO then 1 else 0)
    {
      hide SectorAddr, Mounted, Placed, Map.ClusterAt, FatOf, DataOf, BitsOf, MapAgrees, Blank;
      if c < FIRST_CLUSTER || c >= geo.numClusters {
        return EINVAL;
      }
      var ok := StoreBit(c, true);
      return if ok then OK else EIO;
    }

    method ClearBitmap(c: nat) returns (e: Errno)
      requires Valid()
      modifies this`amap, this`Bits, this`disk, this`Data, this`writeFaults, this`writes
      ensures Valid() && |disk| == old(|disk|)
      ensures e == if !lay.InHeap(c) then EINVAL else if writeFaults == old(writeFaults) then OK else EIO
      ensures Bits == if lay.InHeap(c) then old(Bits)[c := false] else old(Bits)
      ensures UserData() == old(UserData())
      ensures e != EIO && old(Synced()) ==> Synced()
      ensures writeFaults == old(writeFaults) + (if e == EIO then 1 else 0)
    {
      hide SectorAddr, Mounted, Placed, Map.ClusterAt, FatOf, DataOf, BitsOf, MapAgrees, Blank;
      if c < FIRST_CLUSTER || c >= geo.numClusters {
        return EINVAL;
      }
      var ok := StoreBit(c, false);
      return if ok then OK else EIO;
    }

    // ----- one cluster of the heap

    lemma ClusterSectorHere(c: nat)
      requires Valid() && lay.InHeap(c)
      ensures SectorAddr(geo, ClusterSector(geo, c)) == lay.ClusterAt(c)
      ensures SectorAddr(geo, geo.spc) == lay.clusterSize
      ensures lay.ClusterAt(c) + lay.clusterSize <= |disk|
      ensures disk[lay.ClusterAt(c)..lay.ClusterAt(c) + lay.clusterSize] == Data[c]
    {
      hide BitsOf, FatOf, ClusterSector, Map.ClusterAt;
      ClusterSectorAddr(geo, c);
      ClusterBounds(lay, c);
    }

    lemma UserHere(c: nat)
      requires Valid() && lay.InHeap(c) && !Reserved(c)
      ensures |UserData()| == geo.numClusters == |Data| && UserData()[c] == Data[c] && |Data[c]| == lay.clusterSize > 0
    {
      MountedHere();
      hide FatOf, BitsOf, Map.ClusterAt, SectorAddr;
    }

    method ReadCluster(c: nat) returns (ok: bool, buf: seq<byte>)
      requires Valid() && lay.InHeap(c)
      modifies this`readFaults
      ensures Valid()
      ensures ok ==> buf == Data[c]
      ensures readFaults == old(readFaults) + (if ok then 0 else 1)
    {
      hide SectorAddr, Mounted, Placed, Map.ClusterAt, FatOf, DataOf, BitsOf, ClusterSector, Blank;
      ClusterSectorHere(c);
      ok, buf := ReadSectors(ClusterSector(geo, c), geo.spc);
    }

    method WriteCluster(c: nat, buf: seq<byte>) returns (ok: bool)
      requires Valid() && lay.InHeap(c) && |buf| == lay.clusterSize
      modifies this`disk, this`Data, this`writeFaults, this`writes
      ensures Valid() && |disk| == old(|disk|)
      ensures Data == if ok then old(Data)[c := buf] else old(Data)
      ensures UserData() == if ok && !Reserved(c) then old(UserData())[c := buf] else old(UserData())
      ensures !Reserved(c) && old(Synced()) ==> Synced()
      ensures writeFaults == old(writeFaults) + (if ok then 0 else 1)
    {
      hide SectorAddr, Mounted, Placed, Map.ClusterAt, FatOf, DataOf, BitsOf, ClusterSector, Blank, MapAgrees;
      ClusterSectorHere(c);
      if !Reserved(c) && Synced() {
        SyncedThrough(Data[c := buf]);
      }
      ClusterWrite(lay, disk, c, 0, buf);
      assert Splice(Data[c], 0, buf) == buf;
      ok := WriteSectors(ClusterSector(geo, c), buf);
      if ok {
        BlankPut(Data, mapClu, mapSpan, c, buf);
        Data := Data[c := buf];
      }
    }

    /** exfat_zeroed_cluster: sector by sector; a failure leaves the sectors before it zeroed. */
    method ZeroCluster(c: nat) returns (ok: bool)
      requires Valid() && lay.InHeap(c)
      modifies this`disk, this`Data, this`writeFaults, this`writes
      ensures Valid() && |disk| == old(|disk|) && |Data| == |old(Data)|
      ensures forall d :: 0 <= d < |Data| && d != c ==> Data[d] == old(Data)[d]
      ensures ok ==> forall i :: 0 <= i < |Data[c]| ==> Data[c][i] == 0
      ensures !Reserved(c) && old(Synced()) ==> Synced()
      ensures writeFaults == old(writeFaults) + (if ok then 0 else 1)
    {
      hide SectorAddr, Mounted, Placed, Map.ClusterAt, FatOf, DataOf, BitsOf, ClusterSector, Blank, Splice, MapAgrees;
      MountedHere();
      ClusterSectorHere(c);
      NoSectors(geo);
      var zeros: seq<byte> := seq(geo.blockSize, _ => 0);
      ok := true;
      for s := 0 to geo.spc
        invariant Valid() && |disk| == old(|disk|) && |Data| == |old(Data)| && ok
        invariant forall d :: 0 <= d < |Data| && d != c ==> Data[d] == old(Data)[d]
        invariant |Data[c]| == lay.clusterSize && SectorAddr(geo, s) <= lay.clusterSize
        invariant forall i :: 0 <= i < SectorAddr(geo, s) ==> Data[c][i] == 0
        invariant !Reserved(c) && old(Synced()) ==> Synced()
        invariant writeFaults == old(writeFaults)
      {
        SectorOfCluster(c, s);
        if !Reserved(c) && Synced() {
          SyncedThrough(Data[c := Splice(Data[c], SectorAddr(geo, s), zeros)]);
        }
        ClusterWrite(lay, disk, c, SectorAddr(geo, s), zeros);
        ok := WriteSectors(ClusterSector(geo, c) + s, zeros);
        if !ok {
          return;
        }
        SpliceZeros(Data[c], SectorAddr(geo, s), zeros);
        Data := Data[c := Splice(Data[c], SectorAddr(geo, s), zeros)];
      }
    }

    lemma SectorOfCluster(c: nat, s: nat)
      requires Valid() && lay.InHeap(c) && s < geo.spc
      ensures SectorAddr(geo, ClusterSector(geo, c) + s) == lay.ClusterAt(c) + SectorAddr(geo, s)
      ensures SectorAddr(geo, s + 1) == SectorAddr(geo, s) + geo.blockSize <= lay.clusterSize
    {
      hide FatOf, BitsOf, DataOf, Map.ClusterAt, ClusterSector, SectorAddr;
      SectorInCluster(geo, c, s);
    }
  }

  lemma NoSectors(g: Geometry)
    ensures SectorAddr(g, 0) == 0
  {
  }

  lemma SpliceZeros(d: seq<byte>, at: nat, zeros: seq<byte>)
    requires at + |zeros| <= |d| && (forall i :: 0 <= i < |zeros| ==> zeros[i] == 0) && forall i :: 0 <= i < at ==> d[i] == 0
    ensures forall i :: 0 <= i < at + |zeros| ==> Splice(d, at, zeros)[i] == 0
  {
  }
}
