/** Mounting: the boot sector of fs/exfat/exfat_module.c, the allocation bitmap and its count of
    fs/exfat/exfat_cluster.c, put together into a mounted volume. */
module Mounts {
  import opened Bytes
  import opened Layout
  import opened Bitmap
  import opened Chains
  import opened Volumes
  import opened Contents
  import opened Counting
  import opened Boot

  /** Bytes, sectors and clusters of a bitmap with a bit for each of `data` clusters. */
  function MapBytes(data: nat): nat
    requires data > 0
  {
    (data - 1) / 8 + 1
  }

  function MapSectors(g: Geometry): nat
    requires g.numClusters > FIRST_CLUSTER && g.blockSize > 0
  {
    CountFor(MapBytes(g.numClusters - FIRST_CLUSTER), g.blockSize)
  }

  function MapSpan(g: Geometry): nat
    requires g.numClusters > FIRST_CLUSTER && g.blockSize > 0 && g.spc > 0
  {
    CountFor(MapSectors(g), g.spc)
  }

  lemma MapBytesCover(data: nat)
    requires data > 0
    ensures data <= 8 * MapBytes(data) < data + 8
  {
  }

  /** The sectors that exfat_load_bitmap reads hold a bit for every cluster. */
  lemma MapIsPlaced(g: Geometry, clu: nat)
    requires g.Ok() && g.numClusters > FIRST_CLUSTER && FIRST_CLUSTER <= clu && clu + MapSpan(g) <= g.numClusters
    ensures Placed(g, clu, MapSpan(g), MapSectors(g))
  {
    hide CountFor, MapBytes;
    var n := g.numClusters - FIRST_CLUSTER;
    MapBytesCover(n);
    CountForCovers(MapBytes(n), g.blockSize);
    CountForCovers(MapSectors(g), g.spc);
  }

  /** The bytes loaded are those of the on-disk bitmap. */
  lemma LoadedIsSynced(vol: Volume)
    requires vol.Valid()
    requires FIRST_CLUSTER <= vol.mapClu
    requires var at := SectorAddr(vol.geo, ClusterSector(vol.geo, vol.mapClu));
             at + |vol.amap| <= |vol.disk| && vol.amap == vol.disk[at..at + |vol.amap|]
    ensures vol.Synced()
  {
    hide Volume.Valid, RunCluster, SectorOff, SectorAddr, ClusterSector, Map.ClusterAt;
    vol.MountedHere();
    var g, n := vol.geo, vol.geo.blockSize;
    var at := SectorAddr(g, ClusterSector(g, vol.mapClu));
    forall s: nat | s < vol.mapSectors
      ensures SectorAgrees(g, vol.mapClu, vol.Data, vol.amap, s)
    {
      vol.MapSectorHere(s);
      var c := RunCluster(g, vol.mapClu, s);
      vol.ClusterSectorHere(c);
      AddrPlus(g, ClusterSector(g, vol.mapClu), s);
      SliceOfSlice(vol.disk, at, at + |vol.amap|, SectorAddr(g, s), SectorAddr(g, s) + n);
      SliceOfSlice(vol.disk, vol.lay.ClusterAt(c), vol.lay.ClusterAt(c) + vol.lay.clusterSize, SectorOff(g, s), SectorOff(g, s) + n);
    }
    vol.SyncedSays();
  }

  lemma AddrPlus(g: Geometry, a: nat, b: nat)
    ensures SectorAddr(g, a + b) == SectorAddr(g, a) + SectorAddr(g, b)
  {
  }

  /** The run of the bitmap lies inside the partition. */
  lemma MapInside(g: Geometry, clu: nat, disk: seq<byte>)
    requires g.Ok() && g.numClusters > FIRST_CLUSTER && g.Regions().Fits(disk)
    requires FIRST_CLUSTER <= clu && clu + MapSpan(g) <= g.numClusters
    ensures SectorAddr(g, ClusterSector(g, clu)) + SectorAddr(g, MapSectors(g)) <= |disk|
  {
    hide MapSectors, CountFor, Map.ClusterAt;
    var n := MapSectors(g);
    CountForCovers(n, g.spc);
    var sectors := ClusterSector(g, clu) + n;
    ClusterSectorAddr(g, g.numClusters);
    ScaleLe(clu + MapSpan(g) - FIRST_CLUSTER, g.numClusters - FIRST_CLUSTER, g.spc);
    RunPlus(clu - FIRST_CLUSTER, MapSpan(g), g.spc);
    ScaleLe(sectors, ClusterSector(g, g.numClusters), g.blockSize);
    AddrPlus(g, ClusterSector(g, clu), n);
  }

  lemma RunPlus(a: nat, b: nat, m: nat)
    ensures (a + b) * m == a * m + b * m
  {
  }

  /** The geometry that the fields of a boot sector describe. */
  function GeometryIn(b: seq<byte>): Geometry
    requires |b| == 512
  {
    Geometry(Pow2(SectorBits(b)), Pow2(ClusterBits(b)), NumFats(b), FatOffset(b), FatLength(b),
             FatOffset(b) as int + (if NumFats(b) == 2 then FatLength(b) as int else 0), CluOffset(b), NumClusters(b))
  }

  /** The partition reaches to the end of the cluster heap, and the bitmap lies in the heap. */
  predicate Holds(g: Geometry, disk: seq<byte>, mapClu: nat) {
    g.Ok() ==> g.Regions().Fits(disk) && (g.numClusters > FIRST_CLUSTER ==> mapClu + MapSpan(g) <= g.numClusters)
  }

  /** The bitmap's entry in the root directory names a cluster of the heap and enough bytes. */
  predicate MapOk(b: seq<byte>, mapClu: nat, mapSize: nat)
    requires |b| == 512
  {
    && FIRST_CLUSTER <= mapClu < NumClusters(b) && MapBytes(NumClusters(b) - FIRST_CLUSTER) <= mapSize
  }

  /** A mount, from the boot sector to the count of used clusters.  `mapClu` and `mapSize` are what the
      bitmap's entry in the root directory says, and `readable` is whether the bitmap can be read. */
  method Mount(disk: seq<byte>, sectorSize: nat, mapClu: nat, mapSize: nat, readable: bool) returns (vol: Volume?)
    requires |disk| >= 512 && CluCount(disk[..512]) <= MAX_CHAIN_LEN
    requires Holds(GeometryIn(disk[..512]), disk, mapClu)
    ensures vol != null <==> && WellFormed(disk[..512], sectorSize) && Fitting(disk[..512], sectorSize)
                             && MapOk(disk[..512], mapClu, mapSize) && readable
    ensures vol != null ==>
              && vol.Valid() && vol.Synced() && vol.UsedOk() && vol.UsedExact() && vol.used != UNTRACKED
              && vol.disk == disk && vol.mapClu == mapClu && vol.geo == GeometryIn(disk[..512]) && vol.geo.numClusters == CluCount(disk[..512]) as int + 2
              && vol.searchPtr == FIRST_CLUSTER && vol.readFaults == vol.writeFaults == 0
  {
    hide WellFormed, CountFor, SectorAddr, ClusterSector, CountFree, Map.ClusterAt, Pow2, Of32, Of16;
    vol := null;
    var super := Parse(disk[..512], sectorSize);
    if super == None {
      return;
    }
    var s := super.value;
    AcceptedGeometry(disk[..512], sectorSize, s);
    var g := GeometryOf(s);
    RegionsOk(g);
    if mapClu < FIRST_CLUSTER || mapClu >= g.numClusters || MapBytes(g.numClusters - FIRST_CLUSTER) > mapSize {
      return;
    }
    MapIsPlaced(g, mapClu);
    MapInside(g, mapClu, disk);
    if !readable {
      return;
    }
    var at := SectorAddr(g, ClusterSector(g, mapClu));
    var amap := disk[at..at + SectorAddr(g, MapSectors(g))];
    var v := new Volume(g, mapClu, MapSpan(g), MapSectors(g), disk, amap);
    LoadedIsSynced(v);
    v.used := CountUsed(v);
    vol := v;
  }
}
