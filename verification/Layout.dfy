/** Where things are on an exFAT partition, as flat byte addresses, and what a write to one of them
    leaves alone.

    A partition is one sequence of bytes.  The File Allocation Table, its optional mirror and the
    cluster heap are read off it by functions, so that "this write changes only FAT entry c" is a
    statement about those functions.
 */
module Layout {
  import opened Bytes

  const FIRST_CLUSTER: nat := 2
  const FREE_CLUSTER: nat := 0
  const BAD_CLUSTER: nat := 0xFFFF_FFF7
  const EOF_CLUSTER: nat := 0xFFFF_FFFF
  const MAX_CHAIN_LEN: nat := 0x1000_0000

  /** The superblock's geometry fields, in sectors. */
  datatype Geometry = Geometry(
    blockSize: nat,      // bytes per sector
    spc: nat,            // sectors per cluster
    numFats: nat,
    fatOffset: nat,      // sector of the first FAT
    fatLength: nat,      // sectors per FAT
    fat2Offset: nat,     // sector of the mirror
    cluOffset: nat,      // sector of the cluster heap
    numClusters: nat)    // data clusters plus the two reserved indices
  {
    /** What a mounted volume satisfies.  The cluster bound is the source's own scan bound; beyond it
        a bitmap scan may stop early. */
    predicate Ok() {
      && 32 <= blockSize && blockSize % 32 == 0 && 1 <= spc && 1 <= numFats <= 2
      && FIRST_CLUSTER <= numClusters <= MAX_CHAIN_LEN + FIRST_CLUSTER
      && 4 * numClusters <= fatLength * blockSize
      && fat2Offset == (if numFats == 2 then fatOffset + fatLength else fatOffset)
      && fatOffset + fatLength * numFats <= cluOffset
    }

    function Regions(): Map {
      Map(fatOffset * blockSize, fat2Offset * blockSize, cluOffset * blockSize,
          spc * blockSize, numClusters, numFats)
    }
  }

  /** The same in bytes. */
  datatype Map = Map(fatBase: nat, fat2Base: nat, heapBase: nat, clusterSize: nat, numClusters: nat, numFats: nat)
  {
    predicate Ok() {
      && FIRST_CLUSTER <= numClusters <= MAX_CHAIN_LEN + FIRST_CLUSTER && 32 <= clusterSize
      && fatBase + 4 * numClusters <= heapBase
      && (numFats == 2 ==> fatBase + 4 * numClusters <= fat2Base && fat2Base + 4 * numClusters <= heapBase)
    }

    predicate InHeap(c: int) { FIRST_CLUSTER <= c < numClusters }

    function ClusterAt(c: nat): (at: nat)
      requires FIRST_CLUSTER <= c
      ensures heapBase <= at
    {
      heapBase + (c - FIRST_CLUSTER) * clusterSize
    }

    predicate Fits(disk: seq<byte>) { Ok() && ClusterAt(numClusters) <= |disk| }
  }

  lemma ScaleLe(a: int, b: int, m: int)
    requires a <= b && 0 <= m
    ensures a * m <= b * m
  {
  }

  /** The three regions of an accepted geometry do not overlap. */
  lemma RegionsOk(g: Geometry)
    requires g.Ok()
    ensures g.Regions().Ok()
  {
    var n, b := g.fatLength, g.blockSize;
    assert (g.fatOffset + n) * b == g.fatOffset * b + n * b;
    ScaleLe(1, g.spc, b);
    if g.numFats == 2 {
      assert (g.fatOffset + n + n) * b == g.fatOffset * b + n * b + n * b;
      ScaleLe(g.fatOffset + n + n, g.cluOffset, b);
    } else {
      ScaleLe(g.fatOffset + n, g.cluOffset, b);
    }
  }

  lemma ClusterBounds(m: Map, c: nat)
    requires m.Ok() && m.InHeap(c)
    ensures m.ClusterAt(c) + m.clusterSize == m.ClusterAt(c + 1) <= m.ClusterAt(m.numClusters)
  {
    var size := m.clusterSize;
    assert (c + 1 - FIRST_CLUSTER) * size == (c - FIRST_CLUSTER) * size + size;
    ScaleLe(c + 1 - FIRST_CLUSTER, m.numClusters - FIRST_CLUSTER, size);
  }

  lemma ClustersApart(m: Map, c: nat, d: nat)
    requires m.Ok() && m.InHeap(c) && m.InHeap(d) && c < d
    ensures m.ClusterAt(c) + m.clusterSize <= m.ClusterAt(d)
  {
    ClusterBounds(m, c);
    ScaleLe(c + 1 - FIRST_CLUSTER, d - FIRST_CLUSTER, m.clusterSize);
  }

  /** Sector and offset of an aligned record, as the source computes them, is its flat address; the
      record does not straddle the sector's end. */
  lemma SectorOf(base: nat, x: nat, blockSize: nat, k: nat)
    requires 0 < k && 0 < blockSize && blockSize % k == 0 && x % k == 0
    ensures (base + x / blockSize) * blockSize + x % blockSize == base * blockSize + x
    ensures x % blockSize + k <= blockSize
    ensures x % blockSize % k == 0
  {
    var q, r := x / blockSize, x % blockSize;
    assert (base + q) * blockSize == base * blockSize + q * blockSize;
    var b := blockSize / k;
    assert blockSize == k * b;
    assert r == k * (x / k - q * b) by {
      assert x == k * (x / k);
      assert q * blockSize == k * (q * b);
    }
    MultipleBelow(x / k - q * b, b, k);
    DivModUnique(r, k, x / k - q * b, 0);
  }

  lemma MultipleBelow(a: int, b: int, k: int)
    requires 0 < k && k * a < k * b
    ensures k * a + k <= k * b
  {
    if a < b {
      ScaleLe(a + 1, b, k);
    } else {
      ScaleLe(b, a, k);
    }
  }

  /** Byte address of a sector. */
  function SectorAddr(g: Geometry, s: nat): nat { s * g.blockSize }

  /** exfat_clu_to_sector. */
  function ClusterSector(g: Geometry, c: nat): nat
    requires FIRST_CLUSTER <= c
  {
    g.cluOffset + (c - FIRST_CLUSTER) * g.spc
  }

  /** Byte offset, within its cluster, of sector s of a run of clusters. */
  function SectorOff(g: Geometry, s: nat): nat
    requires 0 < g.spc
  {
    s % g.spc * g.blockSize
  }

  lemma DivBounds(x: nat, b: nat)
    requires 0 < b
    ensures 0 <= x / b && 0 <= x % b < b
  {
  }

  /** Sector of FAT entry c, and the entry's offset in it, as the source computes them. */
  function EntrySector(g: Geometry, mirror: bool, c: nat): nat
    requires 0 < g.blockSize
  {
    DivBounds(4 * c, g.blockSize);
    (if mirror then g.fat2Offset else g.fatOffset) + 4 * c / g.blockSize
  }

  function EntryOff(g: Geometry, c: nat): nat
    requires 0 < g.blockSize
  {
    4 * c % g.blockSize
  }

  /** The sector of entry c, in either FAT, lies before the cluster heap and holds the whole entry. */
  lemma FatSector(g: Geometry, mirror: bool, c: nat)
    requires g.Ok() && c < g.numClusters && (mirror ==> g.numFats == 2)
    ensures g.blockSize > 0
    ensures SectorAddr(g, EntrySector(g, mirror, c)) + EntryOff(g, c)
         == (if mirror then g.Regions().fat2Base else g.Regions().fatBase) + 4 * c
    ensures SectorAddr(g, EntrySector(g, mirror, c)) + g.blockSize <= g.Regions().heapBase
    ensures EntryOff(g, c) + 4 <= g.blockSize && EntryOff(g, c) % 4 == 0 && EntryOff(g, c) <= 4 * c
    ensures g.blockSize % 4 == 0 && SectorAddr(g, 1) == g.blockSize
  {
    FatsBeforeHeap(g, mirror);
    EntryFits(if mirror then g.fat2Offset else g.fatOffset, g.fatLength, g.cluOffset, g.blockSize, 4 * c);
  }

  lemma EntryFits(base: nat, n: nat, heap: nat, b: nat, x: nat)
    requires 0 < b && b % 4 == 0 && x % 4 == 0 && x < n * b && base + n <= heap
    ensures (base + x / b) * b + x % b == base * b + x
    ensures (base + x / b) * b + b <= heap * b
    ensures x % b + 4 <= b && x % b % 4 == 0 && x % b <= x
  {
    SectorOf(base, x, b, 4);
    QuotientBelow(x, b, n);
    ScaleLe(base + x / b + 1, heap, b);
    assert (base + x / b + 1) * b == (base + x / b) * b + b;
  }

  lemma QuotientBelow(x: nat, b: nat, n: nat)
    requires 0 < b && x < n * b
    ensures 0 <= x / b < n && x % b <= x
  {
    var q := x / b;
    assert x == q * b + x % b;
    ScaleLe(0, q, b);
    if q >= n {
      ScaleLe(n, q, b);
    }
  }

  lemma FatsBeforeHeap(g: Geometry, mirror: bool)
    requires g.Ok() && (mirror ==> g.numFats == 2)
    ensures (if mirror then g.fat2Offset else g.fatOffset) + g.fatLength <= g.cluOffset
  {
    assert g.numFats == 2 ==> g.fatLength * g.numFats == g.fatLength + g.fatLength;
    assert g.numFats == 1 ==> g.fatLength * g.numFats == g.fatLength;
  }

  lemma ClusterSectorAddr(g: Geometry, c: nat)
    requires g.Ok() && FIRST_CLUSTER <= c
    ensures SectorAddr(g, ClusterSector(g, c)) == g.Regions().ClusterAt(c)
  {
    var b := g.blockSize;
    assert (g.cluOffset + (c - FIRST_CLUSTER) * g.spc) * b == g.cluOffset * b + (c - FIRST_CLUSTER) * g.spc * b;
    assert (c - FIRST_CLUSTER) * g.spc * b == (c - FIRST_CLUSTER) * (g.spc * b);
  }

  lemma SectorSplit(s: nat, spc: nat, blockSize: nat, span: nat)
    requires 0 < spc && s < span * spc
    ensures s * blockSize == s / spc * (spc * blockSize) + s % spc * blockSize
    ensures s % spc * blockSize + blockSize <= spc * blockSize
    ensures s / spc < span
  {
    var q, r := s / spc, s % spc;
    assert s == q * spc + r;
    assert (q * spc + r) * blockSize == q * spc * blockSize + r * blockSize;
    assert q * spc * blockSize == q * (spc * blockSize);
    assert (r + 1) * blockSize == r * blockSize + blockSize;
    ScaleLe(r + 1, spc, blockSize);
    if q >= span {
      ScaleLe(span, q, spc);
    }
  }

  /** Cluster that holds sector s of the run starting at `clu`. */
  function RunCluster(g: Geometry, clu: nat, s: nat): (c: nat)
    requires 0 < g.spc
    ensures clu <= c
  {
    DivBounds(s, g.spc);
    clu + s / g.spc
  }

  lemma RunSector(g: Geometry, clu: nat, span: nat, s: nat)
    requires g.Ok() && FIRST_CLUSTER <= clu && clu + span <= g.numClusters && s < span * g.spc
    ensures g.spc > 0 && RunCluster(g, clu, s) < clu + span
    ensures SectorAddr(g, ClusterSector(g, clu) + s) == g.Regions().ClusterAt(RunCluster(g, clu, s)) + SectorOff(g, s)
    ensures SectorOff(g, s) + g.blockSize <= g.Regions().clusterSize
  {
    SectorSplit(s, g.spc, g.blockSize, span);
    ClusterSectorAddr(g, clu);
    var q, size := s / g.spc, g.spc * g.blockSize;
    assert (ClusterSector(g, clu) + s) * g.blockSize == ClusterSector(g, clu) * g.blockSize + s * g.blockSize;
    assert (clu + q - FIRST_CLUSTER) * size == (clu - FIRST_CLUSTER) * size + q * size;
  }

  lemma SectorInCluster(g: Geometry, c: nat, s: nat)
    requires g.Ok() && FIRST_CLUSTER <= c < g.numClusters && s < g.spc
    ensures SectorAddr(g, ClusterSector(g, c) + s) == g.Regions().ClusterAt(c) + SectorAddr(g, s)
    ensures SectorAddr(g, s + 1) == SectorAddr(g, s) + g.blockSize <= g.Regions().clusterSize
  {
    RunSector(g, c, 1, s);
    DivModUnique(s, g.spc, 0, s);
    assert RunCluster(g, c, s) == c && SectorOff(g, s) == SectorAddr(g, s);
    hide ClusterSector, RunCluster, Map.ClusterAt;
    assert (s + 1) * g.blockSize == s * g.blockSize + g.blockSize;
  }

  lemma SectorsApart(g: Geometry, clu: nat, s: nat, t: nat)
    requires g.Ok() && s != t && RunCluster(g, clu, s) == RunCluster(g, clu, t)
    ensures SectorOff(g, s) + g.blockSize <= SectorOff(g, t) || SectorOff(g, t) + g.blockSize <= SectorOff(g, s)
  {
    var a, b := s % g.spc, t % g.spc;
    assert s == s / g.spc * g.spc + a && t == t / g.spc * g.spc + b;
    if a < b {
      ScaleLe(a + 1, b, g.blockSize);
      assert (a + 1) * g.blockSize == a * g.blockSize + g.blockSize;
    } else {
      ScaleLe(b + 1, a, g.blockSize);
      assert (b + 1) * g.blockSize == b * g.blockSize + g.blockSize;
    }
  }

  /** Sector of byte i of a buffer of whole sectors. */
  function ByteSector(g: Geometry, i: nat): nat
    requires 0 < g.blockSize
  {
    DivBounds(i, g.blockSize);
    i / g.blockSize
  }

  lemma ByteInSector(g: Geometry, i: nat, s: nat)
    requires 0 < g.blockSize
    ensures s == ByteSector(g, i) <==> SectorAddr(g, s) <= i < SectorAddr(g, s) + g.blockSize
  {
    var b := g.blockSize;
    assert i == i / b * b + i % b;
    if SectorAddr(g, s) <= i < SectorAddr(g, s) + b {
      DivModUnique(i, b, s, i - s * b);
    }
  }

  lemma SectorBelow(g: Geometry, i: nat, n: nat)
    requires 0 < g.blockSize && i < SectorAddr(g, n)
    ensures ByteSector(g, i) < n
  {
    ByteInSector(g, i, ByteSector(g, i));
    if ByteSector(g, i) >= n {
      ScaleLe(n, ByteSector(g, i), g.blockSize);
    }
  }

  // ----- what is read off a partition

  function Entry(disk: seq<byte>, base: nat, c: nat): u32
    requires base + 4 * c + 4 <= |disk|
  {
    Of32(disk[base + 4 * c..base + 4 * c + 4])
  }

  /** A FAT of `n` entries at byte `base`. */
  function Table(disk: seq<byte>, base: nat, n: nat): (fat: seq<u32>)
    requires base + 4 * n <= |disk|
    ensures |fat| == n
    ensures forall c :: 0 <= c < n ==> fat[c] == Entry(disk, base, c)
  {
    seq(n, c requires 0 <= c < n => Entry(disk, base, c))
  }

  function FatOf(m: Map, disk: seq<byte>): (fat: seq<u32>)
    requires m.Fits(disk)
    ensures |fat| == m.numClusters
  {
    Table(disk, m.fatBase, m.numClusters)
  }

  function ClusterBytes(m: Map, disk: seq<byte>, c: nat): (data: seq<byte>)
    requires m.Fits(disk) && m.InHeap(c)
    ensures |data| == m.clusterSize
  {
    ClusterBounds(m, c);
    disk[m.ClusterAt(c)..m.ClusterAt(c) + m.clusterSize]
  }

  /** The cluster heap, indexed by cluster number; the two reserved numbers hold nothing. */
  function DataOf(m: Map, disk: seq<byte>): (data: seq<seq<byte>>)
    requires m.Fits(disk)
    ensures |data| == m.numClusters
    ensures forall c :: m.InHeap(c) ==> data[c] == ClusterBytes(m, disk, c)
  {
    seq(m.numClusters, c requires 0 <= c < m.numClusters => if c < FIRST_CLUSTER then [] else ClusterBytes(m, disk, c))
  }

  // ----- what a write leaves alone

  lemma TableApart(disk: seq<byte>, at: nat, p: seq<byte>, base: nat, n: nat)
    requires at + |p| <= |disk| && base + 4 * n <= |disk| && (at + |p| <= base || base + 4 * n <= at)
    ensures Table(Splice(disk, at, p), base, n) == Table(disk, base, n)
  {
    forall c | 0 <= c < n
      ensures Entry(Splice(disk, at, p), base, c) == Entry(disk, base, c)
    {
      SpliceOutside(disk, at, p, base + 4 * c, base + 4 * c + 4);
    }
  }

  lemma DataApart(m: Map, disk: seq<byte>, at: nat, p: seq<byte>)
    requires m.Fits(disk) && at + |p| <= m.heapBase
    ensures at + |p| <= |disk| && DataOf(m, Splice(disk, at, p)) == DataOf(m, disk)
  {
    hide Splice;
    forall c | m.InHeap(c)
      ensures ClusterBytes(m, Splice(disk, at, p), c) == ClusterBytes(m, disk, c)
    {
      ClusterBounds(m, c);
      SpliceOutside(disk, at, p, m.ClusterAt(c), m.ClusterAt(c) + m.clusterSize);
    }
  }

  /** Writing four bytes at an entry's address sets that entry and no other. */
  lemma TableSet(disk: seq<byte>, base: nat, n: nat, loc: nat, v: u32)
    requires base + 4 * n <= |disk| && loc < n
    ensures Table(Splice(disk, base + 4 * loc, Le32(v)), base, n) == Table(disk, base, n)[loc := v]
  {
    hide Splice, Le32, Of32;
    var d := Splice(disk, base + 4 * loc, Le32(v));
    SpliceInside(disk, base + 4 * loc, Le32(v), base + 4 * loc, base + 4 * loc + 4);
    Of32Le32(v);
    assert Le32(v)[0..4] == Le32(v);
    forall c | 0 <= c < n && c != loc
      ensures Entry(d, base, c) == Entry(disk, base, c)
    {
      SpliceOutside(disk, base + 4 * loc, Le32(v), base + 4 * c, base + 4 * c + 4);
    }
  }

  /** Replacing the four bytes of an entry of the first FAT changes that entry and no cluster. */
  lemma EntryWrite(m: Map, disk: seq<byte>, loc: nat, v: u32)
    requires m.Fits(disk) && m.InHeap(loc)
    ensures m.fatBase + 4 * loc + 4 <= |disk|
    ensures var d := Splice(disk, m.fatBase + 4 * loc, Le32(v));
            FatOf(m, d) == FatOf(m, disk)[loc := v] && DataOf(m, d) == DataOf(m, disk)
  {
    hide Splice, Le32, DataOf, Map.ClusterAt, Entry;
    TableSet(disk, m.fatBase, m.numClusters, loc, v);
    DataApart(m, disk, m.fatBase + 4 * loc, Le32(v));
  }

  /** Writing inside one cluster changes no other cluster and no FAT. */
  lemma ClusterWrite(m: Map, disk: seq<byte>, c: nat, off: nat, p: seq<byte>)
    requires m.Fits(disk) && m.InHeap(c) && off + |p| <= m.clusterSize
    ensures m.ClusterAt(c) + off + |p| <= |disk|
    ensures var d := Splice(disk, m.ClusterAt(c) + off, p);
            && FatOf(m, d) == FatOf(m, disk)
            && DataOf(m, d) == DataOf(m, disk)[c := Splice(DataOf(m, disk)[c], off, p)]
  {
    hide Splice;
    var at := m.ClusterAt(c) + off;
    ClusterBounds(m, c);
    var d := Splice(disk, at, p);
    TableApart(disk, at, p, m.fatBase, m.numClusters);
    SpliceWithin(disk, at, p, m.ClusterAt(c), m.ClusterAt(c) + m.clusterSize);
    forall e | m.InHeap(e) && e != c
      ensures ClusterBytes(m, d, e) == ClusterBytes(m, disk, e)
    {
      ClusterBounds(m, e);
      if e < c {
        ClustersApart(m, e, c);
      } else {
        ClustersApart(m, c, e);
      }
      SpliceOutside(disk, at, p, m.ClusterAt(e), m.ClusterAt(e) + m.clusterSize);
    }
  }

  /** Copying one block of a table over the same block of its mirror keeps the mirror equal, if the
      tables differed at most inside that block. */
  lemma MirrorBlock(disk: seq<byte>, base1: nat, base2: nat, n: nat, rel: nat, buf: seq<byte>)
    requires base1 + 4 * n <= base2 && base2 + 4 * n <= |disk|
    requires rel % 4 == 0 && |buf| % 4 == 0 && base2 + rel + |buf| <= |disk| && base1 + rel + |buf| <= |disk|
    requires disk[base1 + rel..base1 + rel + |buf|] == buf
    requires forall c :: 0 <= c < n && !(rel <= 4 * c < rel + |buf|) ==> Entry(disk, base2, c) == Entry(disk, base1, c)
    ensures var d := Splice(disk, base2 + rel, buf);
            Table(d, base1, n) == Table(disk, base1, n) && Table(d, base2, n) == Table(d, base1, n)
  {
    hide Splice, Of32;
    var d := Splice(disk, base2 + rel, buf);
    TableApart(disk, base2 + rel, buf, base1, n);
    forall c | 0 <= c < n
      ensures Entry(d, base2, c) == Entry(disk, base1, c)
    {
      var x := 4 * c;
      if rel <= x < rel + |buf| {
        assert x + 4 <= rel + |buf|;
        SpliceInside(disk, base2 + rel, buf, base2 + x, base2 + x + 4);
        SliceOfSlice(disk, base1 + rel, base1 + rel + |buf|, x - rel, x - rel + 4);
      } else {
        assert x + 4 <= rel || rel + |buf| <= x;
        SpliceOutside(disk, base2 + rel, buf, base2 + x, base2 + x + 4);
      }
    }
  }
}
