/** exfat_get_dentry and exfat_set_dentry of fs/exfat/exfat_file.c on the volume: the slot of a directory entry
    is located through the directory's chain, and its sector read, patched and written back. */
module DentryIO {
  import opened Bytes
  import opened Layout
  import opened Bitmap
  import opened Chains
  import opened Volumes
  import opened Allocator
  import opened Contents

  const DENTRY_SIZE: nat := 32

  // ----- where a slot lies

  lemma MultipleBelow(x: int, y: int)
    requires x % 32 == 0 && y % 32 == 0 && x < y
    ensures x + 32 <= y
  {
  }

  lemma MultipleTimes(a: int, b: int)
    requires b % 32 == 0
    ensures (a * b) % 32 == 0
  {
    var m := b / 32;
    assert a * b == 32 * (a * m);
  }

  /** A block of a multiple of 32 bytes, and where byte b, itself a multiple of 32, falls in it. */
  lemma InBlock(b: nat, size: nat)
    requires b % 32 == 0 && size > 0 && size % 32 == 0
    ensures b == b / size * size + b % size && (b % size) % 32 == 0 && b % size + 32 <= size
  {
    var q, r := b / size, b % size;
    DivBounds(b, size);
    assert b == q * size + r;
    MultipleTimes(q, size);
    MultipleMinus(b, q * size);
    MultipleBelow(r, size);
  }

  lemma MultipleMinus(x: int, y: int)
    requires x % 32 == 0 && y % 32 == 0
    ensures (x - y) % 32 == 0
  {
  }

  lemma BelowSectors(off: nat, bs: nat, spc: nat)
    requires bs > 0 && off < spc * bs
    ensures off / bs < spc
  {
    var q := off / bs;
    assert off == bs * q + off % bs;
    if q >= spc {
      ScaleLe(spc, q, bs);
    }
  }

  /** Cluster of a slot within its directory, and byte offset within that cluster. */
  function SlotCluster(i: nat, cs: nat): nat
    requires cs > 0
  {
    Index(DENTRY_SIZE * i, cs)
  }

  function SlotOff(i: nat, cs: nat): nat
    requires cs > 0
  {
    DENTRY_SIZE * i % cs
  }

  lemma SlotParts(g: Geometry, i: nat)
    requires g.Ok()
    ensures var cs := g.Regions().clusterSize;
            && cs > 0 && cs % 32 == 0 && SlotOff(i, cs) + 32 <= cs && SlotOff(i, cs) % 32 == 0
            && Start(SlotCluster(i, cs), cs) + SlotOff(i, cs) == DENTRY_SIZE * i
  {
    var cs := g.Regions().clusterSize;
    assert cs == g.spc * g.blockSize;
    AtLeastOnce(g.blockSize, g.spc);
    MultipleTimes(g.spc, g.blockSize);
    InBlock(DENTRY_SIZE * i, cs);
  }

  lemma SectorParts(g: Geometry, off: nat)
    requires g.Ok() && off % 32 == 0 && off + 32 <= g.Regions().clusterSize
    ensures var s, o := off / g.blockSize, off % g.blockSize;
            s < g.spc && o + 32 <= g.blockSize && SectorAddr(g, s) + o == off
  {
    assert g.Regions().clusterSize == g.spc * g.blockSize;
    BelowSectors(off, g.blockSize, g.spc);
    InBlock(off, g.blockSize);
  }

  // ----- one slot of one cluster

  lemma SlotHere(vol: Volume, c: nat, off: nat)
    requires vol.Valid() && vol.lay.InHeap(c) && off % 32 == 0 && off + 32 <= vol.lay.clusterSize
    ensures vol.geo.blockSize > 0 && off / vol.geo.blockSize < vol.geo.spc
    ensures var s, o := off / vol.geo.blockSize, off % vol.geo.blockSize;
            && o + 32 <= vol.geo.blockSize && SectorAddr(vol.geo, s) + o == off
            && SectorAddr(vol.geo, ClusterSector(vol.geo, c) + s) == vol.lay.ClusterAt(c) + SectorAddr(vol.geo, s)
            && SectorAddr(vol.geo, s) + vol.geo.blockSize <= vol.lay.clusterSize
    ensures SectorAddr(vol.geo, 1) == vol.geo.blockSize
  {
    SectorParts(vol.geo, off);
    vol.SectorOfCluster(c, off / vol.geo.blockSize);
  }

  method ReadSlot(vol: Volume, c: nat, off: nat) returns (ok: bool, d: seq<byte>)
    requires vol.Valid() && vol.lay.InHeap(c) && off % 32 == 0 && off + 32 <= vol.lay.clusterSize
    modifies vol`readFaults
    ensures vol.readFaults == old(vol.readFaults) + (if ok then 0 else 1)
    ensures c < |vol.Data| && |vol.Data[c]| == vol.lay.clusterSize
    ensures ok ==> d == vol.Data[c][off..off + 32]
  {
    hide SectorAddr, ClusterSector, Map.ClusterAt, Volume.Valid;
    vol.MountedHere();
    SlotHere(vol, c, off);
    vol.ClusterSectorHere(c);
    var s, o := off / vol.geo.blockSize, off % vol.geo.blockSize;
    ghost var at, lo := vol.lay.ClusterAt(c), SectorAddr(vol.geo, s);
    var buf;
    ok, buf := vol.ReadSectors(ClusterSector(vol.geo, c) + s, 1);
    d := [];
    if ok {
      d := buf[o..o + 32];
      SliceOfSlice(vol.disk, at + lo, at + lo + vol.geo.blockSize, o, o + 32);
      SliceOfSlice(vol.disk, at, at + vol.lay.clusterSize, off, off + 32);
    }
  }

  method WriteSlot(vol: Volume, c: nat, off: nat, d: seq<byte>) returns (ok: bool)
    requires vol.Valid() && vol.lay.InHeap(c) && off % 32 == 0 && off + 32 <= vol.lay.clusterSize && |d| == 32
    modifies vol`disk, vol`Data, vol`readFaults, vol`writeFaults, vol`writes
    ensures vol.Valid() && FaultsGrow(vol)
    ensures ok <==> vol.readFaults == old(vol.readFaults) && vol.writeFaults == old(vol.writeFaults)
    ensures c < |old(vol.Data)| == |old(vol.UserData())| && off + 32 <= |old(vol.Data)[c]|
    ensures vol.Data == if ok then old(vol.Data)[c := Splice(old(vol.Data)[c], off, d)] else old(vol.Data)
    ensures vol.UserData() == if ok && !vol.Reserved(c) then old(vol.UserData())[c := Splice(old(vol.Data)[c], off, d)] else old(vol.UserData())
  {
    hide SectorAddr, ClusterSector, Map.ClusterAt, Mounted, Placed, FatOf, DataOf, BitsOf, Blank, Splice;
    vol.MountedHere();
    SlotHere(vol, c, off);
    vol.ClusterSectorHere(c);
    var bs := vol.geo.blockSize;
    var s, o := off / bs, off % bs;
    ghost var at := vol.lay.ClusterAt(c) + SectorAddr(vol.geo, s);
    var buf;
    ok, buf := vol.ReadSectors(ClusterSector(vol.geo, c) + s, 1);
    if !ok {
      return;
    }
    buf := Splice(buf, o, d);
    ReadModifyWrite(vol.disk, at, bs, o, d);
    ClusterWrite(vol.lay, vol.disk, c, off, d);
    ok := vol.WriteSectors(ClusterSector(vol.geo, c) + s, buf);
    if ok {
      BlankPut(vol.Data, vol.mapClu, vol.mapSpan, c, Splice(vol.Data[c], off, d));
      vol.Data := vol.Data[c := Splice(vol.Data[c], off, d)];
    }
  }

  // ----- the slots of a directory

  /** The bytes of a directory cut into entries of 32. */
  function Slots(body: seq<byte>): (r: seq<seq<byte>>)
    ensures |r| == |body| / 32 && forall i :: 0 <= i < |r| ==> r[i] == body[32 * i..32 * i + 32]
  {
    seq(|body| / 32, i requires 0 <= i < |body| / 32 => body[32 * i..32 * i + 32])
  }

  lemma SlotPutAt(body: seq<byte>, i: nat, d: seq<byte>, j: nat)
    requires |d| == 32 && 32 * i + 32 <= |body| && 32 * j + 32 <= |body|
    ensures Splice(body, 32 * i, d)[32 * j..32 * j + 32] == if j == i then d else body[32 * j..32 * j + 32]
  {
    hide Splice;
    if j == i {
      SpliceInside(body, 32 * i, d, 32 * i, 32 * i + 32);
      assert d[0..32] == d;
    } else {
      SpliceOutside(body, 32 * i, d, 32 * j, 32 * j + 32);
    }
  }

  lemma SlotsPut(body: seq<byte>, i: nat, d: seq<byte>)
    requires |d| == 32 && 32 * i + 32 <= |body|
    ensures Slots(Splice(body, 32 * i, d)) == Slots(body)[i := d]
  {
    hide Splice;
    var after, want := Slots(Splice(body, 32 * i, d)), Slots(body)[i := d];
    forall j | 0 <= j < |after|
      ensures after[j] == want[j]
    {
      SlotPutAt(body, i, d, j);
    }
  }

  /** The slot in its cluster is the slot of the directory. */
  lemma SlotInBody(g: Geometry, data: seq<seq<byte>>, ch: seq<nat>, i: nat)
    requires g.Ok() && Sized(data, ch, g.Regions().clusterSize) && g.Regions().clusterSize > 0
    requires SlotCluster(i, g.Regions().clusterSize) < |ch|
    ensures var cs := g.Regions().clusterSize;
            var k, off := SlotCluster(i, cs), SlotOff(i, cs);
            && off + 32 <= cs && 32 * i + 32 <= |Body(data, ch)| && i < |Slots(Body(data, ch))|
            && data[ch[k]][off..off + 32] == Slots(Body(data, ch))[i]
  {
    hide SlotOff, SlotCluster, Body, Geometry.Regions, Geometry.Ok;
    SlotParts(g, i);
    var cs := g.Regions().clusterSize;
    BodyChunk(data, ch, cs, SlotCluster(i, cs), SlotOff(i, cs), SlotOff(i, cs) + 32);
  }

  lemma SlotPutInBody(g: Geometry, data: seq<seq<byte>>, ch: seq<nat>, i: nat, d: seq<byte>)
    requires g.Ok() && Sized(data, ch, g.Regions().clusterSize) && g.Regions().clusterSize > 0 && Distinct(ch) && |d| == 32
    requires SlotCluster(i, g.Regions().clusterSize) < |ch| && SlotOff(i, g.Regions().clusterSize) + 32 <= g.Regions().clusterSize
    requires i < |Slots(Body(data, ch))|
    ensures var cs := g.Regions().clusterSize;
            var c, off := ch[SlotCluster(i, cs)], SlotOff(i, cs);
            Slots(Body(data[c := Splice(data[c], off, d)], ch)) == Slots(Body(data, ch))[i := d]
  {
    hide SlotOff, SlotCluster, Body, Geometry.Regions, Geometry.Ok, Splice;
    SlotParts(g, i);
    var cs := g.Regions().clusterSize;
    var k, off := SlotCluster(i, cs), SlotOff(i, cs);
    var block := Splice(data[ch[k]], off, d);
    BodyPut(data, ch, cs, k, block);
    BodyChunk(data, ch, cs, k, 0, cs);
    assert data[ch[k]][0..cs] == data[ch[k]];
    ReadModifyWrite(Body(data, ch), k * cs, cs, off, d);
    SlotsPut(Body(data, ch), i, d);
  }

  lemma SlotsApart(x: int, y: int)
    requires x % 32 == 0 && y % 32 == 0 && x != y
    ensures x + 32 <= y || y + 32 <= x
  {
    if x < y {
      MultipleBelow(x, y);
    } else {
      MultipleBelow(y, x);
    }
  }

  /** Any slot of any chain that does not lie at the same place of the same cluster reads as before. */
  lemma OtherSlots(g: Geometry, data: seq<seq<byte>>, c: nat, off: nat, d: seq<byte>, ch: seq<nat>, j: nat)
    requires g.Ok() && Sized(data, ch, g.Regions().clusterSize) && g.Regions().clusterSize > 0 && |d| == 32
    requires c < |data| && |data[c]| == g.Regions().clusterSize && off % 32 == 0 && off + 32 <= |data[c]|
    requires SlotCluster(j, g.Regions().clusterSize) < |ch|
    ensures var cs := g.Regions().clusterSize;
            var e, o := ch[SlotCluster(j, cs)], SlotOff(j, cs);
            && o + 32 <= cs && Sized(data[c := Splice(data[c], off, d)], ch, cs)
            && data[c := Splice(data[c], off, d)][e][o..o + 32] == if e == c && o == off then d else data[e][o..o + 32]
  {
    hide SlotOff, SlotCluster, Geometry.Regions, Geometry.Ok, Splice;
    SlotParts(g, j);
    var cs := g.Regions().clusterSize;
    var e, o := ch[SlotCluster(j, cs)], SlotOff(j, cs);
    if e == c {
      if o == off {
        SpliceInside(data[c], off, d, off, off + 32);
        assert d[0..32] == d;
      } else {
        SlotsApart(o, off);
        SpliceOutside(data[c], off, d, o, o + 32);
      }
    }
  }

  // ----- exfat_get_dentry and exfat_set_dentry

  /** A directory whose clusters are in the heap, outside the on-disk bitmap. */
  ghost predicate DirHere(vol: Volume, dir: Chain, ch: seq<nat>)
    reads vol`Fat
  {
    Describes(vol.Fat, dir, ch) && forall i :: 0 <= i < |ch| ==> vol.lay.InHeap(ch[i]) && !vol.Reserved(ch[i])
  }

  /** The walk to the cluster of slot i, common to both. */
  method Locate(vol: Volume, dir: Chain, i: nat, ghost ch: seq<nat>) returns (e: Errno, c: nat, off: nat)
    requires vol.Valid() && DirHere(vol, dir, ch)
    modifies vol`readFaults
    ensures vol.readFaults >= old(vol.readFaults) && vol.lay.clusterSize > 0
    ensures e == EINVAL <==> dir.flags != FAT_CHAIN && dir.flags != NO_FAT_CHAIN
    ensures e == OK || e == EINVAL || e == EIO
    ensures e == OK ==> off == SlotOff(i, vol.lay.clusterSize)
    ensures e != EINVAL && SlotCluster(i, vol.lay.clusterSize) < |ch| ==>
              if vol.readFaults == old(vol.readFaults) then e == OK && c == ch[SlotCluster(i, vol.lay.clusterSize)]
              else e == EIO || (e == OK && c == ch[SlotCluster(i, vol.lay.clusterSize)])
    ensures e == OK && SlotCluster(i, vol.lay.clusterSize) >= |ch| ==>
              dir.flags == NO_FAT_CHAIN && vol.lay.InHeap(c) && c == dir.dir + SlotCluster(i, vol.lay.clusterSize)
    ensures dir.flags == NO_FAT_CHAIN ==>
              && vol.readFaults == old(vol.readFaults)
              && e == if vol.lay.InHeap(dir.dir + SlotCluster(i, vol.lay.clusterSize)) then OK else EIO
  {
    hide Volume.Valid, NextOf, SlotOff, Linked;
    vol.MountedHere();
    e, c, off := OK, dir.dir, 0;
    if dir.flags != FAT_CHAIN && dir.flags != NO_FAT_CHAIN {
      return EINVAL, c, off;
    }
    DescribedHead(vol.Fat, dir, ch);
    var cs := vol.lay.clusterSize;
    var k := SlotCluster(i, cs);
    off := SlotOff(i, cs);
    if dir.flags == NO_FAT_CHAIN {
      c := c + k;
      if c < FIRST_CLUSTER || c >= vol.geo.numClusters {
        e := EIO;
      }
      return;
    }
    for j := 0 to k
      invariant vol.readFaults >= old(vol.readFaults) && e == OK
      invariant j < |ch| && c == ch[j]
    {
      ChainLink(vol.Fat, ch, j);
      var next := vol.GetNext(c);
      if next.NoNext? {
        return EIO, c, off;
      }
      if next.clu == EOF_CLUSTER {
        return EIO, c, off;
      }
      NotTheEnd(vol.Fat, ch, j);
      c := next.clu;
    }
  }

  lemma NotTheEnd(fat: seq<u32>, ch: seq<nat>, j: nat)
    requires IsChain(fat, ch) && j < |ch| && NextOf(fat, ch[j]) != Eof
    ensures j + 1 < |ch| && NextOf(fat, ch[j]) == To(ch[j + 1])
  {
  }

  /** The cluster where a contiguous directory looks for slot i, whether or not it has that many. */
  function Past(dir: Chain, i: nat, cs: nat): nat
    requires cs > 0
  {
    dir.dir + SlotCluster(i, cs)
  }

  /** The first slot past the end of a contiguous directory is the first one of the next cluster on the
      volume, which belongs to no part of the directory. */
  lemma FirstPastEnd(vol: Volume, dir: Chain, ch: seq<nat>)
    requires vol.Valid() && DirHere(vol, dir, ch) && dir.flags == NO_FAT_CHAIN
    ensures vol.lay.clusterSize > 0
    ensures var i := |ch| * vol.lay.clusterSize / 32;
            && SlotCluster(i, vol.lay.clusterSize) == |ch| && SlotOff(i, vol.lay.clusterSize) == 0
            && Past(dir, i, vol.lay.clusterSize) == dir.dir + |ch| && dir.dir + |ch| !in ch
  {
    hide Volume.Valid;
    vol.MountedHere();
    GeometryHere(vol);
    SlotParts(vol.geo, 0);
    var cs := vol.lay.clusterSize;
    MultipleTimes(|ch|, cs);
    var i := |ch| * cs / 32;
    assert DENTRY_SIZE * i == |ch| * cs;
    DivModUnique(|ch| * cs, cs, |ch|, 0);
  }

  /** Slot i of the directory.  Past its last cluster a chained directory gives an error; a contiguous one
      gives the slot of whatever cluster comes next on the volume. */
  method GetDentry(vol: Volume, dir: Chain, i: nat, ghost ch: seq<nat>) returns (e: Errno, d: seq<byte>)
    requires vol.Valid() && DirHere(vol, dir, ch)
    modifies vol`readFaults
    ensures vol.readFaults >= old(vol.readFaults)
    ensures e == EINVAL <==> dir.flags != FAT_CHAIN && dir.flags != NO_FAT_CHAIN
    ensures e == OK || e == EINVAL || e == EIO
    ensures vol.lay.clusterSize > 0 && Sized(vol.UserData(), ch, vol.lay.clusterSize)
    ensures e == OK && SlotCluster(i, vol.lay.clusterSize) < |ch| ==>
              i < |Slots(Body(vol.UserData(), ch))| && d == Slots(Body(vol.UserData(), ch))[i]
    ensures SlotCluster(i, vol.lay.clusterSize) >= |ch| && dir.flags == FAT_CHAIN ==> e == EIO
    ensures e != EINVAL && SlotCluster(i, vol.lay.clusterSize) < |ch| && vol.readFaults == old(vol.readFaults) ==> e == OK
    ensures SlotCluster(i, vol.lay.clusterSize) >= |ch| && dir.flags == NO_FAT_CHAIN ==>
              && (e == OK <==> vol.lay.InHeap(Past(dir, i, vol.lay.clusterSize)) && vol.readFaults == old(vol.readFaults))
              && (e == OK ==> && Past(dir, i, vol.lay.clusterSize) < |vol.Data|
                              && SlotOff(i, vol.lay.clusterSize) + 32 <= |vol.Data[Past(dir, i, vol.lay.clusterSize)]|
                              && d == vol.Data[Past(dir, i, vol.lay.clusterSize)]
                                      [SlotOff(i, vol.lay.clusterSize)..SlotOff(i, vol.lay.clusterSize) + 32])
  {
    hide Volume.Valid, SlotOff, SlotCluster, Volume.UserData, Slots, Body, Describes;
    DirSized(vol, dir, ch);
    vol.MountedHere();
    var c, off;
    d := [];
    e, c, off := Locate(vol, dir, i, ch);
    if e != OK {
      return;
    }
    GeometryHere(vol);
    SlotParts(vol.geo, i);
    var ok;
    ok, d := ReadSlot(vol, c, off);
    if !ok {
      return EIO, [];
    }
    if SlotCluster(i, vol.lay.clusterSize) < |ch| {
      vol.UserHere(c);
      SlotInBody(vol.geo, vol.UserData(), ch, i);
    }
  }

  lemma GeometryHere(vol: Volume)
    requires vol.Valid()
    ensures vol.geo.Ok() && vol.lay.clusterSize == vol.geo.Regions().clusterSize
  {
  }

  lemma DirSized(vol: Volume, dir: Chain, ch: seq<nat>)
    requires vol.Valid() && DirHere(vol, dir, ch)
    ensures Sized(vol.UserData(), ch, vol.lay.clusterSize) && Distinct(ch) && vol.lay.clusterSize > 0
  {
    hide Volume.Valid, Volume.UserData, Describes;
    vol.MountedHere();
    DescribedDistinct(vol.Fat, dir, ch);
    forall i | 0 <= i < |ch|
      ensures ch[i] < |vol.UserData()| && |vol.UserData()[ch[i]]| == vol.lay.clusterSize
    {
      vol.UserHere(ch[i]);
    }
  }

  method SetDentry(vol: Volume, dir: Chain, i: nat, d: seq<byte>, ghost ch: seq<nat>) returns (e: Errno)
    requires vol.Valid() && DirHere(vol, dir, ch) && |d| == 32
    modifies vol`disk, vol`Data, vol`readFaults, vol`writeFaults, vol`writes
    ensures vol.Valid() && FaultsGrow(vol)
    ensures e == EINVAL <==> dir.flags != FAT_CHAIN && dir.flags != NO_FAT_CHAIN
    ensures e == OK || e == EINVAL || e == EIO
    ensures e != OK ==> vol.Data == old(vol.Data) && vol.UserData() == old(vol.UserData())
    ensures vol.lay.clusterSize > 0 && Sized(old(vol.UserData()), ch, vol.lay.clusterSize)
    ensures e == OK && SlotCluster(i, vol.lay.clusterSize) < |ch| ==>
              && Sized(vol.UserData(), ch, vol.lay.clusterSize) && i < |Slots(Body(old(vol.UserData()), ch))|
              && Slots(Body(vol.UserData(), ch)) == Slots(Body(old(vol.UserData()), ch))[i := d]
              && OneSlot(old(vol.UserData()), vol.UserData(), ch[SlotCluster(i, vol.lay.clusterSize)], SlotOff(i, vol.lay.clusterSize), d)
    ensures SlotCluster(i, vol.lay.clusterSize) >= |ch| && dir.flags == FAT_CHAIN ==> e == EIO
    ensures SlotCluster(i, vol.lay.clusterSize) >= |ch| && dir.flags == NO_FAT_CHAIN ==>
              && (e == OK <==> && vol.lay.InHeap(Past(dir, i, vol.lay.clusterSize))
                               && vol.readFaults == old(vol.readFaults) && vol.writeFaults == old(vol.writeFaults))
              && (e == OK ==> OneSlot(old(vol.Data), vol.Data, Past(dir, i, vol.lay.clusterSize), SlotOff(i, vol.lay.clusterSize), d))
    ensures (vol.readFaults == old(vol.readFaults) && vol.writeFaults == old(vol.writeFaults)
             && e != EINVAL && SlotCluster(i, vol.lay.clusterSize) < |ch|) ==> e == OK
  {
    hide Volume.Valid, SlotOff, SlotCluster, Volume.UserData, Slots, Body, Describes, Splice;
    DirSized(vol, dir, ch);
    vol.MountedHere();
    ghost var data := vol.UserData();
    var c, off;
    e, c, off := Locate(vol, dir, i, ch);
    if e != OK {
      return;
    }
    GeometryHere(vol);
    SlotParts(vol.geo, i);
    if SlotCluster(i, vol.lay.clusterSize) < |ch| {
      vol.UserHere(c);
      SlotInBody(vol.geo, data, ch, i);
      SlotPutInBody(vol.geo, data, ch, i, d);
    }
    var ok := WriteSlot(vol, c, off, d);
    if !ok {
      return EIO;
    }
  }

  /** The heaps differ in 32 bytes of one cluster. */
  predicate OneSlot(data: seq<seq<byte>>, data': seq<seq<byte>>, c: nat, off: nat, d: seq<byte>) {
    c < |data| && off + |d| <= |data[c]| && data' == data[c := Splice(data[c], off, d)]
  }
}
