/** A volume with directories in disjoint chains: what reading and writing a slot through exfat_get_dentry and
    exfat_set_dentry means for the slots those chains hold, and for everything else. */
module DirVolume {
  import opened Bytes
  import opened Layout
  import opened Chains
  import opened Volumes
  import opened Allocator
  import opened Contents
  import opened Dentries
  import opened DentryIO
  import opened Directories

  /** The directories of the volume: descriptors, their chains, and no cluster in two of them. */
  ghost predicate DirsHere(vol: Volume, dirs: seq<Chain>, chs: seq<seq<nat>>)
    reads vol`Fat
  {
    && |dirs| == |chs| && (forall d :: 0 <= d < |dirs| ==> dirs[d].size == |chs[d]|)
    && (forall d :: 0 <= d < |dirs| ==> DirHere(vol, dirs[d], chs[d]) && (dirs[d].flags == FAT_CHAIN || dirs[d].flags == NO_FAT_CHAIN))
    && (forall d, c :: 0 <= d < |chs| && 0 <= c < |chs| && d != c ==> Disjoint(chs[d], chs[c]))
  }

  /** Bytes cut into entries; the same as Slots, as entries. */
  function Entries(body: seq<byte>): (r: seq<Dentry>)
    ensures r == Slots(body)
  {
    seq(|body| / 32, i requires 0 <= i < |body| / 32 => body[32 * i..32 * i + 32])
  }

  /** All chains lie in the heap. */
  predicate Held(data: seq<seq<byte>>, chs: seq<seq<nat>>) {
    forall d, i :: 0 <= d < |chs| && 0 <= i < |chs[d]| ==> chs[d][i] < |data|
  }

  /** The slots of all directories. */
  ghost function SlotsOf(data: seq<seq<byte>>, chs: seq<seq<nat>>): (r: Dirs)
    requires Held(data, chs)
    ensures |r| == |chs| && forall d :: 0 <= d < |chs| ==> r[d] == Entries(Body(data, chs[d]))
  {
    seq(|chs|, d requires 0 <= d < |chs| => Entries(Body(data, chs[d])))
  }

  /** Clusters outside all chains hold what they held. */
  ghost predicate Elsewhere(chs: seq<seq<nat>>, data: seq<seq<byte>>, data': seq<seq<byte>>) {
    && |data| == |data'|
    && forall c :: 0 <= c < |data| && (forall d :: 0 <= d < |chs| ==> c !in chs[d]) ==> data'[c] == data[c]
  }

  lemma ElsewhereToo(chs: seq<seq<nat>>, a: seq<seq<byte>>, b: seq<seq<byte>>, c: seq<seq<byte>>)
    requires Elsewhere(chs, a, b) && Elsewhere(chs, b, c)
    ensures Elsewhere(chs, a, c)
  {
  }

  lemma DirsSized(vol: Volume, dirs: seq<Chain>, chs: seq<seq<nat>>)
    requires vol.Valid() && DirsHere(vol, dirs, chs)
    ensures vol.lay.clusterSize > 0 && Held(vol.UserData(), chs) && |vol.UserData()| == vol.geo.numClusters
    ensures forall d :: 0 <= d < |chs| ==> Sized(vol.UserData(), chs[d], vol.lay.clusterSize)
  {
    hide Volume.Valid, Volume.UserData, Describes;
    vol.MountedHere();
    forall d | 0 <= d < |chs|
      ensures Sized(vol.UserData(), chs[d], vol.lay.clusterSize)
    {
      DirSized(vol, dirs[d], chs[d]);
    }
    UserCount(vol);
  }

  lemma UserCount(vol: Volume)
    requires vol.Valid()
    ensures |vol.UserData()| == vol.geo.numClusters
  {
    vol.MountedHere();
    hide Volume.Valid;
  }

  /** Slots of a directory and the clusters that hold them. */
  lemma SlotInside(g: Geometry, n: nat, i: nat)
    requires g.Ok() && g.Regions().clusterSize > 0
    ensures SlotCluster(i, g.Regions().clusterSize) < n <==> i < n * g.Regions().clusterSize / 32
  {
    hide SlotCluster, SlotOff, Geometry.Ok, Geometry.Regions;
    SlotParts(g, i);
    var cs, k := g.Regions().clusterSize, SlotCluster(i, g.Regions().clusterSize);
    StartOrder(k, n, cs);
    StartOrder(n, k, cs);
    assert Start(n, cs) == n * cs;
    Multiple32(n, cs);
    hide Start;
    assert k == n ==> Start(k, cs) == Start(n, cs);
  }

  lemma Multiple32(n: nat, cs: nat)
    requires cs % 32 == 0
    ensures (n * cs) % 32 == 0
  {
    var m := cs / 32;
    assert n * cs == 32 * (n * m);
  }

  /** The slots that a descriptor's clusters hold. */
  function SlotCount(dir: Chain, cs: nat): nat { dir.size * cs / 32 }

  lemma SlotsHere(vol: Volume, dirs: seq<Chain>, chs: seq<seq<nat>>, d: nat)
    requires vol.Valid() && DirsHere(vol, dirs, chs) && d < |dirs|
    ensures Held(vol.UserData(), chs) && |SlotsOf(vol.UserData(), chs)[d]| == SlotCount(dirs[d], vol.lay.clusterSize)
  {
    hide Volume.Valid, Volume.UserData, DirHere, Body;
    DirsSized(vol, dirs, chs);
    BodyLength(vol.UserData(), chs[d], vol.lay.clusterSize);
  }

  /** exfat_get_dentry on one of the directories. */
  method GetSlot(vol: Volume, dirs: seq<Chain>, d: nat, i: nat, ghost chs: seq<seq<nat>>)
    returns (ok: bool, x: seq<byte>)
    requires vol.Valid() && DirsHere(vol, dirs, chs) && d < |dirs|
    modifies vol`readFaults
    ensures Held(vol.UserData(), chs)
    ensures vol.readFaults >= old(vol.readFaults)
    ensures var slots := SlotsOf(vol.UserData(), chs)[d];
            if i < |slots| then ok ==> x == slots[i] else ok ==> dirs[d].flags == NO_FAT_CHAIN
    ensures i < |SlotsOf(vol.UserData(), chs)[d]| && vol.readFaults == old(vol.readFaults) ==> ok
  {
    hide Volume.Valid, Volume.UserData, SlotCluster, Body, Entries, Slots, DirHere;
    DirsSized(vol, dirs, chs);
    SlotsCount(vol, dirs, chs, d, i);
    var e;
    e, x := GetDentry(vol, dirs[d], i, chs[d]);
    ok := e == OK;
  }

  lemma SlotsCount(vol: Volume, dirs: seq<Chain>, chs: seq<seq<nat>>, d: nat, i: nat)
    requires vol.Valid() && DirsHere(vol, dirs, chs) && d < |dirs| && vol.lay.clusterSize > 0
    requires Sized(vol.UserData(), chs[d], vol.lay.clusterSize)
    ensures i < |Entries(Body(vol.UserData(), chs[d]))| <==> SlotCluster(i, vol.lay.clusterSize) < |chs[d]|
  {
    hide Volume.Valid, Volume.UserData, SlotCluster, DirHere;
    GeometryHere(vol);
    BodyLength(vol.UserData(), chs[d], vol.lay.clusterSize);
    SlotInside(vol.geo, |chs[d]|, i);
  }

  // ----- sets that may run past the end of a contiguous directory

  /** What exfat_get_dentry finds at slot i when no read fails: behind the last slot of a contiguous directory it is
      what the next cluster of the heap holds, whoever owns it. */
  ghost function SlotRead(vol: Volume, dir: Chain, i: nat, ch: seq<nat>): Option<Dentry>
    requires vol.lay.clusterSize > 0 && Sized(vol.UserData(), ch, vol.lay.clusterSize)
    reads vol`Data
  {
    var slots, c, off := Slots(Body(vol.UserData(), ch)), Past(dir, i, vol.lay.clusterSize), SlotOff(i, vol.lay.clusterSize);
    if SlotCluster(i, vol.lay.clusterSize) < |ch| then
      if i < |slots| && |slots[i]| == 32 then var d: Dentry := slots[i]; Some(d) else None
    else if dir.flags == NO_FAT_CHAIN && vol.lay.InHeap(c) && c < |vol.Data| && off + 32 <= |vol.Data[c]| then
      var d: Dentry := vol.Data[c][off..off + 32];
      Some(d)
    else
      None
  }

  /** The slots from i on make a set: a file entry, not too many secondaries, and all of them stream or name entries. */
  ghost predicate SetRead(vol: Volume, dir: Chain, i: nat, ch: seq<nat>)
    requires vol.lay.clusterSize > 0 && Sized(vol.UserData(), ch, vol.lay.clusterSize)
    reads vol`Data
  {
    var first := SlotRead(vol, dir, i, ch);
    && first.Some? && Type(first.value) == FILE && Total(first.value) <= SET_MAX
    && forall k :: i < k < i + Total(first.value) ==> SlotRead(vol, dir, k, ch).Some? && Secondary(SlotRead(vol, dir, k, ch).value)
  }

  method ReadSlotOf(vol: Volume, dir: Chain, i: nat, ghost ch: seq<nat>) returns (r: Option<Dentry>)
    requires vol.Valid() && DirHere(vol, dir, ch)
    modifies vol`readFaults
    ensures vol.readFaults >= old(vol.readFaults)
    ensures vol.lay.clusterSize > 0 && Sized(vol.UserData(), ch, vol.lay.clusterSize)
    ensures r.Some? ==> r == SlotRead(vol, dir, i, ch)
    ensures vol.readFaults == old(vol.readFaults) && (dir.flags == FAT_CHAIN || dir.flags == NO_FAT_CHAIN) ==> r == SlotRead(vol, dir, i, ch)
  {
    hide Volume.Valid, Volume.UserData, SlotCluster, SlotOff, Body, Slots, DirHere;
    var e, x := GetDentry(vol, dir, i, ch);
    if e != OK || |x| != 32 {
      return None;
    }
    var d: Dentry := x;
    return Some(d);
  }

  /** exfat_get_dentry_set on any directory, exactly: a set is read if and only if its slots make one, also where
      they run past the end of a contiguous directory. */
  method ReadSet(vol: Volume, dir: Chain, i: nat, ghost ch: seq<nat>) returns (r: Option<seq<Dentry>>)
    requires vol.Valid() && DirHere(vol, dir, ch) && (dir.flags == FAT_CHAIN || dir.flags == NO_FAT_CHAIN)
    modifies vol`readFaults
    ensures vol.readFaults >= old(vol.readFaults)
    ensures vol.lay.clusterSize > 0 && Sized(vol.UserData(), ch, vol.lay.clusterSize)
    ensures vol.readFaults == old(vol.readFaults) ==> (r.Some? <==> SetRead(vol, dir, i, ch))
    ensures r.Some? ==> SetRead(vol, dir, i, ch) && |r.value| == Total(SlotRead(vol, dir, i, ch).value)
    ensures r.Some? ==> forall k :: 0 <= k < |r.value| ==> SlotRead(vol, dir, i + k, ch) == Some(r.value[k])
  {
    hide Volume.Valid, Volume.UserData, DirHere, SlotRead;
    var first := ReadSlotOf(vol, dir, i, ch);
    if first == None || Type(first.value) != FILE {
      return None;
    }
    var total := 1 + NumExt(first.value) as int;
    if total > SET_MAX {
      return None;
    }
    var s := [first.value];
    for k := 1 to total
      invariant vol.readFaults >= old(vol.readFaults) && |s| == k
      invariant forall j :: 0 <= j < k ==> SlotRead(vol, dir, i + j, ch) == Some(s[j])
      invariant forall j :: 0 < j < k ==> Secondary(s[j])
    {
      var one := ReadSlotOf(vol, dir, i + k, ch);
      if one == None || (Type(one.value) != STREAM && Type(one.value) != NAME) {
        return None;
      }
      s := s + [one.value];
    }
    assert forall k :: i < k < i + total ==> SlotRead(vol, dir, k, ch) == Some(s[k - i]);
    return Some(s);
  }

  /** Inside the directory it is the set of its slots. */
  lemma SetInside(vol: Volume, dirs: seq<Chain>, chs: seq<seq<nat>>, d: nat, i: nat)
    requires vol.Valid() && DirsHere(vol, dirs, chs) && d < |dirs|
    ensures vol.lay.clusterSize > 0 && Held(vol.UserData(), chs) && Sized(vol.UserData(), chs[d], vol.lay.clusterSize)
    ensures SetHere(SlotsOf(vol.UserData(), chs)[d], i) ==> SetRead(vol, dirs[d], i, chs[d])
    ensures SetRead(vol, dirs[d], i, chs[d]) && !SetHere(SlotsOf(vol.UserData(), chs)[d], i) ==>
              dirs[d].flags == NO_FAT_CHAIN && i + SET_MAX > |SlotsOf(vol.UserData(), chs)[d]|
  {
    hide Volume.Valid, Volume.UserData, SlotCluster, SlotOff, Body, Entries, Slots, DirHere;
    DirsSized(vol, dirs, chs);
    var slots := SlotsOf(vol.UserData(), chs)[d];
    forall k: nat
      ensures k < |slots| ==> SlotRead(vol, dirs[d], k, chs[d]) == Some(slots[k])
      ensures k >= |slots| && SlotRead(vol, dirs[d], k, chs[d]).Some? ==> dirs[d].flags == NO_FAT_CHAIN
    {
      SlotsCount(vol, dirs, chs, d, k);
    }
    hide SlotRead;
    if SetRead(vol, dirs[d], i, chs[d]) && !SetHere(slots, i) {
      var total := Total(SlotRead(vol, dirs[d], i, chs[d]).value);
      var last := i + total - 1;
      assert SlotRead(vol, dirs[d], last, chs[d]).Some? && last >= |slots|;
    }
  }

  /** exfat_set_dentry on one of the directories: one slot changes, none of any other, and nothing elsewhere. */
  method SetSlot(vol: Volume, dirs: seq<Chain>, d: nat, i: nat, x: Dentry, ghost chs: seq<seq<nat>>) returns (ok: bool)
    requires vol.Valid() && DirsHere(vol, dirs, chs) && d < |dirs|
    requires Held(vol.UserData(), chs) && i < |SlotsOf(vol.UserData(), chs)[d]|
    modifies vol`disk, vol`Data, vol`readFaults, vol`writeFaults, vol`writes
    ensures vol.Valid() && DirsHere(vol, dirs, chs) && FaultsGrow(vol)
    ensures Held(vol.UserData(), chs)
    ensures var was := SlotsOf(old(vol.UserData()), chs);
            SlotsOf(vol.UserData(), chs) == if ok then was[d := Put(was[d], i, x)] else was
    ensures !ok ==> vol.readFaults + vol.writeFaults > old(vol.readFaults + vol.writeFaults)
    ensures Elsewhere(chs, old(vol.UserData()), vol.UserData())
  {
    hide Volume.Valid, Volume.UserData, SlotCluster, SlotOff, Body, Entries, Slots, DirHere, SlotsOf, OneSlot;
    DirsSized(vol, dirs, chs);
    SlotsCount(vol, dirs, chs, d, i);
    ghost var data := vol.UserData();
    var e := SetDentry(vol, dirs[d], i, x, chs[d]);
    ok := e == OK;
    DirsSized(vol, dirs, chs);
    if ok {
      OneDir(data, vol.UserData(), chs, d, i, x, SlotCluster(i, vol.lay.clusterSize), SlotOff(i, vol.lay.clusterSize));
    }
  }

  lemma OneDir(data: seq<seq<byte>>, data': seq<seq<byte>>, chs: seq<seq<nat>>, d: nat, i: nat, x: Dentry,
               k: nat, off: nat)
    requires Held(data, chs) && |data'| == |data| && d < |chs| && k < |chs[d]|
    requires forall a, b :: 0 <= a < |chs| && 0 <= b < |chs| && a != b ==> Disjoint(chs[a], chs[b])
    requires OneSlot(data, data', chs[d][k], off, x) && i < |Slots(Body(data, chs[d]))|
    requires Slots(Body(data', chs[d])) == Slots(Body(data, chs[d]))[i := x]
    ensures SlotsOf(data', chs) == SlotsOf(data, chs)[d := Put(SlotsOf(data, chs)[d], i, x)] && Elsewhere(chs, data, data')
  {
    hide Body, Slots, Splice;
    var was, now := SlotsOf(data, chs), SlotsOf(data', chs);
    forall c | 0 <= c < |chs| && c != d
      ensures now[c] == was[c]
    {
      BodyFrame(data, data', chs[c]);
    }
  }
}
