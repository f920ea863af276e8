/** Files of a mounted volume: in-memory inodes over cluster chains, with truncation and the release of an
    unlinked file's clusters from fs/exfat/exfat_file.c and fs/exfat/exfat_inode.c.

    The bracket that sets and clears the volume-dirty flag appears here as a step that may fail; the flag
    words themselves are the subject of module VolumeFlags. */
module Files {
  import opened Bytes
  import opened Layout
  import opened Bitmap
  import opened Chains
  import opened Volumes
  import opened Allocator
  import opened Contents
  import opened FileSpec

  class Inode {
    const isFile: bool    // type is TYPE_FILE
    var start: nat        // start_clu
    var flags: nat
    var size: nat
    var validSize: nat
    var onDisk: nat       // i_size_ondisk
    ghost var chain: seq<nat>

    constructor (isFile: bool, start: nat, flags: nat, size: nat, validSize: nat, onDisk: nat, ghost chain: seq<nat>)
      ensures this.start == start && this.flags == flags && this.size == size && this.validSize == validSize
      ensures this.onDisk == onDisk && this.chain == chain && this.isFile == isFile
    {
      this.isFile, this.start, this.flags, this.size := isFile, start, flags, size;
      this.validSize, this.onDisk, this.chain := validSize, onDisk, chain;
    }

    /** The inode describes `chain`, whose length is the cluster count of the size on disk; all of its
        clusters are marked, and none belongs to the on-disk bitmap. */
    ghost predicate Stored(vol: Volume, fat: seq<u32>, bits: seq<bool>)
      reads this
    {
      && vol.lay.clusterSize > 0 && |fat| == |bits|
      && AllMarked(bits, chain) && Outside(vol, chain)
      && (if chain == [] then start == EOF_CLUSTER || start == FREE_CLUSTER
          else Describes(fat, Chain(start, |chain|, flags), chain))
      && |chain| == CountFor(onDisk, vol.lay.clusterSize)
      && validSize <= size <= |chain| * vol.lay.clusterSize
    }

    ghost function Summary(): Meta
      reads this
    {
      Meta(isFile, flags, size, |chain|)
    }

    twostate predicate Same()
      reads this
    {
      && start == old(start) && flags == old(flags) && size == old(size)
      && validSize == old(validSize) && onDisk == old(onDisk) && chain == old(chain)
    }
  }

  ghost predicate Outside(vol: Volume, ch: seq<nat>) {
    forall i :: 0 <= i < |ch| ==> !vol.Reserved(ch[i])
  }

  ghost predicate ReservedMarked(vol: Volume, bits: seq<bool>) {
    forall c :: vol.Reserved(c) && c < |bits| ==> bits[c]
  }

  /** Every file is stored, and no two files share a cluster. */
  ghost predicate FilesOk(vol: Volume, fat: seq<u32>, bits: seq<bool>, files: set<Inode>)
    reads files
  {
    && (forall f :: f in files ==> f.Stored(vol, fat, bits))
    && (forall f, g :: f in files && g in files && f != g ==> Disjoint(f.chain, g.chain))
  }

  /** The invariant of every run over the live files. */
  ghost predicate FsInv(vol: Volume, files: set<Inode>)
    reads vol, files
  {
    && vol.Valid() && vol.UsedOk() && FIRST_CLUSTER < vol.geo.numClusters
    && ReservedMarked(vol, vol.Bits) && FilesOk(vol, vol.Fat, vol.Bits, files)
  }

  /** Clusters marked before, other than those of `ch`, are still marked and still linked as before. */
  predicate KeptBut(fat: seq<u32>, bits: seq<bool>, fat': seq<u32>, bits': seq<bool>, ch: seq<nat>) {
    && |fat| == |fat'| == |bits| == |bits'|
    && forall c :: 0 <= c < |bits| && bits[c] && c !in ch ==> bits'[c] && fat'[c] == fat[c]
  }

  lemma StoredFrame(vol: Volume, fat: seq<u32>, bits: seq<bool>, fat': seq<u32>, bits': seq<bool>, f: Inode,
                    ch: seq<nat>)
    requires f.Stored(vol, fat, bits) && KeptBut(fat, bits, fat', bits', ch) && Disjoint(f.chain, ch)
    ensures f.Stored(vol, fat', bits')
  {
    hide IsChain, CountFor, Run;
    if f.chain != [] && f.flags != NO_FAT_CHAIN {
      forall i | 0 <= i < |f.chain|
        ensures f.chain[i] < |fat| && bits'[f.chain[i]] && fat'[f.chain[i]] == fat[f.chain[i]]
      {
      }
      ChainFrame(fat, fat', f.chain);
    }
  }

  /** A change confined to `ch` leaves every file disjoint from it stored. */
  lemma FilesFrame(vol: Volume, fat: seq<u32>, bits: seq<bool>, fat': seq<u32>, bits': seq<bool>,
                   files: set<Inode>, ch: seq<nat>)
    requires FilesOk(vol, fat, bits, files) && KeptBut(fat, bits, fat', bits', ch)
    requires forall f :: f in files ==> Disjoint(f.chain, ch)
    ensures FilesOk(vol, fat', bits', files)
  {
    hide Inode.Stored, KeptBut, Disjoint;
    forall f | f in files
      ensures f.Stored(vol, fat', bits')
    {
      StoredFrame(vol, fat, bits, fat', bits', f, ch);
    }
  }

  lemma FilesWithout(vol: Volume, fat: seq<u32>, bits: seq<bool>, files: set<Inode>, f: Inode)
    requires FilesOk(vol, fat, bits, files) && f in files
    ensures FilesOk(vol, fat, bits, files - {f}) && forall g :: g in files - {f} ==> Disjoint(g.chain, f.chain)
  {
    hide Inode.Stored;
  }

  /** Putting a file back whose clusters are its old ones or were free before. */
  lemma FilesWith(vol: Volume, fat: seq<u32>, bits: seq<bool>, files: set<Inode>, f: Inode)
    requires FilesOk(vol, fat, bits, files - {f}) && f.Stored(vol, fat, bits)
    requires forall g :: g in files - {f} ==> Disjoint(g.chain, f.chain)
    ensures FilesOk(vol, fat, bits, files)
  {
    hide Inode.Stored;
  }

  /** What the invariant says about each file and each pair of files. */
  lemma FsInvSays(vol: Volume, files: set<Inode>, f: Inode)
    requires FsInv(vol, files) && f in files
    ensures Distinct(f.chain) && Clusters(vol.geo.numClusters, f.chain) && vol.lay.clusterSize > 0
    ensures |f.chain| == CountFor(f.onDisk, vol.lay.clusterSize)
    ensures forall i :: 0 <= i < |f.chain| ==> f.chain[i] < |vol.Bits| && vol.Bits[f.chain[i]] && !vol.Reserved(f.chain[i])
    ensures forall g :: g in files && g != f ==> Disjoint(f.chain, g.chain)
  {
    hide Volume.Valid, CountFor, IsChain, Run;
    vol.MountedHere();
    if f.chain != [] {
      DescribedDistinct(vol.Fat, Chain(f.start, |f.chain|, f.flags), f.chain);
    }
  }

  /** exfat_set_volume_dirty and exfat_clear_volume_dirty: a write of the boot sector that may fail. */
  method Bracket(vol: Volume) returns (ok: bool)
    modifies vol`writeFaults
    ensures vol.writeFaults == old(vol.writeFaults) + (if ok then 0 else 1)
  {
    ok := *;
    if !ok {
      vol.writeFaults := vol.writeFaults + 1;
    }
  }

  /** s_maxbytes. */
  function MaxBytes(vol: Volume): nat
    requires FIRST_CLUSTER <= vol.geo.numClusters
  {
    (vol.geo.numClusters - FIRST_CLUSTER) * vol.lay.clusterSize
  }

  // ----- exfat_truncate_extend

  /** The last cluster of a file, or EOF if it has none. */
  method TailOf(vol: Volume, f: Inode, numPhys: nat) returns (e: Errno, tail: nat)
    requires vol.Valid() && f.Stored(vol, vol.Fat, vol.Bits) && f.flags == FAT_CHAIN && numPhys == |f.chain|
    modifies vol`readFaults
    ensures e == OK || e == EIO
    ensures vol.readFaults == old(vol.readFaults) + (if e == OK then 0 else 1)
    ensures e == OK ==> tail == if f.chain == [] then EOF_CLUSTER else f.chain[|f.chain| - 1]
  {
    hide Volume.Valid, CountFor;
    vol.MountedHere();
    e, tail := OK, EOF_CLUSTER;
    if numPhys > 0 && f.start != EOF_CLUSTER && f.start != FREE_CLUSTER {
      ChainBound(vol.Fat, f.chain);
      var cur, guard := f.start, 0;
      while guard + 1 < numPhys && guard < MAX_CHAIN_LEN
        invariant vol.readFaults == old(vol.readFaults)
        invariant 0 <= guard < numPhys && cur == f.chain[guard]
      {
        assert NextOf(vol.Fat, f.chain[guard]) == To(f.chain[guard + 1]);
        var next := vol.GetNext(cur);
        if next.NoNext? {
          return EIO, EOF_CLUSTER;
        }
        if next.clu == EOF_CLUSTER {
          break;
        }
        cur := next.clu;
        guard := guard + 1;
      }
      tail := cur;
    }
  }

  /** The clusters a file gained are ones that were free, and nothing else was marked. */
  twostate predicate Gained(vol: Volume, f: Inode, part: seq<nat>)
    reads vol, f
  {
    && f.chain == old(f.chain) + part && f.flags == old(f.flags) && f.validSize == old(f.validSize)
    && AllFree(old(vol.Bits), part) && vol.Bits == PutAll(old(vol.Bits), part, true)
    && vol.used == (if old(vol.used) == UNTRACKED then UNTRACKED else old(vol.used) + |part|)
    && (vol.used == UNTRACKED <==> old(vol.used) == UNTRACKED)
    && CountFree(vol.Bits) + |part| == CountFree(old(vol.Bits))
  }

  /** The bitmap and the used count are as before. */
  twostate predicate Restored(vol: Volume)
    reads vol
  {
    vol.Bits == old(vol.Bits) && vol.used == old(vol.used)
  }

  lemma JoinedStored(vol: Volume, fat0: seq<u32>, bits0: seq<bool>, fat1: seq<u32>, bits': seq<bool>,
                     ch: seq<nat>, part: seq<nat>)
    requires |fat0| == |bits0| == |fat1| == |bits'| <= BAD_CLUSTER && ReservedMarked(vol, bits0)
    requires AllMarked(bits0, ch) && Outside(vol, ch) && (ch != [] ==> IsChain(fat0, ch))
    requires IsChain(fat1, part) && AllFree(bits0, part) && bits' == PutAll(bits0, part, true)
    requires forall c :: 0 <= c < |fat1| && c !in part ==> fat1[c] == fat0[c]
    ensures Disjoint(ch, part) && AllMarked(bits', ch + part) && Outside(vol, ch + part)
    ensures ch != [] ==> IsChain(fat1, ch) && IsChain(fat1[ch[|ch| - 1] := part[0]], ch + part)
    ensures ReservedMarked(vol, bits') && (ch != [] ==> ch[|ch| - 1] !in part)
    ensures KeptBut(fat0, bits0, fat1, bits', []) && KeptBut(fat0, bits0, fat1, bits0, [])
    ensures ch != [] ==> KeptBut(fat0, bits0, fat1[ch[|ch| - 1] := part[0]], bits', ch)
  {
    forall c | 0 <= c < |bits0|
      ensures bits'[c] == (c in part || bits0[c])
    {
      PutAllReads(bits0, part, true, c);
    }
    hide PutAll, IsChain;
    if ch != [] {
      LastOf(fat1, part);
      ChainFrame(fat0, fat1, ch);
      LastOf(fat1, ch);
      ChainJoin(fat1, ch, part);
    }
  }

  lemma AppendedStored(vol: Volume, fat: seq<u32>, bits: seq<bool>, f: Inode, newSize: nat)
    requires vol.lay.clusterSize > 0 && |fat| == |bits| && f.flags == FAT_CHAIN && f.chain != []
    requires AllMarked(bits, f.chain) && Outside(vol, f.chain) && IsChain(fat, f.chain) && f.start == f.chain[0]
    requires |f.chain| == CountFor(newSize, vol.lay.clusterSize) && f.onDisk == |f.chain| * vol.lay.clusterSize
    requires f.size == newSize && f.validSize <= newSize
    ensures f.Stored(vol, fat, bits)
  {
    hide IsChain, CountFor;
    CountForExact(|f.chain|, vol.lay.clusterSize);
    CountForCovers(newSize, vol.lay.clusterSize);
  }

  /** The failure path after a refused link: the new chain is given back, and nothing older is touched. */
  method GiveBack(vol: Volume, chain: Chain, ghost taken: seq<nat>, ghost fat0: seq<u32>,
                  ghost bits0: seq<bool>, ghost files: set<Inode>)
    requires vol.Valid() && vol.UsedOk() && IsChain(vol.Fat, taken) && chain == Chain(taken[0], |taken|, FAT_CHAIN)
    requires |fat0| == |bits0| == |vol.Fat| && FilesOk(vol, fat0, bits0, files) && ReservedMarked(vol, bits0)
    requires AllFree(bits0, taken) && vol.Bits == PutAll(bits0, taken, true)
    modifies vol
    ensures vol.Valid() && vol.UsedOk() && vol.Fat == old(vol.Fat) && vol.UserData() == old(vol.UserData()) && FaultsGrow(vol)
    ensures ReservedMarked(vol, vol.Bits)
    ensures KeptBut(fat0, bits0, old(vol.Fat), bits0, []) ==> FilesOk(vol, vol.Fat, vol.Bits, files)
    ensures NoFault(vol) ==> vol.Bits == bits0 && vol.used == UsedLess(old(vol.used), |taken|)
    ensures KeepsSynced(vol)
  {
    hide Volume.Valid, Volume.UserData, Volume.Synced, PutAll, AllFree, IsChain, FilesOk, Volume.UsedExact, CountFree;
    vol.MountedHere();
    DescribedBy(vol.Fat, taken);
    var _, cleared := FreeCluster(vol, chain, taken);
    vol.MountedHere();
    Undo(bits0, taken, cleared);
    if KeptBut(fat0, bits0, old(vol.Fat), bits0, []) {
      FilesFrame(vol, fat0, bits0, vol.Fat, vol.Bits, files, []);
    }
  }

  lemma DescribedBy(fat: seq<u32>, ch: seq<nat>)
    requires IsChain(fat, ch)
    ensures ch != [] && Describes(fat, Chain(ch[0], |ch|, FAT_CHAIN), ch)
  {
  }

  /** Allocating clusters and linking them to the end of the file.  `at` counts the faults when a failure
      begins to be undone. */
  method Append(vol: Volume, f: Inode, tail: nat, numPhys: nat, numNew: nat, newSize: nat, ghost files: set<Inode>)
    returns (e: Errno, ghost part: seq<nat>, ghost at: Faults)
    requires FsInv(vol, files) && f in files && f.flags == FAT_CHAIN && f.size <= newSize
    requires numPhys == |f.chain| < numNew && vol.lay.clusterSize > 0 && numNew == CountFor(newSize, vol.lay.clusterSize)
    requires tail == if f.chain == [] then EOF_CLUSTER else f.chain[|f.chain| - 1]
    modifies vol, f
    ensures vol.Valid() && vol.UsedOk() && vol.UserData() == old(vol.UserData()) && FaultsGrow(vol)
    ensures e == OK || vol.geo.numFats == 1 || vol.writeFaults == old(vol.writeFaults) ==> FsInv(vol, files)
    ensures e == OK || e == ENOSPC || e == EIO
    ensures e == OK ==> Gained(vol, f, part) && f.size == newSize && |f.chain| == numNew
    ensures e == OK ==> Picked(old(vol.Bits), ScanStart(old(vol.searchPtr), vol.geo.numClusters), part)
    ensures e == OK && old(vol.UsedExact()) ==> vol.UsedExact()
    ensures KeepsSynced(vol)
    ensures if e == OK then NoFault(vol) else Reached(vol, at, if e == EIO then 1 else 0)
    ensures e != OK ==> f.Same()
    ensures e == ENOSPC && old(vol.UsedExact()) ==> numNew - numPhys > CountFree(old(vol.Bits))
    ensures e == ENOSPC && vol.readFaults == at.ofReads ==> Restored(vol)
    ensures e == EIO && vol.readFaults == at.ofReads && vol.writeFaults == at.ofWrites ==> Restored(vol)
  {
    hide Volume.Valid, Volume.Synced, Volume.UserData, Volume.UsedExact, PutAll, AllFree;
    hide CountFree, IsChain, FilesOk, CountFor, Linked, Inode.Stored, Picked;
    vol.MountedHere();
    FilesHave(vol, vol.Fat, vol.Bits, files, f);
    ghost var fat0, bits0 := vol.Fat, vol.Bits;
    var chain;
    e, chain, part, at := AllocCluster(vol, numNew - numPhys, Chain(EOF_CLUSTER, 0, FAT_CHAIN));
    vol.MountedHere();
    if e != OK {
      FilesFrame(vol, fat0, bits0, vol.Fat, vol.Bits, files, []);
      return;
    }
    e, at := LinkNew(vol, f, tail, chain, numNew, newSize, part, fat0, bits0, files);
  }

  /** The second half: the new chain `part` becomes the file's, or is linked to the file's last cluster. */
  method LinkNew(vol: Volume, f: Inode, tail: nat, chain: Chain, numNew: nat, newSize: nat,
                 ghost part: seq<nat>, ghost fat0: seq<u32>, ghost bits0: seq<bool>, ghost files: set<Inode>)
    returns (e: Errno, ghost at: Faults)
    requires vol.Valid() && vol.UsedOk() && FIRST_CLUSTER < vol.geo.numClusters && f in files
    requires f.Stored(vol, fat0, bits0) && f.flags == FAT_CHAIN && f.size <= newSize
    requires FilesOk(vol, fat0, bits0, files) && ReservedMarked(vol, bits0) && |fat0| == |bits0| == |vol.Fat|
    requires vol.lay.clusterSize > 0 && numNew == |f.chain| + |part| == CountFor(newSize, vol.lay.clusterSize)
    requires IsChain(vol.Fat, part) && AllFree(bits0, part) && vol.Bits == PutAll(bits0, part, true)
    requires forall c :: 0 <= c < |fat0| && c !in part ==> vol.Fat[c] == fat0[c]
    requires chain == Chain(part[0], |part|, FAT_CHAIN)
    requires tail == if f.chain == [] then EOF_CLUSTER else f.chain[|f.chain| - 1]
    modifies vol, f
    ensures vol.Valid() && vol.UsedOk() && vol.UserData() == old(vol.UserData()) && FaultsGrow(vol)
    ensures e == OK || vol.geo.numFats == 1 || vol.writeFaults == old(vol.writeFaults) ==> FsInv(vol, files)
    ensures e == OK ==> f.chain == old(f.chain) + part && f.size == newSize && f.flags == old(f.flags) && f.validSize == old(f.validSize)
    ensures e == OK ==> vol.Bits == old(vol.Bits) && vol.used == old(vol.used) && vol.amap == old(vol.amap) && vol.Data == old(vol.Data)
    ensures e != OK ==> e == EIO && f.Same()
    ensures KeepsSynced(vol)
    ensures if e == OK then NoFault(vol) else Reached(vol, at, 1)
    ensures e != OK && vol.readFaults == at.ofReads && vol.writeFaults == at.ofWrites ==>
              vol.Bits == bits0 && vol.used == UsedLess(old(vol.used), |part|)
  {
    hide Volume.Valid, Volume.Synced, Volume.UserData, Volume.UsedExact, PutAll, AllFree, CountFree, IsChain;
    hide FilesOk, CountFor, Linked, Inode.Stored, KeptBut, Disjoint, Outside, AllMarked;
    vol.MountedHere();
    FilesHave(vol, fat0, bits0, files, f);
    FilesWithout(vol, fat0, bits0, files, f);
    ghost var ch := f.chain;
    JoinedStored(vol, fat0, bits0, vol.Fat, vol.Bits, ch, part);
    LastOf(vol.Fat, part);
    if ch != [] {
      LastOf(vol.Fat, ch);
    }
    at := Faults(vol.readFaults, vol.writeFaults);
    if tail == EOF_CLUSTER {
      f.start := chain.dir;
      assert ch + part == part;
      e := OK;
    } else {
      ChainOther(vol.Fat, part, tail, part[0]);
      e := vol.EntSet(tail, chain.dir);
      at := Faults(vol.readFaults, vol.writeFaults);
      if e != OK {
        GiveBack(vol, chain, part, fat0, bits0, files);
        return;
      }
    }
    f.size := newSize;
    f.onDisk := numNew * vol.lay.clusterSize;
    f.chain := ch + part;
    AppendedStored(vol, vol.Fat, vol.Bits, f, newSize);
    AppendedFiles(vol, fat0, bits0, files, f, ch, part);
  }

  lemma AppendedFiles(vol: Volume, fat0: seq<u32>, bits0: seq<bool>, files: set<Inode>, f: Inode, ch: seq<nat>,
                      part: seq<nat>)
    requires FilesOk(vol, fat0, bits0, files - {f}) && forall g :: g in files - {f} ==> Disjoint(g.chain, ch)
    requires AllFree(bits0, part) && KeptBut(fat0, bits0, vol.Fat, vol.Bits, ch)
    requires f.chain == ch + part && f.Stored(vol, vol.Fat, vol.Bits)
    ensures FilesOk(vol, vol.Fat, vol.Bits, files)
  {
    hide FilesOk, KeptBut, AllFree, Inode.Stored;
    FilesFrame(vol, fat0, bits0, vol.Fat, vol.Bits, files - {f}, ch);
    DisjointJoin(bits0, files - {f}, ch, part, vol, fat0);
    FilesWith(vol, vol.Fat, vol.Bits, files, f);
  }

  lemma FilesHave(vol: Volume, fat: seq<u32>, bits: seq<bool>, files: set<Inode>, f: Inode)
    requires FilesOk(vol, fat, bits, files) && f in files
    ensures f.Stored(vol, fat, bits) && |fat| == |bits| && f.validSize <= f.size
    ensures f.flags == FAT_CHAIN && f.chain != [] ==> IsChain(fat, f.chain) && f.start == f.chain[0]
    ensures AllMarked(bits, f.chain) && Outside(vol, f.chain)
  {
    hide CountFor;
  }

  /** Files that avoid `ch` also avoid clusters that were free. */
  lemma DisjointJoin(bits: seq<bool>, files: set<Inode>, ch: seq<nat>, part: seq<nat>, vol: Volume, fat: seq<u32>)
    requires FilesOk(vol, fat, bits, files) && AllFree(bits, part) && forall g :: g in files ==> Disjoint(g.chain, ch)
    ensures forall g :: g in files ==> Disjoint(g.chain, ch + part)
  {
    hide CountFor, IsChain;
    forall g | g in files
      ensures Disjoint(g.chain, ch + part)
    {
      assert g.Stored(vol, fat, bits);
    }
  }

  /** exfat_truncate_extend.  `at` counts the faults when a failure begins to be undone. */
  method Extend(vol: Volume, f: Inode, newSize: nat, ghost files: set<Inode>)
    returns (e: Errno, ghost part: seq<nat>, ghost at: Faults)
    requires FsInv(vol, files) && f in files
    modifies vol, f
    ensures vol.Valid() && vol.UsedOk() && vol.UserData() == old(vol.UserData()) && FaultsGrow(vol)
    ensures e == OK || vol.geo.numFats == 1 || vol.writeFaults == old(vol.writeFaults) ==> FsInv(vol, files)
    ensures e == EINVAL <==> newSize <= old(f.size) || old(f.flags) != FAT_CHAIN
    ensures e == EFBIG <==> newSize > old(f.size) && old(f.flags) == FAT_CHAIN && newSize > MaxBytes(vol)
    ensures e == OK || e == EINVAL || e == EFBIG || e == ENOSPC || e == EIO
    ensures e == OK ==> Gained(vol, f, part) && f.size == newSize && vol.lay.clusterSize > 0
    ensures e == OK && FIRST_CLUSTER < vol.geo.numClusters ==> Picked(old(vol.Bits), ScanStart(old(vol.searchPtr), vol.geo.numClusters), part)
    ensures e == OK ==> |f.chain| == var n := CountFor(newSize, vol.lay.clusterSize); if n <= |old(f.chain)| then |old(f.chain)| else n
    ensures e == OK && old(vol.UsedExact()) ==> vol.UsedExact()
    ensures KeepsSynced(vol) && (e == OK && old(vol.Synced()) ==> vol.Synced())
    ensures e != OK ==> f.Same() && Reached(vol, at, if e == EIO then 1 else 0)
    ensures e == ENOSPC && old(vol.UsedExact()) ==>
              CountFor(newSize, vol.lay.clusterSize) > |f.chain| + CountFree(old(vol.Bits))
    ensures e == EINVAL || e == EFBIG ==> Restored(vol)
    ensures e == ENOSPC && vol.readFaults == at.ofReads ==> Restored(vol)
    ensures e == EIO && vol.readFaults == at.ofReads && vol.writeFaults == at.ofWrites ==> Restored(vol)
  {
    hide Volume.Valid, Volume.Synced, Volume.UserData, Volume.UsedExact, PutAll, AllFree;
    hide CountFree, IsChain, FilesOk, CountFor, Linked, Picked;
    vol.MountedHere();
    FilesHave(vol, vol.Fat, vol.Bits, files, f);
    part, at := [], Faults(vol.readFaults, vol.writeFaults);
    PutNothing(vol.Bits);
    NoneFree(vol.Bits);
    if newSize <= f.size || f.flags != FAT_CHAIN {
      return EINVAL, [], at;
    }
    SomeBytes(vol);
    if MaxBytes(vol) != 0 && newSize > MaxBytes(vol) {
      return EFBIG, [], at;
    }
    var numNew, numPhys := CountFor(newSize, vol.lay.clusterSize), CountFor(f.onDisk, vol.lay.clusterSize);
    CountForFits(newSize, vol.geo.numClusters - FIRST_CLUSTER, vol.lay.clusterSize);
    CountForFits(newSize, numPhys, vol.lay.clusterSize);
    if numNew > 0xFFFF_FFFF {
      return EFBIG, [], at;
    }
    var ok := Bracket(vol);
    at := Faults(vol.readFaults, vol.writeFaults);
    if !ok {
      return EIO, [], at;
    }
    if numNew <= numPhys {
      FilesWithout(vol, vol.Fat, vol.Bits, files, f);
      f.size := newSize;
      FilesWith(vol, vol.Fat, vol.Bits, files, f);
      PickedNone(vol.Bits, ScanStart(vol.searchPtr, vol.geo.numClusters));
      e := OK;
    } else {
      var tail;
      e, tail := TailOf(vol, f, numPhys);
      at := Faults(vol.readFaults, vol.writeFaults);
      if e == OK {
        e, part, at := Append(vol, f, tail, numPhys, numNew, newSize, files);
      }
    }
    ok := Bracket(vol);
  }

  lemma NoneFree(bits: seq<bool>)
    ensures AllFree(bits, [])
  {
  }

  lemma SomeBytes(vol: Volume)
    requires vol.Valid() && FIRST_CLUSTER < vol.geo.numClusters
    ensures vol.lay.clusterSize > 0 && MaxBytes(vol) > 0
  {
    vol.MountedHere();
    hide Volume.Valid;
    ScaleLe(1, vol.geo.numClusters - FIRST_CLUSTER, vol.lay.clusterSize);
  }

  // ----- exfat_truncate_shrink

  /** The file is its first `k` clusters and `newSize` bytes. */
  twostate predicate CutTo(f: Inode, k: nat, newSize: nat)
    reads f
  {
    && k <= |old(f.chain)| && f.chain == old(f.chain)[..k] && f.size == newSize && f.flags == old(f.flags)
    && f.validSize == (if old(f.validSize) > newSize then newSize else old(f.validSize))
  }

  /** Clearing bits of `ch` leaves every other marked cluster marked. */
  lemma ClearedKept(vol: Volume, fat: seq<u32>, bits: seq<bool>, ch: seq<nat>, cleared: seq<nat>)
    requires |fat| == |bits| && Outside(vol, ch) && ReservedMarked(vol, bits)
    requires forall i :: 0 <= i < |cleared| ==> cleared[i] in ch
    ensures KeptBut(fat, bits, fat, PutAll(bits, cleared, false), ch)
    ensures ReservedMarked(vol, PutAll(bits, cleared, false))
  {
    forall c | 0 <= c < |bits|
      ensures PutAll(bits, cleared, false)[c] == (c !in cleared && bits[c])
    {
      PutAllReads(bits, cleared, false, c);
    }
    hide PutAll;
  }

  /** Cutting to nothing: the inode is reset before its clusters are released. */
  method ReleaseAll(vol: Volume, f: Inode, numPhys: nat, ghost files: set<Inode>)
    returns (e: Errno, ghost cleared: seq<nat>)
    requires FsInv(vol, files) && f in files && f.flags == FAT_CHAIN && numPhys == |f.chain| > 0
    modifies vol, f
    ensures FsInv(vol, files) && vol.UserData() == old(vol.UserData()) && FaultsGrow(vol) && vol.Fat == old(vol.Fat)
    ensures f.chain == [] && f.size == 0 && f.flags == old(f.flags) && f.validSize == 0
    ensures vol.Bits == PutAll(old(vol.Bits), cleared, false) && cleared <= old(f.chain)
    ensures e == OK ==> cleared == old(f.chain)
    ensures e == OK || (e == EIO && vol.readFaults + vol.writeFaults > old(vol.readFaults + vol.writeFaults))
    ensures vol.writeFaults == old(vol.writeFaults) && old(vol.UsedExact()) ==> vol.UsedExact()
    ensures vol.used == UNTRACKED <==> old(vol.used) == UNTRACKED
    ensures KeepsSynced(vol) && (e == OK ==> vol.writeFaults == old(vol.writeFaults))
  {
    hide Volume.Valid, Volume.Synced, Volume.UserData, Volume.UsedExact, PutAll;
    hide CountFree, IsChain, FilesOk, Inode.Stored, KeptBut;
    vol.MountedHere();
    FilesHave(vol, vol.Fat, vol.Bits, files, f);
    FilesWithout(vol, vol.Fat, vol.Bits, files, f);
    ghost var bits, ch := vol.Bits, f.chain;
    DescribedBy(vol.Fat, ch);
    var whole := Chain(f.start, numPhys, FAT_CHAIN);
    f.size, f.onDisk, f.validSize, f.start, f.chain := 0, 0, 0, EOF_CLUSTER, [];
    e, cleared := FreeCluster(vol, whole, ch);
    vol.MountedHere();
    ClearedKept(vol, vol.Fat, bits, ch, cleared);
    FilesFrame(vol, vol.Fat, bits, vol.Fat, vol.Bits, files - {f}, ch);
    EmptyStored(vol, vol.Fat, vol.Bits, f);
    FilesWith(vol, vol.Fat, vol.Bits, files, f);
    if e != OK {
      e := EIO;
    }
  }

  lemma EmptyStored(vol: Volume, fat: seq<u32>, bits: seq<bool>, f: Inode)
    requires vol.lay.clusterSize > 0 && |fat| == |bits|
    requires f.chain == [] && f.start == EOF_CLUSTER && f.size == f.onDisk == f.validSize == 0
    ensures f.Stored(vol, fat, bits)
  {
    CountForCovers(0, vol.lay.clusterSize);
  }

  /** walk_to_new_tail. */
  method WalkTo(vol: Volume, start: nat, hops: nat, ghost ch: seq<nat>) returns (e: Errno, tail: nat)
    requires vol.Valid() && IsChain(vol.Fat, ch) && start == ch[0] && hops < |ch|
    modifies vol`readFaults
    ensures vol.readFaults >= old(vol.readFaults)
    ensures e == OK || (e == EIO && vol.readFaults > old(vol.readFaults))
    ensures e == OK ==> tail == ch[hops]
  {
    hide Volume.Valid, IsChain, NextOf, Linked;
    vol.MountedHere();
    ChainBound(vol.Fat, ch);
    tail := start;
    var guard := 0;
    while guard < hops
      invariant vol.readFaults >= old(vol.readFaults)
      invariant 0 <= guard <= hops && tail == ch[guard]
    {
      if guard >= MAX_CHAIN_LEN {
        return EIO, EOF_CLUSTER;
      }
      ChainLink(vol.Fat, ch, guard);
      ChainLink(vol.Fat, ch, guard + 1);
      var next := vol.GetNext(tail);
      if next.NoNext? {
        return next.err, EOF_CLUSTER;
      }
      if next.clu == EOF_CLUSTER || next.clu == FREE_CLUSTER {
        return EIO, EOF_CLUSTER;
      }
      tail := next.clu;
      guard := guard + 1;
    }
    e := OK;
  }

  lemma CutStored(vol: Volume, fat: seq<u32>, bits: seq<bool>, ch: seq<nat>, k: nat, cleared: seq<nat>,
                  f: Inode, newSize: nat)
    requires vol.lay.clusterSize > 0 && |fat| == |bits| && f.flags == FAT_CHAIN && 0 < k < |ch|
    requires IsChain(fat, ch) && AllMarked(bits, ch) && Outside(vol, ch) && cleared <= ch[k..]
    requires f.chain == ch[..k] && f.start == ch[0] && f.onDisk == k * vol.lay.clusterSize
    requires f.validSize <= f.size == newSize && k == CountFor(newSize, vol.lay.clusterSize)
    ensures f.Stored(vol, fat[ch[k - 1] := EOF_CLUSTER], PutAll(bits, cleared, false))
  {
    hide CountFor;
    CountForExact(k, vol.lay.clusterSize);
    CountForCovers(newSize, vol.lay.clusterSize);
    ChainCut(fat, ch, k);
    ChainDistinct(fat, ch);
    hide IsChain, PutAll;
    forall i | 0 <= i < k
      ensures PutAll(bits, cleared, false)[ch[i]]
    {
      PutAllReads(bits, cleared, false, ch[i]);
      assert forall j :: 0 <= j < |cleared| ==> cleared[j] == ch[k..][j] == ch[k + j];
    }
  }

  lemma CutKept(fat: seq<u32>, bits: seq<bool>, bits': seq<bool>, ch: seq<nat>, k: nat)
    requires KeptBut(fat, bits, fat, bits', ch) && 0 < k <= |ch| && ch[k - 1] < |fat|
    ensures KeptBut(fat, bits, fat[ch[k - 1] := EOF_CLUSTER], bits', ch)
  {
  }

  /** Cutting to k > 0 clusters: the new tail is ended, the inode updated, then the rest released. */
  method CutTail(vol: Volume, f: Inode, numPhys: nat, k: nat, newSize: nat, ghost files: set<Inode>)
    returns (e: Errno, ghost cleared: seq<nat>)
    requires FsInv(vol, files) && f in files && f.flags == FAT_CHAIN && 0 < k < numPhys == |f.chain| && newSize <= f.size
    requires vol.lay.clusterSize > 0 && k == CountFor(newSize, vol.lay.clusterSize)
    modifies vol, f
    ensures vol.Valid() && vol.UsedOk() && vol.UserData() == old(vol.UserData()) && FaultsGrow(vol)
    ensures e == OK || vol.geo.numFats == 1 || vol.writeFaults == old(vol.writeFaults) ==> FsInv(vol, files)
    ensures vol.Bits == PutAll(old(vol.Bits), cleared, false) && cleared <= old(f.chain)[k..]
    ensures e == OK ==> CutTo(f, k, newSize) && cleared == old(f.chain)[k..]
    ensures e != OK ==> CutTo(f, k, newSize) || (f.Same() && cleared == [])
    ensures e == OK || (e == EIO && vol.readFaults + vol.writeFaults > old(vol.readFaults + vol.writeFaults))
    ensures vol.writeFaults == old(vol.writeFaults) && old(vol.UsedExact()) ==> vol.UsedExact()
    ensures vol.used == UNTRACKED <==> old(vol.used) == UNTRACKED
    ensures KeepsSynced(vol) && (e == OK ==> vol.writeFaults == old(vol.writeFaults))
  {
    hide Volume.Valid, Volume.Synced, Volume.UserData, Volume.UsedExact, PutAll, CountFree, IsChain;
    hide FilesOk, Inode.Stored, KeptBut, NextOf, CountFor, Linked;
    vol.MountedHere();
    FilesHave(vol, vol.Fat, vol.Bits, files, f);
    cleared := [];
    PutNothing(vol.Bits);
    var tail;
    e, tail := WalkTo(vol, f.start, k - 1, f.chain);
    if e != OK {
      return;
    }
    ChainLink(vol.Fat, f.chain, k - 1);
    ChainLink(vol.Fat, f.chain, k);
    var next := vol.GetNext(tail);
    if next.NoNext? || next.clu == EOF_CLUSTER || next.clu == FREE_CLUSTER {
      return EIO, [];
    }
    e := vol.EntSet(tail, EOF_CLUSTER);
    if e != OK {
      return;
    }
    e, cleared := DropTail(vol, f, numPhys, k, newSize, next.clu, old(vol.Fat), files);
  }

  /** The second half, once the new tail is an end of chain. */
  method DropTail(vol: Volume, f: Inode, numPhys: nat, k: nat, newSize: nat, first: nat, ghost fat: seq<u32>,
                  ghost files: set<Inode>)
    returns (e: Errno, ghost cleared: seq<nat>)
    requires vol.Valid() && vol.UsedOk() && FIRST_CLUSTER < vol.geo.numClusters && ReservedMarked(vol, vol.Bits)
    requires FilesOk(vol, fat, vol.Bits, files) && f in files && f.Stored(vol, fat, vol.Bits)
    requires f.flags == FAT_CHAIN && 0 < k < numPhys == |f.chain| && newSize <= f.size && first == f.chain[k]
    requires vol.lay.clusterSize > 0 && k == CountFor(newSize, vol.lay.clusterSize)
    requires f.chain[k - 1] < |fat| && vol.Fat == fat[f.chain[k - 1] := EOF_CLUSTER]
    modifies vol, f
    ensures FsInv(vol, files) && vol.UserData() == old(vol.UserData()) && FaultsGrow(vol)
    ensures vol.Bits == PutAll(old(vol.Bits), cleared, false) && cleared <= old(f.chain)[k..] && CutTo(f, k, newSize)
    ensures e == OK ==> cleared == old(f.chain)[k..]
    ensures e == OK || (e == EIO && vol.readFaults + vol.writeFaults > old(vol.readFaults + vol.writeFaults))
    ensures vol.writeFaults == old(vol.writeFaults) && old(vol.UsedExact()) ==> vol.UsedExact()
    ensures vol.used == UNTRACKED <==> old(vol.used) == UNTRACKED
    ensures KeepsSynced(vol) && (e == OK ==> vol.writeFaults == old(vol.writeFaults))
  {
    hide Volume.Valid, Volume.Synced, Volume.UserData, Volume.UsedExact, PutAll, CountFree, IsChain;
    hide FilesOk, Inode.Stored, KeptBut, NextOf, CountFor, Linked;
    vol.MountedHere();
    FilesHave(vol, fat, vol.Bits, files, f);
    FilesWithout(vol, fat, vol.Bits, files, f);
    ghost var bits, ch := vol.Bits, f.chain;
    ChainCut(fat, ch, k);
    DescribedBy(vol.Fat, ch[k..]);
    f.size, f.onDisk, f.chain := newSize, k * vol.lay.clusterSize, ch[..k];
    if f.validSize > newSize {
      f.validSize := newSize;
    }
    e, cleared := FreeCluster(vol, Chain(first, numPhys - k, FAT_CHAIN), ch[k..]);
    vol.MountedHere();
    ClearedKept(vol, fat, bits, ch, cleared);
    CutKept(fat, bits, vol.Bits, ch, k);
    FilesFrame(vol, fat, bits, vol.Fat, vol.Bits, files - {f}, ch);
    CutStored(vol, fat, bits, ch, k, cleared, f, newSize);
    FilesWith(vol, vol.Fat, vol.Bits, files, f);
    if e != OK {
      e := EIO;
    }
  }

  method Shrink(vol: Volume, f: Inode, newSize: nat, ghost files: set<Inode>)
    returns (e: Errno, ghost cleared: seq<nat>)
    requires FsInv(vol, files) && f in files
    modifies vol, f
    ensures vol.Valid() && vol.UsedOk() && vol.UserData() == old(vol.UserData()) && FaultsGrow(vol)
    ensures e == OK || vol.geo.numFats == 1 || vol.writeFaults == old(vol.writeFaults) ==> FsInv(vol, files)
    ensures e == EINVAL <==> newSize >= old(f.size) || old(f.flags) != FAT_CHAIN
    ensures e != EINVAL ==> vol.lay.clusterSize > 0 && CountFor(newSize, vol.lay.clusterSize) <= |old(f.chain)|
    ensures vol.Bits == PutAll(old(vol.Bits), cleared, false)
    ensures e != EINVAL ==> var k := CountFor(newSize, vol.lay.clusterSize);
              || (CutTo(f, k, newSize) && cleared <= old(f.chain)[k..] && (e == OK ==> cleared == old(f.chain)[k..]))
              || (e != OK && f.Same() && cleared == [])
    ensures e == EINVAL ==> f.Same() && cleared == []
    ensures e == OK || e == EINVAL || (e == EIO && vol.readFaults + vol.writeFaults > old(vol.readFaults + vol.writeFaults))
    ensures (e == OK || vol.writeFaults == old(vol.writeFaults)) && old(vol.UsedExact()) ==> vol.UsedExact()
    ensures vol.used == UNTRACKED <==> old(vol.used) == UNTRACKED
    ensures KeepsSynced(vol) && (e == OK && old(vol.Synced()) ==> vol.Synced())
  {
    hide Volume.Valid, Volume.Synced, Volume.UserData, Volume.UsedExact, PutAll, AllFree;
    hide CountFree, IsChain, FilesOk, CountFor, Linked;
    vol.MountedHere();
    FilesHave(vol, vol.Fat, vol.Bits, files, f);
    cleared := [];
    PutNothing(vol.Bits);
    if newSize >= f.size || f.flags != FAT_CHAIN {
      return EINVAL, [];
    }
    var numNew, numPhys := CountFor(newSize, vol.lay.clusterSize), CountFor(f.onDisk, vol.lay.clusterSize);
    CountForFits(newSize, numPhys, vol.lay.clusterSize);
    CountForCovers(newSize, vol.lay.clusterSize);
    var ok := Bracket(vol);
    if !ok {
      return EIO, [];
    }
    if numNew >= numPhys {
      FilesWithout(vol, vol.Fat, vol.Bits, files, f);
      f.size := newSize;
      if f.validSize > newSize {
        f.validSize := newSize;
      }
      FilesWith(vol, vol.Fat, vol.Bits, files, f);
      e := OK;
    } else if numNew == 0 {
      e, cleared := ReleaseAll(vol, f, numPhys, files);
    } else {
      e, cleared := CutTail(vol, f, numPhys, numNew, newSize, files);
    }
    ok := Bracket(vol);
  }
}
