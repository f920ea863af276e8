/** Truncation, unlink's release of clusters and directory allocation, and runs of file operations over any
    number of files with any device access allowed to fail. */
module FileRuns {
  import opened Bytes
  import opened Layout
  import opened Bitmap
  import opened Chains
  import opened Volumes
  import opened Allocator
  import opened Contents
  import opened Files
  import opened FileIO
  import opened FileSpec

  /** VfsExfatTruncate64. */
  method Truncate(vol: Volume, f: Inode, newSize: nat, ghost files: set<Inode>) returns (e: Errno)
    requires FsInv(vol, files) && f in files
    modifies vol, f
    ensures vol.Valid() && vol.UsedOk() && vol.UserData() == old(vol.UserData()) && FaultsGrow(vol)
    ensures e == OK || vol.geo.numFats == 1 || vol.writeFaults == old(vol.writeFaults) ==> FsInv(vol, files)
    ensures newSize == old(f.size) ==> e == OK && f.Same() && vol.Bits == old(vol.Bits)
    ensures e == EINVAL <==> newSize != old(f.size) && old(f.flags) != FAT_CHAIN
    ensures e == EFBIG <==> newSize > old(f.size) && old(f.flags) == FAT_CHAIN && newSize > MaxBytes(vol)
    ensures newSize > old(f.size) && e == OK ==>
              f.size == newSize && old(f.chain) <= f.chain && AllFree(old(vol.Bits), f.chain[|old(f.chain)|..])
    ensures (newSize >= old(f.size) ==> old(f.chain) <= f.chain) && (newSize <= old(f.size) ==> f.chain <= old(f.chain))
    ensures newSize < old(f.size) && e == OK ==> vol.lay.clusterSize > 0 && CutTo(f, CountFor(newSize, vol.lay.clusterSize), newSize)
    ensures (e == OK || NoFault(vol)) && old(vol.UsedExact()) ==> vol.UsedExact()
    ensures KeepsSynced(vol) && (e == OK && old(vol.Synced()) ==> vol.Synced())
    ensures e == ENOSPC && vol.readFaults == old(vol.readFaults) ==> Restored(vol)
    ensures vol.lay.clusterSize > 0
    ensures NoFault(vol) && old(vol.UsedExact()) ==>
              Outcome(f.Summary(), CountFree(vol.Bits), e)
              == AfterResize(old(f.Summary()), newSize, CountFree(old(vol.Bits)), vol.lay.clusterSize, MaxBytes(vol))
  {
    hide Volume.Valid, Volume.UserData, Volume.UsedExact, Volume.Synced, FilesOk;
    hide CountFor, PutAll, AllFree, Inode.Stored, CountFree;
    vol.MountedHere();
    e := OK;
    if newSize > f.size {
      ghost var part, at;
      e, part, at := Extend(vol, f, newSize, files);
      JoinSplit(old(f.chain), part);
    } else if newSize < f.size {
      e := CutOff(vol, f, newSize, files);
    }
  }

  /** The shrinking half: the cut, and the clusters it sets free. */
  method CutOff(vol: Volume, f: Inode, newSize: nat, ghost files: set<Inode>) returns (e: Errno)
    requires FsInv(vol, files) && f in files && newSize < f.size
    modifies vol, f
    ensures vol.Valid() && vol.UsedOk() && vol.UserData() == old(vol.UserData()) && FaultsGrow(vol)
    ensures e == OK || vol.geo.numFats == 1 || vol.writeFaults == old(vol.writeFaults) ==> FsInv(vol, files)
    ensures e == EINVAL <==> old(f.flags) != FAT_CHAIN
    ensures e == OK || e == EINVAL || (e == EIO && !NoFault(vol))
    ensures e == OK ==> vol.lay.clusterSize > 0 && CutTo(f, CountFor(newSize, vol.lay.clusterSize), newSize)
    ensures e == OK ==> CountFree(vol.Bits) == CountFree(old(vol.Bits)) + |old(f.chain)| - |f.chain|
    ensures e == EINVAL ==> f.Same() && vol.Bits == old(vol.Bits)
    ensures f.chain <= old(f.chain)
    ensures (e == OK || vol.writeFaults == old(vol.writeFaults)) && old(vol.UsedExact()) ==> vol.UsedExact()
    ensures KeepsSynced(vol) && (e == OK && old(vol.Synced()) ==> vol.Synced())
  {
    hide Volume.Valid, Volume.UserData, Volume.UsedExact, Volume.Synced, FilesOk;
    hide CountFor, PutAll, AllFree, Inode.Stored, CountFree, Distinct;
    vol.MountedHere();
    FsInvSays(vol, files, f);
    PutNothing(vol.Bits);
    ghost var ch, cleared := f.chain, [];
    e, cleared := Shrink(vol, f, newSize, files);
    if e == OK {
      ClearedCount(old(vol.Bits), ch, |f.chain|);
    }
  }

  lemma ClearedCount(bits: seq<bool>, ch: seq<nat>, k: nat)
    requires Distinct(ch) && AllMarked(bits, ch) && k <= |ch|
    ensures CountFree(PutAll(bits, ch[k..], false)) == CountFree(bits) + |ch| - k
  {
    CountFreeClear(bits, ch[k..]);
  }

  /** Growing a file that has no spare clusters and cutting it back restores its chain, the bitmap and the
      used count. */
  method GrowAndCut(vol: Volume, f: Inode, newSize: nat, ghost files: set<Inode>) returns (grown: Errno, cut: Errno)
    requires FsInv(vol, files) && f in files && vol.lay.clusterSize > 0
    requires |f.chain| == CountFor(f.size, vol.lay.clusterSize) && vol.UsedExact()
    modifies vol, f
    ensures grown == OK && cut == OK ==>
              && FsInv(vol, files) && f.chain == old(f.chain) && f.size == old(f.size) && f.validSize == old(f.validSize)
              && vol.Bits == old(vol.Bits) && vol.used == old(vol.used) && vol.UserData() == old(vol.UserData())
  {
    hide Volume.Valid, Volume.UserData, Volume.Synced, FsInv, CountFor, PutAll, CountFree, AllFree, Volume.UsedExact;
    ghost var before := vol.Bits;
    var size := f.size;
    cut := EINVAL;
    ghost var part, cleared, k := [], [], |f.chain|;
    SizesOrdered(vol, files, f);
    UsedHere(vol);
    ghost var at;
    grown, part, at := Extend(vol, f, newSize, files);
    if grown != OK {
      return;
    }
    vol.MountedHere();
    JoinSplit(old(f.chain), part);
    cut, cleared := Shrink(vol, f, size, files);
    if cut == OK {
      Undo(before, part, cleared);
      SameUsed(vol, old(vol.used), before);
    }
  }

  lemma SizesOrdered(vol: Volume, files: set<Inode>, f: Inode)
    requires FsInv(vol, files) && f in files
    ensures f.validSize <= f.size
  {
    hide Volume.Valid;
    FilesHave(vol, vol.Fat, vol.Bits, files, f);
  }

  lemma JoinSplit(a: seq<nat>, b: seq<nat>)
    ensures (a + b)[..|a|] == a && (a + b)[|a|..] == b
  {
  }

  lemma UsedHere(vol: Volume)
    requires vol.UsedExact()
    ensures vol.used == UNTRACKED || vol.used + CountFree(vol.Bits) + FIRST_CLUSTER == vol.geo.numClusters
  {
  }

  /** The used count is determined by the bitmap. */
  lemma SameUsed(vol: Volume, used: nat, bits: seq<bool>)
    requires vol.UsedExact() && vol.Bits == bits && (used == UNTRACKED <==> vol.used == UNTRACKED)
    requires used == UNTRACKED || used + CountFree(bits) + FIRST_CLUSTER == vol.geo.numClusters
    ensures vol.used == used
  {
  }

  // ----- unlink and mkdir

  /** The release phase of VfsExfatUnlink: the whole chain is freed, and the file is no longer live. */
  method Release(vol: Volume, f: Inode, ghost files: set<Inode>) returns (e: Errno, ghost cleared: seq<nat>)
    requires FsInv(vol, files) && f in files
    modifies vol
    ensures FsInv(vol, files - {f}) && vol.UserData() == old(vol.UserData()) && FaultsGrow(vol) && vol.Fat == old(vol.Fat)
    ensures vol.Bits == PutAll(old(vol.Bits), cleared, false) && cleared <= f.chain
    ensures e == OK ==> cleared == f.chain
    ensures e == OK || vol.readFaults + vol.writeFaults > old(vol.readFaults + vol.writeFaults)
    ensures (e == OK || vol.writeFaults == old(vol.writeFaults)) && old(vol.UsedExact()) ==> vol.UsedExact()
    ensures KeepsSynced(vol) && (e == OK && old(vol.Synced()) ==> vol.Synced())
    ensures CountFree(vol.Bits) == CountFree(old(vol.Bits)) + |cleared|
  {
    hide Volume.Valid, Volume.UserData, Volume.Synced, Volume.UsedExact, FilesOk, CountFor, PutAll, KeptBut, CountFree, Run, IsChain;
    vol.MountedHere();
    FilesHave(vol, vol.Fat, vol.Bits, files, f);
    FilesWithout(vol, vol.Fat, vol.Bits, files, f);
    PutNothing(vol.Bits);
    if f.start == EOF_CLUSTER {
      if f.chain != [] {
        DescribedHead(vol.Fat, Chain(f.start, |f.chain|, f.flags), f.chain);
      }
      return OK, [];
    }
    var num := CountFor(f.onDisk, vol.lay.clusterSize);
    if num == 0 {
      num := 1;
    }
    ghost var bits := vol.Bits;
    e, cleared := FreeCluster(vol, Chain(f.start, num, f.flags), f.chain);
    vol.MountedHere();
    ClearedKept(vol, vol.Fat, bits, f.chain, cleared);
    FilesFrame(vol, vol.Fat, bits, vol.Fat, vol.Bits, files - {f}, f.chain);
  }

  /** The failure path of exfat_alloc_new_dir. */
  method UndoNewDir(vol: Volume, c: nat, ghost files: set<Inode>, ghost fat0: seq<u32>, ghost bits0: seq<bool>)
    requires vol.Valid() && vol.UsedOk() && FIRST_CLUSTER < vol.geo.numClusters && vol.lay.InHeap(c)
    requires |fat0| == |bits0| == |vol.Fat| == |vol.Bits| && c < |bits0| && !bits0[c]
    requires KeptBut(fat0, bits0, vol.Fat, vol.Bits, []) && ReservedMarked(vol, bits0) && FilesOk(vol, fat0, bits0, files)
    requires vol.Bits == bits0[c := true]
    modifies vol
    ensures FsInv(vol, files) && vol.UserData() == old(vol.UserData()) && FaultsGrow(vol) && vol.Bits == bits0
    ensures vol.used == if old(vol.used) != UNTRACKED && old(vol.used) > 0 then old(vol.used) - 1 else old(vol.used)
    ensures KeepsSynced(vol)
  {
    hide Volume.Valid, Volume.UserData, FilesOk, Volume.Synced;
    vol.MountedHere();
    var _ := vol.ClearBitmap(c);
    var _ := vol.EntSet(c, FREE_CLUSTER);
    vol.MountedHere();
    if vol.used != UNTRACKED && vol.used > 0 {
      vol.used := vol.used - 1;
    }
    FilesFrame(vol, fat0, bits0, vol.Fat, vol.Bits, files, []);
  }

  lemma TookOne(vol: Volume, fat0: seq<u32>, bits0: seq<bool>, fat: seq<u32>, bits: seq<bool>, taken: seq<nat>)
    requires |fat0| == |bits0| == |fat| == |bits| && |taken| == 1 && AllFree(bits0, taken) && bits == PutAll(bits0, taken, true)
    requires ReservedMarked(vol, bits0) && forall c :: 0 <= c < |fat| && c !in taken ==> fat[c] == fat0[c]
    ensures KeptBut(fat0, bits0, fat, bits, []) && ReservedMarked(vol, bits)
    ensures taken[0] < |bits0| && bits == bits0[taken[0] := true] && !bits0[taken[0]]
  {
    PutNothing(bits0);
    PutAllGrow(bits0, [], taken[0], true);
    assert [] + [taken[0]] == taken;
  }

  /** exfat_alloc_new_dir: one zero-filled cluster, taken over as a contiguous run.  `at` counts the faults
      when a failure begins to be undone. */
  method AllocNewDir(vol: Volume, ghost files: set<Inode>) returns (e: Errno, chain: Chain, ghost at: Faults)
    requires FsInv(vol, files)
    modifies vol
    ensures FsInv(vol, files) && FaultsGrow(vol)
    ensures chain.flags == NO_FAT_CHAIN
    ensures e == OK || e == ENOSPC || e == EIO
    ensures e != OK ==> chain == Chain(EOF_CLUSTER, 0, NO_FAT_CHAIN) && Reached(vol, at, if e == EIO then 1 else 0)
    ensures e != OK && vol.readFaults == at.ofReads ==> Restored(vol)
    ensures (e == OK || vol.readFaults == at.ofReads) && old(vol.UsedExact()) ==> vol.UsedExact()
    ensures KeepsSynced(vol)
    ensures e == OK ==> NoFault(vol) && CountFree(vol.Bits) + 1 == CountFree(old(vol.Bits))
    ensures e == ENOSPC && old(vol.UsedExact()) ==> CountFree(old(vol.Bits)) == 0
    ensures e == OK ==>
              && Picked(old(vol.Bits), ScanStart(old(vol.searchPtr), vol.geo.numClusters), [chain.dir])
              && chain.size == 1 && vol.lay.InHeap(chain.dir) && chain.dir < |old(vol.Bits)| && !old(vol.Bits)[chain.dir]
              && vol.Bits == old(vol.Bits)[chain.dir := true] && !vol.Reserved(chain.dir)
              && chain.dir < |vol.UserData()| && forall i :: 0 <= i < |vol.UserData()[chain.dir]| ==> vol.UserData()[chain.dir][i] == 0
    ensures forall c :: 0 <= c < |old(vol.Bits)| && old(vol.Bits)[c] ==>
              c < |vol.UserData()| && c < |old(vol.UserData())| && vol.UserData()[c] == old(vol.UserData())[c]
  {
    hide Volume.Valid, Volume.Synced, FilesOk, PutAll, AllFree, CountFree, IsChain, KeptBut, Picked;
    vol.MountedHere();
    ghost var fat0, bits0 := vol.Fat, vol.Bits;
    ghost var taken;
    e, chain, taken, at := AllocCluster(vol, 1, Chain(EOF_CLUSTER, 0, FAT_CHAIN));
    vol.MountedHere();
    if e != OK {
      FilesKept(vol, fat0, bits0, files);
      return e, Chain(EOF_CLUSTER, 0, NO_FAT_CHAIN), at;
    }
    TookOne(vol, fat0, bits0, vol.Fat, vol.Bits, taken);
    LastOf(vol.Fat, taken);
    assert taken == [chain.dir];
    FilesFrame(vol, fat0, bits0, vol.Fat, vol.Bits, files, []);
    var ok := vol.ZeroCluster(chain.dir);
    vol.MountedHere();
    if !ok {
      at := Faults(vol.readFaults, vol.writeFaults);
      UndoNewDir(vol, chain.dir, files, fat0, bits0);
      return EIO, Chain(EOF_CLUSTER, 0, NO_FAT_CHAIN), at;
    }
    chain := Chain(chain.dir, chain.size, NO_FAT_CHAIN);
  }

  lemma FilesKept(vol: Volume, fat0: seq<u32>, bits0: seq<bool>, files: set<Inode>)
    requires OthersKept(vol, bits0, fat0) && FilesOk(vol, fat0, bits0, files) && ReservedMarked(vol, bits0)
    ensures FilesOk(vol, vol.Fat, vol.Bits, files) && ReservedMarked(vol, vol.Bits)
  {
    hide FilesOk;
    FilesFrame(vol, fat0, bits0, vol.Fat, vol.Bits, files, []);
  }

  // ----- runs

  /** A table of live inodes without repetition. */
  predicate Table(files: seq<Inode>) {
    forall i, j :: 0 <= i < j < |files| ==> files[i] != files[j]
  }

  ghost function Live(files: seq<Inode>): set<Inode> { set f | f in files }

  lemma LiveRemove(files: seq<Inode>, i: nat)
    requires Table(files) && i < |files|
    ensures Table(files[..i] + files[i + 1..]) && Live(files[..i] + files[i + 1..]) == Live(files) - {files[i]}
  {
    var rest := files[..i] + files[i + 1..];
    assert forall k :: 0 <= k < |rest| ==> rest[k] == if k < i then files[k] else files[k + 1];
    forall f | f in Live(files) && f != files[i]
      ensures f in rest
    {
      var k :| 0 <= k < |files| && files[k] == f;
      assert f == if k < i then rest[k] else rest[k - 1];
    }
  }

  lemma LiveAdd(files: seq<Inode>, f: Inode)
    requires Table(files) && f !in files
    ensures Table(files + [f]) && Live(files + [f]) == Live(files) + {f}
  {
  }

  /** A new inode of a file without clusters, or of a cluster just taken, joins the live ones. */
  lemma JoinLive(vol: Volume, files: set<Inode>, f: Inode)
    requires FsInv(vol, files) && f !in files && f.Stored(vol, vol.Fat, vol.Bits)
    requires forall g :: g in files ==> Disjoint(g.chain, f.chain)
    ensures FsInv(vol, files + {f})
  {
    hide Volume.Valid, Inode.Stored;
    assert files + {f} - {f} == files;
    FilesWith(vol, vol.Fat, vol.Bits, files + {f}, f);
  }

  method MakeDir(vol: Volume, files: seq<Inode>) returns (e: Errno, live: seq<Inode>)
    requires FsInv(vol, Live(files)) && Table(files)
    modifies vol
    ensures FsInv(vol, Live(live)) && FaultsGrow(vol) && Table(live)
    ensures if e == OK then Joined(files, live) && fresh(live[|files|]) else live == files
    ensures e == OK ==> live[|files|].Summary() == Meta(false, NO_FAT_CHAIN, vol.lay.clusterSize, 1)
    ensures KeepsSynced(vol) && (e == OK ==> NoFault(vol))
    ensures NoFault(vol) && old(vol.UsedExact()) ==>
              && vol.UsedExact() && (e == OK || e == ENOSPC) && (e == ENOSPC <==> CountFree(old(vol.Bits)) == 0)
              && CountFree(vol.Bits) == CountFree(old(vol.Bits)) - (if e == OK then 1 else 0)
  {
    hide Volume.Valid, Inode.Stored, FilesOk, Volume.Synced, Volume.UsedExact, CountFree;
    ghost var fat0, bits0 := vol.Fat, vol.Bits;
    var chain;
    ghost var at;
    live := files;
    e, chain, at := AllocNewDir(vol, Live(files));
    if e != OK {
      return;
    }
    vol.MountedHere();
    var cs := vol.lay.clusterSize;
    var d := new Inode(false, chain.dir, NO_FAT_CHAIN, cs, cs, cs, [chain.dir]);
    DirStored(vol, d);
    FreeIsApart(vol, fat0, bits0, Live(files), chain.dir);
    JoinLive(vol, Live(files), d);
    LiveAdd(files, d);
    live := files + [d];
  }

  lemma DirStored(vol: Volume, d: Inode)
    requires vol.Valid() && vol.lay.InHeap(d.start) && vol.Bits[d.start] && !vol.Reserved(d.start)
    requires d.chain == [d.start] && d.flags == NO_FAT_CHAIN && d.size == d.validSize == d.onDisk == vol.lay.clusterSize
    requires |vol.Bits| == |vol.Fat| == vol.geo.numClusters && vol.lay.clusterSize > 0
    ensures d.Stored(vol, vol.Fat, vol.Bits)
  {
    vol.MountedHere();
    hide Volume.Valid;
    CountForExact(1, vol.lay.clusterSize);
    assert Run(d.start, 1) == [d.start];
  }

  /** No file holds a cluster that is free. */
  lemma FreeIsApart(vol: Volume, fat: seq<u32>, bits: seq<bool>, files: set<Inode>, c: nat)
    requires FilesOk(vol, fat, bits, files) && c < |bits| && !bits[c]
    ensures forall g :: g in files ==> Disjoint(g.chain, [c])
  {
    forall g | g in files
      ensures Disjoint(g.chain, [c])
    {
      assert g.Stored(vol, fat, bits);
    }
  }

  lemma EmptyJoins(vol: Volume, files: set<Inode>, f: Inode)
    requires FsInv(vol, files) && f !in files
    requires f.chain == [] && f.start == EOF_CLUSTER && f.size == f.onDisk == f.validSize == 0
    ensures FsInv(vol, files + {f})
  {
    vol.MountedHere();
    hide Volume.Valid, FilesOk;
    EmptyStored(vol, vol.Fat, vol.Bits, f);
    JoinLive(vol, files, f);
  }

  /** The table has gained one inode it did not have, at its end. */
  predicate Joined(files: seq<Inode>, live: seq<Inode>) {
    |live| == |files| + 1 && live[..|files|] == files && live[|files|] !in files
  }

  /** What an operation may make of the table of live inodes. */
  predicate TableStep(op: Op, files: seq<Inode>, live: seq<Inode>) {
    match op
    case Remove(i) => live == if i < |files| then files[..i] + files[i + 1..] else files
    case NewFile => Joined(files, live)
    case NewDir => live == files || Joined(files, live)
    case _ => live == files
  }

  /** The files and the free space of the volume as values. */
  ghost function Snapshot(vol: Volume, files: seq<Inode>): (r: Fs)
    reads vol`Bits, files
    ensures |r.files| == |files| && forall i :: 0 <= i < |files| ==> r.files[i] == files[i].Summary()
    ensures r.free == CountFree(vol.Bits)
  {
    Fs(seq(|files|, i requires 0 <= i < |files| reads files => files[i].Summary()), CountFree(vol.Bits))
  }

  /** Without faults, the operation took the volume and its files where the machine says, and returned the
      code it says. */
  twostate predicate Follows(vol: Volume, files: seq<Inode>, op: Op, e: Errno, new live: seq<Inode>)
    reads vol, live
  {
    && vol.lay.clusterSize > 0 && FIRST_CLUSTER <= vol.geo.numClusters
    && (NoFault(vol) && old(vol.UsedExact()) ==>
          && vol.UsedExact()
          && (Snapshot(vol, live), e) == AfterOp(old(Snapshot(vol, files)), op, vol.lay.clusterSize, MaxBytes(vol)))
  }

  /** What an operation made of the bytes of its own file; `written` bytes of a write got through. */
  twostate predicate OwnBytes(vol: Volume, f: Inode, op: Op, e: Errno, written: nat)
    reads vol, f
  {
    match op
    case Resize(_, newSize) =>
      && vol.UserData() == old(vol.UserData())
      && (newSize >= old(f.size) ==> old(f.chain) <= f.chain) && (newSize <= old(f.size) ==> f.chain <= old(f.chain))
    case WriteAt(_, pos, buf) =>
      && old(f.chain) <= f.chain && written <= |buf| && (e == OK && NoFault(vol) ==> written == |buf|)
      && (written == 0 ==> vol.UserData() == old(vol.UserData()))
      && (written > 0 ==>
            && pos >= 0 && vol.lay.clusterSize > 0 && Clusters(|old(vol.UserData())|, f.chain) && Clusters(|vol.UserData()|, f.chain)
            && Body(vol.UserData(), f.chain)
               == Written(Body(old(vol.UserData()), f.chain), vol.lay.clusterSize, pos, buf[..written], old(f.size)))
    case ReadAt(_, _, _) => vol.UserData() == old(vol.UserData()) && f.Same()
    case _ => true
  }

  /** Operations on the i-th file that leave the table as it is. */
  method OnFile(vol: Volume, files: seq<Inode>, op: Op) returns (e: Errno, ghost written: nat)
    requires FsInv(vol, Live(files)) && Table(files)
    requires (op.Resize? || op.WriteAt? || op.ReadAt?) && op.i < |files|
    modifies vol, files[op.i]
    ensures vol.geo.numFats == 1 || vol.writeFaults == old(vol.writeFaults) ==> FsInv(vol, Live(files))
    ensures FaultsGrow(vol) && KeepsSynced(vol) && Follows(vol, files, op, e, files)
    ensures forall g :: g in Live(files) && g != files[op.i] ==> SameBody(old(vol.UserData()), vol.UserData(), g.chain)
    ensures OwnBytes(vol, files[op.i], op, e, written)
  {
    hide FsInv, Inode.Stored, Volume.Synced, Volume.UsedExact, Volume.UserData, CountFree, AfterResize, AfterWrite, SameBody, Body, Written;
    SizesHere(vol, Live(files));
    SameData(vol, Live(files));
    ghost var was := Snapshot(vol, files);
    var i := op.i;
    written := 0;
    match op {
      case Resize(_, newSize) =>
        e := Truncate(vol, files[i], newSize, Live(files));
      case WriteAt(_, pos, buf) =>
        var file := new OpenFile(files[i], pos);
        var code, count := Write(vol, file, buf, Live(files));
        e, written := code, count;
      case ReadAt(_, pos, len) =>
        var file := new OpenFile(files[i], pos);
        var code, _ := Read(vol, file, len, Live(files));
        e := code;
        assert was.files[i := files[i].Summary()] == was.files;
    }
    assert Snapshot(vol, files).files == was.files[i := files[i].Summary()];
  }

  lemma SameData(vol: Volume, files: set<Inode>)
    requires FsInv(vol, files)
    ensures forall g :: g in files ==> SameBody(vol.UserData(), vol.UserData(), g.chain)
  {
    hide FsInv, Volume.UserData;
    FilesInHeap(vol, files);
  }

  method RemoveFile(vol: Volume, files: seq<Inode>, i: nat) returns (e: Errno, live: seq<Inode>)
    requires FsInv(vol, Live(files)) && Table(files) && i < |files|
    modifies vol
    ensures FsInv(vol, Live(live)) && Table(live) && live == files[..i] + files[i + 1..] && vol.UserData() == old(vol.UserData())
    ensures FaultsGrow(vol) && KeepsSynced(vol) && Follows(vol, files, Remove(i), e, live)
  {
    hide FsInv, Inode.Stored, Volume.Synced, Volume.UsedExact, CountFree;
    SizesHere(vol, Live(files));
    ghost var was, cleared := Snapshot(vol, files), [];
    e, cleared := Release(vol, files[i], Live(files));
    LiveRemove(files, i);
    live := files[..i] + files[i + 1..];
    assert Snapshot(vol, live).files == was.files[..i] + was.files[i + 1..];
  }

  method AddFile(vol: Volume, files: seq<Inode>) returns (live: seq<Inode>)
    requires FsInv(vol, Live(files)) && Table(files)
    ensures FsInv(vol, Live(live)) && Table(live) && Joined(files, live) && fresh(live[|files|]) && live[|files|].chain == []
    ensures Follows(vol, files, NewFile, OK, live)
  {
    hide FsInv, Inode.Stored, Volume.UsedExact, CountFree;
    SizesHere(vol, Live(files));
    ghost var was := Snapshot(vol, files);
    var f := new Inode(true, EOF_CLUSTER, FAT_CHAIN, 0, 0, 0, []);
    LiveAdd(files, f);
    EmptyJoins(vol, Live(files), f);
    live := files + [f];
    assert Snapshot(vol, live).files == was.files + [f.Summary()];
  }

  method AddDir(vol: Volume, files: seq<Inode>) returns (e: Errno, live: seq<Inode>)
    requires FsInv(vol, Live(files)) && Table(files)
    modifies vol
    ensures FsInv(vol, Live(live)) && Table(live) && FaultsGrow(vol) && KeepsSynced(vol)
    ensures if e == OK then Joined(files, live) && fresh(live[|files|]) else live == files
    ensures Follows(vol, files, NewDir, e, live)
  {
    hide FsInv, Inode.Stored, Volume.Synced, Volume.UsedExact, CountFree;
    SizesHere(vol, Live(files));
    ghost var was := Snapshot(vol, files);
    e, live := MakeDir(vol, files);
    assert Snapshot(vol, live).files == if e == OK then was.files + [live[|files|].Summary()] else was.files;
  }

  /** One operation of a run.  An operation on an index outside the table does nothing. */
  method Step(vol: Volume, files: seq<Inode>, op: Op) returns (e: Errno, live: seq<Inode>)
    requires FsInv(vol, Live(files)) && Table(files)
    modifies vol, files
    ensures vol.geo.numFats == 1 || vol.writeFaults == old(vol.writeFaults) ==> FsInv(vol, Live(live))
    ensures FaultsGrow(vol) && Table(live) && TableStep(op, files, live) && forall f :: f in live ==> f in files || fresh(f)
    ensures KeepsSynced(vol) && Follows(vol, files, op, e, live)
  {
    hide FsInv, Inode.Stored, Volume.Synced, Volume.UsedExact, CountFree, Live;
    SizesHere(vol, Live(files));
    live, e := files, OK;
    match op {
      case NewFile =>
        live := AddFile(vol, files);
      case NewDir =>
        e, live := AddDir(vol, files);
      case Remove(i) =>
        if i < |files| {
          e, live := RemoveFile(vol, files, i);
        }
      case _ =>
        if op.i < |files| {
          ghost var written;
          e, written := OnFile(vol, files, op);
        }
    }
  }

  lemma SizesHere(vol: Volume, files: set<Inode>)
    requires FsInv(vol, files)
    ensures vol.lay.clusterSize > 0 && FIRST_CLUSTER <= vol.geo.numClusters
  {
    vol.MountedHere();
  }

  /** Whatever operations are run on whatever files, and whichever device accesses fail, the invariant holds
      of the live files at the end: with one FAT always, with two unless a write failed.  A run in which no
      access fails is a run of the machine of FileSpec, code by code, and leaves the used count exact; one in
      which no write fails leaves the on-disk bitmap equal to memory. */
  method Perform(vol: Volume, files: seq<Inode>, script: seq<Op>)
    returns (codes: seq<Errno>, live: seq<Inode>, ghost tables: seq<seq<Inode>>)
    requires FsInv(vol, Live(files)) && Table(files)
    modifies vol, files
    ensures vol.geo.numFats == 1 || vol.writeFaults == old(vol.writeFaults) ==>
              |codes| == |script| && FsInv(vol, Live(live)) && Table(live)
    ensures |codes| <= |script| && |tables| == |codes| + 1 && tables[0] == files && tables[|codes|] == live
    ensures forall k :: 0 <= k < |codes| ==> TableStep(script[k], tables[k], tables[k + 1])
    ensures KeepsSynced(vol) && vol.lay.clusterSize > 0 && FIRST_CLUSTER <= vol.geo.numClusters
    ensures NoFault(vol) && old(vol.UsedExact()) ==>
              && vol.UsedExact()
              && codes == Codes(old(Snapshot(vol, files)), script, vol.lay.clusterSize, MaxBytes(vol))
              && Snapshot(vol, live) == Final(old(Snapshot(vol, files)), script, vol.lay.clusterSize, MaxBytes(vol))
  {
    hide FsInv, Volume.Synced, Volume.UsedExact, Snapshot, AfterOp, TableStep, Final, Codes;
    SizesHere(vol, Live(files));
    live, codes, tables := files, [], [files];
    ghost var fs, cs, max := Snapshot(vol, files), vol.lay.clusterSize, MaxBytes(vol);
    var i, faults := 0, vol.writeFaults;
    RunNothing(fs, cs, max);
    while i < |script| && (vol.geo.numFats == 1 || vol.writeFaults == faults)
      invariant 0 <= i <= |script| && faults == old(vol.writeFaults) && FaultsGrow(vol)
      invariant vol.geo.numFats == 1 || vol.writeFaults == faults ==> FsInv(vol, Live(live)) && Table(live)
      invariant forall f :: f in live ==> f in files || fresh(f)
      invariant |codes| == i && |tables| == i + 1 && tables[0] == files && tables[i] == live
      invariant forall k :: 0 <= k < i ==> TableStep(script[k], tables[k], tables[k + 1])
      invariant KeepsSynced(vol)
      invariant NoFault(vol) && old(vol.UsedExact()) ==>
                  && vol.UsedExact()
                  && codes == Codes(fs, script[..i], cs, max) && Snapshot(vol, live) == Final(fs, script[..i], cs, max)
    {
      assert forall k :: 0 <= k < |live| ==> live[k] in live;
      assert script[..i] + [script[i]] == script[..i + 1];
      RunGrow(fs, script[..i], script[i], cs, max);
      var e;
      e, live := Step(vol, live, script[i]);
      codes, tables := codes + [e], tables + [live];
      i := i + 1;
    }
    assert i == |script| ==> script[..i] == script;
  }

  lemma RunNothing(fs: Fs, cs: nat, max: nat)
    requires cs > 0
    ensures Codes(fs, [], cs, max) == [] && Final(fs, [], cs, max) == fs
  {
  }
}
