/** Reading and writing open files: VfsExfatRead and VfsExfatWrite of fs/exfat/exfat_file.c. */
module FileIO {
  import opened Bytes
  import opened Layout
  import opened Bitmap
  import opened Chains
  import opened Volumes
  import opened Allocator
  import opened Contents
  import opened Files
  import opened FileSpec

  class OpenFile {
    const inode: Inode
    var pos: int          // f_pos, signed

    constructor (inode: Inode, pos: int)
      ensures this.inode == inode && this.pos == pos
    {
      this.inode, this.pos := inode, pos;
    }
  }

  /** The clusters of a live file are blocks of the volume's user data. */
  lemma FileSized(vol: Volume, files: set<Inode>, f: Inode)
    requires FsInv(vol, files) && f in files
    ensures vol.lay.clusterSize > 0 && Sized(vol.UserData(), f.chain, vol.lay.clusterSize)
    ensures |Body(vol.UserData(), f.chain)| == |f.chain| * vol.lay.clusterSize
    ensures f.validSize <= f.size <= |f.chain| * vol.lay.clusterSize
    ensures forall i :: 0 <= i < |f.chain| ==> vol.lay.InHeap(f.chain[i]) && !vol.Reserved(f.chain[i])
  {
    hide Volume.Valid, Volume.UserData, CountFor, Body, IsChain, Run;
    vol.MountedHere();
    FsInvSays(vol, files, f);
    forall i | 0 <= i < |f.chain|
      ensures vol.lay.InHeap(f.chain[i]) && !vol.Reserved(f.chain[i])
      ensures f.chain[i] < |vol.UserData()| && |vol.UserData()[f.chain[i]]| == vol.lay.clusterSize
    {
      vol.UserHere(f.chain[i]);
    }
    BodyLength(vol.UserData(), f.chain, vol.lay.clusterSize);
  }

  lemma IndexBelow(i: nat, n: nat, cs: nat)
    requires cs > 0 && i < n * cs
    ensures Index(i, cs) < n && Start(Index(i, cs), cs) + cs <= n * cs
  {
    hide Index;
    IndexIs(i, n, cs);
    StartOrder(Index(i, cs), n, cs);
    assert Start(n, cs) == n * cs;
  }

  /** ExfatGetClusterAt: the idx-th cluster of a file. */
  method GetClusterAt(vol: Volume, f: Inode, idx: nat) returns (e: Errno, clu: nat)
    requires vol.Valid() && f.Stored(vol, vol.Fat, vol.Bits) && idx < |f.chain|
    modifies vol`readFaults
    ensures vol.readFaults >= old(vol.readFaults)
    ensures e == OK || ((e == EIO || e == EINVAL) && vol.readFaults > old(vol.readFaults))
    ensures e == OK ==> clu == f.chain[idx]
  {
    hide Volume.Valid, CountFor, NextOf;
    vol.MountedHere();
    var n := vol.geo.numClusters;
    clu := f.start;
    if f.start < FIRST_CLUSTER || f.start >= n + FIRST_CLUSTER {
      return EINVAL, clu;
    }
    if f.flags == NO_FAT_CHAIN {
      clu := f.start + idx;
      if clu < FIRST_CLUSTER || clu >= n + FIRST_CLUSTER {
        return EINVAL, clu;
      }
      return OK, clu;
    }
    for i := 0 to idx
      invariant vol.readFaults >= old(vol.readFaults) && clu == f.chain[i]
    {
      ChainLink(vol.Fat, f.chain, i);
      ChainLink(vol.Fat, f.chain, i + 1);
      var next := vol.GetNext(clu);
      if next.NoNext? {
        return next.err, clu;
      }
      if next.clu == EOF_CLUSTER || next.clu == FREE_CLUSTER || next.clu < FIRST_CLUSTER || next.clu >= n + FIRST_CLUSTER {
        return EINVAL, clu;
      }
      clu := next.clu;
    }
    e := OK;
  }

  // ----- VfsExfatRead

  function Min(a: nat, b: nat): nat { if a <= b then a else b }

  /** How many bytes a read of `len` at `pos` is asked for: up to the end of the file, none past it. */
  function Clamp(size: nat, pos: int, len: nat): nat {
    if pos < 0 || pos >= size then 0 else Min(len, size - pos)
  }

  method ReadLoop(vol: Volume, f: Inode, pos: nat, count: nat, ghost files: set<Inode>)
    returns (e: Errno, buf: seq<byte>)
    requires FsInv(vol, files) && f in files && pos + count <= f.size
    modifies vol`readFaults
    ensures vol.readFaults >= old(vol.readFaults)
    ensures FsInv(vol, files) && |buf| <= count && pos + |buf| <= |Body(vol.UserData(), f.chain)|
    ensures buf == Body(vol.UserData(), f.chain)[pos..pos + |buf|]
    ensures e == OK ==> |buf| == count
    ensures e != OK ==> (e == EIO || e == EINVAL) && vol.readFaults > old(vol.readFaults)
  {
    hide Volume.Valid, Volume.UserData, FilesOk, Body, Index, Start, Inode.Stored, CountFor;
    FilesHave(vol, vol.Fat, vol.Bits, files, f);
    FileSized(vol, files, f);
    ghost var data, ch := vol.UserData(), f.chain;
    ghost var body := Body(data, ch);
    var cs := vol.lay.clusterSize;
    buf, e := [], OK;
    while |buf| < count
      invariant vol.readFaults >= old(vol.readFaults)
      invariant e == OK && |buf| <= count && buf == body[pos..pos + |buf|]
    {
      var at := pos + |buf|;
      var k := Index(at, cs);
      IndexBelow(at, |ch|, cs);
      IndexBounds(at, cs);
      var off := at - Start(k, cs);
      var clu;
      e, clu := GetClusterAt(vol, f, k);
      if e != OK {
        return;
      }
      var ok, block := vol.ReadCluster(clu);
      if !ok {
        return EIO, buf;
      }
      vol.UserHere(clu);
      var chunk := Min(cs - off, count - |buf|);
      ChunkAt(data, ch, cs, k, off, off + chunk);
      SliceJoin(body, pos, at, at + chunk);
      buf := buf + block[off..off + chunk];
    }
  }

  lemma ChunkAt(data: seq<seq<byte>>, ch: seq<nat>, cs: nat, k: nat, a: nat, b: nat)
    requires Sized(data, ch, cs) && k < |ch| && a <= b <= cs
    ensures Start(k, cs) + b <= |Body(data, ch)| && Body(data, ch)[Start(k, cs) + a..Start(k, cs) + b] == data[ch[k]][a..b]
  {
    BodyChunk(data, ch, cs, k, a, b);
  }

  lemma SliceJoin<T>(s: seq<T>, a: nat, b: nat, c: nat)
    requires a <= b <= c <= |s|
    ensures s[a..b] + s[b..c] == s[a..c]
  {
  }

  method Read(vol: Volume, file: OpenFile, len: nat, ghost files: set<Inode>) returns (e: Errno, buf: seq<byte>)
    requires FsInv(vol, files) && file.inode in files
    modifies vol`readFaults, file
    ensures FsInv(vol, files) && vol.readFaults >= old(vol.readFaults)
    ensures e == EISDIR <==> len > 0 && !file.inode.isFile
    ensures e != OK ==> buf == []
    ensures file.pos == old(file.pos) + |buf|
    ensures var body := Body(vol.UserData(), file.inode.chain);
            && file.inode.size <= |body|
            && |buf| <= Clamp(file.inode.size, old(file.pos), len)
            && (buf != [] ==> 0 <= old(file.pos) && buf == body[..file.inode.size][old(file.pos)..old(file.pos) + |buf|])
    ensures vol.readFaults == old(vol.readFaults) && e != EISDIR ==>
              e == OK && |buf| == Clamp(file.inode.size, old(file.pos), len)
  {
    hide Volume.Valid, Volume.UserData, FilesOk, Body;
    FileSized(vol, files, file.inode);
    if len == 0 {
      return OK, [];
    }
    if !file.inode.isFile {
      return EISDIR, [];
    }
    var size := file.inode.size;
    if file.pos < 0 || file.pos >= size {
      return OK, [];
    }
    var count := if size - file.pos > len then len else size - file.pos;
    e, buf := ReadLoop(vol, file.inode, file.pos, count, files);
    if e != OK && buf != [] {
      e := OK;
    }
    file.pos := file.pos + |buf|;
  }

  // ----- VfsExfatWrite

  /** Clusters outside `ch` hold what they held. */
  twostate predicate OthersData(vol: Volume, ch: seq<nat>)
    reads vol
  {
    && |vol.UserData()| == |old(vol.UserData())|
    && forall c :: 0 <= c < |vol.UserData()| && c !in ch ==> vol.UserData()[c] == old(vol.UserData())[c]
  }

  /** A cluster as one round leaves it. */
  function Patched(block: seq<byte>, cs: nat, fromZero: bool, off: nat, piece: seq<byte>): (r: seq<byte>)
    requires |block| == cs && off + |piece| <= cs
    ensures |r| == cs
  {
    Splice(if fromZero then Zeros(cs) else block, off, piece)
  }

  /** Read-modify-write of one cluster; past the old end of the file the read is skipped. */
  method PatchCluster(vol: Volume, clu: nat, fromZero: bool, off: nat, piece: seq<byte>) returns (ok: bool)
    requires vol.Valid() && vol.lay.InHeap(clu) && !vol.Reserved(clu) && off + |piece| <= vol.lay.clusterSize
    modifies vol`disk, vol`Data, vol`readFaults, vol`writeFaults, vol`writes
    ensures vol.Valid() && FaultsGrow(vol) && clu < |old(vol.UserData())| && |old(vol.UserData())[clu]| == vol.lay.clusterSize
    ensures vol.UserData()
            == if ok then old(vol.UserData())[clu := Patched(old(vol.UserData())[clu], vol.lay.clusterSize, fromZero, off, piece)] else old(vol.UserData())
    ensures !ok ==> vol.readFaults + vol.writeFaults > old(vol.readFaults + vol.writeFaults)
    ensures old(vol.Synced()) ==> vol.Synced()
  {
    hide Volume.Valid, Volume.UserData, Volume.Synced, Splice;
    vol.MountedHere();
    vol.UserHere(clu);
    var block: seq<byte>;
    if fromZero {
      block := Zeros(vol.lay.clusterSize);
    } else {
      ok, block := vol.ReadCluster(clu);
      if !ok {
        return;
      }
    }
    block := Splice(block, off, piece);
    ok := vol.WriteCluster(clu, block);
  }

  lemma RoundBody(data: seq<seq<byte>>, ch: seq<nat>, cs: nat, base: seq<byte>, pos: nat, buf: seq<byte>,
                  oldSize: nat, done: nat, k: nat, chunk: nat)
    requires cs > 0 && Sized(data, ch, cs) && Distinct(ch) && k < |ch|
    requires done < |buf| && Body(data, ch) == Written(base, cs, pos, buf[..done], oldSize)
    requires k == Index(pos + done, cs) && Start(k, cs) <= pos + done
    requires done == 0 || pos + done == Start(k, cs)
    requires 0 < chunk && done + chunk <= |buf| && pos + done + chunk <= Start(k, cs) + cs
    ensures var block := Patched(data[ch[k]], cs, pos + done >= oldSize, pos + done - Start(k, cs), buf[done..done + chunk]);
            Body(data[ch[k] := block], ch) == Written(base, cs, pos, buf[..done + chunk], oldSize)
  {
    hide Index, Body, Written, Splice;
    BlockIs(data, ch, cs, k);
    var block := Patched(data[ch[k]], cs, pos + done >= oldSize, pos + done - Start(k, cs), buf[done..done + chunk]);
    BodyPut(data, ch, cs, k, block);
    hide Start;
    WriteRound(base, cs, pos, buf, oldSize, done, k, chunk);
  }

  /** One round: the cluster of byte pos + done is patched with the next chunk of the buffer. */
  method WriteRoundAt(vol: Volume, f: Inode, pos: nat, buf: seq<byte>, oldSize: nat, done: nat,
                      ghost base: seq<byte>, ghost files: set<Inode>)
    returns (e: Errno, chunk: nat)
    requires FsInv(vol, files) && f in files && vol.lay.clusterSize > 0 && done < |buf| && |buf| + pos <= Start(|f.chain|, vol.lay.clusterSize)
    requires done == 0 || pos + done == Start(Index(pos + done, vol.lay.clusterSize), vol.lay.clusterSize)
    requires Body(vol.UserData(), f.chain) == Written(base, vol.lay.clusterSize, pos, buf[..done], oldSize)
    modifies vol`disk, vol`Data, vol`readFaults, vol`writeFaults, vol`writes
    ensures FsInv(vol, files) && FaultsGrow(vol)
    ensures exists c :: c in f.chain && OnlyAt(old(vol.UserData()), vol.UserData(), c)
    ensures e == OK ==> 0 < chunk && done + chunk <= |buf|
    ensures e == OK ==> Body(vol.UserData(), f.chain) == Written(base, vol.lay.clusterSize, pos, buf[..done + chunk], oldSize)
    ensures e == OK && done + chunk < |buf| ==>
              pos + done + chunk == Start(Index(pos + done + chunk, vol.lay.clusterSize), vol.lay.clusterSize)
    ensures e != OK ==> (e == EIO || e == EINVAL) && Body(vol.UserData(), f.chain) == Written(base, vol.lay.clusterSize, pos, buf[..done], oldSize)
    ensures e != OK ==> vol.UserData() == old(vol.UserData())
    ensures e != OK ==> vol.readFaults + vol.writeFaults > old(vol.readFaults + vol.writeFaults)
    ensures old(vol.Synced()) ==> vol.Synced()
  {
    hide Volume.Valid, Volume.UserData, Volume.Synced, FilesOk, Body, Index, Start, Written, Patched, Inode.Stored, CountFor, Distinct;
    FilesHave(vol, vol.Fat, vol.Bits, files, f);
    FsInvSays(vol, files, f);
    FileSized(vol, files, f);
    ghost var data, ch := vol.UserData(), f.chain;
    var cs, at := vol.lay.clusterSize, pos + done;
    var k := Index(at, cs);
    IndexWithin(at, |ch|, cs);
    IndexBounds(at, cs);
    var off := at - Start(k, cs);
    chunk := Min(cs - off, |buf| - done);
    var clu;
    assert ch[k] in ch && OnlyAt(data, data, ch[k]);
    e, clu := GetClusterAt(vol, f, k);
    if e != OK {
      return;
    }
    var ok := PatchCluster(vol, clu, at >= oldSize, off, buf[done..done + chunk]);
    assert OnlyAt(data, vol.UserData(), ch[k]);
    if !ok {
      return EIO, 0;
    }
    RoundBody(data, ch, cs, base, pos, buf, oldSize, done, k, chunk);
    NextStart(k, cs);
  }

  /** The two heaps differ in cluster c at most. */
  predicate OnlyAt(data: seq<seq<byte>>, data': seq<seq<byte>>, c: nat) {
    |data| == |data'| && forall d :: 0 <= d < |data| && d != c ==> data'[d] == data[d]
  }

  lemma IndexWithin(i: nat, n: nat, cs: nat)
    requires cs > 0 && i < Start(n, cs)
    ensures Index(i, cs) < n
  {
    IndexBelow(i, n, cs);
  }

  lemma BlockIs(data: seq<seq<byte>>, ch: seq<nat>, cs: nat, k: nat)
    requires cs > 0 && Sized(data, ch, cs) && k < |ch|
    ensures Start(k, cs) + cs <= |Body(data, ch)| && data[ch[k]] == Body(data, ch)[Start(k, cs)..Start(k, cs) + cs]
  {
    BodyChunk(data, ch, cs, k, 0, cs);
    assert data[ch[k]][0..cs] == data[ch[k]];
  }

  lemma NextStart(k: nat, cs: nat)
    requires cs > 0
    ensures Start(Index(Start(k, cs) + cs, cs), cs) == Start(k, cs) + cs
  {
    hide Index;
    var next := Start(k, cs) + cs;
    assert next == Start(k + 1, cs);
    IndexIs(next, k + 1, cs);
  }

  method WriteLoop(vol: Volume, f: Inode, pos: nat, buf: seq<byte>, oldSize: nat, ghost files: set<Inode>)
    returns (e: Errno, written: nat)
    requires FsInv(vol, files) && f in files && |buf| + pos <= Start(|f.chain|, vol.lay.clusterSize)
    modifies vol`disk, vol`Data, vol`readFaults, vol`writeFaults, vol`writes
    ensures FsInv(vol, files) && FaultsGrow(vol) && OthersData(vol, f.chain) && written <= |buf|
    ensures vol.lay.clusterSize > 0
    ensures Body(vol.UserData(), f.chain) == Written(Body(old(vol.UserData()), f.chain), vol.lay.clusterSize, pos, buf[..written], oldSize)
    ensures e == OK ==> written == |buf|
    ensures written == 0 ==> vol.UserData() == old(vol.UserData())
    ensures e != OK ==> (e == EIO || e == EINVAL) && vol.readFaults + vol.writeFaults > old(vol.readFaults + vol.writeFaults)
    ensures old(vol.Synced()) ==> vol.Synced()
  {
    hide Volume.Valid, Volume.UserData, Volume.Synced, FilesOk, Body, Index, Start, Written;
    FileSized(vol, files, f);
    var cs := vol.lay.clusterSize;
    ghost var base := Body(vol.UserData(), f.chain);
    written, e := 0, OK;
    WrittenNothing(base, cs, pos, oldSize);
    assert buf[..0] == [];
    while written < |buf|
      invariant FsInv(vol, files) && FaultsGrow(vol) && OthersData(vol, f.chain)
      invariant 0 <= written <= |buf| && e == OK && (written == 0 ==> vol.UserData() == old(vol.UserData()))
      invariant f.chain == old(f.chain) && (old(vol.Synced()) ==> vol.Synced())
      invariant written == 0 || written == |buf| || pos + written == Start(Index(pos + written, cs), cs)
      invariant Body(vol.UserData(), f.chain) == Written(base, cs, pos, buf[..written], oldSize)
    {
      var chunk;
      e, chunk := WriteRoundAt(vol, f, pos, buf, oldSize, written, base, files);
      if e != OK {
        return;
      }
      written := written + chunk;
    }
  }

  /** The size after a write: it never shrinks the file. */
  function Max(a: nat, b: nat): nat { if a >= b then a else b }

  /** An empty file that was never given clusters becomes a FAT chain before it grows. */
  predicate TurnsToChain(f: Inode, end: nat)
    reads f
  {
    end > f.size && f.size == 0 && f.onDisk == 0 && f.flags != FAT_CHAIN && (f.start == EOF_CLUSTER || f.start == FREE_CLUSTER)
  }

  lemma TurnedStored(vol: Volume, fat: seq<u32>, bits: seq<bool>, f: Inode)
    requires f.Stored(vol, fat, bits)
    ensures vol.lay.clusterSize > 0
    ensures f.onDisk == 0 <==> f.chain == []
    ensures f.chain == [] ==> f.start == EOF_CLUSTER || f.start == FREE_CLUSTER
  {
    CountForCovers(f.onDisk, vol.lay.clusterSize);
  }

  /** The preliminaries of a write: the flag of an empty file, and growth up to the end of the write. */
  method Prepare(vol: Volume, f: Inode, end: nat, ghost files: set<Inode>) returns (e: Errno)
    requires FsInv(vol, files) && f in files && end <= MaxBytes(vol)
    modifies vol, f
    ensures vol.Valid() && vol.UsedOk() && vol.UserData() == old(vol.UserData()) && FaultsGrow(vol)
    ensures e == OK || vol.geo.numFats == 1 || vol.writeFaults == old(vol.writeFaults) ==> FsInv(vol, files)
    ensures old(f.chain) <= f.chain && f.validSize == old(f.validSize)
    ensures e == OK ==> f.size == Max(old(f.size), end) && (end <= old(f.size) ==> f.chain == old(f.chain))
    ensures e != OK ==> f.size == old(f.size) && f.chain == old(f.chain)
    ensures e == EINVAL <==> end > old(f.size) && old(f.flags) != FAT_CHAIN && !old(TurnsToChain(f, end))
    ensures e == OK || e == EINVAL || e == ENOSPC || e == EIO
    ensures e == EIO ==> vol.readFaults + vol.writeFaults > old(vol.readFaults + vol.writeFaults)
    ensures KeepsSynced(vol) && vol.lay.clusterSize > 0
    ensures (e == OK || NoFault(vol)) && old(vol.UsedExact()) ==> vol.UsedExact()
    ensures e == ENOSPC && vol.readFaults == old(vol.readFaults) ==> Restored(vol)
    ensures e == ENOSPC && old(vol.UsedExact()) ==>
              CountFor(end, vol.lay.clusterSize) > |f.chain| + CountFree(old(vol.Bits))
    ensures NoFault(vol) && old(vol.UsedExact()) ==>
              Outcome(f.Summary(), CountFree(vol.Bits), e)
              == if end <= old(f.size) then Outcome(old(f.Summary()), CountFree(old(vol.Bits)), OK)
                 else AfterResize(Chained(old(f.Summary())), end, CountFree(old(vol.Bits)), vol.lay.clusterSize, MaxBytes(vol))
  {
    hide Volume.Valid, Volume.UserData, FilesOk, CountFor, PutAll, AllFree, IsChain, Run, Volume.UsedExact, CountFree;
    hide Volume.Synced;
    vol.MountedHere();
    FilesHave(vol, vol.Fat, vol.Bits, files, f);
    TurnedStored(vol, vol.Fat, vol.Bits, f);
    e := OK;
    if TurnsToChain(f, end) {
      FilesWithout(vol, vol.Fat, vol.Bits, files, f);
      f.flags := FAT_CHAIN;
      FilesWith(vol, vol.Fat, vol.Bits, files, f);
    }
    if end > f.size {
      ghost var part, at;
      e, part, at := Extend(vol, f, end, files);
    }
  }

  /** The loop, then the position and the valid size. */
  method WriteOut(vol: Volume, file: OpenFile, buf: seq<byte>, oldSize: nat, ghost files: set<Inode>)
    returns (e: Errno, written: nat)
    requires FsInv(vol, files) && file.inode in files && 0 <= file.pos && file.pos + |buf| <= file.inode.size
    modifies vol`disk, vol`Data, vol`readFaults, vol`writeFaults, vol`writes, file, file.inode`validSize
    ensures FsInv(vol, files) && FaultsGrow(vol) && OthersData(vol, file.inode.chain)
    ensures file.pos == old(file.pos) + written && written <= |buf| && (e != OK ==> written == 0)
    ensures vol.lay.clusterSize > 0 && Clusters(|old(vol.UserData())|, file.inode.chain)
    ensures Body(vol.UserData(), file.inode.chain)
            == Written(Body(old(vol.UserData()), file.inode.chain), vol.lay.clusterSize, old(file.pos), buf[..written], oldSize)
    ensures written == 0 ==> vol.UserData() == old(vol.UserData())
    ensures e == OK || e == EIO || e == EINVAL
    ensures vol.readFaults == old(vol.readFaults) && vol.writeFaults == old(vol.writeFaults) ==> e == OK && written == |buf|
    ensures written > 0 ==> file.inode.validSize == Max(old(file.inode.validSize), file.pos)
    ensures old(vol.Synced()) ==> vol.Synced()
  {
    hide Volume.Valid, Volume.UserData, Volume.Synced, FilesOk, Body, Index, Start, Written, CountFor, Describes;
    vol.MountedHere();
    var f := file.inode;
    FilesHave(vol, vol.Fat, vol.Bits, files, f);
    FileSized(vol, files, f);
    BodyUnits(f, vol.lay.clusterSize);
    e, written := WriteLoop(vol, f, file.pos, buf, oldSize, files);
    if e != OK && written == 0 {
      return;
    }
    FilesWithout(vol, vol.Fat, vol.Bits, files, f);
    e := OK;
    file.pos := file.pos + written;
    if file.pos > f.validSize {
      f.validSize := file.pos;
    }
    FilesWith(vol, vol.Fat, vol.Bits, files, f);
  }

  method Write(vol: Volume, file: OpenFile, buf: seq<byte>, ghost files: set<Inode>) returns (e: Errno, written: nat)
    requires FsInv(vol, files) && file.inode in files
    modifies vol, file, file.inode
    ensures vol.Valid() && vol.UsedOk() && FaultsGrow(vol)
    ensures vol.geo.numFats == 1 || vol.writeFaults == old(vol.writeFaults) ==> FsInv(vol, files)
    ensures file.pos == old(file.pos) + written && written <= |buf| && (e != OK ==> written == 0)
    ensures e == EISDIR <==> buf != [] && !file.inode.isFile
    ensures buf != [] && file.inode.isFile && old(file.pos) < 0 ==> e == EINVAL
    ensures e == EFBIG <==> buf != [] && file.inode.isFile && old(file.pos) >= 0 && old(file.pos) + |buf| > Min(MaxBytes(vol), UINT64_MAX)
    ensures e == OK && vol.readFaults == old(vol.readFaults) && vol.writeFaults == old(vol.writeFaults) ==> written == |buf|
    ensures e == EIO ==> vol.readFaults + vol.writeFaults > old(vol.readFaults + vol.writeFaults)
    ensures old(file.inode.chain) <= file.inode.chain && OthersData(vol, file.inode.chain)
    ensures written > 0 ==>
              && old(file.pos) >= 0 && vol.lay.clusterSize > 0
              && Clusters(|old(vol.UserData())|, file.inode.chain)
              && file.inode.size == Max(old(file.inode.size), old(file.pos) + |buf|)
              && Body(vol.UserData(), file.inode.chain)
                 == Written(Body(old(vol.UserData()), file.inode.chain), vol.lay.clusterSize, old(file.pos), buf[..written], old(file.inode.size))
    ensures written == 0 ==> vol.UserData() == old(vol.UserData())
    ensures written > 0 ==> FsInv(vol, files) && file.inode.validSize == Max(old(file.inode.validSize), file.pos)
    ensures forall g :: g in files && g != file.inode ==> SameBody(old(vol.UserData()), vol.UserData(), g.chain)
    ensures KeepsSynced(vol) && vol.lay.clusterSize > 0
    ensures (e == OK || NoFault(vol)) && old(vol.UsedExact()) ==> vol.UsedExact()
    ensures e == ENOSPC && vol.readFaults == old(vol.readFaults) ==> Restored(vol)
    ensures NoFault(vol) && old(vol.UsedExact()) ==>
              Outcome(file.inode.Summary(), CountFree(vol.Bits), e)
              == AfterWrite(old(file.inode.Summary()), old(file.pos), |buf|, CountFree(old(vol.Bits)), vol.lay.clusterSize, MaxBytes(vol))
  {
    hide Volume.Synced, Volume.UsedExact, CountFree, AfterResize;
    hide Volume.Valid, Volume.UserData, FilesOk, Body, Index, Start, Written, CountFor, Inode.Stored, SameBody;
    vol.MountedHere();
    e, written := OK, 0;
    FilesInHeap(vol, files);
    ghost var data := vol.UserData();
    OtherBodies(data, data, files, file.inode);
    if buf == [] {
      return;
    }
    var f := file.inode;
    if !f.isFile {
      return EISDIR, 0;
    }
    if file.pos < 0 {
      return EINVAL, 0;
    }
    var oldSize: nat := f.size;
    if file.pos > UINT64_MAX - |buf| {
      return EFBIG, 0;
    }
    var end := file.pos + |buf|;
    SomeBytes(vol);
    if MaxBytes(vol) != 0 && end > MaxBytes(vol) {
      return EFBIG, 0;
    }
    e := Prepare(vol, f, end, files);
    if e != OK {
      return;
    }
    e, written := WriteOut(vol, file, buf, oldSize, files);
    FsInvSays(vol, files, f);
    OtherBodies(data, vol.UserData(), files, f);
  }

  /** Writing, going back and reading gives the bytes written, wherever in or past the file they went. */
  method WriteThenRead(vol: Volume, file: OpenFile, buf: seq<byte>, ghost files: set<Inode>)
    returns (written: Errno, e: Errno, got: seq<byte>)
    requires FsInv(vol, files) && file.inode in files
    modifies vol, file, file.inode
    ensures NoFault(vol) && written == OK ==> e == OK && got == buf
  {
    hide Volume.Valid, Volume.UserData, Volume.Synced, Volume.UsedExact, CountFree, AfterWrite;
    hide FsInv, Body, Index, Start, Written, SameBody;
    var pos, count := file.pos, 0;
    e, got := OK, [];
    written, count := Write(vol, file, buf, files);
    if written != OK || count < |buf| || buf == [] {
      return;
    }
    assert buf[..count] == buf;
    ghost var base := Body(old(vol.UserData()), file.inode.chain);
    file.pos := pos;
    e, got := Read(vol, file, |buf|, files);
    if |got| == |buf| {
      WrittenReadsBack(base, vol.lay.clusterSize, pos, buf, old(file.inode.size));
      SliceOfPrefix(Body(vol.UserData(), file.inode.chain), file.inode.size, pos, pos + |buf|);
    }
  }

  lemma SliceOfPrefix<T>(s: seq<T>, n: nat, a: nat, b: nat)
    requires a <= b <= n <= |s|
    ensures s[..n][a..b] == s[a..b]
  {
  }

  /** The clusters of `ch` hold the same bytes in both heaps. */
  predicate SameBody(data: seq<seq<byte>>, data': seq<seq<byte>>, ch: seq<nat>) {
    |data| == |data'| && Clusters(|data|, ch) && Body(data, ch) == Body(data', ch)
  }

  lemma FilesInHeap(vol: Volume, files: set<Inode>)
    requires FsInv(vol, files)
    ensures forall g :: g in files ==> Clusters(|vol.UserData()|, g.chain)
  {
    hide Volume.UserData, Volume.Valid;
    forall g | g in files
      ensures Clusters(|vol.UserData()|, g.chain)
    {
      FileSized(vol, files, g);
    }
  }

  lemma OtherBodies(data: seq<seq<byte>>, data': seq<seq<byte>>, files: set<Inode>, f: Inode)
    requires |data| == |data'| && forall g :: g in files && g != f ==> Clusters(|data|, g.chain)
    requires data == data' || forall g :: g in files && g != f ==> Disjoint(f.chain, g.chain)
    requires forall c :: 0 <= c < |data| && c !in f.chain ==> data'[c] == data[c]
    ensures forall g :: g in files && g != f ==> SameBody(data, data', g.chain)
  {
    forall g | g in files && g != f
      ensures SameBody(data, data', g.chain)
    {
      if data != data' {
        BodyFrame(data, data', g.chain);
      }
    }
  }

  lemma BodyUnits(f: Inode, cs: nat)
    ensures Start(|f.chain|, cs) == |f.chain| * cs
  {
  }
}
