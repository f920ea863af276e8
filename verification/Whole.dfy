/** Files and directories on one volume: file operations leave every directory as it is, directory operations
    leave every file as it is, and making a directory takes its cluster from the free space of both. */
module Whole {
  import opened Bytes
  import opened Layout
  import opened Chains
  import opened Volumes
  import opened Allocator
  import opened Contents
  import opened Files
  import opened FileIO
  import opened FileRuns
  import opened Dentries
  import opened Directories
  import opened Names
  import DV = DirVolume
  import Bitmap
  import DI = DentryIO
  import DirChange
  import DM = DirMap
  import FS = FileSpec
  import R = Renames
  import S = DirStore

  /** The first cluster and the slots of every directory, the clusters' bytes of every file, the files and the free
      space as the machine of FileSpec has them, and whether the used count is exact. */
  datatype World = World(starts: seq<nat>, slots: Dirs, bodies: seq<seq<byte>>, fs: FS.Fs, exact: bool)

  ghost function Chs(dirs: seq<Inode>): (r: seq<seq<nat>>)
    reads dirs
    ensures |r| == |dirs| && forall d :: 0 <= d < |dirs| ==> r[d] == dirs[d].chain
  {
    seq(|dirs|, d requires 0 <= d < |dirs| reads dirs => dirs[d].chain)
  }

  ghost function StartsOf(dirs: seq<Inode>): (r: seq<nat>)
    reads dirs
    ensures |r| == |dirs| && forall d :: 0 <= d < |dirs| ==> r[d] == dirs[d].start
  {
    seq(|dirs|, d requires 0 <= d < |dirs| reads dirs => dirs[d].start)
  }

  /** The descriptors by which directories are read, built from their inodes. */
  function Descs(dirs: seq<Inode>, cs: nat): (r: seq<Chain>)
    requires cs > 0
    reads dirs
    ensures |r| == |dirs| && forall d :: 0 <= d < |dirs| ==> r[d] == Chain(dirs[d].start, CountFor(dirs[d].onDisk, cs), dirs[d].flags)
  {
    seq(|dirs|, d requires 0 <= d < |dirs| reads dirs => Chain(dirs[d].start, CountFor(dirs[d].onDisk, cs), dirs[d].flags))
  }

  ghost predicate IsDir(f: Inode)
    reads f
  {
    !f.isFile && f.chain != [] && (f.flags == FAT_CHAIN || f.flags == NO_FAT_CHAIN)
  }

  /** One invariant for both: no cluster belongs to two of the files and directories, and every directory is sound. */
  ghost predicate Joint(vol: Volume, table: Upcase, dirs: seq<Inode>, files: seq<Inode>)
    reads vol, dirs, files
  {
    && FsInv(vol, Live(dirs + files)) && FileRuns.Table(dirs + files) && 0 < vol.lay.clusterSize <= 0xFFFF_FFFF
    && (forall d :: 0 <= d < |dirs| ==> IsDir(dirs[d]))
    && DV.Held(vol.UserData(), Chs(files))
    && DV.DirsHere(vol, Descs(dirs, vol.lay.clusterSize), Chs(dirs))
    && DV.Held(vol.UserData(), Chs(dirs)) && R.AllSound(table, DV.SlotsOf(vol.UserData(), Chs(dirs)))
  }

  ghost function BodiesOf(data: seq<seq<byte>>, chs: seq<seq<nat>>): (r: seq<seq<byte>>)
    requires DV.Held(data, chs)
    ensures |r| == |chs| && forall i :: 0 <= i < |chs| ==> r[i] == Body(data, chs[i])
  {
    seq(|chs|, i requires 0 <= i < |chs| => Body(data, chs[i]))
  }

  ghost predicate Seeable(vol: Volume, dirs: seq<Inode>, files: seq<Inode>)
    reads vol, dirs, files
  {
    DV.Held(vol.UserData(), Chs(dirs)) && DV.Held(vol.UserData(), Chs(files))
  }

  ghost function Seen(vol: Volume, dirs: seq<Inode>, files: seq<Inode>): World
    requires Seeable(vol, dirs, files)
    reads vol, dirs, files
  {
    World(StartsOf(dirs), DV.SlotsOf(vol.UserData(), Chs(dirs)), BodiesOf(vol.UserData(), Chs(files)), Snapshot(vol, files), vol.UsedExact())
  }

  /** The geometry half of the invariant follows from the file system's. */
  lemma DirsAreHere(vol: Volume, dirs: seq<Inode>, files: seq<Inode>)
    requires FsInv(vol, Live(dirs + files)) && FileRuns.Table(dirs + files) && vol.lay.clusterSize > 0
    requires forall d :: 0 <= d < |dirs| ==> IsDir(dirs[d])
    ensures DV.DirsHere(vol, Descs(dirs, vol.lay.clusterSize), Chs(dirs))
    ensures DV.Held(vol.UserData(), Chs(dirs)) && DV.Held(vol.UserData(), Chs(files))
  {
    hide FsInv, IsDir, DI.DirHere, Volume.UserData, CountFor;
    var all := dirs + files;
    FilesInHeap(vol, Live(all));
    forall d | 0 <= d < |dirs|
      ensures dirs[d] in Live(all) && all[d] == dirs[d]
    {
      assert all[d] == dirs[d];
    }
    forall i | 0 <= i < |files|
      ensures files[i] in Live(all)
    {
      assert all[|dirs| + i] == files[i];
    }
    forall d | 0 <= d < |dirs| { DirIsHere(vol, Live(all), dirs[d]); }
    forall c, d | 0 <= c < |dirs| && 0 <= d < |dirs| && c != d { Apart(vol, Live(all), all[c], all[d]); }
  }

  lemma DirIsHere(vol: Volume, all: set<Inode>, f: Inode)
    requires FsInv(vol, all) && f in all && IsDir(f) && vol.lay.clusterSize > 0
    ensures DI.DirHere(vol, Chain(f.start, CountFor(f.onDisk, vol.lay.clusterSize), f.flags), f.chain)
    ensures CountFor(f.onDisk, vol.lay.clusterSize) == |f.chain| && (f.flags == FAT_CHAIN || f.flags == NO_FAT_CHAIN)
  {
    hide CountFor;
    FsInvSays(vol, all, f);
  }

  lemma Apart(vol: Volume, all: set<Inode>, f: Inode, g: Inode)
    requires FsInv(vol, all) && f in all && g in all && f != g
    ensures Disjoint(f.chain, g.chain)
  {
  }

  /** Each chain holds the same bytes in both heaps. */
  ghost predicate Alike(data: seq<seq<byte>>, data': seq<seq<byte>>, chs: seq<seq<nat>>) {
    DV.Held(data, chs) && DV.Held(data', chs) && forall d :: 0 <= d < |chs| ==> Body(data', chs[d]) == Body(data, chs[d])
  }

  lemma AlikeSeen(data: seq<seq<byte>>, data': seq<seq<byte>>, chs: seq<seq<nat>>)
    requires Alike(data, data', chs)
    ensures DV.SlotsOf(data', chs) == DV.SlotsOf(data, chs) && BodiesOf(data', chs) == BodiesOf(data, chs)
  {
    hide Body, DV.Entries;
  }

  lemma AlikeBodies(data: seq<seq<byte>>, data': seq<seq<byte>>, chs: seq<seq<nat>>)
    requires DV.Held(data, chs) && forall d :: 0 <= d < |chs| ==> SameBody(data, data', chs[d])
    ensures Alike(data, data', chs)
  {
    hide Body;
  }

  /** Files keep their bytes when only clusters of directories change. */
  lemma BodiesSame(vol: Volume, dirs: seq<Inode>, files: seq<Inode>, data: seq<seq<byte>>, data': seq<seq<byte>>)
    requires FsInv(vol, Live(dirs + files)) && FileRuns.Table(dirs + files)
    requires DV.Held(data, Chs(files)) && DV.Elsewhere(Chs(dirs), data, data')
    ensures DV.Held(data', Chs(files)) && BodiesOf(data', Chs(files)) == BodiesOf(data, Chs(files))
  {
    hide FsInv, Body;
    var all := dirs + files;
    forall i | 0 <= i < |files|
      ensures Body(data', Chs(files)[i]) == Body(data, Chs(files)[i])
    {
      assert all[|dirs| + i] == files[i];
      forall d | 0 <= d < |dirs|
        ensures Disjoint(files[i].chain, dirs[d].chain)
      {
        assert all[d] == dirs[d] && all[d] != all[|dirs| + i];
        Apart(vol, Live(all), files[i], dirs[d]);
      }
      BodyFrame(data, data', files[i].chain);
    }
  }

  /** What directory operations, which write clusters only, leave as it is. */
  ghost predicate Settled(vol: Volume, dirs: seq<Inode>, files: seq<Inode>)
    reads vol`Fat, vol`Bits, vol`used, dirs, files
  {
    && vol.UsedOk() && FIRST_CLUSTER < vol.geo.numClusters && ReservedMarked(vol, vol.Bits)
    && FilesOk(vol, vol.Fat, vol.Bits, Live(dirs + files)) && FileRuns.Table(dirs + files)
    && 0 < vol.lay.clusterSize <= 0xFFFF_FFFF && forall d :: 0 <= d < |dirs| ==> IsDir(dirs[d])
  }

  /** The store is over these directories of the volume, and began with `data` in its clusters. */
  ghost predicate Over(store: S.Store, vol: Volume, dirs: seq<Inode>, data: seq<seq<byte>>)
    requires vol.lay.clusterSize > 0
    reads dirs
  {
    store.vol == vol && store.chains == Descs(dirs, vol.lay.clusterSize) && store.chs == Chs(dirs) && store.rest == data
  }

  /** The directories of the volume as the directory routines see them. */
  method Open(vol: Volume, table: Upcase, dirs: seq<Inode>, files: seq<Inode>) returns (store: S.Store)
    requires Joint(vol, table, dirs, files)
    ensures fresh(store) && store.Valid() && store.faults == 0 && Settled(vol, dirs, files) && vol.lay.clusterSize > 0
    ensures Over(store, vol, dirs, vol.UserData()) && Seeable(vol, dirs, files)
    ensures store.dirs == Seen(vol, dirs, files).slots && R.AllSound(table, store.dirs)
    ensures |store.dirs| == |dirs| && store.Starts() == StartsOf(dirs)
  {
    hide Volume.Valid, Volume.UserData, FilesOk, R.AllSound, DV.SlotsOf, DV.DirsHere, BodiesOf, CountFor;
    store := new S.Store(vol, Descs(dirs, vol.lay.clusterSize), Chs(dirs));
    assert store.Starts() == StartsOf(dirs);
  }

  /** What they leave is again files and directories under the one invariant. */
  lemma Close(vol: Volume, table: Upcase, dirs: seq<Inode>, files: seq<Inode>, store: S.Store, data: seq<seq<byte>>)
    requires Settled(vol, dirs, files) && vol.lay.clusterSize > 0 && Over(store, vol, dirs, data) && store.Valid()
    requires DV.Held(data, Chs(files)) && R.AllSound(table, store.dirs)
    ensures Joint(vol, table, dirs, files) && Seen(vol, dirs, files).slots == store.dirs
    ensures Seen(vol, dirs, files).bodies == BodiesOf(data, Chs(files)) && DV.Elsewhere(Chs(dirs), data, vol.UserData())
  {
    hide Volume.Valid, Volume.UserData, FilesOk, R.AllSound, DV.SlotsOf, DV.DirsHere, DV.Elsewhere, BodiesOf, CountFor, IsDir;
    assert FsInv(vol, Live(dirs + files));
    BodiesSame(vol, dirs, files, data, vol.UserData());
  }

  /** A lookup, a creation, a removal or a rename in the directories of the volume. */
  method Act(vol: Volume, table: Upcase, dirs: seq<Inode>, files: seq<Inode>, act: R.Act, stamp: seq<byte>, times: seq<byte>)
    returns (code: S.Code)
    requires Joint(vol, table, dirs, files) && R.Proper(act) && |stamp| == 12 && |times| == 17
    modifies vol`disk, vol`Data, vol`readFaults, vol`writeFaults, vol`writes
    ensures Joint(vol, table, dirs, files) && FaultsGrow(vol)
    ensures Seen(vol, dirs, files) == old(Seen(vol, dirs, files)).(slots := Seen(vol, dirs, files).slots)
    ensures R.ActStep(table, StartsOf(dirs), old(Seen(vol, dirs, files)).slots, Seen(vol, dirs, files).slots, act, code, !NoFault(vol))
  {
    hide Joint, Settled, Volume.UserData, Volume.UsedExact, Snapshot, S.Store.Valid, BodiesOf, DV.SlotsOf, DV.Held, R.ActStep, R.AllSound, R.Proper;
    ghost var data := vol.UserData();
    var store := Open(vol, table, dirs, files);
    code := R.PerformAct(store, table, act, stamp, times);
    R.ActMore(table, StartsOf(dirs), old(Seen(vol, dirs, files)).slots, store.dirs, act, code, store.faults > 0, !NoFault(vol));
    Close(vol, table, dirs, files, store, data);
  }

  // ----- file operations

  /** What a file operation does to what is seen: nothing to any directory, nor to any other file; and when no
      access fails, to sizes, lengths, free space and code what the machine of FileSpec does. */
  ghost predicate FileStep(op: FS.Op, w: World, w': World, e: Errno, faulted: bool, cs: nat, max: nat)
    requires cs > 0
  {
    && w'.slots == w.slots && w'.starts == w.starts
    && (!faulted && w.exact && !op.NewDir? ==> w'.exact && (w'.fs, e) == FS.AfterOp(w.fs, op, cs, max))
    && match op
       case NewFile => w'.bodies == w.bodies + [[]]
       case Remove(i) => w'.bodies == if i < |w.bodies| then w.bodies[..i] + w.bodies[i + 1..] else w.bodies
       case NewDir => w' == w
       case _ => FileBytes(op, w.bodies, w'.bodies, if op.i < |w.fs.files| then w.fs.files[op.i].size else 0, e == OK && !faulted, cs)
  }

  /** What becomes of the bytes of the files when one of them, of `size` bytes, is resized, written or read. */
  ghost predicate FileBytes(op: FS.Op, bodies: seq<seq<byte>>, bodies': seq<seq<byte>>, size: nat, whole: bool, cs: nat)
    requires cs > 0 && (op.Resize? || op.WriteAt? || op.ReadAt?)
  {
    && Others(bodies, bodies', op.i)
    && (op.i < |bodies| ==>
          match op
          case Resize(i, newSize) => Resized(bodies[i], bodies'[i], size, newSize)
          case WriteAt(i, pos, buf) => Rewritten(bodies[i], bodies'[i], pos, buf, size, whole, cs)
          case _ => bodies'[op.i] == bodies[op.i])
  }

  predicate Others(bodies: seq<seq<byte>>, bodies': seq<seq<byte>>, i: nat) {
    |bodies'| == |bodies| && forall j :: 0 <= j < |bodies| && j != i ==> bodies'[j] == bodies[j]
  }

  /** Clusters are appended or cut off; no byte of those that stay changes. */
  predicate Resized(b: seq<byte>, b': seq<byte>, size: nat, newSize: nat) {
    (newSize >= size ==> b <= b') && (newSize <= size ==> b' <= b)
  }

  /** Over the old bytes and those of appended clusters, k bytes of the buffer were written: all of them, if `whole`. */
  ghost predicate Rewritten(b: seq<byte>, b': seq<byte>, pos: int, buf: seq<byte>, size: nat, whole: bool, cs: nat)
    requires cs > 0
  {
    exists base: seq<byte>, k: nat :: WroteOver(base, b', pos, buf, k, size, cs) && b <= base && (whole ==> k == |buf|)
  }

  predicate WroteOver(base: seq<byte>, b': seq<byte>, pos: int, buf: seq<byte>, k: nat, size: nat, cs: nat)
    requires cs > 0
  {
    k <= |buf| && if k == 0 then b' == base else pos >= 0 && b' == Written(base, cs, pos, buf[..k], size)
  }

  /** The same operation in a table that has n directories before the files. */
  function Shifted(op: FS.Op, n: nat): FS.Op {
    match op
    case Resize(i, newSize) => FS.Resize(n + i, newSize)
    case WriteAt(i, pos, buf) => FS.WriteAt(n + i, pos, buf)
    case ReadAt(i, pos, len) => FS.ReadAt(n + i, pos, len)
    case Remove(i) => FS.Remove(n + i)
    case _ => op
  }

  /** The machine does not care what else is in the table. */
  lemma AfterShifted(a: seq<FS.Meta>, b: seq<FS.Meta>, free: nat, op: FS.Op, cs: nat, max: nat)
    requires cs > 0 && !op.NewDir?
    ensures var one, both := FS.AfterOp(FS.Fs(b, free), op, cs, max), FS.AfterOp(FS.Fs(a + b, free), Shifted(op, |a|), cs, max);
            both == (FS.Fs(a + one.0.files, one.0.free), one.1)
  {
    hide FS.AfterResize, FS.AfterWrite;
    var one, both := FS.AfterOp(FS.Fs(b, free), op, cs, max), FS.AfterOp(FS.Fs(a + b, free), Shifted(op, |a|), cs, max);
    assert both.0.files == a + one.0.files;
  }

  /** What the whole table followed, its files followed. */
  lemma FollowsFiles(a: seq<FS.Meta>, b: seq<FS.Meta>, b': seq<FS.Meta>, free: nat, free': nat, op: FS.Op, e: Errno, cs: nat, max: nat)
    requires cs > 0 && !op.NewDir? && (FS.Fs(a + b', free'), e) == FS.AfterOp(FS.Fs(a + b, free), Shifted(op, |a|), cs, max)
    ensures (FS.Fs(b', free'), e) == FS.AfterOp(FS.Fs(b, free), op, cs, max)
  {
    hide FS.AfterOp;
    AfterShifted(a, b, free, op, cs, max);
    assert (a + b')[|a|..] == b';
    assert (a + FS.AfterOp(FS.Fs(b, free), op, cs, max).0.files)[|a|..] == FS.AfterOp(FS.Fs(b, free), op, cs, max).0.files;
  }

  /** An operation on one file, in the table of all inodes. */
  method RunOne(vol: Volume, dirs: seq<Inode>, files: seq<Inode>, op: FS.Op) returns (e: Errno, ghost written: nat)
    requires FsInv(vol, Live(dirs + files)) && FileRuns.Table(dirs + files)
    requires (op.Resize? || op.WriteAt? || op.ReadAt?) && op.i < |files|
    modifies vol, files[op.i]
    ensures FaultsGrow(vol)
    ensures vol.geo.numFats == 1 || vol.writeFaults == old(vol.writeFaults) ==> FsInv(vol, Live(dirs + files))
    ensures Follows(vol, files, op, e, files)
    ensures forall d :: 0 <= d < |dirs| ==> dirs[d] != files[op.i] && SameBody(old(vol.UserData()), vol.UserData(), dirs[d].chain)
    ensures forall j :: 0 <= j < |files| && j != op.i ==> files[j] != files[op.i] && SameBody(old(vol.UserData()), vol.UserData(), files[j].chain)
    ensures OwnBytes(vol, files[op.i], op, e, written)
  {
    hide Volume.UsedExact, Volume.UserData, FsInv, SameBody, FS.AfterOp, Snapshot, MaxBytes, Bitmap.CountFree;
    var all, at := dirs + files, |dirs| + op.i;
    assert all[at] == files[op.i];
    OthersAre(dirs, files, op.i);
    ghost var a, b, free := Snapshot(vol, dirs).files, Snapshot(vol, files).files, Bitmap.CountFree(vol.Bits);
    Split(vol, dirs, files);
    e, written := OnFile(vol, all, Shifted(op, |dirs|));
    Split(vol, dirs, files);
    Recount(vol, old(Snapshot(vol, dirs)), dirs);
    if NoFault(vol) && old(vol.UsedExact()) {
      FollowsFiles(a, b, Snapshot(vol, files).files, free, Bitmap.CountFree(vol.Bits), op, e, vol.lay.clusterSize, MaxBytes(vol));
    }
  }

  /** The same, seen in the bytes of directories and files. */
  method BytesOne(vol: Volume, dirs: seq<Inode>, files: seq<Inode>, op: FS.Op) returns (e: Errno)
    requires FsInv(vol, Live(dirs + files)) && FileRuns.Table(dirs + files) && vol.lay.clusterSize > 0
    requires Seeable(vol, dirs, files) && (op.Resize? || op.WriteAt? || op.ReadAt?) && op.i < |files|
    modifies vol, files[op.i]
    ensures FaultsGrow(vol) && Follows(vol, files, op, e, files)
    ensures forall d :: 0 <= d < |dirs| ==> dirs[d] != files[op.i]
    ensures vol.geo.numFats == 1 || vol.writeFaults == old(vol.writeFaults) ==>
              && FsInv(vol, Live(dirs + files)) && Alike(old(vol.UserData()), vol.UserData(), Chs(dirs)) && DV.Held(vol.UserData(), Chs(files))
              && FileBytes(op, old(BodiesOf(vol.UserData(), Chs(files))), BodiesOf(vol.UserData(), Chs(files)), old(files[op.i].size),
                           e == OK && NoFault(vol), vol.lay.clusterSize)
  {
    hide FsInv, Volume.UserData, SameBody, Follows, Alike, Resized, Rewritten, Body, Written;
    ghost var data, chs, fs := vol.UserData(), Chs(dirs), Chs(files);
    SameCount(vol, Live(dirs + files));
    ghost var written;
    e, written := RunOne(vol, dirs, files, op);
    if vol.geo.numFats == 1 || vol.writeFaults == old(vol.writeFaults) {
      SameCount(vol, Live(dirs + files));
      FilesHeld(vol, dirs, files);
      assert Chs(dirs) == chs;
      AlikeBodies(data, vol.UserData(), chs);
      OtherFiles(data, vol.UserData(), fs, Chs(files), op.i);
      if op.ReadAt? {
        assert Chs(files) == fs;
      } else {
        OwnFile(data, vol.UserData(), fs[op.i], Chs(files)[op.i], op, old(files[op.i].size), e == OK && NoFault(vol), vol.lay.clusterSize, written);
      }
    }
  }

  lemma SameCount(vol: Volume, all: set<Inode>)
    requires FsInv(vol, all)
    ensures |vol.UserData()| == vol.geo.numClusters
  {
    DV.UserCount(vol);
  }

  lemma FilesHeld(vol: Volume, dirs: seq<Inode>, files: seq<Inode>)
    requires FsInv(vol, Live(dirs + files))
    ensures DV.Held(vol.UserData(), Chs(files))
  {
    hide FsInv, Volume.UserData;
    FilesInHeap(vol, Live(dirs + files));
    assert forall i :: 0 <= i < |files| ==> (dirs + files)[|dirs| + i] == files[i];
  }

  method OnOne(vol: Volume, table: Upcase, dirs: seq<Inode>, files: seq<Inode>, op: FS.Op) returns (e: Errno)
    requires Joint(vol, table, dirs, files) && (op.Resize? || op.WriteAt? || op.ReadAt?) && op.i < |files|
    modifies vol, files
    ensures FaultsGrow(vol)
    ensures vol.geo.numFats == 1 || vol.writeFaults == old(vol.writeFaults) ==>
              && Joint(vol, table, dirs, files)
              && FileStep(op, old(Seen(vol, dirs, files)), Seen(vol, dirs, files), e, !NoFault(vol), vol.lay.clusterSize, MaxBytes(vol))
  {
    hide Volume.UsedExact, FS.AfterOp, MaxBytes, Bitmap.CountFree, FileBytes;
    hide FsInv, Inode.Stored, Volume.UserData, R.AllSound, DV.SlotsOf, DV.Held, DV.DirsHere, BodiesOf, CountFor, Alike;
    ghost var data, chs, starts := vol.UserData(), Chs(dirs), StartsOf(dirs);
    e := BytesOne(vol, dirs, files, op);
    if vol.geo.numFats == 1 || vol.writeFaults == old(vol.writeFaults) {
      DirsAreHere(vol, dirs, files);
      assert Chs(dirs) == chs && StartsOf(dirs) == starts;
      AlikeSeen(data, vol.UserData(), chs);
    }
  }

  /** What became of the file's own bytes, on values. */
  lemma OwnFile(data: seq<seq<byte>>, data': seq<seq<byte>>, ch: seq<nat>, ch': seq<nat>, op: FS.Op, size: nat, whole: bool, cs: nat, k: nat)
    requires cs > 0 && Within(data, ch) && Within(data, ch') && Within(data', ch') && (op.Resize? || op.WriteAt?)
    requires op.Resize? ==> data' == data && (op.newSize >= size ==> ch <= ch') && (op.newSize <= size ==> ch' <= ch)
    requires op.WriteAt? ==>
               && ch <= ch' && k <= |op.buf| && (whole ==> k == |op.buf|) && (k == 0 ==> data' == data)
               && (k > 0 ==> op.pos >= 0 && Body(data', ch') == Written(Body(data, ch'), cs, op.pos, op.buf[..k], size))
    ensures op.Resize? ==> Resized(Body(data, ch), Body(data', ch'), size, op.newSize)
    ensures op.WriteAt? ==> Rewritten(Body(data, ch), Body(data', ch'), op.pos, op.buf, size, whole, cs)
  {
    hide Body, Written;
    if ch <= ch' {
      BodyPrefix(data, ch', |ch|);
      assert ch'[..|ch|] == ch;
    }
    if ch' <= ch {
      BodyPrefix(data, ch, |ch'|);
      assert ch[..|ch'|] == ch';
    }
    if op.WriteAt? {
      assert WroteOver(Body(data, ch'), Body(data', ch'), op.pos, op.buf, k, size, cs);
    }
  }

  predicate Within(data: seq<seq<byte>>, ch: seq<nat>) {
    forall i :: 0 <= i < |ch| ==> ch[i] < |data|
  }

  lemma {:induction false} BodyPrefix(data: seq<seq<byte>>, ch: seq<nat>, k: nat)
    requires Within(data, ch) && k <= |ch|
    ensures Body(data, ch[..k]) <= Body(data, ch)
  {
    if k < |ch| {
      var last := |ch| - 1;
      BodyPrefix(data, ch[..last], k);
      assert ch[..last][..k] == ch[..k];
    } else {
      assert ch[..k] == ch;
    }
  }

  /** The machine's table is that of the directories and that of the files. */
  lemma Split(vol: Volume, dirs: seq<Inode>, files: seq<Inode>)
    ensures |Snapshot(vol, dirs).files| == |dirs| && |Snapshot(vol, files).files| == |files|
    ensures Snapshot(vol, dirs).free == Snapshot(vol, files).free == Bitmap.CountFree(vol.Bits)
    ensures Snapshot(vol, dirs + files) == FS.Fs(Snapshot(vol, dirs).files + Snapshot(vol, files).files, Bitmap.CountFree(vol.Bits))
  {
    assert Snapshot(vol, dirs + files).files == Snapshot(vol, dirs).files + Snapshot(vol, files).files;
  }

  lemma OthersAre(dirs: seq<Inode>, files: seq<Inode>, i: nat)
    requires FileRuns.Table(dirs + files) && i < |files|
    ensures forall d :: 0 <= d < |dirs| ==> dirs[d] in Live(dirs + files) && dirs[d] != files[i] && dirs[d] !in files
    ensures forall j :: 0 <= j < |files| && j != i ==> files[j] in Live(dirs + files) && files[j] != files[i]
  {
    var all := dirs + files;
    assert all[|dirs| + i] == files[i];
    forall d | 0 <= d < |dirs|
      ensures dirs[d] in Live(all) && dirs[d] != files[i] && dirs[d] !in files
    {
      assert all[d] == dirs[d];
      forall j | 0 <= j < |files| ensures files[j] != dirs[d] { assert all[|dirs| + j] == files[j]; }
    }
    forall j | 0 <= j < |files| && j != i
      ensures files[j] in Live(all) && files[j] != files[i]
    {
      assert all[|dirs| + j] == files[j];
    }
  }

  lemma OtherFiles(data: seq<seq<byte>>, data': seq<seq<byte>>, fs: seq<seq<nat>>, fs': seq<seq<nat>>, i: nat)
    requires DV.Held(data, fs) && DV.Held(data', fs') && |fs'| == |fs|
    requires forall j :: 0 <= j < |fs| && j != i ==> fs'[j] == fs[j] && SameBody(data, data', fs[j])
    ensures forall j :: 0 <= j < |fs| && j != i ==> BodiesOf(data', fs')[j] == BodiesOf(data, fs)[j]
  {
  }

  method CutOne(vol: Volume, dirs: seq<Inode>, files: seq<Inode>, i: nat) returns (e: Errno, live: seq<Inode>)
    requires FsInv(vol, Live(dirs + files)) && FileRuns.Table(dirs + files) && i < |files|
    modifies vol
    ensures FaultsGrow(vol)
    ensures FsInv(vol, Live(dirs + live)) && FileRuns.Table(dirs + live) && live == files[..i] + files[i + 1..]
    ensures vol.UserData() == old(vol.UserData()) && Follows(vol, files, FS.Remove(i), e, live)
  {
    hide Volume.UsedExact, Volume.UserData, FsInv, FS.AfterOp, Snapshot, MaxBytes, Bitmap.CountFree;
    var all, at := dirs + files, |dirs| + i;
    var rest;
    ghost var a, b, free := Snapshot(vol, dirs).files, Snapshot(vol, files).files, Bitmap.CountFree(vol.Bits);
    Split(vol, dirs, files);
    e, rest := RemoveFile(vol, all, at);
    live := files[..i] + files[i + 1..];
    assert rest == dirs + live;
    Split(vol, dirs, live);
    Recount(vol, old(Snapshot(vol, dirs)), dirs);
    if NoFault(vol) && old(vol.UsedExact()) {
      FollowsFiles(a, b, Snapshot(vol, live).files, free, Bitmap.CountFree(vol.Bits), FS.Remove(i), e, vol.lay.clusterSize, MaxBytes(vol));
    }
  }

  method RemoveOne(vol: Volume, table: Upcase, dirs: seq<Inode>, files: seq<Inode>, i: nat) returns (e: Errno, live: seq<Inode>)
    requires Joint(vol, table, dirs, files) && i < |files|
    modifies vol
    ensures FaultsGrow(vol)
    ensures Joint(vol, table, dirs, live) && live == files[..i] + files[i + 1..]
    ensures FileStep(FS.Remove(i), old(Seen(vol, dirs, files)), Seen(vol, dirs, live), e, !NoFault(vol), vol.lay.clusterSize, MaxBytes(vol))
  {
    hide Volume.UsedExact, FS.AfterOp, Snapshot, MaxBytes, Bitmap.CountFree;
    hide FsInv, Inode.Stored, Volume.UserData, R.AllSound, DV.SlotsOf, DV.DirsHere, DV.Held, BodiesOf, CountFor;
    e, live := CutOne(vol, dirs, files, i);
    DirsAreHere(vol, dirs, live);
    assert Chs(live) == Chs(files)[..i] + Chs(files)[i + 1..];
    BodiesWithout(vol.UserData(), Chs(files), i);
  }

  lemma BodiesWithout(data: seq<seq<byte>>, chs: seq<seq<nat>>, i: nat)
    requires DV.Held(data, chs) && i < |chs|
    ensures DV.Held(data, chs[..i] + chs[i + 1..])
    ensures |BodiesOf(data, chs)| == |chs|
    ensures BodiesOf(data, chs[..i] + chs[i + 1..]) == BodiesOf(data, chs)[..i] + BodiesOf(data, chs)[i + 1..]
  {
    hide Body;
  }

  lemma BodiesWith(data: seq<seq<byte>>, chs: seq<seq<nat>>)
    requires DV.Held(data, chs)
    ensures DV.Held(data, chs + [[]]) && BodiesOf(data, chs + [[]]) == BodiesOf(data, chs) + [[]]
  {
    assert Body(data, []) == [];
    hide Body;
  }

  method AddOne(vol: Volume, table: Upcase, dirs: seq<Inode>, files: seq<Inode>) returns (live: seq<Inode>)
    requires Joint(vol, table, dirs, files)
    ensures Joint(vol, table, dirs, live) && |live| == |files| + 1 && live[..|files|] == files && fresh(live[|files|])
    ensures FileStep(FS.NewFile, Seen(vol, dirs, files), Seen(vol, dirs, live), OK, false, vol.lay.clusterSize, MaxBytes(vol))
  {
    hide Volume.UsedExact, FS.AfterOp, Snapshot, MaxBytes, Bitmap.CountFree;
    hide FsInv, Inode.Stored, Volume.UserData, R.AllSound, DV.SlotsOf, DV.DirsHere, DV.Held, BodiesOf, CountFor;
    var all := dirs + files;
    var more := AddFile(vol, all);
    var f := more[|all|];
    live := files + [f];
    assert more == dirs + live;
    Split(vol, dirs, files);
    Split(vol, dirs, live);
    if vol.UsedExact() {
      FollowsFiles(Snapshot(vol, dirs).files, Snapshot(vol, files).files, Snapshot(vol, live).files, Bitmap.CountFree(vol.Bits),
                   Bitmap.CountFree(vol.Bits), FS.NewFile, OK, vol.lay.clusterSize, MaxBytes(vol));
    }
    DirsAreHere(vol, dirs, live);
    assert Chs(live) == Chs(files) + [[]];
    BodiesWith(vol.UserData(), Chs(files));
  }

  /** One operation on files. */
  method OnFiles(vol: Volume, table: Upcase, dirs: seq<Inode>, files: seq<Inode>, op: FS.Op) returns (e: Errno, live: seq<Inode>)
    requires Joint(vol, table, dirs, files)
    modifies vol, files
    ensures FaultsGrow(vol)
    ensures vol.geo.numFats == 1 || vol.writeFaults == old(vol.writeFaults) ==>
              && Joint(vol, table, dirs, live)
              && FileStep(op, old(Seen(vol, dirs, files)), Seen(vol, dirs, live), e, !NoFault(vol), vol.lay.clusterSize, MaxBytes(vol))
    ensures forall f :: f in live ==> f in files || fresh(f)
  {
    hide Joint, Seen, FileStep, MaxBytes, DV.SlotsOf, DV.Held, BodiesOf, Volume.UserData, Volume.UsedExact;
    JointSays(vol, table, dirs, files);
    live, e := files, OK;
    if op.NewFile? {
      live := AddOne(vol, table, dirs, files);
    } else if op.NewDir? || op.i >= |files| {
      Nothing(vol, table, dirs, files, op);
    } else if op.Remove? {
      e, live := RemoveOne(vol, table, dirs, files, op.i);
    } else {
      e := OnOne(vol, table, dirs, files, op);
    }
  }

  /** An operation that names no file does nothing. */
  lemma Nothing(vol: Volume, table: Upcase, dirs: seq<Inode>, files: seq<Inode>, op: FS.Op)
    requires Joint(vol, table, dirs, files) && !op.NewFile? && (op.NewDir? || op.i >= |files|)
    ensures FIRST_CLUSTER <= vol.geo.numClusters && Seeable(vol, dirs, files)
    ensures FileStep(op, Seen(vol, dirs, files), Seen(vol, dirs, files), OK, false, vol.lay.clusterSize, MaxBytes(vol))
  {
    hide Joint, BodiesOf, DV.SlotsOf, Volume.UsedExact;
    JointSays(vol, table, dirs, files);
  }

  // ----- VfsExfatMkdir

  predicate Unwritten(slots: seq<Dentry>) {
    forall i :: 0 <= i < |slots| ==> Type(slots[i]) == UNUSED
  }

  /** The name is free, and there is a window of slots for it. */
  ghost predicate Roomy(table: Upcase, slots: seq<Dentry>, name: seq<u16>, w: nat) {
    && 0 < |name| <= MAX_NAME && Fold(table, name) !in DM.DirMapOf(table, slots) && Directories.Fits(slots, w, NumEntries(|name|))
    && Enterable(table, slots, name)
  }

  /** The name may be entered: it is free, every set can be read, and there are slots for it. */
  ghost predicate Enterable(table: Upcase, slots: seq<Dentry>, name: seq<u16>) {
    Fold(table, name) !in DM.DirMapOf(table, slots) && !DM.AnyBroken(slots) && DM.Creation(slots, name) == S.Ok
  }

  /** Why there is none; a failed access may stand for any reason. */
  ghost predicate NoRoom(table: Upcase, slots: seq<Dentry>, name: seq<u16>, code: S.Code, faulted: bool) {
    || (faulted && code == S.EIO)
    || (code != S.Ok && code == if Fold(table, name) in DM.DirMapOf(table, slots) then S.EINVAL
                                else if DM.AnyBroken(slots) then S.EIO
                                else DM.Creation(slots, name))
  }

  lemma NoRoomAtAll(table: Upcase, slots: seq<Dentry>, name: seq<u16>)
    ensures NoRoom(table, slots, name, S.EIO, true)
  {
  }

  lemma NoRoomMore(table: Upcase, slots: seq<Dentry>, name: seq<u16>, code: S.Code, faulted: bool, more: bool)
    requires NoRoom(table, slots, name, code, faulted) && (faulted ==> more)
    ensures NoRoom(table, slots, name, code, more)
  {
  }

  /** The lookup of the name and the search for slots, which only read. */
  method FindIn(store: S.Store, table: Upcase, d: nat, name: seq<u16>) returns (code: S.Code, w: nat)
    requires store.Valid() && d < |store.dirs| && DM.Sound(table, store.dirs[d])
    modifies store`faults, store.vol`readFaults
    ensures store.FromDevice()
    ensures store.faults >= old(store.faults)
    ensures if code == S.Ok then Roomy(table, store.dirs[d], name, w)
            else NoRoom(table, store.dirs[d], name, code, store.faults > old(store.faults))
  {
    hide S.Store.Valid, DM.MapOf, View, Fold, DM.AnyBroken, DM.Unique, Tidy, NumEntries, Window;
    w := 0;
    var r := DM.LookupMap(store, table, d, name, store.Count(d));
    if r != S.Miss(S.ENOENT) {
      return if r.Hit? then S.EINVAL else r.code, 0;
    }
    if |name| == 0 || |name| > MAX_NAME {
      return S.EINVAL, 0;
    }
    NumEntriesIs(|name|);
    code, w := DirChange.AllocSlot(store, d, NumEntries(|name|), store.Count(d));
    if code != S.EIO {
      DM.CreationIs(store.dirs[d], name, code, w);
    }
  }

  method FindRoom(vol: Volume, table: Upcase, dirs: seq<Inode>, files: seq<Inode>, d: nat, name: seq<u16>)
    returns (code: S.Code, w: nat)
    requires Joint(vol, table, dirs, files) && d < |dirs|
    modifies vol`readFaults
    ensures Joint(vol, table, dirs, files) && FaultsGrow(vol)
    ensures if code == S.Ok then Roomy(table, Seen(vol, dirs, files).slots[d], name, w)
            else NoRoom(table, Seen(vol, dirs, files).slots[d], name, code, !NoFault(vol))
  {
    hide Joint, Settled, Volume.UserData, Volume.UsedExact, Snapshot, S.Store.Valid, BodiesOf, DV.SlotsOf, DV.Held, Roomy, NoRoom, DM.Sound;
    ghost var data := vol.UserData();
    var store := Open(vol, table, dirs, files);
    code, w := FindIn(store, table, d, name);
    Close(vol, table, dirs, files, store, data);
    if code != S.Ok {
      NoRoomMore(table, store.dirs[d], name, code, store.faults > 0, !NoFault(vol));
    }
  }

  /** A cluster of zeros that is marked and in no file or directory. */
  ghost predicate Blank(vol: Volume, all: set<Inode>, c: nat)
    reads vol, all
  {
    && vol.lay.InHeap(c) && c < |vol.Bits| && vol.Bits[c] && !vol.Reserved(c) && (forall g :: g in all ==> c !in g.chain)
    && c < |vol.UserData()| && forall i :: 0 <= i < |vol.UserData()[c]| ==> vol.UserData()[c][i] == 0
  }

  /** What is seen, with the free space and the used count as they are now. */
  ghost function Counted(vol: Volume, w: World): World
    reads vol
  {
    w.(fs := FS.Fs(w.fs.files, Bitmap.CountFree(vol.Bits)), exact := vol.UsedExact())
  }

  /** A cluster was taken or not, and an exact used count is still exact, if `sure`. */
  twostate predicate Takes(vol: Volume, one: bool, sure: bool)
    reads vol
  {
    sure ==> && Bitmap.CountFree(vol.Bits) + (if one then 1 else 0) == Bitmap.CountFree(old(vol.Bits))
             && (old(vol.UsedExact()) ==> vol.UsedExact())
  }

  /** exfat_alloc_new_dir beside the files and directories that are there. */
  method NewCluster(vol: Volume, table: Upcase, dirs: seq<Inode>, files: seq<Inode>) returns (e: Errno, c: nat)
    requires Joint(vol, table, dirs, files)
    modifies vol
    ensures Joint(vol, table, dirs, files) && FaultsGrow(vol)
    ensures Seen(vol, dirs, files) == Counted(vol, old(Seen(vol, dirs, files))) && Takes(vol, e == OK, e == OK || NoFault(vol))
    ensures e == OK || e == ENOSPC || (e == EIO && vol.readFaults + vol.writeFaults > old(vol.readFaults + vol.writeFaults))
    ensures e == OK ==> Blank(vol, Live(dirs + files), c)
    ensures e == OK ==> FIRST_CLUSTER < vol.geo.numClusters && Picked(old(vol.Bits), ScanStart(old(vol.searchPtr), vol.geo.numClusters), [c])
    ensures e == ENOSPC && old(vol.UsedExact()) ==> Bitmap.CountFree(old(vol.Bits)) == 0
  {
    hide Volume.Valid, Volume.UserData, FilesOk, Volume.Synced, Volume.UsedExact, R.AllSound, DV.SlotsOf, DV.Held, DV.DirsHere, BodiesOf;
    hide Bitmap.CountFree, CountFor, Alike, Snapshot, Picked;
    ghost var data, bits, all := vol.UserData(), vol.Bits, Live(dirs + files);
    MarkedHere(vol, dirs, files);
    var chain;
    ghost var at;
    e, chain, at := AllocNewDir(vol, all);
    c := chain.dir;
    DirsAreHere(vol, dirs, files);
    MarkedAlike(vol, data, bits, Chs(dirs));
    MarkedAlike(vol, data, bits, Chs(files));
    AlikeSeen(data, vol.UserData(), Chs(dirs));
    AlikeSeen(data, vol.UserData(), Chs(files));
    Recount(vol, old(Snapshot(vol, files)), files);
  }

  lemma Recount(vol: Volume, was: FS.Fs, files: seq<Inode>)
    requires |was.files| == |files| && forall i :: 0 <= i < |files| ==> was.files[i] == files[i].Summary()
    ensures Snapshot(vol, files) == FS.Fs(was.files, Bitmap.CountFree(vol.Bits))
  {
    assert Snapshot(vol, files).files == was.files;
  }

  ghost predicate Marked(bits: seq<bool>, chs: seq<seq<nat>>) {
    forall d, i :: 0 <= d < |chs| && 0 <= i < |chs[d]| ==> chs[d][i] < |bits| && bits[chs[d][i]]
  }

  lemma MarkedHere(vol: Volume, dirs: seq<Inode>, files: seq<Inode>)
    requires FsInv(vol, Live(dirs + files))
    ensures Marked(vol.Bits, Chs(dirs)) && Marked(vol.Bits, Chs(files))
    ensures forall g, c :: g in Live(dirs + files) && c in g.chain ==> c < |vol.Bits| && vol.Bits[c]
  {
    hide FsInv, CountFor;
    var all := dirs + files;
    forall g | g in Live(all) { FsInvSays(vol, Live(all), g); }
    assert forall d :: 0 <= d < |dirs| ==> all[d] == dirs[d];
    assert forall i :: 0 <= i < |files| ==> all[|dirs| + i] == files[i];
  }

  lemma MarkedAlike(vol: Volume, data: seq<seq<byte>>, bits: seq<bool>, chs: seq<seq<nat>>)
    requires Marked(bits, chs)
    requires forall c :: 0 <= c < |bits| && bits[c] ==> c < |vol.UserData()| && c < |data| && vol.UserData()[c] == data[c]
    ensures Alike(data, vol.UserData(), chs)
  {
    hide Volume.UserData, Body;
    forall d | 0 <= d < |chs|
      ensures Body(vol.UserData(), chs[d]) == Body(data, chs[d])
    {
      BodyFrame(data, vol.UserData(), chs[d]);
    }
  }

  /** Writing the set of a new entry into the slots found for it. */
  method WriteEntry(vol: Volume, table: Upcase, dirs: seq<Inode>, files: seq<Inode>, d: nat, w: nat, sp: DirChange.Spec)
    returns (ok: bool)
    requires Joint(vol, table, dirs, files) && d < |dirs| && sp.Ok() && 0 !in sp.name
    requires Roomy(table, Seen(vol, dirs, files).slots[d], sp.name, w)
    modifies vol`disk, vol`Data, vol`readFaults, vol`writeFaults, vol`writes
    ensures FaultsGrow(vol) && (NoFault(vol) ==> ok)
    ensures Joint(vol, table, dirs, files) && Seen(vol, dirs, files) == old(Seen(vol, dirs, files)).(slots := Seen(vol, dirs, files).slots)
    ensures DV.Elsewhere(Chs(dirs), old(vol.UserData()), vol.UserData())
    ensures Entered(table, old(Seen(vol, dirs, files)).slots, Seen(vol, dirs, files).slots, d, sp, ok, R.Root)
  {
    hide Joint, Settled, Volume.UserData, Volume.UsedExact, Snapshot, S.Store.Valid, BodiesOf, DV.SlotsOf, DV.Held, R.AllSound, Roomy, Entered, DV.Elsewhere;
    ghost var data := vol.UserData();
    var store := Open(vol, table, dirs, files);
    ok := EnterIn(store, table, d, w, sp);
    Close(vol, table, dirs, files, store, data);
  }

  /** The parent has gained the entry, or after a failed write may have.  No other directory shows anything else, and
      only one that holds the parent's own set, whose times are refreshed, has other slots. */
  ghost predicate Entered(table: Upcase, s: Dirs, s': Dirs, d: nat, sp: DirChange.Spec, ok: bool, own: R.Own)
    requires d < |s|
  {
    && |s'| == |s|
    && (forall c :: 0 <= c < |s| && c != d ==> DirChange.KeepsView(s'[c], s[c]) && (!R.IsOwn(c, own) ==> s'[c] == s[c]))
    && DM.Steps(table, DM.DirMapOf(table, s[d]), DM.DirMapOf(table, s'[d]), DM.Create(sp.name, true, sp.start, sp.size, []),
                if ok then S.Ok else S.EIO)
    && (ok ==> Listed(table, s'[d], sp))
  }

  /** The set under the new name has the attributes, the stream and the name that it was to have. */
  ghost predicate Listed(table: Upcase, slots: seq<Dentry>, sp: DirChange.Spec) {
    exists w: nat :: DM.At(table, View(slots), w, Fold(table, sp.name)) && DirChange.Marks(slots, w, sp)
  }

  method EnterIn(store: S.Store, table: Upcase, d: nat, w: nat, sp: DirChange.Spec) returns (ok: bool)
    requires store.Valid() && d < |store.dirs| && R.AllSound(table, store.dirs) && sp.Ok() && 0 !in sp.name
    requires Roomy(table, store.dirs[d], sp.name, w)
    modifies store, store.vol`disk, store.vol`Data, store.vol`readFaults, store.vol`writeFaults, store.vol`writes
    ensures store.FromDevice()
    ensures store.Valid() && R.AllSound(table, store.dirs) && (!ok ==> store.faults > old(store.faults))
    ensures Entered(table, old(store.dirs), store.dirs, d, sp, ok, R.Root)
  {
    hide S.Store.Valid, DM.MapOf, View, Fold, DM.Unique, Tidy, Terminated, NumEntries, DirChange.Gains, Splice, DirChange.Marks, DirChange.Bears;
    ghost var dirs := store.dirs;
    ok := DirChange.WriteSet(store, d, w, sp);
    DM.CreateMap(table, store.dirs, dirs, d, w, sp.AsEntry());
    DM.GainsSays(store.dirs, dirs, d, w, sp.AsEntry());
    DM.GainedIsNew(dirs, d, w, sp.AsEntry());
    if ok {
      DirChange.BearsNew(store.dirs[d], dirs[d], w, sp);
      DirChange.BearsMarks(store.dirs[d], w, sp);
      assert DM.At(table, View(store.dirs[d]), w, Fold(table, sp.name));
    }
  }

  lemma BlankStays(data: seq<seq<byte>>, data': seq<seq<byte>>, chs: seq<seq<nat>>, c: nat)
    requires DV.Elsewhere(chs, data, data') && c < |data| && forall d :: 0 <= d < |chs| ==> c !in chs[d]
    ensures |data'| == |data| && data'[c] == data[c]
  {
  }

  /** The new directory's inode, over a cluster of zeros. */
  method NewDirInode(vol: Volume, table: Upcase, dirs: seq<Inode>, files: seq<Inode>, c: nat) returns (more: seq<Inode>)
    requires Joint(vol, table, dirs, files) && Blank(vol, Live(dirs + files), c)
    ensures Joint(vol, table, more, files) && |more| == |dirs| + 1 && more[..|dirs|] == dirs && fresh(more[|dirs|]) && more[|dirs|].start == c
    ensures Seen(vol, more, files) == Seen(vol, dirs, files).(slots := Seen(vol, more, files).slots, starts := StartsOf(dirs) + [c])
    ensures Seen(vol, more, files).slots[..|dirs|] == Seen(vol, dirs, files).slots
    ensures |Seen(vol, more, files).slots[|dirs|]| > 0 && Unwritten(Seen(vol, more, files).slots[|dirs|]) && more[|dirs|].flags == NO_FAT_CHAIN
  {
    hide Volume.UserData, FilesOk, CountFor, Inode.Stored, R.AllSound, DV.SlotsOf, DV.Entries, Body, Unwritten;
    var cs := vol.lay.clusterSize;
    var f := new Inode(false, c, NO_FAT_CHAIN, cs, cs, cs, [c]);
    vol.MountedHere();
    hide Volume.Valid;
    DirStored(vol, f);
    JoinLive(vol, Live(dirs + files), f);
    more := dirs + [f];
    assert StartsOf(more) == StartsOf(dirs) + [c];
    JoinsTable(dirs, files, f);
    DirsAreHere(vol, more, files);
    DV.DirsSized(vol, Descs(more, cs), Chs(more));
    assert Chs(more) == Chs(dirs) + [[c]] && Chs(more)[|dirs|][0] == c;
    SoundMore(table, vol.UserData(), Chs(dirs), c, cs);
  }

  lemma JoinsTable(dirs: seq<Inode>, files: seq<Inode>, f: Inode)
    requires FileRuns.Table(dirs + files) && f !in dirs && f !in files
    ensures FileRuns.Table(dirs + [f] + files) && Live(dirs + [f] + files) == Live(dirs + files) + {f}
  {
    var all, more := dirs + files, dirs + [f] + files;
    forall i, j | 0 <= i < j < |more|
      ensures more[i] != more[j]
    {
      assert i < |dirs| ==> more[i] == all[i];
      assert j < |dirs| ==> more[j] == all[j];
      assert i > |dirs| ==> more[i] == all[i - 1] == files[i - 1 - |dirs|];
      assert j > |dirs| ==> more[j] == all[j - 1] == files[j - 1 - |dirs|];
    }
  }

  /** One directory more, of zeros. */
  lemma SoundMore(table: Upcase, data: seq<seq<byte>>, chs: seq<seq<nat>>, c: nat, cs: nat)
    requires DV.Held(data, chs) && R.AllSound(table, DV.SlotsOf(data, chs))
    requires c < |data| && |data[c]| == cs >= 32 && forall i :: 0 <= i < |data[c]| ==> data[c][i] == 0
    ensures DV.Held(data, chs + [[c]])
    ensures var slots := DV.SlotsOf(data, chs + [[c]]);
            && R.AllSound(table, slots) && slots[..|chs|] == DV.SlotsOf(data, chs)
            && |slots[|chs|]| > 0 && Unwritten(slots[|chs|])
  {
    hide DV.Entries, Body, DM.Sound, Unwritten;
    ZeroSlots(data, c, cs);
    UnwrittenIsSound(table, DV.Entries(Body(data, [c])));
    assert DV.SlotsOf(data, chs + [[c]]) == DV.SlotsOf(data, chs) + [DV.Entries(Body(data, [c]))];
  }

  lemma ZeroSlots(data: seq<seq<byte>>, c: nat, cs: nat)
    requires c < |data| && |data[c]| == cs >= 32 && forall i :: 0 <= i < |data[c]| ==> data[c][i] == 0
    ensures var slots := DV.Entries(Body(data, [c])); |slots| > 0 && Unwritten(slots)
  {
    assert [c][..0] == [] && Body(data, []) + data[c] == data[c];
    assert Body(data, [c]) == data[c];
  }

  lemma UnwrittenIsSound(table: Upcase, slots: seq<Dentry>)
    requires Unwritten(slots)
    ensures DM.Sound(table, slots)
  {
  }

  /** What making a directory does to what the directories hold: the parent gains the name, and there is one
      directory more, with nothing in it.  After a failure nothing has changed, or a failed write has left the
      name there; `full` is that no cluster was free. */
  ghost predicate MkdirStep(table: Upcase, s: Dirs, s': Dirs, d: nat, sp: DirChange.Spec, code: S.Code, faulted: bool, full: bool, own: R.Own) {
    if d >= |s| || (own.Own? && own.d >= |s|) then s' == s && code == S.ENOENT
    else if code == S.Ok then
      && |s'| == |s| + 1 && Entered(table, s, s'[..|s|], d, sp, true, own) && |s'[|s|]| > 0 && Unwritten(s'[|s|])
      && Enterable(table, s[d], sp.name)
    else
      || (s' == s && (NoRoom(table, s[d], sp.name, code, faulted) || (code == S.ENOSPC && full && Enterable(table, s[d], sp.name))))
      || (code == S.EIO && faulted && Entered(table, s, s', d, sp, false, R.Root))
  }

  lemma JointSays(vol: Volume, table: Upcase, dirs: seq<Inode>, files: seq<Inode>)
    requires Joint(vol, table, dirs, files)
    ensures Seeable(vol, dirs, files)
    ensures |Seen(vol, dirs, files).slots| == |dirs| && |Seen(vol, dirs, files).bodies| == |files| == |Seen(vol, dirs, files).fs.files|
    ensures FIRST_CLUSTER <= vol.geo.numClusters && 0 < vol.lay.clusterSize <= 0xFFFF_FFFF && forall c :: vol.lay.InHeap(c) ==> c <= 0xFFFF_FFFF
  {
    vol.MountedHere();
  }

  /** The entry is written, and once it is the directory it names is one of those of the volume. */
  method EnterNew(vol: Volume, table: Upcase, dirs: seq<Inode>, files: seq<Inode>, d: nat, w: nat, sp: DirChange.Spec)
    returns (ok: bool, more: seq<Inode>)
    requires Joint(vol, table, dirs, files) && d < |dirs| && sp.Ok() && 0 !in sp.name
    requires Roomy(table, Seen(vol, dirs, files).slots[d], sp.name, w) && Blank(vol, Live(dirs + files), sp.start as nat)
    modifies vol`disk, vol`Data, vol`readFaults, vol`writeFaults, vol`writes
    ensures FaultsGrow(vol) && (NoFault(vol) ==> ok)
    ensures Joint(vol, table, more, files) && Seen(vol, more, files)
              == old(Seen(vol, dirs, files)).(slots := Seen(vol, more, files).slots, starts := StartsOf(dirs) + (if ok then [sp.start as nat] else []))
    ensures if ok then |more| == |dirs| + 1 && more[..|dirs|] == dirs && fresh(more[|dirs|]) && more[|dirs|].start == sp.start as nat else more == dirs
    ensures Entered(table, old(Seen(vol, dirs, files)).slots, Seen(vol, more, files).slots[..|dirs|], d, sp, ok, R.Root)
    ensures ok ==> |Seen(vol, more, files).slots[|dirs|]| > 0 && Unwritten(Seen(vol, more, files).slots[|dirs|]) && more[|dirs|].flags == NO_FAT_CHAIN
  {
    hide Joint, Volume.UserData, Volume.UsedExact, Snapshot, DV.SlotsOf, DV.Held, BodiesOf, Roomy, Entered, Unwritten, DV.Elsewhere;
    ghost var data := vol.UserData();
    JointSays(vol, table, dirs, files);
    NotIn(dirs, files, sp.start as nat);
    more := dirs;
    ok := WriteEntry(vol, table, dirs, files, d, w, sp);
    JointSays(vol, table, dirs, files);
    assert Seen(vol, dirs, files).slots[..|dirs|] == Seen(vol, dirs, files).slots;
    if ok {
      BlankStays(data, vol.UserData(), Chs(dirs), sp.start as nat);
      more := NewDirInode(vol, table, dirs, files, sp.start as nat);
    }
  }

  lemma NotIn(dirs: seq<Inode>, files: seq<Inode>, c: nat)
    requires forall g :: g in Live(dirs + files) ==> c !in g.chain
    ensures forall d :: 0 <= d < |dirs| ==> c !in Chs(dirs)[d]
  {
    assert forall d :: 0 <= d < |dirs| ==> (dirs + files)[d] == dirs[d];
  }

  /** The slots are found and the cluster taken, or nothing has changed. */
  method FindAndTake(vol: Volume, table: Upcase, dirs: seq<Inode>, files: seq<Inode>, d: nat, name: seq<u16>)
    returns (code: S.Code, w: nat, c: nat)
    requires Joint(vol, table, dirs, files) && d < |dirs|
    modifies vol
    ensures FaultsGrow(vol)
    ensures Joint(vol, table, dirs, files) && Seen(vol, dirs, files) == Counted(vol, old(Seen(vol, dirs, files)))
    ensures Takes(vol, code == S.Ok, code == S.Ok || NoFault(vol))
    ensures code == S.Ok ==> && Roomy(table, Seen(vol, dirs, files).slots[d], name, w) && Blank(vol, Live(dirs + files), c)
                             && c <= 0xFFFF_FFFF && vol.lay.clusterSize <= 0xFFFF_FFFF && 0 < |name| <= MAX_NAME
    ensures if code == S.Ok then Enterable(table, Seen(vol, dirs, files).slots[d], name)
            else || NoRoom(table, Seen(vol, dirs, files).slots[d], name, code, !NoFault(vol))
                 || (code == S.ENOSPC && (old(vol.UsedExact()) ==> Bitmap.CountFree(old(vol.Bits)) == 0)
                     && Enterable(table, Seen(vol, dirs, files).slots[d], name))
    ensures code == S.Ok ==> FIRST_CLUSTER < vol.geo.numClusters && Picked(old(vol.Bits), ScanStart(old(vol.searchPtr), vol.geo.numClusters), [c])
  {
    hide Joint, Volume.UserData, DV.SlotsOf, DV.Held, BodiesOf, Volume.UsedExact, Bitmap.CountFree, Snapshot, NoRoom, Picked, Enterable;
    Recount(vol, Snapshot(vol, files), files);
    JointSays(vol, table, dirs, files);
    c := 0;
    code, w := FindRoom(vol, table, dirs, files, d, name);
    if code != S.Ok {
      return;
    }
    var e;
    e, c := NewCluster(vol, table, dirs, files);
    JointSays(vol, table, dirs, files);
    if e != OK {
      code := if e == ENOSPC then S.ENOSPC else S.EIO;
      if e == EIO {
        NoRoomAtAll(table, Seen(vol, dirs, files).slots[d], name);
      }
    }
  }

  /** No byte of any file has changed, and one free cluster is gone or none. */
  ghost predicate MkdirWorld(table: Upcase, w: World, w': World, d: nat, sp: DirChange.Spec, code: S.Code, faulted: bool, own: R.Own) {
    && w'.bodies == w.bodies && w'.fs.files == w.fs.files
    && w'.starts == w.starts + (if code == S.Ok then [sp.start as nat] else [])
    && ((!faulted || code == S.Ok) && w.exact ==> w'.exact && w'.fs.free + (if code == S.Ok then 1 else 0) == w.fs.free)
    && MkdirStep(table, w.slots, w'.slots, d, sp, code, faulted, w.exact ==> w.fs.free == 0, own)
  }

  lemma Refused(table: Upcase, w: World, w': World, d: nat, sp: DirChange.Spec, code: S.Code, faulted: bool, own: R.Own)
    requires w'.slots == w.slots && w'.starts == w.starts && w'.bodies == w.bodies && w'.fs.files == w.fs.files && code != S.Ok
    requires !faulted && w.exact ==> w'.exact && w'.fs.free == w.fs.free
    requires if d >= |w.slots| || (own.Own? && own.d >= |w.slots|) then code == S.ENOENT
             else || NoRoom(table, w.slots[d], sp.name, code, faulted)
                  || (code == S.ENOSPC && (w.exact ==> w.fs.free == 0) && Enterable(table, w.slots[d], sp.name))
    ensures MkdirWorld(table, w, w', d, sp, code, faulted, own)
  {
    hide NoRoom, Entered, Enterable;
  }

  lemma Made(table: Upcase, w: World, w': World, d: nat, sp: DirChange.Spec, ok: bool, faulted: bool, own: R.Own)
    requires w'.bodies == w.bodies && w'.fs.files == w.fs.files && (w.exact ==> w'.exact && w'.fs.free + 1 == w.fs.free)
    requires w'.starts == w.starts + (if ok then [sp.start as nat] else [])
    requires d < |w.slots| && |w'.slots| == |w.slots| + (if ok then 1 else 0) && (!ok ==> faulted) && (own.Own? ==> own.d < |w.slots|)
    requires Entered(table, w.slots, w'.slots[..|w.slots|], d, sp, ok, if ok then own else R.Root)
    requires ok ==> |w'.slots[|w.slots|]| > 0 && Unwritten(w'.slots[|w.slots|]) && Enterable(table, w.slots[d], sp.name)
    ensures MkdirWorld(table, w, w', d, sp, if ok then S.Ok else S.EIO, faulted, own)
  {
    hide NoRoom, Entered, Unwritten, Enterable;
    assert !ok ==> w'.slots[..|w.slots|] == w'.slots;
  }

  /** exfat_sync_parent_dir_metadata, whose failure is ignored. */
  method Refresh(vol: Volume, table: Upcase, dirs: seq<Inode>, files: seq<Inode>, own: R.Own, times: seq<byte>)
    requires Joint(vol, table, dirs, files) && (own.Own? ==> own.d < |dirs|) && |times| == 17
    modifies vol`disk, vol`Data, vol`readFaults, vol`writeFaults, vol`writes
    ensures Joint(vol, table, dirs, files) && FaultsGrow(vol)
    ensures Seen(vol, dirs, files) == old(Seen(vol, dirs, files)).(slots := Seen(vol, dirs, files).slots)
    ensures Touched(Seen(vol, dirs, files).slots, old(Seen(vol, dirs, files)).slots, own)
    ensures R.Refreshes(Seen(vol, dirs, files).slots, old(Seen(vol, dirs, files)).slots, own, times, !NoFault(vol))
  {
    hide Joint, Settled, Volume.UserData, Volume.UsedExact, Snapshot, S.Store.Valid, BodiesOf, DV.SlotsOf, DV.Held, R.AllSound, DirChange.KeepsView;
    ghost var data := vol.UserData();
    var store := Open(vol, table, dirs, files);
    R.SyncOwn(store, table, own, times);
    Close(vol, table, dirs, files, store, data);
    assert store.faults > 0 ==> !NoFault(vol);
  }

  /** Nothing is shown that was not, and only the directory with the refreshed set has other slots. */
  ghost predicate Touched(s: Dirs, dirs: Dirs, own: R.Own) {
    |s| == |dirs| && forall c :: 0 <= c < |s| ==> DirChange.KeepsView(s[c], dirs[c]) && (!R.IsOwn(c, own) ==> s[c] == dirs[c])
  }

  lemma EnteredThen(table: Upcase, s: Dirs, mid: Dirs, s': Dirs, d: nat, sp: DirChange.Spec, own: R.Own, times: seq<byte>, faulted: bool)
    requires d < |s| && |mid| == |s| + 1 && Entered(table, s, mid[..|s|], d, sp, true, R.Root) && Touched(s', mid, own)
    requires (own.Own? ==> own.d < |s|) && |times| == 17 && R.Refreshes(s', mid, own, times, faulted)
    ensures Entered(table, s, s'[..|s|], d, sp, true, own) && s'[|s|] == mid[|s|]
  {
    hide View, DM.MapOf, DM.Steps, Tidy, Terminated, Listed, R.Refreshes;
    assert DirChange.KeepsView(s'[d], mid[d]);
    StillListed(table, mid, s', d, sp, own, times, faulted);
    forall c | 0 <= c < |s| && c != d
      ensures DirChange.KeepsView(s'[c], s[c])
    {
      assert mid[..|s|][c] == mid[c] && DirChange.KeepsView(s'[c], mid[c]);
    }
  }

  lemma TouchedDates(s: Dirs, dirs: Dirs, own: R.Own, times: seq<byte>, faulted: bool)
    requires |times| == 17 && (own.Own? ==> own.d < |dirs|) && R.Refreshes(s, dirs, own, times, faulted) && Touched(s, dirs, own)
    ensures !faulted ==> R.Dated(s, own, times)
  {
    hide View, Valid, R.Dated, R.Refreshes;
    R.RefreshesDates(s, dirs, own, times, faulted, own);
  }

  lemma StillListed(table: Upcase, s: Dirs, s': Dirs, d: nat, sp: DirChange.Spec, own: R.Own, times: seq<byte>, faulted: bool)
    requires d < |s| && Listed(table, s[d], sp) && (own.Own? ==> own.d < |s|) && |times| == 17 && R.Refreshes(s', s, own, times, faulted)
    requires |s'| == |s| && View(s'[d]) == View(s[d])
    ensures Listed(table, s'[d], sp)
  {
    hide View, DirChange.Marks, Fold, DM.Key, R.Refreshes;
    var w: nat :| DM.At(table, View(s[d]), w, Fold(table, sp.name)) && DirChange.Marks(s[d], w, sp);
    R.MarksThrough(s', s, own, times, faulted, d, w, sp);
  }

  /** The entry, the directory it names, and the times of the parent. */
  method EnterAndRefresh(vol: Volume, table: Upcase, dirs: seq<Inode>, files: seq<Inode>, d: nat, w: nat, sp: DirChange.Spec,
                         own: R.Own, times: seq<byte>)
    returns (ok: bool, more: seq<Inode>)
    requires Joint(vol, table, dirs, files) && d < |dirs| && sp.Ok() && 0 !in sp.name
    requires Roomy(table, Seen(vol, dirs, files).slots[d], sp.name, w) && Blank(vol, Live(dirs + files), sp.start as nat)
    requires (own.Own? ==> own.d < |dirs|) && |times| == 17
    modifies vol`disk, vol`Data, vol`readFaults, vol`writeFaults, vol`writes
    ensures FaultsGrow(vol) && (NoFault(vol) ==> ok)
    ensures Joint(vol, table, more, files) && Seen(vol, more, files)
              == old(Seen(vol, dirs, files)).(slots := Seen(vol, more, files).slots, starts := StartsOf(dirs) + (if ok then [sp.start as nat] else []))
    ensures if ok then |more| == |dirs| + 1 && more[..|dirs|] == dirs && fresh(more[|dirs|]) && more[|dirs|].start == sp.start as nat else more == dirs
    ensures Entered(table, old(Seen(vol, dirs, files)).slots, Seen(vol, more, files).slots[..|dirs|], d, sp, ok, if ok then own else R.Root)
    ensures ok ==> |Seen(vol, more, files).slots[|dirs|]| > 0 && Unwritten(Seen(vol, more, files).slots[|dirs|]) && more[|dirs|].flags == NO_FAT_CHAIN
    ensures NoFault(vol) ==> R.Dated(Seen(vol, more, files).slots, own, times)
  {
    hide Joint, Volume.UserData, DV.SlotsOf, DV.Held, BodiesOf, Volume.UsedExact, Snapshot, Roomy, Entered, Unwritten, Blank, Touched;
    hide R.Refreshes, R.Dated;
    JointSays(vol, table, dirs, files);
    ghost var slots := Seen(vol, dirs, files).slots;
    ok, more := EnterNew(vol, table, dirs, files, d, w, sp);
    JointSays(vol, table, more, files);
    if ok {
      ghost var mid, r0, w0 := Seen(vol, more, files).slots, vol.readFaults, vol.writeFaults;
      Refresh(vol, table, more, files, own, times);
      JointSays(vol, table, more, files);
      ghost var late := vol.readFaults != r0 || vol.writeFaults != w0;
      EnteredThen(table, slots, mid, Seen(vol, more, files).slots, d, sp, own, times, late);
      TouchedDates(Seen(vol, more, files).slots, mid, own, times, late);
    }
  }

  /** VfsExfatMkdir after the lookup of its name: slots are found first, then a cluster is taken from the free
      space, then the entry that names it is written, and then the parent's times are refreshed. */
  method Mkdir(vol: Volume, table: Upcase, dirs: seq<Inode>, files: seq<Inode>, d: nat, name: seq<u16>, own: R.Own,
               stamp: seq<byte>, times: seq<byte>)
    returns (code: S.Code, more: seq<Inode>, ghost sp: DirChange.Spec)
    requires Joint(vol, table, dirs, files) && 0 !in name && |stamp| == 12 && |times| == 17
    modifies vol
    ensures Joint(vol, table, more, files) && FaultsGrow(vol)
    ensures if code == S.Ok then |more| == |dirs| + 1 && more[..|dirs|] == dirs && fresh(more[|dirs|]) else more == dirs
    ensures code == S.Ok ==> sp.start as nat == more[|dirs|].start && sp.size as nat == vol.lay.clusterSize && more[|dirs|].flags == NO_FAT_CHAIN
    ensures code == S.Ok ==> && FIRST_CLUSTER < vol.geo.numClusters
                             && Picked(old(vol.Bits), ScanStart(old(vol.searchPtr), vol.geo.numClusters), [more[|dirs|].start])
                             && (NoFault(vol) ==> R.Dated(Seen(vol, more, files).slots, own, times))
    ensures sp.name == name && sp.isDir && sp.stamp == stamp && (code == S.Ok ==> sp.hash == DirChange.HashOf(name))
    ensures MkdirWorld(table, old(Seen(vol, dirs, files)), Seen(vol, more, files), d, sp, code, !NoFault(vol), own)
  {
    hide Joint, Volume.UserData, DV.SlotsOf, DV.Held, BodiesOf, Volume.UsedExact, Bitmap.CountFree, Snapshot;
    hide Roomy, NoRoom, Entered, Unwritten, Blank, MkdirWorld, Enterable, Picked, R.Dated;
    more, sp := dirs, DirChange.Spec(true, stamp, 0, 0, name, 0);
    JointSays(vol, table, dirs, files);
    Recount(vol, Snapshot(vol, files), files);
    ghost var w := Seen(vol, dirs, files);
    if d >= |dirs| || (own.Own? && own.d >= |dirs|) {
      Refused(table, w, w, d, sp, S.ENOENT, false, own);
      return S.ENOENT, more, sp;
    }
    var at, c;
    code, at, c := FindAndTake(vol, table, dirs, files, d, name);
    JointSays(vol, table, dirs, files);
    if code != S.Ok {
      Refused(table, w, Seen(vol, dirs, files), d, sp, code, !NoFault(vol), own);
      return;
    }
    var spec := DirChange.Spec(true, stamp, c as u32, vol.lay.clusterSize as u64, name, DirChange.HashOf(name));
    sp := spec;
    var ok;
    ok, more := EnterAndRefresh(vol, table, dirs, files, d, at, spec, own, times);
    JointSays(vol, table, more, files);
    code := if ok then S.Ok else S.EIO;
    Made(table, w, Seen(vol, more, files), d, sp, ok, !NoFault(vol), own);
  }

  // ----- runs

  datatype Deed =
    | ToFiles(op: FS.Op)
    | InDirs(act: R.Act)
    | NewDir(d: nat, name: seq<u16>, own: R.Own)

  datatype Result = Number(e: Errno) | Named(code: S.Code)

  predicate Proper(deed: Deed) {
    match deed
    case ToFiles(_) => true
    case InDirs(act) => R.Proper(act)
    case NewDir(_, name, _) => 0 !in name
  }

  /** What a deed does to what is seen. */
  ghost predicate WorldStep(table: Upcase, w: World, w': World, deed: Deed, r: Result, faulted: bool, cs: nat, max: nat)
    requires cs > 0
  {
    match deed
    case ToFiles(op) => r.Number? && FileStep(op, w, w', r.e, faulted, cs, max)
    case InDirs(act) =>
      && w' == w.(slots := w'.slots) && r.Named? && |w.starts| == |w.slots|
      && R.ActStep(table, w.starts, w.slots, w'.slots, act, r.code, faulted)
    case NewDir(d, name, own) =>
      r.Named? && exists sp: DirChange.Spec :: sp.name == name && MkdirWorld(table, w, w', d, sp, r.code, faulted, own)
  }

  method Step(vol: Volume, table: Upcase, dirs: seq<Inode>, files: seq<Inode>, deed: Deed, stamp: seq<byte>, times: seq<byte>)
    returns (r: Result, more: seq<Inode>, live: seq<Inode>)
    requires Joint(vol, table, dirs, files) && Proper(deed) && |stamp| == 12 && |times| == 17
    modifies vol, files
    ensures FaultsGrow(vol)
    ensures vol.geo.numFats == 1 || vol.writeFaults == old(vol.writeFaults) || !deed.ToFiles? ==>
              && Joint(vol, table, more, live)
              && WorldStep(table, old(Seen(vol, dirs, files)), Seen(vol, more, live), deed, r, !NoFault(vol), vol.lay.clusterSize, MaxBytes(vol))
    ensures forall f :: f in live ==> f in files || fresh(f)
  {
    hide Joint, Volume.UserData, DV.SlotsOf, DV.Held, BodiesOf, R.ActStep, R.Proper, FileStep, MkdirWorld, Volume.UsedExact, Bitmap.CountFree, Snapshot, MaxBytes;
    more, live := dirs, files;
    JointSays(vol, table, dirs, files);
    match deed {
      case ToFiles(op) =>
        var e;
        e, live := OnFiles(vol, table, dirs, files, op);
        r := Number(e);
      case InDirs(act) =>
        var code;
        code := Act(vol, table, dirs, files, act, stamp, times);
        r := Named(code);
      case NewDir(d, name, own) =>
        var code;
        ghost var sp;
        code, more, sp := Mkdir(vol, table, dirs, files, d, name, own, stamp, times);
        r := Named(code);
        JointSays(vol, table, more, files);
    }
  }

  /** How many accesses have failed. */
  ghost function Failures(vol: Volume): nat
    reads vol`readFaults, vol`writeFaults
  {
    vol.readFaults + vol.writeFaults
  }

  /** Any run of file operations, directory operations and new directories on one volume, whichever device
      accesses fail: one invariant holds of files and directories at the end (with two FATs, unless a write
      failed), and every deed has done to them what it says and nothing else.  `counts` has the number of failed
      accesses before each deed and at the end, so a deed during which none failed did what it does without. */
  method Perform(vol: Volume, table: Upcase, dirs: seq<Inode>, files: seq<Inode>, script: seq<Deed>, stamp: seq<byte>, times: seq<byte>)
    returns (results: seq<Result>, more: seq<Inode>, live: seq<Inode>, ghost worlds: seq<World>, ghost counts: seq<nat>)
    requires Joint(vol, table, dirs, files) && |stamp| == 12 && |times| == 17
    requires forall k :: 0 <= k < |script| ==> Proper(script[k])
    modifies vol, files
    ensures FaultsGrow(vol) && |counts| == |results| + 1 && counts[0] == old(Failures(vol)) && counts[|results|] == Failures(vol)
    ensures forall k :: 0 <= k < |results| ==> counts[k] <= counts[k + 1]
    ensures 1 <= |worlds| <= |results| + 1 && |results| <= |script| && worlds[0] == old(Seen(vol, dirs, files))
    ensures vol.lay.clusterSize > 0 && FIRST_CLUSTER <= vol.geo.numClusters
    ensures forall k :: 0 <= k < |worlds| - 1 ==>
              WorldStep(table, worlds[k], worlds[k + 1], script[k], results[k], counts[k + 1] > counts[k], vol.lay.clusterSize, MaxBytes(vol))
    ensures vol.geo.numFats == 1 || vol.writeFaults == old(vol.writeFaults) ==>
              && |results| == |script| && |worlds| == |script| + 1
              && Joint(vol, table, more, live) && worlds[|script|] == Seen(vol, more, live)
  {
    hide Joint, Seen, Seeable, WorldStep, Proper, MaxBytes;
    JointSays(vol, table, dirs, files);
    more, live, results, counts, worlds := dirs, files, [], [Failures(vol)], [Seen(vol, dirs, files)];
    var i, faults := 0, vol.writeFaults;
    while i < |script| && (vol.geo.numFats == 1 || vol.writeFaults == faults)
      invariant FaultsGrow(vol) && |counts| == i + 1 && counts[0] == old(Failures(vol)) && counts[i] == Failures(vol)
      invariant forall k :: 0 <= k < i ==> counts[k] <= counts[k + 1]
      invariant 0 <= i <= |script| && |results| == i && faults == old(vol.writeFaults)
      invariant vol.lay.clusterSize > 0 && FIRST_CLUSTER <= vol.geo.numClusters
      invariant 1 <= |worlds| <= i + 1 && worlds[0] == old(Seen(vol, dirs, files))
      invariant forall k :: 0 <= k < |worlds| - 1 ==>
                  WorldStep(table, worlds[k], worlds[k + 1], script[k], results[k], counts[k + 1] > counts[k], vol.lay.clusterSize, MaxBytes(vol))
      invariant vol.geo.numFats == 1 || vol.writeFaults == faults ==>
                  |worlds| == i + 1 && Joint(vol, table, more, live) && Seeable(vol, more, live) && worlds[i] == Seen(vol, more, live)
      invariant forall f :: f in live ==> f in files || fresh(f)
    {
      assert forall k :: 0 <= k < |live| ==> live[k] in live;
      var r;
      r, more, live := Step(vol, table, more, live, script[i], stamp, times);
      results, counts, i := results + [r], counts + [Failures(vol)], i + 1;
      if vol.geo.numFats == 1 || vol.writeFaults == faults {
        JointSays(vol, table, more, live);
        worlds := worlds + [Seen(vol, more, live)];
      }
    }
  }
}
