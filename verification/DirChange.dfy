/** Changing a directory: slot allocation, exfat_add_entry, the tombstones of unlink and the refresh of a
    directory's own times, each with what every single slot write leaves behind. */
module DirChange {
  import opened Bytes
  import opened Checksum
  import opened Dentries
  import opened Directories
  import opened Names
  import opened DirStore

  // ----- exfat_alloc_dentry_slot

  /** No window of n slots starts before `base`. */
  predicate NoneBefore(slots: seq<Dentry>, base: nat, n: nat) {
    forall v :: 0 <= v < base ==> !Window(slots, v, n)
  }

  /** A slot in use before `i` lets no window end behind it and start at or before it. */
  lemma NoneAcross(slots: seq<Dentry>, base: nat, i: nat, n: nat)
    requires NoneBefore(slots, base, n) && i < |slots| && !Reusable(slots[i]) && i < base + n
    ensures NoneBefore(slots, i + 1, n)
  {
    forall v | 0 <= v < i + 1
      ensures !Window(slots, v, n)
    {
      assert v >= base ==> v <= i < v + n;
    }
  }

  method AllocSlot(store: Store, d: nat, n: nat, max: nat) returns (code: Code, w: nat)
    requires store.Valid()
    requires d < |store.dirs| && max <= |store.dirs[d]| && Terminated(store.dirs[d])
    modifies store`faults, store.vol`readFaults
    ensures store.FromDevice()
    ensures store.faults >= old(store.faults)
    ensures code == EINVAL <==> n < 1 || n > SET_MAX || max == 0
    ensures code == Ok || code == EINVAL || code == ENOSPC || (code == EIO && store.faults > old(store.faults))
    ensures code == Ok ==> Fits(store.dirs[d], w, n) && w + n <= max && NoneBefore(store.dirs[d], w, n)
    ensures code == ENOSPC ==> forall v :: 0 <= v && v + n <= max ==> !Window(store.dirs[d], v, n)
  {
    hide Store.Valid;
    w := 0;
    if n < 1 || n > SET_MAX || max == 0 {
      return EINVAL, 0;
    }
    ghost var slots := store.dirs[d];
    var run := -1;
    for i := 0 to max
      invariant store.FromDevice()
      invariant store.dirs[d] == slots && store.faults == old(store.faults)
      invariant -1 <= run <= i && (run >= 0 ==> i - run < n)
      invariant forall k :: 0 <= k < i ==> Type(slots[k]) != UNUSED
      invariant run >= 0 ==> forall k :: run <= k < i ==> Reusable(slots[k])
      invariant NoneBefore(slots, if run < 0 then i else run, n)
    {
      var probe := store.Get(d, i);
      if probe == None {
        return EIO, 0;
      }
      if Type(probe.value) == UNUSED {
        if run < 0 {
          run := i;
        }
        if max - run >= n {
          return Ok, run;
        }
        return ENOSPC, 0;
      }
      if Type(probe.value) < 0x80 {
        if run < 0 {
          run := i;
        }
        if i - run + 1 >= n {
          return Ok, run;
        }
        continue;
      }
      NoneAcross(slots, if run < 0 then i else run, i, n);
      run := -1;
    }
    return ENOSPC, 0;
  }

  // ----- writing a new set

  /** A beginning `p` of a set with slot k rewritten or appended. */
  function Staged(p: seq<Dentry>, k: nat, x: Dentry): seq<Dentry>
    requires k <= |p|
  {
    if k < |p| then p[..k] + [x] + p[k + 1..] else p + [x]
  }

  lemma StagedPut(a: seq<Dentry>, w: nat, p: seq<Dentry>, k: nat, x: Dentry)
    requires k <= |p| && w + |Staged(p, k, x)| <= |a| && w + |p| <= |a|
    ensures Put(Splice(a, w, p), w + k, x) == Splice(a, w, Staged(p, k, x))
  {
  }

  /** A state on the way to the set of entry `e` at slots w..w+n of directory d. */
  ghost predicate OnTheWay(s: Dirs, dirs: Dirs, d: nat, w: nat, n: nat, e: Entry)
    requires d < |dirs| && w + n <= |dirs[d]|
  {
    exists p: seq<Dentry> :: Filling(n, e, p) && s == dirs[d := Splice(dirs[d], w, p)]
  }

  ghost predicate AllOnTheWay(hist: seq<Dirs>, from: nat, dirs: Dirs, d: nat, w: nat, n: nat, e: Entry)
    requires d < |dirs| && w + n <= |dirs[d]|
  {
    from <= |hist| && forall j :: from <= j < |hist| ==> OnTheWay(hist[j], dirs, d, w, n, e)
  }

  /** Writes slot w + k of a set being built, of which `p` is in place. */
  method WriteStage(store: Store, d: nat, w: nat, k: nat, x: Dentry,
                    ghost dirs: Dirs, ghost n: nat, ghost e: Entry, ghost p: seq<Dentry>, ghost from: nat)
    returns (ok: bool)
    requires store.Valid()
    requires d < |dirs| && w + n <= |dirs[d]| && k <= |p| <= n && store.dirs == dirs[d := Splice(dirs[d], w, p)]
    requires Filling(n, e, Staged(p, k, x)) && AllOnTheWay(store.history, from, dirs, d, w, n, e)
    modifies store, store.vol`disk, store.vol`Data, store.vol`readFaults, store.vol`writeFaults, store.vol`writes
    ensures store.FromDevice()
    ensures store.Valid()
    ensures store.faults == old(store.faults) + (if ok then 0 else 1)
    ensures store.dirs == dirs[d := Splice(dirs[d], w, if ok then Staged(p, k, x) else p)]
    ensures AllOnTheWay(store.history, from, dirs, d, w, n, e)
    ensures old(store.history) <= store.history
  {
    hide Store.Valid, Splice, Filling, Staged, Put;
    StageSize(n, e, p, k, x);
    StagedPut(dirs[d], w, p, k, x);
    ok := store.Set(d, w + k, x);
    if ok {
      assert OnTheWay(store.dirs, dirs, d, w, n, e);
    }
  }

  lemma StageSize(n: nat, e: Entry, p: seq<Dentry>, k: nat, x: Dentry)
    requires k <= |p| && Filling(n, e, Staged(p, k, x))
    ensures |Staged(p, k, x)| <= n && k < n
  {
  }

  /** Every state on the way shows the old view or the old view with the entry added. */
  lemma WayView(s: Dirs, dirs: Dirs, d: nat, w: nat, n: nat, e: Entry)
    requires d < |dirs| && n >= 2 && Fits(dirs[d], w, n) && Terminated(dirs[d]) && OnTheWay(s, dirs, d, w, n, e)
    ensures Gains(s, dirs, d, w, e)
  {
    hide Splice, View;
    var p: seq<Dentry> :| Filling(n, e, p) && s == dirs[d := Splice(dirs[d], w, p)];
    FillView(dirs[d], w, n, e, p);
  }

  /** Only directory d differs, and its view is the old one, or has gained entry `e` at slot w. */
  ghost predicate Gains(s: Dirs, dirs: Dirs, d: nat, w: nat, e: Entry)
    requires d < |dirs| && w < |dirs[d]|
  {
    && |s| == |dirs| && s == dirs[d := s[d]] && |s[d]| == |dirs[d]| && Terminated(s[d]) && View(dirs[d])[w] == None
    && (View(s[d]) == View(dirs[d]) || View(s[d]) == View(dirs[d])[w := Some(e)])
    && (Tidy(dirs[d]) && 0 !in e.name ==> Tidy(s[d]))
  }

  /** What a new set is made from. */
  datatype Spec = Spec(isDir: bool, stamp: seq<byte>, start: u32, size: u64, name: seq<u16>, hash: u16) {
    predicate Ok() { |stamp| == 12 && 0 < |name| <= MAX_NAME }

    function Len(): (n: nat)
      requires Ok()
      ensures 3 <= n <= SET_MAX
    {
      NumEntriesIs(|name|);
      NumEntries(|name|)
    }

    function AsEntry(): Entry { Entry(name, start, size) }

    function File(): Dentry requires Ok() { WithNumExt(FileEntry(isDir, stamp), Len() - 1) }

    function Stream(): Dentry requires Ok() { WithName(StreamEntry(isDir, start, size), |name|, hash) }

    function Plain(): (s: seq<Dentry>)
      requires Ok()
      ensures |s| == Len() && s[0] == File() && s[1] == Stream() && s[2..] == NameEntries(name, Len() - 2)
    {
      Unsummed(isDir, stamp, start, size, name, hash)
    }

    function Set(): (s: seq<Dentry>)
      requires Ok()
      ensures |s| == Len()
    {
      BuiltSet(isDir, stamp, start, size, name, hash)
    }
  }

  lemma FileTypes(sp: Spec)
    requires sp.Ok()
    ensures Type(FileEntry(sp.isDir, sp.stamp)) == FILE && NumExt(FileEntry(sp.isDir, sp.stamp)) == 0
    ensures Type(sp.File()) == FILE && Total(sp.File()) == sp.Len() && WithCheck(sp.File(), 0) == sp.File()
    ensures Type(StreamEntry(sp.isDir, sp.start, sp.size)) == STREAM && Type(sp.Stream()) == STREAM
  {
    hide Le64, Le32, NumEntries;
    StreamFields(sp.isDir, sp.start, sp.size, |sp.name|, sp.hash);
    assert Le16(0) == [0, 0];
  }

  /** The first two writes, before the set says it has secondary entries. */
  lemma FirstStages(sp: Spec)
    requires sp.Ok()
    ensures var f, s := FileEntry(sp.isDir, sp.stamp), StreamEntry(sp.isDir, sp.start, sp.size);
            && Filling(sp.Len(), sp.AsEntry(), Staged([], 0, f)) && Staged([], 0, f) == [f]
            && Filling(sp.Len(), sp.AsEntry(), Staged([f], 1, s)) && Staged([f], 1, s) == [f, s]
            && Filling(sp.Len(), sp.AsEntry(), Staged([f, s], 0, sp.File())) && Staged([f, s], 0, sp.File()) == [sp.File(), s]
            && Filling(sp.Len(), sp.AsEntry(), Staged([sp.File(), s], 1, sp.Stream())) && Staged([sp.File(), s], 1, sp.Stream()) == sp.Plain()[..2]
  {
    hide FileEntry, StreamEntry, WithNumExt, WithName, Named, Spec.Plain, WithCheck;
    FileTypes(sp);
  }

  /** Both extractors read the name from the finished set, and from the one that lacks its checksum. */
  lemma TextStages(sp: Spec)
    requires sp.Ok() && 0 !in sp.name
    ensures IsText(sp.Set(), sp.name) && IsText(sp.Plain(), sp.name)
  {
    hide SetSum, WithCheck, FileEntry, StreamEntry, WithNumExt, WithName, NumEntries, IsText;
    BuiltText(sp.isDir, sp.stamp, sp.start, sp.size, sp.name, sp.hash);
    FileTypes(sp);
    SumIgnoresCheck(sp.Plain(), SetSum(sp.Plain()));
    SameName(sp.Set(), sp.Plain()[0]);
    assert sp.Set()[0 := sp.Plain()[0]] == sp.Plain();
  }

  lemma PlainFacts(sp: Spec)
    requires sp.Ok()
    ensures var p := sp.Plain();
            && Type(p[0]) == FILE && Total(p[0]) == sp.Len() && Carries(p, sp.AsEntry())
            && forall k :: 1 <= k < |p| ==> Secondary(p[k])
  {
    hide FileEntry, StreamEntry, WithNumExt, WithName, Named, WithCheck, NameOf, StartClu, Size, NumEntries, IsText;
    if 0 !in sp.name {
      TextStages(sp);
    }
    var p := sp.Plain();
    FileTypes(sp);
    BuiltReads(sp.isDir, sp.stamp, sp.start, sp.size, sp.name, sp.hash, 0);
    assert p[0 := p[0]] == p;
  }

  /** The name entries, one after the other; after the last the set carries the entry. */
  lemma NameStage(sp: Spec, i: nat)
    requires sp.Ok() && 2 <= i < sp.Len()
    ensures sp.Plain()[i] == NameEntry(Chunk(sp.name, i - 2))
    ensures Filling(sp.Len(), sp.AsEntry(), Staged(sp.Plain()[..i], i, sp.Plain()[i]))
    ensures Staged(sp.Plain()[..i], i, sp.Plain()[i]) == sp.Plain()[..i + 1]
  {
    hide Carries, Spec.Len, NameEntry, Chunk;
    PlainFacts(sp);
    var p := sp.Plain();
    assert p[i] == p[2..][i - 2];
    hide Spec.Plain, Total;
    var q := p[..i + 1];
    assert q == p[..i] + [p[i]];
    assert i + 1 == sp.Len() ==> q == p;
    assert q[0] == p[0] && forall k :: 1 <= k < |q| ==> q[k] == p[k];
  }

  lemma LastStage(sp: Spec)
    requires sp.Ok()
    ensures var p := sp.Plain();
            var head := WithCheck(sp.File(), SetSum(p));
            && Staged(p, 0, head) == sp.Set() && Filling(sp.Len(), sp.AsEntry(), sp.Set())
            && Valid(sp.Set()) && Total(sp.Set()[0]) == sp.Len()
  {
    hide FileEntry, StreamEntry, WithNumExt, WithName, Named, WithCheck, NameOf;
    hide StartClu, Size, NumEntries, Valid, SetSum, IsText;
    if 0 !in sp.name {
      TextStages(sp);
    }
    var p := sp.Plain();
    BuiltReads(sp.isDir, sp.stamp, sp.start, sp.size, sp.name, sp.hash, SetSum(p));
    BuiltIsValid(sp.isDir, sp.stamp, sp.start, sp.size, sp.name, sp.hash);
    assert Staged(p, 0, sp.Set()[0]) == sp.Set();
  }

  /** exfat_init_dir_entry. */
  method InitDirEntry(store: Store, d: nat, w: nat, sp: Spec, ghost from: nat) returns (ok: bool)
    requires store.Valid()
    requires sp.Ok() && d < |store.dirs| && w + sp.Len() <= |store.dirs[d]|
    requires AllOnTheWay(store.history, from, store.dirs, d, w, sp.Len(), sp.AsEntry())
    modifies store, store.vol`disk, store.vol`Data, store.vol`readFaults, store.vol`writeFaults, store.vol`writes
    ensures store.FromDevice()
    ensures store.Valid()
    ensures old(store.history) <= store.history && store.faults == old(store.faults) + (if ok then 0 else 1)
    ensures AllOnTheWay(store.history, from, old(store.dirs), d, w, sp.Len(), sp.AsEntry())
    ensures ok ==> store.dirs == old(store.dirs)[d := Splice(old(store.dirs)[d], w, Opened(sp))]
    ensures store.dirs == old(store.dirs) || OnTheWay(store.dirs, old(store.dirs), d, w, sp.Len(), sp.AsEntry())
  {
    hide Store.Valid, Splice, Filling, Staged, FileEntry, StreamEntry, AllOnTheWay;
    ghost var dirs, n, e := store.dirs, sp.Len(), sp.AsEntry();
    FirstStages(sp);
    SpliceNothing(dirs[d], w);
    var file, stream := FileEntry(sp.isDir, sp.stamp), StreamEntry(sp.isDir, sp.start, sp.size);
    ok := WriteStage(store, d, w, 0, file, dirs, n, e, [], from);
    if ok {
      ok := WriteStage(store, d, w, 1, stream, dirs, n, e, [file], from);
    }
  }

  /** The file and stream entries before the name is known. */
  function Opened(sp: Spec): (s: seq<Dentry>)
    requires sp.Ok()
    ensures |s| == 2
  {
    [FileEntry(sp.isDir, sp.stamp), StreamEntry(sp.isDir, sp.start, sp.size)]
  }

  lemma SpliceNothing(a: seq<Dentry>, w: nat)
    requires w <= |a|
    ensures Splice(a, w, []) == a
  {
  }

  /** Reading back a slot of the set being built. */
  method ReadStage(store: Store, d: nat, w: nat, k: nat, ghost dirs: Dirs, ghost p: seq<Dentry>)
    returns (r: Option<Dentry>)
    requires store.Valid()
    requires d < |dirs| && w + |p| <= |dirs[d]| && k < |p| && store.dirs == dirs[d := Splice(dirs[d], w, p)]
    modifies store`faults, store.vol`readFaults
    ensures store.FromDevice()
    ensures r == if store.faults == old(store.faults) then Some(p[k]) else None
    ensures store.faults >= old(store.faults)
  {
    hide Store.Valid;
    SpliceReads(dirs[d], w, p, w + k);
    r := store.Get(d, w + k);
  }

  /** Steps 1 and 2 of exfat_init_ext_entry: the count of entries, then the name's length and hash. */
  method PatchHeads(store: Store, d: nat, w: nat, n: nat, sp: Spec, ghost dirs: Dirs, ghost from: nat)
    returns (ok: bool)
    requires store.Valid()
    requires sp.Ok() && n == sp.Len() && d < |dirs| && w + n <= |dirs[d]| && store.dirs == dirs[d := Splice(dirs[d], w, Opened(sp))]
    requires AllOnTheWay(store.history, from, dirs, d, w, n, sp.AsEntry()) && OnTheWay(store.dirs, dirs, d, w, n, sp.AsEntry())
    modifies store, store.vol`disk, store.vol`Data, store.vol`readFaults, store.vol`writeFaults, store.vol`writes
    ensures store.FromDevice()
    ensures store.Valid()
    ensures old(store.history) <= store.history && store.faults >= old(store.faults) && (!ok ==> store.faults > old(store.faults))
    ensures AllOnTheWay(store.history, from, dirs, d, w, n, sp.AsEntry()) && OnTheWay(store.dirs, dirs, d, w, n, sp.AsEntry())
    ensures ok ==> store.dirs == dirs[d := Splice(dirs[d], w, sp.Plain()[..2])]
  {
    hide Store.Valid, Splice, Filling, Staged, FileEntry, StreamEntry, AllOnTheWay, Spec.Plain, WithName, WithNumExt;
    FirstStages(sp);
    ghost var e := sp.AsEntry();
    var file, stream := FileEntry(sp.isDir, sp.stamp), StreamEntry(sp.isDir, sp.start, sp.size);
    ok := false;
    var one := ReadStage(store, d, w, 0, dirs, [file, stream]);
    if one == None {
      return;
    }
    ok := WriteStage(store, d, w, 0, WithNumExt(one.value, n - 1), dirs, n, e, [file, stream], from);
    if !ok {
      return;
    }
    one := ReadStage(store, d, w, 1, dirs, [sp.File(), stream]);
    if one == None {
      return false;
    }
    ok := WriteStage(store, d, w, 1, WithName(one.value, |sp.name|, sp.hash), dirs, n, e, [sp.File(), stream], from);
  }

  /** Step 3: the name entries. */
  method WriteNames(store: Store, d: nat, w: nat, n: nat, sp: Spec, ghost dirs: Dirs, ghost from: nat)
    returns (ok: bool)
    requires store.Valid()
    requires sp.Ok() && n == sp.Len() && d < |dirs| && w + n <= |dirs[d]| && store.dirs == dirs[d := Splice(dirs[d], w, sp.Plain()[..2])]
    requires AllOnTheWay(store.history, from, dirs, d, w, n, sp.AsEntry()) && OnTheWay(store.dirs, dirs, d, w, n, sp.AsEntry())
    modifies store, store.vol`disk, store.vol`Data, store.vol`readFaults, store.vol`writeFaults, store.vol`writes
    ensures store.FromDevice()
    ensures store.Valid()
    ensures old(store.history) <= store.history && store.faults >= old(store.faults) && (!ok ==> store.faults > old(store.faults))
    ensures AllOnTheWay(store.history, from, dirs, d, w, n, sp.AsEntry()) && OnTheWay(store.dirs, dirs, d, w, n, sp.AsEntry())
    ensures ok ==> store.dirs == dirs[d := Splice(dirs[d], w, sp.Plain())]
  {
    hide Store.Valid, Splice, Filling, Staged, AllOnTheWay, Spec.Plain, NameEntry, Chunk, Spec.Len;
    ghost var e := sp.AsEntry();
    ok := true;
    for i := 2 to n
      invariant store.FromDevice()
      invariant store.Valid()
      invariant ok && old(store.history) <= store.history && store.faults == old(store.faults)
      invariant AllOnTheWay(store.history, from, dirs, d, w, n, e) && OnTheWay(store.dirs, dirs, d, w, n, e)
      invariant store.dirs == dirs[d := Splice(dirs[d], w, sp.Plain()[..i])]
    {
      NameStage(sp, i);
      ok := WriteStage(store, d, w, i, NameEntry(Chunk(sp.name, i - 2)), dirs, n, e, sp.Plain()[..i], from);
      if !ok {
        return;
      }
    }
    assert sp.Plain()[..n] == sp.Plain();
  }

  /** Steps 4 and 5: the checksum over the set as read back, entry by entry, stored in the file entry. */
  method StoreSum(store: Store, d: nat, w: nat, n: nat, sp: Spec, ghost dirs: Dirs, ghost from: nat) returns (ok: bool)
    requires store.Valid()
    requires sp.Ok() && n == sp.Len() && d < |dirs| && w + n <= |dirs[d]| && store.dirs == dirs[d := Splice(dirs[d], w, sp.Plain())]
    requires AllOnTheWay(store.history, from, dirs, d, w, n, sp.AsEntry()) && OnTheWay(store.dirs, dirs, d, w, n, sp.AsEntry())
    modifies store, store.vol`disk, store.vol`Data, store.vol`readFaults, store.vol`writeFaults, store.vol`writes
    ensures store.FromDevice()
    ensures store.Valid()
    ensures old(store.history) <= store.history && store.faults >= old(store.faults) && (!ok ==> store.faults > old(store.faults))
    ensures AllOnTheWay(store.history, from, dirs, d, w, n, sp.AsEntry()) && OnTheWay(store.dirs, dirs, d, w, n, sp.AsEntry())
    ensures ok ==> store.dirs == dirs[d := Splice(dirs[d], w, sp.Set())]
  {
    hide Store.Valid, Splice, Filling, Staged, AllOnTheWay, Spec.Plain, Spec.Set, SetSum, WithCheck, Valid, Sum16, OnTheWay;
    ghost var p := sp.Plain();
    LastStage(sp);
    ok := false;
    var probe := ReadStage(store, d, w, 0, dirs, p);
    if probe == None {
      return;
    }
    var sum := Calc16(probe.value, 0, DirEntry);
    SetSumOne(p[0]);
    assert p[..1] == [p[0]];
    for i := 1 to n
      invariant store.FromDevice()
      invariant store.Valid()
      invariant store.faults == old(store.faults) && !ok
      invariant store.dirs == old(store.dirs) && store.history == old(store.history)
      invariant sum == SetSum(p[..i])
    {
      probe := ReadStage(store, d, w, i, dirs, p);
      if probe == None {
        return;
      }
      SetSumNext(p, i);
      sum := Calc16(probe.value, sum, Default);
    }
    assert p[..n] == p;
    probe := ReadStage(store, d, w, 0, dirs, p);
    if probe == None {
      return;
    }
    ok := WriteStage(store, d, w, 0, WithCheck(probe.value, sum), dirs, n, sp.AsEntry(), p, from);
    if ok {
      Arrived(store.dirs, dirs, d, w, n, sp.AsEntry(), sp.Set());
    }
  }

  lemma Arrived(s: Dirs, dirs: Dirs, d: nat, w: nat, n: nat, e: Entry, p: seq<Dentry>)
    requires d < |dirs| && w + n <= |dirs[d]| && Filling(n, e, p) && s == dirs[d := Splice(dirs[d], w, p)]
    ensures OnTheWay(s, dirs, d, w, n, e)
  {
  }

  /** exfat_init_ext_entry. */
  method InitExtEntry(store: Store, d: nat, w: nat, n: nat, sp: Spec, ghost dirs: Dirs, ghost from: nat)
    returns (ok: bool)
    requires store.Valid()
    requires sp.Ok() && n == sp.Len() && d < |dirs| && w + n <= |dirs[d]| && store.dirs == dirs[d := Splice(dirs[d], w, Opened(sp))]
    requires AllOnTheWay(store.history, from, dirs, d, w, n, sp.AsEntry()) && OnTheWay(store.dirs, dirs, d, w, n, sp.AsEntry())
    modifies store, store.vol`disk, store.vol`Data, store.vol`readFaults, store.vol`writeFaults, store.vol`writes
    ensures store.FromDevice()
    ensures store.Valid()
    ensures old(store.history) <= store.history && store.faults >= old(store.faults) && (!ok ==> store.faults > old(store.faults))
    ensures AllOnTheWay(store.history, from, dirs, d, w, n, sp.AsEntry()) && OnTheWay(store.dirs, dirs, d, w, n, sp.AsEntry())
    ensures ok ==> store.dirs == dirs[d := Splice(dirs[d], w, sp.Set())]
  {
    hide Store.Valid, Splice, AllOnTheWay, OnTheWay, Spec.Plain, Spec.Set, Opened;
    ok := PatchHeads(store, d, w, n, sp, dirs, from);
    if ok {
      ok := WriteNames(store, d, w, n, sp, dirs, from);
    }
    if ok {
      ok := StoreSum(store, d, w, n, sp, dirs, from);
    }
  }

  /** Writes the set for `sp` into the window at w: at every slot write the directory shows what it showed
      before or has gained exactly the new entry, and at the end it has gained it. */
  method WriteSet(store: Store, d: nat, w: nat, sp: Spec) returns (ok: bool)
    requires store.Valid()
    requires sp.Ok() && d < |store.dirs| && Fits(store.dirs[d], w, sp.Len()) && Terminated(store.dirs[d])
    modifies store, store.vol`disk, store.vol`Data, store.vol`readFaults, store.vol`writeFaults, store.vol`writes
    ensures store.FromDevice()
    ensures store.Valid()
    ensures old(store.history) <= store.history && store.faults >= old(store.faults) && (!ok ==> store.faults > old(store.faults))
    ensures forall j :: |old(store.history)| <= j < |store.history| ==> Gains(store.history[j], old(store.dirs), d, w, sp.AsEntry())
    ensures Gains(store.dirs, old(store.dirs), d, w, sp.AsEntry())
    ensures ok ==> View(store.dirs[d]) == View(old(store.dirs)[d])[w := Some(sp.AsEntry())] && store.dirs[d][w] == sp.Set()[0]
    ensures ok ==> store.dirs == old(store.dirs)[d := Splice(old(store.dirs)[d], w, sp.Set())]
  {
    hide Store.Valid, Splice, OnTheWay, Opened, View, Spec.Plain, Spec.Set, Gains;
    ghost var dirs, from, n, e := store.dirs, |store.history|, sp.Len(), sp.AsEntry();
    LastStage(sp);
    GainsNothing(dirs, d, w, n, sp);
    ok := InitDirEntry(store, d, w, sp, from);
    if ok {
      OpenedOnTheWay(store.dirs, dirs, d, w, sp);
      ok := InitExtEntry(store, d, w, sp.Len(), sp, dirs, from);
    }
    forall j | from <= j < |store.history|
      ensures Gains(store.history[j], dirs, d, w, e)
    {
      WayView(store.history[j], dirs, d, w, n, e);
    }
    if store.dirs != dirs {
      WayView(store.dirs, dirs, d, w, n, e);
    }
    if ok {
      FillView(dirs[d], w, n, e, sp.Set());
      SpliceReads(dirs[d], w, sp.Set(), w);
    }
  }

  lemma GainsNothing(dirs: Dirs, d: nat, w: nat, n: nat, sp: Spec)
    requires sp.Ok() && n == sp.Len() && d < |dirs| && Fits(dirs[d], w, n) && Terminated(dirs[d])
    ensures Gains(dirs, dirs, d, w, sp.AsEntry())
  {
    hide Splice, View, FileEntry;
    FirstStages(sp);
    FillView(dirs[d], w, n, sp.AsEntry(), [FileEntry(sp.isDir, sp.stamp)]);
  }

  lemma OpenedOnTheWay(s: Dirs, dirs: Dirs, d: nat, w: nat, sp: Spec)
    requires sp.Ok() && d < |dirs| && w + sp.Len() <= |dirs[d]| && s == dirs[d := Splice(dirs[d], w, Opened(sp))]
    ensures OnTheWay(s, dirs, d, w, sp.Len(), sp.AsEntry())
  {
    hide Splice, Filling, FileEntry, StreamEntry;
    FirstStages(sp);
    Arrived(s, dirs, d, w, sp.Len(), sp.AsEntry(), Opened(sp));
  }

  /** The name hash: the plain checksum over the name's bytes, without up-casing. */
  function HashOf(name: seq<u16>): u16 { Sum16(Pack(name), 0, Default) }

  /** exfat_add_entry once the name is decoded and, for a directory, its cluster allocated.  `max` is the
      number of slots the parent's size accounts for. */
  method AddEntry(store: Store, d: nat, max: nat, name: seq<u16>, isDir: bool, start: u32, size: u64, stamp: seq<byte>)
    returns (code: Code, w: nat)
    requires store.Valid()
    requires d < |store.dirs| && max <= |store.dirs[d]| && Terminated(store.dirs[d]) && |stamp| == 12
    modifies store, store.vol`disk, store.vol`Data, store.vol`readFaults, store.vol`writeFaults, store.vol`writes
    ensures store.FromDevice()
    ensures store.Valid()
    ensures old(store.history) <= store.history && store.faults >= old(store.faults)
    ensures code == EINVAL <==> |name| == 0 || |name| > MAX_NAME || max == 0
    ensures code == Ok || code == EINVAL || code == ENOSPC || code == EIO
    ensures code == EIO ==> store.faults > old(store.faults)
    ensures code == EINVAL || code == ENOSPC ==> store.dirs == old(store.dirs) && store.history == old(store.history)
    ensures code == ENOSPC ==>
              forall v :: 0 <= v && 0 < |name| && v + NumEntries(|name|) <= max ==> !Window(old(store.dirs)[d], v, NumEntries(|name|))
    ensures code == Ok ==> 0 < |name| <= MAX_NAME && w < |old(store.dirs)[d]| && Gains(store.dirs, old(store.dirs), d, w, Entry(name, start, size))
                           && View(store.dirs[d]) == View(old(store.dirs)[d])[w := Some(Entry(name, start, size))]
    ensures code == Ok ==>
              && w + NumEntries(|name|) <= |old(store.dirs)[d]|
              && Window(old(store.dirs)[d], w, NumEntries(|name|)) && NoneBefore(old(store.dirs)[d], w, NumEntries(|name|))
              && store.dirs == old(store.dirs)[d := Splice(old(store.dirs)[d], w, BuiltSet(isDir, stamp, start, size, name, HashOf(name)))]
    ensures code == Ok ==> Bears(store.dirs[d], w, Spec(isDir, stamp, start, size, name, HashOf(name)))
    ensures code == EIO ==> store.dirs == old(store.dirs)
                            || (w < |old(store.dirs)[d]| && Gains(store.dirs, old(store.dirs), d, w, Entry(name, start, size)))
    ensures forall j :: |old(store.history)| <= j < |store.history| ==>
              w < |old(store.dirs)[d]| && Gains(store.history[j], old(store.dirs), d, w, Entry(name, start, size))
  {
    hide Store.Valid, View, Gains, BuiltSet, Sum16, NumEntries, Bears;
    if |name| == 0 || |name| > MAX_NAME {
      return EINVAL, 0;
    }
    var hash := Calc16(Pack(name), 0, Default);
    var sp := Spec(isDir, stamp, start, size, name, hash);
    code, w := AllocSlot(store, d, sp.Len(), max);
    if code != Ok {
      return;
    }
    var ok := WriteSet(store, d, w, sp);
    code := if ok then Ok else EIO;
    if ok {
      BearsNew(store.dirs[d], old(store.dirs)[d], w, sp);
    }
  }

  /** The set at slot w is the one made from `sp`. */
  ghost predicate Bears(slots: seq<Dentry>, w: nat, sp: Spec) {
    sp.Ok() && SetHere(slots, w) && SetOf(slots, w) == sp.Set()
  }

  lemma BearsNew(slots: seq<Dentry>, was: seq<Dentry>, w: nat, sp: Spec)
    requires sp.Ok() && w + sp.Len() <= |was| && slots == Splice(was, w, sp.Set())
    ensures |slots| == |was| && Bears(slots, w, sp)
  {
    hide Spec.Set, Spec.Len, Splice, Valid, Carries;
    LastStage(sp);
    var n := sp.Len();
    forall k | 0 <= k < n
      ensures slots[w + k] == sp.Set()[k]
    {
      SpliceReads(was, w, sp.Set(), w + k);
    }
    assert slots[w + 0] == sp.Set()[0];
    assert slots[w..w + n] == sp.Set();
    forall k | w < k < w + n
      ensures Secondary(slots[k])
    {
      assert slots[w + (k - w)] == sp.Set()[k - w];
    }
  }

  /** It is, but for the times of its file entry and the checksum that goes with them: the attributes, the stream and
      the name are what they were made. */
  ghost predicate Marks(slots: seq<Dentry>, w: nat, sp: Spec) {
    && sp.Ok() && SetHere(slots, w) && SetOf(slots, w)[1..] == sp.Set()[1..] && Attr(slots[w]) == Attr(sp.Set()[0])
  }

  /** So a directory is marked as one in a run of clusters, and a file as one in a chain. */
  lemma MarksKind(slots: seq<Dentry>, w: nat, sp: Spec)
    requires Marks(slots, w, sp)
    ensures |SetOf(slots, w)| >= 3 && (Attr(SetOf(slots, w)[0]) / ATTR_SUBDIR % 2 == 1) == sp.isDir
    ensures Flags(SetOf(slots, w)[1]) == (if sp.isDir then 3 else 1) && NameHash(SetOf(slots, w)[1]) == sp.hash
  {
    BuiltKind(sp.isDir, sp.stamp, sp.start, sp.size, sp.name, sp.hash);
    hide BuiltSet, Attr, Flags, NameHash, SetHere;
    assert SetOf(slots, w)[1] == SetOf(slots, w)[1..][0] == sp.Set()[1];
  }

  lemma BearsMarks(slots: seq<Dentry>, w: nat, sp: Spec)
    requires Bears(slots, w, sp)
    ensures Marks(slots, w, sp)
  {
    hide Spec.Set, Attr;
  }

  // ----- unlink

  /** Only directory d differs, and its view has lost the entry at slot i. */
  ghost predicate Loses(s: Dirs, dirs: Dirs, d: nat, i: nat)
    requires d < |dirs| && i < |dirs[d]|
  {
    && |s| == |dirs| && s == dirs[d := s[d]] && |s[d]| == |dirs[d]| && Terminated(s[d])
    && View(s[d]) == View(dirs[d])[i := None] && (Tidy(dirs[d]) ==> Tidy(s[d]))
  }

  /** Clears the top type bit of every slot of a set that was read from slot i. */
  method BurySet(store: Store, d: nat, i: nat, s: seq<Dentry>) returns (ok: bool)
    requires store.Valid()
    requires d < |store.dirs| && SetHere(store.dirs[d], i) && s == SetOf(store.dirs[d], i) && Terminated(store.dirs[d])
    modifies store, store.vol`disk, store.vol`Data, store.vol`readFaults, store.vol`writeFaults, store.vol`writes
    ensures store.FromDevice()
    ensures store.Valid()
    ensures old(store.history) <= store.history && store.faults == old(store.faults) + (if ok then 0 else 1)
    ensures forall j :: |old(store.history)| <= j < |store.history| ==> Loses(store.history[j], old(store.dirs), d, i)
    ensures store.dirs == old(store.dirs) || Loses(store.dirs, old(store.dirs), d, i)
    ensures ok ==> Loses(store.dirs, old(store.dirs), d, i)
    ensures ok ==> store.dirs == old(store.dirs)[d := Splice(old(store.dirs)[d], i, Tombstones(s))]
    ensures ok ==> |store.history| > |old(store.history)|
  {
    hide Store.Valid, View, Splice, Loses;
    ghost var dirs, from := store.dirs, |store.history|;
    ghost var k;
    ok, k := store.PutSet(d, i, Tombstones(s));
    if k == 0 {
      SpliceNothing(dirs[d], i);
      assert Tombstones(s)[..0] == [] && dirs[d := dirs[d]] == dirs;
    } else {
      Buried(store.dirs, dirs, d, i, k);
    }
    assert ok ==> Tombstones(s)[..k] == Tombstones(s);
    forall j | from <= j < |store.history|
      ensures Loses(store.history[j], dirs, d, i)
    {
      Buried(store.history[j], dirs, d, i, j - from + 1);
    }
  }

  lemma Buried(s: Dirs, dirs: Dirs, d: nat, i: nat, k: nat)
    requires d < |dirs| && SetHere(dirs[d], i) && Terminated(dirs[d]) && 1 <= k <= Total(dirs[d][i])
    requires s == dirs[d := Splice(dirs[d], i, Tombstones(SetOf(dirs[d], i))[..k])]
    ensures Loses(s, dirs, d, i)
  {
    hide View, Splice;
    DeleteView(dirs[d], i, k);
  }

  /** The first phase of VfsExfatUnlink. */
  method Unlink(store: Store, d: nat, i: nat) returns (code: Code)
    requires store.Valid()
    requires d < |store.dirs| && Terminated(store.dirs[d])
    modifies store, store.vol`disk, store.vol`Data, store.vol`readFaults, store.vol`writeFaults, store.vol`writes
    ensures store.FromDevice()
    ensures store.Valid()
    ensures old(store.history) <= store.history && store.faults >= old(store.faults)
    ensures code == Ok || code == EIO
    ensures code == Ok ==> SetHere(old(store.dirs)[d], i) && Valid(SetOf(old(store.dirs)[d], i)) && Loses(store.dirs, old(store.dirs), d, i)
    ensures code == Ok ==> store.dirs == old(store.dirs)[d := Splice(old(store.dirs)[d], i, Tombstones(SetOf(old(store.dirs)[d], i)))]
    ensures code == EIO ==> || store.dirs == old(store.dirs)
                            || (i < |old(store.dirs)[d]| && Loses(store.dirs, old(store.dirs), d, i))
    ensures forall j :: |old(store.history)| <= j < |store.history| ==>
              i < |old(store.dirs)[d]| && Loses(store.history[j], old(store.dirs), d, i)
    ensures store.faults == old(store.faults) ==> (code == Ok <==> SetHere(old(store.dirs)[d], i) && Valid(SetOf(old(store.dirs)[d], i)))
    ensures old(LiveAt(store.dirs[d], i)) && store.faults == old(store.faults) ==> code == Ok
    ensures !SetHere(old(store.dirs)[d], i) || !Valid(SetOf(old(store.dirs)[d], i)) ==> code == EIO && store.dirs == old(store.dirs)
  {
    hide Store.Valid, View, Splice, Loses, Valid, Named;
    var s := store.GetSet(d, i);
    if s == None {
      return EIO;
    }
    var valid := Validate(s.value);
    if !valid {
      return EIO;
    }
    var ok := BurySet(store, d, i, s.value);
    return if ok then Ok else EIO;
  }

  // ----- exfat_sync_parent_dir_metadata

  /** exfat_inode_store_metadata: the three times, their fractions and zones, bytes 8 to 24. */
  function WithTimes(e: Dentry, times: seq<byte>): (r: Dentry)
    requires |times| == 17
  {
    Splice(e, 8, times)
  }

  /** The three times, their fractions and zones of a file entry. */
  function Times(e: Dentry): seq<byte> { e[8..25] }

  lemma TimesKeep(e: Dentry, times: seq<byte>)
    requires |times| == 17
    ensures Type(WithTimes(e, times)) == Type(e) && NumExt(WithTimes(e, times)) == NumExt(e)
    ensures Attr(WithTimes(e, times)) == Attr(e)
  {
    assert WithTimes(e, times)[4..6] == e[4..6];
  }

  /** The set with new times and its checksum computed anew. */
  function Refreshed(s: seq<Dentry>, times: seq<byte>): Dentry
    requires s != [] && |times| == 17
  {
    var cleared := WithCheck(WithTimes(s[0], times), 0);
    WithCheck(cleared, SetSum(Headed(s, cleared)))
  }

  function Headed(s: seq<Dentry>, head: Dentry): (r: seq<Dentry>)
    requires s != []
    ensures |r| == |s| && r[0] == head && r[1..] == s[1..]
  {
    s[0 := head]
  }

  lemma RefreshedValid(s: seq<Dentry>, times: seq<byte>)
    requires Valid(s) && |times| == 17
    ensures Valid(s[0 := Refreshed(s, times)])
    ensures Type(Refreshed(s, times)) == FILE && NumExt(Refreshed(s, times)) == NumExt(s[0])
  {
    hide SetSum, WithTimes, WithCheck, Check;
    TimesKeep(s[0], times);
    var timed := Headed(s, WithTimes(s[0], times));
    SumIgnoresCheck(timed, 0);
    var cleared := Headed(s, WithCheck(WithTimes(s[0], times), 0));
    SumIgnoresCheck(cleared, SetSum(cleared));
    SummedIsValid(cleared);
    assert cleared[0 := WithCheck(cleared[0], SetSum(cleared))] == s[0 := Refreshed(s, times)];
  }

  /** The new entry has the new times, and besides them and the checksum every byte it had. */
  lemma RefreshedBytes(s: seq<Dentry>, times: seq<byte>)
    requires s != [] && |times| == 17
    ensures var e := Refreshed(s, times);
            Times(e) == times && e[..2] == s[0][..2] && e[4..8] == s[0][4..8] && e[25..] == s[0][25..] && Attr(e) == Attr(s[0])
  {
    hide SetSum;
    var e, timed := Refreshed(s, times), WithTimes(s[0], times);
    assert e[0] == s[0][0] && e[1] == s[0][1] && e[4..] == timed[4..];
    assert e[..2] == [e[0], e[1]] && s[0][..2] == [e[0], e[1]];
    assert e[4..6] == timed[4..][..2] == s[0][4..6];
    assert e[8..25] == timed[4..][4..21] == times && e[4..8] == timed[4..][..4] && e[25..] == timed[4..][21..];
  }

  /** Directory d differs in one slot: the set at slot i is valid, and its file entry has new times and the checksum
      that goes with them. */
  ghost predicate Redated(s: Dirs, dirs: Dirs, d: nat, i: nat, times: seq<byte>)
    requires d < |dirs| && |times| == 17
  {
    SetHere(dirs[d], i) && Valid(SetOf(dirs[d], i)) && s == dirs[d := Put(dirs[d], i, Refreshed(SetOf(dirs[d], i), times))]
  }

  ghost predicate KeepsView(b: seq<Dentry>, a: seq<Dentry>) {
    |b| == |a| && View(b) == View(a) && (Terminated(a) ==> Terminated(b)) && (Tidy(a) ==> Tidy(b))
  }

  /** All directories show what they showed. */
  ghost predicate SameViews(s: Dirs, dirs: Dirs) {
    && |s| == |dirs|
    && forall d :: 0 <= d < |dirs| ==> KeepsView(s[d], dirs[d])
  }

  /** A directory's own set, at slot i of its parent d, gets new times.  No entry changes, at any stage. */
  method SyncMetadata(store: Store, d: nat, i: nat, times: seq<byte>) returns (code: Code)
    requires store.Valid()
    requires d < |store.dirs| && Terminated(store.dirs[d]) && |times| == 17
    modifies store, store.vol`disk, store.vol`Data, store.vol`readFaults, store.vol`writeFaults, store.vol`writes
    ensures store.FromDevice()
    ensures store.Valid()
    ensures old(store.history) <= store.history && store.faults >= old(store.faults)
    ensures SameViews(store.dirs, old(store.dirs)) && store.dirs == old(store.dirs)[d := store.dirs[d]]
    ensures forall j :: |old(store.history)| <= j < |store.history| ==>
              SameViews(store.history[j], old(store.dirs)) && Redated(store.history[j], old(store.dirs), d, i, times)
    ensures store.dirs == old(store.dirs) || Redated(store.dirs, old(store.dirs), d, i, times)
    ensures code == Ok ==> Redated(store.dirs, old(store.dirs), d, i, times)
    ensures code == Ok ==> SetHere(store.dirs[d], i) && Valid(SetOf(store.dirs[d], i))
    ensures store.faults == old(store.faults) ==>
              (code == Ok <==> SetHere(old(store.dirs)[d], i) && Valid(SetOf(old(store.dirs)[d], i))) && (code != Ok ==> store.dirs == old(store.dirs))
  {
    hide Store.Valid, View, Splice, Valid, Named, SameViews, Refreshed, Redated;
    ghost var dirs, from := store.dirs, |store.history|;
    NothingChanged(dirs);
    var s := store.GetSet(d, i);
    if s == None {
      return EIO;
    }
    var valid := Validate(s.value);
    if !valid {
      return EIO;
    }
    RefreshedValid(s.value, times);
    var head := Refreshed(s.value, times);
    var ok, k := store.PutSet(d, i, Headed(s.value, head));
    if k == 0 {
      SpliceNothing(dirs[d], i);
      assert Headed(s.value, head)[..0] == [] && dirs[d := dirs[d]] == dirs;
    } else {
      StageKeeps(store.dirs, dirs, d, i, times, k);
    }
    forall j | from <= j < |store.history|
      ensures SameViews(store.history[j], dirs) && Redated(store.history[j], dirs, d, i, times)
    {
      StageKeeps(store.history[j], dirs, d, i, times, j - from + 1);
    }
    return if ok then Ok else EIO;
  }

  lemma NothingChanged(dirs: Dirs)
    ensures SameViews(dirs, dirs)
  {
  }

  lemma StageKeeps(s: Dirs, dirs: Dirs, d: nat, i: nat, times: seq<byte>, k: nat)
    requires d < |dirs| && SetHere(dirs[d], i) && Terminated(dirs[d]) && 1 <= k <= Total(dirs[d][i]) && |times| == 17
    requires Valid(SetOf(dirs[d], i))
    requires s == dirs[d := Splice(dirs[d], i, Headed(SetOf(dirs[d], i), Refreshed(SetOf(dirs[d], i), times))[..k])]
    ensures SameViews(s, dirs) && Redated(s, dirs, d, i, times) && SetHere(s[d], i) && Valid(SetOf(s[d], i))
  {
    hide View, Splice, Valid, Refreshed;
    var head := Refreshed(SetOf(dirs[d], i), times);
    RefreshedValid(SetOf(dirs[d], i), times);
    RefreshView(dirs[d], i, head, k);
  }
}
