/** The directories of a volume behind exfat_get_dentry and exfat_set_dentry: reading and writing slots and
    sets of them, and the scan of a lookup.

    Every slot access may fail.  Each successful slot write appends the state it leaves to a ghost history,
    so that a contract can speak about every prefix of the writes. */
module DirStore {
  import opened Bytes
  import opened Checksum
  import opened Dentries
  import opened Directories
  import opened Names
  import opened DirVolume
  import V = Volumes
  import A = Allocator

  datatype Code = Ok | ENOENT | EIO | ENOSPC | EINVAL | ENOTEMPTY | ENOTDIR | EISDIR | ENAMETOOLONG

  /** The states a set written slot by slot goes through, up to its k-th slot. */
  function Stages(dirs: Dirs, d: nat, i: nat, s: seq<Dentry>, k: nat): (r: seq<Dirs>)
    requires d < |dirs| && i + |s| <= |dirs[d]| && k <= |s|
    ensures |r| == k
    ensures forall j :: 0 <= j < k ==> r[j] == dirs[d := Splice(dirs[d], i, s[..j + 1])]
  {
    seq(k, j requires 0 <= j < k => dirs[d := Splice(dirs[d], i, s[..j + 1])])
  }

  /** The directories of a mounted volume.  `dirs` is what their clusters hold. */
  class Store {
    const vol: V.Volume
    const chains: seq<A.Chain>              // the directories' descriptors
    ghost const chs: seq<seq<nat>>        // and the clusters they describe
    ghost const rest: seq<seq<byte>>      // all other clusters, which stay as they are
    ghost var dirs: Dirs
    var faults: nat
    ghost var history: seq<Dirs>

    constructor (vol: V.Volume, chains: seq<A.Chain>, ghost chs: seq<seq<nat>>)
      requires vol.Valid() && DirsHere(vol, chains, chs)
      ensures Valid() && faults == 0 && history == [] && this.vol == vol && this.chains == chains && this.chs == chs
      ensures Held(vol.UserData(), chs) && dirs == SlotsOf(vol.UserData(), chs) && rest == vol.UserData()
    {
      DirsSized(vol, chains, chs);
      this.vol, this.chains, this.chs, this.rest := vol, chains, chs, vol.UserData();
      dirs, faults, history := SlotsOf(vol.UserData(), chs), 0, [];
    }

    /** The volume holds the directories in disjoint chains, and nothing outside them has changed. */
    ghost predicate Valid()
      reads this`dirs, vol`disk, vol`amap, vol`Fat, vol`Data, vol`Bits
    {
      && vol.Valid() && DirsHere(vol, chains, chs)
      && Held(vol.UserData(), chs) && dirs == SlotsOf(vol.UserData(), chs) && Elsewhere(chs, rest, vol.UserData())
    }

    /** The first cluster of each directory. */
    function Starts(): (r: seq<nat>)
      ensures |r| == |chains|
    {
      seq(|chains|, d requires 0 <= d < |chains| => chains[d].dir)
    }

    /** Every fault counted here is one of the device's. */
    twostate predicate FromDevice()
      reads this`faults, vol`readFaults, vol`writeFaults
    {
      && vol.readFaults >= old(vol.readFaults) && vol.writeFaults >= old(vol.writeFaults)
      && faults - old(faults) <= vol.readFaults + vol.writeFaults - old(vol.readFaults + vol.writeFaults)
    }

    /** How many directories there are, and how many slots a directory has. */
    function Number(): (n: nat)
      requires Valid()
      reads this`dirs, vol`disk, vol`amap, vol`Fat, vol`Data, vol`Bits
      ensures n == |dirs|
    {
      |chains|
    }

    function Count(d: nat): (n: nat)
      requires Valid() && d < |dirs|
      reads this`dirs, vol`disk, vol`amap, vol`Fat, vol`Data, vol`Bits
      ensures n == |dirs[d]|
    {
      SlotsHere(vol, chains, chs, d);
      SlotCount(chains[d], vol.lay.clusterSize)
    }

    /** exfat_get_dentry; a slot past the end of the directory cannot be read. */
    method Get(d: nat, i: nat) returns (r: Option<Dentry>)
      requires Valid() && d < |dirs|
      modifies this`faults, vol`readFaults
      ensures FromDevice()
      ensures i >= |dirs[d]| ==> r == None && faults == old(faults)
      ensures i < |dirs[d]| ==> r == (if faults == old(faults) then Some(dirs[d][i]) else None)
      ensures faults >= old(faults)
    {
      if i >= Count(d) {
        return None;
      }
      var ok, x := GetSlot(vol, chains, d, i, chs);
      if ok {
        var e: Dentry := x;
        return Some(e);
      }
      faults := faults + 1;
      r := None;
    }

    /** exfat_set_dentry. */
    method Set(d: nat, i: nat, e: Dentry) returns (ok: bool)
      requires Valid() && d < |dirs| && i < |dirs[d]|
      modifies this`dirs, this`faults, this`history, vol`disk, vol`Data, vol`readFaults, vol`writeFaults, vol`writes
      ensures FromDevice()
      ensures Valid() && dirs == if ok then old(dirs)[d := Put(old(dirs)[d], i, e)] else old(dirs)
      ensures history == if ok then old(history) + [dirs] else old(history)
      ensures faults == old(faults) + (if ok then 0 else 1)
    {
      hide V.Volume.Valid, V.Volume.UserData, SlotsOf, Put, DirsHere, Held, Elsewhere;
      ghost var data := vol.UserData();
      assert Number() == |chains|;
      ok := SetSlot(vol, chains, d, i, e, chs);
      ElsewhereToo(chs, rest, data, vol.UserData());
      if ok {
        dirs := dirs[d := Put(dirs[d], i, e)];
        history := history + [dirs];
      } else {
        faults := faults + 1;
      }
    }

    /** exfat_get_dentry_set. */
    method GetSet(d: nat, i: nat) returns (r: Option<seq<Dentry>>)
      requires Valid() && d < |dirs|
      modifies this`faults, vol`readFaults
      ensures FromDevice()
      ensures faults >= old(faults)
      ensures r.Some? ==> SetHere(dirs[d], i) && r.value == SetOf(dirs[d], i)
      ensures r.Some? ==> faults == old(faults)
      ensures faults == old(faults) && SetHere(dirs[d], i) ==> r.Some?
    {
      hide Valid;
      var first := Get(d, i);
      if first == None || Type(first.value) != FILE {
        return None;
      }
      var total := 1 + NumExt(first.value) as int;
      if total > SET_MAX {
        return None;
      }
      var s := [first.value];
      for k := 1 to total
        invariant FromDevice()
        invariant faults == old(faults) && |s| == k && i + k <= |dirs[d]| && s == dirs[d][i..i + k]
        invariant forall j :: i < j < i + k ==> Secondary(dirs[d][j])
      {
        var one := Get(d, i + k);
        if one == None {
          return None;
        }
        if Type(one.value) != STREAM && Type(one.value) != NAME {
          return None;
        }
        s := s + [one.value];
      }
      return Some(s);
    }

    /** exfat_set_dentry_set: nothing is undone when a write fails. */
    method PutSet(d: nat, i: nat, s: seq<Dentry>) returns (ok: bool, ghost k: nat)
      requires Valid() && d < |dirs| && i + |s| <= |dirs[d]|
      modifies this`dirs, this`faults, this`history, vol`disk, vol`Data, vol`readFaults, vol`writeFaults, vol`writes
      ensures FromDevice()
      ensures Valid()
      ensures k <= |s| && (ok <==> k == |s|) && faults == old(faults) + (if ok then 0 else 1)
      ensures dirs == old(dirs)[d := Splice(old(dirs)[d], i, s[..k])]
      ensures history == old(history) + Stages(old(dirs), d, i, s, k)
    {
      hide Valid;
      ghost var a := dirs[d];
      k := 0;
      ok := true;
      assert Splice(a, i, s[..0]) == a;
      StagesNone(dirs, d, i, s, history);
      for j := 0 to |s|
        invariant FromDevice()
        invariant Valid() && k == j && ok && faults == old(faults) && |dirs| == |old(dirs)| && |dirs[d]| == |a|
        invariant dirs == old(dirs)[d := Splice(a, i, s[..j])]
        invariant history == old(history) + Stages(old(dirs), d, i, s, j)
      {
        ok := Set(d, i + j, s[j]);
        if !ok {
          return;
        }
        SpliceNext(a, i, s, j);
        StagesNext(old(dirs), d, i, s, j, old(history));
        k := k + 1;
      }
      assert s[..|s|] == s;
    }
  }

  lemma StagesNone(dirs: Dirs, d: nat, i: nat, s: seq<Dentry>, history: seq<Dirs>)
    requires d < |dirs| && i + |s| <= |dirs[d]|
    ensures history + Stages(dirs, d, i, s, 0) == history
  {
  }

  lemma SpliceNext(a: seq<Dentry>, i: nat, s: seq<Dentry>, j: nat)
    requires i + |s| <= |a| && j < |s|
    ensures Put(Splice(a, i, s[..j]), i + j, s[j]) == Splice(a, i, s[..j + 1])
  {
  }

  lemma StagesNext(dirs: Dirs, d: nat, i: nat, s: seq<Dentry>, j: nat, history: seq<Dirs>)
    requires d < |dirs| && i + |s| <= |dirs[d]| && j < |s|
    ensures history + Stages(dirs, d, i, s, j) + [dirs[d := Splice(dirs[d], i, s[..j + 1])]]
         == history + Stages(dirs, d, i, s, j + 1)
  {
    hide Splice;
    assert Stages(dirs, d, i, s, j) + [dirs[d := Splice(dirs[d], i, s[..j + 1])]] == Stages(dirs, d, i, s, j + 1);
  }

  // ----- lookup

  /** The entry at slot i answers to the folded name. */
  predicate Answers(table: Upcase, slots: seq<Dentry>, i: nat, key: seq<u16>) {
    i < |slots| && EntryAt(slots, i).Some? && Fold(table, EntryAt(slots, i).value.name) == key
  }

  /** A file entry whose set is malformed or fails its checksum. */
  predicate Broken(slots: seq<Dentry>, i: nat) {
    i < |slots| && Type(slots[i]) == FILE && (!SetHere(slots, i) || !Valid(SetOf(slots, i)))
  }

  datatype Found = Hit(i: nat) | Miss(code: Code)

  datatype Probe = End | Match | Skip(n: nat, bad: bool)

  /** One round of the lookup scan: the set at slot idx is skipped whole, an unreadable slot alone. */
  method ProbeSlot(store: Store, table: Upcase, d: nat, name: seq<u16>, idx: nat) returns (r: Probe)
    requires store.Valid()
    requires d < |store.dirs|
    modifies store`faults, store.vol`readFaults
    ensures store.FromDevice()
    ensures store.faults >= old(store.faults)
    ensures r.End? ==> store.faults == old(store.faults) && idx < |store.dirs[d]| && Type(store.dirs[d][idx]) == UNUSED
    ensures r.Match? ==> store.faults == old(store.faults) && idx < |store.dirs[d]| && Answers(table, store.dirs[d], idx, Fold(table, name))
    ensures r.Skip? ==> r.n >= 1 && (store.faults == old(store.faults) ==>
              forall j :: idx <= j < idx + r.n && j < |store.dirs[d]| ==>
                !Answers(table, store.dirs[d], j, Fold(table, name)) && Type(store.dirs[d][j]) != UNUSED)
    ensures r.Skip? && !r.bad ==> store.faults == old(store.faults) && idx + r.n <= |store.dirs[d]|
                                  && forall j :: idx <= j < idx + r.n ==> !Broken(store.dirs[d], j)
    ensures r.Skip? && r.bad ==> store.faults > old(store.faults) || Broken(store.dirs[d], idx) || idx >= |store.dirs[d]|
  {
    hide Store.Valid, Fold, Valid, Named, NameOf;
    var first := store.Get(d, idx);
    if first == None {
      return Skip(1, true);
    }
    if Type(first.value) == UNUSED {
      return End;
    }
    if Type(first.value) != FILE {
      return Skip(1, false);
    }
    var s := store.GetSet(d, idx);
    if s == None {
      return Skip(1, true);
    }
    var n := |s.value|;
    assert forall j :: idx < j < idx + n ==> Secondary(store.dirs[d][j]);
    var valid := Validate(s.value);
    if !valid {
      return Skip(n, true);
    }
    var found := ExtractName(s.value);
    if found == None {
      return Skip(n, false);
    }
    var order := Compare(table, name, found.value);
    return if order == 0 then Match else Skip(n, false);
  }

  /** The scan of VfsExfatLookup, up to the first unused slot or the bound on the directory's slots. */
  method Lookup(store: Store, table: Upcase, d: nat, name: seq<u16>, bound: nat) returns (r: Found)
    requires store.Valid()
    requires d < |store.dirs| && Terminated(store.dirs[d])
    modifies store`faults, store.vol`readFaults
    ensures store.FromDevice()
    ensures store.faults >= old(store.faults)
    ensures r.Hit? ==> r.i < bound && Answers(table, store.dirs[d], r.i, Fold(table, name))
    ensures r.Hit? && store.faults == old(store.faults) ==>
              forall j :: 0 <= j < r.i ==> !Answers(table, store.dirs[d], j, Fold(table, name))
    ensures r.Miss? ==> r.code == ENOENT || r.code == EIO
    ensures r.Miss? && store.faults == old(store.faults) ==>
              forall j :: 0 <= j < |store.dirs[d]| && j < bound ==> !Answers(table, store.dirs[d], j, Fold(table, name))
    ensures r == Miss(ENOENT) ==>
              store.faults == old(store.faults) && forall j :: 0 <= j < |store.dirs[d]| && j < bound ==> !Broken(store.dirs[d], j)
    ensures r == Miss(EIO) ==> || store.faults > old(store.faults) || (exists j :: 0 <= j < |store.dirs[d]| && Broken(store.dirs[d], j))
                               || (bound > |store.dirs[d]| && forall j :: 0 <= j < |store.dirs[d]| ==> Type(store.dirs[d][j]) != UNUSED)
  {
    hide Store.Valid, Fold, Answers, Broken;
    ghost var slots, key := store.dirs[d], Fold(table, name);
    var idx: nat, ioErr := 0, false;
    while idx < bound
      invariant store.FromDevice()
      invariant store.dirs[d] == slots && store.faults >= old(store.faults)
      invariant store.faults == old(store.faults) ==>
                  forall j :: 0 <= j < idx && j < |slots| ==> !Answers(table, slots, j, key) && Type(slots[j]) != UNUSED
      invariant !ioErr ==> store.faults == old(store.faults) && forall j :: 0 <= j < idx && j < |slots| ==> !Broken(slots, j)
      invariant ioErr ==> store.faults > old(store.faults) || (exists j :: 0 <= j < |slots| && Broken(slots, j)) || (idx > |slots| && bound > |slots|)
    {
      var p := ProbeSlot(store, table, d, name, idx);
      match p {
        case End =>
          Unanswered(table, slots, idx, key);
          break;
        case Match =>
          return Hit(idx);
        case Skip(n, bad) =>
          InBounds(slots, idx);
          ioErr := ioErr || bad;
          idx := idx + n;
      }
    }
    return Miss(if ioErr then EIO else ENOENT);
  }

  lemma InBounds(slots: seq<Dentry>, i: nat)
    ensures Broken(slots, i) ==> i < |slots|
  {
  }

  /** Behind an unused slot nothing answers. */
  lemma Unanswered(table: Upcase, slots: seq<Dentry>, i: nat, key: seq<u16>)
    requires Terminated(slots) && i < |slots| && Type(slots[i]) == UNUSED
    ensures forall j :: i <= j < |slots| ==> !Answers(table, slots, j, key) && !Broken(slots, j)
  {
  }

  /** exfat_validate_dentry_set. */
  method Validate(s: seq<Dentry>) returns (ok: bool)
    ensures ok <==> Valid(s)
  {
    if |s| < 1 || |s| > SET_MAX || Type(s[0]) != FILE {
      return false;
    }
    var sum := Calc16(Flat(s), 0, DirEntry);
    return sum == Check(s[0]);
  }
}
