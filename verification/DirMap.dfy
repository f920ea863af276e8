/** A directory as a finite map from case-folded names to first cluster and size, and its slot array as a
    refinement of that map. */
module DirMap {
  import opened Bytes
  import opened Dentries
  import opened Directories
  import opened Names
  import opened DirStore
  import opened DirChange

  datatype Place = Place(start: u32, size: u64)

  function Key(table: Upcase, e: Entry): seq<u16> { Fold(table, e.name) }

  function PlaceOf(e: Entry): Place { Place(e.start, e.size) }

  function MapOf(table: Upcase, v: seq<Option<Entry>>): map<seq<u16>, Place> {
    if v == [] then map[]
    else
      var m, last := MapOf(table, v[..|v| - 1]), v[|v| - 1];
      if last == None then m else m[Key(table, last.value) := PlaceOf(last.value)]
  }

  /** No two entries have the same folded name. */
  predicate Unique(table: Upcase, v: seq<Option<Entry>>) {
    forall i, j :: 0 <= i < j < |v| && v[i].Some? && v[j].Some? ==> Key(table, v[i].value) != Key(table, v[j].value)
  }

  predicate At(table: Upcase, v: seq<Option<Entry>>, i: nat, key: seq<u16>) {
    i < |v| && v[i].Some? && Key(table, v[i].value) == key
  }

  /** The map has a key exactly when an entry carries it. */
  lemma {:induction false} MapHas(table: Upcase, v: seq<Option<Entry>>, key: seq<u16>)
    ensures key in MapOf(table, v) <==> exists i: nat :: At(table, v, i, key)
  {
    hide Key;
    if v != [] {
      var n := |v| - 1;
      MapHas(table, v[..n], key);
      forall i: nat | At(table, v[..n], i, key)
        ensures At(table, v, i, key)
      {
      }
      if i: nat :| At(table, v, i, key) && i < n {
        assert At(table, v[..n], i, key);
      }
      if v[n].Some? && Key(table, v[n].value) == key {
        assert At(table, v, n, key);
      }
    }
  }

  /** With unique names, the map says where each entry is. */
  lemma {:induction false} MapSays(table: Upcase, v: seq<Option<Entry>>, i: nat)
    requires Unique(table, v) && i < |v| && v[i].Some?
    ensures Key(table, v[i].value) in MapOf(table, v) && MapOf(table, v)[Key(table, v[i].value)] == PlaceOf(v[i].value)
  {
    hide Key;
    var n := |v| - 1;
    if i < n {
      MapSays(table, v[..n], i);
      assert v[n].Some? ==> Key(table, v[i].value) != Key(table, v[n].value);
    }
  }

  /** Adding an entry under a new name adds exactly its key. */
  lemma {:induction false} MapAdd(table: Upcase, v: seq<Option<Entry>>, w: nat, e: Entry)
    requires w < |v| && v[w] == None && forall i: nat :: !At(table, v, i, Key(table, e))
    ensures MapOf(table, v[w := Some(e)]) == MapOf(table, v)[Key(table, e) := PlaceOf(e)]
  {
    hide Key;
    var n, v' := |v| - 1, v[w := Some(e)];
    if w == n {
      assert v'[..n] == v[..n];
    } else {
      assert !At(table, v, n, Key(table, e));
      forall i: nat
        ensures !At(table, v[..n], i, Key(table, e))
      {
        assert !At(table, v, i, Key(table, e));
      }
      MapAdd(table, v[..n], w, e);
      assert v'[..n] == v[..n][w := Some(e)];
    }
  }

  /** Removing an entry removes exactly its key. */
  lemma {:induction false} MapRemove(table: Upcase, v: seq<Option<Entry>>, i: nat)
    requires Unique(table, v) && i < |v| && v[i].Some?
    ensures MapOf(table, v[i := None]) == MapOf(table, v) - {Key(table, v[i].value)}
  {
    hide Key;
    var n, v', key := |v| - 1, v[i := None], Key(table, v[i].value);
    if i == n {
      assert v'[..n] == v[..n];
      MapHas(table, v[..n], key);
      forall k: nat
        ensures !At(table, v[..n], k, key)
      {
      }
      assert MapOf(table, v[..n]) - {key} == MapOf(table, v[..n]);
    } else {
      MapRemove(table, v[..n], i);
      assert v'[..n] == v[..n][i := None];
    }
  }

  lemma UniqueAdd(table: Upcase, v: seq<Option<Entry>>, w: nat, e: Entry)
    requires Unique(table, v) && w < |v| && forall i: nat :: !At(table, v, i, Key(table, e))
    ensures Unique(table, v[w := Some(e)])
  {
    hide Key;
    var v' := v[w := Some(e)];
    forall i, j | 0 <= i < j < |v'| && v'[i].Some? && v'[j].Some?
      ensures Key(table, v'[i].value) != Key(table, v'[j].value)
    {
      assert !At(table, v, i, Key(table, e)) && !At(table, v, j, Key(table, e));
    }
  }

  // ----- the directory as that map

  ghost function DirMapOf(table: Upcase, slots: seq<Dentry>): map<seq<u16>, Place> { MapOf(table, View(slots)) }

  /** Terminated, no two live entries answer to the same name, and every name reads the same both ways. */
  ghost predicate Sound(table: Upcase, slots: seq<Dentry>) {
    Terminated(slots) && Unique(table, View(slots)) && Tidy(slots)
  }

  lemma AnswersAt(table: Upcase, slots: seq<Dentry>, i: nat, key: seq<u16>)
    ensures Answers(table, slots, i, key) <==> At(table, View(slots), i, key)
  {
    hide EntryAt, Fold;
  }

  /** Some file entry opens a set that cannot be read or fails its checksum. */
  ghost predicate AnyBroken(slots: seq<Dentry>) {
    exists j: nat :: Broken(slots, j)
  }

  /** What a scan that finds no entry says: nothing is there, unless there is a set that it cannot read.  Past the
      directory's slots it may meet such a set, too. */
  ghost predicate Unfound(slots: seq<Dentry>, bound: nat, code: Code) {
    if AnyBroken(slots) then code == EIO else code == ENOENT || (code == EIO && bound > |slots|)
  }

  /** What a lookup returns is what the map says. */
  method LookupMap(store: Store, table: Upcase, d: nat, name: seq<u16>, bound: nat) returns (r: Found)
    requires store.Valid()
    requires d < |store.dirs| && |store.dirs[d]| <= bound && Sound(table, store.dirs[d])
    modifies store`faults, store.vol`readFaults
    ensures store.FromDevice()
    ensures store.faults >= old(store.faults)
    ensures r.Hit? ==> At(table, View(store.dirs[d]), r.i, Fold(table, name))
                       && Fold(table, name) in DirMapOf(table, store.dirs[d])
                       && DirMapOf(table, store.dirs[d])[Fold(table, name)] == PlaceOf(View(store.dirs[d])[r.i].value)
    ensures r.Miss? && store.faults == old(store.faults) ==> Fold(table, name) !in DirMapOf(table, store.dirs[d])
    ensures r == Miss(ENOENT) ==> store.faults == old(store.faults)
    ensures r.Miss? ==> r.code == ENOENT || r.code == EIO
    ensures r == Miss(ENOENT) ==> !AnyBroken(store.dirs[d])
    ensures r == Miss(EIO) ==> store.faults > old(store.faults) || AnyBroken(store.dirs[d]) || bound > |store.dirs[d]|
    ensures r.Miss? && store.faults == old(store.faults) ==> Unfound(store.dirs[d], bound, r.code)
  {
    hide Store.Valid, MapOf, View, Fold, Answers, Broken;
    r := Lookup(store, table, d, name, bound);
    ghost var slots, key := store.dirs[d], Fold(table, name);
    ghost var v := View(slots);
    BrokenInside(slots);
    if r.Hit? {
      AnswersAt(table, slots, r.i, key);
      MapSays(table, v, r.i);
    } else if store.faults == old(store.faults) {
      MapHas(table, v, key);
      forall i: nat
        ensures !At(table, v, i, key)
      {
        if i < |v| {
          AnswersAt(table, slots, i, key);
        }
      }
    }
  }

  lemma BrokenInside(slots: seq<Dentry>)
    ensures AnyBroken(slots) <==> exists j :: 0 <= j < |slots| && Broken(slots, j)
  {
  }

  /** A state reached while creating an absent name: the map is the old one or has gained exactly that key. */
  lemma CreateMap(table: Upcase, s: Dirs, dirs: Dirs, d: nat, w: nat, e: Entry)
    requires d < |dirs| && w < |dirs[d]| && Sound(table, dirs[d]) && Gains(s, dirs, d, w, e)
    requires Key(table, e) !in DirMapOf(table, dirs[d]) && 0 !in e.name
    ensures |s| == |dirs| && Sound(table, s[d])
    ensures View(s[d]) == View(dirs[d]) ==> DirMapOf(table, s[d]) == DirMapOf(table, dirs[d])
    ensures View(s[d]) != View(dirs[d]) ==> DirMapOf(table, s[d]) == DirMapOf(table, dirs[d])[Key(table, e) := PlaceOf(e)]
  {
    hide MapOf, View, Key, Tidy;
    var v := View(dirs[d]);
    MapHas(table, v, Key(table, e));
    UniqueAdd(table, v, w, e);
    MapAdd(table, v, w, e);
  }

  /** A state reached while unlinking: the map has lost exactly the entry's key. */
  lemma UnlinkMap(table: Upcase, s: Dirs, dirs: Dirs, d: nat, i: nat)
    requires d < |dirs| && i < |dirs[d]| && Sound(table, dirs[d]) && Loses(s, dirs, d, i) && View(dirs[d])[i].Some?
    ensures Sound(table, s[d]) && DirMapOf(table, s[d]) == DirMapOf(table, dirs[d]) - {Key(table, View(dirs[d])[i].value)}
  {
    hide MapOf, View, Key, Tidy;
    MapRemove(table, View(dirs[d]), i);
  }

  /** Losing an entry, or none, leaves a directory sound. */
  lemma LossIsSound(table: Upcase, s: Dirs, dirs: Dirs, d: nat, i: nat)
    requires d < |dirs| && i < |dirs[d]| && Sound(table, dirs[d]) && Loses(s, dirs, d, i)
    ensures |s| == |dirs| && Sound(table, s[d])
  {
    hide View, Key, Tidy;
  }

  // ----- sessions on one directory

  /** Names are C strings, so that they hold no zero unit. */
  datatype Op =
    | Find(name: seq<u16>)
    | Create(name: seq<u16>, isDir: bool, start: u32, size: u64, stamp: seq<byte>)
    | Remove(name: seq<u16>)

  /** What an operation with result `code` may make of the map.  A failed write may come before or after the
      one that makes a new set complete or an old one deleted; nothing else can have happened. */
  predicate Steps(table: Upcase, m: map<seq<u16>, Place>, m': map<seq<u16>, Place>, op: Op, code: Code) {
    var key := Fold(table, op.name);
    match op
    case Find(_) => m' == m && (code == Ok ==> key in m) && (code == ENOENT ==> key !in m)
    case Create(_, _, start, size, _) =>
      if code == Ok then key !in m && m' == m[key := Place(start, size)]
      else m' == m || (code == EIO && key !in m && m' == m[key := Place(start, size)])
    case Remove(_) =>
      if code == Ok then key in m && m' == m - {key}
      else (m' == m || (code == EIO && key in m && m' == m - {key})) && (code == ENOENT ==> key !in m)
  }

  /** Each result of an operation has its reason in the directory as it was; a failed access may stand for any of
      them. */
  ghost predicate Justified(table: Upcase, slots: seq<Dentry>, bound: nat, op: Op, code: Code, faulted: bool) {
    || (faulted && code == EIO)
    || (if op.Create? then
          if Fold(table, op.name) in DirMapOf(table, slots) then code == EINVAL
          else if code == EIO then Unfound(slots, bound, code)
          else !AnyBroken(slots) && code == Creation(slots, op.name)
        else if Fold(table, op.name) in DirMapOf(table, slots) then code == Ok
        else Unfound(slots, bound, code))
  }

  /** What becomes of a new name in a directory whose sets can all be read. */
  ghost function Creation(slots: seq<Dentry>, name: seq<u16>): Code {
    if |name| == 0 || |name| > MAX_NAME || slots == [] then EINVAL
    else if forall v: nat :: !Window(slots, v, NumEntries(|name|)) then ENOSPC
    else Ok
  }

  /** The set under the new name is the one the operation asks for. */
  ghost predicate Entered(table: Upcase, slots: seq<Dentry>, op: Op)
    requires op.Create?
  {
    exists w: nat :: At(table, View(slots), w, Fold(table, op.name)) && Bears(slots, w, SpecOf(op))
  }

  function SpecOf(op: Op): Spec
    requires op.Create?
  {
    Spec(op.isDir, op.stamp, op.start, op.size, op.name, HashOf(op.name))
  }

  lemma EnteredAt(table: Upcase, slots: seq<Dentry>, op: Op, w: nat)
    requires op.Create? && w < |slots| && View(slots)[w] == Some(Entry(op.name, op.start, op.size)) && Bears(slots, w, SpecOf(op))
    ensures Entered(table, slots, op)
  {
    hide View, Fold, Bears;
    assert At(table, View(slots), w, Fold(table, op.name));
  }

  lemma JustifiedFound(table: Upcase, slots: seq<Dentry>, bound: nat, op: Op, code: Code, faulted: bool)
    requires Fold(table, op.name) in DirMapOf(table, slots) && code == if op.Create? then EINVAL else Ok
    ensures Justified(table, slots, bound, op, code, faulted)
  {
    hide MapOf, View, Fold, AnyBroken;
  }

  lemma JustifiedUnfound(table: Upcase, slots: seq<Dentry>, bound: nat, op: Op, code: Code, faulted: bool)
    requires Fold(table, op.name) !in DirMapOf(table, slots) && Unfound(slots, bound, code) && (op.Create? ==> code == EIO)
    ensures Justified(table, slots, bound, op, code, faulted)
  {
    hide MapOf, View, Fold, AnyBroken;
  }

  lemma JustifiedNew(table: Upcase, slots: seq<Dentry>, bound: nat, op: Op, code: Code, faulted: bool)
    requires Fold(table, op.name) !in DirMapOf(table, slots) && !AnyBroken(slots) && op.Create? && code == Creation(slots, op.name)
    ensures Justified(table, slots, bound, op, code, faulted)
  {
    hide MapOf, View, Fold, AnyBroken, Window, NumEntries;
  }

  lemma JustifiedFault(table: Upcase, slots: seq<Dentry>, bound: nat, op: Op)
    ensures Justified(table, slots, bound, op, EIO, true)
  {
    hide MapOf, View, Fold, AnyBroken;
  }

  /** A creation: the name is looked up first, and the entry added only under a free name. */
  method CreateIn(store: Store, table: Upcase, d: nat, bound: nat, op: Op) returns (code: Code)
    requires store.Valid()
    requires d < |store.dirs| && |store.dirs[d]| <= bound && Sound(table, store.dirs[d]) && op.Create? && |op.stamp| == 12 && 0 !in op.name
    modifies store, store.vol`disk, store.vol`Data, store.vol`readFaults, store.vol`writeFaults, store.vol`writes
    ensures store.FromDevice()
    ensures store.Valid() && store.faults >= old(store.faults)
    ensures |store.dirs| == |old(store.dirs)| && |store.dirs[d]| == |old(store.dirs)[d]| && Sound(table, store.dirs[d])
    ensures Steps(table, DirMapOf(table, old(store.dirs)[d]), DirMapOf(table, store.dirs[d]), op, code)
    ensures forall c :: 0 <= c < |store.dirs| && c != d ==> store.dirs[c] == old(store.dirs)[c]
    ensures Justified(table, old(store.dirs)[d], bound, op, code, store.faults > old(store.faults))
    ensures code == Ok ==> Entered(table, store.dirs[d], op)
  {
    hide Store.Valid, MapOf, View, Fold, Unique, Tidy, AnyBroken, Terminated, Gains, NumEntries, Justified, Creation, Unfound;
    hide Entered, Bears, HashOf;
    ghost var dirs := store.dirs;
    var r := LookupMap(store, table, d, op.name, bound);
    if r != Miss(ENOENT) {
      if r.Hit? {
        JustifiedFound(table, dirs[d], bound, op, EINVAL, store.faults > old(store.faults));
      } else if store.faults == old(store.faults) {
        JustifiedUnfound(table, dirs[d], bound, op, EIO, false);
      } else {
        JustifiedFault(table, dirs[d], bound, op);
      }
      return if r.Hit? then EINVAL else r.code;
    }
    ghost var e := Entry(op.name, op.start, op.size);
    var w;
    code, w := AddEntry(store, d, store.Count(d), op.name, op.isDir, op.start, op.size, op.stamp);
    if code == EIO {
      JustifiedFault(table, dirs[d], bound, op);
    } else {
      CreationIs(dirs[d], op.name, code, w);
      JustifiedNew(table, dirs[d], bound, op, code, store.faults > old(store.faults));
    }
    if code == Ok {
      EnteredAt(table, store.dirs[d], op, w);
    }
    if code == Ok || store.dirs != dirs {
      CreateMap(table, store.dirs, dirs, d, w, e);
      GainsSays(store.dirs, dirs, d, w, e);
      GainedIsNew(dirs, d, w, e);
    }
  }

  lemma CreationIs(slots: seq<Dentry>, name: seq<u16>, code: Code, w: nat)
    requires code == EINVAL <==> |name| == 0 || |name| > MAX_NAME || slots == []
    requires code == Ok || code == EINVAL || code == ENOSPC
    requires code == ENOSPC ==> forall v :: 0 <= v && 0 < |name| && v + NumEntries(|name|) <= |slots| ==> !Window(slots, v, NumEntries(|name|))
    requires code == Ok ==> 0 < |name| && Window(slots, w, NumEntries(|name|))
    ensures code == Creation(slots, name)
  {
    hide NumEntries;
    if code == ENOSPC {
      NoWindow(slots, NumEntries(|name|));
    }
  }

  lemma NoWindow(slots: seq<Dentry>, n: nat)
    requires forall v :: 0 <= v && v + n <= |slots| ==> !Window(slots, v, n)
    ensures forall v: nat :: !Window(slots, v, n)
  {
  }

  lemma GainsSays(s: Dirs, dirs: Dirs, d: nat, w: nat, e: Entry)
    requires d < |dirs| && w < |dirs[d]| && Gains(s, dirs, d, w, e)
    ensures |s| == |dirs| && |s[d]| == |dirs[d]| && View(dirs[d])[w] == None
    ensures forall c :: 0 <= c < |s| && c != d ==> s[c] == dirs[c]
  {
    hide View;
  }

  lemma LosesSays(s: Dirs, dirs: Dirs, d: nat, i: nat)
    requires d < |dirs| && i < |dirs[d]| && Loses(s, dirs, d, i)
    ensures |s| == |dirs| && |s[d]| == |dirs[d]| && forall c :: 0 <= c < |s| && c != d ==> s[c] == dirs[c]
  {
    hide View;
  }

  /** A removal: the entry is unlinked at the slot where it was found. */
  method RemoveIn(store: Store, table: Upcase, d: nat, bound: nat, op: Op) returns (code: Code)
    requires store.Valid()
    requires d < |store.dirs| && |store.dirs[d]| <= bound && Sound(table, store.dirs[d]) && op.Remove?
    modifies store, store.vol`disk, store.vol`Data, store.vol`readFaults, store.vol`writeFaults, store.vol`writes
    ensures store.FromDevice()
    ensures store.Valid() && store.faults >= old(store.faults)
    ensures |store.dirs| == |old(store.dirs)| && |store.dirs[d]| == |old(store.dirs)[d]| && Sound(table, store.dirs[d])
    ensures Steps(table, DirMapOf(table, old(store.dirs)[d]), DirMapOf(table, store.dirs[d]), op, code)
    ensures forall c :: 0 <= c < |store.dirs| && c != d ==> store.dirs[c] == old(store.dirs)[c]
    ensures Justified(table, old(store.dirs)[d], bound, op, code, store.faults > old(store.faults))
  {
    hide Store.Valid, MapOf, View, Fold, Unique, Tidy, AnyBroken, Terminated, Loses, LiveAt, Window, Justified, Unfound;
    ghost var dirs := store.dirs;
    var r := LookupMap(store, table, d, op.name, bound);
    if r.Miss? {
      if store.faults == old(store.faults) {
        JustifiedUnfound(table, dirs[d], bound, op, r.code, false);
      } else {
        JustifiedFault(table, dirs[d], bound, op);
      }
      return r.code;
    }
    HitIsLive(table, dirs[d], r.i, Fold(table, op.name));
    code := Unlink(store, d, r.i);
    if code == Ok {
      JustifiedFound(table, dirs[d], bound, op, Ok, store.faults > old(store.faults));
    } else {
      JustifiedFault(table, dirs[d], bound, op);
    }
    if code == Ok || store.dirs != dirs {
      UnlinkMap(table, store.dirs, dirs, d, r.i);
      LosesSays(store.dirs, dirs, d, r.i);
    }
  }

  method Do(store: Store, table: Upcase, d: nat, bound: nat, op: Op) returns (code: Code)
    requires store.Valid()
    requires d < |store.dirs| && |store.dirs[d]| <= bound && Sound(table, store.dirs[d])
    requires op.Create? ==> |op.stamp| == 12 && 0 !in op.name
    modifies store, store.vol`disk, store.vol`Data, store.vol`readFaults, store.vol`writeFaults, store.vol`writes
    ensures store.FromDevice()
    ensures store.Valid() && store.faults >= old(store.faults)
    ensures |store.dirs| == |old(store.dirs)| && |store.dirs[d]| == |old(store.dirs)[d]| && Sound(table, store.dirs[d])
    ensures Steps(table, DirMapOf(table, old(store.dirs)[d]), DirMapOf(table, store.dirs[d]), op, code)
    ensures forall c :: 0 <= c < |store.dirs| && c != d ==> store.dirs[c] == old(store.dirs)[c]
    ensures Justified(table, old(store.dirs)[d], bound, op, code, store.faults > old(store.faults))
    ensures op.Create? && code == Ok ==> Entered(table, store.dirs[d], op)
  {
    hide Store.Valid, MapOf, View, Fold, Sound, AnyBroken, Justified, Unfound, Entered;
    match op {
      case Find(_) =>
        var r := LookupMap(store, table, d, op.name, bound);
        code := if r.Hit? then Ok else r.code;
        if r.Hit? {
          JustifiedFound(table, store.dirs[d], bound, op, Ok, store.faults > old(store.faults));
        } else if store.faults == old(store.faults) {
          JustifiedUnfound(table, store.dirs[d], bound, op, r.code, false);
        } else {
          JustifiedFault(table, store.dirs[d], bound, op);
        }
      case Create(_, _, _, _, _) =>
        code := CreateIn(store, table, d, bound, op);
      case Remove(_) =>
        code := RemoveIn(store, table, d, bound, op);
    }
  }

  lemma HitIsLive(table: Upcase, slots: seq<Dentry>, i: nat, key: seq<u16>)
    requires At(table, View(slots), i, key)
    ensures LiveAt(slots, i)
  {
  }

  lemma GainedIsNew(dirs: Dirs, d: nat, w: nat, e: Entry)
    requires d < |dirs| && w < |dirs[d]| && View(dirs[d])[w] == None
    ensures View(dirs[d])[w := Some(e)] != View(dirs[d])
  {
    hide View;
    var v := View(dirs[d]);
    assert v[w := Some(e)][w] != v[w];
  }

  /** One step of a session: what it made of the map, and why it returned what it did. */
  ghost predicate SessionStep(table: Upcase, slots: seq<Dentry>, slots': seq<Dentry>, bound: nat, op: Op, code: Code, faulted: bool) {
    && Steps(table, DirMapOf(table, slots), DirMapOf(table, slots'), op, code) && Justified(table, slots, bound, op, code, faulted)
    && (op.Create? && code == Ok ==> Entered(table, slots', op))
  }

  /** Any session of operations: the directory follows the map step by step.  `counts` are the failed accesses before
      and after each. */
  method Session(store: Store, table: Upcase, d: nat, bound: nat, ops: seq<Op>)
    returns (codes: seq<Code>, ghost states: seq<seq<Dentry>>, ghost counts: seq<nat>)
    requires store.Valid()
    requires d < |store.dirs| && |store.dirs[d]| <= bound && Sound(table, store.dirs[d])
    requires forall i :: 0 <= i < |ops| && ops[i].Create? ==> |ops[i].stamp| == 12 && 0 !in ops[i].name
    modifies store, store.vol`disk, store.vol`Data, store.vol`readFaults, store.vol`writeFaults, store.vol`writes
    ensures store.FromDevice()
    ensures store.Valid()
    ensures |store.dirs| == |old(store.dirs)| && Sound(table, store.dirs[d])
    ensures forall c :: 0 <= c < |store.dirs| && c != d ==> store.dirs[c] == old(store.dirs)[c]
    ensures |codes| == |ops| && |states| == |counts| == |ops| + 1
    ensures states[0] == old(store.dirs)[d] && states[|ops|] == store.dirs[d] && counts[0] == old(store.faults) && counts[|ops|] == store.faults
    ensures forall i :: 0 <= i < |ops| ==>
              counts[i] <= counts[i + 1] && SessionStep(table, states[i], states[i + 1], bound, ops[i], codes[i], counts[i + 1] > counts[i])
  {
    hide Store.Valid, DirMapOf, Sound, Steps, Justified, Entered;
    codes, states, counts := [], [store.dirs[d]], [store.faults];
    for k := 0 to |ops|
      invariant store.FromDevice()
      invariant store.Valid()
      invariant |store.dirs| == |old(store.dirs)| && |store.dirs[d]| <= bound && Sound(table, store.dirs[d])
      invariant forall c :: 0 <= c < |store.dirs| && c != d ==> store.dirs[c] == old(store.dirs)[c]
      invariant |codes| == k && |states| == |counts| == k + 1
      invariant states[0] == old(store.dirs)[d] && states[k] == store.dirs[d] && counts[0] == old(store.faults) && counts[k] == store.faults
      invariant forall i :: 0 <= i < k ==>
                  counts[i] <= counts[i + 1] && SessionStep(table, states[i], states[i + 1], bound, ops[i], codes[i], counts[i + 1] > counts[i])
    {
      var code := Do(store, table, d, bound, ops[k]);
      codes, states, counts := codes + [code], states + [store.dirs[d]], counts + [store.faults];
    }
  }
}
