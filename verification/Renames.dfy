/** VfsExfatRename of fs/exfat/exfat_inode.c: the target is resolved and tombstoned, the new set is written in
    full, and only then is the old one tombstoned.  What a lookup of the old or of the new name delivers is
    stated for every prefix of the slot writes. */
module Renames {
  import opened Bytes
  import opened Checksum
  import opened Dentries
  import opened Directories
  import opened Names
  import opened DirStore
  import opened DirChange
  import opened DirMap

  // ----- what a lookup of one name delivers

  /** The entry at slot i, and no other, answers to `key`, and says where the file is. */
  ghost predicate Shows(table: Upcase, v: seq<Option<Entry>>, i: nat, key: seq<u16>, place: Place) {
    && At(table, v, i, key) && PlaceOf(v[i].value) == place
    && forall j: nat :: At(table, v, j, key) ==> j == i
  }

  ghost predicate NoneAt(table: Upcase, v: seq<Option<Entry>>, key: seq<u16>) {
    forall j: nat :: !At(table, v, j, key)
  }

  lemma ShowsAfterLoss(table: Upcase, v: seq<Option<Entry>>, i: nat, key: seq<u16>, place: Place, k: nat)
    requires Shows(table, v, i, key, place) && k < |v| && k != i
    ensures Shows(table, v[k := None], i, key, place)
  {
    hide Key;
    var v' := v[k := None];
    forall j: nat | At(table, v', j, key)
      ensures j == i
    {
      assert At(table, v, j, key);
    }
  }

  lemma ShowsAfterGain(table: Upcase, v: seq<Option<Entry>>, i: nat, key: seq<u16>, place: Place, w: nat, e: Entry)
    requires Shows(table, v, i, key, place) && w < |v| && v[w] == None && Key(table, e) != key
    ensures Shows(table, v[w := Some(e)], i, key, place)
  {
    hide Key;
    var v' := v[w := Some(e)];
    forall j: nat | At(table, v', j, key)
      ensures j == i
    {
      assert At(table, v, j, key);
    }
  }

  lemma ShowsNew(table: Upcase, v: seq<Option<Entry>>, w: nat, e: Entry)
    requires w < |v| && NoneAt(table, v, Key(table, e))
    ensures Shows(table, v[w := Some(e)], w, Key(table, e), PlaceOf(e))
  {
    hide Key;
    var v' := v[w := Some(e)];
    forall j: nat | At(table, v', j, Key(table, e))
      ensures j == w
    {
      assert !At(table, v, j, Key(table, e));
    }
  }

  lemma NoneAfterLoss(table: Upcase, v: seq<Option<Entry>>, i: nat, key: seq<u16>)
    requires Unique(table, v) && At(table, v, i, key)
    ensures NoneAt(table, v[i := None], key)
  {
    hide Key;
    var v' := v[i := None];
    forall j: nat
      ensures !At(table, v', j, key)
    {
      assert At(table, v', j, key) ==> At(table, v, j, key);
    }
  }

  /** A lookup under a name that one entry alone answers to delivers that entry's place. */
  lemma ShownIsFound(table: Upcase, slots: seq<Dentry>, i: nat, key: seq<u16>, place: Place, hit: nat)
    requires Shows(table, View(slots), i, key, place) && Answers(table, slots, hit, key)
    ensures hit == i && PlaceOf(EntryAt(slots, hit).value) == place
  {
    hide EntryAt, Fold;
    AnswersAt(table, slots, hit, key);
  }

  // ----- the scan for the target

  datatype Target = Absent | Present(i: nat, s: seq<Dentry>) | Failed

  /** A set found by the scan answers to the name. */
  lemma FoundAnswers(table: Upcase, slots: seq<Dentry>, i: nat, text: seq<u16>, key: seq<u16>)
    requires Tidy(slots) && SetHere(slots, i) && Valid(SetOf(slots, i)) && IsText(SetOf(slots, i), text)
    ensures Answers(table, slots, i, key) <==> Fold(table, text) == key
  {
    hide Valid, Fold, NameOf, UnitAt;
    TextUnique(SetOf(slots, i), text, NameOf(SetOf(slots, i)));
  }

  /** A set too short for a name answers to nothing. */
  lemma TooShort(table: Upcase, slots: seq<Dentry>, i: nat, key: seq<u16>)
    requires SetHere(slots, i) && |SetOf(slots, i)| < 3
    ensures !Answers(table, slots, i, key)
  {
    hide Valid, Fold, NameOf;
  }

  /** Every file entry before slot i opens a set that can be read. */
  predicate Readable(slots: seq<Dentry>, i: nat) {
    forall j :: 0 <= j < i && j < |slots| && Type(slots[j]) == FILE ==> SetHere(slots, j)
  }

  /** The scan for a name comes to its end or to a match before any file entry whose set it cannot read. */
  ghost predicate Reaches(table: Upcase, slots: seq<Dentry>, key: seq<u16>) {
    forall k :: 0 <= k < |slots| && Type(slots[k]) == FILE && !SetHere(slots, k) ==>
      exists j :: 0 <= j < k && Answers(table, slots, j, key)
  }

  /** Phase 1.3: the first valid set of directory d whose name compares equal. */
  method Resolve(store: Store, table: Upcase, d: nat, name: seq<u16>) returns (r: Target)
    requires store.Valid()
    requires d < |store.dirs| && Terminated(store.dirs[d]) && Tidy(store.dirs[d])
    modifies store`faults, store.vol`readFaults
    ensures store.FromDevice()
    ensures store.faults >= old(store.faults)
    ensures r.Present? ==> SetHere(store.dirs[d], r.i) && r.s == SetOf(store.dirs[d], r.i) && |r.s| >= 3
                           && Answers(table, store.dirs[d], r.i, Fold(table, name))
    ensures r.Absent? ==> forall j :: 0 <= j < |store.dirs[d]| ==> !Answers(table, store.dirs[d], j, Fold(table, name))
    ensures if r.Failed? then store.faults > old(store.faults) || !Reaches(table, store.dirs[d], Fold(table, name))
            else Reaches(table, store.dirs[d], Fold(table, name))
  {
    hide Store.Valid, Fold, Valid, Named, NameOf, IsText, Tidy, Answers, SetHere, Reaches;
    ghost var slots, key := store.dirs[d], Fold(table, name);
    var idx: nat := 0;
    while idx < store.Count(d)
      invariant store.FromDevice()
      invariant store.dirs[d] == slots && store.faults >= old(store.faults)
      invariant forall j :: 0 <= j < idx && j < |slots| ==> !Answers(table, slots, j, key)
      invariant Readable(slots, idx)
    {
      var one := store.Get(d, idx);
      if one == None {
        return Failed;
      }
      NotAFile(table, slots, idx, key);
      if Type(one.value) == UNUSED {
        Unanswered(table, slots, idx, key);
        ReachesBy(table, slots, key, idx);
        return Absent;
      }
      if Type(one.value) != FILE {
        idx := idx + 1;
        continue;
      }
      var s := store.GetSet(d, idx);
      if s == None {
        if store.faults == old(store.faults) {
          FailsBy(table, slots, key, idx);
        }
        return Failed;
      }
      Within(table, slots, idx, key);
      var valid := Validate(s.value);
      if !valid {
        NotValid(table, slots, idx, key);
        idx := idx + 1;
        continue;
      }
      var text := ExtractText(s.value);
      if text == None {
        TooShort(table, slots, idx, key);
        idx := idx + 1;
        continue;
      }
      FoundAnswers(table, slots, idx, text.value, key);
      var order := Compare(table, name, text.value);
      if order == 0 {
        ReachesBy(table, slots, key, idx);
        return Present(idx, s.value);
      }
      idx := idx + |s.value|;
    }
    ReachesBy(table, slots, key, idx);
    return Absent;
  }

  /** Inside a set no slot answers or opens another. */
  lemma Within(table: Upcase, slots: seq<Dentry>, i: nat, key: seq<u16>)
    requires SetHere(slots, i)
    ensures i < |slots| && |SetOf(slots, i)| >= 1 && i + |SetOf(slots, i)| <= |slots|
    ensures forall j :: i < j < i + |SetOf(slots, i)| ==> !Answers(table, slots, j, key) && Type(slots[j]) != FILE
  {
    forall j | i < j < i + |SetOf(slots, i)|
      ensures !Answers(table, slots, j, key) && Type(slots[j]) != FILE
    {
      assert Secondary(slots[j]);
      NotAFile(table, slots, j, key);
    }
  }

  /** How a scan shows that it comes through: up to an end, or to a match. */
  lemma ReachesBy(table: Upcase, slots: seq<Dentry>, key: seq<u16>, i: nat)
    requires Readable(slots, i) && (i >= |slots| || (SetHere(slots, i) && Answers(table, slots, i, key)) || (Terminated(slots) && Type(slots[i]) == UNUSED))
    ensures Reaches(table, slots, key)
  {
    hide Answers, SetHere;
  }

  lemma FailsBy(table: Upcase, slots: seq<Dentry>, key: seq<u16>, i: nat)
    requires i < |slots| && Type(slots[i]) == FILE && !SetHere(slots, i) && forall j :: 0 <= j < i ==> !Answers(table, slots, j, key)
    ensures !Reaches(table, slots, key)
  {
    hide Answers, SetHere;
  }

  lemma NotAFile(table: Upcase, slots: seq<Dentry>, i: nat, key: seq<u16>)
    requires i < |slots|
    ensures Type(slots[i]) != FILE ==> !Answers(table, slots, i, key)
  {
  }

  lemma NotValid(table: Upcase, slots: seq<Dentry>, i: nat, key: seq<u16>)
    requires SetHere(slots, i) && !Valid(SetOf(slots, i))
    ensures !Answers(table, slots, i, key)
  {
  }

  /** Phase 1.4: an overwritten directory must hold no file entry. */
  method CheckEmpty(store: Store, d: nat) returns (code: Code)
    requires store.Valid()
    requires d < |store.dirs| && Terminated(store.dirs[d])
    modifies store`faults, store.vol`readFaults
    ensures store.FromDevice()
    ensures store.faults >= old(store.faults)
    ensures code == Ok || code == ENOTEMPTY || (code == EIO && store.faults > old(store.faults))
    ensures code == Ok ==> forall j :: 0 <= j < |store.dirs[d]| ==> Type(store.dirs[d][j]) != FILE
    ensures code == ENOTEMPTY ==> exists j :: 0 <= j < |store.dirs[d]| && Type(store.dirs[d][j]) == FILE
  {
    hide Store.Valid;
    for j := 0 to store.Count(d)
      invariant store.FromDevice()
      invariant store.faults >= old(store.faults)
      invariant forall k :: 0 <= k < j ==> Type(store.dirs[d][k]) != FILE
    {
      var one := store.Get(d, j);
      if one == None {
        return EIO;
      }
      if Type(one.value) == UNUSED {
        return Ok;
      }
      if Type(one.value) == FILE {
        return ENOTEMPTY;
      }
    }
    return Ok;
  }

  // ----- what a rename may touch

  /** Where the file is under its old and its new name, and the entry that is to carry the new one. */
  datatype Course = Course(sd: nat, si: nat, oldKey: seq<u16>, oldPlace: Place, d: nat, newKey: seq<u16>, newPlace: Place, entry: Entry)

  /** An entry of directory c that the rename is about: under the old name in the one, under the new name in the other. */
  predicate Meant(table: Upcase, e: Entry, c: nat, n: Course) {
    (c == n.sd && Key(table, e) == n.oldKey) || (c == n.d && Key(table, e) == n.newKey)
  }

  /** What may become of what a slot of directory c shows. */
  predicate Slight(table: Upcase, b: Option<Entry>, a: Option<Entry>, c: nat, n: Course) {
    b == a || ((a.Some? ==> Meant(table, a.value, c, n)) && (b == None || (c == n.d && b == Some(n.entry))))
  }

  /** Every other entry stays at its slot, and none appears but the new one. */
  ghost predicate Confined(table: Upcase, slots: seq<Dentry>, was: seq<Dentry>, c: nat, n: Course) {
    |slots| == |was| && forall i :: 0 <= i < |was| ==> Slight(table, View(slots)[i], View(was)[i], c, n)
  }

  ghost predicate Framed(table: Upcase, s: Dirs, dirs: Dirs, n: Course) {
    |s| == |dirs| && forall c :: 0 <= c < |s| ==> Confined(table, s[c], dirs[c], c, n)
  }

  /** So at the end and after every write. */
  ghost predicate Frames(table: Upcase, hist: seq<Dirs>, from: nat, s: Dirs, dirs: Dirs, n: Course) {
    from <= |hist| && Framed(table, s, dirs, n) && forall j :: from <= j < |hist| ==> Framed(table, hist[j], dirs, n)
  }

  lemma FramedSelf(table: Upcase, dirs: Dirs, n: Course)
    ensures Framed(table, dirs, dirs, n)
  {
    hide View;
  }

  lemma FramesNothing(table: Upcase, hist: seq<Dirs>, dirs: Dirs, n: Course)
    ensures Frames(table, hist, |hist|, dirs, dirs, n)
  {
    FramedSelf(table, dirs, n);
  }

  lemma FramedTwice(table: Upcase, s: Dirs, mid: Dirs, dirs: Dirs, n: Course)
    requires Framed(table, s, mid, n) && Framed(table, mid, dirs, n)
    ensures Framed(table, s, dirs, n)
  {
    hide View, Meant;
    forall c | 0 <= c < |s|
      ensures Confined(table, s[c], dirs[c], c, n)
    {
      assert Confined(table, s[c], mid[c], c, n) && Confined(table, mid[c], dirs[c], c, n);
      forall i | 0 <= i < |dirs[c]|
        ensures Slight(table, View(s[c])[i], View(dirs[c])[i], c, n)
      {
        assert Slight(table, View(s[c])[i], View(mid[c])[i], c, n) && Slight(table, View(mid[c])[i], View(dirs[c])[i], c, n);
      }
    }
  }

  lemma FramesTwice(table: Upcase, hist: seq<Dirs>, h: seq<Dirs>, from: nat, s: Dirs, mid: Dirs, dirs: Dirs, n: Course)
    requires Frames(table, h, from, mid, dirs, n) && h <= hist && Frames(table, hist, |h|, s, mid, n)
    ensures Frames(table, hist, from, s, dirs, n)
  {
    hide Framed;
    FramedTwice(table, s, mid, dirs, n);
    forall j | from <= j < |hist|
      ensures Framed(table, hist[j], dirs, n)
    {
      if j < |h| {
        assert hist[j] == h[j];
      } else {
        FramedTwice(table, hist[j], mid, dirs, n);
      }
    }
  }

  /** Writes that leave everything as it is. */
  lemma FramesStill(table: Upcase, hist: seq<Dirs>, h: seq<Dirs>, from: nat, s: Dirs, dirs: Dirs, n: Course)
    requires Frames(table, h, from, s, dirs, n) && h <= hist && forall j :: |h| <= j < |hist| ==> hist[j] == s
    ensures Frames(table, hist, from, s, dirs, n)
  {
    hide Framed;
    forall j | from <= j < |hist| ensures Framed(table, hist[j], dirs, n) { assert j < |h| ==> hist[j] == h[j]; }
  }

  lemma FramedLoss(table: Upcase, s: Dirs, dirs: Dirs, n: Course, c: nat, i: nat)
    requires c < |dirs| && i < |dirs[c]| && Loses(s, dirs, c, i)
    requires View(dirs[c])[i].Some? ==> Meant(table, View(dirs[c])[i].value, c, n)
    ensures Framed(table, s, dirs, n)
  {
    hide View, Meant, Tidy, Terminated;
  }

  lemma FramesLoss(table: Upcase, hist: seq<Dirs>, from: nat, s: Dirs, dirs: Dirs, n: Course, c: nat, i: nat)
    requires from <= |hist| && c < |dirs| && i < |dirs[c]| && (View(dirs[c])[i].Some? ==> Meant(table, View(dirs[c])[i].value, c, n))
    requires forall j :: from <= j < |hist| ==> Loses(hist[j], dirs, c, i)
    requires s == dirs || Loses(s, dirs, c, i)
    ensures Frames(table, hist, from, s, dirs, n)
  {
    hide View, Meant, Loses, Framed;
    forall j | from <= j < |hist| ensures Framed(table, hist[j], dirs, n) { FramedLoss(table, hist[j], dirs, n, c, i); }
    if s == dirs {
      FramedSelf(table, dirs, n);
    } else {
      FramedLoss(table, s, dirs, n, c, i);
    }
  }

  lemma FramedGain(table: Upcase, s: Dirs, dirs: Dirs, n: Course, w: nat)
    requires n.d < |dirs| && w < |dirs[n.d]| && Gains(s, dirs, n.d, w, n.entry)
    ensures Framed(table, s, dirs, n)
  {
    hide View, Meant, Tidy, Terminated;
  }

  lemma FramesGain(table: Upcase, hist: seq<Dirs>, from: nat, s: Dirs, dirs: Dirs, n: Course, w: nat)
    requires from <= |hist| && n.d < |dirs| && w < |dirs[n.d]| && Gains(s, dirs, n.d, w, n.entry)
    requires forall j :: from <= j < |hist| ==> Gains(hist[j], dirs, n.d, w, n.entry)
    ensures Frames(table, hist, from, s, dirs, n)
  {
    hide Gains, Framed;
    forall j | from <= j < |hist| ensures Framed(table, hist[j], dirs, n) { FramedGain(table, hist[j], dirs, n, w); }
    FramedGain(table, s, dirs, n, w);
  }

  lemma FramesSame(table: Upcase, hist: seq<Dirs>, from: nat, s: Dirs, dirs: Dirs, n: Course)
    requires from <= |hist| && SameViews(s, dirs) && forall j :: from <= j < |hist| ==> SameViews(hist[j], dirs)
    ensures Frames(table, hist, from, s, dirs, n)
  {
    hide View, Meant, Tidy, Terminated;
  }

  /** Under any other name a directory delivers what it delivered. */
  lemma FramedMaps(table: Upcase, s: Dirs, dirs: Dirs, n: Course, c: nat, key: seq<u16>)
    requires Framed(table, s, dirs, n) && c < |dirs| && Sound(table, s[c]) && Sound(table, dirs[c]) && n.newKey == Key(table, n.entry)
    requires !(c == n.sd && key == n.oldKey) && !(c == n.d && key == n.newKey)
    ensures key in DirMapOf(table, s[c]) <==> key in DirMapOf(table, dirs[c])
    ensures key in DirMapOf(table, dirs[c]) ==> DirMapOf(table, s[c])[key] == DirMapOf(table, dirs[c])[key]
  {
    hide View, MapOf, Key, Tidy, Terminated;
    var v, was := View(s[c]), View(dirs[c]);
    assert Confined(table, s[c], dirs[c], c, n);
    MapHas(table, v, key);
    MapHas(table, was, key);
    forall i: nat
      ensures At(table, v, i, key) <==> At(table, was, i, key)
      ensures At(table, v, i, key) ==> v[i] == was[i]
    {
      assert i < |was| ==> Slight(table, v[i], was[i], c, n);
    }
    if i: nat :| At(table, was, i, key) {
      MapSays(table, v, i);
      MapSays(table, was, i);
    }
  }

  // ----- the steps, and what each prefix of their writes shows

  /** The source's entry is still the one that answers to the old name. */
  ghost predicate OldShown(table: Upcase, s: Dirs, d: nat, i: nat, key: seq<u16>, place: Place) {
    d < |s| && Terminated(s[d]) && Shows(table, View(s[d]), i, key, place)
  }

  ghost predicate AllOldShown(table: Upcase, hist: seq<Dirs>, from: nat, d: nat, i: nat, key: seq<u16>, place: Place) {
    from <= |hist| && forall j :: from <= j < |hist| ==> OldShown(table, hist[j], d, i, key, place)
  }

  lemma LossKeepsOld(table: Upcase, s: Dirs, dirs: Dirs, d: nat, i: nat, key: seq<u16>, place: Place, c: nat, k: nat)
    requires OldShown(table, dirs, d, i, key, place) && c < |dirs| && k < |dirs[c]| && Loses(s, dirs, c, k) && !(c == d && k == i)
    ensures OldShown(table, s, d, i, key, place)
  {
    hide View, Shows;
    if c == d {
      ShowsAfterLoss(table, View(dirs[d]), i, key, place, k);
    }
  }

  lemma GainKeepsOld(table: Upcase, s: Dirs, dirs: Dirs, d: nat, i: nat, key: seq<u16>, place: Place, c: nat,
                     w: nat, e: Entry)
    requires OldShown(table, dirs, d, i, key, place) && c < |dirs| && w < |dirs[c]| && Gains(s, dirs, c, w, e)
    requires c == d ==> Key(table, e) != key
    ensures OldShown(table, s, d, i, key, place)
  {
    hide View, Shows, Key;
    if c == d {
      ShowsAfterGain(table, View(dirs[d]), i, key, place, w, e);
    }
  }

  /** The directory once the target's set is tombstoned. */
  function Cleared(slots: seq<Dentry>, target: Target): seq<Dentry>
    requires target.Present? ==> SetHere(slots, target.i)
  {
    if target.Present? then Splice(slots, target.i, Tombstones(SetOf(slots, target.i))) else slots
  }

  /** There are n free slots in a row. */
  ghost predicate Room(slots: seq<Dentry>, n: nat) {
    exists w: nat :: Window(slots, w, n)
  }

  /** How the search for n slots comes out; a failed access may stand for any of the reasons. */
  ghost predicate Fitted(slots: seq<Dentry>, n: nat, code: Code, faulted: bool) {
    || (faulted && code == EIO)
    || ((code == Ok <==> Room(slots, n)) && (code == ENOSPC <==> slots != [] && !Room(slots, n)) && (code == EIO <==> slots == []))
  }

  /** Phase 1.5: the target's set, if there is one, is tombstoned. */
  method BuryTarget(store: Store, table: Upcase, d: nat, target: Target, ghost n: Course) returns (ok: bool)
    requires store.Valid() && n.d == d
    requires d < |store.dirs| && Sound(table, store.dirs[d]) && OldShown(table, store.dirs, n.sd, n.si, n.oldKey, n.oldPlace) && !target.Failed?
    requires target.Absent? ==> NoneAt(table, View(store.dirs[d]), n.newKey)
    requires target.Present? ==> && SetHere(store.dirs[d], target.i) && target.s == SetOf(store.dirs[d], target.i)
                                 && At(table, View(store.dirs[d]), target.i, n.newKey) && !(d == n.sd && target.i == n.si)
    modifies store, store.vol`disk, store.vol`Data, store.vol`readFaults, store.vol`writeFaults, store.vol`writes
    ensures store.FromDevice()
    ensures store.Valid()
    ensures old(store.history) <= store.history && store.faults >= old(store.faults) && (!ok ==> store.faults > old(store.faults))
    ensures AllOldShown(table, store.history, |old(store.history)|, n.sd, n.si, n.oldKey, n.oldPlace)
    ensures OldShown(table, store.dirs, n.sd, n.si, n.oldKey, n.oldPlace)
    ensures |store.dirs| == |old(store.dirs)| && |store.dirs[d]| == |old(store.dirs)[d]|
    ensures forall c :: 0 <= c < |store.dirs| && c != d ==> store.dirs[c] == old(store.dirs)[c]
    ensures Sound(table, store.dirs[d])
    ensures ok ==> && NoneAt(table, View(store.dirs[d]), n.newKey) && store.dirs[d] == Cleared(old(store.dirs)[d], target)
                   && DirMapOf(table, store.dirs[d]) == DirMapOf(table, old(store.dirs)[d]) - {n.newKey}
    ensures Frames(table, store.history, |old(store.history)|, store.dirs, old(store.dirs), n)
  {
    hide Frames;
    hide Store.Valid, View, Shows, OldShown, Loses, MapOf, Unique, NoneAt;
    ghost var dirs, from := store.dirs, |store.history|;
    ok := true;
    if target.Absent? {
      AbsentMap(table, View(dirs[d]), n.newKey);
      FramesNothing(table, store.history, dirs, n);
      return;
    }
    ok := BurySet(store, d, target.i, target.s);
    FramesLoss(table, store.history, from, store.dirs, dirs, n, d, target.i);
    forall j | from <= j < |store.history|
      ensures OldShown(table, store.history[j], n.sd, n.si, n.oldKey, n.oldPlace)
    {
      TargetLoss(table, store.history[j], dirs, d, target.i, n.newKey, n.sd, n.si, n.oldKey, n.oldPlace);
    }
    if store.dirs != dirs || ok {
      TargetLoss(table, store.dirs, dirs, d, target.i, n.newKey, n.sd, n.si, n.oldKey, n.oldPlace);
    }
  }

  lemma AbsentMap(table: Upcase, v: seq<Option<Entry>>, key: seq<u16>)
    requires NoneAt(table, v, key)
    ensures MapOf(table, v) - {key} == MapOf(table, v)
  {
    MapHas(table, v, key);
  }

  lemma TargetLoss(table: Upcase, s: Dirs, dirs: Dirs, d: nat, i: nat, key: seq<u16>, sd: nat, si: nat,
                   old_: seq<u16>, place: Place)
    requires d < |dirs| && i < |dirs[d]| && Sound(table, dirs[d]) && Loses(s, dirs, d, i) && At(table, View(dirs[d]), i, key)
    requires OldShown(table, dirs, sd, si, old_, place) && !(d == sd && i == si)
    ensures OldShown(table, s, sd, si, old_, place) && |s| == |dirs| && |s[d]| == |dirs[d]|
    ensures forall c :: 0 <= c < |s| && c != d ==> s[c] == dirs[c]
    ensures Sound(table, s[d]) && NoneAt(table, View(s[d]), key) && DirMapOf(table, s[d]) == DirMapOf(table, dirs[d]) - {key}
  {
    hide View, Shows, MapOf, NoneAt, Terminated;
    LossKeepsOld(table, s, dirs, sd, si, old_, place, d, i);
    NoneAfterLoss(table, View(dirs[d]), i, key);
    UnlinkMap(table, s, dirs, d, i);
  }

  /** Phases 1.6 and 1.7: a window is found and the new set written into it. */
  method WriteNew(store: Store, table: Upcase, d: nat, sp: Spec, ghost n: Course)
    returns (code: Code, w: nat)
    requires store.Valid() && n.d == d && n.entry == sp.AsEntry()
    requires sp.Ok() && 0 !in sp.name && d < |store.dirs| && Sound(table, store.dirs[d]) && OldShown(table, store.dirs, n.sd, n.si, n.oldKey, n.oldPlace)
    requires NoneAt(table, View(store.dirs[d]), Key(table, sp.AsEntry())) && (d == n.sd ==> Key(table, sp.AsEntry()) != n.oldKey)
    modifies store, store.vol`disk, store.vol`Data, store.vol`readFaults, store.vol`writeFaults, store.vol`writes
    ensures store.FromDevice()
    ensures store.Valid()
    ensures old(store.history) <= store.history && store.faults >= old(store.faults)
    ensures code == Ok || code == ENOSPC || code == EIO
    ensures AllOldShown(table, store.history, |old(store.history)|, n.sd, n.si, n.oldKey, n.oldPlace)
    ensures OldShown(table, store.dirs, n.sd, n.si, n.oldKey, n.oldPlace)
    ensures |store.dirs| == |old(store.dirs)| && |store.dirs[d]| == |old(store.dirs)[d]|
    ensures forall c :: 0 <= c < |store.dirs| && c != d ==> store.dirs[c] == old(store.dirs)[c]
    ensures Sound(table, store.dirs[d])
    ensures Fitted(old(store.dirs)[d], sp.Len(), code, store.faults > old(store.faults)) && (code == ENOSPC ==> store.dirs == old(store.dirs))
    ensures code == Ok ==> && w < |store.dirs[d]| && store.dirs[d][w] == sp.Set()[0]
                           && Shows(table, View(store.dirs[d]), w, Key(table, sp.AsEntry()), PlaceOf(sp.AsEntry()))
                           && DirMapOf(table, store.dirs[d]) == DirMapOf(table, old(store.dirs)[d])[Key(table, sp.AsEntry()) := PlaceOf(sp.AsEntry())]
                           && Bears(store.dirs[d], w, sp)
    ensures Frames(table, store.history, |old(store.history)|, store.dirs, old(store.dirs), n)
  {
    hide Frames;
    hide Store.Valid, View, Shows, OldShown, MapOf, Unique, Key, Spec.Set, Spec.Len, At, NoneAt, Gains, Window, Fits, Bears, Splice;
    ghost var dirs, from, e := store.dirs, |store.history|, sp.AsEntry();
    code, w := AllocSlot(store, d, sp.Len(), store.Count(d));
    assert store.dirs[d] == dirs[d];
    RoomIs(dirs[d], sp.Len(), code, w);
    if code != Ok {
      FramesNothing(table, store.history, dirs, n);
      return if code == ENOSPC then ENOSPC else EIO, 0;
    }
    var ok := WriteSet(store, d, w, sp);
    FramesGain(table, store.history, from, store.dirs, dirs, n, w);
    forall j | from <= j < |store.history|
      ensures OldShown(table, store.history[j], n.sd, n.si, n.oldKey, n.oldPlace)
    {
      GainKeepsOld(table, store.history[j], dirs, n.sd, n.si, n.oldKey, n.oldPlace, d, w, e);
    }
    GainKeepsOld(table, store.dirs, dirs, n.sd, n.si, n.oldKey, n.oldPlace, d, w, e);
    GainedDirs(store.dirs, dirs, d, w, e);
    GainIsSound(table, store.dirs, dirs, d, w, e);
    code := if ok then Ok else EIO;
    if ok {
      NewShown(table, store.dirs, dirs, d, w, e);
      BearsNew(store.dirs[d], dirs[d], w, sp);
    }
  }

  /** What the allocator's answer says about room. */
  lemma RoomIs(slots: seq<Dentry>, n: nat, code: Code, w: nat)
    requires 1 <= n
    requires code == Ok ==> Fits(slots, w, n)
    requires code == ENOSPC ==> forall v :: 0 <= v && v + n <= |slots| ==> !Window(slots, v, n)
    requires code == EINVAL ==> slots == []
    ensures code == Ok ==> Room(slots, n)
    ensures code == ENOSPC || code == EINVAL ==> !Room(slots, n)
  {
  }

  lemma GainedDirs(s: Dirs, dirs: Dirs, d: nat, w: nat, e: Entry)
    requires d < |dirs| && w < |dirs[d]| && Gains(s, dirs, d, w, e)
    ensures |s| == |dirs| && |s[d]| == |dirs[d]| && forall c :: 0 <= c < |s| && c != d ==> s[c] == dirs[c]
    ensures View(dirs[d])[w] == None
  {
    hide View;
  }

  lemma GainIsSound(table: Upcase, s: Dirs, dirs: Dirs, d: nat, w: nat, e: Entry)
    requires d < |dirs| && w < |dirs[d]| && Sound(table, dirs[d]) && Gains(s, dirs, d, w, e)
    requires NoneAt(table, View(dirs[d]), Key(table, e)) && 0 !in e.name
    ensures |s| == |dirs| && Sound(table, s[d])
  {
    hide View, MapOf, Key, Tidy;
    MapHas(table, View(dirs[d]), Key(table, e));
    CreateMap(table, s, dirs, d, w, e);
  }

  lemma NewShown(table: Upcase, s: Dirs, dirs: Dirs, d: nat, w: nat, e: Entry)
    requires d < |dirs| && w < |dirs[d]| && Sound(table, dirs[d]) && Gains(s, dirs, d, w, e) && NoneAt(table, View(dirs[d]), Key(table, e))
    requires View(s[d]) == View(dirs[d])[w := Some(e)] && 0 !in e.name
    ensures Sound(table, s[d]) && Shows(table, View(s[d]), w, Key(table, e), PlaceOf(e))
    ensures DirMapOf(table, s[d]) == DirMapOf(table, dirs[d])[Key(table, e) := PlaceOf(e)]
  {
    hide View, MapOf, Key;
    MapHas(table, View(dirs[d]), Key(table, e));
    CreateMap(table, s, dirs, d, w, e);
    GainedIsNew(dirs, d, w, e);
    ShowsNew(table, View(dirs[d]), w, e);
  }

  function WithAttr(e: Dentry, attr: u16): Dentry { Splice(e, 4, Le16(attr)) }

  /** The attributes with the archive bit set. */
  function Archived(attr: u16): u16 { if attr / ATTR_ARCHIVE % 2 == 1 then attr else attr + ATTR_ARCHIVE }

  /** A file's new entry has the archive bit already. */
  lemma ArchivedAlready(sp: Spec)
    requires sp.Ok() && !sp.isDir
    ensures var e := sp.Set()[0]; Attr(e) == ATTR_ARCHIVE && WithAttr(e, Archived(Attr(e))) == e
  {
    hide SetSum, Unsummed, NumEntries;
    var f := FileEntry(false, sp.stamp);
    var e := WithCheck(sp.File(), SetSum(sp.Plain()));
    assert e[4..6] == f[4..6] == Le16(ATTR_ARCHIVE);
    assert Le16(ATTR_ARCHIVE) == [0x20, 0];
  }

  /** Phase 1.8: the archive bit of a renamed file.  The bytes written are those already there. */
  method SetArchive(store: Store, d: nat, w: nat, sp: Spec) returns (ok: bool)
    requires store.Valid()
    requires sp.Ok() && !sp.isDir && d < |store.dirs| && w < |store.dirs[d]| && store.dirs[d][w] == sp.Set()[0]
    modifies store, store.vol`disk, store.vol`Data, store.vol`readFaults, store.vol`writeFaults, store.vol`writes
    ensures store.FromDevice()
    ensures store.Valid()
    ensures store.dirs == old(store.dirs) && old(store.history) <= store.history && store.faults >= old(store.faults)
    ensures !ok ==> store.faults > old(store.faults)
    ensures forall j :: |old(store.history)| <= j < |store.history| ==> store.history[j] == store.dirs
  {
    hide Store.Valid, Spec.Set, WithAttr, Archived, Attr;
    ArchivedAlready(sp);
    var one := store.Get(d, w);
    if one == None {
      return false;
    }
    ok := store.Set(d, w, WithAttr(one.value, Archived(Attr(one.value))));
    assert Put(old(store.dirs)[d], w, old(store.dirs)[d][w]) == old(store.dirs)[d];
    assert old(store.dirs)[d := old(store.dirs)[d]] == old(store.dirs);
  }

  /** The new name is shown, whatever happens to the old one. */
  ghost predicate NewNamed(table: Upcase, s: Dirs, d: nat, w: nat, key: seq<u16>, place: Place) {
    d < |s| && Terminated(s[d]) && Shows(table, View(s[d]), w, key, place)
  }

  /** The set at slot i of directory d is tombstoned, and nothing else changes. */
  ghost predicate Buried(s: Dirs, dirs: Dirs, d: nat, i: nat)
    requires d < |dirs|
  {
    SetHere(dirs[d], i) && s == dirs[d := Splice(dirs[d], i, Tombstones(SetOf(dirs[d], i)))]
  }

  /** Another set stays what it is. */
  lemma BearsBeside(s: Dirs, dirs: Dirs, d: nat, i: nat, c: nat, w: nat, sp: Spec)
    requires d < |dirs| && c < |dirs| && Buried(s, dirs, d, i) && Bears(dirs[c], w, sp) && !(c == d && i == w)
    ensures |s| == |dirs| && Bears(s[c], w, sp)
  {
    hide Spec.Set, Splice, Tombstones;
    if c == d {
      var a, t := dirs[d], Tombstones(SetOf(dirs[d], i));
      var n := Total(a[w]);
      SetsApart(a, i, w);
      forall k | w <= k < w + n
        ensures s[c][k] == a[k]
      {
        SpliceReads(a, i, t, k);
      }
      assert s[c][w..w + n] == a[w..w + n];
    }
  }

  /** Two sets of a directory do not overlap: no set holds a second file entry. */
  lemma SetsApart(slots: seq<Dentry>, i: nat, j: nat)
    requires SetHere(slots, i) && SetHere(slots, j) && i != j
    ensures i + Total(slots[i]) <= j || j + Total(slots[j]) <= i
  {
  }

  /** Phase 1.9: the source's old set is read again and tombstoned. */
  method Retire(store: Store, table: Upcase, sd: nat, si: nat, ghost w: nat, ghost n: Course) returns (code: Code)
    requires store.Valid() && n.sd == sd && n.si == si
    requires sd < |store.dirs| && Sound(table, store.dirs[sd]) && NewNamed(table, store.dirs, n.d, w, n.newKey, n.newPlace) && !(n.d == sd && w == si)
    requires At(table, View(store.dirs[sd]), si, n.oldKey)
    modifies store, store.vol`disk, store.vol`Data, store.vol`readFaults, store.vol`writeFaults, store.vol`writes
    ensures store.FromDevice()
    ensures store.Valid()
    ensures old(store.history) <= store.history && store.faults >= old(store.faults) && (code == Ok || code == EIO)
    ensures |store.dirs| == |old(store.dirs)| && Sound(table, store.dirs[sd])
    ensures NewNamed(table, store.dirs, n.d, w, n.newKey, n.newPlace)
    ensures forall j :: |old(store.history)| <= j < |store.history| ==> NewNamed(table, store.history[j], n.d, w, n.newKey, n.newPlace)
    ensures store.dirs == old(store.dirs) || (si < |old(store.dirs)[sd]| && Loses(store.dirs, old(store.dirs), sd, si))
    ensures code == Ok ==> si < |old(store.dirs)[sd]| && Loses(store.dirs, old(store.dirs), sd, si)
    ensures code == Ok ==> Buried(store.dirs, old(store.dirs), sd, si)
    ensures old(LiveAt(store.dirs[sd], si)) && store.faults == old(store.faults) ==> code == Ok
    ensures Frames(table, store.history, |old(store.history)|, store.dirs, old(store.dirs), n)
  {
    hide Frames;
    hide Store.Valid, View, Shows, Loses, LiveAt, Unique, Tidy, Splice, SetHere;
    ghost var dirs, from := store.dirs, |store.history|;
    code := Unlink(store, sd, si);
    FramesLoss(table, store.history, from, store.dirs, dirs, n, sd, si);
    forall j | from <= j < |store.history|
      ensures NewNamed(table, store.history[j], n.d, w, n.newKey, n.newPlace)
    {
      LossKeepsNew(table, store.history[j], dirs, sd, si, n.d, w, n.newKey, n.newPlace);
    }
    if store.dirs != dirs {
      LossKeepsNew(table, store.dirs, dirs, sd, si, n.d, w, n.newKey, n.newPlace);
      LossIsSound(table, store.dirs, dirs, sd, si);
    }
  }

  lemma LossKeepsNew(table: Upcase, s: Dirs, dirs: Dirs, sd: nat, si: nat, d: nat, w: nat, key: seq<u16>, place: Place)
    requires sd < |dirs| && si < |dirs[sd]| && Loses(s, dirs, sd, si) && NewNamed(table, dirs, d, w, key, place) && !(d == sd && w == si)
    ensures NewNamed(table, s, d, w, key, place)
  {
    hide View, Shows, Terminated;
    if d == sd {
      ShowsAfterLoss(table, View(dirs[d]), w, key, place, si);
    }
  }

  // ----- VfsExfatRename

  /** The source as the driver holds it in memory. */
  class Source {
    var dir: nat
    var entry: nat
    const start: u32
    const size: u64
    const isDir: bool

    constructor (dir: nat, entry: nat, start: u32, size: u64, isDir: bool)
      ensures this.dir == dir && this.entry == entry && this.start == start && this.size == size && this.isDir == isDir
    {
      this.dir, this.entry, this.start, this.size, this.isDir := dir, entry, start, size, isDir;
    }
  }

  /** Once the set at slot i is tombstoned, no n free slots start before it. */
  predicate LandsOn(slots: seq<Dentry>, i: nat, n: nat)
    requires SetHere(slots, i)
  {
    NoneBefore(Splice(slots, i, Tombstones(SetOf(slots, i))), i, n)
  }

  /** How a rename onto itself comes out; a failed access may stand for the other reason. */
  predicate Landed(slots: seq<Dentry>, i: nat, n: nat, code: Code, faulted: bool)
    requires SetHere(slots, i)
  {
    (faulted && code == EIO) || (code == if LandsOn(slots, i, n) then Ok else EIO)
  }

  /** The tombstoned set has room for a new one of the same folded name. */
  lemma RoomAtSelf(table: Upcase, slots: seq<Dentry>, i: nat, sp: Spec)
    requires sp.Ok() && At(table, View(slots), i, Key(table, sp.AsEntry())) && SetHere(slots, i)
    ensures i + sp.Len() <= |slots| && Window(Splice(slots, i, Tombstones(SetOf(slots, i))), i, sp.Len())
  {
    hide Valid, NameOf, Splice;
    var t := Tombstones(SetOf(slots, i));
    RoomForName(|sp.name|);
    forall k | i <= k < i + |t|
      ensures Reusable(Splice(slots, i, t)[k])
    {
      SpliceReads(slots, i, t, k);
    }
  }

  lemma RoomForName(len: nat)
    requires len > 0
    ensures NumEntries(len) == 2 + Needed(len)
  {
  }

  /** Phases 1.5 to 1.9 when the target found is the source itself and the self test did not stop them: the
      first write takes the only entry away.  If all goes well the new set ends up where the old one was and is
      tombstoned in its place, or it ends up before it, and the rename fails with the file under the new name. */
  method OntoSelf(store: Store, table: Upcase, d: nat, i: nat, s: seq<Dentry>, sp: Spec, ghost n: Course)
    returns (code: Code, w: nat)
    requires store.Valid() && n.sd == n.d == d && n.oldKey == n.newKey && n.entry == sp.AsEntry()
    requires sp.Ok() && 0 !in sp.name && d < |store.dirs| && Sound(table, store.dirs[d]) && At(table, View(store.dirs[d]), i, n.newKey)
    requires SetHere(store.dirs[d], i) && s == SetOf(store.dirs[d], i) && n.newKey == Key(table, sp.AsEntry())
    modifies store, store.vol`disk, store.vol`Data, store.vol`readFaults, store.vol`writeFaults, store.vol`writes
    ensures store.FromDevice()
    ensures store.Valid()
    ensures old(store.history) <= store.history && |store.dirs| == |old(store.dirs)|
    ensures |store.history| > |old(store.history)| ==>
              d < |store.history[|old(store.history)|]| && NoneAt(table, View(store.history[|old(store.history)|][d]), n.newKey)
    ensures code == Ok ==> NoneAt(table, View(store.dirs[d]), n.newKey) && |store.history| > |old(store.history)|
    ensures Sound(table, store.dirs[d])
    ensures forall c :: 0 <= c < |store.dirs| && c != d ==> store.dirs[c] == old(store.dirs)[c]
    ensures store.faults >= old(store.faults)
    ensures store.faults == old(store.faults) ==>
              && |store.history| > |old(store.history)|
              && if LandsOn(old(store.dirs)[d], i, sp.Len()) then code == Ok
                 else code == EIO && NewNamed(table, store.dirs, d, w, n.newKey, PlaceOf(sp.AsEntry()))
    ensures Landed(old(store.dirs)[d], i, sp.Len(), code, store.faults > old(store.faults))
    ensures Frames(table, store.history, |old(store.history)|, store.dirs, old(store.dirs), n)
  {
    hide Frames;
    hide Store.Valid, View, Loses, MapOf, NoneAt, Spec.Set, Spec.Len, Splice, Key, Unique, Terminated, Tombstones, SetHere, Spec.Ok;
    hide NewNamed, NoneBefore, Window;
    RoomAtSelf(table, store.dirs[d], i, sp);
    ghost var dirs, from := store.dirs, |store.history|;
    HereInside(dirs[d], i);
    code, w := EIO, 0;
    var ok := BurySet(store, d, i, s);
    FramesLoss(table, store.history, from, store.dirs, dirs, n, d, i);
    LostDirs(store.dirs, dirs, d, i);
    if store.dirs != dirs {
      LossIsSound(table, store.dirs, dirs, d, i);
    }
    ghost var mid := store.history;
    if from < |mid| {
      SelfLoss(table, mid[from], dirs, d, i, n.newKey);
    }
    if ok {
      SelfLoss(table, store.dirs, dirs, d, i, n.newKey);
      ghost var bare := store.dirs;
      code, w := RewriteSelf(store, table, d, i, sp, dirs[d], n);
      FramesTwice(table, store.history, mid, from, store.dirs, bare, dirs, n);
      assert from < |mid| ==> store.history[from] == mid[from];
    }
  }

  lemma HereInside(slots: seq<Dentry>, i: nat)
    requires SetHere(slots, i)
    ensures i < |slots|
  {
  }

  /** The rest of it, once the source's set is tombstoned. */
  method RewriteSelf(store: Store, table: Upcase, d: nat, i: nat, sp: Spec, ghost slots: seq<Dentry>, ghost n: Course)
    returns (code: Code, w: nat)
    requires store.Valid() && n.d == d && n.newKey == Key(table, sp.AsEntry()) && n.entry == sp.AsEntry()
    requires sp.Ok() && 0 !in sp.name && d < |store.dirs| && Sound(table, store.dirs[d]) && NoneAt(table, View(store.dirs[d]), Key(table, sp.AsEntry()))
    requires SetHere(slots, i) && store.dirs[d] == Splice(slots, i, Tombstones(SetOf(slots, i))) && Window(store.dirs[d], i, sp.Len())
    modifies store, store.vol`disk, store.vol`Data, store.vol`readFaults, store.vol`writeFaults, store.vol`writes
    ensures store.FromDevice()
    ensures store.Valid()
    ensures old(store.history) <= store.history && |store.dirs| == |old(store.dirs)| && store.faults >= old(store.faults)
    ensures code == Ok ==> NoneAt(table, View(store.dirs[d]), Key(table, sp.AsEntry()))
    ensures store.faults == old(store.faults) ==>
              if LandsOn(slots, i, sp.Len()) then code == Ok
              else code == EIO && NewNamed(table, store.dirs, d, w, Key(table, sp.AsEntry()), PlaceOf(sp.AsEntry()))
    ensures Landed(slots, i, sp.Len(), code, store.faults > old(store.faults))
    ensures Sound(table, store.dirs[d])
    ensures forall c :: 0 <= c < |store.dirs| && c != d ==> store.dirs[c] == old(store.dirs)[c]
    ensures Frames(table, store.history, |old(store.history)|, store.dirs, old(store.dirs), n)
  {
    hide Frames;
    hide Store.Valid, View, Loses, MapOf, NoneAt, Spec.Set, Spec.Len, Gains, Splice, Key, Unique, SetHere, Terminated, Tombstones;
    ghost var bare, e, from := store.dirs, sp.AsEntry(), |store.history|;
    FramesNothing(table, store.history, bare, n);
    var ok;
    code, w := AllocSlot(store, d, sp.Len(), store.Count(d));
    if code != Ok {
      return if code == ENOSPC then ENOSPC else EIO, w;
    }
    ok := WriteSet(store, d, w, sp);
    ghost var full := store.dirs;
    FramesGain(table, store.history, from, full, bare, n, w);
    GainedDirs(full, bare, d, w, e);
    GainIsSound(table, full, bare, d, w, e);
    if !ok {
      return EIO, w;
    }
    NewShown(table, full, bare, d, w, e);
    if !sp.isDir {
      ghost var before := store.history;
      ok := SetArchive(store, d, w, sp);
      FramesStill(table, store.history, before, from, full, bare, n);
      if !ok {
        return EIO, w;
      }
    }
    SlotAfter(slots, i, w, sp);
    WhereItLands(bare[d], i, w, sp.Len());
    NewIsLive(table, full[d], w, Key(table, e), PlaceOf(e));
    ghost var h := store.history;
    OnlyNew(table, full, n, i, w);
    code := UnlinkAgain(store, table, d, i, n);
    FramesTwice(table, store.history, h, from, store.dirs, full, bare, n);
    if code == Ok {
      SelfGone(table, store.dirs, full, d, w, Key(table, e));
    }
  }

  /** The leftmost window is the one at slot i exactly if none starts before it. */
  lemma WhereItLands(slots: seq<Dentry>, i: nat, w: nat, n: nat)
    requires Window(slots, i, n) && Window(slots, w, n) && NoneBefore(slots, w, n)
    ensures w <= i && (w == i <==> NoneBefore(slots, i, n))
  {
  }

  lemma NewIsLive(table: Upcase, slots: seq<Dentry>, w: nat, key: seq<u16>, place: Place)
    requires Shows(table, View(slots), w, key, place)
    ensures w < |slots| && LiveAt(slots, w)
  {
  }

  /** Phase 1.9 once more, saying what it needs to succeed. */
  method UnlinkAgain(store: Store, table: Upcase, d: nat, i: nat, ghost n: Course) returns (code: Code)
    requires store.Valid()
    requires d < |store.dirs| && Sound(table, store.dirs[d])
    requires i < |store.dirs[d]| && (View(store.dirs[d])[i].Some? ==> Meant(table, View(store.dirs[d])[i].value, d, n))
    modifies store, store.vol`disk, store.vol`Data, store.vol`readFaults, store.vol`writeFaults, store.vol`writes
    ensures store.FromDevice()
    ensures store.Valid()
    ensures old(store.history) <= store.history && |store.dirs| == |old(store.dirs)| && store.faults >= old(store.faults)
    ensures code == Ok || code == EIO
    ensures code == Ok ==> SetHere(old(store.dirs)[d], i) && i < |old(store.dirs)[d]| && Loses(store.dirs, old(store.dirs), d, i)
    ensures old(LiveAt(store.dirs[d], i)) && store.faults == old(store.faults) ==> code == Ok
    ensures !SetHere(old(store.dirs)[d], i) ==> code == EIO && store.dirs == old(store.dirs)
    ensures Sound(table, store.dirs[d])
    ensures forall c :: 0 <= c < |store.dirs| && c != d ==> store.dirs[c] == old(store.dirs)[c]
    ensures Frames(table, store.history, |old(store.history)|, store.dirs, old(store.dirs), n)
  {
    hide Frames;
    hide Store.Valid, View, Tidy, Unique, Loses;
    ghost var dirs, from := store.dirs, |store.history|;
    code := Unlink(store, d, i);
    FramesLoss(table, store.history, from, store.dirs, dirs, n, d, i);
    LostDirs(store.dirs, dirs, d, i);
    if store.dirs != dirs {
      LossIsSound(table, store.dirs, dirs, d, i);
    }
  }

  /** Slot i shows nothing, or the new entry. */
  lemma OnlyNew(table: Upcase, s: Dirs, n: Course, i: nat, w: nat)
    requires n.d < |s| && i < |s[n.d]| && (SetHere(s[n.d], i) ==> i == w) && At(table, View(s[n.d]), w, n.newKey)
    ensures View(s[n.d])[i].Some? ==> Meant(table, View(s[n.d])[i].value, n.d, n)
  {
    hide Valid, Named, Key;
  }

  lemma SelfLoss(table: Upcase, s: Dirs, dirs: Dirs, d: nat, i: nat, key: seq<u16>)
    requires d < |dirs| && i < |dirs[d]| && Sound(table, dirs[d]) && Loses(s, dirs, d, i) && At(table, View(dirs[d]), i, key)
    ensures |s| == |dirs| && |s[d]| == |dirs[d]| && Sound(table, s[d]) && NoneAt(table, View(s[d]), key)
  {
    hide View, MapOf, NoneAt, Terminated;
    NoneAfterLoss(table, View(dirs[d]), i, key);
    UnlinkMap(table, s, dirs, d, i);
  }

  lemma LostDirs(s: Dirs, dirs: Dirs, d: nat, i: nat)
    requires d < |dirs| && (s == dirs || (i < |dirs[d]| && Loses(s, dirs, d, i)))
    ensures |s| == |dirs| && forall c :: 0 <= c < |s| && c != d ==> s[c] == dirs[c]
  {
  }

  lemma SelfGone(table: Upcase, s: Dirs, full: Dirs, d: nat, w: nat, key: seq<u16>)
    requires d < |full| && w < |full[d]| && Sound(table, full[d]) && Loses(s, full, d, w) && At(table, View(full[d]), w, key)
    ensures NoneAt(table, View(s[d]), key)
  {
    hide View, NoneAt, Terminated;
    NoneAfterLoss(table, View(full[d]), w, key);
  }

  /** After the new set is written, slot i opens a set only if that set is the new one. */
  lemma SlotAfter(a: seq<Dentry>, i: nat, w: nat, sp: Spec)
    requires sp.Ok() && SetHere(a, i) && w + sp.Len() <= |a|
    ensures var b := Splice(Splice(a, i, Tombstones(SetOf(a, i))), w, sp.Set()); SetHere(b, i) ==> i == w
  {
    hide SetSum, Spec.Set, Splice, Valid, Named;
    var t := Tombstones(SetOf(a, i));
    var bare := Splice(a, i, t);
    var b := Splice(bare, w, sp.Set());
    LastStage(sp);
    SpliceReads(a, i, t, i);
    SpliceReads(bare, w, sp.Set(), i);
  }

  /** A lookup of the old name, or of the new one, still finds the file. */
  ghost predicate Kept(table: Upcase, s: Dirs, n: Course) {
    || OldShown(table, s, n.sd, n.si, n.oldKey, n.oldPlace)
    || exists w: nat :: NewNamed(table, s, n.d, w, n.newKey, n.newPlace)
  }

  ghost predicate AllKept(table: Upcase, hist: seq<Dirs>, from: nat, n: Course) {
    from <= |hist| && forall j :: from <= j < |hist| ==> Kept(table, hist[j], n)
  }

  ghost predicate AllSound(table: Upcase, dirs: Dirs) {
    forall c :: 0 <= c < |dirs| ==> Sound(table, dirs[c])
  }

  /** What a completed rename makes of the maps of the two directories. */
  ghost predicate MovedMaps(table: Upcase, s: Dirs, dirs: Dirs, n: Course)
    requires |s| == |dirs| && n.sd < |dirs| && n.d < |dirs|
  {
    if n.sd == n.d then
      DirMapOf(table, s[n.d]) == (DirMapOf(table, dirs[n.d]) - {n.oldKey})[n.newKey := n.newPlace]
    else
      && DirMapOf(table, s[n.sd]) == DirMapOf(table, dirs[n.sd]) - {n.oldKey}
      && DirMapOf(table, s[n.d]) == DirMapOf(table, dirs[n.d])[n.newKey := n.newPlace]
  }

  /** Phases 1.5 to 1.8: the target goes, the new set is written.  The old name is shown throughout. */
  method Establish(store: Store, table: Upcase, d: nat, target: Target, sp: Spec, ghost n: Course)
    returns (code: Code, w: nat)
    requires store.Valid()
    requires sp.Ok() && 0 !in sp.name && d < |store.dirs| && Sound(table, store.dirs[d]) && !target.Failed?
    requires n.d == d && n.newKey == Key(table, sp.AsEntry()) && n.newPlace == PlaceOf(sp.AsEntry()) && (d == n.sd ==> n.newKey != n.oldKey)
    requires n.entry == sp.AsEntry()
    requires OldShown(table, store.dirs, n.sd, n.si, n.oldKey, n.oldPlace)
    requires target.Absent? ==> NoneAt(table, View(store.dirs[d]), n.newKey)
    requires target.Present? ==> && SetHere(store.dirs[d], target.i) && target.s == SetOf(store.dirs[d], target.i)
                                 && At(table, View(store.dirs[d]), target.i, n.newKey) && !(d == n.sd && target.i == n.si)
    modifies store, store.vol`disk, store.vol`Data, store.vol`readFaults, store.vol`writeFaults, store.vol`writes
    ensures store.FromDevice()
    ensures store.Valid()
    ensures old(store.history) <= store.history && store.faults >= old(store.faults)
    ensures AllOldShown(table, store.history, |old(store.history)|, n.sd, n.si, n.oldKey, n.oldPlace)
    ensures OldShown(table, store.dirs, n.sd, n.si, n.oldKey, n.oldPlace)
    ensures |store.dirs| == |old(store.dirs)| && forall c :: 0 <= c < |store.dirs| && c != d ==> store.dirs[c] == old(store.dirs)[c]
    ensures Sound(table, store.dirs[d])
    ensures Fitted(Cleared(old(store.dirs)[d], target), sp.Len(), code, store.faults > old(store.faults))
    ensures code == ENOSPC ==> store.dirs == old(store.dirs)[d := store.dirs[d]]
                               && DirMapOf(table, store.dirs[d]) == DirMapOf(table, old(store.dirs)[d]) - {n.newKey}
    ensures code == Ok ==> && NewNamed(table, store.dirs, d, w, n.newKey, n.newPlace) && Bears(store.dirs[d], w, sp)
                           && DirMapOf(table, store.dirs[d]) == DirMapOf(table, old(store.dirs)[d])[n.newKey := n.newPlace]
    ensures Frames(table, store.history, |old(store.history)|, store.dirs, old(store.dirs), n)
  {
    hide Frames;
    hide Store.Valid, View, Shows, OldShown, MapOf, Unique, Key, Spec.Set, Spec.Len, At, NoneAt, SetHere, Terminated, Bears;
    code, w := EIO, 0;
    var ok := BuryTarget(store, table, d, target, n);
    if !ok {
      return;
    }
    ghost var h, mid := store.history, store.dirs;
    code, w := WriteNew(store, table, d, sp, n);
    FramesTwice(table, store.history, h, |old(store.history)|, store.dirs, mid, old(store.dirs), n);
    if code == Ok && !sp.isDir {
      ghost var before := store.history;
      ok := SetArchive(store, d, w, sp);
      FramesStill(table, store.history, before, |old(store.history)|, store.dirs, old(store.dirs), n);
      if !ok {
        code := EIO;
      }
    }
  }

  /** The new name is not the old one's slot. */
  lemma NewIsApart(table: Upcase, s: Dirs, n: Course, w: nat)
    requires OldShown(table, s, n.sd, n.si, n.oldKey, n.oldPlace) && NewNamed(table, s, n.d, w, n.newKey, n.newPlace)
    requires n.sd == n.d ==> n.oldKey != n.newKey
    ensures !(n.d == n.sd && w == n.si)
    ensures n.si < |s[n.sd]| && View(s[n.sd])[n.si].Some? && Key(table, View(s[n.sd])[n.si].value) == n.oldKey
    ensures LiveAt(s[n.sd], n.si)
  {
    hide Key;
    NewIsLive(table, s[n.sd], n.si, n.oldKey, n.oldPlace);
  }

  /** Phases 1.5 to 1.9 for a target that is not the source. */
  method Move(store: Store, table: Upcase, target: Target, sp: Spec, sd: nat, si: nat, d: nat, ghost n: Course)
    returns (code: Code, w: nat)
    requires store.Valid()
    requires n.sd == sd < |store.dirs| && n.si == si && n.d == d < |store.dirs|
    requires sp.Ok() && 0 !in sp.name && AllSound(table, store.dirs) && !target.Failed?
    requires n.newKey == Key(table, sp.AsEntry()) && n.newPlace == PlaceOf(sp.AsEntry()) && n.entry == sp.AsEntry() && (d == sd ==> n.newKey != n.oldKey)
    requires OldShown(table, store.dirs, sd, si, n.oldKey, n.oldPlace)
    requires target.Absent? ==> NoneAt(table, View(store.dirs[d]), n.newKey)
    requires target.Present? ==> && SetHere(store.dirs[d], target.i) && target.s == SetOf(store.dirs[d], target.i)
                                 && At(table, View(store.dirs[d]), target.i, n.newKey) && !(d == sd && target.i == si)
    modifies store, store.vol`disk, store.vol`Data, store.vol`readFaults, store.vol`writeFaults, store.vol`writes
    ensures store.FromDevice()
    ensures store.Valid()
    ensures old(store.history) <= store.history && store.faults >= old(store.faults)
    ensures AllKept(table, store.history, |old(store.history)|, n) && Kept(table, store.dirs, n)
    ensures |store.dirs| == |old(store.dirs)|
    ensures forall c :: 0 <= c < |store.dirs| && c != d && c != sd ==> store.dirs[c] == old(store.dirs)[c]
    ensures AllSound(table, store.dirs) && (code == Ok ==> MovedMaps(table, store.dirs, old(store.dirs), n))
    ensures code == Ok ==> NewNamed(table, store.dirs, d, w, n.newKey, n.newPlace) && Bears(store.dirs[d], w, sp)
    ensures Fitted(Cleared(old(store.dirs)[d], target), sp.Len(), code, store.faults > old(store.faults))
    ensures code == ENOSPC ==> store.dirs == old(store.dirs)[d := store.dirs[d]]
                               && DirMapOf(table, store.dirs[d]) == DirMapOf(table, old(store.dirs)[d]) - {n.newKey}
    ensures Frames(table, store.history, |old(store.history)|, store.dirs, old(store.dirs), n)
  {
    hide Frames;
    hide Store.Valid, View, Shows, OldShown, NewNamed, MapOf, Unique, Key;
    hide Spec.Set, Spec.Len, At, NoneAt, SetHere, Loses, Terminated, Bears, Buried, Cleared, Room, SetOf, MovedMaps, Spec.AsEntry;
    ghost var dirs := store.dirs;
    code, w := Establish(store, table, d, target, sp, n);
    if code != Ok {
      return;
    }
    ghost var mid := store.dirs;
    NewIsApart(table, mid, n, w);
    ghost var h := store.history;
    OldIsAt(table, mid, n);
    code := Retire(store, table, sd, si, w, n);
    FramesTwice(table, store.history, h, |old(store.history)|, store.dirs, mid, dirs, n);
    if code == Ok {
      MovedAll(table, store.dirs, mid, dirs, n);
      BearsBeside(store.dirs, mid, sd, si, d, w, sp);
    }
    if store.dirs != mid {
      LostOther(store.dirs, mid, sd, si);
    }
  }

  lemma OldIsAt(table: Upcase, s: Dirs, n: Course)
    requires OldShown(table, s, n.sd, n.si, n.oldKey, n.oldPlace)
    ensures At(table, View(s[n.sd]), n.si, n.oldKey)
  {
  }

  lemma LostOther(s: Dirs, dirs: Dirs, d: nat, i: nat)
    requires d < |dirs| && i < |dirs[d]| && Loses(s, dirs, d, i)
    ensures |s| == |dirs| && forall c :: 0 <= c < |s| && c != d ==> s[c] == dirs[c]
  {
  }

  lemma MovedAll(table: Upcase, s: Dirs, mid: Dirs, dirs: Dirs, n: Course)
    requires n.sd < |mid| == |dirs| && n.d < |mid| && n.si < |mid[n.sd]| && Loses(s, mid, n.sd, n.si)
    requires Sound(table, mid[n.sd])
    requires View(mid[n.sd])[n.si].Some? && Key(table, View(mid[n.sd])[n.si].value) == n.oldKey && (n.sd == n.d ==> n.oldKey != n.newKey)
    requires DirMapOf(table, mid[n.d]) == DirMapOf(table, dirs[n.d])[n.newKey := n.newPlace]
    requires forall c :: 0 <= c < |mid| && c != n.d ==> mid[c] == dirs[c]
    ensures |s| == |dirs| && MovedMaps(table, s, dirs, n)
  {
    hide View, MapOf, Key, Unique, Terminated;
    UnlinkMap(table, s, mid, n.sd, n.si);
    if n.sd == n.d {
      var m := DirMapOf(table, dirs[n.d]);
      assert m[n.newKey := n.newPlace] - {n.oldKey} == (m - {n.oldKey})[n.newKey := n.newPlace];
    }
  }

  /** Where a directory's own set lies: nowhere for the root. */
  datatype Own = Root | Own(d: nat, i: nat)

  predicate IsOwn(c: nat, own: Own) { own.Own? && own.d == c }

  /** If a live set is where the directory's own set is said to lie, it has the given times. */
  ghost predicate Dated(s: Dirs, own: Own, times: seq<byte>) {
    own.Own? && own.d < |s| && own.i < |s[own.d]| && View(s[own.d])[own.i].Some? ==> Times(s[own.d][own.i]) == times
  }

  /** A directory's own set gets new times, if it is there to get them and no access fails; nothing else changes. */
  ghost predicate Refreshes(s: Dirs, dirs: Dirs, own: Own, times: seq<byte>, faulted: bool)
    requires own.Own? ==> own.d < |dirs|
    requires |times| == 17
  {
    match own
    case Root => s == dirs
    case Own(d, i) =>
      Redated(s, dirs, d, i, times) || (s == dirs && (faulted || !SetHere(dirs[d], i) || !Valid(SetOf(dirs[d], i))))
  }

  /** Then its times are the new ones, and so are those of any other set that had them already. */
  lemma RefreshesDates(s: Dirs, dirs: Dirs, own: Own, times: seq<byte>, faulted: bool, other: Own)
    requires |times| == 17 && (own.Own? ==> own.d < |dirs|) && Refreshes(s, dirs, own, times, faulted) && SameViews(s, dirs)
    ensures !faulted ==> Dated(s, own, times)
    ensures Dated(dirs, other, times) ==> Dated(s, other, times)
  {
    hide View, Valid, Refreshed, Times, SetHere;
    if own.Own? {
      if Redated(s, dirs, own.d, own.i, times) {
        HereInside(dirs[own.d], own.i);
        HereNotEmpty(dirs[own.d], own.i);
        RefreshedBytes(SetOf(dirs[own.d], own.i), times);
      }
      if own.i < |s[own.d]| && View(s[own.d])[own.i].Some? {
        LiveHere(dirs[own.d], own.i);
      }
    }
  }

  lemma HereNotEmpty(slots: seq<Dentry>, i: nat)
    requires SetHere(slots, i)
    ensures SetOf(slots, i) != []
  {
  }

  lemma LiveHere(slots: seq<Dentry>, i: nat)
    requires i < |slots| && View(slots)[i].Some?
    ensures SetHere(slots, i) && Valid(SetOf(slots, i))
  {
  }

  /** New times leave a set what it was made, but for them. */
  lemma MarksThrough(s: Dirs, dirs: Dirs, own: Own, times: seq<byte>, faulted: bool, d: nat, w: nat, sp: Spec)
    requires |times| == 17 && (own.Own? ==> own.d < |dirs|) && Refreshes(s, dirs, own, times, faulted) && d < |dirs| && Marks(dirs[d], w, sp)
    ensures |s| == |dirs| && Marks(s[d], w, sp)
  {
    hide Refreshed, Spec.Set, Valid, Times, Attr, Refreshes;
    HeadOnly(s, dirs, own, times, faulted, d);
    var a, b := dirs[d], s[d];
    var n := Total(a[w]);
    forall k | w < k < w + n
      ensures b[k] == a[k]
    {
      assert Secondary(a[k]);
    }
    assert b[w..w + n][1..] == a[w..w + n][1..];
  }

  /** Only the file entry of one set changes, and of it neither type nor count nor attributes. */
  lemma HeadOnly(s: Dirs, dirs: Dirs, own: Own, times: seq<byte>, faulted: bool, d: nat)
    requires |times| == 17 && (own.Own? ==> own.d < |dirs|) && Refreshes(s, dirs, own, times, faulted) && d < |dirs|
    ensures |s| == |dirs| && |s[d]| == |dirs[d]|
    ensures forall k :: 0 <= k < |s[d]| && Type(dirs[d][k]) != FILE ==> s[d][k] == dirs[d][k]
    ensures forall k :: 0 <= k < |s[d]| ==> && Type(s[d][k]) == Type(dirs[d][k]) && NumExt(s[d][k]) == NumExt(dirs[d][k])
                                            && Attr(s[d][k]) == Attr(dirs[d][k])
  {
    hide Refreshed, Valid, Times, Attr, Type, NumExt;
    if own.Own? && Redated(s, dirs, own.d, own.i, times) {
      HereInside(dirs[own.d], own.i);
      HeadIs(dirs[own.d], own.i);
      RefreshedHead(SetOf(dirs[own.d], own.i), times);
    }
  }

  lemma HeadIs(slots: seq<Dentry>, i: nat)
    requires SetHere(slots, i)
    ensures i < |slots| && Type(slots[i]) == FILE && SetOf(slots, i) != [] && SetOf(slots, i)[0] == slots[i]
  {
  }

  lemma RefreshedHead(p: seq<Dentry>, times: seq<byte>)
    requires p != [] && |times| == 17
    ensures var e := Refreshed(p, times); Type(e) == Type(p[0]) && NumExt(e) == NumExt(p[0]) && Attr(e) == Attr(p[0])
  {
    hide Refreshed, Attr;
    RefreshedBytes(p, times);
    var e := Refreshed(p, times);
    assert e[0] == e[..2][0] && e[1] == e[..2][1] && p[0][0] == p[0][..2][0] && p[0][1] == p[0][..2][1];
  }

  /** Under the given name there is the set of a directory in a run of clusters, or of a file in a chain. */
  ghost predicate KindShown(table: Upcase, slots: seq<Dentry>, key: seq<u16>, isDir: bool) {
    exists w: nat :: && At(table, View(slots), w, key) && SetHere(slots, w) && |SetOf(slots, w)| >= 3
                     && OfKind(SetOf(slots, w), isDir) && Flags(SetOf(slots, w)[1]) == if isDir then 3 else 1
  }

  lemma MarksShow(table: Upcase, slots: seq<Dentry>, w: nat, key: seq<u16>, sp: Spec)
    requires At(table, View(slots), w, key) && Marks(slots, w, sp)
    ensures KindShown(table, slots, key, sp.isDir)
  {
    hide View, Key, Attr, Flags, Spec.Set, SetHere;
    MarksKind(slots, w, sp);
  }

  method SyncOwn(store: Store, table: Upcase, own: Own, times: seq<byte>)
    requires store.Valid()
    requires AllSound(table, store.dirs) && (own.Own? ==> own.d < |store.dirs|) && |times| == 17
    modifies store, store.vol`disk, store.vol`Data, store.vol`readFaults, store.vol`writeFaults, store.vol`writes
    ensures store.FromDevice()
    ensures store.Valid()
    ensures old(store.history) <= store.history && store.faults >= old(store.faults)
    ensures AllSound(table, store.dirs) && SameViews(store.dirs, old(store.dirs))
    ensures forall j :: |old(store.history)| <= j < |store.history| ==> SameViews(store.history[j], old(store.dirs))
    ensures forall c :: 0 <= c < |store.dirs| && !IsOwn(c, own) ==> store.dirs[c] == old(store.dirs)[c]
    ensures Refreshes(store.dirs, old(store.dirs), own, times, store.faults > old(store.faults))
  {
    hide Store.Valid, View, SetHere, Valid, Unique, Tidy, Redated;
    ghost var dirs := store.dirs;
    NothingChanged(dirs);
    if own.Own? {
      var _ := SyncMetadata(store, own.d, own.i, times);
    }
    SameIsSound(table, store.dirs, dirs);
  }

  lemma SameIsSound(table: Upcase, s: Dirs, dirs: Dirs)
    requires AllSound(table, dirs) && SameViews(s, dirs)
    ensures AllSound(table, s)
  {
    hide View, Unique, Tidy, Terminated;
    forall c | 0 <= c < |s|
      ensures Sound(table, s[c])
    {
      assert KeepsView(s[c], dirs[c]) && Sound(table, dirs[c]);
    }
  }

  lemma SameKept(table: Upcase, s: Dirs, dirs: Dirs, n: Course)
    requires SameViews(s, dirs) && Kept(table, dirs, n) && AllSound(table, dirs)
    ensures Kept(table, s, n)
  {
    hide View, Shows, Terminated;
    if !OldShown(table, dirs, n.sd, n.si, n.oldKey, n.oldPlace) {
      var w: nat :| NewNamed(table, dirs, n.d, w, n.newKey, n.newPlace);
      assert NewNamed(table, s, n.d, w, n.newKey, n.newPlace);
    }
  }

  lemma NewIsKept(table: Upcase, s: Dirs, n: Course, w: nat)
    requires NewNamed(table, s, n.d, w, n.newKey, n.newPlace)
    ensures Kept(table, s, n)
  {
  }

  /** Refreshing the times of both parents keeps what the rename achieved. */
  method SyncParents(store: Store, table: Upcase, same: bool, srcOwn: Own, dstOwn: Own, times: seq<byte>,
                     ghost dirs: Dirs, ghost n: Course, ghost w: nat, ghost sp: Spec)
    requires store.Valid() && n.d < |store.dirs| && Marks(store.dirs[n.d], w, sp)
    requires AllSound(table, store.dirs) && NewNamed(table, store.dirs, n.d, w, n.newKey, n.newPlace) && |times| == 17
    requires (srcOwn.Own? ==> srcOwn.d < |store.dirs|) && (dstOwn.Own? ==> dstOwn.d < |store.dirs|)
    requires |store.dirs| == |dirs| && n.sd < |dirs| && n.d < |dirs| && MovedMaps(table, store.dirs, dirs, n)
    modifies store, store.vol`disk, store.vol`Data, store.vol`readFaults, store.vol`writeFaults, store.vol`writes
    ensures store.FromDevice()
    ensures store.Valid()
    ensures old(store.history) <= store.history && store.faults >= old(store.faults)
    ensures AllKept(table, store.history, |old(store.history)|, n)
    ensures NewNamed(table, store.dirs, n.d, w, n.newKey, n.newPlace) && AllSound(table, store.dirs)
    ensures |store.dirs| == |dirs| && MovedMaps(table, store.dirs, dirs, n)
    ensures Frames(table, store.history, |old(store.history)|, store.dirs, old(store.dirs), n)
    ensures forall c :: 0 <= c < |store.dirs| && !IsOwn(c, srcOwn) && !IsOwn(c, dstOwn) ==> store.dirs[c] == old(store.dirs)[c]
    ensures store.faults == old(store.faults) ==> Dated(store.dirs, srcOwn, times) && (same || Dated(store.dirs, dstOwn, times))
    ensures Marks(store.dirs[n.d], w, sp)
  {
    hide Frames, Marks;
    hide Store.Valid, View, Terminated, Kept, MapOf, Shows, Refreshes, Dated;
    NewIsKept(table, store.dirs, n, w);
    ghost var h0, s0 := store.history, store.dirs;
    SyncOwn(store, table, srcOwn, times);
    ghost var h1, s1, f1 := store.history, store.dirs, store.faults;
    FramesSame(table, h1, |h0|, s1, s0, n);
    RefreshesDates(s1, s0, srcOwn, times, f1 > old(store.faults), dstOwn);
    MarksThrough(s1, s0, srcOwn, times, f1 > old(store.faults), n.d, w, sp);
    forall j | |h0| <= j < |h1|
      ensures Kept(table, h1[j], n)
    {
      SameKept(table, h1[j], s0, n);
    }
    SameKept(table, s1, s0, n);
    if !same {
      SyncOwn(store, table, dstOwn, times);
      RefreshesDates(store.dirs, s1, dstOwn, times, store.faults > f1, srcOwn);
      MarksThrough(store.dirs, s1, dstOwn, times, store.faults > f1, n.d, w, sp);
      FramesSame(table, store.history, |h1|, store.dirs, s1, n);
      FramesTwice(table, store.history, h1, |h0|, store.dirs, s1, s0, n);
      forall j | |h0| <= j < |store.history|
        ensures Kept(table, store.history[j], n)
      {
        if j >= |h1| {
          SameKept(table, store.history[j], s1, n);
        } else {
          assert store.history[j] == h1[j];
        }
      }
      SameKept(table, store.dirs, s1, n);
    }
  }

  /** The course of a rename, from what is on disk and what the driver holds in memory. */
  ghost function Plan(table: Upcase, dirs: Dirs, sd: nat, si: nat, d: nat, name: seq<u16>, start: u32, size: u64): Course
    requires sd < |dirs| && si < |dirs[sd]| && View(dirs[sd])[si].Some?
  {
    var e := View(dirs[sd])[si].value;
    Course(sd, si, Key(table, e), PlaceOf(e), d, Fold(table, name), Place(start, size), Entry(name, start, size))
  }

  /** The new name folds to the old one in the same directory, but the entry on disk names another first
      cluster than the driver holds: the test for renaming a file onto itself does not recognise it. */
  predicate Clash(n: Course) { n.sd == n.d && n.oldKey == n.newKey && n.oldPlace.start != n.newPlace.start }

  lemma OldAtStart(table: Upcase, dirs: Dirs, sd: nat, si: nat, d: nat, name: seq<u16>, start: u32, size: u64)
    requires sd < |dirs| && Sound(table, dirs[sd]) && si < |dirs[sd]| && View(dirs[sd])[si].Some?
    ensures var n := Plan(table, dirs, sd, si, d, name, start, size);
            OldShown(table, dirs, sd, si, n.oldKey, n.oldPlace)
  {
    hide View, Key;
  }

  /** What the scan found, in terms of the view. */
  lemma Resolved(table: Upcase, slots: seq<Dentry>, target: Target, key: seq<u16>)
    requires !target.Failed?
    requires target.Present? ==> SetHere(slots, target.i) && target.s == SetOf(slots, target.i) && |target.s| >= 3 && Answers(table, slots, target.i, key)
    requires target.Absent? ==> forall j :: 0 <= j < |slots| ==> !Answers(table, slots, j, key)
    ensures target.Absent? ==> NoneAt(table, View(slots), key)
    ensures target.Present? ==> At(table, View(slots), target.i, key) && View(slots)[target.i].value.start == StartClu(target.s[1])
  {
    hide Fold, Valid, Named, NameOf, Answers;
    forall j: nat
      ensures target.Absent? ==> !At(table, View(slots), j, key)
    {
      AnswersAt(table, slots, j, key);
    }
    if target.Present? {
      AnswersAt(table, slots, target.i, key);
    }
  }

  /** A target in the source's own slot means the folded names are equal, and the other way round. */
  lemma SelfTarget(table: Upcase, dirs: Dirs, n: Course, target: Target)
    requires n.d < |dirs| && Sound(table, dirs[n.d]) && n.sd < |dirs| && !target.Failed?
    requires Shows(table, View(dirs[n.sd]), n.si, n.oldKey, n.oldPlace)
    requires target.Absent? ==> NoneAt(table, View(dirs[n.d]), n.newKey)
    requires target.Present? ==> At(table, View(dirs[n.d]), target.i, n.newKey)
    ensures n.sd == n.d ==> ((target.Present? && target.i == n.si) <==> n.oldKey == n.newKey)
  {
    hide View, Key;
    assert At(table, View(dirs[n.sd]), n.si, n.oldKey);
  }

  /** The first directory that starts at cluster c; their number, if there is none. */
  function HomeOf(starts: seq<nat>, c: nat): (k: nat)
    ensures k <= |starts| && (k < |starts| ==> starts[k] == c) && forall j :: 0 <= j < k ==> starts[j] != c
  {
    if starts == [] || starts[0] == c then 0 else 1 + HomeOf(starts[1..], c)
  }

  /** The set of a directory, or of a file, as the attributes say. */
  predicate OfKind(s: seq<Dentry>, isDir: bool)
    requires |s| >= 1
  {
    (Attr(s[0]) / ATTR_SUBDIR % 2 == 1) == isDir
  }

  /** The set of a directory with clusters. */
  predicate Rooted(s: seq<Dentry>, isDir: bool)
    requires |s| >= 2
  {
    OfKind(s, isDir) && isDir && StartClu(s[1]) != 0xFFFF_FFFF && StartClu(s[1]) >= 2
  }

  /** It starts where no directory at hand does. */
  predicate Homeless(s: seq<Dentry>, isDir: bool, starts: seq<nat>)
    requires |s| >= 2
  {
    Rooted(s, isDir) && HomeOf(starts, StartClu(s[1]) as nat) == |starts|
  }

  /** The directory that starts there holds a file entry. */
  predicate Holding(s: seq<Dentry>, isDir: bool, starts: seq<nat>, dirs: Dirs)
    requires |s| >= 2 && |starts| == |dirs|
  {
    Rooted(s, isDir) && var c := HomeOf(starts, StartClu(s[1]) as nat); c < |dirs| && HoldsFile(dirs[c])
  }

  predicate HoldsFile(slots: seq<Dentry>) {
    exists j :: 0 <= j < |slots| && Type(slots[j]) == FILE
  }

  /** A target that may be overwritten: of the source's kind, and if it is a directory with clusters, the directory
      that starts at the first of them holds no file entry. */
  predicate Admits(s: seq<Dentry>, isDir: bool, starts: seq<nat>, dirs: Dirs)
    requires |s| >= 2 && |starts| == |dirs|
  {
    OfKind(s, isDir) && !Homeless(s, isDir, starts) && !Holding(s, isDir, starts, dirs)
  }

  /** How the checks of a target come out; a failed access may stand for any of the reasons. */
  predicate Checked(s: seq<Dentry>, isDir: bool, starts: seq<nat>, dirs: Dirs, code: Code, faulted: bool)
    requires |s| >= 2 && |starts| == |dirs|
  {
    || (faulted && code == EIO)
    || (&& (code == Ok <==> Admits(s, isDir, starts, dirs))
        && (code == ENOTDIR <==> isDir && !OfKind(s, isDir)) && (code == EISDIR <==> !isDir && !OfKind(s, isDir))
        && (code == ENOTEMPTY <==> Holding(s, isDir, starts, dirs)) && (code == EIO <==> Homeless(s, isDir, starts)))
  }

  /** Phases 1.3 and 1.4: resolves the target, and says whether the rename is to go on. */
  method Prepare(store: Store, table: Upcase, d: nat, name: seq<u16>, same: bool, entry: nat, start: u32,
                 isDir: bool)
    returns (code: Code, go: bool, target: Target)
    requires store.Valid()
    requires d < |store.dirs| && AllSound(table, store.dirs)
    modifies store`faults, store.vol`readFaults
    ensures store.FromDevice()
    ensures store.faults >= old(store.faults)
    ensures target.Present? ==> SetHere(store.dirs[d], target.i) && target.s == SetOf(store.dirs[d], target.i) && |target.s| >= 3
                                && Answers(table, store.dirs[d], target.i, Fold(table, name))
    ensures target.Absent? ==>
              forall j :: 0 <= j < |store.dirs[d]| ==> !Answers(table, store.dirs[d], j, Fold(table, name))
    ensures go ==> code == Ok && !target.Failed? && (target.Present? && same && target.i == entry ==> StartClu(target.s[1]) != start)
    ensures !go && code == Ok ==> target.Present? && same && target.i == entry && StartClu(target.s[1]) == start
    ensures if target.Failed? then !go && (store.faults > old(store.faults) || !Reaches(table, store.dirs[d], Fold(table, name)))
            else Reaches(table, store.dirs[d], Fold(table, name))
    ensures target.Absent? ==> go
    ensures target.Present? && same && target.i == entry && StartClu(target.s[1]) == start ==> code == Ok && !go
    ensures code != ENOSPC && (target.Failed? ==> code == EIO)
    ensures target.Present? && !(same && target.i == entry && StartClu(target.s[1]) == start) ==>
              && |store.Starts()| == |store.dirs| && (go <==> code == Ok)
              && Checked(target.s, isDir, store.Starts(), store.dirs, code, store.faults > old(store.faults))
  {
    hide Store.Valid, Fold, Answers, SetHere, Tidy, Unique, View, Reaches;
    go := false;
    assert store.Number() == |store.Starts()|;
    target := Resolve(store, table, d, name);
    if target.Failed? {
      return EIO, false, target;
    }
    if target.Absent? {
      return Ok, true, target;
    }
    var first, isDirTarget := StartClu(target.s[1]), Attr(target.s[0]) / ATTR_SUBDIR % 2 == 1;
    if same && target.i == entry && first == start {
      return Ok, false, target;
    }
    if isDirTarget != isDir {
      return if isDir then ENOTDIR else EISDIR, false, target;
    }
    if isDirTarget && first != 0xFFFF_FFFF && first >= 2 {
      var c := HomeOf(store.Starts(), first as nat);
      if c == store.Number() {
        return EIO, false, target;
      }
      code := CheckEmpty(store, c);
      if code != Ok {
        return;
      }
    }
    return Ok, true, target;
  }

  /** What a rename leaves: after every write and at the end, the file under its old or its new name.  In the
      clash case the first write already takes it away, and success leaves it under neither name. */
  ghost predicate Outcome(table: Upcase, hist: seq<Dirs>, from: nat, s: Dirs, dirs: Dirs, n: Course, code: Code, dir: nat, entry: nat)
    requires |s| == |dirs| && n.sd < |dirs| && n.d < |dirs|
  {
    if !Clash(n) then
      && AllKept(table, hist, from, n) && Kept(table, s, n)
      && (code == Ok ==> MovedMaps(table, s, dirs, n) || (n.sd == n.d && n.oldKey == n.newKey && s == dirs))
      && (code == Ok ==> dir == n.d && At(table, View(s[n.d]), entry, n.newKey))
    else
      && (|hist| > from ==> n.sd < |hist[from]| && NoneAt(table, View(hist[from][n.sd]), n.oldKey))
      && (code == Ok ==> NoneAt(table, View(s[n.sd]), n.oldKey))
  }

  /** A directory that is neither of the two, nor holds the set of either. */
  predicate Aside(c: nat, n: Course, srcOwn: Own, dstOwn: Own) {
    c != n.sd && c != n.d && !IsOwn(c, srcOwn) && !IsOwn(c, dstOwn)
  }

  /** Phases 1.5 to 1.10 when the target is the source itself. */
  method CarrySelf(store: Store, table: Upcase, src: Source, target: Target, sp: Spec, srcOwn: Own, times: seq<byte>, ghost n: Course)
    returns (code: Code)
    requires store.Valid() && n.sd == n.d == src.dir < |store.dirs| && n.si == src.entry && Clash(n) && |times| == 17
    requires srcOwn.Own? ==> srcOwn.d < |store.dirs|
    requires sp.Ok() && 0 !in sp.name && AllSound(table, store.dirs)
    requires n.newKey == Key(table, sp.AsEntry()) && n.newPlace == PlaceOf(sp.AsEntry()) && n.entry == sp.AsEntry()
    requires target.Present? && target.i == n.si && SetHere(store.dirs[n.d], target.i) && target.s == SetOf(store.dirs[n.d], target.i)
    requires At(table, View(store.dirs[n.d]), target.i, n.newKey)
    modifies store, src, store.vol`disk, store.vol`Data, store.vol`readFaults, store.vol`writeFaults, store.vol`writes
    ensures store.FromDevice()
    ensures store.Valid()
    ensures old(store.history) <= store.history && |store.dirs| == |old(store.dirs)| && AllSound(table, store.dirs)
    ensures |store.history| > |old(store.history)| ==>
              n.sd < |store.history[|old(store.history)|]| && NoneAt(table, View(store.history[|old(store.history)|][n.sd]), n.oldKey)
    ensures code == Ok ==> NoneAt(table, View(store.dirs[n.sd]), n.oldKey)
    ensures store.faults >= old(store.faults)
    ensures store.faults == old(store.faults) ==>
              && |store.history| > |old(store.history)|
              && if LandsOn(old(store.dirs)[n.sd], n.si, sp.Len()) then code == Ok else code == EIO && Kept(table, store.dirs, n)
    ensures Landed(old(store.dirs)[n.sd], n.si, sp.Len(), code, store.faults > old(store.faults))
    ensures Frames(table, store.history, |old(store.history)|, store.dirs, old(store.dirs), n)
    ensures forall c :: 0 <= c < |store.dirs| && c != n.d && (!IsOwn(c, srcOwn) || code != Ok) ==> store.dirs[c] == old(store.dirs)[c]
    ensures code == Ok && store.faults == old(store.faults) ==> Dated(store.dirs, srcOwn, times)
  {
    hide Refreshes, Dated;
    hide Store.Valid, View, MapOf, Unique, Key, At, NoneAt, SetHere, Terminated, Kept, Spec.Ok, Sound, SameViews, LandsOn, Spec.Len;
    hide Frames, NewNamed;
    ghost var dirs := store.dirs;
    var w;
    code, w := OntoSelf(store, table, src.dir, target.i, target.s, sp, n);
    OtherSound(table, store.dirs, dirs, n.d);
    if code == Ok {
      src.entry := w;
      ghost var gone, mid, f := store.dirs, store.history, store.faults;
      SyncOwn(store, table, srcOwn, times);
      RefreshesDates(store.dirs, gone, srcOwn, times, store.faults > f, srcOwn);
      FramesSame(table, store.history, |mid|, store.dirs, gone, n);
      FramesTwice(table, store.history, mid, |old(store.history)|, store.dirs, gone, dirs, n);
      StillNone(table, store.dirs, gone, n.d, n.newKey);
      assert store.history[|old(store.history)|] == mid[|old(store.history)|];
    } else if NewNamed(table, store.dirs, n.d, w, n.newKey, n.newPlace) {
      NewIsKept(table, store.dirs, n, w);
    }
  }

  /** Phases 1.5 to 1.10 for any other target. */
  method CarryOver(store: Store, table: Upcase, src: Source, d: nat, target: Target, sp: Spec,
                   srcOwn: Own, dstOwn: Own, times: seq<byte>, ghost n: Course) returns (code: Code)
    requires store.Valid()
    requires n.sd == src.dir < |store.dirs| && n.si == src.entry && n.d == d < |store.dirs| && |times| == 17
    requires (srcOwn.Own? ==> srcOwn.d < |store.dirs|) && (dstOwn.Own? ==> dstOwn.d < |store.dirs|)
    requires sp.Ok() && 0 !in sp.name && AllSound(table, store.dirs) && !target.Failed? && (n.sd == n.d ==> n.oldKey != n.newKey)
    requires n.newKey == Key(table, sp.AsEntry()) && n.newPlace == PlaceOf(sp.AsEntry()) && n.entry == sp.AsEntry()
    requires OldShown(table, store.dirs, n.sd, n.si, n.oldKey, n.oldPlace)
    requires target.Absent? ==> NoneAt(table, View(store.dirs[d]), n.newKey)
    requires target.Present? ==> && SetHere(store.dirs[d], target.i) && target.s == SetOf(store.dirs[d], target.i)
                                 && At(table, View(store.dirs[d]), target.i, n.newKey) && !(d == n.sd && target.i == n.si)
    modifies store, src, store.vol`disk, store.vol`Data, store.vol`readFaults, store.vol`writeFaults, store.vol`writes
    ensures store.FromDevice()
    ensures store.Valid()
    ensures old(store.history) <= store.history && |store.dirs| == |old(store.dirs)| && AllSound(table, store.dirs)
    ensures AllKept(table, store.history, |old(store.history)|, n) && Kept(table, store.dirs, n)
    ensures code == Ok ==> MovedMaps(table, store.dirs, old(store.dirs), n) && src.dir == n.d && At(table, View(store.dirs[n.d]), src.entry, n.newKey)
    ensures store.faults >= old(store.faults)
    ensures Fitted(Cleared(old(store.dirs)[d], target), sp.Len(), code, store.faults > old(store.faults))
    ensures code == ENOSPC ==> store.dirs == old(store.dirs)[d := store.dirs[d]]
                               && DirMapOf(table, store.dirs[d]) == DirMapOf(table, old(store.dirs)[d]) - {n.newKey}
    ensures Frames(table, store.history, |old(store.history)|, store.dirs, old(store.dirs), n)
    ensures forall c :: 0 <= c < |store.dirs| && Aside(c, n, srcOwn, dstOwn) ==> store.dirs[c] == old(store.dirs)[c]
    ensures code != Ok ==> forall c :: 0 <= c < |store.dirs| && c != n.sd && c != n.d ==> store.dirs[c] == old(store.dirs)[c]
    ensures code == Ok && store.faults == old(store.faults) ==>
              Dated(store.dirs, srcOwn, times) && (n.sd == n.d || Dated(store.dirs, dstOwn, times))
    ensures code == Ok ==> Marks(store.dirs[n.d], src.entry, sp)
  {
    hide Frames, Dated, Marks, Bears;
    hide Store.Valid, View, Shows, OldShown, NewNamed, MapOf, Unique, Key, At;
    hide NoneAt, SetHere, Terminated, Kept, MovedMaps, Spec.Ok, Sound, SameViews, LandsOn, Spec.Len, Room, Cleared, SetOf, AllKept;
    ghost var dirs := store.dirs;
    var same, w := src.dir == d, 0;
    code, w := Move(store, table, target, sp, src.dir, src.entry, d, n);
    if code == Ok {
      src.dir, src.entry := d, w;
      ghost var mid, moved := store.history, store.dirs;
      BearsMarks(store.dirs[d], w, sp);
      SyncParents(store, table, same, srcOwn, dstOwn, times, dirs, n, w, sp);
      FramesTwice(table, store.history, mid, |old(store.history)|, store.dirs, moved, dirs, n);
      JoinKept(table, store.history, mid, |old(store.history)|, n);
      NewIsKept(table, store.dirs, n, w);
      NewIsAt(table, store.dirs, n, w);
    }
  }

  /** Phases 1.5 to 1.10. */
  method Carry(store: Store, table: Upcase, src: Source, d: nat, target: Target, sp: Spec,
               srcOwn: Own, dstOwn: Own, times: seq<byte>, ghost n: Course) returns (code: Code)
    requires store.Valid()
    requires n.sd == src.dir < |store.dirs| && n.si == src.entry && n.d == d < |store.dirs| && |times| == 17
    requires (srcOwn.Own? ==> srcOwn.d < |store.dirs|) && (dstOwn.Own? ==> dstOwn.d < |store.dirs|)
    requires sp.Ok() && 0 !in sp.name && AllSound(table, store.dirs) && !target.Failed?
    requires n.newKey == Key(table, sp.AsEntry()) && n.newPlace == PlaceOf(sp.AsEntry()) && n.entry == sp.AsEntry()
    requires OldShown(table, store.dirs, n.sd, n.si, n.oldKey, n.oldPlace)
    requires target.Absent? ==> NoneAt(table, View(store.dirs[d]), n.newKey)
    requires target.Present? ==> && SetHere(store.dirs[d], target.i) && target.s == SetOf(store.dirs[d], target.i)
                                 && At(table, View(store.dirs[d]), target.i, n.newKey)
    requires n.sd == n.d ==> ((target.Present? && target.i == n.si) <==> n.oldKey == n.newKey)
    requires n.sd == n.d && n.oldKey == n.newKey ==> Clash(n)
    modifies store, src, store.vol`disk, store.vol`Data, store.vol`readFaults, store.vol`writeFaults, store.vol`writes
    ensures store.FromDevice()
    ensures store.Valid()
    ensures old(store.history) <= store.history && |store.dirs| == |old(store.dirs)| && AllSound(table, store.dirs)
    ensures Outcome(table, store.history, |old(store.history)|, store.dirs, old(store.dirs), n, code, src.dir, src.entry)
    ensures store.faults >= old(store.faults)
    ensures Clash(n) && store.faults == old(store.faults) ==>
              && |store.history| > |old(store.history)| && SetHere(old(store.dirs)[n.sd], n.si)
              && if LandsOn(old(store.dirs)[n.sd], n.si, sp.Len()) then code == Ok else code == EIO && Kept(table, store.dirs, n)
    ensures !Clash(n) ==> Fitted(Cleared(old(store.dirs)[d], target), sp.Len(), code, store.faults > old(store.faults))
    ensures code == Ok || code == EIO || code == ENOSPC
    ensures code == ENOSPC ==> store.dirs == old(store.dirs)[d := store.dirs[d]]
                               && DirMapOf(table, store.dirs[d]) == DirMapOf(table, old(store.dirs)[d]) - {n.newKey}
    ensures Clash(n) ==> SetHere(old(store.dirs)[n.sd], n.si) && Landed(old(store.dirs)[n.sd], n.si, sp.Len(), code, store.faults > old(store.faults))
    ensures Frames(table, store.history, |old(store.history)|, store.dirs, old(store.dirs), n)
    ensures forall c :: 0 <= c < |store.dirs| && Aside(c, n, srcOwn, dstOwn) ==> store.dirs[c] == old(store.dirs)[c]
    ensures code != Ok ==> forall c :: 0 <= c < |store.dirs| && c != n.sd && c != n.d ==> store.dirs[c] == old(store.dirs)[c]
    ensures code == Ok && store.faults == old(store.faults) ==>
              Dated(store.dirs, srcOwn, times) && (n.sd == n.d || Dated(store.dirs, dstOwn, times))
    ensures code == Ok && !Clash(n) ==> Marks(store.dirs[n.d], src.entry, sp)
  {
    hide Frames, Dated, Marks, Bears;
    hide Store.Valid, View, Shows, OldShown, NewNamed, MapOf, Unique, Key, At;
    hide NoneAt, SetHere, Terminated, Kept, MovedMaps, Spec.Ok, Sound, SameViews, LandsOn, Spec.Len, Room, Cleared;
    hide DirMapOf, Spec.AsEntry, AllKept, SetOf, AllSound, Fitted;
    if target.Present? && src.dir == d && target.i == src.entry {
      code := CarrySelf(store, table, src, target, sp, srcOwn, times, n);
    } else {
      code := CarryOver(store, table, src, d, target, sp, srcOwn, dstOwn, times, n);
      FittedCodes(Cleared(old(store.dirs)[d], target), sp.Len(), code, store.faults > old(store.faults));
    }
  }

  lemma FittedCodes(slots: seq<Dentry>, n: nat, code: Code, faulted: bool)
    requires Fitted(slots, n, code, faulted)
    ensures code == Ok || code == EIO || code == ENOSPC
  {
    hide Room;
  }

  /** The rename gets past its checks: the scan for the new name comes through, and what answers to that name
      may be overwritten. */
  ghost predicate Opens(table: Upcase, dirs: Dirs, n: Course, isDir: bool, starts: seq<nat>)
    requires n.d < |dirs| && |starts| == |dirs|
  {
    && Reaches(table, dirs[n.d], n.newKey)
    && forall t: nat :: At(table, View(dirs[n.d]), t, n.newKey) ==>
         SetHere(dirs[n.d], t) && |SetOf(dirs[n.d], t)| >= 2 && Admits(SetOf(dirs[n.d], t), isDir, starts, dirs)
  }

  /** The new set, of `len` slots, finds room once what answers to the new name is tombstoned. */
  ghost predicate Finds(table: Upcase, slots: seq<Dentry>, key: seq<u16>, len: nat) {
    && (NoneAt(table, View(slots), key) ==> Room(slots, len))
    && forall t: nat :: At(table, View(slots), t, key) ==>
         SetHere(slots, t) && Room(Splice(slots, t, Tombstones(SetOf(slots, t))), len)
  }

  /** What turns a clash into the loss of the file: the rename gets past its checks, and the new set, of `len`
      slots, lands on the old one. */
  ghost predicate Forfeits(table: Upcase, dirs: Dirs, n: Course, isDir: bool, starts: seq<nat>, len: nat)
    requires n.d < |dirs| && n.sd < |dirs| && |starts| == |dirs|
  {
    Opens(table, dirs, n, isDir, starts) && SetHere(dirs[n.sd], n.si) && LandsOn(dirs[n.sd], n.si, len)
  }

  /** Exactly when a rename whose accesses all succeed reports success. */
  ghost predicate Completes(table: Upcase, dirs: Dirs, n: Course, isDir: bool, starts: seq<nat>, len: nat)
    requires n.sd < |dirs| && n.d < |dirs| && |starts| == |dirs| && len > 0
  {
    if Clash(n) then Forfeits(table, dirs, n, isDir, starts, NumEntries(len))
    else if n.sd == n.d && n.oldKey == n.newKey then Reaches(table, dirs[n.d], n.newKey)
    else Opens(table, dirs, n, isDir, starts) && Finds(table, dirs[n.d], n.newKey, NumEntries(len))
  }

  /** Slot t holds a set that answers to the new name. */
  ghost predicate Facing(table: Upcase, dirs: Dirs, n: Course, t: nat)
    requires n.d < |dirs|
  {
    At(table, View(dirs[n.d]), t, n.newKey) && SetHere(dirs[n.d], t) && |SetOf(dirs[n.d], t)| >= 2
  }

  /** What answers to the new name is a file where the source is a directory, or the other way round. */
  ghost predicate Crossed(table: Upcase, dirs: Dirs, n: Course, isDir: bool)
    requires n.d < |dirs|
  {
    Reaches(table, dirs[n.d], n.newKey) && exists t: nat :: Facing(table, dirs, n, t) && !OfKind(SetOf(dirs[n.d], t), isDir)
  }

  /** It is a directory like the source, and holds a file entry. */
  ghost predicate Occupied(table: Upcase, dirs: Dirs, n: Course, isDir: bool, starts: seq<nat>)
    requires n.d < |dirs| && |starts| == |dirs|
  {
    Reaches(table, dirs[n.d], n.newKey) && exists t: nat :: Facing(table, dirs, n, t) && Holding(SetOf(dirs[n.d], t), isDir, starts, dirs)
  }

  /** It is a directory like the source, and none at hand starts at its first cluster. */
  ghost predicate Unhoused(table: Upcase, dirs: Dirs, n: Course, isDir: bool, starts: seq<nat>)
    requires n.d < |dirs| && |starts| == |dirs|
  {
    Reaches(table, dirs[n.d], n.newKey) && exists t: nat :: Facing(table, dirs, n, t) && Homeless(SetOf(dirs[n.d], t), isDir, starts)
  }

  /** A file is renamed to a name that folds to its own, and is recognised. */
  predicate Selfsame(n: Course) { n.sd == n.d && n.oldKey == n.newKey && !Clash(n) }

  /** The new set has no place where the source's is: in a clash it lands before the old one, otherwise the directory
      has no slots at all. */
  ghost predicate Astray(dirs: Dirs, n: Course, len: nat)
    requires n.sd < |dirs| && n.d < |dirs|
  {
    if Clash(n) then SetHere(dirs[n.sd], n.si) && !LandsOn(dirs[n.sd], n.si, len) else dirs[n.d] == []
  }

  /** Each result of a rename has its reason in the directories as they were, and only that one; a failed access
      may stand for any of them. */
  ghost predicate Coded(table: Upcase, dirs: Dirs, n: Course, isDir: bool, starts: seq<nat>, len: nat, code: Code, faulted: bool)
    requires n.sd < |dirs| && n.d < |dirs| && |starts| == |dirs| && len > 0
  {
    || (faulted && code == EIO)
    || (&& (code == Ok <==> Completes(table, dirs, n, isDir, starts, len))
        && (code == ENOTDIR <==> !Selfsame(n) && isDir && Crossed(table, dirs, n, isDir))
        && (code == EISDIR <==> !Selfsame(n) && !isDir && Crossed(table, dirs, n, isDir))
        && (code == ENOTEMPTY <==> !Selfsame(n) && Occupied(table, dirs, n, isDir, starts))
        && (code == ENOSPC <==> && !Selfsame(n) && !Clash(n) && Opens(table, dirs, n, isDir, starts) && dirs[n.d] != []
                                && !Finds(table, dirs[n.d], n.newKey, NumEntries(len)))
        && (code == EIO <==>
              || !Reaches(table, dirs[n.d], n.newKey)
              || (!Selfsame(n) && Unhoused(table, dirs, n, isDir, starts))
              || (!Selfsame(n) && Opens(table, dirs, n, isDir, starts) && Astray(dirs, n, NumEntries(len)))))
  }

  /** A rename that is refused writes nothing, one that finds no room has only taken the target away, and none that
      fails has touched a third directory. */
  ghost predicate Spared(table: Upcase, s: Dirs, dirs: Dirs, n: Course, code: Code, wrote: bool)
    requires |s| == |dirs| && n.d < |dirs|
  {
    && (code == ENAMETOOLONG || code == ENOTDIR || code == EISDIR || code == ENOTEMPTY ==> s == dirs && !wrote)
    && (code == ENOSPC ==> s == dirs[n.d := s[n.d]] && DirMapOf(table, s[n.d]) == DirMapOf(table, dirs[n.d]) - {n.newKey})
    && (code != Ok ==> forall c :: 0 <= c < |s| && c != n.sd && c != n.d ==> s[c] == dirs[c])
  }

  lemma SparedStill(table: Upcase, dirs: Dirs, n: Course, code: Code)
    requires n.d < |dirs| && code != ENOSPC
    ensures Spared(table, dirs, dirs, n, code, false)
  {
  }

  lemma SparedOnce(table: Upcase, s: Dirs, dirs: Dirs, n: Course, code: Code, wrote: bool)
    requires |s| == |dirs| && n.d < |dirs| && (code == Ok || code == EIO || code == ENOSPC)
    requires code == ENOSPC ==> s == dirs[n.d := s[n.d]] && DirMapOf(table, s[n.d]) == DirMapOf(table, dirs[n.d]) - {n.newKey}
    requires code != Ok ==> forall c :: 0 <= c < |s| && c != n.sd && c != n.d ==> s[c] == dirs[c]
    ensures Spared(table, s, dirs, n, code, wrote)
  {
  }

  /** What a rename whose accesses all succeed leaves, and what every state on the way showed. */
  ghost predicate Told(table: Upcase, hist: seq<Dirs>, from: nat, s: Dirs, dirs: Dirs, n: Course, isDir: bool, starts: seq<nat>, len: nat)
    requires |s| == |dirs| && n.sd < |dirs| && n.d < |dirs| && |starts| == |dirs|
  {
    && (Clash(n) ==> && (if Forfeits(table, dirs, n, isDir, starts, len) then NoneAt(table, View(s[n.sd]), n.oldKey) else Kept(table, s, n))
                     && (|hist| > from <==> Opens(table, dirs, n, isDir, starts)))
    && (AllKept(table, hist, from, n) <==> !(Clash(n) && Opens(table, dirs, n, isDir, starts)))
    && (Selfsame(n) ==> s == dirs)
  }

  /** What answers to the new name is the target that was resolved. */
  lemma FacingTarget(table: Upcase, dirs: Dirs, n: Course, target: Target)
    requires n.d < |dirs| && Sound(table, dirs[n.d]) && Resolves(table, dirs, n, target)
    ensures forall t: nat :: Facing(table, dirs, n, t) <==> target.Present? && t == target.i
  {
    hide View, Key, SetHere, Reaches, Tidy, Terminated;
  }

  /** The target that answers to the new name. */
  ghost predicate Resolves(table: Upcase, dirs: Dirs, n: Course, target: Target)
    requires n.d < |dirs|
  {
    && !target.Failed? && Reaches(table, dirs[n.d], n.newKey)
    && (target.Absent? ==> NoneAt(table, View(dirs[n.d]), n.newKey))
    && (target.Present? ==> && SetHere(dirs[n.d], target.i) && target.s == SetOf(dirs[n.d], target.i) && |target.s| >= 2
                            && At(table, View(dirs[n.d]), target.i, n.newKey))
  }

  /** The reasons, in terms of the target. */
  lemma ReasonsFor(table: Upcase, dirs: Dirs, n: Course, isDir: bool, starts: seq<nat>, target: Target)
    requires n.d < |dirs| && |starts| == |dirs| && Sound(table, dirs[n.d]) && Resolves(table, dirs, n, target)
    ensures Crossed(table, dirs, n, isDir) <==> target.Present? && !OfKind(target.s, isDir)
    ensures Occupied(table, dirs, n, isDir, starts) <==> target.Present? && Holding(target.s, isDir, starts, dirs)
    ensures Unhoused(table, dirs, n, isDir, starts) <==> target.Present? && Homeless(target.s, isDir, starts)
    ensures Opens(table, dirs, n, isDir, starts) <==> target.Absent? || Admits(target.s, isDir, starts, dirs)
  {
    hide View, Key, SetHere, Reaches, Tidy, Terminated, Sound, Facing, OfKind, Holding, Homeless;
    FacingTarget(table, dirs, n, target);
    OpensFor(table, dirs, n, isDir, starts, target);
  }

  /** The scan did not come through. */
  lemma CodedFailed(table: Upcase, dirs: Dirs, n: Course, isDir: bool, starts: seq<nat>, len: nat, faulted: bool)
    requires n.sd < |dirs| && n.d < |dirs| && |starts| == |dirs| && len > 0 && (faulted || !Reaches(table, dirs[n.d], n.newKey))
    ensures Coded(table, dirs, n, isDir, starts, len, EIO, faulted)
  {
    hide View, Reaches, Finds, Astray, NumEntries, Facing, LandsOn;
  }

  /** The target was refused, or is the source. */
  lemma CodedChecked(table: Upcase, dirs: Dirs, n: Course, isDir: bool, starts: seq<nat>, len: nat, target: Target, code: Code, faulted: bool)
    requires n.sd < |dirs| && n.d < |dirs| && |starts| == |dirs| && len > 0 && Sound(table, dirs[n.d]) && Resolves(table, dirs, n, target)
    requires if Selfsame(n) then code == Ok
             else code != Ok && target.Present? && Checked(target.s, isDir, starts, dirs, code, faulted)
    ensures Coded(table, dirs, n, isDir, starts, len, code, faulted)
  {
    hide View, Reaches, Finds, NumEntries, Facing, LandsOn, Opens, Crossed, Occupied, Unhoused, Sound;
    ReasonsFor(table, dirs, n, isDir, starts, target);
  }

  /** The rename was carried out as far as it went. */
  lemma CodedCarried(table: Upcase, dirs: Dirs, n: Course, isDir: bool, starts: seq<nat>, len: nat, target: Target, code: Code, faulted: bool)
    requires n.sd < |dirs| && n.d < |dirs| && |starts| == |dirs| && len > 0 && Sound(table, dirs[n.d]) && Resolves(table, dirs, n, target)
    requires !Selfsame(n) && (target.Present? ==> Admits(target.s, isDir, starts, dirs))
    requires if Clash(n) then SetHere(dirs[n.sd], n.si) && Landed(dirs[n.sd], n.si, NumEntries(len), code, faulted)
             else Fitted(Cleared(dirs[n.d], target), NumEntries(len), code, faulted)
    ensures Coded(table, dirs, n, isDir, starts, len, code, faulted)
  {
    hide View, Reaches, Finds, NumEntries, Facing, LandsOn, Opens, Crossed, Occupied, Unhoused, Sound, SetHere, Room, Splice;
    ReasonsFor(table, dirs, n, isDir, starts, target);
    FindsFor(table, dirs, n, target, NumEntries(len));
    ClearedLength(dirs[n.d], target);
  }

  lemma ClearedLength(slots: seq<Dentry>, target: Target)
    requires target.Present? ==> SetHere(slots, target.i)
    ensures |Cleared(slots, target)| == |slots|
  {
  }

  /** A rename that wrote nothing. */
  lemma ToldStill(table: Upcase, hist: seq<Dirs>, dirs: Dirs, n: Course, isDir: bool, starts: seq<nat>, len: nat)
    requires n.sd < |dirs| && n.d < |dirs| && |starts| == |dirs| && Kept(table, dirs, n) && (Clash(n) ==> !Opens(table, dirs, n, isDir, starts))
    ensures Told(table, hist, |hist|, dirs, dirs, n, isDir, starts, len)
  {
    hide Kept, Opens, View, LandsOn;
  }

  /** One that was carried out. */
  lemma ToldCarried(table: Upcase, hist: seq<Dirs>, from: nat, s: Dirs, dirs: Dirs, n: Course, isDir: bool, starts: seq<nat>, len: nat)
    requires |s| == |dirs| && n.sd < |dirs| && n.d < |dirs| && |starts| == |dirs| && Opens(table, dirs, n, isDir, starts) && !Selfsame(n)
    requires !Clash(n) ==> AllKept(table, hist, from, n)
    requires Clash(n) ==> && from < |hist| && n.sd < |hist[from]| && NoneAt(table, View(hist[from][n.sd]), n.oldKey)
                          && SetHere(dirs[n.sd], n.si)
                          && if LandsOn(dirs[n.sd], n.si, len) then NoneAt(table, View(s[n.sd]), n.oldKey) else Kept(table, s, n)
    ensures Told(table, hist, from, s, dirs, n, isDir, starts, len)
  {
    hide Kept, Opens, View, LandsOn, NoneAt, AllKept, SetHere;
    if Clash(n) {
      FirstIsLost(table, hist, from, n);
    }
  }

  lemma OutcomeStill(table: Upcase, hist: seq<Dirs>, dirs: Dirs, n: Course, code: Code, dir: nat, entry: nat)
    requires n.sd < |dirs| && n.d < |dirs| && AllKept(table, hist, |hist|, n) && Kept(table, dirs, n)
    requires code == Ok ==> Selfsame(n) && dir == n.d && At(table, View(dirs[n.d]), entry, n.newKey)
    ensures Outcome(table, hist, |hist|, dirs, dirs, n, code, dir, entry)
  {
    hide AllKept, Kept, View, MovedMaps, At;
  }

  lemma OutcomeSays(table: Upcase, hist: seq<Dirs>, from: nat, s: Dirs, dirs: Dirs, n: Course, code: Code, dir: nat, entry: nat)
    requires |s| == |dirs| && n.sd < |dirs| && n.d < |dirs| && Outcome(table, hist, from, s, dirs, n, code, dir, entry)
    ensures !Clash(n) ==> AllKept(table, hist, from, n)
    ensures Clash(n) && |hist| > from ==> n.sd < |hist[from]| && NoneAt(table, View(hist[from][n.sd]), n.oldKey)
    ensures Clash(n) && code == Ok ==> NoneAt(table, View(s[n.sd]), n.oldKey)
  {
    hide AllKept, Kept, View, MovedMaps, At, NoneAt;
  }

  lemma PlanSays(table: Upcase, dirs: Dirs, sd: nat, si: nat, d: nat, name: seq<u16>, start: u32, size: u64)
    requires sd < |dirs| && si < |dirs[sd]| && View(dirs[sd])[si].Some? && d < |dirs| && AllSound(table, dirs)
    ensures var n := Plan(table, dirs, sd, si, d, name, start, size);
            && n.sd == sd && n.si == si && n.d == d && n.newKey == Fold(table, name) && n.newPlace == Place(start, size)
            && n.entry == Entry(name, start, size)
    ensures Sound(table, dirs[sd]) && Sound(table, dirs[d])
  {
    hide View, Key, Sound;
  }

  lemma SpecSays(table: Upcase, sp: Spec)
    requires |sp.stamp| == 12 && 0 < |sp.name| <= MAX_NAME
    ensures sp.Ok() && sp.AsEntry() == Entry(sp.name, sp.start, sp.size) && PlaceOf(sp.AsEntry()) == Place(sp.start, sp.size)
    ensures Key(table, sp.AsEntry()) == Fold(table, sp.name) && sp.Len() == NumEntries(|sp.name|)
  {
  }

  /** What the scan found, and whether it is the source. */
  lemma ResolvedTarget(table: Upcase, dirs: Dirs, n: Course, target: Target)
    requires n.d < |dirs| && Sound(table, dirs[n.d]) && OldShown(table, dirs, n.sd, n.si, n.oldKey, n.oldPlace)
    requires !target.Failed? && Reaches(table, dirs[n.d], n.newKey)
    requires target.Present? ==> && SetHere(dirs[n.d], target.i) && target.s == SetOf(dirs[n.d], target.i) && |target.s| >= 3
                                 && Answers(table, dirs[n.d], target.i, n.newKey)
    requires target.Absent? ==> forall j :: 0 <= j < |dirs[n.d]| ==> !Answers(table, dirs[n.d], j, n.newKey)
    ensures Resolves(table, dirs, n, target)
    ensures target.Absent? ==> NoneAt(table, View(dirs[n.d]), n.newKey)
    ensures target.Present? ==> At(table, View(dirs[n.d]), target.i, n.newKey)
    ensures n.sd == n.d ==> ((target.Present? && target.i == n.si) <==> n.oldKey == n.newKey)
    ensures n.sd == n.d && target.Present? && target.i == n.si ==> StartClu(target.s[1]) == n.oldPlace.start
  {
    hide View, Shows, OldShown, At, NoneAt, SetHere, Terminated, Tidy, Unique, Answers, Fold, Sound, Reaches;
    Resolved(table, dirs[n.d], target, n.newKey);
    OldShows(table, dirs, n);
    SelfTarget(table, dirs, n, target);
    OldStart(table, dirs, n);
  }

  lemma OldStart(table: Upcase, dirs: Dirs, n: Course)
    requires OldShown(table, dirs, n.sd, n.si, n.oldKey, n.oldPlace)
    ensures n.sd < |dirs| && n.si < |dirs[n.sd]| && View(dirs[n.sd])[n.si].Some? && View(dirs[n.sd])[n.si].value.start == n.oldPlace.start
  {
  }

  /** A rename that stops after its checks. */
  lemma Stopped(table: Upcase, hist: seq<Dirs>, dirs: Dirs, n: Course, isDir: bool, starts: seq<nat>, len: nat, target: Target,
                code: Code, faulted: bool)
    requires n.sd < |dirs| && n.d < |dirs| && |starts| == |dirs| && len > 0 && Sound(table, dirs[n.d]) && Resolves(table, dirs, n, target)
    requires if Selfsame(n) then code == Ok
             else code != Ok && target.Present? && Checked(target.s, isDir, starts, dirs, code, faulted)
    requires Kept(table, dirs, n)
    ensures Coded(table, dirs, n, isDir, starts, len, code, faulted)
    ensures !faulted ==> Told(table, hist, |hist|, dirs, dirs, n, isDir, starts, NumEntries(len))
  {
    hide Sound, Resolves, Kept, Coded, Told, Opens, Admits, NumEntries, Crossed, Occupied, Unhoused;
    ReasonsForTarget(table, dirs, n, isDir, starts, target);
    CodedChecked(table, dirs, n, isDir, starts, len, target, code, faulted);
    if !faulted {
      ToldStill(table, hist, dirs, n, isDir, starts, NumEntries(len));
    }
  }

  lemma ReasonsForTarget(table: Upcase, dirs: Dirs, n: Course, isDir: bool, starts: seq<nat>, target: Target)
    requires n.d < |dirs| && |starts| == |dirs| && Sound(table, dirs[n.d]) && Resolves(table, dirs, n, target)
    ensures !target.Failed? && (target.Present? ==> |target.s| >= 2)
    ensures Opens(table, dirs, n, isDir, starts) <==> target.Absent? || Admits(target.s, isDir, starts, dirs)
  {
    hide Sound, Opens, Admits, Crossed, Occupied, Unhoused, View, SetHere, Reaches;
    ReasonsFor(table, dirs, n, isDir, starts, target);
  }

  /** A rename that goes on after them; `late` faults are those after the checks. */
  lemma Carried(table: Upcase, hist: seq<Dirs>, from: nat, s: Dirs, dirs: Dirs, n: Course, isDir: bool, starts: seq<nat>, len: nat, target: Target,
                code: Code, late: bool, faulted: bool)
    requires |s| == |dirs| && n.sd < |dirs| && n.d < |dirs| && |starts| == |dirs| && len > 0
    requires Sound(table, dirs[n.d]) && Resolves(table, dirs, n, target) && (late ==> faulted)
    requires !Selfsame(n) && (target.Present? ==> |target.s| >= 2 && Admits(target.s, isDir, starts, dirs) && SetHere(dirs[n.d], target.i))
    requires if Clash(n) then SetHere(dirs[n.sd], n.si) && Landed(dirs[n.sd], n.si, NumEntries(len), code, late)
             else Fitted(Cleared(dirs[n.d], target), NumEntries(len), code, late)
    requires !Clash(n) ==> AllKept(table, hist, from, n)
    requires Clash(n) && !late ==> && from < |hist| && n.sd < |hist[from]| && NoneAt(table, View(hist[from][n.sd]), n.oldKey)
                                   && if LandsOn(dirs[n.sd], n.si, NumEntries(len)) then NoneAt(table, View(s[n.sd]), n.oldKey) else Kept(table, s, n)
    ensures Coded(table, dirs, n, isDir, starts, len, code, faulted)
    ensures !faulted ==> Told(table, hist, from, s, dirs, n, isDir, starts, NumEntries(len))
  {
    hide Sound, Resolves, Kept, Coded, Told, Opens, Admits, NumEntries, View, NoneAt, AllKept, LandsOn, SetHere, Cleared, Room;
    ReasonsForTarget(table, dirs, n, isDir, starts, target);
    CodedCarried(table, dirs, n, isDir, starts, len, target, code, faulted);
    if !faulted {
      ToldCarried(table, hist, from, s, dirs, n, isDir, starts, NumEntries(len));
    }
  }

  /** VfsExfatRename once the new name is decoded. */
  method Rename(store: Store, table: Upcase, src: Source, d: nat, name: seq<u16>, stamp: seq<byte>,
                srcOwn: Own, dstOwn: Own, times: seq<byte>) returns (code: Code)
    requires store.Valid()
    requires |stamp| == 12 && |times| == 17 && src.dir < |store.dirs| && d < |store.dirs|
    requires (srcOwn.Own? ==> srcOwn.d < |store.dirs|) && (dstOwn.Own? ==> dstOwn.d < |store.dirs|)
    requires AllSound(table, store.dirs) && 0 !in name
    requires src.entry < |store.dirs[src.dir]| && View(store.dirs[src.dir])[src.entry].Some?
    modifies store, src, store.vol`disk, store.vol`Data, store.vol`readFaults, store.vol`writeFaults, store.vol`writes
    ensures store.FromDevice()
    ensures store.Valid()
    ensures old(store.history) <= store.history && |store.dirs| == |old(store.dirs)| && AllSound(table, store.dirs)
    ensures store.faults >= old(store.faults) && |store.Starts()| == |store.dirs|
    ensures |name| == 0 || |name| > MAX_NAME ==> code == ENAMETOOLONG && store.dirs == old(store.dirs)
    ensures var n, dirs, from := old(Plan(table, store.dirs, src.dir, src.entry, d, name, src.start, src.size)), old(store.dirs), |old(store.history)|;
            && Outcome(table, store.history, from, store.dirs, dirs, n, code, src.dir, src.entry)
            && (0 < |name| <= MAX_NAME ==> Coded(table, dirs, n, src.isDir, store.Starts(), |name|, code, store.faults > old(store.faults)))
            && (0 < |name| <= MAX_NAME && store.faults == old(store.faults) ==>
                  Told(table, store.history, from, store.dirs, dirs, n, src.isDir, store.Starts(), NumEntries(|name|)))
            && Spared(table, store.dirs, dirs, n, code, |store.history| > from)
            && Frames(table, store.history, from, store.dirs, dirs, n)
            && (forall c :: 0 <= c < |store.dirs| && Aside(c, n, srcOwn, dstOwn) ==> store.dirs[c] == dirs[c])
            && (code == Ok && store.faults == old(store.faults) && !Selfsame(n) ==>
                  Dated(store.dirs, srcOwn, times) && (n.sd == n.d || Dated(store.dirs, dstOwn, times)))
            && (code == Ok && !Clash(n) && !Selfsame(n) ==>
                  Marks(store.dirs[n.d], src.entry, Spec(src.isDir, stamp, src.start, src.size, name, HashOf(name))))
  {
    hide Frames;
    hide Store.Valid, View, Shows, OldShown, MapOf, Unique, At, NoneAt, SetHere, NumEntries;
    hide Terminated, Kept, Tidy, Answers, MovedMaps, Sum16, Fold, Sound, LandsOn, Landed, Admits, OfKind, Homeless, Holding, Reaches, Opens, Cleared, Fitted;
    hide AllKept, Coded, Told, Resolves, Spared, Dated, Marks, StartClu, Pack, SetOf, Spec.Set, DirMapOf, Rooted, Covered;
    hide Plan, Key, PlaceOf, Spec.Len, Spec.AsEntry, Spec.Ok, AllSound, Aside, Outcome;
    ghost var dirs, sd, si, len := store.dirs, src.dir, src.entry, |name|;
    assert |store.Starts()| == store.Number();
    ghost var n := Plan(table, dirs, sd, si, d, name, src.start, src.size);
    PlanSays(table, dirs, sd, si, d, name, src.start, src.size);
    OldAtStart(table, dirs, sd, si, d, name, src.start, src.size);
    OldIsKept(table, dirs, n);
    NothingYet(table, store.history, n);
    FramesNothing(table, store.history, dirs, n);
    if |name| == 0 || |name| > MAX_NAME {
      SparedStill(table, dirs, n, ENAMETOOLONG);
      OutcomeStill(table, store.history, dirs, n, ENAMETOOLONG, sd, si);
      return ENAMETOOLONG;
    }
    var hash := Calc16(Pack(name), 0, Default);
    var sp := Spec(src.isDir, stamp, src.start, src.size, name, hash);
    SpecSays(table, sp);
    var go, target;
    code, go, target := Prepare(store, table, d, name, src.dir == d, src.entry, src.start, src.isDir);
    assert n.newKey == Fold(table, name) && store.dirs[d] == dirs[d];
    if !go {
      SparedStill(table, dirs, n, code);
    }
    if target.Failed? {
      OutcomeStill(table, store.history, dirs, n, EIO, sd, si);
      CodedFailed(table, dirs, n, src.isDir, store.Starts(), len, store.faults > old(store.faults));
      if store.faults == old(store.faults) {
        ShutOut(table, dirs, n, src.isDir, store.Starts());
        ToldStill(table, store.history, dirs, n, src.isDir, store.Starts(), NumEntries(len));
      }
      return;
    }
    ResolvedTarget(table, dirs, n, target);
    if !go {
      OutcomeStill(table, store.history, dirs, n, code, sd, si);
      Stopped(table, store.history, dirs, n, src.isDir, store.Starts(), len, target, code, store.faults > old(store.faults));
      return;
    }
    ghost var early := store.faults;
    code := Carry(store, table, src, d, target, sp, srcOwn, dstOwn, times, n);
    OutcomeSays(table, store.history, |old(store.history)|, store.dirs, dirs, n, code, src.dir, src.entry);
    Carried(table, store.history, |old(store.history)|, store.dirs, dirs, n, src.isDir, store.Starts(), len, target, code,
            store.faults > early, store.faults > old(store.faults));
    SparedOnce(table, store.dirs, dirs, n, code, |store.history| > |old(store.history)|);
  }

  lemma NothingYet(table: Upcase, hist: seq<Dirs>, n: Course)
    ensures AllKept(table, hist, |hist|, n)
  {
  }

  lemma ShutOut(table: Upcase, dirs: Dirs, n: Course, isDir: bool, starts: seq<nat>)
    requires n.d < |dirs| && |starts| == |dirs|
    ensures Opens(table, dirs, n, isDir, starts) ==> Reaches(table, dirs[n.d], n.newKey)
  {
  }

  /** What the checks come to for the target that was resolved. */
  lemma OpensFor(table: Upcase, dirs: Dirs, n: Course, isDir: bool, starts: seq<nat>, target: Target)
    requires n.d < |dirs| && |starts| == |dirs| && Sound(table, dirs[n.d]) && Reaches(table, dirs[n.d], n.newKey) && !target.Failed?
    requires target.Absent? ==> NoneAt(table, View(dirs[n.d]), n.newKey)
    requires target.Present? ==> && SetHere(dirs[n.d], target.i) && target.s == SetOf(dirs[n.d], target.i) && |target.s| >= 2
                                 && At(table, View(dirs[n.d]), target.i, n.newKey)
    ensures Opens(table, dirs, n, isDir, starts) <==> target.Absent? || Admits(target.s, isDir, starts, dirs)
  {
    hide View, Key, SetHere, Admits, Reaches, Tidy, Terminated;
    if target.Present? {
      forall t: nat | At(table, View(dirs[n.d]), t, n.newKey)
        ensures t == target.i
      {
      }
    }
  }

  lemma FindsFor(table: Upcase, dirs: Dirs, n: Course, target: Target, len: nat)
    requires n.d < |dirs| && Sound(table, dirs[n.d]) && !target.Failed?
    requires target.Absent? ==> NoneAt(table, View(dirs[n.d]), n.newKey)
    requires target.Present? ==> SetHere(dirs[n.d], target.i) && At(table, View(dirs[n.d]), target.i, n.newKey)
    ensures Finds(table, dirs[n.d], n.newKey, len) <==> Room(Cleared(dirs[n.d], target), len)
  {
    hide View, Key, SetHere, Room, Tidy, Terminated, Splice;
    if target.Present? {
      forall t: nat | At(table, View(dirs[n.d]), t, n.newKey)
        ensures t == target.i
      {
      }
    }
  }

  /** In a clash, a state without the name is one that has lost the file. */
  lemma FirstIsLost(table: Upcase, hist: seq<Dirs>, from: nat, n: Course)
    requires from < |hist| && Clash(n) && n.sd < |hist[from]| && NoneAt(table, View(hist[from][n.sd]), n.oldKey)
    ensures !AllKept(table, hist, from, n)
  {
    hide View, Key, Terminated;
    assert !Kept(table, hist[from], n);
  }

  lemma OldShows(table: Upcase, dirs: Dirs, n: Course)
    requires OldShown(table, dirs, n.sd, n.si, n.oldKey, n.oldPlace)
    ensures n.sd < |dirs| && Shows(table, View(dirs[n.sd]), n.si, n.oldKey, n.oldPlace)
  {
  }

  lemma NewIsAt(table: Upcase, s: Dirs, n: Course, w: nat)
    requires NewNamed(table, s, n.d, w, n.newKey, n.newPlace)
    ensures w < |s[n.d]| && At(table, View(s[n.d]), w, n.newKey)
  {
  }

  lemma StillNone(table: Upcase, s: Dirs, dirs: Dirs, d: nat, key: seq<u16>)
    requires SameViews(s, dirs) && d < |dirs| && NoneAt(table, View(dirs[d]), key)
    ensures |s| == |dirs| && NoneAt(table, View(s[d]), key)
  {
  }

  lemma JoinKept(table: Upcase, hist: seq<Dirs>, mid: seq<Dirs>, from: nat, n: Course)
    requires AllKept(table, mid, from, n) && mid <= hist && AllKept(table, hist, |mid|, n)
    ensures AllKept(table, hist, from, n)
  {
    hide Kept;
    forall j | from <= j < |hist|
      ensures Kept(table, hist[j], n)
    {
      if j < |mid| {
        assert hist[j] == mid[j];
      }
    }
  }

  lemma OldIsKept(table: Upcase, s: Dirs, n: Course)
    requires OldShown(table, s, n.sd, n.si, n.oldKey, n.oldPlace)
    ensures Kept(table, s, n)
  {
  }

  // ----- runs over all directories

  datatype Act =
    | In(dir: nat, op: Op, own: Own)
    | Ren(from: nat, oldName: seq<u16>, to: nat, newName: seq<u16>, start: u32, size: u64, isDir: bool,
          fromOwn: Own, toOwn: Own)

  /** Arguments as callers pass them: names are C strings. */
  predicate Proper(act: Act) {
    match act
    case In(_, op, _) => op.Create? ==> |op.stamp| == 12 && 0 !in op.name
    case Ren(_, _, _, newName, _, _, _, _, _) => 0 !in newName
  }

  /** What a rename with result `code` made of the directories. */
  ghost predicate Renamed(table: Upcase, dirs: Dirs, s: Dirs, n: Course, isDir: bool, starts: seq<nat>, len: nat, code: Code,
                          faulted: bool, fromOwn: Own, toOwn: Own)
    requires |s| == |dirs| && n.sd < |dirs| && n.d < |dirs| && |starts| == |dirs|
  {
    && (if Clash(n) then code == Ok ==> NoneAt(table, View(s[n.sd]), n.oldKey)
        else && Kept(table, s, n)
             && (code == Ok ==> MovedMaps(table, s, dirs, n) || (n.sd == n.d && n.oldKey == n.newKey && s == dirs)))
    && Framed(table, s, dirs, n) && (forall c :: 0 <= c < |s| && Aside(c, n, fromOwn, toOwn) ==> s[c] == dirs[c])
    && (if len == 0 || len > MAX_NAME then code == ENAMETOOLONG else Coded(table, dirs, n, isDir, starts, len, code, faulted))
    && Spared(table, s, dirs, n, code, false)
    && (code == Ok && !Clash(n) && !Selfsame(n) ==> KindShown(table, s[n.d], n.newKey, isDir))
  }

  /** The act names directories that there are. */
  predicate InRange(act: Act, n: nat) {
    match act
    case In(d, _, own) => d < n && (own.Own? ==> own.d < n)
    case Ren(sd, _, d, _, _, _, _, fromOwn, toOwn) =>
      sd < n && d < n && (fromOwn.Own? ==> fromOwn.d < n) && (toOwn.Own? ==> toOwn.d < n)
  }

  /** What an act with result `code` makes of the directories. */
  ghost predicate ActStep(table: Upcase, starts: seq<nat>, dirs: Dirs, s: Dirs, act: Act, code: Code, faulted: bool)
    requires |starts| == |dirs|
  {
    && |s| == |dirs|
    && if !InRange(act, |dirs|) then s == dirs && code == ENOENT
       else match act
         case In(d, op, own) =>
           && Steps(table, DirMapOf(table, dirs[d]), DirMapOf(table, s[d]), op, code)
           && Justified(table, dirs[d], |dirs[d]|, op, code, faulted)
           && (op.Create? && code == Ok ==> KindShown(table, s[d], Fold(table, op.name), op.isDir))
           && forall c :: 0 <= c < |s| && c != d ==> KeepsView(s[c], dirs[c]) && (!IsOwn(c, own) || code != Ok || op.Find? ==> s[c] == dirs[c])
         case Ren(sd, oldName, d, newName, start, size, isDir, fromOwn, toOwn) =>
           || (s == dirs && code == EIO && faulted)
           || (s == dirs && Fold(table, oldName) !in DirMapOf(table, dirs[sd]) && Unfound(dirs[sd], |dirs[sd]|, code))
           || exists si: nat :: && At(table, View(dirs[sd]), si, Fold(table, oldName))
                                && Renamed(table, dirs, s, Plan(table, dirs, sd, si, d, newName, start, size), isDir, starts,
                                           |newName|, code, faulted, fromOwn, toOwn)
  }

  /** The rename of the entry at slot i. */
  method RenameFound(store: Store, table: Upcase, act: Act, i: nat, stamp: seq<byte>, times: seq<byte>) returns (code: Code)
    requires store.Valid() && act.Ren? && InRange(act, |store.dirs|)
    requires AllSound(table, store.dirs) && Proper(act) && |stamp| == 12 && |times| == 17
    requires i < |store.dirs[act.from]| && View(store.dirs[act.from])[i].Some?
    modifies store, store.vol`disk, store.vol`Data, store.vol`readFaults, store.vol`writeFaults, store.vol`writes
    ensures store.FromDevice()
    ensures store.Valid() && |store.Starts()| == |store.dirs|
    ensures AllSound(table, store.dirs) && |store.dirs| == |old(store.dirs)| && store.faults >= old(store.faults)
    ensures Renamed(table, old(store.dirs), store.dirs, old(Plan(table, store.dirs, act.from, i, act.to, act.newName, act.start, act.size)),
                    act.isDir, store.Starts(), |act.newName|, code, store.faults > old(store.faults), act.fromOwn, act.toOwn)
  {
    hide Store.Valid, Sound, MapOf, View, Fold, Kept, Opens, Finds, Forfeits, Reaches, MovedMaps, AllKept, NoneAt, NumEntries;
    hide Framed, Aside, Coded, Told, Marks, KindShown, Dated, HashOf, At;
    var src := new Source(act.from, i, act.start, act.size, act.isDir);
    ghost var n := Plan(table, store.dirs, act.from, i, act.to, act.newName, act.start, act.size);
    code := Rename(store, table, src, act.to, act.newName, stamp, act.fromOwn, act.toOwn, times);
    if code == Ok && !Clash(n) && !Selfsame(n) {
      MarksShow(table, store.dirs[n.d], src.entry, n.newKey, Spec(act.isDir, stamp, act.start, act.size, act.newName, HashOf(act.newName)));
    }
  }

  /** A rename starts by looking the old name up. */
  method PerformRename(store: Store, table: Upcase, act: Act, stamp: seq<byte>, times: seq<byte>) returns (code: Code)
    requires store.Valid() && act.Ren? && InRange(act, |store.dirs|)
    requires AllSound(table, store.dirs) && Proper(act) && |stamp| == 12 && |times| == 17
    modifies store, store.vol`disk, store.vol`Data, store.vol`readFaults, store.vol`writeFaults, store.vol`writes
    ensures store.FromDevice()
    ensures store.Valid() && |store.Starts()| == |store.dirs|
    ensures AllSound(table, store.dirs) && |store.dirs| == |old(store.dirs)| && store.faults >= old(store.faults)
    ensures ActStep(table, store.Starts(), old(store.dirs), store.dirs, act, code, store.faults > old(store.faults))
  {
    hide Store.Valid, Sound, MapOf, View, Fold, Renamed;
    assert |store.Starts()| == store.Number();
    ghost var dirs, before := store.dirs, store.faults;
    var sd := act.from;
    var r := LookupMap(store, table, sd, act.oldName, store.Count(sd));
    if r.Miss? {
      return r.code;
    }
    ghost var mid := store.faults;
    ghost var n := Plan(table, dirs, sd, r.i, act.to, act.newName, act.start, act.size);
    code := RenameFound(store, table, act, r.i, stamp, times);
    RenamedMore(table, dirs, store.dirs, n, act.isDir, store.Starts(), |act.newName|, code, store.faults > mid, store.faults > before,
                act.fromOwn, act.toOwn);
  }

  lemma RenamedMore(table: Upcase, dirs: Dirs, s: Dirs, n: Course, isDir: bool, starts: seq<nat>, len: nat, code: Code,
                    faulted: bool, more: bool, fromOwn: Own, toOwn: Own)
    requires |s| == |dirs| && n.sd < |dirs| && n.d < |dirs| && |starts| == |dirs| && (faulted ==> more)
    requires Renamed(table, dirs, s, n, isDir, starts, len, code, faulted, fromOwn, toOwn)
    ensures Renamed(table, dirs, s, n, isDir, starts, len, code, more, fromOwn, toOwn)
  {
    hide Completes, Kept, MovedMaps, NoneAt, View, Framed, Aside, Crossed, Occupied, Unhoused, Opens, Finds, Astray, Reaches, NumEntries, Spared, KindShown;
  }

  /** A fault more excuses no less. */
  lemma ActMore(table: Upcase, starts: seq<nat>, dirs: Dirs, s: Dirs, act: Act, code: Code, faulted: bool, more: bool)
    requires |starts| == |dirs| && ActStep(table, starts, dirs, s, act, code, faulted) && (faulted ==> more)
    ensures ActStep(table, starts, dirs, s, act, code, more)
  {
    hide Renamed, Justified, Steps, View, MapOf, Fold, Tidy, Terminated;
    if InRange(act, |dirs|) {
      match act {
        case In(d, op, _) =>
          JustifiedMore(table, dirs[d], |dirs[d]|, op, code, faulted, more);
        case Ren(sd, oldName, d, newName, start, size, isDir, fromOwn, toOwn) =>
          forall si: nat | At(table, View(dirs[sd]), si, Fold(table, oldName))
            ensures var n := Plan(table, dirs, sd, si, d, newName, start, size);
                    Renamed(table, dirs, s, n, isDir, starts, |newName|, code, faulted, fromOwn, toOwn) ==>
                      Renamed(table, dirs, s, n, isDir, starts, |newName|, code, more, fromOwn, toOwn)
          {
            var n := Plan(table, dirs, sd, si, d, newName, start, size);
            if Renamed(table, dirs, s, n, isDir, starts, |newName|, code, faulted, fromOwn, toOwn) {
              RenamedMore(table, dirs, s, n, isDir, starts, |newName|, code, faulted, more, fromOwn, toOwn);
            }
          }
      }
    }
  }

  /** A creation or a removal that succeeds refreshes the times of the directory, wherever its own set lies. */
  method PerformIn(store: Store, table: Upcase, d: nat, op: Op, own: Own, times: seq<byte>) returns (code: Code)
    requires store.Valid() && d < |store.dirs| && (own.Own? ==> own.d < |store.dirs|)
    requires AllSound(table, store.dirs) && (op.Create? ==> |op.stamp| == 12 && 0 !in op.name) && |times| == 17
    modifies store, store.vol`disk, store.vol`Data, store.vol`readFaults, store.vol`writeFaults, store.vol`writes
    ensures store.FromDevice()
    ensures store.Valid() && |store.Starts()| == |store.dirs|
    ensures AllSound(table, store.dirs) && |store.dirs| == |old(store.dirs)| && store.faults >= old(store.faults)
    ensures ActStep(table, store.Starts(), old(store.dirs), store.dirs, In(d, op, own), code, store.faults > old(store.faults))
    ensures code == Ok && !op.Find? && store.faults == old(store.faults) ==> Dated(store.dirs, own, times)
  {
    hide Store.Valid, Sound, MapOf, Steps, View, Fold, Justified, Dated, Refreshes, Entered, KindShown;
    assert |store.Starts()| == store.Number();
    ghost var dirs := store.dirs;
    code := Do(store, table, d, store.Count(d), op);
    ghost var mid, before := store.dirs, store.faults;
    OtherSound(table, mid, dirs, d);
    if code == Ok && !op.Find? {
      SyncOwn(store, table, own, times);
      RefreshesDates(store.dirs, mid, own, times, store.faults > before, own);
      if op.Create? {
        EnteredShows(table, store.dirs, mid, own, times, store.faults > before, d, op);
      }
    }
    StepKept(table, dirs, mid, store.dirs, d);
    JustifiedMore(table, dirs[d], |dirs[d]|, op, code, before > old(store.faults), store.faults > old(store.faults));
  }

  lemma EnteredShows(table: Upcase, s: Dirs, dirs: Dirs, own: Own, times: seq<byte>, faulted: bool, d: nat, op: Op)
    requires |times| == 17 && (own.Own? ==> own.d < |dirs|) && Refreshes(s, dirs, own, times, faulted) && SameViews(s, dirs)
    requires d < |dirs| && op.Create? && Entered(table, dirs[d], op)
    ensures KindShown(table, s[d], Fold(table, op.name), op.isDir)
  {
    hide View, Fold, Refreshes, Marks, Bears, KindShown, HashOf;
    var w: nat :| At(table, View(dirs[d]), w, Fold(table, op.name)) && Bears(dirs[d], w, SpecOf(op));
    BearsMarks(dirs[d], w, SpecOf(op));
    MarksThrough(s, dirs, own, times, faulted, d, w, SpecOf(op));
    MarksShow(table, s[d], w, Fold(table, op.name), SpecOf(op));
  }

  lemma JustifiedMore(table: Upcase, slots: seq<Dentry>, bound: nat, op: Op, code: Code, faulted: bool, more: bool)
    requires Justified(table, slots, bound, op, code, faulted) && (faulted ==> more)
    ensures Justified(table, slots, bound, op, code, more)
  {
  }

  lemma OtherSound(table: Upcase, s: Dirs, dirs: Dirs, d: nat)
    requires AllSound(table, dirs) && |s| == |dirs| && d < |s| && Sound(table, s[d]) && forall c :: 0 <= c < |s| && c != d ==> s[c] == dirs[c]
    ensures AllSound(table, s)
  {
    hide Sound;
  }

  lemma StepKept(table: Upcase, dirs: Dirs, mid: Dirs, s: Dirs, d: nat)
    requires |mid| == |dirs| && d < |mid| && (s == mid || SameViews(s, mid)) && forall c :: 0 <= c < |mid| && c != d ==> mid[c] == dirs[c]
    ensures |s| == |dirs| && DirMapOf(table, s[d]) == DirMapOf(table, mid[d])
    ensures forall c :: 0 <= c < |s| && c != d ==> KeepsView(s[c], dirs[c])
  {
    hide View, MapOf, Tidy, Terminated;
  }

  /** One act; one that names no directory does nothing. */
  method PerformAct(store: Store, table: Upcase, act: Act, stamp: seq<byte>, times: seq<byte>) returns (code: Code)
    requires store.Valid()
    requires AllSound(table, store.dirs) && Proper(act) && |stamp| == 12 && |times| == 17
    modifies store, store.vol`disk, store.vol`Data, store.vol`readFaults, store.vol`writeFaults, store.vol`writes
    ensures store.FromDevice()
    ensures store.Valid() && |store.Starts()| == |store.dirs|
    ensures AllSound(table, store.dirs) && |store.dirs| == |old(store.dirs)| && store.faults >= old(store.faults)
    ensures ActStep(table, store.Starts(), old(store.dirs), store.dirs, act, code, store.faults > old(store.faults))
  {
    hide Store.Valid, Sound, MapOf, Steps, View, Fold, Justified, Renamed;
    code := ENOENT;
    assert |store.Starts()| == store.Number();
    match act {
      case In(d, op, own) =>
        if d < store.Number() && (own.Own? ==> own.d < store.Number()) {
          code := PerformIn(store, table, d, op, own, times);
        }
      case Ren(sd, _, d, _, _, _, _, fromOwn, toOwn) =>
        if (sd < store.Number() && d < store.Number()
            && (fromOwn.Own? ==> fromOwn.d < store.Number()) && (toOwn.Own? ==> toOwn.d < store.Number())) {
          code := PerformRename(store, table, act, stamp, times);
        }
    }
  }

  /** Over any run of lookups, creations, removals and renames in any directories, with any slot access
      failing, every directory stays terminated, with unique folded names that read the same both ways, and each
      act makes of the directories what its result says. */
  method PerformActs(store: Store, table: Upcase, acts: seq<Act>, stamp: seq<byte>, times: seq<byte>)
    returns (codes: seq<Code>, ghost states: seq<Dirs>, ghost counts: seq<nat>)
    requires store.Valid()
    requires AllSound(table, store.dirs) && |stamp| == 12 && |times| == 17 && forall i :: 0 <= i < |acts| ==> Proper(acts[i])
    modifies store, store.vol`disk, store.vol`Data, store.vol`readFaults, store.vol`writeFaults, store.vol`writes
    ensures store.FromDevice()
    ensures store.Valid()
    ensures AllSound(table, store.dirs) && |store.dirs| == |old(store.dirs)|
    ensures |codes| == |acts| && |states| == |counts| == |acts| + 1
    ensures states[0] == old(store.dirs) && states[|acts|] == store.dirs && counts[0] == old(store.faults) && counts[|acts|] == store.faults
    ensures |store.Starts()| == |store.dirs|
    ensures forall i :: 0 <= i < |acts| ==>
              && counts[i] <= counts[i + 1] && |states[i]| == |store.dirs|
              && ActStep(table, store.Starts(), states[i], states[i + 1], acts[i], codes[i], counts[i + 1] > counts[i])
  {
    hide Store.Valid, AllSound, ActStep;
    codes, states, counts := [], [store.dirs], [store.faults];
    assert |store.Starts()| == store.Number();
    for k := 0 to |acts|
      invariant store.FromDevice()
      invariant store.Valid()
      invariant AllSound(table, store.dirs) && |store.dirs| == |old(store.dirs)| && |codes| == k && |states| == |counts| == k + 1
      invariant states[0] == old(store.dirs) && states[k] == store.dirs && counts[0] == old(store.faults) && counts[k] == store.faults
      invariant |store.Starts()| == |store.dirs|
      invariant forall i :: 0 <= i < k ==>
                  && counts[i] <= counts[i + 1] && |states[i]| == |store.dirs|
                  && ActStep(table, store.Starts(), states[i], states[i + 1], acts[i], codes[i], counts[i + 1] > counts[i])
    {
      var code := PerformAct(store, table, acts[k], stamp, times);
      codes, states, counts := codes + [code], states + [store.dirs], counts + [store.faults];
    }
  }

  // ----- reading the outcome

  /** When disk and memory agree about where the file is, the old name in the old directory, or the new name
      in the new one, delivers it. */
  lemma KeptIsFound(table: Upcase, s: Dirs, n: Course)
    requires Kept(table, s, n) && n.oldPlace == n.newPlace
    ensures || (n.sd < |s| && Delivers(table, s[n.sd], n.oldKey, n.newPlace))
            || (n.d < |s| && Delivers(table, s[n.d], n.newKey, n.newPlace))
  {
    hide View, Shows, Delivers, Terminated;
    if OldShown(table, s, n.sd, n.si, n.oldKey, n.oldPlace) {
      ShownDelivers(table, s[n.sd], n.si, n.oldKey, n.oldPlace);
    } else {
      var w: nat :| NewNamed(table, s, n.d, w, n.newKey, n.newPlace);
      ShownDelivers(table, s[n.d], w, n.newKey, n.newPlace);
    }
  }

  /** Nothing is hidden behind the terminator, some slot answers to the name, and every one that does says
      where the file is. */
  ghost predicate Delivers(table: Upcase, slots: seq<Dentry>, key: seq<u16>, place: Place) {
    && Terminated(slots)
    && (exists i: nat :: Answers(table, slots, i, key))
    && (forall i: nat :: Answers(table, slots, i, key) ==> PlaceOf(EntryAt(slots, i).value) == place)
  }

  /** In a directory that delivers a name, the lookup scan finds it unless an access fails, and never anything
      else. */
  method LookupDelivered(store: Store, table: Upcase, d: nat, name: seq<u16>, ghost place: Place) returns (r: Found)
    requires store.Valid()
    requires d < |store.dirs| && Delivers(table, store.dirs[d], Fold(table, name), place)
    modifies store`faults, store.vol`readFaults
    ensures store.FromDevice()
    ensures store.faults >= old(store.faults) && (store.faults == old(store.faults) ==> r.Hit?)
    ensures r.Hit? ==> Answers(table, store.dirs[d], r.i, Fold(table, name)) && PlaceOf(EntryAt(store.dirs[d], r.i).value) == place
  {
    hide Store.Valid, Fold, EntryAt, Terminated, Answers;
    ghost var slots, key := store.dirs[d], Fold(table, name);
    ghost var i: nat :| Answers(table, slots, i, key);
    AnswerIsInside(table, slots, i, key);
    var bound := store.Count(d);
    r := Lookup(store, table, d, name, bound);
    assert store.dirs[d] == slots && i < bound;
  }

  lemma AnswerIsInside(table: Upcase, slots: seq<Dentry>, i: nat, key: seq<u16>)
    requires Answers(table, slots, i, key)
    ensures i < |slots| && EntryAt(slots, i).Some?
  {
  }

  lemma ShownDelivers(table: Upcase, slots: seq<Dentry>, w: nat, key: seq<u16>, place: Place)
    requires Terminated(slots) && Shows(table, View(slots), w, key, place)
    ensures Delivers(table, slots, key, place)
  {
    hide EntryAt, Fold, Terminated;
    AnswersAt(table, slots, w, key);
    forall i: nat | Answers(table, slots, i, key)
      ensures PlaceOf(EntryAt(slots, i).value) == place
    {
      ShownIsFound(table, slots, w, key, place, i);
    }
  }

  /** The loss is real: a file created empty as "a" in a directory of one 512-byte cluster, given cluster 5 by
      a write that never reaches its directory entry, and renamed to "A". */
  lemma ClashHappens(table: Upcase, stamp: seq<byte>, zero: Dentry)
    requires |stamp| == 12 && Fold(table, [0x61]) == Fold(table, [0x41]) && Type(zero) == UNUSED
    ensures var dirs := [Spec(false, stamp, 0xFFFF_FFFF, 0, [0x61], 0).Set() + seq(13, _ => zero)];
            && |dirs[0]| * 32 == 512 && AllSound(table, dirs) && View(dirs[0])[0].Some?
            && Clash(Plan(table, dirs, 0, 0, 0, [0x41], 5, 100)) && Forfeits(table, dirs, Plan(table, dirs, 0, 0, 0, [0x41], 5, 100), false, [0], NumEntries(1))
  {
    hide Spec.Set, Fold, Splice, Valid, Opens, View, Sound, SetHere;
    var sp := Spec(false, stamp, 0xFFFF_FFFF, 0, [0x61], 0);
    var dirs := [sp.Set() + seq(13, _ => zero)];
    OneFile(table, sp, zero, dirs[0]);
    OneFileOpens(table, dirs, Plan(table, dirs, 0, 0, 0, [0x41], 5, 100), sp);
  }

  /** A directory of one cluster with one file in it. */
  lemma OneFile(table: Upcase, sp: Spec, zero: Dentry, slots: seq<Dentry>)
    requires sp.Ok() && |sp.name| == 1 && 0 !in sp.name && Type(zero) == UNUSED && slots == sp.Set() + seq(13, _ => zero)
    ensures |slots| == 16 && NumEntries(1) == 3 && Sound(table, slots) && View(slots)[0] == Some(sp.AsEntry())
    ensures SetHere(slots, 0) && SetOf(slots, 0) == sp.Set() && forall i: nat :: SetHere(slots, i) ==> i == 0
    ensures forall k :: 0 < k < |slots| ==> Type(slots[k]) != FILE
  {
    hide Spec.Set, Spec.Len, Fold, Splice, Valid, Filling, Tidy, Terminated, View, SetHere, SetOf, Fits, Named, NameOf;
    var blank, rest := seq(16, _ => zero), seq(13, _ => zero);
    AllBlank(blank, 3);
    LastStage(sp);
    FillView(blank, 0, 3, sp.AsEntry(), sp.Set());
    Replaced(blank, sp.Set(), rest);
    OnlyFirst(sp, rest);
    FollowedBy(sp.Set(), rest);
    BuiltHere(sp);
  }

  /** A directory of unused slots holds nothing. */
  lemma AllBlank(slots: seq<Dentry>, n: nat)
    requires n <= |slots| && forall k :: 0 <= k < |slots| ==> Type(slots[k]) == UNUSED
    ensures Fits(slots, 0, n) && Terminated(slots) && Tidy(slots) && View(slots) == seq(|slots|, _ => None)
  {
  }

  /** A directory with one file in it, which may be overwritten by a file. */
  lemma OneFileOpens(table: Upcase, dirs: Dirs, n: Course, sp: Spec)
    requires |dirs| == 1 && n.d == 0 && sp.Ok() && !sp.isDir && SetHere(dirs[0], 0) && SetOf(dirs[0], 0) == sp.Set()
    requires forall i: nat :: SetHere(dirs[0], i) ==> i == 0
    requires forall k :: 0 < k < |dirs[0]| ==> Type(dirs[0][k]) != FILE
    ensures Opens(table, dirs, n, false, [0])
  {
    hide Spec.Set, Fold, Valid, Named, NameOf;
    ArchivedAlready(sp);
  }

  lemma Replaced(a: seq<Dentry>, p: seq<Dentry>, rest: seq<Dentry>)
    requires |p| <= |a| && rest == a[|p|..]
    ensures Splice(a, 0, p) == p + rest
  {
  }

  /** In a directory that is one set and unused slots, no other slot opens a set. */
  lemma OnlySet(slots: seq<Dentry>, n: nat)
    requires 0 < n <= |slots| && n <= SET_MAX && Type(slots[0]) == FILE && Total(slots[0]) == n
    requires forall k :: 0 < k < n ==> Secondary(slots[k])
    requires forall k :: n <= k < |slots| ==> Type(slots[k]) == UNUSED
    ensures SetHere(slots, 0) && SetOf(slots, 0) == slots[..n]
    ensures forall i: nat :: SetHere(slots, i) ==> i == 0
  {
    hide Total;
    assert forall i: nat :: 0 < i < |slots| ==> Type(slots[i]) != FILE;
  }

  lemma OnlyFirst(sp: Spec, rest: seq<Dentry>)
    requires sp.Ok() && 0 !in sp.name && forall k :: 0 <= k < |rest| ==> Type(rest[k]) == UNUSED
    ensures SetHere(sp.Set() + rest, 0) && SetOf(sp.Set() + rest, 0) == sp.Set()
    ensures forall i: nat :: SetHere(sp.Set() + rest, i) ==> i == 0
    ensures Named(sp.Set()) && NameOf(sp.Set()) == sp.name
  {
    hide Spec.Set, Spec.Len, SetHere, SetOf, Total, Secondary, Type, Named, NameOf;
    BuiltNamed(sp);
    BuiltHere(sp);
    FollowedBy(sp.Set(), rest);
    OnlySet(sp.Set() + rest, |sp.Set()|);
  }

  lemma BuiltNamed(sp: Spec)
    requires sp.Ok() && 0 !in sp.name
    ensures Named(sp.Set()) && NameOf(sp.Set()) == sp.name
  {
    BuiltIsValid(sp.isDir, sp.stamp, sp.start, sp.size, sp.name, sp.hash);
  }

  lemma FollowedBy(a: seq<Dentry>, b: seq<Dentry>)
    ensures (a + b)[..|a|] == a && (forall k :: 0 <= k < |a| ==> (a + b)[k] == a[k])
    ensures forall k :: |a| <= k < |a + b| ==> (a + b)[k] == b[k - |a|]
  {
  }

  lemma BuiltHere(sp: Spec)
    requires sp.Ok()
    ensures var s := sp.Set();
            0 < |s| <= SET_MAX && Type(s[0]) == FILE && Total(s[0]) == |s| && forall k :: 0 < k < |s| ==> Secondary(s[k])
  {
    hide Spec.Set, Valid, Carries;
    LastStage(sp);
  }
}
