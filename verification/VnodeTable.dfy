/** The vnode lists of fs/vfs/vnode.c: every vnode is on the free, the active or the virtual list, the active
    list is in order of last use, and a vnode that is freed leaves its hash bucket and the path cache. */
module VnodeTable {
  import opened Sequences
  import opened PathCaches
  import opened IntrusiveList
  import opened VnodeLists

  const LRU_COUNT: nat := 10     // VNODE_LRU_COUNT

  /** Neither in use nor part of a mount. */
  predicate Idle(v: Vnode)
    reads v`useCount, v`mounted
  {
    v.useCount == 0 && !v.mounted
  }

  /** The first n idle vnodes of a list, in its order. */
  function Victims(items: seq<Vnode>, n: nat): (r: seq<Vnode>)
    reads items`useCount, items`mounted
    ensures |r| <= n && forall v :: v in r ==> v in items
  {
    if items == [] || n == 0 then []
    else if Idle(items[0]) then [items[0]] + Victims(items[1..], n - 1)
    else Victims(items[1..], n)
  }

  /** A vnode off its list and out of its bucket. */
  function Detached(st: State, v: Vnode): State {
    st.(active := Without(st.active, v), virt := Without(st.virt, v), buckets := Unhashed(st.buckets, v),
        out := st.out + {v}, bare := st.bare + {v}, alone := st.alone - {v})
  }

  /** The path cache after the entries of several vnodes went, and the hash buckets after the vnodes did. */
  function AllPurged(log: seq<Cached>, vs: seq<Vnode>): seq<Cached> {
    if vs == [] then log else Purged(AllPurged(log, vs[..|vs| - 1]), vs[|vs| - 1])
  }

  function AllUnhashed(buckets: seq<seq<Vnode>>, vs: seq<Vnode>): seq<seq<Vnode>> {
    if vs == [] then buckets else Unhashed(AllUnhashed(buckets, vs[..|vs| - 1]), vs[|vs| - 1])
  }

  /** The entries left are those that mention none of the vnodes, and so are the vnodes left in buckets. */
  lemma {:induction false} AllGone(log: seq<Cached>, buckets: seq<seq<Vnode>>, vs: seq<Vnode>, x: Cached, u: Vnode)
    ensures x in AllPurged(log, vs) <==> x in log && x.parent !in vs && x.child !in vs
    ensures Hashed(AllUnhashed(buckets, vs), u) <==> Hashed(buckets, u) && u !in vs
  {
    if vs != [] {
      var k := |vs| - 1;
      assert vs == vs[..k] + [vs[k]];
      AllGone(log, buckets, vs[..k], x, u);
      PurgedHas(AllPurged(log, vs[..k]), vs[k], x);
      UnhashedHas(AllUnhashed(buckets, vs[..k]), vs[k], u);
    }
  }

  /** The same for a given set of idle vnodes. */
  function Chosen(items: seq<Vnode>, idle: set<Vnode>, n: nat): (r: seq<Vnode>)
    ensures |r| <= n
  {
    if items == [] || n == 0 then []
    else if items[0] in idle then [items[0]] + Chosen(items[1..], idle, n - 1)
    else Chosen(items[1..], idle, n)
  }

  lemma {:induction false} VictimsAreChosen(items: seq<Vnode>, idle: set<Vnode>, n: nat)
    requires forall v :: v in items ==> (v in idle <==> Idle(v))
    ensures Victims(items, n) == Chosen(items, idle, n)
  {
    if items != [] && n > 0 {
      VictimsAreChosen(items[1..], idle, if Idle(items[0]) then n - 1 else n);
    }
  }

  /** Where a sweep of the active list for n idle vnodes is. */
  datatype Sweep = Sweep(items: seq<Vnode>, idle: set<Vnode>, n: nat, before: seq<Vnode>, log: seq<Cached>, buckets: seq<seq<Vnode>>) {
    /** The path cache and the buckets have lost what the vnodes freed had there. */
    ghost predicate Gone(done: seq<Vnode>, now: seq<Cached>, hashed: seq<seq<Vnode>>) {
      now == AllPurged(log, done) && hashed == AllUnhashed(buckets, done)
    }

    lemma GoneSays(done: seq<Vnode>, now: seq<Cached>, hashed: seq<seq<Vnode>>)
      requires Gone(done, now, hashed)
      ensures now == AllPurged(log, done) && hashed == AllUnhashed(buckets, done)
    {
    }

    lemma MoreGone(done: seq<Vnode>, now: seq<Cached>, hashed: seq<seq<Vnode>>, v: Vnode)
      requires Gone(done, now, hashed)
      ensures Gone(done + [v], Purged(now, v), Unhashed(hashed, v))
    {
      assert (done + [v])[..|done|] == done;
    }

    /** The vnodes before the i-th have been looked at, and `done` of them were freed. */
    ghost predicate At(i: nat, done: seq<Vnode>, active: seq<Vnode>, spare: seq<Vnode>) {
      && i <= |items| && NoRepeats(items) && active == Minus(items, done) && spare == Reversed(done) + before
      && |items| - i <= |active| && active[|active| - (|items| - i)..] == items[i..]
      && |done| <= n && |done| <= i && done + Chosen(items[i..], idle, n - |done|) == Chosen(items, idle, n)
    }

    /** The i-th node of the list as it was, or the header. */
    function NodeAt(i: nat, header: Node): Node { if i < |items| then items[i].actEntry else header }

    function Grown(done: seq<Vnode>, i: nat, freed: bool): seq<Vnode> { if freed && i < |items| then done + [items[i]] else done }

    lemma Start()
      requires NoRepeats(items)
      ensures At(0, [], items, before)
    {
      MinusNothing(items);
      assert Reversed<Vnode>([]) + before == before && items[0..] == items;
      assert [] + Chosen(items, idle, n) == Chosen(items, idle, n);
    }

    /** The place in what is left of the list. */
    lemma Place(i: nat, done: seq<Vnode>, active: seq<Vnode>, spare: seq<Vnode>) returns (p: nat)
      requires At(i, done, active, spare)
      ensures p == |active| - (|items| - i) && (i < |items| ==> active[p] == items[i]) && (i + 1 < |items| ==> active[p + 1] == items[i + 1])
    {
      hide Minus, Reversed, Chosen, NoRepeats;
      p := |active| - (|items| - i);
      var rest := items[i..];
      assert i < |items| ==> rest[0] == active[p];
      assert i + 1 < |items| ==> rest[1] == active[p + 1];
    }

    lemma Distinct(i: nat, done: seq<Vnode>, active: seq<Vnode>, spare: seq<Vnode>)
      requires At(i, done, active, spare) && i < |items|
      ensures forall j :: i < j < |items| ==> items[j] != items[i]
    {
    }

    lemma Skip(i: nat, done: seq<Vnode>, active: seq<Vnode>, spare: seq<Vnode>)
      requires At(i, done, active, spare) && i < |items| && items[i] !in idle
      ensures At(i + 1, done, active, spare)
    {
      hide Minus, Reversed, NoRepeats;
      var p := |active| - (|items| - i);
      assert active[p + 1..] == active[p..][1..] && items[i + 1..] == items[i..][1..];
    }

    lemma Freed(i: nat, done: seq<Vnode>, active: seq<Vnode>, spare: seq<Vnode>)
      requires At(i, done, active, spare) && NoRepeats(active) && i < |items| && items[i] in idle && |done| < n
      ensures At(i + 1, done + [items[i]], Without(active, items[i]), [items[i]] + spare)
    {
      hide Minus, Without, Reversed, NoRepeats;
      var v, p := items[i], |active| - (|items| - i);
      assert active[p..][0] == v && items[i..][0] == v && items[i..][1..] == items[i + 1..];
      WithoutAt(active, p);
      MinusOne(items, done, v);
      ReversedGrow(done, v, before);
      var after := active[..p] + active[p + 1..];
      assert after[p..] == active[p..][1..];
      var rest := Chosen(items[i + 1..], idle, n - |done| - 1);
      Assoc(done, [v], rest);
    }

    lemma Ended(i: nat, done: seq<Vnode>, active: seq<Vnode>, spare: seq<Vnode>)
      requires At(i, done, active, spare) && (i == |items| || |done| == n)
      ensures done == Chosen(items, idle, n) && active == Minus(items, done) && spare == Reversed(done) + before
    {
      hide Minus, Reversed, NoRepeats;
      assert Chosen(items[i..], idle, n - |done|) == [];
    }

    /** The vnodes from the i-th on are idle or not as they were. */
    ghost predicate Ahead(i: nat, all: set<Vnode>)
      reads all
    {
      forall j :: i <= j < |items| ==> items[j] in all && (items[j] in idle <==> Idle(items[j]))
    }
  }

  /** References to a vnode, and whether it is part of a mount. */
  datatype Hold = Hold(count: nat, mounted: bool)

  /** The lists, the buckets and the path cache as values, with what every vnode is held by. */
  datatype Snap = Snap(spare: seq<Vnode>, active: seq<Vnode>, virt: seq<Vnode>, buckets: seq<seq<Vnode>>, log: seq<Cached>,
                       total: int, holds: map<Vnode, Hold>) {
    function On(w: Which): seq<Vnode> {
      match w
      case Free => spare
      case Active => active
      case Virtual => virt
    }

    ghost function Idlers(): set<Vnode> { set v | v in holds && holds[v] == Hold(0, false) }

    /** A vnode is handed out. */
    function Handed(v: Vnode, dev: bool): Snap {
      if dev then this.(virt := [v] + virt) else this.(active := active + [v])
    }

    /** A vnode without references is freed: a device's is destroyed, another is kept for the next allocation. */
    function Dropped(v: Vnode): Snap {
      var s := this.(active := Without(active, v), virt := Without(virt, v), buckets := Unhashed(buckets, v), log := Purged(log, v));
      if v in active then s.(spare := [v] + spare, holds := holds[v := Hold(0, false)]) else s.(total := total - 1, holds := holds - {v})
    }

    /** Idle vnodes are freed, one after the other. */
    function Swept(done: seq<Vnode>): Snap {
      this.(active := Minus(active, done), spare := Reversed(done) + spare, log := AllPurged(log, done), buckets := AllUnhashed(buckets, done))
    }
  }

  /** What an operation makes of the lists, the buckets and the path cache. */
  ghost predicate Moves(op: Op, s: Snap, s': Snap, max: nat) {
    match op
    case New(dev, memory) => Supplied(s, s', dev, memory, max)
    case Release(w, i) =>
      if w == Which.Free || i >= |s.On(w)| then s' == s
      else var v := s.On(w)[i]; s' == if v in s.holds && s.holds[v].count > 0 then s else s.Dropped(v)
    case Touch(i) => s' == if i < |s.active| then s.(active := Without(s.active, s.active[i]) + [s.active[i]]) else s
    case Use(w, i, count, mounted) =>
      s' == if w == Which.Free || i >= |s.On(w)| then s else s.(holds := s.holds[s.On(w)[i] := Hold(count, mounted)])
    case Name(w, i, x, j, name, memory) =>
      if w == Which.Free || x == Which.Free || i >= |s.On(w)| || j >= |s.On(x)| || |name| > NAME_MAX || !memory then s' == s
      else |s'.log| == |s.log| + 1 && var pc := s'.log[0];
           pc.parent == s.On(w)[i] && pc.child == s.On(x)[j] && pc.name == name && s' == s.(log := [pc] + s.log)
    case Hash(w, i, b) =>
      if w == Which.Free || i >= |s.On(w)| || b >= |s.buckets| || Hashed(s.buckets, s.On(w)[i]) then s' == s
      else s' == s.(buckets := s.buckets[b := [s.On(w)[i]] + s.buckets[b]])
    case Clear => s' == s.Swept(Chosen(s.active, s.Idlers(), |s.active| + 1))
  }

  /** An allocation: from the free list, else from the heap below the maximum, else the last of the first ten idle
      vnodes. */
  ghost predicate Supplied(s: Snap, s': Snap, dev: bool, memory: bool, max: nat) {
    var more := if s.spare == [] && s.total < max then s.(total := s.total + 1) else s;
    if s.spare != [] then s' == s.(spare := s.spare[1..]).Handed(s.spare[0], dev)
    else if s.total < max && memory then
      exists v: Vnode :: v !in s.holds && v in s'.holds && s' == more.(holds := s.holds[v := Hold(0, false)]).Handed(v, dev)
    else
      var done := Chosen(s.active, s.Idlers(), LRU_COUNT);
      if done == [] then s' == more
      else var swept := more.Swept(done); s' == swept.(spare := swept.spare[1..]).Handed(done[|done| - 1], dev)
  }

  // ----- each operation by itself

  lemma Taken(s: Snap, s': Snap, dev: bool, memory: bool, max: nat)
    requires s.spare != [] && s' == s.(spare := s.spare[1..]).Handed(s.spare[0], dev)
    ensures Moves(New(dev, memory), s, s', max)
  {
  }

  lemma Grown(s: Snap, s': Snap, dev: bool, v: Vnode, max: nat)
    requires s.spare == [] && s.total < max && v !in s.holds
    requires s' == s.(total := s.total + 1, holds := s.holds[v := Hold(0, false)]).Handed(v, dev)
    ensures Moves(New(dev, true), s, s', max)
  {
    assert v in s'.holds;
  }

  lemma Reclaimed(s: Snap, s': Snap, dev: bool, memory: bool, v: Vnode?, max: nat)
    requires s.spare == [] && !(s.total < max && memory)
    requires var done := Chosen(s.active, s.Idlers(), LRU_COUNT);
             && (v == null <==> done == []) && (v != null ==> v == done[|done| - 1])
             && s'.active == Minus(s.active, done) + (if dev || v == null then [] else [v])
             && s'.virt == (if dev && v != null then [v] + s.virt else s.virt)
             && s'.spare == (if v == null then [] else Reversed(done[..|done| - 1]))
             && s'.log == AllPurged(s.log, done) && s'.buckets == AllUnhashed(s.buckets, done)
             && s'.total == s.total + (if s.total < max then 1 else 0) && s'.holds == s.holds
    ensures Moves(New(dev, memory), s, s', max)
  {
    hide Chosen, Minus, Snap.Idlers;
    var done := Chosen(s.active, s.Idlers(), LRU_COUNT);
    if done == [] {
      MinusNothing(s.active);
    } else {
      assert (Reversed(done) + [])[1..] == Reversed(done[..|done| - 1]);
    }
  }

  lemma Released(s: Snap, s': Snap, w: Which, i: nat, ok: bool, max: nat)
    requires w != Which.Free && i < |s.On(w)| && s.On(w)[i] in s.holds && (ok <==> s.holds[s.On(w)[i]].count == 0)
    requires s' == if ok then s.Dropped(s.On(w)[i]) else s
    ensures Moves(Release(w, i), s, s', max)
  {
    hide Snap.Dropped;
  }

  lemma Touched(s: Snap, s': Snap, i: nat, max: nat)
    requires i < |s.active| && s' == s.(active := Without(s.active, s.active[i]) + [s.active[i]])
    ensures Moves(Touch(i), s, s', max)
  {
    hide Without;
  }

  lemma Used(s: Snap, s': Snap, w: Which, i: nat, count: nat, mounted: bool, max: nat)
    requires w != Which.Free && i < |s.On(w)| && s' == s.(holds := s.holds[s.On(w)[i] := Hold(count, mounted)])
    ensures Moves(Use(w, i, count, mounted), s, s', max)
  {
  }

  lemma Named(s: Snap, s': Snap, w: Which, i: nat, x: Which, j: nat, name: seq<char>, memory: bool, max: nat)
    requires w != Which.Free && x != Which.Free && i < |s.On(w)| && j < |s.On(x)|
    requires if |name| > NAME_MAX || !memory then s' == s
             else |s'.log| == |s.log| + 1 && var pc := s'.log[0];
                  pc.parent == s.On(w)[i] && pc.child == s.On(x)[j] && pc.name == name && s' == s.(log := [pc] + s.log)
    ensures Moves(Name(w, i, x, j, name, memory), s, s', max)
  {
  }

  lemma HashedIn(s: Snap, s': Snap, w: Which, i: nat, b: nat, max: nat)
    requires w != Which.Free && i < |s.On(w)|
    requires s' == if b >= |s.buckets| || Hashed(s.buckets, s.On(w)[i]) then s else s.(buckets := s.buckets[b := [s.On(w)[i]] + s.buckets[b]])
    ensures Moves(Hash(w, i, b), s, s', max)
  {
    hide Hashed;
  }

  lemma Cleared(s: Snap, s': Snap, max: nat)
    requires s' == s.Swept(Chosen(s.active, s.Idlers(), |s.active| + 1))
    ensures Moves(Clear, s, s', max)
  {
    hide Chosen, Snap.Swept, Snap.Idlers;
  }

  /** An operation that names no vnode in use does nothing. */
  lemma Idled(op: Op, s: Snap, max: nat)
    requires match op
             case Release(w, i) => w == Which.Free || i >= |s.On(w)|
             case Touch(i) => i >= |s.active|
             case Use(w, i, _, _) => w == Which.Free || i >= |s.On(w)|
             case Name(w, i, x, j, _, _) => w == Which.Free || x == Which.Free || i >= |s.On(w)| || j >= |s.On(x)|
             case Hash(w, i, _) => w == Which.Free || i >= |s.On(w)|
             case _ => false
    ensures Moves(op, s, s, max)
  {
  }

  class Table {
    const max: nat                     // LOSCFG_MAX_VNODE_SIZE
    const cache: Cache
    const racks: Racks
    var freeSize: int                  // g_freeVnodeSize
    var total: int                     // g_totalVnodeSize

    /** VnodesInit, before the root vnode is allocated. */
    constructor (cache: Cache, max: nat, hashSize: nat)
      requires cache.Valid() && cache.vnodes == {}
      ensures Holds({}) && Spare() == [] && Active() == [] && Devices() == [] && total == 0
      ensures this.cache == cache && this.max == max && fresh(racks) && fresh(racks.lists) && fresh(racks.lists.nodes)
    {
      hide Cache.Valid, Racks.Valid;
      this.cache, this.max, freeSize, total := cache, max, 0, 0;
      racks := new Racks(hashSize);
    }

    /** The free, the active and the virtual list, and the hash buckets. */
    ghost function Spare(): seq<Vnode> reads racks`state { racks.state.free }

    ghost function Active(): seq<Vnode> reads racks`state { racks.state.active }

    ghost function Devices(): seq<Vnode> reads racks`state { racks.state.virt }

    ghost function Buckets(): seq<seq<Vnode>> reads racks`state { racks.state.buckets }

    ghost function Held(vs: set<Vnode>): (m: map<Vnode, Hold>)
      reads vs
      ensures m.Keys == vs && forall v :: v in vs ==> m[v] == Hold(v.useCount, v.mounted)
    {
      map v | v in vs :: Hold(v.useCount, v.mounted)
    }

    ghost function Seen(): Snap
      reads this`total, racks`state, cache`log, cache`vnodes, cache.vnodes
    {
      Snap(Spare(), Active(), Devices(), Buckets(), cache.log, total, Held(cache.vnodes))
    }

    /** Vnodes are held as they were. */
    twostate predicate SameHolds()
      reads cache, cache.vnodes
    {
      forall u :: u in old(cache.vnodes) && u in cache.vnodes ==> u.useCount == old(u.useCount) && u.mounted == old(u.mounted)
    }

    lemma HeldIs(m: map<Vnode, Hold>)
      requires m.Keys == cache.vnodes && forall v :: v in m ==> m[v] == Hold(v.useCount, v.mounted)
      ensures Held(cache.vnodes) == m
    {
    }

    /** The idle vnodes are those seen to be. */
    lemma VictimsSeen(n: nat)
      requires Holds({})
      ensures Victims(Active(), n) == Chosen(Active(), Seen().Idlers(), n)
    {
      hide Chosen, Victims, Table.Holds;
      HoldsSays();
      VictimsAreChosen(Active(), Seen().Idlers(), n);
    }

    ghost predicate Holds(out: set<Vnode>)
      reads this`freeSize, racks, racks.lists, racks.lists.nodes, cache, cache.vnodes, cache.lists, cache.lists.nodes
    {
      && cache.Valid() && racks.Valid() && racks.all == cache.vnodes
      && racks.lists != cache.lists && racks.lists.nodes !! cache.lists.nodes
      && Books(racks.state, cache.vnodes, out, freeSize)
    }

    /** The lists partition all vnodes but those in `out`, which are being handed out; free vnodes and those
        are clean: in no hash bucket and in no path cache entry. */
    ghost predicate Books(st: State, all: set<Vnode>, out: set<Vnode>, size: int)
      reads all
    {
      && size == |st.free| && st.out == out
      && NoRepeats(st.free) && NoRepeats(st.active) && NoRepeats(st.virt)
      && (forall v :: v in st.free ==> v !in st.active && v !in st.virt && v !in out)
      && (forall v :: v in st.active ==> v !in st.virt && v !in out)
      && (forall v :: v in st.virt ==> v !in out)
      && (forall v :: v in all ==> v in st.free || v in st.active || v in st.virt || v in out)
      && (forall v :: v in st.free ==> v in all && Clean(st, v)) && (forall v :: v in out ==> v in all && Clean(st, v))
      && (forall v :: v in st.active ==> v in all && !v.dev && Findable(st, v))
      && (forall v :: v in st.virt ==> v in all && v.dev && Findable(st, v))
    }

    ghost predicate Clean(st: State, v: Vnode)
      reads v`children, v`parents, v`useCount
    {
      v.children == [] && v.parents == [] && v.useCount == 0 && !Hashed(st.buckets, v) && v in st.bare && v !in st.alone
    }

    /** In a bucket, or ready to be put in one. */
    ghost predicate Findable(st: State, v: Vnode) {
      v in st.alone || Hashed(st.buckets, v)
    }

    /** GetFromFreeList.  The counter is zero exactly when the list is empty, so the source's repair of a
        counter that disagrees has nothing to do. */
    method GetFromFree() returns (v: Vnode?)
      requires Holds({})
      modifies this`freeSize, racks`state, racks.lists`rings, racks.lists.nodes`next, racks.lists.nodes`prev
      ensures v == null <==> old(Spare()) == []
      ensures v == null ==> Holds({}) && racks.state == old(racks.state)
      ensures v != null ==> v == old(Spare())[0] && Holds({v}) && v in cache.vnodes
      ensures v != null ==> racks.state == old(racks.state).(free := old(Spare())[1..], out := {v})
    {
      hide NoRepeats, Cache.Valid, Racks.Valid, Hashed, Books;
      BooksSize();
      racks.Walk(Which.Free, 0);
      if freeSize <= 0 || racks.heads.free.next == racks.heads.free {
        return null;
      }
      v := racks.heads.free.next.owner as Vnode;
      PoppedBooks(racks.state, freeSize);
      assert Spare()[..0] + Spare()[1..] == Spare()[1..] && racks.state.out + {v} == {v};
      racks.Remove(v, Which.Free, 0);
      freeSize := freeSize - 1;
    }

    lemma BooksSize()
      requires Books(racks.state, cache.vnodes, {}, freeSize)
      ensures freeSize == |Spare()| && racks.state.out == {}
    {
    }

    lemma PoppedBooks(st: State, size: int)
      requires Books(st, cache.vnodes, {}, size) && st.free != []
      ensures st.free[0] in cache.vnodes && Books(st.(free := st.free[1..], out := {st.free[0]}), cache.vnodes, {st.free[0]}, size - 1)
    {
      hide NoRepeats, Hashed;
      NoRepeatsTail(st.free);
      var v, rest := st.free[0], st.free[1..];
      var next := st.(free := rest, out := {v});
      assert st.free == [v] + rest;
      forall u
        ensures u in st.free <==> u == v || u in rest
      {
      }
      assert forall u :: u in cache.vnodes ==> (Clean(next, u) <==> Clean(st, u)) && (Findable(next, u) <==> Findable(st, u));
    }

    /** Purges the vnode's path cache entries and takes it out of its hash bucket and its list. */
    method Detach(v: Vnode)
      requires Holds({}) && (v in Active() || v in Devices()) && v.useCount == 0
      modifies cache`buckets, cache`log, cache.vnodes`children, cache.vnodes`parents
      modifies cache.lists`rings, cache.lists.nodes`next, cache.lists.nodes`prev
      modifies racks`state, racks.lists`rings, racks.lists.nodes`next, racks.lists.nodes`prev
      ensures Holds({v}) && cache.log == Purged(old(cache.log), v) && racks.state == Detached(old(racks.state), v)
    {
      hide Without, Purged, Keep, Unhashed, Cache.Valid, Racks.Valid, Hashed, NoRepeats, Books;
      ghost var st := racks.state;
      ghost var w, k := PlaceOf(v);
      Purge(v);
      DetachedBooks(st, v, freeSize);
      racks.Take(v, w, k);
    }

    method Purge(v: Vnode)
      requires Holds({}) && v in cache.vnodes
      modifies cache`buckets, cache`log, cache.vnodes`children, cache.vnodes`parents
      modifies cache.lists`rings, cache.lists.nodes`next, cache.lists.nodes`prev
      ensures Holds({}) && cache.log == Purged(old(cache.log), v) && v.children == [] && v.parents == []
    {
      hide Purged, Cache.Valid, Racks.Valid, Hashed, NoRepeats;
      cache.Purge(v);
    }

    /** Where a vnode is, and what its list is without it. */
    lemma PlaceOf(v: Vnode) returns (w: Which, k: nat)
      requires Holds({}) && (v in Active() || v in Devices())
      ensures v in cache.vnodes && Findable(racks.state, v) && k < |racks.state.On(w)| && racks.state.On(w)[k] == v
      ensures var s := racks.state.On(w);
              && (w == if v in Active() then Which.Active else Virtual)
              && Without(Active(), v) == (if w == Which.Active then s[..k] + s[k + 1..] else Active())
              && Without(Devices(), v) == (if w == Virtual then s[..k] + s[k + 1..] else Devices())
    {
      hide Cache.Valid, Racks.Valid, Hashed, NoRepeats, Without;
      WithoutAbsent(Active(), v);
      WithoutAbsent(Devices(), v);
      w := if v in Active() then Which.Active else Virtual;
      k :| 0 <= k < |racks.state.On(w)| && racks.state.On(w)[k] == v;
      WithoutAt(racks.state.On(w), k);
    }

    /** The books once the vnode is off its list. */
    lemma DetachedBooks(st: State, v: Vnode, size: int)
      requires Books(st, cache.vnodes, {}, size) && (v in st.active || v in st.virt) && v.children == [] && v.parents == [] && v.useCount == 0
      ensures Books(Detached(st, v), cache.vnodes, {v}, size)
    {
      hide Hashed, NoRepeats, Without, Unhashed;
      WithoutNoRepeats(st.active, v);
      WithoutNoRepeats(st.virt, v);
      WithoutMembers(st.active, v);
      WithoutMembers(st.virt, v);
      forall u ensures Hashed(Unhashed(st.buckets, v), u) <==> u != v && Hashed(st.buckets, u) { UnhashedHas(st.buckets, v, u); }
    }

    /** VnodeFree of a vnode that is not already free.  A device vnode is destroyed, any other one goes to the
        head of the free list. */
    method Free(v: Vnode) returns (ok: bool)
      requires Holds({}) && (v in Active() || v in Devices())
      modifies this, racks, racks.lists, racks.lists.nodes, cache, cache.vnodes, cache.lists, cache.lists.nodes
      ensures ok <==> old(v.useCount) == 0
      ensures Holds({}) && (!ok ==> racks.state == old(racks.state))
      ensures ok ==> Active() == Without(old(Active()), v) && Devices() == Without(old(Devices()), v)
      ensures ok ==> Spare() == (if v in old(Active()) then [v] + old(Spare()) else old(Spare()))
      ensures ok ==> cache.log == Purged(old(cache.log), v) && Buckets() == Unhashed(old(Buckets()), v)
      ensures forall u :: u in old(cache.vnodes) && u != v ==> u.useCount == old(u.useCount) && u.mounted == old(u.mounted)
      ensures ok && v in old(Active()) ==> v.useCount == 0 && !v.mounted
      ensures !ok ==> v.useCount == old(v.useCount) && v.mounted == old(v.mounted) && cache.log == old(cache.log)
      ensures cache.vnodes == (if ok && v in old(Devices()) then old(cache.vnodes) - {v} else old(cache.vnodes))
      ensures cache.lists.nodes == old(cache.lists.nodes) && racks.lists.nodes == old(racks.lists.nodes)
      ensures total == old(total) - (if ok && v in old(Devices()) then 1 else 0)
    {
      hide Without, Purged, Keep, Unhashed, Cache.Valid, Racks.Valid, Hashed, NoRepeats, Table.Holds;
      if v.useCount > 0 {
        return false;
      }
      WasOn(v);
      Detach(v);
      if v.dev {
        Destroy(v);
      } else {
        Recycle(v);
      }
      ok := true;
    }

    lemma WasOn(v: Vnode)
      requires Holds({}) && (v in Active() || v in Devices())
      ensures v in cache.vnodes && (v.dev <==> v in Devices()) && (v.dev <==> v !in Active())
    {
    }

    /** A device vnode is gone for good. */
    method Destroy(v: Vnode)
      requires Holds({v})
      modifies this`total, cache`vnodes, racks
      ensures Holds({}) && cache.vnodes == old(cache.vnodes) - {v} && total == old(total) - 1
      ensures racks.state == old(racks.state).(out := {}, bare := old(racks.state.bare) - {v})
    {
      hide NoRepeats, Cache.Valid, Racks.Valid, Hashed, Books;
      total := total - 1;
      PartedBooks(racks.state, v, freeSize);
      racks.Part(v);
      cache.Forget(v);
    }

    lemma PartedBooks(st: State, v: Vnode, size: int)
      requires Books(st, cache.vnodes, {v}, size)
      ensures v in cache.vnodes && Clean(st, v) && (forall w: Which :: v !in st.On(w)) && st.out - {v} == {}
      ensures Books(st.(out := {}, bare := st.bare - {v}), cache.vnodes - {v}, {}, size)
    {
      hide NoRepeats, Hashed;
    }

    /** Any other vnode is wiped and kept for the next allocation. */
    method Recycle(v: Vnode)
      requires Holds({v})
      modifies this`freeSize, v`useCount, v`mounted, v`dev, racks`state, racks.lists, racks.lists.nodes`next, racks.lists.nodes`prev
      ensures Holds({}) && racks.state == old(racks.state).(free := [v] + old(Spare()), out := {})
      ensures racks.lists.nodes == old(racks.lists.nodes) && v.useCount == 0 && !v.mounted
    {
      hide NoRepeats, Cache.Valid, Racks.Valid, Hashed, Books;
      Wipe(v);
      RecycledBooks(racks.state, v, freeSize);
      assert racks.state.out - {v} == {};
      racks.Push(Which.Free, v);
      freeSize := freeSize + 1;
    }

    /** memset_s of the vnode. */
    method Wipe(v: Vnode)
      requires Holds({v})
      modifies v`useCount, v`mounted, v`dev
      ensures Holds({v}) && v.useCount == 0 && !v.mounted
    {
      hide NoRepeats, Cache.Valid, Racks.Valid, Hashed;
      v.useCount, v.mounted, v.dev := 0, false, false;
    }

    lemma RecycledBooks(st: State, v: Vnode, size: int)
      requires Books(st, cache.vnodes, {v}, size)
      ensures st.out == {v} && Books(st.(free := [v] + st.free, out := {}), cache.vnodes, {}, size + 1)
    {
      hide NoRepeats, Hashed;
      NoRepeatsCons(v, st.free);
    }

    lemma HoldsSays()
      requires Holds({})
      ensures NoRepeats(Active()) && forall i :: 0 <= i < |Active()| ==> Active()[i] in cache.vnodes && Active()[i] !in Devices()
    {
    }

    /** How many vnodes a sweep may free; 0 is no limit. */
    ghost function Bound(limit: nat): (n: nat)
      reads racks`state
      ensures n > 0
    {
      if limit == 0 then |Active()| + 1 else limit
    }

    /** The loop over the active list: idle vnodes are freed in its order until `limit` have been.  The next node
        is fetched before the vnode goes. */
    method FreeIdle(limit: nat) returns (count: nat, ghost done: seq<Vnode>)
      requires Holds({})
      modifies this, racks, racks.lists, racks.lists.nodes, cache, cache.vnodes, cache.lists, cache.lists.nodes
      ensures Holds({}) && done == old(Victims(Active(), Bound(limit))) && count == |done|
      ensures Active() == Minus(old(Active()), done) && Devices() == old(Devices()) && Spare() == Reversed(done) + old(Spare())
      ensures cache.log == AllPurged(old(cache.log), done) && Buckets() == AllUnhashed(old(Buckets()), done)
      ensures cache.vnodes == old(cache.vnodes) && total == old(total) && SameHolds()
      ensures cache.lists.nodes == old(cache.lists.nodes) && racks.lists.nodes == old(racks.lists.nodes)
    {
      hide Minus, Reversed, Victims, Chosen, Table.Holds, Sweep.At, Sweep.Ahead, Sweep.Gone, AllPurged, AllUnhashed;
      ghost var sweep := Begin(limit);
      ghost var i := 0;
      count, done := 0, [];
      Next(0);
      var item := racks.heads.active.next;
      while item != racks.heads.active
        invariant Holds({}) && Devices() == old(Devices()) && cache.vnodes == old(cache.vnodes) && total == old(total) && SameHolds()
        invariant cache.lists.nodes == old(cache.lists.nodes) && racks.lists.nodes == old(racks.lists.nodes)
        invariant i <= |sweep.items| && count == |done| <= i && |done| < sweep.n
        invariant sweep.At(i, done, Active(), Spare()) && sweep.Ahead(i, cache.vnodes)
        invariant sweep.Gone(done, cache.log, Buckets())
        invariant item == sweep.NodeAt(i, racks.heads.active)
        decreases |sweep.items| - i
      {
        var freed;
        item, freed := Visit(item, sweep, i, done);
        i := i + 1;
        if freed {
          done, count := done + [sweep.items[i - 1]], count + 1;
          if count == limit {
            sweep.Ended(i, done, Active(), Spare());
            sweep.GoneSays(done, cache.log, Buckets());
            return;
          }
        }
      }
      AtHeader(sweep, i, done);
      sweep.Ended(i, done, Active(), Spare());
      sweep.GoneSays(done, cache.log, Buckets());
    }

    lemma Begin(limit: nat) returns (sweep: Sweep)
      requires Holds({})
      ensures sweep.items == Active() && sweep.n == Bound(limit) && sweep.before == Spare()
      ensures sweep.log == cache.log && sweep.buckets == Buckets() && sweep.Gone([], cache.log, Buckets())
      ensures sweep.At(0, [], Active(), Spare()) && sweep.Ahead(0, cache.vnodes)
      ensures Victims(Active(), Bound(limit)) == Chosen(sweep.items, sweep.idle, sweep.n)
    {
      hide Minus, Reversed, Victims, Chosen, Table.Holds, Sweep.At, NoRepeats;
      HoldsSays();
      ghost var items := Active();
      sweep := Sweep(items, (set v | v in items && Idle(v)), Bound(limit), Spare(), cache.log, Buckets());
      VictimsAreChosen(items, sweep.idle, sweep.n);
      sweep.Start();
    }

    /** The walk is back at the header only at the end. */
    lemma AtHeader(sweep: Sweep, i: nat, done: seq<Vnode>)
      requires Holds({}) && sweep.At(i, done, Active(), Spare()) && i <= |sweep.items|
      ensures i < |sweep.items| ==> sweep.items[i].actEntry != racks.heads.active
    {
      hide Minus, Reversed, Table.Holds, Sweep.At;
      var p := sweep.Place(i, done, Active(), Spare());
      Next(p);
    }

    /** One step of the walk. */
    method Visit(item: Node, ghost sweep: Sweep, ghost i: nat, ghost done: seq<Vnode>) returns (next: Node, freed: bool)
      requires i < |sweep.items| && sweep.NodeAt(i, racks.heads.active) == item && |done| < sweep.n && Holds({})
      requires sweep.At(i, done, Active(), Spare()) && sweep.Ahead(i, cache.vnodes) && sweep.Gone(done, cache.log, Buckets())
      modifies this, racks, racks.lists, racks.lists.nodes, cache, cache.vnodes, cache.lists, cache.lists.nodes
      ensures cache.vnodes == old(cache.vnodes) && total == old(total) && Devices() == old(Devices()) && SameHolds()
      ensures cache.lists.nodes == old(cache.lists.nodes) && racks.lists.nodes == old(racks.lists.nodes)
      ensures next == sweep.NodeAt(i + 1, racks.heads.active)
      ensures Holds({}) && sweep.Ahead(i + 1, cache.vnodes)
      ensures sweep.At(i + 1, sweep.Grown(done, i, freed), Active(), Spare())
      ensures sweep.Gone(sweep.Grown(done, i, freed), cache.log, Buckets())
    {
      hide Minus, Without, Reversed, Chosen, Table.Holds, Sweep.At, Sweep.Gone, NoRepeats, Purged, Unhashed;
      HoldsSays();
      ghost var p := sweep.Place(i, done, Active(), Spare());
      ghost var active, spare := Active(), Spare();
      next, freed := FreeIfIdle(item, p);
      sweep.Distinct(i, done, active, spare);
      if freed {
        sweep.Freed(i, done, active, spare);
        sweep.MoreGone(done, old(cache.log), old(Buckets()), sweep.items[i]);
      } else {
        sweep.Skip(i, done, active, spare);
      }
    }

    /** The p-th vnode of the active list is freed if it is idle, the next node being fetched before. */
    method FreeIfIdle(item: Node, ghost p: nat) returns (next: Node, freed: bool)
      requires Holds({}) && p < |Active()| && Active()[p].actEntry == item
      modifies this, racks, racks.lists, racks.lists.nodes, cache, cache.vnodes, cache.lists, cache.lists.nodes
      ensures cache.vnodes == old(cache.vnodes) && total == old(total) && SameHolds()
      ensures freed == old(Idle(Active()[p])) && Devices() == old(Devices())
      ensures next == if p + 1 < |old(Active())| then old(Active())[p + 1].actEntry else racks.heads.active
      ensures Active() == if freed then Without(old(Active()), old(Active())[p]) else old(Active())
      ensures Spare() == if freed then [old(Active())[p]] + old(Spare()) else old(Spare())
      ensures cache.log == if freed then Purged(old(cache.log), old(Active())[p]) else old(cache.log)
      ensures Buckets() == if freed then Unhashed(old(Buckets()), old(Active())[p]) else old(Buckets())
      ensures forall u :: u in old(cache.vnodes) && u != old(Active())[p] ==> Idle(u) == old(Idle(u))
      ensures Holds({})
      ensures cache.lists.nodes == old(cache.lists.nodes) && racks.lists.nodes == old(racks.lists.nodes)
    {
      hide Without, Table.Holds, Purged, Unhashed;
      HoldsSays();
      Next(p);
      Next(p + 1);
      next := item.next;
      var v := item.owner as Vnode;
      freed := v.useCount == 0 && !v.mounted;
      if freed {
        var _ := Free(v);
        WithoutAbsent(old(Devices()), v);
      }
    }

    /** Behind the i-th node of the active list comes the next vnode's, which knows the vnode, or the header. */
    lemma Next(i: nat)
      requires Holds({}) && i <= |Active()|
      ensures var at := if i == 0 then racks.heads.active else Active()[i - 1].actEntry;
              && at.next == (if i < |Active()| then Active()[i].actEntry else racks.heads.active)
              && (i < |Active()| ==> Active()[i].actEntry != racks.heads.active && Active()[i].actEntry.owner == Active()[i])
    {
      hide Books, Cache.Valid, Racks.Valid;
      racks.Walk(Which.Active, i);
    }

    /** VnodeReclaimLru: the first ten idle vnodes go to the free list, and the last of them is handed out. */
    method Reclaim() returns (v: Vnode?)
      requires Holds({})
      modifies this, racks, racks.lists, racks.lists.nodes, cache, cache.vnodes, cache.lists, cache.lists.nodes
      ensures v == null <==> old(Victims(Active(), LRU_COUNT)) == []
      ensures v == null ==> Holds({}) && Active() == old(Active()) && Spare() == old(Spare())
      ensures v != null ==> Holds({v}) && v in cache.vnodes
      ensures v != null ==> var done := old(Victims(Active(), LRU_COUNT));
                && v == done[|done| - 1] && Active() == Minus(old(Active()), done)
                && Spare() == Reversed(done[..|done| - 1]) + old(Spare())
      ensures var done := old(Victims(Active(), LRU_COUNT));
              cache.log == AllPurged(old(cache.log), done) && Buckets() == AllUnhashed(old(Buckets()), done)
      ensures Devices() == old(Devices()) && cache.vnodes == old(cache.vnodes) && total == old(total) && SameHolds()
      ensures cache.lists.nodes == old(cache.lists.nodes) && racks.lists.nodes == old(racks.lists.nodes)
    {
      hide Minus, Table.Holds, Victims;
      var count, done := FreeIdle(LRU_COUNT);
      if count == 0 {
        MinusNothing(old(Active()));
        assert Reversed<Vnode>([]) + old(Spare()) == old(Spare());
        return null;
      }
      v := GetFromFree();
      assert (Reversed(done) + old(Spare()))[1..] == Reversed(done[..|done| - 1]) + old(Spare());
    }

    /** VnodeClearCache: every idle vnode of the active list is freed. */
    method ClearCache() returns (count: nat)
      requires Holds({})
      modifies this, racks, racks.lists, racks.lists.nodes, cache, cache.vnodes, cache.lists, cache.lists.nodes
      ensures Holds({}) && count == |old(Victims(Active(), |Active()| + 1))| && cache.vnodes == old(cache.vnodes)
      ensures total == old(total) && SameHolds()
      ensures cache.lists.nodes == old(cache.lists.nodes) && racks.lists.nodes == old(racks.lists.nodes)
      ensures Active() == Minus(old(Active()), old(Victims(Active(), |Active()| + 1)))
      ensures Spare() == Reversed(old(Victims(Active(), |Active()| + 1))) + old(Spare()) && Devices() == old(Devices())
      ensures var done := old(Victims(Active(), |Active()| + 1));
              cache.log == AllPurged(old(cache.log), done) && Buckets() == AllUnhashed(old(Buckets()), done)
    {
      hide Minus, Table.Holds, Victims, Reversed, AllPurged, AllUnhashed;
      ghost var done;
      count, done := FreeIdle(0);
    }

    /** VnodeAlloc: a free vnode, else a new one while there is room and memory, else a reclaimed one; `memory`
        says whether the heap has room for one.  The total grows even when it has none. */
    method Alloc(dev: bool, memory: bool) returns (v: Vnode?)
      requires Holds({})
      modifies this, racks, racks.lists, racks.lists.nodes, cache, cache.vnodes, cache.lists, cache.lists.nodes
      ensures Holds({})
      ensures v != null ==> v.children == [] && v.parents == [] && !Hashed(Buckets(), v) && v.dev == dev
      ensures Devices() == if dev && v != null then [v] + old(Devices()) else old(Devices())
      ensures old(Spare()) != [] ==> v == old(Spare())[0] && Spare() == old(Spare())[1..] && Active() == old(Active()) + Ending(v, dev)
      ensures old(Spare()) == [] && old(total) < max && memory ==> v != null && fresh(v) && Spare() == [] && Active() == old(Active()) + Ending(v, dev)
      ensures old(Spare()) != [] || (old(total) < max && memory) ==> cache.log == old(cache.log) && Buckets() == old(Buckets())
      ensures old(Spare()) == [] && !(old(total) < max && memory) ==>
                var done := old(Victims(Active(), LRU_COUNT));
                && (v == null <==> done == []) && (v != null ==> v == done[|done| - 1])
                && Active() == Minus(old(Active()), done) + Ending(v, dev) && Spare() == (if v == null then [] else Reversed(done[..|done| - 1]))
                && cache.log == AllPurged(old(cache.log), done) && Buckets() == AllUnhashed(old(Buckets()), done)
      ensures total == old(total) + (if old(Spare()) == [] && old(total) < max then 1 else 0) && SameHolds()
      ensures if old(Spare()) == [] && old(total) < max && memory then cache.vnodes == old(cache.vnodes) + {v} && v.useCount == 0 && !v.mounted
              else cache.vnodes == old(cache.vnodes)
      ensures forall u :: u in cache.vnodes ==> u in old(cache.vnodes) || fresh(u)
      ensures forall n :: n in cache.lists.nodes ==> n in old(cache.lists.nodes) || fresh(n)
      ensures forall n :: n in racks.lists.nodes ==> n in old(racks.lists.nodes) || fresh(n)
    {
      hide Minus, Table.Holds, Victims, Reversed, Hashed, AllPurged, AllUnhashed;
      v := Obtain(memory);
      if v != null {
        Enlist(v, dev);
      }
    }

    /** The vnode that is to be handed out, on no list yet. */
    method Obtain(memory: bool) returns (v: Vnode?)
      requires Holds({})
      modifies this, racks, racks.lists, racks.lists.nodes, cache, cache.vnodes, cache.lists, cache.lists.nodes
      ensures if v == null then Holds({}) else Holds({v}) && v in cache.vnodes
      ensures Devices() == old(Devices())
      ensures old(Spare()) != [] ==> v == old(Spare())[0] && Spare() == old(Spare())[1..] && Active() == old(Active())
      ensures old(Spare()) == [] && old(total) < max && memory ==> v != null && fresh(v) && Spare() == [] && Active() == old(Active())
      ensures old(Spare()) != [] || (old(total) < max && memory) ==> cache.log == old(cache.log) && Buckets() == old(Buckets())
      ensures old(Spare()) == [] && !(old(total) < max && memory) ==>
                var done := old(Victims(Active(), LRU_COUNT));
                && (v == null <==> done == []) && (v != null ==> v == done[|done| - 1])
                && Active() == Minus(old(Active()), done) && Spare() == (if v == null then [] else Reversed(done[..|done| - 1]))
                && cache.log == AllPurged(old(cache.log), done) && Buckets() == AllUnhashed(old(Buckets()), done)
      ensures total == old(total) + (if old(Spare()) == [] && old(total) < max then 1 else 0) && SameHolds()
      ensures if old(Spare()) == [] && old(total) < max && memory then cache.vnodes == old(cache.vnodes) + {v} && v.useCount == 0 && !v.mounted
              else cache.vnodes == old(cache.vnodes)
      ensures forall n :: n in cache.lists.nodes ==> n in old(cache.lists.nodes) || fresh(n)
      ensures forall n :: n in racks.lists.nodes ==> n in old(racks.lists.nodes) || fresh(n)
    {
      hide Minus, Table.Holds, Victims, Reversed, Hashed, AllPurged, AllUnhashed;
      v := GetFromFree();
      if v == null && total < max {
        if memory {
          v := NewVnode();
        }
        total := total + 1;
      }
      if v == null {
        MinusNothing(old(Active()));
        v := Reclaim();
      }
    }

    /** What the active list gains at its end. */
    function Ending(v: Vnode?, dev: bool): seq<Vnode> { if dev || v == null then [] else [v] }

    /** A vnode fresh from the heap joins those the cache covers, on no list yet. */
    method NewVnode() returns (v: Vnode)
      requires Holds({})
      modifies cache`vnodes, cache.lists, racks, racks.lists`nodes
      ensures fresh(v) && Holds({v}) && cache.vnodes == old(cache.vnodes) + {v} && v.useCount == 0 && !v.mounted
      ensures Active() == old(Active()) && Spare() == old(Spare()) && Devices() == old(Devices()) && Buckets() == old(Buckets())
      ensures forall n :: n in cache.lists.nodes ==> n in old(cache.lists.nodes) || fresh(n)
      ensures forall n :: n in racks.lists.nodes ==> n in old(racks.lists.nodes) || fresh(n)
    {
      hide NoRepeats, Cache.Valid, Racks.Valid, Books;
      v := new Vnode();
      assert !Hashed(Buckets(), v) && v !in cache.vnodes;
      RacksWithin();
      JoinedBooks(racks.state, v, freeSize);
      cache.Cover(v);
      racks.Join(v);
    }

    lemma RacksWithin()
      requires racks.Valid()
      ensures racks.state.alone <= racks.all && racks.state.out <= racks.all
    {
    }

    lemma JoinedBooks(st: State, v: Vnode, size: int)
      requires Books(st, cache.vnodes, {}, size) && v !in cache.vnodes && !Hashed(st.buckets, v) && st.alone <= cache.vnodes
      requires v.children == [] && v.parents == [] && v.useCount == 0
      ensures Books(st.(out := st.out + {v}, bare := st.bare + {v}), cache.vnodes + {v}, {v}, size)
    {
      hide NoRepeats, Hashed;
    }

    /** The end of VnodeAlloc: device vnodes head the virtual list, others end the active one. */
    method Enlist(v: Vnode, dev: bool)
      requires Holds({v})
      modifies v`dev, racks`state, racks.lists, racks.lists.nodes`next, racks.lists.nodes`prev
      ensures Holds({}) && v.children == [] && v.parents == [] && !Hashed(Buckets(), v) && v.dev == dev
      ensures if dev then Devices() == [v] + old(Devices()) && Active() == old(Active())
              else Active() == old(Active()) + [v] && Devices() == old(Devices())
      ensures Spare() == old(Spare()) && Buckets() == old(Buckets()) && racks.lists.nodes == old(racks.lists.nodes)
    {
      hide NoRepeats, Cache.Valid, Racks.Valid, Hashed, Books;
      SetDev(v, dev);
      EnlistedBooks(racks.state, v, dev, freeSize);
      assert racks.state.out - {v} == {};
      racks.Ready(v);
      if dev {
        racks.Push(Virtual, v);
      } else {
        racks.Append(Which.Active, v);
      }
    }

    method SetDev(v: Vnode, dev: bool)
      requires Holds({v})
      modifies v`dev
      ensures Holds({v}) && v.dev == dev
    {
      hide NoRepeats, Cache.Valid, Racks.Valid, Hashed;
      v.dev := dev;
    }

    lemma EnlistedBooks(st: State, v: Vnode, dev: bool, size: int)
      requires Books(st, cache.vnodes, {v}, size) && v.dev == dev
      ensures v in cache.vnodes && v in st.bare && st.out == {v} && v.children == [] && v.parents == [] && !Hashed(st.buckets, v)
      ensures var ready := st.(bare := st.bare - {v}, alone := st.alone + {v}, out := {});
              Books(if dev then ready.(virt := [v] + st.virt) else ready.(active := st.active + [v]), cache.vnodes, {}, size)
    {
      hide NoRepeats, Hashed;
      NoRepeatsCons(v, st.virt);
      NoRepeatsSnoc(st.active, v);
    }

    /** RefreshLRU of a vnode of a mounted file system: it becomes the most recently used. */
    method Refresh(v: Vnode)
      requires Holds({}) && v in Active()
      modifies racks`state, racks.lists, racks.lists.nodes`next, racks.lists.nodes`prev
      ensures Holds({}) && racks.state == old(racks.state).(active := Without(old(Active()), v) + [v])
      ensures racks.lists.nodes == old(racks.lists.nodes)
    {
      hide NoRepeats, Cache.Valid, Racks.Valid, Hashed, Without, Books;
      ghost var w, k := PlaceOf(v);
      RefreshedBooks(racks.state, v, freeSize);
      assert {} + {v} - {v} == {};
      racks.Remove(v, Which.Active, k);
      racks.Append(Which.Active, v);
    }

    lemma RefreshedBooks(st: State, v: Vnode, size: int)
      requires Books(st, cache.vnodes, {}, size) && v in st.active
      ensures st.out == {} && Books(st.(active := Without(st.active, v) + [v]), cache.vnodes, {}, size)
    {
      hide Hashed, NoRepeats, Without;
      WithoutNoRepeats(st.active, v);
      WithoutMembers(st.active, v);
      NoRepeatsSnoc(Without(st.active, v), v);
    }

    /** VfsHashInsert of a vnode that is in no bucket yet. */
    method HashInsert(v: Vnode, b: nat)
      requires Holds({}) && (v in Active() || v in Devices()) && b < |Buckets()| && !Hashed(Buckets(), v)
      modifies racks`state, racks.lists, racks.lists.nodes`next, racks.lists.nodes`prev
      ensures Holds({}) && racks.lists.nodes == old(racks.lists.nodes)
      ensures racks.state == old(racks.state).(buckets := old(Buckets())[b := [v] + old(Buckets())[b]], alone := old(racks.state.alone) - {v})
    {
      hide NoRepeats, Cache.Valid, Racks.Valid, Hashed, Books;
      HashedBooks(racks.state, v, b, freeSize);
      racks.HashInsert(v, b);
    }

    lemma HashedBooks(st: State, v: Vnode, b: nat, size: int)
      requires Books(st, cache.vnodes, {}, size) && (v in st.active || v in st.virt) && b < |st.buckets| && !Hashed(st.buckets, v)
      ensures v in st.alone && Books(st.(buckets := st.buckets[b := [v] + st.buckets[b]], alone := st.alone - {v}), cache.vnodes, {}, size)
    {
      hide NoRepeats;
      var buckets := st.buckets[b := [v] + st.buckets[b]];
      forall u
        ensures Hashed(buckets, u) <==> u == v || Hashed(st.buckets, u)
      {
        HashedWith(st.buckets, v, b, u);
      }
    }

    /** The i-th vnode of the active list, or of the virtual one, found by walking it. */
    method Nth(w: Which, i: nat) returns (v: Vnode?)
      requires Holds({})
      ensures v == if i < |racks.state.On(w)| then racks.state.On(w)[i] else null
    {
      hide Holds, Racks.Valid;
      ghost var s := racks.state.On(w);
      RacksHold();
      racks.Walk(w, 0);
      var at := racks.heads.For(w).next;
      var k := 0;
      while k < i && at != racks.heads.For(w)
        invariant k <= i && k <= |s| && at == if k < |s| then s[k].actEntry else racks.heads.For(w)
      {
        racks.Walk(w, k);
        racks.Walk(w, k + 1);
        at, k := at.next, k + 1;
      }
      racks.Walk(w, k);
      if at == racks.heads.For(w) {
        return null;
      }
      return at.owner as Vnode;
    }

    lemma RacksHold()
      requires Holds({})
      ensures racks.Valid() && |racks.heads.hash| == |Buckets()|
    {
    }

    /** One operation of a run; vnodes are named by their place in a list. */
    method Step(op: Op)
      requires Holds({})
      modifies this, racks, racks.lists, racks.lists.nodes, cache, cache.vnodes, cache.lists, cache.lists.nodes
      ensures Holds({}) && forall u :: u in cache.vnodes ==> u in old(cache.vnodes) || fresh(u)
      ensures forall n :: n in cache.lists.nodes ==> n in old(cache.lists.nodes) || fresh(n)
      ensures forall n :: n in racks.lists.nodes ==> n in old(racks.lists.nodes) || fresh(n)
      ensures Moves(op, old(Seen()), Seen(), max)
    {
      hide Holds, Seen, Moves;
      match op {
        case New(dev, memory) =>
          StepNew(dev, memory);
        case Release(w, i) =>
          StepRelease(w, i);
        case Touch(i) =>
          StepTouch(i);
        case Use(w, i, count, mounted) =>
          StepUse(w, i, count, mounted);
        case Name(w, i, x, j, name, memory) =>
          StepName(w, i, x, j, name, memory);
        case Hash(w, i, b) =>
          StepHash(w, i, b);
        case Clear =>
          StepClear();
      }
    }

    method StepNew(dev: bool, memory: bool)
      requires Holds({})
      modifies this, racks, racks.lists, racks.lists.nodes, cache, cache.vnodes, cache.lists, cache.lists.nodes
      ensures Holds({}) && forall u :: u in cache.vnodes ==> u in old(cache.vnodes) || fresh(u)
      ensures forall n :: n in cache.lists.nodes ==> n in old(cache.lists.nodes) || fresh(n)
      ensures forall n :: n in racks.lists.nodes ==> n in old(racks.lists.nodes) || fresh(n)
      ensures Moves(New(dev, memory), old(Seen()), Seen(), max)
    {
      hide Hashed, Minus, Reversed, Victims, Holds, AllPurged, AllUnhashed, Chosen, Snap.Idlers, Moves, Snap.Swept;
      VictimsSeen(LRU_COUNT);
      ghost var s := Seen();
      var v := Alloc(dev, memory);
      if s.spare == [] && s.total < max && memory {
        HeldIs(s.holds[v := Hold(0, false)]);
        Grown(s, Seen(), dev, v, max);
      } else {
        HeldIs(s.holds);
        if s.spare != [] {
          Taken(s, Seen(), dev, memory, max);
        } else {
          Reclaimed(s, Seen(), dev, memory, v, max);
        }
      }
    }

    method StepRelease(w: Which, i: nat)
      requires Holds({})
      modifies this, racks, racks.lists, racks.lists.nodes, cache, cache.vnodes, cache.lists, cache.lists.nodes
      ensures Holds({}) && cache.vnodes <= old(cache.vnodes)
      ensures cache.lists.nodes == old(cache.lists.nodes) && racks.lists.nodes == old(racks.lists.nodes)
      ensures Moves(Release(w, i), old(Seen()), Seen(), max)
    {
      hide Hashed, Without, Purged, Unhashed, Holds, Moves;
      ghost var s := Seen();
      OnSeen(w);
      var v := Nth(w, i);
      if v != null && w != Which.Free {
        WasOn(v);
        var ok := Free(v);
        HeldIs(if !ok then s.holds else if v in s.active then s.holds[v := Hold(0, false)] else s.holds - {v});
        Released(s, Seen(), w, i, ok, max);
      } else {
        Idled(Release(w, i), s, max);
      }
    }

    method StepTouch(i: nat)
      requires Holds({})
      modifies racks`state, racks.lists, racks.lists.nodes`next, racks.lists.nodes`prev
      ensures Holds({}) && racks.lists.nodes == old(racks.lists.nodes)
      ensures Moves(Touch(i), old(Seen()), Seen(), max)
    {
      hide Without, Holds, Moves;
      ghost var s := Seen();
      var v := Nth(Which.Active, i);
      if v != null {
        Refresh(v);
        Touched(s, Seen(), i, max);
      } else {
        Idled(Touch(i), s, max);
      }
    }

    method StepUse(w: Which, i: nat, count: nat, mounted: bool)
      requires Holds({})
      modifies cache.vnodes`useCount, cache.vnodes`mounted
      ensures Holds({})
      ensures Moves(Use(w, i, count, mounted), old(Seen()), Seen(), max)
    {
      hide Holds, Moves, Findable, Racks.Valid;
      ghost var s := Seen();
      OnSeen(w);
      var v := Nth(w, i);
      if v != null && w != Which.Free {
        WasOn(v);
        Mark(v, count, mounted);
        HeldIs(s.holds[v := Hold(count, mounted)]);
        Used(s, Seen(), w, i, count, mounted, max);
      } else {
        Idled(Use(w, i, count, mounted), s, max);
      }
    }

    method StepName(w: Which, i: nat, x: Which, j: nat, name: seq<char>, memory: bool)
      requires Holds({})
      modifies cache`buckets, cache`log, cache.vnodes`children, cache.vnodes`parents
      modifies cache.lists, cache.lists.nodes`next, cache.lists.nodes`prev
      ensures Holds({})
      ensures forall n :: n in cache.lists.nodes ==> n in old(cache.lists.nodes) || fresh(n)
      ensures Moves(Name(w, i, x, j, name, memory), old(Seen()), Seen(), max)
    {
      hide Holds, Moves;
      ghost var s := Seen();
      OnSeen(w);
      OnSeen(x);
      var parent := Nth(w, i);
      var child := Nth(x, j);
      if parent != null && child != null && w != Which.Free && x != Which.Free {
        NameEntry(parent, child, name, memory);
        HeldIs(s.holds);
        Named(s, Seen(), w, i, x, j, name, memory, max);
      } else {
        Idled(Name(w, i, x, j, name, memory), s, max);
      }
    }

    method StepHash(w: Which, i: nat, b: nat)
      requires Holds({})
      modifies racks`state, racks.lists, racks.lists.nodes`next, racks.lists.nodes`prev
      ensures Holds({}) && racks.lists.nodes == old(racks.lists.nodes)
      ensures Moves(Hash(w, i, b), old(Seen()), Seen(), max)
    {
      hide Holds, Hashed, Moves;
      ghost var s := Seen();
      OnSeen(w);
      var v := Nth(w, i);
      if v != null && w != Which.Free {
        HashOnce(v, b);
        HashedIn(s, Seen(), w, i, b, max);
      } else {
        Idled(Hash(w, i, b), s, max);
      }
    }

    method StepClear()
      requires Holds({})
      modifies this, racks, racks.lists, racks.lists.nodes, cache, cache.vnodes, cache.lists, cache.lists.nodes
      ensures Holds({}) && cache.vnodes == old(cache.vnodes)
      ensures cache.lists.nodes == old(cache.lists.nodes) && racks.lists.nodes == old(racks.lists.nodes)
      ensures Moves(Clear, old(Seen()), Seen(), max)
    {
      hide Minus, Reversed, Victims, Holds, AllPurged, AllUnhashed, Chosen, Snap.Idlers, Moves;
      VictimsSeen(|Active()| + 1);
      ghost var s := Seen();
      var _ := ClearCache();
      HeldIs(s.holds);
      Cleared(s, Seen(), max);
    }

    lemma OnSeen(w: Which)
      requires Holds({})
      ensures racks.state.On(w) == Seen().On(w)
      ensures w != Which.Free ==> forall i :: 0 <= i < |Seen().On(w)| ==> Seen().On(w)[i] in Active() || Seen().On(w)[i] in Devices()
    {
      hide Holds;
    }

    /** References are taken and dropped, and a file system is mounted on the vnode or unmounted. */
    method Mark(v: Vnode, count: nat, mounted: bool)
      requires Holds({}) && (v in Active() || v in Devices())
      modifies v`useCount, v`mounted
      ensures Holds({}) && v.useCount == count && v.mounted == mounted
    {
      hide NoRepeats, Cache.Valid, Racks.Valid, Hashed;
      v.useCount, v.mounted := count, mounted;
    }

    /** A vnode whose hash node points to itself is in no bucket. */
    method HashOnce(v: Vnode, b: nat)
      requires Holds({}) && (v in Active() || v in Devices())
      modifies racks`state, racks.lists, racks.lists.nodes`next, racks.lists.nodes`prev
      ensures Holds({}) && racks.lists.nodes == old(racks.lists.nodes)
      ensures Active() == old(Active()) && Devices() == old(Devices()) && Spare() == old(Spare())
      ensures Buckets() == if b >= |old(Buckets())| || Hashed(old(Buckets()), v) then old(Buckets()) else old(Buckets())[b := [v] + old(Buckets())[b]]
    {
      hide NoRepeats, Cache.Valid, Racks.Valid, Hashed, Holds;
      Listed(v);
      racks.PointsToItself(v);
      if b < |racks.heads.hash| && v.hashEntry.next == v.hashEntry {
        HashInsert(v, b);
      }
    }

    lemma Listed(v: Vnode)
      requires Holds({}) && (v in Active() || v in Devices())
      ensures racks.Valid() && v in racks.all && v in cache.vnodes && |racks.heads.hash| == |Buckets()| && Findable(racks.state, v)
    {
    }

    /** A path cache entry between two vnodes in use. */
    method NameEntry(parent: Vnode, child: Vnode, name: seq<char>, memory: bool)
      requires Holds({}) && (parent in Active() || parent in Devices()) && (child in Active() || child in Devices())
      modifies cache`buckets, cache`log, cache.vnodes`children, cache.vnodes`parents
      modifies cache.lists, cache.lists.nodes`next, cache.lists.nodes`prev
      ensures Holds({}) && cache.vnodes == old(cache.vnodes)
      ensures if |name| > NAME_MAX || !memory then cache.log == old(cache.log)
              else |cache.log| == |old(cache.log)| + 1 && var pc := cache.log[0];
                   pc.parent == parent && pc.child == child && pc.name == name && cache.log == [pc] + old(cache.log)
      ensures forall n :: n in cache.lists.nodes ==> n in old(cache.lists.nodes) || fresh(n)
    {
      hide NoRepeats, Hashed, Cache.Valid, Racks.Valid;
      var _ := cache.Alloc(parent, child, name, memory);
    }

    /** Whatever is done with vnodes, each stays on exactly one list, the free counter counts the free list,
        free vnodes are in no hash bucket and no path cache entry, every list stays linked, and each operation does to
        the lists, the buckets and the path cache what Moves says. */
    method Perform(script: seq<Op>) returns (ghost states: seq<Snap>)
      requires Holds({})
      modifies this, racks, racks.lists, racks.lists.nodes, cache, cache.vnodes, cache.lists, cache.lists.nodes
      ensures Holds({})
      ensures |states| == |script| + 1 && states[0] == old(Seen()) && states[|script|] == Seen()
      ensures forall i :: 0 <= i < |script| ==> Moves(script[i], states[i], states[i + 1], max)
    {
      hide Table.Holds, Seen, Moves;
      states := [Seen()];
      for i := 0 to |script|
        invariant Holds({}) && forall u :: u in cache.vnodes ==> u in old(cache.vnodes) || fresh(u)
        invariant forall n :: n in cache.lists.nodes ==> n in old(cache.lists.nodes) || fresh(n)
        invariant forall n :: n in racks.lists.nodes ==> n in old(racks.lists.nodes) || fresh(n)
        invariant |states| == i + 1 && states[0] == old(Seen()) && states[i] == Seen()
        invariant forall j :: 0 <= j < i ==> Moves(script[j], states[j], states[j + 1], max)
      {
        Step(script[i]);
        states := states + [Seen()];
      }
    }
  }

  lemma HashedWith(buckets: seq<seq<Vnode>>, v: Vnode, b: nat, u: Vnode)
    requires b < |buckets|
    ensures Hashed(buckets[b := [v] + buckets[b]], u) <==> u == v || Hashed(buckets, u)
  {
    var after := buckets[b := [v] + buckets[b]];
    assert v in after[b];
    if Hashed(buckets, u) {
      var c :| 0 <= c < |buckets| && u in buckets[c];
      assert u in after[c];
    }
  }

  datatype Op =
    | New(dev: bool, memory: bool)
    | Release(w: Which, i: nat)
    | Touch(i: nat)
    | Use(w: Which, i: nat, count: nat, mounted: bool)
    | Name(w: Which, i: nat, x: Which, j: nat, name: seq<char>, memory: bool)
    | Hash(w: Which, i: nat, b: nat)
    | Clear
}
