/** The free, active and virtual vnode lists of fs/vfs/vnode.c and the hash buckets of fs/vfs/vnode_hash.c:
    rings of the nodes embedded in vnodes, proved against the sequences of vnodes they hold. */
module VnodeLists {
  import opened Sequences
  import opened IntrusiveList
  import opened PathCaches

  /** By which of its nodes a vnode is in a list. */
  datatype Link = ByAct | ByHash

  function NodeOf(link: Link, v: Vnode): Node {
    match link
    case ByAct => v.actEntry
    case ByHash => v.hashEntry
  }

  function NodesBy(link: Link, s: seq<Vnode>): (r: seq<Node>)
    ensures |r| == |s| && forall i :: 0 <= i < |s| ==> r[i] == NodeOf(link, s[i])
  {
    seq(|s|, i requires 0 <= i < |s| => NodeOf(link, s[i]))
  }

  lemma NodesByCons(link: Link, v: Vnode, s: seq<Vnode>)
    ensures NodesBy(link, [v] + s) == [NodeOf(link, v)] + NodesBy(link, s)
    ensures NodesBy(link, s + [v]) == NodesBy(link, s) + [NodeOf(link, v)]
  {
  }

  lemma NodesByCut(link: Link, s: seq<Vnode>, k: nat)
    requires k < |s|
    ensures NodesBy(link, s[..k] + s[k + 1..]) == NodesBy(link, s)[..k] + NodesBy(link, s)[k + 1..]
  {
    hide NodeOf;
  }

  ghost predicate Ring(rings: map<Node, seq<Node>>, head: Node, link: Link, s: seq<Vnode>) {
    head in rings && rings[head] == NodesBy(link, s)
  }

  /** The hash node points to itself. */
  ghost predicate Alone(rings: map<Node, seq<Node>>, node: Node) {
    node in rings && rings[node] == []
  }

  /** Hash buckets without the vnode. */
  function Unhashed(buckets: seq<seq<Vnode>>, v: Vnode): (r: seq<seq<Vnode>>)
    ensures |r| == |buckets| && forall b :: 0 <= b < |r| ==> r[b] == Without(buckets[b], v)
  {
    seq(|buckets|, b requires 0 <= b < |buckets| => Without(buckets[b], v))
  }

  predicate Hashed(buckets: seq<seq<Vnode>>, v: Vnode) {
    exists b :: 0 <= b < |buckets| && v in buckets[b]
  }

  lemma UnhashedHas(buckets: seq<seq<Vnode>>, v: Vnode, u: Vnode)
    ensures Hashed(Unhashed(buckets, v), u) <==> u != v && Hashed(buckets, u)
  {
    forall b | 0 <= b < |buckets|
      ensures u in Unhashed(buckets, v)[b] <==> u in buckets[b] && u != v
    {
      WithoutHas(buckets[b], v, u);
    }
    if u != v && Hashed(buckets, u) {
      var b :| 0 <= b < |buckets| && u in buckets[b];
      assert u in Unhashed(buckets, v)[b];
    }
  }

  lemma UnhashedSame(buckets: seq<seq<Vnode>>, v: Vnode)
    requires !Hashed(buckets, v)
    ensures Unhashed(buckets, v) == buckets
  {
    hide Without;
    forall b | 0 <= b < |buckets| ensures Without(buckets[b], v) == buckets[b] { WithoutAbsent(buckets[b], v); }
  }

  ghost predicate BucketsIn(buckets: seq<seq<Vnode>>, all: set<Vnode>) {
    forall b, i :: 0 <= b < |buckets| && 0 <= i < |buckets[b]| ==> buckets[b][i] in all
  }

  datatype Which = Free | Active | Virtual

  /** What the lists hold. */
  datatype State = State(
    free: seq<Vnode>, active: seq<Vnode>, virt: seq<Vnode>, buckets: seq<seq<Vnode>>,
    out: set<Vnode>,                           // on none of the three lists
    bare: set<Vnode>,                          // the hash node points nowhere
    alone: set<Vnode>                          // the hash node points to itself
  ) {
    function On(w: Which): seq<Vnode> {
      match w
      case Free => free
      case Active => active                    // least recently used first
      case Virtual => virt
    }

    function With(w: Which, s: seq<Vnode>): State {
      match w
      case Free => this.(free := s)
      case Active => this.(active := s)
      case Virtual => this.(virt := s)
    }

    ghost predicate Within(all: set<Vnode>) {
      && (forall w, i :: 0 <= i < |On(w)| ==> On(w)[i] in all)
      && BucketsIn(buckets, all) && out <= all && bare <= all && alone <= all
    }
  }

  /** The headers, told apart by what they are for. */
  datatype Heads = Heads(free: Node, active: Node, virt: Node, hash: seq<Node>) {
    function For(w: Which): Node {
      match w
      case Free => free
      case Active => active
      case Virtual => virt
    }

    function All(): seq<Node> {
      [free, active, virt] + hash
    }

    ghost predicate Apart() {
      && free.role == FreeHead && active.role == ActiveHead && virt.role == VirtualHead
      && NoRepeats(hash) && forall b :: 0 <= b < |hash| ==> hash[b].role == VnodeHashHead
    }
  }

  /** The rings are the lists, and the other nodes are in none. */
  ghost predicate Fits(rings: map<Node, seq<Node>>, heads: Heads, st: State) {
    && (forall w: Which :: Ring(rings, heads.For(w), ByAct, st.On(w)))
    && |heads.hash| == |st.buckets|
    && (forall b :: 0 <= b < |st.buckets| ==> Ring(rings, heads.hash[b], ByHash, st.buckets[b]))
    && (forall v :: v in st.alone ==> Alone(rings, v.hashEntry))
    && AtLarge(rings, st.out, st.bare)
  }

  /** Every vnode's nodes are among those of the lists, and know the vnode. */
  ghost predicate Entered(all: set<Vnode>, nodes: set<Node>)
    reads nodes`owner
  {
    forall v :: v in all ==> v.actEntry in nodes && v.hashEntry in nodes && v.Entered()
  }

  /** One of the three lists changes. */
  lemma PutFits(rings: map<Node, seq<Node>>, heads: Heads, st: State, w: Which, s: seq<Vnode>, out: set<Vnode>)
    requires heads.Apart() && Fits(rings, heads, st) && forall v :: v in st.alone ==> v.hashEntry.role == VnodeHashEntry
    requires AtLarge(rings[heads.For(w) := NodesBy(ByAct, s)], out, st.bare)
    ensures Fits(rings[heads.For(w) := NodesBy(ByAct, s)], heads, st.With(w, s).(out := out))
  {
    hide AtLarge, NodesBy, NoRepeats;
  }

  /** One hash bucket changes. */
  lemma BucketFits(rings: map<Node, seq<Node>>, heads: Heads, st: State, b: nat, s: seq<Vnode>, bare: set<Vnode>)
    requires heads.Apart() && Fits(rings, heads, st) && b < |st.buckets|
    requires forall v :: v in st.alone ==> v.hashEntry.role == VnodeHashEntry
    requires AtLarge(rings[heads.hash[b] := NodesBy(ByHash, s)], st.out, bare)
    ensures Fits(rings[heads.hash[b] := NodesBy(ByHash, s)], heads, st.(buckets := st.buckets[b := s], bare := bare))
  {
    hide AtLarge, NodesBy;
    var next := st.(buckets := st.buckets[b := s], bare := bare);
    assert forall w: Which :: next.On(w) == st.On(w);
  }

  /** A hash node that pointed to itself points nowhere. */
  lemma LeaveFits(rings: map<Node, seq<Node>>, heads: Heads, st: State, all: set<Vnode>, v: Vnode)
    requires heads.Apart() && Fits(rings, heads, st) && v in all && st.alone <= all && Alone(rings, v.hashEntry)
    requires forall u :: u in all ==> u.Entered()
    requires Loose(rings - {v.hashEntry}, v.hashEntry)
    ensures Fits(rings - {v.hashEntry}, heads, st.(bare := st.bare + {v}, alone := st.alone - {v}))
  {
    hide AtLarge, Ring, Loose;
    var next := st.(bare := st.bare + {v}, alone := st.alone - {v});
    assert forall w: Which :: next.On(w) == st.On(w);
    forall w: Which ensures Ring(rings - {v.hashEntry}, heads.For(w), ByAct, st.On(w)) { RingStays(rings, v.hashEntry, heads.For(w), ByAct, st.On(w)); }
    forall b | 0 <= b < |st.buckets|
      ensures Ring(rings - {v.hashEntry}, heads.hash[b], ByHash, st.buckets[b])
    {
      RingStays(rings, v.hashEntry, heads.hash[b], ByHash, st.buckets[b]);
    }
    CutAtLarge(rings, v.hashEntry, 0, st.out, st.bare);
    AtLargeWith(rings - {v.hashEntry}, st.out, st.bare, v);
  }

  lemma RingStays(rings: map<Node, seq<Node>>, node: Node, head: Node, link: Link, s: seq<Vnode>)
    requires Ring(rings, head, link, s) && node != head
    ensures Ring(rings - {node}, head, link, s)
  {
  }

  /** A hash node that pointed nowhere points to itself. */
  lemma ReadyFits(rings: map<Node, seq<Node>>, heads: Heads, st: State, all: set<Vnode>, v: Vnode)
    requires heads.Apart() && Fits(rings, heads, st) && v in all && st.out <= all && st.bare <= all && v in st.bare
    requires forall u :: u in all ==> u.Entered()
    ensures Fits(rings[v.hashEntry := []], heads, st.(bare := st.bare - {v}, alone := st.alone + {v})) && Loose(rings, v.hashEntry)
  {
    hide Loose, NodesBy, NoRepeats;
    var next := st.(bare := st.bare - {v}, alone := st.alone + {v});
    assert forall w: Which :: next.On(w) == st.On(w);
    if v.hashEntry in rings {
      LooseFrom(rings, v.hashEntry, v.hashEntry);
    }
    forall u | u in next.out ensures Loose(rings[v.hashEntry := []], u.actEntry) { LooseInit(rings, v.hashEntry, u.actEntry); }
    forall u | u in next.bare ensures Loose(rings[v.hashEntry := []], u.hashEntry) { LooseInit(rings, v.hashEntry, u.hashEntry); }
  }

  class Racks {
    const heads: Heads
    const lists: Lists
    ghost var state: State
    ghost var all: set<Vnode>

    constructor (hashSize: nat)
      ensures Valid() && all == {} && fresh(lists) && fresh(lists.nodes)
      ensures state == State([], [], [], seq(hashSize, _ => []), {}, {}, {})
    {
      hide Lists.Valid, NoRepeats, Valid, Ring;
      var free := new Node(FreeHead);
      var active := new Node(ActiveHead);
      var virt := new Node(VirtualHead);
      var made := MakeHeads(hashSize, VnodeHashHead);
      heads := Heads(free, active, virt, made);
      lists := new Lists();
      state, all := State([], [], [], seq(hashSize, _ => []), {}, {}, {}), {};
      new;
      InitHeads();
      EmptyIsValid();
    }

    lemma EmptyIsValid()
      requires lists.Valid() && heads.Apart() && state == State([], [], [], seq(|heads.hash|, _ => []), {}, {}, {}) && all == {}
      requires forall w: Which :: Ring(lists.rings, heads.For(w), ByAct, [])
      requires forall b :: 0 <= b < |heads.hash| ==> Ring(lists.rings, heads.hash[b], ByHash, [])
      ensures Valid()
    {
      hide Lists.Valid, Ring, NoRepeats;
    }

    method InitHeads()
      requires lists.Valid() && lists.nodes == {} && heads.Apart()
      modifies lists, heads.All()`next, heads.All()`prev
      ensures lists.Valid() && forall w: Which :: Ring(lists.rings, heads.For(w), ByAct, [])
      ensures forall b :: 0 <= b < |heads.hash| ==> Ring(lists.rings, heads.hash[b], ByHash, [])
      ensures forall n :: n in lists.nodes ==> n in heads.All()
    {
      hide Lists.Valid;
      var all := heads.All();
      lists.InitAll(all);
      assert heads.free == all[0] && heads.active == all[1] && heads.virt == all[2];
      assert forall b :: 0 <= b < |heads.hash| ==> heads.hash[b] == all[b + 3];
    }

    ghost predicate Valid()
      reads this, lists, lists.nodes
    {
      lists.Valid() && heads.Apart() && Entered(all, lists.nodes) && state.Within(all) && Fits(lists.rings, heads, state)
    }

    /** A new vnode, on no list. */
    ghost method Join(v: Vnode)
      requires Valid() && v !in all && v.Entered() && v.actEntry !in lists.nodes && v.hashEntry !in lists.nodes
      modifies this, lists`nodes
      ensures Valid() && all == old(all) + {v} && state == old(state).(out := old(state.out) + {v}, bare := old(state.bare) + {v})
      ensures lists.nodes == old(lists.nodes) + {v.actEntry, v.hashEntry}
    {
      hide Lists.Valid, Loose, NoRepeats, Ring;
      lists.NewIsLoose(v.actEntry);
      lists.NewIsLoose(v.hashEntry);
      lists.Adopt({v.actEntry, v.hashEntry});
      ghost var next := state.(out := state.out + {v}, bare := state.bare + {v});
      assert forall w: Which :: next.On(w) == state.On(w);
      all, state := all + {v}, next;
    }

    /** A vnode that was destroyed. */
    ghost method Part(v: Vnode)
      requires Valid() && !Hashed(state.buckets, v) && v !in state.alone && forall w: Which :: v !in state.On(w)
      modifies this
      ensures Valid() && all == old(all) - {v} && state == old(state).(out := old(state.out) - {v}, bare := old(state.bare) - {v})
    {
      hide Lists.Valid, Loose, NoRepeats, Ring;
      ghost var next := state.(out := state.out - {v}, bare := state.bare - {v});
      assert forall w: Which :: next.On(w) == state.On(w) && v !in state.On(w);
      all, state := all - {v}, next;
    }

    /** LOS_ListAdd of a vnode on no list. */
    method Push(w: Which, v: Vnode)
      requires Valid() && v in state.out
      modifies this`state, lists, lists.nodes`next, lists.nodes`prev
      ensures Valid() && lists.nodes == old(lists.nodes)
      ensures state == old(state).With(w, [v] + old(state).On(w)).(out := old(state.out) - {v})
    {
      hide Lists.Valid, Loose, NoRepeats, NodesBy, AtLarge, Fits, State.Within;
      Facts(w);
      NodesByCons(ByAct, v, state.On(w));
      StillAtLarge(lists.rings, heads.For(w), [v.actEntry] + lists.rings[heads.For(w)], all, v, state.out, state.bare);
      PutFits(lists.rings, heads, state, w, [v] + state.On(w), state.out - {v});
      WithinPut(w, [v] + state.On(w), state.out - {v});
      lists.Insert(heads.For(w), v.actEntry);
      state := state.With(w, [v] + state.On(w)).(out := state.out - {v});
    }

    /** LOS_ListTailInsert of a vnode on no list. */
    method Append(w: Which, v: Vnode)
      requires Valid() && v in state.out
      modifies this`state, lists, lists.nodes`next, lists.nodes`prev
      ensures Valid() && lists.nodes == old(lists.nodes)
      ensures state == old(state).With(w, old(state).On(w) + [v]).(out := old(state.out) - {v})
    {
      hide Lists.Valid, Loose, NoRepeats, NodesBy, AtLarge, Fits, State.Within;
      Facts(w);
      NodesByCons(ByAct, v, state.On(w));
      StillAtLarge(lists.rings, heads.For(w), lists.rings[heads.For(w)] + [v.actEntry], all, v, state.out, state.bare);
      PutFits(lists.rings, heads, state, w, state.On(w) + [v], state.out - {v});
      WithinPut(w, state.On(w) + [v], state.out - {v});
      lists.Append(heads.For(w), v.actEntry);
      state := state.With(w, state.On(w) + [v]).(out := state.out - {v});
    }

    lemma Facts(w: Which)
      requires Valid()
      ensures Ring(lists.rings, heads.For(w), ByAct, state.On(w)) && AtLarge(lists.rings, state.out, state.bare)
      ensures state.out <= all && state.bare <= all && state.alone <= all && forall v :: v in state.On(w) ==> v in all
    {
    }

    lemma WithinPut(w: Which, s: seq<Vnode>, out: set<Vnode>)
      requires state.Within(all) && out <= all && forall i :: 0 <= i < |s| ==> s[i] in all
      ensures state.With(w, s).(out := out).Within(all)
    {
      var st := state.With(w, s).(out := out);
      forall x: Which, i | 0 <= i < |st.On(x)|
        ensures st.On(x)[i] in all
      {
        assert st.On(x) == if x == w then s else state.On(x);
      }
    }

    /** From an item of a list, the next one, and from the last the header; every node knows its vnode. */
    lemma Walk(w: Which, i: nat)
      requires Valid() && i <= |state.On(w)|
      ensures var s := state.On(w);
              var at := if i == 0 then heads.For(w) else s[i - 1].actEntry;
              && at.next == (if i < |s| then s[i].actEntry else heads.For(w))
              && (i < |s| ==> s[i].actEntry != heads.For(w) && s[i].actEntry.owner == s[i])
    {
      hide Lists.Valid, Loose, NoRepeats, AtLarge, Fits, State.Within;
      Facts(w);
      lists.NextOf(heads.For(w), i);
    }

    /** LOS_ListDelete of the k-th vnode's node. */
    method Remove(v: Vnode, ghost w: Which, ghost k: nat)
      requires Valid() && k < |state.On(w)| && state.On(w)[k] == v
      modifies this`state, lists`rings, lists.nodes`next, lists.nodes`prev
      ensures Valid() && state == old(state).With(w, old(state).On(w)[..k] + old(state).On(w)[k + 1..]).(out := old(state.out) + {v})
    {
      hide Lists.Valid, Loose, NoRepeats, NodesBy, AtLarge, Fits, State.Within;
      Facts(w);
      ghost var s := state.On(w)[..k] + state.On(w)[k + 1..];
      NodesByCut(ByAct, state.On(w), k);
      ListCut(w, k);
      PutFits(lists.rings, heads, state, w, s, state.out + {v});
      WithinPut(w, s, state.out + {v});
      NodeAt(ByAct, state.On(w), k);
      lists.Delete(v.actEntry, heads.For(w), k);
      state := state.With(w, s).(out := state.out + {v});
    }

    lemma Basics()
      requires Valid()
      ensures heads.Apart() && Fits(lists.rings, heads, state) && state.out <= all && state.bare <= all && state.alone <= all
      ensures lists.Valid() && |heads.hash| == |state.buckets| && AtLarge(lists.rings, state.out, state.bare)
      ensures forall u :: u in all ==> u.Entered() && u.actEntry in lists.nodes && u.hashEntry in lists.nodes
    {
    }

    lemma WithinHash(buckets: seq<seq<Vnode>>, bare: set<Vnode>, alone: set<Vnode>)
      requires state.Within(all) && bare <= all && alone <= all
      requires BucketsIn(buckets, all)
      ensures state.(buckets := buckets, bare := bare, alone := alone).Within(all)
    {
      var next := state.(buckets := buckets, bare := bare, alone := alone);
      assert forall w: Which :: next.On(w) == state.On(w);
    }

    /** LOS_ListInit of the hash node. */
    method Ready(v: Vnode)
      requires Valid() && v in state.bare
      modifies this`state, lists, lists.nodes`next, lists.nodes`prev
      ensures Valid() && state == old(state).(bare := old(state.bare) - {v}, alone := old(state.alone) + {v})
      ensures lists.nodes == old(lists.nodes)
    {
      hide Lists.Valid, Loose, NoRepeats, AtLarge, Fits, Ring, State.Within;
      Basics();
      WithinHashSame(state.bare - {v}, state.alone + {v});
      ReadyFits(lists.rings, heads, state, all, v);
      lists.Init(v.hashEntry);
      state := state.(bare := state.bare - {v}, alone := state.alone + {v});
    }

    lemma WithinHashSame(bare: set<Vnode>, alone: set<Vnode>)
      requires state.Within(all) && bare <= all && alone <= all
      ensures state.(bare := bare, alone := alone).Within(all)
    {
      WithinHash(state.buckets, bare, alone);
    }

    /** The hash node of a vnode in no bucket is forgotten. */
    ghost method Loosen(v: Vnode)
      requires Valid() && v in state.alone
      modifies this`state, lists`rings
      ensures Valid() && state == old(state).(bare := old(state.bare) + {v}, alone := old(state.alone) - {v})
    {
      hide Lists.Valid, Loose, NoRepeats, AtLarge, Ring, State.Within;
      Basics();
      WithinHashSame(state.bare + {v}, state.alone - {v});
      lists.CutIsLoose(v.hashEntry, 0, v.hashEntry);
      LeaveFits(lists.rings, heads, state, all, v);
      lists.Leave(v.hashEntry);
      state := state.(bare := state.bare + {v}, alone := state.alone - {v});
    }

    /** VfsHashInsert of a vnode that is in no bucket. */
    method HashInsert(v: Vnode, b: nat)
      requires Valid() && v in state.alone && b < |state.buckets|
      modifies this`state, lists, lists.nodes`next, lists.nodes`prev
      ensures Valid() && lists.nodes == old(lists.nodes)
      ensures state == old(state).(buckets := old(state.buckets)[b := [v] + old(state.buckets)[b]], alone := old(state.alone) - {v})
    {
      hide Lists.Valid, Loose, NoRepeats, AtLarge, Fits, Ring, State.Within;
      Basics();
      AloneIsNot(v);
      ghost var bare := state.bare;
      Loosen(v);
      PutInBucket(v, b);
      assert bare + {v} - {v} == bare;
    }

    method PutInBucket(v: Vnode, b: nat)
      requires Valid() && v in state.bare && b < |state.buckets|
      modifies this`state, lists, lists.nodes`next, lists.nodes`prev
      ensures Valid() && lists.nodes == old(lists.nodes)
      ensures state == old(state).(buckets := old(state.buckets)[b := [v] + old(state.buckets)[b]], bare := old(state.bare) - {v})
    {
      hide Lists.Valid, Loose, NoRepeats, AtLarge, NodesBy, Fits, State.Within;
      Basics();
      BucketRing(b);
      ghost var s := [v] + state.buckets[b];
      NodesByCons(ByHash, v, state.buckets[b]);
      StillAtLargeHash(lists.rings, heads.hash[b], [v.hashEntry] + lists.rings[heads.hash[b]], all, v, state.out, state.bare);
      BucketFits(lists.rings, heads, state, b, s, state.bare - {v});
      BucketWithin(b, s);
      WithinHash(state.buckets[b := s], state.bare - {v}, state.alone);
      lists.Insert(heads.hash[b], v.hashEntry);
      state := state.(buckets := state.buckets[b := s], bare := state.bare - {v});
    }

    /** A hash node that points to itself is in no bucket, nor does it point nowhere. */
    lemma AloneIsNot(v: Vnode)
      requires Valid() && v in state.alone
      ensures v !in state.bare && !Hashed(state.buckets, v)
    {
      hide Lists.Valid, NoRepeats, Loose;
      if v in state.bare {
        LooseFrom(lists.rings, v.hashEntry, v.hashEntry);
      }
      forall b | 0 <= b < |state.buckets|
        ensures v !in state.buckets[b]
      {
        lists.Separate(v.hashEntry, heads.hash[b]);
      }
    }

    /** LOS_ListDelete of the hash node, in a bucket or not. */
    method Unhash(v: Vnode)
      requires Valid() && (v in state.alone || (v in all && Hashed(state.buckets, v)))
      modifies this`state, lists`rings, lists.nodes`next, lists.nodes`prev
      ensures Valid() && state == old(state).(buckets := Unhashed(old(state.buckets), v), bare := old(state.bare) + {v},
                                              alone := old(state.alone) - {v})
    {
      hide Lists.Valid, Loose, NoRepeats, AtLarge, NodesBy, Fits, State.Within, Unhashed, Hashed;
      ghost var head, k := Where(v);
      Basics();
      ghost var rings := lists.rings;
      lists.Unhook(v.hashEntry, head, k);
      state := state.(buckets := Unhashed(state.buckets, v), bare := state.bare + {v}, alone := state.alone - {v});
    }

    /** Both nodes of a vnode leave their lists. */
    method Take(v: Vnode, ghost w: Which, ghost k: nat)
      requires Valid() && k < |state.On(w)| && state.On(w)[k] == v && (v in state.alone || Hashed(state.buckets, v))
      modifies this`state, lists`rings, lists.nodes`next, lists.nodes`prev
      ensures Valid()
      ensures state == old(state).With(w, old(state).On(w)[..k] + old(state).On(w)[k + 1..]).(
                         buckets := Unhashed(old(state.buckets), v), out := old(state.out) + {v},
                         bare := old(state.bare) + {v}, alone := old(state.alone) - {v})
    {
      hide Valid, Unhashed, Hashed;
      IsKnown(w, k);
      Unhash(v);
      Remove(v, w, k);
    }

    lemma IsKnown(w: Which, k: nat)
      requires Valid() && k < |state.On(w)|
      ensures state.On(w)[k] in all
    {
    }

    /** Where the hash node is, and what is left once it is taken out. */
    lemma Where(v: Vnode) returns (head: Node, k: nat)
      requires Valid() && (v in state.alone || (v in all && Hashed(state.buckets, v)))
      ensures head in lists.rings && Has(lists.rings, head, k, v.hashEntry)
      ensures var next := state.(buckets := Unhashed(state.buckets, v), bare := state.bare + {v}, alone := state.alone - {v});
              next.Within(all) && Fits(Cut(lists.rings, head, k), heads, next)
    {
      hide Lists.Valid, Loose, NoRepeats, AtLarge, NodesBy, Fits, State.Within, Hashed, Unhashed;
      if v in state.alone {
        head, k := v.hashEntry, 0;
        WhereAlone(v);
      } else {
        var b;
        b, k := WhereHashed(v);
        head := heads.hash[b];
      }
    }

    lemma WhereAlone(v: Vnode)
      requires Valid() && v in state.alone
      ensures Alone(lists.rings, v.hashEntry)
      ensures var next := state.(buckets := Unhashed(state.buckets, v), bare := state.bare + {v}, alone := state.alone - {v});
              next.Within(all) && Fits(Cut(lists.rings, v.hashEntry, 0), heads, next)
    {
      hide Lists.Valid, Loose, NoRepeats, AtLarge, NodesBy, State.Within, Hashed, Unhashed;
      Basics();
      AloneIsNot(v);
      UnhashedSame(state.buckets, v);
      WithinHashSame(state.bare + {v}, state.alone - {v});
      lists.CutIsLoose(v.hashEntry, 0, v.hashEntry);
      LeaveFits(lists.rings, heads, state, all, v);
    }

    lemma WhereHashed(v: Vnode) returns (b: nat, k: nat)
      requires Valid() && v in all && v !in state.alone && Hashed(state.buckets, v)
      ensures b < |heads.hash| && heads.hash[b] in lists.rings && Has(lists.rings, heads.hash[b], k, v.hashEntry)
      ensures var next := state.(buckets := Unhashed(state.buckets, v), bare := state.bare + {v}, alone := state.alone - {v});
              next.Within(all) && Fits(Cut(lists.rings, heads.hash[b], k), heads, next)
    {
      hide Lists.Valid, Loose, NoRepeats, AtLarge, NodesBy, Fits, State.Within, Unhashed;
      Basics();
      b :| 0 <= b < |state.buckets| && v in state.buckets[b];
      k :| 0 <= k < |state.buckets[b]| && state.buckets[b][k] == v;
      BucketRing(b);
      NodeAt(ByHash, state.buckets[b], k);
      var s := state.buckets[b][..k] + state.buckets[b][k + 1..];
      NodesByCut(ByHash, state.buckets[b], k);
      UnhashedOne(b, k);
      CutAtLarge(lists.rings, heads.hash[b], k, state.out, state.bare);
      lists.CutIsLoose(heads.hash[b], k, v.hashEntry);
      AtLargeWith(Cut(lists.rings, heads.hash[b], k), state.out, state.bare, v);
      BucketFits(lists.rings, heads, state, b, s, state.bare + {v});
      BucketWithin(b, s);
      WithinHash(state.buckets[b := s], state.bare + {v}, state.alone);
      assert state.alone - {v} == state.alone;
    }

    /** A vnode is in one bucket, once. */
    lemma UnhashedOne(b: nat, k: nat)
      requires Valid() && b < |state.buckets| && k < |state.buckets[b]|
      ensures Unhashed(state.buckets, state.buckets[b][k])
              == state.buckets[b := state.buckets[b][..k] + state.buckets[b][k + 1..]]
    {
      hide Lists.Valid, Without, Loose, AtLarge;
      var v := state.buckets[b][k];
      forall c, i, j | 0 <= c < |state.buckets| && 0 <= i < |state.buckets[b]| && 0 <= j < |state.buckets[c]| && state.buckets[b][i] == state.buckets[c][j]
        ensures c == b && i == j
      {
        BucketRing(b);
        BucketRing(c);
        lists.OnlyOnce(heads.hash[b], i, heads.hash[c], j);
      }
      forall c | 0 <= c < |state.buckets| && c != b ensures Without(state.buckets[c], v) == state.buckets[c] { WithoutAbsent(state.buckets[c], v); }
      WithoutAt(state.buckets[b], k);
    }

    /** The hash node points to itself exactly if the vnode is in no bucket. */
    lemma PointsToItself(v: Vnode)
      requires Valid() && v in all && (v in state.alone || Hashed(state.buckets, v))
      ensures v.hashEntry.next == v.hashEntry <==> v in state.alone
      ensures v in state.alone <==> !Hashed(state.buckets, v)
    {
      hide Lists.Valid, Loose, NoRepeats, AtLarge;
      if v in state.alone {
        AloneIsNot(v);
        lists.SelfLinked(v.hashEntry, 0, v.hashEntry);
      } else {
        var b :| 0 <= b < |state.buckets| && v in state.buckets[b];
        var k :| 0 <= k < |state.buckets[b]| && state.buckets[b][k] == v;
        NodeAt(ByHash, state.buckets[b], k);
        lists.SelfLinked(heads.hash[b], k, v.hashEntry);
      }
    }

    lemma BucketRing(b: nat)
      requires Valid() && b < |state.buckets|
      ensures Ring(lists.rings, heads.hash[b], ByHash, state.buckets[b])
    {
    }

    lemma BucketWithin(b: nat, s: seq<Vnode>)
      requires state.Within(all) && b < |state.buckets| && forall i :: 0 <= i < |s| ==> s[i] in all || s[i] in state.buckets[b]
      ensures BucketsIn(state.buckets[b := s], all)
    {
    }

    /** What is at large once the k-th vnode has left a list. */
    lemma ListCut(w: Which, k: nat)
      requires Valid() && k < |state.On(w)|
      ensures var h := heads.For(w);
              && h in lists.rings && k < |lists.rings[h]|
              && AtLarge(lists.rings[h := lists.rings[h][..k] + lists.rings[h][k + 1..]], state.out + {state.On(w)[k]}, state.bare)
    {
      hide Lists.Valid, Loose, AtLarge, Fits, State.Within;
      Facts(w);
      var h, v := heads.For(w), state.On(w)[k];
      CutAtLarge(lists.rings, h, k, state.out, state.bare);
      lists.CutIsLoose(h, k, v.actEntry);
      AtLargeWith(Cut(lists.rings, h, k), state.out, state.bare, v);
    }
  }

  lemma NodeAt(link: Link, s: seq<Vnode>, k: nat)
    requires k < |s|
    ensures NodesBy(link, s)[k] == NodeOf(link, s[k])
  {
  }

  /** The nodes of these vnodes are in no list. */
  ghost predicate AtLarge(rings: map<Node, seq<Node>>, out: set<Vnode>, bare: set<Vnode>) {
    && (forall v :: v in out ==> Loose(rings, v.actEntry))
    && (forall v :: v in bare ==> Loose(rings, v.hashEntry))
  }

  /** Placing a vnode leaves the nodes of the others alone. */
  lemma StillAtLarge(rings: map<Node, seq<Node>>, head: Node, items: seq<Node>, all: set<Vnode>, v: Vnode,
                     out: set<Vnode>, bare: set<Vnode>)
    requires AtLarge(rings, out, bare) && v in all && out <= all && bare <= all && head in rings
    requires forall u :: u in all ==> u.Entered()
    requires forall i :: 0 <= i < |items| ==> items[i] == v.actEntry || items[i] in rings[head]
    ensures AtLarge(rings[head := items], out - {v}, bare) && (v in out ==> Loose(rings, v.actEntry))
  {
    hide Loose;
    forall u | u in out - {v}
      ensures Loose(rings[head := items], u.actEntry)
    {
      LooseStill(rings, head, items, v.actEntry, u.actEntry);
    }
    forall u | u in bare
      ensures Loose(rings[head := items], u.hashEntry)
    {
      LooseStill(rings, head, items, v.actEntry, u.hashEntry);
    }
  }

  lemma StillAtLargeHash(rings: map<Node, seq<Node>>, head: Node, items: seq<Node>, all: set<Vnode>, v: Vnode,
                         out: set<Vnode>, bare: set<Vnode>)
    requires AtLarge(rings, out, bare) && v in all && out <= all && bare <= all && head in rings
    requires forall u :: u in all ==> u.Entered()
    requires forall i :: 0 <= i < |items| ==> items[i] == v.hashEntry || items[i] in rings[head]
    ensures AtLarge(rings[head := items], out, bare - {v}) && (v in bare ==> Loose(rings, v.hashEntry))
  {
    hide Loose;
    forall u | u in out
      ensures Loose(rings[head := items], u.actEntry)
    {
      LooseStill(rings, head, items, v.hashEntry, u.actEntry);
    }
    forall u | u in bare - {v}
      ensures Loose(rings[head := items], u.hashEntry)
    {
      LooseStill(rings, head, items, v.hashEntry, u.hashEntry);
    }
  }

  lemma AtLargeWith(rings: map<Node, seq<Node>>, out: set<Vnode>, bare: set<Vnode>, v: Vnode)
    requires AtLarge(rings, out, bare)
    ensures Loose(rings, v.actEntry) ==> AtLarge(rings, out + {v}, bare)
    ensures Loose(rings, v.hashEntry) ==> AtLarge(rings, out, bare + {v})
  {
    hide Loose;
  }

  lemma CutAtLarge(rings: map<Node, seq<Node>>, head: Node, k: nat, out: set<Vnode>, bare: set<Vnode>)
    requires AtLarge(rings, out, bare) && head in rings && (rings[head] != [] ==> k < |rings[head]|)
    ensures AtLarge(Cut(rings, head, k), out, bare)
  {
    hide Loose, Cut;
    forall u | u in out ensures Loose(Cut(rings, head, k), u.actEntry) { LooseCut(rings, head, k, u.actEntry); }
    forall u | u in bare ensures Loose(Cut(rings, head, k), u.hashEntry) { LooseCut(rings, head, k, u.hashEntry); }
  }
}
