/** The path cache of fs/vfs/path_cache.c: every entry sits in a hash bucket, in its parent vnode's list of
    child entries and in its child vnode's list of parent entries.  The lists are rings of nodes embedded in
    entries and vnodes; each of them is a view, newest first, of one ghost log of live entries. */
module PathCaches {
  import opened Sequences
  import opened IntrusiveList

  class Vnode {
    var useCount: nat
    var mounted: bool                   // VNODE_FLAG_MOUNT_ORIGIN or VNODE_FLAG_MOUNT_NEW
    var dev: bool                       // its operations are those of the device file system
    const childHead: Node               // childPathCaches
    const parentHead: Node              // parentPathCaches
    const actEntry: Node                // actFreeEntry, in the free, active or virtual list
    const hashEntry: Node               // in a bucket of the vnode hash
    ghost var children: seq<Cached>     // the entries of either list
    ghost var parents: seq<Cached>

    constructor ()
      ensures useCount == 0 && !mounted && !dev && children == [] && parents == []
      ensures fresh(childHead) && fresh(parentHead) && Tagged()
      ensures fresh(actEntry) && fresh(hashEntry) && Entered()
    {
      useCount, mounted, dev, children, parents := 0, false, false, [], [];
      childHead := new Node(ChildHead);
      parentHead := new Node(ParentHead);
      actEntry := new Node(ActEntry);
      hashEntry := new Node(VnodeHashEntry);
      new;
      childHead.owner, parentHead.owner, actEntry.owner, hashEntry.owner := this, this, this, this;
    }

    /** The list headers are this vnode's. */
    ghost predicate Tagged()
      reads childHead`owner, parentHead`owner
    {
      childHead.role == ChildHead && parentHead.role == ParentHead && childHead.owner == parentHead.owner == this
    }

    /** So are the nodes by which it is listed. */
    ghost predicate Entered()
      reads actEntry`owner, hashEntry`owner
    {
      actEntry.role == ActEntry && hashEntry.role == VnodeHashEntry && actEntry.owner == hashEntry.owner == this
    }
  }

  class Cached {
    const parent: Vnode
    const child: Vnode
    const name: seq<char>
    const hashEntry: Node
    const childEntry: Node              // in its parent's list
    const parentEntry: Node             // in its child's list

    constructor (parent: Vnode, child: Vnode, name: seq<char>)
      ensures this.parent == parent && this.child == child && this.name == name
      ensures fresh(hashEntry) && fresh(childEntry) && fresh(parentEntry) && Tagged()
    {
      this.parent, this.child, this.name := parent, child, name;
      hashEntry := new Node(HashEntry);
      childEntry := new Node(ChildEntry);
      parentEntry := new Node(ParentEntry);
      new;
      hashEntry.owner, childEntry.owner, parentEntry.owner := this, this, this;
    }

    /** The nodes are this entry's. */
    ghost predicate Tagged()
      reads hashEntry`owner, childEntry`owner, parentEntry`owner
    {
      && hashEntry.role == HashEntry && childEntry.role == ChildEntry && parentEntry.role == ParentEntry
      && hashEntry.owner == childEntry.owner == parentEntry.owner == this
    }
  }

  const NAME_MAX: nat := 255

  // ----- views of the log

  /** The bucket of a name under a parent: a hash of both, cut down to the number of buckets. */
  datatype Hasher = Hasher(fn: (seq<char>, Vnode) -> nat, size: nat) {
    function At(name: seq<char>, v: Vnode): (h: nat)
      ensures size > 0 ==> h < size
    {
      if size == 0 then 0 else fn(name, v) % size
    }
  }

  /** Which entries a list holds. */
  datatype Sel = Bucket(h: nat) | Under(v: Vnode) | Onto(v: Vnode)

  predicate Picks(sel: Sel, pc: Cached, hash: Hasher) {
    match sel
    case Bucket(h) => hash.At(pc.name, pc.parent) == h
    case Under(v) => pc.parent == v
    case Onto(v) => pc.child == v
  }

  /** The node by which an entry is in such a list. */
  function EntryIn(sel: Sel, pc: Cached): Node {
    match sel
    case Bucket(_) => pc.hashEntry
    case Under(_) => pc.childEntry
    case Onto(_) => pc.parentEntry
  }

  function NodesOf(sel: Sel, s: seq<Cached>): (r: seq<Node>)
    ensures |r| == |s| && forall i :: 0 <= i < |s| ==> r[i] == EntryIn(sel, s[i])
  {
    seq(|s|, i requires 0 <= i < |s| => EntryIn(sel, s[i]))
  }

  lemma NodesCons(sel: Sel, x: Cached, s: seq<Cached>)
    ensures NodesOf(sel, [x] + s) == [EntryIn(sel, x)] + NodesOf(sel, s)
  {
  }

  /** Taking out the k-th entry, on entries and on nodes. */
  lemma NodesWithout(sel: Sel, s: seq<Cached>, k: nat)
    requires NoRepeats(s) && k < |s|
    ensures NodesOf(sel, Without(s, s[k])) == NodesOf(sel, s)[..k] + NodesOf(sel, s)[k + 1..]
  {
    hide NoRepeats, Without;
    WithoutAt(s, k);
    NodesSplit(sel, s, k);
  }

  lemma NodesSplit(sel: Sel, s: seq<Cached>, k: nat)
    requires k < |s|
    ensures NodesOf(sel, s[..k] + s[k + 1..]) == NodesOf(sel, s)[..k] + NodesOf(sel, s)[k + 1..]
  {
    hide EntryIn;
  }

  function Keep(log: seq<Cached>, sel: Sel, hash: Hasher): seq<Cached> {
    if log == [] then []
    else (if Picks(sel, log[0], hash) then [log[0]] else []) + Keep(log[1..], sel, hash)
  }

  lemma {:induction false} KeepHas(log: seq<Cached>, sel: Sel, hash: Hasher, pc: Cached)
    ensures pc in Keep(log, sel, hash) <==> pc in log && Picks(sel, pc, hash)
  {
    if log != [] {
      KeepHas(log[1..], sel, hash, pc);
      assert log == [log[0]] + log[1..];
    }
  }

  lemma KeepCons(x: Cached, rest: seq<Cached>, sel: Sel, hash: Hasher)
    ensures Keep([x] + rest, sel, hash) == if Picks(sel, x, hash) then [x] + Keep(rest, sel, hash) else Keep(rest, sel, hash)
  {
    assert ([x] + rest)[1..] == rest;
  }

  /** Removing an entry from the log removes it from each view. */
  lemma {:induction false} KeepWithout(log: seq<Cached>, sel: Sel, hash: Hasher, pc: Cached)
    ensures Keep(Without(log, pc), sel, hash) == Without(Keep(log, sel, hash), pc)
  {
    if log != [] {
      hide Keep, Without, Picks;
      var x, rest := log[0], log[1..];
      assert log == [x] + rest;
      KeepWithout(rest, sel, hash, pc);
      KeepCons(x, rest, sel, hash);
      WithoutCons(x, rest, pc);
      KeepCons(x, Without(rest, pc), sel, hash);
      WithoutCons(x, Keep(rest, sel, hash), pc);
    }
  }

  /** What freeing `pc` makes of a view. */
  lemma ViewAfter(log: seq<Cached>, sel: Sel, hash: Hasher, pc: Cached)
    ensures Keep(Without(log, pc), sel, hash)
            == if Picks(sel, pc, hash) then Without(Keep(log, sel, hash), pc) else Keep(log, sel, hash)
  {
    KeepWithout(log, sel, hash, pc);
    KeepHas(log, sel, hash, pc);
  }

  /** The newest live entry for a name under a parent. */
  function Newest(log: seq<Cached>, parent: Vnode, name: seq<char>): (r: seq<Cached>)
    ensures |r| <= 1 && forall pc :: pc in r ==> pc in log && pc.parent == parent && pc.name == name
  {
    if log == [] then []
    else if log[0].parent == parent && log[0].name == name then [log[0]]
    else Newest(log[1..], parent, name)
  }

  /** Searching the right bucket finds the newest entry of the whole log. */
  lemma {:induction false} BucketFinds(log: seq<Cached>, hash: Hasher, parent: Vnode, name: seq<char>)
    ensures Newest(Keep(log, Bucket(hash.At(name, parent)), hash), parent, name) == Newest(log, parent, name)
  {
    if log != [] {
      BucketFinds(log[1..], hash, parent, name);
      var kept := Keep(log[1..], Bucket(hash.At(name, parent)), hash);
      assert ([log[0]] + kept)[1..] == kept && [] + kept == kept;
    }
  }

  /** The log without the entries that start from `v` or lead to it. */
  function Purged(log: seq<Cached>, v: Vnode): seq<Cached> {
    if log == [] then []
    else (if log[0].parent == v || log[0].child == v then [] else [log[0]]) + Purged(log[1..], v)
  }

  lemma {:induction false} MinusIsPurged(log: seq<Cached>, xs: seq<Cached>, v: Vnode)
    requires forall y :: y in log ==> (y in xs <==> y.parent == v || y.child == v)
    ensures Minus(log, xs) == Purged(log, v)
  {
    if log != [] {
      MinusIsPurged(log[1..], xs, v);
    }
  }

  lemma {:induction false} PurgedHas(log: seq<Cached>, v: Vnode, x: Cached)
    ensures x in Purged(log, v) <==> x in log && x.parent != v && x.child != v
  {
    if log != [] {
      PurgedHas(log[1..], v, x);
      assert log == [log[0]] + log[1..];
    }
  }

  /** After a purge no lookup starts from the vnode, and none returns it. */
  lemma PurgedIsGone(log: seq<Cached>, v: Vnode, parent: Vnode, name: seq<char>)
    ensures Newest(Purged(log, v), v, name) == []
    ensures Newest(Purged(log, v), parent, name) != [] ==> Newest(Purged(log, v), parent, name)[0].child != v
  {
    var a, b := Newest(Purged(log, v), v, name), Newest(Purged(log, v), parent, name);
    if a != [] {
      PurgedHas(log, v, a[0]);
    }
    if b != [] {
      assert b[0] in b;
      PurgedHas(log, v, b[0]);
    }
  }

  ghost predicate HasRing(rings: map<Node, seq<Node>>, head: Node, sel: Sel, items: seq<Cached>) {
    head in rings && rings[head] == NodesOf(sel, items)
  }

  lemma RingGrows(rings: map<Node, seq<Node>>, sel: Sel, head: Node, pc: Cached, items: seq<Cached>)
    requires HasRing(rings, head, sel, items)
    ensures HasRing(rings[head := [EntryIn(sel, pc)] + rings[head]], head, sel, [pc] + items)
  {
    NodesCons(sel, pc, items);
  }

  lemma RingShrinks(rings: map<Node, seq<Node>>, sel: Sel, head: Node, items: seq<Cached>, k: nat)
    requires HasRing(rings, head, sel, items) && NoRepeats(items) && k < |items|
    ensures k < |rings[head]| && rings[head][k] == EntryIn(sel, items[k])
    ensures HasRing(rings[head := rings[head][..k] + rings[head][k + 1..]], head, sel, Without(items, items[k]))
  {
    hide NoRepeats, Without;
    NodesWithout(sel, items, k);
  }

  /** The entry's nodes are among those of the lists. */
  ghost predicate Known(pc: Cached, nodes: set<Node>) {
    pc.hashEntry in nodes && pc.childEntry in nodes && pc.parentEntry in nodes
  }

  class Cache {
    const hash: Hasher
    const heads: seq<Node>              // g_pathCacheHashEntrys
    const lists: Lists
    ghost var buckets: seq<seq<Cached>>
    ghost var log: seq<Cached>          // live entries, newest first
    ghost var vnodes: set<Vnode>

    /** PathCacheInit. */
    constructor (hash: Hasher)
      requires hash.size > 0
      ensures Valid() && log == [] && vnodes == {} && this.hash == hash && fresh(lists) && fresh(lists.nodes)
    {
      hide Lists.Valid, NoRepeats, Valid;
      var made := MakeHeads(hash.size, HashHead);
      this.hash, heads := hash, made;
      lists := new Lists();
      buckets, log, vnodes := seq(hash.size, _ => []), [], {};
      new;
      InitHeads();
      EmptyIsValid();
    }

    lemma EmptyIsValid()
      requires lists.Valid() && NoRepeats(heads) && forall i :: 0 <= i < |heads| ==> heads[i].role == HashHead
      requires log == [] && vnodes == {} && 0 < hash.size == |heads| == |buckets|
      requires forall i :: 0 <= i < |heads| ==> buckets[i] == [] && heads[i] in lists.rings && lists.rings[heads[i]] == []
      ensures Valid()
    {
      hide Lists.Valid;
    }

    method InitHeads()
      requires lists.Valid() && lists.nodes == {} && NoRepeats(heads)
      modifies lists, heads`next, heads`prev
      ensures lists.Valid() && forall i :: 0 <= i < |heads| ==> heads[i] in lists.rings && lists.rings[heads[i]] == []
      ensures forall n :: n in lists.nodes ==> n in heads
    {
      hide Lists.Valid;
      lists.InitAll(heads);
    }

    /** Each list is its view of the log, entries connect known vnodes, and each list is linked. */
    ghost predicate Valid()
      reads this, lists, lists.nodes, vnodes`children, vnodes`parents
    {
      Views(log, vnodes) && Rings()
    }

    ghost predicate Views(entries: seq<Cached>, all: set<Vnode>)
      reads this`buckets, all`children, all`parents
    {
      && NoRepeats(entries) && (forall pc :: pc in entries ==> pc.parent in all && pc.child in all)
      && 0 < hash.size == |buckets|
      && (forall h :: 0 <= h < |buckets| ==> buckets[h] == Keep(entries, Bucket(h), hash))
      && (forall v :: v in all ==> v.children == Keep(entries, Under(v), hash) && v.parents == Keep(entries, Onto(v), hash))
    }

    /** The rings hold exactly the nodes of the entries of each list, and every node knows its owner. */
    ghost predicate Rings()
      reads this, lists, lists.nodes, vnodes`children, vnodes`parents
    {
      lists.Valid() && |heads| == |buckets| && NoRepeats(heads) && Tags(log, vnodes, lists.nodes) && Held(lists.rings, vnodes)
    }

    /** The nodes of all vnodes and entries are among those of the lists, and know their owner. */
    ghost predicate Tags(entries: seq<Cached>, all: set<Vnode>, nodes: set<Node>)
      reads nodes`owner
    {
      && (forall h :: 0 <= h < |heads| ==> heads[h].role == HashHead)
      && (forall v :: v in all ==> v.childHead in nodes && v.parentHead in nodes && v.Tagged())
      && (forall pc :: pc in entries ==> Known(pc, nodes) && pc.Tagged())
    }

    lemma TagsGrow(entries: seq<Cached>, all: set<Vnode>, nodes: set<Node>, more: set<Node>)
      requires Tags(entries, all, nodes) && nodes <= more
      ensures Tags(entries, all, more)
    {
    }

    lemma TagsWith(entries: seq<Cached>, all: set<Vnode>, nodes: set<Node>, pc: Cached)
      requires Tags(entries, all, nodes) && Known(pc, nodes) && pc.Tagged()
      ensures Tags([pc] + entries, all, nodes)
    {
    }

    lemma TagsWithout(entries: seq<Cached>, all: set<Vnode>, nodes: set<Node>, pc: Cached)
      requires Tags(entries, all, nodes)
      ensures Tags(Without(entries, pc), all, nodes)
    {
      hide Without;
      forall x | x in Without(entries, pc)
        ensures x in entries
      {
        WithoutHas(entries, pc, x);
      }
    }

    ghost predicate Held(rings: map<Node, seq<Node>>, all: set<Vnode>)
      reads this`buckets, all`children, all`parents
    {
      && (forall h :: 0 <= h < |heads| && h < |buckets| ==> HasRing(rings, heads[h], Bucket(h), buckets[h]))
      && (forall v :: v in all ==> && HasRing(rings, v.childHead, Under(v), v.children)
                                   && HasRing(rings, v.parentHead, Onto(v), v.parents))
    }

    /** The header of a list. */
    ghost predicate HeadOf(sel: Sel, head: Node)
      reads this`vnodes
    {
      match sel
      case Bucket(h) => h < |heads| && head == heads[h]
      case Under(v) => v in vnodes && head == v.childHead
      case Onto(v) => v in vnodes && head == v.parentHead
    }

    /** No other list has this header. */
    ghost predicate Only(sel: Sel, head: Node)
      reads this`vnodes
    {
      && (forall h :: 0 <= h < |heads| && sel != Bucket(h) ==> heads[h] != head)
      && (forall v :: v in vnodes && sel != Under(v) ==> v.childHead != head)
      && (forall v :: v in vnodes && sel != Onto(v) ==> v.parentHead != head)
    }

    lemma OnlyHead(sel: Sel, head: Node)
      requires Rings() && HeadOf(sel, head)
      ensures Only(sel, head) && head in lists.rings
    {
      hide Lists.Valid, NodesOf;
    }

    lemma RingOf(sel: Sel, head: Node, items: seq<Cached>)
      requires Rings() && HeadOf(sel, head)
      requires match sel { case Bucket(h) => items == buckets[h] case Under(v) => items == v.children case Onto(v) => items == v.parents }
      ensures HasRing(lists.rings, head, sel, items) && head in lists.rings
    {
      hide Lists.Valid, NodesOf, NoRepeats;
    }

    /** Changing one list leaves the others. */
    lemma OthersStay(sel: Sel, head: Node, rings: map<Node, seq<Node>>, items: seq<Node>)
      requires Rings() && HeadOf(sel, head) && rings == lists.rings
      ensures head in rings
      ensures forall h :: 0 <= h < |heads| && sel != Bucket(h) ==> HasRing(rings[head := items], heads[h], Bucket(h), buckets[h])
      ensures forall v :: v in vnodes && sel != Under(v) ==> HasRing(rings[head := items], v.childHead, Under(v), v.children)
      ensures forall v :: v in vnodes && sel != Onto(v) ==> HasRing(rings[head := items], v.parentHead, Onto(v), v.parents)
    {
      hide Lists.Valid, NodesOf, NoRepeats;
      OnlyHead(sel, head);
    }

    /** PathCacheAlloc; `memory` says whether the heap has room for the entry. */
    method Alloc(parent: Vnode, child: Vnode, name: seq<char>, memory: bool) returns (pc: Cached?)
      requires Valid() && parent in vnodes && child in vnodes
      modifies this`buckets, this`log, lists, lists.nodes`next, lists.nodes`prev, vnodes`children, vnodes`parents
      ensures Valid() && (pc == null <==> |name| > NAME_MAX || !memory)
      ensures pc == null ==> log == old(log)
      ensures pc != null ==> fresh(pc) && log == [pc] + old(log) && pc.parent == parent && pc.child == child && pc.name == name
      ensures forall v :: v in vnodes && v != parent ==> v.children == old(v.children)
      ensures forall v :: v in vnodes && v != child ==> v.parents == old(v.parents)
      ensures forall n :: n in lists.nodes ==> n in old(lists.nodes) || fresh(n)
    {
      hide Rings, Keep, NoRepeats;
      pc := null;
      if |name| > NAME_MAX || !memory {
        return;
      }
      BucketHere(name, parent);
      ghost var l := log;
      var made := new Cached(parent, child, name);
      pc := made;
      Enlist(made, hash.At(name, parent));
      NoRepeatsCons(made, l);
      forall k | 0 <= k < |buckets| ensures buckets[k] == Keep(log, Bucket(k), hash) { KeepCons(pc, l, Bucket(k), hash); }
      forall v | v in vnodes
        ensures v.children == Keep(log, Under(v), hash) && v.parents == Keep(log, Onto(v), hash)
      {
        KeepCons(pc, l, Under(v), hash);
        KeepCons(pc, l, Onto(v), hash);
      }
    }

    lemma BucketHere(name: seq<char>, v: Vnode)
      requires Valid()
      ensures hash.At(name, v) < |buckets| == |heads|
    {
    }

    /** The three insertions, each at the head of its list. */
    method Enlist(pc: Cached, h: nat)
      requires Rings() && pc.parent in vnodes && pc.child in vnodes && h < |heads| && pc.Tagged()
      requires pc.hashEntry !in lists.nodes && pc.childEntry !in lists.nodes && pc.parentEntry !in lists.nodes
      modifies this`buckets, this`log, lists, lists.nodes`next, lists.nodes`prev, pc.parent`children, pc.child`parents
      modifies pc.hashEntry`next, pc.hashEntry`prev, pc.childEntry`next, pc.childEntry`prev, pc.parentEntry`next, pc.parentEntry`prev
      ensures Rings() && buckets == old(buckets)[h := [pc] + old(buckets)[h]] && log == [pc] + old(log)
      ensures pc.parent.children == [pc] + old(pc.parent.children) && pc.child.parents == [pc] + old(pc.child.parents)
      ensures lists.nodes == old(lists.nodes) + {pc.hashEntry, pc.childEntry, pc.parentEntry}
    {
      hide Lists.Valid, NoRepeats, Held, Tags;
      InsertChild(pc);
      InsertParent(pc);
      InsertHash(pc, h);
      TagsWith(log, vnodes, lists.nodes, pc);
      log := [pc] + log;
    }

    method InsertChild(pc: Cached)
      requires Rings() && pc.parent in vnodes && pc.childEntry !in lists.nodes
      modifies lists, lists.nodes`next, lists.nodes`prev, pc.parent`children, pc.childEntry`next, pc.childEntry`prev
      ensures Rings() && pc.parent.children == [pc] + old(pc.parent.children) && lists.nodes == old(lists.nodes) + {pc.childEntry}
    {
      hide NodesOf, Lists.Valid, Loose, NoRepeats, Tags, HasRing;
      ghost var nodes := lists.nodes;
      RingOf(Under(pc.parent), pc.parent.childHead, pc.parent.children);
      OthersStay(Under(pc.parent), pc.parent.childHead, lists.rings, [pc.childEntry] + lists.rings[pc.parent.childHead]);
      RingGrows(lists.rings, Under(pc.parent), pc.parent.childHead, pc, pc.parent.children);
      lists.NewIsLoose(pc.childEntry);
      lists.Insert(pc.parent.childHead, pc.childEntry);
      pc.parent.children := [pc] + pc.parent.children;
      TagsGrow(log, vnodes, nodes, lists.nodes);
    }

    method InsertParent(pc: Cached)
      requires Rings() && pc.child in vnodes && pc.parentEntry !in lists.nodes
      modifies lists, lists.nodes`next, lists.nodes`prev, pc.child`parents, pc.parentEntry`next, pc.parentEntry`prev
      ensures Rings() && pc.child.parents == [pc] + old(pc.child.parents) && lists.nodes == old(lists.nodes) + {pc.parentEntry}
    {
      hide NodesOf, Lists.Valid, Loose, NoRepeats, Tags, HasRing;
      ghost var nodes := lists.nodes;
      RingOf(Onto(pc.child), pc.child.parentHead, pc.child.parents);
      OthersStay(Onto(pc.child), pc.child.parentHead, lists.rings, [pc.parentEntry] + lists.rings[pc.child.parentHead]);
      RingGrows(lists.rings, Onto(pc.child), pc.child.parentHead, pc, pc.child.parents);
      lists.NewIsLoose(pc.parentEntry);
      lists.Insert(pc.child.parentHead, pc.parentEntry);
      pc.child.parents := [pc] + pc.child.parents;
      TagsGrow(log, vnodes, nodes, lists.nodes);
    }

    /** PathCacheInsert. */
    method InsertHash(pc: Cached, h: nat)
      requires Rings() && h < |heads| && pc.hashEntry !in lists.nodes
      modifies this`buckets, lists, lists.nodes`next, lists.nodes`prev, pc.hashEntry`next, pc.hashEntry`prev
      ensures Rings() && buckets == old(buckets)[h := [pc] + old(buckets)[h]] && lists.nodes == old(lists.nodes) + {pc.hashEntry}
    {
      hide NodesOf, Lists.Valid, Loose, NoRepeats, Tags, HasRing;
      ghost var nodes := lists.nodes;
      RingOf(Bucket(h), heads[h], buckets[h]);
      OthersStay(Bucket(h), heads[h], lists.rings, [pc.hashEntry] + lists.rings[heads[h]]);
      RingGrows(lists.rings, Bucket(h), heads[h], pc, buckets[h]);
      lists.NewIsLoose(pc.hashEntry);
      lists.Insert(heads[h], pc.hashEntry);
      buckets := buckets[h := [pc] + buckets[h]];
      TagsGrow(log, vnodes, nodes, lists.nodes);
    }

    /** PathCacheFree. */
    method Free(pc: Cached)
      requires Valid() && pc in log
      modifies this`buckets, this`log, lists`rings, lists.nodes`next, lists.nodes`prev, vnodes`children, vnodes`parents
      ensures Valid() && log == Without(old(log), pc)
    {
      hide Without, Rings, NoRepeats, Keep;
      ghost var l := log;
      EntryIsThere(pc);
      Delist(pc, hash.At(pc.name, pc.parent));
      WithoutNoRepeats(l, pc);
      forall x | x in log ensures x in l { WithoutHas(l, pc, x); }
      forall k | 0 <= k < |buckets| ensures buckets[k] == Keep(log, Bucket(k), hash) { ViewAfter(l, Bucket(k), hash, pc); }
      forall v | v in vnodes
        ensures v.children == Keep(log, Under(v), hash) && v.parents == Keep(log, Onto(v), hash)
      {
        ViewAfter(l, Under(v), hash, pc);
        ViewAfter(l, Onto(v), hash, pc);
      }
    }

    /** The three deletions. */
    method Delist(pc: Cached, ghost h: nat)
      requires Rings() && pc.parent in vnodes && pc.child in vnodes && h < |buckets| == |heads|
      requires pc in buckets[h] && NoRepeats(buckets[h])
      requires pc in pc.parent.children && NoRepeats(pc.parent.children) && pc in pc.child.parents && NoRepeats(pc.child.parents)
      modifies this`buckets, this`log, lists`rings, lists.nodes`next, lists.nodes`prev, pc.parent`children, pc.child`parents
      ensures Rings() && buckets == old(buckets)[h := Without(old(buckets)[h], pc)] && log == Without(old(log), pc)
      ensures pc.parent.children == Without(old(pc.parent.children), pc) && pc.child.parents == Without(old(pc.child.parents), pc)
    {
      hide Without, Lists.Valid, NoRepeats, Held, Tags;
      DeleteHash(pc, h);
      DeleteParent(pc);
      DeleteChild(pc);
      TagsWithout(log, vnodes, lists.nodes, pc);
      log := Without(log, pc);
    }

    lemma EntryIsThere(pc: Cached)
      requires Valid() && pc in log
      ensures var b := buckets[hash.At(pc.name, pc.parent)]; pc in b && NoRepeats(b)
      ensures pc in pc.parent.children && NoRepeats(pc.parent.children) && pc in pc.child.parents && NoRepeats(pc.child.parents)
      ensures pc.parent in vnodes && pc.child in vnodes && hash.At(pc.name, pc.parent) < |buckets| == |heads|
    {
      hide Tags, Held, Lists.Valid;
      KeepFacts(log, Bucket(hash.At(pc.name, pc.parent)), hash);
      KeepFacts(log, Under(pc.parent), hash);
      KeepFacts(log, Onto(pc.child), hash);
    }

    method DeleteHash(pc: Cached, ghost h: nat)
      requires Rings() && h < |heads| && pc in buckets[h] && NoRepeats(buckets[h])
      modifies this`buckets, lists`rings, lists.nodes`next, lists.nodes`prev
      ensures Rings() && buckets == old(buckets)[h := Without(old(buckets)[h], pc)]
    {
      hide NodesOf, Lists.Valid, NoRepeats, Without, Tags, HasRing, Loose;
      ghost var k :| 0 <= k < |buckets[h]| && buckets[h][k] == pc;
      RingOf(Bucket(h), heads[h], buckets[h]);
      RingShrinks(lists.rings, Bucket(h), heads[h], buckets[h], k);
      OthersStay(Bucket(h), heads[h], lists.rings, lists.rings[heads[h]][..k] + lists.rings[heads[h]][k + 1..]);
      lists.Delete(pc.hashEntry, heads[h], k);
      buckets := buckets[h := Without(buckets[h], pc)];
    }

    method DeleteParent(pc: Cached)
      requires Rings() && pc.child in vnodes && pc in pc.child.parents && NoRepeats(pc.child.parents)
      modifies lists`rings, lists.nodes`next, lists.nodes`prev, pc.child`parents
      ensures Rings() && pc.child.parents == Without(old(pc.child.parents), pc)
    {
      hide NodesOf, Lists.Valid, NoRepeats, Without, Tags, HasRing, Loose;
      ghost var head := pc.child.parentHead;
      ghost var k :| 0 <= k < |pc.child.parents| && pc.child.parents[k] == pc;
      RingOf(Onto(pc.child), head, pc.child.parents);
      RingShrinks(lists.rings, Onto(pc.child), head, pc.child.parents, k);
      OthersStay(Onto(pc.child), head, lists.rings, lists.rings[head][..k] + lists.rings[head][k + 1..]);
      lists.Delete(pc.parentEntry, pc.child.parentHead, k);
      pc.child.parents := Without(pc.child.parents, pc);
    }

    method DeleteChild(pc: Cached)
      requires Rings() && pc.parent in vnodes && pc in pc.parent.children && NoRepeats(pc.parent.children)
      modifies lists`rings, lists.nodes`next, lists.nodes`prev, pc.parent`children
      ensures Rings() && pc.parent.children == Without(old(pc.parent.children), pc)
    {
      hide NodesOf, Lists.Valid, NoRepeats, Without, Tags, HasRing, Loose;
      ghost var head := pc.parent.childHead;
      ghost var k :| 0 <= k < |pc.parent.children| && pc.parent.children[k] == pc;
      RingOf(Under(pc.parent), head, pc.parent.children);
      RingShrinks(lists.rings, Under(pc.parent), head, pc.parent.children, k);
      OthersStay(Under(pc.parent), head, lists.rings, lists.rings[head][..k] + lists.rings[head][k + 1..]);
      lists.Delete(pc.childEntry, pc.parent.childHead, k);
      pc.parent.children := Without(pc.parent.children, pc);
    }

    /** Walking a list: behind the i-th node comes the next entry's, which knows the entry, or the header. */
    lemma Walk(sel: Sel, head: Node, i: nat)
      requires Valid() && HeadOf(sel, head) && i <= |Keep(log, sel, hash)|
      ensures var items := Keep(log, sel, hash);
              var at := if i == 0 then head else EntryIn(sel, items[i - 1]);
              && at.next == (if i < |items| then EntryIn(sel, items[i]) else head)
              && (i < |items| ==> EntryIn(sel, items[i]) != head && EntryIn(sel, items[i]).owner == items[i] && items[i] in log)
    {
      hide Keep, Lists.Valid, NoRepeats;
      assert HasRing(lists.rings, head, sel, Keep(log, sel, hash));
      lists.NextOf(head, i);
      if i < |Keep(log, sel, hash)| {
        KeepHas(log, sel, hash, Keep(log, sel, hash)[i]);
      }
    }

    /** PathCacheLookup: the first entry of the bucket with this parent and name. */
    method Lookup(parent: Vnode, name: seq<char>) returns (child: Vnode?)
      requires Valid()
      ensures child == if Newest(log, parent, name) == [] then null else Newest(log, parent, name)[0].child
    {
      hide Keep, Rings;
      BucketFinds(log, hash, parent, name);
      var h := hash.At(name, parent);
      assert HeadOf(Bucket(h), heads[h]) by { RingsSay(); }
      var head := heads[h];
      ghost var bucket, i := buckets[h], 0;
      Walk(Bucket(h), head, 0);
      var cur := head.next;
      assert bucket[0..] == bucket;
      while cur != head
        invariant 0 <= i <= |bucket| && cur == (if i < |bucket| then bucket[i].hashEntry else head)
        invariant i < |bucket| ==> cur != head && bucket[i].hashEntry.owner == bucket[i]
        invariant Newest(bucket[i..], parent, name) == Newest(log, parent, name)
        decreases |bucket| - i
      {
        var pc := cur.owner as Cached;
        assert bucket[i..][0] == pc && bucket[i..][1..] == bucket[i + 1..];
        if pc.parent == parent && |pc.name| == |name| && pc.name == name {
          return pc.child;
        }
        Walk(Bucket(h), head, i + 1);
        cur := cur.next;
        i := i + 1;
      }
      assert bucket[|bucket|..] == [];
      return null;
    }

    lemma RingsSay()
      requires Rings()
      ensures |heads| == |buckets|
    {
    }

    /** One of the two loops of VnodePathCacheFree: every entry of a list is freed, the next node being fetched
        before the entry goes. */
    method FreeAll(head: Node, ghost sel: Sel)
      requires Valid() && HeadOf(sel, head)
      modifies this`buckets, this`log, lists`rings, lists.nodes`next, lists.nodes`prev, vnodes`children, vnodes`parents
      ensures Valid() && log == Minus(old(log), old(Keep(log, sel, hash))) && Keep(log, sel, hash) == []
    {
      hide Minus, Without, Keep, Rings, Views, NoRepeats;
      ghost var items, i := Keep(log, sel, hash), 0;
      ListHasNoRepeats(sel);
      MinusNothing(log);
      assert items[..0] == [] && items[0..] == items;
      Walk(sel, head, 0);
      var item := head.next;
      while item != head
        invariant Valid() && HeadOf(sel, head) && 0 <= i <= |items|
        invariant log == Minus(old(log), items[..i]) && Keep(log, sel, hash) == items[i..]
        invariant item == head.next
        decreases |items| - i
      {
        Walk(sel, head, 0);
        Walk(sel, head, 1);
        var next := item.next;
        var pc := item.owner as Cached;
        OneLess(old(log), log, sel, hash, items, i);
        Free(pc);
        i := i + 1;
        Walk(sel, head, 0);
        item := next;
      }
      Walk(sel, head, 0);
      assert items[..|items|] == items && items[|items|..] == [];
    }

    lemma ListHasNoRepeats(sel: Sel)
      requires Valid()
      ensures NoRepeats(Keep(log, sel, hash))
    {
      hide Rings;
      KeepFacts(log, sel, hash);
    }

    /** VnodePathCacheFree: the entries that lead to the vnode go first, then those that start from it. */
    method Purge(v: Vnode)
      requires Valid() && v in vnodes
      modifies this`buckets, this`log, lists`rings, lists.nodes`next, lists.nodes`prev, vnodes`children, vnodes`parents
      ensures Valid() && log == Purged(old(log), v) && v.children == [] && v.parents == []
      ensures forall u :: u in vnodes && old(u.children) == [] ==> u.children == []
      ensures forall u :: u in vnodes && old(u.parents) == [] ==> u.parents == []
    {
      hide Minus, Purged, Keep, Rings;
      ghost var l, onto := log, v.parents;
      KeepFacts(l, Onto(v), hash);
      FreeAll(v.parentHead, Onto(v));
      ghost var mid, under := log, v.children;
      KeepFacts(mid, Under(v), hash);
      FreeAll(v.childHead, Under(v));
      forall x ensures x in mid <==> x in l && x !in onto { MinusHas(l, onto, x); }
      MinusTwice(l, onto, under);
      MinusIsPurged(l, onto + under, v);
      forall x | x in log ensures x.parent != v && x.child != v { PurgedHas(l, v, x); }
      KeepNone(log, Under(v), hash);
      KeepNone(log, Onto(v), hash);
      forall x | x in log ensures x in l { PurgedHas(l, v, x); }
      forall u | u in vnodes ensures old(u.children) == [] ==> u.children == [] { StaysEmpty(l, log, Under(u), hash); }
      forall u | u in vnodes ensures old(u.parents) == [] ==> u.parents == [] { StaysEmpty(l, log, Onto(u), hash); }
    }

    /** A new vnode, which no entry mentions, is one of those the cache covers; its lists are initialised. */
    method Cover(v: Vnode)
      requires Valid() && v !in vnodes && v.children == [] && v.parents == [] && v.Tagged()
      requires v.childHead !in lists.nodes && v.parentHead !in lists.nodes
      modifies this`vnodes, lists, v.childHead`next, v.childHead`prev, v.parentHead`next, v.parentHead`prev
      ensures Valid() && vnodes == old(vnodes) + {v} && lists.nodes == old(lists.nodes) + {v.childHead, v.parentHead}
    {
      hide Views, Lists.Valid, NoRepeats, Tags, Held;
      InitLists(v);
      ViewsMore(log, vnodes, v);
      TagsMore(log, vnodes, lists.nodes, v);
      HeldWith(lists.rings, vnodes, v);
      vnodes := vnodes + {v};
    }

    method InitLists(v: Vnode)
      requires Rings() && v.childHead !in lists.nodes && v.parentHead !in lists.nodes && v.childHead != v.parentHead
      modifies lists, v.childHead`next, v.childHead`prev, v.parentHead`next, v.parentHead`prev
      ensures Rings() && lists.nodes == old(lists.nodes) + {v.childHead, v.parentHead}
      ensures v.childHead in lists.rings && v.parentHead in lists.rings && lists.rings[v.childHead] == lists.rings[v.parentHead] == []
    {
      hide Lists.Valid, Loose, NoRepeats, Held, Tags;
      ghost var nodes := lists.nodes;
      lists.NewIsLoose(v.parentHead);
      HeldMore(lists.rings, vnodes, v.parentHead);
      lists.Init(v.parentHead);
      lists.NewIsLoose(v.childHead);
      HeldMore(lists.rings, vnodes, v.childHead);
      lists.Init(v.childHead);
      TagsGrow(log, vnodes, nodes, lists.nodes);
    }

    lemma HeldMore(rings: map<Node, seq<Node>>, all: set<Vnode>, head: Node)
      requires Held(rings, all) && head !in rings
      ensures Held(rings[head := []], all)
    {
    }

    /** One vnode more, with empty lists. */
    lemma HeldWith(rings: map<Node, seq<Node>>, all: set<Vnode>, v: Vnode)
      requires Held(rings, all) && v.children == [] && v.parents == []
      requires v.childHead in rings && v.parentHead in rings && rings[v.childHead] == rings[v.parentHead] == []
      ensures Held(rings, all + {v})
    {
    }

    lemma ViewsMore(entries: seq<Cached>, all: set<Vnode>, v: Vnode)
      requires Views(entries, all) && v !in all && v.children == [] && v.parents == []
      ensures Views(entries, all + {v})
    {
      hide Keep, NoRepeats;
      KeepNone(entries, Under(v), hash);
      KeepNone(entries, Onto(v), hash);
    }

    lemma TagsMore(entries: seq<Cached>, all: set<Vnode>, nodes: set<Node>, v: Vnode)
      requires Tags(entries, all, nodes) && v.childHead in nodes && v.parentHead in nodes && v.Tagged()
      ensures Tags(entries, all + {v}, nodes)
    {
    }

    /** A vnode that no entry mentions is no longer one of those the cache covers. */
    ghost method Forget(v: Vnode)
      requires Valid() && v in vnodes && v.children == [] && v.parents == []
      modifies this`vnodes
      ensures Valid() && vnodes == old(vnodes) - {v}
    {
      hide Lists.Valid, NoRepeats, Keep;
      forall pc | pc in log ensures pc.parent != v && pc.child != v {
        KeepHas(log, Under(v), hash, pc);
        KeepHas(log, Onto(v), hash, pc);
      }
      vnodes := vnodes - {v};
    }
  }

  /** Freeing the first entry of what is left of a list. */
  lemma OneLess(before: seq<Cached>, log: seq<Cached>, sel: Sel, hash: Hasher, items: seq<Cached>, i: nat)
    requires NoRepeats(items) && i < |items| && log == Minus(before, items[..i]) && Keep(log, sel, hash) == items[i..]
    ensures Without(log, items[i]) == Minus(before, items[..i + 1])
    ensures Keep(Without(log, items[i]), sel, hash) == items[i + 1..]
  {
    hide Minus, Without, Keep;
    MinusOne(before, items[..i], items[i]);
    assert items[..i] + [items[i]] == items[..i + 1];
    KeepWithout(log, sel, hash, items[i]);
    var rest := items[i..];
    WithoutAt(rest, 0);
    assert rest[..0] + rest[1..] == items[i + 1..];
  }

  lemma KeepFacts(log: seq<Cached>, sel: Sel, hash: Hasher)
    requires NoRepeats(log)
    ensures NoRepeats(Keep(log, sel, hash)) && forall x :: x in Keep(log, sel, hash) <==> x in log && Picks(sel, x, hash)
  {
    KeepNoRepeats(log, sel, hash);
    forall x ensures x in Keep(log, sel, hash) <==> x in log && Picks(sel, x, hash) { KeepHas(log, sel, hash, x); }
  }

  lemma {:induction false} KeepNoRepeats(log: seq<Cached>, sel: Sel, hash: Hasher)
    requires NoRepeats(log)
    ensures NoRepeats(Keep(log, sel, hash))
  {
    if log != [] {
      KeepNoRepeats(log[1..], sel, hash);
      KeepHas(log[1..], sel, hash, log[0]);
      assert log[0] !in log[1..];
    }
  }

  lemma StaysEmpty(log: seq<Cached>, sub: seq<Cached>, sel: Sel, hash: Hasher)
    requires forall x :: x in sub ==> x in log
    ensures Keep(log, sel, hash) == [] ==> Keep(sub, sel, hash) == []
  {
    if Keep(log, sel, hash) == [] {
      forall x | x in sub ensures !Picks(sel, x, hash) { KeepHas(log, sel, hash, x); }
      KeepNone(sub, sel, hash);
    }
  }

  lemma {:induction false} KeepNone(log: seq<Cached>, sel: Sel, hash: Hasher)
    requires forall x :: x in log ==> !Picks(sel, x, hash)
    ensures Keep(log, sel, hash) == []
  {
    if log != [] {
      assert log[0] in log;
      KeepNone(log[1..], sel, hash);
    }
  }

  /** Every live entry sits in its bucket, its parent's list and its child's list, and in no other. */
  lemma EntryPlaces(cache: Cache, pc: Cached, h: nat, v: Vnode)
    requires cache.Valid() && h < |cache.buckets| && v in cache.vnodes
    ensures pc in cache.buckets[h] <==> pc in cache.log && cache.hash.At(pc.name, pc.parent) == h
    ensures pc in v.children <==> pc in cache.log && pc.parent == v
    ensures pc in v.parents <==> pc in cache.log && pc.child == v
  {
    KeepHas(cache.log, Bucket(h), cache.hash, pc);
    KeepHas(cache.log, Under(v), cache.hash, pc);
    KeepHas(cache.log, Onto(v), cache.hash, pc);
  }

  /** Freeing an entry changes a lookup only if it was the newest for that name. */
  lemma {:induction false} NewestAfterFree(log: seq<Cached>, pc: Cached, parent: Vnode, name: seq<char>)
    ensures Newest(log, parent, name) != [pc] ==> Newest(Without(log, pc), parent, name) == Newest(log, parent, name)
  {
    if log != [] {
      var x, rest := log[0], log[1..];
      assert log == [x] + rest;
      WithoutCons(x, rest, pc);
      NewestAfterFree(rest, pc, parent, name);
      assert ([x] + Without(rest, pc))[1..] == Without(rest, pc);
    }
  }
}
