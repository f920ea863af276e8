/** The circular doubly linked lists of kernel/include/los_list.h: nodes embedded in their owners, a header
    node, and pointer surgery that is proved against the sequence of nodes behind the header. */
module IntrusiveList {
  import opened Sequences

  /** What a node is for, so that no two members of an owner are confused. */
  datatype Role =
    | HashHead | ChildHead | ParentHead | HashEntry | ChildEntry | ParentEntry
    | FreeHead | ActiveHead | VirtualHead | VnodeHashHead | ActEntry | VnodeHashEntry

  /** A list node embedded in its owner; `owner` is what LOS_DL_LIST_ENTRY computes from its address. */
  class Node {
    const role: Role
    var owner: object?
    var next: Node?
    var prev: Node?

    constructor (role: Role)
      ensures this.role == role && owner == null && next == null && prev == null
    {
      this.role, owner, next, prev := role, null, null, null;
    }
  }

  function Succ(i: nat, n: nat): nat
    requires i < n
  {
    if i + 1 == n then 0 else i + 1
  }

  function Pred(i: nat, n: nat): nat
    requires i < n
  {
    if i == 0 then n - 1 else i - 1
  }

  /** The neighbours of the k-th node around the circle. */
  function After(ring: seq<Node>, k: nat): Node
    requires k < |ring|
  {
    ring[Succ(k, |ring|)]
  }

  function Before(ring: seq<Node>, k: nat): Node
    requires k < |ring|
  {
    ring[Pred(k, |ring|)]
  }

  /** The nodes of `ring` are distinct, and each points to its neighbours around the circle. */
  ghost predicate Linked(ring: seq<Node>)
    reads ring`next, ring`prev
  {
    && ring != []
    && (forall i, j :: 0 <= i < j < |ring| ==> ring[i] != ring[j])
    && (forall i :: 0 <= i < |ring| ==> ring[i].next == ring[Succ(i, |ring|)])
    && (forall i :: 0 <= i < |ring| ==> ring[Succ(i, |ring|)].prev == ring[i])
  }

  /** A header and the items behind it, in order. */
  ghost predicate List(head: Node, items: seq<Node>)
    reads head`next, head`prev, items`next, items`prev
  {
    Linked([head] + items)
  }

  /** LOS_ListInit. */
  method ListInit(list: Node)
    modifies list`next, list`prev
    ensures List(list, [])
  {
    list.next := list;
    list.prev := list;
  }

  lemma PrevOf(ring: seq<Node>, i: nat)
    requires Linked(ring) && i < |ring|
    ensures ring[i].prev == ring[if i == 0 then |ring| - 1 else i - 1]
  {
    var k := if i == 0 then |ring| - 1 else i - 1;
    assert ring[Succ(k, |ring|)].prev == ring[k];
  }

  function Inserted(ring: seq<Node>, node: Node, k: nat): (r: seq<Node>)
    requires k < |ring|
    ensures |r| == |ring| + 1
    ensures forall i :: 0 <= i < |r| ==> r[i] == if i <= k then ring[i] else if i == k + 1 then node else ring[i - 1]
  {
    ring[..k + 1] + [node] + ring[k + 1..]
  }

  /** All links of the ring are in place but the one from the k-th node, which leads over `node`. */
  lemma LinkOver(ring: seq<Node>, node: Node, k: nat)
    requires k < |ring| && node !in ring && forall i, j :: 0 <= i < j < |ring| ==> ring[i] != ring[j]
    requires forall i :: 0 <= i < |ring| && i != k ==> ring[i].next == ring[Succ(i, |ring|)] && ring[Succ(i, |ring|)].prev == ring[i]
    requires ring[k].next == node && node.prev == ring[k] && node.next == ring[Succ(k, |ring|)] && ring[Succ(k, |ring|)].prev == node
    ensures Linked(Inserted(ring, node, k))
  {
    hide Inserted;
    var r := Inserted(ring, node, k);
    InsertedDiffer(ring, node, k);
    forall i | 0 <= i < |r|
      ensures r[i].next == r[Succ(i, |r|)] && r[Succ(i, |r|)].prev == r[i]
    {
      InsertedNext(ring, node, k, i);
    }
  }

  lemma InsertedDiffer(ring: seq<Node>, node: Node, k: nat)
    requires k < |ring| && node !in ring && forall i, j :: 0 <= i < j < |ring| ==> ring[i] != ring[j]
    ensures var r := Inserted(ring, node, k); forall i, j :: 0 <= i < j < |r| ==> r[i] != r[j]
  {
  }

  /** The neighbours after the insertion, in terms of those before it. */
  lemma InsertedNext(ring: seq<Node>, node: Node, k: nat, i: nat)
    requires k < |ring| && i <= |ring|
    ensures var r := Inserted(ring, node, k);
            if i < k then r[i] == ring[i] && r[Succ(i, |r|)] == ring[Succ(i, |ring|)]
            else if i == k then r[i] == ring[k] && r[Succ(i, |r|)] == node
            else if i == k + 1 then r[i] == node && r[Succ(i, |r|)] == ring[Succ(k, |ring|)]
            else r[i] == ring[i - 1] && r[Succ(i, |r|)] == ring[Succ(i - 1, |ring|)]
  {
  }

  /** LOS_ListAdd: `node` comes right after `at`, the k-th node of the ring. */
  method ListAdd(at: Node, node: Node, ghost ring: seq<Node>, ghost k: nat)
    requires Linked(ring) && k < |ring| && at == ring[k] && node !in ring
    modifies at`next, node`next, node`prev, After(ring, k)`prev
    ensures Linked(Inserted(ring, node, k))
  {
    hide Inserted;
    node.next := at.next;
    node.prev := at;
    at.next.prev := node;
    at.next := node;
    LinkOver(ring, node, k);
  }

  /** LOS_ListHeadInsert. */
  method ListHeadInsert(list: Node, node: Node, ghost items: seq<Node>)
    requires List(list, items) && node != list && node !in items
    modifies list`next, list`prev, items`next, items`prev, node`next, node`prev
    ensures List(list, [node] + items)
  {
    ghost var ring := [list] + items;
    ListAdd(list, node, ring, 0);
    assert Inserted(ring, node, 0) == [list] + ([node] + items);
  }

  /** LOS_ListTailInsert: right after the header's predecessor. */
  method ListTailInsert(list: Node, node: Node, ghost items: seq<Node>)
    requires List(list, items) && node != list && node !in items
    modifies list`next, list`prev, items`next, items`prev, node`next, node`prev
    ensures List(list, items + [node])
  {
    ghost var ring := [list] + items;
    ghost var k := |ring| - 1;
    PrevOf(ring, 0);
    ListAdd(list.prev, node, ring, k);
    assert Inserted(ring, node, k) == [list] + (items + [node]);
  }

  function Deleted(ring: seq<Node>, k: nat): (r: seq<Node>)
    requires k < |ring|
    ensures |r| == |ring| - 1 && forall i :: 0 <= i < |r| ==> r[i] == ring[if i < k then i else i + 1]
  {
    ring[..k] + ring[k + 1..]
  }

  /** All links are in place but the two of the k-th node, which its neighbours pass by. */
  lemma LinkPast(ring: seq<Node>, k: nat)
    requires k < |ring| && |ring| > 1 && forall i, j :: 0 <= i < j < |ring| ==> ring[i] != ring[j]
    requires forall i :: 0 <= i < |ring| && i != k && Succ(i, |ring|) != k ==>
               ring[i].next == ring[Succ(i, |ring|)] && ring[Succ(i, |ring|)].prev == ring[i]
    requires ring[Pred(k, |ring|)].next == ring[Succ(k, |ring|)] && ring[Succ(k, |ring|)].prev == ring[Pred(k, |ring|)]
    ensures Linked(Deleted(ring, k))
  {
    var r := Deleted(ring, k);
    forall i | 0 <= i < |r|
      ensures r[i].next == r[Succ(i, |r|)] && r[Succ(i, |r|)].prev == r[i]
    {
      var at := if i < k then i else i + 1;
      if Succ(at, |ring|) == k {
        assert at == Pred(k, |ring|) && r[Succ(i, |r|)] == ring[Succ(k, |ring|)];
      } else {
        assert r[Succ(i, |r|)] == ring[Succ(at, |ring|)];
      }
    }
  }

  /** LOS_ListDelete: the node leaves its ring and points nowhere.  Alone in its ring it just points nowhere. */
  method ListDelete(node: Node, ghost ring: seq<Node>, ghost k: nat)
    requires Linked(ring) && k < |ring| && node == ring[k]
    modifies node`next, node`prev, After(ring, k)`prev, Before(ring, k)`next
    ensures node.next == null && node.prev == null
    ensures |ring| > 1 ==> Linked(Deleted(ring, k))
  {
    hide Deleted;
    PrevOf(ring, k);
    node.next.prev := node.prev;
    node.prev.next := node.next;
    node.next := null;
    node.prev := null;
    if |ring| > 1 {
      LinkPast(ring, k);
    }
  }

  /** LOS_ListAdd does not ask whether the node is in a list already; if it is, that list is no longer one. */
  method ListAddAgain(at: Node, node: Node, ghost ring: seq<Node>, ghost k: nat, ghost other: seq<Node>, ghost j: nat)
    requires Linked(ring) && k < |ring| && at == ring[k] && Linked(other) && j < |other| && node == other[j] && Apart(ring, other)
    modifies node`next, node`prev, at`next, After(ring, k)`prev
    ensures !Linked(other)
  {
    PrevOf(ring, k);
    node.next := at.next;
    node.prev := at;
    at.next.prev := node;
    at.next := node;
    assert ring[Succ(k, |ring|)] != other[Succ(j, |other|)];
  }

  /** And if it is in that very list, no list is left behind the header: from the node the links lead back to it. */
  method ListAddSame(head: Node, node: Node, ghost items: seq<Node>, ghost k: nat, ghost any: seq<Node>)
    requires List(head, items) && k < |items| && node == items[k]
    modifies node`next, node`prev, head`next, items`prev
    ensures !List(head, any)
  {
    ghost var ring := [head] + items;
    assert forall i :: 0 <= i < |ring| ==> ring[i].next == ring[Succ(i, |ring|)];
    assert ring[0].next == items[0];
    forall t | 0 <= t < |items|
      ensures items[t] != head && (t != k ==> items[t] != node)
    {
      assert ring[0] != ring[t + 1] && ring[t + 1] == items[t] && ring[k + 1] == node;
    }
    node.next := head.next;
    node.prev := head;
    head.next.prev := node;
    head.next := node;
    forall t | 0 <= t < k ensures items[t].next == items[t + 1] && items[t] != head { assert ring[t + 1] == items[t]; }
    if List(head, any) {
      Rounds(head, items, k, any, k);
      Rounds(head, items, k, any, 0);
      NotBack([head] + any, k + 1, 1);
      assert false;
    }
  }

  /** No link of a ring leads to the node behind the header but the header's. */
  lemma NotBack(ring: seq<Node>, i: nat, j: nat)
    requires Linked(ring) && i < |ring| && j < |ring| && j != Succ(i, |ring|)
    ensures ring[i].next != ring[j]
  {
  }

  /** Where the links of such a header lead. */
  lemma {:induction false} Rounds(head: Node, items: seq<Node>, k: nat, any: seq<Node>, t: nat)
    requires Linked([head] + any) && t <= k < |items| && head.next == items[k] != head && items[k].next == items[0]
    requires forall i :: 0 <= i < k ==> items[i].next == items[i + 1] && items[i] != head
    ensures t < |any| && any[t] == if t == 0 then items[k] else items[t - 1]
  {
    var r := [head] + any;
    if t > 0 {
      Rounds(head, items, k, any, t - 1);
      assert r[t] == any[t - 1];
    }
    assert r[t].next == r[Succ(t, |r|)];
  }

  /** Deleting what was inserted at either end gives the list back. */
  method InsertThenDelete(list: Node, node: Node, ghost items: seq<Node>)
    requires List(list, items) && node != list && node !in items
    modifies list`next, list`prev, items`next, items`prev, node`next, node`prev
    ensures List(list, items) && node.next == null && node.prev == null
  {
    ListHeadInsert(list, node, items);
    ghost var ring := [list] + ([node] + items);
    ListDelete(node, ring, 1);
    assert Deleted(ring, 1) == [list] + items;
  }

  // ----- many lists that share no node

  predicate Apart(a: seq<Node>, b: seq<Node>) {
    forall i, j :: 0 <= i < |a| && 0 <= j < |b| ==> a[i] != b[j]
  }

  /** Lists by header, and no node in two of them. */
  ghost predicate AllApart(rings: map<Node, seq<Node>>) {
    forall g, h :: g in rings && h in rings && g != h ==> Apart([g] + rings[g], [h] + rings[h])
  }

  /** The node is in no list. */
  ghost predicate Loose(rings: map<Node, seq<Node>>, node: Node) {
    forall h :: h in rings ==> Apart([h] + rings[h], [node])
  }

  lemma ApartInit(rings: map<Node, seq<Node>>, head: Node)
    requires AllApart(rings) && Loose(rings, head)
    ensures head !in rings && AllApart(rings[head := []])
  {
    if head in rings {
      LooseFrom(rings, head, head);
    }
    var after := rings[head := []];
    forall g, h | g in after && h in after && g != h
      ensures Apart([g] + after[g], [h] + after[h])
    {
      if g == head {
        ApartOne([h] + rings[h], head);
      } else if h == head {
        ApartOne([g] + rings[g], head);
      }
    }
  }

  lemma ApartOne(a: seq<Node>, node: Node)
    requires Apart(a, [node])
    ensures Apart(a, [node] + []) && Apart([node] + [], a) && forall i :: 0 <= i < |a| ==> a[i] != node
  {
    forall i | 0 <= i < |a|
      ensures a[i] != node
    {
      assert a[i] != [node][0];
    }
  }

  lemma ApartPut(rings: map<Node, seq<Node>>, head: Node, items: seq<Node>)
    requires AllApart(rings) && head in rings
    requires forall h :: h in rings && h != head ==> Apart([head] + items, [h] + rings[h])
    ensures AllApart(rings[head := items])
  {
    var after := rings[head := items];
    forall g, h | g in after && h in after && g != h
      ensures Apart([g] + after[g], [h] + after[h])
    {
      if h == head {
        Swapped([head] + items, [g] + rings[g]);
      }
    }
  }

  lemma Swapped(a: seq<Node>, b: seq<Node>)
    requires Apart(a, b)
    ensures Apart(b, a)
  {
  }

  /** The headers of a hash table. */
  method MakeHeads(n: nat, role: Role) returns (made: seq<Node>)
    ensures |made| == n && NoRepeats(made) && forall i :: 0 <= i < n ==> fresh(made[i]) && made[i].role == role
  {
    made := [];
    while |made| < n
      invariant |made| <= n && NoRepeats(made) && forall i :: 0 <= i < |made| ==> fresh(made[i]) && made[i].role == role
    {
      var node := new Node(role);
      made := made + [node];
    }
  }

  /** All lists of a subsystem, by header. */
  class Lists {
    ghost var rings: map<Node, seq<Node>>
    ghost var nodes: set<Node>

    constructor ()
      ensures Valid() && rings == map[] && nodes == {}
    {
      rings, nodes := map[], {};
    }

    ghost predicate Valid()
      reads this, nodes`next, nodes`prev
    {
      && (forall h :: h in rings ==> h in nodes && forall i :: 0 <= i < |rings[h]| ==> rings[h][i] in nodes)
      && (forall h :: h in rings ==> List(h, rings[h]))
      && AllApart(rings)
    }

    /** A node that was never in a list is in none. */
    lemma NewIsLoose(node: Node)
      requires Valid() && node !in nodes
      ensures Loose(rings, node) && node !in rings
    {
      forall h | h in rings
        ensures Apart([h] + rings[h], [node])
      {
      }
    }

    /** From an item of a list, the next one, and from the last the header. */
    lemma NextOf(head: Node, i: nat)
      requires Valid() && head in rings && i <= |rings[head]|
      ensures var at := if i == 0 then head else rings[head][i - 1];
              at.next == if i < |rings[head]| then rings[head][i] else head
      ensures i < |rings[head]| ==> rings[head][i] != head
    {
      var ring := [head] + rings[head];
      assert Linked(ring) && ring[i].next == ring[Succ(i, |ring|)];
      if i < |rings[head]| {
        assert ring[0] != ring[i + 1];
      }
    }

    /** LOS_ListInit of a header in use by no list. */
    method Init(head: Node)
      requires Valid() && Loose(rings, head)
      modifies this, head`next, head`prev
      ensures Valid() && rings == old(rings)[head := []] && nodes == old(nodes) + {head}
    {
      hide AllApart, Loose, List;
      ApartInit(rings, head);
      ListInit(head);
      forall h | h in rings
        ensures List(h, rings[h])
      {
        LooseFrom(rings, head, h);
        assert old(List(h, rings[h]));
      }
      rings, nodes := rings[head := []], nodes + {head};
    }

    /** The same for many headers. */
    method InitAll(heads: seq<Node>)
      requires Valid() && NoRepeats(heads) && forall i :: 0 <= i < |heads| ==> heads[i] !in nodes
      modifies this, heads`next, heads`prev
      ensures Valid() && forall i :: 0 <= i < |heads| ==> heads[i] in rings && rings[heads[i]] == []
      ensures forall h :: h in old(rings) ==> h in rings && rings[h] == old(rings)[h]
      ensures forall n :: n in nodes ==> n in old(nodes) || n in heads
    {
      hide Valid, Loose;
      for h := 0 to |heads|
        invariant Valid() && forall i :: 0 <= i < h ==> heads[i] in rings && rings[heads[i]] == []
        invariant forall r :: r in old(rings) ==> r in rings && rings[r] == old(rings)[r]
        invariant forall n :: n in nodes ==> n in old(nodes) || n in heads[..h]
      {
        assert heads[h] !in heads[..h];
        NewIsLoose(heads[h]);
        Init(heads[h]);
      }
    }

    /** LOS_ListHeadInsert of a loose node. */
    method Insert(head: Node, node: Node)
      requires Valid() && head in rings && Loose(rings, node)
      modifies this, nodes`next, nodes`prev, node`next, node`prev
      ensures Valid() && rings == old(rings)[head := [node] + old(rings)[head]] && nodes == old(nodes) + {node}
    {
      hide AllApart, Loose, List;
      ghost var items := rings[head];
      LooseFrom(rings, node, head);
      ListHeadInsert(head, node, items);
      forall h | h in rings && h != head
        ensures List(h, rings[h]) && Apart([head] + ([node] + items), [h] + rings[h])
      {
        LooseFrom(rings, node, h);
        FromEachOther(rings, h, head);
        assert old(List(h, rings[h]));
      }
      ApartPut(rings, head, [node] + items);
      rings, nodes := rings[head := [node] + items], nodes + {node};
    }

    /** LOS_ListTailInsert of a loose node. */
    method Append(head: Node, node: Node)
      requires Valid() && head in rings && Loose(rings, node)
      modifies this, nodes`next, nodes`prev, node`next, node`prev
      ensures Valid() && rings == old(rings)[head := old(rings)[head] + [node]] && nodes == old(nodes) + {node}
    {
      hide AllApart, Loose, List;
      ghost var items := rings[head];
      LooseFrom(rings, node, head);
      ListTailInsert(head, node, items);
      forall h | h in rings && h != head
        ensures List(h, rings[h]) && Apart([head] + (items + [node]), [h] + rings[h])
      {
        LooseFrom(rings, node, h);
        FromEachOther(rings, h, head);
        assert old(List(h, rings[h]));
      }
      ApartPut(rings, head, items + [node]);
      rings, nodes := rings[head := items + [node]], nodes + {node};
    }

    /** LOS_ListDelete of a node that is the k-th behind a header, or alone in its ring. */
    method Unhook(node: Node, ghost head: Node, ghost k: nat)
      requires Valid() && head in rings && Has(rings, head, k, node)
      modifies this`rings, nodes`next, nodes`prev
      ensures Valid() && rings == Cut(old(rings), head, k) && Loose(rings, node)
    {
      hide AllApart, Loose, List, Linked, Deleted;
      ghost var ring := [head] + rings[head];
      ghost var at := if rings[head] == [] then 0 else k + 1;
      assert List(head, rings[head]) && ring[at] == node;
      CutIsLoose(head, k, node);
      CutApart(rings, head, k);
      ListIsLinked(head, rings[head]);
      ListDelete(node, ring, at);
      forall h | h in rings && h != head
        ensures List(h, rings[h])
      {
        FromEachOther(rings, h, head);
        assert old(List(h, rings[h]));
      }
      if rings[head] != [] {
        DeletedBehind(head, rings[head], k);
      }
      rings := Cut(rings, head, k);
    }

    /** LOS_ListDelete of the k-th node behind a header. */
    method Delete(node: Node, ghost head: Node, ghost k: nat)
      requires Valid() && head in rings && k < |rings[head]| && node == rings[head][k]
      modifies this`rings, nodes`next, nodes`prev
      ensures Valid() && rings == old(rings)[head := old(rings)[head][..k] + old(rings)[head][k + 1..]] && Loose(rings, node)
    {
      hide Valid, Loose;
      Unhook(node, head, k);
    }

    /** No list holds a node twice, and no two lists share one. */
    lemma OnlyOnce(g: Node, i: nat, h: Node, j: nat)
      requires Valid() && g in rings && h in rings && i < |rings[g]| && j < |rings[h]| && rings[g][i] == rings[h][j]
      ensures g == h && i == j
    {
      hide AllApart;
      if g != h {
        FromEachOther(rings, g, h);
      } else {
        var ring := [g] + rings[g];
        assert Linked(ring) && ring[i + 1] == ring[j + 1];
      }
    }

    /** Two headers share nothing. */
    lemma Separate(g: Node, h: Node)
      requires Valid() && g in rings && h in rings && g != h
      ensures g !in rings[h]
    {
      hide AllApart;
      FromEachOther(rings, g, h);
    }

    /** A node that points to itself is alone in its ring. */
    lemma SelfLinked(head: Node, k: nat, node: Node)
      requires Valid() && head in rings && Has(rings, head, k, node)
      ensures node.next == node <==> rings[head] == []
    {
      var ring := [head] + rings[head];
      var at := if rings[head] == [] then 0 else k + 1;
      assert Linked(ring) && ring[at].next == ring[Succ(at, |ring|)];
    }

    /** Nodes may be named before they are placed. */
    ghost method Adopt(more: set<Node>)
      requires Valid()
      modifies this`nodes
      ensures Valid() && nodes == old(nodes) + more
    {
      nodes := nodes + more;
    }

    /** A header without items is no longer one. */
    ghost method Leave(head: Node)
      requires Valid() && head in rings && rings[head] == []
      modifies this`rings
      ensures Valid() && rings == old(rings) - {head} && Loose(rings, head)
    {
      hide AllApart, Loose, List;
      CutIsLoose(head, 0, head);
      CutApart(rings, head, 0);
      rings := rings - {head};
    }

    /** A node taken out of its list is in no other. */
    lemma CutIsLoose(head: Node, k: nat, node: Node)
      requires Valid() && head in rings && Has(rings, head, k, node)
      ensures Loose(Cut(rings, head, k), node)
    {
      hide AllApart;
      var after, ring := Cut(rings, head, k), [head] + rings[head];
      var at := if rings[head] == [] then 0 else k + 1;
      assert Linked(ring) && ring[at] == node;
      forall h | h in after
        ensures Apart([h] + after[h], [node])
      {
        if h == head {
          var rest := [h] + after[h];
          forall i | 0 <= i < |rest| ensures rest[i] != node { assert rest[i] == ring[if i < at then i else i + 1]; }
        } else {
          FromEachOther(rings, h, head);
        }
      }
    }
  }

  // ----- what stays loose

  lemma LooseStill(rings: map<Node, seq<Node>>, head: Node, items: seq<Node>, node: Node, x: Node)
    requires Loose(rings, x) && head in rings && x != node
    requires forall i :: 0 <= i < |items| ==> items[i] == node || items[i] in rings[head]
    ensures Loose(rings[head := items], x)
  {
    LooseFrom(rings, x, head);
  }

  lemma LooseCut(rings: map<Node, seq<Node>>, head: Node, k: nat, x: Node)
    requires Loose(rings, x) && head in rings && (rings[head] != [] ==> k < |rings[head]|)
    ensures Loose(Cut(rings, head, k), x)
  {
    LooseFrom(rings, x, head);
  }

  lemma LooseInit(rings: map<Node, seq<Node>>, head: Node, x: Node)
    requires Loose(rings, x) && x != head
    ensures Loose(rings[head := []], x)
  {
  }

  lemma ListIsLinked(head: Node, items: seq<Node>)
    requires List(head, items)
    ensures Linked([head] + items)
  {
  }

  lemma DeletedBehind(head: Node, items: seq<Node>, k: nat)
    requires k < |items| && Linked(Deleted([head] + items, k + 1))
    ensures List(head, items[..k] + items[k + 1..])
  {
    assert Deleted([head] + items, k + 1) == [head] + (items[..k] + items[k + 1..]);
  }

  lemma CutApart(rings: map<Node, seq<Node>>, head: Node, k: nat)
    requires AllApart(rings) && head in rings && (rings[head] != [] ==> k < |rings[head]|)
    ensures AllApart(Cut(rings, head, k))
  {
    if rings[head] != [] {
      var rest := rings[head][..k] + rings[head][k + 1..];
      forall h | h in rings && h != head
        ensures Apart([head] + rest, [h] + rings[h])
      {
        assert Apart([head] + rings[head], [h] + rings[h]);
        Fewer([head] + rings[head], [head] + rest, [h] + rings[h]);
      }
      ApartPut(rings, head, rest);
    }
  }

  lemma Fewer(a: seq<Node>, sub: seq<Node>, b: seq<Node>)
    requires Apart(a, b) && forall x :: x in sub ==> x in a
    ensures Apart(sub, b)
  {
    forall i, j | 0 <= i < |sub| && 0 <= j < |b|
      ensures sub[i] != b[j]
    {
      assert sub[i] in a;
    }
  }

  /** The node is the k-th behind the header, or the header itself when nothing is behind it. */
  ghost predicate Has(rings: map<Node, seq<Node>>, head: Node, k: nat, node: Node)
    requires head in rings
  {
    if rings[head] == [] then node == head else k < |rings[head]| && rings[head][k] == node
  }

  /** The lists without that node. */
  ghost function Cut(rings: map<Node, seq<Node>>, head: Node, k: nat): map<Node, seq<Node>>
    requires head in rings && (rings[head] != [] ==> k < |rings[head]|)
  {
    if rings[head] == [] then rings - {head} else rings[head := rings[head][..k] + rings[head][k + 1..]]
  }

  lemma LooseFrom(rings: map<Node, seq<Node>>, node: Node, h: Node)
    requires Loose(rings, node) && h in rings
    ensures node != h && node !in rings[h]
  {
    ApartOne([h] + rings[h], node);
    assert ([h] + rings[h])[0] == h;
    forall i | 0 <= i < |rings[h]|
      ensures rings[h][i] != node
    {
      assert ([h] + rings[h])[i + 1] == rings[h][i];
    }
  }

  lemma FromEachOther(rings: map<Node, seq<Node>>, g: Node, h: Node)
    requires AllApart(rings) && g in rings && h in rings && g != h
    ensures g !in rings[h] && h !in rings[g] && forall i :: 0 <= i < |rings[g]| ==> rings[g][i] !in rings[h]
  {
    var a, b := [g] + rings[g], [h] + rings[h];
    assert Apart(a, b);
    forall i, j | 0 <= i < |rings[g]| && 0 <= j < |rings[h]|
      ensures rings[g][i] != rings[h][j] && rings[g][i] != h && rings[h][j] != g
    {
      assert a[i + 1] != b[j + 1] && a[i + 1] != b[0] && a[0] != b[j + 1];
    }
    forall i | 0 <= i < |rings[g]|
      ensures rings[g][i] != h
    {
      assert a[i + 1] != b[0];
    }
    forall j | 0 <= j < |rings[h]|
      ensures rings[h][j] != g
    {
      assert a[0] != b[j + 1];
    }
  }
}
