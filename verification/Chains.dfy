/** Cluster chains in a File Allocation Table, as pure sequences: what exfat_get_next_cluster reads off
    an entry, what a chain is, and what extending and cutting one does. */
module Chains {
  import opened Bytes
  import opened Layout

  datatype Link = Eof | To(clu: nat) | Broken

  /** An entry as exfat_get_next_cluster reads it: reserved values above "bad" mean end of chain;
      free, bad and out-of-range entries are refused. */
  function NextOf(fat: seq<u32>, c: nat): Link
    requires c < |fat|
  {
    var raw := fat[c];
    if raw > BAD_CLUSTER then Eof
    else if FIRST_CLUSTER <= raw < |fat| && raw != BAD_CLUSTER then To(raw)
    else Broken
  }

  predicate Clusters(n: nat, ch: seq<nat>) {
    forall i :: 0 <= i < |ch| ==> FIRST_CLUSTER <= ch[i] < n
  }

  /** Consecutive clusters of `ch` are linked. */
  predicate Linked(fat: seq<u32>, ch: seq<nat>) {
    && Clusters(|fat|, ch)
    && forall i :: 0 <= i < |ch| - 1 ==> NextOf(fat, ch[i]) == To(ch[i + 1])
  }

  /** `ch` is a whole chain: linked, and ended by an end-of-chain mark. */
  predicate IsChain(fat: seq<u32>, ch: seq<nat>) {
    ch != [] && Linked(fat, ch) && NextOf(fat, ch[|ch| - 1]) == Eof
  }

  predicate Distinct(ch: seq<nat>) {
    forall i, j :: 0 <= i < j < |ch| ==> ch[i] != ch[j]
  }

  predicate Disjoint(a: seq<nat>, b: seq<nat>) {
    forall i, j :: 0 <= i < |a| && 0 <= j < |b| ==> a[i] != b[j]
  }

  // ----- chains are acyclic, bounded and determined by their head

  lemma {:induction false} SameNext(fat: seq<u32>, a: seq<nat>, b: seq<nat>, i: nat, j: nat, k: nat)
    requires Linked(fat, a) && Linked(fat, b)
    requires i + k < |a| && j + k < |b| && a[i] == b[j]
    ensures a[i + k] == b[j + k]
  {
    if k > 0 {
      SameNext(fat, a, b, i, j, k - 1);
      assert NextOf(fat, a[i + k - 1]) == To(a[i + k]) && NextOf(fat, b[j + k - 1]) == To(b[j + k]);
    }
  }

  /** A chain that ends never visits a cluster twice. */
  lemma ChainDistinct(fat: seq<u32>, ch: seq<nat>)
    requires IsChain(fat, ch)
    ensures Distinct(ch)
  {
    forall i, j | 0 <= i < j < |ch|
      ensures ch[i] != ch[j]
    {
      var k := |ch| - 1 - j;
      assert NextOf(fat, ch[i + k]) == To(ch[i + k + 1]);
      if ch[i] == ch[j] {
        SameNext(fat, ch, ch, i, j, k);
      }
    }
  }

  /** Links that come back to a cluster never end: no chain starts where they do. */
  lemma CyclicIsNoChain(fat: seq<u32>, walk: seq<nat>, i: nat, j: nat, ch: seq<nat>)
    requires Linked(fat, walk) && i < j < |walk| && walk[i] == walk[j]
    ensures !(IsChain(fat, ch) && ch[0] == walk[0])
  {
    if IsChain(fat, ch) && ch[0] == walk[0] {
      ChainDistinct(fat, ch);
      var last := |ch| - 1;
      if last < j {
        assert NextOf(fat, walk[last]) == To(walk[last + 1]);
        SameNext(fat, ch, walk, 0, 0, last);
      } else {
        SameNext(fat, ch, walk, 0, 0, i);
        SameNext(fat, ch, walk, 0, 0, j);
      }
    }
  }

  lemma {:induction false} DistinctBound(ch: seq<nat>, lo: nat, hi: nat)
    requires lo <= hi && Distinct(ch) && forall i :: 0 <= i < |ch| ==> lo <= ch[i] < hi
    ensures |ch| <= hi - lo
    decreases hi
  {
    assert ch != [] ==> lo <= ch[0] < hi;
    if lo == hi {
    } else if k :| 0 <= k < |ch| && ch[k] == hi - 1 {
      var rest := ch[..k] + ch[k + 1..];
      forall i | 0 <= i < |rest|
        ensures lo <= rest[i] < hi - 1
      {
        assert rest[i] == if i < k then ch[i] else ch[i + 1];
      }
      DistinctBound(rest, lo, hi - 1);
    } else {
      DistinctBound(ch, lo, hi - 1);
    }
  }

  /** No chain is longer than the number of data clusters. */
  lemma ChainBound(fat: seq<u32>, ch: seq<nat>)
    requires FIRST_CLUSTER <= |fat| && IsChain(fat, ch)
    ensures |ch| <= |fat| - FIRST_CLUSTER
  {
    ChainDistinct(fat, ch);
    DistinctBound(ch, FIRST_CLUSTER, |fat|);
  }

  // ----- what an update of the table does to a chain

  lemma ChainFrame(fat: seq<u32>, fat': seq<u32>, ch: seq<nat>)
    requires IsChain(fat, ch) && |fat'| == |fat| && forall i :: 0 <= i < |ch| ==> fat'[ch[i]] == fat[ch[i]]
    ensures IsChain(fat', ch)
  {
    forall i | 0 <= i < |ch|
      ensures NextOf(fat', ch[i]) == NextOf(fat, ch[i])
    {
    }
  }

  lemma ChainOther(fat: seq<u32>, ch: seq<nat>, c: nat, v: u32)
    requires IsChain(fat, ch) && c !in ch && c < |fat|
    ensures IsChain(fat[c := v], ch)
  {
    ChainFrame(fat, fat[c := v], ch);
  }

  lemma ChainSuffix(fat: seq<u32>, ch: seq<nat>, k: nat)
    requires IsChain(fat, ch) && k < |ch|
    ensures IsChain(fat, ch[k..])
  {
    var t := ch[k..];
    forall i | 0 <= i < |t| - 1
      ensures NextOf(fat, t[i]) == To(t[i + 1])
    {
      assert t[i] == ch[k + i] && t[i + 1] == ch[k + i + 1];
    }
  }

  /** Linking the tail of one chain to the head of another joins them. */
  lemma ChainJoin(fat: seq<u32>, a: seq<nat>, b: seq<nat>)
    requires IsChain(fat, a) && IsChain(fat, b) && Disjoint(a, b) && |fat| <= BAD_CLUSTER
    ensures IsChain(fat[a[|a| - 1] := b[0]], a + b)
  {
    ChainDistinct(fat, a);
    var fat' := fat[a[|a| - 1] := b[0]];
    var ch := a + b;
    forall i | 0 <= i < |ch|
      ensures FIRST_CLUSTER <= ch[i] < |fat'|
      ensures i < |ch| - 1 ==> NextOf(fat', ch[i]) == To(ch[i + 1])
      ensures i == |ch| - 1 ==> NextOf(fat', ch[i]) == Eof
    {
      if i < |a| - 1 {
        assert ch[i] == a[i] != a[|a| - 1] && NextOf(fat, a[i]) == To(a[i + 1]);
      } else if i >= |a| {
        var k := i - |a|;
        assert ch[i] == b[k] != a[|a| - 1];
        assert i < |ch| - 1 ==> NextOf(fat, b[k]) == To(b[k + 1]);
      }
    }
  }

  /** Ending a chain at position k leaves the first k clusters a chain, and the rest another. */
  lemma ChainCut(fat: seq<u32>, ch: seq<nat>, k: nat)
    requires IsChain(fat, ch) && 0 < k < |ch|
    ensures var fat' := fat[ch[k - 1] := EOF_CLUSTER]; IsChain(fat', ch[..k]) && IsChain(fat', ch[k..])
  {
    ChainDistinct(fat, ch);
    var fat' := fat[ch[k - 1] := EOF_CLUSTER];
    var a := ch[..k];
    forall i | 0 <= i < k - 1
      ensures NextOf(fat', a[i]) == To(a[i + 1])
    {
      assert NextOf(fat, ch[i]) == To(ch[i + 1]);
    }
    ChainSuffix(fat, ch, k);
    ChainFrame(fat, fat', ch[k..]);
  }

  /** Marking a fresh cluster as end of chain and linking the last cluster to it appends it. */
  lemma ChainGrow(fat: seq<u32>, ch: seq<nat>, c: nat)
    requires IsChain(fat, ch) && c !in ch && FIRST_CLUSTER <= c < |fat| <= BAD_CLUSTER
    ensures IsChain(fat[c := EOF_CLUSTER][ch[|ch| - 1] := c], ch + [c])
  {
    var fat1 := fat[c := EOF_CLUSTER];
    ChainFrame(fat, fat1, ch);
    assert IsChain(fat1, [c]);
    ChainJoin(fat1, ch, [c]);
  }
}
