/** Cluster allocation and release of fs/exfat/exfat_cluster.c: the cyclic bitmap scan, allocation with
    rollback, release of a chain, and the bounded chain walk. */
module Allocator {
  import opened Bytes
  import opened Layout
  import opened Bitmap
  import opened Chains
  import opened Volumes

  const FAT_CHAIN: nat := 1       // ALLOC_FAT_CHAIN
  const NO_FAT_CHAIN: nat := 3    // ALLOC_NO_FAT_CHAIN

  datatype Chain = Chain(dir: nat, size: nat, flags: nat)

  // ----- exfat_find_free_bitmap

  /** The k-th cluster of the scan from `start`, wrapping from the last data cluster to the first. */
  function Scan(start: nat, k: nat, n: nat): (c: nat)
    requires FIRST_CLUSTER <= start < n && k < n - FIRST_CLUSTER
    ensures FIRST_CLUSTER <= c < n
  {
    if start + k < n then start + k else FIRST_CLUSTER + (start + k - n)
  }

  /** The scan reaches every data cluster, each at one position only. */
  lemma ScanReaches(start: nat, n: nat, c: nat)
    requires FIRST_CLUSTER <= start < n && FIRST_CLUSTER <= c < n
    ensures exists k :: 0 <= k < n - FIRST_CLUSTER && Scan(start, k, n) == c
    ensures forall j, k | 0 <= j < n - FIRST_CLUSTER && 0 <= k < n - FIRST_CLUSTER ::
              Scan(start, j, n) == Scan(start, k, n) ==> j == k
  {
    var k := if c >= start then c - start else c - start + (n - FIRST_CLUSTER);
    assert Scan(start, k, n) == c;
  }

  function ScanStart(hint: nat, n: nat): nat {
    if hint < FIRST_CLUSTER || hint >= n then FIRST_CLUSTER else hint
  }

  /** `c` is the first free cluster of the scan from `hint`. */
  ghost predicate FirstFrom(bits: seq<bool>, hint: nat, c: nat) {
    exists k: nat :: FirstAt(bits, hint, c, k)
  }

  predicate FirstAt(bits: seq<bool>, hint: nat, c: nat, k: nat) {
    var n := |bits|;
    && FIRST_CLUSTER < n && k < n - FIRST_CLUSTER && c == Scan(ScanStart(hint, n), k, n) && !bits[c]
    && forall j :: 0 <= j < k ==> bits[Scan(ScanStart(hint, n), j, n)]
  }

  /** The clusters `taken` are the first free ones of the scan from `start`, in its order. */
  ghost predicate Picked(bits: seq<bool>, start: nat, taken: seq<nat>) {
    exists ks: seq<nat> :: PickedAt(bits, start, taken, ks)
  }

  /** They lie at the increasing positions `ks`, and all others up to the last of them are not free. */
  predicate PickedAt(bits: seq<bool>, start: nat, taken: seq<nat>, ks: seq<nat>) {
    FIRST_CLUSTER <= start < |bits| && Sited(bits, start, taken, ks) && Rising(ks) && PassedOver(bits, start, ks)
  }

  predicate Sited(bits: seq<bool>, start: nat, taken: seq<nat>, ks: seq<nat>)
    requires FIRST_CLUSTER <= start < |bits|
  {
    && |ks| == |taken|
    && forall i :: 0 <= i < |ks| ==> ks[i] < |bits| - FIRST_CLUSTER && taken[i] == Scan(start, ks[i], |bits|) && !bits[taken[i]]
  }

  predicate Rising(ks: seq<nat>) { forall i, j :: 0 <= i < j < |ks| ==> ks[i] < ks[j] }

  predicate PassedOver(bits: seq<bool>, start: nat, ks: seq<nat>)
    requires FIRST_CLUSTER <= start < |bits|
  {
    forall k :: 0 <= k < Behind(ks) && k < |bits| - FIRST_CLUSTER && k !in ks ==> bits[Scan(start, k, |bits|)]
  }

  /** The position behind the last. */
  function Behind(ks: seq<nat>): nat { if ks == [] then 0 else ks[|ks| - 1] + 1 }

  lemma PickedNone(bits: seq<bool>, start: nat)
    requires FIRST_CLUSTER <= start < |bits|
    ensures Picked(bits, start, [])
  {
    assert PickedAt(bits, start, [], []);
  }

  /** Where the search goes on after a cluster was taken. */
  function NextHint(start: nat, taken: seq<nat>, n: nat): nat {
    if taken == [] then start else if taken[|taken| - 1] + 1 >= n then FIRST_CLUSTER else taken[|taken| - 1] + 1
  }

  /** A scan from behind the clusters taken goes on where the scan of them stopped. */
  lemma PickedMore(bits: seq<bool>, start: nat, taken: seq<nat>, now: seq<bool>, c: nat)
    requires FIRST_CLUSTER <= start < |bits| && Picked(bits, start, taken) && now == PutAll(bits, taken, true)
    requires FirstFrom(now, NextHint(start, taken, |bits|), c)
    ensures Picked(bits, start, taken + [c])
  {
    hide PutAll, PickedAt, FirstAt;
    var ks :| PickedAt(bits, start, taken, ks);
    var k :| FirstAt(now, NextHint(start, taken, |bits|), c, k);
    forall d | 0 <= d < |bits|
      ensures now[d] == (bits[d] || d in taken)
    {
      PutAllReads(bits, taken, true, d);
    }
    var p := PositionOf(bits, start, taken, ks, now, c, k);
    PickedNext(bits, start, taken, ks, now, c, p);
  }

  /** The cluster found lies behind those taken, and what is between is marked. */
  lemma PositionOf(bits: seq<bool>, start: nat, taken: seq<nat>, ks: seq<nat>, now: seq<bool>, c: nat, k: nat) returns (p: nat)
    requires FIRST_CLUSTER <= start < |bits| && PickedAt(bits, start, taken, ks) && |now| == |bits|
    requires forall d :: 0 <= d < |bits| ==> now[d] == (bits[d] || d in taken)
    requires FirstAt(now, NextHint(start, taken, |bits|), c, k)
    ensures Behind(ks) <= p < |bits| - FIRST_CLUSTER && c == Scan(start, p, |bits|) && !now[c]
    ensures forall j :: Behind(ks) <= j < p ==> now[Scan(start, j, |bits|)]
  {
    var n, from := |bits|, Behind(ks);
    ScanReaches(start, n, c);
    p :| 0 <= p < n - FIRST_CLUSTER && Scan(start, p, n) == c;
    BehindPicked(bits, start, taken, ks, now);
    var hint := ScanStart(NextHint(start, taken, n), n);
    hide Scan, PickedAt;
    ScanReaches(hint, n, c);
    ScanOn(start, from, p - from, n);
    forall j | from <= j < p
      ensures now[Scan(start, j, n)]
    {
      ScanOn(start, from, j - from, n);
    }
  }

  /** What the scan has passed is marked now, and it goes on behind it. */
  lemma BehindPicked(bits: seq<bool>, start: nat, taken: seq<nat>, ks: seq<nat>, now: seq<bool>)
    requires FIRST_CLUSTER <= start < |bits| && PickedAt(bits, start, taken, ks) && |now| == |bits|
    requires forall d :: 0 <= d < |bits| ==> now[d] == (bits[d] || d in taken)
    ensures Behind(ks) <= |bits| - FIRST_CLUSTER
    ensures Behind(ks) < |bits| - FIRST_CLUSTER ==> ScanStart(NextHint(start, taken, |bits|), |bits|) == Scan(start, Behind(ks), |bits|)
    ensures forall j: nat :: j < Behind(ks) ==> now[Scan(start, j, |bits|)]
  {
    forall j: nat | j < Behind(ks)
      ensures now[Scan(start, j, |bits|)]
    {
      if j in ks {
        var i :| 0 <= i < |ks| && ks[i] == j;
        assert taken[i] == Scan(start, j, |bits|);
      }
    }
  }

  /** A scan may be begun later. */
  lemma ScanOn(start: nat, a: nat, b: nat, n: nat)
    requires FIRST_CLUSTER <= start < n && a + b < n - FIRST_CLUSTER
    ensures FIRST_CLUSTER <= Scan(start, a, n) < n && Scan(Scan(start, a, n), b, n) == Scan(start, a + b, n)
  {
  }

  lemma PickedNext(bits: seq<bool>, start: nat, taken: seq<nat>, ks: seq<nat>, now: seq<bool>, c: nat, p: nat)
    requires PickedAt(bits, start, taken, ks) && |now| == |bits|
    requires forall d :: 0 <= d < |bits| ==> now[d] == (bits[d] || d in taken)
    requires Behind(ks) <= p < |bits| - FIRST_CLUSTER && c == Scan(start, p, |bits|) && !now[c]
    requires forall j :: Behind(ks) <= j < p ==> now[Scan(start, j, |bits|)]
    ensures Picked(bits, start, taken + [c])
  {
    hide Scan, Sited, Rising, PassedOver;
    SitedMore(bits, start, taken, ks, c, p, now);
    RisingMore(ks, p);
    PassedMore(bits, start, taken, ks, now, p);
    assert PickedAt(bits, start, taken + [c], ks + [p]);
  }

  lemma SitedMore(bits: seq<bool>, start: nat, taken: seq<nat>, ks: seq<nat>, c: nat, p: nat, now: seq<bool>)
    requires FIRST_CLUSTER <= start < |bits| == |now| && Sited(bits, start, taken, ks)
    requires p < |bits| - FIRST_CLUSTER && c == Scan(start, p, |bits|) && !now[c] && forall d :: 0 <= d < |bits| ==> now[d] == (bits[d] || d in taken)
    ensures Sited(bits, start, taken + [c], ks + [p])
  {
    hide Scan;
  }

  lemma RisingMore(ks: seq<nat>, p: nat)
    requires Rising(ks) && Behind(ks) <= p
    ensures Rising(ks + [p])
  {
  }

  lemma PassedMore(bits: seq<bool>, start: nat, taken: seq<nat>, ks: seq<nat>, now: seq<bool>, p: nat)
    requires PickedAt(bits, start, taken, ks) && |now| == |bits| && Behind(ks) <= p < |bits| - FIRST_CLUSTER
    requires forall d :: 0 <= d < |bits| ==> now[d] == (bits[d] || d in taken)
    requires forall j :: Behind(ks) <= j < p ==> now[Scan(start, j, |bits|)]
    ensures PassedOver(bits, start, ks + [p])
  {
    hide Scan;
    forall k: nat | k < p + 1 && k !in ks + [p]
      ensures bits[Scan(start, k, |bits|)]
    {
      if k >= Behind(ks) {
        NotTaken(bits, start, taken, ks, k);
      }
    }
  }

  lemma NotTaken(bits: seq<bool>, start: nat, taken: seq<nat>, ks: seq<nat>, k: nat)
    requires PickedAt(bits, start, taken, ks) && Behind(ks) <= k < |bits| - FIRST_CLUSTER
    ensures Scan(start, k, |bits|) !in taken
  {
    forall i | 0 <= i < |taken|
      ensures taken[i] != Scan(start, k, |bits|)
    {
      assert i == |ks| - 1 || ks[i] < ks[|ks| - 1];
    }
  }

  method FindFree(vol: Volume, hint: nat) returns (e: Errno, c: nat, ghost k: nat)
    requires vol.Valid()
    ensures e == OK || e == ENOSPC
    ensures e == OK ==> && vol.lay.InHeap(c) && !vol.Bits[c] && k < vol.geo.numClusters - FIRST_CLUSTER
                        && c == Scan(ScanStart(hint, vol.geo.numClusters), k, vol.geo.numClusters)
                        && forall j :: 0 <= j < k ==>
                             vol.Bits[Scan(ScanStart(hint, vol.geo.numClusters), j, vol.geo.numClusters)]
    ensures e == ENOSPC ==> c == EOF_CLUSTER && forall d :: vol.lay.InHeap(d) ==> vol.Bits[d]
    ensures e == ENOSPC <==> CountFree(vol.Bits) == 0
  {
    hide Placed, Map.ClusterAt, FatOf, DataOf, SectorAddr, Bit, Mounted, CountFree;
    vol.MountedHere();
    vol.AmapCovers();
    CountFreeSome(vol.Bits);
    var n := vol.geo.numClusters;
    var total := n - FIRST_CLUSTER;
    k := 0;
    if total == 0 {
      return ENOSPC, EOF_CLUSTER, 0;
    }
    var start := ScanStart(hint, n);
    var scanned := 0;
    while scanned < total && scanned < MAX_CHAIN_LEN
      invariant 0 <= scanned <= total
      invariant forall j :: 0 <= j < scanned ==> vol.Bits[Scan(start, j, n)]
    {
      var clu := start + scanned;
      if clu >= n {
        clu := FIRST_CLUSTER + (clu - n);
      }
      assert clu == Scan(start, scanned, n);
      var i := clu - FIRST_CLUSTER;
      if !Bit(vol.amap[i / 8], i % 8) {
        assert !vol.Bits[clu];
        return OK, clu, scanned;
      }
      scanned := scanned + 1;
    }
    forall d | vol.lay.InHeap(d)
      ensures vol.Bits[d]
    {
      ScanReaches(start, n, d);
    }
    return ENOSPC, EOF_CLUSTER, 0;
  }

  // ----- release of bits along a chain

  twostate predicate FaultsGrow(vol: Volume)
    reads vol
  {
    vol.readFaults >= old(vol.readFaults) && vol.writeFaults >= old(vol.writeFaults)
  }

  twostate predicate NoFault(vol: Volume)
    reads vol
  {
    vol.readFaults == old(vol.readFaults) && vol.writeFaults == old(vol.writeFaults)
  }

  /** How many reads and writes have failed so far. */
  datatype Faults = Faults(ofReads: nat, ofWrites: nat)

  /** The counts `at` were reached during the call, after n failed accesses. */
  twostate predicate Reached(vol: Volume, at: Faults, n: nat)
    reads vol
  {
    && old(vol.readFaults) <= at.ofReads <= vol.readFaults && old(vol.writeFaults) <= at.ofWrites <= vol.writeFaults
    && at.ofReads + at.ofWrites == old(vol.readFaults + vol.writeFaults) + n
  }

  /** The on-disk bitmap agreed before, and no write has failed since: it agrees. */
  twostate predicate KeepsSynced(vol: Volume)
    reads vol
  {
    vol.writeFaults == old(vol.writeFaults) && old(vol.Synced()) ==> vol.Synced()
  }

  /** Clears the bits of a chain, cluster by cluster, as far as its FAT entries can be read. */
  method ClearWalk(vol: Volume, start: nat, ghost walk: seq<nat>) returns (ghost k: nat)
    requires vol.Valid()
    requires if walk == [] then start == EOF_CLUSTER else IsChain(vol.Fat, walk) && start == walk[0]
    modifies vol`amap, vol`Bits, vol`disk, vol`Data, vol`readFaults, vol`writeFaults, vol`writes
    ensures vol.Valid() && vol.UserData() == old(vol.UserData()) && FaultsGrow(vol)
    ensures k <= |walk| && vol.Bits == PutAll(old(vol.Bits), walk[..k], false)
    ensures vol.readFaults == old(vol.readFaults) ==> k == |walk|
    ensures KeepsSynced(vol)
  {
    hide Volume.Valid, Volume.Synced, Volume.UserData, PutAll;
    vol.MountedHere();
    var clu, guard := start, 0;
    if walk != [] {
      ChainBound(vol.Fat, walk);
    }
    k := 0;
    assert walk[..0] == [];
    PutNothing(vol.Bits);
    while clu != EOF_CLUSTER && clu != FREE_CLUSTER && FIRST_CLUSTER <= clu < vol.geo.numClusters && guard < MAX_CHAIN_LEN
      invariant vol.Valid() && vol.UserData() == old(vol.UserData()) && FaultsGrow(vol)
      invariant 0 <= guard <= |walk| && clu == if guard < |walk| then walk[guard] else EOF_CLUSTER
      invariant Clusters(vol.geo.numClusters, walk)
      invariant k == guard && vol.Bits == PutAll(old(vol.Bits), walk[..k], false)
      invariant KeepsSynced(vol)
      decreases MAX_CHAIN_LEN - guard
    {
      PutAllGrow(old(vol.Bits), walk[..k], clu, false);
      assert walk[..k] + [clu] == walk[..k + 1];
      var _ := vol.ClearBitmap(clu);
      k := k + 1;
      assert clu == walk[guard] && NextOf(vol.Fat, clu) == if guard < |walk| - 1 then To(walk[guard + 1]) else Eof;
      var next := vol.GetNext(clu);
      if next.NoNext? {
        return;
      }
      clu := next.clu;
      guard := guard + 1;
    }
  }

  lemma PutNothing(bits: seq<bool>)
    ensures PutAll(bits, [], false) == bits && PutAll(bits, [], true) == bits
  {
  }

  /** alloc_inline_rollback: clears the bits of the chain built so far, `walk`, and of the cluster being
      added.  Failed bitmap writes are ignored; a failed FAT read ends the walk early. */
  method Rollback(vol: Volume, start: nat, orphan: nat, ghost walk: seq<nat>) returns (ghost undo: seq<nat>)
    requires vol.Valid()
    requires if walk == [] then start == EOF_CLUSTER else IsChain(vol.Fat, walk) && start == walk[0]
    modifies vol`amap, vol`Bits, vol`disk, vol`Data, vol`readFaults, vol`writeFaults, vol`writes
    ensures vol.Valid() && vol.UserData() == old(vol.UserData()) && FaultsGrow(vol)
    ensures vol.Bits == PutAll(old(vol.Bits), undo, false)
    ensures forall i :: 0 <= i < |undo| ==> undo[i] in walk || (undo[i] == orphan && vol.lay.InHeap(orphan))
    ensures vol.lay.InHeap(orphan) ==> orphan in undo
    ensures vol.readFaults == old(vol.readFaults) ==> forall i :: 0 <= i < |walk| ==> walk[i] in undo
    ensures KeepsSynced(vol)
  {
    hide Volume.Valid, Volume.Synced, Volume.UserData, PutAll, IsChain;
    vol.MountedHere();
    var k := ClearWalk(vol, start, walk);
    undo := walk[..k];
    if orphan != EOF_CLUSTER && orphan != FREE_CLUSTER && FIRST_CLUSTER <= orphan < vol.geo.numClusters {
      PutAllGrow(old(vol.Bits), undo, orphan, false);
      var _ := vol.ClearBitmap(orphan);
      undo := undo + [orphan];
    }
  }

  /** What an allocation builds on: the bits before it, and the clusters taken so far as a chain. */
  ghost predicate Building(vol: Volume, bits: seq<bool>, taken: seq<nat>, first: nat, last: nat)
    reads vol`Fat, vol`Bits
  {
    && |bits| == |vol.Bits| && AllFree(bits, taken) && vol.Bits == PutAll(bits, taken, true)
    && if taken == [] then first == EOF_CLUSTER
       else IsChain(vol.Fat, taken) && first == taken[0] && last == taken[|taken| - 1]
  }

  /** Clusters set in `bits` are still set, and their FAT entries are as in `fat`. */
  ghost predicate OthersKept(vol: Volume, bits: seq<bool>, fat: seq<u32>)
    reads vol`Fat, vol`Bits
  {
    && |vol.Bits| == |bits| && |vol.Fat| == |fat| == |bits|
    && forall c :: 0 <= c < |bits| && bits[c] ==> vol.Bits[c] && vol.Fat[c] == fat[c]
  }

  /** Rolling back leaves every bit that was set before the allocation set, and undoes everything if no read
      fails. */
  method AbortStep(vol: Volume, first: nat, orphan: nat, ghost bits: seq<bool>, ghost marks: seq<nat>,
                   ghost walk: seq<nat>)
    requires vol.Valid() && |bits| == |vol.Bits| && AllFree(bits, marks) && vol.Bits == PutAll(bits, marks, true)
    requires if walk == [] then first == EOF_CLUSTER else IsChain(vol.Fat, walk) && first == walk[0]
    requires forall i :: 0 <= i < |walk| ==> walk[i] in marks
    requires vol.lay.InHeap(orphan) ==> orphan in marks
    requires forall i :: 0 <= i < |marks| ==> marks[i] in walk || (marks[i] == orphan && vol.lay.InHeap(orphan))
    modifies vol`amap, vol`Bits, vol`disk, vol`Data, vol`readFaults, vol`writeFaults, vol`writes
    ensures vol.Valid() && vol.UserData() == old(vol.UserData()) && FaultsGrow(vol)
    ensures |vol.Bits| == |bits| && forall c :: 0 <= c < |bits| && bits[c] ==> vol.Bits[c]
    ensures vol.readFaults == old(vol.readFaults) ==> vol.Bits == bits
    ensures KeepsSynced(vol)
  {
    hide Volume.Valid, Volume.UserData, Volume.Synced, PutAll, IsChain, AllFree;
    var undo := Rollback(vol, first, orphan, walk);
    Undo(bits, marks, undo);
  }

  lemma TakeOne(bits: seq<bool>, taken: seq<nat>, c: nat)
    requires AllFree(bits, taken) && c < |bits| && !PutAll(bits, taken, true)[c]
    ensures AllFree(bits, taken + [c]) && c !in taken && !bits[c]
    ensures taken != [] ==> !bits[taken[|taken| - 1]]
  {
    PutAllReads(bits, taken, true, c);
  }

  lemma LastOf(fat: seq<u32>, ch: seq<nat>)
    requires IsChain(fat, ch)
    ensures ch != [] && FIRST_CLUSTER <= ch[0] < |fat| && FIRST_CLUSTER <= ch[|ch| - 1] < |fat|
  {
  }

  /** First half of a round of the allocation loop: find a free cluster, mark it, and make it an end of
      chain.  `at` counts the faults when the rollback of a failed round begins. */
  method TakeCluster(vol: Volume, hint: nat, first: nat, last: nat, ghost bits: seq<bool>, ghost taken: seq<nat>)
    returns (e: Errno, c: nat, ghost at: Faults)
    requires vol.Valid() && Building(vol, bits, taken, first, last)
    modifies vol`amap, vol`Bits, vol`disk, vol`Data, vol`Fat, vol`readFaults, vol`writeFaults, vol`writes
    ensures vol.Valid() && vol.UserData() == old(vol.UserData()) && FaultsGrow(vol)
    ensures e == OK || e == ENOSPC || e == EIO
    ensures e == ENOSPC <==> CountFree(old(vol.Bits)) == 0
    ensures if e == OK then NoFault(vol) else Reached(vol, at, if e == EIO then 1 else 0)
    ensures e == OK ==> vol.lay.InHeap(c) && !old(vol.Bits)[c] && vol.Bits == old(vol.Bits)[c := true] && FirstFrom(old(vol.Bits), hint, c)
    ensures e == OK ==> vol.Fat == old(vol.Fat)[c := EOF_CLUSTER]
    ensures KeepsSynced(vol)
    ensures e != OK ==> OthersKept(vol, bits, old(vol.Fat))
    ensures e != OK && vol.readFaults == at.ofReads ==> vol.Bits == bits
  {
    hide Volume.Valid, Volume.Synced, Volume.UserData, PutAll, IsChain, AllFree, CountFree, FirstFrom;
    vol.MountedHere();
    ghost var k;
    e, c, k := FindFree(vol, hint);
    at := Faults(vol.readFaults, vol.writeFaults);
    if e != OK {
      AbortStep(vol, first, EOF_CLUSTER, bits, taken, taken);
      return;
    }
    FoundFirst(vol, hint, c, k);
    ghost var marks := taken + [c];
    PutAllGrow(bits, taken, c, true);
    TakeOne(bits, taken, c);
    if taken != [] {
      ChainOther(vol.Fat, taken, c, EOF_CLUSTER);
    }
    e := vol.SetBitmap(c);
    if e == OK {
      e := vol.EntSet(c, EOF_CLUSTER);
    }
    at := Faults(vol.readFaults, vol.writeFaults);
    if e != OK {
      AbortStep(vol, first, c, bits, marks, taken);
    }
  }

  lemma FoundFirst(vol: Volume, hint: nat, c: nat, k: nat)
    requires FIRST_CLUSTER < |vol.Bits| && c < |vol.Bits| && !vol.Bits[c] && k < |vol.Bits| - FIRST_CLUSTER
    requires c == Scan(ScanStart(hint, |vol.Bits|), k, |vol.Bits|)
    requires forall j :: 0 <= j < k ==> vol.Bits[Scan(ScanStart(hint, |vol.Bits|), j, |vol.Bits|)]
    ensures FirstFrom(vol.Bits, hint, c)
  {
    assert FirstAt(vol.Bits, hint, c, k);
  }

  /** One round of the allocation loop: take a cluster and link the previous one to it; on any failure,
      roll back, which restores the bitmap unless a read fails after the counts `at`. */
  method AllocStep(vol: Volume, hint: nat, first: nat, last: nat, ghost bits: seq<bool>, ghost taken: seq<nat>)
    returns (e: Errno, c: nat, ghost at: Faults)
    requires vol.Valid() && Building(vol, bits, taken, first, last)
    modifies vol`amap, vol`Bits, vol`disk, vol`Data, vol`Fat, vol`readFaults, vol`writeFaults, vol`writes
    ensures vol.Valid() && vol.UserData() == old(vol.UserData()) && FaultsGrow(vol)
    ensures e == OK || e == ENOSPC || e == EIO
    ensures e == ENOSPC <==> CountFree(old(vol.Bits)) == 0
    ensures if e == OK then NoFault(vol) else Reached(vol, at, if e == EIO then 1 else 0)
    ensures e == OK ==> vol.lay.InHeap(c) && !old(vol.Bits)[c] && vol.Bits == old(vol.Bits)[c := true] && FirstFrom(old(vol.Bits), hint, c)
    ensures e == OK ==> Building(vol, bits, taken + [c], if taken == [] then c else first, c)
    ensures e == OK ==> AllFree(bits, taken + [c])
    ensures e == OK ==> forall d :: 0 <= d < |vol.Fat| && d !in taken + [c] ==> vol.Fat[d] == old(vol.Fat)[d]
    ensures KeepsSynced(vol)
    ensures e != OK ==> OthersKept(vol, bits, old(vol.Fat))
    ensures e != OK && vol.readFaults == at.ofReads ==> vol.Bits == bits
  {
    hide Volume.Valid, Volume.Synced, Volume.UserData, PutAll, AllFree, CountFree, NextOf, Linked, FirstFrom;
    vol.MountedHere();
    e, c, at := TakeCluster(vol, hint, first, last, bits, taken);
    if e != OK {
      return;
    }
    ghost var marks := taken + [c];
    PutAllGrow(bits, taken, c, true);
    TakeOne(bits, taken, c);
    if taken != [] {
      LastOf(old(vol.Fat), taken);
    }
    if first == EOF_CLUSTER {
      assert taken + [c] == [c];
      SingleChain(vol.Fat, c);
      return;
    }
    ghost var fat := vol.Fat;
    ChainOther(old(vol.Fat), taken, c, EOF_CLUSTER);
    ChainGrow(old(vol.Fat), taken, c);
    e := vol.EntSet(last, c);
    at := Faults(vol.readFaults, vol.writeFaults);
    if e != OK {
      AbortStep(vol, first, c, bits, marks, if vol.Fat == fat then taken else marks);
    }
  }

  lemma SingleChain(fat: seq<u32>, c: nat)
    requires FIRST_CLUSTER <= c < |fat| && fat[c] == EOF_CLUSTER
    ensures IsChain(fat, [c])
  {
  }

  // ----- exfat_alloc_cluster

  /** A chain descriptor that names a cluster of the heap. */
  predicate Names(chain: Chain, n: nat) {
    chain.dir != EOF_CLUSTER && chain.dir != FREE_CLUSTER && FIRST_CLUSTER <= chain.dir < n
  }

  /** used_clusters after `freed` clusters were given back. */
  function UsedLess(used: nat, freed: nat): nat {
    if used == UNTRACKED then UNTRACKED else if used >= freed then used - freed else 0
  }

  /** sub_used_clusters. */
  method SubUsed(vol: Volume, freed: nat)
    requires vol.UsedOk()
    modifies vol`used
    ensures vol.UsedOk()
    ensures vol.used == UsedLess(old(vol.used), freed)
  {
    if vol.used == UNTRACKED {
      return;
    }
    vol.used := if vol.used >= freed then vol.used - freed else 0;
  }

  /** The source refuses a request up front when the tracked count leaves too little room. */
  predicate TooMany(n: nat, used: nat, total: nat) {
    used != UNTRACKED && n > total - used
  }

  /** exfat_alloc_cluster.  `at` counts the faults when the rollback of a failed allocation begins. */
  method AllocCluster(vol: Volume, num: nat, chain: Chain)
    returns (e: Errno, r: Chain, ghost taken: seq<nat>, ghost at: Faults)
    requires vol.Valid() && vol.UsedOk()
    modifies vol
    ensures vol.Valid() && vol.UsedOk() && vol.UserData() == old(vol.UserData()) && FaultsGrow(vol)
    ensures e == EINVAL <==> num == 0 || chain.flags != FAT_CHAIN
    ensures e == OK || e == EINVAL || e == ENOSPC || e == EIO
    ensures e == OK ==> |taken| == num && IsChain(vol.Fat, taken)
    ensures e == OK ==> AllFree(old(vol.Bits), taken) && vol.Bits == PutAll(old(vol.Bits), taken, true)
    ensures e == OK ==> forall c :: 0 <= c < |vol.Fat| && c !in taken ==> vol.Fat[c] == old(vol.Fat)[c]
    ensures e == OK ==> r == Chain(if Names(chain, vol.geo.numClusters) then chain.dir else taken[0], chain.size + num, FAT_CHAIN)
    ensures e == OK ==> FIRST_CLUSTER < vol.geo.numClusters
                        && Picked(old(vol.Bits), if Names(chain, vol.geo.numClusters) then chain.dir
                                                 else ScanStart(old(vol.searchPtr), vol.geo.numClusters), taken)
    ensures e == OK ==> vol.searchPtr == taken[num - 1]
    ensures e == OK ==> vol.used == if old(vol.used) == UNTRACKED then UNTRACKED else old(vol.used) + num
    ensures vol.used == UNTRACKED <==> old(vol.used) == UNTRACKED
    ensures e == OK ==> CountFree(vol.Bits) + num == CountFree(old(vol.Bits))
    ensures (e == OK || vol.readFaults == at.ofReads) && old(vol.UsedExact()) ==> vol.UsedExact()
    ensures KeepsSynced(vol)
    ensures e != OK ==> r == chain && vol.searchPtr == old(vol.searchPtr) && vol.used == old(vol.used)
    ensures e != OK ==> OthersKept(vol, old(vol.Bits), old(vol.Fat))
    ensures if e == OK then NoFault(vol) else Reached(vol, at, if e == EIO then 1 else 0)
    ensures e != OK && vol.readFaults == at.ofReads ==> vol.Bits == old(vol.Bits)
    ensures e == ENOSPC && old(vol.UsedExact()) ==> num > CountFree(old(vol.Bits))
  {
    hide Volume.Valid, Volume.Synced, Volume.UserData, PutAll, AllFree, CountFree, IsChain, Picked;
    vol.MountedHere();
    taken, at := [], Faults(vol.readFaults, vol.writeFaults);
    if num == 0 || chain.flags != FAT_CHAIN {
      return EINVAL, chain, [], at;
    }
    var n := vol.geo.numClusters;
    if TooMany(num, vol.used, n - FIRST_CLUSTER) {
      return ENOSPC, chain, [], at;
    }
    var hint: nat := if Names(chain, n) then chain.dir
                else if FIRST_CLUSTER <= vol.searchPtr < n then vol.searchPtr
                else FIRST_CLUSTER;
    var first, last;
    e, first, last, taken, at := AllocLoop(vol, num, hint);
    if e != OK {
      return e, chain, [], at;
    }
    LastOf(vol.Fat, taken);
    vol.MountedHere();
    r := Chain(if Names(chain, n) then chain.dir else first, chain.size + num, chain.flags);
    vol.searchPtr := last;
  }

  /** The loop of exfat_alloc_cluster, with the accounting of its failure paths. */
  method AllocLoop(vol: Volume, num: nat, start: nat)
    returns (e: Errno, first: nat, last: nat, ghost taken: seq<nat>, ghost at: Faults)
    requires vol.Valid() && vol.UsedOk() && num > 0
    requires vol.used == UNTRACKED || vol.used + num + FIRST_CLUSTER <= vol.geo.numClusters
    modifies vol`amap, vol`Bits, vol`disk, vol`Data, vol`Fat, vol`used, vol`readFaults, vol`writeFaults, vol`writes
    ensures vol.Valid() && vol.UserData() == old(vol.UserData()) && FaultsGrow(vol)
    ensures e == OK || e == ENOSPC || e == EIO
    ensures e == OK ==> |taken| == num && IsChain(vol.Fat, taken) && first == taken[0] && last == taken[num - 1]
    ensures e == OK ==> AllFree(old(vol.Bits), taken) && vol.Bits == PutAll(old(vol.Bits), taken, true)
    ensures e == OK ==> forall c :: 0 <= c < |vol.Fat| && c !in taken ==> vol.Fat[c] == old(vol.Fat)[c]
    ensures e == OK ==> FIRST_CLUSTER <= start < vol.geo.numClusters ==> Picked(old(vol.Bits), start, taken)
    ensures e == OK ==> vol.used == if old(vol.used) == UNTRACKED then UNTRACKED else old(vol.used) + num
    ensures e == OK ==> CountFree(vol.Bits) + num == CountFree(old(vol.Bits))
    ensures KeepsSynced(vol)
    ensures e != OK ==> vol.used == old(vol.used) && OthersKept(vol, old(vol.Bits), old(vol.Fat))
    ensures if e == OK then NoFault(vol) else Reached(vol, at, if e == EIO then 1 else 0)
    ensures e != OK && vol.readFaults == at.ofReads ==> vol.Bits == old(vol.Bits)
    ensures e == ENOSPC ==> num > CountFree(old(vol.Bits))
  {
    hide Volume.Valid, Volume.Synced, Volume.UserData, PutAll, AllFree, CountFree, IsChain, Building, OthersKept, Picked, FirstFrom;
    vol.MountedHere();
    BuildingStart(vol);
    var n, count, hint: nat := vol.geo.numClusters, 0, start;
    first, last, taken, e := EOF_CLUSTER, EOF_CLUSTER, [], OK;
    if FIRST_CLUSTER <= start < n {
      PickedNone(vol.Bits, start);
    }
    at := Faults(vol.readFaults, vol.writeFaults);
    while count < num
      invariant vol.Valid() && vol.UserData() == old(vol.UserData()) && NoFault(vol)
      invariant |vol.Fat| == n == |vol.Bits| && e == OK
      invariant 0 <= count == |taken| <= num && Building(vol, old(vol.Bits), taken, first, last)
      invariant AllFree(old(vol.Bits), taken) && (first == EOF_CLUSTER <==> taken == [])
      invariant forall c :: 0 <= c < |vol.Fat| && c !in taken ==> vol.Fat[c] == old(vol.Fat)[c]
      invariant vol.used == if old(vol.used) == UNTRACKED then UNTRACKED else old(vol.used) + count
      invariant CountFree(vol.Bits) + count == CountFree(old(vol.Bits))
      invariant hint == NextHint(start, taken, n) && (FIRST_CLUSTER <= start < n ==> Picked(old(vol.Bits), start, taken))
      invariant old(vol.Synced()) ==> vol.Synced()
    {
      ghost var fat, bits := vol.Fat, vol.Bits;
      BuildingFacts(vol, old(vol.Bits), taken, first, last);
      var c;
      e, c, at := AllocStep(vol, hint, first, last, old(vol.Bits), taken);
      if e != OK {
        SubUsed(vol, count);
        KeptThrough(vol, old(vol.Bits), old(vol.Fat), fat, taken);
        return;
      }
      vol.MountedHere();
      CountFreePut(bits, c, true);
      if FIRST_CLUSTER <= start < n {
        PickedMore(old(vol.Bits), start, taken, bits, c);
      }
      if first == EOF_CLUSTER {
        first := c;
      }
      taken := taken + [c];
      last := c;
      count := count + 1;
      if vol.used != UNTRACKED {
        vol.used := vol.used + 1;
      }
      hint := if c + 1 >= n then FIRST_CLUSTER else c + 1;
    }
    BuildingFacts(vol, old(vol.Bits), taken, first, last);
  }

  lemma BuildingStart(vol: Volume)
    ensures Building(vol, vol.Bits, [], EOF_CLUSTER, EOF_CLUSTER) && AllFree(vol.Bits, [])
  {
    PutNothing(vol.Bits);
  }

  lemma BuildingFacts(vol: Volume, bits: seq<bool>, taken: seq<nat>, first: nat, last: nat)
    requires Building(vol, bits, taken, first, last)
    ensures AllFree(bits, taken) && vol.Bits == PutAll(bits, taken, true)
    ensures taken != [] ==> IsChain(vol.Fat, taken) && first == taken[0] && last == taken[|taken| - 1]
  {
  }

  /** What the failed round kept, together with what the rounds before it kept. */
  lemma KeptThrough(vol: Volume, bits: seq<bool>, fat0: seq<u32>, fat: seq<u32>, taken: seq<nat>)
    requires OthersKept(vol, bits, fat) && |fat0| == |fat| && AllFree(bits, taken)
    requires forall c :: 0 <= c < |fat| && c !in taken ==> fat[c] == fat0[c]
    ensures OthersKept(vol, bits, fat0)
  {
  }

  // ----- exfat_free_cluster

  /** The `size` clusters from `dir` on. */
  function Run(dir: nat, size: nat): (r: seq<nat>)
    ensures |r| == size && forall i :: 0 <= i < size ==> r[i] == dir + i
  {
    seq(size, i requires 0 <= i => dir + i)
  }

  /** `ch` is what the descriptor describes: a contiguous run, or a chain of the FAT. */
  predicate Describes(fat: seq<u32>, chain: Chain, ch: seq<nat>) {
    && chain.size > 0
    && if chain.flags == NO_FAT_CHAIN then FIRST_CLUSTER <= chain.dir && chain.dir + chain.size <= |fat| && ch == Run(chain.dir, chain.size)
       else IsChain(fat, ch) && ch[0] == chain.dir
  }

  /** All clusters of `ch` are marked. */
  predicate AllMarked(bits: seq<bool>, ch: seq<nat>) {
    forall i :: 0 <= i < |ch| ==> ch[i] < |bits| && bits[ch[i]]
  }

  /** The contiguous case: bits are cleared one after the other until a write fails. */
  method FreeRun(vol: Volume, dir: nat, size: nat) returns (e: Errno, freed: nat, ghost cleared: seq<nat>)
    requires vol.Valid()
    modifies vol`amap, vol`Bits, vol`disk, vol`Data, vol`writeFaults, vol`writes
    ensures vol.Valid() && vol.UserData() == old(vol.UserData()) && vol.writeFaults >= old(vol.writeFaults)
    ensures vol.Bits == PutAll(old(vol.Bits), cleared, false) && cleared <= Run(dir, size)
    ensures e == OK ==> cleared == Run(dir, size) && freed == size
    ensures KeepsSynced(vol)
    ensures e == OK ==> vol.writeFaults == old(vol.writeFaults)
    ensures freed <= |cleared| <= size && (vol.writeFaults == old(vol.writeFaults) ==> freed == |cleared|)
    ensures FIRST_CLUSTER <= dir && dir + size <= vol.geo.numClusters && vol.writeFaults == old(vol.writeFaults) ==> e == OK
  {
    hide Volume.Valid, Volume.Synced, Volume.UserData, PutAll;
    vol.MountedHere();
    var clu := dir;
    freed, cleared, e := 0, [], OK;
    ghost var run := Run(dir, size);
    PutNothing(vol.Bits);
    while freed < size
      invariant vol.Valid() && vol.UserData() == old(vol.UserData()) && vol.writeFaults >= old(vol.writeFaults)
      invariant e == OK && freed <= size && clu == dir + freed && cleared == run[..freed] && |vol.Bits| == vol.geo.numClusters
      invariant vol.Bits == PutAll(old(vol.Bits), cleared, false)
      invariant vol.writeFaults == old(vol.writeFaults) && (old(vol.Synced()) ==> vol.Synced())
    {
      if vol.lay.InHeap(clu) {
        PutAllGrow(old(vol.Bits), cleared, clu, false);
      }
      e := vol.ClearBitmap(clu);
      vol.MountedHere();
      if e == EINVAL {
        return;
      }
      cleared := cleared + [clu];
      if e != OK {
        return;
      }
      clu := clu + 1;
      freed := freed + 1;
    }
  }

  /** The chained case: the FAT is followed from `dir` until its end, a fault or the loop bound. */
  method FreeWalk(vol: Volume, dir: nat, ghost ch: seq<nat>) returns (e: Errno, freed: nat, ghost cleared: seq<nat>)
    requires vol.Valid() && vol.lay.InHeap(dir)
    modifies vol`amap, vol`Bits, vol`disk, vol`Data, vol`readFaults, vol`writeFaults, vol`writes
    ensures vol.Valid() && vol.UserData() == old(vol.UserData()) && FaultsGrow(vol)
    ensures vol.Bits == PutAll(old(vol.Bits), cleared, false) && freed <= |cleared|
    ensures vol.writeFaults == old(vol.writeFaults) ==> freed == |cleared|
    ensures e == OK ==> vol.writeFaults == old(vol.writeFaults)
    ensures IsChain(vol.Fat, ch) && ch[0] == dir ==> cleared <= ch
    ensures IsChain(vol.Fat, ch) && ch[0] == dir && e == OK ==> cleared == ch && freed == |ch|
    ensures IsChain(vol.Fat, ch) && ch[0] == dir ==> e == OK || vol.readFaults + vol.writeFaults > old(vol.readFaults + vol.writeFaults)
    ensures KeepsSynced(vol)
  {
    hide Volume.Valid, Volume.Synced, Volume.UserData, PutAll;
    vol.MountedHere();
    ghost var good := IsChain(vol.Fat, ch) && ch[0] == dir;
    if good {
      ChainBound(vol.Fat, ch);
    }
    var clu, guard := dir, 0;
    freed, cleared, e := 0, [], OK;
    PutNothing(vol.Bits);
    while clu != EOF_CLUSTER && guard < MAX_CHAIN_LEN
      invariant vol.Valid() && vol.UserData() == old(vol.UserData()) && FaultsGrow(vol)
      invariant 0 <= guard <= MAX_CHAIN_LEN && guard == freed == |cleared| && |vol.Bits| == vol.geo.numClusters == |vol.Fat|
      invariant clu == EOF_CLUSTER || vol.lay.InHeap(clu)
      invariant good ==> guard <= |ch| && cleared == ch[..guard] && clu == if guard < |ch| then ch[guard] else EOF_CLUSTER
      invariant vol.Bits == PutAll(old(vol.Bits), cleared, false) && e == OK
      invariant vol.writeFaults == old(vol.writeFaults) && (old(vol.Synced()) ==> vol.Synced())
      decreases MAX_CHAIN_LEN - guard
    {
      PutAllGrow(old(vol.Bits), cleared, clu, false);
      e := vol.ClearBitmap(clu);
      vol.MountedHere();
      cleared := cleared + [clu];
      if e != OK {
        return;
      }
      freed := freed + 1;
      assert good ==> NextOf(vol.Fat, clu) == if guard < |ch| - 1 then To(ch[guard + 1]) else Eof;
      var next := vol.GetNext(clu);
      if next.NoNext? {
        return next.err, freed, cleared;
      }
      clu := next.clu;
      guard := guard + 1;
    }
    if guard >= MAX_CHAIN_LEN && clu != EOF_CLUSTER {
      e := EIO;
    }
  }

  method FreeCluster(vol: Volume, chain: Chain, ghost ch: seq<nat>) returns (e: Errno, ghost cleared: seq<nat>)
    requires vol.Valid() && vol.UsedOk()
    modifies vol`amap, vol`Bits, vol`disk, vol`Data, vol`used, vol`readFaults, vol`writeFaults, vol`writes
    ensures vol.Valid() && vol.UsedOk() && vol.UserData() == old(vol.UserData()) && FaultsGrow(vol)
    ensures vol.Bits == PutAll(old(vol.Bits), cleared, false)
    ensures vol.used == UNTRACKED <==> old(vol.used) == UNTRACKED
    ensures chain.dir < FIRST_CLUSTER || chain.dir == EOF_CLUSTER || chain.size == 0 ==> e == OK && cleared == [] && vol.used == old(vol.used)
    ensures Describes(vol.Fat, chain, ch) ==> cleared <= ch
    ensures Describes(vol.Fat, chain, ch) && e == OK ==> cleared == ch && vol.used == UsedLess(old(vol.used), |ch|)
    ensures Describes(vol.Fat, chain, ch) ==> e == OK || vol.readFaults + vol.writeFaults > old(vol.readFaults + vol.writeFaults)
    ensures (Describes(vol.Fat, chain, ch) && AllMarked(old(vol.Bits), ch) && vol.writeFaults == old(vol.writeFaults)
             && old(vol.UsedExact())) ==> vol.UsedExact()
    ensures Describes(vol.Fat, chain, ch) && AllMarked(old(vol.Bits), ch) ==>
              CountFree(vol.Bits) == CountFree(old(vol.Bits)) + |cleared|
    ensures KeepsSynced(vol) && (e == OK ==> vol.writeFaults == old(vol.writeFaults))
  {
    hide Volume.Valid, Volume.Synced, Volume.UserData, PutAll, IsChain, CountFree, Run, AllMarked;
    vol.MountedHere();
    cleared, e := [], OK;
    PutNothing(vol.Bits);
    DescribedHead(vol.Fat, chain, ch);
    if chain.dir == FREE_CLUSTER || chain.dir == EOF_CLUSTER || chain.dir < FIRST_CLUSTER || chain.size == 0 {
      SubUsed(vol, 0);
      return;
    }
    if chain.dir >= vol.geo.numClusters {
      SubUsed(vol, 0);
      return EIO, [];
    }
    var freed;
    if chain.flags == NO_FAT_CHAIN {
      e, freed, cleared := FreeRun(vol, chain.dir, chain.size);
    } else {
      e, freed, cleared := FreeWalk(vol, chain.dir, ch);
    }
    SubUsed(vol, freed);
    if Describes(vol.Fat, chain, ch) && AllMarked(old(vol.Bits), ch) {
      vol.MountedHere();
      FreedCount(vol.Fat, chain, ch, old(vol.Bits), cleared);
    }
  }

  /** Clearing marked clusters of what a descriptor describes frees that many. */
  lemma FreedCount(fat: seq<u32>, chain: Chain, ch: seq<nat>, bits: seq<bool>, cleared: seq<nat>)
    requires Describes(fat, chain, ch) && AllMarked(bits, ch) && cleared <= ch && |bits| >= 2
    requires PutAll(bits, cleared, false)[0] && PutAll(bits, cleared, false)[1]
    ensures CountFree(PutAll(bits, cleared, false)) == CountFree(bits) + |cleared|
    ensures CountFree(PutAll(bits, cleared, false)) + FIRST_CLUSTER <= |bits|
  {
    hide PutAll, IsChain, CountFree, Run;
    DescribedDistinct(fat, chain, ch);
    CountFreeClear(bits, cleared);
    CountFreeBound(PutAll(bits, cleared, false));
  }

  lemma DescribedHead(fat: seq<u32>, chain: Chain, ch: seq<nat>)
    ensures Describes(fat, chain, ch) ==> FIRST_CLUSTER <= chain.dir < |fat| && chain.size > 0
  {
  }

  lemma DescribedDistinct(fat: seq<u32>, chain: Chain, ch: seq<nat>)
    requires Describes(fat, chain, ch)
    ensures Distinct(ch) && Clusters(|fat|, ch) && ch != []
  {
    if chain.flags != NO_FAT_CHAIN {
      ChainDistinct(fat, ch);
    }
  }

  // ----- exfat_chain_walk

  /** A visitor's answer: 1 ends the walk with success, a negative number ends it with that error, and
      anything else goes on. */
  predicate Continues(v: int) { v != 1 && v >= 0 }

  const EIO_CODE: int := -5

  /** The links from `start` come back to a cluster. */
  ghost predicate Cyclic(fat: seq<u32>, start: nat) {
    exists walk: seq<nat>, i: nat, j: nat :: Linked(fat, walk) && i < j < |walk| && walk[i] == walk[j] && walk[0] == start
  }

  lemma ChainIsNotCyclic(fat: seq<u32>, ch: seq<nat>)
    requires IsChain(fat, ch)
    ensures !Cyclic(fat, ch[0])
  {
    LastOf(fat, ch);
    hide Linked, IsChain;
    forall walk: seq<nat>, i: nat, j: nat | Linked(fat, walk) && i < j < |walk| && walk[i] == walk[j]
      ensures walk[0] != ch[0]
    {
      CyclicIsNoChain(fat, walk, i, j, ch);
    }
  }

  lemma NoCycleAtEnd(fat: seq<u32>)
    requires |fat| <= BAD_CLUSTER
    ensures !Cyclic(fat, EOF_CLUSTER)
  {
  }

  /** Following the FAT from `start`, at most one step per cluster number. */
  method ChainWalk(vol: Volume, start: nat, visitor: nat -> int, ghost ch: seq<nat>)
    returns (r: int, visited: seq<nat>)
    requires vol.Valid()
    modifies vol`readFaults
    ensures vol.Valid() && vol.readFaults >= old(vol.readFaults)
    ensures start == EOF_CLUSTER ==> r == 0 && visited == []
    ensures forall i :: 0 <= i < |visited| - 1 ==> Continues(visitor(visited[i]))
    ensures r == 0 || r == EIO_CODE || (visited != [] && r == visitor(visited[|visited| - 1]) < 0)
    ensures start != EOF_CLUSTER && r == 0 ==>
              visited != [] && visited[0] == start
              && (IsChain(vol.Fat, visited) || visitor(visited[|visited| - 1]) == 1)
    ensures IsChain(vol.Fat, ch) && ch[0] == start ==> visited <= ch
    ensures IsChain(vol.Fat, ch) && ch[0] == start && vol.readFaults == old(vol.readFaults) ==>
              if visited == ch && Continues(visitor(ch[|ch| - 1])) then r == 0
              else visited != [] && var v := visitor(visited[|visited| - 1]); !Continues(v) && r == if v == 1 then 0 else v
    ensures Cyclic(vol.Fat, start) && (forall i :: 0 <= i < |visited| ==> Continues(visitor(visited[i]))) ==> r == EIO_CODE
  {
    hide Volume.Valid, IsChain, Linked, NextOf, NextResult, Clusters, Cyclic, Along;
    vol.MountedHere();
    visited := [];
    if start == EOF_CLUSTER {
      NotAChainHead(vol.Fat, ch);
      NoCycleAtEnd(vol.Fat);
      return 0, [];
    }
    LinkedNothing(vol.Fat);
    AlongStart(vol.Fat, ch, start);
    var cur, iter := start, 0;
    while iter < vol.geo.numClusters
      invariant vol.readFaults >= old(vol.readFaults) && 0 <= iter <= vol.geo.numClusters
      invariant |visited| == iter && (if iter == 0 then cur == start else visited[0] == start)
      invariant forall i :: 0 <= i < |visited| ==> Continues(visitor(visited[i]))
      invariant Linked(vol.Fat, visited)
      invariant iter > 0 ==> visited[iter - 1] < |vol.Fat| && NextOf(vol.Fat, visited[iter - 1]) == To(cur)
      invariant Along(vol.Fat, ch, start, visited, cur)
    {
      ghost var before := visited;
      AlongSays(vol.Fat, ch, start, visited, cur);
      visited := visited + [cur];
      var v := visitor(cur);
      assert visited[iter] == cur && visitor(visited[iter]) == v;
      if v == 1 {
        return 0, visited;
      }
      if v < 0 {
        return v, visited;
      }
      var next := vol.GetNext(cur);
      NextSays(vol.Fat, cur);
      if next.NoNext? {
        return EIO_CODE, visited;
      }
      LinkedGrow(vol.Fat, before, cur);
      if next.clu == EOF_CLUSTER {
        WalkEnds(vol.Fat, visited);
        ChainIsNotCyclic(vol.Fat, visited);
        return 0, visited;
      }
      AlongNext(vol.Fat, ch, start, before, cur, next.clu);
      cur := next.clu;
      iter := iter + 1;
    }
    AlongSays(vol.Fat, ch, start, visited, cur);
    return EIO_CODE, visited;
  }

  /** If a chain starts where the walk did, the walk is going along it. */
  ghost predicate Along(fat: seq<u32>, ch: seq<nat>, start: nat, visited: seq<nat>, cur: nat) {
    IsChain(fat, ch) && ch[0] == start ==> |visited| < |ch| && visited == ch[..|visited|] && cur == ch[|visited|]
  }

  lemma AlongStart(fat: seq<u32>, ch: seq<nat>, start: nat)
    ensures Along(fat, ch, start, [], start)
  {
  }

  lemma AlongSays(fat: seq<u32>, ch: seq<nat>, start: nat, visited: seq<nat>, cur: nat)
    requires Along(fat, ch, start, visited, cur) && |fat| >= FIRST_CLUSTER
    ensures IsChain(fat, ch) && ch[0] == start ==>
              && visited + [cur] <= ch && |visited| < |fat| && FIRST_CLUSTER <= cur < |fat|
              && NextOf(fat, cur) == if visited + [cur] == ch then Eof else To(ch[|visited| + 1])
  {
    if IsChain(fat, ch) && ch[0] == start {
      ChainBound(fat, ch);
    }
  }

  lemma AlongNext(fat: seq<u32>, ch: seq<nat>, start: nat, visited: seq<nat>, cur: nat, next: nat)
    requires Along(fat, ch, start, visited, cur) && cur < |fat| && NextOf(fat, cur) == To(next)
    ensures Along(fat, ch, start, visited + [cur], next)
  {
    if IsChain(fat, ch) && ch[0] == start {
      ChainLink(fat, ch, |visited|);
    }
  }

  lemma NotAChainHead(fat: seq<u32>, ch: seq<nat>)
    requires |fat| <= BAD_CLUSTER
    ensures IsChain(fat, ch) ==> ch[0] != EOF_CLUSTER
  {
  }

  lemma ChainLink(fat: seq<u32>, ch: seq<nat>, i: nat)
    requires IsChain(fat, ch) && i < |ch|
    ensures FIRST_CLUSTER <= ch[i] < |fat|
    ensures NextOf(fat, ch[i]) == if i < |ch| - 1 then To(ch[i + 1]) else Eof
  {
  }

  lemma LinkedNothing(fat: seq<u32>)
    ensures Linked(fat, [])
    ensures !IsChain(fat, [])
  {
  }

  /** What a link read without a fault means for the walk. */
  lemma NextSays(fat: seq<u32>, c: nat)
    requires |fat| <= BAD_CLUSTER
    ensures c < |fat| ==>
              var link, r := NextOf(fat, c), NextResult(NextOf(fat, c));
              && (r.Next? && r.clu == EOF_CLUSTER <==> link == Eof) && (r.Next? && r.clu != EOF_CLUSTER ==> link == To(r.clu))
              && (r.NoNext? <==> link == Broken)
  {
  }

  lemma LinkedGrow(fat: seq<u32>, ch: seq<nat>, c: nat)
    requires Linked(fat, ch) && FIRST_CLUSTER <= c < |fat| && (ch != [] ==> NextOf(fat, ch[|ch| - 1]) == To(c))
    ensures Linked(fat, ch + [c])
  {
  }

  lemma WalkEnds(fat: seq<u32>, ch: seq<nat>)
    requires ch != [] && Linked(fat, ch) && NextOf(fat, ch[|ch| - 1]) == Eof
    ensures IsChain(fat, ch)
  {
  }
}
