/** What a file holds: the clusters of its chain one after the other, and what the cluster-wise
    read-modify-write of VfsExfatWrite makes of them. */
module Contents {
  import opened Bytes
  import opened Layout
  import opened Chains

  /** bytes_to_cluster_count. */
  function CountFor(bytes: nat, cs: nat): nat
    requires cs > 0
  {
    (bytes + cs - 1) / cs
  }

  lemma CountForCovers(bytes: nat, cs: nat)
    requires cs > 0
    ensures bytes <= CountFor(bytes, cs) * cs < bytes + cs
    ensures CountFor(bytes, cs) == 0 <==> bytes == 0
  {
    var q, r := (bytes + cs - 1) / cs, (bytes + cs - 1) % cs;
    assert bytes + cs - 1 == cs * q + r;
    if q > 0 {
      AtLeastOnce(cs, q);
    }
  }

  lemma CountForExact(k: nat, cs: nat)
    requires cs > 0
    ensures CountFor(k * cs, cs) == k
  {
    DivModUnique(k * cs + cs - 1, cs, k, cs - 1);
  }

  /** k clusters hold `bytes` bytes exactly when k is at least the count for them. */
  lemma CountForFits(bytes: nat, k: nat, cs: nat)
    requires cs > 0
    ensures bytes <= k * cs <==> CountFor(bytes, cs) <= k
  {
    CountForCovers(bytes, cs);
    var n := CountFor(bytes, cs);
    if n <= k {
      ScaleLe(n, k, cs);
    } else {
      ScaleLe(k + 1, n, cs);
      assert (k + 1) * cs == k * cs + cs;
    }
  }

  /** Every cluster of `ch` holds `cs` bytes. */
  predicate Sized(data: seq<seq<byte>>, ch: seq<nat>, cs: nat) {
    forall i :: 0 <= i < |ch| ==> ch[i] < |data| && |data[ch[i]]| == cs
  }

  /** The clusters of `ch` one after the other. */
  function Body(data: seq<seq<byte>>, ch: seq<nat>): seq<byte>
    requires forall i :: 0 <= i < |ch| ==> ch[i] < |data|
  {
    if ch == [] then [] else Body(data, ch[..|ch| - 1]) + data[ch[|ch| - 1]]
  }

  lemma {:induction false} BodyLength(data: seq<seq<byte>>, ch: seq<nat>, cs: nat)
    requires Sized(data, ch, cs)
    ensures |Body(data, ch)| == |ch| * cs
  {
    if ch != [] {
      BodyLength(data, ch[..|ch| - 1], cs);
      assert (|ch| - 1) * cs + cs == |ch| * cs;
    }
  }

  /** Bytes a..b of the i-th cluster. */
  lemma {:induction false} BodyChunk(data: seq<seq<byte>>, ch: seq<nat>, cs: nat, i: nat, a: nat, b: nat)
    requires Sized(data, ch, cs) && i < |ch| && a <= b <= cs
    ensures |Body(data, ch)| == |ch| * cs && i * cs + b <= |ch| * cs
    ensures Body(data, ch)[i * cs + a..i * cs + b] == data[ch[i]][a..b]
  {
    var n := |ch| - 1;
    BodyLength(data, ch, cs);
    BodyLength(data, ch[..n], cs);
    ScaleLe(i + 1, |ch|, cs);
    assert (i + 1) * cs == i * cs + cs;
    var front := Body(data, ch[..n]);
    if i == n {
      SliceLast(front, data[ch[n]], a, b);
    } else {
      BodyChunk(data, ch[..n], cs, i, a, b);
      SliceFront(front, data[ch[n]], i * cs + a, i * cs + b);
    }
  }

  lemma SliceFront<T>(front: seq<T>, last: seq<T>, a: nat, b: nat)
    requires a <= b <= |front|
    ensures (front + last)[a..b] == front[a..b]
  {
  }

  lemma SliceLast<T>(front: seq<T>, last: seq<T>, a: nat, b: nat)
    requires a <= b <= |last|
    ensures (front + last)[|front| + a..|front| + b] == last[a..b]
  {
  }

  lemma {:induction false} BodyFrame(data: seq<seq<byte>>, data': seq<seq<byte>>, ch: seq<nat>)
    requires forall i :: 0 <= i < |ch| ==> ch[i] < |data| && ch[i] < |data'| && data[ch[i]] == data'[ch[i]]
    ensures Body(data, ch) == Body(data', ch)
  {
    if ch != [] {
      BodyFrame(data, data', ch[..|ch| - 1]);
    }
  }

  lemma SpliceFront<T>(front: seq<T>, last: seq<T>, at: nat, p: seq<T>)
    requires at + |p| <= |front|
    ensures Splice(front + last, at, p) == Splice(front, at, p) + last
  {
  }

  lemma SpliceLast<T>(front: seq<T>, last: seq<T>, p: seq<T>)
    requires |p| == |last|
    ensures Splice(front + last, |front|, p) == front + p
  {
  }

  /** Replacing the i-th cluster replaces its stretch of the body. */
  lemma {:induction false} BodyPut(data: seq<seq<byte>>, ch: seq<nat>, cs: nat, i: nat, buf: seq<byte>)
    requires Sized(data, ch, cs) && Distinct(ch) && i < |ch| && |buf| == cs
    ensures |Body(data, ch)| == |ch| * cs && i * cs + cs <= |ch| * cs
    ensures Body(data[ch[i] := buf], ch) == Splice(Body(data, ch), i * cs, buf)
  {
    hide Splice;
    var n, put := |ch| - 1, data[ch[i] := buf];
    BodyLength(data, ch, cs);
    BodyLength(data, ch[..n], cs);
    StartOrder(i, |ch|, cs);
    if i == n {
      BodyFrame(data, put, ch[..n]);
      SpliceLast(Body(data, ch[..n]), data[ch[n]], buf);
    } else {
      BodyPut(data, ch[..n], cs, i, buf);
      SpliceFront(Body(data, ch[..n]), data[ch[n]], i * cs, buf);
    }
  }

  // ----- the effect of a write

  /** The cluster of byte i, and the first byte of cluster k. */
  function Index(i: nat, cs: nat): nat
    requires cs > 0
  {
    i / cs
  }

  function Start(k: nat, cs: nat): nat { k * cs }

  /** Byte i lies in a cluster that a write of `len` bytes at `pos` rewrites from zeros: one whose first
      written byte is at or past the old end of the file. */
  predicate Zeroed(cs: nat, pos: nat, len: nat, oldSize: nat, i: nat)
    requires cs > 0
  {
    var k := Index(i, cs);
    && len > 0 && Index(pos, cs) <= k && Start(k, cs) < pos + len
    && oldSize <= (if Start(k, cs) <= pos then pos else Start(k, cs))
  }

  function WrittenAt(base: seq<byte>, cs: nat, pos: nat, buf: seq<byte>, oldSize: nat, i: nat): byte
    requires cs > 0 && i < |base|
  {
    if pos <= i < pos + |buf| then buf[i - pos]
    else if Zeroed(cs, pos, |buf|, oldSize, i) then 0
    else base[i]
  }

  /** The body after writing `buf` at `pos` over `base`, the file having had `oldSize` bytes. */
  function Written(base: seq<byte>, cs: nat, pos: nat, buf: seq<byte>, oldSize: nat): (r: seq<byte>)
    requires cs > 0
    ensures |r| == |base|
  {
    seq(|base|, i requires 0 <= i < |base| => WrittenAt(base, cs, pos, buf, oldSize, i))
  }

  lemma WrittenNothing(base: seq<byte>, cs: nat, pos: nat, oldSize: nat)
    requires cs > 0
    ensures Written(base, cs, pos, [], oldSize) == base
  {
  }

  function Zeros(n: nat): (r: seq<byte>)
    ensures |r| == n && forall i :: 0 <= i < n ==> r[i] == 0
  {
    seq(n, _ => 0)
  }

  lemma IndexBounds(i: nat, cs: nat)
    requires cs > 0
    ensures Start(Index(i, cs), cs) <= i < Start(Index(i, cs), cs) + cs
  {
    assert i == cs * (i / cs) + i % cs;
  }

  lemma StartOrder(a: nat, b: nat, cs: nat)
    ensures a < b ==> Start(a, cs) + cs <= Start(b, cs)
  {
    if a < b {
      ScaleLe(a + 1, b, cs);
      assert (a + 1) * cs == a * cs + cs;
    }
  }

  lemma IndexIs(i: nat, k: nat, cs: nat)
    requires cs > 0
    ensures Start(k, cs) <= i < Start(k, cs) + cs <==> Index(i, cs) == k
    ensures Index(i, cs) < k ==> i < Start(k, cs)
    ensures Index(i, cs) > k ==> i >= Start(k, cs) + cs
  {
    hide Start, Index;
    IndexBounds(i, cs);
    StartOrder(Index(i, cs), k, cs);
    StartOrder(k, Index(i, cs), cs);
  }

  /** What a round of the write loop starts from: zeros past the old end, else the cluster's bytes. */
  function Source(body: seq<byte>, cs: nat, at: nat, fromZero: bool): (r: seq<byte>)
    requires at + cs <= |body|
    ensures |r| == cs
  {
    if fromZero then Zeros(cs) else body[at..at + cs]
  }

  /** One round of the write loop: the cluster that holds byte pos + done, patched from zeros or from its
      present bytes, advances the written prefix by the chunk. */
  lemma WriteRound(base: seq<byte>, cs: nat, pos: nat, buf: seq<byte>, oldSize: nat, done: nat, k: nat, chunk: nat)
    requires cs > 0 && done < |buf| && k == Index(pos + done, cs) && Start(k, cs) + cs <= |base|
    requires done == 0 || pos + done == Start(k, cs)
    requires 0 < chunk && done + chunk <= |buf| && pos + done + chunk <= Start(k, cs) + cs
    ensures Start(k, cs) <= pos + done
    ensures var body, at := Written(base, cs, pos, buf[..done], oldSize), Start(k, cs);
            Splice(body, at, Splice(Source(body, cs, at, pos + done >= oldSize), pos + done - at, buf[done..done + chunk]))
            == Written(base, cs, pos, buf[..done + chunk], oldSize)
  {
    hide Index, Start, WrittenAt, Splice;
    IndexBounds(pos + done, cs);
    var body, at := Written(base, cs, pos, buf[..done], oldSize), Start(k, cs);
    var piece := buf[done..done + chunk];
    var src := Source(body, cs, at, pos + done >= oldSize);
    var block := Splice(src, pos + done - at, piece);
    var got := Splice(body, at, block);
    IndexIs(pos, k, cs);
    forall i | 0 <= i < |base|
      ensures got[i] == WrittenAt(base, cs, pos, buf[..done + chunk], oldSize, i)
    {
      SpliceAt(body, at, block, i);
      IndexIs(i, k, cs);
      if Index(i, cs) == k {
        SpliceAt(src, pos + done - at, piece, i - at);
        RoundHere(base, cs, pos, buf, oldSize, done, k, chunk, i);
      } else {
        RoundElsewhere(base, cs, pos, buf, oldSize, done, k, chunk, i);
      }
    }
  }

  lemma SpliceAt<T>(d: seq<T>, at: nat, p: seq<T>, i: nat)
    requires at + |p| <= |d| && i < |d|
    ensures Splice(d, at, p)[i] == if at <= i < at + |p| then p[i - at] else d[i]
  {
  }

  lemma RoundElsewhere(base: seq<byte>, cs: nat, pos: nat, buf: seq<byte>, oldSize: nat, done: nat, k: nat,
                       chunk: nat, i: nat)
    requires cs > 0 && done < |buf| && Index(pos, cs) <= k && (done == 0 ==> Index(pos, cs) == k)
    requires 0 < chunk && done + chunk <= |buf| && Start(k, cs) <= pos + done && pos + done + chunk <= Start(k, cs) + cs
    requires done == 0 || pos + done == Start(k, cs)
    requires i < |base| && Index(i, cs) != k
    ensures WrittenAt(base, cs, pos, buf[..done + chunk], oldSize, i) == WrittenAt(base, cs, pos, buf[..done], oldSize, i)
  {
    hide Index, Start;
    IndexIs(i, k, cs);
    StartOrder(k, Index(i, cs), cs);
    StartOrder(Index(i, cs), k, cs);
  }

  lemma RoundHere(base: seq<byte>, cs: nat, pos: nat, buf: seq<byte>, oldSize: nat, done: nat, k: nat,
                  chunk: nat, i: nat)
    requires cs > 0 && done < |buf| && Index(pos, cs) <= k && (done == 0 ==> Index(pos, cs) == k)
    requires 0 < chunk && done + chunk <= |buf| && Start(k, cs) <= pos + done && pos + done + chunk <= Start(k, cs) + cs
    requires done == 0 || pos + done == Start(k, cs)
    requires i < |base| && Index(i, cs) == k && Start(k, cs) <= i < Start(k, cs) + cs
    ensures WrittenAt(base, cs, pos, buf[..done + chunk], oldSize, i)
            == if pos + done <= i < pos + done + chunk then buf[i - pos]
               else if pos + done >= oldSize then 0
               else WrittenAt(base, cs, pos, buf[..done], oldSize, i)
  {
    hide Index, Start;
  }

  // ----- what a write preserves

  lemma WrittenReadsBack(base: seq<byte>, cs: nat, pos: nat, buf: seq<byte>, oldSize: nat)
    requires cs > 0 && pos + |buf| <= |base|
    ensures Written(base, cs, pos, buf, oldSize)[pos..pos + |buf|] == buf
  {
    hide Zeroed;
  }

  /** A write inside the old file is a plain splice of the whole body. */
  lemma WriteInPlace(base: seq<byte>, cs: nat, pos: nat, buf: seq<byte>, oldSize: nat)
    requires cs > 0 && pos + |buf| <= oldSize <= |base|
    ensures Written(base, cs, pos, buf, oldSize) == Splice(base, pos, buf)
  {
    hide Index, Start;
    forall i | 0 <= i < |base|
      ensures WrittenAt(base, cs, pos, buf, oldSize, i) == Splice(base, pos, buf)[i]
    {
      SpliceAt(base, pos, buf, i);
    }
  }

  /** The start lies past the old end, in a cluster that still holds old bytes. */
  predicate SharesCluster(cs: nat, pos: nat, oldSize: nat)
    requires cs > 0
  {
    oldSize <= pos && Start(Index(pos, cs), cs) < oldSize
  }

  /** Every byte the file had and the write does not cover is as before. */
  predicate Preserves(base: seq<byte>, cs: nat, pos: nat, buf: seq<byte>, oldSize: nat)
    requires cs > 0 && oldSize <= |base|
  {
    forall i :: 0 <= i < oldSize && !(pos <= i < pos + |buf|) ==> Written(base, cs, pos, buf, oldSize)[i] == base[i]
  }

  /** A write is a plain splice on the bytes the file had, unless its start shares a cluster with them. */
  lemma WritePreserves(base: seq<byte>, cs: nat, pos: nat, buf: seq<byte>, oldSize: nat)
    requires cs > 0 && oldSize <= |base| && !SharesCluster(cs, pos, oldSize)
    ensures Preserves(base, cs, pos, buf, oldSize)
  {
    hide Index, Start;
    forall i | 0 <= i < oldSize && !(pos <= i < pos + |buf|)
      ensures !Zeroed(cs, pos, |buf|, oldSize, i)
    {
      IndexBounds(i, cs);
      IndexIs(pos, Index(i, cs), cs);
    }
  }

  /** The condition is exact: where it fails, the write wipes bytes of every file that holds ones there. */
  lemma WritePreservesIff(cs: nat, pos: nat, buf: seq<byte>, oldSize: nat)
    requires cs > 0 && buf != []
    ensures !SharesCluster(cs, pos, oldSize) <==>
            forall base: seq<byte> :: |base| >= oldSize ==> Preserves(base, cs, pos, buf, oldSize)
  {
    if SharesCluster(cs, pos, oldSize) {
      var base: seq<byte> := seq(oldSize, _ => 1);
      var k := Index(pos, cs);
      var at := Start(k, cs);
      hide Index, Start;
      IndexIs(at, k, cs);
      IndexBounds(pos, cs);
      assert Zeroed(cs, pos, |buf|, oldSize, at);
      assert Written(base, cs, pos, buf, oldSize)[at] == 0 != base[at];
      assert !Preserves(base, cs, pos, buf, oldSize);
    } else {
      forall base: seq<byte> | |base| >= oldSize
        ensures Preserves(base, cs, pos, buf, oldSize)
      {
        WritePreserves(base, cs, pos, buf, oldSize);
      }
    }
  }
}
