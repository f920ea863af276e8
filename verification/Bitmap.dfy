/** The allocation bitmap of fs/exfat/exfat_cluster.c: one bit per data cluster, least significant bit
    first.  Setting and clearing a bit with a mask is written here as replacing one binary digit. */
module Bitmap {
  import opened Bytes
  import opened Layout

  function Bit(b: nat, k: nat): bool {
    if k == 0 then b % 2 == 1 else Bit(b / 2, k - 1)
  }

  function PutBit(b: nat, k: nat, v: bool): nat {
    if k == 0 then b - b % 2 + (if v then 1 else 0) else 2 * PutBit(b / 2, k - 1, v) + b % 2
  }

  function Pow2(k: nat): (r: nat)
    ensures r >= 1
  {
    if k == 0 then 1 else 2 * Pow2(k - 1)
  }

  lemma {:induction false} PutBitReads(b: nat, k: nat, v: bool, j: nat)
    ensures Bit(PutBit(b, k, v), j) == if j == k then v else Bit(b, j)
  {
    if k == 0 {
      if j > 0 {
        assert PutBit(b, 0, v) / 2 == b / 2;
      }
    } else {
      var inner := PutBit(b / 2, k - 1, v);
      assert PutBit(b, k, v) / 2 == inner && PutBit(b, k, v) % 2 == b % 2;
      if j > 0 {
        PutBitReads(b / 2, k - 1, v, j - 1);
      }
    }
  }

  lemma {:induction false} PutBitBound(b: nat, k: nat, v: bool, n: nat)
    requires b < Pow2(n) && k < n
    ensures PutBit(b, k, v) < Pow2(n)
  {
    var p := Pow2(n - 1);
    assert Pow2(n) == 2 * p && b - b % 2 == 2 * (b / 2);
    assert b / 2 < p;
    hide Pow2;
    if k > 0 {
      PutBitBound(b / 2, k - 1, v, n - 1);
    }
  }

  lemma Pow2Of8()
    ensures Pow2(8) == 256
  {
    assert Pow2(4) == 16;
  }

  /** vol_amap[i / 8] with bit i % 8 set or cleared. */
  function PutByte(b: byte, k: nat, v: bool): byte
    requires k < 8
  {
    Pow2Of8();
    PutBitBound(b, k, v, 8);
    PutBit(b, k, v)
  }

  predicate BitAt(amap: seq<byte>, i: nat)
    requires i / 8 < |amap|
  {
    Bit(amap[i / 8], i % 8)
  }

  /** The bitmap as seen through cluster numbers; the two reserved numbers never count as free. */
  function BitsOf(amap: seq<byte>, n: nat): (bits: seq<bool>)
    requires FIRST_CLUSTER <= n && n - FIRST_CLUSTER <= 8 * |amap|
    ensures |bits| == n
    ensures forall c :: 0 <= c < n ==> bits[c] == (c < FIRST_CLUSTER || BitAt(amap, c - FIRST_CLUSTER))
  {
    seq(n, c requires 0 <= c < n => c < FIRST_CLUSTER || BitAt(amap, c - FIRST_CLUSTER))
  }

  function PutCluster(amap: seq<byte>, c: nat, v: bool): (r: seq<byte>)
    requires FIRST_CLUSTER <= c && (c - FIRST_CLUSTER) / 8 < |amap|
    ensures |r| == |amap|
  {
    var i := c - FIRST_CLUSTER;
    amap[i / 8 := PutByte(amap[i / 8], i % 8, v)]
  }

  lemma SameBit(i: nat, j: nat)
    requires i / 8 == j / 8 && i % 8 == j % 8
    ensures i == j
  {
  }

  lemma PutClusterBits(amap: seq<byte>, n: nat, c: nat, v: bool)
    requires FIRST_CLUSTER <= c < n && n - FIRST_CLUSTER <= 8 * |amap|
    ensures BitsOf(PutCluster(amap, c, v), n) == BitsOf(amap, n)[c := v]
  {
    hide Bit, PutBit;
    var i := c - FIRST_CLUSTER;
    var bits := BitsOf(PutCluster(amap, c, v), n);
    forall d | 0 <= d < n
      ensures bits[d] == BitsOf(amap, n)[c := v][d]
    {
      if d >= FIRST_CLUSTER {
        var j := d - FIRST_CLUSTER;
        PutBitReads(amap[i / 8], i % 8, v, j % 8);
        if j / 8 == i / 8 && j % 8 == i % 8 {
          SameBit(i, j);
        }
      }
    }
  }

  // ----- many bits at once

  /** `bits` with the bit of every cluster of `ch` set to v. */
  function PutAll(bits: seq<bool>, ch: seq<nat>, v: bool): (r: seq<bool>)
    ensures |r| == |bits|
  {
    if ch == [] then bits
    else
      var n := |ch| - 1;
      var r := PutAll(bits, ch[..n], v);
      if ch[n] < |bits| then r[ch[n] := v] else r
  }

  lemma PutAllGrow(bits: seq<bool>, ch: seq<nat>, c: nat, v: bool)
    requires c < |bits|
    ensures PutAll(bits, ch + [c], v) == PutAll(bits, ch, v)[c := v]
  {
    assert (ch + [c])[..|ch|] == ch;
  }

  lemma {:induction false} PutAllReads(bits: seq<bool>, ch: seq<nat>, v: bool, c: nat)
    requires c < |bits|
    ensures PutAll(bits, ch, v)[c] == if c in ch then v else bits[c]
  {
    if ch != [] {
      var n := |ch| - 1;
      PutAllReads(bits, ch[..n], v, c);
      assert ch == ch[..n] + [ch[n]];
    }
  }

  /** Every cluster of `ch` is free. */
  predicate AllFree(bits: seq<bool>, ch: seq<nat>) {
    forall i :: 0 <= i < |ch| ==> ch[i] < |bits| && !bits[ch[i]]
  }

  /** Clearing some of the clusters just marked clears nothing that was set before; clearing all of them
      restores the bitmap. */
  lemma Undo(bits: seq<bool>, marks: seq<nat>, undo: seq<nat>)
    requires AllFree(bits, marks) && forall i :: 0 <= i < |undo| ==> undo[i] in marks
    ensures var r := PutAll(PutAll(bits, marks, true), undo, false);
            && (forall c :: 0 <= c < |bits| && bits[c] ==> r[c])
            && ((forall i :: 0 <= i < |marks| ==> marks[i] in undo) ==> r == bits)
  {
    hide PutAll;
    var r := PutAll(PutAll(bits, marks, true), undo, false);
    forall c | 0 <= c < |bits|
      ensures bits[c] ==> r[c]
      ensures (forall i :: 0 <= i < |marks| ==> marks[i] in undo) ==> r[c] == bits[c]
    {
      PutAllReads(bits, marks, true, c);
      PutAllReads(PutAll(bits, marks, true), undo, false, c);
    }
  }

  // ----- counting

  /** How many clusters below n are free. */
  function CountFree(bits: seq<bool>): nat {
    if bits == [] then 0 else CountFree(bits[..|bits| - 1]) + (if bits[|bits| - 1] then 0 else 1)
  }

  lemma {:induction false} CountFreePut(bits: seq<bool>, c: nat, v: bool)
    requires c < |bits| && bits[c] != v
    ensures CountFree(bits[c := v]) == CountFree(bits) + (if v then -1 else 1)
  {
    var n := |bits| - 1;
    var put := bits[c := v];
    if c == n {
      assert put[..n] == bits[..n];
    } else {
      CountFreePut(bits[..n], c, v);
      assert put[..n] == bits[..n][c := v];
    }
  }

  lemma {:induction false} CountFreeSome(bits: seq<bool>)
    ensures CountFree(bits) > 0 <==> exists c :: 0 <= c < |bits| && !bits[c]
  {
    if bits != [] {
      var n := |bits| - 1;
      CountFreeSome(bits[..n]);
      if CountFree(bits[..n]) > 0 {
        var c :| 0 <= c < n && !bits[..n][c];
        assert !bits[c];
      } else if bits[n] {
        forall c | 0 <= c < |bits|
          ensures bits[c]
        {
          if c < n {
            assert bits[..n][c];
          }
        }
      }
    }
  }

  lemma {:induction false} CountFreeBound(bits: seq<bool>)
    requires |bits| >= 2 && bits[0] && bits[1]
    ensures CountFree(bits) + 2 <= |bits|
  {
    var n := |bits| - 1;
    if n > 1 {
      CountFreeBound(bits[..n]);
    } else {
      var one := bits[..1];
      assert one[..0] == [] && CountFree(one[..0]) == 0 && one[0];
      assert CountFree(one) == 0;
    }
  }

  lemma {:induction false} CountFreeClear(bits: seq<bool>, ch: seq<nat>)
    requires forall i :: 0 <= i < |ch| ==> ch[i] < |bits| && bits[ch[i]]
    requires forall i, j :: 0 <= i < j < |ch| ==> ch[i] != ch[j]
    ensures CountFree(PutAll(bits, ch, false)) == CountFree(bits) + |ch|
  {
    if ch != [] {
      var n := |ch| - 1;
      var before := PutAll(bits, ch[..n], false);
      CountFreeClear(bits, ch[..n]);
      PutAllReads(bits, ch[..n], false, ch[n]);
      CountFreePut(before, ch[n], false);
    }
  }
}
