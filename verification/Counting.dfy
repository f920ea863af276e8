/** exfat_count_used_clusters of fs/exfat/exfat_cluster.c: marked clusters counted a byte at a time through
    a table, with a mask for the last byte. */
module Counting {
  import opened Bytes
  import opened Layout
  import opened Bitmap
  import opened Volumes

  /** The number of ones of each byte, sixteen to a row. */
  const TABLE: seq<seq<nat>> :=
    [ [0, 1, 1, 2, 1, 2, 2, 3, 1, 2, 2, 3, 2, 3, 3, 4],
      [1, 2, 2, 3, 2, 3, 3, 4, 2, 3, 3, 4, 3, 4, 4, 5],
      [1, 2, 2, 3, 2, 3, 3, 4, 2, 3, 3, 4, 3, 4, 4, 5],
      [2, 3, 3, 4, 3, 4, 4, 5, 3, 4, 4, 5, 4, 5, 5, 6],
      [1, 2, 2, 3, 2, 3, 3, 4, 2, 3, 3, 4, 3, 4, 4, 5],
      [2, 3, 3, 4, 3, 4, 4, 5, 3, 4, 4, 5, 4, 5, 5, 6],
      [2, 3, 3, 4, 3, 4, 4, 5, 3, 4, 4, 5, 4, 5, 5, 6],
      [3, 4, 4, 5, 4, 5, 5, 6, 4, 5, 5, 6, 5, 6, 6, 7],
      [1, 2, 2, 3, 2, 3, 3, 4, 2, 3, 3, 4, 3, 4, 4, 5],
      [2, 3, 3, 4, 3, 4, 4, 5, 3, 4, 4, 5, 4, 5, 5, 6],
      [2, 3, 3, 4, 3, 4, 4, 5, 3, 4, 4, 5, 4, 5, 5, 6],
      [3, 4, 4, 5, 4, 5, 5, 6, 4, 5, 5, 6, 5, 6, 6, 7],
      [2, 3, 3, 4, 3, 4, 4, 5, 3, 4, 4, 5, 4, 5, 5, 6],
      [3, 4, 4, 5, 4, 5, 5, 6, 4, 5, 5, 6, 5, 6, 6, 7],
      [3, 4, 4, 5, 4, 5, 5, 6, 4, 5, 5, 6, 5, 6, 6, 7],
      [4, 5, 5, 6, 5, 6, 6, 7, 5, 6, 6, 7, 6, 7, 7, 8]]

  /** A row of the table: its first entry, raised by the ones of the position. */
  function Row(k: nat): (r: seq<nat>)
    ensures |r| == 16
  {
    [k, k + 1, k + 1, k + 2, k + 1, k + 2, k + 2, k + 3, k + 1, k + 2, k + 2, k + 3, k + 2, k + 3, k + 3, k + 4]
  }

  /** The ones of the numbers below 16. */
  const NIBBLES: seq<nat> := [0, 1, 1, 2, 1, 2, 2, 3, 1, 2, 2, 3, 2, 3, 3, 4]

  lemma RowAt(k: nat, x: nat)
    requires x < 16
    ensures Row(k)[x] == k + NIBBLES[x]
  {
  }

  lemma TableRows()
    ensures TABLE == [Row(0), Row(1), Row(1), Row(2), Row(1), Row(2), Row(2), Row(3),
                      Row(1), Row(2), Row(2), Row(3), Row(2), Row(3), Row(3), Row(4)]
  {
  }

  lemma TableAt(h: nat)
    requires h < 16
    ensures |TABLE| == 16 && TABLE[h] == Row(NIBBLES[h])
  {
    hide TABLE, Row;
    TableRows();
  }

  function TableEntry(b: byte): nat {
    TableAt(b / 16);
    TABLE[b / 16][b % 16]
  }

  /** Binary ones among the lowest r digits. */
  function OnesBelow(b: nat, r: nat): nat {
    if r == 0 then 0 else OnesBelow(b, r - 1) + (if Bit(b, r - 1) then 1 else 0)
  }

  function Ones(b: nat): nat {
    if b == 0 then 0 else b % 2 + Ones(b / 2)
  }

  /** Marked clusters among the first n of the bitmap. */
  function CountSet(amap: seq<byte>, n: nat): nat
    requires n <= 8 * |amap|
  {
    if n == 0 then 0 else CountSet(amap, n - 1) + (if BitAt(amap, n - 1) then 1 else 0)
  }

  lemma OnesOfDigits(b: nat)
    ensures Ones(b) == b % 2 + (b / 2) % 2 + (b / 4) % 2 + (b / 8) % 2 + Ones(b / 16) && Ones(0) == 0
  {
    OnesShift(b);
    OnesShift(b / 2);
    OnesShift(b / 4);
    OnesShift(b / 8);
    hide Ones;
    assert b / 2 / 2 == b / 4 && b / 4 / 2 == b / 8 && b / 8 / 2 == b / 16;
  }

  lemma OnesOfNibble(x: nat)
    requires x < 16
    ensures Ones(x) == NIBBLES[x]
  {
    OnesOfDigits(x);
    hide Ones;
    assert x / 16 == 0;
    var row := NIBBLES;
    assert row == [0, 1, 1, 2, 1, 2, 2, 3, 1, 2, 2, 3, 2, 3, 3, 4];
  }

  lemma OnesOfByte(b: byte)
    ensures Ones(b) == TableEntry(b)
  {
    hide Ones;
    var h: nat, l: nat := b / 16, b % 16;
    OnesOfNibble(h);
    OnesOfNibble(l);
    OnesOfDigits(b);
    OnesOfDigits(l);
    SameDigits(b);
    TableAt(h);
    RowAt(NIBBLES[h], l);
    assert l / 16 == 0;
  }

  lemma SameDigits(b: nat)
    ensures var l := b % 16; l % 2 == b % 2 && (l / 2) % 2 == (b / 2) % 2 && (l / 4) % 2 == (b / 4) % 2 && (l / 8) % 2 == (b / 8) % 2
  {
    var q, l := b / 16, b % 16;
    SameDigit(8 * q, l);
    SameDigit(4 * q, l / 2);
    SameDigit(2 * q, l / 4);
    SameDigit(q, l / 8);
    assert b == 16 * q + l;
    assert b / 2 == 8 * q + l / 2;
    assert b / 4 == 4 * q + l / 4;
    assert b / 8 == 2 * q + l / 8;
  }

  lemma SameDigit(q: nat, x: nat)
    ensures (2 * q + x) % 2 == x % 2
  {
  }

  lemma OnesShift(b: nat)
    ensures Ones(b) == b % 2 + Ones(b / 2) && Ones(0) == 0
  {
  }

  lemma {:induction false} OnesBelowHalf(b: nat, r: nat)
    ensures OnesBelow(b, r + 1) == b % 2 + OnesBelow(b / 2, r)
  {
    if r > 0 {
      OnesBelowHalf(b, r - 1);
    } else {
      assert OnesBelow(b, 0) == 0;
    }
  }

  /** Masking with 2^r - 1 keeps the lowest r digits. */
  lemma {:induction false} MaskKeeps(b: nat, r: nat)
    ensures Ones(b % Pow2(r)) == OnesBelow(b, r)
  {
    if r == 0 {
      assert b % 1 == 0;
    } else {
      var p := Pow2(r - 1);
      assert Pow2(r) == 2 * p;
      MaskKeeps(b / 2, r - 1);
      OnesBelowHalf(b, r - 1);
      HalfMod(b, p);
      OnesShift(b % (2 * p));
    }
  }

  lemma HalfMod(b: nat, p: nat)
    requires p > 0
    ensures (b % (2 * p)) % 2 == b % 2 && (b % (2 * p)) / 2 == (b / 2) % p
  {
    var q, m := b / (2 * p), b % (2 * p);
    assert b == 2 * (p * q) + m;
    assert b / 2 == p * q + m / 2;
    DivModUnique(b / 2, p, q, m / 2);
  }

  /** A byte's digits below r are the clusters from 8k on. */
  lemma {:induction false} CountByte(amap: seq<byte>, k: nat, r: nat)
    requires r <= 8 && 8 * k + r <= 8 * |amap|
    ensures r > 0 ==> k < |amap|
    ensures CountSet(amap, 8 * k + r) == CountSet(amap, 8 * k) + if r == 0 then 0 else OnesBelow(amap[k], r)
  {
    if r > 0 {
      CountByte(amap, k, r - 1);
      var i := 8 * k + r - 1;
      assert i / 8 == k && i % 8 == r - 1;
      assert BitAt(amap, i) == Bit(amap[k], r - 1);
      hide Bit;
      assert OnesBelow(amap[k], 0) == 0;
    }
  }

  /** Free and marked data clusters add up to all of them. */
  lemma {:induction false} FreeAndSet(amap: seq<byte>, n: nat)
    requires FIRST_CLUSTER <= n && n - FIRST_CLUSTER <= 8 * |amap|
    ensures CountFree(BitsOf(amap, n)) + CountSet(amap, n - FIRST_CLUSTER) + FIRST_CLUSTER == n
  {
    hide BitAt;
    var bits := BitsOf(amap, n);
    if n == FIRST_CLUSTER {
      assert bits[..1][..0] == [];
      assert CountFree(bits[..1]) == 0;
    } else {
      FreeAndSet(amap, n - 1);
      assert bits[..n - 1] == BitsOf(amap, n - 1);
    }
  }

  method CountUsed(vol: Volume) returns (count: nat)
    requires vol.Valid()
    ensures count + CountFree(vol.Bits) + FIRST_CLUSTER == vol.geo.numClusters
  {
    hide Volume.Valid, Bit, BitAt, BitsOf, CountFree, TableEntry, OnesBelow, Ones, Pow2;
    vol.MountedHere();
    vol.AmapCovers();
    var dataClusters := vol.geo.numClusters - FIRST_CLUSTER;
    var fullBytes, tailBits := dataClusters / 8, dataClusters % 8;
    count := 0;
    for i := 0 to fullBytes
      invariant count == CountSet(vol.amap, 8 * i)
    {
      OnesOfByte(vol.amap[i]);
      CountByte(vol.amap, i, 8);
      Pow2Of8();
      MaskKeeps(vol.amap[i], 8);
      count := count + TableEntry(vol.amap[i]);
    }
    CountByte(vol.amap, fullBytes, tailBits);
    if tailBits != 0 {
      var masked: nat := vol.amap[fullBytes] as int % Pow2(tailBits);
      ModBelow(vol.amap[fullBytes], Pow2(tailBits));
      OnesOfByte(masked);
      MaskKeeps(vol.amap[fullBytes], tailBits);
      count := count + TableEntry(masked);
    }
    BitsHere(vol);
    FreeAndSet(vol.amap, vol.geo.numClusters);
  }

  lemma ModBelow(b: nat, p: nat)
    requires p > 0
    ensures 0 <= b % p <= b
  {
  }

  lemma BitsHere(vol: Volume)
    requires vol.Valid()
    ensures FIRST_CLUSTER <= vol.geo.numClusters && vol.geo.numClusters - FIRST_CLUSTER <= 8 * |vol.amap|
    ensures vol.Bits == BitsOf(vol.amap, vol.geo.numClusters)
  {
  }
}
