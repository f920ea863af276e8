/** The rotate-and-add checksums of fs/exfat/exfat_module.c: 16 bits wide over directory entries, 32 bits
    wide over the boot region. */
module Checksum {
  import opened Bytes
  import opened Bitmap

  /** What a checksum call leaves out (CS_DIR_ENTRY, CS_BOOT_SECTOR, CS_DEFAULT). */
  datatype Kind = DirEntry | BootSector | Default

  /** One step: rotate right by one bit, then add the byte, in 16 bits. */
  function Step16(sum: u16, b: byte): u16 {
    ((sum % 2) * 0x8000 + sum / 2 + b as int) % 0x1_0000
  }

  function Step32(sum: u32, b: byte): u32 {
    ((sum % 2) * 0x8000_0000 + sum / 2 + b as int) % 0x1_0000_0000
  }

  /** `r` is a `width`-bit word whose bit k is bit k + 1 of `word`, and whose top bit is bit 0 of it. */
  ghost predicate RotatedRight(word: nat, r: nat, width: nat) {
    0 < width && r < Pow2(width) && forall k: nat :: k < width ==> Bit(r, k) == Bit(word, if k + 1 < width then k + 1 else 0)
  }

  /** A number is made of its digits. */
  lemma {:induction false} DigitAbove(x: nat, top: nat, n: nat, k: nat)
    requires x < Pow2(n) && top < 2 && k <= n
    ensures Bit(top * Pow2(n) + x, k) == if k < n then Bit(x, k) else top == 1
  {
    if n > 0 {
      var p := Pow2(n - 1);
      assert top * Pow2(n) + x == 2 * (top * p + x / 2) + x % 2 && x / 2 < p;
      if k > 0 {
        DigitAbove(x / 2, top, n - 1, k - 1);
      }
    }
  }

  lemma {:induction false} SameDigits(x: nat, y: nat, n: nat)
    requires x < Pow2(n) && y < Pow2(n) && forall k: nat :: k < n ==> Bit(x, k) == Bit(y, k)
    ensures x == y
  {
    if n > 0 {
      assert Bit(x, 0) == Bit(y, 0);
      forall k: nat | k < n - 1
        ensures Bit(x / 2, k) == Bit(y / 2, k)
      {
        assert Bit(x, k + 1) == Bit(y, k + 1);
      }
      SameDigits(x / 2, y / 2, n - 1);
    }
  }

  /** The lowest digit moved to the top is the rotation. */
  lemma Rotation(word: nat, n: nat)
    requires word < 2 * Pow2(n)
    ensures RotatedRight(word, (word % 2) * Pow2(n) + word / 2, n + 1)
  {
    var low, p := word % 2, Pow2(n);
    var r := low * p + word / 2;
    assert Pow2(n + 1) == 2 * p && low * p <= p;
    forall k: nat | k < n + 1
      ensures Bit(r, k) == Bit(word, if k + 1 < n + 1 then k + 1 else 0)
    {
      DigitAbove(word / 2, low, n, k);
      assert Bit(word, 0) == (low == 1) && Bit(word, k + 1) == Bit(word / 2, k);
    }
  }

  lemma OneRotation(word: nat, r: nat, s: nat, width: nat)
    requires RotatedRight(word, r, width) && RotatedRight(word, s, width)
    ensures r == s
  {
    hide Bit;
    SameDigits(r, s, width);
  }

  lemma Powers()
    ensures Pow2(15) == 0x8000 && Pow2(31) == 0x8000_0000
  {
    assert Pow2(5) == 32 && Pow2(10) == 1024;
    assert Pow2(15) == 0x8000;
    assert Pow2(20) == 0x10_0000;
    assert Pow2(25) == 0x200_0000;
    assert Pow2(30) == 0x4000_0000;
  }

  /** A step of the 16-bit sum adds the byte to the sum rotated right by one bit, modulo 2^16. */
  lemma Step16Rotates(sum: u16, b: byte, r: nat)
    ensures RotatedRight(sum, sum % 2 * 0x8000 + sum / 2, 16)
    ensures RotatedRight(sum, r, 16) ==> Step16(sum, b) == (r + b as int) % 0x1_0000
  {
    hide Bit, Pow2, RotatedRight;
    Powers();
    Rotation(sum, 15);
    if RotatedRight(sum, r, 16) {
      OneRotation(sum, r, sum % 2 * 0x8000 + sum / 2, 16);
    }
  }

  /** And of the 32-bit sum, modulo 2^32. */
  lemma Step32Rotates(sum: u32, b: byte, r: nat)
    ensures RotatedRight(sum, sum % 2 * 0x8000_0000 + sum / 2, 32)
    ensures RotatedRight(sum, r, 32) ==> Step32(sum, b) == (r + b as int) % 0x1_0000_0000
  {
    hide Bit, Pow2, RotatedRight;
    Powers();
    Rotation(sum, 31);
    if RotatedRight(sum, r, 32) {
      OneRotation(sum, r, sum % 2 * 0x8000_0000 + sum / 2, 32);
    }
  }

  function Fold16(data: seq<byte>, seed: u16): u16 {
    if data == [] then seed else Step16(Fold16(data[..|data| - 1], seed), data[|data| - 1])
  }

  function Fold32(data: seq<byte>, seed: u32): u32 {
    if data == [] then seed else Step32(Fold32(data[..|data| - 1], seed), data[|data| - 1])
  }

  /** Folding chunk after chunk is folding the whole. */
  lemma {:induction false} Fold16Join(a: seq<byte>, b: seq<byte>, seed: u16)
    ensures Fold16(a + b, seed) == Fold16(b, Fold16(a, seed))
  {
    if b == [] {
      assert a + b == a;
    } else {
      var n := |b| - 1;
      Fold16Join(a, b[..n], seed);
      assert (a + b)[..|a + b| - 1] == a + b[..n];
    }
  }

  /** The bytes a call covers: a directory set without its checksum field, a boot sector without its
      volume flags and percent-in-use. */
  function Covered(data: seq<byte>, kind: Kind): seq<byte> {
    if data == [] then []
    else
      var n := |data| - 1;
      if Skips(kind, n) then Covered(data[..n], kind) else Covered(data[..n], kind) + [data[n]]
  }

  predicate Skips(kind: Kind, i: nat) {
    match kind
    case DirEntry => i == 2 || i == 3
    case BootSector => i == 106 || i == 107 || i == 112
    case Default => false
  }

  function Sum16(data: seq<byte>, seed: u16, kind: Kind): u16 { Fold16(Covered(data, kind), seed) }

  function Sum32(data: seq<byte>, seed: u32, kind: Kind): u32 { Fold32(Covered(data, kind), seed) }

  lemma CoveredStep(data: seq<byte>, x: byte, kind: Kind)
    ensures Covered(data + [x], kind) == if Skips(kind, |data|) then Covered(data, kind) else Covered(data, kind) + [x]
  {
    assert (data + [x])[..|data|] == data;
  }

  lemma Fold16Step(data: seq<byte>, x: byte, seed: u16)
    ensures Fold16(data + [x], seed) == Step16(Fold16(data, seed), x)
  {
    assert (data + [x])[..|data|] == data;
  }

  lemma Fold32Step(data: seq<byte>, x: byte, seed: u32)
    ensures Fold32(data + [x], seed) == Step32(Fold32(data, seed), x)
  {
    assert (data + [x])[..|data|] == data;
  }

  lemma SumOfNothing(seed: u32, kind: Kind)
    ensures Sum32([], seed, kind) == seed && (seed < 0x1_0000 ==> Sum16([], seed, kind) == seed)
  {
  }

  /** exfat_calc_chksum16; only directory sets have bytes left out here. */
  method Calc16(data: seq<byte>, seed: u16, kind: Kind) returns (sum: u16)
    requires kind != BootSector
    ensures sum == Sum16(data, seed, kind)
  {
    hide Fold16, Covered, Step16;
    sum := seed;
    SumOfNothing(seed, kind);
    assert data[..0] == [];
    for i := 0 to |data|
      invariant sum == Sum16(data[..i], seed, kind)
    {
      assert data[..i + 1] == data[..i] + [data[i]];
      CoveredStep(data[..i], data[i], kind);
      if kind == DirEntry && (i == 2 || i == 3) {
        continue;
      }
      Fold16Step(Covered(data[..i], kind), data[i], seed);
      sum := Step16(sum, data[i]);
    }
    assert data[..|data|] == data;
  }

  /** exfat_calc_chksum32. */
  method Calc32(data: seq<byte>, seed: u32, kind: Kind) returns (sum: u32)
    requires kind != DirEntry
    ensures sum == Sum32(data, seed, kind)
  {
    hide Fold32, Covered, Step32;
    sum := seed;
    SumOfNothing(seed, kind);
    assert data[..0] == [];
    for i := 0 to |data|
      invariant sum == Sum32(data[..i], seed, kind)
    {
      assert data[..i + 1] == data[..i] + [data[i]];
      CoveredStep(data[..i], data[i], kind);
      if kind == BootSector && (i == 106 || i == 107 || i == 112) {
        continue;
      }
      Fold32Step(Covered(data[..i], kind), data[i], seed);
      sum := Step32(sum, data[i]);
    }
    assert data[..|data|] == data;
  }

  /** Bytes that a call leaves out do not matter. */
  lemma {:induction false} SkippedDoNotMatter(a: seq<byte>, b: seq<byte>, kind: Kind)
    requires |a| == |b| && forall i :: 0 <= i < |a| && !Skips(kind, i) ==> a[i] == b[i]
    ensures Covered(a, kind) == Covered(b, kind)
  {
    if a != [] {
      SkippedDoNotMatter(a[..|a| - 1], b[..|b| - 1], kind);
    }
  }

  lemma {:induction false} DefaultCoversAll(data: seq<byte>)
    ensures Covered(data, Default) == data
  {
    if data != [] {
      DefaultCoversAll(data[..|data| - 1]);
    }
  }

  /** Past the bytes left out, what follows is covered in full. */
  lemma {:induction false} CoveredJoin(head: seq<byte>, rest: seq<byte>, kind: Kind)
    requires forall i :: |head| <= i ==> !Skips(kind, i)
    ensures Covered(head + rest, kind) == Covered(head, kind) + rest
  {
    if rest == [] {
      assert head + rest == head;
    } else {
      hide Covered;
      var n := |rest| - 1;
      CoveredJoin(head, rest[..n], kind);
      assert head + rest == head + rest[..n] + [rest[n]];
      assert !Skips(kind, |head + rest[..n]|);
      CoveredStep(head + rest[..n], rest[n], kind);
    }
  }

  /** A stretch of bytes none of which is left out, or all of which are. */
  lemma {:induction false} CoveredStretch(data: seq<byte>, kind: Kind, i: nat, j: nat, out: bool)
    requires i <= j <= |data| && forall k :: i <= k < j ==> Skips(kind, k) == out
    ensures out ==> Covered(data[..j], kind) == Covered(data[..i], kind)
    ensures !out ==> Covered(data[..j], kind) == Covered(data[..i], kind) + data[i..j]
  {
    hide Covered, Skips;
    if i < j {
      CoveredStretch(data, kind, i, j - 1, out);
      assert data[..j] == data[..j - 1] + [data[j - 1]];
      assert data[i..j] == data[i..j - 1] + [data[j - 1]];
      CoveredStep(data[..j - 1], data[j - 1], kind);
    }
  }

  /** What is covered, written out: all bytes but the checksum field of a directory set, and all but the
      volume flags and percent-in-use of a boot sector. */
  lemma CoveredIs(data: seq<byte>)
    ensures Covered(data, Default) == data
    ensures |data| >= 4 ==> Covered(data, DirEntry) == data[..2] + data[4..]
    ensures |data| >= 113 ==> Covered(data, BootSector) == data[..106] + data[108..112] + data[113..]
  {
    hide Covered, Skips;
    DefaultCoversAll(data);
    if |data| >= 4 {
      SetCovered(data);
    }
    if |data| >= 113 {
      BootCovered(data);
    }
  }

  lemma SetCovered(data: seq<byte>)
    requires |data| >= 4
    ensures Covered(data, DirEntry) == data[..2] + data[4..]
  {
    assert data[..|data|] == data && data[4..|data|] == data[4..];
    hide Covered;
    CheckLeftOut(data);
    CoveredStretch(data, DirEntry, 4, |data|, false);
  }

  lemma CheckLeftOut(data: seq<byte>)
    requires |data| >= 4
    ensures Covered(data[..4], DirEntry) == data[..2]
  {
    assert data[0..2] == data[..2] && Covered(data[..0], DirEntry) == [];
    hide Covered;
    CoveredStretch(data, DirEntry, 0, 2, false);
    CoveredStretch(data, DirEntry, 2, 4, true);
  }

  lemma BootCovered(data: seq<byte>)
    requires |data| >= 113
    ensures Covered(data, BootSector) == data[..106] + data[108..112] + data[113..]
  {
    assert data[..|data|] == data && data[113..|data|] == data[113..];
    hide Covered;
    FlagsLeftOut(data);
    CoveredStretch(data, BootSector, 112, 113, true);
    CoveredStretch(data, BootSector, 113, |data|, false);
  }

  lemma FlagsLeftOut(data: seq<byte>)
    requires |data| >= 113
    ensures Covered(data[..112], BootSector) == data[..106] + data[108..112]
  {
    assert data[0..106] == data[..106] && Covered(data[..0], BootSector) == [];
    hide Covered;
    CoveredStretch(data, BootSector, 0, 106, false);
    CoveredStretch(data, BootSector, 106, 108, true);
    CoveredStretch(data, BootSector, 108, 112, false);
  }

  /** A directory set summed entry by entry, the first with its checksum field left out and each further
      one seeded with the sum so far, gives the sum of the whole set. */
  lemma ChunkedIsWhole(head: seq<byte>, rest: seq<byte>, next: seq<byte>)
    requires |head| >= 4
    ensures Sum16(head + rest + next, 0, DirEntry) == Sum16(next, Sum16(head + rest, 0, DirEntry), Default)
  {
    hide Fold16, Covered;
    CoveredJoin(head, rest + next, DirEntry);
    CoveredJoin(head, rest, DirEntry);
    DefaultCoversAll(next);
    assert head + (rest + next) == head + rest + next;
    assert Covered(head, DirEntry) + (rest + next) == Covered(head, DirEntry) + rest + next;
    Fold16Join(Covered(head, DirEntry) + rest, next, 0);
  }
}
