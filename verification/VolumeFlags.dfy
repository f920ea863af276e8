/** The volume-dirty flag (fs/exfat/exfat_module.c) and the verification of the boot region
    (ExfatVerifyBootRegion of fs/exfat/exfat_super.c), which the flag's bytes do not disturb. */
module VolumeFlags {
  import opened Bytes
  import opened Bitmap
  import opened Checksum

  const DIRTY: nat := 1           // bit of VOLUME_DIRTY
  const MEDIA_FAILURE: nat := 2   // bit of MEDIA_FAILURE

  datatype Result = OK | EIO

  lemma Pow2Of16()
    ensures Pow2(16) == 0x1_0000
  {
    Pow2Of8();
    assert Pow2(10) == 4 * Pow2(8) && Pow2(12) == 4 * Pow2(10) && Pow2(14) == 4 * Pow2(12) && Pow2(16) == 4 * Pow2(14);
  }

  function WithBit(f: u16, k: nat, v: bool): (r: u16)
    requires k < 16
    ensures forall j: nat :: Bit(r, j) == if j == k then v else Bit(f, j)
  {
    Pow2Of16();
    PutBitBound(f, k, v, 16);
    assert forall j: nat :: Bit(PutBit(f, k, v), j) == (if j == k then v else Bit(f, j)) by {
      forall j: nat ensures Bit(PutBit(f, k, v), j) == if j == k then v else Bit(f, j) {
        PutBitReads(f, k, v, j);
      }
    }
    PutBit(f, k, v)
  }

  /** vol_flags_persistent holds at most the two flags that are latched at mount. */
  function Latched(f: u16): (r: u16)
    ensures forall j: nat :: Bit(r, j) == ((j == DIRTY || j == MEDIA_FAILURE) && Bit(f, j))
  {
    NoBits();
    WithBit(WithBit(0, DIRTY, Bit(f, DIRTY)), MEDIA_FAILURE, Bit(f, MEDIA_FAILURE))
  }

  lemma {:induction false} NoBit(j: nat)
    ensures !Bit(0, j)
  {
    if j > 0 {
      NoBit(j - 1);
    }
  }

  lemma NoBits()
    ensures forall j: nat :: !Bit(0, j)
  {
    forall j: nat ensures !Bit(0, j) {
      NoBit(j);
    }
  }

  /** f or'ed with the latched flags. */
  function Merge(f: u16, latched: u16): (r: u16)
    ensures forall j: nat :: Bit(r, j) == (Bit(f, j) || ((j == DIRTY || j == MEDIA_FAILURE) && Bit(latched, j)))
  {
    WithBit(WithBit(f, DIRTY, Bit(f, DIRTY) || Bit(latched, DIRTY)), MEDIA_FAILURE, Bit(f, MEDIA_FAILURE) || Bit(latched, MEDIA_FAILURE))
  }

  /** The superblock's flags, the boot sector kept in memory, and the one on disk. */
  class Flags {
    const latched: u16       // vol_flags_persistent
    var flags: u16           // vol_flags
    var bootBuf: seq<byte>
    var disk: seq<byte>      // sector 0
    var faults: nat
    ghost const mounted: seq<byte>   // the boot sector as it was read at mount

    /** Taking over the boot sector at mount. */
    constructor (boot: seq<byte>)
      requires |boot| >= 512
      ensures Valid() && mounted == boot && disk == boot && bootBuf == boot && flags == Of16(boot[106..108]) && faults == 0
    {
      flags, latched := Of16(boot[106..108]), Latched(Of16(boot[106..108]));
      bootBuf, disk, mounted, faults := boot, boot, boot, 0;
      new;
      Le16Of16(boot[106..108]);
    }

    /** The buffer holds the flags, differs from the mounted sector nowhere else, and only the dirty bit of
        the flags has changed; the latched flags are all set. */
    ghost predicate Valid()
      reads this
    {
      && |bootBuf| == |mounted| >= 512 && bootBuf[106..108] == Le16(flags)
      && SameBut(bootBuf, mounted)
      && latched == Latched(Of16(mounted[106..108]))
      && (forall j: nat :: j != DIRTY ==> Bit(flags, j) == Bit(Of16(mounted[106..108]), j))
      && (forall j: nat :: Bit(latched, j) ==> Bit(flags, j))
      && |disk| == |mounted| && SameBut(disk, mounted)
    }

    /** exfat_set_vol_flags.  A success says that the disk agrees with memory exactly when this call wrote it
        or it agreed before: after a failed write the same request succeeds without writing. */
    method SetFlags(want: u16) returns (r: Result)
      requires Valid() && forall j: nat :: j != DIRTY ==> Bit(want, j) == Bit(flags, j)
      modifies this
      ensures Valid() && flags == Merge(want, latched)
      ensures faults == old(faults) + (if r == OK then 0 else 1)
      ensures r == OK ==> (disk == bootBuf <==> old(flags) != Merge(want, latched) || old(disk == bootBuf))
      ensures r == EIO ==> disk == old(disk)
      ensures old(flags) == Merge(want, latched) ==> r == OK && disk == old(disk) && bootBuf == old(bootBuf)
    {
      hide WithBit, Merge, Latched, Le16;
      var final := Merge(want, latched);
      if flags == final {
        return OK;
      }
      flags := final;
      PatchFlags(bootBuf, final);
      bootBuf := Splice(bootBuf, 106, Le16(final));
      var ok: bool := *;
      if ok {
        disk := bootBuf;
        return OK;
      }
      faults := faults + 1;
      r := EIO;
    }

    /** exfat_set_volume_dirty and exfat_clear_volume_dirty. */
    method Mark(dirty: bool) returns (r: Result)
      requires Valid()
      modifies this
      ensures Valid() && (Bit(flags, DIRTY) <==> dirty || Bit(latched, DIRTY))
      ensures forall j: nat :: j != DIRTY ==> Bit(flags, j) == Bit(old(flags), j)
      ensures r == OK ==> (disk == bootBuf <==> flags != old(flags) || old(disk == bootBuf))
      ensures r == EIO ==> disk == old(disk) && flags != old(flags)
      ensures flags == old(flags) ==> disk == old(disk) && bootBuf == old(bootBuf)
      ensures faults == old(faults) + (if r == OK then 0 else 1)
      ensures flags == old(flags) <==> (Bit(old(flags), DIRTY) <==> dirty || Bit(latched, DIRTY))
    {
      hide WithBit, Merge, Latched, Le16;
      r := SetFlags(WithBit(flags, DIRTY, dirty));
      if Bit(old(flags), DIRTY) <==> dirty || Bit(latched, DIRTY) {
        SameBits(flags, old(flags));
      }
    }

    /** Any sequence of marks with any writes failing keeps the invariant, and the last one decides the flag.  The disk
        has it unless a write failed. */
    method Toggle(script: seq<bool>)
      requires Valid()
      modifies this
      ensures Valid() && faults >= old(faults)
      ensures if script == [] then flags == old(flags) else Bit(flags, DIRTY) <==> script[|script| - 1] || Bit(latched, DIRTY)
      ensures forall j: nat :: j != DIRTY ==> Bit(flags, j) == Bit(old(flags), j)
      ensures faults == old(faults) && old(disk == bootBuf) ==> disk == bootBuf
    {
      for i := 0 to |script|
        invariant Valid() && faults >= old(faults)
        invariant if i == 0 then flags == old(flags) else Bit(flags, DIRTY) <==> script[i - 1] || Bit(latched, DIRTY)
        invariant forall j: nat :: j != DIRTY ==> Bit(flags, j) == Bit(old(flags), j)
        invariant faults == old(faults) && old(disk == bootBuf) ==> disk == bootBuf
      {
        var _ := Mark(script[i]);
      }
    }
  }

  /** A number is determined by its binary digits. */
  lemma {:induction false} SameBits(a: nat, b: nat)
    requires forall j: nat :: Bit(a, j) == Bit(b, j)
    ensures a == b
    decreases a + b
  {
    assert Bit(a, 0) == Bit(b, 0);
    if a + b > 0 {
      forall j: nat
        ensures Bit(a / 2, j) == Bit(b / 2, j)
      {
        assert Bit(a, j + 1) == Bit(b, j + 1);
      }
      SameBits(a / 2, b / 2);
    }
  }

  /** The sectors agree outside the two bytes of the volume flags. */
  predicate SameBut(a: seq<byte>, b: seq<byte>) {
    |a| == |b| && forall i :: 0 <= i < |a| && i != 106 && i != 107 ==> a[i] == b[i]
  }

  lemma Le16Of16(b: seq<byte>)
    requires |b| == 2
    ensures Le16(Of16(b)) == b
  {
    assert Of16(b) % 256 == b[0] as int && Of16(b) / 256 == b[1] as int;
  }

  lemma PatchFlags(b: seq<byte>, f: u16)
    requires |b| >= 512
    ensures SameBut(Splice(b, 106, Le16(f)), b) && Splice(b, 106, Le16(f))[106..108] == Le16(f)
  {
  }

  /** A failed write and then the same request: success, and a disk that was never marked. */
  method FailThenSucceed(fl: Flags) returns (first: Result, second: Result)
    requires fl.Valid() && fl.disk == fl.bootBuf && !Bit(fl.flags, DIRTY)
    modifies fl
    ensures first == EIO ==> second == OK && fl.disk == old(fl.disk) && fl.disk != fl.bootBuf && Bit(fl.flags, DIRTY)
  {
    hide WithBit, Merge, Latched, Le16;
    first := fl.Mark(true);
    second := first;
    if first == EIO {
      Of16Le16(fl.flags);
      Of16Le16(old(fl.flags));
      second := fl.Mark(true);
    }
  }

  // ----- the boot region

  /** The sum over the first k sectors of the region. */
  function RegionSum(region: seq<seq<byte>>, k: nat): u32
    requires k <= |region|
  {
    if k == 0 then 0 else Sum32(region[k - 1], RegionSum(region, k - 1), if k == 1 then BootSector else Default)
  }

  /** Sector 11 repeats the sum over sectors 0 to 10. */
  predicate Verified(region: seq<seq<byte>>)
    requires |region| >= 12
  {
    forall i :: 0 <= i < |region[11]| / 4 ==> Of32(region[11][4 * i..4 * i + 4]) == RegionSum(region, 11)
  }

  /** ExfatVerifyBootRegion; `answers` says which of the sectors the device can read. */
  method VerifyBootRegion(region: seq<seq<byte>>, answers: seq<bool>) returns (ok: bool)
    requires |region| >= 12 && |answers| == |region|
    ensures ok <==> Verified(region) && forall k :: 0 <= k < 12 ==> answers[k]
  {
    hide Sum32, Of32;
    var sum: u32 := 0;
    for k := 0 to 11
      invariant sum == RegionSum(region, k) && forall j :: 0 <= j < k ==> answers[j]
    {
      if !answers[k] {
        return false;
      }
      sum := Calc32(region[k], sum, if k == 0 then BootSector else Default);
    }
    if !answers[11] {
      return false;
    }
    for i := 0 to |region[11]| / 4
      invariant forall j :: 0 <= j < i ==> Of32(region[11][4 * j..4 * j + 4]) == sum
    {
      if Of32(region[11][4 * i..4 * i + 4]) != sum {
        return false;
      }
    }
    ok := true;
  }

  /** The flag bytes take no part in the sum: a region that verified still verifies. */
  lemma StillVerified(region: seq<seq<byte>>, boot: seq<byte>)
    requires |region| >= 12 && SameBut(boot, region[0])
    ensures Verified(region[0 := boot]) <==> Verified(region)
  {
    RegionSumSame(region, boot, 11);
  }

  lemma {:induction false} RegionSumSame(region: seq<seq<byte>>, boot: seq<byte>, k: nat)
    requires 0 < k <= |region| && SameBut(boot, region[0])
    ensures RegionSum(region[0 := boot], k) == RegionSum(region, k)
  {
    if k == 1 {
      SkippedDoNotMatter(boot, region[0], BootSector);
    } else {
      hide Sum32;
      RegionSumSame(region, boot, k - 1);
    }
  }

  /** After any marks, whatever writes failed, the region on disk verifies exactly if it did at mount. */
  lemma DirtyKeepsVerified(fl: Flags, region: seq<seq<byte>>)
    requires fl.Valid() && |region| >= 12 && region[0] == fl.mounted
    ensures Verified(region[0 := fl.disk]) <==> Verified(region)
  {
    StillVerified(region, fl.disk);
  }
}
