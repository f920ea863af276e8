/** exfat_parse_boot_sector of fs/exfat/exfat_module.c, and what a boot sector that it accepts guarantees about
    the places of the FATs and the cluster heap. */
module Boot {
  import opened Bytes
  import opened Layout
  import opened Bitmap

  const FS_NAME: seq<byte> := [0x45, 0x58, 0x46, 0x41, 0x54, 0x20, 0x20, 0x20]
  const SIGNATURE: u16 := 0xAA55
  const U32: nat := 0x1_0000_0000

  /** The superblock fields filled from the boot sector. */
  datatype Super = Super(
    sectorBits: nat, clusterBits: nat, numFats: nat, fatOffset: u32, fatLength: u32, fat2Offset: u32, cluOffset: u32,
    numClusters: u32, rootDir: u32, volFlags: u16, maxBytes: nat)

  function FatOffset(b: seq<byte>): u32 requires |b| == 512 { Of32(b[80..84]) }
  function FatLength(b: seq<byte>): u32 requires |b| == 512 { Of32(b[84..88]) }
  function CluOffset(b: seq<byte>): u32 requires |b| == 512 { Of32(b[88..92]) }
  function CluCount(b: seq<byte>): u32 requires |b| == 512 { Of32(b[92..96]) }
  function SectorBits(b: seq<byte>): nat requires |b| == 512 { b[108] }
  function ClusterBits(b: seq<byte>): nat requires |b| == 512 { b[109] }
  function NumFats(b: seq<byte>): nat requires |b| == 512 { b[110] }

  /** The cluster count with the two reserved numbers added, in 32 bits. */
  function NumClusters(b: seq<byte>): u32 requires |b| == 512 { (CluCount(b) as int + 2) % U32 }

  predicate ZeroBetween(b: seq<byte>, lo: nat, hi: nat)
    requires hi <= |b|
  {
    forall i :: lo <= i < hi ==> b[i] == 0
  }

  /** What the parser demands, field by field. */
  predicate WellFormed(b: seq<byte>, sectorSize: nat)
    requires |b| == 512
  {
    && Of16(b[510..512]) == SIGNATURE && b[3..11] == FS_NAME && ZeroBetween(b, 11, 64)
    && (NumFats(b) == 1 || NumFats(b) == 2)
    && 9 <= SectorBits(b) <= 12 && ClusterBits(b) <= 25 - SectorBits(b) && sectorSize == Pow2(SectorBits(b))
  }

  /** Each FAT has room for its entries, and the FATs end before the cluster heap. */
  predicate Fitting(b: seq<byte>, sectorSize: nat)
    requires |b| == 512
  {
    && NumClusters(b) as int * 4 <= FatLength(b) as int * sectorSize
    && FatOffset(b) as int + FatLength(b) as int * NumFats(b) <= CluOffset(b)
  }

  /** The mirror of two FATs starts right behind the first, without wrapping. */
  lemma MirrorFits(offset: u32, length: u32, n: nat, heap: u32)
    requires (n == 1 || n == 2) && offset as int + length as int * n <= heap
    ensures (offset as int + length as int) % U32 == offset as int + length as int
  {
    if n == 2 {
      assert length as int * n == length as int + length as int;
    }
  }

  /** The checks of single fields, in the source's order. */
  method CheckFields(b: seq<byte>, sectorSize: nat) returns (ok: bool)
    requires |b| == 512
    ensures ok <==> WellFormed(b, sectorSize)
  {
    hide Pow2, Of16;
    if sectorSize == 0 {
      return false;
    }
    if Of16(b[510..512]) != SIGNATURE || b[3..11] != FS_NAME {
      return false;
    }
    for i := 0 to 53
      invariant ZeroBetween(b, 11, 11 + i)
    {
      if b[11 + i] != 0 {
        return false;
      }
    }
    var numFats, sectorBits, clusterBits := NumFats(b), SectorBits(b), ClusterBits(b);
    if numFats != 1 && numFats != 2 {
      return false;
    }
    if sectorBits < 9 || sectorBits > 12 || clusterBits > 25 - sectorBits {
      return false;
    }
    return sectorSize == Pow2(sectorBits);
  }

  method Parse(b: seq<byte>, sectorSize: nat) returns (r: Option<Super>)
    requires |b| == 512
    ensures r.Some? <==> WellFormed(b, sectorSize) && Fitting(b, sectorSize)
    ensures r.Some? ==> Accepted(b, sectorSize, r.value)
    ensures r.Some? ==> r.value.rootDir == Of32(b[96..100]) && r.value.volFlags == Of16(b[106..108])
    ensures r.Some? && NumClusters(b) >= 2 ==>
              r.value.maxBytes == (NumClusters(b) as int - 2) * Pow2(SectorBits(b) + ClusterBits(b))
  {
    hide Pow2, Of16, Of32, ZeroBetween, NumClusters;
    var ok := CheckFields(b, sectorSize);
    if !ok {
      return None;
    }
    var numFats, sectorBits, clusterBits := NumFats(b), SectorBits(b), ClusterBits(b);
    var fatOffset, fatLength, cluOffset, numClusters := FatOffset(b), FatLength(b), CluOffset(b), NumClusters(b);
    var fat2Offset := if numFats == 2 then (fatOffset as int + fatLength as int) % U32 else fatOffset;
    var data: int := (numClusters as int + U32 - 2) % U32;
    if fatLength as int * sectorSize < numClusters as int * 4 {
      return None;
    }
    if (cluOffset as int) < fatOffset as int + fatLength as int * numFats {
      return None;
    }
    MirrorFits(fatOffset, fatLength, numFats, cluOffset);
    return Some(Super(sectorBits, clusterBits, numFats, fatOffset, fatLength, fat2Offset, cluOffset, numClusters,
                      Of32(b[96..100]), Of16(b[106..108]), data * Pow2(sectorBits + clusterBits)));
  }

  /** The geometry an accepted sector describes. */
  function GeometryOf(s: Super): Geometry {
    Geometry(Pow2(s.sectorBits), Pow2(s.clusterBits), s.numFats, s.fatOffset, s.fatLength, s.fat2Offset, s.cluOffset, s.numClusters)
  }

  /** The parser accepts the sector and fills these fields. */
  predicate Accepted(b: seq<byte>, sectorSize: nat, s: Super)
    requires |b| == 512
  {
    && WellFormed(b, sectorSize) && Fitting(b, sectorSize)
    && s.sectorBits == SectorBits(b) && s.clusterBits == ClusterBits(b) && s.numFats == NumFats(b)
    && s.fatOffset == FatOffset(b) && s.fatLength == FatLength(b) && s.cluOffset == CluOffset(b) && s.numClusters == NumClusters(b)
    && s.fat2Offset as int == if s.numFats == 2 then s.fatOffset as int + s.fatLength as int else s.fatOffset as int
  }

  /** Within the standard's limit on the cluster count the two reserved numbers do not overflow; beyond it
      they do, and the parser does not notice. */
  lemma CountFits(b: seq<byte>)
    requires |b| == 512
    ensures NumClusters(b) as int == CluCount(b) as int + 2 <==> CluCount(b) <= 0xFFFF_FFFD
  {
  }

  /** What a formatter puts into a boot sector: the fields that a driver reads, and the rest. */
  datatype Fields = Fields(fatOffset: u32, fatLength: u32, cluOffset: u32, cluCount: u32, rootDir: u32, volFlags: u16,
                           sectorBits: byte, clusterBits: byte, numFats: byte)

  /** The main boot sector of section 3.1 of the exFAT file system specification.  `a` is the jump, `b` the partition's
      place and length, `c` serial number and revision, and `d` what comes between the number of FATs and the
      signature. */
  function Laid(f: Fields, a: seq<byte>, b: seq<byte>, c: seq<byte>, d: seq<byte>): (r: seq<byte>)
    requires |a| == 3 && |b| == 16 && |c| == 6 && |d| == 399
    ensures |r| == 512
  {
    a + FS_NAME + seq(53, _ => 0) + b + Le32(f.fatOffset) + Le32(f.fatLength) + Le32(f.cluOffset) + Le32(f.cluCount) + Le32(f.rootDir)
    + c + Le16(f.volFlags) + [f.sectorBits, f.clusterBits, f.numFats] + d + Le16(SIGNATURE)
  }

  /** What follows a prefix, whatever comes behind it. */
  lemma FieldAt(prefix: seq<byte>, field: seq<byte>, rest: seq<byte>, whole: seq<byte>, at: nat, end: nat)
    requires whole == prefix + field + rest && at == |prefix| && end == |prefix| + |field|
    ensures end <= |whole| && whole[at..end] == field && whole[..end] == prefix + field
  {
  }

  /** The parser's fields are those the formatter laid out, and the rest does not matter. */
  lemma LaidIsRead(f: Fields, a: seq<byte>, b: seq<byte>, c: seq<byte>, d: seq<byte>)
    requires |a| == 3 && |b| == 16 && |c| == 6 && |d| == 399
    ensures var s := Laid(f, a, b, c, d);
            && Of16(s[510..512]) == SIGNATURE && s[3..11] == FS_NAME && ZeroBetween(s, 11, 64)
            && FatOffset(s) == f.fatOffset && FatLength(s) == f.fatLength && CluOffset(s) == f.cluOffset && CluCount(s) == f.cluCount
            && Of32(s[96..100]) == f.rootDir && Of16(s[106..108]) == f.volFlags
            && SectorBits(s) == f.sectorBits as int && ClusterBits(s) == f.clusterBits as int && NumFats(s) == f.numFats as int
  {
    hide Of32, Of16, Le32, Le16;
    var s := Laid(f, a, b, c, d);
    Front(f, a, b, c, d);
    Back(f, a, b, c, d);
    Of32Le32(f.fatOffset);
    Of32Le32(f.fatLength);
    Of32Le32(f.cluOffset);
    Of32Le32(f.cluCount);
    Of32Le32(f.rootDir);
    Of16Le16(f.volFlags);
    Of16Le16(SIGNATURE);
  }

  lemma Front(f: Fields, a: seq<byte>, b: seq<byte>, c: seq<byte>, d: seq<byte>)
    requires |a| == 3 && |b| == 16 && |c| == 6 && |d| == 399
    ensures var s := Laid(f, a, b, c, d);
            && s[3..11] == FS_NAME && ZeroBetween(s, 11, 64)
            && s[80..84] == Le32(f.fatOffset) && s[84..88] == Le32(f.fatLength) && s[88..92] == Le32(f.cluOffset)
  {
    hide Le32, Le16;
    var s, zeros: seq<byte> := Laid(f, a, b, c, d), seq(53, _ => 0);
    FieldAt(a, FS_NAME, s[11..], s, 3, 11);
    FieldAt(a + FS_NAME, zeros, s[64..], s, 11, 64);
    assert forall i :: 11 <= i < 64 ==> s[i] == s[11..64][i - 11];
    var p := a + FS_NAME + zeros + b;
    FieldAt(p, Le32(f.fatOffset), s[84..], s, 80, 84);
    FieldAt(p + Le32(f.fatOffset), Le32(f.fatLength), s[88..], s, 84, 88);
    FieldAt(p + Le32(f.fatOffset) + Le32(f.fatLength), Le32(f.cluOffset), s[92..], s, 88, 92);
  }

  lemma Back(f: Fields, a: seq<byte>, b: seq<byte>, c: seq<byte>, d: seq<byte>)
    requires |a| == 3 && |b| == 16 && |c| == 6 && |d| == 399
    ensures var s := Laid(f, a, b, c, d);
            && s[92..96] == Le32(f.cluCount) && s[96..100] == Le32(f.rootDir) && s[106..108] == Le16(f.volFlags)
            && s[108] == f.sectorBits && s[109] == f.clusterBits && s[110] == f.numFats && s[510..512] == Le16(SIGNATURE)
  {
    hide Le32, Le16;
    var s, zeros: seq<byte> := Laid(f, a, b, c, d), seq(53, _ => 0);
    var p := a + FS_NAME + zeros + b + Le32(f.fatOffset) + Le32(f.fatLength) + Le32(f.cluOffset);
    FieldAt(p, Le32(f.cluCount), s[96..], s, 92, 96);
    FieldAt(p + Le32(f.cluCount), Le32(f.rootDir), s[100..], s, 96, 100);
    var q := p + Le32(f.cluCount) + Le32(f.rootDir) + c;
    FieldAt(q, Le16(f.volFlags), s[108..], s, 106, 108);
    FieldAt(q + Le16(f.volFlags), [f.sectorBits, f.clusterBits, f.numFats], s[111..], s, 108, 111);
    assert s[108] == s[108..111][0] && s[109] == s[108..111][1] && s[110] == s[108..111][2];
    FieldAt(q + Le16(f.volFlags) + [f.sectorBits, f.clusterBits, f.numFats] + d, Le16(SIGNATURE), [], s, 510, 512);
  }

  /** A sector that claims 2^32 - 2 clusters, and nothing else out of the ordinary. */
  function WrappingSector(): (b: seq<byte>)
    ensures |b| == 512
    ensures forall i :: 0 <= i < 512 ==> b[i] == WrappingByte(i)
  {
    seq(512, i requires 0 <= i < 512 => WrappingByte(i))
  }

  function WrappingByte(i: nat): byte {
    if 3 <= i < 11 then FS_NAME[i - 3]
    else if i == 92 then 0xFE
    else if 93 <= i < 96 then 0xFF
    else if i == 108 then 9
    else if i == 110 then 1
    else if i == 510 then 0x55
    else if i == 511 then 0xAA
    else 0
  }

  lemma WrapFields()
    ensures var b := WrappingSector();
            && b[80..84] == [0, 0, 0, 0] && b[84..88] == [0, 0, 0, 0] && b[88..92] == [0, 0, 0, 0]
            && b[92..96] == [0xFE, 0xFF, 0xFF, 0xFF] && b[510..512] == [0x55, 0xAA] && b[3..11] == FS_NAME
            && ZeroBetween(b, 11, 64) && b[108] == 9 && b[109] == 0 && b[110] == 1
  {
    hide WrappingSector;
    var b := WrappingSector();
    assert FS_NAME == [WrappingByte(3), WrappingByte(4), WrappingByte(5), WrappingByte(6),
                       WrappingByte(7), WrappingByte(8), WrappingByte(9), WrappingByte(10)];
    assert b[3..11] == [b[3], b[4], b[5], b[6], b[7], b[8], b[9], b[10]];
  }

  lemma WrapValues()
    ensures Of32([0, 0, 0, 0]) == 0 && Of32([0xFE, 0xFF, 0xFF, 0xFF]) == 0xFFFF_FFFE && Of16([0x55, 0xAA]) == SIGNATURE
    ensures Pow2(9) == 512
  {
    assert Pow2(5) == 32 && Pow2(9) == 16 * Pow2(5);
  }

  /** The wrapped count is zero, so the parser accepts the sector, and even without any FAT. */
  lemma WrapIsAccepted()
    ensures var b := WrappingSector();
            && CluCount(b) == 0xFFFF_FFFE && NumClusters(b) == 0 && FatLength(b) == 0
            && Accepted(b, 512, Super(9, 0, 1, 0, 0, 0, 0, 0, 0, 0, 0))
  {
    hide WrappingSector, Of32, Of16, Pow2, ZeroBetween, WrappingByte;
    WrapFields();
    WrapValues();
  }

  lemma PowersOf(bits: nat)
    requires 9 <= bits <= 12
    ensures Pow2(bits) >= 512 && Pow2(bits) % 32 == 0
  {
    assert Pow2(5) == 32 && Pow2(9) == 16 * Pow2(5);
    assert Pow2(10) == 2 * Pow2(9) && Pow2(11) == 2 * Pow2(10) && Pow2(12) == 2 * Pow2(11);
  }

  /** An accepted sector describes a volume whose FATs hold an entry for every cluster and whose three
      regions are apart. */
  lemma AcceptedGeometry(b: seq<byte>, sectorSize: nat, s: Super)
    requires |b| == 512 && Accepted(b, sectorSize, s) && CluCount(b) <= MAX_CHAIN_LEN
    ensures GeometryOf(s).Ok() && GeometryOf(s).numClusters == CluCount(b) as int + 2
  {
    hide Of16, Of32, Pow2;
    CountFits(b);
    PowersOf(SectorBits(b));
    PowPositive(s.clusterBits);
  }

  lemma PowPositive(bits: nat)
    ensures Pow2(bits) >= 1
  {
  }

  /** Sector ranges of the first FAT, of the mirror when there is one, and of cluster c. */
  predicate Apart(lo: nat, n: nat, lo': nat, n': nat) { lo + n <= lo' || lo' + n' <= lo }

  lemma RegionsApart(b: seq<byte>, sectorSize: nat, s: Super, c: nat)
    requires |b| == 512 && Accepted(b, sectorSize, s) && CluCount(b) <= 0xFFFF_FFF5 && FIRST_CLUSTER <= c < s.numClusters
    ensures 4 * c + 4 <= s.fatLength as int * sectorSize
    ensures var g := GeometryOf(s);
            && Apart(s.fatOffset, s.fatLength, ClusterSector(g, c), g.spc)
            && (s.numFats == 2 ==> && Apart(s.fatOffset, s.fatLength, s.fat2Offset, s.fatLength)
                                   && Apart(s.fat2Offset, s.fatLength, ClusterSector(g, c), g.spc))
  {
    hide Of16, Of32, Pow2;
    var g := GeometryOf(s);
    PowPositive(s.clusterBits);
    ScaleLe(0, c - FIRST_CLUSTER, g.spc);
    assert ClusterSector(g, c) >= s.cluOffset;
    assert s.numFats == 2 ==> s.fatLength as int * s.numFats == s.fatLength as int + s.fatLength as int;
  }
}
