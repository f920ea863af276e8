/** Directory entries of 32 bytes and the sets they form: a file entry, a stream entry and up to seventeen
    name entries, as fs/exfat/exfat_inode.c builds them and reads names back from them. */
module Dentries {
  import opened Bytes
  import opened Checksum

  const UNUSED: byte := 0x00
  const FILE: byte := 0x85
  const STREAM: byte := 0xC0
  const NAME: byte := 0xC1
  const SET_MAX: nat := 19
  const MAX_NAME: nat := 255
  const ATTR_SUBDIR: u16 := 0x10
  const ATTR_ARCHIVE: u16 := 0x20

  type Dentry = d: seq<byte> | |d| == 32 witness seq(32, _ => 0)

  // ----- fields

  function Type(d: Dentry): byte { d[0] }
  function NumExt(d: Dentry): byte { d[1] }
  function Check(d: Dentry): u16 { Of16(d[2..4]) }
  function Attr(d: Dentry): u16 { Of16(d[4..6]) }
  function NameLen(d: Dentry): byte { d[3] }
  function StartClu(d: Dentry): u32 { Of32(d[20..24]) }
  function Size(d: Dentry): u64 { Of64(d[24..32]) }
  function Flags(d: Dentry): byte { d[1] }
  function NameHash(d: Dentry): u16 { Of16(d[4..6]) }
  function ValidSize(d: Dentry): u64 { Of64(d[8..16]) }
  function Unit(d: Dentry, k: nat): u16
    requires k < 15
  {
    Of16(d[2 + 2 * k..4 + 2 * k])
  }

  function WithNumExt(d: Dentry, n: byte): Dentry { d[1 := n] }
  function WithCheck(d: Dentry, sum: u16): Dentry { Splice(d, 2, Le16(sum)) }
  function WithName(d: Dentry, len: byte, hash: u16): Dentry { Splice(d[3 := len], 4, Le16(hash)) }

  /** Top bit of the type byte cleared: the entry is deleted. */
  function Tombstone(d: Dentry): Dentry { d[0 := d[0] as int % 0x80] }

  /** Nothing but the in-use bit is gone: setting it again brings the entry back. */
  lemma TombstoneKeeps(d: Dentry)
    requires Type(d) >= 0x80
    ensures var t := Tombstone(d); Reusable(t) && t[0 := Type(t) + 0x80] == d
  {
  }

  /** A slot that may be written: deleted, or never used. */
  predicate Reusable(d: Dentry) { Type(d) < 0x80 }

  predicate Secondary(d: Dentry) { Type(d) == STREAM || Type(d) == NAME }

  // ----- the entries that are written

  /** The file entry of exfat_init_dir_entry; `stamp` holds its three times and dates. */
  function FileEntry(isDir: bool, stamp: seq<byte>): Dentry
    requires |stamp| == 12
  {
    [FILE, 0, 0, 0] + Le16(if isDir then ATTR_SUBDIR else ATTR_ARCHIVE) + [0, 0] + stamp
    + [0, 0, 0, 0, 0, 0, 0, 0, 0, 0, 0, 0]
  }

  /** The stream entry of exfat_init_dir_entry. */
  function StreamEntry(isDir: bool, start: u32, size: u64): Dentry {
    [STREAM, if isDir then 3 else 1, 0, 0, 0, 0, 0, 0] + Le64(size) + [0, 0, 0, 0] + Le32(start) + Le64(size)
  }

  /** Code units as bytes. */
  function Pack(units: seq<u16>): (r: seq<byte>)
    ensures |r| == 2 * |units|
  {
    if units == [] then [] else Pack(units[..|units| - 1]) + Le16(units[|units| - 1])
  }

  /** The fifteen units of the i-th name entry, padded with zeros. */
  function Chunk(name: seq<u16>, i: nat): (r: seq<u16>)
    ensures |r| == 15
  {
    seq(15, k requires 0 <= k < 15 => if 15 * i + k < |name| then name[15 * i + k] else 0)
  }

  function NameEntry(units: seq<u16>): Dentry
    requires |units| == 15
  {
    [NAME, 0] + Pack(units)
  }

  /** exfat_calc_num_entries. */
  function NumEntries(len: nat): nat
    requires len > 0
  {
    (len - 1) / 15 + 3
  }

  function NameEntries(name: seq<u16>, n: nat): (r: seq<Dentry>)
    ensures |r| == n && forall i :: 0 <= i < n ==> r[i] == NameEntry(Chunk(name, i))
  {
    seq(n, i requires 0 <= i < n => NameEntry(Chunk(name, i)))
  }

  lemma StreamFields(isDir: bool, start: u32, size: u64, len: byte, hash: u16)
    ensures var d := WithName(StreamEntry(isDir, start, size), len, hash);
            Type(d) == STREAM && NameLen(d) == len && StartClu(d) == start && Size(d) == size
    ensures Type(StreamEntry(isDir, start, size)) == STREAM
  {
    hide Le64, Le32, Of64, Of32, Le16;
    var d := WithName(StreamEntry(isDir, start, size), len, hash);
    var s := StreamEntry(isDir, start, size);
    assert s[20..24] == Le32(start);
    var front := [STREAM, if isDir then 3 else 1, 0, 0, 0, 0, 0, 0] + Le64(size) + [0, 0, 0, 0] + Le32(start);
    assert |front| == 24 && s == front + Le64(size);
    assert s[24..] == Le64(size) && s[24..32] == s[24..];
    assert d[20..24] == s[20..24] && d[24..32] == s[24..32];
    Of32Le32(start);
    Of64Le64(size);
  }

  lemma {:induction false} PackReads(units: seq<u16>, k: nat)
    requires k < |units|
    ensures Of16(Pack(units)[2 * k..2 * k + 2]) == units[k]
  {
    var n := |units| - 1;
    if k == n {
      Of16Le16(units[n]);
      assert Pack(units)[2 * n..2 * n + 2] == Le16(units[n]);
    } else {
      PackReads(units[..n], k);
      assert Pack(units)[2 * k..2 * k + 2] == Pack(units[..n])[2 * k..2 * k + 2];
    }
  }

  lemma NameReads(units: seq<u16>, k: nat)
    requires |units| == 15 && k < 15
    ensures Type(NameEntry(units)) == NAME && Unit(NameEntry(units), k) == units[k]
  {
    hide Pack;
    PackReads(units, k);
    assert NameEntry(units)[2 + 2 * k..4 + 2 * k] == Pack(units)[2 * k..2 * k + 2];
  }

  // ----- the set checksum

  function Flat(set_: seq<Dentry>): (r: seq<byte>)
    ensures |r| == 32 * |set_|
  {
    if set_ == [] then [] else Flat(set_[..|set_| - 1]) + set_[|set_| - 1]
  }

  function SetSum(set_: seq<Dentry>): u16 { Sum16(Flat(set_), 0, DirEntry) }

  /** exfat_validate_dentry_set. */
  predicate Valid(set_: seq<Dentry>) {
    1 <= |set_| <= SET_MAX && Type(set_[0]) == FILE && SetSum(set_) == Check(set_[0])
  }

  lemma {:induction false} FlatHead(set_: seq<Dentry>)
    requires set_ != []
    ensures Flat(set_) == set_[0] + Flat(set_[1..])
  {
    var n := |set_| - 1;
    if n == 0 {
      assert set_[..0] == [] && set_[1..] == [] && Flat(set_[..0]) == [];
      assert Flat(set_) == [] + set_[0];
    } else {
      FlatHead(set_[..n]);
      assert set_[1..][..n - 1] == set_[..n][1..];
      assert Flat(set_) == set_[0] + Flat(set_[..n][1..]) + set_[n];
      assert set_[0] + (Flat(set_[..n][1..]) + set_[n]) == set_[0] + Flat(set_[..n][1..]) + set_[n];
    }
  }

  /** The sum over the first k entries, seeding the next. */
  lemma SetSumNext(set_: seq<Dentry>, k: nat)
    requires 0 < k < |set_|
    ensures SetSum(set_[..k + 1]) == Sum16(set_[k], SetSum(set_[..k]), Default)
  {
    hide Sum16;
    FlatHead(set_[..k]);
    assert set_[..k + 1][..k] == set_[..k];
    assert Flat(set_[..k + 1]) == Flat(set_[..k]) + set_[k];
    ChunkedIsWhole(set_[0], Flat(set_[..k][1..]), set_[k]);
  }

  lemma SetSumOne(d: Dentry)
    ensures SetSum([d]) == Sum16(d, 0, DirEntry)
  {
    assert [d][..0] == [] && Flat([d][..0]) == [];
    assert Flat([d]) == [] + d == d;
  }

  /** The sum does not depend on the checksum field. */
  lemma SumIgnoresCheck(set_: seq<Dentry>, sum: u16)
    requires set_ != []
    ensures SetSum(set_[0 := WithCheck(set_[0], sum)]) == SetSum(set_)
    ensures Check(WithCheck(set_[0], sum)) == sum && Type(WithCheck(set_[0], sum)) == Type(set_[0])
    ensures NumExt(WithCheck(set_[0], sum)) == NumExt(set_[0])
  {
    hide Le16, Of16, Flat;
    var other := set_[0 := WithCheck(set_[0], sum)];
    FlatHead(set_);
    FlatHead(other);
    assert other[1..] == set_[1..];
    SkippedDoNotMatter(Flat(set_), Flat(other), DirEntry);
    Of16Le16(sum);
    assert WithCheck(set_[0], sum)[2..4] == Le16(sum);
  }

  /** Storing the sum in the checksum field makes any file set valid. */
  lemma SummedIsValid(set_: seq<Dentry>)
    requires 1 <= |set_| <= SET_MAX && Type(set_[0]) == FILE
    ensures Valid(set_[0 := WithCheck(set_[0], SetSum(set_))])
  {
    hide SetSum, WithCheck, Check;
    SumIgnoresCheck(set_, SetSum(set_));
  }

  // ----- names

  /** Name entries that hold `len` units. */
  function Needed(len: nat): nat { (len + 14) / 15 }

  /** The unit at position k of the name spread over the entries from the third on. */
  function UnitAt(set_: seq<Dentry>, k: nat): u16
    requires 2 + k / 15 < |set_|
  {
    Unit(set_[2 + k / 15], k % 15)
  }

  lemma UnitInRange(k: nat, len: nat)
    requires k < len
    ensures k / 15 < Needed(len)
  {
  }

  /** What ExfatLookupExtractName accepts. */
  predicate Named(set_: seq<Dentry>) {
    && 2 <= |set_| && Type(set_[0]) == FILE && Type(set_[1]) == STREAM
    && 0 < NameLen(set_[1]) && 2 + Needed(NameLen(set_[1])) <= |set_|
    && forall i :: 2 <= i < 2 + Needed(NameLen(set_[1])) ==> Type(set_[i]) == NAME
  }

  /** The name a set carries: as many units as its stream entry says. */
  function NameOf(set_: seq<Dentry>): (r: seq<u16>)
    requires Named(set_)
    ensures |r| == NameLen(set_[1]) as int
  {
    var len: nat := NameLen(set_[1]);
    seq(len, k requires 0 <= k < len => UnitInRange(k, len); UnitAt(set_, k))
  }

  /** ExfatLookupExtractName. */
  method ExtractName(set_: seq<Dentry>) returns (r: Option<seq<u16>>)
    ensures r == if Named(set_) then Some(NameOf(set_)) else None
  {
    if |set_| < 2 || Type(set_[0]) != FILE || Type(set_[1]) != STREAM {
      return None;
    }
    var len: nat := NameLen(set_[1]);
    if len == 0 || len > MAX_NAME {
      return None;
    }
    var needed := (len + 15 - 1) / 15;
    if |set_| < 2 + needed {
      return None;
    }
    var name: seq<u16> := [];
    for i := 0 to needed
      invariant forall j :: 2 <= j < 2 + i ==> Type(set_[j]) == NAME
      invariant |name| == (if i < needed then 15 * i else len)
      invariant forall k :: 0 <= k < |name| ==> k / 15 < needed && name[k] == UnitAt(set_, k)
    {
      if Type(set_[2 + i]) != NAME {
        return None;
      }
      var chunk := if i == needed - 1 then len - i * 15 else 15;
      name := AddChunk(set_, name, i, chunk);
    }
    assert name == NameOf(set_);
    return Some(name);
  }

  method AddChunk(set_: seq<Dentry>, name: seq<u16>, i: nat, chunk: nat) returns (r: seq<u16>)
    requires |name| == 15 * i && chunk <= 15 && 2 + i < |set_|
    ensures |r| == 15 * i + chunk && r[..15 * i] == name
    ensures forall k :: 15 * i <= k < 15 * i + chunk ==> k / 15 == i && r[k] == UnitAt(set_, k)
  {
    r := name;
    for j := 0 to chunk
      invariant |r| == 15 * i + j && r[..15 * i] == name
      invariant forall k :: 15 * i <= k < 15 * i + j ==> k / 15 == i && r[k] == UnitAt(set_, k)
    {
      assert (15 * i + j) / 15 == i && (15 * i + j) % 15 == j;
      r := r + [Unit(set_[2 + i], j)];
    }
  }

  /** How many units the rename scan looks at. */
  function Reach(n: nat): nat
    requires n >= 2
  {
    if 15 * (n - 2) <= MAX_NAME then 15 * (n - 2) else MAX_NAME
  }

  /** The units up to the first zero: what rename_extract_uniname takes for the name. */
  predicate IsText(set_: seq<Dentry>, text: seq<u16>) {
    && 3 <= |set_| && |text| <= Reach(|set_|)
    && (forall k :: 0 <= k < |text| ==> 2 + k / 15 < |set_| && UnitAt(set_, k) == text[k] != 0)
    && (|text| < Reach(|set_|) ==> 2 + |text| / 15 < |set_| && UnitAt(set_, |text|) == 0)
  }

  lemma TextUnique(set_: seq<Dentry>, a: seq<u16>, b: seq<u16>)
    requires IsText(set_, a) && IsText(set_, b)
    ensures a == b
  {
    hide UnitAt;
    assert |a| == |b|;
  }

  /** rename_extract_uniname. */
  method ExtractText(set_: seq<Dentry>) returns (r: Option<seq<u16>>)
    ensures r.Some? <==> |set_| >= 3
    ensures r.Some? ==> IsText(set_, r.value)
  {
    hide Unit;
    if |set_| < 3 {
      return None;
    }
    var text: seq<u16> := [];
    var i := 2;
    while i < |set_| && |text| < MAX_NAME
      invariant 2 <= i <= |set_| && |text| == 15 * (i - 2) <= MAX_NAME
      invariant forall k :: 0 <= k < |text| ==> 2 + k / 15 < |set_| && UnitAt(set_, k) == text[k] != 0
    {
      var j := 0;
      while j < 15 && |text| < MAX_NAME
        invariant 0 <= j <= 15 && |text| == 15 * (i - 2) + j <= MAX_NAME
        invariant forall k :: 0 <= k < |text| ==> 2 + k / 15 < |set_| && UnitAt(set_, k) == text[k] != 0
      {
        assert (15 * (i - 2) + j) / 15 == i - 2 && (15 * (i - 2) + j) % 15 == j;
        var c := Unit(set_[i], j);
        if c == 0 {
          break;
        }
        text := text + [c];
        j := j + 1;
      }
      if j < 15 {
        return Some(text);
      }
      i := i + 1;
    }
    return Some(text);
  }

  // ----- the sets that are written

  /** A set as init_dir_entry and init_ext_entry leave it. */
  function BuiltSet(isDir: bool, stamp: seq<byte>, start: u32, size: u64, name: seq<u16>, hash: u16): (r: seq<Dentry>)
    requires |stamp| == 12 && 0 < |name| <= MAX_NAME
    ensures |r| == NumEntries(|name|)
  {
    var plain := Unsummed(isDir, stamp, start, size, name, hash);
    plain[0 := WithCheck(plain[0], SetSum(plain))]
  }

  /** The same before its checksum is stored. */
  function Unsummed(isDir: bool, stamp: seq<byte>, start: u32, size: u64, name: seq<u16>, hash: u16): (r: seq<Dentry>)
    requires |stamp| == 12 && 0 < |name| <= MAX_NAME
    ensures |r| == NumEntries(|name|) && r[1] == WithName(StreamEntry(isDir, start, size), |name|, hash)
    ensures r[0] == WithNumExt(FileEntry(isDir, stamp), NumEntries(|name|) - 1)
    ensures r[2..] == NameEntries(name, NumEntries(|name|) - 2)
  {
    [WithNumExt(FileEntry(isDir, stamp), NumEntries(|name|) - 1), WithName(StreamEntry(isDir, start, size), |name|, hash)]
    + NameEntries(name, NumEntries(|name|) - 2)
  }

  lemma NumEntriesIs(len: nat)
    requires 0 < len <= MAX_NAME
    ensures NumEntries(len) == 2 + Needed(len) && 3 <= NumEntries(len) <= SET_MAX
  {
  }

  /** Whatever the first entry's checksum field holds, the set carries its name, start cluster and size. */
  lemma BuiltReads(isDir: bool, stamp: seq<byte>, start: u32, size: u64, name: seq<u16>, hash: u16, sum: u16)
    requires |stamp| == 12 && 0 < |name| <= MAX_NAME
    ensures var plain := Unsummed(isDir, stamp, start, size, name, hash);
            var s := plain[0 := WithCheck(plain[0], sum)];
            && Type(s[0]) == FILE && NumExt(s[0]) as int == |s| - 1 && 3 <= |s| <= SET_MAX
            && (forall i :: 1 <= i < |s| ==> Secondary(s[i]))
            && Named(s) && NameOf(s) == name && StartClu(s[1]) == start && Size(s[1]) == size
  {
    hide Pack, Le16, Le32, Le64, Of32, Of64, Of16;
    NumEntriesIs(|name|);
    StreamFields(isDir, start, size, |name|, hash);
    var plain := Unsummed(isDir, stamp, start, size, name, hash);
    var s := plain[0 := WithCheck(plain[0], sum)];
    assert Type(s[0]) == FILE && NumExt(s[0]) as int == |s| - 1;
    forall i | 2 <= i < |s|
      ensures Type(s[i]) == NAME
    {
      assert s[i] == plain[2..][i - 2];
      NameReads(Chunk(name, i - 2), 0);
    }
    forall k | 0 <= k < |name|
      ensures k / 15 < Needed(|name|) && UnitAt(s, k) == name[k]
    {
      UnitInRange(k, |name|);
      assert s[2 + k / 15] == plain[2..][k / 15];
      NameReads(Chunk(name, k / 15), k % 15);
    }
  }

  /** The set that is written is valid and gives its name back. */
  lemma BuiltIsValid(isDir: bool, stamp: seq<byte>, start: u32, size: u64, name: seq<u16>, hash: u16)
    requires |stamp| == 12 && 0 < |name| <= MAX_NAME
    ensures var s := BuiltSet(isDir, stamp, start, size, name, hash);
            && |s| == 2 + Needed(|name|) && Valid(s) && Named(s) && NameOf(s) == name
            && StartClu(s[1]) == start && Size(s[1]) == size
  {
    hide SetSum, WithCheck, Unsummed, NameOf, StartClu, Size;
    var plain := Unsummed(isDir, stamp, start, size, name, hash);
    NumEntriesIs(|name|);
    BuiltReads(isDir, stamp, start, size, name, hash, SetSum(plain));
    BuiltReads(isDir, stamp, start, size, name, hash, 0);
    SumIgnoresCheck(plain, 0);
    SummedIsValid(plain);
  }

  /** It says what it is the set of: a directory is marked as one and lies in a run of clusters, a file is to be
      archived and lies in a chain, and all of it is valid data. */
  lemma BuiltKind(isDir: bool, stamp: seq<byte>, start: u32, size: u64, name: seq<u16>, hash: u16)
    requires |stamp| == 12 && 0 < |name| <= MAX_NAME
    ensures var s := BuiltSet(isDir, stamp, start, size, name, hash);
            && |s| >= 3 && Attr(s[0]) == (if isDir then 0x10 else 0x20) && s[0][8..20] == stamp
            && Flags(s[1]) == (if isDir then 3 else 1) && NameLen(s[1]) == |name| && NameHash(s[1]) == hash && ValidSize(s[1]) == size
  {
    hide SetSum, Le64, Le32, Of64;
    NumEntriesIs(|name|);
    var plain := Unsummed(isDir, stamp, start, size, name, hash);
    var f, e := FileEntry(isDir, stamp), WithCheck(plain[0], SetSum(plain));
    var attr := if isDir then ATTR_SUBDIR else ATTR_ARCHIVE;
    assert e[4..6] == f[4..6] == Le16(attr) && e[8..20] == f[8..20] == stamp;
    Of16Le16(attr);
    var stream, d := StreamEntry(isDir, start, size), plain[1];
    assert stream[8..16] == Le64(size);
    assert d[8..16] == stream[8..16] && d[4..6] == Le16(hash);
    Of16Le16(hash);
    Of64Le64(size);
  }

  /** The rename scan reads the same name, if it has no zero unit. */
  lemma BuiltText(isDir: bool, stamp: seq<byte>, start: u32, size: u64, name: seq<u16>, hash: u16)
    requires |stamp| == 12 && 0 < |name| <= MAX_NAME && 0 !in name
    ensures IsText(BuiltSet(isDir, stamp, start, size, name, hash), name)
  {
    hide SetSum, WithCheck, Unit, BuiltSet, Unsummed, Pack;
    var s := BuiltSet(isDir, stamp, start, size, name, hash);
    BuiltIsValid(isDir, stamp, start, size, name, hash);
    NumEntriesIs(|name|);
    forall k | 0 <= k < |name|
      ensures 2 + k / 15 < |s| && UnitAt(s, k) == name[k] != 0
    {
      UnitInRange(k, |name|);
      assert NameOf(s)[k] == UnitAt(s, k) && name[k] in name;
    }
    if |name| < Reach(|s|) {
      BuiltPadding(isDir, stamp, start, size, name, hash);
    }
  }

  /** A zero unit cuts the name the rename scan reads. */
  lemma BuiltTextIff(isDir: bool, stamp: seq<byte>, start: u32, size: u64, name: seq<u16>, hash: u16)
    requires |stamp| == 12 && 0 < |name| <= MAX_NAME
    ensures IsText(BuiltSet(isDir, stamp, start, size, name, hash), name) <==> 0 !in name
  {
    if 0 !in name {
      BuiltText(isDir, stamp, start, size, name, hash);
    }
  }

  lemma BuiltPadding(isDir: bool, stamp: seq<byte>, start: u32, size: u64, name: seq<u16>, hash: u16)
    requires |stamp| == 12 && 0 < |name| <= MAX_NAME && |name| < 15 * (NumEntries(|name|) - 2)
    ensures var s := BuiltSet(isDir, stamp, start, size, name, hash); 2 + |name| / 15 < |s| && UnitAt(s, |name|) == 0
  {
    hide SetSum, WithCheck, Pack;
    var plain := Unsummed(isDir, stamp, start, size, name, hash);
    assert plain[2 + |name| / 15] == plain[2..][|name| / 15];
    NameReads(Chunk(name, |name| / 15), |name| % 15);
  }
}
