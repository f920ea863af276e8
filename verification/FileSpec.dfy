/** What file operations do to sizes, cluster counts and free space when no device access fails: a machine on
    values, without clusters, FAT or bitmap.  FileRuns shows that every healthy run of the driver is a run of
    this machine. */
module FileSpec {
  import opened Bytes
  import opened Volumes
  import opened Allocator
  import opened Contents

  const UINT64_MAX: nat := 0xFFFF_FFFF_FFFF_FFFF

  /** A file: its kind, its flags, its size in bytes and its length in clusters. */
  datatype Meta = Meta(isFile: bool, flags: nat, size: nat, len: nat)

  /** A volume: its live files, and how many clusters are free. */
  datatype Fs = Fs(files: seq<Meta>, free: nat)

  datatype Outcome = Outcome(file: Meta, free: nat, code: Errno)

  datatype Op =
    | Resize(i: nat, newSize: nat)
    | WriteAt(i: nat, pos: int, buf: seq<byte>)
    | ReadAt(i: nat, pos: int, len: nat)
    | Remove(i: nat)
    | NewFile
    | NewDir

  /** Changing the size of a file on a volume with clusters of cs bytes and at most `max` bytes in all. */
  function AfterResize(m: Meta, newSize: nat, free: nat, cs: nat, max: nat): Outcome
    requires cs > 0
  {
    var n := CountFor(newSize, cs);
    if newSize == m.size then Outcome(m, free, OK)
    else if m.flags != FAT_CHAIN then Outcome(m, free, EINVAL)
    else if newSize > m.size && newSize > max then Outcome(m, free, EFBIG)
    else if newSize > m.size && n > m.len + free then Outcome(m, free, ENOSPC)
    else if (if newSize > m.size then n <= m.len else n >= m.len) then Outcome(m.(size := newSize), free, OK)
    else Outcome(m.(size := newSize, len := n), free + m.len - n, OK)
  }

  /** An empty file without clusters becomes a FAT chain before it grows. */
  function Chained(m: Meta): Meta {
    if m.size == 0 && m.len == 0 then m.(flags := FAT_CHAIN) else m
  }

  /** Writing n bytes at pos. */
  function AfterWrite(m: Meta, pos: int, n: nat, free: nat, cs: nat, max: nat): Outcome
    requires cs > 0
  {
    if n == 0 then Outcome(m, free, OK)
    else if !m.isFile then Outcome(m, free, EISDIR)
    else if pos < 0 then Outcome(m, free, EINVAL)
    else if pos + n > max || pos + n > UINT64_MAX then Outcome(m, free, EFBIG)
    else if pos + n <= m.size then Outcome(m, free, OK)
    else AfterResize(Chained(m), pos + n, free, cs, max)
  }

  /** One operation, and the code it returns.  An operation on an index outside the table does nothing. */
  function AfterOp(fs: Fs, op: Op, cs: nat, max: nat): (Fs, Errno)
    requires cs > 0
  {
    match op
    case Resize(i, newSize) =>
      if i >= |fs.files| then (fs, OK)
      else var o := AfterResize(fs.files[i], newSize, fs.free, cs, max); (Fs(fs.files[i := o.file], o.free), o.code)
    case WriteAt(i, pos, buf) =>
      if i >= |fs.files| then (fs, OK)
      else var o := AfterWrite(fs.files[i], pos, |buf|, fs.free, cs, max); (Fs(fs.files[i := o.file], o.free), o.code)
    case ReadAt(i, pos, len) =>
      (fs, if i < |fs.files| && len > 0 && !fs.files[i].isFile then EISDIR else OK)
    case Remove(i) =>
      if i >= |fs.files| then (fs, OK)
      else (Fs(fs.files[..i] + fs.files[i + 1..], fs.free + fs.files[i].len), OK)
    case NewFile =>
      (Fs(fs.files + [Meta(true, FAT_CHAIN, 0, 0)], fs.free), OK)
    case NewDir =>
      if fs.free == 0 then (fs, ENOSPC)
      else (Fs(fs.files + [Meta(false, NO_FAT_CHAIN, cs, 1)], fs.free - 1), OK)
  }

  function Final(fs: Fs, script: seq<Op>, cs: nat, max: nat): Fs
    requires cs > 0
  {
    if script == [] then fs else AfterOp(Final(fs, script[..|script| - 1], cs, max), script[|script| - 1], cs, max).0
  }

  function Codes(fs: Fs, script: seq<Op>, cs: nat, max: nat): (r: seq<Errno>)
    requires cs > 0
    ensures |r| == |script|
  {
    if script == [] then []
    else
      var n := |script| - 1;
      Codes(fs, script[..n], cs, max) + [AfterOp(Final(fs, script[..n], cs, max), script[n], cs, max).1]
  }

  lemma RunGrow(fs: Fs, script: seq<Op>, op: Op, cs: nat, max: nat)
    requires cs > 0
    ensures Final(fs, script + [op], cs, max) == AfterOp(Final(fs, script, cs, max), op, cs, max).0
    ensures Codes(fs, script + [op], cs, max) == Codes(fs, script, cs, max) + [AfterOp(Final(fs, script, cs, max), op, cs, max).1]
  {
    assert (script + [op])[..|script|] == script;
  }

  // ----- conservation

  /** Clusters held by all files. */
  function Held(files: seq<Meta>): nat {
    if files == [] then 0 else Held(files[..|files| - 1]) + files[|files| - 1].len
  }

  lemma {:induction false} HeldJoin(a: seq<Meta>, b: seq<Meta>)
    ensures Held(a + b) == Held(a) + Held(b)
  {
    if b == [] {
      assert a + b == a;
    } else {
      var n := |b| - 1;
      HeldJoin(a, b[..n]);
      assert (a + b)[..|a| + n] == a + b[..n] && (a + b)[|a| + n] == b[n];
    }
  }

  lemma HeldOne(m: Meta)
    ensures Held([m]) == m.len
  {
    assert [m][..0] == [] && Held([]) == 0;
  }

  lemma HeldSplit(files: seq<Meta>, i: nat, m: Meta)
    requires i < |files|
    ensures Held(files) == Held(files[..i]) + files[i].len + Held(files[i + 1..])
    ensures Held(files[i := m]) == Held(files[..i]) + m.len + Held(files[i + 1..])
  {
    hide Held;
    var a, b := files[..i], files[i + 1..];
    assert files == a + [files[i]] + b && files[i := m] == a + [m] + b;
    HeldJoin(a, [files[i]]);
    HeldJoin(a + [files[i]], b);
    HeldJoin(a, [m]);
    HeldJoin(a + [m], b);
    HeldOne(files[i]);
    HeldOne(m);
  }

  lemma HeldPut(files: seq<Meta>, i: nat, m: Meta)
    requires i < |files|
    ensures Held(files[i := m]) == Held(files) - files[i].len + m.len
  {
    HeldSplit(files, i, m);
  }

  lemma HeldRemove(files: seq<Meta>, i: nat)
    requires i < |files|
    ensures Held(files[..i] + files[i + 1..]) == Held(files) - files[i].len
  {
    HeldSplit(files, i, files[i]);
    HeldJoin(files[..i], files[i + 1..]);
  }

  /** No operation creates or loses a cluster. */
  lemma OpConserves(fs: Fs, op: Op, cs: nat, max: nat)
    requires cs > 0
    ensures var r := AfterOp(fs, op, cs, max).0; r.free + Held(r.files) == fs.free + Held(fs.files)
  {
    hide Held, CountFor;
    match op {
      case Resize(i, newSize) =>
        if i < |fs.files| {
          HeldPut(fs.files, i, AfterResize(fs.files[i], newSize, fs.free, cs, max).file);
        }
      case WriteAt(i, pos, buf) =>
        if i < |fs.files| {
          HeldPut(fs.files, i, AfterWrite(fs.files[i], pos, |buf|, fs.free, cs, max).file);
        }
      case Remove(i) =>
        if i < |fs.files| {
          HeldRemove(fs.files, i);
        }
      case NewFile => HeldAdd(fs.files, Meta(true, FAT_CHAIN, 0, 0));
      case NewDir => HeldAdd(fs.files, Meta(false, NO_FAT_CHAIN, cs, 1));
      case ReadAt(_, _, _) =>
    }
  }

  lemma HeldAdd(files: seq<Meta>, m: Meta)
    ensures Held(files + [m]) == Held(files) + m.len
  {
    assert (files + [m])[..|files|] == files;
  }

  /** Free clusters and clusters of files add up to the same over every run. */
  lemma {:induction false} RunConserves(fs: Fs, script: seq<Op>, cs: nat, max: nat)
    requires cs > 0
    ensures var r := Final(fs, script, cs, max); r.free + Held(r.files) == fs.free + Held(fs.files)
  {
    if script != [] {
      var n := |script| - 1;
      RunConserves(fs, script[..n], cs, max);
      OpConserves(Final(fs, script[..n], cs, max), script[n], cs, max);
    }
  }

  // ----- space

  /** How many clusters an operation asks for beyond those its file has. */
  function Asked(fs: Fs, op: Op, cs: nat, max: nat): nat
    requires cs > 0
  {
    match op
    case Resize(i, newSize) =>
      if i < |fs.files| && fs.files[i].flags == FAT_CHAIN && fs.files[i].size < newSize <= max
      then Beyond(fs.files[i].len, newSize, cs) else 0
    case WriteAt(i, pos, buf) =>
      if (i < |fs.files| && fs.files[i].isFile && buf != [] && Chained(fs.files[i]).flags == FAT_CHAIN
          && 0 <= pos && fs.files[i].size < pos + |buf| <= max && pos + |buf| <= UINT64_MAX)
      then Beyond(fs.files[i].len, pos + |buf|, cs) else 0
    case NewDir => 1
    case _ => 0
  }

  function Beyond(len: nat, size: nat, cs: nat): nat
    requires cs > 0
  {
    if CountFor(size, cs) > len then CountFor(size, cs) - len else 0
  }

  /** An operation reports no space exactly when it asks for more clusters than are free. */
  lemma NoSpaceIff(fs: Fs, op: Op, cs: nat, max: nat)
    requires cs > 0
    ensures AfterOp(fs, op, cs, max).1 == ENOSPC <==> Asked(fs, op, cs, max) > fs.free
  {
    hide CountFor;
  }

  /** So does every operation of a run. */
  lemma {:induction false} RunNoSpaceIff(fs: Fs, script: seq<Op>, k: nat, cs: nat, max: nat)
    requires cs > 0 && k < |script|
    ensures var before := Final(fs, script[..k], cs, max);
            Codes(fs, script, cs, max)[k] == ENOSPC <==> Asked(before, script[k], cs, max) > before.free
  {
    var n := |script| - 1;
    if k < n {
      RunNoSpaceIff(fs, script[..n], k, cs, max);
      assert script[..n][..k] == script[..k];
    } else {
      NoSpaceIff(Final(fs, script[..n], cs, max), script[n], cs, max);
    }
  }
}
