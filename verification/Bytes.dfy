/** Bytes and words, replacing a stretch of a sequence in place, and little-endian words. */
module Bytes {

  type byte = x: int | 0 <= x < 0x100
  type u16 = x: int | 0 <= x < 0x1_0000
  type u32 = x: int | 0 <= x < 0x1_0000_0000
  type u64 = x: int | 0 <= x < 0x1_0000_0000_0000_0000

  datatype Option<T> = None | Some(value: T)

  /** `d` with the stretch at `at` replaced by `p`: what a memcpy or a sector write does. */
  function Splice<T>(d: seq<T>, at: nat, p: seq<T>): (r: seq<T>)
    requires at + |p| <= |d|
    ensures |r| == |d|
  {
    d[..at] + p + d[at + |p|..]
  }

  lemma SliceOfSlice<T>(d: seq<T>, lo: nat, hi: nat, a: nat, b: nat)
    requires lo <= hi <= |d| && a <= b <= hi - lo
    ensures d[lo..hi][a..b] == d[lo + a..lo + b]
  {
    forall i | 0 <= i < b - a
      ensures d[lo..hi][a..b][i] == d[lo + a..lo + b][i]
    {
    }
  }

  lemma SpliceInside<T>(d: seq<T>, at: nat, p: seq<T>, lo: nat, hi: nat)
    requires at + |p| <= |d| && at <= lo <= hi <= at + |p|
    ensures Splice(d, at, p)[lo..hi] == p[lo - at..hi - at]
  {
  }

  lemma SpliceOutside<T>(d: seq<T>, at: nat, p: seq<T>, lo: nat, hi: nat)
    requires at + |p| <= |d| && lo <= hi <= |d| && (hi <= at || at + |p| <= lo)
    ensures Splice(d, at, p)[lo..hi] == d[lo..hi]
  {
  }

  /** A slice that contains the replaced stretch has it replaced. */
  lemma SpliceWithin<T>(d: seq<T>, at: nat, p: seq<T>, lo: nat, hi: nat)
    requires lo <= at && at + |p| <= hi <= |d|
    ensures Splice(d, at, p)[lo..hi] == Splice(d[lo..hi], at - lo, p)
  {
  }

  /** Reading a block, patching it in a buffer and writing it back patches only the stretch. */
  lemma ReadModifyWrite<T>(d: seq<T>, base: nat, size: nat, off: nat, p: seq<T>)
    requires base + size <= |d| && off + |p| <= size
    ensures Splice(d, base, Splice(d[base..base + size], off, p)) == Splice(d, base + off, p)
  {
    var block := d[base..base + size];
    var buf := Splice(block, off, p);
    forall i | 0 <= i < |d|
      ensures Splice(d, base, buf)[i] == Splice(d, base + off, p)[i]
    {
      if base <= i < base + size {
        assert Splice(d, base, buf)[i] == buf[i - base];
      }
    }
  }

  function Le16(v: u16): (r: seq<byte>)
    ensures |r| == 2
  {
    [v % 256, v / 256]
  }

  function Of16(b: seq<byte>): u16
    requires |b| == 2
  {
    b[0] as int + 256 * b[1] as int
  }

  function Le32(v: u32): (r: seq<byte>)
    ensures |r| == 4
  {
    [v % 256, (v / 0x100) % 256, (v / 0x1_0000) % 256, v / 0x100_0000]
  }

  function Of32(b: seq<byte>): u32
    requires |b| == 4
  {
    b[0] as int + 0x100 * b[1] as int + 0x1_0000 * b[2] as int + 0x100_0000 * b[3] as int
  }

  function Le64(v: u64): (r: seq<byte>)
    ensures |r| == 8
  {
    Le32(v % 0x1_0000_0000) + Le32(v / 0x1_0000_0000)
  }

  function Of64(b: seq<byte>): u64
    requires |b| == 8
  {
    Of32(b[..4]) as int + 0x1_0000_0000 * Of32(b[4..]) as int
  }

  lemma Of64Le64(v: u64)
    ensures Of64(Le64(v)) == v
  {
    hide Le32, Of32;
    var lo, hi := v % 0x1_0000_0000, v / 0x1_0000_0000;
    Of32Le32(lo);
    Of32Le32(hi);
    assert Le64(v)[..4] == Le32(lo) && Le64(v)[4..] == Le32(hi);
  }

  lemma Of16Le16(v: u16)
    ensures Of16(Le16(v)) == v
  {
  }

  lemma Of32Le32(v: u32)
    ensures Of32(Le32(v)) == v
  {
    assert v == 256 * (v / 256) + v % 256;
    assert v / 256 / 256 == v / 0x1_0000 && v / 0x1_0000 / 256 == v / 0x100_0000;
  }

  lemma AtLeastOnce(m: int, k: int)
    requires 0 < m && 1 <= k
    ensures m <= m * k
  {
  }

  lemma DivModUnique(x: int, m: int, q: int, r: int)
    requires 0 < m && x == m * q + r && 0 <= r < m
    ensures x / m == q && x % m == r
  {
    var q', r' := x / m, x % m;
    assert x == m * q' + r';
    assert m * (q' - q) == m * q' - m * q && m * (q - q') == m * q - m * q';
    if q < q' {
      AtLeastOnce(m, q' - q);
    } else if q > q' {
      AtLeastOnce(m, q - q');
    }
  }
}
