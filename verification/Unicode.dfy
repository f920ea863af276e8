/** Name conversion of fs/exfat/exfat_nls.c: strict UTF-8 to UTF-16 and back.

    The reference is the pair of encoding forms of sections 3 and 4 of RFC 3629 and sections 2.1
    and 2.2 of RFC 2781, as functions from a scalar value to its bytes or units.  Masks and shifts
    of the source are written as division and remainder by the same power of two.
 */
module Unicode {
  import opened B = Bytes

  type unit = u16
  type Scalar = v: int | 0 <= v <= 0x10FFFF && !(0xD800 <= v <= 0xDFFF)

  datatype Step = Step(value: Scalar, size: nat)
  datatype Outcome = Converted(count: nat) | Invalid | TooLong
  datatype Round = Went(i: nat, count: nat) | Malformed | Full
  /** The scalars of the longest well-formed prefix, and whether that is the whole input. */
  datatype Parse = Parse(scalars: seq<Scalar>, whole: bool)

  const MAX_NAME: nat := 255

  // ----- the reference encodings

  function Bytes(v: Scalar): (r: seq<byte>)
    ensures 1 <= |r| <= 4
  {
    if v < 0x80 then [v]
    else if v < 0x800 then [0xC0 + v / 64, 0x80 + v % 64]
    else if v <= 0xFFFF then [0xE0 + v / 4096, 0x80 + (v / 64) % 64, 0x80 + v % 64]
    else [0xF0 + v / 262144, 0x80 + (v / 4096) % 64, 0x80 + (v / 64) % 64, 0x80 + v % 64]
  }

  function Units(v: Scalar): (r: seq<unit>)
    ensures 1 <= |r| <= 2
  {
    if v <= 0xFFFF then [v]
    else [0xD800 + (v - 0x10000) / 0x400, 0xDC00 + (v - 0x10000) % 0x400]
  }

  function AllBytes(vs: seq<Scalar>): seq<byte> {
    if vs == [] then [] else Bytes(vs[0]) + AllBytes(vs[1..])
  }

  function AllUnits(vs: seq<Scalar>): seq<unit> {
    if vs == [] then [] else Units(vs[0]) + AllUnits(vs[1..])
  }

  // ----- one step of exfat_utf8_to_uni

  predicate IsTail(b: byte) { 0x80 <= b < 0xC0 }

  /** Continuation bytes announced by a start byte, or -1 for an illegal one. */
  function Extra(b: byte): int {
    if b < 0x80 then 0
    else if 0xC0 <= b < 0xE0 then 1
    else if 0xE0 <= b < 0xF0 then 2
    else if 0xF0 <= b < 0xF8 then 3
    else -1
  }

  function LeadBits(b: byte): nat {
    if b < 0x80 then b
    else if b < 0xE0 then b % 32
    else if b < 0xF0 then b % 16
    else b % 8
  }

  function MinScalar(extra: int): nat {
    if extra == 1 then 0x80 else if extra == 2 then 0x800 else if extra == 3 then 0x10000 else 0
  }

  function Accumulate(lead: nat, tail: seq<byte>): nat {
    if tail == [] then lead else Accumulate(lead, tail[..|tail| - 1]) * 64 + tail[|tail| - 1] % 64
  }

  predicate Acceptable(cp: nat, extra: int) {
    MinScalar(extra) <= cp <= 0x10FFFF && !(0xD800 <= cp <= 0xDFFF)
  }

  function Step8(s: seq<byte>): (r: Option<Step>)
    requires s != []
    ensures r.Some? ==> 1 <= r.value.size <= |s|
  {
    var extra := Extra(s[0]);
    if extra < 0 || |s| < 1 + extra || exists k :: 1 <= k < 1 + extra && !IsTail(s[k]) then None
    else
      var cp := Accumulate(LeadBits(s[0]), s[1..1 + extra]);
      if Acceptable(cp, extra) then Some(Step(cp, 1 + extra)) else None
  }

  function Parse8(s: seq<byte>): Parse {
    if s == [] then Parse([], true)
    else match Step8(s)
      case None => Parse([], false)
      case Some(st) => var p := Parse8(s[st.size..]); Parse([st.value] + p.scalars, p.whole)
  }

  // ----- one step of exfat_uni_to_utf8

  predicate IsHigh(u: unit) { 0xD800 <= u <= 0xDBFF }
  predicate IsLow(u: unit) { 0xDC00 <= u <= 0xDFFF }

  function Step16(s: seq<unit>): (r: Option<Step>)
    requires s != []
    ensures r.Some? ==> 1 <= r.value.size <= |s|
  {
    if IsHigh(s[0]) then
      if |s| < 2 || !IsLow(s[1]) then None
      else var hi: int, lo: int := s[0], s[1]; Some(Step(0x10000 + (hi - 0xD800) * 0x400 + (lo - 0xDC00), 2))
    else if IsLow(s[0]) then None
    else Some(Step(s[0], 1))
  }

  function Parse16(s: seq<unit>): Parse {
    if s == [] then Parse([], true)
    else match Step16(s)
      case None => Parse([], false)
      case Some(st) => var p := Parse16(s[st.size..]); Parse([st.value] + p.scalars, p.whole)
  }

  // ----- a step reads exactly one encoded scalar

  lemma Accumulate1(lead: nat, t: seq<byte>)
    requires |t| == 1
    ensures Accumulate(lead, t) == lead * 64 + t[0] % 64
  {
    assert t[..0] == [];
  }

  lemma Accumulate2(lead: nat, t: seq<byte>)
    requires |t| == 2
    ensures Accumulate(lead, t) == (lead * 64 + t[0] % 64) * 64 + t[1] % 64
  {
    Accumulate1(lead, t[..1]);
  }

  lemma Accumulate3(lead: nat, t: seq<byte>)
    requires |t| == 3
    ensures Accumulate(lead, t) == ((lead * 64 + t[0] % 64) * 64 + t[1] % 64) * 64 + t[2] % 64
  {
    Accumulate2(lead, t[..2]);
    assert t[..2][0] == t[0] && t[..2][1] == t[1];
  }

  // Bit fields of the two-, three- and four-byte forms.

  lemma Fields2(v: int)
    requires 0x80 <= v < 0x800
    ensures 0xC0 <= 0xC0 + v / 64 < 0xE0 && (0xC0 + v / 64) % 32 == v / 64
    ensures v / 64 * 64 + v % 64 == v
  {
  }

  lemma Fields3(v: int)
    requires 0x800 <= v < 0x10000
    ensures 0xE0 <= 0xE0 + v / 4096 < 0xF0 && (0xE0 + v / 4096) % 16 == v / 4096
    ensures (v / 4096 * 64 + (v / 64) % 64) * 64 + v % 64 == v
  {
  }

  lemma Fields4(v: int)
    requires 0x10000 <= v < 0x110000
    ensures 0xF0 <= 0xF0 + v / 262144 < 0xF8 && (0xF0 + v / 262144) % 8 == v / 262144
    ensures ((v / 262144 * 64 + (v / 4096) % 64) * 64 + (v / 64) % 64) * 64 + v % 64 == v
  {
  }

  lemma TailBits(x: int)
    requires 0 <= x < 64
    ensures (0x80 + x) % 64 == x
  {
  }

  lemma Join2(a: int, x: int, v: int)
    requires 0 <= x < 64 && v == a * 64 + x
    ensures v / 64 == a && v % 64 == x
  {
  }

  lemma Join3(a: int, x: int, y: int, v: int)
    requires 0 <= x < 64 && 0 <= y < 64 && v == (a * 64 + x) * 64 + y
    ensures v / 4096 == a && (v / 64) % 64 == x && v % 64 == y
  {
    Join2(a * 64 + x, y, v);
    Join2(a, x, v / 64);
  }

  lemma Join4(a: int, x: int, y: int, z: int, v: int)
    requires 0 <= x < 64 && 0 <= y < 64 && 0 <= z < 64 && v == ((a * 64 + x) * 64 + y) * 64 + z
    ensures v / 262144 == a && (v / 4096) % 64 == x && (v / 64) % 64 == y && v % 64 == z
  {
    Join2((a * 64 + x) * 64 + y, z, v);
    Join3(a, x, y, v / 64);
    assert v / 64 / 4096 == v / 262144;
    assert v / 64 / 64 == v / 4096;
  }

  /** A lead byte and continuation bytes of its announced number. */
  predicate Framed(s: seq<byte>, extra: int) {
    0 <= extra && |s| >= 1 + extra && Extra(s[0]) == extra && forall k :: 1 <= k < 1 + extra ==> IsTail(s[k])
  }

  lemma Step8Framed(s: seq<byte>, extra: int)
    requires Framed(s, extra)
    ensures var cp := Accumulate(LeadBits(s[0]), s[1..1 + extra]);
            Step8(s) == if Acceptable(cp, extra) then Some(Step(cp, 1 + extra)) else None
  {
  }

  lemma Reads2(v: Scalar, s: seq<byte>)
    requires 0x80 <= v < 0x800 && |s| >= 2 && s[0] == 0xC0 + v / 64 && s[1] == 0x80 + v % 64
    ensures Step8(s) == Some(Step(v, 2))
  {
    hide Step8, Accumulate;
    Fields2(v);
    TailBits(v % 64);
    Accumulate1(LeadBits(s[0]), s[1..2]);
    Step8Framed(s, 1);
  }

  lemma Reads3(v: Scalar, s: seq<byte>)
    requires 0x800 <= v < 0x10000 && |s| >= 3
    requires s[0] == 0xE0 + v / 4096 && s[1] == 0x80 + (v / 64) % 64 && s[2] == 0x80 + v % 64
    ensures Step8(s) == Some(Step(v, 3))
  {
    hide Step8, Accumulate;
    Fields3(v);
    TailBits((v / 64) % 64);
    TailBits(v % 64);
    Accumulate2(LeadBits(s[0]), s[1..3]);
    Step8Framed(s, 2);
  }

  lemma Reads4(v: Scalar, s: seq<byte>)
    requires 0x10000 <= v && |s| >= 4 && s[0] == 0xF0 + v / 262144
    requires s[1] == 0x80 + (v / 4096) % 64 && s[2] == 0x80 + (v / 64) % 64 && s[3] == 0x80 + v % 64
    ensures Step8(s) == Some(Step(v, 4))
  {
    hide Step8, Accumulate;
    Fields4(v);
    TailBits((v / 4096) % 64);
    TailBits((v / 64) % 64);
    TailBits(v % 64);
    Accumulate3(LeadBits(s[0]), s[1..4]);
    Step8Framed(s, 3);
  }

  lemma Step8Reads(v: Scalar, rest: seq<byte>)
    ensures Step8(Bytes(v) + rest) == Some(Step(v, |Bytes(v)|))
  {
    var s := Bytes(v) + rest;
    if v < 0x80 {
      assert s[1..1] == [];
    } else {
      hide Step8;
      if v < 0x800 {
        Reads2(v, s);
      } else if v <= 0xFFFF {
        Reads3(v, s);
      } else {
        Reads4(v, s);
      }
    }
  }

  lemma Only2(s: seq<byte>, v: nat)
    requires Framed(s, 1) && v == Accumulate(LeadBits(s[0]), s[1..2]) && Acceptable(v, 1)
    ensures Bytes(v) == s[..2]
  {
    hide Accumulate;
    Accumulate1(LeadBits(s[0]), s[1..2]);
    Join2(s[0] % 32, s[1] % 64, v);
  }

  lemma Only3(s: seq<byte>, v: nat)
    requires Framed(s, 2) && v == Accumulate(LeadBits(s[0]), s[1..3]) && Acceptable(v, 2)
    ensures Bytes(v) == s[..3]
  {
    hide Accumulate;
    Accumulate2(LeadBits(s[0]), s[1..3]);
    Join3(s[0] % 16, s[1] % 64, s[2] % 64, v);
  }

  lemma Only4(s: seq<byte>, v: nat)
    requires Framed(s, 3) && v == Accumulate(LeadBits(s[0]), s[1..4]) && Acceptable(v, 3)
    ensures Bytes(v) == s[..4]
  {
    hide Accumulate;
    Accumulate3(LeadBits(s[0]), s[1..4]);
    Join4(s[0] % 8, s[1] % 64, s[2] % 64, s[3] % 64, v);
  }

  lemma Step8Only(s: seq<byte>)
    requires s != [] && Step8(s).Some?
    ensures var st := Step8(s).value; Bytes(st.value) == s[..st.size]
  {
    var extra := Extra(s[0]);
    var v := Step8(s).value.value;
    assert Framed(s, extra);
    if extra == 0 {
      assert s[1..1] == [];
    } else {
      hide Bytes;
      if extra == 1 {
        Only2(s, v);
      } else if extra == 2 {
        Only3(s, v);
      } else {
        Only4(s, v);
      }
    }
  }

  lemma Step16Reads(v: Scalar, rest: seq<unit>)
    ensures Step16(Units(v) + rest) == Some(Step(v, |Units(v)|))
  {
  }

  lemma Step16Only(s: seq<unit>)
    requires s != [] && Step16(s).Some?
    ensures var st := Step16(s).value; Units(st.value) == s[..st.size]
  {
  }

  // ----- whole strings

  /** The output of a conversion of `s` in the other encoding form. */
  function Recode8(s: seq<byte>): seq<unit> { AllUnits(Parse8(s).scalars) }

  function Recode16(s: seq<unit>): seq<byte> { AllBytes(Parse16(s).scalars) }

  lemma Parse8Step(s: seq<byte>, st: Step)
    requires s != [] && Step8(s) == Some(st)
    ensures Parse8(s).whole == Parse8(s[st.size..]).whole
    ensures Recode8(s) == Units(st.value) + Recode8(s[st.size..])
    ensures AllBytes(Parse8(s).scalars) == Bytes(st.value) + AllBytes(Parse8(s[st.size..]).scalars)
  {
    hide Step8, Units, Bytes;
    var p := Parse8(s[st.size..]);
    assert ([st.value] + p.scalars)[1..] == p.scalars;
  }

  lemma Parse8Stop(s: seq<byte>)
    requires s == [] || Step8(s).None?
    ensures Parse8(s).whole <==> s == []
    ensures Recode8(s) == []
  {
  }

  lemma Parse16Step(s: seq<unit>, st: Step)
    requires s != [] && Step16(s) == Some(st)
    ensures Parse16(s).whole == Parse16(s[st.size..]).whole
    ensures Recode16(s) == Bytes(st.value) + Recode16(s[st.size..])
    ensures AllUnits(Parse16(s).scalars) == Units(st.value) + AllUnits(Parse16(s[st.size..]).scalars)
  {
    hide Step16, Units, Bytes;
    var p := Parse16(s[st.size..]);
    assert ([st.value] + p.scalars)[1..] == p.scalars;
  }

  lemma Parse16Stop(s: seq<unit>)
    requires s == [] || Step16(s).None?
    ensures Parse16(s).whole <==> s == []
    ensures Recode16(s) == []
  {
  }

  lemma {:induction false} Parse8Reads(vs: seq<Scalar>)
    ensures Parse8(AllBytes(vs)) == Parse(vs, true)
  {
    hide Step8, Bytes;
    if vs != [] {
      var v, rest := vs[0], vs[1..];
      Step8Reads(v, AllBytes(rest));
      assert (Bytes(v) + AllBytes(rest))[|Bytes(v)|..] == AllBytes(rest);
      Parse8Reads(rest);
    }
  }

  lemma {:induction false} Parse8Only(s: seq<byte>)
    ensures AllBytes(Parse8(s).scalars) <= s
    ensures Parse8(s).whole ==> AllBytes(Parse8(s).scalars) == s
    decreases |s|
  {
    hide Step8, Bytes;
    if s != [] && Step8(s).Some? {
      var st := Step8(s).value;
      Step8Only(s);
      Parse8Only(s[st.size..]);
      Parse8Step(s, st);
      assert s == s[..st.size] + s[st.size..];
    }
  }

  /** The strict decoder accepts exactly the encodings, and reads off the encoded scalars. */
  lemma Utf8Exact(s: seq<byte>, vs: seq<Scalar>)
    ensures Parse8(s) == Parse(vs, true) <==> s == AllBytes(vs)
  {
    hide *;
    Parse8Only(s);
    Parse8Reads(vs);
  }

  lemma {:induction false} Parse16Reads(vs: seq<Scalar>)
    ensures Parse16(AllUnits(vs)) == Parse(vs, true)
  {
    hide Step16, Units;
    if vs != [] {
      var v, rest := vs[0], vs[1..];
      Step16Reads(v, AllUnits(rest));
      assert (Units(v) + AllUnits(rest))[|Units(v)|..] == AllUnits(rest);
      Parse16Reads(rest);
    }
  }

  lemma {:induction false} Parse16Only(s: seq<unit>)
    ensures AllUnits(Parse16(s).scalars) <= s
    ensures Parse16(s).whole ==> AllUnits(Parse16(s).scalars) == s
    decreases |s|
  {
    hide Step16, Units;
    if s != [] && Step16(s).Some? {
      var st := Step16(s).value;
      Step16Only(s);
      Parse16Only(s[st.size..]);
      Parse16Step(s, st);
      assert s == s[..st.size] + s[st.size..];
    }
  }

  lemma Utf16Exact(s: seq<unit>, vs: seq<Scalar>)
    ensures Parse16(s) == Parse(vs, true) <==> s == AllUnits(vs)
  {
    hide *;
    Parse16Only(s);
    Parse16Reads(vs);
  }

  // ----- the grammar of section 4 of RFC 3629

  predicate Within(b: byte, lo: int, hi: int) { lo <= b <= hi }

  predicate Utf8Char(c: seq<byte>) {
    || (|c| == 1 && Within(c[0], 0x00, 0x7F))
    || (|c| == 2 && Within(c[0], 0xC2, 0xDF) && IsTail(c[1]))
    || (|c| == 3 && IsTail(c[2]) && (
          || (c[0] == 0xE0 && Within(c[1], 0xA0, 0xBF))
          || (Within(c[0], 0xE1, 0xEC) && IsTail(c[1]))
          || (c[0] == 0xED && Within(c[1], 0x80, 0x9F))
          || (Within(c[0], 0xEE, 0xEF) && IsTail(c[1]))))
    || (|c| == 4 && IsTail(c[2]) && IsTail(c[3]) && (
          || (c[0] == 0xF0 && Within(c[1], 0x90, 0xBF))
          || (Within(c[0], 0xF1, 0xF3) && IsTail(c[1]))
          || (c[0] == 0xF4 && Within(c[1], 0x80, 0x8F))))
  }

  predicate Utf8Octets(s: seq<byte>)
    decreases |s|
  {
    s == [] || exists n :: 1 <= n <= |s| && Utf8Char(s[..n]) && Utf8Octets(s[n..])
  }

  lemma GrammarStep(s: seq<byte>, n: nat)
    requires 1 <= n <= |s| && Utf8Char(s[..n])
    ensures Step8(s).Some? && Step8(s).value.size == n
  {
    hide Step8, Accumulate;
    var c := s[..n];
    assert c[0] == s[0] && (n > 1 ==> c[1] == s[1]) && (n > 2 ==> c[2] == s[2]) && (n > 3 ==> c[3] == s[3]);
    Step8Framed(s, n - 1);
    if n == 1 {
      assert s[1..1] == [];
      assert Accumulate(LeadBits(s[0]), s[1..1]) == s[0] by { Accumulate0(LeadBits(s[0])); }
    } else if n == 2 {
      Accumulate1(LeadBits(s[0]), s[1..2]);
    } else if n == 3 {
      Accumulate2(LeadBits(s[0]), s[1..3]);
    } else {
      Accumulate3(LeadBits(s[0]), s[1..4]);
    }
  }

  lemma Accumulate0(lead: nat)
    ensures Accumulate(lead, []) == lead
  {
  }

  lemma BytesInGrammar(v: Scalar)
    ensures Utf8Char(Bytes(v))
  {
    if 0x800 <= v <= 0xFFFF {
      Fields3(v);
    } else if v > 0xFFFF {
      Fields4(v);
    }
  }

  /** The decoder accepts exactly the octet strings of the grammar. */
  lemma {:induction false} GrammarExact(s: seq<byte>)
    ensures Parse8(s).whole <==> Utf8Octets(s)
    decreases |s|
  {
    hide Step8, Utf8Char;
    if s != [] {
      if Step8(s).Some? {
        var st := Step8(s).value;
        Step8Only(s);
        BytesInGrammar(st.value);
        GrammarExact(s[st.size..]);
      }
      if Utf8Octets(s) {
        var n :| 1 <= n <= |s| && Utf8Char(s[..n]) && Utf8Octets(s[n..]);
        GrammarStep(s, n);
        GrammarExact(s[n..]);
      }
    }
  }

  /** Each converter undoes the other on well-formed input, surrogate pairs included. */
  lemma Utf8RoundTrip(s: seq<byte>)
    requires Parse8(s).whole
    ensures Parse16(Recode8(s)).whole && Recode16(Recode8(s)) == s
  {
    hide Parse8, Parse16, AllUnits, AllBytes;
    Parse8Only(s);
    Parse16Reads(Parse8(s).scalars);
  }

  lemma Utf16RoundTrip(u: seq<unit>)
    requires Parse16(u).whole
    ensures Parse8(Recode16(u)).whole && Recode8(Recode16(u)) == u
  {
    hide Parse8, Parse16, AllUnits, AllBytes;
    Parse16Only(u);
    Parse8Reads(Parse16(u).scalars);
  }

  /** One scalar more is read, and its encoding in the other form follows what is done. */
  lemma Parse8Advance(s: seq<byte>, i: nat, st: Step, done: seq<unit>)
    requires i < |s| && Step8(s[i..]) == Some(st) && Recode8(s) == done + Recode8(s[i..])
    ensures 1 <= st.size && i + st.size <= |s| && Parse8(s[i..]).whole == Parse8(s[i + st.size..]).whole
    ensures Recode8(s) == done + Units(st.value) + Recode8(s[i + st.size..])
  {
    hide Units, Parse8, Recode8;
    assert s[i..][st.size..] == s[i + st.size..];
    Parse8Step(s[i..], st);
  }

  lemma Parse16Advance(s: seq<unit>, i: nat, st: Step, done: seq<byte>)
    requires i < |s| && Step16(s[i..]) == Some(st) && Recode16(s) == done + Recode16(s[i..])
    ensures 1 <= st.size && i + st.size <= |s| && Parse16(s[i..]).whole == Parse16(s[i + st.size..]).whole
    ensures Recode16(s) == done + Bytes(st.value) + Recode16(s[i + st.size..])
  {
    hide Bytes, Parse16, Recode16;
    assert s[i..][st.size..] == s[i + st.size..];
    Parse16Step(s[i..], st);
  }

  // ----- the conversion loops

  /** One round of exfat_utf8_to_uni: start byte, continuation-byte loop, rejection of overlong forms,
      surrogates and values above 0x10FFFF. */
  method ReadScalar(utf8: seq<byte>, start: nat) returns (r: Option<Step>)
    requires start < |utf8|
    ensures r == Step8(utf8[start..])
  {
    hide Acceptable, LeadBits;
    ghost var t := utf8[start..];
    var extra := Extra(utf8[start]);
    if extra < 0 || start + 1 + extra > |utf8| {
      return None;
    }
    var cp: int := LeadBits(utf8[start]);
    var i := start + 1;
    assert t[1..1] == [];
    for j := 0 to extra
      invariant i == start + 1 + j
      invariant forall k :: 1 <= k < 1 + j ==> IsTail(t[k])
      invariant cp == Accumulate(LeadBits(t[0]), t[1..1 + j])
    {
      var bn: int := utf8[i];
      i := i + 1;
      assert bn == t[1 + j];
      if !IsTail(bn) {
        return None;
      }
      assert t[1..2 + j][..j] == t[1..1 + j];
      cp := cp * 64 + bn % 64;
    }
    if !Acceptable(cp, extra) {
      return None;
    }
    ScalarRange(cp, extra);
    return Some(Step(cp, 1 + extra));
  }

  lemma ScalarRange(cp: nat, extra: int)
    requires Acceptable(cp, extra)
    ensures 0 <= cp <= 0x10FFFF && !(0xD800 <= cp <= 0xDFFF)
  {
  }

  method PutUnits(cp: Scalar, uni: array<unit>, uniMax: nat, count: nat) returns (r: Option<nat>)
    requires count <= uniMax <= uni.Length
    modifies uni
    ensures r.None? <==> count + |Units(cp)| > uniMax
    ensures r.Some? ==> r.value == count + |Units(cp)| <= uniMax && uni[..r.value] == old(uni[..count]) + Units(cp)
  {
    if cp <= 0xFFFF {
      if count + 1 > uniMax {
        return None;
      }
      uni[count] := cp;
      r := Some(count + 1);
    } else {
      var adj := cp - 0x10000;
      if count + 2 > uniMax {
        return None;
      }
      uni[count] := 0xD800 + adj / 0x400;
      uni[count + 1] := 0xDC00 + adj % 0x400;
      r := Some(count + 2);
    }
  }

  /** What a conversion reports: `need` is the output length of the longest well-formed prefix.  A
      malformed input is reported unless the buffer was already too short for the part before it. */
  predicate Reports(r: Outcome, need: nat, whole: bool, max: int) {
    r == if max < 1 then Invalid
         else if need > max then TooLong
         else if whole then Converted(need)
         else Invalid
  }

  /** One round of the loop: a scalar is read and its encoding stored, or one of the two is not possible. */
  method RoundToUni(utf8: seq<byte>, i: nat, uni: array<unit>, uniMax: nat, count: nat) returns (r: Round)
    requires i < |utf8| && count <= uniMax <= uni.Length && Recode8(utf8) == uni[..count] + Recode8(utf8[i..])
    modifies uni
    ensures r.Malformed? ==> !Parse8(utf8[i..]).whole && |Recode8(utf8)| == count
    ensures r.Full? ==> |Recode8(utf8)| > uniMax
    ensures r.Went? ==> && i < r.i <= |utf8| && r.count <= uniMax && Parse8(utf8[i..]).whole == Parse8(utf8[r.i..]).whole
                        && Recode8(utf8) == uni[..r.count] + Recode8(utf8[r.i..])
  {
    hide Step8, Units, Parse8, Recode8;
    var step := ReadScalar(utf8, i);
    if step.None? {
      Parse8Stop(utf8[i..]);
      return Malformed;
    }
    ghost var done := uni[..count];
    Parse8Advance(utf8, i, step.value, done);
    var put := PutUnits(step.value.value, uni, uniMax, count);
    if put.None? {
      assert |done + Units(step.value.value)| > uniMax;
      return Full;
    }
    assert uni[..put.value] == done + Units(step.value.value);
    return Went(i + step.value.size, put.value);
  }

  /** exfat_utf8_to_uni: the output array receives the UTF-16 form of the input. */
  method Utf8ToUni(utf8: seq<byte>, uni: array<unit>, uniMax: int) returns (r: Outcome)
    requires uniMax <= uni.Length
    modifies uni
    ensures Reports(r, |Recode8(utf8)|, Parse8(utf8).whole, uniMax)
    ensures r.Converted? ==> uni[..r.count] == Recode8(utf8)
  {
    if uniMax < 1 {
      return Invalid;
    }
    hide Parse8, Recode8;
    var count, i := 0, 0;
    assert utf8[0..] == utf8;
    while i < |utf8|
      invariant 0 <= i <= |utf8| && 0 <= count <= uniMax
      invariant Parse8(utf8).whole == Parse8(utf8[i..]).whole
      invariant Recode8(utf8) == uni[..count] + Recode8(utf8[i..])
      decreases |utf8| - i
    {
      var round := RoundToUni(utf8, i, uni, uniMax, count);
      match round {
        case Malformed => return Invalid;
        case Full => return TooLong;
        case Went(next, more) => i, count := next, more;
      }
    }
    Parse8Stop(utf8[i..]);
    return Converted(count);
  }

  /** One round of exfat_uni_to_utf8: a unit, or both halves of a surrogate pair. */
  method ReadUnits(uni: seq<unit>, i: nat) returns (r: Option<Step>)
    requires i < |uni|
    ensures r == Step16(uni[i..])
  {
    var u: int := uni[i];
    if IsHigh(u) {
      if i + 1 >= |uni| || !IsLow(uni[i + 1]) {
        return None;
      }
      var lo: int := uni[i + 1];
      return Some(Step(0x10000 + (u - 0xD800) * 0x400 + (lo - 0xDC00), 2));
    } else if IsLow(u) {
      return None;
    }
    return Some(Step(u, 1));
  }

  method PutBytes(cp: Scalar, out: array<byte>, outMax: nat, count: nat) returns (r: Option<nat>)
    requires count <= outMax <= out.Length
    modifies out
    ensures r.None? <==> count + |Bytes(cp)| > outMax
    ensures r.Some? ==> r.value == count + |Bytes(cp)| <= outMax && out[..r.value] == old(out[..count]) + Bytes(cp)
  {
    if cp < 0x80 {
      if count + 1 > outMax {
        return None;
      }
      out[count] := cp;
      r := Some(count + 1);
    } else if cp < 0x800 {
      if count + 2 > outMax {
        return None;
      }
      out[count], out[count + 1] := 0xC0 + cp / 64, 0x80 + cp % 64;
      r := Some(count + 2);
    } else if cp <= 0xFFFF {
      if count + 3 > outMax {
        return None;
      }
      out[count], out[count + 1], out[count + 2] := 0xE0 + cp / 4096, 0x80 + (cp / 64) % 64, 0x80 + cp % 64;
      r := Some(count + 3);
    } else {
      if count + 4 > outMax {
        return None;
      }
      out[count], out[count + 1] := 0xF0 + cp / 262144, 0x80 + (cp / 4096) % 64;
      out[count + 2], out[count + 3] := 0x80 + (cp / 64) % 64, 0x80 + cp % 64;
      r := Some(count + 4);
    }
  }

  /** One round of the loop: a scalar is read and its encoding stored, or one of the two is not possible. */
  method RoundToUtf8(uni: seq<unit>, i: nat, out: array<byte>, outMax: nat, written: nat) returns (r: Round)
    requires i < |uni| && written <= outMax <= out.Length && Recode16(uni) == out[..written] + Recode16(uni[i..])
    modifies out
    ensures r.Malformed? ==> !Parse16(uni[i..]).whole && |Recode16(uni)| == written
    ensures r.Full? ==> |Recode16(uni)| > outMax
    ensures r.Went? ==> && i < r.i <= |uni| && r.count <= outMax && Parse16(uni[i..]).whole == Parse16(uni[r.i..]).whole
                        && Recode16(uni) == out[..r.count] + Recode16(uni[r.i..])
  {
    hide Step16, Bytes, Parse16, Recode16;
    var step := ReadUnits(uni, i);
    if step.None? {
      Parse16Stop(uni[i..]);
      return Malformed;
    }
    ghost var done := out[..written];
    Parse16Advance(uni, i, step.value, done);
    var put := PutBytes(step.value.value, out, outMax, written);
    if put.None? {
      assert |done + Bytes(step.value.value)| > outMax;
      return Full;
    }
    assert out[..put.value] == done + Bytes(step.value.value);
    return Went(i + step.value.size, put.value);
  }

  /** exfat_uni_to_utf8; names are at most 255 units long. */
  method UniToUtf8(uni: seq<unit>, out: array<byte>, outMax: int) returns (r: Outcome)
    requires outMax <= out.Length
    modifies out
    ensures |uni| > MAX_NAME ==> r == Invalid
    ensures |uni| <= MAX_NAME ==> Reports(r, |Recode16(uni)|, Parse16(uni).whole, outMax)
    ensures r.Converted? ==> out[..r.count] == Recode16(uni)
  {
    if outMax < 1 || |uni| > MAX_NAME {
      return Invalid;
    }
    hide Parse16, Recode16;
    var written, i := 0, 0;
    assert uni[0..] == uni;
    while i < |uni|
      invariant 0 <= i <= |uni| && 0 <= written <= outMax
      invariant Parse16(uni).whole == Parse16(uni[i..]).whole
      invariant Recode16(uni) == out[..written] + Recode16(uni[i..])
      decreases |uni| - i
    {
      var round := RoundToUtf8(uni, i, out, outMax, written);
      match round {
        case Malformed => return Invalid;
        case Full => return TooLong;
        case Went(next, more) => i, written := next, more;
      }
    }
    Parse16Stop(uni[i..]);
    return Converted(written);
  }
}
