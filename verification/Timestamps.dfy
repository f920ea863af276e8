/** Packed on-disk timestamps: exfat_encode_mtime, exfat_encode_ctime, exfat_encode_atime and
    exfat_decode_entry_time of fs/exfat/exfat_inode.c.

    The source packs with shifts and ors of disjoint bit fields; the fields are written here as
    digits of a mixed-radix number, which is the same value because no field overflows its width.
 */
module Timestamps {
  import opened Bytes
  import opened Calendar

  function ClampSecs(s: int): (r: nat)
    ensures MIN_TIMESTAMP <= r <= MAX_TIMESTAMP
    ensures MIN_TIMESTAMP <= s <= MAX_TIMESTAMP ==> r == s
  {
    if s < MIN_TIMESTAMP then MIN_TIMESTAMP
    else if s > MAX_TIMESTAMP then MAX_TIMESTAMP
    else s
  }

  function TruncateAtime(s: nat): nat { s - s % 2 }

  function PackDate(d: Date): u16
    requires 1 <= d.mon <= 12 && 1 <= d.mday <= 31
  {
    var yearOff := d.year - 1980;
    (if yearOff < 0 then 0 else if yearOff > 127 then 127 else yearOff) * 512 + d.mon * 32 + d.mday
  }

  function PackTime(c: Civil): u16
    requires 0 <= c.hour < 24 && 0 <= c.min < 60 && 0 <= c.sec < 60
  {
    c.hour * 2048 + c.min * 32 + c.sec / 2
  }

  /** The packed civil time of a second, with the given hundredths and zone. */
  function Packed(t: nat, cs: byte, tz: byte): Stamp
    requires MIN_TIMESTAMP <= t <= MAX_TIMESTAMP
  {
    CivilRoundTripInRange(t);
    DateRange(CivilFromSeconds(t).date);
    Stamp(PackDate(CivilFromSeconds(t).date), PackTime(CivilFromSeconds(t)), cs, tz)
  }

  /** Shared by the modify and create encoders, which have the same body. */
  function EncodeMtime(s: u64): Stamp {
    var t := ClampSecs(s);
    Packed(t, if t % 2 != 0 then 100 else 0, TZ_VALID)
  }

  /** The access time has no hundredths field on disk; zero stands for it, as the reader passes. */
  function EncodeAtime(s: u64): Stamp {
    Packed(TruncateAtime(ClampSecs(s)), 0, TZ_VALID)
  }

  function UnpackCivil(p: Stamp): Civil {
    Civil(Date(p.date / 512 + 1980, (p.date / 32) % 16, p.date % 32),
          p.time / 2048, (p.time / 32) % 64, (p.time % 32) * 2)
  }

  /** The decoder's own month table and leap-year rule. */
  function MaxDay(year: int, mon: int): int
    requires 1 <= mon <= 12
  {
    var table := [0, 31, 28, 31, 30, 31, 30, 31, 31, 30, 31, 30, 31];
    if mon == 2 && ((year % 4 == 0 && year % 100 != 0) || year % 400 == 0) then 29 else table[mon]
  }

  predicate Accepts(c: Civil) {
    && 1 <= c.date.mon <= 12 && 1 <= c.date.mday <= MaxDay(c.date.year, c.date.mon)
    && c.hour <= 23 && c.min <= 59 && c.sec <= 59
  }

  function Offset7(tz: byte): int {
    var off7 := tz % 128;
    if off7 >= 64 then off7 - 128 else off7
  }

  /** exfat_decode_entry_time; `timeOffset` is the mount option, in minutes. */
  function Decode(p: Stamp, timeOffset: int): (r: nat)
    ensures MIN_TIMESTAMP <= r <= MAX_TIMESTAMP
  {
    var c := UnpackCivil(p);
    if !Accepts(c) then MIN_TIMESTAMP
    else
      var s0 := SecondsFromCivil(c);
      var s1 := s0 + if 0 < p.cs < 200 then p.cs / 100 else 0;
      var s := s1 - if p.tz >= TZ_VALID then Offset7(p.tz) * 900 else timeOffset * 60;
      if s < MIN_TIMESTAMP then MIN_TIMESTAMP
      else if s > MAX_TIMESTAMP then MAX_TIMESTAMP
      else s
  }

  /** The decoder accepts exactly the days of the calendar. */
  lemma AcceptsIsValid(c: Civil)
    requires 0 <= c.hour && 0 <= c.min && 0 <= c.sec
    ensures Accepts(c) <==> ValidCivil(c)
  {
  }

  lemma YearEnds()
    ensures WideDateOfDay(MIN_TIMESTAMP / SECS_PER_DAY).year == 1980
    ensures WideDateOfDay(MAX_TIMESTAMP / SECS_PER_DAY).year == 2107
  {
    hide WideDateOfDay, MonthStart;
    DayAtPosition(3652, 4, 3, 19, 3, 306);
    DayAtPosition(50402, 5, 1, 1, 3, 305);
  }

  /** Every clamped time falls in the years a date word can hold. */
  lemma ClampedYear(t: nat)
    requires MIN_TIMESTAMP <= t <= MAX_TIMESTAMP
    ensures 1980 <= CivilFromSeconds(t).date.year <= 2107
    ensures ValidCivil(CivilFromSeconds(t))
  {
    hide WideDateOfDay, SecondsFromCivil, ValidDate;
    CivilRoundTripInRange(t);
    YearEnds();
    YearMonotone(MIN_TIMESTAMP / SECS_PER_DAY, t / SECS_PER_DAY);
    YearMonotone(t / SECS_PER_DAY, MAX_TIMESTAMP / SECS_PER_DAY);
  }

  lemma DateDigits(y: int, m: int, d: int)
    requires 0 <= y < 128 && 0 <= m < 16 && 0 <= d < 32
    ensures var w := y * 512 + m * 32 + d; w / 512 == y && (w / 32) % 16 == m && w % 32 == d
  {
    assert (y * 512 + m * 32 + d) / 32 == y * 16 + m;
  }

  lemma TimeDigits(h: int, m: int, x: int)
    requires 0 <= h < 32 && 0 <= m < 64 && 0 <= x < 32
    ensures var w := h * 2048 + m * 32 + x; w / 2048 == h && (w / 32) % 64 == m && w % 32 == x
  {
    assert (h * 2048 + m * 32 + x) / 32 == h * 64 + m;
  }

  /** Unpacking a packed civil time loses only the odd second. */
  lemma UnpackPack(c: Civil, cs: byte, tz: byte)
    requires ValidCivil(c) && 1980 <= c.date.year <= 2107
    requires 1 <= c.date.mon <= 12 && 1 <= c.date.mday <= 31
    ensures UnpackCivil(Stamp(PackDate(c.date), PackTime(c), cs, tz)) == c.(sec := c.sec - c.sec % 2)
  {
    hide ValidDate;
    DateDigits(c.date.year - 1980, c.date.mon, c.date.mday);
    TimeDigits(c.hour, c.min, c.sec / 2);
  }

  lemma EvenSeconds(c: Civil, t: int)
    requires ValidCivil(c) && SecondsFromCivil(c) == t
    ensures SecondsFromCivil(c.(sec := c.sec - c.sec % 2)) == t - t % 2
  {
    hide DayOfDate, ValidDate;
    var days := DayOfDate(c.date);
    Parity((if days < 0 then 0 else days) * 43200 + c.hour * 1800 + c.min * 30, c.sec);
  }

  lemma Parity(half: int, sec: int)
    ensures (2 * half + sec) % 2 == sec % 2
  {
  }

  /** The second that the hundredths carry. */
  function Carried(cs: byte): nat { if 100 <= cs < 200 then 1 else 0 }

  /** What the decoder makes of the packed form of an accepted civil time; `ahead` is how far its zone is
      ahead of UTC. */
  lemma DecodeParts(p: Stamp, c: Civil, timeOffset: int, ahead: int)
    requires UnpackCivil(p) == c && Accepts(c) && Ahead(p.tz, timeOffset, ahead)
    ensures Decode(p, timeOffset) == ClampSecs(SecondsFromCivil(c) + Carried(p.cs) - ahead)
  {
    hide UnpackCivil, Accepts, SecondsFromCivil;
  }

  /** A valid zone byte counts quarters of an hour as a signed number of seven bits; without one the zone is
      that of the mount. */
  predicate Ahead(tz: byte, timeOffset: int, ahead: int) {
    if tz < 0x80 then ahead == 60 * timeOffset
    else exists o: int :: -64 <= o < 64 && ahead == 900 * o && tz as int == if o >= 0 then 0x80 + o else 0x100 + o
  }

  lemma EvenAccepted(c: Civil)
    requires ValidCivil(c)
    ensures Accepts(c.(sec := c.sec - c.sec % 2))
  {
    hide ValidDate, Accepts;
    AcceptsIsValid(c.(sec := c.sec - c.sec % 2));
  }

  lemma DecodePacked(t: nat, cs: byte, tz: byte, timeOffset: int, ahead: int)
    requires MIN_TIMESTAMP <= t <= MAX_TIMESTAMP && Ahead(tz, timeOffset, ahead)
    ensures Decode(Packed(t, cs, tz), timeOffset) == ClampSecs(t - t % 2 + Carried(cs) - ahead)
  {
    hide CivilFromSeconds, SecondsFromCivil, PackDate, PackTime, UnpackCivil, Accepts, ValidDate, Decode, Ahead;
    var c := CivilFromSeconds(t);
    CivilRoundTripInRange(t);
    ClampedYear(t);
    DateRange(c.date);
    UnpackPack(c, cs, tz);
    EvenSeconds(c, t);
    EvenAccepted(c);
    DecodeParts(Packed(t, cs, tz), c.(sec := c.sec - c.sec % 2), timeOffset, ahead);
  }

  /** A zone that is a whole number of double seconds ahead keeps the odd second where it is. */
  lemma DecodeShifted(t: int, half: int, cs: byte, tz: byte, timeOffset: int)
    requires MIN_TIMESTAMP <= t + 2 * half <= MAX_TIMESTAMP && Ahead(tz, timeOffset, 2 * half)
    ensures Decode(Packed(t + 2 * half, cs, tz), timeOffset) == ClampSecs(t - t % 2 + Carried(cs))
  {
    hide Decode, Packed, Ahead, Carried, ClampSecs;
    Parity(half, t);
    DecodePacked(t + 2 * half, cs, tz, timeOffset, 2 * half);
  }

  /** Stamps of other systems: local time o quarters of an hour ahead of UTC, marked as such, is decoded to the
      same instant, the odd second being the one the hundredths carry, whatever the mount's time offset. */
  lemma ZonedStamp(t: int, o: int, cs: byte, timeOffset: int)
    requires -64 <= o < 64 && MIN_TIMESTAMP <= t + 900 * o <= MAX_TIMESTAMP
    ensures var tz := if o >= 0 then 0x80 + o else 0x100 + o;
            && Decode(Packed(t + 900 * o, cs, tz), timeOffset) == ClampSecs(t - t % 2 + if 100 <= cs < 200 then 1 else 0)
            && (MIN_TIMESTAMP <= t <= MAX_TIMESTAMP ==> Decode(Packed(t + 900 * o, 100 * (t % 2), tz), timeOffset) == t)
  {
    hide Decode, Packed;
    var tz := if o >= 0 then 0x80 + o else 0x100 + o;
    DecodeShifted(t, 450 * o, cs, tz, timeOffset);
    DecodeShifted(t, 450 * o, 100 * (t % 2), tz, timeOffset);
  }

  /** A stamp without a zone is local time of the mount, whose offset is in minutes. */
  lemma UnzonedStamp(t: int, tz: byte, cs: byte, timeOffset: int)
    requires tz < 0x80 && MIN_TIMESTAMP <= t + 60 * timeOffset <= MAX_TIMESTAMP
    ensures Decode(Packed(t + 60 * timeOffset, cs, tz), timeOffset) == ClampSecs(t - t % 2 + if 100 <= cs < 200 then 1 else 0)
    ensures MIN_TIMESTAMP <= t <= MAX_TIMESTAMP ==> Decode(Packed(t + 60 * timeOffset, 100 * (t % 2), tz), timeOffset) == t
  {
    hide Decode, Packed;
    DecodeShifted(t, 30 * timeOffset, cs, tz, timeOffset);
    DecodeShifted(t, 30 * timeOffset, 100 * (t % 2), tz, timeOffset);
  }

  /** Whatever a stamp holds, if it is no time of the calendar, the earliest one is put in its place; and a time
      of the calendar is the packed form of some second, so the two lemmas above cover every stamp. */
  lemma EveryStamp(p: Stamp, timeOffset: int)
    ensures !ValidCivil(UnpackCivil(p)) ==> Decode(p, timeOffset) == MIN_TIMESTAMP
    ensures ValidCivil(UnpackCivil(p)) ==> exists t: nat :: MIN_TIMESTAMP <= t <= MAX_TIMESTAMP && p == Packed(t, p.cs, p.tz)
  {
    hide CivilFromSeconds, SecondsFromCivil, UnpackCivil, Accepts, ValidDate, PackDate, PackTime;
    var c := UnpackCivil(p);
    Unsigned(p);
    AcceptsIsValid(c);
    if ValidCivil(c) {
      PackUnpack(p);
      StampInRange(c);
      CivilRoundTripBack(c);
      assert p == Packed(SecondsFromCivil(c), p.cs, p.tz);
    }
  }

  lemma Unsigned(p: Stamp)
    ensures var c := UnpackCivil(p); 0 <= c.hour && 0 <= c.min && 0 <= c.sec
  {
  }

  /** Modify and create times survive the disk format to the second, for every input: what comes back
      is the clamped time, whatever the mount's time offset. */
  lemma MtimeRoundTrip(s: u64, timeOffset: int)
    ensures Decode(EncodeMtime(s), timeOffset) == ClampSecs(s)
  {
    hide Decode, Packed;
    var t := ClampSecs(s);
    ZonedStamp(t, 0, 0, timeOffset);
  }

  lemma EvenInRange(t: nat)
    requires MIN_TIMESTAMP <= t <= MAX_TIMESTAMP
    ensures MIN_TIMESTAMP <= TruncateAtime(t) <= MAX_TIMESTAMP
    ensures TruncateAtime(t) % 2 == 0
  {
  }

  /** Access times come back rounded down to an even second. */
  lemma AtimeRoundTrip(s: u64, timeOffset: int)
    ensures Decode(EncodeAtime(s), timeOffset) == TruncateAtime(ClampSecs(s))
  {
    hide Decode, Packed, TruncateAtime;
    EvenInRange(ClampSecs(s));
    ZonedStamp(TruncateAtime(ClampSecs(s)), 0, 0, timeOffset);
  }

  /** A stamp as this driver writes it: a real date, hundredths 0 or 100, zone UTC. */
  predicate Canonical(p: Stamp) {
    Accepts(UnpackCivil(p)) && (p.cs == 0 || p.cs == 100) && p.tz == TZ_VALID
  }

  lemma PackUnpack(p: Stamp)
    requires Accepts(UnpackCivil(p))
    ensures var c := UnpackCivil(p);
            1980 <= c.date.year <= 2107 && 1 <= c.date.mon <= 12 && 1 <= c.date.mday <= 31
            && 0 <= c.hour < 24 && 0 <= c.min < 60 && 0 <= c.sec < 59
            && forall x | x == c.sec || x == c.sec + 1 :: PackDate(c.date) == p.date && PackTime(c.(sec := x)) == p.time
  {
    DateFields(p.date);
    TimeFields(p.time);
  }

  /** A date word and a time word are made of their fields. */
  lemma DateFields(x: nat)
    ensures x == 512 * (x / 512) + 32 * ((x / 32) % 16) + x % 32
  {
    var q, r := x / 32, x % 32;
    DivModUnique(x, 512, q / 16, 32 * (q % 16) + r);
  }

  lemma TimeFields(x: nat)
    ensures x == 2048 * (x / 2048) + 32 * ((x / 32) % 64) + x % 32
  {
    var q, r := x / 32, x % 32;
    DivModUnique(x, 2048, q / 64, 32 * (q % 64) + r);
  }

  lemma StampInRange(c: Civil)
    requires ValidCivil(c) && 1980 <= c.date.year <= 2107
    ensures MIN_TIMESTAMP <= SecondsFromCivil(c) <= MAX_TIMESTAMP
  {
    hide WideDateOfDay, SecondsFromCivil, ValidDate;
    CivilRoundTripBack(c);
    var s := SecondsFromCivil(c);
    CivilRoundTripInRange(s);
    YearEnds();
    if s < MIN_TIMESTAMP {
      YearMonotone(s / SECS_PER_DAY, MIN_TIMESTAMP / SECS_PER_DAY);
      BeforeMin(s / SECS_PER_DAY);
      assert false;
    }
    if s > MAX_TIMESTAMP {
      BeyondMax(s / SECS_PER_DAY);
      assert false;
    }
  }

  lemma BeforeMin(days: nat)
    requires days < MIN_TIMESTAMP / SECS_PER_DAY
    ensures WideDateOfDay(days).year < 1980
  {
    hide WideDateOfDay;
    Boundaries();
    YearMonotone(days, MIN_TIMESTAMP / SECS_PER_DAY - 1);
  }

  lemma BeyondMax(days: nat)
    requires days > MAX_TIMESTAMP / SECS_PER_DAY
    ensures WideDateOfDay(days).year > 2107
  {
    hide WideDateOfDay;
    Boundaries();
    YearMonotone(MAX_TIMESTAMP / SECS_PER_DAY + 1, days);
  }

  lemma Boundaries()
    ensures WideDateOfDay(MIN_TIMESTAMP / SECS_PER_DAY - 1).year == 1979
    ensures WideDateOfDay(MAX_TIMESTAMP / SECS_PER_DAY + 1).year == 2108
  {
    hide WideDateOfDay, MonthStart;
    DayAtPosition(3651, 4, 3, 19, 3, 305);
    DayAtPosition(50403, 5, 1, 1, 3, 306);
  }

  /** Loading a stamp and storing it again writes back the same four fields. */
  lemma StampRoundTrip(p: Stamp, timeOffset: int)
    requires Canonical(p)
    ensures EncodeMtime(Decode(p, timeOffset)) == p
  {
    hide CivilFromSeconds, SecondsFromCivil, UnpackCivil, Accepts, ValidDate, PackDate, PackTime;
    var c := UnpackCivil(p);
    PackUnpack(p);
    AcceptsIsValid(c);
    var full := c.(sec := c.sec + p.cs / 100);
    OddSecond(p, c, full);
    StampInRange(full);
    StampInRange(c);
    CivilRoundTripBack(full);
  }

  lemma OddSecond(p: Stamp, c: Civil, full: Civil)
    requires Canonical(p) && c == UnpackCivil(p) && full == c.(sec := c.sec + p.cs / 100)
    ensures ValidCivil(c) ==> ValidCivil(full)
    ensures SecondsFromCivil(full) == SecondsFromCivil(c) + p.cs / 100
    ensures SecondsFromCivil(full) % 2 == p.cs / 100
  {
    hide DayOfDate, ValidDate, MaxDay;
    var days := if DayOfDate(c.date) < 0 then 0 else DayOfDate(c.date);
    DivModUnique(SecondsFromCivil(full), 2, 43200 * days + 1800 * c.hour + 30 * c.min + p.time % 32, p.cs / 100);
  }
}
