/** The per-record part of `annotate_with_utc_hour_minute`: the `offset`,
    `utc_hour` and `utc_minute` annotations of one schedule, computed from its
    timezone name and its hour and minute fields.

    Division and remainder are Dafny's Euclidean `/` and `%`; with the positive
    divisors 3600, 60 and 24 they are floor division and a non-negative
    remainder. */
module Normalizer {

  import opened Wrappers
  import opened Decimal
  import opened OffsetCatalog

  // ---------------------------------------------------------------------
  // Offset lookup
  // ---------------------------------------------------------------------

  /** The `offset` annotation as written: one `When` clause per catalog key,
      in key order, the first clause whose key equals the timezone name wins
      and yields `offsets.get(key, 0)`; when none does, the default is 0.
      Since the winning key is the name itself, the chain yields the name's
      value when it is a key with a value, and 0 otherwise. */
  function OffsetCase(keys: seq<string>, offsets: map<string, int>, tz: string): (r: int)
    ensures r == if tz in keys && tz in offsets then offsets[tz] else 0
    decreases |keys|
  {
    if keys == [] then 0
    else if tz == keys[0] then (if keys[0] in offsets then offsets[keys[0]] else 0)
    else OffsetCase(keys[1..], offsets, tz)
  }

  /** A plain dictionary lookup with default 0: an unknown timezone is
      treated as UTC. */
  function LookupOffset(c: Catalog, tz: string): int {
    if tz in c.offsets then c.offsets[tz] else 0
  }

  /** The `When` chain over the catalog's keys is the catalog lookup: a known
      name gets its catalog offset, any other name gets 0. */
  lemma OffsetCaseIsLookup(c: Catalog, tz: string)
    requires c.Valid()
    ensures OffsetCase(c.names, c.offsets, tz) == LookupOffset(c, tz)
    ensures tz in c.offsets ==> OffsetCase(c.names, c.offsets, tz) == c.offsets[tz]
    ensures tz !in c.offsets ==> OffsetCase(c.names, c.offsets, tz) == 0
  {
  }

  // ---------------------------------------------------------------------
  // Hour and minute
  // ---------------------------------------------------------------------

  /** `Floor(offset / 3600)`: the offset in whole hours, rounded down. */
  function HourShift(offset: int): (q: int)
    ensures 3600 * q <= offset < 3600 * q + 3600
  {
    offset / 3600
  }

  /** `Floor(Mod(offset, 3600) / 60)`: the whole minutes of the offset left
      over once the whole hours are taken out. */
  function MinuteShift(offset: int): (d: nat)
    ensures d < 60
  {
    (offset % 3600) / 60
  }

  /** The two shifts are the offset's hours and minutes: together they lose
      only its leftover seconds, and nothing is carried between them. */
  lemma OffsetDecomposition(offset: int)
    ensures offset == 3600 * HourShift(offset) + 60 * MinuteShift(offset) + offset % 60
    ensures offset / 60 == 60 * HourShift(offset) + MinuteShift(offset)
  {
    var q, r := offset / 3600, offset % 3600;
    var a, b := r / 60, r % 60;
    assert offset == 60 * (60 * q + a) + b;
    DivModUnique(offset, 60, 60 * q + a, b);
  }

  /** The value of the `utc_hour` annotation for a fixed hour `h`:
      `(h - Floor(offset / 3600)) mod 24`, an hour of the day. */
  function ShiftedHour(h: int, offset: int): (v: nat)
    ensures v < 24
  {
    (h - HourShift(offset)) % 24
  }

  /** The value of the `utc_minute` annotation for a fixed minute `m`:
      `m - Floor(Mod(offset, 3600) / 60)`, not reduced modulo 60. */
  function ShiftedMinute(m: int, offset: int): (v: int)
    ensures m - 59 <= v <= m
  {
    m - MinuteShift(offset)
  }

  /** A variant that is not the source's: the shifted minute reduced
      modulo 60. */
  function ReducedMinute(m: int, offset: int): (v: nat)
    ensures v < 60
  {
    (m - MinuteShift(offset)) % 60
  }

  /** The `utc_hour` annotation: a fixed hour is shifted by the offset's whole
      hours modulo 24 and cast back to text; any other field (a wildcard, a
      step, a range, a list) is passed through verbatim. */
  function UtcHour(hour: string, offset: int): (r: string)
    ensures !IsAllDigits(hour) ==> r == hour
    ensures IsAllDigits(hour) ==> IsCanonical(r)
  {
    if IsAllDigits(hour) then NatToDecimal(ShiftedHour(DecimalValue(hour), offset))
    else hour
  }

  /** The `utc_minute` annotation as the source writes it: a fixed minute is
      shifted by the offset's leftover minutes, with no reduction modulo 60,
      and cast back to text; any other field is passed through verbatim. */
  function UtcMinute(minute: string, offset: int): (r: string)
    ensures !IsAllDigits(minute) ==> r == minute
    ensures IsAllDigits(minute) ==> ParseInteger(r).Some?
  {
    if IsAllDigits(minute) then
      var v := ShiftedMinute(DecimalValue(minute), offset);
      IntToDecimalRoundTrip(v);
      IntToDecimal(v)
    else minute
  }

  /** The `utc_minute` annotation with the minute reduced modulo 60. */
  function UtcMinuteReduced(minute: string, offset: int): (r: string)
    ensures !IsAllDigits(minute) ==> r == minute
    ensures IsAllDigits(minute) ==> IsCanonical(r)
  {
    if IsAllDigits(minute) then NatToDecimal(ReducedMinute(DecimalValue(minute), offset))
    else minute
  }

  // ---------------------------------------------------------------------
  // The shifted values
  // ---------------------------------------------------------------------

  /** Moving the shifted hour back by the offset's whole hours gives the
      local hour again, modulo 24. */
  lemma ShiftedHourUndone(h: int, offset: int)
    ensures (ShiftedHour(h, offset) + HourShift(offset)) % 24 == h % 24
  {
    ModShiftBack(h, HourShift(offset), ShiftedHour(h, offset));
  }

  /** Moving the shifted minute back by the offset's leftover minutes gives
      the local minute again, exactly for the source's minute and modulo 60
      for the reduced one. */
  lemma ShiftedMinuteUndone(m: int, offset: int)
    ensures ShiftedMinute(m, offset) + MinuteShift(offset) == m
    ensures ShiftedMinute(m, offset) >= 0 <==> m >= MinuteShift(offset)
    ensures (ReducedMinute(m, offset) + MinuteShift(offset) - m) % 60 == 0
  {
    var x := m - MinuteShift(offset);
    var j := x / 60;
    assert x == 60 * j + ReducedMinute(m, offset);
    DivModUnique(ReducedMinute(m, offset) + MinuteShift(offset) - m, 60, -j, 0);
  }

  /** A whole-hour offset and its opposite cancel on the hour. */
  lemma ShiftedHourRoundTrip(h: int, offset: int)
    requires offset % 3600 == 0
    ensures ShiftedHour(ShiftedHour(h, offset), -offset) == h % 24
  {
    var q, v := HourShift(offset), ShiftedHour(h, offset);
    NegatedWholeHours(offset);
    assert v - HourShift(-offset) == v + q;
    ModShiftBack(h, q, v);
  }

  /** A whole-hour offset has no leftover minutes, so the minute keeps its
      value. */
  lemma WholeHourMinute(m: int, offset: int)
    requires offset % 3600 == 0
    ensures MinuteShift(offset) == 0
    ensures ShiftedMinute(m, offset) == m
  {
  }

  // ---------------------------------------------------------------------
  // The annotations as text
  // ---------------------------------------------------------------------

  /** A fixed hour yields the canonical text of its shifted hour. */
  lemma UtcHourRange(hour: string, offset: int)
    requires IsAllDigits(hour)
    ensures IsCanonical(UtcHour(hour, offset))
    ensures DecimalValue(UtcHour(hour, offset)) == ShiftedHour(DecimalValue(hour), offset)
    ensures DecimalValue(UtcHour(hour, offset)) < 24
    ensures (DecimalValue(UtcHour(hour, offset)) + HourShift(offset)) % 24 == DecimalValue(hour) % 24
  {
    var h := DecimalValue(hour);
    NatToDecimalRoundTrip(ShiftedHour(h, offset));
    ShiftedHourUndone(h, offset);
  }

  /** A fixed minute `m` yields the text of an integer in [m - 59, m] which,
      moved back by the offset's leftover minutes, is `m` again; the text is
      a fixed field exactly when `m` is at least the leftover minutes. */
  lemma UtcMinuteRange(minute: string, offset: int)
    requires IsAllDigits(minute)
    ensures ParseInteger(UtcMinute(minute, offset)) == Some(ShiftedMinute(DecimalValue(minute), offset))
    ensures var v := ParseInteger(UtcMinute(minute, offset)).value;
            && DecimalValue(minute) - 59 <= v <= DecimalValue(minute)
            && v + MinuteShift(offset) == DecimalValue(minute)
    ensures IsAllDigits(UtcMinute(minute, offset)) <==> DecimalValue(minute) >= MinuteShift(offset)
  {
    var m := DecimalValue(minute);
    var v := ShiftedMinute(m, offset);
    IntToDecimalRoundTrip(v);
    ShiftedMinuteUndone(m, offset);
  }

  /** The reduced minute is the canonical text of a minute of the hour
      which, moved back by the offset's leftover minutes, is `m` again
      modulo 60. */
  lemma UtcMinuteReducedRange(minute: string, offset: int)
    requires IsAllDigits(minute)
    ensures IsCanonical(UtcMinuteReduced(minute, offset))
    ensures DecimalValue(UtcMinuteReduced(minute, offset)) == ReducedMinute(DecimalValue(minute), offset)
    ensures DecimalValue(UtcMinuteReduced(minute, offset)) < 60
    ensures (DecimalValue(UtcMinuteReduced(minute, offset)) + MinuteShift(offset) - DecimalValue(minute)) % 60 == 0
  {
    var m := DecimalValue(minute);
    NatToDecimalRoundTrip(ReducedMinute(m, offset));
    ShiftedMinuteUndone(m, offset);
  }

  // ---------------------------------------------------------------------
  // Properties of the hour and minute annotations
  // ---------------------------------------------------------------------

  /** The hour depends on the offset only through its whole hours, the
      minute only through its remainder below an hour. */
  lemma Independence(hour: string, minute: string, o1: int, o2: int)
    ensures HourShift(o1) == HourShift(o2) ==> UtcHour(hour, o1) == UtcHour(hour, o2)
    ensures o1 % 3600 == o2 % 3600 ==> UtcMinute(minute, o1) == UtcMinute(minute, o2)
  {
  }

  /** A whole-hour offset leaves a fixed minute's value untouched (a
      canonical minute comes back as the same text). */
  lemma WholeHourOffsetKeepsMinute(minute: string, offset: int)
    requires IsAllDigits(minute) && offset % 3600 == 0
    ensures UtcMinute(minute, offset) == NatToDecimal(DecimalValue(minute))
    ensures IsCanonical(minute) ==> UtcMinute(minute, offset) == minute
  {
    var m := DecimalValue(minute);
    WholeHourMinute(m, offset);
    assert UtcMinute(minute, offset) == IntToDecimal(m);
    if IsCanonical(minute) {
      DecimalValueRoundTrip(minute);
    }
  }

  /** With offset 0 a fixed hour below 24 maps to itself (a canonical hour
      comes back as the same text), and so does every fixed minute. */
  lemma ZeroOffsetIdentity(hour: string, minute: string)
    requires IsAllDigits(hour) && DecimalValue(hour) < 24 && IsAllDigits(minute)
    ensures UtcHour(hour, 0) == NatToDecimal(DecimalValue(hour))
    ensures IsCanonical(hour) ==> UtcHour(hour, 0) == hour
    ensures UtcMinute(minute, 0) == NatToDecimal(DecimalValue(minute))
    ensures IsCanonical(minute) ==> UtcMinute(minute, 0) == minute
  {
    var h := DecimalValue(hour);
    assert ShiftedHour(h, 0) == h;
    if IsCanonical(hour) {
      DecimalValueRoundTrip(hour);
    }
    WholeHourOffsetKeepsMinute(minute, 0);
  }

  /** Normalising a fixed hour with a whole-hour offset and then with the
      opposite offset gives the hour back, modulo 24. */
  lemma HourRoundTrip(hour: string, offset: int)
    requires IsAllDigits(hour) && offset % 3600 == 0
    ensures UtcHour(UtcHour(hour, offset), -offset) == NatToDecimal(DecimalValue(hour) % 24)
  {
    var h := DecimalValue(hour);
    UtcHourRange(hour, offset);
    ShiftedHourRoundTrip(h, offset);
  }

  /** Negating a whole-hour offset negates its hour shift. */
  lemma NegatedWholeHours(offset: int)
    requires offset % 3600 == 0
    ensures HourShift(-offset) == -HourShift(offset)
  {
    var q := offset / 3600;
    assert offset == 3600 * q;
    DivModUnique(-offset, 3600, -q, 0);
  }

  /** An offset of UTC+5:30 turns the fixed minute "0" into "-30", which
      names no minute of the hour. */
  lemma MinuteCanBeNegative()
    ensures UtcMinute("0", 19800) == "-30"
    ensures !IsAllDigits(UtcMinute("0", 19800))
  {
    assert IsAllDigits("0") && DecimalValue("0") == 0;
    assert MinuteShift(19800) == 30;
    assert NatToDecimal(30) == NatToDecimal(3) + [DigitChar(0)];
  }

  // ---------------------------------------------------------------------
  // Field-wise normalisation against a single combined shift
  // ---------------------------------------------------------------------

  /** A reference that is not the source's arithmetic: the local time of day
      `h:m` shifted by the whole offset at once, in minutes rounded down, so
      that a minute borrow reaches the hour. */
  function CombinedUtc(h: nat, m: nat, offset: int): (r: (nat, nat))
    ensures r.0 < 24 && r.1 < 60
  {
    var t := (60 * h + m - offset / 60) % 1440;
    (t / 60, t % 60)
  }

  /** The combined shift is the field-wise one plus the borrow the field-wise
      one drops: its minute is the reduced minute, its hour the hour shifted
      by the whole hours and by the minute borrow. */
  lemma CombinedSplit(h: nat, m: nat, offset: int)
    ensures CombinedUtc(h, m, offset) ==
              ((h - HourShift(offset) + (m - MinuteShift(offset)) / 60) % 24,
               ReducedMinute(m, offset))
  {
    var k := h - HourShift(offset) + (m - MinuteShift(offset)) / 60;
    var s := ReducedMinute(m, offset);
    OffsetDecomposition(offset);
    assert m - MinuteShift(offset) == 60 * ((m - MinuteShift(offset)) / 60) + s;
    assert 60 * h + m - offset / 60 == 60 * k + s;
    TimeOfDay(k, s);
  }

  /** For a minute of the hour, the combined hour is the shifted hour less
      the borrow: one hour when the minute is below the offset's leftover
      minutes, none otherwise. */
  lemma CombinedHour(h: nat, m: nat, offset: int)
    requires m < 60
    ensures CombinedUtc(h, m, offset).0 ==
              (ShiftedHour(h, offset) - (if m < MinuteShift(offset) then 1 else 0)) % 24
  {
    var a, q := MinuteShift(offset), HourShift(offset);
    CombinedSplit(h, m, offset);
    if m < a {
      DivModUnique(m - a, 60, -1, m - a + 60);
      ModShiftBack(h - q - 1, -1, ShiftedHour(h, offset));
    } else {
      DivModUnique(m - a, 60, 0, m - a);
    }
  }

  /** The reduced minute is the minute of the combined shift, for every
      fixed minute and every offset. */
  lemma ReducedMinuteIsCombinedMinute(h: nat, minute: string, offset: int)
    requires IsAllDigits(minute)
    ensures DecimalValue(UtcMinuteReduced(minute, offset)) == CombinedUtc(h, DecimalValue(minute), offset).1
  {
    UtcMinuteReducedRange(minute, offset);
    CombinedSplit(h, DecimalValue(minute), offset);
  }

  /** For a minute of the hour, the source's hour differs from the combined
      shift's hour by exactly the borrow. */
  lemma HourMissesBorrow(hour: string, m: nat, offset: int)
    requires IsAllDigits(hour) && m < 60
    ensures CombinedUtc(DecimalValue(hour), m, offset).0 ==
              (DecimalValue(UtcHour(hour, offset)) - (if m < MinuteShift(offset) then 1 else 0)) % 24
  {
    UtcHourRange(hour, offset);
    CombinedHour(DecimalValue(hour), m, offset);
  }

  /** For a whole-hour offset and a minute of the hour there is no borrow:
      the combined shift is the shifted hour and the unchanged minute. */
  lemma WholeHourCombined(h: nat, m: nat, offset: int)
    requires m < 60 && offset % 3600 == 0
    ensures CombinedUtc(h, m, offset) == (ShiftedHour(h, offset), m)
  {
    WholeHourMinute(m, offset);
    CombinedHour(h, m, offset);
    CombinedSplit(h, m, offset);
    DivModUnique(m, 60, 0, m);
  }

  /** For whole-hour offsets and fixed fields naming a minute of the hour,
      the source's field-wise result is the combined shift. */
  lemma WholeHourOffsetsAgree(hour: string, minute: string, offset: int)
    requires IsAllDigits(hour) && IsAllDigits(minute) && DecimalValue(minute) < 60
    requires offset % 3600 == 0
    ensures var r := CombinedUtc(DecimalValue(hour), DecimalValue(minute), offset);
            UtcHour(hour, offset) == NatToDecimal(r.0) && UtcMinute(minute, offset) == NatToDecimal(r.1)
  {
    WholeHourCombined(DecimalValue(hour), DecimalValue(minute), offset);
    WholeHourOffsetKeepsMinute(minute, offset);
  }

  /** New York at UTC-5: 09:30 local is 14:30 UTC. */
  lemma NewYorkScenario()
    ensures UtcHour("9", -18000) == "14" && UtcMinute("30", -18000) == "30"
  {
    assert IsAllDigits("9") && DecimalValue("9") == 9;
    assert "30"[..1] == "3";
    assert IsAllDigits("30") && DecimalValue("30") == 30;
    assert HourShift(-18000) == -5 && MinuteShift(-18000) == 0;
    assert NatToDecimal(14) == NatToDecimal(1) + [DigitChar(4)];
    assert NatToDecimal(30) == NatToDecimal(3) + [DigitChar(0)];
  }

  /** Kolkata at UTC+5:30: 09:00 local becomes hour "4" and minute "-30" in
      the source, the reduced minute is "30", and the combined shift gives
      03:30, the actual UTC time. */
  lemma KolkataScenario()
    ensures UtcHour("9", 19800) == "4" && UtcMinute("0", 19800) == "-30"
    ensures UtcMinuteReduced("0", 19800) == "30"
    ensures CombinedUtc(9, 0, 19800) == (3, 30)
  {
    assert IsAllDigits("9") && DecimalValue("9") == 9;
    assert HourShift(19800) == 5;
    MinuteCanBeNegative();
    assert NatToDecimal(30) == NatToDecimal(3) + [DigitChar(0)];
  }

  // ---------------------------------------------------------------------
  // Arithmetic helpers
  // ---------------------------------------------------------------------

  lemma DivModUnique(x: int, d: int, q: int, r: int)
    requires d > 0 && 0 <= r < d && x == d * q + r
    ensures x / d == q && x % d == r
  {
    var q', r' := x / d, x % d;
    assert d * (q' - q) == r - r';
    if q' != q {
      MulAwayFromZero(d, q' - q);
    }
  }

  lemma MulAwayFromZero(d: int, n: int)
    requires d > 0 && n != 0
    ensures d * n >= d || d * n <= -d
  {
    if n > 0 {
      MulAtLeast(d, n);
    } else {
      MulAtLeast(d, -n);
      assert d * n == -(d * (-n));
    }
  }

  lemma {:induction false} MulAtLeast(d: int, n: int)
    requires d > 0 && n > 0
    ensures d * n >= d
    decreases n
  {
    if n > 1 {
      MulAtLeast(d, n - 1);
      assert d * n == d * (n - 1) + d;
    }
  }

  /** Undoing a shift modulo 24. */
  lemma ModShiftBack(x: int, q: int, v: int)
    requires v == (x - q) % 24
    ensures (v + q) % 24 == x % 24
  {
    var j := (x - q) / 24;
    assert x - q == 24 * j + v;
    assert v + q == 24 * (x / 24 - j) + x % 24;
    DivModUnique(v + q, 24, x / 24 - j, x % 24);
  }

  /** `k` hours and `s` minutes, taken modulo a day, split back into hour of
      the day and minute of the hour. */
  lemma TimeOfDay(k: int, s: nat)
    requires s < 60
    ensures (60 * k + s) % 1440 == 60 * (k % 24) + s
    ensures ((60 * k + s) % 1440) / 60 == k % 24 && ((60 * k + s) % 1440) % 60 == s
  {
    var j, v := k / 24, k % 24;
    assert 60 * k + s == 1440 * j + (60 * v + s);
    DivModUnique(60 * k + s, 1440, j, 60 * v + s);
    DivModUnique(60 * v + s, 60, v, s);
  }
}
