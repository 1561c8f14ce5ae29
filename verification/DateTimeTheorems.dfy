/** What src/time.rs promises about timestamps: the documented grammar is read with its documented
    meaning, printing then parsing loses only sub-millisecond precision, and nothing outside a
    stated set of readings is accepted. */
module DateTimeTheorems {
  import opened Wrappers
  import opened CheckedInt
  import opened Instants
  import opened Calendar
  import opened Text
  import opened DateTime

  // ---- Timestamps of the documented grammar ----

  datatype Zone = Unspecified | Utc | Offset(west: bool, hours: nat, minutes: nat)

  /** `YYYY-MM-DDTHH:MM:SS[.fff...][Z|+HH:MM|-HH:MM]` with every field in range. */
  datatype Stamp = Stamp(date: Civil, hour: nat, minute: nat, second: nat, fraction: Option<string>, zone: Zone)

  predicate WellFormed(st: Stamp) {
    && ValidDate(st.date) && 1 <= st.date.year <= 9999
    && st.hour <= 23 && st.minute <= 59 && st.second <= 60
    && (st.fraction.Some? ==> st.fraction.value != [] && AllDigits(st.fraction.value))
    && (st.zone.Offset? ==> st.zone.hours <= 14 && st.zone.minutes <= 59)
  }

  function DateText(c: Civil): string {
    Padded(c.year, 4) + "-" + Padded(c.month, 2) + "-" + Padded(c.day, 2)
  }

  function SecondText(st: Stamp): string {
    Padded(st.second, 2) + match st.fraction case None => "" case Some(f) => "." + f
  }

  function TimeText(st: Stamp): string {
    Padded(st.hour, 2) + ":" + Padded(st.minute, 2) + ":" + SecondText(st)
  }

  function ZoneText(z: Zone): string {
    match z
    case Unspecified => ""
    case Utc => "Z"
    case Offset(west, hh, mm) => (if west then "-" else "+") + Padded(hh, 2) + ":" + Padded(mm, 2)
  }

  function StampText(st: Stamp): string {
    DateText(st.date) + "T" + TimeText(st) + ZoneText(st.zone)
  }

  function ZoneSeconds(z: Zone): int {
    match z
    case Offset(west, hh, mm) => if west then -(hh * 3600 + mm * 60) else hh * 3600 + mm * 60
    case _ => 0
  }

  /** Nanoseconds of a decimal fraction, rounded down. */
  function FractionFloor(f: string): int
    requires AllDigits(f)
  {
    DigitsValue(f) * NANOS_PER_SEC / Pow10(|f|)
  }

  /** The instant a timestamp denotes; a leap second counts as the 59th. */
  function StampInstant(st: Stamp): int
    requires WellFormed(st)
  {
    var clamped := if st.second < 59 then st.second else 59;
    var secs := CalendarDay(st.date) * 86_400 + st.hour * 3600 + st.minute * 60 + clamped - ZoneSeconds(st.zone);
    secs * NANOS_PER_SEC + match st.fraction case None => 0 case Some(f) => FractionFloor(f)
  }

  // ---- Fractions ----

  lemma {:induction false} DigitsBelowPow10(s: string)
    requires AllDigits(s)
    ensures DigitsValue(s) < Pow10(|s|)
  {
    if s != [] { DigitsBelowPow10(s[..|s| - 1]); }
  }

  lemma TenTimes(a: int, b: int)
    ensures a * (10 * b) == 10 * (a * b)
  {
  }

  lemma {:induction false} DigitsAppend(a: string, b: string)
    requires AllDigits(a) && AllDigits(b)
    ensures AllDigits(a + b) && DigitsValue(a + b) == DigitsValue(a) * Pow10(|b|) + DigitsValue(b)
  {
    if b == [] {
      assert a + b == a;
    } else {
      var b' := b[..|b| - 1];
      DigitsAppend(a, b');
      assert (a + b)[..|a + b| - 1] == a + b';
      TenTimes(DigitsValue(a), Pow10(|b'|));
    }
  }

  lemma {:induction false} Pow10Sum(a: nat, b: nat)
    ensures Pow10(a + b) == Pow10(a) * Pow10(b)
  {
    if a > 0 {
      Pow10Sum(a - 1, b);
      TenTimes(Pow10(b), Pow10(a - 1));
    }
  }

  lemma {:induction false} ZerosValue(s: string)
    requires forall i :: 0 <= i < |s| ==> s[i] == '0'
    ensures AllDigits(s) && DigitsValue(s) == 0
  {
    if s != [] { ZerosValue(s[..|s| - 1]); }
  }

  lemma ScaledQuotient(v: int, p: int, q: int, n: int)
    requires q > 0 && p * q == n
    ensures v * n / q == v * p
  {
    assert v * n == v * (p * q) == (v * p) * q;
    QuotientUnique(v * n, q, v * p, 0);
  }

  lemma HeadQuotient(h: int, t: int, q: int, n: int)
    requires 0 <= t < q && n > 0
    ensures n * q > 0 && (h * q + t) * n / (n * q) == h
  {
    calc {
      (h * q + t) * n;
      h * q * n + t * n;
      h * (n * q) + t * n;
    }
    assert 0 <= t * n < q * n;
    QuotientUnique((h * q + t) * n, n * q, h, t * n);
  }

  lemma ShortFractionIsFloor(f: string)
    requires AllDigits(f) && |f| <= 9
    ensures FractionFloor(f) == DigitsValue(f) * Pow10(9 - |f|)
  {
    Pow10Sum(9 - |f|, |f|);
    assert Pow10(9) == NANOS_PER_SEC;
    ScaledQuotient(DigitsValue(f), Pow10(9 - |f|), Pow10(|f|), NANOS_PER_SEC);
  }

  lemma LongFractionIsFloor(head: string, tail: string)
    requires AllDigits(head) && AllDigits(tail) && |head| == 9
    ensures AllDigits(head + tail) && FractionFloor(head + tail) == DigitsValue(head)
  {
    DigitsAppend(head, tail);
    DigitsBelowPow10(tail);
    Pow10Sum(9, |tail|);
    assert Pow10(9) == NANOS_PER_SEC;
    HeadQuotient(DigitsValue(head), DigitsValue(tail), Pow10(|tail|), NANOS_PER_SEC);
  }

  /** A fraction of any length is read as its floor to nine digits. */
  lemma FractionIsFloor(f: string)
    ensures FractionNanos(f).Some? <==> f != [] && AllDigits(f)
    ensures FractionNanos(f).Some? ==> FractionNanos(f).value == FractionFloor(f) < NANOS_PER_SEC
  {
    if f != [] && AllDigits(f) {
      assert AllDigits(NineDigits(f));
      DigitsBelowPow10(NineDigits(f));
      assert Pow10(9) == NANOS_PER_SEC;
      if |f| <= 9 {
        var zeros := seq(9 - |f|, _ => '0');
        assert NineDigits(f) == f + zeros;
        ZerosValue(zeros);
        DigitsAppend(f, zeros);
        ShortFractionIsFloor(f);
      } else {
        assert NineDigits(f) == f[..9] && f == f[..9] + f[9..];
        LongFractionIsFloor(f[..9], f[9..]);
      }
    }
  }

  // ---- Reading back a rendered timestamp ----

  lemma DateTextParses(c: Civil)
    requires ValidDate(c) && 1 <= c.year <= 9999
    ensures var s := DateText(c);
            && ParseDate(s) == Some(c) && 'T' !in s && s != [] && IsDigit(s[0])
  {
    hide Padded, Split, ParseInt;
    var y, m, d := Padded(c.year, 4), Padded(c.month, 2), Padded(c.day, 2);
    PaddedParses(c.year, 4, I32_MIN, I32_MAX);
    PaddedParses(c.month, 2, 0, U32_MAX);
    PaddedParses(c.day, 2, 0, U32_MAX);
    SplitThree(y, m, d, '-');
  }

  lemma SecondTextParses(st: Stamp)
    requires WellFormed(st)
    ensures var s := SecondText(st);
            && ParseSeconds(s) == Some((st.second, match st.fraction case None => 0 case Some(f) => FractionFloor(f)))
            && (forall c :: c in s ==> IsDigit(c) || c == '.')
            && s != [] && IsDigit(s[|s| - 1])
  {
    hide Padded, Find, FractionNanos, FractionFloor, ParseInt;
    var w := Padded(st.second, 2);
    PaddedParses(st.second, 2, 0, U32_MAX);
    match st.fraction
    case None =>
      assert SecondText(st) == w;
    case Some(f) =>
      assert SecondText(st) == w + ['.'] + f;
      FindFirst(w, '.', f);
      FractionIsFloor(f);
      assert SecondText(st)[|w| + 1..] == f && SecondText(st)[..|w|] == w;
  }

  lemma TimeTextParses(st: Stamp)
    requires WellFormed(st)
    ensures var s := TimeText(st); var clamped := if st.second < 59 then st.second else 59;
            && ParseTimeOfDay(s) == Some((st.hour * 3600 + st.minute * 60 + clamped,
                                          match st.fraction case None => 0 case Some(f) => FractionFloor(f)))
            && (forall c :: c in s ==> IsDigit(c) || c == '.' || c == ':')
            && s != [] && IsDigit(s[|s| - 1])
  {
    hide Padded, Split, FractionFloor, ParseInt, ParseSeconds, SecondText;
    PaddedParses(st.hour, 2, 0, U32_MAX);
    PaddedParses(st.minute, 2, 0, U32_MAX);
    SecondTextParses(st);
    SplitThree(Padded(st.hour, 2), Padded(st.minute, 2), SecondText(st), ':');
  }

  lemma ZoneTextSplits(time: string, z: Zone)
    requires time != [] && IsDigit(time[|time| - 1])
    requires forall c :: c in time ==> IsDigit(c) || c == '.' || c == ':'
    requires z.Offset? ==> z.hours <= 14 && z.minutes <= 59
    ensures SplitOffset(time + ZoneText(z)) == Some((time, ZoneSeconds(z)))
    ensures var s := time + ZoneText(z); !IsWhitespace(s[|s| - 1])
  {
    match z
    case Unspecified =>
      assert time + ZoneText(z) == time;
      UnmarkedTimeSplits(time);
    case Utc =>
      assert (time + "Z")[..|time|] == time;
    case Offset(west, hh, mm) =>
      OffsetTextSplits(time, west, hh, mm);
      hide SplitOffset, ZoneText;
  }

  lemma UnmarkedTimeSplits(time: string)
    requires time != [] && IsDigit(time[|time| - 1])
    requires forall c :: c in time ==> IsDigit(c) || c == '.' || c == ':'
    ensures SplitOffset(time) == Some((time, 0))
  {
    hide ParseInt;
    if |time| >= 6 {
      assert time[|time| - 6..][0] in time;
    }
  }

  lemma OffsetTextSplits(time: string, west: bool, hh: nat, mm: nat)
    requires hh <= 14 && mm <= 59
    ensures var z := Offset(west, hh, mm); var s := time + ZoneText(z);
            SplitOffset(s) == Some((time, ZoneSeconds(z))) && IsDigit(s[|s| - 1])
  {
    hide Padded, ParseInt, Pow10;
    var z := Offset(west, hh, mm);
    var s, zone := time + ZoneText(z), ZoneText(z);
    PaddedParses(hh, 2, I64_MIN, I64_MAX);
    PaddedParses(mm, 2, I64_MIN, I64_MAX);
    HundredIsTwoDigits();
    assert |zone| == 6 && s[|s| - 6..] == zone && s[..|s| - 6] == time;
    assert zone[1..3] == Padded(hh, 2) && zone[4..6] == Padded(mm, 2);
    assert s[|s| - 1] == Padded(mm, 2)[1];
  }

  lemma HundredIsTwoDigits()
    ensures Pow10(2) == 100
  {
    assert Pow10(1) == 10;
  }

  /** A date text, a `T` and a readable rest are read together as the two say. */
  lemma AssembledTextParses(c: Civil, rest: string, time: string, offset: int, secs: int, nanos: nat)
    requires ValidDate(c) && 1 <= c.year <= 9999
    requires rest != [] && !IsWhitespace(rest[|rest| - 1])
    requires SplitOffset(rest) == Some((time, offset)) && -53_940 <= offset <= 53_940
    requires ParseTimeOfDay(time) == Some((secs, nanos)) && 0 <= secs < 86_400 && nanos < NANOS_PER_SEC
    ensures var utc := CalendarDay(c) * 86_400 + secs - offset;
            ParseXsDateTime(DateText(c) + "T" + rest) == if utc < 0 then None else Some(utc * NANOS_PER_SEC + nanos)
  {
    hide DateText, Trim, Find, ParseDate, SplitOffset, ParseTimeOfDay, DaysFromCivil, CalendarDay;
    var date := DateText(c);
    var s := date + "T" + rest;
    DateTextParses(c);
    assert s == date + ['T'] + rest;
    assert s[0] == date[0] && s[|s| - 1] == rest[|rest| - 1];
    TrimKeeps(s);
    FindFirst(date, 'T', rest);
    assert s[..|date|] == date && s[|date| + 1..] == rest;
    DaysFromCivilIsCalendarDay(c.year, c.month, c.day);
    DaysWithinReach(c);
  }

  /** Every timestamp of the documented grammar is read as the instant it denotes, and refused
      exactly when that instant lies before 1970. */
  lemma StampParses(st: Stamp)
    requires WellFormed(st)
    ensures ParseXsDateTime(StampText(st)) ==
            if StampInstant(st) < 0 then None else Some(StampInstant(st))
  {
    hide DateText, TimeText, ZoneText, ParseXsDateTime, SplitOffset, ParseTimeOfDay, CalendarDay, FractionFloor;
    var time, rest := TimeText(st), TimeText(st) + ZoneText(st.zone);
    TimeTextParses(st);
    ZoneTextSplits(time, st.zone);
    if st.fraction.Some? { FractionIsFloor(st.fraction.value); }
    var (secs, nanos) := ParseTimeOfDay(time).value;
    AssembledTextParses(st.date, rest, time, ZoneSeconds(st.zone), secs, nanos);
    assert StampText(st) == DateText(st.date) + "T" + rest;
  }

  /** Days of the four-digit years: nothing the reader computes from them leaves `i64`. */
  lemma DaysWithinReach(c: Civil)
    requires ValidDate(c) && 1 <= c.year <= 9999
    ensures -4_000_000 <= CalendarDay(c) <= 4_000_000
  {
    MonthTable(c.year, c.month);
    YearStartClosedForm(c.year);
  }

  // ---- Printing, then reading ----

  /** What the writer puts on the wire: UTC, and milliseconds unless the second is whole. */
  function UtcStamp(date: Civil, sod: nat, nanos: nat): Stamp {
    Stamp(date, sod / 3600, sod % 3600 / 60, sod % 60,
          if nanos == 0 then None else Some(Padded(nanos / NANOS_PER_MILLI, 3)), Utc)
  }

  function EpochDay(t: int): int { t / NANOS_PER_SEC / 86_400 }

  function WireStamp(t: nat): Stamp {
    UtcStamp(CivilOfDay(EpochDay(t)), t / NANOS_PER_SEC % 86_400, t % NANOS_PER_SEC)
  }

  lemma RenderUtcIsStampText(date: Civil, sod: nat, nanos: nat)
    ensures RenderUtc(date, sod, nanos) == StampText(UtcStamp(date, sod, nanos))
  {
    var st := UtcStamp(date, sod, nanos);
    hide Padded;
    if nanos == 0 {
      assert SecondText(st) == Padded(sod % 60, 2);
    }
  }

  lemma FormatIsWireStamp(t: Instant)
    requires t >= 0
    ensures FormatXsDateTime(t) ==
            if IsI32(WireStamp(t).date.year) then Some(StampText(WireStamp(t))) else None
  {
    hide CivilFromDays, CivilOfDay, RenderUtc, StampText;
    CivilFromDaysIsCivilOfDay(EpochDay(t));
    RenderUtcIsStampText(CivilOfDay(EpochDay(t)), t / NANOS_PER_SEC % 86_400, t % NANOS_PER_SEC);
  }

  /** Midnight of January 1 of the year 10000, in days. */
  const END_OF_FOUR_DIGIT_YEARS: int := 2_932_897

  lemma FourDigitYears(c: Civil)
    requires ValidDate(c) && CalendarDay(c) >= 0
    ensures 1970 <= c.year
    ensures c.year <= 9999 <==> CalendarDay(c) < END_OF_FOUR_DIGIT_YEARS
  {
    DayWithinYear(c);
    assert GregorianYearStart(1970) == 0 && GregorianYearStart(10_000) == END_OF_FOUR_DIGIT_YEARS;
    hide GregorianYearStart, CalendarDay;
    if c.year > 10_000 {
      YearStartsIncrease(10_000, c.year);
    } else if c.year < 9999 {
      YearStartsIncrease(c.year + 1, 10_000);
    }
    if c.year + 1 < 1970 {
      YearStartsIncrease(c.year + 1, 1970);
    }
  }

  lemma TruncationKeepsSecond(t: nat)
    ensures TruncateToMillis(t) == t / NANOS_PER_SEC * NANOS_PER_SEC + TruncateToMillis(t % NANOS_PER_SEC)
    ensures TruncateToMillis(t) / NANOS_PER_SEC == t / NANOS_PER_SEC
    ensures TruncateToMillis(t) % NANOS_PER_SEC == TruncateToMillis(t % NANOS_PER_SEC)
  {
    var q, r := t / NANOS_PER_SEC, t % NANOS_PER_SEC;
    QuotientUnique(t, NANOS_PER_MILLI, 1000 * q + r / NANOS_PER_MILLI, r % NANOS_PER_MILLI);
    QuotientUnique(TruncateToMillis(t), NANOS_PER_SEC, q, TruncateToMillis(r));
  }

  lemma MillisFraction(nanos: nat)
    requires nanos < NANOS_PER_SEC
    ensures var f := Padded(nanos / NANOS_PER_MILLI, 3);
            f != [] && AllDigits(f) && FractionFloor(f) == TruncateToMillis(nanos)
  {
    var ms := nanos / NANOS_PER_MILLI;
    PaddedParses(ms, 3, 0, U32_MAX);
    HundredIsTwoDigits();
    assert Pow10(3) == 1000;
    assert ms * NANOS_PER_SEC / 1000 == ms * NANOS_PER_MILLI;
  }

  lemma SplitDay(sod: nat)
    requires sod < 86_400
    ensures sod / 3600 <= 23 && sod % 3600 / 60 <= 59 && sod % 60 <= 59
    ensures sod / 3600 * 3600 + sod % 3600 / 60 * 60 + sod % 60 == sod
  {
    QuotientUnique(sod, 60, sod / 3600 * 60 + sod % 3600 / 60, sod % 3600 % 60);
  }

  lemma WireStampDenotesMillis(t: nat)
    requires EpochDay(t) < END_OF_FOUR_DIGIT_YEARS
    ensures WellFormed(WireStamp(t)) && StampInstant(WireStamp(t)) == TruncateToMillis(t)
  {
    var days, nanos := EpochDay(t), t % NANOS_PER_SEC;
    EraDateDeterminesCivil(days);
    EraDayIsCalendarDay(CivilOfDay(days));
    FourDigitYears(CivilOfDay(days));
    MillisFraction(nanos);
    SplitDay(t / NANOS_PER_SEC % 86_400);
    hide CivilOfDay, CalendarDay, Padded, FractionFloor;
    TruncationKeepsSecond(t);
    hide TruncateToMillis;
  }

  /** Printing fails before 1970 and past the `i32` years; what it prints reads back as the same
      instant truncated to milliseconds through year 9999, and never reads back after that. */
  lemma PrintThenParse(t: Instant)
    ensures FormatXsDateTime(t).Some? <==> t >= 0 && IsI32(WireStamp(t).date.year)
    ensures FormatXsDateTime(t).Some? ==>
              ParseXsDateTime(FormatXsDateTime(t).value) ==
              if EpochDay(t) < END_OF_FOUR_DIGIT_YEARS then Some(TruncateToMillis(t)) else None
    ensures 0 <= t < END_OF_FOUR_DIGIT_YEARS * 86_400 * NANOS_PER_SEC ==> FormatXsDateTime(t).Some?
  {
    if t >= 0 {
      FormatIsWireStamp(t);
      var days := EpochDay(t);
      EraDateDeterminesCivil(days);
      EraDayIsCalendarDay(CivilOfDay(days));
      FourDigitYears(CivilOfDay(days));
      hide FormatXsDateTime, ParseXsDateTime, CivilOfDay, CalendarDay, StampText;
      if days < END_OF_FOUR_DIGIT_YEARS {
        WireStampDenotesMillis(t);
        StampParses(WireStamp(t));
      } else if IsI32(WireStamp(t).date.year) {
        LongYearIsRefused(WireStamp(t).date, TimeText(WireStamp(t)) + "Z");
        assert StampText(WireStamp(t)) == DateText(WireStamp(t).date) + "T" + (TimeText(WireStamp(t)) + "Z");
      }
    }
  }

  lemma LongYearIsRefused(c: Civil, rest: string)
    requires c.year > 9999 && IsI32(c.year) && ValidDate(c)
    requires rest != [] && !IsWhitespace(rest[|rest| - 1])
    ensures ParseXsDateTime(DateText(c) + "T" + rest) == None
  {
    hide Padded, Split, Find, Trim, SplitOffset, ParseInt;
    var y, m, d := Padded(c.year, 4), Padded(c.month, 2), Padded(c.day, 2);
    var date := DateText(c);
    var s := date + ['T'] + rest;
    PaddedParses(c.year, 4, I32_MIN, I32_MAX);
    PaddedParses(c.month, 2, 0, U32_MAX);
    PaddedParses(c.day, 2, 0, U32_MAX);
    SplitThree(y, m, d, '-');
    assert s[0] == y[0] && s[|s| - 1] == rest[|rest| - 1];
    TrimKeeps(s);
    FindFirst(date, 'T', rest);
    assert s[..|date|] == date;
  }

  lemma TruncatedRendering(date: Civil, sod: nat, nanos: nat)
    requires nanos < NANOS_PER_SEC
    ensures RenderUtc(date, sod, TruncateToMillis(nanos)) == RenderUtc(date, sod, nanos) <==>
            !(0 < nanos < NANOS_PER_MILLI)
  {
    if 0 < nanos < NANOS_PER_MILLI {
      assert |RenderUtc(date, sod, nanos)| > |RenderUtc(date, sod, 0)|;
    } else {
      assert TruncateToMillis(nanos) / NANOS_PER_MILLI == nanos / NANOS_PER_MILLI;
    }
  }

  /** Reprinting what was read gives the same text, except for the instants whose fraction of a
      second is positive and below a millisecond: those print `.000Z` once. */
  lemma ReprintIsStable(t: nat)
    requires t < END_OF_FOUR_DIGIT_YEARS * 86_400 * NANOS_PER_SEC
    ensures var text := FormatXsDateTime(t);
            && text.Some? && ParseXsDateTime(text.value).Some?
            && (FormatXsDateTime(ParseXsDateTime(text.value).value) == text <==>
                !(0 < t % NANOS_PER_SEC < NANOS_PER_MILLI))
  {
    hide CivilFromDays, ParseXsDateTime, RenderUtc, TruncateToMillis, WireStamp;
    TruncationKeepsSecond(t);
    PrintThenParse(t);
    PrintThenParse(TruncateToMillis(t));
    var secs := t / NANOS_PER_SEC;
    TruncatedRendering(CivilFromDays(secs / 86_400).value, secs % 86_400, t % NANOS_PER_SEC);
  }

  // ---- Nothing else is accepted ----

  lemma OffsetIsBounded(s: string)
    ensures SplitOffset(s).Some? ==> -53_940 <= SplitOffset(s).value.1 <= 53_940
  {
    hide ParseInt;
    if |s| >= 6 {
      var tail := s[|s| - 6..];
      OffsetFieldReadings(tail[1], tail[2]);
      OffsetFieldReadings(tail[4], tail[5]);
      assert tail[1..3] == [tail[1], tail[2]] && tail[4..6] == [tail[4], tail[5]];
    }
  }

  /** The two characters of an offset field go through `parse::<i64>`, so besides two digits a
      sign and one digit are read, as the signed digit. */
  lemma OffsetFieldReadings(a: char, b: char)
    ensures ParseInt([a, b], I64_MIN, I64_MAX) ==
            if IsDigit(a) && IsDigit(b) then Some(10 * DigitValue(a) + DigitValue(b))
            else if a == '+' && IsDigit(b) then Some(DigitValue(b))
            else if a == '-' && IsDigit(b) then Some((0 - DigitValue(b)) as int)
            else None
  {
    assert [a, b][1..] == [b];
    assert [a, b][..1] == [a] && [b][..0] == [] && [a][..0] == [];
    assert AllDigits([b]) <==> IsDigit([b][0]);
    assert AllDigits([a, b]) <==> IsDigit([a, b][0]) && IsDigit([a, b][1]);
    if AllDigits([a, b]) {
      assert DigitsValue([a, b]) == 10 * DigitsValue([a]) + DigitValue(b);
      assert DigitsValue([a]) == 10 * DigitsValue([]) + DigitValue(a);
    }
    if AllDigits([b]) {
      assert DigitsValue([b]) == 10 * DigitsValue([]) + DigitValue(b);
    }
  }

  /** The pieces the reader cuts a text into; `cut` is where its `T` stands. */
  predicate Readable(s: string) {
    var trimmed := Trim(s);
    && trimmed != [] && trimmed[0] != '-' && Find(trimmed, 'T').Some?
    && var cut := Find(trimmed, 'T').value;
    && ParseDate(trimmed[..cut]).Some? && ValidDate(ParseDate(trimmed[..cut]).value)
    && SplitOffset(trimmed[cut + 1..]).Some?
    && ParseTimeOfDay(SplitOffset(trimmed[cut + 1..]).value.0).Some?
  }

  function ReadSeconds(s: string): int
    requires Readable(s)
  {
    var trimmed := Trim(s);
    var cut := Find(trimmed, 'T').value;
    var (time, offset) := SplitOffset(trimmed[cut + 1..]).value;
    CalendarDay(ParseDate(trimmed[..cut]).value) * 86_400 + ParseTimeOfDay(time).value.0 - offset
  }

  /** A text is accepted exactly when its pieces read, its date exists and it does not lie before
      1970: with a year in 1..9999 no checked step of the arithmetic can fail. */
  lemma AcceptedExactly(s: string)
    ensures ParseXsDateTime(s).Some? <==> Readable(s) && ReadSeconds(s) >= 0
  {
    hide Trim, Find, ParseDate, SplitOffset, ParseTimeOfDay, DaysFromCivil, CalendarDay;
    var trimmed := Trim(s);
    if trimmed != [] && Find(trimmed, 'T').Some? {
      var cut := Find(trimmed, 'T').value;
      if ParseDate(trimmed[..cut]).Some? && SplitOffset(trimmed[cut + 1..]).Some? {
        var date := ParseDate(trimmed[..cut]).value;
        DaysFromCivilIsCalendarDay(date.year, date.month, date.day);
        if ValidDate(date) { DaysWithinReach(date); }
        OffsetIsBounded(trimmed[cut + 1..]);
        TimeOfDayIsBounded(SplitOffset(trimmed[cut + 1..]).value.0);
      }
    }
  }

  lemma ParsedIntIsInRange(s: string, lo: int, hi: int)
    ensures ParseInt(s, lo, hi).Some? ==> lo <= ParseInt(s, lo, hi).value <= hi
  {
  }

  lemma TimeOfDayIsBounded(s: string)
    ensures ParseTimeOfDay(s).Some? ==>
              0 <= ParseTimeOfDay(s).value.0 < 86_400 && ParseTimeOfDay(s).value.1 < NANOS_PER_SEC
  {
    hide Split, ParseInt, Find, FractionFloor;
    var segs := Split(s, ':');
    if |segs| == 3 {
      ParsedIntIsInRange(segs[0], 0, U32_MAX);
      ParsedIntIsInRange(segs[1], 0, U32_MAX);
      var dot := Find(segs[2], '.');
      ParsedIntIsInRange(if dot.Some? then segs[2][..dot.value] else segs[2], 0, U32_MAX);
      if dot.Some? { FractionIsFloor(segs[2][dot.value + 1..]); }
      hide FractionNanos;
    }
  }

  // ---- Only ASCII text is accepted ----

  predicate IsAscii(c: char) { c < '\U{80}' }

  lemma ReadPiecesAreAscii(s: string, sep: char, i: nat)
    requires i < |s|
    requires IsAscii(sep)
    requires forall k, c :: 0 <= k < |Split(s, sep)| && c in Split(s, sep)[k] ==> IsAscii(c)
    ensures IsAscii(s[i])
  {
    if s[i] != sep {
      var k := SplitCovers(s, sep, i);
    }
  }

  lemma IntTextIsAscii(s: string, lo: int, hi: int)
    requires ParseInt(s, lo, hi).Some?
    ensures forall c :: c in s ==> IsAscii(c)
  {
    forall c | c in s ensures IsAscii(c) { ParsedIntIsAscii(s, lo, hi, c); }
  }

  lemma SecondsTextIsAscii(s: string)
    requires ParseSeconds(s).Some?
    ensures forall c :: c in s ==> IsAscii(c)
  {
    match Find(s, '.')
    case Some(dot) =>
      IntTextIsAscii(s[..dot], 0, U32_MAX);
      assert s == s[..dot] + ['.'] + s[dot + 1..];
      assert forall c :: c in s[dot + 1..] ==> IsDigit(c);
    case None =>
      IntTextIsAscii(s, 0, U32_MAX);
  }

  lemma TimeTextIsAscii(s: string)
    requires ParseTimeOfDay(s).Some?
    ensures forall c :: c in s ==> IsAscii(c)
  {
    hide Split, ParseInt, ParseSeconds;
    var segs := Split(s, ':');
    IntTextIsAscii(segs[0], 0, U32_MAX);
    IntTextIsAscii(segs[1], 0, U32_MAX);
    SecondsTextIsAscii(segs[2]);
    forall i | 0 <= i < |s| ensures IsAscii(s[i]) { ReadPiecesAreAscii(s, ':', i); }
  }

  lemma DateTextIsAscii(s: string)
    requires ParseDate(s).Some?
    ensures forall c :: c in s ==> IsAscii(c)
  {
    hide Split, ParseInt;
    var segs := Split(s, '-');
    IntTextIsAscii(segs[0], I32_MIN, I32_MAX);
    IntTextIsAscii(segs[1], 0, U32_MAX);
    IntTextIsAscii(segs[2], 0, U32_MAX);
    forall i | 0 <= i < |s| ensures IsAscii(s[i]) { ReadPiecesAreAscii(s, '-', i); }
  }

  lemma ZoneTextIsAscii(s: string)
    requires SplitOffset(s).Some?
    ensures var time := SplitOffset(s).value.0; time <= s && forall c :: c in s[|time|..] ==> IsAscii(c)
  {
    hide ParseInt;
    if |s| >= 6 && s[|s| - 1] != 'Z' {
      var tail := s[|s| - 6..];
      if (tail[0] == '+' || tail[0] == '-') && tail[3] == ':' {
        IntTextIsAscii(tail[1..3], I64_MIN, I64_MAX);
        IntTextIsAscii(tail[4..6], I64_MIN, I64_MAX);
        assert tail == [tail[0]] + tail[1..3] + [tail[3]] + tail[4..6];
      }
    }
  }

  /** Outside ASCII only surrounding white space is ever accepted. */
  lemma AcceptedTextIsAscii(s: string)
    requires ParseXsDateTime(s).Some?
    ensures forall c :: c in Trim(s) ==> IsAscii(c)
  {
    hide Trim, Find, ParseDate, SplitOffset, ParseTimeOfDay, DaysFromCivil;
    var trimmed := Trim(s);
    var cut := Find(trimmed, 'T').value;
    var rest := trimmed[cut + 1..];
    var time := SplitOffset(rest).value.0;
    DateTextIsAscii(trimmed[..cut]);
    ZoneTextIsAscii(rest);
    TimeTextIsAscii(time);
    assert trimmed == trimmed[..cut] + ['T'] + time + rest[|time|..];
  }
}
