/** Exactly which texts the timestamp reader of src/time.rs accepts, and as what: a grammar over the text
    itself, both ways. It is wider than the documented one wherever `str::parse` is. */
module DateTimeGrammar {
  import opened Wrappers
  import opened CheckedInt
  import opened Instants
  import opened Calendar
  import opened Text
  import opened DateTime
  import opened DateTimeTheorems

  datatype Mark = Unmarked | Zulu | Shift(west: bool, hours: string, minutes: string)

  /** The fields of a timestamp as they are written. */
  datatype Written = Written(year: string, month: string, day: string, hour: string, minute: string, second: string,
                             fraction: Option<string>, mark: Mark)

  function DatePart(w: Written): string { w.year + ['-'] + w.month + ['-'] + w.day }

  function SecondPart(w: Written): string {
    match w.fraction case None => w.second case Some(f) => w.second + ['.'] + f
  }

  function ClockPart(w: Written): string { w.hour + [':'] + w.minute + [':'] + SecondPart(w) }

  function MarkPart(m: Mark): string {
    match m
    case Unmarked => ""
    case Zulu => "Z"
    case Shift(west, hours, minutes) => [if west then '-' else '+'] + hours + [':'] + minutes
  }

  function Spelled(w: Written): string { DatePart(w) + ['T'] + (ClockPart(w) + MarkPart(w.mark)) }

  // ---- What the fields must be ----

  function DateOf(w: Written): Option<Civil> {
    var year :- ParseInt(w.year, I32_MIN, I32_MAX);
    var month :- ParseInt(w.month, 0, U32_MAX);
    var day :- ParseInt(w.day, 0, U32_MAX);
    Some(Civil(year, month, day))
  }

  predicate DateStands(w: Written) {
    DateOf(w).Some? && ValidDate(DateOf(w).value) && 1 <= DateOf(w).value.year <= 9999
  }

  function ClockOf(w: Written): Option<(int, int, int)> {
    var hour :- ParseInt(w.hour, 0, U32_MAX);
    var minute :- ParseInt(w.minute, 0, U32_MAX);
    var second :- ParseInt(w.second, 0, U32_MAX);
    Some((hour, minute, second))
  }

  predicate ClockStands(w: Written) {
    && ClockOf(w).Some? && ClockOf(w).value.0 <= 23 && ClockOf(w).value.1 <= 59 && ClockOf(w).value.2 <= 60
    && (w.fraction.Some? ==> w.fraction.value != [] && AllDigits(w.fraction.value))
  }

  /** The last six characters are a sign, two characters, a colon and two more. */
  predicate EndsLikeShift(s: string) {
    |s| >= 6 && s[|s| - 6] in {'+', '-'} && s[|s| - 3] == ':'
  }

  /** A shift is two two-character numbers, signed or not, of at most 14 and 59; a clock without a mark
      must not end like one. */
  predicate MarkStands(w: Written) {
    match w.mark
    case Unmarked => !EndsLikeShift(ClockPart(w))
    case Zulu => true
    case Shift(_, hours, minutes) =>
      && |hours| == 2 && |minutes| == 2
      && ParseInt(hours, I64_MIN, I64_MAX).Some? && ParseInt(hours, I64_MIN, I64_MAX).value <= 14
      && ParseInt(minutes, I64_MIN, I64_MAX).Some? && ParseInt(minutes, I64_MIN, I64_MAX).value <= 59
  }

  function MarkSeconds(w: Written): int
    requires MarkStands(w)
  {
    match w.mark
    case Shift(west, hours, minutes) =>
      var east := ParseInt(hours, I64_MIN, I64_MAX).value * 3600 + ParseInt(minutes, I64_MIN, I64_MAX).value * 60;
      if west then -east else east
    case _ => 0
  }

  predicate Stands(w: Written) { DateStands(w) && ClockStands(w) && MarkStands(w) }

  function ClockSeconds(w: Written): int
    requires ClockStands(w)
  {
    var (hour, minute, second) := ClockOf(w).value;
    hour * 3600 + minute * 60 + if second < 59 then second else 59
  }

  function ClockNanos(w: Written): int
    requires ClockStands(w)
  {
    match w.fraction case None => 0 case Some(f) => FractionFloor(f)
  }

  /** Civil seconds, a leap second as the 59th, less the shift, and the fraction rounded down. */
  function Meaning(w: Written): int
    requires Stands(w)
  {
    (CalendarDay(DateOf(w).value) * 86_400 + ClockSeconds(w) - MarkSeconds(w)) * NANOS_PER_SEC + ClockNanos(w)
  }

  // ---- What is written so is read so ----

  lemma DatePartReads(w: Written)
    requires DateStands(w)
    ensures ParseDate(DatePart(w)) == DateOf(w)
    ensures DatePart(w) != [] && DatePart(w)[0] != '-' && 'T' !in DatePart(w)
  {
    hide ParseInt, Split;
    NonnegativeHasNoMinus(w.year, I32_MIN, I32_MAX);
    NonnegativeHasNoMinus(w.month, 0, U32_MAX);
    NonnegativeHasNoMinus(w.day, 0, U32_MAX);
    SplitThree(w.year, w.month, w.day, '-');
    assert DatePart(w)[0] == w.year[0];
  }

  lemma SecondPartReads(w: Written)
    requires ClockStands(w)
    ensures ParseSeconds(SecondPart(w)) == Some((ClockOf(w).value.2, ClockNanos(w)))
    ensures ':' !in SecondPart(w) && SecondPart(w) != [] && IsDigit(SecondPart(w)[|SecondPart(w)| - 1])
  {
    hide ParseInt, FractionNanos, FractionFloor;
    NonnegativeHasNoMinus(w.second, 0, U32_MAX);
    match w.fraction
    case None => FindAbsent(w.second, '.');
    case Some(f) =>
      FindFirst(w.second, '.', f);
      FractionIsFloor(f);
      assert SecondPart(w)[|w.second| + 1..] == f && SecondPart(w)[..|w.second|] == w.second;
  }

  lemma ClockPartSplits(w: Written)
    requires ClockStands(w)
    ensures Split(ClockPart(w), ':') == [w.hour, w.minute, SecondPart(w)]
    ensures ClockPart(w) != [] && IsDigit(ClockPart(w)[|ClockPart(w)| - 1])
  {
    hide ParseInt, Split, SecondPart, ClockNanos;
    NonnegativeHasNoMinus(w.hour, 0, U32_MAX);
    NonnegativeHasNoMinus(w.minute, 0, U32_MAX);
    SecondPartReads(w);
    SplitThree(w.hour, w.minute, SecondPart(w), ':');
  }

  lemma ClockPartReads(w: Written)
    requires ClockStands(w)
    ensures ParseTimeOfDay(ClockPart(w)) == Some((ClockSeconds(w), ClockNanos(w)))
    ensures ClockPart(w) != [] && IsDigit(ClockPart(w)[|ClockPart(w)| - 1])
  {
    hide ParseInt, Split, SecondPart, ClockPart, ParseSeconds, ClockNanos;
    ParsedIntIsInRange(w.hour, 0, U32_MAX);
    ParsedIntIsInRange(w.minute, 0, U32_MAX);
    ParsedIntIsInRange(w.second, 0, U32_MAX);
    SecondPartReads(w);
    ClockPartSplits(w);
  }

  lemma TwoCharacterNumber(s: string)
    requires |s| == 2 && ParseInt(s, I64_MIN, I64_MAX).Some?
    ensures -9 <= ParseInt(s, I64_MIN, I64_MAX).value <= 99 && IsDigit(s[1])
  {
    assert s == [s[0], s[1]];
    OffsetFieldReadings(s[0], s[1]);
    hide ParseInt;
  }

  lemma MarkSplits(w: Written)
    requires ClockStands(w) && MarkStands(w)
    ensures SplitOffset(ClockPart(w) + MarkPart(w.mark)) == Some((ClockPart(w), MarkSeconds(w)))
    ensures var s := ClockPart(w) + MarkPart(w.mark); s != [] && !IsWhitespace(s[|s| - 1])
    ensures -53_940 <= MarkSeconds(w) <= 53_940
  {
    hide ParseInt, ClockPart, ClockStands;
    ClockPartReads(w);
    var clock := ClockPart(w);
    match w.mark
    case Unmarked => assert clock + MarkPart(w.mark) == clock;
    case Zulu => assert (clock + "Z")[..|clock|] == clock;
    case Shift(west, hours, minutes) =>
      ShiftSplits(clock, west, hours, minutes);
      hide SplitOffset, MarkPart;
  }

  lemma ShiftSplits(clock: string, west: bool, hours: string, minutes: string)
    requires |hours| == 2 && |minutes| == 2
    requires ParseInt(hours, I64_MIN, I64_MAX).Some? && ParseInt(hours, I64_MIN, I64_MAX).value <= 14
    requires ParseInt(minutes, I64_MIN, I64_MAX).Some? && ParseInt(minutes, I64_MIN, I64_MAX).value <= 59
    ensures var east := ParseInt(hours, I64_MIN, I64_MAX).value * 3600 + ParseInt(minutes, I64_MIN, I64_MAX).value * 60;
            var s := clock + MarkPart(Shift(west, hours, minutes));
            && SplitOffset(s) == Some((clock, if west then -east else east)) && -53_940 <= east <= 53_940
            && s != [] && IsDigit(s[|s| - 1])
  {
    hide ParseInt;
    var mark := MarkPart(Shift(west, hours, minutes));
    var s := clock + mark;
    TwoCharacterNumber(hours);
    TwoCharacterNumber(minutes);
    assert |mark| == 6 && s[|s| - 6..] == mark && s[..|s| - 6] == clock;
    assert mark[1..3] == hours && mark[4..6] == minutes && s[|s| - 1] == minutes[1];
  }

  lemma WrittenIsRead(s: string, w: Written)
    requires Trim(s) == Spelled(w) && Stands(w)
    ensures ParseXsDateTime(s) == if Meaning(w) < 0 then None else Some(Meaning(w))
  {
    hide Trim, Find, ParseDate, SplitOffset, ParseTimeOfDay, DaysFromCivil, CalendarDay;
    hide DateStands, ClockStands, MarkStands, DatePart, ClockPart, MarkPart, ClockSeconds, ClockNanos, MarkSeconds, ParseInt, DateOf;
    DatePartReads(w);
    ClockPartReads(w);
    MarkSplits(w);
    var date, rest := DatePart(w), ClockPart(w) + MarkPart(w.mark);
    var c := DateStandsValid(w);
    FindFirst(date, 'T', rest);
    assert Spelled(w)[..|date|] == date && Spelled(w)[|date| + 1..] == rest && Spelled(w)[0] == date[0];
    TimeOfDayIsBounded(ClockPart(w));
    DaysFromCivilIsCalendarDay(c.year, c.month, c.day);
    DaysWithinReach(c);
  }

  lemma DateStandsValid(w: Written) returns (c: Civil)
    requires DateStands(w)
    ensures DateOf(w) == Some(c) && ValidDate(c) && 1 <= c.year <= 9999
  {
    c := DateOf(w).value;
  }

  // ---- What is read was written so ----

  /** The date part as the reader splits it. */
  lemma DateWasWritten(date: string, w: Written)
    requires ParseDate(date).Some? && ValidDate(ParseDate(date).value)
    requires [w.year, w.month, w.day] == Split(date, '-')
    ensures DatePart(w) == date && DateStands(w) && DateOf(w) == ParseDate(date)
  {
    hide Split, ParseInt;
    SplitThreeRejoins(date, '-');
  }

  lemma ClockWasWritten(time: string, w: Written)
    requires ParseTimeOfDay(time).Some?
    requires [w.hour, w.minute, SecondPart(w)] == Split(time, ':')
    requires (w.second, w.fraction) == SplitSecond(Split(time, ':')[2])
    ensures ClockPart(w) == time && ClockStands(w)
  {
    hide Split, ParseInt;
    SplitThreeRejoins(time, ':');
    SplitSecondReads(Split(time, ':')[2]);
  }

  /** The seconds field and the fraction behind its first dot. */
  function SplitSecond(s: string): (string, Option<string>) {
    match Find(s, '.')
    case Some(dot) => (s[..dot], Some(s[dot + 1..]))
    case None => (s, None)
  }

  lemma SplitSecondReads(s: string)
    requires ParseSeconds(s).Some?
    ensures var (second, fraction) := SplitSecond(s);
            && ParseInt(second, 0, U32_MAX) == Some(ParseSeconds(s).value.0)
            && (fraction.Some? ==> fraction.value != [] && AllDigits(fraction.value))
            && s == match fraction case None => second case Some(f) => second + ['.'] + f
  {
    hide ParseInt;
  }

  /** How the reader takes a time and its mark apart. */
  function MarkOf(rest: string): Mark {
    if rest != [] && rest[|rest| - 1] == 'Z' then Zulu
    else if EndsLikeShift(rest) then
      var tail := rest[|rest| - 6..]; Shift(tail[0] == '-', tail[1..3], tail[4..6])
    else Unmarked
  }

  lemma MarkWasWritten(rest: string, w: Written)
    requires SplitOffset(rest).Some? && w.mark == MarkOf(rest) && ClockPart(w) == SplitOffset(rest).value.0
    ensures ClockPart(w) + MarkPart(w.mark) == rest && MarkStands(w)
  {
    hide ParseInt, ClockPart;
    if w.mark.Shift? {
      var tail := rest[|rest| - 6..];
      assert tail == [tail[0]] + tail[1..3] + [tail[3]] + tail[4..6];
      assert rest == rest[..|rest| - 6] + tail;
    }
  }

  /** The fields of an accepted text. */
  function Fields(s: string): Written
    requires Readable(s)
  {
    var trimmed := Trim(s);
    var cut := Find(trimmed, 'T').value;
    var date := Split(trimmed[..cut], '-');
    var time := Split(SplitOffset(trimmed[cut + 1..]).value.0, ':');
    var (second, fraction) := SplitSecond(time[2]);
    Written(date[0], date[1], date[2], time[0], time[1], second, fraction, MarkOf(trimmed[cut + 1..]))
  }

  lemma ReadWasWritten(s: string)
    requires Readable(s)
    ensures Trim(s) == Spelled(Fields(s)) && Stands(Fields(s))
  {
    hide Trim, Find, Split, SplitOffset, ParseDate, ParseTimeOfDay, SplitSecond, MarkOf;
    hide DatePart, ClockPart, MarkPart, DateStands, ClockStands, MarkStands;
    var trimmed, w := Trim(s), Fields(s);
    var cut := Find(trimmed, 'T').value;
    var time := SplitOffset(trimmed[cut + 1..]).value.0;
    FieldsSplit(s);
    DateWasWritten(trimmed[..cut], w);
    ClockWasWritten(time, w);
    MarkWasWritten(trimmed[cut + 1..], w);
    assert trimmed == trimmed[..cut] + ['T'] + trimmed[cut + 1..];
  }

  lemma FieldsSplit(s: string)
    requires Readable(s)
    ensures var trimmed, w := Trim(s), Fields(s); var cut := Find(trimmed, 'T').value;
            var time := SplitOffset(trimmed[cut + 1..]).value.0;
            && [w.year, w.month, w.day] == Split(trimmed[..cut], '-')
            && [w.hour, w.minute, SecondPart(w)] == Split(time, ':')
            && (w.second, w.fraction) == SplitSecond(Split(time, ':')[2])
  {
    hide Trim, Find, Split, SplitOffset, ParseInt, MarkOf, SplitSecond, ParseSeconds;
    var trimmed := Trim(s);
    var cut := Find(trimmed, 'T').value;
    SplitSecondReads(Split(SplitOffset(trimmed[cut + 1..]).value.0, ':')[2]);
  }

  // ---- Main result ----

  predicate Denotes(s: string, w: Written, t: int) {
    Trim(s) == Spelled(w) && Stands(w) && Meaning(w) == t && t >= 0
  }

  /** A text is accepted exactly when, trimmed, it spells fields that stand and does not lie before 1970,
      and then it is read as what they mean. */
  lemma AcceptedTexts(s: string, t: Instant)
    ensures ParseXsDateTime(s) == Some(t) <==> exists w :: Denotes(s, w, t)
  {
    hide ParseXsDateTime, Spelled, Stands, Meaning, Readable, ReadSeconds;
    AcceptedExactly(s);
    if ParseXsDateTime(s) == Some(t) {
      ReadWasWritten(s);
      WrittenIsRead(s, Fields(s));
      assert Denotes(s, Fields(s), t);
    }
    if w :| Denotes(s, w, t) {
      WrittenIsRead(s, w);
    }
  }

  // ---- Offsets wider than documented ----

  /** A documented time with the given mark, field by field. */
  function Marked(st: Stamp, mark: Mark): Written {
    Written(Padded(st.date.year, 4), Padded(st.date.month, 2), Padded(st.date.day, 2),
            Padded(st.hour, 2), Padded(st.minute, 2), Padded(st.second, 2), st.fraction, mark)
  }

  lemma MarkedClock(st: Stamp, mark: Mark)
    requires WellFormed(st)
    ensures ClockPart(Marked(st, mark)) == TimeText(st) && ClockStands(Marked(st, mark))
  {
    hide Padded, ParseInt;
    PaddedParses(st.hour, 2, 0, U32_MAX);
    PaddedParses(st.minute, 2, 0, U32_MAX);
    PaddedParses(st.second, 2, 0, U32_MAX);
  }

  /** Behind any documented time a shift of any two fields is read, each field with its own sign: the
      documented one has no sign in front of its hours and none in front of its minutes. */
  lemma SignedShiftIsRead(st: Stamp, mark: Mark)
    requires WellFormed(st) && st.zone == Unspecified && mark.Shift? && MarkStands(Marked(st, mark))
    ensures var t := StampInstant(st) - MarkSeconds(Marked(st, mark)) * NANOS_PER_SEC;
            ParseXsDateTime(StampText(st) + MarkPart(mark)) == if t < 0 then None else Some(t)
  {
    hide DateText, TimeText, ClockPart, ClockStands, MarkStands, MarkPart, MarkSeconds, FractionFloor, Padded;
    hide ParseXsDateTime, SplitOffset, ParseTimeOfDay, CalendarDay;
    var w, time, rest := Marked(st, mark), TimeText(st), TimeText(st) + MarkPart(mark);
    MarkedClock(st, mark);
    MarkSplits(w);
    TimeTextParses(st);
    if st.fraction.Some? { FractionIsFloor(st.fraction.value); }
    var (secs, nanos) := ParseTimeOfDay(time).value;
    AssembledTextParses(st.date, rest, time, MarkSeconds(w), secs, nanos);
    assert StampText(st) + MarkPart(mark) == DateText(st.date) + "T" + rest;
  }

  const EPOCH_STAMP: Stamp := Stamp(Civil(1970, 1, 1), 0, 0, 0, None, Unspecified)

  lemma EpochText()
    ensures StampText(EPOCH_STAMP) == "1970-01-01T00:00:00"
  {
    assert Decimal(19) == "19" && Decimal(197) == "197" && Decimal(1970) == "1970";
    assert PadLeft("1970", 4) == "1970" && PadLeft("1", 2) == "01" && PadLeft("0", 2) == "00";
    assert DateText(EPOCH_STAMP.date) == "1970-01-01" && TimeText(EPOCH_STAMP) == "00:00:00";
  }

  lemma EpochDenotesZero()
    ensures WellFormed(EPOCH_STAMP) && StampInstant(EPOCH_STAMP) == 0
  {
    assert CalendarDay(EPOCH_STAMP.date) == 0;
  }

  /** A concrete text outside the documented grammar, read as 01:00 UTC. */
  lemma SignedShiftWitness()
    ensures ParseXsDateTime("1970-01-01T00:00:00+-1:00") == Some(3600 * NANOS_PER_SEC)
  {
    hide ParseXsDateTime, StampText, CalendarDay, WellFormed, StampInstant, ParseInt;
    var mark := Shift(false, "-1", "00");
    EpochText();
    EpochDenotesZero();
    OffsetFieldReadings('-', '1');
    OffsetFieldReadings('0', '0');
    assert "-1" == ['-', '1'] && "00" == ['0', '0'];
    SignedShiftIsRead(EPOCH_STAMP, mark);
    assert "1970-01-01T00:00:00" + MarkPart(mark) == "1970-01-01T00:00:00+-1:00";
  }
}
