/** The `xs:dateTime` reader and writer of src/time.rs. `None` stands for the module's one kind
    of error on each side, `Error::XmlParse` and `Error::XmlEmit`. */
module DateTime {
  import opened Wrappers
  import opened CheckedInt
  import opened Instants
  import opened Calendar
  import opened Text

  // ---- Reading ----

  /** The first nine digits of a fraction, padded with zeros on the right. */
  function NineDigits(frac: string): (r: string)
    ensures |r| == 9
  {
    (frac + "000000000")[..9]
  }

  function FractionNanos(frac: string): Option<nat> {
    if frac == [] || !AllDigits(frac) then None
    else
      assert AllDigits(NineDigits(frac));
      Some(DigitsValue(NineDigits(frac)))
  }

  /** The source's loop over a nine-byte buffer. */
  method ParseFractionToNanos(frac: string) returns (r: Option<nat>)
    ensures r == FractionNanos(frac)
  {
    if frac == [] || !AllDigits(frac) {
      return None;
    }
    var buf := new char[9](_ => '0');
    var k := 0;
    while k < 9 && k < |frac|
      invariant 0 <= k <= 9 && k <= |frac|
      invariant forall i :: 0 <= i < 9 ==> buf[i] == if i < k then frac[i] else '0'
    {
      buf[k] := frac[k];
      k := k + 1;
    }
    assert buf[..] == NineDigits(frac);
    // A nine-digit numeral is below 10^9, so `parse::<u32>` cannot overflow.
    return Some(DigitsValue(buf[..]));
  }

  /** The time of day and the seconds east of UTC that follow the `T`. */
  function SplitOffset(s: string): Option<(string, int)> {
    if s != [] && s[|s| - 1] == 'Z' then Some((s[..|s| - 1], 0))
    else if |s| < 6 then Some((s, 0))
    else
      var tail := s[|s| - 6..];
      if (tail[0] == '+' || tail[0] == '-') && tail[3] == ':' then
        var hh :- ParseInt(tail[1..3], I64_MIN, I64_MAX);
        var mm :- ParseInt(tail[4..6], I64_MIN, I64_MAX);
        if hh > 14 || mm > 59 then None
        else
          var hhSecs :- CheckedMul(hh, 3600);
          var mmSecs :- CheckedMul(mm, 60);
          var offset :- CheckedAdd(hhSecs, mmSecs);
          var offset :- if tail[0] == '-' then Fit(-offset) else Some(offset);
          Some((s[..|s| - 6], offset))
      else Some((s, 0))
  }

  /** Whole seconds and nanoseconds of the last field of a time of day. */
  function ParseSeconds(s: string): Option<(int, nat)> {
    match Find(s, '.')
    case Some(dot) =>
      var nanos :- FractionNanos(s[dot + 1..]);
      var second :- ParseInt(s[..dot], 0, U32_MAX);
      Some((second, nanos))
    case None =>
      var second :- ParseInt(s, 0, U32_MAX);
      Some((second, 0))
  }

  function ParseDate(s: string): (r: Option<Civil>)
    ensures r.Some? ==> 1 <= r.value.year <= 9999 && 1 <= r.value.month <= 12 && 1 <= r.value.day <= 31
  {
    var segs := Split(s, '-');
    if |segs| != 3 then None
    else
      var year :- ParseInt(segs[0], I32_MIN, I32_MAX);
      var month :- ParseInt(segs[1], 0, U32_MAX);
      var day :- ParseInt(segs[2], 0, U32_MAX);
      if !(1 <= year <= 9999) || !(1 <= month <= 12) || !(1 <= day <= 31) then None
      else Some(Civil(year, month, day))
  }

  /** Seconds of the day, the 60th second clamped to 59, and nanoseconds. */
  function ParseTimeOfDay(s: string): Option<(int, nat)> {
    var segs := Split(s, ':');
    if |segs| != 3 then None
    else
      var hour :- ParseInt(segs[0], 0, U32_MAX);
      var minute :- ParseInt(segs[1], 0, U32_MAX);
      var (second, nanos) :- ParseSeconds(segs[2]);
      if hour > 23 || minute > 59 || second > 60 then None
      else
        var clamped := if second < 59 then second else 59;
        var hourSecs :- CheckedMul(hour, 3600);
        var minuteSecs :- CheckedMul(minute, 60);
        var secs :- CheckedAdd(hourSecs, minuteSecs);
        var secs :- CheckedAdd(secs, clamped);
        Some((secs, nanos))
  }

  function ParseXsDateTime(s: string): Option<Instant> {
    var trimmed := Trim(s);
    if trimmed == [] || trimmed[0] == '-' then None
    else
      var t :- Find(trimmed, 'T');
      var date :- ParseDate(trimmed[..t]);
      var (time, offset) :- SplitOffset(trimmed[t + 1..]);
      var (secondsInDay, nanos) :- ParseTimeOfDay(time);
      var days :- DaysFromCivil(date.year, date.month, date.day);
      var secs :- CheckedMul(days, 86_400);
      var secs :- CheckedAdd(secs, secondsInDay);
      var secs :- CheckedSub(secs, offset);
      if secs < 0 then None else FitInstant(secs * NANOS_PER_SEC + nanos)
  }

  // ---- Writing ----

  /** The text of a civil date, a second of the day and the nanoseconds within it. */
  function RenderUtc(date: Civil, sod: int, nanos: nat): string {
    var toSeconds := Padded(date.year, 4) + "-" + Padded(date.month, 2) + "-" + Padded(date.day, 2) + "T"
                     + Padded(sod / 3600, 2) + ":" + Padded(sod % 3600 / 60, 2) + ":" + Padded(sod % 60, 2);
    if nanos == 0 then toSeconds + "Z"
    else toSeconds + "." + Padded(nanos / NANOS_PER_MILLI, 3) + "Z"
  }

  function FormatXsDateTime(t: Instant): Option<string> {
    if t < 0 then None
    else
      var totalSecs :- Fit(t / NANOS_PER_SEC);
      var date :- CivilFromDays(totalSecs / 86_400);
      Some(RenderUtc(date, totalSecs % 86_400, t % NANOS_PER_SEC))
  }
}
