/** `parseTime` of src/transactions/parse.ts: the portal's display timestamp
    "YYYY-MM-DD h:MM AM/PM" read as whole minutes since the epoch, UTC. */
module TimeCodec {
  import opened Options
  import opened Strings
  import Calendar

  /** The fields of a display timestamp, as `Number` reads them. */
  datatype DisplayTime = DisplayTime(year: nat, month: nat, day: nat, hour: nat, minute: nat, meridiem: string)

  /** A digit string of `lo` to `hi` characters. */
  predicate DigitField(s: string, lo: nat, hi: nat) {
    lo <= |s| <= hi && IsDigits(s)
  }

  /** The fields `parseTime` destructures from `dateTime.split(' ')`, then
      `date.split('-')` and `time.split(':')`; pieces beyond the ones it names are
      ignored, as destructuring ignores them. A missing meridiem is `undefined`
      in the source, which compares unequal to "AM" exactly as "" does. `None`
      when there is no space (the source's `time` is then `undefined` and
      `time.split(':')` throws), when the date or time has too few pieces (a
      missing field is `undefined`, and `Date.UTC` gives NaN), or when a field
      is not a digit string of the displayed width. That last case covers text
      that is no number, where `Number` gives NaN, but also fields the source
      does read as numbers: "0" as a minute, "22" as a year (1922), and an
      empty field, which `Number` reads as 0. The model leaves those
      timestamps out although the source gives them a real time. */
  function ReadFields(s: string): (r: Option<DisplayTime>)
    ensures r.Some? ==> ' ' in s
    ensures r.Some? ==> r.value.year <= 9999 && r.value.month <= 99 && r.value.day <= 99
                        && r.value.hour <= 99 && r.value.minute <= 99
  {
    SplitShape(s, ' ');
    var parts := Split(s, ' ');
    if |parts| < 2 then None
    else
      var date := Split(parts[0], '-');
      var time := Split(parts[1], ':');
      if |date| < 3 || |time| < 2 then None
      else FieldsOf(date[0], date[1], date[2], time[0], time[1], if |parts| >= 3 then parts[2] else "")
  }

  /** The numeric fields, when every piece is a digit string of its displayed width. */
  function FieldsOf(year: string, month: string, day: string, hour: string, minute: string, meridiem: string)
    : (r: Option<DisplayTime>)
    ensures r.Some? ==> r.value.year <= 9999 && r.value.month <= 99 && r.value.day <= 99
                        && r.value.hour <= 99 && r.value.minute <= 99
  {
    if DigitField(year, 4, 4) && DigitField(month, 1, 2) && DigitField(day, 1, 2)
       && DigitField(hour, 1, 2) && DigitField(minute, 2, 2)
    then
      Some(DisplayTime(DigitsValue(year), DigitsValue(month), DigitsValue(day),
                       DigitsValue(hour), DigitsValue(minute), meridiem))
    else None
  }

  predicate WellFormedDateTime(s: string) {
    ReadFields(s).Some?
  }

  /** The 12-hour clock read as a 24-hour one: 12 AM is midnight, 12 PM is noon,
      and any meridiem other than "AM" counts as PM. */
  function Hour24(hour: int, meridiem: string): (h: int)
    ensures 1 <= hour <= 12 ==> 0 <= h <= 23
    ensures meridiem == "AM" ==> h < 12 || hour > 12
    ensures meridiem != "AM" ==> h >= 12 || hour < 0
  {
    if hour == 12 then (if meridiem == "AM" then 0 else 12)
    else if meridiem == "AM" then hour
    else hour + 12
  }

  /** The 12-hour reading of an hour of the day: the inverse of `Hour24`. */
  function Hour12(h: int): (r: (int, string))
    requires 0 <= h <= 23
    ensures 1 <= r.0 <= 12
    ensures r.1 == "AM" || r.1 == "PM"
  {
    if h == 0 then (12, "AM")
    else if h < 12 then (h, "AM")
    else if h == 12 then (12, "PM")
    else (h - 12, "PM")
  }

  /** Every hour of the day has exactly one 12-hour spelling: `Hour24` and
      `Hour12` are inverse bijections between 1..12 x {AM, PM} and 0..23. */
  lemma HourRoundTrip(hour: int, meridiem: string, h: int)
    ensures 0 <= h <= 23 ==> Hour24(Hour12(h).0, Hour12(h).1) == h
    ensures 1 <= hour <= 12 && (meridiem == "AM" || meridiem == "PM")
            ==> Hour12(Hour24(hour, meridiem)) == (hour, meridiem)
  {
  }

  /** Only "AM" is special: every other meridiem reads as "PM". */
  lemma NonAmIsPm(hour: int, meridiem: string)
    requires meridiem != "AM"
    ensures Hour24(hour, meridiem) == Hour24(hour, "PM")
  {
  }

  /** `parseTime`: `Date.UTC(year, month - 1, day, hour24, minute) / 60000`. On
      well-formed input the result is never NaN, and when the month is a real
      month it is the calendar day count plus the time of day. */
  function ParseTime(s: string): (minutes: int)
    requires WellFormedDateTime(s)
    ensures -Calendar.MAX_TIME_MINUTES <= minutes <= Calendar.MAX_TIME_MINUTES
    ensures var f := ReadFields(s).value;
            1 <= f.month <= 12 ==>
              minutes == Calendar.DaysFromCivil(Calendar.FullYear(f.year), f.month, f.day) * Calendar.MINUTES_PER_DAY
                         + Hour24(f.hour, f.meridiem) * 60 + f.minute
  {
    var f := ReadFields(s).value;
    FieldMinutes(f);
    Calendar.UtcMinutes(f.year, f.month - 1, f.day, Hour24(f.hour, f.meridiem), f.minute)
  }

  /** What `Date.UTC` makes of fields a timestamp can spell: never NaN, and the
      calendar minute when the month is a real month. */
  lemma FieldMinutes(f: DisplayTime)
    requires f.year <= 9999 && f.month <= 99 && f.day <= 99 && f.hour <= 99 && f.minute <= 99
    ensures var r := Calendar.UtcMinutes(f.year, f.month - 1, f.day, Hour24(f.hour, f.meridiem), f.minute);
            -Calendar.MAX_TIME_MINUTES <= r <= Calendar.MAX_TIME_MINUTES
            && (1 <= f.month <= 12 ==>
                  r == Calendar.DaysFromCivil(Calendar.FullYear(f.year), f.month, f.day) * Calendar.MINUTES_PER_DAY
                       + Hour24(f.hour, f.meridiem) * 60 + f.minute)
  {
    var h := Hour24(f.hour, f.meridiem);
    assert 0 <= h <= 111;
    Calendar.UtcMinutesBounds(f.year, f.month - 1, f.day, h, f.minute);
    if 1 <= f.month <= 12 {
      Calendar.UtcMinutesInRange(f.year, f.month, f.day, h, f.minute);
    }
  }

  // ---------------------------------------------------------------------------
  // The display format, as a reference for reading timestamps back
  // ---------------------------------------------------------------------------

  /** Fields the portal can display: a four-digit year, month and day of at most
      two digits, a 12-hour clock and an AM/PM marker. */
  predicate Displayable(f: DisplayTime) {
    f.year <= 9999 && f.month <= 99 && f.day <= 99 && 1 <= f.hour <= 12 && f.minute <= 59
    && (f.meridiem == "AM" || f.meridiem == "PM")
  }

  /** "YYYY-MM-DD h:MM AM", the portal's spelling (eg "2022-01-12 6:00 AM"). */
  function Display(f: DisplayTime): string {
    PadDigits(f.year, 4) + "-" + PadDigits(f.month, 2) + "-" + PadDigits(f.day, 2) + " "
      + NatToDigits(f.hour) + ":" + PadDigits(f.minute, 2) + " " + f.meridiem
  }

  /** The three splits of a timestamp assembled from digit fields. */
  lemma SplitAssembled(y: string, mo: string, d: string, h: string, mi: string, meridiem: string)
    requires IsDigits(y) && IsDigits(mo) && IsDigits(d) && IsDigits(h) && IsDigits(mi) && ' ' !in meridiem
    ensures var s := y + "-" + mo + "-" + d + " " + h + ":" + mi + " " + meridiem;
            && Split(s, ' ') == [y + "-" + mo + "-" + d, h + ":" + mi, meridiem]
            && Split(y + "-" + mo + "-" + d, '-') == [y, mo, d]
            && Split(h + ":" + mi, ':') == [h, mi]
  {
    var date := y + ['-'] + mo + ['-'] + d;
    var time := h + [':'] + mi;
    assert y + "-" + mo + "-" + d + " " + h + ":" + mi + " " + meridiem
        == date + [' '] + time + [' '] + meridiem;
    DigitsExclude(y, ' ');
    DigitsExclude(mo, ' ');
    DigitsExclude(d, ' ');
    DigitsExclude(h, ' ');
    DigitsExclude(mi, ' ');
    assert ' ' !in date && ' ' !in time;
    SplitThree(date, time, meridiem, ' ');
    DigitsExclude(y, '-');
    DigitsExclude(mo, '-');
    DigitsExclude(d, '-');
    SplitThree(y, mo, d, '-');
    DigitsExclude(h, ':');
    DigitsExclude(mi, ':');
    SplitTwo(h, mi, ':');
  }

  /** Reading a timestamp assembled from digit fields of the displayed widths
      gives back those fields. */
  lemma ReadAssembled(y: string, mo: string, d: string, h: string, mi: string, meridiem: string)
    requires DigitField(y, 4, 4) && DigitField(mo, 1, 2) && DigitField(d, 1, 2)
    requires DigitField(h, 1, 2) && DigitField(mi, 2, 2) && ' ' !in meridiem
    ensures ReadFields(y + "-" + mo + "-" + d + " " + h + ":" + mi + " " + meridiem)
         == Some(DisplayTime(DigitsValue(y), DigitsValue(mo), DigitsValue(d),
                             DigitsValue(h), DigitsValue(mi), meridiem))
  {
    SplitAssembled(y, mo, d, h, mi, meridiem);
    ReadKnownSplits(y + "-" + mo + "-" + d + " " + h + ":" + mi + " " + meridiem,
                    y + "-" + mo + "-" + d, h + ":" + mi, y, mo, d, h, mi, meridiem);
  }

  /** `ReadFields` once the three splits are known. */
  lemma ReadKnownSplits(s: string, date: string, time: string,
                        y: string, mo: string, d: string, h: string, mi: string, meridiem: string)
    requires Split(s, ' ') == [date, time, meridiem]
    requires Split(date, '-') == [y, mo, d]
    requires Split(time, ':') == [h, mi]
    ensures ReadFields(s) == FieldsOf(y, mo, d, h, mi, meridiem)
  {
    var parts, ds, ts := Split(s, ' '), Split(date, '-'), Split(time, ':');
    assert parts[0] == date && parts[1] == time && parts[2] == meridiem && |parts| == 3;
    assert ds[0] == y && ds[1] == mo && ds[2] == d && |ds| == 3;
    assert ts[0] == h && ts[1] == mi && |ts| == 2;
  }

  /** Reading a displayed timestamp gives back its fields. */
  lemma ReadDisplay(f: DisplayTime)
    requires Displayable(f)
    ensures ReadFields(Display(f)) == Some(f)
  {
    PadDigitsLength(f.year, 4);
    PadDigitsLength(f.month, 2);
    PadDigitsLength(f.day, 2);
    PadDigitsLength(f.minute, 2);
    NatToDigitsLength(f.hour, 2);
    PadDigitsValue(f.year, 4);
    PadDigitsValue(f.month, 2);
    PadDigitsValue(f.day, 2);
    PadDigitsValue(f.minute, 2);
    NatToDigitsValue(f.hour);
    ReadAssembled(PadDigits(f.year, 4), PadDigits(f.month, 2), PadDigits(f.day, 2),
                  NatToDigits(f.hour), PadDigits(f.minute, 2), f.meridiem);
  }

  /** A displayed timestamp parses to its calendar minute. */
  lemma ParseDisplay(f: DisplayTime)
    requires Displayable(f) && 1 <= f.month <= 12
    ensures WellFormedDateTime(Display(f))
    ensures ParseTime(Display(f))
         == Calendar.DaysFromCivil(Calendar.FullYear(f.year), f.month, f.day) * Calendar.MINUTES_PER_DAY
            + Hour24(f.hour, f.meridiem) * 60 + f.minute
  {
    ReadDisplay(f);
  }

  /** The fields of the timestamp in the source's documentation. */
  lemma DocumentedExampleFields()
    ensures ReadFields("2022-01-12 6:00 AM") == Some(DisplayTime(2022, 1, 12, 6, 0, "AM"))
  {
    DocumentedExampleDigits();
    ReadAssembled("2022", "01", "12", "6", "00", "AM");
    assert "2022" + "-" + "01" + "-" + "12" + " " + "6" + ":" + "00" + " " + "AM" == "2022-01-12 6:00 AM";
  }

  lemma DocumentedExampleDigits()
    ensures DigitsValue("2022") == 2022 && DigitsValue("01") == 1 && DigitsValue("12") == 12
    ensures DigitsValue("6") == 6 && DigitsValue("00") == 0
  {
    assert DigitsValue("2022") == 2022 by {
      assert "2022"[..3] == "202" && "202"[..2] == "20" && "20"[..1] == "2" && "2"[..0] == "";
    }
    assert DigitsValue("01") == 1 by { assert "01"[..1] == "0" && "0"[..0] == ""; }
    assert DigitsValue("12") == 12 by { assert "12"[..1] == "1" && "1"[..0] == ""; }
    assert DigitsValue("6") == 6 by { assert "6"[..0] == ""; }
    assert DigitsValue("00") == 0 by { assert "00"[..1] == "0" && "0"[..0] == ""; }
  }

  /** The example in the source's documentation: "2022-01-12 6:00 AM" is
      minute 27,366,120, that is 2022-01-12 06:00 UTC. */
  lemma DocumentedExample()
    ensures WellFormedDateTime("2022-01-12 6:00 AM")
    ensures ParseTime("2022-01-12 6:00 AM") == 27_366_120
  {
    DocumentedExampleFields();
    Calendar.DaysFromCivilExample();
    assert Calendar.FullYear(2022) == 2022;
    assert Hour24(6, "AM") == 6;
  }
}
