/**
 * Calendar values as the iCalendar library hands them over: a start or end is
 * either a bare date or a naive date-time (Python's `date` and `datetime`).
 * Also Python's `isoformat` text for naive date-times without microseconds,
 * with a parser for that text.
 */
module Calendar {
  import opened Wrappers

  datatype Date = Date(year: nat, month: nat, day: nat)
  datatype Time = Time(hour: nat, minute: nat, second: nat)
  datatype DateTime = DateTime(date: Date, time: Time)

  /** The `.dt` of a DTSTART or DTEND property: a `date`, or a `datetime`. */
  datatype Moment = OnDate(date: Date) | At(date: Date, time: Time)

  predicate IsLeapYear(y: nat)
  {
    y % 4 == 0 && (y % 100 != 0 || y % 400 == 0)
  }

  function DaysInMonth(y: nat, m: nat): nat
  {
    if m == 2 then (if IsLeapYear(y) then 29 else 28)
    else if m == 4 || m == 6 || m == 9 || m == 11 then 30
    else 31
  }

  /** The ranges Python's `date` enforces. */
  predicate ValidDate(d: Date)
  {
    1 <= d.year <= 9999 && 1 <= d.month <= 12 && 1 <= d.day <= DaysInMonth(d.year, d.month)
  }

  predicate ValidTime(t: Time)
  {
    t.hour < 24 && t.minute < 60 && t.second < 60
  }

  predicate ValidDateTime(dt: DateTime)
  {
    ValidDate(dt.date) && ValidTime(dt.time)
  }

  /** Python's `a <= b` on dates: compare year, then month, then day. */
  predicate DateLe(a: Date, b: Date)
  {
    a.year < b.year
    || (a.year == b.year && a.month < b.month)
    || (a.year == b.year && a.month == b.month && a.day <= b.day)
  }

  /** `datetime.min.time()`. */
  const Midnight := Time(0, 0, 0)

  /**
   * The export's date handling: a `datetime` is used as it is, a bare `date`
   * is combined with midnight (`datetime.combine(d, datetime.min.time())`).
   */
  function ToDateTime(m: Moment): (r: DateTime)
    ensures r.date == m.date
    ensures m.At? ==> r.time == m.time
    ensures m.OnDate? ==> r.time == Midnight
  {
    match m
    case OnDate(d) => DateTime(d, Midnight)
    case At(d, t) => DateTime(d, t)
  }

  // ---------------------------------------------------------------------
  // Fixed-width decimal digits

  function Pow10(w: nat): nat
  {
    if w == 0 then 1 else 10 * Pow10(w - 1)
  }

  function DigitChar(d: nat): char
    requires d < 10
  {
    ('0' as int + d) as char
  }

  function DigitValue(c: char): Option<nat>
  {
    if '0' <= c <= '9' then Some(c as int - '0' as int) else None
  }

  /** `n` written with exactly `w` decimal digits, zero-padded on the left (`%0wd` for n < 10^w). */
  function Padded(n: nat, w: nat): (r: string)
    ensures |r| == w
  {
    if w == 0 then [] else Padded(n / 10, w - 1) + [DigitChar(n % 10)]
  }

  /** The value of a string of decimal digits, or None if some char is not a digit. */
  function ParseDigits(s: string): Option<nat>
  {
    if s == [] then Some(0)
    else match ParseDigits(s[..|s| - 1])
      case None => None
      case Some(v) =>
        match DigitValue(s[|s| - 1])
        case None => None
        case Some(d) => Some(10 * v + d)
  }

  lemma {:induction false} ParsePadded(n: nat, w: nat)
    requires n < Pow10(w)
    ensures ParseDigits(Padded(n, w)) == Some(n)
  {
    if w > 0 {
      var s := Padded(n, w);
      assert s[..|s| - 1] == Padded(n / 10, w - 1);
      ParsePadded(n / 10, w - 1);
      assert s[|s| - 1] == DigitChar(n % 10);
    }
  }

  lemma {:induction false} PadParsed(s: string, v: nat)
    requires ParseDigits(s) == Some(v)
    ensures v < Pow10(|s|)
    ensures Padded(v, |s|) == s
  {
    if s != [] {
      var init := s[..|s| - 1];
      var u :| ParseDigits(init) == Some(u);
      PadParsed(init, u);
      var d := DigitValue(s[|s| - 1]).value;
      assert v == 10 * u + d;
      assert v / 10 == u && v % 10 == d;
      assert DigitChar(d) == s[|s| - 1];
      assert s == init + [s[|s| - 1]];
    }
  }

  // ---------------------------------------------------------------------
  // isoformat text

  /** `date.isoformat()`: `YYYY-MM-DD`. */
  function FormatDate(d: Date): string
  {
    Padded(d.year, 4) + "-" + Padded(d.month, 2) + "-" + Padded(d.day, 2)
  }

  /** `time.isoformat()` without microseconds: `HH:MM:SS`. */
  function FormatTime(t: Time): string
  {
    Padded(t.hour, 2) + ":" + Padded(t.minute, 2) + ":" + Padded(t.second, 2)
  }

  /** `datetime.isoformat()` for a naive value with no microseconds: `YYYY-MM-DDTHH:MM:SS`. */
  function FormatIso(dt: DateTime): (r: string)
    ensures |r| == 19
  {
    FormatDate(dt.date) + "T" + FormatTime(dt.time)
  }

  /** Reads `YYYY-MM-DDTHH:MM:SS` back; None unless the text is well shaped and names a valid date-time. */
  function ParseIso(s: string): Option<DateTime>
  {
    if |s| != 19 || s[4] != '-' || s[7] != '-' || s[10] != 'T' || s[13] != ':' || s[16] != ':' then None
    else
      var y, mo, d := ParseDigits(s[0..4]), ParseDigits(s[5..7]), ParseDigits(s[8..10]);
      var h, mi, se := ParseDigits(s[11..13]), ParseDigits(s[14..16]), ParseDigits(s[17..19]);
      if y.None? || mo.None? || d.None? || h.None? || mi.None? || se.None? then None
      else
        var dt := DateTime(Date(y.value, mo.value, d.value), Time(h.value, mi.value, se.value));
        if ValidDateTime(dt) then Some(dt) else None
  }

  /** Formatting then parsing gives back every valid naive date-time. */
  lemma ParseFormatIso(dt: DateTime)
    requires ValidDateTime(dt)
    ensures ParseIso(FormatIso(dt)) == Some(dt)
  {
    var s := FormatIso(dt);
    assert s[0..4] == Padded(dt.date.year, 4);
    assert s[5..7] == Padded(dt.date.month, 2);
    assert s[8..10] == Padded(dt.date.day, 2);
    assert s[11..13] == Padded(dt.time.hour, 2);
    assert s[14..16] == Padded(dt.time.minute, 2);
    assert s[17..19] == Padded(dt.time.second, 2);
    assert Pow10(2) == 100 && Pow10(4) == 10000;
    ParsePadded(dt.date.year, 4);
    ParsePadded(dt.date.month, 2);
    ParsePadded(dt.date.day, 2);
    ParsePadded(dt.time.hour, 2);
    ParsePadded(dt.time.minute, 2);
    ParsePadded(dt.time.second, 2);
  }

  /** Whatever text parses is exactly the formatting of what it parses to. */
  lemma FormatParsedIso(s: string, dt: DateTime)
    requires ParseIso(s) == Some(dt)
    ensures ValidDateTime(dt)
    ensures FormatIso(dt) == s
  {
    assert |s| == 19;
    assert ParseDigits(s[0..4]) == Some(dt.date.year);
    assert ParseDigits(s[5..7]) == Some(dt.date.month);
    assert ParseDigits(s[8..10]) == Some(dt.date.day);
    assert ParseDigits(s[11..13]) == Some(dt.time.hour);
    assert ParseDigits(s[14..16]) == Some(dt.time.minute);
    assert ParseDigits(s[17..19]) == Some(dt.time.second);
    assert s[4] == '-' && s[7] == '-' && s[10] == 'T' && s[13] == ':' && s[16] == ':';
    PadParsed(s[0..4], dt.date.year);
    PadParsed(s[5..7], dt.date.month);
    PadParsed(s[8..10], dt.date.day);
    PadParsed(s[11..13], dt.time.hour);
    PadParsed(s[14..16], dt.time.minute);
    PadParsed(s[17..19], dt.time.second);
    SplitIsoText(s);
  }

  /** A 19-char text is its six fields with the five separators between them. */
  lemma SplitIsoText(s: string)
    requires |s| == 19
    ensures s == s[0..4] + [s[4]] + s[5..7] + [s[7]] + s[8..10] + [s[10]] + s[11..13] + [s[13]] + s[14..16] + [s[16]] + s[17..19]
  {
  }

  /**
   * A bare date is sent as that day at midnight: its text is the date's own
   * text followed by `T00:00:00`, and it reads back as that day at 00:00:00.
   */
  lemma BareDateIsoIsMidnight(d: Date)
    requires ValidDate(d)
    ensures FormatIso(ToDateTime(OnDate(d))) == FormatDate(d) + "T00:00:00"
    ensures ParseIso(FormatIso(ToDateTime(OnDate(d)))) == Some(DateTime(d, Midnight))
  {
    assert Padded(0, 2) == "00";
    ParseFormatIso(DateTime(d, Midnight));
  }

  /** A date-time start or end keeps its own date and time of day in the text sent. */
  lemma DateTimeIsoUnchanged(d: Date, t: Time)
    requires ValidDateTime(DateTime(d, t))
    ensures ParseIso(FormatIso(ToDateTime(At(d, t)))) == Some(DateTime(d, t))
  {
    ParseFormatIso(DateTime(d, t));
  }
}
