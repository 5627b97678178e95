/** `createTimes`: a schedule row's date text ("M/D/YYYY") and a time text
    ("H:MM AM") become a 24-hour timestamp in the one fixed time zone of
    the production. */
module Times {
  import opened Tables
  import opened Text

  /** The zone every timestamp carries. */
  const Zone := "America/Chicago"

  datatype Timestamp = Timestamp(year: int, month: int, day: int, hour: int, minute: int, zone: string)

  /** The only adjustment the scripts make: a "PM" hour other than 12 gains
      12. Every other marker, "AM" included, leaves the hour as parsed, so
      "12:xx AM" stays hour 12. */
  function ClockHour(hour: nat, daytime: string): (h: nat)
    ensures daytime != "PM" ==> h == hour
    ensures h != hour <==> daytime == "PM" && hour != 12
    ensures h != hour ==> h == hour + 12
  {
    if daytime == "PM" && hour != 12 then hour + 12 else hour
  }

  /** How a 24-hour clock hour is shown on a 12-hour clock ("%I %p"). */
  function TwelveHour(h: nat): (nat, string)
    requires h < 24
  {
    (if h % 12 == 0 then 12 else h % 12, if h < 12 then "AM" else "PM")
  }

  predicate IsLeapYear(y: int)
  {
    y % 4 == 0 && (y % 100 != 0 || y % 400 == 0)
  }

  function DaysInMonth(y: int, m: int): int
    requires 1 <= m <= 12
  {
    if m == 2 then (if IsLeapYear(y) then 29 else 28)
    else if m == 4 || m == 6 || m == 9 || m == 11 then 30
    else 31
  }

  /** What `datetime(year, month, day, hour, minute)` accepts. */
  predicate ValidDateTime(y: int, m: int, d: int, h: int, mi: int)
  {
    && 1 <= y <= 9999
    && 1 <= m <= 12
    && 1 <= d <= DaysInMonth(y, m)
    && 0 <= h <= 23
    && 0 <= mi <= 59
  }

  /** The date pattern "{:d}/{:d}/{:d}": month, day and year. */
  function ParseDate(d: string): Option<(nat, nat, nat)>
  {
    match SplitOnce(d, '/')
    case None => None
    case Some(p) =>
      match SplitOnce(p.1, '/')
      case None => None
      case Some(q) =>
        match (ParseNat(p.0), ParseNat(q.0), ParseNat(q.1))
        case (Some(mm), Some(dd), Some(yyyy)) => Some((mm, dd, yyyy))
        case _ => None
  }

  /** The time pattern "{:d}:{:d} {}": hour, minute and the day-time marker (all
      the text after the first space following the minutes). */
  function ParseTime(t: string): Option<(nat, nat, string)>
  {
    match SplitOnce(t, ':')
    case None => None
    case Some(p) =>
      match SplitOnce(p.1, ' ')
      case None => None
      case Some(q) =>
        match (ParseNat(p.0), ParseNat(q.0))
        case (Some(hour), Some(minute)) => if q.1 == "" then None else Some((hour, minute, q.1))
        case _ => None
  }

  /** `createTimes(d, t)`. A text that does not match its pattern fails
      when the `None` that `parse` returns is unpacked; an impossible
      date or hour fails in `datetime`. */
  function CreateTimes(d: string, t: string): Result<Timestamp>
  {
    match ParseDate(d)
    case None => Err(NoMatch(d))
    case Some(date) =>
      match ParseTime(t)
      case None => Err(NoMatch(t))
      case Some(time) =>
        var (mm, dd, yyyy) := date;
        var (hour, minute, daytime) := time;
        var h := ClockHour(hour, daytime);
        if ValidDateTime(yyyy, mm, dd, h, minute) then Ok(Timestamp(yyyy, mm, dd, h, minute, Zone))
        else Err(BadDateTime)
  }

  /** A field of digits as the `{:d}` of a pattern matches it. */
  predicate DigitField(s: string)
  {
    |s| > 0 && AllDigits(s)
  }

  /** The date text `d` is three digit fields separated by "/", reading as
      month `m`, day `dd` and year `y`. */
  ghost predicate DateText(d: string, m: nat, dd: nat, y: nat)
  {
    exists a, b, c :: DigitField(a) && DigitField(b) && DigitField(c) && d == a + "/" + b + "/" + c
      && m == DigitsValue(a) && dd == DigitsValue(b) && y == DigitsValue(c)
  }

  /** The time text `t` is a digit field, ":", a digit field, a space and a
      non-empty marker, reading as hour `h`, minute `mi` and marker `dt`. */
  ghost predicate TimeText(t: string, h: nat, mi: nat, dt: string)
  {
    exists a, b :: DigitField(a) && DigitField(b) && dt != "" && t == a + ":" + b + " " + dt
      && h == DigitsValue(a) && mi == DigitsValue(b)
  }

  /** Three digit fields around two "/" read as their values. */
  lemma DateOfFields(a: string, b: string, c: string)
    requires DigitField(a) && DigitField(b) && DigitField(c)
    ensures ParseDate(a + "/" + b + "/" + c) == Some((DigitsValue(a), DigitsValue(b), DigitsValue(c)))
  {
    DigitsExclude(a, '/');
    DigitsExclude(b, '/');
    assert a + "/" + b + "/" + c == a + ['/'] + (b + ['/'] + c);
    SplitOnceOf(a, '/', b + ['/'] + c);
    SplitOnceOf(b, '/', c);
    ParseNatSpec(a);
    ParseNatSpec(b);
    ParseNatSpec(c);
  }

  /** A date the reader accepts is three digit fields around two "/". */
  lemma FieldsOfDate(d: string) returns (a: string, b: string, c: string)
    requires ParseDate(d).Some?
    ensures DigitField(a) && DigitField(b) && DigitField(c) && d == a + "/" + b + "/" + c
    ensures ParseDate(d).value == (DigitsValue(a), DigitsValue(b), DigitsValue(c))
  {
    var p := SplitOnce(d, '/').value;
    var q := SplitOnce(p.1, '/').value;
    a, b, c := p.0, q.0, q.1;
    ParseNatSpec(a);
    ParseNatSpec(b);
    ParseNatSpec(c);
  }

  /** The date reader accepts exactly the texts of the date pattern, with
      the values their fields read as. */
  lemma ParseDateSpec(d: string, m: nat, dd: nat, y: nat)
    ensures ParseDate(d) == Some((m, dd, y)) <==> DateText(d, m, dd, y)
  {
    if ParseDate(d) == Some((m, dd, y)) {
      var a, b, c := FieldsOfDate(d);
    }
    if DateText(d, m, dd, y) {
      var a, b, c :| DigitField(a) && DigitField(b) && DigitField(c) && d == a + "/" + b + "/" + c
        && m == DigitsValue(a) && dd == DigitsValue(b) && y == DigitsValue(c);
      DateOfFields(a, b, c);
    }
  }

  /** Two digit fields around ":", then a space and a non-empty marker,
      read as their values and the marker. */
  lemma TimeOfFields(a: string, b: string, dt: string)
    requires DigitField(a) && DigitField(b) && dt != ""
    ensures ParseTime(a + ":" + b + " " + dt) == Some((DigitsValue(a), DigitsValue(b), dt))
  {
    DigitsExclude(a, ':');
    DigitsExclude(b, ' ');
    assert a + ":" + b + " " + dt == a + [':'] + (b + [' '] + dt);
    SplitOnceOf(a, ':', b + [' '] + dt);
    SplitOnceOf(b, ' ', dt);
    ParseNatSpec(a);
    ParseNatSpec(b);
  }

  /** A time the reader accepts is two digit fields around ":", a space
      and a non-empty marker. */
  lemma FieldsOfTime(t: string) returns (a: string, b: string)
    requires ParseTime(t).Some?
    ensures DigitField(a) && DigitField(b) && ParseTime(t).value.2 != ""
    ensures t == a + ":" + b + " " + ParseTime(t).value.2
    ensures ParseTime(t).value.0 == DigitsValue(a) && ParseTime(t).value.1 == DigitsValue(b)
  {
    var p := SplitOnce(t, ':').value;
    var q := SplitOnce(p.1, ' ').value;
    a, b := p.0, q.0;
    ParseNatSpec(a);
    ParseNatSpec(b);
  }

  /** The time reader accepts exactly the texts of the time pattern, with
      the values their fields read as and the marker after the space. */
  lemma ParseTimeSpec(t: string, h: nat, mi: nat, dt: string)
    ensures ParseTime(t) == Some((h, mi, dt)) <==> TimeText(t, h, mi, dt)
  {
    if ParseTime(t) == Some((h, mi, dt)) {
      var a, b := FieldsOfTime(t);
    }
    if TimeText(t, h, mi, dt) {
      var a, b :| DigitField(a) && DigitField(b) && dt != "" && t == a + ":" + b + " " + dt
        && h == DigitsValue(a) && mi == DigitsValue(b);
      TimeOfFields(a, b, dt);
    }
  }

  /** A date text and a time text of the patterns convert to the timestamp
      of that date at the clock hour of the time in the production's zone,
      unless that date or clock hour does not exist. */
  lemma CreateTimesSpec(d: string, t: string, m: nat, dd: nat, y: nat, h: nat, mi: nat, dt: string)
    ensures DateText(d, m, dd, y) && TimeText(t, h, mi, dt) ==>
      CreateTimes(d, t)
        == if ValidDateTime(y, m, dd, ClockHour(h, dt), mi) then Ok(Timestamp(y, m, dd, ClockHour(h, dt), mi, Zone))
           else Err(BadDateTime)
  {
    ParseDateSpec(d, m, dd, y);
    ParseTimeSpec(t, h, mi, dt);
  }

  /** The date reader fails exactly on the texts that are not of the date
      pattern. */
  lemma ParseDateNone(d: string)
    ensures ParseDate(d).None? <==> forall m, dd, y :: !DateText(d, m, dd, y)
  {
    if ParseDate(d).Some? {
      var (m, dd, y) := ParseDate(d).value;
      ParseDateSpec(d, m, dd, y);
    }
    if exists m, dd, y :: DateText(d, m, dd, y) {
      var m, dd, y :| DateText(d, m, dd, y);
      ParseDateSpec(d, m, dd, y);
    }
  }

  /** The time reader fails exactly on the texts that are not of the time
      pattern. */
  lemma ParseTimeNone(t: string)
    ensures ParseTime(t).None? <==> forall h, mi, dt :: !TimeText(t, h, mi, dt)
  {
    if ParseTime(t).Some? {
      var (h, mi, dt) := ParseTime(t).value;
      ParseTimeSpec(t, h, mi, dt);
    }
    if exists h, mi, dt :: TimeText(t, h, mi, dt) {
      var h, mi, dt :| TimeText(t, h, mi, dt);
      ParseTimeSpec(t, h, mi, dt);
    }
  }

  /** A date text that is not of the date pattern fails first; then a time
      text that is not of the time pattern fails. */
  lemma CreateTimesNoMatch(d: string, t: string)
    ensures (forall m, dd, y :: !DateText(d, m, dd, y)) ==> CreateTimes(d, t) == Err(NoMatch(d))
    ensures (exists m, dd, y :: DateText(d, m, dd, y)) && (forall h, mi, dt :: !TimeText(t, h, mi, dt))
      ==> CreateTimes(d, t) == Err(NoMatch(t))
  {
    ParseDateNone(d);
    ParseTimeNone(t);
    if ParseDate(d).None? {
      assert CreateTimes(d, t) == Err(NoMatch(d));
    } else if ParseTime(t).None? {
      assert CreateTimes(d, t) == Err(NoMatch(t));
    }
  }

  /** The date as a schedule cell shows it. */
  function FormatDate(m: nat, d: nat, y: nat): string
  {
    ShowNat(m) + "/" + ShowNat(d) + "/" + ShowNat(y)
  }

  /** Minutes with two digits. */
  function TwoDigits(mi: nat): string
  {
    if mi < 10 then "0" + ShowNat(mi) else ShowNat(mi)
  }

  /** A time as a schedule cell shows it. */
  function FormatTime(h12: nat, mi: nat, daytime: string): string
  {
    ShowNat(h12) + ":" + TwoDigits(mi) + " " + daytime
  }

  lemma ParseNatShow(n: nat)
    ensures ParseNat(ShowNat(n)) == Some(n)
  {
    ShowNatRoundTrip(n);
    ParseNatSpec(ShowNat(n));
  }

  lemma DigitsExclude(s: string, c: char)
    requires AllDigits(s) && !IsDigit(c)
    ensures c !in s
  {
  }

  /** Reading back a date written as a schedule shows it. */
  lemma ParseDateRoundTrip(m: nat, d: nat, y: nat)
    ensures ParseDate(FormatDate(m, d, y)) == Some((m, d, y))
  {
    var ms, ds, ys := ShowNat(m), ShowNat(d), ShowNat(y);
    DigitsExclude(ms, '/');
    DigitsExclude(ds, '/');
    assert FormatDate(m, d, y) == ms + ['/'] + (ds + ['/'] + ys);
    SplitOnceOf(ms, '/', ds + ['/'] + ys);
    SplitOnceOf(ds, '/', ys);
    ParseNatShow(m);
    ParseNatShow(d);
    ParseNatShow(y);
  }

  /** Reading back a time written as a schedule shows it. */
  lemma ParseTimeRoundTrip(h12: nat, mi: nat, daytime: string)
    requires daytime != ""
    ensures ParseTime(FormatTime(h12, mi, daytime)) == Some((h12, mi, daytime))
  {
    var hs, mis := ShowNat(h12), TwoDigits(mi);
    ParseNatShow(h12);
    ParseNatShow(mi);
    if mi < 10 {
      LeadingZero(ShowNat(mi));
    }
    ParseNatSpec(mis);
    assert ParseNat(mis) == Some(mi);
    DigitsExclude(hs, ':');
    DigitsExclude(mis, ' ');
    assert FormatTime(h12, mi, daytime) == hs + [':'] + (mis + [' '] + daytime);
    SplitOnceOf(hs, ':', mis + [' '] + daytime);
    SplitOnceOf(mis, ' ', daytime);
  }

  /** On a 12-hour clock every converted hour shows as it was written,
      except that "12:xx AM" shows as "12:xx PM": the conversion keeps hour
      12 for AM, so noon and midnight coincide. */
  lemma ClockHourOnTwelveHourClock(h12: nat, daytime: string)
    requires 1 <= h12 <= 12
    requires daytime == "AM" || daytime == "PM"
    ensures ClockHour(h12, daytime) < 24
    ensures TwelveHour(ClockHour(h12, daytime)) == if h12 == 12 then (12, "PM") else (h12, daytime)
  {
  }

  /** Every date and 12-hour time written the way a schedule shows them
      converts to the timestamp they denote. */
  lemma CreateTimesRoundTrip(y: nat, m: nat, d: nat, h12: nat, mi: nat, daytime: string)
    requires 1 <= y <= 9999 && 1 <= m <= 12 && 1 <= d <= DaysInMonth(y, m)
    requires 1 <= h12 <= 12 && mi <= 59
    requires daytime == "AM" || daytime == "PM"
    ensures CreateTimes(FormatDate(m, d, y), FormatTime(h12, mi, daytime))
         == Ok(Timestamp(y, m, d, ClockHour(h12, daytime), mi, Zone))
  {
    ParseDateRoundTrip(m, d, y);
    ParseTimeRoundTrip(h12, mi, daytime);
    var dt, tt := FormatDate(m, d, y), FormatTime(h12, mi, daytime);
    assert ParseDate(dt) == Some((m, d, y));
    assert ParseTime(tt) == Some((h12, mi, daytime));
  }
}
