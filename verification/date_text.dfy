/** The scraper's two date conversions, `parseDateToUTC` and the parse of
    the page's "last updated" line, together with the host's date-string
    parser they hand their rebuilt text to. */
module DateText {

  import opened Wrappers
  import opened Numerals
  import opened JsText
  import opened Civil

  /** The longest leading run of decimal digits and what follows it. */
  function ReadNumber(s: string): (r: Option<(nat, string)>)
    ensures r.Some? ==> |r.value.1| < |s|
  {
    var k := DigitRun(s, 10);
    DigitRunMaximal(s, 10);
    if k == 0 then None else Some((ValueOf(s[..k], 10), s[k..]))
  }

  /** One given character, consumed. */
  function MatchChar(s: string, c: char): (r: Option<string>)
    ensures r.Some? ==> |s| >= 1 && s[0] == c && r.value == s[1..]
  {
    if |s| >= 1 && s[0] == c then Some(s[1..]) else None
  }

  /** `a sep b sep c` at the start of `s`: the three numbers and the rest. */
  function ReadDate(s: string, sep: char): Option<(nat, nat, nat, string)> {
    var (a, r1) :- ReadNumber(s);
    var r2 :- MatchChar(r1, sep);
    var (b, r3) :- ReadNumber(r2);
    var r4 :- MatchChar(r3, sep);
    var (c, r5) :- ReadNumber(r4);
    Some((a, b, c, r5))
  }

  /** What may follow the date: nothing but white space (midnight), or white
      space, `hours:minutes` and white space. */
  function ReadTime(s: string): Option<(nat, nat)> {
    var t := TrimStart(s);
    if t == [] then Some((0, 0))
    else if |t| == |s| then None
    else ReadClock(t)
  }

  /** `hours:minutes` and nothing after it but white space. */
  function ReadClock(s: string): Option<(nat, nat)> {
    var (hour, r1) :- ReadNumber(s);
    var r2 :- MatchChar(r1, ':');
    var (minute, r3) :- ReadNumber(r2);
    if TrimStart(r3) == [] then Some((hour, minute)) else None
  }

  /** The host's window for a year written with a small value: 0 to 49 mean
      2000 to 2049 and 50 to 99 mean 1950 to 1999, however many digits the
      year was written with. */
  function HostYear(y: nat): (r: nat)
    ensures r >= 100
  {
    if y <= 49 then 2000 + y
    else if y <= 99 then 1900 + y
    else y
  }

  /** The times of day the host accepts: hours 0 to 23 with minutes 0 to 59,
      and 24:00, which is midnight at the end of the day. */
  predicate HostClock(hour: nat, minute: nat) {
    (hour < 24 && minute < 60) || (hour == 24 && minute == 0)
  }

  /** The local date-time the fields denote, as the host's date composer builds
      it: months 1 to 12, days 1 to 31 with days past the end of the month
      rolled into the next, the accepted times of day, and TimeClip. */
  function Build(year: nat, month: nat, day: nat, hour: nat, minute: nat): (r: Option<DateTime>)
    ensures r.Some? ==> 1 <= month <= 12 && 1 <= day <= 31 && HostClock(hour, minute)
    ensures r.Some? ==> Valid(r.value) && InRange(r.value)
    ensures r.Some? ==> r.value.minute == minute && r.value.second == 0 && r.value.ms == 0
    ensures r.Some? ==> year <= r.value.year
    ensures r.Some? && hour < 24 ==> r.value.hour == hour && r.value.year == year
    ensures r.Some? && hour == 24 ==> r.value.hour == 0
  {
    if !(1 <= month <= 12 && 1 <= day <= 31 && HostClock(hour, minute)) then None
    else
      var d := RollDay(year, month, day);
      var t := if hour < 24 then DateTime(d.0, d.1, d.2, hour, minute, 0, 0)
               else var n := NextDay(d.0, d.1, d.2); DateTime(n.0, n.1, n.2, 0, 0, 0, 0);
      if InRange(t) then Some(t) else None
  }

  /** A `Date` is built exactly when the fields are in range and TimeClip
      accepts them; it denotes the instant `Date.UTC` computes from the fields,
      and a calendar date that exists is kept as it is, or at 24:00 moved to
      the next day's midnight. */
  lemma BuildMeaning(year: nat, month: nat, day: nat, hour: nat, minute: nat)
    ensures Build(year, month, day, hour, minute).Some?
            <==> (1 <= month <= 12 && 1 <= day <= 31 && HostClock(hour, minute)
                  && InRange(DateTime(year, month, day, hour, minute, 0, 0)))
    ensures Build(year, month, day, hour, minute).Some? ==>
              TimeValue(Build(year, month, day, hour, minute).value)
              == TimeValue(DateTime(year, month, day, hour, minute, 0, 0))
    ensures Build(year, month, day, hour, minute).Some? && ValidDate(year, month, day) && hour < 24 ==>
              Build(year, month, day, hour, minute).value == DateTime(year, month, day, hour, minute, 0, 0)
    ensures Build(year, month, day, hour, minute).Some? && ValidDate(year, month, day) && hour == 24 ==>
              var n := NextDay(year, month, day);
              Build(year, month, day, hour, minute).value == DateTime(n.0, n.1, n.2, 0, 0, 0, 0)
  {
    if 1 <= month <= 12 && 1 <= day <= 31 && hour == 24 && minute == 0 {
      var d := RollDay(year, month, day);
      var n := NextDay(d.0, d.1, d.2);
      assert DayNumber(n.0, n.1, n.2) == DayNumber(year, month, day) + 1;
      assert TimeValue(DateTime(n.0, n.1, n.2, 0, 0, 0, 0))
             == TimeValue(DateTime(year, month, day, hour, minute, 0, 0));
    }
  }

  /** The host's date composer on the three numbers of a text that does not
      name its month: month, day and year in that order, or year, month and
      day when the first number cannot be a day; then the year window. */
  function Compose(a: nat, b: nat, c: nat, hour: nat, minute: nat): (r: Option<DateTime>)
    ensures r.Some? ==> Valid(r.value) && InRange(r.value) && r.value.second == 0 && r.value.ms == 0
    ensures r.Some? ==> r.value.year >= 100
  {
    if 1 <= a <= 31 then Build(HostYear(c), a, b, hour, minute)
    else Build(HostYear(a), b, c, hour, minute)
  }

  /** A first number that is a month is read as the month. */
  lemma MonthFirst(a: nat, b: nat, c: nat, hour: nat, minute: nat)
    requires 1 <= a <= 12
    ensures Compose(a, b, c, hour, minute) == Build(HostYear(c), a, b, hour, minute)
  {
  }

  /** The host's parse of `new Date(text)` for the shapes the scraper builds:
      three numbers joined by `sep`, optionally followed by `hours:minutes`.
      Text of any other shape is an invalid date (`None`). The fields are read
      as UTC. */
  function HostParse(s: string, sep: char): (r: Option<DateTime>)
    ensures r.Some? ==> Valid(r.value) && InRange(r.value) && r.value.second == 0 && r.value.ms == 0
    ensures r.Some? ==> r.value.year >= 100
  {
    var (a, b, c, rest) :- ReadDate(TrimStart(s), sep);
    var (hour, minute) :- ReadTime(rest);
    Compose(a, b, c, hour, minute)
  }

  /** `parseDateToUTC`: `DD.MM.YYYY` is split on `.`, rebuilt as `MM/DD/YYYY`,
      parsed, and taken back to midnight UTC of the same calendar day. */
  function ParseDateToUtc(dateString: string): (r: Option<DateTime>)
    ensures r.Some? ==> Valid(r.value) && InRange(r.value)
    ensures r.Some? ==> r.value.hour == 0 && r.value.minute == 0 && r.value.second == 0 && r.value.ms == 0
  {
    var split := Split(dateString, '.');
    var local :- HostParse(Field(split, 1) + "/" + Field(split, 0) + "/" + Field(split, 2), '/');
    var utc := UtcFields(local);
    MidnightInRange(utc);
    Some(utc.(hour := 0, minute := 0, second := 0, ms := 0))
  }

  /** The text of the page's "last updated" node after `trim`, after the first
      `Poslední aktualizace: ` is removed and after every no-break space is removed. */
  function CleanLastModified(text: string): string {
    RemoveAll(ReplaceFirst(Trim(text), LastModifiedLabel, ""), '\U{00A0}')
  }

  /** The label in front of the page's last-updated time. */
  const LastModifiedLabel := "Posledn\U{00ED} aktualizace: "

  /** The text handed to `new Date` for the last-updated line: split on `v`,
      the date part split on `.` and rebuilt month first, the time part with its
      first `h` removed and its first `.` turned into `:`. `None` when there is
      no `v`: `parts[1]` is undefined and calling `replace` on it throws. */
  function SourceDateTimeText(lastUpdated: string): Option<string> {
    var parts := Split(lastUpdated, 'v');
    if |parts| < 2 then None
    else
      var splited := Split(parts[0], '.');
      var time := ReplaceFirst(ReplaceFirst(parts[1], "h", ""), ".", ":");
      Some(Field(splited, 1) + "." + Field(splited, 0) + "." + Field(splited, 2) + " " + time)
  }

  /** `Date.UTC(year, month, date, hours - 1, minutes)` of the parsed local
      fields; `None` is an invalid date, on which `toISOString` later throws. */
  function SourceTimestamp(dateTimeText: string): (r: Option<DateTime>)
    ensures r.Some? ==> Valid(r.value) && InRange(r.value) && r.value.second == 0 && r.value.ms == 0
  {
    var local :- HostParse(dateTimeText, '.');
    var utc := MinusOneHour(UtcFields(local));
    if InRange(utc) then Some(utc) else None
  }

  /** A run of digits is read in full, up to the first non-digit. */
  lemma ReadNumberOf(ds: string, rest: string)
    requires |ds| >= 1 && AllDecimal(ds)
    requires rest == [] || !IsDecimalDigit(rest[0])
    ensures ReadNumber(ds + rest) == Some((ValueOf(ds, 10), rest))
  {
    DigitRunOfPrefix(ds, rest, 10);
    DropPrefix(ds, rest);
  }

  /** Three digit runs joined by the separator are month, day and year. */
  lemma ReadDateOf(month: string, day: string, year: string, rest: string, sep: char)
    requires |month| >= 1 && AllDecimal(month)
    requires |day| >= 1 && AllDecimal(day)
    requires |year| >= 1 && AllDecimal(year)
    requires !IsDecimalDigit(sep)
    requires rest == [] || !IsDecimalDigit(rest[0])
    ensures ReadDate(month + [sep] + day + [sep] + year + rest, sep)
            == Some((ValueOf(month, 10), ValueOf(day, 10), ValueOf(year, 10), rest))
  {
    var r4 := year + rest;
    var r2 := day + ([sep] + r4);
    Assoc(month + [sep] + day + [sep], year, rest);
    Assoc(month + [sep] + day, [sep], r4);
    Assoc(month + [sep], day, [sep] + r4);
    Assoc(month, [sep], r2);
    DropPrefix([sep], r2);
    DropPrefix([sep], r4);
    ReadNumberOf(month, [sep] + r2);
    ReadNumberOf(day, [sep] + r4);
    ReadNumberOf(year, rest);
  }

  /** White space alone after the date means midnight. */
  lemma ReadTimeNone(ws: string)
    requires AllSpace(ws)
    ensures ReadTime(ws) == Some((0, 0))
  {
    SkipSpace(ws, []);
    NoRest(ws);
  }

  /** White space, then `hours:minutes`. */
  lemma ReadTimeOf(ws: string, hour: string, minute: string)
    requires |ws| >= 1 && AllSpace(ws)
    requires |hour| >= 1 && AllDecimal(hour)
    requires |minute| >= 1 && AllDecimal(minute)
    ensures ReadTime(ws + (hour + [':'] + minute)) == Some((ValueOf(hour, 10), ValueOf(minute, 10)))
  {
    var t := hour + [':'] + minute;
    assert t[0] == hour[0];
    SkipSpace(ws, t);
    ReadClockOf(hour, minute);
  }

  lemma ReadClockOf(hour: string, minute: string)
    requires |hour| >= 1 && AllDecimal(hour)
    requires |minute| >= 1 && AllDecimal(minute)
    ensures ReadClock(hour + [':'] + minute) == Some((ValueOf(hour, 10), ValueOf(minute, 10)))
  {
    Assoc(hour, [':'], minute);
    DropPrefix([':'], minute);
    ReadNumberOf(hour, [':'] + minute);
    NoRest(minute);
    ReadNumberOf(minute, []);
  }

  /** The host parse is the `Date` composed from what the date and time readers return. */
  lemma HostParseOf(s: string, sep: char, a: nat, b: nat, c: nat, rest: string, hour: nat, minute: nat)
    requires ReadDate(TrimStart(s), sep) == Some((a, b, c, rest))
    requires ReadTime(rest) == Some((hour, minute))
    ensures HostParse(s, sep) == Compose(a, b, c, hour, minute)
  {
  }

  /** The date at the very start of the text is read, and the rest left over. */
  lemma DateThenRest(month: string, day: string, year: string, sep: char, rest: string)
    requires |month| >= 1 && AllDecimal(month)
    requires |day| >= 1 && AllDecimal(day)
    requires |year| >= 1 && AllDecimal(year)
    requires !IsDecimalDigit(sep)
    requires rest == [] || !IsDecimalDigit(rest[0])
    ensures ReadDate(TrimStart(month + [sep] + day + [sep] + year + rest), sep)
            == Some((ValueOf(month, 10), ValueOf(day, 10), ValueOf(year, 10), rest))
  {
    var s := month + [sep] + day + [sep] + year + rest;
    assert !IsJsSpace(s[0]);
    SkipSpace([], s);
    ReadDateOf(month, day, year, rest, sep);
  }

  /** The host parse of `month sep day sep year` is the `Date` the host composes from those numbers. */
  lemma HostParseDate(month: string, day: string, year: string, sep: char, m: nat, d: nat, y: nat)
    requires |month| >= 1 && AllDecimal(month) && m == ValueOf(month, 10)
    requires |day| >= 1 && AllDecimal(day) && d == ValueOf(day, 10)
    requires |year| >= 1 && AllDecimal(year) && y == ValueOf(year, 10)
    requires !IsDecimalDigit(sep)
    ensures HostParse(month + [sep] + day + [sep] + year, sep) == Compose(m, d, y, 0, 0)
  {
    var s := month + [sep] + day + [sep] + year;
    NoRest(s);
    DateThenRest(month, day, year, sep, []);
    ReadTimeNone([]);
    HostParseOf(s, sep, m, d, y, [], 0, 0);
  }

  /** The host parse of `month sep day sep year`, white space, `hours:minutes`. */
  lemma HostParseDateTime(month: string, day: string, year: string, sep: char,
                          ws: string, hour: string, minute: string,
                          m: nat, d: nat, y: nat, h: nat, n: nat)
    requires |month| >= 1 && AllDecimal(month) && m == ValueOf(month, 10)
    requires |day| >= 1 && AllDecimal(day) && d == ValueOf(day, 10)
    requires |year| >= 1 && AllDecimal(year) && y == ValueOf(year, 10)
    requires !IsDecimalDigit(sep)
    requires |ws| >= 1 && AllSpace(ws)
    requires |hour| >= 1 && AllDecimal(hour) && h == ValueOf(hour, 10)
    requires |minute| >= 1 && AllDecimal(minute) && n == ValueOf(minute, 10)
    ensures HostParse((month + [sep] + day + [sep] + year) + ws + (hour + [':'] + minute), sep)
            == Compose(m, d, y, h, n)
  {
    var date := month + [sep] + day + [sep] + year;
    var clock := hour + [':'] + minute;
    var s := date + ws + clock;
    Assoc(date, ws, clock);
    assert (ws + clock)[0] == ws[0];
    DateThenRest(month, day, year, sep, ws + clock);
    ReadTimeOf(ws, hour, minute);
    HostParseOf(s, sep, m, d, y, ws + clock, h, n);
  }

  /** `parseDateToUTC` of `DD.MM.YYYY` is the midnight the host composes from
      the fields read month first, the year windowed and day overflow rolled
      into the next month, and `None` (an invalid date) when a field is out of
      range. `Date.UTC` then keeps the year, which is at least 100. */
  lemma ParseDateToUtcOf(dd: string, mm: string, yyyy: string, d: nat, m: nat, y: nat)
    requires |dd| >= 1 && AllDecimal(dd) && d == ValueOf(dd, 10)
    requires |mm| >= 1 && AllDecimal(mm) && m == ValueOf(mm, 10)
    requires |yyyy| >= 1 && AllDecimal(yyyy) && y == ValueOf(yyyy, 10)
    ensures var r := ParseDateToUtc(dd + "." + mm + "." + yyyy);
            && (r.Some? <==> Compose(m, d, y, 0, 0).Some?)
            && (r.Some? ==> r.value == Compose(m, d, y, 0, 0).value)
  {
    NoCharInDigits(dd, '.');
    NoCharInDigits(mm, '.');
    NoCharInDigits(yyyy, '.');
    SplitThree(dd, mm, yyyy, '.');
    HostParseDate(mm, dd, yyyy, '/', m, d, y);
  }

  /** A calendar date that exists becomes its own midnight, UTC, in the
      windowed year. */
  lemma ParseDateToUtcCalendar(dd: string, mm: string, yyyy: string, d: nat, m: nat, y: nat)
    requires |dd| >= 1 && AllDecimal(dd) && d == ValueOf(dd, 10)
    requires |mm| >= 1 && AllDecimal(mm) && m == ValueOf(mm, 10)
    requires |yyyy| >= 1 && AllDecimal(yyyy) && y == ValueOf(yyyy, 10)
    requires ValidDate(HostYear(y), m, d) && InRange(DateTime(HostYear(y), m, d, 0, 0, 0, 0))
    ensures ParseDateToUtc(dd + "." + mm + "." + yyyy) == Some(DateTime(HostYear(y), m, d, 0, 0, 0, 0))
  {
    ParseDateToUtcOf(dd, mm, yyyy, d, m, y);
    BuildExisting(DateTime(HostYear(y), m, d, 0, 0, 0, 0));
  }

  /** A small year value is windowed: `01.03.20` is 1 March 2020. */
  lemma ShortYearExample()
    ensures ParseDateToUtc("01.03.20") == Some(DateTime(2020, 3, 1, 0, 0, 0, 0))
  {
    ShortYearFields();
    FirstOfMarch(2020);
    assert "01.03.20" == "01" + "." + "03" + "." + "20";
    ParseDateToUtcCalendar("01", "03", "20", 1, 3, 20);
  }

  /** The window goes by the year's value, not by its digits: `01.03.0020`
      is 1 March 2020 too. */
  lemma PaddedYearExample()
    ensures ParseDateToUtc("01.03.0020") == Some(DateTime(2020, 3, 1, 0, 0, 0, 0))
  {
    ShortYearFields();
    FirstOfMarch(2020);
    assert "01.03.0020" == "01" + "." + "03" + "." + "0020";
    ParseDateToUtcCalendar("01", "03", "0020", 1, 3, 20);
  }

  /** `01.03.75` is 1 March 1975. */
  lemma LateShortYearExample()
    ensures ParseDateToUtc("01.03.75") == Some(DateTime(1975, 3, 1, 0, 0, 0, 0))
  {
    ShortYearFields();
    FirstOfMarch(1975);
    assert "01.03.75" == "01" + "." + "03" + "." + "75";
    ParseDateToUtcCalendar("01", "03", "75", 1, 3, 75);
  }

  lemma FirstOfMarch(y: int)
    requires 1900 <= y <= 2100
    ensures ValidDate(y, 3, 1) && InRange(DateTime(y, 3, 1, 0, 0, 0, 0))
  {
    FourDigitInRange(y, 3, 1, 0);
  }

  lemma ShortYearFields()
    ensures AllDecimal("01") && ValueOf("01", 10) == 1 && AllDecimal("03") && ValueOf("03", 10) == 3
    ensures AllDecimal("20") && ValueOf("20", 10) == 20 && AllDecimal("75") && ValueOf("75", 10) == 75
    ensures AllDecimal("0020") && ValueOf("0020", 10) == 20
  {
    assert "01"[..1] == "0" && "03"[..1] == "0" && "0"[..0] == [];
    assert "20"[..1] == "2" && "2"[..0] == [];
    assert "75"[..1] == "7" && "7"[..0] == [];
    assert "0020"[..3] == "002" && "002"[..2] == "00" && "00"[..1] == "0";
  }

  /** The pieces of `DD.MM.YYYY vHH.MMh` are put back together month first,
      with the time's `h` dropped and its `.` turned into `:`. The year keeps
      the space that stood before the `v`. */
  lemma SourceDateTimeTextOf(dd: string, mm: string, yyyy: string, hh: string, mi: string)
    requires AllDecimal(dd) && AllDecimal(mm) && AllDecimal(yyyy) && AllDecimal(hh) && AllDecimal(mi)
    ensures SourceDateTimeText(dd + "." + mm + "." + yyyy + " v" + hh + "." + mi + "h")
            == Some(mm + "." + dd + "." + (yyyy + " ") + " " + (hh + ":" + mi))
  {
    var date := dd + "." + mm + "." + yyyy;
    var clock := hh + "." + mi;
    Assoc(date + " v", hh, ".");
    Assoc(date + " v", hh + ".", mi);
    Assoc(date + " v", clock, "h");
    NoCharInDotted(dd, mm, yyyy, 'v');
    NoCharInPair(hh, mi, 'v');
    assert 'v' !in clock + "h";
    SplitOnV(date, clock + "h");
    Assoc(dd + "." + mm + ".", yyyy, " ");
    NoCharInDigits(dd, '.');
    NoCharInDigits(mm, '.');
    NoCharInDigits(yyyy, '.');
    SplitThree(dd, mm, yyyy + " ", '.');
    NoCharInPair(hh, mi, 'h');
    NoRest(clock + "h");
    RemoveFirstChar(clock, 'h', "");
    NoRest(clock);
    NoCharInDigits(hh, '.');
    ReplaceFirstChar(hh, '.', ":", mi);
  }

  /** Neither a digit nor a dot occurs in digit runs joined by dots. */
  lemma NoCharInDotted(a: string, b: string, c: string, ch: char)
    requires AllDecimal(a) && AllDecimal(b) && AllDecimal(c)
    requires !IsDecimalDigit(ch) && ch != '.'
    ensures ch !in a + "." + b + "." + c
  {
  }

  lemma NoCharInPair(a: string, b: string, ch: char)
    requires AllDecimal(a) && AllDecimal(b)
    requires !IsDecimalDigit(ch) && ch != '.'
    ensures ch !in a + "." + b
  {
  }

  /** Text with one `v` splits into the part before it and the part after it. */
  lemma SplitOnV(date: string, time: string)
    requires 'v' !in date && 'v' !in time
    ensures Split(date + " v" + time, 'v') == [date + " ", time]
  {
    assert " v" == [' '] + ['v'];
    Assoc(date, [' '], ['v']);
    SplitAtFirst(date + [' '], 'v', time);
    SplitNoSeparator(time, 'v');
  }

  /** The host reads the rebuilt last-updated text as its five fields. */
  lemma SourceHostParseOf(mm: string, dd: string, yyyy: string, hh: string, mi: string,
                          m: nat, d: nat, y: nat, h: nat, n: nat)
    requires |mm| >= 1 && AllDecimal(mm) && m == ValueOf(mm, 10)
    requires |dd| >= 1 && AllDecimal(dd) && d == ValueOf(dd, 10)
    requires |yyyy| >= 1 && AllDecimal(yyyy) && y == ValueOf(yyyy, 10)
    requires |hh| >= 1 && AllDecimal(hh) && h == ValueOf(hh, 10)
    requires |mi| >= 1 && AllDecimal(mi) && n == ValueOf(mi, 10)
    ensures HostParse(mm + "." + dd + "." + (yyyy + " ") + " " + (hh + ":" + mi), '.') == Compose(m, d, y, h, n)
  {
    var date := mm + "." + dd + "." + yyyy;
    Assoc(mm + "." + dd + ".", yyyy, " ");
    Assoc(date, " ", " ");
    assert " " + " " == "  ";
    HostParseDateTime(mm, dd, yyyy, '.', "  ", hh, mi, m, d, y, h, n);
  }

  /** Whatever text the host reads as the fields `y, m, d, h, n` becomes the
      `Date.UTC` instant of those fields one hour earlier, or an invalid date
      when the fields are out of range or that instant falls before the first
      valid `Date`. */
  lemma SourceTimestampOfFields(text: string, y: nat, m: nat, d: nat, h: nat, n: nat)
    requires HostParse(text, '.') == Build(y, m, d, h, n)
    ensures var r := SourceTimestamp(text);
            && (r.Some? <==> Build(y, m, d, h, n).Some?
                             && -MaxTimeValue <= TimeValue(DateTime(y, m, d, h, n, 0, 0)) - MsPerHour)
            && (r.Some? ==> TimeValue(r.value) == TimeValue(DateTime(y, m, d, h, n, 0, 0)) - MsPerHour)
  {
    BuildMeaning(y, m, d, h, n);
    if Build(y, m, d, h, n).Some? {
      var local := Build(y, m, d, h, n).value;
      var tv := TimeValue(DateTime(y, m, d, h, n, 0, 0));
      assert UtcFields(local) == local;
      assert TimeValue(local) == tv;
      assert TimeValue(MinusOneHour(local)) == tv - MsPerHour;
      assert tv <= MaxTimeValue by { assert InRange(local); }
    }
  }

  /** For fields naming a real local time, the result is that time minus one hour. */
  lemma SourceTimestampCalendar(text: string, y: nat, m: nat, d: nat, h: nat, n: nat)
    requires HostParse(text, '.') == Build(y, m, d, h, n)
    requires Valid(DateTime(y, m, d, h, n, 0, 0)) && InRange(DateTime(y, m, d, h, n, 0, 0))
    requires InRange(MinusOneHour(DateTime(y, m, d, h, n, 0, 0)))
    ensures SourceTimestamp(text) == Some(MinusOneHour(DateTime(y, m, d, h, n, 0, 0)))
  {
    var t := DateTime(y, m, d, h, n, 0, 0);
    BuildExisting(t);
    assert HostParse(text, '.') == Some(t);
    assert UtcFields(t) == t;
  }

  /** At 24:00 the host builds the next day's midnight, and one hour earlier
      is 23:00 on the day the text names. */
  lemma SourceTimestampDayEnd(text: string, y: nat, m: nat, d: nat)
    requires HostParse(text, '.') == Build(y, m, d, 24, 0)
    requires ValidDate(y, m, d) && InRange(DateTime(y, m, d, 23, 0, 0, 0))
    ensures SourceTimestamp(text) == Some(DateTime(y, m, d, 23, 0, 0, 0))
  {
    var next := NextDay(y, m, d);
    var local := DateTime(next.0, next.1, next.2, 0, 0, 0, 0);
    BuildDayEnd(y, m, d);
    assert HostParse(text, '.') == Some(local);
    assert UtcFields(local) == local;
    PrevNextDay(y, m, d);
    assert MinusOneHour(local) == DateTime(y, m, d, 23, 0, 0, 0);
  }

  /** 24:00 of a day whose 23:00 is a valid `Date` is the next day's midnight. */
  lemma BuildDayEnd(y: nat, m: nat, d: nat)
    requires ValidDate(y, m, d) && InRange(DateTime(y, m, d, 23, 0, 0, 0))
    ensures var n := NextDay(y, m, d); Build(y, m, d, 24, 0) == Some(DateTime(n.0, n.1, n.2, 0, 0, 0, 0))
  {
    var day := DayNumber(y, m, d);
    DayEndBound(day);
    assert TimeValue(DateTime(y, m, d, 24, 0, 0, 0)) == day * MsPerDay + MsPerDay;
    assert InRange(DateTime(y, m, d, 24, 0, 0, 0));
    BuildMeaning(y, m, d, 24, 0);
  }

  /** 23:00 of a day within TimeClip's upper bound leaves room for the hour to
      the next midnight: the bound itself falls on a midnight. */
  lemma DayEndBound(day: int)
    requires day * MsPerDay + 23 * MsPerHour <= MaxTimeValue
    ensures day * MsPerDay + MsPerDay <= MaxTimeValue
  {
  }

  lemma BuildExisting(t: DateTime)
    requires t.year >= 0 && t.second == 0 && t.ms == 0 && Valid(t) && InRange(t)
    ensures Build(t.year, t.month, t.day, t.hour, t.minute) == Some(t)
  {
    BuildMeaning(t.year, t.month, t.day, t.hour, t.minute);
  }

  /** The page's `DD.MM.YYYY vHH.MMh` for a date and time that exist becomes
      that local time minus one hour, read as UTC, in the windowed year. */
  lemma LastUpdatedOf(dd: string, mm: string, yyyy: string, hh: string, mi: string,
                      d: nat, m: nat, y: nat, h: nat, n: nat)
    requires |dd| >= 1 && AllDecimal(dd) && d == ValueOf(dd, 10)
    requires |mm| >= 1 && AllDecimal(mm) && m == ValueOf(mm, 10)
    requires |yyyy| >= 1 && AllDecimal(yyyy) && y == ValueOf(yyyy, 10)
    requires |hh| >= 1 && AllDecimal(hh) && h == ValueOf(hh, 10)
    requires |mi| >= 1 && AllDecimal(mi) && n == ValueOf(mi, 10)
    requires Valid(DateTime(HostYear(y), m, d, h, n, 0, 0)) && InRange(DateTime(HostYear(y), m, d, h, n, 0, 0))
    requires InRange(MinusOneHour(DateTime(HostYear(y), m, d, h, n, 0, 0)))
    ensures var text := SourceDateTimeText(dd + "." + mm + "." + yyyy + " v" + hh + "." + mi + "h");
            text.Some? && SourceTimestamp(text.value) == Some(MinusOneHour(DateTime(HostYear(y), m, d, h, n, 0, 0)))
  {
    var text := mm + "." + dd + "." + (yyyy + " ") + " " + (hh + ":" + mi);
    LastUpdatedHost(dd, mm, yyyy, hh, mi, d, m, y, h, n);
    SourceTimestampCalendar(text, HostYear(y), m, d, h, n);
  }

  /** The host reads the page's `DD.MM.YYYY vHH.MMh`, rebuilt month first, as
      its fields in the windowed year. */
  lemma LastUpdatedHost(dd: string, mm: string, yyyy: string, hh: string, mi: string,
                        d: nat, m: nat, y: nat, h: nat, n: nat)
    requires |dd| >= 1 && AllDecimal(dd) && d == ValueOf(dd, 10)
    requires |mm| >= 1 && AllDecimal(mm) && m == ValueOf(mm, 10)
    requires |yyyy| >= 1 && AllDecimal(yyyy) && y == ValueOf(yyyy, 10)
    requires |hh| >= 1 && AllDecimal(hh) && h == ValueOf(hh, 10)
    requires |mi| >= 1 && AllDecimal(mi) && n == ValueOf(mi, 10)
    requires 1 <= m <= 12
    ensures SourceDateTimeText(dd + "." + mm + "." + yyyy + " v" + hh + "." + mi + "h")
            == Some(mm + "." + dd + "." + (yyyy + " ") + " " + (hh + ":" + mi))
    ensures HostParse(mm + "." + dd + "." + (yyyy + " ") + " " + (hh + ":" + mi), '.')
            == Build(HostYear(y), m, d, h, n)
  {
    SourceDateTimeTextOf(dd, mm, yyyy, hh, mi);
    SourceHostParseOf(mm, dd, yyyy, hh, mi, m, d, y, h, n);
    MonthFirst(m, d, y, h, n);
  }

  /** The page's `DD.MM.YYYY v24.00h` becomes 23:00 UTC on the day it names. */
  lemma LastUpdatedDayEnd(dd: string, mm: string, yyyy: string, hh: string, mi: string,
                          d: nat, m: nat, y: nat)
    requires |dd| >= 1 && AllDecimal(dd) && d == ValueOf(dd, 10)
    requires |mm| >= 1 && AllDecimal(mm) && m == ValueOf(mm, 10)
    requires |yyyy| >= 1 && AllDecimal(yyyy) && y == ValueOf(yyyy, 10)
    requires |hh| >= 1 && AllDecimal(hh) && ValueOf(hh, 10) == 24
    requires |mi| >= 1 && AllDecimal(mi) && ValueOf(mi, 10) == 0
    requires ValidDate(HostYear(y), m, d) && InRange(DateTime(HostYear(y), m, d, 23, 0, 0, 0))
    ensures var text := SourceDateTimeText(dd + "." + mm + "." + yyyy + " v" + hh + "." + mi + "h");
            text.Some? && SourceTimestamp(text.value) == Some(DateTime(HostYear(y), m, d, 23, 0, 0, 0))
  {
    var text := mm + "." + dd + "." + (yyyy + " ") + " " + (hh + ":" + mi);
    LastUpdatedHost(dd, mm, yyyy, hh, mi, d, m, y, 24, 0);
    SourceTimestampDayEnd(text, HostYear(y), m, d);
  }

  /** The example on the page: `05.03.2020 v14.30h` is 13:30 UTC on 5 March 2020. */
  lemma LastUpdatedExample()
    ensures var text := SourceDateTimeText("05.03.2020 v14.30h");
            text.Some? && SourceTimestamp(text.value) == Some(DateTime(2020, 3, 5, 13, 30, 0, 0))
  {
    assert "05.03.2020 v14.30h" == "05" + "." + "03" + "." + "2020" + " v" + "14" + "." + "30" + "h";
    ExampleFields();
    ExampleLocalTime();
    LastUpdatedOf("05", "03", "2020", "14", "30", 5, 3, 2020, 14, 30);
  }

  /** `05.03.2020 v24.00h`, the end of 5 March, is 23:00 UTC on 5 March 2020. */
  lemma DayEndExample()
    ensures var text := SourceDateTimeText("05.03.2020 v24.00h");
            text.Some? && SourceTimestamp(text.value) == Some(DateTime(2020, 3, 5, 23, 0, 0, 0))
  {
    assert "05.03.2020 v24.00h" == "05" + "." + "03" + "." + "2020" + " v" + "24" + "." + "00" + "h";
    ExampleFields();
    DayEndFields();
    FourDigitInRange(2020, 3, 5, 23 * MsPerHour);
    LastUpdatedDayEnd("05", "03", "2020", "24", "00", 5, 3, 2020);
  }

  lemma DayEndFields()
    ensures AllDecimal("24") && ValueOf("24", 10) == 24 && AllDecimal("00") && ValueOf("00", 10) == 0
  {
    assert "24"[..1] == "2" && "2"[..0] == [];
    assert "00"[..1] == "0" && "0"[..0] == [];
  }

  lemma ExampleFields()
    ensures AllDecimal("05") && ValueOf("05", 10) == 5 && AllDecimal("03") && ValueOf("03", 10) == 3
    ensures AllDecimal("2020") && ValueOf("2020", 10) == 2020
    ensures AllDecimal("14") && ValueOf("14", 10) == 14 && AllDecimal("30") && ValueOf("30", 10) == 30
  {
    assert "05"[..1] == "0" && "03"[..1] == "0" && "0"[..0] == [];
    assert "2020"[..3] == "202" && "202"[..2] == "20" && "20"[..1] == "2" && "2"[..0] == [];
    assert "14"[..1] == "1" && "1"[..0] == [];
    assert "30"[..1] == "3" && "3"[..0] == [];
  }

  lemma ExampleLocalTime()
    ensures Valid(DateTime(2020, 3, 5, 14, 30, 0, 0)) && InRange(DateTime(2020, 3, 5, 14, 30, 0, 0))
    ensures MinusOneHour(DateTime(2020, 3, 5, 14, 30, 0, 0)) == DateTime(2020, 3, 5, 13, 30, 0, 0)
    ensures InRange(DateTime(2020, 3, 5, 13, 30, 0, 0))
  {
  }

  /** The page's node holds the label, then the time, with white space around:
      cleaning leaves exactly the time, provided it has no no-break space. */
  lemma CleanLastModifiedOf(before: string, body: string, after: string)
    requires AllSpace(before) && AllSpace(after)
    requires |body| >= 1 && !IsJsSpace(body[|body| - 1]) && '\U{00A0}' !in body
    ensures CleanLastModified(before + LastModifiedLabel + body + after) == body
  {
    var t := LastModifiedLabel + body;
    Assoc(before, LastModifiedLabel, body);
    TrimAround(before, t, after);
    DropPrefix(LastModifiedLabel, body);
    assert OccursAt(t, LastModifiedLabel, 0);
    ReplaceAtFirst(t, LastModifiedLabel, "", 0);
    assert t[..0] + "" + t[|LastModifiedLabel|..] == body;
  }

  /** The page's node `Poslední aktualizace: 05.03.2020 v14.30h` gives 13:30 UTC on 5 March 2020. */
  lemma PageExample()
    ensures var text := SourceDateTimeText(CleanLastModified(LastModifiedLabel + "05.03.2020 v14.30h"));
            text.Some? && SourceTimestamp(text.value) == Some(DateTime(2020, 3, 5, 13, 30, 0, 0))
  {
    var body := "05.03.2020 v14.30h";
    assert LastModifiedLabel + body == [] + LastModifiedLabel + body + [];
    CleanLastModifiedOf([], body, []);
    LastUpdatedExample();
  }
}
