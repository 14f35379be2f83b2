/** The date normalisation of `date_str_to_iso`: a shelf date such as
    "Feb 08, 2023" or "Feb 2023" becomes a calendar date in the complete
    extended form YYYY-MM-DD of ISO 8601.

    `datetime.strptime` is modelled by the regular expression Python builds
    from the format: each blank of the format matches one or more whitespace
    characters, `%b` one of the twelve English month abbreviations in any
    letter case, `%d` one or two digits with a value from 1 to 31, `%Y`
    exactly four digits, and the whole input must be consumed. The fields
    are then handed to `date`, which refuses year 0 and a day past the end of
    its month. */
module Dates {
  import opened Wrappers
  import opened Text

  datatype Date = Date(year: int, month: int, day: int)

  /** The two ways `strptime` raises `ValueError` on shelf dates. */
  datatype DateError =
    | FormatMismatch(text: string)  // the input does not match the format
    | OutOfRange(text: string)      // the fields name no calendar date

  /** `%b` in the English locale, lower-cased as Python keeps it; month `m`
      is `MonthNames[m - 1]`. */
  const MonthNames: seq<string> :=
    ["jan", "feb", "mar", "apr", "may", "jun", "jul", "aug", "sep", "oct", "nov", "dec"]

  /** Gregorian leap years, as `datetime` uses them. */
  predicate IsLeapYear(y: int)
  {
    y % 4 == 0 && (y % 100 != 0 || y % 400 == 0)
  }

  function DaysInMonth(y: int, m: int): (n: int)
    requires 1 <= m <= 12
    ensures 28 <= n <= 31
    ensures m == 2 ==> (n == 29 <==> IsLeapYear(y))
  {
    if m == 2 then (if IsLeapYear(y) then 29 else 28)
    else if m == 4 || m == 6 || m == 9 || m == 11 then 30
    else 31
  }

  /** A date that `datetime.date` accepts (`MINYEAR` is 1, `MAXYEAR` 9999). */
  predicate ValidDate(d: Date)
  {
    && 1 <= d.year <= 9999
    && 1 <= d.month <= 12
    && 1 <= d.day <= DaysInMonth(d.year, d.month)
  }

  /** The month that a token names, compared after ASCII lower-casing as
      `re.IGNORECASE` and `str.lower()` do. */
  function MonthOf(tok: string): (m: Option<int>)
    ensures m.Some? ==> 1 <= m.value <= 12 && Lower(tok) == MonthNames[m.value - 1]
    ensures m.None? ==> forall i :: 0 <= i < 12 ==> Lower(tok) != MonthNames[i]
  {
    MonthFrom(Lower(tok), 0)
  }

  /** The first month from index `i` on whose name is `key`. */
  function MonthFrom(key: string, i: nat): (m: Option<int>)
    requires i <= 12
    ensures m.Some? ==> i < m.value <= 12 && key == MonthNames[m.value - 1]
    ensures m.Some? ==> forall k :: i <= k < m.value - 1 ==> key != MonthNames[k]
    ensures m.None? ==> forall k :: i <= k < 12 ==> key != MonthNames[k]
    decreases 12 - i
  {
    if i == 12 then None
    else if key == MonthNames[i] then Some(i + 1)
    else MonthFrom(key, i + 1)
  }

  /** Python's `", " in s`, which picks the format. */
  function HasCommaSpace(s: string): (b: bool)
    ensures b <==> exists i :: 0 <= i < |s| - 1 && s[i] == ',' && s[i + 1] == ' '
  {
    if |s| < 2 then false
    else if s[0] == ',' && s[1] == ' ' then true
    else
      var b := HasCommaSpace(s[1..]);
      assert b ==> exists i :: 0 <= i < |s| - 1 && s[i] == ',' && s[i + 1] == ' ' by {
        if b {
          var i :| 0 <= i < |s[1..]| - 1 && s[1..][i] == ',' && s[1..][i + 1] == ' ';
          assert s[i + 1] == ',' && s[i + 2] == ' ';
        }
      }
      b
  }

  /** `datetime.strptime(s, "%b %Y").replace(day=1)`. */
  function StrptimeMonthYear(s: string): (r: Result<Date, DateError>)
    ensures r.Ok? ==> ValidDate(r.value) && r.value.day == 1
    ensures r.Err? ==> r.error.text == s
  {
    if |s| < 3 then Err(FormatMismatch(s))
    else
      match MonthOf(s[..3])
      case None => Err(FormatMismatch(s))
      case Some(month) => MonthYearFields(s, month)
  }

  /** The part of "%b %Y" after the month abbreviation `s[..3]`: one or more
      whitespace characters, then exactly four digits that end the input. */
  function MonthYearFields(s: string, month: int): (r: Result<Date, DateError>)
    requires |s| >= 3 && 1 <= month <= 12
    ensures r.Ok? ==> ValidDate(r.value) && r.value.month == month && r.value.day == 1
    ensures r.Err? ==> r.error.text == s
  {
    var gap := SpaceRun(s[3..]);
    var rest := s[3 + gap..];
    if gap == 0 || |rest| != 4 || !AllDigits(rest) then Err(FormatMismatch(s))
    else if DigitsValue(rest) == 0 then Err(OutOfRange(s))
    else Ok(Date(DigitsValue(rest), month, 1))
  }

  /** `datetime.strptime(s, "%b %d, %Y")`. */
  function StrptimeMonthDayYear(s: string): (r: Result<Date, DateError>)
    ensures r.Ok? ==> ValidDate(r.value)
    ensures r.Err? ==> r.error.text == s
  {
    if |s| < 3 then Err(FormatMismatch(s))
    else
      match MonthOf(s[..3])
      case None => Err(FormatMismatch(s))
      case Some(month) => MonthDayYearFields(s, month)
  }

  /** The part of "%b %d, %Y" after the month abbreviation `s[..3]`: one or
      more whitespace characters, a day of one or two digits from 1 to 31, a
      comma, one or more whitespace characters, then exactly four digits that
      end the input. */
  function MonthDayYearFields(s: string, month: int): (r: Result<Date, DateError>)
    requires |s| >= 3 && 1 <= month <= 12
    ensures r.Ok? ==> ValidDate(r.value) && r.value.month == month
    ensures r.Err? ==> r.error.text == s
  {
    var i := 3 + SpaceRun(s[3..]);
    var j := i + DigitRun(s[i..]);
    assert s[i..j] == s[i..][..j - i];
    if i == 3 || j == i || j > i + 2 || j == |s| || s[j] != ',' then Err(FormatMismatch(s))
    else DayYearFields(s, month, i, j)
  }

  /** The rest of "%b %d, %Y" once the day digits `s[i..j]` and the comma at
      `s[j]` are found. */
  function DayYearFields(s: string, month: int, i: nat, j: nat): (r: Result<Date, DateError>)
    requires i < j < |s| && AllDigits(s[i..j]) && 1 <= month <= 12
    ensures r.Ok? ==> ValidDate(r.value) && r.value.month == month
    ensures r.Err? ==> r.error.text == s
  {
    var gap := SpaceRun(s[j + 1..]);
    var rest := s[j + 1 + gap..];
    if gap == 0 || |rest| != 4 || !AllDigits(rest) then Err(FormatMismatch(s))
    else if DigitsValue(s[i..j]) == 0 || DigitsValue(s[i..j]) > 31 then Err(FormatMismatch(s))
    else
      var d := Date(DigitsValue(rest), month, DigitsValue(s[i..j]));
      if d.year == 0 || d.day > DaysInMonth(d.year, d.month) then Err(OutOfRange(s))
      else Ok(d)
  }

  /** The shape of `date.isoformat()`: four digits, a dash, two digits, a
      dash, two digits. */
  predicate IsIsoShape(t: string)
  {
    && |t| == 10
    && AllDigits(t[..4]) && t[4] == '-'
    && AllDigits(t[5..7]) && t[7] == '-'
    && AllDigits(t[8..])
  }

  /** The date that an ISO string of the right shape spells out. */
  function IsoFields(t: string): Date
    requires IsIsoShape(t)
  {
    Date(DigitsValue(t[..4]), DigitsValue(t[5..7]), DigitsValue(t[8..]))
  }

  /** `date.isoformat()`: the year, month and day read back from the string
      are the date's own. */
  function IsoFormat(d: Date): (t: string)
    requires ValidDate(d)
    ensures IsIsoShape(t) && IsoFields(t) == d
  {
    var y, m, dd := PadDigits(d.year, 4), PadDigits(d.month, 2), PadDigits(d.day, 2);
    var t := y + "-" + m + "-" + dd;
    assert t[..4] == y && t[5..7] == m && t[8..] == dd;
    t
  }

  /** `date_str_to_iso`: the format is chosen by whether ", " occurs; on
      success the result is a well-formed ISO date that names a real
      calendar day, and a month-only input is pinned to day 01. */
  function DateStrToIso(s: string): (r: Result<string, DateError>)
    ensures r.Ok? ==> IsIsoShape(r.value) && ValidDate(IsoFields(r.value))
    ensures r.Ok? && !HasCommaSpace(s) ==> IsoFields(r.value).day == 1
    ensures r.Err? ==> r.error.text == s
  {
    var parsed := if HasCommaSpace(s) then StrptimeMonthDayYear(s) else StrptimeMonthYear(s);
    match parsed
    case Err(e) => Err(e)
    case Ok(d) => Ok(IsoFormat(d))
  }

  /** No two months share a name. */
  lemma MonthNamesDistinct(a: int, b: int)
    requires 0 <= a < 12 && 0 <= b < 12 && a != b
    ensures MonthNames[a] != MonthNames[b]
  {
    assert || MonthNames[a][0] != MonthNames[b][0]
           || MonthNames[a][1] != MonthNames[b][1]
           || MonthNames[a][2] != MonthNames[b][2];
  }

  /** A token that lower-cases to a month's name is read as that month. */
  lemma MonthOfName(tok: string, m: int)
    requires 1 <= m <= 12 && Lower(tok) == MonthNames[m - 1]
    ensures MonthOf(tok) == Some(m)
  {
    MonthFromFinds(Lower(tok), 0, m);
  }

  /** The lookup from index `i` stops at the one month named `key`. */
  lemma {:induction false} MonthFromFinds(key: string, i: nat, m: int)
    requires i < m <= 12 && key == MonthNames[m - 1]
    ensures MonthFrom(key, i) == Some(m)
    decreases 12 - i
  {
    if i < m - 1 {
      MonthNamesDistinct(i, m - 1);
      MonthFromFinds(key, i + 1, m);
    }
  }

  /** What follows the month in the "%b %Y" shape: one or more whitespace
      characters, and four digits that end the input. */
  predicate YearTailForm(s: string)
  {
    && |s| >= 8
    && AllSpace(s[3..|s| - 4])
    && AllDigits(s[|s| - 4..])
  }

  /** The input shape that "%b %Y" accepts: a month abbreviation followed by
      the year tail. */
  predicate MonthYearForm(s: string)
  {
    |s| >= 3 && MonthOf(s[..3]).Some? && YearTailForm(s)
  }

  /** What follows the month in the "%b %d, %Y" shape, with the day's digits
      at `s[i..j]` and the comma at `s[j]`. */
  predicate DayYearTailFormAt(s: string, i: int, j: int)
  {
    && 3 < i < j <= i + 2 && j + 1 < |s| - 4
    && AllSpace(s[3..i])
    && AllDigits(s[i..j]) && 1 <= DigitsValue(s[i..j]) <= 31
    && s[j] == ','
    && AllSpace(s[j + 1..|s| - 4])
    && AllDigits(s[|s| - 4..])
  }

  /** The input shape that "%b %d, %Y" accepts: a month abbreviation followed
      by the day-and-year tail. */
  predicate MonthDayYearFormAt(s: string, i: int, j: int)
  {
    |s| >= 3 && MonthOf(s[..3]).Some? && DayYearTailFormAt(s, i, j)
  }

  /** The scan of "%b %Y" after the month accepts exactly the year tail,
      and then the year digits are the last four characters. */
  lemma YearTailScan(s: string)
    requires |s| >= 3
    ensures var gap := SpaceRun(s[3..]);
      (gap != 0 && |s[3 + gap..]| == 4 && AllDigits(s[3 + gap..])) <==> YearTailForm(s)
    ensures YearTailForm(s) ==> 3 + SpaceRun(s[3..]) == |s| - 4
  {
    if YearTailForm(s) {
      assert IsDigit(s[|s| - 4..][0]);
      SpaceRunUpTo(s, 3, |s| - 4);
    }
    var gap := SpaceRun(s[3..]);
    if gap != 0 && |s[3 + gap..]| == 4 && AllDigits(s[3 + gap..]) {
      assert s[3..|s| - 4] == s[3..][..gap];
    }
  }

  lemma MonthYearFieldsSpec(s: string, month: int)
    requires |s| >= 3 && 1 <= month <= 12
    ensures MonthYearFields(s, month) ==
      if !YearTailForm(s) then Err(FormatMismatch(s))
      else if DigitsValue(s[|s| - 4..]) == 0 then Err(OutOfRange(s))
      else Ok(Date(DigitsValue(s[|s| - 4..]), month, 1))
  {
    YearTailScan(s);
  }

  /** "%b %Y" succeeds exactly on the month-year shape with a non-zero year,
      and then yields day 1 of that month and year. */
  lemma StrptimeMonthYearSpec(s: string)
    ensures StrptimeMonthYear(s) ==
      if !MonthYearForm(s) then Err(FormatMismatch(s))
      else if DigitsValue(s[|s| - 4..]) == 0 then Err(OutOfRange(s))
      else Ok(Date(DigitsValue(s[|s| - 4..]), MonthOf(s[..3]).value, 1))
  {
    if |s| >= 3 && MonthOf(s[..3]).Some? {
      MonthYearFieldsSpec(s, MonthOf(s[..3]).value);
    }
  }

  /** On the day-and-year tail shape, the scans of "%b %d, %Y" stop at the
      day digits, at the comma and at the year digits. */
  lemma DayYearTailScans(s: string, i: int, j: int)
    requires DayYearTailFormAt(s, i, j)
    ensures 3 + SpaceRun(s[3..]) == i
    ensures i + DigitRun(s[i..]) == j
    ensures j + 1 + SpaceRun(s[j + 1..]) == |s| - 4
  {
    assert IsDigit(s[i..j][0]);
    SpaceRunUpTo(s, 3, i);
    DigitRunUpTo(s, i, j);
    assert IsDigit(s[|s| - 4..][0]);
    SpaceRunUpTo(s, j + 1, |s| - 4);
  }

  lemma MonthDayYearFieldsSpec(s: string, month: int, i: int, j: int)
    requires 1 <= month <= 12 && DayYearTailFormAt(s, i, j)
    ensures var d := Date(DigitsValue(s[|s| - 4..]), month, DigitsValue(s[i..j]));
      MonthDayYearFields(s, month) ==
        if d.year == 0 || d.day > DaysInMonth(d.year, d.month) then Err(OutOfRange(s)) else Ok(d)
  {
    DayYearTailScans(s, i, j);
    DayYearFieldsSpec(s, month, i, j);
  }

  /** On the tail shape, the last step of "%b %d, %Y" reads the day and year
      digits and rejects only a day the month does not have, or year 0. */
  lemma DayYearFieldsSpec(s: string, month: int, i: nat, j: nat)
    requires 1 <= month <= 12 && DayYearTailFormAt(s, i, j)
    requires j + 1 + SpaceRun(s[j + 1..]) == |s| - 4
    ensures var d := Date(DigitsValue(s[|s| - 4..]), month, DigitsValue(s[i..j]));
      DayYearFields(s, month, i, j) ==
        if d.year == 0 || d.day > DaysInMonth(d.year, d.month) then Err(OutOfRange(s)) else Ok(d)
  {
  }

  lemma MonthDayYearFieldsShape(s: string, month: int)
    requires |s| >= 3 && 1 <= month <= 12
    requires !(MonthDayYearFields(s, month).Err? && MonthDayYearFields(s, month).error.FormatMismatch?)
    ensures exists i, j :: DayYearTailFormAt(s, i, j)
  {
    var i := 3 + SpaceRun(s[3..]);
    var j := i + DigitRun(s[i..]);
    ScannedRuns(s, i, j);
    assert 3 < i < j <= i + 2 && j < |s| && s[j] == ',';
    assert MonthDayYearFields(s, month) == DayYearFields(s, month, i, j);
    DayYearFieldsShape(s, month, i, j);
  }

  /** The gap and the day digits that the scans of "%b %d, %Y" pass over. */
  lemma ScannedRuns(s: string, i: nat, j: nat)
    requires |s| >= 3 && i == 3 + SpaceRun(s[3..]) && j == i + DigitRun(s[i..])
    ensures AllSpace(s[3..i]) && AllDigits(s[i..j])
  {
    assert s[3..i] == s[3..][..i - 3];
    assert s[i..j] == s[i..][..j - i];
  }

  /** Once the month, the gap and the day digits are scanned, whatever is
      not a format mismatch has the day-and-year tail shape. */
  lemma DayYearFieldsShape(s: string, month: int, i: nat, j: nat)
    requires 3 < i < j <= i + 2 && j < |s| && s[j] == ',' && 1 <= month <= 12
    requires AllSpace(s[3..i]) && AllDigits(s[i..j])
    requires !(DayYearFields(s, month, i, j).Err? && DayYearFields(s, month, i, j).error.FormatMismatch?)
    ensures DayYearTailFormAt(s, i, j)
  {
    var gap := SpaceRun(s[j + 1..]);
    assert s[j + 1..|s| - 4] == s[j + 1..][..gap];
  }

  /** "%b %d, %Y" on any input of the month-day-year shape: the fields are
      the month, the day digits and the year digits, and the result is an
      error exactly when they name no calendar date. */
  lemma StrptimeMonthDayYearSpec(s: string, i: int, j: int)
    requires MonthDayYearFormAt(s, i, j)
    ensures var d := Date(DigitsValue(s[|s| - 4..]), MonthOf(s[..3]).value, DigitsValue(s[i..j]));
      StrptimeMonthDayYear(s) ==
        if d.year == 0 || d.day > DaysInMonth(d.year, d.month) then Err(OutOfRange(s)) else Ok(d)
  {
    MonthDayYearFieldsSpec(s, MonthOf(s[..3]).value, i, j);
  }

  /** Whatever "%b %d, %Y" does not reject as a format mismatch has the
      month-day-year shape. */
  lemma StrptimeMonthDayYearShape(s: string)
    requires !(StrptimeMonthDayYear(s).Err? && StrptimeMonthDayYear(s).error.FormatMismatch?)
    ensures exists i, j :: MonthDayYearFormAt(s, i, j)
  {
    MonthDayYearFieldsShape(s, MonthOf(s[..3]).value);
    var i, j :| DayYearTailFormAt(s, i, j);
    assert MonthDayYearFormAt(s, i, j);
  }

  /** `date_str_to_iso` on input without ", ": the month-year shape with a
      non-zero year gives the first day of that month, anything else is an
      error. */
  lemma MonthOnlyInput(s: string)
    requires !HasCommaSpace(s)
    ensures DateStrToIso(s) ==
      if !MonthYearForm(s) then Err(FormatMismatch(s))
      else if DigitsValue(s[|s| - 4..]) == 0 then Err(OutOfRange(s))
      else Ok(IsoFormat(Date(DigitsValue(s[|s| - 4..]), MonthOf(s[..3]).value, 1)))
  {
    StrptimeMonthYearSpec(s);
  }

  /** `date_str_to_iso` on input with ", " and of the month-day-year shape:
      the given year, month and day, or an error when that day does not
      exist. */
  lemma FullDateInput(s: string, i: int, j: int)
    requires HasCommaSpace(s) && MonthDayYearFormAt(s, i, j)
    ensures var d := Date(DigitsValue(s[|s| - 4..]), MonthOf(s[..3]).value, DigitsValue(s[i..j]));
      DateStrToIso(s) ==
        if d.year == 0 || d.day > DaysInMonth(d.year, d.month) then Err(OutOfRange(s))
        else Ok(IsoFormat(d))
  {
    StrptimeMonthDayYearSpec(s, i, j);
  }

  /** `date_str_to_iso` on input with ", " but not of the month-day-year
      shape is a format error. */
  lemma MalformedFullDateInput(s: string)
    requires HasCommaSpace(s)
    requires forall i, j :: !MonthDayYearFormAt(s, i, j)
    ensures DateStrToIso(s) == Err(FormatMismatch(s))
  {
    if !(StrptimeMonthDayYear(s).Err? && StrptimeMonthDayYear(s).error.FormatMismatch?) {
      StrptimeMonthDayYearShape(s);
    }
  }

  /** The last letter of every month name is a lower-case ASCII letter. */
  lemma MonthNamesEndInLetters()
    ensures forall k :: 0 <= k < 12 ==> |MonthNames[k]| == 3 && 'a' <= MonthNames[k][2] <= 'z'
  {
  }

  /** A full date as the shelf page writes it, "Feb 08, 2023": a month
      token, a blank, two day digits, ", " and four year digits. */
  function DateText(tok: string, dd: string, yyyy: string): string
  {
    tok + " " + dd + ", " + yyyy
  }

  /** A month without a day as the shelf page writes it, "Feb 2023". */
  function MonthText(tok: string, yyyy: string): string
  {
    tok + " " + yyyy
  }

  /** The pieces of a full date text. */
  lemma DateTextSlices(tok: string, dd: string, yyyy: string)
    requires |tok| == 3 && |dd| == 2 && |yyyy| == 4
    ensures var s := DateText(tok, dd, yyyy);
      && |s| == 12 && s[..3] == tok && s[3..4] == " "
      && s[4..6] == dd && s[6] == ',' && s[7] == ' '
      && s[7..|s| - 4] == " " && s[|s| - 4..] == yyyy
  {
  }

  /** A full date text has ", " and the "%b %d, %Y" shape with the day
      digits at 4..6. */
  lemma DateTextForm(tok: string, dd: string, yyyy: string, month: int)
    requires 1 <= month <= 12 && |tok| == 3 && Lower(tok) == MonthNames[month - 1]
    requires |dd| == 2 && AllDigits(dd) && 1 <= DigitsValue(dd) <= 31
    requires |yyyy| == 4 && AllDigits(yyyy)
    ensures var s := DateText(tok, dd, yyyy);
      && HasCommaSpace(s) && MonthDayYearFormAt(s, 4, 6)
      && MonthOf(s[..3]) == Some(month)
      && s[4..6] == dd && s[|s| - 4..] == yyyy
  {
    var s := DateText(tok, dd, yyyy);
    DateTextSlices(tok, dd, yyyy);
    MonthOfName(tok, month);
    assert s[6] == ',' && s[6 + 1] == ' ';
  }

  /** A full date text is normalised to the ISO text of the year, month and
      day it writes, and a day that its month does not have is an error. */
  lemma DateTextToIso(tok: string, dd: string, yyyy: string, month: int)
    requires 1 <= month <= 12 && |tok| == 3 && Lower(tok) == MonthNames[month - 1]
    requires |dd| == 2 && AllDigits(dd) && 1 <= DigitsValue(dd) <= 31
    requires |yyyy| == 4 && AllDigits(yyyy)
    ensures var r := DateStrToIso(DateText(tok, dd, yyyy));
      var d := Date(DigitsValue(yyyy), month, DigitsValue(dd));
      && (r.Ok? <==> ValidDate(d))
      && (r.Ok? ==> IsoFields(r.value) == d)
      && (r.Err? ==> r.error == OutOfRange(DateText(tok, dd, yyyy)))
  {
    DateTextForm(tok, dd, yyyy, month);
    FullDateInput(DateText(tok, dd, yyyy), 4, 6);
  }

  /** Any date of years 1 to 9999 written in the shelf's full format comes
      back as the ISO text of that date, and one its month does not have is
      an error. */
  lemma ShelfDateToIso(tok: string, d: Date)
    requires 1 <= d.year <= 9999 && 1 <= d.month <= 12 && 1 <= d.day <= 31
    requires |tok| == 3 && Lower(tok) == MonthNames[d.month - 1]
    ensures var s := DateText(tok, PadDigits(d.day, 2), PadDigits(d.year, 4));
      var r := DateStrToIso(s);
      && (r.Ok? <==> ValidDate(d))
      && (r.Ok? ==> r.value == IsoFormat(d))
      && (r.Err? ==> r.error == OutOfRange(s))
  {
    var s := DateText(tok, PadDigits(d.day, 2), PadDigits(d.year, 4));
    DateTextToIso(tok, PadDigits(d.day, 2), PadDigits(d.year, 4), d.month);
    if ValidDate(d) {
      IsoTextUnique(DateStrToIso(s).value, IsoFormat(d));
    }
  }

  /** The pieces of a month-only text. */
  lemma MonthTextSlices(tok: string, yyyy: string)
    requires |tok| == 3 && |yyyy| == 4
    ensures var s := MonthText(tok, yyyy);
      && |s| == 8 && s[..3] == tok && s[3] == ' '
      && s[3..|s| - 4] == " " && s[|s| - 4..] == yyyy
  {
  }

  /** A month-only text has no ", ": the month name ends in a letter and only
      digits follow the blank. */
  lemma MonthTextNoCommaSpace(tok: string, yyyy: string, month: int)
    requires 1 <= month <= 12 && |tok| == 3 && Lower(tok) == MonthNames[month - 1]
    requires |yyyy| == 4 && AllDigits(yyyy)
    ensures !HasCommaSpace(MonthText(tok, yyyy))
  {
    var s := MonthText(tok, yyyy);
    MonthTextSlices(tok, yyyy);
    MonthNamesEndInLetters();
    assert LowerAscii(tok[2]) == MonthNames[month - 1][2];
    forall i | 0 <= i < |s| - 1 ensures !(s[i] == ',' && s[i + 1] == ' ') {
      if i == 2 {
        assert s[i] == tok[2];
      } else if i > 3 {
        assert s[i + 1] == s[|s| - 4..][i - 3];
      }
    }
  }

  /** A month-only text has the "%b %Y" shape with the month and year it
      writes. */
  lemma MonthTextForm(tok: string, yyyy: string, month: int)
    requires 1 <= month <= 12 && |tok| == 3 && Lower(tok) == MonthNames[month - 1]
    requires |yyyy| == 4 && AllDigits(yyyy)
    ensures var s := MonthText(tok, yyyy);
      && !HasCommaSpace(s) && MonthYearForm(s)
      && MonthOf(s[..3]) == Some(month) && s[|s| - 4..] == yyyy
  {
    MonthTextSlices(tok, yyyy);
    MonthOfName(tok, month);
    MonthTextNoCommaSpace(tok, yyyy, month);
  }

  /** A month-only text of a non-zero year is normalised to the ISO text of
      day 1 of that month. */
  lemma MonthTextToIso(tok: string, yyyy: string, month: int)
    requires 1 <= month <= 12 && |tok| == 3 && Lower(tok) == MonthNames[month - 1]
    requires |yyyy| == 4 && AllDigits(yyyy) && DigitsValue(yyyy) != 0
    ensures var r := DateStrToIso(MonthText(tok, yyyy));
      r.Ok? && IsoFields(r.value) == Date(DigitsValue(yyyy), month, 1)
  {
    MonthTextForm(tok, yyyy, month);
    MonthOnlyInput(MonthText(tok, yyyy));
  }

  /** Every ISO-shaped text of a real date is the ISO form of the date it
      spells: `IsoFormat` and `IsoFields` are inverse both ways. */
  lemma IsoFormatOfFields(t: string)
    requires IsIsoShape(t) && ValidDate(IsoFields(t))
    ensures IsoFormat(IsoFields(t)) == t
  {
    PadDigitsOfDigits(t[..4]);
    PadDigitsOfDigits(t[5..7]);
    PadDigitsOfDigits(t[8..]);
    assert t == t[..4] + "-" + t[5..7] + "-" + t[8..];
  }

  /** An ISO text's fields, read digit by digit. */
  lemma IsoFieldsOfText(t: string)
    requires IsIsoShape(t)
    ensures IsoFields(t) == Date(
      1000 * DigitValue(t[0]) + 100 * DigitValue(t[1]) + 10 * DigitValue(t[2]) + DigitValue(t[3]),
      10 * DigitValue(t[5]) + DigitValue(t[6]),
      10 * DigitValue(t[8]) + DigitValue(t[9]))
  {
    FourDigitsValue(t[..4]);
    TwoDigitsValue(t[5..7]);
    TwoDigitsValue(t[8..]);
  }

  /** Two ISO texts that spell the same date are the same text. */
  lemma IsoTextUnique(a: string, b: string)
    requires IsIsoShape(a) && IsIsoShape(b) && IsoFields(a) == IsoFields(b)
    ensures a == b
  {
    DigitsValueInjective(a[..4], b[..4]);
    DigitsValueInjective(a[5..7], b[5..7]);
    DigitsValueInjective(a[8..], b[8..]);
    assert a == a[..4] + "-" + a[5..7] + "-" + a[8..];
    assert b == b[..4] + "-" + b[5..7] + "-" + b[8..];
  }

  /** The ISO text "2023-02-dd" for a day written as two digit characters. */
  lemma ExampleIsoText(t: string, d0: char, d1: char)
    requires t == ['2', '0', '2', '3', '-', '0', '2', '-', d0, d1] && IsDigit(d0) && IsDigit(d1)
    ensures IsIsoShape(t)
    ensures IsoFields(t) == Date(2023, 2, 10 * DigitValue(d0) + DigitValue(d1))
  {
    assert t[..4] == "2023" && t[5..7] == "02" && t[8..] == [d0, d1];
    IsoFieldsOfText(t);
  }

  /** A full date text of a real day converts to the ISO text `t` that
      spells that day. */
  lemma AcceptsDate(s: string, tok: string, dd: string, yyyy: string, month: int, t: string)
    requires 1 <= month <= 12 && |tok| == 3 && Lower(tok) == MonthNames[month - 1]
    requires |dd| == 2 && AllDigits(dd) && 1 <= DigitsValue(dd) <= 31
    requires |yyyy| == 4 && AllDigits(yyyy)
    requires s == DateText(tok, dd, yyyy)
    requires ValidDate(Date(DigitsValue(yyyy), month, DigitsValue(dd)))
    requires IsIsoShape(t) && IsoFields(t) == Date(DigitsValue(yyyy), month, DigitsValue(dd))
    ensures DateStrToIso(s) == Ok(t)
  {
    DateTextToIso(tok, dd, yyyy, month);
    IsoTextUnique(DateStrToIso(s).value, t);
  }

  /** A month-only text of a non-zero year converts to the ISO text `t` that
      spells day 1 of that month. */
  lemma AcceptsMonth(s: string, tok: string, yyyy: string, month: int, t: string)
    requires 1 <= month <= 12 && |tok| == 3 && Lower(tok) == MonthNames[month - 1]
    requires |yyyy| == 4 && AllDigits(yyyy) && DigitsValue(yyyy) != 0
    requires s == MonthText(tok, yyyy)
    requires IsIsoShape(t) && IsoFields(t) == Date(DigitsValue(yyyy), month, 1)
    ensures DateStrToIso(s) == Ok(t)
  {
    MonthTextToIso(tok, yyyy, month);
    IsoTextUnique(DateStrToIso(s).value, t);
  }

  /** The documented full-date example: "Feb 08, 2023", given character by
      character, becomes "2023-02-08". */
  lemma FullDateExample(s: string)
    requires |s| == 12
    requires s[0] == 'F' && s[1] == 'e' && s[2] == 'b' && s[3] == ' '
    requires s[4] == '0' && s[5] == '8' && s[6] == ',' && s[7] == ' '
    requires s[8] == '2' && s[9] == '0' && s[10] == '2' && s[11] == '3'
    ensures DateStrToIso(s) == Ok("2023-02-08")
  {
    var tok, dd, yyyy := s[..3], s[4..6], s[8..];
    assert DateText(tok, dd, yyyy) == s;
    assert Lower(tok) == "feb";
    TwoDigitsValue(dd);
    FourDigitsValue(yyyy);
    assert DigitsValue(dd) == 8 && DigitsValue(yyyy) == 2023;
    ExampleIsoText("2023-02-08", '0', '8');
    AcceptsDate(s, tok, dd, yyyy, 2, "2023-02-08");
  }

  /** The documented month-only example: "Feb 2023", given character by
      character, becomes "2023-02-01". */
  lemma MonthOnlyExample(s: string)
    requires |s| == 8
    requires s[0] == 'F' && s[1] == 'e' && s[2] == 'b' && s[3] == ' '
    requires s[4] == '2' && s[5] == '0' && s[6] == '2' && s[7] == '3'
    ensures DateStrToIso(s) == Ok("2023-02-01")
  {
    var tok, yyyy := s[..3], s[4..];
    assert MonthText(tok, yyyy) == s;
    assert Lower(tok) == "feb";
    FourDigitsValue(yyyy);
    assert DigitsValue(yyyy) == 2023;
    ExampleIsoText("2023-02-01", '0', '1');
    AcceptsMonth(s, tok, yyyy, 2, "2023-02-01");
  }

  /** A full date text whose day its month does not have is an error. */
  lemma RejectsMissingDay(s: string, tok: string, dd: string, yyyy: string, month: int)
    requires 1 <= month <= 12 && |tok| == 3 && Lower(tok) == MonthNames[month - 1]
    requires |dd| == 2 && AllDigits(dd) && 1 <= DigitsValue(dd) <= 31
    requires |yyyy| == 4 && AllDigits(yyyy)
    requires s == DateText(tok, dd, yyyy)
    requires !ValidDate(Date(DigitsValue(yyyy), month, DigitsValue(dd)))
    ensures DateStrToIso(s) == Err(OutOfRange(s))
  {
    DateTextToIso(tok, dd, yyyy, month);
  }

  /** February 2023 has no 29th day, so "Feb 29, 2023" is an error. */
  lemma MissingLeapDayExample(s: string)
    requires |s| == 12
    requires s[0] == 'F' && s[1] == 'e' && s[2] == 'b' && s[3] == ' '
    requires s[4] == '2' && s[5] == '9' && s[6] == ',' && s[7] == ' '
    requires s[8] == '2' && s[9] == '0' && s[10] == '2' && s[11] == '3'
    ensures DateStrToIso(s) == Err(OutOfRange(s))
  {
    var tok, dd, yyyy := s[..3], s[4..6], s[8..];
    assert DateText(tok, dd, yyyy) == s;
    assert Lower(tok) == "feb";
    TwoDigitsValue(dd);
    FourDigitsValue(yyyy);
    assert DigitsValue(dd) == 29 && DigitsValue(yyyy) == 2023;
    assert !ValidDate(Date(2023, 2, 29)) by {
      assert !IsLeapYear(2023);
    }
    RejectsMissingDay(s, tok, dd, yyyy, 2);
  }
}
