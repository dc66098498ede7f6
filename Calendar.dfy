/** Dates as the viewer uses them: the cutoff `compute_cutoff_date` computes and
    the dates `datetime.strptime(text, "%Y-%m-%d")` accepts. Every datetime
    involved has its time of day at midnight, so a `Date` stands for it. */
module Calendar {
  import opened Wrappers
  import opened PyText
  import opened PyInt

  datatype Date = Date(year: int, month: int, day: int)

  predicate IsLeapYear(y: int) {
    y % 4 == 0 && (y % 100 != 0 || y % 400 == 0)
  }

  function DaysInMonth(y: int, m: int): int
    requires 1 <= m <= 12
  {
    if m == 2 then (if IsLeapYear(y) then 29 else 28)
    else if m == 4 || m == 6 || m == 9 || m == 11 then 30
    else 31
  }

  /** The dates Python's `datetime` can represent (years 1 to 9999). */
  predicate ValidDate(d: Date) {
    1 <= d.year <= 9999 && 1 <= d.month <= 12 && 1 <= d.day <= DaysInMonth(d.year, d.month)
  }

  /** Comparison of two datetimes at midnight. */
  predicate DateLe(a: Date, b: Date) {
    a.year < b.year || (a.year == b.year && (a.month < b.month || (a.month == b.month && a.day <= b.day)))
  }

  predicate DateLess(a: Date, b: Date) {
    DateLe(a, b) && a != b
  }

  /** Months counted from January of year 0: a reference for calendar arithmetic. */
  function MonthIndex(year: int, month: int): int {
    12 * year + month - 1
  }

  /** The calendar month `months` months before `now`'s month, as a month index. */
  function TargetIndex(months: int, now: Date): int {
    MonthIndex(now.year, now.month) - months
  }

  /** The target month falls in a year `datetime` can represent, 1 to 9999. */
  predicate CutoffInRange(months: int, now: Date) {
    MonthIndex(1, 1) <= TargetIndex(months, now) <= MonthIndex(9999, 12)
  }

  /** `compute_cutoff_date(months, now)`: `months // 12` years and `months % 12`
      months back (Dafny's `/` and `%` by 12 agree with Python's `//` and `%`,
      negative `months` included), borrowing a year when the month falls to 0
      or below, the day clamped to 28 and the time of day zeroed. The
      requires is the range of years `datetime(...)` accepts. */
  function ComputeCutoff(months: int, now: Date): (r: Date)
    requires ValidDate(now)
    requires CutoffInRange(months, now)
    ensures 1 <= r.year <= 9999 && 1 <= r.month <= 12 && 1 <= r.day <= 28
    ensures MonthIndex(r.year, r.month) == TargetIndex(months, now)
    ensures r.day == if now.day < 28 then now.day else 28
    ensures months >= 0 ==> DateLe(r, now) && r.year <= now.year
    ensures months < 0 ==> DateLess(now, r) && r.year >= now.year
  {
    var years := months / 12;
    var rem := months % 12;
    var targetYear := now.year - years;
    var targetMonth := now.month - rem;
    var y, m := if targetMonth <= 0 then targetYear - 1 else targetYear,
                if targetMonth <= 0 then targetMonth + 12 else targetMonth;
    var day := if now.day < 28 then now.day else 28;
    assert months == 12 * years + rem && 0 <= rem < 12;
    assert 1 <= m <= 12 && 12 * y + m - 1 == TargetIndex(months, now);
    Date(y, m, day)
  }

  /** The cutoff is a date `datetime` can represent: its day, at most 28,
      exists in every month. */
  lemma CutoffValid(months: int, now: Date)
    requires ValidDate(now) && CutoffInRange(months, now)
    ensures ValidDate(ComputeCutoff(months, now))
  {
  }

  /** The cutoff's year and month are the quotient and remainder of its month
      index by 12. */
  lemma CutoffYearMonth(months: int, now: Date)
    requires ValidDate(now) && CutoffInRange(months, now)
    ensures var r := ComputeCutoff(months, now);
      r.year == TargetIndex(months, now) / 12 && r.month == TargetIndex(months, now) % 12 + 1
  {
    var r := ComputeCutoff(months, now);
    var t := TargetIndex(months, now);
    assert t == 12 * r.year + (r.month - 1) && 0 <= r.month - 1 < 12;
    DivModUnique(t, r.year, r.month - 1);
  }

  lemma DivModUnique(t: int, q: int, m: int)
    requires t == 12 * q + m && 0 <= m < 12
    ensures t / 12 == q && t % 12 == m
  {
    var q', m' := t / 12, t % 12;
    assert 12 * (q' - q) == m - m' && -12 < m - m' < 12;
  }

  /** A date is the cutoff when its month is the target month and its day is
      the clamped day. */
  lemma CutoffIs(months: int, now: Date, d: Date)
    requires ValidDate(now) && CutoffInRange(months, now)
    requires 1 <= d.month <= 12 && MonthIndex(d.year, d.month) == TargetIndex(months, now)
    requires d.day == if now.day < 28 then now.day else 28
    ensures ComputeCutoff(months, now) == d
  {
    var r := ComputeCutoff(months, now);
    assert 12 * (r.year - d.year) == d.month - r.month && -12 < d.month - r.month < 12;
  }

  /** One month back from 2024-03-31 is 2024-02-28: the day is clamped. */
  lemma CutoffOneMonth()
    ensures ComputeCutoff(1, Date(2024, 3, 31)) == Date(2024, 2, 28)
  {
    CutoffIs(1, Date(2024, 3, 31), Date(2024, 2, 28));
  }

  /** Three months back from 2024-03-31 is 2023-12-28, in the year before. */
  lemma CutoffThreeMonths()
    ensures ComputeCutoff(3, Date(2024, 3, 31)) == Date(2023, 12, 28)
  {
    CutoffIs(3, Date(2024, 3, 31), Date(2023, 12, 28));
  }

  /** Twelve months back from 2024-03-31 is 2023-03-28. */
  lemma CutoffTwelveMonths()
    ensures ComputeCutoff(12, Date(2024, 3, 31)) == Date(2023, 3, 28)
  {
    CutoffIs(12, Date(2024, 3, 31), Date(2023, 3, 28));
  }

  /** The day group of the strptime pattern, `3[01]|[12]\d|0[1-9]|[1-9]| [1-9]`,
      tried in that order at `p`: the value and where the match ends. */
  function DayAt(s: string, p: nat): Option<(int, nat)> {
    if p + 1 < |s| && s[p] == '3' && (s[p + 1] == '0' || s[p + 1] == '1') then
      Some((30 + DigitValue(s[p + 1]), p + 2))
    else if p + 1 < |s| && (s[p] == '1' || s[p] == '2') && IsDigit(s[p + 1]) then
      Some((10 * DigitValue(s[p]) + DigitValue(s[p + 1]), p + 2))
    else if p + 1 < |s| && s[p] == '0' && '1' <= s[p + 1] <= '9' then
      Some((DigitValue(s[p + 1]), p + 2))
    else if p < |s| && '1' <= s[p] <= '9' then
      Some((DigitValue(s[p]), p + 1))
    else if p + 1 < |s| && s[p] == ' ' && '1' <= s[p + 1] <= '9' then
      Some((DigitValue(s[p + 1]), p + 2))
    else None
  }

  /** The month group `1[0-2]|0[1-9]|[1-9]`, tried in that order at `p`. No
      string matches two alternatives and then the '-' that follows, so
      backtracking into a later alternative never succeeds. */
  function MonthAt(s: string, p: nat): Option<(int, nat)> {
    if p + 1 < |s| && s[p] == '1' && '0' <= s[p + 1] <= '2' then
      Some((10 + DigitValue(s[p + 1]), p + 2))
    else if p + 1 < |s| && s[p] == '0' && '1' <= s[p + 1] <= '9' then
      Some((DigitValue(s[p + 1]), p + 2))
    else if p < |s| && '1' <= s[p] <= '9' then
      Some((DigitValue(s[p]), p + 1))
    else None
  }

  /** `datetime.strptime(s, "%Y-%m-%d")`, `None` where it raises `ValueError`:
      four digits, '-', the month group, '-', the day group, nothing left
      over, and a date the calendar has (year 0 and February 30 are refused). */
  function ParseDate(s: string): (r: Option<Date>)
    ensures r.Some? ==> ValidDate(r.value)
  {
    if |s| < 8 || !(IsDigit(s[0]) && IsDigit(s[1]) && IsDigit(s[2]) && IsDigit(s[3])) || s[4] != '-' then None
    else
      var year := DigitsValue(s[..4]);
      DigitsValueBound(s[..4]);
      match MonthAt(s, 5)
      case None => None
      case Some((month, p)) =>
        if p >= |s| || s[p] != '-' then None
        else
          match DayAt(s, p + 1)
          case None => None
          case Some((day, q)) =>
            if q == |s| && 1 <= year && 1 <= month <= 12 && 1 <= day <= DaysInMonth(year, month)
            then Some(Date(year, month, day))
            else None
  }

  /** Zero-padded decimal of `n` in `width` digits. */
  function Padded(n: nat, width: nat): (r: string)
    ensures |r| == width && AllSatisfy(r, IsDigit)
  {
    if width == 0 then [] else Padded(n / 10, width - 1) + [DigitChar(n % 10)]
  }

  lemma {:induction false} PaddedValue(n: nat, width: nat)
    requires n < Pow10(width)
    ensures DigitsValue(Padded(n, width)) == n
  {
    if width > 0 {
      var r := Padded(n, width);
      var q := Padded(n / 10, width - 1);
      assert r == q + [DigitChar(n % 10)];
      assert r[..|r| - 1] == q;
      assert n / 10 < Pow10(width - 1) by {
        assert Pow10(width) == 10 * Pow10(width - 1);
        assert n == 10 * (n / 10) + n % 10;
      }
      PaddedValue(n / 10, width - 1);
      assert DigitsValue(r) == DigitsValue(q) * 10 + DigitValue(r[|r| - 1]);
    }
  }

  /** The ISO form "YYYY-MM-DD" that `git log --date=short` writes. */
  function FormatDate(d: Date): string
    requires ValidDate(d)
  {
    Padded(d.year, 4) + "-" + Padded(d.month, 2) + "-" + Padded(d.day, 2)
  }

  /** Every valid date written in ISO form is read back by `strptime`. */
  lemma ParseFormatDate(d: Date)
    requires ValidDate(d)
    ensures ParseDate(FormatDate(d)) == Some(d)
  {
    var s := FormatDate(d);
    var y, m, dd := Padded(d.year, 4), Padded(d.month, 2), Padded(d.day, 2);
    PaddedValue(d.year, 4);
    PaddedValue(d.month, 2);
    PaddedValue(d.day, 2);
    IsoLayout(s, y, m, dd);
    TwoDigitsValue(m);
    TwoDigitsValue(dd);
    MonthAtTwoDigits(s, 5, d.month);
    DayAtTwoDigits(s, 8, d.day);
  }

  /** Where the parts of "YYYY-MM-DD" sit. */
  lemma IsoLayout(s: string, y: string, m: string, dd: string)
    requires |y| == 4 && |m| == 2 && |dd| == 2 && s == y + "-" + m + "-" + dd
    ensures |s| == 10 && s[..4] == y && s[4] == '-' && s[7] == '-'
    ensures s[0] == y[0] && s[1] == y[1] && s[2] == y[2] && s[3] == y[3]
    ensures s[5] == m[0] && s[6] == m[1] && s[8] == dd[0] && s[9] == dd[1]
  {
  }

  lemma TwoDigitsValue(s: string)
    requires |s| == 2 && AllSatisfy(s, IsDigit)
    ensures DigitsValue(s) == 10 * DigitValue(s[0]) + DigitValue(s[1])
  {
    var s1 := s[..1];
    assert s1[..0] == [] && s[..|s| - 1] == s1;
    assert DigitsValue(s1) == DigitValue(s[0]);
  }

  /** Two digits spelling a month 1..12 are read whole by the month group. */
  lemma MonthAtTwoDigits(s: string, p: nat, v: int)
    requires p + 1 < |s| && IsDigit(s[p]) && IsDigit(s[p + 1])
    requires 10 * DigitValue(s[p]) + DigitValue(s[p + 1]) == v && 1 <= v <= 12
    ensures MonthAt(s, p) == Some((v, p + 2))
  {
  }

  /** Two digits spelling a day 1..31 are read whole by the day group. */
  lemma DayAtTwoDigits(s: string, p: nat, v: int)
    requires p + 1 < |s| && IsDigit(s[p]) && IsDigit(s[p + 1])
    requires 10 * DigitValue(s[p]) + DigitValue(s[p + 1]) == v && 1 <= v <= 31
    ensures DayAt(s, p) == Some((v, p + 2))
  {
  }

  /** The value of a four-digit year. */
  lemma DigitsValueFour(s: string)
    requires |s| == 4 && AllSatisfy(s, IsDigit)
    ensures DigitsValue(s) == 1000 * DigitValue(s[0]) + 100 * DigitValue(s[1]) + 10 * DigitValue(s[2]) + DigitValue(s[3])
  {
    var s1, s2, s3 := s[..1], s[..2], s[..3];
    assert s1[..0] == [] && s2[..1] == s1 && s3[..2] == s2 && s[..3] == s3;
    assert DigitsValue(s1) == DigitValue(s[0]);
    assert DigitsValue(s2) == 10 * DigitValue(s[0]) + DigitValue(s[1]);
    assert DigitsValue(s3) == 100 * DigitValue(s[0]) + 10 * DigitValue(s[1]) + DigitValue(s[2]);
  }

  lemma Year2024()
    ensures DigitsValue("2024") == 2024
  {
    DigitsValueFour("2024");
  }

  /** `strptime` also takes one-digit months and days and a space-padded day. */
  lemma ParseDateShortForms()
    ensures ParseDate("2024-3-5") == Some(Date(2024, 3, 5))
    ensures ParseDate("2024-03- 5") == Some(Date(2024, 3, 5))
  {
    Year2024();
    assert "2024-3-5"[..4] == "2024" && "2024-03- 5"[..4] == "2024";
  }

  /** February 29 is accepted in a leap year only. */
  lemma ParseDateLeapDay()
    ensures ParseDate("2024-02-29") == Some(Date(2024, 2, 29))
    ensures ParseDate("2023-02-29") == None
  {
    Year2024();
    DigitsValueFour("2023");
    assert "2024-02-29"[..4] == "2024" && "2023-02-29"[..4] == "2023";
  }

  /** Year 0, month 13 and left-over characters are all refused. */
  lemma ParseDateRejects()
    ensures ParseDate("0000-01-01") == None
    ensures ParseDate("2024-13-01") == None
    ensures ParseDate("2024-01-011") == None
  {
    DigitsValueFour("0000");
    assert "0000-01-01"[..4] == "0000";
  }
}
