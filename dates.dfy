/** Calendar dates as the search code handles them: `datetime.date` values
    (proleptic Gregorian), the one-day step `+ timedelta(days=1)`, the
    `%Y-%m-%d` text form, and the date arguments a caller passes as text. */
module Dates {
  import opened Values
  import opened Text

  datatype Date = Date(year: int, month: int, day: int)

  predicate IsLeap(y: int) {
    y % 4 == 0 && (y % 100 != 0 || y % 400 == 0)
  }

  function DaysInMonth(y: int, m: int): int {
    if m == 2 then (if IsLeap(y) then 29 else 28)
    else if m == 4 || m == 6 || m == 9 || m == 11 then 30
    else 31
  }

  predicate Valid(d: Date) {
    1 <= d.year && 1 <= d.month <= 12 && 1 <= d.day <= DaysInMonth(d.year, d.month)
  }

  type ValidDate = d: Date | Valid(d) witness Date(1970, 1, 1)

  /** Chronological order. */
  predicate Before(a: Date, b: Date) {
    || a.year < b.year
    || (a.year == b.year && a.month < b.month)
    || (a.year == b.year && a.month == b.month && a.day < b.day)
  }

  /** `d + timedelta(days=1)` */
  function NextDay(d: ValidDate): (n: ValidDate)
    ensures Before(d, n)
  {
    if d.day < DaysInMonth(d.year, d.month) then Date(d.year, d.month, d.day + 1)
    else if d.month < 12 then Date(d.year, d.month + 1, 1)
    else Date(d.year + 1, 1, 1)
  }

  /** The next day is the first valid date after `d`: no valid date lies
      strictly between them. */
  lemma NextDayIsNext(d: ValidDate, x: ValidDate)
    requires Before(d, x)
    ensures x == NextDay(d) || Before(NextDay(d), x)
  {
    if d.day == DaysInMonth(d.year, d.month) && d.month == 12 {
      assert x.year > d.year;
    } else if d.day == DaysInMonth(d.year, d.month) {
      assert x.year > d.year || x.month > d.month;
    }
  }

  /** Distinct days have distinct successors. */
  lemma NextDayInjective(a: ValidDate, b: ValidDate)
    requires NextDay(a) == NextDay(b)
    ensures a == b
  {
    if a != b {
      if Before(a, b) {
        NextDayIsNext(a, b);
      } else {
        assert Before(b, a);
        NextDayIsNext(b, a);
      }
    }
  }

  /** `d.strftime("%Y-%m-%d")`: for a year up to 9999, zero-padded to four
      digits, ten characters with dashes at positions 4 and 7 and digits
      everywhere else. */
  function IsoText(d: ValidDate): (r: string)
    ensures d.year <= 9999 ==>
      && |r| == 10 && r[4] == '-' && r[7] == '-'
      && AllDigits(r[..4]) && AllDigits(r[5..7]) && AllDigits(r[8..])
  {
    ZeroPadValue(d.year, 4);
    ZeroPadValue(d.month, 2);
    ZeroPadValue(d.day, 2);
    ZeroPad(d.year, 4) + "-" + ZeroPad(d.month, 2) + "-" + ZeroPad(d.day, 2)
  }

  /** The `YYYY-MM-DD` form read back: the date it names, if it names one. */
  function ParseIsoText(s: string): Option<ValidDate> {
    if |s| == 10 && s[4] == '-' && s[7] == '-' && AllDigits(s[..4]) && AllDigits(s[5..7]) && AllDigits(s[8..]) then
      var d := Date(DigitsValue(s[..4]), DigitsValue(s[5..7]), DigitsValue(s[8..]));
      if Valid(d) then Some(d) else None
    else None
  }

  /** The text form of a date reads back as that date, so distinct dates have
      distinct text forms. */
  lemma IsoTextRoundTrip(d: ValidDate)
    requires d.year <= 9999
    ensures ParseIsoText(IsoText(d)) == Some(d)
  {
    var y, m, dd := ZeroPad(d.year, 4), ZeroPad(d.month, 2), ZeroPad(d.day, 2);
    ZeroPadValue(d.year, 4);
    ZeroPadValue(d.month, 2);
    ZeroPadValue(d.day, 2);
    var r := IsoText(d);
    assert r == y + "-" + m + "-" + dd;
    assert r[..4] == y;
    assert r[5..7] == m;
    assert r[8..] == dd;
  }

  /** A date argument as a caller passes it, as text. `Iso(d)` stands for a
      string that `datetime.strptime(s, '%Y-%m-%d')` reads as `d` (the text
      form of `d` is one, by `IsoTextRoundTrip`); `Malformed(s)` for one it
      rejects with `ValueError`, the empty string included. */
  datatype DateArg = Iso(date: ValidDate) | Malformed(text: string)
}
