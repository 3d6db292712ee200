/**
 * Python's `datetime.date` as far as the core uses it: the proleptic
 * Gregorian calendar between years 1 and 9999, `date.isoformat()` and the
 * `YYYY-MM-DD` form of `date.fromisoformat`.
 */
module Calendar {
  import opened Wrappers
  import opened Text

  /** `datetime.MINYEAR` and `datetime.MAXYEAR`. */
  const MinYear := 1
  const MaxYear := 9999

  datatype YearMonthDay = YearMonthDay(year: int, month: int, day: int)

  predicate IsLeapYear(year: int) {
    year % 4 == 0 && (year % 100 != 0 || year % 400 == 0)
  }

  function DaysInMonth(year: int, month: int): (n: int)
    requires 1 <= month <= 12
    ensures 28 <= n <= 31
    ensures n == 29 <==> month == 2 && IsLeapYear(year)
  {
    if month == 2 then (if IsLeapYear(year) then 29 else 28)
    else if month == 4 || month == 6 || month == 9 || month == 11 then 30
    else 31
  }

  /** The triples `date(year, month, day)` accepts without raising. */
  predicate IsCalendarDate(d: YearMonthDay) {
    && MinYear <= d.year <= MaxYear
    && 1 <= d.month <= 12
    && 1 <= d.day <= DaysInMonth(d.year, d.month)
  }

  /** A `datetime.date` object: always a real calendar day. */
  type Date = d: YearMonthDay | IsCalendarDate(d) witness YearMonthDay(1, 1, 1)

  /** Chronological order: `a < b` on dates. */
  predicate Earlier(a: Date, b: Date) {
    || a.year < b.year
    || (a.year == b.year && a.month < b.month)
    || (a.year == b.year && a.month == b.month && a.day < b.day)
  }

  /** `d.isoformat()`: `"%04d-%02d-%02d" % (year, month, day)`. */
  function IsoFormat(d: Date): (s: string)
    ensures |s| == 10 && s[4] == '-' && s[7] == '-'
    ensures AllDigits(s[0..4]) && AllDigits(s[5..7]) && AllDigits(s[8..10])
  {
    var s := ZeroPadded(d.year, 4) + "-" + ZeroPadded(d.month, 2) + "-" + ZeroPadded(d.day, 2);
    assert s[0..4] == ZeroPadded(d.year, 4);
    assert s[5..7] == ZeroPadded(d.month, 2);
    assert s[8..10] == ZeroPadded(d.day, 2);
    s
  }

  /** `YYYY-MM-DD` in ASCII digits, before any calendar check. */
  predicate IsIsoShaped(s: string) {
    && |s| == 10 && s[4] == '-' && s[7] == '-'
    && AllDigits(s[0..4]) && AllDigits(s[5..7]) && AllDigits(s[8..10])
  }

  /** The year, month and day fields of an ISO-shaped string. */
  function IsoFields(s: string): YearMonthDay
    requires IsIsoShaped(s)
  {
    YearMonthDay(DigitsValue(s[0..4]), DigitsValue(s[5..7]), DigitsValue(s[8..10]))
  }

  /**
   * `date.fromisoformat(s)` for the `YYYY-MM-DD` form: `None` stands for the
   * `ValueError` raised on a wrongly shaped string or a day that does not exist.
   */
  function FromIsoFormat(s: string): (r: Option<Date>)
    ensures r.Some? <==> IsIsoShaped(s) && IsCalendarDate(IsoFields(s))
    ensures r.Some? ==> r.value == IsoFields(s)
  {
    if IsIsoShaped(s) && IsCalendarDate(IsoFields(s)) then Some(IsoFields(s)) else None
  }

  /** Every date renders to text that parses back to it. */
  lemma IsoFormatRoundTrip(d: Date)
    ensures FromIsoFormat(IsoFormat(d)) == Some(d)
  {
    var s := IsoFormat(d);
    assert Pow10(2) == 100 && Pow10(4) == 10000;
    assert s[0..4] == ZeroPadded(d.year, 4);
    assert s[5..7] == ZeroPadded(d.month, 2);
    assert s[8..10] == ZeroPadded(d.day, 2);
    ZeroPaddedValue(d.year, 4);
    ZeroPaddedValue(d.month, 2);
    ZeroPaddedValue(d.day, 2);
    assert IsoFields(s) == d;
  }

  /** Every string `FromIsoFormat` accepts is already canonical: rendering the date gives it back. */
  lemma FromIsoFormatCanonical(s: string)
    requires FromIsoFormat(s).Some?
    ensures IsoFormat(FromIsoFormat(s).value) == s
  {
    var d := FromIsoFormat(s).value;
    ZeroPaddedOfValue(s[0..4]);
    ZeroPaddedOfValue(s[5..7]);
    ZeroPaddedOfValue(s[8..10]);
    assert s == s[0..4] + "-" + s[5..7] + "-" + s[8..10];
  }

  /** 2023 is not a leap year, so its 29 February does not exist. */
  lemma NoLeapDayIn2023()
    ensures FromIsoFormat("2023-02-29") == None
  {
    assert IsIsoShaped("2023-02-29");
    assert "2023-02-29"[0..4] == "2023";
    assert DigitsValue("2023") == 2023 by {
      assert "2023"[..3] == "202" && "202"[..2] == "20" && "20"[..1] == "2" && "2"[..0] == "";
    }
    assert "2023-02-29"[5..7] == "02";
    assert DigitsValue("02") == 2 by {
      assert "02"[..1] == "0" && "0"[..0] == "";
    }
    assert "2023-02-29"[8..10] == "29";
    assert DigitsValue("29") == 29 by {
      assert "29"[..1] == "2" && "2"[..0] == "";
    }
    assert IsoFields("2023-02-29") == YearMonthDay(2023, 2, 29);
    assert !IsLeapYear(2023);
  }

  /** Day-month-year order is refused: the dashes are not where `YYYY-MM-DD` puts them. */
  lemma DayFirstRefused()
    ensures FromIsoFormat("10-01-2024") == None
  {
    assert !IsIsoShaped("10-01-2024");
  }
}
