/**
  Proleptic Gregorian calendar dates as Python's `datetime.date` holds them,
  with the two pieces of date arithmetic the extractor performs: adding one
  month with `relativedelta(months=1)` and subtracting `timedelta(days=1)`.
 */
module Calendar {
  import opened Wrappers

  /** A calendar date; Python orders dates by (year, month, day). */
  datatype Date = Date(year: nat, month: nat, day: nat)

  /** A `YYYY-MM` month; the day of the parsed `datetime` is always 1. */
  datatype Month = Month(year: nat, month: nat)

  /** An inclusive range of dates `[since, until]`. */
  datatype Window = Window(since: Date, until: Date)

  const MinYear: nat := 1
  const MaxYear: nat := 9999

  predicate IsLeapYear(y: int) {
    y % 4 == 0 && (y % 100 != 0 || y % 400 == 0)
  }

  function DaysInMonth(y: int, m: int): (n: nat)
    requires 1 <= m <= 12
    ensures 28 <= n <= 31
    ensures n == 29 <==> m == 2 && IsLeapYear(y)
  {
    if m == 2 then (if IsLeapYear(y) then 29 else 28)
    else if m == 4 || m == 6 || m == 9 || m == 11 then 30
    else 31
  }

  /** The dates Python's `date` type can represent. */
  predicate ValidDate(d: Date) {
    MinYear <= d.year <= MaxYear && 1 <= d.month <= 12 && 1 <= d.day <= DaysInMonth(d.year, d.month)
  }

  predicate ValidMonth(m: Month) {
    MinYear <= m.year <= MaxYear && 1 <= m.month <= 12
  }

  /** `a <= b` on Python dates. */
  predicate NotAfter(a: Date, b: Date) {
    a.year < b.year
    || (a.year == b.year && (a.month < b.month || (a.month == b.month && a.day <= b.day)))
  }

  predicate InWindow(w: Window, d: Date) {
    NotAfter(w.since, d) && NotAfter(d, w.until)
  }

  /** `<=` on dates is a total order, so sorting by date is well defined. */
  lemma NotAfterIsTotalOrder(a: Date, b: Date, c: Date)
    ensures NotAfter(a, a)
    ensures NotAfter(a, b) && NotAfter(b, a) ==> a == b
    ensures NotAfter(a, b) && NotAfter(b, c) ==> NotAfter(a, c)
    ensures NotAfter(a, b) || NotAfter(b, a)
  {
  }

  /** `d + relativedelta(months=1)`: the following month, with the day clamped
      to that month's length; `None` where the year leaves the range of `date`. */
  function AddOneMonth(d: Date): (r: Option<Date>)
    requires ValidDate(d)
    ensures r.None? <==> d.year == MaxYear && d.month == 12
    ensures r.Some? ==> ValidDate(r.value) && r.value.day <= d.day
    ensures r.Some? ==> 12 * r.value.year + r.value.month == 12 * d.year + d.month + 1
    ensures r.Some? ==> var last := DaysInMonth(r.value.year, r.value.month);
      r.value.day == if d.day <= last then d.day else last
  {
    var y := if d.month == 12 then d.year + 1 else d.year;
    var m := if d.month == 12 then 1 else d.month + 1;
    if y > MaxYear then None
    else
      var last := DaysInMonth(y, m);
      Some(Date(y, m, if d.day <= last then d.day else last))
  }

  /** `d - timedelta(days=1)`: the latest valid date before `d`; `None` before
      the first representable date. */
  function PreviousDay(d: Date): (r: Option<Date>)
    requires ValidDate(d)
    ensures r.None? <==> d == Date(MinYear, 1, 1)
    ensures r.Some? ==> ValidDate(r.value) && NotAfter(r.value, d) && r.value != d
    ensures r.Some? ==> forall e :: ValidDate(e) && NotAfter(e, d) && e != d ==> NotAfter(e, r.value)
  {
    if d.day > 1 then Some(Date(d.year, d.month, d.day - 1))
    else if d.month > 1 then Some(Date(d.year, d.month - 1, DaysInMonth(d.year, d.month - 1)))
    else if d.year > MinYear then Some(Date(d.year - 1, 12, 31))
    else None
  }

  /** The window `--month` selects: from the month's first day to one month
      later minus one day. */
  function MonthWindow(m: Month): Option<Window>
    requires ValidMonth(m)
  {
    var first := Date(m.year, m.month, 1);
    var next :- AddOneMonth(first);
    var last :- PreviousDay(next);
    Some(Window(first, last))
  }

  /** The month window runs from day 1 to the month's last day by the
      Gregorian leap rules, and fails only for the last month Python can
      represent, whose successor month lies in year 10000. */
  lemma MonthWindowIsWholeMonth(m: Month)
    requires ValidMonth(m)
    ensures MonthWindow(m).None? <==> m.year == MaxYear && m.month == 12
    ensures MonthWindow(m).Some? ==>
      MonthWindow(m).value == Window(Date(m.year, m.month, 1), Date(m.year, m.month, DaysInMonth(m.year, m.month)))
  {
    var first := Date(m.year, m.month, 1);
    var next := AddOneMonth(first);
    if next.Some? {
      var n := next.value;
      var last := PreviousDay(n);
      assert n.day == 1;
      assert last.Some?;
      var expected := Date(m.year, m.month, DaysInMonth(m.year, m.month));
      assert ValidDate(expected) && NotAfter(expected, n) && expected != n;
      assert NotAfter(expected, last.value);
    }
  }

  /** A valid date lies in the month window exactly when it is in that month. */
  lemma MonthWindowCovers(m: Month, d: Date)
    requires ValidMonth(m) && ValidDate(d) && MonthWindow(m).Some?
    ensures InWindow(MonthWindow(m).value, d) <==> d.year == m.year && d.month == m.month
  {
    MonthWindowIsWholeMonth(m);
  }

  lemma MonthWindowMarch2024()
    ensures MonthWindow(Month(2024, 3)) == Some(Window(Date(2024, 3, 1), Date(2024, 3, 31)))
  {
    MonthWindowIsWholeMonth(Month(2024, 3));
  }

  lemma MonthWindowFebruaries()
    ensures MonthWindow(Month(2024, 2)) == Some(Window(Date(2024, 2, 1), Date(2024, 2, 29)))
    ensures MonthWindow(Month(2023, 2)) == Some(Window(Date(2023, 2, 1), Date(2023, 2, 28)))
    ensures MonthWindow(Month(1900, 2)) == Some(Window(Date(1900, 2, 1), Date(1900, 2, 28)))
    ensures MonthWindow(Month(2000, 2)) == Some(Window(Date(2000, 2, 1), Date(2000, 2, 29)))
  {
    MonthWindowIsWholeMonth(Month(2024, 2));
    MonthWindowIsWholeMonth(Month(2023, 2));
    MonthWindowIsWholeMonth(Month(1900, 2));
    MonthWindowIsWholeMonth(Month(2000, 2));
  }

  lemma MonthWindowLastMonth()
    ensures MonthWindow(Month(MaxYear, 12)) == None
  {
    MonthWindowIsWholeMonth(Month(MaxYear, 12));
  }

  // ISO text of a date, as `str(date)` writes it into the CSV file.

  function DigitChar(n: nat): char
    requires n < 10
  {
    "0123456789"[n]
  }

  function DigitValue(c: char): nat {
    if '0' <= c <= '9' then (c as int - '0' as int) as nat else 0
  }

  /** Decimal digits of `n`, most significant first, no leading zeros. */
  function Digits(n: nat): (s: string)
    ensures 1 <= |s|
    ensures forall k :: 0 <= k < |s| ==> '0' <= s[k] <= '9'
    ensures n < 10 ==> |s| == 1
    ensures n < 100 ==> |s| <= 2
    ensures n < 10000 ==> |s| <= 4
  {
    if n < 10 then [DigitChar(n)] else Digits(n / 10) + [DigitChar(n % 10)]
  }

  /** `'%0*d' % (width, n)`: at least `width` characters, zeros in front. */
  function ZeroPad(n: nat, width: nat): (s: string)
    ensures |s| == if |Digits(n)| < width then width else |Digits(n)|
    ensures forall k :: 0 <= k < |s| ==> '0' <= s[k] <= '9'
  {
    var ds := Digits(n);
    if |ds| < width then seq(width - |ds|, _ => '0') + ds else ds
  }

  /** `date.isoformat()`: `YYYY-MM-DD`. */
  function IsoFormat(d: Date): string {
    ZeroPad(d.year, 4) + "-" + ZeroPad(d.month, 2) + "-" + ZeroPad(d.day, 2)
  }

  /** The value of a string of decimal digits. */
  function DecimalValue(s: string): nat {
    if s == [] then 0 else 10 * DecimalValue(s[..|s| - 1]) + DigitValue(s[|s| - 1])
  }

  /** Reads back the `YYYY-MM-DD` text that `IsoFormat` writes: the three
      decimal fields between the dashes at positions 4 and 7. */
  function ParseIso(s: string): Option<Date> {
    if |s| == 10 && s[4] == '-' && s[7] == '-' then
      Some(Date(DecimalValue(s[..4]), DecimalValue(s[5..7]), DecimalValue(s[8..])))
    else None
  }

  lemma DigitCharValue(k: nat)
    requires k < 10
    ensures DigitValue(DigitChar(k)) == k
  {
  }

  lemma {:induction false} DigitsValue(n: nat)
    ensures DecimalValue(Digits(n)) == n
  {
    if n < 10 {
      DigitCharValue(n);
    } else {
      DigitsValue(n / 10);
      DigitCharValue(n % 10);
      var s := Digits(n);
      assert s == Digits(n / 10) + [DigitChar(n % 10)];
      assert s[..|s| - 1] == Digits(n / 10);
      assert DecimalValue(s) == 10 * (n / 10) + n % 10;
    }
  }

  lemma {:induction false} LeadingZeros(k: nat, s: string)
    ensures DecimalValue(seq(k, _ => '0') + s) == DecimalValue(s)
    decreases |s|, k
  {
    var z := seq(k, _ => '0');
    if s == [] {
      if k > 0 {
        assert z + s == seq(k - 1, _ => '0') + ['0'];
        var t := seq(k - 1, _ => '0') + ['0'];
        assert t[..|t| - 1] == seq(k - 1, _ => '0');
        LeadingZeros(k - 1, []);
        assert seq(k - 1, _ => '0') + [] == seq(k - 1, _ => '0');
      }
    } else {
      var t := z + s;
      assert t[..|t| - 1] == z + s[..|s| - 1];
      LeadingZeros(k, s[..|s| - 1]);
    }
  }

  lemma ZeroPadValue(n: nat, width: nat)
    ensures DecimalValue(ZeroPad(n, width)) == n
  {
    DigitsValue(n);
    var ds := Digits(n);
    if |ds| < width {
      LeadingZeros(width - |ds|, ds);
    }
  }

  /** Every valid date prints as ten characters `YYYY-MM-DD`, and reading that
      text back gives the same date. */
  lemma IsoFormatRoundTrip(d: Date)
    requires ValidDate(d)
    ensures |IsoFormat(d)| == 10 && IsoFormat(d)[4] == '-' && IsoFormat(d)[7] == '-'
    ensures forall k :: 0 <= k < 10 && k != 4 && k != 7 ==> '0' <= IsoFormat(d)[k] <= '9'
    ensures ParseIso(IsoFormat(d)) == Some(d)
  {
    var y, m, dd := ZeroPad(d.year, 4), ZeroPad(d.month, 2), ZeroPad(d.day, 2);
    var s := IsoFormat(d);
    assert s == y + "-" + m + "-" + dd;
    assert s[..4] == y && s[5..7] == m && s[8..] == dd;
    ZeroPadValue(d.year, 4);
    ZeroPadValue(d.month, 2);
    ZeroPadValue(d.day, 2);
  }
}
