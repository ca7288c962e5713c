/**
 RFC 3339 timestamps, as the `created` field of a container records them.

 `Timestamp` is the source's formatter. Against it stand an independent reader of the format of
 section 5.6 of RFC 3339 and the order of strings: reading back returns the second formatted,
 every readable string is the one the formatter writes, and strings sort like the seconds.
 */
module Timestamp {
  import opened Wrappers
  import opened MachineIntegers
  import opened Calendar

  // 10000-01-01, the first day whose year takes five digits, and its first second, 253402300800.
  const FIVE_DIGIT_DAY: int := 2932897
  const FIVE_DIGIT_YEARS: int := 86400 * FIVE_DIGIT_DAY

  // ------------------------------------------------------------------ the source's formatter

  function DigitChar(n: nat): char
    requires n < 10
  {
    '0' + n as char
  }

  function Decimal(n: nat): string {
    if n < 10 then [DigitChar(n)] else Decimal(n / 10) + [DigitChar(n % 10)]
  }

  function Zeros(n: nat): string {
    seq(n, _ => '0')
  }

  // `{:0width}`: decimal digits, with zeros on the left up to `width`.
  function Padded(n: nat, width: nat): string {
    var digits := Decimal(n);
    if |digits| < width then Zeros(width - |digits|) + digits else digits
  }

  function Separated(year: string, month: string, day: string, h: string, m: string, s: string): string {
    year + ("-" + (month + ("-" + (day + ("T" + (h + (":" + (m + (":" + (s + "Z"))))))))))
  }

  // `{:04}-{:02}-{:02}T{:02}:{:02}:{:02}Z`
  function DateTime(date: Date, h: nat, m: nat, s: nat): string {
    Separated(Padded(date.year, 4), Padded(date.month, 2), Padded(date.day, 2),
              Padded(h, 2), Padded(m, 2), Padded(s, 2))
  }

  function FormatUtc(secs: u64): string {
    var days := secs / 86400;
    var daySecs := secs % 86400;
    var hours := daySecs / 3600;
    var minutes := (daySecs % 3600) / 60;
    var seconds := daySecs % 60;
    DateTime(DaysToYmd(days), hours as nat, minutes as nat, seconds as nat)
  }

  // The year a second is formatted with.
  function Year(secs: u64): nat {
    DaysToYmd(secs / 86400).year
  }

  // `clock` is the time since the epoch, absent when the system clock is set before it.
  function NowRfc3339(clock: Option<u64>): string {
    FormatUtc(if clock.Some? then clock.value else 0)
  }

  // ------------------------------------------------------------------ reading a timestamp

  predicate IsDigit(c: char) {
    '0' <= c <= '9'
  }

  predicate AllDigits(s: string) {
    forall c <- s :: IsDigit(c)
  }

  function Number(s: string): nat
    requires AllDigits(s)
  {
    if s == [] then 0
    else
      assert s[|s| - 1] in s && IsDigit(s[|s| - 1]);
      10 * Number(s[..|s| - 1]) + (s[|s| - 1] - '0') as nat
  }

  // The UTC form of `date-time` in section 5.6 of RFC 3339 without fractions, which is also the
  // shape that section 5.1 of RFC 3339 requires for sorting.
  predicate HasShape(s: string) {
    && |s| == 20
    && AllDigits(s[0..4]) && s[4] == '-' && AllDigits(s[5..7]) && s[7] == '-' && AllDigits(s[8..10])
    && s[10] == 'T'
    && AllDigits(s[11..13]) && s[13] == ':' && AllDigits(s[14..16]) && s[16] == ':' && AllDigits(s[17..19])
    && s[19] == 'Z'
  }

  function SecondNumber(date: Date, h: nat, m: nat, sec: nat): nat
    requires ValidDate(date) && 1970 <= date.year
  {
    86400 * DaysFromDate(date) + 3600 * h + 60 * m + sec
  }

  // Seconds since the epoch. Dates before it and the leap second `:60` are not read.
  function ReadFields(year: string, month: string, day: string, hour: string, minute: string, second: string)
    : Option<nat>
    requires AllDigits(year) && AllDigits(month) && AllDigits(day)
    requires AllDigits(hour) && AllDigits(minute) && AllDigits(second)
  {
    var date := Date(Number(year), Number(month), Number(day));
    var h, m, sec := Number(hour), Number(minute), Number(second);
    if ValidDate(date) && 1970 <= date.year && h < 24 && m < 60 && sec < 60
    then Some(SecondNumber(date, h, m, sec))
    else None
  }

  function ReadUtc(s: string): Option<nat> {
    if !HasShape(s) then None
    else ReadFields(s[0..4], s[5..7], s[8..10], s[11..13], s[14..16], s[17..19])
  }

  // The same with a year of four or more digits, and no zero before it if there are more than four.
  predicate HasLongShape(s: string) {
    var n := |s| - 16;
    && n >= 4 && (n > 4 ==> s[0] != '0')
    && AllDigits(s[..n]) && s[n] == '-' && AllDigits(s[n + 1..n + 3]) && s[n + 3] == '-'
    && AllDigits(s[n + 4..n + 6]) && s[n + 6] == 'T'
    && AllDigits(s[n + 7..n + 9]) && s[n + 9] == ':' && AllDigits(s[n + 10..n + 12]) && s[n + 12] == ':'
    && AllDigits(s[n + 13..n + 15]) && s[n + 15] == 'Z'
  }

  function ReadAnyYear(s: string): Option<nat> {
    if !HasLongShape(s) then None
    else
      var n := |s| - 16;
      ReadFields(s[..n], s[n + 1..n + 3], s[n + 4..n + 6], s[n + 7..n + 9], s[n + 10..n + 12], s[n + 13..n + 15])
  }

  // Lexicographic order of strings.
  predicate Before(a: string, b: string) {
    b != [] && (a == [] || a[0] < b[0] || (a[0] == b[0] && Before(a[1..], b[1..])))
  }

  // ------------------------------------------------------------------ decimal fields

  function Pow10(n: nat): nat {
    if n == 0 then 1 else 10 * Pow10(n - 1)
  }

  // A decimal field of fixed width, by its last digit.
  function Field(n: nat, width: nat): string {
    if width == 0 then [] else Field(n / 10, width - 1) + [DigitChar(n % 10)]
  }

  lemma {:induction false} FieldOfZero(width: nat)
    ensures Field(0, width) == Zeros(width)
  {
    if width == 0 {
    } else {
      FieldOfZero(width - 1);
    }
  }

  lemma {:induction false} FieldIsPadded(n: nat, width: nat)
    requires 1 <= width && n < Pow10(width)
    ensures Field(n, width) == Padded(n, width) && |Decimal(n)| <= width
  {
    if n < 10 {
      FieldOfZero(width - 1);
      assert Field(n, width) == Field(0, width - 1) + [DigitChar(n)];
    } else {
      FieldIsPadded(n / 10, width - 1);
      assert Zeros(width - |Decimal(n)|) + Decimal(n)
          == Zeros(width - 1 - |Decimal(n / 10)|) + Decimal(n / 10) + [DigitChar(n % 10)];
    }
  }

  lemma {:induction false} DecimalLength(n: nat, width: nat)
    requires Pow10(width) <= n
    ensures |Decimal(n)| > width
  {
    if width == 0 {
    } else {
      DecimalLength(n / 10, width - 1);
    }
  }

  lemma {:induction false} FieldReads(n: nat, width: nat)
    requires n < Pow10(width)
    ensures |Field(n, width)| == width && AllDigits(Field(n, width)) && Number(Field(n, width)) == n
  {
    if width == 0 {
    } else {
      FieldReads(n / 10, width - 1);
      assert Field(n, width)[..width - 1] == Field(n / 10, width - 1);
    }
  }

  lemma {:induction false} FieldWrites(s: string)
    requires AllDigits(s)
    ensures Number(s) < Pow10(|s|) && Field(Number(s), |s|) == s
  {
    if s == [] {
    } else {
      FieldWrites(s[..|s| - 1]);
      var n, d := Number(s[..|s| - 1]), s[|s| - 1];
      assert d in s && IsDigit(d);
      var v := (d - '0') as nat;
      assert (10 * n + v) / 10 == n && (10 * n + v) % 10 == v && DigitChar(v) == d;
      assert s == s[..|s| - 1] + [d];
    }
  }

  // ------------------------------------------------------------------ order of fields

  lemma {:induction false} BeforeAppend(a: string, b: string, x: string, y: string)
    requires |a| == |b|
    ensures Before(a + x, b + y) <==> Before(a, b) || (a == b && Before(x, y))
  {
    if a == [] {
      assert a + x == x && b + y == y;
    } else {
      assert (a + x)[1..] == a[1..] + x && (b + y)[1..] == b[1..] + y;
      assert a == [a[0]] + a[1..] && b == [b[0]] + b[1..];
      BeforeAppend(a[1..], b[1..], x, y);
    }
  }

  lemma {:induction false} FieldOrder(n: nat, m: nat, width: nat)
    requires n < Pow10(width) && m < Pow10(width)
    ensures |Field(n, width)| == |Field(m, width)| == width
    ensures Before(Field(n, width), Field(m, width)) <==> n < m
    ensures Field(n, width) == Field(m, width) <==> n == m
  {
    FieldReads(n, width);
    FieldReads(m, width);
    if width == 0 {
    } else {
      FieldOrder(n / 10, m / 10, width - 1);
      BeforeAppend(Field(n / 10, width - 1), Field(m / 10, width - 1), [DigitChar(n % 10)], [DigitChar(m % 10)]);
    }
  }

  lemma {:induction false} NotBeforeItself(s: string)
    ensures !Before(s, s)
  {
    if s == [] {
    } else {
      NotBeforeItself(s[1..]);
    }
  }

  // Two strings that begin with a field and the same separator compare by the fields first.
  lemma FieldFirst(n: nat, m: nat, width: nat, separator: string, x: string, y: string)
    requires 1 <= width && n < Pow10(width) && m < Pow10(width)
    ensures Before(Padded(n, width) + (separator + x), Padded(m, width) + (separator + y))
        <==> n < m || (n == m && Before(x, y))
  {
    FieldIsPadded(n, width);
    FieldIsPadded(m, width);
    FieldOrder(n, m, width);
    BeforeAppend(Padded(n, width), Padded(m, width), separator + x, separator + y);
    BeforeAppend(separator, separator, x, y);
    NotBeforeItself(separator);
  }

  // ------------------------------------------------------------------ main results

  lemma FirstFiveDigitDay()
    ensures DaysFromDate(Date(10000, 1, 1)) == FIVE_DIGIT_DAY
  {
    DaysFromDateClosedForm(Date(10000, 1, 1));
  }

  lemma FiveDigitYears(date: Date)
    requires ValidDate(date) && 1970 <= date.year
    ensures date.year < 10000 <==> DaysFromDate(date) < FIVE_DIGIT_DAY
  {
    FirstFiveDigitDay();
    var first := Date(10000, 1, 1);
    if date.year < 10000 {
      DaysFromDateMonotone(date, first);
    } else if date != first {
      DaysFromDateMonotone(first, date);
    }
  }

  lemma PaddedReads(n: nat, width: nat)
    requires 1 <= width && n < Pow10(width)
    ensures |Padded(n, width)| == width && AllDigits(Padded(n, width)) && Number(Padded(n, width)) == n
  {
    FieldIsPadded(n, width);
    FieldReads(n, width);
  }

  lemma SeparatedSlices(year: string, month: string, day: string, h: string, m: string, s: string)
    requires |year| == 4 && |month| == |day| == |h| == |m| == |s| == 2
    ensures var t := Separated(year, month, day, h, m, s);
            && |t| == 20
            && t[0..4] == year && t[5..7] == month && t[8..10] == day
            && t[11..13] == h && t[14..16] == m && t[17..19] == s
            && t[4] == t[7] == '-' && t[10] == 'T' && t[13] == t[16] == ':' && t[19] == 'Z'
  {
    var t := Separated(year, month, day, h, m, s);
    assert t[11..] == h + (":" + (m + (":" + (s + "Z"))));
    assert t[14..] == m + (":" + (s + "Z"));
    assert t[17..] == s + "Z";
  }

  lemma DateTimeReads(date: Date, h: nat, m: nat, sec: nat)
    requires ValidDate(date) && 1970 <= date.year < 10000 && h < 24 && m < 60 && sec < 60
    ensures ReadUtc(DateTime(date, h, m, sec)) == Some(SecondNumber(date, h, m, sec))
  {
    assert Pow10(2) == 100 && Pow10(4) == 10000;
    PaddedReads(date.year, 4);
    PaddedReads(date.month, 2);
    PaddedReads(date.day, 2);
    PaddedReads(h, 2);
    PaddedReads(m, 2);
    PaddedReads(sec, 2);
    SeparatedSlices(Padded(date.year, 4), Padded(date.month, 2), Padded(date.day, 2),
                    Padded(h, 2), Padded(m, 2), Padded(sec, 2));
  }

  lemma TimeOfDay(secs: nat, h: nat, m: nat, sec: nat)
    requires h == secs % 86400 / 3600 && m == secs % 86400 % 3600 / 60 && sec == secs % 86400 % 60
    ensures h < 24 && m < 60 && sec < 60
    ensures secs == 86400 * (secs / 86400) + 3600 * h + 60 * m + sec
  {
    var day := secs % 86400;
    var rest := day % 3600;
    assert day == 3600 * h + rest;
    Quotient(day, 60, 60 * h + rest / 60, rest % 60);
  }

  // The date and time of day that the formatter writes for a second.
  lemma FormattedFields(secs: u64) returns (date: Date, h: nat, m: nat, sec: nat)
    ensures date == DaysToYmd(secs / 86400)
    ensures ValidDate(date) && 1970 <= date.year && h < 24 && m < 60 && sec < 60
    ensures secs as nat == SecondNumber(date, h, m, sec)
    ensures FormatUtc(secs) == DateTime(date, h, m, sec)
    ensures secs as int < FIVE_DIGIT_YEARS <==> date.year < 10000
  {
    var daySecs := secs % 86400;
    date := DaysToYmd(secs / 86400);
    h, m, sec := (daySecs / 3600) as nat, ((daySecs % 3600) / 60) as nat, (daySecs % 60) as nat;
    DaysToYmdInverse(secs / 86400);
    FiveDigitYears(date);
    TimeOfDay(secs as nat, h, m, sec);
  }

  // Every second before the year 10000 reads back from its timestamp.
  lemma ReadsBack(secs: u64)
    requires secs as int < FIVE_DIGIT_YEARS
    ensures ReadUtc(FormatUtc(secs)) == Some(secs as nat)
  {
    var date, h, m, sec := FormattedFields(secs);
    DateTimeReads(date, h, m, sec);
  }

  // The timestamp has the format of section 5.6 of RFC 3339 exactly before the year 10000.
  lemma HasShapeExactly(secs: u64)
    ensures HasShape(FormatUtc(secs)) <==> secs as int < FIVE_DIGIT_YEARS
    ensures |FormatUtc(secs)| == 20 <==> secs as int < FIVE_DIGIT_YEARS
  {
    var date, h, m, sec := FormattedFields(secs);
    if date.year < 10000 {
      ReadsBack(secs);
    } else {
      assert Pow10(2) == 100 && Pow10(4) == 10000;
      DecimalLength(date.year, 4);
      PaddedReads(date.month, 2);
      PaddedReads(date.day, 2);
      PaddedReads(h, 2);
      PaddedReads(m, 2);
      PaddedReads(sec, 2);
    }
  }

  lemma PaddedWrites(s: string)
    requires s != [] && AllDigits(s)
    ensures Number(s) < Pow10(|s|) && Padded(Number(s), |s|) == s
  {
    FieldWrites(s);
    FieldIsPadded(Number(s), |s|);
  }

  lemma SecondOfDay(days: nat, h: nat, m: nat, sec: nat)
    requires h < 24 && m < 60 && sec < 60
    ensures var secs := 86400 * days + 3600 * h + 60 * m + sec;
            && secs / 86400 == days
            && secs % 86400 / 3600 == h
            && secs % 86400 % 3600 / 60 == m
            && secs % 86400 % 60 == sec
  {
    var secs := 86400 * days + 3600 * h + 60 * m + sec;
    Quotient(secs, 86400, days, 3600 * h + 60 * m + sec);
    Quotient(secs % 86400, 3600, h, 60 * m + sec);
    Quotient(secs % 86400 % 3600, 60, m, sec);
    Quotient(secs % 86400, 60, 60 * h + m, sec);
  }

  lemma FormatsAs(date: Date, h: nat, m: nat, sec: nat)
    requires ValidDate(date) && 1970 <= date.year && h < 24 && m < 60 && sec < 60
    requires DaysFromDate(date) <= FIVE_DIGIT_DAY
    ensures FormatUtc(SecondNumber(date, h, m, sec) as u64) == DateTime(date, h, m, sec)
  {
    SecondOfDay(DaysFromDate(date), h, m, sec);
    DaysFromDateInverse(date);
    var secs := SecondNumber(date, h, m, sec) as u64;
    assert secs / 86400 == DaysFromDate(date) as u64;
  }

  lemma ShapeIsSeparated(s: string)
    requires HasShape(s)
    ensures s == Separated(s[0..4], s[5..7], s[8..10], s[11..13], s[14..16], s[17..19])
  {
    SeparatedSlices(s[0..4], s[5..7], s[8..10], s[11..13], s[14..16], s[17..19]);
  }

  lemma ShapeIsDateTime(s: string)
    requires HasShape(s)
    ensures s == DateTime(Date(Number(s[0..4]), Number(s[5..7]), Number(s[8..10])),
                          Number(s[11..13]), Number(s[14..16]), Number(s[17..19]))
    ensures Number(s[0..4]) < 10000
  {
    ShapeIsSeparated(s);
    PaddedWrites(s[0..4]);
    PaddedWrites(s[5..7]);
    PaddedWrites(s[8..10]);
    PaddedWrites(s[11..13]);
    PaddedWrites(s[14..16]);
    PaddedWrites(s[17..19]);
  }

  // Every string that reads as a timestamp is the one the formatter writes for that second.
  lemma WritesBack(s: string, secs: nat)
    requires ReadUtc(s) == Some(secs)
    ensures secs < FIVE_DIGIT_YEARS
    ensures FormatUtc(secs as u64) == s
  {
    var date := Date(Number(s[0..4]), Number(s[5..7]), Number(s[8..10]));
    ShapeIsDateTime(s);
    FiveDigitYears(date);
    FormatsAs(date, Number(s[11..13]), Number(s[14..16]), Number(s[17..19]));
  }

  lemma {:induction false} DecimalBound(n: nat)
    ensures n < Pow10(|Decimal(n)|)
  {
    if n < 10 {
      assert Pow10(1) == 10;
    } else {
      DecimalBound(n / 10);
    }
  }

  // A year of the formatter has at least four digits, so it is not padded; of years with equally many
  // digits it is a field.
  lemma YearIsField(year: nat, width: nat)
    requires 1000 <= year && |Decimal(year)| == width
    ensures 4 <= width && year < Pow10(width)
    ensures Padded(year, 4) == Padded(year, width) == Field(year, width)
  {
    assert Pow10(3) == 1000;
    DecimalLength(year, 3);
    DecimalBound(year);
    FieldIsPadded(year, width);
  }

  lemma {:induction false} DecimalHasNoZero(n: nat)
    requires n > 0
    ensures Decimal(n)[0] != '0'
  {
    if n < 10 {
    } else {
      DecimalHasNoZero(n / 10);
    }
  }

  lemma LongSlices(year: string, month: string, day: string, h: string, m: string, s: string)
    requires |month| == |day| == |h| == |m| == |s| == 2
    ensures var t, n := Separated(year, month, day, h, m, s), |year|;
            && |t| == n + 16
            && t[..n] == year && t[n + 1..n + 3] == month && t[n + 4..n + 6] == day
            && t[n + 7..n + 9] == h && t[n + 10..n + 12] == m && t[n + 13..n + 15] == s
            && t[n] == t[n + 3] == '-' && t[n + 6] == 'T' && t[n + 9] == t[n + 12] == ':' && t[n + 15] == 'Z'
  {
    var t, n := Separated(year, month, day, h, m, s), |year|;
    var rest := "-" + (month + ("-" + (day + ("T" + (h + (":" + (m + (":" + (s + "Z")))))))));
    assert t == year + rest;
    assert rest[1..3] == month && rest[4..6] == day && rest[7..9] == h && rest[10..12] == m && rest[13..15] == s by {
      assert rest[7..] == h + (":" + (m + (":" + (s + "Z"))));
      assert rest[10..] == m + (":" + (s + "Z"));
      assert rest[13..] == s + "Z";
    }
    assert t[n..] == rest;
  }

  lemma SeparatedReads(year: string, month: string, day: string, h: string, m: string, s: string)
    requires |month| == |day| == |h| == |m| == |s| == 2 && |year| >= 4 && (|year| > 4 ==> year[0] != '0')
    requires AllDigits(year) && AllDigits(month) && AllDigits(day) && AllDigits(h) && AllDigits(m) && AllDigits(s)
    ensures ReadAnyYear(Separated(year, month, day, h, m, s)) == ReadFields(year, month, day, h, m, s)
  {
    LongSlices(year, month, day, h, m, s);
    var t, n := Separated(year, month, day, h, m, s), |year|;
    assert t[..n][0] == t[0];
  }

  lemma LongDateTimeReads(date: Date, h: nat, m: nat, sec: nat)
    requires ValidDate(date) && 1970 <= date.year && h < 24 && m < 60 && sec < 60
    ensures ReadAnyYear(DateTime(date, h, m, sec)) == Some(SecondNumber(date, h, m, sec))
  {
    assert Pow10(2) == 100;
    YearIsField(date.year, |Decimal(date.year)|);
    DecimalHasNoZero(date.year);
    PaddedReads(date.year, |Decimal(date.year)|);
    PaddedReads(date.month, 2);
    PaddedReads(date.day, 2);
    PaddedReads(h, 2);
    PaddedReads(m, 2);
    PaddedReads(sec, 2);
    SeparatedReads(Padded(date.year, 4), Padded(date.month, 2), Padded(date.day, 2),
                   Padded(h, 2), Padded(m, 2), Padded(sec, 2));
  }

  // Every second reads back from its timestamp, whatever its year.
  lemma ReadsBackAlways(secs: u64)
    ensures ReadAnyYear(FormatUtc(secs)) == Some(secs as nat)
  {
    var date, h, m, sec := FormattedFields(secs);
    LongDateTimeReads(date, h, m, sec);
  }

  lemma DecimalMonotone(n: nat, m: nat)
    requires n <= m
    ensures |Decimal(n)| <= |Decimal(m)|
  {
    DecimalBound(m);
    if |Decimal(n)| > |Decimal(m)| {
      FieldIsPadded(n, |Decimal(m)|);
    }
  }

  // The number that the first `width` digits of a number make.
  function Leading(n: nat, width: nat): nat
    requires width > 0
  {
    if |Decimal(n)| <= width then n else Leading(n / 10, width)
  }

  lemma {:induction false} LeadingDigits(n: nat, width: nat)
    requires 0 < width <= |Decimal(n)|
    ensures Decimal(Leading(n, width)) == Decimal(n)[..width]
  {
    if |Decimal(n)| == width {
    } else {
      LeadingDigits(n / 10, width);
      assert Decimal(n)[..width] == Decimal(n / 10)[..width];
    }
  }

  lemma {:induction false} DecimalHasDigits(n: nat)
    ensures AllDigits(Decimal(n))
  {
    if n < 10 {
    } else {
      DecimalHasDigits(n / 10);
    }
  }

  // The year, and what a date and time is written with after it.
  lemma YearThenRest(d: Date, h: nat, m: nat, s: nat) returns (rest: string)
    ensures DateTime(d, h, m, s) == Padded(d.year, 4) + ("-" + rest)
  {
    rest := Padded(d.month, 2) + ("-" + (Padded(d.day, 2) + ("T" + (Padded(h, 2) + (":" + (Padded(m, 2)
            + (":" + (Padded(s, 2) + "Z"))))))));
  }

  // Numbers of equal length compare like their digits.
  lemma DecimalOrder(n: nat, m: nat)
    requires |Decimal(n)| == |Decimal(m)|
    ensures Before(Decimal(n), Decimal(m)) <==> n < m
    ensures Decimal(n) == Decimal(m) <==> n == m
  {
    var width := |Decimal(n)|;
    DecimalBound(n);
    DecimalBound(m);
    FieldIsPadded(n, width);
    FieldIsPadded(m, width);
    FieldOrder(n, m, width);
  }

  // Of two strings that begin with numbers of different lengths, the one with the shorter number is
  // first exactly if that number is at most as large as the first digits of the other: the hyphen after
  // it comes before any digit.
  lemma ShorterYearFirst(n: nat, m: nat, x: string, y: string)
    requires |Decimal(n)| < |Decimal(m)|
    ensures var lead := Leading(m, |Decimal(n)|);
            && (Before(Decimal(n) + ("-" + x), Decimal(m) + y) <==> n <= lead)
            && (Before(Decimal(m) + y, Decimal(n) + ("-" + x)) <==> n > lead)
  {
    var width := |Decimal(n)|;
    var lead, low := Leading(m, width), Decimal(m)[width..];
    LeadingDigits(m, width);
    DecimalOrder(n, lead);
    DecimalOrder(lead, n);
    DecimalHasDigits(m);
    assert low[0] in Decimal(m) && IsDigit(low[0]);
    assert Decimal(m) + y == Decimal(lead) + (low + y);
    BeforeAppend(Decimal(n), Decimal(lead), "-" + x, low + y);
    BeforeAppend(Decimal(lead), Decimal(n), low + y, "-" + x);
  }

  lemma DateTimeOrder(d: Date, h: nat, m: nat, s: nat, d': Date, h': nat, m': nat, s': nat)
    requires ValidDate(d) && 1000 <= d.year && h < 24 && m < 60 && s < 60
    requires ValidDate(d') && 1000 <= d'.year && h' < 24 && m' < 60 && s' < 60
    requires |Decimal(d.year)| == |Decimal(d'.year)|
    ensures Before(DateTime(d, h, m, s), DateTime(d', h', m', s'))
        <==> Earlier(d, d') || (d == d' && (h < h' || (h == h' && (m < m' || (m == m' && s < s')))))
  {
    assert Pow10(2) == 100;
    var width := |Decimal(d.year)|;
    YearIsField(d.year, width);
    YearIsField(d'.year, width);
    var x6, y6 := "", "";
    var x5, y5 := Padded(s, 2) + ("Z" + x6), Padded(s', 2) + ("Z" + y6);
    var x4, y4 := Padded(m, 2) + (":" + x5), Padded(m', 2) + (":" + y5);
    var x3, y3 := Padded(h, 2) + (":" + x4), Padded(h', 2) + (":" + y4);
    var x2, y2 := Padded(d.day, 2) + ("T" + x3), Padded(d'.day, 2) + ("T" + y3);
    var x1, y1 := Padded(d.month, 2) + ("-" + x2), Padded(d'.month, 2) + ("-" + y2);
    FieldFirst(s, s', 2, "Z", x6, y6);
    FieldFirst(m, m', 2, ":", x5, y5);
    FieldFirst(h, h', 2, ":", x4, y4);
    FieldFirst(d.day, d'.day, 2, "T", x3, y3);
    FieldFirst(d.month, d'.month, 2, "-", x2, y2);
    FieldFirst(d.year, d'.year, width, "-", x1, y1);
    assert "Z" + x6 == "Z" && "Z" + y6 == "Z";
    assert DateTime(d, h, m, s) == Padded(d.year, 4) + ("-" + x1);
    assert DateTime(d', h', m', s') == Padded(d'.year, 4) + ("-" + y1);
  }

  lemma YearsGrow(a: u64, b: u64)
    requires a <= b
    ensures 1970 <= Year(a) <= Year(b)
  {
    var d, _, _, _ := FormattedFields(a);
    var d', _, _, _ := FormattedFields(b);
    if Earlier(d', d) {
      DaysToYmdMonotone(b / 86400, a / 86400);
    }
  }

  lemma FourDigits(a: u64)
    ensures a as int < FIVE_DIGIT_YEARS <==> |Decimal(Year(a))| == 4
  {
    var d, _, _, _ := FormattedFields(a);
    assert Pow10(3) == 1000 && Pow10(4) == 10000;
    DecimalLength(d.year, 3);
    if d.year < 10000 {
      FieldIsPadded(d.year, 4);
    } else {
      DecimalLength(d.year, 4);
    }
  }

  lemma YearOfDay(secs: u64, date: Date)
    requires ValidDate(date) && 1970 <= date.year
    requires 86400 * DaysFromDate(date) <= secs as nat < 86400 * DaysFromDate(date) + 86400
    ensures Year(secs) == date.year
  {
    var d, h, m, s := FormattedFields(secs);
    assert DaysFromDate(d) == DaysFromDate(date);
    DaysFromDateInjective(d, date);
  }

  // The years on both sides of the first second of the year 10000.
  lemma LastFourDigitSecond()
    ensures Year((FIVE_DIGIT_YEARS - 1) as u64) == 9999 && Year(FIVE_DIGIT_YEARS as u64) == 10000
  {
    var last, first := Date(9999, 12, 31), Date(10000, 1, 1);
    FirstFiveDigitDay();
    NextDayCounts(last);
    YearOfDay((FIVE_DIGIT_YEARS - 1) as u64, last);
    YearOfDay(FIVE_DIGIT_YEARS as u64, first);
  }

  lemma FourLeadingDigits()
    ensures |Decimal(9999)| == 4 && Leading(10000, 4) == 1000
  {
    assert Decimal(99) == "99" && Decimal(999) == "999" && Decimal(9999) == "9999";
    assert Decimal(100) == "100" && Decimal(1000) == "1000" && Decimal(10000) == "10000";
  }

  // Timestamps whose years have equally many digits sort like the seconds they stand for.
  lemma SameLengthSorts(a: u64, b: u64)
    requires |Decimal(Year(a))| == |Decimal(Year(b))|
    ensures Before(FormatUtc(a), FormatUtc(b)) <==> a < b
  {
    var d, h, m, s := FormattedFields(a);
    var d', h', m', s' := FormattedFields(b);
    DateTimeOrder(d, h, m, s, d', h', m', s');
    if Earlier(d, d') {
      DaysFromDateMonotone(d, d');
    } else if Earlier(d', d) {
      DaysFromDateMonotone(d', d);
    }
  }

  // The timestamps of two seconds are in the order of the seconds if and only if the earlier year is at
  // most as large as equally many leading digits of the later year. In the other case they are the
  // wrong way round.
  lemma SortsExactly(a: u64, b: u64)
    requires a < b
    ensures Year(a) <= Year(b) && |Decimal(Year(a))| <= |Decimal(Year(b))|
    ensures var lead := Leading(Year(b), |Decimal(Year(a))|);
            && (Before(FormatUtc(a), FormatUtc(b)) <==> Year(a) <= lead)
            && (Before(FormatUtc(b), FormatUtc(a)) <==> Year(a) > lead)
  {
    YearsGrow(a, b);
    DecimalMonotone(Year(a), Year(b));
    if |Decimal(Year(a))| == |Decimal(Year(b))| {
      SameLengthSorts(a, b);
      SameLengthSorts(b, a);
    } else {
      var d, h, m, s := FormattedFields(a);
      var d', h', m', s' := FormattedFields(b);
      var x := YearThenRest(d, h, m, s);
      var y := YearThenRest(d', h', m', s');
      YearIsField(d.year, |Decimal(d.year)|);
      YearIsField(d'.year, |Decimal(d'.year)|);
      ShorterYearFirst(d.year, d'.year, x, "-" + y);
    }
  }

  // Before the year 10000, timestamps sort like the seconds they stand for.
  lemma SortsLikeTime(a: u64, b: u64)
    requires a as int < FIVE_DIGIT_YEARS && b as int < FIVE_DIGIT_YEARS
    ensures Before(FormatUtc(a), FormatUtc(b)) <==> a < b
  {
    FourDigits(a);
    FourDigits(b);
    SameLengthSorts(a, b);
  }

  // That is the longest time for which they do: the first second of the year 10000 sorts before the
  // second before it.
  lemma SortsUntilFiveDigits(n: nat)
    ensures (forall a: u64, b: u64 :: a as nat < n && b as nat < n ==> (Before(FormatUtc(a), FormatUtc(b)) <==> a < b))
        <==> n <= FIVE_DIGIT_YEARS
  {
    if n <= FIVE_DIGIT_YEARS {
      forall a: u64, b: u64 | a as nat < n && b as nat < n
        ensures Before(FormatUtc(a), FormatUtc(b)) <==> a < b
      {
        SortsLikeTime(a, b);
      }
    } else {
      var a, b := (FIVE_DIGIT_YEARS - 1) as u64, FIVE_DIGIT_YEARS as u64;
      LastFourDigitSecond();
      FourLeadingDigits();
      SortsExactly(a, b);
      assert !Before(FormatUtc(a), FormatUtc(b));
    }
  }
}
