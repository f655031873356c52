/** Release timestamps `YYYY-MM-DDTHH:MM:SSZ` (RFC 3339, section 5.6): the feed
    compares them as strings and means instants. */
module Timestamps {
  import opened Text
  import opened Order

  datatype Moment = Moment(year: int, month: int, day: int, hour: int, minute: int, second: int)

  // ---- Instants by counting days in the Gregorian calendar ----

  predicate IsLeap(y: int) {
    y % 4 == 0 && (y % 100 != 0 || y % 400 == 0)
  }

  function YearLength(y: int): int {
    if IsLeap(y) then 366 else 365
  }

  function MonthLength(y: int, m: int): int
    requires 1 <= m <= 12
  {
    if m == 2 then (if IsLeap(y) then 29 else 28) else if m == 4 || m == 6 || m == 9 || m == 11 then 30 else 31
  }

  /** Days from the first of January of year 1 to the first of January of year `y`. */
  function YearStart(y: int): int
    requires y >= 1
  {
    if y == 1 then 0 else YearStart(y - 1) + YearLength(y - 1)
  }

  function MonthStart(y: int, m: int): int
    requires 1 <= m <= 12
  {
    if m == 1 then 0 else MonthStart(y, m - 1) + MonthLength(y, m - 1)
  }

  predicate Valid(t: Moment) {
    && 1 <= t.year <= 9999 && 1 <= t.month <= 12 && 1 <= t.day <= MonthLength(t.year, t.month)
    && 0 <= t.hour < 24 && 0 <= t.minute < 60 && 0 <= t.second < 60
  }

  function Day(t: Moment): int
    requires Valid(t)
  {
    YearStart(t.year) + MonthStart(t.year, t.month) + t.day - 1
  }

  function Seconds(t: Moment): int
    requires Valid(t)
  {
    ((Day(t) * 24 + t.hour) * 60 + t.minute) * 60 + t.second
  }

  lemma Div4(k: int)
    ensures k / 4 == (k - 1) / 4 + (if k % 4 == 0 then 1 else 0)
  {
  }

  lemma Div100(k: int)
    ensures k / 100 == (k - 1) / 100 + (if k % 100 == 0 then 1 else 0)
    ensures k % 100 == 0 ==> k % 4 == 0
  {
    if k % 100 == 0 {
      assert k == (k / 100 * 25) * 4;
    }
  }

  lemma Div400(k: int)
    ensures k / 400 == (k - 1) / 400 + (if k % 400 == 0 then 1 else 0)
    ensures k % 400 == 0 ==> k % 100 == 0
  {
    if k % 400 == 0 {
      assert k == (k / 400 * 4) * 100;
    }
  }

  lemma LeapStep(k: int)
    requires k >= 1
    ensures k / 4 - k / 100 + k / 400 == (k - 1) / 4 - (k - 1) / 100 + (k - 1) / 400 + (if IsLeap(k) then 1 else 0)
  {
    Div4(k);
    Div100(k);
    Div400(k);
  }

  /** The day count agrees with the closed form of `date.toordinal`. */
  lemma {:induction false} YearStartClosedForm(y: int)
    requires y >= 1
    ensures YearStart(y) == 365 * (y - 1) + (y - 1) / 4 - (y - 1) / 100 + (y - 1) / 400
  {
    if y > 1 {
      YearStartClosedForm(y - 1);
      LeapStep(y - 1);
    }
  }

  lemma {:induction false} YearsAreOrdered(a: int, b: int)
    requires 1 <= a < b
    ensures YearStart(a) + YearLength(a) <= YearStart(b)
    decreases b
  {
    if a < b - 1 {
      YearsAreOrdered(a, b - 1);
    }
  }

  lemma {:induction false} MonthsAreOrdered(y: int, a: int, b: int)
    requires 1 <= a < b <= 12
    ensures MonthStart(y, a) + MonthLength(y, a) <= MonthStart(y, b)
    decreases b
  {
    if a < b - 1 {
      MonthsAreOrdered(y, a, b - 1);
    }
  }

  lemma {:induction false} MonthStartNonNegative(y: int, m: int)
    requires 1 <= m <= 12
    ensures MonthStart(y, m) >= 0
  {
    if m > 1 {
      MonthStartNonNegative(y, m - 1);
    }
  }

  lemma DecemberStart(y: int)
    ensures MonthStart(y, 12) + 31 == YearLength(y)
  {
    var february := MonthLength(y, 2);
    assert MonthStart(y, 2) == 31 && MonthStart(y, 3) == 31 + february;
    assert MonthStart(y, 4) == 62 + february;
    assert MonthStart(y, 5) == 92 + february;
    assert MonthStart(y, 6) == 123 + february;
    assert MonthStart(y, 7) == 153 + february;
    assert MonthStart(y, 8) == 184 + february;
    assert MonthStart(y, 9) == 215 + february;
    assert MonthStart(y, 10) == 245 + february;
    assert MonthStart(y, 11) == 276 + february;
  }

  lemma DayWithinYear(t: Moment)
    requires Valid(t)
    ensures 0 <= MonthStart(t.year, t.month) + t.day - 1 < YearLength(t.year)
  {
    var y := t.year;
    MonthStartNonNegative(y, t.month);
    if t.month < 12 {
      MonthsAreOrdered(y, t.month, 12);
    }
    DecemberStart(y);
  }

  ghost predicate DateLess(a: Moment, b: Moment) {
    a.year < b.year || (a.year == b.year && (a.month < b.month || (a.month == b.month && a.day < b.day)))
  }

  ghost predicate FieldsLess(a: Moment, b: Moment) {
    || DateLess(a, b)
    || (a.year == b.year && a.month == b.month && a.day == b.day
        && (a.hour < b.hour || (a.hour == b.hour
            && (a.minute < b.minute || (a.minute == b.minute && a.second < b.second)))))
  }

  lemma DaysAreOrdered(a: Moment, b: Moment)
    requires Valid(a) && Valid(b) && DateLess(a, b)
    ensures Day(a) < Day(b)
  {
    if a.year < b.year {
      YearsAreOrdered(a.year, b.year);
      DayWithinYear(a);
      DayWithinYear(b);
    } else if a.month < b.month {
      MonthsAreOrdered(a.year, a.month, b.month);
    }
  }

  /** Comparing field by field is comparing instants. */
  lemma FieldsOrderInstants(a: Moment, b: Moment)
    requires Valid(a) && Valid(b)
    ensures FieldsLess(a, b) <==> Seconds(a) < Seconds(b)
  {
    if DateLess(a, b) {
      DaysAreOrdered(a, b);
    } else if DateLess(b, a) {
      DaysAreOrdered(b, a);
    }
  }

  // ---- The clock ----

  /** One second later, like an odometer. */
  function Next(t: Moment): Moment
    requires Valid(t)
  {
    if t.second != 59 then t.(second := t.second + 1)
    else if t.minute != 59 then t.(second := 0, minute := t.minute + 1)
    else if t.hour != 23 then t.(second := 0, minute := 0, hour := t.hour + 1)
    else if t.day != MonthLength(t.year, t.month) then t.(second := 0, minute := 0, hour := 0, day := t.day + 1)
    else if t.month != 12 then t.(second := 0, minute := 0, hour := 0, day := 1, month := t.month + 1)
    else Moment(t.year + 1, 1, 1, 0, 0, 0)
  }

  const LastMoment: Moment := Moment(9999, 12, 31, 23, 59, 59)

  /** The moments are those on the clock, from the first of year 1 to the last of year 9999,
      and each is one second after the one before it. */
  lemma NextSecond(t: Moment)
    requires Valid(t) && t != LastMoment
    ensures Valid(Next(t)) && Seconds(Next(t)) == Seconds(t) + 1
  {
    var y, m := t.year, t.month;
    if m < 12 {
      assert MonthStart(y, m + 1) == MonthStart(y, m) + MonthLength(y, m);
    }
    DecemberStart(y);
    assert YearStart(y + 1) == YearStart(y) + YearLength(y);
  }

  lemma Starts(y: int)
    requires y >= 1
    ensures YearStart(1) == 0 && MonthStart(y, 1) == 0 && MonthLength(y, 1) == 31 && MonthLength(y, 12) == 31
  {
  }

  lemma FirstAndLast(first: Moment)
    requires first == Moment(1, 1, 1, 0, 0, 0)
    ensures Valid(first) && Seconds(first) == 0
    ensures Valid(LastMoment)
  {
    Starts(1);
    Starts(9999);
    hide YearStart, MonthStart, MonthLength;
  }

  /** The Unix epoch. */
  lemma UnixEpoch(t: Moment)
    requires t == Moment(1970, 1, 1, 0, 0, 0)
    ensures Valid(t) && Seconds(t) == 719_162 * 24 * 60 * 60
  {
    YearStartClosedForm(1970);
    Starts(1970);
    hide YearStart, MonthStart, MonthLength;
  }

  // ---- Decimal fields ----

  lemma OneCharacter(x: char, y: char)
    ensures Before([x], [y]) <==> x < y
  {
    var a, b := Codes([x]), Codes([y]);
    assert a == [x as int] && b == [y as int];
    assert a[1..] == [] && b[1..] == [] && !LexLess(a[1..], b[1..]);
  }

  /** Digit strings of one width are ordered like the numbers they write. */
  lemma {:induction false} DigitsOrderNumbers(a: string, b: string)
    requires |a| == |b| && AllDigits(a) && AllDigits(b)
    ensures Before(a, b) <==> Number(a) < Number(b)
    ensures a == b <==> Number(a) == Number(b)
  {
    if a != "" {
      var n := |a| - 1;
      var x, y := a[n..], b[n..];
      DigitsOrderNumbers(a[..n], b[..n]);
      assert a == a[..n] + x && b == b[..n] + y;
      BeforeOfConcat(a[..n], x, b[..n], y);
      assert x == [a[n]] && y == [b[n]];
      OneCharacter(a[n], b[n]);
      assert IsDigit(a[n]) && IsDigit(b[n]);
    }
  }

  // ---- The format ----

  predicate Shape(s: string) {
    && |s| == 20 && s[4] == '-' && s[7] == '-' && s[10] == 'T' && s[13] == ':' && s[16] == ':' && s[19] == 'Z'
    && AllDigits(s[0..4]) && AllDigits(s[5..7]) && AllDigits(s[8..10])
    && AllDigits(s[11..13]) && AllDigits(s[14..16]) && AllDigits(s[17..19])
  }

  function Parse(s: string): Option<Moment> {
    if !Shape(s) then None
    else
      var t := Moment(Number(s[0..4]), Number(s[5..7]), Number(s[8..10]),
                      Number(s[11..13]), Number(s[14..16]), Number(s[17..19]));
      if Valid(t) then Some(t) else None
  }

  /** One field and the separator behind it, then the rest. */
  lemma FieldFirst(a: string, b: string, w: nat)
    requires |a| == |b| && w < |a| && a[w] == b[w]
    requires AllDigits(a[..w]) && AllDigits(b[..w])
    ensures Before(a, b) <==> Number(a[..w]) < Number(b[..w])
                              || (Number(a[..w]) == Number(b[..w]) && Before(a[w + 1..], b[w + 1..]))
  {
    hide Before, Number, AllDigits;
    DigitsOrderNumbers(a[..w], b[..w]);
    assert a == a[..w] + a[w..] && b == b[..w] + b[w..];
    BeforeOfConcat(a[..w], a[w..], b[..w], b[w..]);
    var c := [a[w]];
    assert a[w..] == c + a[w + 1..] && b[w..] == c + b[w + 1..];
    BeforeOfConcat(c, a[w + 1..], c, b[w + 1..]);
    BeforeIsOrder(c, c, c);
  }

  lemma NextField(a: string, b: string, i: nat, j: nat)
    requires |a| == |b| && i <= j < |a| && a[j] == b[j]
    requires AllDigits(a[i..j]) && AllDigits(b[i..j])
    ensures Before(a[i..], b[i..]) <==> Number(a[i..j]) < Number(b[i..j])
                                        || (Number(a[i..j]) == Number(b[i..j]) && Before(a[j + 1..], b[j + 1..]))
  {
    var x, y, w := a[i..], b[i..], j - i;
    assert x[..w] == a[i..j] && y[..w] == b[i..j] && x[w + 1..] == a[j + 1..] && y[w + 1..] == b[j + 1..];
    FieldFirst(x, y, w);
  }

  lemma ShapeOrdersFields(a: string, b: string)
    requires Shape(a) && Shape(b)
    ensures Before(a, b) <==>
      || Number(a[0..4]) < Number(b[0..4]) || (Number(a[0..4]) == Number(b[0..4])
      && (Number(a[5..7]) < Number(b[5..7]) || (Number(a[5..7]) == Number(b[5..7])
      && (Number(a[8..10]) < Number(b[8..10]) || (Number(a[8..10]) == Number(b[8..10])
      && (Number(a[11..13]) < Number(b[11..13]) || (Number(a[11..13]) == Number(b[11..13])
      && (Number(a[14..16]) < Number(b[14..16]) || (Number(a[14..16]) == Number(b[14..16])
      && Number(a[17..19]) < Number(b[17..19]))))))))))
  {
    hide Before, Number, AllDigits, IsDigit;
    NextField(a, b, 0, 4);
    NextField(a, b, 5, 7);
    NextField(a, b, 8, 10);
    NextField(a, b, 11, 13);
    NextField(a, b, 14, 16);
    NextField(a, b, 17, 19);
    assert a[0..] == a && b[0..] == b && a[20..] == "" && b[20..] == "";
    BeforeIsOrder("", "", "");
  }

  /** Raw string comparison of timestamps is chronological. */
  lemma StringOrderIsChronological(a: string, b: string)
    requires Parse(a).Some? && Parse(b).Some?
    ensures Before(a, b) <==> Seconds(Parse(a).value) < Seconds(Parse(b).value)
    ensures Seconds(Parse(a).value) == Seconds(Parse(b).value) <==> a == b
  {
    ShapeOrdersFields(a, b);
    ShapeOrdersFields(b, a);
    FieldsOrderInstants(Parse(a).value, Parse(b).value);
    FieldsOrderInstants(Parse(b).value, Parse(a).value);
    BeforeIsOrder(a, b, b);
  }

  // ---- Writing ----

  /** The last `width` decimal digits of a number. */
  function Pad(n: nat, width: nat): (s: string)
    ensures |s| == width
  {
    if width == 0 then "" else Pad(n / 10, width - 1) + [('0' as int + n % 10) as char]
  }

  function Power(width: nat): nat {
    if width == 0 then 1 else 10 * Power(width - 1)
  }

  lemma {:induction false} PadIsRead(n: nat, width: nat)
    requires n < Power(width)
    ensures AllDigits(Pad(n, width)) && Number(Pad(n, width)) == n
  {
    if width > 0 {
      PadIsRead(n / 10, width - 1);
      var s := Pad(n, width);
      assert s[..width - 1] == Pad(n / 10, width - 1);
    }
  }

  /** A moment in the format of the releases. */
  function Print(t: Moment): string
    requires Valid(t)
  {
    Pad(t.year, 4) + "-" + Pad(t.month, 2) + "-" + Pad(t.day, 2) + "T"
    + Pad(t.hour, 2) + ":" + Pad(t.minute, 2) + ":" + Pad(t.second, 2) + "Z"
  }

  lemma Powers()
    ensures Power(2) == 100 && Power(4) == 10_000
  {
    assert Power(1) == 10 && Power(3) == 1000;
  }

  /** The fields of a text in the format. */
  lemma FieldsOf(y: string, m: string, d: string, hh: string, mm: string, ss: string)
    requires |y| == 4 && |m| == 2 && |d| == 2 && |hh| == 2 && |mm| == 2 && |ss| == 2
    ensures var s := y + "-" + m + "-" + d + "T" + hh + ":" + mm + ":" + ss + "Z";
            && |s| == 20 && s[0..4] == y && s[5..7] == m && s[8..10] == d
            && s[11..13] == hh && s[14..16] == mm && s[17..19] == ss
            && s[4] == '-' && s[7] == '-' && s[10] == 'T' && s[13] == ':' && s[16] == ':' && s[19] == 'Z'
  {
  }

  /** Every moment on the clock is read back from its text. */
  lemma ParseOfPrint(t: Moment)
    requires Valid(t)
    ensures Parse(Print(t)) == Some(t)
  {
    Powers();
    assert MonthLength(t.year, t.month) < 100;
    PadIsRead(t.year, 4);
    PadIsRead(t.month, 2);
    PadIsRead(t.day, 2);
    PadIsRead(t.hour, 2);
    PadIsRead(t.minute, 2);
    PadIsRead(t.second, 2);
    hide Pad, Power, AllDigits, Number, MonthLength;
    FieldsOf(Pad(t.year, 4), Pad(t.month, 2), Pad(t.day, 2), Pad(t.hour, 2), Pad(t.minute, 2), Pad(t.second, 2));
  }
}
