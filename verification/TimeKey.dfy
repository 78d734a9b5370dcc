/** The sortable time text at the head of every started-at index key.

    An instant is a number of nanoseconds since 0000-01-01T00:00:00Z in the
    proleptic Gregorian calendar; negative instants lie before that year. */
module TimeKey {
  import opened Lex

  const SECOND := 1_000_000_000
  const MINUTE := 60 * SECOND
  const HOUR := 60 * MINUTE
  const DAY := 24 * HOUR
  /** Length of the layout 20060102T150405.000000000Z. */
  const LAYOUT := 26

  // ---------------------------------------------------------------- decimal

  function Pow10(w: nat): (p: nat)
    ensures p >= 1
  {
    if w == 0 then 1 else 10 * Pow10(w - 1)
  }

  function Digit(d: nat): char
    requires d < 10
  {
    ('0' as int + d) as char
  }

  /** `n` in decimal, padded with zeros to `w` digits. */
  function Pad(n: nat, w: nat): (s: string)
    requires n < Pow10(w)
    ensures |s| == w
  {
    if w == 0 then "" else Pad(n / 10, w - 1) + [Digit(n % 10)]
  }

  predicate AllDigits(s: string) {
    forall i :: 0 <= i < |s| ==> '0' <= s[i] <= '9'
  }

  /** The number a digit string denotes. */
  function Number(s: string): nat
    requires AllDigits(s)
  {
    if s == "" then 0 else 10 * Number(s[..|s| - 1]) + (s[|s| - 1] as int - '0' as int)
  }

  lemma {:induction false} NumberPad(n: nat, w: nat)
    requires n < Pow10(w)
    ensures AllDigits(Pad(n, w)) && Number(Pad(n, w)) == n
  {
    if w > 0 {
      NumberPad(n / 10, w - 1);
      assert Pad(n, w)[..w - 1] == Pad(n / 10, w - 1);
    }
  }

  lemma DigitOrder(d: nat, e: nat)
    requires d < 10 && e < 10
    ensures Less([Digit(d)], [Digit(e)]) <==> d < e
  {
  }

  lemma TensOrder(a: nat, d: nat, b: nat, e: nat)
    requires d < 10 && e < 10
    ensures 10 * a + d < 10 * b + e <==> a < b || (a == b && d < e)
  {
  }

  /** The last digit of a padded number, and the number before it. */
  lemma PadLast(n: nat, w: nat) returns (a: nat, d: nat)
    requires w > 0 && n < Pow10(w)
    ensures n == 10 * a + d && d < 10 && a < Pow10(w - 1)
    ensures Pad(n, w) == Pad(a, w - 1) + [Digit(d)]
  {
    a, d := n / 10, n % 10;
  }

  lemma PadSame(n: nat, m: nat, w: nat)
    requires n < Pow10(w) && m < Pow10(w) && Pad(n, w) == Pad(m, w)
    ensures n == m
  {
    NumberPad(n, w);
    NumberPad(m, w);
  }

  lemma {:induction false} PadOrder(n: nat, m: nat, w: nat)
    requires n < Pow10(w) && m < Pow10(w)
    ensures Less(Pad(n, w), Pad(m, w)) <==> n < m
  {
    if w > 0 {
      var a, d := PadLast(n, w);
      var b, e := PadLast(m, w);
      PadOrder(a, b, w - 1);
      if Pad(a, w - 1) == Pad(b, w - 1) { PadSame(a, b, w - 1); }
      Concat(Pad(a, w - 1), [Digit(d)], Pad(b, w - 1), [Digit(e)]);
      DigitOrder(d, e);
      TensOrder(a, d, b, e);
    }
  }

  /** A fixed-width field decides the order before anything after it. */
  lemma FieldOrder(n: nat, m: nat, w: nat, x: string, y: string)
    requires n < Pow10(w) && m < Pow10(w)
    ensures Less(Pad(n, w) + x, Pad(m, w) + y) <==> n < m || (n == m && Less(x, y))
  {
    PadOrder(n, m, w);
    NumberPad(n, w);
    NumberPad(m, w);
    Concat(Pad(n, w), x, Pad(m, w), y);
  }

  lemma Widths()
    ensures Pow10(2) == 100 && Pow10(4) == 10_000 && Pow10(9) == SECOND
  {
    assert Pow10(3) == 1000;
    assert Pow10(5) == 100_000;
    assert Pow10(7) == 10_000_000;
  }

  // --------------------------------------------------------------- calendar

  predicate Leap(y: nat) {
    y % 4 == 0 && (y % 100 != 0 || y % 400 == 0)
  }

  function MonthLength(y: nat, m: nat): (n: nat)
    requires 1 <= m <= 12
    ensures 28 <= n <= 31
  {
    if m == 2 then if Leap(y) then 29 else 28
    else if m == 4 || m == 6 || m == 9 || m == 11 then 30 else 31
  }

  /** Days of year `y` before month `m`; month 13 gives the whole year. */
  function MonthStart(y: nat, m: nat): (n: nat)
    requires 1 <= m <= 13
    ensures n >= 28 * (m - 1)
  {
    if m == 1 then 0 else MonthStart(y, m - 1) + MonthLength(y, m - 1)
  }

  /** Days from 0000-01-01 to the first of January of year `y`. */
  function YearStart(y: nat): nat {
    if y == 0 then 0 else YearStart(y - 1) + MonthStart(y - 1, 13)
  }

  function YearOf(days: nat, from: nat): (y: nat)
    requires YearStart(from) <= days
    ensures YearStart(y) <= days < YearStart(y + 1)
    decreases days - YearStart(from)
  {
    if days < YearStart(from + 1) then from else YearOf(days, from + 1)
  }

  function MonthOf(y: nat, doy: nat, from: nat): (m: nat)
    requires 1 <= from <= 12 && MonthStart(y, from) <= doy < MonthStart(y, 13)
    ensures 1 <= m <= 12 && MonthStart(y, m) <= doy < MonthStart(y, m + 1)
    decreases 12 - from
  {
    if from == 12 || doy < MonthStart(y, from + 1) then from else MonthOf(y, doy, from + 1)
  }

  lemma {:induction false} YearStartGrows(y: nat, z: nat)
    requires y < z
    ensures YearStart(y + 1) <= YearStart(z)
  {
    if y + 1 < z { YearStartGrows(y, z - 1); }
  }

  lemma {:induction false} MonthStartGrows(y: nat, m: nat, n: nat)
    requires 1 <= m < n <= 13
    ensures MonthStart(y, m + 1) <= MonthStart(y, n)
  {
    if m + 1 < n { MonthStartGrows(y, m, n - 1); }
  }

  /** UTC calendar and clock fields of an instant. */
  datatype Civil = Civil(year: nat, month: nat, day: nat, hour: nat, minute: nat, second: nat, nano: nat) {

    predicate Valid() {
      && 1 <= month <= 12 && 1 <= day <= MonthLength(year, month)
      && hour < 24 && minute < 60 && second < 60 && nano < SECOND
    }

    function Days(): int
      requires 1 <= month <= 12
    {
      YearStart(year) + MonthStart(year, month) + day - 1
    }

    function Clock(): nat {
      hour * HOUR + minute * MINUTE + second * SECOND + nano
    }

    function Instant(): int
      requires 1 <= month <= 12
    {
      Days() * DAY + Clock()
    }

    /** Field by field, the most significant first. */
    predicate DateBefore(o: Civil) {
      year < o.year || (year == o.year && (month < o.month || (month == o.month && day < o.day)))
    }

    predicate ClockBefore(o: Civil) {
      hour < o.hour || (hour == o.hour && (minute < o.minute || (minute == o.minute &&
      (second < o.second || (second == o.second && nano < o.nano)))))
    }

    predicate Before(o: Civil) {
      DateBefore(o) || (year == o.year && month == o.month && day == o.day && ClockBefore(o))
    }
  }

  /** Days in the years 0000 to 9999. */
  const DAYS := 3_652_425

  /** Years 0000 to 9999: what the layout can hold, and what JSON can store. */
  predicate InRange(t: int) {
    0 <= t < DAYS * DAY
  }

  /** Leap years before year `y`, by the Gregorian rule. */
  function LeapsBefore(y: nat): int {
    (y + 3) / 4 - (y + 99) / 100 + (y + 399) / 400
  }

  function LeapCount(y: nat): nat {
    if y == 0 then 0 else LeapCount(y - 1) + (if Leap(y - 1) then 1 else 0)
  }

  lemma YearStartNext(y: nat)
    ensures YearStart(y + 1) == YearStart(y) + 365 + (if Leap(y) then 1 else 0)
  {
    MonthsFillYear(y);
  }

  lemma {:induction false} YearStartCounts(y: nat)
    ensures YearStart(y) == 365 * y + LeapCount(y)
  {
    if y > 0 {
      YearStartCounts(y - 1);
      YearStartNext(y - 1);
    }
  }

  lemma {:induction false} LeapCountIs(y: nat)
    ensures LeapCount(y) == LeapsBefore(y)
  {
    if y > 0 {
      LeapCountIs(y - 1);
      LeapsNext(y - 1);
    }
  }

  lemma LeapsNext(y: nat)
    ensures LeapsBefore(y + 1) == LeapsBefore(y) + (if Leap(y) then 1 else 0)
  {
    Carry4(y);
    Carry100(y);
    Carry400(y);
    Nested(y);
  }

  lemma Carry4(y: nat)
    ensures (y + 4) / 4 == (y + 3) / 4 + (if y % 4 == 0 then 1 else 0)
  {
  }

  lemma Carry100(y: nat)
    ensures (y + 100) / 100 == (y + 99) / 100 + (if y % 100 == 0 then 1 else 0)
  {
  }

  lemma Carry400(y: nat)
    ensures (y + 400) / 400 == (y + 399) / 400 + (if y % 400 == 0 then 1 else 0)
  {
    var q, r := y / 400, y % 400;
    assert y == 400 * q + r;
    if r == 0 { Between400(y + 399, q); } else { Between400(y + 399, q + 1); }
    Between400(y + 400, q + 1);
  }

  lemma Between400(x: nat, q: nat)
    requires 400 * q <= x < 400 * q + 400
    ensures x / 400 == q
  {
  }

  /** Centuries are multiples of four, and their fourths are centuries. */
  lemma Nested(y: nat)
    ensures y % 400 == 0 ==> y % 100 == 0
    ensures y % 100 == 0 ==> y % 4 == 0
  {
    if y % 400 == 0 { assert y == 100 * (4 * (y / 400)); }
    if y % 100 == 0 { assert y == 4 * (25 * (y / 100)); }
  }

  lemma MonthsFillYear(y: nat)
    ensures MonthStart(y, 13) == 365 + (if Leap(y) then 1 else 0)
  {
    MonthsAre(y);
  }

  function Clockwork(x: nat): (f: (nat, nat, nat, nat))
    requires x < DAY
    ensures x == f.0 * HOUR + f.1 * MINUTE + f.2 * SECOND + f.3
    ensures f.0 < 24 && f.1 < 60 && f.2 < 60 && f.3 < SECOND
  {
    var h := x / HOUR;
    var r := x - h * HOUR;
    var m := r / MINUTE;
    var q := r - m * MINUTE;
    var s := q / SECOND;
    (h, m, s, q - s * SECOND)
  }

  /** Year, month and day of a day number. */
  function DateOf(days: nat): (date: (nat, nat, nat))
    ensures 1 <= date.1 <= 12 && 1 <= date.2 <= MonthLength(date.0, date.1)
    ensures YearStart(date.0) + MonthStart(date.0, date.1) + date.2 - 1 == days
  {
    var y := YearOf(days, 0);
    var m := MonthOf(y, days - YearStart(y), 1);
    (y, m, days - YearStart(y) - MonthStart(y, m) + 1)
  }

  lemma SplitDay(t: nat)
    ensures 0 <= t % DAY < DAY && t == t / DAY * DAY + t % DAY
  {
  }

  function CivilOf(t: int): (c: Civil)
    requires 0 <= t
    ensures c.Valid() && c.Instant() == t
  {
    SplitDay(t);
    var (y, m, d) := DateOf(t / DAY);
    var (h, mi, s, n) := Clockwork(t % DAY);
    Civil(y, m, d, h, mi, s, n)
  }

  lemma DateOrder(a: Civil, b: Civil)
    requires a.Valid() && b.Valid()
    ensures a.Days() < b.Days() <==> a.DateBefore(b)
    ensures a.Days() == b.Days() ==> a.year == b.year && a.month == b.month && a.day == b.day
  {
    DaysWithinYear(a);
    DaysWithinYear(b);
    if a.year < b.year { YearStartGrows(a.year, b.year); }
    else if b.year < a.year { YearStartGrows(b.year, a.year); }
    else if a.month < b.month { MonthStartGrows(a.year, a.month, b.month); }
    else if b.month < a.month { MonthStartGrows(a.year, b.month, a.month); }
  }

  lemma DaysWithinYear(c: Civil)
    requires c.Valid()
    ensures YearStart(c.year) <= c.Days() < YearStart(c.year + 1)
    ensures c.Days() < YearStart(c.year) + MonthStart(c.year, c.month + 1)
  {
    if c.month < 12 { MonthStartGrows(c.year, c.month, 13); }
  }

  lemma ClockFits(c: Civil)
    requires c.Valid()
    ensures c.Clock() < DAY
  {
  }

  lemma ClockOrder(a: Civil, b: Civil)
    requires a.Valid() && b.Valid()
    ensures a.Clock() < b.Clock() <==> a.ClockBefore(b)
  {
    if a.hour == b.hour {
      if a.minute == b.minute { assert a.second < b.second ==> a.second * SECOND + a.nano < b.second * SECOND; }
    }
  }

  lemma Radix(d: int, x: int, e: int, y: int)
    requires 0 <= x < DAY && 0 <= y < DAY
    ensures d * DAY + x < e * DAY + y <==> d < e || (d == e && x < y)
  {
  }

  lemma InstantOrder(a: Civil, b: Civil)
    requires a.Valid() && b.Valid()
    ensures a.Instant() < b.Instant() <==> a.Before(b)
  {
    DateOrder(a, b);
    ClockOrder(a, b);
    ClockFits(a);
    ClockFits(b);
    Radix(a.Days(), a.Clock(), b.Days(), b.Clock());
  }

  lemma LastYear(y: nat)
    requires y >= 10_000
    ensures YearStart(y) >= DAYS
  {
    YearStartCounts(y);
    LeapCountIs(y);
    assert (y + 3) / 4 - (y + 99) / 100 >= 2400 && (y + 399) / 400 >= 25;
  }

  lemma YearInRange(c: Civil)
    requires c.Valid() && InRange(c.Instant())
    ensures c.year < 10_000
  {
    DaysWithinYear(c);
    ClockFits(c);
    Radix(c.Days(), c.Clock(), DAYS, 0);
    if c.year >= 10_000 { LastYear(c.year); }
  }

  // ------------------------------------------------------------------- text

  predicate Fits(c: Civil) {
    && c.year < Pow10(4) && c.month < Pow10(2) && c.day < Pow10(2)
    && c.hour < Pow10(2) && c.minute < Pow10(2) && c.second < Pow10(2) && c.nano < Pow10(9)
  }

  function SecondText(c: Civil): (s: string)
    requires Fits(c)
    ensures |s| == 13
  {
    Pad(c.second, 2) + ("." + (Pad(c.nano, 9) + "Z"))
  }

  function ClockText(c: Civil): (s: string)
    requires Fits(c)
    ensures |s| == 18
  {
    "T" + (Pad(c.hour, 2) + (Pad(c.minute, 2) + SecondText(c)))
  }

  /** The fields in the layout 20060102T150405.000000000Z. */
  function CivilText(c: Civil): (s: string)
    requires Fits(c)
    ensures |s| == LAYOUT
  {
    Pad(c.year, 4) + (Pad(c.month, 2) + (Pad(c.day, 2) + ClockText(c)))
  }

  lemma RangeFits(t: int)
    requires InRange(t)
    ensures Fits(CivilOf(t))
  {
    Widths();
    YearInRange(CivilOf(t));
  }

  /** `t.UTC().Format(runStartedAtIndexTimeLayout)`, character by character. */
  function TimeText(t: int): (s: string)
    requires InRange(t)
    ensures |s| == LAYOUT
  {
    seq(LAYOUT, i requires 0 <= i < LAYOUT => RangeFits(t); CivilText(CivilOf(t))[i])
  }

  lemma TimeTextIs(t: int)
    requires InRange(t)
    ensures Fits(CivilOf(t)) && TimeText(t) == CivilText(CivilOf(t))
  {
    RangeFits(t);
  }

  lemma ClockTextOrder(a: Civil, b: Civil)
    requires Fits(a) && Fits(b)
    ensures Less(ClockText(a), ClockText(b)) <==> a.ClockBefore(b)
  {
    var x, y := Pad(a.nano, 9) + "Z", Pad(b.nano, 9) + "Z";
    FieldOrder(a.nano, b.nano, 9, "Z", "Z");
    Concat(".", x, ".", y);
    FieldOrder(a.second, b.second, 2, "." + x, "." + y);
    FieldOrder(a.minute, b.minute, 2, SecondText(a), SecondText(b));
    var u, v := Pad(a.minute, 2) + SecondText(a), Pad(b.minute, 2) + SecondText(b);
    FieldOrder(a.hour, b.hour, 2, u, v);
    Concat("T", Pad(a.hour, 2) + u, "T", Pad(b.hour, 2) + v);
    Irreflexive("Z");
    Irreflexive(".");
    Irreflexive("T");
  }

  lemma CivilTextOrder(a: Civil, b: Civil)
    requires Fits(a) && Fits(b)
    ensures Less(CivilText(a), CivilText(b)) <==> a.Before(b)
  {
    ClockTextOrder(a, b);
    FieldOrder(a.day, b.day, 2, ClockText(a), ClockText(b));
    var x, y := Pad(a.day, 2) + ClockText(a), Pad(b.day, 2) + ClockText(b);
    FieldOrder(a.month, b.month, 2, x, y);
    FieldOrder(a.year, b.year, 4, Pad(a.month, 2) + x, Pad(b.month, 2) + y);
  }

  /** Byte order of the texts is time order. */
  lemma TimeOrder(t: int, u: int)
    requires InRange(t) && InRange(u)
    ensures Less(TimeText(t), TimeText(u)) <==> t < u
  {
    TimeTextIs(t);
    TimeTextIs(u);
    CivilTextOrder(CivilOf(t), CivilOf(u));
    InstantOrder(CivilOf(t), CivilOf(u));
  }

  // ---------------------------------------------------------------- parsing

  /** `time.Parse(runStartedAtIndexTimeLayout, s)`: digits and literals in
      place, every field in its calendar range. */
  function ParseTime(s: string): Option<int> {
    if |s| != LAYOUT || s[8] != 'T' || s[15] != '.' || s[25] != 'Z' then None
    else if !AllDigits(s[..4]) || !AllDigits(s[4..6]) || !AllDigits(s[6..8]) then None
    else if !AllDigits(s[9..11]) || !AllDigits(s[11..13]) || !AllDigits(s[13..15]) || !AllDigits(s[16..25]) then None
    else
      var c := Civil(Number(s[..4]), Number(s[4..6]), Number(s[6..8]),
                     Number(s[9..11]), Number(s[11..13]), Number(s[13..15]), Number(s[16..25]));
      if c.Valid() then Some(c.Instant()) else None
  }

  lemma CivilTextSlices(c: Civil)
    requires Fits(c)
    ensures var s := CivilText(c);
      && s[..4] == Pad(c.year, 4) && s[4..6] == Pad(c.month, 2) && s[6..8] == Pad(c.day, 2)
      && s[9..11] == Pad(c.hour, 2) && s[11..13] == Pad(c.minute, 2) && s[13..15] == Pad(c.second, 2)
      && s[16..25] == Pad(c.nano, 9) && s[8] == 'T' && s[15] == '.' && s[25] == 'Z'
  {
    var s, k, e := CivilText(c), ClockText(c), SecondText(c);
    assert s[8..] == k;
    assert k[5..] == e;
    assert s[13..] == e;
    assert s[13..15] == e[..2] && s[16..25] == e[3..12] && s[15] == e[2] && s[25] == e[12];
    assert s[9..11] == k[1..3] && s[11..13] == k[3..5] && s[8] == k[0];
  }

  /** Parsing the text gives back the instant, to the nanosecond. */
  lemma ParseTimeText(t: int)
    requires InRange(t)
    ensures ParseTime(TimeText(t)) == Some(t)
  {
    var c := CivilOf(t);
    TimeTextIs(t);
    CivilTextSlices(c);
    NumberPad(c.year, 4);
    NumberPad(c.month, 2);
    NumberPad(c.day, 2);
    NumberPad(c.hour, 2);
    NumberPad(c.minute, 2);
    NumberPad(c.second, 2);
    NumberPad(c.nano, 9);
  }

  lemma SameInstant(c: Civil, d: Civil)
    requires c.Valid() && d.Valid() && c.Instant() == d.Instant()
    ensures c == d
  {
    InstantOrder(c, d);
    InstantOrder(d, c);
  }

  /** The text of an instant is the text of its calendar and clock fields. */
  lemma TextOfCivil(c: Civil)
    requires c.Valid() && InRange(c.Instant())
    ensures Fits(c) && TimeText(c.Instant()) == CivilText(c)
  {
    SameInstant(c, CivilOf(c.Instant()));
    TimeTextIs(c.Instant());
  }

  /** The closed form of the days before a year. */
  lemma YearStartIs(y: nat)
    ensures YearStart(y) == 365 * y + (y + 3) / 4 - (y + 99) / 100 + (y + 399) / 400
  {
    YearStartCounts(y);
    LeapCountIs(y);
  }

  /** Where the months of a year begin, in days, and where it ends. */
  lemma MonthsAre(y: nat)
    ensures var feb := if y % 4 == 0 && (y % 100 != 0 || y % 400 == 0) then 29 else 28;
      && MonthStart(y, 2) == 31 && MonthStart(y, 3) == 31 + feb && MonthStart(y, 4) == 62 + feb
      && MonthStart(y, 5) == 92 + feb && MonthStart(y, 6) == 123 + feb && MonthStart(y, 7) == 153 + feb
      && MonthStart(y, 8) == 184 + feb && MonthStart(y, 9) == 215 + feb && MonthStart(y, 10) == 245 + feb
      && MonthStart(y, 11) == 276 + feb && MonthStart(y, 12) == 306 + feb && MonthStart(y, 13) == 337 + feb
  {
    assert MonthStart(y, 2) == 31;
    assert MonthStart(y, 3) == 31 + MonthLength(y, 2);
    assert MonthStart(y, 4) == MonthStart(y, 3) + 31;
    assert MonthStart(y, 5) == MonthStart(y, 4) + 30;
    assert MonthStart(y, 6) == MonthStart(y, 5) + 31;
    assert MonthStart(y, 7) == MonthStart(y, 6) + 30;
    assert MonthStart(y, 8) == MonthStart(y, 7) + 31;
    assert MonthStart(y, 9) == MonthStart(y, 8) + 31;
    assert MonthStart(y, 10) == MonthStart(y, 9) + 30;
    assert MonthStart(y, 11) == MonthStart(y, 10) + 31;
    assert MonthStart(y, 12) == MonthStart(y, 11) + 30;
  }

  /** The layout: the fields at fixed width, from the year to the nanosecond. */
  lemma LayoutIs(c: Civil)
    requires Fits(c)
    ensures CivilText(c) == Pad(c.year, 4) + Pad(c.month, 2) + Pad(c.day, 2) + "T"
                            + Pad(c.hour, 2) + Pad(c.minute, 2) + Pad(c.second, 2) + "." + Pad(c.nano, 9) + "Z"
  {
  }

  /** An instant in plain numbers of nanoseconds. */
  lemma InstantIs(c: Civil)
    requires c.Valid()
    ensures c.Instant() == (YearStart(c.year) + MonthStart(c.year, c.month) + c.day - 1) * 86_400_000_000_000
                           + c.hour * 3_600_000_000_000 + c.minute * 60_000_000_000 + c.second * 1_000_000_000 + c.nano
  {
  }

  /** Padding in digits. */
  lemma PadExamples()
    ensures 2024 < Pow10(4) && Pad(2024, 4) == "2024" && 7 < Pow10(2) && Pad(7, 2) == "07"
    ensures 12_345_678 < Pow10(9) && Pad(12_345_678, 9) == "012345678" && 9 < Pow10(2) && Pad(9, 2) == "09"
  {
    Widths();
    assert Pad(20, 2) == "20";
    assert Pad(202, 3) == "202";
    assert Pow10(3) == 1000;
    assert Pow10(5) == 100_000 && Pow10(6) == 1_000_000 && Pow10(7) == 10_000_000 && Pow10(8) == 100_000_000;
    assert Pad(12, 3) == "012";
    assert Pad(123, 4) == "0123";
    assert Pad(1234, 5) == "01234";
    assert Pad(12_345, 6) == "012345";
    assert Pad(123_456, 7) == "0123456";
    assert Pad(1_234_567, 8) == "01234567";
  }
}
