/**
 Update times are stored as text in the layout `2006-01-02T15:04:05Z` and compared as strings.
 This module shows that doing so compares the instants, for every wall-clock reading with a
 four-digit year.
 */
module Timestamps {
  import opened GoText

  /** A wall-clock reading. The trailing `Z` of the layout is a literal, so no zone is recorded. */
  datatype Moment = Moment(year: nat, month: nat, day: nat, hour: nat, minute: nat, second: nat) {
    predicate Valid() {
      && year <= 9999
      && 1 <= month <= 12
      && 1 <= day <= MonthLength(year, month)
      && hour < 24 && minute < 60 && second < 60
    }

    /** Seconds since the first instant of year 0, in the proleptic Gregorian calendar. */
    function Instant(): int
      requires Valid()
    {
      ((DaysBeforeYear(year) + DaysBeforeMonth(year, month) + day - 1) * 24 + hour) * 3600 + minute * 60 + second
    }

    function Text(): string {
      Pad(year, 4) + ("-" + (Pad(month, 2) + ("-" + (Pad(day, 2) + ("T" + (Pad(hour, 2) + (":" +
      (Pad(minute, 2) + (":" + (Pad(second, 2) + "Z"))))))))))
    }
  }

  // ---------- the calendar ----------

  predicate IsLeap(year: nat) {
    year % 4 == 0 && (year % 100 != 0 || year % 400 == 0)
  }

  function MonthLength(year: nat, month: nat): nat {
    if month == 2 then (if IsLeap(year) then 29 else 28)
    else if month == 4 || month == 6 || month == 9 || month == 11 then 30
    else 31
  }

  function DaysBeforeMonth(year: nat, month: nat): nat {
    if month <= 1 then 0 else DaysBeforeMonth(year, month - 1) + MonthLength(year, month - 1)
  }

  function DaysBeforeYear(year: nat): nat {
    if year == 0 then 0 else DaysBeforeYear(year - 1) + (if IsLeap(year - 1) then 366 else 365)
  }

  lemma {:induction false} MonthsGrow(year: nat, m: nat, n: nat)
    requires 1 <= m < n
    ensures DaysBeforeMonth(year, m) + MonthLength(year, m) <= DaysBeforeMonth(year, n)
  {
    if m + 1 < n {
      MonthsGrow(year, m, n - 1);
    }
  }

  lemma YearLength(year: nat)
    ensures DaysBeforeMonth(year, 13) == if IsLeap(year) then 366 else 365
  {
    var february := MonthLength(year, 2);
    assert DaysBeforeMonth(year, 2) == 31;
    assert DaysBeforeMonth(year, 4) == 62 + february;
    assert DaysBeforeMonth(year, 6) == 123 + february;
    assert DaysBeforeMonth(year, 8) == 184 + february;
    assert DaysBeforeMonth(year, 10) == 245 + february;
    assert DaysBeforeMonth(year, 12) == 306 + february;
  }

  lemma {:induction false} YearsGrow(y: nat, z: nat)
    requires y < z
    ensures DaysBeforeYear(y) + (if IsLeap(y) then 366 else 365) <= DaysBeforeYear(z)
  {
    if y + 1 < z {
      YearsGrow(y, z - 1);
    }
  }

  function DayNumber(t: Moment): int {
    DaysBeforeYear(t.year) + DaysBeforeMonth(t.year, t.month) + t.day - 1
  }

  lemma DaysOrdered(a: Moment, b: Moment)
    requires a.Valid() && b.Valid()
    requires a.year < b.year || (a.year == b.year && (a.month < b.month || (a.month == b.month && a.day < b.day)))
    ensures DayNumber(a) < DayNumber(b)
  {
    if a.year < b.year {
      YearsGrow(a.year, b.year);
      YearLength(a.year);
      MonthsGrow(a.year, a.month, 13);
    } else if a.month < b.month {
      MonthsGrow(a.year, a.month, b.month);
    }
  }

  // ---------- fixed-width fields ----------

  function Pad(n: nat, width: nat): (s: string)
    ensures |s| == width
  {
    if width == 0 then [] else Pad(n / 10, width - 1) + [DigitOf(n % 10)]
  }

  lemma {:induction false} PadOrder(n: nat, m: nat, width: nat)
    requires n < Pow10(width) && m < Pow10(width)
    ensures Less(Pad(n, width), Pad(m, width)) <==> n < m
    ensures Pad(n, width) == Pad(m, width) ==> n == m
  {
    if width > 0 {
      PadOrder(n / 10, m / 10, width - 1);
      var p, q := Pad(n / 10, width - 1), Pad(m / 10, width - 1);
      var c, d := [DigitOf(n % 10)], [DigitOf(m % 10)];
      if p == q {
        LessAfterPrefix(p, c, d);
        assert Pad(n, width)[width - 1] == c[0] && Pad(m, width)[width - 1] == d[0];
      } else {
        LessByPrefix(p, q, c, d);
        assert Pad(n, width)[..width - 1] == p && Pad(m, width)[..width - 1] == q;
      }
    }
  }

  lemma FieldFirst(n: nat, m: nat, width: nat, sep: string, a: string, b: string)
    requires n < Pow10(width) && m < Pow10(width)
    ensures Less(Pad(n, width) + (sep + a), Pad(m, width) + (sep + b)) <==> n < m || (n == m && Less(a, b))
  {
    PadOrder(n, m, width);
    if n == m {
      LessAfterPrefix(Pad(n, width), sep + a, sep + b);
      LessAfterPrefix(sep, a, b);
    } else {
      LessByPrefix(Pad(n, width), Pad(m, width), sep + a, sep + b);
    }
  }

  /** The text order is the field-by-field order. */
  lemma TextOrder(a: Moment, b: Moment)
    requires a.Valid() && b.Valid()
    ensures Less(a.Text(), b.Text()) <==>
            || a.year < b.year
            || (a.year == b.year && (a.month < b.month
            || (a.month == b.month && (a.day < b.day
            || (a.day == b.day && (a.hour < b.hour
            || (a.hour == b.hour && (a.minute < b.minute
            || (a.minute == b.minute && a.second < b.second)))))))))
  {
    assert Pow10(2) == 100 && Pow10(4) == 100 * Pow10(2);
    var s, s' := Pad(a.second, 2) + ("Z" + ""), Pad(b.second, 2) + ("Z" + "");
    var mi, mi' := Pad(a.minute, 2) + (":" + s), Pad(b.minute, 2) + (":" + s');
    var h, h' := Pad(a.hour, 2) + (":" + mi), Pad(b.hour, 2) + (":" + mi');
    var d, d' := Pad(a.day, 2) + ("T" + h), Pad(b.day, 2) + ("T" + h');
    var mo, mo' := Pad(a.month, 2) + ("-" + d), Pad(b.month, 2) + ("-" + d');
    FieldFirst(a.second, b.second, 2, "Z", "", "");
    FieldFirst(a.minute, b.minute, 2, ":", s, s');
    FieldFirst(a.hour, b.hour, 2, ":", mi, mi');
    FieldFirst(a.day, b.day, 2, "T", h, h');
    FieldFirst(a.month, b.month, 2, "-", d, d');
    FieldFirst(a.year, b.year, 4, "-", mo, mo');
    assert a.Text() == Pad(a.year, 4) + ("-" + mo) by { assert "Z" + "" == "Z"; }
    assert b.Text() == Pad(b.year, 4) + ("-" + mo') by { assert "Z" + "" == "Z"; }
  }

  /** Comparing the recorded text compares the instants. */
  lemma TextOrderIsChronological(a: Moment, b: Moment)
    requires a.Valid() && b.Valid()
    ensures Less(a.Text(), b.Text()) <==> a.Instant() < b.Instant()
    ensures a.Text() == b.Text() <==> a.Instant() == b.Instant()
  {
    TextOrder(a, b);
    TextOrder(b, a);
    LessTotal(a.Text(), b.Text());
    if a.year != b.year || a.month != b.month || a.day != b.day {
      if a.year < b.year || (a.year == b.year && (a.month < b.month || (a.month == b.month && a.day < b.day))) {
        DaysOrdered(a, b);
      } else {
        DaysOrdered(b, a);
      }
    }
    LessAsymmetric(a.Text(), a.Text());
  }

  /** The layout: four digits of the year and two of every other field, with their separators. */
  lemma LayoutOfText(t: Moment)
    requires t.Valid()
    ensures var s := t.Text();
      && |s| == 20
      && s[4] == '-' && s[7] == '-' && s[10] == 'T' && s[13] == ':' && s[16] == ':' && s[19] == 'Z'
      && Reads(s[..4], t.year) && Reads(s[5..7], t.month) && Reads(s[8..10], t.day)
      && Reads(s[11..13], t.hour) && Reads(s[14..16], t.minute) && Reads(s[17..19], t.second)
  {
    assert Pow10(2) == 100 && Pow10(4) == 100 * Pow10(2);
    PadReads(t.year, 4);
    PadReads(t.month, 2);
    PadReads(t.day, 2);
    PadReads(t.hour, 2);
    PadReads(t.minute, 2);
    PadReads(t.second, 2);
    hide Pad, Pow10, Reads;
    var second := Pad(t.second, 2) + ("Z" + "");
    var minute := Pad(t.minute, 2) + (":" + second);
    var hour := Pad(t.hour, 2) + (":" + minute);
    var day := Pad(t.day, 2) + ("T" + hour);
    var month := Pad(t.month, 2) + ("-" + day);
    var s := Pad(t.year, 4) + ("-" + month);
    assert t.Text() == s by {
      assert "Z" + "" == "Z";
    }
    hide Moment.Text, Moment.Valid;
    FieldAt(s, 0, Pad(t.year, 4), '-', month);
    FieldAt(s, 5, Pad(t.month, 2), '-', day);
    FieldAt(s, 8, Pad(t.day, 2), 'T', hour);
    FieldAt(s, 11, Pad(t.hour, 2), ':', minute);
    FieldAt(s, 14, Pad(t.minute, 2), ':', second);
    FieldAt(s, 17, Pad(t.second, 2), 'Z', "");
    assert s[0..4] == s[..4];
  }

  lemma FieldAt(s: string, from: nat, field: string, sep: char, rest: string)
    requires from <= |s| && s[from..] == field + ([sep] + rest)
    ensures var to := from + |field|;
      to < |s| && s[from..to] == field && s[to] == sep && s[to + 1..] == rest
  {
    var tail := s[from..];
    assert tail[..|field|] == field && tail[|field|] == sep && tail[|field| + 1..] == rest;
  }

  predicate Reads(s: string, n: nat) {
    AllDigits(s) && DigitsValue(s) == n
  }

  lemma {:induction false} PadReads(n: nat, width: nat)
    requires n < Pow10(width)
    ensures Reads(Pad(n, width), n)
  {
    if width > 0 {
      PadReads(n / 10, width - 1);
      assert Pad(n, width)[..width - 1] == Pad(n / 10, width - 1);
    }
  }

  // ---------- readings in different zones ----------

  /** The instant, in seconds of universal time, at which a clock `offset` seconds ahead of universal
      time shows `wall`. The text does not record the offset. */
  function TrueInstant(wall: Moment, offset: int): int
    requires wall.Valid()
  {
    wall.Instant() - offset
  }

  /** The text of the second reading is the larger exactly when more time has passed than the clock
      was set back in between. */
  lemma TextOrderAcrossZones(a: Moment, aOffset: int, b: Moment, bOffset: int)
    requires a.Valid() && b.Valid()
    ensures Less(a.Text(), b.Text()) <==> TrueInstant(b, bOffset) - TrueInstant(a, aOffset) > aOffset - bOffset
  {
    hide Moment.Valid, Moment.Instant, Moment.Text;
    TextOrderIsChronological(a, b);
  }

  /** The order of the texts is the order of time. */
  ghost predicate TextOrderIsTimeOrder(aOffset: int, bOffset: int) {
    forall a: Moment, b: Moment :: a.Valid() && b.Valid() ==>
      (Less(a.Text(), b.Text()) <==> TrueInstant(a, aOffset) < TrueInstant(b, bOffset))
  }

  /** Comparing texts tells which of any two readings came first exactly when both were taken at one
      offset. When summer time ends, readings up to an hour apart come out in the wrong order. */
  lemma OneOffsetIff(aOffset: int, bOffset: int)
    ensures TextOrderIsTimeOrder(aOffset, bOffset) <==> aOffset == bOffset
  {
    var first := Moment(2021, 10, 31, 2, 0, 0);
    var next := Moment(2021, 10, 31, 2, 0, 1);
    assert first.Valid() && next.Valid() && next.Instant() == first.Instant() + 1;
    hide Moment.Valid, Moment.Instant, Moment.Text;
    forall a: Moment, b: Moment | a.Valid() && b.Valid()
      ensures Less(a.Text(), b.Text()) <==> TrueInstant(b, bOffset) - TrueInstant(a, aOffset) > aOffset - bOffset
    {
      TextOrderAcrossZones(a, aOffset, b, bOffset);
    }
    if TextOrderIsTimeOrder(aOffset, bOffset) {
      assert Less(first.Text(), first.Text()) <==> TrueInstant(first, aOffset) < TrueInstant(first, bOffset);
      assert Less(first.Text(), next.Text()) <==> TrueInstant(first, aOffset) < TrueInstant(next, bOffset);
    }
  }
}
