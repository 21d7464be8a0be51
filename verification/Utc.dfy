/** RFC 3339 UTC from Unix seconds: the civil-from-days formulas against the Gregorian calendar, and
    the text as an equality test for instants. */
module Utc {
  import opened Bytes
  import opened Release

  datatype Date = Date(year: nat, month: nat, day: nat)

  // ------------------------------------------------------------- the calendar

  /** The Gregorian rule. */
  predicate Leap(year: nat) {
    year % 4 == 0 && (year % 100 != 0 || year % 400 == 0)
  }

  function DaysIn(year: nat, month: nat): nat {
    if month == 2 then (if Leap(year) then 29 else 28)
    else if month in {4, 6, 9, 11} then 30
    else 31
  }

  predicate IsDate(t: Date) {
    1 <= t.month <= 12 && 1 <= t.day <= DaysIn(t.year, t.month)
  }

  function NextDay(t: Date): Date {
    if t.day < DaysIn(t.year, t.month) then t.(day := t.day + 1)
    else if t.month < 12 then Date(t.year, t.month + 1, 1)
    else Date(t.year + 1, 1, 1)
  }

  /** The date `n` days after 1 January 1970, a day at a time. */
  function Calendar(n: nat): Date {
    if n == 0 then Date(1970, 1, 1) else NextDay(Calendar(n - 1))
  }

  // ------------------------------------------------------------- the formulas

  const ERA := 146_097

  function YearOfEra(doe: nat): nat
    requires doe < ERA
  {
    (doe - doe / 1460 + doe / 36_524 - doe / 146_096) / 365
  }

  /** Days of an era before the year that begins on 1 March of year `yoe`. */
  function YearStart(yoe: nat): int {
    365 * yoe + yoe / 4 - yoe / 100
  }

  /** The date of day `doy` of that year. */
  function FromMarch(era: nat, yoe: nat, doy: nat): Date {
    var mp := (5 * doy + 2) / 153;
    var d := doy - (153 * mp + 2) / 5 + 1;
    var m := if mp < 10 then mp + 3 else mp - 9;
    var y := yoe + era * 400 + if m <= 2 then 1 else 0;
    Date(y, m, d)
  }

  /** `civil-from-days`: eras of 400 years, years that begin on 1 March. */
  function Civil(days: nat): Date {
    var z := days + 719_468;
    var era := z / ERA;
    var doe := z - era * ERA;
    var yoe := YearOfEra(doe);
    YearHoldsDay(doe);
    FromMarch(era, yoe, doe - YearStart(yoe))
  }

  /** `days-from-civil`, the inverse. */
  function Days(t: Date): int
    requires IsDate(t) && t.year >= 1
  {
    var y := if t.month <= 2 then t.year - 1 else t.year;
    var era := y / 400;
    var mp := if t.month > 2 then t.month - 3 else t.month + 9;
    var doy := (153 * mp + 2) / 5 + t.day - 1;
    era * ERA + YearStart(y - era * 400) + doy - 719_468
  }

  // -------------------------------------------------------- years from 1 March

  /** Whether the year that begins on 1 March of year `yoe` of an era ends in a 29 February. */
  predicate LongYear(yoe: nat) {
    Leap(yoe + 1)
  }

  /** Centuries, 4-year cycles and years of an era, and the day of the year. */
  lemma SplitEra(doe: nat) returns (q: nat, p: nat, s: nat, doy: nat)
    requires doe < ERA
    ensures q <= 3 && p <= 24 && s <= 3 && doe == 36_524 * q + 1461 * p + 365 * s + doy
    ensures doy <= 364 || (doy == 365 && s == 3 && (p < 24 || q == 3))
  {
    q := if doe / 36_524 <= 3 then doe / 36_524 else 3;
    var inCentury := doe - 36_524 * q;
    p := inCentury / 1461;
    var inCycle := inCentury - 1461 * p;
    s := if inCycle / 365 <= 3 then inCycle / 365 else 3;
    doy := inCycle - 365 * s;
  }

  /** The formula for the year of the era inverts the split. */
  lemma YearOfEraIs(doe: nat, q: nat, p: nat, s: nat, doy: nat)
    requires doe < ERA && q <= 3 && p <= 24 && s <= 3 && doe == 36_524 * q + 1461 * p + 365 * s + doy
    requires doy <= 364 || (doy == 365 && s == 3 && (p < 24 || q == 3))
    ensures YearOfEra(doe) == 100 * q + 4 * p + s
  {
    var rest := 24 * q + p + 365 * s + doy;
    assert doe == 1460 * (25 * q + p) + rest;
    var extra := if rest >= 1460 then 1 else 0;
    assert doe / 1460 == 25 * q + p + extra;
    assert doe / 36_524 - doe / 146_096 == q;
    assert doe - doe / 1460 + doe / 36_524 - doe / 146_096 == 365 * (100 * q + 4 * p + s) + (doy - extra);
  }

  lemma LeapIs(q: nat, p: nat, s: nat)
    requires q <= 3 && p <= 24 && s <= 3
    ensures var yoe := 100 * q + 4 * p + s;
            && yoe < 400 && yoe / 4 == 25 * q + p && yoe / 100 == q
            && (LongYear(yoe) <==> s == 3 && (p < 24 || q == 3))
  {
    var yoe := 100 * q + 4 * p + s;
    if s == 3 {
      assert yoe + 1 == 4 * (25 * q + p + 1);
      if p < 24 {
        assert (yoe + 1) % 100 == 4 * (p + 1);
      } else {
        assert yoe + 1 == 100 * (q + 1);
      }
    } else {
      assert yoe + 1 == 4 * (25 * q + p) + (s + 1);
    }
  }

  /** The year of the era is the one whose days hold `doe`: its start is not after, and its length,
      365 days or 366 when it ends in a 29 February, is not used up. */
  lemma YearHoldsDay(doe: nat)
    requires doe < ERA
    ensures var yoe := YearOfEra(doe);
            && 0 <= yoe < 400
            && 0 <= doe - (YearStart(yoe)) <= (if LongYear(yoe) then 365 else 364)
  {
    var q, p, s, doy := SplitEra(doe);
    YearOfEraIs(doe, q, p, s, doy);
    LeapIs(q, p, s);
  }

  /** And it is the only one. */
  lemma DayHasYear(yoe: nat, doy: nat)
    requires yoe < 400 && doy <= (if LongYear(yoe) then 365 else 364)
    ensures var doe := YearStart(yoe) + doy; 0 <= doe < ERA && YearOfEra(doe) == yoe
  {
    var q := yoe / 100;
    var p := (yoe - 100 * q) / 4;
    var s := yoe - 100 * q - 4 * p;
    LeapIs(q, p, s);
    YearOfEraIs(36_524 * q + 1461 * p + 365 * s + doy, q, p, s, doy);
  }

  // ------------------------------------------------------- months from March

  /** Days before the month, counted from 1 March, and its length but for February. */
  function MonthStart(mp: nat): nat {
    (153 * mp + 2) / 5
  }

  lemma MonthHoldsDay(doy: nat)
    requires doy <= 365
    ensures var mp := (5 * doy + 2) / 153; mp <= 11 && MonthStart(mp) <= doy && (mp < 11 ==> doy < MonthStart(mp + 1))
  {
    var mp := (5 * doy + 2) / 153;
    assert mp <= 11;
    assert mp == 0 || mp == 1 || mp == 2 || mp == 3 || mp == 4 || mp == 5 || mp == 6 || mp == 7 || mp == 8 || mp == 9
           || mp == 10 || mp == 11;
  }

  lemma DayHasMonth(mp: nat, doy: nat)
    requires mp <= 11 && MonthStart(mp) <= doy <= 365 && (mp < 11 ==> doy < MonthStart(mp + 1))
    ensures (5 * doy + 2) / 153 == mp
  {
    assert mp == 0 || mp == 1 || mp == 2 || mp == 3 || mp == 4 || mp == 5 || mp == 6 || mp == 7 || mp == 8 || mp == 9
           || mp == 10 || mp == 11;
  }

  /** The months counted from March have the calendar's lengths. */
  lemma MonthLengths(year: nat, mp: nat)
    requires mp <= 11
    ensures var m := if mp < 10 then mp + 3 else mp - 9;
            && 1 <= m <= 12
            && MonthStart(mp) + DaysIn(year, m) ==
                 if mp < 11 then MonthStart(mp + 1) else if Leap(year) then 366 else 365
  {
    assert mp == 0 || mp == 1 || mp == 2 || mp == 3 || mp == 4 || mp == 5 || mp == 6 || mp == 7 || mp == 8 || mp == 9
           || mp == 10 || mp == 11;
  }

  lemma {:induction false} ModRepeats(era: nat, a: nat)
    ensures (era * 400 + a) % 4 == a % 4 && (era * 400 + a) % 100 == a % 100 && (era * 400 + a) % 400 == a % 400
  {
    if era > 0 {
      ModRepeats(era - 1, a);
      AddOneEra((era - 1) * 400 + a);
      assert (era - 1) * 400 + a + 400 == era * 400 + a;
    }
  }

  lemma AddOneEra(x: nat)
    ensures (x + 400) % 4 == x % 4 && (x + 400) % 100 == x % 100 && (x + 400) % 400 == x % 400
  {
    AddFours(x);
    AddHundreds(x);
    AddEras(x);
  }

  lemma AddFours(x: nat)
    ensures (x + 400) % 4 == x % 4
  {
  }

  lemma AddHundreds(x: nat)
    ensures (x + 400) % 100 == x % 100
  {
  }

  lemma AddEras(x: nat)
    ensures (x + 400) % 400 == x % 400
  {
    assert (x + 400) / 400 == x / 400 + 1;
  }

  lemma LeapRepeats(era: nat, yoe: nat)
    ensures Leap(era * 400 + yoe + 1) <==> LongYear(yoe)
  {
    ModRepeats(era, yoe + 1);
    assert era * 400 + yoe + 1 == era * 400 + (yoe + 1);
  }

  // ----------------------------------------------------------------- inverse

  /** Day `doy` of a year from March is a date, and the days to it are counted from the era on. */
  lemma MarchIsADate(era: nat, yoe: nat, doy: nat)
    requires yoe < 400 && doy <= (if LongYear(yoe) then 365 else 364)
    ensures var t := FromMarch(era, yoe, doy);
            && IsDate(t) && t.year >= era * 400
            && (era > 0 ==> Days(t) == era * ERA + YearStart(yoe) + doy - 719_468)
  {
    hide YearStart, Leap, DaysIn;
    MonthHoldsDay(doy);
    var mp := (5 * doy + 2) / 153;
    LeapRepeats(era, yoe);
    var m := if mp < 10 then mp + 3 else mp - 9;
    var t := FromMarch(era, yoe, doy);
    MonthLengths(t.year, mp);
    assert (yoe + era * 400) / 400 == era;
  }

  /** The formulas give a date of the calendar, and the days to it are the days given. */
  lemma CivilIsADate(days: nat)
    ensures IsDate(Civil(days)) && Civil(days).year >= 1600 && Days(Civil(days)) == days
  {
    hide YearOfEra, FromMarch, Days, LongYear, YearStart, IsDate;
    var z := days + 719_468;
    var era := z / ERA;
    var doe := z - era * ERA;
    YearHoldsDay(doe);
    MarchIsADate(era, YearOfEra(doe), doe - YearStart(YearOfEra(doe)));
  }

  lemma CivilOf(days: nat, era: nat, yoe: nat, doy: nat)
    requires yoe < 400 && doy <= (if LongYear(yoe) then 365 else 364)
    requires days + 719_468 == era * ERA + YearStart(yoe) + doy
    ensures Civil(days) == FromMarch(era, yoe, doy)
  {
    hide FromMarch, LongYear, YearOfEra;
    DayHasYear(yoe, doy);
    EraOf(days + 719_468, era, YearStart(yoe) + doy);
  }

  lemma EraOf(z: nat, era: nat, doe: nat)
    requires z == era * ERA + doe && doe < ERA
    ensures z / ERA == era && z - era * ERA == doe
  {
  }

  /** And a date of the calendar from 1970 on is what the formulas give for the days to it. */
  lemma DaysAreCivil(t: Date)
    requires IsDate(t) && t.year >= 1 && Days(t) >= 0
    ensures Civil(Days(t)) == t
  {
    var y := if t.month <= 2 then t.year - 1 else t.year;
    var era := y / 400;
    var yoe := y - era * 400;
    var mp := if t.month > 2 then t.month - 3 else t.month + 9;
    var doy := MonthStart(mp) + t.day - 1;
    assert Days(t) + 719_468 == era * ERA + YearStart(yoe) + doy;
    hide Civil, Days, YearStart, Leap, DaysIn, LongYear;
    MarchOf(t, era, yoe, mp);
    CivilOf(Days(t), era, yoe, doy);
    DayHasMonth(mp, doy);
  }

  lemma MarchOf(t: Date, era: nat, yoe: nat, mp: nat)
    requires IsDate(t) && yoe < 400 && mp == if t.month > 2 then t.month - 3 else t.month + 9
    requires era * 400 + yoe == if t.month <= 2 then t.year - 1 else t.year
    ensures mp <= 11 && (mp < 11 ==> MonthStart(mp) + t.day - 1 < MonthStart(mp + 1))
    ensures MonthStart(mp) + t.day - 1 <= if LongYear(yoe) then 365 else 364
  {
    MonthLengths(t.year, mp);
    LeapRepeats(era, yoe);
    if mp < 11 {
      MonthEnds(mp);
    }
  }

  lemma MonthEnds(mp: nat)
    requires mp < 11
    ensures MonthStart(mp + 1) <= MonthStart(11) == 337
  {
  }

  /** The calendar's next day is one day later. */
  lemma NextDayIsOneLater(t: Date)
    requires IsDate(t) && t.year >= 1
    ensures IsDate(NextDay(t)) && NextDay(t).year >= 1 && Days(NextDay(t)) == Days(t) + 1
  {
    if t.day == DaysIn(t.year, t.month) {
      if t.month == 2 {
        YearTurns(t.year);
      } else {
        var mp := if t.month > 2 then t.month - 3 else t.month + 9;
        MonthLengths(t.year, mp);
      }
    }
  }

  /** From the last day of February to the first of March the year, counted from March, turns. */
  lemma YearTurns(year: nat)
    requires year >= 1
    ensures Days(Date(year, 3, 1)) == Days(Date(year, 2, DaysIn(year, 2))) + 1
  {
    var y := year - 1;
    var era := y / 400;
    var yoe := y - era * 400;
    LeapRepeats(era, yoe);
    if yoe == 399 {
      assert year == (era + 1) * 400 && year / 400 == era + 1;
    } else {
      assert year / 400 == era;
      assert (yoe + 1) / 4 == yoe / 4 + (if (yoe + 1) % 4 == 0 then 1 else 0);
      assert (yoe + 1) / 100 == yoe / 100 + (if (yoe + 1) % 100 == 0 then 1 else 0);
    }
  }

  lemma CivilStartsIn1970()
    ensures Civil(0) == Date(1970, 1, 1)
  {
    assert 719_468 / ERA == 4 && YearOfEra(719_468 - 4 * ERA) == 369;
  }

  /** The date the formulas compute is the calendar's, for every day since 1970: consecutive days have
      consecutive dates across every month, leap day and century. */
  lemma {:induction false} CivilIsTheCalendar(n: nat)
    ensures Civil(n) == Calendar(n)
  {
    hide Civil, Days, NextDay, IsDate;
    CivilStartsIn1970();
    if n > 0 {
      CivilIsTheCalendar(n - 1);
      CivilIsADate(n - 1);
      NextDayIsOneLater(Civil(n - 1));
      DaysAreCivil(NextDay(Civil(n - 1)));
    }
  }

  // -------------------------------------------------------------------- text

  /** `utc`: year of at least four digits, the rest of two. */
  function Format(secs: u64): Bytes {
    var t := Civil(secs / 86_400);
    var rem := secs % 86_400;
    Padded(t.year, 4) + [45] + Padded(t.month, 2) + [45] + Padded(t.day, 2) + [84] +
    Padded(rem / 3600, 2) + [58] + Padded(rem % 3600 / 60, 2) + [58] + Padded(rem % 60, 2) + [90]
  }

  /** Two digits for what is below 100. */
  lemma TwoDigits(v: nat)
    requires v < 100
    ensures |Padded(v, 2)| == 2 && AllDigits(Padded(v, 2)) && DigitsValue(Padded(v, 2)) == v
  {
    assert Pow10(2) == 10 * Pow10(1) == 100;
    DecimalLength(v, 2);
    PaddedWidth(v, 2);
    PaddedValue(v, 2);
  }

  /** The fields after the year. */
  function Tail(t: Date, rem: nat): Bytes {
    [45] + Padded(t.month, 2) + [45] + Padded(t.day, 2) + [84] +
    Padded(rem / 3600, 2) + [58] + Padded(rem % 3600 / 60, 2) + [58] + Padded(rem % 60, 2) + [90]
  }

  lemma TailShape(t: Date, rem: nat)
    requires IsDate(t) && rem < 86_400
    ensures var s := Tail(t, rem);
            && |s| == 16
            && s[1..3] == Padded(t.month, 2) && s[4..6] == Padded(t.day, 2)
            && s[7..9] == Padded(rem / 3600, 2) && s[10..12] == Padded(rem % 3600 / 60, 2)
            && s[13..15] == Padded(rem % 60, 2)
  {
    hide Padded;
    TwoDigits(t.month);
    TwoDigits(t.day);
    TwoDigits(rem / 3600);
    TwoDigits(rem % 3600 / 60);
    TwoDigits(rem % 60);
  }

  /** The text names the instant: two times format alike only if they are one time. */
  lemma FormatTellsInstants(a: u64, b: u64)
    ensures Format(a) == Format(b) <==> a == b
  {
    if Format(a) == Format(b) {
      hide Civil, Padded, Tail, IsDate, Days;
      var ta, tb := Civil(a / 86_400), Civil(b / 86_400);
      var ra, rb := a % 86_400, b % 86_400;
      CivilIsADate(a / 86_400);
      CivilIsADate(b / 86_400);
      FormatSplits(a);
      FormatSplits(b);
      TailShape(ta, ra);
      TailShape(tb, rb);
      var y: Bytes := Padded(ta.year, 4);
      var z: Bytes := Padded(tb.year, 4);
      assert |y| == |z|;
      SplitConcat(y, Tail(ta, ra), z, Tail(tb, rb));
      SameFields(ta, ra, tb, rb);
    }
  }

  lemma FormatSplits(secs: u64)
    ensures Format(secs) == Padded(Civil(secs / 86_400).year, 4) + Tail(Civil(secs / 86_400), secs % 86_400)
  {
    hide Civil, Padded;
  }

  lemma SameFields(ta: Date, ra: nat, tb: Date, rb: nat)
    requires IsDate(ta) && IsDate(tb) && ra < 86_400 && rb < 86_400
    requires Padded(ta.year, 4) == Padded(tb.year, 4) && Tail(ta, ra) == Tail(tb, rb)
    ensures ta == tb && ra == rb
  {
    hide Padded, Tail, DigitsValue, AllDigits;
    PaddedValue(ta.year, 4);
    PaddedValue(tb.year, 4);
    TailShape(ta, ra);
    TailShape(tb, rb);
    TwoDigits(ta.month);
    TwoDigits(tb.month);
    TwoDigits(ta.day);
    TwoDigits(tb.day);
    TwoDigits(ra / 3600);
    TwoDigits(rb / 3600);
    TwoDigits(ra % 3600 / 60);
    TwoDigits(rb % 3600 / 60);
    TwoDigits(ra % 60);
    TwoDigits(rb % 60);
    SecondsSplit(ra);
    SecondsSplit(rb);
  }

  lemma SecondsSplit(rem: nat)
    ensures rem == 3600 * (rem / 3600) + 60 * (rem % 3600 / 60) + rem % 60
  {
    assert rem % 60 == rem % 3600 % 60 by {
      assert rem == 60 * (60 * (rem / 3600) + rem % 3600 / 60) + rem % 3600 % 60;
    }
  }

  // --------------------------------------------------------- use in the record

  /** A record field as stored: absent, or a text. */
  predicate FieldMatches(got: Option<Bytes>, want: u64) {
    got == Some(Format(want))
  }

  /** The four CRL time fields of a format 2 record, compared as text with the CRLs' own times. */
  predicate FieldsMatch(got: seq<Option<Bytes>>, want: seq<u64>)
    requires |got| == |want|
  {
    forall k | 0 <= k < |want| :: FieldMatches(got[k], want[k])
  }

  /** A record written with some times passes exactly for CRLs with those times. */
  lemma RecordPassesForItsTimesOnly(written: seq<u64>, want: seq<u64>)
    requires |written| == |want|
    ensures FieldsMatch(seq(|written|, k requires 0 <= k < |written| => Some(Format(written[k]))), want) <==>
              written == want
  {
    var got := seq(|written|, k requires 0 <= k < |written| => Some(Format(written[k])));
    forall k | 0 <= k < |want|
      ensures FieldMatches(got[k], want[k]) <==> written[k] == want[k]
    {
      FormatTellsInstants(written[k], want[k]);
    }
  }

  // ------------------------------------------------------------------ RFC 3339

  lemma {:induction false} YearsGrow(n: nat, k: nat)
    requires n <= k
    ensures Civil(n).year <= Civil(k).year
    decreases k
  {
    hide Civil;
    CivilIsTheCalendar(n);
    CivilIsTheCalendar(k);
    if n < k {
      YearsGrow(n, k - 1);
      CivilIsTheCalendar(k - 1);
    }
  }

  /** The text has the 20 characters of an RFC 3339 date-time (section 5.6: a year of four digits)
      exactly up to the end of year 9999; later years take more digits. */
  lemma TwentyCharactersIff(secs: u64)
    ensures |Format(secs)| == 20 <==> secs < 253_402_300_800
  {
    var n := secs / 86_400;
    hide Civil, Padded, Tail, IsDate, Days;
    CivilIsADate(n);
    FormatSplits(secs);
    TailShape(Civil(n), secs % 86_400);
    var year := Civil(n).year;
    FourDigitsIff(year);
    LastDayOf9999();
    if n <= 2_932_896 {
      YearsGrow(n, 2_932_896);
    } else {
      YearsGrow(2_932_897, n);
    }
  }

  lemma FourDigitsIff(year: nat)
    ensures |Padded(year, 4)| == 4 <==> year < 10_000
  {
    assert Pow10(4) == 10 * Pow10(3) == 100 * Pow10(2) == 10_000;
    if year < 10_000 {
      DecimalLength(year, 4);
      PaddedWidth(year, 4);
    } else {
      DecimalAtLeast(year, 4);
    }
  }

  lemma {:induction false} DecimalAtLeast(v: nat, n: nat)
    requires v >= Pow10(n)
    ensures |Decimal(v)| > n
  {
    if n > 0 {
      DecimalAtLeast(v / 10, n - 1);
    }
  }

  lemma LastDayOf9999()
    ensures Civil(2_932_896) == Date(9999, 12, 31) && Civil(2_932_897) == Date(10_000, 1, 1)
  {
    assert Days(Date(9999, 12, 31)) == 2_932_896;
    DaysAreCivil(Date(9999, 12, 31));
    assert Days(Date(10_000, 1, 1)) == 2_932_897;
    DaysAreCivil(Date(10_000, 1, 1));
  }
}
