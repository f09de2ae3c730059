/** The calendar arithmetic of time.c against a day count made year by year and month by month. */
module Calendar {
  import opened Words

  // ---- The reference: counting days ----

  datatype Date = Date(year: int, mon: nat, day: nat)  // mon is 0 for January

  predicate IsLeap(y: int) {
    y % 4 == 0 && (y % 100 != 0 || y % 400 == 0)
  }

  function DaysIn(y: int, mon: nat): nat
    requires mon < 12
  {
    if mon == 1 then if IsLeap(y) then 29 else 28
    else if mon == 3 || mon == 5 || mon == 8 || mon == 10 then 30
    else 31
  }

  predicate ValidDate(d: Date) {
    d.year >= 1970 && d.mon < 12 && 1 <= d.day <= DaysIn(d.year, d.mon)
  }

  function DaysBeforeYear(y: int): nat
    requires y >= 1970
    decreases y
  {
    if y == 1970 then 0 else DaysBeforeYear(y - 1) + if IsLeap(y - 1) then 366 else 365
  }

  function DaysBeforeMonth(y: int, mon: nat): nat
    requires mon <= 12
  {
    if mon == 0 then 0 else DaysBeforeMonth(y, mon - 1) + DaysIn(y, mon - 1)
  }

  /** Days since 1 January 1970. */
  function DayNumber(d: Date): nat
    requires ValidDate(d)
  {
    DaysBeforeYear(d.year) + DaysBeforeMonth(d.year, d.mon) + (d.day - 1)
  }

  function NextDay(d: Date): (n: Date)
    requires ValidDate(d)
    ensures ValidDate(n)
  {
    if d.day < DaysIn(d.year, d.mon) then d.(day := d.day + 1)
    else if d.mon < 11 then Date(d.year, d.mon + 1, 1)
    else Date(d.year + 1, 0, 1)
  }

  lemma YearLength(y: int)
    ensures DaysBeforeMonth(y, 12) == if IsLeap(y) then 366 else 365
    ensures forall m :: 0 <= m <= 12 ==> DaysBeforeMonth(y, m) == MonthStart(m) - if m >= 2 && !IsLeap(y) then 1 else 0
  {
    assert DaysBeforeMonth(y, 1) == 31;
    assert DaysBeforeMonth(y, 2) == 31 + DaysIn(y, 1);
    hide IsLeap;
    assert DaysBeforeMonth(y, 3) == DaysBeforeMonth(y, 2) + 31;
    assert DaysBeforeMonth(y, 4) == DaysBeforeMonth(y, 3) + 30;
    assert DaysBeforeMonth(y, 5) == DaysBeforeMonth(y, 4) + 31;
    assert DaysBeforeMonth(y, 6) == DaysBeforeMonth(y, 5) + 30;
    assert DaysBeforeMonth(y, 7) == DaysBeforeMonth(y, 6) + 31;
    assert DaysBeforeMonth(y, 8) == DaysBeforeMonth(y, 7) + 31;
    assert DaysBeforeMonth(y, 9) == DaysBeforeMonth(y, 8) + 30;
    assert DaysBeforeMonth(y, 10) == DaysBeforeMonth(y, 9) + 31;
    assert DaysBeforeMonth(y, 11) == DaysBeforeMonth(y, 10) + 30;
    assert DaysBeforeMonth(y, 12) == DaysBeforeMonth(y, 11) + 31;
  }

  /** The day count is right: it starts at 0 and every day adds one. */
  lemma DayNumberCounts(d: Date)
    requires ValidDate(d)
    ensures DayNumber(Date(1970, 0, 1)) == 0
    ensures DayNumber(NextDay(d)) == DayNumber(d) + 1
  {
    YearLength(d.year);
    hide IsLeap;
  }

  // ---- The code ----

  /** Days before a month of a leap year: the table the code uses for every year. */
  function MonthStart(mon: nat): nat
    requires mon <= 12
  {
    [0, 31, 60, 91, 121, 152, 182, 213, 244, 274, 305, 335, 366][mon]
  }

  /** `struct tm` as far as `mktime` reads it; the year is the full year and yday counts from 1. */
  datatype Tm = Tm(sec: nat, min: nat, hour: nat, year: nat, yday: nat)

  /** What `__get_time` makes of a date and a time of day. */
  function TmOf(d: Date, sec: nat, min: nat, hour: nat): Tm
    requires ValidDate(d)
  {
    Tm(sec, min, hour, d.year, d.day + MonthStart(d.mon))
  }

  /** `mktime` over unbounded integers. */
  function Mktime(tm: Tm): int {
    var year := tm.year - 1900;
    tm.sec + tm.min * 60 + tm.hour * 3600 + tm.yday * 86400
    + (year - 70) * 31536000 + (year - 69) / 4 * 86400
    - (year - 1) / 100 * 86400 + (year + 299) / 400 * 86400 - 2 * 86400
  }

  /** Section 4.16 of POSIX.1-2017 Base Definitions, by the day count. */
  function EpochSeconds(d: Date, sec: nat, min: nat, hour: nat): nat
    requires ValidDate(d)
  {
    sec + min * 60 + hour * 3600 + DayNumber(d) * 86400
  }

  /** The leap-day terms of the formula are the days that leap years add. */
  lemma {:induction false} LeapDays(y: int)
    requires y >= 1970
    ensures DaysBeforeYear(y) == (y - 1970) * 365 + (y - 1969) / 4 - (y - 1901) / 100 + (y - 1601) / 400
    decreases y
  {
    if y > 1970 {
      LeapDays(y - 1);
      Multiples(y - 1);
      hide IsLeap;
    }
  }

  /** Which of the three terms grow after year y. */
  lemma Multiples(y: int)
    ensures (y - 1968) / 4 - (y - 1969) / 4 == if y % 4 == 0 then 1 else 0
    ensures (y - 1900) / 100 - (y - 1901) / 100 == if y % 100 == 0 then 1 else 0
    ensures (y - 1600) / 400 - (y - 1601) / 400 == if y % 400 == 0 then 1 else 0
    ensures (y - 1968) / 4 - (y - 1900) / 100 + (y - 1600) / 400
         == (y - 1969) / 4 - (y - 1901) / 100 + (y - 1601) / 400 + if IsLeap(y) then 1 else 0
  {
    Step4(y);
    Step100(y);
    Step400(y);
    Divides(y);
  }

  lemma Step4(y: int)
    ensures (y - 1968) / 4 - (y - 1969) / 4 == if y % 4 == 0 then 1 else 0
  {}

  lemma Step100(y: int)
    ensures (y - 1900) / 100 - (y - 1901) / 100 == if y % 100 == 0 then 1 else 0
  {}

  lemma Step400(y: int)
    ensures (y - 1600) / 400 - (y - 1601) / 400 == if y % 400 == 0 then 1 else 0
  {}

  lemma Divides(y: int)
    ensures y % 400 == 0 ==> y % 100 == 0
    ensures y % 100 == 0 ==> y % 4 == 0
  {}

  /** Main result: `mktime` is right from March to December of the years that are not leap years, and
      one day early on every other date. */
  lemma MktimeExactly(d: Date, sec: nat, min: nat, hour: nat)
    requires ValidDate(d)
    ensures Mktime(TmOf(d, sec, min, hour))
         == EpochSeconds(d, sec, min, hour) - if d.mon >= 2 && !IsLeap(d.year) then 0 else 86400
  {
    LeapDays(d.year);
    YearLength(d.year);
    hide IsLeap, DaysBeforeYear, DaysBeforeMonth, MonthStart;
  }

  /** What this does to a clock at midnight: no time passes over the new year after a year that is not
      a leap year, two days pass when such a year comes to March, and one day passes otherwise. */
  lemma ClockSteps(d: Date, sec: nat, min: nat, hour: nat)
    requires ValidDate(d)
    ensures var n := NextDay(d);
            Mktime(TmOf(n, sec, min, hour)) - Mktime(TmOf(d, sec, min, hour))
              == if IsLeap(d.year) then 86400
                 else if n.year != d.year then 0
                 else if n.mon == 2 && n.day == 1 then 172800
                 else 86400
  {
    var n := NextDay(d);
    MktimeExactly(d, sec, min, hour);
    MktimeExactly(n, sec, min, hour);
    DayNumberCounts(d);
    assert n.year != d.year && !IsLeap(d.year) ==> n.mon == 0;
    hide Mktime, DayNumber, IsLeap;
  }

  // ---- 32 bits ----

  /** `mktime` with its 32-bit unsigned `time_t`. */
  function MktimeWord(tm: Tm): word {
    var year := Wrap(tm.year - 1900);
    var t0 := Wrap(tm.sec + tm.min * 60 + tm.hour * 3600 + tm.yday * 86400);
    var t1 := Wrap(t0 + Wrap(Wrap(year - 70) * 31536000));
    var t2 := Wrap(t1 + Wrap(Wrap(year - 69) / 4 * 86400));
    var t3 := Wrap(t2 - Wrap(Wrap(year - 1) / 100 * 86400));
    var t4 := Wrap(t3 + Wrap(Wrap(year + 299) / 400 * 86400));
    Wrap(t4 - 2 * 86400)
  }

  lemma Exactly(x: int)
    requires 0 <= x < TWO_32
    ensures Wrap(x) == x
  {}

  /** No partial sum of the formula leaves the 32 bits when its terms have the size they have here. */
  lemma PartialSums(base: int, years: int, leap: int, skipped: int, kept: int)
    requires 86400 <= base <= 367 * 86400 && 30 * 31536000 <= years <= 129 * 31536000
    requires 7 * 86400 <= leap <= 32 * 86400 && 0 <= skipped <= 86400 && 0 <= kept <= 86400
    ensures Wrap(Wrap(Wrap(Wrap(Wrap(Wrap(base) + Wrap(years)) + Wrap(leap)) - Wrap(skipped)) + Wrap(kept)) - 2 * 86400)
         == base + years + leap - skipped + kept - 2 * 86400
  {
    Exactly(base);
    Exactly(years);
    Exactly(base + years);
    Exactly(leap);
    Exactly(base + years + leap);
    Exactly(skipped);
    Exactly(base + years + leap - skipped);
    Exactly(kept);
    Exactly(base + years + leap - skipped + kept);
    Exactly(base + years + leap - skipped + kept - 2 * 86400);
    hide Wrap;
  }

  lemma TermSizes(year: int)
    requires 100 <= year <= 199
    ensures 7 <= (year - 69) / 4 <= 32 && 0 <= (year - 1) / 100 <= 1 && 0 <= (year + 299) / 400 <= 1
  {}

  lemma Unwrapped(tm: Tm)
    requires 2000 <= tm.year <= 2099
    ensures var year := tm.year - 1900;
            Wrap(year) == year && Wrap(year - 70) == year - 70 && Wrap(year - 69) == year - 69
            && Wrap(year - 1) == year - 1 && Wrap(year + 299) == year + 299
  {}

  /** In the years the clock chip can show, no step of the 32-bit computation goes wrong. */
  lemma NoOverflow(tm: Tm)
    requires 2000 <= tm.year <= 2099 && 1 <= tm.yday <= 366 && tm.sec < 60 && tm.min < 60 && tm.hour < 24
    ensures MktimeWord(tm) == Mktime(tm)
  {
    hide Wrap;
    var year := tm.year - 1900;
    Unwrapped(tm);
    TermSizes(year);
    PartialSums(tm.sec + tm.min * 60 + tm.hour * 3600 + tm.yday * 86400, (year - 70) * 31536000,
                (year - 69) / 4 * 86400, (year - 1) / 100 * 86400, (year + 299) / 400 * 86400);
  }

  /** `__decode_bcd`. */
  function DecodeBcd(d: byte): nat {
    d / 16 * 10 + d % 16
  }

  /** Two decimal digits in a byte, as the clock chip keeps them. */
  function EncodeBcd(n: nat): byte
    requires n < 100
  {
    n / 10 * 16 + n % 10
  }

  lemma BcdRoundTrip(n: nat)
    requires n < 100
    ensures DecodeBcd(EncodeBcd(n)) == n
  {}

  /** The registers of the clock chip that are read, in BCD. */
  datatype Rtc = Rtc(sec: byte, min: byte, hour: byte, mday: byte, mon: byte, year: byte)

  /** The registers of a chip set to a date of this century. */
  function RtcOf(d: Date, sec: nat, min: nat, hour: nat): Rtc
    requires ValidDate(d) && 2000 <= d.year <= 2099 && sec < 60 && min < 60 && hour < 24
  {
    Rtc(EncodeBcd(sec), EncodeBcd(min), EncodeBcd(hour),
        EncodeBcd(d.day), EncodeBcd(d.mon + 1), EncodeBcd(d.year - 2000))
  }

  /** The registers are those of a chip that shows the date and the time of day. */
  ghost predicate Shows(r: Rtc, d: Date, sec: nat, min: nat, hour: nat) {
    ValidDate(d) && 2000 <= d.year <= 2099 && sec < 60 && min < 60 && hour < 24 && r == RtcOf(d, sec, min, hour)
  }

  predicate HasMonth(r: Rtc) {
    1 <= DecodeBcd(r.mon) <= 12
  }

  function TmFrom(r: Rtc): Tm
    requires HasMonth(r)
  {
    Tm(DecodeBcd(r.sec), DecodeBcd(r.min), DecodeBcd(r.hour), DecodeBcd(r.year) + 2000,
       DecodeBcd(r.mday) + MonthStart(DecodeBcd(r.mon) - 1))
  }

  /** `struct tm`, filled from the clock chip. */
  class TimeRecord {
    var sec: nat
    var min: nat
    var hour: nat
    var mday: nat
    var mon: nat
    var year: nat
    var yday: nat
    var wday: nat

    function Value(): Tm
      reads this
    {
      Tm(sec, min, hour, year, yday)
    }

    /** `__get_time`. When the chip shows a date and a time of day, they are what the record holds; and
        its day of the year, which counts from 1, is one too many from March on in a year that is not
        a leap year. */
    method GetTime(r: Rtc, ghost d: Date, ghost s: nat, ghost m: nat, ghost h: nat)
      requires HasMonth(r)
      modifies this
      ensures Value() == TmFrom(r)
      ensures mday == DecodeBcd(r.mday) && mon == DecodeBcd(r.mon) - 1 && wday == mday % 7
      ensures Shows(r, d, s, m, h) ==>
                && sec == s && min == m && hour == h && year == d.year && mon == d.mon && mday == d.day
                && yday == DaysBeforeMonth(d.year, d.mon) + d.day + if d.mon >= 2 && !IsLeap(d.year) then 1 else 0
    {
      sec := DecodeBcd(r.sec);
      min := DecodeBcd(r.min);
      hour := DecodeBcd(r.hour);
      mday := DecodeBcd(r.mday);
      mon := DecodeBcd(r.mon) - 1;
      year := DecodeBcd(r.year) + 2000;
      yday := mday + MonthStart(mon);
      wday := mday % 7;
      if Shows(r, d, s, m, h) {
        RtcRead(d, s, m, h);
        YearLength(d.year);
      }
    }
  }

  /** `time`. When the chip shows a moment of this century, the result is the seconds since the epoch,
      less a day unless it is March to December of a year that is not a leap year. */
  method Time(r: Rtc, ghost d: Date, ghost sec: nat, ghost min: nat, ghost hour: nat) returns (t: word)
    requires HasMonth(r)
    ensures t == MktimeWord(TmFrom(r))
    ensures Shows(r, d, sec, min, hour) ==>
              t == EpochSeconds(d, sec, min, hour) - if d.mon >= 2 && !IsLeap(d.year) then 0 else 86400
  {
    var tm := new TimeRecord;
    tm.GetTime(r, d, sec, min, hour);
    t := MktimeWord(tm.Value());
    if Shows(r, d, sec, min, hour) {
      TimeExactly(d, sec, min, hour);
    }
  }

  /** Main result for the whole path, in 32 bits: for every moment of this century that the clock chip
      can show, the result of `time` is the seconds since the epoch, less a day unless it is March to
      December of a year that is not a leap year. */
  lemma TimeExactly(d: Date, sec: nat, min: nat, hour: nat)
    requires ValidDate(d) && 2000 <= d.year <= 2099 && sec < 60 && min < 60 && hour < 24
    ensures var r := RtcOf(d, sec, min, hour);
            && HasMonth(r)
            && MktimeWord(TmFrom(r))
                 == EpochSeconds(d, sec, min, hour) - if d.mon >= 2 && !IsLeap(d.year) then 0 else 86400
  {
    RtcRead(d, sec, min, hour);
    NoOverflow(TmOf(d, sec, min, hour));
    MktimeExactly(d, sec, min, hour);
    hide MktimeWord, Mktime, EpochSeconds, TmFrom, RtcOf;
  }

  lemma RtcRead(d: Date, sec: nat, min: nat, hour: nat)
    requires ValidDate(d) && 2000 <= d.year <= 2099 && sec < 60 && min < 60 && hour < 24
    ensures var r := RtcOf(d, sec, min, hour);
            && HasMonth(r) && TmFrom(r) == TmOf(d, sec, min, hour)
            && DecodeBcd(r.mday) == d.day && DecodeBcd(r.mon) - 1 == d.mon
  {
    BcdRoundTrip(sec);
    BcdRoundTrip(min);
    BcdRoundTrip(hour);
    BcdRoundTrip(d.day);
    BcdRoundTrip(d.mon + 1);
    BcdRoundTrip(d.year - 2000);
    hide EncodeBcd, DecodeBcd, MonthStart;
  }
}
