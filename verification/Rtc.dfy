/**
 Civil time to Unix time in kernel/src/boot/rtc.rs, against an independent count of days, and the
 decoding of the clock's registers.
 */
module Rtc {
  import opened Bytes

  datatype Civil = Civil(year: int, month: int, day: int, hour: int, min: int, sec: int)

  // ---------- unix_timestamp ----------

  /** Division of 64-bit signed integers: toward zero. */
  function TruncDiv(a: int, b: int): int
    requires b > 0
  {
    if a >= 0 then a / b else -(-a / b)
  }

  /** The day arithmetic, step by step. */
  function Days(year: int, m: int, d: int): int {
    var y := if m <= 2 then year - 1 else year;
    var era := TruncDiv(if y >= 0 then y else y - 399, 400);
    var yoe := y - era * 400;
    var doy := TruncDiv(153 * (if m > 2 then m - 3 else m + 9) + 2, 5) + d - 1;
    var doe := yoe * 365 + TruncDiv(yoe, 4) - TruncDiv(yoe, 100) + doy;
    era * 146097 + doe - 719468
  }

  function UnixTimestamp(c: Civil): Option<int> {
    var days := Days(c.year, c.month, c.day);
    if days < 0 then None else Some(days * 86400 + c.hour * 3600 + c.min * 60 + c.sec)
  }

  // ---------- The Gregorian calendar ----------

  predicate Leap(y: int) { y % 4 == 0 && (y % 100 != 0 || y % 400 == 0) }

  function DaysIn(y: int, m: int): int {
    if m == 2 then if Leap(y) then 29 else 28
    else if m == 4 || m == 6 || m == 9 || m == 11 then 30 else 31
  }

  predicate ValidDate(y: int, m: int, d: int) {
    1 <= m <= 12 && 1 <= d <= DaysIn(y, m)
  }

  predicate ValidTime(c: Civil) {
    ValidDate(c.year, c.month, c.day) && 0 <= c.hour < 24 && 0 <= c.min < 60 && 0 <= c.sec < 60
  }

  /** The date after a date. */
  function Tomorrow(y: int, m: int, d: int): (int, int, int) {
    if d < DaysIn(y, m) then (y, m, d + 1) else if m < 12 then (y, m + 1, 1) else (y + 1, 1, 1)
  }

  function DaysBefore(y: int, m: int): int
    requires 1 <= m <= 13
  {
    if m == 1 then 0 else DaysBefore(y, m - 1) + DaysIn(y, m - 1)
  }

  /** Days from 1970-01-01 to the first day of a year, counted year by year. */
  function YearStart(y: int): int
    decreases if y >= 1970 then y - 1970 else 1970 - y
  {
    if y == 1970 then 0
    else if y > 1970 then YearStart(y - 1) + YearLength(y - 1)
    else YearStart(y + 1) - YearLength(y)
  }

  function YearLength(y: int): int { if Leap(y) then 366 else 365 }

  /** Days from 1970-01-01 to a date, counted. */
  function Counted(y: int, m: int, d: int): int
    requires 1 <= m <= 12
  {
    YearStart(y) + DaysBefore(y, m) + d - 1
  }

  // ---------- The arithmetic is the count ----------

  /** Days before the first of March of year `y`, by the usual leap-year terms. */
  function MarchBased(y: int): int {
    365 * y + y / 4 - y / 100 + y / 400
  }

  lemma EraOf(y: int)
    ensures TruncDiv(if y >= 0 then y else y - 399, 400) == y / 400
  {
  }

  /** Whole eras of 146097 days and the rest of the era add up to the leap-year terms. */
  lemma EraSum(era: int, yoe: int)
    requires 0 <= yoe < 400
    ensures era * 146097 + yoe * 365 + yoe / 4 - yoe / 100 == MarchBased(era * 400 + yoe)
  {
    var y := era * 400 + yoe;
    assert y / 4 == era * 100 + yoe / 4;
    assert y / 100 == era * 4 + yoe / 100;
    assert y / 400 == era;
  }

  /** Day of the year that begins in March. */
  function DayOfYear(m: int, d: int): int {
    (153 * (if m > 2 then m - 3 else m + 9) + 2) / 5 + d - 1
  }

  lemma DaysClosed(year: int, m: int, d: int)
    requires 1 <= m <= 12
    ensures Days(year, m, d) == MarchBased(if m <= 2 then year - 1 else year) + DayOfYear(m, d) - 719468
  {
    hide MarchBased;
    var y := if m <= 2 then year - 1 else year;
    EraOf(y);
    EraSum(y / 400, y % 400);
  }

  /** A year from March to March has as many days as the leap-year terms say. */
  lemma MarchStep(y: int)
    ensures MarchBased(y) - MarchBased(y - 1) == 365 + if Leap(y) then 1 else 0
  {
    hide Leap;
    StepDiv(y, 4);
    StepDiv(y, 100);
    StepDiv(y, 400);
    LeapTerms(y);
  }

  lemma LeapTerms(y: int)
    ensures (if Leap(y) then 1 else 0) ==
      (if y % 4 == 0 then 1 else 0) - (if y % 100 == 0 then 1 else 0) + (if y % 400 == 0 then 1 else 0)
  {
    Multiples(y);
  }

  lemma Multiples(y: int)
    ensures (y % 400 == 0 ==> y % 100 == 0) && (y % 100 == 0 ==> y % 4 == 0)
  {
    Hundreds(y / 400 * 4);
    Fours(y / 100 * 25);
  }

  lemma Hundreds(k: int)
    ensures (100 * k) % 100 == 0
  {
  }

  lemma Fours(k: int)
    ensures (4 * k) % 4 == 0
  {
  }

  lemma StepDiv(y: int, n: int)
    requires n == 4 || n == 100 || n == 400
    ensures y / n - (y - 1) / n == if y % n == 0 then 1 else 0
  {
  }

  /** Month lengths, through the March-based day of the year. */
  lemma MonthOffsets(y: int, m: int)
    requires 1 <= m <= 12
    ensures DaysBefore(y, m) == if m == 1 then 0 else if m == 2 then 31 else DayOfYear(m, 1) + 59 + if Leap(y) then 1 else 0
  {
    hide Leap;
    assert DaysBefore(y, 2) == 31;
    var feb := if Leap(y) then 29 else 28;
    assert DaysBefore(y, 3) == 31 + feb;
    assert DaysBefore(y, 4) == 62 + feb;
    assert DaysBefore(y, 5) == 92 + feb;
    assert DaysBefore(y, 6) == 123 + feb;
    assert DaysBefore(y, 7) == 153 + feb;
    assert DaysBefore(y, 8) == 184 + feb;
    assert DaysBefore(y, 9) == 215 + feb;
    assert DaysBefore(y, 10) == 245 + feb;
    assert DaysBefore(y, 11) == 276 + feb;
    assert DaysBefore(y, 12) == 306 + feb;
  }

  lemma {:induction false} YearStartClosed(y: int)
    ensures YearStart(y) == MarchBased(y - 1) + 306 - 719468
    decreases if y >= 1970 then y - 1970 else 1970 - y
  {
    if y > 1970 {
      hide MarchBased, Leap;
      YearStartClosed(y - 1);
      MarchStep(y - 1);
    } else if y < 1970 {
      hide MarchBased, Leap;
      YearStartClosed(y + 1);
      MarchStep(y);
    }
  }

  /** For every year, month and day number, the arithmetic gives the counted number of days. */
  lemma DaysCounted(y: int, m: int, d: int)
    requires 1 <= m <= 12
    ensures Days(y, m, d) == Counted(y, m, d)
  {
    hide Days, MarchBased, DaysBefore, YearStart, Leap;
    DaysClosed(y, m, d);
    YearStartClosed(y);
    MonthOffsets(y, m);
    if m > 2 {
      MarchStep(y);
    }
  }

  lemma Epoch()
    ensures Days(1970, 1, 1) == 0
  {
  }

  lemma YearEnds(y: int)
    ensures YearStart(y + 1) == YearStart(y) + YearLength(y) && DaysBefore(y, 13) == YearLength(y)
  {
    MonthOffsets(y, 12);
    assert DaysBefore(y, 13) == DaysBefore(y, 12) + 31;
  }

  /** From every valid date to its successor the day number grows by exactly one. */
  lemma NextDay(y: int, m: int, d: int)
    requires ValidDate(y, m, d)
    ensures var t := Tomorrow(y, m, d); ValidDate(t.0, t.1, t.2) && Days(t.0, t.1, t.2) == Days(y, m, d) + 1
  {
    hide Days, YearStart, DaysBefore, Leap;
    var t := Tomorrow(y, m, d);
    DaysCounted(y, m, d);
    DaysCounted(t.0, t.1, t.2);
    YearEnds(y);
    MonthStep(y, m);
    MonthStart(t.0);
  }

  lemma MonthStep(y: int, m: int)
    requires 1 <= m <= 12
    ensures DaysBefore(y, m + 1) == DaysBefore(y, m) + DaysIn(y, m)
  {
  }

  lemma MonthStart(y: int)
    ensures DaysBefore(y, 1) == 0
  {
  }

  // ---------- Order ----------

  predicate DateBefore(y: int, m: int, d: int, y2: int, m2: int, d2: int) {
    y < y2 || (y == y2 && (m < m2 || (m == m2 && d < d2)))
  }

  lemma {:induction false} MonthsGrow(y: int, m: int, m2: int)
    requires 1 <= m < m2 <= 13
    ensures DaysBefore(y, m) + DaysIn(y, m) <= DaysBefore(y, m2)
    decreases m2 - m
  {
    hide Leap;
    MonthStep(y, m2 - 1);
    if m < m2 - 1 {
      MonthsGrow(y, m, m2 - 1);
    }
  }

  lemma {:induction false} YearsGrow(y: int, y2: int)
    requires y < y2
    ensures YearStart(y) + YearLength(y) <= YearStart(y2)
    decreases y2 - y
  {
    hide Leap, YearStart, DaysBefore;
    YearEnds(y2 - 1);
    if y < y2 - 1 {
      YearsGrow(y, y2 - 1);
    }
  }

  /** The dates `decode` lets through: any day up to 31 in any month. */
  predicate Accepted(m: int, d: int) { 1 <= m <= 12 && 1 <= d <= 31 }

  /** From a date that exists, every later accepted date has a larger day number. */
  lemma DaysGrow(y: int, m: int, d: int, y2: int, m2: int, d2: int)
    requires ValidDate(y, m, d) && Accepted(m2, d2) && DateBefore(y, m, d, y2, m2, d2)
    ensures Days(y, m, d) < Days(y2, m2, d2)
  {
    hide Days, YearStart, DaysBefore, Leap;
    DaysCounted(y, m, d);
    DaysCounted(y2, m2, d2);
    if y < y2 {
      YearsGrow(y, y2);
      YearEnds(y);
      MonthsGrow(y, m, 13);
      MonthStart(y2);
      if m2 > 1 {
        MonthsGrow(y2, 1, m2);
      }
    } else if m < m2 {
      MonthsGrow(y, m, m2);
    }
  }

  predicate Before(a: Civil, b: Civil) {
    DateBefore(a.year, a.month, a.day, b.year, b.month, b.day) ||
    (a.year == b.year && a.month == b.month && a.day == b.day &&
     (a.hour < b.hour || (a.hour == b.hour && (a.min < b.min || (a.min == b.min && a.sec < b.sec)))))
  }

  /** Unix time is strictly monotone in civil time, and defined exactly from 1970 on. */
  lemma TimestampGrows(a: Civil, b: Civil)
    requires ValidTime(a) && ValidTime(b) && Before(a, b)
    ensures UnixTimestamp(a).Some? <==> a.year >= 1970
    ensures UnixTimestamp(a).Some? ==> UnixTimestamp(b).Some? && UnixTimestamp(a).value < UnixTimestamp(b).value
  {
    hide Days, Leap;
    Epoch();
    if a.year < 1970 {
      DaysGrow(a.year, a.month, a.day, 1970, 1, 1);
    } else if DateBefore(1970, 1, 1, a.year, a.month, a.day) {
      DaysGrow(1970, 1, 1, a.year, a.month, a.day);
    }
    if DateBefore(a.year, a.month, a.day, b.year, b.month, b.day) {
      DaysGrow(a.year, a.month, a.day, b.year, b.month, b.day);
    }
  }

  // ---------- Days the clock may report that no month has ----------

  /** Some accepted date that comes later has the same day number. */
  ghost predicate Collides(y: int, m: int, d: int) {
    exists y2: int, m2: int, d2: int :: Accepted(m2, d2) && DateBefore(y, m, d, y2, m2, d2) && Days(y2, m2, d2) == Days(y, m, d)
  }

  /** An accepted date shares its day number with a later one exactly when its month has no such day. */
  lemma CollidesIff(y: int, m: int, d: int)
    requires Accepted(m, d)
    ensures Collides(y, m, d) <==> d > DaysIn(y, m)
  {
    hide Days, YearStart, DaysBefore, Leap;
    DaysCounted(y, m, d);
    if d > DaysIn(y, m) {
      var d2 := d - DaysIn(y, m);
      DaysCounted(y, m + 1, d2);
      MonthStep(y, m);
      assert Accepted(m + 1, d2);
      assert Days(y, m + 1, d2) == Days(y, m, d);
    } else {
      forall y2: int, m2: int, d2: int | Accepted(m2, d2) && DateBefore(y, m, d, y2, m2, d2)
        ensures Days(y2, m2, d2) != Days(y, m, d)
      {
        DaysGrow(y, m, d, y2, m2, d2);
      }
    }
  }

  /** Leap years by example: 2000 and 2024 have a 29 February, 2100 has none. */
  lemma KnownDays()
    ensures Days(1970, 1, 1) == 0 && Days(2000, 2, 29) == 11016 && Days(2000, 3, 1) == 11017 && Days(2000, 12, 31) == 11322
    ensures Days(2024, 2, 29) == 19782 && Days(2024, 3, 1) == 19783
    ensures Days(2100, 2, 28) == 47540 && Days(2100, 3, 1) == 47541
  {
  }

  /** The civil second after a civil second. */
  function SecondAfter(c: Civil): Civil {
    if c.sec < 59 then c.(sec := c.sec + 1)
    else if c.min < 59 then c.(min := c.min + 1, sec := 0)
    else if c.hour < 23 then c.(hour := c.hour + 1, min := 0, sec := 0)
    else var (y, m, d) := Tomorrow(c.year, c.month, c.day); Civil(y, m, d, 0, 0, 0)
  }

  /** Unix time is 0 at the start of 1970 and one more with every civil second from then on. */
  lemma NextSecond(c: Civil)
    requires ValidTime(c) && c.year >= 1970
    ensures ValidTime(SecondAfter(c)) && UnixTimestamp(c).Some?
    ensures UnixTimestamp(SecondAfter(c)) == Some(UnixTimestamp(c).value + 1)
    ensures UnixTimestamp(Civil(1970, 1, 1, 0, 0, 0)) == Some(0)
  {
    hide Days, YearStart, DaysBefore, Leap;
    Epoch();
    if c.year > 1970 || c.month > 1 || c.day > 1 {
      DaysGrow(1970, 1, 1, c.year, c.month, c.day);
    }
    NextDay(c.year, c.month, c.day);
  }

  // ---------- The clock's registers ----------

  const HOUR_PM: nat := 0x80

  function Bcd(v: byte): Option<int> {
    if v / 16 > 9 || v % 16 > 9 then None else Some(v / 16 * 10 + v % 16)
  }

  function DecodeU8(v: byte, bin: bool): Option<int> {
    if bin then Some(v) else Bcd(v)
  }

  function Hour12(h: int, pm: bool): Option<int> {
    if h < 1 || h > 12 then None
    else if h == 12 then Some(if pm then 12 else 0)
    else Some(if pm then h + 12 else h)
  }

  function DecodeHour(v: byte, bin: bool, h24: bool): Option<int> {
    var pm := v >= HOUR_PM;
    if !bin then
      match Bcd(v % HOUR_PM)
      case None => None
      case Some(h) => if h24 then Some(h) else Hour12(h, pm)
    else if h24 then Some(v) else Hour12(v % HOUR_PM, pm)
  }

  function DecodeYear(v: byte, century: byte, bin: bool): Option<int> {
    match DecodeU8(v, bin)
    case None => None
    case Some(year) =>
      var y := match DecodeU8(century, bin)
        case Some(c) => if 19 <= c <= 21 then c * 100 + year else if year < 100 then year + 2000 else year
        case None => if year < 100 then year + 2000 else year;
      if 2000 <= y <= 2099 then Some(y) else None
  }

  /** `decode`: seconds, minutes, hours, day, month, year, status B, century. */
  function Decode(raw: seq<byte>): Option<Civil>
    requires |raw| == 8
  {
    var bin, h24 := raw[6] / 4 % 2 == 1, raw[6] / 2 % 2 == 1;
    match (DecodeU8(raw[0], bin), DecodeU8(raw[1], bin), DecodeU8(raw[3], bin), DecodeU8(raw[4], bin))
    case (Some(sec), Some(min), Some(day), Some(month)) =>
      (match (DecodeHour(raw[2], bin, h24), DecodeYear(raw[5], raw[7], bin))
       case (Some(hour), Some(year)) =>
         if sec > 59 || min > 59 || hour > 23 || !Accepted(month, day) then None
         else Some(Civil(year, month, day, hour, min, sec))
       case _ => None)
    case _ => None
  }

  /** A field as the clock shows it: binary, or two decimal digits. */
  function Field(v: int, bin: bool): byte
    requires 0 <= v < 100
  {
    if bin then v else v / 10 * 16 + v % 10
  }

  function HourField(h: int, bin: bool, h24: bool): byte
    requires 0 <= h < 24
  {
    if h24 then Field(h, bin)
    else Field(if h % 12 == 0 then 12 else h % 12, bin) + if h >= 12 then HOUR_PM else 0
  }

  /** What a clock's registers can show, also on days no month has. */
  predicate Shown(c: Civil) {
    2000 <= c.year <= 2099 && Accepted(c.month, c.day) && 0 <= c.hour < 24 && 0 <= c.min < 60 && 0 <= c.sec < 60
  }

  /** The registers of a clock that shows a civil time, in any of its four formats, with any byte in the
      century register. */
  function Registers(c: Civil, bin: bool, h24: bool, century: byte): (raw: seq<byte>)
    requires Shown(c)
    ensures |raw| == 8
  {
    [Field(c.sec, bin), Field(c.min, bin), HourField(c.hour, bin, h24), Field(c.day, bin), Field(c.month, bin),
     Field(c.year % 100, bin), (if bin then 4 else 0) + (if h24 then 2 else 0), century]
  }

  lemma FieldBack(v: int, bin: bool)
    requires 0 <= v < 100
    ensures DecodeU8(Field(v, bin), bin) == Some(v)
  {
  }

  lemma FieldSmall(v: int, bin: bool)
    requires 0 <= v < 24
    ensures Field(v, bin) < HOUR_PM
  {
  }

  /** The top bit of the hour register comes off again. */
  lemma TopBit(f: int)
    requires 0 <= f < HOUR_PM
    ensures f % HOUR_PM == f && (f + HOUR_PM) % HOUR_PM == f
  {
  }

  lemma HourBack(h: int, bin: bool, h24: bool)
    requires 0 <= h < 24
    ensures DecodeHour(HourField(h, bin, h24), bin, h24) == Some(h)
  {
    hide Field, Bcd;
    var shown := if h24 then h else if h % 12 == 0 then 12 else h % 12;
    assert h == h % 12 + if h >= 12 then 12 else 0;
    FieldSmall(shown, bin);
    TopBit(Field(shown, bin));
    FieldBack(shown, bin);
  }

  /** The century register reads 19 or 21. */
  predicate OtherCentury(century: byte, bin: bool) {
    DecodeU8(century, bin) == Some(19) || DecodeU8(century, bin) == Some(21)
  }

  /** With 20 in the century register, or nothing that is a century, the year is 2000 and the two digits. */
  lemma YearBack(year: int, bin: bool, century: byte)
    requires 2000 <= year <= 2099
    ensures DecodeYear(Field(year % 100, bin), century, bin) == if OtherCentury(century, bin) then None else Some(year)
  {
    hide Field, DecodeU8;
    FieldBack(year % 100, bin);
  }

  /** Every date and time of 2000 to 2099 comes back, in all four formats, exactly when the century register
      does not read 19 or 21; then nothing comes back. */
  lemma DecodeRegisters(c: Civil, bin: bool, h24: bool, century: byte)
    requires Shown(c)
    ensures Decode(Registers(c, bin, h24, century)) == if OtherCentury(century, bin) then None else Some(c)
  {
    hide Field, HourField, DecodeU8, DecodeHour, DecodeYear, OtherCentury, Leap;
    FieldBack(c.sec, bin);
    FieldBack(c.min, bin);
    FieldBack(c.day, bin);
    FieldBack(c.month, bin);
    YearBack(c.year, bin, century);
    HourBack(c.hour, bin, h24);
  }

  /** Whatever is decoded is a date and time in range, and its seconds, minutes, day and month are what those
      registers show. */
  lemma DecodedFields(raw: seq<byte>)
    requires |raw| == 8 && Decode(raw).Some?
    ensures var c, bin := Decode(raw).value, raw[6] / 4 % 2 == 1;
      && 2000 <= c.year <= 2099 && 1 <= c.month <= 12 && 1 <= c.day <= 31
      && 0 <= c.hour <= 23 && 0 <= c.min <= 59 && 0 <= c.sec <= 59
      && raw[0] == Field(c.sec, bin) && raw[1] == Field(c.min, bin) && raw[3] == Field(c.day, bin) && raw[4] == Field(c.month, bin)
  {
    hide Field, DecodeU8, DecodeHour, DecodeYear;
    var bin, h24 := raw[6] / 4 % 2 == 1, raw[6] / 2 % 2 == 1;
    FieldShown(raw[0], bin);
    FieldShown(raw[1], bin);
    FieldShown(raw[3], bin);
    FieldShown(raw[4], bin);
    HourRange(raw[2], bin, h24);
    YearRange(raw[5], raw[7], bin);
  }

  lemma FieldShown(v: byte, bin: bool)
    ensures DecodeU8(v, bin).Some? && DecodeU8(v, bin).value < 100 ==> v == Field(DecodeU8(v, bin).value, bin)
    ensures DecodeU8(v, bin).Some? ==> DecodeU8(v, bin).value >= 0
  {
  }

  lemma HourRange(v: byte, bin: bool, h24: bool)
    ensures DecodeHour(v, bin, h24).Some? ==> DecodeHour(v, bin, h24).value >= 0
  {
  }

  lemma YearRange(v: byte, century: byte, bin: bool)
    ensures DecodeYear(v, century, bin).Some? ==> 2000 <= DecodeYear(v, century, bin).value <= 2099
  {
  }

  /** The registers at 23:59:30 on 31 December 2024 in the four formats: two decimal digits a field or binary (bit 2
      of status B), 24 hours (bit 1) or 12 with the top bit for the afternoon. */
  lemma RegisterBytes()
    ensures var c := Civil(2024, 12, 31, 23, 59, 30);
      && Registers(c, false, true, 0x20) == [0x30, 0x59, 0x23, 0x31, 0x12, 0x24, 0x02, 0x20]
      && Registers(c, false, false, 0) == [0x30, 0x59, 0x91, 0x31, 0x12, 0x24, 0x00, 0]
      && Registers(c, true, true, 20) == [30, 59, 23, 31, 12, 24, 0x06, 20]
      && Registers(c, true, false, 0) == [30, 59, 0x8B, 31, 12, 24, 0x04, 0]
  {
  }

  /** A register is what it shows, so the examples are decoded to that moment. */
  lemma DecodedBytes()
    ensures var c := Some(Civil(2024, 12, 31, 23, 59, 30));
      && Decode([0x30, 0x59, 0x23, 0x31, 0x12, 0x24, 0x02, 0x20]) == c
      && Decode([0x30, 0x59, 0x91, 0x31, 0x12, 0x24, 0x00, 0]) == c
      && Decode([30, 59, 23, 31, 12, 24, 0x06, 20]) == c
      && Decode([30, 59, 0x8B, 31, 12, 24, 0x04, 0]) == c
  {
    hide Decode, Registers;
    var c := Civil(2024, 12, 31, 23, 59, 30);
    RegisterBytes();
    NoOtherCentury();
    DecodeRegisters(c, false, true, 0x20);
    DecodeRegisters(c, false, false, 0);
    DecodeRegisters(c, true, true, 20);
    DecodeRegisters(c, true, false, 0);
  }

  lemma NoOtherCentury()
    ensures !OtherCentury(0x20, false) && !OtherCentury(20, true) && !OtherCentury(0, false) && !OtherCentury(0, true)
  {
  }

  /** A clock that shows the 30th of February is decoded, to the Unix time of a day in March. */
  lemma DecodedCollides(y: int, m: int, d: int)
    requires 2000 <= y <= 2099 && Accepted(m, d) && d > DaysIn(y, m)
    ensures var c, e := Civil(y, m, d, 0, 0, 0), Civil(y, m + 1, d - DaysIn(y, m), 0, 0, 0);
      && Decode(Registers(c, true, true, 20)) == Some(c) && Decode(Registers(e, true, true, 20)) == Some(e)
      && Before(c, e) && UnixTimestamp(c) == UnixTimestamp(e)
  {
    hide Decode, Registers, Days, YearStart, DaysBefore, Leap;
    DecodeRegisters(Civil(y, m, d, 0, 0, 0), true, true, 20);
    DecodeRegisters(Civil(y, m + 1, d - DaysIn(y, m), 0, 0, 0), true, true, 20);
    DaysCounted(y, m, d);
    DaysCounted(y, m + 1, d - DaysIn(y, m));
    MonthStep(y, m);
  }

  /** What `decode` lets through always has a Unix time. */
  lemma DecodedHasTimestamp(raw: seq<byte>)
    requires |raw| == 8 && Decode(raw).Some?
    ensures var c := Decode(raw).value; Accepted(c.month, c.day) && 2000 <= c.year <= 2099 && UnixTimestamp(c).Some?
  {
    hide DecodeU8, DecodeHour, Days, Leap;
    var c := Decode(raw).value;
    Epoch();
    DaysGrow(1970, 1, 1, c.year, c.month, c.day);
  }
}
