/** Unix time from a UTC timestamp: the civil-date formula and the parser around it. */
module CivilDate {
  import opened Common
  import opened Decimal

  // ---------------------------------------------------------------------------
  // The Gregorian calendar, counted out

  predicate IsLeap(y: int) { y % 4 == 0 && (y % 100 != 0 || y % 400 == 0) }

  function DaysInYear(y: int): int { if IsLeap(y) then 366 else 365 }

  function DaysInMonth(y: int, m: int): int
    requires 1 <= m <= 12
  {
    if m == 2 then if IsLeap(y) then 29 else 28 else if m in {4, 6, 9, 11} then 30 else 31
  }

  datatype Date = Date(year: int, month: int, day: int)

  predicate Real(t: Date) { 1 <= t.month <= 12 && 1 <= t.day <= DaysInMonth(t.year, t.month) }

  const EPOCH: Date := Date(1970, 1, 1)

  /** Days from 1 January 1970 to 1 January of a year, adding or removing whole years. */
  function DaysToYear(y: int): int
    decreases if y >= 1970 then y - 1970 else 1970 - y
  {
    if y == 1970 then 0
    else if y > 1970 then DaysToYear(y - 1) + DaysInYear(y - 1)
    else DaysToYear(y + 1) - DaysInYear(y)
  }

  function DaysToMonth(y: int, m: int): int
    requires 1 <= m <= 12
    decreases m
  {
    if m == 1 then 0 else DaysToMonth(y, m - 1) + DaysInMonth(y, m - 1)
  }

  /** The day number by counting; a day past the month's end counts on into the next month. */
  function DayNumber(t: Date): int
    requires 1 <= t.month <= 12
  {
    DaysToYear(t.year) + DaysToMonth(t.year, t.month) + t.day - 1
  }

  /** The next calendar day. */
  function NextDay(t: Date): Date
    requires Real(t)
  {
    if t.day < DaysInMonth(t.year, t.month) then Date(t.year, t.month, t.day + 1)
    else if t.month < 12 then Date(t.year, t.month + 1, 1)
    else Date(t.year + 1, 1, 1)
  }

  function After(n: nat): (t: Date)
    ensures Real(t)
  {
    if n == 0 then EPOCH else NextDay(After(n - 1))
  }

  // ---------------------------------------------------------------------------
  // The formula

  function DaysFromCivil(t: Date): int {
    var y := if t.month <= 2 then t.year - 1 else t.year;
    var era := TruncDiv(if y >= 0 then y else y - 399, 400);
    var yoe := y - era * 400;
    var mp := (t.month + 9) % 12;
    var doy := (153 * mp + 2) / 5 + t.day - 1;
    var doe := yoe * 365 + yoe / 4 - yoe / 100 + doy;
    era * 146097 + doe - 719468
  }

  // ---------------------------------------------------------------------------
  // The formula counts days

  /** Days to 1 March of year y, by the formula's eras. */
  function MarchDays(y: int): int {
    var era := y / 400;
    var yoe := y % 400;
    era * 146097 + yoe * 365 + yoe / 4 - yoe / 100
  }

  lemma EraIsFloor(y: int)
    ensures TruncDiv(if y >= 0 then y else y - 399, 400) == y / 400
  {
    if y < 0 {
      var q, r := y / 400, y % 400;
      assert 399 - y == 400 * (-q) + (399 - r);
      DivModUnique(-q, 400, 399 - r);
    }
  }

  lemma LeapInEra(y: int)
    ensures var r := y % 400; IsLeap(y) <==> r % 4 == 0 && (r % 100 != 0 || r == 0)
  {
    var q, r := y / 400, y % 400;
    assert y == 400 * q + r;
    assert y == 4 * (100 * q + r / 4) + r % 4;
    DivModUnique(100 * q + r / 4, 4, r % 4);
    assert y == 100 * (4 * q + r / 100) + r % 100;
    DivModUnique(4 * q + r / 100, 100, r % 100);
  }

  lemma NextInEra(y: int)
    ensures (y % 400 < 399 ==> (y + 1) / 400 == y / 400 && (y + 1) % 400 == y % 400 + 1)
    ensures (y % 400 == 399 ==> (y + 1) / 400 == y / 400 + 1 && (y + 1) % 400 == 0)
  {
    var q, r := y / 400, y % 400;
    assert y == q * 400 + r;
    if r < 399 { DivModUnique(q, 400, r + 1); } else { DivModUnique(q + 1, 400, 0); }
  }

  /** From one March to the next there is one leap day exactly when the later February has it. */
  lemma MarchToMarch(y: int)
    ensures MarchDays(y + 1) - MarchDays(y) == DaysInYear(y + 1)
  {
    LeapInEra(y + 1);
    NextInEra(y);
    hide IsLeap;
    var r := y % 400;
    if r < 399 { QuarterSteps(r); }
  }

  lemma QuarterSteps(r: nat)
    ensures (r + 1) / 4 == r / 4 + (if (r + 1) % 4 == 0 then 1 else 0)
    ensures (r + 1) / 100 == r / 100 + (if (r + 1) % 100 == 0 then 1 else 0)
    ensures (r + 1) % 100 == 0 ==> (r + 1) % 4 == 0
  {
  }

  /** The formula, with the era step replaced by floor division. */
  lemma FormulaInEras(t: Date)
    ensures var y := if t.month <= 2 then t.year - 1 else t.year;
            DaysFromCivil(t) == MarchDays(y) + (153 * ((t.month + 9) % 12) + 2) / 5 + t.day - 1 - 719468
  {
    var y := if t.month <= 2 then t.year - 1 else t.year;
    EraIsFloor(y);
    hide TruncDiv;
    assert y == y / 400 * 400 + y % 400;
  }

  lemma {:induction false} YearsAgree(y: int)
    ensures MarchDays(y - 1) + 306 - 719468 == DaysToYear(y)
    decreases if y >= 1970 then y - 1970 else 1970 - y
  {
    hide IsLeap;
    if y > 1970 {
      YearsAgree(y - 1);
      MarchToMarch(y - 2);
    } else if y < 1970 {
      YearsAgree(y + 1);
      MarchToMarch(y - 1);
    }
  }

  /** Days to a month's start by the formula's month table. */
  function TableDays(y: int, m: int): int {
    (153 * ((m + 9) % 12) + 2) / 5 + (if m <= 2 then -306 else 59 + (if IsLeap(y) then 1 else 0))
  }

  lemma TableStep(y: int, m: int)
    requires 2 <= m <= 12
    ensures TableDays(y, m) == TableDays(y, m - 1) + DaysInMonth(y, m - 1)
  {
    hide IsLeap;
    match m case 2 => case 3 => case 4 => case 5 => case 6 => case 7 => case 8 => case 9 =>
      case 10 => case 11 => case _ =>
  }

  lemma {:induction false} MonthTable(y: int, m: int)
    requires 1 <= m <= 12
    ensures DaysToMonth(y, m) == TableDays(y, m)
    decreases m
  {
    if m == 1 {
    } else {
      hide TableDays;
      MonthTable(y, m - 1);
      TableStep(y, m);
    }
  }

  /** For every year, positive or negative, the formula is the day count. */
  lemma FormulaCountsDays(t: Date)
    requires 1 <= t.month <= 12
    ensures DaysFromCivil(t) == DayNumber(t)
  {
    hide MarchDays, IsLeap, DaysToYear, DaysFromCivil, DaysToMonth;
    FormulaInEras(t);
    YearsAgree(t.year);
    MarchToMarch(t.year - 1);
    MonthTable(t.year, t.month);
  }

  lemma YearOfMonths(y: int)
    ensures DaysToMonth(y, 12) + 31 == DaysInYear(y)
  {
    MonthTable(y, 12);
  }

  /** Consecutive calendar days have consecutive numbers. */
  lemma ConsecutiveDays(t: Date)
    requires Real(t)
    ensures Real(NextDay(t)) && DayNumber(NextDay(t)) == DayNumber(t) + 1
  {
    YearOfMonths(t.year);
    YearStep(t.year);
    hide DaysToYear;
  }

  lemma YearStep(y: int)
    ensures DaysToYear(y + 1) == DaysToYear(y) + DaysInYear(y)
  {
  }

  predicate Earlier(s: Date, t: Date) {
    s.year < t.year || (s.year == t.year && (s.month < t.month || (s.month == t.month && s.day < t.day)))
  }

  lemma {:induction false} YearsMonotone(x: int, y: int)
    requires x <= y
    ensures DaysToYear(x) + (y - x) * 365 <= DaysToYear(y)
    decreases y - x
  {
    if x == y {
    } else {
      YearsMonotone(x, y - 1);
      YearStep(y - 1);
    }
  }

  lemma {:induction false} MonthsMonotone(y: int, m: int, n: int)
    requires 1 <= m < n <= 12
    ensures DaysToMonth(y, m) + DaysInMonth(y, m) <= DaysToMonth(y, n)
    decreases n
  {
    if m == n - 1 {
    } else {
      MonthsMonotone(y, m, n - 1);
    }
  }

  lemma WithinYear(t: Date)
    requires Real(t)
    ensures DaysToYear(t.year) <= DayNumber(t) < DaysToYear(t.year + 1)
  {
    YearStep(t.year);
    YearOfMonths(t.year);
    MonthTable(t.year, t.month);
    if t.month < 12 { MonthsMonotone(t.year, t.month, 12); }
    hide DaysToYear;
  }

  /** Later dates have larger numbers, so no two real dates share one. */
  lemma StrictlyIncreasing(s: Date, t: Date)
    requires Real(s) && Real(t)
    ensures Earlier(s, t) <==> DaysFromCivil(s) < DaysFromCivil(t)
  {
    FormulaCountsDays(s);
    FormulaCountsDays(t);
    if Earlier(s, t) { EarlierIsLess(s, t); }
    if Earlier(t, s) { EarlierIsLess(t, s); }
  }

  lemma EarlierIsLess(s: Date, t: Date)
    requires Real(s) && Real(t) && Earlier(s, t)
    ensures DayNumber(s) < DayNumber(t)
  {
    hide DaysToYear, DaysToMonth, DaysInMonth;
    if s.year < t.year {
      WithinYear(s);
      WithinYear(t);
      YearsMonotone(s.year + 1, t.year);
    } else if s.month < t.month {
      MonthsMonotone(s.year, s.month, t.month);
    }
  }

  lemma {:induction false} AfterNumber(n: nat)
    ensures DaysFromCivil(After(n)) == n
  {
    FormulaCountsDays(After(n));
    if n == 0 {
    } else {
      AfterNumber(n - 1);
      FormulaCountsDays(After(n - 1));
      ConsecutiveDays(After(n - 1));
    }
  }

  /** The formula gives n exactly for the date n days of counting after 1 January 1970. */
  lemma DayByDay(t: Date, n: nat)
    requires Real(t)
    ensures DaysFromCivil(t) == n <==> t == After(n)
  {
    AfterNumber(n);
    if DaysFromCivil(t) == n {
      hide DaysFromCivil, After;
      StrictlyIncreasing(t, After(n));
      StrictlyIncreasing(After(n), t);
    }
  }

  // ---------------------------------------------------------------------------
  // The timestamp parser

  /** The k-th piece of split(sep). */
  function Piece(s: Bytes, sep: byte, k: nat): Option<Bytes>
    decreases k
  {
    var i := FirstOf(s, sep);
    if k == 0 then Some(s[..i]) else if i < |s| then Piece(s[i + 1..], sep, k - 1) else None
  }

  /** str::parse::<i64>: an optional sign, digits, and a value that fits. */
  function ParseI64(s: Bytes): Option<int> {
    var signed := |s| > 0 && (s[0] == 43 || s[0] == 45);
    var body := if signed then s[1..] else s;
    if !AllDigits(body) then None
    else
      var n: int := DigitsValue(body);
      var v: int := if signed && s[0] == 45 then -n else n;
      if -TWO_63 <= v < TWO_63 then Some(v) else None
  }

  function Number3(s: Bytes, sep: byte): Option<(int, int, int)> {
    match (Piece(s, sep, 0), Piece(s, sep, 1), Piece(s, sep, 2))
    case (Some(a), Some(b), Some(c)) =>
      (match (ParseI64(a), ParseI64(b), ParseI64(c))
       case (Some(x), Some(y), Some(z)) => Some((x, y, z))
       case _ => None)
    case _ => None
  }

  /** The six numbers of a timestamp. */
  datatype Stamp = Stamp(date: Date, hh: int, mm: int, ss: int)

  /** The numbers the parser finds: signs are accepted, and pieces after the third of each half are ignored. */
  function Parsed(text: Bytes): Option<Stamp> {
    if |text| == 0 || text[|text| - 1] != 90 then None
    else
      var s := text[..|text| - 1];
      var i := FirstOf(s, 84);
      if i == |s| then None
      else
        match (Number3(s[..i], 45), Number3(Piece(s[i + 1..], 46, 0).value, 58))
        case (Some((y, m, d)), Some((hh, mm, ss))) => Some(Stamp(Date(y, m, d), hh, mm, ss))
        case _ => None
  }

  /** The parser's guards: no lower bound on the clock, and 31 days in every month. */
  predicate InRange(f: Stamp) {
    1 <= f.date.month <= 12 && 1 <= f.date.day <= 31 && f.hh <= 23 && f.mm <= 59 && f.ss <= 60
  }

  function Clock(f: Stamp): int { f.hh * 3600 + f.mm * 60 + f.ss }

  predicate Fits(n: int) { -TWO_63 <= n < TWO_63 }

  /** Every sum, difference and product on the way is an i64. */
  predicate StaysInRange(f: Stamp) {
    var y := if f.date.month <= 2 then f.date.year - 1 else f.date.year;
    var dividend := if y >= 0 then y else y - 399;
    var era := TruncDiv(dividend, 400);
    var yoe := y - era * 400;
    var doe := yoe * 365 + yoe / 4 - yoe / 100 + (153 * ((f.date.month + 9) % 12) + 2) / 5 + f.date.day - 1;
    var days := era * 146097 + doe - 719468;
    && Fits(y) && Fits(dividend) && Fits(era * 400) && Fits(era * 146097) && Fits(era * 146097 + doe)
    && Fits(days * 86400) && Fits(f.hh * 3600) && Fits(f.mm * 60)
    && Fits(days * 86400 + f.hh * 3600) && Fits(days * 86400 + f.hh * 3600 + f.mm * 60)
    && Fits(days * 86400 + Clock(f))
  }

  /** Refused, read as a number of seconds, or arithmetic that leaves the i64 range (a panic, or a wrapped value). */
  datatype Reading = Refused | Overflows | At(seconds: int)

  /** rfc3339_utc_to_unix. */
  function UnixTime(text: Bytes): Reading {
    match Parsed(text)
    case None => Refused
    case Some(f) =>
      if !InRange(f) then Refused
      else if !StaysInRange(f) then Overflows
      else At(DaysFromCivil(f.date) * 86400 + Clock(f))
  }

  /** Four-digit years and clock fields of a few digits are far from the limits. */
  lemma SmallStaysInRange(f: Stamp)
    requires InRange(f) && 0 <= f.date.year < 10000 && -100 < f.hh && -100 < f.mm && -100 < f.ss
    ensures StaysInRange(f)
  {
    var y := if f.date.month <= 2 then f.date.year - 1 else f.date.year;
    EraIsFloor(y);
    hide TruncDiv;
    var era := y / 400;
    assert -1 <= era <= 24 && 0 <= y - era * 400 < 400;
  }

  lemma PieceOfJoin(a: Bytes, sep: byte, b: Bytes, k: nat)
    requires sep !in a
    ensures Piece(a + [sep] + b, sep, 0) == Some(a) && Piece(a, sep, 0) == Some(a)
    ensures Piece(a + [sep] + b, sep, k + 1) == Piece(b, sep, k)
  {
    FirstOfJoin(a, sep, b);
    assert (a + [sep] + b)[..|a|] == a && (a + [sep] + b)[|a| + 1..] == b && a[..|a|] == a;
  }

  lemma Number3OfJoin(a: Bytes, b: Bytes, c: Bytes, sep: byte, x: int, y: int, z: int)
    requires sep !in a && sep !in b && sep !in c
    requires ParseI64(a) == Some(x) && ParseI64(b) == Some(y) && ParseI64(c) == Some(z)
    ensures Number3(a + [sep] + (b + [sep] + c), sep) == Some((x, y, z))
  {
    hide Piece, ParseI64;
    PieceOfJoin(a, sep, b + [sep] + c, 0);
    PieceOfJoin(a, sep, b + [sep] + c, 1);
    PieceOfJoin(b, sep, c, 0);
    PieceOfJoin(c, sep, [], 0);
  }

  lemma ParsesPadded(n: nat, width: nat)
    requires 1 <= width && n < Pow(10, width) && n < TWO_63
    ensures ParseI64(Padded(n, width)) == Some(n)
  {
    hide Pow, Padded, DigitsValue;
    PaddedValue(n, width);
    assert 48 <= Padded(n, width)[0] <= 57;
  }

  function DateText(t: Date): Bytes
    requires t.year >= 0 && t.month >= 0 && t.day >= 0
  {
    Padded(t.year, 4) + [45] + (Padded(t.month, 2) + [45] + Padded(t.day, 2))
  }

  function ClockText(hh: nat, mm: nat, ss: nat): Bytes {
    Padded(hh, 2) + [58] + (Padded(mm, 2) + [58] + Padded(ss, 2))
  }

  /** The node's timestamp format, YYYY-MM-DDTHH:MM:SS, an optional fraction, Z. */
  function Rfc3339(t: Date, hh: nat, mm: nat, ss: nat, fraction: Bytes): Bytes
    requires t.year >= 0 && t.month >= 0 && t.day >= 0
  {
    DateText(t) + [84] + (ClockText(hh, mm, ss) + fraction) + [90]
  }

  lemma SmallPowers()
    ensures Pow(10, 2) == 100 && Pow(10, 4) == 10000
  {
  }

  /** What is found in a text already cut at T and before the fraction. */
  lemma ParsedParts(date: Bytes, clock: Bytes, fraction: Bytes, f: Stamp)
    requires 84 !in date && 46 !in clock && (fraction == [] || fraction[0] == 46)
    requires Number3(date, 45) == Some((f.date.year, f.date.month, f.date.day))
    requires Number3(clock, 58) == Some((f.hh, f.mm, f.ss))
    ensures Parsed(date + [84] + (clock + fraction) + [90]) == Some(f)
  {
    hide Number3, FirstOf, Piece;
    var text, s := date + [84] + (clock + fraction) + [90], date + [84] + (clock + fraction);
    assert text[|text| - 1] == 90 && text[..|text| - 1] == s;
    FirstOfJoin(date, 84, clock + fraction);
    assert s[..|date|] == date && s[|date| + 1..] == clock + fraction;
    ClockPiece(clock, fraction);
  }

  lemma NotInJoin(a: Bytes, b: Bytes, c: Bytes, sep: byte, x: byte)
    requires AllDigits(a) && AllDigits(b) && AllDigits(c) && x != sep && !(48 <= x <= 57)
    ensures x !in a + [sep] + (b + [sep] + c)
  {
    assert x !in a && x !in b && x !in c;
    assert x !in b + [sep] + c;
  }

  lemma ParsesFormat(t: Date, hh: nat, mm: nat, ss: nat, fraction: Bytes)
    requires 0 <= t.year < 10000 && 0 <= t.month < 100 && 0 <= t.day < 100 && hh < 100 && mm < 100 && ss < 100
    requires fraction == [] || fraction[0] == 46
    ensures Parsed(Rfc3339(t, hh, mm, ss, fraction)) == Some(Stamp(t, hh, mm, ss))
  {
    hide *;
    DateAndClock(t, hh, mm, ss);
    ParsedParts(DateText(t), ClockText(hh, mm, ss), fraction, Stamp(t, hh, mm, ss));
    Rfc3339Is(t, hh, mm, ss, fraction);
  }

  /**
   * Every text of that format, whatever its digits, is read as its day count and clock time, the fraction
   * dropped, if and only if the month is 1 to 12, the day 1 to 31, the hour at most 23, the minute at most 59
   * and the second at most 60; otherwise it is refused.
   */
  lemma ReadsTimestamp(t: Date, hh: nat, mm: nat, ss: nat, fraction: Bytes)
    requires 0 <= t.year < 10000 && 0 <= t.month < 100 && 0 <= t.day < 100 && hh < 100 && mm < 100 && ss < 100
    requires fraction == [] || fraction[0] == 46
    ensures UnixTime(Rfc3339(t, hh, mm, ss, fraction))
         == if 1 <= t.month <= 12 && 1 <= t.day <= 31 && hh <= 23 && mm <= 59 && ss <= 60
            then At(DayNumber(t) * 86400 + hh * 3600 + mm * 60 + ss) else Refused
  {
    hide Parsed, Rfc3339, DayNumber, DaysFromCivil, StaysInRange;
    ParsesFormat(t, hh, mm, ss, fraction);
    if InRange(Stamp(t, hh, mm, ss)) {
      FormulaCountsDays(t);
      SmallStaysInRange(Stamp(t, hh, mm, ss));
    }
  }

  /** Whether a number of seconds shows exactly the six numbers of a stamp, on a real date. */
  predicate Shows(v: int, f: Stamp) {
    && Real(f.date) && v / 86400 == DayNumber(f.date)
    && v % 86400 / 3600 == f.hh && v % 3600 / 60 == f.mm && v % 60 == f.ss
  }

  lemma ClockDigits(day: int, h: int, m: int, sec: int)
    requires 0 <= h <= 23 && 0 <= m <= 59 && 0 <= sec <= 59
    ensures var v := day * 86400 + (h * 3600 + m * 60 + sec);
            v / 86400 == day && v % 86400 / 3600 == h && v % 3600 / 60 == m && v % 60 == sec
  {
    var c := h * 3600 + m * 60 + sec;
    var v := day * 86400 + c;
    DivModUnique(day, 86400, c);
    DivModUnique(h, 3600, m * 60 + sec);
    DivModUnique(day * 24 + h, 3600, m * 60 + sec);
    DivModUnique(m, 60, sec);
    DivModUnique(day * 1440 + h * 60 + m, 60, sec);
    assert v == (day * 24 + h) * 3600 + (m * 60 + sec) == (day * 1440 + h * 60 + m) * 60 + sec;
  }

  /**
   * Whatever text is read, the result shows the numbers read from it if and only if the date is real, no
   * clock field is negative and the second is below 60.
   */
  lemma ShowsWhatWasRead(text: Bytes)
    requires UnixTime(text).At?
    ensures var f := Parsed(text).value;
            Shows(UnixTime(text).seconds, f) <==> Real(f.date) && f.hh >= 0 && f.mm >= 0 && 0 <= f.ss <= 59
  {
    hide Parsed, DayNumber, DaysFromCivil, Real, StaysInRange;
    var f, v := Parsed(text).value, UnixTime(text).seconds;
    FormulaCountsDays(f.date);
    if f.hh >= 0 && f.mm >= 0 && 0 <= f.ss <= 59 { ClockDigits(DayNumber(f.date), f.hh, f.mm, f.ss); }
  }

  /**
   * Whatever text is read, the result lies in the named day if and only if the clock comes to a second of
   * the day; without negative fields, that fails for 23:59:60 only.
   */
  lemma LiesInNamedDay(text: Bytes)
    requires UnixTime(text).At?
    ensures var f := Parsed(text).value;
            var inDay := UnixTime(text).seconds / 86400 == DayNumber(f.date);
            && (inDay <==> 0 <= Clock(f) < 86400)
            && (f.hh >= 0 && f.mm >= 0 && f.ss >= 0 ==> (inDay <==> !(f.hh == 23 && f.mm == 59 && f.ss == 60)))
  {
    hide Parsed, DayNumber, DaysFromCivil, StaysInRange;
    var f, v := Parsed(text).value, UnixTime(text).seconds;
    FormulaCountsDays(f.date);
    WithinDay(DayNumber(f.date), Clock(f));
  }

  lemma WithinDay(day: int, c: int)
    ensures (day * 86400 + c) / 86400 == day <==> 0 <= c < 86400
  {
    var v := day * 86400 + c;
    assert v == v / 86400 * 86400 + v % 86400;
    if 0 <= c < 86400 { DivModUnique(day, 86400, c); }
  }

  /** A clock text such as "-1:00:00". */
  function MinusHours(n: nat): Bytes { ([45] + Text(n)) + [58] + (Padded(0, 2) + [58] + Padded(0, 2)) }

  function MinusText(t: Date, n: nat): Bytes
    requires t.year >= 0 && t.month >= 0 && t.day >= 0
  {
    DateText(t) + [84] + MinusHours(n) + [90]
  }

  lemma ParsesMinus(n: int)
    requires 1 <= n < TWO_63
    ensures ParseI64([45] + Text(n)) == Some(-n) && 58 !in [45] + Text(n) && 46 !in [45] + Text(n)
  {
    hide Text, DigitsValue;
    TextValue(n);
    var s := [45] + Text(n);
    assert s[1..] == Text(n);
    assert 58 !in Text(n) && 46 !in Text(n);
  }

  lemma ParsesMinusHours(n: int)
    requires 1 <= n < TWO_63
    ensures Number3(MinusHours(n), 58) == Some((-n, 0, 0)) && 46 !in MinusHours(n)
  {
    hide ParseI64, Padded, Number3, Pow, Text;
    SmallPowers();
    ParsesPadded(0, 2);
    ParsesMinus(n);
    var zero := Padded(0, 2);
    assert 58 !in zero && 46 !in zero;
    Number3OfJoin([45] + Text(n), zero, zero, 58, -n, 0, 0);
    assert 46 !in zero + [58] + zero;
  }

  /**
   * A sign is taken as part of a clock field: "1970-01-01T-1:00:00Z" is accepted, like every such hour of
   * every day, and lies in the day before the one it names.
   */
  lemma NegativeHourAccepted(t: Date, n: int)
    requires 0 <= t.year < 10000 && 1 <= t.month <= 12 && 1 <= t.day <= 31 && 1 <= n <= 24
    ensures Parsed(MinusText(t, n)) == Some(Stamp(t, -n, 0, 0))
    ensures UnixTime(MinusText(t, n)) == At(DayNumber(t) * 86400 - n * 3600)
    ensures (DayNumber(t) * 86400 - n * 3600) / 86400 == DayNumber(t) - 1
  {
    hide ParseI64, Padded, Number3, Pow, DateText, MinusHours, Parsed, DaysFromCivil, DayNumber, Text,
      StaysInRange;
    DateAndClock(t, 0, 0, 0);
    assert MinusHours(n) + [] == MinusHours(n);
    ParsesMinusHours(n);
    ParsedParts(DateText(t), MinusHours(n), [], Stamp(t, -n, 0, 0));
    SmallStaysInRange(Stamp(t, -n, 0, 0));
    FormulaCountsDays(t);
    DivModUnique(DayNumber(t) - 1, 86400, 86400 - n * 3600);
  }

  lemma Rfc3339Is(t: Date, hh: nat, mm: nat, ss: nat, fraction: Bytes)
    requires t.year >= 0 && t.month >= 0 && t.day >= 0
    ensures Rfc3339(t, hh, mm, ss, fraction) == DateText(t) + [84] + (ClockText(hh, mm, ss) + fraction) + [90]
  {
  }

  lemma ClockPiece(clock: Bytes, fraction: Bytes)
    requires 46 !in clock && (fraction == [] || fraction[0] == 46)
    ensures Piece(clock + fraction, 46, 0) == Some(clock)
  {
    hide Piece;
    if fraction == [] {
      assert clock + fraction == clock;
      PieceOfJoin(clock, 46, [], 0);
    } else {
      assert clock + fraction == clock + [46] + fraction[1..];
      PieceOfJoin(clock, 46, fraction[1..], 0);
    }
  }

  lemma DateAndClock(t: Date, hh: nat, mm: nat, ss: nat)
    requires 0 <= t.year < 10000 && 0 <= t.month < 100 && 0 <= t.day < 100 && hh < 100 && mm < 100 && ss < 100
    ensures Number3(DateText(t), 45) == Some((t.year, t.month, t.day)) && 84 !in DateText(t)
    ensures Number3(ClockText(hh, mm, ss), 58) == Some((hh, mm, ss)) && 46 !in ClockText(hh, mm, ss)
  {
    hide Number3, Padded, ParseI64, Pow;
    SmallPowers();
    ParsesPadded(t.year, 4);
    ParsesPadded(t.month, 2);
    ParsesPadded(t.day, 2);
    ParsesPadded(hh, 2);
    ParsesPadded(mm, 2);
    ParsesPadded(ss, 2);
    Number3OfJoin(Padded(t.year, 4), Padded(t.month, 2), Padded(t.day, 2), 45, t.year, t.month, t.day);
    Number3OfJoin(Padded(hh, 2), Padded(mm, 2), Padded(ss, 2), 58, hh, mm, ss);
    NotInJoin(Padded(t.year, 4), Padded(t.month, 2), Padded(t.day, 2), 45, 84);
    NotInJoin(Padded(hh, 2), Padded(mm, 2), Padded(ss, 2), 58, 46);
  }

  lemma Carried(t: Date) returns (u: Date)
    requires 1 <= t.month <= 12 && 1 <= t.day <= 31 && !Real(t)
    ensures t.month < 12 && u == Date(t.year, t.month + 1, t.day - DaysInMonth(t.year, t.month))
    ensures Real(u) && DayNumber(u) == DayNumber(t)
  {
    hide IsLeap;
    u := Date(t.year, t.month + 1, t.day - DaysInMonth(t.year, t.month));
    hide DaysToYear;
  }

  /**
   * The parser checks days against 31 only: a day past the month's end is not refused but read as the day
   * that many days into the next month, 31 February as 2 or 3 March.
   */
  lemma OverlongMonthCarries(t: Date, hh: nat, mm: nat, ss: nat, fraction: Bytes)
    requires 0 <= t.year < 10000 && 1 <= t.month <= 12 && 1 <= t.day <= 31 && !Real(t)
    requires hh <= 23 && mm <= 59 && ss <= 60 && (fraction == [] || fraction[0] == 46)
    ensures t.month < 12
    ensures var u := Date(t.year, t.month + 1, t.day - DaysInMonth(t.year, t.month));
            && Real(u) && UnixTime(Rfc3339(t, hh, mm, ss, fraction)).At?
            && UnixTime(Rfc3339(t, hh, mm, ss, fraction)) == UnixTime(Rfc3339(u, hh, mm, ss, fraction))
  {
    hide UnixTime, Rfc3339, DayNumber;
    var u := Carried(t);
    ReadsTimestamp(t, hh, mm, ss, fraction);
    ReadsTimestamp(u, hh, mm, ss, fraction);
  }

  // ---------------------------------------------------------------------------
  // What is read at all

  /** A number is digits, with or without one sign in front, whose value is an i64. */
  lemma ParsesExactly(s: Bytes, v: int)
    ensures ParseI64(s) == Some(v)
       <==> && Fits(v)
            && (|| (AllDigits(s) && v == DigitsValue(s))
                || (exists d: Bytes :: AllDigits(d) && s == Ascii("+") + d && v == DigitsValue(d))
                || (exists d: Bytes :: AllDigits(d) && s == Ascii("-") + d && v == 0 - DigitsValue(d)))
  {
    hide DigitsValue;
    assert Ascii("+") == [43] && Ascii("-") == [45];
    hide Ascii;
    if |s| > 0 {
      assert s == [s[0]] + s[1..];
      assert forall c: byte, d: Bytes :: s == [c] + d ==> c == s[0] && d == s[1..] by {
        forall c: byte, d: Bytes | s == [c] + d ensures c == s[0] && d == s[1..] {
          assert ([c] + d)[1..] == d;
        }
      }
    }
  }

  /** Three numbers are read from the first three pieces, and whatever follows a third separator is ignored. */
  lemma ExtraPiecesIgnored(a: Bytes, b: Bytes, c: Bytes, rest: Bytes, sep: byte)
    requires sep !in a && sep !in b && sep !in c
    ensures Number3(a + [sep] + (b + [sep] + (c + [sep] + rest)), sep) == Number3(a + [sep] + (b + [sep] + c), sep)
  {
    hide Piece, ParseI64;
    var end := c + [sep] + rest;
    PieceOfJoin(a, sep, b + [sep] + end, 0);
    PieceOfJoin(a, sep, b + [sep] + end, 1);
    PieceOfJoin(b, sep, end, 0);
    PieceOfJoin(c, sep, rest, 0);
    PieceOfJoin(a, sep, b + [sep] + c, 0);
    PieceOfJoin(a, sep, b + [sep] + c, 1);
    PieceOfJoin(b, sep, c, 0);
    PieceOfJoin(c, sep, [], 0);
  }

  /** A text without a Z at the end, or without a T, is refused. */
  lemma NeedsMarks(text: Bytes)
    requires |text| == 0 || text[|text| - 1] != Ascii("Z")[0] || Ascii("T")[0] !in text
    ensures UnixTime(text) == Refused
  {
    hide Number3, Piece, StaysInRange, DaysFromCivil;
    assert Ascii("Z")[0] == 90 && Ascii("T")[0] == 84;
    hide Ascii;
    if |text| > 0 {
      var s := text[..|text| - 1];
      var i := FirstOf(s, 84);
      assert i < |s| ==> s[i] in text;
    }
  }
}
