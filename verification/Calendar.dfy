/**
  `YYYY-MM-DD HH:MM` from unix milliseconds, checked against a calendar that is only
  ever stepped one day at a time.
 */
module Calendar {
  import CanonicalJson
  import opened CanonicalReader

  datatype Date = Date(year: int, month: int, day: int)

  // ---------------------------------------------------------------------
  // The reference calendar (section 5.7 and Appendix C of RFC 3339)
  // ---------------------------------------------------------------------

  predicate IsLeap(year: int) {
    year % 4 == 0 && (year % 100 != 0 || year % 400 == 0)
  }

  function MonthLength(year: int, month: int): int
    requires 1 <= month <= 12
  {
    if month == 2 then (if IsLeap(year) then 29 else 28)
    else if month == 4 || month == 6 || month == 9 || month == 11 then 30
    else 31
  }

  predicate ValidDate(d: Date) {
    1 <= d.month <= 12 && 1 <= d.day <= MonthLength(d.year, d.month)
  }

  function Tomorrow(d: Date): Date
    requires ValidDate(d)
  {
    if d.day < MonthLength(d.year, d.month) then d.(day := d.day + 1)
    else if d.month < 12 then Date(d.year, d.month + 1, 1)
    else Date(d.year + 1, 1, 1)
  }

  function Yesterday(d: Date): Date
    requires ValidDate(d)
  {
    if d.day > 1 then d.(day := d.day - 1)
    else if d.month > 1 then Date(d.year, d.month - 1, MonthLength(d.year, d.month - 1))
    else Date(d.year - 1, 12, 31)
  }

  lemma StepsUndoEachOther(d: Date)
    requires ValidDate(d)
    ensures ValidDate(Tomorrow(d)) && Yesterday(Tomorrow(d)) == d
    ensures ValidDate(Yesterday(d)) && Tomorrow(Yesterday(d)) == d
  {
  }

  const EPOCH := Date(1970, 1, 1)

  /** The date a number of days from the epoch, stepping forwards or backwards. */
  function DateAfter(days: int): (d: Date)
    ensures ValidDate(d)
    decreases if days < 0 then -days else days
  {
    if days == 0 then EPOCH
    else if days > 0 then Tomorrow(DateAfter(days - 1))
    else Yesterday(DateAfter(days + 1))
  }

  // ---------------------------------------------------------------------
  // The program's arithmetic
  // ---------------------------------------------------------------------

  /** Day counts split into 400-year eras that start on 1 March of year 0. */
  function Era(days: int): int {
    (days + 719_468) / 146_097
  }

  function DayOfEra(days: int): (doe: int)
    ensures 0 <= doe < 146_097
  {
    (days + 719_468) % 146_097
  }

  function YearOfEra(doe: int): int {
    (doe - doe / 1460 + doe / 36_524 - doe / 146_096) / 365
  }

  /** The first day, in the era, of its year `yoe`. */
  function YearStart(yoe: int): int {
    365 * yoe + yoe / 4 - yoe / 100
  }

  function MonthIndex(doy: int): int {
    (5 * doy + 2) / 153
  }

  /** The first day, in a year that starts in March, of its month `mp`. */
  function MonthStart(mp: int): int {
    (153 * mp + 2) / 5
  }

  function CivilFromDays(days: int): Date {
    var doe := DayOfEra(days);
    var yoe := YearOfEra(doe);
    var y := yoe + Era(days) * 400;
    var doy := doe - YearStart(yoe);
    var mp := MonthIndex(doy);
    var d := doy - MonthStart(mp) + 1;
    var mo := if mp < 10 then mp + 3 else mp - 9;
    Date(if mo <= 2 then y + 1 else y, mo, d)
  }

  // ---------------------------------------------------------------------
  // The years and months the divisions pick out
  // ---------------------------------------------------------------------

  /** Days in year yoe of an era: the leap day closes it, so its successor's number decides. */
  function YearLength(yoe: int): int {
    if yoe == 399 || ((yoe + 1) % 4 == 0 && (yoe + 1) % 100 != 0) then 366 else 365
  }

  lemma YearStartSteps(yoe: int)
    requires 0 <= yoe < 399
    ensures YearStart(yoe + 1) == YearStart(yoe) + YearLength(yoe)
  {
    QuotientSteps(yoe, 4);
    QuotientSteps(yoe, 100);
  }

  lemma QuotientSteps(n: nat, k: nat)
    requires k > 0
    ensures (n + 1) / k == n / k + if (n + 1) % k == 0 then 1 else 0
  {
    if n % k == k - 1 {
      QuotientIs(n + 1, k, n / k + 1, 0);
    } else {
      QuotientIs(n + 1, k, n / k, n % k + 1);
    }
  }

  lemma LongYears(c: int, b: int, a: int)
    requires 0 <= c < 4 && 0 <= b < 25 && 0 <= a < 4
    ensures YearLength(100 * c + 4 * b + a) == 365 || YearLength(100 * c + 4 * b + a) == 366
    ensures YearLength(100 * c + 4 * b + a) == 366 ==> a == 3 && (b < 24 || c == 3)
  {
    assert (100 * c + 4 * b + a + 1) % 4 == (a + 1) % 4;
    if a == 3 && b == 24 {
      assert 100 * c + 4 * b + a + 1 == 100 * (c + 1);
    }
  }

  /** The year of the era, found from century, four-year cycle and year in the cycle. */
  lemma YearOfEraFromParts(c: int, b: int, a: int, doy: int)
    requires 0 <= c < 4 && 0 <= b < 25 && 0 <= a < 4
    requires 0 <= doy < YearLength(100 * c + 4 * b + a)
    ensures YearStart(100 * c + 4 * b + a) == 36_524 * c + 1461 * b + 365 * a
    ensures YearOfEra(36_524 * c + 1461 * b + 365 * a + doy) == 100 * c + 4 * b + a
  {
    hide YearLength;
    var y := 100 * c + 4 * b + a;
    assert y / 100 == c && y / 4 == 25 * c + b;
    LongYears(c, b, a);
    var doe := 36_524 * c + 1461 * b + 365 * a + doy;
    var r := 24 * c + b + 365 * a + doy;
    assert doe == 1460 * (25 * c + b) + r;
    Quotient(doe, 1460, 25 * c + b, r);
    if y == 399 && doy == 365 {
      assert doe == 146_096;
    } else {
      assert 1461 * b + 365 * a + doy < 36_524;
      Quotient(doe, 36_524, c, 1461 * b + 365 * a + doy);
    }
  }

  /** Division by a positive constant, one or two multiples at a time. */
  lemma Quotient(n: int, k: int, q: int, r: int)
    requires k > 0 && n == k * q + r && 0 <= r < 2 * k
    ensures n / k == if r < k then q else q + 1
  {
    if r < k {
      QuotientIs(n, k, q, r);
    } else {
      assert k * (q + 1) == k * q + k;
      QuotientIs(n, k, q + 1, r - k);
    }
  }

  lemma QuotientIs(n: int, k: int, q: int, r: int)
    requires k > 0 && n == k * q + r && 0 <= r < k
    ensures n / k == q
  {
    var d := n / k - q;
    assert n == k * (n / k) + n % k;
    assert k * (n / k) - k * q == k * d;
    assert -k < k * d < k;
    assert d >= 1 ==> k * d >= k;
    assert d <= -1 ==> k * d <= -k;
  }

  lemma YearOfEraBounds(doe: int)
    requires 0 <= doe < 146_097
    ensures 0 <= YearOfEra(doe) < 400
    ensures 0 <= doe - YearStart(YearOfEra(doe)) < YearLength(YearOfEra(doe))
  {
    var c := if doe == 146_096 then 3 else doe / 36_524;
    var inCentury := doe - 36_524 * c;
    var b := inCentury / 1461;
    var inCycle := inCentury - 1461 * b;
    var a := if inCycle == 1460 then 3 else inCycle / 365;
    YearOfEraFromParts(c, b, a, inCycle - 365 * a);
  }

  lemma YearOfEraAt(yoe: int, doy: int)
    requires 0 <= yoe < 400 && 0 <= doy < YearLength(yoe)
    ensures YearOfEra(YearStart(yoe) + doy) == yoe
  {
    YearOfEraFromParts(yoe / 100, yoe % 100 / 4, yoe % 4, doy);
    assert yoe % 100 % 4 == yoe % 4;
  }

  lemma LeapYearsAreLong(yoe: int, era: int)
    requires 0 <= yoe < 400
    ensures IsLeap(yoe + 400 * era + 1) <==> YearLength(yoe) == 366
  {
    var y := yoe + 1;
    SameRemainder(y, 4, 100 * era);
    SameRemainder(y, 100, 4 * era);
    SameRemainder(y, 400, era);
  }

  lemma SameRemainder(y: int, k: int, q: int)
    requires k > 0
    ensures (y + k * q) % k == y % k
  {
    assert k * (y / k + q) == k * (y / k) + k * q;
    QuotientIs(y + k * q, k, y / k + q, y % k);
  }

  lemma MonthBounds(doy: int)
    requires 0 <= doy <= 365
    ensures 0 <= MonthIndex(doy) <= 11
    ensures MonthStart(MonthIndex(doy)) <= doy < MonthStart(MonthIndex(doy) + 1)
  {
  }

  lemma MonthStarts()
    ensures MonthStart(0) == 0 && MonthStart(1) == 31 && MonthStart(2) == 61 && MonthStart(3) == 92
    ensures MonthStart(4) == 122 && MonthStart(5) == 153 && MonthStart(6) == 184 && MonthStart(7) == 214
    ensures MonthStart(8) == 245 && MonthStart(9) == 275 && MonthStart(10) == 306 && MonthStart(11) == 337
    ensures MonthStart(12) == 367
  {
  }

  // ---------------------------------------------------------------------
  // One day later
  // ---------------------------------------------------------------------

  /** Day doy of the year that starts on 1 March of year y. */
  function MarchDate(y: int, doy: int): Date {
    var mp := MonthIndex(doy);
    var mo := if mp < 10 then mp + 3 else mp - 9;
    Date(if mo <= 2 then y + 1 else y, mo, doy - MonthStart(mp) + 1)
  }

  lemma MarchDateSteps(y: int, doy: int, length: int)
    requires length == if IsLeap(y + 1) then 366 else 365
    requires 0 <= doy < length
    ensures ValidDate(MarchDate(y, doy))
    ensures Tomorrow(MarchDate(y, doy)) == if doy + 1 < length then MarchDate(y, doy + 1) else MarchDate(y + 1, 0)
  {
    hide MonthStart, MonthIndex;
    MonthStarts();
    MonthBounds(0);
    MonthBounds(doy);
    if doy + 1 < length {
      MonthBounds(doy + 1);
    }
  }

  lemma EraHolds(yoe: int, doy: int)
    requires 0 <= yoe < 400 && 0 <= doy < YearLength(yoe)
    ensures 0 <= YearStart(yoe) + doy < 146_097
  {
  }

  lemma CivilIsMarchDate(era: int, yoe: int, doy: int)
    requires 0 <= yoe < 400 && 0 <= doy < YearLength(yoe)
    ensures var days := 146_097 * era + YearStart(yoe) + doy - 719_468;
            0 <= YearStart(yoe) + doy < 146_097 && CivilFromDays(days) == MarchDate(yoe + 400 * era, doy)
  {
    hide MonthIndex, MonthStart, YearOfEra;
    YearOfEraAt(yoe, doy);
    EraHolds(yoe, doy);
    var doe := YearStart(yoe) + doy;
    hide YearLength;
    var days := 146_097 * era + doe - 719_468;
    QuotientIs(days + 719_468, 146_097, era, doe);
    assert Era(days) == era && DayOfEra(days) == doe;
    hide Era, DayOfEra, YearStart;
  }

  /** The program's date for the next day is the reference calendar's next date. */
  lemma NextDayIsTomorrow(days: int)
    ensures ValidDate(CivilFromDays(days))
    ensures CivilFromDays(days + 1) == Tomorrow(CivilFromDays(days))
  {
    hide CivilFromDays, MarchDate, Tomorrow, YearOfEra, IsLeap, ValidDate;
    var doe, era := DayOfEra(days), Era(days);
    assert days == 146_097 * era + doe - 719_468;
    YearOfEraBounds(doe);
    var yoe := YearOfEra(doe);
    var doy := doe - YearStart(yoe);
    CivilIsMarchDate(era, yoe, doy);
    LeapYearsAreLong(yoe, era);
    MarchDateSteps(yoe + 400 * era, doy, YearLength(yoe));
    if doy + 1 < YearLength(yoe) {
      CivilIsMarchDate(era, yoe, doy + 1);
    } else if yoe < 399 {
      YearStartSteps(yoe);
      CivilIsMarchDate(era, yoe + 1, 0);
    } else {
      CivilIsMarchDate(era + 1, 0, 0);
    }
  }

  /** Every day count, negative ones included, names the date reached by stepping from the epoch. */
  lemma {:induction false} CivilFromDaysIsTheCalendar(days: int)
    ensures CivilFromDays(days) == DateAfter(days)
    decreases if days < 0 then -days else days
  {
    if days == 0 {
      CivilIsMarchDate(4, 369, 306);
      assert MarchDate(1969, 306) == EPOCH;
      return;
    }
    hide CivilFromDays, Tomorrow, Yesterday, ValidDate;
    if days > 0 {
      CivilFromDaysIsTheCalendar(days - 1);
      NextDayIsTomorrow(days - 1);
    } else {
      CivilFromDaysIsTheCalendar(days + 1);
      NextDayIsTomorrow(days);
      StepsUndoEachOther(CivilFromDays(days));
    }
  }

  // ---------------------------------------------------------------------
  // The printed stamp
  // ---------------------------------------------------------------------

  function Zeros(n: int): string {
    if n <= 0 then "" else "0" + Zeros(n - 1)
  }

  /** Zero-padded to a width that counts the sign, which comes first. */
  function Padded(n: int, width: int): string {
    if n < 0 then "-" + Zeros(width - 1 - |CanonicalJson.Decimal(-n)|) + CanonicalJson.Decimal(-n)
    else Zeros(width - |CanonicalJson.Decimal(n)|) + CanonicalJson.Decimal(n)
  }

  function Stamp(d: Date, hour: int, minute: int): string {
    Padded(d.year, 4) + "-" + Padded(d.month, 2) + "-" + Padded(d.day, 2) + " "
    + Padded(hour, 2) + ":" + Padded(minute, 2)
  }

  function YmdHm(ms: int): string {
    var secs := ms / 1000;
    var days := secs / 86_400;
    var rem := secs % 86_400;
    Stamp(CivilFromDays(days), rem / 3600, rem % 3600 / 60)
  }

  /**
    The stamp names the minute that holds the instant: midnight of the calendar's date, plus the
    hours and minutes printed, is at most a minute before it.
   */
  lemma StampNamesTheMinute(ms: int, days: int, hour: int, minute: int, rest: int)
    requires ms == days * 86_400_000 + hour * 3_600_000 + minute * 60_000 + rest
    requires 0 <= hour < 24 && 0 <= minute < 60 && 0 <= rest < 60_000
    ensures YmdHm(ms) == Stamp(DateAfter(days), hour, minute)
  {
    hide CivilFromDays, Stamp, DateAfter;
    var secs := days * 86_400 + hour * 3600 + minute * 60 + rest / 1000;
    QuotientIs(ms, 1000, secs, rest % 1000);
    QuotientIs(secs, 86_400, days, hour * 3600 + minute * 60 + rest / 1000);
    QuotientIs(hour * 3600 + minute * 60 + rest / 1000, 3600, hour, minute * 60 + rest / 1000);
    QuotientIs(minute * 60 + rest / 1000, 60, minute, rest / 1000);
    CivilFromDaysIsTheCalendar(days);
  }

  // ---------------------------------------------------------------------
  // Reading the stamp back
  // ---------------------------------------------------------------------

  /** A number padded with zeros, behind its sign, no longer than it must be. */
  ghost predicate Reads(t: string, n: int, width: nat) {
    && t != "" && (n < 0 <==> t[0] == '-')
    && var ds := if n < 0 then t[1..] else t;
       && ds != "" && (forall i | 0 <= i < |ds| :: IsDigit(ds[i])) && Worth(ds) == (if n < 0 then -n else n)
       && |t| >= width && (|t| > width ==> ds[0] != '0' || |ds| == 1)
  }

  lemma {:induction false} ZeroInFront(ds: string)
    ensures Worth("0" + ds) == Worth(ds)
  {
    if ds == "" {
      assert "0" + ds == "0" && "0"[..0] == "";
    } else {
      var front := ds[..|ds| - 1];
      assert ("0" + ds)[..|"0" + ds| - 1] == "0" + front;
      ZeroInFront(front);
    }
  }

  lemma {:induction false} ZerosInFront(k: int, ds: string)
    requires forall i | 0 <= i < |ds| :: IsDigit(ds[i])
    ensures Worth(Zeros(k) + ds) == Worth(ds)
    ensures forall i | 0 <= i < |Zeros(k) + ds| :: IsDigit((Zeros(k) + ds)[i])
    ensures |Zeros(k)| == if k <= 0 then 0 else k
    decreases k
  {
    if k > 0 {
      ZerosInFront(k - 1, ds);
      assert Zeros(k) + ds == "0" + (Zeros(k - 1) + ds);
      ZeroInFront(Zeros(k - 1) + ds);
    } else {
      assert Zeros(k) + ds == ds;
    }
  }

  lemma PaddedReads(n: int, width: nat)
    requires width > 0
    ensures Reads(Padded(n, width), n, width)
  {
    hide Worth, Zeros, CanonicalJson.Decimal;
    var m := if n < 0 then -n else n;
    var ds := CanonicalJson.Decimal(m);
    var k := (if n < 0 then width - 1 else width) - |ds|;
    DecimalReads(m);
    ZerosInFront(k, ds);
    assert k <= 0 ==> Zeros(k) + ds == ds;
    if n < 0 {
      assert Padded(n, width)[1..] == Zeros(k) + ds;
    }
  }

  /** The printed text, part by part: year, month, day, hour and minute between their separators. */
  ghost predicate IsStamp(t: string, d: Date, hour: int, minute: int) {
    var n := |t| - 12;
    && n >= 4 && Reads(t[..n], d.year, 4)
    && t[n] == '-' && Reads(t[n + 1..n + 3], d.month, 2)
    && t[n + 3] == '-' && Reads(t[n + 4..n + 6], d.day, 2)
    && t[n + 6] == ' ' && Reads(t[n + 7..n + 9], hour, 2)
    && t[n + 9] == ':' && Reads(t[n + 10..], minute, 2)
  }

  lemma TwoDigits(n: int)
    requires 0 <= n < 100
    ensures Reads(Padded(n, 2), n, 2) && |Padded(n, 2)| == 2
  {
    PaddedReads(n, 2);
    assert |CanonicalJson.Decimal(n)| == if n < 10 then 1 else 2;
    ZerosInFront(2 - |CanonicalJson.Decimal(n)|, CanonicalJson.Decimal(n)) by { DecimalReads(n); }
  }

  lemma StampReads(d: Date, hour: int, minute: int)
    requires ValidDate(d) && 0 <= hour < 24 && 0 <= minute < 60
    ensures IsStamp(Stamp(d, hour, minute), d, hour, minute)
  {
    hide Padded, Reads;
    PaddedReads(d.year, 4);
    TwoDigits(d.month);
    TwoDigits(d.day);
    TwoDigits(hour);
    TwoDigits(minute);
    var y, mo, da, h, mi := Padded(d.year, 4), Padded(d.month, 2), Padded(d.day, 2), Padded(hour, 2), Padded(minute, 2);
    var t, n := Stamp(d, hour, minute), |y|;
    assert n >= 4 by { LongEnough(y, d.year); }
    assert |t| == n + 12 && t[..n] == y;
    assert t[n + 1..n + 3] == mo;
    assert t[n + 4..n + 6] == da;
    assert t[n + 7..n + 9] == h;
    assert t[n + 10..] == mi;
  }

  lemma LongEnough(t: string, n: int)
    requires Reads(t, n, 4)
    ensures |t| >= 4
  {
  }

  /** Read back, the stamp of any instant gives its date on the calendar, its hour and its minute. */
  lemma StampReadsBack(ms: int, days: int, hour: int, minute: int, rest: int)
    requires ms == days * 86_400_000 + hour * 3_600_000 + minute * 60_000 + rest
    requires 0 <= hour < 24 && 0 <= minute < 60 && 0 <= rest < 60_000
    ensures IsStamp(YmdHm(ms), DateAfter(days), hour, minute)
  {
    hide YmdHm, Stamp, DateAfter, IsStamp;
    StampNamesTheMinute(ms, days, hour, minute, rest);
    StampReads(DateAfter(days), hour, minute);
  }
}
