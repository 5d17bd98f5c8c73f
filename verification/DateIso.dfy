/** The ISO form of a time, written and read back (section 21.4.1.32 of ECMA-262; jsrt_date.c). */
module DateIso {
  import opened DateCalendar
  import opened DateTime
  import opened Decimal

  // ---------------------------------------------------------------- digits

  function DigitChar(n: nat): char
    requires n < 10
  {
    '0' + (n as char)
  }

  predicate IsDigit(c: char) { '0' <= c <= '9' }

  function DigitOf(c: char): (n: nat)
    requires IsDigit(c)
    ensures n < 10
  {
    c as nat - '0' as nat
  }

  /** The `w` last decimal digits of `n`, leading zeros and all. */
  function Digits(n: nat, w: nat): (s: string)
    ensures |s| == w && AllDigits(s)
  {
    if w == 0 then "" else Digits(n / 10, w - 1) + [DigitChar(n % 10)]
  }

  predicate AllDigits(s: string) { forall i :: 0 <= i < |s| ==> IsDigit(s[i]) }

  function ValueOf(s: string): (n: nat)
    requires AllDigits(s)
  {
    if s == "" then 0 else ValueOf(s[..|s| - 1]) * 10 + DigitOf(s[|s| - 1])
  }

  /** Digits that are enough give the number back. */
  lemma {:induction false} DigitsValue(n: nat, w: nat)
    requires n < Pow10(w)
    ensures ValueOf(Digits(n, w)) == n
  {
    if w > 0 {
      DigitsValue(n / 10, w - 1);
      assert Digits(n, w)[..w - 1] == Digits(n / 10, w - 1);
    }
  }

  // ---------------------------------------------------------------- writing

  /** Four digits for a year from 0 to 9999, else a sign and six. */
  function YearText(y: int): string {
    if 0 <= y <= 9999 then Digits(y, 4)
    else [if y < 0 then '-' else '+'] + Digits(if y < 0 then -y else y, 6)
  }

  function DateText(month: nat, day: nat): (s: string)
    ensures |s| == 6
  {
    "-" + Digits(month, 2) + "-" + Digits(day, 2)
  }

  function ClockText(hour: nat, minute: nat): (s: string)
    ensures |s| == 6
  {
    "T" + Digits(hour, 2) + ":" + Digits(minute, 2)
  }

  function SecondsText(second: nat, milli: nat): (s: string)
    ensures |s| == 8
  {
    ":" + Digits(second, 2) + "." + Digits(milli, 3) + "Z"
  }

  lemma PartsInRange(t: int)
    ensures var p := Parts(Whole(t));
      && (forall i :: 0 <= i < 8 ==> p[i].Whole?)
      && 0 <= p[1].n < 12 && 1 <= p[2].n <= 31 && 0 <= p[3].n < 7
      && 0 <= p[4].n < 24 && 0 <= p[5].n < 60 && 0 <= p[6].n < 60 && 0 <= p[7].n < 1000
  {
    hide CivilFromDays;
    DaysRoundTrip(t / MS_PER_DAY);
  }

  /** `write_iso`. */
  function IsoText(t: int): string {
    PartsInRange(t);
    var p := Parts(Whole(t));
    YearText(p[0].n) + DateText(p[1].n + 1, p[2].n) + ClockText(p[4].n, p[5].n) + SecondsText(p[6].n, p[7].n)
  }

  // ---------------------------------------------------------------- reading

  datatype YearPart = NoYear | YearPart(year: int, end: nat)
  datatype DatePart = NoDate | DatePart(month: nat, day: nat, end: nat)
  datatype ClockPart = NoClock | ClockPart(hour: nat, minute: nat, second: nat, milli: nat, fraction: bool, present: bool, end: nat)
  datatype ZonePart = NoZone | ZonePart(offset: int, end: nat)

  predicate DigitsAt(s: string, i: nat, w: nat) { i + w <= |s| && AllDigits(s[i..i + w]) }

  function ReadYear(s: string): (r: YearPart)
    ensures r.YearPart? ==> r.end <= |s|
  {
    if |s| >= 7 && (s[0] == '+' || s[0] == '-') then
      if !DigitsAt(s, 1, 6) then NoYear
      else
        var year: int := ValueOf(s[1..7]);
        YearPart(if s[0] == '-' then -year else year, 7)
    else if DigitsAt(s, 0, 4) then YearPart(ValueOf(s[0..4]), 4)
    else NoYear
  }

  function ReadDate(s: string, i: nat): (r: DatePart)
    requires i <= |s|
    ensures r.DatePart? ==> i <= r.end <= |s| && 1 <= r.month <= 12 && 1 <= r.day <= 31
  {
    if i + 3 <= |s| && s[i] == '-' then
      if !DigitsAt(s, i + 1, 2) then NoDate
      else if i + 6 <= |s| && s[i + 3] == '-' then
        if !DigitsAt(s, i + 4, 2) then NoDate else CheckDate(ValueOf(s[i + 1..i + 3]), ValueOf(s[i + 4..i + 6]), i + 6)
      else CheckDate(ValueOf(s[i + 1..i + 3]), 1, i + 3)
    else CheckDate(1, 1, i)
  }

  function CheckDate(month: nat, day: nat, end: nat): DatePart {
    if month < 1 || month > 12 || day < 1 || day > 31 then NoDate else DatePart(month, day, end)
  }

  function DigitRun(s: string, i: nat): (r: nat)
    ensures i <= r && (i <= |s| ==> r <= |s|)
    ensures r <= |s| ==> AllDigits(s[i..r])
    decreases |s| - i
  {
    if i < |s| && IsDigit(s[i]) then DigitRun(s, i + 1) else i
  }

  /** The milliseconds of a fraction: its first three digits, as many as there are. */
  function Millis(f: string): nat
    requires AllDigits(f)
  {
    if |f| == 1 then ValueOf(f) * 100 else if |f| == 2 then ValueOf(f) * 10 else ValueOf(if |f| > 3 then f[..3] else f)
  }

  function ReadClock(s: string, i: nat): (r: ClockPart)
    requires i <= |s|
    ensures r.ClockPart? ==> i <= r.end <= |s|
  {
    if i < |s| && (s[i] == 'T' || s[i] == 't') then
      if i + 6 > |s| || !DigitsAt(s, i + 1, 2) || s[i + 3] != ':' || !DigitsAt(s, i + 4, 2) then NoClock
      else
        var hour, minute := ValueOf(s[i + 1..i + 3]), ValueOf(s[i + 4..i + 6]);
        if i + 9 <= |s| && s[i + 6] == ':' then
          if !DigitsAt(s, i + 7, 2) then NoClock
          else ReadFraction(s, i + 9, hour, minute, ValueOf(s[i + 7..i + 9]))
        else ClockPart(hour, minute, 0, 0, false, true, i + 6)
    else ClockPart(0, 0, 0, 0, false, false, i)
  }

  function ReadFraction(s: string, i: nat, hour: nat, minute: nat, second: nat): (r: ClockPart)
    requires i <= |s|
    ensures r.ClockPart? ==> i <= r.end <= |s|
  {
    if i + 2 <= |s| && s[i] == '.' then
      var j := DigitRun(s, i + 1);
      var f := s[i + 1..j];
      if f == "" then NoClock else ClockPart(hour, minute, second, Millis(f), exists k :: 0 <= k < |f| && f[k] != '0', true, j)
    else ClockPart(hour, minute, second, 0, false, true, i)
  }

  function ReadZone(s: string, i: nat, clock: bool): ZonePart
    requires i <= |s|
  {
    if i < |s| && (s[i] == 'Z' || s[i] == 'z') then ZonePart(0, i + 1)
    else if i < |s| && (s[i] == '+' || s[i] == '-') then
      if i + 6 <= |s| && DigitsAt(s, i + 1, 2) && s[i + 3] == ':' && DigitsAt(s, i + 4, 2) then
        CheckZone(s[i] == '-', ValueOf(s[i + 1..i + 3]), ValueOf(s[i + 4..i + 6]), i + 6)
      else if i + 5 <= |s| && DigitsAt(s, i + 1, 2) && DigitsAt(s, i + 3, 2) then
        CheckZone(s[i] == '-', ValueOf(s[i + 1..i + 3]), ValueOf(s[i + 3..i + 5]), i + 5)
      else NoZone
    else if clock then NoZone
    else ZonePart(0, i)
  }

  function CheckZone(west: bool, hours: nat, minutes: nat, end: nat): ZonePart {
    if hours > 23 || minutes > 59 then NoZone
    else
      var offset: int := hours * MS_PER_HOUR + minutes * MS_PER_MINUTE;
      ZonePart(if west then -offset else offset, end)
  }

  /** Hour 24 is the midnight that ends a day, and only that. */
  predicate ClockOk(c: ClockPart)
    requires c.ClockPart?
  {
    c.hour <= 24 && c.minute <= 59 && c.second <= 59
    && !(c.hour == 24 && (c.minute != 0 || c.second != 0 || c.fraction))
  }

  /** `parse_iso`. */
  function IsoTime(s: string): Num {
    var y := ReadYear(s);
    if y.NoYear? then NaN
    else
      var d := ReadDate(s, y.end);
      if d.NoDate? then NaN
      else
        var c := ReadClock(s, d.end);
        if c.NoClock? then NaN
        else
          var z := ReadZone(s, c.end, c.present);
          if z.NoZone? || z.end != |s| || !ClockOk(c) then NaN
          else
            var t := Built([Whole(y.year), Whole(d.month - 1), Whole(d.day), NaN,
              Whole(c.hour), Whole(c.minute), Whole(c.second), Whole(c.milli)]);
            TimeClip(Whole(t.n - z.offset))
  }

  // ---------------------------------------------------------------- there and back

  /** `w` stands in `s` at `i`. */
  predicate Holds(s: string, i: nat, w: string) { i + |w| <= |s| && s[i..i + |w|] == w }

  lemma HoldsParts(s: string, i: nat, a: string, b: string)
    requires Holds(s, i, a + b)
    ensures Holds(s, i, a) && Holds(s, i + |a|, b)
  {
    var w := s[i..i + |a + b|];
    assert w[..|a|] == a && w[|a|..] == b;
  }

  lemma HoldsChar(s: string, i: nat, c: char, b: string)
    requires Holds(s, i, [c] + b)
    ensures i < |s| && s[i] == c && Holds(s, i + 1, b)
  {
    HoldsParts(s, i, [c], b);
    assert s[i..i + 1][0] == c;
  }

  lemma DateReads(s: string, i: nat, month: nat, day: nat)
    requires Holds(s, i, DateText(month, day)) && 1 <= month <= 12 && 1 <= day <= 31
    ensures i + 6 <= |s| && ReadDate(s, i) == DatePart(month, day, i + 6)
  {
    var m, d := Digits(month, 2), Digits(day, 2);
    assert DateText(month, day) == ['-'] + (m + (['-'] + d));
    HoldsChar(s, i, '-', m + (['-'] + d));
    HoldsParts(s, i + 1, m, ['-'] + d);
    HoldsChar(s, i + 3, '-', d);
    TwoDigits(month);
    TwoDigits(day);
  }

  lemma TwoDigits(n: nat)
    ensures n < 100 ==> ValueOf(Digits(n, 2)) == n
    ensures n < 1000 ==> ValueOf(Digits(n, 3)) == n
  {
    assert Pow10(2) == 100 && Pow10(3) == 1000;
    if n < 100 { DigitsValue(n, 2); }
    if n < 1000 { DigitsValue(n, 3); }
  }

  lemma {:induction false} RunEnds(s: string, i: nat, j: nat)
    requires i <= j <= |s| && AllDigits(s[i..j]) && (j < |s| ==> !IsDigit(s[j]))
    ensures DigitRun(s, i) == j
    decreases j - i
  {
    if i < j {
      assert s[i..j][0] == s[i] && s[i..j][1..] == s[i + 1..j];
      RunEnds(s, i + 1, j);
    }
  }

  lemma ClockHolds(s: string, i: nat, hour: nat, minute: nat)
    requires Holds(s, i, ClockText(hour, minute))
    ensures i + 6 <= |s| && s[i] == 'T' && s[i + 3] == ':'
    ensures Holds(s, i + 1, Digits(hour, 2)) && Holds(s, i + 4, Digits(minute, 2))
  {
    var h, m := Digits(hour, 2), Digits(minute, 2);
    assert ClockText(hour, minute) == ['T'] + (h + ([':'] + m));
    HoldsChar(s, i, 'T', h + ([':'] + m));
    HoldsParts(s, i + 1, h, [':'] + m);
    HoldsChar(s, i + 3, ':', m);
  }

  lemma SecondsHold(s: string, i: nat, second: nat, milli: nat)
    requires Holds(s, i, SecondsText(second, milli))
    ensures i + 8 <= |s| && s[i] == ':' && s[i + 3] == '.' && s[i + 7] == 'Z'
    ensures Holds(s, i + 1, Digits(second, 2)) && Holds(s, i + 4, Digits(milli, 3))
  {
    var c, m := Digits(second, 2), Digits(milli, 3);
    assert SecondsText(second, milli) == [':'] + (c + (['.'] + (m + ['Z'])));
    HoldsChar(s, i, ':', c + (['.'] + (m + ['Z'])));
    HoldsParts(s, i + 1, c, ['.'] + (m + ['Z']));
    HoldsChar(s, i + 3, '.', m + ['Z']);
    HoldsParts(s, i + 4, m, ['Z']);
    HoldsChar(s, i + 7, 'Z', []);
  }

  lemma ClockReads(s: string, i: nat, hour: nat, minute: nat, second: nat, milli: nat)
    requires Holds(s, i, ClockText(hour, minute)) && Holds(s, i + 6, SecondsText(second, milli)) && i + 14 == |s|
    requires hour < 24 && minute < 60 && second < 60 && milli < 1000
    ensures var c := ReadClock(s, i);
      && c.ClockPart? && c.present && c.end == i + 13
      && c.hour == hour && c.minute == minute && c.second == second && c.milli == milli
  {
    ClockHolds(s, i, hour, minute);
    SecondsHold(s, i + 6, second, milli);
    TwoDigits(hour);
    TwoDigits(minute);
    TwoDigits(second);
    TwoDigits(milli);
    RunEnds(s, i + 10, i + 13);
  }

  lemma YearReads(s: string, y: int)
    requires Holds(s, 0, YearText(y)) && |s| >= 20 && -1_000_000 < y < 1_000_000
    ensures ReadYear(s) == YearPart(y, |YearText(y)|)
  {
    var w := YearText(y);
    assert Pow10(4) == 10_000 && Pow10(6) == 1_000_000;
    if 0 <= y <= 9999 {
      DigitsValue(y, 4);
      assert s[0] == w[0] by { assert s[0..4][0] == s[0]; }
      assert s[0..4] == w;
    } else {
      DigitsValue(if y < 0 then -y else y, 6);
      HoldsChar(s, 0, w[0], w[1..]);
      assert w == [w[0]] + w[1..];
    }
  }

  lemma YearBound(days: int)
    requires -100_000_000 <= days <= 100_000_000
    ensures -1_000_000 < CivilFromDays(days).year < 1_000_000
  {
    var z := days + 719468;
    YearOfEraIs(z - z / 146097 * 146097);
  }

  lemma ZoneReads(s: string, year: YearPart, d: DatePart, c: ClockPart)
    requires year.YearPart? && ReadYear(s) == year && ReadDate(s, year.end) == d && d.DatePart?
    requires ReadClock(s, d.end) == c && c.ClockPart? && c.end + 1 == |s| && s[c.end] == 'Z' && ClockOk(c)
    ensures var built := Built([Whole(year.year), Whole(d.month - 1), Whole(d.day), NaN,
              Whole(c.hour), Whole(c.minute), Whole(c.second), Whole(c.milli)]);
      IsoTime(s) == TimeClip(Whole(built.n))
  {
    hide ReadYear, ReadDate, ReadClock, DaysFromCivil;
  }

  /** Every time value is read back from its ISO form, signed years included. */
  lemma IsoRoundTrip(t: int)
    requires InRange(t)
    ensures IsoTime(IsoText(t)) == Whole(t)
  {
    hide ReadYear, ReadDate, ReadClock, IsoTime, DaysFromCivil, CivilFromDays, YearText, DateText, ClockText, SecondsText;
    PartsInRange(t);
    var p := Parts(Whole(t));
    var s := IsoText(t);
    var y, d, c, z := YearText(p[0].n), DateText(p[1].n + 1, p[2].n), ClockText(p[4].n, p[5].n), SecondsText(p[6].n, p[7].n);
    YearBound(t / MS_PER_DAY);
    Placed(s, y, d, c, z);
    YearReads(s, p[0].n);
    DateReads(s, |y|, p[1].n + 1, p[2].n);
    ClockReads(s, |y| + 6, p[4].n, p[5].n, p[6].n, p[7].n);
    SecondsHold(s, |y| + 12, p[6].n, p[7].n);
    ZoneReads(s, ReadYear(s), ReadDate(s, |y|), ReadClock(s, |y| + 6));
    FieldsRebuild(t);
    assert Built([p[0], p[1], p[2], NaN, p[4], p[5], p[6], p[7]]) == Built(p);
  }

  lemma Placed(s: string, y: string, d: string, c: string, z: string)
    requires s == y + d + c + z && |d| == 6 && |c| == 6 && |z| == 8
    ensures Holds(s, 0, y) && Holds(s, |y|, d) && Holds(s, |y| + 6, c) && Holds(s, |y| + 12, z)
  {
  }

  // ---------------------------------------------------------------- the form

  /** The `w` digits at `i` are the number, and no more. */
  predicate Shows(s: string, i: nat, w: nat, n: int) { DigitsAt(s, i, w) && ValueOf(s[i..i + w]) == n }

  /** A year, a date and a clock reading, each digit in its place. */
  predicate Form(s: string, y: int, month: int, day: int, hour: int, minute: int, second: int, milli: int) {
    var n := if 0 <= y <= 9999 then 4 else 7;
    && |s| == n + 20
    && (if n == 4 then Shows(s, 0, 4, y) else s[0] == (if y < 0 then '-' else '+') && Shows(s, 1, 6, if y < 0 then -y else y))
    && s[n] == '-' && Shows(s, n + 1, 2, month) && s[n + 3] == '-' && Shows(s, n + 4, 2, day)
    && s[n + 6] == 'T' && Shows(s, n + 7, 2, hour) && s[n + 9] == ':' && Shows(s, n + 10, 2, minute)
    && s[n + 12] == ':' && Shows(s, n + 13, 2, second) && s[n + 15] == '.' && Shows(s, n + 16, 3, milli) && s[n + 19] == 'Z'
  }

  /** What the ISO form looks like: 24 characters exactly for years 0 to 9999, else 27 and a sign; the fields of the
      time in their places, the month counting from one, with upper-case T and Z. */
  lemma IsoForm(t: int)
    requires InRange(t)
    ensures var p := Parts(Whole(t));
      (forall i :: 0 <= i < 8 ==> p[i].Whole?) && Form(IsoText(t), p[0].n, p[1].n + 1, p[2].n, p[4].n, p[5].n, p[6].n, p[7].n)
  {
    PartsInRange(t);
    YearBound(t / MS_PER_DAY);
    var p := Parts(Whole(t));
    assert p[0].n == CivilFromDays(t / MS_PER_DAY).year;
    hide YearText, DateText, ClockText, SecondsText, CivilFromDays, Parts, Form;
    Assembled(p[0].n, p[1].n + 1, p[2].n, p[4].n, p[5].n, p[6].n, p[7].n);
  }

  lemma Assembled(y: int, month: nat, day: nat, hour: nat, minute: nat, second: nat, milli: nat)
    requires -999_999 <= y <= 999_999 && month < 100 && day < 100 && hour < 100 && minute < 100 && second < 100 && milli < 1000
    ensures Form(YearText(y) + DateText(month, day) + ClockText(hour, minute) + SecondsText(second, milli),
                 y, month, day, hour, minute, second, milli)
  {
    YearShape(y);
    DateShape(month, day);
    ClockShape(hour, minute);
    SecondsShape(second, milli);
    var a, b, c, d := YearText(y), DateText(month, day), ClockText(hour, minute), SecondsText(second, milli);
    Placed(a + b + c + d, a, b, c, d);
    hide Shows, YearText, DateText, ClockText, SecondsText, Holds;
    InPlaces(a + b + c + d, a, b, c, d, y, month, day, hour, minute, second, milli);
  }

  lemma InPlaces(s: string, a: string, b: string, c: string, d: string,
                 y: int, month: nat, day: nat, hour: nat, minute: nat, second: nat, milli: nat)
    requires Holds(s, 0, a) && Holds(s, |a|, b) && Holds(s, |a| + 6, c) && Holds(s, |a| + 12, d) && |s| == |a| + 20
    requires |b| == |c| == 6 && |d| == 8
    requires if 0 <= y <= 9999 then |a| == 4 && Shows(a, 0, 4, y)
             else |a| == 7 && a[0] == (if y < 0 then '-' else '+') && Shows(a, 1, 6, if y < 0 then -y else y)
    requires b[0] == '-' && Shows(b, 1, 2, month) && b[3] == '-' && Shows(b, 4, 2, day)
    requires c[0] == 'T' && Shows(c, 1, 2, hour) && c[3] == ':' && Shows(c, 4, 2, minute)
    requires d[0] == ':' && Shows(d, 1, 2, second) && d[3] == '.' && Shows(d, 4, 3, milli) && d[7] == 'Z'
    ensures Form(s, y, month, day, hour, minute, second, milli)
  {
    hide Shows, Holds;
    if |a| == 4 { ShowsIn(s, 0, a, 0, 4, y); } else { ShowsIn(s, 0, a, 1, 6, if y < 0 then -y else y); }
    ShowsIn(s, |a|, b, 1, 2, month);
    ShowsIn(s, |a|, b, 4, 2, day);
    ShowsIn(s, |a| + 6, c, 1, 2, hour);
    ShowsIn(s, |a| + 6, c, 4, 2, minute);
    ShowsIn(s, |a| + 12, d, 1, 2, second);
    ShowsIn(s, |a| + 12, d, 4, 3, milli);
  }

  /** What shows in a part shows at its place in the whole. */
  lemma ShowsIn(s: string, at: nat, part: string, i: nat, w: nat, n: int)
    requires Holds(s, at, part) && Shows(part, i, w, n)
    ensures Shows(s, at + i, w, n) && forall k :: 0 <= k < |part| ==> at + k < |s| && s[at + k] == part[k]
  {
    forall k | 0 <= k < |part| ensures at + k < |s| && s[at + k] == part[k] { assert s[at..at + |part|][k] == part[k]; }
    assert s[at + i..at + i + w] == part[i..i + w];
  }

  lemma TwoShow(n: nat)
    requires n < 100
    ensures AllDigits(Digits(n, 2)) && ValueOf(Digits(n, 2)) == n
  {
    assert Pow10(2) == 100;
    DigitsValue(n, 2);
  }

  lemma YearShape(y: int)
    requires -999_999 <= y <= 999_999
    ensures var s := YearText(y);
      if 0 <= y <= 9999 then |s| == 4 && Shows(s, 0, 4, y)
      else |s| == 7 && s[0] == (if y < 0 then '-' else '+') && Shows(s, 1, 6, if y < 0 then -y else y)
  {
    assert Pow10(4) == 10_000 && Pow10(6) == 1_000_000;
    var s := YearText(y);
    if 0 <= y <= 9999 {
      DigitsValue(y, 4);
      assert s[0..4] == s;
    } else {
      var n: nat := if y < 0 then -y else y;
      DigitsValue(n, 6);
      assert s[1..1 + 6] == Digits(n, 6);
    }
  }

  lemma DateShape(month: nat, day: nat)
    requires month < 100 && day < 100
    ensures var s := DateText(month, day); s[0] == '-' && Shows(s, 1, 2, month) && s[3] == '-' && Shows(s, 4, 2, day)
  {
    var s := DateText(month, day);
    TwoShow(month);
    TwoShow(day);
    assert s[1..1 + 2] == Digits(month, 2) && s[4..4 + 2] == Digits(day, 2);
  }

  lemma ClockShape(hour: nat, minute: nat)
    requires hour < 100 && minute < 100
    ensures var s := ClockText(hour, minute); s[0] == 'T' && Shows(s, 1, 2, hour) && s[3] == ':' && Shows(s, 4, 2, minute)
  {
    var s := ClockText(hour, minute);
    TwoShow(hour);
    TwoShow(minute);
    assert s[1..1 + 2] == Digits(hour, 2) && s[4..4 + 2] == Digits(minute, 2);
  }

  lemma SecondsShape(second: nat, milli: nat)
    requires second < 100 && milli < 1000
    ensures var s := SecondsText(second, milli);
      s[0] == ':' && Shows(s, 1, 2, second) && s[3] == '.' && Shows(s, 4, 3, milli) && s[7] == 'Z'
  {
    var s := SecondsText(second, milli);
    TwoShow(second);
    assert Pow10(3) == 1000;
    DigitsValue(milli, 3);
    assert s[1..1 + 2] == Digits(second, 2) && s[4..4 + 3] == Digits(milli, 3);
  }
}
