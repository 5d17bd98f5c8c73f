/** The date-time strings that are accepted, as a grammar, and what each means (section 21.4.1.32 of ECMA-262, with
    the forms V8 takes besides; jsrt_date.c). */
module DateGrammar {
  import opened DateCalendar
  import opened DateTime
  import opened DateIso
  import opened Decimal
  import NumericModel

  // ---------------------------------------------------------------- the grammar

  datatype YearForm = Four(ds: string) | Six(minus: bool, ds: string)
  datatype DateForm = YearOnly | YearMonth(month: string) | YearMonthDay(month: string, day: string)
  datatype SecondForm = NoSeconds | Seconds(second: string) | Fraction(second: string, f: string)
  datatype ClockForm = NoTime | Time(lower: bool, hour: string, minute: string, rest: SecondForm)
  datatype ZoneForm = NoOffset | Zulu(lower: bool) | Offset(west: bool, colon: bool, hours: string, minutes: string)
  datatype Spelled = Spelled(year: YearForm, date: DateForm, clock: ClockForm, zone: ZoneForm)

  predicate Number(s: string, w: nat, lo: nat, hi: nat) { |s| == w && AllDigits(s) && lo <= ValueOf(s) <= hi }

  predicate GoodYear(y: YearForm) {
    match y
    case Four(ds) => |ds| == 4 && AllDigits(ds)
    case Six(_, ds) => |ds| == 6 && AllDigits(ds)
  }

  predicate GoodDate(d: DateForm) {
    match d
    case YearOnly => true
    case YearMonth(m) => Number(m, 2, 1, 12)
    case YearMonthDay(m, d) => Number(m, 2, 1, 12) && Number(d, 2, 1, 31)
  }

  predicate GoodSeconds(s: SecondForm) {
    match s
    case NoSeconds => true
    case Seconds(c) => Number(c, 2, 0, 59)
    case Fraction(c, f) => Number(c, 2, 0, 59) && f != "" && AllDigits(f)
  }

  /** No second and no fraction of one. */
  predicate OnTheMinute(s: SecondForm)
    requires GoodSeconds(s)
  {
    match s
    case NoSeconds => true
    case Seconds(c) => ValueOf(c) == 0
    case Fraction(c, f) => ValueOf(c) == 0 && ValueOf(f) == 0
  }

  /** Hour 24 is the midnight that ends a day, and only that. */
  predicate GoodClock(c: ClockForm) {
    c.Time? ==>
      && Number(c.hour, 2, 0, 24) && Number(c.minute, 2, 0, 59) && GoodSeconds(c.rest)
      && (ValueOf(c.hour) == 24 ==> ValueOf(c.minute) == 0 && OnTheMinute(c.rest))
  }

  predicate GoodZone(z: ZoneForm) { z.Offset? ==> Number(z.hours, 2, 0, 23) && Number(z.minutes, 2, 0, 59) }

  /** A time needs a zone. A western offset needs a time or a whole date before it: its sign would be read as
      the next hyphen of the date. */
  predicate WellFormed(d: Spelled) {
    && GoodYear(d.year) && GoodDate(d.date) && GoodClock(d.clock) && GoodZone(d.zone)
    && (d.clock.Time? ==> !d.zone.NoOffset?)
    && (d.zone.Offset? && d.zone.west && d.clock.NoTime? ==> d.date.YearMonthDay?)
  }

  // ---------------------------------------------------------------- text

  function SpellYear(y: YearForm): string { if y.Four? then y.ds else [if y.minus then '-' else '+'] + y.ds }

  function SpellDate(d: DateForm): string {
    match d
    case YearOnly => ""
    case YearMonth(m) => "-" + m
    case YearMonthDay(m, d) => "-" + m + ("-" + d)
  }

  function SpellSeconds(s: SecondForm): string {
    match s
    case NoSeconds => ""
    case Seconds(c) => ":" + c
    case Fraction(c, f) => ":" + c + ("." + f)
  }

  function SpellClock(c: ClockForm): string {
    if c.NoTime? then "" else [if c.lower then 't' else 'T'] + c.hour + (":" + c.minute) + SpellSeconds(c.rest)
  }

  function SpellZone(z: ZoneForm): string {
    match z
    case NoOffset => ""
    case Zulu(lower) => [if lower then 'z' else 'Z']
    case Offset(west, colon, h, m) => [if west then '-' else '+'] + h + ((if colon then ":" else "") + m)
  }

  function Text(d: Spelled): string { SpellYear(d.year) + SpellDate(d.date) + SpellClock(d.clock) + SpellZone(d.zone) }

  // ---------------------------------------------------------------- meaning

  function YearOf(y: YearForm): int
    requires GoodYear(y)
  {
    var n: int := ValueOf(y.ds);
    if y.Six? && y.minus then -n else n
  }

  function MonthOf(d: DateForm): nat
    requires GoodDate(d)
  {
    if d.YearOnly? then 1 else ValueOf(d.month)
  }

  function DayOf(d: DateForm): nat
    requires GoodDate(d)
  {
    if d.YearMonthDay? then ValueOf(d.day) else 1
  }

  function SecondOf(s: SecondForm): nat
    requires GoodSeconds(s)
  {
    if s.NoSeconds? then 0 else ValueOf(s.second)
  }

  /** A fraction counts to the millisecond, the rest cut off. */
  function MilliOf(s: SecondForm): nat
    requires GoodSeconds(s)
  {
    if s.Fraction? then ValueOf(s.f) * 1000 / Pow10(|s.f|) else 0
  }

  function ClockTime(c: ClockForm): int
    requires GoodClock(c)
  {
    if c.NoTime? then 0
    else ValueOf(c.hour) * MS_PER_HOUR + ValueOf(c.minute) * MS_PER_MINUTE + SecondOf(c.rest) * MS_PER_SECOND + MilliOf(c.rest)
  }

  function OffsetOf(z: ZoneForm): int
    requires GoodZone(z)
  {
    if !z.Offset? then 0
    else
      var ms := ValueOf(z.hours) * MS_PER_HOUR + ValueOf(z.minutes) * MS_PER_MINUTE;
      if z.west then -ms else ms
  }

  /** The instant: the day of the calendar, a day past its month's end in the next month, the time of day, less
      what the zone is ahead. */
  function Value(d: Spelled): int
    requires WellFormed(d)
  {
    (DaysFromCivil(Civil(YearOf(d.year), MonthOf(d.date), 1)) + DayOf(d.date) - 1) * MS_PER_DAY
      + ClockTime(d.clock) - OffsetOf(d.zone)
  }

  // ---------------------------------------------------------------- pieces of a text

  lemma Piece(s: string, i: nat, a: string, b: string)
    requires Holds(s, i, a + b)
    ensures Holds(s, i, a) && Holds(s, i + |a|, b)
  {
    HoldsParts(s, i, a, b);
  }

  lemma Lead(s: string, i: nat, c: char, b: string)
    requires Holds(s, i, [c] + b)
    ensures i < |s| && s[i] == c && Holds(s, i + 1, b)
  {
    HoldsChar(s, i, c, b);
  }

  lemma Slice(s: string, i: nat, w: string)
    requires Holds(s, i, w) && AllDigits(w)
    ensures DigitsAt(s, i, |w|) && s[i..i + |w|] == w
  {
  }

  lemma Joined(s: string, i: nat, a: string, b: string)
    requires Holds(s, i, a) && Holds(s, i + |a|, b)
    ensures Holds(s, i, a + b)
  {
    assert s[i..i + |a + b|] == s[i..i + |a|] + s[i + |a|..i + |a| + |b|];
  }

  lemma One(s: string, i: nat)
    requires i < |s|
    ensures Holds(s, i, [s[i]])
  {
  }

  // ---------------------------------------------------------------- the year

  lemma YearComplete(s: string, y: YearForm)
    requires GoodYear(y) && Holds(s, 0, SpellYear(y))
    ensures ReadYear(s) == YearPart(YearOf(y), |SpellYear(y)|)
  {
    if y.Four? {
      Slice(s, 0, y.ds);
      assert IsDigit(s[0..4][0]);
    } else {
      Lead(s, 0, if y.minus then '-' else '+', y.ds);
      Slice(s, 1, y.ds);
    }
  }

  lemma YearSound(s: string) returns (y: YearForm)
    requires ReadYear(s).YearPart?
    ensures GoodYear(y) && Holds(s, 0, SpellYear(y)) && ReadYear(s) == YearPart(YearOf(y), |SpellYear(y)|)
  {
    if |s| >= 7 && (s[0] == '+' || s[0] == '-') {
      y := Six(s[0] == '-', s[1..7]);
      One(s, 0);
      Joined(s, 0, [s[0]], s[1..7]);
    } else {
      y := Four(s[0..4]);
    }
  }

  // ---------------------------------------------------------------- the date

  lemma DateComplete(s: string, i: nat, d: DateForm)
    requires GoodDate(d) && Holds(s, i, SpellDate(d))
    requires var end := i + |SpellDate(d)|; !d.YearMonthDay? && end < |s| ==> s[end] != '-'
    ensures i <= |s| && ReadDate(s, i) == DatePart(MonthOf(d), DayOf(d), i + |SpellDate(d)|)
  {
    match d
    case YearOnly =>
    case YearMonth(m) =>
      Lead(s, i, '-', m);
      Slice(s, i + 1, m);
    case YearMonthDay(m, dd) =>
      Piece(s, i, "-" + m, "-" + dd);
      Lead(s, i, '-', m);
      Slice(s, i + 1, m);
      Lead(s, i + 3, '-', dd);
      Slice(s, i + 4, dd);
  }

  lemma DateSound(s: string, i: nat) returns (d: DateForm)
    requires i <= |s| && ReadDate(s, i).DatePart?
    ensures GoodDate(d) && Holds(s, i, SpellDate(d)) && ReadDate(s, i) == DatePart(MonthOf(d), DayOf(d), i + |SpellDate(d)|)
    ensures var end := i + |SpellDate(d)|; !d.YearMonthDay? && end + 3 <= |s| ==> s[end] != '-'
  {
    if i + 3 <= |s| && s[i] == '-' {
      var m := s[i + 1..i + 3];
      One(s, i);
      Joined(s, i, "-", m);
      if i + 6 <= |s| && s[i + 3] == '-' {
        var dd := s[i + 4..i + 6];
        d := YearMonthDay(m, dd);
        One(s, i + 3);
        Joined(s, i + 3, "-", dd);
        Joined(s, i, "-" + m, "-" + dd);
      } else {
        d := YearMonth(m);
      }
    } else {
      d := YearOnly;
    }
  }

  // ---------------------------------------------------------------- the fraction

  lemma {:induction false} ValueJoin(a: string, b: string)
    requires AllDigits(a) && AllDigits(b)
    ensures AllDigits(a + b) && ValueOf(a + b) == ValueOf(a) * Pow10(|b|) + ValueOf(b) && ValueOf(b) < Pow10(|b|)
  {
    if b == "" {
      assert a + b == a;
    } else {
      var n := |b| - 1;
      ValueJoin(a, b[..n]);
      assert (a + b)[..|a + b| - 1] == a + b[..n];
      Shifted(ValueOf(a), Pow10(n), ValueOf(b[..n]));
    }
  }

  lemma Shifted(a: nat, p: nat, v: nat)
    ensures (a * p + v) * 10 == a * (10 * p) + v * 10
  {
  }

  lemma CutOff(v: nat, a: nat, p: nat, b: nat)
    requires v == a * p + b && b < p
    ensures v * 1000 / (1000 * p) == a
  {
    Thousands(a, p);
    NumericModel.UniqueQuotient(v * 1000, 1000 * p, a, b * 1000);
  }

  lemma Thousands(a: nat, p: nat)
    ensures a * p * 1000 == a * (1000 * p)
  {
  }

  /** The first three digits of a fraction are its whole milliseconds. */
  lemma MillisAre(f: string)
    requires f != "" && AllDigits(f)
    ensures Millis(f) == ValueOf(f) * 1000 / Pow10(|f|)
  {
    assert Pow10(1) == 10 && Pow10(2) == 100 && Pow10(3) == 1000;
    if |f| > 3 {
      var a, b := f[..3], f[3..];
      assert f == a + b;
      ValueJoin(a, b);
      Pow10Add(3, |b|);
      CutOff(ValueOf(f), ValueOf(a), Pow10(|b|), ValueOf(b));
    }
  }

  lemma {:induction false} NonzeroWhen(f: string)
    requires AllDigits(f)
    ensures (exists k :: 0 <= k < |f| && f[k] != '0') <==> ValueOf(f) != 0
  {
    if f != "" {
      var n := |f| - 1;
      NonzeroWhen(f[..n]);
      assert forall k :: 0 <= k < n ==> f[..n][k] == f[k];
    }
  }

  // ---------------------------------------------------------------- the clock

  /** What the parser holds after a clock of this form. */
  function PartOf(c: ClockForm, end: nat): ClockPart
    requires GoodClock(c)
  {
    if c.NoTime? then ClockPart(0, 0, 0, 0, false, false, end)
    else ClockPart(ValueOf(c.hour), ValueOf(c.minute), SecondOf(c.rest), MilliOf(c.rest),
                   c.rest.Fraction? && ValueOf(c.rest.f) != 0, true, end)
  }

  /** What follows a clock cannot be read as more of it. */
  predicate ClockEnds(c: ClockForm, s: string, end: nat) {
    end < |s| ==> s[end] != ':' && s[end] != '.' && !IsDigit(s[end]) && (c.NoTime? ==> s[end] != 'T' && s[end] != 't')
  }

  lemma ClockComplete(s: string, i: nat, c: ClockForm)
    requires GoodClock(c) && Holds(s, i, SpellClock(c)) && ClockEnds(c, s, i + |SpellClock(c)|)
    ensures i <= |s| && ReadClock(s, i) == PartOf(c, i + |SpellClock(c)|)
  {
    hide ValueOf, ReadFraction;
    if c.Time? {
      var head, minute := [if c.lower then 't' else 'T'] + c.hour, ":" + c.minute;
      Piece(s, i, head + minute, SpellSeconds(c.rest));
      Piece(s, i, head, minute);
      Lead(s, i, if c.lower then 't' else 'T', c.hour);
      Slice(s, i + 1, c.hour);
      Lead(s, i + 3, ':', c.minute);
      Slice(s, i + 4, c.minute);
      SecondsComplete(s, i + 6, c.rest, ValueOf(c.hour), ValueOf(c.minute));
    }
  }

  lemma SecondsComplete(s: string, i: nat, c: SecondForm, hour: nat, minute: nat)
    requires GoodSeconds(c) && Holds(s, i, SpellSeconds(c))
    requires var end := i + |SpellSeconds(c)|; end < |s| ==> s[end] != ':' && s[end] != '.' && !IsDigit(s[end])
    ensures i <= |s|
    ensures c.NoSeconds? ==> !(i + 3 <= |s| && s[i] == ':')
    ensures !c.NoSeconds? ==>
      && i + 3 <= |s| && s[i] == ':' && DigitsAt(s, i + 1, 2) && ValueOf(s[i + 1..i + 3]) == SecondOf(c)
      && ReadFraction(s, i + 3, hour, minute, SecondOf(c)) == ClockPart(hour, minute, SecondOf(c), MilliOf(c),
           c.Fraction? && ValueOf(c.f) != 0, true, i + |SpellSeconds(c)|)
  {
    match c
    case NoSeconds =>
    case Seconds(n) =>
      Lead(s, i, ':', n);
      Slice(s, i + 1, n);
    case Fraction(n, f) =>
      Piece(s, i, ":" + n, "." + f);
      Lead(s, i, ':', n);
      Slice(s, i + 1, n);
      Lead(s, i + 3, '.', f);
      Slice(s, i + 4, f);
      RunEnds(s, i + 4, i + 4 + |f|);
      MillisAre(f);
      NonzeroWhen(f);
  }

  lemma SecondsSound(s: string, i: nat, hour: nat, minute: nat) returns (c: SecondForm)
    requires i + 3 <= |s| && s[i] == ':' && DigitsAt(s, i + 1, 2) && ValueOf(s[i + 1..i + 3]) <= 59
    requires ReadFraction(s, i + 3, hour, minute, ValueOf(s[i + 1..i + 3])).ClockPart?
    ensures !c.NoSeconds? && GoodSeconds(c) && Holds(s, i, SpellSeconds(c)) && SecondOf(c) == ValueOf(s[i + 1..i + 3])
    ensures ReadFraction(s, i + 3, hour, minute, SecondOf(c)) == ClockPart(hour, minute, SecondOf(c), MilliOf(c),
              c.Fraction? && ValueOf(c.f) != 0, true, i + |SpellSeconds(c)|)
  {
    var n := s[i + 1..i + 3];
    One(s, i);
    Joined(s, i, ":", n);
    if i + 5 <= |s| && s[i + 3] == '.' {
      var j := DigitRun(s, i + 4);
      var f := s[i + 4..j];
      c := Fraction(n, f);
      One(s, i + 3);
      Joined(s, i + 3, ".", f);
      Joined(s, i, ":" + n, "." + f);
      MillisAre(f);
      NonzeroWhen(f);
    } else {
      c := SecondForm.Seconds(n);
    }
  }

  lemma HeadSound(s: string, i: nat)
    requires i + 6 <= |s| && s[i + 3] == ':'
    ensures Holds(s, i, [s[i]] + s[i + 1..i + 3] + (":" + s[i + 4..i + 6]))
  {
    One(s, i);
    Joined(s, i, [s[i]], s[i + 1..i + 3]);
    One(s, i + 3);
    Joined(s, i + 3, ":", s[i + 4..i + 6]);
    hide Holds;
    Joined(s, i, [s[i]] + s[i + 1..i + 3], ":" + s[i + 4..i + 6]);
  }

  lemma ClockSound(s: string, i: nat) returns (c: ClockForm)
    requires i <= |s| && ReadClock(s, i).ClockPart? && ClockOk(ReadClock(s, i))
    ensures GoodClock(c) && Holds(s, i, SpellClock(c)) && ReadClock(s, i) == PartOf(c, i + |SpellClock(c)|)
  {
    if i < |s| && (s[i] == 'T' || s[i] == 't') {
      c := TimeSound(s, i);
    } else {
      c := NoTime;
      Nothing(s, i);
    }
  }

  lemma TimeSound(s: string, i: nat) returns (c: ClockForm)
    requires i < |s| && (s[i] == 'T' || s[i] == 't') && ReadClock(s, i).ClockPart? && ClockOk(ReadClock(s, i))
    ensures c.Time? && GoodClock(c) && Holds(s, i, SpellClock(c)) && ReadClock(s, i) == PartOf(c, i + |SpellClock(c)|)
  {
    hide ReadFraction, ValueOf, DigitRun, Holds, AllDigits, ReadClock;
    ClockHead(s, i);
    var h, m := s[i + 1..i + 3], s[i + 4..i + 6];
    HeadSound(s, i);
    var rest := NoSeconds;
    Nothing(s, i + 6);
    if i + 9 <= |s| && s[i + 6] == ':' {
      FractionKeeps(s, i + 9, ValueOf(h), ValueOf(m), ValueOf(s[i + 7..i + 9]));
      rest := SecondsSound(s, i + 6, ValueOf(h), ValueOf(m));
    }
    Joined(s, i, [s[i]] + h + (":" + m), SpellSeconds(rest));
    c := Time(s[i] == 't', h, m, rest);
    assert SpellClock(c) == [s[i]] + h + (":" + m) + SpellSeconds(rest);
  }

  /** What reading a clock comes to, by whether seconds follow. */
  lemma ClockHead(s: string, i: nat)
    requires i < |s| && (s[i] == 'T' || s[i] == 't') && ReadClock(s, i).ClockPart?
    ensures i + 6 <= |s| && DigitsAt(s, i + 1, 2) && s[i + 3] == ':' && DigitsAt(s, i + 4, 2)
    ensures i + 9 <= |s| && s[i + 6] == ':' ==> DigitsAt(s, i + 7, 2)
    ensures var hour, minute := ValueOf(s[i + 1..i + 3]), ValueOf(s[i + 4..i + 6]);
      ReadClock(s, i) == if i + 9 <= |s| && s[i + 6] == ':' then ReadFraction(s, i + 9, hour, minute, ValueOf(s[i + 7..i + 9]))
                         else ClockPart(hour, minute, 0, 0, false, true, i + 6)
  {
  }

  lemma Nothing(s: string, i: nat)
    requires i <= |s|
    ensures Holds(s, i, "")
  {
  }

  lemma FractionKeeps(s: string, i: nat, hour: nat, minute: nat, second: nat)
    requires i <= |s|
    ensures var c := ReadFraction(s, i, hour, minute, second);
      c.ClockPart? ==> c.hour == hour && c.minute == minute && c.second == second
  {
  }

  // ---------------------------------------------------------------- the zone

  lemma ZoneComplete(s: string, i: nat, z: ZoneForm, clock: bool)
    requires GoodZone(z) && Holds(s, i, SpellZone(z)) && i + |SpellZone(z)| == |s| && (clock ==> !z.NoOffset?)
    ensures ReadZone(s, i, clock) == ZonePart(OffsetOf(z), |s|)
  {
    match z
    case NoOffset =>
    case Zulu(lower) => Lead(s, i, if lower then 'z' else 'Z', "");
    case Offset(west, colon, h, m) => OffsetComplete(s, i, z, clock);
  }

  lemma OffsetComplete(s: string, i: nat, z: ZoneForm, clock: bool)
    requires z.Offset? && GoodZone(z) && Holds(s, i, SpellZone(z)) && i + |SpellZone(z)| == |s|
    ensures ReadZone(s, i, clock) == ZonePart(OffsetOf(z), |s|)
  {
    hide ValueOf, Holds, AllDigits;
    var tail := (if z.colon then ":" else "") + z.minutes;
    assert SpellZone(z) == [if z.west then '-' else '+'] + (z.hours + tail);
    Lead(s, i, if z.west then '-' else '+', z.hours + tail);
    Piece(s, i + 1, z.hours, tail);
    Slice(s, i + 1, z.hours);
    if z.colon {
      Lead(s, i + 3, ':', z.minutes);
      Slice(s, i + 4, z.minutes);
    } else {
      assert tail == z.minutes;
      Slice(s, i + 3, z.minutes);
      assert DigitsAt(s, i + 3, 2) && IsDigit(s[i + 3]) by { FirstDigit(s, i + 3); }
    }
  }

  lemma FirstDigit(s: string, i: nat)
    requires DigitsAt(s, i, 2)
    ensures IsDigit(s[i])
  {
    assert s[i..i + 2][0] == s[i];
  }

  lemma ZoneSound(s: string, i: nat, clock: bool) returns (z: ZoneForm)
    requires i <= |s| && ReadZone(s, i, clock).ZonePart?
    ensures GoodZone(z) && Holds(s, i, SpellZone(z)) && (clock ==> !z.NoOffset?)
    ensures ReadZone(s, i, clock) == ZonePart(OffsetOf(z), i + |SpellZone(z)|)
    ensures z.Offset? && z.west ==> i + 3 <= |s| && s[i] == '-'
  {
    hide Holds, ValueOf;
    if i < |s| && (s[i] == 'Z' || s[i] == 'z') {
      z := Zulu(s[i] == 'z');
      One(s, i);
    } else if i < |s| && (s[i] == '+' || s[i] == '-') {
      var colon := i + 6 <= |s| && DigitsAt(s, i + 1, 2) && s[i + 3] == ':' && DigitsAt(s, i + 4, 2);
      var m := if colon then s[i + 4..i + 6] else s[i + 3..i + 5];
      z := Offset(s[i] == '-', colon, s[i + 1..i + 3], m);
      OffsetText(s, i, colon);
    } else {
      z := NoOffset;
      Nothing(s, i);
    }
  }

  lemma OffsetText(s: string, i: nat, colon: bool)
    requires if colon then i + 6 <= |s| && s[i + 3] == ':' else i + 5 <= |s|
    ensures Holds(s, i, [s[i]] + s[i + 1..i + 3] + ((if colon then ":" else "") + (if colon then s[i + 4..i + 6] else s[i + 3..i + 5])))
  {
    One(s, i);
    Joined(s, i, [s[i]], s[i + 1..i + 3]);
    if colon {
      One(s, i + 3);
      Joined(s, i + 3, ":", s[i + 4..i + 6]);
      Joined(s, i, [s[i]] + s[i + 1..i + 3], ":" + s[i + 4..i + 6]);
    } else {
      assert "" + s[i + 3..i + 5] == s[i + 3..i + 5];
      Joined(s, i, [s[i]] + s[i + 1..i + 3], s[i + 3..i + 5]);
    }
  }

  // ---------------------------------------------------------------- whole strings

  /** The parser's arithmetic on what it holds is the meaning. */
  lemma MeansValue(d: Spelled, s: string)
    requires WellFormed(d)
    requires var y, t, c := |SpellYear(d.year)|, |SpellDate(d.date)|, |SpellClock(d.clock)|;
      && y + t + c <= |s|
      && ReadYear(s) == YearPart(YearOf(d.year), y)
      && ReadDate(s, y) == DatePart(MonthOf(d.date), DayOf(d.date), y + t)
      && ReadClock(s, y + t) == PartOf(d.clock, y + t + c)
      && ReadZone(s, y + t + c, d.clock.Time?) == ZonePart(OffsetOf(d.zone), |s|)
    ensures IsoTime(s) == TimeClip(Whole(Value(d)))
  {
    hide ReadYear, ReadDate, ReadClock, ReadZone, DaysFromCivil, ValueOf, SpellYear, SpellDate, SpellClock, Pow10;
    var c := PartOf(d.clock, |SpellYear(d.year)| + |SpellDate(d.date)| + |SpellClock(d.clock)|);
    ClockIsOk(d.clock, c.end);
    var month := MonthOf(d.date);
    assert (month - 1) / 12 == 0 && (month - 1) % 12 == month - 1;
    BuiltIs(YearOf(d.year), month, DayOf(d.date), c.hour, c.minute, c.second, c.milli);
  }

  lemma ClockIsOk(c: ClockForm, end: nat)
    requires GoodClock(c)
    ensures ClockOk(PartOf(c, end))
    ensures var p := PartOf(c, end);
      ClockTime(c) == p.hour * MS_PER_HOUR + p.minute * MS_PER_MINUTE + p.second * MS_PER_SECOND + p.milli
  {
    hide ValueOf, Pow10;
  }

  lemma BuiltIs(year: int, month: nat, day: nat, hour: nat, minute: nat, second: nat, milli: nat)
    requires 1 <= month <= 12
    ensures Built([Whole(year), Whole(month - 1), Whole(day), NaN, Whole(hour), Whole(minute), Whole(second), Whole(milli)]) ==
      Whole((DaysFromCivil(Civil(year, month, 1)) + day - 1) * MS_PER_DAY
        + (hour * MS_PER_HOUR + minute * MS_PER_MINUTE + second * MS_PER_SECOND + milli))
  {
    hide DaysFromCivil;
    assert (month - 1) / 12 == 0 && (month - 1) % 12 == month - 1;
  }

  /** The four parts stand one behind the other. */
  lemma Standing(d: Spelled)
    ensures var s := Text(d); var y, t, c := |SpellYear(d.year)|, |SpellDate(d.date)|, |SpellClock(d.clock)|;
      && Holds(s, 0, SpellYear(d.year)) && Holds(s, y, SpellDate(d.date)) && Holds(s, y + t, SpellClock(d.clock))
      && Holds(s, y + t + c, SpellZone(d.zone)) && y + t + c + |SpellZone(d.zone)| == |s|
  {
    hide SpellYear, SpellDate, SpellClock, SpellZone;
    var a, b, c, z := SpellYear(d.year), SpellDate(d.date), SpellClock(d.clock), SpellZone(d.zone);
    var s := Text(d);
    assert s[0..|a + b + c + z|] == s;
    Piece(s, 0, a + b + c, z);
    Piece(s, 0, a + b, c);
    Piece(s, 0, a, b);
  }

  lemma ZoneStarts(s: string, i: nat, z: ZoneForm)
    requires Holds(s, i, SpellZone(z)) && i + |SpellZone(z)| == |s| && i < |s|
    ensures match z case NoOffset => false case Zulu(lower) => s[i] == (if lower then 'z' else 'Z') case Offset(west, _, _, _) => s[i] == if west then '-' else '+'
  {
    var c := SpellZone(z)[0];
    assert SpellZone(z) == [c] + SpellZone(z)[1..];
    Lead(s, i, c, SpellZone(z)[1..]);
  }

  lemma ClockStarts(s: string, i: nat, c: ClockForm)
    requires c.Time? && Holds(s, i, SpellClock(c))
    ensures i < |s| && s[i] == if c.lower then 't' else 'T'
  {
    var lead := SpellClock(c)[0];
    assert SpellClock(c) == [lead] + SpellClock(c)[1..];
    Lead(s, i, lead, SpellClock(c)[1..]);
  }

  /** Every well-formed string is read as what it means, or as no date when that is out of range. */
  lemma SpelledReads(d: Spelled)
    requires WellFormed(d)
    ensures IsoTime(Text(d)) == TimeClip(Whole(Value(d)))
  {
    hide Holds, ReadYear, ReadDate, ReadClock, ReadZone, IsoTime, Value, Text, GoodYear, GoodDate, GoodClock, GoodZone, SpellYear, SpellDate, SpellClock, SpellZone;
    var s := Text(d);
    var y, t, c := |SpellYear(d.year)|, |SpellDate(d.date)|, |SpellClock(d.clock)|;
    Standing(d);
    if y + t + c < |s| { ZoneStarts(s, y + t + c, d.zone); }
    if d.clock.Time? { ClockStarts(s, y + t, d.clock); } else { NoClockText(); }
    YearComplete(s, d.year);
    DateComplete(s, y, d.date);
    ClockComplete(s, y + t, d.clock);
    ZoneComplete(s, y + t + c, d.zone, d.clock.Time?);
    MeansValue(d, s);
  }

  lemma NoClockText()
    ensures |SpellClock(NoTime)| == 0
  {
  }

  /** Whatever is read as a date is well-formed. */
  lemma ReadIsSpelled(s: string) returns (d: Spelled)
    requires IsoTime(s).Whole?
    ensures WellFormed(d) && Text(d) == s
  {
    hide Holds, ReadYear, ReadDate, ReadClock, ReadZone, SpellYear, SpellDate, SpellClock, SpellZone, GoodYear, GoodDate, GoodClock, GoodZone, DaysFromCivil;
    var y := YearSound(s);
    var i := |SpellYear(y)|;
    var t := DateSound(s, i);
    var j := i + |SpellDate(t)|;
    var c := ClockSound(s, j);
    var k := j + |SpellClock(c)|;
    var z := ZoneSound(s, k, c.Time?);
    d := Spelled(y, t, c, z);
    NoClockText();
    Whole4(s, SpellYear(y), SpellDate(t), SpellClock(c), SpellZone(z));
  }

  lemma Whole4(s: string, a: string, b: string, c: string, z: string)
    requires Holds(s, 0, a) && Holds(s, |a|, b) && Holds(s, |a| + |b|, c) && Holds(s, |a| + |b| + |c|, z)
    requires |a| + |b| + |c| + |z| == |s|
    ensures a + b + c + z == s
  {
    Joined(s, 0, a, b);
    Joined(s, 0, a + b, c);
    Joined(s, 0, a + b + c, z);
  }

  /** Date.parse answers a time for exactly the well-formed strings that mean one in range, and that time. */
  lemma ParsesGrammar(s: string, v: int)
    ensures IsoTime(s) == Whole(v) <==> exists d :: WellFormed(d) && Text(d) == s && Value(d) == v && InRange(v)
  {
    hide IsoTime, Value, Text, WellFormed;
    if IsoTime(s) == Whole(v) {
      var d := ReadIsSpelled(s);
      SpelledReads(d);
    }
    forall d | WellFormed(d) && Text(d) == s ensures IsoTime(s) == TimeClip(Whole(Value(d))) { SpelledReads(d); }
  }

  const ASCII_MAX: nat := 64

  predicate Ascii(s: string) { forall i :: 0 <= i < |s| ==> s[i] as int <= 127 }

  /** `jsrt_date_parse`: a string too long for the buffer, or not ASCII, is no date. */
  function DateParse(s: string): Num { if |s| >= ASCII_MAX || !Ascii(s) then NaN else IsoTime(s) }

  lemma AsciiJoin(a: string, b: string)
    requires Ascii(a) && Ascii(b)
    ensures Ascii(a + b)
  {
  }

  lemma SpelledIsAscii(d: Spelled)
    requires WellFormed(d)
    ensures Ascii(Text(d))
  {
    var a, b, c, z := SpellYear(d.year), SpellDate(d.date), SpellClock(d.clock), SpellZone(d.zone);
    AsciiJoin(a, b);
    AsciiJoin(a + b, c);
    AsciiJoin(a + b + c, z);
  }

  /** The same, with the one thing the buffer adds: nothing of 64 units or more is a date. */
  lemma DateParseIs(s: string, v: int)
    ensures DateParse(s) == Whole(v) <==> |s| < ASCII_MAX && exists d :: WellFormed(d) && Text(d) == s && Value(d) == v && InRange(v)
  {
    hide IsoTime, Value, Text, WellFormed, Ascii;
    ParsesGrammar(s, v);
    forall d | WellFormed(d) && Text(d) == s ensures Ascii(s) { SpelledIsAscii(d); }
  }
}
