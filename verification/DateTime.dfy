/** Time values, their fields, and local time (sections 21.4.1.7 and 21.4.1.25 to 21.4.1.31 of ECMA-262;
    jsrt_date.c). */
module DateTime {
  import opened DateCalendar

  /** A double that is a whole number, or none; an infinity counts as none, as every use of one does. */
  datatype Num = NaN | Whole(n: int)

  const MS_PER_SECOND := 1000
  const MS_PER_MINUTE := 60_000
  const MS_PER_HOUR := 3_600_000
  const MS_PER_DAY := 86_400_000
  const MAX_TIME_VALUE := 8_640_000_000_000_000

  predicate InRange(t: int) { -MAX_TIME_VALUE <= t <= MAX_TIME_VALUE }

  function TimeClip(t: Num): Num { if t.Whole? && !InRange(t.n) then NaN else t }

  // ---------------------------------------------------------------- fields

  datatype Field = FullYear | Month | Date | Day | Hours | Minutes | Seconds | Milliseconds

  const FIELDS: seq<Field> := [FullYear, Month, Date, Day, Hours, Minutes, Seconds, Milliseconds]

  function FieldOf(t: Num, f: Field): Num {
    if t.NaN? then NaN
    else
      var day := t.n / MS_PER_DAY;
      match f
      case FullYear => Whole(CivilFromDays(day).year)
      case Month => Whole(CivilFromDays(day).month - 1)
      case Date => Whole(CivilFromDays(day).day)
      case Day => Whole((day + 4) % 7)
      case Hours => Whole(t.n / MS_PER_HOUR % 24)
      case Minutes => Whole(t.n / MS_PER_MINUTE % 60)
      case Seconds => Whole(t.n / MS_PER_SECOND % 60)
      case Milliseconds => Whole(t.n % MS_PER_SECOND)
  }

  function MakeDay(year: Num, month: Num, day: Num): Num {
    if year.NaN? || month.NaN? || day.NaN? then NaN
    else Whole(DaysFromCivil(Civil(year.n + month.n / 12, month.n % 12 + 1, 1)) + day.n - 1)
  }

  function MakeTime(h: Num, m: Num, s: Num, ms: Num): Num {
    if h.NaN? || m.NaN? || s.NaN? || ms.NaN? then NaN
    else Whole(h.n * MS_PER_HOUR + m.n * MS_PER_MINUTE + s.n * MS_PER_SECOND + ms.n)
  }

  function MakeDate(day: Num, time: Num): Num {
    if day.NaN? || time.NaN? then NaN else Whole(day.n * MS_PER_DAY + time.n)
  }

  /** A time built from a year, a month counting from 0, a date, and a clock reading. */
  function Built(p: seq<Num>): Num
    requires |p| == 8
  {
    MakeDate(MakeDay(p[0], p[1], p[2]), MakeTime(p[4], p[5], p[6], p[7]))
  }

  function Parts(t: Num): (p: seq<Num>)
    ensures |p| == 8
  {
    seq(8, i requires 0 <= i < 8 => FieldOf(t, FIELDS[i]))
  }

  lemma ClockParts(t: int)
    ensures t == t / MS_PER_DAY * MS_PER_DAY + t / MS_PER_HOUR % 24 * MS_PER_HOUR + t / MS_PER_MINUTE % 60 * MS_PER_MINUTE
      + t / MS_PER_SECOND % 60 * MS_PER_SECOND + t % MS_PER_SECOND
  {
    assert t / MS_PER_MINUTE == t / MS_PER_SECOND / 60;
    assert t / MS_PER_HOUR == t / MS_PER_MINUTE / 60;
    assert t / MS_PER_DAY == t / MS_PER_HOUR / 24;
  }

  lemma DayOfMonth(c: Civil)
    ensures DaysFromCivil(c) == DaysFromCivil(c.(day := 1)) + c.day - 1
  {
  }

  /** The fields of a time rebuild it. */
  lemma FieldsRebuild(t: int)
    ensures Built(Parts(Whole(t))) == Whole(t)
  {
    hide DaysFromCivil, CivilFromDays;
    var day := t / MS_PER_DAY;
    var c := CivilFromDays(day);
    DaysRoundTrip(day);
    DayOfMonth(c);
    ClockParts(t);
    assert (c.month - 1) / 12 == 0 && (c.month - 1) % 12 == c.month - 1;
  }

  /** A date of the calendar, the month counting from 0, and a reading of a clock. */
  predicate ValidParts(p: seq<Num>)
    requires |p| == 8
  {
    && (forall i :: 0 <= i < 8 ==> p[i].Whole?)
    && ValidDate(Civil(p[0].n, p[1].n + 1, p[2].n))
    && 0 <= p[4].n < 24 && 0 <= p[5].n < 60 && 0 <= p[6].n < 60 && 0 <= p[7].n < 1000
  }

  /** Whatever is built from valid fields has those fields; its weekday moves on by one a day. */
  lemma BuiltHasFields(p: seq<Num>)
    requires |p| == 8 && ValidParts(p)
    ensures forall i :: 0 <= i < 8 && i != 3 ==> FieldOf(Built(p), FIELDS[i]) == p[i]
    ensures FieldOf(Built(p), Day) == Whole((DaysFromCivil(Civil(p[0].n, p[1].n + 1, p[2].n)) + 4) % 7)
  {
    hide DaysFromCivil, CivilFromDays;
    var c := Civil(p[0].n, p[1].n + 1, p[2].n);
    var day := DaysFromCivil(c);
    var clock := p[4].n * MS_PER_HOUR + p[5].n * MS_PER_MINUTE + p[6].n * MS_PER_SECOND + p[7].n;
    DayOfMonth(c);
    CivilRoundTrip(c);
    assert p[1].n / 12 == 0 && p[1].n % 12 == p[1].n;
    assert Built(p) == Whole(day * MS_PER_DAY + clock);
    ClockReads(day, p[4].n, p[5].n, p[6].n, p[7].n);
  }

  lemma Units(total: int, rest: int)
    ensures 0 <= rest < 1000 ==> (total * 1000 + rest) / 1000 == total && (total * 1000 + rest) % 1000 == rest
    ensures 0 <= rest < 60_000 ==> (total * 60_000 + rest) / 60_000 == total
    ensures 0 <= rest < 3_600_000 ==> (total * 3_600_000 + rest) / 3_600_000 == total
    ensures 0 <= rest < 86_400_000 ==> (total * 86_400_000 + rest) / 86_400_000 == total
    ensures 0 <= rest < 60 ==> (total * 60 + rest) % 60 == rest
    ensures 0 <= rest < 24 ==> (total * 24 + rest) % 24 == rest
  {
  }

  lemma ClockReads(day: int, h: int, m: int, s: int, ms: int)
    requires 0 <= h < 24 && 0 <= m < 60 && 0 <= s < 60 && 0 <= ms < 1000
    ensures var t := day * MS_PER_DAY + h * MS_PER_HOUR + m * MS_PER_MINUTE + s * MS_PER_SECOND + ms;
      && t / MS_PER_DAY == day && t / MS_PER_HOUR % 24 == h && t / MS_PER_MINUTE % 60 == m
      && t / MS_PER_SECOND % 60 == s && t % MS_PER_SECOND == ms
  {
    var minutes := (day * 24 + h) * 60 + m;
    Units(minutes * 60 + s, ms);
    Units(minutes, s * 1000 + ms);
    Units(minutes, s);
    Units(day * 24 + h, m * 60_000 + s * 1000 + ms);
    Units(day * 24 + h, m);
    Units(day, h * 3_600_000 + m * 60_000 + s * 1000 + ms);
    Units(day, h);
  }

  lemma MonthAfter(month: int)
    ensures var q, m := month / 12, month % 12;
      if m == 11 then (month + 1) / 12 == q + 1 && (month + 1) % 12 == 0 else (month + 1) / 12 == q && (month + 1) % 12 == m + 1
    ensures (month + 12) / 12 == month / 12 + 1 && (month + 12) % 12 == month % 12
  {
  }

  /** Components out of range roll over: twelve months are a year, and a month's days the next month. */
  lemma RollsOver(year: int, month: int, day: int)
    ensures MakeDay(Whole(year), Whole(month + 12), Whole(day)) == MakeDay(Whole(year + 1), Whole(month), Whole(day))
    ensures MakeDay(Whole(year), Whole(month + 1), Whole(day)) ==
      MakeDay(Whole(year), Whole(month), Whole(day + DaysInMonth(year + month / 12, month % 12 + 1)))
  {
    hide DaysFromCivil;
    var y, m := year + month / 12, month % 12 + 1;
    var last := Civil(y, m, DaysInMonth(y, m));
    CountsDays(last);
    DayOfMonth(last);
    MonthAfter(month);
  }

  // ---------------------------------------------------------------- local time

  /** Milliseconds east of UTC in effect at an instant. */
  type Zone = int -> int

  function LocalTime(zone: Zone, t: Num): Num { if t.NaN? then NaN else Whole(t.n + zone(t.n)) }

  function UtcFromLocal(zone: Zone, local: Num): Num {
    if local.NaN? then NaN
    else
      var pre := zone(local.n - MS_PER_DAY);
      var post := zone(local.n + MS_PER_DAY);
      if zone(local.n - pre) == pre then Whole(local.n - pre)
      else if zone(local.n - post) == post then Whole(local.n - post)
      else Whole(local.n - pre)
  }

  /** Offsets of at most a day, and at most one transition from a day before `local` to a day after. */
  ghost predicate OneTransition(zone: Zone, local: int) {
    && (forall x :: -MS_PER_DAY <= zone(x) <= MS_PER_DAY)
    && exists at, before, after :: Changes(zone, local, at, before, after)
  }

  ghost predicate Changes(zone: Zone, local: int, at: int, before: int, after: int) {
    forall x :: local - MS_PER_DAY <= x <= local + MS_PER_DAY ==> zone(x) == if x < at then before else after
  }

  /** The earliest instant whose local reading is `local`, if there is one; in a gap, the instant that
      the offset before the transition gives. */
  lemma UtcFromLocalIs(zone: Zone, local: int)
    requires OneTransition(zone, local)
    ensures var r := UtcFromLocal(zone, Whole(local)).n;
      && (forall x :: x + zone(x) == local ==> r + zone(r) == local && r <= x)
      && ((forall x :: x + zone(x) != local) ==> r == local - zone(local - MS_PER_DAY))
  {
    var at, before, after :| Changes(zone, local, at, before, after);
    var r := UtcFromLocal(zone, Whole(local)).n;
    var pre := zone(local - MS_PER_DAY);
    assert pre == if local - MS_PER_DAY < at then before else after;
    assert zone(local - pre) == if local - pre < at then before else after;
    var post := zone(local + MS_PER_DAY);
    assert post == if local + MS_PER_DAY < at then before else after;
    assert zone(local - post) == if local - post < at then before else after;
    forall x | x + zone(x) == local ensures r + zone(r) == local && r <= x {
      assert zone(x) == if x < at then before else after;
    }
  }

  /** Away from a transition, local time and back is where it started. */
  lemma LocalRoundTrip(zone: Zone, t: int)
    requires OneTransition(zone, t + zone(t))
    requires forall x :: x + zone(x) == t + zone(t) ==> x == t
    ensures UtcFromLocal(zone, LocalTime(zone, Whole(t))) == Whole(t)
  {
    UtcFromLocalIs(zone, t + zone(t));
  }

  // ---------------------------------------------------------------- setters

  /** The fields after `first` is given `values`. */
  function Replaced(p: seq<Num>, first: nat, values: seq<Num>): (r: seq<Num>)
    requires |p| == 8 && first + |values| <= 8
    ensures |r| == 8
  {
    p[..first] + values + p[first + |values|..]
  }

  /** Setting the year of an invalid date starts over from the epoch, in the fields not supplied. */
  function Recovered(p: seq<Num>, supplied: seq<bool>): (r: seq<Num>)
    requires |p| == 8 && |supplied| == 8
    ensures |r| == 8
  {
    seq(8, i requires 0 <= i < 8 => if !supplied[i] && p[i].NaN? then Whole(if i == 2 then 1 else 0) else p[i])
  }

  /** The time after a setter. */
  function SetTo(time: Num, first: nat, values: seq<Num>, supplied: seq<bool>, local: bool, zone: Zone): Num
    requires first + |values| <= 8 && |supplied| == 8
  {
    var t := if local then LocalTime(zone, time) else time;
    var p := Replaced(Parts(t), first, values);
    if t.NaN? && first != 0 then time
    else
      var built := Built(if t.NaN? then Recovered(p, supplied) else p);
      TimeClip(if local then UtcFromLocal(zone, built) else built)
  }

  /** The reading a setter works on: local time, or the time value itself. */
  function Reading(t: Num, local: bool, zone: Zone): Num { if local then LocalTime(zone, t) else t }

  /** A reading of local time that one transition at most is near, and that some instant has. */
  ghost predicate Occurs(zone: Zone, local: int) { OneTransition(zone, local) && exists x :: x + zone(x) == local }

  /** A setter sets what it is given and keeps every other field of the reading, unless the date rolls over.
      A local setter whose reading falls into a gap goes by the offset before the transition. */
  lemma SetterLaw(t: int, first: nat, values: seq<Num>, supplied: seq<bool>, local: bool, zone: Zone)
    requires first + |values| <= 8 && |supplied| == 8
    requires var p := Replaced(Parts(Reading(Whole(t), local, zone)), first, values);
      ValidParts(p) && (local ==> OneTransition(zone, Built(p).n))
    ensures var p := Replaced(Parts(Reading(Whole(t), local, zone)), first, values);
      var r := SetTo(Whole(t), first, values, supplied, local, zone);
      && (r.Whole? && (local ==> Occurs(zone, Built(p).n)) ==>
            forall i :: 0 <= i < 8 && i != 3 ==> FieldOf(Reading(r, local, zone), FIELDS[i]) == p[i])
      && (r.Whole? && local && !Occurs(zone, Built(p).n) ==> r.n == Built(p).n - zone(Built(p).n - MS_PER_DAY))
      && (r.NaN? <==> !InRange((if local then UtcFromLocal(zone, Built(p)) else Built(p)).n))
  {
    hide DaysFromCivil, CivilFromDays, FieldOf, Built, Parts, Replaced, OneTransition;
    var p := Replaced(Parts(Reading(Whole(t), local, zone)), first, values);
    BuiltIsWhole(p);
    BuiltHasFields(p);
    if local { UtcFromLocalIs(zone, Built(p).n); }
  }

  /** `p` is `q` with these values from `first` on. */
  ghost predicate GivenIn(p: seq<Num>, q: seq<Num>, first: nat, values: seq<Num>) {
    && |p| == |q| == 8 && first + |values| <= 8
    && forall i :: 0 <= i < 8 ==> p[i] == if first <= i < first + |values| then values[i - first] else q[i]
  }

  /** Any setter of a valid date, fields out of bounds included: the time built from the fields of its reading with the
      given ones in their places, if it is in range; no time if one of them is none, the weekday aside. */
  lemma SetterMeans(t: int, first: nat, values: seq<Num>, supplied: seq<bool>, local: bool, zone: Zone, p: seq<Num>)
    requires |supplied| == 8 && GivenIn(p, Parts(Reading(Whole(t), local, zone)), first, values)
    ensures var r := SetTo(Whole(t), first, values, supplied, local, zone);
      if forall i :: 0 <= i < 8 && i != 3 ==> p[i].Whole?
      then
        && Built(p).Whole?
        && var x := (if local then UtcFromLocal(zone, Built(p)) else Built(p)).n;
           r == if -8_640_000_000_000_000 <= x <= 8_640_000_000_000_000 then Whole(x) else NaN
      else r == NaN
  {
    hide DaysFromCivil, CivilFromDays, FieldOf;
    var q := Parts(Reading(Whole(t), local, zone));
    assert Replaced(q, first, values) == p;
    if i :| 0 <= i < 8 && i != 3 && !p[i].Whole? { assert Built(p) == NaN; }
  }

  /** A minute past the hour's end is in the next hour, and so for seconds, milliseconds and the day. */
  lemma ClockRolls(day: int, h: int, m: int, s: int, ms: int)
    ensures MakeTime(Whole(h), Whole(m), Whole(s), Whole(ms + 1000)) == MakeTime(Whole(h), Whole(m), Whole(s + 1), Whole(ms))
    ensures MakeTime(Whole(h), Whole(m), Whole(s + 60), Whole(ms)) == MakeTime(Whole(h), Whole(m + 1), Whole(s), Whole(ms))
    ensures MakeTime(Whole(h), Whole(m + 60), Whole(s), Whole(ms)) == MakeTime(Whole(h + 1), Whole(m), Whole(s), Whole(ms))
    ensures MakeDate(Whole(day), MakeTime(Whole(h + 24), Whole(m), Whole(s), Whole(ms)))
      == MakeDate(Whole(day + 1), MakeTime(Whole(h), Whole(m), Whole(s), Whole(ms)))
  {
  }

  lemma BuiltIsWhole(p: seq<Num>)
    requires |p| == 8 && ValidParts(p)
    ensures Built(p).Whole?
  {
  }

  /** Giving the fields it has leaves a date as it is. Locally this takes a reading that no other instant has;
      a reading that occurs twice moves the date to the first. */
  lemma SetterIdle(t: int, first: nat, count: nat, supplied: seq<bool>, local: bool, zone: Zone)
    requires first + count <= 8 && |supplied| == 8 && InRange(t)
    requires local ==> OneTransition(zone, t + zone(t))
    ensures var read := Reading(Whole(t), local, zone);
      var r := SetTo(Whole(t), first, Parts(read)[first..first + count], supplied, local, zone);
      && (!local || (forall x :: x + zone(x) == read.n ==> x == t) ==> r == Whole(t))
      && (local && r.Whole? ==> r.n + zone(r.n) == read.n && r.n <= t)
  {
    hide DaysFromCivil, CivilFromDays, FieldOf, OneTransition;
    var read := Reading(Whole(t), local, zone);
    var p := Parts(read);
    assert Replaced(p, first, p[first..first + count]) == p;
    FieldsRebuild(read.n);
    if local { UtcFromLocalIs(zone, read.n); }
  }

  /** A year, and at most a month and a date, bring an invalid date back, to midnight of the first of what is not
      given, in local time or in UTC; an explicit NaN does not. */
  lemma SetterRecovers(values: seq<Num>, supplied: seq<bool>, local: bool, zone: Zone)
    requires 1 <= |values| <= 3 && |supplied| == 8 && supplied[0]
    requires forall i :: 0 <= i < 8 && supplied[i] ==> i < |values|
    ensures var r := SetTo(NaN, 0, values, supplied, local, zone);
      var month := if |values| > 1 && (supplied[1] || values[1].Whole?) then values[1] else Whole(0);
      var date := if |values| > 2 && (supplied[2] || values[2].Whole?) then values[2] else Whole(1);
      var midnight := MakeDate(MakeDay(values[0], month, date), Whole(0));
      r == TimeClip(if local then UtcFromLocal(zone, midnight) else midnight)
  {
    var p := Replaced(Parts(NaN), 0, values);
    forall i | |values| <= i < 8 ensures p[i] == NaN { assert p[i] == Parts(NaN)[i]; }
    assert Recovered(p, supplied)[4..] == [Whole(0), Whole(0), Whole(0), Whole(0)];
  }
}
