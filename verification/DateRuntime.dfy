/** Dates as the runtime holds them: one mutable time, and a cursor over the text of one (jsrt_date.c). */
module DateRuntime {
  import opened DateCalendar
  import opened DateTime
  import opened DateIso
  import opened DateGrammar

  class JSDate {
    var time: Num

    constructor (t: Num)
      ensures time == TimeClip(t)
    {
      time := TimeClip(t);
    }

    /** `set_fields`: the fields it is not given are read from the time it replaces. */
    method SetFields(first: nat, values: seq<Num>, supplied: seq<bool>, local: bool, zone: Zone) returns (r: Num)
      requires first + |values| <= 8 && |supplied| == 8
      modifies this
      ensures r == time == SetTo(old(time), first, values, supplied, local, zone)
    {
      var t := if local then LocalTime(zone, time) else time;
      var part := new Num[8](_ => NaN);
      for i := 0 to 8
        invariant time == old(time) && forall k :: 0 <= k < i ==> part[k] == Parts(t)[k]
      {
        part[i] := FieldOf(t, FIELDS[i]);
      }
      for i := 0 to |values|
        invariant time == old(time)
        invariant forall k :: 0 <= k < 8 ==> part[k] == if first <= k < first + i then values[k - first] else Parts(t)[k]
      {
        part[first + i] := values[i];
      }
      assert part[..] == Replaced(Parts(t), first, values);
      if t.NaN? {
        if first != 0 {
          return NaN;
        }
        ghost var before := part[..];
        for i := 0 to 8
          invariant time == old(time)
          invariant forall k :: 0 <= k < 8 ==> part[k] == if k < i then Recovered(before, supplied)[k] else before[k]
        {
          if !supplied[i] && part[i].NaN? {
            part[i] := Whole(if i == 2 then 1 else 0);
          }
        }
        assert part[..] == Recovered(before, supplied);
      }
      ghost var p := part[..];
      var day := MakeDay(part[0], part[1], part[2]);
      var clock := MakeTime(part[4], part[5], part[6], part[7]);
      var built := MakeDate(day, clock);
      assert built == Built(p);
      time := TimeClip(if local then UtcFromLocal(zone, built) else built);
      r := time;
    }
  }

  /** `digits`: a number of exactly `w` digits. */
  method ReadDigits(s: string, i: nat, w: nat) returns (ok: bool, value: nat)
    requires i + w <= |s|
    ensures ok <==> DigitsAt(s, i, w)
    ensures ok ==> value == ValueOf(s[i..i + w])
  {
    value := 0;
    assert s[i..i] == "";
    for k := 0 to w
      invariant AllDigits(s[i..i + k]) && value == ValueOf(s[i..i + k])
    {
      if s[i + k] < '0' || s[i + k] > '9' {
        assert s[i..i + w][k] == s[i + k];
        return false, 0;
      }
      assert s[i..i + k + 1] == s[i..i + k] + [s[i + k]];
      value := value * 10 + (s[i + k] as nat - '0' as nat);
    }
    ok := true;
  }

  /** A year, and where it ends. */
  method ParseYear(s: string) returns (r: YearPart)
    ensures r == ReadYear(s)
  {
    if |s| >= 7 && (s[0] == '+' || s[0] == '-') {
      var sign: int := if s[0] == '-' then -1 else 1;
      var ok, year := ReadDigits(s, 1, 6);
      return if ok then YearPart(sign * year, 7) else NoYear;
    }
    if |s| >= 4 {
      var ok, year := ReadDigits(s, 0, 4);
      if ok {
        return YearPart(year, 4);
      }
    }
    return NoYear;
  }

  method ParseDate(s: string, start: nat) returns (r: DatePart)
    requires start <= |s|
    ensures r == ReadDate(s, start)
  {
    var i := start;
    var month, day := 1, 1;
    if i + 3 <= |s| && s[i] == '-' {
      var ok, m := ReadDigits(s, i + 1, 2);
      if !ok {
        return NoDate;
      }
      month := m;
      i := i + 3;
      if i + 3 <= |s| && s[i] == '-' {
        var dayOk, d := ReadDigits(s, i + 1, 2);
        if !dayOk {
          return NoDate;
        }
        day := d;
        i := i + 3;
      }
    }
    if month < 1 || month > 12 || day < 1 || day > 31 {
      return NoDate;
    }
    return DatePart(month, day, i);
  }

  lemma {:induction false} RunExtends(s: string, i: nat, j: nat)
    requires i <= j < |s| && AllDigits(s[i..j]) && IsDigit(s[j])
    ensures AllDigits(s[i..j + 1]) && ValueOf(s[i..j + 1]) == ValueOf(s[i..j]) * 10 + DigitOf(s[j])
  {
    assert s[i..j + 1] == s[i..j] + [s[j]];
  }

  /** A fraction of a second: three digits count, more are read. */
  method ParseFraction(s: string, i: nat) returns (ok: bool, milli: nat, nonzero: bool, end: nat)
    requires i <= |s|
    ensures end == DigitRun(s, i) <= |s| && (ok <==> end > i)
    ensures ok ==> milli == Millis(s[i..end])
    ensures ok ==> (nonzero <==> exists k :: 0 <= k < end - i && s[i..end][k] != '0')
  {
    var j := i;
    var ndig: nat := 0;
    milli, nonzero := 0, false;
    assert s[i..i] == "";
    while j < |s| && '0' <= s[j] <= '9'
      invariant i <= j <= |s| && AllDigits(s[i..j]) && ndig == (if j - i < 3 then j - i else 3)
      invariant AllDigits(s[i..i + ndig]) && milli == ValueOf(s[i..i + ndig])
      invariant nonzero <==> exists k :: i <= k < j && s[k] != '0'
    {
      if s[j] != '0' {
        nonzero := true;
      }
      RunExtends(s, i, j);
      if ndig < 3 {
        milli := milli * 10 + (s[j] as nat - '0' as nat);
        ndig := ndig + 1;
      }
      j := j + 1;
    }
    RunEnds(s, i, j);
    end := j;
    if ndig == 0 {
      return false, 0, false, j;
    }
    ghost var f := s[i..j];
    assert ndig == 3 ==> f[..3] == s[i..i + 3];
    assert nonzero <==> exists k :: 0 <= k < |f| && f[k] != '0' by {
      if nonzero {
        var k :| i <= k < j && s[k] != '0';
        assert f[k - i] == s[k];
      }
      if k :| 0 <= k < |f| && f[k] != '0' { assert s[i + k] == f[k]; }
    }
    if ndig == 1 {
      milli := milli * 100;
    } else if ndig == 2 {
      milli := milli * 10;
    }
    ok := true;
  }

  method ParseClock(s: string, start: nat) returns (r: ClockPart)
    requires start <= |s|
    ensures r == ReadClock(s, start)
  {
    var i := start;
    var hour, minute, second, milli, nonzero := 0, 0, 0, 0, false;
    if i < |s| && (s[i] == 'T' || s[i] == 't') {
      i := i + 1;
      if i + 5 > |s| {
        return NoClock;
      }
      var hourOk, h := ReadDigits(s, i, 2);
      var minuteOk, m := ReadDigits(s, i + 3, 2);
      if !hourOk || s[i + 2] != ':' || !minuteOk {
        return NoClock;
      }
      hour, minute := h, m;
      i := i + 5;
      if i + 3 <= |s| && s[i] == ':' {
        var secondOk, sec := ReadDigits(s, i + 1, 2);
        if !secondOk {
          return NoClock;
        }
        second := sec;
        i := i + 3;
        if i + 2 <= |s| && s[i] == '.' {
          var ok, ms, nz, end := ParseFraction(s, i + 1);
          if !ok {
            return NoClock;
          }
          milli, nonzero, i := ms, nz, end;
        }
      }
      return ClockPart(hour, minute, second, milli, nonzero, true, i);
    }
    return ClockPart(0, 0, 0, 0, false, false, i);
  }

  method ParseZone(s: string, i: nat, clock: bool) returns (r: ZonePart)
    requires i <= |s|
    ensures r == ReadZone(s, i, clock)
  {
    if i < |s| && (s[i] == 'Z' || s[i] == 'z') {
      return ZonePart(0, i + 1);
    }
    if i < |s| && (s[i] == '+' || s[i] == '-') {
      var hours, minutes, end: nat := 0, 0, i;
      if i + 6 <= |s| {
        var hourOk, h := ReadDigits(s, i + 1, 2);
        var minuteOk, m := ReadDigits(s, i + 4, 2);
        if hourOk && s[i + 3] == ':' && minuteOk {
          hours, minutes, end := h, m, i + 6;
        }
      }
      if end == i && i + 5 <= |s| {
        var hourOk, h := ReadDigits(s, i + 1, 2);
        var minuteOk, m := ReadDigits(s, i + 3, 2);
        if hourOk && minuteOk {
          hours, minutes, end := h, m, i + 5;
        }
      }
      if end == i || hours > 23 || minutes > 59 {
        return NoZone;
      }
      var sign: int := if s[i] == '-' then -1 else 1;
      return ZonePart(sign * (hours * MS_PER_HOUR + minutes * MS_PER_MINUTE), end);
    }
    if clock {
      return NoZone;
    }
    return ZonePart(0, i);
  }

  /** `parse_iso`. */
  method ParseIso(s: string) returns (t: Num)
    ensures t == IsoTime(s)
  {
    hide ReadYear, ReadDate, ReadClock, ReadZone;
    var y := ParseYear(s);
    if y.NoYear? {
      return NaN;
    }
    var d := ParseDate(s, y.end);
    if d.NoDate? {
      return NaN;
    }
    var c := ParseClock(s, d.end);
    if c.NoClock? {
      return NaN;
    }
    var z := ParseZone(s, c.end, c.present);
    if z.NoZone? {
      return NaN;
    }
    if z.end != |s| || c.hour > 24 || c.minute > 59 || c.second > 59
       || (c.hour == 24 && (c.minute != 0 || c.second != 0 || c.fraction)) {
      return NaN;
    }
    var time := MakeDate(MakeDay(Whole(y.year), Whole(d.month - 1), Whole(d.day)),
                         MakeTime(Whole(c.hour), Whole(c.minute), Whole(c.second), Whole(c.milli)));
    t := TimeClip(Whole(time.n - z.offset));
  }

  /** `jsrt_date_parse`: the string copied down to ASCII, if it is that, and parsed. */
  method ParseText(text: string) returns (t: Num)
    ensures t == DateParse(text)
  {
    hide IsoTime;
    if |text| >= ASCII_MAX {
      return NaN;
    }
    var ascii := "";
    for i := 0 to |text|
      invariant ascii == text[..i] && Ascii(text[..i])
    {
      if text[i] as int > 127 {
        return NaN;
      }
      ascii := ascii + [text[i]];
    }
    assert text[..|text|] == text;
    t := ParseIso(ascii);
  }

  /** Printed and parsed, a valid date keeps its time. */
  method Reparse(d: JSDate) returns (t: Num)
    requires d.time.Whole? && InRange(d.time.n)
    ensures t == d.time
  {
    t := ParseIso(IsoText(d.time.n));
    IsoRoundTrip(d.time.n);
  }
}
