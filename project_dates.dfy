/** Date handling of project.js: `shiftDate`, the day offset `diffDays` between the base date
    and the first start date, and the milestone due-date pass `updateMilestoneDates`. */
module ProjectDates {
  import opened Wrappers
  import opened Text
  import opened Calendar

  const MsPerDay: int := 86400000

  /** A parsed `Date`: the calendar date as written (the day may run past the end of its
      month) and the milliseconds into that day, in UTC. */
  datatype Moment = Moment(date: Civil, ms: nat)

  /** The day number of a parsed moment. */
  function DayOf(m: Moment): int
    requires 1 <= m.date.month <= 12
  {
    DayNumber(m.date)
  }

  /** Milliseconds since 1970-01-01T00:00:00Z, what subtracting two `Date`s works on. */
  function TimeValue(m: Moment): int
    requires 1 <= m.date.month <= 12
  {
    DayOf(m) * MsPerDay + m.ms
  }

  /** A decimal digit at position `i` of `s`. */
  predicate DigitAt(s: string, i: nat) {
    i < |s| && IsDigit(s[i])
  }

  /** The two-digit number at positions `i`, `i + 1`. */
  function Number2(s: string, i: nat): nat
    requires DigitAt(s, i) && DigitAt(s, i + 1)
  {
    10 * DigitValue(s[i]) + DigitValue(s[i + 1])
  }

  /** The four-digit number at positions `i` .. `i + 3`. */
  function Number4(s: string, i: nat): nat
    requires DigitAt(s, i) && DigitAt(s, i + 1) && DigitAt(s, i + 2) && DigitAt(s, i + 3)
  {
    100 * Number2(s, i) + Number2(s, i + 2)
  }

  /** `s` has the shape `YYYY-MM-DD` in its first ten characters. */
  predicate HasDateShape(s: string) {
    |s| >= 10 && DigitAt(s, 0) && DigitAt(s, 1) && DigitAt(s, 2) && DigitAt(s, 3) &&
    s[4] == '-' && DigitAt(s, 5) && DigitAt(s, 6) && s[7] == '-' && DigitAt(s, 8) && DigitAt(s, 9)
  }

  /** `s` has the shape `THH:MM:SSZ` from position 10 on. */
  predicate HasTimeShape(s: string) {
    |s| == 20 && s[10] == 'T' && DigitAt(s, 11) && DigitAt(s, 12) && s[13] == ':' &&
    DigitAt(s, 14) && DigitAt(s, 15) && s[16] == ':' && DigitAt(s, 17) && DigitAt(s, 18) &&
    s[19] == 'Z'
  }

  /** `T24:00:00Z`: the end of the day, which the ISO form allows as the only time past
      23:59:59. */
  predicate EndOfDay(s: string) {
    HasTimeShape(s) && Number2(s, 11) == 24 && Number2(s, 14) == 0 && Number2(s, 17) == 0
  }

  /** The time of day written in a `YYYY-MM-DDTHH:MM:SSZ` string, in milliseconds. */
  function WrittenMs(s: string): nat
    requires HasTimeShape(s)
  {
    ((Number2(s, 11) * 60 + Number2(s, 14)) * 60 + Number2(s, 17)) * 1000
  }

  /** The strings `new Date` accepts in the two ISO forms below: a month 1..12, a day 1..31,
      and a time of day within 23:59:59, or the end of the day 24:00:00. */
  predicate IsoAccepted(s: string) {
    HasDateShape(s) && (|s| == 10 || HasTimeShape(s)) &&
    1 <= Number2(s, 5) <= 12 && 1 <= Number2(s, 8) <= 31 &&
    (|s| == 20 ==> (Number2(s, 11) <= 23 && Number2(s, 14) <= 59 && Number2(s, 17) <= 59) || EndOfDay(s))
  }

  /** `new Date(s)` for the two ISO forms the scripts meet: a date `YYYY-MM-DD` (UTC midnight)
      and a UTC date-time `YYYY-MM-DDTHH:MM:SSZ` (GitHub's `due_on`). Month 1..12 and day
      1..31 are accepted, and a day past the end of its month runs into the next month, as
      V8 does. `24:00:00` is midnight of the next day. Anything else is an invalid date
      (None). The time value is always the written date's day number in days plus the
      written time of day. */
  function ParseDate(s: string): (r: Option<Moment>)
    ensures r.Some? <==> IsoAccepted(s)
    ensures r.Some? ==>
      r.value.date == Civil(Number4(s, 0), Number2(s, 5), Number2(s, 8) + if EndOfDay(s) then 1 else 0)
    ensures r.Some? ==> 1 <= r.value.date.month <= 12 && r.value.ms < MsPerDay
    ensures r.Some? && |s| == 20 && !EndOfDay(s) ==> r.value.ms == WrittenMs(s)
    ensures r.Some? && EndOfDay(s) ==> r.value.ms == 0
  {
    if !(HasDateShape(s) && (|s| == 10 || |s| == 20)) then None
    else
      var y, mo, d := Number4(s, 0), Number2(s, 5), Number2(s, 8);
      if !(1 <= mo <= 12 && 1 <= d <= 31) then None
      else
        var date := Civil(y, mo, d);
        if |s| == 10 then Some(Moment(date, 0))
        else if !HasTimeShape(s) then None
        else
          var h, mi, se := Number2(s, 11), Number2(s, 14), Number2(s, 17);
          if h <= 23 && mi <= 59 && se <= 59 then Some(Moment(date, ((h * 60 + mi) * 60 + se) * 1000))
          else if h == 24 && mi == 0 && se == 0 then Some(Moment(Civil(y, mo, d + 1), 0))
          else None
  }

  /** The time value of a parsed date-time is that of the written date plus the written time
      of day, also for `24:00:00`, which therefore names the next day's midnight. */
  lemma ParseDateTimeValue(s: string)
    requires ParseDate(s).Some? && |s| == 20
    ensures TimeValue(ParseDate(s).value) ==
      DayNumber(Civil(Number4(s, 0), Number2(s, 5), Number2(s, 8))) * MsPerDay + WrittenMs(s)
  {
    if EndOfDay(s) {
      assert WrittenMs(s) == MsPerDay;
    }
  }

  /** Two digits read as a two-character string. */
  lemma TwoDigitsValue(t: string)
    requires |t| == 2 && AllDigits(t)
    ensures DigitsValue(t) == 10 * DigitValue(t[0]) + DigitValue(t[1])
  {
    var t1 := t[..1];
    assert DigitsValue(t1) == DigitValue(t[0]) by { assert t1[..0] == []; }
  }

  /** Four digits read as a four-character string. */
  lemma FourDigitsValue(t: string)
    requires |t| == 4 && AllDigits(t)
    ensures DigitsValue(t) == 1000 * DigitValue(t[0]) + 100 * DigitValue(t[1]) + 10 * DigitValue(t[2]) + DigitValue(t[3])
  {
    var t1, t2, t3 := t[..1], t[..2], t[..3];
    assert DigitsValue(t1) == DigitValue(t[0]) by { assert t1[..0] == []; }
    assert DigitsValue(t2) == 10 * DigitsValue(t1) + DigitValue(t[1]) by { assert t2[..1] == t1; }
    assert DigitsValue(t3) == 10 * DigitsValue(t2) + DigitValue(t[2]) by { assert t3[..2] == t2; }
  }

  /** The template literal `${yyyy}-${mm}-${dd}`: the year unpadded (`getFullYear()`), month
      and day padded to two digits. */
  function Format(c: Civil): string
    requires ValidCivil(c)
  {
    IntToString(c.year) + "-" + Pad2(c.month) + "-" + Pad2(c.day)
  }

  /** The day offset `diffDays`: a whole number of days, or NaN when a date was invalid. */
  datatype Offset = Days(n: int) | NotANumber

  /** What the template literal prints for a `Date` made invalid by `setDate(NaN)`. */
  const InvalidDateText: string := "NaN-NaN-NaN"

  /** The date `setDate(getDate() + n)` moves a parsed moment to: the day `n` days after it. */
  function ShiftMoment(m: Moment, n: int): (c: Civil)
    requires 1 <= m.date.month <= 12
    ensures ValidCivil(c) && DayNumber(c) == DayOf(m) + n
  {
    CivilFromDays(DayOf(m) + n)
  }

  /** The shifted date is the only valid date with that day number. */
  lemma ShiftMomentIs(m: Moment, n: int, c: Civil)
    requires 1 <= m.date.month <= 12 && ValidCivil(c) && DayNumber(c) == DayOf(m) + n
    ensures ShiftMoment(m, n) == c
  {
    DayNumberInjective(ShiftMoment(m, n), c);
  }

  /** `shiftDate(dateStr, diffDays)`: null (None) for an empty or unparsable string; otherwise
      the date `diffDays` calendar days later, in the form of Format. `setDate` moves the day
      and keeps the time of day, so only the day number changes. */
  function ShiftDate(s: string, off: Offset): (r: Option<string>)
    ensures r.None? <==> ParseDate(s).None?
    ensures off.NotANumber? && r.Some? ==> r.value == InvalidDateText
  {
    if s == "" then None
    else
      match ParseDate(s)
      case None => None
      case Some(m) =>
        match off
        case NotANumber => Some(InvalidDateText)
        case Days(n) => Some(Format(ShiftMoment(m, n)))
  }

  /** A shifted date names the calendar day `n` days after the input's day. */
  lemma ShiftDateMeaning(s: string, n: int)
    requires ParseDate(s).Some?
    ensures exists c :: ValidCivil(c) && DayNumber(c) == DayOf(ParseDate(s).value) + n &&
                        ShiftDate(s, Days(n)) == Some(Format(c))
  {
    var c := ShiftMoment(ParseDate(s).value, n);
    assert ValidCivil(c) && DayNumber(c) == DayOf(ParseDate(s).value) + n;
  }

  /** Format's output starts with a digit or the sign of the year and ends with a digit. */
  lemma FormatEnds(c: Civil)
    requires ValidCivil(c)
    ensures |Format(c)| >= 2
    ensures var r := Format(c); (IsDigit(r[0]) || r[0] == '-') && IsDigit(r[|r| - 1])
  {
    var y, d := IntToString(c.year), Pad2(c.day);
    var r := Format(c);
    assert r == y + ("-" + Pad2(c.month) + "-" + d);
    assert r[0] == y[0];
    assert r[|r| - 1] == d[|d| - 1];
  }

  /** The characters of Format's output for a four-digit year. */
  lemma FormatShape(c: Civil)
    requires ValidCivil(c) && 1000 <= c.year <= 9999
    ensures |Format(c)| == 10 && HasDateShape(Format(c))
    ensures Number4(Format(c), 0) == c.year && Number2(Format(c), 5) == c.month &&
            Number2(Format(c), 8) == c.day
  {
    var ys, ms, ds := NatToString(c.year), Pad2(c.month), Pad2(c.day);
    FourDigits(c.year);
    var s := Format(c);
    assert s == ys + "-" + ms + "-" + ds;
    assert s[0] == ys[0] && s[1] == ys[1] && s[2] == ys[2] && s[3] == ys[3];
    assert s[5] == ms[0] && s[6] == ms[1] && s[8] == ds[0] && s[9] == ds[1];
    FourDigitsValue(ys);
    TwoDigitsValue(ms);
    TwoDigitsValue(ds);
  }

  /** Reading Format's output back: a valid date with a four-digit year parses to its own
      day at midnight. */
  lemma ParseFormat(c: Civil)
    requires ValidCivil(c) && 1000 <= c.year <= 9999
    ensures ParseDate(Format(c)) == Some(Moment(c, 0))
  {
    FormatShape(c);
  }

  lemma ShiftParsed(s: string, m: Moment, n: int)
    requires ParseDate(s) == Some(m)
    ensures ShiftDate(s, Days(n)) == Some(Format(ShiftMoment(m, n)))
  {
  }

  /** Two moments moved to the same day number give the same date. */
  lemma SameShift(m1: Moment, n1: int, m2: Moment, n2: int)
    requires 1 <= m1.date.month <= 12 && 1 <= m2.date.month <= 12
    requires DayOf(m1) + n1 == DayOf(m2) + n2
    ensures ShiftMoment(m1, n1) == ShiftMoment(m2, n2)
  {
    var k1, k2 := DayOf(m1) + n1, DayOf(m2) + n2;
    assert k1 == k2;
  }

  /** Two texts whose shifts land on the same date shift to the same text. */
  lemma ShiftSameDay(s1: string, s2: string, m1: Moment, m2: Moment, o1: Offset, o2: Offset)
    requires ParseDate(s1) == Some(m1) && ParseDate(s2) == Some(m2) && o1.Days? && o2.Days?
    requires ShiftMoment(m1, o1.n) == ShiftMoment(m2, o2.n)
    ensures ShiftDate(s1, o1) == ShiftDate(s2, o2)
  {
  }

  /** Two shifts in a row, stated on texts whose parses are known. */
  lemma ShiftTwice(s1: string, s2: string, m: Moment, c: Civil, a: int, b: int)
    requires ParseDate(s1) == Some(m) && ValidCivil(c) && ParseDate(s2) == Some(Moment(c, 0))
    requires DayNumber(c) == DayOf(m) + a
    ensures ShiftDate(s2, Days(b)) == ShiftDate(s1, Days(a + b))
  {
    SameShift(Moment(c, 0), b, m, a + b);
    ShiftSameDay(s2, s1, Moment(c, 0), m, Days(b), Days(a + b));
  }

  /** Shifting by `a` and then by `b` is shifting by `a + b`, whenever the intermediate date has
      a four-digit year (only then is the intermediate text an ISO date that parses back). */
  lemma ShiftCompose(d: string, a: int, b: int)
    requires ParseDate(d).Some?
    requires 1000 <= ShiftMoment(ParseDate(d).value, a).year <= 9999
    ensures ShiftDate(d, Days(a)).Some?
    ensures ShiftDate(ShiftDate(d, Days(a)).value, Days(b)) == ShiftDate(d, Days(a + b))
  {
    var m := ParseDate(d).value;
    var c := ShiftMoment(m, a);
    ShiftParsed(d, m, a);
    ParseFormat(c);
    ShiftTwice(d, Format(c), m, c, a, b);
  }

  /** Shifting a date by 0 days gives its canonical text; an already canonical date is unchanged. */
  lemma ShiftByZero(c: Civil)
    requires ValidCivil(c) && 1000 <= c.year <= 9999
    ensures ShiftDate(Format(c), Days(0)) == Some(Format(c))
  {
    ParseFormat(c);
    ShiftParsed(Format(c), Moment(c, 0), 0);
    ShiftMomentIs(Moment(c, 0), 0, c);
  }

  /** 2024-01-10 shifted by 30 days is 2024-02-09. */
  lemma ShiftExample()
    ensures ShiftDate("2024-01-10", Days(30)) == Some("2024-02-09")
  {
    var c1, c2 := Civil(2024, 1, 10), Civil(2024, 2, 9);
    FormatJan10();
    FormatFeb09();
    ParseFormat(c1);
    ShiftParsed("2024-01-10", Moment(c1, 0), 30);
    assert DayNumber(c2) == DayNumber(c1) + 30;
    ShiftMomentIs(Moment(c1, 0), 30, c2);
  }

  /** An end-of-day time counts as the next day: 2024-01-09T24:00:00Z shifted by 30 days is
      2024-02-09. */
  lemma ShiftEndOfDayExample()
    ensures ShiftDate("2024-01-09T24:00:00Z", Days(30)) == Some("2024-02-09")
  {
    var s := "2024-01-09T24:00:00Z";
    var c1, c2 := Civil(2024, 1, 10), Civil(2024, 2, 9);
    assert HasDateShape(s) && HasTimeShape(s) && EndOfDay(s);
    assert Number4(s, 0) == 2024 && Number2(s, 5) == 1 && Number2(s, 8) == 9;
    assert ParseDate(s) == Some(Moment(c1, 0));
    FormatFeb09();
    assert DayNumber(c2) == DayNumber(c1) + 30;
    ShiftMomentIs(Moment(c1, 0), 30, c2);
  }

  // ---------------------------------------------------------------------------
  // diffDays

  /** `Math.floor((base - first) / 86400000)` for two parsed moments, or NaN when either of the
      two strings (an absent base date is `new Date(undefined)`) is not a valid date. */
  function DayOffset(baseDate: Option<string>, anchor: string): (r: Offset)
    ensures r.Days? <==> baseDate.Some? && ParseDate(baseDate.value).Some? && ParseDate(anchor).Some?
  {
    if baseDate.None? then NotANumber
    else
      match (ParseDate(baseDate.value), ParseDate(anchor))
      case (Some(b), Some(a)) => Days((TimeValue(b) - TimeValue(a)) / MsPerDay)
      case _ => NotANumber
  }

  /** Between two midnights the offset is the difference of their day numbers. */
  lemma DayOffsetAtMidnight(base: string, anchor: string)
    requires ParseDate(base).Some? && ParseDate(anchor).Some?
    requires ParseDate(base).value.ms == 0 && ParseDate(anchor).value.ms == 0
    ensures DayOffset(Some(base), anchor) == Days(DayOf(ParseDate(base).value) - DayOf(ParseDate(anchor).value))
  {
    var b, a := DayOf(ParseDate(base).value), DayOf(ParseDate(anchor).value);
    assert TimeValue(ParseDate(base).value) - TimeValue(ParseDate(anchor).value) == (b - a) * MsPerDay;
  }

  /** Shifting a midnight anchor by its offset to a canonical base date gives exactly that base
      date: the first start date moves onto the base date. */
  lemma ShiftAnchorToBase(base: Civil, anchor: string)
    requires ValidCivil(base) && 1000 <= base.year <= 9999
    requires ParseDate(anchor).Some? && ParseDate(anchor).value.ms == 0
    ensures ShiftDate(anchor, DayOffset(Some(Format(base)), anchor)) == Some(Format(base))
  {
    var ma := ParseDate(anchor).value;
    var f := Format(base);
    ParseFormat(base);
    DayOffsetAtMidnight(f, anchor);
    var n := DayNumber(base) - DayOf(ma);
    assert DayOffset(Some(f), anchor) == Days(n);
    ShiftParsed(anchor, ma, n);
    ShiftMomentIs(ma, n, base);
    assert ShiftDate(anchor, Days(n)) == Some(f);
  }

  /** A base date of 2024-02-09 and a first start date of 2024-01-10 give diffDays = 30. */
  lemma DayOffsetExample()
    ensures DayOffset(Some("2024-02-09"), "2024-01-10") == Days(30)
  {
    var b, a := Civil(2024, 2, 9), Civil(2024, 1, 10);
    FormatFeb09();
    FormatJan10();
    ParseFormat(b);
    ParseFormat(a);
    DayOffsetAtMidnight(Format(b), Format(a));
  }

  // ---------------------------------------------------------------------------
  // updateMilestoneDates

  /** An open milestone of the target repository as `listMilestones` returns it. */
  datatype Milestone = Milestone(number: int, title: string, dueOn: Option<string>)

  /** One `updateMilestone` request. */
  datatype MilestoneUpdate = MilestoneUpdate(number: int, dueOn: string)

  /** The request the pass issues for one milestone: none when `due_on` is missing or empty or
      does not shift. */
  function MilestoneUpdateFor(m: Milestone, off: Offset): (r: Option<MilestoneUpdate>)
  {
    if m.dueOn.None? || m.dueOn.value == "" then None
    else
      match ShiftDate(m.dueOn.value, off)
      case None => None
      case Some(shifted) => Some(MilestoneUpdate(m.number, shifted + "T00:00:00Z"))
  }

  /** The requests of the whole pass, in listing order. */
  function MilestoneUpdates(ms: seq<Milestone>, off: Offset): seq<MilestoneUpdate> {
    if ms == [] then []
    else
      var rest := MilestoneUpdates(ms[..|ms| - 1], off);
      match MilestoneUpdateFor(ms[|ms| - 1], off)
      case None => rest
      case Some(u) => rest + [u]
  }

  /** `updateMilestoneDates(diffDays)`: the loop over the listed milestones. */
  method UpdateMilestoneDates(ms: seq<Milestone>, off: Offset) returns (updates: seq<MilestoneUpdate>)
    ensures updates == MilestoneUpdates(ms, off)
  {
    updates := [];
    for i := 0 to |ms|
      invariant updates == MilestoneUpdates(ms[..i], off)
    {
      assert ms[..i + 1][..i] == ms[..i];
      var m := ms[i];
      if m.dueOn.None? || m.dueOn.value == "" {
        continue;
      }
      var shifted := ShiftDate(m.dueOn.value, off);
      if shifted.None? {
        continue;
      }
      updates := updates + [MilestoneUpdate(m.number, shifted.value + "T00:00:00Z")];
    }
    assert ms[..|ms|] == ms;
  }

  /** Every request comes from a milestone whose `due_on` shifted, carries its number and the
      shifted date at UTC midnight; every such milestone gets one. */
  lemma {:induction false} MilestoneUpdatesExactly(ms: seq<Milestone>, off: Offset, u: MilestoneUpdate)
    ensures u in MilestoneUpdates(ms, off) <==>
      exists i :: 0 <= i < |ms| && MilestoneUpdateFor(ms[i], off) == Some(u)
  {
    if ms != [] {
      var init := ms[..|ms| - 1];
      MilestoneUpdatesExactly(init, off, u);
      if u in MilestoneUpdates(ms, off) && u !in MilestoneUpdates(init, off) {
        assert MilestoneUpdateFor(ms[|ms| - 1], off) == Some(u);
      }
      if exists i :: 0 <= i < |ms| && MilestoneUpdateFor(ms[i], off) == Some(u) {
        var i :| 0 <= i < |ms| && MilestoneUpdateFor(ms[i], off) == Some(u);
        if i < |ms| - 1 { assert init[i] == ms[i]; }
      }
    }
  }

  /** A milestone that is left alone: no `due_on`, or one that does not parse. */
  lemma MilestoneUntouched(m: Milestone, off: Offset)
    requires m.dueOn.None? || ParseDate(m.dueOn.value).None?
    ensures MilestoneUpdateFor(m, off).None?
  {
  }

  /** A `due_on` the pass writes (a formatted date at "T00:00:00Z") parses back to that day. */
  lemma ParseFormatMidnight(c: Civil)
    requires ValidCivil(c) && 1000 <= c.year <= 9999
    ensures ParseDate(Format(c) + "T00:00:00Z") == Some(Moment(c, 0))
  {
    var s := Format(c) + "T00:00:00Z";
    FormatShape(c);
    MidnightDate(Format(c));
    MidnightTime(Format(c));
    assert IsoAccepted(s);
  }

  /** Appending a time keeps the date part of a `YYYY-MM-DD` string. */
  lemma MidnightDate(f: string)
    requires |f| == 10 && HasDateShape(f)
    ensures var s := f + "T00:00:00Z";
      HasDateShape(s) && Number4(s, 0) == Number4(f, 0) && Number2(s, 5) == Number2(f, 5) &&
      Number2(s, 8) == Number2(f, 8)
  {
    var s := f + "T00:00:00Z";
    assert forall k :: 0 <= k < 10 ==> s[k] == f[k];
  }

  /** "T00:00:00Z" after ten characters is a time of day at midnight. */
  lemma MidnightTime(f: string)
    requires |f| == 10
    ensures var s := f + "T00:00:00Z";
      HasTimeShape(s) && Number2(s, 11) == 0 && Number2(s, 14) == 0 && Number2(s, 17) == 0
  {
    var t := "T00:00:00Z";
    var s := f + t;
    assert forall k :: 0 <= k < 10 ==> s[10 + k] == t[k];
  }

  /** Due 2024-01-15T00:00:00Z shifted by 30 days becomes 2024-02-14T00:00:00Z. */
  lemma MilestoneExample(number: int, title: string)
    ensures MilestoneUpdateFor(Milestone(number, title, Some("2024-01-15T00:00:00Z")), Days(30))
         == Some(MilestoneUpdate(number, "2024-02-14T00:00:00Z"))
  {
    var c1, c2 := Civil(2024, 1, 15), Civil(2024, 2, 14);
    var due := "2024-01-15T00:00:00Z";
    DueDateParses();
    ShiftParsed(due, Moment(c1, 0), 30);
    assert DayNumber(c2) == DayNumber(c1) + 30;
    ShiftMomentIs(Moment(c1, 0), 30, c2);
    FormatFeb14();
  }

  lemma DueDateParses()
    ensures ParseDate("2024-01-15T00:00:00Z") == Some(Moment(Civil(2024, 1, 15), 0))
  {
    var c1 := Civil(2024, 1, 15);
    FormatJan15();
    assert "2024-01-15T00:00:00Z" == Format(c1) + "T00:00:00Z";
    ParseFormatMidnight(c1);
  }

  lemma Year2024()
    ensures IntToString(2024) == "2024"
  {
    NatToStringStep(2024);
    NatToStringStep(202);
    NatToStringStep(20);
    assert DigitChar(2) == '2' && DigitChar(0) == '0' && DigitChar(4) == '4';
  }

  lemma FormatJan15()
    ensures Format(Civil(2024, 1, 15)) == "2024-01-15"
  {
    Year2024();
    Pad2OneDigit(1);
    Pad2TwoDigits(15);
    assert DigitChar(1) == '1' && DigitChar(5) == '5';
  }

  lemma FormatFeb14()
    ensures Format(Civil(2024, 2, 14)) == "2024-02-14"
    ensures Format(Civil(2024, 2, 14)) + "T00:00:00Z" == "2024-02-14T00:00:00Z"
  {
    Year2024();
    Pad2OneDigit(2);
    Pad2TwoDigits(14);
    assert DigitChar(1) == '1' && DigitChar(2) == '2' && DigitChar(4) == '4';
  }

  lemma FormatJan10()
    ensures Format(Civil(2024, 1, 10)) == "2024-01-10"
  {
    Year2024();
    Pad2OneDigit(1);
    Pad2TwoDigits(10);
    assert DigitChar(0) == '0' && DigitChar(1) == '1';
  }

  lemma FormatFeb09()
    ensures Format(Civil(2024, 2, 9)) == "2024-02-09"
  {
    Year2024();
    Pad2OneDigit(2);
    Pad2OneDigit(9);
    assert DigitChar(2) == '2' && DigitChar(9) == '9';
  }
}
