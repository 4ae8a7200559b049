// Scheduled requirements, the instants at which they are due, and the horizon within which a
// due instant must show up.

module Requirements {
  import opened LocalTime

  /** When a requirement applies: `onlyAt` overrides everything else, an empty list constrains nothing. */
  datatype TimeSpec = TimeSpec(
    seconds: seq<int>, minutes: seq<int>, hours: seq<int>, dow: seq<int>, dom: seq<int>,
    onlyAt: seq<int>, gap: int)

  datatype Command = NoOp | PlayFiles | LegalId | SetMainshow

  datatype Requirement = Requirement(when: TimeSpec, command: Command, reboot: bool, advance: int, target: string)

  predicate Matches(list: seq<int>, v: int) {
    list == [] || v in list
  }

  /** Every list of the specification admits the value of its field. */
  predicate Meets(w: TimeSpec, tm: Tm) {
    && Matches(w.dom, tm.mday)
    && Matches(w.dow, tm.wday)
    && Matches(w.hours, tm.hour)
    && Matches(w.minutes, tm.min)
    && Matches(w.seconds, tm.sec)
  }

  /** Whether `item` is due at instant `t` in a zone `offset` seconds east of UTC. */
  predicate Due(item: Requirement, t: int, offset: int) {
    if item.when.onlyAt != [] then t in item.when.onlyAt else Meets(item.when, Fields(t, offset))
  }

  /**
   * What being due means, for every date and time of day at the fixed offset, and so for every instant
   * (`LocalTime.EveryInstantHasDate`): explicit instants decide alone; otherwise each list that is not
   * empty must hold the day of the month, the weekday, the hour, the minute and the second, each its own.
   */
  lemma DueOnDate(item: Requirement, y: int, m: int, d: int, h: int, min: int, s: int, offset: int)
    requires ValidDate(y, m, d) && ValidTime(h, min, s)
    ensures var w, t := item.when, Instant(y, m, d, h, min, s, offset);
            && (w.onlyAt != [] ==> (Due(item, t, offset) <==> t in w.onlyAt))
            && (w.onlyAt == [] ==>
                  (Due(item, t, offset) <==>
                     && (w.dom == [] || d in w.dom)
                     && (w.dow == [] || Weekday(y, m, d) in w.dow)
                     && (w.hours == [] || h in w.hours)
                     && (w.minutes == [] || min in w.minutes)
                     && (w.seconds == [] || s in w.seconds)))
  {
    FieldsOfDate(y, m, d, h, min, s, offset);
  }

  // ---- Weekly requirements -------------------------------------------------------------------

  /** Neither explicit instants nor days of the month: what is left repeats every week. */
  predicate Weekly(w: TimeSpec) {
    w.onlyAt == [] && w.dom == []
  }

  predicate Reachable(list: seq<int>, n: int) {
    list == [] || exists v :: v in list && 0 <= v < n
  }

  /** Every list is empty or names at least one value its field can take. */
  predicate Satisfiable(w: TimeSpec) {
    Reachable(w.seconds, 60) && Reachable(w.minutes, 60) && Reachable(w.hours, 24) && Reachable(w.dow, 7)
  }

  ghost predicate DueWithin(item: Requirement, offset: int, from: int, span: int) {
    exists t :: from <= t < from + span && Due(item, t, offset)
  }

  /** The second of the week, counted from Sunday midnight local time. */
  function WeekSecond(t: int, offset: int): (p: int)
    ensures 0 <= p < WEEK
  {
    (t + offset + 4 * DAY) % WEEK
  }

  lemma MinuteOfDay(k: int, rest: int)
    ensures (DAY * k + rest) / 60 == 1440 * k + rest / 60
  {
  }

  lemma HourOfDay(k: int, rest: int)
    ensures (DAY * k + rest) / 3600 == 24 * k + rest / 3600
  {
  }

  lemma SecondOfDay(u: int, k: int, rest: int)
    requires u == DAY * k + rest && 0 <= rest < DAY
    ensures u / DAY == k && u % 60 == rest % 60
    ensures u / 60 % 60 == rest / 60 % 60
    ensures u / 3600 % 24 == rest / 3600
  {
    MinuteOfDay(k, rest);
    HourOfDay(k, rest);
    Quotient(u, DAY, k, rest);
    Quotient(24 * k + rest / 3600, 24, k, rest / 3600);
  }

  lemma DayOfWeek(k: int, rest: int)
    requires 0 <= rest < DAY
    ensures (DAY * k + rest) % WEEK == k % 7 * DAY + rest
  {
  }

  /** The second of the week, read as a mixed-radix number, is the four weekly fields. */
  lemma WeekSecondDeterminesFields(t: int, offset: int)
    ensures var p, tm := WeekSecond(t, offset), Fields(t, offset);
            p == ((tm.wday * 24 + tm.hour) * 60 + tm.min) * 60 + tm.sec
  {
    var u := t + offset;
    var k, rest := u / DAY, u % DAY;
    SecondOfDay(u, k, rest);
    DayOfWeek(k + 4, rest);
    assert rest == (rest / 3600 * 60 + rest / 60 % 60) * 60 + rest % 60;
  }

  /** The four weekly fields of an instant pin down its second of the week, and the other way round. */
  lemma WeekSecondsAgree(t: int, u: int, offset: int)
    requires WeekSecond(t, offset) == WeekSecond(u, offset)
    ensures Fields(t, offset).(mday := 1) == Fields(u, offset).(mday := 1)
  {
    WeekSecondDeterminesFields(t, offset);
    WeekSecondDeterminesFields(u, offset);
    MixedRadix(Fields(t, offset), Fields(u, offset));
  }

  lemma Digit60(x: int, r: int, y: int, s: int)
    requires 0 <= r < 60 && 0 <= s < 60 && x * 60 + r == y * 60 + s
    ensures x == y && r == s
  {
  }

  lemma Digit24(x: int, r: int, y: int, s: int)
    requires 0 <= r < 24 && 0 <= s < 24 && x * 24 + r == y * 24 + s
    ensures x == y && r == s
  {
  }

  lemma MixedRadix(a: Tm, b: Tm)
    requires 0 <= a.sec < 60 && 0 <= a.min < 60 && 0 <= a.hour < 24
    requires 0 <= b.sec < 60 && 0 <= b.min < 60 && 0 <= b.hour < 24
    requires ((a.wday * 24 + a.hour) * 60 + a.min) * 60 + a.sec == ((b.wday * 24 + b.hour) * 60 + b.min) * 60 + b.sec
    ensures a.sec == b.sec && a.min == b.min && a.hour == b.hour && a.wday == b.wday
  {
    Digit60((a.wday * 24 + a.hour) * 60 + a.min, a.sec, (b.wday * 24 + b.hour) * 60 + b.min, b.sec);
    Digit60(a.wday * 24 + a.hour, a.min, b.wday * 24 + b.hour, b.min);
    Digit24(a.wday, a.hour, b.wday, b.hour);
  }

  lemma WeekSecondRepeats(t: int, offset: int)
    ensures WeekSecond(t + WEEK, offset) == WeekSecond(t, offset)
  {
  }

  lemma WeeklyFieldsSuffice(w: TimeSpec, a: Tm, b: Tm)
    requires w.dom == [] && a.(mday := 1) == b.(mday := 1)
    ensures Meets(w, a) <==> Meets(w, b)
  {
  }

  /** A weekly requirement is due at an instant exactly when it is due one week later. */
  lemma DueIsWeekly(item: Requirement, t: int, offset: int)
    requires Weekly(item.when)
    ensures Due(item, t + WEEK, offset) <==> Due(item, t, offset)
  {
    WeekSecondRepeats(t, offset);
    WeekSecondsAgree(t, t + WEEK, offset);
    WeeklyFieldsSuffice(item.when, Fields(t, offset), Fields(t + WEEK, offset));
  }

  lemma Reach(list: seq<int>, n: int) returns (v: int)
    requires n > 0 && Reachable(list, n)
    ensures 0 <= v < n && Matches(list, v)
  {
    if list == [] {
      v := 0;
    } else {
      v :| v in list && 0 <= v < n;
    }
  }

  /** The first instant from `from` on that falls on second `p` of the week. */
  function NextWeekSecond(from: int, offset: int, p: int): (t: int)
    requires 0 <= p < WEEK
    ensures from <= t < from + WEEK && WeekSecond(t, offset) == p
  {
    from + (p - WeekSecond(from, offset)) % WEEK
  }

  /**
   * The seven-day search horizon is enough, and only then: a weekly requirement has a due instant in
   * the week after any instant if and only if each of its lists is empty or names a value in range.
   */
  lemma HorizonSuffices(item: Requirement, offset: int, from: int)
    requires Weekly(item.when)
    ensures DueWithin(item, offset, from, WEEK) <==> Satisfiable(item.when)
  {
    var w := item.when;
    if Satisfiable(w) {
      var s := Reach(w.seconds, 60);
      var m := Reach(w.minutes, 60);
      var h := Reach(w.hours, 24);
      var d := Reach(w.dow, 7);
      var t := NextWeekSecond(from, offset, ((d * 24 + h) * 60 + m) * 60 + s);
      WeekSecondDeterminesFields(t, offset);
      MixedRadix(Fields(t, offset), Tm(s, m, h, d, 1));
      assert Due(item, t, offset);
    }
  }

  /** An unsatisfiable weekly requirement is never due at all, in this week or any other. */
  lemma NeverDue(item: Requirement, offset: int, t: int)
    requires Weekly(item.when) && !Satisfiable(item.when)
    ensures !Due(item, t, offset)
  {
  }
}
