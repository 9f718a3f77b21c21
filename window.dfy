/** The query windows of the two history intents. Instants are epoch
    milliseconds (UTC); the server's local zone is a fixed offset in
    milliseconds (local time = UTC + offset), which is what `dayjs()` uses
    when it takes the start and end of the local day or ISO week. */
module TimeWindow {

  const SecondMs: int := 1000
  const DayMs: int := 86_400_000
  const WeekMs: int := 7 * DayMs

  /** A window whose two ends are both inclusive: the query filters with
      `gte(start)` and `lte(end)`. */
  datatype Window = Window(start: int, end: int)

  predicate InWindow(t: int, w: Window)
  {
    w.start <= t <= w.end
  }

  /** The local calendar day of instant `t`, counted from 1970-01-01. */
  function LocalDay(t: int, offset: int): int
  {
    (t + offset) / DayMs
  }

  /** ISO 8601 day of the week of a day number, 0 for Monday to 6 for
      Sunday; day 0, 1970-01-01, was a Thursday. */
  function IsoWeekday(day: int): int
  {
    (day + 3) % 7
  }

  /** The local ISO 8601 week of instant `t`, counted in weeks from Monday
      1969-12-29 (section 4.1.4 of ISO 8601:2004: a week runs Monday to Sunday). */
  function IsoWeekIndex(t: int, offset: int): int
  {
    (LocalDay(t, offset) + 3) / 7
  }

  // ------------------------------------------- floor division by a constant

  lemma FloorDivDay(x: int, q: int)
    ensures q <= x / DayMs <==> q * DayMs <= x
    ensures x / DayMs < q <==> x < q * DayMs
  {
  }

  lemma FloorDivWeek(x: int, q: int)
    ensures q <= x / 7 <==> 7 * q <= x
    ensures x / 7 < q <==> x < 7 * q
  {
  }

  // -------------------------------------------------------------- the windows

  /** `dayjs().startOf('day')` to `dayjs().endOf('day')`: local midnight of
      the day holding `now`, up to 23:59:59.999 local time. */
  function TodayWindow(now: int, offset: int): (w: Window)
    ensures w.end - w.start == DayMs - 1
    ensures InWindow(now, w)
    ensures (w.start + offset) % DayMs == 0
  {
    var start := LocalDay(now, offset) * DayMs - offset;
    FloorDivDay(now + offset, LocalDay(now, offset));
    FloorDivDay(now + offset, LocalDay(now, offset) + 1);
    Window(start, start + DayMs - 1)
  }

  /** An instant lies in today's window exactly when it falls on the same
      local calendar day as `now`. */
  lemma TodayWindowIsLocalDay(now: int, offset: int, t: int)
    ensures InWindow(t, TodayWindow(now, offset)) <==> LocalDay(t, offset) == LocalDay(now, offset)
  {
    var d := LocalDay(now, offset);
    FloorDivDay(t + offset, d);
    FloorDivDay(t + offset, d + 1);
  }

  /** `dayjs().startOf('isoWeek')` to `dayjs().endOf('isoWeek')`: Monday
      00:00 local time of the ISO week holding `now`, up to Sunday
      23:59:59.999 local time. */
  function WeekWindow(now: int, offset: int): (w: Window)
    ensures w.end - w.start == WeekMs - 1
    ensures InWindow(now, w)
    ensures (w.start + offset) % DayMs == 0
    ensures IsoWeekday(LocalDay(w.start, offset)) == 0
  {
    var day := LocalDay(now, offset);
    var monday := day - IsoWeekday(day);
    var start := monday * DayMs - offset;
    FloorDivDay(now + offset, day);
    FloorDivDay(now + offset, day + 1);
    assert LocalDay(start, offset) == monday by {
      FloorDivDay(start + offset, monday);
      FloorDivDay(start + offset, monday + 1);
    }
    Window(start, start + WeekMs - 1)
  }

  /** An instant lies in this week's window exactly when it falls in the
      same local ISO week as `now`. */
  lemma WeekWindowIsIsoWeek(now: int, offset: int, t: int)
    ensures InWindow(t, WeekWindow(now, offset)) <==> IsoWeekIndex(t, offset) == IsoWeekIndex(now, offset)
  {
    var day := LocalDay(now, offset);
    var monday := day - IsoWeekday(day);
    var week := IsoWeekIndex(now, offset);
    assert monday == 7 * week - 3;
    var tDay := LocalDay(t, offset);
    FloorDivDay(t + offset, monday);
    FloorDivDay(t + offset, monday + 7);
    FloorDivWeek(tDay + 3, week);
    FloorDivWeek(tDay + 3, week + 1);
  }

  /** Today's window lies inside this week's window. */
  lemma TodayWithinWeek(now: int, offset: int)
    ensures WeekWindow(now, offset).start <= TodayWindow(now, offset).start
    ensures TodayWindow(now, offset).end <= WeekWindow(now, offset).end
  {
    var today := TodayWindow(now, offset);
    WeekWindowIsIsoWeek(now, offset, today.start);
    WeekWindowIsIsoWeek(now, offset, today.end);
    TodayWindowIsLocalDay(now, offset, today.start);
    TodayWindowIsLocalDay(now, offset, today.end);
  }

  // ------------------------------------------- the bounds as sent, as written

  /** `.utc().format()` renders an instant as 'YYYY-MM-DDTHH:mm:ssZ', which
      has no fractional seconds: the bound the store receives is the instant
      rounded down to a whole second. */
  function ToWholeSecond(t: int): (r: int)
    ensures r <= t < r + SecondMs
    ensures r % SecondMs == 0
  {
    t - t % SecondMs
  }

  /** The window the store actually filters with, both bounds formatted. */
  function SentWindow(w: Window): (r: Window)
    ensures r.start <= w.start < r.start + SecondMs
    ensures r.end <= w.end < r.end + SecondMs
    ensures r.start % SecondMs == 0 && r.end % SecondMs == 0
  {
    Window(ToWholeSecond(w.start), ToWholeSecond(w.end))
  }

  /** For a window starting on a whole second and ending on the last
      millisecond of a second, the formatted bounds lose exactly the last
      999 milliseconds of the window. */
  lemma SentWindowDropsLastSecond(w: Window, t: int)
    requires w.start % SecondMs == 0 && w.end % SecondMs == SecondMs - 1
    ensures InWindow(t, SentWindow(w)) <==> w.start <= t <= w.end - (SecondMs - 1)
  {
  }

  /** An instant at a local midnight, with the zone offset a whole number of
      seconds, is itself a whole second. */
  lemma MidnightIsWholeSecond(t: int, offset: int)
    requires offset % SecondMs == 0 && (t + offset) % DayMs == 0
    ensures t % SecondMs == 0
  {
    var day := (t + offset) / DayMs;
    assert t == SecondMs * (day * 86_400 - offset / SecondMs);
  }

  /** With the zone offset a whole number of seconds, both windows start on
      a whole second and end on the last millisecond of one. */
  lemma WindowsAlignedToSeconds(now: int, offset: int)
    requires offset % SecondMs == 0
    ensures TodayWindow(now, offset).start % SecondMs == 0
    ensures TodayWindow(now, offset).end % SecondMs == SecondMs - 1
    ensures WeekWindow(now, offset).start % SecondMs == 0
    ensures WeekWindow(now, offset).end % SecondMs == SecondMs - 1
  {
    var today := TodayWindow(now, offset);
    var week := WeekWindow(now, offset);
    MidnightIsWholeSecond(today.start, offset);
    MidnightIsWholeSecond(week.start, offset);
    assert today.end == today.start + SecondMs * 86_400 - 1;
    assert week.end == week.start + SecondMs * 604_800 - 1;
  }

  /** A record written at 23:59:59.999 local time (UTC+8) on Wednesday
      2023-11-15 belongs to that day's window and to no later day's, and one
      written at 23:59:59.999 on the Sunday after belongs to that week's
      window; yet the formatted bounds sent to the store leave both out. */
  lemma LastMillisecondMissed()
    ensures var offset, now := 8 * 3_600_000, 1_700_000_000_000;
            var endOfDay, endOfWeek := 1_700_063_999_999, 1_700_409_599_999;
            && InWindow(endOfDay, TodayWindow(now, offset))
            && !InWindow(endOfDay, TodayWindow(now + DayMs, offset))
            && !InWindow(endOfDay, SentWindow(TodayWindow(now, offset)))
            && InWindow(endOfWeek, WeekWindow(now, offset))
            && !InWindow(endOfWeek, SentWindow(WeekWindow(now, offset)))
  {
    var offset, now := 8 * 3_600_000, 1_700_000_000_000;
    assert LocalDay(now, offset) == 19_676;
    assert LocalDay(now + DayMs, offset) == 19_677;
  }
}
