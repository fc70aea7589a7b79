/**
 * The status message of the sportsball page (`sched_message`) and the
 * "is there a game here today" flag the 8-ball page computes beside it.
 */
module Sportsball {
  import opened Wrappers
  import opened Strings
  import opened IsoDate
  import opened Feed
  import opened Query
  import opened Schedule

  /** The feed `Schedule.get` reads by default. */
  const SchedUrl: string := "http://mlb.mlb.com/soa/ical/schedule.csv?team_id=137&season=2015"
  /** `Schedule.get`'s default `max_age`, one day, with times counted in seconds. */
  const OneDay: int := 86400

  const NoMoreGames: string := "No more home games!"
  const UntilNextYear: string := "(...until next year...)"
  const NoGameToday: string := "No home game today!"

  /**
   * `sched_message(isodate)` over the cutoff view `events` that both of its
   * queries see: three cases on the next event at the ballpark. `Err` where
   * Python raises in `day_of_isodate` or `next_isodate`.
   */
  function Message(isodate: string, events: seq<Event>): (r: Result<seq<string>, Error>)
    ensures r.Ok? ==> |r.value| == 2
    ensures r.Err? ==> r.error == BadDate
  {
    match FirstWith(events, Here)
    case None => Ok([NoMoreGames, UntilNextYear])
    case Some(e) =>
      if e.date != isodate then
        match DayOfIsoDate(e.date)
        case None => Err(BadDate)
        case Some(day) =>
          Ok([NoGameToday, "All quiet until " + day + ", " + e.date + ", when Giants play " + e.them + " at " + e.time])
      else
        match FreeDay(events, isodate, Here)
        case None => Err(BadDate)
        case Some(quiet) =>
          match DayOfIsoDate(quiet)
          case None => Err(BadDate)
          case Some(day) =>
            Ok(["Giants play " + e.them + " at " + e.time + "\n", "No peace and quiet until " + day + ", " + quiet])
  }

  /**
   * The `is_home` flag of the 8-ball page: the next event here is dated
   * today. In a cutoff view in date order, that is the same as some event
   * here being dated today.
   */
  predicate IsHomeToday(isodate: string, events: seq<Event>)
    ensures IsHomeToday(isodate, events) ==>
      exists i :: 0 <= i < |events| && events[i].isHere && events[i].date == isodate
    ensures (Ascending(events) && AllFrom(events, isodate) &&
             exists i :: 0 <= i < |events| && events[i].isHere && events[i].date == isodate) ==>
      IsHomeToday(isodate, events)
  {
    GameTodayIsFirst(isodate, events);
    FirstWith(events, Here).Some? && FirstWith(events, Here).value.date == isodate
  }

  /** In a view in date order from `isodate` on, a game here today is the first event here. */
  lemma GameTodayIsFirst(isodate: string, events: seq<Event>)
    ensures (Ascending(events) && AllFrom(events, isodate) &&
             exists i :: 0 <= i < |events| && events[i].isHere && events[i].date == isodate) ==>
      FirstWith(events, Here).Some? && FirstWith(events, Here).value.date == isodate
  {
    if Ascending(events) && AllFrom(events, isodate) &&
      exists i :: 0 <= i < |events| && events[i].isHere && events[i].date == isodate
    {
      var i :| 0 <= i < |events| && events[i].isHere && events[i].date == isodate;
      assert Has(events[i], Here);
      var e := FirstWith(events, Here).value;
      var j :| 0 <= j < |events| && events[j] == e && Has(e, Here) && forall k :: 0 <= k < j ==> !Has(events[k], Here);
      if j < i {
        assert LexLt(events[j].date, events[i].date);
        assert LexLe(isodate, events[j].date);
        LexLeAntisymmetric(isodate, events[j].date);
      }
    }
  }

  /** The game-today first line is neither of the other two first lines. */
  lemma GameLineDiffers(them: string, time: string)
    ensures var line := "Giants play " + them + " at " + time + "\n";
      line != NoMoreGames && line != NoGameToday
  {
    var line := "Giants play " + them + " at " + time + "\n";
    assert line[0] == 'G';
  }

  /** The message says there are no more home games exactly when no event lies ahead at the ballpark. */
  lemma MessageNoGames(isodate: string, events: seq<Event>)
    ensures Message(isodate, events) == Ok([NoMoreGames, UntilNextYear]) <==>
      forall i :: 0 <= i < |events| ==> !events[i].isHere
  {
    var e := FirstWith(events, Here);
    if e.Some? {
      GameLineDiffers(e.value.them, e.value.time);
    }
  }

  /**
   * When the next event here is on a later day, the message says so and
   * announces that event with its weekday, date, opponent and time; with
   * the cutoff view that day is strictly after the query date.
   */
  lemma MessageLaterGame(isodate: string, events: seq<Event>)
    requires FirstWith(events, Here).Some? && FirstWith(events, Here).value.date != isodate
    requires DayOfIsoDate(FirstWith(events, Here).value.date).Some?
    ensures var e := FirstWith(events, Here).value;
      && Message(isodate, events) == Ok([NoGameToday,
           "All quiet until " + DayOfIsoDate(e.date).value + ", " + e.date + ", when Giants play " + e.them + " at " + e.time])
      && DayOfIsoDate(e.date).value in WeekdayNames
      && (AllFrom(events, isodate) ==> LexLt(isodate, e.date))
  {
    var e := FirstWith(events, Here).value;
    if AllFrom(events, isodate) {
      var i :| 0 <= i < |events| && events[i] == e;
      assert LexLe(isodate, events[i].date);
    }
  }

  /**
   * When the view starts with an event here dated on the query date, the
   * message takes its game-today branch: line one names that event's
   * opponent and time, and line two names a quiet day strictly later than
   * the query date, with its weekday. No ordering of the view is needed.
   */
  lemma MessageGameTodayLater(isodate: string, events: seq<Event>)
    requires events != [] && events[0].isHere && events[0].date == isodate
    requires DayOfIsoDate(isodate).Some?
    requires FreeDay(events, isodate, Here).Some?
    ensures var quiet := FreeDay(events, isodate, Here).value;
      && FirstWith(events, Here) == Some(events[0])
      && LexLt(isodate, quiet)
      && DayOfIsoDate(quiet).Some?
      && Message(isodate, events) == Ok(["Giants play " + events[0].them + " at " + events[0].time + "\n",
           "No peace and quiet until " + DayOfIsoDate(quiet).value + ", " + quiet])
  {
    var quiet := FreeDay(events, isodate, Here).value;
    WalkMoved(events, isodate, Here);
    LaterYear(isodate, quiet);
  }

  /**
   * When the next event here is today, and the view holds one event per day
   * in order from the query date on, the message names the opponent and
   * time, and the quiet day it announces is strictly later than today, has
   * no event at the ballpark, and is the first such day: every day from
   * today up to it has one.
   */
  lemma MessageGameToday(isodate: string, events: seq<Event>)
    requires Ascending(events) && AllCanonical(events) && AllFrom(events, isodate)
    requires DayOfIsoDate(isodate).Some?
    requires FirstWith(events, Here).Some? && FirstWith(events, Here).value.date == isodate
    requires FreeDay(events, isodate, Here).Some?
    ensures var e := FirstWith(events, Here).value;
      var quiet := FreeDay(events, isodate, Here).value;
      && LexLt(isodate, quiet)
      && (forall i :: 0 <= i < |events| && events[i].isHere ==> events[i].date != quiet)
      && (forall t :: IsCanonical(t) && LexLe(isodate, t) && LexLt(t, quiet) ==>
            exists i :: 0 <= i < |events| && events[i].isHere && events[i].date == t)
      && DayOfIsoDate(quiet).Some?
      && Message(isodate, events) == Ok(["Giants play " + e.them + " at " + e.time + "\n",
           "No peace and quiet until " + DayOfIsoDate(quiet).value + ", " + quiet])
  {
    FirstIsHead(isodate, events);
    MessageGameTodayLater(isodate, events);
    FreeDayIsFree(events, isodate, Here);
    FreeDayEarliest(events, isodate, Here);
  }

  /**
   * An event elsewhere listed before the game here on the same day leaves
   * the walk where it started: the game-today branch is taken, and line two
   * announces peace and quiet from the query date itself.
   */
  lemma MessageQuietToday(x: Event, y: Event)
    requires !x.isHere && y.isHere && x.date == y.date
    requires DayOfIsoDate(y.date).Some?
    ensures Message(y.date, [x, y]) == Ok(["Giants play " + y.them + " at " + y.time + "\n",
      "No peace and quiet until " + DayOfIsoDate(y.date).value + ", " + y.date])
  {
    var events := [x, y];
    FirstIs(events, Here, 1);
    assert FreeDay(events, y.date, Here) == Some(y.date);
  }

  /**
   * In an ascending view from the query date on, an event here dated on the
   * query date is the head of the view, so the walk starts from it.
   */
  lemma FirstIsHead(isodate: string, events: seq<Event>)
    requires Ascending(events) && AllFrom(events, isodate)
    requires FirstWith(events, Here).Some? && FirstWith(events, Here).value.date == isodate
    ensures events != [] && events[0] == FirstWith(events, Here).value
  {
    var e := FirstWith(events, Here).value;
    var i :| 0 <= i < |events| && events[i] == e && Has(e, Here) && forall j :: 0 <= j < i ==> !Has(events[j], Here);
    if i > 0 {
      assert LexLt(events[0].date, events[i].date);
      assert LexLe(isodate, events[0].date);
      LexLeLtTransitive(isodate, events[0].date, isodate);
      assert false;
    }
  }

  /** The page's `is_home` flag is set exactly when the message takes its game-today branch. */
  lemma IsHomeMatchesMessage(isodate: string, events: seq<Event>)
    requires Message(isodate, events).Ok?
    ensures IsHomeToday(isodate, events) <==>
      Message(isodate, events).value[0] != NoMoreGames && Message(isodate, events).value[0] != NoGameToday
  {
    var e := FirstWith(events, Here);
    if e.Some? {
      GameLineDiffers(e.value.them, e.value.time);
    }
  }

  /**
   * The whole of `sched_message`: default the date to today, `get` the
   * default schedule (refreshing it from `rows` if due), and compose the
   * message from the events here, both queries reading one memoised view.
   */
  method SchedMessage(store: Store, isodate: Option<string>, today: string, now: int, rows: Option<seq<Row>>)
    returns (r: Result<seq<string>, Error>)
    requires store.Valid()
    modifies store
    ensures store.Valid()
    ensures var iso := if isodate.None? || isodate.value == "" then today else isodate.value;
      var entry := Got(old(store.Lookup(SchedUrl)), SchedUrl, OneDay, now, FeedResult(rows));
      var v := View(old(store.memo), entry, CutoffKey(Some(iso), today));
      r == if v.Err? then Err(v.error) else Message(iso, v.value)
    ensures var entry := Got(old(store.Lookup(SchedUrl)), SchedUrl, OneDay, now, FeedResult(rows));
      if NeedsRefresh(old(store.Lookup(SchedUrl)), OneDay, now)
      then store.entities == old(store.entities)[SchedUrl := entry]
      else store.entities == old(store.entities)
    ensures var iso := if isodate.None? || isodate.value == "" then today else isodate.value;
      var entry := Got(old(store.Lookup(SchedUrl)), SchedUrl, OneDay, now, FeedResult(rows));
      var v := View(old(store.memo), entry, CutoffKey(Some(iso), today));
      && (v.Ok? ==> store.memo == old(store.memo)[CutoffKey(Some(iso), today) := v.value] && AllFrom(v.value, iso))
      && (v.Err? ==> store.memo == old(store.memo))
  {
    var iso := if isodate.None? || isodate.value == "" then today else isodate.value;
    var sched := store.Get(SchedUrl, OneDay, now, rows);
    ghost var key := CutoffKey(Some(iso), today);
    assert key == iso;
    var next := store.NextEvent(sched, Some(iso), today, Here);
    if next.Err? {
      return Err(next.error);
    }
    assert key in store.memo && AllFrom(store.memo[key], iso);
    match next.value
    case None =>
      r := Ok([NoMoreGames, UntilNextYear]);
    case Some(e) =>
      if e.date != iso {
        var day := DayOfIsoDate(e.date);
        if day.None? {
          return Err(BadDate);
        }
        r := Ok([NoGameToday, "All quiet until " + day.value + ", " + e.date + ", when Giants play " + e.them + " at " + e.time]);
      } else {
        ghost var memo := store.memo;
        var quiet := store.NextFreeDay(sched, Some(iso), today, Here);
        KeepsMemo(memo, store.memo, key);
        if quiet.Err? {
          return Err(quiet.error);
        }
        var day := DayOfIsoDate(quiet.value);
        if day.None? {
          return Err(BadDate);
        }
        r := Ok(["Giants play " + e.them + " at " + e.time + "\n", "No peace and quiet until " + day.value + ", " + quiet.value]);
      }
  }

  /** Storing again the list a key already holds changes nothing. */
  lemma KeepsMemo(before: map<string, seq<Event>>, after: map<string, seq<Event>>, key: string)
    requires key in before && after == before[key := before[key]]
    ensures after == before
  {
  }
}
