/**
 * The queries `Schedule` answers over a list of events: the cutoff filter of
 * `get_events`, the first-match scan of `get_next_home_event` and the day
 * walk of `get_next_non_home_day`, each for either flag (`is_home`, or its
 * `is_here` twin that `sportsball.py` asks for).
 */
module Query {
  import opened Wrappers
  import opened Strings
  import opened IsoDate
  import opened Feed

  /** Which event flag a query looks at. */
  datatype Flag = Home | Here

  predicate Has(e: Event, f: Flag)
  {
    match f
    case Home => e.isHome
    case Here => e.isHere
  }

  /** The events dated on or after `min`, comparing ISO dates as strings, in their original order. */
  function Filter(events: seq<Event>, min: string): (r: seq<Event>)
    ensures forall e :: e in r <==> e in events && LexLe(min, e.date)
    ensures |r| <= |events|
  {
    if events == [] then []
    else (if LexLe(min, events[0].date) then [events[0]] else []) + Filter(events[1..], min)
  }

  /** Filtering keeps order: the filter of a concatenation is the concatenation of the filters. */
  lemma {:induction false} FilterAppend(a: seq<Event>, b: seq<Event>, min: string)
    ensures Filter(a + b, min) == Filter(a, min) + Filter(b, min)
  {
    if a == [] {
      assert a + b == b;
    } else {
      assert (a + b)[1..] == a[1..] + b;
      FilterAppend(a[1..], b, min);
    }
  }

  /** Dates strictly increase along the list: one event per day, in date order. */
  predicate Ascending(events: seq<Event>)
  {
    forall i, j :: 0 <= i < j < |events| ==> LexLt(events[i].date, events[j].date)
  }

  /** Every date is a well-formed `YYYY-MM-DD` string, as `get_feed` writes them. */
  predicate AllCanonical(events: seq<Event>)
  {
    forall i :: 0 <= i < |events| ==> IsCanonical(events[i].date)
  }

  /** Every date is on or after `d`. */
  predicate AllFrom(events: seq<Event>, d: string)
  {
    forall i :: 0 <= i < |events| ==> LexLe(d, events[i].date)
  }

  /** Every date `get_feed` writes is a well-formed `YYYY-MM-DD` string. */
  lemma FeedDatesCanonical(rows: seq<Row>)
    requires AllOrNothing(ParseRow, rows).Some?
    ensures AllCanonical(AllOrNothing(ParseRow, rows).value)
  {
    var events := AllOrNothing(ParseRow, rows).value;
    forall i | 0 <= i < |events|
      ensures IsCanonical(events[i].date)
    {
      ParseRowFields(rows[i]);
    }
  }

  /** The filter leaves only events on or after the cutoff, and keeps an ascending list ascending. */
  lemma FilterFrom(events: seq<Event>, min: string)
    ensures AllFrom(Filter(events, min), min)
    ensures Ascending(events) ==> Ascending(Filter(events, min))
  {
    var r := Filter(events, min);
    assert forall i :: 0 <= i < |r| ==> r[i] in r;
    if Ascending(events) {
      FilterAscending(events, min);
    }
  }

  /** Filtering keeps an ascending list ascending. */
  lemma {:induction false} FilterAscending(events: seq<Event>, min: string)
    requires Ascending(events)
    ensures Ascending(Filter(events, min))
  {
    if events != [] {
      var rest := events[1..];
      assert Ascending(rest);
      FilterAscending(rest, min);
      var tail := Filter(rest, min);
      if LexLe(min, events[0].date) {
        var r := [events[0]] + tail;
        forall i, j | 0 <= i < j < |r|
          ensures LexLt(r[i].date, r[j].date)
        {
          if i == 0 {
            assert r[j] in tail;
            assert r[j] in rest;
          }
        }
      }
    }
  }

  /**
   * The first event carrying the flag, in list order: what the index loop of
   * `get_next_home_event` returns.
   */
  function FirstWith(events: seq<Event>, f: Flag): (r: Option<Event>)
    ensures r.None? <==> forall i :: 0 <= i < |events| ==> !Has(events[i], f)
    ensures r.Some? ==>
      exists i :: 0 <= i < |events| && events[i] == r.value && Has(r.value, f) && forall j :: 0 <= j < i ==> !Has(events[j], f)
  {
    if events == [] then None
    else if Has(events[0], f) then
      assert events[0] == events[0];
      Some(events[0])
    else
      var r := FirstWith(events[1..], f);
      if r.Some? then
        var i :| 0 <= i < |events[1..]| && events[1..][i] == r.value && Has(r.value, f) && forall j :: 0 <= j < i ==> !Has(events[1..][j], f);
        assert events[i + 1] == r.value;
        r
      else
        r
  }

  /**
   * The walk of `get_next_non_home_day`: starting at `d`, step one day for
   * each leading event that carries the flag and is dated at the current
   * day, and stop at the first that is not. `None` where `next_isodate`
   * raises. Its answer is `d` itself or, when it moved, a strictly later
   * well-formed date.
   */
  function FreeDay(events: seq<Event>, d: string, f: Flag): (r: Option<string>)
    ensures r.Some? ==> r.value == d || (IsCanonical(d) && IsCanonical(r.value) && LexLt(d, r.value))
    decreases |events|
  {
    if events == [] || !Has(events[0], f) || d != events[0].date then Some(d)
    else
      match NextIsoDate(d, 1)
      case None => None
      case Some(next) =>
        var r := FreeDay(events[1..], next, f);
        if r.Some? then
          NextIsoDateLater(d, 1);
          StepThenWalk(d, next, r.value);
          r
        else r
  }

  /** One step forward followed by a walk that stays or moves on ends strictly later. */
  lemma StepThenWalk(d: string, next: string, r: string)
    requires LexLt(d, next)
    requires r == next || LexLt(next, r)
    ensures LexLt(d, r)
  {
    if r != next {
      LexLtLeTransitive(d, next, r);
    }
  }

  /**
   * The walk stays at `d` exactly when the first event does not carry the
   * flag or is not dated `d`.
   */
  lemma FreeDayStays(events: seq<Event>, d: string, f: Flag)
    requires FreeDay(events, d, f).Some?
    ensures FreeDay(events, d, f).value == d <==> (events == [] || !Has(events[0], f) || d != events[0].date)
  {
    if !(events == [] || !Has(events[0], f) || d != events[0].date) {
      WalkMoved(events, d, f);
    }
  }

  /**
   * With one event per day in ascending order, all on or after `d`, the day
   * the walk stops at has no event carrying the flag.
   */
  lemma {:induction false} FreeDayIsFree(events: seq<Event>, d: string, f: Flag)
    requires Ascending(events) && AllCanonical(events) && AllFrom(events, d) && IsCanonical(d)
    requires FreeDay(events, d, f).Some?
    ensures forall i :: 0 <= i < |events| && Has(events[i], f) ==> events[i].date != FreeDay(events, d, f).value
    decreases |events|
  {
    var r := FreeDay(events, d, f).value;
    if events == [] {
    } else if !Has(events[0], f) || d != events[0].date {
      assert r == d;
      LaterThanFirst(events, d);
    } else {
      var next := NextIsoDate(d, 1).value;
      var rest := events[1..];
      assert r == FreeDay(rest, next, f).value;
      RestFromNext(events, d);
      FreeDayIsFree(rest, next, f);
      WalkMoved(events, d, f);
      forall i | 0 <= i < |events| && Has(events[i], f)
        ensures events[i].date != r
      {
        if i > 0 {
          assert events[i] == rest[i - 1];
        }
      }
    }
  }

  /**
   * The walk's answer is the earliest such day: every well-formed day from
   * `d` up to, but not including, the answer has an event carrying the flag.
   */
  lemma {:induction false} FreeDayEarliest(events: seq<Event>, d: string, f: Flag)
    requires IsCanonical(d) && FreeDay(events, d, f).Some?
    ensures forall t :: IsCanonical(t) && LexLe(d, t) && LexLt(t, FreeDay(events, d, f).value) ==>
      exists i :: 0 <= i < |events| && Has(events[i], f) && events[i].date == t
    decreases |events|
  {
    var r := FreeDay(events, d, f).value;
    if events == [] || !Has(events[0], f) || d != events[0].date {
      forall t | LexLe(d, t)
        ensures !LexLt(t, r)
      {
        if LexLt(t, r) {
          LexLeAntisymmetric(d, t);
        }
      }
    } else {
      var next := NextIsoDate(d, 1).value;
      var rest := events[1..];
      assert r == FreeDay(rest, next, f).value;
      FreeDayEarliest(rest, next, f);
      forall t | IsCanonical(t) && LexLe(d, t) && LexLt(t, r)
        ensures exists i :: 0 <= i < |events| && Has(events[i], f) && events[i].date == t
      {
        if t == d {
          assert Has(events[0], f) && events[0].date == t;
        } else {
          DayAfter(d, t);
          FlaggedInRest(events, t, f);
        }
      }
    }
  }

  /** A flagged event of the tail is a flagged event of the list. */
  lemma FlaggedInRest(events: seq<Event>, t: string, f: Flag)
    requires events != []
    requires exists i :: 0 <= i < |events[1..]| && Has(events[1..][i], f) && events[1..][i].date == t
    ensures exists i :: 0 <= i < |events| && Has(events[i], f) && events[i].date == t
  {
    var i :| 0 <= i < |events[1..]| && Has(events[1..][i], f) && events[1..][i].date == t;
    assert events[i + 1] == events[1..][i];
  }

  /** In an ascending list starting on or after `d`, only the first event can be dated `d`. */
  lemma LaterThanFirst(events: seq<Event>, d: string)
    requires Ascending(events) && AllFrom(events, d) && events != []
    ensures forall i :: 0 < i < |events| ==> events[i].date != d
  {
    forall i | 0 < i < |events|
      ensures events[i].date != d
    {
      assert LexLt(events[0].date, events[i].date);
      LexLeLtTransitive(d, events[0].date, events[i].date);
    }
  }

  /** After a step, the rest of the list starts on or after the new day. */
  lemma RestFromNext(events: seq<Event>, d: string)
    requires Ascending(events) && AllCanonical(events) && IsCanonical(d)
    requires events != [] && events[0].date == d && NextIsoDate(d, 1).Some?
    ensures var rest := events[1..];
      Ascending(rest) && AllCanonical(rest) && AllFrom(rest, NextIsoDate(d, 1).value)
    ensures IsCanonical(NextIsoDate(d, 1).value)
  {
    var rest := events[1..];
    forall i | 0 <= i < |rest|
      ensures LexLe(NextIsoDate(d, 1).value, rest[i].date)
    {
      assert LexLt(events[0].date, events[i + 1].date);
      DayAfter(d, rest[i].date);
    }
  }

  /** When the walk steps past `d`, it ends strictly after `d`. */
  lemma WalkMoved(events: seq<Event>, d: string, f: Flag)
    requires events != [] && Has(events[0], f) && d == events[0].date
    requires FreeDay(events, d, f).Some?
    ensures LexLt(d, FreeDay(events, d, f).value)
  {
    var next := NextIsoDate(d, 1).value;
    var r := FreeDay(events[1..], next, f);
    assert FreeDay(events, d, f) == r;
    NextIsoDateLater(d, 1);
    StepThenWalk(d, next, r.value);
  }

  /** A canonical date strictly after `d` is on or after the day after `d`. */
  lemma DayAfter(d: string, t: string)
    requires IsCanonical(d) && IsCanonical(t) && LexLt(d, t) && NextIsoDate(d, 1).Some?
    ensures LexLe(NextIsoDate(d, 1).value, t)
  {
    var next := NextIsoDate(d, 1).value;
    IsoOrder(d, t);
    IsoOrder(next, t);
  }

  /**
   * Two events on one day defeat the walk: with both carrying the flag on
   * `d` and a third carrying it on the day after, the walk stops on that
   * day after, although it has an event with the flag. The one-event-per-day
   * premise of `FreeDayIsFree` is needed.
   */
  lemma FreeDayTwoOnOneDay(d: string, a: Event, b: Event, c: Event, f: Flag)
    requires NextIsoDate(d, 1).Some?
    requires a.date == d && b.date == d && c.date == NextIsoDate(d, 1).value
    requires Has(a, f) && Has(b, f) && Has(c, f)
    ensures FreeDay([a, b, c], d, f) == Some(c.date)
  {
    var next := NextIsoDate(d, 1).value;
    NextIsoDateLater(d, 1);
    assert [a, b, c][1..] == [b, c];
    assert b.date != next;
  }
}
