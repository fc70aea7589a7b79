/**
 * The `Schedule` datastore model and its class-level memo: when `get`
 * refreshes an entry, what `refresh` stores, the memoised cutoff view of
 * `get_events`, and the two queries built on that view.
 */
module Schedule {
  import opened Wrappers
  import opened Strings
  import opened IsoDate
  import opened Feed
  import opened Query

  /**
   * One stored `Schedule` entity: the feed url (its key), the decoded
   * `json` text (`None` where it is null), and the time of its last `put`.
   */
  datatype Entry = Entry(url: string, json: Option<seq<Event>>, timestamp: int)

  /** Why a query fails: no schedule was ever stored (`json.loads(None)`), or a date step raised. */
  datatype Error = NoSchedule | BadDate

  /** The memo key `get_events` uses: the given date, or today when it is missing or empty. */
  function CutoffKey(isodate: Option<string>, today: string): (k: string)
    ensures isodate.Some? && isodate.value != "" ==> k == isodate.value
    ensures isodate.None? || isodate.value == "" ==> k == today
  {
    if isodate.None? || isodate.value == "" then today else isodate.value
  }

  /**
   * The refresh test of `get`: no entity for the url, no schedule in it, or
   * a timestamp older than `maxAge` before `now`.
   */
  predicate NeedsRefresh(prior: Option<Entry>, maxAge: int, now: int)
    ensures !NeedsRefresh(prior, maxAge, now) ==>
      prior.Some? && prior.value.json.Some? && now - maxAge <= prior.value.timestamp
  {
    prior.None? || prior.value.json.None? || prior.value.timestamp < now - maxAge
  }

  /** Python's truth test on the list `get_feed` returned: `None` and `[]` are both false. */
  predicate NonEmpty(fetched: Option<seq<Event>>)
    ensures NonEmpty(fetched) <==> fetched.Some? && |fetched.value| > 0
  {
    fetched.Some? && fetched.value != []
  }

  /**
   * The entity `refresh` stores: the existing one, or a fresh one for `url`
   * with no schedule; its schedule replaced only by a non-empty fetch; its
   * timestamp set by the `put`.
   */
  function Refreshed(prior: Option<Entry>, url: string, now: int, fetched: Option<seq<Event>>): (r: Entry)
    ensures r.json.Some? <==> NonEmpty(fetched) || (prior.Some? && prior.value.json.Some?)
    ensures r.timestamp == now
  {
    var base := if prior.Some? then prior.value else Entry(url, None, now);
    Entry(base.url, if NonEmpty(fetched) then fetched else base.json, now)
  }

  /** The entity `get` returns: the stored one, or the refreshed one when `NeedsRefresh` holds. */
  function Got(prior: Option<Entry>, url: string, maxAge: int, now: int, fetched: Option<seq<Event>>): (r: Entry)
    ensures !NeedsRefresh(prior, maxAge, now) ==> prior == Some(r)
    ensures r.json.None? ==> !NonEmpty(fetched) && (prior.None? || prior.value.json.None?)
  {
    if NeedsRefresh(prior, maxAge, now) then Refreshed(prior, url, now, fetched) else prior.value
  }

  /**
   * What `refresh` promises: a non-empty fetch becomes the schedule;
   * otherwise the prior schedule stays, or there is none for a new entity;
   * the url is the existing entity's or the requested one; the timestamp is now.
   */
  lemma RefreshedOutcome(prior: Option<Entry>, url: string, now: int, fetched: Option<seq<Event>>)
    ensures var e := Refreshed(prior, url, now, fetched);
      && (NonEmpty(fetched) ==> e.json == fetched)
      && (!NonEmpty(fetched) && prior.Some? ==> e.json == prior.value.json)
      && (!NonEmpty(fetched) && prior.None? ==> e.json.None?)
      && e.url == (if prior.Some? then prior.value.url else url)
      && e.timestamp == now
  {
  }

  /**
   * A refresh that leaves a schedule in the entity makes it fresh: `get`
   * at the same moment with a non-negative `maxAge` does not refresh again.
   */
  lemma RefreshedIsFresh(prior: Option<Entry>, url: string, now: int, fetched: Option<seq<Event>>, maxAge: int)
    requires maxAge >= 0
    requires NonEmpty(fetched) || (prior.Some? && prior.value.json.Some?)
    ensures !NeedsRefresh(Some(Refreshed(prior, url, now, fetched)), maxAge, now)
  {
  }

  /** A refresh whose fetch fails or is empty leaves no entity without a schedule it had before. */
  lemma RefreshedKeepsSchedule(prior: Option<Entry>, url: string, now: int, fetched: Option<seq<Event>>)
    requires prior.Some? && prior.value.json.Some?
    ensures Refreshed(prior, url, now, fetched).json.Some?
  {
  }

  /**
   * The list `get_events` returns for cutoff `key` on entity `e`: the
   * memoised list when there is one (whatever entity it came from),
   * otherwise the filtered schedule, or an error where there is none.
   */
  function View(memo: map<string, seq<Event>>, e: Entry, key: string): (r: Result<seq<Event>, Error>)
    ensures r.Err? <==> key !in memo && e.json.None?
    ensures r.Err? ==> r.error == NoSchedule
    ensures r.Ok? && key !in memo ==> forall x :: x in r.value ==> x in e.json.value
  {
    if key in memo then Ok(memo[key])
    else if e.json.None? then Err(NoSchedule)
    else Ok(Filter(e.json.value, key))
  }

  /** Every memoised list was filtered from `json` with its own key. */
  predicate MemoFrom(memo: map<string, seq<Event>>, json: seq<Event>)
  {
    forall k :: k in memo ==> memo[k] == Filter(json, k)
  }

  /**
   * As long as every memoised list came from the entity's current schedule,
   * the memo is invisible: the view is the filter of that schedule.
   */
  lemma ViewIsFilter(memo: map<string, seq<Event>>, e: Entry, key: string)
    requires e.json.Some? && MemoFrom(memo, e.json.value)
    ensures View(memo, e, key) == Ok(Filter(e.json.value, key))
    ensures MemoFrom(memo[key := Filter(e.json.value, key)], e.json.value)
  {
  }

  /**
   * The memo is blind to the entity: a list memoised for a key is returned
   * for that key even when the schedule has since changed.
   */
  lemma ViewIgnoresEntry(memo: map<string, seq<Event>>, e1: Entry, e2: Entry, key: string)
    requires key in memo
    ensures View(memo, e1, key) == View(memo, e2, key) == Ok(memo[key])
  {
  }

  /**
   * The `Schedule` kind in the datastore together with the class-level
   * `_events` dictionary, which all entities share.
   */
  class Store {
    /** The stored entities, by url. */
    var entities: map<string, Entry>
    /** `Schedule._events`: cutoff date to filtered list; shared by all urls and never cleared. */
    var memo: map<string, seq<Event>>

    /** Entities sit under their own url, and each memoised list starts at its key. */
    ghost predicate Valid()
      reads this
    {
      && (forall u :: u in entities ==> entities[u].url == u)
      && (forall k :: k in memo ==> AllFrom(memo[k], k))
    }

    constructor ()
      ensures entities == map[] && memo == map[]
      ensures Valid()
    {
      entities := map[];
      memo := map[];
    }

    /** The query `cls.all().filter("url ==", url).get()`. */
    function Lookup(url: string): (r: Option<Entry>)
      reads this
      ensures r.Some? <==> url in entities
      ensures r.Some? ==> r.value == entities[url]
    {
      if url in entities then Some(entities[url]) else None
    }

    /**
     * `Schedule.refresh(url)`: fetch the feed (`rows` is what the network
     * delivered, `None` when it failed), and store the entity as `Refreshed`
     * describes. The memo is left as it was.
     */
    method Refresh(url: string, now: int, rows: Option<seq<Row>>) returns (e: Entry)
      requires Valid()
      modifies this
      ensures Valid()
      ensures e == Refreshed(old(Lookup(url)), url, now, FeedResult(rows))
      ensures e.url == url
      ensures entities == old(entities)[url := e]
      ensures memo == old(memo)
    {
      var sched: Entry;
      if url in entities {
        sched := entities[url];
      } else {
        sched := Entry(url, None, now);
      }
      var events := GetFeed(rows);
      if events.Some? && events.value != [] {
        sched := sched.(json := events);
      }
      sched := sched.(timestamp := now);
      entities := entities[url := sched];
      e := sched;
    }

    /**
     * `Schedule.get(url, max_age)`: the stored entity, refreshed first when
     * `NeedsRefresh` says so.
     */
    method Get(url: string, maxAge: int, now: int, rows: Option<seq<Row>>) returns (e: Entry)
      requires Valid()
      modifies this
      ensures Valid()
      ensures e.url == url
      ensures NeedsRefresh(old(Lookup(url)), maxAge, now) ==>
        && e == Refreshed(old(Lookup(url)), url, now, FeedResult(rows))
        && entities == old(entities)[url := e]
      ensures !NeedsRefresh(old(Lookup(url)), maxAge, now) ==> e == old(entities[url]) && entities == old(entities)
      ensures e == Got(old(Lookup(url)), url, maxAge, now, FeedResult(rows))
      ensures memo == old(memo)
    {
      var found := Lookup(url);
      if NeedsRefresh(found, maxAge, now) {
        e := Refresh(url, now, rows);
      } else {
        e := found.value;
      }
    }

    /**
     * `sched.get_events(min_isodate)`: the memoised list for the cutoff if
     * there is one; otherwise the entity's events dated on or after the
     * cutoff, which are then memoised under it.
     */
    method GetEvents(e: Entry, minIsoDate: Option<string>, today: string) returns (r: Result<seq<Event>, Error>)
      requires Valid()
      modifies this
      ensures Valid()
      ensures r == View(old(memo), e, CutoffKey(minIsoDate, today))
      ensures r.Ok? ==> memo == old(memo)[CutoffKey(minIsoDate, today) := r.value]
      ensures r.Err? ==> memo == old(memo)
      ensures r.Ok? ==> AllFrom(r.value, CutoffKey(minIsoDate, today))
      ensures entities == old(entities)
    {
      var key := CutoffKey(minIsoDate, today);
      if key in memo {
        return Ok(memo[key]);
      }
      if e.json.None? {
        return Err(NoSchedule);
      }
      var schedule := Filter(e.json.value, key);
      FilterFrom(e.json.value, key);
      memo := memo[key := schedule];
      r := Ok(schedule);
    }

    /**
     * `get_next_home_event(isodate)`, and its `is_here` twin: the first
     * event of the cutoff view that carries the flag.
     */
    method NextEvent(e: Entry, isodate: Option<string>, today: string, f: Flag) returns (r: Result<Option<Event>, Error>)
      requires Valid()
      modifies this
      ensures Valid()
      ensures var v := View(old(memo), e, CutoffKey(isodate, today));
        r == if v.Err? then Err(v.error) else Ok(FirstWith(v.value, f))
      ensures var key := CutoffKey(isodate, today);
        var v := View(old(memo), e, key);
        && (v.Ok? ==> memo == old(memo)[key := v.value])
        && (v.Err? ==> memo == old(memo))
      ensures View(memo, e, CutoffKey(isodate, today)) == View(old(memo), e, CutoffKey(isodate, today))
      ensures entities == old(entities)
    {
      var events := GetEvents(e, isodate, today);
      if events.Err? {
        return Err(events.error);
      }
      var first := ScanFor(events.value, f);
      return Ok(first);
    }

    /**
     * `get_next_non_home_day(isodate)`, and its `is_here` twin: the walk of
     * `FreeDay` over the cutoff view, starting at the given date (today when
     * it is missing).
     */
    method NextFreeDay(e: Entry, isodate: Option<string>, today: string, f: Flag) returns (r: Result<string, Error>)
      requires Valid()
      modifies this
      ensures Valid()
      ensures var v := View(old(memo), e, CutoffKey(isodate, today));
        var start := if isodate.None? then today else isodate.value;
        r == if v.Err? then Err(v.error)
             else if FreeDay(v.value, start, f).None? then Err(BadDate)
             else Ok(FreeDay(v.value, start, f).value)
      ensures var key := CutoffKey(isodate, today);
        var v := View(old(memo), e, key);
        && (v.Ok? ==> memo == old(memo)[key := v.value])
        && (v.Err? ==> memo == old(memo))
      ensures View(memo, e, CutoffKey(isodate, today)) == View(old(memo), e, CutoffKey(isodate, today))
      ensures entities == old(entities)
    {
      var d := if isodate.None? then today else isodate.value;
      var events := GetEvents(e, Some(d), today);
      assert CutoffKey(Some(d), today) == CutoffKey(isodate, today);
      if events.Err? {
        return Err(events.error);
      }
      var free := WalkFrom(events.value, d, f);
      if free.None? {
        return Err(BadDate);
      }
      return Ok(free.value);
    }
  }

  /** The index loop of `get_next_home_event`: the first event carrying the flag. */
  method ScanFor(schedule: seq<Event>, f: Flag) returns (r: Option<Event>)
    ensures r == FirstWith(schedule, f)
  {
    var i := 0;
    while i < |schedule|
      invariant 0 <= i <= |schedule|
      invariant forall j :: 0 <= j < i ==> !Has(schedule[j], f)
    {
      if Has(schedule[i], f) {
        FirstIs(schedule, f, i);
        return Some(schedule[i]);
      }
      i := i + 1;
    }
    return None;
  }

  /**
   * The loop of `get_next_non_home_day`: advance the date past each leading
   * flagged event dated at it; `None` where `next_isodate` raises.
   */
  method WalkFrom(schedule: seq<Event>, start: string, f: Flag) returns (r: Option<string>)
    ensures r == FreeDay(schedule, start, f)
  {
    var d := start;
    var i := 0;
    while i < |schedule|
      invariant 0 <= i <= |schedule|
      invariant FreeDay(schedule[i..], d, f) == FreeDay(schedule, start, f)
    {
      if !Has(schedule[i], f) || d != schedule[i].date {
        break;
      }
      assert schedule[i..][1..] == schedule[i + 1..];
      var next := NextIsoDate(d, 1);
      if next.None? {
        return None;
      }
      d := next.value;
      i := i + 1;
    }
    return Some(d);
  }

  /** The index the scan stops at holds the first flagged event. */
  lemma FirstIs(events: seq<Event>, f: Flag, i: nat)
    requires i < |events| && Has(events[i], f)
    requires forall j :: 0 <= j < i ==> !Has(events[j], f)
    ensures FirstWith(events, f) == Some(events[i])
  {
    var r := FirstWith(events, f);
    var k :| 0 <= k < |events| && events[k] == r.value && Has(r.value, f) && forall j :: 0 <= j < k ==> !Has(events[j], f);
    assert k == i;
  }
}
