# sportsball schedule model

A Dafny model of the schedule cache and query engine behind the sportsball
pages, which answer "is there a Giants home game at AT&T Park today?".

- `schedule.py` turns the team's CSV schedule feed into event records
  (`get_feed`).
- It keeps one cached copy per feed URL, refreshed once it is a day old
  (`get` and `refresh`).
- It memoises the list of events on or after a cutoff date in a dictionary
  shared by the whole class (`get_events`).
- It answers two questions over that list: the next home event
  (`get_next_home_event`) and the first day without one
  (`get_next_non_home_day`).
- Two date helpers support this: `next_isodate` and `day_of_isodate`.
- `sportsball.py` builds the two-line status message from those answers
  (`sched_message`). Its 8-ball page sets an `is_home` flag from the same
  test.

The modules are:

- `Wrappers`: `Option` and `Result`.
- `Strings`: Python's string order, `endswith` and `split`.
- `IsoDate`: proleptic Gregorian dates for years 1 to 9999, Python's
  `toordinal`, the `YYYY-MM-DD` form and its parser, `next_isodate` and
  `day_of_isodate`. It proves that string order of ISO dates is
  chronological order.
- `Feed`: the per-row normaliser and `get_feed`.
- `Query`: the cutoff filter, the first-match scan and the day walk, for
  either flag.
- `Schedule`: the freshness and refresh rules, plus a `Store` class. The
  class holds the stored entities (a map from URL to entry) and the
  class-level memo (`_events`), and its methods are `get`, `refresh`,
  `get_events` and the two queries.
- `Sportsball`: `sched_message`, and the `is_home` flag.

Python raises an exception in several places:

- the feed is unreadable;
- a date does not parse, or falls outside years 1 to 9999;
- `day_of_isodate` is given a year before 1900, which Python 2's `strftime`
  refuses;
- `json.loads(None)` is reached on an entity that never got a schedule.

The model returns `None`, or an `Err` naming the cause, in each of these
places. `get_feed`'s catch-all handler turns any failure inside the loop
into `None` for the whole feed.

`sportsball.py` calls `get_next_here_event` and `get_next_non_here_day`,
but `schedule.py` does not define them. They are modelled as the `is_here`
twins of `get_next_home_event` and `get_next_non_home_day`: every query
takes a `Flag` (`Home` or `Here`). Line 172 of `schedule.py` calls the
undefined `Schedule.today()`. The model uses the `today` parameter there,
the same value line 126 computes.

## Model

| member | source | states |
|---|---|---|
| Strings.IndexOf | schedule.py:102 | `None` exactly when the separator occurs nowhere; otherwise the leftmost position where it occurs |
| Strings.Split | schedule.py:102 | `str.split(sep)`: at least one piece; joining the pieces with the separator gives back the string; a single piece exactly when the separator does not occur |
| Strings.SplitCut | schedule.py:102 | `Split`'s defining equation: the first piece is the text before `IndexOf`'s leftmost occurrence, and the rest is the split of the text after it |
| Strings.EndsWith | schedule.py:101 | `str.endswith`: true exactly when the suffix fits and the string is some prefix followed by the suffix |
| Strings.SplitPieces | schedule.py:102 | no piece of a split contains the separator |
| Strings.LexLe | schedule.py:131 | Python's string `<=`: a prefix is never greater, and a non-empty string is never greater than an empty one or one with a smaller first character |
| Strings.LexLeTotal | schedule.py:131 | Python's string `<=` is total |
| Strings.LexLeTransitive | schedule.py:131 | Python's string `<=` is transitive |
| Strings.LexLeAntisymmetric | schedule.py:131 | Python's string `<=` in both directions means equality |
| IsoDate.AddDays | schedule.py:154 | `date + timedelta(days=n)`: defined exactly when the result lies in years 1 to 9999; the result's ordinal is the start's plus `n` |
| IsoDate.Format | schedule.py:104 | `date.isoformat()` writes ten characters |
| IsoDate.Parse | schedule.py:154 | `strptime(iso, "%Y-%m-%d")`: whatever it accepts is a valid date that formats back to the same text |
| IsoDate.FormatParse | schedule.py:104 | parsing a formatted date gives back the date |
| IsoDate.FormatOrder | schedule.py:131 | string order of formatted dates is order by year, month and day |
| IsoDate.IsoOrder | schedule.py:131 | for two ISO dates, string `<=` holds exactly when the first is not later than the second, and equal strings are the same day |
| IsoDate.NextIsoDate | schedule.py:149-155 | defined exactly when the input parses and the target day is in range; the result is a well-formed ISO date exactly `days` days later |
| IsoDate.NextIsoDateAdditive | schedule.py:149-155 | stepping `a` days and then `b` days is the same as stepping `a + b` days |
| IsoDate.NextIsoDateLater | schedule.py:149-155 | a positive step gives a date that is later in string order too |
| IsoDate.Weekday | schedule.py:162 | `date.weekday()` is between 0 and 6 |
| IsoDate.DayOfIsoDate | schedule.py:157-162 | defined exactly for well-formed dates from 1900 on; the result is an English weekday name |
| IsoDate.FirstDateMonday | schedule.py:162 | the weekday numbering is Python's: 0001-01-01 is weekday 0, a Monday |
| IsoDate.DayOfIsoDateScenario | schedule.py:157-162 | `day_of_isodate("2015-04-10")` is "Friday" |
| IsoDate.DayOfFormat | schedule.py:157-162 | the name of a formatted date from 1900 on is the one its weekday number selects, with Monday first |
| IsoDate.DayOfIsoDateWeekly | schedule.py:157-162 | the weekday name repeats every seven days |
| IsoDate.DayOfIsoDateNext | schedule.py:150-162 | the day after has the next weekday number, with Sunday followed by Monday |
| IsoDate.LaterYear | schedule.py:131 | a date that is later in string order is never in an earlier year |
| Feed.ParseRow | schedule.py:100-110 | a row yields an event exactly when its start date parsed to a valid date and its subject either ends with "Giants" or contains " at " |
| Feed.ParseRowFields | schedule.py:100-110 | the event's date is the ISO form of the start date; time and location are copied; `is_home` holds exactly when the subject ends with "Giants"; `is_here` holds exactly when the location is "AT&T Park"; `them` is piece 0 of the split for a home game and piece 1 otherwise |
| Feed.FeedResult | schedule.py:93-114 | what `get_feed` returns: a list exactly when the download worked and every row parses, then one event per row in row order |
| Feed.AllOrNothing | schedule.py:95-113 | a result exactly when every row parses; the result then has one event per row, in row order |
| Feed.GetFeed | schedule.py:93-114 | the loop returns `None` when the download failed or any row fails; otherwise it returns every row's event in input order, never a partial list |
| Feed.SplitGame | schedule.py:102 | "visitors at hosts" splits into exactly the two names |
| Feed.HostsDecideHome | schedule.py:101 | a game's subject ends with "Giants" exactly when the hosts' name does |
| Feed.GameRow | schedule.py:100-110 | for a game subject, `is_home` holds exactly when the hosts are the Giants, and `them` is the other team |
| Feed.DodgersAtGiants | schedule.py:100-110 | "Dodgers at Giants" at AT&T Park is a home game here against the Dodgers |
| Feed.GiantsAtDodgers | schedule.py:100-110 | "Giants at Dodgers" elsewhere is an away game, not here, against the Dodgers |
| Query.Filter | schedule.py:131 | an event is kept exactly when it is in the list and its date is on or after the cutoff; the result is never longer than the input |
| Query.FilterAppend | schedule.py:131 | filtering the concatenation of two lists gives the concatenation of their filtered lists, so order is kept |
| Query.FilterFrom | schedule.py:131 | every kept event is on or after the cutoff, and an ascending list stays ascending |
| Query.FilterAscending | schedule.py:131 | filtering keeps dates strictly ascending |
| Query.FeedDatesCanonical | schedule.py:104 | every date `get_feed` writes is a well-formed ISO date |
| Query.FirstWith | schedule.py:143-147 | `None` exactly when no event carries the flag; otherwise the event at the first index that carries it |
| Query.FreeDay | schedule.py:171-178 | the day walk of `get_next_non_home_day`: its answer is the start date itself or a well-formed date strictly after it |
| Query.FreeDayStays | schedule.py:174-176 | the walk returns the start date exactly when the first event lacks the flag or is dated on another day |
| Query.FreeDayEarliest | schedule.py:164-178 | the walk returns the earliest free day: every well-formed day from the start date up to the returned day has a flagged event |
| Query.FreeDayIsFree | schedule.py:164-178 | if dates strictly ascend from the start date on, no event on the returned day carries the flag |
| Query.FreeDayTwoOnOneDay | schedule.py:174-177 | with two flagged events on one day and a third on the next day, the walk stops on that next day although it has a flagged event |
| Schedule.CutoffKey | schedule.py:125-126 | the memo key is the given date, or today when the date is missing or empty |
| Schedule.NeedsRefresh | schedule.py:56-57 | the freshness test; when it is false, an entity with a schedule is stored and its timestamp is within `max_age` of now |
| Schedule.NonEmpty | schedule.py:79 | Python's truth test on the fetched list: true exactly for a list with at least one event, false for None and for the empty list |
| Schedule.Refreshed | schedule.py:73-82 | the entity `refresh` stores: it has a schedule exactly when the fetch was non-empty or the stored entity already had one; its timestamp is now |
| Schedule.Got | schedule.py:55-62 | the entity `get` returns: the stored one when no refresh is due; one without a schedule only when the fetch was empty or failed and none was stored before |
| Schedule.RefreshedOutcome | schedule.py:73-82 | a non-empty fetch becomes the schedule; otherwise the prior schedule stays, or a new entity has none; the URL is the entity's (the requested one for a new entity); the timestamp is now |
| Schedule.RefreshedIsFresh | schedule.py:56-58 | once a refresh leaves a schedule in the entity, `get` at the same moment does not refresh again |
| Schedule.RefreshedKeepsSchedule | schedule.py:79-80 | a failed or empty fetch never removes a schedule the entity already had |
| Schedule.View | schedule.py:125-133 | the list `get_events` returns: an error (no schedule) exactly when the cutoff is not memoised and the entity has no schedule; otherwise, without a memo hit, events drawn from the entity's schedule |
| Schedule.ViewIsFilter | schedule.py:127-133 | while every memoised list was filtered from the entity's current schedule, `get_events` returns the filtered schedule, and memoising it keeps that so |
| Schedule.ViewIgnoresEntry | schedule.py:127-130 | a memo hit returns the stored list whatever the entity's schedule is now |
| Schedule.Store.Lookup | schedule.py:55 | the datastore query finds an entity exactly when one is stored under the URL |
| Schedule.Store.Refresh | schedule.py:64-82 | the returned entity follows the refresh rule, is stored under the URL, and leaves other URLs and the memo unchanged |
| Schedule.Store.Get | schedule.py:46-62 | when the entity is missing, has no schedule or is older than `max_age`, `get` refreshes and stores it; otherwise it returns the stored entity and changes nothing |
| Schedule.Store.GetEvents | schedule.py:116-133 | returns the memoised list for the cutoff if there is one, otherwise the filter of the schedule (an error when there is none); on success the memo maps the cutoff to the result, which is dated on or after the cutoff; other keys and the entities are unchanged |
| Schedule.Store.NextEvent | schedule.py:135-147 | returns the first flagged event of the cutoff view, or the view's error; on success the memo maps the cutoff to the view and keeps every other key, on error it is unchanged; the entities are unchanged |
| Schedule.Store.NextFreeDay | schedule.py:164-178 | returns the day walk over the cutoff view from the given date (today when it is missing), an error where a step raises, or the view's error; on success the memo maps the cutoff to the view and keeps every other key, on error it is unchanged; the entities are unchanged |
| Schedule.ScanFor | schedule.py:143-147 | the index loop returns the first flagged event, or `None` when there is none |
| Schedule.WalkFrom | schedule.py:173-178 | the loop advances one day per leading flagged event dated at the current day; `None` where a step raises |
| Sportsball.Message | sportsball.py:7-27 | every successful message has exactly two lines, and every failure is a date error |
| Sportsball.MessageNoGames | sportsball.py:16-17 | the message is "No more home games!" / "(...until next year...)" exactly when no event in the view is at AT&T Park |
| Sportsball.MessageLaterGame | sportsball.py:18-22 | when the next event here is on another day, the lines are "No home game today!" and the announcement with that event's weekday name, date, opponent and time; in the cutoff view, the event's date is after the query date |
| Sportsball.MessageGameTodayLater | sportsball.py:23-27 | when the view starts with an event here dated on the query date, line one names its opponent and time, and line two names a quiet day strictly after the query date with its weekday |
| Sportsball.MessageGameToday | sportsball.py:23-27 | when the next event here is today and the view holds one event per day in date order from the query date on, line one names the opponent and time; line two names the earliest day after the query date with no event here, and its weekday |
| Sportsball.MessageQuietToday | sportsball.py:23-27 | an event elsewhere listed before the game here on the same day makes line two announce quiet from the query date itself |
| Sportsball.IsHomeToday | sportsball.py:42 | the `is_home` expression: set only when some event in the view is here and dated on the query date; conversely, in a view in date order that starts at the query date, any such event sets it |
| Sportsball.IsHomeMatchesMessage | sportsball.py:42 | the page's `is_home` flag is set exactly when the message takes its game-today branch |
| Sportsball.SchedMessage | sportsball.py:7-27 | defaults the date to today, gets the default schedule (refreshed if due) and returns the message over the cutoff view, or the view's error; the entities change exactly as `get` changes them; the memo maps the cutoff to the view, which is dated on or after the query date, and keeps every other key |

## Left out

- The download (`urllib.urlopen`) and the CSV reader's header handling are left out. The rows are given as records with lower-cased keys. A failed download is `None`.
- `strptime(..., "%m/%d/%y")` on the start date is left out: the `%y` century rule and the text format are library behaviour. A row's start date arrives as the date it produced, or `None` where it raised.
- pytz, `localize` and `attnow` are left out. The current date (`today`) and time (`now`, in seconds) are parameters.
- The App Engine datastore is left out. The model uses a map from URL to entry; `put` writes into the map, and `auto_now` becomes `timestamp := now`.
- `json.dumps` and `json.loads` are left out; the stored schedule is a list of events or `None`. A schedule written by `refresh` is never an empty list, so the model's `None` test matches `not sched.json`.
- `get` returning `None` is left out: `refresh` always returns an entity, so the source's branch for that case (lines 59-61) is dead.
- Entries are values. `refresh` changes the entity object in place and then stores it. The model stores a new entry under the same URL, and no other reference to the old object is modelled.
- The webapp2 handlers, routes, templates and logging are left out. Only the `is_home` expression of the 8-ball page is modelled.
- IsoDate.Parse accepts only the zero-padded `YYYY-MM-DD` form, whereas `strptime` also takes unpadded fields such as "2015-4-1". Every call in this core gets a date written by `isoformat`.
- IsoDate.DayOfIsoDate gives English weekday names; `%A` in another locale is left out.
- Query.FreeDayIsFree is proved only when dates in the view strictly ascend, one event per day. With two events on one day (a doubleheader) the walk can stop on a day that has an event with the flag; Query.FreeDayTwoOnOneDay shows such a list. Query.FreeDayEarliest needs no such premise.
- Sportsball.MessageGameToday assumes a view with strictly ascending dates, one event per day, for its claims that the quiet day has no event here and is the earliest such day. Sportsball.MessageGameTodayLater needs only that the view starts with the game here today. When an event elsewhere on the same day is listed before that game, line two announces quiet from the query date itself; Sportsball.MessageQuietToday shows this case.
- Concurrency is left out. Calls run one at a time against one process. In the source, `_events` belongs to one process while the datastore is shared between processes. Two concurrent refreshes of a missing entity each create one with `cls()`, which gets an automatic key (schedule.py:75), so two entities can share one URL. A map from URL to entry cannot represent that.
