/**
 * The feed side of `Schedule.get_feed`: one CSV row of the Giants' schedule
 * becomes one event record, and a whole feed becomes the list of those
 * records or nothing at all.
 */
module Feed {
  import opened Wrappers
  import opened Strings
  import opened IsoDate

  /** The team whose home games the application tracks; a home game's subject ends with it. */
  const Team: string := "Giants"
  /** The ballpark whose events count as "here". */
  const Venue: string := "AT&T Park"
  /** The separator between the visitors and the hosts in a subject, as in "Dodgers at Giants". */
  const Sep: string := " at "

  /**
   * One CSV row, columns already lower-cased. `startDate` is what
   * `strptime(..., "%m/%d/%y")` made of the "start date" column, `None`
   * where it raised.
   */
  datatype Row = Row(subject: string, startDate: Option<Date>, startTime: string, location: string)

  /** The event record `get_feed` builds and `json.dumps` stores. */
  datatype Event = Event(date: string, time: string, isHome: bool, isHere: bool, location: string, them: string)

  /**
   * The per-row body of `get_feed`. `None` where Python raises: a start date
   * that did not parse, or an away game whose subject has no " at " (the
   * index 1 into the split is out of range).
   */
  function ParseRow(row: Row): (r: Option<Event>)
    ensures r.Some? <==>
      row.startDate.Some? && Valid(row.startDate.value) && (EndsWith(row.subject, Team) || IndexOf(row.subject, Sep).Some?)
  {
    match row.startDate
    case None => None
    case Some(d) =>
      if !Valid(d) then None
      else
        var isHome := EndsWith(row.subject, Team);
        var pieces := Split(row.subject, Sep);
        var k := if isHome then 0 else 1;
        if k < |pieces| then Some(Event(Format(d), row.startTime, isHome, row.location == Venue, row.location, pieces[k]))
        else None
  }

  /**
   * The fields of a parsed row: the date is the ISO form of the start date,
   * time and location are copied, `is_home` is whether the subject ends with
   * "Giants", `is_here` whether the location is exactly the ballpark, and
   * `them` is the piece of the subject on the other side of " at ".
   */
  lemma ParseRowFields(row: Row)
    requires ParseRow(row).Some?
    ensures var e := ParseRow(row).value;
      && Parse(e.date) == row.startDate
      && e.time == row.startTime && e.location == row.location
      && (e.isHome <==> EndsWith(row.subject, Team))
      && (e.isHere <==> row.location == Venue)
      && e.them == Split(row.subject, Sep)[if e.isHome then 0 else 1]
  {
    FormatParse(row.startDate.value);
  }

  /**
   * `f` applied to every element in order, or `None` as soon as one
   * application fails: the shape of a loop whose body may raise.
   */
  function AllOrNothing<A, B>(f: A -> Option<B>, xs: seq<A>): (r: Option<seq<B>>)
    ensures r.Some? <==> forall k :: 0 <= k < |xs| ==> f(xs[k]).Some?
    ensures r.Some? ==> |r.value| == |xs| && forall k :: 0 <= k < |xs| ==> f(xs[k]) == Some(r.value[k])
  {
    if xs == [] then Some([])
    else
      var init := xs[..|xs| - 1];
      match AllOrNothing(f, init)
      case None => None
      case Some(ys) =>
        match f(xs[|xs| - 1])
        case None => None
        case Some(y) =>
          assert forall k :: 0 <= k < |init| ==> xs[k] == init[k];
          Some(ys + [y])
  }

  /** One more success extends the result by one element. */
  lemma ExtendSome<A, B>(f: A -> Option<B>, xs: seq<A>, i: nat, ys: seq<B>, y: B)
    requires i < |xs| && AllOrNothing(f, xs[..i]) == Some(ys) && f(xs[i]) == Some(y)
    ensures AllOrNothing(f, xs[..i + 1]) == Some(ys + [y])
  {
    assert xs[..i + 1][..i] == xs[..i];
  }

  /** One failure makes the whole sequence fail. */
  lemma OneFails<A, B>(f: A -> Option<B>, xs: seq<A>, i: nat)
    requires i < |xs| && f(xs[i]).None?
    ensures AllOrNothing(f, xs).None?
  {
  }

  /** What `get_feed` returns for what the network delivered (`None` when the download failed). */
  function FeedResult(rows: Option<seq<Row>>): (r: Option<seq<Event>>)
    ensures r.Some? <==> rows.Some? && forall k :: 0 <= k < |rows.value| ==> ParseRow(rows.value[k]).Some?
    ensures r.Some? ==> |r.value| == |rows.value|
    ensures r.Some? ==> forall k :: 0 <= k < |rows.value| ==> ParseRow(rows.value[k]) == Some(r.value[k])
  {
    if rows.None? then None else AllOrNothing(ParseRow, rows.value)
  }

  /**
   * `get_feed`: the events of the rows in input order, or `None` when the
   * fetch failed (`rows` is `None`) or any one row fails. A partial list is
   * never returned.
   */
  method GetFeed(rows: Option<seq<Row>>) returns (sched: Option<seq<Event>>)
    ensures sched == FeedResult(rows)
  {
    if rows.None? {
      return None;
    }
    var input := rows.value;
    var acc: seq<Event> := [];
    var i := 0;
    while i < |input|
      invariant 0 <= i <= |input|
      invariant AllOrNothing(ParseRow, input[..i]) == Some(acc)
    {
      var e := ParseRow(input[i]);
      if e.None? {
        OneFails(ParseRow, input, i);
        return None;
      }
      ExtendSome(ParseRow, input, i, acc, e.value);
      acc := acc + [e.value];
      i := i + 1;
    }
    assert input[..i] == input;
    return Some(acc);
  }

  /** An occurrence that ends within the first `n` characters is an occurrence in that prefix. */
  lemma OccursInPrefixOf(s: string, sep: string, n: int, j: int)
    requires OccursAt(s, sep, j) && j + |sep| <= n <= |s|
    ensures OccursAt(s[..n], sep, j)
  {
    assert s[..n][j..j + |sep|] == s[j..j + |sep|];
  }

  /**
   * A subject of the form "<visitors> at <hosts>" splits into exactly the two
   * team names, as long as neither name holds " at " (nor, for the visitors,
   * runs into the separator).
   */
  lemma SplitGame(away: string, home: string)
    requires IndexOf(away + " at", Sep).None? && IndexOf(home, Sep).None?
    ensures Split(away + Sep + home, Sep) == [away, home]
  {
    var s := away + Sep + home;
    var n := |away|;
    assert s[..n + 3] == away + " at";
    assert OccursAt(s, Sep, n) by {
      assert s[n..n + 4] == Sep;
    }
    forall j | 0 <= j < n
      ensures !OccursAt(s, Sep, j)
    {
      if OccursAt(s, Sep, j) {
        OccursInPrefixOf(s, Sep, n + 3, j);
      }
    }
    IndexOfIs(s, Sep, n);
    assert s[..n] == away && s[n + 4..] == home;
  }

  /**
   * What the feed promises for a game row: the home flag is whether the hosts
   * are the Giants, and `them` is the other side of " at ", the opponent.
   */
  lemma GameRow(row: Row, away: string, home: string)
    requires row.subject == away + Sep + home
    requires IndexOf(away + " at", Sep).None? && IndexOf(home, Sep).None?
    requires row.startDate.Some? && Valid(row.startDate.value)
    ensures ParseRow(row).Some?
    ensures ParseRow(row).value.isHome <==> EndsWith(home, Team)
    ensures ParseRow(row).value.them == if EndsWith(home, Team) then away else home
  {
    SplitGame(away, home);
    HostsDecideHome(away, home);
    ParseRowFields(row);
  }

  /** The subject ends with "Giants" exactly when the hosts' name does. */
  lemma HostsDecideHome(away: string, home: string)
    ensures EndsWith(away + Sep + home, Team) <==> EndsWith(home, Team)
  {
    var s := away + Sep + home;
    if |home| >= |Team| {
      assert s[|s| - |Team|..] == home[|home| - |Team|..];
    } else if |Team| <= |s| {
      assert s[|s| - |Team|..][|Team| - |home| - 1] == ' ';
    }
  }

  /** A team name without blanks can neither hold " at " nor run into it. */
  lemma NoBlank(name: string)
    requires forall i :: 0 <= i < |name| ==> name[i] != ' '
    ensures IndexOf(name + " at", Sep).None? && IndexOf(name, Sep).None?
  {
    var s := name + " at";
    forall i | 0 <= i
      ensures !OccursAt(s, Sep, i) && !OccursAt(name, Sep, i)
    {
      if OccursAt(s, Sep, i) {
        BlankAt(s, i);
      }
      if OccursAt(name, Sep, i) {
        BlankAt(name, i);
      }
    }
  }

  lemma BlankAt(s: string, i: int)
    requires OccursAt(s, Sep, i)
    ensures s[i] == ' '
  {
    assert s[i..i + |Sep|][0] == s[i];
  }

  /** A home game against the Dodgers at the Giants' ballpark. */
  lemma DodgersAtGiants(d: Date)
    requires Valid(d)
    ensures var r := ParseRow(Row("Dodgers at Giants", Some(d), "7:15 PM", "AT&T Park"));
      r.Some? && r.value.isHome && r.value.isHere && r.value.them == "Dodgers"
  {
    var row := Row("Dodgers at Giants", Some(d), "7:15 PM", "AT&T Park");
    assert row.subject == "Dodgers" + Sep + "Giants";
    NoBlank("Dodgers");
    NoBlank("Giants");
    GameRow(row, "Dodgers", "Giants");
    ParseRowFields(row);
  }

  /** An away game: the hosts are the opponent, and the game is not at the Giants' ballpark. */
  lemma GiantsAtDodgers(d: Date)
    requires Valid(d)
    ensures var r := ParseRow(Row("Giants at Dodgers", Some(d), "1:10 PM", "Dodger Stadium"));
      r.Some? && !r.value.isHome && !r.value.isHere && r.value.them == "Dodgers"
  {
    var row := Row("Giants at Dodgers", Some(d), "1:10 PM", "Dodger Stadium");
    assert row.subject == "Giants" + Sep + "Dodgers";
    NoBlank("Dodgers");
    NoBlank("Giants");
    GameRow(row, "Giants", "Dodgers");
    ParseRowFields(row);
  }
}
