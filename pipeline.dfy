/**
 * The module-level pipeline (lines 179-184): fetch, assignment filter, future
 * filter, and the export when anything is left.  The download, the clock, the
 * title query and the creates are parameters.
 */
module Pipeline {
  import opened Wrappers
  import opened Calendar
  import opened Feed
  import opened Filters
  import opened Store
  import opened Export

  /** How a run ends: the fetch raised, nothing was left to export, or the export ran with these outcomes. */
  datatype RunResult =
    | FetchFailed(url: string, error: FetchError)
    | NoUpcoming(url: string)
    | Exported(url: string, outcomes: seq<Outcome>)

  /** The feed as the HTTP request and the parser deliver it for a given locator. */
  type Download = string -> Result<seq<Component>, FetchError>

  /** `filter_future_events(filter_assignments(events))`. */
  function Candidates(events: seq<Event>, today: Date): seq<Event>
  {
    Upcoming(Assignments(events), today)
  }

  function RunOf(locator: string, download: Download, today: Date, query: QueryResponse, accepted: nat -> bool): RunResult
  {
    var url := NormalizeLocator(locator);
    match download(url)
    case Failure(e) => FetchFailed(url, e)
    case Success(cs) =>
      match Events(cs)
      case Failure(e) => FetchFailed(url, e)
      case Success(events) =>
        var candidates := Candidates(events, today);
        if candidates == [] then NoUpcoming(url)
        else Exported(url, Outcomes(candidates, ExistingTitlesOf(query), accepted))
  }

  /** The script's top level, with `date.today()` passed in as `today`. */
  method Run(locator: string, download: Download, today: Date, query: QueryResponse, accepted: nat -> bool)
    returns (r: RunResult)
    ensures r == RunOf(locator, download, today, query, accepted)
  {
    var url := NormalizeLocator(locator);
    var body := download(url);
    if body.Failure? {
      return FetchFailed(url, body.error);
    }
    var fetched := SelectEvents(body.value);
    if fetched.Failure? {
      return FetchFailed(url, fetched.error);
    }
    var assignments := FilterAssignments(fetched.value);
    var events := FilterFutureEvents(assignments, today);
    if events != [] {
      var outcomes := ExportToNotion(events, query, accepted);
      return Exported(url, outcomes);
    }
    return NoUpcoming(url);
  }

  /**
   * A candidate is an event of the feed that starts today or later and whose
   * title holds a marker; it occurs once per marker (times its occurrences in
   * the feed).
   */
  lemma CandidatesAreUpcomingAssignments(events: seq<Event>, today: Date, e: Event)
    ensures multiset(Candidates(events, today))[e] ==
      if IsUpcoming(e, today) then multiset(events)[e] * MatchCount(e.summary) else 0
    ensures e in Candidates(events, today) <==> e in events && IsUpcoming(e, today) && MatchCount(e.summary) > 0
  {
    UpcomingCount(Assignments(events), today, e);
    AssignmentsCount(events, e);
    if e in events {
      assert multiset(events)[e] > 0;
    } else {
      assert multiset(events)[e] == 0;
    }
    if MatchCount(e.summary) > 0 && multiset(events)[e] > 0 {
      PositiveProduct(multiset(events)[e], MatchCount(e.summary));
    }
  }

  lemma PositiveProduct(a: nat, b: nat)
    requires a > 0 && b > 0
    ensures a * b > 0
  {
  }

  /**
   * Once the feed is read, the export runs iff some upcoming assignment
   * exists, and the creates requested are exactly those for upcoming
   * assignments whose title is not listed.
   */
  lemma ExportedRequestsAreNewUpcomingAssignments(
    locator: string, download: Download, today: Date, query: QueryResponse, accepted: nat -> bool,
    cs: seq<Component>, events: seq<Event>)
    requires download(NormalizeLocator(locator)) == Success(cs)
    requires Events(cs) == Success(events)
    ensures RunOf(locator, download, today, query, accepted).Exported? <==>
      exists e :: e in events && IsUpcoming(e, today) && MatchCount(e.summary) > 0
    ensures RunOf(locator, download, today, query, accepted).Exported? ==>
      forall r :: r in Requests(RunOf(locator, download, today, query, accepted).outcomes) <==>
        exists e :: e in events && IsUpcoming(e, today) && MatchCount(e.summary) > 0
          && e.summary !in ExistingTitlesOf(query) && r == RequestFor(e)
  {
    var c := Candidates(events, today);
    var x := ExistingTitlesOf(query);
    forall e ensures e in c <==> e in events && IsUpcoming(e, today) && MatchCount(e.summary) > 0 {
      CandidatesAreUpcomingAssignments(events, today, e);
    }
    if c != [] {
      assert c[0] in c;
      RequestsOfUnlistedOnly(c, x, accepted);
    }
  }

  /**
   * The duplicating assignment filter and the once-read title list together:
   * a new upcoming event titled `"1: 2:"` is sent to the database twice.
   */
  lemma TwoMarkerTitleIsCreatedTwice(e: Event, today: Date, existing: seq<string>, accepted: nat -> bool)
    requires e.summary == "1: 2:" && IsUpcoming(e, today) && e.summary !in existing
    ensures Candidates([e], today) == [e, e]
    ensures Requests(Outcomes(Candidates([e], today), existing, accepted)) == [RequestFor(e), RequestFor(e)]
  {
    TwoMarkersGiveTwoCopies(e);
    assert [e, e][..1] == [e];
    assert [e][..0] == [];
    assert Upcoming([e], today) == [e];
    assert Upcoming([e, e], today) == Upcoming([e], today) + [e];
    EqualTitlesBothCreated(e, e, existing, accepted);
  }

  /** A database page holding only the title of a created request. */
  function PageOf(r: Request): Page
  {
    Page(Some([Segment(Some(r.title))]))
  }

  /** The pages the creates that succeeded added to the database, in order. */
  function Persisted(outcomes: seq<Outcome>): seq<Page>
  {
    if outcomes == [] then []
    else
      var last := outcomes[|outcomes| - 1];
      Persisted(outcomes[..|outcomes| - 1]) + (if last.Added? then [PageOf(last.request)] else [])
  }

  lemma {:induction false} PersistedTitles(outcomes: seq<Outcome>)
    ensures TitlesOf(Persisted(outcomes)).Some?
    ensures forall i :: 0 <= i < |outcomes| && outcomes[i].Added? ==> outcomes[i].request.title in TitlesOf(Persisted(outcomes)).value
  {
    if outcomes != [] {
      var init := outcomes[..|outcomes| - 1];
      PersistedTitles(init);
      var last := outcomes[|outcomes| - 1];
      var p, q := Persisted(outcomes), Persisted(init);
      var tq := TitlesOf(q).value;
      if last.Added? {
        var page := PageOf(last.request);
        assert p == q + [page];
        assert p[..|p| - 1] == q;
        assert !Malformed(page) && HasTitle(page) && FirstTitle(page) == last.request.title;
        assert TitlesOf(p) == Some(tq + [last.request.title]);
      } else {
        assert p == q;
      }
      forall i | 0 <= i < |outcomes| && outcomes[i].Added?
        ensures outcomes[i].request.title in TitlesOf(p).value
      {
        if i < |init| {
          assert init[i] == outcomes[i];
        }
      }
    }
  }

  /**
   * Running the pipeline a second time on an unchanged feed and day, against
   * a database that kept the first run's successful creates, attempts again
   * only the events whose create failed the first time.
   */
  lemma RerunCreatesOnlyWhatFailed(
    locator: string, download: Download, today: Date, pages: seq<Page>, a1: nat -> bool, a2: nat -> bool)
    requires forall i :: 0 <= i < |pages| ==> !Malformed(pages[i])
    requires RunOf(locator, download, today, QueryOk(pages), a1).Exported?
    ensures var first := RunOf(locator, download, today, QueryOk(pages), a1).outcomes;
      var second := RunOf(locator, download, today, QueryOk(pages + Persisted(first)), a2);
      second.Exported? && |second.outcomes| == |first| &&
      forall i :: 0 <= i < |first| && !second.outcomes[i].Skipped? ==> first[i].Failed?
  {
    var c := Candidates(Events(download(NormalizeLocator(locator)).value).value, today);
    var first := Outcomes(c, ExistingTitlesOf(QueryOk(pages)), a1);
    assert RunOf(locator, download, today, QueryOk(pages), a1).outcomes == first;
    var x2 := ExistingTitlesOf(QueryOk(pages + Persisted(first)));
    assert RunOf(locator, download, today, QueryOk(pages + Persisted(first)), a2).outcomes == Outcomes(c, x2, a2);
    StoreKeepsCreatedTitles(pages, first);
    RerunRetriesOnlyFailures(c, ExistingTitlesOf(QueryOk(pages)), a1, x2, a2);
  }

  /** When every create of the first run succeeded, the second run creates nothing. */
  lemma SecondRunAfterFullSuccessIsIdle(
    locator: string, download: Download, today: Date, pages: seq<Page>, a1: nat -> bool, a2: nat -> bool)
    requires forall i :: 0 <= i < |pages| ==> !Malformed(pages[i])
    requires RunOf(locator, download, today, QueryOk(pages), a1).Exported?
    requires forall i :: 0 <= i < |RunOf(locator, download, today, QueryOk(pages), a1).outcomes| ==> a1(i)
    ensures var first := RunOf(locator, download, today, QueryOk(pages), a1).outcomes;
      var second := RunOf(locator, download, today, QueryOk(pages + Persisted(first)), a2);
      second.Exported? && Requests(second.outcomes) == []
  {
    var c := Candidates(Events(download(NormalizeLocator(locator)).value).value, today);
    var first := Outcomes(c, ExistingTitlesOf(QueryOk(pages)), a1);
    assert RunOf(locator, download, today, QueryOk(pages), a1).outcomes == first;
    var x2 := ExistingTitlesOf(QueryOk(pages + Persisted(first)));
    assert RunOf(locator, download, today, QueryOk(pages + Persisted(first)), a2).outcomes == Outcomes(c, x2, a2);
    StoreKeepsCreatedTitles(pages, first);
    Export.RerunAfterSuccessCreatesNothing(c, ExistingTitlesOf(QueryOk(pages)), a1, x2, a2);
  }

  /**
   * The title read fails open: when any page in the database (old or newly
   * created) has no readable first title segment, no titles are read, and
   * the run asks to create every candidate again, including those created
   * by an earlier run.
   */
  lemma UnreadablePageRetriesEverything(
    locator: string, download: Download, today: Date, pages: seq<Page>, extra: seq<Page>, accepted: nat -> bool)
    requires exists i :: 0 <= i < |pages| && Malformed(pages[i])
    requires RunOf(locator, download, today, QueryOk(pages + extra), accepted).Exported?
    ensures ExistingTitlesOf(QueryOk(pages + extra)) == []
    ensures Requests(RunOf(locator, download, today, QueryOk(pages + extra), accepted).outcomes) ==
      MapRequestFor(Candidates(Events(download(NormalizeLocator(locator)).value).value, today))
  {
    var i :| 0 <= i < |pages| && Malformed(pages[i]);
    assert (pages + extra)[i] == pages[i];
    TitlesOfFailsIffMalformed(pages + extra);
    var c := Candidates(Events(download(NormalizeLocator(locator)).value).value, today);
    assert RunOf(locator, download, today, QueryOk(pages + extra), accepted).outcomes == Outcomes(c, [], accepted);
    NothingListedAttemptsAll(c, accepted);
  }

  /** After the successful creates are stored, the titles read include the old ones and every created title. */
  lemma StoreKeepsCreatedTitles(pages: seq<Page>, outcomes: seq<Outcome>)
    requires forall i :: 0 <= i < |pages| ==> !Malformed(pages[i])
    ensures forall t :: t in ExistingTitlesOf(QueryOk(pages)) ==> t in ExistingTitlesOf(QueryOk(pages + Persisted(outcomes)))
    ensures forall i :: 0 <= i < |outcomes| && outcomes[i].Added? ==>
      outcomes[i].request.title in ExistingTitlesOf(QueryOk(pages + Persisted(outcomes)))
  {
    TitlesOfWellFormed(pages);
    PersistedTitles(outcomes);
    TitlesOfAppend(pages, Persisted(outcomes));
  }
}
