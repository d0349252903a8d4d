/**
 * The feed side of the script (`fetch_webcal_feed`): the locator's scheme
 * rewrite, and the choice of VEVENT components out of the parsed calendar.
 * The HTTP request and the iCalendar parser are outside the model: the
 * parser's `walk()` output is given as a sequence of components.
 */
module Feed {
  import opened Wrappers
  import opened Text
  import opened Calendar

  const WebcalScheme := "webcal://"
  const HttpsScheme := "https://"

  /**
   * `webcal://` locators are fetched over `https://`.  Python's `str.replace`
   * rewrites every occurrence of `webcal://`, not only the leading one.
   */
  function NormalizeLocator(url: string): (r: string)
    ensures StartsWith(url, WebcalScheme) ==> StartsWith(r, HttpsScheme)
    ensures !StartsWith(url, WebcalScheme) ==> r == url
  {
    if StartsWith(url, WebcalScheme) then ReplaceAll(url, WebcalScheme, HttpsScheme) else url
  }

  /** After the rewrite of a `webcal://` locator, no `webcal://` is left anywhere in it. */
  lemma NormalizedHasNoWebcal(url: string)
    requires StartsWith(url, WebcalScheme)
    ensures !Contains(NormalizeLocator(url), WebcalScheme)
  {
    assert WebcalScheme[0] !in HttpsScheme;
    assert HttpsScheme[0] !in WebcalScheme[1..];
    ReplaceAllRemovesAll(url, WebcalScheme, HttpsScheme);
  }

  /** The rest of a `webcal://` locator keeps its text when it holds no further `webcal://`. */
  lemma NormalizedKeepsRest(url: string)
    requires StartsWith(url, WebcalScheme)
    requires !Contains(url[|WebcalScheme|..], WebcalScheme)
    ensures NormalizeLocator(url) == HttpsScheme + url[|WebcalScheme|..]
  {
    ReplaceAllAbsent(url[|WebcalScheme|..], WebcalScheme, HttpsScheme);
  }

  /** One component of the parsed calendar with the properties the script reads from it. */
  datatype Component = Component(
    name: string,
    summary: Option<string>,
    dtstart: Option<Moment>,
    dtend: Option<Moment>,
    description: Option<string>)

  /** The event record the script builds; summary and description are already stringified. */
  datatype Event = Event(summary: string, start: Moment, end: Moment, description: string)

  /** Why a fetch stops the run: the download or parser failed, or a VEVENT lacked a property the script dereferences. */
  datatype FetchError = HttpFailure | MalformedCalendar | MissingDtStart | MissingDtEnd

  /** Python's `str()` of a property value: an absent property is `None`, which prints as `"None"`. */
  function Stringify(v: Option<string>): (r: string)
    ensures v.Some? ==> r == v.value
    ensures v.None? ==> r == "None"
  {
    match v
    case None => "None"
    case Some(s) => s
  }

  /**
   * Build the event of one VEVENT.  `component.get('dtstart').dt` on an absent
   * property raises, so a missing start (checked first) or end aborts the fetch.
   */
  function EventOf(c: Component): (r: Result<Event, FetchError>)
    ensures r.Success? <==> c.dtstart.Some? && c.dtend.Some?
    ensures c.dtstart.None? ==> r == Failure(MissingDtStart)
    ensures c.dtstart.Some? && c.dtend.None? ==> r == Failure(MissingDtEnd)
    ensures r.Success? ==> r.value == Event(Stringify(c.summary), c.dtstart.value, c.dtend.value, Stringify(c.description))
  {
    if c.dtstart.None? then Failure(MissingDtStart)
    else if c.dtend.None? then Failure(MissingDtEnd)
    else Success(Event(Stringify(c.summary), c.dtstart.value, c.dtend.value, Stringify(c.description)))
  }

  predicate IsVevent(c: Component)
  {
    c.name == "VEVENT"
  }

  /** The events of the VEVENT components in walk order, or the error of the first VEVENT that lacks a start or end. */
  function Events(cs: seq<Component>): Result<seq<Event>, FetchError>
  {
    if cs == [] then Success([])
    else match Events(cs[..|cs| - 1])
      case Failure(e) => Failure(e)
      case Success(es) =>
        var c := cs[|cs| - 1];
        if !IsVevent(c) then Success(es)
        else match EventOf(c)
          case Failure(e) => Failure(e)
          case Success(ev) => Success(es + [ev])
  }

  /** The VEVENT components of a walk, in order. */
  function Vevents(cs: seq<Component>): (r: seq<Component>)
    ensures forall c :: c in r ==> c in cs && IsVevent(c)
  {
    if cs == [] then []
    else Vevents(cs[..|cs| - 1]) + (if IsVevent(cs[|cs| - 1]) then [cs[|cs| - 1]] else [])
  }

  /** A failure in a prefix of the walk is the failure of the whole walk. */
  lemma {:induction false} EventsFailureSticks(cs: seq<Component>, n: nat, e: FetchError)
    requires n <= |cs|
    requires Events(cs[..n]) == Failure(e)
    ensures Events(cs) == Failure(e)
    decreases |cs| - n
  {
    if n < |cs| {
      assert cs[..n + 1][..n] == cs[..n];
      EventsFailureSticks(cs, n + 1, e);
    } else {
      assert cs[..n] == cs;
    }
  }

  /**
   * The walk fails exactly when some VEVENT lacks a start or an end; otherwise
   * there is one event per VEVENT, in walk order, built from that component.
   */
  lemma {:induction false} EventsOfVevents(cs: seq<Component>)
    ensures Events(cs).Success? <==> forall c :: c in cs && IsVevent(c) ==> c.dtstart.Some? && c.dtend.Some?
    ensures Events(cs).Success? ==>
      |Events(cs).value| == |Vevents(cs)| &&
      forall k :: 0 <= k < |Vevents(cs)| ==> Success(Events(cs).value[k]) == EventOf(Vevents(cs)[k])
  {
    if cs != [] {
      var init, c := cs[..|cs| - 1], cs[|cs| - 1];
      EventsOfVevents(init);
      assert cs == init + [c];
      assert forall x :: x in cs <==> x in init || x == c;
    }
  }

  /**
   * `fetch_webcal_feed` after the download: pick the VEVENT components in walk
   * order and turn each into an event.
   */
  method SelectEvents(cs: seq<Component>) returns (r: Result<seq<Event>, FetchError>)
    ensures r == Events(cs)
  {
    var events: seq<Event> := [];
    for i := 0 to |cs|
      invariant Events(cs[..i]) == Success(events)
    {
      assert cs[..i + 1][..i] == cs[..i];
      var c := cs[i];
      if c.name == "VEVENT" {
        var ev := EventOf(c);
        if ev.Failure? {
          EventsFailureSticks(cs, i + 1, ev.error);
          return Failure(ev.error);
        }
        events := events + [ev.value];
      }
    }
    assert cs[..|cs|] == cs;
    return Success(events);
  }
}
