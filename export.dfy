/**
 * `export_to_notion`: read the existing titles once, then for each event
 * either skip it (title already present) or build a create request and issue
 * it.  The create call is outside the model: whether the i-th event's create
 * succeeds is given by the oracle `accepted(i)`.
 */
module Export {
  import opened Wrappers
  import opened Text
  import opened Calendar
  import opened Feed
  import opened Store

  /** The database's limit on a rich-text segment. */
  const MaxDescriptionLength := 2000

  /** Line 140: an empty description, or the `"None"` an absent one was stringified to, becomes `""`. */
  function CleanDescription(d: string): (r: string)
    ensures r == "" <==> (d == "" || d == "None")
    ensures r != "" ==> r == d
  {
    if d != "" && d != "None" then d else ""
  }

  /** The description text sent: the cleaned description cut to its first 2000 chars. */
  function SentDescription(d: string): (r: string)
    ensures |r| <= MaxDescriptionLength
    ensures StartsWith(d, r)
    ensures r == "" <==> (d == "" || d == "None")
    ensures d != "" && d != "None" ==> |r| == Min(|d|, MaxDescriptionLength)
  {
    Take(CleanDescription(d), MaxDescriptionLength)
  }

  /** An absent description reaches the database as the empty text. */
  lemma AbsentDescriptionSentEmpty()
    ensures SentDescription(Stringify(None)) == ""
  {
  }

  /** What `notion.pages.create` is asked to store: title, start and end text, description. */
  datatype Request = Request(title: string, start: string, end: string, description: string)

  predicate ValidMoment(m: Moment)
  {
    ValidDate(m.date) && (m.At? ==> ValidTime(m.time))
  }

  /** The request for one event (lines 124-166). */
  function RequestFor(e: Event): Request
  {
    Request(e.summary, FormatIso(ToDateTime(e.start)), FormatIso(ToDateTime(e.end)), SentDescription(e.description))
  }

  /**
   * What the request carries.  Start and end are normalised independently: a
   * bare date is sent as its day at `T00:00:00`, and each text reads back as
   * the event's own date-time (midnight for a bare date).
   */
  lemma RequestForFields(e: Event)
    ensures RequestFor(e).title == e.summary
    ensures ValidMoment(e.start) ==> ParseIso(RequestFor(e).start) == Some(ToDateTime(e.start))
    ensures ValidMoment(e.end) ==> ParseIso(RequestFor(e).end) == Some(ToDateTime(e.end))
    ensures ValidMoment(e.start) && e.start.OnDate? ==> RequestFor(e).start == FormatDate(e.start.date) + "T00:00:00"
    ensures ValidMoment(e.end) && e.end.OnDate? ==> RequestFor(e).end == FormatDate(e.end.date) + "T00:00:00"
    ensures |RequestFor(e).description| <= MaxDescriptionLength
  {
    MomentIso(e.start);
    MomentIso(e.end);
  }

  lemma MomentIso(m: Moment)
    ensures ValidMoment(m) ==> ParseIso(FormatIso(ToDateTime(m))) == Some(ToDateTime(m))
    ensures ValidMoment(m) && m.OnDate? ==> FormatIso(ToDateTime(m)) == FormatDate(m.date) + "T00:00:00"
  {
    if ValidMoment(m) {
      match m
      case OnDate(d) => BareDateIsoIsMidnight(d);
      case At(d, t) => DateTimeIsoUnchanged(d, t);
    }
  }

  /** What happened to one event: skipped as already present, created, or a create that failed. */
  datatype Outcome = Skipped(title: string) | Added(request: Request) | Failed(request: Request)

  /** The decision for one event, given the titles read before the loop and the create's fate. */
  function Decide(e: Event, existing: seq<string>, ok: bool): Outcome
  {
    if e.summary in existing then Skipped(e.summary)
    else if ok then Added(RequestFor(e))
    else Failed(RequestFor(e))
  }

  /**
   * The loop's outcomes, one per event in order.  The title list is the one
   * read before the loop: an event is attempted iff its title is not in it,
   * whatever earlier events did, and a failed create never stops the loop.
   */
  function Outcomes(events: seq<Event>, existing: seq<string>, accepted: nat -> bool): (r: seq<Outcome>)
    ensures |r| == |events|
    ensures forall i :: 0 <= i < |events| ==> (r[i].Skipped? <==> events[i].summary in existing)
    ensures forall i :: 0 <= i < |events| && r[i].Skipped? ==> r[i].title == events[i].summary
    ensures forall i :: 0 <= i < |events| && !r[i].Skipped? ==>
      r[i].request == RequestFor(events[i]) && (r[i].Added? <==> accepted(i))
  {
    if events == [] then []
    else
      var n := |events| - 1;
      Outcomes(events[..n], existing, accepted) + [Decide(events[n], existing, accepted(n))]
  }

  /** The create requests issued, in order. */
  function Requests(outcomes: seq<Outcome>): seq<Request>
  {
    if outcomes == [] then []
    else
      var last := outcomes[|outcomes| - 1];
      Requests(outcomes[..|outcomes| - 1]) + (if last.Skipped? then [] else [last.request])
  }

  /** The events whose title is not in the list, in order. */
  function Unlisted(events: seq<Event>, existing: seq<string>): (r: seq<Event>)
    ensures forall e :: e in r <==> e in events && e.summary !in existing
  {
    if events == [] then []
    else
      var last := events[|events| - 1];
      Unlisted(events[..|events| - 1], existing) + (if last.summary in existing then [] else [last])
  }

  function MapRequestFor(events: seq<Event>): (r: seq<Request>)
    ensures |r| == |events|
    ensures forall i :: 0 <= i < |events| ==> r[i] == RequestFor(events[i])
  {
    if events == [] then [] else MapRequestFor(events[..|events| - 1]) + [RequestFor(events[|events| - 1])]
  }

  /**
   * Exactly the events whose title is not listed get a create request, one
   * each, in order; whether earlier creates failed plays no part.
   */
  lemma {:induction false} RequestsAreForUnlisted(events: seq<Event>, existing: seq<string>, accepted: nat -> bool)
    ensures Requests(Outcomes(events, existing, accepted)) == MapRequestFor(Unlisted(events, existing))
  {
    if events != [] {
      var n := |events| - 1;
      RequestsAreForUnlisted(events[..n], existing, accepted);
      var o := Outcomes(events, existing, accepted);
      assert o[..n] == Outcomes(events[..n], existing, accepted);
      var u := Unlisted(events[..n], existing);
      if events[n].summary !in existing {
        var ul := Unlisted(events, existing);
        assert ul == u + [events[n]];
        assert ul[..|ul| - 1] == u;
      }
    }
  }

  lemma MapRequestForMembership(u: seq<Event>)
    ensures forall r :: r in MapRequestFor(u) <==> exists e :: e in u && r == RequestFor(e)
  {
    var m := MapRequestFor(u);
    forall r ensures r in m <==> exists e :: e in u && r == RequestFor(e) {
      if r in m {
        var k :| 0 <= k < |m| && m[k] == r;
        assert u[k] in u;
      }
      if exists e :: e in u && r == RequestFor(e) {
        var e :| e in u && r == RequestFor(e);
        var k :| 0 <= k < |u| && u[k] == e;
        assert m[k] == r;
      }
    }
  }

  /** A request is issued for an event iff the event is in the batch and its title is not listed. */
  lemma RequestsOfUnlistedOnly(events: seq<Event>, existing: seq<string>, accepted: nat -> bool)
    ensures forall r :: r in Requests(Outcomes(events, existing, accepted)) <==>
      exists e :: e in events && e.summary !in existing && r == RequestFor(e)
  {
    RequestsAreForUnlisted(events, existing, accepted);
    MapRequestForMembership(Unlisted(events, existing));
  }

  /** A failing create does not prevent the creates after it: the requests issued do not depend on the creates' fates. */
  lemma RequestsIgnoreCreateFailures(events: seq<Event>, existing: seq<string>, a1: nat -> bool, a2: nat -> bool)
    ensures Requests(Outcomes(events, existing, a1)) == Requests(Outcomes(events, existing, a2))
  {
    RequestsAreForUnlisted(events, existing, a1);
    RequestsAreForUnlisted(events, existing, a2);
  }

  /** With no titles read (the query failed), every event is attempted, in order. */
  lemma {:induction false} NothingListedAttemptsAll(events: seq<Event>, accepted: nat -> bool)
    ensures Requests(Outcomes(events, [], accepted)) == MapRequestFor(events)
  {
    RequestsAreForUnlisted(events, [], accepted);
    UnlistedOfEmpty(events);
  }

  lemma {:induction false} UnlistedOfEmpty(events: seq<Event>)
    ensures Unlisted(events, []) == events
  {
    if events != [] {
      var init, last := events[..|events| - 1], events[|events| - 1];
      UnlistedOfEmpty(init);
      assert Unlisted(events, []) == Unlisted(init, []) + [last];
      assert events == init + [last];
    }
  }

  /** The titles are read once and not updated, so two new events with one title are both created. */
  lemma EqualTitlesBothCreated(e1: Event, e2: Event, existing: seq<string>, accepted: nat -> bool)
    requires e1.summary == e2.summary && e1.summary !in existing
    ensures Requests(Outcomes([e1, e2], existing, accepted)) == [RequestFor(e1), RequestFor(e2)]
  {
    var o1 := Outcomes([e1], existing, accepted);
    var o2 := Outcomes([e1, e2], existing, accepted);
    assert [e1][..0] == [];
    assert o1 == [Decide(e1, existing, accepted(0))];
    assert [e1, e2][..1] == [e1];
    assert o2 == o1 + [Decide(e2, existing, accepted(1))];
    assert o2[..1] == o1;
    assert o1[..0] == [];
    assert Requests(o1) == [RequestFor(e1)];
    assert Requests(o2) == Requests(o1) + [RequestFor(e2)];
  }

  /**
   * Run the loop again on the same events against a list that gained (at
   * least) the titles created the first time: only events whose create failed
   * the first time are attempted again.
   */
  lemma RerunRetriesOnlyFailures(events: seq<Event>, x1: seq<string>, a1: nat -> bool, x2: seq<string>, a2: nat -> bool)
    requires forall t :: t in x1 ==> t in x2
    requires forall i :: 0 <= i < |events| && Outcomes(events, x1, a1)[i].Added? ==> Outcomes(events, x1, a1)[i].request.title in x2
    ensures forall i :: 0 <= i < |events| && !Outcomes(events, x2, a2)[i].Skipped? ==> Outcomes(events, x1, a1)[i].Failed?
  {
    var o1 := Outcomes(events, x1, a1);
    forall i | 0 <= i < |events| && o1[i].Added? ensures events[i].summary in x2 {
      assert o1[i].request == RequestFor(events[i]);
    }
  }

  /** Once every create succeeded, a second run against the updated list creates nothing. */
  lemma RerunAfterSuccessCreatesNothing(events: seq<Event>, x1: seq<string>, a1: nat -> bool, x2: seq<string>, a2: nat -> bool)
    requires forall t :: t in x1 ==> t in x2
    requires forall i :: 0 <= i < |events| && Outcomes(events, x1, a1)[i].Added? ==> Outcomes(events, x1, a1)[i].request.title in x2
    requires forall i :: 0 <= i < |events| ==> a1(i)
    ensures Requests(Outcomes(events, x2, a2)) == []
  {
    RequestsAreForUnlisted(events, x2, a2);
    var o1 := Outcomes(events, x1, a1);
    forall i | 0 <= i < |events| ensures events[i].summary in x2 {
      if o1[i].Added? {
        assert o1[i].request == RequestFor(events[i]);
      }
    }
    assert forall e :: e in events ==> e.summary in x2;
    assert Unlisted(events, x2) == [];
  }

  lemma OutcomesStep(events: seq<Event>, existing: seq<string>, accepted: nat -> bool, i: nat)
    requires i < |events|
    ensures Outcomes(events[..i + 1], existing, accepted)
      == Outcomes(events[..i], existing, accepted) + [Decide(events[i], existing, accepted(i))]
  {
    assert events[..i + 1][..i] == events[..i];
  }

  /** `export_to_notion`: query the titles once, then decide and issue per event. */
  method ExportToNotion(events: seq<Event>, query: QueryResponse, accepted: nat -> bool) returns (outcomes: seq<Outcome>)
    ensures outcomes == Outcomes(events, ExistingTitlesOf(query), accepted)
  {
    var existing := ExistingTitles(query);
    outcomes := [];
    for i := 0 to |events|
      invariant outcomes == Outcomes(events[..i], existing, accepted)
    {
      OutcomesStep(events, existing, accepted, i);
      var event := events[i];
      if event.summary in existing {
        outcomes := outcomes + [Skipped(event.summary)];
        continue;
      }
      var startIso := FormatIso(ToDateTime(event.start));
      var endIso := FormatIso(ToDateTime(event.end));
      var description := CleanDescription(event.description);
      var request := Request(event.summary, startIso, endIso, Take(description, MaxDescriptionLength));
      assert request == RequestFor(event);
      if accepted(i) {
        outcomes := outcomes + [Added(request)];
      } else {
        outcomes := outcomes + [Failed(request)];
      }
    }
    assert events[..|events|] == events;
  }
}
