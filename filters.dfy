/**
 * `filter_future_events` and `filter_assignments`: both walk the events in
 * order and append to a fresh list.
 */
module Filters {
  import opened Text
  import opened Calendar
  import opened Feed

  // ---------------------------------------------------------------------
  // Shared vocabulary

  /** `b` can be obtained from `a` by deleting elements (order kept). */
  ghost predicate IsSubsequence<T>(b: seq<T>, a: seq<T>)
  {
    b == [] || (a != [] && (
      (b[|b| - 1] == a[|a| - 1] && IsSubsequence(b[..|b| - 1], a[..|a| - 1]))
      || IsSubsequence(b, a[..|a| - 1])))
  }

  /** `n` copies of `x`. */
  function Repeat<T>(x: T, n: nat): (r: seq<T>)
    ensures |r| == n
    ensures forall y :: y in r ==> y == x
  {
    if n == 0 then [] else Repeat(x, n - 1) + [x]
  }

  lemma {:induction false} RepeatCount<T>(x: T, n: nat, y: T)
    ensures multiset(Repeat(x, n))[y] == if x == y then n else 0
  {
    if n > 0 {
      RepeatCount(x, n - 1, y);
    }
  }

  // ---------------------------------------------------------------------
  // Future filter

  /** The date an event is compared by: `dtstart`, with any time of day dropped (`.date()`). */
  function StartDate(e: Event): Date
  {
    e.start.date
  }

  /** `today <= event_date`: starts today or later. */
  predicate IsUpcoming(e: Event, today: Date)
  {
    DateLe(today, StartDate(e))
  }

  /** The events kept by the future filter, in order. */
  function Upcoming(events: seq<Event>, today: Date): seq<Event>
  {
    if events == [] then []
    else
      var last := events[|events| - 1];
      Upcoming(events[..|events| - 1], today) + (if IsUpcoming(last, today) then [last] else [])
  }

  /** The future filter's output is an order-preserving subsequence of its input. */
  lemma {:induction false} UpcomingIsSubsequence(events: seq<Event>, today: Date)
    ensures IsSubsequence(Upcoming(events, today), events)
  {
    if events != [] {
      var init, last := events[..|events| - 1], events[|events| - 1];
      UpcomingIsSubsequence(init, today);
      var r := Upcoming(events, today);
      if IsUpcoming(last, today) {
        assert r == Upcoming(init, today) + [last];
        assert r[|r| - 1] == events[|events| - 1];
        assert r[..|r| - 1] == Upcoming(init, today);
      } else {
        assert r == Upcoming(init, today);
      }
    }
  }

  /**
   * The future filter keeps exactly the upcoming events: each upcoming event
   * as often as the input holds it, and no other event.
   */
  lemma {:induction false} UpcomingCount(events: seq<Event>, today: Date, e: Event)
    ensures multiset(Upcoming(events, today))[e] == if IsUpcoming(e, today) then multiset(events)[e] else 0
  {
    if events != [] {
      var init, last := events[..|events| - 1], events[|events| - 1];
      UpcomingCount(init, today, e);
      assert events == init + [last];
      assert multiset(events) == multiset(init) + multiset{last};
      var step := if IsUpcoming(last, today) then [last] else [];
      assert multiset(Upcoming(events, today)) == multiset(Upcoming(init, today)) + multiset(step);
    }
  }

  /** Every event the future filter keeps starts today or later. */
  lemma UpcomingOnlyUpcoming(events: seq<Event>, today: Date, e: Event)
    requires e in Upcoming(events, today)
    ensures IsUpcoming(e, today) && e in events
  {
    UpcomingCount(events, today, e);
    assert multiset(Upcoming(events, today))[e] > 0;
  }

  lemma {:induction false} UpcomingAppend(a: seq<Event>, b: seq<Event>, today: Date)
    ensures Upcoming(a + b, today) == Upcoming(a, today) + Upcoming(b, today)
    decreases |b|
  {
    if b == [] {
      assert a + b == a;
    } else {
      var init, last := b[..|b| - 1], b[|b| - 1];
      assert (a + b)[..|a + b| - 1] == a + init;
      UpcomingAppend(a, init, today);
    }
  }

  /** The boundary of the future filter: an event starting today is kept. */
  lemma StartingTodayIsKept(e: Event, today: Date)
    requires StartDate(e) == today
    ensures Upcoming([e], today) == [e]
  {
  }

  /** A start earlier than today, on any time of day, is dropped. */
  lemma StartingEarlierIsDropped(e: Event, today: Date)
    requires DateLe(StartDate(e), today) && StartDate(e) != today
    ensures Upcoming([e], today) == []
  {
  }

  /** `filter_future_events`, with `date.today()` passed in as `today`. */
  method FilterFutureEvents(events: seq<Event>, today: Date) returns (future: seq<Event>)
    ensures future == Upcoming(events, today)
  {
    future := [];
    for i := 0 to |events|
      invariant future == Upcoming(events[..i], today)
    {
      assert events[..i + 1][..i] == events[..i];
      var eventDate := events[i].start.date;
      if DateLe(today, eventDate) {
        future := future + [events[i]];
      }
    }
    assert events[..|events|] == events;
  }

  // ---------------------------------------------------------------------
  // Assignment filter

  /** The digits the script tries, in its order. */
  const Numbers := "1234567"

  /** The pattern `f'{number}:'`. */
  function Marker(d: char): string
  {
    [d, ':']
  }

  /** How many of the first `n` digits of `Numbers` have their marker in `summary`. */
  function MarkersIn(summary: string, n: nat): nat
    requires n <= |Numbers|
  {
    if n == 0 then 0
    else MarkersIn(summary, n - 1) + (if Contains(summary, Marker(Numbers[n - 1])) then 1 else 0)
  }

  /** The number of times the assignment filter appends an event with this summary. */
  function MatchCount(summary: string): nat
  {
    MarkersIn(summary, |Numbers|)
  }

  function Hit(summary: string, d: char): nat
  {
    if Contains(summary, Marker(d)) then 1 else 0
  }

  /** The count written out digit by digit. */
  lemma MatchCountByDigit(summary: string)
    ensures MatchCount(summary) == Hit(summary, '1') + Hit(summary, '2') + Hit(summary, '3')
      + Hit(summary, '4') + Hit(summary, '5') + Hit(summary, '6') + Hit(summary, '7')
  {
    assert Numbers[0] == '1' && Numbers[1] == '2' && Numbers[2] == '3' && Numbers[3] == '4';
    assert Numbers[4] == '5' && Numbers[5] == '6' && Numbers[6] == '7';
    assert MarkersIn(summary, 1) == Hit(summary, '1');
    assert MarkersIn(summary, 2) == MarkersIn(summary, 1) + Hit(summary, '2');
    assert MarkersIn(summary, 3) == MarkersIn(summary, 2) + Hit(summary, '3');
    assert MarkersIn(summary, 4) == MarkersIn(summary, 3) + Hit(summary, '4');
    assert MarkersIn(summary, 5) == MarkersIn(summary, 4) + Hit(summary, '5');
    assert MarkersIn(summary, 6) == MarkersIn(summary, 5) + Hit(summary, '6');
    assert MarkersIn(summary, 7) == MarkersIn(summary, 6) + Hit(summary, '7');
  }

  /** The digits 1..7 whose marker `d:` occurs in the summary. */
  ghost function MatchedDigits(summary: string): set<char>
  {
    set d | d in Numbers && Contains(summary, Marker(d))
  }

  lemma {:induction false} MarkersInCountsDigits(summary: string, n: nat)
    requires n <= |Numbers|
    ensures MarkersIn(summary, n) == |set d | d in Numbers[..n] && Contains(summary, Marker(d))|
  {
    var S := set d | d in Numbers[..n] && Contains(summary, Marker(d));
    if n > 0 {
      MarkersInCountsDigits(summary, n - 1);
      var S' := set d | d in Numbers[..n - 1] && Contains(summary, Marker(d));
      var d := Numbers[n - 1];
      assert Numbers[..n] == Numbers[..n - 1] + [d];
      assert d !in Numbers[..n - 1];
      if Contains(summary, Marker(d)) {
        assert S == S' + {d};
      } else {
        assert S == S';
      }
    } else {
      assert S == {};
    }
  }

  /** The assignment filter appends an event once per digit d in 1..7 whose `d:` is a substring of its title. */
  lemma MatchCountIsMatchedDigits(summary: string)
    ensures MatchCount(summary) == |MatchedDigits(summary)|
  {
    MarkersInCountsDigits(summary, |Numbers|);
    assert Numbers[..|Numbers|] == Numbers;
  }

  /** The filter's output (in order): each event repeated once per marker its title holds. */
  function Assignments(events: seq<Event>): seq<Event>
  {
    if events == [] then []
    else
      var last := events[|events| - 1];
      Assignments(events[..|events| - 1]) + Repeat(last, MatchCount(last.summary))
  }

  lemma {:induction false} AssignmentsAppend(a: seq<Event>, b: seq<Event>)
    ensures Assignments(a + b) == Assignments(a) + Assignments(b)
    decreases |b|
  {
    if b == [] {
      assert a + b == a;
      assert Assignments(a) + [] == Assignments(a);
    } else {
      var init, last := b[..|b| - 1], b[|b| - 1];
      var tail := Repeat(last, MatchCount(last.summary));
      assert (a + b)[..|a + b| - 1] == a + init;
      assert (a + b)[|a + b| - 1] == last;
      AssignmentsAppend(a, init);
      assert Assignments(a + b) == Assignments(a + init) + tail;
      assert Assignments(b) == Assignments(init) + tail;
      assert Assignments(a) + (Assignments(init) + tail) == (Assignments(a) + Assignments(init)) + tail;
    }
  }

  /** Order: the output for one event is that event repeated, and outputs of consecutive parts are concatenated. */
  lemma AssignmentsInInputOrder(a: seq<Event>, e: Event, b: seq<Event>)
    ensures Assignments(a + [e] + b) == Assignments(a) + Repeat(e, MatchCount(e.summary)) + Assignments(b)
  {
    AssignmentsAppend(a + [e], b);
    AssignmentsAppend(a, [e]);
    assert Assignments([e]) == Repeat(e, MatchCount(e.summary)) by {
      assert [e][..0] == [];
    }
  }

  /**
   * Each event occurs in the output exactly (occurrences in the input) times
   * (number of matching digits) times; an event whose title has no marker is absent.
   */
  lemma MultisetOfSnoc<T>(s: seq<T>, y: T)
    requires s != []
    ensures multiset(s)[y] == multiset(s[..|s| - 1])[y] + (if s[|s| - 1] == y then 1 else 0)
  {
    assert s == s[..|s| - 1] + [s[|s| - 1]];
  }

  lemma MulSucc(m: nat, k: nat)
    ensures (m + 1) * k == m * k + k
  {
  }

  lemma {:induction false} AssignmentsCount(events: seq<Event>, e: Event)
    ensures multiset(Assignments(events))[e] == multiset(events)[e] * MatchCount(e.summary)
  {
    if events != [] {
      var init, last := events[..|events| - 1], events[|events| - 1];
      var k, ke := MatchCount(last.summary), MatchCount(e.summary);
      var A, R := Assignments(init), Repeat(last, k);
      var m := multiset(init)[e];
      AssignmentsCount(init, e);
      assert multiset(A)[e] == m * ke;
      RepeatCount(last, k, e);
      assert Assignments(events) == A + R;
      assert multiset(A + R)[e] == multiset(A)[e] + multiset(R)[e];
      var total := multiset(Assignments(events))[e];
      assert total == m * ke + multiset(R)[e];
      MultisetOfSnoc(events, e);
      var n := multiset(events)[e];
      if last == e {
        assert n == m + 1 && multiset(R)[e] == ke;
        MulSucc(m, ke);
      } else {
        assert n == m && multiset(R)[e] == 0;
      }
    }
  }

  /** An event survives the assignment filter iff some digit d in 1..7 has `d:` in its title. */
  lemma KeptIffSomeMarker(events: seq<Event>, e: Event)
    requires e in events
    ensures e in Assignments(events) <==> exists d :: d in Numbers && Contains(e.summary, Marker(d))
  {
    AssignmentsCount(events, e);
    MatchCountIsMatchedDigits(e.summary);
    assert multiset(events)[e] > 0;
    if exists d :: d in Numbers && Contains(e.summary, Marker(d)) {
      var d :| d in Numbers && Contains(e.summary, Marker(d));
      assert d in MatchedDigits(e.summary);
      assert multiset(Assignments(events))[e] > 0;
    } else {
      assert MatchedDigits(e.summary) == {};
      assert multiset(Assignments(events))[e] == 0;
    }
  }

  /** A marker whose digit does not occur in the title is not in the title. */
  lemma DigitAbsent(s: string, d: char)
    requires d !in s
    ensures Hit(s, d) == 0
  {
    forall i | 0 <= i <= |s| - 2
      ensures !OccursAt(s, Marker(d), i)
    {
      assert s[i] in s;
    }
  }

  lemma AssignmentsSingleton(e: Event)
    ensures Assignments([e]) == Repeat(e, MatchCount(e.summary))
  {
    assert [e][..0] == [];
  }

  /** A digit that occurs only once, followed by something other than a colon, gives no marker. */
  lemma DigitOnceNotBeforeColon(s1: string, d: char, c: char, s2: string)
    requires d !in s1 && d !in s2 && c != ':' && c != d
    ensures Hit(s1 + [d, c] + s2, d) == 0
  {
    var s := s1 + [d, c] + s2;
    forall i | 0 <= i <= |s| - 2
      ensures !OccursAt(s, Marker(d), i)
    {
      assert s[i..i + 2][0] == s[i] && s[i..i + 2][1] == s[i + 1];
      if i < |s1| {
        assert s[i] == s1[i];
        assert s1[i] in s1;
      } else if i == |s1| {
        assert s[i + 1] == c;
      } else if i == |s1| + 1 {
        assert s[i] == c;
      } else {
        assert s[i] == s2[i - |s1| - 2];
        assert s2[i - |s1| - 2] in s2;
      }
    }
  }

  /** `"1: 2:"` holds the markers of 1 and 2 and no other. */
  lemma TwoMarkersCountTwice()
    ensures MatchCount("1: 2:") == 2
  {
    var s := "1: 2:";
    MatchCountByDigit(s);
    assert OccursAt(s, Marker('1'), 0);
    assert OccursAt(s, Marker('2'), 3);
    DigitAbsent(s, '3'); DigitAbsent(s, '4'); DigitAbsent(s, '5');
    DigitAbsent(s, '6'); DigitAbsent(s, '7');
  }

  /** So an event titled `"1: 2:"` is appended twice. */
  lemma TwoMarkersGiveTwoCopies(e: Event)
    requires e.summary == "1: 2:"
    ensures Assignments([e]) == [e, e]
  {
    TwoMarkersCountTwice();
    AssignmentsSingleton(e);
  }

  /** A title with no digit followed by a colon is not an assignment. */
  lemma NoMarkerCountsZero()
    ensures MatchCount("Midterm Review") == 0
  {
    var s := "Midterm Review";
    MatchCountByDigit(s);
    DigitAbsent(s, '1'); DigitAbsent(s, '2'); DigitAbsent(s, '3'); DigitAbsent(s, '4');
    DigitAbsent(s, '5'); DigitAbsent(s, '6'); DigitAbsent(s, '7');
  }

  /** So an event titled `"Midterm Review"` is dropped. */
  lemma NoMarkerIsDropped(e: Event)
    requires e.summary == "Midterm Review"
    ensures Assignments([e]) == []
  {
    NoMarkerCountsZero();
    AssignmentsSingleton(e);
  }

  /** The substring match is not anchored: `"Ch 1:2 Quiz"` holds `1:` and no other marker. */
  lemma UnanchoredMarkerCountsOnce()
    ensures MatchCount("Ch 1:2 Quiz") == 1
  {
    var s := "Ch 1:2 Quiz";
    MatchCountByDigit(s);
    assert OccursAt(s, Marker('1'), 3);
    assert s == "Ch 1:" + ['2', ' '] + "Quiz";
    DigitOnceNotBeforeColon("Ch 1:", '2', ' ', "Quiz");
    DigitAbsent(s, '3'); DigitAbsent(s, '4'); DigitAbsent(s, '5');
    DigitAbsent(s, '6'); DigitAbsent(s, '7');
  }

  /** So an event titled `"Ch 1:2 Quiz"` is kept, once. */
  lemma UnanchoredMatchIsKept(e: Event)
    requires e.summary == "Ch 1:2 Quiz"
    ensures Assignments([e]) == [e]
  {
    UnanchoredMarkerCountsOnce();
    AssignmentsSingleton(e);
  }

  /** `filter_assignments`: for each event, for each digit, append the event if `digit + ":"` is in its title. */
  method FilterAssignments(events: seq<Event>) returns (assignments: seq<Event>)
    ensures assignments == Assignments(events)
  {
    assignments := [];
    for i := 0 to |events|
      invariant assignments == Assignments(events[..i])
    {
      assert events[..i + 1][..i] == events[..i];
      var event := events[i];
      for j := 0 to |Numbers|
        invariant assignments == Assignments(events[..i]) + Repeat(event, MarkersIn(event.summary, j))
      {
        if Contains(event.summary, Marker(Numbers[j])) {
          assignments := assignments + [event];
        }
      }
    }
    assert events[..|events|] == events;
  }

  // ---------------------------------------------------------------------
  // The two filters together

  /** The filters commute: filtering for assignments then for the future is the same list as the other order. */
  lemma {:induction false} FiltersCommute(events: seq<Event>, today: Date)
    ensures Upcoming(Assignments(events), today) == Assignments(Upcoming(events, today))
  {
    if events != [] {
      var init, last := events[..|events| - 1], events[|events| - 1];
      var k := MatchCount(last.summary);
      FiltersCommute(init, today);
      UpcomingAppend(Assignments(init), Repeat(last, k), today);
      UpcomingOfRepeat(last, k, today);
      var step := if IsUpcoming(last, today) then [last] else [];
      AssignmentsAppend(Upcoming(init, today), step);
      assert Assignments(step) == if IsUpcoming(last, today) then Repeat(last, k) else [] by {
        assert [last][..0] == [];
      }
    }
  }

  lemma {:induction false} UpcomingOfRepeat(e: Event, n: nat, today: Date)
    ensures Upcoming(Repeat(e, n), today) == if IsUpcoming(e, today) then Repeat(e, n) else []
  {
    if n > 0 {
      UpcomingOfRepeat(e, n - 1, today);
      assert Repeat(e, n)[..n - 1] == Repeat(e, n - 1);
    }
  }
}
