# Assignment-Automator core, modelled in Dafny

The script reads a calendar feed and copies assignment-like events into a Notion database. The model covers the script's decision logic:

- the rewrite of a `webcal://` feed locator to `https://`;
- the choice of VEVENT components from the parsed calendar;
- the future filter ("starts today or later");
- the assignment filter (title contains `1:` … `7:`);
- the extraction of existing titles from the database query result;
- the per-event export: skip a known title, normalise dates and the description, issue the create, and keep going after a failure;
- the top-level pipeline.

Everything outside the script is a parameter: the download, the clock, the database query and the success of each create.

Modules, one per part of `assignments.py`:

- `Wrappers`: `Option` and `Result`.
- `Text`: Python's `in`, `startswith`, `str.replace` and slicing, on `seq<char>`.
- `Calendar`: dates, times, the date/date-time start and end values, midnight normalisation, and naive `isoformat` text with a parser proved inverse to it.
- `Feed`: locator normalisation and VEVENT selection, lines 21-53.
- `Filters`: `filter_future_events` and `filter_assignments`, lines 56-79.
- `Store`: title extraction in `get_existing_assignments`, lines 100-111.
- `Export`: `export_to_notion`, lines 115-176.
- `Pipeline`: lines 179-184.

Each loop of the script is a method with a `for` loop. The method is proved equal to a recursive specification function, and the lemmas state their properties about that function.

Some behaviour of the code worth spelling out:

- The pipeline applies the assignment filter first and the future filter second. `Filters.FiltersCommute` proves the order does not change the list.
- The assignment filter appends an event once per matching digit. An upcoming, unlisted event titled `"1: 2:"` is therefore created twice (`Pipeline.TwoMarkerTitleIsCreatedTwice`).
- The locator rewrite replaces every `webcal://` in the locator, not only the leading scheme.
- An absent description is stringified to `"None"` and then blanked. A real description whose text is exactly `"None"` is blanked too.

Three definitions carry no properties of their own beyond their bodies; what they mean is proved about their uses:

- `Feed.Stringify` is `str()` of a property: `"None"` when it is absent, its text otherwise.
- `Feed.EventOf` builds one event from a VEVENT, or the error for the first missing DTSTART or DTEND; `Feed.EventsOfVevents` states what the walk gives.
- `Export.CleanDescription` blanks an empty or `"None"` description; `Export.SentDescription` and `Export.AbsentDescriptionSentEmpty` state what is sent.

## Model

| member | source | states |
|---|---|---|
| `Feed.NormalizeLocator` | assignments.py:23-26 | a locator starting with `webcal://` becomes one starting with `https://`; any other locator is returned unchanged |
| `Feed.NormalizedHasNoWebcal` | assignments.py:23-24 | after the rewrite no `webcal://` is left anywhere in the locator, because `str.replace` rewrites every occurrence |
| `Feed.NormalizedKeepsRest` | assignments.py:23-24 | when the rest of the locator holds no further `webcal://`, the result is `https://` followed by that rest |
| `Text.ReplaceAllRemovesAll` | assignments.py:24 | replace-all leaves no occurrence of the pattern when the replacement cannot start or complete one (holds for `webcal://` → `https://`) |
| `Text.ReplaceAllAbsent` | assignments.py:24 | replace-all returns the text unchanged when the pattern does not occur in it |
| `Feed.EventsOfVevents` | assignments.py:42-53 | the walk fails iff some VEVENT lacks a start or end; otherwise there is one event per VEVENT, in walk order, and the other components are ignored |
| `Feed.SelectEvents` | assignments.py:42-53 | the loop computes exactly the events (or the first error) of the walk |
| `Filters.FilterFutureEvents` | assignments.py:56-69 | the loop returns exactly the events whose start date (time of day dropped) is on or after `today`, in order |
| `Filters.UpcomingIsSubsequence` | assignments.py:59-67 | the future filter's output is an order-preserving subsequence of its input |
| `Filters.UpcomingCount` | assignments.py:59-67 | every upcoming event is kept as often as the input holds it, and every other event is dropped |
| `Filters.UpcomingOnlyUpcoming` | assignments.py:63-67 | every kept event is from the input and starts today or later |
| `Filters.StartingTodayIsKept` | assignments.py:66 | an event starting on `today` is kept (inclusive bound) |
| `Filters.StartingEarlierIsDropped` | assignments.py:63-66 | an event whose start date is before `today` is dropped, whatever its time of day |
| `Filters.FilterAssignments` | assignments.py:72-79 | the nested loop returns each event, in input order, repeated once per digit whose `d:` marker is in its title |
| `Filters.MatchCountIsMatchedDigits` | assignments.py:74-78 | the number of copies is the number of distinct digits d in 1..7 with `d:` a substring of the title |
| `Filters.AssignmentsCount` | assignments.py:75-78 | each event occurs (its occurrences in the input) × (matching digits) times; an event with no marker is absent |
| `Filters.AssignmentsInInputOrder` | assignments.py:75-78 | the output for a list with an event in the middle is the output before it, that event's copies, then the output after it |
| `Filters.KeptIffSomeMarker` | assignments.py:76-78 | an input event appears in the output iff some `d:` with d in 1..7 occurs in its title |
| `Filters.TwoMarkersCountTwice` | assignments.py:77 | `"1: 2:"` matches exactly two digits |
| `Filters.TwoMarkersGiveTwoCopies` | assignments.py:75-78 | an event titled `"1: 2:"` is appended twice |
| `Filters.NoMarkerCountsZero` | assignments.py:77 | `"Midterm Review"` matches no digit |
| `Filters.NoMarkerIsDropped` | assignments.py:75-78 | an event titled `"Midterm Review"` is not appended |
| `Filters.UnanchoredMarkerCountsOnce` | assignments.py:77 | `"Ch 1:2 Quiz"` matches exactly one digit (the match is an unanchored substring test) |
| `Filters.UnanchoredMatchIsKept` | assignments.py:75-78 | an event titled `"Ch 1:2 Quiz"` is appended once |
| `Filters.FiltersCommute` | assignments.py:179 | applying the future filter after the assignment filter gives the same list as the reverse order |
| `Store.ExistingTitles` | assignments.py:100-111 | the loop returns the titles of the result pages, or `[]` when the query failed or some page could not be read |
| `Store.TitlesOfFailsIffMalformed` | assignments.py:101-111 | the read fails (and the titles are `[]`) iff some page lacks its title array, or has a first segment without text content |
| `Store.TitlesOfWellFormed` | assignments.py:100-108 | with readable pages, the titles are exactly the first-segment contents of the pages with a non-empty title array, in page order (`TitlesShown`); t is a title iff some page with a non-empty title array has t as its first segment's content; pages with an empty array add nothing; no more titles than pages |
| `Store.TitlesOfAppend` | assignments.py:101-106 | the titles of two page runs read in sequence are the two title lists concatenated |
| `Calendar.ParseFormatIso` | assignments.py:128 | the `YYYY-MM-DDTHH:MM:SS` text of a valid naive date-time parses back to that date-time |
| `Calendar.FormatParsedIso` | assignments.py:128 | any text that parses to a date-time is exactly that date-time's text, and the value is valid |
| `Calendar.BareDateIsoIsMidnight` | assignments.py:130-131 | a bare date is sent as its own date text followed by `T00:00:00`, which reads back as that day at 00:00:00 |
| `Calendar.DateTimeIsoUnchanged` | assignments.py:127-128 | a date-time start or end is sent with its own date and time of day |
| `Export.SentDescription` | assignments.py:140-166 | the text sent is a prefix of the description, at most 2000 chars, empty iff the description is empty or `"None"`, and otherwise of length min(len, 2000) |
| `Export.AbsentDescriptionSentEmpty` | assignments.py:140 | an absent description (stringified to `"None"`) is sent as `""` |
| `Export.RequestForFields` | assignments.py:124-166 | the request carries the event's title; start and end are normalised independently and each reads back as the event's date-time, midnight for a bare date; the description is at most 2000 chars |
| `Export.Outcomes` | assignments.py:117-176 | one outcome per event, in order: skipped iff the title is in the list read before the loop; otherwise the event's request is issued and recorded as added iff that create succeeds |
| `Export.ExportToNotion` | assignments.py:115-176 | the loop reads the titles once and produces exactly those outcomes |
| `Export.RequestsAreForUnlisted` | assignments.py:117-121 | the requests issued are, in order, those for the events whose title is not listed |
| `Export.RequestsOfUnlistedOnly` | assignments.py:117-121 | a request is issued iff it is the request of an event of the batch whose title is not listed |
| `Export.RequestsIgnoreCreateFailures` | assignments.py:142-176 | a failed create does not stop later creates: the requests issued do not depend on which creates fail |
| `Export.NothingListedAttemptsAll` | assignments.py:109-121 | when no titles were read (a failed query gives `[]`), every event is attempted, in order |
| `Export.EqualTitlesBothCreated` | assignments.py:116-121 | the title list is not updated during the loop, so two new events with one title are both created |
| `Export.RerunRetriesOnlyFailures` | assignments.py:116-121 | against a list that gained the titles created before, only events whose create failed before are attempted again |
| `Export.RerunAfterSuccessCreatesNothing` | assignments.py:116-121 | when every create of the first pass succeeded, a second pass against the updated list issues no request |
| `Pipeline.Run` | assignments.py:179-184 | the run fetches from the normalised locator, filters for assignments then for the future, and exports only when something is left |
| `Pipeline.CandidatesAreUpcomingAssignments` | assignments.py:179 | an event is exported iff it is in the feed, starts today or later and has a marker; it occurs once per marker |
| `Pipeline.ExportedRequestsAreNewUpcomingAssignments` | assignments.py:179-184 | once the feed is read, the export runs iff some upcoming assignment exists, and the creates asked for are exactly those for upcoming assignments with an unlisted title |
| `Pipeline.TwoMarkerTitleIsCreatedTwice` | assignments.py:179 | a new upcoming event titled `"1: 2:"` is sent to the database twice |
| `Pipeline.RerunCreatesOnlyWhatFailed` | assignments.py:179-184 | a second run on the same feed and day attempts only what failed the first time, with one outcome per candidate as before; this holds only when every page the first query returned is readable and the second query returns those pages followed by the created ones |
| `Pipeline.SecondRunAfterFullSuccessIsIdle` | assignments.py:179-184 | when every create of the first run succeeded, the second run is still an export but issues no create request; under the same two conditions: every page of the first query readable, and the second query returning those pages plus the created ones |
| `Pipeline.StoreKeepsCreatedTitles` | assignments.py:100-108 | when every old page is readable and the query returns the old pages followed by the created ones, the titles read back keep every old title and include every created title |
| `Pipeline.UnreadablePageRetriesEverything` | assignments.py:100-111 | when any returned page has no readable first title segment, no titles are read, and the run asks to create every candidate again, including titles an earlier run already created |

## Left out

- The HTTP GET, its headers, its timeout and `raise_for_status` (lines 28-38) are network I/O. The downloaded and parsed feed is the `download` parameter. It is called with the normalised locator and gives components or a fetch error.
- `Calendar.from_ical` and `walk()` (lines 40-43) are a foreign library. Their output is a sequence of components, each tagged with its name.
- The database query (lines 84-98) is a foreign call. Its outcome is a `QueryResponse` value: a failure of any kind, or the result pages.
- `QueryOk(pages)` stands for the single response the script reads. The script sends one query with an empty body and reads only `result['results']` (lines 93-101), so it never follows a continuation cursor. The Notion query endpoint returns at most 100 pages per response, so on a larger database some titles, newly created ones included, are not read. The rerun lemmas assume the second response holds every stored page; the model does not capture pagination.
- `notion.pages.create` (lines 144-172) is a foreign call. It is modelled as a `Request` value, and its success for the i-th event is the oracle `accepted(i)`.
- `load_dotenv`, `os.environ` and building the client (lines 9-16, 84, 87, 145) are configuration. A missing `WEBCAL_URL` or `NOTION_TOKEN` stops the script before any decision. A missing `DATABASE_ID` raises inside the two `try` blocks, so it shows up as a failed query and as failed creates, which the parameters can express.
- `date.today()` is the parameter `today`.
- The `print` lines are logging. The outcomes (`Skipped`, `Added`, `Failed`) carry what they report.
- `isoformat` text for timezone-aware values and for values with microseconds is not modelled. `Moment` has neither a zone nor microseconds.
- `Feed.Stringify` models `str()` only for absent and text-valued properties. Other property value types are not modelled.

