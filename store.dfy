/**
 * `get_existing_assignments`: the titles already in the database.  The HTTP
 * query itself is outside the model; its outcome is given as a value.
 */
module Store {
  import opened Wrappers

  /** One rich-text segment of a title; `content` is None when `['text']['content']` is missing. */
  datatype Segment = Segment(content: Option<string>)

  /** A result page; `title` is None when `['properties']['Name']['title']` is missing. */
  datatype Page = Page(title: Option<seq<Segment>>)

  /**
   * What the query gives: a failure of any kind (network, HTTP status, JSON,
   * a missing `results` key), or the result pages in order.
   */
  datatype QueryResponse = QueryFailed | QueryOk(pages: seq<Page>)

  /** Reading the title of this page would raise. */
  predicate Malformed(p: Page)
  {
    p.title.None? || (p.title.value != [] && p.title.value[0].content.None?)
  }

  /** A page with a non-empty title array contributes its first segment's content. */
  predicate HasTitle(p: Page)
  {
    p.title.Some? && p.title.value != [] && p.title.value[0].content.Some?
  }

  function FirstTitle(p: Page): string
    requires HasTitle(p)
  {
    p.title.value[0].content.value
  }

  /** The titles of the pages in order, or None once some page cannot be read. */
  function TitlesOf(pages: seq<Page>): Option<seq<string>>
  {
    if pages == [] then Some([])
    else match TitlesOf(pages[..|pages| - 1])
      case None => None
      case Some(ts) =>
        var p := pages[|pages| - 1];
        if Malformed(p) then None
        else if HasTitle(p) then Some(ts + [FirstTitle(p)])
        else Some(ts)
  }

  /** The list `get_existing_assignments` returns: any failure gives the empty list. */
  function ExistingTitlesOf(resp: QueryResponse): seq<string>
  {
    match resp
    case QueryFailed => []
    case QueryOk(pages) =>
      match TitlesOf(pages)
      case None => []
      case Some(ts) => ts
  }

  /**
   * The first-segment contents of the pages that have one, read from the
   * front: the list the loop builds when no page raises.
   */
  function TitlesShown(pages: seq<Page>): seq<string>
  {
    if pages == [] then []
    else (if HasTitle(pages[0]) then [FirstTitle(pages[0])] else []) + TitlesShown(pages[1..])
  }

  lemma {:induction false} TitlesShownSnoc(pages: seq<Page>, p: Page)
    ensures TitlesShown(pages + [p]) == TitlesShown(pages) + (if HasTitle(p) then [FirstTitle(p)] else [])
  {
    if pages == [] {
      assert pages + [p] == [p];
      assert [p][1..] == [];
    } else {
      assert (pages + [p])[0] == pages[0];
      assert (pages + [p])[1..] == pages[1..] + [p];
      TitlesShownSnoc(pages[1..], p);
    }
  }

  lemma {:induction false} TitlesOfFailureSticks(pages: seq<Page>, n: nat)
    requires n <= |pages|
    requires TitlesOf(pages[..n]).None?
    ensures TitlesOf(pages).None?
    decreases |pages| - n
  {
    if n < |pages| {
      assert pages[..n + 1][..n] == pages[..n];
      TitlesOfFailureSticks(pages, n + 1);
    } else {
      assert pages[..n] == pages;
    }
  }

  /** Reading fails exactly when some page's title cannot be read. */
  lemma {:induction false} TitlesOfFailsIffMalformed(pages: seq<Page>)
    ensures TitlesOf(pages).None? <==> exists i :: 0 <= i < |pages| && Malformed(pages[i])
  {
    if pages != [] {
      var init := pages[..|pages| - 1];
      TitlesOfFailsIffMalformed(init);
      assert forall i :: 0 <= i < |init| ==> init[i] == pages[i];
      if exists i :: 0 <= i < |init| && Malformed(init[i]) {
        var i :| 0 <= i < |init| && Malformed(init[i]);
        assert Malformed(pages[i]);
      }
    }
  }

  /**
   * When every page can be read, the titles are the first-segment contents of
   * the pages with a non-empty title array, in page order: a title t is read
   * iff some such page carries it, and there are never more titles than pages.
   */
  lemma {:induction false} TitlesOfWellFormed(pages: seq<Page>)
    requires forall i :: 0 <= i < |pages| ==> !Malformed(pages[i])
    ensures TitlesOf(pages).Some?
    ensures TitlesOf(pages).value == TitlesShown(pages)
    ensures |TitlesOf(pages).value| <= |pages|
    ensures forall t :: t in TitlesOf(pages).value <==>
      exists i :: 0 <= i < |pages| && HasTitle(pages[i]) && FirstTitle(pages[i]) == t
  {
    if pages != [] {
      var init, last := pages[..|pages| - 1], pages[|pages| - 1];
      assert forall i :: 0 <= i < |init| ==> init[i] == pages[i];
      TitlesOfWellFormed(init);
      assert pages == init + [last];
      TitlesShownSnoc(init, last);
      forall t
        ensures t in TitlesOf(pages).value <==>
          exists i :: 0 <= i < |pages| && HasTitle(pages[i]) && FirstTitle(pages[i]) == t
      {
        if exists i :: 0 <= i < |pages| && HasTitle(pages[i]) && FirstTitle(pages[i]) == t {
          var i :| 0 <= i < |pages| && HasTitle(pages[i]) && FirstTitle(pages[i]) == t;
          if i < |init| {
            assert HasTitle(init[i]) && FirstTitle(init[i]) == t;
          }
        }
      }
    }
  }

  /** Titles of two runs of pages read one after the other are concatenated. */
  lemma {:induction false} TitlesOfAppend(a: seq<Page>, b: seq<Page>)
    requires TitlesOf(a).Some? && TitlesOf(b).Some?
    ensures TitlesOf(a + b) == Some(TitlesOf(a).value + TitlesOf(b).value)
    decreases |b|
  {
    if b == [] {
      assert a + b == a;
      assert TitlesOf(b).value == [];
      assert TitlesOf(a).value + [] == TitlesOf(a).value;
    } else {
      var init := b[..|b| - 1];
      assert (a + b)[..|a + b| - 1] == a + init;
      var last := b[|b| - 1];
      assert (a + b)[|a + b| - 1] == last;
      assert TitlesOf(init).Some?;
      TitlesOfAppend(a, init);
      var ta, ti := TitlesOf(a).value, TitlesOf(init).value;
      assert !Malformed(last);
      if HasTitle(last) {
        assert TitlesOf(b).value == ti + [FirstTitle(last)];
        assert ta + (ti + [FirstTitle(last)]) == (ta + ti) + [FirstTitle(last)];
      } else {
        assert TitlesOf(b).value == ti;
      }
    }
  }

  /** The title extraction loop of `get_existing_assignments` (lines 100-111). */
  method ExistingTitles(resp: QueryResponse) returns (titles: seq<string>)
    ensures titles == ExistingTitlesOf(resp)
  {
    if resp.QueryFailed? {
      return [];
    }
    var pages := resp.pages;
    titles := [];
    for i := 0 to |pages|
      invariant TitlesOf(pages[..i]) == Some(titles)
    {
      assert pages[..i + 1][..i] == pages[..i];
      var page := pages[i];
      if page.title.None? {
        TitlesOfFailureSticks(pages, i + 1);
        return [];
      }
      var titleProperty := page.title.value;
      if titleProperty != [] {
        if titleProperty[0].content.None? {
          TitlesOfFailureSticks(pages, i + 1);
          return [];
        }
        titles := titles + [titleProperty[0].content.value];
      }
    }
    assert pages[..|pages|] == pages;
  }
}
