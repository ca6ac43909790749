/** Phase one: walking the paginated search results and collecting profile
    links. The browser is an oracle of page observations, one per page from
    page 2 on; page 1's links are an input. The source sets no page cap, so
    a run ends on a stop condition or, in the model, when the observations
    run out.
 */
module Search {
  import opened Text
  import opened Unique
  import Profile

  /** What happened after a page's search bar did not appear and the browser
      was replaced: `safe_get` loaded the page, `safe_get` gave up after its
      retries and returned a browser that never loaded it, starting a browser
      inside `safe_get` raised, or a connectivity check exited the program. */
  datatype Recovery = Reloaded | GaveUp | RetryRaised | ConnectivityLost

  /** One results page as the loop sees it. `recovery` matters only when the
      search bar is missing; `links` are the page's profile links. */
  datatype PageObs = PageObs(searchBar: bool, recovery: Recovery, resultsPresent: bool, links: seq<string>)

  datatype StopReason = RetryFailed | NoResults | NoLinks

  /** What the loop does with one page. */
  datatype Step = Next(links: seq<string>) | Stop(reason: StopReason) | Fatal

  /** The loop body's decision for one page. A browser returned by a
      `safe_get` that gave up holds no page, so the results-container check
      that follows fails and the run stops as if the page had no results. */
  function Classify(o: PageObs): (s: Step)
    ensures s.Next? <==> (o.searchBar || o.recovery.Reloaded?) && o.resultsPresent && o.links != []
    ensures s.Next? ==> s.links == o.links && s.links != []
    ensures s.Fatal? <==> !o.searchBar && o.recovery.ConnectivityLost?
    ensures s == Stop(RetryFailed) <==> !o.searchBar && o.recovery.RetryRaised?
    ensures !o.searchBar && o.recovery.GaveUp? ==> s == Stop(NoResults)
    ensures (o.searchBar || o.recovery.Reloaded?) && !o.resultsPresent ==> s == Stop(NoResults)
    ensures (o.searchBar || o.recovery.Reloaded?) && o.resultsPresent && o.links == [] ==> s == Stop(NoLinks)
  {
    if !o.searchBar && o.recovery == ConnectivityLost then Fatal
    else if !o.searchBar && o.recovery == RetryRaised then Stop(RetryFailed)
    else if !o.searchBar && o.recovery == GaveUp then Stop(NoResults)
    else if !o.resultsPresent then Stop(NoResults)
    else if o.links == [] then Stop(NoLinks)
    else Next(o.links)
  }

  /** How the pagination ended: on a stop condition, by a program exit, or
      not at all within the observations given. */
  datatype End = Stopped(reason: StopReason) | Aborted | Unfinished

  /** The links gathered from the pages after page 1, the number of pages
      that contributed, and how the run ended. */
  datatype PageRun = PageRun(links: seq<string>, pages: nat, end: End)

  function Paginate(obs: seq<PageObs>): (r: PageRun)
    ensures r.pages <= |obs|
  {
    if obs == [] then PageRun([], 0, Unfinished)
    else
      match Classify(obs[0])
      case Fatal => PageRun([], 0, Aborted)
      case Stop(reason) => PageRun([], 0, Stopped(reason))
      case Next(links) =>
        var rest := Paginate(obs[1..]);
        PageRun(links + rest.links, rest.pages + 1, rest.end)
  }

  /** The links of the pages, concatenated in page order. */
  function Flatten(obs: seq<PageObs>): seq<string> {
    if obs == [] then [] else obs[0].links + Flatten(obs[1..])
  }

  lemma {:induction false} FlattenConcat(a: seq<PageObs>, b: seq<PageObs>)
    ensures Flatten(a + b) == Flatten(a) + Flatten(b)
  {
    if a == [] {
      assert a + b == b;
    } else {
      assert (a + b)[1..] == a[1..] + b;
      FlattenConcat(a[1..], b);
    }
  }

  /** A run takes pages while they classify as `Next`, appends exactly their
      links in page order, and ends on the first page that does not; it is
      unfinished only when every page was taken. */
  lemma {:induction false} PaginateSpec(obs: seq<PageObs>)
    ensures var r := Paginate(obs);
            && (forall i :: 0 <= i < r.pages ==> Classify(obs[i]).Next?)
            && r.links == Flatten(obs[..r.pages])
            && (r.end.Unfinished? <==> r.pages == |obs|)
            && (r.end.Stopped? ==> Classify(obs[r.pages]) == Stop(r.end.reason))
            && (r.end.Aborted? ==> Classify(obs[r.pages]).Fatal?)
  {
    if obs != [] && Classify(obs[0]).Next? {
      PaginateSpec(obs[1..]);
      var rest := Paginate(obs[1..]);
      assert obs[..rest.pages + 1] == [obs[0]] + obs[1..][..rest.pages];
      forall i | 0 <= i < rest.pages + 1
        ensures Classify(obs[i]).Next?
      {
        if i > 0 {
          assert obs[i] == obs[1..][i - 1];
        }
      }
    } else if obs != [] {
      assert obs[..0] == [];
    }
  }

  /** A page with no results container, or with no links, or whose reload
      raised or gave up, ends the run and adds nothing. */
  lemma StopAddsNothing(o: PageObs, rest: seq<PageObs>)
    requires !o.resultsPresent || o.links == [] || (!o.searchBar && o.recovery in {RetryRaised, GaveUp})
    requires o.searchBar || o.recovery != ConnectivityLost
    ensures Paginate([o] + rest).links == []
    ensures Paginate([o] + rest).end.Stopped?
  {
    assert ([o] + rest)[0] == o;
  }

  /** A run that has ended is not changed by further observations; an
      unfinished run's links stay a prefix of a longer run's. */
  lemma {:induction false} PaginateExtend(obs: seq<PageObs>, more: seq<PageObs>)
    ensures !Paginate(obs).end.Unfinished? ==> Paginate(obs + more) == Paginate(obs)
    ensures Paginate(obs).links <= Paginate(obs + more).links
  {
    if obs == [] {
      assert obs + more == more;
    } else {
      assert (obs + more)[0] == obs[0];
      assert (obs + more)[1..] == obs[1..] + more;
      PaginateExtend(obs[1..], more);
    }
  }

  /** The outcome of phase one. */
  datatype SearchOutcome = Collected(links: seq<string>, lastPage: nat, end: End) | Exited

  /** `scrape_all_search_results` after page 1: the loop over the observed
      pages with the `page` counter and the growing `all_links`, then the
      de-duplication. `lastPage` is the page the loop stopped at. */
  method ScrapeAllSearchResults(firstLinks: seq<string>, obs: seq<PageObs>) returns (outcome: SearchOutcome)
    ensures outcome.Exited? <==> Paginate(obs).end.Aborted?
    ensures outcome.Collected? ==>
              && outcome.links == AppendAbsent([], firstLinks + Paginate(obs).links)
              && outcome.lastPage == 2 + Paginate(obs).pages
              && outcome.end == Paginate(obs).end
              && NoDups(outcome.links)
              && (forall x :: x in outcome.links <==> x in firstLinks || x in Paginate(obs).links)
  {
    var allLinks := firstLinks;
    var page := 2;
    var k := 0;
    while k < |obs|
      invariant k <= |obs|
      invariant page == 2 + k
      invariant Paginate(obs[k..]).end == Paginate(obs).end
      invariant Paginate(obs[k..]).pages + k == Paginate(obs).pages
      invariant allLinks + Paginate(obs[k..]).links == firstLinks + Paginate(obs).links
      decreases |obs| - k
    {
      var step := Classify(obs[k]);
      assert obs[k..][0] == obs[k];
      assert obs[k..][1..] == obs[k + 1..];
      match step
      case Fatal =>
        return Exited;
      case Stop(_) =>
        break;
      case Next(links) =>
        allLinks := allLinks + links;
        page := page + 1;
        k := k + 1;
    }
    assert Paginate(obs[k..]).links == [];
    assert allLinks == firstLinks + Paginate(obs).links;
    var unique := DedupLinks(allLinks);
    AppendAbsentShape([], allLinks);
    outcome := Collected(unique, page, Paginate(obs).end);
  }

  /** `main`'s handling of the typed search URL: stripped; empty exits with
      status 1; a value not starting with "http" is taken as a path on the
      site. `None` stands for the exit. */
  function NormalizeSearchUrl(input: string): (url: Option<string>)
    ensures url.None? <==> Trim(input) == ""
    ensures url.Some? ==> IsPrefix("http", url.value)
    ensures url.Some? && IsPrefix("http", Trim(input)) ==> url.value == Trim(input)
    ensures url.Some? && !IsPrefix("http", Trim(input)) ==> url.value == Profile.BaseUrl + Trim(input)
  {
    var s := Trim(input);
    if s == "" then None
    else if IsPrefix("http", s) then Some(s)
    else
      Profile.SiteUrlIsHttp(s);
      Some(Profile.BaseUrl + s)
  }

  /** A normalised URL is normalised again to itself. */
  lemma NormalizeIdempotent(input: string)
    requires NormalizeSearchUrl(input).Some?
    ensures NormalizeSearchUrl(NormalizeSearchUrl(input).value) == NormalizeSearchUrl(input)
  {
    var s := Trim(input);
    var url := NormalizeSearchUrl(input).value;
    assert IsTrimmed(url) by {
      if !IsPrefix("http", s) {
        assert url == Profile.BaseUrl + s;
        assert url[0] == 'h';
        assert url[|url| - 1] == s[|s| - 1];
      }
    }
    TrimOfTrimmed(url);
  }

  /** De-duplication keeps the links of page 1, de-duplicated, at the front
      of the collected links. */
  lemma FirstPageLeads(firstLinks: seq<string>, later: seq<string>)
    ensures AppendAbsent([], firstLinks) <= AppendAbsent([], firstLinks + later)
  {
    AppendAbsentConcat([], firstLinks, later);
    AppendAbsentShape(AppendAbsent([], firstLinks), later);
  }
}
