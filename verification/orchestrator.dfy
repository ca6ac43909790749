/** Phase two and the entry point: one record per profile link, an error
    record when a profile raises, and a progressive save of all records so far
    every fifth profile and after the last. Scraping one profile is an
    oracle `attempt(idx, link)` giving what `scrape_profile` did for the
    link at 1-based position `idx`: returned a record, raised an exception
    (and whether the recovery that follows let the run go on), or exited.
 */
module Orchestrator {
  import opened Text
  import opened Profile
  import Search
  import Unique

  /** The fate of one profile. `recovered` is false when the reconnection
      after the error exits or the new browser cannot be started. */
  datatype Attempt = Scraped(row: Row) | Raised(error: string, recovered: bool) | Exited

  /** The record written for a profile that raised: the link goes in the
      addresses column and the error text in the contacts column. */
  function ErrorRow(link: string, error: string): Row {
    Row("ERROR", link, "", "", error)
  }

  /** Whether the run goes on past a profile. */
  predicate Continues(a: Attempt) {
    a.Scraped? || (a.Raised? && a.recovered)
  }

  /** The record a profile contributes, if it contributes one. */
  function RowOf(a: Attempt, link: string): Row
    requires !a.Exited?
  {
    match a
    case Scraped(row) => row
    case Raised(error, _) => ErrorRow(link, error)
  }

  /** The progressive-save condition at 1-based position `idx` of `n` links. */
  predicate IsCheckpoint(idx: nat, n: nat) {
    idx % 5 == 0 || idx == n
  }

  /** The positions among `1..upTo` at which a run over `n` links saves. */
  function Checkpoints(n: nat, upTo: nat): seq<nat> {
    if upTo == 0 then []
    else Checkpoints(n, upTo - 1) + (if IsCheckpoint(upTo, n) then [upTo] else [])
  }

  /** The save positions are exactly the checkpoints, in increasing order. */
  lemma {:induction false} CheckpointsMembers(n: nat, upTo: nat)
    ensures forall idx :: idx in Checkpoints(n, upTo) <==> 1 <= idx <= upTo && IsCheckpoint(idx, n)
    ensures forall i, j :: 0 <= i < j < |Checkpoints(n, upTo)| ==> Checkpoints(n, upTo)[i] < Checkpoints(n, upTo)[j]
    ensures forall i :: 0 <= i < |Checkpoints(n, upTo)| ==> Checkpoints(n, upTo)[i] <= upTo
  {
    if upTo > 0 {
      CheckpointsMembers(n, upTo - 1);
    }
  }

  /** Before the last link a run saves once per five links, and the last link
      adds a save unless it falls on a multiple of five: ceil(n / 5) saves. */
  lemma {:induction false} CheckpointsCount(n: nat, upTo: nat)
    requires upTo <= n
    ensures upTo < n ==> |Checkpoints(n, upTo)| == upTo / 5
    ensures upTo == n ==> |Checkpoints(n, upTo)| == (n + 4) / 5
  {
    if upTo > 0 {
      CheckpointsCount(n, upTo - 1);
    }
  }

  /** A run over `n >= 1` links saves last at position `n`. */
  lemma LastCheckpoint(n: nat)
    requires n >= 1
    ensures |Checkpoints(n, n)| >= 1 && Checkpoints(n, n)[|Checkpoints(n, n)| - 1] == n
  {
  }

  /** Seven links are saved after the fifth and the seventh. */
  lemma CheckpointsOfSeven()
    ensures Checkpoints(7, 7) == [5, 7]
  {
    assert Checkpoints(7, 4) == [] by {
      assert Checkpoints(7, 1) == [];
      assert Checkpoints(7, 2) == [];
      assert Checkpoints(7, 3) == [];
    }
    assert Checkpoints(7, 6) == [5];
  }

  /** One progressive save: the position and the records written. */
  datatype Save = Save(idx: nat, rows: seq<Row>)

  /** The positions of the saves, in order. */
  function SaveIndices(saves: seq<Save>): seq<nat> {
    seq(|saves|, j requires 0 <= j < |saves| => saves[j].idx)
  }

  /** How phase two ended: every link processed, or the program ended at
      the 1-based position `at`. */
  datatype Status = Completed | Stopped(at: nat)

  /** `results` holds, in link order, the record of each of the first
      `|results|` links. */
  predicate RowsMatch(results: seq<Row>, links: seq<string>, attempt: (nat, string) -> Attempt) {
    && |results| <= |links|
    && forall i :: 0 <= i < |results| ==>
         !attempt(i + 1, links[i]).Exited? && results[i] == RowOf(attempt(i + 1, links[i]), links[i])
  }

  /** The first `k` profiles all let the run go on. */
  predicate AllContinue(links: seq<string>, attempt: (nat, string) -> Attempt, k: nat)
    requires k <= |links|
  {
    forall i :: 0 <= i < k ==> Continues(attempt(i + 1, links[i]))
  }

  /** Every save wrote the records up to its position. */
  predicate SavesMatch(saves: seq<Save>, results: seq<Row>) {
    forall j :: 0 <= j < |saves| ==> saves[j].idx <= |results| && saves[j].rows == results[..saves[j].idx]
  }

  lemma RowsMatchAppend(results: seq<Row>, links: seq<string>, attempt: (nat, string) -> Attempt)
    requires |results| < |links| && RowsMatch(results, links, attempt)
    requires !attempt(|results| + 1, links[|results|]).Exited?
    ensures RowsMatch(results + [RowOf(attempt(|results| + 1, links[|results|]), links[|results|])], links, attempt)
  {
  }

  lemma SavesMatchAppend(saves: seq<Save>, results: seq<Row>, r: Row)
    requires SavesMatch(saves, results)
    ensures SavesMatch(saves, results + [r])
    ensures SavesMatch(saves + [Save(|results| + 1, results + [r])], results + [r])
  {
    forall j | 0 <= j < |saves|
      ensures (results + [r])[..saves[j].idx] == results[..saves[j].idx]
    {
    }
  }

  lemma AllContinueStep(links: seq<string>, attempt: (nat, string) -> Attempt, k: nat)
    requires k < |links| && AllContinue(links, attempt, k) && Continues(attempt(k + 1, links[k]))
    ensures AllContinue(links, attempt, k + 1)
  {
  }

  /** The saves after the profile at `idx` went through with the records `rows`. */
  function SavesAfter(saves: seq<Save>, idx: nat, n: nat, rows: seq<Row>): seq<Save> {
    if IsCheckpoint(idx, n) then saves + [Save(idx, rows)] else saves
  }

  /** The state of `scrape_all_profiles` after the first `k` profiles all went
      through. */
  predicate Progress(links: seq<string>, attempt: (nat, string) -> Attempt, k: nat, results: seq<Row>, saves: seq<Save>) {
    && k <= |links| && |results| == k
    && RowsMatch(results, links, attempt)
    && AllContinue(links, attempt, k)
    && SaveIndices(saves) == Checkpoints(|links|, k)
    && SavesMatch(saves, results)
  }

  /** One more profile that lets the run go on keeps `Progress`. */
  lemma ProgressStep(links: seq<string>, attempt: (nat, string) -> Attempt, k: nat, results: seq<Row>, saves: seq<Save>)
    requires Progress(links, attempt, k, results, saves) && k < |links|
    requires Continues(attempt(k + 1, links[k]))
    ensures var rows := results + [RowOf(attempt(k + 1, links[k]), links[k])];
            Progress(links, attempt, k + 1, rows, SavesAfter(saves, k + 1, |links|, rows))
  {
    var row := RowOf(attempt(k + 1, links[k]), links[k]);
    RowsMatchAppend(results, links, attempt);
    SavesMatchAppend(saves, results, row);
    AllContinueStep(links, attempt, k);
    SaveIndicesAppend(saves, Save(k + 1, results + [row]));
  }

  /** What `status` says of a run over `links`: a completed run has one
      record per link; a stopped one got through every profile before `at`,
      ended at `at`, and kept that profile's record unless it exited; either
      way the saves fall on the checkpoints of the profiles got through. */
  predicate Ended(links: seq<string>, attempt: (nat, string) -> Attempt, results: seq<Row>, saves: seq<Save>, status: Status) {
    && (status.Completed? ==> |results| == |links|)
    && (status.Stopped? ==>
          && 1 <= status.at <= |links|
          && AllContinue(links, attempt, status.at - 1)
          && !Continues(attempt(status.at, links[status.at - 1]))
          && |results| == (if attempt(status.at, links[status.at - 1]).Exited? then status.at - 1 else status.at))
    && SaveIndices(saves) == Checkpoints(|links|, if status.Completed? then |links| else status.at - 1)
  }

  /** `scrape_all_profiles`: the results list, the saves made along the way,
      and how the loop ended. */
  method ScrapeAllProfiles(links: seq<string>, attempt: (nat, string) -> Attempt)
    returns (results: seq<Row>, saves: seq<Save>, status: Status)
    ensures RowsMatch(results, links, attempt)
    ensures forall i :: 0 <= i < |results| && attempt(i + 1, links[i]).Scraped? ==>
              results[i] == attempt(i + 1, links[i]).row
    ensures forall i :: 0 <= i < |results| && attempt(i + 1, links[i]).Raised? ==>
              && results[i].name == "ERROR" && results[i].addresses == links[i]
              && results[i].contacts == attempt(i + 1, links[i]).error
              && results[i].skills == "" && results[i].degrees == ""
    ensures status.Completed? <==> AllContinue(links, attempt, |links|)
    ensures status.Completed? ==> |results| == |links|
    ensures status.Stopped? ==>
              && 1 <= status.at <= |links|
              && AllContinue(links, attempt, status.at - 1)
              && !Continues(attempt(status.at, links[status.at - 1]))
              && |results| == (if attempt(status.at, links[status.at - 1]).Exited? then status.at - 1 else status.at)
    ensures SaveIndices(saves) == Checkpoints(|links|, if status.Completed? then |links| else status.at - 1)
    ensures SavesMatch(saves, results)
    ensures Ended(links, attempt, results, saves, status)
    ensures status.Completed? && links != [] ==> saves != [] && saves[|saves| - 1].rows == results
  {
    results := [];
    saves := [];
    var k := 0;
    while k < |links|
      invariant Progress(links, attempt, k, results, saves)
      decreases |links| - k
    {
      var a := attempt(k + 1, links[k]);
      if !Continues(a) {
        NotAllContinue(links, attempt, k);
        if !a.Exited? {
          RowsMatchAppend(results, links, attempt);
          SavesMatchAppend(saves, results, RowOf(a, links[k]));
          results := results + [RowOf(a, links[k])];
        }
        RowsMatchMeaning(results, links, attempt);
        status := Stopped(k + 1);
        return;
      }
      ProgressStep(links, attempt, k, results, saves);
      results := results + [RowOf(a, links[k])];
      saves := SavesAfter(saves, k + 1, |links|, results);
      k := k + 1;
    }
    status := Completed;
    RowsMatchMeaning(results, links, attempt);
    if links != [] {
      LastSaveHoldsAll(links, results, saves);
    }
  }

  /** A scraped profile contributes its record, and one that raised the
      error record of its link and message. */
  lemma RowsMatchMeaning(results: seq<Row>, links: seq<string>, attempt: (nat, string) -> Attempt)
    requires RowsMatch(results, links, attempt)
    ensures forall i :: 0 <= i < |results| && attempt(i + 1, links[i]).Scraped? ==>
              results[i] == attempt(i + 1, links[i]).row
    ensures forall i :: 0 <= i < |results| && attempt(i + 1, links[i]).Raised? ==>
              && results[i].name == "ERROR" && results[i].addresses == links[i]
              && results[i].contacts == attempt(i + 1, links[i]).error
              && results[i].skills == "" && results[i].degrees == ""
  {
  }

  /** A profile that stops the run means not every profile continued. */
  lemma NotAllContinue(links: seq<string>, attempt: (nat, string) -> Attempt, k: nat)
    requires k < |links| && !Continues(attempt(k + 1, links[k]))
    ensures !AllContinue(links, attempt, |links|)
  {
  }

  lemma SaveIndicesAppend(saves: seq<Save>, s: Save)
    ensures SaveIndices(saves + [s]) == SaveIndices(saves) + [s.idx]
  {
    assert (saves + [s])[..|saves|] == saves;
  }

  lemma LastSaveAtEnd(saves: seq<Save>, n: nat)
    requires n >= 1 && SaveIndices(saves) == Checkpoints(n, n)
    ensures saves != [] && saves[|saves| - 1].idx == n
  {
    LastCheckpoint(n);
    assert SaveIndices(saves)[|saves| - 1] == saves[|saves| - 1].idx;
  }

  /** When every profile goes through, the last save holds every record. */
  lemma LastSaveHoldsAll(links: seq<string>, results: seq<Row>, saves: seq<Save>)
    requires links != [] && |results| == |links|
    requires SaveIndices(saves) == Checkpoints(|links|, |links|)
    requires SavesMatch(saves, results)
    ensures saves != [] && saves[|saves| - 1].rows == results
  {
    LastSaveAtEnd(saves, |links|);
    LastSaveRows(saves, results);
  }

  lemma LastSaveRows(saves: seq<Save>, results: seq<Row>)
    requires saves != [] && saves[|saves| - 1].idx == |results|
    requires SavesMatch(saves, results)
    ensures saves[|saves| - 1].rows == results
  {
    assert saves[|saves| - 1].rows == results[..|results|];
  }

  /** How the program ends. */
  datatype RunOutcome =
    | NoUrl                                    // empty input: exit status 1
    | SearchExited                             // a reconnection exited during phase one
    | NoLinks(url: string)                     // no profile found: exit status 0
    | Done(url: string, links: seq<string>, results: seq<Row>, saves: seq<Save>, status: Status)

  /** `main`: normalise the URL, collect the links, stop when there are none,
      scrape the profiles otherwise. Page 1's links and the later pages'
      observations stand for the browser in phase one. */
  method RunScraper(input: string, firstLinks: seq<string>, obs: seq<Search.PageObs>, attempt: (nat, string) -> Attempt)
    returns (outcome: RunOutcome)
    ensures outcome.NoUrl? <==> Trim(input) == ""
    ensures outcome.NoLinks? || outcome.Done? ==> Search.NormalizeSearchUrl(input) == Some(outcome.url)
    ensures outcome.Done? ==> outcome.links != [] && |outcome.results| <= |outcome.links|
    ensures outcome.NoLinks? ==> firstLinks == [] && Search.Paginate(obs).links == []
    ensures outcome.SearchExited? <==> Trim(input) != "" && Search.Paginate(obs).end.Aborted?
    ensures outcome.NoLinks? <==>
              && Trim(input) != "" && !Search.Paginate(obs).end.Aborted?
              && firstLinks + Search.Paginate(obs).links == []
    ensures outcome.Done? ==>
              && outcome.links == Unique.AppendAbsent([], firstLinks + Search.Paginate(obs).links)
              && RowsMatch(outcome.results, outcome.links, attempt)
              && SavesMatch(outcome.saves, outcome.results)
              && (outcome.status.Completed? <==> AllContinue(outcome.links, attempt, |outcome.links|))
    ensures outcome.Done? ==> Ended(outcome.links, attempt, outcome.results, outcome.saves, outcome.status)
  {
    var url := Search.NormalizeSearchUrl(input);
    if url.None? {
      return NoUrl;
    }
    var collected := Search.ScrapeAllSearchResults(firstLinks, obs);
    if collected.Exited? {
      return SearchExited;
    }
    if collected.links == [] {
      Unique.AppendAbsentEmpty(firstLinks + Search.Paginate(obs).links);
      return NoLinks(url.value);
    }
    var links := collected.links;
    var results, saves, status := ScrapeAllProfiles(links, attempt);
    outcome := Done(url.value, links, results, saves, status);
  }
}
