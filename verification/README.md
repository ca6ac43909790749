# DoctolibDataScraper in Dafny

A model of the data-shaping core of DoctolibDataScraper, a two-phase scraper
for doctor profiles on doctolib.fr.

- **Phase one** walks the paginated search results and collects profile
  links. It de-duplicates them, keeping the order in which each link was
  first seen.
- **Phase two** visits each profile and extracts a record: the name,
  addresses, skills, degrees and contacts. It also visits the profile's
  alternate practice locations and merges their fields into the record. The
  records are saved every fifth profile and after the last one.

Every part is written as pure functions over immutable sequences, except
six methods that follow the source's loops: `Session.EnsureConnectivity`,
`Session.SafeGet`, `Search.ScrapeAllSearchResults`, `Unique.DedupLinks`,
`Orchestrator.ScrapeAllProfiles` and `Orchestrator.RunScraper`. Their loop
invariants and postconditions tie them to reference functions.

The browser, the HTML parser, the connectivity probe and the VPN client are
not modelled. They become oracles:

- a profile page is a `ProfilePage` record holding what the document queries
  find, with `None` for a missing element;
- a search page is a `PageObs` observation;
- navigation is a function from URL to page;
- the connectivity probe is a function from probe number to answer;
- the fate of each profile is a function from (position, link) to `Attempt`.

Python's string behaviour is written out in `Text`:

- `str.strip()` uses exactly the characters that Python's `str.isspace`
  accepts;
- `in` is `Find`, which returns the first occurrence;
- `replace(p, "")` removes occurrences left to right without overlap, and
  returns the string unchanged when `p` is empty;
- `join` and one-character `split` are written out too.

`sys.exit` raises `SystemExit`, which `except Exception` does not catch. The
model therefore treats an exit inside a profile or a page reload as ending
the run, not as an error record.

The modules are:

- `Text`: string primitives;
- `Unique`: append-if-absent and the link de-duplication;
- `Extract`: the four field extractors and the name;
- `Profile`: alternate-location discovery, the merge and the record;
- `Session`: `ensure_connectivity` and `safe_get`;
- `Search`: pagination, de-duplication and URL normalisation;
- `Orchestrator`: `scrape_all_profiles` and `main`;
- `Browsers`: which browser each page load of phase two runs in, for the
  profile page and for each alternate location.

Four behaviours of the code are easy to miss:

- **Pagination after a failed reload.** When a page's search bar does not
  appear, the loop replaces the browser and reloads the page with
  `safe_get`. If `safe_get` raises, pagination ends. If it gives up after its
  three attempts, it returns a browser it has just started, which never
  loaded the page. The results-container check that follows then fails, and
  pagination ends as if the page had no results (`Search.Classify`).
- **The address list.** The primary address is always entry 0, even when it
  is empty. Alternate locations add only non-empty addresses, but they add
  one even when it is already in the list (`Profile.ProfileAddressList`).
- **Probes in `ensure_connectivity`.** The code probes before each of up to
  five VPN calls, once more when the loop ends, and once again after it.
  That is `vpnCalls + 2` probes (`Session.EnsureConnectivity`).
- **Degree separators.** Degrees are merged line by line with the same
  append-if-absent as skills. Once the degrees hold one "---" separator, the
  separator under each later titled section of an alternate location is
  dropped, and so is a repeated title (`Profile.MergeDropsSeparator`).

## Model

| member | source | states |
|---|---|---|
| Text.Trim | main.py:251-253 | the stripped text has no whitespace at either end and is no longer than the input |
| Text.TrimIsSlice | main.py:251-252 | `strip()` removes nothing but whitespace, and only at the two ends: the result is a slice of the input with only whitespace before and after it |
| Text.TrimOfTrimmed | main.py:253 | an already stripped string is returned unchanged |
| Text.TrimIdempotent | main.py:253 | stripping twice equals stripping once |
| Text.Find | main.py:345 | a reported position is a real occurrence of the pattern |
| Text.FindIsFirst | main.py:309 | the position reported is the first occurrence, and none is reported only when the pattern occurs nowhere |
| Text.RemoveAllLength | main.py:253 | `RemoveAll` (`replace(name, "")`) never lengthens the text; the text changes exactly when the name occurs, and then loses at least one whole copy |
| Text.RemoveAllAtFirst | main.py:253 | `RemoveAll` cuts the first occurrence that `Find` reports, keeps the text before it unchanged, and goes on removing from the text right after it |
| Text.FindAfter | main.py:253 | the pattern is found right after a stretch none of whose characters could start it |
| Text.RemoveAllDropsFront | main.py:253 | a leading occurrence is cut and removal goes on with the rest |
| Text.RemoveAllPastClean | main.py:253 | one occurrence after a stretch that cannot start the pattern, and none in the tail, leaves the stretch and the tail joined |
| Text.RemoveLeading | main.py:253 | a name that occurs only at the front is removed to leave the rest |
| Text.Split | main.py:341 | splitting gives at least one piece, and no piece holds the separator |
| Text.SplitJoin | main.py:369-372 | splitting a newline-joined column on newlines gives the entries back when no entry holds a newline |
| Text.JoinSplit | main.py:341 | joining the pieces of a split on the separator restores the string |
| Unique.DedupLinks | main.py:221-226 | the `seen`-set loop yields each distinct link exactly once, only links of the input, in first-occurrence order, and equals the append-if-absent fold |
| Unique.DedupExample | main.py:221-226 | `[A,B,A,C,B]` becomes `[A,B,C]` for any distinct A, B, C |
| Unique.AppendAbsentShape | main.py:359-365 | `AppendAbsent` (the merge) keeps the old list as an unchanged prefix, adds no entry twice and none already present, adds nothing outside the alternate list and loses nothing of it |
| Unique.AppendAbsentNoDups | main.py:359-365 | a duplicate-free list stays duplicate-free through a merge |
| Unique.AppendAbsentConcat | main.py:348-365 | merging two alternate lists one after the other equals merging their concatenation |
| Unique.AppendAbsentPresent | main.py:359 | merging entries that are all present already changes nothing |
| Unique.AppendAbsentTwice | main.py:359 | merging the same list a second time adds nothing |
| Unique.AppendAbsentDistinct | main.py:359 | a duplicate-free list with no entry in common with the list it is merged into is appended whole |
| Unique.AppendAbsentEmpty | main.py:221-226 | de-duplication yields no links exactly when there were none |
| Unique.MergeExample | main.py:358-359 | `["Cardiology","Surgery"]` merged into `["Surgery"]` gives `["Surgery","Cardiology"]` for any two distinct entries |
| Unique.FirstIndex | main.py:224 | the first occurrence of a link: it holds the link, and no earlier position does |
| Extract.ExtractName | main.py:331-332 | a missing header gives "Unknown"; a present one gives its text stripped |
| Extract.StripPractice | main.py:253 | the address without the practice name is stripped, and is shorter than the full address by at least the name when the name occurs; it is the full address itself when the name is empty or absent |
| Extract.StripPracticeAtFirst | main.py:253 | the address keeps the text before the first occurrence of the name, drops that occurrence, and has the name removed from the rest, then is stripped |
| Extract.RecurringPracticeRemoved | main.py:253-254 | a name that occurs twice in the full address is removed at both places: "name + mid + name + tail" becomes "name -> " followed by mid and tail joined and stripped |
| Extract.FormatAddress | main.py:254 | with a practice name the line is the name, " -> " and the stripped address; without one it is the address |
| Extract.ExtractAddress | main.py:247-254 | no address container gives ""; with no practice name the line is the stripped full address |
| Extract.FormatSplitsOffPractice | main.py:253-254 | a full address that starts with the practice name and does not repeat it becomes "name -> rest", with the rest stripped |
| Extract.AddressSplitsOffPractice | main.py:250-254 | the same, read from an address container whose blocks are the full address and the practice name |
| Extract.PracticeOfBlocks | main.py:251 | the second block of the container is the practice name |
| Extract.FullOfBlocks | main.py:252 | the first block of the container is the full address |
| Extract.TrimEach | main.py:266-267 | one stripped text per chip, in chip order |
| Extract.ExtractSkills | main.py:260-270 | no skills section gives no skills; otherwise the skills are the chips' texts stripped, one per chip, in chip order |
| Extract.EntryLine | main.py:288-291 | an entry gives a line exactly when its year or label is non-empty; without a year the line is the label alone; with one it is the year, " - ", then the label |
| Extract.ParseYearLine | main.py:291 | a "year - label" line splits back into year and label when the year holds no space |
| Extract.EntryLineRoundTrip | main.py:288-291 | a degree line reads back as the year and label it was made from, when the year holds no space and a line without a year holds no " - " |
| Extract.EntryLinesCount | main.py:285-291 | a section yields at most one line per entry, and exactly one per entry iff no entry is blank |
| Extract.EntryLinesMembers | main.py:285-291 | the lines of a section are exactly the lines of its non-blank entries |
| Extract.DegreesConcat | main.py:278-291 | the degree lines of consecutive sections are concatenated in section order |
| Extract.SectionBlock | main.py:279-284 | wherever it stands, a section with a title contributes the title, then "---", then its entry lines |
| Extract.DegreeLinesFromSections | main.py:278-291 | every line of `ExtractDegrees` is a title, separator or entry line of some section |
| Extract.SectionLinesKept | main.py:278-291 | every title, separator and entry line of every section is among the lines of `ExtractDegrees` |
| Extract.ExtractContacts | main.py:301-303 | no contact section gives no contacts, and never more lines than boxes |
| Extract.ContactLinesCount | main.py:304-313 | one line per box exactly when every box has a subtitle that is not the opening-hours title |
| Extract.ContactLinesFromBoxes | main.py:304-313 | every contact line is "subtitle: content" of some listed box |
| Extract.ListedBoxesHaveLines | main.py:304-313 | every listed box contributes its "subtitle: content" line |
| Extract.ContactsConcat | main.py:304-313 | the contact lines keep document order across boxes |
| Extract.UnlistedBoxSkipped | main.py:305-310 | a box without a subtitle, or with the opening-hours title, contributes nothing wherever it stands |
| Profile.SiteUrlIsHttp | main.py:439-440 | a path prefixed with the site's base URL starts with "http" |
| Profile.BasePath | main.py:341 | the base path is a prefix of the profile path, holds no '?', and stops exactly at the first '?' |
| Profile.BasePathIsFirstPiece | main.py:341 | the base path is the first piece of splitting the profile path on '?' |
| Profile.AltLinksMembers | main.py:342-346 | `AltLinks` holds exactly the page's hrefs that contain the base path and differ from the profile path |
| Profile.AltLinksConcat | main.py:343-346 | alternate links keep page order |
| Profile.ExtensionIsAltLink | main.py:345 | the profile's own path never qualifies; any other href extending the base path does, whatever its query string |
| Profile.AltFields | main.py:354-365 | an alternate page contributes its address only when it is not empty, so at most one and never an empty one; its skills, degrees and contacts are extracted as on the primary page |
| Profile.MergeAddresses | main.py:348-356 | merging location by location with `MergeInto` appends the addresses of all alternate locations, in link order |
| Profile.MergeSkills | main.py:358-359 | merging location by location with `MergeInto` equals one append-if-absent of the skills of all alternate locations |
| Profile.MergeDegrees | main.py:361-362 | the same for degrees |
| Profile.MergeContacts | main.py:364-365 | the same for contacts |
| Profile.MergeKeepsSkills | main.py:358-359 | the primary skills stay an unchanged prefix; no skill is added twice or again; the result holds exactly the primary and the alternate skills |
| Profile.MergeKeepsNoDups | main.py:358-365 | each of the skill, degree and contact lists that is duplicate-free before the merges stays so |
| Profile.MergeDropsSeparator | main.py:361-362 | `MergeInto` appends an alternate section's new title without its "---" separator once the degrees hold one |
| Profile.AddressList | main.py:335-356 | with one primary address and at most one non-empty address per alternate location, entry 0 of the merged list is the primary address, no later entry is empty, and there is at most one per location |
| Profile.ProfileAddressList | main.py:335-356 | a profile's address list is its primary page's address, even if empty, followed by the non-empty addresses of its alternate pages in link order, at most one per page |
| Profile.AllAddressesNonEmpty | main.py:354-356 | locations that each contribute at most one address, never an empty one, contribute no empty address and at most one per location in all |
| Profile.AddressColumnRoundTrip | main.py:369 | a non-empty address list with no newline in any entry is read back by splitting the addresses column on newlines |
| Profile.ProfileAddressColumn | main.py:367-369 | a profile's addresses column always splits back into its address list unless some address holds a newline |
| Profile.ScrapeProfile | main.py:319-373 | the record is `Assemble`d from the primary page's name; its address followed by the alternate pages' non-empty addresses, newline-joined; and its skills, degrees and contacts each followed by those of the alternate pages not yet present, joined |
| Profile.DegreesColumnRoundTrip | main.py:371 | the degrees column splits back into its list when that list is non-empty and newline-free |
| Profile.ContactsColumnRoundTrip | main.py:372 | the contacts column splits back into its list when that list is non-empty and newline-free |
| Profile.SkillsColumnAmbiguous | main.py:370 | a skill holding ", " gives the same column as two skills, so that column cannot always be read back |
| Session.VpnCallsFrom | main.py:83-89 | the reconnection count never exceeds five |
| Session.EnsureConnectivity | main.py:81-92 | at most five VPN calls, each after a failed probe; fewer than five only when the next probe succeeded; two probes more than VPN calls; returns iff the final probe succeeds |
| Session.NeverConnected | main.py:83-92 | a network that never comes up costs exactly five VPN calls and then the exit |
| Session.LoadResult | main.py:120-138 | the attempts count lies within the three-attempt bound |
| Session.SafeGet | main.py:114-138 | one to three attempts; every attempt before the last failed and was followed by a restored connection; loaded iff the last attempt loaded; exit iff the last attempt failed and the connection was not restored; gives up only at the third attempt; one new browser per failed attempt that reconnected |
| Search.Classify | main.py:177-209 | a page is taken iff the search bar was found or the reload returned, the results container is present, and there are links; the run is aborted iff the bar is missing and a connectivity check exited; a raising reload stops it, and a reload that gave up stops it as a page without results; otherwise a missing results container stops it for no results, and a container without links stops it for no links |
| Search.PaginateSpec | main.py:174-213 | `Paginate` takes pages while they classify as taken, their links appended in page order; the run ends on the first other page with that page's reason, and is unfinished only if every page was taken |
| Search.FlattenConcat | main.py:211 | the links of consecutive pages are concatenated in page order |
| Search.StopAddsNothing | main.py:190-209 | a page with no results container, no links, or a reload that raised or gave up stops the run and adds no link |
| Search.PaginateExtend | main.py:174-213 | an ended run is unchanged by further pages, and the links gathered so far stay a prefix |
| Search.ScrapeAllSearchResults | main.py:166-229 | the program exits iff pagination aborted; otherwise the links are the de-duplication of page 1's links followed by the later pages', duplicate-free and holding every link seen; the loop stops at page 2 plus the pages taken |
| Search.NormalizeSearchUrl | main.py:434-440 | the exit happens iff the stripped input is empty; otherwise the URL is the stripped input when that starts with "http", and the base URL followed by it when not |
| Search.NormalizeIdempotent | main.py:434-440 | normalising a normalised URL changes nothing |
| Search.FirstPageLeads | main.py:170-226 | the de-duplicated links of page 1 lead the collected links |
| Orchestrator.CheckpointsMembers | main.py:407 | the save positions are exactly the positions that are a multiple of five or the last, in increasing order |
| Orchestrator.CheckpointsCount | main.py:407 | one save per five profiles before the last, and ceil(n/5) saves for a full run of n profiles |
| Orchestrator.CheckpointsOfSeven | main.py:407 | seven profiles are saved after the fifth and the seventh |
| Orchestrator.ProgressStep | main.py:383-410 | a profile that lets the run go on appends its record, keeps records aligned with links, and adds a save iff its position is a checkpoint |
| Orchestrator.ScrapeAllProfiles | main.py:380-411 | the records are index-aligned with the links: a scraped profile's record, or for a failure the record named "ERROR" with the link as addresses, the error text as contacts and empty skills and degrees; a run completes iff every profile lets it go on; a run that stops names the profile that stopped it and holds its error record unless it exited; saves happen exactly at the checkpoints reached, each holding every record so far; a completed run's last save holds all records |
| Orchestrator.RowsMatchMeaning | main.py:385-397 | aligned records are the scraped record for a profile that returned, and the "ERROR" record of the link and the error text for one that raised |
| Orchestrator.LastSaveHoldsAll | main.py:407-409 | when every profile goes through, the last save holds every record |
| Orchestrator.RunScraper | main.py:434-451 | no URL iff the stripped input is empty; phase one exits the program iff pagination aborted; the run stops with no links iff pagination did not abort and page 1 and the later pages gave none; otherwise phase two runs over the de-duplicated links, its records aligned with them and its saves holding the records so far, and completes iff every profile lets it go on; a completed run has one record per link, a stopped run names the profile that stopped it and holds its record unless it exited, and the saves fall exactly at the checkpoints reached (`Orchestrator.Ended`) |
| Browsers.SafeGetFrom | main.py:120-138 | the attempts count lies within the three-attempt bound |
| Browsers.SafeGetKeepsOne | main.py:120-138 | starting with one open browser, `safe_get` ends with exactly one open browser, the one it returns, and a page the site serves loads at the first attempt |
| Browsers.SafeGetFreshOpen | main.py:128-135 | `safe_get` closes no other browser and returns an open browser: the one it was given or one it started |
| Browsers.SafeGetFromClosed | main.py:122-135 | given a closed browser, `safe_get` wastes at least the first attempt and leaves one more browser open |
| Browsers.LoadsKeepOne | main.py:325-350 | within one profile each load starts from the browser the previous one returned, so one open browser stays exactly one, the one the last load returned, and a load the site serves takes a single attempt |
| Browsers.LoadsFromClosed | main.py:325-350 | a profile whose loads start in a closed browser wastes the first attempt of its page, keeps that browser closed and leaves one more browser open |
| Browsers.ProfilesAsWritten | main.py:383-386 | one attempt count per load of each profile (its page and every alternate location), each profile starting from the loop's browser |
| Browsers.ProfilesCorrected | main.py:319-350 | one attempt count per load of each profile, with the browser a profile's last load returns carried on |
| Browsers.AsWrittenStale | main.py:383-386 | as written, once the loop's browser is closed every later profile's page takes at least two attempts and leaves another browser open |
| Browsers.AsWrittenAfterRefusal | main.py:319-325 | as written, one refused first load of the first profile's page makes every later profile's page take at least two attempts |
| Browsers.AsWrittenAfterAltRefusal | main.py:348-350 | as written, when the first profile's page loads at once in the loop's browser and an alternate location is then refused, `safe_get` quits the loop's browser and every later profile's page takes at least two attempts |
| Browsers.CorrectedKeepsOne | main.py:383-386 | carrying the browser on, exactly one browser is open throughout, and every load the site serves takes a single attempt |
| Browsers.CorrectedPhase | main.py:380-415 | the corrected phase two leaves no browser open after the final quit, and loads every served page and alternate location at the first attempt |
| Browsers.OneRefusedLoad | main.py:319-325 | as written, two profiles without alternate locations and one refused load take [[2], [2]] attempts and leave a browser open; corrected, they take [[2], [1]] and leave none |

## Left out

- The browser is left out: Selenium, `create_driver`, `WebDriverWait`,
  `scroll_page` and page sources. Loads and their outcomes are oracles.
- HTML parsing with BeautifulSoup is left out. A profile page is the record
  of what its queries return.
- `scrape_search_page` is the anchor query over a parsed page. Its result is
  the `links` field of a page observation.
- Connectivity probing, the NordVPN subprocess and `time.sleep` are left out.
  Probe answers are an oracle.
- CSV writing, logging, `print`, `input` and process exit codes are left out.
  A save is the list of records written, and an exit is an outcome value.
- The page URL built from the search URL and the page number is left out. It
  is not observable in the model, whose observations are indexed by page.
- Page 1's `safe_get` is left out. Its links are an input to
  `Search.ScrapeAllSearchResults`.
- In `Profile`, the `safe_get` calls for the primary page and the alternate
  pages (`Profile.PrimaryPage`, `Profile.AltPages`) are not modelled. The
  navigation oracle returns the page each load shows, so a degraded load is
  simply a page with missing elements. Which browser those loads run in is
  modelled in `Browsers`.
- `Browsers.SafeGetFrom` takes reconnections to succeed and profiles not to
  raise, so that only the browser threading varies. The number of alternate
  locations of each profile is an input. Those paths are covered
  by `Session.SafeGet` and `Orchestrator.ScrapeAllProfiles`.
- Search.PaginateSpec: the source sets no page cap and its loop can run
  forever. The model's observations are finite, and their running out is the
  `Unfinished` end.
- In phase one, `create_driver` raising inside the reload's `safe_get` is the
  `RetryRaised` recovery. The `create_driver` call just before that reload
  (main.py:189) is outside any `try`, and a failure there would crash phase
  one. That case is not modelled.
- Session.SafeGet: has no outcome for `create_driver` raising in its retry
  branch (main.py:135). That exception leaves `safe_get`. In phase two the
  `except` of main.py:389 records it as the profile's error, which is the
  `Raised` case of `Orchestrator.Attempt`. In phase one it is the
  `RetryRaised` recovery.

## Findings

| source | as written | input that shows it | evidently intended | confidence | as-written member | corrected member |
|---|---|---|---|---|---|---|
| main.py:325 | `scrape_profile` keeps the browser returned by `safe_get` in a local variable. `scrape_all_profiles` (main.py:383-386) goes on passing its own browser, which `safe_get` may already have closed. Every later profile then spends an attempt on the closed browser and starts a new one that is never quit. A refused alternate-location load closes the loop's browser in the same way. | Two profiles; the site refuses only the first load of the first profile. | `safe_get` returns "the (possibly new) driver" (main.py:118). The caller should carry it on, so that one browser is open at a time and a served page loads at the first attempt. | not executed | Browsers.OneRefusedLoad | Browsers.CorrectedPhase |
