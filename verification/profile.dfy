/** One profile: the primary page, the alternate-location pages it links to,
    the merge of their fields, and the record the scraper writes. Navigation
    is an oracle `fetch` from URL to what the document queries find on the
    page that was loaded.
 */
module Profile {
  import opened Text
  import opened Unique
  import opened Extract

  const BaseUrl := "https://www.doctolib.fr"

  /** Every URL built on the site starts with "http". */
  lemma SiteUrlIsHttp(path: string)
    ensures IsPrefix("http", BaseUrl + path)
  {
    assert (BaseUrl + path)[..4] == BaseUrl[..4];
  }

  /** `profile_path.split("?")[0]`: the path up to its first '?'. */
  function BasePath(path: string): (b: string)
    ensures IsPrefix(b, path)
    ensures '?' !in b
    ensures |b| < |path| ==> path[|b|] == '?'
  {
    if path == [] || path[0] == '?' then []
    else
      var rest := BasePath(path[1..]);
      assert [path[0]] + rest == path[..|rest| + 1] by {
        assert path[..|rest| + 1] == [path[0]] + path[1..][..|rest|];
      }
      [path[0]] + rest
  }

  /** The base path is the first piece of splitting the path on '?'. */
  lemma {:induction false} BasePathIsFirstPiece(path: string)
    ensures BasePath(path) == Split(path, '?')[0]
  {
    if path != [] && path[0] != '?' {
      BasePathIsFirstPiece(path[1..]);
    }
  }

  /** An anchor's href names an alternate location of `profilePath` when it
      contains the base path and is not the profile path itself. */
  predicate IsAltLink(profilePath: string, href: string) {
    Contains(href, BasePath(profilePath)) && href != profilePath
  }

  /** The alternate-location links among a page's `dl-text` hrefs, in page order. */
  function AltLinks(profilePath: string, hrefs: seq<string>): seq<string> {
    if hrefs == [] then []
    else if IsAltLink(profilePath, hrefs[0]) then [hrefs[0]] + AltLinks(profilePath, hrefs[1..])
    else AltLinks(profilePath, hrefs[1..])
  }

  lemma AltLinksUnfold(profilePath: string, hrefs: seq<string>)
    requires hrefs != []
    ensures AltLinks(profilePath, hrefs)
         == (if IsAltLink(profilePath, hrefs[0]) then [hrefs[0]] else []) + AltLinks(profilePath, hrefs[1..])
  {
  }

  /** The discovered links are exactly the hrefs that qualify. */
  lemma {:induction false} AltLinksMembers(profilePath: string, hrefs: seq<string>)
    ensures forall h :: h in AltLinks(profilePath, hrefs) <==> h in hrefs && IsAltLink(profilePath, h)
  {
    if hrefs != [] {
      AltLinksUnfold(profilePath, hrefs);
      AltLinksMembers(profilePath, hrefs[1..]);
      assert forall h :: h in hrefs <==> h == hrefs[0] || h in hrefs[1..] by {
        assert hrefs == [hrefs[0]] + hrefs[1..];
      }
    }
  }

  /** Discovery keeps page order: the links of two stretches of the page are
      those of the first stretch followed by those of the second. */
  lemma {:induction false} AltLinksConcat(profilePath: string, a: seq<string>, b: seq<string>)
    ensures AltLinks(profilePath, a + b) == AltLinks(profilePath, a) + AltLinks(profilePath, b)
  {
    if a == [] {
      assert a + b == b;
    } else {
      assert (a + b)[0] == a[0];
      assert (a + b)[1..] == a[1..] + b;
      AltLinksConcat(profilePath, a[1..], b);
    }
  }

  /** The profile's own path is never an alternate location, and the query
      string does not matter: any href that extends the base path qualifies,
      including the path of a different profile that happens to start with it. */
  lemma ExtensionIsAltLink(profilePath: string, suffix: string)
    requires BasePath(profilePath) + suffix != profilePath
    ensures IsAltLink(profilePath, BasePath(profilePath) + suffix)
    ensures !IsAltLink(profilePath, profilePath)
  {
    var b := BasePath(profilePath);
    assert IsPrefix(b, b + suffix);
  }

  /** The four lists a profile collects over all its locations. */
  datatype Fields = Fields(addresses: seq<string>, skills: seq<string>, degrees: seq<string>, contacts: seq<string>)

  /** The fields of the primary page; its address is kept even when empty. */
  function PrimaryFields(page: ProfilePage): Fields {
    Fields([ExtractAddress(page.addressBlocks)],
           ExtractSkills(page.skillChips),
           ExtractDegrees(page.history),
           ExtractContacts(page.contactBoxes))
  }

  /** What an alternate location contributes: its address only when it is
      not empty, and its skills, degrees and contacts. */
  function AltFields(page: ProfilePage): (g: Fields)
    ensures "" !in g.addresses && |g.addresses| <= 1
    ensures g.addresses == [] <==> ExtractAddress(page.addressBlocks) == ""
    ensures ExtractAddress(page.addressBlocks) != "" ==> g.addresses == PrimaryFields(page).addresses
    ensures g.skills == PrimaryFields(page).skills
    ensures g.degrees == PrimaryFields(page).degrees
    ensures g.contacts == PrimaryFields(page).contacts
  {
    var addr := ExtractAddress(page.addressBlocks);
    Fields(if addr != "" then [addr] else [],
           ExtractSkills(page.skillChips),
           ExtractDegrees(page.history),
           ExtractContacts(page.contactBoxes))
  }

  /** One alternate location merged in: its addresses appended, its skills,
      degrees and contacts appended where not yet present. */
  function MergeInto(f: Fields, g: Fields): Fields {
    Fields(f.addresses + g.addresses,
           AppendAbsent(f.skills, g.skills),
           AppendAbsent(f.degrees, g.degrees),
           AppendAbsent(f.contacts, g.contacts))
  }

  /** The alternate locations merged in one after another. */
  function MergeAll(f: Fields, alts: seq<Fields>): Fields
    decreases |alts|
  {
    if alts == [] then f else MergeAll(MergeInto(f, alts[0]), alts[1..])
  }

  // Reference definitions: each list of the alternate locations, concatenated.

  function AllAddresses(alts: seq<Fields>): seq<string> {
    if alts == [] then [] else alts[0].addresses + AllAddresses(alts[1..])
  }

  function AllSkills(alts: seq<Fields>): seq<string> {
    if alts == [] then [] else alts[0].skills + AllSkills(alts[1..])
  }

  function AllDegrees(alts: seq<Fields>): seq<string> {
    if alts == [] then [] else alts[0].degrees + AllDegrees(alts[1..])
  }

  function AllContacts(alts: seq<Fields>): seq<string> {
    if alts == [] then [] else alts[0].contacts + AllContacts(alts[1..])
  }

  /** Merging location by location appends the addresses of all locations. */
  lemma {:induction false} MergeAddresses(f: Fields, alts: seq<Fields>)
    ensures MergeAll(f, alts).addresses == f.addresses + AllAddresses(alts)
    decreases |alts|
  {
    if alts != [] {
      var g := MergeInto(f, alts[0]);
      calc {
        MergeAll(f, alts).addresses;
        MergeAll(g, alts[1..]).addresses;
        { MergeAddresses(g, alts[1..]); }
        g.addresses + AllAddresses(alts[1..]);
        (f.addresses + alts[0].addresses) + AllAddresses(alts[1..]);
        { SeqAssoc(f.addresses, alts[0].addresses, AllAddresses(alts[1..])); }
        f.addresses + AllAddresses(alts);
      }
    }
  }

  lemma SeqAssoc(a: seq<string>, b: seq<string>, c: seq<string>)
    ensures (a + b) + c == a + (b + c)
  {
  }

  /** Merging location by location is one append-if-absent of all the
      locations' skills. */
  lemma {:induction false} MergeSkills(f: Fields, alts: seq<Fields>)
    ensures MergeAll(f, alts).skills == AppendAbsent(f.skills, AllSkills(alts))
    decreases |alts|
  {
    if alts != [] {
      MergeSkills(MergeInto(f, alts[0]), alts[1..]);
      AppendAbsentConcat(f.skills, alts[0].skills, AllSkills(alts[1..]));
    }
  }

  lemma {:induction false} MergeDegrees(f: Fields, alts: seq<Fields>)
    ensures MergeAll(f, alts).degrees == AppendAbsent(f.degrees, AllDegrees(alts))
    decreases |alts|
  {
    if alts != [] {
      MergeDegrees(MergeInto(f, alts[0]), alts[1..]);
      AppendAbsentConcat(f.degrees, alts[0].degrees, AllDegrees(alts[1..]));
    }
  }

  lemma {:induction false} MergeContacts(f: Fields, alts: seq<Fields>)
    ensures MergeAll(f, alts).contacts == AppendAbsent(f.contacts, AllContacts(alts))
    decreases |alts|
  {
    if alts != [] {
      MergeContacts(MergeInto(f, alts[0]), alts[1..]);
      AppendAbsentConcat(f.contacts, alts[0].contacts, AllContacts(alts[1..]));
    }
  }

  /** What the merge promises for the skills list, and alike for degrees and
      contacts: the list before the merge is kept as an unchanged prefix,
      every entry added comes from an alternate location, nothing already
      present is added again, and nothing of the alternate locations is lost. */
  lemma MergeKeepsSkills(f: Fields, alts: seq<Fields>)
    ensures var s := MergeAll(f, alts).skills;
            && |f.skills| <= |s|
            && s[..|f.skills|] == f.skills
            && (forall i, j :: 0 <= i < j < |s| && |f.skills| <= j ==> s[i] != s[j])
            && (forall x :: x in s <==> x in f.skills || x in AllSkills(alts))
  {
    MergeSkills(f, alts);
    AppendAbsentShape(f.skills, AllSkills(alts));
  }

  /** A list that is duplicate-free before the merges stays so. (The degrees
      of a primary page with two titled sections hold the separator twice,
      and keep both copies.) */
  lemma MergeKeepsNoDups(f: Fields, alts: seq<Fields>)
    ensures NoDups(f.skills) ==> NoDups(MergeAll(f, alts).skills)
    ensures NoDups(f.degrees) ==> NoDups(MergeAll(f, alts).degrees)
    ensures NoDups(f.contacts) ==> NoDups(MergeAll(f, alts).contacts)
  {
    MergeSkills(f, alts);
    MergeDegrees(f, alts);
    MergeContacts(f, alts);
    if NoDups(f.skills) {
      AppendAbsentNoDups(f.skills, AllSkills(alts));
    }
    if NoDups(f.degrees) {
      AppendAbsentNoDups(f.degrees, AllDegrees(alts));
    }
    if NoDups(f.contacts) {
      AppendAbsentNoDups(f.contacts, AllContacts(alts));
    }
  }

  /** Degrees are merged line by line, so the separator under the title of an
      alternate location's section is dropped once the degrees so far hold a
      separator: the title is appended with nothing under it. */
  lemma MergeDropsSeparator(f: Fields, g: Fields, title: string)
    requires SectionSeparator in f.degrees && title !in f.degrees
    requires g.degrees == [title, SectionSeparator]
    ensures MergeInto(f, g).degrees == f.degrees + [title]
  {
    AppendAbsentStep(f.degrees, title, [SectionSeparator]);
    AppendAbsentStep(f.degrees + [title], SectionSeparator, []);
  }

  /** Locations that each contribute at most one address, never an empty
      one, contribute no empty address and at most one each in all. */
  lemma {:induction false} AllAddressesNonEmpty(alts: seq<Fields>)
    requires forall i :: 0 <= i < |alts| ==> "" !in alts[i].addresses && |alts[i].addresses| <= 1
    ensures |AllAddresses(alts)| <= |alts|
    ensures "" !in AllAddresses(alts)
  {
    if alts != [] {
      assert forall i :: 0 <= i < |alts[1..]| ==> alts[1..][i] == alts[i + 1];
      AllAddressesNonEmpty(alts[1..]);
    }
  }

  /** The pages of the alternate links, loaded in link order. */
  function AltPages(alts: seq<string>, fetch: string -> ProfilePage): seq<ProfilePage> {
    seq(|alts|, i requires 0 <= i < |alts| => fetch(BaseUrl + alts[i]))
  }

  /** The profile's page as loaded from its URL. */
  function PrimaryPage(profilePath: string, fetch: string -> ProfilePage): ProfilePage {
    fetch(BaseUrl + profilePath)
  }

  /** What the alternate locations contribute, in link order. */
  function AltFieldsOf(pages: seq<ProfilePage>): seq<Fields> {
    seq(|pages|, i requires 0 <= i < |pages| => AltFields(pages[i]))
  }

  /** The alternate pages of a profile. */
  function ProfileAltPages(profilePath: string, fetch: string -> ProfilePage): seq<ProfilePage> {
    AltPages(AltLinks(profilePath, PrimaryPage(profilePath, fetch).textLinks), fetch)
  }

  /** The fields collected over the primary page and every alternate location. */
  function ProfileFields(profilePath: string, fetch: string -> ProfilePage): Fields {
    MergeAll(PrimaryFields(PrimaryPage(profilePath, fetch)), AltFieldsOf(ProfileAltPages(profilePath, fetch)))
  }

  /** The address list starts with the primary address, even an empty one,
      and holds one more entry for each alternate location with a non-empty
      address. */
  lemma AddressList(f: Fields, alts: seq<Fields>)
    requires |f.addresses| == 1
    requires forall i :: 0 <= i < |alts| ==> "" !in alts[i].addresses && |alts[i].addresses| <= 1
    ensures 1 <= |MergeAll(f, alts).addresses| <= 1 + |alts|
    ensures MergeAll(f, alts).addresses[0] == f.addresses[0]
    ensures "" !in MergeAll(f, alts).addresses[1..]
  {
    MergeAddresses(f, alts);
    AllAddressesNonEmpty(alts);
    assert MergeAll(f, alts).addresses[1..] == AllAddresses(alts);
  }

  /** The same for a profile: the primary page's address first, then the
      non-empty addresses of its alternate pages, at most one per page. */
  lemma ProfileAddressList(profilePath: string, fetch: string -> ProfilePage)
    ensures var primary := ExtractAddress(PrimaryPage(profilePath, fetch).addressBlocks);
            var addrs := ProfileFields(profilePath, fetch).addresses;
            && addrs == [primary] + AllAddresses(AltFieldsOf(ProfileAltPages(profilePath, fetch)))
            && 1 <= |addrs| <= 1 + |ProfileAltPages(profilePath, fetch)|
            && addrs[0] == primary
            && "" !in addrs[1..]
  {
    var page := PrimaryPage(profilePath, fetch);
    var alts := AltFieldsOf(ProfileAltPages(profilePath, fetch));
    MergeAddresses(PrimaryFields(page), alts);
    AddressList(PrimaryFields(page), alts);
  }

  /** The record written for one profile. */
  datatype Row = Row(name: string, addresses: string, skills: string, degrees: string, contacts: string)

  /** Addresses, degrees and contacts are joined by newlines, skills by ", ". */
  function Assemble(name: string, f: Fields): Row {
    Row(name, Join("\n", f.addresses), Join(", ", f.skills), Join("\n", f.degrees), Join("\n", f.contacts))
  }

  /** The record of one profile: the primary page's name; its address
      followed by every alternate location's non-empty address; its skills,
      degrees and contacts followed by those of the alternate locations that
      are not yet listed. */
  function ScrapeProfile(profilePath: string, fetch: string -> ProfilePage): (r: Row)
    ensures var primary := PrimaryFields(PrimaryPage(profilePath, fetch));
            var alts := AltFieldsOf(ProfileAltPages(profilePath, fetch));
            && r.name == ExtractName(PrimaryPage(profilePath, fetch))
            && r.addresses == Join("\n", primary.addresses + AllAddresses(alts))
            && r.skills == Join(", ", AppendAbsent(primary.skills, AllSkills(alts)))
            && r.degrees == Join("\n", AppendAbsent(primary.degrees, AllDegrees(alts)))
            && r.contacts == Join("\n", AppendAbsent(primary.contacts, AllContacts(alts)))
  {
    var primary := PrimaryFields(PrimaryPage(profilePath, fetch));
    var alts := AltFieldsOf(ProfileAltPages(profilePath, fetch));
    MergeAddresses(primary, alts);
    MergeSkills(primary, alts);
    MergeDegrees(primary, alts);
    MergeContacts(primary, alts);
    Assemble(ExtractName(PrimaryPage(profilePath, fetch)), ProfileFields(profilePath, fetch))
  }

  /** A newline-joined address column gives its entries back on splitting,
      as long as the list is not empty and no entry holds a newline itself. */
  lemma AddressColumnRoundTrip(name: string, f: Fields)
    requires f.addresses != [] && forall i :: 0 <= i < |f.addresses| ==> '\n' !in f.addresses[i]
    ensures Split(Assemble(name, f).addresses, '\n') == f.addresses
  {
    SplitJoin('\n', f.addresses);
  }

  /** A profile's address column always reads back, since it holds at least
      the primary address, unless some address holds a newline. */
  lemma ProfileAddressColumn(profilePath: string, fetch: string -> ProfilePage)
    requires forall i :: 0 <= i < |ProfileFields(profilePath, fetch).addresses| ==>
               '\n' !in ProfileFields(profilePath, fetch).addresses[i]
    ensures Split(ScrapeProfile(profilePath, fetch).addresses, '\n') == ProfileFields(profilePath, fetch).addresses
  {
    ProfileAddressList(profilePath, fetch);
    AddressColumnRoundTrip(ExtractName(PrimaryPage(profilePath, fetch)), ProfileFields(profilePath, fetch));
  }

  /** The same for the degree column when it is not empty. */
  lemma DegreesColumnRoundTrip(f: Fields)
    requires f.degrees != [] && forall i :: 0 <= i < |f.degrees| ==> '\n' !in f.degrees[i]
    ensures Split(Assemble("", f).degrees, '\n') == f.degrees
  {
    SplitJoin('\n', f.degrees);
  }

  /** The same for the contact column when it is not empty. */
  lemma ContactsColumnRoundTrip(f: Fields)
    requires f.contacts != [] && forall i :: 0 <= i < |f.contacts| ==> '\n' !in f.contacts[i]
    ensures Split(Assemble("", f).contacts, '\n') == f.contacts
  {
    SplitJoin('\n', f.contacts);
  }

  /** The skills column cannot always be read back: a skill holding ", "
      gives the same column as two skills. */
  lemma SkillsColumnAmbiguous(a: string, b: string)
    ensures [a + ", " + b] != [a, b]
    ensures Assemble("", Fields([], [a + ", " + b], [], [])).skills
         == Assemble("", Fields([], [a, b], [], [])).skills
  {
    assert |[a + ", " + b]| != |[a, b]|;
    assert Join(", ", [a, b]) == a + ", " + Join(", ", [b]);
  }
}
