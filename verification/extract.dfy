/** The field extractors of a profile page. The HTML queries themselves are
    not modelled: a `ProfilePage` holds what they find (the raw text of each
    element, or `None` when the element is absent), and each extractor turns
    that into the strings the scraper keeps. Every `.text.strip()` of the
    source is `Trim` applied to an element's raw text.
 */
module Extract {
  import opened Text

  /** Contact boxes whose title holds this phrase are the opening hours. */
  const OpeningHoursMarker := "Horaires d'ouverture"
  /** The line written under every history section title. */
  const SectionSeparator := "---"

  /** One `dl-profile-entry` of a history section: its time and label elements. */
  datatype HistoryEntry = HistoryEntry(year: Option<string>, caption: Option<string>)

  /** One `dl-profile-history` section: its title element and its entries. */
  datatype HistorySection = HistorySection(title: Option<string>, entries: seq<HistoryEntry>)

  /** One `dl-profile-box` of the contact section: its subtitle element and the
      first `div` inside it. */
  datatype ContactBox = ContactBox(subtitle: Option<string>, content: Option<string>)

  /** What the document queries find on one profile page. `addressBlocks` is
      the list of `div`s inside the address container, `None` when there is no
      container; `textLinks` are the hrefs of the `dl-text` anchors. */
  datatype ProfilePage = ProfilePage(
    headerName: Option<string>,
    addressBlocks: Option<seq<string>>,
    skillChips: Option<seq<string>>,
    history: seq<HistorySection>,
    contactBoxes: Option<seq<ContactBox>>,
    textLinks: seq<string>)

  /** `el.text.strip() if el else default`: a found element counts even when
      its text is empty. */
  function TextOr(el: Option<string>, default: string): string {
    match el
    case Some(raw) => Trim(raw)
    case None => default
  }

  /** The doctor's name: the stripped header text, "Unknown" without a header. */
  function ExtractName(page: ProfilePage): (name: string)
    ensures page.headerName.None? ==> name == "Unknown"
    ensures page.headerName.Some? ==> name == Trim(page.headerName.value)
    ensures page.headerName.Some? ==> IsTrimmed(name) && |name| <= |page.headerName.value|
  {
    TextOr(page.headerName, "Unknown")
  }

  // ---------------------------------------------------------------- address

  /** The first block of the address container: the full address. */
  function FullAddress(blocks: seq<string>): string {
    if |blocks| > 0 then Trim(blocks[0]) else ""
  }

  /** The second block of the address container: the practice name. */
  function PracticeName(blocks: seq<string>): string {
    if |blocks| > 1 then Trim(blocks[1]) else ""
  }

  /** The full address with every occurrence of the practice name cut out,
      stripped again. It is the full address itself when the name is empty or
      does not occur, and shorter by at least the name when it does. */
  function StripPractice(full: string, practice: string): (address: string)
    ensures IsTrimmed(address)
    ensures |address| <= |full|
    ensures practice != "" && Contains(full, practice) ==> |address| + |practice| <= |full|
    ensures (practice == "" || !Contains(full, practice)) && IsTrimmed(full) ==> address == full
  {
    RemoveAllLength(full, practice);
    assert IsTrimmed(full) ==> Trim(full) == full by {
      if IsTrimmed(full) {
        TrimOfTrimmed(full);
      }
    }
    Trim(RemoveAll(full, practice))
  }

  /** Stripping cuts the first occurrence of the name, keeps what stands
      before it, and goes on removing the name from what follows it. */
  lemma StripPracticeAtFirst(full: string, practice: string, k: nat)
    requires practice != "" && Find(full, practice) == Some(k)
    ensures k + |practice| <= |full|
    ensures StripPractice(full, practice) == Trim(full[..k] + RemoveAll(full[k + |practice|..], practice))
  {
    RemoveAllAtFirst(full, practice, k);
  }

  /** The address line: with a practice name, the name, an arrow and the
      stripped address; without one, the full address unchanged. */
  function FormatAddress(practice: string, full: string): (r: string)
    ensures practice == "" && IsTrimmed(full) ==> r == full
    ensures practice != "" ==>
              && IsPrefix(practice + " -> ", r)
              && r[|practice| + 4..] == StripPractice(full, practice)
  {
    var address := StripPractice(full, practice);
    if practice != "" then
      assert (practice + " -> " + address)[|practice| + 4..] == address;
      practice + " -> " + address
    else address
  }

  /** The address of one location; "" without an address container. */
  function ExtractAddress(blocks: Option<seq<string>>): (r: string)
    ensures blocks.None? ==> r == ""
    ensures blocks.Some? && PracticeName(blocks.value) == "" ==> r == FullAddress(blocks.value)
  {
    match blocks
    case None => ""
    case Some(bs) => FormatAddress(PracticeName(bs), FullAddress(bs))
  }

  /** When the full address starts with the practice name and does not repeat
      it, the address line is the name, an arrow, and the rest of the address. */
  lemma FormatSplitsOffPractice(practice: string, rest: string)
    requires practice != "" && IsTrimmed(practice + rest)
    requires !Contains(rest, practice)
    ensures FormatAddress(practice, practice + rest) == practice + " -> " + Trim(rest)
  {
    RemoveLeading(practice, rest);
    assert StripPractice(practice + rest, practice) == Trim(rest);
  }

  /** A practice name that recurs in the full address is cut out at every
      occurrence: with a second copy after a middle part `mid` that holds no
      character starting the name, both copies go and `mid` and the tail are
      joined. */
  lemma RecurringPracticeRemoved(practice: string, mid: string, tail: string)
    requires practice != ""
    requires forall i :: 0 <= i < |mid| ==> mid[i] != practice[0]
    requires !Contains(tail, practice)
    ensures StripPractice(practice + mid + practice + tail, practice) == Trim(mid + tail)
    ensures FormatAddress(practice, practice + mid + practice + tail) == practice + " -> " + Trim(mid + tail)
  {
    var second := mid + practice + tail;
    AppendAssoc4(practice, mid, practice, tail);
    RemoveAllDropsFront(practice, second);
    RemoveAllPastClean(mid, practice, tail);
  }

  lemma PracticeOfBlocks(full: string, practice: string)
    requires IsTrimmed(practice)
    ensures PracticeName([full, practice]) == practice
  {
    TrimOfTrimmed(practice);
  }

  lemma FullOfBlocks(full: string, practice: string)
    requires IsTrimmed(full)
    ensures FullAddress([full, practice]) == full
  {
    TrimOfTrimmed(full);
  }

  /** The same for a whole address container whose blocks are the full
      address and the practice name. */
  lemma AddressSplitsOffPractice(practice: string, rest: string)
    requires practice != "" && IsTrimmed(practice) && IsTrimmed(practice + rest)
    requires !Contains(rest, practice)
    ensures ExtractAddress(Some([practice + rest, practice])) == practice + " -> " + Trim(rest)
  {
    PracticeOfBlocks(practice + rest, practice);
    FullOfBlocks(practice + rest, practice);
    FormatSplitsOffPractice(practice, rest);
  }

  // ----------------------------------------------------------------- skills

  function TrimEach(raw: seq<string>): (r: seq<string>)
    ensures |r| == |raw|
    ensures forall i :: 0 <= i < |r| ==> r[i] == Trim(raw[i])
  {
    if raw == [] then [] else [Trim(raw[0])] + TrimEach(raw[1..])
  }

  /** The skill chips' texts, in page order; none without a skills section. */
  function ExtractSkills(chips: Option<seq<string>>): (r: seq<string>)
    ensures chips.None? ==> r == []
    ensures chips.Some? ==> |r| == |chips.value| && forall i :: 0 <= i < |r| ==> r[i] == Trim(chips.value[i])
    ensures forall i :: 0 <= i < |r| ==> IsTrimmed(r[i])
  {
    match chips
    case None => []
    case Some(cs) => TrimEach(cs)
  }

  // ---------------------------------------------------------------- degrees

  /** The line of one history entry: "year - label", or the label alone when
      there is no year; no line when both are empty. */
  function EntryLine(e: HistoryEntry): (line: Option<string>)
    ensures line.None? <==> TextOr(e.year, "") == "" && TextOr(e.caption, "") == ""
    ensures line.Some? && TextOr(e.year, "") == "" ==> line.value == TextOr(e.caption, "")
    ensures line.Some? && TextOr(e.year, "") != "" ==>
              && IsPrefix(TextOr(e.year, "") + " - ", line.value)
              && line.value[|TextOr(e.year, "")| + 3..] == TextOr(e.caption, "")
  {
    var year := TextOr(e.year, "");
    var caption := TextOr(e.caption, "");
    if year != "" then
      assert (year + " - " + caption)[|year| + 3..] == caption;
      Some(year + " - " + caption)
    else if caption != "" then Some(caption)
    else None
  }

  /** Reads a degree line back into its year and label. */
  function ParseEntryLine(line: string): (string, string) {
    match Find(line, " - ")
    case Some(k) => (line[..k], line[k + 3..])
    case None => ("", line)
  }

  /** A "year - label" line splits at the first separator, which is the one
      written after the year when the year holds no space. */
  lemma ParseYearLine(year: string, caption: string)
    requires year != "" && ' ' !in year
    ensures ParseEntryLine(year + " - " + caption) == (year, caption)
  {
    var line := year + " - " + caption;
    assert line == year + (" - " + caption);
    assert forall i :: 0 <= i < |year| ==> year[i] != " - "[0];
    FindAfter(year, " - " + caption, " - ");
    assert line[..|year|] == year;
    assert line[|year| + 3..] == caption;
  }

  /** A degree line gives back the year and label it was made from, as long as
      the year holds no space and, for a line without year, the label does not
      hold the " - " separator itself. */
  lemma EntryLineRoundTrip(e: HistoryEntry)
    requires EntryLine(e).Some?
    requires ' ' !in TextOr(e.year, "")
    requires TextOr(e.year, "") == "" ==> !Contains(TextOr(e.caption, ""), " - ")
    ensures ParseEntryLine(EntryLine(e).value) == (TextOr(e.year, ""), TextOr(e.caption, ""))
  {
    var year := TextOr(e.year, "");
    if year != "" {
      ParseYearLine(year, TextOr(e.caption, ""));
    }
  }

  /** The lines of a section's entries, skipping entries with neither year nor label. */
  function EntryLines(entries: seq<HistoryEntry>): seq<string> {
    if entries == [] then []
    else
      match EntryLine(entries[0])
      case Some(line) => [line] + EntryLines(entries[1..])
      case None => EntryLines(entries[1..])
  }

  /** An entry is dropped exactly when it has neither year nor label, so a
      section yields one line per entry precisely when no entry is blank. */
  lemma {:induction false} EntryLinesCount(entries: seq<HistoryEntry>)
    ensures |EntryLines(entries)| <= |entries|
    ensures |EntryLines(entries)| == |entries| <==>
              forall j :: 0 <= j < |entries| ==> EntryLine(entries[j]).Some?
  {
    if entries != [] {
      EntryLinesUnfold(entries);
      EntryLinesCount(entries[1..]);
      assert forall j :: 1 <= j < |entries| ==> entries[j] == entries[1..][j - 1];
    }
  }

  lemma EntryLinesUnfold(entries: seq<HistoryEntry>)
    requires entries != []
    ensures EntryLines(entries)
         == (match EntryLine(entries[0]) case Some(l) => [l] case None => []) + EntryLines(entries[1..])
  {
  }

  /** The lines of a section are exactly the lines of its non-blank entries. */
  lemma {:induction false} EntryLinesMembers(entries: seq<HistoryEntry>)
    ensures forall line :: line in EntryLines(entries) <==>
              exists j :: 0 <= j < |entries| && EntryLine(entries[j]) == Some(line)
  {
    if entries != [] {
      var head := match EntryLine(entries[0]) case Some(l) => [l] case None => [];
      EntryLinesUnfold(entries);
      EntryLinesMembers(entries[1..]);
      forall line
        ensures line in EntryLines(entries) <==>
                exists j :: 0 <= j < |entries| && EntryLine(entries[j]) == Some(line)
      {
        if line in EntryLines(entries) {
          if line in head {
            assert EntryLine(entries[0]) == Some(line);
          } else {
            assert line in EntryLines(entries[1..]);
            var j :| 0 <= j < |entries[1..]| && EntryLine(entries[1..][j]) == Some(line);
            assert entries[1..][j] == entries[j + 1];
          }
        }
        if exists j :: 0 <= j < |entries| && EntryLine(entries[j]) == Some(line) {
          var j :| 0 <= j < |entries| && EntryLine(entries[j]) == Some(line);
          if j > 0 {
            assert entries[1..][j - 1] == entries[j];
            assert line in EntryLines(entries[1..]);
          } else {
            assert line in head;
          }
        }
      }
    }
  }

  /** The lines of one history section: its title and the separator when it
      has a title element, then its entries' lines. */
  function SectionLines(s: HistorySection): seq<string> {
    (if s.title.Some? then [TextOr(s.title, ""), SectionSeparator] else []) + EntryLines(s.entries)
  }

  /** The degree lines of a page: the lines of every history section, in order. */
  function ExtractDegrees(sections: seq<HistorySection>): seq<string>
  {
    if sections == [] then [] else SectionLines(sections[0]) + ExtractDegrees(sections[1..])
  }

  /** The degree lines of consecutive sections are concatenated in section order. */
  lemma {:induction false} DegreesConcat(a: seq<HistorySection>, b: seq<HistorySection>)
    ensures ExtractDegrees(a + b) == ExtractDegrees(a) + ExtractDegrees(b)
  {
    if a == [] {
      assert a + b == b;
    } else {
      assert (a + b)[0] == a[0];
      assert (a + b)[1..] == a[1..] + b;
      DegreesConcat(a[1..], b);
    }
  }

  /** Every degree line comes from some section: its title, the separator
      under it, or the line of one of its entries. */
  lemma {:induction false} DegreeLinesFromSections(sections: seq<HistorySection>)
    ensures forall line :: line in ExtractDegrees(sections) ==>
              exists j :: 0 <= j < |sections| && line in SectionLines(sections[j])
  {
    if sections != [] {
      DegreeLinesFromSections(sections[1..]);
      forall line | line in ExtractDegrees(sections)
        ensures exists j :: 0 <= j < |sections| && line in SectionLines(sections[j])
      {
        if line !in SectionLines(sections[0]) {
          assert line in ExtractDegrees(sections[1..]);
          var j :| 0 <= j < |sections[1..]| && line in SectionLines(sections[1..][j]);
          assert sections[1..][j] == sections[j + 1];
        }
      }
    }
  }

  /** Every section contributes all of its lines. */
  lemma {:induction false} SectionLinesKept(sections: seq<HistorySection>)
    ensures forall j, line :: 0 <= j < |sections| && line in SectionLines(sections[j]) ==>
              line in ExtractDegrees(sections)
  {
    if sections != [] {
      SectionLinesKept(sections[1..]);
      forall j, line | 0 <= j < |sections| && line in SectionLines(sections[j])
        ensures line in ExtractDegrees(sections)
      {
        if j > 0 {
          assert sections[1..][j - 1] == sections[j];
        }
      }
    }
  }

  /** Every section with a title contributes its title and the separator right
      before its entries, wherever it stands among the sections. */
  lemma SectionBlock(a: seq<HistorySection>, s: HistorySection, b: seq<HistorySection>)
    requires s.title.Some?
    ensures ExtractDegrees(a + [s] + b)
         == ExtractDegrees(a) + [TextOr(s.title, ""), SectionSeparator] + EntryLines(s.entries) + ExtractDegrees(b)
  {
    calc {
      ExtractDegrees(a + [s] + b);
      { DegreesConcat(a + [s], b); }
      ExtractDegrees(a + [s]) + ExtractDegrees(b);
      { DegreesConcat(a, [s]); assert ExtractDegrees([s]) == SectionLines(s); }
      ExtractDegrees(a) + SectionLines(s) + ExtractDegrees(b);
    }
  }

  // --------------------------------------------------------------- contacts

  /** A box is listed when it has a subtitle and that subtitle is not the
      opening-hours title. */
  predicate IsListed(b: ContactBox) {
    b.subtitle.Some? && !Contains(Trim(b.subtitle.value), OpeningHoursMarker)
  }

  /** "subtitle: content" for one listed box. */
  function ContactLine(b: ContactBox): string
    requires b.subtitle.Some?
  {
    Trim(b.subtitle.value) + ": " + TextOr(b.content, "")
  }

  /** The lines of the listed boxes, in page order. */
  function ContactLines(boxes: seq<ContactBox>): seq<string> {
    if boxes == [] then []
    else if IsListed(boxes[0]) then [ContactLine(boxes[0])] + ContactLines(boxes[1..])
    else ContactLines(boxes[1..])
  }

  /** There are never more lines than boxes, and exactly as many when every
      box is listed. */
  lemma {:induction false} ContactLinesCount(boxes: seq<ContactBox>)
    ensures |ContactLines(boxes)| <= |boxes|
    ensures |ContactLines(boxes)| == |boxes| <==> forall j :: 0 <= j < |boxes| ==> IsListed(boxes[j])
  {
    if boxes != [] {
      ContactLinesUnfold(boxes);
      ContactLinesCount(boxes[1..]);
      assert forall j :: 1 <= j < |boxes| ==> boxes[j] == boxes[1..][j - 1];
    }
  }

  lemma ContactLinesUnfold(boxes: seq<ContactBox>)
    requires boxes != []
    ensures ContactLines(boxes)
         == (if IsListed(boxes[0]) then [ContactLine(boxes[0])] else []) + ContactLines(boxes[1..])
  {
  }

  /** Every contact line is the line of some listed box. */
  lemma {:induction false} ContactLinesFromBoxes(boxes: seq<ContactBox>)
    ensures forall line :: line in ContactLines(boxes) ==>
              exists j :: 0 <= j < |boxes| && IsListed(boxes[j]) && ContactLine(boxes[j]) == line
  {
    if boxes != [] {
      ContactLinesUnfold(boxes);
      ContactLinesFromBoxes(boxes[1..]);
      forall line | line in ContactLines(boxes)
        ensures exists j :: 0 <= j < |boxes| && IsListed(boxes[j]) && ContactLine(boxes[j]) == line
      {
        if IsListed(boxes[0]) && line == ContactLine(boxes[0]) {
          assert IsListed(boxes[0]) && ContactLine(boxes[0]) == line;
        } else {
          assert line in ContactLines(boxes[1..]);
          var j :| 0 <= j < |boxes[1..]| && IsListed(boxes[1..][j]) && ContactLine(boxes[1..][j]) == line;
          assert boxes[1..][j] == boxes[j + 1];
        }
      }
    }
  }

  /** Every listed box contributes its line. */
  lemma {:induction false} ListedBoxesHaveLines(boxes: seq<ContactBox>)
    ensures forall j :: 0 <= j < |boxes| && IsListed(boxes[j]) ==> ContactLine(boxes[j]) in ContactLines(boxes)
  {
    if boxes != [] {
      ContactLinesUnfold(boxes);
      ListedBoxesHaveLines(boxes[1..]);
      forall j | 0 <= j < |boxes| && IsListed(boxes[j])
        ensures ContactLine(boxes[j]) in ContactLines(boxes)
      {
        if j > 0 {
          assert boxes[1..][j - 1] == boxes[j];
        }
      }
    }
  }

  /** The contact lines of a page; none without a contact section. */
  function ExtractContacts(section: Option<seq<ContactBox>>): (r: seq<string>)
    ensures section.None? ==> r == []
    ensures section.Some? ==> |r| <= |section.value|
  {
    match section
    case None => []
    case Some(boxes) =>
      ContactLinesCount(boxes);
      ContactLines(boxes)
  }

  lemma {:induction false} ContactsConcat(a: seq<ContactBox>, b: seq<ContactBox>)
    ensures ContactLines(a + b) == ContactLines(a) + ContactLines(b)
  {
    if a == [] {
      assert a + b == b;
    } else {
      assert (a + b)[0] == a[0];
      assert (a + b)[1..] == a[1..] + b;
      ContactsConcat(a[1..], b);
    }
  }

  /** A box without subtitle, or with the opening-hours title, contributes
      nothing wherever it stands. */
  lemma UnlistedBoxSkipped(a: seq<ContactBox>, b: ContactBox, c: seq<ContactBox>)
    requires !IsListed(b)
    ensures ContactLines(a + [b] + c) == ContactLines(a) + ContactLines(c)
  {
    ContactsConcat(a + [b], c);
    ContactsConcat(a, [b]);
  }
}
