/** The outline fold of `extract_text_from_pdf`: the PDF outline, an ordered
    list of `(level, title, page)` entries, is folded into the three-level
    structure with three cursors and the `was_chapter` flag. Reading the
    outline from the document is replaced by the input sequence. */
module TocBuilder {
  import opened Common
  import opened OrderedMap
  import opened Text
  import opened Hierarchy

  /** The title prefix of a level-1 entry that only announces a chapter. */
  const ChapterMarker: string := "Глава"

  datatype TocEntry = TocEntry(level: int, title: string, page: int)

  /** The fold's state: the structure so far and the cursor variables. */
  datatype Builder = Builder(
    structure: Structure,
    chapter: Option<string>,
    section: Option<string>,
    subsection: Option<string>,
    wasChapter: bool)

  /** The fold either finishes or stops at the entry whose title indexing
      raised `IndexError`. */
  datatype BuildResult = Built(structure: Structure) | IndexError(at: nat)

  const Initial: Builder := Builder([], None, None, None, false)

  predicate IsMarker(e: TocEntry)
  {
    e.level == 1 && StartsWith(e.title, ChapterMarker)
  }

  /** `title.strip()[1] == "."`: the numbering heuristic. */
  predicate LooksNumbered(title: string)
    requires |Strip(title)| >= 2
  {
    Strip(title)[1] == '.'
  }

  /** An identifier of the shape `N.…`. */
  predicate NumberedId(id: string)
  {
    |id| >= 2 && id[1] == '.'
  }

  /** The entry reaches `title.split()[0]` and `title.strip()[1]`. */
  predicate ReadsTitle(b: Builder, e: TocEntry)
  {
    (e.level == 2 && Truthy(b.chapter)) || (e.level == 3 && Truthy(b.section))
  }

  /** A title whose stripped form has fewer than two characters. */
  predicate TooShort(e: TocEntry)
  {
    |Strip(e.title)| < 2
  }

  /** What the loop keeps true of its cursors: `was_chapter` is set exactly
      when a chapter identifier is, a section cursor implies a chapter
      cursor, and both hold non-empty tokens. */
  ghost predicate Ready(b: Builder)
  {
    && (b.wasChapter <==> b.chapter.Some?)
    && (b.chapter.Some? ==> b.chapter.value != "")
    && (b.section.Some? ==> b.chapter.Some? && b.section.value != "")
  }

  /** One loop iteration. */
  function Step(b: Builder, e: TocEntry): (r: Option<Builder>)
    requires Ready(b)
    ensures r.None? <==> ReadsTitle(b, e) && TooShort(e)
    ensures r.Some? ==> Ready(r.value)
  {
    if e.level == 1 then Some(ChapterEntry(b, e.title))
    else if e.level == 2 && Truthy(b.chapter) then SectionEntry(b, e.title)
    else if e.level == 3 && Truthy(b.section) then SubsectionEntry(b, e.title)
    else Some(b)
  }

  /** A level-1 entry: a marker or a chapter title. */
  function ChapterEntry(b: Builder, title: string): (r: Builder)
    requires Ready(b)
    ensures Ready(r)
  {
    if StartsWith(title, ChapterMarker) then
      MarkerHasToken(title);
      b.(wasChapter := true, chapter := Some(Last(Split(title))))
    else if b.wasChapter then
      b.(structure := AddChapter(b.structure, title, b.chapter.value))
    else
      b
  }

  /** A level-2 entry while a chapter is current. */
  function SectionEntry(b: Builder, title: string): (r: Option<Builder>)
    requires Ready(b) && Truthy(b.chapter)
    ensures r.None? <==> |Strip(title)| < 2
    ensures r.Some? ==> Ready(r.value)
  {
    if |Strip(title)| < 2 then None
    else
      var ws := Split(title);
      var b' := b.(section := Some(ws[0]));
      if LooksNumbered(title) then
        Some(b'.(structure := AddSection(b.structure, JoinWith(" ", ws[1..]), b.chapter.value, ws[0])))
      else
        Some(b')
  }

  /** A level-3 entry while a section is current. */
  function SubsectionEntry(b: Builder, title: string): (r: Option<Builder>)
    requires Ready(b) && Truthy(b.section)
    ensures r.None? <==> |Strip(title)| < 2
    ensures r.Some? ==> Ready(r.value)
  {
    if |Strip(title)| < 2 then None
    else
      var ws := Split(title);
      var b' := b.(subsection := Some(ws[0]));
      if LooksNumbered(title) then
        Some(b'.(structure :=
          AddSubsection(b.structure, JoinWith(" ", ws[1..]), b.chapter.value, b.section.value, ws[0])))
      else
        Some(b')
  }

  /** Entries of any level other than 1, 2 and 3 change nothing. */
  lemma OtherLevelsIgnored(b: Builder, e: TocEntry)
    requires Ready(b) && e.level !in {1, 2, 3}
    ensures Step(b, e) == Some(b)
  {
  }

  /** A level-1 marker registers no chapter: it sets the chapter cursor to
      the title's last token and enables chapter registration. */
  lemma MarkerStep(b: Builder, e: TocEntry)
    requires Ready(b) && IsMarker(e)
    ensures |Split(e.title)| > 0
    ensures Step(b, e) == Some(b.(wasChapter := true, chapter := Some(Last(Split(e.title)))))
  {
    MarkerHasToken(e.title);
  }

  /** A level-1 entry before any marker is ignored. */
  lemma TitleBeforeMarkerIgnored(b: Builder, e: TocEntry)
    requires Ready(b) && e.level == 1 && !IsMarker(e) && !b.wasChapter
    ensures Step(b, e) == Some(b)
  {
  }

  /** After a marker, each non-marker level-1 entry (re)registers the chapter
      under the current identifier: the title is replaced and the sections
      are cleared; no other chapter changes. */
  lemma ChapterTitleStep(b: Builder, e: TocEntry)
    requires Ready(b) && e.level == 1 && !IsMarker(e) && b.wasChapter
    ensures Step(b, e).Some?
    ensures var b' := Step(b, e).value;
      && b'.chapter == b.chapter && b'.section == b.section
      && b'.subsection == b.subsection && b'.wasChapter == b.wasChapter
      && Keys(b'.structure) == (if b.chapter.value in Keys(b.structure) then Keys(b.structure) else Keys(b.structure) + [b.chapter.value])
      && Get(b'.structure, b.chapter.value) == Some(Chapter(e.title, [], None))
      && forall k :: k != b.chapter.value ==> Get(b'.structure, k) == Get(b.structure, k)
  {
  }

  /** A level-2 entry under a current chapter always moves the section cursor
      to the title's first token; it registers a section only when the
      numbering test passes. */
  lemma SectionEntryStep(b: Builder, e: TocEntry)
    requires Ready(b) && e.level == 2 && Truthy(b.chapter) && !TooShort(e)
    ensures |Split(e.title)| > 0 && Step(b, e).Some?
    ensures var b' := Step(b, e).value;
      && b'.section == Some(Split(e.title)[0]) && b'.chapter == b.chapter
      && b'.subsection == b.subsection && b'.wasChapter == b.wasChapter
      && b'.structure == if LooksNumbered(e.title)
           then AddSection(b.structure, JoinWith(" ", Split(e.title)[1..]), b.chapter.value, Split(e.title)[0])
           else b.structure
  {
  }

  /** A level-3 entry under a current section moves the subsection cursor;
      it registers a subsection only when the numbering test passes, and
      then only if that chapter and section exist. */
  lemma SubsectionEntryStep(b: Builder, e: TocEntry)
    requires Ready(b) && e.level == 3 && Truthy(b.section) && !TooShort(e)
    ensures |Split(e.title)| > 0 && Step(b, e).Some?
    ensures var b' := Step(b, e).value;
      && b'.subsection == Some(Split(e.title)[0]) && b'.section == b.section && b'.chapter == b.chapter
      && b'.wasChapter == b.wasChapter
      && b'.structure == if LooksNumbered(e.title)
           then AddSubsection(b.structure, JoinWith(" ", Split(e.title)[1..]), b.chapter.value, b.section.value, Split(e.title)[0])
           else b.structure
  {
    assert Step(b, e) == SubsectionEntry(b, e.title);
  }

  /** The builder's guarantees about what it produces: identifiers unique
      within their dictionary, chapter identifiers non-empty, section and
      subsection identifiers numbered. */
  ghost predicate SectionOk(e: (string, Section))
  {
    && NumberedId(e.0)
    && Unique(e.1.subsections)
    && forall u :: u in e.1.subsections ==> NumberedId(u.0)
  }

  ghost predicate ChapterOk(c: (string, Chapter))
  {
    && c.0 != ""
    && Unique(c.1.sections)
    && forall e :: e in c.1.sections ==> SectionOk(e)
  }

  ghost predicate Valid(s: Structure)
  {
    Unique(s) && forall c :: c in s ==> ChapterOk(c)
  }

  /** The loop from entry `i` on. */
  function BuildFrom(b: Builder, toc: seq<TocEntry>, i: nat): (r: BuildResult)
    requires Ready(b) && i <= |toc|
    ensures r.IndexError? ==>
      i <= r.at < |toc| && toc[r.at].level in {2, 3} && TooShort(toc[r.at])
    ensures (forall j :: i <= j < |toc| ==> !(toc[j].level in {2, 3} && TooShort(toc[j]))) ==> r.Built?
    ensures Valid(b.structure) && r.Built? ==> Valid(r.structure)
    decreases |toc| - i
  {
    if i == |toc| then Built(b.structure)
    else
      match Step(b, toc[i])
      case None => IndexError(i)
      case Some(b') =>
        StepKeepsValid(b, toc[i]);
        BuildFrom(b', toc, i + 1)
  }

  /** `extract_text_from_pdf` with the outline given. */
  function Build(toc: seq<TocEntry>): (r: BuildResult)
    ensures r.IndexError? ==> r.at < |toc| && toc[r.at].level in {2, 3} && TooShort(toc[r.at])
    ensures (forall j :: 0 <= j < |toc| ==> !(toc[j].level in {2, 3} && TooShort(toc[j]))) ==> r.Built?
    ensures r.Built? ==> Valid(r.structure)
  {
    BuildFrom(Initial, toc, 0)
  }

  // ---------------------------------------------------------------------
  // Lemmas

  /** A title that starts with the marker has at least one token. */
  lemma MarkerHasToken(title: string)
    requires StartsWith(title, ChapterMarker)
    ensures |Split(title)| > 0
  {
    assert title[0] == 'Г';
    assert LStrip(title) == title;
  }

  /** The numbering heuristic on the title is the same test on the title's
      first token: a registered section or subsection identifier always has
      a `.` as its second character. */
  lemma NumberedFirstToken(title: string)
    requires |Strip(title)| >= 2
    ensures |Split(title)| > 0
    ensures LooksNumbered(title) <==> NumberedId(Split(title)[0])
  {
    var l := LStrip(title);
    assert Strip(title)[1] == l[1];
    FirstTokenIsLeadingRun(title);
    SecondCharOfLeadingRun(l);
  }

  lemma SecondCharOfLeadingRun(l: string)
    requires |l| >= 2 && !IsSpace(l[0])
    ensures l[1] == '.' <==> NumberedId(l[..TokenLen(l)])
  {
    if l[1] == '.' {
      assert !IsSpace(l[1]);
    }
  }

  lemma AddChapterKeepsValid(s: Structure, title: string, id: string)
    requires Valid(s) && id != ""
    ensures Valid(AddChapter(s, title, id))
  {
    PutKeepsValid(s, id, Chapter(title, [], None));
  }

  /** Storing a chapter that meets the guarantees keeps them. */
  lemma PutKeepsValid(s: Structure, id: string, c: Chapter)
    requires Valid(s) && ChapterOk((id, c))
    ensures Valid(Put(s, id, c))
  {
  }

  /** A chapter stored in a valid structure meets the guarantees. */
  lemma StoredChapterOk(s: Structure, id: string)
    requires Valid(s) && id in Keys(s)
    ensures ChapterOk((id, Get(s, id).value))
  {
  }

  /** Storing a numbered section keeps a chapter's guarantees. */
  lemma PutSectionKeepsOk(id: string, c: Chapter, sid: string, e: Section)
    requires ChapterOk((id, c)) && SectionOk((sid, e))
    ensures ChapterOk((id, c.(sections := Put(c.sections, sid, e))))
  {
  }

  lemma AddSectionKeepsValid(s: Structure, title: string, chapterId: string, id: string)
    requires Valid(s) && chapterId != "" && NumberedId(id)
    ensures Valid(AddSection(s, title, chapterId, id))
  {
    var s1 := if chapterId in Keys(s) then s else AddChapter(s, PlaceholderTitle(chapterId), chapterId);
    AddChapterKeepsValid(s, PlaceholderTitle(chapterId), chapterId);
    StoredChapterOk(s1, chapterId);
    var c := Get(s1, chapterId).value;
    PutSectionKeepsOk(chapterId, c, id, Section(title, [], None));
    PutKeepsValid(s1, chapterId, c.(sections := Put(c.sections, id, Section(title, [], None))));
  }

  lemma AddSubsectionKeepsValid(s: Structure, title: string, chapterId: string, sectionId: string, id: string)
    requires Valid(s) && NumberedId(id)
    ensures Valid(AddSubsection(s, title, chapterId, sectionId, id))
  {
    if chapterId in Keys(s) && sectionId in Keys(Get(s, chapterId).value.sections) {
      var c := Get(s, chapterId).value;
      assert ChapterOk((chapterId, c));
      var e := Get(c.sections, sectionId).value;
      assert SectionOk((sectionId, e));
      var e' := e.(subsections := Put(e.subsections, id, Subsection(title, None)));
      assert SectionOk((sectionId, e'));
      var c' := c.(sections := Put(c.sections, sectionId, e'));
      assert ChapterOk((chapterId, c'));
    }
  }

  /** What the builder guarantees includes that no identifier is blank: a
      chapter identifier is a token and the others are numbered. */
  lemma ValidIdsNonEmpty(s: Structure)
    requires Valid(s)
    ensures IdsNonEmpty(s)
  {
    forall i | 0 <= i < |s| ensures s[i].0 != "" && SectionIdsNonEmpty(s[i].1.sections) {
      assert ChapterOk(s[i]);
      var d := s[i].1.sections;
      forall j | 0 <= j < |d| ensures d[j].0 != "" && SubsectionIdsNonEmpty(d[j].1.subsections) {
        assert SectionOk(d[j]);
        var u := d[j].1.subsections;
        forall k | 0 <= k < |u| ensures u[k].0 != "" {
          assert NumberedId(u[k].0);
        }
      }
    }
  }

  /** One iteration keeps the builder's guarantees. */
  lemma StepKeepsValid(b: Builder, e: TocEntry)
    requires Ready(b) && Step(b, e).Some?
    ensures Valid(b.structure) ==> Valid(Step(b, e).value.structure)
  {
    if !Valid(b.structure) {
    } else if e.level == 1 {
      ChapterEntryKeepsValid(b, e.title);
    } else if e.level == 2 && Truthy(b.chapter) {
      assert Step(b, e) == SectionEntry(b, e.title);
      SectionEntryKeepsValid(b, e.title);
    } else if e.level == 3 && Truthy(b.section) {
      assert Step(b, e) == SubsectionEntry(b, e.title);
      SubsectionEntryKeepsValid(b, e.title);
    }
  }

  lemma ChapterEntryKeepsValid(b: Builder, title: string)
    requires Ready(b) && Valid(b.structure)
    ensures Valid(ChapterEntry(b, title).structure)
  {
    if !StartsWith(title, ChapterMarker) && b.wasChapter {
      AddChapterKeepsValid(b.structure, title, b.chapter.value);
    }
  }

  lemma SectionEntryKeepsValid(b: Builder, title: string)
    requires Ready(b) && Truthy(b.chapter) && Valid(b.structure) && |Strip(title)| >= 2
    ensures Valid(SectionEntry(b, title).value.structure)
  {
    if LooksNumbered(title) {
      var ws := Split(title);
      NumberedFirstToken(title);
      NumberedSectionAdds(b, title);
      AddSectionKeepsValid(b.structure, JoinWith(" ", ws[1..]), b.chapter.value, ws[0]);
    }
  }

  lemma NumberedSectionAdds(b: Builder, title: string)
    requires Ready(b) && Truthy(b.chapter) && |Strip(title)| >= 2 && LooksNumbered(title)
    ensures |Split(title)| > 0
    ensures var ws := Split(title);
      SectionEntry(b, title).value.structure == AddSection(b.structure, JoinWith(" ", ws[1..]), b.chapter.value, ws[0])
  {
    NumberedFirstToken(title);
  }

  lemma SubsectionEntryKeepsValid(b: Builder, title: string)
    requires Ready(b) && Truthy(b.section) && Valid(b.structure) && |Strip(title)| >= 2
    ensures Valid(SubsectionEntry(b, title).value.structure)
  {
    if LooksNumbered(title) {
      var ws := Split(title);
      NumberedFirstToken(title);
      NumberedSubsectionAdds(b, title, ws);
      AddSubsectionKeepsValid(b.structure, JoinWith(" ", ws[1..]), b.chapter.value, b.section.value, ws[0]);
    }
  }

  lemma NumberedSubsectionAdds(b: Builder, title: string, ws: seq<string>)
    requires Ready(b) && Truthy(b.section) && |Strip(title)| >= 2 && LooksNumbered(title)
    requires ws == Split(title) && |ws| > 0
    ensures SubsectionEntry(b, title).value.structure
         == AddSubsection(b.structure, JoinWith(" ", ws[1..]), b.chapter.value, b.section.value, ws[0])
  {
  }

  /** Before the first chapter marker nothing is registered: without any
      marker the outline yields the empty structure, whatever else it holds. */
  lemma {:induction false} NoMarkerNoChapters(b: Builder, toc: seq<TocEntry>, i: nat)
    requires i <= |toc| && b.chapter.None? && b.section.None? && !b.wasChapter
    requires forall j :: i <= j < |toc| ==> !IsMarker(toc[j])
    ensures BuildFrom(b, toc, i) == Built(b.structure)
    decreases |toc| - i
  {
    if i < |toc| {
      NoMarkerStep(b, toc[i]);
      BuildFromStep(b, toc, i, b);
      NoMarkerNoChapters(b, toc, i + 1);
    }
  }

  lemma NoMarkerStep(b: Builder, e: TocEntry)
    requires b.chapter.None? && b.section.None? && !b.wasChapter && !IsMarker(e)
    ensures Step(b, e) == Some(b)
  {
    if e.level == 1 {
      assert ChapterEntry(b, e.title) == b;
    }
  }

  lemma SplitTwoTokens(t: string, a: string, b: string)
    requires IsToken(a) && IsToken(b) && t == a + " " + b
    ensures Split(t) == [a, b]
  {
    assert JoinWith(" ", [a, b]) == t;
    SplitJoinRoundTrip([a, b]);
  }

  /** The scenario `[(1, "Глава 1"), (1, "Introduction")]` gives one chapter
      `"1"` titled `"Introduction"` with no sections. */
  lemma IntroductionScenario()
    ensures Build([TocEntry(1, "Глава 1", 3), TocEntry(1, "Introduction", 3)])
         == Built([("1", Chapter("Introduction", [], None))])
  {
    var toc := [TocEntry(1, "Глава 1", 3), TocEntry(1, "Introduction", 3)];
    var b1 := Builder([], Some("1"), None, None, true);
    var b2 := b1.(structure := [("1", Chapter("Introduction", [], None))]);
    assert Step(Initial, toc[0]) == Some(b1) by {
      assert IsToken("Глава") && IsToken("1");
      SplitTwoTokens("Глава 1", "Глава", "1");
      MarkerTitle("Глава 1", "1");
    }
    assert Step(b1, toc[1]) == Some(b2) by {
      assert !IsMarker(toc[1]);
    }
    assert BuildFrom(b1, toc, 1) == Built(b2.structure);
  }

  /** A numbered section before any chapter title creates the placeholder
      chapter `"Chapter 2"`; the chapter title that follows replaces it and
      drops the section. */
  lemma PlaceholderThenOverwriteScenario()
    ensures Build([TocEntry(1, "Глава 2", 5), TocEntry(2, "1. Intro", 5)])
         == Built([("2", Chapter("Chapter 2", [("1.", Section("Intro", [], None))], None))])
    ensures Build([TocEntry(1, "Глава 2", 5), TocEntry(2, "1. Intro", 5), TocEntry(1, "Basics", 5)])
         == Built([("2", Chapter("Basics", [], None))])
  {
    var e0 := TocEntry(1, "Глава 2", 5);
    var e1 := TocEntry(2, "1. Intro", 5);
    var e2 := TocEntry(1, "Basics", 5);
    var b1 := Builder([], Some("2"), None, None, true);
    var s2 := [("2", Chapter("Chapter 2", [("1.", Section("Intro", [], None))], None))];
    var b2 := b1.(structure := s2, section := Some("1."));
    var b3 := b2.(structure := [("2", Chapter("Basics", [], None))]);
    MarkerTwoStep();
    IntroStep(b1);
    assert Step(b2, e2) == Some(b3) by {
      assert e2.title[0] != ChapterMarker[0];
      RetitleOnlyChapter(b2, e2);
    }
    BuildFromStep(Initial, [e0, e1], 0, b1);
    BuildFromStep(b1, [e0, e1], 1, b2);
    BuildFromStep(Initial, [e0, e1, e2], 0, b1);
    BuildFromStep(b1, [e0, e1, e2], 1, b2);
    BuildFromStep(b2, [e0, e1, e2], 2, b3);
  }

  /** One unfolding of the loop. */
  lemma BuildFromStep(b: Builder, toc: seq<TocEntry>, i: nat, b': Builder)
    requires Ready(b) && i < |toc| && Step(b, toc[i]) == Some(b')
    ensures BuildFrom(b, toc, i) == BuildFrom(b', toc, i + 1)
  {
  }

  /** A chapter title after a marker, when the structure holds only that
      chapter, leaves it as the only chapter, retitled and without sections. */
  lemma RetitleOnlyChapter(b: Builder, e: TocEntry)
    requires Ready(b) && e.level == 1 && !IsMarker(e) && b.wasChapter
    requires |b.structure| == 1 && b.structure[0].0 == b.chapter.value
    ensures Step(b, e) == Some(b.(structure := [(b.chapter.value, Chapter(e.title, [], None))]))
  {
    assert Step(b, e) == Some(ChapterEntry(b, e.title));
    assert ChapterEntry(b, e.title) == b.(structure := AddChapter(b.structure, e.title, b.chapter.value));
    var d, k := b.structure, b.chapter.value;
    assert d[0].0 == k;
    assert Put(d, k, Chapter(e.title, [], None)) == [(k, Chapter(e.title, [], None))] + d[1..];
    assert d[1..] == [];
    assert [(k, Chapter(e.title, [], None))] + d[1..] == [(k, Chapter(e.title, [], None))];
  }

  /** A title `Глава <n>` is a marker. */
  lemma MarkerTitle(t: string, n: string)
    requires t == ChapterMarker + " " + n
    ensures StartsWith(t, ChapterMarker)
  {
    StartsWithIsPrefix(t, ChapterMarker);
  }

  lemma MarkerTwoStep()
    ensures Step(Initial, TocEntry(1, "Глава 2", 5)) == Some(Builder([], Some("2"), None, None, true))
  {
    assert IsToken("Глава") && IsToken("2");
    SplitTwoTokens("Глава 2", "Глава", "2");
    MarkerTitle("Глава 2", "2");
  }

  lemma IntroStep(b: Builder)
    requires b == Builder([], Some("2"), None, None, true)
    ensures Step(b, TocEntry(2, "1. Intro", 5))
         == Some(b.(structure := [("2", Chapter("Chapter 2", [("1.", Section("Intro", [], None))], None))],
                    section := Some("1.")))
  {
    assert IsToken("1.") && IsToken("Intro");
    JoinOne(" ", "Intro");
    NumberedSectionStep(b, TocEntry(2, "1. Intro", 5), "1.", ["Intro"]);
    PlaceholderSection();
  }

  /** A level-2 entry `"<id> <w1> ... <wn>"` with a numbered `id`, under a
      current chapter, makes `id` current and registers the section titled
      by the remaining words joined with single spaces. */
  lemma NumberedSectionStep(b: Builder, e: TocEntry, id: string, ws: seq<string>)
    requires Ready(b) && e.level == 2 && Truthy(b.chapter)
    requires IsToken(id) && |id| >= 2 && id[1] == '.'
    requires |ws| > 0 && forall i :: 0 <= i < |ws| ==> IsToken(ws[i])
    requires e.title == id + " " + JoinWith(" ", ws)
    ensures Step(b, e) == Some(b.(section := Some(id),
      structure := AddSection(b.structure, JoinWith(" ", ws), b.chapter.value, id)))
  {
    SplitIdWords(e.title, id, ws);
    assert IsToken(ws[|ws| - 1]);
    JoinEndsWithLast(" ", ws);
    NumberedStrip(e.title, id, JoinWith(" ", ws));
    NumberedSectionSplit(b, e, id, ws);
  }

  lemma NumberedSectionSplit(b: Builder, e: TocEntry, id: string, ws: seq<string>)
    requires Ready(b) && e.level == 2 && Truthy(b.chapter)
    requires Split(e.title) == [id] + ws && |Strip(e.title)| >= 2 && Strip(e.title)[1] == '.'
    ensures Step(b, e) == Some(b.(section := Some(id),
      structure := AddSection(b.structure, JoinWith(" ", ws), b.chapter.value, id)))
  {
    assert Split(e.title)[1..] == ws;
    SectionEntryStep(b, e);
  }

  /** `"<id> " + join(ws)` splits back into `id` followed by `ws`. */
  lemma SplitIdWords(t: string, id: string, ws: seq<string>)
    requires IsToken(id) && |ws| > 0 && forall i :: 0 <= i < |ws| ==> IsToken(ws[i])
    requires t == id + " " + JoinWith(" ", ws)
    ensures Split(t) == [id] + ws
  {
    var xs := [id] + ws;
    assert xs[1..] == ws;
    assert JoinWith(" ", xs) == t;
    SplitJoinRoundTrip(xs);
  }

  /** A title `a b` whose first token is numbered passes the numbering test. */
  lemma NumberedStrip(t: string, a: string, b: string)
    requires IsToken(a) && |b| > 0 && !IsSpace(b[|b| - 1]) && t == a + " " + b && |a| >= 2 && a[1] == '.'
    ensures |Strip(t)| >= 2 && Strip(t)[1] == '.'
  {
    JoinedStripped(t, a, b);
    SecondCharKept(t, a, b);
  }

  lemma SecondCharKept(t: string, a: string, b: string)
    requires t == a + " " + b && |a| >= 2
    ensures |t| >= 2 && t[1] == a[1]
  {
  }

  lemma JoinedStripped(t: string, a: string, b: string)
    requires IsToken(a) && |b| > 0 && !IsSpace(b[|b| - 1]) && t == a + " " + b
    ensures Strip(t) == t
  {
    assert t[0] == a[0];
    assert LStrip(t) == t;
    TrailingToken(t, a, b);
  }

  lemma TrailingToken(t: string, a: string, b: string)
    requires |b| > 0 && !IsSpace(b[|b| - 1]) && t == a + " " + b && LStrip(t) == t
    ensures Strip(t) == t
  {
    assert t[|t| - 1] == b[|b| - 1];
    RStripKeeps(t);
  }

  lemma PlaceholderSection()
    ensures AddSection([], "Intro", "2", "1.")
         == [("2", Chapter("Chapter 2", [("1.", Section("Intro", [], None))], None))]
  {
    assert PlaceholderTitle("2") == "Chapter 2";
    var s1 := AddChapter([], "Chapter 2", "2");
    assert s1 == [("2", Chapter("Chapter 2", [], None))];
    assert Get(s1, "2") == Some(Chapter("Chapter 2", [], None));
  }
}
