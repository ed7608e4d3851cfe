/** `extract_text_for_structure`: every chapter, section and subsection whose
    identifier has a closed page range gets the text of those pages, joined
    by line breaks, as its `text`; everything else is left as it was. Reading
    a page's text is replaced by the sequence `doc` of page texts. */
module TextExtract {
  import opened Common
  import opened OrderedMap
  import opened Text
  import opened Hierarchy
  import opened PageScan
  import opened TocBuilder

  /** Loading the pages of a range raises nothing: either the range is empty
      (`range(start - 1, end)` yields no page) or it lies within the
      document. */
  predicate Loadable(r: Range, total: int)
  {
    r.end.Some? ==> r.end.value < r.start || (1 <= r.start && r.end.value <= total)
  }

  ghost predicate AllLoadable(pages: Pages, total: int)
  {
    forall k :: Get(pages, k).Some? ==> Loadable(Get(pages, k).value, total)
  }

  /** The texts of the 1-based pages `start .. end` joined by `"\n"`; empty
      when `end < start`. */
  function PageText(doc: seq<string>, start: int, end: int): string
    requires end < start || (1 <= start && end <= |doc|)
  {
    if end < start then "" else JoinWith("\n", doc[start - 1..end])
  }

  /** The `text` a node with identifier `id` ends up with, given the one it
      had. */
  function NodeText(pages: Pages, id: string, doc: seq<string>, text: Option<string>): Option<string>
    requires AllLoadable(pages, |doc|)
  {
    match Get(pages, id)
    case None => text
    case Some(r) => if r.end.None? then text else Some(PageText(doc, r.start, r.end.value))
  }

  function ExtractSubsections(d: Dict<string, Subsection>, pages: Pages, doc: seq<string>): (r: Dict<string, Subsection>)
    requires AllLoadable(pages, |doc|)
    ensures |r| == |d|
    ensures forall i :: 0 <= i < |d| ==>
      r[i] == (d[i].0, d[i].1.(text := NodeText(pages, d[i].0, doc, d[i].1.text)))
  {
    if |d| == 0 then []
    else [(d[0].0, d[0].1.(text := NodeText(pages, d[0].0, doc, d[0].1.text)))] + ExtractSubsections(d[1..], pages, doc)
  }

  function ExtractSections(d: Dict<string, Section>, pages: Pages, doc: seq<string>): (r: Dict<string, Section>)
    requires AllLoadable(pages, |doc|)
    ensures |r| == |d|
    ensures forall i :: 0 <= i < |d| ==>
      r[i] == (d[i].0, d[i].1.(text := NodeText(pages, d[i].0, doc, d[i].1.text),
                               subsections := ExtractSubsections(d[i].1.subsections, pages, doc)))
  {
    if |d| == 0 then []
    else
      var (id, sec) := d[0];
      [(id, sec.(text := NodeText(pages, id, doc, sec.text),
                 subsections := ExtractSubsections(sec.subsections, pages, doc)))]
        + ExtractSections(d[1..], pages, doc)
  }

  /** `extract_text_for_structure(structure, pages)` over the page texts
      `doc`. */
  function ExtractText(structure: Structure, pages: Pages, doc: seq<string>): (r: Structure)
    requires AllLoadable(pages, |doc|)
    ensures |r| == |structure|
    ensures forall i :: 0 <= i < |structure| ==>
      r[i] == (structure[i].0, structure[i].1.(text := NodeText(pages, structure[i].0, doc, structure[i].1.text),
                                               sections := ExtractSections(structure[i].1.sections, pages, doc)))
  {
    if |structure| == 0 then []
    else
      var (id, c) := structure[0];
      [(id, c.(text := NodeText(pages, id, doc, c.text),
               sections := ExtractSections(c.sections, pages, doc)))]
        + ExtractText(structure[1..], pages, doc)
  }

  // ---------------------------------------------------------------------
  // The structure without its texts

  function EraseSubsections(d: Dict<string, Subsection>): (r: Dict<string, Subsection>)
    ensures |r| == |d|
    ensures forall i :: 0 <= i < |d| ==> r[i] == (d[i].0, d[i].1.(text := None))
  {
    if |d| == 0 then [] else [(d[0].0, d[0].1.(text := None))] + EraseSubsections(d[1..])
  }

  function EraseSections(d: Dict<string, Section>): (r: Dict<string, Section>)
    ensures |r| == |d|
    ensures forall i :: 0 <= i < |d| ==>
      r[i] == (d[i].0, d[i].1.(text := None, subsections := EraseSubsections(d[i].1.subsections)))
  {
    if |d| == 0 then []
    else [(d[0].0, d[0].1.(text := None, subsections := EraseSubsections(d[0].1.subsections)))] + EraseSections(d[1..])
  }

  /** Identifiers, titles and nesting, with every `text` dropped. */
  function EraseText(s: Structure): (r: Structure)
    ensures |r| == |s|
    ensures forall i :: 0 <= i < |s| ==>
      r[i] == (s[i].0, s[i].1.(text := None, sections := EraseSections(s[i].1.sections)))
  {
    if |s| == 0 then []
    else [(s[0].0, s[0].1.(text := None, sections := EraseSections(s[0].1.sections)))] + EraseText(s[1..])
  }

  // ---------------------------------------------------------------------
  // What the text pass keeps and what it writes

  lemma SubsectionsKeepShape(d: Dict<string, Subsection>, pages: Pages, doc: seq<string>)
    requires AllLoadable(pages, |doc|)
    ensures EraseSubsections(ExtractSubsections(d, pages, doc)) == EraseSubsections(d)
  {
    var a, b := EraseSubsections(ExtractSubsections(d, pages, doc)), EraseSubsections(d);
    assert forall i :: 0 <= i < |d| ==> a[i] == b[i];
  }

  lemma SectionsKeepShape(d: Dict<string, Section>, pages: Pages, doc: seq<string>)
    requires AllLoadable(pages, |doc|)
    ensures EraseSections(ExtractSections(d, pages, doc)) == EraseSections(d)
  {
    var a, b := EraseSections(ExtractSections(d, pages, doc)), EraseSections(d);
    forall i | 0 <= i < |d| ensures a[i] == b[i] {
      SubsectionsKeepShape(d[i].1.subsections, pages, doc);
    }
  }

  /** The text pass changes no identifier, title, order or nesting: only the
      `text` fields. */
  lemma ExtractKeepsShape(structure: Structure, pages: Pages, doc: seq<string>)
    requires AllLoadable(pages, |doc|)
    ensures EraseText(ExtractText(structure, pages, doc)) == EraseText(structure)
  {
    var a, b := EraseText(ExtractText(structure, pages, doc)), EraseText(structure);
    forall i | 0 <= i < |structure| ensures a[i] == b[i] {
      SectionsKeepShape(structure[i].1.sections, pages, doc);
    }
  }

  /** What one node's text becomes: the text of its pages when its range is
      closed, and what it was otherwise. */
  lemma NodeTextCases(pages: Pages, id: string, doc: seq<string>, text: Option<string>)
    requires AllLoadable(pages, |doc|)
    ensures var t := NodeText(pages, id, doc, text);
      && (Get(pages, id).Some? && Get(pages, id).value.end.Some? ==>
            t == Some(PageText(doc, Get(pages, id).value.start, Get(pages, id).value.end.value)))
      && (Get(pages, id).None? || Get(pages, id).value.end.None? ==> t == text)
  {
  }

  lemma SubsectionsTwice(d: Dict<string, Subsection>, pages: Pages, doc: seq<string>)
    requires AllLoadable(pages, |doc|)
    ensures ExtractSubsections(ExtractSubsections(d, pages, doc), pages, doc) == ExtractSubsections(d, pages, doc)
  {
    var once := ExtractSubsections(d, pages, doc);
    var twice := ExtractSubsections(once, pages, doc);
    assert forall i :: 0 <= i < |d| ==> twice[i] == once[i];
  }

  lemma SectionsTwice(d: Dict<string, Section>, pages: Pages, doc: seq<string>)
    requires AllLoadable(pages, |doc|)
    ensures ExtractSections(ExtractSections(d, pages, doc), pages, doc) == ExtractSections(d, pages, doc)
  {
    var once := ExtractSections(d, pages, doc);
    var twice := ExtractSections(once, pages, doc);
    forall i | 0 <= i < |d| ensures twice[i] == once[i] {
      SubsectionsTwice(d[i].1.subsections, pages, doc);
    }
  }

  /** Running the text pass again with the same ranges changes nothing. */
  lemma ExtractIdempotent(structure: Structure, pages: Pages, doc: seq<string>)
    requires AllLoadable(pages, |doc|)
    ensures ExtractText(ExtractText(structure, pages, doc), pages, doc) == ExtractText(structure, pages, doc)
  {
    var once := ExtractText(structure, pages, doc);
    var twice := ExtractText(once, pages, doc);
    forall i | 0 <= i < |structure| ensures twice[i] == once[i] {
      SectionsTwice(structure[i].1.sections, pages, doc);
    }
  }

  /** The ranges are one flat dictionary, so a chapter and one of its
      sections that share an identifier get the same text. */
  lemma SharedIdSharedText(structure: Structure, pages: Pages, doc: seq<string>, i: nat, j: nat)
    requires AllLoadable(pages, |doc|)
    requires i < |structure| && j < |structure[i].1.sections|
    requires structure[i].0 == structure[i].1.sections[j].0
    requires Get(pages, structure[i].0).Some? && Get(pages, structure[i].0).value.end.Some?
    ensures var r := ExtractText(structure, pages, doc);
      r[i].1.text == r[i].1.sections[j].1.text != None
  {
  }

  // ---------------------------------------------------------------------
  // The text of a page range

  /** A one-page range is that page's text. */
  lemma PageTextSingle(doc: seq<string>, a: int)
    requires 1 <= a <= |doc|
    ensures PageText(doc, a, a) == doc[a - 1]
  {
    assert doc[a - 1..a] == [doc[a - 1]];
  }

  /** Splitting a range after page `m` splits its text at one line break. */
  lemma PageTextSplit(doc: seq<string>, a: int, m: int, b: int)
    requires 1 <= a <= m < b <= |doc|
    ensures PageText(doc, a, b) == PageText(doc, a, m) + "\n" + PageText(doc, m + 1, b)
  {
    assert doc[a - 1..b] == doc[a - 1..m] + doc[m..b];
    JoinConcat("\n", doc[a - 1..m], doc[m..b]);
  }

  /** Pages 5 to 7: the three page texts joined by two line breaks. */
  lemma PagesFiveToSeven(doc: seq<string>)
    requires |doc| >= 7
    ensures PageText(doc, 5, 7) == doc[4] + "\n" + doc[5] + "\n" + doc[6]
  {
    PageTextSplit(doc, 5, 5, 7);
    PageTextSplit(doc, 6, 6, 7);
    PageTextSingle(doc, 5);
    PageTextSingle(doc, 6);
    PageTextSingle(doc, 7);
  }

  /** When no page text holds a line break and the last is not empty, the
      range's text splits back into its pages. */
  lemma PageTextLines(doc: seq<string>, a: int, b: int)
    requires 1 <= a <= b <= |doc| && |doc[b - 1]| > 0
    requires forall i :: a - 1 <= i < b ==> NoLineBreak(doc[i])
    ensures SplitLines(PageText(doc, a, b)) == doc[a - 1..b]
  {
    var pages := doc[a - 1..b];
    assert Last(pages) == doc[b - 1];
    assert forall i :: 0 <= i < |pages| ==> NoLineBreak(pages[i]) by {
      forall i | 0 <= i < |pages| ensures NoLineBreak(pages[i]) {
        assert pages[i] == doc[a - 1 + i];
      }
    }
    SplitLinesRoundTrip(pages);
  }

  // ---------------------------------------------------------------------
  // The two passes together

  /** The ranges the scan returns can all be loaded. */
  lemma FindPagesLoadable(structure: Structure, doc: seq<string>, startPage: int)
    requires startPage >= 1
    ensures AllLoadable(FindPages(structure, doc, startPage), |doc|)
  {
    FindPagesBounds(structure, doc, startPage);
  }

  /** The script's two passes: the page ranges found from `start_page` on,
      then the texts of those ranges written into the structure. */
  function FillStructure(structure: Structure, doc: seq<string>, startPage: int): (r: Structure)
    requires startPage >= 1
    ensures EraseText(r) == EraseText(structure)
  {
    FindPagesLoadable(structure, doc, startPage);
    var pages := FindPages(structure, doc, startPage);
    ExtractKeepsShape(structure, pages, doc);
    ExtractText(structure, pages, doc)
  }

  /** With no blank identifier, every chapter the scan found gets a text, and
      every chapter it did not find keeps the one it had. */
  lemma FoundChaptersGetText(structure: Structure, doc: seq<string>, startPage: int, i: nat)
    requires startPage >= 1 && IdsNonEmpty(structure) && i < |structure|
    ensures var r := FillStructure(structure, doc, startPage);
      var found := structure[i].0 in Keys(FindPages(structure, doc, startPage));
      && (found ==> r[i].1.text.Some?)
      && (!found ==> r[i].1.text == structure[i].1.text)
  {
    FindPagesAllClosed(structure, doc, startPage);
    FindPagesLoadable(structure, doc, startPage);
    ClosedRangesGiveText(structure, FindPages(structure, doc, startPage), doc, i);
  }

  /** When every range is closed, a chapter gets a text exactly when its
      identifier has a range. */
  lemma ClosedRangesGiveText(structure: Structure, pages: Pages, doc: seq<string>, i: nat)
    requires AllLoadable(pages, |doc|) && i < |structure|
    requires forall k :: Get(pages, k).Some? ==> Get(pages, k).value.end.Some?
    ensures var r := ExtractText(structure, pages, doc);
      && (structure[i].0 in Keys(pages) ==> r[i].1.text.Some?)
      && (structure[i].0 !in Keys(pages) ==> r[i].1.text == structure[i].1.text)
  {
  }

  /** For a structure read from an outline, every range the scan returns is
      closed, so every node it finds gets a text. */
  lemma BuiltStructureAllClosed(toc: seq<TocEntry>, doc: seq<string>, startPage: int)
    requires startPage >= 1 && Build(toc).Built?
    ensures var pages := FindPages(Build(toc).structure, doc, startPage);
      forall k :: Get(pages, k).Some? ==> Get(pages, k).value.end.Some?
  {
    ValidIdsNonEmpty(Build(toc).structure);
    FindPagesAllClosed(Build(toc).structure, doc, startPage);
  }
}
