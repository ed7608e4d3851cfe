/** The persisted document structure: chapters own sections, sections own
    subsections, each level an insertion-ordered dictionary keyed by the
    identifier. `text` is absent until the text pass fills it in. The three
    `Add` operations are the builder's only writers. */
module Hierarchy {
  import opened Common
  import opened OrderedMap

  datatype Subsection = Subsection(title: string, text: Option<string>)
  datatype Section = Section(title: string, subsections: Dict<string, Subsection>, text: Option<string>)
  datatype Chapter = Chapter(title: string, sections: Dict<string, Section>, text: Option<string>)

  type Structure = Dict<string, Chapter>

  /** No identifier, at any level, is the empty string (which Python would
      read as false in `if current_chapter:`). */
  ghost predicate IdsNonEmpty(s: Structure)
  {
    forall i :: 0 <= i < |s| ==> s[i].0 != "" && SectionIdsNonEmpty(s[i].1.sections)
  }

  ghost predicate SectionIdsNonEmpty(d: Dict<string, Section>)
  {
    forall i :: 0 <= i < |d| ==> d[i].0 != "" && SubsectionIdsNonEmpty(d[i].1.subsections)
  }

  ghost predicate SubsectionIdsNonEmpty(d: Dict<string, Subsection>)
  {
    forall i :: 0 <= i < |d| ==> d[i].0 != ""
  }

  /** `add_chapter`. */
  function AddChapter(s: Structure, title: string, id: string): Structure
  {
    Put(s, id, Chapter(title, [], None))
  }

  /** The title `add_section` gives a chapter it has to create. */
  function PlaceholderTitle(id: string): string
  {
    "Chapter " + id
  }

  /** `add_section`. */
  function AddSection(s: Structure, title: string, chapterId: string, id: string): Structure
  {
    var s1 := if chapterId in Keys(s) then s else AddChapter(s, PlaceholderTitle(chapterId), chapterId);
    var c := Get(s1, chapterId).value;
    Put(s1, chapterId, c.(sections := Put(c.sections, id, Section(title, [], None))))
  }

  /** `add_subsection`. */
  function AddSubsection(s: Structure, title: string, chapterId: string, sectionId: string, id: string): Structure
  {
    if chapterId in Keys(s) && sectionId in Keys(Get(s, chapterId).value.sections) then
      var c := Get(s, chapterId).value;
      var e := Get(c.sections, sectionId).value;
      var e' := e.(subsections := Put(e.subsections, id, Subsection(title, None)));
      Put(s, chapterId, c.(sections := Put(c.sections, sectionId, e')))
    else
      s
  }

  // ---------------------------------------------------------------------
  // What the three writers do, observed through lookups

  /** `add_chapter` always replaces the chapter record by a fresh one with no
      sections, discarding whatever was registered under that identifier. */
  lemma AddChapterSpec(s: Structure, title: string, id: string)
    ensures var r := AddChapter(s, title, id);
      && Get(r, id) == Some(Chapter(title, [], None))
      && (forall k :: k != id ==> Get(r, k) == Get(s, k))
      && Keys(r) == if id in Keys(s) then Keys(s) else Keys(s) + [id]
  {
  }

  /** `add_section` creates a placeholder chapter `"Chapter <id>"` when the
      chapter is missing, then installs the section with no subsections,
      replacing any section of that identifier in place or appending a new
      one last; the chapter keeps its title and its other sections, and no
      other chapter changes. */
  lemma AddSectionSpec(s: Structure, title: string, chapterId: string, id: string)
    ensures var r := AddSection(s, title, chapterId, id);
      && Keys(r) == (if chapterId in Keys(s) then Keys(s) else Keys(s) + [chapterId])
      && (forall k :: k != chapterId ==> Get(r, k) == Get(s, k))
      && Get(r, chapterId).Some?
      && var c := Get(r, chapterId).value;
      && c.title == (if chapterId in Keys(s) then Get(s, chapterId).value.title else PlaceholderTitle(chapterId))
      && c.text == (if chapterId in Keys(s) then Get(s, chapterId).value.text else None)
      && Get(c.sections, id) == Some(Section(title, [], None))
      && Keys(c.sections) == (if chapterId in Keys(s)
           then (var ks := Keys(Get(s, chapterId).value.sections); if id in ks then ks else ks + [id])
           else [id])
      && (forall k :: k != id ==>
            Get(c.sections, k) == (if chapterId in Keys(s) then Get(Get(s, chapterId).value.sections, k) else None))
  {
  }

  /** `add_subsection` does nothing unless both the chapter and the section
      exist; otherwise it sets exactly that one subsection, in place or
      appended last, and nothing else changes. */
  lemma AddSubsectionSpec(s: Structure, title: string, chapterId: string, sectionId: string, id: string)
    ensures var r := AddSubsection(s, title, chapterId, sectionId, id);
      && (!(chapterId in Keys(s) && sectionId in Keys(Get(s, chapterId).value.sections)) ==> r == s)
      && Keys(r) == Keys(s)
      && (forall k :: k != chapterId ==> Get(r, k) == Get(s, k))
      && (chapterId in Keys(s) && sectionId in Keys(Get(s, chapterId).value.sections) ==>
        var c := Get(s, chapterId).value;
        var e := Get(c.sections, sectionId).value;
        var c' := Get(r, chapterId).value;
        && c'.title == c.title && c'.text == c.text
        && Keys(c'.sections) == Keys(c.sections)
        && (forall k :: k != sectionId ==> Get(c'.sections, k) == Get(c.sections, k))
        && var e' := Get(c'.sections, sectionId).value;
        && e'.title == e.title && e'.text == e.text
        && Get(e'.subsections, id) == Some(Subsection(title, None))
        && Keys(e'.subsections) == (if id in Keys(e.subsections) then Keys(e.subsections) else Keys(e.subsections) + [id])
        && (forall k :: k != id ==> Get(e'.subsections, k) == Get(e.subsections, k)))
  {
  }
}
