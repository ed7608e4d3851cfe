/** `find_pages_for_structure`: a left-to-right scan over the page texts that
    records, for every chapter, section and subsection whose heading it finds,
    the page range `{title, start_page, end_page}` in ONE flat dictionary keyed
    by the bare identifier. Page numbers in a range are 1-based. Opening the
    PDF and reading page text is replaced by the sequence of page texts. */
module PageScan {
  import opened Common
  import opened OrderedMap
  import opened Text
  import opened Hierarchy

  /** `{'title': …, 'start_page': …, 'end_page': …}`. */
  datatype Range = Range(title: string, start: int, end: Option<int>)

  type Pages = Dict<string, Range>

  /** `current_chapter`, `current_section`, `current_subsection`. */
  datatype Cursor = Cursor(chapter: Option<string>, section: Option<string>, subsection: Option<string>)

  /** The scan's state between two steps. */
  datatype Scan = Scan(pages: Pages, cur: Cursor)

  datatype Level = ChapterLevel | SectionLevel | SubsectionLevel

  /** The second word a chapter's page must contain. */
  const ChapterWord: string := "ГЛАВА"

  const Start: Scan := Scan([], Cursor(None, None, None))

  function CursorAt(c: Cursor, l: Level): Option<string>
  {
    match l
    case ChapterLevel => c.chapter
    case SectionLevel => c.section
    case SubsectionLevel => c.subsection
  }

  function SetCursor(c: Cursor, l: Level, id: string): (r: Cursor)
    ensures CursorAt(r, l) == Some(id)
    ensures forall l' :: l' != l ==> CursorAt(r, l') == CursorAt(c, l')
  {
    match l
    case ChapterLevel => c.(chapter := Some(id))
    case SectionLevel => c.(section := Some(id))
    case SubsectionLevel => c.(subsection := Some(id))
  }

  /** The previous node of a level is closed on the page before the one where
      its successor starts, except a subsection, which is closed on that same
      page. */
  function CloseOffset(l: Level): int
  {
    if l == SubsectionLevel then 1 else 0
  }

  /** The text searched for, which is also the title recorded in the range:
      the upper-cased chapter title, the upper-cased `"<id> <title>"` of a
      section, and the `"<id> <title>"` of a subsection as written. */
  function Label(l: Level, id: string, title: string): string
  {
    match l
    case ChapterLevel => Upper(title)
    case SectionLevel => Upper(id + " " + title)
    case SubsectionLevel => id + " " + title
  }

  /** Whether the page's flattened text shows the heading: a chapter also
      needs the word `ГЛАВА` on the page, and a subsection is matched without
      regard to case. */
  predicate Found(l: Level, flat: string, heading: string)
  {
    match l
    case ChapterLevel => Contains(flat, heading) && Contains(flat, ChapterWord)
    case SectionLevel => Contains(flat, heading)
    case SubsectionLevel => ContainsIgnoreCase(flat, heading)
  }

  /** `if cur and cur in pages: pages[cur]['end_page'] = end`. */
  function Close(pages: Pages, id: Option<string>, end: int): (r: Pages)
    ensures Keys(r) == Keys(pages)
    ensures Truthy(id) && id.value in Keys(pages) ==>
      Get(r, id.value) == Some(Get(pages, id.value).value.(end := Some(end)))
    ensures forall k :: !(Truthy(id) && k == id.value) ==> Get(r, k) == Get(pages, k)
  {
    if Truthy(id) && id.value in Keys(pages) then
      Put(pages, id.value, Get(pages, id.value).value.(end := Some(end)))
    else
      pages
  }

  /** A heading found on 0-based page `p`: the level's current node is closed,
      the new node opens on page `p + 1` with no end, and becomes current.
      Every level writes to the same dictionary. */
  function Open(s: Scan, l: Level, id: string, heading: string, p: int): (r: Scan)
    ensures Get(r.pages, id) == Some(Range(heading, p + 1, None))
    ensures CursorAt(r.cur, l) == Some(id)
    ensures forall l' :: l' != l ==> CursorAt(r.cur, l') == CursorAt(s.cur, l')
    ensures var prev := CursorAt(s.cur, l);
      Truthy(prev) && prev.value != id && prev.value in Keys(s.pages) ==>
        Get(r.pages, prev.value) == Some(Get(s.pages, prev.value).value.(end := Some(p + CloseOffset(l))))
    ensures var prev := CursorAt(s.cur, l);
      forall k :: k != id && !(Truthy(prev) && k == prev.value && k in Keys(s.pages)) ==> Get(r.pages, k) == Get(s.pages, k)
    ensures Keys(r.pages) == if id in Keys(s.pages) then Keys(s.pages) else Keys(s.pages) + [id]
  {
    var closed := Close(s.pages, CursorAt(s.cur, l), p + CloseOffset(l));
    Scan(Put(closed, id, Range(heading, p + 1, None)), SetCursor(s.cur, l, id))
  }

  /** One node tested against the page. */
  function Visit(s: Scan, l: Level, id: string, title: string, flat: string, p: int): Scan
  {
    var heading := Label(l, id, title);
    if Found(l, flat, heading) then Open(s, l, id, heading, p) else s
  }

  /** `(id, title)` of every node of one dictionary, in iteration order. */
  type Items = seq<(string, string)>

  function ChapterItems(d: Structure): (r: Items)
    ensures |r| == |d|
    ensures forall i :: 0 <= i < |d| ==> r[i] == (d[i].0, d[i].1.title)
  {
    if |d| == 0 then [] else [(d[0].0, d[0].1.title)] + ChapterItems(d[1..])
  }

  function SubsectionItems(d: Dict<string, Subsection>): (r: Items)
    ensures |r| == |d|
    ensures forall i :: 0 <= i < |d| ==> r[i] == (d[i].0, d[i].1.title)
  {
    if |d| == 0 then [] else [(d[0].0, d[0].1.title)] + SubsectionItems(d[1..])
  }

  /** A loop over nodes of one level: the state after its first `|items|`
      iterations. */
  function Pass(s: Scan, l: Level, items: Items, flat: string, p: int): (r: Scan)
    ensures forall l' :: l' != l ==> CursorAt(r.cur, l') == CursorAt(s.cur, l')
    ensures CursorAt(r.cur, l) == CursorAt(s.cur, l) || (CursorAt(r.cur, l).Some? && CursorAt(r.cur, l).value in Keys(items))
  {
    if |items| == 0 then s
    else
      var n := |items| - 1;
      var s1 := Pass(s, l, items[..n], flat, p);
      var r := Visit(s1, l, items[n].0, items[n].1, flat, p);
      ItemKeys(items);
      r
  }

  /** The loop over the current chapter's sections: each section is tested,
      then every one of its subsections, whether or not the section matched. */
  function SectionPass(s: Scan, sections: Dict<string, Section>, flat: string, p: int): (r: Scan)
    ensures r.cur.chapter == s.cur.chapter
  {
    if |sections| == 0 then s
    else
      var n := |sections| - 1;
      var s1 := SectionPass(s, sections[..n], flat, p);
      var (id, sec) := sections[n];
      var s2 := Visit(s1, SectionLevel, id, sec.title, flat, p);
      var r := Pass(s2, SubsectionLevel, SubsectionItems(sec.subsections), flat, p);
      assert CursorAt(s2.cur, ChapterLevel) == CursorAt(s1.cur, ChapterLevel);
      assert CursorAt(r.cur, ChapterLevel) == CursorAt(s2.cur, ChapterLevel);
      r
  }

  /** The current chapter, when there is one, is a chapter of the structure. */
  predicate ChapterKnown(structure: Structure, cur: Cursor)
  {
    cur.chapter.Some? ==> cur.chapter.value in Keys(structure)
  }

  /** One page, 0-based index `p`, whose flattened text is `flat`. */
  function ScanPage(structure: Structure, s: Scan, flat: string, p: int): (r: Scan)
    requires ChapterKnown(structure, s.cur)
    ensures ChapterKnown(structure, r.cur)
  {
    var s1 := Pass(s, ChapterLevel, ChapterItems(structure), flat, p);
    ChapterItemKeys(structure);
    if Truthy(s1.cur.chapter) then
      SectionPass(s1, Get(structure, s1.cur.chapter.value).value.sections, flat, p)
    else
      s1
  }

  /** The state after scanning the 0-based pages `first .. n-1`, given the
      flattened text of every page. */
  function ScanThrough(structure: Structure, flats: seq<string>, first: nat, n: nat): (r: Scan)
    requires first <= n <= |flats|
    ensures ChapterKnown(structure, r.cur)
    decreases n
  {
    if n == first then Start
    else ScanPage(structure, ScanThrough(structure, flats, first, n - 1), flats[n - 1], n - 1)
  }

  /** Each page's text with its lines stripped and joined by single spaces. */
  function FlattenAll(doc: seq<string>): (r: seq<string>)
    ensures |r| == |doc|
  {
    seq(|doc|, i requires 0 <= i < |doc| => Flatten(doc[i]))
  }

  /** The closing after the loop: whatever is still current gets the last
      page as its end, subsection first, then section, then chapter. */
  function Finish(s: Scan, total: int): Pages
  {
    var p1 := Close(s.pages, s.cur.subsection, total);
    var p2 := Close(p1, s.cur.section, total);
    Close(p2, s.cur.chapter, total)
  }

  /** The state the page loop ends in: nothing scanned when `first` is past
      the last page. */
  function ScanAll(structure: Structure, flats: seq<string>, first: nat): Scan
  {
    if |flats| <= first then Start else ScanThrough(structure, flats, first, |flats|)
  }

  /** The scan and the final closing, given the flattened pages. */
  function PagesFrom(structure: Structure, flats: seq<string>, startPage: int): (r: Pages)
    requires startPage >= 1
    ensures |flats| < startPage ==> r == []
  {
    Finish(ScanAll(structure, flats, startPage - 1), |flats|)
  }

  /** `find_pages_for_structure(structure, start_page)` over the page texts
      `doc`; the scan covers the 0-based pages `start_page - 1 .. len(doc) - 1`. */
  function FindPages(structure: Structure, doc: seq<string>, startPage: int): (r: Pages)
    requires startPage >= 1
    ensures |doc| < startPage ==> r == []
  {
    PagesFrom(structure, FlattenAll(doc), startPage)
  }

  // ---------------------------------------------------------------------
  // What the scan keeps true

  /** A range starts within pages `lo .. hi` and, once closed, ends within
      `hi` and no earlier than the page before its start. */
  predicate RangeOk(r: Range, lo: int, hi: int)
  {
    lo <= r.start <= hi && (r.end.Some? ==> r.start - 1 <= r.end.value <= hi)
  }

  ghost predicate AllInRange(pages: Pages, lo: int, hi: int)
  {
    forall k :: Get(pages, k).Some? ==> RangeOk(Get(pages, k).value, lo, hi)
  }

  predicate IsCurrent(cur: Cursor, k: string)
  {
    cur.chapter == Some(k) || cur.section == Some(k) || cur.subsection == Some(k)
  }

  /** Only a current node (or the blank identifier, which Python reads as
      false and so never closes) can still be open. */
  ghost predicate OpenAreCurrent(pages: Pages, cur: Cursor)
  {
    forall k :: Get(pages, k).Some? && Get(pages, k).value.end.None? ==> k == "" || IsCurrent(cur, k)
  }

  ghost predicate Inv(s: Scan, lo: int, hi: int)
  {
    AllInRange(s.pages, lo, hi) && OpenAreCurrent(s.pages, s.cur)
  }

  /** Every identifier of a list of nodes is non-blank. */
  ghost predicate NoBlankIds(items: Items)
  {
    forall i :: 0 <= i < |items| ==> items[i].0 != ""
  }

  lemma IsCurrentAt(c: Cursor, k: string)
    ensures IsCurrent(c, k) <==>
      CursorAt(c, ChapterLevel) == Some(k) || CursorAt(c, SectionLevel) == Some(k) || CursorAt(c, SubsectionLevel) == Some(k)
  {
  }

  /** Opening a node on 0-based page `p` keeps every range within the pages
      seen so far and keeps open only current nodes. */
  lemma OpenKeepsInv(s: Scan, l: Level, id: string, heading: string, p: int, lo: int)
    requires lo <= p + 1 && Inv(s, lo, p + 1)
    ensures Inv(Open(s, l, id, heading, p), lo, p + 1)
  {
    var r := Open(s, l, id, heading, p);
    var prev := CursorAt(s.cur, l);
    forall k | Get(r.pages, k).Some?
      ensures RangeOk(Get(r.pages, k).value, lo, p + 1)
      ensures Get(r.pages, k).value.end.None? ==> k == "" || IsCurrent(r.cur, k)
    {
      IsCurrentAt(s.cur, k);
      IsCurrentAt(r.cur, k);
      if k == id {
      } else if Some(k) == prev {
        if k != "" {
          assert k in Keys(r.pages);
          assert k in Keys(s.pages);
        }
      } else {
        assert Get(r.pages, k) == Get(s.pages, k);
      }
    }
  }

  lemma VisitKeepsInv(s: Scan, l: Level, id: string, title: string, flat: string, p: int, lo: int)
    requires lo <= p + 1 && Inv(s, lo, p + 1)
    ensures Inv(Visit(s, l, id, title, flat, p), lo, p + 1)
  {
    OpenKeepsInv(s, l, id, Label(l, id, title), p, lo);
  }

  lemma {:induction false} PassKeepsInv(s: Scan, l: Level, items: Items, flat: string, p: int, lo: int)
    requires lo <= p + 1 && Inv(s, lo, p + 1)
    ensures Inv(Pass(s, l, items, flat, p), lo, p + 1)
  {
    if |items| > 0 {
      var n := |items| - 1;
      PassKeepsInv(s, l, items[..n], flat, p, lo);
      VisitKeepsInv(Pass(s, l, items[..n], flat, p), l, items[n].0, items[n].1, flat, p, lo);
    }
  }

  lemma {:induction false} PassNoBlank(s: Scan, l: Level, items: Items, flat: string, p: int)
    requires NoBlankIds(items) && "" !in Keys(s.pages)
    ensures "" !in Keys(Pass(s, l, items, flat, p).pages)
  {
    if |items| > 0 {
      var n := |items| - 1;
      PassNoBlank(s, l, items[..n], flat, p);
      assert items[n].0 != "";
    }
  }

  lemma {:induction false} SectionPassKeepsInv(s: Scan, sections: Dict<string, Section>, flat: string, p: int, lo: int)
    requires lo <= p + 1 && Inv(s, lo, p + 1)
    ensures Inv(SectionPass(s, sections, flat, p), lo, p + 1)
  {
    if |sections| > 0 {
      var n := |sections| - 1;
      var s1 := SectionPass(s, sections[..n], flat, p);
      var (id, sec) := sections[n];
      var s2 := Visit(s1, SectionLevel, id, sec.title, flat, p);
      SectionPassKeepsInv(s, sections[..n], flat, p, lo);
      VisitKeepsInv(s1, SectionLevel, id, sec.title, flat, p, lo);
      PassKeepsInv(s2, SubsectionLevel, SubsectionItems(sec.subsections), flat, p, lo);
    }
  }

  lemma {:induction false} SectionPassNoBlank(s: Scan, sections: Dict<string, Section>, flat: string, p: int)
    requires SectionIdsNonEmpty(sections) && "" !in Keys(s.pages)
    ensures "" !in Keys(SectionPass(s, sections, flat, p).pages)
  {
    if |sections| > 0 {
      var n := |sections| - 1;
      SectionPassNoBlank(s, sections[..n], flat, p);
      SectionNoBlank(SectionPass(s, sections[..n], flat, p), sections[n], flat, p);
    }
  }

  lemma SectionNoBlank(s: Scan, e: (string, Section), flat: string, p: int)
    requires e.0 != "" && SubsectionIdsNonEmpty(e.1.subsections) && "" !in Keys(s.pages)
    ensures "" !in Keys(Pass(Visit(s, SectionLevel, e.0, e.1.title, flat, p), SubsectionLevel,
      SubsectionItems(e.1.subsections), flat, p).pages)
  {
    PassNoBlank(Visit(s, SectionLevel, e.0, e.1.title, flat, p), SubsectionLevel, SubsectionItems(e.1.subsections), flat, p);
  }

  lemma ScanPageKeepsInv(structure: Structure, s: Scan, flat: string, p: int, lo: int)
    requires ChapterKnown(structure, s.cur) && lo <= p + 1 && Inv(s, lo, p + 1)
    ensures Inv(ScanPage(structure, s, flat, p), lo, p + 1)
  {
    var items := ChapterItems(structure);
    var s1 := Pass(s, ChapterLevel, items, flat, p);
    PassKeepsInv(s, ChapterLevel, items, flat, p, lo);
    ChapterItemKeys(structure);
    if Truthy(s1.cur.chapter) {
      SectionPassKeepsInv(s1, Get(structure, s1.cur.chapter.value).value.sections, flat, p, lo);
    }
  }

  lemma ScanPageNoBlank(structure: Structure, s: Scan, flat: string, p: int)
    requires ChapterKnown(structure, s.cur) && IdsNonEmpty(structure) && "" !in Keys(s.pages)
    ensures "" !in Keys(ScanPage(structure, s, flat, p).pages)
  {
    var items := ChapterItems(structure);
    var s1 := Pass(s, ChapterLevel, items, flat, p);
    PassNoBlank(s, ChapterLevel, items, flat, p);
    ChapterItemsNonBlank(structure);
    ChapterItemKeys(structure);
    if Truthy(s1.cur.chapter) {
      var id := s1.cur.chapter.value;
      ChapterSectionsNonBlank(structure, id);
      SectionPassNoBlank(s1, Get(structure, id).value.sections, flat, p);
    }
  }

  lemma ChapterItemsNonBlank(structure: Structure)
    ensures IdsNonEmpty(structure) ==> NoBlankIds(ChapterItems(structure))
  {
  }

  lemma {:induction false} ChapterSectionsNonBlank(structure: Structure, id: string)
    requires id in Keys(structure) && IdsNonEmpty(structure)
    ensures SectionIdsNonEmpty(Get(structure, id).value.sections)
  {
    if structure[0].0 != id {
      ChapterSectionsNonBlank(structure[1..], id);
    }
  }

  lemma Widen(s: Scan, lo: int, hi: int)
    requires Inv(s, lo, hi)
    ensures Inv(s, lo, hi + 1)
  {
  }

  lemma {:induction false} ScanThroughKeepsInv(structure: Structure, flats: seq<string>, first: nat, n: nat)
    requires first <= n <= |flats|
    ensures Inv(ScanThrough(structure, flats, first, n), first + 1, n)
    decreases n
  {
    if n > first {
      ScanThroughKeepsInv(structure, flats, first, n - 1);
      ScanThroughStepInv(structure, flats, first, n);
    }
  }

  lemma ScanThroughStepInv(structure: Structure, flats: seq<string>, first: nat, n: nat)
    requires first < n <= |flats|
    requires Inv(ScanThrough(structure, flats, first, n - 1), first + 1, n - 1)
    ensures Inv(ScanThrough(structure, flats, first, n), first + 1, n)
  {
    PageKeepsInv(structure, ScanThrough(structure, flats, first, n - 1), flats[n - 1], n, first + 1);
  }

  /** Scanning the page with 1-based number `n` extends the bounds to `n`. */
  lemma PageKeepsInv(structure: Structure, s: Scan, flat: string, n: int, lo: int)
    requires ChapterKnown(structure, s.cur) && lo <= n && Inv(s, lo, n - 1)
    ensures Inv(ScanPage(structure, s, flat, n - 1), lo, n)
  {
    Widen(s, lo, n - 1);
    ScanPageKeepsInv(structure, s, flat, n - 1, lo);
  }

  lemma {:induction false} ScanThroughNoBlank(structure: Structure, flats: seq<string>, first: nat, n: nat)
    requires first <= n <= |flats| && IdsNonEmpty(structure)
    ensures "" !in Keys(ScanThrough(structure, flats, first, n).pages)
    decreases n
  {
    if n > first {
      ScanThroughNoBlank(structure, flats, first, n - 1);
      ScanThroughStepNoBlank(structure, flats, first, n);
    }
  }

  lemma ScanThroughStepNoBlank(structure: Structure, flats: seq<string>, first: nat, n: nat)
    requires first < n <= |flats| && IdsNonEmpty(structure)
    requires "" !in Keys(ScanThrough(structure, flats, first, n - 1).pages)
    ensures "" !in Keys(ScanThrough(structure, flats, first, n).pages)
  {
    var prev := ScanThrough(structure, flats, first, n - 1);
    assert ScanThrough(structure, flats, first, n) == ScanPage(structure, prev, flats[n - 1], n - 1);
    ScanPageNoBlank(structure, prev, flats[n - 1], n - 1);
  }

  lemma CloseKeepsRange(pages: Pages, id: Option<string>, total: int, lo: int)
    requires AllInRange(pages, lo, total)
    ensures AllInRange(Close(pages, id, total), lo, total)
    ensures forall k :: Get(pages, k).Some? && Get(pages, k).value.end.Some? ==>
      Get(Close(pages, id, total), k).value.end.Some?
  {
  }

  /** The final closing keeps all ranges within bounds. */
  lemma FinishInRange(s: Scan, total: int, lo: int)
    requires AllInRange(s.pages, lo, total)
    ensures AllInRange(Finish(s, total), lo, total)
  {
    var p1 := Close(s.pages, s.cur.subsection, total);
    var p2 := Close(p1, s.cur.section, total);
    CloseKeepsRange(s.pages, s.cur.subsection, total, lo);
    CloseKeepsRange(p1, s.cur.section, total, lo);
    CloseKeepsRange(p2, s.cur.chapter, total, lo);
  }

  /** The final closing leaves no non-blank node open. */
  lemma FinishCloses(s: Scan, total: int)
    requires OpenAreCurrent(s.pages, s.cur) && "" !in Keys(s.pages)
    ensures forall k :: Get(Finish(s, total), k).Some? ==> Get(Finish(s, total), k).value.end.Some?
  {
  }

  /** Every range the loop leaves starts within the scanned pages and ends
      within them, at the earliest on the page before its start. */
  lemma ScanAllKeepsInv(structure: Structure, flats: seq<string>, first: nat)
    ensures Inv(ScanAll(structure, flats, first), first + 1, |flats|)
  {
    if first < |flats| {
      ScanThroughKeepsInv(structure, flats, first, |flats|);
    }
  }

  /** Without blank identifiers in the structure, none is recorded. */
  lemma ScanAllNoBlank(structure: Structure, flats: seq<string>, first: nat)
    requires IdsNonEmpty(structure)
    ensures "" !in Keys(ScanAll(structure, flats, first).pages)
  {
    if first < |flats| {
      ScanThroughNoBlank(structure, flats, first, |flats|);
    }
  }

  /** Every returned range starts within the scanned pages and ends within
      them, at the earliest on the page before its start. */
  lemma FindPagesBounds(structure: Structure, doc: seq<string>, startPage: int)
    requires startPage >= 1
    ensures var r := FindPages(structure, doc, startPage);
      forall k :: Get(r, k).Some? ==>
        && startPage <= Get(r, k).value.start <= |doc|
        && (Get(r, k).value.end.Some? ==>
              && Get(r, k).value.start - 1 <= Get(r, k).value.end.value <= |doc|
              && startPage - 1 <= Get(r, k).value.end.value)
  {
    PagesFromBounds(structure, FlattenAll(doc), startPage);
  }

  lemma PagesFromBounds(structure: Structure, flats: seq<string>, startPage: int)
    requires startPage >= 1
    ensures AllInRange(PagesFrom(structure, flats, startPage), startPage, |flats|)
  {
    var first: nat := startPage - 1;
    assert PagesFrom(structure, flats, startPage) == Finish(ScanAll(structure, flats, first), |flats|);
    var sc := ScanAll(structure, flats, first);
    ScanAllKeepsInv(structure, flats, first);
    assert AllInRange(sc.pages, startPage, |flats|);
    FinishInRange(sc, |flats|, startPage);
  }

  /** With no blank identifier in the structure, every returned range is
      closed. */
  lemma FindPagesAllClosed(structure: Structure, doc: seq<string>, startPage: int)
    requires startPage >= 1 && IdsNonEmpty(structure)
    ensures var r := FindPages(structure, doc, startPage);
      forall k :: Get(r, k).Some? ==> Get(r, k).value.end.Some?
  {
    PagesFromClosed(structure, FlattenAll(doc), startPage);
  }

  lemma PagesFromClosed(structure: Structure, flats: seq<string>, startPage: int)
    requires startPage >= 1 && IdsNonEmpty(structure)
    ensures forall k :: Get(PagesFrom(structure, flats, startPage), k).Some? ==>
      Get(PagesFrom(structure, flats, startPage), k).value.end.Some?
  {
    var first: nat := startPage - 1;
    assert PagesFrom(structure, flats, startPage) == Finish(ScanAll(structure, flats, first), |flats|);
    ScanAllCloses(structure, flats, first);
  }

  lemma ScanAllCloses(structure: Structure, flats: seq<string>, first: nat)
    requires IdsNonEmpty(structure)
    ensures var r := Finish(ScanAll(structure, flats, first), |flats|);
      forall k :: Get(r, k).Some? ==> Get(r, k).value.end.Some?
  {
    var s := ScanAll(structure, flats, first);
    ScanAllKeepsInv(structure, flats, first);
    ScanAllNoBlank(structure, flats, first);
    FinishCloses(s, |flats|);
  }

  // ---------------------------------------------------------------------
  // Which node a loop leaves current

  /** The index of the last node in `items` whose heading the page shows, or
      -1 when there is none. */
  function LastFound(l: Level, items: Items, flat: string): (i: int)
    ensures -1 <= i < |items|
    ensures i >= 0 ==> Found(l, flat, Label(l, items[i].0, items[i].1))
    ensures forall j :: i < j < |items| ==> !Found(l, flat, Label(l, items[j].0, items[j].1))
  {
    if |items| == 0 then -1
    else
      var n := |items| - 1;
      if Found(l, flat, Label(l, items[n].0, items[n].1)) then n else LastFound(l, items[..n], flat)
  }

  /** A loop over one level leaves current the last node found on the page,
      whose range is then open from this page on; when no node is found the
      loop changes nothing. */
  lemma {:induction false} PassLeavesLastFound(s: Scan, l: Level, items: Items, flat: string, p: int)
    ensures var r := Pass(s, l, items, flat, p);
      var i := LastFound(l, items, flat);
      && (i < 0 ==> r == s)
      && (i >= 0 ==>
            && CursorAt(r.cur, l) == Some(items[i].0)
            && Get(r.pages, items[i].0) == Some(Range(Label(l, items[i].0, items[i].1), p + 1, None)))
  {
    if |items| > 0 {
      var n := |items| - 1;
      if Found(l, flat, Label(l, items[n].0, items[n].1)) {
        LastHit(s, l, items, flat, p);
      } else {
        PassLeavesLastFound(s, l, items[..n], flat, p);
        LastMissed(s, l, items, flat, p);
      }
    }
  }

  /** `(id, title)` of every section, in iteration order. */
  function SectionItems(d: Dict<string, Section>): (r: Items)
    ensures |r| == |d|
    ensures forall i :: 0 <= i < |d| ==> r[i] == (d[i].0, d[i].1.title)
  {
    seq(|d|, i requires 0 <= i < |d| => (d[i].0, d[i].1.title))
  }

  /** The section loop leaves current the last section whose heading the
      page shows, whatever its subsection loops do; with none found the
      section cursor stays where it was. */
  lemma {:induction false} SectionPassLeavesLastSection(s: Scan, sections: Dict<string, Section>, flat: string, p: int)
    ensures var r := SectionPass(s, sections, flat, p);
      var i := LastFound(SectionLevel, SectionItems(sections), flat);
      && (i < 0 ==> r.cur.section == s.cur.section)
      && (i >= 0 ==> r.cur.section == Some(sections[i].0))
  {
    if |sections| > 0 {
      var n := |sections| - 1;
      var s1 := SectionPass(s, sections[..n], flat, p);
      SectionPassLeavesLastSection(s, sections[..n], flat, p);
      SectionPassUnfold(s, sections, flat, p, n, s1);
      SectionStepCursor(s1, sections[n], flat, p);
      LastSectionStep(sections, flat, n);
    }
  }

  /** The last step of the section loop, as `SectionPass` takes it. */
  lemma SectionPassUnfold(s: Scan, sections: Dict<string, Section>, flat: string, p: int, n: nat, s1: Scan)
    requires |sections| > 0 && n == |sections| - 1 && s1 == SectionPass(s, sections[..n], flat, p)
    ensures SectionPass(s, sections, flat, p)
      == Pass(Visit(s1, SectionLevel, sections[n].0, sections[n].1.title, flat, p), SubsectionLevel,
              SubsectionItems(sections[n].1.subsections), flat, p)
  {
  }

  /** `LastFound` over the sections, one section shorter. */
  lemma LastSectionStep(sections: Dict<string, Section>, flat: string, n: nat)
    requires |sections| > 0 && n == |sections| - 1
    ensures LastFound(SectionLevel, SectionItems(sections), flat)
      == if Found(SectionLevel, flat, Label(SectionLevel, sections[n].0, sections[n].1.title)) then n
         else LastFound(SectionLevel, SectionItems(sections[..n]), flat)
  {
    var items := SectionItems(sections);
    assert items[n] == (sections[n].0, sections[n].1.title);
    assert SectionItems(sections[..n]) == items[..n];
  }

  /** One section and its subsection loop: the section cursor moves to the
      section exactly when its heading is found. */
  lemma SectionStepCursor(s: Scan, e: (string, Section), flat: string, p: int)
    ensures var r := Pass(Visit(s, SectionLevel, e.0, e.1.title, flat, p), SubsectionLevel,
                          SubsectionItems(e.1.subsections), flat, p);
      r.cur.section == if Found(SectionLevel, flat, Label(SectionLevel, e.0, e.1.title)) then Some(e.0) else s.cur.section
  {
    var s2 := Visit(s, SectionLevel, e.0, e.1.title, flat, p);
    VisitRecords(s, SectionLevel, e.0, e.1.title, flat, p);
    var r := Pass(s2, SubsectionLevel, SubsectionItems(e.1.subsections), flat, p);
    assert CursorAt(r.cur, SectionLevel) == CursorAt(s2.cur, SectionLevel);
  }

  /** The subsections of every section, one list after another: the order
      in which the section loop tests them. */
  function AllSubItems(sections: Dict<string, Section>): Items
  {
    if |sections| == 0 then []
    else
      var n := |sections| - 1;
      AllSubItems(sections[..n]) + SubsectionItems(sections[n].1.subsections)
  }

  /** The subsection loops of successive sections share one cursor: the
      section loop leaves current the last subsection found across all of
      them, under whichever section; with none found the subsection cursor
      stays where it was. */
  lemma {:induction false} SectionPassLeavesLastSubsection(s: Scan, sections: Dict<string, Section>, flat: string, p: int)
    ensures var r := SectionPass(s, sections, flat, p);
      var all := AllSubItems(sections);
      var i := LastFound(SubsectionLevel, all, flat);
      && (i < 0 ==> r.cur.subsection == s.cur.subsection)
      && (i >= 0 ==> r.cur.subsection == Some(all[i].0))
  {
    if |sections| > 0 {
      var n := |sections| - 1;
      var s1 := SectionPass(s, sections[..n], flat, p);
      SectionPassLeavesLastSubsection(s, sections[..n], flat, p);
      SectionPassUnfold(s, sections, flat, p, n, s1);
      SubsectionStepCursor(s1, sections[n], flat, p);
      LastFoundConcat(SubsectionLevel, AllSubItems(sections[..n]), SubsectionItems(sections[n].1.subsections), flat);
    }
  }

  /** One section and its subsection loop: the subsection cursor ends on the
      last of its subsections found, or stays. */
  lemma SubsectionStepCursor(s: Scan, e: (string, Section), flat: string, p: int)
    ensures var items := SubsectionItems(e.1.subsections);
      var r := Pass(Visit(s, SectionLevel, e.0, e.1.title, flat, p), SubsectionLevel, items, flat, p);
      var j := LastFound(SubsectionLevel, items, flat);
      r.cur.subsection == if j >= 0 then Some(items[j].0) else s.cur.subsection
  {
    var s2 := Visit(s, SectionLevel, e.0, e.1.title, flat, p);
    VisitRecords(s, SectionLevel, e.0, e.1.title, flat, p);
    assert CursorAt(s2.cur, SubsectionLevel) == CursorAt(s.cur, SubsectionLevel);
    PassLeavesLastFound(s2, SubsectionLevel, SubsectionItems(e.1.subsections), flat, p);
  }

  /** The last node found in two lists tested one after the other is the last
      found in the second, or else the last found in the first. */
  lemma {:induction false} LastFoundConcat(l: Level, xs: Items, ys: Items, flat: string)
    ensures var i := LastFound(l, xs + ys, flat);
      var j := LastFound(l, ys, flat);
      && (j >= 0 ==> i == |xs| + j && (xs + ys)[i] == ys[j])
      && (j < 0 ==> i == LastFound(l, xs, flat) && (i >= 0 ==> (xs + ys)[i] == xs[i]))
    decreases |ys|
  {
    if |ys| == 0 {
      assert xs + ys == xs;
    } else {
      var n := |ys| - 1;
      var zs := xs + ys;
      assert zs[..|zs| - 1] == xs + ys[..n];
      assert zs[|zs| - 1] == ys[n];
      LastFoundStep(l, zs, flat);
      LastFoundStep(l, ys, flat);
      if !Found(l, flat, Label(l, ys[n].0, ys[n].1)) {
        LastFoundConcat(l, xs, ys[..n], flat);
      }
    }
  }

  /** `LastFound` one node shorter. */
  lemma LastFoundStep(l: Level, items: Items, flat: string)
    requires |items| > 0
    ensures var n := |items| - 1;
      LastFound(l, items, flat)
        == if Found(l, flat, Label(l, items[n].0, items[n].1)) then n else LastFound(l, items[..n], flat)
  {
  }


  /** When the last node is found, it is the one left current. */
  lemma LastHit(s: Scan, l: Level, items: Items, flat: string, p: int)
    requires |items| > 0
    requires Found(l, flat, Label(l, items[|items| - 1].0, items[|items| - 1].1))
    ensures var r := Pass(s, l, items, flat, p);
      var n := |items| - 1;
      && LastFound(l, items, flat) == n
      && CursorAt(r.cur, l) == Some(items[n].0)
      && Get(r.pages, items[n].0) == Some(Range(Label(l, items[n].0, items[n].1), p + 1, None))
  {
  }

  /** When the last node is not found, the loop ends as it did one node
      earlier. */
  lemma LastMissed(s: Scan, l: Level, items: Items, flat: string, p: int)
    requires |items| > 0
    requires !Found(l, flat, Label(l, items[|items| - 1].0, items[|items| - 1].1))
    ensures var n := |items| - 1;
      && Pass(s, l, items, flat, p) == Pass(s, l, items[..n], flat, p)
      && LastFound(l, items, flat) == LastFound(l, items[..n], flat)
      && forall i :: 0 <= i < n ==> items[..n][i] == items[i]
  {
  }

  /** Two nodes of one level loop both found on page `p`: the first is
      closed as soon as it opens, so a chapter ends on the page before its
      own start page and a subsection ends on its start page. Sections are
      not tested by a plain level loop but by `SectionPass`, whose subsection
      loops run in between; `SectionsSamePage` states their case. */
  lemma SamePageTwice(s: Scan, l: Level, a: string, ta: string, b: string, tb: string, flat: string, p: int)
    requires a != "" && a != b
    requires Found(l, flat, Label(l, a, ta)) && Found(l, flat, Label(l, b, tb))
    ensures var r := Pass(s, l, [(a, ta), (b, tb)], flat, p);
      && CursorAt(r.cur, l) == Some(b)
      && Get(r.pages, a) == Some(Range(Label(l, a, ta), p + 1, Some(p + CloseOffset(l))))
  {
    PassOfTwo(s, l, (a, ta), (b, tb), flat, p);
    var s1 := Open(s, l, a, Label(l, a, ta), p);
    var r := Open(s1, l, b, Label(l, b, tb), p);
    assert CursorAt(s1.cur, l) == Some(a);
  }

  lemma PassOfTwo(s: Scan, l: Level, x: (string, string), y: (string, string), flat: string, p: int)
    ensures Pass(s, l, [x, y], flat, p) == Visit(Visit(s, l, x.0, x.1, flat, p), l, y.0, y.1, flat, p)
  {
    var items := [x, y];
    assert items[..1] == [x] && [x][..0] == [];
    assert Pass(s, l, [x], flat, p) == Visit(s, l, x.0, x.1, flat, p) by {
      assert Pass(s, l, [x][..0], flat, p) == s;
    }
  }

  /** A level loop leaves alone the entry of any id that is neither one of
      its nodes nor the node current when it starts. */
  lemma {:induction false} PassKeepsOther(s: Scan, l: Level, items: Items, flat: string, p: int, k: string)
    requires k !in Keys(items) && CursorAt(s.cur, l) != Some(k)
    ensures Get(Pass(s, l, items, flat, p).pages, k) == Get(s.pages, k)
  {
    if |items| > 0 {
      var n := |items| - 1;
      ItemKeys(items);
      PassKeepsOther(s, l, items[..n], flat, p, k);
      var s1 := Pass(s, l, items[..n], flat, p);
      assert CursorAt(s1.cur, l) != Some(k);
      assert items[n].0 != k;
    }
  }

  /** Two sections of the current chapter both found on page `p`: the first
      ends on the page before its own start, as a chapter does. This needs
      the subsection loops in between to leave its entry alone: the
      dictionary is shared, so a subsection with the same id, or a current
      subsection with that id, would reopen or close it instead. */
  lemma SectionsSamePage(s: Scan, a: string, sa: Section, b: string, sb: Section, flat: string, p: int)
    requires a != "" && a != b
    requires Found(SectionLevel, flat, Label(SectionLevel, a, sa.title))
    requires Found(SectionLevel, flat, Label(SectionLevel, b, sb.title))
    requires a !in Keys(sa.subsections) && a !in Keys(sb.subsections) && s.cur.subsection != Some(a)
    ensures var r := SectionPass(s, [(a, sa), (b, sb)], flat, p);
      && r.cur.section == Some(b)
      && Get(r.pages, a) == Some(Range(Label(SectionLevel, a, sa.title), p + 1, Some(p)))
  {
    var d := [(a, sa), (b, sb)];
    assert d[..1] == [(a, sa)] && d[..1][..0] == [];
    SectionPassUnfold(s, d[..1], flat, p, 0, s);
    var s1 := FirstSectionOpens(s, a, sa, flat, p);
    SectionPassUnfold(s, d, flat, p, 1, s1);
    SecondSectionCloses(s1, a, sa, b, sb, flat, p);
  }

  /** The first of the two sections opens, and its subsection loop leaves
      its entry alone. */
  lemma FirstSectionOpens(s: Scan, a: string, sa: Section, flat: string, p: int) returns (s1: Scan)
    requires Found(SectionLevel, flat, Label(SectionLevel, a, sa.title))
    requires a !in Keys(sa.subsections) && s.cur.subsection != Some(a)
    ensures s1 == Pass(Visit(s, SectionLevel, a, sa.title, flat, p), SubsectionLevel, SubsectionItems(sa.subsections), flat, p)
    ensures Get(s1.pages, a) == Some(Range(Label(SectionLevel, a, sa.title), p + 1, None))
    ensures s1.cur.section == Some(a) && s1.cur.subsection != Some(a)
  {
    var v := Visit(s, SectionLevel, a, sa.title, flat, p);
    VisitRecords(s, SectionLevel, a, sa.title, flat, p);
    var items := SubsectionItems(sa.subsections);
    SubsectionItemKeys(sa.subsections);
    assert CursorAt(v.cur, SubsectionLevel) != Some(a);
    PassKeepsOther(v, SubsectionLevel, items, flat, p, a);
    s1 := Pass(v, SubsectionLevel, items, flat, p);
    assert CursorAt(s1.cur, SectionLevel) == CursorAt(v.cur, SectionLevel);
  }

  /** The second section closes the first on the page before, and its own
      subsection loop leaves that entry alone. */
  lemma SecondSectionCloses(s1: Scan, a: string, sa: Section, b: string, sb: Section, flat: string, p: int)
    requires a != "" && a != b
    requires Found(SectionLevel, flat, Label(SectionLevel, b, sb.title))
    requires a !in Keys(sb.subsections)
    requires Get(s1.pages, a) == Some(Range(Label(SectionLevel, a, sa.title), p + 1, None))
    requires s1.cur.section == Some(a) && s1.cur.subsection != Some(a)
    ensures var r := Pass(Visit(s1, SectionLevel, b, sb.title, flat, p), SubsectionLevel, SubsectionItems(sb.subsections), flat, p);
      && r.cur.section == Some(b)
      && Get(r.pages, a) == Some(Range(Label(SectionLevel, a, sa.title), p + 1, Some(p)))
  {
    var v := Visit(s1, SectionLevel, b, sb.title, flat, p);
    assert Get(v.pages, a) == Some(Range(Label(SectionLevel, a, sa.title), p + 1, Some(p)));
    var items := SubsectionItems(sb.subsections);
    SubsectionItemKeys(sb.subsections);
    assert CursorAt(v.cur, SubsectionLevel) != Some(a);
    PassKeepsOther(v, SubsectionLevel, items, flat, p, a);
    var r := Pass(v, SubsectionLevel, items, flat, p);
    assert CursorAt(r.cur, SectionLevel) == CursorAt(v.cur, SectionLevel);
  }

  /** A subsection is looked for even when its section's heading is not on
      the page: it can become current under a section that never opened. */
  lemma SubsectionWithoutSection(s: Scan, id: string, sec: Section, flat: string, p: int)
    requires !Found(SectionLevel, flat, Label(SectionLevel, id, sec.title))
    ensures var r := SectionPass(s, [(id, sec)], flat, p);
      var items := SubsectionItems(sec.subsections);
      var i := LastFound(SubsectionLevel, items, flat);
      && r.cur.section == s.cur.section
      && (i >= 0 ==>
            && r.cur.subsection == Some(items[i].0)
            && Get(r.pages, items[i].0) == Some(Range(items[i].0 + " " + items[i].1, p + 1, None)))
  {
    assert [(id, sec)][..0] == [];
    var items := SubsectionItems(sec.subsections);
    PassLeavesLastFound(s, SubsectionLevel, items, flat, p);
    assert CursorAt(Pass(s, SubsectionLevel, items, flat, p).cur, SectionLevel) == CursorAt(s.cur, SectionLevel);
  }

  /** Until a chapter heading has been found, a page on which none is found
      changes nothing: sections are only looked for inside a current
      chapter. */
  lemma NoChapterNoChange(structure: Structure, s: Scan, flat: string, p: int)
    requires ChapterKnown(structure, s.cur) && !Truthy(s.cur.chapter)
    requires LastFound(ChapterLevel, ChapterItems(structure), flat) < 0
    ensures ScanPage(structure, s, flat, p) == s
  {
    PassLeavesLastFound(s, ChapterLevel, ChapterItems(structure), flat, p);
  }

  // ---------------------------------------------------------------------
  // Only pages from `start_page` on are read

  /** The scan up to page `n` reads only the pages `first .. n-1`. */
  lemma {:induction false} ScanThroughReadsFrom(structure: Structure, f1: seq<string>, f2: seq<string>, first: nat, n: nat)
    requires first <= n <= |f1| && n <= |f2|
    requires forall i :: first <= i < n ==> f1[i] == f2[i]
    ensures ScanThrough(structure, f1, first, n) == ScanThrough(structure, f2, first, n)
    decreases n
  {
    if n > first {
      ScanThroughReadsFrom(structure, f1, f2, first, n - 1);
      assert f1[n - 1] == f2[n - 1];
    }
  }

  /** Pages before `start_page` do not affect the result. */
  lemma FindPagesReadsFrom(structure: Structure, d1: seq<string>, d2: seq<string>, startPage: int)
    requires startPage >= 1 && |d1| == |d2|
    requires forall i :: startPage - 1 <= i < |d1| ==> d1[i] == d2[i]
    ensures FindPages(structure, d1, startPage) == FindPages(structure, d2, startPage)
  {
    FlattenAllAgree(d1, d2, startPage - 1);
    PagesFromReadsFrom(structure, FlattenAll(d1), FlattenAll(d2), startPage);
  }

  lemma PagesFromReadsFrom(structure: Structure, f1: seq<string>, f2: seq<string>, startPage: int)
    requires startPage >= 1 && |f1| == |f2|
    requires forall i :: startPage - 1 <= i < |f1| ==> f1[i] == f2[i]
    ensures PagesFrom(structure, f1, startPage) == PagesFrom(structure, f2, startPage)
  {
    ScanAllReadsFrom(structure, f1, f2, startPage - 1);
  }

  lemma FlattenAllAgree(d1: seq<string>, d2: seq<string>, first: nat)
    requires |d1| == |d2|
    requires forall i :: first <= i < |d1| ==> d1[i] == d2[i]
    ensures forall i :: first <= i < |d1| ==> FlattenAll(d1)[i] == FlattenAll(d2)[i]
  {
  }

  lemma ScanAllReadsFrom(structure: Structure, f1: seq<string>, f2: seq<string>, first: nat)
    requires |f1| == |f2|
    requires forall i :: first <= i < |f1| ==> f1[i] == f2[i]
    ensures ScanAll(structure, f1, first) == ScanAll(structure, f2, first)
  {
    if first < |f1| {
      ScanThroughReadsFrom(structure, f1, f2, first, |f1|);
    }
  }

  // ---------------------------------------------------------------------
  // What one node test and the final closing record

  /** Each level's search, stated as occurrences in the page text: a chapter
      needs its upper-cased title and the word `ГЛАВА`, a section its
      upper-cased `"<id> <title>"`, a subsection `"<id> <title>"` in any
      case. */
  lemma FoundMeans(l: Level, flat: string, id: string, title: string)
    ensures Found(l, flat, Label(l, id, title)) <==>
      match l
      case ChapterLevel =>
        (exists i :: OccursAt(flat, Upper(title), i)) && (exists j :: OccursAt(flat, ChapterWord, j))
      case SectionLevel => exists i :: OccursAt(flat, Upper(id + " " + title), i)
      case SubsectionLevel => exists i :: OccursAt(Upper(flat), Upper(id + " " + title), i)
  {
    match l
    case ChapterLevel =>
      assert Found(l, flat, Label(l, id, title)) == (Contains(flat, Upper(title)) && Contains(flat, ChapterWord));
      ContainsOccurs(flat, Upper(title));
      ContainsOccurs(flat, ChapterWord);
    case SectionLevel =>
      assert Found(l, flat, Label(l, id, title)) == Contains(flat, Upper(id + " " + title));
      ContainsOccurs(flat, Upper(id + " " + title));
    case SubsectionLevel =>
      assert Found(l, flat, Label(l, id, title)) == Contains(Upper(flat), Upper(id + " " + title));
      ContainsOccurs(Upper(flat), Upper(id + " " + title));
  }

  /** A node whose heading the page shows gets the range `{heading, p + 1,
      None}` and becomes its level's current node; one whose heading is
      absent changes nothing. Other levels' cursors never move. */
  lemma VisitRecords(s: Scan, l: Level, id: string, title: string, flat: string, p: int)
    ensures var r := Visit(s, l, id, title, flat, p);
      && (Found(l, flat, Label(l, id, title)) ==>
            Get(r.pages, id) == Some(Range(Label(l, id, title), p + 1, None)) && CursorAt(r.cur, l) == Some(id))
      && (!Found(l, flat, Label(l, id, title)) ==> r == s)
      && forall l' :: l' != l ==> CursorAt(r.cur, l') == CursorAt(s.cur, l')
  {
  }

  /** The final closing gives every non-blank current node that has a range
      the last page as its end; every other range is left as it was. */
  lemma FinishSetsTotal(s: Scan, total: int, k: string)
    ensures Keys(Finish(s, total)) == Keys(s.pages)
    ensures k != "" && IsCurrent(s.cur, k) && k in Keys(s.pages) ==>
      Get(Finish(s, total), k) == Some(Get(s.pages, k).value.(end := Some(total)))
    ensures !(k != "" && IsCurrent(s.cur, k)) ==> Get(Finish(s, total), k) == Get(s.pages, k)
  {
  }

  // ---------------------------------------------------------------------
  // Which identifiers the scan records

  /** The identifiers of a chapter's sections, each followed by those of its
      subsections. */
  function SectionNodeIds(d: Dict<string, Section>): seq<string>
  {
    if |d| == 0 then []
    else
      var n := |d| - 1;
      SectionNodeIds(d[..n]) + [d[n].0] + Keys(d[n].1.subsections)
  }

  /** Every identifier of the structure, at any level. */
  function NodeIds(structure: Structure): seq<string>
  {
    if |structure| == 0 then []
    else
      var n := |structure| - 1;
      NodeIds(structure[..n]) + [structure[n].0] + SectionNodeIds(structure[n].1.sections)
  }

  /** The section and subsection identifiers of the chapter `c` when it is
      a truthy chapter of the structure. */
  function CurrentSectionIds(structure: Structure, c: Option<string>): seq<string>
  {
    if Truthy(c) && c.value in Keys(structure) then SectionNodeIds(Get(structure, c.value).value.sections) else []
  }

  /** The ranges only grow: earlier keys keep their place, and a new key is
      the tested node's. */
  lemma VisitKeys(s: Scan, l: Level, id: string, title: string, flat: string, p: int)
    ensures var r := Visit(s, l, id, title, flat, p);
      Keys(s.pages) <= Keys(r.pages) && forall k :: k in Keys(r.pages) ==> k in Keys(s.pages) || k == id
  {
  }

  /** A loop over one level adds only keys of its own nodes. */
  lemma {:induction false} PassKeys(s: Scan, l: Level, items: Items, flat: string, p: int)
    ensures var r := Pass(s, l, items, flat, p);
      Keys(s.pages) <= Keys(r.pages) && forall k :: k in Keys(r.pages) ==> k in Keys(s.pages) || k in Keys(items)
  {
    if |items| > 0 {
      var n := |items| - 1;
      PassKeys(s, l, items[..n], flat, p);
      VisitKeys(Pass(s, l, items[..n], flat, p), l, items[n].0, items[n].1, flat, p);
      ItemKeys(items);
    }
  }

  /** The section loop adds only keys of the sections and their subsections. */
  lemma {:induction false} SectionPassKeys(s: Scan, sections: Dict<string, Section>, flat: string, p: int)
    ensures var r := SectionPass(s, sections, flat, p);
      Keys(s.pages) <= Keys(r.pages) && forall k :: k in Keys(r.pages) ==> k in Keys(s.pages) || k in SectionNodeIds(sections)
  {
    if |sections| > 0 {
      var n := |sections| - 1;
      SectionPassKeys(s, sections[..n], flat, p);
      SectionStepKeys(SectionPass(s, sections[..n], flat, p), sections[n], flat, p);
    }
  }

  lemma SectionStepKeys(s: Scan, e: (string, Section), flat: string, p: int)
    ensures var r := Pass(Visit(s, SectionLevel, e.0, e.1.title, flat, p), SubsectionLevel,
                          SubsectionItems(e.1.subsections), flat, p);
      Keys(s.pages) <= Keys(r.pages)
      && forall k :: k in Keys(r.pages) ==> k in Keys(s.pages) || k == e.0 || k in Keys(e.1.subsections)
  {
    VisitKeys(s, SectionLevel, e.0, e.1.title, flat, p);
    PassKeys(Visit(s, SectionLevel, e.0, e.1.title, flat, p), SubsectionLevel, SubsectionItems(e.1.subsections), flat, p);
    SubsectionItemKeys(e.1.subsections);
  }

  /** One page adds only keys of chapters and of the sections and
      subsections of the chapter that is current after the chapter loop. */
  lemma ScanPageKeys(structure: Structure, s: Scan, flat: string, p: int)
    requires ChapterKnown(structure, s.cur)
    ensures var s1 := Pass(s, ChapterLevel, ChapterItems(structure), flat, p);
      var r := ScanPage(structure, s, flat, p);
      && Keys(s.pages) <= Keys(r.pages)
      && forall k :: k in Keys(r.pages) ==>
           k in Keys(s.pages) || k in Keys(structure) || k in CurrentSectionIds(structure, s1.cur.chapter)
  {
    var s1 := Pass(s, ChapterLevel, ChapterItems(structure), flat, p);
    PassKeys(s, ChapterLevel, ChapterItems(structure), flat, p);
    ChapterItemKeys(structure);
    if Truthy(s1.cur.chapter) {
      SectionPassKeys(s1, Get(structure, s1.cur.chapter.value).value.sections, flat, p);
    }
  }

  /** A chapter's identifier and those below it are identifiers of the
      structure. */
  lemma {:induction false} ChapterIdsInNodeIds(structure: Structure, i: nat)
    requires i < |structure|
    ensures structure[i].0 in NodeIds(structure)
    ensures forall k :: k in SectionNodeIds(structure[i].1.sections) ==> k in NodeIds(structure)
  {
    var n := |structure| - 1;
    if i < n {
      ChapterIdsInNodeIds(structure[..n], i);
    }
  }

  lemma CurrentIdsInNodeIds(structure: Structure, c: Option<string>)
    ensures forall k :: k in CurrentSectionIds(structure, c) ==> k in NodeIds(structure)
    ensures forall k :: k in Keys(structure) ==> k in NodeIds(structure)
  {
    forall k | k in Keys(structure) ensures k in NodeIds(structure) {
      KeysOfPrefix(structure, 0);
      var i :| 0 <= i < |structure| && Keys(structure)[i] == k;
      ChapterIdsInNodeIds(structure, i);
    }
    if Truthy(c) && c.value in Keys(structure) {
      var ch := Get(structure, c.value).value;
      var i :| 0 <= i < |structure| && structure[i] == (c.value, ch);
      ChapterIdsInNodeIds(structure, i);
    }
  }

  /** The scan records only identifiers of the structure. */
  lemma {:induction false} ScanThroughKeys(structure: Structure, flats: seq<string>, first: nat, n: nat)
    requires first <= n <= |flats|
    ensures forall k :: k in Keys(ScanThrough(structure, flats, first, n).pages) ==> k in NodeIds(structure)
    decreases n
  {
    if n > first {
      ScanThroughKeys(structure, flats, first, n - 1);
      ScanPageKeepsKeys(structure, ScanThrough(structure, flats, first, n - 1), flats[n - 1], n - 1);
    }
  }

  lemma ScanPageKeepsKeys(structure: Structure, s: Scan, flat: string, p: int)
    requires ChapterKnown(structure, s.cur)
    requires forall k :: k in Keys(s.pages) ==> k in NodeIds(structure)
    ensures forall k :: k in Keys(ScanPage(structure, s, flat, p).pages) ==> k in NodeIds(structure)
  {
    ScanPageKeys(structure, s, flat, p);
    CurrentIdsInNodeIds(structure, Pass(s, ChapterLevel, ChapterItems(structure), flat, p).cur.chapter);
  }

  /** `find_pages_for_structure` returns ranges only for identifiers of the
      structure. */
  lemma FindPagesKeys(structure: Structure, doc: seq<string>, startPage: int)
    requires startPage >= 1
    ensures forall k :: k in Keys(FindPages(structure, doc, startPage)) ==> k in NodeIds(structure)
  {
    ScanAllKeys(structure, FlattenAll(doc), startPage - 1);
    FinishSetsTotal(ScanAll(structure, FlattenAll(doc), startPage - 1), |doc|, "");
  }

  lemma ScanAllKeys(structure: Structure, flats: seq<string>, first: nat)
    ensures forall k :: k in Keys(ScanAll(structure, flats, first).pages) ==> k in NodeIds(structure)
  {
    if first < |flats| {
      ScanThroughKeys(structure, flats, first, |flats|);
    }
  }

  // ---------------------------------------------------------------------
  // Helpers about the item lists

  lemma ItemKeys(items: Items)
    requires |items| > 0
    ensures forall k :: k in Keys(items[..|items| - 1]) ==> k in Keys(items)
    ensures items[|items| - 1].0 in Keys(items)
  {
    KeysOfPrefix(items, |items| - 1);
  }

  lemma {:induction false} KeysOfPrefix<V>(d: Dict<string, V>, n: nat)
    requires n <= |d|
    ensures Keys(d[..n]) == Keys(d)[..n]
    ensures Keys(d)[n..] == Keys(d[n..])
    ensures forall i :: 0 <= i < |d| ==> Keys(d)[i] == d[i].0
  {
    if |d| > 0 {
      KeysOfPrefix(d[1..], if n == 0 then 0 else n - 1);
      if n > 0 {
        assert d[..n] == [d[0]] + d[1..][..n - 1];
      }
    }
  }

  lemma ChapterItemKeys(d: Structure)
    ensures Keys(ChapterItems(d)) == Keys(d)
  {
    KeysOfPrefix(ChapterItems(d), 0);
    KeysOfPrefix(d, 0);
  }

  lemma SubsectionItemKeys(d: Dict<string, Subsection>)
    ensures Keys(SubsectionItems(d)) == Keys(d)
  {
    KeysOfPrefix(SubsectionItems(d), 0);
    KeysOfPrefix(d, 0);
  }
}
