# fitz_script in Dafny

fitz_script consists of two Python scripts that turn a PDF manual into a JSON tree of its contents.

- `structure.py` folds the PDF outline, a list of `(level, title, page)` entries, into a three-level structure. Chapters own sections and sections own subsections. Each level is a dictionary keyed by the node's identifier. The fold uses three cursors and a `was_chapter` flag:
  - a level-1 entry titled `Глава <n>` is a chapter marker;
  - the next level-1 entry names that chapter;
  - level-2 and level-3 entries whose stripped title has `.` as its second character become sections and subsections.
- `filling_structure.py` first scans the pages from `start_page` on and records, for every chapter, section and subsection whose heading appears on a page, a page range `{title, start_page, end_page}`. All three levels share one flat dictionary. A second pass then writes the text of each closed range into the node's `text` field.

This project models both passes as pure functions over immutable data and proves what they promise.

- A Python dict is an association list kept in insertion order. Assigning to an existing key keeps its position (`OrderedMap`).
- `str.split()`, `str.strip()`, `str.startswith`, `str.splitlines()`, `str.upper()` and `sep.join` are written out character by character (`Text`).
- `re.search(re.escape(p), t)` is a substring test.
- Python's truthiness of an identifier (`None` and `""` are false) is `Common.Truthy`.

Modules:

| module | models |
|---|---|
| `Common` | `Option`, truthiness |
| `OrderedMap` | insertion-ordered dict: `Keys`, `Get`, `Put` |
| `Text` | the string builtins and a page's flattening |
| `Hierarchy` | the structure records, `add_chapter`, `add_section`, `add_subsection` |
| `TocBuilder` | the outline fold of `extract_text_from_pdf` |
| `PageScan` | `find_pages_for_structure` |
| `TextExtract` | `extract_text_for_structure` and the script's two calls |

The PDF is replaced by data:
- the outline is the input `seq<TocEntry>`;
- the document is `doc`, the sequence of page texts (`page.get_text("text")` of page `i` is `doc[i]`).

When the fold's indexing raises `IndexError` (`title.split()[0]` or `title.strip()[1]` on a title too short), the fold returns `IndexError(at)`. The value names the outline entry that raised it, so the error is modelled rather than excluded.

## Model

| member | source | states |
|---|---|---|
| OrderedMap.Put | structure.py:8 | Dict assignment: the key gets the value. Every other key keeps its value. A new key is appended to the key order and an existing one keeps its place. No identifier repeats if none did before. |
| OrderedMap.Get | structure.py:11 | Lookup succeeds exactly for the keys in the dict, and returns a value stored under that key. |
| Text.Split | structure.py:44 | `split()` yields only non-empty runs without whitespace. It yields nothing exactly when the string is blank. |
| Text.SplitAtBlank | structure.py:44 | Any whitespace character cuts `split()` in two: the string before it and the string after it are split independently and the results concatenated. |
| Text.SplitToken | structure.py:44 | A single run of non-space characters splits to itself alone. With `Text.SplitAtBlank` this fixes every element of the split, not only its shape. |
| Text.Strip | structure.py:45 | `strip()` is a prefix of the left-stripped string and drops only whitespace from its end. It is empty exactly when the string is blank, and otherwise starts and ends with non-space characters. |
| Text.LStrip | structure.py:45 | The suffix of the string after its leading whitespace; everything dropped is whitespace. |
| Text.RStrip | structure.py:45 | The prefix of the string before its trailing whitespace; everything dropped is whitespace. |
| Text.StartsWithIsPrefix | structure.py:36 | `startswith` holds exactly when the pattern is a prefix of the title. |
| Text.LastTokenIsTrailingRun | structure.py:38 | `title.split()[-1]` of a non-blank title is its last run of non-space characters: it follows the start or a blank, and only whitespace follows it. |
| Text.SplitJoinRoundTrip | structure.py:46 | Joining tokens with single spaces and splitting again gives back the tokens. |
| Text.ContainsOccurs | filling_structure.py:33 | The substring search succeeds exactly when the needle occurs at some position of the page text. |
| Text.SplitLines | filling_structure.py:27 | `splitlines()` yields lines that contain no line break. |
| Text.SplitLinesRoundTrip | filling_structure.py:27 | Joining line-break-free lines with `"\n"`, with a non-empty last line, and splitting again gives back the lines. |
| Text.SplitLinesJoin | filling_structure.py:27 | A text whose only line breaks are `"\n"`, and which does not end with one, is its `splitlines()` joined back with `"\n"`. |
| Text.SplitLinesTerminated | filling_structure.py:27 | Line-break-free lines joined with `"\n"` and ending with a final `"\n"`, as page text usually does, split back into exactly those lines; the final terminator does not start an empty line. |
| Text.FlattenIsOneLine | filling_structure.py:27-28 | A page joined from its stripped lines holds no line break. |
| Text.FlattenOneLine | filling_structure.py:27-28 | A page of a single line flattens to that line stripped. |
| Text.JoinConcat | filling_structure.py:85 | Joining two non-empty lists is joining each one and putting one separator between them. |
| Hierarchy.AddChapterSpec | structure.py:7-8 | `add_chapter` replaces the chapter by one with the given title and no sections, discarding any earlier record. No other chapter changes, and the key order changes only by appending a new id. |
| Hierarchy.AddSectionSpec | structure.py:10-13 | A missing chapter is first created as `"Chapter <id>"`; an existing one keeps its title and text. The section is installed with no subsections, replacing any earlier one. A new section id is appended to the chapter's key order and an existing one keeps its place; a placeholder chapter holds just that id. The chapter's other sections and all other chapters are unchanged. |
| Hierarchy.AddSubsectionSpec | structure.py:15-17 | A no-op unless both the chapter and the section exist. Otherwise exactly that subsection is set: a new id is appended to the section's subsection order and an existing one keeps its place. The chapter and section keep titles, texts and key order, and everything else is unchanged. |
| TocBuilder.Step | structure.py:34-51 | One iteration fails exactly when a level-2 entry under a current chapter, or a level-3 entry under a current section, has a stripped title shorter than 2 characters. It keeps the cursor invariant: `was_chapter` is set iff a chapter id is, and a section cursor implies a chapter cursor. |
| TocBuilder.ChapterEntry | structure.py:35-41 | A level-1 entry keeps the cursor invariant; the marker always leaves a non-empty chapter id. |
| TocBuilder.SectionEntry | structure.py:43-46 | A level-2 entry under a current chapter fails exactly when its stripped title is shorter than 2 characters, and keeps the cursor invariant otherwise. |
| TocBuilder.SubsectionEntry | structure.py:48-51 | A level-3 entry under a current section fails exactly when its stripped title is shorter than 2 characters, and keeps the cursor invariant otherwise. |
| TocBuilder.OtherLevelsIgnored | structure.py:34-51 | An entry whose level is not 1, 2 or 3 changes nothing. |
| TocBuilder.MarkerStep | structure.py:35-39 | A `Глава` entry registers no chapter. It sets the chapter cursor to the title's last token and enables chapter registration. |
| TocBuilder.TitleBeforeMarkerIgnored | structure.py:35-41 | A level-1 entry before any marker changes nothing. |
| TocBuilder.ChapterTitleStep | structure.py:40-41 | After a marker, a non-marker level-1 entry (re)registers the current chapter with this title and no sections. All three cursors, `was_chapter` and all other chapters are unchanged. The chapter keeps its place in the key order, or is appended when new. |
| TocBuilder.SectionEntryStep | structure.py:43-46 | A level-2 entry under a current chapter always moves the section cursor to the title's first token and leaves the other cursors alone. It adds the section (title = the remaining tokens joined by spaces) only when the stripped title's second character is `.`. |
| TocBuilder.NumberedSectionStep | structure.py:43-46 | A level-2 entry `"<id> <w1> … <wn>"` (n ≥ 1 words, single spaces) with `id` of the form `N.…` makes `id` current and calls `add_section` under the current chapter with the words joined by single spaces as the title. |
| TocBuilder.SubsectionEntryStep | structure.py:48-51 | A level-3 entry under a current section moves the subsection cursor to the first token. It calls `add_subsection` only when the numbering test passes, and leaves the other cursors alone. |
| TocBuilder.NumberedFirstToken | structure.py:44-45 | The numbering test on the stripped title is the same as "the first token has `.` as its second character". |
| TocBuilder.BuildFrom | structure.py:34-51 | The loop raises only at a level-2/3 entry with a too-short title, and cannot raise when there is none. It keeps the structure's guarantees. |
| TocBuilder.Build | structure.py:27-53 | The outline fold fails only at a level-2/3 entry with a too-short title, and never when there is none. A finished structure has unique ids at every level, non-empty chapter ids, and section and subsection ids of the form `N.…`. |
| TocBuilder.AddChapterKeepsValid | structure.py:7-8 | `add_chapter` with a non-empty id keeps the structure's guarantees. |
| TocBuilder.AddSectionKeepsValid | structure.py:10-13 | `add_section` with a numbered id keeps the guarantees, including when it creates the placeholder chapter. |
| TocBuilder.AddSubsectionKeepsValid | structure.py:15-17 | `add_subsection` with a numbered id keeps the guarantees. |
| TocBuilder.StepKeepsValid | structure.py:34-51 | Every loop iteration keeps the guarantees. |
| TocBuilder.ValidIdsNonEmpty | structure.py:38-49 | No identifier of a structure the fold builds is blank. |
| TocBuilder.NoMarkerNoChapters | structure.py:35-41 | An outline without a `Глава` entry yields the empty structure, whatever else it holds. |
| TocBuilder.IntroductionScenario | structure.py:35-41 | `[(1,"Глава 1"),(1,"Introduction")]` yields one chapter `"1"` titled `Introduction`. |
| TocBuilder.PlaceholderThenOverwriteScenario | structure.py:7-13 | A section before the chapter's title entry creates the placeholder `"Chapter 2"`. The title entry that follows replaces it and drops the section. |
| TocBuilder.RetitleOnlyChapter | structure.py:40-41 | A chapter title entry over a one-chapter structure leaves exactly that chapter, retitled and without sections. |
| PageScan.Close | filling_structure.py:34-35 | Closing a truthy current id that has a range sets only its `end_page`. Nothing else changes, and neither do the keys. |
| PageScan.Open | filling_structure.py:34-37 | A heading found on 0-based page `p`: the level's previous current node is closed at `p`, or at `p + 1` for a subsection. The new node gets `{heading, p + 1, None}` and becomes current. A blank or unrecorded previous node is not touched. The other levels' cursors and all other ranges are unchanged. The key order only gains the new id at the end. |
| PageScan.FoundMeans | filling_structure.py:32-52 | The three searches as occurrences in the page text: a chapter needs its upper-cased title and `ГЛАВА`, a section its upper-cased `"<id> <title>"`, and a subsection `"<id> <title>"` in any case. |
| PageScan.VisitRecords | filling_structure.py:33-37 | A node whose heading is found gets the range `{heading, p + 1, None}` and becomes current at its level. A node not found changes nothing, and the other levels' cursors never move. |
| PageScan.Pass | filling_structure.py:31-37 | A loop over one level leaves the other levels' cursors alone. Its own cursor is unchanged or one of the loop's ids. |
| PageScan.SectionPass | filling_structure.py:41-56 | The section and subsection loops never move the chapter cursor. |
| PageScan.ScanPage | filling_structure.py:31-56 | After a page, the current chapter is a chapter of the structure, so `structure[current_chapter]` cannot fail. |
| PageScan.ScanThrough | filling_structure.py:24-56 | After any number of pages, the current chapter is a chapter of the structure. |
| PageScan.FindPages | filling_structure.py:17-66 | With fewer pages than `start_page`, the result is empty. |
| PageScan.LastFound | filling_structure.py:31-37 | Reference definition: the last node whose heading the page shows, or none. |
| PageScan.PassLeavesLastFound | filling_structure.py:31-37 | A loop over one level leaves current the last node found on the page, with its range `{heading, p + 1, None}`. When no node is found, the loop changes nothing. |
| PageScan.SamePageTwice | filling_structure.py:31-37 | Two nodes tested by one level loop and both found on the same page: the first is closed as soon as it opens. For the chapter loop, the first chapter then ends the page before its own start. Within one section's subsection loop, the first subsection ends on its start page. |
| PageScan.SectionsSamePage | filling_structure.py:41-56 | Two sections both found on the same page: the first ends the page before its own start and the second is current. This holds when no subsection loop in between touches the first section's entry: no subsection of either section shares its id, and the current subsection is not that id. Because `pages` is one dictionary, such a subsection would reopen or close the section's entry instead. |
| PageScan.SectionPassLeavesLastSubsection | filling_structure.py:41-56 | The subsection loops of successive sections share one `current_subsection`. After a chapter's section loop, the current subsection is the last subsection found across all sections' lists, taken in order. When none is found, it stays where it was. |
| PageScan.LastFoundConcat | filling_structure.py:41-56 | Reference fact behind the shared cursor: the last node found in two lists tested one after the other is the last found in the second list, or, failing that, the last found in the first. |
| PageScan.SubsectionWithoutSection | filling_structure.py:41-56 | Subsections are searched even when their section's heading is absent. They can become current while the section cursor stays where it was. |
| PageScan.NoChapterNoChange | filling_structure.py:31-40 | Before any chapter is found, a page without a chapter heading changes nothing. |
| PageScan.OpenKeepsInv | filling_structure.py:34-37 | Opening a node keeps every range within the pages scanned. Every open range stays a current node or the blank id. |
| PageScan.PassKeepsInv | filling_structure.py:31-37 | The chapter loop keeps that invariant. |
| PageScan.SectionPassLeavesLastSection | filling_structure.py:41-56 | The section loop leaves current the last section of the current chapter whose heading the page shows, whatever its subsection loops do. When none is found, the section cursor stays where it was. |
| PageScan.SectionPassKeepsInv | filling_structure.py:41-56 | The section and subsection loops keep that invariant. |
| PageScan.ScanPageKeepsInv | filling_structure.py:31-56 | One page keeps that invariant. |
| PageScan.ScanThroughKeepsInv | filling_structure.py:24-56 | After pages `first .. n-1`, every range starts in `first+1 .. n` and, if closed, ends between its start minus one and `n`. Every open range belongs to a current node or the blank id. |
| PageScan.ScanThroughNoBlank | filling_structure.py:24-56 | Without blank ids in the structure, the blank id is never recorded. |
| PageScan.ScanAllKeepsInv | filling_structure.py:24-56 | After the page loop, every range starts in `start_page .. total_pages` and every open range belongs to a current node or the blank id. This also covers a `start_page` past the last page. |
| PageScan.ScanAllNoBlank | filling_structure.py:24-56 | Without blank ids in the structure, the page loop never records the blank id. |
| PageScan.FinishSetsTotal | filling_structure.py:59-64 | The final closing sets `end_page = total_pages` on every non-blank current node that has a range. It leaves every other range, and the key order, as it was. |
| PageScan.FinishInRange | filling_structure.py:59-64 | The final closing keeps every range within bounds. |
| PageScan.FinishCloses | filling_structure.py:59-64 | When only current nodes are open and none is blank, the final closing leaves no range open. |
| PageScan.FindPagesBounds | filling_structure.py:24-64 | Every returned range has `start_page <= start <= total_pages`. When closed, it has `start - 1 <= end <= total_pages` and `start_page - 1 <= end`. `start <= end` is not claimed. |
| PageScan.FindPagesAllClosed | filling_structure.py:34-64 | With no blank identifier in the structure, no returned range has a null `end_page`. |
| PageScan.PassKeys | filling_structure.py:31-37 | A loop over one level keeps the earlier keys in order and adds only ids of its own nodes. |
| PageScan.SectionPassKeys | filling_structure.py:41-56 | The section loop adds only ids of the current chapter's sections and their subsections. |
| PageScan.ScanPageKeys | filling_structure.py:31-56 | One page adds only chapter ids and ids of sections and subsections of the chapter current after the chapter loop. Earlier keys keep their order. |
| PageScan.ScanThroughKeys | filling_structure.py:24-56 | The scan records only ids of the structure. |
| PageScan.FindPagesKeys | filling_structure.py:17-66 | Every returned range belongs to an id of the structure, at some level. |
| PageScan.FindPagesReadsFrom | filling_structure.py:24-28 | Pages before `start_page` do not affect the result. |
| PageScan.ScanThroughReadsFrom | filling_structure.py:24-28 | The scan up to page `n` depends only on the pages `first .. n-1`. |
| TextExtract.ExtractText | filling_structure.py:75-111 | Same chapters in the same order. Each chapter's text is computed from its own id's range, and its sections are processed the same way. |
| TextExtract.ExtractSections | filling_structure.py:88-111 | Same sections in the same order; each gets the text of its own id's range, and its subsections are processed too. |
| TextExtract.ExtractSubsections | filling_structure.py:101-111 | Same subsections in the same order; each gets the text of its own id's range. |
| TextExtract.NodeTextCases | filling_structure.py:76-85 | A node whose id has a closed range gets the pages `start-1 .. end-1` joined by `"\n"`. A node whose id is absent or still open keeps its text. |
| TextExtract.ExtractKeepsShape | filling_structure.py:75-111 | The text pass changes no identifier, title, order or nesting, only `text` fields. |
| TextExtract.ExtractIdempotent | filling_structure.py:75-111 | Running the text pass a second time with the same ranges changes nothing. |
| TextExtract.SharedIdSharedText | filling_structure.py:76-98 | A chapter and one of its sections with the same id read the same range and get the same text. |
| TextExtract.PageTextSingle | filling_structure.py:82-85 | A one-page range is exactly that page's text. |
| TextExtract.PageTextSplit | filling_structure.py:82-85 | Splitting a range after page `m` splits its text at one `"\n"`. |
| TextExtract.PagesFiveToSeven | filling_structure.py:82-85 | Pages 5 to 7 give the three page texts joined by two line breaks. |
| TextExtract.PageTextLines | filling_structure.py:82-85 | With line-break-free pages and a non-empty last page, the range's text splits back into its pages. |
| TextExtract.FindPagesLoadable | filling_structure.py:82-83 | Every range the scan returns is empty or lies within the document, so no `load_page` fails. |
| TextExtract.FillStructure | filling_structure.py:121-123 | The script's two passes change no identifier, title, order or nesting. |
| TextExtract.ClosedRangesGiveText | filling_structure.py:76-85 | With all ranges closed, a chapter gets a text exactly when its id is in the map. Otherwise it keeps its own text. |
| TextExtract.FoundChaptersGetText | filling_structure.py:121-123 | With no blank ids, every chapter the scan found gets a text and every other chapter keeps the one it had. |
| TextExtract.BuiltStructureAllClosed | filling_structure.py:59-64 | For any structure the outline fold builds, every range the scan returns is closed. |

## Left out

- Opening the PDF, `doc.get_toc()`, `load_page`/`get_text`, the `fitz.open` failure branches (which print and return `{}`/`None`), JSON load and save, and every `print`: the outline and the page texts are inputs.
- The `page` field of an outline entry is carried in `TocEntry` but never read, as in the source.
- The structure is returned, not mutated in place. The text pass likewise returns the updated structure.
- Text.Upper: upper-cases ASCII and the basic Cyrillic alphabet only. Other scripts and special cases such as `ß` → `SS` are not modelled, and the document's headings are Russian.
- Text.ContainsIgnoreCase: `re.IGNORECASE` is modelled as containment after upper-casing both sides; Unicode simple case folding is approximated by that.
- Text.Contains: `re.search(re.escape(p), t)` is modelled as plain substring search. The regular-expression engine is not modelled.
- PageScan.FindPages: requires `start_page >= 1`. With a smaller value, `range(start_page - 1, …)` would pass negative indices to `load_page`, which PyMuPDF resolves from the end; that is not modelled.
- PageScan.ScanPage: requires the current chapter to be one of the structure's chapters. The scan only ever sets it to one, so this is an invariant of the loop, not a restriction on callers.
- TextExtract.ExtractText: requires every closed range to be empty or within the document (`AllLoadable`). A range past the last page would make `load_page` raise. A range starting at page 0 or lower would pass negative indices, which PyMuPDF resolves from the end of the document; neither case is modelled. `FindPagesLoadable` shows that ranges from the scan always qualify.
- TocBuilder.Step: an `IndexError` from `split()[0]` or `strip()[1]` is returned as `IndexError(at)` instead of propagating as an exception. Both raise on the same inputs, so the two are not told apart.
- PageScan.FindPagesAllClosed: holds only when no identifier is the empty string. The source skips closing a blank current id (`if current_chapter and …`), so a blank id's range keeps a null `end_page`. The outline fold never produces a blank id (`BuiltStructureAllClosed`).
