# NTU timetable spider, modelled in Dafny

This project models the page transformer of the `ntu_timetables` Scrapy spider. The spider reads one class-schedule page of the university's course system, a flat list of top-level HTML tables. It turns the page into module records: a module code, an ordered list of remarks and a deduplicated list of lessons. Each lesson has a type, class number, day, start and end time, venue and weeks.

The HTML is abstracted away.

- A page is a sequence of `Table` values. Each table has a `hasBorder` flag (the `border` attribute that marks a lesson grid) and a sequence of rows.
- A row is a sequence of `Cell` values.
- A cell keeps only the text nodes the spider queries: its bold texts, its direct `td` texts and its `font` texts.

Every place where the spider would raise an `IndexError` is a `ParseError` value in a `Result`. The generator `parse` becomes a driver that returns the records yielded before the first failure, together with that failure if there is one.

Modules:

- `Page` (page.dfy): the abstract page, the `Lesson` and `ModuleRecord` items, `GetText`, Python's `s[n:]` slice (`Tail`) and `''.join`.
- `TitleMarkers` (smallprint.dfy): `getSmallprint`, the remark built from the `*`, `^` and `#` markers of a module title.
- `Lessons` (lessons.dfy): `getUid`, the class-number correction, the time split on `-`, and `parseLesson`.
- `Dedup` (dedup.dfy): the per-module lesson loop with its seen-set of keys.
  - It is proved against `LessonsFrom`.
  - `LessonsFrom` is in turn proved equal to "parse the first occurrence of every key" (`FirstOccurrences`, written without a seen-set).
- `Segmenter` (segmenter.dfy): the `while` loop of `parse` that pairs each module header with the grid after it.
  - It is proved against a functional walk, `Segments`.
- `Extractor` (extractor.dfy):
  - the item loader, as a class whose fields the spider's `add_value` calls append to;
  - `parseHeader`;
  - the placeholder-remarks loop;
  - one iteration of the module loop (`ExtractModule`, proved against `ModuleSpec`);
  - the whole `parse` (`Parse`, proved against `ParseSpec`).

Behaviour kept as the code has it:

- **Header-only groups raise.** A header-only group is emitted when the header is the last table, or when the next table is neither a grid of several rows nor a single-row table. The module loop then indexes `mod[1]` unconditionally (line 129) and raises. The model does the same: `ModuleSpec` gives `Err(NoTimetable)` for such a group, and `HeaderOnlyStopsPage` shows that the page stops there.
- **A one-row candidate drops its header too.** When the table after a header has exactly one row, both tables are skipped and no record is produced for that module (lines 109-110). `OneRowCandidateDropsHeader` states this.
  - Because of these dropped pairs, group sizes do not simply sum to the number of tables. `SegmentsAccount` proves the sum with two tables added per dropped pair.
- **One non-breaking-space text node marks a placeholder.** The placeholder test looks for a `td` text node equal to a single non-breaking space in row 1 (line 132). One such node anywhere in the row is enough; the cells need not all be blank.
- **Smallprint order.** `getSmallprint` lists the phrases of a Python `set`, so their order is not fixed.
  - `Smallprint` takes the order as a parameter: any sequence holding exactly the marked phrases, each once.
  - Its properties are proved for every such order.
  - The header parser uses the canonical order `*`, `^`, `#` (`CanonicalSmallprint`). This is a modelling choice, not something the source fixes.

## Model

| member | source | states |
|---|---|---|
| Page.GetText | scrapy/modify/spiders/ntu_timetables_spider.py:22-26 | the first bold text node of a cell, or "" when there is none |
| Page.RowFonts | scrapy/modify/spiders/ntu_timetables_spider.py:58 | the font texts of a row, cell by cell; the first cell's texts come first |
| Page.RowTexts | scrapy/modify/spiders/ntu_timetables_spider.py:132 | the direct `td` texts of a row, cell by cell; the first cell's texts come first |
| Page.RowFontsHas | scrapy/modify/spiders/ntu_timetables_spider.py:68-69 | a text node is among a row's font texts exactly when one of the row's cells has it (the `'Remark:' in row` test) |
| Page.RowTextsHas | scrapy/modify/spiders/ntu_timetables_spider.py:132 | a text node is among a row's `td` texts exactly when one of the row's cells has it |
| TitleMarkers.MarkedPhrases | scrapy/modify/spiders/ntu_timetables_spider.py:29-35 | each phrase is present exactly when its marker (`*`, `^`, `#`) is in the title; no phrase at all when no marker is present |
| TitleMarkers.MarkedPhrasesOnePerMarker | scrapy/modify/spiders/ntu_timetables_spider.py:29-36 | only the three phrases occur, and none twice (set semantics) |
| TitleMarkers.Smallprint | scrapy/modify/spiders/ntu_timetables_spider.py:28-46 | for any order of the phrase set, no sentence exactly when the title has no marker; otherwise the listing has one phrase per marker present |
| TitleMarkers.Listed | scrapy/modify/spiders/ntu_timetables_spider.py:39-43 | one phrase is stated alone; otherwise the text is at least as long as the last phrase (its full shape is stated by ListedIsEnumeration, its ending by ListedEndsWithLast) |
| TitleMarkers.ListedEndsWithLast | scrapy/modify/spiders/ntu_timetables_spider.py:40-43 | the formatted list always ends with the last phrase (`' and ' + listOfTypes[-1]`, or the phrase alone) |
| TitleMarkers.CanonicalSmallprint | scrapy/modify/spiders/ntu_timetables_spider.py:28-46 | the remark in the canonical order `*`, `^`, `#`: none exactly when the title has no marker |
| TitleMarkers.ListingSamePhrases | scrapy/modify/spiders/ntu_timetables_spider.py:36 | any order of the set holds exactly the phrases of the markers present |
| TitleMarkers.ListedIsEnumeration | scrapy/modify/spiders/ntu_timetables_spider.py:39-43 | joining all but the last phrase with ", " and appending " and " plus the last equals an independently defined English enumeration ("a", "a and b", "a, b and c") |
| TitleMarkers.SmallprintIsEnumeration | scrapy/modify/spiders/ntu_timetables_spider.py:38-46 | when a marker is present, the remark is "Course is available as " followed by the enumeration of the listed phrases, whatever their order |
| TitleMarkers.StarAndHash | scrapy/modify/spiders/ntu_timetables_spider.py:30-41 | a title with `*` and `#` but no `^` gives "Course is available as Unrestricted Elective and General Education Prescribed Elective" (canonical order) |
| TitleMarkers.CanonicalSmallprintDeterminesMarkers | scrapy/modify/spiders/ntu_timetables_spider.py:28-46 | in the canonical order, two titles get the same remark exactly when they carry the same markers |
| Lessons.Uid | scrapy/modify/spiders/ntu_timetables_spider.py:48-52 | the key of a row with at least two cells (fewer make `listOfText[1]` raise, which the lesson loop reports); its content is stated by UidIsKeyCells and UidIgnoresCheckboxAndGroup |
| Lessons.UidIsKeyCells | scrapy/modify/spiders/ntu_timetables_spider.py:48-52 | the key is the join of the texts of every cell except cell 0 and cell 2, in cell order (an index-by-index reference definition) |
| Lessons.UidIgnoresCheckboxAndGroup | scrapy/modify/spiders/ntu_timetables_spider.py:48-52 | rows of equal width that differ only in cells 0 and 2 get the same key |
| Lessons.ClassNumber | scrapy/modify/spiders/ntu_timetables_spider.py:76-77 | the class number; the only failure is an empty lesson type (`row[1][0]`) |
| Lessons.ClassNumberShape | scrapy/modify/spiders/ntu_timetables_spider.py:74-79 | it fails exactly when the group text has one character and the lesson type is empty; a one-character group gets the first character of the lesson type in front; any other group text is kept unchanged |
| Lessons.ClassNumberExample | scrapy/modify/spiders/ntu_timetables_spider.py:76-77 | lesson type "TUT" with group "2" gives class number "T2" |
| Lessons.SplitOn | scrapy/modify/spiders/ntu_timetables_spider.py:81 | Python's `split` on one character: always at least one piece |
| Lessons.SplitOnRoundTrip | scrapy/modify/spiders/ntu_timetables_spider.py:81 | joining the pieces of `split('-')` with `-` gives back the text |
| Lessons.SplitOnCount | scrapy/modify/spiders/ntu_timetables_spider.py:81-83 | the split has a second piece exactly when `-` occurs |
| Lessons.SplitOnPiecesFree | scrapy/modify/spiders/ntu_timetables_spider.py:81 | no piece of the split contains `-` |
| Lessons.SplitOnFirst | scrapy/modify/spiders/ntu_timetables_spider.py:81 | the first piece is the text before the first `-`; the other pieces are the split of the rest |
| Lessons.TimeRange | scrapy/modify/spiders/ntu_timetables_spider.py:81-83 | the start and end times; the only failure is a missing `-` (`timing[1]`) |
| Lessons.TimeRangeSpec | scrapy/modify/spiders/ntu_timetables_spider.py:81-83 | the time cell fails exactly when it has no `-`; otherwise the start is the text before the first `-` and the end is the text after it, up to the next `-` or the end |
| Lessons.TimeRangeRoundTrip | scrapy/modify/spiders/ntu_timetables_spider.py:81-83 | for a text with exactly one `-`, start + "-" + end gives the text back |
| Lessons.TimeRangeExample | scrapy/modify/spiders/ntu_timetables_spider.py:81-83 | "0830-0930" gives start "0830" and end "0930" |
| Lessons.FirstIndex | scrapy/modify/spiders/ntu_timetables_spider.py:81 | the position of the first occurrence of a character that occurs |
| Lessons.ParseLesson | scrapy/modify/spiders/ntu_timetables_spider.py:72-86 | a parsed row has at least seven cells, and a failure is one of: row too short, empty lesson type, no `-` in the time cell |
| Lessons.ParseLessonSpec | scrapy/modify/spiders/ntu_timetables_spider.py:72-86 | a row parses exactly when it has seven cells, a `-` in cell 4, and a non-empty lesson type if the group text has one character; the lesson's fields then come from cells 1 to 6 as stated |
| Dedup.KeptRows | scrapy/modify/spiders/ntu_timetables_spider.py:140-147 | the rows the seen-set loop keeps are rows of the input, and each has a key |
| Dedup.KeptRowsAreFirstOccurrences | scrapy/modify/spiders/ntu_timetables_spider.py:138-147 | the seen-set loop keeps exactly the rows that are the first occurrence of their key, in row order (reference definition without a seen-set) |
| Dedup.KeptRowsDistinct | scrapy/modify/spiders/ntu_timetables_spider.py:143-145 | no two kept rows share a key, and no kept row has a key seen before |
| Dedup.KeptRowsCoverKeys | scrapy/modify/spiders/ntu_timetables_spider.py:143-147 | every key of the input is the key of a kept row: one lesson per distinct key |
| Dedup.KeptRowsOfDistinct | scrapy/modify/spiders/ntu_timetables_spider.py:143-147 | rows whose keys are distinct and unseen are all kept |
| Dedup.KeptRowsIdempotent | scrapy/modify/spiders/ntu_timetables_spider.py:138-147 | deduplicating an already deduplicated list changes nothing |
| Dedup.ParseEach | scrapy/modify/spiders/ntu_timetables_spider.py:146-147 | parsing rows one by one succeeds exactly when every row parses, with one lesson per row, in order |
| Dedup.LessonsFrom | scrapy/modify/spiders/ntu_timetables_spider.py:138-147 | the lessons of the loop from a given seen-set: never more lessons than rows |
| Dedup.LessonsFromIsParseOfKept | scrapy/modify/spiders/ntu_timetables_spider.py:138-147 | the lesson loop equals "deduplicate, then parse" when every row has a key, and fails otherwise |
| Dedup.DedupLessons | scrapy/modify/spiders/ntu_timetables_spider.py:138-147 | the loop over rows 1 onward with a seen-set that starts empty computes `LessonsFrom`, stopping at the first failure |
| Segmenter.Walk | scrapy/modify/spiders/ntu_timetables_spider.py:95-118 | the decisions of the walk: each consumes one or two tables, so there are at most as many as tables and at least half as many |
| Segmenter.Segments | scrapy/modify/spiders/ntu_timetables_spider.py:92-118 | the module groups of a page: at most one per table |
| Segmenter.Segment | scrapy/modify/spiders/ntu_timetables_spider.py:92-118 | the while loop produces exactly the groups of the functional walk, and every paired timetable has a data row |
| Segmenter.WalkConsumesEachTableOnce | scrapy/modify/spiders/ntu_timetables_spider.py:95-118 | the walk consumes every table exactly once, in page order |
| Segmenter.SegmentsAccount | scrapy/modify/spiders/ntu_timetables_spider.py:95-118 | the emitted group sizes (2 for a pair, 1 for a header alone) plus 2 for every dropped pair add up to the number of tables |
| Segmenter.WalkDecisions | scrapy/modify/spiders/ntu_timetables_spider.py:101-110 | a pair is formed only with a bordered table of more than one row, and a pair is dropped only when the candidate has exactly one row |
| Segmenter.EmittedTimetablesHaveDataRows | scrapy/modify/spiders/ntu_timetables_spider.py:101-106 | every emitted timetable has a header row and at least one data row |
| Segmenter.OneRowCandidateDropsHeader | scrapy/modify/spiders/ntu_timetables_spider.py:109-110 | a header followed by a one-row table produces no group for either table |
| Extractor.ModuleLoader.constructor | scrapy/modify/spiders/ntu_timetables_spider.py:122 | a fresh loader per module: no code, no remarks, no lessons |
| Extractor.ModuleLoader.AddRemarks | scrapy/modify/spiders/ntu_timetables_spider.py:62 | `add_value('remark', ...)` appends the values to the ordered remarks and changes nothing else |
| Extractor.ModuleLoader.AddLessons | scrapy/modify/spiders/ntu_timetables_spider.py:146-147 | `add_value('timetable', ...)` appends the lessons and changes nothing else |
| Extractor.SmallprintRemarks | scrapy/modify/spiders/ntu_timetables_spider.py:62 | adding the smallprint adds at most one remark, and none exactly when the title has no marker |
| Extractor.RowRemarks | scrapy/modify/spiders/ntu_timetables_spider.py:68-70 | a header row adds nothing without "Remark:" among its font texts, and otherwise exactly its font texts from index 1 on (`row[1:]`) |
| Extractor.RemarkRows | scrapy/modify/spiders/ntu_timetables_spider.py:67-70 | the remarks of the header rows after the first; its meaning is stated by RemarkRowsIsFlatten, RemarkRowsAppend and RemarkRowsNeedToken |
| Extractor.RemarkRowsIsFlatten | scrapy/modify/spiders/ntu_timetables_spider.py:67-70 | index by index: the remarks are each row's contribution (`row[1:]` for a row holding "Remark:", nothing otherwise), concatenated in row order |
| Extractor.RemarkRowsAppend | scrapy/modify/spiders/ntu_timetables_spider.py:67-70 | the remarks of two consecutive runs of header rows are those of the first run followed by those of the second |
| Extractor.RemarkRowsCons | scrapy/modify/spiders/ntu_timetables_spider.py:67-70 | the first header row's remarks come before those of the rows after it |
| Extractor.RemarkRowsNeedToken | scrapy/modify/spiders/ntu_timetables_spider.py:67-70 | header rows without "Remark:" among their font texts add no remark |
| Extractor.HeaderFields | scrapy/modify/spiders/ntu_timetables_spider.py:54-70 | the code and remarks of a header; it succeeds only with a first row of two font texts and fails only on a missing row, code or title |
| Extractor.HeaderFieldsSpec | scrapy/modify/spiders/ntu_timetables_spider.py:54-70 | the header parses exactly when its first row has two font texts; the code is the first one, and the remarks are the smallprint of the title (if any marker) followed by the "Remark:" rows' texts |
| Extractor.ParseHeader | scrapy/modify/spiders/ntu_timetables_spider.py:54-70 | fails where `parseHeader` raises; otherwise the loader holds year, semester and code, and the header remarks are appended to its remarks |
| Extractor.AddHeaderRemarks | scrapy/modify/spiders/ntu_timetables_spider.py:67-70 | the loop over header rows 1 onward appends `row[1:]` of every row holding "Remark:", in row order |
| Extractor.PlaceholderRemarks | scrapy/modify/spiders/ntu_timetables_spider.py:133-135 | one remark per data row; the only failure is an empty row |
| Extractor.PlaceholderRemarksSpec | scrapy/modify/spiders/ntu_timetables_spider.py:133-135 | the placeholder remarks exist exactly when every data row has a cell; then there is one per data row, the text of its last cell, in row order; otherwise the error is an empty row |
| Extractor.AddPlaceholderRemarks | scrapy/modify/spiders/ntu_timetables_spider.py:133-135 | the loop appends exactly the placeholder remarks to the loader, or fails on the first row without cells |
| Extractor.ModuleSpec | scrapy/modify/spiders/ntu_timetables_spider.py:120-149 | the record of one group, or its error; a record carries the given year and semester |
| Extractor.ExtractModule | scrapy/modify/spiders/ntu_timetables_spider.py:120-149 | one iteration of the module loop yields exactly `ModuleSpec`: header fields, then placeholder remarks or deduplicated lessons |
| Extractor.HeaderOnlyGroupFails | scrapy/modify/spiders/ntu_timetables_spider.py:124-129 | a header-only group raises instead of yielding a record |
| Extractor.ModuleNeverEmpty | scrapy/modify/spiders/ntu_timetables_spider.py:129-149 | every yielded record has lessons or remarks |
| Extractor.PlaceholderRecord | scrapy/modify/spiders/ntu_timetables_spider.py:131-135 | a placeholder timetable yields no lessons; its remarks are the header's followed by the placeholder remarks |
| Extractor.GridGivesDedupedLessons | scrapy/modify/spiders/ntu_timetables_spider.py:137-147 | for a lesson grid, every data row has a key and the lessons are the parses of the first occurrences of each key |
| Extractor.ParseSpec | scrapy/modify/spiders/ntu_timetables_spider.py:120-149 | the records yielded and the stopping error: never more records than groups, and one per group when nothing raises |
| Extractor.ParseSpecMeaning | scrapy/modify/spiders/ntu_timetables_spider.py:120-149 | records come out one per group, in group order, up to the first group that raises, whose error is reported; with no error every group yields a record |
| Extractor.HeaderOnlyStopsPage | scrapy/modify/spiders/ntu_timetables_spider.py:112-129 | a header-only group at position k stops the page with an error after at most k records |
| Extractor.Parse | scrapy/modify/spiders/ntu_timetables_spider.py:88-149 | the generator's output is `ParseSpec` over the segmenter's groups |

## Left out

- `queries.js` is not part of this model. It is HTTP request validation, database queries, password hashing and token signing through foreign libraries, with no self-contained logic to prove.
- Scrapy glue is not modelled: `start_urls`, `allowed_domains`, `custom_settings`, the request and the response.
  - XPath selection and `.extract()` become the fields of `Table` and `Cell`: `rows`, `bold`, `texts` and `fonts`.
  - The `'border' in ...extract()` substring test becomes the `hasBorder` flag.
- The `yield` protocol is not modelled: `Parse` returns all records yielded before the first error, together with that error.
- The loader classes and the item pipeline (`modify.items`, `modify.pipelines`) are outside the modelled file. `add_value` is modelled as appending to an ordered list, and its input and output processors are not modelled.
  - Year, semester and code are added once per module, so they are stored as single values.
  - `add_value` with `None` is taken to add nothing.
- `YEAR` and `SEM` from `modify.settings` are plain string parameters.
- Extractor.ParseHeader: the smallprint uses the canonical phrase order `*`, `^`, `#`. The source leaves the order to a Python set, and `TitleMarkers.Smallprint` covers every order.
- Lessons.ParseLesson: the source overwrites `row[1]` and `row[2]` in place before reading them. The model computes the same values as a function. Nothing reads the row afterwards, so the overwrite has no other effect.
- Dedup.DedupLessons: the lessons are gathered in a local list and added to the loader once, after the loop. The source adds each lesson as it is parsed. This is the same because an error aborts the whole generator, and the partly filled loader is then never read.
- Lessons.Uid: it requires two cells. A row with fewer cells makes the source raise at `listOfText[1]`, and `Dedup.LessonsFrom` models that as the error `RowTooShort` before the key is computed.
- Text is a sequence of characters. Python 2 unicode and byte-string distinctions are not modelled.
