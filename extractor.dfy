// The second loop of `parse`: one module record per group, built through a
// field loader, and the page driver that yields records until one fails.

module Extractor {
  import opened Page
  import opened TitleMarkers
  import opened Lessons
  import opened Dedup
  import opened Segmenter

  /** The non-breaking space that marks a timetable used only for remarks. */
  const Nbsp: string := "\U{A0}"

  /** The font text that marks a header row as a module remark. */
  const RemarkToken: string := "Remark:"

  /** The item loader of one module. `add_value` accumulates; each remark value
      is appended to an ordered list. Year, semester and code are added once
      per module and are kept as single values. */
  class ModuleLoader {
    var year: string
    var sem: string
    var code: string
    var remarks: seq<string>
    var lessons: seq<Lesson>

    constructor ()
      ensures year == "" && sem == "" && code == "" && remarks == [] && lessons == []
    {
      year, sem, code, remarks, lessons := "", "", "", [], [];
    }

    method AddRemarks(values: seq<string>)
      modifies this
      ensures remarks == old(remarks) + values
      ensures year == old(year) && sem == old(sem) && code == old(code) && lessons == old(lessons)
    {
      remarks := remarks + values;
    }

    method AddLessons(values: seq<Lesson>)
      modifies this
      ensures lessons == old(lessons) + values
      ensures year == old(year) && sem == old(sem) && code == old(code) && remarks == old(remarks)
    {
      lessons := lessons + values;
    }

    /** `load_item()`: the record the loader has gathered. */
    function LoadItem(): ModuleRecord
      reads this
    {
      ModuleRecord(year, sem, code, remarks, lessons)
    }
  }

  /** `add_value('remark', getSmallprint(title))`: a value of None adds nothing. */
  function SmallprintRemarks(title: string): (r: seq<string>)
    ensures |r| <= 1
    ensures r == [] <==> ('*' !in title && '^' !in title && '#' !in title)
  {
    match CanonicalSmallprint(title)
    case None => []
    case Some(s) => [s]
  }

  /** What one header row after the first contributes: its font texts from
      index 1 on when "Remark:" is one of them, else nothing. */
  function RowRemarks(row: Row): (r: seq<string>)
    ensures RemarkToken !in RowFonts(row) ==> r == []
    ensures RemarkToken in RowFonts(row) ==> |r| + 1 == |RowFonts(row)|
    ensures RemarkToken in RowFonts(row) ==> r == RowFonts(row)[1..]
  {
    var fonts := RowFonts(row);
    if RemarkToken in fonts then fonts[1..] else []
  }

  /** The remarks of header rows, in row order. */
  function RemarkRows(rows: seq<Row>): seq<string>
  {
    if rows == [] then [] else RemarkRows(rows[..|rows| - 1]) + RowRemarks(rows[|rows| - 1])
  }

  /** The remarks of consecutive runs of header rows follow each other. */
  lemma {:induction false} RemarkRowsAppend(a: seq<Row>, b: seq<Row>)
    ensures RemarkRows(a + b) == RemarkRows(a) + RemarkRows(b)
    decreases |b|
  {
    if b == [] {
      assert a + b == a;
    } else {
      var last := b[|b| - 1];
      assert (a + b)[..|a + b| - 1] == a + b[..|b| - 1];
      assert (a + b)[|a + b| - 1] == last;
      RemarkRowsAppend(a, b[..|b| - 1]);
      AppendAssoc(RemarkRows(a), RemarkRows(b[..|b| - 1]), RowRemarks(last));
    }
  }

  /** Index by index: the remarks of header rows are what each row contributes,
      concatenated in row order. */
  lemma {:induction false} RemarkRowsIsFlatten(rows: seq<Row>)
    ensures RemarkRows(rows) == Flatten(seq(|rows|, i requires 0 <= i < |rows| => RowRemarks(rows[i])))
  {
    if rows != [] {
      var lists := seq(|rows|, i requires 0 <= i < |rows| => RowRemarks(rows[i]));
      var rest := seq(|rows| - 1, i requires 0 <= i < |rows| - 1 => RowRemarks(rows[1..][i]));
      assert lists[1..] == rest;
      RemarkRowsIsFlatten(rows[1..]);
      RemarkRowsCons(rows);
    }
  }

  lemma {:induction false} RemarkRowsCons(rows: seq<Row>)
    requires rows != []
    ensures RemarkRows(rows) == RowRemarks(rows[0]) + RemarkRows(rows[1..])
    decreases |rows|
  {
    if |rows| == 1 {
      assert rows[1..] == [];
      assert rows[..0] == [];
    } else {
      var init, last := rows[..|rows| - 1], rows[|rows| - 1];
      RemarkRowsCons(init);
      assert init[0] == rows[0];
      assert rows[1..][..|rows| - 2] == init[1..];
      assert rows[1..][|rows| - 2] == last;
      AppendAssoc(RowRemarks(rows[0]), RemarkRows(init[1..]), RowRemarks(last));
    }
  }

  /** Header rows without the token contribute no remark. */
  lemma {:induction false} RemarkRowsNeedToken(rows: seq<Row>)
    requires forall i :: 0 <= i < |rows| ==> RemarkToken !in RowFonts(rows[i])
    ensures RemarkRows(rows) == []
  {
    if rows != [] {
      RemarkRowsNeedToken(rows[..|rows| - 1]);
    }
  }

  datatype HeaderInfo = HeaderInfo(code: string, remarks: seq<string>)

  /** `parseHeader`: the code is the first font text of the first row, the
      smallprint comes from the second, and later rows may add remarks. */
  function HeaderFields(header: seq<Row>): (r: Result<HeaderInfo>)
    ensures r.Ok? ==> |header| >= 1 && |RowFonts(header[0])| >= 2
    ensures r.Err? ==> r.error == NoHeaderRow || r.error == NoCode || r.error == NoTitle
  {
    if header == [] then Err(NoHeaderRow)
    else
      var firstRow := RowFonts(header[0]);
      if |firstRow| == 0 then Err(NoCode)
      else if |firstRow| == 1 then Err(NoTitle)
      else Ok(HeaderInfo(firstRow[0], SmallprintRemarks(firstRow[1]) + RemarkRows(header[1..])))
  }

  lemma HeaderFieldsSpec(header: seq<Row>)
    ensures HeaderFields(header).Ok? <==> |header| >= 1 && |RowFonts(header[0])| >= 2
    ensures HeaderFields(header).Ok? ==>
      var info := HeaderFields(header).value;
      var title := RowFonts(header[0])[1];
      && info.code == RowFonts(header[0])[0]
      && (('*' in title || '^' in title || '#' in title) ==>
            info.remarks == [CanonicalSmallprint(title).value] + RemarkRows(header[1..]))
      && (('*' !in title && '^' !in title && '#' !in title) ==> info.remarks == RemarkRows(header[1..]))
  {
  }

  method ParseHeader(header: seq<Row>, loader: ModuleLoader, year: string, sem: string)
    returns (failure: Option<ParseError>)
    modifies loader
    ensures failure.Some? <==> HeaderFields(header).Err?
    ensures failure.Some? ==> failure.value == HeaderFields(header).error
    ensures failure.None? ==>
      && loader.year == year && loader.sem == sem
      && loader.code == HeaderFields(header).value.code
      && loader.remarks == old(loader.remarks) + HeaderFields(header).value.remarks
      && loader.lessons == old(loader.lessons)
  {
    if |header| == 0 {
      return Some(NoHeaderRow);
    }
    var firstRow := RowFonts(header[0]);
    loader.year := year;
    loader.sem := sem;
    if |firstRow| == 0 {
      return Some(NoCode);
    }
    loader.code := firstRow[0];
    if |firstRow| == 1 {
      return Some(NoTitle);
    }
    var smallprint := SmallprintRemarks(firstRow[1]);
    loader.AddRemarks(smallprint);
    AddHeaderRemarks(header, loader);
    assert HeaderFields(header) == Ok(HeaderInfo(firstRow[0], smallprint + RemarkRows(header[1..])));
    AppendAssoc(old(loader.remarks), smallprint, RemarkRows(header[1..]));
    failure := None;
  }

  /** The remark loop of `parseHeader` over the header rows after the first. */
  method AddHeaderRemarks(header: seq<Row>, loader: ModuleLoader)
    requires |header| >= 1
    modifies loader
    ensures loader.remarks == old(loader.remarks) + RemarkRows(header[1..])
    ensures loader.year == old(loader.year) && loader.sem == old(loader.sem)
    ensures loader.code == old(loader.code) && loader.lessons == old(loader.lessons)
  {
    var i := 1;
    while i < |header|
      invariant 1 <= i <= |header|
      invariant loader.remarks == old(loader.remarks) + RemarkRows(header[1..i])
      invariant loader.year == old(loader.year) && loader.sem == old(loader.sem)
      invariant loader.code == old(loader.code) && loader.lessons == old(loader.lessons)
    {
      RemarkRowsStep(header, i);
      var row := RowFonts(header[i]);
      if RemarkToken in row {
        loader.AddRemarks(row[1..]);
        AppendAssoc(old(loader.remarks), RemarkRows(header[1..i]), row[1..]);
      } else {
        assert RemarkRows(header[1..i + 1]) == RemarkRows(header[1..i]) + [];
      }
      i := i + 1;
    }
    assert header[1..i] == header[1..];
  }

  lemma RemarkRowsStep(header: seq<Row>, i: nat)
    requires 1 <= i < |header|
    ensures RemarkRows(header[1..i + 1]) == RemarkRows(header[1..i]) + RowRemarks(header[i])
  {
    var rows := header[1..i + 1];
    assert rows[..|rows| - 1] == header[1..i];
    assert rows[|rows| - 1] == header[i];
  }

  /** The remarks of a placeholder timetable: the text of the last cell of each
      data row, in row order; a row without cells raises. */
  function PlaceholderRemarks(rows: seq<Row>): (r: Result<seq<string>>)
    ensures r.Err? ==> r.error == EmptyRow
    ensures r.Ok? ==> |r.value| == |rows|
  {
    if rows == [] then Ok([])
    else
      var n := |rows| - 1;
      var before := PlaceholderRemarks(rows[..n]);
      if before.Err? then before
      else if |rows[n]| == 0 then Err(EmptyRow)
      else Ok(before.value + [GetText(rows[n][|rows[n]| - 1])])
  }

  /** The placeholder remarks exist exactly when every data row has a cell, and
      then there is one per row: the text of its last cell. */
  lemma {:induction false} PlaceholderRemarksSpec(rows: seq<Row>)
    ensures PlaceholderRemarks(rows).Ok? <==> forall j :: 0 <= j < |rows| ==> |rows[j]| > 0
    ensures PlaceholderRemarks(rows).Err? ==> PlaceholderRemarks(rows).error == EmptyRow
    ensures PlaceholderRemarks(rows).Ok? ==>
      var r := PlaceholderRemarks(rows).value;
      && |r| == |rows|
      && forall j :: 0 <= j < |rows| ==> r[j] == GetText(rows[j][|rows[j]| - 1])
  {
    if rows != [] {
      var n := |rows| - 1;
      PlaceholderRemarksSpec(rows[..n]);
      assert forall j :: 0 <= j < n ==> rows[..n][j] == rows[j];
    }
  }

  lemma PlaceholderStep(rows: seq<Row>, i: nat)
    requires i < |rows| && PlaceholderRemarks(rows[..i]).Ok? && |rows[i]| > 0
    ensures PlaceholderRemarks(rows[..i + 1]) == Ok(PlaceholderRemarks(rows[..i]).value + [GetText(rows[i][|rows[i]| - 1])])
  {
    assert rows[..i + 1][..i] == rows[..i];
  }

  /** The placeholder loop of `parse`: each data row's last cell becomes a remark. */
  method AddPlaceholderRemarks(timetable: seq<Row>, loader: ModuleLoader) returns (failure: Option<ParseError>)
    modifies loader
    ensures failure.Some? <==> PlaceholderRemarks(Tail(timetable, 1)).Err?
    ensures failure.Some? ==> failure.value == EmptyRow == PlaceholderRemarks(Tail(timetable, 1)).error
    ensures failure.None? ==> loader.remarks == old(loader.remarks) + PlaceholderRemarks(Tail(timetable, 1)).value
    ensures loader.year == old(loader.year) && loader.sem == old(loader.sem)
    ensures loader.code == old(loader.code) && loader.lessons == old(loader.lessons)
  {
    ghost var rows := Tail(timetable, 1);
    var i := 1;
    while i < |timetable|
      invariant 1 <= i <= |rows| + 1
      invariant PlaceholderRemarks(rows[..i - 1]).Ok?
      invariant loader.remarks == old(loader.remarks) + PlaceholderRemarks(rows[..i - 1]).value
      invariant loader.year == old(loader.year) && loader.sem == old(loader.sem)
      invariant loader.code == old(loader.code) && loader.lessons == old(loader.lessons)
    {
      var row := timetable[i];
      assert rows[i - 1] == row;
      if |row| == 0 {
        PlaceholderRemarksSpec(rows);
        return Some(EmptyRow);
      }
      PlaceholderStep(rows, i - 1);
      loader.AddRemarks([GetText(row[|row| - 1])]);
      i := i + 1;
    }
    assert rows[..i - 1] == rows;
    failure := None;
  }

  /** A timetable whose first data row has a non-breaking-space cell text. */
  predicate IsPlaceholder(timetable: seq<Row>)
    requires |timetable| >= 2
  {
    Nbsp in RowTexts(timetable[1])
  }

  /** The record `parse` yields for one group, or the error it raises. A
      header-only group raises at `mod[1]`. */
  function ModuleSpec(group: Group, year: string, sem: string): (r: Result<ModuleRecord>)
    ensures r.Ok? ==> r.value.year == year && r.value.sem == sem
  {
    match HeaderFields(group.header)
    case Err(e) => Err(e)
    case Ok(info) =>
      if group.HeaderOnly? then Err(NoTimetable)
      else if |group.timetable| < 2 then Err(NoDataRow)
      else if IsPlaceholder(group.timetable) then
        match PlaceholderRemarks(Tail(group.timetable, 1))
        case Err(e) => Err(e)
        case Ok(extra) => Ok(ModuleRecord(year, sem, info.code, info.remarks + extra, []))
      else
        match LessonsFrom(Tail(group.timetable, 1), {})
        case Err(e) => Err(e)
        case Ok(lessons) => Ok(ModuleRecord(year, sem, info.code, info.remarks, lessons))
  }

  /** One iteration of the module loop of `parse`. */
  method ExtractModule(group: Group, year: string, sem: string) returns (r: Result<ModuleRecord>)
    ensures r == ModuleSpec(group, year, sem)
  {
    var loader := new ModuleLoader();
    var failure := ParseHeader(group.header, loader, year, sem);
    if failure.Some? {
      assert ModuleSpec(group, year, sem) == Err(failure.value);
      return Err(failure.value);
    }
    ghost var info := HeaderFields(group.header).value;
    assert loader.LoadItem() == ModuleRecord(year, sem, info.code, info.remarks, []);
    if group.HeaderOnly? {
      return Err(NoTimetable);
    }
    var timetable := group.timetable;
    if |timetable| < 2 {
      return Err(NoDataRow);
    }
    if Nbsp in RowTexts(timetable[1]) {
      failure := AddPlaceholderRemarks(timetable, loader);
      if failure.Some? {
        return Err(failure.value);
      }
      assert loader.remarks == info.remarks + PlaceholderRemarks(Tail(timetable, 1)).value;
    } else {
      var lessons := DedupLessons(timetable);
      if lessons.Err? {
        return Err(lessons.error);
      }
      loader.AddLessons(lessons.value);
      assert loader.lessons == lessons.value;
    }
    r := Ok(loader.LoadItem());
  }

  /** A header-only group, which the segmenter emits for a header without a
      grid after it, makes `parse` raise instead of yielding a record. */
  lemma HeaderOnlyGroupFails(header: seq<Row>, year: string, sem: string)
    ensures ModuleSpec(HeaderOnly(header), year, sem).Err?
  {
  }

  /** A record is never silently empty: it has lessons, or remarks that stand
      in for them. */
  lemma ModuleNeverEmpty(group: Group, year: string, sem: string)
    requires ModuleSpec(group, year, sem).Ok?
    ensures var m := ModuleSpec(group, year, sem).value; |m.timetable| > 0 || |m.remarks| > 0
  {
    var rows := Tail(group.timetable, 1);
    if !IsPlaceholder(group.timetable) {
      assert rows != [] && |rows[0]| >= 2 && Uid(rows[0]) !in {};
    }
  }

  /** A placeholder timetable yields no lessons and one remark per data row,
      the text of that row's last cell, after the header's remarks. */
  lemma PlaceholderRecord(header: seq<Row>, timetable: seq<Row>, year: string, sem: string)
    requires |timetable| >= 2 && IsPlaceholder(timetable)
    requires ModuleSpec(Paired(header, timetable), year, sem).Ok?
    ensures HeaderFields(header).Ok? && PlaceholderRemarks(Tail(timetable, 1)).Ok?
    ensures ModuleSpec(Paired(header, timetable), year, sem).value == ModuleRecord(year, sem,
      HeaderFields(header).value.code,
      HeaderFields(header).value.remarks + PlaceholderRemarks(Tail(timetable, 1)).value, [])
  {
  }

  /** In a lesson grid the records' lessons are the parsed first occurrences of
      each key among the data rows. */
  lemma GridGivesDedupedLessons(group: Group, year: string, sem: string)
    requires group.Paired? && |group.timetable| >= 2 && !IsPlaceholder(group.timetable)
    requires ModuleSpec(group, year, sem).Ok?
    ensures Keyed(Tail(group.timetable, 1))
    ensures ParseEach(FirstOccurrences(Tail(group.timetable, 1), {})) == Ok(ModuleSpec(group, year, sem).value.timetable)
  {
    var rows := Tail(group.timetable, 1);
    LessonsFromIsParseOfKept(rows, {});
    KeptRowsAreFirstOccurrences(rows, {});
  }

  /** The records yielded for a list of groups, and the error that stopped the
      generator, if any. */
  function ParseSpec(groups: seq<Group>, year: string, sem: string): (out: (seq<ModuleRecord>, Option<ParseError>))
    ensures |out.0| <= |groups|
    ensures out.1.None? ==> |out.0| == |groups|
  {
    if groups == [] then ([], None)
    else match ModuleSpec(groups[0], year, sem)
      case Err(e) => ([], Some(e))
      case Ok(m) => Shift([m], ParseSpec(groups[1..], year, sem))
  }

  /** Records come out in group order, one per group, up to the first group
      that raises; that group's error is the one reported. */
  lemma {:induction false} ParseSpecMeaning(groups: seq<Group>, year: string, sem: string)
    ensures var out := ParseSpec(groups, year, sem);
      && |out.0| <= |groups|
      && (forall j :: 0 <= j < |out.0| ==> ModuleSpec(groups[j], year, sem) == Ok(out.0[j]))
      && (out.1.None? ==> |out.0| == |groups|)
      && (out.1.Some? ==> |out.0| < |groups| && ModuleSpec(groups[|out.0|], year, sem) == Err(out.1.value))
  {
    if groups != [] && ModuleSpec(groups[0], year, sem).Ok? {
      var rest := ParseSpec(groups[1..], year, sem);
      ParseSpecMeaning(groups[1..], year, sem);
      var out := ParseSpec(groups, year, sem);
      assert out == ([ModuleSpec(groups[0], year, sem).value] + rest.0, rest.1);
      forall j | 1 <= j < |out.0|
        ensures ModuleSpec(groups[j], year, sem) == Ok(out.0[j])
      {
        assert out.0[j] == rest.0[j - 1];
        assert groups[j] == groups[1..][j - 1];
      }
      if out.1.Some? {
        assert groups[|out.0|] == groups[1..][|rest.0|];
      }
    }
  }

  /** A header-only group stops the page: at most the records of the groups
      before it are yielded, and the parse ends in an error. */
  lemma HeaderOnlyStopsPage(tables: seq<Table>, year: string, sem: string, k: nat)
    requires k < |Segments(tables)| && Segments(tables)[k].HeaderOnly?
    ensures |ParseSpec(Segments(tables), year, sem).0| <= k
    ensures ParseSpec(Segments(tables), year, sem).1.Some?
  {
    var groups := Segments(tables);
    ParseSpecMeaning(groups, year, sem);
    HeaderOnlyGroupFails(groups[k].header, year, sem);
    assert groups[k] == HeaderOnly(groups[k].header);
  }

  function Shift(prefix: seq<ModuleRecord>, out: (seq<ModuleRecord>, Option<ParseError>))
    : (seq<ModuleRecord>, Option<ParseError>)
  {
    (prefix + out.0, out.1)
  }

  lemma ParseSpecStep(groups: seq<Group>, k: nat, year: string, sem: string)
    requires k < |groups|
    ensures ModuleSpec(groups[k], year, sem).Err? ==>
      ParseSpec(groups[k..], year, sem) == ([], Some(ModuleSpec(groups[k], year, sem).error))
    ensures ModuleSpec(groups[k], year, sem).Ok? ==>
      ParseSpec(groups[k..], year, sem) == Shift([ModuleSpec(groups[k], year, sem).value], ParseSpec(groups[k + 1..], year, sem))
  {
    assert groups[k..][0] == groups[k] && groups[k..][1..] == groups[k + 1..];
  }

  lemma ShiftShift(a: seq<ModuleRecord>, b: seq<ModuleRecord>, out: (seq<ModuleRecord>, Option<ParseError>))
    ensures Shift(a, Shift(b, out)) == Shift(a + b, out)
  {
    assert a + (b + out.0) == (a + b) + out.0;
  }

  /** `parse`: segment the page, then build one record per group until a group
      raises. */
  method Parse(tables: seq<Table>, year: string, sem: string)
    returns (records: seq<ModuleRecord>, failure: Option<ParseError>)
    ensures (records, failure) == ParseSpec(Segments(tables), year, sem)
  {
    var modules := Segment(tables);
    records := [];
    var k := 0;
    assert modules[k..] == modules;
    assert [] + ParseSpec(modules, year, sem).0 == ParseSpec(modules, year, sem).0;
    while k < |modules|
      invariant 0 <= k <= |modules|
      invariant Shift(records, ParseSpec(modules[k..], year, sem)) == ParseSpec(modules, year, sem)
    {
      ParseSpecStep(modules, k, year, sem);
      var r := ExtractModule(modules[k], year, sem);
      if r.Err? {
        assert records + [] == records;
        return records, Some(r.error);
      }
      ShiftShift(records, [r.value], ParseSpec(modules[k + 1..], year, sem));
      records := records + [r.value];
      k := k + 1;
    }
    assert records + [] == records;
    failure := None;
  }
}
