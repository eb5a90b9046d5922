// The timetable page with its HTML abstracted away: a page is a flat list of
// top-level tables, a table a list of rows, a row a list of cells, and a cell
// only the text nodes the spider ever looks at.

module Page {

  /** One `td` cell of a row.
      - `bold`:  its bold text nodes (`./b/text()`), in document order;
      - `texts`: the text nodes directly under the cell (`td/text()`);
      - `fonts`: the text nodes under its `font` elements (`.//font/text()`). */
  datatype Cell = Cell(bold: seq<string>, texts: seq<string>, fonts: seq<string>)

  type Row = seq<Cell>

  /** A top-level table: whether its markup carries the `border` attribute that
      marks a lesson grid, and its rows (`.//tr`). */
  datatype Table = Table(hasBorder: bool, rows: seq<Row>)

  /** One lesson slot of a module's timetable. */
  datatype Lesson = Lesson(
    lessonType: string,
    classNo: string,
    dayText: string,
    startTime: string,
    endTime: string,
    venue: string,
    weekText: string)

  /** The item handed to the pipeline for one module; `remarks` keeps every
      remark value in the order it was added. */
  datatype ModuleRecord = ModuleRecord(
    year: string,
    sem: string,
    code: string,
    remarks: seq<string>,
    timetable: seq<Lesson>)

  /** The places where the spider raises (an `IndexError` in every case). */
  datatype ParseError =
    | NoHeaderRow      // `header[0]` of a header table without rows
    | NoCode           // `firstRow[0]` of a first row without font text
    | NoTitle          // `firstRow[1]` of a first row with one font text
    | NoTimetable      // `mod[1]` of a header-only group
    | NoDataRow        // `timetable[1]` of a timetable with one row
    | EmptyRow         // `row[-1]` of a placeholder row without cells
    | RowTooShort      // `row[k]` beyond the cells of a lesson row
    | EmptyLessonType  // `row[1][0]` of an empty lesson type
    | NoHyphen         // `timing[1]` of a time cell without `-`

  datatype Result<T> = Ok(value: T) | Err(error: ParseError)

  datatype Option<T> = None | Some(value: T)

  /** The display text of a cell: its first bold text node, or "" if it has none. */
  function GetText(c: Cell): (r: string)
    ensures |c.bold| > 0 ==> r == c.bold[0]
    ensures |c.bold| == 0 ==> r == ""
  {
    if |c.bold| == 0 then "" else c.bold[0]
  }

  /** The texts of all cells of a row, in order. */
  function Texts(row: Row): (r: seq<string>)
    ensures |r| == |row|
    ensures forall i :: 0 <= i < |row| ==> r[i] == GetText(row[i])
  {
    seq(|row|, i requires 0 <= i < |row| => GetText(row[i]))
  }

  /** Python's slice `s[n:]`: empty when `n` is past the end. */
  function Tail<T>(s: seq<T>, n: nat): (r: seq<T>)
    ensures |r| == if n <= |s| then |s| - n else 0
    ensures forall i :: 0 <= i < |r| ==> r[i] == s[n + i]
  {
    if n <= |s| then s[n..] else []
  }

  lemma AppendAssoc<T>(a: seq<T>, b: seq<T>, c: seq<T>)
    ensures a + b + c == a + (b + c)
  {
  }

  /** Python's `sep.join(items)`; `''.join(items)` is `JoinWith("", items)`. */
  function JoinWith(sep: string, items: seq<string>): string
  {
    if items == [] then ""
    else if |items| == 1 then items[0]
    else items[0] + sep + JoinWith(sep, items[1..])
  }

  /** The concatenation of a list of node lists, as an XPath `//` query gathers them. */
  function Flatten(lists: seq<seq<string>>): seq<string>
  {
    if lists == [] then [] else lists[0] + Flatten(lists[1..])
  }

  lemma {:induction false} FlattenHas(lists: seq<seq<string>>, x: string)
    ensures x in Flatten(lists) <==> exists i :: 0 <= i < |lists| && x in lists[i]
  {
    if lists != [] {
      FlattenHas(lists[1..], x);
      if x in Flatten(lists[1..]) {
        var i :| 0 <= i < |lists[1..]| && x in lists[1..][i];
        assert x in lists[i + 1];
      }
      if exists i :: 0 <= i < |lists| && x in lists[i] {
        var i :| 0 <= i < |lists| && x in lists[i];
        if i > 0 {
          assert x in lists[1..][i - 1];
        }
      }
    }
  }

  /** `row.xpath('.//font/text()')`: the font text nodes of all cells, in order. */
  function RowFonts(row: Row): (r: seq<string>)
    ensures |row| > 0 ==> row[0].fonts <= r
  {
    Flatten(seq(|row|, i requires 0 <= i < |row| => row[i].fonts))
  }

  /** `row.xpath('.//td/text()')`: the direct text nodes of all cells, in order. */
  function RowTexts(row: Row): (r: seq<string>)
    ensures |row| > 0 ==> row[0].texts <= r
  {
    Flatten(seq(|row|, i requires 0 <= i < |row| => row[i].texts))
  }

  /** A text node occurs among a row's font texts exactly when one cell has it. */
  lemma RowFontsHas(row: Row, x: string)
    ensures x in RowFonts(row) <==> exists i :: 0 <= i < |row| && x in row[i].fonts
  {
    var lists := seq(|row|, i requires 0 <= i < |row| => row[i].fonts);
    FlattenHas(lists, x);
    if exists i :: 0 <= i < |row| && x in row[i].fonts {
      var i :| 0 <= i < |row| && x in row[i].fonts;
      assert x in lists[i];
    }
  }

  /** A text node occurs among a row's cell texts exactly when one cell has it. */
  lemma RowTextsHas(row: Row, x: string)
    ensures x in RowTexts(row) <==> exists i :: 0 <= i < |row| && x in row[i].texts
  {
    var lists := seq(|row|, i requires 0 <= i < |row| => row[i].texts);
    FlattenHas(lists, x);
    if exists i :: 0 <= i < |row| && x in row[i].texts {
      var i :| 0 <= i < |row| && x in row[i].texts;
      assert x in lists[i];
    }
  }
}
