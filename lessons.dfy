// One timetable row: its deduplication key and the lesson record parsed from it.

module Lessons {
  import opened Page

  /** The deduplication key of a row: the text of cell 1 followed by the texts
      of cells 3 onward. Cell 0 (a checkbox column) and cell 2 (the class group)
      are left out. A row with fewer than two cells has no key (the spider
      raises on `listOfText[1]`). */
  function Uid(row: Row): (k: string)
    requires |row| >= 2
  {
    var texts := Texts(row);
    JoinWith("", [texts[1]] + Tail(texts, 3))
  }

  /** Two rows of equal width whose texts agree everywhere except possibly in
      cells 0 and 2 have the same key, so the second of them is dropped as a
      duplicate. */
  lemma UidIgnoresCheckboxAndGroup(a: Row, b: Row)
    requires |a| == |b| >= 2
    requires forall j :: 0 <= j < |a| && j != 0 && j != 2 ==> GetText(a[j]) == GetText(b[j])
    ensures Uid(a) == Uid(b)
  {
    var ta, tb := Texts(a), Texts(b);
    assert ta[1] == tb[1];
    assert Tail(ta, 3) == Tail(tb, 3) by {
      if |a| > 3 {
        forall j | 0 <= j < |a| - 3 ensures ta[3..][j] == tb[3..][j] {
          assert ta[3 + j] == GetText(a[3 + j]);
        }
      }
    }
  }

  /** The texts from index `from` on that enter a key: every cell except cell 0
      (the checkbox) and cell 2 (the class group), in cell order. */
  function KeyCells(texts: seq<string>, from: nat): seq<string>
    decreases |texts| - from
  {
    if from >= |texts| then []
    else (if from == 0 || from == 2 then [] else [texts[from]]) + KeyCells(texts, from + 1)
  }

  lemma {:induction false} KeyCellsFromThree(texts: seq<string>, from: nat)
    requires 3 <= from <= |texts|
    ensures KeyCells(texts, from) == texts[from..]
    decreases |texts| - from
  {
    if from < |texts| {
      KeyCellsFromThree(texts, from + 1);
      assert texts[from..] == [texts[from]] + texts[from + 1..];
    }
  }

  /** The key is the join of the texts of all cells but cells 0 and 2. */
  lemma UidIsKeyCells(row: Row)
    requires |row| >= 2
    ensures Uid(row) == JoinWith("", KeyCells(Texts(row), 0))
  {
    var t := Texts(row);
    assert KeyCells(t, 0) == [] + KeyCells(t, 1) == KeyCells(t, 1);
    assert KeyCells(t, 1) == [t[1]] + KeyCells(t, 2);
    if |t| >= 3 {
      assert KeyCells(t, 2) == [] + KeyCells(t, 3) == KeyCells(t, 3);
      KeyCellsFromThree(t, 3);
    }
    assert KeyCells(t, 2) == Tail(t, 3);
  }

  /** The class number: a one-character group text is prefixed with the first
      character of the lesson type ("TUT", "2" gives "T2"); any other group text
      is kept as it is. Prefixing needs a non-empty lesson type. */
  function ClassNumber(lessonType: string, group: string): (r: Result<string>)
    ensures r.Err? ==> r.error == EmptyLessonType
  {
    if |group| == 1 then
      if |lessonType| == 0 then Err(EmptyLessonType) else Ok([lessonType[0]] + group)
    else Ok(group)
  }

  lemma ClassNumberShape(lessonType: string, group: string)
    ensures ClassNumber(lessonType, group).Err? <==> |group| == 1 && lessonType == ""
    ensures ClassNumber(lessonType, group).Ok? ==>
      var c := ClassNumber(lessonType, group).value;
      && c[|c| - |group|..] == group
      && (|group| == 1 ==> |c| == 2 && c[0] == lessonType[0])
      && (|group| != 1 ==> c == group)
  {
  }

  lemma ClassNumberExample()
    ensures ClassNumber("TUT", "2") == Ok("T2")
  {
    assert |"2"| == 1 && "TUT"[0] == 'T';
    assert ['T'] + "2" == "T2";
  }

  /** Python's `s.split(sep)`: the maximal pieces between separators, in order. */
  function SplitOn(s: string, sep: char): (parts: seq<string>)
    ensures |parts| >= 1
  {
    if s == [] then [""]
    else
      var rest := SplitOn(s[1..], sep);
      if s[0] == sep then [""] + rest
      else [[s[0]] + rest[0]] + rest[1..]
  }

  /** Joining the pieces back with the separator gives the original text. */
  lemma {:induction false} SplitOnRoundTrip(s: string, sep: char)
    ensures JoinWith([sep], SplitOn(s, sep)) == s
  {
    if s != [] {
      var rest := SplitOn(s[1..], sep);
      SplitOnRoundTrip(s[1..], sep);
      if s[0] == sep {
        assert ([""] + rest)[1..] == rest;
        assert s == [sep] + s[1..];
      } else {
        var parts := [[s[0]] + rest[0]] + rest[1..];
        assert parts[1..] == rest[1..];
        if |rest| == 1 {
          assert s == [s[0]] + s[1..];
        } else {
          assert rest == [rest[0]] + rest[1..];
          assert s == [s[0]] + s[1..];
        }
      }
    }
  }

  /** The pieces never contain the separator. */
  lemma {:induction false} SplitOnPiecesFree(s: string, sep: char)
    ensures forall i :: 0 <= i < |SplitOn(s, sep)| ==> sep !in SplitOn(s, sep)[i]
  {
    if s != [] {
      SplitOnPiecesFree(s[1..], sep);
      var rest := SplitOn(s[1..], sep);
      if s[0] != sep {
        assert sep !in rest[0];
        assert sep !in [s[0]] + rest[0];
      }
    }
  }

  /** There is a second piece exactly when the separator occurs. */
  lemma {:induction false} SplitOnCount(s: string, sep: char)
    ensures |SplitOn(s, sep)| >= 2 <==> sep in s
  {
    if s != [] {
      SplitOnCount(s[1..], sep);
      assert sep in s <==> s[0] == sep || sep in s[1..];
    }
  }

  /** With the first separator at `k`, the first piece is `s[..k]` and the
      remaining pieces are those of `s[k + 1..]`. */
  lemma {:induction false} SplitOnFirst(s: string, sep: char, k: nat)
    requires k < |s| && s[k] == sep && sep !in s[..k]
    ensures SplitOn(s, sep)[0] == s[..k]
    ensures SplitOn(s, sep)[1..] == SplitOn(s[k + 1..], sep)
  {
    if k > 0 {
      assert s[0] == s[..k][0];
      assert s[1..][..k - 1] == s[..k][1..];
      SplitOnFirst(s[1..], sep, k - 1);
      assert s[1..][k..] == s[k + 1..];
      assert s[..k] == [s[0]] + s[1..][..k - 1];
    }
  }

  /** `timing = text.split('-')`, then `timing[0]` and `timing[1]`. */
  function TimeRange(text: string): (r: Result<(string, string)>)
    ensures r.Err? ==> r.error == NoHyphen
  {
    var timing := SplitOn(text, '-');
    if |timing| < 2 then Err(NoHyphen) else Ok((timing[0], timing[1]))
  }

  /** The start time is the text before the first `-`; the end time is the text
      after it, up to the next `-` or the end; a text without `-` is an error. */
  lemma TimeRangeSpec(text: string)
    ensures TimeRange(text).Err? <==> '-' !in text
    ensures TimeRange(text).Ok? ==>
      var (start, end) := TimeRange(text).value;
      exists k :: 0 <= k < |text| && text[k] == '-' && '-' !in text[..k] && start == text[..k]
        && end <= text[k + 1..] && '-' !in end
        && (|end| == |text| - k - 1 || text[k + 1 + |end|] == '-')
  {
    SplitOnCount(text, '-');
    if '-' in text {
      var k := FirstIndex(text, '-');
      SplitOnFirst(text, '-', k);
      var tail := text[k + 1..];
      SplitOnPiecesFree(tail, '-');
      SplitOnRoundTrip(tail, '-');
      var pieces := SplitOn(tail, '-');
      var end := pieces[0];
      if |pieces| >= 2 {
        assert tail == end + ['-'] + JoinWith("-", pieces[1..]);
        assert tail[|end|] == '-';
      } else {
        assert tail == end;
      }
      assert end <= tail;
    }
  }

  /** A time text with exactly one `-` is rebuilt by joining start and end with `-`. */
  lemma TimeRangeRoundTrip(text: string, k: nat)
    requires k < |text| && text[k] == '-' && '-' !in text[..k] && '-' !in text[k + 1..]
    ensures TimeRange(text).Ok?
    ensures TimeRange(text).value.0 + "-" + TimeRange(text).value.1 == text
  {
    SplitOnFirst(text, '-', k);
    SplitOnCount(text[k + 1..], '-');
    SplitOnRoundTrip(text[k + 1..], '-');
    assert text == text[..k] + "-" + text[k + 1..];
  }

  lemma TimeRangeExample()
    ensures TimeRange("0830-0930") == Ok(("0830", "0930"))
  {
    var text := "0830-0930";
    assert text[4] == '-' && text[..4] == "0830" && text[5..] == "0930";
    assert '-' !in "0830" && '-' !in "0930";
    SplitOnFirst(text, '-', 4);
    SplitOnCount("0930", '-');
    SplitOnRoundTrip("0930", '-');
  }

  /** The position of the first `c` in `s`. */
  function FirstIndex(s: string, c: char): (k: nat)
    requires c in s
    ensures k < |s| && s[k] == c && c !in s[..k]
  {
    if s[0] == c then 0
    else
      assert c in s[1..] by { assert s == [s[0]] + s[1..]; }
      var k := FirstIndex(s[1..], c);
      assert s[..k + 1] == [s[0]] + s[1..][..k];
      k + 1
  }

  /** `parseLesson`: the fields of a lesson from cells 1 to 6, failing where the
      spider raises, in the order it reads the cells. */
  function ParseLesson(row: Row): (r: Result<Lesson>)
    ensures r.Ok? ==> |row| >= 7
    ensures r.Err? ==> r.error == RowTooShort || r.error == EmptyLessonType || r.error == NoHyphen
  {
    if |row| < 3 then Err(RowTooShort)
    else
      var lessonType := GetText(row[1]);
      match ClassNumber(lessonType, GetText(row[2]))
      case Err(e) => Err(e)
      case Ok(classNo) =>
        if |row| < 5 then Err(RowTooShort)
        else match TimeRange(GetText(row[4]))
          case Err(e) => Err(e)
          case Ok((start, end)) =>
            if |row| < 7 then Err(RowTooShort)
            else Ok(Lesson(lessonType, classNo, GetText(row[3]), start, end, GetText(row[5]), GetText(row[6])))
  }

  /** A row parses exactly when it has seven cells, a `-` in its time cell and,
      if its group text has one character, a non-empty lesson type; the fields
      then come from cells 1 to 6. */
  lemma ParseLessonSpec(row: Row)
    ensures ParseLesson(row).Ok? <==>
      && |row| >= 7
      && '-' in GetText(row[4])
      && (|GetText(row[2])| == 1 ==> GetText(row[1]) != "")
    ensures ParseLesson(row).Ok? ==>
      var l := ParseLesson(row).value;
      && l.lessonType == GetText(row[1])
      && ClassNumber(GetText(row[1]), GetText(row[2])) == Ok(l.classNo)
      && l.dayText == GetText(row[3])
      && TimeRange(GetText(row[4])) == Ok((l.startTime, l.endTime))
      && l.venue == GetText(row[5])
      && l.weekText == GetText(row[6])
  {
    if |row| >= 5 {
      TimeRangeSpec(GetText(row[4]));
    }
  }
}
