// The first loop of `parse`: a forward walk over the page's top-level tables
// that pairs each module header with the lesson grid that follows it.

module Segmenter {
  import opened Page

  /** A module group: a header alone, or a header with its timetable rows. */
  datatype Group =
    | HeaderOnly(header: seq<Row>)
    | Paired(header: seq<Row>, timetable: seq<Row>)

  /** One decision of the walk, with the tables it consumed. */
  datatype Step =
    | Pair(header: Table, timetable: Table)     // next table is a grid of several rows
    | Drop(header: Table, candidate: Table)     // next table has exactly one row
    | Alone(header: Table)                      // last table, or next table is not a grid

  /** Whether the table after a header is taken as its timetable. */
  predicate IsTimetable(t: Table)
  {
    t.hasBorder && |t.rows| > 1
  }

  /** The decisions the walk takes from the first table on. */
  function Walk(tables: seq<Table>): (steps: seq<Step>)
    ensures |steps| <= |tables| <= 2 * |steps|
    decreases |tables|
  {
    if tables == [] then []
    else if |tables| == 1 then [Alone(tables[0])]
    else if IsTimetable(tables[1]) then [Pair(tables[0], tables[1])] + Walk(tables[2..])
    else if |tables[1].rows| == 1 then [Drop(tables[0], tables[1])] + Walk(tables[2..])
    else [Alone(tables[0])] + Walk(tables[1..])
  }

  /** The groups a sequence of decisions appends; a dropped pair appends nothing. */
  function Emitted(steps: seq<Step>): (groups: seq<Group>)
    ensures |groups| <= |steps|
  {
    if steps == [] then []
    else
      var rest := Emitted(steps[1..]);
      match steps[0]
      case Pair(h, t) => [Paired(h.rows, t.rows)] + rest
      case Drop(_, _) => rest
      case Alone(h) => [HeaderOnly(h.rows)] + rest
  }

  /** The module groups of a page. */
  function Segments(tables: seq<Table>): (groups: seq<Group>)
    ensures |groups| <= |tables|
  {
    Emitted(Walk(tables))
  }

  /** The tables a sequence of decisions consumed, in order. */
  function Consumed(steps: seq<Step>): seq<Table>
  {
    if steps == [] then []
    else
      var rest := Consumed(steps[1..]);
      match steps[0]
      case Pair(h, t) => [h, t] + rest
      case Drop(h, c) => [h, c] + rest
      case Alone(h) => [h] + rest
  }

  /** Every table is consumed exactly once, in page order. */
  lemma {:induction false} WalkConsumesEachTableOnce(tables: seq<Table>)
    ensures Consumed(Walk(tables)) == tables
    decreases |tables|
  {
    if |tables| >= 2 {
      if IsTimetable(tables[1]) || |tables[1].rows| == 1 {
        WalkConsumesEachTableOnce(tables[2..]);
        assert tables == [tables[0], tables[1]] + tables[2..];
      } else {
        WalkConsumesEachTableOnce(tables[1..]);
        assert tables == [tables[0]] + tables[1..];
      }
    }
  }

  function GroupSize(g: Group): nat
  {
    if g.Paired? then 2 else 1
  }

  function TotalSize(groups: seq<Group>): nat
  {
    if groups == [] then 0 else GroupSize(groups[0]) + TotalSize(groups[1..])
  }

  function DropCount(steps: seq<Step>): nat
  {
    if steps == [] then 0 else (if steps[0].Drop? then 1 else 0) + DropCount(steps[1..])
  }

  lemma TotalSizeAppend(a: seq<Group>, b: seq<Group>)
    ensures TotalSize(a + b) == TotalSize(a) + TotalSize(b)
  {
    if a == [] {
      assert a + b == b;
    } else {
      assert (a + b)[0] == a[0] && (a + b)[1..] == a[1..] + b;
      TotalSizeAppend(a[1..], b);
    }
  }

  /** The sizes of the emitted groups plus two per dropped pair add up to the
      number of tables. */
  lemma {:induction false} SegmentsAccount(tables: seq<Table>)
    ensures TotalSize(Segments(tables)) + 2 * DropCount(Walk(tables)) == |tables|
    decreases |tables|
  {
    if |tables| == 1 {
      SingleTable(tables);
    } else if |tables| >= 2 {
      var steps := Walk(tables);
      var rest := if IsTimetable(tables[1]) || |tables[1].rows| == 1 then tables[2..] else tables[1..];
      SegmentsAccount(rest);
      assert steps[1..] == Walk(rest);
      TotalSizeAppend(Emitted(steps[..1]), Segments(rest));
      assert Segments(tables) == Emitted(steps[..1]) + Segments(rest);
    }
  }

  /** A pair is formed only with a bordered table of several rows, and a pair is
      dropped only when the candidate has exactly one row. */
  lemma {:induction false} WalkDecisions(tables: seq<Table>)
    ensures forall s :: s in Walk(tables) && s.Pair? ==> s.timetable.hasBorder && |s.timetable.rows| > 1
    ensures forall s :: s in Walk(tables) && s.Drop? ==> |s.candidate.rows| == 1
    decreases |tables|
  {
    if |tables| >= 2 {
      if IsTimetable(tables[1]) || |tables[1].rows| == 1 {
        WalkDecisions(tables[2..]);
      } else {
        WalkDecisions(tables[1..]);
      }
    }
  }

  /** Every emitted timetable has a header row and at least one data row. */
  lemma {:induction false} EmittedTimetablesHaveDataRows(steps: seq<Step>)
    requires forall s :: s in steps && s.Pair? ==> |s.timetable.rows| > 1
    ensures forall g :: g in Emitted(steps) && g.Paired? ==> |g.timetable| > 1
  {
    if steps != [] {
      EmittedTimetablesHaveDataRows(steps[1..]);
    }
  }

  /** A header followed by a one-row table is dropped together with it: no group
      is emitted for either. */
  lemma OneRowCandidateDropsHeader(tables: seq<Table>)
    requires |tables| >= 2 && |tables[1].rows| == 1
    ensures Segments(tables) == Segments(tables[2..])
  {
  }

  lemma SingleTable(tables: seq<Table>)
    requires |tables| == 1
    ensures Segments(tables) == [HeaderOnly(tables[0].rows)]
  {
    var steps := Walk(tables);
    assert steps == [Alone(tables[0])];
    assert steps[1..] == [];
    assert Emitted(steps) == [HeaderOnly(tables[0].rows)] + Emitted([]);
  }

  lemma SegmentsUnfold(tables: seq<Table>, i: nat)
    requires i < |tables|
    ensures i + 1 == |tables| ==> Segments(tables[i..]) == [HeaderOnly(tables[i].rows)]
    ensures i + 1 < |tables| && IsTimetable(tables[i + 1]) ==>
      Segments(tables[i..]) == [Paired(tables[i].rows, tables[i + 1].rows)] + Segments(tables[i + 2..])
    ensures i + 1 < |tables| && !IsTimetable(tables[i + 1]) && |tables[i + 1].rows| == 1 ==>
      Segments(tables[i..]) == Segments(tables[i + 2..])
    ensures i + 1 < |tables| && !IsTimetable(tables[i + 1]) && |tables[i + 1].rows| != 1 ==>
      Segments(tables[i..]) == [HeaderOnly(tables[i].rows)] + Segments(tables[i + 1..])
  {
    var t := tables[i..];
    if i + 1 == |tables| {
      SingleTable(t);
    } else {
      assert t[1] == tables[i + 1];
      assert t[2..] == tables[i + 2..];
      assert t[1..] == tables[i + 1..];
    }
  }

  /** The segmentation loop of `parse`: the index advances by 2 for a pair or a
      dropped pair and by 1 for a header alone. */
  method Segment(tables: seq<Table>) returns (groups: seq<Group>)
    ensures groups == Segments(tables)
    ensures forall g :: g in groups && g.Paired? ==> |g.timetable| > 1
  {
    groups := [];
    var i := 0;
    while i < |tables|
      invariant 0 <= i <= |tables|
      invariant groups + Segments(tables[i..]) == Segments(tables)
      decreases |tables| - i
    {
      SegmentsUnfold(tables, i);
      var moduleHeader := tables[i].rows;
      if i + 1 < |tables| {
        var moduleTimetable := tables[i + 1];
        var rows := moduleTimetable.rows;
        if moduleTimetable.hasBorder && |rows| > 1 {
          groups := groups + [Paired(moduleHeader, rows)];
          i := i + 2;
        } else if |rows| == 1 {
          i := i + 2;
        } else {
          groups := groups + [HeaderOnly(moduleHeader)];
          i := i + 1;
        }
      } else {
        groups := groups + [HeaderOnly(moduleHeader)];
        i := i + 1;
      }
    }
    assert tables[i..] == [];
    WalkDecisions(tables);
    EmittedTimetablesHaveDataRows(Walk(tables));
  }
}
