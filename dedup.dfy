// The per-module lesson loop: rows after the header row, deduplicated by key
// with a seen-set that starts empty for every module.

module Dedup {
  import opened Page
  import opened Lessons

  /** Every row has a key (at least two cells). */
  predicate Keyed(rows: seq<Row>)
  {
    forall i :: 0 <= i < |rows| ==> |rows[i]| >= 2
  }

  function KeysOf(rows: seq<Row>): set<string>
    requires Keyed(rows)
  {
    set i | 0 <= i < |rows| :: Uid(rows[i])
  }

  lemma KeysOfCons(rows: seq<Row>)
    requires Keyed(rows) && rows != []
    ensures KeysOf(rows) == {Uid(rows[0])} + KeysOf(rows[1..])
  {
    forall k | k in KeysOf(rows) ensures k in {Uid(rows[0])} + KeysOf(rows[1..]) {
      var i :| 0 <= i < |rows| && Uid(rows[i]) == k;
      if i > 0 {
        assert Uid(rows[1..][i - 1]) == k;
      }
    }
    forall k | k in KeysOf(rows[1..]) ensures k in KeysOf(rows) {
      var i :| 0 <= i < |rows[1..]| && Uid(rows[1..][i]) == k;
      assert Uid(rows[i + 1]) == k;
    }
  }

  /** The rows the seen-set loop turns into lessons: a row is kept when its key
      is not yet seen, and its key is then added to the seen-set. */
  function KeptRows(rows: seq<Row>, seen: set<string>): (kept: seq<Row>)
    requires Keyed(rows)
    ensures Keyed(kept)
    ensures forall x :: x in kept ==> x in rows
  {
    if rows == [] then []
    else
      var k := Uid(rows[0]);
      if k in seen then KeptRows(rows[1..], seen)
      else [rows[0]] + KeptRows(rows[1..], seen + {k})
  }

  /** Row `j` is the first occurrence of its key, and that key was not seen before. */
  predicate FirstAt(rows: seq<Row>, j: nat, seen: set<string>)
    requires Keyed(rows) && j < |rows|
  {
    Uid(rows[j]) !in seen && forall i :: 0 <= i < j ==> Uid(rows[i]) != Uid(rows[j])
  }

  /** Reference definition of first-occurrence deduplication, without a
      seen-set: the rows that are first occurrences, in their original order. */
  function FirstOccurrences(rows: seq<Row>, seen: set<string>): seq<Row>
    requires Keyed(rows)
  {
    if rows == [] then []
    else
      var n := |rows| - 1;
      FirstOccurrences(rows[..n], seen) + (if FirstAt(rows, n, seen) then [rows[n]] else [])
  }

  lemma {:induction false} KeptRowsSnoc(rows: seq<Row>, r: Row, seen: set<string>)
    requires Keyed(rows) && |r| >= 2
    ensures Keyed(rows + [r])
    ensures KeptRows(rows + [r], seen)
      == KeptRows(rows, seen) + (if Uid(r) !in seen + KeysOf(rows) then [r] else [])
  {
    var all := rows + [r];
    assert Keyed(all);
    if rows == [] {
      assert all == [r];
      assert KeptRows(all[1..], seen + {Uid(r)}) == [];
    } else {
      var k0 := Uid(rows[0]);
      assert all[0] == rows[0];
      assert all[1..] == rows[1..] + [r];
      KeysOfCons(rows);
      if k0 in seen {
        KeptRowsSnoc(rows[1..], r, seen);
      } else {
        KeptRowsSnoc(rows[1..], r, seen + {k0});
      }
    }
  }

  /** The seen-set loop keeps exactly the first row of each key, in row order. */
  lemma {:induction false} KeptRowsAreFirstOccurrences(rows: seq<Row>, seen: set<string>)
    requires Keyed(rows)
    ensures KeptRows(rows, seen) == FirstOccurrences(rows, seen)
  {
    if rows != [] {
      var n := |rows| - 1;
      var init := rows[..n];
      assert rows == init + [rows[n]];
      KeptRowsAreFirstOccurrences(init, seen);
      KeptRowsSnoc(init, rows[n], seen);
      assert FirstAt(rows, n, seen) <==> Uid(rows[n]) !in seen + KeysOf(init) by {
        if Uid(rows[n]) in KeysOf(init) {
          var i :| 0 <= i < |init| && Uid(init[i]) == Uid(rows[n]);
          assert Uid(rows[i]) == Uid(rows[n]);
        }
        if !FirstAt(rows, n, seen) && Uid(rows[n]) !in seen {
          var i :| 0 <= i < n && Uid(rows[i]) == Uid(rows[n]);
          assert Uid(init[i]) == Uid(rows[n]);
        }
      }
    }
  }

  /** No two kept rows share a key, and no kept row has a key seen before. */
  lemma {:induction false} KeptRowsDistinct(rows: seq<Row>, seen: set<string>)
    requires Keyed(rows)
    ensures forall i :: 0 <= i < |KeptRows(rows, seen)| ==> Uid(KeptRows(rows, seen)[i]) !in seen
    ensures forall i, j :: 0 <= i < j < |KeptRows(rows, seen)| ==>
      Uid(KeptRows(rows, seen)[i]) != Uid(KeptRows(rows, seen)[j])
  {
    if rows != [] {
      var k := Uid(rows[0]);
      if k in seen {
        KeptRowsDistinct(rows[1..], seen);
        assert KeptRows(rows, seen) == KeptRows(rows[1..], seen);
      } else {
        KeptRowsDistinct(rows[1..], seen + {k});
        var kept := KeptRows(rows, seen);
        assert kept[1..] == KeptRows(rows[1..], seen + {k});
        forall i, j | 0 <= i < j < |kept| ensures Uid(kept[i]) != Uid(kept[j]) {
          if i > 0 {
            assert Uid(kept[1..][i - 1]) != Uid(kept[1..][j - 1]);
          } else {
            assert Uid(kept[1..][j - 1]) !in seen + {k};
          }
        }
        forall i | 0 <= i < |kept| ensures Uid(kept[i]) !in seen {
          if i > 0 {
            assert Uid(kept[1..][i - 1]) !in seen + {k};
          }
        }
      }
    }
  }

  /** Every key of the input is kept (or was seen before): one lesson per distinct key. */
  lemma {:induction false} KeptRowsCoverKeys(rows: seq<Row>, seen: set<string>)
    requires Keyed(rows)
    ensures seen + KeysOf(KeptRows(rows, seen)) == seen + KeysOf(rows)
  {
    if rows != [] {
      var k := Uid(rows[0]);
      KeysOfCons(rows);
      if k in seen {
        KeptRowsCoverKeys(rows[1..], seen);
      } else {
        KeptRowsCoverKeys(rows[1..], seen + {k});
        var kept := KeptRows(rows, seen);
        assert kept[1..] == KeptRows(rows[1..], seen + {k});
        KeysOfCons(kept);
      }
    }
  }

  /** Rows with pairwise distinct, unseen keys are all kept. */
  lemma {:induction false} KeptRowsOfDistinct(rows: seq<Row>, seen: set<string>)
    requires Keyed(rows)
    requires forall i :: 0 <= i < |rows| ==> Uid(rows[i]) !in seen
    requires forall i, j :: 0 <= i < j < |rows| ==> Uid(rows[i]) != Uid(rows[j])
    ensures KeptRows(rows, seen) == rows
  {
    if rows != [] {
      var k := Uid(rows[0]);
      forall i | 0 <= i < |rows[1..]| ensures Uid(rows[1..][i]) !in seen + {k} {
        assert Uid(rows[i + 1]) != Uid(rows[0]);
      }
      KeptRowsOfDistinct(rows[1..], seen + {k});
    }
  }

  /** Deduplicating an already deduplicated timetable changes nothing. */
  lemma KeptRowsIdempotent(rows: seq<Row>)
    requires Keyed(rows)
    ensures KeptRows(KeptRows(rows, {}), {}) == KeptRows(rows, {})
  {
    KeptRowsDistinct(rows, {});
    KeptRowsOfDistinct(KeptRows(rows, {}), {});
  }

  function Prepend(l: Lesson, r: Result<seq<Lesson>>): Result<seq<Lesson>>
  {
    match r
    case Ok(ls) => Ok([l] + ls)
    case Err(e) => Err(e)
  }

  function Extend(prefix: seq<Lesson>, r: Result<seq<Lesson>>): Result<seq<Lesson>>
  {
    match r
    case Ok(ls) => Ok(prefix + ls)
    case Err(e) => Err(e)
  }

  /** `parseLesson` applied to each row in turn; the first failure ends it. */
  function ParseEach(rows: seq<Row>): (r: Result<seq<Lesson>>)
    ensures r.Ok? <==> forall i :: 0 <= i < |rows| ==> ParseLesson(rows[i]).Ok?
    ensures r.Ok? ==> |r.value| == |rows|
    ensures r.Ok? ==> forall i :: 0 <= i < |rows| ==> r.value[i] == ParseLesson(rows[i]).value
  {
    if rows == [] then Ok([])
    else
      var first := ParseLesson(rows[0]);
      if first.Err? then Err(first.error)
      else
        var rest := ParseEach(rows[1..]);
        assert forall i :: 1 <= i < |rows| ==> rows[i] == rows[1..][i - 1];
        Prepend(first.value, rest)
  }

  /** What the lesson loop of `parse` produces from the data rows, given the
      keys already seen: a key is computed for every row (a row with fewer than
      two cells raises), and a row with a new key is parsed into a lesson. */
  function LessonsFrom(rows: seq<Row>, seen: set<string>): (r: Result<seq<Lesson>>)
    ensures r.Ok? ==> |r.value| <= |rows|
  {
    if rows == [] then Ok([])
    else if |rows[0]| < 2 then Err(RowTooShort)
    else
      var k := Uid(rows[0]);
      if k in seen then LessonsFrom(rows[1..], seen)
      else match ParseLesson(rows[0])
        case Err(e) => Err(e)
        case Ok(l) => Prepend(l, LessonsFrom(rows[1..], seen + {k}))
  }

  /** The loop is "deduplicate, then parse": when every row has a key, its
      result is the parse of the kept rows; otherwise it fails. */
  lemma {:induction false} LessonsFromIsParseOfKept(rows: seq<Row>, seen: set<string>)
    ensures Keyed(rows) ==> LessonsFrom(rows, seen) == ParseEach(KeptRows(rows, seen))
    ensures !Keyed(rows) ==> LessonsFrom(rows, seen).Err?
  {
    if rows != [] {
      if |rows[0]| >= 2 {
        var k := Uid(rows[0]);
        assert Keyed(rows) <==> Keyed(rows[1..]) by {
          if Keyed(rows[1..]) {
            forall i | 0 <= i < |rows| ensures |rows[i]| >= 2 {
              if i > 0 { assert rows[i] == rows[1..][i - 1]; }
            }
          }
        }
        if k in seen {
          LessonsFromIsParseOfKept(rows[1..], seen);
        } else {
          LessonsFromIsParseOfKept(rows[1..], seen + {k});
          if Keyed(rows) {
            var kept := KeptRows(rows, seen);
            assert kept[0] == rows[0] && kept[1..] == KeptRows(rows[1..], seen + {k});
          }
        }
      }
    }
  }

  lemma ExtendPrepend(prefix: seq<Lesson>, l: Lesson, r: Result<seq<Lesson>>)
    ensures Extend(prefix, Prepend(l, r)) == Extend(prefix + [l], r)
  {
    if r.Ok? {
      assert prefix + ([l] + r.value) == (prefix + [l]) + r.value;
    }
  }

  /** The lesson loop of `parse` (rows 1 onward, a fresh seen-set), proved
      against LessonsFrom; a failure returns at once, as the exception would. */
  method DedupLessons(timetable: seq<Row>) returns (r: Result<seq<Lesson>>)
    ensures r == LessonsFrom(Tail(timetable, 1), {})
  {
    var lessonUids: set<string> := {};
    var lessons: seq<Lesson> := [];
    var i := 1;
    assert Extend(lessons, LessonsFrom(Tail(timetable, i), lessonUids)) == LessonsFrom(Tail(timetable, 1), {}) by {
      var x := LessonsFrom(Tail(timetable, 1), {});
      if x.Ok? { assert [] + x.value == x.value; }
    }
    while i < |timetable|
      invariant 1 <= i
      invariant i <= |timetable| || |timetable| == 0
      invariant Extend(lessons, LessonsFrom(Tail(timetable, i), lessonUids))
        == LessonsFrom(Tail(timetable, 1), {})
    {
      var row := timetable[i];
      assert Tail(timetable, i)[0] == row && Tail(timetable, i)[1..] == Tail(timetable, i + 1);
      if |row| < 2 {
        assert LessonsFrom(Tail(timetable, i), lessonUids) == Err(RowTooShort);
        return Err(RowTooShort);
      }
      var uid := Uid(row);
      if uid !in lessonUids {
        var seen := lessonUids;
        lessonUids := lessonUids + {uid};
        match ParseLesson(row)
        case Err(e) =>
          assert LessonsFrom(Tail(timetable, i), seen) == Err(e);
          return Err(e);
        case Ok(l) =>
          ExtendPrepend(lessons, l, LessonsFrom(Tail(timetable, i + 1), lessonUids));
          lessons := lessons + [l];
      }
      i := i + 1;
    }
    assert Tail(timetable, i) == [] && lessons + [] == lessons;
    r := Ok(lessons);
  }
}
