/** `generateCharstoStudents`: reads the Cast Assignments sheet into the
    character -> students dictionary and the roster of students. Every row
    is unpacked into the student's name, the character cells and a notes
    cell. */
module Cast {
  import opened Tables

  /** The number of cells of a Cast Assignments row: the student, at least
      no character cells, and the notes cell. */
  type CastWidth = w: nat | 2 <= w witness 2

  /** The characters a cast row assigns: its non-empty character cells,
      in column order. */
  function CastChars(row: Row, w: CastWidth): seq<string>
    requires |row| == w
  {
    NonEmpty(row[1..w - 1])
  }

  /** The row is as wide as the sheet and casts its student as `c`. */
  predicate Casts(row: Row, c: string, w: CastWidth)
  {
    |row| == w && c in CastChars(row, w)
  }

  /** The two results of the reader. */
  datatype CastIndex = CastIndex(charsToStudents: map<string, seq<string>>, students: seq<string>)

  const EmptyCast := CastIndex(map[], [])

  /** For each character in turn: if it already has a list, the student is
      appended to it, otherwise the character gets the list `[student]`. */
  function Assign(m: map<string, seq<string>>, chars: seq<string>, student: string): map<string, seq<string>>
  {
    if chars == [] then m
    else
      var prev := Assign(m, chars[..|chars| - 1], student);
      var c := chars[|chars| - 1];
      prev[c := if c in prev then prev[c] + [student] else [student]]
  }

  /** Assigning a student to characters creates exactly the missing
      characters, and each character's list gains the student once per
      occurrence of the character, at its end; other lists are unchanged. */
  lemma {:induction false} AssignSpec(m: map<string, seq<string>>, chars: seq<string>, student: string, c: string)
    ensures c in Assign(m, chars, student) <==> c in m || c in chars
    ensures Get(Assign(m, chars, student), c) == Get(m, c) + Repeat(student, Count(chars, c))
  {
    if chars != [] {
      var front, last := chars[..|chars| - 1], chars[|chars| - 1];
      AssignSpec(m, front, student, c);
      assert chars == front + [last];
      if last == c {
        assert Repeat(student, Count(chars, c)) == Repeat(student, Count(front, c)) + [student];
      }
    }
  }

  /** The loop over a row's characters. */
  method AssignStudent(charsToStudents: map<string, seq<string>>, chars: seq<string>, student: string)
    returns (m: map<string, seq<string>>)
    ensures m == Assign(charsToStudents, chars, student)
  {
    m := charsToStudents;
    var j := 0;
    while j < |chars|
      invariant j <= |chars|
      invariant m == Assign(charsToStudents, chars[..j], student)
    {
      assert chars[..j + 1][..j] == chars[..j];
      var c := chars[j];
      if c in m {
        m := m[c := m[c] + [student]];
      } else {
        m := m[c := [student]];
      }
      j := j + 1;
    }
    assert chars[..j] == chars;
  }

  /** One row, row number `n`: after the unpack the student joins the
      roster, then is assigned to each of the row's characters. */
  function CastStep(st: CastIndex, row: Row, n: nat, w: CastWidth): Result<CastIndex>
  {
    if |row| != w then Err(Unpack(n, w, |row|))
    else Ok(CastIndex(Assign(st.charsToStudents, CastChars(row, w), row[0]), st.students + [row[0]]))
  }

  function CastStepper(w: CastWidth): (CastIndex, Row, nat) -> Result<CastIndex>
  {
    (st: CastIndex, row: Row, n: nat) => CastStep(st, row, n, w)
  }

  /** What the reader returns for a Cast Assignments sheet. */
  function CastOf(t: Table, w: CastWidth): Result<CastIndex>
  {
    Fold(DataRows(t), EmptyCast, CastStepper(w))
  }

  /** The reader's loop: rows are counted from 1, the first three are
      skipped, the first empty row after them ends the sheet. */
  method GenerateCharsToStudents(t: Table, w: CastWidth) returns (r: Result<CastIndex>)
    ensures r == CastOf(t, w)
  {
    var charsToStudents: map<string, seq<string>> := map[];
    var students: seq<string> := [];
    ghost var consumed := 0;
    var i := 0;
    while i < |t|
      invariant consumed == i <= |t|
      invariant Filled(t, i)
      invariant Fold(Seen(t, i), EmptyCast, CastStepper(w)) == Ok(CastIndex(charsToStudents, students))
    {
      var row := t[i];
      i := i + 1;
      if i < HeaderRows + 1 {
        consumed := i;
        continue;
      }
      if row == [] {
        DataRowsFrom(t, consumed);
        break;
      }
      FoldSeenNext(t, i, EmptyCast, CastStepper(w), CastIndex(charsToStudents, students));
      if |row| != w {
        r := Err(Unpack(i, w, |row|));
        SeenErrIsFinal(t, i, EmptyCast, CastStepper(w));
        return;
      }
      var student := row[0];
      students := students + [student];
      var chars := KeepNonEmpty(row[1..w - 1]);
      charsToStudents := AssignStudent(charsToStudents, chars, student);
      consumed := i;
    }
    if consumed == i {
      DataRowsFrom(t, i);
    }
    r := Ok(CastIndex(charsToStudents, students));
  }

  /** The students cast as `c`, in row order, once per cell of their row
      that names `c`: the reference definition of a character's list. */
  function StudentsFor(rows: seq<Row>, c: string, w: CastWidth): seq<string>
  {
    if rows == [] then []
    else
      var last := rows[|rows| - 1];
      StudentsFor(rows[..|rows| - 1], c, w) + (if |last| == w then Repeat(last[0], Count(CastChars(last, w), c)) else [])
  }

  /** The reader succeeds exactly when every row has `w` cells; then the
      roster is the first cells of the rows, each student once per row in
      row order, and every character's list is the students cast as it, in
      row order. */
  lemma {:induction false} CastFold(rows: seq<Row>, w: CastWidth, c: string)
    ensures Fold(rows, EmptyCast, CastStepper(w)).Ok? <==> AllWidth(rows, w)
    ensures Fold(rows, EmptyCast, CastStepper(w)).Ok? ==>
      && Fold(rows, EmptyCast, CastStepper(w)).value.students == FirstCells(rows)
      && Get(Fold(rows, EmptyCast, CastStepper(w)).value.charsToStudents, c) == StudentsFor(rows, c, w)
  {
    if rows != [] {
      var front, last := rows[..|rows| - 1], rows[|rows| - 1];
      CastFold(front, w, c);
      if Fold(front, EmptyCast, CastStepper(w)).Ok? {
        FoldSnoc(rows, EmptyCast, CastStepper(w));
        if |last| == w {
          var prev := Fold(front, EmptyCast, CastStepper(w)).value;
          AssignSpec(prev.charsToStudents, CastChars(last, w), last[0], c);
          assert FirstCell(last) == last[0];
        }
      }
    }
  }

  /** Every student on a character's list has a row of their own, so is in
      the roster. */
  lemma {:induction false} StudentsForNamed(rows: seq<Row>, c: string, w: CastWidth)
    ensures forall s :: s in StudentsFor(rows, c, w) ==> s in FirstCells(rows)
  {
    if rows != [] {
      var last := rows[|rows| - 1];
      StudentsForNamed(rows[..|rows| - 1], c, w);
      assert FirstCell(last) in FirstCells(rows);
    }
  }

  /** A character has students exactly when some row casts it. */
  lemma {:induction false} StudentsForNonEmpty(rows: seq<Row>, c: string, w: CastWidth)
    ensures StudentsFor(rows, c, w) != [] <==> exists j :: 0 <= j < |rows| && Casts(rows[j], c, w)
  {
    if rows != [] {
      var front := rows[..|rows| - 1];
      StudentsForNonEmpty(front, c, w);
      LastRowCasts(rows, c, w);
      CastsSnoc(rows, front, c, w);
    }
  }

  /** The last row adds students for `c` exactly when it casts `c`. */
  lemma LastRowCasts(rows: seq<Row>, c: string, w: CastWidth)
    requires rows != []
    ensures StudentsFor(rows, c, w) != [] <==> StudentsFor(rows[..|rows| - 1], c, w) != [] || Casts(rows[|rows| - 1], c, w)
  {
    var last := rows[|rows| - 1];
    if |last| == w {
      CountPositive(CastChars(last, w), c);
    }
  }

  /** Some row casts `c` exactly when a row before the last one or the
      last one does. */
  lemma CastsSnoc(rows: seq<Row>, front: seq<Row>, c: string, w: CastWidth)
    requires rows != [] && front == rows[..|rows| - 1]
    ensures (exists j :: 0 <= j < |rows| && Casts(rows[j], c, w))
        <==> (exists j :: 0 <= j < |front| && Casts(front[j], c, w)) || Casts(rows[|rows| - 1], c, w)
  {
    if exists j :: 0 <= j < |front| && Casts(front[j], c, w) {
      var j :| 0 <= j < |front| && Casts(front[j], c, w);
      assert rows[j] == front[j];
    }
    if exists j :: 0 <= j < |rows| && Casts(rows[j], c, w) {
      var j :| 0 <= j < |rows| && Casts(rows[j], c, w);
      if j < |front| {
        assert front[j] == rows[j];
      }
    }
  }

  /** A character is a key of the dictionary exactly when it has a
      non-empty list, and its list is never empty. */
  lemma {:induction false} CastKeysHaveStudents(rows: seq<Row>, w: CastWidth)
    requires Fold(rows, EmptyCast, CastStepper(w)).Ok?
    ensures var m := Fold(rows, EmptyCast, CastStepper(w)).value.charsToStudents;
      forall c :: c in m ==> m[c] != []
  {
    if rows != [] {
      var front, last := rows[..|rows| - 1], rows[|rows| - 1];
      assert Fold(front, EmptyCast, CastStepper(w)).Ok?;
      CastKeysHaveStudents(front, w);
      FoldSnoc(rows, EmptyCast, CastStepper(w));
      var prev := Fold(front, EmptyCast, CastStepper(w)).value;
      forall c | c in Fold(rows, EmptyCast, CastStepper(w)).value.charsToStudents
        ensures Fold(rows, EmptyCast, CastStepper(w)).value.charsToStudents[c] != []
      {
        AssignSpec(prev.charsToStudents, CastChars(last, w), last[0], c);
        CountPositive(CastChars(last, w), c);
      }
    }
  }

  /** The cast of a sheet: with every data row `w` cells wide the reader
      succeeds; the roster holds each row's student in row order; a
      character is a key exactly when some row casts it, its list being the
      students cast as it; and every listed student is on the roster, so
      looking up a student's calendar never fails. */
  lemma CastSpec(t: Table, w: CastWidth, c: string)
    ensures CastOf(t, w).Ok? <==> AllWidth(DataRows(t), w)
    ensures CastOf(t, w).Ok? ==>
      var rows := DataRows(t);
      var cast := CastOf(t, w).value;
      && cast.students == FirstCells(rows)
      && |cast.students| == |rows|
      && Get(cast.charsToStudents, c) == StudentsFor(rows, c, w)
      && (c in cast.charsToStudents <==> exists j :: 0 <= j < |rows| && Casts(rows[j], c, w))
      && (forall s :: s in Get(cast.charsToStudents, c) ==> s in cast.students)
  {
    var rows := DataRows(t);
    CastFold(rows, w, c);
    if CastOf(t, w).Ok? {
      CastKeysHaveStudents(rows, w);
      StudentsForNonEmpty(rows, c, w);
      StudentsForNamed(rows, c, w);
    }
  }
}
