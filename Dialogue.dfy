/** `generateActDialogueLists`: reads the Characters / Ensembles sheet into
    the act -> characters-with-dialogue dictionary. Every row is unpacked
    into five cells: the character, its act 1 and act 2 dialogue flags, its
    ensembles and whether it is in the program. */
module Dialogue {
  import opened Tables

  /** The cells of a Characters / Ensembles row. */
  const DialogueWidth: nat := 5

  /** The act -> flag column of a Characters / Ensembles row. */
  function FlagColumn(act: int): nat
  {
    if act == 1 then 1 else 2
  }

  /** One row, row number `n`: after the unpack, the character joins the
      list of each act whose flag cell is exactly "1", act 1 first. */
  function DialogueStep(acts: ActMap, row: Row, n: nat): Result<ActMap>
  {
    if |row| != DialogueWidth then Err(Unpack(n, DialogueWidth, |row|))
    else
      var a1: ActMap := if row[1] == "1" then acts[1 := acts[1] + [row[0]]] else acts;
      var a2: ActMap := if row[2] == "1" then a1[2 := a1[2] + [row[0]]] else a1;
      Ok(a2)
  }

  function DialogueStepper(): (ActMap, Row, nat) -> Result<ActMap>
  {
    (acts: ActMap, row: Row, n: nat) => DialogueStep(acts, row, n)
  }

  /** What the reader returns for a Characters / Ensembles sheet. */
  function DialogueListsOf(t: Table): Result<ActMap>
  {
    Fold(DataRows(t), NoActs, DialogueStepper())
  }

  /** The reader's loop: rows are counted from 1, the first three are
      skipped, the first empty row after them ends the sheet. */
  method GenerateActDialogueLists(t: Table) returns (r: Result<ActMap>)
    ensures r == DialogueListsOf(t)
  {
    var actToChars := NoActs;
    ghost var consumed := 0;
    var i := 0;
    while i < |t|
      invariant consumed == i <= |t|
      invariant Filled(t, i)
      invariant Fold(Seen(t, i), NoActs, DialogueStepper()) == Ok(actToChars)
    {
      var row := t[i];
      i := i + 1;
      if i < HeaderRows + 1 {
        consumed := i;
        continue;
      }
      if row == [] {
        DataRowsFrom(t, consumed);
        break;
      }
      FoldSeenNext(t, i, NoActs, DialogueStepper(), actToChars);
      if |row| != DialogueWidth {
        r := Err(Unpack(i, DialogueWidth, |row|));
        SeenErrIsFinal(t, i, NoActs, DialogueStepper());
        return;
      }
      var character, act1Dialogue, act2Dialogue := row[0], row[1], row[2];
      if act1Dialogue == "1" {
        actToChars := actToChars[1 := actToChars[1] + [character]];
      }
      if act2Dialogue == "1" {
        actToChars := actToChars[2 := actToChars[2] + [character]];
      }
      consumed := i;
    }
    if consumed == i {
      DataRowsFrom(t, i);
    }
    r := Ok(actToChars);
  }

  /** The characters whose flag cell in column `col` is exactly "1", in row
      order: the reference definition of a dialogue list. */
  function Flagged(rows: seq<Row>, col: nat): seq<string>
  {
    if rows == [] then []
    else
      var last := rows[|rows| - 1];
      Flagged(rows[..|rows| - 1], col) + (if col < |last| && last[col] == "1" then [last[0]] else [])
  }

  /** The reader succeeds exactly when every row has five cells, and then
      act `a`'s list is the characters flagged for act `a`, in row order,
      for both acts independently. */
  lemma {:induction false} DialogueFold(rows: seq<Row>)
    ensures Fold(rows, NoActs, DialogueStepper()).Ok? <==> AllWidth(rows, DialogueWidth)
    ensures Fold(rows, NoActs, DialogueStepper()).Ok? ==>
      Fold(rows, NoActs, DialogueStepper()).value == map[1 := Flagged(rows, 1), 2 := Flagged(rows, 2)]
  {
    if rows != [] {
      var front, last := rows[..|rows| - 1], rows[|rows| - 1];
      DialogueFold(front);
      if Fold(front, NoActs, DialogueStepper()).Ok? {
        FoldSnoc(rows, NoActs, DialogueStepper());
        var f1, f2 := Flagged(front, 1), Flagged(front, 2);
        if |last| == DialogueWidth {
          if last[1] == "1" {
            assert Flagged(rows, 1) == f1 + [last[0]];
          } else {
            assert Flagged(rows, 1) == f1 + [] == f1;
          }
          if last[2] == "1" {
            assert Flagged(rows, 2) == f2 + [last[0]];
          } else {
            assert Flagged(rows, 2) == f2 + [] == f2;
          }
        }
      }
    }
  }

  /** A character is on act `a`'s list exactly when some row names it and
      has "1" in that act's flag cell. */
  lemma {:induction false} FlaggedMembers(rows: seq<Row>, col: nat, c: string)
    ensures c in Flagged(rows, col) <==> exists j :: 0 <= j < |rows| && col < |rows[j]| && rows[j][col] == "1" && rows[j][0] == c
  {
    if rows != [] {
      var front := rows[..|rows| - 1];
      FlaggedMembers(front, col, c);
      if c in Flagged(front, col) {
        var j :| 0 <= j < |front| && col < |front[j]| && front[j][col] == "1" && front[j][0] == c;
        assert rows[j] == front[j];
      }
      if exists j :: 0 <= j < |rows| && col < |rows[j]| && rows[j][col] == "1" && rows[j][0] == c {
        var j :| 0 <= j < |rows| && col < |rows[j]| && rows[j][col] == "1" && rows[j][0] == c;
        if j < |front| {
          assert front[j] == rows[j];
        }
      }
    }
  }

  /** The dialogue lists of a sheet: with every data row five cells wide
      the reader succeeds, and a character is on act `a`'s list exactly
      when one of its rows flags act `a` with "1". */
  lemma DialogueListsSpec(t: Table, a: int, c: string)
    requires a == 1 || a == 2
    ensures DialogueListsOf(t).Ok? <==> AllWidth(DataRows(t), DialogueWidth)
    ensures DialogueListsOf(t).Ok? ==>
      (c in DialogueListsOf(t).value[a] <==>
         exists j :: 0 <= j < |DataRows(t)| && FlagColumn(a) < |DataRows(t)[j]| && DataRows(t)[j][FlagColumn(a)] == "1" && DataRows(t)[j][0] == c)
  {
    var rows := DataRows(t);
    DialogueFold(rows);
    FlaggedMembers(rows, FlagColumn(a), c);
  }
}
