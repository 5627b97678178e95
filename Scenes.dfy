/** `generateScenestoChars`: reads the Scenes sheet into the scene ->
    characters dictionary and, where the production numbers its acts, the
    act -> scenes dictionary. */
module Scenes {
  import opened Tables
  import opened Text

  datatype SceneColumns = SceneColumns(width: nat, firstChar: nat, charCols: nat)

  /** Where a production's Scenes sheet keeps its cells: every row is
      unpacked into exactly `width` cells, the scene name in column 0, the
      act in column 1 and the characters in the `charCols` columns from
      `firstChar` on. */
  type SceneLayout = l: SceneColumns | 2 <= l.firstChar && l.firstChar + l.charCols <= l.width
    witness SceneColumns(2, 2, 0)

  /** The two dictionaries the reader returns: the scenes in insertion
      order with their characters, and the scenes of each act. */
  datatype SceneIndex = SceneIndex(scenes: OrderedMap, acts: ActMap)

  const EmptyIndex := SceneIndex(EmptyMap, NoActs)

  /** The characters a scene row lists: its non-empty character cells. */
  function SceneChars(row: Row, L: SceneLayout): seq<string>
    requires |row| == L.width
  {
    NonEmpty(row[L.firstChar..L.firstChar + L.charCols])
  }

  /** Appending the scene to its act's list for a non-empty act cell:
      the cell must read as an integer and name act 1 or act 2. An empty
      cell adds nothing. */
  function AddToAct(acts: ActMap, act: string, scene: string): Result<ActMap>
  {
    if act == "" then Ok(acts)
    else
      match ParseInt(act)
      case None => Err(NotAnInt(act))
      case Some(a) =>
        if a in acts then
          var added: ActMap := acts[a := acts[a] + [scene]];
          Ok(added)
        else Err(NoAct(a))
  }

  /** An empty act cell leaves the acts as they are; otherwise the cell
      must read as an integer that is one of the acts, and exactly that
      act's list gains the scene at its end. */
  lemma AddToActSpec(acts: ActMap, act: string, scene: string)
    ensures act == "" ==> AddToAct(acts, act, scene) == Ok(acts)
    ensures act != "" && ParseInt(act).None? ==> AddToAct(acts, act, scene) == Err(NotAnInt(act))
    ensures act != "" && ParseInt(act).Some? && ParseInt(act).value !in acts
         ==> AddToAct(acts, act, scene) == Err(NoAct(ParseInt(act).value))
    ensures act != "" && ParseInt(act).Some? && ParseInt(act).value in acts
         ==> && AddToAct(acts, act, scene).Ok?
             && AddToAct(acts, act, scene).value == acts[ParseInt(act).value := acts[ParseInt(act).value] + [scene]]
  {
  }

  /** One row of the Scenes sheet, row number `n`. The row is unpacked
      (its width must be exact); the scene's list is set to the row's
      characters, replacing any earlier row of that name; with acts
      tracked, the scene is then added to its act. */
  function SceneStep(st: SceneIndex, row: Row, n: nat, L: SceneLayout, tracksActs: bool): Result<SceneIndex>
  {
    if |row| != L.width then Err(Unpack(n, L.width, |row|))
    else
      var scenes := st.scenes.Put(row[0], SceneChars(row, L));
      if !tracksActs then Ok(SceneIndex(scenes, st.acts))
      else
        match AddToAct(st.acts, row[1], row[0])
        case Err(e) => Err(e)
        case Ok(acts) => Ok(SceneIndex(scenes, acts))
  }

  function SceneStepper(L: SceneLayout, tracksActs: bool): (SceneIndex, Row, nat) -> Result<SceneIndex>
  {
    (st: SceneIndex, row: Row, n: nat) => SceneStep(st, row, n, L, tracksActs)
  }

  /** What the reader returns for a Scenes sheet. */
  function ScenesOf(t: Table, L: SceneLayout, tracksActs: bool): Result<SceneIndex>
  {
    Fold(DataRows(t), EmptyIndex, SceneStepper(L, tracksActs))
  }

  /** Reading table row `i` (1-based) is one more step of the reader. */
  lemma ScenesSeenNext(t: Table, i: nat, L: SceneLayout, tracksActs: bool, st: SceneIndex)
    requires HeaderRows < i <= |t|
    requires Fold(Seen(t, i - 1), EmptyIndex, SceneStepper(L, tracksActs)) == Ok(st)
    ensures Fold(Seen(t, i), EmptyIndex, SceneStepper(L, tracksActs)) == SceneStep(st, t[i - 1], i, L, tracksActs)
  {
    FoldSeenNext(t, i, EmptyIndex, SceneStepper(L, tracksActs), st);
  }

  /** The body of the reader's loop for one row, row number `n`. */
  method ReadSceneRow(scenesToChars: OrderedMap, actsToScenes: ActMap, row: Row, n: nat, L: SceneLayout, tracksActs: bool)
    returns (r: Result<SceneIndex>)
    ensures r == SceneStep(SceneIndex(scenesToChars, actsToScenes), row, n, L, tracksActs)
  {
    if |row| != L.width {
      return Err(Unpack(n, L.width, |row|));
    }
    var scene, act := row[0], row[1];
    var chars := KeepNonEmpty(row[L.firstChar..L.firstChar + L.charCols]);
    var scenes := scenesToChars.Put(scene, chars);
    var acts := actsToScenes;
    if tracksActs {
      var added := AddToAct(actsToScenes, act, scene);
      if added.Err? {
        return Err(added.error);
      }
      acts := added.value;
    }
    r := Ok(SceneIndex(scenes, acts));
  }

  /** The reader's loop: rows are counted from 1, the first three are
      skipped, the first empty row after them ends the sheet. */
  method GenerateScenesToChars(t: Table, L: SceneLayout, tracksActs: bool) returns (r: Result<SceneIndex>)
    ensures r == ScenesOf(t, L, tracksActs)
  {
    var scenesToChars := EmptyMap;
    var actsToScenes := NoActs;
    ghost var consumed := 0;
    var i := 0;
    while i < |t|
      invariant consumed == i <= |t|
      invariant Filled(t, i)
      invariant Fold(Seen(t, i), EmptyIndex, SceneStepper(L, tracksActs)) == Ok(SceneIndex(scenesToChars, actsToScenes))
    {
      var row := t[i];
      i := i + 1;
      if i < HeaderRows + 1 {
        consumed := i;
        continue;
      }
      if row == [] {
        DataRowsFrom(t, consumed);
        break;
      }
      ScenesSeenNext(t, i, L, tracksActs, SceneIndex(scenesToChars, actsToScenes));
      var next := ReadSceneRow(scenesToChars, actsToScenes, row, i, L, tracksActs);
      if next.Err? {
        r := Err(next.error);
        SeenErrIsFinal(t, i, EmptyIndex, SceneStepper(L, tracksActs));
        return;
      }
      scenesToChars, actsToScenes := next.value.scenes, next.value.acts;
      consumed := i;
    }
    if consumed == i {
      DataRowsFrom(t, i);
    }
    r := Ok(SceneIndex(scenesToChars, actsToScenes));
  }

  /** A row the reader accepts: exactly as wide as the layout and, when
      acts are tracked, with an act cell that is empty or reads as 1 or 2. */
  predicate RowOk(row: Row, L: SceneLayout, tracksActs: bool)
  {
    && |row| == L.width
    && (tracksActs && row[1] != "" ==> ParseInt(row[1]) == Some(1) || ParseInt(row[1]) == Some(2))
  }

  /** Every row is accepted. */
  predicate WellFormedRows(rows: seq<Row>, L: SceneLayout, tracksActs: bool)
  {
    rows == [] || (WellFormedRows(rows[..|rows| - 1], L, tracksActs) && RowOk(rows[|rows| - 1], L, tracksActs))
  }

  lemma {:induction false} WellFormedRowsAt(rows: seq<Row>, L: SceneLayout, tracksActs: bool)
    requires WellFormedRows(rows, L, tracksActs)
    ensures forall j :: 0 <= j < |rows| ==> RowOk(rows[j], L, tracksActs)
  {
    if rows != [] {
      WellFormedRowsAt(rows[..|rows| - 1], L, tracksActs);
    }
  }

  /** The act cell of a row (its second cell). */
  function ActCell(row: Row): string
  {
    if |row| < 2 then "" else row[1]
  }

  /** The scenes whose act cell reads as `a`, in row order. */
  function ActScenes(rows: seq<Row>, a: int): seq<string>
  {
    if rows == [] then []
    else
      var last := rows[|rows| - 1];
      ActScenes(rows[..|rows| - 1], a) + (if ActCell(last) != "" && ParseInt(ActCell(last)) == Some(a) then [FirstCell(last)] else [])
  }

  /** Row `j` is the last row naming its scene. */
  predicate LastWithName(rows: seq<Row>, j: nat)
    requires j < |rows|
  {
    forall j' :: j < j' < |rows| ==> FirstCell(rows[j']) != FirstCell(rows[j])
  }

  lemma {:induction false} ActScenesAreNamed(rows: seq<Row>, a: int)
    ensures forall s :: s in ActScenes(rows, a) ==> s in FirstCells(rows)
  {
    if rows != [] {
      ActScenesAreNamed(rows[..|rows| - 1], a);
    }
  }

  /** When every row is well formed the reader succeeds, and each act's
      list holds the scenes whose act cell reads as that act, in row order;
      both lists stay empty when acts are not tracked. */
  lemma {:induction false} SceneFoldActs(rows: seq<Row>, L: SceneLayout, tracksActs: bool)
    requires WellFormedRows(rows, L, tracksActs)
    ensures Fold(rows, EmptyIndex, SceneStepper(L, tracksActs)).Ok?
    ensures Fold(rows, EmptyIndex, SceneStepper(L, tracksActs)).value.acts
         == if tracksActs then map[1 := ActScenes(rows, 1), 2 := ActScenes(rows, 2)] else NoActs
  {
    if rows != [] {
      var front, last := rows[..|rows| - 1], rows[|rows| - 1];
      SceneFoldActs(front, L, tracksActs);
      FoldSnoc(rows, EmptyIndex, SceneStepper(L, tracksActs));
      var prev := Fold(front, EmptyIndex, SceneStepper(L, tracksActs)).value;
      SceneStepActs(prev, last, HeaderRows + |rows|, L, tracksActs);
      if tracksActs {
        ActScenesStep(rows, L);
      }
    }
  }

  /** The acts' scenes after one more accepted row: its scene is added to
      the act its act cell names, if any. */
  lemma ActScenesStep(rows: seq<Row>, L: SceneLayout)
    requires rows != [] && RowOk(rows[|rows| - 1], L, true)
    ensures var front, last := rows[..|rows| - 1], rows[|rows| - 1];
      var before: ActMap := map[1 := ActScenes(front, 1), 2 := ActScenes(front, 2)];
      map[1 := ActScenes(rows, 1), 2 := ActScenes(rows, 2)]
        == if last[1] != "" then before[ParseInt(last[1]).value := before[ParseInt(last[1]).value] + [last[0]]] else before
  {
    var front, last := rows[..|rows| - 1], rows[|rows| - 1];
    var a1, a2 := ActScenes(front, 1), ActScenes(front, 2);
    assert FirstCell(last) == last[0] && ActCell(last) == last[1];
    if last[1] == "" {
      assert ActScenes(rows, 1) == a1 + [] == a1;
      assert ActScenes(rows, 2) == a2 + [] == a2;
    } else if ParseInt(last[1]) == Some(1) {
      assert ActScenes(rows, 1) == a1 + [last[0]];
      assert ActScenes(rows, 2) == a2 + [] == a2;
    } else {
      assert ActScenes(rows, 1) == a1 + [] == a1;
      assert ActScenes(rows, 2) == a2 + [last[0]];
    }
  }

  /** One accepted row changes the acts only by adding its scene to the
      act its act cell names. */
  lemma SceneStepActs(st: SceneIndex, row: Row, n: nat, L: SceneLayout, tracksActs: bool)
    requires RowOk(row, L, tracksActs)
    ensures SceneStep(st, row, n, L, tracksActs).Ok?
    ensures SceneStep(st, row, n, L, tracksActs).value.scenes == st.scenes.Put(row[0], SceneChars(row, L))
    ensures SceneStep(st, row, n, L, tracksActs).value.acts
         == if tracksActs && row[1] != "" then st.acts[ParseInt(row[1]).value := st.acts[ParseInt(row[1]).value] + [row[0]]]
            else st.acts
  {
    AddToActSpec(st.acts, row[1], row[0]);
  }

  /** Once the reader has succeeded, its scene dictionary is keyed by the
      scene names in order of first appearance. */
  lemma {:induction false} SceneFoldKeys(rows: seq<Row>, L: SceneLayout, tracksActs: bool)
    requires Fold(rows, EmptyIndex, SceneStepper(L, tracksActs)).Ok?
    ensures var m := Fold(rows, EmptyIndex, SceneStepper(L, tracksActs)).value.scenes;
      && m.Valid()
      && m.keys == Dedup(FirstCells(rows))
      && (forall k :: k in m.entries <==> k in FirstCells(rows))
  {
    if rows != [] {
      var front := rows[..|rows| - 1];
      assert Fold(front, EmptyIndex, SceneStepper(L, tracksActs)).Ok?;
      SceneFoldKeys(front, L, tracksActs);
      FoldSnoc(rows, EmptyIndex, SceneStepper(L, tracksActs));
      var prev := Fold(front, EmptyIndex, SceneStepper(L, tracksActs)).value;
      var last := rows[|rows| - 1];
      assert |last| == L.width;
      assert FirstCell(last) == last[0];
      PutSpec(prev.scenes, last[0], SceneChars(last, L));
      var names := FirstCells(rows);
      assert names[..|names| - 1] == FirstCells(front);
      DedupSpec(FirstCells(front));
    }
  }

  /** Once the reader has succeeded, each scene's characters are the
      non-empty character cells of the last row with its name, in column
      order: a later row of the same name replaces an earlier one. */
  lemma {:induction false} SceneFoldLastRowWins(rows: seq<Row>, L: SceneLayout, tracksActs: bool)
    requires Fold(rows, EmptyIndex, SceneStepper(L, tracksActs)).Ok?
    requires forall j :: 0 <= j < |rows| ==> |rows[j]| == L.width
    ensures var m := Fold(rows, EmptyIndex, SceneStepper(L, tracksActs)).value.scenes;
      forall j | 0 <= j < |rows| && LastWithName(rows, j) ::
        rows[j][0] in m.entries && m.entries[rows[j][0]] == SceneChars(rows[j], L)
  {
    if rows != [] {
      var front := rows[..|rows| - 1];
      assert Fold(front, EmptyIndex, SceneStepper(L, tracksActs)).Ok?;
      SceneFoldLastRowWins(front, L, tracksActs);
      FoldSnoc(rows, EmptyIndex, SceneStepper(L, tracksActs));
      var m := Fold(rows, EmptyIndex, SceneStepper(L, tracksActs)).value.scenes;
      forall j | 0 <= j < |rows| - 1 && LastWithName(rows, j)
        ensures rows[j][0] in m.entries && m.entries[rows[j][0]] == SceneChars(rows[j], L)
      {
        assert LastWithName(front, j);
      }
    }
  }

  /** The reader fails exactly when some row is malformed: a row of the
      wrong width, or (acts tracked) an act cell that is not an integer or
      not 1 or 2. */
  lemma {:induction false} SceneFoldOk(rows: seq<Row>, L: SceneLayout, tracksActs: bool)
    ensures Fold(rows, EmptyIndex, SceneStepper(L, tracksActs)).Ok? <==> WellFormedRows(rows, L, tracksActs)
  {
    if WellFormedRows(rows, L, tracksActs) {
      SceneFoldActs(rows, L, tracksActs);
    } else if rows != [] && Fold(rows, EmptyIndex, SceneStepper(L, tracksActs)).Ok? {
      var front := rows[..|rows| - 1];
      assert Fold(front, EmptyIndex, SceneStepper(L, tracksActs)).Ok?;
      SceneFoldOk(front, L, tracksActs);
      SceneFoldActs(front, L, tracksActs);
      FoldSnoc(rows, EmptyIndex, SceneStepper(L, tracksActs));
    }
  }

  /** Every scene listed under an act is a key of the scene dictionary, so
      the alias pass can look each one up. */
  lemma ActScenesHaveEntries(t: Table, L: SceneLayout, tracksActs: bool)
    requires ScenesOf(t, L, tracksActs).Ok?
    ensures var idx := ScenesOf(t, L, tracksActs).value;
      forall a, s :: a in idx.acts && s in idx.acts[a] ==> s in idx.scenes.entries
  {
    var rows := DataRows(t);
    SceneFoldOk(rows, L, tracksActs);
    SceneFoldActs(rows, L, tracksActs);
    SceneFoldKeys(rows, L, tracksActs);
    ActScenesAreNamed(rows, 1);
    ActScenesAreNamed(rows, 2);
  }

  /** The dictionaries of a Scenes sheet: the reader succeeds exactly when
      every data row is well formed; the scenes are keyed by name in order
      of first appearance, each holding the character cells of the last
      row with its name; each act lists its scenes in row order. */
  lemma ScenesSpec(t: Table, L: SceneLayout, tracksActs: bool)
    ensures ScenesOf(t, L, tracksActs).Ok? <==> WellFormedRows(DataRows(t), L, tracksActs)
    ensures ScenesOf(t, L, tracksActs).Ok? ==>
      var rows := DataRows(t);
      var idx := ScenesOf(t, L, tracksActs).value;
      && idx.scenes.Valid()
      && idx.scenes.keys == Dedup(FirstCells(rows))
      && (forall j | 0 <= j < |rows| && LastWithName(rows, j) ::
            |rows[j]| == L.width && rows[j][0] in idx.scenes.entries && idx.scenes.entries[rows[j][0]] == SceneChars(rows[j], L))
      && idx.acts == if tracksActs then map[1 := ActScenes(rows, 1), 2 := ActScenes(rows, 2)] else NoActs
  {
    var rows := DataRows(t);
    SceneFoldOk(rows, L, tracksActs);
    if ScenesOf(t, L, tracksActs).Ok? {
      SceneFoldActs(rows, L, tracksActs);
      SceneFoldKeys(rows, L, tracksActs);
      WellFormedRowsAt(rows, L, tracksActs);
      SceneFoldLastRowWins(rows, L, tracksActs);
    }
  }
}
