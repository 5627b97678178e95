/** `generateRehearsals`: turns each row of the Schedule sheet into a
    rehearsal. A row holds the date, the start and end times, `refCols`
    reference cells (each a scene or a character), `refCols` rehearsal-type
    cells, the location and a notes cell. Each reference is resolved to the
    students who must attend. */
module Resolver {
  import opened Tables
  import opened Times

  /** How many reference columns a production's Schedule sheet has, and
      whether its rehearsals pair references with types and carry a
      location (the Wizard of Oz and Finding Nemo) or only list the
      references (Chitty Chitty Bang Bang). */
  datatype ScheduleLayout = ScheduleLayout(refCols: nat, pairsTypes: bool)

  /** The cells of a Schedule row. */
  function ScheduleWidth(L: ScheduleLayout): nat
  {
    2 * L.refCols + 5
  }

  /** A rehearsal: when, what, who and (in the later scripts) where. */
  datatype Rehearsal =
    | Paired(startdt: Timestamp, enddt: Timestamp, what: seq<(string, string)>, who: seq<string>, where: string)
    | Listed(startdt: Timestamp, enddt: Timestamp, scenes: seq<string>, who: seq<string>)

  /** The non-empty reference cells of a row, in column order. */
  function Refs(row: Row, L: ScheduleLayout): seq<string>
    requires |row| == ScheduleWidth(L)
  {
    NonEmpty(row[3..3 + L.refCols])
  }

  /** The non-empty rehearsal-type cells of a row, in column order. */
  function Types(row: Row, L: ScheduleLayout): seq<string>
    requires |row| == ScheduleWidth(L)
  {
    NonEmpty(row[3 + L.refCols..3 + 2 * L.refCols])
  }

  /** The characters a reference stands for: a character with students
      stands for itself, even when a scene has the same name; otherwise it
      must be a scene, standing for the scene's characters. */
  function RefChars(ref: string, scenes: map<string, seq<string>>, cast: map<string, seq<string>>): Result<seq<string>>
  {
    if ref in cast then Ok([ref])
    else if ref in scenes then Ok(scenes[ref])
    else Err(NoKey(ref))
  }

  /** The students the references call, in order and with repeats: for
      each reference, for each of its characters, that character's
      students. The first reference that is neither a character nor a
      scene, or the first character without students, fails. */
  function People(refs: seq<string>, scenes: map<string, seq<string>>, cast: map<string, seq<string>>): Result<seq<string>>
  {
    if refs == [] then Ok([])
    else
      match People(refs[..|refs| - 1], scenes, cast)
      case Err(e) => Err(e)
      case Ok(people) =>
        match RefChars(refs[|refs| - 1], scenes, cast)
        case Err(e) => Err(e)
        case Ok(chars) =>
          match Gather(cast, chars)
          case Err(e) => Err(e)
          case Ok(students) => Ok(people + students)
  }

  /** The rehearsal of one Schedule row, row number `n`: the row is
      unpacked, the start and then the end time converted, the references
      resolved; the students are de-duplicated, and the references are
      paired with the types (the shorter list deciding) or listed. */
  function RehearsalOf(row: Row, n: nat, L: ScheduleLayout, scenes: map<string, seq<string>>, cast: map<string, seq<string>>)
    : Result<Rehearsal>
  {
    if |row| != ScheduleWidth(L) then Err(Unpack(n, ScheduleWidth(L), |row|))
    else Timed(CreateTimes(row[0], row[1]), CreateTimes(row[0], row[2]), row, L, scenes, cast)
  }

  function Timed(startdt: Result<Timestamp>, enddt: Result<Timestamp>, row: Row, L: ScheduleLayout,
                 scenes: map<string, seq<string>>, cast: map<string, seq<string>>): Result<Rehearsal>
    requires |row| == ScheduleWidth(L)
  {
    if startdt.Err? then Err(startdt.error)
    else if enddt.Err? then Err(enddt.error)
    else Assemble(startdt.value, enddt.value, People(Refs(row, L), scenes, cast), row, L)
  }

  function Assemble(startdt: Timestamp, enddt: Timestamp, people: Result<seq<string>>, row: Row, L: ScheduleLayout): Result<Rehearsal>
    requires |row| == ScheduleWidth(L)
  {
    if people.Err? then Err(people.error)
    else if L.pairsTypes then Ok(Paired(startdt, enddt, Zip(Refs(row, L), Types(row, L)), Dedup(people.value), row[3 + 2 * L.refCols]))
    else Ok(Listed(startdt, enddt, Refs(row, L), Dedup(people.value)))
  }

  /** Each row's rehearsal is appended to the list once it is built. */
  function ScheduleStepper(L: ScheduleLayout, scenes: map<string, seq<string>>, cast: map<string, seq<string>>)
    : (seq<Rehearsal>, Row, nat) -> Result<seq<Rehearsal>>
  {
    AppendStep((row: Row, n: nat) => RehearsalOf(row, n, L, scenes, cast))
  }

  /** The rows the resolver visits: every row after the three header rows,
      to the end of the sheet (an empty row is not a stop). */
  function ScheduleRows(t: Table): seq<Row>
  {
    Seen(t, |t|)
  }

  /** What the resolver returns for a Schedule sheet. */
  function RehearsalsOf(t: Table, L: ScheduleLayout, scenes: map<string, seq<string>>, cast: map<string, seq<string>>)
    : Result<seq<Rehearsal>>
  {
    Fold(ScheduleRows(t), [], ScheduleStepper(L, scenes, cast))
  }

  /** Appends, for each character in turn, every student cast as it. */
  method AppendStudents(people: seq<string>, chars: seq<string>, charsToStudents: map<string, seq<string>>)
    returns (r: Result<seq<string>>)
    ensures Gather(charsToStudents, chars).Err? ==> r == Err(Gather(charsToStudents, chars).error)
    ensures Gather(charsToStudents, chars).Ok? ==> r == Ok(people + Gather(charsToStudents, chars).value)
  {
    var acc := people;
    var j := 0;
    while j < |chars|
      invariant j <= |chars|
      invariant Gather(charsToStudents, chars[..j]).Ok?
      invariant acc == people + Gather(charsToStudents, chars[..j]).value
    {
      assert chars[..j + 1][..j] == chars[..j];
      var c := chars[j];
      if c !in charsToStudents {
        assert Gather(charsToStudents, chars[..j + 1]) == Err(NoKey(c));
        GatherErrPersists(charsToStudents, chars, j + 1);
        return Err(NoKey(c));
      }
      var students := charsToStudents[c];
      ghost var before := acc;
      var k := 0;
      while k < |students|
        invariant k <= |students|
        invariant acc == before + students[..k]
      {
        assert students[..k + 1] == students[..k] + [students[k]];
        acc := acc + [students[k]];
        k := k + 1;
      }
      assert students[..k] == students;
      j := j + 1;
    }
    assert chars[..j] == chars;
    r := Ok(acc);
  }

  /** The loop over a row's references. */
  method CollectPeople(refs: seq<string>, scenesToChars: map<string, seq<string>>, charsToStudents: map<string, seq<string>>)
    returns (r: Result<seq<string>>)
    ensures r == People(refs, scenesToChars, charsToStudents)
  {
    var people := [];
    var j := 0;
    while j < |refs|
      invariant j <= |refs|
      invariant People(refs[..j], scenesToChars, charsToStudents) == Ok(people)
    {
      assert refs[..j + 1][..j] == refs[..j];
      var sceneOrChar := refs[j];
      var chars;
      if sceneOrChar in charsToStudents {
        chars := [sceneOrChar];
      } else if sceneOrChar in scenesToChars {
        chars := scenesToChars[sceneOrChar];
      } else {
        PeopleErrPersists(refs, j + 1, scenesToChars, charsToStudents);
        return Err(NoKey(sceneOrChar));
      }
      var next := AppendStudents(people, chars, charsToStudents);
      if next.Err? {
        PeopleErrPersists(refs, j + 1, scenesToChars, charsToStudents);
        return next;
      }
      people := next.value;
      j := j + 1;
    }
    assert refs[..j] == refs;
    r := Ok(people);
  }

  /** Reading table row `i` (1-based) appends its rehearsal, or fails as
      the row does. */
  lemma ScheduleSeenNext(t: Table, i: nat, L: ScheduleLayout, scenes: map<string, seq<string>>, cast: map<string, seq<string>>,
                         rehearsals: seq<Rehearsal>)
    requires HeaderRows < i <= |t|
    requires Fold(Seen(t, i - 1), [], ScheduleStepper(L, scenes, cast)) == Ok(rehearsals)
    ensures var r := RehearsalOf(t[i - 1], i, L, scenes, cast);
      Fold(Seen(t, i), [], ScheduleStepper(L, scenes, cast)) == if r.Err? then Err(r.error) else Ok(rehearsals + [r.value])
  {
    FoldSeenNext(t, i, [], ScheduleStepper(L, scenes, cast), rehearsals);
  }

  /** A row that fails ends the resolver with its failure. */
  lemma ScheduleErrIsFinal(t: Table, i: nat, L: ScheduleLayout, scenes: map<string, seq<string>>, cast: map<string, seq<string>>)
    requires i <= |t| && Fold(Seen(t, i), [], ScheduleStepper(L, scenes, cast)).Err?
    ensures RehearsalsOf(t, L, scenes, cast) == Fold(Seen(t, i), [], ScheduleStepper(L, scenes, cast))
  {
    SeenPrefix(t, i);
    FoldErrPersists(ScheduleRows(t), |Seen(t, i)|, [], ScheduleStepper(L, scenes, cast));
  }

  lemma {:induction false} PeopleErrPersists(refs: seq<string>, n: nat, scenes: map<string, seq<string>>, cast: map<string, seq<string>>)
    requires n <= |refs| && People(refs[..n], scenes, cast).Err?
    ensures People(refs, scenes, cast) == People(refs[..n], scenes, cast)
    decreases |refs| - n
  {
    if n < |refs| {
      var front := refs[..|refs| - 1];
      assert front[..n] == refs[..n];
      PeopleErrPersists(front, n, scenes, cast);
    } else {
      assert refs[..n] == refs;
    }
  }

  /** The body of the resolver's loop for one row, row number `n`: the
      unpack and the two time conversions. */
  method ReadScheduleRow(row: Row, n: nat, L: ScheduleLayout, scenesToChars: map<string, seq<string>>, charsToStudents: map<string, seq<string>>)
    returns (r: Result<Rehearsal>)
    ensures r == RehearsalOf(row, n, L, scenesToChars, charsToStudents)
  {
    if |row| != ScheduleWidth(L) {
      return Err(Unpack(n, ScheduleWidth(L), |row|));
    }
    var date, st, et := row[0], row[1], row[2];
    var startdt := CreateTimes(date, st);
    if startdt.Err? {
      return Err(startdt.error);
    }
    var enddt := CreateTimes(date, et);
    if enddt.Err? {
      return Err(enddt.error);
    }
    r := ResolveRow(startdt.value, enddt.value, row, L, scenesToChars, charsToStudents);
  }

  /** The rest of the loop body: the references and types are collected,
      the references resolved and the rehearsal built. */
  method ResolveRow(startdt: Timestamp, enddt: Timestamp, row: Row, L: ScheduleLayout,
                    scenesToChars: map<string, seq<string>>, charsToStudents: map<string, seq<string>>)
    returns (r: Result<Rehearsal>)
    requires |row| == ScheduleWidth(L)
    ensures r == Assemble(startdt, enddt, People(Refs(row, L), scenesToChars, charsToStudents), row, L)
  {
    var scenes := KeepNonEmpty(row[3..3 + L.refCols]);
    var types := KeepNonEmpty(row[3 + L.refCols..3 + 2 * L.refCols]);
    var people := CollectPeople(scenes, scenesToChars, charsToStudents);
    if people.Err? {
      return Err(people.error);
    }
    if L.pairsTypes {
      r := Ok(Paired(startdt, enddt, Zip(scenes, types), Dedup(people.value), row[3 + 2 * L.refCols]));
    } else {
      r := Ok(Listed(startdt, enddt, scenes, Dedup(people.value)));
    }
  }

  /** The resolver's loop: rows are counted from 1, the first three are
      skipped, and every later row becomes one rehearsal. */
  method GenerateRehearsals(t: Table, L: ScheduleLayout, scenesToChars: map<string, seq<string>>, charsToStudents: map<string, seq<string>>)
    returns (r: Result<seq<Rehearsal>>)
    ensures r == RehearsalsOf(t, L, scenesToChars, charsToStudents)
  {
    var rehearsals := [];
    var i := 0;
    while i < |t|
      invariant i <= |t|
      invariant Fold(Seen(t, i), [], ScheduleStepper(L, scenesToChars, charsToStudents)) == Ok(rehearsals)
    {
      var row := t[i];
      i := i + 1;
      if i < HeaderRows + 1 {
        continue;
      }
      ScheduleSeenNext(t, i, L, scenesToChars, charsToStudents, rehearsals);
      var next := ReadScheduleRow(row, i, L, scenesToChars, charsToStudents);
      if next.Err? {
        ScheduleErrIsFinal(t, i, L, scenesToChars, charsToStudents);
        return Err(next.error);
      }
      rehearsals := rehearsals + [next.value];
    }
    r := Ok(rehearsals);
  }

  /** Reference `ref` stands for character `c`: a character with students
      stands only for itself, whether or not a scene has that name; any
      other reference stands for the characters of its scene. */
  predicate StandsFor(ref: string, c: string, scenes: map<string, seq<string>>, cast: map<string, seq<string>>)
  {
    if ref in cast then c == ref else ref in scenes && c in scenes[ref]
  }

  /** A reference resolves when it is a character or a scene and every
      character it stands for has students. */
  predicate Resolves(ref: string, scenes: map<string, seq<string>>, cast: map<string, seq<string>>)
  {
    ref in cast || (ref in scenes && forall c :: c in scenes[ref] ==> c in cast)
  }

  /** Collecting the students succeeds exactly when every reference
      resolves, and otherwise fails with a KeyError. */
  lemma {:induction false} PeopleOk(refs: seq<string>, scenes: map<string, seq<string>>, cast: map<string, seq<string>>)
    ensures People(refs, scenes, cast).Ok? <==> forall ref :: ref in refs ==> Resolves(ref, scenes, cast)
    ensures People(refs, scenes, cast).Err? ==> People(refs, scenes, cast).error.NoKey?
  {
    if refs != [] {
      var front, last := refs[..|refs| - 1], refs[|refs| - 1];
      PeopleOk(front, scenes, cast);
      ResolvesIff(last, scenes, cast);
      assert refs == front + [last];
      assert (forall ref :: ref in refs ==> Resolves(ref, scenes, cast))
        <==> (forall ref :: ref in front ==> Resolves(ref, scenes, cast)) && Resolves(last, scenes, cast);
    }
  }

  /** One reference resolves exactly when its characters are found and all
      have students; it can only fail with a KeyError. */
  lemma ResolvesIff(ref: string, scenes: map<string, seq<string>>, cast: map<string, seq<string>>)
    ensures Resolves(ref, scenes, cast)
        <==> RefChars(ref, scenes, cast).Ok? && Gather(cast, RefChars(ref, scenes, cast).value).Ok?
    ensures RefChars(ref, scenes, cast).Err? ==> RefChars(ref, scenes, cast).error.NoKey?
    ensures RefChars(ref, scenes, cast).Ok? && Gather(cast, RefChars(ref, scenes, cast).value).Err?
        ==> Gather(cast, RefChars(ref, scenes, cast).value).error.NoKey?
  {
    if RefChars(ref, scenes, cast).Ok? {
      GatherOk(cast, RefChars(ref, scenes, cast).value);
    }
  }

  /** The students collected are those of the characters the references
      stand for. */
  lemma {:induction false} PeopleMembers(refs: seq<string>, scenes: map<string, seq<string>>, cast: map<string, seq<string>>, s: string)
    requires People(refs, scenes, cast).Ok?
    ensures s in People(refs, scenes, cast).value <==>
      exists ref, c :: ref in refs && StandsFor(ref, c, scenes, cast) && c in cast && s in cast[c]
  {
    if refs != [] {
      var front, last := refs[..|refs| - 1], refs[|refs| - 1];
      PeopleMembers(front, scenes, cast, s);
      assert refs == front + [last];
      var chars := RefChars(last, scenes, cast).value;
      GatherMembers(cast, chars, s);
      forall c ensures c in chars <==> StandsFor(last, c, scenes, cast) {
      }
    }
  }

  /** One Schedule row becomes a rehearsal exactly when it has the layout's
      width, both times convert and every reference resolves; a row of
      another width fails its unpack, an unresolved reference with a
      KeyError. */
  lemma RehearsalOk(row: Row, n: nat, L: ScheduleLayout, scenes: map<string, seq<string>>, cast: map<string, seq<string>>)
    ensures RehearsalOf(row, n, L, scenes, cast).Ok? <==>
      && |row| == ScheduleWidth(L)
      && CreateTimes(row[0], row[1]).Ok? && CreateTimes(row[0], row[2]).Ok?
      && forall ref :: ref in Refs(row, L) ==> Resolves(ref, scenes, cast)
    ensures |row| != ScheduleWidth(L) ==> RehearsalOf(row, n, L, scenes, cast) == Err(Unpack(n, ScheduleWidth(L), |row|))
    ensures (&& |row| == ScheduleWidth(L)
             && CreateTimes(row[0], row[1]).Ok? && CreateTimes(row[0], row[2]).Ok?
             && RehearsalOf(row, n, L, scenes, cast).Err?)
      ==> RehearsalOf(row, n, L, scenes, cast).error.NoKey?
  {
    if |row| == ScheduleWidth(L) && CreateTimes(row[0], row[1]).Ok? && CreateTimes(row[0], row[2]).Ok? {
      PeopleOk(Refs(row, L), scenes, cast);
    }
  }

  /** The rehearsal of a row runs from the start to the end time of the
      row's date. */
  lemma RehearsalTimes(row: Row, n: nat, L: ScheduleLayout, scenes: map<string, seq<string>>, cast: map<string, seq<string>>)
    requires RehearsalOf(row, n, L, scenes, cast).Ok?
    ensures |row| == ScheduleWidth(L)
    ensures CreateTimes(row[0], row[1]) == Ok(RehearsalOf(row, n, L, scenes, cast).value.startdt)
    ensures CreateTimes(row[0], row[2]) == Ok(RehearsalOf(row, n, L, scenes, cast).value.enddt)
  {
    var startdt, enddt := CreateTimes(row[0], row[1]), CreateTimes(row[0], row[2]);
    assert RehearsalOf(row, n, L, scenes, cast) == Assemble(startdt.value, enddt.value, People(Refs(row, L), scenes, cast), row, L);
  }

  /** The rehearsal of a row pairs the references with the types,
      truncated to the shorter list, and carries the location, or (without
      types) lists the references. */
  lemma RehearsalWhat(row: Row, n: nat, L: ScheduleLayout, scenes: map<string, seq<string>>, cast: map<string, seq<string>>)
    requires RehearsalOf(row, n, L, scenes, cast).Ok?
    ensures |row| == ScheduleWidth(L)
    ensures var r := RehearsalOf(row, n, L, scenes, cast).value;
      && (L.pairsTypes ==> r.Paired? && r.what == Zip(Refs(row, L), Types(row, L)) && r.where == row[3 + 2 * L.refCols])
      && (!L.pairsTypes ==> r.Listed? && r.scenes == Refs(row, L))
  {
    var startdt, enddt := CreateTimes(row[0], row[1]), CreateTimes(row[0], row[2]);
    assert RehearsalOf(row, n, L, scenes, cast) == Assemble(startdt.value, enddt.value, People(Refs(row, L), scenes, cast), row, L);
    AssembleWhat(startdt.value, enddt.value, People(Refs(row, L), scenes, cast), row, L);
  }

  lemma AssembleWhat(startdt: Timestamp, enddt: Timestamp, people: Result<seq<string>>, row: Row, L: ScheduleLayout)
    requires |row| == ScheduleWidth(L) && people.Ok?
    ensures var r := Assemble(startdt, enddt, people, row, L).value;
      && (L.pairsTypes ==> r.Paired? && r.what == Zip(Refs(row, L), Types(row, L)) && r.where == row[3 + 2 * L.refCols])
      && (!L.pairsTypes ==> r.Listed? && r.scenes == Refs(row, L))
  {
  }

  /** The students of a row's rehearsal are exactly those of the
      characters its references stand for, each once, ordered by where
      they first occur in the references' expansion. */
  lemma RehearsalWho(row: Row, n: nat, L: ScheduleLayout, scenes: map<string, seq<string>>, cast: map<string, seq<string>>, s: string)
    requires RehearsalOf(row, n, L, scenes, cast).Ok?
    ensures |row| == ScheduleWidth(L) && People(Refs(row, L), scenes, cast).Ok?
    ensures var who := RehearsalOf(row, n, L, scenes, cast).value.who;
      var calls := People(Refs(row, L), scenes, cast).value;
      && (s in who <==> exists ref, c :: ref in Refs(row, L) && StandsFor(ref, c, scenes, cast) && c in cast && s in cast[c])
      && (forall i, j :: 0 <= i < j < |who| ==> who[i] != who[j])
      && (forall i, j :: 0 <= i < j < |who| ==>
            who[i] in calls && who[j] in calls && FirstIndex(calls, who[i]) < FirstIndex(calls, who[j]))
  {
    var calls := People(Refs(row, L), scenes, cast).value;
    assert RehearsalOf(row, n, L, scenes, cast).value.who == Dedup(calls);
    PeopleMembers(Refs(row, L), scenes, cast, s);
    DedupSpec(calls);
  }

  /** The resolver makes one rehearsal of every row, the `j`-th row (row
      number `HeaderRows + 1 + j`) giving the `j`-th rehearsal, and
      succeeds exactly when every row resolves; otherwise it fails as the
      first row that does not. */
  lemma ScheduleFold(rows: seq<Row>, L: ScheduleLayout, scenes: map<string, seq<string>>, cast: map<string, seq<string>>)
    ensures Fold(rows, [], ScheduleStepper(L, scenes, cast)).Ok? <==>
      forall j :: 0 <= j < |rows| ==> RehearsalOf(rows[j], HeaderRows + 1 + j, L, scenes, cast).Ok?
    ensures Fold(rows, [], ScheduleStepper(L, scenes, cast)).Ok? ==>
      var rehearsals := Fold(rows, [], ScheduleStepper(L, scenes, cast)).value;
      && |rehearsals| == |rows|
      && forall j :: 0 <= j < |rows| ==> rehearsals[j] == RehearsalOf(rows[j], HeaderRows + 1 + j, L, scenes, cast).value
    ensures Fold(rows, [], ScheduleStepper(L, scenes, cast)).Err? ==>
      exists j :: 0 <= j < |rows|
        && RehearsalOf(rows[j], HeaderRows + 1 + j, L, scenes, cast) == Err(Fold(rows, [], ScheduleStepper(L, scenes, cast)).error)
        && forall k :: 0 <= k < j ==> RehearsalOf(rows[k], HeaderRows + 1 + k, L, scenes, cast).Ok?
  {
    AppendFold(rows, (row: Row, n: nat) => RehearsalOf(row, n, L, scenes, cast));
  }

  /** The resolver visits every row after the three header rows, to the end
      of the sheet, and table row `j` (0-based) gives rehearsal
      `j - HeaderRows`. */
  lemma RehearsalsSpec(t: Table, L: ScheduleLayout, scenes: map<string, seq<string>>, cast: map<string, seq<string>>)
    ensures RehearsalsOf(t, L, scenes, cast).Ok? <==>
      forall j :: HeaderRows <= j < |t| ==> RehearsalOf(t[j], j + 1, L, scenes, cast).Ok?
    ensures RehearsalsOf(t, L, scenes, cast).Ok? ==>
      var rehearsals := RehearsalsOf(t, L, scenes, cast).value;
      && |rehearsals| == (if |t| <= HeaderRows then 0 else |t| - HeaderRows)
      && forall j :: HeaderRows <= j < |t| ==> rehearsals[j - HeaderRows] == RehearsalOf(t[j], j + 1, L, scenes, cast).value
  {
    ScheduleFold(ScheduleRows(t), L, scenes, cast);
    ScheduleRowsAt(t);
  }

  /** The rows the resolver visits are the table's rows after the headers. */
  lemma ScheduleRowsAt(t: Table)
    ensures |ScheduleRows(t)| == if |t| <= HeaderRows then 0 else |t| - HeaderRows
    ensures forall j :: HeaderRows <= j < |t| ==> ScheduleRows(t)[j - HeaderRows] == t[j]
  {
  }

  /** No Schedule row can be empty, so an empty row after the headers makes
      the resolver fail rather than stop. */
  lemma EmptyRowFails(t: Table, L: ScheduleLayout, scenes: map<string, seq<string>>, cast: map<string, seq<string>>, j: nat)
    requires HeaderRows <= j < |t| && t[j] == []
    ensures RehearsalsOf(t, L, scenes, cast).Err?
  {
    RehearsalsSpec(t, L, scenes, cast);
    assert RehearsalOf(t[j], j + 1, L, scenes, cast).Err?;
  }

  /** When every student listed for a character is on the roster, every
      student a row's rehearsal calls is on the roster. */
  lemma RowWhoOnRoster(row: Row, n: nat, L: ScheduleLayout, scenes: map<string, seq<string>>, cast: map<string, seq<string>>, roster: seq<string>)
    requires forall c, s :: c in cast && s in cast[c] ==> s in roster
    requires RehearsalOf(row, n, L, scenes, cast).Ok?
    ensures forall s :: s in RehearsalOf(row, n, L, scenes, cast).value.who ==> s in roster
  {
    forall s | s in RehearsalOf(row, n, L, scenes, cast).value.who ensures s in roster {
      RehearsalWho(row, n, L, scenes, cast, s);
    }
  }

  /** When every student listed for a character is on the roster, every
      student a rehearsal calls is on the roster: looking up their
      calendars cannot fail. */
  lemma WhoOnRoster(t: Table, L: ScheduleLayout, scenes: map<string, seq<string>>, cast: map<string, seq<string>>, roster: seq<string>)
    requires forall c, s :: c in cast && s in cast[c] ==> s in roster
    ensures RehearsalsOf(t, L, scenes, cast).Ok? ==>
      forall r, s :: r in RehearsalsOf(t, L, scenes, cast).value && s in r.who ==> s in roster
  {
    if RehearsalsOf(t, L, scenes, cast).Ok? {
      var rehearsals := RehearsalsOf(t, L, scenes, cast).value;
      RehearsalsSpec(t, L, scenes, cast);
      forall r | r in rehearsals ensures forall s :: s in r.who ==> s in roster {
        var i :| 0 <= i < |rehearsals| && rehearsals[i] == r;
        var j := i + HeaderRows;
        RowWhoOnRoster(t[j], j + 1, L, scenes, cast, roster);
      }
    }
  }
}
