/** The three scripts, one per production: each reads its workbook's sheets
    in a fixed order, builds the dictionaries, and resolves the Schedule
    sheet into rehearsals for the students of the roster. */
module Productions {
  import opened Tables
  import opened Scenes
  import opened Dialogue
  import opened Cast
  import opened Aliases
  import opened Resolver

  /** The sheets a script reads: Characters / Ensembles, Scenes, Cast
      Assignments and Schedule. */
  datatype Workbook = Workbook(characters: Table, scenes: Table, cast: Table, schedule: Table)

  /** The column layout of one production's sheets. `hasActs` marks the
      later scripts, which number the acts of the scenes, read the dialogue
      lists and run the alias pass. */
  datatype Production = Production(scenes: SceneLayout, hasActs: bool, castWidth: CastWidth, schedule: ScheduleLayout)

  /** Scenes rows: scene, act, nine characters, notes. Cast rows: student,
      ten characters, notes. Schedule rows: six references, six types. */
  const WizardOfOz := Production(SceneColumns(12, 2, 9), true, 12, ScheduleLayout(6, true))

  /** Scenes rows: scene, act, eleven characters, notes. Cast rows:
      student, five characters, notes. Schedule rows: six references, six
      types. */
  const FindingNemo := Production(SceneColumns(14, 2, 11), true, 7, ScheduleLayout(6, true))

  /** Scenes rows: scene, act, scene number, seven characters, notes; the
      acts are not read. Cast rows: student, nine characters, notes.
      Schedule rows: eleven references, eleven types, and rehearsals that
      list the references. */
  const Chitty := Production(SceneColumns(11, 3, 7), false, 11, ScheduleLayout(11, false))

  /** What a script has computed when it starts writing calendars. */
  datatype Run = Run(rehearsals: seq<Rehearsal>, students: seq<string>)

  /** The scene dictionary the resolver reads: in the later scripts, the
      dialogue lists are read first, then the Scenes sheet, and the alias
      pass rewrites the scene dictionary; the earliest script only reads
      the Scenes sheet. */
  function ScenesFor(p: Production, w: Workbook): Result<OrderedMap>
  {
    if p.hasActs then
      match DialogueListsOf(w.characters)
      case Err(e) => Err(e)
      case Ok(dialogue) =>
        match ScenesOf(w.scenes, p.scenes, true)
        case Err(e) => Err(e)
        case Ok(index) => AliasesOf(index.scenes, index.acts, dialogue)
    else
      match ScenesOf(w.scenes, p.scenes, false)
      case Err(e) => Err(e)
      case Ok(index) => Ok(index.scenes)
  }

  /** After the scene dictionary, the Cast Assignments sheet is read, then
      the Schedule sheet resolved. */
  function RunOf(p: Production, w: Workbook): Result<Run>
  {
    match ScenesFor(p, w)
    case Err(e) => Err(e)
    case Ok(scenes) =>
      match CastOf(w.cast, p.castWidth)
      case Err(e) => Err(e)
      case Ok(cast) => Resolved(RehearsalsOf(w.schedule, p.schedule, scenes.entries, cast.charsToStudents), cast.students)
  }

  function Resolved(rehearsals: Result<seq<Rehearsal>>, students: seq<string>): Result<Run>
  {
    if rehearsals.Err? then Err(rehearsals.error) else Ok(Run(rehearsals.value, students))
  }

  /** The script's top level up to the calendars. */
  method RunScript(p: Production, w: Workbook) returns (r: Result<Run>)
    ensures r == RunOf(p, w)
  {
    var scenesToChars: OrderedMap;
    if p.hasActs {
      var actToDialogue := GenerateActDialogueLists(w.characters);
      if actToDialogue.Err? {
        return Err(actToDialogue.error);
      }
      var index := GenerateScenesToChars(w.scenes, p.scenes, true);
      if index.Err? {
        return Err(index.error);
      }
      var expanded := ExpandAliases(index.value.scenes, index.value.acts, actToDialogue.value);
      if expanded.Err? {
        return Err(expanded.error);
      }
      scenesToChars := expanded.value;
    } else {
      var index := GenerateScenesToChars(w.scenes, p.scenes, false);
      if index.Err? {
        return Err(index.error);
      }
      scenesToChars := index.value.scenes;
    }
    assert ScenesFor(p, w) == Ok(scenesToChars);
    var cast := GenerateCharsToStudents(w.cast, p.castWidth);
    if cast.Err? {
      return Err(cast.error);
    }
    var rehearsals := GenerateRehearsals(w.schedule, p.schedule, scenesToChars.entries, cast.value.charsToStudents);
    if rehearsals.Err? {
      return Err(rehearsals.error);
    }
    r := Ok(Run(rehearsals.value, cast.value.students));
  }

  /** Every scene an act lists was read from the Scenes sheet, so the
      alias pass can only fail on an alias whose name does not parse,
      never on a missing scene. */
  lemma AliasPassNeedsOnlyNames(p: Production, w: Workbook)
    requires p.hasActs && DialogueListsOf(w.characters).Ok? && ScenesOf(w.scenes, p.scenes, true).Ok?
    ensures var index := ScenesOf(w.scenes, p.scenes, true).value;
      && (ScenesFor(p, w).Ok? <==> forall k :: k in index.scenes.keys ==> AliasParses(k))
      && (ScenesFor(p, w).Err? ==> ScenesFor(p, w).error.NoMatch?)
  {
    var index := ScenesOf(w.scenes, p.scenes, true).value;
    SceneFoldKeys(DataRows(w.scenes), p.scenes, true);
    ActScenesHaveEntries(w.scenes, p.scenes, true);
    AliasesOk(index.scenes, index.acts, DialogueListsOf(w.characters).value);
  }

  /** Every student a rehearsal calls is on the roster, so the script's
      lookup of that student's calendar never fails. */
  lemma CalendarsExist(p: Production, w: Workbook)
    requires RunOf(p, w).Ok?
    ensures forall r, s :: r in RunOf(p, w).value.rehearsals && s in r.who ==> s in RunOf(p, w).value.students
  {
    var scenes := ScenesFor(p, w).value;
    var cast := CastOf(w.cast, p.castWidth).value;
    forall c, s | c in cast.charsToStudents && s in cast.charsToStudents[c] ensures s in cast.students {
      CastSpec(w.cast, p.castWidth, c);
    }
    WhoOnRoster(w.schedule, p.schedule, scenes.entries, cast.charsToStudents, cast.students);
  }
}
