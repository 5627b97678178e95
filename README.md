# MusiCal rehearsal resolver, modelled in Dafny

MusiCal turns a production's rehearsal spreadsheet into one calendar per
student. Three near-identical scripts exist, one per production:
*The Wizard of Oz*, *Finding Nemo KIDS* and *Chitty Chitty Bang Bang*.
Each script reads the workbook's sheets as tables of text cells, builds
dictionaries from them and resolves every row of the Schedule sheet into a
rehearsal: when it is, what is rehearsed and which students must attend.

The model covers that pipeline:

- `Times` is `createTimes`. It parses a date text and a time text, applies
  the PM rule and checks the result is a real date and time in the
  production's one time zone.
- `Scenes`, `Dialogue` and `Cast` are the three sheet readers:
  `generateScenestoChars`, `generateActDialogueLists` and
  `generateCharstoStudents`. Each skips three header rows and stops at the
  first empty row. Each is a `method` with a row loop, proved equal to a
  fold over the data rows (`Tables.Fold`). Properties of that fold are
  proved as lemmas.
- `Aliases` is the top-level pass of the Wizard of Oz and Finding Nemo
  scripts. It rewrites "Run Act X" and "Act X Dialogue" scenes in
  dictionary order while it walks the dictionary.
- `Resolver` is `generateRehearsals`. For every row after the headers it
  unpacks the row and converts the start and end times. It resolves each
  reference (a character first, otherwise a scene) into students,
  de-duplicates them stably, and pairs the references with the types.
- `Productions` fixes each script's column widths and composes the steps in
  the script's order (`RunScript`).
- `Tables` and `Text` hold the shared pieces:
  - tables, the failures (each Python exception that aborts the script is an
    `Error` value);
  - non-empty filtering, stable de-duplication, `zip`;
  - insertion-ordered dictionaries, `int()`;
  - the pieces of the `parse` patterns.

Python dictionaries that are iterated in insertion order are
`Tables.OrderedMap` (a key sequence and a map). The other dictionaries are
plain `map`s. Row numbers in failures are 1-based, like the scripts'
counters.

Two behaviours of the code that a reader might not expect:
- **"12:xx AM".** The code only adds 12 for "PM" with an hour other than 12,
  so "12:xx AM" stays hour 12. It does not become hour 0 as on a 12-hour
  clock (`Times.ClockHourOnTwelveHourClock` states the consequence).
- **Schedule rows.** The Schedule reader has no empty-row stop, so an empty
  row after the headers fails its unpack (`Resolver.EmptyRowFails`). It
  does not end the table.

## Model

Source paths are relative to the repository root. Rows cite the Wizard of
Oz script unless a production-specific variant is meant.

| member | source | states |
|---|---|---|
| Times.ClockHour | musical-thewizardofoz.py:92-93 | the hour changes only for marker exactly "PM" with hour other than 12, and then gains exactly 12; any other marker keeps the parsed hour |
| Times.ParseDateSpec | musical-thewizardofoz.py:87 | the date reader gives (m, d, y) iff the text is three non-empty digit fields separated by "/" whose values are m, d and y |
| Times.ParseDateNone | musical-thewizardofoz.py:87 | the date reader fails iff the text is not of that pattern |
| Times.ParseTimeSpec | musical-thewizardofoz.py:89 | the time reader gives (h, mi, marker) iff the text is a digit field, ":", a digit field, a space and a non-empty marker, with values h and mi |
| Times.ParseTimeNone | musical-thewizardofoz.py:89 | the time reader fails iff the text is not of that pattern |
| Times.CreateTimesSpec | musical-thewizardofoz.py:84-96 | for a date text and a time text of those patterns, the conversion is the timestamp of that date at the clock hour of the time, in the fixed zone, when that date and hour exist, and the date-time error otherwise |
| Times.CreateTimesNoMatch | musical-thewizardofoz.py:87-89 | a date text not of the date pattern is the failure; with a date of the pattern, a time text not of the time pattern is the failure |
| Times.ClockHourOnTwelveHourClock | musical-thewizardofoz.py:92-93 | for hours 1-12 with "AM"/"PM" the result is below 24 and reads back as the same 12-hour time, except that "12 AM" comes back as "12 PM" |
| Times.ParseDateRoundTrip | musical-thewizardofoz.py:87 | the date pattern reads back month, day and year from their decimal rendering |
| Times.ParseTimeRoundTrip | musical-thewizardofoz.py:89 | the time pattern reads back hour, minute and a non-empty marker from their rendering |
| Times.CreateTimesRoundTrip | musical-thewizardofoz.py:84-96 | every valid date with a 12-hour time and an AM/PM marker, rendered as schedule cells, converts to that date at the clock hour in the fixed zone |
| Text.ParseNatSpec | musical-thewizardofoz.py:87 | a `{:d}` field accepts exactly the non-empty digit runs and reads their decimal value |
| Text.ParseIntSpec | musical-thewizardofoz.py:268 | `int()` reads back every decimal rendering, with or without a sign, and fails on a cell with no digit |
| Text.ParseIntAccepts | musical-thewizardofoz.py:268 | `int()` accepts a cell iff it is a non-empty run of digits, optionally after one "+" or "-", and its value is the digits' value with that sign |
| Text.SplitOnce | musical-thewizardofoz.py:87 | splitting fails exactly when the separator is absent; otherwise the text is the part before the first separator, the separator and the rest |
| Tables.DataRowsSpec | musical-thewizardofoz.py:242-249 | the rows a reader visits are the rows after the three header rows up to, not including, the first empty row |
| Tables.DataRowsFrom | musical-thewizardofoz.py:242-249 | the rows seen so far are a prefix of the data rows, and all of them once an empty row or the end is reached |
| Tables.SeenErrIsFinal | musical-thewizardofoz.py:252 | a failure while reading a row is the reader's result: later rows are never read |
| Tables.AppendFold | musical-thewizardofoz.py:152-226 | appending one value per row succeeds iff every row does; then the j-th value is the j-th row's; otherwise the failure is that of the first failing row |
| Tables.NonEmptyMembers | musical-thewizardofoz.py:256-260 | a cell is kept iff it is non-empty, and never more cells are kept than there are |
| Tables.KeepNonEmpty | musical-thewizardofoz.py:256-260 | the filtering loop keeps exactly the non-empty cells in column order |
| Tables.DedupSpec | musical-thewizardofoz.py:220 | de-duplication keeps exactly the elements of the list, without repeats, in first-occurrence order |
| Tables.FirstIndex | musical-thewizardofoz.py:220 | the position found holds the element and no earlier position does |
| Tables.Zip | musical-thewizardofoz.py:215 | `zip` pairs the n-th elements and has the length of the shorter list |
| Tables.GatherOk | musical-thewizardofoz.py:399-400 | concatenating the lists of several keys succeeds iff every key is present; a failure is a missing key |
| Tables.GatherMembers | musical-thewizardofoz.py:399-400 | a value is in the concatenation iff one of the keys' lists holds it |
| Tables.GatherAgree | musical-thewizardofoz.py:399-400 | the concatenation depends only on the entries of the keys it reads |
| Tables.PutSpec | musical-thewizardofoz.py:263 | storing under a key keeps the dictionary well formed, sets exactly that entry, and adds the key at the end of the order only when it is new |
| Scenes.ReadSceneRow | musical-thewizardofoz.py:252-268 | the loop body for one row performs exactly one reader step: unpack, filter the characters, store the scene, add it to its act |
| Scenes.GenerateScenesToChars | musical-thewizardofoz.py:233-270 | the reader's loop returns exactly the fold of the scene step over the data rows |
| Scenes.SceneFoldOk | musical-thewizardofoz.py:252-268 | the reader succeeds iff every data row has the sheet's width and, where acts are read, an empty act cell or act 1 or 2 |
| Scenes.SceneFoldKeys | musical-thewizardofoz.py:263 | the dictionary is well formed, its keys are the rows' scene names de-duplicated in first-occurrence order, and a scene is a key iff some row names it |
| Scenes.SceneFoldLastRowWins | musical-thewizardofoz.py:263 | for the last row naming a scene, the scene's list is that row's non-empty character cells in column order |
| Scenes.SceneFoldActs | musical-thewizardofoz.py:267-268 | act 1's and act 2's lists (initially empty) are the scenes whose act cell reads as that act, in row order, and a row with an empty act cell changes neither; without acts the act dictionary stays empty |
| Scenes.ActScenesHaveEntries | musical-thewizardofoz.py:267-268 | every scene an act lists is a key of the scene dictionary |
| Scenes.ScenesSpec | musical-thewizardofoz.py:233-270 | the whole reader: success iff the rows are well formed; keys in first-occurrence order; the last row naming a scene wins; the act lists as above |
| Dialogue.GenerateActDialogueLists | musical-thewizardofoz.py:274-301 | the reader's loop returns exactly the fold of the dialogue step over the data rows |
| Dialogue.DialogueFold | musical-thewizardofoz.py:293-299 | the reader succeeds iff every row has five cells; then each act's list is the characters flagged for it, in row order |
| Dialogue.FlaggedMembers | musical-thewizardofoz.py:296-299 | a character is on an act's list iff one of its rows has exactly "1" in that act's flag cell |
| Dialogue.DialogueListsSpec | musical-thewizardofoz.py:274-301 | the whole reader: success iff all rows have five cells; membership in act 1's and act 2's lists iff a row flags that act with "1", the two acts tested independently |
| Cast.AssignSpec | musical-thewizardofoz.py:337-341 | assigning creates exactly the missing characters and appends the student once per occurrence of a character, leaving other lists unchanged |
| Cast.AssignStudent | musical-thewizardofoz.py:337-341 | the append-or-create loop computes the assignment |
| Cast.GenerateCharsToStudents | musical-thewizardofoz.py:306-343 | the reader's loop returns exactly the fold of the cast step over the data rows |
| Cast.CastFold | musical-thewizardofoz.py:324-341 | the reader succeeds iff every row has the sheet's width; the roster is the rows' students in row order; each character's list is the students cast as it, in row order |
| Cast.StudentsForNonEmpty | musical-thewizardofoz.py:337-341 | a character has students iff some row casts it |
| Cast.StudentsForNamed | musical-thewizardofoz.py:325 | every student on a character's list has a row, so is on the roster |
| Cast.CastKeysHaveStudents | musical-thewizardofoz.py:338-341 | no character in the dictionary has an empty list |
| Cast.CastSpec | musical-thewizardofoz.py:306-343 | the whole reader: success iff rows have the width; roster one entry per row in order; a character is a key iff some row casts it; every listed student is on the roster |
| Aliases.ActNumber | musical-thewizardofoz.py:392-395 | the numeral "I" is act 1 and every other numeral act 2 |
| Aliases.GatherChars | musical-thewizardofoz.py:398-400 | the loop concatenates the act's scenes' lists in order, failing on a missing scene |
| Aliases.ExpandAlias | musical-thewizardofoz.py:389-419 | the loop body for one scene performs exactly one step of the pass, the "Run Act" check and then the "Dialogue" check |
| Aliases.ExpandAliases | musical-thewizardofoz.py:387-419 | the pass's loop returns exactly the fold of the step over the keys in insertion order |
| Aliases.AliasStepFrame | musical-thewizardofoz.py:387-419 | one step keeps the key order and the key set and changes no entry but the visited scene's; a scene matching neither check is left unchanged |
| Aliases.ExpandFrame | musical-thewizardofoz.py:387-419 | over a prefix of the keys, the pass changes only visited alias scenes |
| Aliases.ExpandOk | musical-thewizardofoz.py:391-411 | when every act scene has an entry, the pass succeeds iff every alias name matches its pattern; a failure is a non-matching name |
| Aliases.DialogueEntry | musical-thewizardofoz.py:408-419 | a visited "Act X Dialogue" scene ends with act X's dialogue list |
| Aliases.RunActEntry | musical-thewizardofoz.py:389-403 | with no alias scene in the act lists, a visited "Run Act X" scene that is not also a dialogue alias ends with the concatenation of act X's scenes' original lists |
| Aliases.AliasesKeep | musical-thewizardofoz.py:387-419 | the whole pass keeps the key order and key set and leaves every non-alias scene unchanged |
| Aliases.AliasesOk | musical-thewizardofoz.py:387-419 | the whole pass succeeds iff every alias name matches its pattern, failing otherwise with a non-match |
| Aliases.AliasesDialogue | musical-thewizardofoz.py:408-419 | after the pass every "Act X Dialogue" scene holds act X's dialogue list |
| Aliases.AliasesRunAct | musical-thewizardofoz.py:389-403 | after the pass every "Run Act X" scene that is not a dialogue alias holds the concatenation of act X's scenes' lists, when no act lists an alias scene |
| Aliases.DialogueFirst | musical-findingnemokids-partone.py:300-328 | order dependence: a "Run Act I" key after "Act I Dialogue" in act I concatenates the already rewritten dialogue list |
| Aliases.RunFirst | musical-findingnemokids-partone.py:300-328 | with the two keys the other way round, "Run Act I" concatenates the original list of the dialogue scene |
| Resolver.AppendStudents | musical-thewizardofoz.py:202-208 | the nested loop appends every character's students in order, failing on the first character without students |
| Resolver.CollectPeople | musical-thewizardofoz.py:190-208 | the loop over the references computes the students they call, with repeats |
| Resolver.PeopleOk | musical-thewizardofoz.py:192-208 | collecting succeeds iff every reference is a character with students, or a scene all of whose characters have students; a failure is a missing key |
| Resolver.PeopleMembers | musical-thewizardofoz.py:192-208 | a student is called iff some reference stands for a character (itself if cast, else one of its scene's characters) whose list holds the student |
| Resolver.ReadScheduleRow | musical-thewizardofoz.py:165-224 | the loop body for one row computes exactly the row's rehearsal or failure |
| Resolver.ResolveRow | musical-thewizardofoz.py:173-224 | after the times, the row's references and types are filtered and the students collected, de-duplicated and assembled |
| Resolver.RehearsalOk | musical-thewizardofoz.py:165-224 | a row gives a rehearsal iff it has the sheet's width, both times convert and every reference resolves; a wrong width is the unpack failure with the row number; a later failure is a missing key |
| Resolver.RehearsalTimes | musical-thewizardofoz.py:168-169 | the start and end are the conversions of the date with the start and with the end time |
| Resolver.RehearsalWhat | musical-chitty.py.py:142 | in the later scripts the rehearsal pairs the filtered references with the filtered types, truncated, and carries the location cell; in the earliest it lists the filtered references |
| Resolver.RehearsalWho | musical-thewizardofoz.py:192-221 | who is exactly the students the references call, without repeats, in the order of their first call |
| Resolver.GenerateRehearsals | musical-thewizardofoz.py:144-228 | the resolver's loop returns exactly the fold of the row step over every row after the headers |
| Resolver.ScheduleFold | musical-thewizardofoz.py:224-226 | one rehearsal per row in row order, or the failure of the first failing row |
| Resolver.RehearsalsSpec | musical-thewizardofoz.py:151-156 | the resolver succeeds iff every row after the headers gives a rehearsal; then it returns one rehearsal per such row, in row order |
| Resolver.EmptyRowFails | musical-thewizardofoz.py:165 | an empty row after the headers makes the resolver fail |
| Resolver.WhoOnRoster | musical-thewizardofoz.py:458-461 | when every cast student is on the roster, every student of every rehearsal is on it |
| Productions.RunScript | musical-thewizardofoz.py:361-429 | the script's top level (dialogue lists, scenes, alias pass, cast, resolver) computes the composed specification |
| Productions.AliasPassNeedsOnlyNames | musical-findingnemokids-partone.py:280-328 | after both readers succeed, the alias pass fails only on an alias name that does not match its pattern, never on a missing scene |
| Productions.CalendarsExist | musical-thewizardofoz.py:441-461 | every student a rehearsal calls has a calendar, so the calendar lookup never fails |

## Left out

- Reading the sheets over the network (gspread, service-account credentials) and the whole of `musical.py`: the tables are parameters.
- Calendar and event assembly, `ppDT`, `createEvent`, unique identifiers, the output directory, file writes and the file-name slicing of student names: output plumbing around libraries.
- `print` calls and the unused `Person` class.
- The full format language of the `parse` library. Only what these patterns use is modelled: ASCII digit fields, literal text matched ignoring ASCII case, and a non-empty rest. Signs, other bases, a trailing newline and non-ASCII case folding are not modelled.
- `int()` of a cell accepts an optional sign and ASCII digits only. Surrounding whitespace, underscores and non-ASCII digits are not modelled.
- The `pytz` zone object is a fixed zone name on the timestamp. Date validity is the Gregorian calendar with years 1-9999.
- The Dialogue alias stores act X's dialogue list object itself. Later appends through either name would be shared, but the scripts make none. The model copies values, so aliasing is not modelled.
- Aliases.RunActEntry, Aliases.AliasesRunAct: stated only when no act lists an alias scene. Otherwise the result depends on the order of the keys. `Aliases.DialogueFirst` and `Aliases.RunFirst` exhibit that case instead of a general statement.
- The different `ValueError` messages of `datetime` for an impossible year, month, day, hour or minute are one `BadDateTime` value.
- The stray code-fence line in musical-thewizardofoz.py:140 and the unbalanced bracket in musical-chitty.py.py:63 stop those files from loading. The model follows the function bodies as written.
