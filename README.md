# Tauri project manager: verified model of the service core

This project models the core logic of a student project manager: a Spring back end plus one front-end helper. What is modelled:

- **Team allocation.** Fresh teams are created, named "Team 1" … "Team n". Students are spread over the teams in two phases: a fixed quota of slots per team, then round-robin over a team ranking that is re-read every round. Each student ends up with exactly one team.
- **Student CSV.**
  - The import reads a window of rows. It builds students from the cells, with the e-mail address in last-name-first order, and creates the grades from the remaining cells.
  - The export lays out the factor and header rows, one row per student, and a summary block.
- **Grade service.** The weighted mean, the selection of the grades that enter a student's imported mean, the grades created from one CSV row, and assigning a grade to a team or a student by name.
- **Bonus service.** Reading, updating and deleting a bonus in a store of bonuses and bonus validations.
- **Small helpers.**
  - The percentage-based team criteria of the team controller.
  - The grade-type name lookup.
  - The bearer-token extraction.
  - The front end's cookie lookup.

Repository results become parameters. These are the team ranking, the student lists, grade and count lookups, and the grade types. Float parsing and formatting are parameters as well (`parse: string -> Option<real>`, `show: real -> string`). Numbers are `real` or `int`.

Exceptions are modelled as `Result`/`Option` values of the `Wrappers.Error` type:

- `IllegalArgument`, `NotFound`, `IndexOutOfBounds`, `NumberFormat`, `EmptyResource` and `NullPointer` stand for the matching Java exceptions.
- An error is returned where the Java code throws.
- What the Java code has already saved before the throw is kept in the model's state.

## Modules

| file | module | what |
|---|---|---|
| wrappers.dfy | Wrappers | `Option`, `Result`, `Error` |
| arith.dfy | Arith | small lemmas on multiplication and integer division |
| sequences.dfy | Sequences | the positions of the elements a filter keeps |
| java_strings.dfy | JavaStrings | Java's `trim`, `isEmpty`, ASCII `toLowerCase`, `equalsIgnoreCase`, `startsWith`, `indexOf`, `split(" ")`, decimal printing and parsing |
| entities.dfy | Entities | grade types, students, grades and bonuses as datatypes |
| grade_type_names.dfy | GradeTypeNames | the `GradeTypeName` enumeration |
| jwt_tokens.dfy | JwtTokens | `extractToken` |
| cookies.dfy | Cookies | `getCookie` |
| team_criteria.dfy | TeamCriteria | the controller's `getCriteria` |
| team_service.dfy | TeamService | class `TeamStore`: teams, the student-to-team map and the project settings |
| grade_service.dfy | GradeService | mean, imported-mean selection, row grades, assignment by name |
| bonus_service.dfy | BonusService | class `BonusStore`: bonuses and validations |
| student_import.dfy | StudentImport | CSV window extraction, student construction, the import loop |
| student_export.dfy | StudentExport | class `CsvWriter` and the export rows |
| sprint_grades.dfy | SprintGrades | the individual-total and sprint-grade formulas |

## Model

| member | source | states |
|---|---|---|
| TeamService.TeamStore.CreateTeams | backend/src/main/java/fr/eseo/tauri/service/TeamService.java:50-76 | `nbTeams < 1` is an IllegalArgument error and changes nothing. Otherwise exactly `nbTeams` teams exist afterwards, with fresh ids, in order, named "Team 1".."Team n". Student assignments are cleared only when the project already had teams. |
| TeamService.TeamStore.DeleteAllTeamsByProject | backend/src/main/java/fr/eseo/tauri/service/TeamService.java:92-98 | afterwards there is no team and no student belongs to a team |
| TeamService.NewTeams | backend/src/main/java/fr/eseo/tauri/service/TeamService.java:67-73 | team i has id `first + i` and name "Team " + (i+1) |
| TeamService.TeamNamesDistinct | backend/src/main/java/fr/eseo/tauri/service/TeamService.java:69 | two teams of one creation never share a name |
| TeamService.TeamStore.GenerateTeams | backend/src/main/java/fr/eseo/tauri/service/TeamService.java:155-176 | `nbStudent < nbTeams*womenPerTeam - 1` is an IllegalArgument error before any change. Otherwise the project settings are updated first. Team creation may then fail on `nbTeams < 1`. After that every student `(women+men)[p]` belongs to the new team at `SlotOf(p)`. Any other student keeps its team when the project had no team, and has none otherwise. A negative quota fails with IndexOutOfBounds once the new teams exist. |
| TeamService.TeamStore.FillTeams | backend/src/main/java/fr/eseo/tauri/service/TeamService.java:185-240 | Each student `(women+men)[p]` gets team `SlotOf(p)`, and no one else changes. Each ranking read is a list of `nbTeams` valid team indices. The ranking is read `RankingReads` times. A negative `womenPerTeam` fails with IndexOutOfBounds after two reads and assigns nobody. |
| TeamService.TeamStore.PlaceQuota | backend/src/main/java/fr/eseo/tauri/service/TeamService.java:196-213 | phase A for team i: the positions `i*wpt .. (i+1)*wpt - 1` that exist are given, in order, the team that `SlotIds` selects for them, which is team i; women come first, then men |
| TeamService.TeamStore.PlaceRemaining | backend/src/main/java/fr/eseo/tauri/service/TeamService.java:217-239 | phase B: every position from `nbTeams*wpt` up to `nbStudent` is given, in order, its `PhaseBTeam`; the ranking is re-read exactly at each round start, `RankingReads` times in all |
| TeamService.PhaseBTeam | backend/src/main/java/fr/eseo/tauri/service/TeamService.java:222-233 | the team a Phase-B offset selects always exists |
| TeamService.OverlayPlaces | backend/src/main/java/fr/eseo/tauri/service/TeamService.java:195-239 | assigning positions `0..n-1` one after the other gives each of those distinct students the team of its position and leaves every other student as before |
| TeamService.QuotaIds | backend/src/main/java/fr/eseo/tauri/service/TeamService.java:195-213 | every position of team i's phase-A block selects team i |
| TeamService.PhaseBIds | backend/src/main/java/fr/eseo/tauri/service/TeamService.java:217-239 | every position after phase A selects its `PhaseBTeam` |
| TeamService.PlaceInQuota | backend/src/main/java/fr/eseo/tauri/service/TeamService.java:200-211 | one quota step assigns the woman at the index while the index is below the number of women, the man at the index minus that number after it, and nobody past the last student |
| TeamService.PhaseBReads | backend/src/main/java/fr/eseo/tauri/service/TeamService.java:217-225 | a phase-B loop that stops after q full rounds and r more positions has read the ranking `RankingReads` times |
| TeamService.TeamStore.AssignTeam | backend/src/main/java/fr/eseo/tauri/service/TeamService.java:228-234 | only the chosen student's team changes |
| TeamService.SlotOf | backend/src/main/java/fr/eseo/tauri/service/TeamService.java:195-239 | the team of position p always exists |
| TeamService.PhaseAPosition | backend/src/main/java/fr/eseo/tauri/service/TeamService.java:195-198 | slot j of team i is position `i*wpt + j`, and it is assigned to team i |
| TeamService.PhaseATeamBlock | backend/src/main/java/fr/eseo/tauri/service/TeamService.java:195-214 | a phase-A position belongs to team t exactly when it lies in t's block of `wpt` positions |
| TeamService.PhaseBPosition | backend/src/main/java/fr/eseo/tauri/service/TeamService.java:222-233 | position `k + q*nbTeams + r` gets entry r of the ranking read at the start of round q |
| TeamService.PhaseBStep | backend/src/main/java/fr/eseo/tauri/service/TeamService.java:223-233 | the loop's `(i - index) % nbTeams` is the offset within the round, and the team it selects, entry r of the ranking read for round q, is `PhaseBTeam` of the Phase-B offset |
| TeamService.PhaseBRoundInjective | backend/src/main/java/fr/eseo/tauri/service/TeamService.java:222-239 | two students of the same phase-B round never get the same team |
| TeamService.PhaseBRoundCoversTeams | backend/src/main/java/fr/eseo/tauri/service/TeamService.java:222-239 | every team receives a student in each complete phase-B round |
| TeamService.NoQuotaAllPhaseB | backend/src/main/java/fr/eseo/tauri/service/TeamService.java:196-233 | with `womenPerTeam = 0` every student goes through phase B |
| TeamService.SingleTeam | backend/src/main/java/fr/eseo/tauri/service/TeamService.java:195-239 | with one team, every student joins it |
| TeamService.FirstRankingUnused | backend/src/main/java/fr/eseo/tauri/service/TeamService.java:217-225 | the ranking read before phase B never decides an assignment |
| TeamService.TwoTeamsTwoWomenExample | backend/src/main/java/fr/eseo/tauri/service/TeamService.java:195-239 | two teams with quota 2: positions 0-1 go to team 0, 2-3 to team 1, then each pair follows one fresh ranking |
| TeamService.RankingReads | backend/src/main/java/fr/eseo/tauri/service/TeamService.java:217-225 | one read when phase B is empty; otherwise one more per started round |
| TeamService.TeamStore.CriteriaByTeamId | backend/src/main/java/fr/eseo/tauri/service/TeamService.java:141-149 | an unknown team id is a NotFound error; otherwise the service's count-based criteria |
| TeamService.ServiceCriteria | backend/src/main/java/fr/eseo/tauri/service/TeamService.java:146-148 | women are validated iff their count reaches the project's `nbWomen`; bachelors iff there is at least one; no student count is carried |
| TeamService.CriteriaDefinitionsDiffer | backend/src/main/java/fr/eseo/tauri/service/TeamService.java:146-148 | the service's count rule and the controller's percentage rule (TeamController.java:218) give different answers on the same team |
| TeamCriteria.GetCriteria | backend/src/main/java/fr/eseo/tauri/controller/TeamController.java:214-225 | Women are validated iff `nbStudents > 0` and 100·women reaches target·students (for non-negative counts). No division happens at zero. Bachelors are validated iff there is at least one. The three counts are returned unchanged. |
| TeamCriteria.JavaDivMonotone | backend/src/main/java/fr/eseo/tauri/controller/TeamController.java:218 | Java's truncating division is monotone in its dividend |
| TeamCriteria.MoreWomenKeepsValidation | backend/src/main/java/fr/eseo/tauri/controller/TeamController.java:218 | more women never turns a validated team into an unvalidated one |
| TeamCriteria.TruncatedPercentage | backend/src/main/java/fr/eseo/tauri/controller/TeamController.java:218-223 | 1 woman in 3 students is 33 %: target 33 passes, 34 fails; zero students never validates |
| GradeService.Mean | backend/src/main/java/fr/eseo/tauri/service/GradeService.java:67-78 | the accumulation loop computes Σ(v·f)/Σf, or 0 when the factor sum is 0 |
| GradeService.FactorSumNonNegative | backend/src/main/java/fr/eseo/tauri/model/GradeType.java:26-28 | with factors ≥ 0 the factor sum is ≥ 0 |
| GradeService.WeightedSumWithin | backend/src/main/java/fr/eseo/tauri/service/GradeService.java:71-74 | the weighted sum lies between lo·Σf and hi·Σf when every value lies in [lo, hi] |
| GradeService.MeanWithin | backend/src/main/java/fr/eseo/tauri/service/GradeService.java:67-78 | with non-negative factors and a positive factor sum, the mean lies between the bounds of the values |
| GradeService.MeanEmpty | backend/src/main/java/fr/eseo/tauri/service/GradeService.java:76 | the mean of no grade is 0 |
| GradeService.MeanZeroFactors | backend/src/main/java/fr/eseo/tauri/service/GradeService.java:76 | all factors zero give a mean of 0, whatever the values |
| GradeService.MeanExample | backend/src/main/java/fr/eseo/tauri/service/GradeService.java:67-78 | 90 with factor 2 and 80 with factor 1 give 260/3 |
| GradeService.SelectedInOrder | backend/src/main/java/fr/eseo/tauri/service/GradeService.java:47-52 | `SelectImportedGrades` is the sub-list of the grades that pass the filter: selected grade k is the grade at the k-th passing position, so order and repeated grades are kept |
| GradeService.SelectedCounts | backend/src/main/java/fr/eseo/tauri/service/GradeService.java:47-52 | a grade that passes the filter is selected as many times as it occurs in the list, and any other grade never |
| GradeService.SelectedIff | backend/src/main/java/fr/eseo/tauri/service/GradeService.java:47-52 | `EntersImportedMean` (lines 48-51): a grade enters a student's mean iff it is the student's, its type is imported, and its name is neither "mean" nor "average" ignoring case |
| GradeService.SelectionExcludes | backend/src/main/java/fr/eseo/tauri/service/GradeService.java:48-51 | another student's grade, a non-imported grade, or a grade named "Mean"/"AVERAGE" is never selected |
| GradeService.NonBachelorsIff | backend/src/main/java/fr/eseo/tauri/service/GradeService.java:44-45 | `NonBachelors`: the students that get an update are exactly the non-bachelors |
| GradeService.NonBachelorsInOrder | backend/src/main/java/fr/eseo/tauri/service/GradeService.java:44-45 | `NonBachelors` is the sub-list of the non-bachelor students, in their order, repetitions kept |
| GradeService.NonBachelorsCounts | backend/src/main/java/fr/eseo/tauri/service/GradeService.java:44-45 | a non-bachelor is updated as many times as it occurs, a bachelor never |
| GradeService.UpdateImportedMean | backend/src/main/java/fr/eseo/tauri/service/GradeService.java:40-59 | one update per non-bachelor, in order, carrying the student's id and the mean of the grades selected for that student |
| GradeService.BachelorsNotUpdated | backend/src/main/java/fr/eseo/tauri/service/GradeService.java:45 | a bachelor never gets an update |
| GradeService.CellGradeRule | backend/src/main/java/fr/eseo/tauri/service/GradeService.java:155-168 | `CellGrade`, one cell: a blank cell creates nothing. An unparsable cell 0 is a NumberFormat error, while a later one is skipped. A parsed cell i creates a grade with type i, or fails with IndexOutOfBounds when there is no type i. |
| GradeService.CreateGradesFromGradeTypesAndValues | backend/src/main/java/fr/eseo/tauri/service/GradeService.java:152-172 | the loop creates, cell by cell, the row's grades up to the first error |
| GradeService.RowErrorSticks | backend/src/main/java/fr/eseo/tauri/service/GradeService.java:154-170 | after an error no later cell changes the outcome |
| GradeService.RowGradesNoError | backend/src/main/java/fr/eseo/tauri/service/GradeService.java:155-168 | the row succeeds iff cell 0 is blank or parses, and every parsed cell has a grade type |
| GradeService.RowGradesCreated | backend/src/main/java/fr/eseo/tauri/service/GradeService.java:155-168 | on success every non-blank parsable cell i produced its grade, with type i and the parsed value |
| GradeService.RowGradesExactly | backend/src/main/java/fr/eseo/tauri/service/GradeService.java:155-168 | `RowGrades`, the whole row: on success the grades are exactly those of the cells that parse, in cell order, each with the type at its cell's index and the parsed value |
| GradeService.NoCellsNoGrades | backend/src/main/java/fr/eseo/tauri/service/GradeService.java:154 | an empty row creates nothing |
| GradeService.UnparsableCells | backend/src/main/java/fr/eseo/tauri/service/GradeService.java:157-167 | an unparsable first cell fails the row; an unparsable second cell is skipped |
| GradeService.AssignGradeToTeam | backend/src/main/java/fr/eseo/tauri/service/GradeService.java:87-100 | an unknown team name is an IllegalArgument error; otherwise the grade is for that team |
| GradeService.AssignGradeToStudent | backend/src/main/java/fr/eseo/tauri/service/GradeService.java:109-120 | an unknown student name creates nothing and raises nothing; otherwise the grade is for that student |
| BonusService.BonusStore.GetBonusById | backend/src/main/java/fr/eseo/tauri/service/BonusService.java:25-27 | the stored bonus, or NotFound for an unknown id |
| BonusService.BonusStore.UpdateBonus | backend/src/main/java/fr/eseo/tauri/service/BonusService.java:51-67 | The checks run in order, each stopping the update with nothing changed: a limited request beyond ±4 is IllegalArgument, then an unknown bonus is NotFound, then an unknown author is NotFound. Otherwise the updated bonus is saved. The stored flag then decides: limited clears the bonus's validations, unlimited keeps them, and a missing flag is a NullPointer after the save. |
| BonusService.Updated | backend/src/main/java/fr/eseo/tauri/service/BonusService.java:59-62 | the value is always replaced; author and comment only when the request has one; limited, confirmed, sprint and student are kept |
| BonusService.UpdatedIdempotent | backend/src/main/java/fr/eseo/tauri/service/BonusService.java:59-62 | updating twice with the same request is updating once |
| BonusService.UpdateValueOnly | backend/src/main/java/fr/eseo/tauri/service/BonusService.java:59-62 | a request without author and comment only changes the value |
| BonusService.LimitBoundary | backend/src/main/java/fr/eseo/tauri/service/BonusService.java:52 | ±4 passes the limit, 4.5 does not, and an unlimited 10 passes |
| BonusService.WithoutValidationsOf | backend/src/main/java/fr/eseo/tauri/service/BonusService.java:66 | exactly the validations of other bonuses remain |
| BonusService.FlagsDisagree | backend/src/main/java/fr/eseo/tauri/service/BonusService.java:52-66 | an unlimited request passes the check, yet still clears the validations of a bonus stored as limited |
| BonusService.BonusStore.DeleteBonus | backend/src/main/java/fr/eseo/tauri/service/BonusService.java:73-76 | an unknown id is NotFound and deletes nothing; otherwise exactly that bonus is removed |
| GradeTypeNames.FromDisplayName | backend/src/main/java/fr/eseo/tauri/model/enumeration/GradeTypeName.java:25-30 | a found constant has that display name; no match is an IllegalArgument error and means no constant has the name |
| GradeTypeNames.FindFrom | backend/src/main/java/fr/eseo/tauri/model/enumeration/GradeTypeName.java:26-28 | the result is the first constant in declaration order whose display name matches |
| GradeTypeNames.DisplayNamesDistinct | backend/src/main/java/fr/eseo/tauri/model/enumeration/GradeTypeName.java:9-17 | no two constants share a display name |
| GradeTypeNames.FromDisplayNameRoundTrip | backend/src/main/java/fr/eseo/tauri/model/enumeration/GradeTypeName.java:9-30 | looking a constant up by its display name returns it |
| GradeTypeNames.CaseSensitive | backend/src/main/java/fr/eseo/tauri/model/enumeration/GradeTypeName.java:27 | "Average" matches nothing while "average" is AVERAGE |
| JwtTokens.ExtractToken | backend/src/main/java/fr/eseo/tauri/security/JwtTokenUtil.java:30-33 | a token is returned iff the header exists and starts with "Bearer "; the header is then the prefix followed by the token |
| JwtTokens.ExtractTokenRoundTrip | backend/src/main/java/fr/eseo/tauri/security/JwtTokenUtil.java:32 | "Bearer " + t gives back t for every t |
| JwtTokens.EmptyTokenAfterScheme | backend/src/main/java/fr/eseo/tauri/security/JwtTokenUtil.java:32 | the header "Bearer " gives "", not null |
| JwtTokens.SchemeIsExact | backend/src/main/java/fr/eseo/tauri/security/JwtTokenUtil.java:32 | other cases, no space, or a missing header give null |
| Cookies.GetCookie | frontend/src/utils/cookiesUtils.ts:1-10 | An absent name gives "World !". Otherwise the result has no ";", starts one character past the first occurrence of the name, and stops at a ";" or at the end of the string. It is empty when a ";" lies between the name and the value's start. It is non-empty when the value's start is inside the string and no ";" comes before it. |
| Cookies.ValueEnd | frontend/src/utils/cookiesUtils.ts:7-8 | the first ";" at or after the name, or the end of the string when there is none |
| Cookies.Slice | frontend/src/utils/cookiesUtils.ts:9 | JavaScript's clamped `slice`: empty when the start is not before the end |
| Cookies.FirstCookieValue | frontend/src/utils/cookiesUtils.ts:3-9 | the value of the cookie that opens the string is found, alone or followed by more cookies |
| Cookies.MatchesInsideAnotherName | frontend/src/utils/cookiesUtils.ts:3 | the search is not anchored: "name" is found inside "xname" |
| Cookies.SemicolonBeforeStart | frontend/src/utils/cookiesUtils.ts:7-9 | a ";" before the value's start gives "" |
| StudentImport.HasNonEmptyValueIff | backend/src/main/java/fr/eseo/tauri/service/StudentService.java:182-184 | `HasNonEmptyValue`: a cell counts iff it exists and has a character above U+0020 |
| StudentImport.HasNonEmptyValueExamples | backend/src/main/java/fr/eseo/tauri/service/StudentService.java:182-184 | the three cases of the service's own tests |
| StudentImport.FirstNamedFrom | backend/src/main/java/fr/eseo/tauri/service/StudentService.java:149-151 | the first named row from a position on, or the end |
| StudentImport.FirstUnnamedFrom | backend/src/main/java/fr/eseo/tauri/service/StudentService.java:152-154 | the first unnamed row from a position on, or the end |
| StudentImport.ExtractNamesGenderBachelorAndGrades | backend/src/main/java/fr/eseo/tauri/service/StudentService.java:137-171 | The row loop gives `Extraction(rows)`: the rows from the first named row up to the next unnamed one. Cells 1, 2 and 3 and the cells from 4 on give the four lists. A named row of 2 cells is an IndexOutOfBounds error, and one of 3 cells is an IllegalArgument error. |
| StudentImport.Window | backend/src/main/java/fr/eseo/tauri/service/StudentService.java:155-160 | the four lists have the window's length |
| StudentImport.WindowCells | backend/src/main/java/fr/eseo/tauri/service/StudentService.java:155-160 | entry k of the four lists holds cells 1, 2, 3 and 4.. of the window's k-th row |
| StudentImport.FirstShortFrom | backend/src/main/java/fr/eseo/tauri/service/StudentService.java:155-160 | the first row of the window with fewer than four cells, or the window's end; every row before it has four cells |
| StudentImport.ExtractionShort | backend/src/main/java/fr/eseo/tauri/service/StudentService.java:155-160 | a short row in the window makes the extraction fail with that row's error |
| StudentImport.ExtractionFull | backend/src/main/java/fr/eseo/tauri/service/StudentService.java:144-170 | a window without a short row is read whole |
| StudentImport.ExtractionOfNothing | backend/src/main/java/fr/eseo/tauri/service/StudentService.java:144-170 | no rows give four empty lists |
| StudentImport.LeadingUnnamedRowsSkipped | backend/src/main/java/fr/eseo/tauri/service/StudentService.java:149-155 | rows without a name before the first named row do not change the result |
| StudentImport.RowsAfterWindowIgnored | backend/src/main/java/fr/eseo/tauri/service/StudentService.java:152-154 | nothing after the row that closes the window changes the result |
| StudentImport.SameWindow | backend/src/main/java/fr/eseo/tauri/service/StudentService.java:144-161 | the result depends only on the rows of the window |
| StudentImport.ExtractionExample | backend/src/main/java/fr/eseo/tauri/service/StudentService.java:155-160 | two full rows give their names, genders, bachelor cells and grade cells |
| StudentImport.ExtractionKeepsBlankCells | backend/src/main/java/fr/eseo/tauri/service/StudentService.java:157-159 | blank gender and bachelor cells are kept as "" |
| StudentImport.ShortRowExamples | backend/src/main/java/fr/eseo/tauri/service/StudentService.java:157-159 | a named row of two cells is IndexOutOfBounds; of three cells, IllegalArgument |
| StudentImport.CreateStudentRule | backend/src/main/java/fr/eseo/tauri/service/StudentService.java:198-219 | `CreateStudentFromData`: a null or blank name or gender, or a null bachelor cell, is IllegalArgument. Otherwise the name decides: a one-word name is IndexOutOfBounds, while two or more words always give a student. The student is a man exactly for "M" and a bachelor exactly for a non-empty cell. Its address is built from the first two words. |
| StudentImport.CreateStudentSucceeds | backend/src/main/java/fr/eseo/tauri/service/StudentService.java:199-217 | any two-word name with a gender makes a student whose address is last.first@reseau.eseo.fr, lower-cased |
| StudentImport.EmailOrder | backend/src/main/java/fr/eseo/tauri/service/StudentService.java:216-217 | "John Doe" gets "doe.john@reseau.eseo.fr", not "john.doe@…" |
| StudentImport.OneWordName | backend/src/main/java/fr/eseo/tauri/service/StudentService.java:216-217 | a one-word name fails with IndexOutOfBounds |
| StudentImport.GenderAndBachelorRule | backend/src/main/java/fr/eseo/tauri/service/StudentService.java:211-212 | "m" is a woman and a bachelor cell of one space is a bachelor |
| StudentImport.ImportCellRule | backend/src/main/java/fr/eseo/tauri/service/StudentService.java:255-268 | `ImportCell`, one cell: a grade is created iff the trimmed cell is non-empty, parses, and has a grade type j. An unparsable cell is skipped. A parsed cell beyond the grade types is IndexOutOfBounds. |
| StudentImport.ImportCellsCreated | backend/src/main/java/fr/eseo/tauri/service/StudentService.java:253-268 | without error every non-blank parsable cell j produced its grade with type j |
| StudentImport.ImportCellsExactly | backend/src/main/java/fr/eseo/tauri/service/StudentService.java:253-268 | `ImportCells`, the cells of one student: without error the grades are exactly those of the cells that parse, in cell order, each with the type at its cell's index and the parsed value |
| StudentImport.ImportGrades | backend/src/main/java/fr/eseo/tauri/service/StudentService.java:253-268 | the cell loop of one student creates that student's grades up to the first error |
| StudentImport.ImportedStudents | backend/src/main/java/fr/eseo/tauri/service/StudentService.java:252-269 | `ImportStudents`, one `Step` per row: the import keeps the students created from the first row on, each followed by its own grades. It raises nothing exactly when no row fails, and then every row has given its student. |
| StudentImport.ImportFirstFailure | backend/src/main/java/fr/eseo/tauri/service/StudentService.java:252-269 | the first failing row's error is raised; that row's student is kept when it was created before its cells failed |
| StudentImport.StudentsStopAt | backend/src/main/java/fr/eseo/tauri/service/StudentService.java:252-269 | once a row has failed, later rows change nothing |
| StudentImport.ImportedGradesReferToStudents | backend/src/main/java/fr/eseo/tauri/service/StudentService.java:253-263 | every imported grade refers to a student created before it or with it |
| StudentImport.PopulateDatabaseFromCsv | backend/src/main/java/fr/eseo/tauri/service/StudentService.java:233-271 | An empty file is EmptyResource. An extraction error stops the import. Otherwise the students and their grades are created in order up to the first error, and what was created before it is kept. |
| StudentImport.ImportExtracted | backend/src/main/java/fr/eseo/tauri/service/StudentService.java:252-269 | the student loop gives `ImportStudents` of each row's creation outcome and cell-loop outcome |
| StudentImport.ImportRow | backend/src/main/java/fr/eseo/tauri/service/StudentService.java:253-268 | one row: a failed creation stops the import; a created student is added with its grades and the cell loop's error |
| StudentImport.EmptyFileRejected | backend/src/main/java/fr/eseo/tauri/service/StudentService.java:238-241 | an empty file is rejected before anything is read or created |
| StudentImport.UnparsableFirstCellSkipped | backend/src/main/java/fr/eseo/tauri/service/StudentService.java:257-266 | unlike the grade service's row rule, the import skips an unparsable first cell |
| StudentExport.CsvWriter.WriteNext | backend/src/main/java/fr/eseo/tauri/service/StudentService.java:324-325 | a written row is appended after the earlier ones |
| StudentExport.ExportedIff | backend/src/main/java/fr/eseo/tauri/service/StudentService.java:318-323 | a type gets a header column iff it is not named "average" |
| StudentExport.ExportedAll | backend/src/main/java/fr/eseo/tauri/service/StudentService.java:318-323 | all types get a column iff none is named "average" |
| StudentExport.HeaderFitsIff | backend/src/main/java/fr/eseo/tauri/service/StudentService.java:312-323 | the header writes stay inside their arrays iff there is no type or some type is named "average" |
| StudentExport.HeaderLayout | backend/src/main/java/fr/eseo/tauri/service/StudentService.java:312-323 | the header row has width n+4 and "sexe M / F" in cell 2; the k-th exported name sits in column 5+k |
| StudentExport.FillHeaders | backend/src/main/java/fr/eseo/tauri/service/StudentService.java:312-323 | the array loop builds the factor and header rows, or fails with IndexOutOfBounds exactly when they do not fit |
| StudentExport.Spread | backend/src/main/java/fr/eseo/tauri/service/StudentService.java:318-323 | writing items from a column on keeps the row's width |
| StudentExport.SpreadCells | backend/src/main/java/fr/eseo/tauri/service/StudentService.java:318-323 | inside the items' columns a cell holds its item, elsewhere the base's cell |
| StudentExport.SpreadNothing | backend/src/main/java/fr/eseo/tauri/service/StudentService.java:312-317 | the arrays before the loop are the blank rows themselves |
| StudentExport.HeaderStep | backend/src/main/java/fr/eseo/tauri/service/StudentService.java:319-322 | one more exported type puts its name and its factor in the next column |
| StudentExport.FillColumns | backend/src/main/java/fr/eseo/tauri/service/StudentService.java:316-323 | the loop with its running index from 5 fills both arrays, or fails with IndexOutOfBounds exactly when they do not fit |
| StudentExport.WriteHeaders | backend/src/main/java/fr/eseo/tauri/service/StudentService.java:311-326 | the factor row is written, then the header row; nothing is written when they do not fit |
| StudentExport.StudentInfo | backend/src/main/java/fr/eseo/tauri/service/StudentService.java:339-350 | the array loop builds the student's row |
| StudentExport.StudentRowCells | backend/src/main/java/fr/eseo/tauri/service/StudentService.java:336-350 | `StudentRow`: cell 0 reads back as the 1-based number. Cell 1 is the name. Cell 2 is "M" exactly for a man, else "F". Cell 3 is "B" exactly for a bachelor, else "". Cell 4+t holds type t's grade, or "". |
| StudentExport.StudentNumbersDistinct | backend/src/main/java/fr/eseo/tauri/service/StudentService.java:337-341 | two student rows carry the same number only at the same position |
| StudentExport.WriteStudentData | backend/src/main/java/fr/eseo/tauri/service/StudentService.java:336-353 | one row per student, in order |
| StudentExport.ColumnMisalignment | backend/src/main/java/fr/eseo/tauri/service/StudentService.java:318-349 | with types [T, average], T heads column 5 while T's grade is in column 4 and the average is in column 5 |
| StudentExport.WriteCountRow | backend/src/main/java/fr/eseo/tauri/service/StudentService.java:399-405 | the label goes in cell 1 and the count in cell 2; a row shorter than 3 cells raises before being written |
| StudentExport.WriteEmptyRows | backend/src/main/java/fr/eseo/tauri/service/StudentService.java:380-386 | exactly `numRows` blank rows of the given width (none if not positive) are appended |
| StudentExport.SummaryCells | backend/src/main/java/fr/eseo/tauri/service/StudentService.java:361-370 | After four blank rows of width n+4 come the "Nombre F" and "Nombre M" rows, each with its count in cell 2; the men's count is total minus women. Then comes "Nombre B", with its count in cell 3 and cell 2 empty. |
| StudentExport.WriteSummaryData | backend/src/main/java/fr/eseo/tauri/service/StudentService.java:361-370 | the seven summary rows are appended |
| StudentExport.ExportWidth | backend/src/main/java/fr/eseo/tauri/service/StudentService.java:284-302 | the file has one row per student plus nine, all of width n+4 |
| StudentExport.WriteBody | backend/src/main/java/fr/eseo/tauri/service/StudentService.java:297-298 | after the headers come the student rows, then the summary rows |
| StudentExport.CreateStudentsCsv | backend/src/main/java/fr/eseo/tauri/service/StudentService.java:284-302 | the export succeeds iff the header fits, and is then factor row, header row, student rows and summary |
| SprintGrades.BonusSumAppend | backend/src/main/java/fr/eseo/tauri/service/StudentService.java:445 | `BonusSum`, the `mapToDouble(Bonus::value).sum()`: one more bonus adds its value to the sum |
| SprintGrades.BonusSumMove | backend/src/main/java/fr/eseo/tauri/service/StudentService.java:445 | the bonus sum does not depend on where a bonus is in the list |
| SprintGrades.IndividualTotalGrade | backend/src/main/java/fr/eseo/tauri/service/StudentService.java:420-432 | a missing average is a NullPointer error |
| SprintGrades.IndividualTotalBetween | backend/src/main/java/fr/eseo/tauri/service/StudentService.java:431 | (2·individual + teamGraded)/3 lies between its two averages |
| SprintGrades.SprintGrade | backend/src/main/java/fr/eseo/tauri/service/StudentService.java:434-446 | the sprint grade fails exactly when the individual total does |
| SprintGrades.SprintGradeWithin | backend/src/main/java/fr/eseo/tauri/service/StudentService.java:445 | with every grade in [0, 20] and a non-negative team total, the sprint grade is in [0, 20] |
| SprintGrades.MoreBonusNeverLowers | backend/src/main/java/fr/eseo/tauri/service/StudentService.java:445 | a non-negative bonus never lowers the grade, and once team grade plus bonuses reach 20 it no longer raises it |
| SprintGrades.SprintGradeExample | backend/src/main/java/fr/eseo/tauri/service/StudentService.java:431-445 | team 15 with bonuses 1 and 2, individual 12 and team-graded 15 give 16.5; team 19 with bonus 3 is capped and gives 17.9 |
| JavaStrings.BlankIff | backend/src/main/java/fr/eseo/tauri/service/StudentService.java:183 | `trim().isEmpty()` holds iff every character is at most U+0020 |
| JavaStrings.TrimShape | backend/src/main/java/fr/eseo/tauri/service/StudentService.java:183 | `trim()` gives a slice of the string that neither starts nor ends with a character at most U+0020 |
| JavaStrings.ToLower | backend/src/main/java/fr/eseo/tauri/service/StudentService.java:217 | lower-casing keeps the length |
| JavaStrings.ToLowerChars | backend/src/main/java/fr/eseo/tauri/service/StudentService.java:217 | each character is lower-cased on its own |
| JavaStrings.IndexOf | frontend/src/utils/cookiesUtils.ts:7 | the first occurrence at or after the start, or -1 when there is none |
| JavaStrings.IndexOfFirst | frontend/src/utils/cookiesUtils.ts:7 | `indexOf` finds a string where it first occurs |
| JavaStrings.PiecesHaveNoSpace | backend/src/main/java/fr/eseo/tauri/service/StudentService.java:216 | no piece between spaces holds a space |
| JavaStrings.JoinPieces | backend/src/main/java/fr/eseo/tauri/service/StudentService.java:216 | gluing the pieces back with single spaces gives the string again |
| JavaStrings.DropTrailingEmpty | backend/src/main/java/fr/eseo/tauri/service/StudentService.java:216 | what remains is a prefix that does not end with an empty piece |
| JavaStrings.DropTrailingEmptyDropsEmpty | backend/src/main/java/fr/eseo/tauri/service/StudentService.java:216 | only empty pieces are dropped |
| JavaStrings.Split | backend/src/main/java/fr/eseo/tauri/service/StudentService.java:216 | a string without a space is returned whole |
| JavaStrings.SplitHasNoSpace | backend/src/main/java/fr/eseo/tauri/service/StudentService.java:216 | no part of a split holds a space |
| JavaStrings.SplitTwoWords | backend/src/main/java/fr/eseo/tauri/service/StudentService.java:216 | `split(" ")` of "a b" is [a, b] |
| Sequences.KeptIndicesExactly | backend/src/main/java/fr/eseo/tauri/service/GradeService.java:47-52 | the positions a filter keeps are listed in increasing order, each kept position exactly once, and no other |
| JavaStrings.ParsedIndicesExactly | backend/src/main/java/fr/eseo/tauri/service/StudentService.java:257-260 | the positions listed are, in increasing order, exactly those of the cells that are not blank and parse once trimmed |
| JavaStrings.ParseIntToString | backend/src/main/java/fr/eseo/tauri/service/StudentService.java:403 | `String.valueOf` of an int parses back to it |

## Left out

- Authorisation checks, HTTP controllers, JWT signing and validation: not part of this model. Every call is taken to be authorised.
- Persistence. Repository reads are parameters:
  - the team ranking `ranking(c)` for the c-th read;
  - the women and men lists, in repository order;
  - grade lookups and counts;
  - the imported grade types.
- Repository writes are the model's state: the team and bonus stores, and the rows written. Students and grades created by the import are returned as values.
- The `Role` object saved per assigned student is not modelled.
- Project lookups: `projectService.getProjectById` is assumed to succeed, and its NotFound case is not modelled.
- `createStudent`, with its per-student fan-out, is not modelled. The import returns the students it would create.
- `GradeTypeService.createGradeTypesFromCSV` is not part of this model: the import takes the resulting grade types as a parameter.
- OpenCSV tokenisation and quoting: rows arrive as sequences of cells. The export ends at the sequence of rows, and its byte encoding is not modelled.
- `Float.parseFloat`, `String.valueOf(float)` and `Float.toString` are the parameters `parse`, `show` and `showFactor`. Arithmetic is exact over `real`, with no IEEE rounding.
- Bonus values are modelled as numbers, although `Bonus.value` is declared a string (backend/src/main/java/fr/eseo/tauri/model/Bonus.java:21).
- The grade types looked up by name in `assignGradeToTeam`/`assignGradeToStudent` are given. Their lookup returning null, and the saves, are not modelled.
- `deleteBonus` leaves the validations of the deleted bonus in the store; the database's cascade is not modelled.
- Nullable fields are modelled as present: `GradeType.factor`, `GradeType.imported`, `Grade.value`, `Student.gender`, `Student.bachelor` and the project's `nbTeams`/`nbWomen`. The NullPointerExceptions that a null in one of them raises are not modelled: the unboxing of `imported()` (GradeService.java:49), `value() * factor()` (GradeService.java:72-73), `factor().toString()` (StudentService.java:321), `gender().toString()` (StudentService.java:343) and `nbTeams * womenPerTeam - 1` (TeamService.java:169). `Bonus.limited` is the one nullable field kept as an option, with its NullPointer path.
- The team store holds a single project: deleting a project's teams clears all student assignments.
- TeamService.TeamStore.GenerateTeams: does not model the 32-bit overflow of `nbTeams * womenPerTeam`. Integers are unbounded.
- TeamCriteria.GetCriteria: does not model the 32-bit overflow of `nbWomen * 100`. Its iff with the unscaled comparison is stated for non-negative counts only.
- JavaStrings.ToLower: maps ASCII letters only; Java's full Unicode case mapping is not modelled.
- Cookies.GetCookie: requires a name without regular-expression metacharacters. Under that condition `search(name)` behaves as `indexOf(name)`. Regular-expression matching is not modelled.
- Cookies.GetCookie: counts Unicode scalar values, while JavaScript's `length`, `indexOf` and `slice` count UTF-16 code units. When a character outside the Basic Multilingual Plane directly follows the name, the `+ 1` of cookiesUtils.ts:9 skips half of it in JavaScript and the whole character here.
- SprintGrades.SprintGrade: the team total grade and the two averages are parameters. `getTeamTotalGrade` and the repository averages are not part of this model, and neither are the `GLOBAL_TEAM_PERFORMANCE`/`INDIVIDUAL_PERFORMANCE` names, which the enumeration in this repository does not declare.
- Concurrency: the delete-then-recreate sequence of team allocation is modelled as sequential.
