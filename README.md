# flamingo_stats rundown builder, in Dafny

This project models `build_rundown`, the core of the flamingo_stats basketball dashboard. The function turns the sheets of one game into two things:

- a play-by-play narrative;
- the two teams' box scores.

The sheets are the team names, one roster per team (jersey number, name, and the minutes at which the player fouled) and the "Rundown", one row per scoring event or free throw.

`build_rundown` makes a single pass over the rundown rows, updating a running state:

- the running minute: a row's minute replaces it only when present and not negative;
- both running scores;
- the last acting team and player: the jersey number under "# A", else under "# B", else the previous actor;
- the narrative;
- a box score per player (PF, FGM, 3PM, FTM, FTA, PTS).

Each row does these things, in order:

1. Fouls. The running minute is matched against both rosters' foul minutes. Team A takes precedence, and within a team the first listing player is charged. The foul line is appended, and a personal foul charged, only when the narrative does not hold that line yet.
2. Play. The play is read off the change in the acting team's cumulative score: 3 is a three, 2 a bucket, 1 a made free throw, and the dash a missed free throw. The score line is appended.
3. Quarter. At minutes 10, 20 and 30 an end-of-quarter line is appended when the next row's minute is later.

After the last row come the end-of-fourth and end-of-game lines and the FT% of every player. The winner is team A only on a strictly higher score.

The project has five modules:

- `Types` holds the sheets, the narrative lines (an abstract datatype, one constructor per kind of line), the counters and the errors.
- `Rules` holds the per-row rules: the minute carry-forward, the foul scan, the actor lookup, the play classification, the box-score counters and FT%.
- `Rundown` holds the pass as a fold over the rows. `Step` is one row, `Run` the first `n` rows and `Build` the whole rundown. Every failing assertion or lookup of the source is an `Error` that aborts the game.
- `Builder` holds the pass as the source writes it. The class `Pass` holds the running state in fields. Its methods are the blocks of the loop body, and `BuildRundown` is the loop. Each method is proved equal to the matching part of the fold, and `BuildRundown` is proved to return `Build(g)`.
- `Properties` holds what the pass promises, proved of the fold by induction over the rows. Because `BuildRundown` returns `Build(g)`, every property of `Build` holds of the imperative builder as well.

## Model

| member | source | states |
|---|---|---|
| Rules.FirstFoulerSpec | dashboard.py:48-51 | of Rules.FirstFouler: the fouler found is the first roster row listing the minute; none is found exactly when no row lists it |
| Rules.DetectFoulSpec | dashboard.py:48-52 | of Rules.DetectFoul: a foul is found iff some player of either team lists the minute; team A takes precedence; the first listing row of the team is charged |
| Rules.FoulLineAt | dashboard.py:48-53 | a foul line exists for a minute iff some player of either team lists it; it carries that minute and names team A and the first player of roster A listing the minute, or, when no player of team A lists it, team B and the first player of roster B listing it |
| Rules.FirstWithNumberSpec | dashboard.py:61-67 | of Rules.FirstWithNumber: the player found is the first roster row wearing the number; none is found exactly when no row wears it |
| Rules.Resolve | dashboard.py:58-69 | a row naming no number resolves exactly when there is a previous actor |
| Rules.ResolveSpec | dashboard.py:58-69 | "# A" takes precedence over "# B"; a number resolves iff the team's roster has it, to the first player wearing it, else it fails with that minute and side; a row naming none reuses the previous actor or fails without one |
| Rules.ResolveListed | dashboard.py:58-69 | when the previous actor is a player on its roster, the resolved actor is a player on the actor's roster |
| Rules.Points | dashboard.py:73-88 | a play is worth at most 3 points, and 0 exactly for a missed free throw |
| Rules.Classify | dashboard.py:72-86 | a play is found iff the cell is the miss marker or its number is 1 to 3 above the running score; a miss exactly for the marker; a numeric cell equals the running score plus the play's points |
| Rules.Tally | dashboard.py:73-89 | a three adds one 3PM, a bucket one FGM, a made free throw one FTM and one FTA, a miss one FTA alone, a foul one PF; PTS grows by the play's points; the identities PTS = 3·3PM + 2·FGM + FTM and FTM ≤ FTA are kept |
| Rules.CreditByNameAt | dashboard.py:56-89 | of Rules.CreditByName: crediting a name credits every roster row with that name and leaves every other row unchanged |
| Rules.FtPct | dashboard.py:110-111 | FT% is undefined exactly when FTA is 0; otherwise FT% · FTA = 100 · FTM, and it lies between 0 and 100 when FTM ≤ FTA |
| Rundown.Start | dashboard.py:35-42 | the pass starts at minute 0 with both scores 0, no actor, the header line alone and zero counters, one per roster row |
| Rundown.ErrorPersists | dashboard.py:61-101 | once a row fails, every longer prefix of the rows fails with the same error |
| Rundown.GameFails | dashboard.py:61-101 | an error at any row is the error of the whole rundown |
| Builder.Pass.constructor | dashboard.py:38-42 | the running state starts as the fold's start state |
| Builder.Pass.ScanFoul | dashboard.py:44-56 | after the minute update and the foul scan, the fields equal the fold's foul phase of the row |
| Builder.Pass.ResolveActor | dashboard.py:58-69 | the new actor, or the error, is exactly the actor resolution of the row |
| Builder.Pass.ScorePlay | dashboard.py:71-94 | an invalid score cell gives the invalid-score error; otherwise the fields equal the fold's scoring phase for the classified play |
| Builder.Pass.CloseQuarter | dashboard.py:96-102 | the quarter line, or the error, is exactly the fold's quarter phase |
| Builder.Pass.ProcessRow | dashboard.py:43-102 | one loop iteration yields exactly the fold's step for the row, its state or its error |
| Builder.Pass.Close | dashboard.py:104-114 | the report is the narrative plus the trailer, with both finished box scores |
| Builder.BuildRundown | dashboard.py:27-116 | the loop returns exactly Build(g), so every property of Build holds of it |
| Properties.RowCredits | dashboard.py:44-94 | of Rundown.Step with Rundown.Score: a row credits exactly the resolved actor with the play, moves only that actor's team's score, by the play's points, and records the actor |
| Properties.RowLines | dashboard.py:44-102 | of Rundown.Step with Rundown.Foul and Rundown.Quarter: a row appends, in order, the foul line of the running minute exactly when some player fouled then and the narrative does not hold that line yet; exactly one score line with the running scores, the actor and the play that the change in the actor's score cell shows; and a quarter line, numbered minute/10 with the running scores, exactly when the minute is 10, 20 or 30 and the next row's minute is later |
| Properties.RunMinute | dashboard.py:39-45 | of Rules.Carry: the running minute after n rows is the minute of the last of them carrying a present, non-negative one, or 0 |
| Properties.RowScores | dashboard.py:72-88 | a numeric cell becomes the acting team's score, 1 to 3 points up; a non-numeric cell is the miss marker and leaves it; the other team's score never changes |
| Properties.Earlier | dashboard.py:88-94 | running scores never decrease, and earlier narratives are prefixes of later ones |
| Properties.RowExtends | dashboard.py:55-102 | a row only appends to the narrative |
| Properties.CreditKeepsStatOk | dashboard.py:73-89 | crediting keeps PTS = 3·3PM + 2·FGM + FTM and FTM ≤ FTA for every player |
| Properties.CreditSideOk | dashboard.py:73-89 | crediting either team keeps every player's identities |
| Properties.RowStatsOk | dashboard.py:56-89 | a row keeps every player's identities |
| Properties.RunStatsOk | dashboard.py:56-89 | after any number of rows every player has PTS = 3·3PM + 2·FGM + FTM and FTM ≤ FTA |
| Properties.CreditElsewhere | dashboard.py:56-89 | crediting a name absent from a roster leaves that roster's counters unchanged |
| Properties.CreditNeutral | dashboard.py:56-89 | a credit that adds no points (or no foul) leaves the team's PTS (or PF) sum unchanged |
| Properties.CreditSums | dashboard.py:56-89 | with distinct names, crediting a listed player moves the team's PTS and PF sums by exactly the credit |
| Properties.ZerosSum | dashboard.py:35-36 | of Rules.Zeros: the initial counters sum to zero points and zero fouls |
| Properties.CreditSideNeutral | dashboard.py:56-89 | a credit without points or fouls leaves both teams' sums unchanged |
| Properties.CreditSideSums | dashboard.py:56-89 | for a player listed on a roster with distinct names, crediting that side moves its sums by the credit and leaves the other side's counters unchanged |
| Properties.RowTallied | dashboard.py:88-89 | with distinct names on both rosters, a row keeps each team's summed PTS equal to its running score |
| Properties.RunTallied | dashboard.py:88-89 | with distinct names, after any number of rows each team's summed PTS equals its running score |
| Properties.RowCounts | dashboard.py:50-94 | a row adds exactly one score line and one foul line for a team exactly when it appends a new foul line of that team |
| Properties.RunNarrative | dashboard.py:42-94 | of Rundown.Run and Rundown.After: after n rows the narrative starts with the header and holds exactly n score lines |
| Properties.FoulsOnceAppend | dashboard.py:54-55 | appending a new, detected foul line keeps foul lines unique and detected |
| Properties.RowFoulsOnce | dashboard.py:48-56 | a row keeps every foul line unique and equal to the foul detected for its minute |
| Properties.RunFoulsOnce | dashboard.py:48-56 | no foul line appears twice, and each is the foul detected for its minute |
| Properties.FoulScan | dashboard.py:47-56 | of Rundown.Foul: when the foul line of the running minute is new it is appended and exactly the roster rows of the fouler's team named like the fouler get one more PF; otherwise nothing changes; the minute, scores and actor never change |
| Properties.FoulCharged | dashboard.py:50-56 | the foul scan charges one PF to the team of the foul line it appends, none when it appends none, and no points |
| Properties.RowCharged | dashboard.py:50-56 | a row keeps each team's summed PF equal to its number of foul lines |
| Properties.RunCharged | dashboard.py:50-56 | after any number of rows each team's summed PF equals its number of foul lines |
| Properties.QuarterAppend | dashboard.py:97-102 | appending the quarter line of the current minute keeps quarter lines in increasing order |
| Properties.RowQuarters | dashboard.py:97-102 | with chronological minutes, a row keeps quarter lines in order and each earlier than the running minute |
| Properties.RunQuarters | dashboard.py:97-102 | with chronological minutes, the quarter lines after any number of rows are in increasing order and name quarters 1 to 3 |
| Properties.TrailerCounts | dashboard.py:104-108 | the trailer adds no score line and no foul line |
| Properties.BuildNarrative | dashboard.py:42-108 | of Rundown.Build with Rundown.Trailer: the narrative starts with the header, holds one score line per row, ends with the last score line, the end of the fourth and the end of the game carrying its scores, and names team A the winner exactly when its score is strictly higher |
| Properties.BuildBoxScores | dashboard.py:73-114 | with Rules.Finish: each team's box score has one row per roster row, with its number and name, the box-score identities, and FT% defined exactly when FTA > 0, between 0 and 100 and equal to 100·FTM/FTA |
| Properties.BuildPoints | dashboard.py:88-108 | with distinct names, each team's summed PTS equals its final score in the end-of-game line |
| Properties.BuildFouls | dashboard.py:48-56 | every foul line is the foul detected for its minute; no two foul lines share a minute; with distinct names and team names each team's summed PF equals its number of foul lines |
| Properties.BuildQuarters | dashboard.py:97-102 | with chronological minutes the finished narrative's quarter lines name quarters 1 to 3 in increasing order |
| Properties.FirstRowWithoutActor | dashboard.py:68-72 | a first row naming no player fails the game with no actor at its minute |
| Properties.UnknownNumber | dashboard.py:58-67 | a jersey number missing from its roster fails the game with that minute and side |
| Properties.MinuteZeroFails | dashboard.py:97-100 | a row processed at running minute 0 fails the game: there is no quarter suffix for 0 |
| Properties.LastRowOnBoundaryFails | dashboard.py:97-101 | a last row at minute 10, 20 or 30 fails the game: the next row is read past the end |
| Properties.RowOutcome | dashboard.py:44-102 | of Rundown.Step and Rundown.Quarter: a row succeeds exactly when its actor resolves, its score cell classifies against the running score, and its minute is not 0 and, when it is 10, 20 or 30, a next row exists; otherwise it fails with, in this order, the lookup's error, an invalid score at the minute and side, the missing suffix of 0, or the look past the end at the minute |
| Properties.RunErrors | dashboard.py:61-101 | every error of a prefix of the rows is one a row raises: an unknown player, no actor, an invalid score, the missing suffix of 0 or the look past the end |
| Properties.BuildOutcome | dashboard.py:43-108 | of Rundown.Build: a game fails for want of rows exactly when it has none, and a game with rows is built exactly when every row succeeds |

## Left out

- Loading the workbook (`load_data`, dashboard.py:8-23) is left out: it is file I/O through pandas. A game comes in as a `Game` value.
- The Streamlit pages (dashboard.py:119-203) are left out: they are UI, and the plotting code there is commented out.
- The markdown text of each line is left out. That means `&nbsp;`, emoji, zero-padding and the quarter suffixes. Lines are an abstract datatype, and two lines are equal exactly when their fields are. Two different fields that happen to format to the same string are therefore not modelled.
- The box scores are keyed by side (A or B), not by team name. The source keys them by name, so two teams with the same name would share one box score; that is not modelled.
- Properties.FoulCharged: proved only for distinct team names and rosters without a repeated name, because foul lines are counted by team name and a repeated player name is charged on every row with that name.
- Properties.RowCharged: proved only for distinct team names and rosters without a repeated name, because foul lines are counted by team name and a repeated player name is charged on every row with that name.
- Properties.RunCharged: proved only for distinct team names and rosters without a repeated name, because foul lines are counted by team name and a repeated player name is charged on every row with that name.
- Properties.BuildFouls: proved only for distinct team names and rosters without a repeated name, because foul lines are counted by team name and a repeated player name is charged on every row with that name.
- Properties.BuildPoints: proved only for rosters without a repeated name. With a repeated name the source credits every row of that name, so the team's summed PTS can exceed its score (`Rules.CreditByNameAt` states that behaviour).
- Properties.RowTallied: proved only for rosters without a repeated name, for the same reason.
- Properties.RunTallied: proved only for rosters without a repeated name, for the same reason.
- pandas mechanics are left out:
  - Empty cells become `None`, and a NaN comparison is modelled as false.
  - A score cell is a number, a text or empty. The string test for digits is modelled as "a non-negative number".
  - The foul-minute columns of a roster row are its filled cells.
  - The look-ahead to the next row assumes the default 0-based row index.
- FT% is an exact `real`, not floating point. The undefined 0/0 is `None`.
- Python's exceptions become the values of `Types.Error`. The failing `assert`s are `UnknownPlayer` and `InvalidScore`. The `TypeError` of a non-text cell tested against the dash is also `InvalidScore`. The `KeyError`s are `NoActor` (no team yet) and `NoQuarterSuffix` (quarter 0). The `IndexError` is `PeekPastEnd`, and the undefined final score of an empty rundown is `EmptyRundown`. The exact exception type and message are not modelled.
- The re-indexing of the box scores by jersey number (dashboard.py:112-114) is modelled by giving each box-score row the roster row's number and name.
