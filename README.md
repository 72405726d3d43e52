# NBA stats chatbot: verified model of the question answering and the ETL transform

This project models three parts of the sports-chatbot repository:

- The `/chat` handler of the Flask app (`app/app.py`). It classifies a free-text question, pulls the season and a team fragment out of it, and resolves the team through an alias table and a search-key map. It then runs one of two SQL queries and renders the answer.
- The two ETL scripts (`app/run_etl.py`, `services/etl/run_etl.py`). They turn per-team game rows into one home/away record per game and prepare an optional CSV of team stats. They then replace whole tables in the SQLite file the app reads.

SQLite is modelled as a map from table name to table contents (`Store.Tables`). The ETL writes through a `Database` object whose `Replace` method is `to_sql(..., if_exists="replace")`. A SQL statement is a function over the `Team` and `Game` sequences. The average is exact: integer tenths, rounded half up.

Modules, by source file:

- Shared helpers:
  - `Wrappers`: Option and Result.
  - `Text`: ASCII `lower`, Python `strip`, substring tests, `split(t)[-1]`, `str(int)` and `int(str)`, `rstrip(c)`, the `\s+ → _` replacement, and SQLite's text ordering.
  - `Store`: the entities, the store, and the faults that surface as Python exceptions.
- `app/app.py`:
  - `Resolver`: `ALIASES`, `_build_team_map`, `_resolve_team`.
  - `Queries`: `_avg_pts`, `_last_game`, `_team_name`, `MAX(season)`.
  - `Matcher`: the intent tests and the two regular expressions.
  - `App`: `chat` itself.
  - `AppProperties`: what the handler guarantees.
  - `Scenarios`: concrete questions.
- Both ETL scripts:
  - `Etl`: the season label, `groupby("GAME_ID")` and the pairing loop.
  - `Csv`: column renames and normalisation, the cleaning loop, `dropna`.
  - `AppEtl` and `ServicesEtl`: each script's load step and the whole run.

The help text's own examples are not answered as they suggest:

- "What did the Lakers average in 2024?" contains neither "points" nor "ppg", so the handler answers it with the help text again (`Scenarios.LakersExampleGetsHelp`).
- "Last game for the Warriors" looks up the whole text after the trigger, " for the warriors", and is answered "Team not recognised." (`Scenarios.WarriorsExampleNotRecognised`). "Last game for the Wiz" fails the same way, although "wiz" is an alias (`Scenarios.WizExampleNotRecognised`).

## Model

| member | source | states |
|---|---|---|
| Store.TeamsReadBack | app/app.py:40-43 | a `teams` table the ETL job writes is read back by the app with exactly the rows written |
| Store.GamesReadBack | app/app.py:131-132 | a `games` table the ETL job writes is read back by the app with exactly the rows written |
| Store.OtherWriteKeepsReads | app/run_etl.py:104-106 | writing any table other than `teams` or `games` changes neither what the app reads as teams nor as games |
| Store.Database.Replace | app/run_etl.py:103-107 | `to_sql(..., if_exists="replace")` sets that one table to the new contents and leaves every other table unchanged |
| Resolver.TeamMapKeys | app/app.py:49-59 | a key is in the team map iff some row contributes it |
| Resolver.TeamMapLastOwner | app/app.py:49-59 | a key in the team map maps to the id of a row that contributes it and that no later row overrides |
| Resolver.TeamMapLastWins | app/app.py:49-59 | a key is in the team map iff some row contributes it, and it then maps to the id of the last row that contributes it |
| Resolver.BuildTeamMap | app/app.py:38-59 | a missing teams table gives the empty map; otherwise the nested loop builds exactly the last-row-wins map; a team name with no word makes `split()[-1]` raise IndexError |
| Resolver.AddKeys | app/app.py:57-58 | the inner loop adds every token with the row's id and keeps every other entry |
| Resolver.TeamMapStep | app/app.py:50-58 | one outer iteration extends the map built so far by that row's keys |
| Resolver.ResolveIgnoresCaseAndPadding | app/app.py:67 | surrounding whitespace and ASCII case never change the resolved id |
| Resolver.AliasShadowsRawKey | app/app.py:67-68 | for an alias only the alias target is consulted: two maps that agree on the target resolve alike whatever they hold for the raw key |
| Resolver.ResolvesToLastOwner | app/app.py:57-68 | a fragment whose key is last contributed by row i resolves to row i's id |
| Resolver.UnknownFragmentNotFound | app/app.py:65-68 | a fragment whose key no row contributes resolves to None |
| Queries.UnionAllMatchesPerGame | app/app.py:76-80 | the UNION ALL of home and away scores has as many entries and the same sum as counting each game once per side the team played |
| Queries.RoundTenths | app/app.py:81 | the tenths t satisfy (2t-1)·n ≤ 20·total < (2t+1)·n: the mean rounded half up to one decimal |
| Queries.AvgTenths | app/app.py:74-84 | None iff the team has no game in the season; otherwise the mean of its home and away scores over those games, rounded to tenths |
| Queries.MaxSeason | app/app.py:131-132 | None iff the games table is empty; otherwise a season of some game that no game exceeds |
| Queries.LastGame | app/app.py:87-95 | None iff no game involves the team; otherwise a game involving it with no later date, and the first such row in table order |
| Queries.FirstWithId | app/app.py:98-100 | the first team row with the id, or None iff no row has it |
| Queries.TeamName | app/app.py:98-100 | a missing table raises "no such table: teams"; no row with the id makes `fetchone()[0]` fail; otherwise the name of the first row with the id |
| Matcher.FirstContained | app/app.py:141 | the index of the first phrase the question contains, or None iff it contains none |
| Matcher.FirstTriggerUnique | app/app.py:141 | at most one phrase is the first one the question contains |
| Matcher.Classify | app/app.py:128-141 | average iff "average" and ("points" or "ppg") occur; otherwise last-game iff some trigger occurs, reporting the first in tuple order; otherwise unknown |
| Matcher.FindYear | app/app.py:130 | None iff no standalone `20dd` token occurs; otherwise the value, in 2000..2099, of the leftmost one |
| Matcher.TokenLen | app/app.py:133 | a removed token lies inside the text between word boundaries and is made of word characters |
| Matcher.RemovesExactlyTheTokens | app/app.py:133 | the `re.sub` scan keeps exactly the characters that no standalone "average", "points", "ppg" or four-digit token covers |
| Matcher.RemoveFromIsKept | app/app.py:133 | scanning from a position that no token straddles drops exactly the characters inside tokens |
| Matcher.LastGameFragment | app/app.py:142 | the text after the last occurrence of the trigger: a suffix of the question that never contains the trigger and directly follows an occurrence of it |
| Matcher.FragmentLacksTrigger | app/app.py:142 | the last-game fragment never contains the trigger |
| Matcher.FragmentFollowsTrigger | app/app.py:142 | when the question contains the trigger, the fragment is immediately preceded by it |
| App.AverageFor | app/app.py:134-138 | every outcome is a 200 answer or a 500 error, and a missing id or the id 0 is "Team not recognised." |
| App.LastGameFor | app/app.py:143-149 | every outcome is a 200 answer or a 500 error, and a missing id or the id 0 is "Team not recognised." |
| App.LastGameReply | app/app.py:140-149 | every outcome is a 200 answer or a 500 error |
| App.Chat | app/app.py:121-162 | status 200 with an answer or 500 with an error; the average branch wins over the last-game branch, which wins over the help text; a missing question gets the help text |
| AppProperties.ResolvedIdHasRow | app/app.py:57-68 | every id the team map yields is the id of some team row |
| AppProperties.NameFound | app/app.py:98-100 | a team id that has a row always has a name |
| AppProperties.ConsistentStoreAlwaysAnswers | app/app.py:126-162 | with both tables present, the team map built from the teams table, and every game naming known teams, every question gets a 200 answer |
| AppProperties.AverageForAnswers | app/app.py:134-138 | when every game names a team row and the id found has a row, the average query answers with status 200 |
| AppProperties.AverageReplyAnswers | app/app.py:128-138 | with a consistent store the average branch always answers with status 200 |
| AppProperties.LastGameForAnswers | app/app.py:143-149 | when every game names a team row and the id found has a row, the last-game query answers with status 200 |
| AppProperties.LastGameReplyAnswers | app/app.py:140-149 | with a consistent store the last-game branch always answers with status 200 |
| AppProperties.AverageWithoutGamesTable | app/app.py:131-132 | an average question without a year, with no games table, is a 500 whatever the team |
| AppProperties.UnknownTeamAverage | app/app.py:134-136 | once the season is known, a fragment that resolves to nothing or to the id 0 is "Team not recognised." with status 200 |
| AppProperties.UnknownTeamLastGame | app/app.py:142-144 | in the last-game branch a fragment that resolves to nothing or to the id 0 is "Team not recognised." |
| AppProperties.AverageAnswerText | app/app.py:137-138 | a known team's average answer names the first team row with its id and reports the rounded season average |
| AppProperties.NoGamesForTeam | app/app.py:145-147 | a known team with no game involving it gets "No recent games found." |
| AppProperties.LastGameAnswerText | app/app.py:145-149 | a known team's latest game is rendered as its date, the home name and score, then the away score and name, both names taken from the teams table |
| AppProperties.EmptySeasonRendered | app/app.py:131-138 | with no year and an empty games table, a known team's answer reads "<name> averaged None PPG in None." |
| Scenarios.WizAliasResolves | app/app.py:65-68 | "  WIZ " resolves through the alias to the Washington Wizards row |
| Scenarios.LakersExampleGetsHelp | app/app.py:151-156 | the help text's own first example gets the help text back |
| Scenarios.WarriorsExampleNotRecognised | app/app.py:140-144 | the help text's second example looks up "for the warriors" and is not recognised |
| Scenarios.WizExampleNotRecognised | app/app.py:140-144 | "Last game for the Wiz" looks up "for the wiz" and is not recognised |
| Scenarios.NoTriggerGetsHelp | app/app.py:151-156 | "asdf" gets the help text with status 200 |
| Scenarios.UnknownTeamIsNotAnError | app/app.py:128-136 | "average points for Atlantis" with a games table is "Team not recognised." with status 200 |
| Scenarios.LakersAverage | app/app.py:74-84 | a home game of 110 and an away game of 120 average "115.0" |
| Scenarios.AverageRoundsToTenths | app/app.py:81 | 302 points over 3 games print as "100.7" |
| Text.Lower | app/app.py:67 | ASCII `str.lower()`: same length, each character lower-cased |
| Text.LStrip | app/app.py:67 | `lstrip()` removes exactly the leading whitespace |
| Text.RStrip | app/app.py:67 | `rstrip()` removes exactly the trailing whitespace |
| Text.StripIgnoresPadding | app/app.py:67 | `strip()` of a string padded with whitespace equals `strip()` of the string |
| Text.FindFrom | app/app.py:141-142 | the position found is an occurrence of the phrase at or after the start |
| Text.FindFromFirst | app/app.py:141-142 | no occurrence lies between the start and the position found, and none lies after the start when nothing is found |
| Text.LastPieceSplit | app/app.py:142 | `split(t)[-1]` starts where no occurrence of t starts at or after it, and, when t occurs, right after an occurrence of t |
| Text.LastWord | app/app.py:55 | `split()[-1]`: the non-empty, whitespace-free suffix of the right-stripped name that is preceded by whitespace or starts it |
| Text.ReplaceSpaceRuns | app/run_etl.py:90 | `re.sub(r"\s+", "_")` leaves no whitespace and changes nothing in whitespace-free text |
| Text.RStripChar | app/run_etl.py:94 | `rstrip("%")` removes exactly the trailing '%' characters |
| Text.NatToString | app/app.py:149 | `str(n)`: decimal digits whose value is n, ending in the units digit, with a leading zero only for 0 |
| Text.IntToStringRoundTrip | app/run_etl.py:20 | `int(str(y)) == y` for every integer |
| Text.LessTransitive | app/app.py:92 | SQLite's text ordering for `ORDER BY date` and for the GAME_ID sort is transitive |
| Text.LessTotal | app/run_etl.py:49 | any two distinct GAME_IDs are ordered one way or the other |
| Etl.SeasonEndOfPrintedYear | app/run_etl.py:20 | a year passed as its decimal text is read back as that year |
| Etl.SeasonLabelDigits | app/run_etl.py:21 | the label is `y-1`, a dash, then the tens and units digits of y; services/etl/run_etl.py:14 is the same |
| Etl.SeasonLabel2024 | app/run_etl.py:21 | 2024 gives "2023-24" |
| Etl.SeasonLabel2000 | services/etl/run_etl.py:14 | 2000 gives "1999-00" |
| Etl.GroupByCorrect | app/run_etl.py:49 | groups come out in strictly ascending GAME_ID order, none empty, each holding exactly the rows with its key in frame order |
| Etl.GroupsOfRaw | services/etl/run_etl.py:44 | every group is the rows of its key and every row's key has a group |
| Etl.PairGroup | app/run_etl.py:50-63 | a record iff the group has exactly two rows; the first row is home iff its MATCHUP contains "vs."; home and away are the two distinct rows; date from home, ids and scores from each side, season as given |
| Etl.RecordsFromGroups | app/run_etl.py:48-63 | every record is the pairing of one group |
| Etl.GroupsGiveRecords | app/run_etl.py:48-63 | every two-row group's pairing is among the records |
| Etl.RecordsAscending | app/run_etl.py:48-51 | records come out in ascending GAME_ID order, so no GAME_ID has two records |
| Etl.PairGroups | app/run_etl.py:48-63 | the `records.append` loop computes the pairing of every group in order; services/etl/run_etl.py:43-57 is the same loop |
| Etl.BuildGameRecords | app/run_etl.py:45-64 | the games table is ascending in GAME_ID; each record stands for a GAME_ID with exactly two raw rows, home and away chosen by the "vs." rule; every GAME_ID with exactly two rows has a record |
| Etl.RecordsMatchRows | services/etl/run_etl.py:43-57 | each record's GAME_ID has exactly two raw rows, and the record is their pairing by the "vs." rule |
| Etl.RowsGiveRecords | app/run_etl.py:49-51 | every GAME_ID with exactly two raw rows has a record |
| Csv.NormalizeColumnName | app/run_etl.py:87-90 | strip, lower, then whitespace runs to "_": the result has no whitespace and no upper-case letter |
| Csv.NormalizeIdempotent | app/run_etl.py:87-90 | normalising a normalised name changes nothing; services/etl/run_etl.py:73-78 is the same |
| Csv.NormalizeIgnoresPadding | services/etl/run_etl.py:73-78 | surrounding whitespace never changes a normalised name |
| Csv.ColumnNames | app/run_etl.py:78-90 | each column is renamed and then normalised; none keeps whitespace |
| Csv.CleanCell | app/run_etl.py:92-94 | a text cell becomes its text with the trailing '%' characters removed, or missing when nothing is left; missing stays missing |
| Csv.CleanCellIdempotent | app/run_etl.py:94 | cleaning a cleaned cell changes nothing |
| Csv.Cleaned | app/run_etl.py:92-95 | the frame keeps its shape, text columns are cleaned cell by cell, other columns are untouched |
| Csv.CleanedIdempotent | services/etl/run_etl.py:80-83 | running the cleaning loop on its own output changes nothing |
| Csv.CleanTextColumns | app/run_etl.py:92-95 | the column loop produces exactly the cleaned frame; services/etl/run_etl.py:80-83 is the same loop |
| Csv.IsTextColumnAt | app/run_etl.py:93 | `dtype == object` holds iff the column holds some string |
| Csv.KeepComplete | app/run_etl.py:97 | a row is kept iff it has a team and a season |
| Csv.MissingSubset | app/run_etl.py:97 | names exactly the subset columns the frame lacks |
| Csv.DropIncomplete | app/run_etl.py:97 | a missing team or season column raises KeyError; otherwise exactly the rows with both values survive; services/etl/run_etl.py:85 is the same |
| Csv.PrepareCsv | app/run_etl.py:75-99 | no file gives the empty frame; a prepared frame has lower-case whitespace-free column names and every row has a team and a season |
| AppEtl.LoadedStore | app/run_etl.py:102-107 | teams, games and season_leaders replaced; team_stats replaced only by a non-empty CSV frame; every other table unchanged |
| AppEtl.LoadIdempotent | app/run_etl.py:102-107 | loading the same data twice leaves the store that loading it once leaves |
| AppEtl.EmptyCsvKeepsTeamStats | app/run_etl.py:106-107 | with an empty or absent CSV a previous team_stats table survives unchanged |
| AppEtl.LoadedStoreIsConsistent | app/run_etl.py:102-104 | after a load whose games name only loaded teams, the chat handler's consistency condition holds, so it never answers 500 |
| AppEtl.Load | app/run_etl.py:102-107 | the writes leave exactly the loaded store |
| AppEtl.Run | app/run_etl.py:20-107 | a bad season argument or a CSV without team/season stops the run with nothing written; otherwise the store is the loaded store of the paired games and the prepared CSV |
| ServicesEtl.LoadedStore | services/etl/run_etl.py:90-94 | teams and games replaced; team_stats replaced only by a non-empty CSV frame; every other table unchanged, season_leaders included |
| ServicesEtl.LoadIdempotent | services/etl/run_etl.py:90-94 | loading the same data twice leaves the store that loading it once leaves |
| ServicesEtl.SeasonLeadersUntouched | services/etl/run_etl.py:90-94 | this script never writes season_leaders |
| ServicesEtl.LoadedStoreIsConsistent | services/etl/run_etl.py:90-92 | after a load whose games name only loaded teams, the chat handler never answers 500 |
| ServicesEtl.Load | services/etl/run_etl.py:90-94 | the writes leave exactly the loaded store |
| ServicesEtl.Run | services/etl/run_etl.py:13-94 | a bad season argument or a CSV without team/season stops the run with nothing written; otherwise the store is the loaded store of the paired games and the prepared CSV |

## Left out

- Flask routing, the health probes and the `/ui` page (app/app.py:106-115, 168-218) are HTTP plumbing. The request body is modelled as an optional question string. A `question` value that is not a string is not modelled.
- The `json.JSONDecodeError` branch (app/app.py:157-158) is unreachable, because `get_json(silent=True)` never raises.
- Logging, and the SQLite connections and file paths, are left out. A missing database file behaves as a store without tables.
- `TEAM_ID` is built once at import. The handler takes the team map as a parameter, and `Resolver.BuildTeamMap` models how it is built.
- AVG/ROUND floating point: the average is exact integer tenths, rounded half up for the non-negative scores. The string printed for the float is "whole part, dot, tenths digit". Python's use of exponent notation for very large floats is not modelled.
- SQLite returns equal dates in an unspecified order. Queries.LastGame deliberately picks the first such row in table order.
- Unicode: `lower`, whitespace, `\b`, `\w` and `\d` are modelled for ASCII only. `int()` on underscores and non-ASCII digits is not modelled.
- pandas: `read_csv` parsing (including the error for an empty file), `to_numeric` type inference with `errors="ignore"`, dtype details and `reset_index` are not modelled. Cells arrive typed (missing, numeric literal, or string); after cleaning, text cells stay strings. The services script applies `to_numeric` to every column rather than only to object columns; that difference lies inside the unmodelled `to_numeric`.
- Csv.CleanCell: a numeric literal inside a text column is cleaned as its text, because a column read as text holds only strings.
- The NBA API calls (`static_teams.get_teams`, `LeagueGameFinder`, `LeagueLeaders`) are external. Their results are parameters: the team rows, and functions from the season string to the game rows and to the leaders table. The `teams_df` column renames are part of building `Team` values.
- `int(...)` of TEAM_ID and PTS: points arrive as natural numbers, so a missing PTS is not modelled.
- Writing an empty games frame with `to_sql` is modelled as writing an empty games table.
- The closing `print` of both scripts is I/O. The runs return its counts instead.
- `etl/run_etl.py` (a Kaggle download through `subprocess` and a dtype-dependent pandas transform) and both Discord bots (async clients and a health-server thread) are not part of this model.
- Csv.KeepComplete, Csv.DropIncomplete: they state which rows survive but not that the survivors keep their original order, although the recursive definition does keep it.
- App.AverageFor, App.LastGameFor, App.LastGameReply: their own ensures state the 200/500 shape and the "Team not recognised." case; the answers for a known team are stated by AppProperties.AverageAnswerText, AppProperties.LastGameAnswerText and AppProperties.NoGamesForTeam, and the unrecognised fragment of the last-game branch by AppProperties.UnknownTeamLastGame.
