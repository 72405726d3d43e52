/**
 * The local relational snapshot the ETL job writes and the chat service reads:
 * a store maps each table name to its contents; a name with no entry is a table
 * that does not exist (the ETL job has not run yet).
 */
module Store {
  import opened Wrappers

  /** A row of `teams` (columns team_id, team_name, abbrev, city, conference, division). */
  datatype Team = Team(id: int, name: string, abbrev: string, city: string, conference: string, division: string)

  /** A row of `games`: one completed game, dates as 'YYYY-MM-DD' text, season by its end year. */
  datatype Game = Game(gameId: string, date: string, homeId: int, awayId: int,
                       homeScore: nat, awayScore: nat, season: int)

  /** A cell of a table read from CSV or returned by the leaders endpoint. */
  datatype Cell = Missing | Number(literal: string) | Str(s: string)

  datatype Table =
    | TeamsTable(teams: seq<Team>)
    | GamesTable(games: seq<Game>)
    | RowsTable(header: seq<string>, rows: seq<seq<Cell>>)

  type Tables = map<string, Table>

  /** The exceptions the modelled code can raise. */
  datatype Fault =
    | NoSuchTable(table: string)     // sqlite3.OperationalError
    | NoneNotSubscriptable           // TypeError: fetchone() returned None
    | IndexOutOfRange                // IndexError: list index out of range
    | InvalidLiteral(text: string)   // ValueError: invalid literal for int()
    | MissingColumns(names: seq<string>)  // KeyError from dropna(subset=...)

  /** The `teams` table, if it exists. */
  function TeamsOf(store: Tables): (r: Option<seq<Team>>)
    ensures r.Some? <==> "teams" in store && store["teams"].TeamsTable?
  {
    if "teams" in store && store["teams"].TeamsTable? then Some(store["teams"].teams) else None
  }

  /** The `games` table, if it exists. */
  function GamesOf(store: Tables): (r: Option<seq<Game>>)
    ensures r.Some? <==> "games" in store && store["games"].GamesTable?
  {
    if "games" in store && store["games"].GamesTable? then Some(store["games"].games) else None
  }

  /** A `teams` table that was written is read back with exactly the rows written. */
  lemma TeamsReadBack(store: Tables, rows: seq<Team>)
    ensures TeamsOf(store["teams" := TeamsTable(rows)]) == Some(rows)
  {
  }

  /** A `games` table that was written is read back with exactly the rows written. */
  lemma GamesReadBack(store: Tables, rows: seq<Game>)
    ensures GamesOf(store["games" := GamesTable(rows)]) == Some(rows)
  {
  }

  /** Writing any other table changes neither what `teams` nor what `games` reads. */
  lemma OtherWriteKeepsReads(store: Tables, name: string, t: Table)
    requires name != "teams" && name != "games"
    ensures TeamsOf(store[name := t]) == TeamsOf(store)
    ensures GamesOf(store[name := t]) == GamesOf(store)
  {
  }

  /** The SQLite file: a set of named tables, each of which a write replaces wholesale. */
  class Database {
    var tables: Tables

    constructor (initial: Tables)
      ensures tables == initial
    {
      tables := initial;
    }

    /** `DataFrame.to_sql(name, conn, if_exists="replace")`: drop the table if present and write `t`. */
    method Replace(name: string, t: Table)
      modifies this
      ensures tables == old(tables)[name := t]
    {
      tables := tables[name := t];
    }
  }
}
