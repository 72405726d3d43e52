/**
 * app/run_etl.py end to end: read the season from the command line, pair the
 * API's game rows, prepare the optional CSV, and replace the tables of the
 * SQLite file the app reads.
 */
module AppEtl {
  import opened Wrappers
  import opened Store
  import opened Resolver
  import opened Etl
  import opened Csv
  import opened AppProperties

  /**
   * The store after the load step: teams, games and season_leaders replaced
   * wholesale, team_stats replaced only by a non-empty CSV frame, every other
   * table as it was.
   */
  function LoadedStore(before: Tables, teams: seq<Team>, games: seq<Game>, leaders: Table, csv: Frame): (r: Tables)
    ensures TeamsOf(r) == Some(teams) && GamesOf(r) == Some(games)
    ensures "season_leaders" in r && r["season_leaders"] == leaders
    ensures !IsEmpty(csv) ==> "team_stats" in r && r["team_stats"] == RowsTable(csv.columns, csv.rows)
    ensures forall k :: k != "teams" && k != "games" && k != "season_leaders" && (k != "team_stats" || IsEmpty(csv)) ==>
              (k in r <==> k in before) && (k in before ==> r[k] == before[k])
    ensures r.Keys == before.Keys + {"teams", "games", "season_leaders"} + (if IsEmpty(csv) then {} else {"team_stats"})
  {
    WriteTeamStats(before["teams" := TeamsTable(teams)]["games" := GamesTable(games)]["season_leaders" := leaders], csv)
  }

  /** Loading the same data twice leaves the store that loading it once leaves. */
  lemma LoadIdempotent(before: Tables, teams: seq<Team>, games: seq<Game>, leaders: Table, csv: Frame)
    ensures var once := LoadedStore(before, teams, games, leaders, csv);
      LoadedStore(once, teams, games, leaders, csv) == once
  {
    var once := LoadedStore(before, teams, games, leaders, csv);
    var twice := LoadedStore(once, teams, games, leaders, csv);
    assert twice.Keys == once.Keys;
    forall k | k in once ensures twice[k] == once[k] {
    }
  }

  /** An empty or absent CSV leaves a previous team_stats table exactly as it was. */
  lemma EmptyCsvKeepsTeamStats(before: Tables, teams: seq<Team>, games: seq<Game>, leaders: Table, csv: Frame)
    requires IsEmpty(csv)
    ensures var r := LoadedStore(before, teams, games, leaders, csv);
      ("team_stats" in r <==> "team_stats" in before) && ("team_stats" in before ==> r["team_stats"] == before["team_stats"])
  {
  }

  /**
   * A load whose games name only loaded teams, all with a word in their names,
   * leaves a store on which the chat handler never answers 500.
   */
  lemma LoadedStoreIsConsistent(before: Tables, teams: seq<Team>, games: seq<Game>, leaders: Table, csv: Frame)
    requires AllNamed(teams)
    requires forall i :: 0 <= i < |games| ==> HasRow(teams, games[i].homeId) && HasRow(teams, games[i].awayId)
    ensures Consistent(TeamMapOf(teams), LoadedStore(before, teams, games, leaders, csv))
  {
  }

  /** Step 5: the four `to_sql` writes, team_stats only for a non-empty frame. */
  method Load(db: Database, teams: seq<Team>, games: seq<Game>, leaders: Table, csv: Frame)
    modifies db
    ensures db.tables == LoadedStore(old(db.tables), teams, games, leaders, csv)
  {
    db.Replace("teams", TeamsTable(teams));
    db.Replace("games", GamesTable(games));
    db.Replace("season_leaders", leaders);
    if !IsEmpty(csv) {
      db.Replace("team_stats", RowsTable(csv.columns, csv.rows));
    }
  }

  /** What the closing message reports: team and game counts, and whether team_stats was written. */
  datatype Summary = Summary(teams: nat, games: nat, teamStats: bool)

  /**
   * The script. `fetchGames` and `fetchLeaders` stand for the NBA API calls,
   * made with the season string. A bad season argument or a CSV without a team
   * or season column stops the script before anything is written.
   */
  method Run(db: Database, argv: seq<string>, teams: seq<Team>,
             fetchGames: string -> seq<RawRow>, fetchLeaders: string -> Table, csv: Option<Frame>)
    returns (outcome: Result<Summary, Fault>)
    requires csv.Some? ==> Rectangular(csv.value)
    modifies db
    ensures SeasonEnd(argv).Failure? ==> outcome == Failure(SeasonEnd(argv).error)
    ensures outcome.Failure? <==> SeasonEnd(argv).Failure? || PreparedCsv(csv).Failure?
    ensures outcome.Failure? ==> db.tables == old(db.tables)
    ensures outcome.Success? ==>
              var y := SeasonEnd(argv).value;
              var seasonStr := SeasonLabel(y);
              var games := PairedRecords(GroupBy(fetchGames(seasonStr)), y);
              db.tables == LoadedStore(old(db.tables), teams, games, fetchLeaders(seasonStr), PreparedCsv(csv).value) &&
              outcome.value == Summary(|teams|, |games|, !IsEmpty(PreparedCsv(csv).value))
  {
    var season := SeasonEnd(argv);
    if season.Failure? {
      return Failure(season.error);
    }
    var y := season.value;
    var seasonStr := SeasonLabel(y);
    var games := BuildGameRecords(fetchGames(seasonStr), y);
    var leaders := fetchLeaders(seasonStr);
    var prepared := PrepareCsv(csv);
    if prepared.Failure? {
      return Failure(prepared.error);
    }
    Load(db, teams, games, leaders, prepared.value);
    outcome := Success(Summary(|teams|, |games|, !IsEmpty(prepared.value)));
  }
}
