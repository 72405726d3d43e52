/**
 * services/etl/run_etl.py end to end: the same season, pairing and CSV steps
 * as the app's script, but the load writes no season_leaders table.
 */
module ServicesEtl {
  import opened Wrappers
  import opened Store
  import opened Resolver
  import opened Etl
  import opened Csv
  import opened AppProperties

  /**
   * The store after the load step: teams and games replaced wholesale,
   * team_stats replaced only by a non-empty CSV frame, every other table,
   * season_leaders included, as it was.
   */
  function LoadedStore(before: Tables, teams: seq<Team>, games: seq<Game>, csv: Frame): (r: Tables)
    ensures TeamsOf(r) == Some(teams) && GamesOf(r) == Some(games)
    ensures !IsEmpty(csv) ==> "team_stats" in r && r["team_stats"] == RowsTable(csv.columns, csv.rows)
    ensures forall k :: k != "teams" && k != "games" && (k != "team_stats" || IsEmpty(csv)) ==>
              (k in r <==> k in before) && (k in before ==> r[k] == before[k])
    ensures r.Keys == before.Keys + {"teams", "games"} + (if IsEmpty(csv) then {} else {"team_stats"})
  {
    WriteTeamStats(before["teams" := TeamsTable(teams)]["games" := GamesTable(games)], csv)
  }

  /** Loading the same data twice leaves the store that loading it once leaves. */
  lemma LoadIdempotent(before: Tables, teams: seq<Team>, games: seq<Game>, csv: Frame)
    ensures var once := LoadedStore(before, teams, games, csv);
      LoadedStore(once, teams, games, csv) == once
  {
    var once := LoadedStore(before, teams, games, csv);
    var twice := LoadedStore(once, teams, games, csv);
    assert twice.Keys == once.Keys;
    forall k | k in once ensures twice[k] == once[k] {
    }
  }

  /** The services script never writes season_leaders: whatever was there stays. */
  lemma SeasonLeadersUntouched(before: Tables, teams: seq<Team>, games: seq<Game>, csv: Frame)
    ensures var r := LoadedStore(before, teams, games, csv);
      ("season_leaders" in r <==> "season_leaders" in before) &&
      ("season_leaders" in before ==> r["season_leaders"] == before["season_leaders"])
  {
  }

  /** A load whose games name only loaded teams leaves a store on which the chat handler never answers 500. */
  lemma LoadedStoreIsConsistent(before: Tables, teams: seq<Team>, games: seq<Game>, csv: Frame)
    requires AllNamed(teams)
    requires forall i :: 0 <= i < |games| ==> HasRow(teams, games[i].homeId) && HasRow(teams, games[i].awayId)
    ensures Consistent(TeamMapOf(teams), LoadedStore(before, teams, games, csv))
  {
  }

  /** Step 4: the `to_sql` writes, team_stats only for a non-empty frame. */
  method Load(db: Database, teams: seq<Team>, games: seq<Game>, csv: Frame)
    modifies db
    ensures db.tables == LoadedStore(old(db.tables), teams, games, csv)
  {
    db.Replace("teams", TeamsTable(teams));
    db.Replace("games", GamesTable(games));
    if !IsEmpty(csv) {
      db.Replace("team_stats", RowsTable(csv.columns, csv.rows));
    }
  }

  /** What the closing message reports: team and game counts, and the CSV row count when one was written. */
  datatype Summary = Summary(teams: nat, games: nat, csvRows: Option<nat>)

  /**
   * The script. `fetchGames` stands for the NBA API call, made with the season
   * string. A bad season argument or a CSV without a team or season column
   * stops the script before anything is written.
   */
  method Run(db: Database, argv: seq<string>, teams: seq<Team>,
             fetchGames: string -> seq<RawRow>, csv: Option<Frame>)
    returns (outcome: Result<Summary, Fault>)
    requires csv.Some? ==> Rectangular(csv.value)
    modifies db
    ensures SeasonEnd(argv).Failure? ==> outcome == Failure(SeasonEnd(argv).error)
    ensures outcome.Failure? <==> SeasonEnd(argv).Failure? || PreparedCsv(csv).Failure?
    ensures outcome.Failure? ==> db.tables == old(db.tables)
    ensures outcome.Success? ==>
              var y := SeasonEnd(argv).value;
              var games := PairedRecords(GroupBy(fetchGames(SeasonLabel(y))), y);
              var frame := PreparedCsv(csv).value;
              db.tables == LoadedStore(old(db.tables), teams, games, frame) &&
              outcome.value == Summary(|teams|, |games|, if IsEmpty(frame) then None else Some(|frame.rows|))
  {
    var season := SeasonEnd(argv);
    if season.Failure? {
      return Failure(season.error);
    }
    var y := season.value;
    var games := BuildGameRecords(fetchGames(SeasonLabel(y)), y);
    var prepared := PrepareCsv(csv);
    if prepared.Failure? {
      return Failure(prepared.error);
    }
    var frame := prepared.value;
    Load(db, teams, games, frame);
    outcome := Success(Summary(|teams|, |games|, if IsEmpty(frame) then None else Some(|frame.rows|)));
  }
}
