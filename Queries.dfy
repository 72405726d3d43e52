/**
 * The read-only SQL lookups of the chat service as functions over the stored
 * tables: the average-points query (a UNION ALL of home and away scores, then
 * ROUND(AVG(p), 1)), the most recent game of a team, MAX(season) and the team
 * name lookup.
 */
module Queries {
  import opened Wrappers
  import opened Text
  import opened Store

  /** The team played in the game, at home or away. */
  predicate Involves(g: Game, tid: int) {
    g.homeId == tid || g.awayId == tid
  }

  /** `SELECT home_score FROM games WHERE season=? AND home_id=?`, in table order. */
  function HomeScores(games: seq<Game>, tid: int, season: int): seq<nat>
    decreases |games|
  {
    if |games| == 0 then []
    else
      var g := games[|games| - 1];
      HomeScores(games[..|games| - 1], tid, season) + (if g.season == season && g.homeId == tid then [g.homeScore] else [])
  }

  /** `SELECT away_score FROM games WHERE season=? AND away_id=?`, in table order. */
  function AwayScores(games: seq<Game>, tid: int, season: int): seq<nat>
    decreases |games|
  {
    if |games| == 0 then []
    else
      var g := games[|games| - 1];
      AwayScores(games[..|games| - 1], tid, season) + (if g.season == season && g.awayId == tid then [g.awayScore] else [])
  }

  function Sum(xs: seq<nat>): nat
    decreases |xs|
  {
    if |xs| == 0 then 0 else Sum(xs[..|xs| - 1]) + xs[|xs| - 1]
  }

  lemma {:induction false} SumAppend(xs: seq<nat>, ys: seq<nat>)
    ensures Sum(xs + ys) == Sum(xs) + Sum(ys)
    decreases |ys|
  {
    if |ys| == 0 {
      assert xs + ys == xs;
    } else {
      assert (xs + ys)[..|xs + ys| - 1] == xs + ys[..|ys| - 1];
      SumAppend(xs, ys[..|ys| - 1]);
    }
  }

  /** The points the team scored in the season, counted game by game: home score, away score, or both. */
  function SeasonTotal(games: seq<Game>, tid: int, season: int): nat
    decreases |games|
  {
    if |games| == 0 then 0
    else
      var g := games[|games| - 1];
      SeasonTotal(games[..|games| - 1], tid, season)
        + (if g.season == season && g.homeId == tid then g.homeScore else 0)
        + (if g.season == season && g.awayId == tid then g.awayScore else 0)
  }

  /** How many scores of the team the season holds, game by game. */
  function Appearances(games: seq<Game>, tid: int, season: int): nat
    decreases |games|
  {
    if |games| == 0 then 0
    else
      var g := games[|games| - 1];
      Appearances(games[..|games| - 1], tid, season)
        + (if g.season == season && g.homeId == tid then 1 else 0)
        + (if g.season == season && g.awayId == tid then 1 else 0)
  }

  /** The UNION ALL holds exactly the scores counted game by game. */
  lemma {:induction false} UnionAllMatchesPerGame(games: seq<Game>, tid: int, season: int)
    ensures Sum(HomeScores(games, tid, season)) + Sum(AwayScores(games, tid, season)) == SeasonTotal(games, tid, season)
    ensures |HomeScores(games, tid, season)| + |AwayScores(games, tid, season)| == Appearances(games, tid, season)
    decreases |games|
  {
    if |games| > 0 {
      var p := games[..|games| - 1];
      var g := games[|games| - 1];
      UnionAllMatchesPerGame(p, tid, season);
      SumAppend(HomeScores(p, tid, season), if g.season == season && g.homeId == tid then [g.homeScore] else []);
      SumAppend(AwayScores(p, tid, season), if g.season == season && g.awayId == tid then [g.awayScore] else []);
    }
  }

  /** No score of the team in the season exactly when no game of that season involves it. */
  lemma {:induction false} NoAppearances(games: seq<Game>, tid: int, season: int)
    ensures Appearances(games, tid, season) == 0 <==>
              forall i :: 0 <= i < |games| ==> !(games[i].season == season && Involves(games[i], tid))
    decreases |games|
  {
    if |games| > 0 {
      var p := games[..|games| - 1];
      NoAppearances(p, tid, season);
      assert forall i :: 0 <= i < |p| ==> p[i] == games[i];
    }
  }

  /**
   * `ROUND(x, 1)` of the mean total / count, as an integer number of tenths:
   * the nearest tenth, a half rounded away from zero (the mean is never negative).
   */
  function RoundTenths(total: nat, count: nat): (t: nat)
    requires count > 0
    ensures (2 * t - 1) * count <= 20 * total < (2 * t + 1) * count
  {
    var t := (20 * total + count) / (2 * count);
    DivBounds(20 * total + count, 2 * count, t);
    t
  }

  lemma DivBounds(a: nat, b: nat, q: nat)
    requires b > 0 && q == a / b
    ensures b * q <= a < b * q + b
  {
  }

  /**
   * `_avg_pts(tid, season)`: the mean of the team's season scores in tenths, or
   * None (SQL NULL) when the team has no game in the season.
   */
  function AvgTenths(games: seq<Game>, tid: int, season: int): (r: Option<nat>)
    ensures r.None? <==> forall i :: 0 <= i < |games| ==> !(games[i].season == season && Involves(games[i], tid))
    ensures r.Some? ==>
              var n := Appearances(games, tid, season);
              var total := SeasonTotal(games, tid, season);
              (2 * r.value - 1) * n <= 20 * total < (2 * r.value + 1) * n
  {
    var pts := HomeScores(games, tid, season) + AwayScores(games, tid, season);
    UnionAllMatchesPerGame(games, tid, season);
    NoAppearances(games, tid, season);
    SumAppend(HomeScores(games, tid, season), AwayScores(games, tid, season));
    if |pts| == 0 then None else Some(RoundTenths(Sum(pts), |pts|))
  }

  /** `SELECT MAX(season) FROM games`: None (NULL) for an empty table. */
  function MaxSeason(games: seq<Game>): (r: Option<int>)
    ensures r.None? <==> |games| == 0
    ensures r.Some? ==> (exists i :: 0 <= i < |games| && games[i].season == r.value) &&
                        forall i :: 0 <= i < |games| ==> games[i].season <= r.value
    decreases |games|
  {
    if |games| == 0 then None
    else
      var prev := MaxSeason(games[..|games| - 1]);
      var s := games[|games| - 1].season;
      if prev.None? || prev.value < s then Some(s) else prev
  }

  /**
   * `_last_game(tid)`: `ORDER BY date DESC LIMIT 1` over the games involving
   * the team, all seasons. Dates compare as text. Among games on the latest
   * date the earliest row in table order is taken.
   */
  function LastGame(games: seq<Game>, tid: int): (r: Option<Game>)
    ensures r.None? <==> forall i :: 0 <= i < |games| ==> !Involves(games[i], tid)
    ensures r.Some? ==>
              exists i :: 0 <= i < |games| && games[i] == r.value && Involves(r.value, tid) &&
                (forall j :: 0 <= j < |games| && Involves(games[j], tid) ==> !Less(r.value.date, games[j].date)) &&
                (forall j :: 0 <= j < i && Involves(games[j], tid) ==> Less(games[j].date, r.value.date))
    decreases |games|
  {
    if |games| == 0 then None
    else
      var n := |games|;
      var p := games[..n - 1];
      var prev := LastGame(p, tid);
      var g := games[n - 1];
      assert forall i :: 0 <= i < n - 1 ==> p[i] == games[i];
      if Involves(g, tid) && (prev.None? || Less(prev.value.date, g.date)) then
        LessIrreflexive(g.date);
        LatestStep(p, tid, prev, g);
        Some(g)
      else
        prev
  }

  /** A game dated strictly after the latest so far is later than every earlier game of the team. */
  lemma LatestStep(p: seq<Game>, tid: int, prev: Option<Game>, g: Game)
    requires prev.None? ==> forall i :: 0 <= i < |p| ==> !Involves(p[i], tid)
    requires prev.Some? ==> Less(prev.value.date, g.date)
    requires prev.Some? ==> forall j :: 0 <= j < |p| && Involves(p[j], tid) ==> !Less(prev.value.date, p[j].date)
    ensures forall j :: 0 <= j < |p| && Involves(p[j], tid) ==> Less(p[j].date, g.date) && !Less(g.date, p[j].date)
  {
    if prev.Some? {
      var d := prev.value.date;
      forall j | 0 <= j < |p| && Involves(p[j], tid)
        ensures Less(p[j].date, g.date) && !Less(g.date, p[j].date)
      {
        if p[j].date != d {
          LessTotal(p[j].date, d);
          LessTransitive(p[j].date, d, g.date);
        }
        LessAsymmetric(p[j].date, g.date);
      }
    }
  }

  /** The first row of `teams` with the id. */
  function FirstWithId(teams: seq<Team>, tid: int): (r: Option<Team>)
    ensures r.None? <==> forall i :: 0 <= i < |teams| ==> teams[i].id != tid
    ensures r.Some? ==> exists i :: 0 <= i < |teams| && teams[i] == r.value && r.value.id == tid &&
                                    forall j :: 0 <= j < i ==> teams[j].id != tid
    decreases |teams|
  {
    if |teams| == 0 then None
    else if teams[0].id == tid then Some(teams[0])
    else
      var r := FirstWithId(teams[1..], tid);
      assert forall i :: 0 <= i < |teams| - 1 ==> teams[1..][i] == teams[i + 1];
      r
  }

  /**
   * `_team_name(tid)`: `SELECT team_name FROM teams WHERE team_id=?` then
   * `fetchone()[0]`, which raises when the table is missing or has no such row.
   */
  function TeamName(store: Tables, tid: int): (r: Result<string, Fault>)
    ensures TeamsOf(store).None? ==> r == Failure(NoSuchTable("teams"))
    ensures TeamsOf(store).Some? ==>
              var teams := TeamsOf(store).value;
              (r.Failure? <==> forall i :: 0 <= i < |teams| ==> teams[i].id != tid) &&
              (r.Failure? ==> r.error == NoneNotSubscriptable) &&
              (r.Success? ==> exists i :: 0 <= i < |teams| && teams[i].id == tid && teams[i].name == r.value &&
                                          forall j :: 0 <= j < i ==> teams[j].id != tid)
  {
    match TeamsOf(store)
    case None => Failure(NoSuchTable("teams"))
    case Some(teams) =>
      match FirstWithId(teams, tid)
      case None => Failure(NoneNotSubscriptable)
      case Some(t) => Success(t.name)
  }
}
