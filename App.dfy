/**
 * The /chat handler: classify the lower-cased question, extract the season and
 * the team fragment, resolve the team, run the query and render the answer.
 * Faults raised inside the handler become a 500 response with the message.
 */
module App {
  import opened Wrappers
  import opened Text
  import opened Store
  import opened Resolver
  import opened Queries
  import opened Matcher

  datatype Body = Answer(text: string) | Error(message: string)

  /** An HTTP status code and the JSON body `{"answer": ...}` or `{"error": ...}`. */
  datatype Response = Response(status: int, body: Body)

  const HelpText: string := "Try e.g. 'What did the Lakers average in 2024?' or 'Last game for the Warriors'"
  const NotRecognised: string := "Team not recognised."
  const NoRecentGames: string := "No recent games found."

  /** `str(exc)` for the faults the handler can raise. */
  function FaultMessage(f: Fault): string {
    match f
    case NoSuchTable(t) => "no such table: " + t
    case NoneNotSubscriptable => "'NoneType' object is not subscriptable"
    case IndexOutOfRange => "list index out of range"
    case InvalidLiteral(text) => "invalid literal for int() with base 10: '" + text + "'"
    case MissingColumns(_) => "missing columns"
  }

  /** The `except Exception` arm: 500 with "Server error: <message>". */
  function ServerError(f: Fault): (r: Response)
    ensures r.status == 500 && r.body.Error?
    ensures r.body.message == "Server error: " + FaultMessage(f)
  {
    Response(500, Error("Server error: " + FaultMessage(f)))
  }

  /** A well-formed response: 200 carries an answer, 500 an error. */
  predicate WellFormed(r: Response) {
    (r.status == 200 && r.body.Answer?) || (r.status == 500 && r.body.Error?)
  }

  function Ok(text: string): (r: Response)
    ensures WellFormed(r) && r.status == 200 && r.body.text == text
  {
    Response(200, Answer(text))
  }

  /** `if not tid`: a missing id and the id 0 both count as not recognised. */
  predicate Falsy(tid: Option<int>) {
    tid.None? || tid.value == 0
  }

  /** `str(float)` of a non-negative number of tenths, e.g. 1150 as "115.0". */
  function TenthsToString(t: nat): string {
    NatToString(t / 10) + "." + [DigitChar(t % 10)]
  }

  /** An f-string field that may be SQL NULL, which Python prints as "None". */
  function AvgToString(avg: Option<nat>): string {
    match avg
    case None => "None"
    case Some(t) => TenthsToString(t)
  }

  function YearToString(year: Option<int>): string {
    match year
    case None => "None"
    case Some(y) => IntToString(y)
  }

  /** The season for the average branch: the question's year, else MAX(season) of `games`. */
  function SeasonFor(store: Tables, q: string): (r: Result<Option<int>, Fault>)
    ensures FindYear(q).Some? ==> r == Success(FindYear(q))
    ensures FindYear(q).None? && GamesOf(store).None? ==> r == Failure(NoSuchTable("games"))
    ensures FindYear(q).None? && GamesOf(store).Some? ==> r == Success(MaxSeason(GamesOf(store).value))
  {
    match FindYear(q)
    case Some(y) => Success(Some(y))
    case None =>
      match GamesOf(store)
      case None => Failure(NoSuchTable("games"))
      case Some(games) => Success(MaxSeason(games))
  }

  /** The average answer: "<name> averaged <avg> PPG in <year>.". */
  function AverageText(name: string, avg: Option<nat>, year: Option<int>): string {
    name + " averaged " + AvgToString(avg) + " PPG in " + YearToString(year) + "."
  }

  /** The last-game answer: a basketball, the date, then home and away with their scores. */
  function LastGameText(g: Game, home: string, away: string): string {
    "\U{1F3C0} " + g.date + ": " + home + " " + NatToString(g.homeScore) + " \U{2013} " +
    NatToString(g.awayScore) + " " + away
  }

  /** The average branch once the season and the team lookup are known. */
  function AverageFor(store: Tables, year: Option<int>, tid: Option<int>): (r: Response)
    ensures WellFormed(r)
    ensures Falsy(tid) ==> r == Ok(NotRecognised)
  {
    if Falsy(tid) then Ok(NotRecognised)
    else
      match GamesOf(store)
      case None => ServerError(NoSuchTable("games"))
      case Some(games) =>
        var avg := if year.Some? then AvgTenths(games, tid.value, year.value) else None;
        match TeamName(store, tid.value)
        case Failure(f) => ServerError(f)
        case Success(name) => Ok(AverageText(name, avg, year))
  }

  /**
   * The average-PPG branch: the season is settled before the team, so a
   * missing games table is a server error even for an unknown team.
   */
  function AverageReply(teamMap: map<string, int>, store: Tables, q: string): (r: Response)
    ensures WellFormed(r)
    ensures SeasonFor(store, q).Failure? ==> r == ServerError(SeasonFor(store, q).error)
    ensures SeasonFor(store, q).Success? ==>
              r == AverageFor(store, SeasonFor(store, q).value, ResolveTeam(teamMap, TeamFragment(q)))
  {
    match SeasonFor(store, q)
    case Failure(f) => ServerError(f)
    case Success(year) => AverageFor(store, year, ResolveTeam(teamMap, TeamFragment(q)))
  }

  /** The last-game branch once the team lookup is known: home name first, then away. */
  function LastGameFor(store: Tables, tid: Option<int>): (r: Response)
    ensures WellFormed(r)
    ensures Falsy(tid) ==> r == Ok(NotRecognised)
  {
    if Falsy(tid) then Ok(NotRecognised)
    else
      match GamesOf(store)
      case None => ServerError(NoSuchTable("games"))
      case Some(games) =>
        match LastGame(games, tid.value)
        case None => Ok(NoRecentGames)
        case Some(g) =>
          match TeamName(store, g.homeId)
          case Failure(f) => ServerError(f)
          case Success(home) =>
            match TeamName(store, g.awayId)
            case Failure(f) => ServerError(f)
            case Success(away) => Ok(LastGameText(g, home, away))
  }

  /** The last-game branch for the trigger that matched: the team is looked up in the text after it. */
  function LastGameReply(teamMap: map<string, int>, store: Tables, q: string, trigger: string): (r: Response)
    requires |trigger| > 0
    ensures WellFormed(r)
  {
    LastGameFor(store, ResolveTeam(teamMap, LastGameFragment(q, trigger)))
  }

  /** The question as the handler sees it: a missing, null or empty field becomes "", then lower-cased. */
  function QuestionText(question: Option<string>): string {
    Lower(if question.Some? then question.value else "")
  }

  /**
   * `chat()`: the average test wins over the last-game phrases, which win over
   * the help text; every outcome is 200 except a fault, which is 500.
   */
  function Chat(teamMap: map<string, int>, store: Tables, question: Option<string>): (r: Response)
    ensures WellFormed(r)
    ensures var q := QuestionText(question);
      AverageTriggered(q) ==> r == AverageReply(teamMap, store, q)
    ensures var q := QuestionText(question);
      !AverageTriggered(q) ==>
        forall j :: FirstTrigger(q, j) ==> r == LastGameReply(teamMap, store, q, LastGameTriggers[j])
    ensures var q := QuestionText(question);
      !AverageTriggered(q) && (forall j :: 0 <= j < 3 ==> !Contains(q, LastGameTriggers[j])) ==> r == Ok(HelpText)
    ensures question.None? ==> r == Ok(HelpText)
  {
    var q := QuestionText(question);
    assert question.None? ==> q == [];
    match Classify(q)
    case AveragePoints => AverageReply(teamMap, store, q)
    case LastGameOf(trigger) =>
      assert forall j :: FirstTrigger(q, j) ==> trigger == LastGameTriggers[j] by {
        forall j | FirstTrigger(q, j) ensures trigger == LastGameTriggers[j] {
          var j' :| FirstTrigger(q, j') && trigger == LastGameTriggers[j'];
          FirstTriggerUnique(q, j, j');
        }
      }
      LastGameReply(teamMap, store, q, trigger)
    case Unknown => Ok(HelpText)
  }
}

module AppProperties {
  import opened Wrappers
  import opened Text
  import opened Store
  import opened Resolver
  import opened Queries
  import opened Matcher
  import opened App

  predicate HasRow(teams: seq<Team>, tid: int) {
    exists i :: 0 <= i < |teams| && teams[i].id == tid
  }

  /**
   * The state the app is in after a successful ETL run: both tables exist, the
   * team map was built from the teams table, and every game names known teams.
   */
  predicate Consistent(teamMap: map<string, int>, store: Tables) {
    TeamsOf(store).Some? && GamesOf(store).Some? &&
    AllNamed(TeamsOf(store).value) && teamMap == TeamMapOf(TeamsOf(store).value) && GamesHaveTeams(store)
  }

  /** Every id the team map yields is the id of some team row. */
  lemma ResolvedIdHasRow(rows: seq<Team>, raw: string)
    requires AllNamed(rows)
    ensures ResolveTeam(TeamMapOf(rows), raw).Some? ==> HasRow(rows, ResolveTeam(TeamMapOf(rows), raw).value)
  {
    TeamMapLastWins(rows, LookupKey(raw));
  }

  lemma NameFound(store: Tables, tid: int)
    requires TeamsOf(store).Some? && HasRow(TeamsOf(store).value, tid)
    ensures TeamName(store, tid).Success?
  {
    var teams := TeamsOf(store).value;
    var i :| 0 <= i < |teams| && teams[i].id == tid;
  }

  /** Both tables exist and every game names known teams. */
  predicate GamesHaveTeams(store: Tables) {
    TeamsOf(store).Some? && GamesOf(store).Some? &&
    forall i :: 0 <= i < |GamesOf(store).value| ==>
      HasRow(TeamsOf(store).value, GamesOf(store).value[i].homeId) &&
      HasRow(TeamsOf(store).value, GamesOf(store).value[i].awayId)
  }

  lemma AverageForAnswers(store: Tables, year: Option<int>, tid: Option<int>)
    requires GamesHaveTeams(store)
    requires tid.Some? ==> HasRow(TeamsOf(store).value, tid.value)
    ensures AverageFor(store, year, tid).status == 200
  {
    if tid.Some? {
      NameFound(store, tid.value);
    }
  }

  lemma LastGameForAnswers(store: Tables, tid: Option<int>)
    requires GamesHaveTeams(store)
    requires tid.Some? ==> HasRow(TeamsOf(store).value, tid.value)
    ensures LastGameFor(store, tid).status == 200
  {
    var games := GamesOf(store).value;
    if tid.Some? {
      match LastGame(games, tid.value)
      case None =>
      case Some(g) =>
        var i :| 0 <= i < |games| && games[i] == g && Involves(g, tid.value) &&
                 (forall j :: 0 <= j < |games| && Involves(games[j], tid.value) ==> !Less(g.date, games[j].date)) &&
                 (forall j :: 0 <= j < i && Involves(games[j], tid.value) ==> Less(games[j].date, g.date));
        NameFound(store, g.homeId);
        NameFound(store, g.awayId);
    }
  }

  lemma AverageReplyAnswers(teamMap: map<string, int>, store: Tables, q: string)
    requires Consistent(teamMap, store)
    ensures AverageReply(teamMap, store, q).status == 200
  {
    var rows := TeamsOf(store).value;
    var fragment := TeamFragment(q);
    ResolvedIdHasRow(rows, fragment);
    var tid := ResolveTeam(teamMap, fragment);
    assert tid.Some? ==> HasRow(rows, tid.value);
    SeasonKnown(store, q);
    var year := SeasonFor(store, q).value;
    AverageForAnswers(store, year, tid);
    assert AverageReply(teamMap, store, q) == AverageFor(store, year, tid);
  }

  /** With a games table the season is always settled. */
  lemma SeasonKnown(store: Tables, q: string)
    requires GamesOf(store).Some?
    ensures SeasonFor(store, q).Success?
  {
  }

  lemma LastGameReplyAnswers(teamMap: map<string, int>, store: Tables, q: string, trigger: string)
    requires Consistent(teamMap, store) && |trigger| > 0
    ensures LastGameReply(teamMap, store, q, trigger).status == 200
  {
    ResolvedIdHasRow(TeamsOf(store).value, LastGameFragment(q, trigger));
    LastGameForAnswers(store, ResolveTeam(teamMap, LastGameFragment(q, trigger)));
  }

  /** With a consistent store every question, however odd, receives a 200 answer. */
  lemma ConsistentStoreAlwaysAnswers(teamMap: map<string, int>, store: Tables, question: Option<string>)
    requires Consistent(teamMap, store)
    ensures Chat(teamMap, store, question).status == 200
    ensures Chat(teamMap, store, question).body.Answer?
  {
    var q := QuestionText(question);
    match Classify(q)
    case AveragePoints =>
      AverageReplyAnswers(teamMap, store, q);
    case LastGameOf(trigger) =>
      var j :| FirstTrigger(q, j) && trigger == LastGameTriggers[j];
      LastGameReplyAnswers(teamMap, store, q, trigger);
    case Unknown =>
  }

  /** Without a games table, an average question with no year in it is a server error, whatever the team. */
  lemma AverageWithoutGamesTable(teamMap: map<string, int>, store: Tables, q: string)
    requires GamesOf(store).None? && FindYear(q).None?
    ensures AverageReply(teamMap, store, q) == ServerError(NoSuchTable("games"))
  {
  }

  /**
   * A fragment that resolves to nothing, or to the falsy id 0, is answered
   * "Team not recognised." once the season is known.
   */
  lemma UnknownTeamAverage(teamMap: map<string, int>, store: Tables, q: string)
    requires FindYear(q).Some? || GamesOf(store).Some?
    requires Falsy(ResolveTeam(teamMap, TeamFragment(q)))
    ensures AverageReply(teamMap, store, q) == Ok(NotRecognised)
  {
  }

  /**
   * In the last-game branch a fragment that resolves to nothing, or to the id
   * 0, is answered "Team not recognised." before any table is read.
   */
  lemma UnknownTeamLastGame(teamMap: map<string, int>, store: Tables, q: string, trigger: string)
    requires |trigger| > 0
    requires Falsy(ResolveTeam(teamMap, LastGameFragment(q, trigger)))
    ensures LastGameReply(teamMap, store, q, trigger) == Ok(NotRecognised)
  {
  }

  /**
   * The answer for a team's latest game: the game's date, the home team's
   * name and score, then the away team's score and name, with the names taken
   * from the teams table.
   */
  lemma LastGameAnswerText(store: Tables, tid: int, g: Game)
    requires GamesHaveTeams(store) && tid != 0 && LastGame(GamesOf(store).value, tid) == Some(g)
    ensures exists home, away ::
      TeamName(store, g.homeId) == Success(home) && TeamName(store, g.awayId) == Success(away) &&
      LastGameFor(store, Some(tid)) == Ok(LastGameText(g, home, away))
  {
    var games := GamesOf(store).value;
    var i :| 0 <= i < |games| && games[i] == g && Involves(g, tid) &&
             (forall j :: 0 <= j < |games| && Involves(games[j], tid) ==> !Less(g.date, games[j].date)) &&
             (forall j :: 0 <= j < i && Involves(games[j], tid) ==> Less(games[j].date, g.date));
    NameFound(store, g.homeId);
    NameFound(store, g.awayId);
    FoundGameText(store, tid, g, TeamName(store, g.homeId).value, TeamName(store, g.awayId).value);
  }

  lemma FoundGameText(store: Tables, tid: int, g: Game, home: string, away: string)
    requires GamesOf(store).Some? && tid != 0 && LastGame(GamesOf(store).value, tid) == Some(g)
    requires TeamName(store, g.homeId) == Success(home) && TeamName(store, g.awayId) == Success(away)
    ensures LastGameFor(store, Some(tid)) == Ok(LastGameText(g, home, away))
  {
  }

  /**
   * With no year in the question and an empty games table, MAX(season) is
   * NULL, so is the average, and a known team's answer prints both as None.
   */
  lemma EmptySeasonRendered(teamMap: map<string, int>, store: Tables, q: string, tid: int)
    requires TeamsOf(store).Some? && GamesOf(store) == Some([])
    requires FindYear(q).None? && ResolveTeam(teamMap, TeamFragment(q)) == Some(tid) && tid != 0
    requires HasRow(TeamsOf(store).value, tid)
    ensures exists name ::
      TeamName(store, tid) == Success(name) && AverageReply(teamMap, store, q) == Ok(name + " averaged None PPG in None.")
  {
    NameFound(store, tid);
    var name := TeamName(store, tid).value;
    NoSeasonInEmptyGames(teamMap, store, q);
    assert AverageFor(store, None, Some(tid)) == Ok(AverageText(name, None, None));
    NoneAverageText(name);
  }

  lemma NoSeasonInEmptyGames(teamMap: map<string, int>, store: Tables, q: string)
    requires GamesOf(store) == Some([]) && FindYear(q).None?
    ensures AverageReply(teamMap, store, q) == AverageFor(store, None, ResolveTeam(teamMap, TeamFragment(q)))
  {
    assert SeasonFor(store, q) == Success(None);
  }

  lemma NoneAverageText(name: string)
    ensures AverageText(name, None, None) == name + " averaged None PPG in None."
  {
  }

  /**
   * The average answer for a known team names the first team row with its id
   * and reports the rounded average for the chosen season.
   */
  lemma AverageAnswerText(store: Tables, tid: int, y: int)
    requires GamesHaveTeams(store) && HasRow(TeamsOf(store).value, tid) && tid != 0
    ensures var teams := TeamsOf(store).value;
      exists i :: 0 <= i < |teams| && teams[i].id == tid && (forall j :: 0 <= j < i ==> teams[j].id != tid) &&
        AverageFor(store, Some(y), Some(tid)) ==
          Ok(AverageText(teams[i].name, AvgTenths(GamesOf(store).value, tid, y), Some(y)))
  {
    NameFound(store, tid);
  }

  /** A known team that never played is answered "No recent games found.". */
  lemma NoGamesForTeam(store: Tables, tid: int)
    requires GamesOf(store).Some? && tid != 0
    requires forall i :: 0 <= i < |GamesOf(store).value| ==> !Involves(GamesOf(store).value[i], tid)
    ensures LastGameFor(store, Some(tid)) == Ok(NoRecentGames)
  {
  }
}
