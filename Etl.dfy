/**
 * The transform shared by both ETL scripts: the season label, the group-by of
 * per-team game rows by GAME_ID, and the loop that pairs each group into one
 * home/away game record.
 */
module Etl {
  import opened Wrappers
  import opened Text
  import opened Store

  // ---------------------------------------------------------------------
  //  Season
  // ---------------------------------------------------------------------

  const DefaultSeasonEnd: int := 2024

  /** `int(sys.argv[1]) if len(sys.argv) > 1 else 2024`; a bad literal raises ValueError. */
  function SeasonEnd(argv: seq<string>): (r: Result<int, Fault>)
    ensures |argv| <= 1 ==> r == Success(DefaultSeasonEnd)
    ensures |argv| > 1 ==> (r.Success? <==> ParseInt(argv[1]).Some?)
    ensures |argv| > 1 && r.Success? ==> r.value == ParseInt(argv[1]).value
    ensures |argv| > 1 && r.Failure? ==> r.error == InvalidLiteral(argv[1])
  {
    if |argv| > 1 then
      match ParseInt(argv[1])
      case Some(y) => Success(y)
      case None => Failure(InvalidLiteral(argv[1]))
    else Success(DefaultSeasonEnd)
  }

  /** The year printed as the argument is read back as that year. */
  lemma SeasonEndOfPrintedYear(prog: string, y: int)
    ensures SeasonEnd([prog, IntToString(y)]) == Success(y)
  {
    IntToStringRoundTrip(y);
  }

  /** `s[-2:]`. */
  function LastTwo(s: string): (r: string)
    ensures |s| >= 2 ==> |r| == 2 && r == s[|s| - 2..]
    ensures |s| < 2 ==> r == s
  {
    if |s| >= 2 then s[|s| - 2..] else s
  }

  /** `f"{y-1}-{str(y)[-2:]}"`, the season string the NBA API expects. */
  function SeasonLabel(y: int): string {
    IntToString(y - 1) + "-" + LastTwo(IntToString(y))
  }

  /** For any year of two or more digits the label ends with the year's tens and units digits. */
  lemma SeasonLabelDigits(y: int)
    requires y >= 10
    ensures SeasonLabel(y) == IntToString(y - 1) + "-" + [DigitChar((y / 10) % 10), DigitChar(y % 10)]
  {
    NatToStringLastTwo(y);
  }

  lemma SeasonLabel2024()
    ensures SeasonLabel(2024) == "2023-24"
  {
    SeasonLabelDigits(2024);
    Prints2023();
    assert [DigitChar(2), DigitChar(4)] == "24";
    assert "2023" + "-" + "24" == "2023-24";
  }

  lemma Prints2023()
    ensures IntToString(2023) == "2023"
  {
    assert NatToString(20) == "20";
    assert NatToString(202) == "202";
  }

  lemma SeasonLabel2000()
    ensures SeasonLabel(2000) == "1999-00"
  {
    SeasonLabelDigits(2000);
    Prints1999();
    assert [DigitChar(0), DigitChar(0)] == "00";
    assert "1999" + "-" + "00" == "1999-00";
  }

  lemma Prints1999()
    ensures IntToString(1999) == "1999"
  {
    assert NatToString(19) == "19";
    assert NatToString(199) == "199";
  }

  // ---------------------------------------------------------------------
  //  Group-by GAME_ID
  // ---------------------------------------------------------------------

  /** One row of the LeagueGameFinder frame: one team's side of one game. */
  datatype RawRow = RawRow(gameId: string, date: string, teamId: int, pts: nat, matchup: string)

  /** One group of `groupby("GAME_ID")`: the key and the rows with it, in frame order. */
  datatype Group = Group(key: string, rows: seq<RawRow>)

  /** The rows of `raw` with the given GAME_ID, in order. */
  function RowsWithId(raw: seq<RawRow>, k: string): (r: seq<RawRow>)
    ensures |r| <= |raw|
    ensures forall x :: x in r ==> x in raw && x.gameId == k
    ensures forall x :: x in raw && x.gameId == k ==> x in r
    decreases |raw|
  {
    if |raw| == 0 then []
    else
      var n := |raw|;
      assert forall x :: x in raw ==> x in raw[..n - 1] || x == raw[n - 1];
      RowsWithId(raw[..n - 1], k) + (if raw[n - 1].gameId == k then [raw[n - 1]] else [])
  }

  predicate Ascending(gs: seq<Group>) {
    forall i, j :: 0 <= i < j < |gs| ==> Less(gs[i].key, gs[j].key)
  }

  predicate NonEmptyGroups(gs: seq<Group>) {
    forall i :: 0 <= i < |gs| ==> |gs[i].rows| > 0
  }

  /** The rows of the group with key `k`, or none if there is no such group. */
  function Lookup(gs: seq<Group>, k: string): seq<RawRow>
    decreases |gs|
  {
    if |gs| == 0 then []
    else if gs[0].key == k then gs[0].rows
    else Lookup(gs[1..], k)
  }

  /** Adds one row: to the group of its key if there is one, else as a new group in key order. */
  function Insert(gs: seq<Group>, row: RawRow): (r: seq<Group>)
    ensures forall j :: 0 <= j < |r| ==> r[j].key == row.gameId || exists i :: 0 <= i < |gs| && gs[i].key == r[j].key
    decreases |gs|
  {
    if |gs| == 0 then [Group(row.gameId, [row])]
    else if gs[0].key == row.gameId then [Group(gs[0].key, gs[0].rows + [row])] + gs[1..]
    else if Less(row.gameId, gs[0].key) then [Group(row.gameId, [row])] + gs
    else
      var rest := Insert(gs[1..], row);
      assert forall j :: 0 <= j < |rest| ==>
        rest[j].key == row.gameId || exists i :: 0 <= i < |gs| && gs[i].key == rest[j].key by {
        forall j | 0 <= j < |rest| && rest[j].key != row.gameId
          ensures exists i :: 0 <= i < |gs| && gs[i].key == rest[j].key
        {
          var i :| 0 <= i < |gs[1..]| && gs[1..][i].key == rest[j].key;
          assert gs[i + 1].key == rest[j].key;
        }
      }
      [gs[0]] + rest
  }

  /** A group whose key is below every key of ascending groups can go in front of them. */
  lemma ConsAscending(g: Group, gs: seq<Group>)
    requires Ascending(gs)
    requires forall j :: 0 <= j < |gs| ==> Less(g.key, gs[j].key)
    ensures Ascending([g] + gs)
  {
    var r := [g] + gs;
    forall i, j | 0 <= i < j < |r| ensures Less(r[i].key, r[j].key) {
      assert r[j] == gs[j - 1];
      if i > 0 { assert r[i] == gs[i - 1]; }
    }
  }

  /** Inserting a row keeps the groups in strictly ascending key order. */
  lemma {:induction false} InsertAscending(gs: seq<Group>, row: RawRow)
    requires Ascending(gs)
    ensures Ascending(Insert(gs, row))
    decreases |gs|
  {
    if |gs| == 0 {
    } else if gs[0].key == row.gameId {
      var tail := gs[1..];
      forall j | 0 <= j < |tail| ensures Less(gs[0].key, tail[j].key) {
        assert tail[j] == gs[j + 1];
      }
      ConsAscending(Group(gs[0].key, gs[0].rows + [row]), tail);
    } else if Less(row.gameId, gs[0].key) {
      forall j | 0 <= j < |gs| ensures Less(row.gameId, gs[j].key) {
        if j > 0 { LessTransitive(row.gameId, gs[0].key, gs[j].key); }
      }
      ConsAscending(Group(row.gameId, [row]), gs);
    } else {
      LessTotal(row.gameId, gs[0].key);
      var tail := gs[1..];
      var rest := Insert(tail, row);
      InsertAscending(tail, row);
      forall j | 0 <= j < |rest| ensures Less(gs[0].key, rest[j].key) {
        if rest[j].key != row.gameId {
          var m :| 0 <= m < |tail| && tail[m].key == rest[j].key;
          assert tail[m] == gs[m + 1];
        }
      }
      ConsAscending(gs[0], rest);
    }
  }

  /** Inserting a row never leaves an empty group. */
  lemma {:induction false} InsertNonEmpty(gs: seq<Group>, row: RawRow)
    requires NonEmptyGroups(gs)
    ensures NonEmptyGroups(Insert(gs, row))
    decreases |gs|
  {
    if |gs| > 0 && gs[0].key != row.gameId && !Less(row.gameId, gs[0].key) {
      var rest := Insert(gs[1..], row);
      InsertNonEmpty(gs[1..], row);
      var r := [gs[0]] + rest;
      forall i | 0 <= i < |r| ensures |r[i].rows| > 0 {
        if i > 0 { assert r[i] == rest[i - 1]; }
      }
    } else if |gs| > 0 && gs[0].key == row.gameId {
      var r := Insert(gs, row);
      forall i | 0 <= i < |r| ensures |r[i].rows| > 0 {
        if i > 0 { assert r[i] == gs[i]; }
      }
    }
  }

  /** A key that heads no group has no rows. */
  lemma {:induction false} LookupAbsent(gs: seq<Group>, k: string)
    requires forall i :: 0 <= i < |gs| ==> gs[i].key != k
    ensures Lookup(gs, k) == []
    decreases |gs|
  {
    if |gs| > 0 {
      LookupAbsent(gs[1..], k);
    }
  }

  /** In ascending groups, looking up a group's own key finds that group's rows. */
  lemma {:induction false} LookupAt(gs: seq<Group>, i: int)
    requires Ascending(gs) && 0 <= i < |gs|
    ensures Lookup(gs, gs[i].key) == gs[i].rows
    decreases |gs|
  {
    if i > 0 {
      LessIrreflexive(gs[0].key);
      assert gs[0].key != gs[i].key;
      assert gs[1..][i - 1] == gs[i];
      LookupAt(gs[1..], i - 1);
    }
  }

  /** A key with rows heads some group. */
  lemma {:induction false} LookupHasKey(gs: seq<Group>, k: string)
    requires Lookup(gs, k) != []
    ensures exists i :: 0 <= i < |gs| && gs[i].key == k
    decreases |gs|
  {
    if gs[0].key != k {
      LookupHasKey(gs[1..], k);
      var i :| 0 <= i < |gs[1..]| && gs[1..][i].key == k;
      assert gs[i + 1].key == k;
    }
  }

  /** Inserting a row extends exactly the rows of its own key. */
  lemma {:induction false} InsertLookup(gs: seq<Group>, row: RawRow, k: string)
    requires Ascending(gs)
    ensures Lookup(Insert(gs, row), k) == Lookup(gs, k) + (if k == row.gameId then [row] else [])
    decreases |gs|
  {
    if |gs| == 0 {
    } else if gs[0].key == row.gameId {
      assert Insert(gs, row)[1..] == gs[1..];
    } else if Less(row.gameId, gs[0].key) {
      assert Insert(gs, row)[1..] == gs;
      if k == row.gameId {
        forall i | 0 <= i < |gs| ensures gs[i].key != k {
          if i > 0 {
            LessTransitive(row.gameId, gs[0].key, gs[i].key);
          }
          LessIrreflexive(k);
        }
        LookupAbsent(gs, k);
      }
    } else {
      var rest := Insert(gs[1..], row);
      assert Insert(gs, row) == [gs[0]] + rest;
      assert ([gs[0]] + rest)[1..] == rest;
      InsertLookup(gs[1..], row, k);
    }
  }

  /** `groupby("GAME_ID")`: the rows folded one by one into groups kept in key order. */
  function GroupBy(raw: seq<RawRow>): seq<Group>
    decreases |raw|
  {
    if |raw| == 0 then []
    else Insert(GroupBy(raw[..|raw| - 1]), raw[|raw| - 1])
  }

  /**
   * The groups come out in strictly ascending GAME_ID order, none is empty, and
   * each key's group holds exactly the rows with that key, in frame order.
   */
  lemma {:induction false} GroupByCorrect(raw: seq<RawRow>)
    ensures Ascending(GroupBy(raw)) && NonEmptyGroups(GroupBy(raw))
    ensures forall k :: Lookup(GroupBy(raw), k) == RowsWithId(raw, k)
    decreases |raw|
  {
    if |raw| > 0 {
      var n := |raw|;
      var p := raw[..n - 1];
      GroupByCorrect(p);
      InsertAscending(GroupBy(p), raw[n - 1]);
      InsertNonEmpty(GroupBy(p), raw[n - 1]);
      forall k ensures Lookup(GroupBy(raw), k) == RowsWithId(raw, k) {
        InsertLookup(GroupBy(p), raw[n - 1], k);
      }
    }
  }

  /**
   * `gs` is the grouping of `raw`: ascending non-empty groups, each holding the
   * rows of `raw` with its key, and a group for every row's key.
   */
  predicate GroupedBy(gs: seq<Group>, raw: seq<RawRow>) {
    Ascending(gs) && NonEmptyGroups(gs) &&
    (forall i :: 0 <= i < |gs| ==> gs[i].rows == RowsWithId(raw, gs[i].key)) &&
    (forall x :: x in raw ==> exists i :: 0 <= i < |gs| && gs[i].key == x.gameId)
  }

  /** Each group of `GroupBy(raw)` is the rows of `raw` with its key, and every row's key has a group. */
  lemma GroupsOfRaw(raw: seq<RawRow>)
    ensures GroupedBy(GroupBy(raw), raw)
  {
    var gs := GroupBy(raw);
    GroupByCorrect(raw);
    forall i | 0 <= i < |gs| ensures gs[i].rows == RowsWithId(raw, gs[i].key) {
      LookupAt(gs, i);
    }
    forall x | x in raw ensures exists i :: 0 <= i < |gs| && gs[i].key == x.gameId {
      assert x in RowsWithId(raw, x.gameId);
      LookupHasKey(gs, x.gameId);
    }
  }

  // ---------------------------------------------------------------------
  //  Pairing each group into one home/away record
  // ---------------------------------------------------------------------

  /**
   * `rec` is the record for group `g` when its row `h` is the home side and
   * the other row the away side.
   */
  predicate PairedAs(rec: Game, g: Group, h: int, season: int)
    requires |g.rows| == 2 && 0 <= h < 2
  {
    var home := g.rows[h];
    var away := g.rows[1 - h];
    rec.gameId == g.key && rec.date == home.date &&
    rec.homeId == home.teamId && rec.awayId == away.teamId &&
    rec.homeScore == home.pts && rec.awayScore == away.pts &&
    rec.season == season
  }

  /**
   * One group: skipped unless it has exactly two rows; the first row is home
   * when its MATCHUP contains "vs.", otherwise the second row is.
   */
  function PairGroup(g: Group, season: int): (r: Option<Game>)
    ensures r.Some? <==> |g.rows| == 2
    ensures r.Some? ==> exists h :: 0 <= h < 2 && (h == 0 <==> Contains(g.rows[0].matchup, "vs.")) &&
                                    PairedAs(r.value, g, h, season)
  {
    if |g.rows| != 2 then None
    else
      var h := if Contains(g.rows[0].matchup, "vs.") then 0 else 1;
      var home := g.rows[h];
      var away := g.rows[1 - h];
      var rec := Game(g.key, home.date, home.teamId, away.teamId, home.pts, away.pts, season);
      assert PairedAs(rec, g, h, season);
      Some(rec)
  }

  /** The records the loop appends, group by group. */
  function PairedRecords(gs: seq<Group>, season: int): seq<Game>
    decreases |gs|
  {
    if |gs| == 0 then []
    else
      var n := |gs|;
      PairedRecords(gs[..n - 1], season) + (match PairGroup(gs[n - 1], season) case None => [] case Some(r) => [r])
  }

  /** Every record is the pairing of one of the groups. */
  predicate FromGroups(recs: seq<Game>, gs: seq<Group>, season: int) {
    forall a :: 0 <= a < |recs| ==> exists i :: 0 <= i < |gs| && PairGroup(gs[i], season) == Some(recs[a])
  }

  /** Every record comes from some group. */
  lemma {:induction false} RecordsFromGroups(gs: seq<Group>, season: int)
    ensures FromGroups(PairedRecords(gs, season), gs, season)
    decreases |gs|
  {
    if |gs| > 0 {
      var n := |gs|;
      var p := gs[..n - 1];
      RecordsFromGroups(p, season);
      var prev := PairedRecords(p, season);
      var recs := PairedRecords(gs, season);
      forall a | 0 <= a < |recs| ensures exists i :: 0 <= i < |gs| && PairGroup(gs[i], season) == Some(recs[a]) {
        if a < |prev| {
          var i :| 0 <= i < |p| && PairGroup(p[i], season) == Some(prev[a]);
          assert p[i] == gs[i] && recs[a] == prev[a];
        } else {
          assert PairGroup(gs[n - 1], season) == Some(recs[a]);
        }
      }
    }
  }

  /** Every two-row group's pairing is among the records. */
  predicate CoversGroups(recs: seq<Game>, gs: seq<Group>, season: int) {
    forall i :: 0 <= i < |gs| && |gs[i].rows| == 2 ==> exists a :: 0 <= a < |recs| && Some(recs[a]) == PairGroup(gs[i], season)
  }

  /** Every two-row group gives a record. */
  lemma {:induction false} GroupsGiveRecords(gs: seq<Group>, season: int)
    ensures CoversGroups(PairedRecords(gs, season), gs, season)
    decreases |gs|
  {
    if |gs| > 0 {
      var n := |gs|;
      var p := gs[..n - 1];
      GroupsGiveRecords(p, season);
      var prev := PairedRecords(p, season);
      var recs := PairedRecords(gs, season);
      forall i | 0 <= i < |gs| && |gs[i].rows| == 2
        ensures exists a :: 0 <= a < |recs| && Some(recs[a]) == PairGroup(gs[i], season)
      {
        if i < n - 1 {
          assert p[i] == gs[i];
          var a :| 0 <= a < |prev| && Some(prev[a]) == PairGroup(p[i], season);
          assert recs[a] == prev[a];
        } else {
          assert Some(recs[|prev|]) == PairGroup(gs[i], season);
        }
      }
    }
  }

  /** Strictly ascending GAME_IDs, hence no GAME_ID twice. */
  predicate IdsAscending(recs: seq<Game>) {
    forall a, b :: 0 <= a < b < |recs| ==> Less(recs[a].gameId, recs[b].gameId)
  }

  /** Over ascending groups the records are in ascending GAME_ID order, so no GAME_ID has two records. */
  lemma {:induction false} RecordsAscending(gs: seq<Group>, season: int)
    requires Ascending(gs)
    ensures IdsAscending(PairedRecords(gs, season))
    decreases |gs|
  {
    if |gs| > 0 {
      var n := |gs|;
      var p := gs[..n - 1];
      assert Ascending(p);
      RecordsAscending(p, season);
      RecordsFromGroups(p, season);
      var prev := PairedRecords(p, season);
      var recs := PairedRecords(gs, season);
      var last: seq<Game> := match PairGroup(gs[n - 1], season) case None => [] case Some(r) => [r];
      assert recs == prev + last && |last| <= 1;
      forall a, b | 0 <= a < b < |recs| ensures Less(recs[a].gameId, recs[b].gameId) {
        assert a < |prev| && recs[a] == prev[a];
        if b >= |prev| {
          var i :| 0 <= i < |p| && PairGroup(p[i], season) == Some(prev[a]);
          assert p[i] == gs[i];
          assert prev[a].gameId == gs[i].key;
          assert recs[b].gameId == gs[n - 1].key;
        } else {
          assert recs[b] == prev[b];
        }
      }
    }
  }

  /** The pairing loop over the groups: `records.append(...)` for every two-row group. */
  method PairGroups(gs: seq<Group>, season: int) returns (records: seq<Game>)
    ensures records == PairedRecords(gs, season)
  {
    records := [];
    var i := 0;
    while i < |gs|
      invariant 0 <= i <= |gs|
      invariant records == PairedRecords(gs[..i], season)
    {
      assert gs[..i + 1][..i] == gs[..i];
      var r := PairGroup(gs[i], season);
      if r.Some? {
        records := records + [r.value];
      }
      i := i + 1;
    }
    assert gs[..|gs|] == gs;
  }

  /**
   * The games table built from the raw frame: ascending distinct GAME_IDs,
   * each record from a GAME_ID that occurs exactly twice with home and away
   * picked by the "vs." rule, and a record for every GAME_ID that occurs twice.
   */
  method BuildGameRecords(raw: seq<RawRow>, season: int) returns (records: seq<Game>)
    ensures records == PairedRecords(GroupBy(raw), season)
    ensures IdsAscending(records)
    ensures MatchesRows(records, raw, season)
    ensures CoversRaw(records, raw)
  {
    var groups := GroupBy(raw);
    records := PairGroups(groups, season);
    GroupsOfRaw(raw);
    RecordsAscending(groups, season);
    RecordsMatchRows(raw, season);
    RowsGiveRecords(raw, season);
  }

  /**
   * Each record stands for a GAME_ID with exactly two raw rows, home and away
   * picked by the "vs." rule on the first of them.
   */
  predicate MatchesRows(recs: seq<Game>, raw: seq<RawRow>, season: int) {
    forall a :: 0 <= a < |recs| ==>
      var rows := RowsWithId(raw, recs[a].gameId);
      |rows| == 2 &&
      exists h :: 0 <= h < 2 && (h == 0 <==> Contains(rows[0].matchup, "vs.")) &&
                  PairedAs(recs[a], Group(recs[a].gameId, rows), h, season)
  }

  /** Every GAME_ID with exactly two raw rows has a record. */
  predicate CoversRaw(recs: seq<Game>, raw: seq<RawRow>) {
    forall x :: x in raw && |RowsWithId(raw, x.gameId)| == 2 ==>
      exists a :: 0 <= a < |recs| && recs[a].gameId == x.gameId
  }

  lemma RecordsMatchRows(raw: seq<RawRow>, season: int)
    ensures MatchesRows(PairedRecords(GroupBy(raw), season), raw, season)
  {
    var groups := GroupBy(raw);
    var recs := PairedRecords(groups, season);
    GroupsOfRaw(raw);
    RecordsFromGroups(groups, season);
    forall a | 0 <= a < |recs|
      ensures var rows := RowsWithId(raw, recs[a].gameId);
              |rows| == 2 &&
              exists h :: 0 <= h < 2 && (h == 0 <==> Contains(rows[0].matchup, "vs.")) &&
                          PairedAs(recs[a], Group(recs[a].gameId, rows), h, season)
    {
      var i :| 0 <= i < |groups| && PairGroup(groups[i], season) == Some(recs[a]);
      RecordOfGroup(groups[i], recs[a], raw, season);
    }
  }

  /** The record of a group holding all rows of its key pairs exactly those raw rows. */
  lemma RecordOfGroup(g: Group, rec: Game, raw: seq<RawRow>, season: int)
    requires PairGroup(g, season) == Some(rec)
    requires g.rows == RowsWithId(raw, g.key)
    ensures var rows := RowsWithId(raw, rec.gameId);
            |rows| == 2 &&
            exists h :: 0 <= h < 2 && (h == 0 <==> Contains(rows[0].matchup, "vs.")) &&
                        PairedAs(rec, Group(rec.gameId, rows), h, season)
  {
    PairedGameId(g, season);
    assert g == Group(rec.gameId, RowsWithId(raw, rec.gameId));
  }

  lemma RowGivesRecord(raw: seq<RawRow>, season: int, x: RawRow)
    requires x in raw && |RowsWithId(raw, x.gameId)| == 2
    ensures exists a :: 0 <= a < |PairedRecords(GroupBy(raw), season)| && PairedRecords(GroupBy(raw), season)[a].gameId == x.gameId
  {
    var groups := GroupBy(raw);
    var recs := PairedRecords(groups, season);
    GroupsOfRaw(raw);
    GroupsGiveRecords(groups, season);
    var i :| 0 <= i < |groups| && groups[i].key == x.gameId;
    assert groups[i].rows == RowsWithId(raw, x.gameId);
    var a :| 0 <= a < |recs| && Some(recs[a]) == PairGroup(groups[i], season);
    PairedGameId(groups[i], season);
  }

  lemma PairedGameId(g: Group, season: int)
    requires |g.rows| == 2
    ensures PairGroup(g, season).Some? && PairGroup(g, season).value.gameId == g.key
  {
  }

  lemma RowsGiveRecords(raw: seq<RawRow>, season: int)
    ensures CoversRaw(PairedRecords(GroupBy(raw), season), raw)
  {
    forall x | x in raw && |RowsWithId(raw, x.gameId)| == 2
      ensures exists a :: 0 <= a < |PairedRecords(GroupBy(raw), season)| && PairedRecords(GroupBy(raw), season)[a].gameId == x.gameId
    {
      RowGivesRecord(raw, season, x);
    }
  }
}
