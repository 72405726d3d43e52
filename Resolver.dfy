/**
 * Team resolution: the fixed alias table, the search-key map built once at
 * start-up from the `teams` table, and the lookup that turns a free-text
 * fragment into a team id.
 */
module Resolver {
  import opened Wrappers
  import opened Text
  import opened Store

  /** Nicknames and misspellings, each mapped to the lower-cased canonical team name. */
  const Aliases: map<string, string> := map[
    "wiz" := "washington wizards", "wantnos" := "washington wizards",
    "lakers" := "los angeles lakers",
    "celtics" := "boston celtics", "celllics" := "boston celtics",
    "warriors" := "golden state warriors",
    "heat" := "miami heat"
  ]

  /** Every team name has a word, so `name.split()[-1]` does not raise. */
  predicate AllNamed(rows: seq<Team>) {
    forall i :: 0 <= i < |rows| ==> HasWord(rows[i].name)
  }

  /** The keys one team row contributes: name, abbreviation, city and "city last-word-of-name", lower-cased. */
  function SearchKeys(t: Team): set<string>
    requires HasWord(t.name)
  {
    {Lower(t.name), Lower(t.abbrev), Lower(t.city), Lower(t.city) + " " + Lower(LastWord(t.name))}
  }

  /** The map one row contributes: each of its search keys to its id. */
  function RowMap(t: Team): (m: map<string, int>)
    requires HasWord(t.name)
    ensures forall k :: k in m <==> k in SearchKeys(t)
    ensures forall k :: k in m ==> m[k] == t.id
  {
    KeyMap(SearchKeys(t), t.id)
  }

  /** Every key of `keys` to `id`. */
  function KeyMap(keys: set<string>, id: int): (m: map<string, int>)
    ensures forall k :: k in m <==> k in keys
    ensures forall k :: k in m ==> m[k] == id
  {
    map k | k in keys :: id
  }

  /** The search-key map of a sequence of team rows, processed in order so that a later row overwrites an earlier one. */
  function TeamMapOf(rows: seq<Team>): map<string, int>
    requires AllNamed(rows)
    decreases |rows|
  {
    if |rows| == 0 then map[]
    else
      var last := rows[|rows| - 1];
      TeamMapOf(rows[..|rows| - 1]) + RowMap(last)
  }

  /** A sequence of maps laid over each other in order, so that a later map overwrites an earlier one. */
  function Overlay(ms: seq<map<string, int>>): map<string, int>
    decreases |ms|
  {
    if |ms| == 0 then map[] else Overlay(ms[..|ms| - 1]) + ms[|ms| - 1]
  }

  /** A key is in the overlay exactly when it is in one of the maps. */
  lemma {:induction false} OverlayDomain(ms: seq<map<string, int>>, k: string)
    ensures k in Overlay(ms) <==> exists i :: 0 <= i < |ms| && k in ms[i]
    decreases |ms|
  {
    if |ms| > 0 {
      var n := |ms|;
      var p := ms[..n - 1];
      OverlayDomain(p, k);
      if k in ms[n - 1] {
        assert 0 <= n - 1 < n && k in ms[n - 1];
      } else if k in Overlay(p) {
        var i :| 0 <= i < n - 1 && k in p[i];
        assert ms[i] == p[i];
      } else {
        forall i | 0 <= i < n ensures k !in ms[i] {
          if i < n - 1 { assert ms[i] == p[i]; }
        }
      }
    }
  }

  /** A key of the overlay takes its value from the last map that holds it. */
  lemma {:induction false} OverlayOwner(ms: seq<map<string, int>>, k: string)
    requires k in Overlay(ms)
    ensures exists i :: 0 <= i < |ms| && k in ms[i] && Overlay(ms)[k] == ms[i][k] &&
                        forall j :: i < j < |ms| ==> k !in ms[j]
    decreases |ms|
  {
    var n := |ms|;
    var p := ms[..n - 1];
    if k in ms[n - 1] {
      assert k in ms[n - 1] && Overlay(ms)[k] == ms[n - 1][k];
    } else {
      OverlayOwner(p, k);
      var i :| 0 <= i < n - 1 && k in p[i] && Overlay(p)[k] == p[i][k] &&
               forall j :: i < j < n - 1 ==> k !in p[j];
      assert ms[i] == p[i];
      forall j | i < j < n ensures k !in ms[j] {
        if j < n - 1 { assert ms[j] == p[j]; }
      }
    }
  }

  /** The maps the rows contribute, one per row. */
  function RowMaps(rows: seq<Team>): (ms: seq<map<string, int>>)
    requires AllNamed(rows)
    ensures |ms| == |rows|
    ensures forall i :: 0 <= i < |rows| ==> ms[i] == RowMap(rows[i])
  {
    seq(|rows|, i requires 0 <= i < |rows| => RowMap(rows[i]))
  }

  /** The team map is the overlay of the rows' maps. */
  lemma {:induction false} TeamMapIsOverlay(rows: seq<Team>)
    requires AllNamed(rows)
    ensures TeamMapOf(rows) == Overlay(RowMaps(rows))
    decreases |rows|
  {
    if |rows| > 0 {
      var n := |rows|;
      var p := rows[..n - 1];
      var ms := RowMaps(rows);
      TeamMapIsOverlay(p);
      RowMapsPrefix(rows);
      assert Overlay(ms) == Overlay(RowMaps(p)) + ms[n - 1];
    }
  }

  /** The maps of a prefix of the rows are the prefix of the rows' maps. */
  lemma RowMapsPrefix(rows: seq<Team>)
    requires AllNamed(rows) && |rows| > 0
    ensures AllNamed(rows[..|rows| - 1])
    ensures RowMaps(rows)[..|rows| - 1] == RowMaps(rows[..|rows| - 1])
  {
    assert forall i :: 0 <= i < |rows| - 1 ==> rows[..|rows| - 1][i] == rows[i];
  }

  /** Row i's map holds exactly row i's keys, each pointing at row i's id. */
  lemma RowMapsAt(rows: seq<Team>, i: int, k: string)
    requires AllNamed(rows) && 0 <= i < |rows|
    ensures k in RowMaps(rows)[i] <==> k in SearchKeys(rows[i])
    ensures k in RowMaps(rows)[i] ==> RowMaps(rows)[i][k] == rows[i].id
  {
  }

  /** A key is in the team map exactly when some row contributes it. */
  lemma TeamMapKeys(rows: seq<Team>, k: string)
    requires AllNamed(rows)
    ensures k in TeamMapOf(rows) <==> exists i :: 0 <= i < |rows| && k in SearchKeys(rows[i])
  {
    var ms := RowMaps(rows);
    TeamMapIsOverlay(rows);
    OverlayDomain(ms, k);
    if k in TeamMapOf(rows) {
      var i :| 0 <= i < |ms| && k in ms[i];
      RowMapsAt(rows, i, k);
    } else {
      forall i | 0 <= i < |rows| ensures k !in SearchKeys(rows[i]) {
        RowMapsAt(rows, i, k);
      }
    }
  }

  /** A key of the team map points at the last row that contributes it. */
  lemma TeamMapLastOwner(rows: seq<Team>, k: string)
    requires AllNamed(rows) && k in TeamMapOf(rows)
    ensures exists i :: 0 <= i < |rows| && k in SearchKeys(rows[i]) && TeamMapOf(rows)[k] == rows[i].id &&
                        forall j :: i < j < |rows| ==> k !in SearchKeys(rows[j])
  {
    var ms := RowMaps(rows);
    TeamMapIsOverlay(rows);
    OverlayOwner(ms, k);
    var i :| 0 <= i < |ms| && k in ms[i] && Overlay(ms)[k] == ms[i][k] &&
             forall j :: i < j < |ms| ==> k !in ms[j];
    RowMapsAt(rows, i, k);
    forall j | i < j < |rows| ensures k !in SearchKeys(rows[j]) {
      RowMapsAt(rows, j, k);
    }
  }

  /**
   * A key is in the map exactly when some row contributes it, and then it maps
   * to the id of the last row that contributes it.
   */
  lemma TeamMapLastWins(rows: seq<Team>, k: string)
    requires AllNamed(rows)
    ensures k in TeamMapOf(rows) <==> exists i :: 0 <= i < |rows| && k in SearchKeys(rows[i])
    ensures k in TeamMapOf(rows) ==>
              exists i :: 0 <= i < |rows| && k in SearchKeys(rows[i]) && TeamMapOf(rows)[k] == rows[i].id &&
                          forall j :: i < j < |rows| ==> k !in SearchKeys(rows[j])
  {
    TeamMapKeys(rows, k);
    if k in TeamMapOf(rows) { TeamMapLastOwner(rows, k); }
  }

  /**
   * `_build_team_map`: None stands for a missing `teams` table, which gives an
   * empty map; a team name without a word makes the start-up code raise.
   */
  method BuildTeamMap(teams: Option<seq<Team>>) returns (r: Result<map<string, int>, Fault>)
    ensures teams.None? ==> r == Success(map[])
    ensures teams.Some? && AllNamed(teams.value) ==> r == Success(TeamMapOf(teams.value))
    ensures teams.Some? && !AllNamed(teams.value) ==> r == Failure(IndexOutOfRange)
  {
    if teams.None? {
      return Success(map[]);
    }
    var rows := teams.value;
    var mapping: map<string, int> := map[];
    var i := 0;
    while i < |rows|
      invariant 0 <= i <= |rows|
      invariant AllNamed(rows[..i])
      invariant mapping == TeamMapOf(rows[..i])
    {
      var row := rows[i];
      if !HasWord(row.name) {
        return Failure(IndexOutOfRange);
      }
      var added := AddKeys(mapping, SearchKeys(row), row.id);
      AddedIsKeyMap(mapping, added, SearchKeys(row), row.id);
      mapping := added;
      TeamMapStep(rows, i);
      i := i + 1;
    }
    assert rows[..i] == rows;
    return Success(mapping);
  }

  /** The inner loop of `_build_team_map`: point every key of `tokens` at `id`. */
  method AddKeys(mapping: map<string, int>, tokens: set<string>, id: int) returns (m: map<string, int>)
    ensures forall k :: k in m <==> k in mapping || k in tokens
    ensures forall k :: k in m ==> m[k] == if k in tokens then id else mapping[k]
  {
    var pending := tokens;
    m := mapping;
    while pending != {}
      invariant pending <= tokens
      invariant forall k :: k in m <==> k in mapping || k in tokens - pending
      invariant forall k :: k in m ==> m[k] == if k in tokens - pending then id else mapping[k]
      decreases |pending|
    {
      var t :| t in pending;
      m := m[t := id];
      pending := pending - {t};
    }
  }

  /** What the inner loop leaves is the map so far with every token pointed at the id. */
  lemma AddedIsKeyMap(mapping: map<string, int>, m: map<string, int>, tokens: set<string>, id: int)
    requires forall k :: k in m <==> k in mapping || k in tokens
    requires forall k :: k in m ==> m[k] == if k in tokens then id else mapping[k]
    ensures m == mapping + KeyMap(tokens, id)
  {
  }

  /** Extending the rows by one named row adds that row's keys on top of the map so far. */
  lemma TeamMapStep(rows: seq<Team>, i: int)
    requires 0 <= i < |rows| && AllNamed(rows[..i]) && HasWord(rows[i].name)
    ensures AllNamed(rows[..i + 1])
    ensures TeamMapOf(rows[..i + 1]) == TeamMapOf(rows[..i]) + RowMap(rows[i])
  {
    var q := rows[..i + 1];
    assert q[..|q| - 1] == rows[..i];
    assert q[|q| - 1] == rows[i];
    forall j | 0 <= j < i + 1 ensures HasWord(q[j].name) {
      if j < i { assert q[j] == rows[..i][j]; }
    }
    assert TeamMapOf(q) == TeamMapOf(q[..|q| - 1]) + RowMap(q[|q| - 1]);
  }

  /** `raw.lower().strip()`. */
  function Normalize(raw: string): string {
    Strip(Lower(raw))
  }

  /** `ALIASES.get(key, key)`: the key the team map is consulted with. */
  function LookupKey(raw: string): (k: string)
    ensures Normalize(raw) in Aliases ==> k == Aliases[Normalize(raw)]
    ensures Normalize(raw) !in Aliases ==> k == Normalize(raw)
  {
    var key := Normalize(raw);
    if key in Aliases then Aliases[key] else key
  }

  /** `_resolve_team`: the team id for a free-text fragment, or None. */
  function ResolveTeam(teamMap: map<string, int>, raw: string): (r: Option<int>)
    ensures r.Some? <==> LookupKey(raw) in teamMap
    ensures r.Some? ==> r.value == teamMap[LookupKey(raw)]
  {
    var key := LookupKey(raw);
    if key in teamMap then Some(teamMap[key]) else None
  }

  /**
   * Resolution depends only on `raw.lower().strip()`: surrounding whitespace and
   * the case of ASCII letters never change the result.
   */
  lemma ResolveIgnoresCaseAndPadding(teamMap: map<string, int>, w1: string, a: string, w2: string, b: string)
    requires AllSpace(w1) && AllSpace(w2) && Lower(a) == Lower(b)
    ensures ResolveTeam(teamMap, w1 + a + w2) == ResolveTeam(teamMap, b)
  {
    assert Lower(w1 + a + w2) == Lower(w1) + Lower(a) + Lower(w2);
    StripIgnoresPadding(Lower(w1), Lower(a), Lower(w2));
  }

  /**
   * Alias precedence: when the normalised fragment is an alias, only the alias
   * target is looked up, so two maps that agree on the target give the same
   * answer whatever they hold for the fragment itself.
   */
  lemma AliasShadowsRawKey(m1: map<string, int>, m2: map<string, int>, raw: string)
    requires Normalize(raw) in Aliases
    requires var t := Aliases[Normalize(raw)]; (t in m1 <==> t in m2) && (t in m1 ==> m1[t] == m2[t])
    ensures ResolveTeam(m1, raw) == ResolveTeam(m2, raw)
  {
  }

  /** A fragment whose lookup key is contributed by row `i` and by no later row resolves to that row's id. */
  lemma ResolvesToLastOwner(rows: seq<Team>, raw: string, i: int)
    requires AllNamed(rows) && 0 <= i < |rows|
    requires LookupKey(raw) in SearchKeys(rows[i])
    requires forall j :: i < j < |rows| ==> LookupKey(raw) !in SearchKeys(rows[j])
    ensures ResolveTeam(TeamMapOf(rows), raw) == Some(rows[i].id)
  {
    var k := LookupKey(raw);
    TeamMapLastWins(rows, k);
    var i' :| 0 <= i' < |rows| && k in SearchKeys(rows[i']) && TeamMapOf(rows)[k] == rows[i'].id &&
              forall j :: i' < j < |rows| ==> k !in SearchKeys(rows[j]);
    assert i' == i;
  }

  /** A fragment whose lookup key no row contributes is not found. */
  lemma UnknownFragmentNotFound(rows: seq<Team>, raw: string)
    requires AllNamed(rows)
    requires forall i :: 0 <= i < |rows| ==> LookupKey(raw) !in SearchKeys(rows[i])
    ensures ResolveTeam(TeamMapOf(rows), raw) == None
  {
    TeamMapLastWins(rows, LookupKey(raw));
  }
}
