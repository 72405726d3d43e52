/**
 * Worked examples of the chat handler on concrete questions, including the
 * two example questions of its own help text.
 */
module Scenarios {
  import opened Wrappers
  import opened Text
  import opened Store
  import opened Resolver
  import opened Queries
  import opened Matcher
  import opened App
  import opened AppProperties

  // ---------------------------------------------------------------------
  //  Aliases: "  WIZ " finds the Washington Wizards row
  // ---------------------------------------------------------------------

  lemma WizLower()
    ensures Lower("  WIZ ") == "  " + "wiz" + " "
  {
    var q, r := "  WIZ ", "  wiz ";
    forall i | 0 <= i < |q| ensures LowerChar(q[i]) == r[i] {
    }
    LowerMatches(q, r);
    assert r == "  " + "wiz" + " ";
  }

  lemma WizNormalized()
    ensures Normalize("  WIZ ") == "wiz"
  {
    WizLower();
    StripIgnoresPadding("  ", "wiz", " ");
    WizStripped();
  }

  lemma WizStripped()
    ensures Strip("wiz") == "wiz"
  {
    var w := "wiz";
    assert w[0] == 'w' && w[|w| - 1] == 'z';
    StripNoSpaceEnds(w);
  }

  lemma WizKey()
    ensures LookupKey("  WIZ ") == "washington wizards"
  {
    WizNormalized();
    WizAlias();
  }

  lemma WizAlias()
    ensures "wiz" in Aliases && Aliases["wiz"] == "washington wizards"
  {
  }

  lemma WizardsName()
    ensures Lower("Washington Wizards") == "washington wizards" && HasWord("Washington Wizards")
  {
    assert RStrip("Washington Wizards") == "Washington Wizards";
  }

  /** An alias, in any case and with padding, resolves through its full team name. */
  lemma WizAliasResolves(id: int)
    ensures ResolveTeam(TeamMapOf([Team(id, "Washington Wizards", "WAS", "Washington", "East", "Southeast")]), "  WIZ ")
            == Some(id)
  {
    var t := Team(id, "Washington Wizards", "WAS", "Washington", "East", "Southeast");
    WizKey();
    WizardsName();
    ResolvesToLastOwner([t], "  WIZ ", 0);
  }

  // ---------------------------------------------------------------------
  //  The help text's first example is itself answered with the help text
  // ---------------------------------------------------------------------

  const LakersExample: string := "What did the Lakers average in 2024?"

  /** Lower-casing gives `r` when it does so character by character. */
  lemma LowerMatches(s: string, r: string)
    requires |s| == |r| && forall i :: 0 <= i < |s| ==> LowerChar(s[i]) == r[i]
    ensures Lower(s) == r
  {
  }

  lemma LakersExampleChars()
    ensures forall i :: 0 <= i < |LakersExample| ==> LowerChar(LakersExample[i]) == "what did the lakers average in 2024?"[i]
  {
    var q, r := LakersExample, "what did the lakers average in 2024?";
    forall i | 0 <= i < |q| ensures LowerChar(q[i]) == r[i] {
      if i != 0 && i != 13 { assert !('A' <= q[i] <= 'Z') && q[i] == r[i]; }
    }
  }

  lemma LakersExampleLower()
    ensures Lower(LakersExample) == "what did the lakers average in 2024?"
  {
    LakersExampleChars();
    LowerMatches(LakersExample, "what did the lakers average in 2024?");
  }

  /** The lower-cased example has no 'p' (so neither "points" nor "ppg"), no 'm' and no 'c'. */
  lemma LakersExampleUnknown()
    ensures Classify("what did the lakers average in 2024?") == Unknown
  {
    var q := "what did the lakers average in 2024?";
    assert forall i :: 0 <= i < |q| ==> q[i] != 'p' && q[i] != 'm' && q[i] != 'c';
    AbsentCharNotContained(q, "points", 0);
    AbsentCharNotContained(q, "ppg", 0);
    AbsentCharNotContained(q, LastGameTriggers[0], 7);
    AbsentCharNotContained(q, LastGameTriggers[1], 2);
    AbsentCharNotContained(q, LastGameTriggers[2], 5);
  }

  /**
   * "What did the Lakers average in 2024?" mentions neither points nor PPG, so
   * the average branch does not fire and the reply is the help text again.
   */
  lemma LakersExampleGetsHelp(teamMap: map<string, int>, store: Tables)
    ensures Chat(teamMap, store, Some(LakersExample)) == Response(200, Answer(HelpText))
  {
    LakersExampleLower();
    LakersExampleUnknown();
  }

  // ---------------------------------------------------------------------
  //  The help text's second example looks up " for the warriors"
  // ---------------------------------------------------------------------

  const WarriorsExample: string := "Last game for the Warriors"

  lemma WarriorsExampleLower()
    ensures Lower(WarriorsExample) == "last game for the warriors"
  {
  }

  /** The lower-cased example has no 'v', so it does not ask for an average. */
  lemma WarriorsExampleClassified()
    ensures Classify("last game for the warriors") == LastGameOf("last game")
  {
    var q := "last game for the warriors";
    assert forall i :: 0 <= i < |q| ==> q[i] != 'v';
    AbsentCharNotContained(q, "average", 1);
    assert OccursAt(q, LastGameTriggers[0], 0);
  }

  lemma OnlyLeadingL()
    ensures forall i :: 0 < i < |"last game for the warriors"| ==> "last game for the warriors"[i] != 'l'
  {
  }

  /** "last game" occurs only at the start, so everything after it is the fragment. */
  lemma WarriorsFragment()
    ensures LastGameFragment("last game for the warriors", "last game") == " for the warriors"
  {
    var q := "last game for the warriors";
    var t := "last game";
    assert OccursAt(q, t, 0);
    var r := LastGameFragment(q, t);
    var k := |q| - |r| - |t|;
    assert q[k..k + |t|] == t;
    assert q[k] == q[k..k + |t|][0] == 'l';
    OnlyLeadingL();
    assert k == 0;
  }

  /** No alias is longer than eight characters. */
  lemma LongKeyNotAnAlias(s: string)
    requires |s| > 8
    ensures s !in Aliases
  {
    assert forall k | k in Aliases :: |k| <= 8;
  }

  /** A lower-case text longer than any alias, after whitespace padding, is looked up as itself. */
  lemma PaddedKey(pad: string, s: string)
    requires AllSpace(pad) && IsLower(pad + s) && |s| > 8
    requires !IsSpace(s[0]) && !IsSpace(s[|s| - 1])
    ensures LookupKey(pad + s) == s
  {
    LowerOfLower(pad + s);
    assert pad + s == pad + s + [];
    StripIgnoresPadding(pad, s, []);
    StripNoSpaceEnds(s);
    LongKeyNotAnAlias(s);
  }

  lemma ForTheWarriorsKey()
    ensures LookupKey(" for the warriors") == "for the warriors"
  {
    assert " for the warriors" == " " + "for the warriors";
    PaddedKey(" ", "for the warriors");
  }

  /**
   * "Last game for the Warriors" looks up "for the warriors", which is not a
   * search key unless some team is called that, so the reply is "Team not recognised.".
   */
  lemma WarriorsExampleNotRecognised(teamMap: map<string, int>, store: Tables)
    requires "for the warriors" !in teamMap
    ensures Chat(teamMap, store, Some(WarriorsExample)) == Response(200, Answer(NotRecognised))
  {
    WarriorsExampleLower();
    WarriorsExampleClassified();
    WarriorsFragment();
    ForTheWarriorsKey();
  }

  // ---------------------------------------------------------------------
  //  Rendering
  // ---------------------------------------------------------------------

  /** Two games of 110 and 120 points average to 115.0. */
  lemma AverageOfTwoGames()
    ensures AvgToString(Some(RoundTenths(230, 2))) == "115.0"
  {
    assert RoundTenths(230, 2) == 1150;
    assert NatToString(115) == "115";
  }

  /** 100, 101 and 101 points average to 100.666..., reported as 100.7. */
  lemma AverageRoundsToTenths()
    ensures AvgToString(Some(RoundTenths(302, 3))) == "100.7"
  {
    assert RoundTenths(302, 3) == 1007;
    assert NatToString(100) == "100";
  }

  // ---------------------------------------------------------------------
  //  "Last game for the Wiz": the filler words stay in the fragment
  // ---------------------------------------------------------------------

  const WizExample: string := "Last game for the Wiz"

  lemma WizExampleLower()
    ensures Lower(WizExample) == "last game for the wiz"
  {
  }

  lemma WizExampleClassified()
    ensures Classify("last game for the wiz") == LastGameOf("last game")
  {
    var q := "last game for the wiz";
    assert forall i :: 0 <= i < |q| ==> q[i] != 'v';
    AbsentCharNotContained(q, "average", 1);
    assert OccursAt(q, LastGameTriggers[0], 0);
  }

  lemma WizOnlyLeadingL()
    ensures forall i :: 0 < i < |"last game for the wiz"| ==> "last game for the wiz"[i] != 'l'
  {
  }

  lemma WizFragment()
    ensures LastGameFragment("last game for the wiz", "last game") == " for the wiz"
  {
    var q := "last game for the wiz";
    var t := "last game";
    assert OccursAt(q, t, 0);
    var r := LastGameFragment(q, t);
    var k := |q| - |r| - |t|;
    assert q[k..k + |t|] == t;
    assert q[k] == q[k..k + |t|][0] == 'l';
    WizOnlyLeadingL();
    assert k == 0;
  }

  lemma ForTheWizKey()
    ensures LookupKey(" for the wiz") == "for the wiz"
  {
    assert " for the wiz" == " " + "for the wiz";
    PaddedKey(" ", "for the wiz");
  }

  /**
   * "Last game for the Wiz" looks up "for the wiz": the alias "wiz" is never
   * consulted, so the reply is "Team not recognised." unless some team has
   * that search key.
   */
  lemma WizExampleNotRecognised(teamMap: map<string, int>, store: Tables)
    requires "for the wiz" !in teamMap
    ensures Chat(teamMap, store, Some(WizExample)) == Response(200, Answer(NotRecognised))
  {
    WizExampleLower();
    WizExampleClassified();
    WizFragment();
    ForTheWizKey();
  }

  // ---------------------------------------------------------------------
  //  No trigger at all
  // ---------------------------------------------------------------------

  /** "asdf" matches no trigger and gets the help text, whatever the store holds. */
  lemma NoTriggerGetsHelp(teamMap: map<string, int>, store: Tables)
    ensures Chat(teamMap, store, Some("asdf")) == Response(200, Answer(HelpText))
  {
    var q := "asdf";
    assert Lower(q) == q;
    AbsentCharNotContained(q, "average", 1);
    AbsentCharNotContained(q, LastGameTriggers[0], 0);
    AbsentCharNotContained(q, LastGameTriggers[1], 0);
    AbsentCharNotContained(q, LastGameTriggers[2], 0);
  }

  // ---------------------------------------------------------------------
  //  "average points for Atlantis": an unknown team is a 200 answer
  // ---------------------------------------------------------------------

  const AtlantisQuestion: string := "average points for atlantis"

  /** With no token from `i` on, the scan keeps the rest of the text. */
  lemma {:induction false} NoTokensFrom(q: string, i: nat)
    requires i <= |q|
    requires forall j :: i <= j < |q| ==> TokenLen(q, j) == 0
    ensures RemoveFrom(q, i) == q[i..]
    decreases |q| - i
  {
    if i < |q| {
      NoTokensFrom(q, i + 1);
      assert q[i..] == [q[i]] + q[i + 1..];
    }
  }

  lemma AtlantisTailHasNoTokens()
    ensures forall j :: 14 <= j < |AtlantisQuestion| ==> TokenLen(AtlantisQuestion, j) == 0
  {
    var q := AtlantisQuestion;
    forall j | 14 <= j < |q| ensures TokenLen(q, j) == 0 {
      assert !IsDigit(q[j]);
      assert q[j] != 'p';
      MismatchNotOccurs(q, "points", j, 0);
      MismatchNotOccurs(q, "ppg", j, 0);
      if q[j] != 'a' {
        MismatchNotOccurs(q, "average", j, 0);
      } else if j + 7 <= |q| {
        assert q[j + 1] != 'v';
        MismatchNotOccurs(q, "average", j, 1);
      }
    }
  }

  lemma AtlantisPoints()
    ensures TokenLen(AtlantisQuestion, 8) == 6
  {
    var q := AtlantisQuestion;
    MismatchNotOccurs(q, "average", 8, 0);
    assert OccursAt(q, "points", 8);
    assert !IsWordChar(q[14]);
  }

  lemma AtlantisAverage()
    ensures TokenLen(AtlantisQuestion, 0) == 7
  {
    var q := AtlantisQuestion;
    assert q[0..7] == "average";
    assert !IsWordChar(q[7]);
  }

  lemma AtlantisSpace()
    ensures TokenLen(AtlantisQuestion, 7) == 0
  {
    assert IsWordChar(AtlantisQuestion[6]);
  }

  lemma AtlantisStep0()
    ensures RemoveFrom(AtlantisQuestion, 0) == RemoveFrom(AtlantisQuestion, 7)
  {
    AtlantisAverage();
  }

  lemma AtlantisStep7()
    ensures RemoveFrom(AtlantisQuestion, 7) == [AtlantisQuestion[7]] + RemoveFrom(AtlantisQuestion, 8)
  {
    AtlantisSpace();
  }

  lemma AtlantisStep8()
    ensures RemoveFrom(AtlantisQuestion, 8) == AtlantisQuestion[14..]
  {
    AtlantisPoints();
    AtlantisTailHasNoTokens();
    NoTokensFrom(AtlantisQuestion, 14);
  }

  lemma AtlantisTail()
    ensures [AtlantisQuestion[7]] + AtlantisQuestion[14..] == "  " + "for atlantis" + ""
  {
  }

  lemma AtlantisRemoved()
    ensures RemoveFrom(AtlantisQuestion, 0) == "  " + "for atlantis" + ""
  {
    AtlantisStep0();
    AtlantisStep7();
    AtlantisStep8();
    AtlantisTail();
  }

  lemma AtlantisStripped()
    ensures Strip("  " + "for atlantis" + "") == "for atlantis"
  {
    StripIgnoresPadding("  ", "for atlantis", "");
    StripNoSpaceEnds("for atlantis");
  }

  lemma AtlantisFragment()
    ensures TeamFragment(AtlantisQuestion) == "for atlantis"
  {
    AtlantisRemoved();
    AtlantisStripped();
  }

  lemma AtlantisClassified()
    ensures Classify(AtlantisQuestion) == AveragePoints
    ensures FindYear(AtlantisQuestion) == None
  {
    var q := AtlantisQuestion;
    assert OccursAt(q, "average", 0);
    assert OccursAt(q, "points", 8);
    forall i | 0 <= i ensures !YearAt(q, i) {
      if 0 <= i < |q| {
        assert !IsDigit(q[i]);
      }
    }
  }

  lemma AtlantisKey()
    ensures LookupKey("for atlantis") == "for atlantis"
  {
    assert "for atlantis" == "" + "for atlantis";
    PaddedKey("", "for atlantis");
  }

  lemma AtlantisLower()
    ensures QuestionText(Some(AtlantisQuestion)) == AtlantisQuestion
  {
    assert Lower(AtlantisQuestion) == AtlantisQuestion;
  }

  lemma AtlantisUnresolved(teamMap: map<string, int>)
    requires "for atlantis" !in teamMap
    ensures ResolveTeam(teamMap, TeamFragment(AtlantisQuestion)).None?
  {
    AtlantisFragment();
    AtlantisKey();
  }

  /**
   * "average points for Atlantis" with a games table and no team keyed
   * "for atlantis" is answered "Team not recognised." with status 200.
   */
  lemma UnknownTeamIsNotAnError(teamMap: map<string, int>, store: Tables)
    requires GamesOf(store).Some? && "for atlantis" !in teamMap
    ensures Chat(teamMap, store, Some(AtlantisQuestion)) == Response(200, Answer(NotRecognised))
  {
    var q := AtlantisQuestion;
    AtlantisLower();
    AtlantisClassified();
    AtlantisUnresolved(teamMap);
    UnknownTeamAverage(teamMap, store, q);
  }

  // ---------------------------------------------------------------------
  //  A Lakers average over a home and an away game
  // ---------------------------------------------------------------------

  const Lakers: int := 1610612747

  function TwoLakersGames(): seq<Game> {
    [Game("0022300061", "2023-10-24", Lakers, 1610612743, 110, 119, 2024),
     Game("0022300077", "2023-10-26", 1610612756, Lakers, 95, 120, 2024)]
  }

  lemma TwoLakersGamesTotals()
    ensures Appearances(TwoLakersGames(), Lakers, 2024) == 2
    ensures SeasonTotal(TwoLakersGames(), Lakers, 2024) == 230
  {
    var gs := TwoLakersGames();
    assert gs[..1][..0] == [];
    assert gs[..1] == [gs[0]];
  }

  /** A home game of 110 and an away game of 120 in 2024 average 115.0, printed as "115.0". */
  lemma LakersAverage()
    ensures AvgTenths(TwoLakersGames(), Lakers, 2024) == Some(1150)
    ensures AvgToString(AvgTenths(TwoLakersGames(), Lakers, 2024)) == "115.0"
  {
    TwoLakersGamesTotals();
    assert TwoLakersGames()[0].season == 2024 && Involves(TwoLakersGames()[0], Lakers);
    AverageOfTwoGames();
  }
}
