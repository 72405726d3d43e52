/**
 * Intent matching for the /chat endpoint: the ordered trigger tests, the
 * season year `\b(20\d{2})\b`, the team fragment left after
 * `re.sub(r"\b(average|points|ppg|\d{4})\b", "", q)`, and the last-game
 * fragment `q.split(trigger)[-1]`. Word characters are ASCII letters, digits
 * and `_`.
 */
module Matcher {
  import opened Wrappers
  import opened Text

  /** The three outcomes of classification, first match wins. */
  datatype Intent = AveragePoints | LastGameOf(trigger: string) | Unknown

  predicate AverageTriggered(q: string) {
    Contains(q, "average") && (Contains(q, "points") || Contains(q, "ppg"))
  }

  /** The last-game trigger phrases, in the order they are tried. */
  const LastGameTriggers: seq<string> := ["last game", "recent result", "last match"]

  /** The index of the first phrase of `ts` that occurs in `q`. */
  function FirstContained(q: string, ts: seq<string>): (r: Option<nat>)
    ensures r.Some? ==> r.value < |ts| && Contains(q, ts[r.value]) &&
                        forall j :: 0 <= j < r.value ==> !Contains(q, ts[j])
    ensures r.None? <==> forall j :: 0 <= j < |ts| ==> !Contains(q, ts[j])
    decreases |ts|
  {
    if |ts| == 0 then None
    else if Contains(q, ts[0]) then Some(0)
    else
      match FirstContained(q, ts[1..])
      case None => None
      case Some(k) => Some(k + 1)
  }

  /** `LastGameTriggers[j]` is the first phrase of the tuple that occurs in `q`. */
  predicate FirstTrigger(q: string, j: int) {
    0 <= j < 3 && Contains(q, LastGameTriggers[j]) && forall k :: 0 <= k < j ==> !Contains(q, LastGameTriggers[k])
  }

  lemma FirstTriggerUnique(q: string, j1: int, j2: int)
    requires FirstTrigger(q, j1) && FirstTrigger(q, j2)
    ensures j1 == j2
  {
  }

  /**
   * Classification of a lower-cased question: the average test first, then any
   * last-game phrase (reporting the first in tuple order), else unknown.
   */
  function Classify(q: string): (r: Intent)
    ensures r == AveragePoints <==> AverageTriggered(q)
    ensures r.LastGameOf? <==> !AverageTriggered(q) && exists j :: 0 <= j < 3 && Contains(q, LastGameTriggers[j])
    ensures r.LastGameOf? ==> exists j :: FirstTrigger(q, j) && r.trigger == LastGameTriggers[j]
    ensures r == Unknown <==> !AverageTriggered(q) && forall j :: 0 <= j < 3 ==> !Contains(q, LastGameTriggers[j])
  {
    if AverageTriggered(q) then AveragePoints
    else
      match FirstContained(q, LastGameTriggers)
      case Some(k) => LastGameOf(LastGameTriggers[k])
      case None => Unknown
  }

  // ---------------------------------------------------------------------
  //  Season year: re.search(r"\b(20\d{2})\b", q)
  // ---------------------------------------------------------------------

  /** Position `j` is outside `q` or holds a non-word character, so a word boundary sits next to it. */
  predicate NonWordAt(q: string, j: int) {
    j < 0 || j >= |q| || !IsWordChar(q[j])
  }

  /** A standalone `20dd` token starts at `i`. */
  predicate YearAt(q: string, i: int) {
    0 <= i && i + 4 <= |q| && q[i] == '2' && q[i + 1] == '0' && IsDigit(q[i + 2]) && IsDigit(q[i + 3]) &&
    NonWordAt(q, i - 1) && NonWordAt(q, i + 4)
  }

  function YearFrom(q: string, i: nat): (r: Option<nat>)
    ensures r.Some? ==> i <= r.value && YearAt(q, r.value) && forall j :: i <= j < r.value ==> !YearAt(q, j)
    ensures r.None? ==> forall j :: i <= j ==> !YearAt(q, j)
    decreases |q| - i
  {
    if i + 4 > |q| then None
    else if YearAt(q, i) then Some(i)
    else YearFrom(q, i + 1)
  }

  /** `int(m.group())` for the leftmost standalone `20dd` token, or None when there is none. */
  function FindYear(q: string): (r: Option<int>)
    ensures r.None? <==> forall i :: 0 <= i ==> !YearAt(q, i)
    ensures r.Some? ==> 2000 <= r.value <= 2099
    ensures r.Some? ==>
              exists i :: YearAt(q, i) && (forall j :: 0 <= j < i ==> !YearAt(q, j)) &&
                          r.value == 2000 + 10 * DigitValue(q[i + 2]) + DigitValue(q[i + 3])
  {
    match YearFrom(q, 0)
    case None => None
    case Some(i) => Some(2000 + 10 * DigitValue(q[i + 2]) + DigitValue(q[i + 3]))
  }

  // ---------------------------------------------------------------------
  //  Team fragment: re.sub(r"\b(average|points|ppg|\d{4})\b", "", q).strip()
  // ---------------------------------------------------------------------

  predicate FourDigitsAt(q: string, i: int) {
    0 <= i && i + 4 <= |q| && IsDigit(q[i]) && IsDigit(q[i + 1]) && IsDigit(q[i + 2]) && IsDigit(q[i + 3])
  }

  predicate AllWordChars(t: string) {
    forall k :: 0 <= k < |t| ==> IsWordChar(t[k])
  }

  lemma WordOccurrence(q: string, t: string, i: int)
    requires OccursAt(q, t, i) && AllWordChars(t)
    ensures forall k :: i <= k < i + |t| ==> IsWordChar(q[k])
  {
    forall k | i <= k < i + |t| ensures IsWordChar(q[k]) {
      assert q[i + (k - i)] == t[k - i];
    }
  }

  /**
   * The length of the token the pattern removes at `i`, or 0 when it matches
   * nothing there. All alternatives start with a word character and differ
   * early, so at most one can match at a position.
   */
  function TokenLen(q: string, i: int): (n: nat)
    ensures n > 0 ==> 0 <= i && i + n <= |q| && NonWordAt(q, i - 1) && NonWordAt(q, i + n)
    ensures n > 0 ==> forall k :: i <= k < i + n ==> IsWordChar(q[k])
  {
    TokenWords();
    if !(0 <= i < |q|) || !NonWordAt(q, i - 1) then 0
    else if OccursAt(q, "average", i) && NonWordAt(q, i + 7) then
      WordOccurrence(q, "average", i);
      7
    else if OccursAt(q, "points", i) && NonWordAt(q, i + 6) then
      WordOccurrence(q, "points", i);
      6
    else if OccursAt(q, "ppg", i) && NonWordAt(q, i + 3) then
      WordOccurrence(q, "ppg", i);
      3
    else if FourDigitsAt(q, i) && NonWordAt(q, i + 4) then
      DigitsAreWordChars(q, i);
      4
    else 0
  }

  /** No token starts right after a word character. */
  lemma NoTokenAfterWordChar(q: string, j: int)
    requires 0 < j <= |q| && IsWordChar(q[j - 1])
    ensures TokenLen(q, j) == 0
  {
  }

  lemma TokenWords()
    ensures AllWordChars("average") && AllWordChars("points") && AllWordChars("ppg")
  {
  }

  lemma DigitsAreWordChars(q: string, i: int)
    requires FourDigitsAt(q, i)
    ensures forall k :: i <= k < i + 4 ==> IsWordChar(q[k])
  {
  }

  /** re.sub scanning `q` from `i`: a match is dropped and scanning resumes after it, otherwise one character is kept. */
  function RemoveFrom(q: string, i: nat): (r: string)
    ensures |r| <= |q| - i || i > |q|
    decreases |q| - i
  {
    if i >= |q| then []
    else
      var n := TokenLen(q, i);
      if n > 0 then RemoveFrom(q, i + n) else [q[i]] + RemoveFrom(q, i + 1)
  }

  /** The text the average branch resolves as a team. */
  function TeamFragment(q: string): string {
    Strip(RemoveFrom(q, 0))
  }

  /** Position `k` lies inside some standalone token of the pattern. */
  predicate Covered(q: string, k: int) {
    exists j :: 0 <= j <= k && k < j + TokenLen(q, j)
  }

  /** The characters of `q` from `i` on that no standalone token covers, in order. */
  function Kept(q: string, i: nat): string
    decreases |q| - i
  {
    if i >= |q| then [] else (if Covered(q, i) then [] else [q[i]]) + Kept(q, i + 1)
  }

  /** No token that starts before `i` reaches `i`. */
  predicate NotInside(q: string, i: int) {
    forall j :: 0 <= j < i ==> TokenLen(q, j) <= i - j
  }

  lemma {:induction false} KeptSkipsCovered(q: string, i: nat, n: nat)
    requires i + n <= |q|
    requires forall k :: i <= k < i + n ==> Covered(q, k)
    ensures Kept(q, i) == Kept(q, i + n)
    decreases n
  {
    if n > 0 {
      KeptSkipsOne(q, i);
      KeptSkipsCovered(q, i + 1, n - 1);
    }
  }

  lemma KeptSkipsOne(q: string, i: nat)
    requires i < |q| && Covered(q, i)
    ensures Kept(q, i) == Kept(q, i + 1)
  {
  }

  /** A token found at `i` is dropped whole, and no token straddles its end. */
  lemma TokenSkipped(q: string, i: nat)
    requires i < |q| && NotInside(q, i) && TokenLen(q, i) > 0
    ensures Kept(q, i) == Kept(q, i + TokenLen(q, i))
    ensures NotInside(q, i + TokenLen(q, i))
  {
    var n := TokenLen(q, i);
    forall j | i < j < i + n ensures TokenLen(q, j) == 0 {
      NoTokenAfterWordChar(q, j);
    }
    forall k | i <= k < i + n ensures Covered(q, k) {
      assert i <= k < i + TokenLen(q, i);
    }
    KeptSkipsCovered(q, i, n);
  }

  /** Scanning from a position no token straddles yields exactly the uncovered characters. */
  lemma {:induction false} RemoveFromIsKept(q: string, i: nat)
    requires i <= |q| && NotInside(q, i)
    ensures RemoveFrom(q, i) == Kept(q, i)
    decreases |q| - i
  {
    if i < |q| {
      var n := TokenLen(q, i);
      if n > 0 {
        TokenSkipped(q, i);
        RemoveFromIsKept(q, i + n);
      } else {
        assert !Covered(q, i);
        RemoveFromIsKept(q, i + 1);
      }
    }
  }

  /**
   * The regex substitution removes exactly the characters lying inside a
   * standalone "average", "points", "ppg" or four-digit token and keeps every
   * other character in order.
   */
  lemma RemovesExactlyTheTokens(q: string)
    ensures RemoveFrom(q, 0) == Kept(q, 0)
  {
    RemoveFromIsKept(q, 0);
  }

  // ---------------------------------------------------------------------
  //  Last-game fragment: q.split(trigger)[-1]
  // ---------------------------------------------------------------------

  /** The text after the last occurrence of the trigger: it never contains the trigger and, when the trigger occurs, directly follows one. */
  function LastGameFragment(q: string, trigger: string): (r: string)
    requires |trigger| > 0
    ensures !Contains(r, trigger)
    ensures |r| <= |q| && r == q[|q| - |r|..]
    ensures Contains(q, trigger) ==> |trigger| <= |q| - |r| && q[|q| - |r| - |trigger|..|q| - |r|] == trigger
  {
    FragmentLacksTrigger(q, trigger);
    FragmentFollowsTrigger(q, trigger);
    LastPiece(q, trigger, 0)
  }

  lemma FragmentLacksTrigger(q: string, trigger: string)
    requires |trigger| > 0
    ensures !Contains(LastPiece(q, trigger, 0), trigger)
  {
    var p := PieceStart(q, trigger, 0);
    var r := q[p..];
    LastPieceSplit(q, trigger, 0);
    forall j | 0 <= j <= |r| - |trigger| ensures !OccursAt(r, trigger, j) {
      assert r[j..j + |trigger|] == q[p + j..p + j + |trigger|];
      assert !OccursAt(q, trigger, p + j);
    }
  }

  lemma FragmentFollowsTrigger(q: string, trigger: string)
    requires |trigger| > 0
    ensures var r := LastPiece(q, trigger, 0);
            Contains(q, trigger) ==> |trigger| <= |q| - |r| && q[|q| - |r| - |trigger|..|q| - |r|] == trigger
  {
    LastPieceSplit(q, trigger, 0);
    if Contains(q, trigger) {
      var i :| 0 <= i <= |q| - |trigger| && OccursAt(q, trigger, i);
      FindFromFirst(q, trigger, 0, i);
      assert FindFrom(q, trigger, 0).Some?;
    }
  }
}
