/**
 * The string operations the service relies on, restricted to ASCII where Python's
 * own definitions reach into Unicode: `str.lower`, `str.strip`, `str.isspace`,
 * substring tests, `str.split(sep)[-1]`, `str(int)` and `int(str)`, and the
 * byte-wise text ordering SQLite uses for `ORDER BY` on text columns.
 */
module Text {
  import opened Wrappers

  /** `str.isspace()` for ASCII characters (space, \t \n \v \f \r and \x1c-\x1f). */
  predicate IsSpace(c: char) {
    c == ' ' || ('\U{9}' <= c <= '\U{D}') || ('\U{1C}' <= c <= '\U{1F}')
  }

  predicate IsDigit(c: char) { '0' <= c <= '9' }

  /** The regex class `\w`, taken as ASCII letters, digits and `_`. */
  predicate IsWordChar(c: char) {
    IsDigit(c) || ('a' <= c <= 'z') || ('A' <= c <= 'Z') || c == '_'
  }

  predicate NoSpace(s: string) { forall i :: 0 <= i < |s| ==> !IsSpace(s[i]) }

  predicate AllSpace(s: string) { forall i :: 0 <= i < |s| ==> IsSpace(s[i]) }

  function LowerChar(c: char): (d: char)
    ensures IsSpace(d) <==> IsSpace(c)
    ensures !('A' <= d <= 'Z')
    ensures !('A' <= c <= 'Z') ==> d == c
  {
    if 'A' <= c <= 'Z' then (c as int + 32) as char else c
  }

  /** `str.lower()` on ASCII letters; every other character is kept. */
  function Lower(s: string): (r: string)
    ensures |r| == |s|
    ensures forall i :: 0 <= i < |s| ==> r[i] == LowerChar(s[i])
  {
    seq(|s|, i requires 0 <= i < |s| => LowerChar(s[i]))
  }

  predicate IsLower(s: string) { forall i :: 0 <= i < |s| ==> !('A' <= s[i] <= 'Z') }

  lemma LowerOfLower(s: string)
    requires IsLower(s)
    ensures Lower(s) == s
  {
  }

  /** `str.lstrip()`: drops the leading whitespace. */
  function LStrip(s: string): (r: string)
    ensures |r| <= |s| && r == s[|s| - |r|..]
    ensures AllSpace(s[..|s| - |r|])
    ensures r == [] || !IsSpace(r[0])
    decreases |s|
  {
    if |s| > 0 && IsSpace(s[0]) then LStrip(s[1..]) else s
  }

  /** `str.rstrip()`: drops the trailing whitespace. */
  function RStrip(s: string): (r: string)
    ensures |r| <= |s| && r == s[..|r|]
    ensures AllSpace(s[|r|..])
    ensures r == [] || !IsSpace(r[|r| - 1])
    decreases |s|
  {
    if |s| > 0 && IsSpace(s[|s| - 1]) then RStrip(s[..|s| - 1]) else s
  }

  /** `str.strip()` with no argument. */
  function Strip(s: string): string {
    RStrip(LStrip(s))
  }

  lemma {:induction false} LStripSpacePrefix(w: string, x: string)
    requires AllSpace(w)
    ensures LStrip(w + x) == LStrip(x)
    decreases |w|
  {
    if |w| > 0 {
      assert (w + x)[1..] == w[1..] + x;
      LStripSpacePrefix(w[1..], x);
    } else {
      assert w + x == x;
    }
  }

  lemma {:induction false} RStripSpaceSuffix(x: string, w: string)
    requires AllSpace(w)
    ensures RStrip(x + w) == RStrip(x)
    decreases |w|
  {
    if |w| > 0 {
      assert (x + w)[..|x + w| - 1] == x + w[..|w| - 1];
      RStripSpaceSuffix(x, w[..|w| - 1]);
    } else {
      assert x + w == x;
    }
  }

  /** Stripping a string that is padded with whitespace on both sides gives the same as stripping the unpadded one. */
  lemma {:induction false} StripIgnoresPadding(w1: string, x: string, w2: string)
    requires AllSpace(w1) && AllSpace(w2)
    ensures Strip(w1 + x + w2) == Strip(x)
  {
    assert w1 + x + w2 == w1 + (x + w2);
    LStripSpacePrefix(w1, x + w2);
    var l := LStrip(x);
    if l == [] {
      assert AllSpace(x);
      assert AllSpace(x + w2);
      AllSpaceLStrip(x + w2);
    } else {
      LStripKeepsTail(x, w2);
      RStripSpaceSuffix(l, w2);
    }
  }

  lemma {:induction false} AllSpaceLStrip(s: string)
    requires AllSpace(s)
    ensures LStrip(s) == []
    decreases |s|
  {
    if |s| > 0 { AllSpaceLStrip(s[1..]); }
  }

  lemma {:induction false} LStripKeepsTail(x: string, w: string)
    requires LStrip(x) != []
    ensures LStrip(x + w) == LStrip(x) + w
    decreases |x|
  {
    if IsSpace(x[0]) {
      assert (x + w)[1..] == x[1..] + w;
      LStripKeepsTail(x[1..], w);
    }
  }

  /** A string with no whitespace at either end is its own strip. */
  lemma StripNoSpaceEnds(s: string)
    requires s == [] || (!IsSpace(s[0]) && !IsSpace(s[|s| - 1]))
    ensures Strip(s) == s
  {
  }

  /** `t` occurs in `s` at position `i`. */
  predicate OccursAt(s: string, t: string, i: int) {
    0 <= i && i + |t| <= |s| && forall k :: 0 <= k < |t| ==> s[i + k] == t[k]
  }

  /** Python's `t in s`. */
  predicate Contains(s: string, t: string) {
    exists i | 0 <= i <= |s| - |t| :: OccursAt(s, t, i)
  }

  /** The first position at or after `start` where `t` occurs in `s`. */
  function FindFrom(s: string, t: string, start: nat): (r: Option<nat>)
    ensures r.Some? ==> start <= r.value && OccursAt(s, t, r.value)
    decreases |s| - start
  {
    if start + |t| > |s| then None
    else if OccursAt(s, t, start) then Some(start)
    else FindFrom(s, t, start + 1)
  }

  /** `FindFrom` finds the first occurrence, and finds none only when there is none. */
  lemma {:induction false} FindFromFirst(s: string, t: string, start: nat, j: int)
    requires start <= j
    ensures FindFrom(s, t, start).Some? && j < FindFrom(s, t, start).value ==> !OccursAt(s, t, j)
    ensures FindFrom(s, t, start).None? ==> !OccursAt(s, t, j)
    decreases |s| - start
  {
    if start + |t| <= |s| && !OccursAt(s, t, start) && start < j {
      FindFromFirst(s, t, start + 1, j);
    }
  }

  /**
   * Where `s[start..].split(t)[-1]` begins: Python's split scans left to
   * right for non-overlapping occurrences of `t`, and the last piece is what
   * follows the last occurrence it finds.
   */
  function PieceStart(s: string, t: string, start: nat): (p: nat)
    requires |t| > 0 && start <= |s|
    ensures start <= p <= |s|
    decreases |s| - start
  {
    match FindFrom(s, t, start)
    case None => start
    case Some(i) => PieceStart(s, t, i + |t|)
  }

  /** `s[start..].split(t)[-1]`. */
  function LastPiece(s: string, t: string, start: nat): string
    requires |t| > 0 && start <= |s|
  {
    s[PieceStart(s, t, start)..]
  }

  /** No occurrence of `t` starts inside the last piece. */
  lemma {:induction false} PieceHasNoOccurrence(s: string, t: string, start: nat, j: int)
    requires |t| > 0 && start <= |s| && PieceStart(s, t, start) <= j
    ensures !OccursAt(s, t, j)
    decreases |s| - start
  {
    var f := FindFrom(s, t, start);
    if f.Some? {
      PieceHasNoOccurrence(s, t, f.value + |t|, j);
    } else {
      FindFromFirst(s, t, start, j);
    }
  }

  /** One step of the split: the piece starts after the occurrence found from `start`. */
  lemma PieceStep(s: string, t: string, start: nat)
    requires |t| > 0 && start <= |s| && FindFrom(s, t, start).Some?
    ensures PieceStart(s, t, start) == PieceStart(s, t, FindFrom(s, t, start).value + |t|)
  {
  }

  /** With no further occurrence, the piece starts right after the one found. */
  lemma PieceStepLast(s: string, t: string, start: nat)
    requires |t| > 0 && start <= |s| && FindFrom(s, t, start).Some?
    requires FindFrom(s, t, FindFrom(s, t, start).value + |t|).None?
    ensures PieceStart(s, t, start) == FindFrom(s, t, start).value + |t|
  {
    PieceStep(s, t, start);
  }

  /** When `t` occurs from `start` on, the last piece starts after an occurrence's length. */
  lemma {:induction false} PieceAfterBound(s: string, t: string, start: nat)
    requires |t| > 0 && start <= |s| && FindFrom(s, t, start).Some?
    ensures start + |t| <= PieceStart(s, t, start)
    decreases |s| - start
  {
    var i := FindFrom(s, t, start).value;
    if FindFrom(s, t, i + |t|).Some? {
      PieceStep(s, t, start);
      PieceAfterBound(s, t, i + |t|);
    } else {
      PieceStepLast(s, t, start);
    }
  }

  /** When `t` occurs from `start` on, the last piece directly follows an occurrence. */
  lemma {:induction false} PieceAfterOccurrence(s: string, t: string, start: nat)
    requires |t| > 0 && start <= |s| && FindFrom(s, t, start).Some?
    ensures OccursAt(s, t, PieceStart(s, t, start) - |t|)
    decreases |s| - start
  {
    var i := FindFrom(s, t, start).value;
    if FindFrom(s, t, i + |t|).Some? {
      PieceStep(s, t, start);
      PieceAfterOccurrence(s, t, i + |t|);
    } else {
      PieceStepLast(s, t, start);
      assert PieceStart(s, t, start) - |t| == i;
    }
  }

  /**
   * The last piece holds no occurrence of `t`, and when `t` occurs from
   * `start` on, the piece directly follows an occurrence.
   */
  lemma LastPieceSplit(s: string, t: string, start: nat)
    requires |t| > 0 && start <= |s|
    ensures forall j :: PieceStart(s, t, start) <= j ==> !OccursAt(s, t, j)
    ensures FindFrom(s, t, start).Some? ==>
              start + |t| <= PieceStart(s, t, start) && OccursAt(s, t, PieceStart(s, t, start) - |t|)
  {
    forall j | PieceStart(s, t, start) <= j ensures !OccursAt(s, t, j) {
      PieceHasNoOccurrence(s, t, start, j);
    }
    if FindFrom(s, t, start).Some? {
      PieceAfterBound(s, t, start);
      PieceAfterOccurrence(s, t, start);
    }
  }

  /** A string that lacks one of the characters of `t` does not contain `t`. */
  lemma AbsentCharNotContained(s: string, t: string, k: int)
    requires 0 <= k < |t|
    requires forall i :: 0 <= i < |s| ==> s[i] != t[k]
    ensures !Contains(s, t)
  {
    forall i | 0 <= i <= |s| - |t| ensures !OccursAt(s, t, i) {
      MismatchNotOccurs(s, t, i, k);
    }
  }

  /** One mismatching character rules out an occurrence. */
  lemma MismatchNotOccurs(s: string, t: string, i: int, k: int)
    requires 0 <= k < |t| && 0 <= i + k < |s| && s[i + k] != t[k]
    ensures !OccursAt(s, t, i)
  {
  }

  /** `str.rstrip(c)` for a single character `c`. */
  function RStripChar(s: string, c: char): (r: string)
    ensures |r| <= |s| && r == s[..|r|]
    ensures forall i :: |r| <= i < |s| ==> s[i] == c
    ensures r == [] || r[|r| - 1] != c
    decreases |s|
  {
    if |s| > 0 && s[|s| - 1] == c then RStripChar(s[..|s| - 1], c) else s
  }

  /** `re.sub(r"\s+", "_", s)`: each maximal run of whitespace becomes one underscore. */
  function ReplaceSpaceRuns(s: string): (r: string)
    ensures NoSpace(r)
    ensures NoSpace(s) ==> r == s
    ensures IsLower(s) ==> IsLower(r)
    decreases |s|
  {
    if |s| == 0 then []
    else if IsSpace(s[0]) then "_" + ReplaceSpaceRuns(LStrip(s))
    else [s[0]] + ReplaceSpaceRuns(s[1..])
  }

  /** The last whitespace-separated word of `s`, i.e. `s.split()[-1]`, defined when `s.split()` is not empty. */
  predicate HasWord(s: string) { RStrip(s) != [] }

  function TrailingNonSpace(s: string): (r: string)
    ensures |r| <= |s| && r == s[|s| - |r|..]
    ensures NoSpace(r)
    ensures |r| < |s| ==> IsSpace(s[|s| - |r| - 1])
    decreases |s|
  {
    if |s| == 0 || IsSpace(s[|s| - 1]) then [] else TrailingNonSpace(s[..|s| - 1]) + [s[|s| - 1]]
  }

  function LastWord(s: string): (r: string)
    requires HasWord(s)
    ensures r != [] && NoSpace(r)
    ensures var t := RStrip(s);
      |r| <= |t| && r == t[|t| - |r|..] && (|r| < |t| ==> IsSpace(t[|t| - |r| - 1]))
  {
    TrailingNonSpace(RStrip(s))
  }

  // ---------------------------------------------------------------------
  //  Integers as text: str(n) and int(s)
  // ---------------------------------------------------------------------

  function DigitChar(d: nat): (c: char)
    requires d < 10
    ensures IsDigit(c)
  {
    ('0' as int + d) as char
  }

  function DigitValue(c: char): nat
    requires IsDigit(c)
  {
    c as int - '0' as int
  }

  /** `str(n)` for a natural number: the decimal digits of `n`, with no leading zero. */
  function NatToString(n: nat): (r: string)
    ensures |r| > 0 && AllDigits(r)
    ensures r[|r| - 1] == DigitChar(n % 10)
    ensures DigitsValue(r) == n
    ensures r[0] == '0' <==> n == 0
    decreases n
  {
    if n < 10 then [DigitChar(n)]
    else
      var p := NatToString(n / 10);
      var r := p + [DigitChar(n % 10)];
      assert r[..|r| - 1] == p;
      r
  }

  /** `str(i)` for any integer. */
  function IntToString(i: int): (r: string)
    ensures |r| > 0 && !IsSpace(r[0]) && !IsSpace(r[|r| - 1])
  {
    if i < 0 then "-" + NatToString(-i) else NatToString(i)
  }

  predicate AllDigits(s: string) { forall i :: 0 <= i < |s| ==> IsDigit(s[i]) }

  /** The value of a string of decimal digits. */
  function DigitsValue(s: string): nat
    requires AllDigits(s)
    decreases |s|
  {
    if |s| == 0 then 0 else DigitsValue(s[..|s| - 1]) * 10 + DigitValue(s[|s| - 1])
  }

  /**
   * `int(s)` for ASCII input: surrounding whitespace, an optional sign and at
   * least one decimal digit; None where Python raises ValueError.
   */
  function ParseInt(s: string): (r: Option<int>)
  {
    var t := Strip(s);
    if |t| > 0 && (t[0] == '-' || t[0] == '+') then
      if |t| > 1 && AllDigits(t[1..]) then
        var v: int := DigitsValue(t[1..]);
        Some(if t[0] == '-' then -v else v)
      else None
    else if |t| > 0 && AllDigits(t) then Some(DigitsValue(t))
    else None
  }

  /** `int(str(i)) == i`. */
  lemma IntToStringRoundTrip(i: int)
    ensures ParseInt(IntToString(i)) == Some(i)
  {
    var s := IntToString(i);
    StripNoSpaceEnds(s);
    if i < 0 {
      assert s[1..] == NatToString(-i);
    }
  }

  /** For n >= 10 the last two characters of str(n) are its tens and units digits. */
  lemma NatToStringLastTwo(n: nat)
    requires n >= 10
    ensures var s := NatToString(n);
      |s| >= 2 && s[|s| - 2..] == [DigitChar((n / 10) % 10), DigitChar(n % 10)]
  {
    var s := NatToString(n);
    var p := NatToString(n / 10);
    assert s == p + [DigitChar(n % 10)];
    assert s[|s| - 2] == p[|p| - 1];
  }

  // ---------------------------------------------------------------------
  //  Text ordering (SQLite BINARY collation, Python string comparison)
  // ---------------------------------------------------------------------

  /** `a` sorts strictly before `b`: lexicographic on characters, a proper prefix first. */
  predicate Less(a: string, b: string)
    decreases |a|
  {
    if |a| == 0 then |b| > 0
    else if |b| == 0 then false
    else if a[0] != b[0] then a[0] < b[0]
    else Less(a[1..], b[1..])
  }

  lemma {:induction false} LessIrreflexive(a: string)
    ensures !Less(a, a)
    decreases |a|
  {
    if |a| > 0 { LessIrreflexive(a[1..]); }
  }

  lemma {:induction false} LessAsymmetric(a: string, b: string)
    requires Less(a, b)
    ensures !Less(b, a)
    decreases |a|
  {
    if |a| > 0 && a[0] == b[0] { LessAsymmetric(a[1..], b[1..]); }
  }

  lemma {:induction false} LessTransitive(a: string, b: string, c: string)
    requires Less(a, b) && Less(b, c)
    ensures Less(a, c)
    decreases |a|
  {
    if |a| > 0 && a[0] == b[0] && b[0] == c[0] { LessTransitive(a[1..], b[1..], c[1..]); }
  }

  lemma {:induction false} LessTotal(a: string, b: string)
    requires a != b
    ensures Less(a, b) || Less(b, a)
    decreases |a|
  {
    if |a| > 0 && |b| > 0 && a[0] == b[0] {
      assert a == [a[0]] + a[1..] && b == [b[0]] + b[1..];
      LessTotal(a[1..], b[1..]);
    }
  }
}
