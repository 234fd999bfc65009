/**
 The two regular expressions the registration serializer applies, written as
 recursive predicates that follow how a backtracking matcher reads them, next
 to plain characterisations of the strings they accept.

 Character classes are ASCII: `\d` is taken to mean `0`-`9`.
 */
module Patterns {

  predicate IsLower(c: char) { 'a' <= c <= 'z' }
  predicate IsUpper(c: char) { 'A' <= c <= 'Z' }
  predicate IsDigit(c: char) { '0' <= c <= '9' }

  /** `[a-zA-Z\d]` */
  predicate IsAlnum(c: char) { IsLower(c) || IsUpper(c) || IsDigit(c) }

  /** `[-_]` */
  predicate IsSeparator(c: char) { c == '-' || c == '_' }

  /** `[a-zA-Z\d*]`: the class of the final run, where `*` is a literal. */
  predicate InFinalRun(c: char) { IsAlnum(c) || c == '*' }

  // ---------------------------------------------------------------------------
  // Password strength: ^(?=.*[a-z])(?=.*[A-Z])(?=.*\d) with re.search

  datatype CharClass = Lowercase | Uppercase | Digit

  predicate InClass(c: char, k: CharClass)
  {
    match k
    case Lowercase => IsLower(c)
    case Uppercase => IsUpper(c)
    case Digit => IsDigit(c)
  }

  /**
   The lookahead `(?=.*X)` tried at the start of `s`: `.*` runs over characters
   other than a newline, then one character of class `X` must follow.
   */
  predicate LookaheadMatches(s: string, k: CharClass)
    decreases |s|
  {
    |s| > 0 && s[0] != '\n' && (InClass(s[0], k) || LookaheadMatches(s[1..], k))
  }

  /** The whole pattern: `^` anchors all three lookaheads at position 0. */
  predicate StrengthPatternMatches(s: string)
  {
    LookaheadMatches(s, Lowercase) && LookaheadMatches(s, Uppercase) && LookaheadMatches(s, Digit)
  }

  /** Some character of class `k` occurs in the first line of `s`. */
  ghost predicate OccursBeforeNewline(s: string, k: CharClass)
  {
    exists i :: 0 <= i < |s| && InClass(s[i], k) && '\n' !in s[..i]
  }

  /** Some character of class `k` occurs anywhere in `s`. */
  ghost predicate Occurs(s: string, k: CharClass)
  {
    exists i :: 0 <= i < |s| && InClass(s[i], k)
  }

  /** The lookahead succeeds exactly when a character of the class occurs before the first newline. */
  lemma {:induction false} LookaheadMatchesIff(s: string, k: CharClass)
    ensures LookaheadMatches(s, k) <==> OccursBeforeNewline(s, k)
    decreases |s|
  {
    if |s| == 0 {
    } else if s[0] == '\n' {
    } else {
      var t := s[1..];
      LookaheadMatchesIff(t, k);
      if OccursBeforeNewline(t, k) {
        var i :| 0 <= i < |t| && InClass(t[i], k) && '\n' !in t[..i];
        assert s[..i + 1] == [s[0]] + t[..i];
        assert s[i + 1] == t[i];
      }
      if OccursBeforeNewline(s, k) && !InClass(s[0], k) {
        var i :| 0 <= i < |s| && InClass(s[i], k) && '\n' !in s[..i];
        assert i > 0;
        assert s[..i] == [s[0]] + t[..i - 1];
        assert t[i - 1] == s[i];
        assert OccursBeforeNewline(t, k);
      }
      if InClass(s[0], k) {
        assert s[..0] == [];
      }
    }
  }

  /** Without newlines the lookahead is plain presence of the class, in any position. */
  lemma LookaheadMatchesNewlineFree(s: string, k: CharClass)
    requires '\n' !in s
    ensures LookaheadMatches(s, k) <==> Occurs(s, k)
  {
    LookaheadMatchesIff(s, k);
    if Occurs(s, k) {
      var i :| 0 <= i < |s| && InClass(s[i], k);
      assert forall c :: c in s[..i] ==> c in s;
      assert OccursBeforeNewline(s, k);
    }
  }

  // ---------------------------------------------------------------------------
  // Username format: ^([a-zA-Z\d]+[-_])*[a-zA-Z\d*]+$ with re.match

  /** `[a-zA-Z\d]+` spanning all of `s` */
  predicate IsAlnumRun(s: string)
  {
    |s| > 0 && forall i :: 0 <= i < |s| ==> IsAlnum(s[i])
  }

  /** `[a-zA-Z\d*]+` spanning all of `s` */
  predicate IsFinalRun(s: string)
  {
    |s| > 0 && forall i :: 0 <= i < |s| ==> InFinalRun(s[i])
  }

  /**
   `([a-zA-Z\d]+[-_])*[a-zA-Z\d*]+` spanning all of `s`: either the final run
   alone, or one group followed by a match of the rest.
   */
  predicate MatchesUsernamePattern(s: string)
    decreases |s|, 1
  {
    IsFinalRun(s) || exists k :: 0 < k < |s| && GroupThenMatch(s, k)
  }

  /** `[a-zA-Z\d]+[-_]` spans `s[..k + 1]` and the pattern matches the rest. */
  predicate GroupThenMatch(s: string, k: nat)
    requires 0 < k < |s|
    decreases |s|, 0
  {
    IsAlnumRun(s[..k]) && IsSeparator(s[k]) && MatchesUsernamePattern(s[k + 1..])
  }

  /** `re.match` with `^...$`: `$` also matches just before a newline that ends the string. */
  predicate UsernameRegexMatches(s: string)
  {
    || MatchesUsernamePattern(s)
    || (|s| > 0 && s[|s| - 1] == '\n' && MatchesUsernamePattern(s[..|s| - 1]))
  }

  /**
   The accepted usernames, rule by rule: non-empty; only letters, digits, `-`,
   `_` and `*`; no separator first or last; no two separators side by side;
   and no `*` before any separator (a `*` may appear only in the final run).
   */
  ghost predicate WellFormedUsername(s: string)
  {
    && |s| > 0
    && (forall i :: 0 <= i < |s| ==> IsAlnum(s[i]) || IsSeparator(s[i]) || s[i] == '*')
    && !IsSeparator(s[0])
    && !IsSeparator(s[|s| - 1])
    && (forall i :: 0 < i < |s| && IsSeparator(s[i]) ==> !IsSeparator(s[i - 1]))
    && (forall i, j :: 0 <= i < j < |s| && s[i] == '*' ==> !IsSeparator(s[j]))
  }

  /** The position of the first separator in `s`, or `|s|` when there is none. */
  function FirstSeparator(s: string): (k: nat)
    ensures k <= |s|
    ensures k < |s| ==> IsSeparator(s[k])
    ensures forall i :: 0 <= i < k ==> !IsSeparator(s[i])
    decreases |s|
  {
    if |s| == 0 then 0
    else if IsSeparator(s[0]) then 0
    else 1 + FirstSeparator(s[1..])
  }

  /** A group (an alphanumeric run and a separator) in front of a well-formed name keeps it well formed. */
  lemma GroupThenWellFormed(head: string, sep: char, t: string)
    requires IsAlnumRun(head) && IsSeparator(sep) && WellFormedUsername(t)
    ensures WellFormedUsername(head + [sep] + t)
  {
    var s, k := head + [sep] + t, |head|;
    assert forall i :: 0 <= i < k ==> s[i] == head[i];
    assert s[k] == sep;
    assert forall i :: k < i < |s| ==> s[i] == t[i - k - 1];
    forall i | 0 < i < |s| && IsSeparator(s[i])
      ensures !IsSeparator(s[i - 1])
    {
      if i > k + 1 {
        assert IsSeparator(t[i - k - 1]);
      }
    }
    forall i, j | 0 <= i < j < |s| && s[i] == '*'
      ensures !IsSeparator(s[j])
    {
      assert k < i;
      assert t[i - k - 1] == '*';
    }
  }

  /** A suffix of a well-formed name that does not start with a separator is well formed. */
  lemma WellFormedSuffix(s: string, m: nat)
    requires WellFormedUsername(s) && 0 < m < |s| && !IsSeparator(s[m])
    ensures WellFormedUsername(s[m..])
  {
    var t := s[m..];
    assert forall i :: 0 <= i < |t| ==> t[i] == s[i + m];
    forall i | 0 < i < |t| && IsSeparator(t[i])
      ensures !IsSeparator(t[i - 1])
    {
      assert IsSeparator(s[i + m]);
    }
    forall i, j | 0 <= i < j < |t| && t[i] == '*'
      ensures !IsSeparator(t[j])
    {
      assert s[i + m] == '*';
    }
  }

  /** A well-formed name that has a separator splits, at its first one, into a group and a well-formed rest. */
  lemma SplitAtFirstSeparator(s: string, k: nat)
    requires WellFormedUsername(s) && k == FirstSeparator(s) && k < |s|
    ensures 0 < k < |s| - 1
    ensures IsAlnumRun(s[..k]) && IsSeparator(s[k]) && WellFormedUsername(s[k + 1..])
  {
    assert k != 0 && k != |s| - 1;
    var head := s[..k];
    forall i | 0 <= i < k
      ensures IsAlnum(head[i])
    {
      assert head[i] == s[i];
      assert !IsSeparator(s[i]);
      assert s[i] != '*';
    }
    WellFormedSuffix(s, k + 1);
  }

  lemma {:induction false} UsernamePatternSound(s: string)
    requires MatchesUsernamePattern(s)
    ensures WellFormedUsername(s)
    decreases |s|
  {
    if IsFinalRun(s) {
      assert forall i :: 0 <= i < |s| ==> !IsSeparator(s[i]);
    } else {
      var k :| 0 < k < |s| && GroupThenMatch(s, k);
      UsernamePatternSound(s[k + 1..]);
      GroupThenWellFormed(s[..k], s[k], s[k + 1..]);
      assert s == s[..k] + [s[k]] + s[k + 1..];
    }
  }

  lemma {:induction false} UsernamePatternComplete(s: string)
    requires WellFormedUsername(s)
    ensures MatchesUsernamePattern(s)
    decreases |s|
  {
    var k := FirstSeparator(s);
    if k == |s| {
      assert IsFinalRun(s);
    } else {
      SplitAtFirstSeparator(s, k);
      UsernamePatternComplete(s[k + 1..]);
      assert GroupThenMatch(s, k);
    }
  }

  /** The username pattern accepts exactly the well-formed usernames. */
  lemma UsernamePatternIff(s: string)
    ensures MatchesUsernamePattern(s) <==> WellFormedUsername(s)
  {
    if MatchesUsernamePattern(s) { UsernamePatternSound(s); }
    if WellFormedUsername(s) { UsernamePatternComplete(s); }
  }

  /** For a name without newlines the regex accepts exactly the well-formed usernames. */
  lemma UsernameRegexNewlineFree(s: string)
    ensures '\n' !in s ==> (UsernameRegexMatches(s) <==> WellFormedUsername(s))
  {
    UsernamePatternIff(s);
    if |s| > 0 {
      assert s[|s| - 1] in s;
    }
  }

  /** Names made only of digits pass the format check, whatever its message says. */
  lemma AllDigitUsernameAccepted(s: string)
    requires |s| > 0 && forall i :: 0 <= i < |s| ==> IsDigit(s[i])
    ensures UsernameRegexMatches(s)
  {
    UsernamePatternComplete(s);
  }

  /** A `*` is allowed in the final run, after the last separator. */
  lemma StarInFinalRunAccepted()
    ensures UsernameRegexMatches("ab-c*")
    ensures !UsernameRegexMatches("a*-b")
  {
    var good, bad := "ab-c*", "a*-b";
    assert WellFormedUsername(good) by {
      assert good[2] == '-';
      assert forall i :: 0 <= i < |good| && IsSeparator(good[i]) ==> i == 2;
    }
    UsernamePatternComplete(good);
    if MatchesUsernamePattern(bad) {
      UsernamePatternSound(bad);
      assert bad[1] == '*' && IsSeparator(bad[2]);
      assert false;
    }
    if |bad| > 0 && bad[|bad| - 1] == '\n' {
      assert false;
    }
  }
}
