/** The check that a definition name is well formed: lower-case letters,
    digits and hyphens, starting with a letter. */
module DefinitionName {

  predicate IsLowerLetter(c: char) {
    'a' <= c <= 'z'
  }

  /** The characters the pattern allows after the first one. */
  predicate IsNameChar(c: char) {
    IsLowerLetter(c) || '0' <= c <= '9' || c == '-'
  }

  /** The length of the longest run of name characters starting at `i`:
      how far the greedy `[a-z0-9-]+` part of the pattern reaches. */
  function NameCharRun(s: string, i: nat): (n: nat)
    requires i <= |s|
    ensures i + n <= |s|
    ensures forall k :: i <= k < i + n ==> IsNameChar(s[k])
    ensures i + n == |s| || !IsNameChar(s[i + n])
    decreases |s| - i
  {
    if i == |s| || !IsNameChar(s[i]) then 0 else 1 + NameCharRun(s, i + 1)
  }

  /** The check as written: `re.search` with `^[a-z][a-z0-9-]+$`. Python's
      `$` matches at the very end or just before a newline that ends the
      string, so the run may stop one character short of the end when
      that character is a newline. */
  predicate MatchesNamePattern(s: string) {
    |s| >= 1 && IsLowerLetter(s[0]) &&
    var n := NameCharRun(s, 1);
    n >= 1 && (1 + n == |s| || (2 + n == |s| && s[|s| - 1] == '\n'))
  }

  /** The check as evidently intended: the pattern must cover the whole
      name (a full match), so the run must reach the end. */
  predicate IsValidDefinitionName(s: string) {
    |s| >= 1 && IsLowerLetter(s[0]) &&
    var n := NameCharRun(s, 1);
    n >= 1 && 1 + n == |s|
  }

  /** A name is accepted iff it starts with a lower-case letter, every later
      character is a lower-case letter, a digit or a hyphen, and there is at
      least one later character. */
  lemma DefinitionNameAcceptedIff(s: string)
    ensures IsValidDefinitionName(s) <==>
      |s| >= 2 && IsLowerLetter(s[0]) && forall k :: 1 <= k < |s| ==> IsNameChar(s[k])
  {
    if |s| >= 2 && IsLowerLetter(s[0]) && forall k :: 1 <= k < |s| ==> IsNameChar(s[k]) {
      var n := NameCharRun(s, 1);
      assert 1 + n == |s|;
    }
  }

  /** The pattern as written accepts exactly the valid names and the valid
      names followed by one newline. */
  lemma PatternAcceptsTrailingNewline(s: string)
    ensures MatchesNamePattern(s) <==>
      IsValidDefinitionName(s) ||
      (|s| >= 1 && s[|s| - 1] == '\n' && IsValidDefinitionName(s[..|s| - 1]))
  {
    if |s| >= 1 && s[|s| - 1] == '\n' {
      var t := s[..|s| - 1];
      if |t| >= 1 {
        RunOfPrefix(s, t, 1);
      }
    }
    if IsValidDefinitionName(s) {
      assert MatchesNamePattern(s);
    }
  }

  /** Dropping a final newline does not change a run that stopped at it. */
  lemma {:induction false} RunOfPrefix(s: string, t: string, i: nat)
    requires |s| >= 1 && s[|s| - 1] == '\n' && t == s[..|s| - 1] && i <= |t|
    ensures NameCharRun(s, i) == NameCharRun(t, i)
    decreases |t| - i
  {
    if i < |t| && IsNameChar(t[i]) {
      RunOfPrefix(s, t, i + 1);
    }
  }

  /** A concrete name the check as written lets through although it is not
      made only of letters, digits and hyphens. */
  lemma TrailingNewlineAccepted()
    ensures MatchesNamePattern("ab\n")
    ensures !IsValidDefinitionName("ab\n")
  {
    assert NameCharRun("ab\n", 2) == 0;
    assert NameCharRun("ab\n", 1) == 1;
  }

}
