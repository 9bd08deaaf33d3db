/**
 * The e-mail check `validarEmail`: the string must match the regular
 * expression `^[^\s@]+@[^\s@]+\.[^\s@]+$` in full.
 *
 * ValidarEmail is the language of that expression, written as "there is an
 * '@' and a literal '.' splitting the string into three non-empty runs of
 * `[^\s@]`". ValidarEmailCharacterised proves it equal to a description that
 * does not mention the split: exactly one '@', no whitespace, a non-empty
 * local part, and a dot strictly inside the domain.
 */
module EmailValidation {

  /** The characters `\s` matches in an ECMAScript regular expression: the
      WhiteSpace and LineTerminator code points of ECMA-262. */
  predicate IsRegexSpace(c: char) {
    || c == '\t' || c == '\n' || c == '\U{000B}' || c == '\U{000C}' || c == '\r'
    || c == ' ' || c == '\U{00A0}' || c == '\U{1680}'
    || ('\U{2000}' <= c <= '\U{200A}')
    || c == '\U{2028}' || c == '\U{2029}' || c == '\U{202F}' || c == '\U{205F}'
    || c == '\U{3000}' || c == '\U{FEFF}'
  }

  /** The character class `[^\s@]`. */
  predicate IsPartChar(c: char) {
    !IsRegexSpace(c) && c != '@'
  }

  /** `[^\s@]+`: a non-empty run of part characters. */
  predicate IsPart(s: string) {
    |s| > 0 && forall k :: 0 <= k < |s| ==> IsPartChar(s[k])
  }

  /** The expression matches `s` with its '@' at index `at` and its literal
      '.' at index `dot`. */
  predicate MatchesAt(s: string, at: int, dot: int) {
    && 0 <= at < dot < |s|
    && s[at] == '@' && s[dot] == '.'
    && IsPart(s[..at]) && IsPart(s[at + 1..dot]) && IsPart(s[dot + 1..])
  }

  /** `validarEmail(email)`: `regex.test(email)` for the anchored expression,
      which succeeds iff some choice of '@' and '.' positions matches. */
  predicate ValidarEmail(email: string): (r: bool)
    ensures r ==> 5 <= |email| && '@' in email && '.' in email
  {
    exists at, dot | 0 <= at < dot < |email| :: MatchesAt(email, at, dot)
  }

  // ---------------------------------------------------------------------
  // A description of the accepted strings that does not speak of the split
  // ---------------------------------------------------------------------

  predicate NoRegexSpace(s: string) {
    forall k :: 0 <= k < |s| ==> !IsRegexSpace(s[k])
  }

  /** `i` is the position of the one and only '@' of `s`. */
  predicate OnlyAtSignAt(s: string, i: int) {
    0 <= i < |s| && s[i] == '@' && forall k :: 0 <= k < |s| && s[k] == '@' ==> k == i
  }

  /** The part of `s` after the '@' at `i` has a '.' that is neither its
      first nor its last character. */
  predicate DomainHasInnerDot(s: string, i: int) {
    exists k | 0 <= i + 1 < k < |s| - 1 :: s[k] == '.'
  }

  predicate WellFormedAddress(s: string) {
    NoRegexSpace(s) && exists i | 0 <= i < |s| :: OnlyAtSignAt(s, i) && 0 < i && DomainHasInnerDot(s, i)
  }

  lemma MatchSplitsString(s: string, at: int, dot: int)
    requires MatchesAt(s, at, dot)
    ensures NoRegexSpace(s) && OnlyAtSignAt(s, at)
    ensures 0 < at && at + 1 < dot < |s| - 1
  {
    forall k | 0 <= k < |s| && k != at
      ensures IsPartChar(s[k])
    {
      if k < at {
        assert s[k] == s[..at][k];
      } else if at < k < dot {
        assert s[k] == s[at + 1..dot][k - at - 1];
      } else if k > dot {
        assert s[k] == s[dot + 1..][k - dot - 1];
      }
    }
  }

  lemma SplitMatches(s: string, i: int, dot: int)
    requires NoRegexSpace(s) && OnlyAtSignAt(s, i) && 0 < i
    requires i + 1 < dot < |s| - 1 && s[dot] == '.'
    ensures MatchesAt(s, i, dot)
  {
    var local, domain, top := s[..i], s[i + 1..dot], s[dot + 1..];
    forall j | 0 <= j < |local| ensures IsPartChar(local[j]) {
      assert local[j] == s[j];
    }
    forall j | 0 <= j < |domain| ensures IsPartChar(domain[j]) {
      assert domain[j] == s[i + 1 + j];
    }
    forall j | 0 <= j < |top| ensures IsPartChar(top[j]) {
      assert top[j] == s[dot + 1 + j];
    }
  }

  /** The expression accepts exactly the strings with one '@', no
      whitespace, a non-empty part before the '@', and a '.' strictly
      between the first and last characters of the part after it. */
  lemma ValidarEmailCharacterised(s: string)
    ensures ValidarEmail(s) <==> WellFormedAddress(s)
  {
    if ValidarEmail(s) {
      var at, dot :| 0 <= at < dot < |s| && MatchesAt(s, at, dot);
      MatchSplitsString(s, at, dot);
    }
    if WellFormedAddress(s) {
      var i :| 0 <= i < |s| && OnlyAtSignAt(s, i) && 0 < i && DomainHasInnerDot(s, i);
      var dot :| i + 1 < dot < |s| - 1 && s[dot] == '.';
      SplitMatches(s, i, dot);
    }
  }

  // ---------------------------------------------------------------------
  // Strings `validarEmail` rejects
  // ---------------------------------------------------------------------

  lemma NoAtSignRejected(s: string)
    requires '@' !in s
    ensures !ValidarEmail(s)
  {
    ValidarEmailCharacterised(s);
  }

  lemma TwoAtSignsRejected(s: string, i: int, j: int)
    requires 0 <= i < j < |s| && s[i] == '@' && s[j] == '@'
    ensures !ValidarEmail(s)
  {
    ValidarEmailCharacterised(s);
  }

  lemma WhitespaceRejected(s: string, k: int)
    requires 0 <= k < |s| && IsRegexSpace(s[k])
    ensures !ValidarEmail(s)
  {
    ValidarEmailCharacterised(s);
  }

  /** An '@' after which every '.' is the first or the last character of the
      rest of the string (in particular a domain whose only dot starts or
      ends it, or a domain with no dot) is rejected. */
  lemma DomainEdgeDotRejected(s: string, i: int)
    requires 0 <= i < |s| && s[i] == '@'
    requires forall k :: i < k < |s| && s[k] == '.' ==> k == i + 1 || k == |s| - 1
    ensures !ValidarEmail(s)
  {
    ValidarEmailCharacterised(s);
  }

  lemma EmptyLocalPartRejected(s: string)
    requires |s| > 0 && s[0] == '@'
    ensures !ValidarEmail(s)
  {
    ValidarEmailCharacterised(s);
  }

  /** The typical address is accepted. */
  lemma TypicalAccepted()
    ensures ValidarEmail("lacid@ifs.edu.br")
  {
    assert MatchesAt("lacid@ifs.edu.br", 5, 9);
  }

  /** Two addresses the expression lets through because `[^\s@]` includes
      '.'. */
  lemma StrayDotsAccepted()
    ensures ValidarEmail("a@b..c") && ValidarEmail("a@.b.c")
  {
    assert MatchesAt("a@b..c", 1, 4);
    assert MatchesAt("a@.b.c", 1, 4);
  }

  /** An address without a domain dot and one with a space. */
  lemma RejectedSamples()
    ensures !ValidarEmail("lacid@ifs") && !ValidarEmail("a @b.c")
  {
    DomainEdgeDotRejected("lacid@ifs", 5);
    WhitespaceRejected("a @b.c", 1);
  }

  /** Sample addresses: a typical one, one without a domain dot, one with a
      space, and two the expression lets through because `[^\s@]` includes
      '.'. */
  lemma Samples()
    ensures ValidarEmail("lacid@ifs.edu.br")
    ensures ValidarEmail("a@b..c") && ValidarEmail("a@.b.c")
    ensures !ValidarEmail("lacid@ifs") && !ValidarEmail("a @b.c")
  {
    TypicalAccepted();
    StrayDotsAccepted();
    RejectedSamples();
  }
}
