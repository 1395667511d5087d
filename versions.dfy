/**
 * Version.java: a version expression as the caller wrote it, the token that is sent to
 * the registry, and the concrete version the registry later reports.
 */
module Versions {
  import opened Wrappers
  import opened SemverPattern

  /**
   * `minimalVersion` is unset (None, Java's null) until a registry lookup succeeds;
   * `searchExpression` is never exposed to callers of the service.
   */
  datatype Version = Version(minimalVersion: Option<string>, originalExpression: string, searchExpression: string)

  /**
   * Version.valueOf: an empty expression is rejected; otherwise the search token is the
   * first match of the semantic-version pattern, or the whole expression when there is none.
   */
  function ValueOf(expression: string): (r: Result<Version, Error>)
    ensures r.Failure? <==> expression == ""
    ensures r.Failure? ==> r.error == EmptyVersion
    ensures r.Success? ==> r.value.originalExpression == expression && r.value.minimalVersion == None
    ensures r.Success? ==> r.value.searchExpression == expression || |r.value.searchExpression| < |expression|
  {
    if expression == "" then
      Failure(EmptyVersion)
    else
      match Find(expression)
      case Some((b, e)) =>
        assert |expression[b..e]| < |expression| || expression[b..e] == expression;
        Success(Version(None, expression, expression[b..e]))
      case None => Success(Version(None, expression, expression))
  }

  /** When the pattern occurs, the search token is its leftmost, longest occurrence. */
  lemma SearchExpressionOfMatch(s: string, i: nat, k: nat)
    requires LeftmostLongest(s, i, k)
    ensures ValueOf(s) == Success(Version(None, s, s[i..k]))
  {
    FindIsLeftmostLongest(s);
    var (b, e) := Find(s).value;
    LeftmostLongestUnique(s, i, k, b, e);
  }

  /** When the pattern does not occur, the expression is sent to the registry unchanged. */
  lemma SearchExpressionWithoutMatch(s: string)
    requires s != "" && NoOccurrence(s)
    ensures ValueOf(s) == Success(Version(None, s, s))
  {
    FindIsLeftmostLongest(s);
  }

  /** The shape of a member of the pattern's language, read off the substring itself. */
  lemma SubstringShape(s: string, i: nat, k: nat)
    requires SemVerAt(s, i, k)
    ensures i <= k <= |s|
    ensures var t := s[i..k];
      && |t| >= 5 && IsDigit(t[0])
      && (exists p: nat, q: nat :: 0 < p < q < |t| && t[p] == '.' && t[q] == '.')
      && (forall x :: 0 <= x < |t| ==> IsSearchChar(t[x]))
  {
    SemVerShape(s, i, k);
    var t := s[i..k];
    var p: nat, q: nat :| i < p < q < k && s[p] == '.' && s[q] == '.';
    assert t[p - i] == '.' && t[q - i] == '.';
    forall x | 0 <= x < |t|
      ensures IsSearchChar(t[x])
    {
      assert t[x] == s[i + x];
    }
  }

  /**
   * A search token that was found in the expression is a contiguous piece of it that
   * starts with a digit, holds at least two dots and uses only digits, lower-case letters,
   * '.', '-', '+' and '*'.
   */
  lemma SearchExpressionShape(s: string)
    requires s != "" && !NoOccurrence(s)
    ensures ValueOf(s).Success?
    ensures var t := ValueOf(s).value.searchExpression;
      && (exists i: nat, k: nat :: i <= k <= |s| && t == s[i..k])
      && |t| >= 5 && IsDigit(t[0])
      && (exists p: nat, q: nat :: 0 < p < q < |t| && t[p] == '.' && t[q] == '.')
      && (forall x :: 0 <= x < |t| ==> IsSearchChar(t[x]))
  {
    FindIsLeftmostLongest(s);
    var (i, k) := Find(s).value;
    SubstringShape(s, i, k);
    assert ValueOf(s).value.searchExpression == s[i..k];
  }

  // Worked cases of the search, including those that alternative order and the missing
  // anchor decide.

  lemma CaretRangeExample()
    ensures ValueOf("^1.2.3").value.searchExpression == "1.2.3"
  {
    CaretRangeMatches();
    assert FindFrom("^1.2.3", 1) == Some((1, 6));
  }

  lemma CaretRangeMatches()
    ensures MatchEnd("^1.2.3", 0) == None
    ensures MatchEnd("^1.2.3", 1) == Some(6)
  {
    MatchEndUnfold("^1.2.3", 1, 2, 4, 6);
  }

  lemma PreReleaseAndBuildExample()
    ensures ValueOf("~1.2.3-beta.1+b2").value.searchExpression == "1.2.3-beta.1+b2"
  {
    var s := "~1.2.3-beta.1+b2";
    PreReleaseAndBuildMatches();
    assert FindFrom(s, 1) == Some((1, 16));
    assert Find(s) == Some((1, 16));
    PreReleaseAndBuildToken();
  }

  lemma PreReleaseAndBuildToken()
    ensures "~1.2.3-beta.1+b2"[1..16] == "1.2.3-beta.1+b2"
  {
  }

  lemma PreReleaseAndBuildMatches()
    ensures MatchEnd("~1.2.3-beta.1+b2", 0) == None
    ensures MatchEnd("~1.2.3-beta.1+b2", 1) == Some(16)
  {
    var s := "~1.2.3-beta.1+b2";
    PreReleaseAndBuildNumbers();
    PreReleaseAndBuildSegments();
    MatchEndUnfold(s, 1, 2, 4, 6);
  }

  lemma PreReleaseAndBuildNumbers()
    ensures NumEnd("~1.2.3-beta.1+b2", 1) == Some(2)
    ensures NumEnd("~1.2.3-beta.1+b2", 3) == Some(4)
    ensures PatchEnd("~1.2.3-beta.1+b2", 5) == Some(6)
  {
  }

  lemma PreReleaseAndBuildSegments()
    ensures SegmentEnd("~1.2.3-beta.1+b2", 6, '-') == 13
    ensures SegmentEnd("~1.2.3-beta.1+b2", 13, '+') == 16
  {
    var s := "~1.2.3-beta.1+b2";
    assert RunEnd(s, 7, IsIdentChar) == 11;
    assert RunEnd(s, 12, IsIdentChar) == 13;
    assert DotIdentsEnd(s, 13) == 13;
    assert RunEnd(s, 14, IsIdentChar) == 16;
  }

  lemma TagExample()
    ensures ValueOf("latest").value.searchExpression == "latest"
  {
  }

  lemma PartialRangeExample()
    ensures ValueOf("^1.2").value.searchExpression == "^1.2"
  {
  }

  /** `0` is tried before `[1-9]\d*`, and nothing anchors the end: "1.2.05" yields "1.2.0". */
  lemma LeadingZeroPatchExample()
    ensures ValueOf("1.2.05").value.searchExpression == "1.2.0"
  {
    LeadingZeroPatchMatches();
  }

  lemma LeadingZeroPatchMatches()
    ensures MatchEnd("1.2.05", 0) == Some(5)
  {
    MatchEndUnfold("1.2.05", 0, 1, 3, 5);
  }

  /** Nothing anchors the start: "01.2.3" yields "1.2.3". */
  lemma LeadingZeroMajorExample()
    ensures ValueOf("01.2.3").value.searchExpression == "1.2.3"
  {
    LeadingZeroMajorMatches();
    assert FindFrom("01.2.3", 1) == Some((1, 6));
    assert Find("01.2.3") == Some((1, 6));
  }

  lemma LeadingZeroMajorMatches()
    ensures MatchEnd("01.2.3", 0) == None
    ensures MatchEnd("01.2.3", 1) == Some(6)
  {
    assert NumEnd("01.2.3", 0) == Some(1);
    MatchEndUnfold("01.2.3", 1, 2, 4, 6);
  }

  /** A leading zero in the minor number leaves no match at all. */
  lemma LeadingZeroMinorExample()
    ensures ValueOf("1.02.3").value.searchExpression == "1.02.3"
  {
    LeadingZeroMinorMisses();
    assert FindFrom("1.02.3", 0) == None;
  }

  lemma LeadingZeroMinorMisses()
    ensures forall i :: 0 <= i <= 6 ==> MatchEnd("1.02.3", i) == None
  {
    var s := "1.02.3";
    assert NumEnd(s, 2) == Some(3) && s[3] != '.';
    assert NumEnd(s, 0) == Some(1) && NumEnd(s, 2) == Some(3);
    assert MatchEnd(s, 0) == None && MatchEnd(s, 2) == None;
  }

  /** The pre-release class is lower case only, so an upper-case tag is dropped. */
  lemma UpperCasePreReleaseExample()
    ensures ValueOf("1.2.3-Beta").value.searchExpression == "1.2.3"
  {
    UpperCasePreReleaseMatches();
  }

  lemma UpperCasePreReleaseMatches()
    ensures MatchEnd("1.2.3-Beta", 0) == Some(5)
  {
    var s := "1.2.3-Beta";
    assert SegmentEnd(s, 5, '-') == 5;
    assert SegmentEnd(s, 5, '+') == 5;
    MatchEndUnfold(s, 0, 1, 3, 5);
  }
}
