/**
 * The semantic-version pattern that Version.valueOf searches for:
 *
 *   (0|[1-9]\d*) \. (0|[1-9]\d*) \. (0|[1-9]\d*|\*)
 *   (-[\da-z-]+(\.[\da-z-]+)*)? (\+[\da-z-]+(\.[\da-z-]+)*)?
 *
 * The grammar is stated twice: declaratively (which substrings s[i..k] belong to the
 * pattern's language) and as the deterministic matcher a backtracking engine runs
 * (alternatives in order, greedy quantifiers). The lemmas show that the matcher finds
 * the leftmost position where the language occurs at all, and there the longest
 * member of the language, which is what an unanchored `find` returns for this pattern.
 */
module SemverPattern {
  import opened Wrappers

  predicate IsDigit(c: char) { '0' <= c <= '9' }

  predicate IsNonZeroDigit(c: char) { '1' <= c <= '9' }

  /** The class `[\da-z-]` of pre-release and build identifiers: lower case only. */
  predicate IsIdentChar(c: char) { IsDigit(c) || ('a' <= c <= 'z') || c == '-' }

  /** Every character a match can contain. */
  predicate IsSearchChar(c: char) { IsIdentChar(c) || c == '.' || c == '+' || c == '*' }

  // ---------------------------------------------------------------------------
  // The language of the pattern, by positions in s
  // ---------------------------------------------------------------------------

  /** s[i..j] is `0|[1-9]\d*`. */
  ghost predicate NumAt(s: string, i: nat, j: nat) {
    i < j <= |s| &&
    ((s[i] == '0' && j == i + 1) ||
     (IsNonZeroDigit(s[i]) && forall k :: i < k < j ==> IsDigit(s[k])))
  }

  /** s[i..j] is `0|[1-9]\d*|\*`. */
  ghost predicate PatchAt(s: string, i: nat, j: nat) {
    NumAt(s, i, j) || (j == i + 1 && j <= |s| && s[i] == '*')
  }

  /** s[i..j] is `[\da-z-]+(\.[\da-z-]+)*`: identifiers separated by single dots. */
  ghost predicate IdentListAt(s: string, i: nat, j: nat) {
    i < j <= |s| && s[i] != '.' && s[j - 1] != '.' &&
    (forall k :: i <= k < j ==> IsIdentChar(s[k]) || s[k] == '.') &&
    (forall k :: i <= k < j - 1 && s[k] == '.' ==> s[k + 1] != '.')
  }

  /** s[i..j] is `(lead[\da-z-]+(\.[\da-z-]+)*)?`. */
  ghost predicate SegmentAt(s: string, i: nat, j: nat, lead: char) {
    j <= |s| && (i == j || (i < j && s[i] == lead && IdentListAt(s, i + 1, j)))
  }

  /** s[i..k] is the whole pattern, split at the given component boundaries. */
  ghost predicate SplitAt(s: string, i: nat, p1: nat, p2: nat, p3: nat, p4: nat, k: nat) {
    NumAt(s, i, p1) && p1 < |s| && s[p1] == '.' &&
    NumAt(s, p1 + 1, p2) && p2 < |s| && s[p2] == '.' &&
    PatchAt(s, p2 + 1, p3) && SegmentAt(s, p3, p4, '-') && SegmentAt(s, p4, k, '+')
  }

  /** s[i..k] belongs to the language of the pattern. */
  ghost predicate SemVerAt(s: string, i: nat, k: nat) {
    exists p1: nat, p2: nat, p3: nat, p4: nat :: SplitAt(s, i, p1, p2, p3, p4, k)
  }

  /** No substring of s belongs to the language. */
  ghost predicate NoOccurrence(s: string) {
    forall j: nat, k: nat :: j <= k <= |s| ==> !SemVerAt(s, j, k)
  }

  /** s[i..k] is the leftmost occurrence and, at that start, the longest one. */
  ghost predicate LeftmostLongest(s: string, i: nat, k: nat) {
    i <= k <= |s| && SemVerAt(s, i, k) &&
    (forall j: nat, m: nat :: j < i && j <= m <= |s| ==> !SemVerAt(s, j, m)) &&
    (forall m: nat :: k < m <= |s| ==> !SemVerAt(s, i, m))
  }

  // ---------------------------------------------------------------------------
  // The matcher
  // ---------------------------------------------------------------------------

  /** The end of the longest run of characters of a class starting at i (a greedy `*`). */
  function RunEnd(s: string, i: nat, inClass: char -> bool): (e: nat)
    requires i <= |s|
    ensures i <= e <= |s|
    ensures forall k :: i <= k < e ==> inClass(s[k])
    ensures e == |s| || !inClass(s[e])
    decreases |s| - i
  {
    if i < |s| && inClass(s[i]) then RunEnd(s, i + 1, inClass) else i
  }

  /** `0|[1-9]\d*` at i: the first alternative wins on a '0', the second is greedy. */
  function NumEnd(s: string, i: nat): (r: Option<nat>)
    requires i <= |s|
    ensures r.Some? ==> NumAt(s, i, r.value)
    ensures r.None? ==> forall j: nat :: !NumAt(s, i, j)
  {
    if i < |s| && s[i] == '0' then Some(i + 1)
    else if i < |s| && IsNonZeroDigit(s[i]) then Some(RunEnd(s, i + 1, IsDigit))
    else None
  }

  /** `0|[1-9]\d*|\*` at i. */
  function PatchEnd(s: string, i: nat): (r: Option<nat>)
    requires i <= |s|
    ensures r.Some? ==> PatchAt(s, i, r.value)
    ensures r.None? ==> forall j: nat :: !PatchAt(s, i, j)
  {
    match NumEnd(s, i)
    case Some(e) => Some(e)
    case None => if i < |s| && s[i] == '*' then Some(i + 1) else None
  }

  /** `(\.[\da-z-]+)*` at i, greedy: a dot is taken only when an identifier follows. */
  function DotIdentsEnd(s: string, i: nat): (e: nat)
    requires i <= |s|
    ensures i <= e <= |s|
    decreases |s| - i
  {
    if i + 1 < |s| && s[i] == '.' && IsIdentChar(s[i + 1]) then
      DotIdentsEnd(s, RunEnd(s, i + 1, IsIdentChar))
    else
      i
  }

  /** `(lead[\da-z-]+(\.[\da-z-]+)*)?` at i, greedy; empty when lead is not followed by an identifier. */
  function SegmentEnd(s: string, i: nat, lead: char): (e: nat)
    requires i <= |s|
    ensures i <= e <= |s|
    ensures e > i ==> s[i] == lead
  {
    if i + 1 < |s| && s[i] == lead && IsIdentChar(s[i + 1]) then
      DotIdentsEnd(s, RunEnd(s, i + 1, IsIdentChar))
    else
      i
  }

  /** `major.minor.patch` anchored at i: the end of the patch number, if the three numbers match. */
  function NumbersEnd(s: string, i: nat): (r: Option<nat>)
    requires i <= |s|
    ensures r.Some? ==> i < r.value <= |s|
  {
    match NumEnd(s, i)
    case None => None
    case Some(p1) =>
      if p1 < |s| && s[p1] == '.' then
        match NumEnd(s, p1 + 1)
        case None => None
        case Some(p2) => if p2 < |s| && s[p2] == '.' then PatchEnd(s, p2 + 1) else None
      else None
  }

  /** The match of the whole pattern anchored at i, as the engine's first successful path finds it. */
  function MatchEnd(s: string, i: nat): (r: Option<nat>)
    requires i <= |s|
    ensures r.Some? ==> i < r.value <= |s|
  {
    match NumbersEnd(s, i)
    case None => None
    case Some(p3) => Some(SegmentEnd(s, SegmentEnd(s, p3, '-'), '+'))
  }

  /** Unanchored search from i: the first start position at which the pattern matches. */
  function FindFrom(s: string, i: nat): (r: Option<(nat, nat)>)
    requires i <= |s|
    ensures r.Some? ==> i <= r.value.0 < r.value.1 <= |s| && MatchEnd(s, r.value.0) == Some(r.value.1)
    ensures r.Some? ==> forall j: nat :: i <= j < r.value.0 ==> MatchEnd(s, j).None?
    ensures r.None? ==> forall j: nat :: i <= j <= |s| ==> MatchEnd(s, j).None?
    decreases |s| - i
  {
    match MatchEnd(s, i)
    case Some(e) => Some((i, e))
    case None =>
      if i == |s| then None
      else
        var r := FindFrom(s, i + 1);
        assert forall j: nat :: i <= j < i + 1 ==> MatchEnd(s, j).None?;
        r
  }

  /** `Matcher.find()` on the whole input: the (start, end) of the match, if any. */
  function Find(s: string): (r: Option<(nat, nat)>)
  {
    FindFrom(s, 0)
  }

  // ---------------------------------------------------------------------------
  // The matcher agrees with the language
  // ---------------------------------------------------------------------------

  /** The greedy number covers every number that starts at i, and only overshoots over digits. */
  lemma NumEndCovers(s: string, i: nat, j: nat)
    requires NumAt(s, i, j)
    ensures NumEnd(s, i).Some? && NumEnd(s, i).value >= j
    ensures NumEnd(s, i).value > j ==> IsDigit(s[j])
  {
  }

  lemma PatchEndCovers(s: string, i: nat, j: nat)
    requires PatchAt(s, i, j)
    ensures PatchEnd(s, i).Some? && PatchEnd(s, i).value >= j
    ensures PatchEnd(s, i).value > j ==> IsDigit(s[j])
  {
    if NumAt(s, i, j) {
      NumEndCovers(s, i, j);
    }
  }

  /** The greedy dot-identifier loop stays inside the language of identifier lists. */
  lemma {:induction false} DotIdentsSound(s: string, a: nat, x: nat)
    requires IdentListAt(s, a, x)
    ensures IdentListAt(s, a, DotIdentsEnd(s, x))
    decreases |s| - x
  {
    if x + 1 < |s| && s[x] == '.' && IsIdentChar(s[x + 1]) {
      var y := RunEnd(s, x + 1, IsIdentChar);
      assert IdentListAt(s, a, y) by {
        forall k | a <= k < y - 1 && s[k] == '.'
          ensures s[k + 1] != '.'
        {
          if k < x - 1 {
          } else if k == x - 1 {
            assert false;
          }
        }
      }
      DotIdentsSound(s, a, y);
    }
  }

  /**
   * From the end x of an identifier inside the list s[a..b], the greedy loop reaches at
   * least b.
   */
  lemma {:induction false} DotIdentsCovers(s: string, a: nat, b: nat, x: nat)
    requires IdentListAt(s, a, b)
    requires a < x <= |s|
    requires x == |s| || !IsIdentChar(s[x])
    ensures DotIdentsEnd(s, x) >= b
    decreases |s| - x
  {
    if x < b {
      assert s[x] == '.';
      assert x + 1 < b;
      assert IsIdentChar(s[x + 1]);
      var y := RunEnd(s, x + 1, IsIdentChar);
      DotIdentsCovers(s, a, b, y);
    }
  }

  lemma SegmentSound(s: string, i: nat, lead: char)
    requires i <= |s|
    ensures SegmentAt(s, i, SegmentEnd(s, i, lead), lead)
  {
    if i + 1 < |s| && s[i] == lead && IsIdentChar(s[i + 1]) {
      var y := RunEnd(s, i + 1, IsIdentChar);
      assert IdentListAt(s, i + 1, y);
      DotIdentsSound(s, i + 1, y);
    }
  }

  lemma SegmentCovers(s: string, i: nat, j: nat, lead: char)
    requires SegmentAt(s, i, j, lead)
    ensures SegmentEnd(s, i, lead) >= j
  {
    if i < j {
      assert s[i + 1] != '.' && IsIdentChar(s[i + 1]);
      var y := RunEnd(s, i + 1, IsIdentChar);
      DotIdentsCovers(s, i + 1, j, y);
    }
  }

  /** Soundness: what the matcher returns at i belongs to the language. */
  lemma MatchEndSound(s: string, i: nat)
    requires i <= |s| && MatchEnd(s, i).Some?
    ensures SemVerAt(s, i, MatchEnd(s, i).value)
  {
    assert NumbersEnd(s, i).Some? && NumEnd(s, i).Some?;
    var p1 := NumEnd(s, i).value;
    assert p1 < |s| && s[p1] == '.' && NumEnd(s, p1 + 1).Some?;
    var p2 := NumEnd(s, p1 + 1).value;
    assert p2 < |s| && s[p2] == '.' && PatchEnd(s, p2 + 1).Some?;
    var p3 := PatchEnd(s, p2 + 1).value;
    var p4 := SegmentEnd(s, p3, '-');
    MatchEndUnfold(s, i, p1, p2, p3);
    SegmentSound(s, p3, '-');
    SegmentSound(s, p4, '+');
    assert SplitAt(s, i, p1, p2, p3, p4, MatchEnd(s, i).value);
  }

  /**
   * After a patch number that the greedy matcher ended at q (past p3 only over digits), the
   * two greedy optional segments reach at least as far as the segments s[p3..p4] and s[p4..k].
   */
  lemma SegmentsCover(s: string, q: nat, p3: nat, p4: nat, k: nat)
    requires p3 <= q <= |s|
    requires q > p3 ==> IsDigit(s[p3])
    requires SegmentAt(s, p3, p4, '-') && SegmentAt(s, p4, k, '+')
    ensures SegmentEnd(s, SegmentEnd(s, q, '-'), '+') >= k
  {
    var r := SegmentEnd(s, q, '-');
    if q == p3 {
      SegmentCovers(s, p3, p4, '-');
      if r > p4 {
        // the greedy pre-release ran over s[p4], which therefore cannot open a build segment
        SegmentSound(s, p3, '-');
        assert s[p4] != '+';
      } else {
        SegmentCovers(s, p4, k, '+');
      }
    }
  }

  /** The matcher's result once its three numbers are known. */
  lemma MatchEndUnfold(s: string, i: nat, p1: nat, p2: nat, p3: nat)
    requires i <= |s| && NumEnd(s, i) == Some(p1) && p1 < |s| && s[p1] == '.'
    requires NumEnd(s, p1 + 1) == Some(p2) && p2 < |s| && s[p2] == '.'
    requires PatchEnd(s, p2 + 1) == Some(p3)
    ensures MatchEnd(s, i) == Some(SegmentEnd(s, SegmentEnd(s, p3, '-'), '+'))
  {
    assert NumbersEnd(s, i) == Some(p3);
  }

  /** A number followed by a dot is matched exactly. */
  lemma NumEndBeforeDot(s: string, i: nat, j: nat)
    requires NumAt(s, i, j) && j < |s| && s[j] == '.'
    ensures NumEnd(s, i) == Some(j)
  {
    NumEndCovers(s, i, j);
  }

  /** Maximality: the matcher at i reaches at least as far as any member of the language starting at i. */
  lemma MatchEndMaximal(s: string, i: nat, k: nat)
    requires SemVerAt(s, i, k)
    ensures i <= |s| && MatchEnd(s, i).Some? && MatchEnd(s, i).value >= k
  {
    var p1: nat, p2: nat, p3: nat, p4: nat :| SplitAt(s, i, p1, p2, p3, p4, k);
    SplitCovered(s, i, p1, p2, p3, p4, k);
  }

  /** Maximality for one split of the member into its components. */
  lemma SplitCovered(s: string, i: nat, p1: nat, p2: nat, p3: nat, p4: nat, k: nat)
    requires SplitAt(s, i, p1, p2, p3, p4, k)
    ensures i <= |s| && MatchEnd(s, i).Some? && MatchEnd(s, i).value >= k
  {
    NumEndBeforeDot(s, i, p1);
    NumEndBeforeDot(s, p1 + 1, p2);
    PatchEndCovers(s, p2 + 1, p3);
    var q := PatchEnd(s, p2 + 1).value;
    SegmentsCover(s, q, p3, p4, k);
    MatchEndUnfold(s, i, p1, p2, q);
  }

  /**
   * The search returns the leftmost occurrence of the language and, at that start, its
   * longest member; it returns nothing exactly when the language does not occur.
   */
  lemma FindIsLeftmostLongest(s: string)
    ensures Find(s).Some? ==> LeftmostLongest(s, Find(s).value.0, Find(s).value.1)
    ensures Find(s).None? <==> NoOccurrence(s)
  {
    var r := Find(s);
    if r.Some? {
      var (i, k) := r.value;
      MatchEndSound(s, i);
      forall j: nat, m: nat | j < i && j <= m <= |s|
        ensures !SemVerAt(s, j, m)
      {
        if SemVerAt(s, j, m) {
          MatchEndMaximal(s, j, m);
        }
      }
      forall m: nat | k < m <= |s|
        ensures !SemVerAt(s, i, m)
      {
        if SemVerAt(s, i, m) {
          MatchEndMaximal(s, i, m);
        }
      }
      assert SemVerAt(s, i, k) && !NoOccurrence(s);
    } else {
      forall j: nat, k: nat | j <= k <= |s|
        ensures !SemVerAt(s, j, k)
      {
        if SemVerAt(s, j, k) {
          MatchEndMaximal(s, j, k);
        }
      }
    }
  }

  /** There is at most one leftmost-longest occurrence. */
  lemma LeftmostLongestUnique(s: string, i: nat, k: nat, i': nat, k': nat)
    requires LeftmostLongest(s, i, k) && LeftmostLongest(s, i', k')
    ensures i == i' && k == k'
  {
  }

  /**
   * What a member of the language looks like: it starts with a digit, contains two dots
   * after its first character, and is made only of digits, lower-case letters, '.', '-',
   * '+' and '*'.
   */
  lemma {:induction false} SemVerShape(s: string, i: nat, k: nat)
    requires SemVerAt(s, i, k)
    ensures i + 5 <= k <= |s|
    ensures IsDigit(s[i])
    ensures exists p: nat, q: nat :: i < p < q < k && s[p] == '.' && s[q] == '.'
    ensures forall x :: i <= x < k ==> IsSearchChar(s[x])
  {
    var p1: nat, p2: nat, p3: nat, p4: nat :| SplitAt(s, i, p1, p2, p3, p4, k);
    SplitChars(s, i, p1, p2, p3, p4, k);
    assert i < p1 < p2 < k && s[p1] == '.' && s[p2] == '.';
  }

  /** The characters of one split of a member, component by component. */
  lemma SplitChars(s: string, i: nat, p1: nat, p2: nat, p3: nat, p4: nat, k: nat)
    requires SplitAt(s, i, p1, p2, p3, p4, k)
    ensures i < p1 < p2 < p3 <= p4 <= k <= |s| && i + 5 <= k
    ensures forall x :: i <= x < k ==> IsSearchChar(s[x])
  {
    SegmentChars(s, p3, p4, '-');
    SegmentChars(s, p4, k, '+');
    forall x | i <= x < k
      ensures IsSearchChar(s[x])
    {
      if x < p1 {
        assert NumAt(s, i, p1);
      } else if x == p1 || x == p2 {
      } else if x < p2 {
        assert NumAt(s, p1 + 1, p2);
      } else if x < p3 {
        assert PatchAt(s, p2 + 1, p3);
      }
    }
  }

  /** An optional segment is made of search characters only. */
  lemma SegmentChars(s: string, i: nat, j: nat, lead: char)
    requires SegmentAt(s, i, j, lead) && (lead == '-' || lead == '+')
    ensures forall x :: i <= x < j ==> IsSearchChar(s[x])
  {
  }
}
