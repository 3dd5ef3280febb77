/**
 * The structural patterns of the system, written as explicit scanners.
 *
 * Two regex families appear in the source:
 *  - searches used by the slot extractor, `\b[A-Z]{2,}-\d+\b` and
 *    `\b[A-Z]{2,}\d+\b` under `re.IGNORECASE` (`re.findall(...)[0]`);
 *  - anchored, case-sensitive `re.match` checks used by the schema analyser,
 *    where `$` also matches just before a final newline.
 * Each regex is given as a declarative predicate over explicit split points,
 * and each scanner is proved to agree with it.
 */
module Patterns {
  import opened Wrappers
  import opened Text

  /** The pattern tags the schema analyser can record for a column. */
  datatype Tag = CodeNumber | DateYmd | LettersNumbers | NumbersOnly | LettersOnly

  /** Every index in `[i, j)` lies in `s` and its character is in the class. */
  predicate AllIn(s: string, i: int, j: int, cls: char -> bool)
  {
    forall t :: i <= t < j ==> 0 <= t < |s| && cls(s[t])
  }

  /** End of the maximal run of `cls` characters starting at `i`. */
  function RunEnd(s: string, i: nat, cls: char -> bool): (k: nat)
    requires i <= |s|
    ensures i <= k <= |s|
    ensures AllIn(s, i, k, cls)
    ensures k < |s| ==> !cls(s[k])
    decreases |s| - i
  {
    if i < |s| && cls(s[i]) then RunEnd(s, i + 1, cls) else i
  }

  /** A run that stops where the class stops is the maximal run. */
  lemma RunEndUnique(s: string, i: nat, k: int, cls: char -> bool)
    requires i <= k <= |s|
    requires AllIn(s, i, k, cls)
    requires k == |s| || !cls(s[k])
    ensures k == RunEnd(s, i, cls)
  {
  }

  // ---------------------------------------------------------------------------
  // Searches: `\b[A-Z]{2,}-\d+\b` and `\b[A-Z]{2,}\d+\b`, case-insensitive
  // ---------------------------------------------------------------------------

  /** The two tags the slot extractor knows how to search for. */
  predicate Searchable(tag: Tag)
  {
    tag == CodeNumber || tag == LettersNumbers
  }

  /** `\b` just before index `i`, where `s[i]` is a word character. */
  predicate BoundaryBefore(s: string, i: int)
  {
    0 <= i <= |s| && (i == 0 || !IsWordChar(s[i - 1]))
  }

  /** `\b` at index `j`, where `s[j - 1]` is a word character. */
  predicate BoundaryAfter(s: string, j: int)
  {
    0 <= j <= |s| && (j == |s| || !IsWordChar(s[j]))
  }

  /** Where the digit run begins once the letters end at `k`. */
  function DigitsFrom(tag: Tag, k: int): int
  {
    if tag == CodeNumber then k + 1 else k
  }

  /**
   * The search regex of `tag` matches `s[i..j]`, its letter part being
   * `s[i..k]`. Letters are ASCII letters of either case (`re.IGNORECASE`).
   */
  predicate SearchMatch(tag: Tag, s: string, i: int, k: int, j: int)
  {
    && Searchable(tag)
    && BoundaryBefore(s, i)
    && i + 2 <= k
    && AllIn(s, i, k, IsLetter)
    && (tag == CodeNumber ==> k < |s| && s[k] == '-')
    && DigitsFrom(tag, k) < j
    && AllIn(s, DigitsFrom(tag, k), j, IsDigit)
    && BoundaryAfter(s, j)
  }

  /** Tries the regex of `tag` at start index `i`: maximal letters, then maximal digits. */
  function MatchAt(tag: Tag, s: string, i: nat): (r: Option<nat>)
    requires Searchable(tag) && i <= |s|
    ensures r.Some? ==> SearchMatch(tag, s, i, RunEnd(s, i, IsLetter), r.value)
  {
    if !BoundaryBefore(s, i) then None
    else
      var k := RunEnd(s, i, IsLetter);
      if k < i + 2 then None
      else if tag == CodeNumber && !(k < |s| && s[k] == '-') then None
      else
        var d := DigitsFrom(tag, k);
        var j := RunEnd(s, d, IsDigit);
        if j == d || !BoundaryAfter(s, j) then None else Some(j)
  }

  /**
   * Backtracking cannot help: at a given start the regex matches at most one
   * way, and `MatchAt` finds it.
   */
  lemma MatchAtComplete(tag: Tag, s: string, i: nat, k: int, j: int)
    requires i <= |s|
    ensures SearchMatch(tag, s, i, k, j) ==> k == RunEnd(s, i, IsLetter) && MatchAt(tag, s, i) == Some(j)
  {
    if SearchMatch(tag, s, i, k, j) {
      RunEndUnique(s, i, k, IsLetter);
      RunEndUnique(s, DigitsFrom(tag, k), j, IsDigit);
    }
  }

  lemma MatchAtNone(tag: Tag, s: string, i: nat)
    requires Searchable(tag) && i <= |s|
    requires MatchAt(tag, s, i).None?
    ensures forall k, j :: !SearchMatch(tag, s, i, k, j)
  {
    forall k, j ensures !SearchMatch(tag, s, i, k, j) {
      MatchAtComplete(tag, s, i, k, j);
    }
  }

  /** The leftmost start `>= from` where the regex of `tag` matches, with its end. */
  function FirstMatch(tag: Tag, s: string, from: nat): (r: Option<(nat, nat)>)
    requires Searchable(tag) && from <= |s|
    ensures r.Some? ==> from <= r.value.0 < r.value.1 <= |s|
    decreases |s| - from
  {
    match MatchAt(tag, s, from)
    case Some(j) => Some((from, j))
    case None => if from == |s| then None else FirstMatch(tag, s, from + 1)
  }

  /** `FirstMatch` finds a match, and no start before it (from `from` on) has one. */
  lemma {:induction false} FirstMatchLeftmost(tag: Tag, s: string, from: nat)
    requires Searchable(tag) && from <= |s|
    ensures FirstMatch(tag, s, from).Some? ==>
              SearchMatch(tag, s, FirstMatch(tag, s, from).value.0, RunEnd(s, FirstMatch(tag, s, from).value.0, IsLetter), FirstMatch(tag, s, from).value.1)
    ensures FirstMatch(tag, s, from).Some? ==>
              forall i, k, j :: from <= i < FirstMatch(tag, s, from).value.0 ==> !SearchMatch(tag, s, i, k, j)
    ensures FirstMatch(tag, s, from).None? ==> forall i, k, j :: from <= i ==> !SearchMatch(tag, s, i, k, j)
    decreases |s| - from
  {
    var r := FirstMatch(tag, s, from);
    if MatchAt(tag, s, from).None? {
      MatchAtNone(tag, s, from);
      if from < |s| {
        FirstMatchLeftmost(tag, s, from + 1);
        assert r == FirstMatch(tag, s, from + 1);
        forall i, k, j | from <= i && (r.Some? ==> i < r.value.0)
          ensures !SearchMatch(tag, s, i, k, j)
        {
          if i == from {
          }
        }
      } else {
        forall i, k, j | from <= i
          ensures !SearchMatch(tag, s, i, k, j)
        {
          if i > from {
            assert !BoundaryBefore(s, i);
          }
        }
      }
    }
  }

  /** `s[i..j]` is the leftmost match of the regex of `tag`. */
  ghost predicate LeftmostMatch(tag: Tag, s: string, i: int, j: int)
  {
    && (exists k :: SearchMatch(tag, s, i, k, j))
    && (forall i', k', j' :: i' < i ==> !SearchMatch(tag, s, i', k', j'))
  }

  /**
   * `re.findall(regex, s, re.IGNORECASE)[0]` when there is a match: the
   * leftmost matching substring; `None` when the list would be empty.
   */
  function Find(tag: Tag, s: string): (r: Option<string>)
    requires Searchable(tag)
    ensures r.Some? ==> 3 <= |r.value| <= |s| && IsLetter(r.value[0]) && IsDigit(r.value[|r.value| - 1])
  {
    match FirstMatch(tag, s, 0)
    case None => None
    case Some((i, j)) =>
      FoundShape(tag, s, i, j);
      Some(s[i..j])
  }

  /** The text of a match: at least two letters, digits last. */
  lemma FoundShape(tag: Tag, s: string, i: nat, j: nat)
    requires Searchable(tag) && FirstMatch(tag, s, 0) == Some((i, j))
    ensures i + 3 <= j <= |s| && IsLetter(s[i]) && IsDigit(s[j - 1])
  {
    FirstMatchLeftmost(tag, s, 0);
    assert SearchMatch(tag, s, i, RunEnd(s, i, IsLetter), j);
  }

  /** `Find` returns the leftmost match, and nothing only when no position matches. */
  lemma FindLeftmost(tag: Tag, s: string)
    requires Searchable(tag)
    ensures Find(tag, s).Some? ==> exists i, j :: 0 <= i <= j <= |s| && LeftmostMatch(tag, s, i, j) && Find(tag, s).value == s[i..j]
    ensures Find(tag, s).None? ==> forall i, k, j :: !SearchMatch(tag, s, i, k, j)
  {
    FirstMatchLeftmost(tag, s, 0);
    match FirstMatch(tag, s, 0)
    case None =>
    case Some((i, j)) =>
      assert SearchMatch(tag, s, i, RunEnd(s, i, IsLetter), j);
      assert LeftmostMatch(tag, s, i, j);
  }

  /** A found slot is a substring of the query made of letters, digits and at most one hyphen. */
  lemma FoundIsSubstring(tag: Tag, s: string)
    requires Searchable(tag) && Find(tag, s).Some?
    ensures Contains(s, Find(tag, s).value)
    ensures |Find(tag, s).value| >= 3
    ensures IsLetter(Find(tag, s).value[0])
  {
    var (i, j) := FirstMatch(tag, s, 0).value;
    FoundShape(tag, s, i, j);
    assert OccursAt(s, s[i..j], i);
  }

  // ---------------------------------------------------------------------------
  // Anchored, case-sensitive shapes used by the schema analyser
  // ---------------------------------------------------------------------------

  /** Python's `$`: the end of the string, or just before a final newline. */
  predicate EndsAtDollar(s: string, j: int)
  {
    j == |s| || (0 <= j == |s| - 1 && s[j] == '\n')
  }

  predicate IsLetterOrSpace(c: char) { IsLetter(c) || IsSpace(c) }

  /** `^[A-Z]{2,}-\d+$` with the letters `s[..k]` and the digits ending at `j`. */
  predicate CodeNumberFull(s: string, k: int, j: int)
  {
    2 <= k < |s| && AllIn(s, 0, k, IsUpper) && s[k] == '-'
    && k + 1 < j <= |s| && AllIn(s, k + 1, j, IsDigit) && EndsAtDollar(s, j)
  }

  /** `^[A-Z]{2,}\d+$` with the letters `s[..k]` and the digits ending at `j`. */
  predicate LettersNumbersFull(s: string, k: int, j: int)
  {
    2 <= k < j <= |s| && AllIn(s, 0, k, IsUpper) && AllIn(s, k, j, IsDigit) && EndsAtDollar(s, j)
  }

  /** `^\d+$` with the digits ending at `j`. */
  predicate NumbersOnlyFull(s: string, j: int)
  {
    0 < j <= |s| && AllIn(s, 0, j, IsDigit) && EndsAtDollar(s, j)
  }

  /** `^[A-Za-z\s]+$` with the run ending at `j`. */
  predicate LettersOnlyFull(s: string, j: int)
  {
    0 < j <= |s| && AllIn(s, 0, j, IsLetterOrSpace) && EndsAtDollar(s, j)
  }

  /** `^\d{4}-\d{2}-\d{2}`: a prefix test only, whatever follows. */
  predicate DatePrefix(s: string)
  {
    |s| >= 10 && AllIn(s, 0, 4, IsDigit) && s[4] == '-' && AllIn(s, 5, 7, IsDigit)
    && s[7] == '-' && AllIn(s, 8, 10, IsDigit)
  }

  /** The regex of `tag`, applied with `re.match`, accepts `s`. */
  ghost predicate HasShape(tag: Tag, s: string)
  {
    match tag
    case CodeNumber => exists k, j :: CodeNumberFull(s, k, j)
    case DateYmd => DatePrefix(s)
    case LettersNumbers => exists k, j :: LettersNumbersFull(s, k, j)
    case NumbersOnly => exists j :: NumbersOnlyFull(s, j)
    case LettersOnly => exists j :: LettersOnlyFull(s, j)
  }

  /** `re.match(r'^[A-Z]{2,}-\d+$', s)` as a scanner. */
  function MatchesCodeNumber(s: string): bool
  {
    var k := RunEnd(s, 0, IsUpper);
    2 <= k < |s| && s[k] == '-' && var j := RunEnd(s, k + 1, IsDigit); k + 1 < j && EndsAtDollar(s, j)
  }

  lemma MatchesCodeNumberIff(s: string)
    ensures MatchesCodeNumber(s) <==> HasShape(CodeNumber, s)
  {
    var k := RunEnd(s, 0, IsUpper);
    if HasShape(CodeNumber, s) {
      var k', j' :| CodeNumberFull(s, k', j');
      RunEndUnique(s, 0, k', IsUpper);
      RunEndUnique(s, k' + 1, j', IsDigit);
    } else if 2 <= k < |s| && s[k] == '-' {
      var j := RunEnd(s, k + 1, IsDigit);
      assert !CodeNumberFull(s, k, j);
    }
  }

  /** `re.match(r'^[A-Z]{2,}\d+$', s)` as a scanner. */
  function MatchesLettersNumbers(s: string): bool
  {
    var k := RunEnd(s, 0, IsUpper);
    var j := RunEnd(s, k, IsDigit);
    2 <= k < j && EndsAtDollar(s, j)
  }

  lemma MatchesLettersNumbersIff(s: string)
    ensures MatchesLettersNumbers(s) <==> HasShape(LettersNumbers, s)
  {
    var k := RunEnd(s, 0, IsUpper);
    var j := RunEnd(s, k, IsDigit);
    if HasShape(LettersNumbers, s) {
      var k', j' :| LettersNumbersFull(s, k', j');
      RunEndUnique(s, 0, k', IsUpper);
      RunEndUnique(s, k', j', IsDigit);
    } else {
      assert !LettersNumbersFull(s, k, j);
    }
  }

  /** `re.match(r'^\d+$', s)` as a scanner. */
  function MatchesNumbersOnly(s: string): bool
  {
    var j := RunEnd(s, 0, IsDigit);
    0 < j && EndsAtDollar(s, j)
  }

  lemma MatchesNumbersOnlyIff(s: string)
    ensures MatchesNumbersOnly(s) <==> HasShape(NumbersOnly, s)
  {
    var j := RunEnd(s, 0, IsDigit);
    if HasShape(NumbersOnly, s) {
      var j' :| NumbersOnlyFull(s, j');
      RunEndUnique(s, 0, j', IsDigit);
    } else {
      assert !NumbersOnlyFull(s, j);
    }
  }

  /** `re.match(r'^[A-Za-z\s]+$', s)`; a final newline is whitespace, so the whole string must qualify. */
  function MatchesLettersOnly(s: string): bool
  {
    0 < |s| && RunEnd(s, 0, IsLetterOrSpace) == |s|
  }

  lemma MatchesLettersOnlyIff(s: string)
    ensures MatchesLettersOnly(s) <==> HasShape(LettersOnly, s)
  {
    if HasShape(LettersOnly, s) {
      var j' :| LettersOnlyFull(s, j');
      if j' == |s| - 1 {
        assert IsLetterOrSpace(s[j']);
      }
      assert AllIn(s, 0, |s|, IsLetterOrSpace);
      RunEndUnique(s, 0, |s|, IsLetterOrSpace);
    } else if 0 < |s| {
      assert !LettersOnlyFull(s, |s|);
    }
  }

  /**
   * A value has at most one shape: the five regexes are pairwise exclusive,
   * so the order in which `_detect_patterns` tries them never decides a tag.
   */
  lemma ShapeUnique(s: string, t: Tag)
    requires HasShape(t, s)
    ensures forall t' :: t' != t ==> !HasShape(t', s)
  {
    match t
    case CodeNumber =>
      var k, j :| CodeNumberFull(s, k, j);
      assert IsUpper(s[0]) && !IsLetterOrSpace(s[k]) && k < |s| - 1;
      forall k2, j2 ensures !LettersNumbersFull(s, k2, j2) {
        if k2 > k {
          assert !IsUpper(s[k]);
        } else if 0 <= k2 <= k {
          assert !IsDigit(s[k2]);
        }
      }
    case DateYmd =>
      assert IsDigit(s[0]) && !IsDigit(s[4]) && 4 < |s| - 1;
    case LettersNumbers =>
      var k, j :| LettersNumbersFull(s, k, j);
      assert IsUpper(s[0]) && IsDigit(s[k]) && !IsLetterOrSpace(s[k]);
      assert k < |s| - 1 || s[|s| - 1] != '\n';
      forall k2, j2 ensures !CodeNumberFull(s, k2, j2) {
        if k2 > k {
          assert !IsUpper(s[k]);
        } else if 0 <= k2 <= k {
          assert s[k2] != '-';
        }
      }
    case NumbersOnly =>
      var j :| NumbersOnlyFull(s, j);
      assert IsDigit(s[0]);
      assert |s| >= 10 ==> IsDigit(s[4]);
    case LettersOnly =>
      var j :| LettersOnlyFull(s, j);
      assert IsLetterOrSpace(s[0]);
      forall k2, j2 ensures !CodeNumberFull(s, k2, j2) && !LettersNumbersFull(s, k2, j2) {
        if 0 <= k2 < |s| - 1 {
          assert IsLetterOrSpace(s[k2]);
        } else if k2 == |s| - 1 {
          assert s[k2] == '\n' || IsLetterOrSpace(s[k2]);
        }
      }
  }

  /** The tag `_detect_patterns` records for one value: the first rule that matches. */
  function ClassifyValue(s: string): (r: Option<Tag>)
    ensures forall t :: r == Some(t) <==> HasShape(t, s)
  {
    MatchesCodeNumberIff(s);
    MatchesLettersNumbersIff(s);
    MatchesNumbersOnlyIff(s);
    MatchesLettersOnlyIff(s);
    var r :=
      if MatchesCodeNumber(s) then Some(CodeNumber)
      else if DatePrefix(s) then Some(DateYmd)
      else if MatchesLettersNumbers(s) then Some(LettersNumbers)
      else if MatchesNumbersOnly(s) then Some(NumbersOnly)
      else if MatchesLettersOnly(s) then Some(LettersOnly)
      else None;
    if r.Some? then
      ShapeUnique(s, r.value);
      r
    else
      r
  }

  /** How many leading values `_detect_patterns` inspects (`head(10)`). */
  const SampleSize: nat := 10

  /** Tags of a list of values, each contributing at most one. */
  function CollectTags(values: seq<string>): (r: set<Tag>)
    ensures forall t :: t in r <==> exists i :: 0 <= i < |values| && HasShape(t, values[i])
  {
    if |values| == 0 then {}
    else
      var rest := CollectTags(values[1..]);
      assert forall i :: 1 <= i < |values| ==> values[i] == values[1..][i - 1];
      var here := match ClassifyValue(values[0]) case Some(t) => {t} case None => {};
      here + rest
  }

  /**
   * `_detect_patterns`: the duplicate-free set of tags of the first ten
   * values. Python builds it with `list(set(...))`, whose order is not
   * determined, so the model returns a set.
   */
  function DetectPatterns(values: seq<string>): (r: set<Tag>)
    ensures forall t :: t in r <==> exists i :: 0 <= i < |values| && i < SampleSize && HasShape(t, values[i])
  {
    var n := if |values| < SampleSize then |values| else SampleSize;
    var r := CollectTags(values[..n]);
    assert forall i :: 0 <= i < n ==> values[..n][i] == values[i];
    r
  }
}
