/**
 * Query generalisation: the utterance with its slot text abstracted away,
 * normalised exactly as template phrases are normalised for the intent
 * index, so that utterances sharing a grammatical frame meet the template
 * phrase they were written from.
 */
module Generalize {
  import opened Text

  /** The placeholder token of natural-language templates. */
  const Item: string := "{ITEM}"

  /** One entry of the template file: a phrase with `{ITEM}` and a SQL statement with `{COL}` and `?`. */
  datatype TemplateEntry = TemplateEntry(template: string, sql: string)

  /** `pat` occurs at index `i` of `s` when ASCII case is ignored. */
  predicate OccursAtCI(s: string, pat: string, i: int)
  {
    OccursAt(Lower(s), Lower(pat), i)
  }

  /** What `re.sub` makes of an empty pattern: `rep` at every position, both ends included. */
  function Interleave(s: string, rep: string): string
  {
    if |s| == 0 then rep else rep + [s[0]] + Interleave(s[1..], rep)
  }

  /**
   * `re.sub(re.escape(pat), rep, s, flags=re.IGNORECASE)`: every
   * non-overlapping case-insensitive occurrence of the literal `pat`,
   * scanning left to right, becomes `rep`.
   */
  function SubCI(s: string, pat: string, rep: string): string
    decreases |s|
  {
    if |pat| == 0 then Interleave(s, rep)
    else if |s| < |pat| then s
    else if Lower(s[..|pat|]) == Lower(pat) then rep + SubCI(s[|pat|..], pat, rep)
    else [s[0]] + SubCI(s[1..], pat, rep)
  }

  /** A template's intent phrase: `t.replace('{ITEM}', '').strip().lower()`. */
  function IntentPhrase(t: string): string
  {
    Lower(Strip(ReplaceAll(t, Item, "")))
  }

  /**
   * The generalised query of `match_with_sbert`: the slot text becomes
   * `{ITEM}` and the result is normalised like a template phrase.
   */
  function Generalized(query: string, slot: string): (r: string)
    ensures IsLowered(r) && IntentPhrase(r) == r
  {
    IntentPhraseNormal(SubCI(query, slot, Item));
    IntentPhrase(SubCI(query, slot, Item))
  }

  /**
   * An intent phrase is in normal form: lower-case, with no `{ITEM}` and
   * no surrounding whitespace, so normalising it again changes nothing.
   */
  lemma IntentPhraseNormal(t: string)
    ensures IsLowered(IntentPhrase(t))
    ensures IntentPhrase(IntentPhrase(t)) == IntentPhrase(t)
  {
    var y := Strip(ReplaceAll(t, Item, ""));
    var x := Lower(y);
    LowerIdempotent(y);
    forall i ensures !OccursAt(x, Item, i) {
      CharOfOccurrence(x, Item, i, 1);
    }
    ReplaceAllAbsent(x, Item, "");
    StripShape(ReplaceAll(t, Item, ""));
    TrimBothNone(x, IsSpace);
    assert Strip(x) == TrimBoth(x, IsSpace);
  }

  lemma OccursCIShift(s: string, pat: string, i: int)
    requires |s| > 0
    ensures OccursAtCI(s[1..], pat, i) ==> OccursAtCI(s, pat, i + 1)
  {
    LowerSlice(s, 1, |s|);
    OccursShift(Lower(s), Lower(pat), i);
  }

  /** A case-insensitive occurrence at the head of `s` is recognised by the scanner. */
  lemma OccursCIHead(s: string, pat: string)
    requires |pat| <= |s|
    ensures OccursAtCI(s, pat, 0) <==> Lower(s[..|pat|]) == Lower(pat)
  {
    LowerSlice(s, 0, |pat|);
  }

  /** Without a case-insensitive occurrence, `re.sub` returns its input. */
  lemma {:induction false} SubCIAbsent(s: string, pat: string, rep: string)
    requires |pat| > 0
    requires forall i :: !OccursAtCI(s, pat, i)
    ensures SubCI(s, pat, rep) == s
    decreases |s|
  {
    if |s| >= |pat| {
      OccursCIHead(s, pat);
      forall i ensures !OccursAtCI(s[1..], pat, i) {
        OccursCIShift(s, pat, i);
      }
      SubCIAbsent(s[1..], pat, rep);
    }
  }

  /** A prefix in which no case-insensitive occurrence starts is copied unchanged. */
  lemma {:induction false} SubCIPrefix(a: string, b: string, pat: string, rep: string)
    requires |pat| > 0
    requires forall i :: 0 <= i < |a| ==> !OccursAtCI(a + b, pat, i)
    ensures SubCI(a + b, pat, rep) == a + SubCI(b, pat, rep)
    decreases |a|
  {
    if |a| > 0 {
      var s := a + b;
      assert s[1..] == a[1..] + b;
      forall i | 0 <= i < |a[1..]| ensures !OccursAtCI(a[1..] + b, pat, i) {
        OccursCIShift(s, pat, i);
      }
      SubCIPrefix(a[1..], b, pat, rep);
      assert !OccursAtCI(s, pat, 0);
      SubCIStep(s, pat, rep);
      var x := SubCI(b, pat, rep);
      assert s[0] == a[0];
      HeadTail(a, x);
    } else {
      EmptyPrefix(a, b);
    }
  }

  lemma HeadTail(a: string, x: string)
    requires |a| > 0
    ensures [a[0]] + (a[1..] + x) == a + x
  {
  }

  lemma EmptyPrefix(a: string, b: string)
    requires |a| == 0
    ensures a + b == b
  {
  }

  /** Where the pattern does not start at the front, the first character is copied. */
  lemma SubCIStep(s: string, pat: string, rep: string)
    requires |pat| > 0 && |s| > 0 && !OccursAtCI(s, pat, 0)
    ensures SubCI(s, pat, rep) == [s[0]] + SubCI(s[1..], pat, rep)
  {
    if |s| >= |pat| {
      OccursCIHead(s, pat);
    } else {
      assert SubCI(s[1..], pat, rep) == s[1..];
    }
  }

  /** Case-insensitive occurrences in a suffix are occurrences in the whole string. */
  lemma OccursCIInSuffix(a: string, b: string, pat: string, j: int)
    ensures OccursAtCI(b, pat, j) ==> OccursAtCI(a + b, pat, |a| + j)
  {
    LowerAppend(a, b);
    if OccursAtCI(b, pat, j) {
      assert Lower(a + b)[|a| + j..|a| + j + |pat|] == Lower(b)[j..j + |pat|];
    }
  }

  /**
   * Round trip of generalisation. Fill the placeholder of a template
   * `pre + {ITEM} + post` with a non-empty slot that then occurs exactly
   * once, case-insensitively, in the filled text: generalising the filled
   * text gives back the template's intent phrase.
   */
  lemma {:induction false} GeneralizeFilledTemplate(pre: string, slot: string, post: string)
    requires |slot| > 0
    requires forall i :: OccursAtCI(pre + slot + post, slot, i) ==> i == |pre|
    ensures SubCI(pre + slot + post, slot, Item) == pre + Item + post
    ensures Generalized(pre + slot + post, slot) == IntentPhrase(pre + Item + post)
  {
    var rest := slot + post;
    assert pre + slot + post == pre + rest;
    SubCIPrefix(pre, rest, slot, Item);
    assert rest[..|slot|] == slot && rest[|slot|..] == post;
    assert SubCI(rest, slot, Item) == Item + SubCI(post, slot, Item);
    forall j ensures !OccursAtCI(post, slot, j) {
      OccursCIInSuffix(pre + slot, post, slot, j);
      assert pre + slot + post == (pre + slot) + post;
    }
    SubCIAbsent(post, slot, Item);
    assert pre + (Item + post) == pre + Item + post;
  }

  lemma SubCIExample()
    ensures SubCI("aabb", "ab", Item) == "a{ITEM}b"
  {
    var pat := "ab";
    assert Lower("aa") != Lower(pat) by { assert Lower("aa")[1] == 'a'; }
    assert Lower("ab") == Lower(pat);
    assert SubCI("b", pat, Item) == "b";
    assert "abb"[..2] == "ab" && "abb"[2..] == "b";
    assert SubCI("abb", pat, Item) == Item + "b";
    assert "aabb"[..2] == "aa" && "aabb"[1..] == "abb";
    assert SubCI("aabb", pat, Item) == "a" + (Item + "b");
  }

  lemma DeletePlaceholderExample()
    ensures ReplaceAll("a{ITEM}b", Item, "") == "ab"
  {
    var t := "a{ITEM}b";
    assert ReplaceAll("b", Item, "") == "b";
    assert t[1..][..|Item|] == Item && t[1..][|Item|..] == "b";
    assert ReplaceAll(t[1..], Item, "") == "b";
    assert t[..|Item|] != Item by { assert t[..|Item|][0] == 'a'; }
    assert ReplaceAll(t, Item, "") == [t[0]] + ReplaceAll(t[1..], Item, "");
  }

  lemma StripExample()
    ensures Strip("ab") == "ab"
  {
    assert LeadingCount("ab", IsSpace) == 0;
    assert TrimStart("ab", IsSpace) == "ab";
    assert TrailingStart("ab", IsSpace) == 2;
  }

  /**
   * Generalisation can leave the slot text behind: deleting the
   * placeholder joins the text around it. With slot `ab`, the query `aabb`
   * becomes `a{ITEM}b` and then `ab`.
   */
  lemma GeneralizeMayLeaveSlot()
    ensures Generalized("aabb", "ab") == "ab"
    ensures OccursAtCI(Generalized("aabb", "ab"), "ab", 0)
  {
    SubCIExample();
    DeletePlaceholderExample();
    StripExample();
    assert Lower("ab") == "ab";
  }
}
