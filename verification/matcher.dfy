/**
 * The matcher's loading and its main entry point `match_with_sbert`:
 * extract a slot, generalise the query around it, pick the nearest
 * template phrase, and bind the slot's column into that template's SQL.
 */
module Matching {
  import opened Wrappers
  import opened Text
  import opened CategoricalCache
  import opened Generalize
  import opened SlotExtraction

  /** INTENT_THRESHOLD: an intent scoring below this is a miss. */
  const IntentThreshold: real := 0.0

  /** What an inner-product index with no vectors reports as the best score (minus the largest 32-bit float). */
  const EmptyIndexScore: real := -340282346638528859811704183484516925440.0

  /** The column placeholder of SQL templates. */
  const ColPlaceholder: string := "{COL}"

  /** The `score` field: the intent score for a literal slot, the slot itself for a description match. */
  datatype Score = IntentScore(value: real) | SlotScores(matches: seq<DescMatch>)

  /** The dictionary `match_with_sbert` returns on a hit. */
  datatype MatchResult = MatchResult(
    template: string,
    sql: string,
    slot: Slot,
    score: Score,
    column: string,
    isDescription: bool)

  /** One record pushed to the miss log: the query and, once an intent was scored, that score. */
  datatype MissRecord = MissRecord(query: string, intentScore: Option<real>)

  /** The result of one call together with the miss records it pushed. */
  datatype Outcome = Outcome(result: Option<MatchResult>, misses: seq<MissRecord>)

  /** `_load_templates`: the template file split into parallel lists. */
  function LoadTemplates(entries: seq<TemplateEntry>): (r: (seq<string>, seq<string>))
    ensures |r.0| == |entries| && |r.1| == |entries|
    ensures forall i :: 0 <= i < |entries| ==> TemplateEntry(r.0[i], r.1[i]) == entries[i]
  {
    (seq(|entries|, i requires 0 <= i < |entries| => entries[i].template),
     seq(|entries|, i requires 0 <= i < |entries| => entries[i].sql))
  }

  /**
   * The matcher after construction. `distinct(c)` stands for the column's
   * distinct non-null values as the database returns them. Exact-value
   * caches are built for categorical, code and ID columns; description
   * values are kept for text columns that have any.
   */
  function LoadMatcher(schema: MatcherSchema, entries: seq<TemplateEntry>, distinct: string -> seq<string>): (m: Matcher)
    ensures m.schema == schema
    ensures |m.templates| == |m.sqlTemplates| == |entries|
    ensures forall i :: 0 <= i < |entries| ==> TemplateEntry(m.templates[i], m.sqlTemplates[i]) == entries[i]
    ensures forall c :: c in m.cache <==> c in schema.categoricalColumns + schema.codeColumns + schema.idColumns
    ensures forall c :: c in m.cache ==> m.cache[c] == Build(distinct(c))
    ensures forall c :: c in m.descValues <==> c in schema.textColumns && |distinct(c)| > 0
    ensures forall c :: c in m.descValues ==> m.descValues[c] == distinct(c)
    ensures forall c :: c in m.descValues ==> |m.descValues[c]| > 0
    ensures (forall c :: c in schema.codeColumns + schema.idColumns ==> c in schema.patterns) ==> Extractable(m)
  {
    var lists := LoadTemplates(entries);
    var cached := schema.categoricalColumns + schema.codeColumns + schema.idColumns;
    Matcher(
      schema,
      lists.0,
      lists.1,
      map c | c in cached :: Build(distinct(c)),
      map c | c in schema.textColumns && |distinct(c)| > 0 :: distinct(c))
  }

  /** The intent phrase of every template, in template order. */
  function IntentPhrases(templates: seq<string>): (r: seq<string>)
    ensures |r| == |templates|
  {
    seq(|templates|, i requires 0 <= i < |templates| => IntentPhrase(templates[i]))
  }

  /** Python truthiness of the extracted slot: no slot and the empty string are false, any list is true. */
  predicate Truthy(e: Extraction)
  {
    e.Found? && e.slot != Literal("")
  }

  /** The text substituted by `{ITEM}`: a literal, or the best description's value. */
  function SlotText(s: Slot): string
    requires s.Described? ==> |s.matches| > 0
  {
    if s.Described? then s.matches[0].value else s.text
  }

  /** The nearest template phrase to the generalised query, and its score, when there is a template. */
  predicate NearestTemplate(m: Matcher, clean: string, sim: Similarity, k: int)
  {
    0 <= k < |m.templates|
    && forall j :: 0 <= j < |m.templates| ==>
         sim(clean, IntentPhrase(m.templates[j])) <= sim(clean, IntentPhrase(m.templates[k]))
  }

  /**
   * The intent lookup: the first nearest template phrase to the
   * generalised query and its score, or nothing when there is no template.
   */
  function NearestIntent(m: Matcher, clean: string, sim: Similarity): (r: Option<(nat, real)>)
    ensures r.None? <==> |m.templates| == 0
    ensures r.Some? ==> NearestTemplate(m, clean, sim, r.value.0)
                        && r.value.1 == sim(clean, IntentPhrase(m.templates[r.value.0]))
    ensures r.Some? ==> forall j :: 0 <= j < r.value.0 ==> sim(clean, IntentPhrase(m.templates[j])) < r.value.1
  {
    if |m.templates| == 0 then None
    else
      var phrases := IntentPhrases(m.templates);
      var k := TopValue(phrases, clean, sim);
      assert forall j :: 0 <= j < |m.templates| ==> phrases[j] == IntentPhrase(m.templates[j]);
      Some((k, sim(clean, phrases[k])))
  }

  /**
   * The score a below-threshold miss records for the generalised query
   * `clean`: the highest similarity of any template phrase, below the
   * threshold, or the empty index's sentinel when there is no template.
   */
  predicate ScoredMiss(m: Matcher, clean: string, sim: Similarity, score: real)
  {
    score < IntentThreshold
    && (|m.templates| == 0 ==> score == EmptyIndexScore)
    && (|m.templates| > 0 ==> exists j :: 0 <= j < |m.templates| && sim(clean, IntentPhrase(m.templates[j])) == score)
    && forall j :: 0 <= j < |m.templates| ==> sim(clean, IntentPhrase(m.templates[j])) <= score
  }

  /**
   * `match_with_sbert`. A falsy slot is a miss logged without a score; a
   * best intent scoring below the threshold is a miss logged with its
   * score; otherwise the nearest template's SQL gets the slot's column.
   */
  function MatchWithSbert(m: Matcher, query: string, sim: Similarity): (o: Outcome)
    requires Extractable(m) && |m.templates| == |m.sqlTemplates|
    ensures o.result.None? <==> |o.misses| == 1
    ensures o.result.Some? ==> o.misses == []
    ensures forall i :: 0 <= i < |o.misses| ==> o.misses[i].query == query
    ensures o.result.None? && o.misses[0].intentScore.None? <==> !Truthy(ExtractSlot(m, query, sim))
    ensures o.result.Some? ==>
              Truthy(ExtractSlot(m, query, sim))
              && ExtractSlot(m, query, sim) == Found(o.result.value.slot, o.result.value.column, o.result.value.isDescription)
    ensures o.result.Some? ==>
              exists k :: NearestTemplate(m, Generalized(query, SlotText(o.result.value.slot)), sim, k)
                          && sim(Generalized(query, SlotText(o.result.value.slot)), IntentPhrase(m.templates[k])) >= IntentThreshold
                          && o.result.value.template == m.templates[k]
                          && o.result.value.sql == ReplaceAll(m.sqlTemplates[k], ColPlaceholder, o.result.value.column)
    ensures o.result.Some? ==> (o.result.value.score.SlotScores? <==> o.result.value.isDescription)
    ensures o.result.Some? && o.result.value.isDescription ==> o.result.value.score == SlotScores(o.result.value.slot.matches)
    ensures o.result.Some? && !o.result.value.isDescription ==>
              o.result.value.score
              == IntentScore(sim(Generalized(query, SlotText(o.result.value.slot)), IntentPhrase(o.result.value.template)))
    ensures o.result.None? && o.misses[0].intentScore.Some? ==>
              var e := ExtractSlot(m, query, sim);
              Truthy(e) && ScoredMiss(m, Generalized(query, SlotText(e.slot)), sim, o.misses[0].intentScore.value)
  {
    MatchFromSlot(m, query, ExtractSlot(m, query, sim), sim)
  }

  /** `match_with_sbert` once the slot `e` has been extracted from `query`. */
  function MatchFromSlot(m: Matcher, query: string, e: Extraction, sim: Similarity): (o: Outcome)
    requires |m.templates| == |m.sqlTemplates|
    requires e.Found? ==> (e.isDescription <==> e.slot.Described?) && (e.slot.Described? ==> |e.slot.matches| > 0)
    ensures o.result.None? <==> |o.misses| == 1
    ensures o.result.Some? ==> o.misses == []
    ensures forall i :: 0 <= i < |o.misses| ==> o.misses[i].query == query
    ensures o.result.None? && o.misses[0].intentScore.None? <==> !Truthy(e)
    ensures o.result.Some? ==>
              Truthy(e) && e == Found(o.result.value.slot, o.result.value.column, o.result.value.isDescription)
    ensures o.result.Some? ==>
              exists k :: NearestTemplate(m, Generalized(query, SlotText(e.slot)), sim, k)
                          && sim(Generalized(query, SlotText(e.slot)), IntentPhrase(m.templates[k])) >= IntentThreshold
                          && o.result.value.template == m.templates[k]
                          && o.result.value.sql == ReplaceAll(m.sqlTemplates[k], ColPlaceholder, o.result.value.column)
    ensures o.result.Some? ==> (o.result.value.score.SlotScores? <==> o.result.value.isDescription)
    ensures o.result.Some? && o.result.value.isDescription ==> o.result.value.score == SlotScores(o.result.value.slot.matches)
    ensures o.result.Some? && !o.result.value.isDescription ==>
              o.result.value.score == IntentScore(sim(Generalized(query, SlotText(e.slot)), IntentPhrase(o.result.value.template)))
    ensures o.result.None? && o.misses[0].intentScore.Some? ==>
              Truthy(e) && ScoredMiss(m, Generalized(query, SlotText(e.slot)), sim, o.misses[0].intentScore.value)
  {
    if !Truthy(e) then Outcome(None, [MissRecord(query, None)])
    else
      var clean := Generalized(query, SlotText(e.slot));
      match NearestIntent(m, clean, sim)
      case None => Outcome(None, [MissRecord(query, Some(EmptyIndexScore))])
      case Some((k, score)) =>
        if score < IntentThreshold then Outcome(None, [MissRecord(query, Some(score))])
        else
          assert NearestTemplate(m, clean, sim, k) && sim(clean, IntentPhrase(m.templates[k])) >= IntentThreshold;
          Outcome(Some(Hit(m, e, k, score)), [])
  }

  /** The result dictionary for the extracted slot `e` and the `k`-th template. */
  function Hit(m: Matcher, e: Extraction, k: nat, score: real): (r: MatchResult)
    requires k < |m.templates| == |m.sqlTemplates| && e.Found? && (e.isDescription <==> e.slot.Described?)
    ensures r.template == m.templates[k] && r.sql == ReplaceAll(m.sqlTemplates[k], ColPlaceholder, e.column)
    ensures e == Found(r.slot, r.column, r.isDescription)
    ensures r.score.SlotScores? <==> r.isDescription
    ensures r.isDescription ==> r.score == SlotScores(r.slot.matches)
  {
    MatchResult(
      m.templates[k],
      ReplaceAll(m.sqlTemplates[k], ColPlaceholder, e.column),
      e.slot,
      if e.isDescription then SlotScores(e.slot.matches) else IntentScore(score),
      e.column,
      e.isDescription)
  }

  /**
   * A miss exactly when the slot is falsy, there is no template, or even
   * the nearest template phrase scores below the threshold.
   */
  lemma MissIff(m: Matcher, query: string, sim: Similarity)
    requires Extractable(m) && |m.templates| == |m.sqlTemplates|
    ensures MatchWithSbert(m, query, sim).result.None? <==>
              !Truthy(ExtractSlot(m, query, sim))
              || |m.templates| == 0
              || forall j :: 0 <= j < |m.templates| ==>
                   sim(Generalized(query, SlotText(ExtractSlot(m, query, sim).slot)), IntentPhrase(m.templates[j])) < IntentThreshold
  {
    var e := ExtractSlot(m, query, sim);
    if Truthy(e) && |m.templates| > 0 {
      var clean := Generalized(query, SlotText(e.slot));
      var k := NearestIntent(m, clean, sim).value.0;
      assert NearestTemplate(m, clean, sim, k);
    }
  }

  /**
   * A query written from a template: the template `pre + {ITEM} + post`
   * filled with the extracted literal slot, which occurs exactly once in
   * the query. The query then generalises to that template's own phrase,
   * so when that phrase scores against itself at or above the threshold
   * the query is a hit, on a template at least as close as its own.
   */
  lemma FilledTemplateHits(m: Matcher, sim: Similarity, t: nat, pre: string, slot: string, post: string)
    requires Extractable(m) && |m.templates| == |m.sqlTemplates|
    requires t < |m.templates| && m.templates[t] == pre + Item + post
    requires slot != "" && ExtractSlot(m, pre + slot + post, sim).Found?
    requires ExtractSlot(m, pre + slot + post, sim).slot == Literal(slot)
    requires forall i :: OccursAtCI(pre + slot + post, slot, i) ==> i == |pre|
    requires sim(IntentPhrase(m.templates[t]), IntentPhrase(m.templates[t])) >= IntentThreshold
    ensures MatchWithSbert(m, pre + slot + post, sim).result.Some?
    ensures sim(IntentPhrase(m.templates[t]), IntentPhrase(MatchWithSbert(m, pre + slot + post, sim).result.value.template))
            >= sim(IntentPhrase(m.templates[t]), IntentPhrase(m.templates[t]))
  {
    var q := pre + slot + post;
    GeneralizeFilledTemplate(pre, slot, post);
    assert Generalized(q, SlotText(Literal(slot))) == IntentPhrase(m.templates[t]);
    MissIff(m, q, sim);
    var o := MatchWithSbert(m, q, sim);
    var k :| NearestTemplate(m, Generalized(q, SlotText(o.result.value.slot)), sim, k)
             && o.result.value.template == m.templates[k];
  }
}
