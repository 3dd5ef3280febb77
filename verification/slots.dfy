/**
 * Slot extraction of the matcher: the value the user is asking about and
 * the column it belongs to, found by a fixed cascade: code and ID columns
 * (regex shapes, then exact values), categorical columns (exact values),
 * and finally semantic similarity against the values of text columns.
 */
module SlotExtraction {
  import opened Wrappers
  import opened Text
  import opened Patterns
  import opened CategoricalCache

  /** DESC_SLOT_THRESHOLD: a description must score strictly above this to be a slot. */
  const DescSlotThreshold: real := 0.0

  /** Similarity of two phrases under the sentence-embedding model (cosine of normalised embeddings). */
  type Similarity = (string, string) -> real

  /** The columns part of the schema file that the matcher reads. */
  datatype MatcherSchema = MatcherSchema(
    tableName: string,
    patterns: map<string, seq<Tag>>,
    textColumns: seq<string>,
    categoricalColumns: seq<string>,
    idColumns: seq<string>,
    codeColumns: seq<string>)

  /** The matcher's loaded state: templates, value caches and description values. */
  datatype Matcher = Matcher(
    schema: MatcherSchema,
    templates: seq<string>,
    sqlTemplates: seq<string>,
    cache: map<string, Cache>,
    descValues: map<string, seq<string>>)

  /** One description candidate and its similarity to the query. */
  datatype DescMatch = DescMatch(value: string, score: real)

  /** The slot: a literal value found in the query, or a list of description matches. */
  datatype Slot = Literal(text: string) | Described(matches: seq<DescMatch>)

  /** The triple `(slot, column, is_description_match)`, with `(None, None, False)` as `NoSlot`. */
  datatype Extraction = NoSlot | Found(slot: Slot, column: string, isDescription: bool)

  /**
   * What `extract_slot` needs of the schema so as not to fail: every code
   * and ID column has an entry under `columns` (a missing one is a
   * `KeyError`), and every stored description list is non-empty (an empty
   * one makes `np.argmax` raise).
   */
  predicate Extractable(m: Matcher)
  {
    (forall c :: c in m.schema.codeColumns + m.schema.idColumns ==> c in m.schema.patterns)
    && (forall c :: c in m.descValues ==> |m.descValues[c]| > 0)
  }

  /**
   * The regex pass over one column's pattern list: the first listed shape
   * that is searched for (`CODE-NUMBER` or `LETTERS-NUMBERS`) and occurs in
   * the query gives its first match; other shapes are skipped.
   */
  function TryPatterns(pats: seq<Tag>, query: string): Option<string>
  {
    if |pats| == 0 then None
    else if Searchable(pats[0]) && Find(pats[0], query).Some? then Find(pats[0], query)
    else TryPatterns(pats[1..], query)
  }

  /** The regex pass finds nothing only when no searched shape occurs, and otherwise takes the first shape that does. */
  lemma {:induction false} TryPatternsFirst(pats: seq<Tag>, query: string)
    ensures TryPatterns(pats, query).None? <==>
              forall i :: 0 <= i < |pats| && Searchable(pats[i]) ==> Find(pats[i], query).None?
    ensures TryPatterns(pats, query).Some? ==>
              exists i :: 0 <= i < |pats| && Searchable(pats[i]) && Find(pats[i], query) == TryPatterns(pats, query)
                          && forall j :: 0 <= j < i && Searchable(pats[j]) ==> Find(pats[j], query).None?
  {
    if |pats| > 0 && !(Searchable(pats[0]) && Find(pats[0], query).Some?) {
      var rest := pats[1..];
      TryPatternsFirst(rest, query);
      assert TryPatterns(pats, query) == TryPatterns(rest, query);
      if TryPatterns(rest, query).Some? {
        var i :| 0 <= i < |rest| && Searchable(rest[i]) && Find(rest[i], query) == TryPatterns(rest, query)
                 && forall j :: 0 <= j < i && Searchable(rest[j]) ==> Find(rest[j], query).None?;
        assert pats[i + 1] == rest[i];
        forall j | 0 <= j < i + 1 && Searchable(pats[j]) ensures Find(pats[j], query).None? {
          if j > 0 {
            assert pats[j] == rest[j - 1];
          }
        }
      } else {
        forall j | 0 <= j < |pats| && Searchable(pats[j]) ensures Find(pats[j], query).None? {
          if j > 0 {
            assert pats[j] == rest[j - 1];
          }
        }
      }
    }
  }

  /** The exact-value test of one column, when the column has a cache. */
  function ValueHit(m: Matcher, col: string, query: string): (r: Option<string>)
    ensures r.Some? <==> col in m.cache && LookupIndex(m.cache[col], Lower(query)).Some?
  {
    if col in m.cache then Lookup(m.cache[col], Lower(query)) else None
  }

  /** One code or ID column: its regex shapes first, then its exact values. */
  function ColumnHit(m: Matcher, col: string, query: string): (r: Option<string>)
    requires col in m.schema.patterns
    ensures r.Some? <==> TryPatterns(m.schema.patterns[col], query).Some? || ValueHit(m, col, query).Some?
    ensures TryPatterns(m.schema.patterns[col], query).Some? ==> r == TryPatterns(m.schema.patterns[col], query)
  {
    var byShape := TryPatterns(m.schema.patterns[col], query);
    if byShape.Some? then byShape else ValueHit(m, col, query)
  }

  /** Step 1: the first code or ID column that yields a value, with that value. */
  function IdCodePhase(m: Matcher, cols: seq<string>, query: string): (r: Option<(nat, string)>)
    requires forall c :: c in cols ==> c in m.schema.patterns
    ensures r.Some? ==> r.value.0 < |cols| && ColumnHit(m, cols[r.value.0], query) == Some(r.value.1)
    ensures r.Some? ==> forall j :: 0 <= j < r.value.0 ==> ColumnHit(m, cols[j], query).None?
    ensures r.None? ==> forall j :: 0 <= j < |cols| ==> ColumnHit(m, cols[j], query).None?
  {
    if |cols| == 0 then None
    else
      match ColumnHit(m, cols[0], query)
      case Some(v) => Some((0, v))
      case None =>
        match IdCodePhase(m, cols[1..], query)
        case None => None
        case Some((j, v)) => Some((j + 1, v))
  }

  /** Step 2: the first categorical column whose cached values hit. */
  function CategoricalPhase(m: Matcher, cols: seq<string>, query: string): (r: Option<(nat, string)>)
    ensures r.Some? ==> r.value.0 < |cols| && ValueHit(m, cols[r.value.0], query) == Some(r.value.1)
    ensures r.Some? ==> forall j :: 0 <= j < r.value.0 ==> ValueHit(m, cols[j], query).None?
    ensures r.None? ==> forall j :: 0 <= j < |cols| ==> ValueHit(m, cols[j], query).None?
  {
    if |cols| == 0 then None
    else
      match ValueHit(m, cols[0], query)
      case Some(v) => Some((0, v))
      case None =>
        match CategoricalPhase(m, cols[1..], query)
        case None => None
        case Some((j, v)) => Some((j + 1, v))
  }

  /** `np.argmax`: the first position of the highest similarity to the query. */
  function TopValue(values: seq<string>, query: string, sim: Similarity): (k: nat)
    requires |values| > 0
    ensures k < |values|
    ensures forall j :: 0 <= j < |values| ==> sim(query, values[j]) <= sim(query, values[k])
    ensures forall j :: 0 <= j < k ==> sim(query, values[j]) < sim(query, values[k])
  {
    if |values| == 1 then 0
    else
      var k := TopValue(values[..|values| - 1], query, sim);
      var last := values[|values| - 1];
      assert forall j :: 0 <= j < |values| - 1 ==> values[j] == values[..|values| - 1][j];
      if sim(query, last) > sim(query, values[k]) then |values| - 1 else k
  }

  /** The best description of one text column, which must have stored values. */
  function ColumnBest(m: Matcher, col: string, query: string, sim: Similarity): (d: DescMatch)
    requires col in m.descValues && |m.descValues[col]| > 0
    ensures d.value in m.descValues[col] && d.score == sim(query, d.value)
    ensures forall v :: v in m.descValues[col] ==> sim(query, v) <= d.score
  {
    var vs := m.descValues[col];
    var k := TopValue(vs, query, sim);
    DescMatch(vs[k], sim(query, vs[k]))
  }

  /** A text column with stored values, at position `j` of `cols`. */
  predicate Scored(m: Matcher, cols: seq<string>, j: int)
  {
    0 <= j < |cols| && cols[j] in m.descValues
  }

  /** Each text column's best description, or `None` for a column without stored values. */
  function Candidates(m: Matcher, cols: seq<string>, query: string, sim: Similarity): (c: seq<Option<DescMatch>>)
    requires Extractable(m)
    ensures |c| == |cols|
    ensures forall j :: 0 <= j < |cols| ==> (c[j].Some? <==> Scored(m, cols, j))
    ensures forall j :: Scored(m, cols, j) ==> c[j] == Some(ColumnBest(m, cols[j], query, sim))
  {
    seq(|cols|, j requires 0 <= j < |cols| =>
      if cols[j] in m.descValues then Some(ColumnBest(m, cols[j], query, sim)) else None)
  }

  /**
   * Step 3 from column `i` on: `best` and `acc` are the running best score
   * and match; a column replaces them only with a strictly higher score,
   * so the earliest column wins ties.
   */
  function SemanticScan(cands: seq<Option<DescMatch>>, i: nat, best: real, acc: Option<(nat, DescMatch)>): (r: Option<(nat, DescMatch)>)
    requires i <= |cands|
    ensures r != acc ==> r.Some? && i <= r.value.0 < |cands|
    decreases |cands| - i
  {
    if i == |cands| then acc
    else if cands[i].Some? && cands[i].value.score > best then
      SemanticScan(cands, i + 1, cands[i].value.score, Some((i, cands[i].value)))
    else
      SemanticScan(cands, i + 1, best, acc)
  }

  /**
   * The scan keeps its running best when no later candidate beats it, and
   * otherwise ends on the first candidate of highest score above `best`.
   */
  lemma {:induction false} SemanticScanBest(cands: seq<Option<DescMatch>>, i: nat, best: real, acc: Option<(nat, DescMatch)>)
    requires i <= |cands|
    requires acc.Some? ==> acc.value.0 < i
    ensures var r := SemanticScan(cands, i, best, acc);
            r == acc ==> forall j :: i <= j < |cands| && cands[j].Some? ==> cands[j].value.score <= best
    ensures var r := SemanticScan(cands, i, best, acc);
            r != acc ==> cands[r.value.0] == Some(r.value.1)
                         && r.value.1.score > best
                         && (forall j :: i <= j < |cands| && cands[j].Some? ==> cands[j].value.score <= r.value.1.score)
                         && (forall j :: i <= j < r.value.0 && cands[j].Some? ==> cands[j].value.score < r.value.1.score)
    decreases |cands| - i
  {
    if i < |cands| {
      var r := SemanticScan(cands, i, best, acc);
      if cands[i].Some? && cands[i].value.score > best {
        var d := cands[i].value;
        SemanticScanBest(cands, i + 1, d.score, Some((i, d)));
        assert r == SemanticScan(cands, i + 1, d.score, Some((i, d)));
      } else {
        SemanticScanBest(cands, i + 1, best, acc);
      }
    }
  }

  /** Step 3: the text column and description most similar to the query, above the threshold. */
  function SemanticPhase(m: Matcher, query: string, sim: Similarity): (r: Option<(nat, DescMatch)>)
    requires Extractable(m)
    ensures r.None? <==> forall j :: Scored(m, m.schema.textColumns, j) ==>
                           ColumnBest(m, m.schema.textColumns[j], query, sim).score <= DescSlotThreshold
    ensures r.Some? ==> Scored(m, m.schema.textColumns, r.value.0)
                        && r.value.1 == ColumnBest(m, m.schema.textColumns[r.value.0], query, sim)
                        && r.value.1.score > DescSlotThreshold
    ensures r.Some? ==> forall j :: Scored(m, m.schema.textColumns, j) ==>
                          ColumnBest(m, m.schema.textColumns[j], query, sim).score <= r.value.1.score
    ensures r.Some? ==> forall j :: 0 <= j < r.value.0 && Scored(m, m.schema.textColumns, j) ==>
                          ColumnBest(m, m.schema.textColumns[j], query, sim).score < r.value.1.score
  {
    var c := Candidates(m, m.schema.textColumns, query, sim);
    SemanticScanBest(c, 0, DescSlotThreshold, None);
    SemanticScan(c, 0, DescSlotThreshold, None)
  }

  /**
   * `extract_slot`: the first phase that finds something decides. The
   * returned column belongs to the phase's column list, a description
   * match carries exactly one candidate, and `isDescription` tells the two
   * kinds of slot apart.
   */
  function ExtractSlot(m: Matcher, query: string, sim: Similarity): (r: Extraction)
    requires Extractable(m)
    ensures r.Found? ==> (r.isDescription <==> r.slot.Described?)
    ensures r.Found? && r.slot.Literal? ==>
              r.column in m.schema.codeColumns + m.schema.idColumns + m.schema.categoricalColumns
    ensures r.Found? && r.slot.Described? ==>
              r.column in m.schema.textColumns && r.column in m.descValues
              && |r.slot.matches| == 1 && r.slot.matches[0].value in m.descValues[r.column]
              && r.slot.matches[0].score == sim(query, r.slot.matches[0].value)
              && r.slot.matches[0].score > DescSlotThreshold
  {
    var idCode := m.schema.codeColumns + m.schema.idColumns;
    match IdCodePhase(m, idCode, query)
    case Some((j, v)) => Found(Literal(v), idCode[j], false)
    case None =>
      match CategoricalPhase(m, m.schema.categoricalColumns, query)
      case Some((j, v)) => Found(Literal(v), m.schema.categoricalColumns[j], false)
      case None =>
        match SemanticPhase(m, query, sim)
        case Some((j, d)) => Found(Described([d]), m.schema.textColumns[j], true)
        case None => NoSlot
  }

  /** A code or ID column that yields a value wins over every later column and every other phase. */
  lemma IdCodeFirst(m: Matcher, query: string, sim: Similarity, j: nat)
    requires Extractable(m)
    requires j < |m.schema.codeColumns + m.schema.idColumns|
    requires ColumnHit(m, (m.schema.codeColumns + m.schema.idColumns)[j], query).Some?
    ensures ExtractSlot(m, query, sim).Found? && !ExtractSlot(m, query, sim).isDescription
    ensures exists k :: 0 <= k <= j && ColumnHit(m, (m.schema.codeColumns + m.schema.idColumns)[k], query).Some?
                        && ExtractSlot(m, query, sim) ==
              Found(Literal(ColumnHit(m, (m.schema.codeColumns + m.schema.idColumns)[k], query).value),
                    (m.schema.codeColumns + m.schema.idColumns)[k], false)
  {
    var idCode := m.schema.codeColumns + m.schema.idColumns;
    var r := IdCodePhase(m, idCode, query);
    assert r.Some?;
    assert r.value.0 <= j;
  }

  /** Code columns come before ID columns: a hit in code column `j` decides for a code column no later than `j`. */
  lemma CodeBeforeId(m: Matcher, query: string, sim: Similarity, j: nat)
    requires Extractable(m)
    requires j < |m.schema.codeColumns|
    requires m.schema.codeColumns[j] in m.schema.patterns
    requires ColumnHit(m, m.schema.codeColumns[j], query).Some?
    ensures exists k :: 0 <= k <= j && ExtractSlot(m, query, sim).Found?
                        && ExtractSlot(m, query, sim).column == m.schema.codeColumns[k]
  {
    var idCode := m.schema.codeColumns + m.schema.idColumns;
    assert idCode[j] == m.schema.codeColumns[j];
    IdCodeFirst(m, query, sim, j);
    var k :| 0 <= k <= j && ColumnHit(m, idCode[k], query).Some?
             && ExtractSlot(m, query, sim) == Found(Literal(ColumnHit(m, idCode[k], query).value), idCode[k], false);
    assert idCode[k] == m.schema.codeColumns[k];
  }

  /**
   * The cascade is interleaved per column: once the earlier code and ID
   * columns yield nothing, a column's exact-value hit decides, even if a
   * later column's regex shape would match.
   */
  lemma ExactHitBeatsLaterPattern(m: Matcher, query: string, sim: Similarity, j: nat)
    requires Extractable(m)
    requires j < |m.schema.codeColumns + m.schema.idColumns|
    requires forall k :: 0 <= k < j ==> ColumnHit(m, (m.schema.codeColumns + m.schema.idColumns)[k], query).None?
    requires ValueHit(m, (m.schema.codeColumns + m.schema.idColumns)[j], query).Some?
    ensures ExtractSlot(m, query, sim).Found? && ExtractSlot(m, query, sim).column == (m.schema.codeColumns + m.schema.idColumns)[j]
    ensures TryPatterns(m.schema.patterns[(m.schema.codeColumns + m.schema.idColumns)[j]], query).None? ==>
              ExtractSlot(m, query, sim).slot == Literal(ValueHit(m, (m.schema.codeColumns + m.schema.idColumns)[j], query).value)
  {
    var idCode := m.schema.codeColumns + m.schema.idColumns;
    var r := IdCodePhase(m, idCode, query);
    assert r.Some? && r.value.0 == j;
  }

  /**
   * Categorical values are consulted only when no code or ID column
   * yields a value, and then before any semantic matching.
   */
  lemma CategoricalBeforeSemantic(m: Matcher, query: string, sim: Similarity, j: nat)
    requires Extractable(m)
    requires forall c :: c in m.schema.codeColumns + m.schema.idColumns ==> ColumnHit(m, c, query).None?
    requires j < |m.schema.categoricalColumns|
    requires ValueHit(m, m.schema.categoricalColumns[j], query).Some?
    ensures exists k :: 0 <= k <= j && ValueHit(m, m.schema.categoricalColumns[k], query).Some?
                        && ExtractSlot(m, query, sim) ==
              Found(Literal(ValueHit(m, m.schema.categoricalColumns[k], query).value),
                    m.schema.categoricalColumns[k], false)
  {
    var idCode := m.schema.codeColumns + m.schema.idColumns;
    var r := IdCodePhase(m, idCode, query);
    if r.Some? {
      assert idCode[r.value.0] in idCode;
    }
    var s := CategoricalPhase(m, m.schema.categoricalColumns, query);
    assert s.Some?;
    assert s.value.0 <= j;
  }

  /**
   * No slot at all exactly when no code, ID or categorical column yields a
   * value and no stored description scores above the threshold.
   */
  lemma NoSlotIff(m: Matcher, query: string, sim: Similarity)
    requires Extractable(m)
    ensures ExtractSlot(m, query, sim).NoSlot? <==>
              (forall c :: c in m.schema.codeColumns + m.schema.idColumns ==> ColumnHit(m, c, query).None?)
              && (forall c :: c in m.schema.categoricalColumns ==> ValueHit(m, c, query).None?)
              && (forall c, v :: c in m.schema.textColumns && c in m.descValues && v in m.descValues[c] ==>
                    sim(query, v) <= DescSlotThreshold)
  {
    var idCode := m.schema.codeColumns + m.schema.idColumns;
    var cats := m.schema.categoricalColumns;
    var texts := m.schema.textColumns;
    var r := IdCodePhase(m, idCode, query);
    var s := CategoricalPhase(m, cats, query);
    var t := SemanticPhase(m, query, sim);
    if r.None? && s.None? && t.None? {
      forall c | c in idCode ensures ColumnHit(m, c, query).None? {
        var j :| 0 <= j < |idCode| && idCode[j] == c;
      }
      forall c | c in cats ensures ValueHit(m, c, query).None? {
        var j :| 0 <= j < |cats| && cats[j] == c;
      }
      forall c, v | c in texts && c in m.descValues && v in m.descValues[c]
        ensures sim(query, v) <= DescSlotThreshold
      {
        var j :| 0 <= j < |texts| && texts[j] == c;
        assert Scored(m, texts, j);
      }
    }
    if r.Some? {
      assert idCode[r.value.0] in idCode;
    } else if s.Some? {
      assert cats[s.value.0] in cats;
    } else if t.Some? {
      var d := t.value.1;
      var c := texts[t.value.0];
      assert c in texts && c in m.descValues && d.value in m.descValues[c] && sim(query, d.value) > DescSlotThreshold;
    }
  }

  /**
   * When no code, ID or categorical column yields a value, the slot is the
   * semantic phase's choice: its column and best description, as a
   * description match, or no slot when that phase finds none.
   */
  lemma SemanticFallback(m: Matcher, query: string, sim: Similarity)
    requires Extractable(m)
    requires forall c :: c in m.schema.codeColumns + m.schema.idColumns ==> ColumnHit(m, c, query).None?
    requires forall c :: c in m.schema.categoricalColumns ==> ValueHit(m, c, query).None?
    ensures ExtractSlot(m, query, sim) ==
              match SemanticPhase(m, query, sim)
              case Some((j, d)) => Found(Described([d]), m.schema.textColumns[j], true)
              case None => NoSlot
  {
    var idCode := m.schema.codeColumns + m.schema.idColumns;
    var r := IdCodePhase(m, idCode, query);
    if r.Some? {
      assert idCode[r.value.0] in idCode;
    }
  }

  /**
   * A literal slot is the value of a hit: either a code or ID column's
   * hit, every earlier such column missing, or a categorical column's
   * exact-value hit, every code and ID column and every earlier
   * categorical column missing.
   */
  lemma LiteralFromHit(m: Matcher, query: string, sim: Similarity)
    requires Extractable(m)
    requires ExtractSlot(m, query, sim).Found? && ExtractSlot(m, query, sim).slot.Literal?
    ensures var idCode := m.schema.codeColumns + m.schema.idColumns;
            var cats := m.schema.categoricalColumns;
            var r := ExtractSlot(m, query, sim);
            (exists j :: 0 <= j < |idCode| && idCode[j] == r.column
                         && ColumnHit(m, idCode[j], query) == Some(r.slot.text)
                         && forall k :: 0 <= k < j ==> ColumnHit(m, idCode[k], query).None?)
            || ((forall k :: 0 <= k < |idCode| ==> ColumnHit(m, idCode[k], query).None?)
                && exists j :: 0 <= j < |cats| && cats[j] == r.column
                               && ValueHit(m, cats[j], query) == Some(r.slot.text)
                               && forall k :: 0 <= k < j ==> ValueHit(m, cats[k], query).None?)
  {
    var idCode := m.schema.codeColumns + m.schema.idColumns;
    var r := IdCodePhase(m, idCode, query);
    if r.None? {
      var s := CategoricalPhase(m, m.schema.categoricalColumns, query);
      assert s.Some?;
    }
  }

  /**
   * Exact-value hits are unanchored substring tests: with a cache built
   * from a column's values, a column hits exactly when one of its values,
   * lower-cased, occurs in the lower-cased query, and the value returned
   * is such a value.
   */
  lemma ValueHitBuilt(m: Matcher, col: string, values: seq<string>, query: string)
    requires col in m.cache && m.cache[col] == Build(values)
    ensures ValueHit(m, col, query).Some? <==> exists i :: 0 <= i < |values| && Contains(Lower(query), Lower(values[i]))
    ensures ValueHit(m, col, query).Some? ==>
              ValueHit(m, col, query).value in values && Contains(Lower(query), Lower(ValueHit(m, col, query).value))
  {
    LookupBuilt(values, query);
  }
}
