/**
 * The schema analyser: every column of the table gets a category from its
 * pandas dtype, its name and a sample of its values, string columns get
 * their structural pattern tags, and the column names are collected into
 * one list per category.
 */
module SchemaAnalysis {
  import opened Text
  import opened Patterns

  /** TEXT_COLUMNS_MIN_LENGTH: the average length a text column must exceed. */
  const TextColumnsMinLength: nat := 10

  /** MAX_UNIQUE_VALUES_FOR_CATEGORICAL: a categorical column has fewer distinct values than this. */
  const MaxUniqueValuesForCategorical: nat := 50

  datatype Category = TextCol | NumericCol | CategoricalCol | DateCol | IdCol | CodeCol | UnknownCol

  /** The dtype pandas gives a column's non-null values. */
  datatype DType = ObjectDtype | NumericDtype | DatetimeDtype | OtherDtype

  /**
   * One row of `PRAGMA table_info` with the column's sampled data:
   * `values` are the non-null values of the first 1000 rows, in row
   * order, as `str()` renders them.
   */
  datatype ColumnInfo = ColumnInfo(name: string, sqlType: string, isPk: bool, dtype: DType, values: seq<string>)

  /** The part of a column's analysis that later stages read. */
  datatype ColumnAnalysis = ColumnAnalysis(name: string, sqlType: string, category: Category, patterns: set<Tag>)

  /**
   * The analysed schema. `columns` is the `columns` dict in insertion
   * order; SQLite table column names are distinct, so it has one entry
   * per table column.
   */
  datatype Schema = Schema(
    tableName: string,
    columns: seq<ColumnAnalysis>,
    primaryKeys: seq<string>,
    textColumns: seq<string>,
    numericColumns: seq<string>,
    categoricalColumns: seq<string>,
    dateColumns: seq<string>,
    idColumns: seq<string>,
    codeColumns: seq<string>)

  /** The name fragments that mark an identifier or code column. */
  const IdKeywords: seq<string> := ["id", "key", "number", "code", "sku"]

  /** Descriptive fragments that override an identifier fragment. */
  const DescriptiveOverride: seq<string> := ["description", "desc", "name", "title"]

  /** Descriptive fragments that make a column text. */
  const DescriptiveKeywords: seq<string> := ["description", "desc", "name", "title", "comment", "note", "detail"]

  /** `any(keyword in name for keyword in keywords)`. */
  predicate AnyIn(name: string, keywords: seq<string>)
  {
    exists i :: 0 <= i < |keywords| && Contains(name, keywords[i])
  }

  function SumLengths(values: seq<string>): nat
  {
    if |values| == 0 then 0 else |values[0]| + SumLengths(values[1..])
  }

  /** `nunique()`: the number of distinct values. */
  function DistinctCount(values: seq<string>): nat
  {
    |set v | v in values|
  }

  /**
   * `_categorize_text_column`: name keywords first, then the first value's
   * shape, then the average length and uniqueness ratio (computed in
   * floating point by the source, here exactly), then the distinct count.
   */
  function CategorizeText(values: seq<string>, name: string): (c: Category)
    requires |values| > 0
    ensures c == TextCol || c == IdCol || c == CodeCol || c == CategoricalCol
  {
    var lower := Lower(name);
    if AnyIn(lower, IdKeywords) then
      if AnyIn(lower, DescriptiveOverride) then TextCol
      else if Contains(lower, "id") then IdCol
      else CodeCol
    else if AnyIn(lower, DescriptiveKeywords) then TextCol
    else if MatchesCodeNumber(values[0]) then CodeCol
    else ContentCategory(values)
  }

  /** The last rules of `_categorize_text_column`, on the values' average length and uniqueness. */
  function ContentCategory(values: seq<string>): Category
    requires |values| > 0
  {
    var n := |values| as real;
    var avgLen := (SumLengths(values) as real) / n;
    var uniqueRatio := (DistinctCount(values) as real) / n;
    if avgLen > TextColumnsMinLength as real && uniqueRatio > 0.5 then TextCol
    else if DistinctCount(values) < MaxUniqueValuesForCategorical then CategoricalCol
    else TextCol
  }

  /** For a positive count, `x / n > k` is `x > k * n`. */
  lemma RatioAbove(x: real, n: real, k: real)
    requires n > 0.0
    ensures x / n > k <==> x > k * n
  {
    var q := x / n;
    assert q * n == x;
    if q > k {
      assert (q - k) * n > 0.0;
    } else {
      assert (k - q) * n >= 0.0;
    }
  }

  /**
   * The content rules in integer arithmetic: long and mostly unique means
   * text, few distinct values means categorical, anything else is text.
   */
  lemma ContentCategoryByCounts(values: seq<string>)
    requires |values| > 0
    ensures var n := |values|;
            ContentCategory(values) ==
              if SumLengths(values) > TextColumnsMinLength * n && 2 * DistinctCount(values) > n then TextCol
              else if DistinctCount(values) < MaxUniqueValuesForCategorical then CategoricalCol
              else TextCol
  {
    var n := |values|;
    var sum := SumLengths(values);
    var d := DistinctCount(values);
    RatioAbove(sum as real, n as real, TextColumnsMinLength as real);
    RatioAbove(d as real, n as real, 0.5);
    assert (TextColumnsMinLength as real) * (n as real) == (TextColumnsMinLength * n) as real;
    assert 0.5 * (n as real) < d as real <==> n < 2 * d;
  }

  /** Names without keywords and a first value not shaped like a code leave the decision to the content. */
  lemma CategorizeTextByContent(values: seq<string>, name: string)
    requires |values| > 0
    requires !AnyIn(Lower(name), IdKeywords) && !AnyIn(Lower(name), DescriptiveKeywords)
    requires !HasShape(CodeNumber, values[0])
    ensures CategorizeText(values, name) == ContentCategory(values)
  {
    MatchesCodeNumberIff(values[0]);
  }

  /** When the name has an identifier or descriptive fragment, the values do not matter. */
  lemma NameKeywordsDecide(values: seq<string>, others: seq<string>, name: string)
    requires |values| > 0 && |others| > 0
    requires AnyIn(Lower(name), IdKeywords) || AnyIn(Lower(name), DescriptiveKeywords)
    ensures CategorizeText(values, name) == CategorizeText(others, name)
  {
  }

  /** The identifier rule in full: a name with an identifier fragment and no override is `id` exactly when it contains "id". */
  lemma IdentifierNames(values: seq<string>, name: string)
    requires |values| > 0
    requires AnyIn(Lower(name), IdKeywords) && !AnyIn(Lower(name), DescriptiveOverride)
    ensures CategorizeText(values, name) == (if Contains(Lower(name), "id") then IdCol else CodeCol)
  {
  }

  /** The fragment test is a plain substring test: a name such as `width` reads as an identifier. */
  lemma WidthIsIdentifier(values: seq<string>)
    requires |values| > 0
    ensures CategorizeText(values, "width") == IdCol
  {
    assert Lower("width") == "width";
    assert OccursAt("width", "id", 1);
    assert Contains("width", IdKeywords[0]);
    AbsentChar("width", "description", 10);
    AbsentChar("width", "desc", 3);
    AbsentChar("width", "name", 3);
    AbsentChar("width", "title", 4);
    assert !AnyIn("width", DescriptiveOverride);
  }

  /**
   * `_analyze_column`: an all-null column stays unknown with no patterns;
   * string columns are categorised by name and content and get pattern
   * tags; numeric columns are numeric or, by name, id; datetime columns
   * are dates.
   */
  function AnalyzeColumn(c: ColumnInfo): (a: ColumnAnalysis)
    ensures a.name == c.name && a.sqlType == c.sqlType
    ensures |c.values| == 0 ==> a.category == UnknownCol && a.patterns == {}
    ensures a.patterns != {} ==> c.dtype == ObjectDtype
  {
    if |c.values| == 0 then ColumnAnalysis(c.name, c.sqlType, UnknownCol, {})
    else
      match c.dtype
      case ObjectDtype =>
        ColumnAnalysis(c.name, c.sqlType, CategorizeText(c.values, c.name), DetectPatterns(c.values))
      case NumericDtype =>
        var lower := Lower(c.name);
        var category := if EndsWith(lower, "id") || Contains(lower, "id") then IdCol else NumericCol;
        ColumnAnalysis(c.name, c.sqlType, category, {})
      case DatetimeDtype => ColumnAnalysis(c.name, c.sqlType, DateCol, {})
      case OtherDtype => ColumnAnalysis(c.name, c.sqlType, UnknownCol, {})
  }

  /**
   * The category of a column with values, by dtype: numeric columns are
   * `id` exactly when the lower-cased name contains "id" (the suffix test
   * adds nothing), and only string columns can be text, categorical or code.
   */
  lemma AnalyzeColumnByDtype(c: ColumnInfo)
    requires |c.values| > 0
    ensures c.dtype == NumericDtype ==>
              AnalyzeColumn(c).category == (if Contains(Lower(c.name), "id") then IdCol else NumericCol)
    ensures c.dtype == DatetimeDtype ==> AnalyzeColumn(c).category == DateCol
    ensures c.dtype == OtherDtype ==> AnalyzeColumn(c).category == UnknownCol
    ensures AnalyzeColumn(c).category in {TextCol, CategoricalCol, CodeCol} ==> c.dtype == ObjectDtype
    ensures c.dtype == ObjectDtype ==>
              AnalyzeColumn(c).category != UnknownCol
              && forall t :: t in AnalyzeColumn(c).patterns <==>
                   exists i :: 0 <= i < |c.values| && i < SampleSize && HasShape(t, c.values[i])
  {
    var lower := Lower(c.name);
    if EndsWith(lower, "id") {
      assert OccursAt(lower, "id", |lower| - 2);
    }
  }

  /** The bucket list of a category; unknown columns have none. */
  function Bucket(s: Schema, cat: Category): seq<string>
  {
    match cat
    case TextCol => s.textColumns
    case NumericCol => s.numericColumns
    case CategoricalCol => s.categoricalColumns
    case DateCol => s.dateColumns
    case IdCol => s.idColumns
    case CodeCol => s.codeColumns
    case UnknownCol => []
  }

  function EmptySchema(tableName: string): (s: Schema)
    ensures forall cat :: Bucket(s, cat) == []
  {
    Schema(tableName, [], [], [], [], [], [], [], [])
  }

  /** One iteration of the `analyze_schema` loop. */
  function AddColumn(s: Schema, c: ColumnInfo): (r: Schema)
    ensures r.tableName == s.tableName
    ensures r.columns == s.columns + [AnalyzeColumn(c)]
    ensures r.primaryKeys == s.primaryKeys + (if c.isPk then [c.name] else [])
    ensures forall cat :: Bucket(r, cat) ==
              Bucket(s, cat) + (if cat == AnalyzeColumn(c).category && cat != UnknownCol then [c.name] else [])
  {
    AddAnalyzed(s, AnalyzeColumn(c), c.isPk)
  }

  /** The loop step once the column has been analysed. */
  function AddAnalyzed(s: Schema, a: ColumnAnalysis, isPk: bool): (r: Schema)
    ensures r.tableName == s.tableName
    ensures r.columns == s.columns + [a]
    ensures r.primaryKeys == s.primaryKeys + (if isPk then [a.name] else [])
    ensures forall cat :: Bucket(r, cat) ==
              Bucket(s, cat) + (if cat == a.category && cat != UnknownCol then [a.name] else [])
  {
    var pks := s.primaryKeys + (if isPk then [a.name] else []);
    var s' := s.(columns := s.columns + [a], primaryKeys := pks);
    match a.category
    case TextCol => s'.(textColumns := s.textColumns + [a.name])
    case NumericCol => s'.(numericColumns := s.numericColumns + [a.name])
    case CategoricalCol => s'.(categoricalColumns := s.categoricalColumns + [a.name])
    case DateCol => s'.(dateColumns := s.dateColumns + [a.name])
    case IdCol => s'.(idColumns := s.idColumns + [a.name])
    case CodeCol => s'.(codeColumns := s.codeColumns + [a.name])
    case UnknownCol => s'
  }


  /**
   * `analyze_schema` over the columns in table order: the `columns`
   * entries are the analyses of the table's columns, in table order.
   */
  function AnalyzeSchema(tableName: string, cols: seq<ColumnInfo>): (s: Schema)
    ensures s.tableName == tableName
    ensures |s.columns| == |cols| && forall i :: 0 <= i < |cols| ==> s.columns[i] == AnalyzeColumn(cols[i])
    decreases |cols|
  {
    if |cols| == 0 then EmptySchema(tableName)
    else
      var prev := AnalyzeSchema(tableName, cols[..|cols| - 1]);
      var r := AddColumn(prev, cols[|cols| - 1]);
      SnocMapped(r.columns, prev.columns, cols, AnalyzeColumn);
      r
  }

  /** Reference definition: the names of the columns of one category, in table order. */
  function NamesIn(cols: seq<ColumnInfo>, cat: Category): seq<string>
  {
    if |cols| == 0 then []
    else
      (if cat != UnknownCol && AnalyzeColumn(cols[0]).category == cat then [cols[0].name] else [])
      + NamesIn(cols[1..], cat)
  }

  /** Reference definition: the names of the primary-key columns, in table order. */
  function PkNames(cols: seq<ColumnInfo>): seq<string>
  {
    if |cols| == 0 then [] else (if cols[0].isPk then [cols[0].name] else []) + PkNames(cols[1..])
  }

  lemma {:induction false} NamesInSnoc(cols: seq<ColumnInfo>, c: ColumnInfo, cat: Category)
    ensures NamesIn(cols + [c], cat) ==
            NamesIn(cols, cat) + (if cat != UnknownCol && AnalyzeColumn(c).category == cat then [c.name] else [])
    decreases |cols|
  {
    if |cols| == 0 {
      assert cols + [c] == [c];
    } else {
      assert (cols + [c])[1..] == cols[1..] + [c];
      assert (cols + [c])[0] == cols[0];
      NamesInSnoc(cols[1..], c, cat);
      ConcatAssoc((if cat != UnknownCol && AnalyzeColumn(cols[0]).category == cat then [cols[0].name] else []),
                  NamesIn(cols[1..], cat),
                  (if cat != UnknownCol && AnalyzeColumn(c).category == cat then [c.name] else []));
    }
  }

  lemma {:induction false} PkNamesSnoc(cols: seq<ColumnInfo>, c: ColumnInfo)
    ensures PkNames(cols + [c]) == PkNames(cols) + (if c.isPk then [c.name] else [])
    decreases |cols|
  {
    if |cols| == 0 {
      assert cols + [c] == [c];
    } else {
      assert (cols + [c])[1..] == cols[1..] + [c];
      assert (cols + [c])[0] == cols[0];
      PkNamesSnoc(cols[1..], c);
      ConcatAssoc((if cols[0].isPk then [cols[0].name] else []), PkNames(cols[1..]), (if c.isPk then [c.name] else []));
    }
  }

  lemma ConcatAssoc<T>(a: seq<T>, b: seq<T>, c: seq<T>)
    ensures a + (b + c) == (a + b) + c
  {
  }

  /**
   * Every bucket lists exactly the columns of its category, in table
   * order, and `primary_keys` lists exactly the key columns, in order.
   */
  lemma {:induction false} AnalyzeSchemaBuckets(tableName: string, cols: seq<ColumnInfo>)
    ensures forall cat :: Bucket(AnalyzeSchema(tableName, cols), cat) == NamesIn(cols, cat)
    ensures AnalyzeSchema(tableName, cols).primaryKeys == PkNames(cols)
    decreases |cols|
  {
    if |cols| > 0 {
      var init := cols[..|cols| - 1];
      var c := cols[|cols| - 1];
      assert cols == init + [c];
      AnalyzeSchemaBuckets(tableName, init);
      forall cat ensures Bucket(AnalyzeSchema(tableName, cols), cat) == NamesIn(cols, cat) {
        NamesInSnoc(init, c, cat);
      }
      PkNamesSnoc(init, c);
    }
  }

  /** Appending the image of the last element to the images of the others gives the images of all. */
  lemma SnocMapped<A, B>(r: seq<B>, prev: seq<B>, xs: seq<A>, f: A -> B)
    requires |xs| > 0 && r == prev + [f(xs[|xs| - 1])]
    requires |prev| == |xs| - 1 && forall i :: 0 <= i < |prev| ==> prev[i] == f(xs[..|xs| - 1][i])
    ensures |r| == |xs| && forall i :: 0 <= i < |xs| ==> r[i] == f(xs[i])
  {
    forall i | 0 <= i < |xs| ensures r[i] == f(xs[i]) {
      if i < |prev| {
        assert xs[..|xs| - 1][i] == xs[i];
      }
    }
  }

  /** `schema['columns'].keys()`: the column names in insertion order. */
  function ColumnNames(s: Schema): (names: seq<string>)
    ensures |names| == |s.columns|
    ensures forall i :: 0 <= i < |names| ==> names[i] == s.columns[i].name
  {
    seq(|s.columns|, i requires 0 <= i < |s.columns| => s.columns[i].name)
  }

  lemma {:induction false} NamesInMember(cols: seq<ColumnInfo>, cat: Category, n: string)
    ensures n in NamesIn(cols, cat) <==>
              cat != UnknownCol && exists i :: 0 <= i < |cols| && cols[i].name == n && AnalyzeColumn(cols[i]).category == cat
    decreases |cols|
  {
    if |cols| > 0 {
      NamesInMember(cols[1..], cat, n);
      assert forall i :: 1 <= i < |cols| ==> cols[i] == cols[1..][i - 1];
      if n in NamesIn(cols[1..], cat) {
        var i :| 0 <= i < |cols[1..]| && cols[1..][i].name == n && AnalyzeColumn(cols[1..][i]).category == cat;
        assert cols[i + 1].name == n;
      }
    }
  }

  /**
   * With distinct column names, each column is in exactly the bucket of
   * its category, so the buckets are pairwise disjoint and an unknown
   * column is in none.
   */
  lemma ExactlyOneBucket(tableName: string, cols: seq<ColumnInfo>, i: nat, cat: Category)
    requires i < |cols|
    requires forall j, k :: 0 <= j < k < |cols| ==> cols[j].name != cols[k].name
    ensures cols[i].name in Bucket(AnalyzeSchema(tableName, cols), cat) <==>
              cat == AnalyzeColumn(cols[i]).category && cat != UnknownCol
  {
    AnalyzeSchemaBuckets(tableName, cols);
    NamesInMember(cols, cat, cols[i].name);
  }
}
