/**
 * The template generator: a fixed list of natural-language templates with
 * an `{ITEM}` placeholder and matching SQL with a `{COL}` placeholder,
 * produced from the analysed schema's column lists.
 */
module TemplateGen {
  import opened Text
  import opened Generalize
  import opened SchemaAnalysis

  /** The tail every generated SQL statement ends with. */
  const WhereClause: string := " WHERE {COL} = ?"

  const PriceKeywords: seq<string> := ["price", "cost", "amount", "value"]
  const QuantityKeywords: seq<string> := ["quantity", "count", "stock", "amount"]

  /** How many generic templates are always appended. */
  const GenericCount: nat := 7

  /** `col_name.lower().replace('_', ' ')`. */
  function DisplayName(col: string): (d: string)
    ensures |d| == |col|
    ensures forall i :: 0 <= i < |col| ==> d[i] == if col[i] == '_' then ' ' else ToLower(col[i])
  {
    ReplaceCharPointwise(Lower(col), '_', ' ');
    ReplaceAll(Lower(col), "_", " ")
  }

  /** `SELECT <what> FROM <table> WHERE {COL} = ?`. */
  function SelectSql(table: string, what: string): string
  {
    "SELECT " + what + " FROM " + table + WhereClause
  }

  /** The three basic templates of one column. */
  function BasicFor(table: string, col: string): seq<TemplateEntry>
  {
    var d := DisplayName(col);
    [ TemplateEntry("what is the " + d + " of " + Item, SelectSql(table, col)),
      TemplateEntry("show " + d + " of " + Item, SelectSql(table, col)),
      TemplateEntry("get " + d + " for " + Item, SelectSql(table, col)) ]
  }

  /** The price templates and the quantity templates of one numeric column, each when its keywords occur. */
  function NumericFor(table: string, col: string): seq<TemplateEntry>
  {
    var d := DisplayName(col);
    var sql := SelectSql(table, col);
    (if AnyIn(d, PriceKeywords) then
       [ TemplateEntry("how much does " + Item + " cost", sql),
         TemplateEntry("how much is " + Item, sql),
         TemplateEntry("price of " + Item, sql) ]
     else [])
    + (if AnyIn(d, QuantityKeywords) then
         [ TemplateEntry("how many " + Item + " do we have", sql),
           TemplateEntry("available stock of " + Item, sql),
           TemplateEntry("check stock of " + Item, sql) ]
       else [])
  }

  function TextFor(table: string, col: string): seq<TemplateEntry>
  {
    [ TemplateEntry("describe " + Item, SelectSql(table, col)),
      TemplateEntry("tell me about " + Item, SelectSql(table, col)) ]
  }

  /** The date template: the display name with every `date` removed, then stripped. */
  function DateFor(table: string, col: string): seq<TemplateEntry>
  {
    var rest := Strip(ReplaceAll(DisplayName(col), "date", ""));
    [ TemplateEntry("when was " + Item + " " + rest, SelectSql(table, col)) ]
  }

  function CategoricalFor(table: string, col: string): seq<TemplateEntry>
  {
    var d := DisplayName(col);
    [ TemplateEntry("what " + d + " is " + Item, SelectSql(table, col)),
      TemplateEntry(Item + " " + d, SelectSql(table, col)) ]
  }

  function GenericTemplates(table: string): seq<TemplateEntry>
  {
    var sql := SelectSql(table, "*");
    [ TemplateEntry(Item, sql),
      TemplateEntry("show me " + Item, sql),
      TemplateEntry("give me all details for " + Item, sql),
      TemplateEntry("tell me everything about " + Item, sql),
      TemplateEntry("show all information for " + Item, sql),
      TemplateEntry("details of " + Item, sql),
      TemplateEntry("information about " + Item, sql) ]
  }

  /** Which per-column generator a group uses. */
  datatype Kind = Basic | Numeric | TextKind | Date | Categorical

  function For(kind: Kind, table: string, col: string): seq<TemplateEntry>
  {
    match kind
    case Basic => BasicFor(table, col)
    case Numeric => NumericFor(table, col)
    case TextKind => TextFor(table, col)
    case Date => DateFor(table, col)
    case Categorical => CategoricalFor(table, col)
  }

  /** The per-column template lists of one group, in column order. */
  function Blocks(kind: Kind, table: string, cols: seq<string>): (b: seq<seq<TemplateEntry>>)
    ensures |b| == |cols|
  {
    seq(|cols|, i requires 0 <= i < |cols| => For(kind, table, cols[i]))
  }

  function Flatten(blocks: seq<seq<TemplateEntry>>): seq<TemplateEntry>
  {
    if |blocks| == 0 then [] else blocks[0] + Flatten(blocks[1..])
  }

  /** The templates of one group: the column's templates, column after column. */
  function Group(kind: Kind, table: string, cols: seq<string>): seq<TemplateEntry>
  {
    Flatten(Blocks(kind, table, cols))
  }

  /** The templates between the basic and the generic ones: numeric, text, date, categorical. */
  function TypedTemplates(s: Schema): seq<TemplateEntry>
  {
    var t := s.tableName;
    Group(Numeric, t, s.numericColumns)
    + Group(TextKind, t, s.textColumns)
    + Group(Date, t, s.dateColumns)
    + Group(Categorical, t, s.categoricalColumns)
  }

  /**
   * `generate_templates`: three per column, then the typed groups, then
   * the seven generic ones, so the total is fixed by the schema's buckets.
   */
  function GenerateTemplates(s: Schema): (r: seq<TemplateEntry>)
    ensures |r| == 3 * |s.columns| + NumericTotal(s.numericColumns) + 2 * |s.textColumns|
                   + |s.dateColumns| + 2 * |s.categoricalColumns| + GenericCount
  {
    var t := s.tableName;
    BlocksUniform(Basic, t, ColumnNames(s), 3);
    FlattenSize(Blocks(Basic, t, ColumnNames(s)), 3);
    TypedCount(s);
    GenericSql(t);
    Group(Basic, t, ColumnNames(s)) + TypedTemplates(s) + GenericTemplates(t)
  }

  /** How many templates a numeric column yields. */
  function NumericSize(col: string): nat
  {
    (if AnyIn(DisplayName(col), PriceKeywords) then 3 else 0)
    + (if AnyIn(DisplayName(col), QuantityKeywords) then 3 else 0)
  }

  function NumericTotal(cols: seq<string>): nat
  {
    if |cols| == 0 then 0 else NumericSize(cols[0]) + NumericTotal(cols[1..])
  }

  /** A numeric column yields 0, 3 or 6 templates, and 6 whenever its name contains "amount". */
  lemma NumericForSize(table: string, col: string)
    ensures |NumericFor(table, col)| == NumericSize(col)
    ensures NumericSize(col) in {0, 3, 6}
    ensures Contains(DisplayName(col), "amount") ==> NumericSize(col) == 6
  {
    var d := DisplayName(col);
    if Contains(d, "amount") {
      assert Contains(d, PriceKeywords[2]);
      assert Contains(d, QuantityKeywords[3]);
    }
  }

  predicate Uniform(blocks: seq<seq<TemplateEntry>>, k: nat)
  {
    forall i :: 0 <= i < |blocks| ==> |blocks[i]| == k
  }

  /** Blocks of `k` entries each flatten to `k` entries per block. */
  lemma {:induction false} FlattenSize(blocks: seq<seq<TemplateEntry>>, k: nat)
    requires Uniform(blocks, k)
    ensures |Flatten(blocks)| == k * |blocks|
    decreases |blocks|
  {
    if |blocks| > 0 {
      FlattenSize(blocks[1..], k);
      assert k * |blocks| == k + k * (|blocks| - 1);
    }
  }

  /** Entry `r` of block `i` sits at position `k * i + r` of the flattened list. */
  lemma {:induction false} FlattenAt(blocks: seq<seq<TemplateEntry>>, k: nat, i: nat, r: nat)
    requires Uniform(blocks, k) && i < |blocks| && r < k
    ensures k * i + r < |Flatten(blocks)| && Flatten(blocks)[k * i + r] == blocks[i][r]
    decreases i
  {
    FlattenSize(blocks, k);
    if i > 0 {
      FlattenAt(blocks[1..], k, i - 1, r);
      assert k * i + r == k + (k * (i - 1) + r);
      assert |blocks[0]| == k;
    }
  }

  /** Every flattened entry comes from some block. */
  lemma {:induction false} FlattenMember(blocks: seq<seq<TemplateEntry>>, e: TemplateEntry)
    ensures e in Flatten(blocks) ==> exists i :: 0 <= i < |blocks| && e in blocks[i]
    decreases |blocks|
  {
    if |blocks| > 0 {
      FlattenMember(blocks[1..], e);
      if e in Flatten(blocks[1..]) {
        var i :| 0 <= i < |blocks[1..]| && e in blocks[1..][i];
        assert e in blocks[i + 1];
      }
    }
  }

  lemma {:induction false} NumericGroupSize(table: string, cols: seq<string>)
    ensures |Group(Numeric, table, cols)| == NumericTotal(cols)
    decreases |cols|
  {
    if |cols| > 0 {
      NumericForSize(table, cols[0]);
      NumericGroupSize(table, cols[1..]);
      assert Blocks(Numeric, table, cols)[1..] == Blocks(Numeric, table, cols[1..]);
    }
  }

  /** Templates per column of the fixed-size groups. */
  lemma BlocksUniform(kind: Kind, table: string, cols: seq<string>, k: nat)
    requires kind != Numeric
    requires k == match kind case Basic => 3 case TextKind => 2 case Date => 1 case _ => 2
    ensures Uniform(Blocks(kind, table, cols), k)
  {
  }

  lemma TypedCount(s: Schema)
    ensures |TypedTemplates(s)| ==
              NumericTotal(s.numericColumns) + 2 * |s.textColumns| + |s.dateColumns| + 2 * |s.categoricalColumns|
  {
    var t := s.tableName;
    NumericGroupSize(t, s.numericColumns);
    BlocksUniform(TextKind, t, s.textColumns, 2);
    FlattenSize(Blocks(TextKind, t, s.textColumns), 2);
    BlocksUniform(Date, t, s.dateColumns, 1);
    FlattenSize(Blocks(Date, t, s.dateColumns), 1);
    BlocksUniform(Categorical, t, s.categoricalColumns, 2);
    FlattenSize(Blocks(Categorical, t, s.categoricalColumns), 2);
  }

  /** Positions in a three-part concatenation. */
  lemma ConcatParts(a: seq<TemplateEntry>, m: seq<TemplateEntry>, g: seq<TemplateEntry>)
    ensures forall n :: 0 <= n < |a| ==> (a + m + g)[n] == a[n]
    ensures forall n :: |a| + |m| <= n < |a| + |m| + |g| ==> (a + m + g)[n] == g[n - |a| - |m|]
  {
  }

  /**
   * The basic templates come first, three per column in column order,
   * each selecting its column.
   */
  lemma GenerateTemplatesBasicFirst(s: Schema)
    ensures |GenerateTemplates(s)| >= 3 * |s.columns|
    ensures forall n :: 0 <= n < 3 * |s.columns| ==>
              GenerateTemplates(s)[n].sql == SelectSql(s.tableName, s.columns[n / 3].name)
  {
    var t := s.tableName;
    var blocks := Blocks(Basic, t, ColumnNames(s));
    BlocksUniform(Basic, t, ColumnNames(s), 3);
    FlattenSize(blocks, 3);
    var basic := Group(Basic, t, ColumnNames(s));
    ConcatParts(basic, TypedTemplates(s), GenericTemplates(t));
    forall n | 0 <= n < 3 * |s.columns| ensures basic[n].sql == SelectSql(t, s.columns[n / 3].name) {
      FlattenAt(blocks, 3, n / 3, n % 3);
    }
  }

  /** The seven generic templates come last, each selecting every column. */
  lemma GenerateTemplatesGenericLast(s: Schema)
    ensures |GenerateTemplates(s)| >= GenericCount
    ensures forall n :: |GenerateTemplates(s)| - GenericCount <= n < |GenerateTemplates(s)| ==>
              GenerateTemplates(s)[n] == GenericTemplates(s.tableName)[n - (|GenerateTemplates(s)| - GenericCount)]
              && GenerateTemplates(s)[n].sql == SelectSql(s.tableName, "*")
  {
    var t := s.tableName;
    GenericSql(t);
    ConcatParts(Group(Basic, t, ColumnNames(s)), TypedTemplates(s), GenericTemplates(t));
  }

  lemma GenericSql(table: string)
    ensures |GenericTemplates(table)| == GenericCount
    ensures forall g :: 0 <= g < GenericCount ==> GenericTemplates(table)[g].sql == SelectSql(table, "*")
  {
  }

  /** The shape every generated entry has. */
  predicate WellShaped(e: TemplateEntry)
  {
    Contains(e.template, Item) && EndsWith(e.sql, WhereClause)
  }

  lemma ItemAt(pre: string, post: string)
    ensures Contains(pre + Item + post, Item)
    ensures Contains(pre + Item, Item)
  {
    assert OccursAt(pre + Item + post, Item, |pre|);
    assert OccursAt(pre + Item, Item, |pre|);
  }

  lemma SqlShape(table: string, what: string)
    ensures EndsWith(SelectSql(table, what), WhereClause)
  {
    var sql := SelectSql(table, what);
    assert sql == ("SELECT " + what + " FROM " + table) + WhereClause;
  }

  lemma BasicWellShaped(table: string, col: string)
    ensures forall e :: e in BasicFor(table, col) ==> WellShaped(e)
  {
    var d := DisplayName(col);
    SqlShape(table, col);
    ItemAt("what is the " + d + " of ", "");
    ItemAt("show " + d + " of ", "");
    ItemAt("get " + d + " for ", "");
  }

  lemma NumericWellShaped(table: string, col: string)
    ensures forall e :: e in NumericFor(table, col) ==> WellShaped(e)
  {
    SqlShape(table, col);
    ItemAt("how much does ", " cost");
    ItemAt("how much is ", "");
    ItemAt("price of ", "");
    ItemAt("how many ", " do we have");
    ItemAt("available stock of ", "");
    ItemAt("check stock of ", "");
  }

  lemma TextWellShaped(table: string, col: string)
    ensures forall e :: e in TextFor(table, col) ==> WellShaped(e)
  {
    SqlShape(table, col);
    ItemAt("describe ", "");
    ItemAt("tell me about ", "");
  }

  lemma DateWellShaped(table: string, col: string)
    ensures forall e :: e in DateFor(table, col) ==> WellShaped(e)
  {
    SqlShape(table, col);
    var rest := Strip(ReplaceAll(DisplayName(col), "date", ""));
    ItemAt("when was ", " " + rest);
    assert "when was " + Item + " " + rest == "when was " + Item + (" " + rest);
  }

  lemma CategoricalWellShaped(table: string, col: string)
    ensures forall e :: e in CategoricalFor(table, col) ==> WellShaped(e)
  {
    var d := DisplayName(col);
    SqlShape(table, col);
    ItemAt("what " + d + " is ", "");
    var t := Item + " " + d;
    assert t[0..|Item|] == Item;
    assert OccursAt(t, Item, 0);
  }

  lemma ForWellShaped(kind: Kind, table: string, col: string)
    ensures forall e :: e in For(kind, table, col) ==> WellShaped(e)
  {
    match kind
    case Basic => BasicWellShaped(table, col);
    case Numeric => NumericWellShaped(table, col);
    case TextKind => TextWellShaped(table, col);
    case Date => DateWellShaped(table, col);
    case Categorical => CategoricalWellShaped(table, col);
  }

  lemma GroupWellShaped(kind: Kind, table: string, cols: seq<string>)
    ensures forall e :: e in Group(kind, table, cols) ==> WellShaped(e)
  {
    var blocks := Blocks(kind, table, cols);
    forall e | e in Group(kind, table, cols) ensures WellShaped(e) {
      FlattenMember(blocks, e);
      var i :| 0 <= i < |blocks| && e in blocks[i];
      ForWellShaped(kind, table, cols[i]);
    }
  }

  lemma GenericWellShaped(table: string)
    ensures forall e :: e in GenericTemplates(table) ==> WellShaped(e)
  {
    SqlShape(table, "*");
    assert OccursAt(Item, Item, 0);
    ItemAt("show me ", "");
    ItemAt("give me all details for ", "");
    ItemAt("tell me everything about ", "");
    ItemAt("show all information for ", "");
    ItemAt("details of ", "");
    ItemAt("information about ", "");
  }

  /** Every generated template has an `{ITEM}` and every SQL statement ends in `WHERE {COL} = ?`. */
  lemma GeneratedWellShaped(s: Schema)
    ensures forall e :: e in GenerateTemplates(s) ==> WellShaped(e)
  {
    var t := s.tableName;
    GroupWellShaped(Basic, t, ColumnNames(s));
    GroupWellShaped(Numeric, t, s.numericColumns);
    GroupWellShaped(TextKind, t, s.textColumns);
    GroupWellShaped(Date, t, s.dateColumns);
    GroupWellShaped(Categorical, t, s.categoricalColumns);
    GenericWellShaped(t);
  }

  /**
   * Binding a column into a generated statement: when neither the
   * selected column nor the table name contains `{`, replacing every
   * `{COL}` touches only the placeholder.
   */
  lemma BindGeneratedSql(table: string, what: string, col: string)
    requires '{' !in table && '{' !in what
    ensures ReplaceAll(SelectSql(table, what), "{COL}", col) == "SELECT " + what + " FROM " + table + " WHERE " + col + " = ?"
  {
    var prefix := "SELECT " + what + " FROM " + table + " WHERE ";
    var tail := "{COL} = ?";
    assert SelectSql(table, what) == prefix + tail;
    assert '{' !in prefix;
    forall i | 0 <= i < |prefix| ensures !OccursAt(prefix + tail, "{COL}", i) {
      CharOfOccurrence(prefix + tail, "{COL}", i, 0);
      assert (prefix + tail)[i] == prefix[i];
      OccurrenceHead(prefix + tail, "{COL}", i);
    }
    ReplaceAllPrefix(prefix, tail, "{COL}", col);
    assert tail[..5] == "{COL}" && tail[5..] == " = ?";
    assert ReplaceAll(" = ?", "{COL}", col) == " = ?";
    assert prefix + (col + " = ?") == "SELECT " + what + " FROM " + table + " WHERE " + col + " = ?";
  }

  lemma OccurrenceHead(s: string, pat: string, i: int)
    requires |pat| > 0
    ensures OccursAt(s, pat, i) ==> s[i] == pat[0]
  {
    if OccursAt(s, pat, i) {
      assert s[i..i + |pat|][0] == s[i];
    }
  }

  /** A text holding `{ITEM}` is some prefix, `{ITEM}`, and some suffix. */
  lemma ItemSplits(t: string)
    requires Contains(t, Item)
    ensures exists pre, post :: t == pre + Item + post
  {
    var i :| 0 <= i <= |t| - |Item| && OccursAt(t, Item, i);
    var pre, post := t[..i], t[i + |Item|..];
    assert t == pre + Item + post;
  }

  /**
   * Every generated template can be filled: writing a slot in place of its
   * `{ITEM}` gives a query that generalises back to the template's own
   * intent phrase, provided the slot then occurs just once.
   */
  lemma GeneratedTemplateRoundTrip(s: Schema, e: TemplateEntry, slot: string)
    requires e in GenerateTemplates(s)
    requires |slot| > 0
    ensures exists pre, post :: e.template == pre + Item + post
    ensures forall pre, post ::
              (e.template == pre + Item + post
               && forall i :: OccursAtCI(pre + slot + post, slot, i) ==> i == |pre|) ==>
              Generalized(pre + slot + post, slot) == IntentPhrase(e.template)
  {
    GeneratedWellShaped(s);
    assert WellShaped(e);
    ItemSplits(e.template);
    forall pre, post | e.template == pre + Item + post
      && (forall i :: OccursAtCI(pre + slot + post, slot, i) ==> i == |pre|)
      ensures Generalized(pre + slot + post, slot) == IntentPhrase(e.template)
    {
      GeneralizeFilledTemplate(pre, slot, post);
    }
  }
}
