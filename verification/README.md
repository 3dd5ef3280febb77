# QueryMatcher core, modelled in Dafny

QueryMatcher answers natural-language questions about one SQLite table. It
matches each question against templates generated from the table's schema,
binds the matched column into the template's SQL, and returns the rows.
This project models the deterministic logic of that pipeline:

- **Setup** (`setup.dfy`). CSV headers are cleaned into SQL-friendly column
  names. The setup step refuses to run without a CSV file or a database file.
- **Schema analysis** (`patterns.dfy`, `schema.dfy`):
  - the per-value pattern tagger;
  - the name-keyword and content rules that categorise a column;
  - the dtype decision;
  - the bucketing loop that fills the schema's category lists.
- **Template generation** (`templates.dfy`). An ordered list of
  `{template, sql}` records is built from the schema buckets.
- **Matching** (`patterns.dfy`, `cache.dfy`, `slots.dfy`, `generalize.dfy`,
  `matcher.dfy`):
  - the regex scanners for `CODE-NUMBER` and `LETTERS-NUMBERS`;
  - the categorical value cache;
  - the slot-extraction cascade;
  - generalising the query around its slot;
  - choosing the nearest intent;
  - binding `{COL}`.
- **The query endpoint** (`app.dfy`):
  - splitting a request into clauses;
  - widening a statement to `SELECT *`;
  - tagging description-match rows with their score;
  - the scalar-response decision;
  - one response per clause with `any_hit`.

`text.dfy` holds the string vocabulary shared by all of these: ASCII
character classes and Python's `lower`, `strip`, `replace`, `split` and
`in`. `wrappers.dfy` holds `Option`.

## Interfaces and conventions

- **Sentence embeddings.** They are an uninterpreted similarity oracle
  `Similarity = (string, string) -> real`. Only the selection policy is
  modelled:
  - a description slot needs a score strictly above the threshold;
  - an earlier text column wins a tie;
  - within a column, the first argmax wins;
  - the nearest intent is the first template phrase with the highest score.
- **The database.** It is a function from a SQL text and its one bound
  value to either the sequence of rows the statement returns or `None`
  when executing the statement raises. Distinct column values are an input
  function.
- **The miss log.** Each Redis push becomes an explicit `MissRecord` in the
  matcher's outcome.
- **Python `KeyError`.** A row without the requested column raises a
  `KeyError`, which Flask turns into a server error. The model replies
  `ServerError` instead.
- **Characters.** Everything is ASCII:
  - word characters are `[A-Za-z0-9_]`;
  - whitespace is the ASCII characters Python's `str.strip` and `str.split`
    remove;
  - `lower`/`upper` change only `A-Z`/`a-z`.

## Where the code and its description differ

The model follows the code in each of these cases:

- **The code/id cascade.** It is interleaved per column, not run phase by
  phase. For each code column and then each id column, the column's
  patterns run first and then its exact values. So an earlier column's
  exact hit beats a later column's pattern hit
  (`SlotExtraction.ExactHitBeatsLaterPattern`).
- **Generalising the query.** It does not remove every trace of the slot.
  Non-overlapping left-to-right replacement can leave an occurrence behind
  (`Generalize.GeneralizeMayLeaveSlot`).
- **Unknown columns.** A column of category `unknown` lands in no schema
  bucket (`SchemaAnalysis.ExactlyOneBucket`).
- **Identifier keywords.** The keyword `id` is matched as a substring of the
  lower-cased name, so a column called `width` is an id column
  (`SchemaAnalysis.WidthIsIdentifier`).

## Model

| member | source | states |
|---|---|---|
| Setup.CleanColumnName | setup.py:33-42 | the cleaned name has only lower-case word characters, never starts with a digit, never ends with `_`, and starts with `_` only before a digit |
| Setup.CleanEmptyIff | setup.py:36-38 | a header cleans to the empty name exactly when it has no letter or digit |
| Setup.CleanFixedPointIff | setup.py:33-42 | cleaning leaves a name unchanged exactly when it is already in the cleaned-name language |
| Setup.CleanIdempotent | setup.py:33-42 | cleaning a cleaned name returns it unchanged |
| Setup.CollapseKeepsAlnum | setup.py:36 | collapsing non-word runs to `_` keeps a letter or digit exactly when the input had one |
| Setup.CleanMayCollide | setup.py:33-42 | two different headers (`a b` and `a_b`) clean to the same column name |
| Setup.SetupSystem | setup.py:14-42 | setup is refused exactly when neither a CSV nor a database file is given; given arguments override the configured database and table; a CSV's headers are cleaned one by one, in order |
| Patterns.FindLeftmost | generic_matcher.py:121-128 | the scanner for `\b[A-Z]{2,}-\d+\b` or `\b[A-Z]{2,}\d+\b` returns the leftmost case-insensitive match, and nothing only when no position matches |
| Patterns.Find | generic_matcher.py:121-128 | a pattern-phase slot has at least three characters, begins with a letter and ends with a digit |
| Patterns.FoundIsSubstring | generic_matcher.py:121-128 | a pattern-phase slot is a substring of the query of at least three characters that starts with a letter |
| Patterns.ClassifyValue | schema_analyzer.py:150-163 | a value gets a tag exactly when it has that tag's shape, so first-match-wins gives each value at most one tag |
| Patterns.ShapeUnique | schema_analyzer.py:154-163 | the five value shapes are mutually exclusive once earlier rules take precedence |
| Patterns.MatchesCodeNumberIff | schema_analyzer.py:154 | the explicit scanner for `^[A-Z]{2,}-\d+$` agrees with the declarative shape |
| Patterns.MatchesLettersNumbersIff | schema_analyzer.py:158 | the scanner for `^[A-Z]{2,}\d+$` agrees with the declarative shape |
| Patterns.MatchesNumbersOnlyIff | schema_analyzer.py:160 | the scanner for `^\d+$` agrees with the declarative shape |
| Patterns.MatchesLettersOnlyIff | schema_analyzer.py:162 | the scanner for `^[A-Za-z\s]+$` agrees with the declarative shape |
| Patterns.DetectPatterns | schema_analyzer.py:145-165 | the detected tag set is exactly the tags of the first ten values |
| CategoricalCache.Build | generic_matcher.py:90 | cache keys are distinct and lower-case |
| CategoricalCache.BuildCovers | generic_matcher.py:90 | every value's lower-cased text is a key of the cache |
| CategoricalCache.BuildLastWins | generic_matcher.py:90 | the original kept under a key is the last value with that lower-cased text |
| CategoricalCache.LookupBuilt | generic_matcher.py:131-134 | an exact-value lookup hits exactly when some value's lower-cased text occurs in the lower-cased query, and then returns such a value |
| CategoricalCache.EmptyKeyAlwaysHits | generic_matcher.py:133 | with no word-boundary check, an empty value matches every query |
| SlotExtraction.TryPatternsFirst | generic_matcher.py:120-128 | a column's patterns are tried in listed order; the first one that finds a match gives the slot |
| SlotExtraction.ColumnHit | generic_matcher.py:117-134 | a code or id column hits when a pattern or an exact value matches, and a pattern hit takes precedence |
| SlotExtraction.IdCodePhase | generic_matcher.py:116-134 | the first code or id column that hits gives the slot, and no earlier column hit |
| SlotExtraction.CategoricalPhase | generic_matcher.py:137-141 | the first categorical column with an exact hit gives the slot |
| SlotExtraction.TopValue | generic_matcher.py:153-155 | within a text column, the first value of maximal similarity is chosen |
| SlotExtraction.SemanticPhase | generic_matcher.py:144-163 | a description slot scores strictly above the threshold and at least as high as every text column; every earlier text column scores strictly lower |
| SlotExtraction.SemanticScanBest | generic_matcher.py:144-163 | scanning the text columns' best descriptions from column `i`: a candidate replaces the running best only when it scores strictly above it; the kept candidate scores at least as high as every scanned column and strictly higher than every column before it; when nothing is kept, no scanned column beats the starting score |
| SlotExtraction.ExtractSlot | generic_matcher.py:108-165 | the slot is a description match exactly when it came from the semantic phase; a literal slot names a code, id or categorical column; a description slot is one value of a text column with its similarity |
| SlotExtraction.SemanticFallback | generic_matcher.py:115-165 | when no code, id or categorical column yields a value, the slot is the semantic phase's column and best description, marked as a description match, or no slot when that phase finds none |
| SlotExtraction.LiteralFromHit | generic_matcher.py:115-141 | a literal slot is the value of the first code or id column that hits, or, when none hits, of the first categorical column with an exact-value hit |
| SlotExtraction.IdCodeFirst | generic_matcher.py:116-148 | a hit in any code or id column returns a literal slot from the first hitting column, before categorical and semantic matching |
| SlotExtraction.CodeBeforeId | generic_matcher.py:116 | a hit in a code column means the slot's column is that code column or an earlier one |
| SlotExtraction.ExactHitBeatsLaterPattern | generic_matcher.py:116-134 | an exact-value hit in a column beats a pattern hit in any later column |
| SlotExtraction.CategoricalBeforeSemantic | generic_matcher.py:136-148 | with no code or id hit, a categorical hit is returned before the semantic phase is tried |
| SlotExtraction.NoSlotIff | generic_matcher.py:108-165 | there is no slot exactly when no code/id column hits, no categorical value occurs, and no description scores above the threshold |
| SlotExtraction.ValueHitBuilt | generic_matcher.py:131-141 | an exact-value hit is an original-case value whose lower-cased text occurs in the lower-cased query, and one exists exactly when such a value does |
| Generalize.Generalized | generic_matcher.py:182-184 | the generalised query is lower-case and already in the normal form of template phrases: normalising it again changes nothing |
| Generalize.GeneralizeFilledTemplate | generic_matcher.py:181-184 | generalising a template filled with a slot that occurs exactly once gives back the template's intent phrase |
| Generalize.SubCIAbsent | generic_matcher.py:183 | replacing a slot that does not occur leaves the query unchanged |
| Generalize.SubCIPrefix | generic_matcher.py:183 | replacement passes over a prefix in which the slot does not start |
| Generalize.GeneralizeMayLeaveSlot | generic_matcher.py:182-184 | generalising `aabb` around slot `ab` leaves `ab` in the phrase |
| Matching.LoadTemplates | generic_matcher.py:38-46 | templates and SQL statements are parallel lists taken pairwise from the same entries |
| Matching.LoadMatcher | generic_matcher.py:21-91 | the cache covers exactly the categorical, code and id columns; description values exist exactly for text columns with at least one value |
| Matching.NearestIntent | generic_matcher.py:187-192 | the chosen intent is the first template phrase of highest similarity, and there is none only when there are no templates |
| Matching.MatchWithSbert | generic_matcher.py:171-210 | a miss records exactly one miss entry; a slotless query misses without an intent score; a hit returns the extracted slot, the nearest template, and that template's SQL with every `{COL}` replaced by the slot's column; the score is the slot list exactly for description matches, and otherwise the intent score, the similarity of the generalised query to the chosen template's phrase; a miss after a slot records the highest phrase similarity, which is below the threshold, or the empty index's sentinel when there is no template |
| Matching.MissIff | generic_matcher.py:171-198 | matching misses exactly when there is no truthy slot, no template, or every template scores below the intent threshold |
| Matching.FilledTemplateHits | generic_matcher.py:171-201 | a query that fills a template with its literal slot is a hit when that template's phrase clears the threshold, and the chosen template is at least as close to that phrase as the filled template is |
| SchemaAnalysis.CategorizeText | schema_analyzer.py:113-143 | a string column is always text, id, code or categorical |
| SchemaAnalysis.ContentCategoryByCounts | schema_analyzer.py:135-143 | the length and uniqueness ratios are the integer tests `sum > 10n` and `2·distinct > n`, with `distinct < 50` giving categorical |
| SchemaAnalysis.CategorizeTextByContent | schema_analyzer.py:115-132 | without name keywords and without a code-shaped first value, only the content decides |
| SchemaAnalysis.NameKeywordsDecide | schema_analyzer.py:115-125 | a name with an identifier or descriptive keyword decides the category whatever the values |
| SchemaAnalysis.IdentifierNames | schema_analyzer.py:118-121 | an identifier keyword without a descriptive one gives `id` when the name contains `id`, else `code` |
| SchemaAnalysis.WidthIsIdentifier | schema_analyzer.py:118-121 | a column called `width` is an id column |
| SchemaAnalysis.AnalyzeColumn | schema_analyzer.py:68-111 | an all-null column stays unknown with no patterns, and only string columns carry patterns |
| SchemaAnalysis.AnalyzeColumnByDtype | schema_analyzer.py:86-109 | numeric columns are numeric, or id when the name contains `id`; datetime columns are date; string columns get a known category and exactly the detected patterns |
| SchemaAnalysis.AddColumn | schema_analyzer.py:38-62 | one loop step appends the column to its category's bucket only, and to the primary keys when flagged |
| SchemaAnalysis.AnalyzeSchemaBuckets | schema_analyzer.py:38-62 | each bucket lists exactly the columns of its category in table order; primary keys are the flagged columns in order |
| SchemaAnalysis.AnalyzeSchema | schema_analyzer.py:38-62 | the table name is kept and every column is analysed, in table order, one entry per column |
| SchemaAnalysis.ExactlyOneBucket | schema_analyzer.py:50-62 | a column lies in a bucket exactly when that bucket is its category, and an unknown column lies in none |
| TemplateGen.DisplayName | template_generator.py:32 | the display name is the lower-cased name with each `_` turned into a space |
| TemplateGen.NumericForSize | template_generator.py:56-91 | a numeric column yields 0, 3 or 6 templates, and 6 when its name contains `amount` |
| TemplateGen.GenerateTemplates | template_generator.py:9-25 | the total is 3·columns + numeric count + 2·text + date + 2·categorical + 7 |
| TemplateGen.GenerateTemplatesBasicFirst | template_generator.py:9-50 | the first 3·columns templates come three per column, in column order, each selecting that column |
| TemplateGen.GenerateTemplatesGenericLast | template_generator.py:151-182 | the last seven templates are the generic ones, all `SELECT *` |
| TemplateGen.GeneratedWellShaped | template_generator.py:27-182 | every generated template contains `{ITEM}` and every SQL statement ends in `WHERE {COL} = ?` |
| TemplateGen.BindGeneratedSql | generic_matcher.py:200-201 | binding a column into a generated statement gives `SELECT what FROM table WHERE column = ?` |
| TemplateGen.GeneratedTemplateRoundTrip | generic_matcher.py:181-184 | every generated template filled with a slot that occurs once generalises back to its own intent phrase |
| App.SplitJoin | app.py:71 | the pieces and separators of a split, joined back in order, are the request |
| App.SplitSeparators | app.py:71 | every separator is `,`, `;` or a conjunction in some letter case |
| App.SplitPiecesPlain | app.py:71 | no piece holds a separator match when read on its own: no `,`, no `;` and no whole-word `and`, `then` or `also` in any case |
| App.SplitWholeWords | app.py:71 | a conjunction is split off only at word boundaries |
| App.Clauses | app.py:71 | every clause is non-empty, has no surrounding whitespace and holds no separator match, so no `,`, `;` or whole-word conjunction |
| App.ClausesResplit | app.py:71 | splitting a clause again gives back that clause alone |
| App.NoSplitInsideWord | app.py:71 | a single word that is not a conjunction is one clause |
| App.ConjunctionInsideWords | app.py:71 | `band` and `Andrew` are not split |
| App.ConjunctionSplits | app.py:71 | two words joined by `and`, `then` or `also` in any case become two clauses |
| App.WidenSqlTokens | app.py:30-37 | corrected widening (see Findings): a statement that already selects `*`, or has fewer than two tokens, is unchanged; otherwise exactly the second token becomes `*` |
| App.WidenBoundSelect | app.py:30-37 | corrected widening (see Findings): widening a bound generated statement selects every column of the same table with the same condition |
| App.WidenBoundSelectAsWritten | app.py:30-37 | the widening as written gives the same `SELECT * FROM table WHERE column = ?`, provided the selected column's first occurrence is where it is selected |
| App.WidenSql | app.py:30-37 | corrected widening (see Findings): a statement that selects `*` or has fewer than two tokens is unchanged; otherwise the second token, where it stands, becomes `*` |
| App.WidenSqlAsWritten | app.py:30-37 | a statement that selects `*` or has fewer than two tokens is unchanged; otherwise the first occurrence of the second token's text, wherever it is, becomes `*` |
| App.RequestedColumnBound | app.py:89 | the requested column of a bound statement is the column it selects |
| App.FetchResults | app.py:24-61 | fetching fails exactly when one run of the statement raises: the single run for a literal slot, or the run for some description match; every row fetched for description matches carries one match's score |
| App.FetchEachFails | app.py:46-53 | running the statement once per description match fails exactly when it raises for one of them |
| App.WithSlotScore | app.py:47-53 | each fetched row gains `slot_score` set to the match's score and keeps every other field of the database's row |
| App.FetchEachTagged | app.py:46-53 | every row fetched for a description match carries the score of one of the matched descriptions |
| App.ShapeResult | app.py:89-109 | the answer is a few fields exactly when the statement has no `*` and one row came back; the fields come from that row and hold the requested column plus a truthy description column; a missing requested column is an error |
| App.DescField | app.py:95-99 | the description field is the first text column present in the row |
| App.Respond | app.py:76-119 | a clause fails exactly when it hits and either its statement raises or its scalar row lacks the requested column; otherwise it answers for that clause, matched exactly when the matcher hits, with the hit's template, score, column and flag and the shaped rows |
| App.CollectSpec | app.py:73-119 | the clause loop fails exactly when one clause fails; otherwise it returns each clause's response in order, and `any_hit` holds exactly when one of them matched |
| App.RespondAllFails | app.py:76-119 | answering the clauses fails exactly when one clause fails |
| App.RespondAllEach | app.py:73-119 | the responses are the clauses' responses, one per clause, in order |
| App.QueryMulti | app.py:64-124 | blank input is a bad request; otherwise there is one response per clause in order, a clause is matched exactly when the matcher hits, and `any_hit` holds exactly when some clause matched; the request is a server error exactly when some clause's answer fails (its statement raises, or its scalar row lacks the requested column) |
| App.AsWrittenAt | app.py:33 | the widening as written replaces the first occurrence of the second token, wherever in the statement it is, by `*` |
| App.AsWrittenAgrees | app.py:33 | when the second token's first occurrence is the token itself, the written and the corrected widening agree |
| App.AsWrittenCorruptsSelect | app.py:33 | for column `T` the written widening turns `SELECT T FROM …` into `SELEC* T FROM …`, while the corrected one gives `SELECT * FROM …` |

## Left out

- Sentence embeddings, FAISS and cosine similarity: replaced by the similarity oracle.
- Floating-point arithmetic: all scores are `real`.
- SQLite, pandas and JSON file I/O: tables, query results and file contents are inputs; a statement that raises is a `None` from the database function.
- Reading `PRAGMA table_info` and the 1000-row sample: also inputs.
- Redis: each push is an explicit miss record; nothing is sent.
- `reload` and the file watcher: they reassign fields one by one and are thread and file-event plumbing.
- The Flask routes themselves, including `/schema` and `/templates`: they only serialise existing state.
- `round(slot_score, 3)`: a decimal rounding of a float; the model keeps the exact score.
- The statistics fields of a column analysis (`unique_count`, `null_count`, `avg_length`, `sample_values`): nothing downstream reads them.
- `config.py`: its thresholds are constants here (both 0.0, ten characters, fifty distinct values).
- `TOP_K_DESC_SLOTS`: never read by the code.
- Unicode: Python's Unicode-aware `lower`, `\w`, `\d` and `\s` are restricted to ASCII.
- Python's `re.IGNORECASE` matching of `ſ` and `K` (Kelvin sign) against `[A-Z]`: also restricted to ASCII.
- The order of `list(set(patterns))`: Python leaves it unspecified, so patterns are a set.
- FAISS's tie order: assumed to be the first template of highest score.
- The rest of `setup_system` after the headers are cleaned (writing the table, analysing the schema, generating and saving templates): these steps are modelled separately as `SchemaAnalysis.AnalyzeSchema` and `TemplateGen.GenerateTemplates`.
- Setup's command-line handling and `show_schema_info`: argument parsing and printing only.
- App.FetchResults: widens with the corrected `App.WidenSql`, not the widening as written at app.py:33 (see Findings); the statement `SELEC* T FROM …` that the source builds for a column `T`, and the 500 that SQLite's rejection of it causes, are never produced by the model.
- SlotExtraction.Extractable: it requires every code and ID column to have an entry under `columns`, so the `KeyError` at generic_matcher.py:117 is not modelled; `analyze_schema` writes an entry for every column it puts in a bucket (schema_analyzer.py:48), so only a hand-edited schema file lacks one. It also requires non-empty description lists, which the loader guarantees (generic_matcher.py:74).
- Setup.SetupSystem: the header reader is a parameter, and only the first step of the function is covered.
- The date template's text is modelled, but no lemma evaluates it for a concrete column name.

## Findings

| source | as written | input that shows it | evidently intended | confidence | as-written member | corrected member |
|---|---|---|---|---|---|---|
| app.py:33 | `sql.replace(sql_parts[1], '*', 1)` replaces the first occurrence of the selected column's name anywhere in the statement | a column named `T`: `SELECT T FROM items WHERE code = ?` becomes `SELEC* T FROM items WHERE code = ?` | replace the second token itself, giving `SELECT * FROM items WHERE code = ?` | high; not executed | App.WidenSqlAsWritten, App.AsWrittenCorruptsSelect | App.WidenSql, App.WidenSqlTokens |

The rest of the model (`App.FetchResults`) widens with the corrected `App.WidenSql`.
