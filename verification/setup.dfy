/**
 * The setup script's column-name cleaning and its argument guard. CSV
 * headers become SQL-friendly identifiers: lower-case word characters and
 * underscores, no underscore at either end except the one that guards a
 * leading digit.
 */
module Setup {
  import opened Wrappers
  import opened Text

  predicate IsNonWord(c: char) { !IsWordChar(c) }
  predicate IsUnderscore(c: char) { c == '_' }
  predicate IsAlnum(c: char) { IsLetter(c) || IsDigit(c) }

  /** `s` holds a letter or a digit. */
  predicate HasAlnum(s: string)
  {
    exists i :: 0 <= i < |s| && IsAlnum(s[i])
  }

  /** Python's `s.strip('_')`. */
  function StripUnderscores(s: string): string
  {
    TrimBoth(s, IsUnderscore)
  }

  // ---------------------------------------------------------------------------
  // Collapsing non-word runs
  // ---------------------------------------------------------------------------

  lemma HasAlnumCons(c: char, s: string)
    ensures HasAlnum([c] + s) <==> IsAlnum(c) || HasAlnum(s)
  {
    if HasAlnum([c] + s) {
      var i :| 0 <= i < |[c] + s| && IsAlnum(([c] + s)[i]);
      if i > 0 { assert s[i - 1] == ([c] + s)[i]; }
    }
    if HasAlnum(s) {
      var i :| 0 <= i < |s| && IsAlnum(s[i]);
      assert ([c] + s)[i + 1] == s[i];
    }
    assert ([c] + s)[0] == c;
  }

  /** Dropping a prefix without letters or digits keeps `HasAlnum`. */
  lemma HasAlnumSuffix(s: string, k: nat)
    requires k <= |s|
    requires forall i :: 0 <= i < k ==> !IsAlnum(s[i])
    ensures HasAlnum(s[k..]) <==> HasAlnum(s)
  {
    if HasAlnum(s) {
      var i :| 0 <= i < |s| && IsAlnum(s[i]);
      assert s[k..][i - k] == s[i];
    }
    if HasAlnum(s[k..]) {
      var i :| 0 <= i < |s[k..]| && IsAlnum(s[k..][i]);
      assert s[i + k] == s[k..][i];
    }
  }

  /**
   * `re.sub(r'\W+', '_', s)`: every maximal run of non-word characters
   * becomes a single underscore; word characters are copied.
   */
  function CollapseNonWord(s: string): (r: string)
    ensures forall i :: 0 <= i < |r| ==> IsWordChar(r[i])
    ensures IsLowered(s) ==> IsLowered(r)
    decreases |s|
  {
    if |s| == 0 then ""
    else if IsWordChar(s[0]) then [s[0]] + CollapseNonWord(s[1..])
    else "_" + CollapseNonWord(s[LeadingCount(s, IsNonWord)..])
  }

  /** Collapsing keeps every letter and digit, so it has one exactly when its input has one. */
  lemma {:induction false} CollapseKeepsAlnum(s: string)
    ensures HasAlnum(CollapseNonWord(s)) <==> HasAlnum(s)
    decreases |s|
  {
    if |s| > 0 {
      if IsWordChar(s[0]) {
        CollapseKeepsAlnum(s[1..]);
        HasAlnumCons(s[0], CollapseNonWord(s[1..]));
        HasAlnumCons(s[0], s[1..]);
        assert [s[0]] + s[1..] == s;
      } else {
        var k := LeadingCount(s, IsNonWord);
        CollapseKeepsAlnum(s[k..]);
        HasAlnumCons('_', CollapseNonWord(s[k..]));
        HasAlnumSuffix(s, k);
      }
    }
  }

  /** A string of word characters has no run to collapse. */
  lemma {:induction false} CollapseWordChars(s: string)
    requires forall i :: 0 <= i < |s| ==> IsWordChar(s[i])
    ensures CollapseNonWord(s) == s
    decreases |s|
  {
    if |s| > 0 {
      CollapseWordChars(s[1..]);
      assert [s[0]] + s[1..] == s;
    }
  }

  // ---------------------------------------------------------------------------
  // Cleaned names
  // ---------------------------------------------------------------------------

  /**
   * The output language of the cleaning: lower-case word characters only,
   * never a leading digit, never a trailing underscore, and a leading
   * underscore only in front of a digit.
   */
  predicate CleanName(r: string)
  {
    (forall i :: 0 <= i < |r| ==> IsWordChar(r[i]) && !IsUpper(r[i]))
    && (|r| > 0 ==> !IsDigit(r[0]) && r[|r| - 1] != '_')
    && (|r| > 0 && r[0] == '_' ==> |r| > 1 && IsDigit(r[1]))
  }

  /** The underscore-free core of the cleaning, before the digit guard. */
  function CleanCore(col: string): string
  {
    StripUnderscores(CollapseNonWord(Lower(Strip(col))))
  }

  /** The cleaning loop body of `setup_system` for one CSV header. */
  function CleanColumnName(col: string): (r: string)
    ensures CleanName(r)
  {
    var c := CleanCore(col);
    CleanCoreShape(col);
    if |c| > 0 && IsDigit(c[0]) then "_" + c else c
  }

  lemma CleanCoreShape(col: string)
    ensures forall i :: 0 <= i < |CleanCore(col)| ==> IsWordChar(CleanCore(col)[i]) && !IsUpper(CleanCore(col)[i])
    ensures |CleanCore(col)| > 0 ==> CleanCore(col)[0] != '_' && CleanCore(col)[|CleanCore(col)| - 1] != '_'
    ensures CleanCore(col) == [] <==> !HasAlnum(col)
  {
    var l := Lower(Strip(col));
    LowerIdempotent(Strip(col));
    StripUnderscoresShape(CollapseNonWord(l));
    CollapseKeepsAlnum(l);
    LowerKeepsAlnum(Strip(col));
    StripKeepsAlnum(col);
  }

  /** Stripping underscores from lower-case word characters leaves no underscore at either end, and nothing exactly when there was no letter or digit. */
  lemma StripUnderscoresShape(w: string)
    requires forall i :: 0 <= i < |w| ==> IsWordChar(w[i]) && !IsUpper(w[i])
    ensures forall i :: 0 <= i < |StripUnderscores(w)| ==> IsWordChar(StripUnderscores(w)[i]) && !IsUpper(StripUnderscores(w)[i])
    ensures |StripUnderscores(w)| > 0 ==> StripUnderscores(w)[0] != '_' && StripUnderscores(w)[|StripUnderscores(w)| - 1] != '_'
    ensures StripUnderscores(w) == [] <==> !HasAlnum(w)
  {
    var a, b := TrimBounds(w, IsUnderscore);
    TrimBothEmptyIff(w, IsUnderscore);
    assert forall i :: a <= i < b ==> StripUnderscores(w)[i - a] == w[i];
    if HasAlnum(w) {
      var i :| 0 <= i < |w| && IsAlnum(w[i]);
      assert !IsUnderscore(w[i]);
    } else {
      forall i | 0 <= i < |w| ensures IsUnderscore(w[i]) {
        assert !IsAlnum(w[i]);
      }
    }
  }

  /** Lower-casing keeps letters and digits. */
  lemma LowerKeepsAlnum(s: string)
    ensures HasAlnum(Lower(s)) <==> HasAlnum(s)
  {
    if HasAlnum(s) {
      var i :| 0 <= i < |s| && IsAlnum(s[i]);
      assert IsAlnum(Lower(s)[i]);
    }
    if HasAlnum(Lower(s)) {
      var i :| 0 <= i < |Lower(s)| && IsAlnum(Lower(s)[i]);
      assert IsAlnum(s[i]);
    }
  }

  /** Stripping whitespace never removes a letter or a digit. */
  lemma StripKeepsAlnum(col: string)
    ensures HasAlnum(Strip(col)) <==> HasAlnum(col)
  {
    var t := TrimStart(col, IsSpace);
    var a := LeadingCount(col, IsSpace);
    var k := TrailingStart(t, IsSpace);
    assert Strip(col) == col[a..a + k];
    if HasAlnum(col) {
      var i :| 0 <= i < |col| && IsAlnum(col[i]);
      assert i >= a;
      assert t[i - a] == col[i];
      assert i - a < k;
      assert Strip(col)[i - a] == col[i];
    }
    if HasAlnum(Strip(col)) {
      var i :| 0 <= i < |Strip(col)| && IsAlnum(Strip(col)[i]);
      assert col[a + i] == Strip(col)[i];
    }
  }

  /** A header cleans to the empty name exactly when it has no letter or digit (empty, blank, punctuation, underscores). */
  lemma CleanEmptyIff(col: string)
    ensures CleanColumnName(col) == [] <==> forall i :: 0 <= i < |col| ==> !IsAlnum(col[i])
  {
    CleanCoreShape(col);
  }

  /** On a clean name the whitespace strip, lower-casing and collapsing change nothing. */
  lemma CleanCoreOnClean(r: string)
    requires CleanName(r)
    ensures CleanCore(r) == StripUnderscores(r)
  {
    assert Strip(r) == r by {
      TrimBothNone(r, IsSpace);
    }
    assert Lower(r) == r;
    CollapseWordChars(r);
  }

  /** A clean name that starts with the digit guard loses exactly that one underscore when underscores are stripped. */
  lemma StripGuardUnderscore(r: string)
    requires CleanName(r) && |r| > 0 && r[0] == '_'
    ensures StripUnderscores(r) == r[1..]
  {
    var a, b := TrimBounds(r, IsUnderscore);
    assert !IsUnderscore(r[1]);
    assert a == 1;
    assert b == |r|;
  }

  /** An already-clean name is returned unchanged. */
  lemma CleanIdempotentOnClean(r: string)
    requires CleanName(r)
    ensures CleanColumnName(r) == r
  {
    CleanCoreOnClean(r);
    if |r| > 0 && r[0] == '_' {
      StripGuardUnderscore(r);
      assert "_" + r[1..] == r;
    } else {
      TrimBothNone(r, IsUnderscore);
    }
  }

  /** Cleaning is idempotent. */
  lemma CleanIdempotent(col: string)
    ensures CleanColumnName(CleanColumnName(col)) == CleanColumnName(col)
  {
    CleanIdempotentOnClean(CleanColumnName(col));
  }

  /** The cleaned names are exactly the names cleaning leaves alone. */
  lemma CleanFixedPointIff(r: string)
    ensures CleanColumnName(r) == r <==> CleanName(r)
  {
    if CleanName(r) {
      CleanIdempotentOnClean(r);
    }
  }

  // ---------------------------------------------------------------------------
  // setup_system
  // ---------------------------------------------------------------------------

  /** A Python argument that is truthy: given, and not the empty string. */
  predicate Given(arg: Option<string>)
  {
    arg.Some? && arg.value != ""
  }

  /** Where the system reads and writes: the database file and the table. */
  datatype Config = Config(dbFile: string, tableName: string)

  /** The outcome of the first step of `setup_system`. */
  datatype SetupResult =
    | Rejected
    | Configured(config: Config, columns: Option<seq<string>>)

  /**
   * `setup_system` up to loading the CSV. Without a CSV file and without a
   * database file it refuses. Otherwise the given database file and table
   * name override the defaults, and a given CSV file has its headers
   * (read by `header`) cleaned one by one.
   */
  function SetupSystem(csvFile: Option<string>, dbFile: Option<string>, tableName: Option<string>,
                       defaults: Config, header: string -> seq<string>): (r: SetupResult)
    ensures r.Rejected? <==> !Given(csvFile) && !Given(dbFile)
    ensures r.Configured? ==> r.config.dbFile == (if Given(dbFile) then dbFile.value else defaults.dbFile)
    ensures r.Configured? ==> r.config.tableName == (if Given(tableName) then tableName.value else defaults.tableName)
    ensures r.Configured? ==> (r.columns.Some? <==> Given(csvFile))
    ensures r.Configured? && r.columns.Some? ==>
              |r.columns.value| == |header(csvFile.value)|
              && forall i :: 0 <= i < |r.columns.value| ==>
                   r.columns.value[i] == CleanColumnName(header(csvFile.value)[i]) && CleanName(r.columns.value[i])
  {
    if !Given(csvFile) && !Given(dbFile) then Rejected
    else
      var db := if Given(dbFile) then dbFile.value else defaults.dbFile;
      var table := if Given(tableName) then tableName.value else defaults.tableName;
      var cols :=
        if Given(csvFile) then
          var h := header(csvFile.value);
          Some(seq(|h|, i requires 0 <= i < |h| => CleanColumnName(h[i])))
        else None;
      Configured(Config(db, table), cols)
  }

  /** The separator in "a b" collapses to one underscore. */
  lemma CollapseSpacedPair()
    ensures CollapseNonWord("a b") == "a_b"
  {
    var s := "a b";
    var t := s[1..];
    assert t == " b" && t[1..] == "b";
    assert !IsNonWord('b');
    assert LeadingCount("b", IsNonWord) == 0;
    assert LeadingCount(t, IsNonWord) == 1;
    assert CollapseNonWord(t[1..][1..]) == "";
    assert CollapseNonWord(t[1..]) == "b";
  }

  /** The core cleaning of "a b" is "a_b". */
  lemma CleanCoreSpacedPair()
    ensures CleanCore("a b") == "a_b"
  {
    var s := "a b";
    assert Strip(s) == s by { TrimBothNone(s, IsSpace); }
    assert Lower(s) == s;
    CollapseSpacedPair();
    TrimBothNone("a_b", IsUnderscore);
  }

  /** Distinct headers can clean to the same name. */
  lemma CleanMayCollide()
    ensures CleanColumnName("a b") == CleanColumnName("a_b") == "a_b"
  {
    assert CleanName("a_b");
    CleanIdempotentOnClean("a_b");
    CleanCoreSpacedPair();
  }
}
