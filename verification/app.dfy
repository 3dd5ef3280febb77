/**
 * The web service's request handling: a request is split into clauses on
 * conjunctions and punctuation, each clause is matched on its own, and the
 * matched SQL is widened to `SELECT *` before it runs. The database is a
 * parameter: a function from the SQL text and its one bound value to the
 * rows that come back, or to nothing when executing the statement raises.
 */
module App {
  import opened Wrappers
  import opened Text
  import opened SlotExtraction
  import opened Matching

  // ---------------------------------------------------------------------------
  // Clause splitting
  // ---------------------------------------------------------------------------

  /** The words a request is split on, in the order the pattern tries them. */
  const Conjunctions: seq<string> := ["and", "then", "also"]

  /**
   * `\bw\b` matches at index `i` of `q`, ignoring case, for a word `w`
   * that begins and ends with word characters.
   */
  predicate WholeWordAt(q: string, w: string, i: nat)
  {
    i + |w| <= |q|
    && Lower(q[i..i + |w|]) == w
    && (i == 0 || !IsWordChar(q[i - 1]))
    && (i + |w| == |q| || !IsWordChar(q[i + |w|]))
  }

  /**
   * Length of the match of `\b(?:and|then|also)\b|[,;]` at index `i`
   * (case ignored), or 0 when there is none.
   */
  function SeparatorAt(q: string, i: nat): (n: nat)
    requires i < |q|
    ensures n > 0 ==> i + n <= |q|
  {
    if WholeWordAt(q, "and", i) then 3
    else if WholeWordAt(q, "then", i) then 4
    else if WholeWordAt(q, "also", i) then 4
    else if q[i] == ',' || q[i] == ';' then 1
    else 0
  }

  /** Text a split consumed: a comma, a semicolon or one of the conjunctions in any case. */
  predicate IsSeparator(t: string)
  {
    t == "," || t == ";" || Lower(t) in Conjunctions
  }

  /** The pieces `re.split` returns and the separators it removed between them. */
  datatype Split = Split(pieces: seq<string>, seps: seq<string>)

  /** The pieces put back together with their separators. */
  function Join(pieces: seq<string>, seps: seq<string>): string
    requires |pieces| == |seps| + 1
  {
    if |seps| == 0 then pieces[0] else pieces[0] + seps[0] + Join(pieces[1..], seps[1..])
  }

  /** `re.split` scanning from index `i`, the current piece having begun at `start`. */
  function SplitFrom(q: string, start: nat, i: nat): (r: Split)
    requires start <= i <= |q|
    ensures |r.pieces| == |r.seps| + 1
    ensures |r.pieces[0]| <= |q| - start && r.pieces[0] == q[start..start + |r.pieces[0]|]
    decreases |q| - i
  {
    if i == |q| then Split([q[start..]], [])
    else
      var n := SeparatorAt(q, i);
      if n == 0 then SplitFrom(q, start, i + 1)
      else
        var rest := SplitFrom(q, i + n, i + n);
        Split([q[start..i]] + rest.pieces, [q[i..i + n]] + rest.seps)
  }

  /** Joining the pieces with their separators gives back the input. */
  lemma {:induction false} SplitJoin(q: string, start: nat, i: nat)
    requires start <= i <= |q|
    ensures Join(SplitFrom(q, start, i).pieces, SplitFrom(q, start, i).seps) == q[start..]
    decreases |q| - i
  {
    if i < |q| {
      var n := SeparatorAt(q, i);
      if n == 0 {
        SplitJoin(q, start, i + 1);
      } else {
        SplitJoin(q, i + n, i + n);
        JoinStep(q, start, i, n, SplitFrom(q, start, i), SplitFrom(q, i + n, i + n));
      }
    }
  }

  /** One separator step of `SplitJoin`. */
  lemma JoinStep(q: string, start: nat, i: nat, n: nat, r: Split, rest: Split)
    requires start <= i && i + n <= |q|
    requires |rest.pieces| == |rest.seps| + 1
    requires r == Split([q[start..i]] + rest.pieces, [q[i..i + n]] + rest.seps)
    requires Join(rest.pieces, rest.seps) == q[i + n..]
    ensures Join(r.pieces, r.seps) == q[start..]
  {
    JoinCons(r, rest, q[start..i], q[i..i + n]);
    SliceThree(q, start, i, i + n);
  }

  lemma SliceThree(q: string, a: nat, b: nat, c: nat)
    requires a <= b <= c <= |q|
    ensures q[a..] == q[a..b] + q[b..c] + q[c..]
  {
  }

  /** Joining a split with one more piece and separator in front. */
  lemma JoinCons(r: Split, rest: Split, p: string, sep: string)
    requires |rest.pieces| == |rest.seps| + 1
    requires r == Split([p] + rest.pieces, [sep] + rest.seps)
    ensures Join(r.pieces, r.seps) == p + sep + Join(rest.pieces, rest.seps)
  {
    assert r.pieces[1..] == rest.pieces && r.seps[1..] == rest.seps;
  }

  /** Every separator removed is a comma, a semicolon or a conjunction. */
  lemma {:induction false} SplitSeparators(q: string, start: nat, i: nat)
    requires start <= i <= |q|
    ensures forall k :: 0 <= k < |SplitFrom(q, start, i).seps| ==> IsSeparator(SplitFrom(q, start, i).seps[k])
    decreases |q| - i
  {
    if i < |q| {
      var n := SeparatorAt(q, i);
      if n == 0 {
        SplitSeparators(q, start, i + 1);
      } else {
        SplitSeparators(q, i + n, i + n);
        assert IsSeparator(q[i..i + n]);
      }
    }
  }

  /** No separator matches anywhere in `s`, read on its own: splitting `s` would not cut it. */
  predicate NoSeparatorIn(s: string)
  {
    forall x :: 0 <= x < |s| ==> SeparatorAt(s, x) == 0
  }

  /** Position `a` of `s` is not inside a word: a slice beginning there has no word running into it. */
  predicate OpensOffWord(s: string, a: nat)
    requires a <= |s|
  {
    a == 0 || a == |s| || !IsWordChar(s[a - 1]) || !IsWordChar(s[a])
  }

  /** Position `b` of `s` is not inside a word: a slice ending there has no word running out of it. */
  predicate ClosesOffWord(s: string, b: nat)
    requires b <= |s|
  {
    b == 0 || b == |s| || !IsWordChar(s[b]) || !IsWordChar(s[b - 1])
  }

  /**
   * No piece holds a separator match, read on its own, and so in
   * particular no comma, no semicolon and no whole-word conjunction.
   */
  lemma {:induction false} SplitPiecesPlain(q: string, start: nat, i: nat)
    requires start <= i <= |q|
    requires forall p :: start <= p < i ==> SeparatorAt(q, p) == 0
    requires OpensOffWord(q, start)
    ensures forall k :: 0 <= k < |SplitFrom(q, start, i).pieces| ==>
              NoSeparatorIn(SplitFrom(q, start, i).pieces[k])
    decreases |q| - i
  {
    if i == |q| {
      SliceNoSeparator(q, start, i);
    } else {
      var n := SeparatorAt(q, i);
      if n == 0 {
        SplitPiecesPlain(q, start, i + 1);
      } else {
        SeparatorEdges(q, i);
        SplitPiecesPlain(q, i + n, i + n);
        SliceNoSeparator(q, start, i);
        var pieces := SplitFrom(q, start, i).pieces;
        var rest := SplitFrom(q, i + n, i + n).pieces;
        assert pieces == [q[start..i]] + rest;
        PlainCons(pieces, rest, q[start..i]);
      }
    }
  }

  /** One more piece free of separator matches in front of such pieces. */
  lemma PlainCons(pieces: seq<string>, rest: seq<string>, p: string)
    requires pieces == [p] + rest
    requires NoSeparatorIn(p)
    requires forall k :: 0 <= k < |rest| ==> NoSeparatorIn(rest[k])
    ensures forall k :: 0 <= k < |pieces| ==> NoSeparatorIn(pieces[k])
  {
    forall k | 0 < k < |pieces| ensures pieces[k] == rest[k - 1] {
    }
  }

  /**
   * A separator match at `i` closes the current piece off a word, and the
   * next piece, which begins after the match, opens off a word.
   */
  lemma SeparatorEdges(q: string, i: nat)
    requires i < |q| && SeparatorAt(q, i) > 0
    ensures ClosesOffWord(q, i)
    ensures OpensOffWord(q, i + SeparatorAt(q, i))
  {
  }

  /**
   * A slice with no separator match in its context, whose edges are not
   * inside a word, has none read on its own either.
   */
  lemma SliceNoSeparator(s: string, a: nat, b: nat)
    requires a <= b <= |s|
    requires forall p :: a <= p < b ==> SeparatorAt(s, p) == 0
    requires OpensOffWord(s, a) && ClosesOffWord(s, b)
    ensures NoSeparatorIn(s[a..b])
  {
    var t := s[a..b];
    forall x | 0 <= x < |t| ensures SeparatorAt(t, x) == 0 {
      assert SeparatorAt(s, a + x) == 0;
      assert t[x] == s[a + x];
      WholeWordTransfer(s, a, b, "and", x);
      WholeWordTransfer(s, a, b, "then", x);
      WholeWordTransfer(s, a, b, "also", x);
    }
  }

  /** A whole-word match of a lower-case word inside the slice is one in its context too. */
  lemma WholeWordTransfer(s: string, a: nat, b: nat, w: string, x: nat)
    requires a <= b <= |s| && x < b - a
    requires |w| > 0 && IsLowerLetter(w[0]) && IsLowerLetter(w[|w| - 1])
    requires OpensOffWord(s, a) && ClosesOffWord(s, b)
    ensures WholeWordAt(s[a..b], w, x) ==> WholeWordAt(s, w, a + x)
  {
    var t := s[a..b];
    if WholeWordAt(t, w, x) {
      var e := x + |w|;
      SliceOfSlice(s, a, b, x, e);
      assert Lower(t[x..e])[0] == ToLower(t[x]);
      assert Lower(t[x..e])[|w| - 1] == ToLower(t[e - 1]);
      ToLowerLetter(t[x]);
      ToLowerLetter(t[e - 1]);
      if x > 0 {
        assert t[x - 1] == s[a + x - 1];
      }
      if e < |t| {
        assert t[e] == s[a + e];
      }
    }
  }

  lemma SliceOfSlice(s: string, a: nat, b: nat, x: nat, e: nat)
    requires a <= b <= |s| && x <= e <= b - a
    ensures s[a..b][x..e] == s[a + x..a + e]
  {
    assert forall k :: 0 <= k < e - x ==> s[a..b][x..e][k] == s[a + x + k];
  }

  /** `p` is empty or ends with a character that is not a word character. */
  predicate EndsOffWord(p: string)
  {
    |p| == 0 || !IsWordChar(p[|p| - 1])
  }

  /** `p` is empty or begins with a character that is not a word character. */
  predicate StartsOffWord(p: string)
  {
    |p| == 0 || !IsWordChar(p[0])
  }

  /** When the `k`-th separator is a conjunction, the pieces around it end and begin off a word. */
  predicate WholeWordSplitAt(r: Split, k: nat)
    requires |r.pieces| == |r.seps| + 1 && k < |r.seps|
  {
    |r.seps[k]| > 1 ==> EndsOffWord(r.pieces[k]) && StartsOffWord(r.pieces[k + 1])
  }

  /**
   * A conjunction is split on only as a whole word: the pieces on either
   * side of it end and begin with a character that is not a word character.
   */
  lemma {:induction false} SplitWholeWords(q: string, start: nat, i: nat)
    requires start <= i <= |q|
    ensures forall k :: 0 <= k < |SplitFrom(q, start, i).seps| ==> WholeWordSplitAt(SplitFrom(q, start, i), k)
    decreases |q| - i
  {
    if i < |q| {
      var n := SeparatorAt(q, i);
      if n == 0 {
        SplitWholeWords(q, start, i + 1);
      } else {
        SplitWholeWords(q, i + n, i + n);
        var rest := SplitFrom(q, i + n, i + n);
        if n > 1 {
          ConjunctionBoundaries(q, start, i, |rest.pieces[0]|);
        }
        WholeWordsCons(SplitFrom(q, start, i), rest, q[start..i], q[i..i + n]);
      }
    }
  }

  /** A split that puts one more piece and separator in front keeps the whole-word property. */
  lemma WholeWordsCons(r: Split, rest: Split, p: string, sep: string)
    requires |rest.pieces| == |rest.seps| + 1
    requires r == Split([p] + rest.pieces, [sep] + rest.seps)
    requires forall k :: 0 <= k < |rest.seps| ==> WholeWordSplitAt(rest, k)
    requires |sep| > 1 ==> EndsOffWord(p) && StartsOffWord(rest.pieces[0])
    ensures forall k :: 0 <= k < |r.seps| ==> WholeWordSplitAt(r, k)
  {
    forall k | 0 <= k < |r.seps| ensures WholeWordSplitAt(r, k) {
      if k > 0 {
        assert WholeWordSplitAt(rest, k - 1);
      }
    }
  }

  /** A conjunction matched at `i` has no word character just before it or just after it. */
  lemma ConjunctionBoundaries(q: string, start: nat, i: nat, m: nat)
    requires start <= i < |q| && SeparatorAt(q, i) > 1 && i + SeparatorAt(q, i) + m <= |q|
    ensures EndsOffWord(q[start..i])
    ensures StartsOffWord(q[i + SeparatorAt(q, i)..i + SeparatorAt(q, i) + m])
  {
  }

  /** `re.split(r'\b(?:and|then|also)\b|[,;]', q, flags=re.IGNORECASE)`. */
  function SplitClauses(q: string): (r: Split)
    ensures |r.pieces| == |r.seps| + 1
  {
    SplitFrom(q, 0, 0)
  }

  /** A clause: non-empty, with no whitespace at either end. */
  predicate Stripped(c: string)
  {
    |c| > 0 && !IsSpace(c[0]) && !IsSpace(c[|c| - 1])
  }

  /** `[p.strip() for p in pieces if p.strip()]`. */
  function StripNonEmpty(pieces: seq<string>): (r: seq<string>)
    ensures |r| <= |pieces|
    ensures forall k :: 0 <= k < |r| ==> Stripped(r[k])
  {
    if |pieces| == 0 then []
    else
      var c := Strip(pieces[0]);
      StripShape(pieces[0]);
      if c == [] then StripNonEmpty(pieces[1..]) else [c] + StripNonEmpty(pieces[1..])
  }

  /**
   * The clauses of a request, in input order. Every clause is non-empty,
   * has no whitespace at either end, and holds no separator match: no
   * comma, no semicolon, no whole-word conjunction.
   */
  function Clauses(q: string): (r: seq<string>)
    ensures forall k :: 0 <= k < |r| ==> Stripped(r[k]) && NoSeparatorIn(r[k])
    ensures forall k :: 0 <= k < |r| ==> ',' !in r[k] && ';' !in r[k]
  {
    SplitPiecesPlain(q, 0, 0);
    StripNonEmptyNoSeparator(SplitClauses(q).pieces);
    var r := StripNonEmpty(SplitClauses(q).pieces);
    assert forall k :: 0 <= k < |r| ==> ',' !in r[k] && ';' !in r[k] by {
      forall k | 0 <= k < |r| ensures ',' !in r[k] && ';' !in r[k] {
        NoSeparatorPunctuation(r[k]);
      }
    }
    r
  }

  /** Stripping whitespace, which is not part of any word, keeps a text free of separator matches. */
  lemma StripNoSeparator(s: string)
    requires NoSeparatorIn(s)
    ensures NoSeparatorIn(Strip(s))
  {
    var a, b := TrimBounds(s, IsSpace);
    assert Strip(s) == TrimBoth(s, IsSpace);
    forall p | a <= p < b ensures SeparatorAt(s, p) == 0 {
    }
    if 0 < a {
      assert IsSpace(s[a - 1]);
    }
    if b < |s| {
      assert IsSpace(s[b]);
    }
    SliceNoSeparator(s, a, b);
  }

  /** Clauses of pieces free of separator matches are free of them too. */
  lemma {:induction false} StripNonEmptyNoSeparator(pieces: seq<string>)
    requires forall k :: 0 <= k < |pieces| ==> NoSeparatorIn(pieces[k])
    ensures forall k :: 0 <= k < |StripNonEmpty(pieces)| ==> NoSeparatorIn(StripNonEmpty(pieces)[k])
  {
    if |pieces| > 0 {
      StripNoSeparator(pieces[0]);
      StripNonEmptyNoSeparator(pieces[1..]);
    }
  }

  /** Text free of separator matches holds no comma and no semicolon. */
  lemma NoSeparatorPunctuation(s: string)
    requires NoSeparatorIn(s)
    ensures ',' !in s && ';' !in s
  {
    forall x | 0 <= x < |s| ensures s[x] != ',' && s[x] != ';' {
      assert SeparatorAt(s, x) == 0;
    }
  }

  /** Splitting a clause again gives back the clause alone. */
  lemma ClausesResplit(q: string)
    ensures forall k :: 0 <= k < |Clauses(q)| ==> Clauses(Clauses(q)[k]) == [Clauses(q)[k]]
  {
    forall k | 0 <= k < |Clauses(q)| ensures Clauses(Clauses(q)[k]) == [Clauses(q)[k]] {
      ClauseAlone(Clauses(q)[k]);
    }
  }

  /** A stripped text without separator matches is its own one clause. */
  lemma ClauseAlone(c: string)
    requires Stripped(c) && NoSeparatorIn(c)
    ensures Clauses(c) == [c]
  {
    SplitNoSeparator(c, 0, 0);
    assert SplitClauses(c).pieces == [c];
    TrimBothNone(c, IsSpace);
    assert Strip(c) == c;
  }

  /** With no separator match from `i` on, the current piece runs to the end. */
  lemma {:induction false} SplitNoSeparator(q: string, start: nat, i: nat)
    requires start <= i <= |q|
    requires forall p :: i <= p < |q| ==> SeparatorAt(q, p) == 0
    ensures SplitFrom(q, start, i) == Split([q[start..]], [])
    decreases |q| - i
  {
    if i < |q| {
      SplitNoSeparator(q, start, i + 1);
    }
  }

  /**
   * A single word that is not itself a conjunction is never split, so the
   * conjunctions inside `band` or `Andrew` do not count.
   */
  lemma NoSplitInsideWord(q: string)
    requires |q| > 0 && forall i :: 0 <= i < |q| ==> IsWordChar(q[i])
    requires Lower(q) !in Conjunctions
    ensures SplitClauses(q) == Split([q], [])
    ensures Clauses(q) == [q]
  {
    forall p | 0 <= p < |q| ensures SeparatorAt(q, p) == 0 {
      NoWholeWordInside(q, "and", p);
      NoWholeWordInside(q, "then", p);
      NoWholeWordInside(q, "also", p);
    }
    SplitNoSeparator(q, 0, 0);
    TrimBothNone(q, IsSpace);
    assert Strip(q) == q;
  }

  lemma NoWholeWordInside(q: string, w: string, p: nat)
    requires forall i :: 0 <= i < |q| ==> IsWordChar(q[i])
    requires Lower(q) != w
    ensures !WholeWordAt(q, w, p)
  {
  }

  lemma ConjunctionInsideWords()
    ensures Clauses("band") == ["band"]
    ensures Clauses("Andrew") == ["Andrew"]
  {
    assert Lower("band")[0] == 'b';
    NoSplitInsideWord("band");
    assert Lower("Andrew")[3] == 'r';
    NoSplitInsideWord("Andrew");
  }

  /** A conjunction only ever matches letters. */
  lemma KeywordIsLetters(q: string, kw: string, p: nat)
    requires kw in Conjunctions && WholeWordAt(q, kw, p)
    ensures forall j :: p <= j < p + |kw| ==> IsLetter(q[j])
  {
    assert forall k :: 0 <= k < |kw| ==> IsLowerLetter(kw[k]);
    forall j | p <= j < p + |kw| ensures IsLetter(q[j]) {
      assert Lower(q[p..p + |kw|])[j - p] == ToLower(q[j]) == kw[j - p];
    }
  }

  /** A space is never a separator. */
  lemma SpaceNoSeparator(q: string, p: nat)
    requires p < |q| && q[p] == ' '
    ensures SeparatorAt(q, p) == 0
  {
    if WholeWordAt(q, "and", p) { KeywordIsLetters(q, "and", p); }
    if WholeWordAt(q, "then", p) { KeywordIsLetters(q, "then", p); }
    if WholeWordAt(q, "also", p) { KeywordIsLetters(q, "also", p); }
  }

  /** A conjunction matches at the start of a whole word exactly when it is that word. */
  lemma WordIsKeyword(q: string, p: nat, len: nat, kw: string)
    requires 0 < len && p + len <= |q| && kw in Conjunctions
    requires forall j :: p <= j < p + len ==> IsWordChar(q[j])
    requires p == 0 || !IsWordChar(q[p - 1])
    requires p + len == |q| || !IsWordChar(q[p + len])
    ensures WholeWordAt(q, kw, p) <==> Lower(q[p..p + len]) == kw
  {
    if WholeWordAt(q, kw, p) {
      KeywordIsLetters(q, kw, p);
    }
  }

  /**
   * Inside a word bounded by non-word characters the only separator is
   * at its start, and there only when the word is a conjunction.
   */
  lemma WordSeparators(q: string, p: nat, word: string)
    requires 0 < |word| && p + |word| <= |q| && q[p..p + |word|] == word
    requires forall j :: 0 <= j < |word| ==> IsWordChar(word[j])
    requires p == 0 || !IsWordChar(q[p - 1])
    requires p + |word| == |q| || !IsWordChar(q[p + |word|])
    ensures SeparatorAt(q, p) == if Lower(word) in Conjunctions then |word| else 0
    ensures forall j :: p < j < p + |word| ==> SeparatorAt(q, j) == 0
  {
    var len := |word|;
    assert forall j :: p <= j < p + len ==> q[j] == word[j - p];
    WordIsKeyword(q, p, len, "and");
    WordIsKeyword(q, p, len, "then");
    WordIsKeyword(q, p, len, "also");
    WordInside(q, p, len);
  }

  /** Inside a run of word characters, past its first character, no separator matches. */
  lemma WordInside(q: string, p: nat, len: nat)
    requires p + len <= |q| && forall j :: p <= j < p + len ==> IsWordChar(q[j])
    ensures forall j :: p < j < p + len ==> SeparatorAt(q, j) == 0
  {
    forall j | p < j < p + len ensures SeparatorAt(q, j) == 0 {
      assert IsWordChar(q[j - 1]) && IsWordChar(q[j]);
    }
  }

  /** A stretch with no separator does not change the split. */
  lemma {:induction false} SplitSkip(q: string, start: nat, i: nat, j: nat)
    requires start <= i <= j <= |q|
    requires forall p :: i <= p < j ==> SeparatorAt(q, p) == 0
    ensures SplitFrom(q, start, i) == SplitFrom(q, start, j)
    decreases j - i
  {
    if i < j {
      SplitSkip(q, start, i + 1, j);
    }
  }

  /** A word followed by spaces strips to the word; so does one preceded by spaces. */
  lemma StripPadded(a: string, pad: string)
    requires |a| > 0 && forall j :: 0 <= j < |a| ==> IsWordChar(a[j])
    requires forall j :: 0 <= j < |pad| ==> pad[j] == ' '
    ensures Strip(a + pad) == a && Strip(pad + a) == a
  {
    StripPaddedRight(a, pad);
    StripPaddedLeft(a, pad);
  }

  lemma StripPaddedRight(a: string, pad: string)
    requires |a| > 0 && forall j :: 0 <= j < |a| ==> IsWordChar(a[j])
    requires forall j :: 0 <= j < |pad| ==> pad[j] == ' '
    ensures Strip(a + pad) == a
  {
    var x, y := TrimBounds(a + pad, IsSpace);
    assert (a + pad)[0] == a[0];
    assert (a + pad)[|a| - 1] == a[|a| - 1];
    assert (a + pad)[..|a|] == a;
  }

  lemma StripPaddedLeft(a: string, pad: string)
    requires |a| > 0 && forall j :: 0 <= j < |a| ==> IsWordChar(a[j])
    requires forall j :: 0 <= j < |pad| ==> pad[j] == ' '
    ensures Strip(pad + a) == a
  {
    var s := pad + a;
    forall j | 0 <= j < |pad| ensures IsSpace(s[j]) {
      assert s[j] == pad[j];
    }
    assert s[|pad|] == a[0] && s[|s| - 1] == a[|a| - 1];
    TrimBothExact(s, IsSpace, |pad|, |s|);
    assert s[|pad|..] == a;
  }

  /** A plain word and the space after it hold no separator. */
  lemma LeadingWordClear(a: string, rest: string)
    requires |a| > 0 && (forall j :: 0 <= j < |a| ==> IsWordChar(a[j])) && Lower(a) !in Conjunctions
    requires |rest| > 0 && rest[0] == ' '
    ensures forall p :: 0 <= p < |a| + 1 ==> SeparatorAt(a + rest, p) == 0
  {
    var q := a + rest;
    assert q[0..|a|] == a;
    assert q[|a|] == ' ';
    WordSeparators(q, 0, a);
    SpaceNoSeparator(q, |a|);
  }

  /** A space and the plain word after it, at the end, hold no separator. */
  lemma TrailingWordClear(pre: string, b: string)
    requires |pre| > 0 && pre[|pre| - 1] == ' '
    requires |b| > 0 && (forall j :: 0 <= j < |b| ==> IsWordChar(b[j])) && Lower(b) !in Conjunctions
    ensures forall p :: |pre| - 1 <= p < |pre + b| ==> SeparatorAt(pre + b, p) == 0
  {
    var q := pre + b;
    assert q[|pre|..|pre| + |b|] == b;
    assert q[|pre| - 1] == ' ';
    WordSeparators(q, |pre|, b);
    SpaceNoSeparator(q, |pre| - 1);
  }

  /** A conjunction between two spaces is a separator as long as itself. */
  lemma MiddleWordSeparates(pre: string, w: string, post: string)
    requires |pre| > 0 && pre[|pre| - 1] == ' ' && |post| > 0 && post[0] == ' '
    requires (forall j :: 0 <= j < |w| ==> IsWordChar(w[j])) && Lower(w) in Conjunctions
    ensures |pre| < |pre + w + post| && SeparatorAt(pre + w + post, |pre|) == |w|
  {
    var q := pre + w + post;
    assert |w| > 0;
    assert q[|pre|..|pre| + |w|] == w;
    assert q[|pre| - 1] == ' ';
    assert q[|pre| + |w|] == ' ';
    WordSeparators(q, |pre|, w);
  }

  /** A query with exactly one separator splits into the text before it and the text after it. */
  lemma SplitOnce(q: string, m: nat, n: nat)
    requires 0 < n && m + n <= |q|
    requires forall p :: 0 <= p < m ==> SeparatorAt(q, p) == 0
    requires SeparatorAt(q, m) == n
    requires forall p :: m + n <= p < |q| ==> SeparatorAt(q, p) == 0
    ensures SplitClauses(q) == Split([q[..m], q[m + n..]], [q[m..m + n]])
  {
    SplitSkip(q, 0, 0, m);
    SplitNoSeparator(q, m + n, m + n);
  }

  /** Two pieces that strip to non-empty clauses give those two clauses. */
  lemma StripTwo(x: string, y: string)
    requires Strip(x) != [] && Strip(y) != []
    ensures StripNonEmpty([x, y]) == [Strip(x), Strip(y)]
  {
    assert [x, y][1..] == [y];
    assert [y][1..] == [];
  }

  /**
   * Two words joined by a conjunction, in any case, between single spaces
   * become two clauses.
   */
  lemma ConjunctionSplits(a: string, w: string, b: string)
    requires |a| > 0 && (forall j :: 0 <= j < |a| ==> IsWordChar(a[j])) && Lower(a) !in Conjunctions
    requires |b| > 0 && (forall j :: 0 <= j < |b| ==> IsWordChar(b[j])) && Lower(b) !in Conjunctions
    requires (forall j :: 0 <= j < |w| ==> IsWordChar(w[j])) && Lower(w) in Conjunctions
    ensures SplitClauses(a + " " + w + " " + b) == Split([a + " ", " " + b], [w])
    ensures Clauses(a + " " + w + " " + b) == [a, b]
  {
    var q := a + " " + w + " " + b;
    assert q == a + (" " + w + " " + b);
    LeadingWordClear(a, " " + w + " " + b);
    assert q == (a + " " + w + " ") + b;
    TrailingWordClear(a + " " + w + " ", b);
    assert q == (a + " ") + w + (" " + b);
    MiddleWordSeparates(a + " ", w, " " + b);
    SplitOnce(q, |a| + 1, |w|);
    SliceParts3(a + " ", w, " " + b);
    StripPadded(a, " ");
    StripPadded(b, " ");
    StripTwo(a + " ", " " + b);
  }

  lemma SliceParts3(x: string, y: string, z: string)
    ensures (x + y + z)[..|x|] == x && (x + y + z)[|x|..|x| + |y|] == y && (x + y + z)[|x| + |y|..] == z
  {
    SliceParts(x, y, z);
  }

  // ---------------------------------------------------------------------------
  // Widening the SQL to SELECT *
  // ---------------------------------------------------------------------------

  /** First index at or after `i` that is not whitespace, or `|s|`. */
  function SkipSpace(s: string, i: nat): (k: nat)
    requires i <= |s|
    ensures i <= k <= |s|
    ensures forall j :: i <= j < k ==> IsSpace(s[j])
    ensures k < |s| ==> !IsSpace(s[k])
    decreases |s| - i
  {
    if i < |s| && IsSpace(s[i]) then SkipSpace(s, i + 1) else i
  }

  /** First whitespace index at or after `i`, or `|s|`. */
  function SkipWord(s: string, i: nat): (k: nat)
    requires i <= |s|
    ensures i <= k <= |s|
    ensures forall j :: i <= j < k ==> !IsSpace(s[j])
    ensures k < |s| ==> IsSpace(s[k])
    decreases |s| - i
  {
    if i < |s| && !IsSpace(s[i]) then SkipWord(s, i + 1) else i
  }

  /** The tokens of `s[i..]`: none when only whitespace is left, else the next word and the tokens after it. */
  lemma {:induction false} TokensAt(s: string, i: nat)
    requires i <= |s|
    ensures SkipSpace(s, i) == |s| ==> Tokens(s[i..]) == []
    ensures SkipSpace(s, i) < |s| ==>
              SkipSpace(s, i) < SkipWord(s, SkipSpace(s, i))
              && Tokens(s[i..]) == [s[SkipSpace(s, i)..SkipWord(s, SkipSpace(s, i))]] + Tokens(s[SkipWord(s, SkipSpace(s, i))..])
  {
    var a := SkipSpace(s, i);
    TokensAfterSpace(s, i, a);
    if a < |s| {
      TokensWordAt(s, a, SkipWord(s, a));
    } else {
      assert s[a..] == [];
    }
  }

  /** Whitespace before index `a` does not change the tokens. */
  lemma TokensAfterSpace(s: string, i: nat, a: nat)
    requires i <= a <= |s| && forall j :: i <= j < a ==> IsSpace(s[j])
    ensures Tokens(s[i..]) == Tokens(s[a..])
  {
    assert s[i..] == s[i..a] + s[a..];
    TokensSkipSpace(s[i..a], s[a..]);
  }

  /** A word running from `a` to the whitespace at `b` is the first token of `s[a..]`. */
  lemma TokensWordAt(s: string, a: nat, b: nat)
    requires a < b <= |s| && forall j :: a <= j < b ==> !IsSpace(s[j])
    requires b < |s| ==> IsSpace(s[b])
    ensures Tokens(s[a..]) == [s[a..b]] + Tokens(s[b..])
  {
    assert s[a..] == s[a..b] + s[b..];
    TokensCons(s[a..b], s[b..]);
  }

  /** The span of the second whitespace-separated token, when there is one. */
  function SecondToken(s: string): (r: Option<(nat, nat)>)
    ensures r.Some? ==> r.value.0 < r.value.1 <= |s|
  {
    var a := SkipSpace(s, 0);
    var b := SkipWord(s, a);
    var c := SkipSpace(s, b);
    if c < |s| then Some((c, SkipWord(s, c))) else None
  }

  /** `SecondToken` finds `sql.split()[1]`, and finds it exactly when there is one. */
  lemma {:induction false} SecondTokenIsToken(s: string)
    ensures SecondToken(s).Some? <==> |Tokens(s)| > 1
    ensures SecondToken(s).Some? ==> Tokens(s)[1] == s[SecondToken(s).value.0..SecondToken(s).value.1]
  {
    var a := SkipSpace(s, 0);
    var b := SkipWord(s, a);
    assert s[0..] == s;
    TokensAt(s, 0);
    if a < |s| {
      TokensAt(s, b);
    }
  }

  /** `sql.strip().upper().startswith('SELECT *')`. */
  predicate SelectsAll(sql: string)
  {
    StartsWith(Upper(Strip(sql)), "SELECT *")
  }

  /**
   * `fetch_results` as written: the first occurrence of the second token
   * anywhere in the SQL becomes `*`, wherever that occurrence is.
   */
  function WidenSqlAsWritten(sql: string): (r: string)
    ensures SelectsAll(sql) || |Tokens(sql)| < 2 ==> r == sql
    ensures !SelectsAll(sql) && |Tokens(sql)| >= 2 ==>
              var t := Tokens(sql)[1];
              FindFrom(sql, t, 0).Some? && FindFrom(sql, t, 0).value + |t| <= |sql|
              && r == sql[..FindFrom(sql, t, 0).value] + "*" + sql[FindFrom(sql, t, 0).value + |t|..]
  {
    if SelectsAll(sql) then sql
    else
      AsWrittenFirst(sql);
      StarFirstOccurrence(sql)
  }

  /** The second token occurs in the statement, so its first occurrence is where the replacement happens. */
  lemma AsWrittenFirst(sql: string)
    ensures |Tokens(sql)| < 2 ==> StarFirstOccurrence(sql) == sql
    ensures |Tokens(sql)| >= 2 ==>
              var t := Tokens(sql)[1];
              FindFrom(sql, t, 0).Some? && FindFrom(sql, t, 0).value + |t| <= |sql|
              && StarFirstOccurrence(sql) == sql[..FindFrom(sql, t, 0).value] + "*" + sql[FindFrom(sql, t, 0).value + |t|..]
  {
    SecondTokenIsToken(sql);
    if |Tokens(sql)| >= 2 {
      var t := Tokens(sql)[1];
      TokenOccurs(sql, SecondToken(sql).value.0, SecondToken(sql).value.1, t);
      AsWrittenAt(sql, t, FindFrom(sql, t, 0).value);
    }
  }

  /** `sql.replace(sql.split()[1], '*', 1)` when there is a second token. */
  function StarFirstOccurrence(sql: string): string
  {
    var parts := Tokens(sql);
    if |parts| > 1 then ReplaceFirst(sql, parts[1], "*") else sql
  }

  /** A text that is a slice of the statement has a first occurrence in it. */
  lemma TokenOccurs(sql: string, c: nat, d: nat, t: string)
    requires c <= d <= |sql| && t == sql[c..d]
    ensures FindFrom(sql, t, 0).Some?
  {
    assert OccursAt(sql, t, c);
  }

  /** The intended widening: the second token itself, in place, becomes `*`. */
  function WidenSql(sql: string): (r: string)
    ensures SelectsAll(sql) || |Tokens(sql)| < 2 ==> r == sql
    ensures !SelectsAll(sql) && |Tokens(sql)| >= 2 ==>
              SecondToken(sql).Some?
              && var (c, d) := SecondToken(sql).value;
                 Tokens(sql)[1] == sql[c..d] && r == sql[..c] + "*" + sql[d..]
  {
    if SelectsAll(sql) then sql
    else
      SecondTokenIsToken(sql);
      StarSecondToken(sql)
  }

  /** The second token, where it stands, replaced by `*`. */
  function StarSecondToken(sql: string): string
  {
    match SecondToken(sql)
    case None => sql
    case Some((c, d)) => sql[..c] + "*" + sql[d..]
  }

  lemma SkipSpaceIs(s: string, i: nat, k: nat)
    requires i <= k <= |s|
    requires forall j :: i <= j < k ==> IsSpace(s[j])
    requires k < |s| ==> !IsSpace(s[k])
    ensures SkipSpace(s, i) == k
  {
  }

  lemma SkipWordIs(s: string, i: nat, k: nat)
    requires i <= k <= |s|
    requires forall j :: i <= j < k ==> !IsSpace(s[j])
    requires k < |s| ==> IsSpace(s[k])
    ensures SkipWord(s, i) == k
  {
  }

  /** The first two tokens of `s` and the ones after them, from the word boundaries. */
  lemma {:induction false} TwoTokens(s: string, a: nat, b: nat, c: nat, d: nat)
    requires a == SkipSpace(s, 0) && b == SkipWord(s, a) && c == SkipSpace(s, b) && c < |s| && d == SkipWord(s, c)
    ensures Tokens(s) == [s[a..b], s[c..d]] + Tokens(s[d..])
  {
    assert s[0..] == s;
    TokensAfterSpace(s, 0, a);
    TokensWordAt(s, a, b);
    TokensAfterSpace(s, b, c);
    TokensWordAt(s, c, d);
    ConsTwo(s[a..b], s[c..d], Tokens(s), Tokens(s[c..]), Tokens(s[d..]));
  }

  lemma ConsTwo(x: string, y: string, t: seq<string>, u: seq<string>, r: seq<string>)
    requires t == [x] + u && u == [y] + r
    ensures t == [x, y] + r
  {
  }

  /** Over the text before the second token, the widened SQL has the same word boundaries. */
  lemma {:induction false} WidenedBoundaries(sql: string, w: string, a: nat, b: nat, c: nat, d: nat)
    requires a == SkipSpace(sql, 0) && b == SkipWord(sql, a) && c == SkipSpace(sql, b) && c < |sql| && d == SkipWord(sql, c)
    requires w == sql[..c] + "*" + sql[d..]
    ensures a == SkipSpace(w, 0) && b == SkipWord(w, a) && c == SkipSpace(w, b) && c + 1 == SkipWord(w, c)
    ensures w[a..b] == sql[a..b] && w[c..c + 1] == "*" && w[c + 1..] == sql[d..]
  {
    StarredText(sql, w, c, d);
    SamePrefix(sql, w, c, a, b);
    SkipSpaceIs(w, 0, a);
    SkipWordIs(w, a, b);
    SkipSpaceIs(w, b, c);
    SkipWordIs(w, c, c + 1);
  }

  /** The text around a `*` written over `sql[c..d]`. */
  lemma StarredText(sql: string, w: string, c: nat, d: nat)
    requires c < d <= |sql| && w == sql[..c] + "*" + sql[d..]
    ensures |w| == c + 1 + (|sql| - d)
    ensures w[..c] == sql[..c] && w[c] == '*' && w[c..c + 1] == "*" && w[c + 1..] == sql[d..]
    ensures c + 1 < |w| ==> w[c + 1] == sql[d]
  {
  }

  /** Strings that agree up to `c` agree on every index and slice before it. */
  lemma SamePrefix(x: string, y: string, c: nat, a: nat, b: nat)
    requires a <= b <= c <= |x| && c <= |y| && x[..c] == y[..c]
    ensures forall j :: 0 <= j < c ==> x[j] == y[j]
    ensures x[a..b] == y[a..b]
  {
    assert forall j :: 0 <= j < c ==> x[j] == x[..c][j] && y[j] == y[..c][j];
    assert x[a..b] == x[..c][a..b] && y[a..b] == y[..c][a..b];
  }

  /** Writing `*` over the second token leaves the word boundaries before it where they were. */
  lemma {:induction false} ReplaceSecondToken(sql: string)
    requires SecondToken(sql).Some? && |Tokens(sql)| > 1
    ensures Tokens(sql[..SecondToken(sql).value.0] + "*" + sql[SecondToken(sql).value.1..])
            == [Tokens(sql)[0], "*"] + Tokens(sql)[2..]
  {
    var a := SkipSpace(sql, 0);
    var b := SkipWord(sql, a);
    var c := SkipSpace(sql, b);
    var d := SkipWord(sql, c);
    var w := sql[..c] + "*" + sql[d..];
    assert SecondToken(sql) == Some((c, d));
    WidenedBoundaries(sql, w, a, b, c, d);
    var rest := Tokens(sql[d..]);
    TwoTokens(sql, a, b, c, d);
    var ts := Tokens(sql);
    assert ts[0] == sql[a..b] && ts[2..] == rest;
    TwoTokens(w, a, b, c, c + 1);
  }

  /**
   * Widening changes exactly the second token: the tokens of the result
   * are the first token, `*`, and the original tokens from the third on.
   * A statement already selecting `*`, or with fewer than two tokens, is
   * left alone.
   */
  lemma {:induction false} WidenSqlTokens(sql: string)
    ensures SelectsAll(sql) || |Tokens(sql)| < 2 ==> WidenSql(sql) == sql
    ensures !SelectsAll(sql) && |Tokens(sql)| >= 2 ==>
              Tokens(WidenSql(sql)) == [Tokens(sql)[0], "*"] + Tokens(sql)[2..]
  {
    SecondTokenIsToken(sql);
    if !SelectsAll(sql) && |Tokens(sql)| >= 2 {
      ReplaceSecondToken(sql);
    }
  }

  /** The SQL of a generated template once its `{COL}` is bound: `SELECT <what> FROM <table> WHERE <col> = ?`. */
  function BoundSelect(what: string, table: string, col: string): string
  {
    "SELECT " + what + SelectTail(table, col)
  }

  /** The text after the selected column of a bound statement. */
  function SelectTail(table: string, col: string): string
  {
    " FROM " + table + " WHERE " + col + " = ?"
  }

  /** The selected column is the second token of a bound statement. */
  lemma {:induction false} BoundSelectSecondToken(what: string, table: string, col: string)
    requires |what| > 0 && forall i :: 0 <= i < |what| ==> !IsSpace(what[i])
    ensures SecondToken(BoundSelect(what, table, col)) == Some((7, 7 + |what|))
  {
    var s := BoundSelect(what, table, col);
    assert forall j :: 0 <= j < 6 ==> s[j] == "SELECT"[j];
    assert s[6] == ' ';
    assert forall j :: 7 <= j < 7 + |what| ==> s[j] == what[j - 7];
    assert s[7 + |what|] == ' ';
    SkipSpaceIs(s, 0, 0);
    SkipWordIs(s, 0, 6);
    SkipSpaceIs(s, 6, 7);
    SkipWordIs(s, 7, 7 + |what|);
  }

  /** The requested column of a bound statement is the column it selects. */
  lemma RequestedColumnBound(what: string, table: string, col: string)
    requires |what| > 0 && forall i :: 0 <= i < |what| ==> !IsSpace(what[i])
    ensures RequestedColumn(BoundSelect(what, table, col)) == what
  {
    var s := BoundSelect(what, table, col);
    BoundSelectSecondToken(what, table, col);
    SecondTokenIsToken(s);
    assert s[7..7 + |what|] == what;
  }

  /** A bound statement does not already select `*` unless its column starts with `*`. */
  lemma {:induction false} BoundSelectNotAll(what: string, table: string, col: string)
    requires |what| > 0 && what[0] != '*'
    ensures !SelectsAll(BoundSelect(what, table, col))
  {
    var s := BoundSelect(what, table, col);
    assert s[0] == 'S' && s[|s| - 1] == '?';
    TrimBothNone(s, IsSpace);
    assert Strip(s) == s;
    assert Upper(s)[7] == ToUpper(what[0]) != '*';
  }

  /**
   * Widening a generated template's SQL, bound to a column, selects every
   * column and changes nothing else.
   */
  lemma {:induction false} WidenBoundSelect(what: string, table: string, col: string)
    requires |what| > 0 && what[0] != '*' && forall i :: 0 <= i < |what| ==> !IsSpace(what[i])
    ensures WidenSql(BoundSelect(what, table, col)) == BoundSelect("*", table, col)
  {
    var s := BoundSelect(what, table, col);
    BoundSelectSecondToken(what, table, col);
    BoundSelectNotAll(what, table, col);
    WidenAt(s, 7, 7 + |what|);
    SliceParts("SELECT ", what, SelectTail(table, col));
  }

  /**
   * The widening as written gives the same statement, provided the
   * selected column's first occurrence is where it is selected, that is,
   * it does not occur inside `SELECT `.
   */
  lemma {:induction false} WidenBoundSelectAsWritten(what: string, table: string, col: string)
    requires |what| > 0 && what[0] != '*' && forall i :: 0 <= i < |what| ==> !IsSpace(what[i])
    requires FindFrom(BoundSelect(what, table, col), what, 0) == Some(7)
    ensures WidenSqlAsWritten(BoundSelect(what, table, col)) == BoundSelect("*", table, col)
  {
    var s := BoundSelect(what, table, col);
    BoundSelectSecondToken(what, table, col);
    SliceParts("SELECT ", what, SelectTail(table, col));
    assert s[7..7 + |what|] == what;
    AsWrittenAgrees(s, 7, 7 + |what|);
    WidenBoundSelect(what, table, col);
  }

  lemma WidenAt(sql: string, c: nat, d: nat)
    requires SecondToken(sql) == Some((c, d))
    ensures StarSecondToken(sql) == sql[..c] + "*" + sql[d..]
  {
  }

  lemma SliceParts(x: string, y: string, z: string)
    ensures (x + y + z)[..|x|] == x && (x + y + z)[|x| + |y|..] == z
  {
  }

  /**
   * The replacement at the first occurrence agrees with the intended one
   * whenever the second token does not occur earlier in the statement.
   */
  lemma {:induction false} AsWrittenAgrees(sql: string, c: nat, d: nat)
    requires SecondToken(sql) == Some((c, d))
    ensures FindFrom(sql, sql[c..d], 0) == Some(c) ==> WidenSqlAsWritten(sql) == WidenSql(sql)
  {
    if FindFrom(sql, sql[c..d], 0) == Some(c) {
      SecondTokenIsToken(sql);
      AsWrittenSpan(sql, c, d);
      WidenSame(sql, c, d);
    }
  }

  /** The first occurrence of the second token found where the token stands. */
  lemma AsWrittenSpan(sql: string, c: nat, d: nat)
    requires c <= d <= |sql| && |Tokens(sql)| > 1 && Tokens(sql)[1] == sql[c..d]
    requires FindFrom(sql, sql[c..d], 0) == Some(c)
    ensures StarFirstOccurrence(sql) == sql[..c] + "*" + sql[d..]
  {
    AsWrittenAt(sql, sql[c..d], c);
  }

  /** The two widenings agree wherever their replacements agree. */
  lemma WidenSame(sql: string, c: nat, d: nat)
    requires SecondToken(sql) == Some((c, d))
    requires StarFirstOccurrence(sql) == sql[..c] + "*" + sql[d..]
    ensures WidenSqlAsWritten(sql) == WidenSql(sql)
  {
    WidenAt(sql, c, d);
  }

  lemma AsWrittenAt(sql: string, t: string, j: nat)
    requires |Tokens(sql)| > 1 && Tokens(sql)[1] == t
    requires FindFrom(sql, t, 0) == Some(j)
    ensures j + |t| <= |sql|
    ensures StarFirstOccurrence(sql) == sql[..j] + "*" + sql[j + |t|..]
  {
    ReplaceFirstAt(sql, t, "*", j);
  }

  /** In a statement selecting `T`, the first `T` is the last letter of `SELECT`. */
  lemma {:induction false} FirstTInSelect(table: string, col: string)
    ensures FindFrom(BoundSelect("T", table, col), "T", 0) == Some(5)
  {
    var s := BoundSelect("T", table, col);
    assert s[..6] == "SELECT";
    assert OccursAt(s, "T", 5);
    forall j | 0 <= j < 5 ensures !OccursAt(s, "T", j) {
      assert s[j] == "SELECT"[j];
      assert s[j..j + 1][0] == s[j];
    }
  }

  lemma {:induction false} AsWrittenOnT(table: string, col: string)
    ensures WidenSqlAsWritten(BoundSelect("T", table, col))
            == BoundSelect("T", table, col)[..5] + "*" + BoundSelect("T", table, col)[6..]
  {
    var s := BoundSelect("T", table, col);
    BoundSelectSecondToken("T", table, col);
    BoundSelectNotAll("T", table, col);
    SecondTokenIsToken(s);
    assert Tokens(s)[1] == s[7..8] == "T";
    FirstTInSelect(table, col);
    AsWrittenAt(s, "T", 5);
  }

  /**
   * The widening as written corrupts the keyword when the selected column
   * is a piece of `SELECT`: for a column named `T` the `T` of `SELECT` is
   * replaced, and the statement no longer parses.
   */
  lemma {:induction false} AsWrittenCorruptsSelect(table: string, col: string)
    ensures WidenSqlAsWritten(BoundSelect("T", table, col)) == "SELEC* T" + SelectTail(table, col)
    ensures WidenSql(BoundSelect("T", table, col)) == BoundSelect("*", table, col)
  {
    AsWrittenOnT(table, col);
    WidenBoundSelect("T", table, col);
    SelecStar(table, col);
  }

  /** The `T` of `SELECT` replaced by `*` in a statement selecting `T`. */
  lemma SelecStar(table: string, col: string)
    ensures BoundSelect("T", table, col)[..5] + "*" + BoundSelect("T", table, col)[6..] == "SELEC* T" + SelectTail(table, col)
  {
    var s := BoundSelect("T", table, col);
    var tail := SelectTail(table, col);
    assert s == "SELECT T" + tail;
    assert s[..5] == "SELEC";
    assert s[6..] == " T" + tail;
    assert "SELEC" + "*" + (" T" + tail) == "SELEC* T" + tail;
  }

  // ---------------------------------------------------------------------------
  // Running the statement and shaping the response
  // ---------------------------------------------------------------------------

  /** A cell of a result row, or the `slot_score` added to rows of a description match. */
  datatype Value = Cell(text: string) | SlotScoreValue(score: real)

  /** One result row: column name to value. */
  type Row = map<string, Value>

  /**
   * The database: the rows a statement returns with its one `?` bound to
   * the given value, or `None` when executing it raises.
   */
  type Database = (string, string) -> Option<seq<Row>>

  const SlotScoreKey: string := "slot_score"

  /** The rows of one description match, each tagged with that match's score. */
  function WithSlotScore(rows: seq<Row>, score: real): (r: seq<Row>)
    ensures |r| == |rows|
    ensures forall i :: 0 <= i < |r| ==> r[i].Keys == rows[i].Keys + {SlotScoreKey} && r[i][SlotScoreKey] == SlotScoreValue(score)
    ensures forall i, c :: 0 <= i < |r| && c in rows[i] && c != SlotScoreKey ==> r[i][c] == rows[i][c]
  {
    seq(|rows|, i requires 0 <= i < |rows| => rows[i][SlotScoreKey := SlotScoreValue(score)])
  }

  /** The statement run once per description match, in match order; `None` as soon as one run raises. */
  function FetchEach(sql: string, ms: seq<DescMatch>, db: Database): Option<seq<Row>>
  {
    if |ms| == 0 then Some([])
    else
      match db(sql, ms[0].value)
      case None => None
      case Some(rows) =>
        match FetchEach(sql, ms[1..], db)
        case None => None
        case Some(rest) => Some(WithSlotScore(rows, ms[0].score) + rest)
  }

  /** Fetching for description matches fails exactly when the statement raises for one of them. */
  lemma {:induction false} FetchEachFails(sql: string, ms: seq<DescMatch>, db: Database)
    ensures FetchEach(sql, ms, db).None? <==> exists k :: 0 <= k < |ms| && db(sql, ms[k].value).None?
  {
    if |ms| > 0 {
      FetchEachFails(sql, ms[1..], db);
      if exists k :: 0 <= k < |ms[1..]| && db(sql, ms[1..][k].value).None? {
        var k :| 0 <= k < |ms[1..]| && db(sql, ms[1..][k].value).None?;
        assert ms[1..][k] == ms[k + 1];
      }
      if exists k :: 0 <= k < |ms| && db(sql, ms[k].value).None? {
        var k :| 0 <= k < |ms| && db(sql, ms[k].value).None?;
        if k > 0 {
          assert ms[1..][k - 1] == ms[k];
        }
      }
    }
  }

  /**
   * Each row fetched for a list of description matches carries a
   * `slot_score`, and that score is the score of one of the matches
   * (`WithSlotScore` keeps every other field of the database's row).
   */
  lemma {:induction false} FetchEachTagged(sql: string, ms: seq<DescMatch>, db: Database)
    ensures FetchEach(sql, ms, db).Some? ==>
              forall i :: 0 <= i < |FetchEach(sql, ms, db).value| ==>
                SlotScoreKey in FetchEach(sql, ms, db).value[i]
                && exists k :: 0 <= k < |ms| && FetchEach(sql, ms, db).value[i][SlotScoreKey] == SlotScoreValue(ms[k].score)
  {
    if |ms| > 0 && FetchEach(sql, ms, db).Some? {
      FetchEachTagged(sql, ms[1..], db);
      var head := WithSlotScore(db(sql, ms[0].value).value, ms[0].score);
      var rest := FetchEach(sql, ms[1..], db).value;
      var r := FetchEach(sql, ms, db).value;
      assert r == head + rest;
      forall i | 0 <= i < |r|
        ensures SlotScoreKey in r[i] && exists k :: 0 <= k < |ms| && r[i][SlotScoreKey] == SlotScoreValue(ms[k].score)
      {
        if i < |head| {
          assert r[i] == head[i];
          assert r[i][SlotScoreKey] == SlotScoreValue(ms[0].score);
        } else {
          assert r[i] == rest[i - |head|];
          var k :| 0 <= k < |ms[1..]| && rest[i - |head|][SlotScoreKey] == SlotScoreValue(ms[1..][k].score);
          assert ms[1..][k] == ms[k + 1];
        }
      }
    }
  }

  /**
   * `fetch_results`: the widened statement run with the literal slot, or
   * once for each description match with its rows tagged by the match's
   * score. It fails exactly when one run of the statement raises.
   */
  function FetchResults(sql: string, slot: Slot, db: Database): (r: Option<seq<Row>>)
    ensures slot.Literal? ==> (r.None? <==> db(WidenSql(sql), slot.text).None?)
    ensures slot.Described? ==>
              (r.None? <==> exists k :: 0 <= k < |slot.matches| && db(WidenSql(sql), slot.matches[k].value).None?)
    ensures r.Some? && slot.Described? ==>
              forall i :: 0 <= i < |r.value| ==>
                SlotScoreKey in r.value[i]
                && exists k :: 0 <= k < |slot.matches| && r.value[i][SlotScoreKey] == SlotScoreValue(slot.matches[k].score)
  {
    var all := WidenSql(sql);
    match slot
    case Literal(v) => db(all, v)
    case Described(ms) =>
      FetchEachFails(all, ms, db);
      FetchEachTagged(all, ms, db);
      FetchEach(all, ms, db)
  }

  /** `requested_col`: the second token of the statement, or `*`. */
  function RequestedColumn(sql: string): string
  {
    var parts := Tokens(sql);
    if |parts| > 1 then parts[1] else "*"
  }

  /** `is_scalar`: the statement names no `*` and exactly one row came back. */
  predicate IsScalar(sql: string, rows: seq<Row>)
  {
    '*' !in sql && |rows| == 1
  }

  /** `desc_field`: the first text column present in the row. */
  function DescField(textColumns: seq<string>, row: Row): (r: Option<string>)
    ensures r.None? <==> forall i :: 0 <= i < |textColumns| ==> textColumns[i] !in row
    ensures r.Some? ==> exists i :: 0 <= i < |textColumns| && textColumns[i] == r.value
                          && r.value in row && forall j :: 0 <= j < i ==> textColumns[j] !in row
  {
    if |textColumns| == 0 then None
    else if textColumns[0] in row then Some(textColumns[0])
    else
      var r := DescField(textColumns[1..], row);
      assert forall i :: 1 <= i < |textColumns| ==> textColumns[i] == textColumns[1..][i - 1];
      if r.Some? then
        var i :| 0 <= i < |textColumns[1..]| && textColumns[1..][i] == r.value
                 && r.value in row && forall j :: 0 <= j < i ==> textColumns[1..][j] !in row;
        assert textColumns[i + 1] == r.value;
        r
      else r
  }

  /** The `result` of a hit: every row, or the few fields of a single scalar answer. */
  datatype Payload = Rows(rows: seq<Row>) | Fields(fields: map<string, Value>)

  /**
   * The shaping of a hit's rows. A scalar answer keeps the requested
   * column, and also the description column when a truthy one is in the
   * row; `None` is the `KeyError` raised when the requested column is not
   * in the row.
   */
  function ShapeResult(sql: string, rows: seq<Row>, textColumns: seq<string>): (r: Option<Payload>)
    ensures r.None? <==> IsScalar(sql, rows) && RequestedColumn(sql) !in rows[0]
    ensures r.Some? ==> (r.value.Fields? <==> IsScalar(sql, rows))
    ensures r.Some? && r.value.Rows? ==> r.value.rows == rows
    ensures r.Some? && r.value.Fields? ==>
              RequestedColumn(sql) in r.value.fields
              && (forall k :: k in r.value.fields ==> k in rows[0] && r.value.fields[k] == rows[0][k])
              && (forall k :: k in r.value.fields ==> k == RequestedColumn(sql) || Some(k) == DescField(textColumns, rows[0]))
    ensures r.Some? && r.value.Fields? && DescField(textColumns, rows[0]).Some? && DescField(textColumns, rows[0]).value != "" ==>
              DescField(textColumns, rows[0]).value in r.value.fields
  {
    if IsScalar(sql, rows) then
      var row := rows[0];
      var req := RequestedColumn(sql);
      if req !in row then None
      else
        match DescField(textColumns, row)
        case Some(d) =>
          if d != "" then Some(Fields(map[d := row[d], req := row[req]]))
          else Some(Fields(map[req := row[req]]))
        case None => Some(Fields(map[req := row[req]]))
    else Some(Rows(rows))
  }

  /** One entry of `queries` in the reply. */
  datatype Response =
    | NoMatch(query: string)
    | Matched(query: string, template: string, score: Score, result: Payload, column: string, isDescription: bool)

  /**
   * The reply: 400 for an empty request, 500 when a statement raises or
   * the requested column is missing from a scalar row, else the answers.
   */
  datatype Reply = BadRequest | ServerError | Answer(anyHit: bool, queries: seq<Response>)

  /** The handling of one clause; `None` when running its statement or shaping its rows raises. */
  function Respond(m: Matcher, part: string, sim: Similarity, db: Database): (r: Option<Response>)
    requires Extractable(m) && |m.templates| == |m.sqlTemplates|
    ensures r.None? <==>
              var hit := MatchWithSbert(m, part, sim).result;
              hit.Some?
              && (FetchResults(hit.value.sql, hit.value.slot, db).None?
                  || ShapeResult(hit.value.sql, FetchResults(hit.value.sql, hit.value.slot, db).value, m.schema.textColumns).None?)
    ensures r.Some? ==> r.value.query == part
    ensures r.Some? ==> (r.value.Matched? <==> MatchWithSbert(m, part, sim).result.Some?)
    ensures r.Some? && r.value.Matched? ==>
              var hit := MatchWithSbert(m, part, sim).result.value;
              r.value.template == hit.template && r.value.score == hit.score
              && r.value.column == hit.column && r.value.isDescription == hit.isDescription
              && FetchResults(hit.sql, hit.slot, db).Some?
              && Some(r.value.result) == ShapeResult(hit.sql, FetchResults(hit.sql, hit.slot, db).value, m.schema.textColumns)
  {
    var o := MatchWithSbert(m, part, sim);
    match o.result
    case None => Some(NoMatch(part))
    case Some(hit) =>
      match FetchResults(hit.sql, hit.slot, db)
      case None => None
      case Some(rows) =>
        match ShapeResult(hit.sql, rows, m.schema.textColumns)
        case None => None
        case Some(p) => Some(Matched(part, hit.template, hit.score, p, hit.column, hit.isDescription))
  }

  /** Each clause's response, in order. */
  function Responses(m: Matcher, parts: seq<string>, sim: Similarity, db: Database): (outs: seq<Option<Response>>)
    requires Extractable(m) && |m.templates| == |m.sqlTemplates|
    ensures |outs| == |parts| && forall i :: 0 <= i < |parts| ==> outs[i] == Respond(m, parts[i], sim, db)
  {
    seq(|parts|, i requires 0 <= i < |parts| => Respond(m, parts[i], sim, db))
  }

  /**
   * The loop over the clauses: the responses in order and whether any
   * clause matched, or `None` as soon as one clause fails.
   */
  function Collect(outs: seq<Option<Response>>): (r: Option<(seq<Response>, bool)>)
    ensures r.Some? ==> |r.value.0| == |outs|
  {
    if |outs| == 0 then Some(([], false))
    else if outs[0].None? then None
    else
      match Collect(outs[1..])
      case None => None
      case Some((rs, any)) => Some(([outs[0].value] + rs, outs[0].value.Matched? || any))
  }

  /**
   * Collecting fails exactly when one clause failed; otherwise the
   * responses are the clauses' own, and the flag says whether one matched.
   */
  lemma {:induction false} CollectSpec(outs: seq<Option<Response>>)
    ensures Collect(outs).None? <==> exists i :: 0 <= i < |outs| && outs[i].None?
    ensures Collect(outs).Some? ==> forall i :: 0 <= i < |outs| ==> outs[i] == Some(Collect(outs).value.0[i])
    ensures Collect(outs).Some? ==>
              (Collect(outs).value.1 <==> exists i :: 0 <= i < |outs| && Collect(outs).value.0[i].Matched?)
  {
    if |outs| > 0 {
      var tail := outs[1..];
      CollectSpec(tail);
      if exists i :: 0 <= i < |tail| && tail[i].None? {
        var i :| 0 <= i < |tail| && tail[i].None?;
        assert outs[i + 1] == tail[i];
      }
      if Collect(outs).Some? {
        var rs := Collect(outs).value.0;
        var rest := Collect(tail).value.0;
        assert rs == [outs[0].value] + rest;
        forall i | 0 <= i < |outs| ensures outs[i] == Some(rs[i]) {
          if i > 0 {
            assert outs[i] == tail[i - 1];
          }
        }
        if Collect(tail).value.1 {
          var j :| 0 <= j < |tail| && rest[j].Matched?;
          assert rs[j + 1].Matched?;
        }
        if exists i :: 0 <= i < |outs| && rs[i].Matched? {
          var i :| 0 <= i < |outs| && rs[i].Matched?;
          if i > 0 {
            assert rest[i - 1].Matched?;
          }
        }
      }
    }
  }

  /** The loop at the heart of `query_multi`: every clause answered in turn, or a server error. */
  function RespondAll(m: Matcher, parts: seq<string>, sim: Similarity, db: Database): (r: Option<(seq<Response>, bool)>)
    requires Extractable(m) && |m.templates| == |m.sqlTemplates|
    ensures r.Some? ==> |r.value.0| == |parts|
    ensures r.Some? ==> (r.value.1 <==> exists i :: 0 <= i < |parts| && r.value.0[i].Matched?)
  {
    var outs := Responses(m, parts, sim, db);
    CollectSpec(outs);
    Collect(outs)
  }

  /** Answering the clauses fails exactly when one clause's answer fails. */
  lemma RespondAllFails(m: Matcher, parts: seq<string>, sim: Similarity, db: Database)
    requires Extractable(m) && |m.templates| == |m.sqlTemplates|
    ensures RespondAll(m, parts, sim, db).None? <==> exists i :: 0 <= i < |parts| && Respond(m, parts[i], sim, db).None?
  {
    var outs := Responses(m, parts, sim, db);
    CollectSpec(outs);
    if exists i :: 0 <= i < |parts| && Respond(m, parts[i], sim, db).None? {
      var i :| 0 <= i < |parts| && Respond(m, parts[i], sim, db).None?;
      assert outs[i].None?;
    }
  }

  /** The responses are the clauses' own responses, one per clause, in order. */
  lemma RespondAllEach(m: Matcher, parts: seq<string>, sim: Similarity, db: Database)
    requires Extractable(m) && |m.templates| == |m.sqlTemplates|
    ensures RespondAll(m, parts, sim, db).Some? ==>
              forall i :: 0 <= i < |parts| ==> Respond(m, parts[i], sim, db) == Some(RespondAll(m, parts, sim, db).value.0[i])
  {
    CollectSpec(Responses(m, parts, sim, db));
  }

  /**
   * `query_multi`: an empty or blank request is refused before any
   * matching; otherwise every clause gets one response, in order.
   */
  function QueryMulti(m: Matcher, userInput: string, sim: Similarity, db: Database): (r: Reply)
    requires Extractable(m) && |m.templates| == |m.sqlTemplates|
    ensures r.BadRequest? <==> forall i :: 0 <= i < |userInput| ==> IsSpace(userInput[i])
    ensures r.Answer? ==>
              var clauses := Clauses(Strip(userInput));
              |r.queries| == |clauses|
              && (forall i :: 0 <= i < |clauses| ==> r.queries[i].query == clauses[i])
              && (forall i :: 0 <= i < |clauses| ==>
                    (r.queries[i].Matched? <==> MatchWithSbert(m, clauses[i], sim).result.Some?))
    ensures r.Answer? ==> (r.anyHit <==> exists i :: 0 <= i < |r.queries| && r.queries[i].Matched?)
    ensures r.ServerError? <==>
              Strip(userInput) != [] && exists i :: 0 <= i < |Clauses(Strip(userInput))| && Respond(m, Clauses(Strip(userInput))[i], sim, db).None?
  {
    var q := Strip(userInput);
    StripEmptyIff(userInput);
    RespondAllFails(m, Clauses(q), sim, db);
    RespondAllEach(m, Clauses(q), sim, db);
    if q == [] then BadRequest
    else
      match RespondAll(m, Clauses(q), sim, db)
      case None => ServerError
      case Some((rs, any)) => Answer(any, rs)
  }
}
