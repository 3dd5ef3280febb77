/**
 * The per-column exact-value cache of the matcher: a Python dict built as
 * `{str(v).lower(): str(v) for v in values}` and searched in insertion
 * order for the first key that is a substring of the lower-cased query.
 */
module CategoricalCache {
  import opened Wrappers
  import opened Text

  /** One dict item: the lower-cased key and the value as stored in the table. */
  datatype Entry = Entry(key: string, original: string)

  /** A Python dict as its item list in insertion order. */
  type Cache = seq<Entry>

  predicate KeysDistinct(c: Cache)
  {
    forall i, j :: 0 <= i < j < |c| ==> c[i].key != c[j].key
  }

  /** Every key is the lower-cased form of its value. */
  predicate KeysLowered(c: Cache)
  {
    forall i :: 0 <= i < |c| ==> c[i].key == Lower(c[i].original)
  }

  /** Position of `key` in the dict, if present. */
  function KeyIndex(c: Cache, key: string): (r: Option<nat>)
    ensures r.Some? ==> r.value < |c| && c[r.value].key == key
    ensures r.None? ==> forall i :: 0 <= i < |c| ==> c[i].key != key
  {
    if |c| == 0 then None
    else if c[|c| - 1].key == key then Some(|c| - 1)
    else KeyIndex(c[..|c| - 1], key)
  }

  /** `d[key] = value`: an existing key keeps its position and takes the new value. */
  function Put(c: Cache, key: string, value: string): (r: Cache)
    requires KeysDistinct(c)
    ensures KeysDistinct(r)
    ensures |r| == |c| || |r| == |c| + 1
    ensures forall i :: 0 <= i < |c| ==> r[i] == if c[i].key == key then Entry(key, value) else c[i]
    ensures |r| == |c| + 1 <==> forall i :: 0 <= i < |c| ==> c[i].key != key
    ensures |r| == |c| + 1 ==> r[|c|] == Entry(key, value)
  {
    match KeyIndex(c, key)
    case Some(i) => c[i := Entry(key, value)]
    case None => c + [Entry(key, value)]
  }

  /** Index of the last value whose lower-cased form is `key`. */
  ghost predicate LastWithKey(values: seq<string>, key: string, i: int)
  {
    0 <= i < |values| && Lower(values[i]) == key
    && forall j :: i < j < |values| ==> Lower(values[j]) != key
  }

  /**
   * `_load_categorical_values` for one column: keys are the distinct
   * lower-cased values; when two values differ only in case, the later one
   * is kept (dict assignment overwrites the value, not the position).
   */
  function Build(values: seq<string>): (c: Cache)
    ensures KeysDistinct(c) && KeysLowered(c)
    decreases |values|
  {
    if |values| == 0 then []
    else
      var v := values[|values| - 1];
      Put(Build(values[..|values| - 1]), Lower(v), v)
  }

  /** Every value of the column has its lower-cased form as a key. */
  lemma {:induction false} BuildCovers(values: seq<string>, i: nat)
    requires i < |values|
    ensures exists n :: 0 <= n < |Build(values)| && Build(values)[n].key == Lower(values[i])
    decreases |values|
  {
    var init := values[..|values| - 1];
    var v := values[|values| - 1];
    var prev := Build(init);
    var r := Build(values);
    if i == |values| - 1 {
      if forall n :: 0 <= n < |prev| ==> prev[n].key != Lower(v) {
        assert r[|prev|].key == Lower(v);
      } else {
        var n :| 0 <= n < |prev| && prev[n].key == Lower(v);
        assert r[n].key == Lower(v);
      }
    } else {
      BuildCovers(init, i);
      var n :| 0 <= n < |prev| && prev[n].key == Lower(init[i]);
      assert r[n].key == prev[n].key;
    }
  }

  /** Every item holds the last column value having its key. */
  lemma {:induction false} BuildLastWins(values: seq<string>, n: nat)
    requires n < |Build(values)|
    ensures exists i :: LastWithKey(values, Build(values)[n].key, i) && Build(values)[n].original == values[i]
    decreases |values|
  {
    var init := values[..|values| - 1];
    var v := values[|values| - 1];
    var prev := Build(init);
    var r := Build(values);
    assert r == Put(prev, Lower(v), v);
    if n == |prev| || prev[n].key == Lower(v) {
      assert r[n] == Entry(Lower(v), v);
      assert LastWithKey(values, r[n].key, |values| - 1);
    } else {
      assert r[n] == prev[n];
      BuildLastWins(init, n);
      var i :| LastWithKey(init, prev[n].key, i) && prev[n].original == init[i];
      LastWithKeyExtends(values, prev[n].key, i);
    }
  }

  /** A last occurrence stays the last one when a value with another key is appended. */
  lemma LastWithKeyExtends(values: seq<string>, key: string, i: int)
    requires |values| > 0 && Lower(values[|values| - 1]) != key
    requires LastWithKey(values[..|values| - 1], key, i)
    ensures LastWithKey(values, key, i) && values[i] == values[..|values| - 1][i]
  {
    var init := values[..|values| - 1];
    assert forall j :: 0 <= j < |init| ==> init[j] == values[j];
  }

  /** Position of the first item, in insertion order, whose key occurs in `queryLower`. */
  function LookupIndex(c: Cache, queryLower: string): (r: Option<nat>)
    ensures r.Some? ==> r.value < |c| && Contains(queryLower, c[r.value].key)
    ensures r.Some? ==> forall j :: 0 <= j < r.value ==> !Contains(queryLower, c[j].key)
    ensures r.None? ==> forall j :: 0 <= j < |c| ==> !Contains(queryLower, c[j].key)
    decreases |c|
  {
    if |c| == 0 then None
    else if Contains(queryLower, c[0].key) then Some(0)
    else
      match LookupIndex(c[1..], queryLower)
      case None => None
      case Some(j) => Some(j + 1)
  }

  /**
   * The exact-value test of `extract_slot`: the stored value of the first
   * item whose key is a substring of the lower-cased query. The test is
   * unanchored, with no word-boundary check.
   */
  function Lookup(c: Cache, queryLower: string): Option<string>
  {
    match LookupIndex(c, queryLower)
    case None => None
    case Some(i) => Some(c[i].original)
  }

  /**
   * For a cache built from a column's values, the exact-value test hits
   * exactly when some value, lower-cased, occurs in the lower-cased query,
   * and what it returns is a value of the column that does so.
   */
  lemma LookupBuilt(values: seq<string>, query: string)
    ensures Lookup(Build(values), Lower(query)).Some? <==>
            exists i :: 0 <= i < |values| && Contains(Lower(query), Lower(values[i]))
    ensures Lookup(Build(values), Lower(query)).Some? ==>
            Lookup(Build(values), Lower(query)).value in values &&
            Contains(Lower(query), Lower(Lookup(Build(values), Lower(query)).value))
  {
    var c := Build(values);
    var q := Lower(query);
    match LookupIndex(c, q)
    case Some(n) =>
      BuildLastWins(values, n);
      var i :| LastWithKey(values, c[n].key, i) && c[n].original == values[i];
      assert Contains(q, Lower(values[i]));
    case None =>
      forall i | 0 <= i < |values| ensures !Contains(q, Lower(values[i])) {
        BuildCovers(values, i);
        var n :| 0 <= n < |c| && c[n].key == Lower(values[i]);
      }
  }

  /** A value whose key is the empty string (an empty, non-null cell) hits on every query. */
  lemma EmptyKeyAlwaysHits(c: Cache, queryLower: string)
    requires exists n :: 0 <= n < |c| && c[n].key == []
    ensures Lookup(c, queryLower).Some?
  {
    var n :| 0 <= n < |c| && c[n].key == [];
    assert OccursAt(queryLower, [], 0);
  }
}
