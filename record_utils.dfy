/**
 * Keyed views of a row stream: `indexBy` (one row per key) and `aggregateBy`
 * (the set of rows per non-null key).
 */
module RecordUtils {
  import opened Wrappers
  import opened Rows

  /** The rows of a stream as a set: equal rows collapse into one element. */
  function Elements(source: seq<Row>): set<Row>
  {
    set r | r in source
  }

  /** The distinct non-null values the key column takes among `rows`. */
  function KeyValues(rows: set<Row>, key: Column): set<Value>
  {
    set r | r in rows && Get(r, key).Some? :: Get(r, key).value
  }

  /** The rows whose key column holds exactly `k` (which may be null). */
  function RowsWithKey(rows: set<Row>, key: Column, k: Option<Value>): set<Row>
  {
    set r | r in rows && Get(r, key) == k
  }

  /**
   * `groupingBy(r -> Optional.ofNullable(r.get(key)), toSet())`: the stream is
   * accumulated row by row into a map from the (possibly absent) key to the set
   * of rows seen with it.
   */
  function GroupingBy(source: seq<Row>, key: Column): (g: map<Option<Value>, set<Row>>)
    ensures forall r | r in source :: Get(r, key) in g
    ensures forall k | k in g :: g[k] == RowsWithKey(Elements(source), key, k)
    ensures forall k | k in g :: g[k] != {}
    decreases |source|
  {
    if source == [] then map[]
    else
      var init := source[..|source| - 1];
      var r := source[|source| - 1];
      var acc := GroupingBy(init, key);
      var k := Get(r, key);
      ElementsOfSnoc(init, r);
      assert source == init + [r];
      RowsWithKeyInsert(Elements(init), r, key);
      acc[k := (if k in acc then acc[k] else {}) + {r}]
  }

  /** Appending a row to a stream adds it to the set of its rows. */
  lemma ElementsOfSnoc(init: seq<Row>, r: Row)
    ensures Elements(init + [r]) == Elements(init) + {r}
  {
    assert forall x | x in init + [r] :: x in init || x == r;
  }

  /** Adding one row to a set of rows adds it to the rows of its own key and to no other. */
  lemma RowsWithKeyInsert(rows: set<Row>, r: Row, key: Column)
    ensures forall k :: RowsWithKey(rows + {r}, key, k) == RowsWithKey(rows, key, k) + (if Get(r, key) == k then {r} else {})
  {
  }

  /**
   * `aggregateBy`: the grouping above with the absent key filtered out and the
   * remaining keys unwrapped.
   */
  function AggregateBy(source: seq<Row>, key: Column): (m: map<Value, set<Row>>)
    ensures m.Keys == KeyValues(Elements(source), key)
    ensures |m| == |KeyValues(Elements(source), key)|
    ensures forall k | k in m :: m[k] == RowsWithKey(Elements(source), key, Some(k))
    ensures forall k | k in m :: m[k] != {}
  {
    var g := GroupingBy(source, key);
    var present := set k | k in g && k.Some? :: k.value;
    map v | v in present :: g[Some(v)]
  }

  /** The members of the group for `k`, spelled out row by row. */
  lemma GroupMembers(source: seq<Row>, key: Column, k: Value)
    requires k in AggregateBy(source, key)
    ensures forall r | r in AggregateBy(source, key)[k] :: r in Elements(source) && Get(r, key) == Some(k)
  {
  }

  /** A row with a non-null key lies in the group of its key; a row with a null key in no group. */
  lemma GroupComplete(source: seq<Row>, key: Column, r: Row)
    requires r in source
    ensures Get(r, key).Some? ==> Get(r, key).value in AggregateBy(source, key) && r in AggregateBy(source, key)[Get(r, key).value]
    ensures Get(r, key).None? ==> forall k | k in AggregateBy(source, key) :: r !in AggregateBy(source, key)[k]
  {
  }

  /** The grouping of a set of rows: each non-null key value to the rows carrying it. */
  function GroupsOf(rows: set<Row>, key: Column): map<Value, set<Row>>
  {
    map k | k in KeyValues(rows, key) :: RowsWithKey(rows, key, Some(k))
  }

  /** `aggregateBy` over a stream is the grouping of its set of rows. */
  lemma AggregateByIsGroupsOf(source: seq<Row>, key: Column)
    ensures AggregateBy(source, key) == GroupsOf(Elements(source), key)
  {
  }

  /**
   * The grouping depends only on the set of rows: the stream's order does not
   * matter, and a row repeated in the stream is the same as the row once.
   */
  lemma AggregateByDependsOnlyOnElements(s1: seq<Row>, s2: seq<Row>, key: Column)
    requires Elements(s1) == Elements(s2)
    ensures AggregateBy(s1, key) == AggregateBy(s2, key)
  {
    AggregateByIsGroupsOf(s1, key);
    AggregateByIsGroupsOf(s2, key);
  }

  /** The error `Collectors.toMap` raises when two rows share a key. */
  datatype IndexError = DuplicateKey(key: Option<Value>)

  /** No two positions of the stream carry the same key (null included). */
  predicate KeysDistinct(input: seq<Row>, key: Column)
  {
    forall i, j | 0 <= i < j < |input| :: Get(input[i], key) != Get(input[j], key)
  }

  /**
   * `indexBy`: `toMap` from each row's key to the row, without a merge function,
   * so a key seen twice (two identical rows included) raises an error.
   */
  function IndexBy(input: seq<Row>, key: Column): (r: Result<map<Option<Value>, Row>, IndexError>)
    ensures r.Success? <==> KeysDistinct(input, key)
    ensures r.Success? ==> r.value.Keys == (set x | x in input :: Get(x, key))
    ensures r.Success? ==> forall i | 0 <= i < |input| :: r.value[Get(input[i], key)] == input[i]
    ensures r.Failure? ==> exists i, j :: 0 <= i < j < |input| && Get(input[i], key) == r.error.key && Get(input[j], key) == r.error.key
    decreases |input|
  {
    if input == [] then Success(map[])
    else
      var init := input[..|input| - 1];
      var x := input[|input| - 1];
      assert input == init + [x];
      var m :- IndexBy(init, key);
      var k := Get(x, key);
      if k in m then Failure(DuplicateKey(k)) else Success(m[k := x])
  }
}
