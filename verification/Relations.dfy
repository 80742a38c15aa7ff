/** Loading relations of many entities with a bounded number of keys per query and hash maps keyed by
    text, against the plain join it stands for. */
module Relations {
  import opened Wrappers
  import Decimal

  /** A key value of a column. */
  datatype Key = Null | Number(n: int) | Text(s: string)

  /** String(key), the property name the hash maps use. */
  function KeyText(k: Key): string {
    match k
    case Null => "null"
    case Number(n) => if n < 0 then "-" + Decimal.ToText(-n) else Decimal.ToText(n)
    case Text(s) => s
  }

  /** A row of a queried table: its key column and what the loader takes from it. */
  datatype Row<V> = Row(key: Key, value: V)

  // ---------- The joins themselves ----------

  /** The rows an equality on the key column selects, in table order; NULL equals nothing. */
  function Matching<V>(rows: seq<Row<V>>, k: Key): seq<V> {
    if rows == [] || k == Null then []
    else Matching(rows[..|rows| - 1], k) + if rows[|rows| - 1].key == k then [rows[|rows| - 1].value] else []
  }

  function Last<V>(s: seq<V>): Option<V> {
    if s == [] then None else Some(s[|s| - 1])
  }

  function First<V>(s: seq<V>): Option<V> {
    if s == [] then None else Some(s[0])
  }

  /** Targets of junction rows in order, leaving out rows whose target row is missing. */
  function Resolve<V>(targets: seq<Row<V>>, keys: seq<Key>): seq<V> {
    if keys == [] then []
    else
      var target := Last(Matching(targets, keys[|keys| - 1]));
      Resolve(targets, keys[..|keys| - 1]) + if target.Some? then [target.value] else []
  }

  /** The many-to-many join for one owner key. */
  function Joined<V>(junction: seq<Row<Key>>, targets: seq<Row<V>>, k: Key): seq<V> {
    Resolve(targets, Matching(junction, k))
  }

  /** Row i holds the key. */
  predicate Holds<V>(rows: seq<Row<V>>, k: Key, i: nat) {
    k != Null && i < |rows| && rows[i].key == k
  }

  ghost predicate IsFirst<V>(rows: seq<Row<V>>, k: Key, i: int) {
    0 <= i < |rows| && Holds(rows, k, i) && forall j :: 0 <= j < i ==> !Holds(rows, k, j)
  }

  ghost predicate IsLast<V>(rows: seq<Row<V>>, k: Key, i: int) {
    0 <= i < |rows| && Holds(rows, k, i) && forall j :: i < j < |rows| ==> !Holds(rows, k, j)
  }

  lemma MatchingEnds<V>(rows: seq<Row<V>>, k: Key)
    requires rows != []
    ensures var n := |rows| - 1;
            && Matching(rows, k) == Matching(rows[..n], k) + (if Holds(rows, k, n) then [rows[n].value] else [])
            && forall i :: 0 <= i < n ==> (Holds(rows, k, i) <==> Holds(rows[..n], k, i))
  {
    var n := |rows| - 1;
    assert k == Null ==> Matching(rows[..n], k) == [];
  }

  /** The first of the rows with a key, in table order. */
  lemma {:induction false} FirstMatching<V>(rows: seq<Row<V>>, k: Key)
    ensures First(Matching(rows, k)).None? <==> forall i :: 0 <= i < |rows| ==> !Holds(rows, k, i)
    ensures forall i :: IsFirst(rows, k, i) ==> i < |rows| && First(Matching(rows, k)) == Some(rows[i].value)
  {
    if rows != [] {
      var n := |rows| - 1;
      FirstMatching(rows[..n], k);
      MatchingEnds(rows, k);
      hide Matching;
      forall i | IsFirst(rows, k, i) ensures First(Matching(rows, k)) == Some(rows[i].value) {
        assert i < n ==> IsFirst(rows[..n], k, i);
      }
    }
  }

  /** The last of the rows with a key, in table order. */
  lemma {:induction false} LastMatching<V>(rows: seq<Row<V>>, k: Key)
    ensures Last(Matching(rows, k)).None? <==> forall i :: 0 <= i < |rows| ==> !Holds(rows, k, i)
    ensures forall i :: IsLast(rows, k, i) ==> i < |rows| && Last(Matching(rows, k)) == Some(rows[i].value)
  {
    if rows != [] {
      var n := |rows| - 1;
      LastMatching(rows[..n], k);
      MatchingEnds(rows, k);
      hide Matching;
      forall i | IsLast(rows, k, i) ensures Last(Matching(rows, k)) == Some(rows[i].value) {
        assert i < n ==> !Holds(rows, k, n) && IsLast(rows[..n], k, i);
      }
    }
  }

  // ---------- Chunked queries ----------

  /** One query: WHERE key IN (chunk), in table order. */
  function Select<V>(rows: seq<Row<V>>, chunk: seq<Key>): seq<Row<V>> {
    if rows == [] then []
    else
      var last := rows[|rows| - 1];
      Select(rows[..|rows| - 1], chunk) + if last.key != Null && last.key in chunk then [last] else []
  }

  function Chunk(keys: seq<Key>, limit: nat): seq<Key> {
    keys[..if limit < |keys| then limit else |keys|]
  }

  function Rest(keys: seq<Key>, limit: nat): seq<Key> {
    keys[if limit < |keys| then limit else |keys|..]
  }

  function Chunked<V>(rows: seq<Row<V>>, keys: seq<Key>, limit: nat): seq<Row<V>>
    requires limit >= 1
    decreases |keys|
  {
    if keys == [] then [] else Select(rows, Chunk(keys, limit)) + Chunked(rows, Rest(keys, limit), limit)
  }

  /** No key sits in two chunks. */
  predicate ChunkLocal(keys: seq<Key>, limit: nat)
    requires limit >= 1
    decreases |keys|
  {
    keys == [] ||
    (&& (forall k <- Chunk(keys, limit) :: k != Null ==> k !in Rest(keys, limit))
     && ChunkLocal(Rest(keys, limit), limit))
  }

  predicate Distinct(keys: seq<Key>) {
    forall i, j :: 0 <= i < j < |keys| ==> keys[i] != keys[j]
  }

  lemma {:induction false} MatchingAppend<V>(a: seq<Row<V>>, b: seq<Row<V>>, k: Key)
    ensures Matching(a + b, k) == Matching(a, k) + Matching(b, k)
  {
    if b == [] {
      assert a + b == a;
    } else {
      assert (a + b)[..|a + b| - 1] == a + b[..|b| - 1];
      MatchingAppend(a, b[..|b| - 1], k);
    }
  }

  lemma {:induction false} MatchingSelect<V>(rows: seq<Row<V>>, chunk: seq<Key>, k: Key)
    ensures Matching(Select(rows, chunk), k) == if k in chunk then Matching(rows, k) else []
  {
    if rows != [] {
      var init, last := rows[..|rows| - 1], rows[|rows| - 1];
      MatchingSelect(init, chunk, k);
      MatchingAppend(Select(init, chunk), if last.key != Null && last.key in chunk then [last] else [], k);
    }
  }

  lemma {:induction false} DistinctIsLocal(keys: seq<Key>, limit: nat)
    requires limit >= 1 && Distinct(keys)
    ensures ChunkLocal(keys, limit)
    decreases |keys|
  {
    if keys != [] {
      var chunk, rest := Chunk(keys, limit), Rest(keys, limit);
      forall k <- chunk ensures k !in rest {
        var i :| 0 <= i < |chunk| && chunk[i] == k;
        forall j | 0 <= j < |rest| ensures rest[j] != k {
          assert rest[j] == keys[|chunk| + j];
        }
      }
      DistinctIsLocal(rest, limit);
    }
  }

  /** Splitting a query into chunks changes no group of rows and no order inside a group, as long as no
      key is asked for in two chunks. */
  lemma {:induction false} ChunkedMatching<V>(rows: seq<Row<V>>, keys: seq<Key>, limit: nat, k: Key)
    requires limit >= 1 && ChunkLocal(keys, limit)
    ensures Matching(Chunked(rows, keys, limit), k) == if k in keys then Matching(rows, k) else []
    decreases |keys|
  {
    if keys != [] {
      var chunk, rest := Chunk(keys, limit), Rest(keys, limit);
      assert keys == chunk + rest;
      MatchingSelect(rows, chunk, k);
      ChunkedMatching(rows, rest, limit, k);
      MatchingAppend(Select(rows, chunk), Chunked(rows, rest, limit), k);
    }
  }

  /** Otherwise a key asked for in two chunks finds its rows twice. */
  lemma {:induction false} RepeatedKeyDoubles<V>(k: Key, v: V, keys: seq<Key>, limit: nat)
    requires limit >= 1 && k != Null && k in keys
    ensures |Matching(Chunked([Row(k, v)], keys, limit), k)| >= 1
    decreases |keys|
  {
    var chunk, rest, rows := Chunk(keys, limit), Rest(keys, limit), [Row(k, v)];
    assert keys == chunk + rest;
    MatchingSelect(rows, chunk, k);
    MatchingAppend(Select(rows, chunk), Chunked(rows, rest, limit), k);
    assert rows[..0] == [] && Matching(rows, k) == [v];
    if k !in chunk {
      RepeatedKeyDoubles(k, v, rest, limit);
    }
  }

  lemma {:induction false} SplitKeyExists(keys: seq<Key>, limit: nat) returns (k: Key)
    requires limit >= 1 && !ChunkLocal(keys, limit)
    ensures k != Null && k in keys
    ensures forall v: Key :: |Matching(Chunked([Row(k, v)], keys, limit), k)| >= 2
    decreases |keys|
  {
    var chunk, rest := Chunk(keys, limit), Rest(keys, limit);
    assert keys == chunk + rest;
    if !ChunkLocal(rest, limit) {
      k := SplitKeyExists(rest, limit);
    } else {
      k :| k in chunk && k != Null && k in rest;
    }
    forall v: Key ensures |Matching(Chunked([Row(k, v)], keys, limit), k)| >= 2 {
      var rows := [Row(k, v)];
      MatchingSelect(rows, chunk, k);
      MatchingAppend(Select(rows, chunk), Chunked(rows, rest, limit), k);
      assert rows[..0] == [] && Matching(rows, k) == [v];
      if ChunkLocal(rest, limit) {
        RepeatedKeyDoubles(k, v, rest, limit);
      }
    }
  }

  // ---------- Hash maps keyed by text ----------

  /** Keys that String() tells apart. */
  ghost predicate Separable(keys: set<Key>) {
    forall a, b :: a in keys && b in keys && KeyText(a) == KeyText(b) ==> a == b
  }

  /** Integer keys, with or without NULL among them, are always told apart. */
  lemma NumbersSeparable(keys: set<Key>)
    requires forall k <- keys :: !k.Text?
    ensures Separable(keys)
  {
    forall a, b | a in keys && b in keys && KeyText(a) == KeyText(b) ensures a == b {
      if a.Number? { NumberText(a.n); }
      if b.Number? { NumberText(b.n); }
      assert KeyText(Null)[0] == 'n';
    }
  }

  lemma NumberText(n: int)
    ensures KeyText(Number(n)) != "" && KeyText(Number(n))[0] != 'n'
    ensures forall m :: KeyText(Number(m)) == KeyText(Number(n)) ==> m == n
  {
    var size := if n < 0 then -n else n;
    assert Decimal.IsDigit(Decimal.ToText(size)[0]);
    forall m | KeyText(Number(m)) == KeyText(Number(n)) ensures m == n {
      var other := if m < 0 then -m else m;
      assert Decimal.IsDigit(Decimal.ToText(other)[0]);
      assert KeyText(Number(m))[if m < 0 then 1 else 0..] == Decimal.ToText(other);
      assert KeyText(Number(n))[if n < 0 then 1 else 0..] == Decimal.ToText(size);
      Decimal.TextRoundTrip(size);
      Decimal.TextRoundTrip(other);
    }
  }

  ghost predicate KeysIn<V>(rows: seq<Row<V>>, keys: set<Key>) {
    forall i :: 0 <= i < |rows| ==> rows[i].key != Null && rows[i].key in keys
  }

  lemma {:induction false} SelectKeys<V>(rows: seq<Row<V>>, chunk: seq<Key>, keys: set<Key>)
    requires forall k <- chunk :: k in keys
    ensures KeysIn(Select(rows, chunk), keys)
  {
    if rows != [] {
      SelectKeys(rows[..|rows| - 1], chunk, keys);
    }
  }

  lemma {:induction false} ChunkedKeys<V>(rows: seq<Row<V>>, values: seq<Key>, limit: nat, keys: set<Key>)
    requires limit >= 1 && forall k <- values :: k in keys
    ensures KeysIn(Chunked(rows, values, limit), keys)
    decreases |values|
  {
    if values != [] {
      SelectKeys(rows, Chunk(values, limit), keys);
      ChunkedKeys(rows, Rest(values, limit), limit, keys);
    }
  }

  // ---------- The loaders ----------

  function AtLeastOne(parameterLimit: int): (n: nat)
    ensures n >= 1
  {
    if parameterLimit > 1 then parameterLimit else 1
  }

  /** `[...new Set(keys)]` without the nulls. */
  function UniqueKeys(keys: seq<Key>): (u: seq<Key>)
    ensures Distinct(u) && forall k :: k in u <==> k in keys && k != Null
  {
    if keys == [] then []
    else
      var rest, last := UniqueKeys(keys[..|keys| - 1]), keys[|keys| - 1];
      assert keys == keys[..|keys| - 1] + [last];
      if last == Null || last in rest then rest else rest + [last]
  }

  lemma ChunkedStep<V>(rows: seq<Row<V>>, values: seq<Key>, index: nat, limit: nat)
    requires limit >= 1 && index < |values|
    ensures var end := if index + limit < |values| then index + limit else |values|;
            Chunked(rows, Rest(values, index), limit)
            == Select(rows, values[index..end]) + Chunked(rows, Rest(values, index + limit), limit)
  {
    var end := if index + limit < |values| then index + limit else |values|;
    var remaining := Rest(values, index);
    assert values[index..end] == Chunk(remaining, limit) && Rest(values, index + limit) == Rest(remaining, limit);
  }

  lemma ChunkedLoop<V>(rows: seq<Row<V>>, values: seq<Key>, index: nat, limit: nat, result: seq<Row<V>>)
    requires limit >= 1 && index < |values|
    requires result + Chunked(rows, Rest(values, index), limit) == Chunked(rows, values, limit)
    ensures var end := if index + limit < |values| then index + limit else |values|;
            (result + Select(rows, values[index..end])) + Chunked(rows, Rest(values, index + limit), limit)
            == Chunked(rows, values, limit)
  {
    var end := if index + limit < |values| then index + limit else |values|;
    ChunkedStep(rows, values, index, limit);
    hide Chunked, Select, Rest;
    RowsAssociate(result, Select(rows, values[index..end]), Chunked(rows, Rest(values, index + limit), limit));
  }

  lemma RowsAssociate<V>(a: seq<Row<V>>, b: seq<Row<V>>, c: seq<Row<V>>)
    ensures (a + b) + c == a + (b + c)
  {
  }

  lemma ChunkedStart<V>(rows: seq<Row<V>>, values: seq<Key>, limit: nat)
    requires limit >= 1
    ensures [] + Chunked(rows, Rest(values, 0), limit) == Chunked(rows, values, limit)
  {
    assert Rest(values, 0) == values;
  }

  lemma ChunkedEnd<V>(rows: seq<Row<V>>, values: seq<Key>, index: nat, limit: nat, result: seq<Row<V>>)
    requires limit >= 1 && index >= |values|
    ensures result + Chunked(rows, Rest(values, index), limit) == result
  {
    assert Rest(values, index) == [];
  }

  /** Queries for all the values in order, none for more values than the driver takes in one statement. */
  ghost predicate Asked(queries: seq<seq<Key>>, values: seq<Key>, parameterLimit: int) {
    && AllOf(queries) == values
    && forall q <- queries :: q != [] && (|q| == 1 || |q| <= parameterLimit)
  }

  ghost function AllOf(queries: seq<seq<Key>>): seq<Key> {
    if queries == [] then [] else AllOf(queries[..|queries| - 1]) + queries[|queries| - 1]
  }

  function Before(values: seq<Key>, index: nat): seq<Key> {
    values[..if index < |values| then index else |values|]
  }

  lemma AskedMore(queries: seq<seq<Key>>, values: seq<Key>, index: nat, limit: nat, parameterLimit: int)
    requires index < |values| && limit == AtLeastOne(parameterLimit)
    requires Asked(queries, Before(values, index), parameterLimit)
    ensures var end := if index + limit < |values| then index + limit else |values|;
            Asked(queries + [values[index..end]], Before(values, index + limit), parameterLimit)
  {
    var end := if index + limit < |values| then index + limit else |values|;
    var all := queries + [values[index..end]];
    assert all[..|queries|] == queries;
    assert values[..index] + values[index..end] == values[..end];
  }

  lemma AskedEnds(values: seq<Key>, index: nat, parameterLimit: int)
    ensures Asked([], Before(values, 0), parameterLimit)
    ensures index >= |values| ==> Before(values, index) == values
  {
    assert Before(values, 0) == [];
  }

  /** What has been asked and fetched when the loop is at `index`. */
  ghost predicate Fetching<V>(rows: seq<Row<V>>, values: seq<Key>, parameterLimit: int, index: nat,
                              result: seq<Row<V>>, queries: seq<seq<Key>>)
  {
    var limit := AtLeastOne(parameterLimit);
    && result + Chunked(rows, Rest(values, index), limit) == Chunked(rows, values, limit)
    && Asked(queries, Before(values, index), parameterLimit)
  }

  lemma FetchingStarts<V>(rows: seq<Row<V>>, values: seq<Key>, parameterLimit: int)
    ensures Fetching(rows, values, parameterLimit, 0, [], [])
  {
    ChunkedStart(rows, values, AtLeastOne(parameterLimit));
    AskedEnds(values, 0, parameterLimit);
  }

  lemma FetchingMore<V>(rows: seq<Row<V>>, values: seq<Key>, parameterLimit: int, index: nat, result: seq<Row<V>>,
                        queries: seq<seq<Key>>)
    requires index < |values| && Fetching(rows, values, parameterLimit, index, result, queries)
    ensures var limit := AtLeastOne(parameterLimit);
            var end := if index + limit < |values| then index + limit else |values|;
            Fetching(rows, values, parameterLimit, index + limit,
                     result + Select(rows, values[index..end]), queries + [values[index..end]])
  {
    ChunkedLoop(rows, values, index, AtLeastOne(parameterLimit), result);
    AskedMore(queries, values, index, AtLeastOne(parameterLimit), parameterLimit);
    hide Chunked, Select, Rest, Asked, Before;
  }

  lemma FetchingEnds<V>(rows: seq<Row<V>>, values: seq<Key>, parameterLimit: int, index: nat, result: seq<Row<V>>,
                        queries: seq<seq<Key>>)
    requires index >= |values| && Fetching(rows, values, parameterLimit, index, result, queries)
    ensures result == Chunked(rows, values, AtLeastOne(parameterLimit)) && Asked(queries, values, parameterLimit)
  {
    ChunkedEnd(rows, values, index, AtLeastOne(parameterLimit), result);
    AskedEnds(values, index, parameterLimit);
  }

  method ChunkedFind<V>(rows: seq<Row<V>>, values: seq<Key>, parameterLimit: int)
    returns (result: seq<Row<V>>, ghost queries: seq<seq<Key>>)
    ensures result == Chunked(rows, values, AtLeastOne(parameterLimit))
    ensures Asked(queries, values, parameterLimit)
  {
    hide *;
    result, queries := [], [];
    var limit := AtLeastOne(parameterLimit);
    var index := 0;
    FetchingStarts(rows, values, parameterLimit);
    while index < |values|
      invariant 0 <= index
      invariant Fetching(rows, values, parameterLimit, index, result, queries)
      decreases |values| - index
    {
      var end := if index + limit < |values| then index + limit else |values|;
      FetchingMore(rows, values, parameterLimit, index, result, queries);
      result := result + Select(rows, values[index..end]);
      queries := queries + [values[index..end]];
      index := index + limit;
    }
    FetchingEnds(rows, values, parameterLimit, index, result, queries);
  }

  // ---------- What a map keyed by text holds ----------

  /** The values of rows whose key has this text, in order. */
  function ByText<V>(rows: seq<Row<V>>, t: string): seq<V> {
    if rows == [] then []
    else
      var last := rows[|rows| - 1];
      ByText(rows[..|rows| - 1], t) + if KeyText(last.key) == t then [last.value] else []
  }

  function Look<V>(index: map<string, V>, t: string): Option<V> {
    if t in index then Some(index[t]) else None
  }

  function LookAll<V>(groups: map<string, seq<V>>, t: string): seq<V> {
    if t in groups then groups[t] else []
  }

  /** Where texts tell the keys apart, a text stands for its key. */
  lemma {:induction false} ByTextIsMatching<V>(rows: seq<Row<V>>, keys: set<Key>, k: Key)
    requires Separable(keys) && KeysIn(rows, keys) && k in keys
    ensures ByText(rows, KeyText(k)) == Matching(rows, k)
  {
    if rows != [] {
      var last := rows[|rows| - 1];
      ByTextIsMatching(rows[..|rows| - 1], keys, k);
      assert last.key in keys && (KeyText(last.key) == KeyText(k) <==> last.key == k);
    }
  }

  /** `new Map(rows.map(...))`: later rows win. */
  method IndexByKey<V>(rows: seq<Row<V>>) returns (index: map<string, V>)
    ensures forall t :: Look(index, t) == Last(ByText(rows, t))
  {
    index := map[];
    for i := 0 to |rows|
      invariant forall t :: Look(index, t) == Last(ByText(rows[..i], t))
    {
      assert rows[..i + 1][..i] == rows[..i];
      index := index[KeyText(rows[i].key) := rows[i].value];
    }
    assert rows[..|rows|] == rows;
  }

  /** Rows grouped under the text of their key, in order. */
  method GroupByKey<V>(rows: seq<Row<V>>) returns (groups: map<string, seq<V>>)
    ensures forall t :: LookAll(groups, t) == ByText(rows, t)
  {
    groups := map[];
    for i := 0 to |rows|
      invariant forall t :: LookAll(groups, t) == ByText(rows[..i], t)
    {
      assert rows[..i + 1][..i] == rows[..i];
      var group := LookAll(groups, KeyText(rows[i].key));
      groups := groups[KeyText(rows[i].key) := group + [rows[i].value]];
    }
    assert rows[..|rows|] == rows;
  }

  /** An entity: its key, and its relation properties once loaded. */
  class Entity<V> {
    const key: Key
    var one: Option<V>
    var many: seq<V>

    constructor (key: Key)
      ensures this.key == key && one == None && many == []
    {
      this.key, one, many := key, None, [];
    }
  }

  function KeysOf<V>(entities: seq<Entity<V>>): (keys: seq<Key>)
    ensures |keys| == |entities| && forall i :: 0 <= i < |keys| ==> keys[i] == entities[i].key
  {
    seq(|entities|, i requires 0 <= i < |entities| => entities[i].key)
  }

  /** The rows fetched for keys: each key once, nulls left out, in chunks. */
  function Fetched<V>(rows: seq<Row<V>>, keys: seq<Key>, parameterLimit: int): seq<Row<V>> {
    Chunked(rows, UniqueKeys(keys), AtLeastOne(parameterLimit))
  }

  lemma FetchedMatching<V>(rows: seq<Row<V>>, keys: seq<Key>, parameterLimit: int, k: Key)
    requires k in keys && Separable(set key <- keys)
    ensures ByText(Fetched(rows, keys, parameterLimit), KeyText(k)) == Matching(rows, k)
  {
    var unique, limit := UniqueKeys(keys), AtLeastOne(parameterLimit);
    var used := set key <- keys;
    DistinctIsLocal(unique, limit);
    ChunkedMatching(rows, unique, limit, k);
    ChunkedKeys(rows, unique, limit, used);
    ByTextIsMatching(Fetched(rows, keys, parameterLimit), used, k);
  }

  /** The single row an entity gets: none for a null key. */
  function ToOne<V>(targets: seq<Row<V>>, keys: seq<Key>, parameterLimit: int, k: Key): Option<V> {
    if k == Null then None else Last(ByText(Fetched(targets, keys, parameterLimit), KeyText(k)))
  }

  /** Many-to-one, and the owning side of one-to-one: every entity gets the last fetched row with the text of
      its key, null without one. When texts tell the entities' keys apart that is the row its key references. */
  method LoadToOne<V>(entities: seq<Entity<V>>, targets: seq<Row<V>>, parameterLimit: int)
    modifies entities
    ensures forall e <- entities ::
            e.one == ToOne(targets, KeysOf(entities), parameterLimit, e.key) && e.many == old(e.many)
    ensures Separable(set k <- KeysOf(entities)) ==> forall e <- entities :: e.one == Last(Matching(targets, e.key))
  {
    var keys := KeysOf(entities);
    var loaded, _ := ChunkedFind(targets, UniqueKeys(keys), parameterLimit);
    var byKey := IndexByKey(loaded);
    AssignOne(entities, byKey);
    hide *;
    forall e <- entities ensures e.one == ToOne(targets, keys, parameterLimit, e.key) {
      ToOneLooks(targets, keys, parameterLimit, byKey, e.key);
    }
    if Separable(set k <- keys) {
      forall e <- entities ensures e.one == Last(Matching(targets, e.key)) {
        var i :| 0 <= i < |entities| && entities[i] == e;
        assert keys[i] == e.key;
        ToOneReferences(targets, keys, parameterLimit, e.key);
      }
    }
  }

  lemma ToOneLooks<V>(targets: seq<Row<V>>, keys: seq<Key>, parameterLimit: int, byKey: map<string, V>, k: Key)
    requires forall t ::
             Look(byKey, t) == Last(ByText(Chunked(targets, UniqueKeys(keys), AtLeastOne(parameterLimit)), t))
    ensures ToOne(targets, keys, parameterLimit, k) == if k == Null then None else Look(byKey, KeyText(k))
  {
    hide Chunked, ByText, Look, Last;
  }

  lemma ToOneReferences<V>(targets: seq<Row<V>>, keys: seq<Key>, parameterLimit: int, k: Key)
    requires k in keys && Separable(set key <- keys)
    ensures ToOne(targets, keys, parameterLimit, k) == Last(Matching(targets, k))
  {
    if k == Null {
      NullMatchesNothing(targets);
    } else {
      FetchedMatching(targets, keys, parameterLimit, k);
    }
  }

  method AssignOne<V>(entities: seq<Entity<V>>, byKey: map<string, V>)
    modifies entities
    ensures forall e <- entities ::
      e.one == (if e.key == Null then None else Look(byKey, KeyText(e.key))) && e.many == old(e.many)
  {
    for i := 0 to |entities|
      invariant forall j :: 0 <= j < i ==>
        entities[j].one == if entities[j].key == Null then None else Look(byKey, KeyText(entities[j].key))
      invariant forall e <- entities :: e.many == old(e.many)
    {
      entities[i].one := if entities[i].key == Null then None else Look(byKey, KeyText(entities[i].key));
    }
  }

  lemma {:induction false} NullMatchesNothing<V>(rows: seq<Row<V>>)
    ensures Matching(rows, Null) == []
  {
    if rows != [] {
      NullMatchesNothing(rows[..|rows| - 1]);
    }
  }

  /** One-to-many, and the inverse side of one-to-one (`single`): every entity gets the fetched rows with the
      text of its key, in table order, or the first of them. When texts tell the entities' keys apart those
      are the rows holding its key. */
  method LoadInverse<V>(entities: seq<Entity<V>>, children: seq<Row<V>>, parameterLimit: int, single: bool)
    modifies entities
    ensures forall e <- entities ::
              var group := ByText(Fetched(children, KeysOf(entities), parameterLimit), KeyText(e.key));
              if single then e.one == First(group) && e.many == old(e.many) else e.many == group && e.one == old(e.one)
    ensures Separable(set k <- KeysOf(entities)) ==>
              forall e <- entities ::
                if single then e.one == First(Matching(children, e.key)) else e.many == Matching(children, e.key)
  {
    var keys := KeysOf(entities);
    var loaded, _ := ChunkedFind(children, UniqueKeys(keys), parameterLimit);
    var groups := GroupByKey(loaded);
    if single {
      AssignFirst(entities, groups);
    } else {
      AssignMany(entities, groups);
    }
    if Separable(set k <- keys) {
      forall i | 0 <= i < |entities|
        ensures ByText(Fetched(children, keys, parameterLimit), KeyText(entities[i].key))
                == Matching(children, entities[i].key)
      {
        assert keys[i] == entities[i].key;
        FetchedMatching(children, keys, parameterLimit, keys[i]);
      }
    }
  }

  /** Rows found by text are the rows with the key, whatever the table holds. */
  ghost predicate TextFindsKeys<V(!new)>(keys: seq<Key>, parameterLimit: int) {
    forall rows: seq<Row<V>>, k <- keys :: ByText(Fetched(rows, keys, parameterLimit), KeyText(k)) == Matching(rows, k)
  }

  /** Loading by text is loading by key, for every table, exactly when texts tell the keys apart. */
  lemma ByTextExactly<V(!new)>(keys: seq<Key>, parameterLimit: int, v: V)
    ensures TextFindsKeys<V>(keys, parameterLimit) <==> Separable(set k <- keys)
  {
    if Separable(set k <- keys) {
      forall rows: seq<Row<V>>, k <- keys
        ensures ByText(Fetched(rows, keys, parameterLimit), KeyText(k)) == Matching(rows, k)
      {
        FetchedMatching(rows, keys, parameterLimit, k);
      }
    } else {
      var a, b :| a in keys && b in keys && KeyText(a) == KeyText(b) && a != b;
      var held, asked := if b == Null then a else b, if b == Null then b else a;
      SameTextFound([Row(held, v)], keys, parameterLimit, held, asked);
      OnlyRow(held, asked, v);
      assert |ByText(Fetched([Row(held, v)], keys, parameterLimit), KeyText(asked))|
             > |Matching([Row(held, v)], asked)|;
    }
  }

  lemma OnlyRow<V>(held: Key, asked: Key, v: V)
    requires held != Null && asked != held
    ensures |Matching([Row(held, v)], held)| == 1 && |Matching([Row(held, v)], asked)| == 0
  {
    assert [Row(held, v)][..0] == [];
  }

  lemma SameTextFound<V>(rows: seq<Row<V>>, keys: seq<Key>, parameterLimit: int, held: Key, asked: Key)
    requires held in keys && held != Null && KeyText(asked) == KeyText(held)
    ensures |ByText(Fetched(rows, keys, parameterLimit), KeyText(asked))| >= |Matching(rows, held)|
  {
    hide KeyText, ByText, Matching, Chunked;
    var unique, limit := UniqueKeys(keys), AtLeastOne(parameterLimit);
    DistinctIsLocal(unique, limit);
    ChunkedMatching(rows, unique, limit, held);
    MatchingInText(Fetched(rows, keys, parameterLimit), held);
  }

  lemma {:induction false} MatchingInText<V>(rows: seq<Row<V>>, k: Key)
    ensures |ByText(rows, KeyText(k))| >= |Matching(rows, k)|
  {
    if rows != [] {
      MatchingInText(rows[..|rows| - 1], k);
    }
  }

  method AssignFirst<V>(entities: seq<Entity<V>>, groups: map<string, seq<V>>)
    modifies entities
    ensures forall e <- entities :: e.one == First(LookAll(groups, KeyText(e.key))) && e.many == old(e.many)
  {
    for i := 0 to |entities|
      invariant forall j :: 0 <= j < i ==> entities[j].one == First(LookAll(groups, KeyText(entities[j].key)))
      invariant forall e <- entities :: e.many == old(e.many)
    {
      entities[i].one := First(LookAll(groups, KeyText(entities[i].key)));
    }
  }

  method AssignMany<V>(entities: seq<Entity<V>>, groups: map<string, seq<V>>)
    modifies entities
    ensures forall e <- entities :: e.many == LookAll(groups, KeyText(e.key)) && e.one == old(e.one)
  {
    for i := 0 to |entities|
      invariant forall j :: 0 <= j < i ==> entities[j].many == LookAll(groups, KeyText(entities[j].key))
      invariant forall e <- entities :: e.one == old(e.one)
    {
      entities[i].many := LookAll(groups, KeyText(entities[i].key));
    }
  }

  // ---------- Many-to-many ----------

  /** What the loader joins: junction rows fetched in chunks of the owner keys as given, nulls and
      repetitions included. */
  function LoadedJoin<V>(junction: seq<Row<Key>>, targets: seq<Row<V>>, keys: seq<Key>, limit: nat, k: Key): seq<V>
    requires limit >= 1
  {
    Resolve(targets, Matching(Chunked(junction, keys, limit), k))
  }

  lemma LocalLoadsJoin<V>(junction: seq<Row<Key>>, targets: seq<Row<V>>, keys: seq<Key>, limit: nat, k: Key)
    requires limit >= 1 && ChunkLocal(keys, limit) && k in keys
    ensures LoadedJoin(junction, targets, keys, limit, k) == Joined(junction, targets, k)
  {
    ChunkedMatching(junction, keys, limit, k);
  }

  /** A key in two chunks makes the result depend on the parameter limit: its only target comes twice. */
  lemma SplitLoadsTwice<V>(keys: seq<Key>, limit: nat, v: V) returns (k: Key)
    requires limit >= 1 && !ChunkLocal(keys, limit)
    ensures k in keys
    ensures |LoadedJoin([Row(k, k)], [Row(k, v)], keys, limit, k)| >= 2 > |Joined([Row(k, k)], [Row(k, v)], k)|
  {
    k := SplitKeyExists(keys, limit);
    var junction, targets := [Row(k, k)], [Row(k, v)];
    assert junction[..0] == [] && Matching(junction, k) == [k];
    assert targets[..0] == [] && Matching(targets, k) == [v];
    ChunkedValues(junction, k, k, keys, limit);
    ResolveAll(targets, Matching(Chunked(junction, keys, limit), k), k);
    ResolveAll(targets, [k], k);
  }

  /** Exactly when the loader's lists are the join's, whatever the tables hold: no key sits in two
      chunks. Distinct owner keys always qualify. */
  lemma ManyToManyExactly<V>(keys: seq<Key>, limit: nat, v: V)
    requires limit >= 1
    ensures ChunkLocal(keys, limit) <==>
            forall junction: seq<Row<Key>>, targets: seq<Row<V>>, k <- keys ::
              LoadedJoin(junction, targets, keys, limit, k) == Joined(junction, targets, k)
  {
    if ChunkLocal(keys, limit) {
      forall junction: seq<Row<Key>>, targets: seq<Row<V>>, k <- keys
        ensures LoadedJoin(junction, targets, keys, limit, k) == Joined(junction, targets, k)
      {
        LocalLoadsJoin(junction, targets, keys, limit, k);
      }
    } else {
      var k := SplitLoadsTwice(keys, limit, v);
      assert LoadedJoin([Row(k, k)], [Row(k, v)], keys, limit, k) != Joined([Row(k, k)], [Row(k, v)], k);
    }
  }

  predicate AllAre<V(==)>(s: seq<V>, v: V) {
    s == [] || (s[|s| - 1] == v && AllAre(s[..|s| - 1], v))
  }

  lemma {:induction false} AllAreAppend<V>(a: seq<V>, b: seq<V>, v: V)
    requires AllAre(a, v) && AllAre(b, v)
    ensures AllAre(a + b, v)
  {
    if b == [] {
      assert a + b == a;
    } else {
      assert (a + b)[..|a + b| - 1] == a + b[..|b| - 1];
      AllAreAppend(a, b[..|b| - 1], v);
    }
  }

  lemma {:induction false} ChunkedValues<V>(rows: seq<Row<V>>, k: Key, v: V, keys: seq<Key>, limit: nat)
    requires limit >= 1 && AllAre(Matching(rows, k), v)
    ensures AllAre(Matching(Chunked(rows, keys, limit), k), v)
    decreases |keys|
  {
    if keys != [] {
      var here, later := Select(rows, Chunk(keys, limit)), Chunked(rows, Rest(keys, limit), limit);
      MatchingSelect(rows, Chunk(keys, limit), k);
      MatchingAppend(here, later, k);
      ChunkedValues(rows, k, v, Rest(keys, limit), limit);
      AllAreAppend(Matching(here, k), Matching(later, k), v);
    }
  }

  lemma {:induction false} ResolveAll<V>(targets: seq<Row<V>>, keys: seq<Key>, k: Key)
    requires |Matching(targets, k)| == 1 && AllAre(keys, k)
    ensures |Resolve(targets, keys)| == |keys|
  {
    if keys != [] {
      ResolveAll(targets, keys[..|keys| - 1], k);
    }
  }

  function ValuesOf(rows: seq<Row<Key>>): (values: seq<Key>)
    ensures |values| == |rows| && forall i :: 0 <= i < |rows| ==> values[i] == rows[i].value
  {
    seq(|rows|, i requires 0 <= i < |rows| => rows[i].value)
  }

  /** `[...new Set(keys)]`. */
  function Once(keys: seq<Key>): (u: seq<Key>)
    ensures Distinct(u) && forall k :: k in u <==> k in keys
  {
    if keys == [] then []
    else
      var rest, last := Once(keys[..|keys| - 1]), keys[|keys| - 1];
      assert keys == keys[..|keys| - 1] + [last];
      if last in rest then rest else rest + [last]
  }

  /** For the junction rows whose owner key has this text, in order: the last fetched target with the text of
      the row's target key, if there is one. */
  function JoinText<V>(rows: seq<Row<Key>>, fetched: seq<Row<V>>, t: string): seq<V> {
    if rows == [] then []
    else
      var last := rows[|rows| - 1];
      var target := Last(ByText(fetched, KeyText(last.value)));
      JoinText(rows[..|rows| - 1], fetched, t) + if KeyText(last.key) == t && target.Some? then [target.value] else []
  }

  /** By text each row finds the target it references, if there is one. */
  ghost predicate FindsTargets<V>(rows: seq<Row<Key>>, fetched: seq<Row<V>>, targets: seq<Row<V>>) {
    forall i :: 0 <= i < |rows| ==> FindsTarget(rows[i].value, fetched, targets)
  }

  predicate FindsTarget<V(==)>(k: Key, fetched: seq<Row<V>>, targets: seq<Row<V>>) {
    Last(ByText(fetched, KeyText(k))) == Last(Matching(targets, k))
  }

  /** Where texts tell owner keys apart and find each row's target, the joined texts are the join. */
  lemma {:induction false} JoinTextIsResolve<V>(rows: seq<Row<Key>>, fetched: seq<Row<V>>, targets: seq<Row<V>>,
                                                owners: set<Key>, k: Key)
    requires Separable(owners) && KeysIn(rows, owners) && k in owners
    requires FindsTargets(rows, fetched, targets)
    ensures JoinText(rows, fetched, KeyText(k)) == Resolve(targets, Matching(rows, k))
  {
    if rows != [] {
      hide KeyText, ByText, Matching, Resolve;
      var n := |rows| - 1;
      JoinTextIsResolve(rows[..n], fetched, targets, owners, k);
      assert FindsTarget(rows[n].value, fetched, targets);
      assert rows[n].key in owners && (KeyText(rows[n].key) == KeyText(k) <==> rows[n].key == k);
      ResolveStep(targets, rows, k);
    } else {
      assert Matching(rows, k) == [];
    }
  }

  lemma ResolveStep<V>(targets: seq<Row<V>>, rows: seq<Row<Key>>, k: Key)
    requires rows != [] && rows[|rows| - 1].key != Null
    ensures var last := rows[|rows| - 1];
            var target := Last(Matching(targets, last.value));
            Resolve(targets, Matching(rows, k))
            == Resolve(targets, Matching(rows[..|rows| - 1], k)) + if last.key == k && target.Some? then [target.value]
              else []
  {
    var last := rows[|rows| - 1];
    var before := Matching(rows[..|rows| - 1], k);
    assert (before + [last.value])[..|before|] == before;
    assert before + [] == before && Resolve(targets, before) + [] == Resolve(targets, before);
  }

  /** Targets of the fetched junction rows, grouped under the text of the owner key. */
  method GroupTargets<V>(rows: seq<Row<Key>>, ghost fetched: seq<Row<V>>, targetMap: map<string, V>)
    returns (groups: map<string, seq<V>>)
    requires forall t :: Look(targetMap, t) == Last(ByText(fetched, t))
    ensures forall t :: LookAll(groups, t) == JoinText(rows, fetched, t)
  {
    groups := map[];
    for i := 0 to |rows|
      invariant forall t :: LookAll(groups, t) == JoinText(rows[..i], fetched, t)
    {
      var row := rows[i];
      assert rows[..i + 1][..i] == rows[..i];
      var target := Look(targetMap, KeyText(row.value));
      if target.Some? {
        groups := groups[KeyText(row.key) := LookAll(groups, KeyText(row.key)) + [target.value]];
      }
    }
    assert rows[..|rows|] == rows;
  }

  /** What many-to-many loading gives for an owner key: junction rows fetched for the owner keys as given,
      targets for the junction's target keys, each once. */
  function LoadedText<V>(junction: seq<Row<Key>>, targets: seq<Row<V>>, keys: seq<Key>, limit: nat, k: Key): seq<V>
    requires limit >= 1
  {
    var rows := Chunked(junction, keys, limit);
    JoinText(rows, Chunked(targets, Once(ValuesOf(rows)), limit), KeyText(k))
  }

  lemma TextLoadsJoin<V>(junction: seq<Row<Key>>, targets: seq<Row<V>>, keys: seq<Key>, limit: nat, k: Key)
    requires limit >= 1 && k in keys && Separable(set key <- keys)
    requires Separable(set r <- junction :: r.value)
    ensures LoadedText(junction, targets, keys, limit, k) == LoadedJoin(junction, targets, keys, limit, k)
  {
    var rows := Chunked(junction, keys, limit);
    var values, owners := ValuesOf(rows), set key <- keys;
    var asked, used := Once(values), set r <- junction :: r.value;
    ChunkedSubset(junction, keys, limit);
    forall value <- values ensures value in used {
      var i :| 0 <= i < |rows| && values[i] == value;
      assert rows[i] in junction;
    }
    ChunkedKeys(junction, keys, limit, owners);
    ChunkedKeys(targets, asked, limit, used);
    DistinctIsLocal(asked, limit);
    forall i | 0 <= i < |rows| ensures FindsTarget(rows[i].value, Chunked(targets, asked, limit), targets) {
      assert values[i] == rows[i].value && values[i] in asked;
      ChunkedMatching(targets, asked, limit, values[i]);
      ByTextIsMatching(Chunked(targets, asked, limit), used, values[i]);
    }
    JoinTextIsResolve(rows, Chunked(targets, asked, limit), targets, owners, k);
  }

  /** Many-to-many: every entity gets, by text, the targets of its junction rows in junction order. When texts
      tell owner keys and target keys apart that is the chunked join, and the plain join when no owner key
      sits in two chunks. */
  method LoadManyToMany<V>(entities: seq<Entity<V>>, junction: seq<Row<Key>>, targets: seq<Row<V>>, parameterLimit: int)
    modifies entities
    ensures forall e <- entities ::
      e.many == LoadedText(junction, targets, KeysOf(entities), AtLeastOne(parameterLimit), e.key)
        && e.one == old(e.one)
    ensures Separable(set k <- KeysOf(entities)) && Separable(set r <- junction :: r.value) ==>
      forall e <- entities ::
        && e.many == LoadedJoin(junction, targets, KeysOf(entities), AtLeastOne(parameterLimit), e.key)
        && (ChunkLocal(KeysOf(entities), AtLeastOne(parameterLimit)) ==> e.many == Joined(junction, targets, e.key))
  {
    var limit := AtLeastOne(parameterLimit);
    var keys := KeysOf(entities);
    var junctionRows, _ := ChunkedFind(junction, keys, parameterLimit);
    var loaded, _ := ChunkedFind(targets, Once(ValuesOf(junctionRows)), parameterLimit);
    var targetMap := IndexByKey(loaded);
    var groups := GroupTargets(junctionRows, loaded, targetMap);
    AssignMany(entities, groups);
    if Separable(set k <- keys) && Separable(set r <- junction :: r.value) {
      forall i | 0 <= i < |entities|
        ensures entities[i].many == LoadedJoin(junction, targets, keys, limit, entities[i].key)
        ensures ChunkLocal(keys, limit) ==> entities[i].many == Joined(junction, targets, entities[i].key)
      {
        assert keys[i] == entities[i].key;
        TextLoadsJoin(junction, targets, keys, limit, keys[i]);
        if ChunkLocal(keys, limit) {
          LocalLoadsJoin(junction, targets, keys, limit, keys[i]);
        }
      }
    }
  }

  /** The loader's lists are the join's for every junction whose target keys texts tell apart. */
  ghost predicate LoadsJoins<V(!new)>(keys: seq<Key>, limit: nat)
    requires limit >= 1
  {
    forall junction: seq<Row<Key>>, targets: seq<Row<V>>, k <- keys | Separable(set r <- junction :: r.value) ::
      LoadedText(junction, targets, keys, limit, k) == Joined(junction, targets, k)
  }

  /** Exactly when many-to-many loading is the join, whatever the tables hold: texts tell the owner keys
      apart and no owner key sits in two chunks. */
  lemma LoadsJoinsExactly<V(!new)>(keys: seq<Key>, limit: nat, v: V)
    requires limit >= 1
    ensures LoadsJoins<V>(keys, limit) <==> Separable(set k <- keys) && ChunkLocal(keys, limit)
  {
    if !Separable(set k <- keys) {
      var a, b :| a in keys && b in keys && KeyText(a) == KeyText(b) && a != b;
      var held, asked := if b == Null then a else b, if b == Null then b else a;
      SameTextJoined(keys, limit, held, asked, v);
    } else if !ChunkLocal(keys, limit) {
      var k := SplitLoadsTwice(keys, limit, v);
      TextLoadsJoin([Row(k, k)], [Row(k, v)], keys, limit, k);
    } else {
      forall junction: seq<Row<Key>>, targets: seq<Row<V>>, k <- keys | Separable(set r <- junction :: r.value)
        ensures LoadedText(junction, targets, keys, limit, k) == Joined(junction, targets, k)
      {
        TextLoadsJoin(junction, targets, keys, limit, k);
        LocalLoadsJoin(junction, targets, keys, limit, k);
      }
    }
  }

  /** Owner keys of one text share their targets. */
  lemma SameTextJoined<V>(keys: seq<Key>, limit: nat, held: Key, asked: Key, v: V)
    requires limit >= 1 && held in keys && held != Null && asked != held && KeyText(asked) == KeyText(held)
    ensures var junction, targets := [Row(held, held)], [Row(held, v)];
            && Separable(set r <- junction :: r.value)
            && |LoadedText(junction, targets, keys, limit, asked)| > |Joined(junction, targets, asked)|
  {
    var junction, targets := [Row(held, held)], [Row(held, v)];
    var rows := Chunked(junction, keys, limit);
    var fetched := Chunked(targets, Once(ValuesOf(rows)), limit);
    RepeatedKeyDoubles(held, held, keys, limit);
    ChunkedSubset(junction, keys, limit);
    forall i | 0 <= i < |rows| ensures ByText(fetched, KeyText(rows[i].value)) != [] {
      assert rows[i] in junction && ValuesOf(rows)[i] == held;
      DistinctIsLocal(Once(ValuesOf(rows)), limit);
      ChunkedMatching(targets, Once(ValuesOf(rows)), limit, held);
      OnlyRow(held, asked, v);
      MatchingInText(fetched, held);
    }
    JoinTextHolds(rows, fetched, held);
    OnlyRow(held, asked, held);
  }

  lemma {:induction false} JoinTextHolds<V>(rows: seq<Row<Key>>, fetched: seq<Row<V>>, k: Key)
    requires forall i :: 0 <= i < |rows| ==> ByText(fetched, KeyText(rows[i].value)) != []
    ensures |JoinText(rows, fetched, KeyText(k))| >= |Matching(rows, k)|
  {
    if rows != [] {
      JoinTextHolds(rows[..|rows| - 1], fetched, k);
    }
  }

  lemma {:induction false} ChunkedSubset<V>(rows: seq<Row<V>>, keys: seq<Key>, limit: nat)
    requires limit >= 1
    ensures forall r <- Chunked(rows, keys, limit) :: r in rows
    decreases |keys|
  {
    if keys != [] {
      SelectSubset(rows, Chunk(keys, limit));
      ChunkedSubset(rows, Rest(keys, limit), limit);
    }
  }

  lemma {:induction false} SelectSubset<V>(rows: seq<Row<V>>, chunk: seq<Key>)
    ensures forall r <- Select(rows, chunk) :: r in rows
  {
    if rows != [] {
      SelectSubset(rows[..|rows| - 1], chunk);
    }
  }
}
