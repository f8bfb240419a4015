/** The redundant parts of a table (internal/engine/types.go) as values, and what it means for them to
    agree: the order with tombstones, the secondary indexes and the positional fast copy. */
module Storage {
  import opened Values

  /** fastPathThreshold. */
  const THRESHOLD := 256

  type Key = string

  /** One entry of the fast array; an empty key marks a hole. */
  datatype FastRow = FastRow(key: Key, values: seq<Value>)

  // ------------------------------------------------------------ live order

  /** The entries of `s` that are in `ks`, in order. */
  function Keep(s: seq<Key>, ks: set<Key>): seq<Key> {
    if s == [] then [] else Keep(s[..|s| - 1], ks) + if s[|s| - 1] in ks then [s[|s| - 1]] else []
  }

  ghost predicate NoDup<T>(s: seq<T>) {
    forall i, j :: 0 <= i < j < |s| ==> s[i] != s[j]
  }

  lemma KeepSnoc(s: seq<Key>, k: Key, ks: set<Key>)
    ensures Keep(s + [k], ks) == Keep(s, ks) + if k in ks then [k] else []
  {
    assert (s + [k])[..|s|] == s;
  }

  lemma {:induction false} KeepMembers(s: seq<Key>, ks: set<Key>)
    ensures forall k :: k in Keep(s, ks) <==> k in s && k in ks
    ensures |Keep(s, ks)| <= |s|
  {
    if s != [] {
      KeepMembers(s[..|s| - 1], ks);
      assert s == s[..|s| - 1] + [s[|s| - 1]];
    }
  }

  lemma {:induction false} KeepAll(s: seq<Key>, ks: set<Key>)
    ensures (forall k :: k in s ==> k in ks) <==> Keep(s, ks) == s
    ensures |Keep(s, ks)| == |s| ==> Keep(s, ks) == s
  {
    if s != [] {
      var init := s[..|s| - 1];
      KeepAll(init, ks);
      KeepMembers(init, ks);
      assert s == init + [s[|s| - 1]];
      KeepMembers(s, ks);
    }
  }

  lemma {:induction false} KeepTwice(s: seq<Key>, a: set<Key>, b: set<Key>)
    requires b <= a
    ensures Keep(Keep(s, a), b) == Keep(s, b)
  {
    if s != [] {
      KeepTwice(s[..|s| - 1], a, b);
      if s[|s| - 1] in a {
        KeepSnoc(Keep(s[..|s| - 1], a), s[|s| - 1], b);
      } else {
        assert Keep(s, a) == Keep(s[..|s| - 1], a);
      }
    }
  }

  /** Keys that do not occur make no difference. */
  lemma {:induction false} KeepSame(s: seq<Key>, a: set<Key>, b: set<Key>)
    requires forall k :: k in s ==> (k in a <==> k in b)
    ensures Keep(s, a) == Keep(s, b)
  {
    if s != [] {
      KeepSame(s[..|s| - 1], a, b);
    }
  }

  lemma {:induction false} KeepNoDup(s: seq<Key>, ks: set<Key>)
    requires NoDup(s)
    ensures NoDup(Keep(s, ks))
  {
    if s != [] {
      KeepNoDup(s[..|s| - 1], ks);
      KeepMembers(s[..|s| - 1], ks);
    }
  }

  /** One more element keeps a sequence free of duplicates exactly when it is new. */
  lemma NoDupSnoc<T>(s: seq<T>, k: T)
    ensures NoDup(s + [k]) <==> NoDup(s) && k !in s
  {
    var all := s + [k];
    if NoDup(all) {
      assert forall i :: 0 <= i < |s| ==> all[i] == s[i] && all[i] != all[|s|];
    }
  }

  /** A sequence without duplicates is as long as the set of its elements is large. */
  lemma {:induction false} NoDupCount<T>(s: seq<T>, ks: set<T>)
    requires NoDup(s) && forall k :: k in s <==> k in ks
    ensures |s| == |ks|
  {
    if s != [] {
      var init, k := s[..|s| - 1], s[|s| - 1];
      assert s == init + [k];
      NoDupCount(init, ks - {k});
    } else {
      assert ks == {};
    }
  }

  /** Order agrees with the rows: every row key has exactly one place, everything else in it is a
      tombstone, and `dead` counts those. */
  ghost predicate OrderFits(order: seq<Key>, rows: map<Key, Row>, dead: int) {
    && NoDup(Keep(order, rows.Keys))
    && (forall k <- rows :: k in order)
    && dead == |order| - |Keep(order, rows.Keys)|
  }

  /** Tombstones stay below a quarter of the order. */
  ghost predicate Dense(order: seq<Key>, rows: map<Key, Row>) {
    3 * |order| <= 4 * |rows|
  }

  lemma LiveCount(order: seq<Key>, rows: map<Key, Row>, dead: int)
    requires OrderFits(order, rows, dead)
    ensures |Keep(order, rows.Keys)| == |rows| && dead == |order| - |rows| && dead >= 0
    ensures forall k :: k in Keep(order, rows.Keys) <==> k in rows
  {
    KeepMembers(order, rows.Keys);
    NoDupCount(Keep(order, rows.Keys), rows.Keys);
  }

  /** No tombstones means the order is the list of live keys. */
  lemma NoTombstones(order: seq<Key>, rows: map<Key, Row>, dead: int)
    requires OrderFits(order, rows, dead)
    ensures dead == 0 <==> Keep(order, rows.Keys) == order
    ensures dead == 0 <==> forall k :: k in order ==> k in rows
  {
    KeepAll(order, rows.Keys);
  }

  /** Each live key occurs exactly once. */
  lemma ExactlyOnce(order: seq<Key>, rows: map<Key, Row>, dead: int, k: Key)
    requires OrderFits(order, rows, dead) && k in rows
    ensures multiset(order)[k] == 1
  {
    var live := Keep(order, rows.Keys);
    KeepCount(order, rows.Keys, k);
    KeepMembers(order, rows.Keys);
    NoDupMultiset(live, k);
  }

  lemma {:induction false} KeepCount(s: seq<Key>, ks: set<Key>, k: Key)
    requires k in ks
    ensures multiset(Keep(s, ks))[k] == multiset(s)[k]
  {
    if s != [] {
      KeepCount(s[..|s| - 1], ks, k);
      assert s == s[..|s| - 1] + [s[|s| - 1]];
    }
  }

  lemma {:induction false} NoDupMultiset<T>(s: seq<T>, k: T)
    requires NoDup(s) && k in s
    ensures multiset(s)[k] == 1
  {
    var init := s[..|s| - 1];
    assert s == init + [s[|s| - 1]];
    if s[|s| - 1] != k {
      NoDupMultiset(init, k);
    } else {
      assert k !in init;
    }
  }

  // --------------------------------------------------------------- indexes

  type Index = map<string, set<Key>>

  predicate InBucket(idx: Index, v: string, k: Key) {
    v in idx && k in idx[v]
  }

  /** The bucket a row belongs to in an index on `column`. */
  function BucketOf(row: Row, column: string): string {
    ValueKey(Get(row, column))
  }

  /** Each bucket holds exactly the keys of the rows that render to it, and no bucket is empty. */
  ghost predicate IndexFits(idx: Index, rows: map<Key, Row>, column: string) {
    && (forall v, k :: InBucket(idx, v, k) <==> k in rows && BucketOf(rows[k], column) == v)
    && (forall v <- idx :: idx[v] != {})
  }

  ghost predicate IndexesFit(indexes: map<string, Index>, rows: map<Key, Row>) {
    forall c <- indexes :: IndexFits(indexes[c], rows, c)
  }

  /** Two exact indexes on one column are the same map. */
  lemma IndexIsUnique(a: Index, b: Index, rows: map<Key, Row>, column: string)
    requires IndexFits(a, rows, column) && IndexFits(b, rows, column)
    ensures a == b
  {
    forall v | v in a ensures v in b { SameBuckets(a, b, rows, column, v); }
    forall v | v in b ensures v in a { SameBuckets(b, a, rows, column, v); }
    forall v | v in a ensures a[v] == b[v] { SameBuckets(a, b, rows, column, v); }
  }

  lemma SameBuckets(a: Index, b: Index, rows: map<Key, Row>, column: string, v: string)
    requires IndexFits(a, rows, column) && IndexFits(b, rows, column) && v in a
    ensures v in b && a[v] == b[v]
  {
    forall k ensures InBucket(a, v, k) <==> InBucket(b, v, k) {}
    var k :| k in a[v];
    assert InBucket(a, v, k);
    forall x ensures x in a[v] <==> x in b[v] { assert InBucket(a, v, x) <==> InBucket(b, v, x); }
  }

  function AddToIndex(idx: Index, v: string, k: Key): Index {
    idx[v := (if v in idx then idx[v] else {}) + {k}]
  }

  /** An emptied bucket is dropped. */
  function RemoveFromIndex(idx: Index, v: string, k: Key): Index {
    if v !in idx then idx
    else if idx[v] - {k} == {} then idx - {v}
    else idx[v := idx[v] - {k}]
  }

  lemma AddFits(idx: Index, rows: map<Key, Row>, column: string, k: Key, row: Row)
    requires IndexFits(idx, rows, column) && k !in rows
    ensures IndexFits(AddToIndex(idx, BucketOf(row, column), k), rows[k := row], column)
  {
    var b := BucketOf(row, column);
    var after := AddToIndex(idx, b, k);
    forall v, x
      ensures InBucket(after, v, x) <==> InBucket(idx, v, x) || (v == b && x == k)
    {
    }
  }

  lemma RemoveFits(idx: Index, rows: map<Key, Row>, column: string, k: Key)
    requires IndexFits(idx, rows, column) && k in rows
    ensures IndexFits(RemoveFromIndex(idx, BucketOf(rows[k], column), k), rows - {k}, column)
  {
    var b := BucketOf(rows[k], column);
    var after := RemoveFromIndex(idx, b, k);
    forall v, x
      ensures InBucket(after, v, x) <==> InBucket(idx, v, x) && !(v == b && x == k)
    {
      if InBucket(idx, v, x) && v == b && x != k { assert x in idx[b] - {k}; }
    }
    assert forall v :: InBucket(idx, v, k) ==> v == b;
  }

  // ------------------------------------------------------------- fast array

  function Project(columns: seq<Column>, row: Row): (values: seq<Value>)
    ensures |values| == |columns| && forall i :: 0 <= i < |columns| ==> values[i] == Get(row, columns[i].name)
  {
    seq(|columns|, i requires 0 <= i < |columns| => Get(row, columns[i].name))
  }

  /** The keys of the entries that are not holes, in order. */
  function FastKeys(fast: seq<FastRow>): seq<Key> {
    if fast == [] then []
    else FastKeys(fast[..|fast| - 1]) + if fast[|fast| - 1].key == "" then [] else [fast[|fast| - 1].key]
  }

  predicate NamesDistinct(columns: seq<Column>) {
    forall i, j :: 0 <= i < j < |columns| ==> columns[i].name != columns[j].name
  }

  predicate HasColumn(columns: seq<Column>, name: string) {
    exists i :: 0 <= i < |columns| && columns[i].name == name
  }

  /** `colPos` is the position of every column name. */
  ghost predicate PositionsFit(columns: seq<Column>, colPos: map<string, nat>) {
    && (forall c <- colPos :: colPos[c] < |columns| && columns[colPos[c]].name == c)
    && (forall i :: 0 <= i < |columns| ==> columns[i].name in colPos && colPos[columns[i].name] == i)
  }

  /** What keeps the indexing of the fast array in range, whether or not it is up to date. */
  ghost predicate FastSafe(columns: seq<Column>, fast: seq<FastRow>, fastPos: map<Key, nat>, colPos: map<string, nat>) {
    && (fast == [] ==> fastPos == map[])
    && (fast != [] ==> PositionsFit(columns, colPos))
    && (forall k <- fastPos ::
          fastPos[k] < |fast| && fast[fastPos[k]].key == k && |fast[fastPos[k]].values| == |columns|)
  }

  /** The fast array agrees with the table: its entries, holes skipped, are the live keys in order with
      their rows projected on the columns; `fastPos` is the exact inverse; `fastDead` counts holes. */
  ghost predicate FastAgrees(columns: seq<Column>, fast: seq<FastRow>, fastPos: map<Key, nat>, fastDead: int,
                             live: seq<Key>, rows: map<Key, Row>) {
    && FastKeys(fast) == live
    && fastDead == |fast| - |live|
    && fastPos.Keys == rows.Keys
    && (forall k <- fastPos :: fastPos[k] < |fast| && fast[fastPos[k]] == FastRow(k, Project(columns, rows[k])))
    && (forall i :: 0 <= i < |fast| && fast[i].key != "" ==> fast[i].key in fastPos && fastPos[fast[i].key] == i)
  }

  lemma FastKeysSnoc(fast: seq<FastRow>, e: FastRow)
    ensures FastKeys(fast + [e]) == FastKeys(fast) + if e.key == "" then [] else [e.key]
  {
    assert (fast + [e])[..|fast|] == fast;
  }

  lemma {:induction false} FastKeysConcat(a: seq<FastRow>, b: seq<FastRow>)
    ensures FastKeys(a + b) == FastKeys(a) + FastKeys(b)
    decreases |b|
  {
    if b == [] {
      assert a + b == a;
    } else {
      assert (a + b)[..|a + b| - 1] == a + b[..|b| - 1];
      FastKeysConcat(a, b[..|b| - 1]);
    }
  }

  /** The keys around one entry. */
  lemma FastKeysAround(fast: seq<FastRow>, i: nat, e: FastRow)
    requires i < |fast|
    ensures FastKeys(fast[i := e])
            == FastKeys(fast[..i]) + (if e.key == "" then [] else [e.key]) + FastKeys(fast[i + 1..])
  {
    assert fast[i := e] == fast[..i] + [e] + fast[i + 1..];
    FastKeysConcat(fast[..i] + [e], fast[i + 1..]);
    FastKeysSnoc(fast[..i], e);
  }

  /** Only the entry at `i` has its key. */
  ghost predicate OnlyAt(fast: seq<FastRow>, i: nat)
    requires i < |fast|
  {
    fast[i].key != "" && forall j :: 0 <= j < |fast| && j != i ==> fast[j].key != fast[i].key
  }

  lemma KeyElsewhere(fast: seq<FastRow>, i: nat)
    requires i < |fast| && OnlyAt(fast, i)
    ensures FastKeys(fast) == FastKeys(fast[..i]) + [fast[i].key] + FastKeys(fast[i + 1..])
    ensures fast[i].key !in FastKeys(fast[..i]) && fast[i].key !in FastKeys(fast[i + 1..])
  {
    FastKeysAround(fast, i, fast[i]);
    assert fast[i := fast[i]] == fast;
    FastKeysMembers(fast[..i]);
    FastKeysMembers(fast[i + 1..]);
  }

  lemma {:induction false} KeepConcat(a: seq<Key>, b: seq<Key>, ks: set<Key>)
    ensures Keep(a + b, ks) == Keep(a, ks) + Keep(b, ks)
    decreases |b|
  {
    if b == [] {
      assert a + b == a;
    } else {
      assert (a + b)[..|a + b| - 1] == a + b[..|b| - 1];
      KeepConcat(a, b[..|b| - 1], ks);
    }
  }

  /** Turning the one entry with a key into a hole removes that key. */
  lemma FastKeysHole(fast: seq<FastRow>, i: nat, hole: FastRow, ks: set<Key>)
    requires i < |fast| && OnlyAt(fast, i) && hole.key == ""
    requires forall k :: k in FastKeys(fast) ==> k in ks
    ensures FastKeys(fast[i := hole]) == Keep(FastKeys(fast), ks - {fast[i].key})
  {
    hide FastKeys, Keep;
    var a, b, k, out := FastKeys(fast[..i]), FastKeys(fast[i + 1..]), fast[i].key, ks - {fast[i].key};
    KeyElsewhere(fast, i);
    FastKeysAround(fast, i, hole);
    KeepConcat(a + [k], b, out);
    KeepSnoc(a, k, out);
    KeepAll(a, out);
    KeepAll(b, out);
  }

  /** Renaming the one entry with a key renames it in the keys. */
  lemma FastKeysRename(fast: seq<FastRow>, i: nat, e: FastRow)
    requires i < |fast| && OnlyAt(fast, i) && e.key != ""
    ensures FastKeys(fast[i := e]) == Rename(FastKeys(fast), fast[i].key, e.key)
  {
    hide FastKeys;
    KeyElsewhere(fast, i);
    FastKeysAround(fast, i, e);
  }

  lemma {:induction false} FastKeysMembers(fast: seq<FastRow>)
    ensures forall k :: k in FastKeys(fast) ==> k != "" && exists i :: 0 <= i < |fast| && fast[i].key == k
    ensures forall i :: 0 <= i < |fast| && fast[i].key != "" ==> fast[i].key in FastKeys(fast)
    ensures |FastKeys(fast)| <= |fast|
  {
    if fast != [] {
      var n := |fast| - 1;
      FastKeysMembers(fast[..n]);
      forall k | k in FastKeys(fast)
        ensures k != "" && exists i :: 0 <= i < |fast| && fast[i].key == k
      {
        if k in FastKeys(fast[..n]) {
          var i :| 0 <= i < n && fast[..n][i].key == k;
          assert fast[i].key == k;
        } else {
          assert fast[n].key == k;
        }
      }
      assert forall i :: 0 <= i < n ==> fast[..n][i] == fast[i];
    }
  }

  /** Changing values keeps the keys. */
  lemma {:induction false} FastKeysSame(fast: seq<FastRow>, other: seq<FastRow>)
    requires |fast| == |other| && forall i :: 0 <= i < |fast| ==> fast[i].key == other[i].key
    ensures FastKeys(fast) == FastKeys(other)
  {
    if fast != [] {
      FastKeysSame(fast[..|fast| - 1], other[..|fast| - 1]);
    }
  }

  /** Every `a` replaced by `b`. */
  function Rename(s: seq<Key>, a: Key, b: Key): (r: seq<Key>)
    ensures |r| == |s| && forall i :: 0 <= i < |s| ==> r[i] == if s[i] == a then b else s[i]
  {
    seq(|s|, i requires 0 <= i < |s| => if s[i] == a then b else s[i])
  }

  // ------------------------------------------------------------------- rows

  /** The primary column, or "" when there is none. */
  function Primary(columns: seq<Column>): string {
    if columns == [] then "" else if columns[0].primary then columns[0].name else Primary(columns[1..])
  }

  /** What CREATE TABLE and ALTER TABLE keep about columns. */
  predicate ColumnsFit(columns: seq<Column>) {
    && NamesDistinct(columns)
    && (forall i :: 0 <= i < |columns| ==> columns[i].name != "")
    && (forall i, j :: 0 <= i < j < |columns| ==> !(columns[i].primary && columns[j].primary))
  }

  /** Typed values, and a key that renders the primary value. */
  predicate RowFits(columns: seq<Column>, k: Key, row: Row) {
    && (forall i :: 0 <= i < |columns| ==> HasType(Get(row, columns[i].name), columns[i].typ))
    && (Primary(columns) != "" ==> BucketOf(row, Primary(columns)) == k)
  }

  predicate RowsFit(columns: seq<Column>, rows: map<Key, Row>) {
    forall k <- rows :: RowFits(columns, k, rows[k])
  }

  // ------------------------------------------------- rebuilding and removing

  /** Fast entries for a list of keys. */
  function EntriesFor(keys: seq<Key>, columns: seq<Column>, rows: map<Key, Row>): (fast: seq<FastRow>)
    ensures |fast| == |keys| && forall i :: 0 <= i < |keys| ==> fast[i] == EntryFor(keys[i], columns, rows)
  {
    seq(|keys|, i requires 0 <= i < |keys| => EntryFor(keys[i], columns, rows))
  }

  function EntryFor(k: Key, columns: seq<Column>, rows: map<Key, Row>): FastRow {
    FastRow(k, Project(columns, if k in rows then rows[k] else map[]))
  }

  lemma {:induction false} EntryKeys(keys: seq<Key>, columns: seq<Column>, rows: map<Key, Row>)
    requires "" !in keys
    ensures FastKeys(EntriesFor(keys, columns, rows)) == keys
  {
    if keys != [] {
      var n := |keys| - 1;
      EntryKeys(keys[..n], columns, rows);
      assert EntriesFor(keys, columns, rows)
             == EntriesFor(keys[..n], columns, rows) + [EntryFor(keys[n], columns, rows)];
      FastKeysSnoc(EntriesFor(keys[..n], columns, rows), EntryFor(keys[n], columns, rows));
      assert keys == keys[..n] + [keys[n]];
    }
  }

  /** `pos` numbers the keys in order. */
  ghost predicate Numbers(pos: map<Key, nat>, keys: seq<Key>) {
    && (forall k <- pos :: pos[k] < |keys| && keys[pos[k]] == k)
    && (forall i :: 0 <= i < |keys| ==> keys[i] in pos && pos[keys[i]] == i)
  }

  /** A freshly built array agrees when no key is empty. */
  lemma FreshAgrees(columns: seq<Column>, pos: map<Key, nat>, live: seq<Key>, rows: map<Key, Row>)
    requires (forall k :: k in live <==> k in rows) && "" !in rows && Numbers(pos, live)
    ensures FastAgrees(columns, EntriesFor(live, columns, rows), pos, 0, live, rows)
  {
    hide FastKeys, Project, EntriesFor;
    EntryKeys(live, columns, rows);
    assert pos.Keys == rows.Keys;
  }

  /** Appending the newest row keeps agreement. */
  lemma AppendAgrees(columns: seq<Column>, fast: seq<FastRow>, pos: map<Key, nat>, holes: int, live: seq<Key>,
                     rows: map<Key, Row>, k: Key, row: Row)
    requires FastAgrees(columns, fast, pos, holes, live, rows) && k !in rows && k != ""
    ensures FastAgrees(columns, fast + [FastRow(k, Project(columns, row))], pos[k := |fast|], holes, live + [k],
                       rows[k := row])
  {
    hide FastKeys, Project;
    FastKeysSnoc(fast, FastRow(k, Project(columns, row)));
  }

  /** Turning a deleted row's entry into a hole keeps agreement. */
  lemma HoleAgrees(columns: seq<Column>, fast: seq<FastRow>, pos: map<Key, nat>, holes: int, live: seq<Key>,
                   rows: map<Key, Row>, k: Key)
    requires FastAgrees(columns, fast, pos, holes, live, rows) && k in rows && k != ""
    requires NoDup(live) && forall x :: x in live <==> x in rows
    ensures FastAgrees(columns, fast[pos[k] := FastRow("", [])], pos - {k}, holes + 1, Keep(live, rows.Keys - {k}),
                       rows - {k})
  {
    hide FastKeys, Keep, Project;
    var i := pos[k];
    assert OnlyAt(fast, i);
    FastKeysHole(fast, i, FastRow("", []), rows.Keys);
    KeepOneOut(live, rows.Keys, k);
  }

  lemma {:induction false} KeepOneOut(live: seq<Key>, ks: set<Key>, k: Key)
    requires NoDup(live) && k in live && forall x :: x in live ==> x in ks
    ensures |Keep(live, ks - {k})| == |live| - 1
  {
    var n := |live| - 1;
    var init := live[..n];
    assert live == init + [live[n]];
    if live[n] == k {
      assert k !in init;
      KeepAll(init, ks - {k});
    } else {
      KeepOneOut(init, ks, k);
    }
  }

  /** Rewriting one row and its entry keeps agreement. */
  lemma RewriteAgrees(columns: seq<Column>, fast: seq<FastRow>, pos: map<Key, nat>, holes: int, live: seq<Key>,
                      rows: map<Key, Row>, k: Key, row: Row)
    requires FastAgrees(columns, fast, pos, holes, live, rows) && k in rows
    ensures FastAgrees(columns, fast[pos[k] := FastRow(k, Project(columns, row))], pos, holes, live, rows[k := row])
  {
    hide FastKeys, Project;
    FastKeysSame(fast, fast[pos[k] := FastRow(k, Project(columns, row))]);
  }

  /** Writing one column of a row projects to writing one position. */
  lemma ProjectWrite(columns: seq<Column>, row: Row, i: nat, v: Value)
    requires i < |columns| && NamesDistinct(columns)
    ensures Project(columns, row[columns[i].name := v]) == Project(columns, row)[i := v]
  {
    var left, right := Project(columns, row[columns[i].name := v]), Project(columns, row)[i := v];
    forall j | 0 <= j < |columns|
      ensures left[j] == right[j]
    {
      if j < i { assert columns[j].name != columns[i].name; }
      if i < j { assert columns[i].name != columns[j].name; }
    }
  }
}
