/** A whole table as a value: what its parts mean together, what every step on them keeps, and the
    exact conditions under which the fast copy stays right. */
module TableState {
  import opened Values
  import opened Storage

  /** The fields of a table; `names` maps index names to columns. */
  datatype State = State(columns: seq<Column>, rows: map<Key, Row>, order: seq<Key>, indexes: map<string, Index>,
                         fast: seq<FastRow>, colPos: map<string, nat>, fastPos: map<Key, nat>, dead: int, fastDead: int,
                         names: map<string, string>)

  /** What a table means: its columns, the live keys in order, their rows, the indexed columns and the
      names of the indexes. */
  datatype Content = Content(columns: seq<Column>, live: seq<Key>, rows: map<Key, Row>, indexed: set<string>,
                             names: map<string, string>)

  function Live(s: State): seq<Key> { Keep(s.order, s.rows.Keys) }

  function View(s: State): Content { Content(s.columns, Live(s), s.rows, s.indexes.Keys, s.names) }

  /** Everything but the fast array is in step: typed rows under their keys, order, indexes; and the
      fast array can be indexed safely. */
  ghost predicate Core(s: State) {
    && ColumnsFit(s.columns) && RowsFit(s.columns, s.rows)
    && OrderFits(s.order, s.rows, s.dead) && Dense(s.order, s.rows)
    && IndexesFit(s.indexes, s.rows) && (forall c <- s.indexes :: HasColumn(s.columns, c))
    && FastSafe(s.columns, s.fast, s.fastPos, s.colPos)
  }

  /** The fast array, when there is one, is an exact copy. */
  ghost predicate FastOK(s: State) {
    s.fast != [] ==> FastAgrees(s.columns, s.fast, s.fastPos, s.fastDead, Live(s), s.rows)
  }

  /** No array is a copy of a table with a row under the empty key, which marks holes. */
  lemma EmptyKeyDisagrees(s: State)
    requires OrderFits(s.order, s.rows, s.dead) && s.fast != []
    ensures "" in s.rows ==> !FastOK(s)
  {
    hide Keep, OrderFits, FastKeys;
    LiveCount(s.order, s.rows, s.dead);
    FastKeysMembers(s.fast);
  }

  /** An array exists only at or above the threshold. Statements other than a scan DELETE keep this, and
      while it holds no append can leave the array behind. */
  predicate Tall(s: State) { s.fast == [] || |s.order| >= THRESHOLD }

  /** Only the fast parts differ. */
  predicate SameButFast(s: State, t: State) {
    t == s.(fast := t.fast, colPos := t.colPos, fastPos := t.fastPos, fastDead := t.fastDead)
  }

  // ----------------------------------------------------- steps on the array

  /** A rebuild: dropped below the threshold, else one entry per row, which is exact unless a key is empty. */
  ghost predicate Rebuilt(s: State, t: State) {
    && SameButFast(s, t) && FastSafe(t.columns, t.fast, t.fastPos, t.colPos)
    && (|s.order| < THRESHOLD ==> t.fast == [])
    && (|s.order| >= THRESHOLD ==> |t.fast| == |s.rows|)
    && (FastOK(t) <==> "" !in s.rows || t.fast == [])
  }

  /** After `key` has been appended to the order. */
  ghost predicate Appended(s: State, t: State, key: Key, row: Row) {
    if |s.order| < THRESHOLD then t == s
    else if s.fast == [] || |s.fast| + 1 != |s.order| then Rebuilt(s, t)
    else t == s.(fast := s.fast + [FastRow(key, Project(s.columns, row))], fastPos := s.fastPos[key := |s.fast|])
  }

  /** After `key` has left the rows; `order` still has its old length. */
  ghost predicate Removed(s: State, t: State, key: Key) {
    if s.fast == [] then t == s
    else if |s.order| < THRESHOLD then SameButFast(s, t) && t.fast == [] && t.fastPos == map[]
    else if key in s.fastPos && s.fastPos[key] < |s.fast| then
      t == s.(fast := s.fast[s.fastPos[key] := FastRow("", [])], fastPos := s.fastPos - {key},
              fastDead := s.fastDead + 1)
    else t == s
  }

  // ---------------------------------------------------------------- insert

  function Put(c: Content, k: Key, row: Row): Content {
    c.(live := if k in c.rows then c.live else c.live + [k], rows := c.rows[k := row])
  }

  lemma OrderAppend(order: seq<Key>, rows: map<Key, Row>, k: Key, row: Row)
    requires OrderFits(order, rows, 0) && Dense(order, rows) && k !in rows
    ensures OrderFits(order + [k], rows[k := row], 0) && Dense(order + [k], rows[k := row])
    ensures Keep(order + [k], rows[k := row].Keys) == Keep(order, rows.Keys) + [k]
  {
    hide Keep;
    NoTombstones(order, rows, 0);
    KeepSnoc(order, k, rows[k := row].Keys);
    KeepSame(order, rows.Keys, rows[k := row].Keys);
    LiveCount(order, rows, 0);
  }

  lemma RowsAppend(columns: seq<Column>, rows: map<Key, Row>, k: Key, row: Row)
    requires RowsFit(columns, rows) && RowFits(columns, k, row)
    ensures RowsFit(columns, rows[k := row])
  {
  }

  /** The state with a new row in everything but the fast array. */
  function WithRow(s: State, k: Key, row: Row, indexes: map<string, Index>): State {
    s.(rows := s.rows[k := row], order := s.order + [k], indexes := indexes)
  }

  /** A new row in a table without tombstones, up to the fast array. */
  lemma InsertCore(s: State, k: Key, row: Row, indexes: map<string, Index>)
    requires Core(s) && s.dead == 0 && k !in s.rows && RowFits(s.columns, k, row)
    requires indexes.Keys == s.indexes.Keys && IndexesFit(indexes, s.rows[k := row])
    ensures Core(WithRow(s, k, row, indexes)) && View(WithRow(s, k, row, indexes)) == Put(View(s), k, row)
  {
    hide Keep, OrderFits, Dense, RowsFit, RowFits, IndexesFit, FastSafe, ColumnsFit, HasColumn;
    OrderAppend(s.order, s.rows, k, row);
    RowsAppend(s.columns, s.rows, k, row);
  }

  lemma AppendedCore(s: State, t: State, k: Key, row: Row)
    requires Core(s) && Appended(s, t, k, row)
    ensures Core(t) && View(t) == View(s) && t.dead == s.dead && t.order == s.order
  {
    hide Keep, OrderFits, Dense, RowsFit, IndexesFit, ColumnsFit, HasColumn, FastOK, Project, FastSafe;
    AppendSafe(s.columns, s.fast, s.fastPos, s.colPos, k, row);
  }

  lemma AppendSafe(columns: seq<Column>, fast: seq<FastRow>, pos: map<Key, nat>, colPos: map<string, nat>, k: Key,
                   row: Row)
    requires FastSafe(columns, fast, pos, colPos)
    ensures fast != [] ==> FastSafe(columns, fast + [FastRow(k, Project(columns, row))], pos[k := |fast|], colPos)
  {
    hide PositionsFit;
  }

  /** Below the threshold an existing array misses the row, and from there on a row under the empty key
      spoils it: the copy is right after an insert exactly when neither is the case. */
  lemma InsertFastIff(s: State, k: Key, row: Row, indexes: map<string, Index>, t: State)
    requires Core(s) && s.dead == 0 && k !in s.rows && k != "" && FastOK(s)
    requires Appended(WithRow(s, k, row, indexes), t, k, row)
    ensures FastOK(t) <==> if |s.order| + 1 < THRESHOLD then s.fast == [] else "" !in s.rows
  {
    hide Keep, FastAgrees, OrderFits, Dense, RowsFit, IndexesFit, ColumnsFit, HasColumn, FastSafe, Project;
    var m := WithRow(s, k, row, indexes);
    OrderAppend(s.order, s.rows, k, row);
    if s.fast != [] { EmptyKeyDisagrees(s); }
    if s.fast != [] && |m.order| < THRESHOLD {
      StaleDisagrees(m, |s.rows|) by { StaleCount(s); LiveCount(s.order, s.rows, 0); LiveCount(m.order, m.rows, 0); }
    } else if s.fast != [] && |s.fast| + 1 == |m.order| {
      AppendAgrees(s.columns, s.fast, s.fastPos, s.fastDead, Live(s), s.rows, k, row);
    } else if |m.order| >= THRESHOLD {
      assert k in m.rows && |m.rows| > 0;
    }
  }

  lemma StaleCount(s: State)
    requires FastOK(s) && s.fast != []
    ensures |FastKeys(s.fast)| == |Live(s)|
  {
  }

  /** An array with fewer entries than there are rows is wrong. */
  lemma StaleDisagrees(s: State, n: nat)
    requires s.fast != [] && |FastKeys(s.fast)| == n < |Live(s)|
    ensures !FastOK(s)
  {
  }

  function ReplacedFast(s: State, k: Key, row: Row): seq<FastRow> {
    if s.fast != [] && k in s.fastPos && s.fastPos[k] < |s.fast|
    then s.fast[s.fastPos[k] := s.fast[s.fastPos[k]].(values := Project(s.columns, row))]
    else s.fast
  }

  /** The state with an existing row replaced everywhere. */
  function WithRowReplaced(s: State, k: Key, row: Row, indexes: map<string, Index>): State {
    s.(rows := s.rows[k := row], indexes := indexes, fast := ReplacedFast(s, k, row))
  }

  lemma ReplaceKeeps(s: State, k: Key, row: Row, indexes: map<string, Index>)
    requires Core(s) && k in s.rows && RowFits(s.columns, k, row)
    requires indexes.Keys == s.indexes.Keys && IndexesFit(indexes, s.rows[k := row])
    ensures var t := WithRowReplaced(s, k, row, indexes);
            && Core(t) && View(t) == Put(View(s), k, row) && Live(t) == Live(s)
            && FastKeys(t.fast) == FastKeys(s.fast) && |t.fast| == |s.fast|
            && (FastOK(s) ==> FastOK(t))
  {
    hide Keep, RowsFit, RowFits, IndexesFit, ColumnsFit, HasColumn, Project, FastKeys, FastSafe, FastAgrees, OrderFits,
      ReplacedFast;
    var t := WithRowReplaced(s, k, row, indexes);
    assert t.rows.Keys == s.rows.Keys;
    OrderReplace(s.order, s.rows, s.dead, k, row);
    RowsAppend(s.columns, s.rows, k, row);
    ReplaceFastKeeps(s, k, row);
  }

  lemma OrderReplace(order: seq<Key>, rows: map<Key, Row>, dead: int, k: Key, row: Row)
    requires OrderFits(order, rows, dead) && k in rows
    ensures OrderFits(order, rows[k := row], dead)
  {
    assert rows[k := row].Keys == rows.Keys;
  }

  lemma ReplaceFastKeeps(s: State, k: Key, row: Row)
    requires FastSafe(s.columns, s.fast, s.fastPos, s.colPos) && k in s.rows
    ensures var f := ReplacedFast(s, k, row);
            && FastSafe(s.columns, f, s.fastPos, s.colPos) && |f| == |s.fast| && FastKeys(f) == FastKeys(s.fast)
            && (FastAgrees(s.columns, s.fast, s.fastPos, s.fastDead, Live(s), s.rows) && s.fast != [] ==>
                  FastAgrees(s.columns, f, s.fastPos, s.fastDead, Live(s), s.rows[k := row]))
  {
    hide Keep, Project, FastKeys, PositionsFit, FastAgrees;
    FastKeysSame(s.fast, ReplacedFast(s, k, row));
    if FastAgrees(s.columns, s.fast, s.fastPos, s.fastDead, Live(s), s.rows) && s.fast != [] {
      AgreesAt(s, k);
      RewriteAgrees(s.columns, s.fast, s.fastPos, s.fastDead, Live(s), s.rows, k, row);
    }
  }

  lemma AgreesAt(s: State, k: Key)
    requires FastAgrees(s.columns, s.fast, s.fastPos, s.fastDead, Live(s), s.rows) && k in s.rows
    ensures k in s.fastPos && s.fastPos[k] < |s.fast| && s.fast[s.fastPos[k]].key == k
  {
  }

  /** Core without the bound on tombstones, which holds only between statements. */
  ghost predicate Almost(s: State) {
    && ColumnsFit(s.columns) && RowsFit(s.columns, s.rows)
    && OrderFits(s.order, s.rows, s.dead)
    && IndexesFit(s.indexes, s.rows) && (forall c <- s.indexes :: HasColumn(s.columns, c))
    && FastSafe(s.columns, s.fast, s.fastPos, s.colPos)
  }

  /** Tombstones dropped and, if there is an array, rebuilt. */
  ghost predicate Squeezed(s: State, t: State) {
    var m := s.(order := Live(s), dead := 0);
    if s.fast == [] then t == m else Rebuilt(m, t)
  }

  /** Dropping the tombstones changes neither the live keys nor the fit. */
  lemma CompactFits(order: seq<Key>, rows: map<Key, Row>, dead: int)
    requires OrderFits(order, rows, dead)
    ensures Keep(Keep(order, rows.Keys), rows.Keys) == Keep(order, rows.Keys)
    ensures OrderFits(Keep(order, rows.Keys), rows, 0) && Dense(Keep(order, rows.Keys), rows)
    ensures |Keep(order, rows.Keys)| == |rows|
  {
    KeepTwice(order, rows.Keys, rows.Keys);
    LiveCount(order, rows, dead);
  }

  lemma SqueezeKeeps(s: State, t: State)
    requires Almost(s) && Squeezed(s, t)
    ensures Core(t) && View(t) == View(s) && t.dead == 0 && |t.order| == |s.rows|
    ensures FastOK(s) ==> FastOK(t)
    ensures t.fast != [] ==> |t.order| >= THRESHOLD
  {
    hide Keep, RowsFit, Dense, IndexesFit, ColumnsFit, HasColumn, FastAgrees, FastSafe, OrderFits;
    CompactFits(s.order, s.rows, s.dead);
    if s.fast != [] { EmptyKeyDisagrees(s); }
  }

  /** Before an INSERT appends, so that a reused key has one place. */
  ghost predicate Reclaimed(s: State, t: State) {
    if s.dead == 0 then t == s else Squeezed(s, t)
  }

  lemma ReclaimKeeps(s: State, t: State)
    requires Core(s) && Reclaimed(s, t)
    ensures Core(t) && View(t) == View(s) && t.dead == 0 && |t.order| == |s.rows|
    ensures FastOK(s) ==> FastOK(t)
    ensures s.dead > 0 && t.fast != [] ==> |t.order| >= THRESHOLD
  {
    hide Keep, RowsFit, Dense, IndexesFit, ColumnsFit, HasColumn, FastAgrees, FastSafe, OrderFits, Squeezed, FastOK;
    if s.dead == 0 {
      LiveCount(s.order, s.rows, s.dead);
    } else {
      SqueezeKeeps(s, t);
    }
  }

  // ---------------------------------------------------------- insert batches

  /** After `n` appended rows an array that existed below the threshold is out of date, unless reaching
      the threshold rebuilt it; a length of exactly 255 makes the first append there look in step. */
  predicate Stale(s: State, n: nat) {
    n > 0 && s.fast != [] && |s.order| + 1 < THRESHOLD && (|s.order| + n < THRESHOLD || |s.fast| == THRESHOLD - 1)
  }

  /** `n` appended rows build an array over a row under the empty key. */
  predicate Exposes(s: State, n: nat) { "" in s.rows && n > 0 && |s.order| + n >= THRESHOLD }

  /** `t` is reached from `s` by `n` appends and any replacements. */
  ghost predicate Batch(s: State, t: State, n: nat) {
    && Core(t) && t.dead == 0 && |t.order| == |s.order| + n && ("" in t.rows <==> "" in s.rows)
    && (n == 0 ==> |t.fast| == |s.fast|)
    && (if "" in s.rows then
          s.fast == [] && (t.fast != [] <==> Exposes(s, n))
        else if Stale(s, n) then
          && |FastKeys(t.fast)| < |Live(t)|
          && |t.fast| == if |t.order| < THRESHOLD then |s.fast| else |t.order|
        else
          FastOK(t) && (n > 0 && |t.order| < THRESHOLD ==> t.fast == []))
  }

  lemma BatchAppend(s: State, t: State, n: nat, k: Key, row: Row, indexes: map<string, Index>, u: State)
    requires Batch(s, t, n) && k !in t.rows && k != "" && RowFits(t.columns, k, row)
    requires indexes.Keys == t.indexes.Keys && IndexesFit(indexes, t.rows[k := row])
    requires Appended(WithRow(t, k, row, indexes), u, k, row)
    ensures Batch(s, u, n + 1) && View(u) == Put(View(t), k, row)
  {
    hide Keep, FastKeys, FastAgrees, OrderFits, Dense, RowsFit, RowFits, IndexesFit, ColumnsFit, HasColumn, FastSafe,
      Project;
    var m := WithRow(t, k, row, indexes);
    InsertCore(t, k, row, indexes);
    AppendedCore(m, u, k, row);
    OrderAppend(t.order, t.rows, k, row);
    FastKeysSnoc(t.fast, FastRow(k, Project(t.columns, row)));
    assert k in m.rows && |m.rows| > 0;
    if "" !in s.rows && !Stale(s, n) {
      InsertFastIff(t, k, row, indexes, u);
      if t.fast != [] && |m.order| < THRESHOLD { StaleCount(t); }
    }
  }

  lemma BatchReplace(s: State, t: State, n: nat, k: Key, row: Row, indexes: map<string, Index>)
    requires Batch(s, t, n) && k in t.rows && RowFits(t.columns, k, row)
    requires indexes.Keys == t.indexes.Keys && IndexesFit(indexes, t.rows[k := row])
    ensures Batch(s, WithRowReplaced(t, k, row, indexes), n)
    ensures View(WithRowReplaced(t, k, row, indexes)) == Put(View(t), k, row)
  {
    hide Keep, FastKeys, FastAgrees, FastOK, OrderFits, Dense, RowsFit, RowFits, IndexesFit, ColumnsFit, HasColumn,
      FastSafe, Project, ReplacedFast;
    ReplaceKeeps(t, k, row, indexes);
    assert |FastKeys(t.fast)| < |Live(t)| ==> !FastOK(t) || t.fast == [] by {
      if t.fast != [] && |FastKeys(t.fast)| < |Live(t)| { StaleDisagrees(t, |FastKeys(t.fast)|); }
    }
  }

  /** The copy is right after a whole INSERT exactly when no append left it behind and none built it over
      a row under the empty key. */
  lemma BatchFastIff(s: State, t: State, n: nat)
    requires Batch(s, t, n)
    ensures FastOK(t) <==> !Stale(s, n) && !Exposes(s, n)
  {
    if "" in s.rows {
      if t.fast != [] { EmptyKeyDisagrees(t); }
    } else if Stale(s, n) {
      assert t.fast != [];
      StaleDisagrees(t, |FastKeys(t.fast)|);
    }
  }

  // ---------------------------------------------------------------- delete

  function Without(c: Content, doomed: set<Key>): Content {
    c.(live := Keep(c.live, c.rows.Keys - doomed), rows := c.rows - doomed)
  }

  lemma OrderDelete(order: seq<Key>, rows: map<Key, Row>, dead: int, k: Key)
    requires OrderFits(order, rows, dead) && k in rows
    ensures OrderFits(order, rows - {k}, dead + 1)
    ensures Keep(order, (rows - {k}).Keys) == Keep(Keep(order, rows.Keys), rows.Keys - {k})
  {
    hide Keep;
    var live, less := Keep(order, rows.Keys), rows.Keys - {k};
    assert (rows - {k}).Keys == less;
    LiveCount(order, rows, dead);
    KeepTwice(order, rows.Keys, less);
    KeepNoDup(live, less);
    KeepOneOut(live, rows.Keys, k);
  }

  /** The state with a row gone from everything but the fast array; it leaves a tombstone. */
  function WithoutRow(s: State, k: Key, indexes: map<string, Index>): State {
    s.(rows := s.rows - {k}, indexes := indexes, dead := s.dead + 1)
  }

  lemma DeleteStep(s: State, k: Key, indexes: map<string, Index>, t: State)
    requires Almost(s) && k in s.rows
    requires indexes.Keys == s.indexes.Keys && IndexesFit(indexes, s.rows - {k})
    requires Removed(WithoutRow(s, k, indexes), t, k)
    ensures Almost(t) && View(t) == Without(View(s), {k}) && t.order == s.order && t.rows == s.rows - {k}
    ensures FastOK(s) ==> FastOK(t)
  {
    hide Keep, RowsFit, IndexesFit, ColumnsFit, HasColumn, FastKeys, FastAgrees, FastSafe, OrderFits, Removed;
    OrderDelete(s.order, s.rows, s.dead, k);
    RowsLess(s.columns, s.rows, k);
    RemoveFastKeeps(s, k, indexes, t);
  }

  lemma RemoveFastKeeps(s: State, k: Key, indexes: map<string, Index>, t: State)
    requires FastSafe(s.columns, s.fast, s.fastPos, s.colPos) && OrderFits(s.order, s.rows, s.dead) && k in s.rows
    requires Removed(WithoutRow(s, k, indexes), t, k)
    ensures SameButFast(WithoutRow(s, k, indexes), t) && FastSafe(t.columns, t.fast, t.fastPos, t.colPos)
    ensures FastOK(s) ==> FastOK(t)
  {
    hide Keep, FastKeys, FastAgrees, OrderFits, FastSafe, FastOK;
    RemoveSafe(s.columns, s.fast, s.fastPos, s.colPos, k);
    if FastOK(s) {
      RemoveFastOK(s, k, indexes, t);
    }
  }

  lemma RemoveFastOK(s: State, k: Key, indexes: map<string, Index>, t: State)
    requires FastOK(s) && OrderFits(s.order, s.rows, s.dead) && k in s.rows
    requires Removed(WithoutRow(s, k, indexes), t, k)
    ensures FastOK(t)
  {
    hide Keep, FastKeys, FastAgrees, OrderFits;
    if s.fast != [] && |s.order| >= THRESHOLD {
      PosInRange(s, k);
      LiveCount(s.order, s.rows, s.dead);
      LiveNoDup(s);
      HoleAgrees(s.columns, s.fast, s.fastPos, s.fastDead, Live(s), s.rows, k);
      OrderDelete(s.order, s.rows, s.dead, k);
    }
  }

  lemma RemoveSafe(columns: seq<Column>, fast: seq<FastRow>, pos: map<Key, nat>, colPos: map<string, nat>, k: Key)
    requires FastSafe(columns, fast, pos, colPos)
    ensures forall any :: FastSafe(columns, [], map[], any)
    ensures k in pos ==> pos[k] < |fast| && FastSafe(columns, fast[pos[k] := FastRow("", [])], pos - {k}, colPos)
  {
    hide PositionsFit;
  }

  lemma LiveNoDup(s: State)
    requires OrderFits(s.order, s.rows, s.dead)
    ensures NoDup(Live(s))
  {
  }

  lemma PosInRange(s: State, k: Key)
    requires FastOK(s) && s.fast != [] && k in s.rows && OrderFits(s.order, s.rows, s.dead)
    ensures k in s.fastPos && s.fastPos[k] < |s.fast| && k != ""
    ensures FastAgrees(s.columns, s.fast, s.fastPos, s.fastDead, Live(s), s.rows)
  {
    hide Keep, OrderFits, FastKeys;
    EmptyKeyDisagrees(s);
  }

  lemma RowsLess(columns: seq<Column>, rows: map<Key, Row>, k: Key)
    requires RowsFit(columns, rows)
    ensures RowsFit(columns, rows - {k})
  {
  }

  /** Compaction once a quarter of the order is tombstones. */
  ghost predicate Compacted(s: State, t: State) {
    if |s.order| == 0 then t == s.(dead := 0)
    else if s.dead * 4 < |s.order| then t == s
    else Squeezed(s, t)
  }

  lemma CompactKeeps(s: State, t: State)
    requires Almost(s) && Compacted(s, t)
    ensures Core(t) && View(t) == View(s)
    ensures FastOK(s) ==> FastOK(t)
  {
    hide Keep, RowsFit, IndexesFit, ColumnsFit, HasColumn, FastAgrees, FastSafe, OrderFits, Squeezed, FastOK;
    LiveCount(s.order, s.rows, s.dead);
    if |s.order| != 0 && !(s.dead * 4 < |s.order|) {
      SqueezeKeeps(s, t);
    }
  }

  /** The array rebuilt once holes make up a quarter. */
  ghost predicate Thinned(s: State, t: State) {
    if s.fast != [] && s.fastDead * 4 >= |s.fast| + s.fastDead then Rebuilt(s, t) else t == s
  }

  lemma ThinKeeps(s: State, t: State)
    requires Core(s) && Thinned(s, t)
    ensures Core(t) && View(t) == View(s)
    ensures FastOK(s) ==> FastOK(t)
  {
    hide Keep, RowsFit, IndexesFit, ColumnsFit, HasColumn, FastAgrees, FastSafe, OrderFits, Dense;
    if s.fast != [] { EmptyKeyDisagrees(s); }
  }

  // ---------------------------------------------------------------- update

  function WithColumn(c: Content, hits: set<Key>, column: string, v: Value): Content {
    c.(rows := map k | k in c.rows :: if k in hits then c.rows[k][column := v] else c.rows[k])
  }

  /** Only the index on the written column moves the key. */
  function MovedInIndexes(indexes: map<string, Index>, column: string, from: string, to: string,
                          k: Key): map<string, Index> {
    if column in indexes then indexes[column := AddToIndex(RemoveFromIndex(indexes[column], from, k), to, k)]
    else indexes
  }

  function WrittenFast(s: State, k: Key, column: string, v: Value): seq<FastRow> {
    if s.fast != [] && column in s.colPos && k in s.fastPos && s.fastPos[k] < |s.fast|
      && s.colPos[column] < |s.fast[s.fastPos[k]].values|
    then var e := s.fast[s.fastPos[k]]; s.fast[s.fastPos[k] := e.(values := e.values[s.colPos[column] := v])]
    else s.fast
  }

  /** One column of one row written everywhere. */
  function Written(s: State, k: Key, column: string, v: Value): State
    requires k in s.rows
  {
    s.(rows := s.rows[k := s.rows[k][column := v]],
       indexes := MovedInIndexes(s.indexes, column, BucketOf(s.rows[k], column), ValueKey(v), k),
       fast := WrittenFast(s, k, column, v))
  }

  lemma MoveFits(indexes: map<string, Index>, rows: map<Key, Row>, column: string, k: Key, v: Value)
    requires IndexesFit(indexes, rows) && k in rows
    ensures var moved := MovedInIndexes(indexes, column, BucketOf(rows[k], column), ValueKey(v), k);
            moved.Keys == indexes.Keys && IndexesFit(moved, rows[k := rows[k][column := v]])
  {
    hide AddToIndex, RemoveFromIndex, ValueKey;
    var row := rows[k][column := v];
    forall c | c in indexes && c != column
      ensures IndexFits(indexes[c], rows[k := row], c)
    {
      assert BucketOf(row, c) == BucketOf(rows[k], c);
    }
    if column in indexes {
      hide IndexFits;
      RemoveFits(indexes[column], rows, column, k);
      AddFits(RemoveFromIndex(indexes[column], BucketOf(rows[k], column), k), rows - {k}, column, k, row);
      assert (rows - {k})[k := row] == rows[k := row];
    }
  }

  /** A value may be written to a column of its type; on the primary column it must render the key. */
  predicate Writable(columns: seq<Column>, k: Key, i: nat, v: Value) {
    && i < |columns| && HasType(v, columns[i].typ)
    && (columns[i].name == Primary(columns) ==> ValueKey(v) == k)
  }

  lemma WriteRowFits(columns: seq<Column>, k: Key, row: Row, i: nat, v: Value)
    requires ColumnsFit(columns) && RowFits(columns, k, row) && Writable(columns, k, i, v)
    ensures RowFits(columns, k, row[columns[i].name := v])
  {
    hide ValueKey, HasType, Primary;
    forall j | 0 <= j < |columns|
      ensures HasType(Get(row[columns[i].name := v], columns[j].name), columns[j].typ)
    {
      if j < i { assert columns[j].name != columns[i].name; }
      if i < j { assert columns[i].name != columns[j].name; }
    }
  }

  lemma WriteFastSafe(s: State, k: Key, column: string, v: Value)
    requires FastSafe(s.columns, s.fast, s.fastPos, s.colPos)
    ensures FastSafe(s.columns, WrittenFast(s, k, column, v), s.fastPos, s.colPos)
            && |WrittenFast(s, k, column, v)| == |s.fast|
  {
    hide PositionsFit;
  }

  lemma WriteFastKeeps(s: State, k: Key, i: nat, v: Value)
    requires FastSafe(s.columns, s.fast, s.fastPos, s.colPos) && k in s.rows && i < |s.columns|
             && NamesDistinct(s.columns)
    ensures var f := WrittenFast(s, k, s.columns[i].name, v);
            && FastSafe(s.columns, f, s.fastPos, s.colPos) && |f| == |s.fast|
            && (FastAgrees(s.columns, s.fast, s.fastPos, s.fastDead, Live(s), s.rows) && s.fast != [] ==>
                  FastAgrees(s.columns, f, s.fastPos, s.fastDead, Live(s),
                             s.rows[k := s.rows[k][s.columns[i].name := v]]))
  {
    hide Keep, Project, FastKeys, FastAgrees;
    var column := s.columns[i].name;
    var row := s.rows[k][column := v];
    WriteFastSafe(s, k, column, v);
    if FastAgrees(s.columns, s.fast, s.fastPos, s.fastDead, Live(s), s.rows) && s.fast != [] {
      EntryAt(s, k);
      ProjectWrite(s.columns, s.rows[k], i, v);
      RewriteAgrees(s.columns, s.fast, s.fastPos, s.fastDead, Live(s), s.rows, k, row);
    }
  }

  lemma WriteKeeps(s: State, k: Key, i: nat, v: Value)
    requires Core(s) && k in s.rows && Writable(s.columns, k, i, v)
    ensures var t := Written(s, k, s.columns[i].name, v);
            && Core(t) && View(t) == WithColumn(View(s), {k}, s.columns[i].name, v)
            && (FastOK(s) ==> FastOK(t))
  {
    hide Keep, IndexesFit, HasColumn, FastAgrees, FastSafe, OrderFits, WrittenFast, MovedInIndexes, RowFits, ColumnsFit,
         RowsFit;
    var column := s.columns[i].name;
    var row := s.rows[k][column := v];
    DistinctNames(s.columns);
    MoveFits(s.indexes, s.rows, column, k, v);
    RowFitsAt(s.columns, s.rows, k);
    WriteRowFits(s.columns, k, s.rows[k], i, v);
    RowsAppend(s.columns, s.rows, k, row);
    OrderReplace(s.order, s.rows, s.dead, k, row);
    WriteFastKeeps(s, k, i, v);
    assert s.rows[k := row].Keys == s.rows.Keys;
  }

  lemma RowFitsAt(columns: seq<Column>, rows: map<Key, Row>, k: Key)
    requires RowsFit(columns, rows) && k in rows
    ensures RowFits(columns, k, rows[k])
  {
  }

  lemma DistinctNames(columns: seq<Column>)
    requires ColumnsFit(columns)
    ensures NamesDistinct(columns)
  {
  }

  // ----------------------------------------------------------------- rekey

  function Moved(c: Content, from: Key, to: Key, row: Row): Content {
    c.(live := Rename(c.live, from, to), rows := (c.rows - {from})[to := row])
  }

  /** The first occurrence replaced. */
  function ReplaceFirst(s: seq<Key>, from: Key, to: Key): seq<Key> {
    if s == [] then [] else if s[0] == from then [to] + s[1..] else [s[0]] + ReplaceFirst(s[1..], from, to)
  }

  lemma {:induction false} ReplaceFirstAt(s: seq<Key>, from: Key, to: Key) returns (i: nat)
    requires from in s
    ensures i < |s| && s[i] == from && from !in s[..i] && ReplaceFirst(s, from, to) == s[i := to]
  {
    if s[0] == from {
      i := 0;
    } else {
      i := ReplaceFirstAt(s[1..], from, to);
      assert s[..i + 1] == [s[0]] + s[1..][..i];
      i := i + 1;
    }
  }

  /** A key moved in the order: it keeps its place, and the fit survives exactly when the new key was
      not still there as a tombstone. */
  lemma OrderRekey(order: seq<Key>, rows: map<Key, Row>, dead: int, from: Key, to: Key, row: Row)
    requires OrderFits(order, rows, dead) && from in rows && to !in rows
    ensures var o, r := ReplaceFirst(order, from, to), (rows - {from})[to := row];
            && (OrderFits(o, r, dead) <==> to !in order)
            && (to !in order ==> Keep(o, r.Keys) == Rename(Keep(order, rows.Keys), from, to))
            && |o| == |order| && |r| == |rows|
  {
    hide Keep, OrderFits, ReplaceFirst;
    var i := RekeyPlace(order, rows, dead, from, to);
    var a, b := order[..i], order[i + 1..];
    if to in order {
      RekeyClash(a, b, rows, from, to, row, dead);
    } else {
      RekeyFits(a, b, rows, dead, from, to, row);
    }
  }

  /** The key to replace stands alone in the order. */
  lemma RekeyPlace(order: seq<Key>, rows: map<Key, Row>, dead: int, from: Key, to: Key) returns (i: nat)
    requires OrderFits(order, rows, dead) && from in rows
    ensures i < |order| && order == order[..i] + [from] + order[i + 1..] && from !in order[..i]
            && from !in order[i + 1..]
    ensures ReplaceFirst(order, from, to) == order[..i] + [to] + order[i + 1..]
  {
    hide Keep;
    i := ReplaceFirstAt(order, from, to);
    assert order == order[..i] + [from] + order[i + 1..];
    ExactlyOnce(order, rows, dead, from);
  }

  lemma RekeyClash(a: seq<Key>, b: seq<Key>, rows: map<Key, Row>, from: Key, to: Key, row: Row, dead: int)
    requires from in rows && to !in rows && (to in a || to in b)
    ensures !OrderFits(a + [to] + b, (rows - {from})[to := row], dead)
    ensures |(rows - {from})[to := row]| == |rows|
  {
    hide Keep, OrderFits;
    var r := (rows - {from})[to := row];
    assert r.Keys == rows.Keys - {from} + {to};
    if OrderFits(a + [to] + b, r, dead) {
      ExactlyOnce(a + [to] + b, r, dead, to);
    }
  }

  lemma RekeyFits(a: seq<Key>, b: seq<Key>, rows: map<Key, Row>, dead: int, from: Key, to: Key, row: Row)
    requires OrderFits(a + [from] + b, rows, dead) && from in rows && to !in rows
    requires from !in a && from !in b && to !in a + [from] + b
    ensures var o, r := a + [to] + b, (rows - {from})[to := row];
            OrderFits(o, r, dead) && |r| == |rows|
              && Keep(o, r.Keys) == Rename(Keep(a + [from] + b, rows.Keys), from, to)
  {
    hide Keep;
    var r := (rows - {from})[to := row];
    assert r.Keys == rows.Keys - {from} + {to};
    KeepSame(a, rows.Keys, r.Keys);
    KeepSame(b, rows.Keys, r.Keys);
    KeepConcat(a + [from], b, rows.Keys);
    KeepSnoc(a, from, rows.Keys);
    KeepConcat(a + [to], b, r.Keys);
    KeepSnoc(a, to, r.Keys);
    RekeyLive(Keep(a, rows.Keys), Keep(b, rows.Keys), from, to, a + [from] + b, rows, dead);
  }

  lemma RekeyLive(a: seq<Key>, b: seq<Key>, from: Key, to: Key, order: seq<Key>, rows: map<Key, Row>, dead: int)
    requires OrderFits(order, rows, dead) && Keep(order, rows.Keys) == a + [from] + b && to !in order
    ensures a + [to] + b == Rename(a + [from] + b, from, to) && NoDup(a + [to] + b)
  {
    hide Keep;
    var live := a + [from] + b;
    assert live[|a|] == from;
    KeepMembers(order, rows.Keys);
    assert forall j :: 0 <= j < |live| && j != |a| ==> live[j] != from;
    assert forall j :: 0 <= j < |live| ==> live[j] in live && live[j] != to;
    var after := a + [to] + b;
    assert forall j :: 0 <= j < |after| && j != |a| ==> after[j] == live[j];
  }

  /** The row under its new key in everything. */
  function Rekeyed(s: State, from: Key, to: Key, v: Value, indexes: map<string, Index>): State
    requires from in s.rows
  {
    s.(rows := (s.rows - {from})[to := RekeyedRow(s, from, v)], order := ReplaceFirst(s.order, from, to),
       indexes := indexes, fast := RekeyedFast(s, from, to, v), fastPos := RekeyedPos(s, from, to))
  }

  predicate HasEntry(s: State, k: Key) { s.fast != [] && k in s.fastPos && s.fastPos[k] < |s.fast| }

  function RekeyedFast(s: State, from: Key, to: Key, v: Value): seq<FastRow> {
    if HasEntry(s, from)
    then s.fast[s.fastPos[from] := FastRow(to, RekeyedValues(s, s.fast[s.fastPos[from]].values, v))]
    else s.fast
  }

  function RekeyedPos(s: State, from: Key, to: Key): map<Key, nat> {
    if HasEntry(s, from) then (s.fastPos - {from})[to := s.fastPos[from]] else s.fastPos
  }

  function RekeyedRow(s: State, from: Key, v: Value): Row
    requires from in s.rows
  {
    s.rows[from][Primary(s.columns) := v]
  }

  function RekeyedValues(s: State, values: seq<Value>, v: Value): seq<Value> {
    var pk := Primary(s.columns);
    if pk in s.colPos && s.colPos[pk] < |values| then values[s.colPos[pk] := v] else values
  }

  lemma RekeyAgrees(columns: seq<Column>, fast: seq<FastRow>, pos: map<Key, nat>, holes: int, live: seq<Key>,
                    rows: map<Key, Row>, from: Key, to: Key, row: Row)
    requires FastAgrees(columns, fast, pos, holes, live, rows) && from in rows && from != "" && to !in rows && to != ""
    ensures FastAgrees(columns, fast[pos[from] := FastRow(to, Project(columns, row))], (pos - {from})[to := pos[from]],
                       holes,
                       Rename(live, from, to), (rows - {from})[to := row])
  {
    hide FastKeys, Project;
    assert OnlyAt(fast, pos[from]);
    FastKeysRename(fast, pos[from], FastRow(to, Project(columns, row)));
  }

  lemma RekeySafe(s: State, from: Key, to: Key, v: Value, indexes: map<string, Index>)
    requires FastSafe(s.columns, s.fast, s.fastPos, s.colPos) && from in s.rows
    ensures var t := Rekeyed(s, from, to, v, indexes);
            FastSafe(t.columns, t.fast, t.fastPos, t.colPos)
  {
    hide PositionsFit, ReplaceFirst, Primary;
  }

  /** A rekey that hits no tombstone spoils the copy exactly when there is one and the new key is empty. */
  lemma RekeyFast(s: State, from: Key, to: Key, v: Value, indexes: map<string, Index>, i: nat)
    requires FastOK(s) && FastSafe(s.columns, s.fast, s.fastPos, s.colPos) && from in s.rows && to !in s.rows
    requires i < |s.columns| && s.columns[i].name == Primary(s.columns) && NamesDistinct(s.columns)
    requires OrderFits(s.order, s.rows, s.dead)
    requires var t := Rekeyed(s, from, to, v, indexes);
             Live(t) == Rename(Live(s), from, to) && OrderFits(t.order, t.rows, t.dead)
    ensures FastOK(Rekeyed(s, from, to, v, indexes)) <==> to != "" || s.fast == []
  {
    hide Keep, FastKeys, Project, ReplaceFirst, Primary, FastAgrees, OrderFits;
    if s.fast != [] {
      PosInRange(s, from);
      if to == "" {
        EmptyKeyDisagrees(Rekeyed(s, from, to, v, indexes));
      } else {
        EntryAt(s, from);
        assert s.colPos[Primary(s.columns)] == i;
        ProjectWrite(s.columns, s.rows[from], i, v);
        RekeyAgrees(s.columns, s.fast, s.fastPos, s.fastDead, Live(s), s.rows, from, to, RekeyedRow(s, from, v));
      }
    }
  }

  lemma EntryAt(s: State, k: Key)
    requires FastAgrees(s.columns, s.fast, s.fastPos, s.fastDead, Live(s), s.rows) && k in s.rows
    ensures k in s.fastPos && s.fastPos[k] < |s.fast|
            && s.fast[s.fastPos[k]] == FastRow(k, Project(s.columns, s.rows[k]))
  {
  }

  /** Moving a row to a free key keeps the table consistent exactly when that key has no tombstone left
      in the order. The code checks only the rows. */
  lemma RekeyCoreIff(s: State, from: Key, v: Value, indexes: map<string, Index>, i: nat)
    requires Core(s) && from in s.rows && ValueKey(v) !in s.rows
    requires i < |s.columns| && s.columns[i].name == Primary(s.columns) && HasType(v, s.columns[i].typ)
    requires indexes.Keys == s.indexes.Keys
             && IndexesFit(indexes, (s.rows - {from})[ValueKey(v) := RekeyedRow(s, from, v)])
    ensures var t := Rekeyed(s, from, ValueKey(v), v, indexes);
            && (Core(t) <==> ValueKey(v) !in s.order)
            && (Core(t) ==> View(t) == Moved(View(s), from, ValueKey(v), RekeyedRow(s, from, v)))
            && (Core(t) && FastOK(s) ==> (FastOK(t) <==> ValueKey(v) != "" || s.fast == []))
  {
    hide Keep, RowsFit, IndexesFit, ColumnsFit, HasColumn, FastAgrees, FastSafe, FastOK, OrderFits, ReplaceFirst,
      Primary, ValueKey, HasType;
    var to := ValueKey(v);
    var t := Rekeyed(s, from, to, v, indexes);
    OrderRekey(s.order, s.rows, s.dead, from, to, RekeyedRow(s, from, v));
    RekeySafe(s, from, to, v, indexes);
    RekeyRowsFit(s, from, v, i);
    DistinctNames(s.columns);
    if to !in s.order && FastOK(s) {
      RekeyFast(s, from, to, v, indexes, i);
    }
  }

  lemma RekeyRowsFit(s: State, from: Key, v: Value, i: nat)
    requires ColumnsFit(s.columns) && RowsFit(s.columns, s.rows) && from in s.rows
    requires i < |s.columns| && s.columns[i].name == Primary(s.columns) && HasType(v, s.columns[i].typ)
    ensures RowsFit(s.columns, (s.rows - {from})[ValueKey(v) := RekeyedRow(s, from, v)])
  {
    hide Primary, ValueKey, HasType;
    var row := RekeyedRow(s, from, v);
    forall j | 0 <= j < |s.columns|
      ensures HasType(Get(row, s.columns[j].name), s.columns[j].typ)
    {
      assert RowFits(s.columns, from, s.rows[from]);
      if j < i { assert s.columns[j].name != s.columns[i].name; }
      if i < j { assert s.columns[i].name != s.columns[j].name; }
    }
    assert RowFits(s.columns, ValueKey(v), row);
  }

  // ---------------------------------------------------------------- schema

  /** After a schema change the array is rebuilt if there is one. */
  ghost predicate Refreshed(m: State, t: State) {
    if m.fast == [] then t == m else Rebuilt(m, t)
  }

  function Widened(s: State, c: Column): State {
    s.(columns := s.columns + [c], rows := map k | k in s.rows :: s.rows[k][c.name := Null])
  }

  function WidenedContent(v: Content, c: Column): Content {
    v.(columns := v.columns + [c], rows := map k | k in v.rows :: v.rows[k][c.name := Null])
  }

  function NarrowedColumns(columns: seq<Column>, i: nat): seq<Column>
    requires i < |columns|
  {
    columns[..i] + columns[i + 1..]
  }

  /** The index names that stand for other columns. */
  function NamesWithout(names: map<string, string>, column: string): map<string, string> {
    map n | n in names && names[n] != column :: names[n]
  }

  function Narrowed(s: State, i: nat): State
    requires i < |s.columns|
  {
    var name := s.columns[i].name;
    s.(columns := NarrowedColumns(s.columns, i), rows := map k | k in s.rows :: s.rows[k] - {name},
       indexes := s.indexes - {name}, names := NamesWithout(s.names, name))
  }

  function NarrowedContent(v: Content, i: nat): Content
    requires i < |v.columns|
  {
    var name := v.columns[i].name;
    v.(columns := NarrowedColumns(v.columns, i), rows := map k | k in v.rows :: v.rows[k] - {name},
       indexed := v.indexed - {name}, names := NamesWithout(v.names, name))
  }

  /** Rows changed one by one under the same keys, with the buckets of the remaining indexes kept. */
  lemma SchemaKeeps(s: State, m: State, t: State)
    requires Core(s) && m.order == s.order && m.dead == s.dead && m.rows.Keys == s.rows.Keys
    requires m.fast == s.fast && m.fastPos == s.fastPos
    requires ColumnsFit(m.columns) && RowsFit(m.columns, m.rows)
    requires m.indexes.Keys <= s.indexes.Keys
    requires forall c <- m.indexes :: m.indexes[c] == s.indexes[c] && HasColumn(m.columns, c)
    requires forall c, k :: c in m.indexes && k in s.rows ==> BucketOf(m.rows[k], c) == BucketOf(s.rows[k], c)
    requires Refreshed(m, t)
    ensures Core(t) && View(t) == View(m) && (FastOK(s) ==> FastOK(t))
  {
    hide Keep, RowsFit, ColumnsFit, HasColumn, FastAgrees, FastSafe, NoDup, BucketOf;
    assert |m.rows| == |s.rows| by { assert |m.rows.Keys| == |s.rows.Keys|; }
    SchemaIndexes(s, m);
    hide IndexesFit;
    if m.fast == [] { SafeWhenEmpty(s, m); } else { EmptyKeyDisagrees(s); }
  }

  /** Indexes that are kept still fit, for the buckets of their columns are the same. */
  lemma SchemaIndexes(s: State, m: State)
    requires IndexesFit(s.indexes, s.rows) && m.rows.Keys == s.rows.Keys && m.indexes.Keys <= s.indexes.Keys
    requires forall c <- m.indexes :: m.indexes[c] == s.indexes[c]
    requires forall c, k :: c in m.indexes && k in s.rows ==> BucketOf(m.rows[k], c) == BucketOf(s.rows[k], c)
    ensures IndexesFit(m.indexes, m.rows)
  {
    hide BucketOf, NoDup;
    forall c | c in m.indexes
      ensures IndexFits(m.indexes[c], m.rows, c)
    {
      assert IndexFits(s.indexes[c], s.rows, c);
    }
  }

  lemma SafeWhenEmpty(s: State, m: State)
    requires FastSafe(s.columns, s.fast, s.fastPos, s.colPos) && m.fast == s.fast == [] && m.fastPos == s.fastPos
    ensures FastSafe(m.columns, m.fast, m.fastPos, m.colPos)
  {
  }

  lemma {:induction false} PrimaryIndex(columns: seq<Column>) returns (i: nat)
    requires Primary(columns) != ""
    ensures i < |columns| && columns[i].primary && columns[i].name == Primary(columns)
  {
    if columns[0].primary {
      i := 0;
    } else {
      i := PrimaryIndex(columns[1..]);
      i := i + 1;
    }
  }

  lemma {:induction false} PrimaryAt(columns: seq<Column>, i: nat)
    requires ColumnsFit(columns) && i < |columns| && columns[i].primary
    ensures Primary(columns) == columns[i].name
  {
    if i > 0 {
      assert !columns[0].primary;
      PrimaryAt(columns[1..], i - 1);
    }
  }

  lemma WidenKeeps(s: State, c: Column, t: State)
    requires Core(s) && !HasColumn(s.columns, c.name) && c.name != "" && !c.primary && Refreshed(Widened(s, c), t)
    ensures Core(t) && View(t) == WidenedContent(View(s), c) && (FastOK(s) ==> FastOK(t))
  {
    hide Keep, FastOK, FastSafe, OrderFits, Dense, IndexesFit, RowsFit, Refreshed, BucketOf;
    WidenColumns(s.columns, c);
    WidenRows(s.columns, s.rows, c);
    forall x | x in s.indexes
      ensures HasColumn(s.columns + [c], x) && x != c.name
    {
      var i :| 0 <= i < |s.columns| && s.columns[i].name == x;
      assert (s.columns + [c])[i].name == x;
    }
    WidenBuckets(s.rows, s.indexes.Keys, c);
    assert Widened(s, c).rows.Keys == s.rows.Keys;
    SchemaKeeps(s, Widened(s, c), t);
  }

  lemma WidenColumns(columns: seq<Column>, c: Column)
    requires ColumnsFit(columns) && !HasColumn(columns, c.name) && c.name != "" && !c.primary
    ensures ColumnsFit(columns + [c])
  {
    var wide := columns + [c];
    assert forall i :: 0 <= i < |columns| ==> wide[i] == columns[i] && wide[i].name != c.name;
    assert wide[|columns|] == c;
  }

  lemma WidenRows(columns: seq<Column>, rows: map<Key, Row>, c: Column)
    requires ColumnsFit(columns) && RowsFit(columns, rows) && !HasColumn(columns, c.name) && c.name != "" && !c.primary
    ensures RowsFit(columns + [c], map k | k in rows :: rows[k][c.name := Null])
  {
    hide RowFits, ColumnsFit;
    WidenColumns(columns, c);
    forall k | k in rows
      ensures RowFits(columns + [c], k, rows[k][c.name := Null])
    {
      WidenRow(columns, c, k, rows[k]);
    }
  }

  lemma WidenBuckets(rows: map<Key, Row>, cs: set<string>, c: Column)
    requires c.name !in cs
    ensures forall x, k :: x in cs && k in rows ==> BucketOf(rows[k][c.name := Null], x) == BucketOf(rows[k], x)
  {
    hide ValueKey;
  }

  lemma WidenRow(columns: seq<Column>, c: Column, k: Key, row: Row)
    requires ColumnsFit(columns) && ColumnsFit(columns + [c]) && !c.primary && RowFits(columns, k, row)
    requires forall i :: 0 <= i < |columns| ==> columns[i].name != c.name
    ensures RowFits(columns + [c], k, row[c.name := Null])
  {
    hide Primary;
    var wide := columns + [c];
    if Primary(wide) != "" {
      var i := PrimaryIndex(wide);
      assert wide[i] == columns[i];
      PrimaryAt(columns, i);
    }
  }

  lemma NarrowKeeps(s: State, i: nat, t: State)
    requires Core(s) && i < |s.columns| && Refreshed(Narrowed(s, i), t)
    ensures Core(t) && View(t) == NarrowedContent(View(s), i) && (FastOK(s) ==> FastOK(t))
  {
    hide Keep, FastOK, FastSafe, OrderFits, Dense, IndexesFit, RowsFit, Refreshed, BucketOf, ColumnsFit;
    var m, name := Narrowed(s, i), s.columns[i].name;
    NarrowColumns(s.columns, i);
    NarrowRows(s.columns, s.rows, i);
    forall x | x in m.indexes
      ensures HasColumn(m.columns, x)
    {
      var j :| 0 <= j < |s.columns| && s.columns[j].name == x;
      assert m.columns[if j < i then j else j - 1].name == x;
    }
    NarrowBuckets(s.rows, m.indexes.Keys, name);
    assert m.rows.Keys == s.rows.Keys;
    SchemaKeeps(s, m, t);
  }

  lemma NarrowRows(columns: seq<Column>, rows: map<Key, Row>, i: nat)
    requires ColumnsFit(columns) && RowsFit(columns, rows) && i < |columns|
    ensures RowsFit(NarrowedColumns(columns, i), map k | k in rows :: rows[k] - {columns[i].name})
  {
    hide RowFits, ColumnsFit;
    forall k | k in rows
      ensures RowFits(NarrowedColumns(columns, i), k, rows[k] - {columns[i].name})
    {
      NarrowRow(columns, i, k, rows[k]);
    }
  }

  lemma NarrowBuckets(rows: map<Key, Row>, cs: set<string>, name: string)
    requires name !in cs
    ensures forall x, k :: x in cs && k in rows ==> BucketOf(rows[k] - {name}, x) == BucketOf(rows[k], x)
  {
    hide ValueKey;
  }

  lemma NarrowColumns(columns: seq<Column>, i: nat)
    requires ColumnsFit(columns) && i < |columns|
    ensures ColumnsFit(NarrowedColumns(columns, i))
    ensures forall j :: 0 <= j < |columns| - 1 ==> NarrowedColumns(columns, i)[j] == columns[if j < i then j else j + 1]
    ensures forall j :: 0 <= j < |columns| - 1 ==> NarrowedColumns(columns, i)[j].name != columns[i].name
  {
    var less := NarrowedColumns(columns, i);
    assert forall j :: 0 <= j < |less| ==> less[j] == columns[if j < i then j else j + 1];
  }

  lemma NarrowRow(columns: seq<Column>, i: nat, k: Key, row: Row)
    requires ColumnsFit(columns) && i < |columns| && RowFits(columns, k, row)
    ensures RowFits(NarrowedColumns(columns, i), k, row - {columns[i].name})
  {
    hide Primary;
    NarrowColumns(columns, i);
    var less := NarrowedColumns(columns, i);
    if Primary(less) != "" {
      var j := PrimaryIndex(less);
      PrimaryAt(columns, if j < i then j else j + 1);
    }
  }
}
