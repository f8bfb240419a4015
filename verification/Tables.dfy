/** One table with all its redundant parts, changed in place by the statements of internal/engine
    (fastpath.go, insert.go, delete.go, update.go, schema.go, drop.go, snapshot.go). Statements run
    to completion. */
module Tables {
  import opened Values
  import opened Storage
  import opened TableState
  import opened Literals
  import opened InsertValues

  /** Rows put in turn: a key in use is overwritten where it stands, a new one goes to the end. */
  function PutAll(c: Content, items: seq<InsertRow>): Content {
    if items == [] then c else Put(PutAll(c, items[..|items| - 1]), items[|items| - 1].key, items[|items| - 1].row)
  }

  /** Appending `n` rows to a table in this state leaves it with an array that is not a copy: one that is
      out of date, or one built over a row under the empty key. */
  predicate Outdated(s: State, n: nat) {
    (s.dead == 0 && Stale(s, n)) || ("" in s.rows && n > 0 && |s.rows| + n >= THRESHOLD)
  }

  /** How many of the rows get a new place. */
  function NewPlaces(c: Content, items: seq<InsertRow>): nat {
    if items == [] then 0
    else NewPlaces(c, items[..|items| - 1]) + if items[|items| - 1].key in PutAll(c, items[..|items| - 1]).rows then 0
      else 1
  }

  /** What both callers of the insert tail guarantee about a parsed row. */
  predicate ItemFits(columns: seq<Column>, item: InsertRow) {
    RowFits(columns, item.key, item.row) && (item.key == "" <==> Primary(columns) == "")
  }

  /** No key of the batch is in use already or twice in the batch. */
  predicate NoClash(rows: map<Key, Row>, items: seq<InsertRow>) {
    && (forall i :: 0 <= i < |items| && items[i].key != "" ==> items[i].key !in rows)
    && (forall i, j :: 0 <= i < j < |items| && items[i].key != "" ==> items[i].key != items[j].key)
  }

  /** The batch with synthetic keys filled in: given keys stay, missing ones are not in use when
      their row is put. */
  ghost predicate Filled(c: Content, items: seq<InsertRow>, keyed: seq<InsertRow>) {
    && |keyed| == |items|
    && forall i :: 0 <= i < |items| ==>
         && keyed[i].row == items[i].row && keyed[i].key != ""
         && (if items[i].key != "" then keyed[i].key == items[i].key else keyed[i].key !in PutAll(c, keyed[..i]).rows)
  }

  function SyntheticKey(n: nat): string { "#" + Digits(n) }

  class Table {
    var columns: seq<Column>
    var rows: map<Key, Row>
    var order: seq<Key>
    var indexes: map<string, Index>
    var indexNames: map<string, string>
    var fast: seq<FastRow>
    var colPos: map<string, nat>
    var fastPos: map<Key, nat>
    var dead: int
    var fastDead: int
    var autoKey: nat

    /** The fields as one value. */
    ghost function S(): State
      reads this
    {
      State(columns, rows, order, indexes, fast, colPos, fastPos, dead, fastDead, indexNames)
    }

    constructor (cols: seq<Column>)
      requires ColumnsFit(cols)
      ensures Core(S()) && FastOK(S()) && View(S()) == Content(cols, [], map[], {}, map[])
      ensures fast == [] && order == [] && dead == 0
    {
      columns, rows, order, indexes, indexNames := cols, map[], [], map[], map[];
      fast, colPos, fastPos, dead, fastDead, autoKey := [], map[], map[], 0, 0, 0;
    }

    // ----------------------------------------------------------- fast array

    static method ColumnPositions(columns: seq<Column>) returns (colPos: map<string, nat>)
      requires NamesDistinct(columns)
      ensures PositionsFit(columns, colPos)
    {
      colPos := map[];
      for i := 0 to |columns|
        invariant forall c <- colPos :: colPos[c] < i && columns[colPos[c]].name == c
        invariant forall j :: 0 <= j < i ==> columns[j].name in colPos && colPos[columns[j].name] == j
      {
        colPos := colPos[columns[i].name := i];
      }
    }

    /** The entries for the live keys of `order`, and their positions. */
    static method BuildEntries(order: seq<Key>, rows: map<Key, Row>, dead: int, columns: seq<Column>)
      returns (fast: seq<FastRow>, pos: map<Key, nat>)
      requires OrderFits(order, rows, dead)
      ensures fast == EntriesFor(Keep(order, rows.Keys), columns, rows) && Numbers(pos, Keep(order, rows.Keys))
    {
      hide Keep, EntriesFor, EntryFor, Numbers, NoDup, OrderFits;
      StartFresh(columns, rows);
      fast, pos := [], map[];
      ghost var live: seq<Key> := [];
      for i := 0 to |order|
        invariant live == Keep(order[..i], rows.Keys)
        invariant fast == EntriesFor(live, columns, rows) && Numbers(pos, live)
      {
        var key := order[i];
        assert order[..i + 1] == order[..i] + [key];
        KeepSnoc(order[..i], key, rows.Keys);
        if key in rows {
          PrefixNoDup(order, i + 1, rows, dead);
          ExtendFresh(live, key, columns, rows, pos);
          pos := pos[key := |fast|];
          fast := fast + [EntryFor(key, columns, rows)];
          live := live + [key];
        }
      }
      assert order[..|order|] == order;
    }

    /** Rebuilds the array from the live rows, or drops it below the threshold. */
    method RebuildFast()
      requires OrderFits(order, rows, dead) && NamesDistinct(columns)
      modifies `fast, `colPos, `fastPos, `fastDead
      ensures Rebuilt(old(S()), S())
    {
      hide OrderFits, NamesDistinct, Rebuilt, Keep, EntriesFor, Numbers, PositionsFit;
      ghost var s := S();
      fast, colPos, fastPos, fastDead := [], map[], map[], 0;
      if |order| >= THRESHOLD {
        colPos := ColumnPositions(columns);
        fast, fastPos := BuildEntries(order, rows, dead, columns);
        RebuildIsRight(s, colPos, fastPos);
      } else {
        DropIsRight(s);
      }
    }

    method AppendFast(key: Key, row: Row)
      requires OrderFits(order, rows, dead) && NamesDistinct(columns)
      modifies `fast, `colPos, `fastPos, `fastDead
      ensures Appended(old(S()), S(), key, row)
    {
      hide OrderFits, NamesDistinct, Rebuilt, Project;
      if |order| >= THRESHOLD {
        if |fast| == 0 || |fast| + 1 != |order| {
          RebuildFast();
        } else {
          fast := fast + [FastRow(key, Project(columns, row))];
          fastPos := fastPos[key := |fast| - 1];
        }
      }
    }

    method RemoveFast(key: Key)
      requires FastSafe(columns, fast, fastPos, colPos)
      modifies `fast, `colPos, `fastPos, `fastDead
      ensures Removed(old(S()), S(), key)
    {
      hide PositionsFit;
      if |fast| == 0 {
        return;
      }
      if |order| < THRESHOLD {
        fast, colPos, fastPos, fastDead := [], map[], map[], 0;
        return;
      }
      if key in fastPos {
        fast := fast[fastPos[key] := FastRow("", [])];
        fastPos := fastPos - {key};
        fastDead := fastDead + 1;
      }
    }

    // -------------------------------------------------------------- indexes

    /** Enters a new row in every index, columns in any order. */
    static method AddToIndexes(indexes: map<string, Index>, k: Key, row: Row, ghost rows: map<Key, Row>)
      returns (out: map<string, Index>)
      requires IndexesFit(indexes, rows) && k !in rows
      ensures out.Keys == indexes.Keys && IndexesFit(out, rows[k := row])
    {
      hide IndexFits, AddToIndex, BucketOf;
      out := indexes;
      var pending := indexes.Keys;
      while pending != {}
        invariant pending <= indexes.Keys && out.Keys == indexes.Keys
        invariant forall c <- out :: IndexFits(out[c], if c in pending then rows else rows[k := row], c)
        decreases |pending|
      {
        var c :| c in pending;
        AddFits(out[c], rows, c, k, row);
        out := out[c := AddToIndex(out[c], BucketOf(row, c), k)];
        pending := pending - {c};
      }
    }

    /** Takes a row out of every index. */
    static method RemoveFromIndexes(indexes: map<string, Index>, k: Key, rows: map<Key, Row>)
      returns (out: map<string, Index>)
      requires IndexesFit(indexes, rows) && k in rows
      ensures out.Keys == indexes.Keys && IndexesFit(out, rows - {k})
    {
      hide IndexFits, RemoveFromIndex, BucketOf;
      out := indexes;
      var pending := indexes.Keys;
      while pending != {}
        invariant pending <= indexes.Keys && out.Keys == indexes.Keys
        invariant forall c <- out :: IndexFits(out[c], if c in pending then rows else rows - {k}, c)
        decreases |pending|
      {
        var c :| c in pending;
        RemoveFits(out[c], rows, c, k);
        out := out[c := RemoveFromIndex(out[c], BucketOf(rows[k], c), k)];
        pending := pending - {c};
      }
    }

    // --------------------------------------------------------------- insert

    /** The in-place filter of the live keys. */
    static method FilterLive(order: seq<Key>, rows: map<Key, Row>) returns (live: seq<Key>)
      ensures live == Keep(order, rows.Keys)
    {
      live := [];
      for i := 0 to |order|
        invariant live == Keep(order[..i], rows.Keys)
      {
        assert order[..i + 1][..i] == order[..i];
        if order[i] in rows {
          live := live + [order[i]];
        }
      }
      assert order[..|order|] == order;
    }

    method Squeeze()
      requires Almost(S())
      modifies `order, `dead, `fast, `colPos, `fastPos, `fastDead
      ensures Squeezed(old(S()), S())
    {
      hide Keep, OrderFits, RowsFit, IndexesFit, ColumnsFit, FastSafe, HasColumn, Rebuilt;
      CompactFits(order, rows, dead);
      DistinctNames(columns);
      order := FilterLive(order, rows);
      dead := 0;
      if |fast| > 0 {
        RebuildFast();
      }
    }

    /** Drops tombstones before appending, so that a reused key has one place. */
    method Reclaim()
      requires Core(S())
      modifies `order, `dead, `fast, `colPos, `fastPos, `fastDead
      ensures Reclaimed(old(S()), S())
    {
      hide OrderFits, Dense, RowsFit, IndexesFit, ColumnsFit, FastSafe, HasColumn, Squeezed;
      LiveCount(order, rows, dead);
      if dead > 0 {
        Squeeze();
      }
    }

    /** One row under a key that is not in use. */
    method InsertNew(key: Key, row: Row)
      requires Core(S()) && dead == 0 && key !in rows && RowFits(columns, key, row)
      modifies this
      ensures autoKey == old(autoKey)
      ensures exists idx :: InsertedWith(old(S()), S(), key, row, idx)
    {
      hide OrderFits, Dense, RowsFit, RowFits, IndexesFit, ColumnsFit, FastSafe, HasColumn, Appended, Keep;
      ghost var s := S();
      DistinctNames(columns);
      OrderAppend(order, rows, key, row);
      indexes := AddToIndexes(indexes, key, row, rows);
      rows := rows[key := row];
      order := order + [key];
      AppendFast(key, row);
      assert InsertedWith(s, S(), key, row, indexes);
    }

    /** One row over an existing one: it keeps its place. */
    method ReplaceRow(key: Key, row: Row)
      requires Core(S()) && key in rows
      modifies `rows, `indexes, `fast
      ensures exists idx :: ReplacedWith(old(S()), S(), key, row, idx)
    {
      hide OrderFits, Dense, RowsFit, IndexesFit, ColumnsFit, HasColumn, PositionsFit, Project;
      ghost var s := S();
      var bare := RemoveFromIndexes(indexes, key, rows);
      assert (rows - {key})[key := row] == rows[key := row];
      indexes := AddToIndexes(bare, key, row, rows - {key});
      rows := rows[key := row];
      if |fast| != 0 && key in fastPos {
        fast := fast[fastPos[key] := fast[fastPos[key]].(values := Project(columns, row))];
      }
      assert ReplacedWith(s, S(), key, row, indexes);
    }

    /** The duplicate-key policy of a plain INSERT. */
    static method CheckDuplicates(rows: map<Key, Row>, items: seq<InsertRow>) returns (ok: bool)
      ensures ok <==> NoClash(rows, items)
    {
      var batch: set<Key> := {};
      for i := 0 to |items|
        invariant forall k :: k in batch <==> exists j :: 0 <= j < i && items[j].key == k && k != ""
        invariant NoClash(rows, items[..i])
      {
        var key := items[i].key;
        assert items[..i + 1] == items[..i] + [items[i]];
        if key != "" {
          if key in rows {
            assert !NoClash(rows, items);
            return false;
          }
          if key in batch {
            assert !NoClash(rows, items);
            return false;
          }
          batch := batch + {key};
        }
      }
      assert items[..|items|] == items;
      return true;
    }

    /** The next synthetic key that no row uses; the search ends because the rows are finitely many. */
    method NextSyntheticKey() returns (key: Key)
      modifies `autoKey
      ensures key !in rows && key != "" && exists n :: key == SyntheticKey(n)
    {
      ghost var left := rows.Keys;
      while true
        invariant forall n :: n >= autoKey && SyntheticKey(n) in rows ==> SyntheticKey(n) in left
        decreases |left|
      {
        key := SyntheticKey(autoKey);
        autoKey := autoKey + 1;
        if key !in rows {
          return;
        }
        forall n | n >= autoKey && SyntheticKey(n) in rows
          ensures SyntheticKey(n) != key
        {
          SyntheticInjective(n, autoKey - 1);
        }
        left := left - {key};
      }
    }

    /** One row of a batch, upserted or appended. `from` is the state the batch started in. */
    method PutOne(key: Key, row: Row, replace: bool, ghost from: State, ghost n: nat, ghost tracked: bool)
      requires Core(S()) && dead == 0 && RowFits(columns, key, row) && (replace || key !in rows) && key != ""
      requires tracked ==> Batch(from, S(), n)
      modifies this
      ensures Core(S()) && dead == 0 && View(S()) == Put(old(View(S())), key, row)
      ensures tracked ==> Batch(from, S(), if key in old(rows) then n else n + 1)
      ensures (old(Tall(S())) ==> Tall(S())) && Built(old(S()), S())
      ensures autoKey == old(autoKey)
    {
      hide Core, RowFits, IndexesFit, Appended, Batch, View, WithRow, WithRowReplaced;
      ghost var s := S();
      if replace && key in rows {
        ReplaceRow(key, row);
        ghost var idx :| ReplacedWith(s, S(), key, row, idx);
        ReplaceKeeps(s, key, row, idx);
        assert |fast| == |s.fast|;
        if tracked { BatchReplace(from, s, n, key, row, idx); }
      } else {
        InsertNew(key, row);
        ghost var idx :| InsertedWith(s, S(), key, row, idx);
        InsertCore(s, key, row, idx);
        AppendedCore(WithRow(s, key, row, idx), S(), key, row);
        assert dead == 0 by { AppendedDead(WithRow(s, key, row, idx), S(), key, row); WithRowDead(s, key, row, idx); }
        WithRowParts(s, key, row, idx, S());
        if tracked { BatchAppend(from, s, n, key, row, idx, S()); }
      }
    }

    /** The next row of a batch. */
    method InsertItem(items: seq<InsertRow>, i: nat, replace: bool, ghost b: BatchRun, ghost keyed: seq<InsertRow>)
      returns (ghost key: Key)
      requires i < |items| && Progress(b, items, i, keyed, S())
      requires (replace || NoClash(b.start.rows, items)) && AllFit(b.start.columns, items)
      modifies this
      ensures Progress(b, items, i + 1, keyed + [InsertRow(key, items[i].row)], S())
    {
      hide Core, FastOK, View, Batch, Stale, NoClash, ItemFits, PutAll, NewPlaces, Filled, AllFit;
      ViewParts(S());
      var k := items[i].key;
      if k == "" {
        k := NextSyntheticKey();
      }
      key := k;
      KeyIsUsable(b.start, items, keyed, i, k, replace);
      FillOneFits(b.start, items, keyed, i, k);
      PutOne(k, items[i].row, replace, b.from, NewPlaces(b.start, keyed), b.tracked);
      ViewParts(S());
    }

    /** The tail of INSERT and INSERT OR REPLACE. */
    method ApplyInsertRows(items: seq<InsertRow>, replace: bool) returns (res: Result<nat>, ghost keyed: seq<InsertRow>)
      requires Core(S()) && AllFit(columns, items)
      modifies this
      ensures res.Err? <==> !replace && !NoClash(old(rows), items)
      ensures res.Err? ==> S() == old(S())
      ensures res.Ok? ==> res.value == |items| && Filled(old(View(S())), items, keyed)
      ensures res.Ok? ==> Core(S()) && View(S()) == PutAll(old(View(S())), keyed)
      ensures res.Ok? && old(FastOK(S())) ==> (FastOK(S()) <==> !Outdated(old(S()), NewPlaces(old(View(S())), keyed)))
      ensures old(Tall(S())) ==> Tall(S())
      ensures res.Ok? ==> dead == 0 && (old(dead) == 0 ==> Built(old(S()), S()))
    {
      hide Core, FastOK, View, Reclaimed, Progress, NoClash, PutAll, NewPlaces, Filled, AllFit, Outdated;
      keyed := [];
      if !replace {
        var ok := CheckDuplicates(rows, items);
        if !ok {
          return Err("duplicate primary key"), keyed;
        }
      }
      ghost var s := S();
      ViewParts(s);
      Reclaim();
      ghost var b := BatchRun(View(s), S(), FastOK(s));
      StartBatch(s, S(), items);
      for i := 0 to |items|
        invariant |keyed| == i && Progress(b, items, i, keyed, S())
      {
        ghost var key := InsertItem(items, i, replace, b, keyed);
        keyed := keyed + [InsertRow(key, items[i].row)];
      }
      EndBatch(s, b, items, keyed, S());
      return Ok(|items|), keyed;
    }

    // --------------------------------------------------------------- delete

    method Thin()
      requires OrderFits(order, rows, dead) && NamesDistinct(columns)
      modifies `fast, `colPos, `fastPos, `fastDead
      ensures Thinned(old(S()), S())
    {
      hide OrderFits, NamesDistinct, Rebuilt;
      if |fast| > 0 && fastDead * 4 >= |fast| + fastDead {
        RebuildFast();
      }
    }

    method CompactOrder()
      requires Almost(S())
      modifies `order, `dead, `fast, `colPos, `fastPos, `fastDead
      ensures Compacted(old(S()), S())
    {
      hide Almost, Squeezed;
      if |order| == 0 {
        dead := 0;
        return;
      }
      if dead * 4 < |order| {
        return;
      }
      Squeeze();
    }

    /** DELETE by primary key: the row goes, a tombstone stays. */
    method DeleteByKey(k: Key) returns (affected: nat)
      requires Core(S())
      modifies `rows, `indexes, `order, `dead, `fast, `colPos, `fastPos, `fastDead
      ensures Core(S()) && View(S()) == Without(old(View(S())), {k})
      ensures affected == if k in old(rows) then 1 else 0
      ensures old(FastOK(S())) ==> FastOK(S())
      ensures old(Tall(S())) ==> Tall(S())
      ensures k in old(rows) && 0 < |old(order)| && 4 * (old(dead) + 1) < |old(order)| ==>
              order == old(order) && dead == old(dead) + 1
    {
      hide OrderFits, Dense, RowsFit, IndexesFit, ColumnsFit, FastSafe, HasColumn, FastOK, View, Removed, Compacted,
        Thinned, Without, Rebuilt;
      ghost var s0 := S();
      if k !in rows {
        WithoutNothing(s0, k);
        return 0;
      }
      indexes := RemoveFromIndexes(indexes, k, rows);
      rows := rows - {k};
      dead := dead + 1;
      ghost var idx := indexes;
      RemoveFast(k);
      ghost var s1 := S();
      DeleteStep(s0, k, idx, s1);
      CompactOrder();
      ghost var s2 := S();
      CompactKeeps(s1, s2);
      DistinctNames(columns);
      Thin();
      ThinKeeps(s2, S());
      DeletedTall(s0, k, idx, s1, s2, S());
      return 1;
    }

    /** Takes one row out while a scan DELETE is filtering the order; `d` counts the tombstones. */
    method DeleteDuringScan(k: Key, ghost d: int)
      requires Almost(S().(dead := d)) && k in rows
      modifies `rows, `indexes, `fast, `colPos, `fastPos, `fastDead
      ensures Almost(S().(dead := d + 1)) && View(S()) == Without(old(View(S())), {k}) && rows == old(rows) - {k}
      ensures |order| >= THRESHOLD || old(fast) == [] ==> |fast| == |old(fast)|
      ensures old(FastOK(S())) ==> FastOK(S())
    {
      hide OrderFits, RowsFit, IndexesFit, ColumnsFit, FastSafe, HasColumn, Removed;
      ghost var s := S();
      indexes := RemoveFromIndexes(indexes, k, rows);
      rows := rows - {k};
      ghost var m := S();
      RemoveFast(k);
      RemovedAnyDead(m, S(), k, d + 1);
      RemovedLength(m, S(), k);
      DeleteStep(s.(dead := d), k, m.indexes, S().(dead := d + 1));
      FastOKAnyDead(s, d);
      FastOKAnyDead(S(), d + 1);
    }

    /** DELETE by scan: the matching rows go and the order is filtered in place. */
    method DeleteScan(matches: Row -> bool) returns (affected: nat)
      requires Core(S())
      modifies `rows, `indexes, `order, `dead, `fast, `colPos, `fastPos, `fastDead
      ensures Core(S()) && dead == 0 && View(S()) == Without(old(View(S())), Matching(old(rows), matches))
      ensures affected == |Matching(old(rows), matches)|
      ensures old(FastOK(S())) ==> FastOK(S())
      ensures old(FastOK(S()) && Tall(S())) ==> (Tall(S()) <==> !LeavesShort(old(S()), |Matching(old(rows), matches)|))
    {
      hide Core, Almost, FastOK, View, Without, Matching, Thinned, Tall, LeavesShort, Scanning, OrderFits, ColumnsFit;
      ghost var s0 := S();
      ghost var d, doomed: set<Key> := dead, {};
      affected := 0;
      var remaining: seq<Key> := [];
      StartScan(s0, matches);
      for i := 0 to |order|
        invariant order == s0.order && dead == s0.dead && affected == |doomed|
        invariant Scanning(s0, S(), d, doomed, i, matches, remaining)
      {
        var k := order[i];
        ghost var s := S();
        ScanSees(s0, s, d, doomed, i, matches, remaining);
        if k in rows && matches(rows[k]) {
          DeleteDuringScan(k, d);
          ScanDeletes(s0, s, d, doomed, i, matches, remaining, S());
          d, doomed, affected := d + 1, doomed + {k}, affected + 1;
        } else if k in rows {
          remaining := remaining + [k];
        }
      }
      FilteredFits(s0, S(), d, doomed, matches, remaining);
      order := remaining;
      dead := 0;
      ghost var s2 := S();
      Thin();
      ThinKeeps(s2, S());
      if FastOK(s0) && Tall(s0) { ShortIff(s0, s2, S(), doomed); }
    }

    // --------------------------------------------------------------- update

    static method AddIndexValue(indexes: map<string, Index>, column: string, value: string, k: Key)
      returns (out: map<string, Index>)
      ensures out == if column in indexes then indexes[column := AddToIndex(indexes[column], value, k)] else indexes
    {
      out := indexes;
      if column in indexes {
        var bucket := if value in indexes[column] then indexes[column][value] else {};
        out := indexes[column := indexes[column][value := bucket + {k}]];
      }
    }

    static method RemoveIndexValue(indexes: map<string, Index>, column: string, value: string, k: Key)
      returns (out: map<string, Index>)
      ensures out == if column in indexes then indexes[column := RemoveFromIndex(indexes[column], value, k)]
              else indexes
    {
      out := indexes;
      if column in indexes && value in indexes[column] {
        var less := indexes[column][value] - {k};
        out := indexes[column := if less == {} then indexes[column] - {value} else indexes[column][value := less]];
      } else if column in indexes {
        assert indexes[column := indexes[column]] == indexes;
      }
    }

    static method MoveInIndexes(indexes: map<string, Index>, column: string, from: string, to: string, k: Key)
      returns (out: map<string, Index>)
      ensures out == MovedInIndexes(indexes, column, from, to, k)
    {
      hide AddToIndex, RemoveFromIndex;
      var bare := RemoveIndexValue(indexes, column, from, k);
      out := AddIndexValue(bare, column, to, k);
    }

    /** One column of one row, its index and its fast entry. */
    method WriteColumn(k: Key, column: string, v: Value)
      requires k in rows && FastSafe(columns, fast, fastPos, colPos)
      modifies `rows, `indexes, `fast
      ensures S() == Written(old(S()), k, column, v) && |fast| == |old(fast)|
    {
      hide MovedInIndexes, ValueKey, BucketOf;
      indexes := MoveInIndexes(indexes, column, BucketOf(rows[k], column), ValueKey(v), k);
      rows := rows[k := rows[k][column := v]];
      if |fast| != 0 && column in colPos && k in fastPos {
        assert colPos[column] < |columns|;
        var e := fast[fastPos[k]];
        fast := fast[fastPos[k] := e.(values := e.values[colPos[column] := v])];
      }
    }

    /** One row of an UPDATE. */
    method UpdateRow(k: Key, i: nat, v: Value)
      requires Core(S()) && k in rows && Writable(columns, k, i, v)
      modifies `rows, `indexes, `fast
      ensures Core(S()) && View(S()) == WithColumn(old(View(S())), {k}, columns[i].name, v)
      ensures old(FastOK(S())) ==> FastOK(S())
      ensures |fast| == |old(fast)|
    {
      hide FastOK, View, WithColumn, Written, OrderFits, Dense, RowsFit, IndexesFit, ColumnsFit, HasColumn, FastSafe;
      ghost var s := S();
      WriteColumn(k, columns[i].name, v);
      WriteKeeps(s, k, i, v);
    }

    /** UPDATE of an ordinary column by primary key. */
    method UpdateByKey(k: Key, i: nat, v: Value) returns (affected: nat)
      requires Core(S()) && i < |columns| && HasType(v, columns[i].typ) && columns[i].name != Primary(columns)
      modifies `rows, `indexes, `fast
      ensures Core(S()) && View(S()) == WithColumn(old(View(S())), {k}, columns[i].name, v)
      ensures affected == if k in old(rows) then 1 else 0
      ensures old(FastOK(S())) ==> FastOK(S())
      ensures |fast| == |old(fast)|
    {
      hide FastOK, View, WithColumn, Core;
      if k in rows {
        UpdateRow(k, i, v);
        return 1;
      }
      WriteNothing(S(), k, columns[i].name, v);
      return 0;
    }

    /** UPDATE of an ordinary column by scan, rows in any order. */
    method UpdateScan(matches: Row -> bool, i: nat, v: Value) returns (affected: nat)
      requires Core(S()) && i < |columns| && HasType(v, columns[i].typ) && columns[i].name != Primary(columns)
      modifies `rows, `indexes, `fast
      ensures Core(S()) && View(S()) == WithColumn(old(View(S())), Matching(old(rows), matches), columns[i].name, v)
      ensures affected == |Matching(old(rows), matches)|
      ensures old(FastOK(S())) ==> FastOK(S())
      ensures |fast| == |old(fast)|
    {
      hide FastOK, View, Core, WithColumn, Primary, HasType;
      ghost var s, ok, hits: set<Key> := S(), FastOK(S()), {};
      var pending, column := rows.Keys, columns[i].name;
      affected := 0;
      WriteNobody(s, column, v);
      while pending != {}
        invariant Core(S()) && pending <= s.rows.Keys && |fast| == |s.fast|
        invariant View(S()) == WithColumn(View(s), hits, column, v) && (ok ==> FastOK(S()))
        invariant forall k :: k in hits <==> k in s.rows && k !in pending && matches(s.rows[k])
        invariant affected == |hits|
        decreases |pending|
      {
        var k :| k in pending;
        StillThere(s, S(), hits, k, column, v);
        if matches(rows[k]) {
          WriteMore(s, S(), hits, k, column, v);
          UpdateRow(k, i, v);
          hits, affected := hits + {k}, affected + 1;
        }
        pending := pending - {k};
      }
      assert hits == Matching(s.rows, matches);
    }

    /** The in-place steps that move a row to a free key. */
    method MoveRow(k: Key, to: Key, pk: string, v: Value)
      requires Core(S()) && k in rows && to !in rows && to == ValueKey(v) && pk == Primary(columns)
      modifies `rows, `indexes, `fast, `order, `fastPos
      ensures exists idx :: MovedWith(old(S()), S(), k, v, idx)
      ensures |fast| == |old(fast)| && |order| == |old(order)|
    {
      hide OrderFits, Dense, RowsFit, IndexesFit, ColumnsFit, HasColumn, FastSafe, ReplaceFirst, ValueKey, Primary,
           RekeyedFast, RekeyedPos;
      ghost var s := S();
      var bare := RemoveFromIndexes(indexes, k, rows);
      var row := rows[k][pk := v];
      indexes := AddToIndexes(bare, to, row, rows - {k});
      rows := (rows - {k})[to := row];
      order := ReplaceInOrder(order, k, to);
      ghost var m := S();
      RekeyEntry(k, to, v);
      SameEntry(s, m, k, to, v);
      assert MovedWith(s, S(), k, v, indexes);
    }

    /** UPDATE of the primary column on one row. The new key is looked for among the rows only. */
    method RekeyPrimary(k: Key, i: nat, v: Value) returns (res: Result<nat>)
      requires Core(S()) && k in rows && i < |columns| && HasType(v, columns[i].typ)
               && columns[i].name == Primary(columns)
      modifies `rows, `indexes, `fast, `order, `fastPos
      ensures res.Err? <==> ValueKey(v) != k && ValueKey(v) in old(rows)
      ensures res.Err? ==> S() == old(S())
      ensures res.Ok? ==> res.value == 1 && RekeyOutcome(old(S()), S(), k, v)
      ensures res.Ok? && ValueKey(v) != k ==>
                order == ReplaceFirst(old(order), k, ValueKey(v)) && rows.Keys == old(rows).Keys - {k} + {ValueKey(v)}
    {
      hide FastOK, View, Core, ValueKey, Primary, Rekeyed, RekeyedContent, RekeyedRow, IndexesFit, HasType, WithColumn;
      ghost var s := S();
      var to, pk := ValueKey(v), columns[i].name;
      if to == k {
        UpdateRow(k, i, v);
        RekeyInPlace(s, S(), k, i, v);
        if FastOK(s) { NoEmptyKey(s, k); }
        return Ok(1);
      }
      if to in rows {
        return Err("duplicate primary key");
      }
      MoveRow(k, to, pk, v);
      ghost var idx :| MovedWith(s, S(), k, v, idx);
      RekeyCoreIff(s, k, v, idx, i);
      RekeyedContentIs(s, k, v);
      RekeyedOrder(s, k, v, idx);
      return Ok(1);
    }

    static method ReplaceInOrder(order: seq<Key>, from: Key, to: Key) returns (out: seq<Key>)
      ensures out == ReplaceFirst(order, from, to) && |out| == |order|
    {
      for i := 0 to |order|
        invariant from !in order[..i]
      {
        if order[i] == from {
          ReplaceFirstIs(order, i, from, to);
          return order[i := to];
        }
        assert order[..i + 1] == order[..i] + [order[i]];
      }
      assert order[..|order|] == order;
      ReplaceFirstNone(order, from, to);
      return order;
    }

    /** The array entry, if there is one, moves to the new key with the new value. */
    method RekeyEntry(k: Key, to: Key, v: Value)
      requires FastSafe(columns, fast, fastPos, colPos)
      modifies `fast, `fastPos
      ensures fast == RekeyedFast(old(S()), k, to, v) && fastPos == RekeyedPos(old(S()), k, to)
      ensures |fast| == |old(fast)|
    {
      hide PositionsFit, Primary;
      if |fast| != 0 && k in fastPos {
        var j := fastPos[k];
        var values, pk := fast[j].values, Primary(columns);
        fastPos := (fastPos - {k})[to := j];
        if pk in colPos && colPos[pk] < |values| {
          values := values[colPos[pk] := v];
        }
        fast := fast[j := FastRow(to, values)];
      }
    }

    /** UPDATE of the primary column by scan: at most one row may match. */
    method UpdatePrimaryScan(matches: Row -> bool, i: nat, v: Value) returns (res: Result<nat>)
      requires Core(S()) && i < |columns| && HasType(v, columns[i].typ) && columns[i].name == Primary(columns)
      modifies `rows, `indexes, `fast, `order, `fastPos
      ensures res.Err? ==> S() == old(S())
      ensures res == Ok(0) ==> S() == old(S())
      ensures Matching(old(rows), matches) == {} <==> res == Ok(0)
      ensures res.Ok? && res.value > 0 ==>
              exists k :: Matching(old(rows), matches) == {k} && RekeyOutcome(old(S()), S(), k, v)
      ensures res.Err? <==> |Matching(old(rows), matches)| > 1
                            || exists k ::
                                 Matching(old(rows), matches) == {k} && ValueKey(v) != k && ValueKey(v) in old(rows)
    {
      var keys: seq<Key>, pending := [], rows.Keys;
      while pending != {}
        invariant pending <= rows.Keys && NoDup(keys)
        invariant forall k :: k in keys <==> k in rows && k !in pending && matches(rows[k])
        decreases |pending|
      {
        var k :| k in pending;
        if matches(rows[k]) {
          keys := keys + [k];
        }
        pending := pending - {k};
      }
      MatchingKeys(rows, matches, keys);
      hide Core, FastOK, View, RekeyOutcome, Matching, ValueKey, HasType, Primary;
      if |keys| == 0 {
        return Ok(0);
      }
      if |keys| > 1 {
        return Err("duplicate primary key");
      }
      if ValueKey(v) in rows && ValueKey(v) != keys[0] {
        return Err("duplicate primary key");
      }
      ghost var k := keys[0];
      assert Matching(rows, matches) == {k};
      res := RekeyPrimary(keys[0], i, v);
    }

    // --------------------------------------------------------------- schema

    /** The buckets of a new index, rows in any order. */
    static method BuildIndex(rows: map<Key, Row>, column: string) returns (idx: Index)
      ensures IndexFits(idx, rows, column)
    {
      hide AddToIndex, BucketOf;
      idx := map[];
      var pending, done: map<Key, Row> := rows.Keys, map[];
      while pending != {}
        invariant pending <= rows.Keys && done == rows - pending && IndexFits(idx, done, column)
        decreases |pending|
      {
        var k :| k in pending;
        AddFits(idx, done, column, k, rows[k]);
        idx := AddToIndex(idx, BucketOf(rows[k], column), k);
        done := done[k := rows[k]];
        pending := pending - {k};
      }
      assert done == rows;
    }

    method CreateIndex(name: string, column: string) returns (ok: bool)
      requires Core(S())
      modifies `indexes, `indexNames
      ensures ok <==> HasColumn(columns, column) && column !in old(indexes) && name !in old(indexNames)
      ensures Core(S()) && (old(FastOK(S())) ==> FastOK(S()))
      ensures View(S()) == if ok then Indexed(old(View(S())), name, column) else old(View(S()))
      ensures !ok ==> S() == old(S())
    {
      hide OrderFits, Dense, RowsFit, IndexFits, ColumnsFit, FastSafe, FastAgrees, Keep;
      if !HasColumn(columns, column) || column in indexes || name in indexNames {
        return false;
      }
      var idx := BuildIndex(rows, column);
      indexes := indexes[column := idx];
      indexNames := indexNames[name := column];
      return true;
    }

    /** DROP INDEX by name, or by column when the name is not recorded. */
    method DropIndex(name: string) returns (ok: bool)
      requires Core(S())
      modifies `indexes, `indexNames
      ensures ok <==> name in old(indexNames) || name in old(indexes)
      ensures Core(S()) && (old(FastOK(S())) ==> FastOK(S()))
      ensures View(S()) == if ok then Unindexed(old(View(S())), IndexColumn(old(View(S())), name)) else old(View(S()))
      ensures !ok ==> S() == old(S())
    {
      hide OrderFits, Dense, RowsFit, IndexFits, ColumnsFit, FastSafe, FastAgrees, Keep, HasColumn;
      var column := name;
      if name in indexNames {
        column := indexNames[name];
      } else if name !in indexes {
        return false;
      }
      indexes := indexes - {column};
      indexNames := NamesWithout(indexNames, column);
      return true;
    }

    method AddColumn(name: string, typ: Type) returns (ok: bool)
      requires Core(S())
      modifies `columns, `rows, `fast, `colPos, `fastPos, `fastDead
      ensures ok <==> name != "" && !HasColumn(old(columns), name)
      ensures Core(S()) && (old(FastOK(S())) ==> FastOK(S())) && (old(Tall(S())) ==> Tall(S()))
      ensures View(S()) == if ok then WidenedContent(old(View(S())), Column(name, typ, false)) else old(View(S()))
      ensures !ok ==> S() == old(S())
    {
      hide FastOK, View, OrderFits, Dense, RowsFit, IndexesFit, FastSafe, Rebuilt, WidenedContent, ColumnsFit;
      if name == "" || HasColumn(columns, name) {
        return false;
      }
      ghost var s := S();
      var c := Column(name, typ, false);
      WidenColumns(columns, c);
      WidenOrder(s, c);
      DistinctNames(columns + [c]);
      columns := columns + [c];
      rows := map k | k in rows :: rows[k][name := Null];
      ghost var m := S();
      if |fast| > 0 {
        RebuildFast();
        RebuiltParts(m, S());
      }
      WidenKeeps(s, c, S());
      return true;
    }

    method DropColumn(name: string) returns (ok: bool)
      requires Core(S())
      modifies `columns, `rows, `indexes, `indexNames, `fast, `colPos, `fastPos, `fastDead
      ensures ok <==> |old(columns)| > 1 && HasColumn(old(columns), name)
      ensures Core(S()) && (old(FastOK(S())) ==> FastOK(S())) && (old(Tall(S())) ==> Tall(S()))
      ensures !ok ==> S() == old(S())
      ensures ok ==> exists i ::
                && 0 <= i < |old(columns)| && old(columns)[i].name == name
                && View(S()) == NarrowedContent(old(View(S())), i)
    {
      hide FastOK, View, OrderFits, Dense, RowsFit, IndexesFit, FastSafe, Rebuilt, NarrowedContent, ColumnsFit,
        NarrowedColumns;
      if |columns| <= 1 {
        return false;
      }
      var i := FindColumn(columns, name);
      if i == |columns| {
        return false;
      }
      ghost var s := S();
      assert View(s).columns == s.columns by { ViewParts(s); }
      NarrowColumns(columns, i);
      NarrowOrder(s, i);
      DistinctNames(NarrowedColumns(columns, i));
      columns := NarrowedColumns(columns, i);
      rows := map k | k in rows :: rows[k] - {name};
      indexes := indexes - {name};
      indexNames := NamesWithout(indexNames, name);
      ghost var m := S();
      if |fast| > 0 {
        RebuildFast();
        RebuiltParts(m, S());
      }
      NarrowKeeps(s, i, S());
      return true;
    }

    static method FindColumn(columns: seq<Column>, name: string) returns (i: nat)
      ensures i <= |columns| && (i < |columns| ==> columns[i].name == name)
              && (i == |columns| ==> !HasColumn(columns, name))
    {
      i := 0;
      while i < |columns|
        invariant i <= |columns| && forall j :: 0 <= j < i ==> columns[j].name != name
      {
        if columns[i].name == name {
          return;
        }
        i := i + 1;
      }
    }

    method Truncate()
      requires Core(S())
      modifies this
      ensures Core(S()) && FastOK(S()) && View(S()) == old(View(S())).(live := [], rows := map[])
      ensures fast == []
    {
      hide Core, FastOK, View, Emptied;
      EmptiedFits(S());
      rows, order, indexes := map[], [], Emptied(indexes);
      fast, colPos, fastPos, dead, fastDead, autoKey := [], map[], map[], 0, 0, 0;
    }

    // -------------------------------------------------------------- restore

    /** The live keys of an image's order, each once. */
    static method RepairOrder(order: seq<Key>, rows: map<Key, Row>) returns (out: seq<Key>, seen: set<Key>)
      ensures NoDup(out) && (forall k :: k in out <==> k in seen) && seen <= rows.Keys
      ensures forall k :: k in order && k in rows ==> k in seen
      ensures NoDup(Keep(order, rows.Keys)) ==> out == Keep(order, rows.Keys)
    {
      hide Keep;
      KeepNothing(rows.Keys);
      out, seen := [], {};
      for i := 0 to |order|
        invariant NoDup(out) && (forall k :: k in out <==> k in seen) && seen <= rows.Keys
        invariant forall k :: k in order[..i] && k in rows ==> k in seen
        invariant NoDup(Keep(order[..i], rows.Keys)) ==> out == Keep(order[..i], rows.Keys)
      {
        var k := order[i];
        assert order[..i + 1] == order[..i] + [k];
        KeepSnoc(order[..i], k, rows.Keys);
        NoDupSnoc(Keep(order[..i], rows.Keys), k);
        assert Keep(order[..i], rows.Keys) + [] == Keep(order[..i], rows.Keys);
        if k in rows && k !in seen {
          seen := seen + {k};
          out := out + [k];
        }
      }
      assert order[..|order|] == order;
    }

    /** Rows that the order missed, attached at the end in any order. */
    static method AttachMissing(order: seq<Key>, seen: set<Key>, rows: map<Key, Row>) returns (out: seq<Key>)
      requires NoDup(order) && (forall k :: k in order <==> k in seen) && seen <= rows.Keys
      ensures order <= out && NoDup(out) && forall k :: k in out <==> k in rows
      ensures seen == rows.Keys ==> out == order
    {
      out := order;
      var pending := rows.Keys - seen;
      while pending != {}
        invariant pending <= rows.Keys && order <= out && NoDup(out)
                  && (forall k :: k in out <==> k in rows && k !in pending)
        invariant seen == rows.Keys ==> out == order && pending == {}
        decreases |pending|
      {
        var k :| k in pending;
        out := out + [k];
        pending := pending - {k};
      }
    }

    /** Exact buckets for every indexed column. */
    static method RebuildIndexes(columns: set<string>, rows: map<Key, Row>) returns (out: map<string, Index>)
      ensures out.Keys == columns && IndexesFit(out, rows)
    {
      hide IndexFits;
      out := map[];
      var pending := columns;
      while pending != {}
        invariant pending <= columns && out.Keys == columns - pending && IndexesFit(out, rows)
        decreases |pending|
      {
        var c :| c in pending;
        var idx := BuildIndex(rows, c);
        out := out[c := idx];
        pending := pending - {c};
      }
    }

    /** Loading an image: the order is repaired, indexes and the fast array are rebuilt. Nothing checks
        that a row belongs under its key, so the table is consistent exactly when the image was. */
    method Restore(image: Image)
      requires NamesDistinct(image.columns)
      modifies this
      ensures Loaded(image, S())
    {
      hide RowsFit, ColumnsFit, IndexesFit, FastOK, FastSafe, Keep, NoDup, Rebuilt;
      columns, rows, autoKey, indexNames := image.columns, image.rows, 0, image.names;
      var repaired, seen := RepairOrder(image.order, rows);
      order := AttachMissing(repaired, seen, rows);
      indexes := RebuildIndexes(image.indexed, rows);
      dead := 0;
      RestoredOrder(image.order, repaired, seen, order, rows);
      LiveCount(order, rows, 0);
      ghost var m := S();
      RebuildFast();
      RebuiltParts(m, S());
    }
  }

  /** A batch under way: the content it started from, the state after reclaiming, and whether the
      array was right then. */
  datatype BatchRun = BatchRun(start: Content, from: State, tracked: bool)

  predicate AllFit(columns: seq<Column>, items: seq<InsertRow>) {
    forall i :: 0 <= i < |items| ==> ItemFits(columns, items[i])
  }

  /** `i` items are in, as `keyed`. */
  ghost predicate Progress(b: BatchRun, items: seq<InsertRow>, i: nat, keyed: seq<InsertRow>, s: State) {
    && i <= |items| && Core(s) && s.dead == 0 && View(s) == PutAll(b.start, keyed) && s.columns == b.start.columns
    && (b.tracked ==> Batch(b.from, s, NewPlaces(b.start, keyed)))
    && Filled(b.start, items[..i], keyed) && (Tall(b.from) ==> Tall(s)) && Built(b.from, s)
  }

  /** Rows appended across the threshold build an array without holes, and keep one. */
  predicate Built(s: State, t: State) {
    |s.order| <= |t.order|
      && (|t.order| >= THRESHOLD && (|s.order| < THRESHOLD || |s.fast| == |s.order|) ==> |t.fast| == |t.order|)
  }

  /** The outcome of inserting one new row, with the indexes it left. */
  ghost predicate InsertedWith(s: State, t: State, key: Key, row: Row, indexes: map<string, Index>) {
    indexes.Keys == s.indexes.Keys && IndexesFit(indexes, s.rows[key := row])
      && Appended(WithRow(s, key, row, indexes), t, key, row)
  }

  ghost predicate ReplacedWith(s: State, t: State, key: Key, row: Row, indexes: map<string, Index>) {
    indexes.Keys == s.indexes.Keys && IndexesFit(indexes, s.rows[key := row])
      && t == WithRowReplaced(s, key, row, indexes)
  }

  // -------------------------------------------------------------- rebuilding

  lemma StartFresh(columns: seq<Column>, rows: map<Key, Row>)
    ensures Keep([], rows.Keys) == [] && EntriesFor([], columns, rows) == [] && Numbers(map[], [])
  {
  }

  lemma {:induction false} KeepPrefix(s: seq<Key>, i: nat, ks: set<Key>)
    requires i <= |s|
    ensures Keep(s[..i], ks) <= Keep(s, ks)
    decreases |s|
  {
    if i < |s| {
      KeepPrefix(s[..|s| - 1], i, ks);
      assert s[..|s| - 1][..i] == s[..i];
    } else {
      assert s[..i] == s;
    }
  }

  lemma PrefixNoDup(order: seq<Key>, i: nat, rows: map<Key, Row>, dead: int)
    requires OrderFits(order, rows, dead) && i <= |order|
    ensures NoDup(Keep(order[..i], rows.Keys))
  {
    KeepPrefix(order, i, rows.Keys);
  }

  lemma ExtendFresh(live: seq<Key>, key: Key, columns: seq<Column>, rows: map<Key, Row>, pos: map<Key, nat>)
    requires NoDup(live + [key]) && Numbers(pos, live)
    ensures EntriesFor(live + [key], columns, rows) == EntriesFor(live, columns, rows) + [EntryFor(key, columns, rows)]
    ensures Numbers(pos[key := |live|], live + [key])
  {
    hide EntryFor;
    var all := live + [key];
    assert forall i :: 0 <= i < |live| ==> all[i] == live[i] && all[i] != all[|live|];
  }

  lemma RebuildIsRight(s: State, colPos: map<string, nat>, pos: map<Key, nat>)
    requires OrderFits(s.order, s.rows, s.dead) && |s.order| >= THRESHOLD
    requires PositionsFit(s.columns, colPos) && Numbers(pos, Live(s))
    ensures Rebuilt(s, s.(fast := EntriesFor(Live(s), s.columns, s.rows), colPos := colPos, fastPos := pos,
                          fastDead := 0))
  {
    hide Keep, OrderFits, PositionsFit, FastAgrees, Project;
    LiveCount(s.order, s.rows, s.dead);
    if "" !in s.rows {
      FreshAgrees(s.columns, pos, Live(s), s.rows);
    } else {
      EmptyKeyDisagrees(s.(fast := EntriesFor(Live(s), s.columns, s.rows), colPos := colPos, fastPos := pos,
                           fastDead := 0));
    }
  }

  lemma DropIsRight(s: State)
    requires |s.order| < THRESHOLD
    ensures Rebuilt(s, s.(fast := [], colPos := map[], fastPos := map[], fastDead := 0))
  {
  }

  lemma WithRowDead(s: State, key: Key, row: Row, indexes: map<string, Index>)
    ensures WithRow(s, key, row, indexes).dead == s.dead
  {
  }

  lemma AppendedDead(s: State, t: State, key: Key, row: Row)
    requires Appended(s, t, key, row)
    ensures t.dead == s.dead
  {
  }

  lemma WithRowParts(s: State, key: Key, row: Row, indexes: map<string, Index>, t: State)
    requires Appended(WithRow(s, key, row, indexes), t, key, row) && Core(t) && t.dead == 0
    ensures (Tall(s) ==> Tall(t)) && Built(s, t)
  {
    hide FastSafe, FastOK, Project, RowsFit, IndexesFit, ColumnsFit, HasColumn, Dense, OrderFits, Keep;
    LiveCount(t.order, t.rows, 0);
  }

  lemma SyntheticInjective(m: nat, n: nat)
    ensures SyntheticKey(m) == SyntheticKey(n) ==> m == n
  {
    assert SyntheticKey(m)[1..] == Digits(m) && SyntheticKey(n)[1..] == Digits(n);
    DigitsRoundTrip(m);
    DigitsRoundTrip(n);
  }

  lemma ViewParts(s: State)
    ensures View(s).columns == s.columns && View(s).rows == s.rows
  {
  }

  lemma StartBatch(s: State, from: State, items: seq<InsertRow>)
    requires Core(s) && Reclaimed(s, from)
    ensures Progress(BatchRun(View(s), from, FastOK(s)), items, 0, [], from)
  {
    hide Core, FastOK, Reclaimed;
    ReclaimKeeps(s, from);
    ViewParts(s);
    ViewParts(from);
    if FastOK(s) { StartTracking(from); }
  }

  lemma StartTracking(from: State)
    requires Core(from) && FastOK(from) && from.dead == 0
    ensures Batch(from, from, 0)
  {
    hide Keep, FastKeys, FastAgrees, OrderFits, Dense, RowsFit, IndexesFit, ColumnsFit, HasColumn, FastSafe;
    if from.fast != [] { EmptyKeyDisagrees(from); }
  }

  lemma EndBatch(s: State, b: BatchRun, items: seq<InsertRow>, keyed: seq<InsertRow>, t: State)
    requires Core(s) && Reclaimed(s, b.from) && b.start == View(s) && b.tracked == FastOK(s)
    requires Progress(b, items, |items|, keyed, t)
    ensures Filled(View(s), items, keyed) && Core(t) && View(t) == PutAll(View(s), keyed)
    ensures FastOK(s) ==> (FastOK(t) <==> !Outdated(s, NewPlaces(View(s), keyed)))
    ensures (Tall(s) ==> Tall(t)) && t.dead == 0 && (s.dead == 0 ==> Built(s, t))
  {
    hide Core, FastOK, View, Batch, Stale, Exposes, PutAll, NewPlaces, Filled, Outdated, Squeezed;
    if s.dead != 0 { SqueezedTall(s, b.from); }
    assert items[..|items|] == items;
    var n := NewPlaces(b.start, keyed);
    if b.tracked {
      ReclaimedStale(s, b.from, n);
      BatchFastIff(b.from, t, n);
    }
  }

  /** A reclaimed table has no array below the threshold, so only a table without tombstones can be left
      behind by an append; a row under the empty key spoils any array. */
  lemma ReclaimedStale(s: State, from: State, n: nat)
    requires Core(s) && Reclaimed(s, from)
    ensures Stale(from, n) || Exposes(from, n) <==> Outdated(s, n)
  {
    hide Core, Reclaimed, FastOK, Keep;
    ReclaimKeeps(s, from);
    if s.dead == 0 { ReclaimedSame(s, from); }
    DeadCount(s);
  }

  lemma SqueezedTall(s: State, t: State)
    requires Squeezed(s, t)
    ensures Tall(t)
  {
    hide FastSafe, FastOK;
  }

  lemma ReclaimedSame(s: State, from: State)
    requires Reclaimed(s, from) && s.dead == 0
    ensures from == s
  {
  }

  lemma DeadCount(s: State)
    requires Core(s)
    ensures s.dead >= 0
  {
    LiveCount(s.order, s.rows, s.dead);
  }

  /** A row fits any key when there is no primary column. */
  lemma RowFitsAnyKey(columns: seq<Column>, k: Key, l: Key, row: Row)
    requires RowFits(columns, k, row) && Primary(columns) == ""
    ensures RowFits(columns, l, row)
  {
  }

  lemma {:induction false} PutAllKeys(c: Content, items: seq<InsertRow>)
    ensures PutAll(c, items).columns == c.columns
    ensures forall k :: k in PutAll(c, items).rows <==> k in c.rows || exists j :: 0 <= j < |items| && items[j].key == k
  {
    if items != [] {
      var n := |items| - 1;
      PutAllKeys(c, items[..n]);
      forall k
        ensures k in PutAll(c, items).rows <==> k in c.rows || exists j :: 0 <= j < |items| && items[j].key == k
      {
        if j :| 0 <= j < n && items[..n][j].key == k { assert items[j].key == k; }
        if j :| 0 <= j < |items| && items[j].key == k && j < n { assert items[..n][j].key == k; }
        assert k == items[n].key ==> items[n].key == k;
      }
    }
  }

  /** The key a row is put under fits it, and without REPLACE it is not in use. */
  lemma KeyIsUsable(c: Content, items: seq<InsertRow>, keyed: seq<InsertRow>, i: nat, key: Key, replace: bool)
    requires i < |items| && Filled(c, items[..i], keyed)
    requires (replace || NoClash(c.rows, items)) && AllFit(c.columns, items)
    requires if items[i].key == "" then key !in PutAll(c, keyed).rows && key != "" else key == items[i].key
    ensures RowFits(c.columns, key, items[i].row) && key != ""
    ensures replace || key !in PutAll(c, keyed).rows
  {
    hide PutAll, RowFits, Primary;
    assert ItemFits(c.columns, items[i]);
    if items[i].key == "" {
      RowFitsAnyKey(c.columns, items[i].key, key, items[i].row);
    } else if !replace {
      PutAllKeys(c, keyed);
      forall j | 0 <= j < i
        ensures keyed[j].key != key
      {
        assert items[..i][j] == items[j] && ItemFits(c.columns, items[j]);
        assert items[j].key != items[i].key;
      }
    }
  }

  /** The batch so far with one more row. */
  lemma FillOneFits(c: Content, items: seq<InsertRow>, keyed: seq<InsertRow>, i: nat, key: Key)
    requires i < |items| && Filled(c, items[..i], keyed)
    requires key != "" && (if items[i].key == "" then key !in PutAll(c, keyed).rows else key == items[i].key)
    ensures var more := keyed + [InsertRow(key, items[i].row)];
            && Filled(c, items[..i + 1], more) && PutAll(c, more).columns == c.columns
              && PutAll(c, more) == Put(PutAll(c, keyed), key, items[i].row)
            && NewPlaces(c, more) == NewPlaces(c, keyed) + if key in PutAll(c, keyed).rows then 0 else 1
  {
    var more := keyed + [InsertRow(key, items[i].row)];
    PutAllKeys(c, more);
    assert more[..|keyed|] == keyed;
    FilledSnoc(c, items, keyed, i, key);
  }

  lemma FilledSnoc(c: Content, items: seq<InsertRow>, keyed: seq<InsertRow>, i: nat, key: Key)
    requires i < |items| && Filled(c, items[..i], keyed)
    requires key != "" && (if items[i].key == "" then key !in PutAll(c, keyed).rows else key == items[i].key)
    ensures Filled(c, items[..i + 1], keyed + [InsertRow(key, items[i].row)])
  {
    hide PutAll;
    var first, all, more := items[..i], items[..i + 1], keyed + [InsertRow(key, items[i].row)];
    assert more[..i] == keyed;
    forall j | 0 <= j < i ensures more[j] == keyed[j] && more[..j] == keyed[..j] && all[j] == first[j] {}
  }

  // ---------------------------------------------------------------- deleting

  function Matching(rows: map<Key, Row>, matches: Row -> bool): set<Key> {
    set k | k in rows && matches(rows[k])
  }

  /** A scan DELETE of `n` rows leaves an array behind with fewer than 256 keys in the order: holes are
      still below a quarter, so it is not rebuilt away. */
  predicate LeavesShort(s: State, n: nat) {
    s.fast != [] && |s.rows| - n < THRESHOLD && 3 * (s.fastDead + n) < |s.fast|
  }

  lemma ShortIff(s: State, m: State, t: State, doomed: set<Key>)
    requires Core(s) && Tall(s) && FastOK(s) && Core(m) && FastOK(m) && m.dead == 0 && Thinned(m, t)
    requires doomed <= s.rows.Keys && m.rows == s.rows - doomed && |m.fast| == |s.fast|
    ensures Tall(t) <==> !LeavesShort(s, |doomed|)
  {
    hide RowsFit, IndexesFit, ColumnsFit, HasColumn, FastSafe, OrderFits, Keep;
    LiveCount(s.order, s.rows, s.dead);
    LiveCount(m.order, m.rows, m.dead);
    assert m.rows.Keys == s.rows.Keys - doomed;
    assert |m.rows.Keys| == |s.rows.Keys| - |doomed|;
    if s.fast != [] {
      HoleCount(s);
      HoleCount(m);
    }
  }

  lemma HoleCount(s: State)
    requires FastOK(s) && s.fast != []
    ensures s.fastDead == |s.fast| - |Live(s)|
  {
  }

  lemma WithoutNothing(s: State, k: Key)
    requires k !in s.rows
    ensures Without(View(s), {k}) == View(s)
  {
    assert s.rows.Keys - {k} == s.rows.Keys && s.rows - {k} == s.rows;
    KeepTwice(s.order, s.rows.Keys, s.rows.Keys);
  }

  lemma DeletedTall(s: State, k: Key, indexes: map<string, Index>, s1: State, s2: State, t: State)
    requires k in s.rows && Removed(WithoutRow(s, k, indexes), s1, k) && Compacted(s1, s2) && Thinned(s2, t)
    ensures Tall(s) ==> Tall(t)
    ensures 0 < |s.order| && 4 * (s.dead + 1) < |s.order| ==> t.order == s.order && t.dead == s.dead + 1
  {
    hide Squeezed, Removed, Thinned;
    RemovedTall(WithoutRow(s, k, indexes), s1, k);
    if |s1.order| != 0 && !(s1.dead * 4 < |s1.order|) { SqueezedTall(s1, s2); }
    ThinnedTall(s2, t);
  }

  lemma RemovedTall(s: State, t: State, k: Key)
    requires Removed(s, t, k)
    ensures t.order == s.order && t.dead == s.dead && (Tall(s) ==> Tall(t))
  {
  }

  lemma ThinnedTall(s: State, t: State)
    requires Thinned(s, t)
    ensures t.order == s.order && t.dead == s.dead && (Tall(s) ==> Tall(t))
  {
    hide FastSafe, FastOK;
  }

  lemma RemovedAnyDead(s: State, t: State, k: Key, d: int)
    requires Removed(s, t, k)
    ensures Removed(s.(dead := d), t.(dead := d), k)
  {
  }

  lemma RemovedLength(s: State, t: State, k: Key)
    requires Removed(s, t, k)
    ensures |s.order| >= THRESHOLD || s.fast == [] ==> |t.fast| == |s.fast|
  {
  }

  lemma FastOKAnyDead(s: State, d: int)
    ensures FastOK(s.(dead := d)) <==> FastOK(s)
    ensures View(s.(dead := d)) == View(s)
  {
  }

  /** A scan DELETE under way: the first `i` keys are seen and `doomed` rows are gone. The tombstone
      count `d` runs ahead of the field. */
  ghost predicate Scanning(s0: State, s: State, d: int, doomed: set<Key>, i: nat, matches: Row -> bool,
                           remaining: seq<Key>) {
    && i <= |s.order| && s.order == s0.order && Core(s0) && Almost(s.(dead := d)) && s.rows == s0.rows - doomed
    && View(s) == Without(View(s0), doomed) && (FastOK(s0) ==> FastOK(s)) && (Tall(s0) ==> |s.fast| == |s0.fast|)
    && remaining == Keep(s.order[..i], s.rows.Keys)
    && forall k :: k in doomed <==> k in s0.rows && k in s.order[..i] && matches(s0.rows[k])
  }

  lemma StartScan(s: State, matches: Row -> bool)
    requires Core(s)
    ensures Scanning(s, s, s.dead, {}, 0, matches, [])
  {
    hide RowsFit, IndexesFit, FastSafe, FastOK, HasColumn;
    assert s.rows.Keys - {} == s.rows.Keys && s.rows - {} == s.rows;
    KeepTwice(s.order, s.rows.Keys, s.rows.Keys);
  }

  /** A key that is not deleted is seen. */
  lemma ScanSees(s0: State, s: State, d: int, doomed: set<Key>, i: nat, matches: Row -> bool, remaining: seq<Key>)
    requires Scanning(s0, s, d, doomed, i, matches, remaining) && i < |s.order|
    ensures Almost(s.(dead := d)) && Core(s0)
    ensures var k := s.order[i];
            if k !in s.rows then Scanning(s0, s, d, doomed, i + 1, matches, remaining)
            else k !in doomed && (!matches(s.rows[k]) ==> Scanning(s0, s, d, doomed, i + 1, matches, remaining + [k]))
  {
    hide Core, Almost, FastOK, View, Without, Keep;
    assert s.order[..i + 1] == s.order[..i] + [s.order[i]];
    KeepSnoc(s.order[..i], s.order[i], s.rows.Keys);
  }

  lemma ScanDeletes(s0: State, s: State, d: int, doomed: set<Key>, i: nat, matches: Row -> bool, remaining: seq<Key>,
                    t: State)
    requires Scanning(s0, s, d, doomed, i, matches, remaining) && i < |s.order| && s.order[i] in s.rows
             && matches(s.rows[s.order[i]])
    requires Almost(t.(dead := d + 1)) && View(t) == Without(View(s), {s.order[i]}) && t.rows == s.rows - {s.order[i]}
             && t.order == s.order
    requires (|t.order| >= THRESHOLD || s.fast == [] ==> |t.fast| == |s.fast|) && (FastOK(s) ==> FastOK(t))
    ensures Scanning(s0, t, d + 1, doomed + {s.order[i]}, i + 1, matches, remaining)
  {
    hide Core, FastOK, View, Without, Keep, OrderFits, RowsFit, IndexesFit, ColumnsFit, FastSafe, HasColumn;
    ScanStep(s.order, s.rows, d, i, s0, doomed);
    assert s.order[..i + 1] == s.order[..i] + [s.order[i]];
  }

  lemma WithoutBoth(v: Content, a: set<Key>, k: Key)
    requires forall x :: x in v.live ==> x in v.rows
    ensures Without(Without(v, a), {k}) == Without(v, a + {k})
  {
    hide Keep;
    var less := v.rows.Keys - a;
    assert (v.rows - a).Keys == less && less - {k} == v.rows.Keys - (a + {k});
    KeepTwice(v.live, less, less - {k});
    assert v.rows - a - {k} == v.rows - (a + {k});
  }

  /** Deleting the key at position `i` does not touch the part already filtered. */
  lemma ScanStep(order: seq<Key>, rows: map<Key, Row>, d: int, i: nat, s0: State, doomed: set<Key>)
    requires OrderFits(order, rows, d) && i < |order| && order[i] in rows
    requires Core(s0) && rows == s0.rows - doomed
    ensures Keep(order[..i + 1], (rows - {order[i]}).Keys) == Keep(order[..i], rows.Keys)
    ensures order[i] !in doomed && rows - {order[i]} == s0.rows - (doomed + {order[i]})
    ensures Without(Without(View(s0), doomed), {order[i]}) == Without(View(s0), doomed + {order[i]})
  {
    hide Keep, OrderFits, Without, RowsFit, IndexesFit, FastSafe, ColumnsFit, Dense;
    FilterStep(order, rows, d, i);
    LiveCount(s0.order, s0.rows, s0.dead);
    WithoutBoth(View(s0), doomed, order[i]);
  }

  lemma FilterStep(order: seq<Key>, rows: map<Key, Row>, d: int, i: nat)
    requires OrderFits(order, rows, d) && i < |order| && order[i] in rows
    ensures Keep(order[..i + 1], (rows - {order[i]}).Keys) == Keep(order[..i], rows.Keys)
  {
    hide Keep, OrderFits;
    var k := order[i];
    var less := (rows - {k}).Keys;
    assert order[..i + 1] == order[..i] + [k] && order == order[..i + 1] + order[i + 1..];
    ExactlyOnce(order, rows, d, k);
    KeepSnoc(order[..i], k, less);
    KeepSame(order[..i], rows.Keys, less);
  }

  /** After the scan, the filtered order makes the table whole again. */
  lemma FilteredFits(s0: State, s: State, d: int, doomed: set<Key>, matches: Row -> bool, remaining: seq<Key>)
    requires Scanning(s0, s, d, doomed, |s.order|, matches, remaining)
    ensures doomed == Matching(s0.rows, matches) && doomed <= s0.rows.Keys && s.rows == s0.rows - doomed
    ensures var t := s.(order := remaining, dead := 0);
            && Core(t) && View(t) == Without(View(s0), doomed) && (FastOK(s0) ==> FastOK(t))
              && (Tall(s0) ==> |t.fast| == |s0.fast|)
            && OrderFits(t.order, t.rows, t.dead) && NamesDistinct(t.columns)
  {
    hide Keep, RowsFit, IndexesFit, FastSafe, HasColumn, FastAgrees, Without;
    assert s.order[..|s.order|] == s.order;
    CompactFits(s.order, s.rows, d);
    LiveCount(s0.order, s0.rows, s0.dead);
  }

  // ---------------------------------------------------------------- updating

  lemma WriteNothing(s: State, k: Key, column: string, v: Value)
    requires k !in s.rows
    ensures WithColumn(View(s), {k}, column, v) == View(s)
  {
  }

  lemma WriteNobody(s: State, column: string, v: Value)
    ensures WithColumn(View(s), {}, column, v) == View(s)
  {
  }

  lemma StillThere(s: State, t: State, hits: set<Key>, k: Key, column: string, v: Value)
    requires View(t) == WithColumn(View(s), hits, column, v) && k in s.rows && k !in hits
    ensures k in t.rows && t.rows[k] == s.rows[k]
  {
  }

  lemma WriteMore(s: State, t: State, hits: set<Key>, k: Key, column: string, v: Value)
    requires View(t) == WithColumn(View(s), hits, column, v) && k !in hits
    ensures WithColumn(View(t), {k}, column, v) == WithColumn(View(s), hits + {k}, column, v)
  {
    hide Keep;
    assert t.rows == WithColumn(View(s), hits, column, v).rows;
  }

  /** The new key is free among the rows but still in the order: the rekey brings a tombstone back to life. */
  predicate Revives(s: State, k: Key, v: Value) {
    ValueKey(v) != k && ValueKey(v) in s.order
  }

  /** A rekey keeps the table consistent exactly when it revives no tombstone, and then moves the row
      in place; the array stays exact unless there is one and the new key is the one that marks holes. */
  ghost predicate RekeyOutcome(s: State, t: State, k: Key, v: Value) {
    && (Core(t) <==> !Revives(s, k, v))
    && (Core(t) ==> View(t) == RekeyedContent(View(s), k, v))
    && (Core(t) && FastOK(s) ==> (FastOK(t) <==> ValueKey(v) != "" || s.fast == []))
    && |t.fast| == |s.fast| && |t.order| == |s.order|
  }

  function RekeyedContent(c: Content, k: Key, v: Value): Content {
    if k !in c.rows then c
    else if ValueKey(v) == k then WithColumn(c, {k}, Primary(c.columns), v)
    else Moved(c, k, ValueKey(v), c.rows[k][Primary(c.columns) := v])
  }

  lemma RekeyInPlace(s: State, t: State, k: Key, i: nat, v: Value)
    requires k in s.rows && ValueKey(v) == k && i < |s.columns| && s.columns[i].name == Primary(s.columns)
    requires View(t) == WithColumn(View(s), {k}, s.columns[i].name, v)
    ensures View(t) == RekeyedContent(View(s), k, v)
  {
    hide Keep, ValueKey, Primary;
  }

  lemma NoEmptyKey(s: State, k: Key)
    requires Core(s) && FastOK(s) && k in s.rows
    ensures k != "" || s.fast == []
  {
    hide FastOK, Keep;
    if s.fast != [] { EmptyKeyDisagrees(s); }
  }

  /** The outcome of moving one row, with the indexes it left. */
  ghost predicate MovedWith(s: State, t: State, k: Key, v: Value, indexes: map<string, Index>)
    requires k in s.rows
  {
    && indexes.Keys == s.indexes.Keys && IndexesFit(indexes, (s.rows - {k})[ValueKey(v) := RekeyedRow(s, k, v)])
    && t == Rekeyed(s, k, ValueKey(v), v, indexes)
  }

  lemma RekeyedContentIs(s: State, k: Key, v: Value)
    requires k in s.rows && ValueKey(v) != k
    ensures RekeyedContent(View(s), k, v) == Moved(View(s), k, ValueKey(v), RekeyedRow(s, k, v))
  {
  }

  lemma RekeyedOrder(s: State, k: Key, v: Value, indexes: map<string, Index>)
    requires k in s.rows
    ensures var t := Rekeyed(s, k, ValueKey(v), v, indexes);
            t.order == ReplaceFirst(s.order, k, ValueKey(v)) && t.rows.Keys == s.rows.Keys - {k} + {ValueKey(v)}
  {
  }

  /** What becomes of the entry depends on the array alone. */
  lemma SameEntry(s: State, m: State, k: Key, to: Key, v: Value)
    requires m == s.(rows := m.rows, order := m.order, indexes := m.indexes)
    ensures RekeyedFast(m, k, to, v) == RekeyedFast(s, k, to, v) && RekeyedPos(m, k, to) == RekeyedPos(s, k, to)
  {
  }

  lemma {:induction false} ReplaceFirstIs(s: seq<Key>, i: nat, from: Key, to: Key)
    requires i < |s| && s[i] == from && from !in s[..i]
    ensures ReplaceFirst(s, from, to) == s[i := to]
  {
    if i > 0 {
      assert s[..i] == [s[0]] + s[1..][..i - 1];
      ReplaceFirstIs(s[1..], i - 1, from, to);
    }
  }

  lemma {:induction false} ReplaceFirstNone(s: seq<Key>, from: Key, to: Key)
    requires from !in s
    ensures ReplaceFirst(s, from, to) == s
  {
    if s != [] {
      ReplaceFirstNone(s[1..], from, to);
    }
  }

  lemma MatchingKeys(rows: map<Key, Row>, matches: Row -> bool, keys: seq<Key>)
    requires NoDup(keys) && forall k :: k in keys <==> k in rows && matches(rows[k])
    ensures |keys| == |Matching(rows, matches)|
    ensures |keys| == 0 <==> Matching(rows, matches) == {}
    ensures |keys| == 1 ==> Matching(rows, matches) == {keys[0]} && keys[0] in rows
  {
    NoDupCount(keys, Matching(rows, matches));
  }

  // ------------------------------------------------- schema and restoring

  lemma WidenOrder(s: State, c: Column)
    requires OrderFits(s.order, s.rows, s.dead)
    ensures OrderFits(s.order, Widened(s, c).rows, s.dead)
  {
    assert Widened(s, c).rows.Keys == s.rows.Keys;
  }

  lemma NarrowOrder(s: State, i: nat)
    requires OrderFits(s.order, s.rows, s.dead) && i < |s.columns|
    ensures OrderFits(s.order, Narrowed(s, i).rows, s.dead)
  {
    assert Narrowed(s, i).rows.Keys == s.rows.Keys;
  }

  /** Every index stays, with no bucket. */
  function Emptied(indexes: map<string, Index>): map<string, Index> { map c | c in indexes :: map[] }

  lemma EmptiedFits(s: State)
    requires Core(s)
    ensures var t := State(s.columns, map[], [], Emptied(s.indexes), [], map[], map[], 0, 0, s.names);
            Core(t) && FastOK(t) && View(t) == View(s).(live := [], rows := map[])
  {
    hide HasColumn, ColumnsFit;
    var none: Index := map[];
    forall c ensures IndexFits(none, map[], c) {}
  }

  /** The visible part of a table that a snapshot holds. */
  datatype Image = Image(columns: seq<Column>, rows: map<Key, Row>, order: seq<Key>, indexed: set<string>,
                         names: map<string, string>)

  /** Typed rows under their own keys, and indexes on columns that exist. */
  ghost predicate ImageFits(image: Image) {
    && ColumnsFit(image.columns) && RowsFit(image.columns, image.rows)
    && forall c <- image.indexed :: HasColumn(image.columns, c)
  }

  /** What loading makes of any image: an order without tombstones, exact indexes, an array from 256 rows on;
      consistent exactly when the image is, with an exact array unless a row has the empty key; and the
      saved order if that was right. */
  ghost predicate Loaded(image: Image, t: State) {
    && (Core(t) <==> ImageFits(image))
    && OrderFits(t.order, t.rows, 0) && t.dead == 0 && IndexesFit(t.indexes, t.rows) && Tall(t)
    && (FastOK(t) <==> "" !in t.rows || t.fast == []) && (t.fast == [] <==> |t.rows| < THRESHOLD)
    && t.columns == image.columns && t.rows == image.rows && t.indexes.Keys == image.indexed && t.names == image.names
    && forall d :: OrderFits(image.order, image.rows, d) ==> View(t) == Shown(image)
  }

  /** What an image shows when its order is right. */
  function Shown(image: Image): Content {
    Content(image.columns, Keep(image.order, image.rows.Keys), image.rows, image.indexed, image.names)
  }

  /** A new index under a name. */
  function Indexed(c: Content, name: string, column: string): Content {
    c.(indexed := c.indexed + {column}, names := c.names[name := column])
  }

  /** The column an index goes by: that of its name, or the name itself. */
  function IndexColumn(c: Content, name: string): string { if name in c.names then c.names[name] else name }

  /** Without the index of a column and every name for it. */
  function Unindexed(c: Content, column: string): Content {
    c.(indexed := c.indexed - {column}, names := NamesWithout(c.names, column))
  }

  lemma KeepNothing(ks: set<Key>)
    ensures Keep([], ks) == []
  {
  }

  lemma RestoredOrder(image: seq<Key>, repaired: seq<Key>, seen: set<Key>, order: seq<Key>, rows: map<Key, Row>)
    requires NoDup(order) && forall k :: k in order <==> k in rows
    requires forall k :: k in image && k in rows ==> k in seen
    requires seen <= rows.Keys && (NoDup(Keep(image, rows.Keys)) ==> repaired == Keep(image, rows.Keys))
    requires seen == rows.Keys ==> order == repaired
    ensures OrderFits(order, rows, 0) && Dense(order, rows) && Keep(order, rows.Keys) == order
    ensures forall d :: OrderFits(image, rows, d) ==> order == Keep(image, rows.Keys)
  {
    hide Keep;
    KeepAll(order, rows.Keys);
    NoDupCount(order, rows.Keys);
  }

  lemma RebuiltParts(m: State, t: State)
    requires Rebuilt(m, t)
    ensures SameButFast(m, t) && FastSafe(t.columns, t.fast, t.fastPos, t.colPos) && View(t) == View(m) && Tall(t)
    ensures FastOK(t) <==> "" !in m.rows || t.fast == []
    ensures |m.rows| == |m.order| ==> (t.fast == [] <==> |m.rows| < THRESHOLD)
  {
  }
}
