/** What a table shows to queries: its rows in order, without the keys they are stored under. Every statement
    acts on this list alone, so tables that show the same list behave alike as long as no statement
    breaks one of them. */
module Listings {
  import opened Values
  import opened Storage
  import opened TableState
  import opened InsertValues
  import opened Tables
  import opened TableRuns

  datatype Listing = Listing(columns: seq<Column>, rows: seq<Row>, indexed: set<string>, names: map<string, string>)

  function RowsAt(keys: seq<Key>, rows: map<Key, Row>): (out: seq<Row>)
    ensures |out| == |keys| && forall i :: 0 <= i < |keys| && keys[i] in rows ==> out[i] == rows[keys[i]]
  {
    seq(|keys|, i requires 0 <= i < |keys| => if keys[i] in rows then rows[keys[i]] else map[])
  }

  function List(c: Content): Listing { Listing(c.columns, RowsAt(c.live, c.rows), c.indexed, c.names) }

  function Shows(s: State): Listing { List(View(s)) }

  /** Every row once in the order, typed, and under its primary value if there is one. */
  ghost predicate Fits(c: Content) {
    && ColumnsFit(c.columns) && RowsFit(c.columns, c.rows)
    && NoDup(c.live) && forall k :: k in c.live <==> k in c.rows
  }

  lemma CoreFits(s: State)
    requires Core(s)
    ensures Fits(View(s))
  {
    hide Keep, RowsFit, ColumnsFit, IndexesFit, FastSafe, HasColumn, Dense;
    LiveCount(s.order, s.rows, s.dead);
  }

  // ------------------------------------------------------ statements on lists

  function KeyOf(columns: seq<Column>, row: Row): Key { BucketOf(row, Primary(columns)) }

  /** A statement by key as one by scan. */
  function Scan(columns: seq<Column>, st: Stmt): Stmt {
    match st
    case DeleteKey(k) => DeleteWhere((row: Row) => KeyOf(columns, row) == k)
    case UpdateKey(k, column, v) => UpdateWhere((row: Row) => KeyOf(columns, row) == k, column, v)
    case _ => st
  }

  /** The engine goes by key only where there is a primary column. */
  predicate Addressed(columns: seq<Column>, st: Stmt) { st.DeleteKey? || st.UpdateKey? ==> Primary(columns) != "" }

  /** The rows that do not match. */
  function Sift(rows: seq<Row>, matches: Row -> bool): seq<Row> {
    if rows == [] then []
    else Sift(rows[..|rows| - 1], matches) + if matches(rows[|rows| - 1]) then [] else [rows[|rows| - 1]]
  }

  function Count(rows: seq<Row>, matches: Row -> bool): nat {
    if rows == [] then 0 else Count(rows[..|rows| - 1], matches) + if matches(rows[|rows| - 1]) then 1 else 0
  }

  function Each(rows: seq<Row>, f: Row -> Row): seq<Row> { seq(|rows|, i requires 0 <= i < |rows| => f(rows[i])) }

  function Write(rows: seq<Row>, matches: Row -> bool, column: string, v: Value): seq<Row> {
    Each(rows, (row: Row) => if matches(row) then row[column := v] else row)
  }

  predicate HasRow(columns: seq<Column>, rows: seq<Row>, k: Key) {
    exists i :: 0 <= i < |rows| && KeyOf(columns, rows[i]) == k
  }

  /** A row that does not match has the key. */
  predicate Taken(columns: seq<Column>, rows: seq<Row>, matches: Row -> bool, k: Key) {
    exists i :: 0 <= i < |rows| && !matches(rows[i]) && KeyOf(columns, rows[i]) == k
  }

  /** With a primary column a row takes the place of the one with its key, else it goes to the end. */
  function Place(columns: seq<Column>, rows: seq<Row>, row: Row): seq<Row> {
    if Primary(columns) != "" && HasRow(columns, rows, KeyOf(columns, row)) then
      Each(rows, (there: Row) => if KeyOf(columns, there) == KeyOf(columns, row) then row else there)
    else rows + [row]
  }

  function PlaceAll(columns: seq<Column>, rows: seq<Row>, items: seq<InsertRow>): seq<Row> {
    if items == [] then rows
    else Place(columns, PlaceAll(columns, rows, items[..|items| - 1]), items[|items| - 1].row)
  }

  predicate Free(columns: seq<Column>, rows: seq<Row>, items: seq<InsertRow>) {
    Primary(columns) != "" ==>
      && (forall i :: 0 <= i < |items| ==> !HasRow(columns, rows, items[i].key))
      && (forall i, j :: 0 <= i < j < |items| ==> items[i].key != items[j].key)
  }

  predicate Accepted(l: Listing, st: Stmt) {
    match Scan(l.columns, st)
    case Insert(items, replace) => AllFit(l.columns, items) && (replace || Free(l.columns, l.rows, items))
    case UpdateWhere(matches, column, v) =>
      Accepts(l.columns, column, v)
      && (column == Primary(l.columns) ==>
            Count(l.rows, matches) == 0
            || (Count(l.rows, matches) == 1 && !Taken(l.columns, l.rows, matches, ValueKey(v))))
    case CreateIndex(name, column) => HasColumn(l.columns, column) && column !in l.indexed && name !in l.names
    case DropIndex(name) => name in l.names || name in l.indexed
    case AddColumn(name, _) => name != "" && !HasColumn(l.columns, name)
    case DropColumn(name) => |l.columns| > 1 && HasColumn(l.columns, name)
    case _ => true
  }

  function ColumnsWithout(columns: seq<Column>, name: string): seq<Column> {
    if columns == [] then []
    else if columns[0].name == name then columns[1..]
    else [columns[0]] + ColumnsWithout(columns[1..], name)
  }

  function Applied(l: Listing, st: Stmt): Listing {
    if !Accepted(l, st) then l
    else match Scan(l.columns, st)
      case Insert(items, _) => l.(rows := PlaceAll(l.columns, l.rows, items))
      case DeleteWhere(matches) => l.(rows := Sift(l.rows, matches))
      case UpdateWhere(matches, column, v) => l.(rows := Write(l.rows, matches, column, v))
      case CreateIndex(name, column) => l.(indexed := l.indexed + {column}, names := l.names[name := column])
      case DropIndex(name) =>
        var column := if name in l.names then l.names[name] else name;
        l.(indexed := l.indexed - {column}, names := NamesWithout(l.names, column))
      case AddColumn(name, typ) =>
        l.(columns := l.columns + [Column(name, typ, false)], rows := Each(l.rows, (row: Row) => row[name := Null]))
      case DropColumn(name) =>
        l.(columns := ColumnsWithout(l.columns, name), rows := Each(l.rows, (row: Row) => row - {name}),
           indexed := l.indexed - {name}, names := NamesWithout(l.names, name))
      case Truncate => l.(rows := [])
      case _ => l
  }

  // ---------------------------------------------------------- rows and keys

  lemma KeyIs(c: Content, k: Key)
    requires Fits(c) && Primary(c.columns) != "" && k in c.rows
    ensures KeyOf(c.columns, c.rows[k]) == k
  {
    assert RowFits(c.columns, k, c.rows[k]);
  }

  lemma HasRowIs(c: Content, k: Key)
    requires Fits(c) && Primary(c.columns) != ""
    ensures HasRow(c.columns, List(c).rows, k) <==> k in c.rows
  {
    hide NoDup;
    var rows := List(c).rows;
    if k in c.rows {
      var i :| 0 <= i < |c.live| && c.live[i] == k;
      KeyIs(c, k);
      assert KeyOf(c.columns, rows[i]) == k;
    }
    if i :| 0 <= i < |rows| && KeyOf(c.columns, rows[i]) == k {
      assert c.live[i] in c.live;
      KeyIs(c, c.live[i]);
    }
  }

  lemma ByKey(c: Content, k: Key)
    requires Fits(c) && Primary(c.columns) != ""
    ensures Matching(c.rows, (row: Row) => KeyOf(c.columns, row) == k) == if k in c.rows then {k} else {}
  {
    hide NoDup, KeyOf;
    var hits := Matching(c.rows, (row: Row) => KeyOf(c.columns, row) == k);
    forall j | j in c.rows ensures j in hits <==> j == k { KeyIs(c, j); }
  }

  /** By key is by scan for the key. */
  lemma ScanMeans(c: Content, st: Stmt, d: Content)
    requires Fits(c) && Addressed(c.columns, st) && Means(c, st, d)
    ensures Means(c, Scan(c.columns, st), d)
  {
    hide Fits, Keep, Accepts, ValueKey, HasColumn, AllFit, NoClash;
    if st.DeleteKey? || st.UpdateKey? {
      ByKey(c, st.k);
      var scan := Scan(c.columns, st);
      assert Matching(c.rows, scan.matches) == if st.k in c.rows then {st.k} else {};
      if st.DeleteKey? {
        assert c.rows.Keys - {st.k} == c.rows.Keys - Matching(c.rows, scan.matches);
      }
    }
  }

  lemma ScanSucceeds(c: Content, st: Stmt)
    requires Fits(c) && Addressed(c.columns, st)
    ensures Succeeds(c, st) <==> Succeeds(c, Scan(c.columns, st))
  {
    hide Fits, Keep, Accepts, ValueKey, HasColumn, AllFit, NoClash;
    if st.UpdateKey? {
      ByKey(c, st.k);
      assert Matching(c.rows, Scan(c.columns, st).matches) == if st.k in c.rows then {st.k} else {};
    }
  }

  // --------------------------------------------------------------- deleting

  lemma RowsAtSnoc(keys: seq<Key>, k: Key, rows: map<Key, Row>)
    requires k in rows
    ensures RowsAt(keys + [k], rows) == RowsAt(keys, rows) + [rows[k]]
  {
  }

  lemma RowsAtLast(keys: seq<Key>, rows: map<Key, Row>)
    requires keys != []
    ensures var n := |keys| - 1;
            |RowsAt(keys, rows)| == n + 1 && RowsAt(keys, rows)[..n] == RowsAt(keys[..n], rows)
  {
  }

  lemma {:induction false} SiftIs(keys: seq<Key>, rows: map<Key, Row>, matches: Row -> bool)
    requires forall k :: k in keys ==> k in rows
    ensures var doomed := Matching(rows, matches);
            RowsAt(Keep(keys, rows.Keys - doomed), rows - doomed) == Sift(RowsAt(keys, rows), matches)
    decreases |keys|
  {
    hide RowsAt;
    var doomed := Matching(rows, matches);
    if keys == [] {
      assert Keep(keys, rows.Keys - doomed) == [];
    } else {
      var n := |keys| - 1;
      var first, k := keys[..n], keys[n];
      assert k in keys && forall j :: j in first ==> j in keys;
      SiftIs(first, rows, matches);
      RowsAtLast(keys, rows);
      if k !in doomed { RowsAtSnoc(Keep(first, rows.Keys - doomed), k, rows - doomed); }
      assert Keep(first, rows.Keys - doomed) + [] == Keep(first, rows.Keys - doomed);
    }
  }

  // --------------------------------------------------------------- updating

  function Hits(keys: seq<Key>, rows: map<Key, Row>, matches: Row -> bool): set<Key> {
    set k | k in keys && k in rows && matches(rows[k])
  }

  lemma HitsSnoc(keys: seq<Key>, last: Key, rows: map<Key, Row>, matches: Row -> bool)
    requires last in rows
    ensures Hits(keys + [last], rows, matches) == Hits(keys, rows, matches) + if matches(rows[last]) then {last} else {}
  {
  }

  lemma {:induction false} CountIs(keys: seq<Key>, rows: map<Key, Row>, matches: Row -> bool)
    requires NoDup(keys) && forall k :: k in keys ==> k in rows
    ensures Count(RowsAt(keys, rows), matches) == |Hits(keys, rows, matches)|
    decreases |keys|
  {
    hide RowsAt, NoDup;
    if keys == [] {
      assert Hits(keys, rows, matches) == {};
    } else {
      var n := |keys| - 1;
      var first, last := keys[..n], keys[n];
      LastIsNew(keys);
      CountIs(first, rows, matches);
      RowsAtLast(keys, rows);
      HitsSnoc(first, last, rows, matches);
      assert keys == first + [last] && last !in Hits(first, rows, matches);
    }
  }

  lemma LastIsNew(keys: seq<Key>)
    requires NoDup(keys) && keys != []
    ensures var first, last := keys[..|keys| - 1], keys[|keys| - 1];
            NoDup(first) && last !in first && last in keys && forall j :: j in first ==> j in keys
  {
  }

  lemma HitsCount(c: Content, matches: Row -> bool)
    requires Fits(c)
    ensures Count(List(c).rows, matches) == |Matching(c.rows, matches)|
  {
    hide RowsAt, NoDup, Count;
    CountIs(c.live, c.rows, matches);
    assert Matching(c.rows, matches) == Hits(c.live, c.rows, matches);
  }

  lemma WriteIs(c: Content, matches: Row -> bool, column: string, v: Value)
    requires Fits(c)
    ensures List(WithColumn(c, Matching(c.rows, matches), column, v)).rows == Write(List(c).rows, matches, column, v)
  {
    hide NoDup;
    var d := WithColumn(c, Matching(c.rows, matches), column, v);
    forall i | 0 <= i < |c.live|
      ensures List(d).rows[i] == Write(List(c).rows, matches, column, v)[i]
    {
      assert c.live[i] in c.live;
    }
  }

  /** A rekey of the one row that matches writes its primary column. */
  lemma MoveIs(c: Content, matches: Row -> bool, k: Key, v: Value)
    requires Fits(c) && Matching(c.rows, matches) == {k} && (ValueKey(v) == k || ValueKey(v) !in c.rows)
    ensures List(RekeyedContent(c, k, v)).rows == Write(List(c).rows, matches, Primary(c.columns), v)
  {
    hide NoDup, ValueKey, Primary;
    assert k in Matching(c.rows, matches);
    if ValueKey(v) == k {
      WriteIs(c, matches, Primary(c.columns), v);
    } else {
      var d := RekeyedContent(c, k, v);
      forall i | 0 <= i < |c.live|
        ensures List(d).rows[i] == Write(List(c).rows, matches, Primary(c.columns), v)[i]
      {
        assert c.live[i] in c.live && c.live[i] in c.rows;
        assert c.live[i] == k <==> c.live[i] in Matching(c.rows, matches);
      }
    }
  }

  lemma TakenIs(c: Content, matches: Row -> bool, k: Key, to: Key)
    requires Fits(c) && Primary(c.columns) != "" && Matching(c.rows, matches) == {k}
    ensures Taken(c.columns, List(c).rows, matches, to) <==> to != k && to in c.rows
  {
    hide NoDup, KeyOf;
    var rows := List(c).rows;
    assert k in Matching(c.rows, matches);
    if to != k && to in c.rows {
      var i :| 0 <= i < |c.live| && c.live[i] == to;
      KeyIs(c, to);
      assert to !in Matching(c.rows, matches);
      assert !matches(rows[i]) && KeyOf(c.columns, rows[i]) == to;
    }
    if i :| 0 <= i < |rows| && !matches(rows[i]) && KeyOf(c.columns, rows[i]) == to {
      assert c.live[i] in c.live;
      KeyIs(c, c.live[i]);
      assert c.live[i] !in Matching(c.rows, matches);
    }
  }

  lemma {:induction false} NoneWritten(rows: seq<Row>, matches: Row -> bool, column: string, v: Value)
    requires Count(rows, matches) == 0
    ensures Write(rows, matches, column, v) == rows
    decreases |rows|
  {
    if rows != [] {
      var n := |rows| - 1;
      NoneWritten(rows[..n], matches, column, v);
      assert Write(rows, matches, column, v)[..n] == Write(rows[..n], matches, column, v);
      assert rows == rows[..n] + [rows[n]];
    }
  }

  // -------------------------------------------------------------- inserting

  lemma ReplaceIs(c: Content, k: Key, row: Row)
    requires Fits(c) && RowFits(c.columns, k, row) && Primary(c.columns) != "" && k in c.rows
    ensures List(Put(c, k, row)).rows == Place(c.columns, List(c).rows, row)
  {
    hide KeyOf, Primary, ColumnsFit, NoDup, RowsFit;
    HasRowIs(c, k);
    KeyOfFit(c.columns, k, row);
    var d := Put(c, k, row);
    forall i | 0 <= i < |c.live| ensures List(d).rows[i] == Place(c.columns, List(c).rows, row)[i] {
      assert c.live[i] in c.live;
      KeyIs(c, c.live[i]);
    }
  }

  lemma AppendIs(c: Content, k: Key, row: Row)
    requires Fits(c) && RowFits(c.columns, k, row) && k !in c.rows
    ensures List(Put(c, k, row)).rows == Place(c.columns, List(c).rows, row)
  {
    hide KeyOf, Primary, ColumnsFit, NoDup, RowsFit;
    if Primary(c.columns) != "" {
      HasRowIs(c, k);
      KeyOfFit(c.columns, k, row);
    }
    assert List(Put(c, k, row)).rows == List(c).rows + [row];
  }

  lemma PutFits(c: Content, k: Key, row: Row)
    requires Fits(c) && RowFits(c.columns, k, row)
    ensures Fits(Put(c, k, row))
  {
    hide RowFits, ColumnsFit;
  }

  lemma PutIs(c: Content, k: Key, row: Row)
    requires Fits(c) && RowFits(c.columns, k, row) && (Primary(c.columns) == "" ==> k !in c.rows)
    ensures Fits(Put(c, k, row)) && List(Put(c, k, row)).rows == Place(c.columns, List(c).rows, row)
  {
    hide *;
    PutFits(c, k, row);
    if k in c.rows { ReplaceIs(c, k, row); } else { AppendIs(c, k, row); }
  }

  lemma KeyOfFit(columns: seq<Column>, k: Key, row: Row)
    requires RowFits(columns, k, row) && Primary(columns) != ""
    ensures KeyOf(columns, row) == k
  {
  }

  lemma {:induction false} PutAllIs(c: Content, items: seq<InsertRow>, keyed: seq<InsertRow>)
    requires Fits(c) && AllFit(c.columns, items) && Filled(c, items, keyed)
    ensures var d := PutAll(c, keyed);
            && Fits(d) && d.columns == c.columns && d.indexed == c.indexed && d.names == c.names
            && List(d).rows == PlaceAll(c.columns, List(c).rows, items)
    decreases |items|
  {
    hide Fits, Place, List, RowFits, Primary;
    if items != [] {
      var n := |items| - 1;
      forall i | 0 <= i < n ensures keyed[..n][..i] == keyed[..i] {}
      PutAllIs(c, items[..n], keyed[..n]);
      var d := PutAll(c, keyed[..n]);
      ItemPut(c.columns, items[n], keyed[n]);
      PutIs(d, keyed[n].key, keyed[n].row);
      assert List(Put(d, keyed[n].key, keyed[n].row)).rows == Place(c.columns, List(d).rows, items[n].row);
    }
  }

  /** A made-up key fits wherever there is no primary column. */
  lemma ItemPut(columns: seq<Column>, item: InsertRow, keyed: InsertRow)
    requires ItemFits(columns, item) && keyed.row == item.row && (item.key != "" ==> keyed.key == item.key)
    ensures RowFits(columns, keyed.key, keyed.row)
  {
  }

  lemma FreeIs(c: Content, items: seq<InsertRow>)
    requires Fits(c) && AllFit(c.columns, items)
    ensures NoClash(c.rows, items) <==> Free(c.columns, List(c).rows, items)
  {
    hide Fits, RowFits, HasRow, List, Primary;
    if Primary(c.columns) != "" {
      forall i | 0 <= i < |items| ensures HasRow(c.columns, List(c).rows, items[i].key) <==> items[i].key in c.rows {
        HasRowIs(c, items[i].key);
      }
    }
  }

  // ----------------------------------------------------------------- columns

  lemma {:induction false} ColumnsWithoutIs(columns: seq<Column>, i: nat)
    requires NamesDistinct(columns) && i < |columns|
    ensures ColumnsWithout(columns, columns[i].name) == NarrowedColumns(columns, i)
    decreases |columns|
  {
    if i > 0 {
      var rest := columns[1..];
      RestDistinct(columns, i);
      ColumnsWithoutIs(rest, i - 1);
      hide NamesDistinct;
      assert rest[..i - 1] == columns[1..i] && rest[i..] == columns[i + 1..];
      assert [columns[0]] + (columns[1..i] + columns[i + 1..]) == columns[..i] + columns[i + 1..];
    }
  }

  lemma RestDistinct(columns: seq<Column>, i: nat)
    requires NamesDistinct(columns) && 0 < i < |columns|
    ensures NamesDistinct(columns[1..]) && columns[0].name != columns[i].name
  {
  }

  lemma NarrowIs(c: Content, i: nat)
    requires Fits(c) && i < |c.columns|
    ensures var name := c.columns[i].name;
            List(NarrowedContent(c, i)) ==
            List(c).(columns := ColumnsWithout(c.columns, name), rows := Each(List(c).rows, (row: Row) => row - {name}),
                     indexed := c.indexed - {name}, names := NamesWithout(c.names, name))
  {
    hide NoDup, RowsFit;
    ColumnsWithoutIs(c.columns, i);
    var d, name := NarrowedContent(c, i), c.columns[i].name;
    forall j | 0 <= j < |c.live| ensures List(d).rows[j] == Each(List(c).rows, (row: Row) => row - {name})[j] {
      assert c.live[j] in c.live;
    }
  }

  lemma WidenIs(c: Content, column: Column)
    requires Fits(c)
    ensures List(WidenedContent(c, column)) ==
            List(c).(columns := c.columns + [column],
                     rows := Each(List(c).rows, (row: Row) => row[column.name := Null]))
  {
    hide NoDup, RowsFit, ColumnsFit;
    var d := WidenedContent(c, column);
    forall j | 0 <= j < |c.live|
      ensures List(d).rows[j] == Each(List(c).rows, (row: Row) => row[column.name := Null])[j]
    {
      assert c.live[j] in c.live;
    }
  }

  // ------------------------------------------------------------ main results

  lemma UpdateAccepted(c: Content, matches: Row -> bool, column: string, v: Value)
    requires Fits(c)
    ensures Succeeds(c, UpdateWhere(matches, column, v)) <==> Accepted(List(c), UpdateWhere(matches, column, v))
  {
    hide Fits, RowsAt, Accepts, Count, Taken, Primary, ValueKey, Matching;
    HitsCount(c, matches);
    var hits := Matching(c.rows, matches);
    if Accepts(c.columns, column, v) && column == Primary(c.columns) && |hits| == 1 {
      var k :| k in hits;
      assert |hits - {k}| == 0;
      assert hits == {k};
      NamedPrimary(c, column, v);
      TakenIs(c, matches, k, ValueKey(v));
    }
  }

  /** Whether a statement is refused can be told from the list of rows. */
  lemma AcceptedIs(c: Content, st: Stmt)
    requires Fits(c) && Addressed(c.columns, st)
    ensures Succeeds(c, st) <==> Accepted(List(c), st)
  {
    hide Fits, AllFit, NoClash, Free, RowsAt, Accepts, Count, Taken, HasColumn, MayRekey;
    ScanSucceeds(c, st);
    SameScan(List(c), st);
    match Scan(c.columns, st)
    case Insert(items, _) => if AllFit(c.columns, items) { FreeIs(c, items); }
    case UpdateWhere(matches, column, v) => UpdateAccepted(c, matches, column, v);
    case _ =>
  }

  lemma SameScan(l: Listing, st: Stmt)
    ensures Applied(l, st) == Applied(l, Scan(l.columns, st)) && (Accepted(l, st) <==> Accepted(l, Scan(l.columns, st)))
    ensures !Scan(l.columns, st).DeleteKey? && !Scan(l.columns, st).UpdateKey?
    ensures !st.DeleteKey? && !st.UpdateKey? ==> Scan(l.columns, st) == st
    ensures st.DeleteKey? ==> Scan(l.columns, st).DeleteWhere?
    ensures st.UpdateKey? ==> Scan(l.columns, st).UpdateWhere?
  {
    hide PlaceAll, Sift, Write, Each, Count, Taken, Free, AllFit, Accepts, HasColumn, ColumnsWithout;
  }

  lemma InsertActs(c: Content, items: seq<InsertRow>, replace: bool, d: Content)
    requires Fits(c) && Means(c, Insert(items, replace), d)
    ensures List(d) == Applied(List(c), Insert(items, replace))
  {
    hide Fits, AllFit, NoClash, Free, PlaceAll, PutAll, Filled, RowsAt;
    if AllFit(c.columns, items) {
      FreeIs(c, items);
      if replace || NoClash(c.rows, items) {
        var keyed :| Filled(c, items, keyed) && d == PutAll(c, keyed);
        PutAllIs(c, items, keyed);
      }
    }
  }

  lemma DeleteActs(c: Content, matches: Row -> bool, d: Content)
    requires Fits(c) && Means(c, DeleteWhere(matches), d)
    ensures List(d) == Applied(List(c), DeleteWhere(matches))
  {
    hide RowsAt, Keep, NoDup, RowsFit, ColumnsFit, Sift;
    SiftIs(c.live, c.rows, matches);
  }

  lemma UpdateActs(c: Content, matches: Row -> bool, column: string, v: Value, d: Content)
    requires Fits(c) && Means(c, UpdateWhere(matches, column, v), d)
    ensures List(d) == Applied(List(c), UpdateWhere(matches, column, v))
  {
    hide Fits, RowsAt, Keep, Accepts, Count, Write, Taken, Primary, ValueKey, Matching, RekeyedContent, WithColumn;
    HitsCount(c, matches);
    if Accepts(c.columns, column, v) {
      if column != Primary(c.columns) {
        WriteIs(c, matches, column, v);
        SameAround(c, Matching(c.rows, matches), column, v);
      } else {
        RekeyActs(c, matches, column, v, d);
      }
    }
  }

  lemma SameAround(c: Content, hits: set<Key>, column: string, v: Value)
    ensures var d := WithColumn(c, hits, column, v);
            List(d) == List(c).(rows := List(d).rows)
  {
  }

  lemma RekeyActs(c: Content, matches: Row -> bool, column: string, v: Value, d: Content)
    requires Fits(c) && Means(c, UpdateWhere(matches, column, v), d) && Accepts(c.columns, column, v)
    requires column == Primary(c.columns) && Count(List(c).rows, matches) == |Matching(c.rows, matches)|
    ensures List(d) == Applied(List(c), UpdateWhere(matches, column, v))
  {
    hide Fits, RowsAt, Keep, Accepts, Count, Write, Taken, Primary, ValueKey, Matching, RekeyedContent, WithColumn;
    var hits, rows := Matching(c.rows, matches), List(c).rows;
    if |hits| == 0 {
      NoneWritten(rows, matches, column, v);
    } else if |hits| == 1 {
      var k :| hits == {k} && d == RekeyMeaning(c, k, v);
      NamedPrimary(c, column, v);
      TakenIs(c, matches, k, ValueKey(v));
      if !(ValueKey(v) != k && ValueKey(v) in c.rows) {
        MoveIs(c, matches, k, v);
        RekeyAround(c, k, v);
      }
    }
  }

  lemma NamedPrimary(c: Content, column: string, v: Value)
    requires Fits(c) && Accepts(c.columns, column, v)
    ensures column != ""
  {
    hide HasType, NoDup, RowsFit;
  }

  lemma RekeyAround(c: Content, k: Key, v: Value)
    ensures var d := RekeyedContent(c, k, v);
            List(d) == List(c).(rows := List(d).rows)
  {
    hide ValueKey, Primary;
  }

  lemma DefinitionActs(c: Content, st: Stmt, d: Content)
    requires Fits(c) && Means(c, st, d)
    requires !st.Insert? && !st.DeleteKey? && !st.DeleteWhere? && !st.UpdateKey? && !st.UpdateWhere?
    ensures List(d) == Applied(List(c), st)
  {
    hide Fits, RowsAt, HasColumn, NarrowedContent, WidenedContent, ColumnsWithout, Each;
    match st
    case AddColumn(name, typ) => WidenIs(c, Column(name, typ, false));
    case DropColumn(name) =>
      if Succeeds(c, st) {
        var i :| 0 <= i < |c.columns| && c.columns[i].name == name && d == NarrowedContent(c, i);
        NarrowIs(c, i);
      }
    case Truncate => NoRows(c);
    case _ =>
  }

  lemma NoRows(c: Content)
    ensures List(c.(live := [], rows := map[])).rows == []
  {
  }

  /** What a statement does to what a table shows depends on the list of rows alone, not on the keys they are
      stored under. */
  lemma ActsOnList(c: Content, st: Stmt, d: Content)
    requires Fits(c) && Addressed(c.columns, st) && Means(c, st, d)
    ensures List(d) == Applied(List(c), st)
  {
    hide Fits, Means, Applied, Accepted, RowsAt;
    ScanMeans(c, st, d);
    SameScan(List(c), st);
    match Scan(c.columns, st)
    case Insert(items, replace) => InsertActs(c, items, replace, d);
    case DeleteWhere(matches) => DeleteActs(c, matches, d);
    case UpdateWhere(matches, column, v) => UpdateActs(c, matches, column, v, d);
    case _ => DefinitionActs(c, st, d);
  }

  // ------------------------------------------------------------ two tables

  /** Two tables that show the same and have every part in step. */
  ghost predicate Alike(s: State, t: State) { Sound(s) && Sound(t) && Shows(s) == Shows(t) }

  /** The same statement on two such tables is refused on both or on neither. */
  lemma SameAnswer(a: State, b: State, st: Stmt)
    requires Alike(a, b) && Addressed(a.columns, st)
    ensures Succeeds(View(a), st) <==> Succeeds(View(b), st)
  {
    hide Core, FastOK, Accepted, RowsAt, Keep, Fits, Succeeds;
    CoreFits(a);
    CoreFits(b);
    AcceptedIs(View(a), st);
    AcceptedIs(View(b), st);
  }

  /** And it leaves two such tables exactly when it breaks neither. */
  lemma AlikeStep(a: State, b: State, st: Stmt, c: State, d: State)
    requires Alike(a, b) && Stepped(a, st, c) && Stepped(b, st, d) && Addressed(a.columns, st)
    ensures Alike(c, d) <==> !Breaks(a, st) && !Breaks(b, st)
  {
    hide Core, FastOK, Means, Breaks, Applied, RowsAt, Keep, Tall, Shortens, Fits;
    if !Breaks(a, st) && !Breaks(b, st) {
      CoreFits(a);
      CoreFits(b);
      ActsOnList(View(a), st, View(c));
      ActsOnList(View(b), st, View(d));
    }
  }

  /** The states of a table through some statements. */
  ghost predicate Ran(states: seq<State>, stmts: seq<Stmt>) {
    |states| == |stmts| + 1 && forall i :: 0 <= i < |stmts| ==> Stepped(states[i], stmts[i], states[i + 1])
  }

  ghost predicate Unbroken(states: seq<State>, stmts: seq<Stmt>)
    requires |states| == |stmts| + 1
  {
    forall i :: 0 <= i < |stmts| ==> !Breaks(states[i], stmts[i]) && Addressed(states[i].columns, stmts[i])
  }

  /** Two tables that start alike and run the same statements, none of which breaks one of them, are alike
      throughout, whatever keys are made up on the way and wherever tombstones and arrays are. */
  lemma {:induction false} RunsStayAlike(a: seq<State>, b: seq<State>, stmts: seq<Stmt>, n: nat)
    requires Ran(a, stmts) && Ran(b, stmts) && Alike(a[0], b[0]) && Unbroken(a, stmts) && Unbroken(b, stmts)
    requires n <= |stmts|
    ensures Alike(a[n], b[n])
  {
    hide Alike, Stepped, Breaks, Addressed;
    if n > 0 {
      RunsStayAlike(a, b, stmts, n - 1);
      AlikeStep(a[n - 1], b[n - 1], stmts[n - 1], a[n], b[n]);
    }
  }

  // ---------------------------------------------------------------- loading

  function ImageOf(s: State): Image { Image(s.columns, s.rows, s.order, s.indexes.Keys, s.names) }

  /** A saved table loads as one that shows the same, and has every part in step unless a row has the empty
      key among 256 or more. */
  lemma LoadedAlike(s: State, t: State)
    requires Sound(s) && Loaded(ImageOf(s), t)
    ensures View(t) == View(s)
    ensures Alike(s, t) <==> "" !in s.rows || |s.rows| < THRESHOLD
  {
    hide Keep, RowsFit, ColumnsFit, IndexesFit, FastSafe, HasColumn, FastOK, RowsAt;
    assert OrderFits(ImageOf(s).order, ImageOf(s).rows, s.dead);
  }
}
