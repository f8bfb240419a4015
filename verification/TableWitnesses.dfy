/** Reachable tables that are out of step, one for each way in which a statement can break one. */
module TableWitnesses {
  import opened Values
  import opened Storage
  import opened TableState
  import opened InsertValues
  import opened Tables
  import opened TableRuns
  import opened Listings

  const ID := [Column("id", TextType, true)]

  /** A text for each number. */
  function Label(n: int): Value { Text(FormatInt(n)) }

  /** Only one value of the column has the key of a label. */
  lemma LabelKey(v: Value, n: int)
    requires HasType(v, TextType)
    ensures ValueKey(v) == ValueKey(Label(n)) <==> v == Label(n)
    ensures ValueKey(Label(n)) != ""
  {
    KeyInjective(v, Label(n), TextType);
    assert FormatInt(n)[0] == '-' || IsDigit(FormatInt(n)[0]);
  }

  lemma LabelsDiffer(m: int, n: int)
    requires m != n
    ensures ValueKey(Label(m)) != ValueKey(Label(n))
  {
    if FormatInt(m) == FormatInt(n) { FormatIntInjective(m, n); }
  }

  function Numbered(n: int): InsertRow { InsertRow(ValueKey(Label(n)), map["id" := Label(n)]) }

  function Counting(n: nat): seq<InsertRow> { seq(n, i requires 0 <= i < n => Numbered(i)) }

  lemma IdColumn()
    ensures ColumnsFit(ID) && Primary(ID) == "id" && Accepts(ID, "id", Label(0))
  {
    assert ID[0].name == "id" && HasType(Label(0), ID[0].typ);
  }

  lemma NumberedFits(n: int)
    ensures ItemFits(ID, Numbered(n)) && Numbered(n).key != ""
  {
    hide FormatInt;
    IdColumn();
    LabelKey(Null, n);
  }

  lemma CountingFits(rows: map<Key, Row>, n: nat)
    requires forall i :: 0 <= i < n ==> ValueKey(Label(i)) !in rows
    ensures AllFit(ID, Counting(n)) && NoClash(rows, Counting(n))
  {
    hide ItemFits, ValueKey;
    forall i | 0 <= i < n ensures ItemFits(ID, Counting(n)[i]) { NumberedFits(i); }
    forall i, j | 0 <= i < j < n ensures Counting(n)[i].key != Counting(n)[j].key { LabelsDiffer(i, j); }
  }

  lemma ClashFreePrefix(rows: map<Key, Row>, items: seq<InsertRow>)
    requires NoClash(rows, items) && items != [] && forall i :: 0 <= i < |items| ==> items[i].key != ""
    ensures var first, last := items[..|items| - 1], items[|items| - 1].key;
            NoClash(rows, first) && last !in rows && !HasKey(first, last)
  {
    var first := items[..|items| - 1];
    assert forall i :: 0 <= i < |first| ==> first[i] == items[i];
  }

  lemma HasKeySnoc(items: seq<InsertRow>, k: Key)
    requires items != []
    ensures HasKey(items, k) <==> HasKey(items[..|items| - 1], k) || items[|items| - 1].key == k
  {
    var first := items[..|items| - 1];
    if HasKey(items, k) && items[|items| - 1].key != k {
      var i :| 0 <= i < |items| && items[i].key == k;
      assert first[i].key == k;
    } else if HasKey(first, k) {
      var i :| 0 <= i < |first| && first[i].key == k;
      assert items[i].key == k;
    } else if items[|items| - 1].key == k {
      assert HasKey(items, k);
    }
  }

  /** Fresh keys each get a place of their own. */
  lemma {:induction false} PutNew(c: Content, items: seq<InsertRow>)
    requires NoClash(c.rows, items) && forall i :: 0 <= i < |items| ==> items[i].key != ""
    ensures |PutAll(c, items).live| == |c.live| + |items| && PutAll(c, items).columns == c.columns
    ensures forall k :: k in PutAll(c, items).rows <==> k in c.rows || HasKey(items, k)
    decreases |items|
  {
    hide NoClash, HasKey;
    if items != [] {
      var first, last := items[..|items| - 1], items[|items| - 1];
      ClashFreePrefix(c.rows, items);
      PutNew(c, first);
      forall k ensures k in PutAll(c, items).rows <==> k in c.rows || HasKey(items, k) { HasKeySnoc(items, k); }
    } else {
      forall k ensures !HasKey(items, k) { NoKeys(k); }
    }
  }

  lemma NoKeys(k: Key)
    ensures !HasKey([], k)
  {
  }

  /** `n` rows, keyed by their ids, among them 0 to n - 1. */
  ghost predicate Counted(s: State, n: nat) {
    && s.columns == ID && s.dead == 0 && |s.order| == n && |s.rows| == n
    && (forall k :: k in s.rows <==> HasKey(Counting(n), k))
  }

  lemma CountedIs(s: State, n: nat, keyed: seq<InsertRow>)
    requires Core(s) && s.dead == 0 && Filled(Content(ID, [], map[], {}, map[]), Counting(n), keyed)
    requires View(s) == PutAll(Content(ID, [], map[], {}, map[]), keyed)
    ensures Counted(s, n) && "" !in s.rows
  {
    hide RowsFit, IndexesFit, FastSafe, HasColumn, PutAll, Numbered, ItemFits, ColumnsFit, OrderFits, Filled, HasKey,
      NoClash, Keep;
    var c := Content(ID, [], map[], {}, map[]);
    var items := Counting(n);
    CountingFits(map[], n);
    forall i | 0 <= i < n ensures items[i].key != "" { NumberedFits(i); }
    KeyedIsItems(c, items, keyed);
    PutNew(c, items);
    NoTombstones(s.order, s.rows, 0);
    LiveCount(s.order, s.rows, 0);
    NoEmptyLabel(n);
  }

  lemma NoEmptyLabel(n: nat)
    ensures !HasKey(Counting(n), "")
  {
    hide ValueKey;
    forall i | 0 <= i < n ensures Counting(n)[i].key != "" { NumberedFits(i); }
  }

  /** A new table holding the rows 0 to n - 1. */
  method Fill(n: nat) returns (t: Table)
    ensures fresh(t) && Healthy(t.S()) && Counted(t.S(), n)
    ensures n >= THRESHOLD ==> |t.fast| == |t.order|
  {
    hide Core, FastOK, Keep, Counted, Counting, NoClash, AllFit, PutAll, Filled, NewPlaces, ColumnsFit, Outdated;
    IdColumn();
    t := new Table(ID);
    CountingFits(map[], n);
    ghost var s := t.S();
    NotOutdated(s);
    var res, keyed := t.ApplyInsertRows(Counting(n), false);
    CountedIs(t.S(), n, keyed);
    CountedLength(t.S(), n);
  }

  lemma NotOutdated(s: State)
    requires s.fast == [] && s.rows == map[]
    ensures forall n :: !Outdated(s, n)
  {
  }

  lemma CountedLength(s: State, n: nat)
    requires Counted(s, n)
    ensures |s.order| == |s.rows| == n && s.columns == ID && s.dead == 0
  {
  }

  // Two rows of 256 deleted by scan, then one of them inserted again: the array has lost it.

  predicate IsSmall(row: Row) { Get(row, "id") in {Label(0), Label(1)} }

  lemma IdOf(s: State, n: nat, i: nat)
    requires Core(s) && Counted(s, n) && i < n
    ensures ValueKey(Label(i)) in s.rows && Get(s.rows[ValueKey(Label(i))], "id") == Label(i)
  {
    hide IndexesFit, FastSafe, OrderFits, ColumnsFit, ValueKey;
    var k := ValueKey(Label(i));
    assert Counting(n)[i].key == k;
    assert HasKey(Counting(n), k);
    IdColumn();
    assert RowFits(ID, k, s.rows[k]);
    assert HasType(Get(s.rows[k], ID[0].name), ID[0].typ);
    LabelKey(Get(s.rows[k], "id"), i);
  }

  lemma SmallRows(s: State)
    requires Counted(s, THRESHOLD) && Sound(s) && |s.fast| == |s.order|
    ensures |Matching(s.rows, IsSmall)| == 2 && LeavesShort(s, 2)
  {
    hide ValueKey, IndexesFit, FastSafe, OrderFits, ColumnsFit, FastAgrees, Counted;
    var a, b := ValueKey(Label(0)), ValueKey(Label(1));
    CountedLength(s, THRESHOLD);
    IdOf(s, THRESHOLD, 0);
    IdOf(s, THRESHOLD, 1);
    LabelsDiffer(0, 1);
    IdColumn();
    forall k | k in s.rows && IsSmall(s.rows[k]) ensures k in {a, b} {
      assert RowFits(s.columns, k, s.rows[k]);
    }
    assert Matching(s.rows, IsSmall) == {a, b};
    HoleCount(s);
    LiveCount(s.order, s.rows, s.dead);
  }

  lemma TwoGone(s: State, t: State)
    requires Sound(s) && Counted(s, THRESHOLD) && |s.fast| == |s.order| && Core(t) && t.dead == 0 && Tall(s)
    requires View(t) == Without(View(s), Matching(s.rows, IsSmall))
    requires Tall(t) <==> !LeavesShort(s, |Matching(s.rows, IsSmall)|)
    ensures t.columns == ID && ValueKey(Label(0)) !in t.rows && Breaks(t, Insert([Numbered(0)], false))
  {
    hide ValueKey, IndexesFit, FastSafe, OrderFits, ColumnsFit, FastOK, Counted, RowsFit, IsSmall, Matching, Dense,
      HasColumn, Keep;
    var doomed := Matching(s.rows, IsSmall);
    SmallRows(s);
    CountedLength(s, THRESHOLD);
    ZeroIsSmall(s);
    LiveCount(t.order, t.rows, 0);
    assert t.rows.Keys == s.rows.Keys - doomed;
    assert |t.rows.Keys| == |s.rows.Keys| - |doomed|;
    NumberedFits(0);
    OneIsNew(View(t), Numbered(0));
  }

  lemma ZeroIsSmall(s: State)
    requires Core(s) && Counted(s, THRESHOLD)
    ensures ValueKey(Label(0)) in Matching(s.rows, IsSmall) && Matching(s.rows, IsSmall) <= s.rows.Keys
  {
    hide ValueKey, Core, Counted;
    IdOf(s, THRESHOLD, 0);
  }

  lemma OneIsNew(c: Content, item: InsertRow)
    requires item.key !in c.rows && item.key != "" && AllFit(c.columns, [item])
    ensures Added(c, [item]) == 1 && NoClash(c.rows, [item])
  {
    var items := [item];
    assert items[..|items| - 1] == [];
    assert PutAll(c, []) == c && NewPlaces(c, []) == 0;
  }

  /** A reachable table whose array has lost a row: 256 rows, two deleted by scan, one put back. */
  method StaleArray() returns (t: Table)
    ensures fresh(t) && Core(t.S()) && !FastOK(t.S())
  {
    hide Core, FastOK, View, Counted, Without, Matching, Tall, LeavesShort, Breaks, AllFit, NoClash, Outdated,
      Numbered, ValueKey;
    t := Fill(THRESHOLD);
    ghost var s := t.S();
    assert |s.order| == THRESHOLD by { CountedLength(s, THRESHOLD); }
    var _ := t.DeleteScan(IsSmall);
    TwoGone(s, t.S());
    var _ := Exec(t, Insert([Numbered(0)], false));
  }

  lemma ZeroIsDead(s: State, t: State)
    requires Core(s) && Counted(s, 5) && View(t) == Without(View(s), {ValueKey(Label(0))}) && t.order == s.order
    ensures t.columns == ID && ValueKey(Label(1)) in t.rows && ValueKey(Label(0)) !in t.rows
            && Revives(t, ValueKey(Label(1)), Label(0))
  {
    hide ValueKey, IndexesFit, FastSafe, OrderFits, ColumnsFit, Counted, RowsFit, Dense, HasColumn, Keep;
    CountedLength(s, 5);
    IdOf(s, 5, 0);
    IdOf(s, 5, 1);
    LabelsDiffer(0, 1);
    NoTombstones(s.order, s.rows, 0);
    LiveCount(s.order, s.rows, 0);
  }

  /** A reachable table that is inconsistent: of five rows one is deleted by key, and another takes its key. */
  method RevivedKey() returns (t: Table)
    ensures fresh(t) && !Core(t.S())
  {
    hide Core, FastOK, View, Counted, Without, Matching, Tall, Revives, ValueKey, RekeyedContent, Primary;
    t := Fill(5);
    ghost var s := t.S();
    CountedLength(s, 5);
    ZeroThere(s, 5);
    var _ := t.DeleteByKey(ValueKey(Label(0)));
    ZeroIsDead(s, t.S());
    IdColumn();
    var _ := t.RekeyPrimary(ValueKey(Label(1)), 0, Label(0));
  }

  lemma ZeroThere(s: State, n: nat)
    requires Core(s) && Counted(s, n) && n > 0
    ensures ValueKey(Label(0)) in s.rows
  {
    hide ValueKey, Core, Counted;
    IdOf(s, n, 0);
  }

  // A row under the empty key.

  lemma NotInOrder(s: State, n: nat)
    requires Core(s) && Counted(s, n) && "" !in s.rows
    ensures "" !in s.order
  {
    hide RowsFit, IndexesFit, FastSafe, ColumnsFit, OrderFits, Dense, HasColumn, Keep;
    NoTombstones(s.order, s.rows, 0);
  }

  /** A reachable table whose array shows one row too few: of 256 rows one takes the empty key. */
  method HoleOverRow() returns (t: Table)
    ensures fresh(t) && Core(t.S()) && !FastOK(t.S())
  {
    hide Core, FastOK, View, Counted, Tall, RekeyedContent, Primary;
    t := Fill(THRESHOLD);
    ghost var s := t.S();
    CountedLength(s, THRESHOLD);
    NotInOrder(s, THRESHOLD);
    ZeroThere(s, THRESHOLD);
    IdColumn();
    var _ := t.RekeyPrimary(ValueKey(Label(0)), 0, Text(""));
  }

  /** The same without an array: the rekey does no harm, and the INSERT that builds the array does. */
  method HoleOverRowLater() returns (t: Table)
    ensures fresh(t) && Core(t.S()) && !FastOK(t.S())
  {
    hide Core, FastOK, View, Counted, RekeyedContent, Primary, Breaks, Numbered;
    t := Fill(THRESHOLD - 1);
    ghost var s := t.S();
    CountedLength(s, THRESHOLD - 1);
    NotInOrder(s, THRESHOLD - 1);
    ZeroThere(s, THRESHOLD - 1);
    IdColumn();
    var _ := t.RekeyPrimary(ValueKey(Label(0)), 0, Text(""));
    OneEmptied(s, t.S());
    var _ := Exec(t, Insert([Numbered(THRESHOLD)], false));
  }

  lemma OneEmptied(s: State, t: State)
    requires Core(s) && Counted(s, THRESHOLD - 1) && "" !in s.rows && ValueKey(Label(0)) in s.rows
    requires View(t) == RekeyedContent(View(s), ValueKey(Label(0)), Text(""))
    ensures Breaks(t, Insert([Numbered(THRESHOLD)], false))
  {
    hide ValueKey, Core, Counted, Keep, NoClash, AllFit;
    var k, more := ValueKey(Label(0)), ValueKey(Label(THRESHOLD));
    CountedLength(s, THRESHOLD - 1);
    NumberedFits(THRESHOLD);
    assert ValueKey(Text("")) == "" by { EmptyTextKey(); }
    assert t.rows.Keys == s.rows.Keys - {k} + {""};
    assert |t.rows.Keys| == |s.rows.Keys|;
    NotCounted(s, THRESHOLD - 1);
    OneFits(t.columns, Numbered(THRESHOLD));
    OneIsNew(View(t), Numbered(THRESHOLD));
  }

  lemma OneFits(columns: seq<Column>, item: InsertRow)
    requires ItemFits(columns, item)
    ensures AllFit(columns, [item])
  {
  }

  lemma EmptyTextKey()
    ensures ValueKey(Text("")) == ""
  {
  }

  lemma NotCounted(s: State, n: nat)
    requires Counted(s, n)
    ensures ValueKey(Label(n + 1)) !in s.rows
  {
    hide ValueKey;
    var k := ValueKey(Label(n + 1));
    forall i | 0 <= i < n ensures Counting(n)[i].key != k { LabelsDiffer(i, n + 1); }
  }

  // A table and the same table loaded from its image.

  /** The image of a table, loaded into a new one. */
  method Reload(t: Table) returns (u: Table)
    requires Core(t.S())
    ensures fresh(u) && Loaded(ImageOf(t.S()), u.S())
  {
    hide Core, Loaded, ColumnsFit;
    IdColumn();
    CoreNames(t.S());
    u := new Table(ID);
    u.Restore(Image(t.columns, t.rows, t.order, t.indexes.Keys, t.indexNames));
  }

  lemma CoreNames(s: State)
    requires Core(s)
    ensures NamesDistinct(s.columns)
  {
    hide RowsFit, OrderFits, IndexesFit, FastSafe, HasColumn, Dense;
  }

  /** The second row takes the key of the first. */
  function TakeKey(): Stmt { UpdateKey(ValueKey(Label(1)), "id", Label(0)) }

  /** A loaded table and the table it was loaded from, which show the same, go apart: of five rows one is
      deleted by key, and another takes its key. The loaded table shows four rows, the other one five. */
  method TombstoneTells() returns (a: Table, b: Table, ghost s: State, ghost t: State)
    ensures fresh(a) && fresh(b) && Loaded(ImageOf(s), t) && Alike(s, t)
    ensures Stepped(s, TakeKey(), a.S()) && Stepped(t, TakeKey(), b.S())
    ensures !Core(a.S()) && |Live(a.S())| == 5 && Sound(b.S()) && |Live(b.S())| == 4
  {
    hide Core, FastOK, View, Counted, Without, Matching, Tall, Revives, ValueKey, RekeyedContent, Primary, Loaded, Live,
      Stepped, Shows, ReplaceFirst, RekeyOutcome;
    a := Fill(5);
    ghost var full := a.S();
    CountedLength(full, 5);
    ZeroThere(full, 5);
    var _ := a.DeleteByKey(ValueKey(Label(0)));
    s := a.S();
    ZeroIsDead(full, s);
    b := Reload(a);
    t := b.S();
    FourLeft(full, s, t);
    IdColumn();
    LabelKey(Null, 0);
    var _ := a.RekeyPrimary(ValueKey(Label(1)), 0, Label(0));
    RekeyKeyStep(s, ValueKey(Label(1)), "id", Label(0), a.S());
    RekeyLeaves(s, a.S(), ValueKey(Label(1)), Label(0));
    FiveShown(full, s, a.S());
    var _ := b.RekeyPrimary(ValueKey(Label(1)), 0, Label(0));
    RekeyKeyStep(t, ValueKey(Label(1)), "id", Label(0), b.S());
    RekeyLeaves(t, b.S(), ValueKey(Label(1)), Label(0));
    FourShown(t, b.S());
  }

  lemma FourLeft(full: State, s: State, t: State)
    requires Core(full) && Counted(full, 5) && "" !in full.rows && Sound(s) && Loaded(ImageOf(s), t)
    requires View(s) == Without(View(full), {ValueKey(Label(0))}) && s.order == full.order
    ensures Alike(s, t) && t.columns == ID && t.rows == s.rows && |s.rows| == 4
    ensures s.rows.Keys == full.rows.Keys - {ValueKey(Label(0))}
    ensures Rekeys(s, "id", Label(0)) && Rekeys(t, "id", Label(0))
    ensures !Revives(t, ValueKey(Label(1)), Label(0)) && t.dead == 0
  {
    hide ValueKey, IndexesFit, FastSafe, OrderFits, ColumnsFit, FastOK, Counted, RowsFit, Dense, HasColumn, Keep,
      RowsAt;
    CountedLength(full, 5);
    ZeroThere(full, 5);
    LoadedAlike(s, t);
    IdColumn();
    assert s.rows.Keys == full.rows.Keys - {ValueKey(Label(0))};
    assert |s.rows.Keys| == 4;
    NoTombstones(t.order, t.rows, 0);
    LiveCount(t.order, t.rows, 0);
  }

  lemma FiveShown(full: State, s: State, a: State)
    requires Core(full) && Counted(full, 5) && s.rows.Keys == full.rows.Keys - {ValueKey(Label(0))}
    requires a.order == ReplaceFirst(full.order, ValueKey(Label(1)), ValueKey(Label(0)))
    requires a.rows.Keys == s.rows.Keys - {ValueKey(Label(1))} + {ValueKey(Label(0))}
    ensures |Live(a)| == 5
  {
    hide ValueKey, IndexesFit, FastSafe, ColumnsFit, Counted, RowsFit, Dense, HasColumn, Keep, ReplaceFirst;
    var from, to := ValueKey(Label(1)), ValueKey(Label(0));
    CountedLength(full, 5);
    NoTombstones(full.order, full.rows, 0);
    LiveCount(full.order, full.rows, 0);
    OneThere(full);
    var i := ReplaceFirstAt(full.order, from, to);
    forall k | k in a.order ensures k in a.rows {
      var j :| 0 <= j < |a.order| && a.order[j] == k;
      if j != i { assert full.order[j] == k && full.order[j] != full.order[i]; }
    }
    KeepAll(a.order, a.rows.Keys);
  }

  lemma OneThere(s: State)
    requires Core(s) && Counted(s, 5)
    ensures ValueKey(Label(1)) in s.rows
  {
    hide ValueKey, Core, Counted;
    IdOf(s, 5, 1);
  }

  lemma FourShown(s: State, b: State)
    requires Core(b) && |s.rows| == 4 && ValueKey(Label(1)) in s.rows && ValueKey(Label(0)) !in s.rows
    requires b.rows.Keys == s.rows.Keys - {ValueKey(Label(1))} + {ValueKey(Label(0))}
    ensures |Live(b)| == 4
  {
    hide ValueKey, IndexesFit, FastSafe, ColumnsFit, OrderFits, RowsFit, Dense, HasColumn, Keep;
    LiveCount(b.order, b.rows, b.dead);
    assert |b.rows.Keys| == |s.rows.Keys|;
  }

  lemma RekeyLeaves(s: State, t: State, k: Key, v: Value)
    requires Sound(s) && RekeyOutcome(s, t, k, v) && ValueKey(v) != ""
    ensures if Revives(s, k, v) then !Core(t) else Sound(t)
  {
    hide Core, FastOK, View, RekeyedContent, ValueKey, Revives;
  }

  /** The first row once more. */
  function PutBack(): Stmt { Insert([Numbered(0)], false) }

  /** They go apart on an array over a short order too: of 256 rows two are deleted by scan and one is put
      back. The array of the table that was not loaded has lost it; the loaded table has no array. */
  method ArrayTells() returns (a: Table, b: Table, ghost s: State, ghost t: State)
    ensures fresh(a) && fresh(b) && Loaded(ImageOf(s), t) && Alike(s, t)
    ensures Stepped(s, PutBack(), a.S()) && Stepped(t, PutBack(), b.S())
    ensures Core(a.S()) && !FastOK(a.S()) && Sound(b.S())
  {
    hide Core, FastOK, View, Counted, Without, Matching, Tall, LeavesShort, Breaks, AllFit, NoClash, Outdated,
      Numbered, ValueKey, Loaded, Shows;
    a := Fill(THRESHOLD);
    ghost var full := a.S();
    assert |full.order| == THRESHOLD by { CountedLength(full, THRESHOLD); }
    var _ := a.DeleteScan(IsSmall);
    s := a.S();
    TwoGone(full, s);
    b := Reload(a);
    t := b.S();
    NoArray(full, s, t);
    var _ := Exec(a, PutBack());
    var _ := Exec(b, PutBack());
  }

  lemma NoArray(full: State, s: State, t: State)
    requires Sound(full) && Counted(full, THRESHOLD) && |full.fast| == |full.order| && "" !in full.rows
    requires Sound(s) && View(s) == Without(View(full), Matching(full.rows, IsSmall)) && Loaded(ImageOf(s), t)
    ensures Alike(s, t) && !Breaks(t, PutBack())
  {
    hide ValueKey, IndexesFit, FastSafe, OrderFits, ColumnsFit, FastOK, Counted, RowsFit, Dense, HasColumn, Keep,
      RowsAt, Matching, AllFit, NoClash, Numbered;
    LoadedAlike(s, t);
    SmallRows(full);
    CountedLength(full, THRESHOLD);
    var doomed := Matching(full.rows, IsSmall);
    assert doomed <= full.rows.Keys by { ZeroIsSmall(full); }
    assert s.rows.Keys == full.rows.Keys - doomed;
    assert |s.rows.Keys| == |full.rows.Keys| - |doomed|;
  }
}
