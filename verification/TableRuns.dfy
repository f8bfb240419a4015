/** Whole runs of statements on one table: which statement breaks it in which state, that no other
    ever does, and that the visible content follows a simple meaning statement by statement. */
module TableRuns {
  import opened Values
  import opened Storage
  import opened TableState
  import opened Literals
  import opened InsertValues
  import opened Tables

  datatype Stmt =
    | Insert(items: seq<InsertRow>, replace: bool)
    | DeleteKey(k: Key)
    | DeleteWhere(matches: Row -> bool)
    | UpdateKey(k: Key, column: string, v: Value)
    | UpdateWhere(matches: Row -> bool, column: string, v: Value)
    | CreateIndex(name: string, column: string)
    | DropIndex(name: string)
    | AddColumn(name: string, typ: Type)
    | DropColumn(name: string)
    | Truncate

  /** All redundant parts are in step. */
  ghost predicate Sound(s: State) { Core(s) && FastOK(s) }

  // ------------------------------------------------------- what breaks it

  /** How many rows of a batch get a new place, before any key is made up. */
  function Added(c: Content, items: seq<InsertRow>): nat {
    if Primary(c.columns) == "" then |items| else NewPlaces(c, items)
  }

  /** A rekey that goes ahead. */
  predicate Moves(s: State, k: Key, v: Value) { k in s.rows && (ValueKey(v) == k || ValueKey(v) !in s.rows) }

  /** A rekey that goes ahead onto a tombstone, or under an array onto the key that marks its holes. */
  predicate BadRekey(s: State, k: Key, v: Value) {
    Moves(s, k, v) && (Revives(s, k, v) || (ValueKey(v) == "" && s.fast != []))
  }

  predicate Accepts(columns: seq<Column>, column: string, v: Value) {
    exists i :: 0 <= i < |columns| && columns[i].name == column && HasType(v, columns[i].typ)
  }

  predicate Rekeys(s: State, column: string, v: Value) { Accepts(s.columns, column, v) && column == Primary(s.columns) }

  /** The statement, run in this state, leaves a part out of step. */
  predicate Breaks(s: State, st: Stmt) {
    match st
    case Insert(items, replace) =>
      AllFit(s.columns, items) && (replace || NoClash(s.rows, items)) && Outdated(s, Added(View(s), items))
    case UpdateKey(k, column, v) => Rekeys(s, column, v) && BadRekey(s, k, v)
    case UpdateWhere(matches, column, v) =>
      Rekeys(s, column, v) && |Matching(s.rows, matches)| == 1
        && exists k <- Matching(s.rows, matches) :: BadRekey(s, k, v)
    case _ => false
  }

  /** A scan DELETE after which a later INSERT can break the table. */
  predicate Shortens(s: State, st: Stmt) { st.DeleteWhere? && LeavesShort(s, |Matching(s.rows, st.matches)|) }

  // -------------------------------------------------------------- meaning

  function RekeyMeaning(c: Content, k: Key, v: Value): Content {
    if ValueKey(v) != k && ValueKey(v) in c.rows then c else RekeyedContent(c, k, v)
  }

  ghost predicate InsertMeans(c: Content, items: seq<InsertRow>, d: Content) {
    exists keyed :: Filled(c, items, keyed) && d == PutAll(c, keyed)
  }

  ghost predicate DropMeans(c: Content, name: string, d: Content) {
    exists i :: 0 <= i < |c.columns| && c.columns[i].name == name && d == NarrowedContent(c, i)
  }

  /** What a statement does to what a table shows, on a plain ordered list of rows. */
  ghost predicate Means(c: Content, st: Stmt, d: Content) {
    match st
    case Insert(items, replace) =>
      if AllFit(c.columns, items) && (replace || NoClash(c.rows, items)) then InsertMeans(c, items, d) else d == c
    case DeleteKey(k) => d == Without(c, {k})
    case DeleteWhere(matches) => d == Without(c, Matching(c.rows, matches))
    case UpdateKey(k, column, v) =>
      if !Accepts(c.columns, column, v) || k !in c.rows then d == c
      else if column == Primary(c.columns) then d == RekeyMeaning(c, k, v)
      else d == WithColumn(c, {k}, column, v)
    case UpdateWhere(matches, column, v) =>
      var hits := Matching(c.rows, matches);
      if !Accepts(c.columns, column, v) then d == c
      else if column != Primary(c.columns) then d == WithColumn(c, hits, column, v)
      else if |hits| == 1 then exists k :: hits == {k} && d == RekeyMeaning(c, k, v)
      else d == c
    case CreateIndex(name, column) =>
      d == if HasColumn(c.columns, column) && column !in c.indexed && name !in c.names then Indexed(c, name, column)
        else c
    case DropIndex(name) =>
      d == if name in c.names || name in c.indexed then Unindexed(c, IndexColumn(c, name)) else c
    case AddColumn(name, typ) =>
      d == if name != "" && !HasColumn(c.columns, name) then WidenedContent(c, Column(name, typ, false)) else c
    case DropColumn(name) => if |c.columns| > 1 && HasColumn(c.columns, name) then DropMeans(c, name, d) else d == c
    case Truncate => d == c.(live := [], rows := map[])
  }

  /** The statement is carried out rather than refused, by what the table shows. */
  predicate Succeeds(c: Content, st: Stmt) {
    match st
    case Insert(items, replace) => AllFit(c.columns, items) && (replace || NoClash(c.rows, items))
    case DeleteKey(_) => true
    case DeleteWhere(_) => true
    case UpdateKey(k, column, v) =>
      Accepts(c.columns, column, v)
      && !(column == Primary(c.columns) && k in c.rows && ValueKey(v) != k && ValueKey(v) in c.rows)
    case UpdateWhere(matches, column, v) =>
      Accepts(c.columns, column, v) && (column == Primary(c.columns) ==> MayRekey(c, Matching(c.rows, matches), v))
    case CreateIndex(name, column) => HasColumn(c.columns, column) && column !in c.indexed && name !in c.names
    case DropIndex(name) => name in c.names || name in c.indexed
    case AddColumn(name, _) => name != "" && !HasColumn(c.columns, name)
    case DropColumn(name) => |c.columns| > 1 && HasColumn(c.columns, name)
    case Truncate => true
  }

  /** At most one row is to get the key, and no other row has it. */
  predicate MayRekey(c: Content, hits: set<Key>, v: Value) {
    |hits| <= 1 && forall k <- hits :: ValueKey(v) == k || ValueKey(v) !in c.rows
  }

  // ------------------------------------------------------------- one step

  /** One statement, run in a consistent state: it leaves a part out of step exactly when `Breaks`
      says so, otherwise it has its meaning, and only some scan DELETEs leave a short order under an
      array. */
  ghost predicate Stepped(s: State, st: Stmt, t: State) {
    && (Sound(s) ==> (Sound(t) <==> !Breaks(s, st)))
    && (st.Insert? ==> Core(t))
    && (!Breaks(s, st) ==> Core(t) && Means(View(s), st, View(t)))
    && (Sound(s) && Tall(s) && !Breaks(s, st) ==> (Tall(t) <==> !Shortens(s, st)))
  }

  lemma SteadyStep(s: State, st: Stmt, t: State)
    requires !Breaks(s, st) && !st.DeleteWhere? && Core(t) && Means(View(s), st, View(t))
    requires (FastOK(s) ==> FastOK(t)) && (Tall(s) ==> Tall(t))
    ensures Stepped(s, st, t)
  {
    hide Core, FastOK, Breaks, Means, View, Tall;
  }

  lemma {:induction false} KeyedIsItems(c: Content, items: seq<InsertRow>, keyed: seq<InsertRow>)
    requires Filled(c, items, keyed) && forall i :: 0 <= i < |items| ==> items[i].key != ""
    ensures keyed == items
  {
    hide PutAll;
    forall i | 0 <= i < |items| ensures keyed[i] == items[i] {}
  }

  lemma {:induction false} AllNew(c: Content, items: seq<InsertRow>, keyed: seq<InsertRow>)
    requires Filled(c, items, keyed) && forall i :: 0 <= i < |items| ==> items[i].key == ""
    ensures NewPlaces(c, keyed) == |items|
    decreases |items|
  {
    if items != [] {
      var n := |items| - 1;
      forall i | 0 <= i < n ensures keyed[..n][..i] == keyed[..i] {}
      AllNew(c, items[..n], keyed[..n]);
    }
  }

  /** The number of new places can be told before the batch runs. */
  lemma AddedIs(c: Content, items: seq<InsertRow>, keyed: seq<InsertRow>)
    requires AllFit(c.columns, items) && Filled(c, items, keyed)
    ensures NewPlaces(c, keyed) == Added(c, items)
  {
    hide NewPlaces, Filled, RowFits, Primary;
    if Primary(c.columns) == "" { AllNew(c, items, keyed); } else { KeyedIsItems(c, items, keyed); }
  }

  lemma InsertStep(s: State, items: seq<InsertRow>, replace: bool, keyed: seq<InsertRow>, t: State)
    requires Core(s) && Core(t) && AllFit(s.columns, items) && (replace || NoClash(s.rows, items))
    requires Filled(View(s), items, keyed) && View(t) == PutAll(View(s), keyed) && (Tall(s) ==> Tall(t))
    requires FastOK(s) ==> (FastOK(t) <==> !Outdated(s, NewPlaces(View(s), keyed)))
    ensures Stepped(s, Insert(items, replace), t)
  {
    hide Core, FastOK, PutAll, Filled, NewPlaces, AllFit, NoClash, Outdated, Tall, Live;
    AddedIs(View(s), items, keyed);
    assert InsertMeans(View(s), items, View(t));
  }

  lemma RefusedStep(s: State, items: seq<InsertRow>, replace: bool)
    requires Core(s) && !(AllFit(s.columns, items) && (replace || NoClash(s.rows, items)))
    ensures Stepped(s, Insert(items, replace), s)
  {
    hide Core, FastOK, AllFit, NoClash, Live;
  }

  lemma RekeyKeyStep(s: State, k: Key, column: string, v: Value, t: State)
    requires Core(s) && k in s.rows && Rekeys(s, column, v)
    requires if ValueKey(v) != k && ValueKey(v) in s.rows then t == s else RekeyOutcome(s, t, k, v)
    ensures Stepped(s, UpdateKey(k, column, v), t)
  {
    RekeyIff(s, k, v, t);
    hide Core, FastOK, RekeyedContent, Accepts, Primary, ValueKey, Live, BadRekey, RekeyOutcome;
  }

  /** A rekey of one row, whichever statement asks for it. */
  lemma RekeyIff(s: State, k: Key, v: Value, t: State)
    requires Core(s) && k in s.rows
    requires if ValueKey(v) != k && ValueKey(v) in s.rows then t == s else RekeyOutcome(s, t, k, v)
    ensures Sound(s) ==> (Sound(t) <==> !BadRekey(s, k, v))
    ensures !BadRekey(s, k, v) ==> Core(t) && View(t) == RekeyMeaning(View(s), k, v)
    ensures Tall(s) ==> Tall(t)
  {
    hide Core, RekeyedContent, ValueKey, Live, FastAgrees;
  }

  lemma RekeyScanStep(s: State, matches: Row -> bool, column: string, v: Value, t: State, k: Key)
    requires Core(s) && Rekeys(s, column, v) && Matching(s.rows, matches) == {k}
    requires if ValueKey(v) != k && ValueKey(v) in s.rows then t == s else RekeyOutcome(s, t, k, v)
    ensures Stepped(s, UpdateWhere(matches, column, v), t)
  {
    hide Core, FastOK, RekeyedContent, Accepts, Primary, ValueKey, Live, BadRekey, RekeyOutcome, RekeyMeaning;
    assert k in Matching(s.rows, matches);
    RekeyIff(s, k, v, t);
    assert Matching(View(s).rows, matches) == {k};
  }

  lemma NoRekeyStep(s: State, matches: Row -> bool, column: string, v: Value)
    requires Core(s) && Rekeys(s, column, v) && |Matching(s.rows, matches)| != 1
    ensures Stepped(s, UpdateWhere(matches, column, v), s)
  {
    hide Core, FastOK, RekeyedContent, Accepts, Primary, ValueKey, Live, BadRekey, RekeyOutcome, RekeyMeaning, Matching;
  }

  lemma WriteKeyStep(s: State, k: Key, column: string, v: Value, t: State)
    requires Core(t) && Accepts(s.columns, column, v) && column != Primary(s.columns)
    requires View(t) == WithColumn(View(s), {k}, column, v) && (FastOK(s) ==> FastOK(t)) && (Tall(s) ==> Tall(t))
    ensures Stepped(s, UpdateKey(k, column, v), t)
  {
    hide Core, FastOK, Accepts, Primary, Live, Tall;
    if k !in s.rows { assert View(t).rows == s.rows; }
  }

  lemma WriteScanStep(s: State, matches: Row -> bool, column: string, v: Value, t: State)
    requires Core(t) && Accepts(s.columns, column, v) && column != Primary(s.columns)
    requires View(t) == WithColumn(View(s), Matching(s.rows, matches), column, v) && (FastOK(s) ==> FastOK(t))
             && (Tall(s) ==> Tall(t))
    ensures Stepped(s, UpdateWhere(matches, column, v), t)
  {
    hide Core, FastOK, Accepts, Primary, Live, Tall, WithColumn, Matching;
  }

  lemma UntypedStep(s: State, st: Stmt)
    requires Core(s) && (st.UpdateKey? || st.UpdateWhere?) && !Accepts(s.columns, st.column, st.v)
    ensures Stepped(s, st, s)
  {
    hide Core, FastOK, Accepts, Primary, Live, Tall, WithColumn, Matching;
  }

  lemma MissingKeyStep(s: State, k: Key, column: string, v: Value)
    requires Core(s) && k !in s.rows
    ensures Stepped(s, UpdateKey(k, column, v), s)
  {
    hide Core, FastOK, Accepts, Primary, Live, Tall, WithColumn;
  }

  lemma KeyDeleteStep(s: State, k: Key, t: State)
    requires Core(t) && View(t) == Without(View(s), {k}) && (FastOK(s) ==> FastOK(t)) && (Tall(s) ==> Tall(t))
    ensures Stepped(s, DeleteKey(k), t)
  {
    hide Core, FastOK, View, Tall, Without;
  }

  lemma ScanDeleteStep(s: State, matches: Row -> bool, t: State)
    requires Core(t) && View(t) == Without(View(s), Matching(s.rows, matches)) && (FastOK(s) ==> FastOK(t))
    requires FastOK(s) && Tall(s) ==> (Tall(t) <==> !LeavesShort(s, |Matching(s.rows, matches)|))
    ensures Stepped(s, DeleteWhere(matches), t)
  {
    hide Core, FastOK, Live, Tall, Without, LeavesShort, Matching;
  }

  /** Index statements leave everything but the indexes and their names alone. */
  lemma IndexStep(s: State, st: Stmt, t: State)
    requires (st.CreateIndex? || st.DropIndex?) && Core(t) && (FastOK(s) ==> FastOK(t))
    requires t == s.(indexes := t.indexes, names := t.names) && Means(View(s), st, View(t))
    ensures Stepped(s, st, t)
  {
    hide Core, FastOK, Keep, Means, Stepped;
    SteadyStep(s, st, t);
  }

  lemma SchemaStep(s: State, st: Stmt, t: State)
    requires Core(t) && (FastOK(s) ==> FastOK(t)) && (Tall(s) ==> Tall(t))
    requires match st
             case AddColumn(name, typ) =>
               View(t) == if name != "" && !HasColumn(s.columns, name)
                 then WidenedContent(View(s), Column(name, typ, false)) else View(s)
             case DropColumn(name) =>
               if |s.columns| > 1 && HasColumn(s.columns, name) then DropMeans(View(s), name, View(t))
                 else View(t) == View(s)
             case Truncate => View(t) == View(s).(live := [], rows := map[])
             case _ => false
    ensures Stepped(s, st, t)
  {
    hide Core, FastOK, Live, HasColumn, Tall, WidenedContent, DropMeans;
  }

  method Update(t: Table, st: Stmt) returns (ok: bool)
    requires Core(t.S()) && (st.UpdateKey? || st.UpdateWhere?)
    modifies t
    ensures Stepped(old(t.S()), st, t.S())
    ensures (ok <==> Succeeds(old(View(t.S())), st)) && (!ok ==> t.S() == old(t.S()))
  {
    hide Core, FastOK, View, Tall, Stepped, Accepts, Primary, HasType, HasColumn, WithColumn, Matching, RekeyOutcome,
      ValueKey, MayRekey;
    ghost var s := t.S();
    ViewColumns(s);
    var i := Table.FindColumn(t.columns, st.column);
    if i == |t.columns| || !HasType(st.v, t.columns[i].typ) {
      NotAccepted(s, st.column, st.v, i);
      UntypedStep(s, st);
      return false;
    }
    Accepted(t.columns, st.column, st.v, i);
    if st.column != Primary(t.columns) {
      if st.UpdateKey? {
        var _ := t.UpdateByKey(st.k, i, st.v);
        StillTall(s, t.S());
        WriteKeyStep(s, st.k, st.column, st.v, t.S());
        return true;
      } else {
        var _ := t.UpdateScan(st.matches, i, st.v);
        StillTall(s, t.S());
        WriteScanStep(s, st.matches, st.column, st.v, t.S());
        return true;
      }
    } else if st.UpdateWhere? {
      var res := t.UpdatePrimaryScan(st.matches, i, st.v);
      ScanOutcome(s, st.matches, st.column, st.v, res, t.S());
      ScanRefused(s, st.matches, st.v, res);
      return res.Ok?;
    } else if st.k in t.rows {
      var res := t.RekeyPrimary(st.k, i, st.v);
      RekeyKeyStep(s, st.k, st.column, st.v, t.S());
      return res.Ok?;
    } else {
      MissingKeyStep(s, st.k, st.column, st.v);
      return true;
    }
  }

  lemma ScanRefused(s: State, matches: Row -> bool, v: Value, res: Result<nat>)
    requires res.Err? <==> |Matching(s.rows, matches)| > 1
                           || exists k :: Matching(s.rows, matches) == {k} && ValueKey(v) != k && ValueKey(v) in s.rows
    ensures res.Ok? <==> MayRekey(View(s), Matching(s.rows, matches), v)
  {
    hide ValueKey, Keep, Matching;
    var hits := Matching(s.rows, matches);
    if |hits| == 1 {
      var k :| k in hits;
      assert |hits - {k}| == 0;
      assert hits == {k};
    }
  }

  lemma NotAccepted(s: State, column: string, v: Value, i: nat)
    requires Core(s) && i <= |s.columns| && (i == |s.columns| ==> !HasColumn(s.columns, column))
    requires i < |s.columns| ==> s.columns[i].name == column && !HasType(v, s.columns[i].typ)
    ensures !Accepts(s.columns, column, v)
  {
    hide HasType, OrderFits, IndexesFit, FastSafe, RowsFit;
  }

  lemma Accepted(columns: seq<Column>, column: string, v: Value, i: nat)
    requires i < |columns| && columns[i].name == column && HasType(v, columns[i].typ)
    ensures Accepts(columns, column, v)
  {
    hide HasType;
  }

  lemma StillTall(s: State, t: State)
    requires |t.fast| == |s.fast| && t.order == s.order
    ensures Tall(s) ==> Tall(t)
  {
  }

  lemma ScanOutcome(s: State, matches: Row -> bool, column: string, v: Value, res: Result<nat>, t: State)
    requires Core(s) && Rekeys(s, column, v)
    requires (res.Err? ==> t == s) && (res == Ok(0) ==> t == s) && (Matching(s.rows, matches) == {} <==> res == Ok(0))
    requires res.Ok? && res.value > 0 ==> exists k :: Matching(s.rows, matches) == {k} && RekeyOutcome(s, t, k, v)
    requires res.Err? <==> |Matching(s.rows, matches)| > 1
                           || exists k :: Matching(s.rows, matches) == {k} && ValueKey(v) != k && ValueKey(v) in s.rows
    ensures Stepped(s, UpdateWhere(matches, column, v), t)
  {
    hide Core, Stepped, Accepts, Primary, Matching, RekeyOutcome, ValueKey;
    if |Matching(s.rows, matches)| != 1 {
      NoRekeyStep(s, matches, column, v);
    } else if res.Err? {
      var k :| Matching(s.rows, matches) == {k} && ValueKey(v) != k && ValueKey(v) in s.rows;
      RekeyScanStep(s, matches, column, v, t, k);
    } else {
      var k :| Matching(s.rows, matches) == {k} && RekeyOutcome(s, t, k, v);
      RekeyScanStep(s, matches, column, v, t, k);
    }
  }

  /** Any statement in any consistent state: what it does, and whether it is refused. */
  method Exec(t: Table, st: Stmt) returns (ok: bool)
    requires Core(t.S())
    modifies t
    ensures Stepped(old(t.S()), st, t.S())
    ensures (ok <==> Succeeds(old(View(t.S())), st)) && (!ok ==> t.S() == old(t.S()))
  {
    hide Core, FastOK, View, Tall, Stepped, AllFit, NoClash, Filled, PutAll, Without, Matching, LeavesShort, Outdated,
         WidenedContent, NarrowedContent, HasColumn;
    ghost var s := t.S();
    ViewColumns(s);
    match st {
      case Insert(items, replace) =>
        if AllFit(t.columns, items) {
          var res, keyed := t.ApplyInsertRows(items, replace);
          if res.Ok? { InsertStep(s, items, replace, keyed, t.S()); } else { RefusedStep(s, items, replace); }
          return res.Ok?;
        } else {
          RefusedStep(s, items, replace);
          return false;
        }
      case DeleteKey(k) =>
        var _ := t.DeleteByKey(k);
        KeyDeleteStep(s, k, t.S());
        return true;
      case DeleteWhere(matches) =>
        var _ := t.DeleteScan(matches);
        ScanDeleteStep(s, matches, t.S());
        return true;
      case UpdateKey(_, _, _) =>
        ok := Update(t, st);
      case UpdateWhere(_, _, _) =>
        ok := Update(t, st);
      case CreateIndex(name, column) =>
        ok := t.CreateIndex(name, column);
        IndexStep(s, st, t.S());
      case DropIndex(name) =>
        ok := t.DropIndex(name);
        IndexStep(s, st, t.S());
      case AddColumn(name, typ) =>
        ok := t.AddColumn(name, typ);
        SchemaStep(s, st, t.S());
      case DropColumn(name) =>
        ghost var v := View(s);
        ok := t.DropColumn(name);
        if ok { assert DropMeans(v, name, View(t.S())); }
        SchemaStep(s, st, t.S());
      case Truncate =>
        t.Truncate();
        assert Tall(t.S()) by { EmptyTall(t.S()); }
        SchemaStep(s, st, t.S());
        return true;
    }
  }

  lemma ViewColumns(s: State)
    ensures View(s).columns == s.columns && View(s).indexed == s.indexes.Keys && View(s).names == s.names
    ensures View(s).rows == s.rows
  {
  }

  lemma EmptyTall(s: State)
    requires s.fast == []
    ensures Tall(s)
  {
  }

  // ----------------------------------------------------------- whole runs

  /** The run goes on from the first content to the last, each statement doing what it means. */
  ghost predicate Follows(trace: seq<Content>, stmts: seq<Stmt>) {
    |trace| == |stmts| + 1 && forall i :: 0 <= i < |stmts| ==> Means(trace[i], stmts[i], trace[i + 1])
  }

  lemma FollowsMore(trace: seq<Content>, stmts: seq<Stmt>, n: nat, c: Content)
    requires n < |stmts| && Follows(trace, stmts[..n]) && Means(trace[n], stmts[n], c)
    ensures Follows(trace + [c], stmts[..n + 1])
  {
    hide Means;
    var longer := trace + [c];
    forall i | 0 <= i < n + 1 ensures Means(longer[i], stmts[i], longer[i + 1]) {
      if i < n { assert Means(trace[i], stmts[..n][i], trace[i + 1]); }
    }
  }

  /** A run of any length from any sound table stays sound and shows what its statements mean, up to the
      first statement that `Breaks` names. */
  method Run(t: Table, stmts: seq<Stmt>) returns (n: nat, ghost trace: seq<Content>)
    requires Sound(t.S())
    modifies t
    ensures n <= |stmts| && Sound(t.S())
    ensures Follows(trace, stmts[..n]) && trace[0] == old(View(t.S())) && trace[n] == View(t.S())
    ensures n < |stmts| ==> Breaks(t.S(), stmts[n])
  {
    hide Core, FastOK, Means, View, Breaks;
    n, trace := 0, [View(t.S())];
    while n < |stmts|
      invariant n <= |stmts| && Sound(t.S())
      invariant Follows(trace, stmts[..n]) && trace[0] == old(View(t.S())) && trace[n] == View(t.S())
    {
      var bad := WillBreak(t, stmts[n]);
      if bad {
        return;
      }
      var _ := Exec(t, stmts[n]);
      FollowsMore(trace, stmts, n, View(t.S()));
      n, trace := n + 1, trace + [View(t.S())];
    }
  }

  /** The condition can be evaluated before the statement runs. */
  method WillBreak(t: Table, st: Stmt) returns (b: bool)
    ensures b <==> Breaks(t.S(), st)
  {
    var s := State(t.columns, t.rows, t.order, t.indexes, t.fast, t.colPos, t.fastPos, t.dead, t.fastDead,
                   t.indexNames);
    b := Breaks(s, st);
  }

  // ------------------------------------------------------- healthy tables

  /** Nothing is out of step and nothing is waiting to go wrong: no array over a short order, and no row
      under the empty key. */
  ghost predicate Healthy(s: State) { Sound(s) && Tall(s) && "" !in s.rows }

  /** A rekey that goes ahead onto the empty key. */
  predicate EmptiesKey(s: State, st: Stmt) {
    match st
    case UpdateKey(k, column, v) => Rekeys(s, column, v) && Moves(s, k, v) && ValueKey(v) == ""
    case UpdateWhere(matches, column, v) =>
      Rekeys(s, column, v) && ValueKey(v) == "" && |Matching(s.rows, matches)| == 1
      && exists k <- Matching(s.rows, matches) :: Moves(s, k, v)
    case _ => false
  }

  /** After this statement a later INSERT can break the table. */
  predicate Endangers(s: State, st: Stmt) { Shortens(s, st) || EmptiesKey(s, st) }

  /** In a healthy table no INSERT is dangerous. */
  lemma HealthyInsert(s: State, items: seq<InsertRow>, replace: bool)
    requires Healthy(s)
    ensures !Breaks(s, Insert(items, replace))
  {
    hide Core, FastOK, AllFit, NoClash, NewPlaces;
  }

  /** Which statements bring the empty key among the rows. */
  lemma EmptyKeyComes(s: State, st: Stmt, d: Content)
    requires Means(View(s), st, d) && "" !in s.rows
    ensures "" in d.rows <==> EmptiesKey(s, st)
  {
    hide Accepts, Primary, ValueKey, Keep, HasColumn, AllFit, NoClash;
    if st.Insert? && d != View(s) {
      var keyed :| Filled(View(s), st.items, keyed) && d == PutAll(View(s), keyed);
      PutAllKeys(View(s), keyed);
    }
  }

  /** A healthy table stays so under a statement that does not break it, exactly when that does not
      endanger it. */
  lemma HealthyStep(s: State, st: Stmt, t: State)
    requires Stepped(s, st, t) && Sound(s) && !Breaks(s, st)
    ensures Healthy(s) ==> (Healthy(t) <==> !Endangers(s, st))
  {
    hide Core, FastOK, Means, Breaks, Keep, EmptiesKey, Shortens, Tall;
    if "" !in s.rows { EmptyKeyComes(s, st, View(t)); }
  }

  /** So a run from a healthy table stays healthy up to the first statement that breaks or endangers it,
      and no INSERT is such a statement. */
  method RunHealthy(t: Table, stmts: seq<Stmt>) returns (n: nat, ghost trace: seq<Content>)
    requires Healthy(t.S())
    modifies t
    ensures n <= |stmts| && Healthy(t.S())
    ensures Follows(trace, stmts[..n]) && trace[0] == old(View(t.S())) && trace[n] == View(t.S())
    ensures n < |stmts| ==> !stmts[n].Insert? && (Breaks(t.S(), stmts[n]) || Endangers(t.S(), stmts[n]))
  {
    hide Core, FastOK, Means, View, Breaks, Endangers, Tall;
    n, trace := 0, [View(t.S())];
    while n < |stmts|
      invariant n <= |stmts| && Healthy(t.S())
      invariant Follows(trace, stmts[..n]) && trace[0] == old(View(t.S())) && trace[n] == View(t.S())
    {
      ghost var s := t.S();
      var bad := WillBreak(t, stmts[n]);
      var risky := WillEndanger(t, stmts[n]);
      if bad || risky {
        if stmts[n].Insert? { HealthyInsert(s, stmts[n].items, stmts[n].replace); NoInsertEndangers(s, stmts[n]); }
        return;
      }
      var _ := Exec(t, stmts[n]);
      HealthyStep(s, stmts[n], t.S());
      FollowsMore(trace, stmts, n, View(t.S()));
      n, trace := n + 1, trace + [View(t.S())];
    }
  }

  lemma NoInsertEndangers(s: State, st: Stmt)
    requires st.Insert?
    ensures !Endangers(s, st)
  {
  }

  method WillEndanger(t: Table, st: Stmt) returns (b: bool)
    ensures b <==> Endangers(t.S(), st)
  {
    var s := State(t.columns, t.rows, t.order, t.indexes, t.fast, t.colPos, t.fastPos, t.dead, t.fastDead,
                   t.indexNames);
    b := Endangers(s, st);
  }

  // ------------------------------------------------------------ parsed rows

  /** The fields read so far sit under their columns, with the key of the primary one. */
  ghost predicate Read(columns: seq<Column>, r: InsertRow) {
    && (forall i :: 0 <= i < |columns| ==> HasType(Get(r.row, columns[i].name), columns[i].typ))
    && (forall i :: 0 <= i < |columns| && columns[i].primary ==> r.key == BucketOf(r.row, columns[i].name))
    && ((forall i :: 0 <= i < |columns| ==> !columns[i].primary) ==> r.key == "")
  }

  lemma ReadMore(first: seq<Column>, c: Column, q: InsertRow, v: Value)
    requires Read(first, q) && HasType(v, c.typ)
    requires forall i :: 0 <= i < |first| ==> first[i].name != c.name && !(first[i].primary && c.primary)
    ensures Read(first + [c], InsertRow(if c.primary then ValueKey(v) else q.key, q.row[c.name := v]))
  {
    hide ValueKey, HasType;
    var columns, row := first + [c], q.row[c.name := v];
    forall i | 0 <= i < |first|
      ensures columns[i] == first[i] && Get(row, columns[i].name) == Get(q.row, first[i].name) {}
    assert columns[|first|] == c;
    if forall i :: 0 <= i < |columns| ==> !columns[i].primary {
      forall i | 0 <= i < |first| ensures !first[i].primary { assert !columns[i].primary; }
    }
  }

  predicate Distinct(columns: seq<Column>) {
    forall i, j :: 0 <= i < j < |columns| ==>
      columns[i].name != columns[j].name && !(columns[i].primary && columns[j].primary)
  }

  lemma {:induction false} FieldsRead(vals: seq<string>, columns: seq<Column>)
    requires |vals| == |columns| && Fields(vals, columns).Ok? && Distinct(columns)
    ensures Read(columns, Fields(vals, columns).value)
    decreases |vals|
  {
    hide ParseVal, ValueKey, Read;
    if columns != [] {
      var n := |columns| - 1;
      var first := columns[..n];
      FieldsRead(vals[..n], first);
      ParsedType(vals[n], columns[n].typ);
      ReadMore(first, columns[n], Fields(vals[..n], first).value, ParseVal(vals[n], columns[n].typ).value);
      assert columns == first + [columns[n]];
    } else {
      NothingRead();
    }
  }

  lemma NothingRead()
    ensures Read([], InsertRow("", map[]))
  {
  }

  lemma ParsedType(raw: string, typ: Type)
    ensures ParseVal(raw, typ).Ok? ==> HasType(ParseVal(raw, typ).value, typ)
  {
    hide TrimSpace, UnquoteLiteral, ParseInt, ParseBool, IsNullWord;
  }

  /** Every row a VALUES payload parses to may be given to the insert tail. */
  lemma {:induction false} RowsFitItems(groups: seq<string>, columns: seq<Column>, keepLast: bool)
    requires ColumnsFit(columns) && RowsOf(groups, columns, keepLast).Ok?
    ensures AllFit(columns, RowsOf(groups, columns, keepLast).value)
    decreases |groups|
  {
    hide Fields, SplitCommas, ItemFits, ColumnsFit, InsertValues.HasKey;
    if groups != [] {
      RowsFitItems(groups[..|groups| - 1], columns, keepLast);
      ItemIsFit(SplitCommas(groups[|groups| - 1]), columns);
    }
  }

  lemma KeyedByPrimary(columns: seq<Column>, r: InsertRow, i: nat)
    requires Read(columns, r) && i < |columns| && columns[i].primary && columns[i].name == Primary(columns)
    requires r.key == "" ==> !HasPrimary(columns)
    ensures r.key != "" && RowFits(columns, r.key, r.row)
  {
    hide ValueKey, BucketOf;
    assert HasPrimary(columns);
  }

  lemma NotKeyed(columns: seq<Column>, r: InsertRow)
    requires ColumnsFit(columns) && Read(columns, r) && Primary(columns) == ""
    ensures r.key == "" && RowFits(columns, r.key, r.row)
  {
    hide ValueKey, BucketOf;
    forall i | 0 <= i < |columns| ensures !columns[i].primary {
      if columns[i].primary { PrimaryAt(columns, i); }
    }
  }

  lemma ItemIsFit(vals: seq<string>, columns: seq<Column>)
    requires ColumnsFit(columns) && |vals| == |columns| && Fields(vals, columns).Ok?
    requires Fields(vals, columns).value.key == "" ==> !HasPrimary(columns)
    ensures ItemFits(columns, Fields(vals, columns).value)
  {
    hide Fields, ValueKey;
    FieldsRead(vals, columns);
    hide ColumnsFit, Primary, Read;
    if Primary(columns) != "" {
      var i := PrimaryIndex(columns);
      KeyedByPrimary(columns, Fields(vals, columns).value, i);
    } else {
      NotKeyed(columns, Fields(vals, columns).value);
    }
  }

  /** What both VALUES parsers return fits the table they parsed for. */
  lemma ParsedFits(raw: string, columns: seq<Column>, keepLast: bool)
    requires ColumnsFit(columns) && Meaning(raw, columns, keepLast).Ok?
    ensures AllFit(columns, Meaning(raw, columns, keepLast).value)
  {
    hide RowsOf, ScanRows, TrimSpace, AllFit, ColumnsFit;
    RowsFitItems(ScanRows(TrimSpace(raw)).rows, columns, keepLast);
  }
}
