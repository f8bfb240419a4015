/** GROUP BY (internal/engine/group.go): one pass over the matching rows builds the groups and their
    aggregates. SUM and AVG work on floats and are not modelled. */
module Group {
  import opened Values
  import opened Storage
  import opened TableState
  import opened Conditions
  import opened Projection
  import opened Select

  datatype Agg = CountAll | Count(column: string) | Min(column: string) | Max(column: string)

  /** A running aggregate: how many, and the extreme so far (NULL when there is none). */
  datatype Cell = Cell(count: nat, extreme: Value)

  datatype Grouped = Grouped(vals: Line, cells: seq<Cell>)

  function Argument(agg: Agg, row: Row): Value { if agg.CountAll? then Null else Get(row, agg.column) }

  /** One more value for an aggregate. */
  function Step(agg: Agg, cell: Cell, v: Value): Cell {
    match agg
    case CountAll => cell.(count := cell.count + 1)
    case Count(_) => if v == Null then cell else cell.(count := cell.count + 1)
    case Min(_) =>
      if v != Null && (cell.extreme == Null || ValueLess(v, cell.extreme)) then cell.(extreme := v) else cell
    case Max(_) =>
      if v != Null && (cell.extreme == Null || ValueLess(cell.extreme, v)) then cell.(extreme := v) else cell
  }

  // -------------------------------------------------------------- reference

  /** The keys whose line is `line`, in order. */
  function Members(keys: seq<Key>, rows: map<Key, Row>, names: seq<string>, line: Line): seq<Key> {
    if keys == [] then []
    else Members(keys[..|keys| - 1], rows, names, line)
         + if LineAt(rows, keys[|keys| - 1], names) == line then [keys[|keys| - 1]] else []
  }

  function Total(agg: Agg, keys: seq<Key>, rows: map<Key, Row>): Cell {
    if keys == [] then Cell(0, Null)
    else
      var k := keys[|keys| - 1];
      Step(agg, Total(agg, keys[..|keys| - 1], rows), if k in rows then Argument(agg, rows[k]) else Null)
  }

  function GroupFor(line: Line, keys: seq<Key>, rows: map<Key, Row>, names: seq<string>, aggs: seq<Agg>): (g: Grouped)
    ensures g.vals == line && |g.cells| == |aggs|
  {
    Grouped(line, seq(|aggs|, i requires 0 <= i < |aggs| => Total(aggs[i], Members(keys, rows, names, line), rows)))
  }

  /** One group for each line, in the order the lines first occur, over all its rows. */
  function Groups(keys: seq<Key>, rows: map<Key, Row>, names: seq<string>, aggs: seq<Agg>): (gs: seq<Grouped>)
    ensures |gs| == |Firsts(keys, rows, names)|
  {
    var firsts := Firsts(keys, rows, names);
    seq(|firsts|, i requires 0 <= i < |firsts| => GroupFor(LineAt(rows, firsts[i], names), keys, rows, names, aggs))
  }

  lemma MembersSnoc(keys: seq<Key>, k: Key, rows: map<Key, Row>, names: seq<string>, line: Line)
    ensures Members(keys + [k], rows, names, line)
            == Members(keys, rows, names, line) + if LineAt(rows, k, names) == line then [k] else []
  {
    hide LineAt;
    assert (keys + [k])[..|keys|] == keys;
  }

  lemma FirstsSnoc(keys: seq<Key>, k: Key, rows: map<Key, Row>, names: seq<string>)
    ensures Firsts(keys + [k], rows, names) == Firsts(keys, rows, names)
              + if LineAt(rows, k, names) in Lines(Firsts(keys, rows, names), rows, names) then [] else [k]
  {
    hide LineAt, Lines;
    assert (keys + [k])[..|keys|] == keys;
  }

  /** A row changes only the group of its line. */
  lemma GroupForSnoc(line: Line, keys: seq<Key>, k: Key, rows: map<Key, Row>, names: seq<string>, aggs: seq<Agg>)
    requires k in rows
    ensures var before, after := GroupFor(line, keys, rows, names, aggs), GroupFor(line, keys + [k], rows, names, aggs);
            after == if LineAt(rows, k, names) == line then Bumped(before, rows[k], aggs) else before
  {
    hide LineAt, Step, Total, Members;
    MembersSnoc(keys, k, rows, names, line);
    var members := Members(keys, rows, names, line);
    assert members + [] == members;
    var before, after := GroupFor(line, keys, rows, names, aggs), GroupFor(line, keys + [k], rows, names, aggs);
    if LineAt(rows, k, names) == line {
      forall i | 0 <= i < |aggs| ensures after.cells[i] == Bumped(before, rows[k], aggs).cells[i] {
        TotalSnoc(aggs[i], members, k, rows);
      }
      assert after.cells == Bumped(before, rows[k], aggs).cells;
    } else {
      assert after.cells == before.cells;
    }
  }

  lemma TotalSnoc(agg: Agg, members: seq<Key>, k: Key, rows: map<Key, Row>)
    requires k in rows
    ensures Total(agg, members + [k], rows) == Step(agg, Total(agg, members, rows), Argument(agg, rows[k]))
  {
    assert (members + [k])[..|members|] == members;
  }

  /** All aggregates of a group, one row further. */
  function Bumped(g: Grouped, row: Row, aggs: seq<Agg>): (r: Grouped)
    requires |g.cells| == |aggs|
    ensures |r.cells| == |aggs| && r.vals == g.vals
  {
    Grouped(g.vals, seq(|aggs|, i requires 0 <= i < |aggs| => Step(aggs[i], g.cells[i], Argument(aggs[i], row))))
  }

  function Empty(line: Line, aggs: seq<Agg>): Grouped { Grouped(line, seq(|aggs|, i => Cell(0, Null))) }

  lemma {:induction false} NoMembers(keys: seq<Key>, rows: map<Key, Row>, names: seq<string>, line: Line)
    requires line !in Lines(keys, rows, names)
    ensures Members(keys, rows, names, line) == []
    decreases |keys|
  {
    hide LineAt;
    if keys != [] {
      var n := |keys| - 1;
      assert Lines(keys, rows, names)[n] == LineAt(rows, keys[n], names);
      assert Lines(keys[..n], rows, names) == Lines(keys, rows, names)[..n];
      NoMembers(keys[..n], rows, names, line);
    }
  }

  lemma NewGroup(line: Line, keys: seq<Key>, rows: map<Key, Row>, names: seq<string>, aggs: seq<Agg>)
    requires line !in Lines(keys, rows, names)
    ensures GroupFor(line, keys, rows, names, aggs) == Empty(line, aggs)
  {
    hide LineAt, Lines, Step;
    NoMembers(keys, rows, names, line);
  }

  /** One row further: its group changes in place, or it starts a group at the end. */
  lemma GroupsSnoc(keys: seq<Key>, k: Key, rows: map<Key, Row>, names: seq<string>, aggs: seq<Agg>)
    requires k in rows
    ensures var line, gs := LineAt(rows, k, names), Groups(keys, rows, names, aggs);
            var lines := Lines(Firsts(keys, rows, names), rows, names);
            && (line !in lines ==>
                Groups(keys + [k], rows, names, aggs) == gs + [Bumped(Empty(line, aggs), rows[k], aggs)])
            && (forall i :: 0 <= i < |gs| && lines[i] == line ==>
                Groups(keys + [k], rows, names, aggs) == gs[i := Bumped(gs[i], rows[k], aggs)])
  {
    hide LineAt, Bumped, GroupFor, Empty, Firsts;
    var line, gs := LineAt(rows, k, names), Groups(keys, rows, names, aggs);
    var firsts := Firsts(keys, rows, names);
    var lines := Lines(firsts, rows, names);
    var after := Groups(keys + [k], rows, names, aggs);
    FirstsSnoc(keys, k, rows, names);
    FirstsAreDistinct(keys, rows, names);
    assert firsts + [] == firsts;
    forall j | 0 <= j < |firsts| ensures after[j] == if lines[j] == line then Bumped(gs[j], rows[k], aggs) else gs[j] {
      GroupForSnoc(lines[j], keys, k, rows, names, aggs);
    }
    if line !in lines {
      GroupForSnoc(line, keys, k, rows, names, aggs);
      NewGroup(line, keys, rows, names, aggs);
    }
  }

  // ------------------------------------------------------------- one pass

  /** The groups of `keys`, and where the group of each line is. */
  ghost predicate Indexed(index: map<string, nat>, order: seq<Grouped>, keys: seq<Key>, rows: map<Key, Row>,
                          names: seq<string>, aggs: seq<Agg>) {
    var lines := Lines(Firsts(keys, rows, names), rows, names);
    && order == Groups(keys, rows, names, aggs)
    && (forall line: Line :: ProjectionKey(line) in index <==> line in lines)
    && (forall line: Line :: line in lines ==>
        index[ProjectionKey(line)] < |lines| && lines[index[ProjectionKey(line)]] == line)
  }

  lemma NothingIndexed(rows: map<Key, Row>, names: seq<string>, aggs: seq<Agg>)
    ensures Indexed(map[], [], [], rows, names, aggs)
  {
    LinesOfNothing(rows, names);
  }

  lemma IndexedOld(index: map<string, nat>, order: seq<Grouped>, keys: seq<Key>, k: Key, rows: map<Key, Row>,
                   names: seq<string>, aggs: seq<Agg>)
    requires Indexed(index, order, keys, rows, names, aggs) && k in rows
             && ProjectionKey(LineAt(rows, k, names)) in index
    ensures var i := index[ProjectionKey(LineAt(rows, k, names))];
            i < |order| && |order[i].cells| == |aggs|
              && Indexed(index, order[i := Bumped(order[i], rows[k], aggs)], keys + [k], rows, names, aggs)
  {
    hide LineAt, Bumped, Firsts, ProjectionKey, Lines, GroupFor;
    GroupsSnoc(keys, k, rows, names, aggs);
    FirstsSnoc(keys, k, rows, names);
    assert Firsts(keys, rows, names) + [] == Firsts(keys, rows, names);
  }

  lemma IndexedNew(index: map<string, nat>, order: seq<Grouped>, keys: seq<Key>, k: Key, rows: map<Key, Row>,
                   names: seq<string>, aggs: seq<Agg>)
    requires Indexed(index, order, keys, rows, names, aggs) && k in rows
             && ProjectionKey(LineAt(rows, k, names)) !in index
    ensures var line := LineAt(rows, k, names);
            Indexed(index[ProjectionKey(line) := |order|], order + [Bumped(Empty(line, aggs), rows[k], aggs)],
                    keys + [k], rows, names, aggs)
  {
    hide LineAt, Bumped, Firsts, ProjectionKey, Lines, GroupFor, Empty;
    var line := LineAt(rows, k, names);
    GroupsSnoc(keys, k, rows, names, aggs);
    FirstsSnoc(keys, k, rows, names);
    LinesSnoc(Firsts(keys, rows, names), k, rows, names);
    var after := index[ProjectionKey(line) := |order|];
    var lines := Lines(Firsts(keys, rows, names), rows, names);
    assert Lines(Firsts(keys + [k], rows, names), rows, names) == lines + [line];
    forall other: Line ensures ProjectionKey(other) in after <==> other in lines + [line] { KeyIsRow(other, line); }
    forall other: Line | other in lines + [line]
      ensures after[ProjectionKey(other)] < |lines| + 1 && (lines + [line])[after[ProjectionKey(other)]] == other
    {
      KeyIsRow(other, line);
    }
  }

  /** The cells of one group, aggregate by aggregate. */
  method AddCells(g: Grouped, aggs: seq<Agg>, args: seq<Value>, ghost row: Row) returns (out: Grouped)
    requires |g.cells| == |aggs| == |args| && forall i :: 0 <= i < |aggs| ==> args[i] == Argument(aggs[i], row)
    ensures out == Bumped(g, row, aggs)
  {
    hide Step, Argument;
    var cells: seq<Cell> := [];
    for i := 0 to |aggs|
      invariant |cells| == i && forall j :: 0 <= j < i ==> cells[j] == Bumped(g, row, aggs).cells[j]
    {
      cells := cells + [Step(aggs[i], g.cells[i], args[i])];
    }
    return Grouped(g.vals, cells);
  }

  /** accumulate: the row goes to the group with its key, which is made when it is new. */
  method Accumulate(index: map<string, nat>, order: seq<Grouped>, gvals: Line, args: seq<Value>, aggs: seq<Agg>,
                    ghost keys: seq<Key>, ghost k: Key, ghost rows: map<Key, Row>, ghost names: seq<string>)
    returns (index': map<string, nat>, order': seq<Grouped>)
    requires Indexed(index, order, keys, rows, names, aggs) && k in rows && gvals == LineAt(rows, k, names)
    requires |args| == |aggs| && forall i :: 0 <= i < |aggs| ==> args[i] == Argument(aggs[i], rows[k])
    ensures Indexed(index', order', keys + [k], rows, names, aggs)
  {
    hide LineAt, Bumped, Indexed, ProjectionKey, Argument, Empty;
    var key := RowProjectionKey(gvals);
    index', order' := index, order;
    if key in index {
      IndexedOld(index, order, keys, k, rows, names, aggs);
      var g := AddCells(order[index[key]], aggs, args, rows[k]);
      order' := order[index[key] := g];
    } else {
      IndexedNew(index, order, keys, k, rows, names, aggs);
      EmptyCells(gvals, aggs);
      var g := AddCells(Empty(gvals, aggs), aggs, args, rows[k]);
      index', order' := index[key := |order|], order + [g];
    }
  }

  lemma EmptyCells(line: Line, aggs: seq<Agg>)
    ensures |Empty(line, aggs).cells| == |aggs|
  {
  }

  /** What the compiler has checked about a grouped query. */
  ghost predicate GroupFits(q: Query, aggs: seq<Agg>, columns: seq<Column>) {
    QueryFits(q, columns) && forall i :: 0 <= i < |aggs| && !aggs[i].CountAll? ==> HasColumn(columns, aggs[i].column)
  }

  method FastArguments(values: seq<Value>, colPos: map<string, nat>, aggs: seq<Agg>, ghost columns: seq<Column>,
                       ghost row: Row) returns (args: seq<Value>)
    requires PositionsFit(columns, colPos) && values == Project(columns, row)
    requires forall i :: 0 <= i < |aggs| && !aggs[i].CountAll? ==> HasColumn(columns, aggs[i].column)
    ensures |args| == |aggs| && forall i :: 0 <= i < |aggs| ==> args[i] == Argument(aggs[i], row)
  {
    hide PositionsFit, Project, HasColumn;
    args := [];
    for i := 0 to |aggs|
      invariant |args| == i && forall j :: 0 <= j < i ==> args[j] == Argument(aggs[j], row)
    {
      var v := Null;
      if !aggs[i].CountAll? {
        PositionOf(columns, colPos, aggs[i].column, row);
        v := values[colPos[aggs[i].column]];
      }
      args := args + [v];
    }
  }

  method MapArguments(row: Row, aggs: seq<Agg>) returns (args: seq<Value>)
    ensures |args| == |aggs| && forall i :: 0 <= i < |aggs| ==> args[i] == Argument(aggs[i], row)
  {
    args := [];
    for i := 0 to |aggs|
      invariant |args| == i && forall j :: 0 <= j < i ==> args[j] == Argument(aggs[j], row)
    {
      args := args + [Argument(aggs[i], row)];
    }
  }

  /** The pass over the fast array. `q.names` are the grouping columns. */
  method GroupFast(s: State, q: Query, aggs: seq<Agg>) returns (order: seq<Grouped>)
    requires Core(s) && FastOK(s) && s.fast != [] && GroupFits(q, aggs, s.columns)
    ensures order == Groups(Filtered(Live(s), s.rows, q), s.rows, q.names, aggs)
  {
    hide Core, FastOK, Indexed, Project, PositionsFit, FastKeys, Wanted, LineAt, HasColumn, Compiled, Filtered, Groups,
      Argument;
    var index: map<string, nat> := map[];
    order := [];
    NothingIndexed(s.rows, q.names, aggs);
    StartFiltered(s, q);
    for i := 0 to |s.fast|
      invariant Indexed(index, order, Filtered(FastKeys(s.fast[..i]), s.rows, q), s.rows, q.names, aggs)
    {
      FastAt(s, i);
      ghost var keys, k := FastKeys(s.fast[..i]), s.fast[i].key;
      assert keys + [] == keys;
      if s.fast[i].key != "" {
        FilteredSnoc(keys, k, s.rows, q);
        var wanted := WantedFast(s.fast[i].values, s.colPos, q, None, s.columns, s.rows[k]);
        if wanted {
          var gvals := SelectedFastValues(s.fast[i].values, q.names, s.colPos, s.columns, s.rows, k);
          var args := FastArguments(s.fast[i].values, s.colPos, aggs, s.columns, s.rows[k]);
          index, order := Accumulate(index, order, gvals, args, aggs, Filtered(keys, s.rows, q), k, s.rows, q.names);
        }
      }
    }
    assert s.fast[..|s.fast|] == s.fast;
    FastRest(s, |s.fast|);
    assert FastKeys(s.fast) + [] == FastKeys(s.fast);
    IndexedGroups(index, order, Filtered(FastKeys(s.fast), s.rows, q), s.rows, q.names, aggs);
  }

  /** The pass over the order and the row maps. */
  method GroupMap(s: State, q: Query, aggs: seq<Agg>) returns (order: seq<Grouped>)
    requires Core(s)
    ensures order == Groups(Filtered(Live(s), s.rows, q), s.rows, q.names, aggs)
  {
    hide Core, Indexed, Wanted, LineAt, Filtered, Groups, Argument;
    var index: map<string, nat> := map[];
    order := [];
    NothingIndexed(s.rows, q.names, aggs);
    StartFiltered(s, q);
    for i := 0 to |s.order|
      invariant Indexed(index, order, Filtered(s.order[..i], s.rows, q), s.rows, q.names, aggs)
    {
      var k := s.order[i];
      assert s.order[..i + 1] == s.order[..i] + [k];
      FilteredSnoc(s.order[..i], k, s.rows, q);
      if k in s.rows {
        var wanted := WantedMap(s.rows[k], q);
        if wanted {
          var gvals := SelectedValues(s.rows, k, q.names);
          var args := MapArguments(s.rows[k], aggs);
          index, order := Accumulate(index, order, gvals, args, aggs, Filtered(s.order[..i], s.rows, q), k, s.rows,
                                     q.names);
        }
      }
    }
    assert s.order[..|s.order|] == s.order;
    FilteredLive(s.order, s.rows, q);
    IndexedGroups(index, order, Filtered(s.order, s.rows, q), s.rows, q.names, aggs);
  }

  lemma IndexedGroups(index: map<string, nat>, order: seq<Grouped>, keys: seq<Key>, rows: map<Key, Row>,
                      names: seq<string>, aggs: seq<Agg>)
    requires Indexed(index, order, keys, rows, names, aggs)
    ensures order == Groups(keys, rows, names, aggs)
  {
  }

  lemma StartFiltered(s: State, q: Query)
    ensures s.fast[..0] == [] && s.order[..0] == [] && FastKeys([]) == [] && Filtered([], s.rows, q) == []
  {
  }

  lemma FilteredSnoc(keys: seq<Key>, k: Key, rows: map<Key, Row>, q: Query)
    ensures Filtered(keys + [k], rows, q)
            == if k in rows && Wanted(rows[k], q) then Filtered(keys, rows, q) + [k] else Filtered(keys, rows, q)
  {
    hide Wanted;
    assert (keys + [k])[..|keys|] == keys;
    assert Filtered(keys, rows, q) + [] == Filtered(keys, rows, q);
  }

  lemma {:induction false} FilteredLive(keys: seq<Key>, rows: map<Key, Row>, q: Query)
    ensures Filtered(keys, rows, q) == Filtered(Keep(keys, rows.Keys), rows, q)
    decreases |keys|
  {
    hide Wanted;
    if keys != [] {
      var n := |keys| - 1;
      FilteredLive(keys[..n], rows, q);
      assert keys == keys[..n] + [keys[n]];
      KeepSnoc(keys[..n], keys[n], rows.Keys);
      FilteredSnoc(keys[..n], keys[n], rows, q);
      FilteredSnoc(Keep(keys[..n], rows.Keys), keys[n], rows, q);
      assert Keep(keys[..n], rows.Keys) + [] == Keep(keys[..n], rows.Keys);
    }
  }

  // ------------------------------------------------------ what groups mean

  /** A grouped query gives the same groups, in the same order, with and without the fast array. */
  method GroupedRows(s: State, q: Query, aggs: seq<Agg>) returns (order: seq<Grouped>)
    requires Core(s) && FastOK(s) && GroupFits(q, aggs, s.columns)
    ensures order == Groups(Filtered(Live(s), s.rows, q), s.rows, q.names, aggs)
  {
    if |s.fast| > 0 {
      order := GroupFast(s, q, aggs);
    } else {
      order := GroupMap(s, q, aggs);
    }
  }

  function SumCounts(gs: seq<Grouped>, a: nat): nat {
    if gs == [] then 0
    else SumCounts(gs[..|gs| - 1], a) + if a < |gs[|gs| - 1].cells| then gs[|gs| - 1].cells[a].count else 0
  }

  lemma {:induction false} SumOfUpdate(gs: seq<Grouped>, i: nat, g: Grouped, a: nat)
    requires i < |gs| && a < |gs[i].cells| && a < |g.cells| && g.cells[a].count == gs[i].cells[a].count + 1
    ensures SumCounts(gs[i := g], a) == SumCounts(gs, a) + 1
    decreases |gs|
  {
    var n := |gs| - 1;
    if i < n {
      SumOfUpdate(gs[..n], i, g, a);
      assert gs[i := g][..n] == gs[..n][i := g];
    } else {
      assert gs[i := g][..n] == gs[..n];
    }
  }

  lemma SumOfMore(gs: seq<Grouped>, g: Grouped, a: nat)
    ensures SumCounts(gs + [g], a) == SumCounts(gs, a) + if a < |g.cells| then g.cells[a].count else 0
  {
    assert (gs + [g])[..|gs|] == gs;
  }

  /** The COUNT(*) results over all groups add up to the number of rows. */
  lemma {:induction false} CountsAddUp(keys: seq<Key>, rows: map<Key, Row>, names: seq<string>, aggs: seq<Agg>, a: nat)
    requires a < |aggs| && aggs[a].CountAll? && forall i :: 0 <= i < |keys| ==> keys[i] in rows
    ensures SumCounts(Groups(keys, rows, names, aggs), a) == |keys|
    decreases |keys|
  {
    hide LineAt, Groups, GroupFor, Firsts;
    if keys == [] {
      assert Groups(keys, rows, names, aggs) == [] by { NoGroups(rows, names, aggs); }
    } else {
      var n := |keys| - 1;
      var first, k := keys[..n], keys[n];
      CountsAddUp(first, rows, names, aggs, a);
      GroupsSnoc(first, k, rows, names, aggs);
      assert keys == first + [k];
      var gs, line := Groups(first, rows, names, aggs), LineAt(rows, k, names);
      var lines := Lines(Firsts(first, rows, names), rows, names);
      if line in lines {
        var i :| 0 <= i < |lines| && lines[i] == line;
        CellsThere(first, rows, names, aggs, i);
        SumOfUpdate(gs, i, Bumped(gs[i], rows[k], aggs), a);
      } else {
        SumOfMore(gs, Bumped(Empty(line, aggs), rows[k], aggs), a);
      }
    }
  }

  lemma NoGroups(rows: map<Key, Row>, names: seq<string>, aggs: seq<Agg>)
    ensures Groups([], rows, names, aggs) == []
  {
  }

  lemma CellsThere(keys: seq<Key>, rows: map<Key, Row>, names: seq<string>, aggs: seq<Agg>, i: nat)
    requires i < |Groups(keys, rows, names, aggs)|
    ensures |Groups(keys, rows, names, aggs)[i].cells| == |aggs|
  {
  }

  /** Every row is in exactly one group. */
  lemma OneGroupEach(keys: seq<Key>, rows: map<Key, Row>, names: seq<string>, aggs: seq<Agg>, k: Key)
    requires k in keys
    ensures exists i ::
              && 0 <= i < |Groups(keys, rows, names, aggs)|
              && Groups(keys, rows, names, aggs)[i].vals == LineAt(rows, k, names)
    ensures var gs := Groups(keys, rows, names, aggs); forall i, j :: 0 <= i < j < |gs| ==> gs[i].vals != gs[j].vals
  {
    hide LineAt, Firsts, GroupFor;
    var firsts, gs := Firsts(keys, rows, names), Groups(keys, rows, names, aggs);
    var lines := Lines(firsts, rows, names);
    FirstsAreDistinct(keys, rows, names);
    assert forall i :: 0 <= i < |gs| ==> gs[i].vals == lines[i];
    var j :| 0 <= j < |keys| && keys[j] == k;
    assert Lines(keys, rows, names)[j] == LineAt(rows, k, names);
    assert LineAt(rows, k, names) in Lines(keys, rows, names);
    assert LineAt(rows, k, names) in lines;
    var i :| 0 <= i < |lines| && lines[i] == LineAt(rows, k, names);
    assert gs[i].vals == LineAt(rows, k, names);
  }

  /** The members of a group are the rows with its values, each as often as it was matched. */
  lemma {:induction false} MembersAre(keys: seq<Key>, rows: map<Key, Row>, names: seq<string>, line: Line)
    ensures forall k :: k in Members(keys, rows, names, line) <==> k in keys && LineAt(rows, k, names) == line
    decreases |keys|
  {
    hide LineAt;
    if keys != [] {
      MembersAre(keys[..|keys| - 1], rows, names, line);
      assert keys == keys[..|keys| - 1] + [keys[|keys| - 1]];
    }
  }

  lemma {:induction false} CountIs(keys: seq<Key>, rows: map<Key, Row>)
    ensures Total(CountAll, keys, rows).count == |keys|
    decreases |keys|
  {
    if keys != [] { CountIs(keys[..|keys| - 1], rows); }
  }

  /** The rows with a value in the column. */
  function NonNull(keys: seq<Key>, rows: map<Key, Row>, column: string): seq<Key> {
    if keys == [] then []
    else
      var k := keys[|keys| - 1];
      NonNull(keys[..|keys| - 1], rows, column) + if k in rows && Get(rows[k], column) != Null then [k] else []
  }

  /** COUNT(column) leaves NULLs out. */
  lemma {:induction false} CountColumnIs(keys: seq<Key>, rows: map<Key, Row>, column: string)
    ensures Total(Count(column), keys, rows).count == |NonNull(keys, rows, column)|
    ensures forall k :: k in NonNull(keys, rows, column) <==> k in keys && k in rows && Get(rows[k], column) != Null
    decreases |keys|
  {
    if keys != [] {
      CountColumnIs(keys[..|keys| - 1], rows, column);
      assert keys == keys[..|keys| - 1] + [keys[|keys| - 1]];
    }
  }

  /** The values of one column, NULLs included. */
  ghost predicate TypedColumn(keys: seq<Key>, rows: map<Key, Row>, column: string, t: Type) {
    forall i :: 0 <= i < |keys| ==> keys[i] in rows && HasType(Get(rows[keys[i]], column), t)
  }

  predicate Precedes(a: Value, b: Value, least: bool) { if least then ValueLess(a, b) else ValueLess(b, a) }

  /** MIN and MAX: NULL exactly when there is no other value, else a value of the column that is at most, or
      at least, every other one. */
  lemma {:induction false} ExtremeIs(keys: seq<Key>, rows: map<Key, Row>, column: string, t: Type, least: bool)
    requires TypedColumn(keys, rows, column, t)
    ensures var e := Total(if least then Min(column) else Max(column), keys, rows).extreme;
            && HasType(e, t)
            && (e != Null ==> exists i :: 0 <= i < |keys| && Get(rows[keys[i]], column) == e)
            && (forall i :: 0 <= i < |keys| && Get(rows[keys[i]], column) != Null ==>
                && e != Null && !Precedes(Get(rows[keys[i]], column), e, least)
                && (if least then AtMost(e, Get(rows[keys[i]], column)) else AtMost(Get(rows[keys[i]], column), e)))
    decreases |keys|
  {
    hide ValueLess, HasType, AtMost;
    if keys != [] {
      var n := |keys| - 1;
      var first := keys[..n];
      ExtremeIs(first, rows, column, t, least);
      var agg := if least then Min(column) else Max(column);
      var d, e, v := Total(agg, first, rows).extreme, Total(agg, keys, rows).extreme, Get(rows[keys[n]], column);
      if e == v && e != Null { assert Get(rows[keys[n]], column) == e; }
      if e == d && e != Null {
        var i :| 0 <= i < n && Get(rows[first[i]], column) == e;
        assert Get(rows[keys[i]], column) == e;
      }
      ValueOrder(v, v, v, t);
      forall i | 0 <= i < |keys| && Get(rows[keys[i]], column) != Null
        ensures e != Null && !Precedes(Get(rows[keys[i]], column), e, least)
        ensures if least then AtMost(e, Get(rows[keys[i]], column)) else AtMost(Get(rows[keys[i]], column), e)
      {
        OrderIs(Get(rows[keys[i]], column), e);
        OrderIs(e, Get(rows[keys[i]], column));
        if i < n {
          var w := Get(rows[first[i]], column);
          ValueOrder(w, d, v, t);
          ValueOrder(v, d, w, t);
          ValueOrder(w, v, d, t);
          ValueOrder(v, w, d, t);
        }
      }
    } else {
      assert HasType(Null, t) by { NullFits(t); }
    }
  }

  lemma NullFits(t: Type)
    ensures HasType(Null, t)
  {
  }
}
