/** SELECT without aggregates (internal/engine/select.go): the plan over the fast array, the plan over
    keys with or without ORDER BY, and the lookups by primary key and by index, against one reference:
    filter, first-occurrence distinct, sort, project, drop OFFSET, take LIMIT. */
module Select {
  import opened Values
  import opened Literals
  import opened Storage
  import opened TableState
  import opened Conditions
  import opened Projection
  import OrderBy

  type Line = seq<Value>

  /** A parsed query. A negative `limit` is none; `maxRows` applies when positive. */
  datatype Query = Query(where: Option<Condition>, names: seq<string>, distinct: bool, limit: int, offset: nat,
                         maxRows: int)

  datatype Ordering = Ordering(column: string, descending: bool)

  predicate Wanted(row: Row, q: Query) { q.where.None? || Satisfies(row, q.where.value) }

  function LineAt(rows: map<Key, Row>, k: Key, names: seq<string>): (line: Line)
    ensures |line| == |names|
  {
    seq(|names|, i requires 0 <= i < |names| => if k in rows then Get(rows[k], names[i]) else Null)
  }

  function Lines(keys: seq<Key>, rows: map<Key, Row>, names: seq<string>): (lines: seq<Line>)
    ensures |lines| == |keys|
  {
    seq(|keys|, i requires 0 <= i < |keys| => LineAt(rows, keys[i], names))
  }

  // -------------------------------------------------------------- reference

  function Filtered(keys: seq<Key>, rows: map<Key, Row>, q: Query): seq<Key> {
    if keys == [] then []
    else
      var k := keys[|keys| - 1];
      Filtered(keys[..|keys| - 1], rows, q) + if k in rows && Wanted(rows[k], q) then [k] else []
  }

  /** The keys whose line has not occurred before. */
  function Firsts(keys: seq<Key>, rows: map<Key, Row>, names: seq<string>): seq<Key> {
    if keys == [] then []
    else
      var first, k := Firsts(keys[..|keys| - 1], rows, names), keys[|keys| - 1];
      first + if LineAt(rows, k, names) in Lines(first, rows, names) then [] else [k]
  }

  function Sorted(keys: seq<Key>, rows: map<Key, Row>, ord: Option<Ordering>): seq<Key> {
    match ord
    case None => keys
    case Some(o) => OrderBy.KeysOf(OrderBy.StableSort(OrderBy.Candidates(rows, keys, o.column), o.descending))
  }

  /** The keys of a query's answer before OFFSET and LIMIT. */
  function Selected(live: seq<Key>, rows: map<Key, Row>, q: Query, ord: Option<Ordering>): seq<Key> {
    var matched := Filtered(live, rows, q);
    Sorted(if q.distinct then Firsts(matched, rows, q.names) else matched, rows, ord)
  }

  function Take<T>(s: seq<T>, n: int): seq<T> { if 0 <= n < |s| then s[..n] else s }

  function Drop<T>(s: seq<T>, n: nat): seq<T> { if n < |s| then s[n..] else [] }

  /** The row limit is an error, not a cut. */
  function Bounded(lines: seq<Line>, maxRows: int): Result<seq<Line>> {
    if maxRows > 0 && |lines| > maxRows then Err("result too large") else Ok(lines)
  }

  function Answer(lines: seq<Line>, q: Query): Result<seq<Line>> {
    Bounded(Take(Drop(lines, q.offset), q.limit), q.maxRows)
  }

  // --------------------------------------------------------------- early stop

  function SatAdd(a: int, b: int): int { if a > MAX_INT64 - b then MAX_INT64 else a + b }

  function RowCap(q: Query): int {
    var cap := if q.limit >= 0 then SatAdd(q.limit, q.offset) else -1;
    var emit := SatAdd(SatAdd(q.maxRows, q.offset), 1);
    if q.maxRows > 0 && (cap < 0 || cap > emit) then emit else cap
  }

  /** The numbers of a query and of a result are machine integers. */
  predicate InBounds(q: Query, n: nat) {
    q.limit <= MAX_INT64 && q.offset <= MAX_INT64 && q.maxRows <= MAX_INT64 && n <= MAX_INT64
  }

  /** applyOffset and capResultRows, on what was collected. */
  function Finish(rows: seq<Line>, q: Query): Result<seq<Line>> { Bounded(Drop(rows, q.offset), q.maxRows) }

  /** Stopping after the row cap loses neither a row of the answer nor the row-limit error. */
  lemma CapIsEnough(lines: seq<Line>, q: Query)
    requires InBounds(q, |lines|)
    ensures Finish(Take(lines, RowCap(q)), q) == Answer(lines, q)
  {
    var cap := RowCap(q);
    var kept := Take(lines, cap);
    var wanted := Take(Drop(lines, q.offset), q.limit);
    var got := Drop(kept, q.offset);
    if kept != lines && q.offset < cap {
      assert got == lines[q.offset..cap];
      if 0 <= q.limit && cap == q.limit + q.offset {
        assert wanted == lines[q.offset..cap];
      }
    }
  }

  lemma CapZero(q: Query)
    requires InBounds(q, 0)
    ensures RowCap(q) == 0 <==> q.limit == 0 && q.offset == 0
    ensures RowCap(q) < 0 <==> q.limit < 0 && q.maxRows <= 0
  {
  }

  // ---------------------------------------------------------- keys, one by one

  /** The keys a scan keeps: filter and distinct in one pass. */
  function Chosen(keys: seq<Key>, rows: map<Key, Row>, q: Query): seq<Key> {
    if keys == [] then []
    else
      var c, k := Chosen(keys[..|keys| - 1], rows, q), keys[|keys| - 1];
      c + if k in rows && Wanted(rows[k], q) && !(q.distinct && LineAt(rows, k, q.names) in Lines(c, rows, q.names))
        then [k] else []
  }

  lemma ChosenSnoc(keys: seq<Key>, k: Key, rows: map<Key, Row>, q: Query)
    ensures var c := Chosen(keys, rows, q);
            Chosen(keys + [k], rows, q) ==
            c + if && k in rows && Wanted(rows[k], q)
                   && !(q.distinct && LineAt(rows, k, q.names) in Lines(c, rows, q.names)) then [k] else []
  {
    hide Wanted, Lines, LineAt;
    assert (keys + [k])[..|keys|] == keys;
  }

  lemma {:induction false} ChosenIs(keys: seq<Key>, rows: map<Key, Row>, q: Query)
    ensures Chosen(keys, rows, q)
            == if q.distinct then Firsts(Filtered(keys, rows, q), rows, q.names) else Filtered(keys, rows, q)
    decreases |keys|
  {
    hide Wanted, Lines, LineAt;
    if keys != [] {
      var n := |keys| - 1;
      ChosenIs(keys[..n], rows, q);
      var front, k := Filtered(keys[..n], rows, q), keys[n];
      if k in rows && Wanted(rows[k], q) {
        assert (front + [k])[..|front|] == front;
      } else {
        assert front + [] == front;
      }
    }
  }

  lemma {:induction false} ChosenGrows(a: seq<Key>, b: seq<Key>, rows: map<Key, Row>, q: Query)
    ensures Chosen(a, rows, q) <= Chosen(a + b, rows, q)
    decreases |b|
  {
    hide Wanted, Lines, LineAt;
    if b == [] {
      assert a + b == a;
    } else {
      var n := |b| - 1;
      ChosenGrows(a, b[..n], rows, q);
      assert a + b == (a + b[..n]) + [b[n]];
      ChosenSnoc(a + b[..n], b[n], rows, q);
    }
  }

  /** Tombstones are passed over. */
  lemma {:induction false} ChosenLive(keys: seq<Key>, rows: map<Key, Row>, q: Query)
    ensures Chosen(keys, rows, q) == Chosen(Keep(keys, rows.Keys), rows, q)
    decreases |keys|
  {
    hide Wanted, Lines, LineAt;
    if keys != [] {
      var n := |keys| - 1;
      ChosenLive(keys[..n], rows, q);
      assert keys == keys[..n] + [keys[n]];
      KeepSnoc(keys[..n], keys[n], rows.Keys);
      ChosenSnoc(Keep(keys[..n], rows.Keys), keys[n], rows, q);
      if keys[n] !in rows {
        assert Keep(keys[..n], rows.Keys) + [] == Keep(keys[..n], rows.Keys);
        assert Chosen(keys[..n], rows, q) + [] == Chosen(keys[..n], rows, q);
      }
    }
  }

  lemma {:induction false} ChosenMembers(keys: seq<Key>, rows: map<Key, Row>, q: Query)
    ensures forall k :: k in Chosen(keys, rows, q) ==> k in rows && Wanted(rows[k], q)
    ensures |Chosen(keys, rows, q)| <= |keys|
    decreases |keys|
  {
    hide Wanted, Lines, LineAt;
    if keys != [] { ChosenMembers(keys[..|keys| - 1], rows, q); }
  }

  lemma LinesPrefix(a: seq<Key>, b: seq<Key>, rows: map<Key, Row>, names: seq<string>)
    requires a <= b
    ensures Lines(a, rows, names) == Lines(b, rows, names)[..|a|]
  {
    hide LineAt;
  }

  lemma LinesSnoc(a: seq<Key>, k: Key, rows: map<Key, Row>, names: seq<string>)
    ensures Lines(a + [k], rows, names) == Lines(a, rows, names) + [LineAt(rows, k, names)]
  {
    hide LineAt;
  }

  // ---------------------------------------------------------- distinct lines

  /** The dedup keys of the lines so far. */
  ghost predicate Seen(seen: set<string>, lines: seq<Line>) {
    forall line: Line :: ProjectionKey(line) in seen <==> line in lines
  }

  lemma SeenNothing()
    ensures Seen({}, [])
  {
  }

  lemma SeenMore(seen: set<string>, lines: seq<Line>, line: Line)
    requires Seen(seen, lines)
    ensures Seen(seen + {ProjectionKey(line)}, lines + [line])
  {
    hide ProjectionKey;
    forall other: Line ensures ProjectionKey(other) in seen + {ProjectionKey(line)} <==> other in lines + [line] {
      KeyIsRow(other, line);
    }
  }

  /** addLine and dedupKey: whether a line is new, recorded when it is. */
  method AddLine(seen: set<string>, line: Line, distinct: bool, ghost lines: seq<Line>)
    returns (isNew: bool, after: set<string>)
    requires distinct ==> Seen(seen, lines)
    ensures isNew <==> !(distinct && line in lines)
    ensures distinct ==> Seen(after, if isNew then lines + [line] else lines)
  {
    hide Seen, ProjectionKey;
    if !distinct {
      return true, seen;
    }
    var key := RowProjectionKey(line);
    SeenHas(seen, lines, line);
    if key in seen {
      return false, seen;
    }
    SeenMore(seen, lines, line);
    return true, seen + {key};
  }

  lemma SeenHas(seen: set<string>, lines: seq<Line>, line: Line)
    requires Seen(seen, lines)
    ensures ProjectionKey(line) in seen <==> line in lines
  {
  }

  // ---------------------------------------------------------- the array plan

  /** What the parser has checked: every name and every term is a column. */
  ghost predicate QueryFits(q: Query, columns: seq<Column>) {
    && (forall i :: 0 <= i < |q.names| ==> HasColumn(columns, q.names[i]))
    && (q.where.Some? ==> Compiled(q.where.value, columns))
  }

  /** A bare equality, when the query is one. */
  ghost predicate TermIs(term: Option<FastTerm>, q: Query, columns: seq<Column>) {
    term.Some? ==> exists column ::
      TermFits(term.value, columns, column) && q.where == Some([[Compare(column, Eq, term.value.expected)]])
  }

  method SelectedFastValues(values: seq<Value>, names: seq<string>, colPos: map<string, nat>,
                            ghost columns: seq<Column>, ghost rows: map<Key, Row>, ghost k: Key)
    returns (line: Line)
    requires k in rows && PositionsFit(columns, colPos) && values == Project(columns, rows[k])
    requires forall i :: 0 <= i < |names| ==> HasColumn(columns, names[i])
    ensures line == LineAt(rows, k, names)
  {
    hide HasColumn, PositionsFit, Project;
    line := [];
    for i := 0 to |names|
      invariant |line| == i && forall j :: 0 <= j < i ==> line[j] == LineAt(rows, k, names)[j]
    {
      PositionOf(columns, colPos, names[i], rows[k]);
      if names[i] !in colPos || colPos[names[i]] >= |values| {
        line := line + [Null];
      } else {
        line := line + [values[colPos[names[i]]]];
      }
    }
  }

  method WantedFast(values: seq<Value>, colPos: map<string, nat>, q: Query, term: Option<FastTerm>,
                    ghost columns: seq<Column>, ghost row: Row) returns (b: bool)
    requires PositionsFit(columns, colPos) && values == Project(columns, row) && QueryFits(q, columns)
             && TermIs(term, q, columns)
    ensures b == Wanted(row, q)
  {
    hide PositionsFit, Project, Compiled, Satisfies, HasColumn;
    if term.Some? {
      ghost var column :| TermFits(term.value, columns, column)
        && q.where == Some([[Compare(column, Eq, term.value.expected)]]);
      FastTermIs(columns, row, term.value, column);
      return MatchFastTerm(values, term.value);
    }
    if q.where.None? {
      return true;
    }
    b := MatchesFast(values, colPos, q.where.value, columns, row);
  }

  /** One entry of the array. */
  lemma FastAt(s: State, i: nat)
    requires Core(s) && FastOK(s) && i < |s.fast|
    ensures FastKeys(s.fast[..i + 1]) == FastKeys(s.fast[..i]) + if s.fast[i].key == "" then [] else [s.fast[i].key]
    ensures s.fast[i].key != "" ==>
            s.fast[i].key in s.rows && s.fast[i].values == Project(s.columns, s.rows[s.fast[i].key])
    ensures PositionsFit(s.columns, s.colPos) && FastKeys(s.fast) == Live(s)
  {
    hide RowsFit, IndexesFit, OrderFits, ColumnsFit, Dense, HasColumn, Project, PositionsFit, Keep;
    assert s.fast[..i + 1] == s.fast[..i] + [s.fast[i]];
    FastKeysSnoc(s.fast[..i], s.fast[i]);
  }

  /** `rows` are the lines of the keys chosen among `keys`. */
  ghost predicate Collected(s: State, q: Query, keys: seq<Key>, rows: seq<Line>, seen: set<string>) {
    rows == Lines(Chosen(keys, s.rows, q), s.rows, q.names) && (q.distinct ==> Seen(seen, rows))
  }

  lemma CollectedSeen(s: State, q: Query, keys: seq<Key>, rows: seq<Line>, seen: set<string>)
    requires Collected(s, q, keys, rows, seen)
    ensures q.distinct ==> Seen(seen, rows)
  {
  }

  lemma CollectSkip(s: State, q: Query, keys: seq<Key>, k: Key, rows: seq<Line>, seen: set<string>)
    requires Collected(s, q, keys, rows, seen) && (k in s.rows ==> !Wanted(s.rows[k], q))
    ensures Collected(s, q, keys + [k], rows, seen)
  {
    hide Wanted, Lines, LineAt, Seen;
    ChosenSnoc(keys, k, s.rows, q);
    assert Chosen(keys, s.rows, q) + [] == Chosen(keys, s.rows, q);
  }

  lemma CollectLine(s: State, q: Query, keys: seq<Key>, k: Key, rows: seq<Line>, seen: set<string>, isNew: bool,
                    after: set<string>)
    requires Collected(s, q, keys, rows, seen) && k in s.rows && Wanted(s.rows[k], q)
    requires isNew <==> !(q.distinct && LineAt(s.rows, k, q.names) in rows)
    requires q.distinct ==> Seen(after, if isNew then rows + [LineAt(s.rows, k, q.names)] else rows)
    ensures Collected(s, q, keys + [k], if isNew then rows + [LineAt(s.rows, k, q.names)] else rows, after)
  {
    hide Wanted, Lines, LineAt, Seen;
    ChosenSnoc(keys, k, s.rows, q);
    LinesSnoc(Chosen(keys, s.rows, q), k, s.rows, q.names);
    assert Chosen(keys, s.rows, q) + [] == Chosen(keys, s.rows, q);
  }

  /** A scan stopped at the cap has the first lines of the whole scan. */
  lemma CollectEnds(s: State, q: Query, keys: seq<Key>, rest: seq<Key>, rows: seq<Line>, seen: set<string>, cap: int)
    requires Collected(s, q, keys, rows, seen) && (rest == [] || |rows| == cap) && (cap < 0 || |rows| <= cap)
    ensures rows == Take(Lines(Chosen(keys + rest, s.rows, q), s.rows, q.names), cap)
  {
    hide Chosen, LineAt, Seen;
    ChosenGrows(keys, rest, s.rows, q);
    LinesPrefix(Chosen(keys, s.rows, q), Chosen(keys + rest, s.rows, q), s.rows, q.names);
    assert rest == [] ==> keys + rest == keys;
  }

  /** The plan over the fast array gives the reference answer, for every limit. */
  method FastScan(s: State, q: Query, term: Option<FastTerm>) returns (res: Result<seq<Line>>)
    requires Core(s) && FastOK(s) && s.fast != [] && QueryFits(q, s.columns) && TermIs(term, q, s.columns)
    requires InBounds(q, |s.order|)
    ensures res == Answer(Lines(Selected(Live(s), s.rows, q, None), s.rows, q.names), q)
  {
    hide Core, FastOK, Chosen, Collected, Project, PositionsFit, FastKeys, Wanted, LineAt, Lines, HasColumn, Compiled,
      TermIs, Answer, Finish, Selected;
    SelectedIs(s, q);
    CapZero(q);
    if q.limit == 0 {
      NothingWanted(Lines(Selected(Live(s), s.rows, q, None), s.rows, q.names), q);
      return Ok([]);
    }
    var cap, rows: seq<Line>, seen: set<string> := RowCap(q), [], {};
    var i := 0;
    CollectNothing(s, q);
    while i < |s.fast| && (cap < 0 || |rows| < cap)
      invariant i <= |s.fast| && Collected(s, q, FastKeys(s.fast[..i]), rows, seen) && (cap < 0 || |rows| <= cap)
      decreases |s.fast| - i
    {
      FastAt(s, i);
      ghost var keys := FastKeys(s.fast[..i]);
      if s.fast[i].key == "" {
        assert keys + [] == keys;
      } else {
        var wanted := WantedFast(s.fast[i].values, s.colPos, q, term, s.columns, s.rows[s.fast[i].key]);
        if wanted {
          var line := SelectedFastValues(s.fast[i].values, q.names, s.colPos, s.columns, s.rows, s.fast[i].key);
          CollectedSeen(s, q, keys, rows, seen);
          var isNew, after := AddLine(seen, line, q.distinct, rows);
          CollectLine(s, q, keys, s.fast[i].key, rows, seen, isNew, after);
          seen := after;
          if isNew {
            rows := rows + [line];
          }
        } else {
          CollectSkip(s, q, keys, s.fast[i].key, rows, seen);
        }
      }
      i := i + 1;
    }
    FastRest(s, i);
    CollectEnds(s, q, FastKeys(s.fast[..i]), FastKeys(s.fast[i..]), rows, seen, cap);
    CapIsEnough(Lines(Selected(Live(s), s.rows, q, None), s.rows, q.names), q);
    return Finish(rows, q);
  }

  lemma SelectedIs(s: State, q: Query)
    requires Core(s)
    ensures Selected(Live(s), s.rows, q, None) == Chosen(Live(s), s.rows, q) == Chosen(s.order, s.rows, q)
    ensures |Chosen(s.order, s.rows, q)| <= |s.order|
  {
    hide Chosen, Filtered, Firsts, Core;
    ChosenIs(Live(s), s.rows, q);
    ChosenLive(s.order, s.rows, q);
    ChosenMembers(s.order, s.rows, q);
  }

  lemma NothingWanted(lines: seq<Line>, q: Query)
    requires q.limit == 0
    ensures Answer(lines, q) == Ok([])
  {
  }

  lemma CollectNothing(s: State, q: Query)
    ensures s.fast[..0] == [] && FastKeys([]) == [] && Chosen([], s.rows, q) == [] && Collected(s, q, [], [], {})
  {
    SeenNothing();
  }

  lemma FastRest(s: State, i: nat)
    requires Core(s) && FastOK(s) && s.fast != [] && i <= |s.fast|
    ensures FastKeys(s.fast[..i]) + FastKeys(s.fast[i..]) == Live(s) && (i == |s.fast| ==> FastKeys(s.fast[i..]) == [])
  {
    hide Core, Keep;
    assert s.fast[..i] + s.fast[i..] == s.fast;
    FastKeysConcat(s.fast[..i], s.fast[i..]);
  }

  // ----------------------------------------------------------- the keyed plan

  method SelectedValues(rows: map<Key, Row>, k: Key, names: seq<string>) returns (line: Line)
    ensures line == LineAt(rows, k, names)
  {
    line := [];
    for i := 0 to |names|
      invariant |line| == i && forall j :: 0 <= j < i ==> line[j] == LineAt(rows, k, names)[j]
    {
      line := line + [if k in rows then Get(rows[k], names[i]) else Null];
    }
  }

  /** The line of a stored key, from the array when it holds the key. */
  method LineOf(s: State, k: Key, names: seq<string>) returns (line: Line)
    requires Core(s) && FastOK(s) && k in s.rows && forall i :: 0 <= i < |names| ==> HasColumn(s.columns, names[i])
    ensures line == LineAt(s.rows, k, names)
  {
    hide HasColumn, LineAt, RowsFit, IndexesFit, OrderFits, ColumnsFit, Dense, PositionsFit, Project, FastKeys;
    if |s.fast| > 0 && k in s.fastPos && s.fast[s.fastPos[k]].key != "" {
      line := SelectedFastValues(s.fast[s.fastPos[k]].values, names, s.colPos, s.columns, s.rows, k);
    } else {
      line := SelectedValues(s.rows, k, names);
    }
  }

  method WantedMap(row: Row, q: Query) returns (b: bool)
    ensures b == Wanted(row, q)
  {
    if q.where.None? {
      return true;
    }
    b := MatchesMap(row, q.where.value);
  }

  /** Cutting after a step, not before one, lets one through at a cap of 0. */
  function AtLeastOne(cap: int): int { if cap == 0 then 1 else cap }

  /** Keys of the matching rows in table order, each line once under DISTINCT; without ORDER BY the scan
      stops at the cap. */
  method CollectKeys(s: State, q: Query, ordered: bool) returns (keys: seq<Key>)
    requires Core(s) && FastOK(s) && QueryFits(q, s.columns)
    ensures keys == if ordered then Chosen(s.order, s.rows, q)
            else Take(Chosen(s.order, s.rows, q), AtLeastOne(RowCap(q)))
  {
    hide Core, FastOK, Chosen, Collected, Wanted, LineAt, Lines, HasColumn, Compiled, RowCap;
    var cap, seen: set<string> := AtLeastOne(RowCap(q)), {};
    keys := [];
    ghost var lines: seq<Line> := [];
    var i := 0;
    CollectNothing(s, q);
    LinesOfNothing(s.rows, q.names);
    assert s.order[..0] == [];
    while i < |s.order| && (ordered || cap < 0 || |keys| < cap)
      invariant i <= |s.order| && Collected(s, q, s.order[..i], lines, seen) && keys == Chosen(s.order[..i], s.rows, q)
      invariant lines == Lines(keys, s.rows, q.names)
      invariant ordered || cap < 0 || |keys| <= cap
      decreases |s.order| - i
    {
      var k := s.order[i];
      assert s.order[..i + 1] == s.order[..i] + [k];
      ChosenSnoc(s.order[..i], k, s.rows, q);
      assert keys + [] == keys;
      var wanted := false;
      if k in s.rows {
        wanted := WantedMap(s.rows[k], q);
      }
      if wanted {
        var line := LineOf(s, k, q.names);
        CollectedSeen(s, q, s.order[..i], lines, seen);
        var isNew, after := AddLine(seen, line, q.distinct, lines);
        CollectLine(s, q, s.order[..i], k, lines, seen, isNew, after);
        LinesSnoc(keys, k, s.rows, q.names);
        seen := after;
        if isNew {
          keys, lines := keys + [k], lines + [line];
        }
      } else {
        CollectSkip(s, q, s.order[..i], k, lines, seen);
      }
      i := i + 1;
    }
    assert s.order[..i] + s.order[i..] == s.order;
    ChosenGrows(s.order[..i], s.order[i..], s.rows, q);
    if i == |s.order| { assert s.order[..i] == s.order; }
  }

  lemma LinesOfNothing(rows: map<Key, Row>, names: seq<string>)
    ensures Lines([], rows, names) == []
  {
  }

  /** The lines of the keys, up to the cap. */
  method Materialise(s: State, q: Query, keys: seq<Key>) returns (rows: seq<Line>)
    requires Core(s) && FastOK(s) && QueryFits(q, s.columns) && forall i :: 0 <= i < |keys| ==> keys[i] in s.rows
    ensures rows == Take(Lines(keys, s.rows, q.names), AtLeastOne(RowCap(q)))
  {
    hide Core, FastOK, LineAt, HasColumn, Compiled, RowCap;
    var cap := AtLeastOne(RowCap(q));
    rows := [];
    while |rows| < |keys| && (cap < 0 || |rows| < cap)
      invariant |rows| <= |keys| && rows == Lines(keys, s.rows, q.names)[..|rows|] && (cap < 0 || |rows| <= cap)
      decreases |keys| - |rows|
    {
      var line := LineOf(s, keys[|rows|], q.names);
      rows := rows + [line];
    }
  }

  datatype Outcome = Done(result: Result<seq<Line>>) | Panics

  /** What the plans over keys return. For LIMIT 0 without OFFSET over a match, DISTINCT returns one row
      unless the collection stopped before its first key, and ORDER BY looks at the root of an empty heap. */
  function Delivered(lines: seq<Line>, q: Query, ordered: bool, stopsEarly: bool): Outcome {
    if q.limit != 0 || q.offset != 0 || lines == [] then Done(Answer(lines, q))
    else if q.distinct && (ordered || !stopsEarly) then Done(Ok([lines[0]]))
    else if ordered then Panics
    else Done(Ok([]))
  }

  /** The part of the plans over keys that follows the collection: order, truncate, build rows, drop
      OFFSET, check the row limit. `chosen` are all keys there are to collect; without ORDER BY the
      collection stopped at the cap, before its first key or after it. */
  method Deliver(s: State, q: Query, ord: Option<Ordering>, sort: seq<OrderBy.Entry> -> seq<OrderBy.Entry>,
                 collected: seq<Key>, ghost chosen: seq<Key>, ghost early: bool) returns (out: Outcome)
    requires Core(s) && FastOK(s) && QueryFits(q, s.columns) && InBounds(q, |chosen|)
    requires ord.Some? ==> HasColumn(s.columns, ord.value.column) && OrderBy.Sorts(sort, ord.value.descending)
    requires forall k :: k in chosen ==> k in s.rows
    requires collected == if ord.Some? then chosen else Take(chosen, if early then RowCap(q) else AtLeastOne(RowCap(q)))
    ensures out == Delivered(Lines(Sorted(chosen, s.rows, ord), s.rows, q.names), q, ord.Some?, early)
  {
    hide Core, FastOK, LineAt, HasColumn, Compiled, RowCap, Answer, Finish, Lines, Sorted, Take,
         OrderBy.Sorts, OrderBy.StableSort, OrderBy.Candidates, OrderBy.KeysOf, OrderBy.Best;
    var cap, keys := RowCap(q), collected;
    CapZero(q);
    ghost var all := Sorted(chosen, s.rows, ord);
    SortedIs(s, chosen, ord);
    TakeThere(s, q, chosen, cap);
    TakeThere(s, q, chosen, AtLeastOne(cap));
    if ord.Some? {
      var ok;
      ok, keys := OrderBy.OrderKeys(s, keys, ord.value.column, ord.value.descending,
                                    if q.distinct then -1 else cap, sort);
      if !ok {
        LinesThere(all, s.rows, q.names);
        return Panics;
      }
      BestIsTake(s.rows, chosen, ord, if q.distinct then -1 else cap);
    }
    keys := CutKeys(keys, q.distinct, cap, all, ord.Some?, early);
    TakeThere(s, q, all, if cap == 0 && q.distinct then 1 else cap);
    TakeThere(s, q, all, cap);
    var rows := Materialise(s, q, keys);
    FinishIs(all, s.rows, q, keys, rows, ord.Some?, early);
    return Done(Finish(rows, q));
  }

  /** The plan over the order. */
  method KeyedScan(s: State, q: Query, ord: Option<Ordering>, sort: seq<OrderBy.Entry> -> seq<OrderBy.Entry>)
    returns (out: Outcome)
    requires Core(s) && FastOK(s) && QueryFits(q, s.columns) && InBounds(q, |s.order|)
    requires ord.Some? ==> HasColumn(s.columns, ord.value.column) && OrderBy.Sorts(sort, ord.value.descending)
    ensures out == Delivered(Lines(Selected(Live(s), s.rows, q, ord), s.rows, q.names), q, ord.Some?, false)
  {
    hide Core, FastOK, HasColumn, Compiled, RowCap, Chosen, Selected, Lines, Sorted, Take, OrderBy.Sorts, Delivered;
    var keys := CollectKeys(s, q, ord.Some?);
    AllIs(s, q, ord);
    out := Deliver(s, q, ord, sort, keys, Chosen(s.order, s.rows, q), false);
  }

  /** The truncation before rows are built. */
  method CutKeys(keys: seq<Key>, distinct: bool, cap: int, ghost all: seq<Key>, ghost ordered: bool, ghost early: bool)
    returns (out: seq<Key>)
    requires keys == if ordered then Take(all, if distinct then -1 else cap)
             else Take(all, if early then cap else AtLeastOne(cap))
    ensures out == if distinct && (ordered || cap < 0) then all
                   else Take(all, if cap == 0 && distinct && !early then 1 else cap)
  {
    out := keys;
    if !distinct && cap >= 0 && |keys| > cap {
      out := keys[..cap];
    }
  }

  lemma SortedIs(s: State, chosen: seq<Key>, ord: Option<Ordering>)
    requires Core(s) && (ord.Some? ==> HasColumn(s.columns, ord.value.column))
             && forall k :: k in chosen ==> k in s.rows
    ensures var all := Sorted(chosen, s.rows, ord); |all| == |chosen| && (ord.None? ==> all == chosen)
    ensures forall k :: k in Sorted(chosen, s.rows, ord) ==> k in s.rows
  {
    hide Core, HasColumn, OrderBy.StableSort, OrderBy.Candidates, OrderBy.KeysOf;
    if ord.Some? { SortedThere(s, chosen, ord.value); }
  }

  lemma AllIs(s: State, q: Query, ord: Option<Ordering>)
    requires Core(s)
    ensures Selected(Live(s), s.rows, q, ord) == Sorted(Chosen(s.order, s.rows, q), s.rows, ord)
    ensures |Chosen(s.order, s.rows, q)| <= |s.order| && forall k :: k in Chosen(s.order, s.rows, q) ==> k in s.rows
  {
    hide Chosen, Filtered, Firsts, Core, OrderBy.StableSort, OrderBy.Candidates, OrderBy.KeysOf, Wanted;
    SelectedIs(s, q);
    ChosenMembers(s.order, s.rows, q);
  }

  lemma SortedThere(s: State, keys: seq<Key>, o: Ordering)
    requires Core(s) && HasColumn(s.columns, o.column) && forall k :: k in keys ==> k in s.rows
    ensures forall k :: k in Sorted(keys, s.rows, Some(o)) ==> k in s.rows
    ensures |Sorted(keys, s.rows, Some(o))| == |keys|
  {
    hide Core, HasColumn, OrderBy.StableSort, OrderBy.Typed, OrderBy.Numbered, OrderBy.Sorted;
    var es := OrderBy.Candidates(s.rows, keys, o.column);
    var t := OrderBy.CandidatesTyped(s, keys, o.column);
    OrderBy.StableSortRanks(es, o.descending, t);
    var r := OrderBy.StableSort(es, o.descending);
    forall i | 0 <= i < |r| ensures r[i].key in s.rows {
      assert r[i] in multiset(r) && r[i] in es;
    }
  }

  lemma BestIsTake(rows: map<Key, Row>, keys: seq<Key>, ord: Option<Ordering>, cap: int)
    requires ord.Some?
    ensures var sorted := OrderBy.StableSort(OrderBy.Candidates(rows, keys, ord.value.column), ord.value.descending);
            OrderBy.KeysOf(if cap >= 0 then OrderBy.Best(sorted, cap) else sorted) == Take(Sorted(keys, rows, ord), cap)
  {
    hide OrderBy.StableSort, OrderBy.Candidates;
  }

  lemma TakeThere(s: State, q: Query, keys: seq<Key>, n: int)
    requires forall k :: k in keys ==> k in s.rows
    ensures forall k :: k in Take(keys, n) ==> k in s.rows
  {
  }

  lemma LinesThere(keys: seq<Key>, rows: map<Key, Row>, names: seq<string>)
    ensures Lines(keys, rows, names) == [] <==> keys == []
  {
  }

  lemma TakeLines(keys: seq<Key>, rows: map<Key, Row>, names: seq<string>, m: int, n: int)
    requires m < 0 || n == m || n < 0
    ensures Take(Lines(Take(keys, n), rows, names), m) == Take(Lines(keys, rows, names), if m < 0 then n else m)
  {
    hide LineAt;
  }

  lemma FinishIs(all: seq<Key>, rows: map<Key, Row>, q: Query, keys: seq<Key>, out: seq<Line>, ordered: bool,
                 early: bool)
    requires InBounds(q, |all|) && !(RowCap(q) == 0 && all != [] && ordered && !q.distinct)
    requires keys == if q.distinct && (ordered || RowCap(q) < 0) then all
                     else Take(all, if RowCap(q) == 0 && q.distinct && !early then 1 else RowCap(q))
    requires out == Take(Lines(keys, rows, q.names), AtLeastOne(RowCap(q)))
    ensures Delivered(Lines(all, rows, q.names), q, ordered, early) == Done(Finish(out, q))
  {
    hide LineAt;
    var cap, lines := RowCap(q), Lines(all, rows, q.names);
    CapZero(q);
    TakeLines(all, rows, q.names, AtLeastOne(cap), -1);
    TakeLines(all, rows, q.names, AtLeastOne(cap), AtLeastOne(cap));
    if cap != 0 || lines == [] {
      assert out == Take(lines, cap);
      CapIsEnough(lines, q);
    } else if q.distinct && (ordered || !early) {
      assert out == [lines[0]];
      assert out[0..] == out;
    } else {
      assert keys == [] && out == [];
    }
  }

  /** First-occurrence distinct: no line twice, and every line of the input once. */
  lemma {:induction false} FirstsAreDistinct(keys: seq<Key>, rows: map<Key, Row>, names: seq<string>)
    ensures var lines := Lines(Firsts(keys, rows, names), rows, names);
            && NoDup(lines)
            && (forall line :: line in lines <==> line in Lines(keys, rows, names))
    decreases |keys|
  {
    hide LineAt, Lines, NoDup;
    if keys != [] {
      var n := |keys| - 1;
      var f := Firsts(keys[..n], rows, names);
      FirstsAreDistinct(keys[..n], rows, names);
      assert keys == keys[..n] + [keys[n]];
      LinesSnoc(keys[..n], keys[n], rows, names);
      LinesSnoc(f, keys[n], rows, names);
      var before, line := Lines(f, rows, names), LineAt(rows, keys[n], names);
      if line in before {
        assert Firsts(keys, rows, names) == f + [] == f;
      } else {
        assert Firsts(keys, rows, names) == f + [keys[n]];
        var lines := before + [line];
        assert Lines(Firsts(keys, rows, names), rows, names) == lines;
        NoDupSnoc(before, line);
      }
    } else {
      LinesOfNothing(rows, names);
      assert NoDup<Line>([]) by { NothingTwice(); }
    }
  }

  lemma NothingTwice()
    ensures NoDup<Line>([])
  {
  }

  // ---------------------------------------------------------------- by place

  /** `out` is what stands at the good places of `keys`, in order; `p` are those places. */
  ghost predicate TakenFrom(p: seq<nat>, keys: seq<Key>, out: seq<Key>, good: set<nat>) {
    && |p| == |out| && (forall i :: 0 <= i < |p| ==> p[i] < |keys| && out[i] == keys[p[i]])
    && (forall i, j :: 0 <= i < j < |p| ==> p[i] < p[j]) && (set i | i in p) == good
  }

  lemma TakenMore(p: seq<nat>, keys: seq<Key>, out: seq<Key>, good: set<nat>, k: Key, take: bool)
    requires TakenFrom(p, keys, out, good)
    ensures if take then TakenFrom(p + [|keys|], keys + [k], out + [k], good + {|keys|})
            else TakenFrom(p, keys + [k], out, good)
  {
    if take {
      var q := p + [|keys|];
      assert (set i | i in q) == (set i | i in p) + {|keys|};
    }
  }

  lemma TakenNothing()
    ensures TakenFrom([], [], [], {})
  {
    var p: seq<nat> := [];
    assert (set i | i in p) == {};
  }

  /** The places whose row is wanted. */
  function WantedPlaces(keys: seq<Key>, rows: map<Key, Row>, q: Query): set<nat> {
    set j: nat | j < |keys| && keys[j] in rows && Wanted(rows[keys[j]], q)
  }

  lemma WantedLast(keys: seq<Key>, rows: map<Key, Row>, q: Query)
    requires keys != []
    ensures var n := |keys| - 1;
            var first, take := keys[..n], keys[n] in rows && Wanted(rows[keys[n]], q);
            && WantedPlaces(keys, rows, q) == WantedPlaces(first, rows, q) + (if take then {n} else {})
            && Filtered(keys, rows, q) == Filtered(first, rows, q) + if take then [keys[n]] else []
  {
    hide Wanted;
  }

  /** What the filter keeps, by place: in order, exactly the places whose row is wanted. */
  lemma {:induction false} FilteredPlaces(keys: seq<Key>, rows: map<Key, Row>, q: Query) returns (p: seq<nat>)
    ensures TakenFrom(p, keys, Filtered(keys, rows, q), WantedPlaces(keys, rows, q))
    decreases |keys|
  {
    hide *;
    if keys == [] {
      p := [];
      TakenNothing();
      NowhereWanted(rows, q);
    } else {
      var n := |keys| - 1;
      var first, k := keys[..n], keys[n];
      p := FilteredPlaces(first, rows, q);
      var take := k in rows && Wanted(rows[k], q);
      var out, good := Filtered(first, rows, q), WantedPlaces(first, rows, q);
      TakenMore(p, first, out, good, k, take);
      WantedLast(keys, rows, q);
      assert keys == first + [k] && out + [] == out && good + {} == good;
      if take { p := p + [n]; }
    }
  }

  lemma NowhereWanted(rows: map<Key, Row>, q: Query)
    ensures Filtered([], rows, q) == [] && WantedPlaces([], rows, q) == {}
  {
  }

  /** The places whose line has not occurred at an earlier one. */
  function FirstPlaces(keys: seq<Key>, rows: map<Key, Row>, names: seq<string>): set<nat> {
    set j: nat | j < |keys| && forall i :: 0 <= i < j ==> LineAt(rows, keys[i], names) != LineAt(rows, keys[j], names)
  }

  lemma FirstLast(keys: seq<Key>, rows: map<Key, Row>, names: seq<string>)
    requires keys != []
    ensures var n := |keys| - 1;
            var first := keys[..n];
            var take := LineAt(rows, keys[n], names) !in Lines(first, rows, names);
            && FirstPlaces(keys, rows, names) == FirstPlaces(first, rows, names) + (if take then {n} else {})
            && Firsts(keys, rows, names) == Firsts(first, rows, names) + if take then [keys[n]] else []
  {
    hide LineAt, NoDup;
    var n := |keys| - 1;
    var first := keys[..n];
    FirstsAreDistinct(first, rows, names);
    var lines := Lines(first, rows, names);
    assert forall i :: 0 <= i < n ==> lines[i] == LineAt(rows, keys[i], names);
  }

  /** What DISTINCT keeps, by place: in order, exactly the first place of every line. */
  lemma {:induction false} FirstsPlaces(keys: seq<Key>, rows: map<Key, Row>, names: seq<string>) returns (p: seq<nat>)
    ensures TakenFrom(p, keys, Firsts(keys, rows, names), FirstPlaces(keys, rows, names))
    decreases |keys|
  {
    hide *;
    if keys == [] {
      p := [];
      TakenNothing();
      NowhereFirst(rows, names);
    } else {
      var n := |keys| - 1;
      var first, k := keys[..n], keys[n];
      p := FirstsPlaces(first, rows, names);
      var take := LineAt(rows, k, names) !in Lines(first, rows, names);
      var out, good := Firsts(first, rows, names), FirstPlaces(first, rows, names);
      TakenMore(p, first, out, good, k, take);
      FirstLast(keys, rows, names);
      assert keys == first + [k] && out + [] == out && good + {} == good;
      if take { p := p + [n]; }
    }
  }

  lemma NowhereFirst(rows: map<Key, Row>, names: seq<string>)
    ensures Firsts([], rows, names) == [] && FirstPlaces([], rows, names) == {}
  {
  }

  /** OFFSET, LIMIT and the row limit by place: line `i` of an answer is line OFFSET + i of the result, there are as
      many as are left, at most LIMIT if that is given, and it is an error exactly if those are more than a
      positive row limit. */
  lemma AnswerPlaces(lines: seq<Line>, q: Query)
    ensures var left := if |lines| > q.offset then |lines| - q.offset else 0;
            var n := if 0 <= q.limit < left then q.limit else left;
            && (Answer(lines, q).Err? <==> q.maxRows > 0 && n > q.maxRows)
            && (Answer(lines, q).Ok? ==>
                  var out := Answer(lines, q).value;
                  |out| == n && forall i :: 0 <= i < n ==> out[i] == lines[q.offset + i])
  {
  }
}
