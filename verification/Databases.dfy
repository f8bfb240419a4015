/** A database of many tables (internal/engine/database.go) behind SQL text. A statement is compiled from what the
    tables show; the members of a cluster that ran it from the start and one that loaded a snapshot on the
    way show the same as long as no statement breaks a table on either. */
module Databases {
  import opened Engines
  import opened Values
  import opened Storage
  import opened TableState
  import opened Tables
  import opened TableRuns
  import opened Listings
  import opened Replica

  type Database = map<string, TableState.State>

  type Showing = map<string, Listing>

  /** What a statement comes to: a statement on one table, a table made or dropped, or nothing, as for a query,
      with or without an error. */
  datatype Command =
    | On(table: string, st: Stmt)
    | Create(table: string, columns: seq<Column>)
    | Drop(table: string)
    | Other(ok: bool)

  /** Parsing and planning, by anything the tables show. */
  type Compiler = (Showing, string) -> Command

  function ShowsAll(db: Database): Showing { map n | n in db :: Shows(db[n]) }

  ghost predicate AllSound(db: Database) { forall n <- db :: Sound(db[n]) }

  /** A table just made. */
  ghost predicate New(t: TableState.State, columns: seq<Column>) {
    Sound(t) && View(t) == Content(columns, [], map[], {}, map[])
  }

  /** What executing a text can give: the new database, or none when it is refused. */
  ghost predicate Gives(compile: Compiler, db: Database, sql: string, out: Option<Database>) {
    match compile(ShowsAll(db), sql)
    case On(n, st) =>
      if n !in db || !Succeeds(View(db[n]), st) then out == None
      else out.Some? && n in out.value && out.value == db[n := out.value[n]] && Stepped(db[n], st, out.value[n])
    case Create(n, columns) =>
      if n in db || !ColumnsFit(columns) then out == None
      else out.Some? && n in out.value && out.value == db[n := out.value[n]] && New(out.value[n], columns)
    case Drop(n) => out == if n in db then Some(db - {n}) else None
    case Other(ok) => out == if ok then Some(db) else None
  }

  /** The tables as objects. */
  class Catalog {
    var tables: map<string, Table>

    ghost predicate Valid()
      reads this
    {
      forall m, n :: m in tables && n in tables && m != n ==> tables[m] != tables[n]
    }

    ghost function Db(): Database
      reads this, tables.Values
    {
      map n | n in tables :: tables[n].S()
    }

    constructor ()
      ensures Valid() && Db() == map[] && tables == map[]
    {
      tables := map[];
    }

    method Look() returns (shows: Showing)
      ensures shows == ShowsAll(Db())
    {
      hide Shows;
      shows := map n | n in tables ::
        Shows(TableState.State.State(tables[n].columns, tables[n].rows, tables[n].order, tables[n].indexes,
                                      tables[n].fast,
                                      tables[n].colPos, tables[n].fastPos, tables[n].dead, tables[n].fastDead,
                                      tables[n].indexNames));
    }

    /** A statement on one table leaves the others alone. */
    method Change(n: string, st: Stmt) returns (ok: bool)
      requires Valid() && n in tables && Core(tables[n].S())
      modifies tables[n]
      ensures ok <==> Succeeds(View(old(tables[n].S())), st)
      ensures Stepped(old(tables[n].S()), st, tables[n].S())
      ensures Db() == if ok then old(Db())[n := tables[n].S()] else old(Db())
    {
      hide Core, Stepped, Succeeds, View;
      ok := TableRuns.Exec(tables[n], st);
    }

    method Make(n: string, columns: seq<Column>)
      requires Valid() && n !in tables && ColumnsFit(columns)
      modifies this
      ensures Valid() && n in tables && New(tables[n].S(), columns) && Db() == old(Db())[n := tables[n].S()]
    {
      hide Core, FastOK, View, ColumnsFit;
      var t := new Table(columns);
      tables := tables[n := t];
    }

    /** Any text on any database in step: the tables do what the relation says, and nothing when it is
        refused. */
    method Execute(compile: Compiler, sql: string) returns (ok: bool)
      requires Valid() && AllSound(Db())
      modifies this, tables.Values
      ensures Valid() && Gives(compile, old(Db()), sql, if ok then Some(Db()) else None)
      ensures !ok ==> Db() == old(Db())
    {
      hide Core, FastOK, New, Stepped, Succeeds, Shows, ColumnsFit, View;
      var shows := Look();
      match compile(shows, sql) {
        case On(n, st) =>
          if n !in tables {
            return false;
          }
          assert Sound(Db()[n]);
          ok := Change(n, st);
        case Create(n, columns) =>
          if n in tables || !ColumnsFit(columns) {
            return false;
          }
          Make(n, columns);
          return true;
        case Drop(n) =>
          if n !in tables {
            return false;
          }
          tables := tables - {n};
          assert Db() == old(Db()) - {n};
          return true;
        case Other(fine) =>
          return fine;
      }
    }
  }

  // ------------------------------------------------------------ two databases

  /** Every table is in step and shows the same in both. */
  ghost predicate AlikeAll(a: Database, b: Database) { AllSound(a) && AllSound(b) && ShowsAll(a) == ShowsAll(b) }

  /** The statement does not break the table it is for. */
  ghost predicate Safe(compile: Compiler, db: Database, sql: string) {
    var c := compile(ShowsAll(db), sql);
    c.On? && c.table in db ==> !Breaks(db[c.table], c.st)
  }

  /** Statements go by key only where there is a primary column. */
  ghost predicate Addresses(compile: Compiler) {
    forall shows: Showing, q: string ::
      var c := compile(shows, q);
      c.On? && c.table in shows ==> Addressed(shows[c.table].columns, c.st)
  }

  /** An engine over some `D` that has such tables, and may have more, such as key counters: every execution
      is one the tables can give. */
  ghost predicate Implements<D(!new)>(exec: Engines.Exec<D>, tables: D -> Database, compile: Compiler) {
    forall d, q :: AllSound(tables(d)) ==> Gives(compile, tables(d), q, Seen(tables, exec(d, q)))
  }

  function Seen<D>(tables: D -> Database, x: Option<D>): Option<Database> {
    match x case Some(d) => Some(tables(d)) case None => None
  }

  /** Two states of an engine whose tables are alike, and a statement that is safe for them. */
  ghost function SameTables<D>(tables: D -> Database): (D, D) -> bool { (a, b) => AlikeAll(tables(a), tables(b)) }

  ghost function SafeOn<D>(tables: D -> Database, compile: Compiler): (D, string) -> bool {
    (d, q) => Safe(compile, tables(d), q)
  }

  lemma AlikeTables(a: Database, b: Database, n: string)
    requires AlikeAll(a, b)
    ensures n in a <==> n in b
    ensures n in a ==> Alike(a[n], b[n]) && a[n].columns == b[n].columns == ShowsAll(a)[n].columns
  {
    hide Sound, RowsAt, View;
    assert n in a <==> n in ShowsAll(a);
    assert n in b <==> n in ShowsAll(b);
    if n in a {
      assert ShowsAll(a)[n] == ShowsAll(b)[n];
      SameColumns(a[n]);
      SameColumns(b[n]);
    }
  }

  lemma SameColumns(s: TableState.State)
    ensures Shows(s).columns == s.columns
  {
  }

  /** One table of each replaced by two that are alike. */
  lemma ReplacedAlike(a: Database, b: Database, n: string, s: TableState.State, t: TableState.State)
    requires AlikeAll(a, b) && Alike(s, t)
    ensures AlikeAll(a[n := s], b[n := t])
  {
    hide Sound, Shows;
    assert ShowsAll(a[n := s]) == ShowsAll(a)[n := Shows(s)];
    assert ShowsAll(b[n := t]) == ShowsAll(b)[n := Shows(t)];
  }

  lemma DroppedAlike(a: Database, b: Database, n: string)
    requires AlikeAll(a, b)
    ensures AlikeAll(a - {n}, b - {n})
  {
    hide Sound, Shows;
    assert ShowsAll(a - {n}) == ShowsAll(a) - {n};
    assert ShowsAll(b - {n}) == ShowsAll(b) - {n};
  }

  lemma NewAlike(s: TableState.State, t: TableState.State, columns: seq<Column>)
    requires New(s, columns) && New(t, columns)
    ensures Alike(s, t)
  {
    hide Sound, View, RowsAt;
  }

  /** The same text on databases that are alike is refused on both or carried out on both, and leaves them
      alike, unless it breaks a table of one. */
  lemma StepAgrees(compile: Compiler, a: Database, b: Database, sql: string, x: Option<Database>, y: Option<Database>)
    requires AlikeAll(a, b) && Addresses(compile) && Safe(compile, a, sql) && Safe(compile, b, sql)
    requires Gives(compile, a, sql, x) && Gives(compile, b, sql, y)
    ensures SameOutcome((d: Database, e: Database) => AlikeAll(d, e), x, y)
  {
    hide AlikeAll, Breaks, Stepped, Succeeds, Alike, New, Addressed, ColumnsFit, View, Shows;
    var c := compile(ShowsAll(a), sql);
    assert ShowsAll(a) == ShowsAll(b) by { SameShowing(a, b); }
    match c
    case On(n, st) =>
      AlikeTables(a, b, n);
      if n in a {
        SameAnswer(a[n], b[n], st);
        if x.Some? && y.Some? {
          AlikeStep(a[n], b[n], st, x.value[n], y.value[n]);
          ReplacedAlike(a, b, n, x.value[n], y.value[n]);
        }
      }
    case Create(n, columns) =>
      AlikeTables(a, b, n);
      if n !in a && ColumnsFit(columns) {
        NewAlike(x.value[n], y.value[n], columns);
        ReplacedAlike(a, b, n, x.value[n], y.value[n]);
      }
    case Drop(n) =>
      AlikeTables(a, b, n);
      DroppedAlike(a, b, n);
    case Other(ok) =>
  }

  lemma SameShowing(a: Database, b: Database)
    requires AlikeAll(a, b)
    ensures ShowsAll(a) == ShowsAll(b) && AllSound(a) && AllSound(b)
  {
  }

  /** So two engines made of such tables agree on what is safe, however each of them makes up keys and
      visits maps. */
  lemma EnginesAgree<D(!new)>(mine: Engines.Exec<D>, yours: Engines.Exec<D>, tables: D -> Database, compile: Compiler)
    requires Implements(mine, tables, compile) && Implements(yours, tables, compile) && Addresses(compile)
    ensures AgreeWhen(mine, yours, SameTables(tables), SafeOn(tables, compile))
  {
    hide AlikeAll, Gives, Safe, Addresses, AllSound;
    forall a: D, b: D, q | AlikeAll(tables(a), tables(b)) && Safe(compile, tables(a), q) && Safe(compile, tables(b), q)
      ensures SameOutcome(SameTables(tables), mine(a, q), yours(b, q))
    {
      SameShowing(tables(a), tables(b));
      StepAgrees(compile, tables(a), tables(b), q, Seen(tables, mine(a, q)), Seen(tables, yours(b, q)));
    }
  }

  // ---------------------------------------------------------------- loading

  /** What loading an image of a database gives. */
  ghost predicate LoadedAll(db: Database, e: Database) {
    e.Keys == db.Keys && forall n <- db :: Loaded(ImageOf(db[n]), e[n])
  }

  /** A row under the empty key that an array would hide. */
  predicate Hides(s: TableState.State) { "" in s.rows && |s.rows| >= THRESHOLD }

  /** A saved database loads as one that shows the same, in step unless a large table has a row under the
      empty key. */
  lemma LoadAlike(db: Database, e: Database)
    requires AllSound(db) && LoadedAll(db, e)
    ensures ShowsAll(e) == ShowsAll(db)
    ensures AlikeAll(db, e) <==> forall n <- db :: !Hides(db[n])
  {
    hide Sound, Loaded, RowsAt, View;
    forall n | n in db
      ensures Shows(e[n]) == Shows(db[n]) && (Sound(e[n]) <==> !Hides(db[n]))
    {
      LoadedAlike(db[n], e[n]);
    }
  }

  // ---------------------------------------------------------------- members

  lemma SafeSplit<D>(exec: Engines.Exec<D>, safe: (D, string) -> bool, s: Replica.State<D>, a: seq<Event>,
                     b: seq<Event>)
    requires SafeRun(exec, safe, s, a + b)
    ensures SafeRun(exec, safe, s, a) && SafeRun(exec, safe, After(exec, s, a), b)
  {
    hide After, SafeEntry;
    var all := a + b;
    forall i | 0 <= i < |a| ensures all[..i] == a[..i] && all[i] == a[i] {}
    forall i | 0 <= i < |b|
      ensures all[|a| + i] == b[i] && After(exec, s, all[..|a| + i]) == After(exec, After(exec, s, a), b[..i])
    {
      assert all[..|a| + i] == a + b[..i];
      AfterConcat(exec, s, a, b[..i]);
    }
  }

  /** Safe entries keep every table in step. */
  lemma StaysSound<D(!new)>(exec: Engines.Exec<D>, tables: D -> Database, compile: Compiler, s: Replica.State<D>,
                            events: seq<Event>)
    requires Implements(exec, tables, compile) && Addresses(compile) && AllSound(tables(s.db))
    requires SafeRun(exec, SafeOn(tables, compile), s, events)
    ensures AllSound(tables(After(exec, s, events).db))
  {
    hide Implements, Addresses, AllSound, SafeRun, After, SameDirectory, LogOf, SafeOn, ShowsAll;
    EnginesAgree(exec, exec, tables, compile);
    SameSelf(s);
    assert Agree(SameTables(tables), s, s);
    MembersAgree(exec, exec, SameTables(tables), SafeOn(tables, compile), s, s, events, events);
  }

  /** A member that loads a snapshot taken anywhere and commits the rest of the log shows, table by table and
      row by row, what a member shows that committed it all, if no statement of the log breaks a table on
      either and no large table had a row under the empty key when it was saved. */
  lemma RestoredMemberAgrees<D(!new)>(mine: Engines.Exec<D>, yours: Engines.Exec<D>, tables: D -> Database,
                                      compile: Compiler, s: Replica.State<D>, before: seq<Event>, rest: seq<Event>,
                                      there: seq<Event>, img: Replica.Image<D>)
    requires Implements(mine, tables, compile) && Implements(yours, tables, compile) && Addresses(compile)
    requires Ids(s.dir) && AllSound(tables(s.db)) && LogOf(there) == LogOf(rest)
    requires SafeRun(mine, SafeOn(tables, compile), s, before + rest)
    requires var at := After(mine, s, before);
             && Pictures(img, at) && LoadedAll(tables(at.db), tables(img.db))
             && forall n <- tables(at.db) :: !Hides(tables(at.db)[n])
    requires SafeRun(yours, SafeOn(tables, compile), FromImage(img), there)
    ensures Agree(SameTables(tables), After(mine, s, before + rest), After(yours, FromImage(img), there))
  {
    hide Implements, Addresses, AllSound, SafeRun, After, SameDirectory, LogOf, SafeOn, ShowsAll, Pictures, LoadedAll,
      Ids, FromImage;
    var safe := SafeOn(tables, compile);
    var at := After(mine, s, before);
    SafeSplit(mine, safe, s, before, rest);
    StaysSound(mine, tables, compile, s, before);
    LoadAlike(tables(at.db), tables(img.db));
    EnginesAgree(mine, yours, tables, compile);
    SnapshotAnywhere(mine, yours, SameTables(tables), safe, s, before, rest, there, img);
  }
}
