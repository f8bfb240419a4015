/** Durability in wal mode (internal/server/server.go, persistence.go) for requests that do not overlap.
    What is on disk, a snapshot and a log, must recover the published database. */
module Durability {
  import opened Sessions
  import opened Values
  import Wal

  /** A request of one connection: a statement or a transaction command, a plain batch of these, or an
      atomic batch. `kept` is the log's answer to the request's last append; it and the answers inside
      the events are filled in by `Done`. */
  datatype Request =
    | Single(event: Event<string>, kept: bool)
    | Many(events: seq<Event<string>>, kept: bool)
    | Atomic(id: Id, sqls: seq<string>, kept: bool)

  /** The snapshot image and the statements in the log. */
  datatype Disk<D> = Disk(snapshot: D, log: seq<string>)

  /** The statements an event publishes. */
  function Effect<D>(c: Config<D, string>, w: World<D, string>, e: Event<string>): seq<string> {
    match Publish(c, w, e) case Some(sqls) => sqls case None => []
  }

  /** Everything a list of events publishes, in that order. */
  function Effects<D>(c: Config<D, string>, w: World<D, string>, events: seq<Event<string>>): seq<string> {
    if events == [] then []
    else Effects(c, w, events[..|events| - 1]) + Effect(c, After(c, w, events[..|events| - 1]), events[|events| - 1])
  }

  /** In a plain batch a COMMIT is persisted at once, and direct writes wait for the end. */
  function Early<D>(c: Config<D, string>, w: World<D, string>, events: seq<Event<string>>): seq<string> {
    if events == [] then []
    else
      var n := |events| - 1;
      Early(c, w, events[..n]) + if events[n].Commit? then Effect(c, After(c, w, events[..n]), events[n]) else []
  }

  function Pending<D>(c: Config<D, string>, w: World<D, string>, events: seq<Event<string>>): seq<string> {
    if events == [] then []
    else
      var n := |events| - 1;
      Pending(c, w, events[..n]) + if events[n].Commit? then [] else Effect(c, After(c, w, events[..n]), events[n])
  }

  function AtomicEvents(r: Request): seq<Event<string>>
    requires r.Atomic?
  {
    [StartBatch(r.id, r.sqls), FinishBatch(r.id, r.kept)]
  }

  function EventsOf(r: Request): seq<Event<string>> {
    match r
    case Single(e, _) => [e]
    case Many(events, _) => events
    case Atomic(_, _, _) => AtomicEvents(r)
  }

  /** What a request adds to the log. */
  function Persisted<D>(c: Config<D, string>, w: World<D, string>, r: Request): seq<string> {
    match r
    case Single(e, kept) => if kept then Effect(c, w, e) else []
    case Many(events, kept) => Early(c, w, events) + if kept then Pending(c, w, events) else []
    case Atomic(_, _, _) => Effects(c, w, AtomicEvents(r))
  }

  function Served<D>(c: Config<D, string>, w: World<D, string>, r: Request): World<D, string> {
    After(c, w, EventsOf(r))
  }

  function Saved<D>(c: Config<D, string>, w: World<D, string>, disk: Disk<D>, r: Request): Disk<D> {
    disk.(log := disk.log + Persisted(c, w, r))
  }

  // ------------------------------------------------------ the log's answers

  /** What the file system makes of the appends of a request, in turn: all is well when nothing is said. */
  function Answer(fs: seq<Wal.Written>, i: nat): Wal.Written { if i < |fs| then fs[i] else Wal.Stored }

  /** The log takes nothing, or all of it if every statement is within the size limit. */
  predicate Accepted(sqls: seq<string>, fs: Wal.Written) { sqls == [] || (Wal.Small(sqls) && fs.Stored?) }

  /** What an event hands to the log. */
  function Offered<D>(c: Config<D, string>, w: World<D, string>, e: Event<string>): seq<string> {
    Effect(c, w, Answered(e, true))
  }

  /** COMMIT and the end of an atomic batch ask the log before they publish. */
  function Resolve<D>(c: Config<D, string>, w: World<D, string>, e: Event<string>, fs: Wal.Written): Event<string> {
    Answered(e, Accepted(Offered(c, w, e), fs))
  }

  function Played<D>(c: Config<D, string>, w: World<D, string>, events: seq<Event<string>>, fs: seq<Wal.Written>)
    : (played: seq<Event<string>>)
    ensures |played| == |events|
  {
    if events == [] then []
    else
      var n := |events| - 1;
      var first := Played(c, w, events[..n], fs);
      first + [Resolve(c, After(c, w, first), events[n], Answer(fs, n))]
  }

  /** A request with the log's answers filled in. */
  function Done<D>(c: Config<D, string>, w: World<D, string>, r: Request, fs: seq<Wal.Written>): Request {
    match r
    case Single(e, _) =>
      var ok := Accepted(Offered(c, w, e), Answer(fs, 0));
      Single(Answered(e, ok), ok)
    case Many(events, _) =>
      var played := Played(c, w, events, fs);
      Many(played, Accepted(Pending(c, w, played), Answer(fs, |events|)))
    case Atomic(id, sqls, _) =>
      var w1 := Step(c, w, StartBatch(id, sqls));
      Atomic(id, sqls, Accepted(Offered(c, w1, FinishBatch(id, true)), Answer(fs, 0)))
  }

  // ---------------------------------------------------------- log order

  /** No COMMIT of the batch publishes after a direct write of the batch. */
  ghost predicate InOrder<D>(c: Config<D, string>, w: World<D, string>, events: seq<Event<string>>) {
    forall i :: 0 <= i < |events| && events[i].Commit? && Pending(c, w, events[..i]) != [] ==>
      Effect(c, After(c, w, events[..i]), events[i]) == []
  }

  /** The log has a batch in the order it ran when its COMMITs come first. */
  lemma {:induction false} OrderKept<D>(c: Config<D, string>, w: World<D, string>, events: seq<Event<string>>)
    requires InOrder(c, w, events)
    ensures Early(c, w, events) + Pending(c, w, events) == Effects(c, w, events)
    decreases |events|
  {
    hide *;
    if events != [] {
      var n := |events| - 1;
      var first := events[..n];
      OrderedPrefix(c, w, events);
      OrderKept(c, w, first);
      Further(c, w, first, events[n]);
      assert events == first + [events[n]];
      var a, p, x := Early(c, w, first), Pending(c, w, first), Effect(c, After(c, w, first), events[n]);
      assert Effects(c, w, events) == a + p + x;
      if events[n].Commit? {
        if p == [] { assert a + x + p == a + p + x; } else { assert a + x + p == a + p + x; }
      } else {
        assert a + (p + x) == a + p + x;
      }
    } else {
      NoFurther(c, w);
    }
  }

  lemma OrderedPrefix<D>(c: Config<D, string>, w: World<D, string>, events: seq<Event<string>>)
    requires InOrder(c, w, events) && events != []
    ensures var n := |events| - 1;
            var x := Effect(c, After(c, w, events[..n]), events[n]);
            && InOrder(c, w, events[..n]) && (events[n].Commit? && Pending(c, w, events[..n]) != [] ==> x == [])
            && Effects(c, w, events) == Effects(c, w, events[..n]) + x
  {
    hide After, Effect, Pending;
    var n := |events| - 1;
    var first := events[..n];
    forall i | 0 <= i < n ensures first[..i] == events[..i] && first[i] == events[i] {}
  }

  ghost predicate NoRepeat(sqls: seq<string>) { forall i, j :: 0 <= i < j < |sqls| ==> sqls[i] != sqls[j] }

  lemma NoRepeatPrefix(a: seq<string>, x: seq<string>)
    requires NoRepeat(a + x)
    ensures NoRepeat(a)
  {
    assert forall i :: 0 <= i < |a| ==> (a + x)[i] == a[i];
  }

  lemma SameEnd(a: seq<string>, b: seq<string>, x: seq<string>)
    requires a + x == b + x
    ensures a == b
  {
    assert a == (a + x)[..|a|] && b == (b + x)[..|a|];
  }

  /** Something published late cannot stand before something published earlier without a repeat. */
  lemma Swapped(a: seq<string>, p: seq<string>, b: seq<string>, x: seq<string>)
    requires a + x + p == b + x && p != [] && x != []
    ensures !NoRepeat(b + x)
  {
    var s := b + x;
    var i, j := |a| + |x| - 1, |s| - 1;
    assert s[i] == (a + x + p)[i] == x[|x| - 1];
    assert s[j] == x[|x| - 1] && i < j;
  }

  /** And only then: if no statement is published twice, the log has the batch in the order it ran exactly
      when no COMMIT publishes after a direct write. */
  lemma {:induction false} OrderIff<D>(c: Config<D, string>, w: World<D, string>, events: seq<Event<string>>)
    requires NoRepeat(Effects(c, w, events))
    ensures Early(c, w, events) + Pending(c, w, events) == Effects(c, w, events) <==> InOrder(c, w, events)
    decreases |events|
  {
    hide Early, Pending, Effects, InOrder, NoRepeat, After, Effect;
    if InOrder(c, w, events) {
      OrderKept(c, w, events);
    } else {
      assert events != [] by { if events == [] { NothingOutOfOrder(c, w); } }
      var n := |events| - 1;
      var first := events[..n];
      var x := Effect(c, After(c, w, first), events[n]);
      var a, p, b := Early(c, w, first), Pending(c, w, first), Effects(c, w, first);
      OutOfOrder(c, w, events);
      NoRepeatPrefix(b, x);
      OrderIff(c, w, first);
      if Early(c, w, events) + Pending(c, w, events) == Effects(c, w, events) {
        Unswapped(a, p, b, x, events[n].Commit?);
      }
    }
  }

  lemma Unswapped(a: seq<string>, p: seq<string>, b: seq<string>, x: seq<string>, commit: bool)
    requires NoRepeat(b + x) && (if commit then a + x + p else a + p + x) == b + x
    ensures a + p == b && !(commit && p != [] && x != [])
  {
    hide NoRepeat;
    if !commit {
      SameEnd(a + p, b, x);
    } else if x == [] {
      assert a + p == a + x + p && b == b + x;
    } else if p == [] {
      assert a + x == a + x + p;
      SameEnd(a, b, x);
      assert a + p == a;
    } else {
      Swapped(a, p, b, x);
    }
  }

  lemma NothingOutOfOrder<D>(c: Config<D, string>, w: World<D, string>)
    ensures InOrder(c, w, [])
  {
  }

  /** What is out of order is out of order before the last event, or because of it. */
  lemma OutOfOrder<D>(c: Config<D, string>, w: World<D, string>, events: seq<Event<string>>)
    requires events != [] && !InOrder(c, w, events)
    ensures var n := |events| - 1;
            var first := events[..n];
            var x, a, p, b := Effect(c, After(c, w, first), events[n]), Early(c, w, first), Pending(c, w, first),
              Effects(c, w, first);
            && (InOrder(c, w, first) ==> events[n].Commit? && p != [] && x != [])
            && Effects(c, w, events) == b + x
            && Early(c, w, events) + Pending(c, w, events) == if events[n].Commit? then a + x + p else a + p + x
  {
    hide After, Effect;
    var n := |events| - 1;
    var first := events[..n];
    forall i | 0 <= i < n ensures first[..i] == events[..i] && first[i] == events[i] {}
    var p, x := Pending(c, w, first), Effect(c, After(c, w, first), events[n]);
    assert p + [] == p;
    assert Early(c, w, first) + [] == Early(c, w, first);
    assert Early(c, w, first) + (p + x) == Early(c, w, first) + p + x;
  }

  // -------------------------------------------------------------- recovery

  /** How a node starts: it loads the snapshot and replays the log. Loading rebuilds row order, indexes and
      fast arrays, so it need not give the very database that was saved. */
  datatype Recovery<!D> = Recovery(replay: Config<D, string>, load: D -> D)

  /** Replay runs statements without the row limits of serving: what succeeded there succeeds here, with
      the same outcome. */
  ghost predicate Extends<D(!new)>(replay: Config<D, string>, c: Config<D, string>) {
    forall d, q :: c.exec(d, q).Some? ==> replay.exec(d, q) == c.exec(d, q)
  }

  function Recovered<D>(r: Recovery<D>, disk: Disk<D>): Option<D> {
    RunAll(r.replay, r.load(disk.snapshot), disk.log)
  }

  /** Starting from this disk gives exactly this database. */
  ghost predicate Recovers<D>(r: Recovery<D>, disk: Disk<D>, db: D) { Recovered(r, disk) == Some(db) }

  lemma {:induction false} RunExtends<D(!new)>(replay: Config<D, string>, c: Config<D, string>, d: D, sqls: seq<string>)
    requires Extends(replay, c) && RunAll(c, d, sqls).Some?
    ensures RunAll(replay, d, sqls) == RunAll(c, d, sqls)
    decreases |sqls|
  {
    if sqls != [] { RunExtends(replay, c, d, sqls[..|sqls| - 1]); }
  }

  /** More in the log is more to run on what the disk gave before. */
  lemma RecoversMore<D>(r: Recovery<D>, disk: Disk<D>, db: D, sqls: seq<string>)
    requires Recovers(r, disk, db)
    ensures Recovered(r, disk.(log := disk.log + sqls)) == RunAll(r.replay, db, sqls)
  {
    hide RunAll;
    RunConcat(r.replay, r.load(disk.snapshot), disk.log, sqls);
  }

  /** What an event publishes takes the old database to the new one. */
  lemma EffectRuns<D(!new)>(c: Config<D, string>, d0: D, w: World<D, string>, h: History<string>, e: Event<string>)
    requires ReadsOnly(c) && Inv(c, d0, w, h) && Timely(w, h)
    ensures RunAll(c, w.db, Effect(c, w, e)) == Some(Step(c, w, e).db)
  {
    hide RunAll, Writes, Inv, Timely;
    RunNothing(c, w.db);
    if Publish(c, w, e).Some? {
      if Of(w, e.id).Idle? {
        RunOne(c, w.db, e.sql);
      } else {
        CommitSawNothing(c, d0, w, h, e);
      }
    }
  }

  lemma {:induction false} EffectsRun<D(!new)>(c: Config<D, string>, d0: D, w: World<D, string>, h: History<string>,
                                               events: seq<Event<string>>)
    requires ReadsOnly(c) && Inv(c, d0, w, h) && |Logged(c, w, h, events).commits| < REVISIONS
    ensures RunAll(c, w.db, Effects(c, w, events)) == Some(After(c, w, events).db)
    decreases |events|
  {
    hide Step, Record, Inv, ReadsOnly, Effect, RunAll;
    if events != [] {
      var n := |events| - 1;
      var first := events[..n];
      var w1, h1 := After(c, w, first), Logged(c, w, h, first);
      RecordGrows(c, w1, h1, events[n]);
      EffectsRun(c, d0, w, h, first);
      RunKeeps(c, d0, w, h, first);
      FewAreTimely(c, d0, w1, h1);
      EffectRuns(c, d0, w1, h1, events[n]);
      RunConcat(c, w.db, Effects(c, w, first), Effect(c, w1, events[n]));
    } else {
      RunNothing(c, w.db);
    }
  }

  /** The request's log order is its running order. */
  ghost predicate Orderly<D>(c: Config<D, string>, w: World<D, string>, r: Request) {
    r.Many? ==> InOrder(c, w, r.events)
  }

  /** No direct write was executed without reaching the log. */
  ghost predicate Kept<D>(c: Config<D, string>, w: World<D, string>, r: Request) {
    match r
    case Single(e, kept) => kept || Effect(c, w, e) == []
    case Many(events, kept) => kept || Pending(c, w, events) == []
    case Atomic(_, _, _) => true
  }

  /** Direct writes that were executed and then not taken by the log. */
  function Lost<D>(c: Config<D, string>, w: World<D, string>, r: Request): seq<string> {
    match r
    case Single(e, kept) => if kept then [] else Effect(c, w, e)
    case Many(events, kept) => if kept then [] else Pending(c, w, events)
    case Atomic(_, _, _) => []
  }

  /** What an orderly request published is what it logged and then what it lost. */
  lemma LoggedThenLost<D>(c: Config<D, string>, w: World<D, string>, r: Request)
    requires Orderly(c, w, r)
    ensures Persisted(c, w, r) + Lost(c, w, r) == Effects(c, w, EventsOf(r))
    ensures Kept(c, w, r) <==> Lost(c, w, r) == []
  {
    hide After, Effects, Effect, Early, Pending, InOrder;
    match r
    case Single(e, _) => OneEvent(c, w, e);
    case Many(events, _) => OrderKept(c, w, events);
    case Atomic(_, _, _) =>
  }

  /** After every request, what is on disk recovers what is published. */
  lemma RequestKeeps<D(!new)>(r: Recovery<D>, c: Config<D, string>, d0: D, w: World<D, string>, h: History<string>,
                              disk: Disk<D>, q: Request)
    requires ReadsOnly(c) && Extends(r.replay, c) && Inv(c, d0, w, h) && Recovers(r, disk, w.db)
    requires Orderly(c, w, q) && Kept(c, w, q) && |Logged(c, w, h, EventsOf(q)).commits| < REVISIONS
    ensures Recovers(r, Saved(c, w, disk, q), Served(c, w, q).db)
    ensures Inv(c, d0, Served(c, w, q), Logged(c, w, h, EventsOf(q)))
  {
    hide After, Logged, Effects, Persisted, Inv, ReadsOnly, Extends, RunAll, Orderly, Kept, Recovered;
    var events := EventsOf(q);
    EffectsRun(c, d0, w, h, events);
    RunKeeps(c, d0, w, h, events);
    LoggedThenLost(c, w, q);
    assert Persisted(c, w, q) == Persisted(c, w, q) + [];
    RunExtends(r.replay, c, w.db, Effects(c, w, events));
    RecoversMore(r, disk, w.db, Effects(c, w, events));
  }

  /** Each of these statements, where it succeeds, makes the database larger, say in its number of rows. */
  ghost predicate Grows<D(!new)>(r: Recovery<D>, size: D -> nat, sqls: seq<string>) {
    forall d, q :: q in sqls && r.replay.exec(d, q).Some? ==> size(d) < size(r.replay.exec(d, q).value)
  }

  lemma {:induction false} RunGrows<D(!new)>(r: Recovery<D>, size: D -> nat, d: D, sqls: seq<string>)
    requires Grows(r, size, sqls) && RunAll(r.replay, d, sqls).Some?
    ensures size(RunAll(r.replay, d, sqls).value) >= size(d) + |sqls|
    decreases |sqls|
  {
    if sqls != [] {
      var n := |sqls| - 1;
      assert forall q :: q in sqls[..n] ==> q in sqls;
      RunGrows(r, size, d, sqls[..n]);
    }
  }

  /** And only then: if what was lost makes the database larger, the disk recovers what is published exactly
      when no direct write of the request was lost, and otherwise a smaller database. */
  lemma WriteLost<D(!new)>(r: Recovery<D>, c: Config<D, string>, d0: D, w: World<D, string>, h: History<string>,
                           disk: Disk<D>, q: Request, size: D -> nat)
    requires ReadsOnly(c) && Extends(r.replay, c) && Inv(c, d0, w, h) && Recovers(r, disk, w.db)
    requires Orderly(c, w, q) && |Logged(c, w, h, EventsOf(q)).commits| < REVISIONS
    requires Grows(r, size, Lost(c, w, q))
    ensures Recovers(r, Saved(c, w, disk, q), Served(c, w, q).db) <==> Kept(c, w, q)
    ensures var found := Recovered(r, Saved(c, w, disk, q));
            found.Some? && (!Kept(c, w, q) ==> size(found.value) < size(Served(c, w, q).db))
  {
    hide After, Logged, Effects, Persisted, Lost, Inv, ReadsOnly, Extends, RunAll, Orderly, Kept, Recovered;
    var logged, lost := Persisted(c, w, q), Lost(c, w, q);
    EffectsRun(c, d0, w, h, EventsOf(q));
    LoggedThenLost(c, w, q);
    RunExtends(r.replay, c, w.db, logged + lost);
    RunConcat(r.replay, w.db, logged, lost);
    var before := RunAll(r.replay, w.db, logged).value;
    RecoversMore(r, disk, w.db, logged);
    RunGrows(r, size, before, lost);
    RunNothing(r.replay, before);
  }

  /** Compact: load, replay, save the result as the snapshot, remove the log. */
  function Compacted<D>(r: Recovery<D>, disk: Disk<D>): Disk<D> {
    match Recovered(r, disk) case Some(d) => Disk(d, []) case None => disk
  }

  /** A start after a compaction loads what was published. */
  lemma CompactKeeps<D>(r: Recovery<D>, disk: Disk<D>, db: D)
    requires Recovers(r, disk, db)
    ensures Compacted(r, disk) == Disk(db, []) && Recovered(r, Compacted(r, disk)) == Some(r.load(db))
  {
    hide RunAll;
    RunNothing(r.replay, r.load(db));
  }

  /** Stopped between saving and removing, the log is applied on top of itself: if its statements make the
      database larger and loading does not change its size, that gives what a whole compaction gives
      exactly when the log was empty, and otherwise a larger database or none. */
  lemma CompactInterrupted<D(!new)>(r: Recovery<D>, disk: Disk<D>, db: D, size: D -> nat)
    requires Recovers(r, disk, db) && Grows(r, size, disk.log) && size(r.load(db)) == size(db)
    ensures var found := Recovered(r, Disk(db, disk.log));
            && (found == Recovered(r, Compacted(r, disk)) <==> disk.log == [])
            && (disk.log != [] && found.Some? ==> size(found.value) > size(db))
  {
    hide RunAll;
    CompactKeeps(r, disk, db);
    var found := Recovered(r, Disk(db, disk.log));
    RunNothing(r.replay, r.load(db));
    if found.Some? { RunGrows(r, size, r.load(db), disk.log); }
  }

  // ------------------------------------------------------------ whole lives

  /** What can happen to a node: a request, with the file system's answers, or a stop and a new start,
      compacted in between or not. */
  datatype Op = Serve(r: Request, fs: seq<Wal.Written>) | Restart(compact: bool)

  datatype Node<D> = Node(start: D, world: World<D, string>, history: History<string>, disk: Disk<D>)

  /** A node that starts. */
  function Started<D>(d: D, disk: Disk<D>): Node<D> { Node(d, World(d, 0, map[]), History([], map[]), disk) }

  function Life<D>(r: Recovery<D>, c: Config<D, string>, n: Node<D>, op: Op): Node<D> {
    match op
    case Serve(sent, fs) =>
      var q := Done(c, n.world, sent, fs);
      Node(n.start, Served(c, n.world, q), Logged(c, n.world, n.history, EventsOf(q)), Saved(c, n.world, n.disk, q))
    case Restart(compact) =>
      var disk := if compact then Compacted(r, n.disk) else n.disk;
      match Recovered(r, disk) case Some(d) => Started(d, disk) case None => n
  }

  function Lived<D>(r: Recovery<D>, c: Config<D, string>, n: Node<D>, ops: seq<Op>): Node<D> {
    if ops == [] then n else Life(r, c, Lived(r, c, n, ops[..|ops| - 1]), ops[|ops| - 1])
  }

  ghost predicate Durable<D>(r: Recovery<D>, c: Config<D, string>, n: Node<D>) {
    Inv(c, n.start, n.world, n.history) && Recovers(r, n.disk, n.world.db)
  }

  /** No append leaves a part of itself, or all of it without saying so. */
  predicate Clean(fs: seq<Wal.Written>) { forall i :: 0 <= i < |fs| ==> CleanOne(fs[i]) }

  predicate CleanOne(fs: Wal.Written) { fs.Stored? || fs == Wal.Short(0) }

  /** The guards of one step: clean appends, an orderly request, none of its direct writes lost, and fewer
      than 2^64 publishes since the last start. */
  ghost predicate Guarded<D>(c: Config<D, string>, n: Node<D>, op: Op) {
    op.Serve? ==>
      var q := Done(c, n.world, op.r, op.fs);
      && Clean(op.fs) && Orderly(c, n.world, q) && Kept(c, n.world, q)
      && |Logged(c, n.world, n.history, EventsOf(q)).commits| < REVISIONS
  }

  /** Every node that starts is durable. */
  lemma StartIsDurable<D>(r: Recovery<D>, c: Config<D, string>, disk: Disk<D>)
    requires Recovered(r, disk).Some?
    ensures Durable(r, c, Started(Recovered(r, disk).value, disk))
  {
    FreshStart(c, Recovered(r, disk).value);
  }

  /** A guarded request leaves a disk that recovers exactly what is published; a start gives exactly that,
      or after a compaction what loading makes of it. */
  lemma LifeKeeps<D(!new)>(r: Recovery<D>, c: Config<D, string>, n: Node<D>, op: Op)
    requires ReadsOnly(c) && Extends(r.replay, c) && Durable(r, c, n) && Guarded(c, n, op)
    ensures Durable(r, c, Life(r, c, n, op))
    ensures op.Restart? ==> Life(r, c, n, op).world.db == if op.compact then r.load(n.world.db) else n.world.db
  {
    hide ReadsOnly, Extends, Inv, Orderly, Kept, Logged, Served, Saved, Done, RunAll, Clean;
    match op
    case Serve(sent, fs) =>
      RequestKeeps(r, c, n.start, n.world, n.history, n.disk, Done(c, n.world, sent, fs));
    case Restart(compact) =>
      CompactKeeps(r, n.disk, n.world.db);
      StartIsDurable(r, c, if compact then Compacted(r, n.disk) else n.disk);
  }

  /** Any life of requests, stops, compactions and starts loses nothing that was published. */
  lemma {:induction false} LifeIsDurable<D(!new)>(r: Recovery<D>, c: Config<D, string>, n: Node<D>, ops: seq<Op>)
    requires ReadsOnly(c) && Extends(r.replay, c) && Durable(r, c, n)
    requires forall i :: 0 <= i < |ops| ==> Guarded(c, Lived(r, c, n, ops[..i]), ops[i])
    ensures Durable(r, c, Lived(r, c, n, ops))
    decreases |ops|
  {
    hide ReadsOnly, Extends, Durable, Guarded, Life;
    if ops != [] {
      var k := |ops| - 1;
      var first := ops[..k];
      forall i | 0 <= i < k ensures first[..i] == ops[..i] && first[i] == ops[i] {}
      LifeIsDurable(r, c, n, first);
      LifeKeeps(r, c, Lived(r, c, n, first), ops[k]);
    }
  }

  // ---------------------------------------------- a COMMIT overtakes a write

  /** A database that is the list of statements run on it. */
  const LISTS: Config<seq<string>, string> :=
    Config((d: seq<string>, q: string) => Some(d + [q]), (q: string) => false, 0)

  const PLAINLY: Recovery<seq<string>> := Recovery(LISTS, (d: seq<string>) => d)

  /** It meets every condition above. */
  lemma ListsGrow(sqls: seq<string>)
    ensures ReadsOnly(LISTS) && Extends(LISTS, LISTS) && Grows(PLAINLY, (d: seq<string>) => |d|, sqls)
  {
  }

  /** One statement in the log: a compaction that stops before removing it has it twice. */
  lemma CompactedTwice()
    ensures Recovered(PLAINLY, Disk([], ["a"])) == Some(["a"])
    ensures Recovered(PLAINLY, Disk(["a"], ["a"])) == Some(["a", "a"])
  {
    RunOne(LISTS, [], "a");
    RunOne(LISTS, ["a"], "a");
    assert [] + ["a"] == ["a"] && ["a"] + ["a"] == ["a", "a"];
  }

  /** A direct write, then a transaction, in one plain batch: the log has them the other way round. */
  lemma CommitOvertakes()
    ensures var w := World([], 0, map[]);
            var events := [Statement(0, "a"), Begin(0, true), Statement(0, "b"), Commit(0, true)];
            && Served(LISTS, w, Many(events, true)).db == ["a", "b"]
            && Persisted(LISTS, w, Many(events, true)) == ["b", "a"]
            && RunAll(LISTS, [], ["b", "a"]) == Some(["b", "a"])
  {
    var w: World<seq<string>, string> := World([], 0, map[]);
    var e0, e1, e2, e3 := Statement(0, "a"), Begin(0, true), Statement(0, "b"), Commit(0, true);
    var w1, w2 := World(["a"], 1, map[]), World(["a"], 1, map[0 := InTx(Clone(["a"], 1, []))]);
    var w3 := World(["a"], 1, map[0 := InTx(Clone(["a", "b"], 1, ["b"]))]);
    OvertakingSteps();
    Backwards();
    Overtakes(LISTS, w, w1, w2, w3, e0, e1, e2, e3, "a", "b");
  }

  /** A direct write, two events without effect, and a COMMIT that publishes. */
  lemma Overtakes<D>(c: Config<D, string>,
                     w: World<D, string>, w1: World<D, string>, w2: World<D, string>, w3: World<D, string>,
                     e0: Event<string>, e1: Event<string>, e2: Event<string>, e3: Event<string>, a: string, b: string)
    requires Step(c, w, e0) == w1 && Step(c, w1, e1) == w2 && Step(c, w2, e2) == w3
    requires !e0.Commit? && !e1.Commit? && !e2.Commit? && e3.Commit?
    requires Effect(c, w, e0) == [a] && Effect(c, w1, e1) == [] && Effect(c, w2, e2) == [] && Effect(c, w3, e3) == [b]
    ensures var events := [e0, e1, e2, e3];
            After(c, w, events) == Step(c, w3, e3) && Early(c, w, events) + Pending(c, w, events) == [b, a]
  {
    hide *;
    var s1, s2, s3, events := [e0], [e0, e1], [e0, e1, e2], [e0, e1, e2, e3];
    NoFurther(c, w);
    Further(c, w, [], e0);
    assert [] + [e0] == s1;
    assert After(c, w, s1) == w1 && Early(c, w, s1) == [] && Pending(c, w, s1) == [a];
    Further(c, w, s1, e1);
    assert s1 + [e1] == s2;
    assert After(c, w, s2) == w2 && Early(c, w, s2) == [] && Pending(c, w, s2) == [a];
    Further(c, w, s2, e2);
    assert s2 + [e2] == s3;
    assert After(c, w, s3) == w3 && Early(c, w, s3) == [] && Pending(c, w, s3) == [a];
    Further(c, w, s3, e3);
    assert s3 + [e3] == events;
    assert Early(c, w, events) == [b] && Pending(c, w, events) == [a];
  }

  lemma Backwards()
    ensures RunAll(LISTS, [], ["b", "a"]) == Some(["b", "a"])
  {
    RunOne(LISTS, [], "b");
    RunSnoc(LISTS, [], ["b"], "a");
    assert [] + ["b"] == ["b"] && ["b"] + ["a"] == ["b", "a"];
  }

  lemma NoFurther<D>(c: Config<D, string>, w: World<D, string>)
    ensures After(c, w, []) == w && Early(c, w, []) == [] && Pending(c, w, []) == [] && Effects(c, w, []) == []
  {
  }

  lemma Further<D>(c: Config<D, string>, w: World<D, string>, events: seq<Event<string>>, e: Event<string>)
    ensures After(c, w, events + [e]) == Step(c, After(c, w, events), e)
    ensures var x := Effect(c, After(c, w, events), e);
            && Early(c, w, events + [e]) == (if e.Commit? then Early(c, w, events) + x else Early(c, w, events))
            && Pending(c, w, events + [e]) == (if e.Commit? then Pending(c, w, events) else Pending(c, w, events) + x)
  {
    hide Step, Effect;
    assert (events + [e])[..|events|] == events;
    assert Early(c, w, events) + [] == Early(c, w, events) && Pending(c, w, events) + [] == Pending(c, w, events);
  }

  lemma OvertakingSteps()
    ensures var w: World<seq<string>, string> := World([], 0, map[]);
            var w1, w2 := World(["a"], 1, map[]), World(["a"], 1, map[0 := InTx(Clone(["a"], 1, []))]);
            var w3 := World(["a"], 1, map[0 := InTx(Clone(["a", "b"], 1, ["b"]))]);
            && Step(LISTS, w, Statement(0, "a")) == w1 && Effect(LISTS, w, Statement(0, "a")) == ["a"]
            && Step(LISTS, w1, Begin(0, true)) == w2 && Effect(LISTS, w1, Begin(0, true)) == []
            && Step(LISTS, w2, Statement(0, "b")) == w3 && Effect(LISTS, w2, Statement(0, "b")) == []
            && Step(LISTS, w3, Commit(0, true)).db == ["a", "b"] && Effect(LISTS, w3, Commit(0, true)) == ["b"]
  {
    hide RunAll;
    OneWrite();
    assert [] + ["a"] == ["a"] && ["a"] + ["b"] == ["a", "b"] && [] + ["b"] == ["b"];
  }

  lemma OneWrite()
    ensures Writes(LISTS, ["b"]) == ["b"]
  {
    assert ["b"][..0] == [];
  }

  lemma OneEvent<D>(c: Config<D, string>, w: World<D, string>, e: Event<string>)
    ensures After(c, w, [e]) == Step(c, w, e) && Effects(c, w, [e]) == Effect(c, w, e)
  {
    hide Step, Effect;
    assert [e][..0] == [];
    assert [] + Effect(c, w, e) == Effect(c, w, e);
  }

  lemma TwoEvents<D>(c: Config<D, string>, w: World<D, string>, r: Request)
    requires r.Atomic?
    ensures var w1 := Step(c, w, StartBatch(r.id, r.sqls));
            && After(c, w, AtomicEvents(r)) == Step(c, w1, FinishBatch(r.id, r.kept))
            && Effects(c, w, AtomicEvents(r)) == Effect(c, w1, FinishBatch(r.id, r.kept))
  {
    hide Step;
    var events := AtomicEvents(r);
    assert events[..1] == [events[0]];
    OneEvent(c, w, events[0]);
    assert Effect(c, w, events[0]) == [];
    assert [] + Effect(c, After(c, w, events[..1]), events[1]) == Effect(c, After(c, w, events[..1]), events[1]);
  }
}
